// The names that an NSEC3 chain covers: the names of the zone that are
// included, and the empty non-terminals above them (section 7.1 of RFC 5155).
module Empties {
  import opened Base
  import opened Names

  // The ancestors of next that lie in the span from name to next: those longer
  // than what the two share, the longest first.
  function Span(name: Name, next: Name): seq<Name> {
    if next == [] then [] else Ancestors(next, |next| - 1, Common(name, next))
  }

  // The ancestors of next with top labels down to those with more than low.
  function Ancestors(next: Name, top: nat, low: nat): (r: seq<Name>)
    requires top <= |next|
    ensures |r| == if top > low then top - low else 0
    ensures forall i :: 0 <= i < |r| ==> r[i] == next[..top - i]
    decreases top
  {
    if top <= low then [] else [next[..top]] + Ancestors(next, top - 1, low)
  }

  // What is covered after name when the names in rest follow it.
  function Later(name: Name, rest: seq<Name>): seq<Name>
    decreases |rest|
  {
    if rest == [] then [] else Span(name, rest[0]) + [rest[0]] + Later(rest[0], rest[1..])
  }

  // Everything covered for the included names.
  function Chain(names: seq<Name>): seq<Name> {
    if names == [] then [] else [names[0]] + Later(names[0], names[1..])
  }

  // ----------------------------------------------------------- properties

  lemma {:induction false} CommonPrefix(a: Name, b: Name, x: Name)
    requires IsSubdomain(b, x)
    ensures IsSubdomain(a, x) <==> |x| <= Common(a, b)
  {
    if x != [] && a != [] && a[0] == b[0] {
      CommonPrefix(a[1..], b[1..], x[1..]);
      assert a == [a[0]] + a[1..] && x == [x[0]] + x[1..];
    }
  }

  // An ancestor of next is in the span exactly when name is not below it.
  lemma InSpan(name: Name, next: Name, x: Name)
    requires ProperlyBelow(next, x)
    ensures x in Span(name, next) <==> !IsSubdomain(name, x)
  {
    CommonPrefix(name, next, x);
    assert x == next[..|x|];
    if !IsSubdomain(name, x) {
      assert Span(name, next)[|next| - 1 - |x|] == next[..|x|];
    }
  }

  // Nothing is left out when the walk returns to the origin.
  lemma SpanToTop(name: Name, top: Name)
    requires IsSubdomain(name, top)
    ensures Span(name, top) == []
  {
    CommonPrefix(name, top, top);
  }

  lemma SpanOnly(name: Name, next: Name, x: Name)
    requires x in Span(name, next)
    ensures ProperlyBelow(next, x) && !IsSubdomain(name, x)
  {
    var i :| 0 <= i < |Span(name, next)| && Span(name, next)[i] == x;
    assert x == next[..|next| - 1 - i];
    InSpan(name, next, x);
  }

  // Names in ascending order, all after name and all below top.
  ghost predicate Follows(top: Name, name: Name, rest: seq<Name>) {
    && IsSubdomain(name, top) && Ascending([name] + rest)
    && forall i :: 0 <= i < |rest| ==> ProperlyBelow(rest[i], top)
  }

  lemma FollowsTail(top: Name, name: Name, rest: seq<Name>)
    requires Follows(top, name, rest) && rest != []
    ensures Follows(top, rest[0], rest[1..]) && Less(name, rest[0])
  {
    var all := [name] + rest;
    assert [rest[0]] + rest[1..] == rest;
    assert forall i :: 0 <= i < |rest| ==> rest[i] == all[i + 1];
    assert Less(all[0], all[1]);
  }

  // What is covered after name: exactly the ancestors of the following names
  // (themselves included) that are not ancestors of name.
  lemma {:induction false} LaterIs(top: Name, name: Name, rest: seq<Name>, x: Name)
    requires Follows(top, name, rest)
    ensures x in Later(name, rest) <==>
            !IsSubdomain(name, x) && exists i :: 0 <= i < |rest| && IsSubdomain(rest[i], x)
    decreases |rest|
  {
    if rest != [] {
      var n, tail := rest[0], rest[1..];
      FollowsTail(top, name, rest);
      LaterIs(top, n, tail, x);
      LessTotal(name, n);
      if x in Span(name, n) {
        SpanOnly(name, n, x);
      }
      if x == n && IsSubdomain(name, n) && name != n {
        BelowIsLater(name, n);
      }
      if i :| 0 <= i < |tail| && IsSubdomain(tail[i], x) {
        assert rest[i + 1] == tail[i];
        if IsSubdomain(name, x) {
          assert Less(([n] + tail)[0], ([n] + tail)[i + 1]);
          SubtreeContiguous(x, name, n, tail[i]);
        }
      }
      if i :| 0 <= i < |rest| && IsSubdomain(rest[i], x) && !IsSubdomain(name, x) {
        if IsSubdomain(n, x) && x != n {
          InSpan(name, n, x);
        } else if i > 0 {
          assert tail[i - 1] == rest[i];
        }
      }
    }
  }

  // ------------------------------------------------------ the whole chain

  // names is a zone's list of included names: the origin and names below it,
  // in canonical order.
  ghost predicate Included(top: Name, names: seq<Name>) {
    names != [] && names[0] == top && Follows(top, top, names[1..])
  }

  // The chain covers exactly the included names and the names of the zone
  // above them, that is, the empty non-terminals.
  lemma ChainIs(top: Name, names: seq<Name>, x: Name)
    requires Included(top, names)
    ensures x in Chain(names) <==> IsSubdomain(x, top) && exists i :: 0 <= i < |names| && IsSubdomain(names[i], x)
  {
    var rest := names[1..];
    LaterIs(top, top, rest, x);
    assert names == [top] + rest;
    if IsSubdomain(top, x) && IsSubdomain(x, top) {
      assert x == top;
    }
    if i :| 0 <= i < |names| && IsSubdomain(names[i], x) {
      BothAbove(names[i], top, x);
      if i > 0 {
        assert rest[i - 1] == names[i];
      }
    }
    if i :| 0 <= i < |rest| && IsSubdomain(rest[i], x) {
      assert names[i + 1] == rest[i];
    }
  }

  lemma BothAbove(n: Name, a: Name, b: Name)
    requires IsSubdomain(n, a) && IsSubdomain(n, b)
    ensures IsSubdomain(a, b) || IsSubdomain(b, a)
  {
  }

  // No name is covered twice.
  lemma ChainDistinct(top: Name, names: seq<Name>)
    requires Included(top, names)
    ensures Distinct(Chain(names))
  {
    LaterDistinct(top, top, names[1..]);
    LaterIs(top, top, names[1..], top);
  }

  lemma {:induction false} LaterDistinct(top: Name, name: Name, rest: seq<Name>)
    requires Follows(top, name, rest)
    ensures Distinct(Later(name, rest))
    decreases |rest|
  {
    if rest != [] {
      var n, tail := rest[0], rest[1..];
      FollowsTail(top, name, rest);
      LaterDistinct(top, n, tail);
      var here, later := Span(name, n) + [n], Later(n, tail);
      forall i, j | 0 <= i < |here| && 0 <= j < |later|
        ensures here[i] != later[j]
      {
        LaterIs(top, n, tail, later[j]);
        if i < |here| - 1 {
          SpanOnly(name, n, here[i]);
        }
      }
      assert Distinct(here);
      DistinctConcat(here, later);
    }
  }

  lemma DistinctConcat<T(!new)>(a: seq<T>, b: seq<T>)
    requires Distinct(a) && Distinct(b)
    requires forall i, j :: 0 <= i < |a| && 0 <= j < |b| ==> a[i] != b[j]
    ensures Distinct(a + b)
  {
  }
}
