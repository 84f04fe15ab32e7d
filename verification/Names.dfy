// Domain names and their canonical order (section 6.1 of RFC 4034).
//
// A name lists its labels from the root outward, in lower case, so that a name
// is a subdomain of another exactly when the other is a prefix of it.
module Names {
  import opened Base

  datatype Label = Label(octets: seq<byte>)

  type Name = seq<Label>

  // ----------------------------------------------- octet strings in order

  // The order of memcmp on strings of one length, shorter strings first.
  predicate LexLess(a: seq<byte>, b: seq<byte>) {
    b != [] && (a == [] || a[0] < b[0] || (a[0] == b[0] && LexLess(a[1..], b[1..])))
  }

  lemma {:induction false} LexTotal(a: seq<byte>, b: seq<byte>)
    ensures a == b || LexLess(a, b) || LexLess(b, a)
    ensures !(LexLess(a, b) && LexLess(b, a))
    ensures a == b ==> !LexLess(a, b)
  {
    if a != [] && b != [] {
      LexTotal(a[1..], b[1..]);
      assert a == [a[0]] + a[1..] && b == [b[0]] + b[1..];
    }
  }

  lemma {:induction false} LexTransitive(a: seq<byte>, b: seq<byte>, c: seq<byte>)
    requires LexLess(a, b) && LexLess(b, c)
    ensures LexLess(a, c)
  {
    if a != [] && b != [] && a[0] == b[0] == c[0] {
      LexTransitive(a[1..], b[1..], c[1..]);
    }
  }

  // The strings agree up to octet d, and there a has the smaller octet.
  predicate SmallerAt(a: seq<byte>, b: seq<byte>, d: nat) {
    d < |a| && d < |b| && a[..d] == b[..d] && a[d] < b[d]
  }

  // A proper prefix, or smaller at the first octet in which the two differ.
  ghost predicate Smaller(a: seq<byte>, b: seq<byte>) {
    a < b || exists d: nat :: SmallerAt(a, b, d)
  }

  lemma {:induction false} LexIs(a: seq<byte>, b: seq<byte>)
    ensures LexLess(a, b) <==> Smaller(a, b)
  {
    hide Smaller;
    if a == [] || b == [] {
      SmallerEnd(a, b);
    } else {
      LexIs(a[1..], b[1..]);
      if a[0] == b[0] {
        SmallerRest(a, b);
      } else {
        SmallerFirst(a, b);
      }
    }
  }

  lemma SmallerEnd(a: seq<byte>, b: seq<byte>)
    requires a == [] || b == []
    ensures Smaller(a, b) <==> a == [] && b != []
  {
  }

  lemma SmallerFirst(a: seq<byte>, b: seq<byte>)
    requires a != [] && b != [] && a[0] != b[0]
    ensures Smaller(a, b) <==> a[0] < b[0]
  {
    forall d: nat | 0 < d < |a| && d < |b|
      ensures !SmallerAt(a, b, d)
    {
      assert a[..d][0] != b[..d][0];
    }
    assert a[0] < b[0] <==> SmallerAt(a, b, 0);
  }

  lemma SmallerRest(a: seq<byte>, b: seq<byte>)
    requires a != [] && b != [] && a[0] == b[0]
    ensures Smaller(a, b) <==> Smaller(a[1..], b[1..])
  {
    var s, t := a[1..], b[1..];
    assert a == [a[0]] + s && b == [b[0]] + t;
    if d: nat :| SmallerAt(s, t, d) {
      assert a[..d + 1] == [a[0]] + s[..d] && b[..d + 1] == [b[0]] + t[..d];
      assert SmallerAt(a, b, d + 1);
    }
    if d: nat :| SmallerAt(a, b, d) {
      assert d > 0;
      assert s[..d - 1] == a[..d][1..] && t[..d - 1] == b[..d][1..];
      assert SmallerAt(s, t, d - 1);
    }
  }

  // ------------------------------------------------------- names in order

  predicate Less(a: Name, b: Name) {
    b != [] && (a == [] || LexLess(a[0].octets, b[0].octets) || (a[0] == b[0] && Less(a[1..], b[1..])))
  }

  lemma {:induction false} LessTotal(a: Name, b: Name)
    ensures a == b || Less(a, b) || Less(b, a)
    ensures !(Less(a, b) && Less(b, a))
    ensures a == b ==> !Less(a, b)
  {
    if a != [] && b != [] {
      LexTotal(a[0].octets, b[0].octets);
      LessTotal(a[1..], b[1..]);
      assert a == [a[0]] + a[1..] && b == [b[0]] + b[1..];
    }
  }

  lemma {:induction false} LessTransitive(a: Name, b: Name, c: Name)
    requires Less(a, b) && Less(b, c)
    ensures Less(a, c)
  {
    if a != [] && b != [] {
      if LexLess(a[0].octets, b[0].octets) && LexLess(b[0].octets, c[0].octets) {
        LexTransitive(a[0].octets, b[0].octets, c[0].octets);
      } else if a[0] == b[0] == c[0] {
        LexTotal(a[0].octets, a[0].octets);
        LessTransitive(a[1..], b[1..], c[1..]);
      }
    }
  }

  // The names agree in the first d labels, counted from the root, and the next
  // label of a is smaller than that of b.
  ghost predicate LabelSmallerAt(a: Name, b: Name, d: nat) {
    && d < |a| && d < |b| && a[..d] == b[..d]
    && Smaller(a[d].octets, b[d].octets)
  }

  ghost predicate Canonical(a: Name, b: Name) {
    a < b || exists d: nat :: LabelSmallerAt(a, b, d)
  }

  // What the canonical order is.
  lemma {:induction false} LessIs(a: Name, b: Name)
    ensures Less(a, b) <==> Canonical(a, b)
  {
    hide LexLess, Canonical;
    if a == [] || b == [] {
      CanonicalEnd(a, b);
    } else {
      LessIs(a[1..], b[1..]);
      LexTotal(a[0].octets, b[0].octets);
      if a[0] == b[0] {
        CanonicalRest(a, b);
      } else {
        CanonicalFirst(a, b);
      }
    }
  }

  lemma CanonicalEnd(a: Name, b: Name)
    requires a == [] || b == []
    ensures Canonical(a, b) <==> a == [] && b != []
  {
  }

  lemma CanonicalFirst(a: Name, b: Name)
    requires a != [] && b != [] && a[0] != b[0]
    ensures Canonical(a, b) <==> LexLess(a[0].octets, b[0].octets)
  {
    LexIs(a[0].octets, b[0].octets);
    forall d: nat | 0 < d < |a| && d < |b|
      ensures !LabelSmallerAt(a, b, d)
    {
      assert a[..d][0] != b[..d][0];
    }
    assert LexLess(a[0].octets, b[0].octets) <==> LabelSmallerAt(a, b, 0);
  }

  lemma CanonicalRest(a: Name, b: Name)
    requires a != [] && b != [] && a[0] == b[0]
    ensures Canonical(a, b) <==> Canonical(a[1..], b[1..])
  {
    hide Smaller;
    var s, t := a[1..], b[1..];
    assert a == [a[0]] + s && b == [b[0]] + t;
    if d: nat :| LabelSmallerAt(s, t, d) {
      assert a[..d + 1] == [a[0]] + s[..d] && b[..d + 1] == [b[0]] + t[..d];
      assert LabelSmallerAt(a, b, d + 1);
    }
    if d: nat :| LabelSmallerAt(a, b, d) {
      NotSmaller(a[0].octets);
      assert d > 0;
      assert s[..d - 1] == a[..d][1..] && t[..d - 1] == b[..d][1..];
      assert LabelSmallerAt(s, t, d - 1);
    }
  }

  lemma NotSmaller(a: seq<byte>)
    ensures !Smaller(a, a)
  {
  }

  // ------------------------------------------------------------ hierarchy

  // dns_name_issubdomain
  predicate IsSubdomain(n: Name, top: Name) {
    top <= n
  }

  predicate ProperlyBelow(n: Name, top: Name) {
    top < n
  }

  // The number of labels that two names share from the root, without the root
  // itself (nlabels of dns_name_fullcompare, less one).
  function Common(a: Name, b: Name): (k: nat)
    ensures k <= |a| && k <= |b|
  {
    if a == [] || b == [] || a[0] != b[0] then 0 else 1 + Common(a[1..], b[1..])
  }

  lemma {:induction false} BelowIsLater(n: Name, top: Name)
    requires ProperlyBelow(n, top)
    ensures Less(top, n)
  {
    if top != [] {
      BelowIsLater(n[1..], top[1..]);
    }
  }

  // The names below top are contiguous in the canonical order.
  lemma {:induction false} SubtreeContiguous(top: Name, a: Name, b: Name, c: Name)
    requires IsSubdomain(a, top) && IsSubdomain(c, top)
    requires a == b || Less(a, b)
    requires b == c || Less(b, c)
    ensures IsSubdomain(b, top)
  {
    if top != [] && a != b && b != c {
      LexTotal(a[0].octets, b[0].octets);
      assert a[0] == top[0] == c[0];
      assert b[0] == top[0];
      SubtreeContiguous(top[1..], a[1..], b[1..], c[1..]);
      assert b == [b[0]] + b[1..] && top == [top[0]] + top[1..];
    }
  }

  // ------------------------------------------------------- sorted zones

  ghost predicate Ascending(names: seq<Name>) {
    forall i, j :: 0 <= i < j < |names| ==> Less(names[i], names[j])
  }

  lemma AscendingDistinct(names: seq<Name>)
    requires Ascending(names)
    ensures Distinct(names)
  {
    forall i, j | 0 <= i < j < |names|
      ensures names[i] != names[j]
    {
      LessTotal(names[i], names[j]);
    }
  }

  // An ancestor of a later name is an ancestor of every name in between.
  lemma AncestorBetween(names: seq<Name>, i: nat, j: nat, k: nat)
    requires Ascending(names) && i <= j <= k < |names| && IsSubdomain(names[k], names[i])
    ensures IsSubdomain(names[j], names[i])
  {
    SubtreeContiguous(names[i], names[i], names[j], names[k]);
  }
}
