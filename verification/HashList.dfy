// The list of NSEC3 hashes: a flat buffer of fixed-size entries that grows, is
// sorted, and then serves circular look-ups (hashlist_* in
// bin/dnssec/dnssec-signzone.c).
module HashList {
  import opened Base
  import opened Names

  // An entry: the octets of a hash followed by a flag octet, which is not zero
  // for the speculative hashes of wildcards that do not exist.
  datatype Entry = Entry(octets: seq<byte>)

  predicate Real(e: Entry) {
    e.octets != [] && e.octets[|e.octets| - 1] == 0
  }

  function Key(e: Entry): seq<byte> {
    if e.octets == [] then [] else e.octets[..|e.octets| - 1]
  }

  function MakeEntry(hash: seq<byte>, speculative: bool): (e: Entry)
    ensures Key(e) == hash && (Real(e) <==> !speculative) && |e.octets| == |hash| + 1 && e.octets[|hash|] <= 1
  {
    Entry(hash + [if speculative then 1 else 0])
  }

  // hashlist_comp: less, as memcmp has it
  predicate Before(a: Entry, b: Entry) {
    LexLess(a.octets, b.octets)
  }

  ghost predicate InOrder(s: seq<Entry>) {
    forall i, j :: 0 <= i < j < |s| ==> s[i] == s[j] || Before(s[i], s[j])
  }

  ghost predicate Uniform(s: seq<Entry>, length: nat) {
    forall i :: 0 <= i < |s| ==> |s[i].octets| == length
  }

  lemma BeforeTransitive(a: Entry, b: Entry, c: Entry)
    requires (a == b || Before(a, b)) && (b == c || Before(b, c))
    ensures a == c || Before(a, c)
    ensures a == c ==> a == b
  {
    LexTotal(a.octets, b.octets);
    if Before(a, b) && Before(b, c) {
      LexTransitive(a.octets, b.octets, c.octets);
    }
  }

  // a is b, or has the smaller octet where the two first differ.
  ghost predicate NotLater(a: Entry, b: Entry) {
    a == b || exists d: nat :: SmallerAt(a.octets, b.octets, d)
  }

  // In order means ascending.
  lemma SortedAscends(s: seq<Entry>, length: nat)
    requires InOrder(s) && Uniform(s, length)
    ensures forall i, j :: 0 <= i < j < |s| ==> NotLater(s[i], s[j])
  {
    hide LexLess;
    forall i, j | 0 <= i < j < |s|
      ensures NotLater(s[i], s[j])
    {
      LexIs(s[i].octets, s[j].octets);
    }
  }

  // ------------------------------------------------------------- sorting

  function Insert(s: seq<Entry>, e: Entry): (r: seq<Entry>)
    ensures |r| == |s| + 1 && multiset(r) == multiset(s) + multiset{e}
  {
    if s == [] || !Before(s[0], e) then [e] + s
    else
      assert s == [s[0]] + s[1..];
      [s[0]] + Insert(s[1..], e)
  }

  lemma {:induction false} InsertKeepsOrder(s: seq<Entry>, e: Entry)
    requires InOrder(s)
    ensures InOrder(Insert(s, e))
  {
    var r := Insert(s, e);
    if s == [] {
    } else if !Before(s[0], e) {
      LexTotal(s[0].octets, e.octets);
      forall j | 0 <= j < |s|
        ensures e == s[j] || Before(e, s[j])
      {
        BeforeTransitive(e, s[0], s[j]);
      }
    } else {
      InsertKeepsOrder(s[1..], e);
      var tail := Insert(s[1..], e);
      forall j | 0 <= j < |tail|
        ensures s[0] == tail[j] || Before(s[0], tail[j])
      {
        assert tail[j] in multiset(tail);
        assert tail[j] == e || tail[j] in s[1..];
      }
    }
  }

  // --------------------------------------------------- the ring of hashes

  ghost function RealMarks(s: seq<Entry>): (m: seq<bool>)
    ensures |m| == |s| && forall i :: 0 <= i < |s| ==> m[i] == Real(s[i])
  {
    seq(|s|, i requires 0 <= i < |s| => Real(s[i]))
  }

  // No two real entries have one hash.
  ghost predicate NoDuplicate(s: seq<Entry>) {
    forall i, j :: 0 <= i < j < |s| && Real(s[i]) && Real(s[j]) ==> Key(s[i]) != Key(s[j])
  }

  lemma RealEqual(a: Entry, b: Entry)
    requires Real(a) && Real(b)
    ensures Key(a) == Key(b) <==> a == b
  {
    assert a.octets == Key(a) + [0] && b.octets == Key(b) + [0];
  }

  // The real entries, in the order of the list.
  ghost function Reals(s: seq<Entry>): seq<Entry> {
    if s == [] then []
    else
      var last := s[|s| - 1];
      Reals(s[..|s| - 1]) + if Real(last) then [last] else []
  }

  lemma RealsAppend(s: seq<Entry>, e: Entry)
    ensures Reals(s + [e]) == if Real(e) then Reals(s) + [e] else Reals(s)
  {
    assert (s + [e])[..|s|] == s;
  }

  lemma {:induction false} RealsCount(s: seq<Entry>, e: Entry)
    ensures multiset(Reals(s))[e] == if Real(e) then multiset(s)[e] else 0
  {
    if s != [] {
      var n := |s| - 1;
      RealsCount(s[..n], e);
      RealsAppend(s[..n], s[n]);
      assert s == s[..n] + [s[n]];
      hide Real;
    }
  }

  lemma DistinctByCount(s: seq<Entry>)
    ensures Distinct(s) <==> forall e :: multiset(s)[e] <= 1
  {
    forall i, j | 0 <= i < j < |s| && s[i] == s[j]
      ensures multiset(s)[s[i]] >= 2
    {
      AtLeastTwo(s, i, j);
    }
    if e :| multiset(s)[e] >= 2 {
      var i, j := FindTwo(s, e);
    }
  }

  lemma NoDuplicateByCount(s: seq<Entry>)
    ensures NoDuplicate(s) <==> forall e :: Real(e) ==> multiset(s)[e] <= 1
  {
    forall i, j | 0 <= i < j < |s| && Real(s[i]) && Real(s[j]) && Key(s[i]) == Key(s[j])
      ensures multiset(s)[s[i]] >= 2
    {
      RealEqual(s[i], s[j]);
      AtLeastTwo(s, i, j);
    }
    if e :| Real(e) && multiset(s)[e] >= 2 {
      var i, j := FindTwo(s, e);
    }
  }

  // Whether there is a duplicate does not depend on the order of the entries.
  lemma DuplicateAnyOrder(s: seq<Entry>, sorted: seq<Entry>)
    requires multiset(s) == multiset(sorted)
    ensures NoDuplicate(sorted) <==> Distinct(Reals(s))
  {
    hide NoDuplicate, Distinct;
    NoDuplicateByCount(sorted);
    DistinctByCount(Reals(s));
    forall e
      ensures multiset(Reals(s))[e] == if Real(e) then multiset(sorted)[e] else 0
    {
      RealsCount(s, e);
    }
  }

  // next is where hashlist_findnext leads from the real entry of a hash.
  ghost predicate Successor(s: seq<Entry>, hash: seq<byte>, next: nat) {
    exists k :: 0 <= k < |s| && s[k] == MakeEntry(hash, false) && FirstMarked(RealMarks(s), k, next)
  }

  // In a sorted list without duplicates the successors form a single ring: the
  // real entries in ascending order of their hashes, then the first one again.
  lemma HashRing(s: seq<Entry>, t: nat, next: nat)
    requires InOrder(s) && NoDuplicate(s)
    requires t < |Picks(RealMarks(s), 0)|
    requires Successor(s, Key(s[Picks(RealMarks(s), 0)[t]]), next)
    ensures var v := Picks(RealMarks(s), 0);
            && next == v[After(t, |v|)]
            && (t + 1 < |v| ==> Smaller(Key(s[v[t]]), Key(s[next])))
            && (t + 1 < |v| && |Key(s[v[t]])| == |Key(s[next])| ==> exists d: nat :: SmallerAt(Key(s[v[t]]), Key(s[next]), d))
  {
    hide Picks, Before;
    var v := Picks(RealMarks(s), 0);
    var k :| 0 <= k < |s| && s[k] == MakeEntry(Key(s[v[t]]), false) && FirstMarked(RealMarks(s), k, next);
    assert k == v[t];
    FirstMarkedIsNext(RealMarks(s), t, next);
    if t + 1 < |v| {
      assert v[t] < v[t + 1];
      RealEqual(s[v[t]], s[v[t + 1]]);
      KeysSmaller(s[v[t]], s[v[t + 1]]);
    }
  }

  // Of two real entries the earlier one has the smaller hash.
  lemma KeysSmaller(a: Entry, b: Entry)
    requires Real(a) && Real(b) && Key(a) != Key(b) && Before(a, b)
    ensures Smaller(Key(a), Key(b))
  {
    LexIs(a.octets, b.octets);
    hide LexLess;
    var x, y := Key(a), Key(b);
    assert a.octets == x + [0] && b.octets == y + [0];
    if d: nat :| SmallerAt(a.octets, b.octets, d) {
      if d < |x| && d < |y| {
        assert a.octets[..d] == x[..d] && b.octets[..d] == y[..d];
        assert SmallerAt(x, y, d);
      } else {
        assert d == |x| < |y| && x == a.octets[..d] == b.octets[..d] == y[..d];
      }
    } else {
      assert a.octets < b.octets && |x| < |y|;
      assert x == a.octets[..|x|] == b.octets[..|x|] == y[..|x|];
    }
  }

  // ------------------------------------------------------ looking for duplicates

  // Entry current is the last real one up to next.
  ghost predicate LatestReal(s: seq<Entry>, current: nat, next: nat) {
    current <= next < |s| && Real(s[current]) && forall i :: current < i <= next ==> !Real(s[i])
  }

  ghost predicate AllDiffer(s: seq<Entry>, next: nat) {
    next < |s| && forall i, j :: 0 <= i < j <= next && Real(s[i]) && Real(s[j]) ==> s[i] != s[j]
  }

  lemma NoneReal(s: seq<Entry>)
    requires forall i :: 0 <= i < |s| ==> !Real(s[i])
    ensures NoDuplicate(s)
  {
  }

  lemma FoundTwo(s: seq<Entry>, current: nat, next: nat)
    requires current < next < |s| && Real(s[current]) && Real(s[next]) && Key(s[current]) == Key(s[next])
    ensures !NoDuplicate(s)
  {
  }

  lemma NextReal(s: seq<Entry>, current: nat, next: nat)
    requires InOrder(s) && 0 < next < |s| && LatestReal(s, current, next - 1) && AllDiffer(s, next - 1)
    requires Real(s[next]) && Key(s[current]) != Key(s[next])
    ensures LatestReal(s, next, next) && AllDiffer(s, next)
  {
    hide Before, Real, Key;
    RealEqual(s[current], s[next]);
    forall i | 0 <= i < next && Real(s[i])
      ensures s[i] != s[next]
    {
      if i != current {
        BeforeTransitive(s[i], s[current], s[next]);
      }
    }
  }

  lemma NoneFound(s: seq<Entry>)
    requires s != [] && AllDiffer(s, |s| - 1)
    ensures NoDuplicate(s)
  {
    forall i, j | 0 <= i < j < |s| && Real(s[i]) && Real(s[j])
      ensures Key(s[i]) != Key(s[j])
    {
      RealEqual(s[i], s[j]);
    }
  }

  // ------------------------------------------------------------ memory

  // Slot i ends where the next one begins, and so before any later one.
  lemma {:induction false} Fits(i: nat, n: nat, length: nat)
    requires i < n
    ensures i * length + length <= n * length
    decreases n
  {
    assert n * length == (n - 1) * length + length;
    if i < n - 1 {
      Fits(i, n - 1, length);
    }
  }

  ghost function Slot(buf: seq<byte>, length: nat, i: nat): Entry {
    if i * length + length <= |buf| then Entry(buf[i * length..i * length + length]) else Entry([])
  }

  ghost function Slots(buf: seq<byte>, length: nat, n: nat): (s: seq<Entry>)
    ensures |s| == n && forall i :: 0 <= i < n ==> s[i] == Slot(buf, length, i)
  {
    seq(n, i requires 0 <= i < n => Slot(buf, length, i))
  }

  // Only the octets of a slot matter for it.
  lemma SlotFrame(a: seq<byte>, b: seq<byte>, length: nat, n: nat)
    requires n * length <= |a| && n * length <= |b| && a[..n * length] == b[..n * length]
    ensures Slots(a, length, n) == Slots(b, length, n)
  {
    forall i | 0 <= i < n
      ensures Slot(a, length, i) == Slot(b, length, i)
    {
      Fits(i, n, length);
      var lo, hi := i * length, i * length + length;
      assert a[lo..hi] == a[..n * length][lo..hi];
      assert b[lo..hi] == b[..n * length][lo..hi];
    }
  }

  class List {
    var hashbuf: array<byte>
    var entries: nat
    var size: nat
    const length: nat // of an entry

    ghost predicate Valid()
      reads this
    {
      entries <= size && hashbuf.Length == size * length
    }

    ghost function Entries(): (s: seq<Entry>)
      reads this, hashbuf
      requires Valid()
      ensures |s| == entries && Uniform(s, length)
    {
      assert forall i :: 0 <= i < entries ==> |Slot(hashbuf[..], length, i).octets| == length by {
        forall i | 0 <= i < entries
          ensures |Slot(hashbuf[..], length, i).octets| == length
        {
          Fits(i, size, length);
        }
      }
      Slots(hashbuf[..], length, entries)
    }

    // hashlist_init
    constructor (nodes: nat, hashLength: nat)
      ensures Valid() && fresh(hashbuf) && length == hashLength + 1 && Entries() == []
    {
      entries, size, length := 0, nodes, hashLength + 1;
      hashbuf := new byte[nodes * (hashLength + 1)];
    }

    // hashlist_add: an entry shorter than the slot is followed by zeros
    method Add(hash: seq<byte>)
      requires Valid() && |hash| <= length
      modifies this`hashbuf, this`entries, this`size, hashbuf
      ensures Valid() && (hashbuf == old(hashbuf) || fresh(hashbuf))
      ensures Entries() == old(Entries()) + [Entry(Padded(hash, length))]
    {
      if entries == size {
        Grow();
      }
      Fits(entries, size, length);
      ghost var before := hashbuf[..];
      Fill(hashbuf, entries * length, Padded(hash, length));
      SlotFrame(before, hashbuf[..], length, entries);
      entries := entries + 1;
      assert Slot(hashbuf[..], length, entries - 1) == Entry(Padded(hash, length));
    }

    // hashlist_add_dns_name, given the hash of the name
    method AddHash(hash: seq<byte>, speculative: bool)
      requires Valid() && |hash| + 1 == length
      modifies this`hashbuf, this`entries, this`size, hashbuf
      ensures Valid() && (hashbuf == old(hashbuf) || fresh(hashbuf))
      ensures Entries() == old(Entries()) + [MakeEntry(hash, speculative)]
    {
      Add(hash + [if speculative then 1 else 0]);
    }

    function At(i: nat): (e: Entry)
      reads this, hashbuf
      requires Valid() && i < entries
      ensures e == Entries()[i] && |e.octets| == length
    {
      Fits(i, size, length);
      Entry(hashbuf[i * length..i * length + length])
    }

    // hashlist_sort
    method Sort()
      requires Valid()
      modifies hashbuf
      ensures Valid() && InOrder(Entries()) && multiset(Entries()) == multiset(old(Entries()))
      ensures forall i, j :: 0 <= i < j < entries ==> NotLater(Entries()[i], Entries()[j])
    {
      var sorted := [];
      var i := 0;
      while i < entries
        invariant i <= entries && hashbuf[..] == old(hashbuf[..])
        invariant |sorted| == i && InOrder(sorted) && multiset(sorted) == multiset(Entries()[..i])
      {
        InsertKeepsOrder(sorted, At(i));
        sorted := Insert(sorted, At(i));
        TakeNext(Entries(), i);
        i := i + 1;
      }
      assert Entries()[..entries] == Entries();
      SameUniform(sorted, Entries(), length);
      SortedAscends(sorted, length);
      Store(sorted);
    }

    method Store(s: seq<Entry>)
      requires Valid() && |s| == entries && Uniform(s, length)
      modifies hashbuf
      ensures Valid() && Entries() == s
    {
      var i := 0;
      while i < entries
        invariant i <= entries && Slots(hashbuf[..], length, i) == s[..i]
      {
        Fits(i, size, length);
        ghost var before := hashbuf[..];
        Fill(hashbuf, i * length, s[i].octets);
        SlotFrame(before, hashbuf[..], length, i);
        assert Slot(hashbuf[..], length, i) == s[i];
        i := i + 1;
      }
    }

    // hashlist_hasdup
    method HasDup() returns (dup: bool)
      requires Valid() && length > 0 && InOrder(Entries())
      ensures dup <==> !NoDuplicate(Entries())
    {
      hide Entries, At, Real, Key, Before, InOrder, NoDuplicate;
      var next: nat, left: nat := 0, entries;
      ghost var s := Entries();
      while left > 0 && !Real(At(next))
        invariant next + left == entries && forall i :: 0 <= i < next ==> !Real(s[i])
      {
        next, left := next + 1, left - 1;
      }
      var current := next;
      if left == 0 {
        NoneReal(s);
        return false;
      }
      while left > 1
        invariant next + left == entries && current <= next < entries
        invariant LatestReal(s, current, next) && AllDiffer(s, next)
      {
        next, left := next + 1, left - 1;
        if Real(At(next)) {
          if Key(At(current)) == Key(At(next)) {
            FoundTwo(s, current, next);
            return true;
          }
          NextReal(s, current, next);
          current := next;
        }
      }
      NoneFound(s);
      return false;
    }

    // bsearch over the entries
    method Search(key: Entry) returns (found: bool, at: nat)
      requires Valid() && InOrder(Entries())
      ensures found ==> at < entries && Entries()[at] == key
      ensures found <==> key in Entries()
    {
      var lo, hi := 0, entries;
      ghost var s := Entries();
      while lo < hi
        invariant 0 <= lo <= hi <= entries
        invariant forall i :: 0 <= i < entries && !(lo <= i < hi) ==> s[i] != key
      {
        var mid := (lo + hi) / 2;
        if At(mid) == key {
          return true, mid;
        }
        LexTotal(s[mid].octets, key.octets);
        if Before(At(mid), key) {
          forall i | 0 <= i <= mid
            ensures s[i] != key
          {
            BeforeTransitive(s[i], s[mid], key);
          }
          lo := mid + 1;
        } else {
          forall i | mid <= i < entries
            ensures s[i] != key
          {
            BeforeTransitive(key, s[mid], s[i]);
          }
          hi := mid;
        }
      }
      return false, 0;
    }

    // hashlist_exists
    method Exists(hash: seq<byte>) returns (exists': bool)
      requires Valid() && InOrder(Entries())
      ensures exists' <==> MakeEntry(hash, false) in Entries()
    {
      var at;
      exists', at := Search(MakeEntry(hash, false));
    }

    // hashlist_findnext; the search key is followed by a zero flag octet
    method FindNext(hash: seq<byte>) returns (next: nat)
      requires Valid() && InOrder(Entries()) && MakeEntry(hash, false) in Entries()
      ensures next < entries && Successor(Entries(), hash, next)
    {
      hide Entries, At;
      var found;
      found, next := Search(MakeEntry(hash, false));
      assert found; // INSIST(next != NULL)
      ghost var k, s := next, Entries();
      assert Real(s[k]);
      hide Real;
      var left := entries;
      while true
        invariant 1 <= left <= entries && next < entries
        invariant left == entries ==> next == k
        invariant left < entries ==> !Real(s[next])
        invariant k <= next ==> left == entries - (next - k) && forall m :: k < m <= next ==> !Real(s[m])
        invariant next < k ==> left == k - next && (forall m :: k < m < entries ==> !Real(s[m]))
                               && forall m :: 0 <= m <= next ==> !Real(s[m])
        decreases left
      {
        next := if next < entries - 1 then next + 1 else 0;
        if Real(At(next)) {
          break;
        }
        assert next != k;
        left := left - 1;
        assert left != 0; // INSIST(entries != 0)
      }
      assert FirstMarked(RealMarks(s), k, next);
    }

    method Grow()
      requires Valid()
      modifies this`hashbuf, this`size
      ensures Valid() && fresh(hashbuf) && size > entries && Entries() == old(Entries())
    {
      var bigger := new byte[(size * 2 + 100) * length];
      assert entries * length <= hashbuf.Length by {
        assert (size - entries) * length >= 0;
      }
      assert entries * length <= bigger.Length by {
        assert (size * 2 + 100 - entries) * length >= 0;
      }
      Copy(hashbuf, bigger, entries * length);
      SlotFrame(hashbuf[..], bigger[..], length, entries);
      hashbuf := bigger;
      size := size * 2 + 100;
    }
  }

  // A permutation of uniform entries is uniform.
  lemma SameUniform(a: seq<Entry>, b: seq<Entry>, length: nat)
    requires multiset(a) == multiset(b) && Uniform(b, length)
    ensures Uniform(a, length)
  {
    forall i | 0 <= i < |a|
      ensures |a[i].octets| == length
    {
      assert a[i] in multiset(b);
    }
  }

  // The octets of hash, followed by zeros.
  function Padded(hash: seq<byte>, length: nat): (s: seq<byte>)
    requires |hash| <= length
    ensures |s| == length && s[..|hash|] == hash && (|hash| == length ==> s == hash)
    ensures forall i :: |hash| <= i < length ==> s[i] == 0
  {
    hash + seq(length - |hash|, _ => 0)
  }

  method Fill(a: array<byte>, at: nat, octets: seq<byte>)
    requires at + |octets| <= a.Length
    modifies a
    ensures a[..at] == old(a[..at]) && a[at..at + |octets|] == octets
  {
    var k := 0;
    while k < |octets|
      invariant k <= |octets| && a[..at] == old(a[..at]) && a[at..at + k] == octets[..k]
    {
      a[at + k] := octets[k];
      k := k + 1;
    }
  }

  method Copy(a: array<byte>, b: array<byte>, n: nat)
    requires a != b && n <= a.Length && n <= b.Length
    modifies b
    ensures b[..n] == a[..n]
  {
    var k := 0;
    while k < n
      invariant k <= n && b[..k] == a[..k]
    {
      b[k] := a[k];
      k := k + 1;
    }
  }
}
