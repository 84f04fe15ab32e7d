// Whether every key of a DS RRset has the same digest types
// (consistent_digests in bin/dnssec/dnssec-cds.c).
module Digests {
  import opened Base
  import opened Names

  datatype Ds = Ds(tag: nat, alg: nat, dtype: nat, digest: seq<byte>)

  // The key that a record identifies.
  datatype KeyId = KeyId(tag: nat, alg: nat)

  function Id(d: Ds): KeyId {
    KeyId(d.tag, d.alg)
  }

  predicate IdLess(a: KeyId, b: KeyId) {
    a.tag < b.tag || (a.tag == b.tag && a.alg < b.alg)
  }

  // dns_rdata_compare on DS records: by tag, algorithm, digest type and digest
  predicate Less(a: Ds, b: Ds) {
    || IdLess(Id(a), Id(b))
    || (Id(a) == Id(b) && (a.dtype < b.dtype || (a.dtype == b.dtype && LexLess(a.digest, b.digest))))
  }

  ghost predicate InOrder(s: seq<Ds>) {
    forall i, j :: 0 <= i < j < |s| ==> !Less(s[j], s[i])
  }

  // No two records agree in tag, algorithm and digest type.
  ghost predicate Unique(s: seq<Ds>) {
    forall i, j :: 0 <= i < j < |s| ==> Id(s[i]) != Id(s[j]) || s[i].dtype != s[j].dtype
  }

  // ------------------------------------------------------------- sorting

  lemma LessTransitive(a: Ds, b: Ds, c: Ds)
    requires !Less(b, a) && !Less(c, b)
    ensures !Less(c, a)
  {
    LexTotal(a.digest, b.digest);
    LexTotal(b.digest, c.digest);
    LexTotal(a.digest, c.digest);
    if LexLess(a.digest, b.digest) && LexLess(b.digest, c.digest) {
      LexTransitive(a.digest, b.digest, c.digest);
    }
  }

  function Insert(s: seq<Ds>, d: Ds): (r: seq<Ds>)
    ensures |r| == |s| + 1 && multiset(r) == multiset(s) + multiset{d}
  {
    if s == [] || !Less(s[0], d) then [d] + s
    else
      assert s == [s[0]] + s[1..];
      [s[0]] + Insert(s[1..], d)
  }

  lemma {:induction false} InsertKeepsOrder(s: seq<Ds>, d: Ds)
    requires InOrder(s)
    ensures InOrder(Insert(s, d))
  {
    if s != [] && !Less(s[0], d) {
      forall j | 0 <= j < |s|
        ensures !Less(s[j], d)
      {
        if j > 0 {
          LessTransitive(d, s[0], s[j]);
        }
      }
    } else if s != [] {
      InsertKeepsOrder(s[1..], d);
      var tail := Insert(s[1..], d);
      forall j | 0 <= j < |tail|
        ensures !Less(tail[j], s[0])
      {
        assert tail[j] in multiset(tail);
        if tail[j] == d {
          LexTotal(s[0].digest, d.digest);
        } else {
          assert tail[j] in s[1..];
        }
      }
    }
  }

  function Sorted(dsset: seq<Ds>): (s: seq<Ds>)
    ensures |s| == |dsset| && multiset(s) == multiset(dsset)
  {
    if dsset == [] then []
    else
      var n := |dsset| - 1;
      assert dsset == dsset[..n] + [dsset[n]];
      Insert(Sorted(dsset[..n]), dsset[n])
  }

  lemma NoneInOrder()
    ensures InOrder([])
  {
  }

  lemma {:induction false} SortedInOrder(dsset: seq<Ds>)
    ensures InOrder(Sorted(dsset))
  {
    hide Less, Insert, InOrder;
    if dsset == [] {
      NoneInOrder();
    } else {
      var n := |dsset| - 1;
      SortedInOrder(dsset[..n]);
      InsertKeepsOrder(Sorted(dsset[..n]), dsset[n]);
    }
  }

  lemma {:induction false} InsertLast(s: seq<Ds>, d: Ds)
    requires forall i :: 0 <= i < |s| ==> Less(s[i], d)
    ensures Insert(s, d) == s + [d]
  {
    hide Less;
    if s != [] {
      InsertLast(s[1..], d);
    }
  }

  // Records that ascend stay as they are.
  lemma {:induction false} SortedAlready(s: seq<Ds>)
    requires forall i, j :: 0 <= i < j < |s| ==> Less(s[i], s[j])
    ensures Sorted(s) == s
  {
    hide Less, Insert;
    if s != [] {
      var n := |s| - 1;
      SortedAlready(s[..n]);
      InsertLast(s[..n], s[n]);
    }
  }

  // The records in an array, in the place of qsort.
  method Sort(dsset: seq<Ds>) returns (s: seq<Ds>)
    ensures s == Sorted(dsset)
  {
    s := [];
    var i := 0;
    while i < |dsset|
      invariant i <= |dsset| && s == Sorted(dsset[..i])
    {
      assert dsset[..i + 1][..i] == dsset[..i];
      s := Insert(s, dsset[i]);
      i := i + 1;
    }
    assert dsset[..i] == dsset;
  }

  // ------------------------------------------------------------ the scan

  // The number of records of the first key.
  function FirstBlock(s: seq<Ds>): (d: nat)
    requires s != []
    ensures 0 < d <= |s| && (forall i :: 0 <= i < d ==> Id(s[i]) == Id(s[0])) && (d < |s| ==> Id(s[d]) != Id(s[0]))
  {
    BlockEnd(s, 0)
  }

  // Where the records of the key of record i end.
  function BlockEnd(s: seq<Ds>, i: nat): (e: nat)
    requires i < |s|
    ensures i < e <= |s| && (forall m :: i <= m < e ==> Id(s[m]) == Id(s[i])) && (e < |s| ==> Id(s[e]) != Id(s[i]))
    decreases |s| - i
  {
    if i + 1 == |s| || Id(s[i + 1]) != Id(s[i]) then i + 1 else BlockEnd(s, i + 1)
  }

  // Record i + j is of the key of record i and has the type of record j.
  predicate Agrees(s: seq<Ds>, i: nat, j: nat)
    requires i < |s| && j < |s|
  {
    i + j < |s| ==> Id(s[i + j]) == Id(s[i]) && s[i + j].dtype == s[j].dtype
  }

  // The d records from i on, as far as there are so many, agree with the first d.
  predicate BlockMatches(s: seq<Ds>, d: nat, i: nat)
    requires d <= |s| && i < |s|
  {
    forall j :: 0 <= j < d ==> Agrees(s, i, j)
  }

  predicate Scan(s: seq<Ds>, d: nat, i: nat)
    requires 0 < d <= |s|
    decreases |s| - i
  {
    i < |s| ==> BlockMatches(s, d, i) && Scan(s, d, i + d)
  }

  // The program's answer.
  predicate Consistent(dsset: seq<Ds>)
    requires dsset != []
  {
    var s := Sorted(dsset);
    Scan(s, FirstBlock(s), FirstBlock(s))
  }

  // consistent_digests
  method ConsistentDigests(dsset: seq<Ds>) returns (same: bool)
    requires dsset != []
    ensures same == Consistent(dsset)
  {
    var ds := Sort(dsset);
    var n := |ds|;
    var keyTag, algorithm := ds[0].tag, ds[0].alg;
    var d, i := 0, 0;
    while i < n
      invariant d == i <= n && forall m :: 0 <= m < i ==> Id(ds[m]) == Id(ds[0])
    {
      if ds[i].tag != keyTag || ds[i].alg != algorithm {
        break;
      }
      i, d := i + 1, d + 1;
    }
    assert d == FirstBlock(ds);
    same := true;
    while i < n
      invariant 0 < d <= n && d <= i && same ==> Scan(ds, d, d) == Scan(ds, d, i)
      invariant !same ==> !Scan(ds, d, d)
      decreases n - i
    {
      same := CheckBlock(ds, d, i, same);
      i := i + d;
    }
  }

  method CheckBlock(ds: seq<Ds>, d: nat, i: nat, same: bool) returns (same': bool)
    requires d <= |ds| && i < |ds|
    ensures same' == (same && BlockMatches(ds, d, i))
  {
    var n := |ds|;
    same' := same;
    var keyTag, algorithm := ds[i].tag, ds[i].alg;
    var j := 0;
    while j < d && i + j < n
      invariant j <= d && (same' <==> same && forall m :: 0 <= m < j ==> Agrees(ds, i, m))
    {
      if ds[i + j].tag != keyTag || ds[i + j].alg != algorithm || ds[i + j].dtype != ds[j].dtype {
        same' := false;
        assert !Agrees(ds, i, j);
      }
      j := j + 1;
    }
  }

  // ------------------------------------------------ the scan, run by run

  // n modulo d
  function Rem(n: nat, d: nat): (r: nat)
    requires d > 0
    ensures r < d
  {
    if n < d then n else Rem(n - d, d)
  }

  lemma {:induction false} RemAdd(n: nat, d: nat, j: nat)
    requires d > 0 && Rem(n, d) == 0 && j <= d
    ensures Rem(n + j, d) == if j < d then j else 0
  {
    if n >= d {
      RemAdd(n - d, d, j);
    }
  }

  lemma RemNone(d: nat)
    requires d > 0
    ensures Rem(0, d) == 0
  {
  }

  // Record i is the first of its key's.
  ghost predicate Starts(s: seq<Ds>, i: nat) {
    i < |s| && (i > 0 ==> Id(s[i - 1]) != Id(s[i]))
  }

  // The types of the records from i to e repeat those of the first d records, the
  // first of which b corresponds to; only at the end of the set they break off.
  ghost predicate Repeats(s: seq<Ds>, d: nat, b: nat, i: nat, e: nat)
    requires 0 < d <= |s| && b <= i <= e <= |s|
  {
    (forall m :: i <= m < e ==> s[m].dtype == s[Rem(m - b, d)].dtype) && (e < |s| ==> Rem(e - b, d) == 0)
  }

  // So do the types of the records of the key of record b.
  ghost predicate Periodic(s: seq<Ds>, d: nat, b: nat)
    requires 0 < d <= |s| && b < |s|
  {
    Repeats(s, d, b, b, BlockEnd(s, b))
  }

  ghost predicate PeriodicFrom(s: seq<Ds>, d: nat, i: nat)
    requires 0 < d <= |s|
  {
    forall b :: i <= b < |s| && Starts(s, b) ==> Periodic(s, d, b)
  }

  // The program's scan accepts exactly the records in which, for every key, the
  // types repeat those of the first d records.
  lemma ScanExactly(s: seq<Ds>, d: nat, i: nat)
    requires 0 < d <= |s| && (i < |s| ==> Starts(s, i))
    ensures Scan(s, d, i) <==> PeriodicFrom(s, d, i)
    decreases |s| - i, 1
  {
    if i < |s| {
      ScanInRun(s, d, i, i);
      NextStart(s, i);
      hide Periodic, Scan;
    }
  }

  // The starts from b on are b and those from the end of its key's records on.
  lemma NextStart(s: seq<Ds>, b: nat)
    requires Starts(s, b)
    ensures var e := BlockEnd(s, b);
            (e < |s| ==> Starts(s, e)) && forall m :: b <= m < |s| && Starts(s, m) ==> m == b || e <= m
  {
    var e := BlockEnd(s, b);
    forall m | b < m < e
      ensures !Starts(s, m)
    {
      assert Id(s[m - 1]) == Id(s[b]) && Id(s[m]) == Id(s[b]);
    }
  }

  // The scan at a block inside the records of one key, which start at b.
  lemma {:induction false} ScanInRun(s: seq<Ds>, d: nat, b: nat, i: nat)
    requires 0 < d <= |s| && Starts(s, b) && b <= i < BlockEnd(s, b) && Rem(i - b, d) == 0
    ensures var e := BlockEnd(s, b);
            Scan(s, d, i) <==> Repeats(s, d, b, i, e) && PeriodicFrom(s, d, e)
    decreases |s| - i, 0
  {
    hide Repeats, PeriodicFrom, BlockMatches, Rem, BlockEnd, Starts;
    var e := BlockEnd(s, b);
    NextStart(s, b);
    RemAdd(i - b, d, d);
    if i + d < e {
      WholeInRun(s, d, b, i);
      ScanInRun(s, d, b, i + d);
      RepeatsSplit(s, d, b, i, i + d, e);
    } else if i + d == e {
      WholeInRun(s, d, b, i);
      RepeatsNothing(s, d, b, e);
      RepeatsSplit(s, d, b, i, e, e);
      ScanExactly(s, d, e);
    } else {
      PartInRun(s, d, b, i);
      NothingFrom(s, d, e);
    }
  }

  // A block that lies within the records of its key.
  lemma WholeInRun(s: seq<Ds>, d: nat, b: nat, i: nat)
    requires 0 < d <= |s| && b <= i < |s| && b < |s| && i + d <= BlockEnd(s, b) && Rem(i - b, d) == 0
    ensures BlockMatches(s, d, i) <==> forall m :: i <= m < i + d ==> s[m].dtype == s[Rem(m - b, d)].dtype
  {
    hide BlockEnd;
    forall j | 0 <= j < d
      ensures Agrees(s, i, j) <==> s[i + j].dtype == s[Rem(i + j - b, d)].dtype
    {
      RemAdd(i - b, d, j);
    }
    if BlockMatches(s, d, i) {
      forall m | i <= m < i + d
        ensures s[m].dtype == s[Rem(m - b, d)].dtype
      {
        assert Agrees(s, i, m - i);
      }
    }
  }

  // A block that goes beyond them matches only at the end of the set.
  lemma PartInRun(s: seq<Ds>, d: nat, b: nat, i: nat)
    requires 0 < d <= |s| && Starts(s, b) && b <= i < BlockEnd(s, b) < i + d && Rem(i - b, d) == 0
    ensures var e := BlockEnd(s, b);
            BlockMatches(s, d, i) && e == |s| <==> Repeats(s, d, b, i, e)
    ensures BlockMatches(s, d, i) ==> BlockEnd(s, b) == |s|
  {
    hide BlockEnd, Rem;
    var e := BlockEnd(s, b);
    forall j | 0 <= j < d && i + j < e
      ensures Rem(i + j - b, d) == j && (Agrees(s, i, j) <==> s[i + j].dtype == s[Rem(i + j - b, d)].dtype)
    {
      RemAdd(i - b, d, j);
    }
    RemAdd(i - b, d, e - i);
    assert e < |s| ==> !Agrees(s, i, e - i);
    if BlockMatches(s, d, i) {
      forall m | i <= m < e
        ensures s[m].dtype == s[Rem(m - b, d)].dtype
      {
        assert Agrees(s, i, m - i);
      }
    }
    if Repeats(s, d, b, i, e) {
      forall j | 0 <= j < d
        ensures Agrees(s, i, j)
      {
        assert i + j < e ==> s[i + j].dtype == s[Rem(i + j - b, d)].dtype;
      }
    }
  }

  lemma RepeatsSplit(s: seq<Ds>, d: nat, b: nat, i: nat, m: nat, e: nat)
    requires 0 < d <= |s| && b <= i <= m <= e <= |s|
    ensures Repeats(s, d, b, i, e) <==>
            (forall k :: i <= k < m ==> s[k].dtype == s[Rem(k - b, d)].dtype) && Repeats(s, d, b, m, e)
  {
    hide Rem;
  }

  lemma RepeatsNothing(s: seq<Ds>, d: nat, b: nat, e: nat)
    requires 0 < d <= |s| && b <= e <= |s| && Rem(e - b, d) == 0
    ensures Repeats(s, d, b, e, e)
  {
  }

  lemma NothingFrom(s: seq<Ds>, d: nat, e: nat)
    requires 0 < d <= |s|
    ensures e >= |s| ==> PeriodicFrom(s, d, e)
  {
  }

  // The types of the records from i to e.
  ghost function Row(s: seq<Ds>, i: nat, e: nat): (r: seq<nat>)
    requires i <= e <= |s|
    ensures |r| == e - i && forall m :: 0 <= m < e - i ==> r[m] == s[i + m].dtype
  {
    seq<nat>(e - i, m requires 0 <= m < e - i => s[i + m].dtype)
  }

  ghost predicate Ascends(r: seq<nat>) {
    forall a, b :: 0 <= a < b < |r| ==> r[a] <= r[b]
  }

  lemma RowAscends(s: seq<Ds>, i: nat)
    requires InOrder(s) && i < |s|
    ensures Ascends(Row(s, i, BlockEnd(s, i)))
  {
    var r := Row(s, i, BlockEnd(s, i));
    forall a, b | 0 <= a < b < |r|
      ensures r[a] <= r[b]
    {
      assert !Less(s[i + b], s[i + a]);
    }
  }

  ghost predicate AllAre(r: seq<nat>, t: nat) {
    forall m :: 0 <= m < |r| ==> r[m] == t
  }

  // What the types of a key must be: those of the first key; at the end of the
  // set the lowest of them suffice; and when the first key has records of a
  // single type only, as many more of that type as make up whole blocks.
  ghost predicate RowFits(own: seq<nat>, first: seq<nat>, last: bool)
    requires first != []
  {
    || own == first
    || (last && own <= first)
    || (AllAre(first, first[0]) && AllAre(own, first[0]) && (last || Rem(|own|, |first|) == 0))
  }

  // In sorted records that is what repeating the types of the first key means.
  lemma PeriodicExactly(s: seq<Ds>, b: nat)
    requires InOrder(s) && b < |s|
    ensures var d, e := FirstBlock(s), BlockEnd(s, b);
            Periodic(s, d, b) <==> RowFits(Row(s, b, e), Row(s, 0, d), e == |s|)
  {
    hide InOrder, BlockEnd;
    var d, e := FirstBlock(s), BlockEnd(s, b);
    var own, first := Row(s, b, e), Row(s, 0, d);
    RowAscends(s, b);
    RowAscends(s, 0);
    RepeatsRows(s, d, b, e);
    if e - b <= d {
      ShortRow(own, first, e == |s|);
    } else {
      LongRow(own, first, e == |s|);
    }
  }

  // Repeats, in terms of rows of types.
  ghost predicate RowRepeats(own: seq<nat>, first: seq<nat>, last: bool)
    requires first != []
  {
    (forall m :: 0 <= m < |own| ==> own[m] == first[Rem(m, |first|)]) && (!last ==> Rem(|own|, |first|) == 0)
  }

  lemma RepeatsRows(s: seq<Ds>, d: nat, b: nat, e: nat)
    requires 0 < d <= |s| && b <= e <= |s|
    ensures Repeats(s, d, b, b, e) <==> RowRepeats(Row(s, b, e), Row(s, 0, d), e == |s|)
  {
    hide Rem;
    var own, first := Row(s, b, e), Row(s, 0, d);
    if RowRepeats(own, first, e == |s|) {
      forall m | b <= m < e
        ensures s[m].dtype == s[Rem(m - b, d)].dtype
      {
        assert own[m - b] == first[Rem(m - b, d)];
      }
    }
  }

  lemma ShortRow(own: seq<nat>, first: seq<nat>, last: bool)
    requires 0 < |own| <= |first|
    ensures RowRepeats(own, first, last) <==> RowFits(own, first, last)
  {
    hide Rem;
    RemNone(|first|);
    RemAdd(0, |first|, |own|);
    forall m | 0 <= m < |own|
      ensures Rem(m, |first|) == m
    {
      RemAdd(0, |first|, m);
    }
    if RowRepeats(own, first, last) {
      assert own <= first;
    }
  }

  lemma LongRow(own: seq<nat>, first: seq<nat>, last: bool)
    requires |own| > |first| > 0 && Ascends(own) && Ascends(first)
    ensures RowRepeats(own, first, last) <==> RowFits(own, first, last)
  {
    hide Rem;
    var d := |first|;
    RemNone(d);
    RemAdd(0, d, d);
    RemAdd(0, d, d - 1);
    if RowRepeats(own, first, last) {
      assert own[d] == first[0] && own[d - 1] == first[d - 1];
      assert AllAre(first, first[0]);
    }
  }

  // The types of every key fit those of the first; breakOff says whether those of
  // the last key may break off.
  ghost predicate RunsFit(s: seq<Ds>, breakOff: bool)
    requires s != []
  {
    forall b :: 0 <= b < |s| && Starts(s, b) ==>
      RowFits(Row(s, b, BlockEnd(s, b)), Row(s, 0, FirstBlock(s)), breakOff && BlockEnd(s, b) == |s|)
  }

  // What the program decides, for any records.
  lemma ConsistentExactly(dsset: seq<Ds>)
    requires dsset != []
    ensures Consistent(dsset) <==> RunsFit(Sorted(dsset), true)
  {
    hide Sorted, Scan, InOrder, RowFits, Periodic;
    var s := Sorted(dsset);
    SortedInOrder(dsset);
    var d := FirstBlock(s);
    ScanExactly(s, d, d);
    NextStart(s, 0);
    FirstPeriodic(s);
    forall b | 0 <= b < |s| && Starts(s, b)
      ensures Periodic(s, d, b) <==> RowFits(Row(s, b, BlockEnd(s, b)), Row(s, 0, d), BlockEnd(s, b) == |s|)
    {
      PeriodicExactly(s, b);
    }
  }

  // The first key repeats itself.
  lemma FirstPeriodic(s: seq<Ds>)
    requires s != []
    ensures Periodic(s, FirstBlock(s), 0)
  {
    hide BlockEnd;
    var d := FirstBlock(s);
    RemAdd(0, d, d);
    forall m | 0 <= m < d
      ensures Rem(m, d) == m
    {
      RemAdd(0, d, m);
    }
  }

  // When the number of records is a multiple of the first key's, no key's types
  // break off.
  lemma ConsistentWhenWhole(dsset: seq<Ds>)
    requires dsset != [] && Rem(|dsset|, FirstBlock(Sorted(dsset))) == 0
    ensures Consistent(dsset) <==> RunsFit(Sorted(dsset), false)
  {
    hide *;
    ConsistentExactly(dsset);
    SortedInOrder(dsset);
    WholeFits(Sorted(dsset));
  }

  lemma WholeFits(s: seq<Ds>)
    requires s != [] && InOrder(s) && Rem(|s|, FirstBlock(s)) == 0
    ensures RunsFit(s, true) <==> RunsFit(s, false)
  {
    hide RowFits, Rem, Periodic, InOrder, BlockEnd;
    var d := FirstBlock(s);
    if RunsFit(s, true) {
      forall b | 0 <= b < |s| && Starts(s, b)
        ensures Periodic(s, d, b)
      {
        PeriodicExactly(s, b);
      }
      WholeRuns(s, d, 0);
    }
    forall b | 0 <= b < |s| && Starts(s, b)
      ensures var own, first, last := Row(s, b, BlockEnd(s, b)), Row(s, 0, d), BlockEnd(s, b) == |s|;
              && (RowFits(own, first, false) ==> RowFits(own, first, last))
              && (RowFits(own, first, last) && Rem(BlockEnd(s, b) - b, d) == 0 ==> RowFits(own, first, false))
    {
      FitsWhole(Row(s, b, BlockEnd(s, b)), Row(s, 0, d), BlockEnd(s, b) == |s|);
    }
  }

  lemma FitsWhole(own: seq<nat>, first: seq<nat>, last: bool)
    requires own != [] && first != []
    ensures RowFits(own, first, false) ==> RowFits(own, first, last)
    ensures RowFits(own, first, last) && Rem(|own|, |first|) == 0 ==> RowFits(own, first, false)
  {
    hide Rem;
    RemNone(|first|);
    if |own| < |first| {
      RemAdd(0, |first|, |own|);
    }
  }

  lemma {:induction false} RemRest(n: nat, d: nat, k: nat)
    requires d > 0 && Rem(n, d) == 0 && Rem(n + k, d) == 0
    ensures Rem(k, d) == 0
  {
    if n >= d {
      RemRest(n - d, d, k);
    }
  }

  lemma PeriodicEnds(s: seq<Ds>, d: nat, b: nat)
    requires 0 < d <= |s| && b < |s| && Periodic(s, d, b)
    ensures BlockEnd(s, b) < |s| ==> Rem(BlockEnd(s, b) - b, d) == 0
  {
    hide Rem, BlockEnd;
  }

  lemma {:induction false} WholeRuns(s: seq<Ds>, d: nat, i: nat)
    requires 0 < d <= |s| && Starts(s, i) && Rem(|s| - i, d) == 0 && PeriodicFrom(s, d, i)
    ensures forall b :: i <= b < |s| && Starts(s, b) ==> Rem(BlockEnd(s, b) - b, d) == 0
    decreases |s| - i
  {
    hide Rem, BlockEnd, Periodic;
    var e := BlockEnd(s, i);
    NextStart(s, i);
    PeriodicEnds(s, d, i);
    if e < |s| {
      RemRest(e - i, d, |s| - e);
      WholeRuns(s, d, e);
    }
  }

  // ------------------------------------------- what the answer says of keys

  // The digest types of a key.
  ghost function Types(s: seq<Ds>, k: KeyId): set<nat> {
    set i | 0 <= i < |s| && Id(s[i]) == k :: s[i].dtype
  }

  // a holds the lowest types of f.
  ghost predicate Lower(a: set<nat>, f: set<nat>) {
    a <= f && forall x, y :: x in a && y in f && y < x ==> y in a
  }

  ghost predicate Increasing(a: seq<nat>) {
    forall i, j :: 0 <= i < j < |a| ==> a[i] < a[j]
  }

  ghost function Elems(a: seq<nat>): set<nat> {
    set x | x in a
  }

  lemma {:induction false} LowerIsPrefix(a: seq<nat>, f: seq<nat>)
    requires Increasing(a) && Increasing(f)
    ensures Lower(Elems(a), Elems(f)) <==> a <= f
    decreases |a|
  {
    if Lower(Elems(a), Elems(f)) {
      PrefixOf(a, f, |a|);
      assert a[..|a|] == a;
    }
    if a <= f {
      forall x, y | x in a && y in f && y < x
        ensures y in a
      {
        var i :| 0 <= i < |a| && a[i] == x;
        var j :| 0 <= j < |f| && f[j] == y;
        assert f[i] == x;
      }
    }
  }

  lemma {:induction false} PrefixOf(a: seq<nat>, f: seq<nat>, n: nat)
    requires Increasing(a) && Increasing(f) && Lower(Elems(a), Elems(f)) && n <= |a|
    ensures n <= |f| && a[..n] == f[..n]
  {
    if n > 0 {
      var m := n - 1;
      PrefixOf(a, f, m);
      assert forall i :: 0 <= i < m ==> a[i] == a[..m][i] == f[..m][i] == f[i];
      assert a[m] in Elems(a);
      var k :| 0 <= k < |f| && f[k] == a[m];
      assert k >= m && f[m] in Elems(f);
      assert forall q :: 0 <= q < m ==> a[q] < f[m];
      assert forall q :: m <= q < |a| ==> a[q] >= a[m];
      var x, y := a[m], f[m];
      assert y < x ==> y in Elems(a);
      assert a[..n] == a[..m] + [a[m]] && f[..n] == f[..m] + [f[m]];
    }
  }

  lemma EqualElems(a: seq<nat>, f: seq<nat>)
    requires Increasing(a) && Increasing(f)
    ensures Elems(a) == Elems(f) <==> a == f
  {
    LowerIsPrefix(a, f);
    LowerIsPrefix(f, a);
  }

  // A key's records stand together.
  lemma Together(s: seq<Ds>, i: nat, m: nat)
    requires InOrder(s) && Starts(s, i) && m < |s| && Id(s[m]) == Id(s[i])
    ensures i <= m < BlockEnd(s, i)
  {
    var e := BlockEnd(s, i);
    assert i > 0 ==> !IdLess(Id(s[i]), Id(s[i - 1])) && Id(s[i - 1]) != Id(s[i]);
    assert e < |s| ==> !IdLess(Id(s[e]), Id(s[i]));
  }

  lemma RowIncreases(s: seq<Ds>, i: nat)
    requires InOrder(s) && Unique(s) && i < |s|
    ensures Increasing(Row(s, i, BlockEnd(s, i)))
  {
    var r := Row(s, i, BlockEnd(s, i));
    forall a, b | 0 <= a < b < |r|
      ensures r[a] < r[b]
    {
      assert !Less(s[i + b], s[i + a]);
    }
  }

  // A key's records stand together, their types ascending.
  lemma RowIs(s: seq<Ds>, i: nat)
    requires InOrder(s) && Unique(s) && Starts(s, i)
    ensures var r := Row(s, i, BlockEnd(s, i));
            Increasing(r) && Elems(r) == Types(s, Id(s[i]))
    ensures forall m :: 0 <= m < |s| && Id(s[m]) == Id(s[i]) ==> i <= m < BlockEnd(s, i)
  {
    var r := Row(s, i, BlockEnd(s, i));
    RowIncreases(s, i);
    hide InOrder, Unique, Increasing;
    forall m | 0 <= m < |s| && Id(s[m]) == Id(s[i])
      ensures i <= m < BlockEnd(s, i)
    {
      Together(s, i, m);
    }
    forall x
      ensures x in Elems(r) <==> x in Types(s, Id(s[i]))
    {
      if x in Types(s, Id(s[i])) {
        var m :| 0 <= m < |s| && Id(s[m]) == Id(s[i]) && s[m].dtype == x;
        assert r[m - i] == x;
      }
    }
  }

  // The key of record m has the types of the first key, or is the last key and
  // has the lowest of them.
  ghost predicate Fine(s: seq<Ds>, m: nat)
    requires m < |s|
  {
    var own, first := Types(s, Id(s[m])), Types(s, Id(s[0]));
    own == first || (Id(s[m]) == Id(s[|s| - 1]) && Lower(own, first))
  }

  // Fine, in terms of rows of types.
  lemma FineIs(s: seq<Ds>, i: nat)
    requires InOrder(s) && Unique(s) && Starts(s, i)
    ensures var e := BlockEnd(s, i);
            var own, first := Row(s, i, e), Row(s, 0, FirstBlock(s));
            Fine(s, i) <==> own == first || (e == |s| && own <= first)
  {
    RowIs(s, i);
    RowIs(s, 0);
    var e := BlockEnd(s, i);
    EqualElems(Row(s, i, e), Row(s, 0, FirstBlock(s)));
    LowerIsPrefix(Row(s, i, e), Row(s, 0, FirstBlock(s)));
    assert Id(s[|s| - 1]) == Id(s[i]) <==> e == |s|;
  }

  // When no type is repeated, the third case of RowFits adds nothing.
  lemma FitsUnique(own: seq<nat>, first: seq<nat>, last: bool)
    requires own != [] && first != [] && Increasing(own) && Increasing(first)
    ensures RowFits(own, first, last) <==> own == first || (last && own <= first)
  {
    hide Rem;
    assert |own| > 1 ==> own[0] < own[1];
    assert |first| > 1 ==> first[0] < first[1];
  }

  lemma PeriodicIsFine(s: seq<Ds>, b: nat)
    requires InOrder(s) && Unique(s) && Starts(s, b)
    ensures Periodic(s, FirstBlock(s), b) <==> Fine(s, b)
  {
    hide InOrder, Unique, Periodic, Fine, RowFits;
    var d, e := FirstBlock(s), BlockEnd(s, b);
    PeriodicExactly(s, b);
    RowIncreases(s, b);
    RowIncreases(s, 0);
    FitsUnique(Row(s, b, e), Row(s, 0, d), e == |s|);
    FineIs(s, b);
  }

  // Every record belongs to a key whose records start somewhere.
  lemma {:induction false} StartOf(s: seq<Ds>, m: nat) returns (b: nat)
    requires m < |s|
    ensures b <= m < BlockEnd(s, b) && Starts(s, b)
  {
    if Starts(s, m) {
      b := m;
    } else {
      b := StartOf(s, m - 1);
    }
  }

  lemma ScanFrom(s: seq<Ds>, d: nat, i: nat)
    requires s != [] && InOrder(s) && Unique(s) && d == FirstBlock(s) && (i < |s| ==> Starts(s, i))
    ensures Scan(s, d, i) <==> forall m :: i <= m < |s| ==> Fine(s, m)
  {
    hide Scan, Periodic, Fine, InOrder, Unique;
    ScanExactly(s, d, i);
    forall b | i <= b < |s| && Starts(s, b)
      ensures Periodic(s, d, b) <==> Fine(s, b)
    {
      PeriodicIsFine(s, b);
    }
    if PeriodicFrom(s, d, i) {
      forall m | i <= m < |s|
        ensures Fine(s, m)
      {
        var b := StartOf(s, m);
        SameFine(s, b);
        NextStart(s, b);
        assert i <= b;
      }
    }
  }

  lemma SameFine(s: seq<Ds>, i: nat)
    requires i < |s|
    ensures forall m :: i <= m < BlockEnd(s, i) ==> Fine(s, m) == Fine(s, i)
  {
  }

  // ------------------------------------------------------- for the RRset

  lemma SortedUnique(dsset: seq<Ds>)
    requires Unique(dsset)
    ensures Unique(Sorted(dsset))
  {
    var s := Sorted(dsset);
    forall i, j | 0 <= i < j < |s|
      ensures Id(s[i]) != Id(s[j]) || s[i].dtype != s[j].dtype
    {
      assert s[i] in multiset(dsset) && s[j] in multiset(dsset);
      if s[i] == s[j] {
        AtLeastTwo(s, i, j);
        var a, b := FindTwo(dsset, s[i]);
      } else {
        var a :| 0 <= a < |dsset| && dsset[a] == s[i];
        var b :| 0 <= b < |dsset| && dsset[b] == s[j];
      }
    }
  }

  lemma SameTypes(dsset: seq<Ds>, k: KeyId)
    ensures Types(Sorted(dsset), k) == Types(dsset, k)
  {
    hide *;
    PermutedTypes(dsset, Sorted(dsset), k);
    PermutedTypes(Sorted(dsset), dsset, k);
  }

  lemma PermutedTypes(a: seq<Ds>, b: seq<Ds>, k: KeyId)
    requires multiset(a) == multiset(b)
    ensures Types(a, k) <= Types(b, k)
  {
    forall i | 0 <= i < |a| && Id(a[i]) == k
      ensures a[i].dtype in Types(b, k)
    {
      var m := Place(a, b, i);
    }
  }

  // k is the least or the greatest key of the set.
  ghost predicate Least(dsset: seq<Ds>, k: KeyId) {
    (exists i :: 0 <= i < |dsset| && Id(dsset[i]) == k) && forall i :: 0 <= i < |dsset| ==> !IdLess(Id(dsset[i]), k)
  }

  ghost predicate Greatest(dsset: seq<Ds>, k: KeyId) {
    (exists i :: 0 <= i < |dsset| && Id(dsset[i]) == k) && forall i :: 0 <= i < |dsset| ==> !IdLess(k, Id(dsset[i]))
  }

  lemma Ends(dsset: seq<Ds>)
    requires dsset != []
    ensures var s := Sorted(dsset);
            Least(dsset, Id(s[0])) && Greatest(dsset, Id(s[|s| - 1]))
  {
    hide Sorted, LexLess;
    var s := Sorted(dsset);
    SortedInOrder(dsset);
    forall i | 0 <= i < |dsset|
      ensures !IdLess(Id(dsset[i]), Id(s[0])) && !IdLess(Id(s[|s| - 1]), Id(dsset[i]))
    {
      assert dsset[i] in multiset(s);
      var m :| 0 <= m < |s| && s[m] == dsset[i];
      assert m > 0 ==> !Less(s[m], s[0]);
      assert m < |s| - 1 ==> !Less(s[|s| - 1], s[m]);
    }
    assert s[0] in multiset(dsset) && s[|s| - 1] in multiset(dsset);
  }

  // The key of record m of the set has the types of the least key, or is the
  // greatest key and has the lowest of them.
  ghost predicate Matched(dsset: seq<Ds>, least: KeyId, k: KeyId) {
    || Types(dsset, k) == Types(dsset, least)
    || (Greatest(dsset, k) && Lower(Types(dsset, k), Types(dsset, least)))
  }

  ghost predicate AllMatched(dsset: seq<Ds>, least: KeyId, records: seq<Ds>) {
    forall i :: 0 <= i < |records| ==> Matched(dsset, least, Id(records[i]))
  }

  // What the program decides when no key has two records of one type: every key
  // has the digest types of the least key, except that the greatest key may lack
  // some of the highest.
  lemma UniqueExactly(dsset: seq<Ds>, least: KeyId)
    requires dsset != [] && Unique(dsset) && Least(dsset, least)
    ensures Consistent(dsset) <==> AllMatched(dsset, least, dsset)
  {
    var s := Sorted(dsset);
    ScanMatched(dsset, least);
    hide AllMatched, Scan, Sorted;
    if AllMatched(dsset, least, s) {
      SameRecords(dsset, least, s, dsset);
    }
    if AllMatched(dsset, least, dsset) {
      SameRecords(dsset, least, dsset, s);
    }
  }

  lemma ScanMatched(dsset: seq<Ds>, least: KeyId)
    requires dsset != [] && Unique(dsset) && Least(dsset, least)
    ensures var s := Sorted(dsset);
            Scan(s, FirstBlock(s), FirstBlock(s)) <==> AllMatched(dsset, least, s)
  {
    var s := Sorted(dsset);
    SortedInOrder(dsset);
    SortedUnique(dsset);
    Ends(dsset);
    assert Id(s[0]) == least;
    hide Sorted, Scan, Fine, Matched, Unique, InOrder, Greatest;
    var d := FirstBlock(s);
    ScanFrom(s, d, d);
    forall m | 0 <= m < |s|
      ensures Fine(s, m) <==> Matched(dsset, least, Id(s[m]))
      ensures m < d ==> Fine(s, m)
    {
      FineMatched(dsset, least, m);
    }
  }

  lemma FineMatched(dsset: seq<Ds>, least: KeyId, m: nat)
    requires dsset != [] && m < |dsset| && Least(dsset, least) && Id(Sorted(dsset)[0]) == least
    ensures Fine(Sorted(dsset), m) <==> Matched(dsset, least, Id(Sorted(dsset)[m]))
  {
    hide Sorted, Types, Lower;
    var s := Sorted(dsset);
    SameTypes(dsset, least);
    SameTypes(dsset, Id(s[m]));
    Ends(dsset);
    LastIsGreatest(dsset, Id(s[m]));
  }

  // The key of the last record is the only greatest one.
  lemma LastIsGreatest(dsset: seq<Ds>, k: KeyId)
    requires dsset != []
    ensures Greatest(dsset, k) <==> k == Id(Sorted(dsset)[|dsset| - 1])
  {
    hide Sorted;
    Ends(dsset);
  }

  lemma SameRecords(dsset: seq<Ds>, least: KeyId, a: seq<Ds>, b: seq<Ds>)
    requires multiset(a) == multiset(b) && AllMatched(dsset, least, a)
    ensures AllMatched(dsset, least, b)
  {
    hide Matched;
    forall i | 0 <= i < |b|
      ensures Matched(dsset, least, Id(b[i]))
    {
      var m := Place(b, a, i);
    }
  }

  // All keys have the types of the least key.
  ghost predicate AllEqual(dsset: seq<Ds>, least: KeyId) {
    forall i :: 0 <= i < |dsset| ==> Types(dsset, Id(dsset[i])) == Types(dsset, least)
  }

  // Without repeated types, and when the number of records is a multiple of the
  // least key's, the program decides whether all keys have the same digest types.
  lemma UniqueWhenWhole(dsset: seq<Ds>, least: KeyId)
    requires dsset != [] && Unique(dsset) && Least(dsset, least)
    requires Rem(|dsset|, FirstBlock(Sorted(dsset))) == 0
    ensures Consistent(dsset) <==> AllEqual(dsset, least)
  {
    hide Consistent, Sorted, Unique, Least, Types;
    if Consistent(dsset) {
      ConsistentWhenWhole(dsset);
      FitsEqual(dsset, least);
    }
    if AllEqual(dsset, least) {
      UniqueExactly(dsset, least);
    }
  }

  lemma FitsEqual(dsset: seq<Ds>, least: KeyId)
    requires dsset != [] && Unique(dsset) && Least(dsset, least) && RunsFit(Sorted(dsset), false)
    ensures AllEqual(dsset, least)
  {
    hide Sorted, Types, Unique, InOrder;
    var s := Sorted(dsset);
    SortedInOrder(dsset);
    SortedUnique(dsset);
    Ends(dsset);
    assert Id(s[0]) == least;
    forall i | 0 <= i < |dsset|
      ensures Types(dsset, Id(dsset[i])) == Types(dsset, least)
    {
      var m := Place(dsset, s, i);
      var b := StartOf(s, m);
      SameTypes(dsset, least);
      SameTypes(dsset, Id(s[m]));
      FitsTypes(s, b);
    }
  }

  // A key that fits without breaking off has the types of the first.
  lemma FitsTypes(s: seq<Ds>, b: nat)
    requires InOrder(s) && Unique(s) && Starts(s, b) && RowFits(Row(s, b, BlockEnd(s, b)), Row(s, 0, FirstBlock(s)), false)
    ensures Types(s, Id(s[b])) == Types(s, Id(s[0]))
  {
    hide InOrder, Unique, Types, RowFits;
    RowIs(s, b);
    RowIs(s, 0);
    FitsUnique(Row(s, b, BlockEnd(s, b)), Row(s, 0, FirstBlock(s)), false);
  }

  // A set with a single digest type is consistent.
  lemma OneType(dsset: seq<Ds>, dt: nat)
    requires dsset != [] && Unique(dsset) && forall i :: 0 <= i < |dsset| ==> dsset[i].dtype == dt
    ensures Consistent(dsset)
  {
    var least := Id(Sorted(dsset)[0]);
    Ends(dsset);
    forall i | 0 <= i < |dsset|
      ensures Types(dsset, Id(dsset[i])) == {dt}
    {
      assert dsset[i].dtype in Types(dsset, Id(dsset[i]));
    }
    hide Types, Sorted, Consistent;
    var m :| 0 <= m < |dsset| && Id(dsset[m]) == least;
    UniqueExactly(dsset, least);
  }

  lemma Place(a: seq<Ds>, b: seq<Ds>, i: nat) returns (m: nat)
    requires multiset(a) == multiset(b) && i < |a|
    ensures m < |b| && b[m] == a[i]
  {
    assert a[i] in multiset(b);
    m :| 0 <= m < |b| && b[m] == a[i];
  }

  const LACKING := [Ds(1, 8, 2, []), Ds(1, 8, 4, []), Ds(2, 8, 2, [])]

  lemma LackingTypes()
    ensures Types(LACKING, KeyId(1, 8)) == {2, 4} && Types(LACKING, KeyId(2, 8)) == {2}
  {
    assert Id(LACKING[0]) == KeyId(1, 8) && Id(LACKING[1]) == KeyId(1, 8) && Id(LACKING[2]) == KeyId(2, 8);
  }

  lemma LackingMatched()
    ensures Unique(LACKING) && Least(LACKING, KeyId(1, 8)) && AllMatched(LACKING, KeyId(1, 8), LACKING)
  {
    LackingTypes();
    hide Types;
    assert Id(LACKING[0]) == KeyId(1, 8) && Id(LACKING[1]) == KeyId(1, 8) && Id(LACKING[2]) == KeyId(2, 8);
    assert Greatest(LACKING, KeyId(2, 8));
  }

  // Otherwise the answer can be yes although a key lacks a digest type.
  lemma LastKeyMayLack()
    ensures Unique(LACKING) && Consistent(LACKING) && !AllEqual(LACKING, KeyId(1, 8))
  {
    LackingMatched();
    LackingTypes();
    assert Id(LACKING[2]) == KeyId(2, 8);
    assert !AllEqual(LACKING, KeyId(1, 8)) by {
      hide Types, Unique, Least, AllMatched, Consistent;
    }
    assert Consistent(LACKING) by {
      hide Types, Unique, Least, AllMatched, Consistent;
      UniqueExactly(LACKING, KeyId(1, 8));
    }
    hide Consistent, Unique, Types;
  }

  // Two keys with one tag and algorithm, and a third key, all with types 2 and 4.
  const SHARED := [Ds(1, 8, 2, [0]), Ds(1, 8, 2, [1]), Ds(1, 8, 4, [0]), Ds(1, 8, 4, [1]), Ds(2, 8, 2, [0]), Ds(2, 8, 4, [0])]

  lemma SharedTypes()
    ensures Types(SHARED, KeyId(1, 8)) == {2, 4} && Types(SHARED, KeyId(2, 8)) == {2, 4}
  {
    assert Id(SHARED[0]) == KeyId(1, 8) && Id(SHARED[2]) == KeyId(1, 8) && Id(SHARED[4]) == KeyId(2, 8) && Id(SHARED[5]) == KeyId(2, 8);
  }

  // The program takes the two keys for one and says no.
  lemma SharedTagRefused()
    ensures AllEqual(SHARED, KeyId(1, 8)) && !Consistent(SHARED)
  {
    hide Types, Scan, Sorted, LexLess;
    SharedTypes();
    SharedOrder();
    SharedScan();
  }

  lemma SharedOrder()
    ensures Sorted(SHARED) == SHARED
  {
    assert LexLess([0], [1]);
    hide Sorted, LexLess;
    SortedAlready(SHARED);
  }

  lemma SharedScan()
    ensures FirstBlock(SHARED) == 4 && !Scan(SHARED, 4, 4)
  {
    var d := FirstBlock(SHARED);
    assert Id(SHARED[3]) == Id(SHARED[0]) && Id(SHARED[4]) != Id(SHARED[0]);
    hide BlockEnd;
    assert d == 4;
    assert !Agrees(SHARED, 4, 1);
  }
}
