// Which record of a stream completes a zone transfer, said without reference to
// the state that the program keeps.
module TransferStreams {
  import opened Base
  import opened Serial
  import opened Transfer

  // ---------------------------------------------------- any stream at all

  // The number of SOA records with this serial.
  function Count(serial: u32, stream: seq<Record>): nat {
    if stream == [] then 0
    else Count(serial, stream[..|stream| - 1]) + if stream[|stream| - 1] == Soa(serial) then 1 else 0
  }

  lemma CountNone(serial: u32)
    ensures Count(serial, []) == 0
  {
  }

  lemma CountSnoc(serial: u32, stream: seq<Record>, r: Record)
    ensures Count(serial, stream + [r]) == Count(serial, stream) + if r == Soa(serial) then 1 else 0
  {
    assert (stream + [r])[..|stream|] == stream;
  }

  // The client already has the newest version.
  predicate UpToDate(k: Kind, serial: u32) {
    k.Ixfr? && Ge(k.client, serial)
  }

  // A whole zone is being sent: that was asked for, or the answer to an
  // incremental request has something else than an SOA record second.
  predicate SendsZone(k: Kind, stream: seq<Record>)
    requires |stream| >= 2
  {
    k.Axfr? || stream[1].Other?
  }

  // The transfer is neither complete nor failed after these records.
  ghost predicate Ongoing(k: Kind, p: seq<Record>) {
    p != [] ==>
      && p[0].Soa? && !UpToDate(k, p[0].serial)
      && (|p| >= 2 ==>
            if SendsZone(k, p) then forall j :: 1 <= j < |p| ==> p[j].Other?
            else p[1].serial != p[0].serial && Count(p[0].serial, p[1..]) <= 1)
  }

  // What the query remembers of an ongoing transfer.
  ghost function Remembered(k: Kind, p: seq<Record>): State
    requires Ongoing(k, p)
  {
    if p == [] then INITIAL
    else if |p| == 1 then INITIAL.(firstSoa := true, firstSerial := p[0].serial)
    else if SendsZone(k, p) then State(true, true, p[0].serial, 0, false, true)
    else State(true, true, p[0].serial, p[1].serial, Count(p[0].serial, p[1..]) == 1, false)
  }

  // Record i completes the transfer: the client is up to date; or it is the
  // second SOA of a whole zone; or the serial of the first SOA comes back, for
  // the first time directly after it or else for the second time.
  ghost predicate Finishes(k: Kind, stream: seq<Record>, i: nat)
    requires i < |stream|
  {
    && stream[0].Soa? && stream[i].Soa?
    && if i == 0 then UpToDate(k, stream[0].serial)
       else
         && !UpToDate(k, stream[0].serial)
         && if SendsZone(k, stream) then forall j :: 1 <= j < i ==> stream[j].Other?
            else
              && stream[i].serial == stream[0].serial
              && (i > 1 ==> stream[1].serial != stream[0].serial && Count(stream[0].serial, stream[1..i]) == 1)
  }

  // The query takes one record more as the stream asks for.
  ghost predicate Follows(k: Kind, p: seq<Record>, r: Record)
    requires Ongoing(k, p)
  {
    var (s, v) := Step(k, Remembered(k, p), r);
    && (v == More <==> Ongoing(k, p + [r]))
    && (v == More ==> s == Remembered(k, p + [r]))
    && (v == Complete <==> Finishes(k, p + [r], |p|))
  }

  lemma StepOngoing(k: Kind, p: seq<Record>, r: Record)
    requires Ongoing(k, p)
    ensures Follows(k, p, r)
  {
    hide Follows, Ongoing;
    if p == [] {
      FirstFollows(k, r);
    } else if |p| == 1 {
      assert p == [p[0]];
      SecondFollows(k, p[0], r);
    } else {
      LaterFollows(k, p, r);
    }
  }

  lemma FirstFollows(k: Kind, r: Record)
    requires Ongoing(k, [])
    ensures Follows(k, [], r)
  {
    hide Ge, Count;
    assert [] + [r] == [r];
  }

  lemma SecondFollows(k: Kind, first: Record, r: Record)
    requires Ongoing(k, [first])
    ensures Follows(k, [first], r)
  {
    hide Ge, Count;
    var q := [first] + [r];
    assert q[0] == first && q[1] == r && q[1..] == [] + [r];
    CountNone(first.serial);
    CountSnoc(first.serial, [], r);
    assert Ongoing(k, q) <==> if SendsZone(k, q) then r.Other? else r.serial != first.serial;
  }

  lemma LaterFollows(k: Kind, p: seq<Record>, r: Record)
    requires Ongoing(k, p) && |p| >= 2
    ensures Follows(k, p, r)
  {
    hide Ge, Count;
    var q := p + [r];
    assert q[0] == p[0] && q[1] == p[1] && q[1..] == p[1..] + [r] && q[1..|p|] == p[1..];
    assert forall j :: 1 <= j < |p| ==> q[j] == p[j];
    CountSnoc(p[0].serial, p[1..], r);
    assert q[|p|] == r && SendsZone(k, q) == SendsZone(k, p);
    assert Ongoing(k, q) <==> if SendsZone(k, p) then r.Other? else Count(p[0].serial, q[1..]) <= 1;
  }

  // The query follows an ongoing transfer.
  lemma {:induction false} RunOngoing(k: Kind, p: seq<Record>)
    ensures Run(k, INITIAL, p).verdict == More <==> Ongoing(k, p)
    ensures Ongoing(k, p) ==> Run(k, INITIAL, p) == Progress(Remembered(k, p), More, |p|)
    decreases |p|
  {
    if p != [] {
      var n := |p| - 1;
      RunOngoing(k, p[..n]);
      assert p == p[..n] + [p[n]];
      RunConcat(k, INITIAL, p[..n], [p[n]]);
      if Ongoing(k, p[..n]) {
        StepOngoing(k, p[..n], p[n]);
        assert [p[n]][1..] == [];
      } else if Ongoing(k, p) {
        OngoingBefore(k, p, n);
      }
    }
  }

  lemma {:induction false} CountMonotone(serial: u32, s: seq<Record>, n: nat)
    requires n <= |s|
    ensures Count(serial, s[..n]) <= Count(serial, s)
  {
    if n < |s| {
      CountMonotone(serial, s[..|s| - 1], n);
      assert s[..|s| - 1][..n] == s[..n];
    } else {
      assert s[..n] == s;
    }
  }

  lemma OngoingBefore(k: Kind, p: seq<Record>, n: nat)
    requires Ongoing(k, p) && n <= |p|
    ensures Ongoing(k, p[..n])
  {
    if n >= 2 {
      assert p[..n][1..] == p[1..][..n - 1];
      CountMonotone(p[0].serial, p[1..], n - 1);
    }
  }

  // The program declares a transfer complete at record i exactly when that
  // record finishes it.
  lemma CompleteExactly(k: Kind, stream: seq<Record>, i: nat)
    requires i < |stream|
    ensures Finishes(k, stream, i) <==>
            Run(k, INITIAL, stream).verdict == Complete && Run(k, INITIAL, stream).seen == i + 1
  {
    hide Finishes, Ongoing;
    var p, r, rest := stream[..i], stream[i], stream[i + 1..];
    assert stream == (p + [r]) + rest;
    RunConcat(k, INITIAL, p + [r], rest);
    RunConcat(k, INITIAL, p, [r]);
    assert [r][1..] == [];
    RunOngoing(k, p);
    FinishesLocal(k, stream, i);
    if Ongoing(k, p) {
      StepOngoing(k, p, r);
    }
  }

  // Only the records up to i matter, and the transfer goes on until then.
  lemma FinishesLocal(k: Kind, stream: seq<Record>, i: nat)
    requires i < |stream|
    ensures Finishes(k, stream, i) <==> Finishes(k, stream[..i] + [stream[i]], i)
    ensures Finishes(k, stream, i) ==> Ongoing(k, stream[..i])
  {
    var q := stream[..i] + [stream[i]];
    assert q == stream[..i + 1];
    assert i >= 1 ==> q[1..i] == stream[1..i] && stream[..i][1..] == stream[1..i];
  }

  // ------------------------------------------------------- whole zones

  function Others(n: nat): (s: seq<Record>)
    ensures |s| == n && forall i :: 0 <= i < n ==> s[i] == Other
  {
    seq(n, _ => Other)
  }

  // A zone sent whole is complete exactly at its second SOA record, whatever the
  // serials; in answer to an incremental request that takes another record in
  // between.
  lemma WholeZoneComplete(k: Kind, first: u32, n: nat, last: u32, rest: seq<Record>)
    requires !UpToDate(k, first) && (k.Ixfr? ==> n >= 1)
    ensures var p := Run(k, INITIAL, [Soa(first)] + Others(n) + [Soa(last)] + rest);
            p.verdict == Complete && p.seen == n + 2
  {
    var stream := [Soa(first)] + Others(n) + [Soa(last)] + rest;
    assert stream[0] == Soa(first) && stream[n + 1] == Soa(last);
    assert forall j :: 1 <= j < n + 1 ==> stream[j] == Other;
    CompleteExactly(k, stream, n + 1);
  }

  // ---------------------------------------------- incremental transfers

  // One difference sequence: from one version to another, with the numbers of
  // records deleted and added.
  datatype Diff = Diff(from: u32, deleted: nat, to: u32, added: nat)

  function DiffStream(d: Diff): (s: seq<Record>)
    ensures |s| >= 2
  {
    [Soa(d.from)] + Others(d.deleted) + [Soa(d.to)] + Others(d.added)
  }

  function Diffs(ds: seq<Diff>): (s: seq<Record>)
    ensures |s| >= 2 * |ds|
  {
    if ds == [] then [] else DiffStream(ds[0]) + Diffs(ds[1..])
  }

  // The difference sequences lead from version to version, the last to newest.
  ghost predicate Leads(ds: seq<Diff>, newest: u32) {
    && ds != [] && ds[|ds| - 1].to == newest
    && forall i :: 0 <= i < |ds| - 1 ==> ds[i].to == ds[i + 1].from
  }

  // An incremental answer (section 4 of RFC 1995).
  function IxfrStream(newest: u32, ds: seq<Diff>): seq<Record> {
    [Soa(newest)] + Diffs(ds) + [Soa(newest)]
  }

  // The query in the middle of an incremental transfer.
  ghost predicate Incremental(s: State, newest: u32) {
    s.firstSoa && s.firstSerial == newest && !s.ixfrAxfr
  }

  lemma {:induction false} RunOthers(k: Kind, s: State, n: nat)
    requires s.firstSoa && s.secondRr
    ensures Run(k, s, Others(n)) == Progress(s, More, n)
    decreases n
  {
    if n > 0 {
      RunOthers(k, s, n - 1);
      assert Others(n)[1..] == Others(n - 1);
    }
  }

  lemma RunSoa(k: Kind, s: State, serial: u32)
    ensures var (s', v) := Step(k, s, Soa(serial));
            Run(k, s, [Soa(serial)]) == Progress(s', v, 1)
  {
    assert [Soa(serial)][1..] == [];
  }

  // One difference sequence that does not start from the newest version.
  lemma RunDiff(k: Kind, s: State, d: Diff, newest: u32)
    requires k.Ixfr? && Incremental(s, newest) && !s.repeated && d.from != newest
    ensures var p := Run(k, s, DiffStream(d));
            && p.verdict == More && Incremental(p.state, newest) && p.state.secondRr
            && p.state.repeated == (d.to == newest)
  {
    var s1 := Step(k, s, Soa(d.from)).0;
    RunSoa(k, s, d.from);
    RunConcat(k, s, [Soa(d.from)], Others(d.deleted));
    RunOthers(k, s1, d.deleted);
    RunSoa(k, s1, d.to);
    RunConcat(k, s, [Soa(d.from)] + Others(d.deleted), [Soa(d.to)]);
    var s2 := Step(k, s1, Soa(d.to)).0;
    RunConcat(k, s, [Soa(d.from)] + Others(d.deleted) + [Soa(d.to)], Others(d.added));
    RunOthers(k, s2, d.added);
  }

  lemma {:induction false} RunDiffs(k: Kind, s: State, ds: seq<Diff>, newest: u32)
    requires k.Ixfr? && Incremental(s, newest) && !s.repeated && Leads(ds, newest)
    requires forall i :: 0 <= i < |ds| ==> ds[i].from != newest
    ensures var p := Run(k, s, Diffs(ds));
            p.verdict == More && Incremental(p.state, newest) && p.state.secondRr && p.state.repeated
    decreases |ds|
  {
    RunDiff(k, s, ds[0], newest);
    var p := Run(k, s, DiffStream(ds[0]));
    RunConcat(k, s, DiffStream(ds[0]), Diffs(ds[1..]));
    if |ds| == 1 {
      assert Diffs(ds[1..]) == [];
    } else {
      assert ds[0].to == ds[1].from;
      RunDiffs(k, p.state, ds[1..], newest);
    }
  }

  lemma {:induction false} DiffsConcat(a: seq<Diff>, b: seq<Diff>)
    ensures Diffs(a + b) == Diffs(a) + Diffs(b)
    decreases |a|
  {
    if a == [] {
      ConcatEmpty(b);
      ConcatEmpty(Diffs(b));
    } else {
      TailOfConcat(a, b);
      DiffsConcat(a[1..], b);
      ConcatAssoc(DiffStream(a[0]), Diffs(a[1..]), Diffs(b));
    }
  }

  // When no difference sequence starts from the newest version, the transfer is
  // complete exactly at the final SOA record.
  lemma IxfrCompleteAtEnd(client: u32, newest: u32, ds: seq<Diff>)
    requires !Ge(client, newest) && Leads(ds, newest)
    requires forall i :: 0 <= i < |ds| ==> ds[i].from != newest
    ensures var p := Run(Ixfr(client), INITIAL, IxfrStream(newest, ds));
            p.verdict == Complete && p.seen == |IxfrStream(newest, ds)|
  {
    RunBefore(client, newest, ds);
    ConcatEmpty(IxfrStream(newest, ds));
    CompleteAfter(client, newest, [Soa(newest)] + Diffs(ds), []);
  }

  // The query after the first SOA record and the difference sequences in ds,
  // which come before one that starts from the newest version.
  lemma {:induction false} RunBefore(client: u32, newest: u32, ds: seq<Diff>)
    requires !Ge(client, newest) && (ds != [] ==> Leads(ds, newest))
    requires forall i :: 0 <= i < |ds| ==> ds[i].from != newest
    ensures var p := Run(Ixfr(client), INITIAL, [Soa(newest)] + Diffs(ds));
            && p.verdict == More && Incremental(p.state, newest)
            && p.state.repeated == p.state.secondRr == (ds != [])
  {
    var k := Ixfr(client);
    var s1 := Step(k, INITIAL, Soa(newest)).0;
    RunSoa(k, INITIAL, newest);
    RunConcat(k, INITIAL, [Soa(newest)], Diffs(ds));
    if ds != [] {
      RunDiffs(k, s1, ds, newest);
    }
  }

  // A difference sequence that starts from the newest version ends the transfer
  // early.
  lemma IxfrCompleteEarly(client: u32, newest: u32, ds: seq<Diff>, j: nat)
    requires !Ge(client, newest) && Leads(ds, newest) && j < |ds| && ds[j].from == newest
    requires forall i :: 0 <= i < j ==> ds[i].from != newest
    ensures var p := Run(Ixfr(client), INITIAL, IxfrStream(newest, ds));
            p.verdict == Complete && p.seen < |IxfrStream(newest, ds)|
  {
    var before, d, after := ds[..j], ds[j], ds[j + 1..];
    assert ds == before + ([d] + after);
    SplitAt(newest, before, d, after);
    if j > 0 {
      assert ds[j - 1].to == ds[j].from;
      assert Leads(before, newest);
    }
    RunBefore(client, newest, before);
    CompleteAfter(client, newest, [Soa(newest)] + Diffs(before), AfterFrom(newest, d, after));
  }

  // The newest serial, back again, completes the transfer whatever follows.
  lemma CompleteAfter(client: u32, newest: u32, head: seq<Record>, rest: seq<Record>)
    requires var p := Run(Ixfr(client), INITIAL, head);
             p.verdict == More && Incremental(p.state, newest) && (p.state.secondRr ==> p.state.repeated)
    ensures var p := Run(Ixfr(client), INITIAL, head + [Soa(newest)] + rest);
            p.verdict == Complete && p.seen == |head| + 1
  {
    var k := Ixfr(client);
    RunSoa(k, Run(k, INITIAL, head).state, newest);
    RunConcat(k, INITIAL, head, [Soa(newest)]);
    RunConcat(k, INITIAL, head + [Soa(newest)], rest);
  }

  // What follows the first SOA record of difference sequence d.
  function AfterFrom(newest: u32, d: Diff, after: seq<Diff>): (r: seq<Record>)
    ensures |r| > 0
  {
    Others(d.deleted) + [Soa(d.to)] + Others(d.added) + Diffs(after) + [Soa(newest)]
  }

  lemma SplitAt(newest: u32, before: seq<Diff>, d: Diff, after: seq<Diff>)
    ensures IxfrStream(newest, before + ([d] + after)) ==
            ([Soa(newest)] + Diffs(before)) + [Soa(d.from)] + AfterFrom(newest, d, after)
  {
    DiffsConcat(before, [d] + after);
    assert ([d] + after)[1..] == after;
    var x, y := Others(d.deleted) + [Soa(d.to)] + Others(d.added), Diffs(after);
    assert DiffStream(d) == [Soa(d.from)] + x;
    assert Diffs([d] + after) == DiffStream(d) + y;
    hide Diffs, DiffStream, Others;
    assert ([Soa(d.from)] + x + y) + [Soa(newest)] == [Soa(d.from)] + (x + y + [Soa(newest)]);
    ConcatAssoc([Soa(newest)] + Diffs(before), [Soa(d.from)], x + y + [Soa(newest)]);
    ConcatAssoc([Soa(newest)], Diffs(before), [Soa(d.from)] + x + y);
    ConcatAssoc([Soa(newest)] + Diffs(before), [Soa(d.from)] + x + y, [Soa(newest)]);
  }

  // So a well-formed incremental transfer is complete at its last record if and
  // only if no difference sequence starts from the newest version.
  lemma IxfrCompleteIff(client: u32, newest: u32, ds: seq<Diff>)
    requires !Ge(client, newest) && Leads(ds, newest)
    ensures var p := Run(Ixfr(client), INITIAL, IxfrStream(newest, ds));
            && p.verdict == Complete
            && (p.seen == |IxfrStream(newest, ds)| <==> forall i :: 0 <= i < |ds| ==> ds[i].from != newest)
  {
    if forall i :: 0 <= i < |ds| ==> ds[i].from != newest {
      IxfrCompleteAtEnd(client, newest, ds);
    } else {
      var j := 0;
      while ds[j].from != newest
        invariant j < |ds| && exists i :: j <= i < |ds| && ds[i].from == newest
        invariant forall i :: 0 <= i < j ==> ds[i].from != newest
        decreases |ds| - j
      {
        j := j + 1;
      }
      IxfrCompleteEarly(client, newest, ds, j);
    }
  }
}
