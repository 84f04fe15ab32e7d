// When a zone transfer is complete (check_for_more_data in bin/dig/dighost.c).
//
// AXFR is described in section 2.2 of RFC 5936 and IXFR in section 4 of RFC
// 1995. The state of a transfer is carried from message to message in the query.
module Transfer {
  import opened Base
  import opened Serial

  datatype Record = Soa(serial: u32) | Other

  // What was asked for; an incremental transfer names the serial the client has.
  datatype Kind = Axfr | Ixfr(client: u32)

  // The answer section of a message: names, each with its RRsets, each with its
  // records.
  type Answer = seq<seq<seq<Record>>>

  // The fields of the query that decide.
  datatype State = State(firstSoa: bool, secondRr: bool, firstSerial: u32, secondSerial: u32,
                         repeated: bool, ixfrAxfr: bool)

  datatype Verdict = More | Complete | EmptyMessage | NotSoa

  const INITIAL := State(false, false, 0, 0, false, false)

  // ------------------------------------------------------------- one record

  predicate WholeZone(k: Kind, s: State) {
    k.Axfr? || s.ixfrAxfr
  }

  function Step(k: Kind, s: State, r: Record): (State, Verdict) {
    if r.Other? then
      if !s.firstSoa then (s, NotSoa)
      else if !s.secondRr then (s.(secondRr := true, secondSerial := 0, ixfrAxfr := true), More)
      else (s, More)
    else if !s.firstSoa then
      (s.(firstSoa := true, firstSerial := r.serial),
       if k.Ixfr? && Ge(k.client, r.serial) then Complete else More)
    else if WholeZone(k, s) then (s, Complete)
    else if !s.secondRr then
      if s.firstSerial == r.serial then (s, Complete)
      else (s.(secondRr := true, secondSerial := r.serial), More)
    else if s.firstSerial == r.serial then
      if s.repeated then (s, Complete) else (s.(repeated := true), More)
    else (s, More)
  }

  // The state after the records of a stream, as far as they are looked at, the
  // verdict, and how many were looked at.
  datatype Progress = Progress(state: State, verdict: Verdict, seen: nat)

  function Run(k: Kind, s: State, stream: seq<Record>): (p: Progress)
    ensures p.seen <= |stream| && (p.verdict == More ==> p.seen == |stream|)
    ensures p.verdict != EmptyMessage
    decreases |stream|
  {
    if stream == [] then Progress(s, More, 0)
    else
      var (s', v) := Step(k, s, stream[0]);
      if v != More then Progress(s', v, 1)
      else
        Later(1, Run(k, s', stream[1..]))
  }

  // The outcome of the rest of a stream, after n records of it.
  function Later(n: nat, p: Progress): Progress {
    p.(seen := n + p.seen)
  }

  lemma {:induction false} RunConcat(k: Kind, s: State, a: seq<Record>, b: seq<Record>)
    ensures var p := Run(k, s, a);
            Run(k, s, a + b) ==
            if p.verdict != More then p
            else Later(|a|, Run(k, p.state, b))
    decreases |a|
  {
    if a == [] {
      ConcatEmpty(b);
    } else {
      TailOfConcat(a, b);
      RunConcat(k, Step(k, s, a[0]).0, a[1..], b);
    }
  }

  lemma {:induction false} AfterSoa(k: Kind, s: State, stream: seq<Record>)
    requires s.firstSoa
    ensures Run(k, s, stream).verdict != NotSoa
    decreases |stream|
  {
    if stream != [] {
      AfterSoa(k, Step(k, s, stream[0]).0, stream[1..]);
    }
  }

  // A transfer fails exactly when its first record is no SOA, and at once.
  lemma NotSoaExactly(k: Kind, stream: seq<Record>)
    ensures Run(k, INITIAL, stream).verdict == NotSoa <==> stream != [] && stream[0].Other?
    ensures Run(k, INITIAL, stream).verdict == NotSoa ==> Run(k, INITIAL, stream).seen == 1
  {
    if stream != [] && stream[0].Soa? {
      AfterSoa(k, Step(k, INITIAL, stream[0]).0, stream[1..]);
    }
  }

  // --------------------------------------------------- a message at a time

  function Flatten<T>(ss: seq<seq<T>>): seq<T> {
    if ss == [] then [] else ss[0] + Flatten(ss[1..])
  }

  // The records of a message in order.
  function Records(m: Answer): seq<Record> {
    Flatten(Flatten(m))
  }

  // The transfer over a run of messages.
  function RunMessages(k: Kind, s: State, ms: seq<Answer>): (p: Progress)
    decreases |ms|
  {
    if ms == [] then Progress(s, More, 0)
    else if ms[0] == [] then Progress(s, EmptyMessage, 0)
    else
      var p := Run(k, s, Records(ms[0]));
      if p.verdict != More then p
      else
        Later(p.seen, RunMessages(k, p.state, ms[1..]))
  }

  function Stream(ms: seq<Answer>): seq<Record> {
    if ms == [] then [] else Records(ms[0]) + Stream(ms[1..])
  }

  // Message boundaries do not matter: messages that are not empty give the
  // verdict, the carried state and the point of completion of their records.
  lemma {:induction false} BoundariesDoNotMatter(k: Kind, s: State, ms: seq<Answer>)
    requires forall i :: 0 <= i < |ms| ==> ms[i] != []
    ensures RunMessages(k, s, ms) == Run(k, s, Stream(ms))
    decreases |ms|
  {
    if ms != [] {
      var p := Run(k, s, Records(ms[0]));
      RunConcat(k, s, Records(ms[0]), Stream(ms[1..]));
      BoundariesDoNotMatter(k, p.state, ms[1..]);
    }
  }

  // An empty message ends a transfer that is not yet over: it neither completes
  // nor goes on.
  lemma {:induction false} EmptyEnds(k: Kind, s: State, before: seq<Answer>, after: seq<Answer>)
    requires forall i :: 0 <= i < |before| ==> before[i] != []
    ensures var p, q := Run(k, s, Stream(before)), RunMessages(k, s, before + [[]] + after);
            && q == (if p.verdict == More then p.(verdict := EmptyMessage) else p)
            && q.verdict != More && (q.verdict == Complete ==> p.verdict == Complete)
    decreases |before|
  {
    var ms := before + [[]] + after;
    if before == [] {
      assert ms[0] == [];
    } else {
      var p := Run(k, s, Records(before[0]));
      assert ms[0] == before[0] && ms[1..] == before[1..] + [[]] + after;
      RunConcat(k, s, Records(before[0]), Stream(before[1..]));
      EmptyEnds(k, p.state, before[1..], after);
    }
  }

  // Two ways to cut one stream into messages.
  lemma AnyTwoSplits(k: Kind, a: seq<Answer>, b: seq<Answer>)
    requires Stream(a) == Stream(b)
    requires (forall i :: 0 <= i < |a| ==> a[i] != []) && (forall i :: 0 <= i < |b| ==> b[i] != [])
    ensures RunMessages(k, INITIAL, a) == RunMessages(k, INITIAL, b)
  {
    BoundariesDoNotMatter(k, INITIAL, a);
    BoundariesDoNotMatter(k, INITIAL, b);
  }

  // --------------------------------------------------------------- the query

  // A uint32_t counter after n increments.
  function Plus(count: u32, n: nat): u32 {
    (count + n) % TWO32
  }

  lemma PlusPlus(count: u32, a: nat, b: nat)
    ensures Plus(Plus(count, a), b) == Plus(count, a + b) && Plus(count, 0) == count
  {
  }

  // The rest of a stream whose first n records have been looked at.
  ghost predicate Remaining(k: Kind, s0: State, all: seq<Record>, s: State, rest: seq<Record>, n: nat) {
    Run(k, s0, all) == Later(n, Run(k, s, rest))
  }

  lemma RemainingFirst(k: Kind, s0: State, all: seq<Record>)
    ensures Remaining(k, s0, all, s0, all, 0)
  {
  }

  lemma RemainingLast(k: Kind, s0: State, all: seq<Record>, s: State, n: nat)
    requires Remaining(k, s0, all, s, [], n)
    ensures Run(k, s0, all) == Progress(s, More, n)
  {
  }

  lemma Consume(k: Kind, s0: State, all: seq<Record>, s: State, part: seq<Record>, rest: seq<Record>, n: nat)
    requires Remaining(k, s0, all, s, part + rest, n)
    ensures var p := Run(k, s, part);
            if p.verdict != More then Run(k, s0, all) == Later(n, p)
            else Remaining(k, s0, all, p.state, rest, n + p.seen)
  {
    RunConcat(k, s, part, rest);
  }

  class Query {
    var firstSoaRcvd: bool
    var secondRrRcvd: bool
    var firstRrSerial: u32
    var secondRrSerial: u32
    var firstRepeatRcvd: bool
    var ixfrAxfr: bool
    var msgCount: u32
    var rrCount: u32
    var byteCount: nat

    constructor ()
      ensures Abstract() == INITIAL && msgCount == rrCount == 0 && byteCount == 0
    {
      firstSoaRcvd, secondRrRcvd, firstRrSerial, secondRrSerial := false, false, 0, 0;
      firstRepeatRcvd, ixfrAxfr, msgCount, rrCount, byteCount := false, false, 0, 0, 0;
    }

    function Abstract(): State
      reads this
    {
      State(firstSoaRcvd, secondRrRcvd, firstRrSerial, secondRrSerial, firstRepeatRcvd, ixfrAxfr)
    }

    // check_for_more_data: looks at one message of len octets.
    method CheckForMoreData(k: Kind, m: Answer, len: nat) returns (v: Verdict)
      modifies this
      ensures var p := RunMessages(k, old(Abstract()), [m]);
              v == p.verdict && Abstract() == p.state && rrCount == Plus(old(rrCount), p.seen)
      ensures msgCount == Plus(old(msgCount), 1) && byteCount == old(byteCount) + len
    {
      var axfr := k.Axfr?;
      if k.Ixfr? {
        axfr := ixfrAxfr;
      }
      msgCount := (msgCount + 1) % TWO32;
      byteCount := byteCount + len;
      assert [m][1..] == [];
      PlusPlus(rrCount, 0, 0);
      if m == [] {
        return EmptyMessage;
      }
      v := CheckAnswer(k, axfr, m);
    }

    method CheckAnswer(k: Kind, axfr: bool, m: Answer) returns (v: Verdict)
      requires axfr == WholeZone(k, Abstract())
      modifies this
      ensures var p := Run(k, old(Abstract()), Records(m));
              v == p.verdict && Abstract() == p.state && rrCount == Plus(old(rrCount), p.seen)
      ensures msgCount == old(msgCount) && byteCount == old(byteCount)
    {
      hide Run, Plus, Records, WholeZone, Flatten, Remaining;
      ghost var s0, all, seen: nat := Abstract(), Records(m), 0;
      RemainingFirst(k, s0, all);
      PlusPlus(rrCount, 0, 0);
      var n, axfr' := 0, axfr;
      assert m[0..] == m && m[|m|..] == [];
      while n < |m|
        invariant n <= |m| && axfr' == WholeZone(k, Abstract())
        invariant msgCount == old(msgCount) && byteCount == old(byteCount)
        invariant rrCount == Plus(old(rrCount), seen)
        invariant Remaining(k, s0, all, Abstract(), Records(m[n..]), seen)
      {
        RecordsHead(m, n);
        Consume(k, s0, all, Abstract(), Flatten(m[n]), Records(m[n + 1..]), seen);
        ghost var p := Run(k, Abstract(), Flatten(m[n]));
        PlusPlus(old(rrCount), seen, p.seen);
        v, axfr' := CheckName(k, axfr', m[n]);
        if v != More {
          return;
        }
        seen := seen + p.seen;
        n := n + 1;
      }
      NoRecords();
      RemainingLast(k, s0, all, Abstract(), seen);
      return More;
    }

    // The RRsets of one name.
    method CheckName(k: Kind, axfr: bool, sets: seq<seq<Record>>) returns (v: Verdict, axfr': bool)
      requires axfr == WholeZone(k, Abstract())
      modifies this
      ensures var p := Run(k, old(Abstract()), Flatten(sets));
              v == p.verdict && Abstract() == p.state && rrCount == Plus(old(rrCount), p.seen)
      ensures axfr' == WholeZone(k, Abstract()) && msgCount == old(msgCount) && byteCount == old(byteCount)
    {
      hide Run, Plus, Flatten, WholeZone, Remaining;
      ghost var s0, all, seen: nat := Abstract(), Flatten(sets), 0;
      RemainingFirst(k, s0, all);
      PlusPlus(rrCount, 0, 0);
      var i := 0;
      axfr' := axfr;
      assert sets[0..] == sets && sets[|sets|..] == [];
      FlattenEmpty<Record>();
      while i < |sets|
        invariant i <= |sets| && axfr' == WholeZone(k, Abstract())
        invariant msgCount == old(msgCount) && byteCount == old(byteCount)
        invariant rrCount == Plus(old(rrCount), seen)
        invariant Remaining(k, s0, all, Abstract(), Flatten(sets[i..]), seen)
      {
        FlattenHead(sets, i);
        Consume(k, s0, all, Abstract(), sets[i], Flatten(sets[i + 1..]), seen);
        ghost var p := Run(k, Abstract(), sets[i]);
        PlusPlus(old(rrCount), seen, p.seen);
        v, axfr' := CheckSet(k, axfr', sets[i]);
        if v != More {
          return;
        }
        seen := seen + p.seen;
        i := i + 1;
      }
      RemainingLast(k, s0, all, Abstract(), seen);
      return More, axfr';
    }

    // The records of one RRset.
    method CheckSet(k: Kind, axfr: bool, records: seq<Record>) returns (v: Verdict, axfr': bool)
      requires axfr == WholeZone(k, Abstract())
      modifies this
      ensures var p := Run(k, old(Abstract()), records);
              v == p.verdict && Abstract() == p.state && rrCount == Plus(old(rrCount), p.seen)
      ensures axfr' == WholeZone(k, Abstract()) && msgCount == old(msgCount) && byteCount == old(byteCount)
    {
      ghost var s0 := Abstract();
      hide Plus, Step, WholeZone;
      PlusPlus(rrCount, 0, 0);
      var i := 0;
      axfr' := axfr;
      assert records[0..] == records;
      while i < |records|
        invariant i <= |records| && axfr' == WholeZone(k, Abstract())
        invariant msgCount == old(msgCount) && byteCount == old(byteCount)
        invariant rrCount == Plus(old(rrCount), i)
        invariant Remaining(k, s0, records, Abstract(), records[i..], i)
      {
        assert records[i..][0] == records[i] && records[i..][1..] == records[i + 1..];
        PlusPlus(old(rrCount), i, 1);
        v, axfr' := CheckRecord(k, axfr', records[i]);
        if v != More {
          return;
        }
        i := i + 1;
      }
      return More, axfr';
    }

    // One record, with the branches in the order of the program.
    method CheckRecord(k: Kind, axfr: bool, r: Record) returns (v: Verdict, axfr': bool)
      requires axfr == WholeZone(k, Abstract())
      modifies this
      ensures (Abstract(), v) == Step(k, old(Abstract()), r) && axfr' == WholeZone(k, Abstract())
      ensures rrCount == Plus(old(rrCount), 1) && msgCount == old(msgCount) && byteCount == old(byteCount)
    {
      axfr', v := axfr, More;
      rrCount := (rrCount + 1) % TWO32;
      if !firstSoaRcvd && r.Other? {
        v := NotSoa;
        return;
      }
      if !secondRrRcvd && r.Other? {
        secondRrRcvd, secondRrSerial := true, 0;
        ixfrAxfr := true;
        axfr' := true;
        return;
      }
      if r.Other? {
        return;
      }
      var serial := r.serial;
      if !firstSoaRcvd {
        firstSoaRcvd, firstRrSerial := true, serial;
        if k.Ixfr? && Ge(k.client, serial) {
          v := Complete;
        }
        return;
      }
      if axfr {
        v := Complete;
        return;
      }
      if !secondRrRcvd {
        if firstRrSerial == serial {
          v := Complete;
          return;
        }
        secondRrRcvd, secondRrSerial := true, serial;
        return;
      }
      if firstRrSerial == serial {
        if !firstRepeatRcvd {
          firstRepeatRcvd := true;
          return;
        }
        v := Complete;
      }
    }
  }

  lemma FlattenEmpty<T>()
    ensures Flatten<T>([]) == []
  {
  }

  lemma FlattenHead<T>(ss: seq<seq<T>>, i: nat)
    requires i < |ss|
    ensures Flatten(ss[i..]) == ss[i] + Flatten(ss[i + 1..])
  {
    assert ss[i..][0] == ss[i] && ss[i..][1..] == ss[i + 1..];
  }

  lemma {:induction false} FlattenConcat<T>(a: seq<seq<T>>, b: seq<seq<T>>)
    ensures Flatten(a + b) == Flatten(a) + Flatten(b)
  {
    if a == [] {
      ConcatEmpty(b);
      ConcatEmpty(Flatten(b));
    } else {
      TailOfConcat(a, b);
      FlattenConcat(a[1..], b);
      ConcatAssoc(a[0], Flatten(a[1..]), Flatten(b));
    }
  }

  lemma RecordsHead(m: Answer, n: nat)
    requires n < |m|
    ensures Records(m[n..]) == Flatten(m[n]) + Records(m[n + 1..])
  {
    FlattenHead(m, n);
    FlattenConcat(m[n], Flatten(m[n + 1..]));
  }

  lemma NoRecords()
    ensures Records([]) == []
  {
  }
}
