// Replay protection in dnssec-cds: the oldest inception time among the
// signatures that were accepted becomes the limit of the next run
// (bin/dnssec/dnssec-cds.c).
module Replay {
  import opened Base
  import opened Serial

  // The update of oldestsig for one verified signature; zero means none yet.
  function Older(oldest: u32, t: u32): u32 {
    if oldest == 0 || Lt(t, oldest) then t else oldest
  }

  // oldestsig after these verified signatures, in this order.
  function Oldest(ts: seq<u32>): u32 {
    if ts == [] then 0 else Older(Oldest(ts[..|ts| - 1]), ts[|ts| - 1])
  }

  // The signatures were not too old for the limit of this run.
  ghost predicate Accepted(limit: u32, ts: seq<u32>) {
    forall i :: 0 <= i < |ts| ==> !Lt(ts[i], limit)
  }

  // The next run takes the oldest one for its limit; it accepts them all again.
  ghost predicate AcceptedAgain(ts: seq<u32>) {
    Accepted(Oldest(ts), ts)
  }

  lemma {:induction false} OldestIsOne(ts: seq<u32>)
    requires ts != []
    ensures Oldest(ts) in ts
  {
    var n := |ts| - 1;
    if n > 0 {
      OldestIsOne(ts[..n]);
      assert Oldest(ts[..n]) in ts;
    }
  }

  // A time that is before all the others, except that it need not be before
  // zero, is found, wherever it stands.
  lemma {:induction false} OldestFound(ts: seq<u32>, m: u32)
    requires m != 0 && forall i :: 0 <= i < |ts| ==> !Lt(ts[i], m) && (ts[i] == m || ts[i] == 0 || Lt(m, ts[i]))
    ensures m in ts ==> Oldest(ts) == m
    ensures m !in ts && ts != [] ==> Oldest(ts) == 0 || Lt(m, Oldest(ts))
  {
    if ts != [] {
      var n := |ts| - 1;
      OldestFound(ts[..n], m);
      assert ts == ts[..n] + [ts[n]];
    }
  }

  // ------------------------------------------------------- under a limit

  // How long after the limit.
  function Age(limit: u32, t: u32): u32 {
    Ahead(t, limit)
  }

  // Under the limit the order is that of the ages, except between the limit
  // itself and the time half a circle later.
  lemma ByAge(limit: u32, a: u32, b: u32)
    requires !Lt(a, limit) && !Lt(b, limit)
    ensures Age(limit, a) <= TWO31 && Age(limit, b) <= TWO31
    ensures Lt(a, b) <==> Age(limit, a) < Age(limit, b) && !(Age(limit, a) == 0 && Age(limit, b) == TWO31)
    ensures a == b <==> Age(limit, a) == Age(limit, b)
  {
    FromLimit(limit, a, b);
  }

  // m is the earliest of the times.
  ghost predicate First(limit: u32, ts: seq<u32>, m: u32) {
    m in ts && forall i :: 0 <= i < |ts| ==> Age(limit, m) <= Age(limit, ts[i])
  }

  lemma {:induction false} FirstExists(limit: u32, ts: seq<u32>) returns (m: u32)
    requires ts != []
    ensures First(limit, ts, m)
  {
    var n := |ts| - 1;
    if n == 0 {
      m := ts[0];
    } else {
      m := FirstExists(limit, ts[..n]);
      assert ts == ts[..n] + [ts[n]];
      if Age(limit, ts[n]) < Age(limit, m) {
        m := ts[n];
      }
    }
  }

  // With no inception time of zero and no two at the undefined distance, the
  // recorded time is the earliest of all, and a second run accepts all of them.
  lemma OldestIsFirst(limit: u32, ts: seq<u32>)
    requires ts != [] && Accepted(limit, ts)
    requires forall i :: 0 <= i < |ts| ==> ts[i] != 0
    requires forall i, j :: 0 <= i < |ts| && 0 <= j < |ts| ==> !Opposite(ts[i], ts[j])
    ensures First(limit, ts, Oldest(ts)) && AcceptedAgain(ts)
  {
    var m := FirstExists(limit, ts);
    forall i | 0 <= i < |ts|
      ensures !Lt(ts[i], m) && (ts[i] == m || Lt(m, ts[i]))
    {
      ByAge(limit, ts[i], m);
      ByAge(limit, m, ts[i]);
      var k :| 0 <= k < |ts| && ts[k] == m;
    }
    OldestFound(ts, m);
  }

  // ------------------------------------- exactly when a second run succeeds

  // The same times in another order.
  ghost predicate SameTimes(ts: seq<u32>, us: seq<u32>) {
    multiset(ts) == multiset(us)
  }

  // Zero is the earliest of several times; it stands for "none yet".
  ghost predicate ZeroFirst(limit: u32, ts: seq<u32>) {
    First(limit, ts, 0) && exists y :: y in ts && Lt(0, y)
  }

  // The limit itself, the time half a circle later, and a time in between.
  ghost predicate HalfCircle(limit: u32, ts: seq<u32>) {
    && limit in ts
    && (exists a :: a in ts && a != 0 && Age(limit, a) == TWO31)
    && exists x :: x in ts && 0 < Age(limit, x) < TWO31
  }

  lemma Sufficient(limit: u32, ts: seq<u32>)
    requires ts != [] && Accepted(limit, ts) && !ZeroFirst(limit, ts) && !HalfCircle(limit, ts)
    ensures AcceptedAgain(ts)
  {
    var m := FirstExists(limit, ts);
    forall i | 0 <= i < |ts|
      ensures !Lt(ts[i], m)
      ensures ts[i] == m || Lt(m, ts[i]) || (m == limit && Age(limit, ts[i]) == TWO31)
    {
      ByAge(limit, ts[i], m);
      ByAge(limit, m, ts[i]);
      assert Age(limit, m) == 0 ==> m == limit;
    }
    if exists a :: a in ts && a != 0 && Age(limit, a) == TWO31 && m == limit {
      OnlyTheTwo(limit, ts);
    } else if m == 0 {
      assert forall i :: 0 <= i < |ts| ==> ts[i] == 0;
      OldestIsOne(ts);
    } else {
      assert forall i :: 0 <= i < |ts| ==> ts[i] == m || ts[i] == 0 || Lt(m, ts[i]);
      OldestFound(ts, m);
    }
  }

  // Between the limit and the time half a circle later nothing is ever too old.
  lemma OnlyTheTwo(limit: u32, ts: seq<u32>)
    requires ts != [] && Accepted(limit, ts) && !HalfCircle(limit, ts) && limit in ts
    requires exists a :: a in ts && a != 0 && Age(limit, a) == TWO31
    ensures AcceptedAgain(ts)
  {
    OldestIsOne(ts);
    var f := Oldest(ts);
    forall i | 0 <= i < |ts|
      ensures !Lt(ts[i], f)
    {
      ByAge(limit, ts[i], f);
      assert ts[i] in ts && f in ts;
    }
  }

  lemma OldestNone()
    ensures Oldest([]) == 0
  {
  }

  lemma OldestSnoc(ts: seq<u32>, t: u32)
    ensures Oldest(ts + [t]) == Older(Oldest(ts), t)
  {
    assert (ts + [t])[..|ts|] == ts;
  }

  // A later time last: zero, which stands for "none yet", is forgotten and then
  // too old.
  lemma ZeroForgotten(limit: u32, ts: seq<u32>, y: u32) returns (us: seq<u32>)
    requires Accepted(limit, ts) && First(limit, ts, 0) && y in ts && Lt(0, y)
    ensures SameTimes(ts, us) && !AcceptedAgain(us)
  {
    hide Lt, Oldest, Age;
    var vs;
    us, vs := MovedLast(ts, y);
    OldestSnoc(vs, y);
    if vs != [] {
      OldestIsOne(vs);
      if Oldest(vs) != 0 && !Lt(y, Oldest(vs)) {
        LaterThanZero(limit, ts, y, Oldest(vs));
      }
    } else {
      OldestNone();
    }
    assert 0 in us && Lt(0, Oldest(us));
  }

  // One time is put last.
  lemma MovedLast(ts: seq<u32>, y: u32) returns (us: seq<u32>, vs: seq<u32>)
    requires y in ts
    ensures us == vs + [y] && SameTimes(ts, us)
    ensures (forall t :: t in us <==> t in ts) && forall t :: t in vs ==> t in ts
  {
    var i :| 0 <= i < |ts| && ts[i] == y;
    vs := ts[..i] + ts[i + 1..];
    us := vs + [y];
    assert ts == ts[..i] + [y] + ts[i + 1..];
  }

  lemma LaterThanZero(limit: u32, ts: seq<u32>, y: u32, f: u32)
    requires Accepted(limit, ts) && First(limit, ts, 0) && y in ts && Lt(0, y) && f in ts && f != 0 && !Lt(y, f)
    ensures Lt(0, f)
  {
    ByAge(limit, y, f);
    ByAge(limit, 0, f);
    ByAge(limit, 0, y);
  }

  // The time half a circle later first, then the limit, which does not count as
  // before it, then the others.
  lemma LimitForgotten(limit: u32, ts: seq<u32>, a: u32, x: u32) returns (us: seq<u32>)
    requires Accepted(limit, ts) && limit in ts && a in ts && a != 0 && Age(limit, a) == TWO31
    requires x in ts && 0 < Age(limit, x) < TWO31
    ensures SameTimes(ts, us) && !AcceptedAgain(us)
  {
    var rest;
    us, rest := Arranged(limit, ts, a, x);
    var n := multiset(ts)[limit];
    var limits := seq(n, _ => limit);
    hide Lt, Ahead, Oldest;
    LimitsStay(limit, a, n);
    ByAge(limit, a, limit);
    StaysAway(limit, [a] + limits, rest);
    OldestSnoc(([a] + limits) + rest, x);
    ByAge(limit, x, Oldest(([a] + limits) + rest));
    ByAge(limit, limit, Oldest(us));
    assert us[1] == limit;
  }

  // The late time, all copies of the limit, the rest, and the time in between.
  lemma Arranged(limit: u32, ts: seq<u32>, a: u32, x: u32) returns (us: seq<u32>, rest: seq<u32>)
    requires Accepted(limit, ts) && limit in ts && a in ts && x in ts && a != limit && x != limit && a != x
    ensures multiset(ts)[limit] > 0
    ensures us == ([a] + seq(multiset(ts)[limit], _ => limit)) + rest + [x] && SameTimes(ts, us)
    ensures Accepted(limit, rest) && forall i :: 0 <= i < |rest| ==> rest[i] != limit
  {
    hide Lt;
    var m, n := multiset(ts), multiset(ts)[limit];
    rest := ListOf(m[limit := 0] - multiset{a, x});
    var limits := seq(n, _ => limit);
    CountSame(limit, n);
    us := ([a] + limits) + rest + [x];
    assert m == m[limit := 0] + multiset(limits);
    forall i | 0 <= i < |rest|
      ensures !Lt(rest[i], limit) && rest[i] != limit
    {
      assert rest[i] in multiset(rest);
    }
  }

  lemma {:induction false} CountSame(t: u32, n: nat)
    ensures multiset(seq(n, _ => t)) == multiset{}[t := n]
  {
    if n > 0 {
      CountSame(t, n - 1);
      assert seq(n, _ => t) == seq(n - 1, _ => t) + [t];
    }
  }

  // The limit never replaces the time half a circle later.
  lemma {:induction false} LimitsStay(limit: u32, a: u32, n: nat)
    requires a != 0 && Age(limit, a) == TWO31
    ensures Oldest([a] + seq(n, _ => limit)) == a
  {
    if n == 0 {
      assert [a] + seq(n, _ => limit) == [] + [a];
      OldestSnoc([], a);
    } else {
      LimitsStay(limit, a, n - 1);
      assert [a] + seq(n, _ => limit) == ([a] + seq(n - 1, _ => limit)) + [limit];
      OldestSnoc([a] + seq(n - 1, _ => limit), limit);
      ByAge(limit, limit, a);
    }
  }

  // Times other than the limit never bring the limit back.
  lemma {:induction false} StaysAway(limit: u32, before: seq<u32>, rest: seq<u32>)
    requires Oldest(before) != limit && !Lt(Oldest(before), limit)
    requires Accepted(limit, rest) && forall i :: 0 <= i < |rest| ==> rest[i] != limit
    ensures Oldest(before + rest) != limit && !Lt(Oldest(before + rest), limit)
  {
    if rest == [] {
      ConcatEmpty(before);
    } else {
      var n := |rest| - 1;
      StaysAway(limit, before, rest[..n]);
      assert before + rest == (before + rest[..n]) + [rest[n]];
      OldestSnoc(before + rest[..n], rest[n]);
    }
  }

  // A second run accepts again all that this one accepted, in whatever order the
  // signatures come, if and only if zero is not the earliest of several times
  // and the times do not span the half circle.
  lemma SecondRun(limit: u32, ts: seq<u32>)
    requires ts != [] && Accepted(limit, ts)
    ensures (forall us :: SameTimes(ts, us) ==> AcceptedAgain(us)) <==> !ZeroFirst(limit, ts) && !HalfCircle(limit, ts)
  {
    if ZeroFirst(limit, ts) {
      var y :| y in ts && Lt(0, y);
      var us := ZeroForgotten(limit, ts, y);
    } else if HalfCircle(limit, ts) {
      var a :| a in ts && a != 0 && Age(limit, a) == TWO31;
      var x :| x in ts && 0 < Age(limit, x) < TWO31;
      var us := LimitForgotten(limit, ts, a, x);
    } else {
      forall us | SameTimes(ts, us)
        ensures AcceptedAgain(us)
      {
        assert |multiset(ts)| == |multiset(us)|;
        SameConditions(limit, ts, us);
        Sufficient(limit, us);
      }
    }
  }

  lemma SameConditions(limit: u32, ts: seq<u32>, us: seq<u32>)
    requires SameTimes(ts, us) && Accepted(limit, ts)
    ensures Accepted(limit, us)
    ensures ZeroFirst(limit, us) ==> ZeroFirst(limit, ts)
    ensures HalfCircle(limit, us) ==> HalfCircle(limit, ts)
  {
    forall i | 0 <= i < |us|
      ensures !Lt(us[i], limit)
    {
      assert us[i] in multiset(ts);
    }
    assert forall t :: t in ts <==> t in multiset(ts);
    assert forall t :: t in us <==> t in multiset(us);
    if ZeroFirst(limit, us) {
      forall i | 0 <= i < |ts|
        ensures Age(limit, 0) <= Age(limit, ts[i])
      {
        assert ts[i] in us;
      }
    }
  }

  // ------------------------------------------------ what was refused before

  // A signature refused in this run is refused in the next if and only if it is
  // less than half a circle before the recorded time.
  lemma RefusedAgain(limit: u32, ts: seq<u32>, t: u32)
    requires ts != [] && Accepted(limit, ts) && Lt(t, limit)
    ensures Lt(t, Oldest(ts)) <==> Ahead(limit, t) + Age(limit, Oldest(ts)) < TWO31
  {
    OldestIsOne(ts);
    ByAge(limit, Oldest(ts), Oldest(ts));
  }

  // So everything refused stays refused only while the limit does not move.
  lemma AllRefusedAgain(limit: u32, ts: seq<u32>)
    requires ts != [] && Accepted(limit, ts)
    ensures (forall t: u32 :: Lt(t, limit) ==> Lt(t, Oldest(ts))) <==> Oldest(ts) == limit
  {
    OldestIsOne(ts);
    var f := Oldest(ts);
    if f != limit {
      var t: u32 := if limit >= TWO31 - 1 then limit - (TWO31 - 1) else limit + TWO31 + 1;
      assert Lt(t, limit);
      RefusedAgain(limit, ts, t);
      assert !Lt(t, f);
    }
  }

  // Refused with the limit 1000, accepted with the time recorded then.
  lemma RefusedThenAccepted()
    ensures Accepted(1000, [TWO31 + 999]) && Lt(999, 1000) && !Lt(999, Oldest([TWO31 + 999]))
  {
    OldestSnoc([], TWO31 + 999);
    assert [] + [TWO31 + 999] == [TWO31 + 999];
  }
}
