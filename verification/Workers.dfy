// Worker threads that claim nodes to sign (assignwork in
// bin/dnssec/dnssec-signzone.c), as a state machine over their steps.
//
// A worker holds the name lock from when it looks for a node until it has one,
// so a claim is one step; signing the node is another.
module Workers {
  import opened Base

  // Scheduled: assignwork will run. Ended: it has returned for good.
  datatype Worker = Scheduled | Signing(node: nat) | Ended

  // eligible says of each node, in the iterator's order, whether it is to be
  // signed by a worker.
  datatype State = State(
    at: nat,              // the iterator
    finished: bool,
    ended: nat,
    shutdowns: nat,       // how often shutdown has been requested
    workers: seq<Worker>,
    claims: seq<nat>,     // nodes claimed, in order
    signed: multiset<nat> // how often each node has been signed
  )

  // The first eligible node from at on, or the number of nodes.
  function Find(eligible: seq<bool>, at: nat): (k: nat)
    requires at <= |eligible|
    ensures at <= k <= |eligible| && (k < |eligible| ==> eligible[k])
    ensures forall m :: at <= m < k ==> !eligible[m]
    decreases |eligible| - at
  {
    if at == |eligible| || eligible[at] then at else Find(eligible, at + 1)
  }

  // The state when the workers are started; the apex has been signed and there
  // is at least one node for the iterator.
  function Initially(nodes: nat, nloops: nat): State {
    State(0, nodes == 0, 0, 0, seq(nloops, _ => Scheduled), [], multiset{})
  }

  function End(s: State, w: nat): State
    requires w < |s.workers|
  {
    s.(workers := s.workers[w := Ended], ended := s.ended + 1,
       shutdowns := if s.ended + 1 == |s.workers| then s.shutdowns + 1 else s.shutdowns)
  }

  // assignwork up to the release of the lock
  function Claim(eligible: seq<bool>, s: State, w: nat): State
    requires w < |s.workers| && s.at <= |eligible|
  {
    if s.finished then End(s, w)
    else
      var k := Find(eligible, s.at);
      if k == |eligible| then End(s.(at := k, finished := true), w)
      else s.(at := k + 1, finished := k + 1 == |eligible|, claims := s.claims + [k],
              workers := s.workers[w := Signing(k)])
  }

  // signname, the dump of the node and the request to run assignwork again
  function Sign(s: State, w: nat): State
    requires w < |s.workers| && s.workers[w].Signing?
  {
    s.(signed := s.signed + multiset{s.workers[w].node}, workers := s.workers[w := Scheduled])
  }

  // A step of worker w.
  predicate Enabled(s: State, w: nat) {
    w < |s.workers| && !s.workers[w].Ended?
  }

  function Step(eligible: seq<bool>, s: State, w: nat): State
    requires Enabled(s, w) && s.at <= |eligible|
  {
    if s.workers[w].Scheduled? then Claim(eligible, s, w) else Sign(s, w)
  }

  // ------------------------------------------------------------- invariant

  ghost function CountEnded(ws: seq<Worker>): nat {
    if ws == [] then 0 else (if ws[0].Ended? then 1 else 0) + CountEnded(ws[1..])
  }

  // The eligible nodes before at, in order.
  ghost function EligibleBefore(eligible: seq<bool>, at: nat): seq<nat>
    requires at <= |eligible|
  {
    if at == 0 then [] else EligibleBefore(eligible, at - 1) + if eligible[at - 1] then [at - 1] else []
  }

  // How many workers are signing node k.
  ghost function InHand(ws: seq<Worker>, k: nat): nat {
    if ws == [] then 0 else InHand(ws[1..], k) + if ws[0] == Signing(k) then 1 else 0
  }

  ghost predicate Inv(eligible: seq<bool>, s: State) {
    && s.at <= |eligible| && (s.finished <==> s.at == |eligible|)
    && s.claims == EligibleBefore(eligible, s.at)
    && s.ended == CountEnded(s.workers)
    && s.shutdowns == (if s.workers != [] && s.ended == |s.workers| then 1 else 0)
    && (s.ended > 0 ==> s.finished)
    && Balanced(s.claims, s.signed, s.workers)
  }

  // Each node is claimed as often as it has been signed or is being signed.
  ghost predicate Balanced(claims: seq<nat>, signed: multiset<nat>, workers: seq<Worker>) {
    forall k: nat :: multiset(claims)[k] == signed[k] + InHand(workers, k)
  }

  lemma {:induction false} EndedUpdate(ws: seq<Worker>, w: nat, v: Worker)
    requires w < |ws|
    ensures CountEnded(ws[w := v]) + (if ws[w].Ended? then 1 else 0) == CountEnded(ws) + if v.Ended? then 1 else 0
  {
    if w == 0 {
      assert ws[w := v][1..] == ws[1..];
    } else {
      assert ws[w := v][1..] == ws[1..][w - 1 := v];
      EndedUpdate(ws[1..], w - 1, v);
    }
  }

  lemma {:induction false} EndedBound(ws: seq<Worker>)
    ensures CountEnded(ws) <= |ws|
    ensures CountEnded(ws) == |ws| <==> forall w :: 0 <= w < |ws| ==> ws[w].Ended?
  {
    if ws != [] {
      EndedBound(ws[1..]);
      if CountEnded(ws) == |ws| {
        assert forall w :: 1 <= w < |ws| ==> ws[w] == ws[1..][w - 1];
      }
    }
  }

  lemma {:induction false} InHandUpdate(ws: seq<Worker>, w: nat, v: Worker, k: nat)
    requires w < |ws|
    ensures InHand(ws[w := v], k) + (if ws[w] == Signing(k) then 1 else 0) == InHand(ws, k) + if v == Signing(k) then 1 else 0
    decreases |ws|
  {
    if w == 0 {
      assert ws[w := v][1..] == ws[1..];
    } else {
      assert ws[w := v][1..] == ws[1..][w - 1 := v];
      InHandUpdate(ws[1..], w - 1, v, k);
    }
  }

  lemma EligibleNext(eligible: seq<bool>, k: nat)
    requires k < |eligible| && eligible[k]
    ensures EligibleBefore(eligible, k + 1) == EligibleBefore(eligible, k) + [k]
  {
  }

  lemma {:induction false} NoneSkipped(eligible: seq<bool>, at: nat, k: nat)
    requires at <= k <= |eligible| && forall m :: at <= m < k ==> !eligible[m]
    ensures EligibleBefore(eligible, k) == EligibleBefore(eligible, at)
    decreases k - at
  {
    if at < k {
      NoneSkipped(eligible, at, k - 1);
    }
  }

  lemma InvInitially(eligible: seq<bool>, nloops: nat)
    ensures Inv(eligible, Initially(|eligible|, nloops))
  {
    NoneAtFirst(nloops);
  }

  lemma {:induction false} NoneAtFirst(n: nat)
    ensures var ws := seq(n, _ => Scheduled);
            CountEnded(ws) == 0 && forall k: nat :: InHand(ws, k) == 0
  {
    if n > 0 {
      NoneAtFirst(n - 1);
      assert seq(n, _ => Scheduled)[1..] == seq(n - 1, _ => Scheduled);
    }
  }

  // The claims and signatures after worker w has become v.
  lemma Accounted(s: State, w: nat, v: Worker, claims: seq<nat>, signed: multiset<nat>)
    requires w < |s.workers| && Balanced(s.claims, s.signed, s.workers)
    requires claims == s.claims + (if v.Signing? then [v.node] else [])
    requires signed == if s.workers[w].Signing? then s.signed + multiset{s.workers[w].node} else s.signed
    ensures Balanced(claims, signed, s.workers[w := v])
  {
    forall k: nat
      ensures multiset(claims)[k] == signed[k] + InHand(s.workers[w := v], k)
    {
      InHandUpdate(s.workers, w, v, k);
    }
  }

  lemma InvEnd(eligible: seq<bool>, s: State, w: nat)
    requires Inv(eligible, s) && w < |s.workers| && s.workers[w].Scheduled? && s.finished
    ensures Inv(eligible, End(s, w))
  {
    hide CountEnded, EligibleBefore, Balanced;
    EndedUpdate(s.workers, w, Ended);
    EndedBound(s.workers);
    ConcatEmpty(s.claims);
    Accounted(s, w, Ended, s.claims, s.signed);
  }

  lemma InvTake(eligible: seq<bool>, s: State, w: nat, k: nat)
    requires Inv(eligible, s) && w < |s.workers| && s.workers[w].Scheduled? && !s.finished
    requires s.at <= k < |eligible| && eligible[k] && forall m :: s.at <= m < k ==> !eligible[m]
    ensures Inv(eligible, s.(at := k + 1, finished := k + 1 == |eligible|, claims := s.claims + [k],
                             workers := s.workers[w := Signing(k)]))
  {
    hide CountEnded, EligibleBefore, Balanced;
    EndedUpdate(s.workers, w, Signing(k));
    EndedBound(s.workers);
    NoneSkipped(eligible, s.at, k);
    EligibleNext(eligible, k);
    Accounted(s, w, Signing(k), s.claims + [k], s.signed);
  }

  lemma InvSign(eligible: seq<bool>, s: State, w: nat)
    requires Inv(eligible, s) && w < |s.workers| && s.workers[w].Signing?
    ensures Inv(eligible, Sign(s, w))
  {
    hide CountEnded, EligibleBefore, Balanced;
    EndedUpdate(s.workers, w, Scheduled);
    EndedBound(s.workers);
    ConcatEmpty(s.claims);
    Accounted(s, w, Scheduled, s.claims, Sign(s, w).signed);
  }

  // Every step of every worker keeps the invariant.
  lemma InvStep(eligible: seq<bool>, s: State, w: nat)
    requires Inv(eligible, s) && Enabled(s, w)
    ensures Inv(eligible, Step(eligible, s, w))
  {
    hide CountEnded, EligibleBefore, Balanced, Find;
    if s.workers[w].Signing? {
      InvSign(eligible, s, w);
    } else if s.finished {
      InvEnd(eligible, s, w);
    } else {
      var k := Find(eligible, s.at);
      if k < |eligible| {
        InvTake(eligible, s, w, k);
      } else {
        NoneSkipped(eligible, s.at, k);
        InvEnd(eligible, s.(at := k, finished := true), w);
      }
    }
  }

  // ------------------------------------------------------------------ runs

  // A run: the workers in the order in which they take steps.
  ghost predicate IsRun(eligible: seq<bool>, s: State, run: seq<nat>)
    decreases |run|
  {
    run != [] ==> s.at <= |eligible| && Enabled(s, run[0]) && IsRun(eligible, Step(eligible, s, run[0]), run[1..])
  }

  ghost function Last(eligible: seq<bool>, s: State, run: seq<nat>): State
    requires IsRun(eligible, s, run)
    decreases |run|
  {
    if run == [] then s else Last(eligible, Step(eligible, s, run[0]), run[1..])
  }

  // What is left to do; every step does some of it.
  ghost function Work(ws: seq<Worker>): nat {
    if ws == [] then 0
    else Work(ws[1..]) + match ws[0] case Signing(_) => 2 case Scheduled => 1 case Ended => 0
  }

  lemma {:induction false} WorkUpdate(ws: seq<Worker>, w: nat, v: Worker)
    requires w < |ws|
    ensures Work(ws[w := v]) + Work([ws[w]]) == Work(ws) + Work([v])
  {
    assert [ws[w]][1..] == [] && [v][1..] == [];
    if w == 0 {
      assert ws[w := v][1..] == ws[1..];
    } else {
      assert ws[w := v][1..] == ws[1..][w - 1 := v];
      WorkUpdate(ws[1..], w - 1, v);
    }
  }

  ghost function Measure(eligible: seq<bool>, s: State): nat {
    (if s.at <= |eligible| then 2 * (|eligible| - s.at) else 0) + Work(s.workers)
  }

  lemma {:induction false} RunInv(eligible: seq<bool>, s: State, run: seq<nat>)
    requires Inv(eligible, s) && IsRun(eligible, s, run)
    ensures Inv(eligible, Last(eligible, s, run))
    ensures |run| + Measure(eligible, Last(eligible, s, run)) <= Measure(eligible, s)
    decreases |run|
  {
    hide Inv, Step, Measure;
    if run != [] {
      InvStep(eligible, s, run[0]);
      MeasureStep(eligible, s, run[0]);
      RunInv(eligible, Step(eligible, s, run[0]), run[1..]);
    }
  }

  // Every step leaves less to do.
  lemma MeasureStep(eligible: seq<bool>, s: State, w: nat)
    requires Inv(eligible, s) && Enabled(s, w)
    ensures Measure(eligible, Step(eligible, s, w)) < Measure(eligible, s)
  {
    hide CountEnded, EligibleBefore, Balanced;
    var s' := Step(eligible, s, w);
    WorkUpdate(s.workers, w, s'.workers[w]);
    assert [s.workers[w]][1..] == [] && [s'.workers[w]][1..] == [];
  }

  // In every run, with every interleaving: no node is claimed twice, only
  // eligible nodes are; no node is signed without or before its claim; shutdown
  // is requested at most once, and when it has been, no worker is signing or
  // scheduled, so the flag that stops workers is never seen by one.
  lemma Safety(eligible: seq<bool>, nloops: nat, run: seq<nat>)
    requires IsRun(eligible, Initially(|eligible|, nloops), run)
    ensures var s := Last(eligible, Initially(|eligible|, nloops), run);
            && Distinct(s.claims) && (forall i :: 0 <= i < |s.claims| ==> s.claims[i] < |eligible| && eligible[s.claims[i]])
            && (forall k: nat :: s.signed[k] <= 1) && s.signed <= multiset(s.claims)
            && s.shutdowns <= 1
            && (s.shutdowns == 1 ==> forall w :: 0 <= w < |s.workers| ==> s.workers[w].Ended?)
  {
    InvInitially(eligible, nloops);
    RunInv(eligible, Initially(|eligible|, nloops), run);
    var s := Last(eligible, Initially(|eligible|, nloops), run);
    EndedBound(s.workers);
    BeforeIs(eligible, s.at);
    forall k: nat
      ensures s.signed[k] <= multiset(s.claims)[k] <= 1
    {
      CountBefore(eligible, s.at, k);
    }
  }

  // A run that cannot be continued has signed every eligible node exactly once
  // and has requested shutdown exactly once.
  lemma Completion(eligible: seq<bool>, nloops: nat, run: seq<nat>)
    requires nloops > 0 && IsRun(eligible, Initially(|eligible|, nloops), run)
    requires forall w :: !Enabled(Last(eligible, Initially(|eligible|, nloops), run), w)
    ensures var s := Last(eligible, Initially(|eligible|, nloops), run);
            && s.shutdowns == 1 && s.finished && s.ended == nloops
            && forall k: nat :: s.signed[k] == if k < |eligible| && eligible[k] then 1 else 0
  {
    var s0 := Initially(|eligible|, nloops);
    InvInitially(eligible, nloops);
    RunInv(eligible, s0, run);
    SameWorkers(eligible, s0, run);
    var s := Last(eligible, s0, run);
    forall w | 0 <= w < |s.workers|
      ensures s.workers[w].Ended?
    {
      assert !Enabled(s, w);
    }
    EndedBound(s.workers);
    forall k: nat
      ensures s.signed[k] == if k < |eligible| && eligible[k] then 1 else 0
    {
      NothingInHand(s.workers, k);
      CountBefore(eligible, s.at, k);
    }
  }

  // Every run is short: there is no way to go on for ever.
  lemma Termination(eligible: seq<bool>, nloops: nat, run: seq<nat>)
    requires IsRun(eligible, Initially(|eligible|, nloops), run)
    ensures |run| <= 2 * |eligible| + nloops
  {
    InvInitially(eligible, nloops);
    RunInv(eligible, Initially(|eligible|, nloops), run);
    WorkAtFirst(nloops);
  }

  lemma {:induction false} WorkAtFirst(n: nat)
    ensures Work(seq(n, _ => Scheduled)) == n
  {
    if n > 0 {
      WorkAtFirst(n - 1);
      assert seq(n, _ => Scheduled)[1..] == seq(n - 1, _ => Scheduled);
    }
  }

  lemma {:induction false} SameWorkers(eligible: seq<bool>, s: State, run: seq<nat>)
    requires IsRun(eligible, s, run)
    ensures |Last(eligible, s, run).workers| == |s.workers|
    decreases |run|
  {
    if run != [] {
      SameWorkers(eligible, Step(eligible, s, run[0]), run[1..]);
    }
  }

  lemma {:induction false} NothingInHand(ws: seq<Worker>, k: nat)
    requires forall w :: 0 <= w < |ws| ==> ws[w].Ended?
    ensures InHand(ws, k) == 0
  {
    if ws != [] {
      NothingInHand(ws[1..], k);
    }
  }

  lemma {:induction false} BeforeIs(eligible: seq<bool>, at: nat)
    requires at <= |eligible|
    ensures var v := EligibleBefore(eligible, at);
            Distinct(v) && forall i :: 0 <= i < |v| ==> v[i] < at && eligible[v[i]]
  {
    if at > 0 {
      BeforeIs(eligible, at - 1);
    }
  }

  lemma CountNext(eligible: seq<bool>, at: nat, k: nat)
    requires 0 < at <= |eligible|
    ensures multiset(EligibleBefore(eligible, at))[k] ==
            multiset(EligibleBefore(eligible, at - 1))[k] + if eligible[at - 1] && k == at - 1 then 1 else 0
  {
    hide EligibleBefore;
    if eligible[at - 1] {
      EligibleNext(eligible, at - 1);
    } else {
      NoneSkipped(eligible, at - 1, at);
    }
  }

  lemma NoneBefore(eligible: seq<bool>)
    ensures EligibleBefore(eligible, 0) == []
  {
  }

  lemma {:induction false} CountBefore(eligible: seq<bool>, at: nat, k: nat)
    requires at <= |eligible|
    ensures multiset(EligibleBefore(eligible, at))[k] == if k < at && eligible[k] then 1 else 0
  {
    hide EligibleBefore;
    if at == 0 {
      NoneBefore(eligible);
    } else {
      CountBefore(eligible, at - 1, k);
      CountNext(eligible, at, k);
    }
  }
}
