// How a worker finds its next node: the part of assignwork in
// bin/dnssec/dnssec-signzone.c that runs under the name lock.
module Assign {
  import opened Base
  import opened Names
  import opened Zone
  import Nsec
  import Nsec3
  import Workers
  import opened HashList

  // The nodes in the iterator's order: those of the zone's tree in canonical
  // order, then, for an NSEC3 zone, the nodes of the NSEC3 tree.
  datatype Work = Work(origin: Name, nsec3: bool, optOut: bool, tree: seq<Node>, hashed: seq<Node>) {
    function All(): seq<Node> {
      tree + hashed
    }

    ghost predicate Valid() {
      && Sorted(tree)
      && (forall k :: 0 <= k < |tree| ==> nsec3 ==> !Has(tree[k], NSEC3))
      && (forall k :: 0 <= k < |hashed| ==> Has(hashed[k], NSEC3) && hashed[k].name != origin)
      && (!nsec3 ==> hashed == [])
    }
  }

  // The tree as the search for cuts sees it: the origin is never looked at, so
  // a DNAME there is no cut.
  ghost function SkipApex(origin: Name, tree: seq<Node>): (r: seq<Node>)
    ensures |r| == |tree| && Sorted(tree) == Sorted(r)
    ensures forall k :: 0 <= k < |tree| ==> r[k].name == tree[k].name && (tree[k].name != origin ==> r[k] == tree[k])
    ensures forall k :: 0 <= k < |tree| && tree[k].name == origin ==> !IsCut(origin, r[k])
  {
    var r := seq(|tree|, k requires 0 <= k < |tree| =>
                           if tree[k].name == origin then tree[k].(sets := tree[k].sets - {RRset(DNAME, 0)}) else tree[k]);
    assert NamesOf(r) == NamesOf(tree);
    r
  }

  // The nodes that workers sign.
  ghost predicate Eligible(w: Work, k: nat)
    requires k < |w.tree| + |w.hashed|
  {
    var n := w.All()[k];
    && n.name != w.origin
    && if !w.nsec3 then Has(n, NSEC)
       else
         || k >= |w.tree|
         || (&& IsSubdomain(n.name, w.origin) && !Occluded(w.origin, SkipApex(w.origin, w.tree), k)
             && !(w.optOut && IsDelegation(w.origin, n) && !Secure(w.origin, n)))
  }

  ghost function Eligibility(w: Work): (e: seq<bool>)
    ensures |e| == |w.tree| + |w.hashed| && forall k :: 0 <= k < |e| ==> e[k] == Eligible(w, k)
  {
    seq(|w.tree| + |w.hashed|, k requires 0 <= k < |w.tree| + |w.hashed| => Eligible(w, k))
  }

  // The remembered cut when the iterator is at node at.
  ghost predicate CutAt(w: Work, at: nat, cut: Option<Name>) {
    w.nsec3 && at <= |w.tree| ==>
      CutKnown(w.origin, SkipApex(w.origin, w.tree), at, cut) && Nsec3.Passed(w.tree, at, cut)
  }

  // What the search does with node k.
  function Look(w: Work, n: Node, cut: Option<Name>): (bool, Option<Name>) {
    if n.name == w.origin then (false, cut)
    else if Has(n, if w.nsec3 then NSEC3 else NSEC) then (true, cut)
    else if w.nsec3 && IsSubdomain(n.name, w.origin) && (cut.None? || !IsSubdomain(n.name, cut.value)) then
      if IsDelegation(w.origin, n) then (!w.optOut || Secure(w.origin, n), Some(n.name))
      else if Has(n, DNAME) then (true, Some(n.name))
      else (true, cut)
    else (false, cut)
  }

  lemma LookIs(w: Work, k: nat, cut: Option<Name>)
    requires w.Valid() && k < |w.tree| + |w.hashed| && CutAt(w, k, cut)
    ensures var (found, cut') := Look(w, w.All()[k], cut);
            found == Eligible(w, k) && CutAt(w, k + 1, cut')
  {
    if w.nsec3 && k < |w.tree| {
      var seen := SkipApex(w.origin, w.tree);
      CutDecides(w.origin, seen, k, cut);
      CutStep(w.origin, seen, k, cut);
      Nsec.NewCutPassed(w.origin, seen, k, cut);
    }
  }

  class Assigner {
    const work: Work
    const nloops: nat
    var at: nat
    var finished: bool
    var cut: Option<Name>
    var ended: nat
    var shutdowns: nat

    ghost predicate Valid()
      reads this
    {
      work.Valid() && at <= |work.tree| + |work.hashed| && CutAt(work, at, cut)
      && (finished <==> at == |work.tree| + |work.hashed|)
    }

    constructor (work: Work, nloops: nat)
      requires work.Valid()
      ensures Valid() && this.work == work && this.nloops == nloops && at == 0 && ended == 0 && shutdowns == 0
    {
      this.work, this.nloops := work, nloops;
      at, finished, cut, ended, shutdowns := 0, |work.tree| + |work.hashed| == 0, None, 0, 0;
    }

    // The state of the protocol shows the same iterator and counters.
    ghost predicate Shows(s: Workers.State)
      reads this
    {
      s.at == at && s.finished == finished && s.ended == ended && s.shutdowns == shutdowns && |s.workers| == nloops
    }

    // assignwork under the lock: worker w gets a node, or ends.
    method Claim(ghost s: Workers.State, ghost w: nat) returns (node: Option<nat>)
      requires Valid() && Shows(s) && w < nloops
      modifies this
      ensures Valid() && Shows(Workers.Claim(Eligibility(work), s, w))
      ensures Workers.Claim(Eligibility(work), s, w).workers[w] ==
              if node.Some? then Workers.Signing(node.value) else Workers.Ended
    {
      hide CutAt, Look, Eligible;
      if finished {
        EndWorker();
        return None;
      }
      node := FindNode();
      if node.None? {
        EndWorker();
      }
    }

    // The search for the next node to sign.
    method FindNode() returns (node: Option<nat>)
      requires Valid() && !finished
      modifies this`at, this`finished, this`cut
      ensures Valid()
      ensures var k := Workers.Find(Eligibility(work), old(at));
              if k < |work.tree| + |work.hashed| then node == Some(k) && at == k + 1 else node == None && at == k
    {
      hide CutAt, Look, Eligible;
      ghost var k := Workers.Find(Eligibility(work), at);
      node := None;
      while node.None?
        invariant Valid() && (node.None? ==> !finished && old(at) <= at && k == Workers.Find(Eligibility(work), at))
        invariant node.Some? ==> node.value == k && at == k + 1 <= |work.tree| + |work.hashed|
        decreases |work.tree| + |work.hashed| - at
      {
        var found := LookOne();
        if found {
          node := Some(at - 1);
        }
        if finished {
          break;
        }
      }
    }

    // Looks at the node at the iterator and moves on.
    method LookOne() returns (found: bool)
      requires Valid() && !finished
      modifies this`at, this`finished, this`cut
      ensures Valid() && at == old(at) + 1 && found == Eligible(work, old(at))
    {
      hide CutAt, Look, Eligible;
      var all := work.tree + work.hashed;
      LookIs(work, at, cut);
      var (f, c) := Look(work, all[at], cut);
      found, cut := f, c;
      at := at + 1;
      if at == |all| {
        finished := true;
      }
    }

    method EndWorker()
      modifies this`ended, this`shutdowns
      ensures ended == old(ended) + 1
      ensures shutdowns == if ended == nloops then old(shutdowns) + 1 else old(shutdowns)
    {
      ended := ended + 1;
      if ended == nloops {
        shutdowns := shutdowns + 1;
      }
    }
  }

  // ---------------------------------------- what is signed and what is proven

  // Every node with a set of the chain's type is eligible, the apex excepted,
  // whatever else there is at it; in an NSEC zone no other node is.
  lemma ChainEligible(w: Work, k: nat)
    requires w.Valid() && k < |w.tree| + |w.hashed|
    ensures var n := w.All()[k];
            && (n.name != w.origin && Has(n, if w.nsec3 then NSEC3 else NSEC) ==> Eligible(w, k))
            && (!w.nsec3 && Eligible(w, k) ==> Has(n, NSEC)) && (Eligible(w, k) ==> n.name != w.origin)
  {
    assert k < |w.tree| ==> w.All()[k] == w.tree[k];
    assert k >= |w.tree| ==> w.All()[k] == w.hashed[k - |w.tree|];
  }

  // A run of the workers that cannot be continued.
  ghost predicate Complete(w: Work, nloops: nat, run: seq<nat>) {
    var s0 := Workers.Initially(|w.tree| + |w.hashed|, nloops);
    nloops > 0 && Workers.IsRun(Eligibility(w), s0, run) && forall i :: !Workers.Enabled(Workers.Last(Eligibility(w), s0, run), i)
  }

  // How often the run has signed node k.
  ghost function TimesSigned(w: Work, nloops: nat, run: seq<nat>, k: nat): nat
    requires Complete(w, nloops, run)
  {
    Workers.Last(Eligibility(w), Workers.Initially(|w.tree| + |w.hashed|, nloops), run).signed[k]
  }

  // When the workers are done, each node with an NSEC3 set, or NSEC set in an
  // NSEC zone, is signed exactly once, and no node more often.
  lemma ChainSigned(w: Work, nloops: nat, run: seq<nat>, k: nat)
    requires w.Valid() && Complete(w, nloops, run) && k < |w.tree| + |w.hashed|
    ensures var n := w.All()[k];
            && TimesSigned(w, nloops, run, k) <= 1
            && (n.name != w.origin && Has(n, if w.nsec3 then NSEC3 else NSEC) ==> TimesSigned(w, nloops, run, k) == 1)
  {
    hide Eligible;
    Workers.Completion(Eligibility(w), nloops, run);
    ChainEligible(w, k);
  }

  // The NSEC3 tree holds the records made: one node for each of the hashes, under
  // the name that owner makes of it.
  ghost predicate Holds(w: Work, r: Nsec3.Records, hashes: seq<seq<byte>>, owner: seq<byte> -> Name) {
    && |hashes| == |w.hashed| && (forall i :: 0 <= i < |hashes| ==> w.hashed[i].name == owner(hashes[i]))
    && forall hash :: hash in hashes <==> hash in r
  }

  // The node of a record is signed exactly once.
  ghost predicate SignedOnce(w: Work, nloops: nat, run: seq<nat>, name: Name)
    requires Complete(w, nloops, run)
  {
    exists k :: |w.tree| <= k < |w.tree| + |w.hashed| && w.All()[k].name == name && TimesSigned(w, nloops, run, k) == 1
  }

  lemma RecordSigned(w: Work, r: Nsec3.Records, hashes: seq<seq<byte>>, owner: seq<byte> -> Name, nloops: nat, run: seq<nat>, hash: seq<byte>)
    requires w.nsec3 && w.Valid() && Complete(w, nloops, run) && Holds(w, r, hashes, owner) && hash in r
    ensures SignedOnce(w, nloops, run, owner(hash))
  {
    hide Complete, TimesSigned;
    assert hash in hashes;
    var m :| 0 <= m < |hashes| && hashes[m] == hash;
    assert w.All()[|w.tree| + m] == w.hashed[m];
    ChainSigned(w, nloops, run, |w.tree| + m);
  }

  // From the chain to the signatures: the record of every name of the chain is
  // signed exactly once, and every node of the NSEC3 tree is such a record.
  lemma RecordsSigned(w: Work, p: Nsec3.Policy, nodes: seq<Node>, apex: nat, h: Name -> seq<byte>, entries: seq<Entry>,
                      r: Nsec3.Records, hashes: seq<seq<byte>>, owner: seq<byte> -> Name, nloops: nat, run: seq<nat>)
    requires w.nsec3 && w.Valid() && Complete(w, nloops, run) && Holds(w, r, hashes, owner)
    requires Nsec3.ChainMade(p, nodes, apex, h, w.tree, entries, r)
    ensures forall name :: name in Nsec3.ChainOf(p, nodes, apex) ==> SignedOnce(w, nloops, run, owner(h(name)))
    ensures forall i :: 0 <= i < |w.hashed| ==> NamedFor(w.hashed[i], h, owner, Nsec3.ChainOf(p, nodes, apex))
  {
    hide *;
    var chain := Nsec3.ChainOf(p, nodes, apex);
    MadeRecords(p, nodes, apex, h, w.tree, entries, r);
    forall name | name in chain
      ensures SignedOnce(w, nloops, run, owner(h(name)))
    {
      RecordSigned(w, r, hashes, owner, nloops, run, h(name));
    }
    HashedFor(w, r, h, entries, hashes, owner, chain);
  }

  ghost predicate NamedFor(n: Node, h: Name -> seq<byte>, owner: seq<byte> -> Name, chain: seq<Name>) {
    exists i :: 0 <= i < |chain| && n.name == owner(h(chain[i]))
  }

  lemma HashedFor(w: Work, r: Nsec3.Records, h: Name -> seq<byte>, entries: seq<Entry>,
                  hashes: seq<seq<byte>>, owner: seq<byte> -> Name, chain: seq<Name>)
    requires Holds(w, r, hashes, owner) && Nsec3.RecordsFor(r, h, entries, chain)
    ensures forall i :: 0 <= i < |w.hashed| ==> NamedFor(w.hashed[i], h, owner, chain)
  {
    hide Nsec3.Linked;
    forall i | 0 <= i < |w.hashed|
      ensures NamedFor(w.hashed[i], h, owner, chain)
    {
      assert hashes[i] in hashes;
    }
  }

  lemma MadeRecords(p: Nsec3.Policy, nodes: seq<Node>, apex: nat, h: Name -> seq<byte>, z: seq<Node>, entries: seq<Entry>, r: Nsec3.Records)
    requires Nsec3.ChainMade(p, nodes, apex, h, z, entries, r)
    ensures Nsec3.RecordsFor(r, h, entries, Nsec3.ChainOf(p, nodes, apex))
  {
  }

  // In an NSEC zone the nodes that workers sign are those that nsecify gave NSEC
  // records, which are the visible ones, and those before the apex, out of zone,
  // that brought NSEC records along: nsecify leaves these alone.
  lemma NsecSigned(w: Work, nodes: seq<Node>, apex: nat, k: nat)
    requires !w.nsec3 && w.Valid() && |nodes| == |w.tree| && k < |nodes| && k != apex
    requires Chain(w, nodes, apex)
    ensures Eligible(w, k) <==> Visible(w.origin, nodes, k) || (k < apex && Has(nodes[k], NSEC))
  {
    NamesDiffer(nodes, apex, k);
    assert Alike(nodes[k], w.tree[k]);
    assert w.All()[k] == w.tree[k];
    if k < apex {
      Nsec.BeforeApex(w.origin, nodes, apex, k);
    }
  }

  // What nsecify leaves of the zone nodes.
  ghost predicate Chain(w: Work, nodes: seq<Node>, apex: nat) {
    && |nodes| == |w.tree| && apex < |nodes| && Sorted(nodes) && nodes[apex].name == w.origin
    && Nsec.Edited(nodes, w.tree) && Nsec.Chained(w.origin, nodes, w.tree, apex, |nodes|)
    && forall k :: 0 <= k < apex ==> w.tree[k] == nodes[k]
  }

  // Signed and visible agree on all nodes but the apex if and only if no node
  // before the apex has an NSEC record.
  lemma NsecSignedExactly(w: Work, nodes: seq<Node>, apex: nat)
    requires !w.nsec3 && w.Valid() && Chain(w, nodes, apex)
    ensures (forall k :: 0 <= k < |nodes| && k != apex ==> (Eligible(w, k) <==> Visible(w.origin, nodes, k))) <==>
            forall k :: 0 <= k < apex ==> !Has(nodes[k], NSEC)
  {
    forall k | 0 <= k < |nodes| && k != apex
      ensures Eligible(w, k) <==> Visible(w.origin, nodes, k) || (k < apex && Has(nodes[k], NSEC))
      ensures k < apex ==> !Visible(w.origin, nodes, k)
    {
      NsecSigned(w, nodes, apex, k);
      if k < apex {
        Nsec.BeforeApex(w.origin, nodes, apex, k);
      }
    }
  }

  // A name a, out of zone, with A and NSEC sets, before the apex b.
  const OUTSIDE := Node([Label([97])], {RRset(1, 0), RRset(NSEC, 0)}, [])
  const TOP := Node([Label([98])], {RRset(SOA, 0)}, [])

  // After nsecify the name out of zone is signed.
  lemma OutsideSigned()
    ensures var nodes := [OUTSIDE, TOP];
            var w := Work(TOP.name, false, false, [OUTSIDE, TOP.(sets := {RRset(SOA, 0), RRset(NSEC, 0)}, next := TOP.name)], []);
            w.Valid() && Chain(w, nodes, 1) && Eligible(w, 0) && !Visible(w.origin, nodes, 0)
  {
    var nodes := [OUTSIDE, TOP];
    var w := Work(TOP.name, false, false, [OUTSIDE, TOP.(sets := {RRset(SOA, 0), RRset(NSEC, 0)}, next := TOP.name)], []);
    assert NamesOf(nodes) == [OUTSIDE.name, TOP.name] == NamesOf(w.tree);
    assert Less(OUTSIDE.name, TOP.name) && !Less(TOP.name, OUTSIDE.name);
    assert Data(RRset(SOA, 0)) && RRset(SOA, 0) in TOP.sets && RRset(SOA, 0) in w.tree[1].sets;
    assert Data(RRset(1, 0)) && RRset(1, 0) in OUTSIDE.sets;
    Nsec.ApexVisible(w.origin, nodes, 1);
    assert Nsec.Points(w.origin, nodes, 1, w.origin);
    Nsec.BeforeApex(w.origin, nodes, 1, 0);
    assert w.All()[0] == OUTSIDE;
  }

  // In an NSEC3 zone whose apex has no DNAME, the active nodes that workers sign,
  // besides the apex, are those that nsec3ify covers.
  lemma Nsec3Signed(w: Work, p: Nsec3.Policy, nodes: seq<Node>, apex: nat, k: nat)
    requires w.nsec3 && w.Valid() && p.origin == w.origin && p.optOut == w.optOut
    requires Nsec3.Apex(p, nodes, apex) && Nsec3.Ready(false, p, nodes, w.tree, 0, None)
    requires k < |nodes| && k != apex && Active(nodes[k].sets) && !Has(nodes[apex], DNAME)
    ensures Eligible(w, k) <==> Nsec3.Covered(p, nodes, k)
  {
    NamesDiffer(nodes, apex, k);
    SameOcclusion(w, p, nodes, apex, k);
    assert Nsec3.Settled(p, nodes, w.tree, k);
    assert Alike(nodes[k], w.tree[k]);
    assert w.All()[k] == w.tree[k];
    hide Occluded;
  }

  lemma SameOcclusion(w: Work, p: Nsec3.Policy, nodes: seq<Node>, apex: nat, k: nat)
    requires w.Valid() && p.origin == w.origin && k < |nodes|
    requires Nsec3.Apex(p, nodes, apex) && Nsec3.Ready(false, p, nodes, w.tree, 0, None)
    requires !Has(nodes[apex], DNAME)
    ensures Occluded(w.origin, SkipApex(w.origin, w.tree), k) <==> Occluded(w.origin, nodes, k)
  {
    var seen := SkipApex(w.origin, w.tree);
    forall j | 0 <= j < |nodes|
      ensures Hides(w.origin, seen, j, k) <==> Hides(w.origin, nodes, j, k)
    {
      assert Alike(nodes[j], w.tree[j]) && Alike(nodes[k], w.tree[k]);
      if j != apex {
        NamesDiffer(nodes, j, apex);
      }
    }
  }

  // An active name of the zone.
  ghost predicate Other(w: Work, nodes: seq<Node>, k: nat)
    requires k < |nodes|
  {
    IsSubdomain(nodes[k].name, w.origin) && Active(nodes[k].sets)
  }

  // Under opt-out neither walk nor workers care for an insecure delegation.
  ghost predicate Insecure(w: Work, k: nat)
    requires k < |w.tree|
  {
    w.optOut && IsDelegation(w.origin, w.tree[k]) && !Secure(w.origin, w.tree[k])
  }

  // Node k is an insecure delegation or below one.
  ghost predicate OptedOut(w: Work, nodes: seq<Node>, k: nat)
    requires |nodes| == |w.tree| && k < |nodes|
  {
    exists j :: 0 <= j < |nodes| && IsSubdomain(nodes[j].name, w.origin) && Insecure(w, j) && IsSubdomain(nodes[k].name, nodes[j].name)
  }

  // With a DNAME at the apex nothing else is covered.
  lemma NothingCovered(w: Work, p: Nsec3.Policy, nodes: seq<Node>, apex: nat, k: nat)
    requires p.origin == w.origin && Nsec3.Apex(p, nodes, apex) && Has(nodes[apex], DNAME)
    requires k < |nodes| && k != apex
    ensures !Nsec3.Covered(p, nodes, k)
  {
    NamesDiffer(nodes, apex, k);
    if IsSubdomain(nodes[k].name, w.origin) {
      assert Hides(w.origin, nodes, apex, k);
    }
  }

  // A name that is opted out is not signed.
  lemma OptedOutUnsigned(w: Work, p: Nsec3.Policy, nodes: seq<Node>, apex: nat, k: nat)
    requires w.nsec3 && w.Valid() && p.origin == w.origin
    requires Nsec3.Apex(p, nodes, apex) && Nsec3.Ready(false, p, nodes, w.tree, 0, None)
    requires k < |nodes| && OptedOut(w, nodes, k)
    ensures !Eligible(w, k)
  {
    var j :| 0 <= j < |nodes| && IsSubdomain(nodes[j].name, w.origin) && Insecure(w, j) && IsSubdomain(nodes[k].name, nodes[j].name);
    assert w.All()[k] == w.tree[k];
    assert Alike(nodes[j], w.tree[j]) && Alike(nodes[k], w.tree[k]);
    if j != k {
      NamesDiffer(nodes, j, k);
      assert Hides(w.origin, SkipApex(w.origin, w.tree), j, k);
    }
  }

  // Another active name of the zone is signed, or the topmost cut that hides it
  // is, unless the name is opted out.
  lemma SignedAbove(w: Work, p: Nsec3.Policy, nodes: seq<Node>, apex: nat, k: nat) returns (top: nat)
    requires w.nsec3 && w.Valid() && p.origin == w.origin
    requires Nsec3.Apex(p, nodes, apex) && Nsec3.Ready(false, p, nodes, w.tree, 0, None)
    requires k < |nodes| && k != apex && Other(w, nodes, k) && !OptedOut(w, nodes, k)
    ensures top < |nodes| && top != apex && Active(nodes[top].sets) && Eligible(w, top)
  {
    var seen := SkipApex(w.origin, w.tree);
    top := Topmost(w.origin, seen, k);
    assert w.All()[top] == w.tree[top];
    assert Alike(nodes[top], w.tree[top]) && Alike(nodes[k], w.tree[k]);
    if top != k {
      assert Data(RRset(NS, 0)) && Data(RRset(DNAME, 0));
      NamesDiffer(nodes, top, k);
    }
    if top != apex {
      NamesDiffer(nodes, top, apex);
    }
    hide Occluded;
    assert !Insecure(w, top);
  }

  // The node itself, or the first of the cuts that hide it: nothing hides that.
  lemma Topmost(origin: Name, nodes: seq<Node>, k: nat) returns (top: nat)
    requires Sorted(nodes) && k < |nodes| && IsSubdomain(nodes[k].name, origin)
    ensures top < |nodes| && !Occluded(origin, nodes, top) && IsSubdomain(nodes[top].name, origin)
    ensures top == k || Hides(origin, nodes, top, k)
  {
    if !Occluded(origin, nodes, k) {
      return k;
    }
    var j :| 0 <= j < |nodes| && Hides(origin, nodes, j, k);
    top := 0;
    while !Hides(origin, nodes, top, k)
      invariant 0 <= top <= j && forall i :: 0 <= i < top ==> !Hides(origin, nodes, i, k)
      decreases j - top
    {
      top := top + 1;
    }
    forall i | 0 <= i < |nodes|
      ensures !Hides(origin, nodes, i, top)
    {
      if Hides(origin, nodes, i, top) {
        HiddenIsLater(origin, nodes, i, top);
        assert Hides(origin, nodes, i, k);
      }
    }
  }

  // Signed and covered agree on all active names but the apex if and only if the
  // apex has no DNAME or every other active name of the zone is opted out.
  lemma SignedIsCovered(w: Work, p: Nsec3.Policy, nodes: seq<Node>, apex: nat)
    requires w.nsec3 && w.Valid() && p.origin == w.origin && p.optOut == w.optOut
    requires Nsec3.Apex(p, nodes, apex) && Nsec3.Ready(false, p, nodes, w.tree, 0, None)
    ensures (forall k :: 0 <= k < |nodes| && k != apex && Active(nodes[k].sets) ==>
               (Eligible(w, k) <==> Nsec3.Covered(p, nodes, k))) <==>
            (!Has(nodes[apex], DNAME) || forall k :: 0 <= k < |nodes| && k != apex && Other(w, nodes, k) ==> OptedOut(w, nodes, k))
  {
    if !Has(nodes[apex], DNAME) {
      forall k | 0 <= k < |nodes| && k != apex && Active(nodes[k].sets)
        ensures Eligible(w, k) <==> Nsec3.Covered(p, nodes, k)
      {
        Nsec3Signed(w, p, nodes, apex, k);
      }
    } else if k :| 0 <= k < |nodes| && k != apex && Other(w, nodes, k) && !OptedOut(w, nodes, k) {
      var top := SignedAbove(w, p, nodes, apex, k);
      NothingCovered(w, p, nodes, apex, top);
    } else {
      forall k | 0 <= k < |nodes| && k != apex && Active(nodes[k].sets)
        ensures !Eligible(w, k) && !Nsec3.Covered(p, nodes, k)
      {
        NothingCovered(w, p, nodes, apex, k);
        assert Alike(nodes[k], w.tree[k]) && w.All()[k] == w.tree[k];
        if Other(w, nodes, k) {
          OptedOutUnsigned(w, p, nodes, apex, k);
        }
      }
    }
  }

  // The zone with SOA and DNAME sets at its apex and an A set at one name below.
  const APEX := Node([], {RRset(SOA, 0), RRset(DNAME, 0)}, [])
  const BELOW := Node([Label([97])], {RRset(1, 0)}, [])

  // In it the name below is signed, but not covered, with or without opt-out.
  lemma ApexDname(optOut: bool)
    ensures var nodes := [APEX, BELOW];
            var w := Work([], true, optOut, nodes, []);
            var p := Nsec3.Policy([], optOut, false, {});
            && w.Valid() && Nsec3.Apex(p, nodes, 0) && Nsec3.Ready(false, p, nodes, nodes, 0, None)
            && Eligible(w, 1) && !Nsec3.Covered(p, nodes, 1)
  {
    var nodes := [APEX, BELOW];
    var w := Work([], true, optOut, nodes, []);
    var p := Nsec3.Policy([], optOut, false, {});
    assert Data(RRset(SOA, 0)) && RRset(SOA, 0) in APEX.sets;
    assert NamesOf(nodes) == [[], [Label([97])]];
    assert w.Valid();
    NothingCovered(w, p, nodes, 0, 1);
    assert w.All()[1] == BELOW;
  }
}
