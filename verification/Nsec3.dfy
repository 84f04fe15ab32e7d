// The NSEC3 chain of a zone (nsec3ify in bin/dnssec/dnssec-signzone.c). One walk
// over the zone collects the hashes; a second walk makes the records.
module Nsec3 {
  import opened Base
  import opened Names
  import opened Zone
  import opened ZoneDb
  import Nsec
  import opened Empties
  import opened HashList

  // ------------------------------------------------------ covered names

  // What decides which delegations are left out of an opt-out chain.
  datatype Policy = Policy(origin: Name, optOut: bool, generateDs: bool, dsFile: set<Name>)

  ghost function PolicyOf(db: Db): (p: Policy)
    ensures p.origin == db.origin
  {
    Policy(db.origin, db.optOut, db.generateDs, db.dsFile)
  }

  // Whether a delegation has DS records once the zone's own are replaced.
  predicate WillBeSecure(p: Policy, n: Node) {
    n.name != p.origin && if p.generateDs then n.name in p.dsFile else Has(n, DS)
  }

  // The names that own NSEC3 records: the visible ones, less, with opt-out, the
  // insecure delegations.
  ghost predicate Covered(p: Policy, nodes: seq<Node>, k: nat)
    requires k < |nodes|
  {
    && Visible(p.origin, nodes, k)
    && !(p.optOut && IsDelegation(p.origin, nodes[k]) && !WillBeSecure(p, nodes[k]))
  }

  // What a name of the zone is left with: all of its data, but no NSEC, and at a
  // delegation the DS set that it is to have. Signatures stay where the data
  // stays, but at a delegation only those of its DS set. The NSEC3PARAM set of
  // the apex is not spoken of.
  ghost predicate Named(p: Policy, n: Node, after: set<RRset>) {
    var cut := IsDelegation(p.origin, n);
    && (RRset(DS, 0) in after <==> if cut then WillBeSecure(p, n) else Has(n, DS))
    && (forall s: RRset :: s.rtype != RRSIG && s != RRset(DS, 0) && !(n.name == p.origin && s.rtype == NSEC3PARAM) ==>
          (s in after <==> s in n.sets && s.rtype != NSEC))
    && (forall c :: !(n.name == p.origin && c == NSEC3PARAM) ==>
          (RRset(RRSIG, c) in after <==>
            Nsec.Covering(n.sets, c) && c != NSEC && (cut ==> c == DS && WillBeSecure(p, n))))
  }

  // What any other node from the apex on is left with.
  ghost predicate Unnamed(n: Node, after: set<RRset>) {
    forall s :: s in after <==>
      && s in n.sets && s.rtype != NSEC
      && (s.rtype == RRSIG ==> !Active(n.sets) && s.covers != NSEC && Nsec.Covering(n.sets, s.covers))
  }

  // The walks look at names of the zone and at names that come after them.
  predicate Reached(p: Policy, n: Node) {
    IsSubdomain(n.name, p.origin) || Less(p.origin, n.name)
  }

  // Node k of z is as the first walk leaves it.
  ghost predicate Settled(p: Policy, nodes: seq<Node>, z: seq<Node>, k: nat)
    requires k < |nodes| == |z|
  {
    if Visible(p.origin, nodes, k) then Named(p, nodes[k], z[k].sets)
    else if Reached(p, nodes[k]) then Unnamed(nodes[k], z[k].sets)
    else z[k].sets == nodes[k].sets
  }

  ghost predicate SameSets(nodes: seq<Node>, z: seq<Node>, k: nat)
    requires k < |nodes| == |z|
  {
    z[k].sets == nodes[k].sets
  }

  // What the first walk makes of a node.
  ghost function Considered(p: Policy, n: Node, visible: bool): set<RRset> {
    var c := Cleaned(true, n.sets);
    if !Active(n.sets) then c
    else if !visible then WithoutSigs(true, false, c)
    else if !IsDelegation(p.origin, n) then c
    else if p.generateDs then WithDs(n.name in p.dsFile, WithoutSigs(true, true, c))
    else WithoutSigs(true, true, c)
  }

  lemma ConsideredUnnamed(p: Policy, n: Node)
    requires ProperSets(n.sets)
    ensures Unnamed(n, Considered(p, n, false))
  {
  }

  lemma ConsideredNamed(p: Policy, n: Node)
    requires ProperSets(n.sets) && Active(n.sets)
    ensures Named(p, n, Considered(p, n, true))
  {
  }

  lemma SettledFirst(p: Policy, nodes: seq<Node>, z: seq<Node>, k: nat)
    requires k < |nodes| == |z| && ProperSets(nodes[k].sets) && Reached(p, nodes[k])
    requires z[k].sets == Considered(p, nodes[k], Visible(p.origin, nodes, k))
    ensures Settled(p, nodes, z, k)
  {
    hide Named, Unnamed, Considered;
    if Visible(p.origin, nodes, k) {
      ConsideredNamed(p, nodes[k]);
    } else {
      ConsideredUnnamed(p, nodes[k]);
    }
  }

  lemma SettledApex(p: Policy, nodes: seq<Node>, z: seq<Node>, k: nat)
    requires k < |nodes| == |z| && ProperSets(nodes[k].sets) && nodes[k].name == p.origin && Visible(p.origin, nodes, k)
    requires z[k].sets == Cleaned(true, WithoutType(NSEC, nodes[k].sets))
    ensures Settled(p, nodes, z, k)
  {
    hide Visible;
    var sets := WithoutType(NSEC, nodes[k].sets);
    forall c | c != NSEC
      ensures Nsec.Covering(nodes[k].sets, c) <==> Nsec.Covering(sets, c)
    {
      if t :| t in nodes[k].sets && t.rtype == c && RRset(RRSIG, c) in nodes[k].sets {
        assert t.rtype != RRSIG ==> t in sets;
        assert RRset(RRSIG, c) in sets;
      }
    }
  }

  // The second walk finds nothing to clean.
  lemma CleanedNamed(p: Policy, n: Node, after: set<RRset>)
    requires ProperSets(n.sets) && ProperSets(after) && Named(p, n, after)
    ensures Named(p, n, Cleaned(true, after))
  {
    forall c | Nsec.Covering(n.sets, c) && RRset(RRSIG, c) in after && !(n.name == p.origin && c == NSEC3PARAM)
      ensures exists t :: t in after && t.rtype == c
    {
      if c == RRSIG {
        assert RRset(RRSIG, c).rtype == c;
      } else if c == DS {
        assert RRset(DS, 0) in n.sets;
        assert RRset(DS, 0).rtype == c;
      } else {
        var t :| t in n.sets && t.rtype == c;
        assert t in after;
      }
    }
  }

  lemma CleanedUnnamed(n: Node, after: set<RRset>)
    requires ProperSets(n.sets) && Unnamed(n, after)
    ensures Unnamed(n, Cleaned(true, after))
  {
    forall s | s in after && s.rtype == RRSIG
      ensures exists t :: t in after && t.rtype == s.covers
    {
      if s.covers != RRSIG {
        var t :| t in n.sets && t.rtype == s.covers;
        assert t in after;
      }
    }
  }

  lemma SettledAgain(p: Policy, nodes: seq<Node>, z: seq<Node>, z': seq<Node>, k: nat)
    requires k < |nodes| == |z| == |z'| && ProperSets(nodes[k].sets) && ProperSets(z[k].sets) && Reached(p, nodes[k])
    requires Settled(p, nodes, z, k) && z'[k].sets == Cleaned(true, z[k].sets)
    ensures Settled(p, nodes, z', k)
  {
    hide Named, Unnamed, Cleaned, Visible;
    if Visible(p.origin, nodes, k) {
      CleanedNamed(p, nodes[k], z[k].sets);
    } else {
      CleanedUnnamed(nodes[k], z[k].sets);
    }
  }

  // Edits that do not change data: they keep the walk's view and the DS records.
  lemma EditSets(nodes: seq<Node>, z: seq<Node>, i: nat, sets: set<RRset>)
    requires Nsec.Edited(nodes, z) && i < |z| && SameData(z[i].sets, sets) && ProperSets(sets)
    ensures Nsec.Edited(nodes, z[i := z[i].(sets := sets)])
    ensures Has(z[i].(sets := sets), DS) <==> Has(z[i], DS)
    ensures Alike(nodes[i], z[i].(sets := sets))
  {
  }

  // ------------------------------------------------- one node of a walk

  // Looks at node it: take says whether it is the next name of the chain. The
  // first walk also removes stale signatures and replaces DS records.
  method Consider(db: Db, it: nat, cut: Option<Name>, first: bool, ghost nodes: seq<Node>)
    returns (take: bool, cut': Option<Name>)
    requires db.nsec3 && Sorted(nodes) && Nsec.Edited(nodes, db.nodes) && it < |nodes|
    requires CutKnown(db.origin, nodes, it, cut) && (cut.Some? ==> nodes[it].name != cut.value)
    requires ProperSets(nodes[it].sets) && Reached(PolicyOf(db), nodes[it])
    requires if first then SameSets(nodes, db.nodes, it) else Settled(PolicyOf(db), nodes, db.nodes, it)
    modifies db`nodes
    ensures Nsec.Edited(nodes, db.nodes)
    ensures forall k :: 0 <= k < |nodes| && k != it ==> db.nodes[k] == old(db.nodes)[k]
    ensures Settled(PolicyOf(db), nodes, db.nodes, it)
    ensures take <==> Covered(PolicyOf(db), nodes, it)
    ensures cut' == NextCut(db.origin, nodes[it], cut)
  {
    hide CutKnown, Occluded, Named, Unnamed, Cleaned, WithoutSigs, WithDs;
    CutDecides(db.origin, nodes, it, cut);
    take, cut' := false, cut;
    assert Alike(nodes[it], db.nodes[it]);
    CleanedSameData(true, db.nodes[it].sets);
    EditSets(nodes, db.nodes, it, Cleaned(true, db.nodes[it].sets));
    ghost var p := PolicyOf(db);
    var active := db.ActiveNode(it);
    if !first {
      SettledAgain(p, nodes, old(db.nodes), db.nodes, it);
    }
    if !active {
      if first {
        SettledFirst(p, nodes, db.nodes, it);
      }
      return;
    }
    if !IsSubdomain(db.nodes[it].name, db.origin) || (cut.Some? && IsSubdomain(db.nodes[it].name, cut.value)) {
      if first {
        SigsSameData(false, db.nodes[it].sets);
        EditSets(nodes, db.nodes, it, WithoutSigs(true, false, db.nodes[it].sets));
        db.RemoveSigs(it, false);
        SettledFirst(p, nodes, db.nodes, it);
      }
      return;
    }
    take := true;
    if IsDelegation(db.origin, db.nodes[it]) {
      cut' := Some(db.nodes[it].name);
      if first {
        SigsSameData(true, db.nodes[it].sets);
        EditSets(nodes, db.nodes, it, WithoutSigs(true, true, db.nodes[it].sets));
        db.RemoveSigs(it, true);
        if db.generateDs {
          Nsec.EditDs(nodes, db.nodes, it, db.nodes[it].name in db.dsFile);
          db.AddDs(it);
        }
      }
      if db.optOut && !Secure(db.origin, db.nodes[it]) {
        take := false;
      }
    } else if Has(db.nodes[it], DNAME) {
      cut' := Some(db.nodes[it].name);
    }
    if first {
      SettledFirst(p, nodes, db.nodes, it);
    }
    SettledDs(p, nodes, db.nodes, it);
  }

  lemma SigsSameData(delegation: bool, sets: set<RRset>)
    requires ProperSets(sets)
    ensures SameData(sets, WithoutSigs(true, delegation, sets)) && ProperSets(WithoutSigs(true, delegation, sets))
  {
  }

  lemma SettledDs(p: Policy, nodes: seq<Node>, z: seq<Node>, k: nat)
    requires k < |nodes| == |z| && Settled(p, nodes, z, k) && Visible(p.origin, nodes, k)
    ensures IsDelegation(p.origin, nodes[k]) ==> (Has(z[k], DS) <==> WillBeSecure(p, nodes[k]))
  {
  }

  // ------------------------------------------------------- to the next name

  // What z shows of DS records when a walk is at node at: the first walk has
  // settled the nodes before it, and the second finds all of them settled.
  ghost predicate DsView(first: bool, p: Policy, nodes: seq<Node>, z: seq<Node>, at: nat)
    requires |nodes| == |z|
  {
    forall k :: 0 <= k < |nodes| ==> if first && k >= at then SameSets(nodes, z, k) else Settled(p, nodes, z, k)
  }

  // The remembered cut is none of the nodes from i on.
  ghost predicate Passed(nodes: seq<Node>, i: nat, cut: Option<Name>) {
    cut.Some? ==> forall k :: i <= k < |nodes| ==> nodes[k].name != cut.value
  }

  // The state of a walk that is about to look at node at.
  ghost predicate Ready(first: bool, p: Policy, nodes: seq<Node>, z: seq<Node>, at: nat, cut: Option<Name>) {
    && Sorted(nodes) && ProperNodes(nodes) && Nsec.Edited(nodes, z)
    && CutKnown(p.origin, nodes, at, cut) && Passed(nodes, at, cut) && DsView(first, p, nodes, z, at)
  }

  lemma ReadyNext(first: bool, p: Policy, nodes: seq<Node>, z: seq<Node>, z': seq<Node>, at: nat, cut: Option<Name>)
    requires Ready(first, p, nodes, z, at, cut) && at < |nodes| && Nsec.Edited(nodes, z')
    requires forall k :: 0 <= k < |nodes| && k != at ==> z'[k] == z[k]
    requires Settled(p, nodes, z', at)
    ensures Ready(first, p, nodes, z', at + 1, NextCut(p.origin, nodes[at], cut))
  {
    hide Named, Unnamed, Visible;
    CutStep(p.origin, nodes, at, cut);
    Nsec.NewCutPassed(p.origin, nodes, at, cut);
    forall k | 0 <= k < |nodes|
      ensures if first && k >= at + 1 then SameSets(nodes, z', k) else Settled(p, nodes, z', k)
    {
      if k != at {
        assert SameSets(nodes, z, k) == SameSets(nodes, z', k) && Settled(p, nodes, z, k) == Settled(p, nodes, z', k);
      }
    }
  }

  lemma ReadyAt(first: bool, p: Policy, nodes: seq<Node>, z: seq<Node>, at: nat, cut: Option<Name>)
    requires Ready(first, p, nodes, z, at, cut) && at <= |nodes|
    ensures |z| == |nodes| && Sorted(nodes) && Nsec.Edited(nodes, z) && CutKnown(p.origin, nodes, at, cut)
    ensures at < |nodes| ==> (cut.Some? ==> nodes[at].name != cut.value) && ProperSets(nodes[at].sets)
    ensures at < |nodes| ==> if first then SameSets(nodes, z, at) else Settled(p, nodes, z, at)
  {
    hide Settled, SameSets, Sorted;
  }

  // A covered name with a DNAME becomes the cut.
  lemma CoveredCut(p: Policy, nodes: seq<Node>, k: nat, cut: Option<Name>)
    requires Sorted(nodes) && k < |nodes| && CutKnown(p.origin, nodes, k, cut) && (cut.Some? ==> nodes[k].name != cut.value)
    requires Covered(p, nodes, k) && Has(nodes[k], DNAME)
    ensures NextCut(p.origin, nodes[k], cut) == Some(nodes[k].name)
  {
    CutDecides(p.origin, nodes, k, cut);
  }

  // The walk's inner loop: finds the next covered node from start on.
  method FindNext(db: Db, start: nat, cut: Option<Name>, first: bool, ghost nodes: seq<Node>)
    returns (it: nat, cut': Option<Name>)
    requires db.nsec3 && start <= |nodes| && Ready(first, PolicyOf(db), nodes, db.nodes, start, cut)
    requires forall k :: start <= k < |nodes| ==> Reached(PolicyOf(db), nodes[k])
    modifies db`nodes
    ensures start <= it <= |nodes| == |db.nodes|
    ensures forall k :: 0 <= k < start ==> db.nodes[k] == old(db.nodes)[k]
    ensures forall k :: start <= k < it ==> !Covered(PolicyOf(db), nodes, k)
    ensures it < |nodes| ==> Covered(PolicyOf(db), nodes, it) && (Has(nodes[it], DNAME) ==> cut' == Some(nodes[it].name))
    ensures Ready(first, PolicyOf(db), nodes, db.nodes, if it < |nodes| then it + 1 else it, cut')
  {
    hide Ready, Covered, Settled, SameSets, CutKnown, Nsec.Edited, Sorted, Reached, ProperNodes;
    ReadyAt(first, PolicyOf(db), nodes, db.nodes, start, cut);
    it, cut' := start, cut;
    while it < |db.nodes|
      invariant start <= it <= |nodes| == |db.nodes|
      invariant forall k :: 0 <= k < start ==> db.nodes[k] == old(db.nodes)[k]
      invariant forall k :: start <= k < it ==> !Covered(PolicyOf(db), nodes, k)
      invariant Ready(first, PolicyOf(db), nodes, db.nodes, it, cut')
    {
      ghost var z, c := db.nodes, cut';
      ReadyAt(first, PolicyOf(db), nodes, z, it, c);
      var take;
      take, cut' := Consider(db, it, cut', first, nodes);
      Nsec.SameLength(nodes, db.nodes);
      ReadyNext(first, PolicyOf(db), nodes, z, db.nodes, it, c);
      if take && Has(nodes[it], DNAME) {
        CoveredCut(PolicyOf(db), nodes, it, c);
      }
      if take {
        break;
      }
      it := it + 1;
    }
  }

  // ------------------------------------------------------ the walk as a whole

  // The covered names from node k on, in canonical order.
  ghost function CoveredFrom(p: Policy, nodes: seq<Node>, k: nat): seq<Name>
    decreases |nodes| - k
  {
    if k >= |nodes| then []
    else (if Covered(p, nodes, k) then [nodes[k].name] else []) + CoveredFrom(p, nodes, k + 1)
  }

  lemma {:induction false} SkipUncovered(p: Policy, nodes: seq<Node>, k: nat, j: nat)
    requires k <= j <= |nodes| && forall m :: k <= m < j ==> !Covered(p, nodes, m)
    ensures CoveredFrom(p, nodes, k) == CoveredFrom(p, nodes, j)
    decreases j - k
  {
    hide Covered;
    if k < j {
      SkipUncovered(p, nodes, k + 1, j);
    }
  }

  // The covered names come in canonical order and lie in the zone.
  lemma {:induction false} CoveredSorted(p: Policy, nodes: seq<Node>, k: nat, i: nat)
    requires Sorted(nodes) && i < |CoveredFrom(p, nodes, k)|
    ensures exists m :: k <= m < |nodes| && Covered(p, nodes, m) && CoveredFrom(p, nodes, k)[i] == nodes[m].name
    ensures forall j :: i < j < |CoveredFrom(p, nodes, k)| ==> Less(CoveredFrom(p, nodes, k)[i], CoveredFrom(p, nodes, k)[j])
    decreases |nodes| - k
  {
    hide Covered;
    var v, w := CoveredFrom(p, nodes, k), CoveredFrom(p, nodes, k + 1);
    var d := if Covered(p, nodes, k) then 1 else 0;
    assert forall j :: d <= j < |v| ==> v[j] == w[j - d];
    if i >= d {
      CoveredSorted(p, nodes, k + 1, i - d);
    } else {
      forall j | i < j < |v|
        ensures Less(v[i], v[j])
      {
        CoveredSorted(p, nodes, k + 1, j - d);
        var m :| k + 1 <= m < |nodes| && w[j - d] == nodes[m].name;
        assert NamesOf(nodes)[k] == nodes[k].name && NamesOf(nodes)[m] == nodes[m].name;
      }
    }
  }

  // The origin comes first among them.
  lemma CoveredIncluded(p: Policy, nodes: seq<Node>, apex: nat)
    requires Sorted(nodes) && apex < |nodes| && nodes[apex].name == p.origin && Active(nodes[apex].sets)
    ensures Included(p.origin, CoveredFrom(p, nodes, apex))
  {
    Nsec.ApexVisible(p.origin, nodes, apex);
    var v := CoveredFrom(p, nodes, apex);
    assert v[0] == p.origin;
    hide CoveredFrom;
    forall i | 0 < i < |v|
      ensures ProperlyBelow(v[i], p.origin)
    {
      CoveredSorted(p, nodes, apex, i);
      CoveredSorted(p, nodes, apex, 0);
      LessTotal(v[0], v[i]);
    }
    forall i, j | 0 <= i < j < |v|
      ensures Less(v[i], v[j])
    {
      CoveredSorted(p, nodes, apex, i);
    }
    assert [p.origin] + v[1..] == v;
  }

  // What a walk at the covered node cur has still to handle.
  ghost function Pending(p: Policy, nodes: seq<Node>, cur: nat): seq<Name> {
    if cur >= |nodes| then [] else [nodes[cur].name] + Later(nodes[cur].name, CoveredFrom(p, nodes, cur + 1))
  }

  // All the names of the chain.
  ghost function ChainOf(p: Policy, nodes: seq<Node>, apex: nat): seq<Name> {
    Chain(CoveredFrom(p, nodes, apex))
  }

  lemma PendingStep(p: Policy, nodes: seq<Node>, cur: nat, it: nat)
    requires cur < it <= |nodes| && IsSubdomain(nodes[cur].name, p.origin)
    requires forall k :: cur < k < it ==> !Covered(p, nodes, k)
    requires it < |nodes| ==> Covered(p, nodes, it)
    ensures var next := if it < |nodes| then nodes[it].name else p.origin;
            Pending(p, nodes, cur) == ([nodes[cur].name] + Span(nodes[cur].name, next)) + Pending(p, nodes, it)
  {
    hide Covered, Span;
    var name := nodes[cur].name;
    SkipUncovered(p, nodes, cur + 1, it);
    if it < |nodes| {
      var rest := CoveredFrom(p, nodes, it + 1);
      assert ([nodes[it].name] + rest)[1..] == rest;
      assert Later(name, [nodes[it].name] + rest) == Span(name, nodes[it].name) + Pending(p, nodes, it) by {
        ConcatAssoc(Span(name, nodes[it].name), [nodes[it].name], Later(nodes[it].name, rest));
      }
      ConcatAssoc([name], Span(name, nodes[it].name), Pending(p, nodes, it));
    } else {
      SpanToTop(name, p.origin);
    }
  }

  lemma PendingAll(p: Policy, nodes: seq<Node>, apex: nat)
    requires apex < |nodes| && Covered(p, nodes, apex)
    ensures Pending(p, nodes, apex) == ChainOf(p, nodes, apex)
  {
    hide Covered;
    assert CoveredFrom(p, nodes, apex)[1..] == CoveredFrom(p, nodes, apex + 1);
  }

  // The state of a walk that has arrived at node it: before the apex it has
  // only skipped names; from there on it stands at covered nodes.
  ghost predicate Arrived(first: bool, p: Policy, nodes: seq<Node>, z: seq<Node>, apex: nat, it: nat, cut: Option<Name>) {
    && it <= |nodes| && (apex <= it < |nodes| ==> Covered(p, nodes, it))
    && (it <= apex || it == |nodes| ==> Ready(first, p, nodes, z, it, cut))
    && (apex < it < |nodes| ==> Ready(first, p, nodes, z, it + 1, cut) && (Has(nodes[it], DNAME) ==> cut == Some(nodes[it].name)))
    && (it <= apex ==> cut == None)
  }

  ghost predicate Apex(p: Policy, nodes: seq<Node>, apex: nat) {
    Sorted(nodes) && apex < |nodes| && nodes[apex].name == p.origin && Active(nodes[apex].sets)
  }

  lemma ApexCovered(p: Policy, nodes: seq<Node>, apex: nat)
    requires Apex(p, nodes, apex)
    ensures Covered(p, nodes, apex)
  {
    Nsec.ApexVisible(p.origin, nodes, apex);
  }

  // Names outside the zone are skipped; they can only come before the apex.
  lemma SkipOutside(first: bool, p: Policy, nodes: seq<Node>, z: seq<Node>, apex: nat, it: nat, cut: Option<Name>)
    requires Apex(p, nodes, apex) && Arrived(first, p, nodes, z, apex, it, cut) && it < |nodes|
    ensures IsSubdomain(nodes[it].name, p.origin) <==> apex <= it
    ensures it < apex ==> Arrived(first, p, nodes, z, apex, it + 1, cut)
  {
    if it < apex {
      NotReached(p, nodes, apex, it);
      assert if first then SameSets(nodes, z, it) else Settled(p, nodes, z, it);
      ReadyNext(first, p, nodes, z, z, it, cut);
      ApexCovered(p, nodes, apex);
    }
  }

  lemma AllReached(p: Policy, nodes: seq<Node>, apex: nat)
    requires Apex(p, nodes, apex)
    ensures forall k :: apex < k < |nodes| ==> Reached(p, nodes[k])
  {
    forall k | apex < k < |nodes|
      ensures Less(p.origin, nodes[k].name)
    {
      assert Less(NamesOf(nodes)[apex], NamesOf(nodes)[k]);
    }
  }

  lemma NotReached(p: Policy, nodes: seq<Node>, apex: nat, k: nat)
    requires Apex(p, nodes, apex) && k < apex
    ensures !Reached(p, nodes[k])
  {
    Nsec.BeforeApex(p.origin, nodes, apex, k);
    assert Less(NamesOf(nodes)[k], NamesOf(nodes)[apex]);
    LessTotal(nodes[k].name, p.origin);
  }

  // One turn of a walk at the covered node cur: moves to the next covered node.
  // The first walk fails when the zone has an NSEC chain and -u is not given.
  method Turn(db: Db, cur: nat, cut: Option<Name>, first: bool, ghost nodes: seq<Node>, ghost apex: nat)
    returns (ok: bool, it: nat, cut': Option<Name>)
    requires db.nsec3 && Apex(PolicyOf(db), nodes, apex) && apex <= cur < |nodes|
    requires Arrived(first, PolicyOf(db), nodes, db.nodes, apex, cur, cut)
    modifies db`nodes
    ensures |db.nodes| == |nodes|
    ensures ok <==> !first || cur != apex || db.updateChain
                    || WithoutType(NSEC, old(db.nodes)[cur].sets) == old(db.nodes)[cur].sets
    ensures ok ==> cur < it && Arrived(first, PolicyOf(db), nodes, db.nodes, apex, it, cut')
    ensures ok ==> forall k :: cur < k < it ==> !Covered(PolicyOf(db), nodes, k)
    ensures !first ==> db.nodes[apex] == old(db.nodes)[apex]
    ensures !ok ==> db.nodes == old(db.nodes)
  {
    hide Named, Unnamed, CutKnown, Covered, Occluded, Reached;
    ok, it, cut' := true, cur, cut;
    ghost var z := db.nodes;
    assert Alike(nodes[cur], db.nodes[cur]);
    if cur != apex {
      NamesDiffer(nodes, cur, apex);
    }
    if first && db.nodes[cur].name == db.origin {
      assert SameSets(nodes, db.nodes, cur);
      EditSets(nodes, db.nodes, cur, WithoutType(NSEC, db.nodes[cur].sets));
      ok := db.RemoveRecords(cur, NSEC, true);
      if !ok {
        return;
      }
      CleanedSameData(true, db.nodes[cur].sets);
      EditSets(nodes, db.nodes, cur, Cleaned(true, db.nodes[cur].sets));
      var active := db.ActiveNode(cur);
      Nsec.ApexVisible(db.origin, nodes, apex);
      SettledApex(PolicyOf(db), nodes, db.nodes, cur);
    }
    if Has(db.nodes[cur], DNAME) {
      cut' := Some(db.nodes[cur].name);
    }
    if cur == apex {
      ReadyNext(first, PolicyOf(db), nodes, z, db.nodes, cur, cut);
    }
    AllReached(PolicyOf(db), nodes, apex);
    it, cut' := FindNext(db, cur + 1, cut', first, nodes);
  }

  // ------------------------------------------------------ collecting hashes

  const WILDCARD := Label([42]) // "*"

  function NameOctets(n: Name): nat {
    if n == [] then 1 else NameOctets(n[1..]) + 1 + |n[0].octets|
  }

  // The entries that the names of a chain get.
  ghost function Hashes(h: Name -> seq<byte>, names: seq<Name>): (r: seq<Entry>)
    ensures |r| == |names| && forall i :: 0 <= i < |names| ==> r[i] == MakeEntry(h(names[i]), false)
  {
    seq(|names|, i requires 0 <= i < |names| => MakeEntry(h(names[i]), false))
  }

  // Every hash fills an entry of the list together with its flag octet.
  ghost predicate FixedSize(h: Name -> seq<byte>, length: nat) {
    forall n :: |h(n)| + 1 == length
  }

  // The wildcard below the name is not too long and not in the zone.
  predicate Absent(nodes: seq<Node>, wild: Name) {
    NameOctets(wild) <= 255 && forall k :: 0 <= k < |nodes| ==> nodes[k].name != wild
  }

  // The entries made for one name: its hash and, speculatively, that of an
  // absent wildcard below it.
  ghost function EntriesFor(h: Name -> seq<byte>, nodes: seq<Node>, name: Name): seq<Entry> {
    var wild := name + [WILDCARD];
    [MakeEntry(h(name), false)] + if Absent(nodes, wild) then [MakeEntry(h(wild), true)] else []
  }

  ghost function Collected(h: Name -> seq<byte>, nodes: seq<Node>, names: seq<Name>): seq<Entry> {
    if names == [] then []
    else Collected(h, nodes, names[..|names| - 1]) + EntriesFor(h, nodes, names[|names| - 1])
  }

  // The octets of all labels.
  ghost function LabelOctets(n: Name): seq<byte> {
    if n == [] then [] else n[0].octets + LabelOctets(n[1..])
  }

  // A name in wire form has these, a length octet for each, and the root label.
  lemma {:induction false} NameOctetsIs(n: Name)
    ensures NameOctets(n) == |LabelOctets(n)| + |n| + 1
  {
    if n != [] {
      NameOctetsIs(n[1..]);
    }
  }

  // The entry is the speculative one for the wildcard below the name, which is
  // not in the zone and of at most 255 octets.
  ghost predicate Guessed(h: Name -> seq<byte>, nodes: seq<Node>, name: Name, e: Entry) {
    var wild := name + [WILDCARD];
    e.octets == h(wild) + [1] && |LabelOctets(wild)| + |wild| + 1 <= 255 && wild !in NamesOf(nodes)
  }

  lemma GuessedFor(h: Name -> seq<byte>, nodes: seq<Node>, name: Name, e: Entry)
    requires !Real(e)
    ensures e in EntriesFor(h, nodes, name) <==> Guessed(h, nodes, name, e)
  {
    var wild := name + [WILDCARD];
    NameOctetsIs(wild);
    hide NameOctets, LabelOctets;
    assert wild in NamesOf(nodes) <==> exists k :: 0 <= k < |nodes| && nodes[k].name == wild by {
      assert forall k :: 0 <= k < |nodes| ==> NamesOf(nodes)[k] == nodes[k].name;
    }
  }

  // The speculative entries collected are exactly those.
  lemma {:induction false} SpeculativeIs(h: Name -> seq<byte>, nodes: seq<Node>, names: seq<Name>, e: Entry)
    requires !Real(e)
    ensures e in Collected(h, nodes, names) <==> exists name :: name in names && Guessed(h, nodes, name, e)
  {
    hide EntriesFor, Guessed, Real;
    if names != [] {
      var n := |names| - 1;
      SpeculativeIs(h, nodes, names[..n], e);
      GuessedFor(h, nodes, names[n], e);
      assert names == names[..n] + [names[n]];
    }
  }

  lemma CollectedNext(h: Name -> seq<byte>, nodes: seq<Node>, names: seq<Name>, name: Name)
    ensures Collected(h, nodes, names + [name]) == Collected(h, nodes, names) + EntriesFor(h, nodes, name)
  {
    assert (names + [name])[..|names|] == names;
  }

  lemma {:induction false} CollectedConcat(h: Name -> seq<byte>, nodes: seq<Node>, a: seq<Name>, b: seq<Name>)
    ensures Collected(h, nodes, a + b) == Collected(h, nodes, a) + Collected(h, nodes, b)
  {
    hide EntriesFor;
    if b == [] {
      ConcatEmpty(a);
      ConcatEmpty(Collected(h, nodes, a));
    } else {
      var n := |b| - 1;
      CollectedConcat(h, nodes, a, b[..n]);
      assert a + b == (a + b[..n]) + [b[n]];
      CollectedNext(h, nodes, a + b[..n], b[n]);
      ConcatAssoc(Collected(h, nodes, a), Collected(h, nodes, b[..n]), EntriesFor(h, nodes, b[n]));
    }
  }

  lemma RealsFor(s: seq<Entry>, h: Name -> seq<byte>, nodes: seq<Node>, name: Name)
    ensures Reals(s + EntriesFor(h, nodes, name)) == Reals(s) + [MakeEntry(h(name), false)]
  {
    var e, wild := MakeEntry(h(name), false), name + [WILDCARD];
    RealsAppend(s, e);
    RealsAppend(s + [e], MakeEntry(h(wild), true));
    hide Reals, Absent;
    ConcatAssoc(s, [e], [MakeEntry(h(wild), true)]);
    ConcatEmpty([e]);
  }

  // The real entries among them are the hashes of the names.
  lemma {:induction false} RealsCollected(h: Name -> seq<byte>, nodes: seq<Node>, names: seq<Name>)
    ensures Reals(Collected(h, nodes, names)) == Hashes(h, names)
  {
    if names != [] {
      var before, last := names[..|names| - 1], names[|names| - 1];
      RealsCollected(h, nodes, before);
      RealsSnoc(h, nodes, before, last);
      TakeNext(names, |names| - 1);
      assert names[..|names|] == names;
    }
  }

  lemma RealsSnoc(h: Name -> seq<byte>, nodes: seq<Node>, before: seq<Name>, last: Name)
    requires Reals(Collected(h, nodes, before)) == Hashes(h, before)
    ensures Reals(Collected(h, nodes, before + [last])) == Hashes(h, before + [last])
  {
    hide Reals, EntriesFor, Hashes, Collected, MakeEntry;
    CollectedNext(h, nodes, before, last);
    RealsFor(Collected(h, nodes, before), h, nodes, last);
  }

  ghost predicate SameNames(nodes: seq<Node>, z: seq<Node>) {
    |nodes| == |z| && forall k :: 0 <= k < |nodes| ==> nodes[k].name == z[k].name
  }

  // hashlist_add_dns_name and addnowildcardhash for a name
  method AddName(list: List, db: Db, h: Name -> seq<byte>, name: Name, ghost nodes: seq<Node>)
    requires list.Valid() && FixedSize(h, list.length) && SameNames(nodes, db.nodes)
    modifies list, list.hashbuf
    ensures list.Valid() && (list.hashbuf == old(list.hashbuf) || fresh(list.hashbuf))
    ensures list.Entries() == old(list.Entries()) + EntriesFor(h, nodes, name)
  {
    ghost var before := list.Entries();
    list.AddHash(h(name), false);
    ConcatEmpty([MakeEntry(h(name), false)]);
    var wild := name + [WILDCARD];
    if Absent(db.nodes, wild) {
      list.AddHash(h(wild), true);
      ConcatAssoc(before, [MakeEntry(h(name), false)], [MakeEntry(h(wild), true)]);
    }
  }

  // The names of a span that are still to come when count labels are left.
  ghost function SpanFrom(name: Name, next: Name, count: nat): seq<Name>
    requires count <= |next|
  {
    if count == 0 then [] else Ancestors(next, count - 1, Common(name, next))
  }

  // The names in done have been seen to, those of the span still to come.
  ghost predicate ToCome(name: Name, next: Name, count: nat, done: seq<Name>) {
    count <= |next| && [name] + Span(name, next) == done + SpanFrom(name, next, count)
  }

  lemma SpanBegins(name: Name, next: Name)
    ensures ToCome(name, next, |next|, [name])
  {
  }

  lemma SpanGoesOn(name: Name, next: Name, count: nat, done: seq<Name>)
    requires ToCome(name, next, count, done) && count > Common(name, next) + 1
    ensures ToCome(name, next, count - 1, done + [next[..count - 1]])
  {
    ConcatAssoc(done, [next[..count - 1]], SpanFrom(name, next, count - 1));
  }

  lemma SpanEnds(name: Name, next: Name, count: nat, done: seq<Name>)
    requires ToCome(name, next, count, done) && count <= Common(name, next) + 1
    ensures done == [name] + Span(name, next)
  {
    ConcatEmpty(done);
  }

  // Adds the hashes for a name of the zone and for the empty names between it
  // and the next name.
  method AddSpan(list: List, db: Db, h: Name -> seq<byte>, name: Name, next: Name, ghost nodes: seq<Node>)
    requires list.Valid() && FixedSize(h, list.length) && SameNames(nodes, db.nodes)
    modifies list, list.hashbuf
    ensures list.Valid() && (list.hashbuf == old(list.hashbuf) || fresh(list.hashbuf))
    ensures list.Entries() == old(list.Entries()) + Collected(h, nodes, [name] + Span(name, next))
  {
    hide *;
    ghost var before, done := list.Entries(), [name];
    var common, count := Common(name, next), |next|;
    CollectedOne(h, nodes, name);
    SpanBegins(name, next);
    AddName(list, db, h, name, nodes);
    while count > common + 1
      invariant common <= count <= |next| && list.Valid() && (list.hashbuf == old(list.hashbuf) || fresh(list.hashbuf))
      invariant list.Entries() == before + Collected(h, nodes, done) && SameNames(nodes, db.nodes)
      invariant ToCome(name, next, count, done)
    {
      SpanGoesOn(name, next, count, done);
      count := count - 1;
      AddNext(list, db, h, next[..count], nodes, before, done);
      done := done + [next[..count]];
    }
    SpanEnds(name, next, count, done);
  }

  method AddNext(list: List, db: Db, h: Name -> seq<byte>, name: Name, ghost nodes: seq<Node>, ghost before: seq<Entry>, ghost done: seq<Name>)
    requires list.Valid() && FixedSize(h, list.length) && SameNames(nodes, db.nodes)
    requires list.Entries() == before + Collected(h, nodes, done)
    modifies list, list.hashbuf
    ensures list.Valid() && (list.hashbuf == old(list.hashbuf) || fresh(list.hashbuf))
    ensures list.Entries() == before + Collected(h, nodes, done + [name])
  {
    hide *;
    CollectedNext(h, nodes, done, name);
    ConcatAssoc(before, Collected(h, nodes, done), EntriesFor(h, nodes, name));
    AddName(list, db, h, name, nodes);
  }

  lemma CollectedOne(h: Name -> seq<byte>, nodes: seq<Node>, name: Name)
    ensures Collected(h, nodes, [name]) == EntriesFor(h, nodes, name)
  {
    CollectedNext(h, nodes, [], name);
    assert [] + [name] == [name] && [] + EntriesFor(h, nodes, name) == EntriesFor(h, nodes, name);
  }

  // What has been handled and what is pending make up the chain.
  ghost predicate Handled(p: Policy, nodes: seq<Node>, apex: nat, it: nat, done: seq<Name>) {
    if it <= apex then done == [] else done + Pending(p, nodes, it) == ChainOf(p, nodes, apex)
  }

  lemma HandledStep(p: Policy, nodes: seq<Node>, apex: nat, cur: nat, it: nat, done: seq<Name>)
    requires Apex(p, nodes, apex) && apex <= cur < it <= |nodes| && Handled(p, nodes, apex, cur, done)
    requires Covered(p, nodes, cur) && (it < |nodes| ==> Covered(p, nodes, it))
    requires forall k :: cur < k < it ==> !Covered(p, nodes, k)
    ensures var next := if it < |nodes| then nodes[it].name else p.origin;
            Handled(p, nodes, apex, it, done + ([nodes[cur].name] + Span(nodes[cur].name, next)))
  {
    PendingStep(p, nodes, cur, it);
    var next := if it < |nodes| then nodes[it].name else p.origin;
    ConcatAssoc(done, [nodes[cur].name] + Span(nodes[cur].name, next), Pending(p, nodes, it));
    if cur == apex {
      PendingAll(p, nodes, apex);
      ConcatEmpty(Pending(p, nodes, cur));
    }
  }

  // The first walk: the entries collected are those for the chain, in order.
  method Collect(db: Db, list: List, h: Name -> seq<byte>, ghost apex: nat) returns (ok: bool)
    requires db.nsec3 && ProperNodes(db.nodes) && Apex(PolicyOf(db), db.nodes, apex)
    requires list.Valid() && list.Entries() == [] && FixedSize(h, list.length)
    modifies db`nodes, list, list.hashbuf
    ensures list.Valid() && (list.hashbuf == old(list.hashbuf) || fresh(list.hashbuf))
    ensures ok <==> db.updateChain || WithoutType(NSEC, old(db.nodes)[apex].sets) == old(db.nodes)[apex].sets
    ensures |db.nodes| == |old(db.nodes)|
    ensures ok ==> exists cut :: Ready(true, PolicyOf(db), old(db.nodes), db.nodes, |db.nodes|, cut)
    ensures ok ==> list.Entries() == Collected(h, old(db.nodes), ChainOf(PolicyOf(db), old(db.nodes), apex))
    ensures !ok ==> db.nodes == old(db.nodes)
  {
    hide Collected, Handled, Ready, Arrived, Apex, FixedSize, Covered, Span, Common, ProperNodes, IsSubdomain, SameNames, WithoutType,
         List.Valid, List.Entries, Uniform, MakeEntry, ChainOf, Nsec.Edited;
    ghost var nodes, p := db.nodes, PolicyOf(db);
    var it, done, cut := 0, false, None;
    ghost var names: seq<Name> := [];
    FirstBegins(p, nodes, apex);
    NoneCollected(h, nodes);
    while !done
      invariant list.Valid() && (list.hashbuf == old(list.hashbuf) || fresh(list.hashbuf))
      invariant Arrived(true, p, nodes, db.nodes, apex, it, cut) && |db.nodes| == |nodes| && it <= |nodes|
      invariant done <==> it == |nodes|
      invariant it <= apex ==> db.nodes == nodes
      invariant it > apex ==> db.updateChain || WithoutType(NSEC, nodes[apex].sets) == nodes[apex].sets
      invariant list.Entries() == Collected(h, nodes, names) && Handled(p, nodes, apex, it, names)
      decreases |nodes| - it
    {
      SkipOutside(true, p, nodes, db.nodes, apex, it, cut);
      AlikeNames(nodes, db.nodes, true, p, apex, it, cut);
      if !IsSubdomain(db.nodes[it].name, db.origin) {
        SkipHandled(p, nodes, apex, it, names);
        it := it + 1;
      } else {
        ok, it, cut, names := CollectName(db, list, h, it, cut, nodes, apex, names);
        if !ok {
          return;
        }
      }
      done := it == |db.nodes|;
    }
    WalkEnds(true, p, nodes, db.nodes, apex, it, cut, names);
    return true;
  }

  // One turn of the first walk, at a name of the zone.
  method CollectName(db: Db, list: List, h: Name -> seq<byte>, cur: nat, cut: Option<Name>,
                     ghost nodes: seq<Node>, ghost apex: nat, ghost names: seq<Name>)
    returns (ok: bool, it: nat, cut': Option<Name>, ghost names': seq<Name>)
    requires db.nsec3 && Apex(PolicyOf(db), nodes, apex) && apex <= cur < |nodes|
    requires Arrived(true, PolicyOf(db), nodes, db.nodes, apex, cur, cut)
    requires list.Valid() && FixedSize(h, list.length)
    requires list.Entries() == Collected(h, nodes, names) && Handled(PolicyOf(db), nodes, apex, cur, names)
    modifies db`nodes, list, list.hashbuf
    ensures list.Valid() && (list.hashbuf == old(list.hashbuf) || fresh(list.hashbuf)) && |db.nodes| == |nodes|
    ensures ok <==> cur != apex || db.updateChain || WithoutType(NSEC, old(db.nodes)[cur].sets) == old(db.nodes)[cur].sets
    ensures ok ==> cur < it <= |nodes| && Arrived(true, PolicyOf(db), nodes, db.nodes, apex, it, cut')
    ensures ok ==> list.Entries() == Collected(h, nodes, names') && Handled(PolicyOf(db), nodes, apex, it, names')
    ensures !ok ==> db.nodes == old(db.nodes)
  {
    hide Collected, Handled, Ready, Arrived, Apex, FixedSize, Covered, Span, Common, ProperNodes, IsSubdomain, SameNames, WithoutType,
         List.Valid, List.Entries, Uniform, MakeEntry, ChainOf, Nsec.Edited;
    ghost var p := PolicyOf(db);
    ArrivedAt(true, p, nodes, db.nodes, apex, cur, cut);
    names' := names;
    ok, it, cut' := Turn(db, cur, cut, true, nodes, apex);
    if ok {
      AlikeNames(nodes, db.nodes, true, p, apex, it, cut');
      ArrivedAt(true, p, nodes, db.nodes, apex, it, cut');
      var next := if it < |db.nodes| then db.nodes[it].name else db.origin;
      HandledStep(p, nodes, apex, cur, it, names);
      CollectedConcat(h, nodes, names, [nodes[cur].name] + Span(nodes[cur].name, next));
      AddSpan(list, db, h, db.nodes[cur].name, next, nodes);
      names' := names + ([nodes[cur].name] + Span(nodes[cur].name, next));
    }
  }

  lemma ArrivedAt(first: bool, p: Policy, nodes: seq<Node>, z: seq<Node>, apex: nat, it: nat, cut: Option<Name>)
    requires Arrived(first, p, nodes, z, apex, it, cut)
    ensures it <= |nodes| && (apex <= it < |nodes| ==> Covered(p, nodes, it))
  {
  }

  lemma SkipHandled(p: Policy, nodes: seq<Node>, apex: nat, it: nat, names: seq<Name>)
    requires it < apex && Handled(p, nodes, apex, it, names)
    ensures Handled(p, nodes, apex, it + 1, names)
  {
  }

  lemma WalkBegins(first: bool, p: Policy, nodes: seq<Node>, z: seq<Node>, apex: nat)
    requires Apex(p, nodes, apex) && Ready(first, p, nodes, z, 0, None)
    ensures Arrived(first, p, nodes, z, apex, 0, None) && Handled(p, nodes, apex, 0, []) && apex < |nodes| == |z|
  {
    ApexCovered(p, nodes, apex);
  }

  lemma FirstBegins(p: Policy, nodes: seq<Node>, apex: nat)
    requires Apex(p, nodes, apex) && ProperNodes(nodes)
    ensures Arrived(true, p, nodes, nodes, apex, 0, None) && Handled(p, nodes, apex, 0, []) && apex < |nodes|
  {
    WalkBegins(true, p, nodes, nodes, apex);
  }

  lemma NoneCollected(h: Name -> seq<byte>, nodes: seq<Node>)
    ensures Collected(h, nodes, []) == []
  {
  }

  lemma NoRecords(h: Name -> seq<byte>, entries: seq<Entry>)
    ensures RecordsFor(map[], h, entries, [])
  {
  }

  lemma WalkEnds(first: bool, p: Policy, nodes: seq<Node>, z: seq<Node>, apex: nat, it: nat, cut: Option<Name>, names: seq<Name>)
    requires apex < |nodes| == it && Arrived(first, p, nodes, z, apex, it, cut) && Handled(p, nodes, apex, it, names)
    ensures Ready(first, p, nodes, z, |nodes|, cut) && names == ChainOf(p, nodes, apex)
  {
  }

  // The walks find the names they started with.
  lemma AlikeNames(nodes: seq<Node>, z: seq<Node>, first: bool, p: Policy, apex: nat, it: nat, cut: Option<Name>)
    requires Arrived(first, p, nodes, z, apex, it, cut)
    ensures SameNames(nodes, z) && |nodes| == |z| && forall k :: 0 <= k < |nodes| ==> nodes[k].name == z[k].name
  {
    assert Nsec.Edited(nodes, z);
    assert forall k :: 0 <= k < |nodes| ==> Alike(nodes[k], z[k]);
  }

  // --------------------------------------------------- making the records

  // The NSEC3 records, by owner hash, each with its next hash.
  type Records = map<seq<byte>, seq<byte>>

  ghost predicate Linked(entries: seq<Entry>, hash: seq<byte>, next: seq<byte>) {
    exists k :: 0 <= k < |entries| && Successor(entries, hash, k) && next == Key(entries[k])
  }

  // The records made for names: one for the hash of each of them, no others,
  // and each with the next hash of the list.
  ghost predicate RecordsFor(r: Records, h: Name -> seq<byte>, entries: seq<Entry>, names: seq<Name>) {
    && (forall hash :: hash in r ==> Linked(entries, hash, r[hash]))
    && (forall hash :: hash in r ==> exists i :: 0 <= i < |names| && h(names[i]) == hash)
    && (forall i :: 0 <= i < |names| ==> h(names[i]) in r)
  }

  // The real entries of names are in the list, so every look-up succeeds.
  ghost predicate Listed(h: Name -> seq<byte>, entries: seq<Entry>, names: seq<Name>) {
    forall i :: 0 <= i < |names| ==> Present(h, entries, names[i])
  }

  ghost predicate Present(h: Name -> seq<byte>, entries: seq<Entry>, name: Name) {
    MakeEntry(h(name), false) in entries
  }

  lemma RecordAdded(r: Records, h: Name -> seq<byte>, entries: seq<Entry>, names: seq<Name>, name: Name, next: seq<byte>)
    requires RecordsFor(r, h, entries, names) && Linked(entries, h(name), next)
    ensures RecordsFor(r[h(name) := next], h, entries, names + [name])
  {
    hide Linked;
    var names' := names + [name];
    assert names'[|names|] == name;
    forall hash | hash in r
      ensures exists i :: 0 <= i < |names'| && h(names'[i]) == hash
    {
      var i :| 0 <= i < |names| && h(names[i]) == hash;
      assert names'[i] == names[i];
    }
  }

  // addnsec3
  method AddRecord(list: List, h: Name -> seq<byte>, name: Name, r: Records, ghost names: seq<Name>) returns (r': Records)
    requires list.Valid() && InOrder(list.Entries()) && Present(h, list.Entries(), name)
    requires RecordsFor(r, h, list.Entries(), names)
    ensures RecordsFor(r', h, list.Entries(), names + [name])
  {
    var next := list.FindNext(h(name));
    RecordAdded(r, h, list.Entries(), names, name, Key(list.At(next)));
    r' := r[h(name) := Key(list.At(next))];
  }

  // The records for a name of the zone and for the empty names up to the next.
  method AddRecords(list: List, h: Name -> seq<byte>, name: Name, next: Name, r: Records, ghost names: seq<Name>)
    returns (r': Records)
    requires list.Valid() && InOrder(list.Entries()) && Listed(h, list.Entries(), [name] + Span(name, next))
    requires RecordsFor(r, h, list.Entries(), names)
    ensures RecordsFor(r', h, list.Entries(), names + ([name] + Span(name, next)))
  {
    hide *;
    ghost var entries, done := list.Entries(), [name];
    r' := AddFirst(list, h, name, next, r, names);
    var common, count := Common(name, next), |next|;
    while count > common + 1
      invariant common <= count <= |next| && Recording(r', h, entries, names, name, next, count, done)
    {
      count := count - 1;
      r', done := AddAncestor(list, h, name, next, count, r', names, done);
    }
    AllRecorded(r', h, entries, names, name, next, count, done);
  }

  // The records for names and for those in done are made, those of the span are
  // still to come.
  ghost predicate Recording(r: Records, h: Name -> seq<byte>, entries: seq<Entry>, names: seq<Name>,
                            name: Name, next: Name, count: nat, done: seq<Name>) {
    RecordsFor(r, h, entries, names + done) && ToCome(name, next, count, done)
  }

  method AddFirst(list: List, h: Name -> seq<byte>, name: Name, next: Name, r: Records, ghost names: seq<Name>) returns (r': Records)
    requires list.Valid() && InOrder(list.Entries()) && Listed(h, list.Entries(), [name] + Span(name, next))
    requires RecordsFor(r, h, list.Entries(), names)
    ensures Recording(r', h, list.Entries(), names, name, next, |next|, [name])
  {
    hide RecordsFor, Present, InOrder, ToCome, Span, Common, MakeEntry, List.Valid, List.Entries, Uniform;
    SpanBegins(name, next);
    assert ([name] + Span(name, next))[0] == name;
    r' := AddRecord(list, h, name, r, names);
  }

  method AddAncestor(list: List, h: Name -> seq<byte>, name: Name, next: Name, count: nat, r: Records, ghost names: seq<Name>, ghost done: seq<Name>)
    returns (r': Records, ghost done': seq<Name>)
    requires list.Valid() && InOrder(list.Entries()) && Listed(h, list.Entries(), [name] + Span(name, next))
    requires Common(name, next) < count < |next| && Recording(r, h, list.Entries(), names, name, next, count + 1, done)
    ensures Recording(r', h, list.Entries(), names, name, next, count, done')
  {
    hide RecordsFor, Present, InOrder, Listed, ToCome, Span, Common, MakeEntry, List.Valid, List.Entries, Uniform;
    SpanListed(h, list.Entries(), name, next, count + 1, done);
    SpanGoesOn(name, next, count + 1, done);
    ConcatAssoc(names, done, [next[..count]]);
    r' := AddRecord(list, h, next[..count], r, names + done);
    done' := done + [next[..count]];
  }

  lemma AllRecorded(r: Records, h: Name -> seq<byte>, entries: seq<Entry>, names: seq<Name>, name: Name, next: Name, count: nat, done: seq<Name>)
    requires Recording(r, h, entries, names, name, next, count, done) && count <= Common(name, next) + 1
    ensures RecordsFor(r, h, entries, names + ([name] + Span(name, next)))
  {
    SpanEnds(name, next, count, done);
  }

  lemma SpanListed(h: Name -> seq<byte>, entries: seq<Entry>, name: Name, next: Name, count: nat, done: seq<Name>)
    requires Listed(h, entries, [name] + Span(name, next)) && ToCome(name, next, count, done) && count > Common(name, next) + 1
    ensures Present(h, entries, next[..count - 1])
  {
    assert (done + SpanFrom(name, next, count))[|done|] == next[..count - 1];
  }

  // The second walk: it visits the same names as the first and makes a record
  // for every name of the chain.
  method MakeRecords(db: Db, list: List, h: Name -> seq<byte>, ghost nodes: seq<Node>, ghost apex: nat) returns (r: Records)
    requires db.nsec3 && Apex(PolicyOf(db), nodes, apex) && Ready(false, PolicyOf(db), nodes, db.nodes, 0, None)
    requires list.Valid() && InOrder(list.Entries())
    requires Listed(h, list.Entries(), ChainOf(PolicyOf(db), nodes, apex))
    modifies db`nodes
    ensures Ready(false, PolicyOf(db), nodes, db.nodes, 0, None)
    ensures RecordsFor(r, h, list.Entries(), ChainOf(PolicyOf(db), nodes, apex))
    ensures db.nodes[apex] == old(db.nodes)[apex]
  {
    hide *;
    ghost var p := PolicyOf(db);
    r := map[];
    var it, done, cut := 0, false, None;
    ghost var names: seq<Name> := [];
    WalkBegins(false, p, nodes, db.nodes, apex);
    NoRecords(h, list.Entries());
    AlikeNames(nodes, db.nodes, false, p, apex, it, cut);
    while !done
      invariant Arrived(false, p, nodes, db.nodes, apex, it, cut) && |db.nodes| == |nodes| && it <= |nodes|
      invariant done <==> it == |nodes|
      invariant apex < |nodes| && db.nodes[apex] == old(db.nodes)[apex]
      invariant RecordsFor(r, h, list.Entries(), names) && Handled(p, nodes, apex, it, names)
      decreases |nodes| - it
    {
      SkipOutside(false, p, nodes, db.nodes, apex, it, cut);
      AlikeNames(nodes, db.nodes, false, p, apex, it, cut);
      if !IsSubdomain(db.nodes[it].name, db.origin) {
        SkipHandled(p, nodes, apex, it, names);
        it := it + 1;
      } else {
        it, cut, r, names := MakeName(db, list, h, it, cut, r, nodes, apex, names);
      }
      done := it == |db.nodes|;
    }
    WalkEnds(false, p, nodes, db.nodes, apex, it, cut, names);
    Restart(p, nodes, db.nodes, it, cut);
  }

  // One turn of the second walk, at a name of the zone.
  method MakeName(db: Db, list: List, h: Name -> seq<byte>, cur: nat, cut: Option<Name>, r: Records,
                  ghost nodes: seq<Node>, ghost apex: nat, ghost names: seq<Name>)
    returns (it: nat, cut': Option<Name>, r': Records, ghost names': seq<Name>)
    requires db.nsec3 && Apex(PolicyOf(db), nodes, apex) && apex <= cur < |nodes|
    requires Arrived(false, PolicyOf(db), nodes, db.nodes, apex, cur, cut)
    requires list.Valid() && InOrder(list.Entries()) && Listed(h, list.Entries(), ChainOf(PolicyOf(db), nodes, apex))
    requires RecordsFor(r, h, list.Entries(), names) && Handled(PolicyOf(db), nodes, apex, cur, names)
    modifies db`nodes
    ensures cur < it <= |nodes| == |db.nodes| && Arrived(false, PolicyOf(db), nodes, db.nodes, apex, it, cut')
    ensures db.nodes[apex] == old(db.nodes)[apex]
    ensures RecordsFor(r', h, list.Entries(), names') && Handled(PolicyOf(db), nodes, apex, it, names')
  {
    hide *;
    ghost var p := PolicyOf(db);
    ArrivedAt(false, p, nodes, db.nodes, apex, cur, cut);
    var ok;
    ok, it, cut' := Turn(db, cur, cut, false, nodes, apex);
    AlikeNames(nodes, db.nodes, false, p, apex, it, cut');
    ArrivedAt(false, p, nodes, db.nodes, apex, it, cut');
    var next := if it < |db.nodes| then db.nodes[it].name else db.origin;
    HandledStep(p, nodes, apex, cur, it, names);
    ListedPart(h, list.Entries(), p, nodes, apex, it, names, [nodes[cur].name] + Span(nodes[cur].name, next));
    r' := AddRecords(list, h, db.nodes[cur].name, next, r, names);
    names' := names + ([nodes[cur].name] + Span(nodes[cur].name, next));
  }

  // A walk over settled nodes can be started again.
  lemma Restart(p: Policy, nodes: seq<Node>, z: seq<Node>, at: nat, cut: Option<Name>)
    requires Ready(false, p, nodes, z, at, cut)
    ensures Ready(false, p, nodes, z, 0, None)
  {
    forall k | 0 <= k < |nodes|
      ensures Settled(p, nodes, z, k)
    {
    }
  }

  lemma ListedPart(h: Name -> seq<byte>, entries: seq<Entry>, p: Policy, nodes: seq<Node>, apex: nat, it: nat,
                   names: seq<Name>, more: seq<Name>)
    requires Listed(h, entries, ChainOf(p, nodes, apex)) && it > apex && Handled(p, nodes, apex, it, names + more)
    ensures Listed(h, entries, more)
  {
    var all := ChainOf(p, nodes, apex);
    assert forall i :: 0 <= i < |more| ==> more[i] == all[|names| + i];
  }

  // ------------------------------------------------------------- nsec3ify

  datatype Outcome = Made | NeedsUpdate | DuplicateHash

  function WithParam(n: Node): Node {
    n.(sets := n.sets + {RRset(NSEC3PARAM, 0)})
  }

  lemma ParamSettled(p: Policy, nodes: seq<Node>, z: seq<Node>, apex: nat)
    requires Apex(p, nodes, apex) && |z| == |nodes| && Settled(p, nodes, z, apex)
    ensures Settled(p, nodes, z[apex := WithParam(z[apex])], apex)
  {
    ApexCovered(p, nodes, apex);
    hide Visible, Apex;
  }

  lemma ParamEdited(nodes: seq<Node>, z: seq<Node>, apex: nat)
    requires Nsec.Edited(nodes, z) && apex < |nodes| && Active(nodes[apex].sets)
    ensures Nsec.Edited(nodes, z[apex := WithParam(z[apex])])
  {
    var n := WithParam(z[apex]);
    assert Alike(nodes[apex], z[apex]);
    assert RRset(NSEC3PARAM, 0) in n.sets && Data(RRset(NSEC3PARAM, 0));
    assert Alike(nodes[apex], n);
  }

  // After the first walk and the NSEC3PARAM record, a new walk sees the same
  // covered names as the first.
  lemma ReadyAgain(p: Policy, nodes: seq<Node>, z: seq<Node>, cut: Option<Name>, apex: nat)
    requires Ready(true, p, nodes, z, |nodes|, cut) && Apex(p, nodes, apex)
    ensures Ready(false, p, nodes, z[apex := WithParam(z[apex])], 0, None)
  {
    hide Nsec.Edited, Settled;
    Nsec.SameLength(nodes, z);
    var z' := z[apex := WithParam(z[apex])];
    ParamEdited(nodes, z, apex);
    forall k | 0 <= k < |nodes|
      ensures Settled(p, nodes, z', k)
    {
      assert Settled(p, nodes, z, k);
      if k == apex {
        ParamSettled(p, nodes, z, apex);
      } else {
        SettledSame(p, nodes, z, z', k);
      }
    }
  }

  lemma SettledSame(p: Policy, nodes: seq<Node>, z: seq<Node>, z': seq<Node>, k: nat)
    requires k < |nodes| == |z| == |z'| && z[k] == z'[k] && Settled(p, nodes, z, k)
    ensures Settled(p, nodes, z', k)
  {
    hide Visible, Named, Unnamed;
  }

  // The real entries of the list are the hashes of the chain's names.
  ghost predicate EntriesOf(h: Name -> seq<byte>, entries: seq<Entry>, names: seq<Name>) {
    forall e :: Real(e) ==> (e in entries <==> e in Hashes(h, names))
  }

  lemma SortedEntries(h: Name -> seq<byte>, s: seq<Entry>, sorted: seq<Entry>, names: seq<Name>)
    requires multiset(s) == multiset(sorted) && Reals(s) == Hashes(h, names)
    ensures EntriesOf(h, sorted, names) && Listed(h, sorted, names)
  {
    forall e | Real(e)
      ensures e in sorted <==> e in Hashes(h, names)
    {
      RealsCount(s, e);
      assert e in sorted <==> e in multiset(sorted);
      assert e in Reals(s) <==> e in multiset(Reals(s));
    }
    forall i | 0 <= i < |names|
      ensures MakeEntry(h(names[i]), false) in sorted
    {
      assert Hashes(h, names)[i] == MakeEntry(h(names[i]), false);
    }
  }

  // Two names of the chain have one hash.
  ghost predicate Collision(h: Name -> seq<byte>, names: seq<Name>) {
    exists i, j :: 0 <= i < j < |names| && h(names[i]) == h(names[j])
  }

  lemma CollisionIsDuplicate(h: Name -> seq<byte>, names: seq<Name>)
    ensures Collision(h, names) <==> !Distinct(Hashes(h, names))
  {
    forall i, j | 0 <= i < j < |names|
      ensures h(names[i]) == h(names[j]) <==> Hashes(h, names)[i] == Hashes(h, names)[j]
    {
      RealEqual(Hashes(h, names)[i], Hashes(h, names)[j]);
    }
  }

  // Sorts the hashes; a duplicate is found exactly when two names collide.
  method SortAndCheck(list: List, h: Name -> seq<byte>, ghost chain: seq<Name>) returns (dup: bool)
    requires list.Valid() && FixedSize(h, list.length) && Reals(list.Entries()) == Hashes(h, chain)
    modifies list.hashbuf
    ensures list.Valid() && InOrder(list.Entries()) && (dup <==> Collision(h, chain))
    ensures EntriesOf(h, list.Entries(), chain) && Listed(h, list.Entries(), chain)
    ensures !dup ==> NoDuplicate(list.Entries())
    ensures multiset(list.Entries()) == multiset(old(list.Entries()))
  {
    hide InOrder, NoDuplicate, EntriesOf, Listed, Collision, Reals, Distinct;
    assert |h([])| + 1 == list.length;
    ghost var s := list.Entries();
    list.Sort();
    SortedEntries(h, s, list.Entries(), chain);
    DuplicateAnyOrder(s, list.Entries());
    CollisionIsDuplicate(h, chain);
    dup := list.HasDup();
  }

  // The NSEC3PARAM record and the second walk.
  method Complete(db: Db, list: List, h: Name -> seq<byte>, ghost nodes: seq<Node>, ghost apex: nat) returns (r: Records)
    requires db.nsec3 && Apex(PolicyOf(db), nodes, apex)
    requires exists cut :: Ready(true, PolicyOf(db), nodes, db.nodes, |nodes|, cut)
    requires list.Valid() && InOrder(list.Entries())
    requires Listed(h, list.Entries(), ChainOf(PolicyOf(db), nodes, apex))
    modifies db`nodes
    ensures Ready(false, PolicyOf(db), nodes, db.nodes, 0, None)
    ensures RecordsFor(r, h, list.Entries(), ChainOf(PolicyOf(db), nodes, apex))
    ensures apex < |db.nodes| && Has(db.nodes[apex], NSEC3PARAM)
  {
    ghost var p := PolicyOf(db);
    ghost var cut :| Ready(true, p, nodes, db.nodes, |nodes|, cut);
    OnlyApex(nodes, db.nodes, apex, p, cut);
    ReadyAgain(p, nodes, db.nodes, cut, apex);
    hide ChainOf, RecordsFor, InOrder, Listed, Ready, Apex, Settled, DsView;
    db.AddNsec3Param(apex);
    r := MakeRecords(db, list, h, nodes, apex);
  }

  // What nsec3ify leaves: the sorted entries for the chain, without duplicates,
  // the records for the chain, an NSEC3PARAM set at the apex, and a database of
  // settled nodes in which a walk finds the same chain again.
  ghost predicate ChainMade(p: Policy, nodes: seq<Node>, apex: nat, h: Name -> seq<byte>, z: seq<Node>, entries: seq<Entry>, r: Records) {
    var chain := ChainOf(p, nodes, apex);
    && InOrder(entries) && NoDuplicate(entries) && multiset(entries) == multiset(Collected(h, nodes, chain))
    && EntriesOf(h, entries, chain) && RecordsFor(r, h, entries, chain)
    && Ready(false, p, nodes, z, 0, None)
    && apex < |z| && Has(z[apex], NSEC3PARAM)
  }

  // nsec3ify. It fails without -u on a zone with an NSEC chain, and when two
  // different names of the chain collide; otherwise it makes a record for each
  // name of the chain and for nothing else.
  method Nsec3ify(db: Db, list: List, h: Name -> seq<byte>, ghost apex: nat) returns (result: Outcome, r: Records)
    requires db.nsec3 && ProperNodes(db.nodes) && Apex(PolicyOf(db), db.nodes, apex)
    requires list.Valid() && list.Entries() == [] && FixedSize(h, list.length)
    modifies db`nodes, list, list.hashbuf
    ensures list.Valid()
    ensures result.NeedsUpdate? <==> !db.updateChain && !Free(NSEC, old(db.nodes)[apex].sets)
    ensures result.NeedsUpdate? ==> db.nodes == old(db.nodes)
    ensures result.DuplicateHash? <==> !result.NeedsUpdate? && Collision(h, ChainOf(PolicyOf(db), old(db.nodes), apex))
    ensures result.Made? ==> ChainMade(PolicyOf(db), old(db.nodes), apex, h, db.nodes, list.Entries(), r)
  {
    ghost var nodes := db.nodes;
    hide *;
    r := map[];
    NothingToRemove(NSEC, nodes[apex].sets);
    var ok := Collect(db, list, h, apex);
    if !ok {
      return NeedsUpdate, r;
    }
    result, r := Finish(db, list, h, nodes, apex);
  }

  // What follows the first walk.
  method Finish(db: Db, list: List, h: Name -> seq<byte>, ghost nodes: seq<Node>, ghost apex: nat) returns (result: Outcome, r: Records)
    requires db.nsec3 && Apex(PolicyOf(db), nodes, apex)
    requires exists cut :: Ready(true, PolicyOf(db), nodes, db.nodes, |nodes|, cut)
    requires list.Valid() && FixedSize(h, list.length) && list.Entries() == Collected(h, nodes, ChainOf(PolicyOf(db), nodes, apex))
    modifies db`nodes, list.hashbuf
    ensures list.Valid() && !result.NeedsUpdate?
    ensures result.DuplicateHash? <==> Collision(h, ChainOf(PolicyOf(db), nodes, apex))
    ensures result.Made? ==> ChainMade(PolicyOf(db), nodes, apex, h, db.nodes, list.Entries(), r)
  {
    ghost var p, chain := PolicyOf(db), ChainOf(PolicyOf(db), nodes, apex);
    RealsCollected(h, nodes, chain);
    ghost var entries := Collected(h, nodes, chain);
    hide ChainOf, RecordsFor, InOrder, NoDuplicate, EntriesOf, Listed, Collision, Reals, Collected, Ready, Nsec.Edited, FixedSize, Hashes, Apex;
    r := map[];
    var dup := SortAndCheck(list, h, chain);
    if dup {
      return DuplicateHash, r;
    }
    r := Complete(db, list, h, nodes, apex);
    return Made, r;
  }

  lemma OnlyApex(nodes: seq<Node>, z: seq<Node>, apex: nat, p: Policy, cut: Option<Name>)
    requires Ready(true, p, nodes, z, |nodes|, cut) && Apex(p, nodes, apex)
    ensures apex < |z| && z[apex].name == p.origin
    ensures forall k :: 0 <= k < |z| && z[k].name == p.origin ==> k == apex
  {
    forall k | 0 <= k < |z|
      ensures z[k].name == nodes[k].name
      ensures k != apex ==> nodes[k].name != p.origin
    {
      assert Alike(nodes[k], z[k]);
      if k != apex {
        NamesDiffer(nodes, k, apex);
      }
    }
  }

  // The records form a single ring through all the hashes of the chain, in
  // ascending order.
  lemma RecordRing(r: Records, h: Name -> seq<byte>, entries: seq<Entry>, names: seq<Name>, t: nat)
    requires InOrder(entries) && NoDuplicate(entries) && EntriesOf(h, entries, names) && RecordsFor(r, h, entries, names)
    requires t < |Picks(RealMarks(entries), 0)|
    ensures var v := Picks(RealMarks(entries), 0);
            && Key(entries[v[t]]) in r
            && r[Key(entries[v[t]])] == Key(entries[v[Base.After(t, |v|)]])
            && (t + 1 < |v| ==>
                  var a, b := Key(entries[v[t]]), Key(entries[v[t + 1]]);
                  Smaller(a, b) && (|a| == |b| ==> exists d: nat :: SmallerAt(a, b, d)))
  {
    hide Picks;
    var v := Picks(RealMarks(entries), 0);
    var e := entries[v[t]];
    assert e in Hashes(h, names);
    var i :| 0 <= i < |names| && Hashes(h, names)[i] == e;
    assert Key(e) == h(names[i]);
    var k :| 0 <= k < |entries| && Successor(entries, Key(e), k) && r[Key(e)] == Key(entries[k]);
    HashRing(entries, t, k);
  }

  // Every record is on the ring.
  lemma RecordOnRing(r: Records, h: Name -> seq<byte>, entries: seq<Entry>, names: seq<Name>, hash: seq<byte>)
    requires EntriesOf(h, entries, names) && RecordsFor(r, h, entries, names) && hash in r
    ensures exists t :: 0 <= t < |Picks(RealMarks(entries), 0)| && Key(entries[Picks(RealMarks(entries), 0)[t]]) == hash
  {
    hide Picks;
    var v := Picks(RealMarks(entries), 0);
    var i :| 0 <= i < |names| && h(names[i]) == hash;
    var e := MakeEntry(hash, false);
    assert Hashes(h, names)[i] == e;
    var m :| 0 <= m < |entries| && entries[m] == e;
    var t := Picked(RealMarks(entries), 0, m);
  }
}
