// The NSEC chain of a zone (nsecify in bin/dnssec/dnssec-signzone.c).
module Nsec {
  import opened Base
  import opened Names
  import opened Zone
  import opened ZoneDb

  // ------------------------------------------------------------ the chain

  // next is the name of the first visible node after k, or the origin.
  ghost predicate Points(origin: Name, nodes: seq<Node>, k: nat, next: Name) {
    || (exists j :: k < j < |nodes| && Visible(origin, nodes, j) && nodes[j].name == next
                    && forall m :: k < m < j ==> !Visible(origin, nodes, m))
    || (next == origin && forall m :: k < m < |nodes| ==> !Visible(origin, nodes, m))
  }

  // Among the nodes lo to hi of z, those visible in the zone have an NSEC
  // record to the next visible name and the others have none.
  ghost predicate Chained(origin: Name, nodes: seq<Node>, z: seq<Node>, lo: nat, hi: nat)
    requires |nodes| == |z|
  {
    forall k :: lo <= k < hi && k < |z| ==>
      && (Has(z[k], NSEC) <==> Visible(origin, nodes, k))
      && (Visible(origin, nodes, k) ==> Points(origin, nodes, k, z[k].next))
  }

  ghost function Marks(origin: Name, nodes: seq<Node>): seq<bool> {
    seq(|nodes|, i requires 0 <= i < |nodes| => Visible(origin, nodes, i))
  }

  // The visible nodes, in canonical order.
  ghost function VisibleNodes(origin: Name, nodes: seq<Node>, apex: nat): (v: seq<nat>)
    ensures forall t :: 0 <= t < |v| ==> apex <= v[t] < |nodes| && Visible(origin, nodes, v[t])
    ensures forall s, t :: 0 <= s < t < |v| ==> v[s] < v[t]
    ensures apex < |nodes| && Visible(origin, nodes, apex) ==> v != [] && v[0] == apex
  {
    assert forall m :: 0 <= m < |nodes| ==> Marks(origin, nodes)[m] == Visible(origin, nodes, m);
    Picks(Marks(origin, nodes), apex)
  }

  lemma NothingVisibleBetween(origin: Name, nodes: seq<Node>, apex: nat, t: nat, m: nat)
    requires var v := VisibleNodes(origin, nodes, apex);
             t < |v| && v[t] < m < |nodes| && (t + 1 < |v| ==> m < v[t + 1])
    ensures !Visible(origin, nodes, m)
  {
    hide Picks, Visible;
    NoneBetween(Marks(origin, nodes), apex, t, m);
  }

  lemma NextPoints(origin: Name, nodes: seq<Node>, apex: nat, t: nat, next: Name)
    requires apex < |nodes| && nodes[apex].name == origin && Visible(origin, nodes, apex)
    requires t < |VisibleNodes(origin, nodes, apex)| && Points(origin, nodes, VisibleNodes(origin, nodes, apex)[t], next)
    ensures var v := VisibleNodes(origin, nodes, apex);
            next == nodes[v[After(t, |v|)]].name
  {
    hide Picks, Visible, VisibleNodes;
    var v := VisibleNodes(origin, nodes, apex);
    forall m | v[t] < m < |nodes| && (t + 1 < |v| ==> m < v[t + 1])
      ensures !Visible(origin, nodes, m)
    {
      NothingVisibleBetween(origin, nodes, apex, t, m);
    }
    if t + 1 < |v| {
      assert v[t] < v[t + 1] && Visible(origin, nodes, v[t + 1]);
    }
  }

  // The chain is one ring: each visible name leads to the next one in canonical
  // order, and the last one to the first, which is the origin.
  lemma Ring(origin: Name, nodes: seq<Node>, z: seq<Node>, apex: nat, t: nat)
    requires Sorted(nodes) && |nodes| == |z| && apex < |nodes| && nodes[apex].name == origin
    requires Active(nodes[apex].sets)
    requires Chained(origin, nodes, z, apex, |nodes|)
    ensures var v := VisibleNodes(origin, nodes, apex);
            && |v| > 0 && v[0] == apex
            && (t < |v| ==> z[v[t]].next == nodes[v[After(t, |v|)]].name)
  {
    ApexVisible(origin, nodes, apex);
    hide Picks, Visible, VisibleNodes, Points, Active, Sorted;
    var v := VisibleNodes(origin, nodes, apex);
    if t < |v| {
      assert Visible(origin, nodes, v[t]);
      NextPoints(origin, nodes, apex, t, z[v[t]].next);
    }
  }

  lemma ApexVisible(origin: Name, nodes: seq<Node>, apex: nat)
    requires Sorted(nodes) && apex < |nodes| && nodes[apex].name == origin && Active(nodes[apex].sets)
    ensures Visible(origin, nodes, apex)
  {
  }

  // Nodes before the apex are not in the zone.
  lemma BeforeApex(origin: Name, nodes: seq<Node>, apex: nat, k: nat)
    requires Sorted(nodes) && k < apex < |nodes| && nodes[apex].name == origin
    ensures !IsSubdomain(nodes[k].name, origin)
  {
    assert Less(NamesOf(nodes)[k], NamesOf(nodes)[apex]);
    LessTotal(nodes[k].name, origin);
    if IsSubdomain(nodes[k].name, origin) && nodes[k].name != origin {
      BelowIsLater(nodes[k].name, origin);
    }
  }

  // ------------------------------------------------------------ the edits

  // z is the zone nodes after edits that walks do not notice: all data but DS
  // and NSEC3PARAM sets is still there, and there is no other.
  ghost predicate Edited(nodes: seq<Node>, z: seq<Node>) {
    && AlikeAll(nodes, z) && ProperNodes(z)
    && forall i :: 0 <= i < |nodes| ==> SameContents(nodes[i].sets, z[i].sets)
  }

  ghost predicate SameContents(a: set<RRset>, b: set<RRset>) {
    forall s :: Data(s) && s.rtype != DS && s.rtype != NSEC3PARAM ==> (s in a <==> s in b)
  }

  lemma EditSets(nodes: seq<Node>, z: seq<Node>, i: nat, n: Node)
    requires Edited(nodes, z) && i < |z| && n.name == z[i].name
    requires SameData(z[i].sets, n.sets) && ProperSets(n.sets)
    ensures Edited(nodes, z[i := n])
  {
  }

  lemma EditDs(nodes: seq<Node>, z: seq<Node>, i: nat, onFile: bool)
    requires Edited(nodes, z) && i < |z| && Has(z[i], NS)
    ensures Edited(nodes, z[i := z[i].(sets := WithDs(onFile, z[i].sets))])
  {
    var sets := WithDs(onFile, z[i].sets);
    assert RRset(NS, 0) in sets && Data(RRset(NS, 0));
    assert RRset(NS, 0) in z[i].sets;
  }

  // ----------------------------------------------- what becomes of a node

  // The sets of node k once the walk has looked at it.
  ghost function Passed(origin: Name, nodes: seq<Node>, k: nat): set<RRset>
    requires k < |nodes|
  {
    var cleaned := Cleaned(false, nodes[k].sets);
    if Visible(origin, nodes, k) || !Active(nodes[k].sets) then cleaned
    else WithoutType(NSEC, WithoutSigs(false, false, cleaned))
  }

  // What the walk makes of the sets of a visible node, its NSEC record aside.
  ghost function Prepared(db: Db, n: Node, sets: set<RRset>): set<RRset> {
    var s := if n.name == db.origin then Cleaned(false, WithoutType(NSEC3PARAM, sets)) else sets;
    if !IsDelegation(db.origin, n) then s
    else if db.generateDs then WithDs(n.name in db.dsFile, WithoutSigs(false, true, s))
    else WithoutSigs(false, true, s)
  }

  ghost function Final(db: Db, nodes: seq<Node>, apex: nat, k: nat): set<RRset>
    requires k < |nodes|
  {
    if !Visible(db.origin, nodes, k) then Passed(db.origin, nodes, k)
    else Prepared(db, nodes[k], if k == apex then nodes[k].sets else Passed(db.origin, nodes, k)) + {RRset(NSEC, 0)}
  }

  // The sets of node k while the walk is at node it.
  ghost function SetsAt(db: Db, nodes: seq<Node>, apex: nat, it: nat, k: nat): set<RRset>
    requires k < |nodes|
  {
    if k < apex || it < k || k == it == apex then nodes[k].sets
    else if k < it then Final(db, nodes, apex, k)
    else Passed(db.origin, nodes, k)
  }

  ghost predicate Progress(db: Db, nodes: seq<Node>, z: seq<Node>, apex: nat, it: nat) {
    |z| == |nodes| && forall k :: 0 <= k < |nodes| ==> z[k].sets == SetsAt(db, nodes, apex, it, k)
  }

  // A signature may stay when there is a set of the type that it covers.
  ghost predicate Covering(before: set<RRset>, covers: nat) {
    RRset(RRSIG, covers) in before && exists t :: t in before && t.rtype == covers
  }

  // What a name of the zone holds in the end. Its own NSEC record and its data
  // are there. With -g the DS set at a delegation is the one on file, and the
  // apex has no NSEC3PARAM. Signatures stay where the data stays, but at a
  // delegation only those of DS and NSEC.
  ghost predicate Named(db: Db, n: Node, after: set<RRset>) {
    var loses := IsDelegation(db.origin, n) && db.generateDs && n.name !in db.dsFile;
    && RRset(NSEC, 0) in after
    && (RRset(DS, 0) in after <==> if IsDelegation(db.origin, n) && db.generateDs then n.name in db.dsFile else Has(n, DS))
    && (forall s: RRset :: s.rtype != RRSIG && s.rtype != NSEC && s != RRset(DS, 0) ==>
          (s in after <==> s in n.sets && !(n.name == db.origin && s.rtype == NSEC3PARAM)))
    && (forall c :: RRset(RRSIG, c) in after <==>
          && Covering(n.sets, c) && !(n.name == db.origin && c == NSEC3PARAM)
          && (IsDelegation(db.origin, n) ==> c == NSEC || c == DS) && !(loses && c == DS))
  }

  // What any other node holds in the end: its data, without NSEC and signatures.
  ghost predicate Unnamed(n: Node, after: set<RRset>) {
    forall s :: s in after <==> s in n.sets && Active(n.sets) && s.rtype != RRSIG && s.rtype != NSEC
  }

  ghost predicate Finished(db: Db, nodes: seq<Node>, z: seq<Node>, k: nat)
    requires k < |nodes| == |z|
  {
    if Visible(db.origin, nodes, k) then Named(db, nodes[k], z[k].sets) else Unnamed(nodes[k], z[k].sets)
  }

  lemma FinalUnnamed(origin: Name, nodes: seq<Node>, k: nat)
    requires k < |nodes| && ProperSets(nodes[k].sets) && !Visible(origin, nodes, k)
    ensures Unnamed(nodes[k], Passed(origin, nodes, k))
  {
    hide Visible;
    assert Active(nodes[k].sets) ==> forall s :: s in nodes[k].sets && s.rtype != RRSIG ==> s in Cleaned(false, nodes[k].sets);
  }

  lemma PreparedApex(db: Db, n: Node)
    requires ProperSets(n.sets) && n.name == db.origin && Has(n, SOA)
    ensures Named(db, n, Prepared(db, n, n.sets) + {RRset(NSEC, 0)})
  {
    var sets := WithoutType(NSEC3PARAM, n.sets);
    assert RRset(SOA, 0) in sets && Data(RRset(SOA, 0));
    forall c | c != NSEC3PARAM
      ensures Covering(n.sets, c) <==> Covering(sets, c)
    {
      if t :| t in n.sets && t.rtype == c && RRset(RRSIG, c) in n.sets {
        assert t.rtype != RRSIG ==> t in sets;
        assert RRset(RRSIG, c) in sets;
      }
    }
  }

  lemma PreparedName(db: Db, n: Node)
    requires ProperSets(n.sets) && n.name != db.origin && Active(n.sets)
    ensures Named(db, n, Prepared(db, n, Cleaned(false, n.sets)) + {RRset(NSEC, 0)})
  {
  }

  lemma FinalMeans(db: Db, nodes: seq<Node>, z: seq<Node>, apex: nat, k: nat)
    requires Sorted(nodes) && ProperNodes(nodes) && Progress(db, nodes, z, apex, |nodes|)
    requires apex <= k < |nodes| && nodes[apex].name == db.origin && Has(nodes[apex], SOA)
    ensures Finished(db, nodes, z, k)
  {
    hide Named, Unnamed, Prepared, Cleaned, Visible, Sorted;
    assert z[k].sets == SetsAt(db, nodes, apex, |nodes|, k);
    if !Visible(db.origin, nodes, k) {
      FinalUnnamed(db.origin, nodes, k);
    } else if k == apex {
      PreparedApex(db, nodes[k]);
    } else {
      NamesDiffer(nodes, k, apex);
      VisibleActive(db.origin, nodes, k);
      PreparedName(db, nodes[k]);
    }
  }

  lemma VisibleActive(origin: Name, nodes: seq<Node>, k: nat)
    requires k < |nodes| && Visible(origin, nodes, k)
    ensures Active(nodes[k].sets)
  {
  }

  // ------------------------------------------------------------- the walk

  // Looks from node start for the next name of the chain, cleaning the nodes
  // passed over.
  method FindNext(db: Db, start: nat, cut: Option<Name>, ghost nodes: seq<Node>) returns (it: nat)
    requires !db.nsec3 && Sorted(nodes) && Edited(nodes, db.nodes) && start <= |nodes|
    requires CutKnown(db.origin, nodes, start, cut)
    requires cut.Some? ==> forall k :: start <= k < |nodes| ==> nodes[k].name != cut.value
    requires forall k :: start <= k < |nodes| ==> db.nodes[k].sets == nodes[k].sets
    modifies db`nodes
    ensures Edited(nodes, db.nodes) && start <= it <= |nodes|
    ensures forall k :: 0 <= k < start ==> db.nodes[k] == old(db.nodes)[k]
    ensures forall k :: start <= k <= it && k < |nodes| ==> db.nodes[k].sets == Passed(db.origin, nodes, k)
    ensures forall k :: it < k < |nodes| ==> db.nodes[k].sets == nodes[k].sets
    ensures forall k :: start <= k < it ==> !Visible(db.origin, nodes, k) && !Has(db.nodes[k], NSEC)
    ensures it < |nodes| ==> Visible(db.origin, nodes, it)
    ensures CutKnown(db.origin, nodes, it, cut)
  {
    hide CutKnown, Visible, Edited, Passed;
    SameLength(nodes, db.nodes);
    it := start;
    while it < |db.nodes|
      invariant Edited(nodes, db.nodes) && |db.nodes| == |nodes| && start <= it <= |nodes|
      invariant forall k :: 0 <= k < start ==> db.nodes[k] == old(db.nodes)[k]
      invariant forall k :: start <= k < it ==> !Visible(db.origin, nodes, k) && !Has(db.nodes[k], NSEC)
      invariant forall k :: start <= k < it ==> db.nodes[k].sets == Passed(db.origin, nodes, k)
      invariant forall k :: it <= k < |nodes| ==> db.nodes[k].sets == nodes[k].sets
      invariant CutKnown(db.origin, nodes, it, cut)
    {
      var take := LookAt(db, it, cut, nodes);
      if take {
        break;
      }
      CutKept(db.origin, nodes, it, cut);
      it := it + 1;
    }
  }

  lemma SameLength(nodes: seq<Node>, z: seq<Node>)
    requires Edited(nodes, z)
    ensures |nodes| == |z|
  {
  }

  // A name that is not visible does not change the remembered cut.
  lemma CutKept(origin: Name, nodes: seq<Node>, i: nat, cut: Option<Name>)
    requires Sorted(nodes) && i < |nodes| && CutKnown(origin, nodes, i, cut) && !Visible(origin, nodes, i)
    requires cut.Some? ==> cut.value != nodes[i].name
    ensures CutKnown(origin, nodes, i + 1, cut)
  {
    CutDecides(origin, nodes, i, cut);
    CutStep(origin, nodes, i, cut);
    hide CutKnown, Occluded;
    assert Data(RRset(NS, 0)) && Data(RRset(DNAME, 0));
  }

  // One node: take says whether it is the next name of the chain; if not, it
  // loses its NSEC record.
  method LookAt(db: Db, it: nat, cut: Option<Name>, ghost nodes: seq<Node>) returns (take: bool)
    requires !db.nsec3 && Sorted(nodes) && Edited(nodes, db.nodes) && it < |nodes|
    requires CutKnown(db.origin, nodes, it, cut) && (cut.Some? ==> cut.value != nodes[it].name)
    requires db.nodes[it].sets == nodes[it].sets
    modifies db`nodes
    ensures Edited(nodes, db.nodes) && |db.nodes| == |nodes|
    ensures forall k :: 0 <= k < |nodes| && k != it ==> db.nodes[k] == old(db.nodes)[k]
    ensures take <==> Visible(db.origin, nodes, it)
    ensures !take ==> !Has(db.nodes[it], NSEC)
    ensures db.nodes[it].sets == Passed(db.origin, nodes, it)
  {
    hide CutKnown, Occluded;
    CutDecides(db.origin, nodes, it, cut);
    assert Alike(nodes[it], db.nodes[it]);
    CleanedSameData(false, db.nodes[it].sets);
    EditSets(nodes, db.nodes, it, db.nodes[it].(sets := Cleaned(false, db.nodes[it].sets)));
    var active := db.ActiveNode(it);
    if !active {
      return false;
    }
    var nextname := db.nodes[it].name;
    if !IsSubdomain(nextname, db.origin) || (cut.Some? && IsSubdomain(nextname, cut.value)) {
      db.RemoveSigs(it, false);
      var ok := db.RemoveRecords(it, NSEC, false);
      return false;
    }
    return true;
  }

  lemma EditApex(nodes: seq<Node>, z: seq<Node>, i: nat)
    requires Edited(nodes, z) && i < |z| && Has(z[i], SOA)
    ensures Edited(nodes, z[i := z[i].(sets := WithoutType(NSEC3PARAM, z[i].sets))])
  {
    assert Data(RRset(SOA, 0)) && RRset(SOA, 0) in WithoutType(NSEC3PARAM, z[i].sets);
  }

  // Prepares the node at cur, which is in the zone and not occluded, and
  // remembers it if it is a cut.
  method Visit(db: Db, cur: nat, cut: Option<Name>, ghost nodes: seq<Node>) returns (ok: bool, cut': Option<Name>)
    requires !db.nsec3 && Edited(nodes, db.nodes) && cur < |db.nodes|
    requires IsSubdomain(nodes[cur].name, db.origin) && !(cut.Some? && IsSubdomain(nodes[cur].name, cut.value))
    requires nodes[cur].name == db.origin ==> Has(db.nodes[cur], SOA)
    modifies db`nodes
    ensures ok <==> db.updateChain || nodes[cur].name != db.origin
                    || WithoutType(NSEC3PARAM, old(db.nodes)[cur].sets) == old(db.nodes)[cur].sets
    ensures Edited(nodes, db.nodes)
    ensures forall k :: 0 <= k < |nodes| && k != cur ==> db.nodes[k] == old(db.nodes)[k]
    ensures ok ==> cut' == NextCut(db.origin, nodes[cur], cut)
    ensures ok ==> db.nodes[cur].sets == Prepared(db, nodes[cur], old(db.nodes)[cur].sets)
    ensures !ok ==> db.nodes == old(db.nodes)
  {
    cut', ok := cut, true;
    assert Alike(nodes[cur], db.nodes[cur]);
    if db.nodes[cur].name == db.origin {
      EditApex(nodes, db.nodes, cur);
      ok := db.RemoveRecords(cur, NSEC3PARAM, true);
      if !ok {
        return;
      }
      CleanedSameData(false, db.nodes[cur].sets);
      EditSets(nodes, db.nodes, cur, db.nodes[cur].(sets := Cleaned(false, db.nodes[cur].sets)));
      var active := db.ActiveNode(cur);
      assert Alike(nodes[cur], db.nodes[cur]);
    }
    if IsDelegation(db.origin, db.nodes[cur]) {
      cut' := Some(db.nodes[cur].name);
      EditSets(nodes, db.nodes, cur, db.nodes[cur].(sets := WithoutSigs(false, true, db.nodes[cur].sets)));
      db.RemoveSigs(cur, true);
      if db.generateDs {
        EditDs(nodes, db.nodes, cur, db.nodes[cur].name in db.dsFile);
        db.AddDs(cur);
      }
    } else if Has(db.nodes[cur], DNAME) {
      cut' := Some(db.nodes[cur].name);
    }
  }

  // The chain after the record at cur is made.
  lemma Extend(origin: Name, nodes: seq<Node>, z: seq<Node>, z': seq<Node>, apex: nat, cur: nat, it: nat)
    requires |nodes| == |z| == |z'| && apex <= cur < it <= |nodes|
    requires Chained(origin, nodes, z, apex, cur) && Visible(origin, nodes, cur)
    requires forall k :: 0 <= k < cur ==> z'[k] == z[k]
    requires forall k :: cur < k < it ==> !Visible(origin, nodes, k) && !Has(z'[k], NSEC)
    requires it < |nodes| ==> Visible(origin, nodes, it)
    requires Has(z'[cur], NSEC) && z'[cur].next == if it < |nodes| then nodes[it].name else origin
    ensures Chained(origin, nodes, z', apex, it)
  {
    assert Points(origin, nodes, cur, z'[cur].next);
  }

  // What holds whenever the walk is at node it, about to make its NSEC record:
  // every node passed is done, and the last one points here.
  ghost predicate Walking(origin: Name, nodes: seq<Node>, z: seq<Node>, apex: nat, it: nat, cut: Option<Name>)
    requires |nodes| == |z|
  {
    && it <= |nodes| && Chained(origin, nodes, z, apex, it)
    && CutKnown(origin, nodes, it, cut)
    && (cut.Some? ==> forall k :: it <= k < |nodes| ==> nodes[k].name != cut.value)
    && (apex <= it < |nodes| ==> Visible(origin, nodes, it))
  }

  // The walk goes on from cur with the cut that Visit leaves.
  lemma NewCutPassed(origin: Name, nodes: seq<Node>, cur: nat, cut: Option<Name>)
    requires Sorted(nodes) && cur < |nodes|
    requires cut.Some? ==> forall k :: cur <= k < |nodes| ==> nodes[k].name != cut.value
    ensures var cut' := NextCut(origin, nodes[cur], cut);
            cut'.Some? ==> forall k :: cur < k < |nodes| ==> nodes[k].name != cut'.value
  {
    forall k | cur < k < |nodes|
      ensures nodes[k].name != nodes[cur].name
    {
      NamesDiffer(nodes, k, cur);
    }
  }

  lemma Untouched(db: Db, nodes: seq<Node>, z: seq<Node>, apex: nat, cur: nat)
    requires Progress(db, nodes, z, apex, cur) && apex <= cur < |nodes|
    ensures |z| == |nodes|
    ensures z[cur].sets == if cur == apex then nodes[cur].sets else Passed(db.origin, nodes, cur)
    ensures forall k :: cur < k < |nodes| ==> z[k].sets == nodes[k].sets
  {
    assert z[cur].sets == SetsAt(db, nodes, apex, cur, cur);
  }

  lemma Advance(db: Db, nodes: seq<Node>, z: seq<Node>, z': seq<Node>, apex: nat, cur: nat, it: nat)
    requires Progress(db, nodes, z, apex, cur) && |z'| == |nodes| && apex <= cur < it <= |nodes|
    requires forall k :: 0 <= k < cur ==> z'[k] == z[k]
    requires Visible(db.origin, nodes, cur) && z'[cur].sets == Prepared(db, nodes[cur], z[cur].sets) + {RRset(NSEC, 0)}
    requires forall k :: cur < k < it ==> !Visible(db.origin, nodes, k)
    requires forall k :: cur < k <= it && k < |nodes| ==> z'[k].sets == Passed(db.origin, nodes, k)
    requires forall k :: it < k < |nodes| ==> z'[k].sets == nodes[k].sets
    ensures Progress(db, nodes, z', apex, it)
  {
    hide Visible, Passed, Prepared;
    Untouched(db, nodes, z, apex, cur);
    forall k | 0 <= k < cur
      ensures z'[k].sets == SetsAt(db, nodes, apex, it, k)
    {
      assert z[k].sets == SetsAt(db, nodes, apex, cur, k);
    }
  }

  // One turn of the walk: makes the NSEC record of the visible node at cur and
  // moves on to the next visible node.
  method Link(db: Db, cur: nat, cut: Option<Name>, ghost nodes: seq<Node>, ghost apex: nat)
    returns (ok: bool, it: nat, cut': Option<Name>)
    requires !db.nsec3 && Sorted(nodes) && Edited(nodes, db.nodes) && apex <= cur < |nodes|
    requires Walking(db.origin, nodes, db.nodes, apex, cur, cut)
    requires nodes[cur].name == db.origin ==> Has(db.nodes[cur], SOA)
    requires Progress(db, nodes, db.nodes, apex, cur)
    modifies db`nodes
    ensures Edited(nodes, db.nodes)
    ensures forall k :: 0 <= k < cur ==> db.nodes[k] == old(db.nodes)[k]
    ensures ok <==> db.updateChain || nodes[cur].name != db.origin
                    || WithoutType(NSEC3PARAM, old(db.nodes)[cur].sets) == old(db.nodes)[cur].sets
    ensures ok ==> cur < it && Walking(db.origin, nodes, db.nodes, apex, it, cut')
    ensures ok ==> Progress(db, nodes, db.nodes, apex, it)
    ensures !ok ==> db.nodes == old(db.nodes)
  {
    hide CutKnown, Occluded, Chained, Passed, Prepared, Progress, SameContents, Sorted, NextCut;
    CutStep(db.origin, nodes, cur, cut);
    NewCutPassed(db.origin, nodes, cur, cut);
    CutDecides(db.origin, nodes, cur, cut);
    Untouched(db, nodes, db.nodes, apex, cur);
    it := cur;
    ok, cut' := Visit(db, cur, cut, nodes);
    if !ok {
      return;
    }
    it := FindNext(db, cur + 1, cut', nodes);
    assert it < |nodes| ==> Alike(nodes[it], db.nodes[it]);
    var next := if it < |db.nodes| then db.nodes[it].name else db.origin;
    EditSets(nodes, db.nodes, cur, db.nodes[cur].(sets := db.nodes[cur].sets + {RRset(NSEC, 0)}, next := next));
    db.BuildNsec(cur, next);
    Extend(db.origin, nodes, old(db.nodes), db.nodes, apex, cur, it);
    Advance(db, nodes, old(db.nodes), db.nodes, apex, cur, it);
  }

  // nsecify: fails only when an NSEC3 zone would be changed to NSEC without -u.
  method Nsecify(db: Db, ghost apex: nat) returns (ok: bool)
    requires !db.nsec3 && Sorted(db.nodes) && ProperNodes(db.nodes)
    requires apex < |db.nodes| && db.nodes[apex].name == db.origin && Has(db.nodes[apex], SOA)
    modifies db`nodes
    ensures ok <==> db.updateChain || Free(NSEC3PARAM, old(db.nodes)[apex].sets)
    ensures Edited(old(db.nodes), db.nodes)
    ensures forall k :: 0 <= k < apex ==> db.nodes[k] == old(db.nodes)[k]
    ensures ok ==> Chained(db.origin, old(db.nodes), db.nodes, apex, |db.nodes|)
    ensures ok ==> forall k :: apex <= k < |db.nodes| ==> Finished(db, old(db.nodes), db.nodes, k)
    ensures !ok ==> db.nodes == old(db.nodes)
  {
    ghost var nodes := db.nodes;
    var it, done, cut := 0, false, None;
    NothingToRemove(NSEC3PARAM, nodes[apex].sets);
    ApexVisible(db.origin, nodes, apex);
    while !done
      invariant Edited(nodes, db.nodes) && Walking(db.origin, nodes, db.nodes, apex, it, cut)
      invariant Progress(db, nodes, db.nodes, apex, it)
      invariant done <==> it == |nodes|
      invariant it <= apex ==> db.nodes == nodes && cut == None
      invariant forall k :: 0 <= k < apex ==> db.nodes[k] == nodes[k]
      invariant it > apex ==> db.updateChain || WithoutType(NSEC3PARAM, nodes[apex].sets) == nodes[apex].sets
      decreases |nodes| - it
    {
      assert Alike(nodes[it], db.nodes[it]);
      if !IsSubdomain(db.nodes[it].name, db.origin) {
        CutStep(db.origin, nodes, it, cut);
        it := it + 1;
      } else {
        if it < apex {
          BeforeApex(db.origin, nodes, apex, it);
        } else if it > apex {
          NamesDiffer(nodes, it, apex);
        }
        hide Walking;
        ok, it, cut := Link(db, it, cut, nodes, apex);
        if !ok {
          return;
        }
      }
      done := it == |db.nodes|;
    }
    forall k | apex <= k < |nodes|
      ensures Finished(db, nodes, db.nodes, k)
    {
      FinalMeans(db, nodes, db.nodes, apex, k);
    }
    return true;
  }
}
