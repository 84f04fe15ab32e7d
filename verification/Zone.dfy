// The zone database as dnssec-signzone sees it: nodes in canonical order, each
// with the RRsets that exist at it (bin/dnssec/dnssec-signzone.c).
module Zone {
  import opened Base
  import opened Names

  const NS := 2
  const SOA := 6
  const DNAME := 39
  const DS := 43
  const RRSIG := 46
  const NSEC := 47
  const NSEC3 := 50
  const NSEC3PARAM := 51

  // An RRset is known by its type and, for signatures, the type it covers.
  datatype RRset = RRset(rtype: nat, covers: nat)

  // next is the next name of the NSEC record, when there is one.
  datatype Node = Node(name: Name, sets: set<RRset>, next: Name)

  predicate Has(n: Node, rtype: nat) {
    RRset(rtype, 0) in n.sets
  }

  // Anything but NSEC, NSEC3 and RRSIG makes a node active.
  predicate Data(s: RRset) {
    s.rtype != NSEC && s.rtype != NSEC3 && s.rtype != RRSIG
  }

  predicate Active(sets: set<RRset>) {
    exists s :: s in sets && Data(s)
  }

  predicate IsDelegation(origin: Name, n: Node) {
    n.name != origin && Has(n, NS)
  }

  // Names below a delegation or a DNAME are not part of the zone's contents.
  predicate IsCut(origin: Name, n: Node) {
    IsDelegation(origin, n) || Has(n, DNAME)
  }

  predicate Secure(origin: Name, n: Node) {
    n.name != origin && Has(n, DS)
  }

  // --------------------------------------------------- what edits may touch

  // The same node to a walk over the zone: edits to signatures and to the
  // denial records do not change what the walk asks for.
  ghost predicate Alike(a: Node, b: Node) {
    && a.name == b.name && (Active(a.sets) <==> Active(b.sets))
    && (Has(a, NS) <==> Has(b, NS)) && (Has(a, DNAME) <==> Has(b, DNAME))
  }

  ghost predicate AlikeAll(a: seq<Node>, b: seq<Node>) {
    |a| == |b| && forall i :: 0 <= i < |a| ==> Alike(a[i], b[i])
  }

  // Edits that only add or remove NSEC, NSEC3 and RRSIG sets.
  ghost predicate SameData(a: set<RRset>, b: set<RRset>) {
    forall s :: Data(s) ==> (s in a <==> s in b)
  }

  // ---------------------------------------------------- visible names

  ghost function NamesOf(nodes: seq<Node>): (r: seq<Name>)
    ensures |r| == |nodes| && forall i :: 0 <= i < |nodes| ==> r[i] == nodes[i].name
  {
    seq(|nodes|, i requires 0 <= i < |nodes| => nodes[i].name)
  }

  ghost predicate Sorted(nodes: seq<Node>) {
    Ascending(NamesOf(nodes))
  }

  lemma NamesDiffer(nodes: seq<Node>, i: nat, j: nat)
    requires Sorted(nodes) && i < |nodes| && j < |nodes| && i != j
    ensures nodes[i].name != nodes[j].name
  {
    AscendingDistinct(NamesOf(nodes));
    assert NamesOf(nodes)[i] != NamesOf(nodes)[j];
  }

  // Node j hides node k: it is a cut of the zone strictly above k.
  ghost predicate Hides(origin: Name, nodes: seq<Node>, j: nat, k: nat)
    requires j < |nodes| && k < |nodes|
  {
    IsSubdomain(nodes[j].name, origin) && IsCut(origin, nodes[j]) && ProperlyBelow(nodes[k].name, nodes[j].name)
  }

  ghost predicate Occluded(origin: Name, nodes: seq<Node>, k: nat)
    requires k < |nodes|
  {
    exists j :: 0 <= j < |nodes| && Hides(origin, nodes, j, k)
  }

  // The names that the zone is authoritative for, delegation points included.
  ghost predicate Visible(origin: Name, nodes: seq<Node>, k: nat)
    requires k < |nodes|
  {
    IsSubdomain(nodes[k].name, origin) && Active(nodes[k].sets) && !Occluded(origin, nodes, k)
  }

  lemma VisibleAlike(origin: Name, a: seq<Node>, b: seq<Node>, k: nat)
    requires AlikeAll(a, b) && k < |a|
    ensures Visible(origin, a, k) <==> Visible(origin, b, k)
  {
    assert forall j :: 0 <= j < |a| ==> (Hides(origin, a, j, k) <==> Hides(origin, b, j, k));
  }

  lemma HiddenIsLater(origin: Name, nodes: seq<Node>, j: nat, k: nat)
    requires Sorted(nodes) && j < |nodes| && k < |nodes| && Hides(origin, nodes, j, k)
    ensures j < k
  {
    BelowIsLater(nodes[k].name, nodes[j].name);
    LessTotal(nodes[j].name, nodes[k].name);
  }

  // ------------------------------------------ one remembered zone cut

  // Some node before i hides node k.
  ghost predicate HiddenBefore(origin: Name, nodes: seq<Node>, i: nat, k: nat)
    requires i <= |nodes| && k < |nodes|
  {
    exists j :: 0 <= j < i && Hides(origin, nodes, j, k)
  }

  // The single remembered cut decides, for every node from i on, whether a cut
  // before i hides it.
  ghost predicate CutKnown(origin: Name, nodes: seq<Node>, i: nat, cut: Option<Name>) {
    i <= |nodes| && forall k :: i <= k < |nodes| ==>
      (HiddenBefore(origin, nodes, i, k) <==> cut.Some? && ProperlyBelow(nodes[k].name, cut.value))
  }

  // What the walks do with the cut at node i.
  function NextCut(origin: Name, n: Node, cut: Option<Name>): Option<Name> {
    if IsSubdomain(n.name, origin) && IsCut(origin, n) && !(cut.Some? && IsSubdomain(n.name, cut.value))
    then Some(n.name) else cut
  }

  // A cut that hides a later node hides the nodes in between, too.
  lemma HidesBetween(origin: Name, nodes: seq<Node>, j: nat, i: nat, k: nat)
    requires Sorted(nodes) && j < i <= k < |nodes| && Hides(origin, nodes, j, k)
    ensures Hides(origin, nodes, j, i)
  {
    AncestorBetween(NamesOf(nodes), j, i, k);
    NamesDiffer(nodes, j, i);
  }

  lemma CutStepAt(origin: Name, nodes: seq<Node>, i: nat, cut: Option<Name>, k: nat)
    requires Sorted(nodes) && i < k < |nodes| && CutKnown(origin, nodes, i, cut)
    requires cut.Some? ==> cut.value != nodes[i].name
    ensures var cut' := NextCut(origin, nodes[i], cut);
            HiddenBefore(origin, nodes, i + 1, k) <==> cut'.Some? && ProperlyBelow(nodes[k].name, cut'.value)
  {
    var cut' := NextCut(origin, nodes[i], cut);
    assert HiddenBefore(origin, nodes, i, k) ==> HiddenBefore(origin, nodes, i + 1, k);
    assert HiddenBefore(origin, nodes, i + 1, k) ==> HiddenBefore(origin, nodes, i, k) || Hides(origin, nodes, i, k);
    if HiddenBefore(origin, nodes, i, k) {
      var j :| 0 <= j < i && Hides(origin, nodes, j, k);
      HidesBetween(origin, nodes, j, i, k);
      assert HiddenBefore(origin, nodes, i, i);
    } else if Hides(origin, nodes, i, k) {
      assert HiddenBefore(origin, nodes, i + 1, k);
    }
  }

  // Because subtrees are contiguous, one remembered cut suffices.
  lemma CutStep(origin: Name, nodes: seq<Node>, i: nat, cut: Option<Name>)
    requires Sorted(nodes) && i < |nodes| && CutKnown(origin, nodes, i, cut)
    requires cut.Some? ==> cut.value != nodes[i].name
    ensures CutKnown(origin, nodes, i + 1, NextCut(origin, nodes[i], cut))
  {
    forall k | i + 1 <= k < |nodes|
      ensures var cut' := NextCut(origin, nodes[i], cut);
              HiddenBefore(origin, nodes, i + 1, k) <==> cut'.Some? && ProperlyBelow(nodes[k].name, cut'.value)
    {
      CutStepAt(origin, nodes, i, cut, k);
    }
  }

  // At node i the remembered cut tells whether the node is occluded.
  lemma CutDecides(origin: Name, nodes: seq<Node>, i: nat, cut: Option<Name>)
    requires Sorted(nodes) && i < |nodes| && CutKnown(origin, nodes, i, cut)
    ensures Occluded(origin, nodes, i) <==> cut.Some? && ProperlyBelow(nodes[i].name, cut.value)
  {
    if Occluded(origin, nodes, i) {
      var j :| 0 <= j < |nodes| && Hides(origin, nodes, j, i);
      HiddenIsLater(origin, nodes, j, i);
      assert HiddenBefore(origin, nodes, i, i);
    }
    assert HiddenBefore(origin, nodes, i, i) ==> Occluded(origin, nodes, i);
  }
}
