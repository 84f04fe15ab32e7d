// The edits that dnssec-signzone makes at single nodes while it walks the zone.
module ZoneDb {
  import opened Base
  import opened Names
  import opened Zone

  // RRSIG for a type that no longer exists, and the NSEC chain when signing
  // with NSEC3.
  predicate Stale(nsec3: bool, sets: set<RRset>, s: RRset) {
    || (nsec3 && (s.rtype == NSEC || s.covers == NSEC))
    || (s.rtype == RRSIG && !exists t :: t in sets && t.rtype == s.covers)
  }

  // What active_node leaves at a node.
  function Cleaned(nsec3: bool, sets: set<RRset>): set<RRset> {
    if !nsec3 && !Active(sets) then {} else set s | s in sets && !Stale(nsec3, sets, s)
  }

  // What remove_sigs(node, delegation, 0) leaves.
  function WithoutSigs(nsec3: bool, delegation: bool, sets: set<RRset>): set<RRset> {
    set s | s in sets && (s.rtype != RRSIG || (delegation && (s.covers == DS || (!nsec3 && s.covers == NSEC))))
  }

  // What remove_records(node, which, ...) leaves.
  function WithoutType(which: nat, sets: set<RRset>): set<RRset> {
    set s | s in sets && s.rtype != which && s.covers != which
  }

  // There is no set of the type, and no signature that covers it.
  ghost predicate Free(which: nat, sets: set<RRset>) {
    forall s :: s in sets ==> s.rtype != which && s.covers != which
  }

  lemma NothingToRemove(which: nat, sets: set<RRset>)
    ensures WithoutType(which, sets) == sets <==> Free(which, sets)
  {
    assert Free(which, sets) <==> forall s :: s in sets ==> s in WithoutType(which, sets);
  }

  // What add_ds leaves: the DS set is the one found on file, if any.
  function WithDs(onFile: bool, sets: set<RRset>): set<RRset> {
    var rest := sets - {RRset(DS, 0)};
    if onFile then rest + {RRset(DS, 0)}
    else if RRset(DS, 0) in sets then rest - {RRset(RRSIG, DS)}
    else rest
  }

  lemma CleanedSameData(nsec3: bool, sets: set<RRset>)
    requires ProperSets(sets)
    ensures SameData(sets, Cleaned(nsec3, sets)) && ProperSets(Cleaned(nsec3, sets))
  {
  }

  // Only signatures cover a type.
  ghost predicate ProperSets(sets: set<RRset>) {
    forall s :: s in sets && s.rtype != RRSIG ==> s.covers == 0
  }

  ghost predicate ProperNodes(nodes: seq<Node>) {
    forall i :: 0 <= i < |nodes| ==> ProperSets(nodes[i].sets)
  }

  class Db {
    var nodes: seq<Node>
    const origin: Name
    const nsec3: bool       // nsec_datatype is NSEC3
    const updateChain: bool // -u
    const generateDs: bool  // -g
    const optOut: bool      // -A
    const dsFile: set<Name> // the children for which loadds finds DS records

    constructor (nodes: seq<Node>, origin: Name, nsec3: bool, updateChain: bool, generateDs: bool, optOut: bool, dsFile: set<Name>)
      ensures this.nodes == nodes && this.origin == origin && this.nsec3 == nsec3 && this.updateChain == updateChain
      ensures this.generateDs == generateDs && this.optOut == optOut && this.dsFile == dsFile
    {
      this.nodes := nodes;
      this.origin, this.nsec3, this.updateChain := origin, nsec3, updateChain;
      this.generateDs, this.optOut, this.dsFile := generateDs, optOut, dsFile;
    }

    // active_node: reports whether the node holds data and cleans it.
    method ActiveNode(i: nat) returns (active: bool)
      requires i < |nodes|
      modifies this`nodes
      ensures active == Active(old(nodes)[i].sets)
      ensures nodes == old(nodes)[i := old(nodes)[i].(sets := Cleaned(nsec3, old(nodes)[i].sets))]
    {
      var sets := nodes[i].sets;
      active := false;
      var todo := sets;
      while todo != {} && !active
        invariant nodes == old(nodes)
        invariant todo <= sets && (active <==> exists s :: s in sets - todo && Data(s))
      {
        var s :| s in todo;
        todo := todo - {s};
        active := Data(s);
      }
      assert active == Active(sets);
      var kept := sets;
      if !active && !nsec3 {
        kept := {};
      } else {
        todo := sets;
        while todo != {}
          invariant nodes == old(nodes)
        invariant todo <= sets && kept == set s | s in sets && (s in todo || !Stale(nsec3, sets, s))
        {
          var s :| s in todo;
          todo := todo - {s};
          var stale := nsec3 && (s.rtype == NSEC || s.covers == NSEC);
          if !stale && s.rtype == RRSIG {
            var found := FindType(sets, s.covers);
            stale := !found;
          }
          if stale {
            kept := kept - {s};
          }
        }
      }
      assert kept == Cleaned(nsec3, sets);
      nodes := nodes[i := nodes[i].(sets := kept)];
    }

    static method FindType(sets: set<RRset>, rtype: nat) returns (found: bool)
      ensures found <==> exists t :: t in sets && t.rtype == rtype
    {
      var todo := sets;
      found := false;
      while todo != {} && !found
        invariant todo <= sets && (found <==> exists t :: t in sets - todo && t.rtype == rtype)
      {
        var t :| t in todo;
        todo := todo - {t};
        found := t.rtype == rtype;
      }
    }

    // remove_sigs(node, delegation, 0)
    method RemoveSigs(i: nat, delegation: bool)
      requires i < |nodes|
      modifies this`nodes
      ensures nodes == old(nodes)[i := old(nodes)[i].(sets := WithoutSigs(nsec3, delegation, old(nodes)[i].sets))]
    {
      var sets := nodes[i].sets;
      var kept, todo := sets, sets;
      while todo != {}
        invariant nodes == old(nodes)
        invariant todo <= sets && kept == set s | s in sets && (s in todo || s in WithoutSigs(nsec3, delegation, sets))
      {
        var s :| s in todo;
        todo := todo - {s};
        if s.rtype == RRSIG && !(delegation && (s.covers == DS || (!nsec3 && s.covers == NSEC))) {
          kept := kept - {s};
        }
      }
      assert kept == WithoutSigs(nsec3, delegation, sets);
      nodes := nodes[i := nodes[i].(sets := kept)];
    }

    // remove_records: fails when a chain would be replaced without -u.
    method RemoveRecords(i: nat, which: nat, checkNsec: bool) returns (ok: bool)
      requires i < |nodes|
      modifies this`nodes
      ensures ok <==> !(checkNsec && !updateChain && (which == NSEC || which == NSEC3PARAM)
                        && WithoutType(which, old(nodes)[i].sets) != old(nodes)[i].sets)
      ensures ok ==> nodes == old(nodes)[i := old(nodes)[i].(sets := WithoutType(which, old(nodes)[i].sets))]
      ensures !ok ==> nodes == old(nodes)
    {
      var sets := nodes[i].sets;
      var kept, todo := sets, sets;
      while todo != {}
        invariant nodes == old(nodes)
        invariant todo <= sets && kept == set s | s in sets && (s in todo || s in WithoutType(which, sets))
        invariant checkNsec && !updateChain && (which == NSEC || which == NSEC3PARAM) ==> kept == sets
      {
        var s :| s in todo;
        todo := todo - {s};
        if s.rtype == which || s.covers == which {
          if (which == NSEC || which == NSEC3PARAM) && checkNsec && !updateChain {
            assert s !in WithoutType(which, sets);
            return false;
          }
          kept := kept - {s};
        }
      }
      assert kept == WithoutType(which, sets);
      nodes := nodes[i := nodes[i].(sets := kept)];
      return true;
    }

    // add_ds
    method AddDs(i: nat)
      requires i < |nodes|
      modifies this`nodes
      ensures nodes == old(nodes)[i := old(nodes)[i].(sets := WithDs(old(nodes)[i].name in dsFile, old(nodes)[i].sets))]
    {
      var sets := nodes[i].sets;
      var had := RRset(DS, 0) in sets;
      var signed := had && RRset(RRSIG, DS) in sets;
      if had {
        sets := sets - {RRset(DS, 0)};
      }
      if nodes[i].name in dsFile {
        sets := sets + {RRset(DS, 0)};
      } else if signed {
        sets := sets - {RRset(RRSIG, DS)};
      }
      assert sets == WithDs(nodes[i].name in dsFile, nodes[i].sets);
      nodes := nodes[i := nodes[i].(sets := sets)];
    }

    // addnsec3param: the origin gets an NSEC3PARAM record
    method AddNsec3Param(ghost apex: nat)
      requires apex < |nodes| && nodes[apex].name == origin
      requires forall k :: 0 <= k < |nodes| && nodes[k].name == origin ==> k == apex
      modifies this`nodes
      ensures nodes == old(nodes)[apex := old(nodes)[apex].(sets := old(nodes)[apex].sets + {RRset(NSEC3PARAM, 0)})]
    {
      var i := 0;
      while nodes[i].name != origin
        invariant i <= apex && nodes == old(nodes)
        decreases |nodes| - i
      {
        i := i + 1;
      }
      nodes := nodes[i := nodes[i].(sets := nodes[i].sets - {RRset(NSEC3PARAM, 0)})];
      nodes := nodes[i := nodes[i].(sets := nodes[i].sets + {RRset(NSEC3PARAM, 0)})];
      assert nodes[i].sets == old(nodes)[i].sets + {RRset(NSEC3PARAM, 0)};
    }

    // dns_nsec_build
    method BuildNsec(i: nat, next: Name)
      requires i < |nodes|
      modifies this`nodes
      ensures nodes == old(nodes)[i := old(nodes)[i].(sets := old(nodes)[i].sets + {RRset(NSEC, 0)}, next := next)]
    {
      nodes := nodes[i := nodes[i].(sets := nodes[i].sets + {RRset(NSEC, 0)}, next := next)];
    }
  }
}
