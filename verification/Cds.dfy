// Updating a parent's DS RRset from the child's CDS and CDNSKEY records
// (bin/dnssec/dnssec-cds.c, section 4.1 of RFC 7344).
module Cds {
  import opened Base
  import opened Names
  import opened Serial
  import opened Replay
  import opened Digests

  // A DNSKEY or CDNSKEY record; usable says whether its key can be read.
  datatype Dnskey = Dnskey(tag: nat, alg: nat, octets: seq<byte>, usable: bool)

  datatype Sig = Sig(keyId: nat, alg: nat, signer: Name, timeSigned: u32, octets: seq<byte>)

  // A signed RRset of the child: which of them it is, for verification.
  datatype Kind = KeySet | CdnskeySet | CdsSet

  // What the libraries compute: the digest of a key, unless the digest type is
  // not supported, and whether a signature over an RRset verifies with a key.
  datatype Crypto = Crypto(digest: (Dnskey, nat) -> Option<seq<byte>>, verifies: (Kind, Dnskey, Sig) -> bool)

  // The input of a run: the domain, the parent's DS records, the child's RRsets
  // and their signatures, the permitted digest types, in order, and -D.
  datatype Input = Input(
    name: Name, crypto: Crypto, notBefore: u32, oldDs: seq<Ds>, dtypes: seq<nat>, preferCdnskey: bool,
    dnskey: Option<seq<Dnskey>>, dnskeySig: Option<seq<Sig>>,
    cdnskey: Option<seq<Dnskey>>, cdnskeySig: Option<seq<Sig>>,
    cds: Option<seq<Ds>>, cdsSig: Option<seq<Sig>>)

  // --------------------------------------------------------- keys and DS records

  datatype Strictness = Loose | Tight

  predicate LooksAlike(k: Dnskey, d: Ds) {
    k.tag == d.tag && k.alg == d.alg
  }

  // The DS record is the one that the key makes.
  predicate DsOf(c: Crypto, k: Dnskey, d: Ds) {
    LooksAlike(k, d) && c.digest(k, d.dtype) == Some(d.digest)
  }

  // The record could be compared with the key.
  predicate Comparable(c: Crypto, k: Dnskey, d: Ds) {
    LooksAlike(k, d) && c.digest(k, d.dtype).Some?
  }

  // Some DS record identifies the key; when that is tight, the first one that
  // looks as if it should.
  ghost predicate Identified(c: Crypto, k: Dnskey, ds: seq<Ds>, strict: Strictness) {
    exists i :: 0 <= i < |ds| && DsOf(c, k, ds[i]) && (strict.Tight? ==> forall m :: 0 <= m < i ==> !Comparable(c, k, ds[m]))
  }

  // Loosely any record with the key's tag, algorithm and digest will do; tightly
  // every record before it must be of another key or of an unsupported type.
  lemma IdentifiedIs(c: Crypto, k: Dnskey, ds: seq<Ds>)
    ensures Identified(c, k, ds, Loose) <==>
            exists d :: d in ds && d.tag == k.tag && d.alg == k.alg && c.digest(k, d.dtype) == Some(d.digest)
    ensures Identified(c, k, ds, Tight) <==>
            exists i :: && 0 <= i < |ds| && ds[i].tag == k.tag && ds[i].alg == k.alg
                        && c.digest(k, ds[i].dtype) == Some(ds[i].digest)
                        && forall m :: 0 <= m < i ==> ds[m].tag != k.tag || ds[m].alg != k.alg || c.digest(k, ds[m].dtype).None?
  {
    if d :| d in ds && d.tag == k.tag && d.alg == k.alg && c.digest(k, d.dtype) == Some(d.digest) {
      var i :| 0 <= i < |ds| && ds[i] == d;
      assert DsOf(c, k, ds[i]);
    }
    if i :| && 0 <= i < |ds| && ds[i].tag == k.tag && ds[i].alg == k.alg && c.digest(k, ds[i].dtype) == Some(ds[i].digest)
            && forall m :: 0 <= m < i ==> ds[m].tag != k.tag || ds[m].alg != k.alg || c.digest(k, ds[m].dtype).None? {
      assert DsOf(c, k, ds[i]) && forall m :: 0 <= m < i ==> !Comparable(c, k, ds[m]);
    }
  }

  // match_key_dsset
  method MatchKeyDsset(c: Crypto, k: Dnskey, ds: seq<Ds>, strict: Strictness) returns (found: bool)
    ensures found <==> Identified(c, k, ds, strict)
  {
    var i := 0;
    while i < |ds|
      invariant i <= |ds| && forall m :: 0 <= m < i ==> !DsOf(c, k, ds[m])
      invariant strict.Tight? ==> forall m :: 0 <= m < i ==> !Comparable(c, k, ds[m])
    {
      if k.tag == ds[i].tag && k.alg == ds[i].alg {
        var made := c.digest(k, ds[i].dtype);
        if made.Some? {
          if made.value == ds[i].digest {
            return true;
          } else if strict.Tight? {
            assert Comparable(c, k, ds[i]) && !DsOf(c, k, ds[i]);
            return false;
          }
        }
      }
      i := i + 1;
    }
    return false;
  }

  // A key table: the keys with a matching DS record whose key can be read (dst).
  datatype KeyInfo = KeyInfo(key: Dnskey, dst: bool)

  ghost predicate TableOf(c: Crypto, keys: seq<Dnskey>, ds: seq<Ds>, strict: Strictness, table: seq<KeyInfo>) {
    |table| == |keys| && forall i :: 0 <= i < |keys| ==>
      table[i].key == keys[i] && (table[i].dst <==> keys[i].usable && Identified(c, keys[i], ds, strict))
  }

  // match_keyset_dsset
  method MatchKeysetDsset(c: Crypto, keys: seq<Dnskey>, ds: seq<Ds>, strict: Strictness) returns (table: seq<KeyInfo>)
    ensures TableOf(c, keys, ds, strict, table)
  {
    table := [];
    var i := 0;
    while i < |keys|
      invariant i <= |keys| && TableOf(c, keys[..i], ds, strict, table)
    {
      var dst := false;
      var found := MatchKeyDsset(c, keys[i], ds, strict);
      if found {
        dst := keys[i].usable;
      }
      table := table + [KeyInfo(keys[i], dst)];
      i := i + 1;
    }
    assert keys[..i] == keys;
  }

  // ------------------------------------------------------------ signatures

  // Signature s over the RRset is good: it is not too old and verifies with the
  // table's key i.
  predicate Good(p: Input, kind: Kind, info: KeyInfo, s: Sig) {
    && !Lt(s.timeSigned, p.notBefore)
    && s.keyId == info.key.tag && s.alg == info.key.alg && s.signer == p.name && info.dst
    && p.crypto.verifies(kind, info.key, s)
  }

  // The inception times of the good signatures, in the order in which they are
  // met: signature by signature, and for each of them key by key.
  function TimesOf(p: Input, kind: Kind, table: seq<KeyInfo>, s: Sig, n: nat): seq<u32>
    requires n <= |table|
  {
    if n == 0 then []
    else TimesOf(p, kind, table, s, n - 1) + if Good(p, kind, table[n - 1], s) then [s.timeSigned] else []
  }

  function Times(p: Input, kind: Kind, table: seq<KeyInfo>, sigs: seq<Sig>): seq<u32> {
    if sigs == [] then []
    else Times(p, kind, table, sigs[..|sigs| - 1]) + TimesOf(p, kind, table, sigs[|sigs| - 1], |table|)
  }

  // The algorithm of the table's key i if one of the signatures by it is good,
  // zero otherwise.
  ghost predicate AlgoOf(p: Input, kind: Kind, table: seq<KeyInfo>, sigs: seq<Sig>, algo: seq<nat>) {
    |algo| == |table| && forall i :: 0 <= i < |table| ==>
      algo[i] == if SignedBy(p, kind, table[i], sigs) then table[i].key.alg else 0
  }

  lemma NoneMatched(p: Input, kind: Kind, table: seq<KeyInfo>, algo: seq<nat>)
    requires |algo| == |table| && forall i :: 0 <= i < |algo| ==> algo[i] == 0
    ensures AlgoOf(p, kind, table, [], algo) && Times(p, kind, table, []) == []
  {
  }

  lemma TimesNext(p: Input, kind: Kind, table: seq<KeyInfo>, sigs: seq<Sig>, t: nat)
    requires t < |sigs|
    ensures Times(p, kind, table, sigs[..t + 1]) == Times(p, kind, table, sigs[..t]) + TimesOf(p, kind, table, sigs[t], |table|)
  {
    hide TimesOf;
    assert sigs[..t + 1][..t] == sigs[..t];
  }

  ghost predicate SignedBy(p: Input, kind: Kind, info: KeyInfo, sigs: seq<Sig>) {
    exists t :: 0 <= t < |sigs| && Good(p, kind, info, sigs[t])
  }

  // The global oldestsig.
  class Run {
    var oldest: u32
    ghost var times: seq<u32> // the inception times it has seen

    ghost predicate Valid()
      reads this
    {
      oldest == Oldest(times)
    }

    constructor ()
      ensures Valid() && times == []
    {
      oldest, times := 0, [];
    }

    // matching_sigs
    method MatchingSigs(p: Input, kind: Kind, table: seq<KeyInfo>, sigs: seq<Sig>) returns (algo: seq<nat>)
      requires Valid()
      modifies this
      ensures Valid() && times == old(times) + Times(p, kind, table, sigs)
      ensures AlgoOf(p, kind, table, sigs, algo)
    {
      hide Oldest, AlgoOf, Times, TimesOf;
      algo := seq(|table|, _ => 0);
      var t := 0;
      ConcatEmpty(times);
      NoneMatched(p, kind, table, algo);
      while t < |sigs|
        invariant t <= |sigs| && Valid() && times == old(times) + Times(p, kind, table, sigs[..t])
        invariant AlgoOf(p, kind, table, sigs[..t], algo)
      {
        TimesNext(p, kind, table, sigs, t);
        ConcatAssoc(old(times), Times(p, kind, table, sigs[..t]), TimesOf(p, kind, table, sigs[t], |table|));
        algo := MatchSig(p, kind, table, sigs, t, algo);
        t := t + 1;
      }
      assert sigs[..t] == sigs;
    }

    // One signature against all keys of the table.
    method MatchSig(p: Input, kind: Kind, table: seq<KeyInfo>, sigs: seq<Sig>, t: nat, algo: seq<nat>) returns (algo': seq<nat>)
      requires Valid() && t < |sigs| && AlgoOf(p, kind, table, sigs[..t], algo)
      modifies this
      ensures Valid() && times == old(times) + TimesOf(p, kind, table, sigs[t], |table|)
      ensures AlgoOf(p, kind, table, sigs[..t + 1], algo')
    {
      hide Oldest, AlgoOf, Times;
      var s := sigs[t];
      AlgoLength(p, kind, table, sigs[..t], algo);
      algo' := algo;
      ghost var met: seq<u32> := [];
      var i := 0;
      ConcatEmpty(times);
      while i < |table|
        invariant i <= |table| && Valid() && met == TimesOf(p, kind, table, s, i) && times == old(times) + met
        invariant |algo'| == |table|
        invariant forall m :: 0 <= m < |table| ==>
                    algo'[m] == if m < i && Good(p, kind, table[m], s) then table[m].key.alg else algo[m]
      {
        var ki := table[i];
        if !Lt(s.timeSigned, p.notBefore) && s.keyId == ki.key.tag && s.alg == ki.key.alg && s.signer == p.name
           && ki.dst && p.crypto.verifies(kind, ki.key, s)
        {
          algo' := algo'[i := s.alg];
          OldestSnoc(times, s.timeSigned);
          ConcatAssoc(old(times), met, [s.timeSigned]);
          if oldest == 0 || Lt(s.timeSigned, oldest) {
            oldest := s.timeSigned;
          }
          times := times + [s.timeSigned];
          met := met + [s.timeSigned];
        } else {
          ConcatEmpty(met);
        }
        i := i + 1;
      }
      AlgoStep(p, kind, table, sigs, t, algo, algo');
    }
  }

  lemma AlgoLength(p: Input, kind: Kind, table: seq<KeyInfo>, sigs: seq<Sig>, algo: seq<nat>)
    requires AlgoOf(p, kind, table, sigs, algo)
    ensures |algo| == |table|
  {
  }

  lemma AlgoStep(p: Input, kind: Kind, table: seq<KeyInfo>, sigs: seq<Sig>, t: nat, algo: seq<nat>, algo': seq<nat>)
    requires t < |sigs| && AlgoOf(p, kind, table, sigs[..t], algo) && |algo'| == |table|
    requires forall m :: 0 <= m < |table| ==>
               algo'[m] == if Good(p, kind, table[m], sigs[t]) then table[m].key.alg else algo[m]
    ensures AlgoOf(p, kind, table, sigs[..t + 1], algo')
  {
    forall m | 0 <= m < |table|
      ensures SignedBy(p, kind, table[m], sigs[..t + 1]) <==>
              SignedBy(p, kind, table[m], sigs[..t]) || Good(p, kind, table[m], sigs[t])
    {
      assert sigs[..t + 1][t] == sigs[t];
      assert forall u :: 0 <= u < t ==> sigs[..t + 1][u] == sigs[..t][u];
    }
  }

  // signed_loose
  method SignedLoose(algo: seq<nat>) returns (ok: bool)
    ensures ok <==> exists i :: 0 <= i < |algo| && algo[i] != 0
  {
    ok := false;
    var i := 0;
    while i < |algo|
      invariant i <= |algo| && (ok <==> exists m :: 0 <= m < i && algo[m] != 0)
    {
      if algo[i] != 0 {
        ok := true;
      }
      i := i + 1;
    }
  }

  // signed_strict
  method SignedStrict(ds: seq<Ds>, algo: seq<nat>) returns (ok: bool)
    ensures ok <==> forall j :: 0 <= j < |ds| ==> ds[j].alg in algo
  {
    ok := true;
    var j := 0;
    while j < |ds|
      invariant j <= |ds| && (ok <==> forall m :: 0 <= m < j ==> ds[m].alg in algo)
    {
      var dsOk, i := false, 0;
      while i < |algo|
        invariant i <= |algo| && (dsOk <==> ds[j].alg in algo[..i])
      {
        TakeNext(algo, i);
        if algo[i] == ds[j].alg {
          dsOk := true;
        }
        i := i + 1;
      }
      assert algo[..i] == algo;
      if !dsOk {
        ok := false;
      }
      j := j + 1;
    }
  }

  // ------------------------------------------------------- the new DS set

  // The CDS records of one digest type.
  function OfType(cds: seq<Ds>, dt: nat): seq<Ds> {
    if cds == [] then []
    else
      var n := |cds| - 1;
      OfType(cds[..n], dt) + if cds[n].dtype == dt then [cds[n]] else []
  }

  // make_new_ds_set with ds_from_cds: type by type, in the order of preference
  function FromCds(cds: seq<Ds>, dtypes: seq<nat>): seq<Ds> {
    if dtypes == [] then [] else FromCds(cds, dtypes[..|dtypes| - 1]) + OfType(cds, dtypes[|dtypes| - 1])
  }

  // The DS records of one digest type that keys make; None when a digest cannot
  // be made, which is fatal.
  function DigestAll(c: Crypto, keys: seq<Dnskey>, dt: nat): Option<seq<Ds>> {
    if keys == [] then Some([])
    else
      var n := |keys| - 1;
      var rest, k := DigestAll(c, keys[..n], dt), keys[n];
      if rest.None? || c.digest(k, dt).None? then None
      else Some(rest.value + [Ds(k.tag, k.alg, dt, c.digest(k, dt).value)])
  }

  // make_new_ds_set with ds_from_cdnskey
  function FromCdnskey(c: Crypto, keys: seq<Dnskey>, dtypes: seq<nat>): Option<seq<Ds>> {
    if dtypes == [] then Some([])
    else
      var n := |dtypes| - 1;
      var rest, more := FromCdnskey(c, keys, dtypes[..n]), DigestAll(c, keys, dtypes[n]);
      if rest.None? || more.None? then None else Some(rest.value + more.value)
  }

  // append_new_ds_set with ds_from_cds
  method AppendFromCds(list: seq<Ds>, cds: seq<Ds>, dt: nat) returns (list': seq<Ds>)
    ensures list' == list + OfType(cds, dt)
  {
    list' := list;
    ConcatEmpty(list);
    var i := 0;
    while i < |cds|
      invariant i <= |cds| && list' == list + OfType(cds[..i], dt)
    {
      assert cds[..i + 1][..i] == cds[..i];
      ConcatAssoc(list, OfType(cds[..i], dt), [cds[i]]);
      ConcatEmpty(OfType(cds[..i], dt));
      if cds[i].dtype == dt {
        list' := list' + [cds[i]];
      }
      i := i + 1;
    }
    assert cds[..i] == cds;
  }

  // append_new_ds_set with ds_from_cdnskey
  method AppendFromCdnskey(c: Crypto, list: seq<Ds>, keys: seq<Dnskey>, dt: nat) returns (list': Option<seq<Ds>>)
    ensures list'.Some? <==> DigestAll(c, keys, dt).Some?
    ensures list'.Some? ==> list'.value == list + DigestAll(c, keys, dt).value
  {
    var made: seq<Ds> := list;
    ConcatEmpty(list);
    var i := 0;
    while i < |keys|
      invariant i <= |keys| && DigestAll(c, keys[..i], dt).Some? && made == list + DigestAll(c, keys[..i], dt).value
    {
      assert keys[..i + 1][..i] == keys[..i];
      var digest := c.digest(keys[i], dt);
      if digest.None? {
        DigestAllNone(c, keys, i + 1, dt);
        return None;
      }
      var ds := Ds(keys[i].tag, keys[i].alg, dt, digest.value);
      ConcatAssoc(list, DigestAll(c, keys[..i], dt).value, [ds]);
      made := made + [ds];
      i := i + 1;
    }
    assert keys[..i] == keys;
    return Some(made);
  }

  // make_new_ds_set
  method MakeFromCds(cds: seq<Ds>, dtypes: seq<nat>) returns (list: seq<Ds>)
    ensures list == FromCds(cds, dtypes)
  {
    list := [];
    var i := 0;
    while i < |dtypes|
      invariant i <= |dtypes| && list == FromCds(cds, dtypes[..i])
    {
      assert dtypes[..i + 1][..i] == dtypes[..i];
      list := AppendFromCds(list, cds, dtypes[i]);
      i := i + 1;
    }
    assert dtypes[..i] == dtypes;
  }

  method MakeFromCdnskey(c: Crypto, keys: seq<Dnskey>, dtypes: seq<nat>) returns (list: Option<seq<Ds>>)
    ensures list == FromCdnskey(c, keys, dtypes)
  {
    var made: seq<Ds> := [];
    var i := 0;
    while i < |dtypes|
      invariant i <= |dtypes| && FromCdnskey(c, keys, dtypes[..i]) == Some(made)
    {
      assert dtypes[..i + 1][..i] == dtypes[..i];
      var next := AppendFromCdnskey(c, made, keys, dtypes[i]);
      if next.None? {
        FromCdnskeyNone(c, keys, dtypes, i + 1);
        return None;
      }
      made := next.value;
      i := i + 1;
    }
    assert dtypes[..i] == dtypes;
    return Some(made);
  }

  // A digest that cannot be made is fatal wherever it is met.
  lemma {:induction false} DigestAllNone(c: Crypto, keys: seq<Dnskey>, i: nat, dt: nat)
    requires i <= |keys| && DigestAll(c, keys[..i], dt).None?
    ensures DigestAll(c, keys, dt).None?
  {
    if i < |keys| {
      assert keys[..|keys| - 1][..i] == keys[..i];
      DigestAllNone(c, keys[..|keys| - 1], i, dt);
    } else {
      assert keys[..i] == keys;
    }
  }

  lemma {:induction false} FromCdnskeyNone(c: Crypto, keys: seq<Dnskey>, dtypes: seq<nat>, i: nat)
    requires i <= |dtypes| && FromCdnskey(c, keys, dtypes[..i]).None?
    ensures FromCdnskey(c, keys, dtypes).None?
  {
    if i < |dtypes| {
      assert dtypes[..|dtypes| - 1][..i] == dtypes[..i];
      FromCdnskeyNone(c, keys, dtypes[..|dtypes| - 1], i);
    } else {
      assert dtypes[..i] == dtypes;
    }
  }

  // The records made from CDNSKEY records are exactly the DS records of them
  // with a permitted type.
  lemma {:induction false} FromCdnskeyIs(c: Crypto, keys: seq<Dnskey>, dtypes: seq<nat>, d: Ds)
    requires FromCdnskey(c, keys, dtypes).Some?
    ensures d in FromCdnskey(c, keys, dtypes).value <==> d.dtype in dtypes && exists k :: k in keys && DsOf(c, k, d)
  {
    hide DigestAll, DsOf;
    if dtypes != [] {
      var n := |dtypes| - 1;
      FromCdnskeyIs(c, keys, dtypes[..n], d);
      DigestAllIs(c, keys, dtypes[n], d);
      assert dtypes == dtypes[..n] + [dtypes[n]];
    }
  }

  lemma {:induction false} DigestAllIs(c: Crypto, keys: seq<Dnskey>, dt: nat, d: Ds)
    requires DigestAll(c, keys, dt).Some?
    ensures d in DigestAll(c, keys, dt).value <==> d.dtype == dt && exists k :: k in keys && DsOf(c, k, d)
  {
    if keys != [] {
      var n := |keys| - 1;
      DigestAllIs(c, keys[..n], dt, d);
      assert keys == keys[..n] + [keys[n]];
      assert d.dtype == dt ==> (DsOf(c, keys[n], d) <==> d == Ds(keys[n].tag, keys[n].alg, dt, c.digest(keys[n], dt).value));
      hide DsOf;
    }
  }

  // A CDS record is used exactly when its digest type is permitted.
  lemma {:induction false} FromCdsIs(cds: seq<Ds>, dtypes: seq<nat>, d: Ds)
    ensures d in FromCds(cds, dtypes) <==> d in cds && d.dtype in dtypes
  {
    if dtypes != [] {
      var n := |dtypes| - 1;
      FromCdsIs(cds, dtypes[..n], d);
      OfTypeIs(cds, dtypes[n], d);
      assert dtypes == dtypes[..n] + [dtypes[n]];
    }
  }

  lemma {:induction false} OfTypeIs(cds: seq<Ds>, dt: nat, d: Ds)
    ensures d in OfType(cds, dt) <==> d in cds && d.dtype == dt
  {
    if cds != [] {
      var n := |cds| - 1;
      OfTypeIs(cds[..n], dt, d);
      assert cds == cds[..n] + [cds[n]];
    }
  }

  // The candidate: CDS records if there are any, unless CDNSKEY is preferred;
  // CDNSKEY records when no CDS record has a permitted type.
  function Candidate(p: Input): Option<seq<Ds>> {
    var first :=
      if p.preferCdnskey && p.cdnskey.Some? then FromCdnskey(p.crypto, p.cdnskey.value, p.dtypes)
      else if p.cds.Some? then Some(FromCds(p.cds.value, p.dtypes))
      else if p.cdnskey.Some? then FromCdnskey(p.crypto, p.cdnskey.value, p.dtypes)
      else None;
    if first == Some([]) && p.cdnskey.Some? then FromCdnskey(p.crypto, p.cdnskey.value, p.dtypes) else first
  }

  // CDNSKEY records are used when -D asks for them and when no CDS record has a
  // permitted type.
  ghost predicate UsesCdnskey(p: Input) {
    p.cdnskey.Some? && (p.preferCdnskey || p.cds.None? || forall d :: d in p.cds.value ==> d.dtype !in p.dtypes)
  }

  // What belongs into the new DS set.
  ghost predicate Chosen(p: Input, d: Ds) {
    d.dtype in p.dtypes &&
      if UsesCdnskey(p) then exists k :: k in p.cdnskey.value && DsOf(p.crypto, k, d)
      else p.cds.Some? && d in p.cds.value
  }

  ghost predicate AllChosen(p: Input, ds: seq<Ds>) {
    forall d :: d in ds <==> Chosen(p, d)
  }

  // A digest that is asked for cannot be made.
  ghost predicate CannotMake(p: Input) {
    UsesCdnskey(p) && exists k, dt :: k in p.cdnskey.value && dt in p.dtypes && p.crypto.digest(k, dt).None?
  }

  lemma {:induction false} DigestAllFails(c: Crypto, keys: seq<Dnskey>, dt: nat)
    ensures DigestAll(c, keys, dt).None? <==> exists k :: k in keys && c.digest(k, dt).None?
  {
    if keys != [] {
      var n := |keys| - 1;
      DigestAllFails(c, keys[..n], dt);
      assert keys == keys[..n] + [keys[n]];
    }
  }

  lemma {:induction false} FromCdnskeyFails(c: Crypto, keys: seq<Dnskey>, dtypes: seq<nat>)
    ensures FromCdnskey(c, keys, dtypes).None? <==> exists k, dt :: k in keys && dt in dtypes && c.digest(k, dt).None?
  {
    hide DigestAll;
    if dtypes != [] {
      var n := |dtypes| - 1;
      FromCdnskeyFails(c, keys, dtypes[..n]);
      DigestAllFails(c, keys, dtypes[n]);
      assert dtypes == dtypes[..n] + [dtypes[n]];
    }
  }

  // The candidate is made of the records chosen, unless a digest cannot be made.
  lemma CandidateIs(p: Input)
    requires p.cdnskey.Some? || p.cds.Some?
    ensures Candidate(p).None? <==> CannotMake(p)
    ensures Candidate(p).Some? ==> AllChosen(p, Candidate(p).value)
  {
    hide FromCds, FromCdnskey, DsOf;
    if p.cds.Some? {
      CdsEmpty(p.cds.value, p.dtypes);
    }
    if p.cdnskey.Some? {
      FromCdnskeyFails(p.crypto, p.cdnskey.value, p.dtypes);
    }
    if Candidate(p).Some? {
      forall d
        ensures d in Candidate(p).value <==> Chosen(p, d)
      {
        if UsesCdnskey(p) {
          FromCdnskeyIs(p.crypto, p.cdnskey.value, p.dtypes, d);
        } else {
          FromCdsIs(p.cds.value, p.dtypes, d);
        }
      }
    }
  }

  lemma CdsEmpty(cds: seq<Ds>, dtypes: seq<nat>)
    ensures FromCds(cds, dtypes) == [] <==> forall d :: d in cds ==> d.dtype !in dtypes
  {
    hide FromCds;
    var all := FromCds(cds, dtypes);
    forall d
      ensures d in all <==> d in cds && d.dtype in dtypes
    {
      FromCdsIs(cds, dtypes, d);
    }
    if all != [] {
      assert all[0] in all;
    }
  }

  method MakeCandidate(p: Input) returns (ds: Option<seq<Ds>>)
    requires p.cdnskey.Some? || p.cds.Some?
    ensures ds == Candidate(p)
    ensures if ds.None? then CannotMake(p) else AllChosen(p, ds.value)
  {
    CandidateIs(p);
    if p.preferCdnskey && p.cdnskey.Some? {
      ds := MakeFromCdnskey(p.crypto, p.cdnskey.value, p.dtypes);
    } else if p.cds.Some? {
      var made := MakeFromCds(p.cds.value, p.dtypes);
      ds := Some(made);
    } else {
      ds := MakeFromCdnskey(p.crypto, p.cdnskey.value, p.dtypes);
    }
    if ds == Some([]) && p.cdnskey.Some? {
      ds := MakeFromCdnskey(p.crypto, p.cdnskey.value, p.dtypes);
    }
  }

  // ----------------------------------------------------------- the decision

  datatype Reason =
    | NoSignedDnskey | NoCdnskeySig | NoCdsSig | BadDnskey | BadCdnskey | BadCds
    | CannotDigest | NoPermittedType | Inconsistent | Breaks

  datatype Outcome = Fatal(reason: Reason) | Unchanged(ds: seq<Ds>) | Updated(ds: seq<Ds>)

  // A key of the child that the parent's DS records identify has a good
  // signature over the RRset.
  ghost predicate Authentic(p: Input, kind: Kind, sigs: seq<Sig>)
    requires p.dnskey.Some?
  {
    exists i :: 0 <= i < |p.dnskey.value| && p.dnskey.value[i].alg != 0
                && Vouches(p, kind, p.dnskey.value[i], p.oldDs, Loose, sigs)
  }

  // The key can be used, is identified by ds and has a good signature.
  ghost predicate Vouches(p: Input, kind: Kind, k: Dnskey, ds: seq<Ds>, strict: Strictness, sigs: seq<Sig>) {
    k.usable && Identified(p.crypto, k, ds, strict) && SignedBy(p, kind, KeyInfo(k, true), sigs)
  }

  // What signed_strict accepts: for the algorithm of each record of the new DS
  // set a key of the child that the set identifies signs the DNSKEY RRset; but
  // for an algorithm of zero it is enough that some key does not.
  ghost predicate PassesStrict(p: Input, ds: seq<Ds>)
    requires p.dnskey.Some? && p.dnskeySig.Some?
  {
    forall j :: 0 <= j < |ds| ==> Supported(p, ds, ds[j].alg)
  }

  ghost predicate Supported(p: Input, ds: seq<Ds>, alg: nat)
    requires p.dnskey.Some? && p.dnskeySig.Some?
  {
    exists i :: 0 <= i < |p.dnskey.value| && AlgoIs(p, ds, p.dnskey.value[i], alg)
  }

  ghost predicate AlgoIs(p: Input, ds: seq<Ds>, k: Dnskey, alg: nat)
    requires p.dnskeySig.Some?
  {
    var v := Vouches(p, KeySet, k, ds, Tight, p.dnskeySig.value);
    if alg != 0 then v && k.alg == alg else !v || k.alg == 0
  }

  // Everything that is asked of the child's records before they are used.
  ghost predicate Trusted(p: Input) {
    && p.dnskey.Some? && p.dnskeySig.Some?
    && (p.cdnskey.Some? ==> p.cdnskeySig.Some?) && (p.cds.Some? ==> p.cdsSig.Some?)
    && Authentic(p, KeySet, p.dnskeySig.value)
    && (p.cdnskey.Some? ==> Authentic(p, CdnskeySet, p.cdnskeySig.value))
    && (p.cds.Some? ==> Authentic(p, CdsSet, p.cdsSig.value))
  }

  // What makes the program write a new DS set.
  ghost predicate Accepts(p: Input) {
    && Trusted(p) && (p.cdnskey.Some? || p.cds.Some?)
    && Candidate(p).Some? && Candidate(p).value != []
    && Consistent(Candidate(p).value) && PassesStrict(p, Candidate(p).value)
  }

  // No record has algorithm zero, which asks for the removal of the DS records
  // (section 4 of RFC 8078).
  predicate NoZero(ds: seq<Ds>) {
    forall j :: 0 <= j < |ds| ==> ds[j].alg != 0
  }

  // The times contain those of the good signatures over the RRset by the keys
  // that ds identifies.
  ghost predicate Seen(p: Input, kind: Kind, ds: seq<Ds>, strict: Strictness, sigs: seq<Sig>, times: seq<u32>)
    requires p.dnskey.Some?
  {
    forall i, t :: 0 <= i < |p.dnskey.value| && 0 <= t < |sigs| && p.dnskey.value[i].usable
      && Identified(p.crypto, p.dnskey.value[i], ds, strict) && Good(p, kind, KeyInfo(p.dnskey.value[i], true), sigs[t])
      ==> sigs[t].timeSigned in times
  }

  lemma SeenTimes(p: Input, kind: Kind, table: seq<KeyInfo>, ds: seq<Ds>, strict: Strictness, sigs: seq<Sig>)
    requires p.dnskey.Some? && TableOf(p.crypto, p.dnskey.value, ds, strict, table)
    ensures Seen(p, kind, ds, strict, sigs, Times(p, kind, table, sigs))
  {
    forall i, t | 0 <= i < |p.dnskey.value| && 0 <= t < |sigs| && p.dnskey.value[i].usable
      && Identified(p.crypto, p.dnskey.value[i], ds, strict) && Good(p, kind, KeyInfo(p.dnskey.value[i], true), sigs[t])
      ensures sigs[t].timeSigned in Times(p, kind, table, sigs)
    {
      assert table[i] == KeyInfo(p.dnskey.value[i], true);
      MetTime(p, kind, table, sigs, t, i);
    }
  }

  // All times of the child's RRsets, as the parent's DS records identify its keys.
  ghost predicate AllSeen(p: Input, times: seq<u32>)
    requires Trusted(p)
  {
    && Seen(p, KeySet, p.oldDs, Loose, p.dnskeySig.value, times)
    && (p.cdnskey.Some? ==> Seen(p, CdnskeySet, p.oldDs, Loose, p.cdnskeySig.value, times))
    && (p.cds.Some? ==> Seen(p, CdsSet, p.oldDs, Loose, p.cdsSig.value, times))
  }

  // Checks one RRset of the child against the parent's DS records.
  method CheckLoose(run: Run, p: Input, kind: Kind, table: seq<KeyInfo>, sigs: seq<Sig>) returns (ok: bool)
    requires run.Valid() && p.dnskey.Some? && TableOf(p.crypto, p.dnskey.value, p.oldDs, Loose, table)
    modifies run
    ensures run.Valid() && run.times == old(run.times) + Times(p, kind, table, sigs)
    ensures Seen(p, kind, p.oldDs, Loose, sigs, run.times)
    ensures ok <==> Authentic(p, kind, sigs)
  {
    SeenTimes(p, kind, table, p.oldDs, Loose, sigs);
    var algo := run.MatchingSigs(p, kind, table, sigs);
    ok := SignedLoose(algo);
    forall i | 0 <= i < |algo|
      ensures algo[i] != 0 <==>
              p.dnskey.value[i].alg != 0 && Vouches(p, kind, p.dnskey.value[i], p.oldDs, Loose, sigs)
    {
      InTable(p, kind, table[i], p.oldDs, Loose, sigs);
    }
  }

  lemma InTable(p: Input, kind: Kind, info: KeyInfo, ds: seq<Ds>, strict: Strictness, sigs: seq<Sig>)
    requires info.dst <==> info.key.usable && Identified(p.crypto, info.key, ds, strict)
    ensures SignedBy(p, kind, info, sigs) <==> Vouches(p, kind, info.key, ds, strict, sigs)
  {
    if info.dst {
      assert info == KeyInfo(info.key, true);
    }
  }

  // Checks the candidate against the DNSKEY RRset.
  method CheckStrict(run: Run, p: Input, ds: seq<Ds>) returns (ok: bool)
    requires run.Valid() && p.dnskey.Some? && p.dnskeySig.Some?
    modifies run
    ensures run.Valid() && old(run.times) <= run.times && Accepted(p.notBefore, run.times[|old(run.times)|..])
    ensures ok <==> PassesStrict(p, ds)
    ensures Seen(p, KeySet, ds, Tight, p.dnskeySig.value, run.times[|old(run.times)|..])
  {
    var keys := p.dnskey.value;
    var table := MatchKeysetDsset(p.crypto, keys, ds, Tight);
    var algo := run.MatchingSigs(p, KeySet, table, p.dnskeySig.value);
    TimesAccepted(p, KeySet, table, p.dnskeySig.value);
    assert run.times[|old(run.times)|..] == Times(p, KeySet, table, p.dnskeySig.value);
    SeenTimes(p, KeySet, table, ds, Tight, p.dnskeySig.value);
    ok := SignedStrict(ds, algo);
    forall j | 0 <= j < |ds|
      ensures ds[j].alg in algo <==> Supported(p, ds, ds[j].alg)
    {
      InAlgo(p, ds, table, algo, ds[j].alg);
    }
  }

  lemma InAlgo(p: Input, ds: seq<Ds>, table: seq<KeyInfo>, algo: seq<nat>, alg: nat)
    requires p.dnskey.Some? && p.dnskeySig.Some? && TableOf(p.crypto, p.dnskey.value, ds, Tight, table)
    requires AlgoOf(p, KeySet, table, p.dnskeySig.value, algo)
    ensures alg in algo <==> Supported(p, ds, alg)
  {
    var keys := p.dnskey.value;
    forall i | 0 <= i < |keys|
      ensures algo[i] == alg <==> AlgoIs(p, ds, keys[i], alg)
    {
      InTable(p, KeySet, table[i], ds, Tight, p.dnskeySig.value);
    }
    hide AlgoIs, AlgoOf;
    if alg in algo {
      var i :| 0 <= i < |algo| && algo[i] == alg;
    }
  }

  lemma {:induction false} TimesOfAccepted(p: Input, kind: Kind, table: seq<KeyInfo>, s: Sig, n: nat)
    requires n <= |table|
    ensures Accepted(p.notBefore, TimesOf(p, kind, table, s, n))
  {
    if n > 0 {
      TimesOfAccepted(p, kind, table, s, n - 1);
    }
  }

  lemma {:induction false} TimesAccepted(p: Input, kind: Kind, table: seq<KeyInfo>, sigs: seq<Sig>)
    ensures Accepted(p.notBefore, Times(p, kind, table, sigs))
  {
    if sigs != [] {
      TimesAccepted(p, kind, table, sigs[..|sigs| - 1]);
      TimesOfAccepted(p, kind, table, sigs[|sigs| - 1], |table|);
    }
  }

  lemma AcceptedConcat(limit: u32, a: seq<u32>, b: seq<u32>)
    requires Accepted(limit, a) && Accepted(limit, b)
    ensures Accepted(limit, a + b)
  {
  }

  // The signatures of the child's RRsets, checked with the parent's DS records.
  method CheckChild(run: Run, p: Input) returns (failed: Option<Reason>)
    requires run.Valid() && run.times == [] && p.dnskey.Some? && p.dnskeySig.Some?
    requires (p.cdnskey.Some? ==> p.cdnskeySig.Some?) && (p.cds.Some? ==> p.cdsSig.Some?)
    modifies run
    ensures run.Valid() && Accepted(p.notBefore, run.times)
    ensures failed.None? <==> Trusted(p)
    ensures failed.None? ==> run.times != [] && AllSeen(p, run.times)
  {
    var table := MatchKeysetDsset(p.crypto, p.dnskey.value, p.oldDs, Loose);
    var ok := CheckLoose(run, p, KeySet, table, p.dnskeySig.value);
    TimesAccepted(p, KeySet, table, p.dnskeySig.value);
    ConcatEmpty(Times(p, KeySet, table, p.dnskeySig.value));
    if !ok {
      return Some(BadDnskey);
    }
    MetSome(p, KeySet, table, p.dnskeySig.value);
    if p.cdnskey.Some? {
      TimesAccepted(p, CdnskeySet, table, p.cdnskeySig.value);
      AcceptedConcat(p.notBefore, run.times, Times(p, CdnskeySet, table, p.cdnskeySig.value));
      ok := CheckLoose(run, p, CdnskeySet, table, p.cdnskeySig.value);
      if !ok {
        return Some(BadCdnskey);
      }
    }
    if p.cds.Some? {
      TimesAccepted(p, CdsSet, table, p.cdsSig.value);
      AcceptedConcat(p.notBefore, run.times, Times(p, CdsSet, table, p.cdsSig.value));
      ok := CheckLoose(run, p, CdsSet, table, p.cdsSig.value);
      if !ok {
        return Some(BadCds);
      }
    }
    return None;
  }

  // A good signature leaves its inception time.
  lemma {:induction false} MetTime(p: Input, kind: Kind, table: seq<KeyInfo>, sigs: seq<Sig>, t: nat, i: nat)
    requires t < |sigs| && i < |table| && Good(p, kind, table[i], sigs[t])
    ensures sigs[t].timeSigned in Times(p, kind, table, sigs)
  {
    hide Good, TimesOf;
    var n := |sigs| - 1;
    if t < n {
      MetTime(p, kind, table, sigs[..n], t, i);
    } else {
      MetTimeOf(p, kind, table, sigs[n], |table|, i);
    }
  }

  lemma {:induction false} MetTimeOf(p: Input, kind: Kind, table: seq<KeyInfo>, s: Sig, n: nat, i: nat)
    requires i < n <= |table| && Good(p, kind, table[i], s)
    ensures s.timeSigned in TimesOf(p, kind, table, s, n)
  {
    if i < n - 1 {
      MetTimeOf(p, kind, table, s, n - 1, i);
    }
  }

  lemma MetSome(p: Input, kind: Kind, table: seq<KeyInfo>, sigs: seq<Sig>)
    requires p.dnskey.Some? && TableOf(p.crypto, p.dnskey.value, p.oldDs, Loose, table) && Authentic(p, kind, sigs)
    ensures Times(p, kind, table, sigs) != []
  {
    var i :| 0 <= i < |p.dnskey.value| && p.dnskey.value[i].alg != 0
             && Vouches(p, kind, p.dnskey.value[i], p.oldDs, Loose, sigs);
    InTable(p, kind, table[i], p.oldDs, Loose, sigs);
    var t :| 0 <= t < |sigs| && Good(p, kind, table[i], sigs[t]);
    MetTime(p, kind, table, sigs, t, i);
  }

  // The decisions of the program, from the loaded records to the DS set that is
  // written. The recorded time is the oldest of the times of good signatures.
  method Decide(p: Input, run: Run) returns (result: Outcome)
    requires run.Valid() && run.times == []
    modifies run
    ensures run.Valid() && Accepted(p.notBefore, run.times)
    ensures result.Updated? <==> Accepts(p)
    ensures result.Updated? ==> result.ds == Candidate(p).value && AllChosen(p, result.ds)
    ensures result.Unchanged? <==> Trusted(p) && p.cdnskey.None? && p.cds.None?
    ensures result.Unchanged? ==> result.ds == p.oldDs
    ensures !result.Fatal? ==> run.times != [] && AllSeen(p, run.times)
    ensures result.Updated? ==> Seen(p, KeySet, result.ds, Tight, p.dnskeySig.value, run.times)
  {
    hide Authentic, Candidate, Consistent, PassesStrict, Oldest, Identified, Good, AllChosen, CannotMake;
    if p.dnskey.None? || p.dnskeySig.None? {
      return Fatal(NoSignedDnskey);
    }
    if p.cdnskey.Some? && p.cdnskeySig.None? {
      return Fatal(NoCdnskeySig);
    }
    if p.cds.Some? && p.cdsSig.None? {
      return Fatal(NoCdsSig);
    }
    var failed := CheckChild(run, p);
    if failed.Some? {
      return Fatal(failed.value);
    }
    if p.cdnskey.None? && p.cds.None? {
      return Unchanged(p.oldDs);
    }
    var ds := MakeCandidate(p);
    if ds.None? {
      return Fatal(CannotDigest);
    }
    if ds.value == [] {
      return Fatal(NoPermittedType);
    }
    ghost var before := run.times;
    var unbroken, consistent;
    consistent := ConsistentDigests(ds.value);
    if !consistent {
      return Fatal(Inconsistent);
    }
    unbroken := CheckStrict(run, p, ds.value);
    AcceptedConcat(p.notBefore, before, run.times[|before|..]);
    assert run.times == before + run.times[|before|..];
    if !unbroken {
      return Fatal(Breaks);
    }
    return Updated(ds.value);
  }

  // ------------------------------------------------------------- guarantees

  // The key is the one of a DS record and has made a signature over the RRset
  // that verifies and is not too old.
  ghost predicate Evidence(p: Input, kind: Kind, k: Dnskey, e: Ds, s: Sig) {
    && DsOf(p.crypto, k, e) && p.crypto.verifies(kind, k, s) && !Lt(s.timeSigned, p.notBefore)
    && s.keyId == k.tag && s.alg == k.alg && s.signer == p.name
  }

  // A key of the child gives that evidence, with one of the DS records.
  ghost predicate Proven(p: Input, kind: Kind, ds: seq<Ds>, sigs: seq<Sig>)
    requires p.dnskey.Some?
  {
    exists k, e, s :: k in p.dnskey.value && e in ds && s in sigs && Evidence(p, kind, k, e, s)
  }

  lemma VouchedFor(p: Input, kind: Kind, k: Dnskey, ds: seq<Ds>, strict: Strictness, sigs: seq<Sig>)
    requires Vouches(p, kind, k, ds, strict, sigs)
    ensures exists e, s :: e in ds && s in sigs && Evidence(p, kind, k, e, s)
  {
    var i :| 0 <= i < |ds| && DsOf(p.crypto, k, ds[i]);
    var t :| 0 <= t < |sigs| && Good(p, kind, KeyInfo(k, true), sigs[t]);
    assert Evidence(p, kind, k, ds[i], sigs[t]);
  }

  lemma AuthenticProven(p: Input, kind: Kind, sigs: seq<Sig>)
    requires p.dnskey.Some? && Authentic(p, kind, sigs)
    ensures Proven(p, kind, p.oldDs, sigs)
  {
    var i :| 0 <= i < |p.dnskey.value| && p.dnskey.value[i].alg != 0
             && Vouches(p, kind, p.dnskey.value[i], p.oldDs, Loose, sigs);
    VouchedFor(p, kind, p.dnskey.value[i], p.oldDs, Loose, sigs);
  }

  // A key of the child with this algorithm, which the set identifies, signs.
  ghost predicate AlgorithmSigns(p: Input, ds: seq<Ds>, alg: nat)
    requires p.dnskey.Some? && p.dnskeySig.Some?
  {
    exists i :: 0 <= i < |p.dnskey.value| && p.dnskey.value[i].alg == alg
                && Vouches(p, KeySet, p.dnskey.value[i], ds, Tight, p.dnskeySig.value)
  }

  // What the program wants to make sure: each algorithm of the set signs.
  ghost predicate EachSigns(p: Input, ds: seq<Ds>)
    requires p.dnskey.Some? && p.dnskeySig.Some?
  {
    forall j :: 0 <= j < |ds| ==> AlgorithmSigns(p, ds, ds[j].alg)
  }

  // A set that passes has that property if and only if no record has algorithm
  // zero or a key with algorithm zero signs; and a set with the property passes.
  lemma StrictExactly(p: Input, ds: seq<Ds>)
    requires p.dnskey.Some? && p.dnskeySig.Some?
    ensures EachSigns(p, ds) <==> PassesStrict(p, ds) && (NoZero(ds) || AlgorithmSigns(p, ds, 0))
  {
    hide Vouches;
    forall j | 0 <= j < |ds|
      ensures AlgorithmSigns(p, ds, ds[j].alg) ==> Supported(p, ds, ds[j].alg)
      ensures Supported(p, ds, ds[j].alg) && ds[j].alg != 0 ==> AlgorithmSigns(p, ds, ds[j].alg)
    {
      SupportedIs(p, ds, ds[j].alg);
    }
    hide AlgorithmSigns, Supported;
  }

  lemma SupportedIs(p: Input, ds: seq<Ds>, alg: nat)
    requires p.dnskey.Some? && p.dnskeySig.Some?
    ensures AlgorithmSigns(p, ds, alg) ==> Supported(p, ds, alg)
    ensures Supported(p, ds, alg) && alg != 0 ==> AlgorithmSigns(p, ds, alg)
  {
    hide Vouches;
    if i :| 0 <= i < |p.dnskey.value| && p.dnskey.value[i].alg == alg
            && Vouches(p, KeySet, p.dnskey.value[i], ds, Tight, p.dnskeySig.value) {
      assert AlgoIs(p, ds, p.dnskey.value[i], alg);
    }
  }

  // A new DS set is written only if the child's RRsets are proven with the old
  // one. For each new record a key of the child with its algorithm proves the
  // DNSKEY RRset with the new set, unless the algorithm is zero and no such key
  // signs; and that exception is the only one.
  lemma ChainOfTrust(p: Input, d: Ds)
    requires Accepts(p)
    ensures Proven(p, KeySet, p.oldDs, p.dnskeySig.value)
    ensures p.cdnskey.Some? ==> Proven(p, CdnskeySet, p.oldDs, p.cdnskeySig.value)
    ensures p.cds.Some? ==> Proven(p, CdsSet, p.oldDs, p.cdsSig.value)
    ensures var ds := Candidate(p).value;
            EachSigns(p, ds) <==> NoZero(ds) || AlgorithmSigns(p, ds, 0)
    ensures var ds := Candidate(p).value;
            d in ds && (d.alg != 0 || AlgorithmSigns(p, ds, 0)) ==>
              exists k, e, s :: k in p.dnskey.value && k.alg == d.alg && e in ds && s in p.dnskeySig.value && Evidence(p, KeySet, k, e, s)
  {
    hide Candidate, AlgorithmSigns, Proven, Supported, Authentic, Consistent, Evidence;
    var ds := Candidate(p).value;
    AuthenticProven(p, KeySet, p.dnskeySig.value);
    if p.cdnskey.Some? {
      AuthenticProven(p, CdnskeySet, p.cdnskeySig.value);
    }
    if p.cds.Some? {
      AuthenticProven(p, CdsSet, p.cdsSig.value);
    }
    StrictExactly(p, ds);
    if d in ds && (d.alg != 0 || AlgorithmSigns(p, ds, 0)) {
      var j :| 0 <= j < |ds| && ds[j] == d;
      SupportedIs(p, ds, d.alg);
      SignerProves(p, ds, d.alg);
    }
  }

  lemma SignerProves(p: Input, ds: seq<Ds>, alg: nat)
    requires p.dnskey.Some? && p.dnskeySig.Some? && AlgorithmSigns(p, ds, alg)
    ensures exists k, e, s :: k in p.dnskey.value && k.alg == alg && e in ds && s in p.dnskeySig.value && Evidence(p, KeySet, k, e, s)
  {
    var i :| 0 <= i < |p.dnskey.value| && p.dnskey.value[i].alg == alg
             && Vouches(p, KeySet, p.dnskey.value[i], ds, Tight, p.dnskeySig.value);
    VouchedFor(p, KeySet, p.dnskey.value[i], ds, Tight, p.dnskeySig.value);
  }

  // A run that met these times was clear of the two cases in which the recorded
  // time does not serve as the next limit.
  ghost predicate Recorded(p: Input, times: seq<u32>) {
    times != [] && Accepted(p.notBefore, times) && !ZeroFirst(p.notBefore, times) && !HalfCircle(p.notBefore, times)
  }

  // The next run on the same records, with the recorded time as its limit.
  function Next(p: Input, oldest: u32): Input {
    p.(notBefore := oldest)
  }

  // It takes every signature again that was good in this one.
  lemma Repeatable(p: Input, times: seq<u32>, kind: Kind, info: KeyInfo, s: Sig)
    requires Recorded(p, times) && s.timeSigned in times
    requires Good(p, kind, info, s)
    ensures Good(Next(p, Oldest(times)), kind, info, s)
  {
    Sufficient(p.notBefore, times);
  }

  lemma VouchesAgain(p: Input, times: seq<u32>, kind: Kind, i: nat, ds: seq<Ds>, strict: Strictness, sigs: seq<Sig>)
    requires Recorded(p, times) && p.dnskey.Some? && Seen(p, kind, ds, strict, sigs, times)
    requires i < |p.dnskey.value| && Vouches(p, kind, p.dnskey.value[i], ds, strict, sigs)
    ensures Vouches(Next(p, Oldest(times)), kind, p.dnskey.value[i], ds, strict, sigs)
  {
    var k := p.dnskey.value[i];
    var t :| 0 <= t < |sigs| && Good(p, kind, KeyInfo(k, true), sigs[t]);
    Repeatable(p, times, kind, KeyInfo(k, true), sigs[t]);
  }

  lemma AuthenticAgain(p: Input, times: seq<u32>, kind: Kind, sigs: seq<Sig>)
    requires Recorded(p, times) && p.dnskey.Some? && Seen(p, kind, p.oldDs, Loose, sigs, times)
    requires Authentic(p, kind, sigs)
    ensures Authentic(Next(p, Oldest(times)), kind, sigs)
  {
    var i :| 0 <= i < |p.dnskey.value| && p.dnskey.value[i].alg != 0
             && Vouches(p, kind, p.dnskey.value[i], p.oldDs, Loose, sigs);
    VouchesAgain(p, times, kind, i, p.oldDs, Loose, sigs);
  }

  // A set that passed passes again if and only if it has no record with
  // algorithm zero or some key does not sign again.
  lemma StrictAgain(p: Input, times: seq<u32>, ds: seq<Ds>)
    requires Recorded(p, times) && Trusted(p) && Seen(p, KeySet, ds, Tight, p.dnskeySig.value, times) && PassesStrict(p, ds)
    ensures var q := Next(p, Oldest(times));
            PassesStrict(q, ds) <==> NoZero(ds) || Supported(q, ds, 0)
  {
    var q := Next(p, Oldest(times));
    forall j | 0 <= j < |ds| && ds[j].alg != 0
      ensures Supported(q, ds, ds[j].alg)
    {
      SupportedAgain(p, times, ds, ds[j].alg);
    }
    hide Supported;
  }

  lemma SupportedAgain(p: Input, times: seq<u32>, ds: seq<Ds>, alg: nat)
    requires Recorded(p, times) && Trusted(p) && Seen(p, KeySet, ds, Tight, p.dnskeySig.value, times)
    requires alg != 0 && Supported(p, ds, alg)
    ensures Supported(Next(p, Oldest(times)), ds, alg)
  {
    var i :| 0 <= i < |p.dnskey.value| && AlgoIs(p, ds, p.dnskey.value[i], alg);
    VouchesAgain(p, times, KeySet, i, ds, Tight, p.dnskeySig.value);
    assert AlgoIs(Next(p, Oldest(times)), ds, p.dnskey.value[i], alg);
  }

  lemma TrustedAgain(p: Input, times: seq<u32>)
    requires Recorded(p, times) && Trusted(p) && AllSeen(p, times)
    ensures Trusted(Next(p, Oldest(times)))
  {
    AuthenticAgain(p, times, KeySet, p.dnskeySig.value);
    if p.cdnskey.Some? {
      AuthenticAgain(p, times, CdnskeySet, p.cdnskeySig.value);
    }
    if p.cds.Some? {
      AuthenticAgain(p, times, CdsSet, p.cdsSig.value);
    }
  }

  // The next run writes the same DS set if and only if the set has no record
  // with algorithm zero or some key does not sign again.
  lemma Rerun(p: Input, times: seq<u32>)
    requires Recorded(p, times) && Accepts(p) && AllSeen(p, times)
    requires Seen(p, KeySet, Candidate(p).value, Tight, p.dnskeySig.value, times)
    ensures var q, ds := Next(p, Oldest(times)), Candidate(p).value;
            Candidate(q) == Candidate(p) && (Accepts(q) <==> NoZero(ds) || Supported(q, ds, 0))
  {
    TrustedAgain(p, times);
    StrictAgain(p, times, Candidate(p).value);
    hide PassesStrict, Supported, NoZero, Consistent;
  }

  // That is so when no signature refused as too old is accepted again, for
  // which Replay.RefusedAgain has the condition.
  lemma RerunRefused(p: Input, times: seq<u32>)
    requires Recorded(p, times) && Accepts(p) && AllSeen(p, times)
    requires Seen(p, KeySet, Candidate(p).value, Tight, p.dnskeySig.value, times)
    requires forall t :: 0 <= t < |p.dnskeySig.value| && Lt(p.dnskeySig.value[t].timeSigned, p.notBefore) ==>
               Lt(p.dnskeySig.value[t].timeSigned, Oldest(times))
    ensures Accepts(Next(p, Oldest(times)))
  {
    hide Recorded, Trusted, Candidate, Consistent, Supported, Seen, AllSeen, Lt, Oldest;
    var q, ds := Next(p, Oldest(times)), Candidate(p).value;
    Rerun(p, times);
    TrustedParts(p);
    if j :| 0 <= j < |ds| && ds[j].alg == 0 {
      assert Supported(p, ds, ds[j].alg);
      ZeroAgain(p, Oldest(times), ds);
    }
  }

  lemma TrustedParts(p: Input)
    requires Trusted(p)
    ensures p.dnskey.Some? && p.dnskeySig.Some?
  {
  }

  // A key that does not sign still does not when no signature comes back.
  lemma ZeroAgain(p: Input, limit: u32, ds: seq<Ds>)
    requires p.dnskey.Some? && p.dnskeySig.Some? && Supported(p, ds, 0)
    requires forall t :: 0 <= t < |p.dnskeySig.value| && Lt(p.dnskeySig.value[t].timeSigned, p.notBefore) ==>
               Lt(p.dnskeySig.value[t].timeSigned, limit)
    ensures Supported(Next(p, limit), ds, 0)
  {
    hide Lt, Identified;
    var i :| 0 <= i < |p.dnskey.value| && AlgoIs(p, ds, p.dnskey.value[i], 0);
    var q, k := Next(p, limit), p.dnskey.value[i];
    forall t | 0 <= t < |p.dnskeySig.value| && Good(q, KeySet, KeyInfo(k, true), p.dnskeySig.value[t])
      ensures Good(p, KeySet, KeyInfo(k, true), p.dnskeySig.value[t])
    {
    }
    assert AlgoIs(q, ds, k, 0);
  }
}
