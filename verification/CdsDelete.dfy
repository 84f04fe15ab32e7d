// The request to remove the DS records (section 4 of RFC 8078) as dnssec-cds
// handles it: a CDNSKEY record with algorithm zero (bin/dnssec/dnssec-cds.c).
module CdsDelete {
  import opened Base
  import opened Serial
  import opened Replay
  import opened Digests
  import opened Cds

  // A child with two keys and the record that asks for the removal, and what
  // the DS records made from them are.
  const ONE := Dnskey(1, 13, [1], true)
  const TWO := Dnskey(2, 13, [2], true)
  const ZERO := Dnskey(0, 0, [0], false)

  const DS_ONE := Ds(1, 13, 2, [1])
  const DS_TWO := Ds(2, 13, 2, [2])
  const DS_ZERO := Ds(0, 0, 2, [0])

  // The key itself for its digest; every signature verifies.
  const PLAIN := Crypto((k: Dnskey, t: nat) => Some(k.octets), (kind: Kind, k: Dnskey, s: Sig) => true)

  // The second key's signature is too old for the limit 1000, but not for the
  // time of the first one's.
  const BY_ONE := Sig(1, 13, [], TWO31 + 999, [])
  const BY_TWO := Sig(2, 13, [], 999, [])

  function Asks(limit: u32, cdnskeys: seq<Dnskey>): Input {
    Input([], PLAIN, limit, [DS_ONE], [2], false, Some([ONE, TWO]), Some([BY_ONE, BY_TWO]), Some(cdnskeys), Some([BY_ONE]), None, None)
  }

  lemma Made(limit: u32, keys: seq<Dnskey>, ds: seq<Ds>)
    requires DigestAll(PLAIN, keys, 2) == Some(ds) && ds != []
    ensures Candidate(Asks(limit, keys)) == Some(ds)
  {
    var dtypes: seq<nat> := [2];
    assert dtypes[..0] == [] && [] + ds == ds;
    assert FromCdnskey(PLAIN, keys, dtypes[..0]) == Some([]);
    hide DigestAll;
    assert FromCdnskey(PLAIN, keys, dtypes) == Some(ds);
  }

  lemma Candidates(limit: u32)
    ensures Candidate(Asks(limit, [ZERO])) == Some([DS_ZERO])
    ensures Candidate(Asks(limit, [ZERO, ONE, TWO])) == Some([DS_ZERO, DS_ONE, DS_TWO])
  {
    assert [] + [ZERO] == [ZERO] && [] + [DS_ZERO] == [DS_ZERO];
    assert [ZERO] + [ONE] == [ZERO, ONE] && [DS_ZERO] + [DS_ONE] == [DS_ZERO, DS_ONE];
    assert [ZERO, ONE] + [TWO] == [ZERO, ONE, TWO] && [DS_ZERO, DS_ONE] + [DS_TWO] == [DS_ZERO, DS_ONE, DS_TWO];
    hide DigestAll, Candidate;
    Made(limit, [ZERO], [DS_ZERO]);
    Made(limit, [ZERO, ONE, TWO], [DS_ZERO, DS_ONE, DS_TWO]);
  }

  // The first key's signature is good as long as it is not too old.
  lemma FirstVouches(p: Input, kind: Kind, ds: seq<Ds>, strict: Strictness, sigs: seq<Sig>)
    requires p.crypto == PLAIN && p.name == [] && !Lt(BY_ONE.timeSigned, p.notBefore)
    requires Identified(PLAIN, ONE, ds, strict) && |sigs| > 0 && sigs[0] == BY_ONE
    ensures Vouches(p, kind, ONE, ds, strict, sigs)
  {
    hide Identified;
    assert Good(p, kind, KeyInfo(ONE, true), sigs[0]);
  }

  lemma AsksTrusted(limit: u32, keys: seq<Dnskey>)
    requires !Lt(BY_ONE.timeSigned, limit)
    ensures Trusted(Asks(limit, keys))
  {
    var p := Asks(limit, keys);
    assert DsOf(PLAIN, ONE, p.oldDs[0]) && Identified(PLAIN, ONE, p.oldDs, Loose);
    hide Identified, Vouches;
    FirstVouches(p, KeySet, p.oldDs, Loose, p.dnskeySig.value);
    FirstVouches(p, CdnskeySet, p.oldDs, Loose, p.cdnskeySig.value);
    assert p.dnskey.value[0] == ONE;
  }

  // The request alone: a DS record is made from it and written. No key of the
  // child matches it, let alone signs for it.
  lemma DeleteAccepted()
    ensures var p := Asks(1000, [ZERO]);
            Accepts(p) && Candidate(p) == Some([DS_ZERO]) && !EachSigns(p, [DS_ZERO])
  {
    var p := Asks(1000, [ZERO]);
    Candidates(1000);
    AsksTrusted(1000, [ZERO]);
    OneType([DS_ZERO], 2);
    hide Trusted, Candidate, Consistent;
    Unmatched(p);
  }

  lemma Unmatched(p: Input)
    requires p.crypto == PLAIN && p.dnskey == Some([ONE, TWO]) && p.dnskeySig.Some?
    ensures PassesStrict(p, [DS_ZERO]) && !EachSigns(p, [DS_ZERO])
  {
    var ds, keys := [DS_ZERO], p.dnskey.value;
    assert forall k, m :: 0 <= m < |ds| && k in keys ==> !LooksAlike(k, ds[m]);
    assert forall i :: 0 <= i < |keys| ==> keys[i] in keys && !Identified(PLAIN, keys[i], ds, Tight);
    hide Identified, SignedBy;
    assert AlgoIs(p, ds, keys[0], 0) && Supported(p, ds, 0);
    assert !AlgorithmSigns(p, ds, ds[0].alg);
  }

  // Together with both keys: this run writes the set, because the second key
  // does not sign; the next run accepts its signature again and refuses the set.
  lemma RerunFails()
    ensures var p, times := Asks(1000, [ZERO, ONE, TWO]), [BY_ONE.timeSigned];
            && Accepts(p) && Recorded(p, times) && AllSeen(p, times)
            && Seen(p, KeySet, Candidate(p).value, Tight, p.dnskeySig.value, times)
            && !Accepts(Next(p, Oldest(times)))
  {
    var p, ds := Asks(1000, [ZERO, ONE, TWO]), [DS_ZERO, DS_ONE, DS_TWO];
    var times: seq<u32> := [BY_ONE.timeSigned];
    ThisRun(p, ds);
    RecordedTime(p, times);
    NextRun(Next(p, Oldest(times)), ds);
    hide Accepts, Candidate;
    SeenOnly(p, times, ds);
  }

  lemma ThisRun(p: Input, ds: seq<Ds>)
    requires p == Asks(1000, [ZERO, ONE, TWO]) && ds == [DS_ZERO, DS_ONE, DS_TWO]
    ensures Accepts(p) && Candidate(p) == Some(ds)
  {
    Candidates(1000);
    AsksTrusted(1000, [ZERO, ONE, TWO]);
    OneType(ds, 2);
    AllMatch(ds);
    FirstOnly(p, ds);
    hide Trusted, Candidate, Consistent, PassesStrict;
  }

  lemma NextRun(q: Input, ds: seq<Ds>)
    requires q == Asks(BY_ONE.timeSigned, [ZERO, ONE, TWO]) && ds == [DS_ZERO, DS_ONE, DS_TWO]
    ensures !Accepts(q)
  {
    Candidates(BY_ONE.timeSigned);
    AllMatch(ds);
    BothSign(q, ds);
    hide Trusted, Candidate, Consistent, PassesStrict;
  }

  lemma RecordedTime(p: Input, times: seq<u32>)
    requires p == Asks(1000, [ZERO, ONE, TWO]) && times == [BY_ONE.timeSigned]
    ensures Recorded(p, times) && Next(p, Oldest(times)) == Asks(BY_ONE.timeSigned, [ZERO, ONE, TWO])
  {
    OldestSnoc([], BY_ONE.timeSigned);
    assert [] + times == times;
  }

  lemma AllMatch(ds: seq<Ds>)
    requires ds == [DS_ZERO, DS_ONE, DS_TWO]
    ensures Identified(PLAIN, ONE, ds, Tight) && Identified(PLAIN, TWO, ds, Tight)
  {
    assert DsOf(PLAIN, ONE, ds[1]) && DsOf(PLAIN, TWO, ds[2]);
    assert !Comparable(PLAIN, ONE, ds[0]) && !Comparable(PLAIN, TWO, ds[0]) && !Comparable(PLAIN, TWO, ds[1]);
  }

  // With the first limit only the first key signs.
  lemma FirstOnly(p: Input, ds: seq<Ds>)
    requires p == Asks(1000, [ZERO, ONE, TWO]) && ds == [DS_ZERO, DS_ONE, DS_TWO]
    requires Identified(PLAIN, ONE, ds, Tight)
    ensures PassesStrict(p, ds)
  {
    var keys, sigs := p.dnskey.value, p.dnskeySig.value;
    FirstVouches(p, KeySet, ds, Tight, sigs);
    assert !Good(p, KeySet, KeyInfo(TWO, true), sigs[0]) && !Good(p, KeySet, KeyInfo(TWO, true), sigs[1]);
    assert !SignedBy(p, KeySet, KeyInfo(TWO, true), sigs);
    hide SignedBy, Identified;
    assert AlgoIs(p, ds, keys[0], 13) && AlgoIs(p, ds, keys[1], 0);
    assert Supported(p, ds, 13) && Supported(p, ds, 0);
  }

  // With the recorded time both do.
  lemma BothSign(q: Input, ds: seq<Ds>)
    requires q == Asks(BY_ONE.timeSigned, [ZERO, ONE, TWO]) && ds == [DS_ZERO, DS_ONE, DS_TWO]
    requires Identified(PLAIN, ONE, ds, Tight) && Identified(PLAIN, TWO, ds, Tight)
    ensures !PassesStrict(q, ds)
  {
    var keys, sigs := q.dnskey.value, q.dnskeySig.value;
    FirstVouches(q, KeySet, ds, Tight, sigs);
    assert Good(q, KeySet, KeyInfo(TWO, true), sigs[1]);
    assert Vouches(q, KeySet, TWO, ds, Tight, sigs);
    hide Vouches, Identified;
    assert !AlgoIs(q, ds, keys[0], 0) && !AlgoIs(q, ds, keys[1], 0);
    assert !Supported(q, ds, ds[0].alg);
  }

  lemma SeenOnly(p: Input, times: seq<u32>, ds: seq<Ds>)
    requires p == Asks(1000, [ZERO, ONE, TWO]) && times == [BY_ONE.timeSigned] && Trusted(p)
    ensures AllSeen(p, times) && Seen(p, KeySet, ds, Tight, p.dnskeySig.value, times)
  {
    assert times[0] == BY_ONE.timeSigned;
    assert forall kind: Kind, info: KeyInfo :: !Good(p, kind, info, BY_TWO);
    hide Identified, Trusted;
  }
}
