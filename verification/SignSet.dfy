// Which signatures of an RRset are kept, dropped or made (signset,
// keythatsigned in bin/dnssec/dnssec-signzone.c), for one call at a time.
module SignSet {
  import opened Base
  import opened Names
  import opened Serial

  const CDS := 59
  const CDNSKEY := 60
  const DNSKEY := 48

  datatype Key = Key(
    id: nat, alg: nat, name: Name, index: nat,
    forceSign: bool, hintSign: bool, forcePublish: bool, hintPublish: bool, hintRemove: bool,
    ksk: bool, zoneKey: bool, active: bool, revoked: bool,
    predecessor: Option<nat>, successor: Option<nat>)

  datatype Sig = Sig(keyId: nat, alg: nat, signer: Name, timeSigned: u32, timeExpire: u32, originalTtl: u32, octets: seq<byte>)

  // The options and the surroundings of a run; file is what the key directory
  // holds for a signer, tag and algorithm, and expectKey whether a signer's
  // keys should be found.
  datatype Env = Env(
    origin: Name, now: u32, cycle: u32, startTime: u32, endTime: u32,
    removeOrphanSigs: bool, removeInactKeySigs: bool, ignoreKskFlag: bool, keysetKskOnly: bool,
    expectKey: Name -> bool, file: (Name, nat, nat) -> Option<Key>)

  // The RRset to sign, its signatures, and what verifying one with a key says.
  datatype Job = Job(env: Env, name: Name, rtype: nat, ttl: u32, sigs: seq<Sig>, sigTtl: u32, verifies: (Key, Sig) -> bool)

  // A signature record: one that was there, or a new one made with a key.
  datatype Rr = Old(sig: Sig) | New(key: Key)

  datatype Change = Change(rr: Rr, ttl: u32)

  predicate IsSigningKey(k: Key) {
    k.forceSign || k.hintSign
  }

  predicate IsPublishedKey(k: Key) {
    (k.forcePublish || k.hintPublish) && !k.hintRemove
  }

  predicate IsZoneKey(e: Env, k: Key) {
    k.name == e.origin && k.zoneKey
  }

  predicate IsZsk(e: Env, k: Key) {
    e.ignoreKskFlag || !k.ksk
  }

  // The TTL that all signatures get.
  function Ttl(j: Job): u32 {
    var life := (j.env.endTime - j.env.startTime) % TWO32;
    if j.ttl < life then j.ttl else life
  }

  // --------------------------------------------------------- the key list

  predicate Matches(k: Key, s: Sig) {
    k.id == s.keyId && k.alg == s.alg && k.name == s.signer
  }

  // keythatsigned_unlocked
  function Lookup(keys: seq<Key>, s: Sig): (r: Option<nat>)
    ensures r.Some? ==> r.value < |keys| && Matches(keys[r.value], s)
    ensures r.Some? ==> keys[r.value].id == s.keyId && keys[r.value].alg == s.alg && keys[r.value].name == s.signer
    ensures r.None? ==> forall i :: 0 <= i < |keys| ==> !Matches(keys[i], s)
    ensures r.Some? ==> forall i :: 0 <= i < r.value ==> !Matches(keys[i], s)
  {
    if keys == [] then None
    else
      var n := |keys| - 1;
      var r := Lookup(keys[..n], s);
      if r.Some? then r else if Matches(keys[n], s) then Some(n) else None
  }

  // A key read from its file is neither published nor signing.
  function FromFile(k: Key, s: Sig, index: nat): Key {
    k.(id := s.keyId, alg := s.alg, name := s.signer, index := index,
       forceSign := false, hintSign := false, forcePublish := false, hintPublish := false, hintRemove := false)
  }

  // Every key knows its place.
  ghost predicate Indexed(keys: seq<Key>) {
    forall i :: 0 <= i < |keys| ==> keys[i].index == i
  }

  // more extends keys by keys that their files hold.
  ghost predicate Extends(e: Env, keys: seq<Key>, more: seq<Key>) {
    keys <= more && forall i :: |keys| <= i < |more| ==>
      && e.file(more[i].name, more[i].id, more[i].alg).Some? && !more[i].forceSign && !more[i].hintSign
      && !more[i].forcePublish && !more[i].hintPublish && !more[i].hintRemove
  }

  // Looking for the key of s again would not change the list.
  ghost predicate Known(e: Env, keys: seq<Key>, s: Sig) {
    Lookup(keys, s).Some? || e.file(s.signer, s.keyId, s.alg).None?
  }

  lemma LookupStable(e: Env, keys: seq<Key>, more: seq<Key>, s: Sig)
    requires Extends(e, keys, more) && Known(e, keys, s)
    ensures Lookup(more, s) == Lookup(keys, s) && Known(e, more, s)
  {
    assert forall i :: 0 <= i < |keys| ==> more[i] == keys[i];
  }

  class KeyList {
    var keys: seq<Key>
    var count: nat

    ghost predicate Valid()
      reads this
    {
      count == |keys| && Indexed(keys)
    }

    constructor (keys: seq<Key>)
      requires Indexed(keys)
      ensures Valid() && this.keys == keys
    {
      this.keys, count := keys, |keys|;
    }

    // keythatsigned: looks in the list, then on disk; a key found there is
    // appended.
    method KeyThatSigned(e: Env, s: Sig) returns (key: Option<Key>)
      requires Valid()
      modifies this
      ensures Valid() && Extends(e, old(keys), keys) && |keys| <= |old(keys)| + 1
      ensures Known(e, keys, s)
      ensures key == KeyOf(keys, s)
    {
      hide Lookup;
      var found := Find(s);
      if found.Some? {
        return Some(keys[found.value]);
      }
      var file := e.file(s.signer, s.keyId, s.alg);
      if file.None? {
        return None;
      }
      var k := FromFile(file.value, s, count);
      LookupAppended(keys, k, s);
      count := count + 1;
      keys := keys + [k];
      return Some(k);
    }

    method Find(s: Sig) returns (r: Option<nat>)
      ensures r == Lookup(keys, s)
    {
      var i := 0;
      while i < |keys|
        invariant i <= |keys| && Lookup(keys[..i], s).None?
      {
        assert keys[..i + 1][..i] == keys[..i];
        if Matches(keys[i], s) {
          return Some(i);
        }
        i := i + 1;
      }
      assert keys[..i] == keys;
      return None;
    }
  }

  lemma LookupAppended(keys: seq<Key>, k: Key, s: Sig)
    requires Lookup(keys, s).None? && Matches(k, s)
    ensures Lookup(keys + [k], s) == Some(|keys|)
  {
    assert (keys + [k])[..|keys|] == keys;
  }

  function KeyOf(keys: seq<Key>, s: Sig): Option<Key> {
    if Lookup(keys, s).Some? then Some(keys[Lookup(keys, s).value]) else None
  }

  // ------------------------------------------------------ one old signature

  datatype Decision = Decision(keep: bool, resign: bool)

  function Decide(j: Job, key: Option<Key>, s: Sig): (d: Decision)
    ensures !(d.keep && d.resign)
    ensures d.resign ==> key.Some? && IsSigningKey(key.value)
  {
    var e := j.env;
    var future := Lt(e.now, s.timeSigned);
    var expired := Gt((e.now + e.cycle) % TWO32, s.timeExpire);
    if Gt(s.timeSigned, s.timeExpire) then Decision(false, false)
    else if key.None? && !future && e.expectKey(s.signer) then Decision(false, false)
    else if key.None? || future then Decision(!expired && !e.removeOrphanSigs, false)
    else
      var k := key.value;
      var good := !expired && s.originalTtl == j.ttl && j.verifies(k, s);
      if !k.active && e.removeInactKeySigs then Decision(false, false)
      else if IsSigningKey(k) then Decision(good, !good)
      else if !IsPublishedKey(k) && e.removeOrphanSigs then Decision(false, false)
      else if IsZoneKey(e, k) then Decision(good, false)
      else Decision(!expired, false)
  }

  predicate Future(e: Env, s: Sig) {
    Lt(e.now, s.timeSigned)
  }

  // The validity period is one, and does not end within the cycle.
  predicate InForce(e: Env, s: Sig) {
    !Gt(s.timeSigned, s.timeExpire) && !Gt((e.now + e.cycle) % TWO32, s.timeExpire)
  }

  predicate Intact(j: Job, k: Key, s: Sig) {
    s.originalTtl == j.ttl && j.verifies(k, s)
  }

  // What is kept is in force. From the future it is kept unseen, unless orphans
  // are removed; a signature of a signing key or a zone key is otherwise kept
  // only if it is intact. What is replaced is a signing key's own.
  lemma KeepExactly(j: Job, key: Option<Key>, s: Sig)
    ensures var e := j.env;
            Decide(j, key, s).keep <==>
            InForce(e, s) &&
            if Future(e, s) then !e.removeOrphanSigs
            else if key.None? then !e.removeOrphanSigs && !e.expectKey(s.signer)
            else
              var k := key.value;
              var signing := k.forceSign || k.hintSign;
              && (k.active || !e.removeInactKeySigs)
              && (signing || (k.zoneKey && k.name == e.origin) ==> Intact(j, k, s))
              && (signing || !e.removeOrphanSigs || (!k.hintRemove && (k.forcePublish || k.hintPublish)))
    ensures Decide(j, key, s).resign <==>
            && key.Some? && (key.value.forceSign || key.value.hintSign) && (key.value.active || !j.env.removeInactKeySigs)
            && !Future(j.env, s) && !Gt(s.timeSigned, s.timeExpire) && !(InForce(j.env, s) && Intact(j, key.value, s))
  {
  }

  // The decision on signature t of the set, with the keys of the final list.
  function Verdict(j: Job, keys: seq<Key>, t: nat): Decision
    requires t < |j.sigs|
  {
    Decide(j, KeyOf(keys, j.sigs[t]), j.sigs[t])
  }

  // Among the first n signatures, one by key i is kept or made anew.
  ghost predicate NowSigned(j: Job, keys: seq<Key>, n: nat, i: nat)
    requires n <= |j.sigs|
  {
    n > 0 && (NowSigned(j, keys, n - 1, i) || SignedBy(j, keys, n - 1, i))
  }

  ghost predicate SignedBy(j: Job, keys: seq<Key>, t: nat, i: nat)
    requires t < |j.sigs|
  {
    Lookup(keys, j.sigs[t]) == Some(i) && (Verdict(j, keys, t).keep || Verdict(j, keys, t).resign)
  }

  // What is taken away and what is added for signature t.
  ghost function DelAt(j: Job, keys: seq<Key>, t: nat): set<Change>
    requires t < |j.sigs|
  {
    if !Verdict(j, keys, t).keep || j.sigTtl != Ttl(j) then {Change(Old(j.sigs[t]), j.sigTtl)} else {}
  }

  ghost function AddAt(j: Job, keys: seq<Key>, t: nat): set<Change>
    requires t < |j.sigs|
  {
    var v := Verdict(j, keys, t);
    if v.resign then {Change(New(KeyOf(keys, j.sigs[t]).value), Ttl(j))}
    else if v.keep && j.sigTtl != Ttl(j) then {Change(Old(j.sigs[t]), Ttl(j))}
    else {}
  }

  ghost function Dels(j: Job, keys: seq<Key>, n: nat): set<Change>
    requires n <= |j.sigs|
  {
    if n == 0 then {} else Dels(j, keys, n - 1) + DelAt(j, keys, n - 1)
  }

  ghost function Adds(j: Job, keys: seq<Key>, n: nat): set<Change>
    requires n <= |j.sigs|
  {
    if n == 0 then {} else Adds(j, keys, n - 1) + AddAt(j, keys, n - 1)
  }

  lemma StableAt(j: Job, keys: seq<Key>, more: seq<Key>, t: nat)
    requires t < |j.sigs| && Extends(j.env, keys, more) && Known(j.env, keys, j.sigs[t])
    ensures Known(j.env, more, j.sigs[t])
    ensures DelAt(j, more, t) == DelAt(j, keys, t) && AddAt(j, more, t) == AddAt(j, keys, t)
    ensures forall i :: SignedBy(j, more, t, i) == SignedBy(j, keys, t, i)
  {
    LookupStable(j.env, keys, more, j.sigs[t]);
    hide Decide, Lookup, Ttl;
    assert KeyOf(more, j.sigs[t]) == KeyOf(keys, j.sigs[t]);
  }

  // Keys appended later change nothing for the signatures gone through.
  lemma {:induction false} Stable(j: Job, keys: seq<Key>, more: seq<Key>, n: nat)
    requires n <= |j.sigs| && Extends(j.env, keys, more)
    requires forall t :: 0 <= t < n ==> Known(j.env, keys, j.sigs[t])
    ensures forall t :: 0 <= t < n ==> Known(j.env, more, j.sigs[t])
    ensures Dels(j, more, n) == Dels(j, keys, n) && Adds(j, more, n) == Adds(j, keys, n)
    ensures forall i :: NowSigned(j, more, n, i) == NowSigned(j, keys, n, i)
  {
    hide DelAt, AddAt, SignedBy, Known, Extends;
    if n > 0 {
      Stable(j, keys, more, n - 1);
      StableAt(j, keys, more, n - 1);
    }
  }

  // --------------------------------------------------------- the keys' turn

  // Key sets at the apex are signed by key-signing keys.
  predicate KeySet(j: Job) {
    (j.rtype == CDS || j.rtype == CDNSKEY || j.rtype == DNSKEY) && j.name == j.env.origin
  }

  // pre is the predecessor of k and k its successor.
  predicate Linked(e: Env, k: Key, pre: Key) {
    k.predecessor == Some(pre.id) && pre.successor == Some(k.id) && k.alg == pre.alg && IsZsk(e, pre)
  }

  ghost predicate HaveKsk(keys: seq<Key>, k: Key) {
    k.ksk || exists i :: 0 <= i < |keys| && keys[i].alg == k.alg && !keys[i].revoked && keys[i].ksk
  }

  // Key i makes a signature after the old ones have been gone through.
  ghost predicate Signs(j: Job, keys: seq<Key>, i: nat)
    requires i < |keys|
  {
    var k := keys[i];
    && !NowSigned(j, keys, |j.sigs|, i) && IsSigningKey(k)
    && if KeySet(j) then k.ksk || !HaveKsk(keys, k) || (IsZsk(j.env, k) && !j.env.keysetKskOnly)
       else IsZsk(j.env, k) && !PredecessorSigned(j, keys, k)
  }

  ghost predicate PredecessorSigned(j: Job, keys: seq<Key>, k: Key) {
    exists i :: 0 <= i < |keys| && Linked(j.env, k, keys[i]) && NowSigned(j, keys, |j.sigs|, i)
  }

  // What the first n keys add.
  ghost function KeyAdds(j: Job, keys: seq<Key>, n: nat): set<Change>
    requires n <= |keys|
  {
    if n == 0 then {} else KeyAdds(j, keys, n - 1) + if Signs(j, keys, n - 1) then {Change(New(keys[n - 1]), Ttl(j))} else {}
  }

  // ------------------------------------------------------------- signset

  ghost function Elems(s: seq<Change>): set<Change> {
    set c | c in s
  }

  lemma ElemsSnoc(s: seq<Change>, c: Change)
    ensures Elems(s + [c]) == Elems(s) + {c}
  {
  }

  // The flag arrays after n signatures: they have room for every key.
  ghost predicate Flags(j: Job, keys: seq<Key>, n: nat, now: seq<bool>)
    requires n <= |j.sigs|
  {
    |keys| <= |now| && forall i :: 0 <= i < |now| ==> now[i] == NowSigned(j, keys, n, i)
  }

  lemma ExtendsMore(e: Env, a: seq<Key>, b: seq<Key>, c: seq<Key>)
    requires Extends(e, a, b) && Extends(e, b, c)
    ensures Extends(e, a, c)
  {
    assert forall i :: 0 <= i < |b| ==> c[i] == b[i];
  }

  // Signatures before t are known to the list, and the changes noted are theirs.
  ghost predicate Noted(j: Job, keys: seq<Key>, t: nat, del: seq<Change>, add: seq<Change>, now: seq<bool>)
    requires t <= |j.sigs|
  {
    && (forall u :: 0 <= u < t ==> Known(j.env, keys, j.sigs[u]))
    && Elems(del) == Dels(j, keys, t) && Elems(add) == Adds(j, keys, t)
    && Flags(j, keys, t, now)
  }

  lemma NotedMore(j: Job, keys: seq<Key>, more: seq<Key>, t: nat, del: seq<Change>, add: seq<Change>, now: seq<bool>)
    requires t <= |j.sigs| && Noted(j, keys, t, del, add, now) && Extends(j.env, keys, more) && |more| <= |now|
    ensures Noted(j, more, t, del, add, now)
  {
    Stable(j, keys, more, t);
  }

  lemma NotedBegins(j: Job, keys: seq<Key>, now: seq<bool>)
    requires |keys| <= |now| && forall i :: 0 <= i < |now| ==> !now[i]
    ensures Noted(j, keys, 0, [], [], now) && Extends(j.env, keys, keys)
  {
  }

  lemma NotedNext(j: Job, keys: seq<Key>, t: nat, del: seq<Change>, add: seq<Change>, now: seq<bool>,
                  del': seq<Change>, add': seq<Change>, now': seq<bool>)
    requires t < |j.sigs| && Noted(j, keys, t, del, add, now) && Known(j.env, keys, j.sigs[t])
    requires Elems(del') == Elems(del) + DelAt(j, keys, t) && Elems(add') == Elems(add) + AddAt(j, keys, t)
    requires |now'| == |now| && forall i :: 0 <= i < |now| ==> now'[i] == (now[i] || SignedBy(j, keys, t, i))
    ensures Noted(j, keys, t + 1, del', add', now')
  {
    hide DelAt, AddAt, SignedBy, Known, Elems;
  }

  // The loop over the existing signatures.
  method GoThrough(list: KeyList, j: Job, was: array<bool>, now: array<bool>) returns (del: seq<Change>, add: seq<Change>)
    requires list.Valid() && was != now && was.Length == now.Length == |list.keys| + |j.sigs|
    requires forall i :: 0 <= i < now.Length ==> !now[i]
    modifies list, was, now
    ensures list.Valid() && Extends(j.env, old(list.keys), list.keys) && |list.keys| <= now.Length
    ensures Noted(j, list.keys, |j.sigs|, del, add, now[..])
  {
    hide *;
    del, add := [], [];
    var t := 0;
    NotedBegins(j, list.keys, now[..]);
    while t < |j.sigs|
      invariant t <= |j.sigs| && list.Valid() && Extends(j.env, old(list.keys), list.keys)
      invariant |list.keys| <= |old(list.keys)| + t
      invariant Noted(j, list.keys, t, del, add, now[..])
    {
      ghost var keys := list.keys;
      var key := list.KeyThatSigned(j.env, j.sigs[t]);
      NotedMore(j, keys, list.keys, t, del, add, now[..]);
      ExtendsMore(j.env, old(list.keys), keys, list.keys);
      del, add := One(list, j, t, key, was, now, del, add);
      t := t + 1;
    }
  }

  // One existing signature: is it kept, dropped, or replaced?
  method One(list: KeyList, j: Job, t: nat, key: Option<Key>, was: array<bool>, now: array<bool>, del: seq<Change>, add: seq<Change>)
    returns (del': seq<Change>, add': seq<Change>)
    requires list.Valid() && t < |j.sigs| && key == KeyOf(list.keys, j.sigs[t])
    requires was != now && was.Length == now.Length
    requires Noted(j, list.keys, t, del, add, now[..]) && Known(j.env, list.keys, j.sigs[t])
    modifies was, now
    ensures Noted(j, list.keys, t + 1, del', add', now[..])
  {
    hide Known, Lookup, Noted, Decide, Ttl, Dels, Adds, NowSigned, Elems;
    IndexOf(j, list.keys, t, del, add, now[..], key);
    del', add' := del, add;
    ghost var before := now[..];
    var sig := j.sigs[t];
    var keep, resign, mark := Examine(j, key, sig);
    if mark {
      was[key.value.index] := true;
    }
    if keep {
      if key.Some? {
        now[key.value.index] := true;
      }
      if j.sigTtl != Ttl(j) {
        ElemsSnoc(del, Change(Old(sig), j.sigTtl));
        del' := del + [Change(Old(sig), j.sigTtl)];
        ElemsSnoc(add, Change(Old(sig), Ttl(j)));
        add' := add + [Change(Old(sig), Ttl(j))];
      }
    } else {
      ElemsSnoc(del, Change(Old(sig), j.sigTtl));
      del' := del + [Change(Old(sig), j.sigTtl)];
    }
    if resign {
      assert !keep; // INSIST(!keep)
      ElemsSnoc(add, Change(New(key.value), Ttl(j)));
      add' := add + [Change(New(key.value), Ttl(j))];
      now[key.value.index] := true;
    }
    NotedNext(j, list.keys, t, del, add, before, del', add', now[..]);
  }

  // The key found stands at its index, for which the flag arrays have room.
  lemma IndexOf(j: Job, keys: seq<Key>, t: nat, del: seq<Change>, add: seq<Change>, now: seq<bool>, key: Option<Key>)
    requires Indexed(keys) && t < |j.sigs| && key == KeyOf(keys, j.sigs[t]) && Noted(j, keys, t, del, add, now)
    ensures key.Some? ==> key.value.index < |keys| <= |now| && Lookup(keys, j.sigs[t]) == Some(key.value.index)
                          && keys[key.value.index] == key.value
    ensures key.None? ==> Lookup(keys, j.sigs[t]).None?
  {
    hide Lookup;
  }

  // The branches of the decision, in the order of the program; mark says that
  // the signature is noted as one of a key that should sign.
  method Examine(j: Job, key: Option<Key>, sig: Sig) returns (keep: bool, resign: bool, mark: bool)
    ensures Decision(keep, resign) == Decide(j, key, sig) && (mark ==> key.Some?)
    ensures keep ==> InForce(j.env, sig)
    ensures keep && key.Some? && (IsSigningKey(key.value) || IsZoneKey(j.env, key.value)) ==>
              Future(j.env, sig) || Intact(j, key.value, sig)
    ensures resign ==> key.Some? && IsSigningKey(key.value) && !Future(j.env, sig) && !(InForce(j.env, sig) && Intact(j, key.value, sig))
  {
    var e := j.env;
    keep, resign, mark := false, false, false;
    var future := Lt(e.now, sig.timeSigned);
    var expired := Gt((e.now + e.cycle) % TWO32, sig.timeExpire);
    if Gt(sig.timeSigned, sig.timeExpire) {
    } else if key.None? && !future && e.expectKey(sig.signer) {
    } else if key.None? || future {
      keep := !expired && !e.removeOrphanSigs;
    } else if !key.value.active && e.removeInactKeySigs {
      keep := false;
    } else if IsSigningKey(key.value) {
      mark := true;
      if !expired && sig.originalTtl == j.ttl && j.verifies(key.value, sig) {
        keep := true;
      } else {
        resign := true;
      }
    } else if !IsPublishedKey(key.value) && e.removeOrphanSigs {
    } else if IsZoneKey(e, key.value) {
      mark := true;
      if !expired && sig.originalTtl == j.ttl && j.verifies(key.value, sig) {
        keep := true;
      }
    } else if !expired {
      keep := true;
    }
  }

  // signset: del and add are the changes to the set's signatures.
  method SignRrset(list: KeyList, j: Job) returns (del: seq<Change>, add: seq<Change>)
    requires list.Valid()
    modifies list
    ensures list.Valid() && Extends(j.env, old(list.keys), list.keys) && |list.keys| <= |old(list.keys)| + |j.sigs|
    ensures forall t :: 0 <= t < |j.sigs| ==> Known(j.env, list.keys, j.sigs[t])
    ensures Elems(del) == Dels(j, list.keys, |j.sigs|)
    ensures Elems(add) == Adds(j, list.keys, |j.sigs|) + KeyAdds(j, list.keys, |list.keys|)
  {
    var arraysize := list.count + |j.sigs|;
    var was := new bool[arraysize](_ => false);
    var now := new bool[arraysize](_ => false);
    hide Dels, Adds, NowSigned, Lookup, Extends, Known;
    del, add := GoThrough(list, j, was, now);
    add := KeyTurns(list, j, now, add);
  }

  // The loop over the keys.
  method KeyTurns(list: KeyList, j: Job, now: array<bool>, add: seq<Change>) returns (add': seq<Change>)
    requires list.Valid() && Flags(j, list.keys, |j.sigs|, now[..])
    ensures Elems(add') == Elems(add) + KeyAdds(j, list.keys, |list.keys|)
  {
    hide NowSigned, Lookup, HaveKsk, PredecessorSigned;
    add' := add;
    var i := 0;
    while i < |list.keys|
      invariant i <= |list.keys|
      invariant Elems(add') == Elems(add) + KeyAdds(j, list.keys, i)
    {
      var k := list.keys[i];
      assert now[..][i] == NowSigned(j, list.keys, |j.sigs|, i);
      if !now[k.index] && IsSigningKey(k) {
        var signs := KeyTurn(list, j, k, now);
        if signs {
          ElemsSnoc(add', Change(New(k), Ttl(j)));
          add' := add' + [Change(New(k), Ttl(j))];
        }
      }
      i := i + 1;
    }
  }

  // Whether a signing key without a signature makes one.
  method KeyTurn(list: KeyList, j: Job, k: Key, now: array<bool>) returns (signs: bool)
    requires list.Valid() && Flags(j, list.keys, |j.sigs|, now[..])
    ensures signs <==> if KeySet(j) then k.ksk || !HaveKsk(list.keys, k) || (IsZsk(j.env, k) && !j.env.keysetKskOnly)
                       else IsZsk(j.env, k) && !PredecessorSigned(j, list.keys, k)
  {
    if KeySet(j) {
      var haveKsk := k.ksk;
      var i := 0;
      while i < |list.keys|
        invariant i <= |list.keys|
        invariant haveKsk <==> k.ksk || exists m :: 0 <= m < i && list.keys[m].alg == k.alg && !list.keys[m].revoked && list.keys[m].ksk
      {
        var curr := list.keys[i];
        if curr.alg == k.alg && !curr.revoked && curr.ksk {
          haveKsk := true;
        }
        i := i + 1;
      }
      return k.ksk || !haveKsk || (IsZsk(j.env, k) && !j.env.keysetKskOnly);
    }
    if !IsZsk(j.env, k) {
      return false;
    }
    var havePreSig := false;
    if k.predecessor.Some? {
      var i := 0;
      while i < |list.keys|
        invariant i <= |list.keys|
        invariant havePreSig <==> exists m :: 0 <= m < i && Linked(j.env, k, list.keys[m]) && NowSigned(j, list.keys, |j.sigs|, m)
      {
        var curr := list.keys[i];
        assert now[..][i] == NowSigned(j, list.keys, |j.sigs|, i);
        if k.alg == curr.alg && IsZsk(j.env, curr) && curr.id == k.predecessor.value && curr.successor == Some(k.id) {
          if now[curr.index] {
            havePreSig := true;
          }
        }
        i := i + 1;
      }
    }
    return !havePreSig;
  }

  // ---------------------------------------------- the signatures afterwards

  ghost function Before(j: Job): set<Change> {
    set t | 0 <= t < |j.sigs| :: Change(Old(j.sigs[t]), j.sigTtl)
  }

  // The deletions are applied first, then the additions.
  ghost function Afterwards(j: Job, keys: seq<Key>): set<Change> {
    Before(j) - Dels(j, keys, |j.sigs|) + (Adds(j, keys, |j.sigs|) + KeyAdds(j, keys, |keys|))
  }

  lemma {:induction false} InDels(j: Job, keys: seq<Key>, n: nat, c: Change)
    requires n <= |j.sigs|
    ensures c in Dels(j, keys, n) <==> exists t :: 0 <= t < n && c in DelAt(j, keys, t)
  {
    if n > 0 {
      InDels(j, keys, n - 1, c);
    }
  }

  lemma {:induction false} InAdds(j: Job, keys: seq<Key>, n: nat, c: Change)
    requires n <= |j.sigs|
    ensures c in Adds(j, keys, n) <==> exists t :: 0 <= t < n && c in AddAt(j, keys, t)
  {
    if n > 0 {
      InAdds(j, keys, n - 1, c);
    }
  }

  lemma {:induction false} InKeyAdds(j: Job, keys: seq<Key>, n: nat, c: Change)
    requires n <= |keys|
    ensures c in KeyAdds(j, keys, n) <==> exists i :: 0 <= i < n && Signs(j, keys, i) && c == Change(New(keys[i]), Ttl(j))
  {
    hide Signs;
    if n > 0 {
      InKeyAdds(j, keys, n - 1, c);
    }
  }

  lemma {:induction false} WasSigned(j: Job, keys: seq<Key>, n: nat, i: nat)
    requires n <= |j.sigs|
    ensures NowSigned(j, keys, n, i) <==> exists t :: 0 <= t < n && SignedBy(j, keys, t, i)
  {
    if n > 0 {
      WasSigned(j, keys, n - 1, i);
    }
  }

  // An old signature is there afterwards exactly when it is kept, and then with
  // the TTL of the others.
  lemma KeptOrDropped(j: Job, keys: seq<Key>, c: Change)
    requires c.rr.Old?
    ensures c in Afterwards(j, keys) <==>
            c.ttl == Ttl(j) && exists t :: 0 <= t < |j.sigs| && j.sigs[t] == c.rr.sig && Verdict(j, keys, t).keep
  {
    hide Decide, KeyOf, Ttl;
    var n := |j.sigs|;
    InDels(j, keys, n, c);
    InAdds(j, keys, n, c);
    InKeyAdds(j, keys, |keys|, c);
    if c in Before(j) {
      var t :| 0 <= t < n && c == Change(Old(j.sigs[t]), j.sigTtl);
      forall u | 0 <= u < n && j.sigs[u] == j.sigs[t]
        ensures Verdict(j, keys, u) == Verdict(j, keys, t)
      {
      }
      assert c in DelAt(j, keys, t) <==> !Verdict(j, keys, t).keep || j.sigTtl != Ttl(j);
    }
    if t :| 0 <= t < n && j.sigs[t] == c.rr.sig && Verdict(j, keys, t).keep && c.ttl == Ttl(j) {
      if j.sigTtl != Ttl(j) {
        assert c in AddAt(j, keys, t);
      } else {
        assert c in Before(j);
      }
    }
  }

  // A new signature is there afterwards exactly when its key replaces one of its
  // own or signs in its turn.
  lemma MadeNew(j: Job, keys: seq<Key>, c: Change)
    requires c.rr.New?
    ensures c in Afterwards(j, keys) <==>
            && c.ttl == Ttl(j)
            && (|| (exists t :: 0 <= t < |j.sigs| && Verdict(j, keys, t).resign && KeyOf(keys, j.sigs[t]) == Some(c.rr.key))
                || (exists i :: 0 <= i < |keys| && keys[i] == c.rr.key && Signs(j, keys, i)))
  {
    hide Decide, Ttl, Signs;
    InAdds(j, keys, |j.sigs|, c);
    InKeyAdds(j, keys, |keys|, c);
    if t :| 0 <= t < |j.sigs| && Verdict(j, keys, t).resign && KeyOf(keys, j.sigs[t]) == Some(c.rr.key) && c.ttl == Ttl(j) {
      assert c in AddAt(j, keys, t);
    }
  }

  // All signatures have the same TTL afterwards: that of the RRset, but no more
  // than the time for which they are valid, in 32 bits.
  lemma OneTtl(j: Job, keys: seq<Key>, c: Change)
    requires c in Afterwards(j, keys)
    ensures c.ttl == Ttl(j)
    ensures var life := (j.env.endTime - j.env.startTime) % TWO32;
            c.ttl <= j.ttl && c.ttl <= life && (c.ttl == j.ttl || c.ttl == life)
  {
    if c.rr.Old? {
      KeptOrDropped(j, keys, c);
    } else {
      MadeNew(j, keys, c);
    }
  }

  // The signature c was made with key k.
  predicate MadeBy(c: Change, k: Key) {
    match c.rr
    case Old(s) => Matches(k, s)
    case New(k') => k' == k
  }

  ghost predicate Signed(j: Job, keys: seq<Key>, k: Key) {
    exists c :: c in Afterwards(j, keys) && MadeBy(c, k)
  }

  lemma FlagMeansSignature(j: Job, keys: seq<Key>, i: nat)
    requires i < |keys| && NowSigned(j, keys, |j.sigs|, i)
    ensures Signed(j, keys, keys[i])
  {
    WasSigned(j, keys, |j.sigs|, i);
    var t :| 0 <= t < |j.sigs| && SignedBy(j, keys, t, i);
    hide Decide, Ttl, NowSigned, Afterwards;
    if Verdict(j, keys, t).keep {
      KeptOrDropped(j, keys, Change(Old(j.sigs[t]), Ttl(j)));
      assert MadeBy(Change(Old(j.sigs[t]), Ttl(j)), keys[i]);
    } else {
      MadeNew(j, keys, Change(New(keys[i]), Ttl(j)));
      assert MadeBy(Change(New(keys[i]), Ttl(j)), keys[i]);
    }
  }

  lemma TurnMeansSignature(j: Job, keys: seq<Key>, i: nat)
    requires i < |keys| && Signs(j, keys, i)
    ensures Signed(j, keys, keys[i])
  {
    hide Signs, Afterwards;
    MadeNew(j, keys, Change(New(keys[i]), Ttl(j)));
    assert MadeBy(Change(New(keys[i]), Ttl(j)), keys[i]);
  }

  // On an ordinary RRset every signing zone-signing key has a signature, or a
  // predecessor that is linked to it both ways has one.
  lemma Coverage(j: Job, keys: seq<Key>, i: nat)
    requires i < |keys| && !KeySet(j) && IsSigningKey(keys[i]) && IsZsk(j.env, keys[i])
    ensures Signed(j, keys, keys[i]) || exists p :: 0 <= p < |keys| && Linked(j.env, keys[i], keys[p]) && Signed(j, keys, keys[p])
  {
    hide Signed;
    if NowSigned(j, keys, |j.sigs|, i) {
      FlagMeansSignature(j, keys, i);
    } else if PredecessorSigned(j, keys, keys[i]) {
      var p :| 0 <= p < |keys| && Linked(j.env, keys[i], keys[p]) && NowSigned(j, keys, |j.sigs|, p);
      FlagMeansSignature(j, keys, p);
    } else {
      TurnMeansSignature(j, keys, i);
    }
  }

  // On a key set at the apex every signing key-signing key has a signature, and
  // so has every signing key whose algorithm has no key-signing key.
  lemma KeySetCoverage(j: Job, keys: seq<Key>, i: nat)
    requires i < |keys| && KeySet(j) && IsSigningKey(keys[i])
    requires keys[i].ksk || !HaveKsk(keys, keys[i])
    ensures Signed(j, keys, keys[i])
  {
    hide Signed;
    if NowSigned(j, keys, |j.sigs|, i) {
      FlagMeansSignature(j, keys, i);
    } else {
      TurnMeansSignature(j, keys, i);
    }
  }

  // -------------------------------------------- signatures that are of use

  // Signature t is kept as one of key i although it does not verify.
  ghost predicate Hollow(j: Job, keys: seq<Key>, t: nat, i: nat)
    requires t < |j.sigs| && i < |keys|
  {
    SignedBy(j, keys, t, i) && Verdict(j, keys, t).keep && !j.verifies(keys[i], j.sigs[t])
  }

  // These are signatures from the future, and those of keys that neither sign
  // nor belong to the zone.
  lemma HollowExactly(j: Job, keys: seq<Key>, t: nat, i: nat)
    requires t < |j.sigs| && i < |keys|
    ensures var e, k, s := j.env, keys[i], j.sigs[t];
            Hollow(j, keys, t, i) <==>
            && Lookup(keys, s) == Some(i) && InForce(e, s) && !j.verifies(k, s)
            && if Future(e, s) then !e.removeOrphanSigs
               else !IsSigningKey(k) && !IsZoneKey(e, k) && (k.active || !e.removeInactKeySigs) && (IsPublishedKey(k) || !e.removeOrphanSigs)
  {
    KeepExactly(j, KeyOf(keys, j.sigs[t]), j.sigs[t]);
    hide Decide, InForce, Future;
  }

  // Some old signature of key i that verifies is kept, or one is replaced.
  ghost predicate Sound(j: Job, keys: seq<Key>, i: nat)
    requires i < |keys|
  {
    exists t :: 0 <= t < |j.sigs| && SignedBy(j, keys, t, i) && !Hollow(j, keys, t, i)
  }

  // Afterwards there is a new signature by key i, or one that verifies with it.
  ghost predicate Useful(j: Job, keys: seq<Key>, i: nat)
    requires i < |keys|
  {
    exists c :: c in Afterwards(j, keys) && Uses(j, keys, i, c.rr)
  }

  ghost predicate Uses(j: Job, keys: seq<Key>, i: nat, rr: Rr)
    requires i < |keys|
  {
    match rr
    case New(k) => k == keys[i]
    case Old(s) => Lookup(keys, s) == Some(i) && j.verifies(keys[i], s)
  }

  lemma UsefulExactly(j: Job, keys: seq<Key>, i: nat)
    requires Indexed(keys) && i < |keys|
    ensures Useful(j, keys, i) <==> Sound(j, keys, i) || Signs(j, keys, i)
  {
    hide Decide, Ttl, Afterwards, Signs;
    if t :| 0 <= t < |j.sigs| && SignedBy(j, keys, t, i) && !Hollow(j, keys, t, i) {
      SoundIsUseful(j, keys, t, i);
    }
    if Signs(j, keys, i) {
      var c := Change(New(keys[i]), Ttl(j));
      MadeNew(j, keys, c);
      assert Uses(j, keys, i, c.rr);
    }
    if c :| c in Afterwards(j, keys) && Uses(j, keys, i, c.rr) {
      UsedIsSound(j, keys, i, c);
    }
  }

  lemma UsedIsSound(j: Job, keys: seq<Key>, i: nat, c: Change)
    requires Indexed(keys) && i < |keys| && c in Afterwards(j, keys) && Uses(j, keys, i, c.rr)
    ensures Sound(j, keys, i) || Signs(j, keys, i)
  {
    hide Decide, Ttl, Afterwards, Signs;
    if c.rr.Old? {
      KeptOrDropped(j, keys, c);
      var t :| 0 <= t < |j.sigs| && j.sigs[t] == c.rr.sig && Verdict(j, keys, t).keep;
      assert SignedBy(j, keys, t, i) && !Hollow(j, keys, t, i);
    } else {
      MadeNew(j, keys, c);
      if t :| 0 <= t < |j.sigs| && Verdict(j, keys, t).resign && KeyOf(keys, j.sigs[t]) == Some(keys[i]) {
        assert SignedBy(j, keys, t, i) && !Hollow(j, keys, t, i);
      }
    }
  }

  lemma SoundIsUseful(j: Job, keys: seq<Key>, t: nat, i: nat)
    requires t < |j.sigs| && i < |keys| && SignedBy(j, keys, t, i) && !Hollow(j, keys, t, i)
    ensures Useful(j, keys, i)
  {
    hide Decide, Ttl, Afterwards;
    var c := Change(if Verdict(j, keys, t).keep then Old(j.sigs[t]) else New(keys[i]), Ttl(j));
    if c.rr.Old? {
      KeptOrDropped(j, keys, c);
    } else {
      MadeNew(j, keys, c);
    }
    assert Uses(j, keys, i, c.rr);
  }

  // Key m is key i, or its predecessor.
  ghost predicate Family(j: Job, keys: seq<Key>, i: nat, m: nat)
    requires i < |keys| && m < |keys|
  {
    var k, pre := keys[i], keys[m];
    m == i || (&& k.predecessor == Some(pre.id) && pre.successor == Some(k.id) && k.alg == pre.alg
               && (j.env.ignoreKskFlag || !pre.ksk))
  }

  // No old signature is kept or replaced as one of key i or of a predecessor.
  ghost predicate Unsigned(j: Job, keys: seq<Key>, i: nat)
    requires i < |keys|
  {
    forall m, t :: 0 <= m < |keys| && 0 <= t < |j.sigs| && Family(j, keys, i, m) ==> !SignedBy(j, keys, t, m)
  }

  // On an ordinary RRset a zone-signing key signs in its turn exactly when it is
  // a signing key and nothing is kept or replaced for it.
  lemma SignsExactly(j: Job, keys: seq<Key>, i: nat)
    requires i < |keys| && !(j.name == j.env.origin && j.rtype in {48, 59, 60}) && IsZsk(j.env, keys[i])
    ensures Signs(j, keys, i) <==> IsSigningKey(keys[i]) && Unsigned(j, keys, i)
  {
    hide NowSigned, SignedBy, Lookup;
    forall m | 0 <= m < |keys|
      ensures NowSigned(j, keys, |j.sigs|, m) <==> exists t :: 0 <= t < |j.sigs| && SignedBy(j, keys, t, m)
    {
      WasSigned(j, keys, |j.sigs|, m);
    }
    assert Family(j, keys, i, i);
  }

  // On a DNSKEY, CDS or CDNSKEY set at the apex a key signs in its turn exactly
  // when it is a signing key, nothing is kept or replaced for it, and it is a
  // key-signing key, or its algorithm has none that is not revoked, or
  // zone-signing keys are to sign key sets, too.
  lemma KeySetSignsExactly(j: Job, keys: seq<Key>, i: nat)
    requires i < |keys| && j.name == j.env.origin && j.rtype in {48, 59, 60}
    ensures Signs(j, keys, i) <==>
            var k := keys[i];
            && (k.forceSign || k.hintSign) && (forall t :: 0 <= t < |j.sigs| ==> !SignedBy(j, keys, t, i))
            && (|| k.ksk || (forall m :: 0 <= m < |keys| && keys[m].alg == k.alg && keys[m].ksk ==> keys[m].revoked)
                || (!j.env.keysetKskOnly && (j.env.ignoreKskFlag || !k.ksk)))
  {
    hide NowSigned, SignedBy, Lookup;
    WasSigned(j, keys, |j.sigs|, i);
  }

  ghost predicate NoHollow(j: Job, keys: seq<Key>, i: nat)
    requires i < |keys|
  {
    forall m, t :: 0 <= m < |keys| && 0 <= t < |j.sigs| && Family(j, keys, i, m) ==> !Hollow(j, keys, t, m)
  }

  ghost predicate SoundFamily(j: Job, keys: seq<Key>, i: nat)
    requires i < |keys|
  {
    exists m :: 0 <= m < |keys| && Family(j, keys, i, m) && Sound(j, keys, m)
  }

  // A predecessor is a signing key, and no old signature stands in its way.
  ghost predicate PredecessorSigns(j: Job, keys: seq<Key>, i: nat)
    requires i < |keys|
  {
    exists p :: 0 <= p < |keys| && Linked(j.env, keys[i], keys[p]) && IsSigningKey(keys[p]) && Unsigned(j, keys, p)
  }

  // On an ordinary RRset a signing zone-signing key or a predecessor of it has a
  // signature of use if and only if none of them has a hollow signature, or one
  // of them has a sound one, or a predecessor is to sign and nothing is kept or
  // replaced for that.
  lemma CoverageExactly(j: Job, keys: seq<Key>, i: nat)
    requires Indexed(keys) && i < |keys| && !KeySet(j) && IsSigningKey(keys[i]) && IsZsk(j.env, keys[i])
    ensures (exists m :: 0 <= m < |keys| && Family(j, keys, i, m) && Useful(j, keys, m)) <==>
            NoHollow(j, keys, i) || SoundFamily(j, keys, i) || PredecessorSigns(j, keys, i)
  {
    hide Useful, Signs, Sound, Hollow, SignedBy, Unsigned;
    assert Family(j, keys, i, i);
    forall m | 0 <= m < |keys| && Family(j, keys, i, m)
      ensures Useful(j, keys, m) <==> Sound(j, keys, m) || (IsSigningKey(keys[m]) && Unsigned(j, keys, m))
    {
      UsefulExactly(j, keys, m);
      SignsExactly(j, keys, m);
    }
    UnsignedFamily(j, keys, i);
  }

  // Nothing is kept or replaced for key i and its predecessors exactly when there
  // is neither a hollow signature nor a sound one.
  lemma UnsignedFamily(j: Job, keys: seq<Key>, i: nat)
    requires i < |keys|
    ensures Unsigned(j, keys, i) <==> NoHollow(j, keys, i) && !SoundFamily(j, keys, i)
  {
    hide SignedBy, Family, Verdict;
    if Unsigned(j, keys, i) {
      forall m, t | 0 <= m < |keys| && 0 <= t < |j.sigs| && Family(j, keys, i, m)
        ensures !Hollow(j, keys, t, m)
      {
        assert !SignedBy(j, keys, t, m);
      }
    }
  }

  lemma FlagMeans(j: Job, keys: seq<Key>, i: nat)
    requires i < |keys|
    ensures NowSigned(j, keys, |j.sigs|, i) <==> Sound(j, keys, i) || exists t :: 0 <= t < |j.sigs| && Hollow(j, keys, t, i)
  {
    WasSigned(j, keys, |j.sigs|, i);
    hide NowSigned, Decide, Lookup;
  }

  // On a key set at the apex, the same for a key-signing key or a key whose
  // algorithm has none.
  lemma KeySetCoverageExactly(j: Job, keys: seq<Key>, i: nat)
    requires Indexed(keys) && i < |keys| && KeySet(j) && IsSigningKey(keys[i])
    requires keys[i].ksk || !HaveKsk(keys, keys[i])
    ensures Useful(j, keys, i) <==> Sound(j, keys, i) || forall t :: 0 <= t < |j.sigs| ==> !Hollow(j, keys, t, i)
  {
    UsefulExactly(j, keys, i);
    FlagMeans(j, keys, i);
    hide Useful, Sound, Hollow, NowSigned, HaveKsk;
  }

  // A zone-signing key whose only signature is dated in the future and does not
  // verify.
  const LONE_KEY := Key(1, 13, [], 0, true, false, true, false, false, false, true, true, false, None, None)
  const TOMORROW := Sig(1, 13, [], 2000, 3000, 3600, [])
  const LONE_ENV := Env([], 1000, 0, 0, 86400, false, false, false, false, (n: Name) => true, (n: Name, t: nat, a: nat) => None)
  const LONE := Job(LONE_ENV, [], 1, 3600, [TOMORROW], 3600, (k: Key, s: Sig) => false)

  // It is kept, and nothing else is there afterwards.
  lemma FutureSuppresses()
    ensures !KeySet(LONE) && IsSigningKey(LONE_KEY) && IsZsk(LONE_ENV, LONE_KEY)
    ensures forall c :: c in Afterwards(LONE, [LONE_KEY]) <==> c == Change(Old(TOMORROW), 3600)
    ensures Hollow(LONE, [LONE_KEY], 0, 0) && !Useful(LONE, [LONE_KEY], 0)
  {
    var keys := [LONE_KEY];
    assert keys[..0] == [];
    assert Lookup(keys, TOMORROW) == Some(0);
    assert Verdict(LONE, keys, 0) == Decision(true, false);
    assert SignedBy(LONE, keys, 0, 0) && Hollow(LONE, keys, 0, 0);
    FlagMeans(LONE, keys, 0);
    assert !Signs(LONE, keys, 0) && !Sound(LONE, keys, 0);
    UsefulExactly(LONE, keys, 0);
    forall c
      ensures c in Afterwards(LONE, keys) <==> c == Change(Old(TOMORROW), 3600)
    {
      if c.rr.Old? {
        KeptOrDropped(LONE, keys, c);
      } else {
        MadeNew(LONE, keys, c);
      }
    }
    assert Family(LONE, keys, 0, 0);
  }

  // Only keys of the list that are to sign make new signatures; keys that were
  // read from disk for an old signature do not.
  lemma OnlySigningKeys(j: Job, keys: seq<Key>, more: seq<Key>, c: Change)
    requires Extends(j.env, keys, more) && c in Afterwards(j, more) && c.rr.New?
    ensures IsSigningKey(c.rr.key) && c.rr.key in keys
  {
    MadeNew(j, more, c);
    var k := c.rr.key;
    var i: nat;
    if t :| 0 <= t < |j.sigs| && Verdict(j, more, t).resign && KeyOf(more, j.sigs[t]) == Some(k) {
      i := Lookup(more, j.sigs[t]).value;
    } else {
      i :| 0 <= i < |more| && more[i] == k && Signs(j, more, i);
    }
    assert IsSigningKey(k) && i < |keys| && keys[i] == k;
  }
}
