/** `make_lkb` of src/pqxdh.cpp: a device's first keys. */
module LocalKeys {
  import opened Bytes
  import opened Outcomes
  import opened Suites
  import opened Xeddsa
  import opened Stores
  import opened Refills

  const INITIAL_PREKEY_BUNDLE_COUNT: nat := 100

  datatype QPair = QPair(Public: qpubkey, Private: qprivkey)

  datatype LocalKeyBundle = LocalKeyBundle(
    identityKey: KeyPair,
    signedPreKey: KeyPair,
    signedPreKeyId: uint32,
    quantumPreKey: QPair,
    quantumPreKeyId: uint32,
    oneTimePreKeys: map<uint32, KeyPair>,
    oneTimeQuantumKeys: map<uint32, QPair>)

  /** Randomness of one call, and whether the store takes the identity pair. */
  datatype Draws = Draws(
    identity: xckey,
    signedPreKey: xckey,
    quantumSeed: bytes,
    privates: seq<xckey>,
    seeds: seq<bytes>,
    accepted: bool)

  // ----- unordered_map::insert in a loop

  /** Values filed one after the other; an id already present keeps its value. */
  function Filed<V>(ids: seq<uint32>, values: seq<V>): map<uint32, V>
    requires |ids| == |values|
  {
    var n := |ids|;
    if n == 0 then map[]
    else
      var m := Filed(ids[..n - 1], values[..n - 1]);
      if ids[n - 1] in m then m else m[ids[n - 1] := values[n - 1]]
  }

  function FirstIndex(ids: seq<uint32>, id: uint32): (i: nat)
    requires id in ids
    ensures i < |ids| && ids[i] == id && id !in ids[..i]
  {
    if ids[0] == id then 0 else
      var i := 1 + FirstIndex(ids[1..], id);
      assert ids[..i] == [ids[0]] + ids[1..][..i - 1];
      i
  }

  /** The map holds each id once, with the first value that came under it. */
  lemma {:induction false} FiledMeaning<V>(ids: seq<uint32>, values: seq<V>)
    requires |ids| == |values|
    ensures Filed(ids, values).Keys == set id | id in ids
    ensures forall id :: id in ids ==> Filed(ids, values)[id] == values[FirstIndex(ids, id)]
  {
    var n := |ids|;
    if n == 0 {
    } else {
      var front := ids[..n - 1];
      FiledMeaning(front, values[..n - 1]);
      assert ids == front + [ids[n - 1]];
      forall id | id in ids
        ensures Filed(ids, values)[id] == values[FirstIndex(ids, id)]
      {
        if id in front {
          FirstUnique(ids, id, FirstIndex(front, id));
        } else {
          FirstUnique(ids, id, n - 1);
        }
      }
    }
  }

  lemma FirstUnique(ids: seq<uint32>, id: uint32, i: nat)
    requires i < |ids| && ids[i] == id && id !in ids[..i]
    ensures FirstIndex(ids, id) == i
  {
    PrefixContains(ids);
  }

  lemma PrefixContains(ids: seq<uint32>)
    ensures forall k, i :: 0 <= k < i <= |ids| ==> ids[k] in ids[..i]
  {
    forall k, i | 0 <= k < i <= |ids|
      ensures ids[k] in ids[..i]
    {
      assert ids[..i][k] == ids[k];
    }
  }

  /** As many entries as there are distinct ids. */
  lemma FiledSize<V>(ids: seq<uint32>, values: seq<V>)
    requires |ids| == |values|
    ensures |Filed(ids, values)| == |set id | id in ids|
  {
    FiledMeaning(ids, values);
    assert |Filed(ids, values)| == |Filed(ids, values).Keys|;
  }

  // ----- make_lkb

  function XIds(S: Suite, privates: seq<xckey>): (ids: seq<uint32>)
    ensures |ids| == |privates|
  {
    seq(|privates|, i requires 0 <= i < |privates| => XEntry(S, privates[i]).identifier)
  }

  function XPairs(S: Suite, privates: seq<xckey>): (pairs: seq<KeyPair>)
    ensures |pairs| == |privates|
  {
    seq(|privates|, i requires 0 <= i < |privates| => PairOf(S, privates[i]))
  }

  predicate SeedsOk(S: Suite, seeds: seq<bytes>) {
    forall i :: 0 <= i < |seeds| ==> S.kemKeypair(seeds[i]).Some?
  }

  function QPairOf(S: Suite, seed: bytes): QPair
    requires S.kemKeypair(seed).Some?
  {
    QPair(S.kemKeypair(seed).value.0, S.kemKeypair(seed).value.1)
  }

  function QIds(S: Suite, seeds: seq<bytes>): (ids: seq<uint32>)
    requires SeedsOk(S, seeds)
    ensures |ids| == |seeds|
  {
    seq(|seeds|, i requires 0 <= i < |seeds| && SeedsOk(S, seeds) => QWrite(S, seeds[i]).id)
  }

  function QPairs(S: Suite, seeds: seq<bytes>): (pairs: seq<QPair>)
    requires SeedsOk(S, seeds)
    ensures |pairs| == |seeds|
  {
    seq(|seeds|, i requires 0 <= i < |seeds| && SeedsOk(S, seeds) => QPairOf(S, seeds[i]))
  }

  method FileXKeys(S: Suite, privates: seq<xckey>) returns (keys: map<uint32, KeyPair>)
    ensures keys == Filed(XIds(S, privates), XPairs(S, privates))
  {
    keys := map[];
    for i := 0 to |privates|
      invariant keys == Filed(XIds(S, privates)[..i], XPairs(S, privates)[..i])
    {
      var pair := PairOf(S, privates[i]);
      var id := S.genericHash(pair.Public);
      ghost var ids, pairs := XIds(S, privates)[..i + 1], XPairs(S, privates)[..i + 1];
      assert ids[..i] == XIds(S, privates)[..i] && pairs[..i] == XPairs(S, privates)[..i];
      if id !in keys {
        keys := keys[id := pair];
      }
    }
    assert XIds(S, privates)[..|privates|] == XIds(S, privates);
    assert XPairs(S, privates)[..|privates|] == XPairs(S, privates);
  }

  /** `None` is the exception of a failed key generation. */
  method FileQKeys(S: Suite, seeds: seq<bytes>) returns (keys: Option<map<uint32, QPair>>)
    ensures keys == if SeedsOk(S, seeds) then Some(Filed(QIds(S, seeds), QPairs(S, seeds))) else None
  {
    var m: map<uint32, QPair> := map[];
    for i := 0 to |seeds|
      invariant SeedsOk(S, seeds[..i])
      invariant m == Filed(QIds(S, seeds[..i]), QPairs(S, seeds[..i]))
    {
      var generated := S.kemKeypair(seeds[i]);
      if generated.None? {
        return None;
      }
      var pair := QPair(generated.value.0, generated.value.1);
      var id := S.genericHash(pair.Public);
      ghost var next := seeds[..i + 1];
      assert next == seeds[..i] + [seeds[i]];
      assert QIds(S, next)[..i] == QIds(S, seeds[..i]) && QPairs(S, next)[..i] == QPairs(S, seeds[..i]);
      if id !in m {
        m := m[id := pair];
      }
    }
    assert seeds[..|seeds|] == seeds;
    keys := Some(m);
  }

  /** Under the id of its public key, each pair drawn, the first one per id, and nothing else. */
  ghost predicate FilesXKeys(S: Suite, keys: map<uint32, KeyPair>, privates: seq<xckey>) {
    && (forall i :: 0 <= i < |privates| ==> S.genericHash(PublicOf(S, privates[i])) in keys)
    && (forall id :: id in keys ==> exists i :: 0 <= i < |privates| && FirstX(S, privates, id, i, keys[id]))
  }

  ghost predicate FirstX(S: Suite, privates: seq<xckey>, id: uint32, i: nat, pair: KeyPair)
    requires i < |privates|
  {
    && pair.Public == PublicOf(S, privates[i]) && pair.Private == privates[i]
    && S.genericHash(PublicOf(S, privates[i])) == id
    && forall j :: 0 <= j < i ==> S.genericHash(PublicOf(S, privates[j])) != id
  }

  ghost predicate FilesQKeys(S: Suite, keys: map<uint32, QPair>, seeds: seq<bytes>)
    requires SeedsOk(S, seeds)
  {
    && (forall i :: 0 <= i < |seeds| ==> S.genericHash(S.kemKeypair(seeds[i]).value.0) in keys)
    && (forall id :: id in keys ==> exists i :: 0 <= i < |seeds| && FirstQ(S, seeds, id, i, keys[id]))
  }

  ghost predicate FirstQ(S: Suite, seeds: seq<bytes>, id: uint32, i: nat, pair: QPair)
    requires SeedsOk(S, seeds) && i < |seeds|
  {
    && (pair.Public, pair.Private) == S.kemKeypair(seeds[i]).value
    && S.genericHash(S.kemKeypair(seeds[i]).value.0) == id
    && forall j :: 0 <= j < i ==> S.genericHash(S.kemKeypair(seeds[j]).value.0) != id
  }

  /** The local bundle holds the keys drawn, each in its place. */
  ghost predicate BundleHolds(S: Suite, b: LocalKeyBundle, d: Draws)
    requires S.kemKeypair(d.quantumSeed).Some? && SeedsOk(S, d.seeds)
  {
    && b.identityKey.Public == PublicOf(S, d.identity) && b.identityKey.Private == d.identity
    && b.signedPreKey.Public == PublicOf(S, d.signedPreKey) && b.signedPreKey.Private == d.signedPreKey
    && b.signedPreKeyId == S.genericHash(PublicOf(S, d.signedPreKey))
    && (b.quantumPreKey.Public, b.quantumPreKey.Private) == S.kemKeypair(d.quantumSeed).value
    && b.quantumPreKeyId == 0
    && FilesXKeys(S, b.oneTimePreKeys, d.privates)
    && FilesQKeys(S, b.oneTimeQuantumKeys, d.seeds)
  }

  /**
   Every one-time pair is filed under the id of its own public key, and is the first one
   generated under that id; there are as many entries as distinct ids.
   */
  lemma OneTimeKeysFiled(S: Suite, privates: seq<xckey>, id: uint32)
    ensures var keys := Filed(XIds(S, privates), XPairs(S, privates));
      && |keys| == |set i | i in XIds(S, privates)|
      && (id in keys <==> id in XIds(S, privates))
      && (id in keys ==>
            && S.genericHash(keys[id].Public) == id
            && keys[id] == PairOf(S, privates[FirstIndex(XIds(S, privates), id)]))
  {
    FiledMeaning(XIds(S, privates), XPairs(S, privates));
    FiledSize(XIds(S, privates), XPairs(S, privates));
  }

  lemma OneTimeQuantumKeysFiled(S: Suite, seeds: seq<bytes>, id: uint32)
    requires SeedsOk(S, seeds)
    ensures var keys := Filed(QIds(S, seeds), QPairs(S, seeds));
      && |keys| == |set i | i in QIds(S, seeds)|
      && (id in keys <==> id in QIds(S, seeds))
      && (id in keys ==>
            && S.genericHash(keys[id].Public) == id
            && keys[id] == QPairOf(S, seeds[FirstIndex(QIds(S, seeds), id)]))
  {
    FiledMeaning(QIds(S, seeds), QPairs(S, seeds));
    FiledSize(QIds(S, seeds), QPairs(S, seeds));
  }

  lemma XKeysFiled(S: Suite, privates: seq<xckey>)
    ensures FilesXKeys(S, Filed(XIds(S, privates), XPairs(S, privates)), privates)
  {
    var ids := XIds(S, privates);
    var keys := Filed(ids, XPairs(S, privates));
    FiledMeaning(ids, XPairs(S, privates));
    forall i | 0 <= i < |privates|
      ensures S.genericHash(PublicOf(S, privates[i])) in keys
    {
      assert ids[i] in ids;
    }
    forall id | id in keys
      ensures exists i :: 0 <= i < |privates| && FirstX(S, privates, id, i, keys[id])
    {
      var i := FirstIndex(ids, id);
      forall j | 0 <= j < i
        ensures S.genericHash(PublicOf(S, privates[j])) != id
      {
        assert ids[..i][j] == ids[j];
      }
      assert FirstX(S, privates, id, i, keys[id]);
    }
  }

  lemma QKeysFiled(S: Suite, seeds: seq<bytes>)
    requires SeedsOk(S, seeds)
    ensures FilesQKeys(S, Filed(QIds(S, seeds), QPairs(S, seeds)), seeds)
  {
    var ids := QIds(S, seeds);
    var keys := Filed(ids, QPairs(S, seeds));
    FiledMeaning(ids, QPairs(S, seeds));
    forall i | 0 <= i < |seeds|
      ensures S.genericHash(S.kemKeypair(seeds[i]).value.0) in keys
    {
      assert ids[i] in ids;
    }
    forall id | id in keys
      ensures exists i :: 0 <= i < |seeds| && FirstQ(S, seeds, id, i, keys[id])
    {
      var i := FirstIndex(ids, id);
      forall j | 0 <= j < i
        ensures S.genericHash(S.kemKeypair(seeds[j]).value.0) != id
      {
        assert ids[..i][j] == ids[j];
      }
      assert FirstQ(S, seeds, id, i, keys[id]);
    }
  }

  /** The quantum prekey keeps identifier 0: `make_id_pair` never sets it. */
  method MakeLkb(S: Suite, store: KeyStore, d: Draws) returns (r: Outcome<LocalKeyBundle>)
    requires |d.privates| == |d.seeds| == INITIAL_PREKEY_BUNDLE_COUNT
    modifies store
    ensures store.prekeys == old(store.prekeys)
    ensures r.Value? <==> S.kemKeypair(d.quantumSeed).Some? && SeedsOk(S, d.seeds) && d.accepted
    ensures r.Value? ==> BundleHolds(S, r.value, d)
    ensures store.identity ==
      if r.Value? then Some(r.value.identityKey.Public + r.value.identityKey.Private) else old(store.identity)
  {
    var identity, signedPreKey := PairOf(S, d.identity), PairOf(S, d.signedPreKey);
    var quantum := S.kemKeypair(d.quantumSeed);
    if quantum.None? {
      return Throw;
    }
    var oneTimePreKeys := FileXKeys(S, d.privates);
    var oneTimeQuantumKeys := FileQKeys(S, d.seeds);
    if oneTimeQuantumKeys.None? {
      return Throw;
    }
    XKeysFiled(S, d.privates);
    QKeysFiled(S, d.seeds);
    var stored := store.StoreIdentityKeyPair(identity.Public + identity.Private, d.accepted);
    if !stored {
      return Throw;
    }
    return Value(LocalKeyBundle(
      identity, signedPreKey, S.genericHash(signedPreKey.Public),
      QPair(quantum.value.0, quantum.value.1), 0, oneTimePreKeys, oneTimeQuantumKeys.value));
  }
}
