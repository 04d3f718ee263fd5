/** The store object behind a party: enrolment, and the inbound lookup on buffers. */
module Devices {
  import opened Bytes
  import opened Outcomes
  import opened Suites
  import opened Xeddsa
  import opened Stores
  import opened Util
  import opened Pqxdh
  import opened Refills
  import opened LocalKeys
  import opened Systems

  /**
   A device's first steps: `make_lkb`, then the signed prekey and the last-resort quantum
   key go into the store in the blob form of the other keys.
   */
  method EnrollDevice(S: Suite, store: KeyStore, d: Draws, spkZ: key64) returns (r: Outcome<LocalKeyBundle>)
    requires |d.privates| == |d.seeds| == INITIAL_PREKEY_BUNDLE_COUNT
    requires store.View() == StoreState(None, map[])
    modifies store
    ensures r.Value? <==> S.kemKeypair(d.quantumSeed).Some? && SeedsOk(S, d.seeds) && d.accepted
    ensures r.Throw? ==> store.View() == old(store.View())
    ensures r.Value? ==>
      && BundleHolds(S, r.value, d)
      && store.View() == NewParty(S, d.identity, d.signedPreKey, spkZ, LastResortKey(d.quantumSeed, 0)).store
  {
    r := MakeLkb(S, store, d);
    if r.Throw? {
      return;
    }
    var b := r.value;
    ghost var spk := XWrite(S, d.signedPreKey);
    ghost var last := LastResortWrite(S, LastResortKey(d.quantumSeed, 0));
    ApplyAppend(map[], [spk], [last]);
    assert [spk] + [last] == [spk, last];
    var ok := store.StoreOneTimePrekey(b.signedPreKeyId, PREKEY, b.signedPreKey.Public + b.signedPreKey.Private, true);
    ok := store.StoreOneTimePrekey(b.quantumPreKeyId, QUANTUM, b.quantumPreKey.Public + b.quantumPreKey.Private, true);
  }

  /** Loads `size` bytes at `offset` of a stored blob into a new key buffer. */
  method LoadBuffer(blob: Option<bytes>, size: nat, offset: nat) returns (ok: bool, key: array<byte>)
    ensures fresh(key) && key.Length == size
    ensures LoadPrivate(blob, size, offset) == if ok then Some(key[..]) else None
  {
    key := new byte[size](_ => 0);
    if blob.None? {
      return false, key;
    }
    var buffer := FromBytes(blob.value);
    var r := LoadKeyBS(buffer, key, offset);
    ok := r == Loaded;
  }

  /** The identity pair is read from one buffer by two loads. */
  method LoadIdentityBuffers(blob: Option<bytes>)
    returns (ok: bool, public: array<byte>, private: array<byte>)
    ensures fresh(public) && fresh(private) && public.Length == private.Length == 32
    ensures LoadIdentity(blob) == if ok then Some(KeyPair(public[..], private[..])) else None
  {
    public, private := new byte[32](_ => 0), new byte[32](_ => 0);
    if blob.None? {
      return false, public, private;
    }
    var buffer := FromBytes(blob.value);
    var r := LoadKeyBS(buffer, public, 0);
    if r == Loaded {
      r := LoadKeyBS(buffer, private, 32);
    }
    ok := r == Loaded;
  }

  method CreateInboundSessionFromStore(S: Suite, store: KeyStore, handshake: Handshake)
    returns (r: Outcome<Option<Session>>)
    ensures r == InboundFromStore(S, store.View(), handshake)
  {
    if |handshake.usedPreKeys| < 1 || |handshake.usedQuantumPreKeys| < 1 {
      return Value(None);
    }
    var ok, public, private := LoadIdentityBuffers(store.identity);
    if !ok {
      return Value(None);
    }
    var blob := store.LoadOneTimePrekey(handshake.usedPreKeys[0], PREKEY);
    var okSpk, spk := LoadBuffer(blob, 32, 32);
    if !okSpk {
      return Value(None);
    }
    var opk: Option<xckey> := None;
    if |handshake.usedPreKeys| > 1 {
      blob := store.LoadOneTimePrekey(handshake.usedPreKeys[1], PREKEY);
      var okOpk, key := LoadBuffer(blob, 32, 32);
      if !okOpk {
        return Value(None);
      }
      opk := Some(key[..]);
    }
    blob := store.LoadOneTimePrekey(handshake.usedQuantumPreKeys[0], QUANTUM);
    var okQpk, qpk := LoadBuffer(blob, 3168, 1568);
    if !okQpk {
      return Value(None);
    }
    r := CreateInboundSession(S, KeyPair(public[..], private[..]), spk[..], opk, qpk[..], handshake);
  }
}
