/** Session setup of src/pqxdh.cpp and src/pqxdh.hpp. */
module Pqxdh {
  import opened Bytes
  import opened Outcomes
  import opened Suites
  import opened Xeddsa
  import opened Stores
  import opened Util
  import Group

  // ----- structures

  datatype IdKey = IdKey(key: xckey, identifier: uint32)
  datatype SignedKey = SignedKey(key: xckey, identifier: uint32, signature: key64)
  datatype QSignedKey = QSignedKey(key: qpubkey, identifier: uint32, signature: key64)

  /** The variant `qsidkey | qpubikey`: a signed one-time key or the last-resort key. */
  datatype QuantumKey =
    | OneTime(signed: QSignedKey)
    | LastResort(key: qpubkey, identifier: uint32)
  {
    function Key(): qpubkey {
      if OneTime? then signed.key else key
    }

    function Id(): uint32 {
      if OneTime? then signed.identifier else identifier
    }
  }

  datatype Bundle = Bundle(
    identityKey: xckey,
    signedPreKey: SignedKey,
    quantumKey: QuantumKey,
    oneTimePreKey: Option<IdKey>)

  datatype Handshake = Handshake(
    identityKey: xckey,
    ephemeralKey: xckey,
    cipherText: qcipher,
    usedPreKeys: seq<uint32>,
    usedQuantumPreKeys: seq<uint32>)

  datatype SkippedKey = SkippedKey(ratchetPublicKey: xckey, sequenceNumber: uint32, messageKey: xckey)

  datatype Session = Session(
    remoteIdentityKey: xckey,
    rootKey: xckey,
    sendingChainKey: xckey,
    receivingChainKey: xckey,
    localRatchetKey: KeyPair,
    remoteRatchetKey: xckey,
    sendSequence: uint32,
    receiveSequence: uint32,
    previousChainLength: uint32,
    skippedKeys: seq<SkippedKey>)

  const NO_KEY: xckey := Zeros(32)
  const EMPTY_SESSION: Session :=
    Session(NO_KEY, NO_KEY, NO_KEY, NO_KEY, KeyPair(NO_KEY, NO_KEY), NO_KEY, 0, 0, 0, [])

  datatype InitResult = InitResult(session: Session, handshake: Handshake)

  // ----- key derivation

  function SSecret(S: Suite, localPrivate: xckey, remotePublic: xckey): Outcome<xckey> {
    match S.x25519(localPrivate, remotePublic)
    case Some(secret) => Value(secret)
    case None => Throw
  }

  const F: xckey := Filled(32, 0xFF)

  /** KDF(KM) of section 2.2 of PQXDH, 32 bytes out. */
  function KDF(S: Suite, secretKeyMaterial: bytes, info: string): Outcome<xckey> {
    match S.hkdfExtract(Zeros(32), F + secretKeyMaterial)
    case None => Throw
    case Some(prk) =>
      match S.hkdfExpand(prk, info)
      case None => Throw
      case Some(okm) => Value(okm)
  }

  const INFO: string := "PQX3DH"

  /** What goes into the KDF: DH1 || DH2 || DH3 [|| DH4] || SS. */
  datatype Secrets = Secrets(dh1: xckey, dh2: xckey, dh3: xckey, dh4: Option<xckey>, ss: xckey) {
    function Material(): bytes {
      match dh4
      case None => Flatten([dh1, dh2, dh3, ss])
      case Some(d) => Flatten([dh1, dh2, dh3, d, ss])
    }
  }

  /** The part inside the try block: DH4 when there is one, then the KDF. */
  function RootKey(S: Suite, dh1: xckey, dh2: xckey, dh3: xckey,
                   oneTime: Option<(xckey, xckey)>, ss: xckey): Outcome<xckey> {
    match oneTime
    case None => KDF(S, Secrets(dh1, dh2, dh3, None, ss).Material(), INFO)
    case Some((private, public)) =>
      var dh4 :- SSecret(S, private, public);
      KDF(S, Secrets(dh1, dh2, dh3, Some(dh4), ss).Material(), INFO)
  }

  // ----- verifying a bundle

  function VerifyForeignBundle(S: Suite, userIdentityKey: xckey, bundle: Bundle): Outcome<bool> {
    if userIdentityKey != bundle.identityKey then Value(false)
    else
      var spkOk :- Verify(S, userIdentityKey, bundle.signedPreKey.key, bundle.signedPreKey.signature);
      if !spkOk then Value(false)
      else if bundle.quantumKey.OneTime? then
        Verify(S, userIdentityKey, bundle.quantumKey.signed.key, bundle.quantumKey.signed.signature)
      else Value(true)
  }

  // ----- outbound

  function FinalizeOutbound(localPublicIdentityKey: xckey, publicEphemeralKey: xckey,
                            cipherText: qcipher, rootKey: xckey, keys: Bundle): InitResult {
    var usedPreKeys :=
      [keys.signedPreKey.identifier]
      + if keys.oneTimePreKey.Some? then [keys.oneTimePreKey.value.identifier] else [];
    InitResult(
      EMPTY_SESSION.(remoteIdentityKey := keys.identityKey, rootKey := rootKey, sendSequence := 0),
      Handshake(localPublicIdentityKey, publicEphemeralKey, cipherText, usedPreKeys, [keys.quantumKey.Id()]))
  }

  /**
   The handshake lists the ids of the keys in the bundle: the signed prekey first, then the
   one-time prekey if there is one; the quantum key in a list of its own.
   */
  predicate NamesKeys(h: Handshake, b: Bundle) {
    && |h.usedPreKeys| == (if b.oneTimePreKey.Some? then 2 else 1)
    && h.usedPreKeys[0] == b.signedPreKey.identifier
    && (b.oneTimePreKey.Some? ==> h.usedPreKeys[1] == b.oneTimePreKey.value.identifier)
    && h.usedQuantumPreKeys == [b.quantumKey.Id()]
  }

  /** The vectors grow by push_back and then move into the handshake. */
  method FinalizeOutboundSession(localPublicIdentityKey: xckey, publicEphemeralKey: xckey,
                                 cipherText: qcipher, rootKey: xckey, keys: Bundle) returns (r: InitResult)
    ensures NamesKeys(r.handshake, keys)
    ensures r.handshake.identityKey == localPublicIdentityKey
    ensures r.handshake.ephemeralKey == publicEphemeralKey && r.handshake.cipherText == cipherText
    ensures r.session.remoteIdentityKey == keys.identityKey && r.session.rootKey == rootKey
    ensures r.session.remoteRatchetKey == Zeros(32) && Unused(r.session)
    ensures r == FinalizeOutbound(localPublicIdentityKey, publicEphemeralKey, cipherText, rootKey, keys)
  {
    var usedPreKeys: seq<uint32> := [];
    var usedQuantumPreKeys: seq<uint32> := [];
    usedPreKeys := usedPreKeys + [keys.signedPreKey.identifier];
    if keys.oneTimePreKey.Some? {
      usedPreKeys := usedPreKeys + [keys.oneTimePreKey.value.identifier];
    }
    usedQuantumPreKeys := usedQuantumPreKeys + [keys.quantumKey.Id()];
    var handshake := Handshake(localPublicIdentityKey, publicEphemeralKey, cipherText,
                               usedPreKeys, usedQuantumPreKeys);
    var session := EMPTY_SESSION.(remoteIdentityKey := keys.identityKey, rootKey := rootKey);
    r := InitResult(session, handshake);
  }

  /** `ek` is the ephemeral private key drawn, if the generator delivers one. */
  function CreateOutboundSession(S: Suite, me: KeyPair, identityToVerifyAgainst: xckey, keys: Bundle,
                                 ek: Option<xckey>, coins: bytes): Outcome<Option<InitResult>> {
    var verified :- VerifyForeignBundle(S, identityToVerifyAgainst, keys);
    if !verified || ek.None? then Value(None)
    else
      match S.kemEncaps(keys.quantumKey.Key(), coins)
      case None => Throw
      case Some((cipherText, sharedSecret)) =>
        var e := ek.value;
        var dh1 :- SSecret(S, me.Private, keys.signedPreKey.key);
        var dh2 :- SSecret(S, e, keys.identityKey);
        var dh3 :- SSecret(S, e, keys.signedPreKey.key);
        var oneTime := if keys.oneTimePreKey.Some? then Some((e, keys.oneTimePreKey.value.key)) else None;
        match RootKey(S, dh1, dh2, dh3, oneTime, sharedSecret)
        case Throw => Value(None)
        case Value(sk) => Value(Some(FinalizeOutbound(me.Public, PublicOf(S, e), cipherText, sk, keys)))
  }

  // ----- inbound

  function CreateInboundSession(S: Suite, me: KeyPair, spk: xckey, opk: Option<xckey>, qpk: qprivkey,
                                handshake: Handshake): Outcome<Option<Session>> {
    match S.kemDecaps(handshake.cipherText, qpk)
    case None => Throw
    case Some(ss) =>
      var dh1 :- SSecret(S, spk, handshake.identityKey);
      var dh2 :- SSecret(S, me.Private, handshake.ephemeralKey);
      var dh3 :- SSecret(S, spk, handshake.ephemeralKey);
      var oneTime := if opk.Some? then Some((opk.value, handshake.ephemeralKey)) else None;
      match RootKey(S, dh1, dh2, dh3, oneTime, ss)
      case Throw => Value(None)
      case Value(rootKey) =>
        Value(Some(EMPTY_SESSION.(
          remoteIdentityKey := handshake.identityKey,
          remoteRatchetKey := handshake.ephemeralKey,
          rootKey := rootKey)))
  }

  /** The private half of a stored `Public || Private` blob. */
  function LoadPrivate(blob: Option<bytes>, size: nat, offset: nat): Option<bytes> {
    match blob
    case None => None
    case Some(b) =>
      match LoadS(b, size, offset)
      case None => None
      case Some((k, _)) => Some(k)
  }

  /** Both halves, loaded from one buffer that the first load wipes in part. */
  function LoadIdentity(blob: Option<bytes>): Option<KeyPair> {
    match blob
    case None => None
    case Some(b) =>
      match LoadS(b, 32, 0)
      case None => None
      case Some((public, rest)) =>
        match LoadS(rest, 32, 32)
        case None => None
        case Some((private, _)) => Some(KeyPair(public, private))
  }

  function InboundFromStore(S: Suite, st: StoreState, handshake: Handshake): Outcome<Option<Session>> {
    if |handshake.usedPreKeys| < 1 || |handshake.usedQuantumPreKeys| < 1 then Value(None)
    else
      var me := LoadIdentity(st.identity);
      var spk := LoadPrivate(Load(st.prekeys, handshake.usedPreKeys[0], PREKEY), 32, 32);
      var hasOneTime := |handshake.usedPreKeys| > 1;
      var opk :=
        if hasOneTime then LoadPrivate(Load(st.prekeys, handshake.usedPreKeys[1], PREKEY), 32, 32) else None;
      var qpk := LoadPrivate(Load(st.prekeys, handshake.usedQuantumPreKeys[0], QUANTUM), 3168, 1568);
      if me.None? || spk.None? || (hasOneTime && opk.None?) || qpk.None? then Value(None)
      else CreateInboundSession(S, me.value, spk.value, opk, qpk.value, handshake)
  }

  // ----- the key schedule, both ways

  /** The input of the KDF determines every secret and whether DH4 was used. */
  lemma MaterialInjective(a: Secrets, b: Secrets)
    requires F + a.Material() == F + b.Material()
    ensures a == b
  {
    assert (F + a.Material())[32..] == a.Material() && (F + b.Material())[32..] == b.Material();
    MaterialLayout(a);
    MaterialLayout(b);
    if a.dh4.Some? {
      FlattenInjective([a.dh1, a.dh2, a.dh3, a.dh4.value, a.ss], [b.dh1, b.dh2, b.dh3, b.dh4.value, b.ss]);
    } else {
      FlattenInjective([a.dh1, a.dh2, a.dh3, a.ss], [b.dh1, b.dh2, b.dh3, b.ss]);
    }
  }

  lemma MaterialLayout(a: Secrets)
    ensures a.Material() == a.dh1 + a.dh2 + a.dh3 + (if a.dh4.Some? then a.dh4.value else []) + a.ss
    ensures |a.Material()| == if a.dh4.Some? then 160 else 128
  {
    var tail := if a.dh4.Some? then [a.dh4.value, a.ss] else [a.ss];
    assert a.Material() == Flatten([a.dh1, a.dh2, a.dh3] + tail) by {
      assert a.dh4.Some? ==> [a.dh1, a.dh2, a.dh3] + tail == [a.dh1, a.dh2, a.dh3, a.dh4.value, a.ss];
      assert a.dh4.None? ==> [a.dh1, a.dh2, a.dh3] + tail == [a.dh1, a.dh2, a.dh3, a.ss];
    }
    FlattenAppend([a.dh1, a.dh2, a.dh3], tail);
    FlattenThree(a.dh1, a.dh2, a.dh3);
    FlattenTwo(if a.dh4.Some? then a.dh4.value else [], a.ss);
  }

  /** Two different inputs that the KDF does not tell apart. */
  predicate KdfCollision(S: Suite, a: bytes, b: bytes) {
    F + a != F + b && KDF(S, a, INFO).Value? && KDF(S, a, INFO) == KDF(S, b, INFO)
  }

  /** Equal root keys come from equal secrets, or exhibit a collision of the KDF. */
  lemma SameRootSameSecrets(S: Suite, a: Secrets, b: Secrets)
    requires KDF(S, a.Material(), INFO).Value?
    ensures KDF(S, a.Material(), INFO) == KDF(S, b.Material(), INFO)
       <==> a == b || KdfCollision(S, a.Material(), b.Material())
  {
    if F + a.Material() == F + b.Material() {
      MaterialInjective(a, b);
    }
  }

  /** The secrets an outbound session is derived from. */
  function OutboundSecrets(S: Suite, me: KeyPair, keys: Bundle, e: xckey, coins: bytes): Outcome<Secrets> {
    match S.kemEncaps(keys.quantumKey.Key(), coins)
    case None => Throw
    case Some((_, ss)) =>
      var dh1 :- SSecret(S, me.Private, keys.signedPreKey.key);
      var dh2 :- SSecret(S, e, keys.identityKey);
      var dh3 :- SSecret(S, e, keys.signedPreKey.key);
      if keys.oneTimePreKey.None? then Value(Secrets(dh1, dh2, dh3, None, ss))
      else
        var dh4 :- SSecret(S, e, keys.oneTimePreKey.value.key);
        Value(Secrets(dh1, dh2, dh3, Some(dh4), ss))
  }

  /** `rootKey` is HKDF-derived from F || km with the zero salt and the fixed info. */
  predicate DerivedFrom(S: Suite, rootKey: xckey, km: bytes) {
    && S.hkdfExtract(Zeros(32), Filled(32, 0xFF) + km).Some?
    && S.hkdfExpand(S.hkdfExtract(Zeros(32), Filled(32, 0xFF) + km).value, "PQX3DH") == Some(rootKey)
  }

  /** Nothing sent, received or skipped yet, and no chain or ratchet key of its own. */
  predicate Unused(s: Session) {
    && s.sendingChainKey == s.receivingChainKey == Zeros(32)
    && s.localRatchetKey.Public == s.localRatchetKey.Private == Zeros(32)
    && s.sendSequence == s.receiveSequence == s.previousChainLength == 0
    && s.skippedKeys == []
  }

  lemma OutboundShape(S: Suite, me: KeyPair, verify: xckey, keys: Bundle, e: xckey, coins: bytes, r: InitResult)
    requires CreateOutboundSession(S, me, verify, keys, Some(e), coins) == Value(Some(r))
    ensures r.handshake.identityKey == me.Public && r.handshake.ephemeralKey == PublicOf(S, e)
    ensures OutboundSecrets(S, me, keys, e, coins).Value?
    ensures S.kemEncaps(keys.quantumKey.Key(), coins)
         == Some((r.handshake.cipherText, OutboundSecrets(S, me, keys, e, coins).value.ss))
    ensures DerivedFrom(S, r.session.rootKey, OutboundSecrets(S, me, keys, e, coins).value.Material())
    ensures r.session.remoteIdentityKey == keys.identityKey && r.session.remoteRatchetKey == Zeros(32)
    ensures Unused(r.session)
  {
  }

  function InboundSecrets(S: Suite, me: KeyPair, spk: xckey, opk: Option<xckey>, qpk: qprivkey,
                          handshake: Handshake): Outcome<Secrets> {
    match S.kemDecaps(handshake.cipherText, qpk)
    case None => Throw
    case Some(ss) =>
      var dh1 :- SSecret(S, spk, handshake.identityKey);
      var dh2 :- SSecret(S, me.Private, handshake.ephemeralKey);
      var dh3 :- SSecret(S, spk, handshake.ephemeralKey);
      if opk.None? then Value(Secrets(dh1, dh2, dh3, None, ss))
      else
        var dh4 :- SSecret(S, opk.value, handshake.ephemeralKey);
        Value(Secrets(dh1, dh2, dh3, Some(dh4), ss))
  }

  /**
   Whatever handshake reaches the responder, and whatever keys it uses: unless the KDF
   collides on their inputs, the two sessions share a root key exactly when both sides
   computed the same Diffie-Hellman values and KEM secret, with DH4 on both sides or on
   neither.
   */
  lemma EqualRootsEqualSecrets(S: Suite, alice: KeyPair, verify: xckey, keys: Bundle, e: xckey, coins: bytes,
                               bob: KeyPair, spk: xckey, opk: Option<xckey>, qpk: qprivkey, handshake: Handshake)
    requires CreateOutboundSession(S, alice, verify, keys, Some(e), coins).Value?
    requires CreateOutboundSession(S, alice, verify, keys, Some(e), coins).value.Some?
    requires CreateInboundSession(S, bob, spk, opk, qpk, handshake).Value?
    requires CreateInboundSession(S, bob, spk, opk, qpk, handshake).value.Some?
    ensures
      var out := CreateOutboundSession(S, alice, verify, keys, Some(e), coins).value.value.session;
      var inb := CreateInboundSession(S, bob, spk, opk, qpk, handshake).value.value;
      var a := OutboundSecrets(S, alice, keys, e, coins);
      var b := InboundSecrets(S, bob, spk, opk, qpk, handshake);
      && a.Value? && b.Value?
      && (out.rootKey == inb.rootKey
          <==> a == b || KdfCollision(S, a.value.Material(), b.value.Material()))
  {
    var a := OutboundSecrets(S, alice, keys, e, coins);
    var b := InboundSecrets(S, bob, spk, opk, qpk, handshake);
    SameRootSameSecrets(S, a.value, b.value);
  }

  // ----- every outcome of the three calls

  /** The signatures that a bundle must carry satisfy the group equation within the bounds. */
  ghost predicate BundleValid(S: Suite, verify: xckey, keys: Bundle) {
    && keys.identityKey == verify
    && ValidSignature(S, verify, keys.signedPreKey.key,
                      keys.signedPreKey.signature[..32], keys.signedPreKey.signature[32..])
    && (keys.quantumKey.OneTime? ==>
          ValidSignature(S, verify, keys.quantumKey.signed.key,
                         keys.quantumKey.signed.signature[..32], keys.quantumKey.signed.signature[32..]))
  }

  /**
   The expected identity key is the one Montgomery key that `u_to_y` cannot convert, and
   nothing stops the call before the conversion. (With that key no signature is good, so
   the quantum key's signature is never reached.)
   */
  predicate BundleThrows(verify: xckey, keys: Bundle) {
    && keys.identityKey == verify && LE(verify) == Group.P - 1
    && LE(keys.signedPreKey.signature[..32]) < TWO_255
    && LE(keys.signedPreKey.signature[32..]) < TWO_253
  }

  /** A bundle is accepted exactly when it is valid, throws in exactly one case, and is rejected otherwise. */
  lemma BundleExact(S: Suite, verify: xckey, keys: Bundle)
    requires Laws(S)
    ensures VerifyForeignBundle(S, verify, keys) == Value(true) <==> BundleValid(S, verify, keys)
    ensures VerifyForeignBundle(S, verify, keys) == Throw <==> BundleThrows(verify, keys)
    ensures VerifyForeignBundle(S, verify, keys) == Value(false)
       <==> !BundleValid(S, verify, keys) && !BundleThrows(verify, keys)
  {
    VerifyNumbers(S, verify, keys.signedPreKey.key, keys.signedPreKey.signature);
    if keys.quantumKey.OneTime? {
      VerifyNumbers(S, verify, keys.quantumKey.signed.key, keys.quantumKey.signed.signature);
    }
  }

  lemma VerifyNumbers(S: Suite, mkPub: xckey, M: bytes, sig: key64)
    requires Laws(S)
    ensures Verify(S, mkPub, M, sig) == Value(true) <==> ValidSignature(S, mkPub, M, sig[..32], sig[32..])
    ensures Verify(S, mkPub, M, sig) == Throw
       <==> LE(mkPub) == Group.P - 1 && LE(sig[..32]) < TWO_255 && LE(sig[32..]) < TWO_253
    ensures LE(mkPub) == Group.P - 1 ==> Verify(S, mkPub, M, sig) != Value(true)
  {
    VerifyExact(S, mkPub, M, sig);
    BoundsExact(mkPub, sig[..32], sig[32..]);
  }

  /** HKDF delivers a key for this material. */
  predicate Derives(S: Suite, km: bytes) {
    && S.hkdfExtract(Zeros(32), Filled(32, 0xFF) + km).Some?
    && S.hkdfExpand(S.hkdfExtract(Zeros(32), Filled(32, 0xFF) + km).value, "PQX3DH").Some?
  }

  lemma KdfCases(S: Suite, km: bytes)
    ensures KDF(S, km, INFO).Value? <==> Derives(S, km)
    ensures Derives(S, km) ==> DerivedFrom(S, KDF(S, km, INFO).value, km)
  {
  }

  function BytesOf(secret: Option<xckey>): bytes {
    if secret.Some? then secret.value else []
  }

  /** The KDF runs on the secrets in order, unless DH4 is called for and fails. */
  lemma RootCases(S: Suite, dh1: xckey, dh2: xckey, dh3: xckey, oneTime: Option<(xckey, xckey)>, ss: xckey)
    ensures var r := RootKey(S, dh1, dh2, dh3, oneTime, ss);
      var dh4 := if oneTime.Some? then S.x25519(oneTime.value.0, oneTime.value.1) else None;
      var km := dh1 + dh2 + dh3 + BytesOf(dh4) + ss;
      && (r.Value? <==> (oneTime.Some? ==> dh4.Some?) && Derives(S, km))
      && (r.Value? ==> DerivedFrom(S, r.value, km))
  {
    var dh4 := if oneTime.Some? then S.x25519(oneTime.value.0, oneTime.value.1) else None;
    if oneTime.Some? ==> dh4.Some? {
      var secrets := Secrets(dh1, dh2, dh3, dh4, ss);
      MaterialLayout(secrets);
      assert dh1 + dh2 + dh3 + BytesOf(dh4) + ss == secrets.Material();
      KdfCases(S, secrets.Material());
    }
  }

  /**
   Every outcome of the inbound call, for any keys and any handshake. It throws exactly when
   decapsulation or one of the first three agreements fails; a failure of the fourth or of
   HKDF gives no session; otherwise the session is derived from the values in order and
   knows the initiator's two public keys.
   */
  lemma InboundCases(S: Suite, me: KeyPair, spk: xckey, opk: Option<xckey>, qpk: qprivkey, h: Handshake)
    ensures
      var r := CreateInboundSession(S, me, spk, opk, qpk, h);
      var ss := S.kemDecaps(h.cipherText, qpk);
      var dh1, dh2, dh3 :=
        S.x25519(spk, h.identityKey), S.x25519(me.Private, h.ephemeralKey), S.x25519(spk, h.ephemeralKey);
      var dh4 := if opk.Some? then S.x25519(opk.value, h.ephemeralKey) else None;
      var km := BytesOf(dh1) + BytesOf(dh2) + BytesOf(dh3) + BytesOf(dh4) + BytesOf(ss);
      && (r == Throw <==> ss.None? || dh1.None? || dh2.None? || dh3.None?)
      && (r.Value? ==>
            && (r.value.Some? <==> (opk.Some? ==> dh4.Some?) && Derives(S, km))
            && (r.value.Some? ==>
                  && DerivedFrom(S, r.value.value.rootKey, km)
                  && r.value.value.remoteIdentityKey == h.identityKey
                  && r.value.value.remoteRatchetKey == h.ephemeralKey
                  && Unused(r.value.value)))
  {
    var ss := S.kemDecaps(h.cipherText, qpk);
    var dh1, dh2, dh3 :=
      S.x25519(spk, h.identityKey), S.x25519(me.Private, h.ephemeralKey), S.x25519(spk, h.ephemeralKey);
    if ss.Some? && dh1.Some? && dh2.Some? && dh3.Some? {
      var oneTime := if opk.Some? then Some((opk.value, h.ephemeralKey)) else None;
      RootCases(S, dh1.value, dh2.value, dh3.value, oneTime, ss.value);
    }
  }

  /** What the initiator keeps, apart from the root key, and what it sends. */
  predicate OutboundFields(S: Suite, public: xckey, e: xckey, kem: Option<(qcipher, xckey)>, keys: Bundle,
                           r: InitResult) {
    && r.handshake.identityKey == public && r.handshake.ephemeralKey == PublicOf(S, e)
    && kem.Some? && r.handshake.cipherText == kem.value.0
    && NamesKeys(r.handshake, keys)
    && r.session.remoteIdentityKey == keys.identityKey && r.session.remoteRatchetKey == Zeros(32)
    && Unused(r.session)
  }

  /**
   Every outcome of the outbound call, for any bundle, honest or not. It throws exactly when
   verification throws or, past verification and with an ephemeral key, encapsulation or one
   of the first three agreements fails; it gives a session exactly when all of it succeeds.
   */
  lemma OutboundCases(S: Suite, me: KeyPair, verify: xckey, keys: Bundle, ek: Option<xckey>, coins: bytes)
    requires Laws(S)
    ensures
      var r := CreateOutboundSession(S, me, verify, keys, ek, coins);
      var kem := S.kemEncaps(keys.quantumKey.Key(), coins);
      var e := if ek.Some? then ek.value else Zeros(32);
      var dh1, dh2, dh3 :=
        S.x25519(me.Private, keys.signedPreKey.key), S.x25519(e, keys.identityKey), S.x25519(e, keys.signedPreKey.key);
      var dh4 := if keys.oneTimePreKey.Some? then S.x25519(e, keys.oneTimePreKey.value.key) else None;
      var ss := if kem.Some? then kem.value.1 else [];
      var km := BytesOf(dh1) + BytesOf(dh2) + BytesOf(dh3) + BytesOf(dh4) + ss;
      var reached := BundleValid(S, verify, keys) && ek.Some?;
      var failed := kem.None? || dh1.None? || dh2.None? || dh3.None?;
      && (r == Throw <==> BundleThrows(verify, keys) || (reached && failed))
      && (r.Value? ==>
            && (r.value.Some? <==> reached && (keys.oneTimePreKey.Some? ==> dh4.Some?) && Derives(S, km))
            && (r.value.Some? ==>
                  && DerivedFrom(S, r.value.value.session.rootKey, km)
                  && OutboundFields(S, me.Public, e, kem, keys, r.value.value)))
  {
    BundleExact(S, verify, keys);
    if VerifyForeignBundle(S, verify, keys) == Value(true) && ek.Some? {
      OutboundPast(S, me, verify, keys, ek.value, coins);
    }
  }

  lemma OutboundPast(S: Suite, me: KeyPair, verify: xckey, keys: Bundle, e: xckey, coins: bytes)
    requires VerifyForeignBundle(S, verify, keys) == Value(true)
    ensures
      var r := CreateOutboundSession(S, me, verify, keys, Some(e), coins);
      var kem := S.kemEncaps(keys.quantumKey.Key(), coins);
      var dh1, dh2, dh3 :=
        S.x25519(me.Private, keys.signedPreKey.key), S.x25519(e, keys.identityKey), S.x25519(e, keys.signedPreKey.key);
      var dh4 := if keys.oneTimePreKey.Some? then S.x25519(e, keys.oneTimePreKey.value.key) else None;
      var ss := if kem.Some? then kem.value.1 else [];
      var km := BytesOf(dh1) + BytesOf(dh2) + BytesOf(dh3) + BytesOf(dh4) + ss;
      && (r == Throw <==> kem.None? || dh1.None? || dh2.None? || dh3.None?)
      && (r.Value? ==>
            && (r.value.Some? <==> (keys.oneTimePreKey.Some? ==> dh4.Some?) && Derives(S, km))
            && (r.value.Some? ==>
                  && DerivedFrom(S, r.value.value.session.rootKey, km)
                  && OutboundFields(S, me.Public, e, kem, keys, r.value.value)))
  {
    var kem := S.kemEncaps(keys.quantumKey.Key(), coins);
    var dh1, dh2, dh3 :=
      S.x25519(me.Private, keys.signedPreKey.key), S.x25519(e, keys.identityKey), S.x25519(e, keys.signedPreKey.key);
    if kem.Some? && dh1.Some? && dh2.Some? && dh3.Some? {
      var oneTime := if keys.oneTimePreKey.Some? then Some((e, keys.oneTimePreKey.value.key)) else None;
      RootCases(S, dh1.value, dh2.value, dh3.value, oneTime, kem.value.1);
    }
  }

  // ----- what the lookup finds

  predicate AtLeast(blob: Option<bytes>, size: nat) {
    blob.Some? && |blob.value| >= size
  }

  /** Every slot that the handshake names holds a blob of the size it needs. */
  predicate SlotsComplete(st: StoreState, h: Handshake) {
    && |h.usedPreKeys| >= 1 && |h.usedQuantumPreKeys| >= 1
    && AtLeast(st.identity, 64)
    && AtLeast(Load(st.prekeys, h.usedPreKeys[0], PREKEY), 64)
    && (|h.usedPreKeys| >= 2 ==> AtLeast(Load(st.prekeys, h.usedPreKeys[1], PREKEY), 64))
    && AtLeast(Load(st.prekeys, h.usedQuantumPreKeys[0], QUANTUM), 4736)
  }

  /**
   Every outcome of the store-backed call, for any store and any handshake: without one of
   the named slots there is no session; with all of them it is the session of the halves
   stored there, with the fourth agreement exactly when a second id is named.
   */
  lemma LookupCases(S: Suite, st: StoreState, h: Handshake)
    ensures !SlotsComplete(st, h) ==> InboundFromStore(S, st, h) == Value(None)
    ensures SlotsComplete(st, h) ==>
      var me := KeyPair(st.identity.value[..32], st.identity.value[32..64]);
      var spk := Load(st.prekeys, h.usedPreKeys[0], PREKEY).value[32..64];
      var opk := if |h.usedPreKeys| >= 2 then Some(Load(st.prekeys, h.usedPreKeys[1], PREKEY).value[32..64]) else None;
      var qpk := Load(st.prekeys, h.usedQuantumPreKeys[0], QUANTUM).value[1568..4736];
      InboundFromStore(S, st, h) == CreateInboundSession(S, me, spk, opk, qpk, h)
  {
    IdentityCases(st.identity);
    if |h.usedPreKeys| >= 1 && |h.usedQuantumPreKeys| >= 1 {
      PrivateCases(Load(st.prekeys, h.usedPreKeys[0], PREKEY), 32, 32);
      PrivateCases(Load(st.prekeys, h.usedQuantumPreKeys[0], QUANTUM), 3168, 1568);
      if |h.usedPreKeys| >= 2 {
        PrivateCases(Load(st.prekeys, h.usedPreKeys[1], PREKEY), 32, 32);
      }
    }
  }

  lemma PrivateCases(blob: Option<bytes>, size: nat, offset: nat)
    ensures LoadPrivate(blob, size, offset)
         == if AtLeast(blob, size + offset) then Some(blob.value[offset..offset + size]) else None
  {
  }

  /** The first load wipes the public half only. */
  lemma IdentityCases(blob: Option<bytes>)
    ensures LoadIdentity(blob)
         == if AtLeast(blob, 64) then Some(KeyPair(blob.value[..32], blob.value[32..64])) else None
  {
    if AtLeast(blob, 64) {
      var rest := Zeros(32) + blob.value[32..];
      assert blob.value[0..32] == blob.value[..32];
      assert rest[32..64] == blob.value[32..64];
    }
  }
}
