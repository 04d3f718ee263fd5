/**
 Many parties, their stores and the handshakes between them, as a transition system over
 the operations of src/pqxdh.cpp.
 */
module Systems {
  import opened Bytes
  import opened Outcomes
  import opened Group
  import opened Edwards
  import opened Suites
  import opened Xeddsa
  import opened Stores
  import opened Util
  import opened Pqxdh
  import opened Refills

  /** The last-resort quantum key: generated from a seed, published under some id. */
  datatype LastResortKey = LastResortKey(seed: bytes, id: uint32)

  datatype QuantumDraw = QuantumDraw(seed: bytes, z: key64)

  /**
   A responder. `writes` records what went into its store, in order; `xs` and `qs` are the
   private halves of the one-time keys that refills have published.
   */
  datatype Party = Party(
    K: xckey,
    spk: xckey,
    spkZ: key64,
    lastResort: LastResortKey,
    xs: seq<xckey>,
    qs: seq<QuantumDraw>,
    store: StoreState,
    writes: seq<Write>)

  /** Which published keys a bundle is assembled from. */
  datatype Choice = Choice(quantum: Option<QuantumDraw>, oneTime: Option<xckey>)

  datatype Exchange = Exchange(from: nat, to: nat, choice: Choice, ek: xckey, coins: bytes, result: InitResult)

  datatype Answer = Answer(exchange: nat, result: Outcome<Option<Session>>)

  datatype System = System(parties: seq<Party>, exchanges: seq<Exchange>, answers: seq<Answer>)

  datatype Event =
    | Enroll(K: xckey, spk: xckey, spkZ: key64, lastResort: LastResortKey)
    | Refill(who: nat, draws: seq<Draw>)
    | Outbound(from: nat, to: nat, choice: Choice, ek: xckey, coins: bytes)
    | Inbound(exchange: nat)

  // ----- what a party publishes

  function SpkEntry(S: Suite, p: Party): SignedKey {
    var x := XEntry(S, p.spk);
    SignedKey(x.key, x.identifier, Sign(S, p.K, x.key, p.spkZ))
  }

  predicate Published(S: Suite, p: Party, c: Choice) {
    && (c.quantum.Some? ==> c.quantum.value in p.qs && S.kemKeypair(c.quantum.value.seed).Some?)
    && (c.quantum.None? ==> S.kemKeypair(p.lastResort.seed).Some?)
    && (c.oneTime.Some? ==> c.oneTime.value in p.xs)
  }

  /** A bundle assembled from published keys, with or without one-time keys. */
  function BundleFor(S: Suite, p: Party, c: Choice): Bundle
    requires Published(S, p, c)
  {
    Bundle(
      PublicOf(S, p.K),
      SpkEntry(S, p),
      if c.quantum.Some? then OneTime(QEntry(S, p.K, c.quantum.value.seed, c.quantum.value.z))
      else LastResort(S.kemKeypair(p.lastResort.seed).value.0, p.lastResort.id),
      if c.oneTime.Some? then Some(XEntry(S, c.oneTime.value)) else None)
  }

  /** The sign bits that `sig_in_bounds` looks at are clear in every signature checked. */
  predicate SignBitsClear(b: Bundle) {
    && !SignBit(b.signedPreKey.signature[..32])
    && (b.quantumKey.OneTime? ==> !SignBit(b.quantumKey.signed.signature[..32]))
  }

  /** Every signature that the initiator must check is accepted. */
  predicate SignaturesAccepted(S: Suite, p: Party, c: Choice)
    requires Published(S, p, c)
  {
    && Accepted(S, p.K, PublicOf(S, p.spk), p.spkZ)
    && (c.quantum.Some? ==> Accepted(S, p.K, S.kemKeypair(c.quantum.value.seed).value.0, c.quantum.value.z))
  }

  // ----- steps

  function LastResortWrite(S: Suite, k: LastResortKey): Write
    requires S.kemKeypair(k.seed).Some?
  {
    Write(k.id, QUANTUM, S.kemKeypair(k.seed).value.0 + S.kemKeypair(k.seed).value.1)
  }

  /** A new device: its identity pair, signed prekey and last-resort key are in the store. */
  function NewParty(S: Suite, K: xckey, spk: xckey, spkZ: key64, lastResort: LastResortKey): Party
    requires S.kemKeypair(lastResort.seed).Some?
  {
    var writes := [XWrite(S, spk), LastResortWrite(S, lastResort)];
    Party(K, spk, spkZ, lastResort, [], [],
          StoreState(Some(PublicOf(S, K) + K), Apply(map[], writes)), writes)
  }

  function Refilled(S: Suite, p: Party, draws: seq<Draw>): Party {
    var added := RefillWrites(S, draws);
    var q := p.(store := p.store.(prekeys := Apply(p.store.prekeys, added)), writes := p.writes + added);
    if !Succeeds(S, draws) then q
    else q.(
      xs := p.xs + seq(|draws|, i requires 0 <= i < |draws| => draws[i].private),
      qs := p.qs + seq(|draws|, i requires 0 <= i < |draws| => QuantumDraw(draws[i].seed, draws[i].z)))
  }

  /** Events that make no sense in a state, and calls that give no session, change nothing. */
  function Step(S: Suite, s: System, e: Event): System {
    match e
    case Enroll(K, spk, spkZ, lastResort) =>
      if S.kemKeypair(lastResort.seed).None? then s
      else s.(parties := s.parties + [NewParty(S, K, spk, spkZ, lastResort)])
    case Refill(who, draws) =>
      if who >= |s.parties| then s
      else s.(parties := s.parties[who := Refilled(S, s.parties[who], draws)])
    case Outbound(from, to, choice, ek, coins) =>
      if from >= |s.parties| || to >= |s.parties| || !Published(S, s.parties[to], choice) then s
      else
        var a, b := s.parties[from], s.parties[to];
        var r := CreateOutboundSession(S, PairOf(S, a.K), PublicOf(S, b.K), BundleFor(S, b, choice), Some(ek), coins);
        if r.Throw? || r.value.None? then s
        else s.(exchanges := s.exchanges + [Exchange(from, to, choice, ek, coins, r.value.value)])
    case Inbound(k) =>
      if k >= |s.exchanges| || s.exchanges[k].to >= |s.parties| then s
      else
        var x := s.exchanges[k];
        var r := InboundFromStore(S, s.parties[x.to].store, x.result.handshake);
        s.(answers := s.answers + [Answer(k, r)])
  }

  function Run(S: Suite, s: System, events: seq<Event>): System
    decreases |events|
  {
    if events == [] then s else Run(S, Step(S, s, events[0]), events[1..])
  }

  const EMPTY: System := System([], [], [])

  // ----- one handshake

  /** The responder's answer is a session that mirrors the initiator's. */
  ghost predicate Mirrors(S: Suite, aliceK: xckey, bobK: xckey, ek: xckey, out: InitResult,
                          answer: Outcome<Option<Session>>) {
    && answer.Value? && answer.value.Some?
    && answer.value.value.rootKey == out.session.rootKey
    && answer.value.value.remoteIdentityKey == PublicOf(S, aliceK)
    && answer.value.value.remoteRatchetKey == PublicOf(S, ek)
    && out.session.remoteIdentityKey == PublicOf(S, bobK)
    && out.session.remoteRatchetKey == Zeros(32)
    && Unused(answer.value.value) && Unused(out.session)
  }

  /**
   Honest bundles pass verification exactly when the signatures to check are accepted,
   which for a matching identity key means that their sign bits are clear.
   */
  lemma HonestBundleVerifies(S: Suite, p: Party, c: Choice)
    requires Laws(S) && Published(S, p, c)
    ensures VerifyForeignBundle(S, PublicOf(S, p.K), BundleFor(S, p, c)) == Value(SignaturesAccepted(S, p, c))
    ensures KeyMatches(p.K) ==> (SignaturesAccepted(S, p, c) <==> SignBitsClear(BundleFor(S, p, c)))
  {
    AcceptedExactly(S, p.K, PublicOf(S, p.spk), p.spkZ);
    if c.quantum.Some? {
      AcceptedExactly(S, p.K, S.kemKeypair(c.quantum.value.seed).value.0, c.quantum.value.z);
    }
  }

  function QuantumSeed(p: Party, c: Choice): bytes {
    if c.quantum.Some? then c.quantum.value.seed else p.lastResort.seed
  }

  /** The KDF succeeds on any input. */
  lemma KdfSucceeds(S: Suite, material: bytes)
    requires Laws(S)
    ensures KDF(S, material, INFO).Value?
  {
    assert HkdfAt(S, Zeros(32), F + material, INFO);
  }

  /** Both sides compute the same root key from mirrored Diffie-Hellman inputs. */
  lemma SameRoot(S: Suite, dh1: xckey, dh2: xckey, dh3: xckey, ss: xckey, ek: xckey, oneTime: Option<xckey>)
    requires Laws(S)
    ensures
      var out := if oneTime.Some? then Some((ek, PublicOf(S, oneTime.value))) else None;
      var inb := if oneTime.Some? then Some((oneTime.value, PublicOf(S, ek))) else None;
      && RootKey(S, dh1, dh2, dh3, out, ss) == RootKey(S, dh1, dh2, dh3, inb, ss)
      && RootKey(S, dh1, dh2, dh3, out, ss).Value?
  {
    if oneTime.Some? {
      DhAgree(S, ek, oneTime.value);
      var dh4 := S.x25519(ek, PublicOf(S, oneTime.value)).value;
      KdfSucceeds(S, Secrets(dh1, dh2, dh3, Some(dh4), ss).Material());
    } else {
      KdfSucceeds(S, Secrets(dh1, dh2, dh3, None, ss).Material());
    }
  }

  /** Past verification an outbound call on an honest bundle always gives a session. */
  lemma OutboundVerified(S: Suite, aliceK: xckey, p: Party, c: Choice, ek: xckey, coins: bytes, verified: bool)
    requires Laws(S) && Published(S, p, c)
    requires VerifyForeignBundle(S, PublicOf(S, p.K), BundleFor(S, p, c)) == Value(verified)
    ensures var r := CreateOutboundSession(S, PairOf(S, aliceK), PublicOf(S, p.K), BundleFor(S, p, c), Some(ek), coins);
      r.Value? && (r.value.Some? <==> verified)
  {
    var b := BundleFor(S, p, c);
    assert KemAt(S, QuantumSeed(p, c), coins);
    DhAgree(S, aliceK, p.spk);
    DhAgree(S, ek, p.K);
    DhAgree(S, ek, p.spk);
    var (_, ss) := S.kemEncaps(b.quantumKey.Key(), coins).value;
    SameRoot(S, S.x25519(aliceK, PublicOf(S, p.spk)).value, S.x25519(ek, PublicOf(S, p.K)).value,
             S.x25519(ek, PublicOf(S, p.spk)).value, ss, ek, c.oneTime);
  }

  /** So it gives one exactly when the signatures to check are accepted. */
  lemma OutboundSucceeds(S: Suite, aliceK: xckey, p: Party, c: Choice, ek: xckey, coins: bytes)
    requires Laws(S) && Published(S, p, c)
    ensures var r := CreateOutboundSession(S, PairOf(S, aliceK), PublicOf(S, p.K), BundleFor(S, p, c), Some(ek), coins);
      r.Value? && (r.value.Some? <==> SignaturesAccepted(S, p, c))
  {
    HonestBundleVerifies(S, p, c);
    OutboundVerified(S, aliceK, p, c, ek, coins, SignaturesAccepted(S, p, c));
  }

  /**
   What the initiator ends up with, in terms of the private keys alone: the handshake it
   sends, and a root key HKDF-derived from F || DH1 || DH2 || DH3 [|| DH4] || SS, where
   each DH is the point that the two private scalars name.
   */
  lemma OutboundMeaning(S: Suite, aliceK: xckey, p: Party, c: Choice, ek: xckey, coins: bytes, r: InitResult)
    requires Laws(S) && Published(S, p, c)
    requires CreateOutboundSession(S, PairOf(S, aliceK), PublicOf(S, p.K), BundleFor(S, p, c), Some(ek), coins)
          == Value(Some(r))
    ensures r.handshake.identityKey == PublicOf(S, aliceK) && r.handshake.ephemeralKey == PublicOf(S, ek)
    ensures NamesKeys(r.handshake, BundleFor(S, p, c))
    ensures
      var dh4 := if c.oneTime.Some? then SharedPoint(S, ek, c.oneTime.value) else [];
      var ss := S.kemDecaps(r.handshake.cipherText, S.kemKeypair(QuantumSeed(p, c)).value.1);
      && ss.Some?
      && DerivedFrom(S, r.session.rootKey,
           SharedPoint(S, aliceK, p.spk) + SharedPoint(S, ek, p.K) + SharedPoint(S, ek, p.spk) + dh4 + ss.value)
      && r.session.remoteIdentityKey == PublicOf(S, p.K) && r.session.remoteRatchetKey == Zeros(32)
      && Unused(r.session)
  {
    var keys := BundleFor(S, p, c);
    OutboundShape(S, PairOf(S, aliceK), PublicOf(S, p.K), keys, ek, coins, r);
    HandshakeIds(S, PairOf(S, aliceK), PublicOf(S, p.K), keys, ek, coins, r);
    assert KemAt(S, QuantumSeed(p, c), coins);
    DhValue(S, aliceK, p.spk);
    DhValue(S, ek, p.K);
    DhValue(S, ek, p.spk);
    if c.oneTime.Some? {
      DhValue(S, ek, c.oneTime.value);
    }
    MaterialLayout(OutboundSecrets(S, PairOf(S, aliceK), keys, ek, coins).value);
  }

  /** The private prekeys that a responder uses for a handshake. */
  datatype SlotKeys = SlotKeys(spk: xckey, opk: Option<xckey>, qpk: qprivkey)

  /** With prekeys `l` the responder computes from `h` what the initiator computed. */
  predicate SameInputs(S: Suite, aliceK: xckey, p: Party, c: Choice, ek: xckey, ss: xckey, l: SlotKeys, h: Handshake) {
    && S.x25519(l.spk, h.identityKey) == S.x25519(p.spk, PublicOf(S, aliceK))
    && S.x25519(p.K, h.ephemeralKey) == S.x25519(p.K, PublicOf(S, ek))
    && S.x25519(l.spk, h.ephemeralKey) == S.x25519(p.spk, PublicOf(S, ek))
    && (l.opk.Some? <==> c.oneTime.Some?)
    && (l.opk.Some? ==> S.x25519(l.opk.value, h.ephemeralKey) == S.x25519(c.oneTime.value, PublicOf(S, ek)))
    && S.kemDecaps(h.cipherText, l.qpk) == Some(ss)
  }

  /** Whatever prekeys and handshake: equal secrets are equal inputs. */
  lemma SecretsExact(S: Suite, aliceK: xckey, p: Party, c: Choice, ek: xckey, coins: bytes,
                     l: SlotKeys, h: Handshake, a: Secrets)
    requires Laws(S) && Published(S, p, c)
    requires OutboundSecrets(S, PairOf(S, aliceK), BundleFor(S, p, c), ek, coins) == Value(a)
    ensures InboundSecrets(S, PairOf(S, p.K), l.spk, l.opk, l.qpk, h) == Value(a)
       <==> SameInputs(S, aliceK, p, c, ek, a.ss, l, h)
  {
    DhAgree(S, aliceK, p.spk);
    DhAgree(S, ek, p.K);
    DhAgree(S, ek, p.spk);
    if c.oneTime.Some? {
      DhAgree(S, ek, c.oneTime.value);
    }
  }

  predicate Collides(S: Suite, a: Outcome<Secrets>, b: Outcome<Secrets>) {
    a.Value? && b.Value? && KdfCollision(S, a.value.Material(), b.value.Material())
  }

  /**
   A root key binds the initiator. Whatever one-time key, quantum key and handshake a
   responder uses with its signed prekey: its session has the initiator's root key exactly
   when its inputs are the initiator's, or the KDF collides. Equal inputs mean, for public
   keys in the prime-order group, the initiator's identity and ephemeral keys, and with the
   latter the one-time prekey of the bundle.
   */
  lemma RootKeyBinds(S: Suite, aliceK: xckey, p: Party, c: Choice, ek: xckey, coins: bytes, r: InitResult,
                     l: SlotKeys, h: Handshake, answer: Session)
    requires Laws(S) && Published(S, p, c) && l.spk == p.spk
    requires CreateOutboundSession(S, PairOf(S, aliceK), PublicOf(S, p.K), BundleFor(S, p, c), Some(ek), coins)
          == Value(Some(r))
    requires CreateInboundSession(S, PairOf(S, p.K), l.spk, l.opk, l.qpk, h) == Value(Some(answer))
    ensures
      var a := OutboundSecrets(S, PairOf(S, aliceK), BundleFor(S, p, c), ek, coins);
      var b := InboundSecrets(S, PairOf(S, p.K), l.spk, l.opk, l.qpk, h);
      && a.Value?
      && var same := SameInputs(S, aliceK, p, c, ek, a.value.ss, l, h);
         && (answer.rootKey == r.session.rootKey <==> same || Collides(S, a, b))
         && (same && InGroup(S, h.identityKey) ==> h.identityKey == PublicOf(S, aliceK))
         && (same && InGroup(S, h.ephemeralKey) ==>
               && h.ephemeralKey == PublicOf(S, ek)
               && (l.opk.Some? ==> PublicOf(S, l.opk.value) == PublicOf(S, c.oneTime.value)))
  {
    EqualRootsEqualSecrets(S, PairOf(S, aliceK), PublicOf(S, p.K), BundleFor(S, p, c), ek, coins,
                           PairOf(S, p.K), l.spk, l.opk, l.qpk, h);
    var a := OutboundSecrets(S, PairOf(S, aliceK), BundleFor(S, p, c), ek, coins).value;
    SecretsExact(S, aliceK, p, c, ek, coins, l, h, a);
    if SameInputs(S, aliceK, p, c, ek, a.ss, l, h) {
      InputsBind(S, aliceK, p, c, ek, a.ss, l, h);
    }
  }

  lemma InputsBind(S: Suite, aliceK: xckey, p: Party, c: Choice, ek: xckey, ss: xckey, l: SlotKeys, h: Handshake)
    requires Laws(S) && l.spk == p.spk && SameInputs(S, aliceK, p, c, ek, ss, l, h)
    ensures InGroup(S, h.identityKey) ==> h.identityKey == PublicOf(S, aliceK)
    ensures InGroup(S, h.ephemeralKey) ==>
      && h.ephemeralKey == PublicOf(S, ek)
      && (l.opk.Some? ==> PublicOf(S, l.opk.value) == PublicOf(S, c.oneTime.value))
  {
    if InGroup(S, h.identityKey) {
      DhDistinguishes(S, p.spk, h.identityKey, aliceK);
    }
    if InGroup(S, h.ephemeralKey) {
      DhDistinguishes(S, p.spk, h.ephemeralKey, ek);
      if l.opk.Some? {
        DhSame(S, l.opk.value, c.oneTime.value, ek);
      }
    }
  }

  /** The prekeys `l` do for a handshake what the keys it was made with do. */
  predicate SameKeys(S: Suite, p: Party, c: Choice, l: SlotKeys, h: Handshake)
    requires Published(S, p, c)
  {
    && PublicOf(S, l.spk) == PublicOf(S, p.spk)
    && (l.opk.Some? <==> c.oneTime.Some?)
    && (l.opk.Some? ==> PublicOf(S, l.opk.value) == PublicOf(S, c.oneTime.value))
    && S.kemDecaps(h.cipherText, l.qpk) == S.kemDecaps(h.cipherText, S.kemKeypair(QuantumSeed(p, c)).value.1)
  }

  /** For the initiator's own handshake, equal inputs are equal keys. */
  lemma InputsAreKeys(S: Suite, aliceK: xckey, p: Party, c: Choice, ek: xckey, ss: xckey, l: SlotKeys, h: Handshake)
    requires Laws(S) && Published(S, p, c)
    requires h.identityKey == PublicOf(S, aliceK) && h.ephemeralKey == PublicOf(S, ek)
    requires S.kemDecaps(h.cipherText, S.kemKeypair(QuantumSeed(p, c)).value.1) == Some(ss)
    ensures SameInputs(S, aliceK, p, c, ek, ss, l, h) <==> SameKeys(S, p, c, l, h)
  {
    DhSame(S, l.spk, p.spk, aliceK);
    DhSame(S, l.spk, p.spk, ek);
    if l.opk.Some? && c.oneTime.Some? {
      DhSame(S, l.opk.value, c.oneTime.value, ek);
    }
  }

  /** On honest public keys the responder gets a session whenever decapsulation succeeds. */
  lemma InboundGives(S: Suite, aliceK: xckey, p: Party, ek: xckey, l: SlotKeys, h: Handshake)
    requires Laws(S) && h.identityKey == PublicOf(S, aliceK) && h.ephemeralKey == PublicOf(S, ek)
    ensures var answer := CreateInboundSession(S, PairOf(S, p.K), l.spk, l.opk, l.qpk, h);
      if S.kemDecaps(h.cipherText, l.qpk).Some? then
        && answer.Value? && answer.value.Some?
        && answer.value.value.remoteIdentityKey == h.identityKey
        && answer.value.value.remoteRatchetKey == h.ephemeralKey
        && Unused(answer.value.value)
      else
        answer == Throw && InboundSecrets(S, PairOf(S, p.K), l.spk, l.opk, l.qpk, h) == Throw
  {
    var d := S.kemDecaps(h.cipherText, l.qpk);
    if d.Some? {
      DhAgree(S, l.spk, aliceK);
      DhAgree(S, p.K, ek);
      DhAgree(S, l.spk, ek);
      RootGives(S, S.x25519(l.spk, h.identityKey).value, S.x25519(p.K, h.ephemeralKey).value,
                S.x25519(l.spk, h.ephemeralKey).value, l.opk, ek, d.value);
    }
  }

  lemma RootGives(S: Suite, dh1: xckey, dh2: xckey, dh3: xckey, opk: Option<xckey>, ek: xckey, ss: xckey)
    requires Laws(S)
    ensures RootKey(S, dh1, dh2, dh3, if opk.Some? then Some((opk.value, PublicOf(S, ek))) else None, ss).Value?
  {
    SameRoot(S, dh1, dh2, dh3, ss, ek, opk);
  }

  /**
   The initiator's own handshake, answered with any prekeys whatever: the answer mirrors
   the initiator exactly when the prekeys do what the ones used do, or the KDF collides.
   */
  lemma AnswerExact(S: Suite, aliceK: xckey, p: Party, c: Choice, ek: xckey, coins: bytes, out: InitResult, l: SlotKeys)
    requires Laws(S) && Published(S, p, c)
    requires CreateOutboundSession(S, PairOf(S, aliceK), PublicOf(S, p.K), BundleFor(S, p, c), Some(ek), coins)
          == Value(Some(out))
    ensures Mirrors(S, aliceK, p.K, ek, out,
                    CreateInboundSession(S, PairOf(S, p.K), l.spk, l.opk, l.qpk, out.handshake))
       <==> SameKeys(S, p, c, l, out.handshake)
            || Collides(S, OutboundSecrets(S, PairOf(S, aliceK), BundleFor(S, p, c), ek, coins),
                        InboundSecrets(S, PairOf(S, p.K), l.spk, l.opk, l.qpk, out.handshake))
  {
    var keys, h := BundleFor(S, p, c), out.handshake;
    OutboundShape(S, PairOf(S, aliceK), PublicOf(S, p.K), keys, ek, coins, out);
    var a := OutboundSecrets(S, PairOf(S, aliceK), keys, ek, coins).value;
    assert KemAt(S, QuantumSeed(p, c), coins);
    InputsAreKeys(S, aliceK, p, c, ek, a.ss, l, h);
    SecretsExact(S, aliceK, p, c, ek, coins, l, h, a);
    InboundGives(S, aliceK, p, ek, l, h);
    if S.kemDecaps(h.cipherText, l.qpk).Some? {
      EqualRootsEqualSecrets(S, PairOf(S, aliceK), PublicOf(S, p.K), keys, ek, coins,
                             PairOf(S, p.K), l.spk, l.opk, l.qpk, h);
    }
  }

  /** With the private halves of the keys used, the responder mirrors the initiator. */
  lemma HandshakeMirrors(S: Suite, aliceK: xckey, p: Party, c: Choice, ek: xckey, coins: bytes, out: InitResult)
    requires Laws(S) && Published(S, p, c)
    requires CreateOutboundSession(S, PairOf(S, aliceK), PublicOf(S, p.K), BundleFor(S, p, c), Some(ek), coins)
          == Value(Some(out))
    ensures Mirrors(S, aliceK, p.K, ek, out,
                    CreateInboundSession(S, PairOf(S, p.K), p.spk, c.oneTime,
                                         S.kemKeypair(QuantumSeed(p, c)).value.1, out.handshake))
  {
    AnswerExact(S, aliceK, p, c, ek, coins, out, SlotKeys(p.spk, c.oneTime, S.kemKeypair(QuantumSeed(p, c)).value.1));
  }

  // ----- the store behind a party

  ghost predicate PartyOk(S: Suite, p: Party) {
    && p.store.identity == Some(PublicOf(S, p.K) + p.K)
    && p.store.prekeys == Apply(map[], p.writes)
    && (forall w :: w in p.writes ==> Shaped(w))
    && XWrite(S, p.spk) in p.writes
    && S.kemKeypair(p.lastResort.seed).Some? && LastResortWrite(S, p.lastResort) in p.writes
    && (forall x :: x in p.xs ==> XWrite(S, x) in p.writes)
    && (forall q :: q in p.qs ==> S.kemKeypair(q.seed).Some? && QWrite(S, q.seed) in p.writes)
  }

  lemma HandshakeIds(S: Suite, me: KeyPair, verify: xckey, keys: Bundle, ek: xckey, coins: bytes, r: InitResult)
    requires CreateOutboundSession(S, me, verify, keys, Some(ek), coins) == Value(Some(r))
    ensures NamesKeys(r.handshake, keys)
  {
  }

  /** What the store was given for the quantum key of a bundle. */
  function QuantumWrite(S: Suite, p: Party, c: Choice): Write
    requires Published(S, p, c)
  {
    if c.quantum.Some? then QWrite(S, c.quantum.value.seed) else LastResortWrite(S, p.lastResort)
  }

  ghost predicate Holds(p: Party, w: Write) {
    Load(p.store.prekeys, w.id, w.kind) == Some(w.blob)
  }

  /** The slots that a handshake names hold the keys it was made with. */
  ghost predicate HoldsKeys(S: Suite, p: Party, c: Choice)
    requires Published(S, p, c)
  {
    && Holds(p, XWrite(S, p.spk))
    && Holds(p, QuantumWrite(S, p, c))
    && (c.oneTime.Some? ==> Holds(p, XWrite(S, c.oneTime.value)))
  }

  /** None of those slots was ever given another key. */
  ghost predicate SlotsIntact(S: Suite, p: Party, c: Choice)
    requires Published(S, p, c)
  {
    && Intact(p.writes, XWrite(S, p.spk))
    && Intact(p.writes, QuantumWrite(S, p, c))
    && (c.oneTime.Some? ==> Intact(p.writes, XWrite(S, c.oneTime.value)))
  }

  lemma IntactHolds(S: Suite, p: Party, c: Choice)
    requires PartyOk(S, p) && Published(S, p, c) && SlotsIntact(S, p, c)
    ensures HoldsKeys(S, p, c)
  {
    IntactLoads(map[], p.writes, XWrite(S, p.spk));
    IntactLoads(map[], p.writes, QuantumWrite(S, p, c));
    if c.oneTime.Some? {
      IntactLoads(map[], p.writes, XWrite(S, c.oneTime.value));
    }
  }

  /** The store-backed lookup finds exactly the private halves of the keys used. */
  lemma StoreFinds(S: Suite, p: Party, c: Choice, handshake: Handshake)
    requires p.store.identity == Some(PublicOf(S, p.K) + p.K)
    requires Published(S, p, c) && HoldsKeys(S, p, c)
    requires NamesKeys(handshake, BundleFor(S, p, c))
    ensures InboundFromStore(S, p.store, handshake)
         == CreateInboundSession(S, PairOf(S, p.K), p.spk, c.oneTime,
                                 S.kemKeypair(QuantumSeed(p, c)).value.1, handshake)
  {
    LoadPair(PublicOf(S, p.K), p.K);
    XBlob(S, p.spk);
    if c.oneTime.Some? {
      XBlob(S, c.oneTime.value);
    }
    QBlob(S, QuantumSeed(p, c));
  }

  /** The prekeys that a store holds in the slots a handshake names. */
  function SlotKeysOf(st: StoreState, h: Handshake): Option<SlotKeys>
    requires |h.usedPreKeys| >= 1 && |h.usedQuantumPreKeys| >= 1
  {
    var hasOneTime := |h.usedPreKeys| > 1;
    var spk := LoadPrivate(Load(st.prekeys, h.usedPreKeys[0], PREKEY), 32, 32);
    var opk := if hasOneTime then LoadPrivate(Load(st.prekeys, h.usedPreKeys[1], PREKEY), 32, 32) else None;
    var qpk := LoadPrivate(Load(st.prekeys, h.usedQuantumPreKeys[0], QUANTUM), 3168, 1568);
    if spk.None? || (hasOneTime && opk.None?) || qpk.None? then None
    else Some(SlotKeys(spk.value, opk, qpk.value))
  }

  lemma FromStore(S: Suite, p: Party, h: Handshake)
    requires p.store.identity == Some(PublicOf(S, p.K) + p.K)
    requires |h.usedPreKeys| >= 1 && |h.usedQuantumPreKeys| >= 1 && SlotKeysOf(p.store, h).Some?
    ensures var l := SlotKeysOf(p.store, h).value;
      InboundFromStore(S, p.store, h) == CreateInboundSession(S, PairOf(S, p.K), l.spk, l.opk, l.qpk, h)
  {
    LoadPair(PublicOf(S, p.K), p.K);
  }

  /** A slot once written holds a pair of the right sizes. */
  lemma SlotFilled(S: Suite, p: Party, w: Write)
    requires PartyOk(S, p) && w in p.writes
    ensures w.kind == PREKEY ==> LoadPrivate(Load(p.store.prekeys, w.id, w.kind), 32, 32).Some?
    ensures w.kind == QUANTUM ==> LoadPrivate(Load(p.store.prekeys, w.id, w.kind), 3168, 1568).Some?
  {
    var i :| 0 <= i < |p.writes| && p.writes[i] == w;
    LoadsLast(map[], p.writes, i);
    assert p.writes[LastIndex(p.writes, i)] in p.writes;
  }

  /** So every slot that a handshake on published keys names is filled. */
  lemma SlotsFilled(S: Suite, p: Party, c: Choice, h: Handshake)
    requires PartyOk(S, p) && Published(S, p, c) && NamesKeys(h, BundleFor(S, p, c))
    ensures SlotKeysOf(p.store, h).Some?
  {
    SlotFilled(S, p, XWrite(S, p.spk));
    SlotFilled(S, p, QuantumWrite(S, p, c));
    if c.oneTime.Some? {
      SlotFilled(S, p, XWrite(S, c.oneTime.value));
    }
  }

  // ----- the invariant

  /** The exchange was made with keys that its responder has published. */
  ghost predicate ExchangeOk(S: Suite, s: System, x: Exchange) {
    && x.from < |s.parties| && x.to < |s.parties|
    && var a, b := s.parties[x.from], s.parties[x.to];
       && Published(S, b, x.choice)
       && CreateOutboundSession(S, PairOf(S, a.K), PublicOf(S, b.K), BundleFor(S, b, x.choice), Some(x.ek), x.coins)
            == Value(Some(x.result))
  }

  ghost predicate AnswerOk(S: Suite, s: System, a: Answer) {
    && a.exchange < |s.exchanges|
    && var x := s.exchanges[a.exchange];
       && x.from < |s.parties| && x.to < |s.parties|
       && Published(S, s.parties[x.to], x.choice)
       && (SlotsIntact(S, s.parties[x.to], x.choice) ==>
             Mirrors(S, s.parties[x.from].K, s.parties[x.to].K, x.ek, x.result, a.result))
  }

  ghost predicate SystemOk(S: Suite, s: System) {
    && (forall i :: 0 <= i < |s.parties| ==> PartyOk(S, s.parties[i]))
    && (forall k :: 0 <= k < |s.exchanges| ==> ExchangeOk(S, s, s.exchanges[k]))
    && (forall k :: 0 <= k < |s.answers| ==> AnswerOk(S, s, s.answers[k]))
  }

  /** Whenever the store holds the keys used, an exchange is answered by a mirroring session. */
  lemma ExchangeAnswered(S: Suite, s: System, x: Exchange)
    requires Laws(S) && ExchangeOk(S, s, x) && PartyOk(S, s.parties[x.to])
    requires HoldsKeys(S, s.parties[x.to], x.choice)
    ensures Mirrors(S, s.parties[x.from].K, s.parties[x.to].K, x.ek, x.result,
                    InboundFromStore(S, s.parties[x.to].store, x.result.handshake))
  {
    var a, b := s.parties[x.from], s.parties[x.to];
    var keys := BundleFor(S, b, x.choice);
    HandshakeMirrors(S, a.K, b, x.choice, x.ek, x.coins, x.result);
    HandshakeIds(S, PairOf(S, a.K), PublicOf(S, b.K), keys, x.ek, x.coins, x.result);
    StoreFinds(S, b, x.choice, x.result.handshake);
  }

  /** A later state of a party: same keys, more published, more written. */
  predicate Extends(p: Party, q: Party) {
    && q.K == p.K && q.spk == p.spk && q.spkZ == p.spkZ && q.lastResort == p.lastResort
    && p.writes <= q.writes
    && (forall x :: x in p.xs ==> x in q.xs)
    && (forall d :: d in p.qs ==> d in q.qs)
  }

  lemma RefilledOk(S: Suite, p: Party, draws: seq<Draw>)
    requires PartyOk(S, p)
    ensures PartyOk(S, Refilled(S, p, draws)) && Extends(p, Refilled(S, p, draws))
  {
    var q := Refilled(S, p, draws);
    ApplyAppend(map[], p.writes, RefillWrites(S, draws));
    forall w | w in RefillWrites(S, draws)
      ensures Shaped(w)
    {
      RefillShaped(S, draws, w);
    }
    if Succeeds(S, draws) {
      forall i | 0 <= i < |draws|
        ensures XWrite(S, draws[i].private) in q.writes && QWrite(S, draws[i].seed) in q.writes
      {
        PayloadWritten(S, p.K, draws, i);
      }
    }
  }

  /** What is intact later was intact before. */
  lemma IntactBefore(S: Suite, p: Party, q: Party, c: Choice)
    requires Extends(p, q) && Published(S, p, c) && Published(S, q, c) && SlotsIntact(S, q, c)
    ensures SlotsIntact(S, p, c)
  {
    assert forall i :: 0 <= i < |p.writes| ==> p.writes[i] == q.writes[i];
  }

  /** Growing parties keep exchanges and answers in order. */
  lemma GrowthKeeps(S: Suite, s: System, t: System)
    requires SystemOk(S, s) && t.exchanges == s.exchanges && t.answers == s.answers
    requires |s.parties| <= |t.parties|
    requires forall i :: 0 <= i < |s.parties| ==> Extends(s.parties[i], t.parties[i])
    requires forall i :: 0 <= i < |t.parties| ==> PartyOk(S, t.parties[i])
    ensures SystemOk(S, t)
  {
    forall k | 0 <= k < |t.exchanges|
      ensures ExchangeOk(S, t, t.exchanges[k])
    {
      var x := s.exchanges[k];
      assert ExchangeOk(S, s, x);
      assert Extends(s.parties[x.from], t.parties[x.from]) && Extends(s.parties[x.to], t.parties[x.to]);
      assert BundleFor(S, t.parties[x.to], x.choice) == BundleFor(S, s.parties[x.to], x.choice);
    }
    forall k | 0 <= k < |t.answers|
      ensures AnswerOk(S, t, t.answers[k])
    {
      assert AnswerOk(S, s, s.answers[k]);
      var x := s.exchanges[s.answers[k].exchange];
      var p, q := s.parties[x.to], t.parties[x.to];
      assert Extends(s.parties[x.from], t.parties[x.from]) && Extends(p, q);
      if SlotsIntact(S, q, x.choice) {
        IntactBefore(S, p, q, x.choice);
      }
    }
  }

  lemma NewPartyOk(S: Suite, K: xckey, spk: xckey, spkZ: key64, lastResort: LastResortKey)
    requires S.kemKeypair(lastResort.seed).Some?
    ensures PartyOk(S, NewParty(S, K, spk, spkZ, lastResort))
  {
    var p := NewParty(S, K, spk, spkZ, lastResort);
    assert p.writes[0] == XWrite(S, spk) && p.writes[1] == LastResortWrite(S, lastResort);
  }

  /** The same parties and more exchanges keep an exchange and an answer in order. */
  lemma ExchangeKept(S: Suite, s: System, t: System, x: Exchange)
    requires t.parties == s.parties && ExchangeOk(S, s, x)
    ensures ExchangeOk(S, t, x)
  {
  }

  lemma AnswerKept(S: Suite, s: System, t: System, a: Answer)
    requires t.parties == s.parties && s.exchanges <= t.exchanges && AnswerOk(S, s, a)
    ensures AnswerOk(S, t, a)
  {
    assert t.exchanges[a.exchange] == s.exchanges[a.exchange];
  }

  /** A new exchange is in order when it comes from published keys; answers are untouched. */
  lemma OutboundOk(S: Suite, s: System, x: Exchange)
    requires SystemOk(S, s) && ExchangeOk(S, s, x)
    ensures SystemOk(S, s.(exchanges := s.exchanges + [x]))
  {
    var t := s.(exchanges := s.exchanges + [x]);
    forall k | 0 <= k < |t.exchanges|
      ensures ExchangeOk(S, t, t.exchanges[k])
    {
      ExchangeKept(S, s, t, t.exchanges[k]);
    }
    forall k | 0 <= k < |t.answers|
      ensures AnswerOk(S, t, t.answers[k])
    {
      AnswerKept(S, s, t, t.answers[k]);
    }
  }

  lemma InboundOk(S: Suite, s: System, a: Answer)
    requires SystemOk(S, s) && AnswerOk(S, s, a)
    ensures SystemOk(S, s.(answers := s.answers + [a]))
  {
    var t := s.(answers := s.answers + [a]);
    forall k | 0 <= k < |t.exchanges|
      ensures ExchangeOk(S, t, t.exchanges[k])
    {
      ExchangeKept(S, s, t, t.exchanges[k]);
    }
    forall k | 0 <= k < |t.answers|
      ensures AnswerOk(S, t, t.answers[k])
    {
      AnswerKept(S, s, t, t.answers[k]);
    }
  }

  lemma AnswerFits(S: Suite, s: System, k: nat)
    requires Laws(S) && SystemOk(S, s) && k < |s.exchanges| && s.exchanges[k].to < |s.parties|
    ensures var x := s.exchanges[k];
      AnswerOk(S, s, Answer(k, InboundFromStore(S, s.parties[x.to].store, x.result.handshake)))
  {
    var x := s.exchanges[k];
    assert ExchangeOk(S, s, x) && PartyOk(S, s.parties[x.to]);
    if SlotsIntact(S, s.parties[x.to], x.choice) {
      IntactHolds(S, s.parties[x.to], x.choice);
      ExchangeAnswered(S, s, x);
    }
  }

  lemma EnrollOk(S: Suite, s: System, K: xckey, spk: xckey, spkZ: key64, lastResort: LastResortKey)
    requires SystemOk(S, s)
    ensures SystemOk(S, Step(S, s, Enroll(K, spk, spkZ, lastResort)))
  {
    if S.kemKeypair(lastResort.seed).Some? {
      NewPartyOk(S, K, spk, spkZ, lastResort);
      GrowthKeeps(S, s, Step(S, s, Enroll(K, spk, spkZ, lastResort)));
    }
  }

  lemma RefillOk(S: Suite, s: System, who: nat, draws: seq<Draw>)
    requires SystemOk(S, s)
    ensures SystemOk(S, Step(S, s, Refill(who, draws)))
  {
    if who < |s.parties| {
      RefilledOk(S, s.parties[who], draws);
      GrowthKeeps(S, s, Step(S, s, Refill(who, draws)));
    }
  }

  lemma OutboundStepOk(S: Suite, s: System, from: nat, to: nat, c: Choice, ek: xckey, coins: bytes)
    requires SystemOk(S, s)
    ensures SystemOk(S, Step(S, s, Outbound(from, to, c, ek, coins)))
  {
    if from < |s.parties| && to < |s.parties| && Published(S, s.parties[to], c) {
      var a, b := s.parties[from], s.parties[to];
      var r := CreateOutboundSession(S, PairOf(S, a.K), PublicOf(S, b.K), BundleFor(S, b, c), Some(ek), coins);
      if r.Value? && r.value.Some? {
        OutboundOk(S, s, Exchange(from, to, c, ek, coins, r.value.value));
      }
    }
  }

  lemma InboundStepOk(S: Suite, s: System, k: nat)
    requires Laws(S) && SystemOk(S, s)
    ensures SystemOk(S, Step(S, s, Inbound(k)))
  {
    if k < |s.exchanges| && s.exchanges[k].to < |s.parties| {
      var x := s.exchanges[k];
      AnswerFits(S, s, k);
      InboundOk(S, s, Answer(k, InboundFromStore(S, s.parties[x.to].store, x.result.handshake)));
    }
  }

  lemma StepOk(S: Suite, s: System, e: Event)
    requires Laws(S) && SystemOk(S, s)
    ensures SystemOk(S, Step(S, s, e))
  {
    match e {
      case Enroll(K, spk, spkZ, lastResort) => EnrollOk(S, s, K, spk, spkZ, lastResort);
      case Refill(who, draws) => RefillOk(S, s, who, draws);
      case Outbound(from, to, choice, ek, coins) => OutboundStepOk(S, s, from, to, choice, ek, coins);
      case Inbound(k) => InboundStepOk(S, s, k);
    }
  }

  lemma {:induction false} RunOk(S: Suite, s: System, events: seq<Event>)
    requires Laws(S) && SystemOk(S, s)
    ensures SystemOk(S, Run(S, s, events))
    decreases |events|
  {
    if events == [] {
    } else {
      StepOk(S, s, events[0]);
      RunOk(S, Step(S, s, events[0]), events[1..]);
    }
  }

  /**
   The main theorem, for every exchange after any interleaving of enrolments, refills,
   outbound calls on bundles of published keys and store-backed inbound calls. If the
   responder's store holds the keys that the handshake names, it answers now with a session
   that has the initiator's root key and identity key. If none of their ids was ever reused
   for another key, the store does hold them and every answer given so far was such a
   session.
   */
  lemma EveryRunAgrees(S: Suite, events: seq<Event>, k: nat)
    requires Laws(S)
    requires k < |Run(S, EMPTY, events).exchanges|
    ensures var s := Run(S, EMPTY, events);
      var x := s.exchanges[k];
      && x.from < |s.parties| && x.to < |s.parties|
      && var a, b := s.parties[x.from], s.parties[x.to];
         && Published(S, b, x.choice)
         && (HoldsKeys(S, b, x.choice) ==>
               Mirrors(S, a.K, b.K, x.ek, x.result, InboundFromStore(S, b.store, x.result.handshake)))
         && (SlotsIntact(S, b, x.choice) ==>
               && HoldsKeys(S, b, x.choice)
               && forall j :: 0 <= j < |s.answers| && s.answers[j].exchange == k ==>
                    Mirrors(S, a.K, b.K, x.ek, x.result, s.answers[j].result))
  {
    var s := Run(S, EMPTY, events);
    RunOk(S, EMPTY, events);
    var x := s.exchanges[k];
    assert ExchangeOk(S, s, x);
    var b := s.parties[x.to];
    assert PartyOk(S, b);
    if HoldsKeys(S, b, x.choice) {
      ExchangeAnswered(S, s, x);
    }
    if SlotsIntact(S, b, x.choice) {
      IntactHolds(S, b, x.choice);
      forall j | 0 <= j < |s.answers| && s.answers[j].exchange == k
        ensures Mirrors(S, s.parties[x.from].K, b.K, x.ek, x.result, s.answers[j].result)
      {
        assert AnswerOk(S, s, s.answers[j]);
      }
    }
  }

  /**
   The exact condition, for every exchange after any run, also when its slots were written
   again: they hold some keys, and the answer mirrors the initiator exactly when these do
   for the handshake what the keys it was made with do, or the KDF collides.
   */
  lemma EveryRunExact(S: Suite, events: seq<Event>, k: nat)
    requires Laws(S)
    requires k < |Run(S, EMPTY, events).exchanges|
    ensures var s := Run(S, EMPTY, events);
      var x := s.exchanges[k];
      && x.from < |s.parties| && x.to < |s.parties|
      && var a, b, h := s.parties[x.from], s.parties[x.to], x.result.handshake;
         && Published(S, b, x.choice)
         && |h.usedPreKeys| >= 1 && |h.usedQuantumPreKeys| >= 1 && SlotKeysOf(b.store, h).Some?
         && var l := SlotKeysOf(b.store, h).value;
            Mirrors(S, a.K, b.K, x.ek, x.result, InboundFromStore(S, b.store, h))
            <==> SameKeys(S, b, x.choice, l, h)
                 || Collides(S, OutboundSecrets(S, PairOf(S, a.K), BundleFor(S, b, x.choice), x.ek, x.coins),
                             InboundSecrets(S, PairOf(S, b.K), l.spk, l.opk, l.qpk, h))
  {
    var s := Run(S, EMPTY, events);
    RunOk(S, EMPTY, events);
    var x := s.exchanges[k];
    assert ExchangeOk(S, s, x);
    assert PartyOk(S, s.parties[x.to]);
    ExchangeExact(S, s.parties[x.from].K, s.parties[x.to], x);
  }

  lemma ExchangeExact(S: Suite, aliceK: xckey, b: Party, x: Exchange)
    requires Laws(S) && PartyOk(S, b) && Published(S, b, x.choice)
    requires CreateOutboundSession(S, PairOf(S, aliceK), PublicOf(S, b.K), BundleFor(S, b, x.choice),
                                   Some(x.ek), x.coins)
          == Value(Some(x.result))
    ensures var h := x.result.handshake;
      && |h.usedPreKeys| >= 1 && |h.usedQuantumPreKeys| >= 1 && SlotKeysOf(b.store, h).Some?
      && var l := SlotKeysOf(b.store, h).value;
         Mirrors(S, aliceK, b.K, x.ek, x.result, InboundFromStore(S, b.store, h))
         <==> SameKeys(S, b, x.choice, l, h)
              || Collides(S, OutboundSecrets(S, PairOf(S, aliceK), BundleFor(S, b, x.choice), x.ek, x.coins),
                          InboundSecrets(S, PairOf(S, b.K), l.spk, l.opk, l.qpk, h))
  {
    var h := x.result.handshake;
    HandshakeIds(S, PairOf(S, aliceK), PublicOf(S, b.K), BundleFor(S, b, x.choice), x.ek, x.coins, x.result);
    SlotsFilled(S, b, x.choice, h);
    FromStore(S, b, h);
    AnswerExact(S, aliceK, b, x.choice, x.ek, x.coins, x.result, SlotKeysOf(b.store, h).value);
  }

  /**
   In every reachable state an outbound call on published keys opens an exchange exactly
   when the signatures it checks are accepted; for a responder with a matching identity key
   exactly when their sign bits are clear.
   */
  lemma OutboundOpens(S: Suite, events: seq<Event>, from: nat, to: nat, c: Choice, ek: xckey, coins: bytes)
    requires Laws(S)
    requires var s := Run(S, EMPTY, events);
      from < |s.parties| && to < |s.parties| && Published(S, s.parties[to], c)
    ensures var s := Run(S, EMPTY, events);
      var t := Step(S, s, Outbound(from, to, c, ek, coins));
      var b := s.parties[to];
      && |t.exchanges| == |s.exchanges| + (if SignaturesAccepted(S, b, c) then 1 else 0)
      && (KeyMatches(b.K) ==> (SignaturesAccepted(S, b, c) <==> SignBitsClear(BundleFor(S, b, c))))
  {
    var s := Run(S, EMPTY, events);
    HonestBundleVerifies(S, s.parties[to], c);
    OutboundSucceeds(S, s.parties[from].K, s.parties[to], c, ek, coins);
  }
}
