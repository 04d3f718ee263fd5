/**
 `verify32` and the store-backed `create_inbound_session` as written, and the exact extent
 to which each still does what it announces.
 */
module Deviations {
  import opened Bytes
  import opened Modular
  import opened Outcomes
  import opened Group
  import opened Edwards
  import opened Suites
  import opened Xeddsa
  import opened Stores
  import opened Util
  import opened Pqxdh
  import opened Refills
  import opened Systems

  // ----- verify32: scalar arithmetic in place of the group equation

  function ScalarSub(a: xckey, b: xckey): xckey {
    ToLE((LE(a) - LE(b)) % Q, 32)
  }

  /**
   The result of `bpscale(s)` is dropped and the bytes of A enter as a scalar: R is
   compared with s - hA modulo q, and the key is converted modulo q.
   */
  function VerifyAsWritten(S: Suite, mkPub: xckey, M: bytes, sig: key64): Outcome<bool> {
    var R, s := sig[..32], sig[32..];
    if !SigInBounds(mkPub, R, s) then Value(false)
    else
      var A :- ConvertMont(Q, mkPub);
      Value(ScalarEquation(S, A, M, R, s))
  }

  predicate ScalarEquation(S: Suite, A: xckey, M: bytes, R: xckey, s: xckey) {
    S.decode(A).Some? && ScalarSub(s, ScalarMul(Challenge(S, R, A, M), A)) == R
  }

  lemma EquationExact(S: Suite, A: xckey, M: bytes, R: xckey, s: xckey)
    ensures ScalarEquation(S, A, M, R, s)
       <==> S.decode(A).Some? && LE(R) < Q && Cong(LE(R) + LE(ScalarMul(Challenge(S, R, A, M), A)), LE(s), Q)
  {
    SubExact(R, s, ScalarMul(Challenge(S, R, A, M), A));
  }

  /** R is the reduced scalar t - h'A' for the converted key A' and its challenge h'. */
  ghost predicate IsScalarR(S: Suite, A: Outcome<xckey>, M: bytes, R: xckey, t: nat) {
    && LE(R) < Q
    && A.Value? && S.decode(A.value).Some?
    && Cong(LE(R) + LE(ScalarMul(Challenge(S, R, A.value, M), A.value)), t, Q)
  }

  /**
   The signatures accepted as written are those within bounds whose R is such a scalar for
   s; within bounds a key that is -1 modulo q throws; all others are rejected.
   */
  lemma AsWrittenExact(S: Suite, mkPub: xckey, M: bytes, sig: key64)
    ensures VerifyAsWritten(S, mkPub, M, sig) == Value(true)
       <==> && LE(mkPub) < P && LE(sig[32..]) < TWO_253
            && IsScalarR(S, ConvertMont(Q, mkPub), M, sig[..32], LE(sig[32..]))
    ensures VerifyAsWritten(S, mkPub, M, sig) == Throw
       <==> && LE(mkPub) < P && LE(sig[..32]) < TWO_255 && LE(sig[32..]) < TWO_253
            && (LE(mkPub) + 1) % Q == 0
  {
    BoundsExact(mkPub, sig[..32], sig[32..]);
    YCoordBelow(mkPub);
    VerifyShape(S, mkPub, M, sig, ConvertMont(Q, mkPub));
    ScalarRExact(S, ConvertMont(Q, mkPub), M, sig[..32], sig[32..]);
  }

  lemma YCoordBelow(mkPub: xckey)
    ensures LE(mkPub) < P ==> YCoord(mkPub) == mkPub
  {
    if LE(mkPub) < P {
      YCoordIdentity(mkPub);
    }
  }

  lemma VerifyShape(S: Suite, mkPub: xckey, M: bytes, sig: key64, A: Outcome<xckey>)
    requires A == ConvertMont(Q, mkPub)
    ensures VerifyAsWritten(S, mkPub, M, sig) == Value(true)
       <==> SigInBounds(mkPub, sig[..32], sig[32..])
            && A.Value? && ScalarEquation(S, A.value, M, sig[..32], sig[32..])
    ensures VerifyAsWritten(S, mkPub, M, sig) == Throw
       <==> SigInBounds(mkPub, sig[..32], sig[32..]) && (LE(YCoord(mkPub)) + 1) % Q == 0
  {
  }

  lemma ScalarRExact(S: Suite, A: Outcome<xckey>, M: bytes, R: xckey, s: xckey)
    ensures IsScalarR(S, A, M, R, LE(s)) <==> A.Value? && ScalarEquation(S, A.value, M, R, s)
    ensures IsScalarR(S, A, M, R, LE(s)) ==> LE(R) < TWO_255
  {
    if A.Value? {
      EquationExact(S, A.value, M, R, s);
    }
  }

  lemma SubExact(R: xckey, s: xckey, x: xckey)
    ensures ScalarSub(s, x) == R <==> LE(R) < Q && Cong(LE(R) + LE(x), LE(s), Q)
  {
    var D := ScalarSub(s, x);
    SubValue(s, x);
    SameNumber(R, D);
    DifferenceMod(LE(s), LE(x), LE(R));
  }

  lemma SubValue(s: xckey, x: xckey)
    ensures LE(ScalarSub(s, x)) == (LE(s) - LE(x)) % Q
  {
    LEToKey((LE(s) - LE(x)) % Q);
  }

  lemma DifferenceMod(s: nat, e: nat, r: nat)
    ensures r == (s - e) % Q <==> r < Q && Cong(r + e, s, Q)
  {
    CongUnique(r, s - e, Q);
    assert (r + e) - s == r - (s - e);
  }

  /**
   On honest signatures of any lawful record, for every private key: the code as written
   accepts exactly when R happens to be the reduced scalar it compares with, for r + ha.
   For matching keys it agrees with the group equation exactly then, or when R's sign bit
   is set and both reject.
   */
  lemma AsWrittenAgrees(S: Suite, K: xckey, M: bytes, Z: key64)
    requires Laws(S)
    ensures var sig, A := Sign(S, K, M, Z), CalculateKeyPair(S, K);
      var R, pk := sig[..32], PublicOf(S, K);
      var t := LE(Nonce(S, K, M, Z)) + LE(ScalarMul(Challenge(S, R, A.Public, M), A.Private));
      && (VerifyAsWritten(S, pk, M, sig) == Value(true) <==> IsScalarR(S, ConvertMont(Q, pk), M, R, t))
      && (KeyMatches(K) ==>
            && Verify(S, pk, M, sig) == Value(!SignBit(R))
            && (VerifyAsWritten(S, pk, M, sig) == Verify(S, pk, M, sig)
                <==> SignBit(R) || IsScalarR(S, ConvertMont(Q, pk), M, R, t)))
  {
    var sig, pk := Sign(S, K, M, Z), PublicOf(S, K);
    if KeyMatches(K) {
      Complete(S, K, M, Z);
    }
    VerifierKey(S, K);
    SignedScalarSmall(S, K, M, Z);
    SignedBounds(S, pk, sig);
    AsWrittenExact(S, pk, M, sig);
    SignedSum(S, K, M, Z, ConvertMont(Q, pk));
  }

  /** s is r + ha reduced, so either stands for the other in the scalar relation. */
  lemma SignedSum(S: Suite, K: xckey, M: bytes, Z: key64, C: Outcome<xckey>)
    ensures var sig, A := Sign(S, K, M, Z), CalculateKeyPair(S, K);
      var R := sig[..32];
      var t := LE(Nonce(S, K, M, Z)) + LE(ScalarMul(Challenge(S, R, A.Public, M), A.Private));
      IsScalarR(S, C, M, R, LE(sig[32..])) <==> IsScalarR(S, C, M, R, t)
  {
    var sig, A := Sign(S, K, M, Z), CalculateKeyPair(S, K);
    var x := ScalarMul(Challenge(S, sig[..32], A.Public, M), A.Private);
    SignHalves(S, K, M, Z);
    AddValue(Nonce(S, K, M, Z), x);
    SameScalarR(S, C, M, sig[..32], LE(sig[32..]), LE(Nonce(S, K, M, Z)) + LE(x));
  }

  lemma SameScalarR(S: Suite, A: Outcome<xckey>, M: bytes, R: xckey, s: nat, t: nat)
    requires s == t % Q
    ensures IsScalarR(S, A, M, R, s) <==> IsScalarR(S, A, M, R, t)
  {
    if A.Value? {
      SameTarget(LE(R) + LE(ScalarMul(Challenge(S, R, A.value, M), A.value)), s, t);
    }
  }

  lemma SameTarget(n: nat, s: nat, t: nat)
    requires s == t % Q
    ensures Cong(n, s, Q) <==> Cong(n, t, Q)
  {
    CongMod(t, Q);
    if Cong(n, s, Q) {
      CongTrans(n, s, t, Q);
    } else if Cong(n, t, Q) {
      CongTrans(n, t, s, Q);
    }
  }

  /** In particular every honest signature whose R half is q or more is rejected as written. */
  lemma LargeRRejected(S: Suite, K: xckey, M: bytes, Z: key64)
    requires Laws(S) && LE(Sign(S, K, M, Z)[..32]) >= Q
    ensures VerifyAsWritten(S, PublicOf(S, K), M, Sign(S, K, M, Z)) != Value(true)
    ensures Verify(S, PublicOf(S, K), M, Sign(S, K, M, Z)) == Value(Accepted(S, K, M, Z))
    ensures KeyMatches(K) ==> (Accepted(S, K, M, Z) <==> !SignBit(Sign(S, K, M, Z)[..32]))
  {
    AsWrittenExact(S, PublicOf(S, K), M, Sign(S, K, M, Z));
    AcceptedExactly(S, K, M, Z);
  }

  // ----- create_inbound_session(handshake): loads whose success counts as failure

  /** `OutOfRange` is the read of `usedPreKeys[1]` when only one id was sent. */
  datatype Inbound = Returns(r: Outcome<Option<Session>>) | OutOfRange

  /** The blob is there, and too short for a load of `n` bytes at `offset`. */
  predicate TooShort(blob: Option<bytes>, n: nat, offset: nat) {
    blob.Some? && LoadS(blob.value, n, offset).None?
  }

  function InboundAsWritten(S: Suite, st: StoreState, h: Handshake): Inbound {
    var rejected := Returns(Value(None));
    if |h.usedPreKeys| < 1 then rejected
    else if !TooShort(st.identity, 32, 0) || !TooShort(st.identity, 32, 32) then rejected
    else if !TooShort(Load(st.prekeys, h.usedPreKeys[0], PREKEY), 32, 32) then rejected
    else if |h.usedPreKeys| > 1 && !TooShort(Load(st.prekeys, h.usedPreKeys[1], PREKEY), 32, 32) then rejected
    else if |h.usedPreKeys| < 2 then OutOfRange
    else if !TooShort(Load(st.prekeys, h.usedPreKeys[1], QUANTUM), 3168, 3168) then rejected
    else OnZeroKeys(S, h)
  }

  /** The session computed when no load has touched the zero-initialised keys. */
  function OnZeroKeys(S: Suite, h: Handshake): Inbound {
    Returns(CreateInboundSession(S, KeyPair(NO_KEY, NO_KEY), NO_KEY, Some(NO_KEY), Zeros(3168), h))
  }

  predicate Below(blob: Option<bytes>, size: nat) {
    blob.Some? && |blob.value| < size
  }

  /**
   The outcome for every store, by the sizes of the blobs consulted: an identity blob below
   32 bytes and prekey blobs below 64 let a one-id handshake read out of range, and, with a
   quantum blob below 6336 under the second id as well, a longer one reach a session on
   zero keys; everything else is rejected.
   */
  lemma InboundOutcome(S: Suite, st: StoreState, h: Handshake)
    ensures var n := |h.usedPreKeys|;
      var first := n >= 1 && Below(st.identity, 32) && Below(Load(st.prekeys, h.usedPreKeys[0], PREKEY), 64);
      var second := n >= 2 && Below(Load(st.prekeys, h.usedPreKeys[1], PREKEY), 64)
                    && Below(Load(st.prekeys, h.usedPreKeys[1], QUANTUM), 6336);
      && (InboundAsWritten(S, st, h) == OutOfRange <==> first && n == 1)
      && (first && second ==>
            InboundAsWritten(S, st, h) == Returns(CreateInboundSession(
              S, KeyPair(Zeros(32), Zeros(32)), Zeros(32), Some(Zeros(32)), Zeros(3168), h)))
      && (!first || (n >= 2 && !second) ==> InboundAsWritten(S, st, h) == Returns(Value(None)))
  {
    SmallBlob(st.identity, 32, 0);
    SmallBlob(st.identity, 32, 32);
    if |h.usedPreKeys| >= 1 {
      SmallBlob(Load(st.prekeys, h.usedPreKeys[0], PREKEY), 32, 32);
    }
    if |h.usedPreKeys| >= 2 {
      SmallBlob(Load(st.prekeys, h.usedPreKeys[1], PREKEY), 32, 32);
      SmallBlob(Load(st.prekeys, h.usedPreKeys[1], QUANTUM), 3168, 3168);
    }
  }

  lemma SmallBlob(blob: Option<bytes>, n: nat, offset: nat)
    ensures TooShort(blob, n, offset) <==> Below(blob, n + offset)
  {
  }

  /**
   With stores filled by the owned `key_bytes`: over any party's store in any run, every
   handshake is rejected.
   */
  lemma NoRunAccepts(S: Suite, events: seq<Event>, who: nat, h: Handshake)
    requires Laws(S)
    requires who < |Run(S, EMPTY, events).parties|
    ensures InboundAsWritten(S, Run(S, EMPTY, events).parties[who].store, h) == Returns(Value(None))
  {
    var s := Run(S, EMPTY, events);
    RunOk(S, EMPTY, events);
    assert PartyOk(S, s.parties[who]);
    InboundOutcome(S, s.parties[who].store, h);
  }

  /** The store that `key_bytes` as written fills: a reserved vector has size 0. */
  function Hollow(st: StoreState): StoreState {
    StoreState(
      if st.identity.Some? then Some([]) else None,
      map slot | slot in st.prekeys :: [])
  }

  /**
   With stores filled by `key_bytes` as written, over any run: a handshake without a
   one-time prekey reads out of range; one with a one-time prekey is rejected, unless some
   quantum key happens to be stored under the one-time prekey's id, and then gets whatever
   zero keys give.
   */
  lemma HollowRuns(S: Suite, events: seq<Event>, k: nat)
    requires Laws(S)
    requires k < |Run(S, EMPTY, events).exchanges|
    ensures var s := Run(S, EMPTY, events);
      var x := s.exchanges[k];
      x.to < |s.parties|
      && var st, h := Hollow(s.parties[x.to].store), x.result.handshake;
         InboundAsWritten(S, st, h) ==
           if |h.usedPreKeys| == 1 then OutOfRange
           else if |h.usedPreKeys| == 2 && (h.usedPreKeys[1], QUANTUM) in st.prekeys then OnZeroKeys(S, h)
           else Returns(Value(None))
  {
    var s := Run(S, EMPTY, events);
    RunOk(S, EMPTY, events);
    var x := s.exchanges[k];
    assert ExchangeOk(S, s, x);
    var a, b := s.parties[x.from], s.parties[x.to];
    assert PartyOk(S, b);
    HandshakeIds(S, PairOf(S, a.K), PublicOf(S, b.K), BundleFor(S, b, x.choice), x.ek, x.coins, x.result);
    WrittenSlot(b.writes, XWrite(S, b.spk));
    if x.choice.oneTime.Some? {
      WrittenSlot(b.writes, XWrite(S, x.choice.oneTime.value));
    }
    InboundOutcome(S, Hollow(b.store), x.result.handshake);
  }

  /** A slot once written stays filled. */
  lemma WrittenSlot(writes: seq<Write>, w: Write)
    requires w in writes
    ensures (w.id, w.kind) in Apply(map[], writes)
  {
    var i :| 0 <= i < |writes| && writes[i] == w;
    LoadsLast(map[], writes, i);
  }
}
