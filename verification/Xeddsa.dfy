/** XEdDSA of src/algorithms.hpp and src/algorithms.cpp, as functions on byte strings. */
module Xeddsa {
  import opened Bytes
  import opened Modular
  import opened Outcomes
  import opened Group
  import opened Birational
  import opened Edwards
  import opened Suites
  import Hashing

  datatype KeyPair = KeyPair(Public: xckey, Private: xckey)

  // ----- scalars modulo q

  function ScalarReduce(k: bytes): xckey {
    ToLE(LE(k) % Q, 32)
  }

  function ScalarNegate(k: xckey): xckey {
    ToLE(NegMod(LE(k)), 32)
  }

  function ScalarMul(a: xckey, b: xckey): xckey {
    ToLE((LE(a) * LE(b)) % Q, 32)
  }

  function ScalarAdd(a: xckey, b: xckey): xckey {
    ToLE((LE(a) + LE(b)) % Q, 32)
  }

  /** Fixed-base multiplication without clamping; the library ignores bit 255. */
  function BpScale(S: Suite, k: xckey): xckey {
    Enc(Mul(S.group, LE(k) % TWO_255, S.group.base))
  }

  // ----- signing

  function CalculateKeyPair(S: Suite, K: xckey): KeyPair {
    var E := BpScale(S, K);
    KeyPair(YCoord(E), if SignBit(E) then ScalarNegate(K) else K)
  }

  function Nonce(S: Suite, K: xckey, M: bytes, Z: key64): xckey {
    ScalarReduce(Hashing.Hash255(S, 1, CalculateKeyPair(S, K).Private + M + Z))
  }

  function Challenge(S: Suite, R: xckey, A: xckey, M: bytes): xckey {
    ScalarReduce(S.sha512(R + A + M))
  }

  function Sign(S: Suite, K: xckey, M: bytes, Z: key64): key64 {
    var A := CalculateKeyPair(S, K);
    var r := Nonce(S, K, M, Z);
    var R := BpScale(S, r);
    var h := Challenge(S, R, A.Public, M);
    R + ScalarAdd(r, ScalarMul(h, A.Private))
  }

  // ----- verification

  const P_BYTES: xckey := [0xED] + Filled(30, 0xFF) + [0x7F]

  /** Little-endian comparison, most significant byte first. */
  function Compare(a: bytes, b: bytes): (r: int)
    requires |a| == |b|
  {
    var n := |a|;
    if n == 0 then 0
    else if a[n - 1] != b[n - 1] then (if a[n - 1] < b[n - 1] then -1 else 1)
    else Compare(a[..n - 1], b[..n - 1])
  }

  predicate SigInBounds(mkPub: xckey, R: xckey, s: xckey) {
    && Compare(mkPub, P_BYTES) == -1
    && And(R[31], 0x80) == 0
    && And(s[31], 0xE0) == 0
  }

  /** R == sB - hA, for the point A that the bytes `A` decode to. */
  predicate VerifyEquation(S: Suite, A: xckey, M: bytes, R: xckey, s: xckey) {
    match S.decode(A)
    case None => false
    case Some(X) =>
      var h := Challenge(S, R, A, M);
      Enc(Sub(S.group, Mul(S.group, LE(s), S.group.base), Mul(S.group, LE(h), X))) == R
  }

  /** `bounds` stands for the check made on (mkPub, R, s). */
  function VerifyWith(S: Suite, mkPub: xckey, M: bytes, R: xckey, s: xckey, bounds: bool): Outcome<bool> {
    if !bounds then Value(false)
    else
      var A :- ConvertMont(P, mkPub);
      Value(VerifyEquation(S, A, M, R, s))
  }

  function Verify(S: Suite, mkPub: xckey, M: bytes, sig: key64): Outcome<bool> {
    VerifyWith(S, mkPub, M, sig[..32], sig[32..], SigInBounds(mkPub, sig[..32], sig[32..]))
  }

  /** The same with R's sign bit left out of the bound check (section 3 of XEdDSA). */
  function VerifyYOnly(S: Suite, mkPub: xckey, M: bytes, sig: key64): Outcome<bool> {
    VerifyWith(S, mkPub, M, sig[..32], sig[32..], SigInBounds(mkPub, YCoord(sig[..32]), sig[32..]))
  }

  // ----- the bounds

  lemma {:induction false} CompareLE(a: bytes, b: bytes)
    requires |a| == |b|
    ensures Compare(a, b) == if LE(a) < LE(b) then -1 else if LE(a) == LE(b) then 0 else 1
  {
    var n := |a|;
    if n == 0 {
    } else {
      var x, y := a[..n - 1], b[..n - 1];
      TopDigit(a);
      TopDigit(b);
      LEBound(x);
      LEBound(y);
      CompareLE(x, y);
      HigherDigit(LE(x), a[n - 1], LE(y), b[n - 1], Pow256(n - 1));
    }
  }

  lemma HigherDigit(x: nat, d: nat, y: nat, e: nat, p: nat)
    requires x < p && y < p
    ensures d < e ==> x + p * d < y + p * e
    ensures d > e ==> x + p * d > y + p * e
  {
    MultipleGap(e - d, p);
    assert (e - d) * p == p * e - p * d;
  }

  lemma FieldPrimeBytes()
    ensures LE(P_BYTES) == P
  {
    var top := Filled(32, 0xFF);
    LEFilledFF(32);
    PowValues();
    TopByte(P_BYTES);
    TopByte(top);
    assert P_BYTES[..31][1..] == top[..31][1..];
  }

  /** The bound check over all inputs is exactly three numeric bounds. */
  lemma BoundsExact(mkPub: xckey, R: xckey, s: xckey)
    ensures SigInBounds(mkPub, R, s) <==> LE(mkPub) < P && LE(R) < TWO_255 && LE(s) < TWO_253
  {
    CompareLE(mkPub, P_BYTES);
    FieldPrimeBytes();
    AndTop(R[31]);
    TopByte(R);
    AndTopThree(s[31]);
    TopByte(s);
  }

  // ----- key pairs

  predicate EqualUpToSign(m: nat, n: nat) {
    m % Q == n % Q || (m + n) % Q == 0
  }

  /** The scalar that the base point is multiplied by: bit 255 of K does not count. */
  function BaseScalar(K: xckey): (n: nat)
    ensures n < TWO_255
  {
    LE(K) % TWO_255
  }

  /** The signer's scalar and X25519's scalar for K agree up to sign: K names one key. */
  predicate KeysAgree(K: xckey) {
    EqualUpToSign(BaseScalar(K), ClampScalar(K))
  }

  /** What signing demands of K. Every clamped key meets it. */
  predicate KeyMatches(K: xckey) {
    LE(K) < TWO_255 && KeysAgree(K)
  }

  /** The 32 bytes of the scalar that X25519 uses for K. */
  function ClampedKey(K: xckey): (C: xckey)
    ensures LE(C) == ClampScalar(K) < TWO_255
  {
    LEToKey(ClampScalar(K));
    ToLE(ClampScalar(K), 32)
  }

  /**
   Below 2^255 the two scalars agree modulo q only when K is clamped; the one other way to
   match is for them to cancel.
   */
  lemma MatchesExactly(K: xckey)
    ensures KeyMatches(K)
       <==> Clamped(K) || (LE(K) < TWO_255 && (LE(K) + ClampScalar(K)) % Q == 0)
  {
    if LE(K) < TWO_255 {
      NoTopBit(LE(K));
      NearClamp(LE(K), LE(K) % TWO_254);
    }
  }

  lemma NearClamp(n: nat, m: nat)
    requires n < TWO_255 && m == n % TWO_254
    ensures var c := TWO_254 + (m - m % 8); n % Q == c % Q <==> n == c
  {
    var c := TWO_254 + (m - m % 8);
    assert n == m || n == m + TWO_254;
    if n % Q == c % Q {
      CongUnique(n, c, Q);
      var k := CongWitness(n, c, Q);
      assert c <= n + TWO_254 && n <= c + 7;
      assert k == 0 || k == -1 || k == -2 || k == -3;
    }
  }

  /** A multiple nB equals ±mB exactly when n = ±m modulo q. */
  lemma MulSameY(G: Group, m: nat, n: nat)
    requires IsGroup(G)
    ensures Mul(G, m, G.base).y == Mul(G, n, G.base).y
       <==> EqualUpToSign(m, n)
  {
    var X, Y := Mul(G, m, G.base), Mul(G, n, G.base);
    MulMem(G, m, G.base);
    MulMem(G, n, G.base);
    assert SameYAt(G, X, Y);
    MulEqual(G, m, n, G.base);
    MulNegScalar(G, m, G.base);
    MulEqual(G, NegMod(m), n, G.base);
    NegModSum(m, n);
  }

  lemma NegModSum(m: nat, n: nat)
    ensures NegMod(m) % Q == n % Q <==> (m + n) % Q == 0
  {
    var k := NegMod(m);
    CongUnique(m + n, 0, Q);
    if (m + n) % Q == 0 {
      SameShift(k, n, m);
    } else if k % Q == n % Q {
      CongUnique(n, k, Q);
      CongFrom(m, m, 0, Q);
      CongAdd(m, m, n, k, Q);
      CongTrans(m + n, m + k, 0, Q);
    }
  }

  /** Taking the even-x one of X and -X. */
  lemma EvenPoint(G: Group, X: Point)
    requires IsGroup(G) && G.mem(X)
    ensures var E := if SignBit(Enc(X)) then Neg(X) else X;
      G.mem(E) && Enc(E) == YCoord(Enc(X)) == ToLE(X.y, 32)
    ensures !SignBit(YCoord(Enc(X)))
  {
    Member(G, X);
    EncParts(X);
    SplitTopBit(Enc(X));
    LEToKey(X.y);
    YCoordIdentity(YCoord(Enc(X)));
    if SignBit(Enc(X)) {
      NegParity(X);
      EncParts(Neg(X));
      YCoordIdentity(Enc(Neg(X)));
    } else {
      YCoordIdentity(Enc(X));
    }
  }

  /** Bit 255 changes the scalar modulo q. */
  lemma TopBitMatters(K: xckey)
    ensures LE(K) % Q == BaseScalar(K) % Q <==> LE(K) < TWO_255
  {
    LEKey(K);
    TopBitShift(LE(K), BaseScalar(K));
  }

  lemma TopBitShift(n: nat, b: nat)
    requires n < TWO_256 && b == n % TWO_255
    ensures n % Q == b % Q <==> n < TWO_255
  {
    CongUnique(n, b, Q);
    assert n - b == if n < TWO_255 then 0 else TWO_255;
  }

  /** The two candidates for the secret scalar, K and -K, follow the sign of the public key. */
  lemma PrivatePoint(S: Suite, K: xckey)
    requires Laws(S)
    ensures var A, X := CalculateKeyPair(S, K), Mul(S.group, LE(K), S.group.base);
      Mul(S.group, LE(A.Private), S.group.base) == if SignBit(BpScale(S, K)) then Neg(X) else X
  {
    MulNegScalar(S.group, LE(K), S.group.base);
    LEToKey(NegMod(LE(K)));
  }

  /** Negation does not merge points. */
  lemma SameNeg(G: Group, X: Point, Y: Point)
    requires IsGroup(G) && G.mem(X) && G.mem(Y)
    ensures Neg(X) == Neg(Y) <==> X == Y
  {
    Member(G, X);
    Member(G, Y);
  }

  /**
   The Edwards key pair of any private key: the public key has sign bit 0 and is the y of
   the base scalar's point; the secret scalar generates it exactly when bit 255 of K is
   clear.
   */
  lemma KeyPairMeaning(S: Suite, K: xckey)
    requires Laws(S)
    ensures var A := CalculateKeyPair(S, K);
      && !SignBit(A.Public)
      && A.Public == ToLE(Mul(S.group, BaseScalar(K), S.group.base).y, 32)
      && (Enc(Mul(S.group, LE(A.Private), S.group.base)) == A.Public <==> LE(K) < TWO_255)
  {
    var G := S.group;
    var X, Z := Mul(G, BaseScalar(K), G.base), Mul(G, LE(K), G.base);
    MulMem(G, BaseScalar(K), G.base);
    MulMem(G, LE(K), G.base);
    EvenPoint(G, X);
    PrivatePoint(S, K);
    Member(G, Z);
    SameNeg(G, X, Z);
    MulEqual(G, LE(K), BaseScalar(K), G.base);
    TopBitMatters(K);
    var E, W := if SignBit(Enc(X)) then Neg(X) else X, if SignBit(Enc(X)) then Neg(Z) else Z;
    if Enc(W) == Enc(E) {
      EncInjective(G, W, E);
    }
  }

  /**
   The private half as bytes: K itself when the base scalar's point has even x, and
   otherwise the reduced scalar that cancels K.
   */
  lemma PrivateBytes(S: Suite, K: xckey)
    requires Laws(S)
    ensures var a, X := CalculateKeyPair(S, K).Private, Mul(S.group, BaseScalar(K), S.group.base);
      && (X.x % 2 == 0 ==> a == K)
      && (X.x % 2 == 1 ==> LE(a) < Q && (LE(K) + LE(a)) % Q == 0)
  {
    var X := Mul(S.group, BaseScalar(K), S.group.base);
    MulMem(S.group, BaseScalar(K), S.group.base);
    Member(S.group, X);
    EncParts(X);
    NegateValue(K);
  }

  lemma NoTopBit(n: nat)
    requires n < TWO_255
    ensures n % TWO_255 == n
  {
  }

  lemma SameYBytes(G: Group, m: nat, n: nat)
    requires IsGroup(G)
    ensures ToLE(Mul(G, m, G.base).y, 32) == ToLE(Mul(G, n, G.base).y, 32)
       <==> EqualUpToSign(m, n)
  {
    var X, Y := Mul(G, m, G.base), Mul(G, n, G.base);
    MulMem(G, m, G.base);
    MulMem(G, n, G.base);
    Member(G, X);
    Member(G, Y);
    LEToKey(X.y);
    LEToKey(Y.y);
    MulSameY(G, m, n);
  }

  /** The key the verifier derives from K's Montgomery public key. */
  lemma VerifierKey(S: Suite, K: xckey)
    requires Laws(S)
    ensures LE(PublicOf(S, K)) < P
    ensures ConvertMont(P, PublicOf(S, K)) == Value(ToLE(Mul(S.group, ClampScalar(K), S.group.base).y, 32))
  {
    ClampedMultiple(S.group, K, S.group.base);
    ConvertMontEnc(S.group, Mul(S.group, ClampScalar(K), S.group.base));
  }

  lemma SignerKey(S: Suite, K: xckey)
    requires Laws(S)
    ensures CalculateKeyPair(S, K).Public == ToLE(Mul(S.group, BaseScalar(K), S.group.base).y, 32)
  {
    KeyPairMeaning(S, K);
  }

  /** Two private keys have one public key exactly when their base scalars agree up to sign. */
  lemma SamePublic(S: Suite, K: xckey, L: xckey)
    requires Laws(S)
    ensures CalculateKeyPair(S, K).Public == CalculateKeyPair(S, L).Public
       <==> EqualUpToSign(BaseScalar(K), BaseScalar(L))
  {
    SignerKey(S, K);
    SignerKey(S, L);
    SameYBytes(S.group, BaseScalar(K), BaseScalar(L));
  }

  /** The verifier's key is the signer's key of the clamped scalar. */
  lemma VerifierKeyPair(S: Suite, K: xckey)
    requires Laws(S)
    ensures ConvertMont(P, PublicOf(S, K)) == Value(CalculateKeyPair(S, ClampedKey(K)).Public)
  {
    VerifierKey(S, K);
    NoTopBit(ClampScalar(K));
    SignerKey(S, ClampedKey(K));
  }

  /**
   For every private key, signer and verifier name the same Edwards key exactly when the
   unclamped base scalar and X25519's clamped one agree up to sign.
   */
  lemma SameKey(S: Suite, K: xckey)
    requires Laws(S)
    ensures ConvertMont(P, PublicOf(S, K)) == Value(CalculateKeyPair(S, K).Public) <==> KeysAgree(K)
  {
    VerifierKeyPair(S, K);
    NoTopBit(ClampScalar(K));
    SamePublic(S, K, ClampedKey(K));
  }

  /**
   K and -K mod q have one public key exactly when bit 255 of K is clear, or K and its
   lower bits cancel modulo q.
   */
  lemma NegatedKey(S: Suite, K: xckey)
    requires Laws(S)
    ensures CalculateKeyPair(S, ScalarNegate(K)).Public == CalculateKeyPair(S, K).Public
       <==> LE(K) < TWO_255 || (LE(K) + BaseScalar(K)) % Q == 0
  {
    SamePublic(S, ScalarNegate(K), K);
    NegatedBase(K);
  }

  lemma NegatedBase(K: xckey)
    ensures EqualUpToSign(BaseScalar(ScalarNegate(K)), BaseScalar(K))
       <==> LE(K) < TWO_255 || (LE(K) + BaseScalar(K)) % Q == 0
  {
    NegateValue(K);
    NoTopBit(LE(ScalarNegate(K)));
    TopBitMatters(K);
    NegatedScalar(LE(K), BaseScalar(ScalarNegate(K)), BaseScalar(K));
  }

  lemma NegatedScalar(k: nat, m: nat, n: nat)
    requires (k + m) % Q == 0
    ensures EqualUpToSign(m, n) <==> k % Q == n % Q || (k + n) % Q == 0
  {
    Opposite(k, m, n);
    Opposite(m, k, n);
  }

  /** With `k = -m`: `m = n` exactly when `k + n` vanishes. */
  lemma Opposite(k: nat, m: nat, n: nat)
    requires (k + m) % Q == 0 || (m + k) % Q == 0
    ensures m % Q == n % Q <==> (k + n) % Q == 0
  {
    CongUnique(m + k, 0, Q);
    CongUnique(n + k, 0, Q);
    if m % Q == n % Q {
      CongUnique(n, m, Q);
      CongFrom(k, k, 0, Q);
      CongAdd(n, m, k, k, Q);
      CongTrans(n + k, m + k, 0, Q);
    } else if (k + n) % Q == 0 {
      SameShift(m, n, k);
    }
  }

  lemma NegateValue(K: xckey)
    ensures LE(ScalarNegate(K)) < Q && (LE(K) + LE(ScalarNegate(K))) % Q == 0
  {
    LEToKey(NegMod(LE(K)));
  }

  // ----- completeness

  lemma ReducedValue(k: bytes)
    ensures LE(ScalarReduce(k)) == LE(k) % Q < TWO_253
  {
    LEToKey(LE(k) % Q);
  }

  /**
   The scalar equation s = r + x against the point equation sB - yB = rB: they hold
   together exactly when x = y.
   */
  lemma PointEquation(G: Group, r: nat, x: nat, y: nat)
    requires IsGroup(G) && x < Q && y < Q
    ensures Enc(Sub(G, Mul(G, (r + x) % Q, G.base), Mul(G, y, G.base))) == Enc(Mul(G, r, G.base))
       <==> x == y
  {
    var B := G.base;
    var R, X, Y := Mul(G, r, B), Mul(G, x, B), Mul(G, y, B);
    MulMod(G, r + x, B);
    MulAdd(G, r, x, B);
    MulAdd(G, r, y, B);
    MulMem(G, r, B);
    MulMem(G, x, B);
    MulMem(G, y, B);
    SubExact(G, R, X, Y);
    MulEqual(G, r + x, r + y, B);
    SameSum(r, x, y);
  }

  lemma SubExact(G: Group, R: Point, X: Point, Y: Point)
    requires IsGroup(G) && G.mem(R) && G.mem(X) && G.mem(Y)
    ensures Enc(Sub(G, G.add(R, X), Y)) == Enc(R) <==> G.add(R, X) == G.add(R, Y)
  {
    Add(G, R, X, Y);
    Add(G, R, Y, Y);
    Member(G, Y);
    Add(G, G.add(R, X), Neg(Y), Y);
    CancelRight(G, R, Y);
    Member(G, G.add(R, X));
    if Enc(Sub(G, G.add(R, X), Y)) == Enc(R) {
      EncInjective(G, Sub(G, G.add(R, X), Y), R);
    }
  }

  lemma SameSum(r: nat, x: nat, y: nat)
    requires x < Q && y < Q
    ensures (r + x) % Q == (r + y) % Q <==> x == y
  {
    if (r + x) % Q == (r + y) % Q {
      CongUnique(r + x, r + y, Q);
      assert (r + x) - (r + y) == x - y;
      CongUnique(x, y, Q);
      Small(x, Q);
      Small(y, Q);
    }
  }

  lemma CancelRight(G: Group, X: Point, Y: Point)
    requires IsGroup(G) && G.mem(X) && G.mem(Y)
    ensures Sub(G, G.add(X, Y), Y) == X
  {
    Member(G, X);
    Member(G, Y);
    Add(G, X, Y, Neg(Y));
  }

  /**
   A signature made with K, checked under the public key of any nonzero C: the group
   equation holds exactly when the two products of challenge and secret scalar coincide.
   */
  lemma EquationUnder(S: Suite, K: xckey, M: bytes, Z: key64, C: xckey)
    requires Laws(S) && LE(C) < TWO_255 && LE(C) % Q != 0
    ensures var sig, A, B := Sign(S, K, M, Z), CalculateKeyPair(S, K), CalculateKeyPair(S, C);
      var R, s := sig[..32], sig[32..];
      var same := ScalarMul(Challenge(S, R, A.Public, M), A.Private)
               == ScalarMul(Challenge(S, R, B.Public, M), B.Private);
      && LE(s) < TWO_253
      && (VerifyEquation(S, B.Public, M, R, s) <==> same)
  {
    var A, B := CalculateKeyPair(S, K), CalculateKeyPair(S, C);
    var r := Nonce(S, K, M, Z);
    var h := Challenge(S, BpScale(S, r), A.Public, M);
    SignHalves(S, K, M, Z);
    NonceSmall(S, K, M, Z);
    NoTopBit(LE(r));
    KeyPairMeaning(S, C);
    PrivateNonZero(S, C);
    DecodePublic(S, LE(B.Private), B.Public);
    ProductReduced(h, A.Private);
    EquationAt(S, B.Public, B.Private, M, r, ScalarMul(h, A.Private));
  }

  /** For R = rB and s = r + x the group equation holds exactly when x is the challenge's product. */
  lemma EquationAt(S: Suite, A: xckey, a: xckey, M: bytes, r: xckey, x: xckey)
    requires IsGroup(S.group) && LE(x) < Q
    requires S.decode(A) == Some(Mul(S.group, LE(a), S.group.base))
    ensures var R := Enc(Mul(S.group, LE(r), S.group.base));
      && LE(ScalarAdd(r, x)) < TWO_253
      && (VerifyEquation(S, A, M, R, ScalarAdd(r, x)) <==> x == ScalarMul(Challenge(S, R, A, M), a))
  {
    var k := Challenge(S, Enc(Mul(S.group, LE(r), S.group.base)), A, M);
    ProductPoint(S.group, k, a);
    ProductReduced(k, a);
    AddValue(r, x);
    PointEquation(S.group, LE(r), LE(x), LE(ScalarMul(k, a)));
    SameNumber(x, ScalarMul(k, a));
  }

  lemma ProductReduced(a: xckey, b: xckey)
    ensures LE(ScalarMul(a, b)) < Q
  {
    var e := MulValue(a, b);
  }

  /** h(aB) is the multiple by the reduced product. */
  lemma ProductPoint(G: Group, h: xckey, a: xckey)
    requires IsGroup(G)
    ensures Mul(G, LE(h), Mul(G, LE(a), G.base)) == Mul(G, LE(ScalarMul(h, a)), G.base)
  {
    var e := MulValue(h, a);
    MulMul(G, LE(h), LE(a), G.base);
    MulMod(G, e, G.base);
  }

  lemma SameNumber(a: xckey, b: xckey)
    ensures a == b <==> LE(a) == LE(b)
  {
    if LE(a) == LE(b) {
      LEInjective(a, b);
    }
  }

  /** Under one public key only bit 255 of K, or a zero challenge, decides. */
  lemma ProductsUnderOneKey(S: Suite, K: xckey, C: xckey, h: xckey)
    requires Laws(S) && LE(C) < TWO_255 && LE(h) < Q
    requires CalculateKeyPair(S, K).Public == CalculateKeyPair(S, C).Public
    ensures ScalarMul(h, CalculateKeyPair(S, K).Private) == ScalarMul(h, CalculateKeyPair(S, C).Private)
       <==> LE(K) < TWO_255 || LE(h) == 0
  {
    var G := S.group;
    var a, c := CalculateKeyPair(S, K).Private, CalculateKeyPair(S, C).Private;
    KeyPairMeaning(S, K);
    KeyPairMeaning(S, C);
    MulMem(G, LE(a), G.base);
    MulMem(G, LE(c), G.base);
    if LE(K) < TWO_255 {
      EncInjective(G, Mul(G, LE(a), G.base), Mul(G, LE(c), G.base));
    }
    MulEqual(G, LE(a), LE(c), G.base);
    SameProduct(h, a, c);
  }

  lemma SameProduct(h: xckey, a: xckey, b: xckey)
    requires IsPrime(Q) && LE(h) < Q
    ensures ScalarMul(h, a) == ScalarMul(h, b) <==> LE(h) == 0 || LE(a) % Q == LE(b) % Q
  {
    var e := MulValue(h, a);
    var f := MulValue(h, b);
    SameNumber(ScalarMul(h, a), ScalarMul(h, b));
    Small(LE(h), Q);
    SameMultiple(Q, LE(h), LE(a), LE(b), e, f);
  }

  lemma SameMultiple(p: nat, h: nat, a: nat, b: nat, e: nat, f: nat)
    requires IsPrime(p) && h % p == h && e == h * a && f == h * b
    ensures e % p == f % p <==> h == 0 || a % p == b % p
  {
    CongUnique(e, f, p);
    CongUnique(a, b, p);
    if h == 0 {
      assert e == 0 && f == 0;
    } else if e % p == f % p {
      Cancel(h, a, b, p);
    } else if a % p == b % p {
      CongFrom(h, h, 0, p);
      CongMul(h, h, a, b, p);
    }
  }

  /**
   Every signature against the signer's own Edwards key: the group equation holds exactly
   when that key is not neutral and bit 255 of K is clear or the challenge is zero.
   */
  lemma SignedEquation(S: Suite, K: xckey, M: bytes, Z: key64)
    requires Laws(S)
    ensures var sig, A := Sign(S, K, M, Z), CalculateKeyPair(S, K);
      && LE(sig[32..]) < TWO_253
      && (VerifyEquation(S, A.Public, M, sig[..32], sig[32..])
          <==> && BaseScalar(K) % Q != 0
               && (LE(K) < TWO_255 || LE(Challenge(S, sig[..32], A.Public, M)) == 0))
  {
    var C := YCoord(K);
    var A := CalculateKeyPair(S, K);
    SplitTopBit(K);
    NoTopBit(LE(C));
    SamePublic(S, K, C);
    SignedScalarSmall(S, K, M, Z);
    if BaseScalar(K) % Q != 0 {
      var h := Challenge(S, Sign(S, K, M, Z)[..32], A.Public, M);
      EquationUnder(S, K, M, Z, C);
      ReducedValue(S.sha512(Sign(S, K, M, Z)[..32] + A.Public + M));
      ProductsUnderOneKey(S, K, C, h);
    } else {
      NeutralKey(S, K);
    }
  }

  lemma SignedScalarSmall(S: Suite, K: xckey, M: bytes, Z: key64)
    ensures LE(Sign(S, K, M, Z)[32..]) < TWO_253
  {
    var A, r := CalculateKeyPair(S, K), Nonce(S, K, M, Z);
    SignHalves(S, K, M, Z);
    AddValue(r, ScalarMul(Challenge(S, BpScale(S, r), A.Public, M), A.Private));
  }

  /** A base scalar that vanishes modulo q gives the neutral public key, no valid point. */
  lemma NeutralKey(S: Suite, K: xckey)
    requires Laws(S) && BaseScalar(K) % Q == 0
    ensures S.decode(CalculateKeyPair(S, K).Public).None?
  {
    MulOrder(S.group, BaseScalar(K), S.group.base);
    SignerKey(S, K);
    EncEven(ZERO);
    NeutralInvalid(S, Enc(ZERO));
  }

  lemma NeutralInvalid(S: Suite, k: xckey)
    requires Laws(S) && k == Enc(ZERO)
    ensures S.decode(k).None?
  {
    var d := S.decode(k);
    if d.Some? {
      assert DecodeAt(S, k, d.value);
      EncInjective(S.group, d.value, ZERO);
    }
  }

  /**
   The two halves of a signature in numbers: R encodes rB for the nonce
   r = hash_1(a || M || Z) mod q, and s is the reduced r + ha for h = hash(R || A || M) mod q.
   */
  lemma SignMeaning(S: Suite, K: xckey, M: bytes, Z: key64)
    ensures var A, sig := CalculateKeyPair(S, K), Sign(S, K, M, Z);
      var h := Challenge(S, sig[..32], A.Public, M);
      var r := Nonce(S, K, M, Z);
      && LE(r) == LE(S.sha512(Hashing.Prefix(1) + (A.Private + M + Z))) % Q
      && sig[..32] == Enc(Mul(S.group, LE(r), S.group.base))
      && LE(h) == LE(S.sha512(sig[..32] + A.Public + M)) % Q
      && LE(sig[32..]) < Q
      && Cong(LE(sig[32..]), LE(r) + LE(h) * LE(A.Private), Q)
  {
    SignedNonce(S, K, M, Z);
    SignedResponse(S, K, M, Z);
  }

  lemma SignedNonce(S: Suite, K: xckey, M: bytes, Z: key64)
    ensures var A, sig, r := CalculateKeyPair(S, K), Sign(S, K, M, Z), Nonce(S, K, M, Z);
      && LE(r) == LE(S.sha512(Hashing.Prefix(1) + (A.Private + M + Z))) % Q
      && sig[..32] == Enc(Mul(S.group, LE(r), S.group.base))
  {
    var A, r := CalculateKeyPair(S, K), Nonce(S, K, M, Z);
    assert Hashing.Hash255(S, 1, A.Private + M + Z) == S.sha512(Hashing.Prefix(1) + (A.Private + M + Z));
    ReducedValue(Hashing.Hash255(S, 1, A.Private + M + Z));
    NoTopBit(LE(r));
    SignHalves(S, K, M, Z);
  }

  lemma SignedResponse(S: Suite, K: xckey, M: bytes, Z: key64)
    ensures var A, sig, r := CalculateKeyPair(S, K), Sign(S, K, M, Z), Nonce(S, K, M, Z);
      var h := Challenge(S, sig[..32], A.Public, M);
      && LE(h) == LE(S.sha512(sig[..32] + A.Public + M)) % Q
      && LE(sig[32..]) < Q
      && Cong(LE(sig[32..]), LE(r) + LE(h) * LE(A.Private), Q)
  {
    var A, r, sig := CalculateKeyPair(S, K), Nonce(S, K, M, Z), Sign(S, K, M, Z);
    SignHalves(S, K, M, Z);
    ChallengeValue(S, sig[..32], A.Public, M);
    ResponseMeaning(r, Challenge(S, sig[..32], A.Public, M), A.Private);
  }

  lemma ChallengeValue(S: Suite, R: xckey, A: xckey, M: bytes)
    ensures LE(Challenge(S, R, A, M)) == LE(S.sha512(R + A + M)) % Q < TWO_253
  {
    ReducedValue(S.sha512(R + A + M));
  }

  lemma ResponseMeaning(r: xckey, h: xckey, a: xckey)
    ensures var s := LE(ScalarAdd(r, ScalarMul(h, a)));
      s < Q && Cong(s, LE(r) + LE(h) * LE(a), Q)
  {
    var e := MulValue(h, a);
    AddValue(r, ScalarMul(h, a));
    ResponseCong(LE(ScalarAdd(r, ScalarMul(h, a))), LE(r), e);
  }

  lemma SignHalves(S: Suite, K: xckey, M: bytes, Z: key64)
    ensures var A, r, sig := CalculateKeyPair(S, K), Nonce(S, K, M, Z), Sign(S, K, M, Z);
      && sig[..32] == BpScale(S, r)
      && sig[32..] == ScalarAdd(r, ScalarMul(Challenge(S, BpScale(S, r), A.Public, M), A.Private))
  {
  }

  lemma ResponseCong(s: nat, r: nat, e: nat)
    requires s == (r + e % Q) % Q
    ensures Cong(s, r + e, Q)
  {
    CongMod(r + e % Q, Q);
    CongFrom(r + e % Q, r + e, -(e / Q), Q);
    CongTrans(s, r + e % Q, r + e, Q);
  }

  lemma DecodePublic(S: Suite, a: nat, k: xckey)
    requires Laws(S) && a % Q != 0 && Enc(Mul(S.group, a, S.group.base)) == k
    ensures S.decode(k) == Some(Mul(S.group, a, S.group.base))
  {
    MulMem(S.group, a, S.group.base);
    MulOrder(S.group, a, S.group.base);
    assert DecodeAt(S, k, Mul(S.group, a, S.group.base));
  }

  lemma MulValue(a: xckey, b: xckey) returns (e: nat)
    ensures e == LE(a) * LE(b) && LE(ScalarMul(a, b)) == e % Q
  {
    e := LE(a) * LE(b);
    LEToKey(e % Q);
  }

  lemma AddValue(a: xckey, b: xckey)
    ensures LE(ScalarAdd(a, b)) == (LE(a) + LE(b)) % Q < TWO_253
  {
    LEToKey((LE(a) + LE(b)) % Q);
  }

  lemma PrivateNonZero(S: Suite, K: xckey)
    requires LE(K) % Q != 0
    ensures LE(CalculateKeyPair(S, K).Private) % Q != 0
  {
    NegateValue(K);
    SumMod(LE(ScalarNegate(K)), LE(K));
  }

  lemma NonceSmall(S: Suite, K: xckey, M: bytes, Z: key64)
    ensures LE(Nonce(S, K, M, Z)) < Q
  {
    ReducedValue(Hashing.Hash255(S, 1, CalculateKeyPair(S, K).Private + M + Z));
  }

  lemma SumMod(n: nat, c: nat)
    ensures n % Q == 0 ==> (n + c) % Q == c % Q
  {
    if n % Q == 0 {
      CongFrom(n + c, c, n / Q, Q);
      CongUnique(n + c, c, Q);
    }
  }

  /**
   The signer's product of challenge and secret scalar is the one that the verifier's key,
   the key pair of the clamped scalar, calls for: h(A) a = h(B) b modulo q.
   */
  predicate ProductsMeet(S: Suite, K: xckey, M: bytes, R: xckey) {
    var A, B := CalculateKeyPair(S, K), CalculateKeyPair(S, ClampedKey(K));
    ScalarMul(Challenge(S, R, A.Public, M), A.Private) == ScalarMul(Challenge(S, R, B.Public, M), B.Private)
  }

  /**
   Completeness, for every private key. A signature verifies with R's y coordinate bounded
   exactly when the two products meet, and, with the bound check as it is, exactly when
   moreover R's sign bit is clear.
   */
  lemma CompleteExactly(S: Suite, K: xckey, M: bytes, Z: key64)
    requires Laws(S)
    ensures var sig := Sign(S, K, M, Z);
      var meet := ProductsMeet(S, K, M, sig[..32]);
      && VerifyYOnly(S, PublicOf(S, K), M, sig) == Value(meet)
      && Verify(S, PublicOf(S, K), M, sig) == Value(meet && !SignBit(sig[..32]))
  {
    var sig := Sign(S, K, M, Z);
    ClampNonZero(K);
    EquationUnder(S, K, M, Z, ClampedKey(K));
    VerifierKey(S, K);
    VerifierKeyPair(S, K);
    SignedBounds(S, PublicOf(S, K), sig);
  }

  lemma SignedBounds(S: Suite, mkPub: xckey, sig: key64)
    requires LE(mkPub) < P && LE(sig[32..]) < TWO_253
    ensures SigInBounds(mkPub, YCoord(sig[..32]), sig[32..])
    ensures SigInBounds(mkPub, sig[..32], sig[32..]) <==> !SignBit(sig[..32])
  {
    BoundsExact(mkPub, sig[..32], sig[32..]);
    BoundsExact(mkPub, YCoord(sig[..32]), sig[32..]);
    SplitTopBit(sig[..32]);
  }

  /**
   When signer and verifier name one key, a signature verifies exactly when bit 255 of K is
   clear or the challenge is zero.
   */
  lemma CompleteAgreeing(S: Suite, K: xckey, M: bytes, Z: key64)
    requires Laws(S) && KeysAgree(K)
    ensures var sig := Sign(S, K, M, Z);
      var h := Challenge(S, sig[..32], CalculateKeyPair(S, K).Public, M);
      var ok := LE(K) < TWO_255 || LE(h) == 0;
      && VerifyYOnly(S, PublicOf(S, K), M, sig) == Value(ok)
      && Verify(S, PublicOf(S, K), M, sig) == Value(ok && !SignBit(sig[..32]))
  {
    var R, A := Sign(S, K, M, Z)[..32], CalculateKeyPair(S, K);
    CompleteExactly(S, K, M, Z);
    SameKey(S, K);
    VerifierKeyPair(S, K);
    ReducedValue(S.sha512(R + A.Public + M));
    ProductsUnderOneKey(S, K, ClampedKey(K), Challenge(S, R, A.Public, M));
  }

  /**
   So a signature made with a matching K verifies under K's Montgomery public key exactly
   when the sign bit of its R half is clear; with R's y coordinate alone bounded it always
   verifies.
   */
  lemma Complete(S: Suite, K: xckey, M: bytes, Z: key64)
    requires Laws(S) && KeyMatches(K)
    ensures Verify(S, PublicOf(S, K), M, Sign(S, K, M, Z)) == Value(!SignBit(Sign(S, K, M, Z)[..32]))
    ensures VerifyYOnly(S, PublicOf(S, K), M, Sign(S, K, M, Z)) == Value(true)
  {
    CompleteAgreeing(S, K, M, Z);
  }

  /** An honest signature with K is accepted; with a matching K only the sign bit decides. */
  predicate Accepted(S: Suite, K: xckey, M: bytes, Z: key64) {
    var R := Sign(S, K, M, Z)[..32];
    ProductsMeet(S, K, M, R) && !SignBit(R)
  }

  lemma AcceptedExactly(S: Suite, K: xckey, M: bytes, Z: key64)
    requires Laws(S)
    ensures Verify(S, PublicOf(S, K), M, Sign(S, K, M, Z)) == Value(Accepted(S, K, M, Z))
    ensures KeyMatches(K) ==> (Accepted(S, K, M, Z) <==> !SignBit(Sign(S, K, M, Z)[..32]))
  {
    CompleteExactly(S, K, M, Z);
    if KeyMatches(K) {
      Complete(S, K, M, Z);
    }
  }

  // ----- what verification accepts

  /** `A` is the even-x group element whose y coordinate belongs to `mkPub`. */
  ghost predicate NamesPoint(S: Suite, mkPub: xckey, A: Point) {
    && S.group.mem(A) && A != ZERO && A.x % 2 == 0
    && LE(mkPub) != P - 1 && A.y == FieldY(P, LE(mkPub))
  }

  ghost predicate EquationHolds(S: Suite, M: bytes, R: xckey, s: xckey, A: Point) {
    var h := Challenge(S, R, Enc(A), M);
    R == Enc(Sub(S.group, Mul(S.group, LE(s), S.group.base), Mul(S.group, LE(h), A)))
  }

  /** The exact acceptance condition, in numbers and points. */
  ghost predicate ValidSignature(S: Suite, mkPub: xckey, M: bytes, R: xckey, s: xckey) {
    && LE(mkPub) < P && LE(R) < TWO_255 && LE(s) < TWO_253
    && exists A :: NamesPoint(S, mkPub, A) && EquationHolds(S, M, R, s, A)
  }

  lemma NamedPoint(S: Suite, mkPub: xckey, A: Point)
    requires Laws(S) && LE(mkPub) < P && LE(mkPub) != P - 1
    ensures ConvertMont(P, mkPub).Value?
    ensures NamesPoint(S, mkPub, A) <==> S.decode(ConvertMont(P, mkPub).value) == Some(A)
  {
    var y := FieldY(P, LE(mkPub));
    ConvertMontSmall(mkPub);
    var k := ToLE(y, 32);
    LEToKey(y);
    assert DecodeAt(S, k, A);
    if S.group.mem(A) {
      Member(S.group, A);
      EncParts(A);
      if A.y == y && A.x % 2 == 0 {
        LEInjective(Enc(A), k);
      }
    }
  }

  /** Past any bound check that implies the one on the key, acceptance is the equation at the named point. */
  lemma VerifyWithExact(S: Suite, mkPub: xckey, M: bytes, R: xckey, s: xckey, bounds: bool)
    requires Laws(S) && (bounds ==> LE(mkPub) < P)
    ensures VerifyWith(S, mkPub, M, R, s, bounds) == Value(true)
       <==> bounds && exists A :: NamesPoint(S, mkPub, A) && EquationHolds(S, M, R, s, A)
    ensures VerifyWith(S, mkPub, M, R, s, bounds).Throw? <==> bounds && LE(mkPub) == P - 1
  {
    if bounds {
      ConvertMontSmall(mkPub);
      if LE(mkPub) != P - 1 {
        var k := ConvertMont(P, mkPub).value;
        match S.decode(k) {
          case None =>
            forall A | NamesPoint(S, mkPub, A)
              ensures false
            {
              NamedPoint(S, mkPub, A);
            }
          case Some(X) =>
            NamedPoint(S, mkPub, X);
            assert DecodeAt(S, k, X);
            forall A | NamesPoint(S, mkPub, A)
              ensures A == X
            {
              NamedPoint(S, mkPub, A);
            }
            assert EquationHolds(S, M, R, s, X) <==> VerifyEquation(S, k, M, R, s);
        }
      }
    }
  }

  lemma VerifyExact(S: Suite, mkPub: xckey, M: bytes, sig: key64)
    requires Laws(S)
    ensures Verify(S, mkPub, M, sig) == Value(true)
       <==> ValidSignature(S, mkPub, M, sig[..32], sig[32..])
    ensures Verify(S, mkPub, M, sig).Throw?
       <==> SigInBounds(mkPub, sig[..32], sig[32..]) && LE(mkPub) == P - 1
  {
    var R, s := sig[..32], sig[32..];
    BoundsExact(mkPub, R, s);
    VerifyWithExact(S, mkPub, M, R, s, SigInBounds(mkPub, R, s));
  }

  /** The same with R's sign bit left out of the bounds: the equation then sees it all the same. */
  lemma VerifyYOnlyExact(S: Suite, mkPub: xckey, M: bytes, sig: key64)
    requires Laws(S)
    ensures VerifyYOnly(S, mkPub, M, sig) == Value(true)
       <==> && LE(mkPub) < P && LE(sig[32..]) < TWO_253
            && exists A :: NamesPoint(S, mkPub, A) && EquationHolds(S, M, sig[..32], sig[32..], A)
    ensures VerifyYOnly(S, mkPub, M, sig).Throw? <==> LE(mkPub) == P - 1 && LE(sig[32..]) < TWO_253
  {
    var R, s := sig[..32], sig[32..];
    BoundsExact(mkPub, YCoord(R), s);
    SplitTopBit(R);
    VerifyWithExact(S, mkPub, M, R, s, SigInBounds(mkPub, YCoord(R), s));
  }

  /**
   For a fixed key, message and R, the accepted scalars are one residue class modulo q cut
   off at 2^253.
   */
  lemma AcceptedScalars(S: Suite, mkPub: xckey, M: bytes, R: xckey, s: xckey, t: xckey)
    requires Laws(S) && Verify(S, mkPub, M, R + s) == Value(true)
    ensures Verify(S, mkPub, M, R + t) == Value(true)
       <==> LE(t) < TWO_253 && LE(t) % Q == LE(s) % Q
  {
    var G := S.group;
    assert (R + s)[..32] == R && (R + s)[32..] == s;
    assert (R + t)[..32] == R && (R + t)[32..] == t;
    BoundsExact(mkPub, R, s);
    BoundsExact(mkPub, R, t);
    var k := ConvertMont(P, mkPub).value;
    var A := S.decode(k).value;
    assert DecodeAt(S, k, A);
    var X, Y := Mul(G, LE(s), G.base), Mul(G, LE(t), G.base);
    var H := Mul(G, LE(Challenge(S, R, k, M)), A);
    MulMem(G, LE(s), G.base);
    MulMem(G, LE(t), G.base);
    MulMem(G, LE(Challenge(S, R, k, M)), A);
    SubInjective(G, X, Y, H);
    MulEqual(G, LE(s), LE(t), G.base);
  }

  lemma SubInjective(G: Group, X: Point, Y: Point, H: Point)
    requires IsGroup(G) && G.mem(X) && G.mem(Y) && G.mem(H)
    ensures Enc(Sub(G, X, H)) == Enc(Sub(G, Y, H)) <==> X == Y
  {
    Member(G, H);
    Add(G, X, Neg(H), H);
    Add(G, Y, Neg(H), H);
    Member(G, X);
    Member(G, Y);
    if Enc(Sub(G, X, H)) == Enc(Sub(G, Y, H)) {
      EncInjective(G, Sub(G, X, H), Sub(G, Y, H));
    }
  }

  /** Since 2^253 < 2q, at most two scalars are accepted. */
  lemma AtMostTwo(S: Suite, mkPub: xckey, M: bytes, R: xckey, s: xckey, t: xckey, u: xckey)
    requires Laws(S)
    requires Verify(S, mkPub, M, R + s) == Value(true)
    requires Verify(S, mkPub, M, R + t) == Value(true)
    requires Verify(S, mkPub, M, R + u) == Value(true)
    ensures s == t || t == u || s == u
  {
    AcceptedScalars(S, mkPub, M, R, s, s);
    AcceptedScalars(S, mkPub, M, R, s, t);
    AcceptedScalars(S, mkPub, M, R, s, u);
    TwoPerClass(LE(s), LE(t), LE(u));
    if LE(s) == LE(t) {
      LEInjective(s, t);
    } else if LE(t) == LE(u) {
      LEInjective(t, u);
    } else {
      LEInjective(s, u);
    }
  }

  lemma TwoPerClass(a: nat, b: nat, c: nat)
    requires a < TWO_253 && b < TWO_253 && c < TWO_253
    requires a % Q == b % Q == c % Q
    ensures a == b || b == c || a == c
  {
    assert a / Q <= 1 && b / Q <= 1 && c / Q <= 1;
  }
}
