/**
 Records of functions that satisfy every law assumed in `Suites.Laws`, given only that p
 and q are prime: the integers modulo q, dressed in coordinates the way Edwards points are,
 with a hash that always decodes to one number. They show that the laws do not contradict
 each other, and that every failing case stated elsewhere does occur.
 */
module Witness {
  import opened Bytes
  import opened Modular
  import opened Outcomes
  import opened Group
  import opened Birational
  import opened Edwards
  import opened Suites
  import opened Xeddsa
  import opened Pqxdh
  import opened Stores
  import opened Refills
  import opened Systems
  import Deviations
  import Runs

  const HALF: nat := Q / 2

  /** The point that stands for k: opposite numbers share y and have opposite x. */
  function Pt(k: nat): Point
    requires k < Q
  {
    if k == 0 then Point(0, 1)
    else if k <= HALF then Point(k, P - 1 - k)
    else Point(P - (Q - k), P - 1 - (Q - k))
  }

  function Index(X: Point): (k: nat)
    ensures k < Q
  {
    if X.x <= HALF then X.x
    else if X.x < P && P - X.x <= HALF then Q - (P - X.x)
    else 0
  }

  lemma IndexPt(k: nat)
    requires k < Q
    ensures Index(Pt(k)) == k && Pt(k).x < P && Pt(k).y < P
    ensures Neg(Pt(k)) == Pt(NegIndex(k))
  {
  }

  function NegIndex(k: nat): (m: nat)
    requires k < Q
    ensures m < Q
  {
    if k == 0 then 0 else Q - k
  }

  predicate Member(X: Point) {
    Pt(Index(X)) == X
  }

  function AddPoints(X: Point, Y: Point): Point {
    Pt((Index(X) + Index(Y)) % Q)
  }

  const TOY_GROUP: Group := Group(Member, AddPoints, Pt(1))

  function Decode(b: xckey): Option<Point> {
    var y := LE(YCoord(b));
    if y >= P - 1 || P - 1 - y > HALF then None
    else
      var j := P - 1 - y;
      if Enc(Pt(j)) == b then Some(Pt(j))
      else if Enc(Pt(Q - j)) == b then Some(Pt(Q - j))
      else None
  }

  function X25519(G: Group, K: xckey, U: xckey): Option<xckey> {
    MultipleByY(G, K, FieldY(P, LE(U)))
  }

  function MultipleByY(G: Group, K: xckey, y: nat): Option<xckey> {
    if y >= P - 1 || P - 1 - y > HALF then None
    else Some(MontEnc(Mul(G, ClampScalar(K), Pt(P - 1 - y))))
  }

  function SmallKey(k: nat): (K: xckey)
    requires k < TWO_254
    ensures LE(K) == k
  {
    LEToKey(k);
    ToLE(k, 32)
  }

  /** The public key of the private key 8: the one key with an identifier of its own. */
  const EIGHT: xckey := MontEnc(Mul(TOY_GROUP, ClampScalar(SmallKey(8)), Pt(1)))

  function Toy(hash: nat): Suite {
    Suite(
      TOY_GROUP,
      Decode,
      _ => ToLE(hash, 64),
      (K, U) => X25519(TOY_GROUP, K, U),
      _ => Some((Zeros(1568), Zeros(3168))),
      (_, _) => Some((Zeros(1568), Zeros(32))),
      (_, _) => Some(Zeros(32)),
      (_, _) => Some(Zeros(32)),
      (prk, _) => Some(prk),
      k => if k == EIGHT then 1 else 0)
  }

  // ----- the group axioms

  lemma {:induction false} MulIndex(n: nat, k: nat, e: nat)
    requires k < Q && e == n * k
    ensures Mul(TOY_GROUP, n, Pt(k)) == Pt(e % Q)
  {
    if n == 0 {
      assert Pt(0) == ZERO;
    } else {
      var m := PreviousMultiple(n, k, e);
      MulIndex(n - 1, k, m);
      MulStep(n, k, m, e);
    }
  }

  lemma PreviousMultiple(n: nat, k: nat, e: nat) returns (m: nat)
    requires n > 0 && e == n * k
    ensures m == (n - 1) * k && e == k + m
  {
    m := (n - 1) * k;
  }

  lemma MulStep(n: nat, k: nat, m: nat, e: nat)
    requires n > 0 && k < Q && e == k + m
    requires Mul(TOY_GROUP, n - 1, Pt(k)) == Pt(m % Q)
    ensures Mul(TOY_GROUP, n, Pt(k)) == Pt(e % Q)
  {
    AddPts(k, m % Q);
    SumReduced(k, m);
  }

  lemma AddPts(j: nat, k: nat)
    requires j < Q && k < Q
    ensures AddPoints(Pt(j), Pt(k)) == Pt((j + k) % Q)
  {
    IndexPt(j);
    IndexPt(k);
  }

  lemma SumReduced(a: nat, b: nat)
    ensures (a + b % Q) % Q == (a + b) % Q && (b % Q + a) % Q == (a + b) % Q
  {
    CongFrom(a + b, a + b % Q, b / Q, Q);
    CongUnique(a + b, a + b % Q, Q);
  }

  lemma Assoc(a: nat, b: nat, c: nat)
    requires a < Q && b < Q && c < Q
    ensures ((a + b) % Q + c) % Q == (a + (b + c) % Q) % Q
  {
    SumReduced(c, a + b);
    SumReduced(a, b + c);
  }

  lemma Closed(X: Point, Y: Point)
    ensures Member(AddPoints(X, Y)) && AddPoints(X, Y) == AddPoints(Y, X)
  {
    IndexPt((Index(X) + Index(Y)) % Q);
  }

  lemma AssocPoints(X: Point, Y: Point, Z: Point)
    ensures AddPoints(AddPoints(X, Y), Z) == AddPoints(X, AddPoints(Y, Z))
  {
    var xy, yz := AddPoints(X, Y), AddPoints(Y, Z);
    SumIndex(X, Y);
    SumIndex(Y, Z);
    AssocIndex(Index(X), Index(Y), Index(Z), Index(xy), Index(yz));
  }

  lemma AssocIndex(a: nat, b: nat, c: nat, ab: nat, bc: nat)
    requires a < Q && b < Q && c < Q && ab == (a + b) % Q && bc == (b + c) % Q
    ensures Pt((ab + c) % Q) == Pt((a + bc) % Q)
  {
    Assoc(a, b, c);
  }

  lemma SumIndex(X: Point, Y: Point)
    ensures Index(AddPoints(X, Y)) == (Index(X) + Index(Y)) % Q
  {
    IndexPt((Index(X) + Index(Y)) % Q);
  }

  lemma AddHolds(X: Point, Y: Point, Z: Point)
    ensures AddAt(TOY_GROUP, X, Y, Z)
  {
    Closed(X, Y);
    AssocPoints(X, Y, Z);
  }

  lemma MemberHolds(X: Point)
    ensures MemberAt(TOY_GROUP, X)
  {
    var k := Index(X);
    IndexPt(k);
    OrderKills(k);
    NegSum(k);
  }

  lemma NegSum(k: nat)
    requires k < Q
    ensures Member(Neg(Pt(k)))
    ensures AddPoints(ZERO, Pt(k)) == Pt(k) && AddPoints(Pt(k), Neg(Pt(k))) == ZERO
  {
    var m := NegIndex(k);
    IndexPt(k);
    IndexPt(m);
    assert Pt(0) == ZERO;
    AddPts(0, k);
    AddPts(k, m);
    NegIndexSum(k);
  }

  lemma NegIndexSum(k: nat)
    requires k < Q
    ensures (0 + k) % Q == k && (k + NegIndex(k)) % Q == 0
  {
  }

  lemma OrderKills(k: nat)
    requires k < Q
    ensures Mul(TOY_GROUP, Q, Pt(k)) == ZERO
  {
    MulIndex(Q, k, Q * k);
    MultipleMod(k, Q);
    Swap(k, Q);
    assert Pt(0) == ZERO;
  }

  lemma Swap(a: nat, b: nat)
    ensures a * b == b * a
  {
  }

  lemma SameYHolds(X: Point, Y: Point)
    ensures SameYAt(TOY_GROUP, X, Y)
  {
    IndexPt(Index(X));
  }

  lemma ToyIsGroup()
    requires IsPrime(Q)
    ensures IsGroup(TOY_GROUP)
  {
    forall X, Y, Z
      ensures AddAt(TOY_GROUP, X, Y, Z)
    {
      AddHolds(X, Y, Z);
    }
    forall X
      ensures MemberAt(TOY_GROUP, X)
    {
      MemberHolds(X);
    }
    forall X, Y
      ensures SameYAt(TOY_GROUP, X, Y)
    {
      SameYHolds(X, Y);
    }
    IndexPt(0);
    IndexPt(1);
    assert Pt(0) == ZERO;
  }

  // ----- the other laws

  lemma DecodeHolds(n: nat, b: xckey, X: Point)
    ensures DecodeAt(Toy(n), b, X)
  {
    if Member(X) && X != ZERO && Enc(X) == b {
      assert Pt(0) == ZERO;
      DecodeFinds(b, Index(X));
    } else if Decode(b) == Some(X) {
      DecodeGives(b, X);
    }
  }

  lemma DecodeGives(b: xckey, X: Point)
    requires Decode(b) == Some(X)
    ensures Member(X) && X != ZERO && Enc(X) == b
  {
    var j := P - 1 - LE(YCoord(b));
    IndexPt(j);
    IndexPt(Q - j);
  }

  /** A nonzero point is one of the two with its y coordinate. */
  lemma Shape(k: nat)
    requires 0 < k < Q
    ensures Pt(k).y < P - 1 && Pt(k).y != 1
    ensures var j := P - 1 - Pt(k).y; 0 < j <= HALF && (k == j || k == Q - j) && Pt(j).y == Pt(k).y
  {
  }

  lemma OppositeEnc(j: nat)
    requires 0 < j <= HALF
    ensures Enc(Pt(j)) != Enc(Pt(Q - j))
  {
    IndexPt(j);
    IndexPt(Q - j);
    NegParity(Pt(j));
    if Enc(Pt(j)) == Enc(Pt(Q - j)) {
      EncSame(Pt(j), Pt(Q - j));
    }
  }

  lemma DecodeFinds(b: xckey, k: nat)
    requires 0 < k < Q && Enc(Pt(k)) == b
    ensures Decode(b) == Some(Pt(k))
  {
    Shape(k);
    IndexPt(k);
    EncParts(Pt(k));
    LEToKey(Pt(k).y);
    OppositeEnc(P - 1 - Pt(k).y);
    DecodeOneOfTwo(b, P - 1 - Pt(k).y, k);
  }

  lemma DecodeOneOfTwo(b: xckey, j: nat, k: nat)
    requires 0 < j <= HALF && (k == j || k == Q - j) && LE(YCoord(b)) == P - 1 - j
    requires Enc(Pt(k)) == b && Enc(Pt(j)) != Enc(Pt(Q - j))
    ensures Decode(b) == Some(Pt(k))
  {
  }

  /**
   The toy X25519 sees only y, so it multiplies the smaller of two opposite points; their
   multiples are opposite too and share their Montgomery encoding.
   */
  lemma ToyX25519(G: Group, K: xckey, X: Point)
    requires IsPrime(P) && IsGroup(G) && P - 1 - HALF <= X.y < P - 1
    requires var Y := Pt(P - 1 - X.y); G.mem(Y) && (X == Y || X == Neg(Y))
    ensures X25519(G, K, MontEnc(X)) == Some(MontEnc(Mul(G, ClampScalar(K), X)))
  {
    var Y := Pt(P - 1 - X.y);
    MontEncY(X);
    ToyX25519At(G, K, MontEnc(X), X.y, Y);
    OppositeMultiple(G, ClampScalar(K), Y);
  }

  lemma ToyX25519At(G: Group, K: xckey, U: xckey, y: nat, Y: Point)
    requires P - 1 - HALF <= y < P - 1 && FieldY(P, LE(U)) == y && Y == Pt(P - 1 - y)
    ensures X25519(G, K, U) == Some(MontEnc(Mul(G, ClampScalar(K), Y)))
  {
  }

  lemma OppositeMultiple(G: Group, c: nat, Y: Point)
    requires IsGroup(G) && G.mem(Y)
    ensures MontEnc(Mul(G, c, Neg(Y))) == MontEnc(Mul(G, c, Y))
  {
    MulNeg(G, c, Y);
  }

  lemma DhHolds(n: nat, K: xckey, X: Point)
    requires IsPrime(P) && IsPrime(Q)
    ensures DhAt(Toy(n), K, X)
  {
    assert Pt(0) == ZERO;
    if Member(X) && X != ZERO {
      var k := Index(X);
      ToyIsGroup();
      Shape(k);
      IndexPt(P - 1 - X.y);
      ToyX25519(TOY_GROUP, K, X);
    }
  }

  lemma ToyLaws(n: nat)
    requires IsPrime(P) && IsPrime(Q)
    ensures Laws(Toy(n))
  {
    var S := Toy(n);
    ToyIsGroup();
    forall b, X
      ensures DecodeAt(S, b, X)
    {
      DecodeHolds(n, b, X);
    }
    forall K, X
      ensures DhAt(S, K, X)
    {
      DhHolds(n, K, X);
    }
    forall seed, coins
      ensures KemAt(S, seed, coins)
    {
    }
    forall salt, ikm, info
      ensures HkdfAt(S, salt, ikm, info)
    {
    }
  }

  // ----- the failing cases occur

  lemma Fits(n: nat, len: nat)
    requires n < TWO_256 && len >= 32
    ensures n < Pow256(len)
  {
    PowSplit(32, len - 32);
    PowValues();
    MultipleGap(Pow256(len - 32), TWO_256);
  }

  lemma ConstantHash(n: nat, len: nat)
    requires n < Q && len >= 32
    ensures LE(ScalarReduce(ToLE(n, len))) == n
  {
    Fits(n, len);
    LEToLE(n, len);
    ReducedValue(ToLE(n, len));
    Small(n, Q);
  }

  /** With a hash that decodes to n, every challenge is n. */
  lemma ToyChallenge(n: nat, R: xckey, A: xckey, M: bytes)
    requires n < Q
    ensures LE(Challenge(Toy(n), R, A, M)) == n
  {
    ConstantHash(n, 64);
  }

  /** Every signature is then made with the nonce n, so its R half encodes the n-th point. */
  lemma ToyR(n: nat, K: xckey, M: bytes, Z: key64)
    requires n < Q
    ensures Sign(Toy(n), K, M, Z)[..32] == Enc(Pt(n))
  {
    ConstantNonce(n, K, M, Z);
    SignedNonce(Toy(n), K, M, Z);
    PtMultiple(n);
  }

  lemma ConstantNonce(n: nat, K: xckey, M: bytes, Z: key64)
    requires n < Q
    ensures LE(Nonce(Toy(n), K, M, Z)) == n
  {
    ConstantHash(n, 64);
  }

  lemma PtMultiple(n: nat)
    requires n < Q
    ensures Mul(TOY_GROUP, n, Pt(1)) == Pt(n)
  {
    MulIndex(n, 1, n);
    Small(n, Q);
  }

  /** R's sign bit is the parity of n, and with a clear sign bit R is not a reduced scalar. */
  lemma ToySign(n: nat, K: xckey, M: bytes, Z: key64)
    requires 0 < n <= HALF
    ensures var R := Sign(Toy(n), K, M, Z)[..32]; (SignBit(R) <==> n % 2 == 1) && LE(R) >= Q
  {
    ToyR(n, K, M, Z);
    IndexPt(n);
    EncParts(Pt(n));
  }

  /** For odd n no honest signature verifies: R's sign bit is always set. */
  lemma SignBitSet(n: nat, K: xckey, M: bytes, Z: key64)
    requires IsPrime(P) && IsPrime(Q) && KeyMatches(K)
    requires 0 < n <= HALF && n % 2 == 1
    ensures Laws(Toy(n))
    ensures var S := Toy(n);
      && Verify(S, PublicOf(S, K), M, Sign(S, K, M, Z)) == Value(false)
      && VerifyYOnly(S, PublicOf(S, K), M, Sign(S, K, M, Z)) == Value(true)
  {
    ToyLaws(n);
    ToySign(n, K, M, Z);
    Complete(Toy(n), K, M, Z);
  }

  /**
   For even n every challenge is n, the group equation accepts every honest signature, and
   the code as written none: R is never a reduced scalar.
   */
  lemma AsWrittenRejectsHonest(n: nat, K: xckey, M: bytes, Z: key64)
    requires IsPrime(P) && IsPrime(Q) && KeyMatches(K)
    requires 0 < n <= HALF && n % 2 == 0
    ensures Laws(Toy(n))
    ensures var S, sig := Toy(n), Sign(Toy(n), K, M, Z);
      && LE(Challenge(S, sig[..32], CalculateKeyPair(S, K).Public, M)) == n
      && Verify(S, PublicOf(S, K), M, sig) == Value(true)
      && Deviations.VerifyAsWritten(S, PublicOf(S, K), M, sig) != Value(true)
  {
    ToyLaws(n);
    ToySign(n, K, M, Z);
    ToyChallenge(n, Sign(Toy(n), K, M, Z)[..32], CalculateKeyPair(Toy(n), K).Public, M);
    Deviations.LargeRRejected(Toy(n), K, M, Z);
  }

  /** The smallest unclamped private key: 1, whose clamped scalar is 2^254. */
  function KeyOne(): (K: xckey)
    ensures LE(K) == 1
  {
    LEToKey(1);
    ToLE(1, 32)
  }

  /** For it, signer and verifier name different keys under every lawful record. */
  lemma KeyOneDisagrees(S: Suite)
    requires Laws(S)
    ensures !KeysAgree(KeyOne())
    ensures ConvertMont(P, PublicOf(S, KeyOne())) != Value(CalculateKeyPair(S, KeyOne()).Public)
  {
    NoTopBit(1);
    OneIsNotClamped(ClampScalar(KeyOne()));
    SameKey(S, KeyOne());
  }

  lemma OneIsNotClamped(c: nat)
    requires c == TWO_254
    ensures !EqualUpToSign(1, c)
  {
  }

  /** And its signatures do fail: under a constant nonzero challenge none of them verifies. */
  lemma KeyOneRejected(n: nat, M: bytes, Z: key64)
    requires IsPrime(P) && IsPrime(Q) && 0 < n < Q
    ensures Laws(Toy(n))
    ensures var S, sig := Toy(n), Sign(Toy(n), KeyOne(), M, Z);
      VerifyYOnly(S, PublicOf(S, KeyOne()), M, sig) == Value(false)
  {
    var S, K := Toy(n), KeyOne();
    var A, B := CalculateKeyPair(S, K), CalculateKeyPair(S, ClampedKey(K));
    var R := Sign(S, K, M, Z)[..32];
    ToyLaws(n);
    KeyOneDisagrees(S);
    VerifierKeyPair(S, K);
    CompleteExactly(S, K, M, Z);
    ToyChallenge(n, R, A.Public, M);
    ToyChallenge(n, R, B.Public, M);
    SameNumber(Challenge(S, R, A.Public, M), Challenge(S, R, B.Public, M));
    SameProduct(Challenge(S, R, A.Public, M), A.Private, B.Private);
    KeyPairMeaning(S, K);
    KeyPairMeaning(S, ClampedKey(K));
    MulEqual(S.group, LE(A.Private), LE(B.Private), S.group.base);
  }

  /** A key with bit 255 set on which signer and verifier agree: 2^255 + 2^254. */
  function KeyTop(): (K: xckey)
    ensures LE(K) == TWO_255 + TWO_254
  {
    LEToKey(TWO_255 + TWO_254);
    ToLE(TWO_255 + TWO_254, 32)
  }

  /** They name one key, and still no signature with it verifies under a nonzero challenge. */
  lemma KeyTopRejected(n: nat, M: bytes, Z: key64)
    requires IsPrime(P) && IsPrime(Q) && 0 < n < Q
    ensures KeysAgree(KeyTop()) && Laws(Toy(n))
    ensures var S, sig := Toy(n), Sign(Toy(n), KeyTop(), M, Z);
      && ConvertMont(P, PublicOf(S, KeyTop())) == Value(CalculateKeyPair(S, KeyTop()).Public)
      && VerifyYOnly(S, PublicOf(S, KeyTop()), M, sig) == Value(false)
  {
    var S, K := Toy(n), KeyTop();
    ToyLaws(n);
    TopAgrees(K);
    SameKey(S, K);
    CompleteAgreeing(S, K, M, Z);
    ToyChallenge(n, Sign(S, K, M, Z)[..32], CalculateKeyPair(S, K).Public, M);
  }

  lemma TopAgrees(K: xckey)
    requires LE(K) == TWO_255 + TWO_254
    ensures BaseScalar(K) == TWO_254 == ClampScalar(K)
  {
  }

  // ----- public keys that X25519 does not tell apart

  /** The same u coordinate, written as a number above p. */
  function Alias(U: xckey): (V: xckey)
    requires LE(U) < P
    ensures LE(V) == LE(U) + P
  {
    LEToKey(LE(U) + P);
    ToLE(LE(U) + P, 32)
  }

  lemma AliasMod(u: nat)
    ensures FieldY(P, u + P) == FieldY(P, u)
  {
    CongFrom(u + P - 1, u - 1, 1, P);
    CongFrom(u + P + 1, u + 1, 1, P);
    CongUnique(u + P - 1, u - 1, P);
    CongUnique(u + P + 1, u + 1, P);
  }

  lemma AliasSame(n: nat, b: xckey, U: xckey)
    requires LE(U) < P
    ensures Toy(n).x25519(b, Alias(U)) == Toy(n).x25519(b, U)
  {
    AliasMod(LE(U));
    SameField(TOY_GROUP, b, Alias(U), U);
  }

  lemma SameField(G: Group, K: xckey, U: xckey, V: xckey)
    requires FieldY(P, LE(U)) == FieldY(P, LE(V))
    ensures X25519(G, K, U) == X25519(G, K, V)
  {
  }

  lemma AliasOutside(S: Suite, U: xckey)
    requires Laws(S) && LE(U) < P
    ensures !InGroup(S, Alias(U))
  {
    forall X | S.group.mem(X) && X != ZERO
      ensures MontEnc(X) != Alias(U)
    {
      LEToKey(FieldU(P, X.y));
    }
  }

  /**
   Outside the prime-order group a root key does not bind the identity key: a lawful record
   in which two handshakes that differ in it give one root key.
   */
  lemma OutsideNotBound(n: nat, K: xckey, me: KeyPair, spk: xckey, opk: Option<xckey>, qpk: qprivkey,
                        h: Handshake, answer: Session)
    requires IsPrime(P) && IsPrime(Q)
    requires h.identityKey == PublicOf(Toy(n), K)
    requires CreateInboundSession(Toy(n), me, spk, opk, qpk, h) == Value(Some(answer))
    ensures Laws(Toy(n)) && LE(h.identityKey) < P
    ensures var V := Alias(h.identityKey);
      && V != h.identityKey && !InGroup(Toy(n), V)
      && CreateInboundSession(Toy(n), me, spk, opk, qpk, h.(identityKey := V))
           == Value(Some(answer.(remoteIdentityKey := V)))
  {
    ToyLaws(n);
    VerifierKey(Toy(n), K);
    AliasSame(n, spk, h.identityKey);
    AliasOutside(Toy(n), h.identityKey);
    SameSecretsSameSession(Toy(n), me, spk, opk, qpk, h, Alias(h.identityKey), answer);
  }

  lemma SameSecretsSameSession(S: Suite, me: KeyPair, spk: xckey, opk: Option<xckey>, qpk: qprivkey,
                               h: Handshake, V: xckey, answer: Session)
    requires S.x25519(spk, V) == S.x25519(spk, h.identityKey)
    requires CreateInboundSession(S, me, spk, opk, qpk, h) == Value(Some(answer))
    ensures CreateInboundSession(S, me, spk, opk, qpk, h.(identityKey := V))
         == Value(Some(answer.(remoteIdentityKey := V)))
  {
  }

  // ----- a whole handshake

  lemma PublicAt(n: nat, K: xckey, c: nat)
    requires c == ClampScalar(K)
    ensures PublicOf(Toy(n), K) == MontEnc(Pt(c % Q))
  {
    MulIndex(c, 1, c);
  }

  lemma EncodingsApart(S: Suite, X: Point, Y: Point)
    requires Laws(S) && S.group.mem(X) && S.group.mem(Y)
    requires X != ZERO && Y != ZERO && Y != X && Y != Neg(X)
    ensures MontEnc(X) != MontEnc(Y)
  {
    MontEncSame(S, X, Y);
  }

  /** The private keys 0 and 8 have clamped scalars 2^254 and 2^254 + 8, and different public keys. */
  lemma SmallKeys(n: nat)
    requires IsPrime(P) && IsPrime(Q)
    ensures PublicOf(Toy(n), SmallKey(8)) == EIGHT != PublicOf(Toy(n), SmallKey(0))
  {
    KeysApart(n, SmallKey(0), SmallKey(8));
  }

  lemma KeysApart(n: nat, K: xckey, L: xckey)
    requires IsPrime(P) && IsPrime(Q) && LE(K) == 0 && LE(L) == 8
    ensures PublicOf(Toy(n), K) != PublicOf(Toy(n), L)
  {
    ToyLaws(n);
    ClampSmall(K, L);
    PublicAt(n, K, TWO_254);
    PublicAt(n, L, TWO_254 + 8);
    PointsApart(n, TWO_254 % Q, (TWO_254 + 8) % Q);
  }

  lemma ClampSmall(K: xckey, L: xckey)
    requires LE(K) == 0 && LE(L) == 8
    ensures ClampScalar(K) == TWO_254 && ClampScalar(L) == TWO_254 + 8
  {
  }

  lemma PointsApart(n: nat, i: nat, j: nat)
    requires Laws(Toy(n)) && i == TWO_254 % Q && j == (TWO_254 + 8) % Q
    ensures MontEnc(Pt(i)) != MontEnc(Pt(j))
  {
    Apart(i, j);
    EncodingsApart(Toy(n), Pt(i), Pt(j));
  }

  lemma Apart(i: nat, j: nat)
    requires i == TWO_254 % Q && j == (TWO_254 + 8) % Q
    ensures Pt(j) != Pt(i) && Pt(j) != Neg(Pt(i))
    ensures Member(Pt(i)) && Member(Pt(j)) && Pt(i) != ZERO && Pt(j) != ZERO
  {
    IndexPt(i);
    IndexPt(j);
    IndexPt(NegIndex(i));
    assert Pt(0) == ZERO;
    IndexPt(0);
  }

  /** One draw of the refill, the signed prekey and the last-resort key. */
  const DRAWS: seq<Draw> := [Draw(SmallKey(8), true, [], true, Zeros(64))]

  function ToyDevice(K: xckey): Runs.Device {
    Runs.Device(K, SmallKey(0), Zeros(64), LastResortKey([], 0))
  }

  function ToyChoice(quantum: bool, oneTime: bool): Choice {
    Choice(if quantum then Some(QuantumDraw([], Zeros(64))) else None, if oneTime then Some(SmallKey(8)) else None)
  }

  lemma ToyAccepted(n: nat, K: xckey, M: bytes, Z: key64)
    requires IsPrime(P) && IsPrime(Q) && KeyMatches(K) && 0 < n <= HALF && n % 2 == 0
    ensures Accepted(Toy(n), K, M, Z)
  {
    ToyLaws(n);
    ToySign(n, K, M, Z);
    AcceptedExactly(Toy(n), K, M, Z);
  }

  /** The four stores of the two devices: the signed prekey, a quantum key twice, and the key 8. */
  lemma ToyWrites(n: nat, spk: Write, last: Write, x: Write, q: Write)
    requires IsPrime(P) && IsPrime(Q)
    requires spk == XWrite(Toy(n), SmallKey(0)) && last == LastResortWrite(Toy(n), LastResortKey([], 0))
    requires x == XWrite(Toy(n), SmallKey(8)) && q == QWrite(Toy(n), [])
    ensures RefillWrites(Toy(n), DRAWS) == [x, q]
    ensures q == last && last.kind == QUANTUM && spk.kind == x.kind == PREKEY && spk.id == 0 && x.id == 1
  {
    SmallKeys(n);
    OneDraw(Toy(n), Draw(SmallKey(8), true, [], true, Zeros(64)));
    assert Zeros(1568) != EIGHT;
  }

  lemma OneDraw(S: Suite, d: Draw)
    requires DrawSucceeds(S, d)
    ensures RefillWrites(S, [d]) == [XWrite(S, d.private), QWrite(S, d.seed)]
  {
    assert [d][1..] == [];
    assert RefillWrites(S, [d]) == DrawWrites(S, d) + RefillWrites(S, []);
  }

  lemma FourIntact(spk: Write, last: Write, x: Write, q: Write)
    requires q == last && last.kind == QUANTUM && spk.kind == x.kind == PREKEY && spk.id == 0 && x.id == 1
    ensures var writes := [spk, last] + [x, q];
      Intact(writes, spk) && Intact(writes, last) && Intact(writes, x) && Intact(writes, q)
  {
  }

  lemma ToyUnreused(n: nat, K: xckey, quantum: bool, oneTime: bool)
    requires IsPrime(P) && IsPrime(Q)
    ensures Runs.Unreused(Toy(n), ToyDevice(K), DRAWS, ToyChoice(quantum, oneTime))
  {
    var S := Toy(n);
    var spk, last := XWrite(S, SmallKey(0)), LastResortWrite(S, LastResortKey([], 0));
    var x, q := XWrite(S, SmallKey(8)), QWrite(S, []);
    ToyWrites(n, spk, last, x, q);
    FourIntact(spk, last, x, q);
  }

  lemma ToyDrawn(n: nat, quantum: bool, oneTime: bool)
    ensures Runs.AllStored(Toy(n), DRAWS) && Runs.Drawn(DRAWS, ToyChoice(quantum, oneTime))
  {
    assert DRAWS[0].private == SmallKey(8) && DRAWS[0].seed == [] && DRAWS[0].z == Zeros(64);
  }

  /**
   Whole handshakes between any device and one with a matching identity key take place and
   end in mirroring sessions, with and without a one-time prekey and with either quantum key.
   */
  lemma HandshakeTakesPlace(n: nat, aliceK: xckey, bobK: xckey, quantum: bool, oneTime: bool, ek: xckey, coins: bytes)
    requires IsPrime(P) && IsPrime(Q) && KeyMatches(bobK) && 0 < n <= HALF && n % 2 == 0
    ensures Laws(Toy(n))
    ensures
      var c := ToyChoice(quantum, oneTime);
      var events := Runs.Preparation(ToyDevice(aliceK), ToyDevice(bobK), DRAWS)
                    + [Outbound(0, 1, c, ek, coins)] + [Inbound(0)];
      var s := Run(Toy(n), EMPTY, events);
      && |s.exchanges| == 1 && |s.answers| == 1
      && Mirrors(Toy(n), aliceK, bobK, ek, s.exchanges[0].result, s.answers[0].result)
  {
    var S, a, b, c := Toy(n), ToyDevice(aliceK), ToyDevice(bobK), ToyChoice(quantum, oneTime);
    ToyLaws(n);
    ToyAccepted(n, bobK, PublicOf(S, SmallKey(0)), Zeros(64));
    ToyAccepted(n, bobK, S.kemKeypair([]).value.0, Zeros(64));
    ToyUnreused(n, bobK, quantum, oneTime);
    ToyDrawn(n, quantum, oneTime);
    Runs.FirstHandshake(S, a, b, DRAWS, c, ek, coins);
  }
}
