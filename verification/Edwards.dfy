/** Byte encodings of points and scalars, and the conversions of src/algorithms.cpp. */
module Edwards {
  import opened Bytes
  import opened Modular
  import opened Outcomes
  import opened Group
  import opened Birational

  // ----- src/algorithms.cpp, namespace Ed25519

  predicate SignBit(k: xckey) {
    And(ShiftRight(k[31], 7), 1) != 0
  }

  function YCoord(k: xckey): xckey {
    k[31 := And(k[31], 0x7F)]
  }

  method YCoordInPlace(k: array<byte>)
    requires k.Length == 32
    modifies k
    ensures !SignBit(k[..]) && LE(k[..]) == old(LE(k[..])) % TWO_255
  {
    ghost var before := k[..];
    k[31] := And(k[31], 0x7F);
    assert k[..] == YCoord(before);
    SplitTopBit(before);
    SplitTopBit(k[..]);
  }

  /** The two halves of a 32-byte encoding: bit 255 and the number below it. */
  lemma SplitTopBit(k: xckey)
    ensures SignBit(k) <==> LE(k) >= TWO_255
    ensures LE(YCoord(k)) == LE(k) % TWO_255
    ensures LE(k) == LE(YCoord(k)) + if SignBit(k) then TWO_255 else 0
  {
    var y := YCoord(k);
    TopByte(k);
    TopByte(y);
    assert y[..31] == k[..31];
    SplitTopByte(k[31], LE(k[..31]), LE(k), LE(y));
  }

  lemma SplitTopByte(b: byte, low: nat, n: nat, m: nat)
    requires low < TWO_248 && n == low + TWO_248 * b && m == low + TWO_248 * And(b, 0x7F)
    ensures And(ShiftRight(b, 7), 1) != 0 <==> n >= TWO_255
    ensures m == n % TWO_255
    ensures n == m + if n >= TWO_255 then TWO_255 else 0
  {
    AndTop(b);
    SplitNumber(b, low, n, m);
  }

  lemma SplitNumber(b: byte, low: nat, n: nat, m: nat)
    requires low < TWO_248 && n == low + TWO_248 * b && m == low + TWO_248 * (b % 128)
    ensures n >= TWO_255 <==> b >= 128
    ensures m == n % TWO_255
    ensures n == m + if n >= TWO_255 then TWO_255 else 0
  {
  }

  /** The y coordinate is the only key with the low 255 bits. */
  lemma YCoordUnique(k: xckey, y: xckey)
    requires LE(y) == LE(k) % TWO_255
    ensures y == YCoord(k)
  {
    SplitTopBit(k);
    LEInjective(y, YCoord(k));
  }

  lemma YCoordIdentity(k: xckey)
    requires LE(k) < TWO_255
    ensures YCoord(k) == k && !SignBit(k)
  {
    SplitTopBit(k);
    LEInjective(k, YCoord(k));
  }

  // ----- encodings

  /** Edwards encoding: the y coordinate with the parity of x in the top bit. */
  function Enc(X: Point): (k: xckey) {
    ToLE(X.y + (X.x % 2) * TWO_255, 32)
  }

  /** Montgomery encoding: the u coordinate that belongs to y. */
  function MontEnc(X: Point): (k: xckey) {
    ToLE(FieldU(P, X.y), 32)
  }

  lemma EncParts(X: Point)
    requires X.x < P && X.y < P
    ensures LE(Enc(X)) == X.y + (X.x % 2) * TWO_255
    ensures SignBit(Enc(X)) <==> X.x % 2 == 1
    ensures YCoord(Enc(X)) == ToLE(X.y, 32)
  {
    LEToKey(X.y + (X.x % 2) * TWO_255);
    SplitTopBit(Enc(X));
    ToLELE(YCoord(Enc(X)));
  }

  lemma EncEven(X: Point)
    requires X.x % 2 == 0
    ensures Enc(X) == ToLE(X.y, 32)
  {
  }

  lemma EncSame(X: Point, Y: Point)
    requires X.x < P && X.y < P && Y.x < P && Y.y < P && Enc(X) == Enc(Y)
    ensures X.y == Y.y && X.x % 2 == Y.x % 2
  {
    EncParts(X);
    EncParts(Y);
  }

  /** The encoding loses nothing on the group. */
  lemma EncInjective(G: Group, X: Point, Y: Point)
    requires IsGroup(G) && G.mem(X) && G.mem(Y) && Enc(X) == Enc(Y)
    ensures X == Y
  {
    Member(G, X);
    Member(G, Y);
    EncSame(X, Y);
    assert SameYAt(G, X, Y);
    NegParity(X);
  }

  /** p is odd: negation changes the parity of a nonzero x. */
  lemma NegParity(X: Point)
    requires X.x < P
    ensures Neg(X).x < P
    ensures if X.x == 0 then Neg(X) == X else Neg(X).x % 2 != X.x % 2
  {
  }

  /** Only the neutral element has y = 1. */
  lemma YNotOne(G: Group, X: Point)
    requires IsGroup(G) && G.mem(X)
    ensures X.y == 1 <==> X == ZERO
  {
    assert SameYAt(G, ZERO, X);
    assert Neg(ZERO) == ZERO;
  }

  // ----- src/algorithms.cpp, u_to_y and convert_mont

  /** `u_to_y` with the scalar calls taken modulo `m`; -1 has no image and throws. */
  function UToY(m: nat, U: xckey): (r: Outcome<xckey>)
    requires m > 0
  {
    if (LE(U) + 1) % m == 0 then Throw else Value(ToLE(FieldY(m, LE(U)), 32))
  }

  function ConvertMont(m: nat, U: xckey): (r: Outcome<xckey>)
    requires m > 0
  {
    var y :- UToY(m, YCoord(U));
    Value(YCoord(y))
  }

  lemma SuccMod(u: nat)
    requires u < P
    ensures (u + 1) % P == 0 <==> u == P - 1
  {
  }

  /** Of the values below p, exactly p - 1 (that is, -1) has no image. */
  lemma ConvertMontSmall(U: xckey)
    requires LE(U) < P
    ensures ConvertMont(P, U).Throw? <==> LE(U) == P - 1
    ensures LE(U) != P - 1 ==> ConvertMont(P, U) == Value(ToLE(FieldY(P, LE(U)), 32))
  {
    YCoordIdentity(U);
    SuccMod(LE(U));
    Reduced(FieldY(P, LE(U)));
  }

  lemma Reduced(f: nat)
    requires f < P
    ensures YCoord(ToLE(f, 32)) == ToLE(f, 32)
  {
    LEToKey(f);
    YCoordIdentity(ToLE(f, 32));
  }

  lemma MontEncY(X: Point)
    requires IsPrime(P) && X.y < P && X.y != 1
    ensures LE(MontEnc(X)) == FieldU(P, X.y) < P
    ensures FieldY(P, LE(MontEnc(X))) == X.y && LE(MontEnc(X)) != P - 1
  {
    FieldUInvertible(P, X.y);
    LEToKey(FieldU(P, X.y));
    SuccMod(FieldU(P, X.y));
  }

  /** The Montgomery encoding of a nonzero point converts back to the point's own y. */
  lemma ConvertMontEnc(G: Group, X: Point)
    requires IsPrime(P) && IsGroup(G) && G.mem(X) && X != ZERO
    ensures LE(MontEnc(X)) < P
    ensures ConvertMont(P, MontEnc(X)) == Value(ToLE(X.y, 32))
  {
    Member(G, X);
    YNotOne(G, X);
    MontEncY(X);
    ConvertMontSmall(MontEnc(X));
  }

  // ----- scalars

  const TWO_254: nat := 0x4000_0000_0000_0000_0000_0000_0000_0000_0000_0000_0000_0000_0000_0000_0000_0000

  /** The scalar X25519 uses for a 32-byte private key (section 5 of RFC 7748). */
  function ClampScalar(K: xckey): nat {
    var m := LE(K) % TWO_254;
    TWO_254 + (m - m % 8)
  }

  predicate Clamped(K: xckey) {
    LE(K) == ClampScalar(K)
  }

  /**
   The clamped scalar: bit 254 set, bit 255 and the low three bits clear, and the bits
   between taken from K.
   */
  lemma ClampBits(K: xckey)
    ensures TWO_254 <= ClampScalar(K) < TWO_255 && ClampScalar(K) % 8 == 0
    ensures (ClampScalar(K) % TWO_254) / 8 == (LE(K) % TWO_254) / 8
  {
  }

  /** A clamped scalar is never a multiple of the group order. */
  lemma ClampNonZero(K: xckey)
    ensures ClampScalar(K) % Q != 0
  {
    var m := LE(K) % TWO_254;
    assert (TWO_254 + (m - m % 8)) % 8 == 0;
    NotMultiple(ClampScalar(K), ClampScalar(K) / Q);
  }

  /** Between 4q and 8q a multiple of q is 4q or has an odd factor too many for 8. */
  lemma NotMultiple(n: nat, k: nat)
    requires TWO_254 <= n < TWO_255 && n % 8 == 0
    ensures n != k * Q
  {
    assert k >= 8 ==> k * Q >= 8 * Q;
    assert k <= 3 ==> k * Q <= 3 * Q;
    assert k == 4 || k == 5 || k == 6 || k == 7 || k <= 3 || k >= 8;
  }
}
