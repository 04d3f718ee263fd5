/**
 The calls into libsodium and mlkem-native, as one record of functions. `Laws` says what
 is assumed of them; module `Witness` builds a record that satisfies every law.
 */
module Suites {
  import opened Bytes
  import opened Modular
  import opened Outcomes
  import opened Group
  import opened Edwards

  type uint32 = n: nat | n < 0x1_0000_0000

  type qpubkey = k: bytes | |k| == 1568 witness Zeros(1568)
  type qprivkey = k: bytes | |k| == 3168 witness Zeros(3168)
  type qcipher = k: bytes | |k| == 1568 witness Zeros(1568)

  /** A return code other than 0 is `None`. */
  datatype Suite = Suite(
    group: Group,
    decode: xckey -> Option<Point>,
    sha512: bytes -> key64,
    x25519: (xckey, xckey) -> Option<xckey>,
    kemKeypair: bytes -> Option<(qpubkey, qprivkey)>,
    kemEncaps: (qpubkey, bytes) -> Option<(qcipher, xckey)>,
    kemDecaps: (qcipher, qprivkey) -> Option<xckey>,
    hkdfExtract: (bytes, bytes) -> Option<xckey>,
    hkdfExpand: (xckey, string) -> Option<xckey>,
    genericHash: bytes -> uint32
  )

  /** The public key of a 32-byte private key: `crypto_box_keypair` clamps the scalar. */
  function PublicOf(S: Suite, K: xckey): xckey {
    MontEnc(Mul(S.group, ClampScalar(K), S.group.base))
  }

  // ----- laws

  /** A valid point is the encoding of a nonzero group element. */
  ghost predicate DecodeAt(S: Suite, k: xckey, X: Point) {
    S.decode(k) == Some(X) <==> S.group.mem(X) && X != ZERO && Enc(X) == k
  }

  /** X25519 multiplies by the clamped scalar; on the group it never returns zero. */
  ghost predicate DhAt(S: Suite, K: xckey, X: Point) {
    S.group.mem(X) && X != ZERO ==>
      S.x25519(K, MontEnc(X)) == Some(MontEnc(Mul(S.group, ClampScalar(K), X)))
  }

  /** Encapsulating to a generated key succeeds, and decapsulating gives the secret back. */
  ghost predicate KemAt(S: Suite, seed: bytes, coins: bytes) {
    S.kemKeypair(seed).Some? ==>
      var (pk, sk) := S.kemKeypair(seed).value;
      && S.kemEncaps(pk, coins).Some?
      && var (ct, ss) := S.kemEncaps(pk, coins).value;
         S.kemDecaps(ct, sk) == Some(ss)
  }

  /** HKDF-SHA256 does not fail when 32 bytes are asked for. */
  ghost predicate HkdfAt(S: Suite, salt: bytes, ikm: bytes, info: string) {
    S.hkdfExtract(salt, ikm).Some? && S.hkdfExpand(S.hkdfExtract(salt, ikm).value, info).Some?
  }

  ghost predicate Laws(S: Suite) {
    && IsPrime(P)
    && IsGroup(S.group)
    && (forall k, X :: DecodeAt(S, k, X))
    && (forall K, X :: DhAt(S, K, X))
    && (forall seed, coins :: KemAt(S, seed, coins))
    && (forall salt, ikm, info :: HkdfAt(S, salt, ikm, info))
  }

  // ----- Diffie-Hellman

  /** A clamped multiple of a nonzero point is a nonzero point. */
  lemma ClampedMultiple(G: Group, K: xckey, X: Point)
    requires IsGroup(G) && G.mem(X) && X != ZERO
    ensures G.mem(Mul(G, ClampScalar(K), X)) && Mul(G, ClampScalar(K), X) != ZERO
  {
    ClampNonZero(K);
    MulOrder(G, ClampScalar(K), X);
    MulMem(G, ClampScalar(K), X);
  }

  /** The secret two private keys share: the u coordinate of (ab)B for their clamped scalars. */
  function SharedPoint(S: Suite, a: xckey, b: xckey): xckey {
    MontEnc(Mul(S.group, ClampScalar(a) * ClampScalar(b), S.group.base))
  }

  lemma DhValue(S: Suite, a: xckey, b: xckey)
    requires Laws(S)
    ensures S.x25519(a, PublicOf(S, b)) == Some(SharedPoint(S, a, b))
  {
    ClampedMultiple(S.group, b, S.group.base);
    assert DhAt(S, a, Mul(S.group, ClampScalar(b), S.group.base));
    MulMul(S.group, ClampScalar(a), ClampScalar(b), S.group.base);
  }

  /** The Montgomery encoding determines a nonzero point up to sign, and no more. */
  lemma MontEncSame(S: Suite, X: Point, Y: Point)
    requires Laws(S)
    requires S.group.mem(X) && X != ZERO && S.group.mem(Y) && Y != ZERO
    ensures MontEnc(X) == MontEnc(Y) <==> Y == X || Y == Neg(X)
  {
    Member(S.group, X);
    Member(S.group, Y);
    YNotOne(S.group, X);
    YNotOne(S.group, Y);
    assert SameYAt(S.group, X, Y);
    if MontEnc(X) == MontEnc(Y) {
      MontEncY(X);
      MontEncY(Y);
    }
  }

  /** Equal multiples by one clamped scalar come from equal public keys. */
  lemma ClampedCancel(S: Suite, K: xckey, X: Point, Y: Point)
    requires Laws(S)
    requires S.group.mem(X) && X != ZERO && S.group.mem(Y) && Y != ZERO
    requires MontEnc(Mul(S.group, ClampScalar(K), X)) == MontEnc(Mul(S.group, ClampScalar(K), Y))
    ensures MontEnc(X) == MontEnc(Y)
  {
    var G, c := S.group, ClampScalar(K);
    ClampNonZero(K);
    ClampedMultiple(G, K, X);
    ClampedMultiple(G, K, Y);
    MontEncSame(S, Mul(G, c, X), Mul(G, c, Y));
    MulNeg(G, c, X);
    MulCancel(G, c, X, Y);
    MulCancel(G, c, Neg(X), Y);
  }

  /** A point whose secret with `b` is the one `a` shares with `b` is the public key of `a`. */
  lemma DhBinds(S: Suite, b: xckey, X: Point, a: xckey)
    requires Laws(S) && S.group.mem(X) && X != ZERO
    requires S.x25519(b, MontEnc(X)) == S.x25519(a, PublicOf(S, b))
    ensures MontEnc(X) == PublicOf(S, a)
  {
    var A := Mul(S.group, ClampScalar(a), S.group.base);
    ClampedMultiple(S.group, a, S.group.base);
    DhAgree(S, a, b);
    assert DhAt(S, b, X);
    assert DhAt(S, b, A);
    ClampedCancel(S, b, X, A);
  }

  /** Two private keys and their public keys agree on one secret, in either order. */
  lemma DhAgree(S: Suite, a: xckey, b: xckey)
    requires Laws(S)
    ensures S.x25519(a, PublicOf(S, b)).Some?
    ensures S.x25519(a, PublicOf(S, b)) == S.x25519(b, PublicOf(S, a))
  {
    var G := S.group;
    ClampedMultiple(G, a, G.base);
    ClampedMultiple(G, b, G.base);
    assert DhAt(S, a, Mul(G, ClampScalar(b), G.base));
    assert DhAt(S, b, Mul(G, ClampScalar(a), G.base));
    MulCommutes(G, ClampScalar(a), ClampScalar(b), G.base);
  }

  /** Two private keys share one secret with `a` exactly when their public keys are equal. */
  lemma DhSame(S: Suite, b: xckey, c: xckey, a: xckey)
    requires Laws(S)
    ensures S.x25519(b, PublicOf(S, a)) == S.x25519(c, PublicOf(S, a)) <==> PublicOf(S, b) == PublicOf(S, c)
  {
    DhAgree(S, b, a);
    DhAgree(S, c, a);
    if S.x25519(b, PublicOf(S, a)) == S.x25519(c, PublicOf(S, a)) {
      ClampedMultiple(S.group, b, S.group.base);
      DhBinds(S, a, Mul(S.group, ClampScalar(b), S.group.base), c);
    }
  }

  /** A Montgomery public key that names a nonzero point of the prime-order group. */
  ghost predicate InGroup(S: Suite, U: xckey) {
    exists X :: S.group.mem(X) && X != ZERO && U == MontEnc(X)
  }

  /** Among such keys the shared secret tells every public key from every other. */
  lemma DhDistinguishes(S: Suite, b: xckey, U: xckey, a: xckey)
    requires Laws(S) && InGroup(S, U)
    ensures S.x25519(b, U) == S.x25519(b, PublicOf(S, a)) <==> U == PublicOf(S, a)
  {
    var X :| S.group.mem(X) && X != ZERO && U == MontEnc(X);
    DhAgree(S, a, b);
    if S.x25519(b, U) == S.x25519(b, PublicOf(S, a)) {
      DhBinds(S, b, X, a);
    }
  }
}
