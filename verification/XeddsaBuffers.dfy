/** The signing and verifying code step by step, on 32- and 64-byte buffers. */
module XeddsaBuffers {
  import opened Bytes
  import opened Modular
  import opened Outcomes
  import opened Group
  import opened Edwards
  import opened Suites
  import opened Xeddsa
  import opened Util
  import Birational
  import Hashing

  method ScaleBase(S: Suite, scalar: array<byte>) returns (out: array<byte>)
    requires scalar.Length == 32
    ensures fresh(out) && out[..] == BpScale(S, scalar[..])
  {
    out := new byte[32](_ => 0);
    Store(out, BpScale(S, scalar[..]));
  }

  method CalculateKeyPairBuffers(S: Suite, K: array<byte>)
    returns (Public: array<byte>, Private: array<byte>)
    requires K.Length == 32
    ensures fresh(Public) && fresh(Private) && Public != Private
    ensures Public.Length == 32 && Private.Length == 32
    ensures KeyPair(Public[..], Private[..]) == CalculateKeyPair(S, K[..])
  {
    var E := ScaleBase(S, K);
    var sign := SignBit(E[..]);
    Public := KCpy(E, 32, 0);
    assert Public[..] == E[..];
    YCoordInPlace(Public);
    YCoordUnique(E[..], Public[..]);
    if sign {
      Private := new byte[32](_ => 0);
      Store(Private, ScalarNegate(K[..]));
    } else {
      Private := KCpy(K, 32, 0);
    }
    assert E[0..32] == E[..] && K[0..32] == K[..];
  }

  /** h = SHA-512(R || A || M) mod q, left in the buffer `h`. */
  method ChallengeInto(S: Suite, h: array<byte>, R: array<byte>, A: array<byte>, M: array<byte>)
    requires h.Length == R.Length == A.Length == 32
    requires h != R && h != A && h != M
    modifies h
    ensures h[..] == Challenge(S, R[..], A[..], M[..])
  {
    var input := KConcat3(R, A, M);
    var hash := S.sha512(input[..]);
    Store(h, ScalarReduce(hash));
  }

  /** r = hash_1(a || M || Z) mod q, left in the buffer `r`. */
  method NonceInto(S: Suite, r: array<byte>, a: array<byte>, M: array<byte>, Z: array<byte>)
    requires r.Length == 32 && r != a && r != M && r != Z
    modifies r
    ensures r[..] == ScalarReduce(Hashing.Hash255(S, 1, a[..] + M[..] + Z[..]))
  {
    var input := KConcat3(a, M, Z);
    var hash1 := Hashing.Hash255Streamed(S, 1, input);
    Store(r, ScalarReduce(hash1));
  }

  /** s = r + ha mod q, left in the buffer `s`. */
  method ResponseInto(s: array<byte>, r: array<byte>, h: array<byte>, a: array<byte>)
    requires s.Length == r.Length == h.Length == a.Length == 32
    requires s != r && s != h && s != a
    modifies s
    ensures s[..] == ScalarAdd(r[..], ScalarMul(h[..], a[..]))
  {
    var ha := new byte[32](_ => 0);
    Store(ha, ScalarMul(h[..], a[..]));
    Store(s, ScalarAdd(r[..], ha[..]));
  }

  /** The second half of a signature, for the nonce pair `r`, `R` and the key pair `a`, `A`. */
  method Respond(S: Suite, r: array<byte>, R: array<byte>, a: array<byte>, A: array<byte>, M: array<byte>)
    returns (s: array<byte>)
    requires r.Length == R.Length == a.Length == A.Length == 32
    ensures fresh(s) && s.Length == 32
    ensures s[..] == ScalarAdd(r[..], ScalarMul(Challenge(S, R[..], A[..], M[..]), a[..]))
  {
    var h := new byte[32](_ => 0);
    s := new byte[32](_ => 0);
    ChallengeInto(S, h, R, A, M);
    ResponseInto(s, r, h, a);
  }

  method Sign32(S: Suite, K: array<byte>, M: array<byte>, Z: array<byte>) returns (sig: array<byte>)
    requires K.Length == 32 && Z.Length == 64
    ensures fresh(sig) && sig[..] == Sign(S, K[..], M[..], Z[..])
  {
    var aPublic, aPrivate := CalculateKeyPairBuffers(S, K);
    var rPrivate := new byte[32](_ => 0);
    NonceInto(S, rPrivate, aPrivate, M, Z);
    var rPublic := ScaleBase(S, rPrivate);
    var s := Respond(S, rPrivate, rPublic, aPrivate, aPublic, M);
    sig := KConcat2(rPublic, s);
  }

  /** Inverts a field element in its own buffer; zero has no inverse. */
  method InvertInPlace(k: array<byte>) returns (ok: bool)
    requires k.Length == 32 && LE(k[..]) < P
    modifies k
    ensures ok <==> old(LE(k[..])) != 0
    ensures ok ==> LE(k[..]) == Inv(old(LE(k[..])), P)
  {
    var d := LE(k[..]);
    ok := d != 0;
    if ok {
      LEToKey(Inv(d, P));
      Store(k, ToLE(Inv(d, P), 32));
    }
  }

  /** `ok == false` is the exception thrown when the denominator has no inverse. */
  method UToYBuffers(U: array<byte>) returns (ok: bool, result: array<byte>)
    requires U.Length == 32
    ensures fresh(result) && result.Length == 32
    ensures UToY(P, U[..]) == if ok then Value(result[..]) else Throw
  {
    var numerator := new byte[32](_ => 0);
    var denominator := new byte[32](_ => 0);
    result := new byte[32](_ => 0);
    ShiftInto(numerator, U, -1);
    ShiftInto(denominator, U, 1);
    ok := InvertInPlace(denominator);
    UToYParts(U[..], numerator[..], denominator[..]);
    if ok {
      MulInto(result, numerator, denominator);
    }
  }

  /** The field sum of a buffer and a small constant. */
  method ShiftInto(result: array<byte>, a: array<byte>, shift: int)
    requires result.Length == a.Length == 32 && result != a
    modifies result
    ensures LE(result[..]) == (LE(a[..]) + shift) % P
  {
    var n := (LE(a[..]) + shift) % P;
    LEToKey(n);
    Store(result, ToLE(n, 32));
  }

  function FieldMul(a: xckey, b: xckey): xckey {
    ToLE((LE(a) * LE(b)) % P, 32)
  }

  /** The field product of two buffers. */
  method MulInto(result: array<byte>, a: array<byte>, b: array<byte>)
    requires result.Length == a.Length == b.Length == 32 && result != a && result != b
    modifies result
    ensures result[..] == FieldMul(a[..], b[..])
  {
    Store(result, FieldMul(a[..], b[..]));
  }

  lemma UToYParts(U: xckey, n: xckey, i: xckey)
    ensures (LE(U) + 1) % P == 0 ==> UToY(P, U) == Throw
    ensures (LE(U) + 1) % P != 0 && LE(n) == (LE(U) + -1) % P && LE(i) == Inv((LE(U) + 1) % P, P) ==>
      UToY(P, U) == Value(FieldMul(n, i))
  {
    if LE(n) == (LE(U) + -1) % P && LE(i) == Inv((LE(U) + 1) % P, P) {
      SameFieldProduct(LE(U), LE(n), LE(i));
    }
  }

  lemma SameFieldProduct(u: nat, n: nat, i: nat)
    requires n == (u - 1) % P && i == Inv((u + 1) % P, P)
    ensures Birational.FieldY(P, u) == (n * i) % P
  {
  }

  method ConvertMontBuffers(U: array<byte>) returns (ok: bool, result: array<byte>)
    requires U.Length == 32
    ensures fresh(result) && result.Length == 32
    ensures ConvertMont(P, U[..]) == if ok then Value(result[..]) else Throw
  {
    var umasked := KCpy(U, 32, 0);
    assert umasked[..] == U[..];
    YCoordInPlace(umasked);
    YCoordUnique(U[..], umasked[..]);
    ok, result := UToYBuffers(umasked);
    if ok {
      ghost var converted := result[..];
      YCoordInPlace(result);
      YCoordUnique(converted, result[..]);
    }
  }

  method Verify32(S: Suite, mkPub: array<byte>, M: array<byte>, rcs: array<byte>) returns (r: Outcome<bool>)
    requires mkPub.Length == 32 && rcs.Length == 64
    ensures r == Verify(S, mkPub[..], M[..], rcs[..])
  {
    var R := KCpy(rcs, 32, 0);
    var s := KCpy(rcs, 32, 32);
    assert R[..] == rcs[..][..32] && s[..] == rcs[..][32..];
    if !SigInBounds(mkPub[..], R[..], s[..]) {
      return Value(false);
    }
    var ok, A := ConvertMontBuffers(mkPub);
    if !ok {
      return Throw;
    }
    var point := S.decode(A[..]);
    if point.None? {
      return Value(false);
    }
    var h := new byte[32](_ => 0);
    ChallengeInto(S, h, R, A, M);

    var sB := Mul(S.group, LE(s[..]), S.group.base);
    var hA := Mul(S.group, LE(h[..]), point.value);
    var rCheck := new byte[32](_ => 0);
    Store(rCheck, Enc(Sub(S.group, sB, hA)));
    return Value(rCheck[..] == R[..]);
  }
}
