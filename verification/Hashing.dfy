/** `hash_i` of src/hashing.hpp: a 32-byte prefix in front of the message. */
module Hashing {
  import opened Bytes
  import opened Group
  import opened Edwards
  import opened Suites
  import Birational

  /** 2^256 - 1 - i in little-endian form: all ones, then `i` taken from the first byte. */
  function Prefix(i: byte): xckey {
    Filled(32, 0xFF)[0 := 255 - i]
  }

  function Hash255(S: Suite, i: byte, message: bytes): key64 {
    S.sha512(Prefix(i) + message)
  }

  /** The streaming interface: what has been absorbed so far. */
  class Sha512State {
    var absorbed: bytes

    constructor ()
      ensures absorbed == []
    {
      absorbed := [];
    }

    method Update(data: array<byte>)
      modifies this
      ensures absorbed == old(absorbed) + data[..]
    {
      absorbed := absorbed + data[..];
    }

    method Final(S: Suite) returns (digest: key64)
      ensures digest == S.sha512(absorbed)
    {
      digest := S.sha512(absorbed);
    }
  }

  method Hash255Streamed(S: Suite, i: byte, message: array<byte>) returns (digest: key64)
    ensures digest == Hash255(S, i, message[..])
  {
    var prefix := new byte[32](_ => 0xFF);
    prefix[0] := prefix[0] - i;
    assert prefix[..] == Prefix(i);
    var state := new Sha512State();
    state.Update(prefix);
    state.Update(message);
    assert state.absorbed == Prefix(i) + message[..];
    digest := state.Final(S);
  }

  lemma PrefixValue(i: byte)
    ensures LE(Prefix(i)) == TWO_256 - 1 - i
  {
    LEFilledFF(32);
    PowValues();
    var f, p := Filled(32, 0xFF), Prefix(i);
    assert f[1..] == p[1..];
  }

  /** An encoding whose y coordinate is reduced. */
  predicate Canonical(k: xckey) {
    LE(YCoord(k)) < P
  }

  lemma EncCanonical(X: Point)
    requires X.x < P && X.y < P
    ensures Canonical(Enc(X))
  {
    EncParts(X);
    LEToKey(X.y);
  }

  /** The prefixes that no canonical point encoding can equal are exactly those up to 18. */
  lemma PrefixDisjoint(i: byte)
    ensures (forall k: xckey :: Canonical(k) ==> k != Prefix(i)) <==> i <= 18
  {
    PrefixValue(i);
    SplitTopBit(Prefix(i));
    assert Canonical(Prefix(i)) <==> i > 18;
  }

  /** So a nonce hash of any message never hashes the same input as an `R || A || M`. */
  lemma HashInputsDisjoint(i: byte, message: bytes, X: Point, rest: bytes)
    requires i <= 18 && X.x < P && X.y < P
    ensures Prefix(i) + message != Enc(X) + rest
  {
    EncCanonical(X);
    PrefixDisjoint(i);
    assert (Prefix(i) + message)[..32] == Prefix(i);
    assert (Enc(X) + rest)[..32] == Enc(X);
  }

  /** The block of 0xFF in front of the key material is not a public key of any kind. */
  lemma KdfBlockDisjoint(X: Point)
    requires X.x < P && X.y < P
    ensures Filled(32, 0xFF) != Enc(X) && Filled(32, 0xFF) != MontEnc(X)
  {
    assert Filled(32, 0xFF) == Prefix(0);
    EncCanonical(X);
    PrefixDisjoint(0);
    PrefixValue(0);
    LEToKey(Birational.FieldU(P, X.y));
  }
}
