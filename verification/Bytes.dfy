/** Bytes, fixed-size keys, and the little-endian numbers they stand for. */
module Bytes {

  type byte = b: int | 0 <= b < 256
  type bytes = seq<byte>

  /** `key<32>` of src/protocol.hpp seen as a value. */
  type xckey = k: bytes | |k| == 32 witness Zeros(32)
  type key64 = k: bytes | |k| == 64 witness Zeros(64)

  function Filled(n: nat, b: byte): (r: bytes)
    ensures |r| == n && forall i :: 0 <= i < n ==> r[i] == b
  {
    seq(n, _ => b)
  }

  function Zeros(n: nat): (r: bytes)
    ensures |r| == n && forall i :: 0 <= i < n ==> r[i] == 0
  {
    Filled(n, 0)
  }

  // ----- bit masks of single bytes

  function And(b: byte, mask: bv8): byte {
    ((b as bv8) & mask) as byte
  }

  function ShiftRight(b: byte, n: bv8): byte
    requires n <= 8
  {
    ((b as bv8) >> n) as byte
  }

  lemma AndTop(b: byte)
    ensures And(b, 0x80) == if b >= 128 then 128 else 0
    ensures And(b, 0x7F) == b % 128
    ensures And(ShiftRight(b, 7), 1) == b / 128
  {
  }

  lemma AndTopThree(b: byte)
    ensures And(b, 0xE0) == 0 <==> b < 32
  {
  }

  // ----- little-endian numbers

  const TWO_255: nat := 0x8000_0000_0000_0000_0000_0000_0000_0000_0000_0000_0000_0000_0000_0000_0000_0000
  const TWO_256: nat := 0x1_0000_0000_0000_0000_0000_0000_0000_0000_0000_0000_0000_0000_0000_0000_0000_0000
  const TWO_253: nat := 0x2000_0000_0000_0000_0000_0000_0000_0000_0000_0000_0000_0000_0000_0000_0000_0000
  const TWO_248: nat := 0x100_0000_0000_0000_0000_0000_0000_0000_0000_0000_0000_0000_0000_0000_0000_0000

  function Pow256(n: nat): (r: nat)
    ensures r >= 1
  {
    if n == 0 then 1 else 256 * Pow256(n - 1)
  }

  lemma Scale(a: int, b: int, c: int)
    ensures (a * b) * c == a * (b * c)
  {
  }

  lemma {:induction false} PowSplit(m: nat, n: nat)
    ensures Pow256(m + n) == Pow256(m) * Pow256(n)
  {
    if m == 0 {
    } else {
      PowSplit(m - 1, n);
      Scale(256, Pow256(m - 1), Pow256(n));
    }
  }

  lemma PowValues()
    ensures Pow256(32) == TWO_256 && Pow256(31) == TWO_248
  {
    assert Pow256(3) == 0x100_0000;
    assert Pow256(4) == 0x1_0000_0000;
    PowSplit(4, 3);
    PowSplit(4, 4);
    PowSplit(8, 7);
    PowSplit(8, 8);
    PowSplit(16, 15);
  }

  /** The number a byte string encodes, first byte least significant. */
  function LE(s: bytes): (n: nat)
  {
    if s == [] then 0 else s[0] + 256 * LE(s[1..])
  }

  /** The low `len` bytes of `n`, first byte least significant. */
  function ToLE(n: nat, len: nat): (s: bytes)
    ensures |s| == len
  {
    if len == 0 then [] else [n % 256] + ToLE(n / 256, len - 1)
  }

  lemma {:induction false} LEBound(s: bytes)
    ensures LE(s) < Pow256(|s|)
  {
    if s == [] {
    } else {
      LEBound(s[1..]);
    }
  }

  lemma {:induction false} LEAppend(a: bytes, b: bytes)
    ensures LE(a + b) == LE(a) + Pow256(|a|) * LE(b)
  {
    if a == [] {
      assert a + b == b;
    } else {
      LEAppend(a[1..], b);
      assert LE(a + b) == a[0] + 256 * LE(a[1..] + b) by {
        assert (a + b)[1..] == a[1..] + b;
      }
      Scale(256, Pow256(|a| - 1), LE(b));
    }
  }

  lemma {:induction false} LEToLE(n: nat, len: nat)
    requires n < Pow256(len)
    ensures LE(ToLE(n, len)) == n
  {
    if len == 0 {
    } else {
      LEToLE(n / 256, len - 1);
      assert ToLE(n, len)[1..] == ToLE(n / 256, len - 1);
    }
  }

  lemma {:induction false} ToLELE(s: bytes)
    ensures ToLE(LE(s), |s|) == s
  {
    if s == [] {
    } else {
      ToLELE(s[1..]);
      var n := LE(s[1..]);
      assert LE(s) == s[0] + 256 * n;
      assert LE(s) % 256 == s[0] && LE(s) / 256 == n;
      assert s == [s[0]] + s[1..];
    }
  }

  /** Equal lengths and equal numbers mean equal bytes. */
  lemma LEInjective(a: bytes, b: bytes)
    requires |a| == |b| && LE(a) == LE(b)
    ensures a == b
  {
    ToLELE(a);
    ToLELE(b);
  }

  lemma LEKey(k: xckey)
    ensures LE(k) < TWO_256
  {
    LEBound(k);
    PowValues();
  }

  lemma LEToKey(n: nat)
    requires n < TWO_256
    ensures LE(ToLE(n, 32)) == n
  {
    PowValues();
    LEToLE(n, 32);
  }

  lemma {:induction false} LEFilledFF(n: nat)
    ensures LE(Filled(n, 0xFF)) == Pow256(n) - 1
  {
    if n == 0 {
    } else {
      assert Filled(n, 0xFF)[1..] == Filled(n - 1, 0xFF);
      LEFilledFF(n - 1);
    }
  }

  lemma LEOne(b: byte)
    ensures LE([b]) == b
  {
    assert LE([b]) == b + 256 * LE([b][1..]);
  }

  /** The last byte is the most significant digit. */
  lemma TopDigit(a: bytes)
    requires |a| > 0
    ensures LE(a) == LE(a[..|a| - 1]) + Pow256(|a| - 1) * a[|a| - 1]
  {
    var n := |a|;
    assert a == a[..n - 1] + [a[n - 1]];
    LEAppend(a[..n - 1], [a[n - 1]]);
    LEOne(a[n - 1]);
  }

  /** In a 32-byte number it carries the top eight bits. */
  lemma TopByte(k: xckey)
    ensures LE(k) == LE(k[..31]) + TWO_248 * k[31]
    ensures LE(k[..31]) < TWO_248
  {
    TopDigit(k);
    LEBound(k[..31]);
    PowValues();
  }
}
