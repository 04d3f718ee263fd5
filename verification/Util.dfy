/** The byte plumbing of src/util.hpp: offset-driven copies into fixed buffers. */
module Util {
  import opened Bytes
  import opened Outcomes

  // ----- what the copies compute

  /** All arguments one after the other. */
  function Flatten(ks: seq<bytes>): bytes {
    if ks == [] then [] else ks[0] + Flatten(ks[1..])
  }

  /** Where argument `i` starts: the sum of the sizes before it. */
  function Offset(ks: seq<bytes>, i: nat): (o: nat)
    requires i <= |ks|
  {
    if i == 0 then 0 else |ks[0]| + Offset(ks[1..], i - 1)
  }

  lemma {:induction false} FlattenAppend(xs: seq<bytes>, ys: seq<bytes>)
    ensures Flatten(xs + ys) == Flatten(xs) + Flatten(ys)
  {
    if xs == [] {
      assert xs + ys == ys;
    } else {
      FlattenAppend(xs[1..], ys);
      assert (xs + ys)[1..] == xs[1..] + ys;
      Regroup(xs[0], Flatten(xs[1..]), Flatten(ys));
    }
  }

  lemma Regroup(a: bytes, b: bytes, c: bytes)
    ensures a + (b + c) == (a + b) + c
  {
  }

  lemma FlattenTwo(a: bytes, b: bytes)
    ensures Flatten([b]) == b && Flatten([a, b]) == a + b
  {
    assert [b][1..] == [] && [a, b][1..] == [b];
  }

  lemma FlattenThree(a: bytes, b: bytes, c: bytes)
    ensures Flatten([a, b, c]) == a + b + c
  {
    FlattenTwo(b, c);
    assert [a, b, c][1..] == [b, c];
  }

  lemma {:induction false} FlattenSize(ks: seq<bytes>)
    ensures |Flatten(ks)| == Offset(ks, |ks|)
  {
    if ks == [] {
    } else {
      FlattenSize(ks[1..]);
    }
  }

  /** Copying `|ks[i]|` bytes back from offset `i` returns exactly argument `i`. */
  lemma {:induction false} FlattenSlice(ks: seq<bytes>, i: nat)
    requires i < |ks|
    ensures Offset(ks, i) + |ks[i]| <= |Flatten(ks)|
    ensures Flatten(ks)[Offset(ks, i)..Offset(ks, i) + |ks[i]|] == ks[i]
  {
    var rest := Flatten(ks[1..]);
    if i == 0 {
    } else {
      FlattenSlice(ks[1..], i - 1);
      var o := Offset(ks[1..], i - 1);
      var n := |ks[i]|;
      assert Flatten(ks)[|ks[0]| + o..|ks[0]| + o + n] == rest[o..o + n];
    }
  }

  lemma {:induction false} OffsetStep(ks: seq<bytes>, i: nat)
    requires i < |ks|
    ensures Offset(ks, i + 1) == Offset(ks, i) + |ks[i]|
    ensures Flatten(ks[..i + 1]) == Flatten(ks[..i]) + ks[i]
    ensures Offset(ks, i) == |Flatten(ks[..i])|
  {
    assert ks[..i + 1] == ks[..i] + [ks[i]];
    FlattenAppend(ks[..i], [ks[i]]);
    assert Flatten([ks[i]]) == ks[i] + Flatten([ks[i]][1..]);
    if i > 0 {
      OffsetStep(ks[1..], i - 1);
      assert ks[1..][..i - 1] == ks[..i][1..];
    }
  }

  lemma {:induction false} OffsetMonotone(ks: seq<bytes>, i: nat)
    requires i <= |ks|
    ensures Offset(ks, i) <= Offset(ks, |ks|)
  {
    if i == 0 {
    } else {
      OffsetMonotone(ks[1..], i - 1);
    }
  }

  /** The arguments of the same sizes are determined by their concatenation. */
  lemma {:induction false} FlattenInjective(xs: seq<bytes>, ys: seq<bytes>)
    requires |xs| == |ys| && forall i :: 0 <= i < |xs| ==> |xs[i]| == |ys[i]|
    requires Flatten(xs) == Flatten(ys)
    ensures xs == ys
  {
    if xs == [] {
    } else {
      assert Flatten(xs)[..|xs[0]|] == xs[0] && Flatten(ys)[..|ys[0]|] == ys[0];
      assert Flatten(xs)[|xs[0]|..] == Flatten(xs[1..]);
      assert Flatten(ys)[|ys[0]|..] == Flatten(ys[1..]);
      FlattenInjective(xs[1..], ys[1..]);
      assert xs == [xs[0]] + xs[1..] && ys == [ys[0]] + ys[1..];
    }
  }

  /** The blob read by `load_keyb_s`: the key bytes and what is left in the buffer. */
  function LoadS(buf: bytes, n: nat, offset: nat): Option<(bytes, bytes)> {
    if n + offset > |buf| then None else Some((buf[offset..offset + n], Zeros(n) + buf[n..]))
  }

  /**
   A second load returns what the original buffer held exactly when the part of its
   range that the first load wiped was zero already.
   */
  lemma SecondLoad(buf: bytes, n1: nat, o1: nat, n2: nat, o2: nat)
    requires n1 + o1 <= |buf| && n2 + o2 <= |buf|
    ensures LoadS(LoadS(buf, n1, o1).value.1, n2, o2).Some?
    ensures LoadS(LoadS(buf, n1, o1).value.1, n2, o2).value.0 == buf[o2..o2 + n2]
       <==> forall i :: o2 <= i < o2 + n2 && i < n1 ==> buf[i] == 0
  {
    var wiped := LoadS(buf, n1, o1).value.1;
    assert |wiped| == |buf|;
    assert forall i :: 0 <= i < |buf| ==> wiped[i] == if i < n1 then 0 else buf[i];
    var got := wiped[o2..o2 + n2];
    if got == buf[o2..o2 + n2] {
      forall i | o2 <= i < o2 + n2 && i < n1
        ensures buf[i] == 0
      {
        assert got[i - o2] == buf[o2..o2 + n2][i - o2];
      }
    }
  }

  /** The two loads of a `Public || Private` blob, at 0 and at the public size. */
  lemma LoadPair(pub: bytes, priv: bytes)
    ensures LoadS(pub + priv, |pub|, 0) == Some((pub, Zeros(|pub|) + priv))
    ensures LoadS(Zeros(|pub|) + priv, |priv|, |pub|).Some?
    ensures LoadS(Zeros(|pub|) + priv, |priv|, |pub|).value.0 == priv
    ensures LoadS(pub + priv, |priv|, |pub|).Some?
    ensures LoadS(pub + priv, |priv|, |pub|).value.0 == priv
  {
    assert (pub + priv)[0..|pub|] == pub && (pub + priv)[|pub|..] == priv;
    assert (pub + priv)[|pub|..|pub| + |priv|] == priv;
  }

  // ----- buffers

  function Views(keys: seq<array<byte>>): seq<bytes>
    reads keys
  {
    seq(|keys|, i requires 0 <= i < |keys| reads keys => keys[i][..])
  }

  /** A freshly filled buffer. */
  method FromBytes(s: bytes) returns (a: array<byte>)
    ensures fresh(a) && a.Length == |s| && a[..] == s
  {
    a := new byte[|s|](i requires 0 <= i < |s| => s[i]);
  }

  /** Overwrites a whole buffer, as the library calls do through their out-pointers. */
  method Store(dst: array<byte>, s: bytes)
    requires dst.Length == |s|
    modifies dst
    ensures dst[..] == s
  {
    for i := 0 to |s|
      invariant dst[..i] == s[..i]
    {
      dst[i] := s[i];
    }
  }

  /** `std::memcpy` between distinct buffers. */
  method Memcpy(dst: array<byte>, at: nat, src: array<byte>, from: nat, n: nat)
    requires dst != src
    requires at + n <= dst.Length && from + n <= src.Length
    modifies dst
    ensures dst[..] == old(dst[..at]) + src[from..from + n] + old(dst[at + n..])
  {
    for i := 0 to n
      invariant forall k :: at <= k < at + i ==> dst[k] == src[from + (k - at)]
      invariant forall k :: 0 <= k < dst.Length && !(at <= k < at + i) ==> dst[k] == old(dst[k])
    {
      dst[at + i] := src[from + i];
    }
  }

  /** The variadic `kconcat`: a fold of copies that advances `offset`. */
  method KConcat(keys: seq<array<byte>>) returns (out: array<byte>)
    ensures fresh(out) && out[..] == Flatten(Views(keys))
  {
    ghost var ks := Views(keys);
    FlattenSize(ks);
    var size := 0;
    for i := 0 to |keys|
      invariant size == Offset(ks, i)
    {
      OffsetStep(ks, i);
      size := size + keys[i].Length;
    }
    out := new byte[size](_ => 0);
    var offset := 0;
    for i := 0 to |keys|
      invariant fresh(out) && out.Length == size && offset == Offset(ks, i) <= size
      invariant Views(keys) == ks
      invariant out[..offset] == Flatten(ks[..i])
    {
      OffsetStep(ks, i);
      OffsetMonotone(ks, i + 1);
      assert keys[i][..] == ks[i];
      Memcpy(out, offset, keys[i], 0, keys[i].Length);
      assert out[..offset + |ks[i]|] == Flatten(ks[..i]) + ks[i];
      offset := offset + keys[i].Length;
    }
    assert ks[..|keys|] == ks;
    assert out[..offset] == out[..];
  }

  /** The binary `kconcat` of two keys of any sizes. */
  method KConcat2(k1: array<byte>, k2: array<byte>) returns (out: array<byte>)
    ensures fresh(out) && out[..] == k1[..] + k2[..]
  {
    out := new byte[k1.Length + k2.Length](_ => 0);
    Memcpy(out, 0, k1, 0, k1.Length);
    Memcpy(out, k1.Length, k2, 0, k2.Length);
  }

  /** The variadic form applied to three keys. */
  method KConcat3(k1: array<byte>, k2: array<byte>, k3: array<byte>) returns (out: array<byte>)
    ensures fresh(out) && out[..] == k1[..] + k2[..] + k3[..]
  {
    out := KConcat([k1, k2, k3]);
    assert Views([k1, k2, k3]) == [k1[..], k2[..], k3[..]];
    FlattenThree(k1[..], k2[..], k3[..]);
  }

  /** `kcpy` of `take` bytes from `offset`. */
  method KCpy(k: array<byte>, take: nat, offset: nat) returns (out: array<byte>)
    requires offset + take <= k.Length
    ensures fresh(out) && out[..] == k[offset..offset + take]
  {
    out := new byte[take](_ => 0);
    Memcpy(out, 0, k, offset, take);
  }

  /** Nesting the binary form to the right gives what the variadic form gives. */
  method NestedConcat(keys: seq<array<byte>>) returns (out: array<byte>)
    requires |keys| > 0
    ensures fresh(out) && out[..] == Flatten(Views(keys))
  {
    if |keys| == 1 {
      assert Views(keys) == [keys[0][..]];
      assert Flatten(Views(keys)) == keys[0][..] + Flatten(Views(keys)[1..]);
      out := KCpy(keys[0], keys[0].Length, 0);
    } else {
      var rest := NestedConcat(keys[1..]);
      assert Views(keys)[1..] == Views(keys[1..]);
      out := KConcat2(keys[0], rest);
    }
  }

  /** `key_bytes`: the concatenation, in a buffer the caller owns. */
  method KeyBytes(keys: seq<array<byte>>) returns (out: array<byte>)
    ensures fresh(out) && out[..] == Flatten(Views(keys))
  {
    out := KConcat(keys);
  }

  // ----- load_keyb: the range check is made in size_t arithmetic

  const SIZE_T: nat := 0x1_0000_0000_0000_0000

  /** The comparison `_Size + offset > bytes.size()` answered "in range". */
  predicate CheckPasses(n: nat, offset: nat, size: nat) {
    (n + offset) % SIZE_T <= size
  }

  /** The comparison is wrong exactly when the sum wraps around and then fits. */
  lemma CheckExact(n: nat, offset: nat, size: nat)
    requires n < SIZE_T && offset < SIZE_T && size < SIZE_T
    ensures (CheckPasses(n, offset, size) <==> n + offset <= size)
       <==> n + offset < SIZE_T || n + offset - SIZE_T > size
  {
    assert n + offset >= SIZE_T ==> (n + offset) % SIZE_T == n + offset - SIZE_T;
  }

  /** And it is: the offset that wraps the sum to 0 passes for every buffer, the empty one too. */
  lemma CheckFails(n: nat, size: nat)
    requires 0 < n < SIZE_T && size < SIZE_T
    ensures CheckPasses(n, SIZE_T - n, size) && n + (SIZE_T - n) > size
  {
  }

  /** `OutOfBounds` is a copy that runs past the buffer: no result is defined for it. */
  datatype LoadResult = Loaded | Refused | OutOfBounds

  function LoadOutcome(n: nat, offset: nat, size: nat): (r: LoadResult)
    ensures r == Loaded <==> n + offset <= size
    ensures r == OutOfBounds <==> CheckPasses(n, offset, size) && n + offset > size
  {
    if (n + offset) % SIZE_T > size then Refused
    else if n + offset <= size then Loaded
    else OutOfBounds
  }

  method LoadKeyB(buf: array<byte>, ref: array<byte>, offset: nat) returns (r: LoadResult)
    requires buf != ref
    modifies ref
    ensures r == LoadOutcome(ref.Length, offset, buf.Length)
    ensures ref[..] == if r == Loaded then buf[offset..offset + ref.Length] else old(ref[..])
  {
    if (ref.Length + offset) % SIZE_T > buf.Length {
      return Refused;
    }
    if offset + ref.Length > buf.Length {
      return OutOfBounds;
    }
    Memcpy(ref, 0, buf, offset, ref.Length);
    return Loaded;
  }

  /** Loads, then zeroes as many bytes from the start of the buffer. */
  method LoadKeyBS(buf: array<byte>, ref: array<byte>, offset: nat) returns (r: LoadResult)
    requires buf != ref
    modifies ref, buf
    ensures r == LoadOutcome(ref.Length, offset, buf.Length)
    ensures r == Loaded <==> LoadS(old(buf[..]), ref.Length, offset).Some?
    ensures r == Loaded ==> (ref[..], buf[..]) == LoadS(old(buf[..]), ref.Length, offset).value
    ensures r != Loaded ==> ref[..] == old(ref[..]) && buf[..] == old(buf[..])
  {
    r := LoadKeyB(buf, ref, offset);
    if r == Loaded {
      var zeros := new byte[ref.Length](_ => 0);
      assert zeros[0..ref.Length] == Zeros(ref.Length);
      Memcpy(buf, 0, zeros, 0, ref.Length);
      assert buf[..] == Zeros(ref.Length) + old(buf[ref.Length..]);
      assert old(buf[..])[ref.Length..] == old(buf[ref.Length..]);
      assert old(buf[..])[offset..offset + ref.Length] == old(buf[offset..offset + ref.Length]);
    }
  }

  /** A stored key pair comes back whole, although the first load wipes its own half. */
  method BlobRoundTrip(pub: array<byte>, priv: array<byte>)
    returns (pub2: array<byte>, priv2: array<byte>, ok: bool)
    ensures ok && pub2[..] == pub[..] && priv2[..] == priv[..]
  {
    var blob := KeyBytes([pub, priv]);
    assert Views([pub, priv]) == [pub[..], priv[..]];
    FlattenTwo(pub[..], priv[..]);
    LoadPair(pub[..], priv[..]);
    pub2, priv2 := new byte[pub.Length](_ => 0), new byte[priv.Length](_ => 0);
    var first := LoadKeyBS(blob, pub2, 0);
    var second := LoadKeyBS(blob, priv2, pub.Length);
    ok := first == second == Loaded;
  }
}
