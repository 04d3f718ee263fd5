/**
 What the Montgomery-to-Edwards conversion does to the bytes of a key, and when the scalar
 (mod q) calls that src/algorithms.cpp makes in `u_to_y` agree with the field (mod p).
 */
module Conversion {
  import opened Bytes
  import opened Modular
  import opened Group
  import opened Birational
  import opened Edwards
  import CurveTransfer

  lemma FieldYBytes(m: nat, U: xckey)
    requires 0 < m <= TWO_255
    ensures UToY(m, U).Throw? <==> (LE(U) + 1) % m == 0
    ensures UToY(m, U).Value? ==> LE(UToY(m, U).value) == FieldY(m, LE(U))
  {
    LEToKey(FieldY(m, LE(U)));
  }

  /**
   `u_to_y` over any odd prime field: it fails exactly at -1, never yields 1, is undone by
   (1 + y) / (1 - y), and keeps distinct keys distinct.
   */
  lemma UToYBijective(m: nat, U: xckey, V: xckey)
    requires IsPrime(m) && m != 2 && m <= TWO_255 && LE(U) < m && LE(V) < m
    ensures UToY(m, U).Throw? <==> LE(U) == m - 1
    ensures UToY(m, U).Value? ==>
      LE(UToY(m, U).value) != 1 && FieldU(m, LE(UToY(m, U).value)) == LE(U)
    ensures UToY(m, U) == UToY(m, V) <==> U == V
  {
    FieldYBytes(m, U);
    FieldYBytes(m, V);
    PredMod(m, LE(U));
    PredMod(m, LE(V));
    if UToY(m, U).Value? {
      FieldYInvertible(m, LE(U));
      Small(LE(U), m);
    }
    if UToY(m, V).Value? {
      FieldYInvertible(m, LE(V));
      Small(LE(V), m);
    }
    if UToY(m, U) == UToY(m, V) {
      LEInjective(U, V);
    }
  }

  /**
   `convert_mont` on every 32 bytes, over any prime field below 2^255: with u the number
   below bit 255, it throws exactly when u + 1 vanishes, and otherwise gives the reduced y
   with (u + 1) y = u - 1 and a clear sign bit.
   */
  lemma ConvertMontExact(m: nat, U: xckey)
    requires IsPrime(m) && m <= TWO_255
    ensures var u := LE(U) % TWO_255;
      && (ConvertMont(m, U).Throw? <==> (u + 1) % m == 0)
      && (ConvertMont(m, U).Value? ==>
            var y := ConvertMont(m, U).value;
            !SignBit(y) && LE(y) < m && Cong((u + 1) * LE(y), u - 1, m))
  {
    SplitTopBit(U);
    FieldYBytes(m, YCoord(U));
    if (LE(YCoord(U)) + 1) % m != 0 {
      YCoordIdentity(UToY(m, YCoord(U)).value);
      FieldYSolves(m, LE(YCoord(U)));
    }
  }

  lemma PredMod(m: nat, u: nat)
    requires u < m
    ensures (u + 1) % m == 0 <==> u == m - 1
  {
    if u + 1 < m {
      Small(u + 1, m);
    }
  }

  /** The even one of x and -x. */
  function Even(m: nat, x: nat): (r: nat)
    requires m % 2 == 1 && x < m
    ensures r < m && r % 2 == 0 && (r == x || r == m - x)
  {
    if x % 2 == 0 then x else m - x
  }

  lemma EvenOnEdwards(m: nat, d: int, x: nat, r: nat, y: int)
    requires m > 0 && (r == x || r == m - x) && CurveTransfer.OnEdwards(m, d, x, y)
    ensures CurveTransfer.OnEdwards(m, d, r, y)
  {
    if r != x {
      EdwardsNegative(m, d, x, r, y);
    }
  }

  lemma EdwardsNegative(m: nat, d: int, x: int, r: int, y: int)
    requires m > 0 && r == m - x && CurveTransfer.OnEdwards(m, d, x, y)
    ensures CurveTransfer.OnEdwards(m, d, r, y)
  {
    var a, b, c := x * x, r * r, y * y;
    SquareOfNegative(m, x, r);
    EdwardsSquares(m, d, a, b, c);
  }

  lemma SquareOfNegative(m: nat, x: int, z: int)
    requires m > 0 && z == m - x
    ensures Cong(z * z, x * x, m)
  {
    CongFrom(z * z, x * x, m - 2 * x, m);
  }

  /** The curve equation depends on x only through its square. */
  lemma EdwardsSquares(m: nat, d: int, a: int, b: int, c: int)
    requires m > 0 && Cong(c - a, 1 + d * a * c, m) && Cong(b, a, m)
    ensures Cong(c - b, 1 + d * b * c, m)
  {
    var k := CongWitness(b, a, m);
    var l := CongWitness(c - a, 1 + d * a * c, m);
    var n := l - k - d * k * c;
    assert c - b == 1 + d * b * c + n * m;
    CongFrom(c - b, 1 + d * b * c, n, m);
  }

  /** Below 2^255 the masks of the conversion change nothing. */
  lemma ConvertedBytes(m: nat, U: xckey)
    requires 0 < m <= TWO_255 && LE(U) < m
    ensures ConvertMont(m, U).Throw? <==> (LE(U) + 1) % m == 0
    ensures ConvertMont(m, U).Value? ==>
      !SignBit(ConvertMont(m, U).value) && ConvertMont(m, U).value == ToLE(FieldY(m, LE(U)), 32)
    ensures LE(ToLE(FieldY(m, LE(U)), 32)) == FieldY(m, LE(U))
  {
    YCoordIdentity(U);
    LEToKey(FieldY(m, LE(U)));
    YCoordIdentity(ToLE(FieldY(m, LE(U)), 32));
  }

  /** A curve point with the converted y and even x, from the root that `Transfer` gives. */
  lemma EvenTransfer(m: nat, d: int, s: int, u: nat, v: int) returns (x: nat)
    requires IsPrime(m) && m % 2 == 1 && u < m && (u + 1) % m != 0
    requires Cong(121666 * d, -121665, m) && CurveTransfer.IsSquareRoot(m, s, -486664)
    requires CurveTransfer.NonSquare(m, 236839902240)
    requires CurveTransfer.OnMontgomery(m, u, v)
    ensures x < m && x % 2 == 0 && CurveTransfer.OnEdwards(m, d, x, FieldY(m, u))
    ensures x == ((s * u) * Inv(v, m)) % m || x == m - ((s * u) * Inv(v, m)) % m
  {
    CurveTransfer.Transfer(m, d, s, u, v);
    var r := ((s * u) * Inv(v, m)) % m;
    x := Even(m, r);
    EvenOnEdwards(m, d, r, x, FieldY(m, u));
  }

  /** The bytes of a converted key are the encoding of every even-x point with its y. */
  lemma ConvertedEncoding(m: nat, U: xckey, x: nat)
    requires IsPrime(m) && m % 2 == 1 && m <= TWO_255 && LE(U) < m && LE(U) != m - 1 && x % 2 == 0
    ensures ConvertMont(m, U).Value?
    ensures var y := ConvertMont(m, U).value;
      !SignBit(y) && LE(y) == FieldY(m, LE(U)) && LE(y) != 1 && Enc(Point(x, LE(y))) == y
  {
    PredMod(m, LE(U));
    ConvertedBytes(m, U);
    FieldYNotOne(m, LE(U));
    EncEven(Point(x, FieldY(m, LE(U))));
  }

  lemma FieldYNotOne(m: nat, u: nat)
    requires IsPrime(m) && m % 2 == 1 && u < m && (u + 1) % m != 0
    ensures FieldY(m, u) != 1
  {
    FieldYInvertible(m, u);
  }

  /**
   The converted key of a Montgomery point is the encoding of an Edwards point with even x,
   over any odd prime below 2^255.
   */
  lemma ConvertedOnCurve(m: nat, U: xckey, v: int, d: int, s: int) returns (x: nat)
    requires IsPrime(m) && m % 2 == 1 && m <= TWO_255 && LE(U) < m && LE(U) != m - 1
    requires Cong(121666 * d, -121665, m) && CurveTransfer.IsSquareRoot(m, s, -486664)
    requires CurveTransfer.NonSquare(m, 236839902240)
    requires CurveTransfer.OnMontgomery(m, LE(U), v)
    ensures ConvertMont(m, U).Value?
    ensures var y := ConvertMont(m, U).value;
      && !SignBit(y) && LE(y) < m && LE(y) != 1
      && x < m && x % 2 == 0 && CurveTransfer.OnEdwards(m, d, x, LE(y))
      && Enc(Point(x, LE(y))) == y
  {
    PredMod(m, LE(U));
    x := EvenTransfer(m, d, s, LE(U), v);
    ConvertedEncoding(m, U, x);
  }

  /**
   The scalar calls give the field's answer for exactly one key: u = 1. For every other key
   below p the result differs, or only one of the two throws.
   */
  lemma ScalarConversionAgrees(U: xckey)
    requires IsPrime(P) && IsPrime(Q) && LE(U) < P
    ensures UToY(Q, U) == UToY(P, U) <==> LE(U) == 1
  {
    FieldYBytes(P, U);
    FieldYBytes(Q, U);
    OneThrows(LE(U));
    if UToY(Q, U).Value? && UToY(P, U).Value? {
      SuccMod(LE(U));
      SameFieldY(LE(U));
    }
  }

  lemma OneThrows(u: nat)
    requires u < P
    ensures !((u + 1) % P == 0 && (u + 1) % Q == 0)
    ensures u == 1 ==> (u + 1) % P != 0 && (u + 1) % Q != 0
  {
    SuccMod(u);
  }

  lemma SameFieldY(u: nat)
    requires IsPrime(P) && IsPrime(Q) && u < P - 1 && (u + 1) % Q != 0
    ensures FieldY(P, u) == FieldY(Q, u) <==> u == 1
  {
    if u == 1 {
      FieldYAtOne(P);
      FieldYAtOne(Q);
    } else if FieldY(P, u) == FieldY(Q, u) {
      SuccMod(u);
      FieldYSolves(P, u);
      FieldYSolves(Q, u);
      var y := FieldY(P, u);
      var n := (u + 1) * y - (u - 1);
      var k := CoprimeProduct(n, P, Q);
      Bounds(u, y);
      SmallMultiple(n, k, P * Q);
      NoOtherSolution(u, y);
    }
  }

  lemma FieldYAtOne(m: nat)
    requires m > 0
    ensures FieldY(m, 1) == 0
  {
    assert (1 - 1) % m == 0;
  }

  lemma SmallMultiple(n: int, k: int, m: int)
    requires m > 0 && n == k * m && -m < n < m
    ensures n == 0
  {
    MultipleGap(k, m);
  }

  /** In the integers (u + 1) y = u - 1 has the one solution u = 1, y = 0. */
  lemma NoOtherSolution(u: nat, y: nat)
    requires (u + 1) * y == u - 1
    ensures u == 1
  {
    MultipleGap(y, u + 1);
  }

  lemma Bounds(u: nat, y: nat)
    requires u < P - 1 && y < Q
    ensures -(P * Q) < (u + 1) * y - (u - 1) < P * Q
  {
    assert (u + 1) * y >= 0;
    assert (u + 1) * y <= (u + 1) * (Q - 1) by {
      assert (u + 1) * (Q - 1 - y) >= 0;
    }
  }

  /** So the conversion as written names the signer's key only when u = 1. */
  lemma ScalarConvertMontAgrees(U: xckey)
    requires IsPrime(P) && IsPrime(Q) && LE(U) < P
    ensures ConvertMont(Q, U) == ConvertMont(P, U) <==> LE(U) == 1
  {
    YCoordIdentity(U);
    FieldYBytes(P, U);
    FieldYBytes(Q, U);
    if UToY(P, U).Value? {
      YCoordIdentity(UToY(P, U).value);
    }
    if UToY(Q, U).Value? {
      YCoordIdentity(UToY(Q, U).value);
    }
    ScalarConversionAgrees(U);
  }
}
