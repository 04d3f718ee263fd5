/**
 Where the converted coordinate lands: `u_to_y` carries points of Curve25519 to points of
 edwards25519 (section 4.1 of RFC 7748).
 */
module CurveTransfer {
  import opened Modular
  import opened Birational

  /** v^2 = u^3 + 486662 u^2 + u */
  ghost predicate OnMontgomery(p: nat, u: int, v: int)
    requires p > 0
  {
    Cong(v * v, u * (u * u + 486662 * u + 1), p)
  }

  /** -x^2 + y^2 = 1 + d x^2 y^2 with d = -121665/121666 */
  ghost predicate OnEdwards(p: nat, d: int, x: int, y: int)
    requires p > 0
  {
    && Cong(121666 * d, -121665, p)
    && Cong(y * y - x * x, 1 + d * (x * x) * (y * y), p)
  }

  lemma Refl(a: int, m: nat)
    requires m > 0
    ensures Cong(a, a, m)
  {
    CongFrom(a, a, 0, m);
  }

  lemma ScaleCong(c: int, a: int, b: int, m: nat)
    requires m > 0 && Cong(a, b, m)
    ensures Cong(c * a, c * b, m)
  {
    Refl(c, m);
    CongMul(c, c, a, b, m);
  }

  /** The squares of the transferred coordinates, cleared of denominators. */
  lemma ClearedSquares(p: nat, s: int, u: nat, v: int, x: int, y: int)
    requires p > 0 && Cong(s * s, -486664, p)
    requires Cong(v * x, s * u, p) && Cong((u + 1) * y, u - 1, p)
    ensures Cong((v * v) * (x * x), -486664 * (u * u), p)
    ensures Cong(((u + 1) * (u + 1)) * (y * y), (u - 1) * (u - 1), p)
  {
    CongMul(v * x, s * u, v * x, s * u, p);
    assert (v * x) * (v * x) == (v * v) * (x * x) by { SquareProduct(v, x); }
    assert (s * u) * (s * u) == (s * s) * (u * u) by { SquareProduct(s, u); }
    Refl(u * u, p);
    CongMul(s * s, -486664, u * u, u * u, p);
    CongTrans((v * v) * (x * x), (s * s) * (u * u), -486664 * (u * u), p);
    CongMul((u + 1) * y, u - 1, (u + 1) * y, u - 1, p);
    assert ((u + 1) * y) * ((u + 1) * y) == ((u + 1) * (u + 1)) * (y * y) by { SquareProduct(u + 1, y); }
  }

  lemma SquareProduct(a: int, b: int)
    ensures (a * b) * (a * b) == (a * a) * (b * b)
  {
    assert (a * b) * (a * b) == a * (b * (a * b));
    assert b * (a * b) == a * (b * b);
  }

  /**
   With `c = v^2`, `e = (u+1)^2`, `X = x^2`, `Y = y^2`: the Edwards equation multiplied by
   `c e` follows from the cleared squares and the Montgomery equation.
   */
  lemma ClearedEquation(p: nat, d: int, u: nat, c: int, e: int, X: int, Y: int)
    requires p > 0 && Cong(121666 * d, -121665, p)
    requires e == (u + 1) * (u + 1)
    requires Cong(c, u * (u * u + 486662 * u + 1), p)
    requires Cong(c * X, -486664 * (u * u), p)
    requires Cong(e * Y, (u - 1) * (u - 1), p)
    ensures Cong(c * (e * Y) - e * (c * X), c * e + (d * (c * X)) * (e * Y), p)
  {
    var g, w := u * u + 486662 * u + 1, (u - 1) * (u - 1);
    var t := u * u;
    // the left-hand side
    CongMul(c, u * g, e * Y, w, p);
    ScaleCong(e, c * X, -486664 * t, p);
    CongAdd(c * (e * Y), (u * g) * w, e * (c * X), e * (-486664 * t), p);
    // the right-hand side
    ScaleCong(d, c * X, -486664 * t, p);
    Refl(-4 * t, p);
    CongMul(121666 * d, -121665, -4 * t, -4 * t, p);
    assert (121666 * d) * (-4 * t) == d * (-486664 * t);
    assert (-121665) * (-4 * t) == 486660 * t;
    CongTrans(d * (c * X), d * (-486664 * t), 486660 * t, p);
    CongMul(d * (c * X), 486660 * t, e * Y, w, p);
    Refl(e, p);
    CongMul(c, u * g, e, e, p);
    CongAdd(c * e, (u * g) * e, (d * (c * X)) * (e * Y), (486660 * t) * w, p);
    // both are the same polynomial in u
    PolynomialIdentity(u);
    var l, r := c * (e * Y) - e * (c * X), c * e + (d * (c * X)) * (e * Y);
    CongSymm(r, (u * g) * e + (486660 * t) * w, p);
    CongTrans(l, (u * g) * w - e * (-486664 * t), r, p);
  }

  lemma PolynomialIdentity(u: int)
    ensures var g, w, e, t := u * u + 486662 * u + 1, (u - 1) * (u - 1), (u + 1) * (u + 1), u * u;
      (u * g) * w - e * (-486664 * t) == (u * g) * e + (486660 * t) * w
  {
    var g, w, e, t := u * u + 486662 * u + 1, (u - 1) * (u - 1), (u + 1) * (u + 1), u * u;
    assert w == t - 2 * u + 1 && e == t + 2 * u + 1;
    assert (u * g) * w - (u * g) * e == (u * g) * (w - e) == (u * g) * (-4 * u);
    assert (u * g) * (-4 * u) == -4 * (t * g) by {
      assert (u * g) * u == t * g;
    }
    assert e * (-486664 * t) == -486664 * (t * e);
    assert (486660 * t) * w == 486660 * (t * w);
    assert t * w == t * t - 2 * (t * u) + t;
    assert t * e == t * t + 2 * (t * u) + t;
    assert t * g == t * t + 486662 * (t * u) + t;
  }

  /** The curve equation with the factor `c e` taken out. */
  lemma Factor(d: int, c: int, e: int, X: int, Y: int)
    ensures c * (e * Y) - e * (c * X) == (c * e) * (Y - X)
    ensures c * e + (d * (c * X)) * (e * Y) == (c * e) * (1 + d * X * Y)
  {
    var k := c * e;
    assert c * (e * Y) == k * Y && e * (c * X) == k * X;
    assert (d * (c * X)) * (e * Y) == k * (d * X * Y) by {
      assert d * (c * X) == c * (d * X);
      assert (c * (d * X)) * (e * Y) == c * ((d * X) * (e * Y));
      assert (d * X) * (e * Y) == e * (d * X * Y);
    }
  }

  /** Points with `v` invertible. */
  lemma TransferSlanted(p: nat, d: int, s: int, u: nat, v: int)
    requires IsPrime(p) && p != 2 && (u + 1) % p != 0
    requires Cong(121666 * d, -121665, p) && Cong(s * s, -486664, p)
    requires OnMontgomery(p, u, v) && v % p != 0
    ensures OnEdwards(p, d, ((s * u) * Inv(v, p)) % p, FieldY(p, u))
  {
    var x, y := ((s * u) * Inv(v, p)) % p, FieldY(p, u);
    Quotient(s * u, v, p);
    FieldYSolves(p, u);
    ClearedSquares(p, s, u, v, x, y);
    var c, e := v * v, (u + 1) * (u + 1);
    ClearedEquation(p, d, u, c, e, x * x, y * y);
    Factor(d, c, e, x * x, y * y);
    ProductNonZero(v, v, p);
    ProductNonZero(u + 1, u + 1, p);
    ProductNonZero(c, e, p);
    Cancel(c * e, y * y - x * x, 1 + d * (x * x) * (y * y), p);
  }

  /** The one remaining point, `u = v = 0`, goes to `(0, -1)`. */
  lemma TransferZero(p: nat, d: int)
    requires IsPrime(p) && p != 2 && Cong(121666 * d, -121665, p)
    ensures FieldY(p, 0) == p - 1
    ensures OnEdwards(p, d, 0, FieldY(p, 0))
  {
    CongFrom((0 + 1) * (p - 1), 0 - 1, 1, p);
    RelatedY(p, 0, p - 1);
    Small(p - 1, p);
    assert (p - 1) * (p - 1) == 1 + (p - 2) * p;
    CongFrom((p - 1) * (p - 1) - 0 * 0, 1 + d * (0 * 0) * ((p - 1) * (p - 1)), p - 2, p) by {
      assert d * (0 * 0) == 0;
    }
  }

  ghost predicate IsSquareRoot(p: nat, w: int, n: int)
    requires p > 0
  {
    Cong(w * w, n, p)
  }

  ghost predicate NonSquare(p: nat, n: int)
    requires p > 0
  {
    forall w: int :: !IsSquareRoot(p, w, n)
  }

  /** A point with `v = 0` other than `u = 0` exhibits a square root of
   236839902240 = 486662^2 - 4. */
  lemma VerticalNeedsRoot(p: nat, u: nat, v: int)
    requires IsPrime(p) && OnMontgomery(p, u, v) && v % p == 0 && u % p != 0
    ensures !NonSquare(p, 236839902240)
  {
    var g := u * u + 486662 * u + 1;
    CongUnique(v, 0, p);
    CongMul(v, 0, v, 0, p);
    CongSymm(v * v, u * g, p);
    CongTrans(u * g, v * v, u * 0, p);
    Cancel(u, g, 0, p);
    ScaleCong(4, g, 0, p);
    var w := 2 * u + 486662;
    assert w * w - 236839902240 == 4 * g;
    assert IsSquareRoot(p, w, 236839902240);
  }

  /**
   For every Montgomery point other than `u = -1` and every root `s` of -486664, the point
   `(s u / v, u_to_y(u))` is on the Edwards curve. The hypothesis that 486662^2 - 4 is not
   a square is how Curve25519 was chosen.
   */
  lemma Transfer(p: nat, d: int, s: int, u: nat, v: int)
    requires IsPrime(p) && p != 2 && u < p && (u + 1) % p != 0
    requires Cong(121666 * d, -121665, p) && IsSquareRoot(p, s, -486664)
    requires NonSquare(p, 236839902240)
    requires OnMontgomery(p, u, v)
    ensures OnEdwards(p, d, ((s * u) * Inv(v, p)) % p, FieldY(p, u))
  {
    if v % p != 0 {
      TransferSlanted(p, d, s, u, v);
    } else if u == 0 {
      TransferZero(p, d);
    } else {
      Small(u, p);
      VerticalNeedsRoot(p, u, v);
    }
  }
}
