/**
 The map between the u coordinate of a Montgomery point and the y coordinate of an
 Edwards point, `y = (u - 1) / (u + 1)`, over any odd prime field
 (section 4.1 of RFC 7748, section 2.3 of XEdDSA).
 */
module Birational {
  import opened Modular

  /** `y = (u - 1) / (u + 1)` as `u_to_y` computes it: subtract, add, invert, multiply. */
  function FieldY(m: nat, u: nat): (y: nat)
    requires m > 0
    ensures y < m
  {
    var numerator := (u - 1) % m;
    var denominator := (u + 1) % m;
    (numerator * Inv(denominator, m)) % m
  }

  /** The inverse map `u = (1 + y) / (1 - y)`. */
  function FieldU(m: nat, y: nat): (u: nat)
    requires m > 0
    ensures u < m
  {
    ((1 + y) * Inv(1 - y, m)) % m
  }

  /** `a / b` computed with the inverse solves `b x = a`. */
  lemma Quotient(a: int, b: int, m: nat)
    requires IsPrime(m) && b % m != 0
    ensures Cong(b * ((a * Inv(b, m)) % m), a, m)
  {
    var i := Inv(b, m);
    InvCorrect(b, m);
    CongMod(a * i, m);
    CongFrom(b, b, 0, m);
    CongMul(b, b, (a * i) % m, a * i, m);
    CongFrom(a, a, 0, m);
    CongMul(b * i, 1, a, a, m);
    assert (b * i) * a == b * (a * i);
    CongTrans(b * ((a * i) % m), b * (a * i), a, m);
  }

  /** `y` and `u` belong together: `(u + 1) y = u - 1`. */
  ghost predicate Related(m: nat, u: nat, y: nat)
    requires m > 0
  {
    Cong((u + 1) * y, u - 1, m)
  }

  /** The equation solved for `y` and solved for `u` are the same one. */
  lemma SameEquation(m: nat, u: nat, y: nat)
    requires m > 0
    ensures Related(m, u, y) <==> Cong((1 - y) * u, 1 + y, m)
  {
    var a, b := (u + 1) * y - (u - 1), (1 - y) * u - (1 + y);
    assert (u + 1) * y == u * y + y && (1 - y) * u == u - u * y;
    assert a == -b;
    NegDivisible(a, m);
    NegDivisible(b, m);
  }

  lemma NegDivisible(a: int, m: nat)
    requires m > 0
    ensures a % m == 0 ==> (-a) % m == 0
  {
    var k := a / m;
    MultipleMod(-k, m);
    assert a % m == 0 ==> -a == (-k) * m;
  }

  lemma FieldYSolves(m: nat, u: nat)
    requires IsPrime(m) && (u + 1) % m != 0
    ensures Related(m, u, FieldY(m, u))
  {
    var n, d, y := (u - 1) % m, (u + 1) % m, FieldY(m, u);
    CongMod(u + 1, m);
    CongMod(u - 1, m);
    CongUnique(d, u + 1, m);
    Quotient(n, d, m);
    CongFrom(y, y, 0, m);
    CongMul(u + 1, d, y, y, m);
    CongTrans((u + 1) * y, d * y, n, m);
    CongTrans((u + 1) * y, n, u - 1, m);
  }

  lemma FieldUSolves(m: nat, y: nat)
    requires IsPrime(m) && (1 - y) % m != 0
    ensures Related(m, FieldU(m, y), y)
  {
    Quotient(1 + y, 1 - y, m);
    SameEquation(m, FieldU(m, y), y);
  }

  /** Related coordinates avoid the poles: `u` is never -1 and `y` never 1. */
  lemma Poles(m: nat, u: nat, y: nat)
    requires IsPrime(m) && m != 2 && Related(m, u, y)
    ensures (u + 1) % m != 0 && (1 - y) % m != 0
  {
    SameEquation(m, u, y);
    NoPole(m, u + 1, y, u - 1, 2);
    NoPole(m, 1 - y, u, 1 + y, 2);
  }

  /** In `a x = c`, if `a` vanishes then so do `c`, `a - c` and `a + c`. */
  lemma NoPole(m: nat, a: int, x: int, c: int, d: int)
    requires m > 0 && Cong(a * x, c, m) && (d == a - c || d == a + c)
    ensures a % m == 0 ==> d % m == 0
  {
    if a % m == 0 {
      CongFrom(x, x, 0, m);
      CongMul(a, 0, x, x, m);
      CongSymm(a * x, c, m);
      CongTrans(c, a * x, 0, m);
      CongAdd(a, 0, c, 0, m);
    }
  }

  /** Each coordinate determines the other. */
  lemma RelatedY(m: nat, u: nat, y: nat)
    requires IsPrime(m) && m != 2 && Related(m, u, y)
    ensures y % m == FieldY(m, u)
  {
    Poles(m, u, y);
    FieldYSolves(m, u);
    SolveUnique(u + 1, y, FieldY(m, u), u - 1, m);
    Small(FieldY(m, u), m);
  }

  lemma RelatedU(m: nat, u: nat, y: nat)
    requires IsPrime(m) && m != 2 && Related(m, u, y)
    ensures u % m == FieldU(m, y)
  {
    Poles(m, u, y);
    FieldUSolves(m, y);
    SameEquation(m, u, y);
    SameEquation(m, FieldU(m, y), y);
    SolveUnique(1 - y, u, FieldU(m, y), 1 + y, m);
    Small(FieldU(m, y), m);
  }

  /** For `u != -1`: `y` is never 1, and `(1 + y) / (1 - y)` gives `u` back. */
  lemma FieldYInvertible(m: nat, u: nat)
    requires IsPrime(m) && m != 2 && (u + 1) % m != 0
    ensures FieldY(m, u) != 1
    ensures FieldU(m, FieldY(m, u)) == u % m
  {
    FieldYSolves(m, u);
    Poles(m, u, FieldY(m, u));
    RelatedU(m, u, FieldY(m, u));
  }

  /** For `y != 1`: `u` is never -1, and `(u - 1) / (u + 1)` gives `y` back. */
  lemma FieldUInvertible(m: nat, y: nat)
    requires IsPrime(m) && m != 2 && y < m && y != 1
    ensures (FieldU(m, y) + 1) % m != 0
    ensures FieldY(m, FieldU(m, y)) == y
  {
    NotOne(m, y);
    FieldUSolves(m, y);
    Poles(m, FieldU(m, y), y);
    RelatedY(m, FieldU(m, y), y);
    Small(y, m);
  }

  lemma NotOne(m: nat, y: nat)
    requires m > 1 && y < m && y != 1
    ensures (1 - y) % m != 0
  {
    if (1 - y) % m == 0 {
      MultipleGap((1 - y) / m, m);
    }
  }

  lemma Small(u: nat, m: nat)
    requires u < m
    ensures u % m == u
  {
  }
}
