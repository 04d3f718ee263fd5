/** Arithmetic modulo a prime: congruences, Bezout coefficients and the inverse they give. */
module Modular {

  ghost predicate Cong(a: int, b: int, m: int)
    requires m > 0
  {
    (a - b) % m == 0
  }

  /** A nonzero multiple of `m` is at least `m` away from zero. */
  lemma MultipleGap(k: int, m: int)
    ensures m > 0 && k >= 1 ==> k * m >= m
    ensures m > 0 && k <= -1 ==> k * m <= -m
  {
  }

  lemma MultipleMod(k: int, m: int)
    requires m > 0
    ensures (k * m) % m == 0
  {
    var r, q := (k * m) % m, (k * m) / m;
    assert k * m == q * m + r;
    assert (k - q) * m == r;
    MultipleGap(k - q, m);
  }

  lemma CongFrom(a: int, b: int, k: int, m: int)
    requires m > 0 && a == b + k * m
    ensures Cong(a, b, m)
  {
    MultipleMod(k, m);
  }

  lemma CongWitness(a: int, b: int, m: int) returns (k: int)
    requires m > 0 && Cong(a, b, m)
    ensures a == b + k * m
  {
    k := (a - b) / m;
  }

  lemma CongSymm(a: int, b: int, m: int)
    requires m > 0 && Cong(a, b, m)
    ensures Cong(b, a, m)
  {
    var k := CongWitness(a, b, m);
    CongFrom(b, a, -k, m);
  }

  lemma CongTrans(a: int, b: int, c: int, m: int)
    requires m > 0 && Cong(a, b, m) && Cong(b, c, m)
    ensures Cong(a, c, m)
  {
    var k := CongWitness(a, b, m);
    var l := CongWitness(b, c, m);
    assert a == c + (k + l) * m;
    CongFrom(a, c, k + l, m);
  }

  lemma CongAdd(a: int, b: int, c: int, d: int, m: int)
    requires m > 0 && Cong(a, b, m) && Cong(c, d, m)
    ensures Cong(a + c, b + d, m) && Cong(a - c, b - d, m)
  {
    var k := CongWitness(a, b, m);
    var l := CongWitness(c, d, m);
    assert a + c == b + d + (k + l) * m;
    assert a - c == b - d + (k - l) * m;
    CongFrom(a + c, b + d, k + l, m);
    CongFrom(a - c, b - d, k - l, m);
  }

  lemma CongMul(a: int, b: int, c: int, d: int, m: int)
    requires m > 0 && Cong(a, b, m) && Cong(c, d, m)
    ensures Cong(a * c, b * d, m)
  {
    var k := CongWitness(a, b, m);
    var l := CongWitness(c, d, m);
    calc {
      a * c;
      (b + k * m) * c;
      b * c + (k * m) * c;
      { assert (k * m) * c == (k * c) * m; }
      b * c + (k * c) * m;
      b * (d + l * m) + (k * c) * m;
      { assert b * (d + l * m) == b * d + (b * l) * m; }
      b * d + (b * l) * m + (k * c) * m;
      { assert (b * l) * m + (k * c) * m == (b * l + k * c) * m; }
      b * d + (b * l + k * c) * m;
    }
    CongFrom(a * c, b * d, b * l + k * c, m);
  }

  lemma CongMod(a: int, m: int)
    requires m > 0
    ensures Cong(a % m, a, m) && Cong(a, a % m, m)
  {
    CongFrom(a, a % m, a / m, m);
    CongSymm(a, a % m, m);
  }

  /** Congruent numbers have the same remainder. */
  lemma CongUnique(a: int, b: int, m: int)
    requires m > 0
    ensures Cong(a, b, m) <==> a % m == b % m
  {
    if Cong(a, b, m) {
      var k := CongWitness(a, b, m);
      var l := k + b / m - a / m;
      assert (b / m) * m + k * m - (a / m) * m == l * m;
      assert a % m - b % m == l * m;
      MultipleGap(l, m);
    } else if a % m == b % m {
      assert (a / m) * m - (b / m) * m == (a / m - b / m) * m;
      CongFrom(a, b, a / m - b / m, m);
    }
  }

  // ----- primes and inverses

  predicate Divides(d: int, n: int)
    requires d > 0
  {
    n % d == 0
  }

  ghost predicate IsPrime(p: int) {
    p >= 2 && forall d :: 2 <= d < p ==> !Divides(d, p)
  }

  /** Extended Euclid. */
  function Bezout(a: nat, b: nat): (nat, int, int)
    decreases b
  {
    if b == 0 then (a, 1, 0)
    else
      var (g, s, t) := Bezout(b, a % b);
      (g, t, s - (a / b) * t)
  }

  lemma {:induction false} BezoutIdentity(a: nat, b: nat)
    ensures var (g, s, t) := Bezout(a, b); g == s * a + t * b
    decreases b
  {
    if b == 0 {
    } else {
      BezoutIdentity(b, a % b);
      var (g, s, t) := Bezout(b, a % b);
      BezoutStep(a, b, s, t);
    }
  }

  lemma BezoutStep(a: int, b: int, s: int, t: int)
    requires b > 0
    ensures s * b + t * (a % b) == t * a + (s - (a / b) * t) * b
  {
    var d := a / b;
    assert a % b == a - d * b;
    assert t * (a - d * b) == t * a - (d * t) * b;
    assert (s - d * t) * b == s * b - (d * t) * b;
  }

  lemma DividesRemainder(a: int, b: int, g: int)
    requires g > 0 && b > 0 && Divides(g, b) && Divides(g, a % b)
    ensures Divides(g, a)
  {
    var x := CongWitness(b, 0, g);
    var y := CongWitness(a % b, 0, g);
    var d := a / b;
    calc {
      a;
      d * b + a % b;
      d * (x * g) + y * g;
      { assert d * (x * g) == (d * x) * g; }
      (d * x) * g + y * g;
      (d * x + y) * g;
    }
    MultipleMod(d * x + y, g);
  }

  lemma {:induction false} BezoutDivides(a: nat, b: nat)
    requires a > 0 || b > 0
    ensures Bezout(a, b).0 > 0
    ensures Divides(Bezout(a, b).0, a) && Divides(Bezout(a, b).0, b)
    decreases b
  {
    if b == 0 {
    } else {
      BezoutDivides(b, a % b);
      DividesRemainder(a, b, Bezout(b, a % b).0);
    }
  }

  /** The inverse of `a` modulo `m`, zero when `a` is a multiple of `m`. */
  function Inv(a: int, m: nat): (i: nat)
    requires m > 0
    ensures i < m
  {
    if a % m == 0 then 0 else Bezout(a % m, m).1 % m
  }

  lemma InvCorrect(a: int, p: nat)
    requires IsPrime(p) && a % p != 0
    ensures Cong(a * Inv(a, p), 1, p)
  {
    var b := a % p;
    var (g, s, t) := Bezout(b, p);
    BezoutIdentity(b, p);
    BezoutDivides(b, p);
    assert g <= b by {
      var k := CongWitness(b, 0, g);
      MultipleGap(k, g);
    }
    assert g == 1;
    CongFrom(b * s, 1, -t, p) by {
      assert b * s == s * b && (-t) * p == -(t * p);
    }
    CongMod(s, p);
    CongMod(a, p);
    CongMul(a, b, Inv(a, p), s, p);
    CongTrans(a * Inv(a, p), b * s, 1, p);
  }

  /** A prime that divides a product divides a factor: cancellation modulo `p`. */
  lemma Cancel(a: int, x: int, y: int, p: nat)
    requires IsPrime(p) && a % p != 0 && Cong(a * x, a * y, p)
    ensures Cong(x, y, p)
  {
    var i := Inv(a, p);
    InvCorrect(a, p);
    CancelOne(a, i, x, p);
    CancelOne(a, i, y, p);
    CongFrom(i, i, 0, p);
    CongMul(i, i, a * x, a * y, p);
    CongSymm(i * (a * x), x, p);
    CongTrans(x, i * (a * x), i * (a * y), p);
    CongTrans(x, i * (a * y), y, p);
  }

  /** An equation `a x = c` with `a` nonzero has at most one solution. */
  lemma SolveUnique(a: int, x: int, y: int, c: int, p: nat)
    requires IsPrime(p) && a % p != 0 && Cong(a * x, c, p) && Cong(a * y, c, p)
    ensures x % p == y % p
  {
    CongSymm(a * y, c, p);
    CongTrans(a * x, c, a * y, p);
    Cancel(a, x, y, p);
    CongUnique(x, y, p);
  }

  lemma CancelOne(a: int, i: int, x: int, p: nat)
    requires p > 0 && Cong(a * i, 1, p)
    ensures Cong(i * (a * x), x, p)
  {
    CongFrom(x, x, 0, p);
    CongMul(a * i, 1, x, x, p);
    assert i * (a * x) == (a * i) * x;
  }

  lemma ProductNonZero(a: int, b: int, p: nat)
    requires IsPrime(p) && a % p != 0 && b % p != 0
    ensures (a * b) % p != 0
  {
    if (a * b) % p == 0 {
      CongUnique(a * b, a * 0, p);
      Cancel(a, b, 0, p);
      CongUnique(b, 0, p);
    }
  }

  /** Two distinct primes dividing a number: so does their product. */
  lemma CoprimeProduct(n: int, p: nat, q: nat) returns (k: int)
    requires IsPrime(p) && IsPrime(q) && p % q != 0
    requires n % p == 0 && n % q == 0
    ensures n == k * (p * q)
  {
    var j := CongWitness(n, 0, p);
    assert n == p * j;
    CongUnique(n, p * 0, q);
    Cancel(p, j, 0, q);
    k := CongWitness(j, 0, q);
    assert n == p * (k * q) == k * (p * q);
  }
}
