/**
 The prime-order subgroup of edwards25519 that libsodium computes in. Only the group
 axioms are assumed (`IsGroup`); every law of scalar multiplication is proved here.

 Each axiom is wrapped in a predicate of its own (`AddAt`, `MemberAt`, `SameYAt`), so that
 a proof names the instance it uses.
 */
module Group {
  import opened Modular

  /** The field prime 2^255 - 19 and the order of the base point. */
  const P: nat := 0x7FFF_FFFF_FFFF_FFFF_FFFF_FFFF_FFFF_FFFF_FFFF_FFFF_FFFF_FFFF_FFFF_FFFF_FFFF_FFED
  const Q: nat := 0x1000_0000_0000_0000_0000_0000_0000_0000_14DE_F9DE_A2F7_9CD6_5812_631A_5CF5_D3ED

  /** An affine point; the two coordinates are field elements. */
  datatype Point = Point(x: nat, y: nat)

  const ZERO: Point := Point(0, 1)

  function Neg(X: Point): Point {
    Point((P - X.x) % P, X.y)
  }

  datatype Group = Group(mem: Point -> bool, add: (Point, Point) -> Point, base: Point)

  function Sub(G: Group, X: Point, Y: Point): Point {
    G.add(X, Neg(Y))
  }

  /** `n` times `X`. */
  function Mul(G: Group, n: nat, X: Point): Point {
    if n == 0 then ZERO else G.add(X, Mul(G, n - 1, X))
  }

  // ----- the axioms

  ghost predicate AddAt(G: Group, X: Point, Y: Point, Z: Point) {
    G.mem(X) && G.mem(Y) && G.mem(Z) ==>
      && G.mem(G.add(X, Y))
      && G.add(X, Y) == G.add(Y, X)
      && G.add(G.add(X, Y), Z) == G.add(X, G.add(Y, Z))
  }

  ghost predicate MemberAt(G: Group, X: Point) {
    G.mem(X) ==>
      && X.x < P && X.y < P
      && G.mem(Neg(X))
      && G.add(ZERO, X) == X
      && G.add(X, Neg(X)) == ZERO
      && Mul(G, Q, X) == ZERO
  }

  /** The curve equation determines `x` up to its sign. */
  ghost predicate SameYAt(G: Group, X: Point, Y: Point) {
    G.mem(X) && G.mem(Y) && X.y == Y.y ==> Y == X || Y == Neg(X)
  }

  ghost predicate IsGroup(G: Group) {
    && G.mem(ZERO)
    && G.mem(G.base)
    && G.base != ZERO
    && IsPrime(Q)
    && (forall X, Y, Z :: AddAt(G, X, Y, Z))
    && (forall X :: MemberAt(G, X))
    && (forall X, Y :: SameYAt(G, X, Y))
  }

  // ----- what follows

  lemma Member(G: Group, X: Point)
    requires IsGroup(G) && G.mem(X)
    ensures X.x < P && X.y < P
    ensures G.mem(Neg(X)) && Neg(Neg(X)) == X
    ensures G.add(ZERO, X) == X && G.add(X, ZERO) == X
    ensures G.add(X, Neg(X)) == ZERO && G.add(Neg(X), X) == ZERO
  {
    assert MemberAt(G, X);
    assert AddAt(G, ZERO, X, X);
    assert AddAt(G, X, Neg(X), X);
  }

  lemma Add(G: Group, X: Point, Y: Point, Z: Point)
    requires IsGroup(G) && G.mem(X) && G.mem(Y) && G.mem(Z)
    ensures G.mem(G.add(X, Y)) && G.add(X, Y) == G.add(Y, X)
    ensures G.add(G.add(X, Y), Z) == G.add(X, G.add(Y, Z))
  {
    assert AddAt(G, X, Y, Z);
  }

  lemma {:induction false} MulMem(G: Group, n: nat, X: Point)
    requires IsGroup(G) && G.mem(X)
    ensures G.mem(Mul(G, n, X))
  {
    if n == 0 {
    } else {
      MulMem(G, n - 1, X);
      Add(G, X, Mul(G, n - 1, X), X);
    }
  }

  /** (a + b)X = aX + bX */
  lemma {:induction false} MulAdd(G: Group, a: nat, b: nat, X: Point)
    requires IsGroup(G) && G.mem(X)
    ensures Mul(G, a + b, X) == G.add(Mul(G, a, X), Mul(G, b, X))
  {
    MulMem(G, b, X);
    if a == 0 {
      Member(G, Mul(G, b, X));
    } else {
      MulAdd(G, a - 1, b, X);
      MulMem(G, a - 1, X);
      Add(G, X, Mul(G, a - 1, X), Mul(G, b, X));
    }
  }

  /** (ab)X = a(bX) */
  lemma {:induction false} MulMul(G: Group, a: nat, b: nat, X: Point)
    requires IsGroup(G) && G.mem(X)
    ensures Mul(G, a * b, X) == Mul(G, a, Mul(G, b, X))
  {
    if a == 0 {
      assert a * b == 0;
    } else {
      MulMul(G, a - 1, b, X);
      assert (a - 1) * b >= 0 && a * b == b + (a - 1) * b;
      MulAdd(G, b, (a - 1) * b, X);
    }
  }

  lemma {:induction false} MulZero(G: Group, n: nat)
    requires IsGroup(G)
    ensures Mul(G, n, ZERO) == ZERO
  {
    if n == 0 {
    } else {
      MulZero(G, n - 1);
      Member(G, ZERO);
    }
  }

  /** Scalars count modulo the group order. */
  lemma MulMod(G: Group, n: nat, X: Point)
    requires IsGroup(G) && G.mem(X)
    ensures Mul(G, n % Q, X) == Mul(G, n, X)
  {
    var k := n / Q;
    assert n == k * Q + n % Q;
    MulAdd(G, k * Q, n % Q, X);
    MulMul(G, k, Q, X);
    assert MemberAt(G, X);
    MulZero(G, k);
    MulMem(G, n % Q, X);
    Member(G, Mul(G, n % Q, X));
  }

  /** In a group an equation `X + Y = 0` determines `Y`. */
  lemma NegUnique(G: Group, X: Point, Y: Point)
    requires IsGroup(G) && G.mem(X) && G.mem(Y) && G.add(X, Y) == ZERO
    ensures Y == Neg(X)
  {
    Member(G, X);
    Member(G, Y);
    Add(G, Neg(X), X, Y);
    Member(G, Neg(X));
  }

  lemma {:induction false} MulNeg(G: Group, n: nat, X: Point)
    requires IsGroup(G) && G.mem(X)
    ensures G.mem(Neg(X)) && Mul(G, n, Neg(X)) == Neg(Mul(G, n, X))
  {
    Member(G, X);
    if n == 0 {
      assert Neg(ZERO) == ZERO;
    } else {
      MulNeg(G, n - 1, X);
      var M := Mul(G, n - 1, X);
      MulMem(G, n - 1, X);
      Member(G, M);
      // (X + M) + (-X + -M) = 0
      Add(G, X, M, G.add(Neg(X), Neg(M))) by {
        Add(G, Neg(X), Neg(M), X);
      }
      Add(G, Neg(X), Neg(M), M);
      Add(G, Neg(M), M, M);
      Add(G, M, G.add(Neg(X), Neg(M)), M);
      Member(G, Neg(X));
      NegUnique(G, G.add(X, M), G.add(Neg(X), Neg(M)));
    }
  }

  function NegMod(n: nat): (m: nat)
    ensures m < Q && Cong(n + m, 0, Q)
  {
    var m := (Q - n % Q) % Q;
    CongFrom(n + m, 0, if n % Q == 0 then n / Q else n / Q + 1, Q);
    m
  }

  /** (-n mod q)X = -(nX): what scalar negation computes. */
  lemma MulNegScalar(G: Group, n: nat, X: Point)
    requires IsGroup(G) && G.mem(X)
    ensures Mul(G, NegMod(n), X) == Neg(Mul(G, n, X))
  {
    var m := NegMod(n);
    MulAdd(G, n, m, X);
    CongUnique(n + m, 0, Q);
    MulMod(G, n + m, X);
    MulMem(G, n, X);
    MulMem(G, m, X);
    NegUnique(G, Mul(G, n, X), Mul(G, m, X));
  }

  /** A nonzero point has order exactly `q`. */
  lemma MulOrder(G: Group, n: nat, X: Point)
    requires IsGroup(G) && G.mem(X) && X != ZERO
    ensures Mul(G, n, X) == ZERO <==> n % Q == 0
  {
    MulMod(G, n, X);
    if n % Q != 0 && Mul(G, n, X) == ZERO {
      var i := Inv(n, Q);
      InvCorrect(n, Q);
      MulMul(G, i, n, X);
      MulZero(G, i);
      MulMod(G, i * n, X);
      CongUnique(n * i, 1, Q);
      assert i * n == n * i;
      assert Mul(G, 1, X) == G.add(X, Mul(G, 0, X));
      Member(G, X);
      assert false;
    }
  }

  /** Two scalars give the same multiple exactly when they agree modulo `q`. */
  lemma MulEqual(G: Group, m: nat, n: nat, X: Point)
    requires IsGroup(G) && G.mem(X) && X != ZERO
    ensures Mul(G, m, X) == Mul(G, n, X) <==> m % Q == n % Q
  {
    if m % Q == n % Q {
      MulMod(G, m, X);
      MulMod(G, n, X);
    } else if Mul(G, m, X) == Mul(G, n, X) {
      DifferenceKills(G, m, n, X);
      MulOrder(G, m + NegMod(n), X);
      SameResidue(m, n, NegMod(n));
    }
  }

  lemma DifferenceKills(G: Group, m: nat, n: nat, X: Point)
    requires IsGroup(G) && G.mem(X) && Mul(G, m, X) == Mul(G, n, X)
    ensures Mul(G, m + NegMod(n), X) == ZERO
  {
    MulNegScalar(G, n, X);
    MulAdd(G, m, NegMod(n), X);
    MulMem(G, n, X);
    Member(G, Mul(G, n, X));
  }

  lemma SameResidue(m: nat, n: nat, k: nat)
    requires (m + k) % Q == 0 && (n + k) % Q == 0
    ensures m % Q == n % Q
  {
    CongUnique(m + k, 0, Q);
    CongUnique(n + k, 0, Q);
    SameShift(m, n, k);
  }

  lemma SameShift(m: nat, n: nat, k: nat)
    requires Cong(m + k, 0, Q) && Cong(n + k, 0, Q)
    ensures m % Q == n % Q
  {
    CongAdd(m + k, 0, n + k, 0, Q);
    assert (m + k) - (n + k) == m - n;
    CongUnique(m, n, Q);
  }

  /** A scalar that is not a multiple of q can be cancelled. */
  lemma MulCancel(G: Group, n: nat, X: Point, Y: Point)
    requires IsGroup(G) && G.mem(X) && G.mem(Y) && n % Q != 0
    ensures Mul(G, n, X) == Mul(G, n, Y) <==> X == Y
  {
    if Mul(G, n, X) == Mul(G, n, Y) {
      MulInverse(G, n, X);
      MulInverse(G, n, Y);
    }
  }

  lemma MulInverse(G: Group, n: nat, X: Point)
    requires IsGroup(G) && G.mem(X) && n % Q != 0
    ensures Mul(G, Inv(n, Q), Mul(G, n, X)) == X
  {
    var i := Inv(n, Q);
    InvCorrect(n, Q);
    var e := ProductIsOne(n, i);
    MulMul(G, i, n, X);
    MulMod(G, e, X);
    assert Mul(G, 1, X) == G.add(X, Mul(G, 0, X));
    Member(G, X);
  }

  lemma ProductIsOne(n: nat, i: nat) returns (e: nat)
    requires Cong(n * i, 1, Q)
    ensures e == i * n && e % Q == 1
  {
    e := i * n;
    assert e == n * i;
    CongUnique(e, 1, Q);
  }

  /** Multiples commute: the heart of Diffie-Hellman. */
  lemma MulCommutes(G: Group, a: nat, b: nat, X: Point)
    requires IsGroup(G) && G.mem(X)
    ensures Mul(G, a, Mul(G, b, X)) == Mul(G, b, Mul(G, a, X))
  {
    MulMul(G, a, b, X);
    MulMul(G, b, a, X);
    assert a * b == b * a;
  }
}
