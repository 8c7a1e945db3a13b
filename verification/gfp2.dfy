/**
 * The quadratic extension GF(p^2) = GF(p)[i] / (i^2 + 1) of gfp2.go.
 *
 * A gfP2 holds two gfP words vectors x and y and stands for x*i + y.  The
 * algebra of GF(p^2) is written out on pairs of residues (Fp2), and every
 * method of the GfP2 class is proved to leave in its receiver the reduced
 * words that stand for the algebraic result.  A valid element (both words
 * reduced) is determined by the value it stands for (SameValue), so those
 * postconditions fix the new state completely.
 */
module Gfp2 {
  import opened Numbers
  import opened Gfp

  // ---------------------------------------------------------------------
  // The algebra GF(m)[i] with i^2 = -1
  //
  // The algebra is written for any modulus m; the GfP2 class uses it with
  // m = p.  Nothing below needs the value of p, only that it is a modulus
  // (and, for inverses, Fermat's little theorem for it).

  /** The element x*i + y, by its two coordinates. */
  datatype Fp2 = Fp2(x: nat, y: nat)

  predicate Canonical(a: Fp2, m: nat)
  {
    a.x < m && a.y < m
  }

  const F2Zero: Fp2 := Fp2(0, 0)
  const F2One: Fp2 := Fp2(0, 1)
  /** The non-residue ξ = i + 9 of the tower. */
  const Xi: Fp2 := Fp2(1, 9)

  function F2Add(a: Fp2, b: Fp2, m: nat): Fp2
    requires m > 1
  {
    Fp2((a.x + b.x) % m, (a.y + b.y) % m)
  }

  function F2Sub(a: Fp2, b: Fp2, m: nat): Fp2
    requires m > 1
  {
    Fp2((a.x - b.x) % m, (a.y - b.y) % m)
  }

  function F2Neg(a: Fp2, m: nat): Fp2
    requires m > 1
  {
    Fp2((0 - a.x) % m, (0 - a.y) % m)
  }

  /** The conjugate y - x*i. */
  function F2Conj(a: Fp2, m: nat): Fp2
    requires m > 1
  {
    Fp2((0 - a.x) % m, a.y % m)
  }

  /** (a.x*i + a.y)(b.x*i + b.y), using i^2 = -1. */
  function F2Mul(a: Fp2, b: Fp2, m: nat): Fp2
    requires m > 1
  {
    Fp2((a.x * b.y + b.x * a.y) % m, (a.y * b.y - a.x * b.x) % m)
  }

  /** a^n, by repeated multiplication. */
  function F2Pow(a: Fp2, n: nat, m: nat): (r: Fp2)
    requires m > 1
    ensures Canonical(r, m)
  {
    if n == 0 then F2One else F2Mul(F2Pow(a, n - 1, m), a, m)
  }

  /** The norm x^2 + y^2 = a * conj(a), an element of GF(m). */
  function Norm(a: Fp2, m: nat): nat
    requires m > 1
  {
    (a.x * a.x + a.y * a.y) % m
  }

  /** Inversion through the norm: conj(a) * N(a)^(m-2). */
  function F2Inverse(a: Fp2, m: nat): Fp2
    requires m > 1
  {
    F2Mul(F2Conj(a, m), Fp2(0, Pow(Norm(a, m), m - 2) % m), m)
  }

  // ---------------------------------------------------------------------
  // Properties of the algebra

  /** Subtraction undoes addition. */
  lemma F2AddSub(a: Fp2, b: Fp2, m: nat)
    requires m > 1
    requires Canonical(a, m)
    ensures F2Sub(F2Add(a, b, m), b, m) == a
  {
    ModSubLeft(a.x + b.x, b.x, m);
    ModSubLeft(a.y + b.y, b.y, m);
    ModOfSmall(a.x, m);
    ModOfSmall(a.y, m);
  }

  /** The negation is the additive inverse. */
  lemma F2AddNeg(a: Fp2, m: nat)
    requires m > 1
    ensures F2Add(a, F2Neg(a, m), m) == F2Zero
  {
    ModAddRight(a.x, 0 - a.x, m);
    ModAddRight(a.y, 0 - a.y, m);
  }

  lemma F2NegInvolution(a: Fp2, m: nat)
    requires m > 1
    requires Canonical(a, m)
    ensures F2Neg(F2Neg(a, m), m) == a
  {
    ModSubRight(0, 0 - a.x, m);
    ModSubRight(0, 0 - a.y, m);
    ModOfSmall(a.x, m);
    ModOfSmall(a.y, m);
  }

  lemma F2ConjInvolution(a: Fp2, m: nat)
    requires m > 1
    requires Canonical(a, m)
    ensures F2Conj(F2Conj(a, m), m) == a
  {
    ModSubRight(0, 0 - a.x, m);
    ModOfSmall(a.x, m);
    ModOfSmall(a.y, m);
  }

  lemma F2MulComm(a: Fp2, b: Fp2, m: nat)
    requires m > 1
    ensures F2Mul(a, b, m) == F2Mul(b, a, m)
  {
    assert a.y * b.y == b.y * a.y;
    assert a.x * b.x == b.x * a.x;
  }

  /** One is the multiplicative identity. */
  lemma F2MulOne(a: Fp2, m: nat)
    requires m > 1
    requires Canonical(a, m)
    ensures F2Mul(a, F2One, m) == a && F2Mul(F2One, a, m) == a
  {
    ModOfSmall(a.x, m);
    ModOfSmall(a.y, m);
  }

  /** ((u mod m)*s + t*(v mod m)) mod m == (u*s + t*v) mod m. */
  lemma ModCombine(u: int, s: int, t: int, v: int, m: int)
    requires m > 0
    ensures ((u % m) * s + t * (v % m)) % m == (u * s + t * v) % m
  {
    calc {
      ((u % m) * s + t * (v % m)) % m;
      { ModAddLeft((u % m) * s, t * (v % m), m); }
      ((u % m) * s % m + t * (v % m)) % m;
      { ModMulLeft(u, s, m); }
      (u * s % m + t * (v % m)) % m;
      { ModAddLeft(u * s, t * (v % m), m); }
      (u * s + t * (v % m)) % m;
      { ModAddRight(u * s, t * (v % m), m); }
      (u * s + t * (v % m) % m) % m;
      { ModMulRight(t, v, m); }
      (u * s + t * v % m) % m;
      { ModAddRight(u * s, t * v, m); }
      (u * s + t * v) % m;
    }
  }

  /** ((u mod m)*s - t*(v mod m)) mod m == (u*s - t*v) mod m. */
  lemma ModCombineSub(u: int, s: int, t: int, v: int, m: int)
    requires m > 0
    ensures ((u % m) * s - t * (v % m)) % m == (u * s - t * v) % m
  {
    calc {
      ((u % m) * s - t * (v % m)) % m;
      { ModSubLeft((u % m) * s, t * (v % m), m); }
      ((u % m) * s % m - t * (v % m)) % m;
      { ModMulLeft(u, s, m); }
      (u * s % m - t * (v % m)) % m;
      { ModSubLeft(u * s, t * (v % m), m); }
      (u * s - t * (v % m)) % m;
      { ModSubRight(u * s, t * (v % m), m); }
      (u * s - t * (v % m) % m) % m;
      { ModMulRight(t, v, m); }
      (u * s - t * v % m) % m;
      { ModSubRight(u * s, t * v, m); }
      (u * s - t * v) % m;
    }
  }

  lemma AssocX(ax: int, ay: int, bx: int, yb: int, cx: int, cy: int)
    ensures (ax * yb + bx * ay) * cy + cx * (ay * yb - ax * bx)
         == ax * (yb * cy - bx * cx) + (bx * cy + cx * yb) * ay
  {
  }

  lemma AssocY(ax: int, ay: int, bx: int, yb: int, cx: int, cy: int)
    ensures (ay * yb - ax * bx) * cy - (ax * yb + bx * ay) * cx
         == ay * (yb * cy - bx * cx) - ax * (bx * cy + cx * yb)
  {
  }

  /** Multiplication is associative. */
  lemma F2MulAssoc(a: Fp2, b: Fp2, c: Fp2, m: nat)
    requires m > 1
    ensures F2Mul(F2Mul(a, b, m), c, m) == F2Mul(a, F2Mul(b, c, m), m)
  {
    MulAssocX(a, b, c, m);
    MulAssocY(a, b, c, m);
  }

  lemma MulAssocX(a: Fp2, b: Fp2, c: Fp2, m: nat)
    requires m > 1
    ensures F2Mul(F2Mul(a, b, m), c, m).x == F2Mul(a, F2Mul(b, c, m), m).x
  {
    AssocX(a.x, a.y, b.x, b.y, c.x, c.y);
    ReduceAssocX(a.x * b.y + b.x * a.y, a.y * b.y - a.x * b.x,
                 b.x * c.y + c.x * b.y, b.y * c.y - b.x * c.x, a.x, a.y, c.x, c.y, m);
  }

  lemma MulAssocY(a: Fp2, b: Fp2, c: Fp2, m: nat)
    requires m > 1
    ensures F2Mul(F2Mul(a, b, m), c, m).y == F2Mul(a, F2Mul(b, c, m), m).y
  {
    AssocY(a.x, a.y, b.x, b.y, c.x, c.y);
    ReduceAssocY(a.x * b.y + b.x * a.y, a.y * b.y - a.x * b.x,
                 b.x * c.y + c.x * b.y, b.y * c.y - b.x * c.x, a.x, a.y, c.x, c.y, m);
  }

  /** The i part of (ab)c and a(bc) agree modulo m once their unreduced forms agree. */
  lemma ReduceAssocX(x1: int, y1: int, x2: int, y2: int, ax: int, ay: int, cx: int, cy: int, m: int)
    requires m > 0 && x1 * cy + cx * y1 == ax * y2 + x2 * ay
    ensures ((x1 % m) * cy + cx * (y1 % m)) % m == (ax * (y2 % m) + (x2 % m) * ay) % m
  {
    calc {
      ((x1 % m) * cy + cx * (y1 % m)) % m;
      { ModCombine(x1, cy, cx, y1, m); }
      (x1 * cy + cx * y1) % m;
      (ax * y2 + x2 * ay) % m;
      { ModCombine(x2, ay, ax, y2, m); }
      ((x2 % m) * ay + ax * (y2 % m)) % m;
    }
  }

  /** The real part of (ab)c and a(bc) agree modulo m once their unreduced forms agree. */
  lemma ReduceAssocY(x1: int, y1: int, x2: int, y2: int, ax: int, ay: int, cx: int, cy: int, m: int)
    requires m > 0 && y1 * cy - x1 * cx == ay * y2 - ax * x2
    ensures ((y1 % m) * cy - (x1 % m) * cx) % m == (ay * (y2 % m) - ax * (x2 % m)) % m
  {
    ModCombineSub(y1, cy, cx, x1, m);
    assert (x1 % m) * cx == cx * (x1 % m);
    ModCombineSub(y2, ay, ax, x2, m);
    assert ay * (y2 % m) == (y2 % m) * ay;
  }

  /** a^(j+k) == a^j * a^k. */
  lemma {:induction false} F2PowAdd(a: Fp2, j: nat, k: nat, m: nat)
    requires m > 1
    ensures F2Pow(a, j + k, m) == F2Mul(F2Pow(a, j, m), F2Pow(a, k, m), m)
  {
    if k == 0 {
      F2MulOne(F2Pow(a, j, m), m);
    } else {
      F2PowAdd(a, j, k - 1, m);
      F2MulAssoc(F2Pow(a, j, m), F2Pow(a, k - 1, m), a, m);
    }
  }

  /** a^1 == a. */
  lemma F2PowOne(a: Fp2, m: nat)
    requires m > 1
    requires Canonical(a, m)
    ensures F2Pow(a, 1, m) == a
  {
    F2MulOne(a, m);
  }

  /** a * conj(a) is the norm, with no i part. */
  lemma ConjProduct(a: Fp2, m: nat)
    requires m > 1
    requires Canonical(a, m)
    ensures F2Mul(a, F2Conj(a, m), m) == Fp2(0, Norm(a, m))
  {
    ModOfSmall(a.y, m);
    ConjProductX(a.x, a.y, m);
    ConjProductY(a.x, a.y, m);
  }

  lemma ConjProductX(x: int, y: int, m: int)
    requires m > 0
    ensures (x * (y % m) + ((0 - x) % m) * y) % m == 0
  {
    calc {
      (x * (y % m) + ((0 - x) % m) * y) % m;
      (((0 - x) % m) * y + x * (y % m)) % m;
      { ModCombine(0 - x, y, x, y, m); }
      ((0 - x) * y + x * y) % m;
      { Distrib(0 - x, x, y); }
      0;
    }
  }

  lemma ConjProductY(x: int, y: int, m: int)
    requires m > 0
    ensures (y * y - x * ((0 - x) % m)) % m == (x * x + y * y) % m
  {
    calc {
      (y * y - x * ((0 - x) % m)) % m;
      { ModSubRight(y * y, x * ((0 - x) % m), m); }
      (y * y - x * ((0 - x) % m) % m) % m;
      { ModMulRight(x, 0 - x, m); }
      (y * y - x * (0 - x) % m) % m;
      { ModSubRight(y * y, x * (0 - x), m); }
      (y * y - x * (0 - x)) % m;
      { Distrib(0, 0 - x, x); }
      (x * x + y * y) % m;
    }
  }

  /**
   * a times its inverse is N(a)^(m-1): one when the norm is not zero and
   * Fermat's little theorem holds for m.
   */
  lemma F2InverseProduct(a: Fp2, m: nat)
    requires m > 1
    requires Canonical(a, m)
    ensures F2Mul(a, F2Inverse(a, m), m) == Fp2(0, Pow(Norm(a, m), m - 1) % m)
    ensures FermatHolds(m) && Norm(a, m) != 0 ==> F2Mul(a, F2Inverse(a, m), m) == F2One
  {
    var n := Norm(a, m);
    var k := Pow(n, m - 2) % m;
    calc {
      F2Mul(a, F2Inverse(a, m), m);
      { F2MulAssoc(a, F2Conj(a, m), Fp2(0, k), m); }
      F2Mul(F2Mul(a, F2Conj(a, m), m), Fp2(0, k), m);
      { ConjProduct(a, m); }
      F2Mul(Fp2(0, n), Fp2(0, k), m);
      { ScalarProduct(n, k, m); }
      Fp2(0, n * k % m);
      { PowPredecessor(n, m); }
      Fp2(0, Pow(n, m - 1) % m);
    }
  }

  /** Two elements with no i part multiply as residues. */
  lemma ScalarProduct(n: nat, k: nat, m: nat)
    requires m > 1
    ensures F2Mul(Fp2(0, n), Fp2(0, k), m) == Fp2(0, n * k % m)
  {
  }

  /** n * (n^(m-2) mod m) is n^(m-1), modulo m. */
  lemma PowPredecessor(n: nat, m: nat)
    requires m > 1
    ensures n * (Pow(n, m - 2) % m) % m == Pow(n, m - 1) % m
  {
    assert Pow(n, m - 1) == n * Pow(n, m - 2);
    ModMulRight(n, Pow(n, m - 2), m);
  }

  /** Zero's inverse is zero. */
  lemma F2InverseZero(m: nat)
    requires m > 1
    ensures F2Inverse(F2Zero, m) == F2Zero
  {
  }

  // ---------------------------------------------------------------------
  // From Montgomery words to the algebra

  /** The element the words x, y stand for. */
  function Decode(x: Limbs, y: Limbs): (v: Fp2)
    ensures Canonical(v, P)
  {
    Fp2(D(x), D(y))
  }

  /** Mul's schoolbook steps give the product (gfp2.go:84-94). */
  lemma SchoolbookDecodes(ax: Limbs, ay: Limbs, bx: Limbs, yb: Limbs)
    ensures Decode(GfpAdd(GfpMul(ax, yb), GfpMul(bx, ay)), GfpSub(GfpMul(ay, yb), GfpMul(ax, bx)))
         == F2Mul(Decode(ax, ay), Decode(bx, yb), P)
  {
    MulDecodes(ax, yb);
    MulDecodes(bx, ay);
    MulDecodes(ay, yb);
    MulDecodes(ax, bx);
    AddDecodes(GfpMul(ax, yb), GfpMul(bx, ay));
    SubDecodes(GfpMul(ay, yb), GfpMul(ax, bx));
    ModAddBoth(D(ax) * D(yb), D(bx) * D(ay), P);
    ModSubBoth(D(ay) * D(yb), D(ax) * D(bx), P);
  }

  lemma DiffOfSquares(x: int, y: int)
    ensures (y - x) * (x + y) == y * y - x * x
  {
    Distrib(y, 0 - x, x + y);
  }

  /** Square's complex-squaring steps give a * a (gfp2.go:134-140). */
  lemma ComplexSquareDecodes(ax: Limbs, ay: Limbs)
    ensures Decode(GfpAdd(GfpMul(ax, ay), GfpMul(ax, ay)), GfpMul(GfpSub(ay, ax), GfpAdd(ax, ay)))
         == F2Mul(Decode(ax, ay), Decode(ax, ay), P)
  {
    DoubledProduct(ax, ay);
    SquareDifference(ax, ay);
  }

  /** 2xy, the i part of the square. */
  lemma DoubledProduct(ax: Limbs, ay: Limbs)
    ensures D(GfpAdd(GfpMul(ax, ay), GfpMul(ax, ay))) == (D(ax) * D(ay) + D(ax) * D(ay)) % P
  {
    MulDecodes(ax, ay);
    AddDecodes(GfpMul(ax, ay), GfpMul(ax, ay));
    ModAddBoth(D(ax) * D(ay), D(ax) * D(ay), P);
  }

  /** (y - x)(x + y) = y^2 - x^2, the real part of the square. */
  lemma SquareDifference(ax: Limbs, ay: Limbs)
    ensures D(GfpMul(GfpSub(ay, ax), GfpAdd(ax, ay))) == (D(ay) * D(ay) - D(ax) * D(ax)) % P
  {
    var x, y := D(ax), D(ay);
    var s, t := GfpSub(ay, ax), GfpAdd(ax, ay);
    calc {
      D(GfpMul(s, t));
      { MulDecodes(s, t); }
      D(s) * D(t) % P;
      { SubDecodes(ay, ax); AddDecodes(ax, ay); }
      ((y - x) % P) * ((x + y) % P) % P;
      { ModMulBoth(y - x, x + y, P); }
      (y - x) * (x + y) % P;
      { DiffOfSquares(x, y); }
      (y * y - x * x) % P;
    }
  }

  /** The doubling chain 2a, 4a, 8a, 8a + a of MulXi stands for 9a. */
  lemma NineFold(a: Limbs)
    ensures var t2 := GfpAdd(a, a); var t4 := GfpAdd(t2, t2); var t8 := GfpAdd(t4, t4);
      D(GfpAdd(t8, a)) == 9 * D(a) % P
  {
    var x := D(a);
    var t2 := GfpAdd(a, a);
    var t4 := GfpAdd(t2, t2);
    var t8 := GfpAdd(t4, t4);
    Doubling(a, 1, x);
    Doubling(t2, 2, x);
    Doubling(t4, 4, x);
    AddDecodes(t8, a);
    ModAddLeft(8 * x, x, P);
  }

  /** Adding an element standing for k*x to itself gives 2k*x. */
  lemma Doubling(u: Limbs, k: nat, x: nat)
    requires D(u) == k * x % P
    ensures D(GfpAdd(u, u)) == 2 * k * x % P
  {
    AddDecodes(u, u);
    ModAddBoth(k * x, k * x, P);
    assert k * x + k * x == 2 * k * x;
  }

  /** The norm step of Invert: a.x^2 + a.y^2 (gfp2.go:151-153). */
  lemma NormDecodes(ax: Limbs, ay: Limbs)
    ensures D(GfpAdd(GfpMul(ax, ax), GfpMul(ay, ay))) == Norm(Decode(ax, ay), P)
  {
    MulDecodes(ax, ax);
    MulDecodes(ay, ay);
    AddDecodes(GfpMul(ax, ax), GfpMul(ay, ay));
    ModAddBoth(D(ax) * D(ax), D(ay) * D(ay), P);
  }

  /** Add works coordinate by coordinate (gfp2.go:69-73). */
  lemma AddWords(ax: Limbs, ay: Limbs, bx: Limbs, yb: Limbs)
    ensures Decode(GfpAdd(ax, bx), GfpAdd(ay, yb)) == F2Add(Decode(ax, ay), Decode(bx, yb), P)
  {
    AddDecodes(ax, bx);
    AddDecodes(ay, yb);
  }

  /** Sub works coordinate by coordinate (gfp2.go:75-79). */
  lemma SubWords(ax: Limbs, ay: Limbs, bx: Limbs, yb: Limbs)
    ensures Decode(GfpSub(ax, bx), GfpSub(ay, yb)) == F2Sub(Decode(ax, ay), Decode(bx, yb), P)
  {
    SubDecodes(ax, bx);
    SubDecodes(ay, yb);
  }

  /** Neg negates both coordinates (gfp2.go:63-67). */
  lemma NegWords(ax: Limbs, ay: Limbs)
    ensures Decode(GfpNeg(ax), GfpNeg(ay)) == F2Neg(Decode(ax, ay), P)
  {
    NegDecodes(ax);
    NegDecodes(ay);
  }

  /** Conjugate negates x and keeps y (gfp2.go:57-61). */
  lemma ConjWords(ax: Limbs, ay: Limbs)
    ensures Decode(GfpNeg(ax), ay) == F2Conj(Decode(ax, ay), P)
  {
    NegDecodes(ax);
    ModIdempotent(Val(ay) * RInv, P);
  }

  /** MulScalar multiplies by an element of the base field (gfp2.go:101-105). */
  lemma ScalarWords(ax: Limbs, ay: Limbs, b: Limbs)
    ensures Decode(GfpMul(ax, b), GfpMul(ay, b)) == F2Mul(Decode(ax, ay), Fp2(0, D(b)), P)
  {
    MulDecodes(ax, b);
    MulDecodes(ay, b);
  }

  /** MulXi's chains, 9x + y and 9y - x, multiply by ξ = i + 9 (gfp2.go:110-124). */
  lemma XiWords(ax: Limbs, ay: Limbs)
    ensures
      var x2 := GfpAdd(ax, ax); var x4 := GfpAdd(x2, x2); var x8 := GfpAdd(x4, x4);
      var y2 := GfpAdd(ay, ay); var y4 := GfpAdd(y2, y2); var y8 := GfpAdd(y4, y4);
      Decode(GfpAdd(GfpAdd(x8, ax), ay), GfpSub(GfpAdd(y8, ay), ax)) == F2Mul(Decode(ax, ay), Xi, P)
  {
    NineXPlusY(ax, ay);
    NineYMinusX(ax, ay);
  }

  lemma NineXPlusY(ax: Limbs, ay: Limbs)
    ensures var x2 := GfpAdd(ax, ax); var x4 := GfpAdd(x2, x2); var x8 := GfpAdd(x4, x4);
      D(GfpAdd(GfpAdd(x8, ax), ay)) == (9 * D(ax) + D(ay)) % P
  {
    var x2 := GfpAdd(ax, ax); var x4 := GfpAdd(x2, x2); var x8 := GfpAdd(x4, x4);
    NineFold(ax);
    AddDecodes(GfpAdd(x8, ax), ay);
    ModAddLeft(9 * D(ax), D(ay), P);
  }

  lemma NineYMinusX(ax: Limbs, ay: Limbs)
    ensures var y2 := GfpAdd(ay, ay); var y4 := GfpAdd(y2, y2); var y8 := GfpAdd(y4, y4);
      D(GfpSub(GfpAdd(y8, ay), ax)) == (9 * D(ay) - D(ax)) % P
  {
    var y2 := GfpAdd(ay, ay); var y4 := GfpAdd(y2, y2); var y8 := GfpAdd(y4, y4);
    NineFold(ay);
    SubDecodes(GfpAdd(y8, ay), ax);
    ModSubLeft(9 * D(ay), D(ax), P);
  }

  /** Invert's steps give conj(a) * N(a)^(p-2) (gfp2.go:150-161). */
  lemma InvertWords(ax: Limbs, ay: Limbs)
    ensures
      var inv := Inverse(GfpAdd(GfpMul(ax, ax), GfpMul(ay, ay)));
      Decode(GfpMul(GfpNeg(ax), inv), GfpMul(ay, inv)) == F2Inverse(Decode(ax, ay), P)
  {
    var inv := Inverse(GfpAdd(GfpMul(ax, ax), GfpMul(ay, ay)));
    NormDecodes(ax, ay);
    NegDecodes(ax);
    MulDecodes(GfpNeg(ax), inv);
    MulDecodes(ay, inv);
    ModIdempotent(Val(ay) * RInv, P);
  }

  // ---------------------------------------------------------------------
  // The gfP2 object

  class GfP2 {
    var x: Limbs
    var y: Limbs

    /** `&gfP2{}`: both words zero. */
    constructor ()
      ensures x == Zero && y == Zero
    {
      x := Zero;
      y := Zero;
    }

    /** The element x*i + y the receiver stands for. */
    function Value(): Fp2
      reads this
    {
      Decode(x, y)
    }

    /** Both words reduced, as every operation except Set leaves them. */
    predicate Valid()
      reads this
    {
      Reduced(x) && Reduced(y)
    }

    /** String: "(" x ", " y ")" with each word vector printed as 64 hex digits. */
    function String(): (s: string)
      reads this
      ensures |s| == 132 && s[0] == '(' && s[65..67] == ", " && s[131] == ')'
      ensures ParseHex(s[1..65]) == Some(Val(x)) && ParseHex(s[67..131]) == Some(Val(y))
    {
      StringParses(x);
      StringParses(y);
      var s := "(" + Gfp.String(x) + ", " + Gfp.String(y) + ")";
      assert s[1..65] == Gfp.String(x);
      assert s[67..131] == Gfp.String(y);
      s
    }

    /** Set copies a's words. */
    method Set(a: GfP2)
      modifies this
      ensures x == old(a.x) && y == old(a.y)
      ensures Value() == old(a.Value())
    {
      x := a.x;
      y := a.y;
    }

    method SetZero()
      modifies this
      ensures x == Zero && y == Zero
      ensures Valid() && Value() == F2Zero
    {
      x := Zero;
      y := Zero;
    }

    /** SetOne: y is newGFp(1), the Montgomery form of one. */
    method SetOne()
      modifies this
      ensures x == Zero && y == One
      ensures Valid() && Value() == F2One
    {
      x := Zero;
      NewGFpOne();
      DOne();
      y := NewGFp(1);
    }

    /** IsZero compares both words with zero. */
    function IsZero(): (b: bool)
      reads this
      ensures b ==> Value() == F2Zero
      ensures Valid() ==> (b <==> Value() == F2Zero)
    {
      var b := x == Zero && y == Zero;
      if Valid() then DZero(x); DZero(y); b else b
    }

    /** IsOne compares x with zero and y with newGFp(1). */
    function IsOne(): (b: bool)
      reads this
      ensures b ==> Value() == F2One
      ensures Valid() ==> (b <==> Value() == F2One)
    {
      NewGFpOne();
      DOne();
      var b := x == Zero && y == NewGFp(1);
      if Valid() && D(y) == 1 then DZero(x); DInjective(y, One); b else b
    }

    /** Conjugate: y is copied, x negated. */
    method Conjugate(a: GfP2)
      modifies this
      ensures y == old(a.y)
      ensures Value() == F2Conj(old(a.Value()), P)
      ensures old(a.Valid()) ==> Valid()
    {
      ConjWords(a.x, a.y);
      PrimitivesReduced(a.x, a.x);
      y := a.y;
      x := GfpNeg(a.x);
    }

    method Neg(a: GfP2)
      modifies this
      ensures Valid() && Value() == F2Neg(old(a.Value()), P)
    {
      NegWords(a.x, a.y);
      x := GfpNeg(a.x);
      y := GfpNeg(a.y);
    }

    method Add(a: GfP2, b: GfP2)
      modifies this
      ensures Valid() && Value() == F2Add(old(a.Value()), old(b.Value()), P)
    {
      AddWords(a.x, a.y, b.x, b.y);
      x := GfpAdd(a.x, b.x);
      y := GfpAdd(a.y, b.y);
    }

    method Sub(a: GfP2, b: GfP2)
      modifies this
      ensures Valid() && Value() == F2Sub(old(a.Value()), old(b.Value()), P)
    {
      SubWords(a.x, a.y, b.x, b.y);
      x := GfpSub(a.x, b.x);
      y := GfpSub(a.y, b.y);
    }

    /** Mul: the schoolbook product, through temporaries, so e may alias a or b. */
    method Mul(a: GfP2, b: GfP2)
      modifies this
      ensures Valid() && Value() == F2Mul(old(a.Value()), old(b.Value()), P)
    {
      var tx := GfpMul(a.x, b.y);
      var t := GfpMul(b.x, a.y);
      tx := GfpAdd(tx, t);
      var ty := GfpMul(a.y, b.y);
      t := GfpMul(a.x, b.x);
      ty := GfpSub(ty, t);
      SchoolbookDecodes(a.x, a.y, b.x, b.y);
      x := tx;
      y := ty;
    }

    /** MulScalar multiplies both coordinates by the gfP b, an element of the base field. */
    method MulScalar(a: GfP2, b: Limbs)
      modifies this
      ensures Valid() && Value() == F2Mul(old(a.Value()), Fp2(0, D(b)), P)
    {
      ScalarWords(a.x, a.y, b);
      x := GfpMul(a.x, b);
      y := GfpMul(a.y, b);
    }

    /** MulXi: (x*i + y)(i + 9) = (9x + y)*i + (9y - x), with 9 built as 2, 4, 8, 8 + 1. */
    method MulXi(a: GfP2)
      modifies this
      ensures Valid() && Value() == F2Mul(old(a.Value()), Xi, P)
    {
      XiWords(a.x, a.y);
      var tx := GfpAdd(a.x, a.x);
      tx := GfpAdd(tx, tx);
      tx := GfpAdd(tx, tx);
      tx := GfpAdd(tx, a.x);
      tx := GfpAdd(tx, a.y);

      var ty := GfpAdd(a.y, a.y);
      ty := GfpAdd(ty, ty);
      ty := GfpAdd(ty, ty);
      ty := GfpAdd(ty, a.y);
      ty := GfpSub(ty, a.x);

      x := tx;
      y := ty;
    }

    /** Square: (x*i + y)^2 = 2xy*i + (y - x)(x + y). */
    method Square(a: GfP2)
      modifies this
      ensures Valid() && Value() == F2Mul(old(a.Value()), old(a.Value()), P)
    {
      var tx := GfpSub(a.y, a.x);
      var ty := GfpAdd(a.x, a.y);
      ty := GfpMul(tx, ty);
      tx := GfpMul(a.x, a.y);
      tx := GfpAdd(tx, tx);
      ComplexSquareDecodes(a.x, a.y);
      x := tx;
      y := ty;
    }

    /** Invert: conj(a) / N(a), with the norm inverted in GF(p). */
    method Invert(a: GfP2)
      modifies this
      ensures Valid() && Value() == F2Inverse(old(a.Value()), P)
    {
      InvertWords(a.x, a.y);
      var t1 := GfpMul(a.x, a.x);
      var t2 := GfpMul(a.y, a.y);
      t1 := GfpAdd(t1, t2);

      var inv := Gfp.Invert(t1);

      t1 := GfpNeg(a.x);
      x := GfpMul(t1, inv);
      y := GfpMul(a.y, inv);
    }

    /**
     * Exp: left-to-right binary exponentiation over the big-endian bytes of
     * |exponent|, starting from one and squaring only once a set bit has been
     * seen.  The bit test `byte & 2^(7-j)` is Bit(byte, 7 - j).
     */
    method Exp(exponent: int)
      modifies this
      ensures Valid() && Value() == F2Pow(old(Value()), Abs(exponent), P)
    {
      ghost var b := Value();
      var res := new GfP2();
      res.SetOne();
      var base := new GfP2();
      base.Set(this);

      var foundOne := false;
      var bytes := MinimalBytes(Abs(exponent));
      ghost var acc: nat := 0;
      var i := 0;
      while i < |bytes|
        invariant 0 <= i <= |bytes|
        invariant fresh(res) && fresh(base) && res != base
        invariant base.Value() == b
        invariant res.Valid() && Powered(res.Value(), b, acc, foundOne)
        invariant acc == FromBE(bytes[..i], 256)
      {
        foundOne := ExpByte(res, base, foundOne, bytes[i], acc);
        assert bytes[..i + 1][..i] == bytes[..i];
        acc := acc * 256 + bytes[i];
        i := i + 1;
      }
      assert bytes[..i] == bytes;
      MinimalBytesValue(Abs(exponent));
      Set(res);
    }
  }

  /** Two valid elements standing for the same value hold the same words. */
  lemma SameValue(e: GfP2, f: GfP2)
    requires e.Valid() && f.Valid() && e.Value() == f.Value()
    ensures e.x == f.x && e.y == f.y
  {
    DInjective(e.x, f.x);
    DInjective(e.y, f.y);
  }

  /** gfP2Decode: a new gfP2 holding the plain (non-Montgomery) coordinates. */
  method GfP2Decode(input: GfP2) returns (out: GfP2)
    ensures fresh(out)
    ensures Reduced(out.x) && Val(out.x) == input.Value().x
    ensures Reduced(out.y) && Val(out.y) == input.Value().y
  {
    out := new GfP2();
    out.x := MontDecode(input.x);
    out.y := MontDecode(input.y);
  }

  // ---------------------------------------------------------------------
  // Exp's loop invariant

  /** res is base^acc, and acc is zero until a set bit has been found. */
  predicate Powered(res: Fp2, base: Fp2, acc: nat, foundOne: bool)
  {
    res == F2Pow(base, acc, P) && (!foundOne ==> acc == 0)
  }

  /** res after one bit: squared once a set bit has been seen, then times base if the bit is set. */
  function NextPower(res: Fp2, base: Fp2, foundOne: bool, bit: bool, m: nat): Fp2
    requires m > 1
  {
    var squared := if foundOne then F2Mul(res, res, m) else res;
    if bit then F2Mul(squared, base, m) else squared
  }

  /**
   * Exp's inner loop over the eight bits of the byte v, most significant
   * first (ExpBit is its body): base^acc becomes base^(256*acc + v).
   */
  method ExpByte(res: GfP2, base: GfP2, foundOne: bool, v: u8, ghost acc: nat) returns (found: bool)
    requires res != base && res.Valid() && Powered(res.Value(), base.Value(), acc, foundOne)
    modifies res
    ensures res.Valid() && Powered(res.Value(), base.Value(), acc * 256 + v, found)
  {
    found := foundOne;
    var j := 0;
    while j <= 7
      invariant 0 <= j <= 8
      invariant res.Valid() && Powered(res.Value(), base.Value(), ReadPrefix(acc, v, j), found)
    {
      var bit := Bit(v, 7 - j);
      ExpBitStep(base.Value(), ReadPrefix(acc, v, j), found, bit, P);
      ExpBit(res, base, found, bit);
      found := found || bit;
      j := j + 1;
    }
    ReadBitsEnd(acc, v);
  }

  /**
   * The body of Exp's inner loop: res is squared once a set bit has been
   * seen, then multiplied by base when the bit is set.
   */
  method ExpBit(res: GfP2, base: GfP2, foundOne: bool, bit: bool)
    requires res != base && res.Valid()
    modifies res
    ensures res.Valid() && res.Value() == NextPower(old(res.Value()), base.Value(), foundOne, bit, P)
  {
    if foundOne {
      res.Mul(res, res);
    }
    if bit {
      res.Mul(res, base);
    }
  }

  /** One bit of Exp: skipping the squaring before the first set bit loses nothing. */
  lemma ExpBitStep(base: Fp2, acc: nat, foundOne: bool, bit: bool, m: nat)
    requires m > 1 && (!foundOne ==> acc == 0)
    ensures NextPower(F2Pow(base, acc, m), base, foundOne, bit, m) == F2Pow(base, 2 * acc + (if bit then 1 else 0), m)
  {
    F2PowAdd(base, acc, acc, m);
  }

  // ---------------------------------------------------------------------
  // Reading the exponent bits in Exp

  /** The leading j bits of the byte v, as a number. */
  function HighBits(v: nat, j: nat): nat
    requires j <= 8
  {
    v / Pow(2, 8 - j)
  }

  /** acc followed by the leading j bits of the byte v, read one bit at a time as Exp does. */
  function ReadPrefix(acc: nat, v: u8, j: nat): nat
    requires j <= 8
  {
    if j == 0 then acc else 2 * ReadPrefix(acc, v, j - 1) + (if Bit(v, 8 - j) then 1 else 0)
  }

  /** read is acc followed by the leading j bits of the byte v, as a number. */
  predicate ReadBits(read: nat, acc: nat, v: nat, j: nat)
    requires j <= 8
  {
    read == acc * Pow(2, j) + HighBits(v, j)
  }

  lemma Pow2Byte()
    ensures Pow(2, 8) == 256
  {
    assert Pow(2, 2) == 4;
    assert Pow(2, 4) == 16;
    assert Pow(2, 6) == 64;
  }

  /** Reading bit 7 - j of the byte v doubles read and adds the bit. */
  lemma ReadBitsStep(read: nat, acc: nat, v: u8, j: nat)
    requires j < 8 && ReadBits(read, acc, v, j)
    ensures ReadBits(2 * read + (if Bit(v, 7 - j) then 1 else 0), acc, v, j + 1)
  {
    var t := Pow(2, 7 - j);
    var q := v / t;
    assert Pow(2, 8 - j) == 2 * t;
    DivDiv(v, t, 2);
    assert HighBits(v, j) == q / 2;
    DivModSplit(q, 2);
    calc {
      2 * read;
      2 * (acc * Pow(2, j) + q / 2);
      { MulSwap(2, acc, Pow(2, j)); }
      acc * (2 * Pow(2, j)) + 2 * (q / 2);
      acc * Pow(2, j + 1) + 2 * (q / 2);
    }
  }

  /** The bits read one at a time are the leading bits of v, appended to acc. */
  lemma {:induction false} ReadPrefixBits(acc: nat, v: u8, j: nat)
    requires j <= 8
    ensures ReadBits(ReadPrefix(acc, v, j), acc, v, j)
  {
    if j == 0 {
      Pow2Byte();
    } else {
      ReadPrefixBits(acc, v, j - 1);
      ReadBitsStep(ReadPrefix(acc, v, j - 1), acc, v, j - 1);
    }
  }

  /** After the eight bits of v, Exp has read acc followed by the byte v. */
  lemma ReadBitsEnd(acc: nat, v: u8)
    ensures ReadPrefix(acc, v, 8) == acc * 256 + v
  {
    ReadPrefixBits(acc, v, 8);
    Pow2Byte();
  }
}
