/**
 * The G1 point the compressed codec reads and writes, the flag-byte
 * operations both codec revisions share, and the square root math/big
 * computes for the codec.
 *
 * curve.go and bn256.go, which define curvePoint and G1, are not part of
 * this model.  A point here carries the four Montgomery-form coordinates the
 * codec touches; a point is at infinity when its z is zero, SetInfinity
 * writes (0, 1, 0, 0), and negation replaces y by -y and clears t.
 */
module Curve {
  import opened Numbers
  import opened Gfp

  // ---------------------------------------------------------------------
  // The curve y^2 = x^3 + 3

  /** curveB: the 3 of y^2 = x^3 + 3, in Montgomery form. */
  const CurveB: Limbs := NewGFp(3)

  /** x^3 + 3 reduced modulo p. */
  function CurveRhs(x: nat): (c: nat)
    ensures c < P
  {
    (x * x * x + 3) % P
  }

  /** The residues (x, y) satisfy the curve equation. */
  predicate OnCurve(x: nat, y: nat)
  {
    y * y % P == CurveRhs(x)
  }

  class CurvePoint {
    var x: Limbs
    var y: Limbs
    var z: Limbs
    var t: Limbs

    /** `&curvePoint{}`: every coordinate zero. */
    constructor()
      ensures x == Zero && y == Zero && z == Zero && t == Zero
    {
      x, y, z, t := Zero, Zero, Zero, Zero;
    }

    /** The identity is the point whose z is zero. */
    predicate IsInfinity()
      reads this
    {
      z == Zero
    }

    /** The point's form once MakeAffine has nothing left to do: z is one or zero. */
    predicate Affine()
      reads this
    {
      z == One || z == Zero
    }

    /** SetInfinity: the identity in its normal form (0, 1, 0, 0). */
    method SetInfinity()
      modifies this
      ensures x == Zero && y == One && z == Zero && t == Zero
      ensures IsInfinity()
    {
      NewGFpOne();
      x, y, z, t := Zero, NewGFp(1), Zero, Zero;
    }

    /** Neg: the receiver becomes -a, the same point with y replaced by -y. */
    method Neg(a: CurvePoint)
      modifies this
      ensures x == old(a.x) && y == GfpNeg(old(a.y)) && z == old(a.z) && t == Zero
    {
      var ax, ay, az := a.x, a.y, a.z;
      x, y, z, t := ax, GfpNeg(ay), az, Zero;
    }
  }

  class G1 {
    var p: CurvePoint?

    /** `new(G1)`: a group element with no point yet. */
    constructor()
      ensures p == null
    {
      p := null;
    }

    /** G1.Neg: the receiver's point becomes -a's point, allocated first if there is none. */
    method Neg(a: G1)
      requires a.p != null
      modifies this, p
      ensures p != null && (old(p) != null ==> p == old(p)) && (old(p) == null ==> fresh(p))
      ensures p.x == old(a.p.x) && p.y == GfpNeg(old(a.p.y)) && p.z == old(a.p.z) && p.t == Zero
    {
      if p == null {
        p := new CurvePoint();
      }
      p.Neg(a.p);
    }
  }

  /** gfpNeg on a reduced element: p - v for v > 0, zero for zero, and an involution. */
  lemma NegatedWords(y: Limbs)
    requires Reduced(y)
    ensures Reduced(GfpNeg(y)) && GfpNeg(GfpNeg(y)) == y
    ensures Val(GfpNeg(y)) == if Val(y) == 0 then 0 else P - Val(y)
    ensures y == Zero <==> Val(y) == 0
  {
    if Val(y) == 0 {
      LimbsInjective(y, Zero);
    } else {
      ModAddMultiple(0 - Val(y), 1, P);
      ModOfSmall(P - Val(y), P);
      assert Val(GfpNeg(y)) == P - Val(y);
      ModAddMultiple(0 - (P - Val(y)), 1, P);
      ModOfSmall(Val(y), P);
      LimbsInjective(GfpNeg(GfpNeg(y)), y);
    }
  }

  /** The Montgomery form of a residue read in through its words. */
  lemma EncodedRoot(s: nat)
    requires s < P
    ensures MontEncode(FromNat(s)) == Encode(s)
  {
    ModOfSmall(s, P);
    DInjective(MontEncode(FromNat(s)), Encode(s));
  }

  /**
   * A residue with the same square as y is y or -y, in Montgomery form
   * (p prime): a root of x^3 + 3 is the y of the point or of its negative.
   */
  lemma RootMatches(y: Limbs, s: nat)
    requires Fermat() && Reduced(y) && s < P && s * s % P == D(y) * D(y) % P
    ensures Encode(s) == y || (y != Zero && Encode(s) == GfpNeg(y))
  {
    SquareRoots(s, D(y));
    if s == D(y) {
      EncodeD(y);
    } else {
      DZero(y);
      NegDecodes(y);
      ModAddMultiple(0 - D(y), 1, P);
      ModOfSmall(P - D(y), P);
      NegatedWords(y);
      DInjective(Encode(s), GfpNeg(y));
    }
  }

  // ---------------------------------------------------------------------
  // What a decoder reports

  /** The errors the decoders return, in the order the checks are made. */
  datatype CodecError =
    | WrongEncodedPointSize
    | PointIsNotCompressed
    | HighYBitImproperlySet
    | InvalidInfinityEncoding
    | Coordinate(cause: Error)   // from Unmarshal
    | NotASquareModP

  /**
   * The effect of a DecodeCompressed call on its receiver.  Refused: the
   * error came before the point was touched.  Rejected: the point's
   * coordinates were reset, x holds `x` and y is zero.  AtInfinity: the
   * point was set to the identity.  Accepted: x and y hold the decoded
   * coordinates, and `negated` says whether the point was negated to
   * match the BIG_Y flag.  Panics: the Go runtime panicked.
   */
  datatype Decoding =
    | Refused(err: CodecError)
    | Rejected(err: CodecError, x: Limbs)
    | AtInfinity
    | Accepted(x: Limbs, y: Limbs, negated: bool)
    | Panics

  // ---------------------------------------------------------------------
  // The flag byte

  /** `b & flag != 0` for a flag of one bit. */
  predicate HasFlag(b: u8, flag: u8)
  {
    flag > 0 && (b / flag) % 2 == 1
  }

  /** `b | flag` for the three flag bits 0x80, 0x40 and 0x20. */
  function WithFlag(b: u8, flag: u8): (r: u8)
    requires flag == 0x80 || flag == 0x40 || flag == 0x20
    ensures HasFlag(r, flag) && Masked(r) == Masked(b)
  {
    if HasFlag(b, flag) then b else b + flag
  }

  /** `b & 0x1F`: the byte without its three flag bits. */
  function Masked(b: u8): (r: u8)
    ensures r < 0x20 && (b < 0x20 ==> r == b)
    ensures !HasFlag(r, 0x80) && !HasFlag(r, 0x40) && !HasFlag(r, 0x20)
  {
    b % 0x20
  }

  /** Every byte is zero. */
  predicate AllZero(bs: seq<u8>)
  {
    forall i :: 0 <= i < |bs| ==> bs[i] == 0
  }

  /** The `for i := range bin` loop of the decoders: reports whether some byte is not zero. */
  method AnyNonZero(bs: seq<u8>) returns (found: bool)
    ensures found <==> !AllZero(bs)
  {
    var i := 0;
    while i < |bs|
      invariant 0 <= i <= |bs|
      invariant forall j :: 0 <= j < i ==> bs[j] == 0
    {
      if bs[i] != 0 {
        return true;
      }
      i := i + 1;
    }
    return false;
  }

  // ---------------------------------------------------------------------
  // Square roots modulo p (math/big's ModSqrt for p = 3 mod 4)

  /** (p + 1) / 4. */
  const SqrtExponent: nat := 5472060717959818805561601436314318772174077789324455915672259473661306552146

  lemma SqrtExponentValue()
    ensures 4 * SqrtExponent == P + 1
  {
  }

  /**
   * big.Int.ModSqrt modulo p: the candidate c^((p+1)/4) mod p, which is a
   * root of c whenever c has one, reported when it squares back to c and
   * nil otherwise.
   */
  function ModSqrt(c: nat): (r: Option<nat>)
    ensures r.Some? ==> r.value < P && r.value * r.value % P == c % P
  {
    var s := Pow(c % P, SqrtExponent) % P;
    PowTwo(s);
    if Pow(s, 2) % P == c % P then Some(s) else None
  }

  lemma {:induction false} PowOne(k: nat)
    ensures Pow(1, k) == 1
  {
    if k > 0 {
      PowOne(k - 1);
    }
  }

  /** Raising a square to the k-th power is raising its root to the 2k-th. */
  lemma {:induction false} PowOfSquare(s: nat, k: nat)
    ensures Pow(s * s, k) == Pow(s, 2 * k)
  {
    if k > 0 {
      PowOfSquare(s, k - 1);
      assert Pow(s, 2 * k) == s * (s * Pow(s, 2 * (k - 1)));
      MulAssoc(s, s, Pow(s, 2 * (k - 1)));
    }
  }

  /** Powers may reduce their base modulo p first. */
  lemma {:induction false} PowModBase(a: nat, k: nat)
    ensures Pow(a % P, k) % P == Pow(a, k) % P
  {
    if k > 0 {
      PowModBase(a, k - 1);
      ModMulBoth(a, Pow(a, k - 1), P);
      ModMulBoth(a % P, Pow(a % P, k - 1), P);
      ModIdempotent(a, P);
    }
  }

  /** A product of residues is zero only if a factor is (p prime). */
  lemma ZeroProduct(a: nat, b: nat)
    requires Fermat() && a < P && b < P && a * b % P == 0
    ensures a == 0 || b == 0
  {
    if a != 0 {
      var k := Pow(a, PMinusOne - 1);
      assert Pow(a, PMinusOne) % P == 1;
      assert Pow(a, PMinusOne) == a * k;
      calc {
        b;
        { ModOfSmall(b, P); }
        b * 1 % P;
        { ModMulRight(b, a * k, P); }
        b * (a * k) % P;
        { MulAssoc(b, a, k); MulSwap(a, b, k); }
        (a * b) * k % P;
        { ModMulLeft(a * b, k, P); }
        0;
      }
    }
  }

  /** Two residues with the same square are equal or opposite (p prime). */
  lemma SquareRoots(r: nat, s: nat)
    requires Fermat() && r < P && s < P && r * r % P == s * s % P
    ensures r == s || r + s == P
  {
    SameSquare(r, s, P);
    ZeroProduct((r - s) % P, (r + s) % P);
    if (r - s) % P == 0 {
      ZeroResidue(r - s, P);
    } else if r + s != 0 {
      ModAddMultiple(r + s - P, 1, P);
      ZeroResidue(r + s - P, P);
    }
  }

  /** Equal squares modulo m make the product of the difference and the sum vanish. */
  lemma SameSquare(r: int, s: int, m: int)
    requires m > 0 && r * r % m == s * s % m
    ensures ((r - s) % m) * ((r + s) % m) % m == 0
  {
    calc {
      ((r - s) % m) * ((r + s) % m) % m;
      { ModMulBoth(r - s, r + s, m); }
      (r - s) * (r + s) % m;
      { DifferenceOfSquares(r, s); }
      (r * r - s * s) % m;
      { ModSubBoth(r * r, s * s, m); }
      (r * r % m - s * s % m) % m;
    }
  }

  lemma DifferenceOfSquares(r: int, s: int)
    ensures (r - s) * (r + s) == r * r - s * s
  {
  }

  /** The only multiple of m strictly between -m and m is zero. */
  lemma ZeroResidue(x: int, m: int)
    requires m > 0 && -m < x < m && x % m == 0
    ensures x == 0
  {
    if x >= 0 {
      ModOfSmall(x, m);
    } else {
      ModAddMultiple(x, 1, m);
      ModOfSmall(x + m, m);
    }
  }

  /** s^2 times s^(p-1) is s^2 again modulo p (p prime). */
  lemma FermatSquare(s: nat)
    requires Fermat()
    ensures Pow(s, 2 + PMinusOne) % P == s * s % P
  {
    PowAdd(s, 2, PMinusOne);
    PowTwo(s);
    var f := Pow(s, PMinusOne);
    if s % P == 0 {
      SquareOfMultiple(s, f, P);
    } else {
      PowModBase(s, PMinusOne);
      MulByOne(s * s, f, P);
    }
  }

  lemma PowTwo(s: nat)
    ensures Pow(s, 2) == s * s
  {
    assert Pow(s, 1) == s;
  }

  /** A multiple of m squared, times anything, is still zero modulo m. */
  lemma SquareOfMultiple(s: int, f: int, m: int)
    requires m > 0 && s % m == 0
    ensures (s * s) * f % m == s * s % m
  {
    var q := s / m;
    assert s == q * m;
    assert (s * s) * f == (q * s * f) * m;
    assert s * s == (q * s) * m;
    ModAddMultiple(0, q * s * f, m);
    ModAddMultiple(0, q * s, m);
  }

  /** Multiplying by a factor that is one modulo m changes nothing modulo m. */
  lemma MulByOne(a: int, f: int, m: int)
    requires m > 0 && f % m == 1
    ensures a * f % m == a % m
  {
    ModMulRight(a, f, m);
  }

  /** For p = 3 mod 4, c^((p+1)/4) squares to c whenever c is the square s^2 (p prime). */
  lemma SqrtCandidate(c: nat, s: nat)
    requires Fermat() && c % P == s * s % P
    ensures (Pow(c, SqrtExponent) % P) * (Pow(c, SqrtExponent) % P) % P == c % P
  {
    var k := SqrtExponent;
    calc {
      Pow(c, k) % P;
      { PowModBase(c, k); }
      Pow(c % P, k) % P;
      { PowModBase(s * s, k); }
      Pow(s * s, k) % P;
      { PowOfSquare(s, k); }
      Pow(s, 2 * k) % P;
    }
    PowModMul(s, 2 * k, 2 * k, P);
    SqrtExponentValue();
    assert 2 * k + 2 * k == 2 + PMinusOne;
    FermatSquare(s);
  }

  /** ModSqrt finds a root of every square (p prime): it fails exactly for the non-squares. */
  lemma ModSqrtComplete(c: nat, s: nat)
    requires Fermat() && s * s % P == c % P
    ensures ModSqrt(c).Some?
  {
    ModIdempotent(c, P);
    SqrtCandidate(c % P, s);
    PowTwo(Pow(c % P, SqrtExponent) % P);
  }
}
