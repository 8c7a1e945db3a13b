/**
 * The base field GF(p) of BN254 (gfp.go).
 *
 * An element is four 64-bit words, least significant first, holding a
 * residue in Montgomery form: the element x is stored as x*R mod p with
 * R = 2^256.  The field primitives gfpAdd, gfpSub, gfpNeg and gfpMul are
 * written in assembly elsewhere in the package; here each one returns the
 * fully reduced residue it computes.  The constants p2, rN1, r2 and r3 live
 * in constants.go, which is not part of this model: they are p, R^-1, R^2
 * and R^3 modulo p, with the word values written below.
 */
module Gfp {
  import opened Numbers

  /** The BN254 base field modulus p. */
  const P: nat := 21888242871839275222246405745257275088696311157297823662689037894645226208583
  /** The Montgomery radix R = 2^256. */
  const R: nat := 0x1_0000_0000_0000_0000_0000_0000_0000_0000_0000_0000_0000_0000_0000_0000_0000_0000
  /** R^-1 modulo p. */
  const RInv: nat := 20988524275117001072002809824448087578619730785600314334253784976379291040311

  const W2: nat := 0x1_0000_0000_0000_0000_0000_0000_0000_0000  // 2^128
  const W3: nat := 0x1_0000_0000_0000_0000_0000_0000_0000_0000_0000_0000_0000_0000  // 2^192

  /** The number of 64-bit words of an element. */
  const FpUint64Size: nat := 4

  /** A gfP: four 64-bit words, least significant first. */
  type Limbs = s: seq<u64> | |s| == 4 witness [0, 0, 0, 0]

  /** The integer the four words spell out. */
  function Val(e: Limbs): nat
  {
    e[0] + W * e[1] + W2 * e[2] + W3 * e[3]
  }

  /** The words of an integer below 2^256. */
  function FromNat(n: nat): (e: Limbs)
    requires n < R
    ensures Val(e) == n
  {
    DivModSplit(n, W);
    DivModSplit(n / W, W);
    DivModSplit(n / W / W, W);
    DivDiv(n, W, W);
    DivDiv(n, W2, W);
    DivLess(n / W / W / W, 1, W);
    var e := LimbsOf(n, 4);
    assert e == [n % W, (n / W) % W, (n / W / W) % W, (n / W / W / W) % W] by {
      assert LimbsOf(n, 4) == [n % W] + LimbsOf(n / W, 3);
      assert LimbsOf(n / W, 3) == [(n / W) % W] + LimbsOf(n / W / W, 2);
      assert LimbsOf(n / W / W, 2) == [(n / W / W) % W] + LimbsOf(n / W / W / W, 1);
      assert LimbsOf(n / W / W / W, 1) == [(n / W / W / W) % W];
    }
    e
  }

  /** The k lowest 64-bit words of n, least significant first. */
  function LimbsOf(n: nat, k: nat): (ws: seq<u64>)
    ensures |ws| == k
  {
    if k == 0 then [] else [n % W] + LimbsOf(n / W, k - 1)
  }

  lemma ValBound(e: Limbs)
    ensures Val(e) < R
  {
  }

  /** Words and integers below 2^256 are in one-to-one correspondence. */
  lemma FromNatVal(e: Limbs)
    ensures FromNat(Val(e)) == e
  {
    var f := FromNat(Val(e));
    LimbsInjective(e, f);
  }

  lemma LimbsInjective(e: Limbs, f: Limbs)
    requires Val(e) == Val(f)
    ensures e == f
  {
    var hi := e[1] + W * e[2] + W2 * e[3];
    var hf := f[1] + W * f[2] + W2 * f[3];
    assert Val(e) == hi * W + e[0] && Val(f) == hf * W + f[0];
    DivModUnique(Val(e), W, hi, e[0]);
    DivModUnique(Val(f), W, hf, f[0]);
    var hi2 := e[2] + W * e[3];
    var hf2 := f[2] + W * f[3];
    assert hi == hi2 * W + e[1] && hf == hf2 * W + f[1];
    DivModUnique(hi, W, hi2, e[1]);
    DivModUnique(hf, W, hf2, f[1]);
    DivModUnique(hi2, W, e[3], e[2]);
    DivModUnique(hf2, W, f[3], f[2]);
  }

  const Zero: Limbs := [0, 0, 0, 0]
  /** p2 in constants.go: the modulus in words. */
  const P2: Limbs := [0x3c208c16d87cfd47, 0x97816a916871ca8d, 0xb85045b68181585d, 0x30644e72e131a029]
  /** rN1 in constants.go: R^-1 mod p. */
  const RN1: Limbs := [0xed84884a014afa37, 0xeb2022850278edf8, 0xcf63e9cfb74492d9, 0x2e67157159e5c639]
  /** r2 in constants.go: R^2 mod p. */
  const R2: Limbs := [0xf32cfc5b538afa89, 0xb5e71911d44501fb, 0x47ab1eff0a417ff6, 0x06d89f71cab8351f]
  /** r3 in constants.go: R^3 mod p. */
  const R3: Limbs := [0xb1cd6dafda1530df, 0x62f210e6a7283db6, 0xef7f0b0c0ada0afb, 0x20fd6e902d592544]
  /** newGFp(1): R mod p, the Montgomery form of one. */
  const One: Limbs := [0xd35d438dc58f0d9d, 0x0a78eb28f5c70b3d, 0x666ea36f7879462c, 0x0e0a77c19a07df2f]

  lemma Constants()
    ensures Val(P2) == P && P % 4 == 3 && P % 2 == 1
    ensures Val(RN1) == RInv && (R * RInv) % P == 1
    ensures Val(R2) == (R * R) % P
    ensures Val(R3) == (R * R * R) % P
    ensures Val(One) == R % P
  {
  }

  /** An element whose words hold a residue below p. */
  predicate Reduced(e: Limbs)
  {
    Val(e) < P
  }

  // ---------------------------------------------------------------------
  // The field primitives (assembly in the package) and their meaning

  /** The element a Montgomery-form word vector stands for. */
  function D(e: Limbs): nat
  {
    Val(e) * RInv % P
  }

  /** The Montgomery form of a residue. */
  function Encode(v: nat): (e: Limbs)
    requires v < P
    ensures Reduced(e) && D(e) == v
  {
    var e := FromNat(v * R % P);
    EncodeDecodes(v);
    e
  }

  lemma EncodeDecodes(v: nat)
    requires v < P
    ensures (v * R % P) * RInv % P == v
  {
    Constants();
    ModMulLeft(v * R, RInv, P);
    assert v * R * RInv == v * (R * RInv);
    ModMulRight(v, R * RInv, P);
    ModOfSmall(v, P);
  }

  /** gfpAdd: c = a + b. */
  function GfpAdd(a: Limbs, b: Limbs): Limbs
  {
    FromNat((Val(a) + Val(b)) % P)
  }

  /** gfpSub: c = a - b. */
  function GfpSub(a: Limbs, b: Limbs): Limbs
  {
    FromNat((Val(a) - Val(b)) % P)
  }

  /** gfpNeg: c = -a. */
  function GfpNeg(a: Limbs): Limbs
  {
    FromNat((0 - Val(a)) % P)
  }

  /** gfpMul: the Montgomery product c = a*b*R^-1. */
  function GfpMul(a: Limbs, b: Limbs): Limbs
  {
    FromNat(Val(a) * Val(b) * RInv % P)
  }

  lemma PrimitivesReduced(a: Limbs, b: Limbs)
    ensures Reduced(GfpAdd(a, b)) && Reduced(GfpSub(a, b))
    ensures Reduced(GfpNeg(a)) && Reduced(GfpMul(a, b))
  {
  }

  /** gfpAdd adds the elements. */
  lemma AddDecodes(a: Limbs, b: Limbs)
    ensures D(GfpAdd(a, b)) == (D(a) + D(b)) % P
  {
    var x, y := Val(a), Val(b);
    ModMulLeft(x + y, RInv, P);
    assert (x + y) * RInv == x * RInv + y * RInv;
    ModAddLeft(x * RInv, y * RInv, P);
    ModAddRight(D(a), y * RInv, P);
  }

  /** gfpSub subtracts the elements. */
  lemma SubDecodes(a: Limbs, b: Limbs)
    ensures D(GfpSub(a, b)) == (D(a) - D(b)) % P
  {
    var x, y := Val(a), Val(b);
    ModMulLeft(x - y, RInv, P);
    assert (x - y) * RInv == x * RInv - y * RInv;
    ModSubLeft(x * RInv, y * RInv, P);
    ModSubRight(D(a), y * RInv, P);
  }

  /** gfpNeg negates the element. */
  lemma NegDecodes(a: Limbs)
    ensures D(GfpNeg(a)) == (0 - D(a)) % P
  {
    var x := Val(a);
    ModMulLeft(0 - x, RInv, P);
    assert (0 - x) * RInv == 0 - x * RInv;
    ModSubRight(0, x * RInv, P);
  }

  /** gfpMul multiplies the elements. */
  lemma MulDecodes(a: Limbs, b: Limbs)
    ensures D(GfpMul(a, b)) == D(a) * D(b) % P
  {
    var x, y := Val(a), Val(b);
    ModMulLeft(x * y * RInv, RInv, P);
    assert x * y * RInv * RInv == (x * RInv) * (y * RInv);
    ModMulLeft(x * RInv, D(b), P);
    ModMulRight(x * RInv, y * RInv, P);
  }

  /** A reduced element is determined by what it stands for. */
  lemma ValFromD(e: Limbs)
    requires Reduced(e)
    ensures Val(e) == D(e) * R % P
  {
    Constants();
    var x := Val(e);
    ModMulLeft(x * RInv, R, P);
    assert x * RInv * R == x * (RInv * R);
    ModMulRight(x, RInv * R, P);
    ModOfSmall(x, P);
  }

  lemma DInjective(a: Limbs, b: Limbs)
    requires Reduced(a) && Reduced(b) && D(a) == D(b)
    ensures a == b
  {
    ValFromD(a);
    ValFromD(b);
    LimbsInjective(a, b);
  }

  lemma DBound(e: Limbs)
    ensures D(e) < P
  {
  }

  lemma EncodeD(e: Limbs)
    requires Reduced(e)
    ensures Encode(D(e)) == e
  {
    DInjective(Encode(D(e)), e);
  }

  lemma DZero(e: Limbs)
    requires Reduced(e)
    ensures D(e) == 0 <==> e == Zero
  {
    if D(e) == 0 {
      ValFromD(e);
      LimbsInjective(e, Zero);
    }
  }

  lemma DOne()
    ensures D(One) == 1 && Reduced(One)
  {
  }

  // ---------------------------------------------------------------------
  // Montgomery conversion and small constants (gfp.go:17-27, 123-124)

  /** montEncode: multiply by r2, giving the Montgomery form of a plain integer. */
  function MontEncode(a: Limbs): (c: Limbs)
    ensures Reduced(c) && D(c) == Val(a) % P
  {
    MulDecodes(a, R2);
    Constants();
    EncodeDecodes(R % P);
    assert D(R2) == R % P by {
      assert R * R % P * RInv % P == (R % P) * R % P * RInv % P by {
        ModMulLeft(R, R, P);
      }
    }
    ModMulLeft(Val(a) * RInv, R % P, P);
    ModMulRight(Val(a) * RInv, R, P);
    assert Val(a) * RInv * R == Val(a) * (R * RInv);
    ModMulRight(Val(a), R * RInv, P);
    GfpMul(a, R2)
  }

  /** montDecode: multiply by the plain integer one, leaving the residue the form stands for. */
  function MontDecode(a: Limbs): (c: Limbs)
    ensures Reduced(c) && Val(c) == D(a)
  {
    assert Val([1, 0, 0, 0]) == 1;
    GfpMul(a, [1, 0, 0, 0])
  }

  /** Decoding undoes encoding for any word vector, and encoding undoes decoding for reduced ones. */
  lemma MontRoundTrip(a: Limbs)
    ensures Val(MontDecode(MontEncode(a))) == Val(a) % P
    ensures Reduced(a) ==> MontEncode(MontDecode(a)) == a
  {
    if Reduced(a) {
      ModOfSmall(Val(MontDecode(a)), P);
      DInjective(MontEncode(MontDecode(a)), a);
    }
  }

  const MinInt64: int := -0x8000_0000_0000_0000
  const MaxInt64: int := 0x7fff_ffff_ffff_ffff

  /**
   * newGFp: the Montgomery form of a signed 64-bit integer.  A negative x is
   * negated first (for the smallest int64 the negation wraps to itself and
   * its uint64 conversion is 2^63 = -x all the same), then gfpNeg is applied.
   */
  function NewGFp(x: int): (e: Limbs)
    requires MinInt64 <= x <= MaxInt64
    ensures Reduced(e) && D(e) == x % P
  {
    if x >= 0 then
      MontEncode(FromNat(x))
    else
      var m := GfpNeg(FromNat(-x));
      NegModular(-x);
      MontEncode(m)
  }

  lemma NegModular(n: nat)
    requires n < R
    ensures Val(GfpNeg(FromNat(n))) % P == (0 - n) % P
  {
  }

  lemma NewGFpOne()
    ensures NewGFp(1) == One
  {
    DOne();
    DInjective(NewGFp(1), One);
  }

  // ---------------------------------------------------------------------
  // Inversion by Fermat's little theorem (gfp.go:70-91)

  /** `bits` in Invert: the words of p - 2. */
  const InvertExponent: Limbs := [0x3c208c16d87cfd45, 0x97816a916871ca8d, 0xb85045b68181585d, 0x30644e72e131a029]

  lemma InvertExponentValue()
    ensures Val(InvertExponent) == P - 2
  {
  }

  /** The part of the exponent held in the words below `word`. */
  function LowWords(bits: Limbs, word: nat): nat
    requires word <= 4
  {
    if word == 0 then 0 else LowWords(bits, word - 1) + bits[word - 1] * Pow(2, 64 * (word - 1))
  }

  lemma Pow2Words()
    ensures Pow(2, 0) == 1 && Pow(2, 64) == W && Pow(2, 128) == W2 && Pow(2, 192) == W3
  {
    assert Pow(2, 1) == 2;
    PowAdd(2, 1, 1);
    assert Pow(2, 2) == 4;
    PowAdd(2, 2, 2);
    assert Pow(2, 4) == 16;
    PowAdd(2, 4, 4);
    assert Pow(2, 8) == 0x100;
    PowAdd(2, 8, 8);
    assert Pow(2, 16) == 0x1_0000;
    PowAdd(2, 16, 16);
    assert Pow(2, 32) == 0x1_0000_0000;
    PowAdd(2, 32, 32);
    assert Pow(2, 64) == W;
    PowAdd(2, 64, 64);
    assert Pow(2, 128) == W2;
    PowAdd(2, 128, 64);
  }

  lemma LowWordsAll(bits: Limbs)
    ensures LowWords(bits, 4) == Val(bits)
  {
    Pow2Words();
    assert LowWords(bits, 1) == bits[0];
    assert LowWords(bits, 2) == bits[0] + bits[1] * W;
    assert LowWords(bits, 3) == bits[0] + bits[1] * W + bits[2] * W2;
  }

  /** The inverse of an element in Montgomery form, f^(p-2); zero for zero. */
  function Inverse(f: Limbs): (e: Limbs)
    ensures Reduced(e) && D(e) == Pow(D(f), P - 2) % P
  {
    Encode(Pow(D(f), P - 2) % P)
  }

  /** One squaring step: f^(2^k) squared is f^(2^(k+1)). */
  lemma SquareStep(x: nat, k: nat)
    ensures (Pow(x, Pow(2, k)) % P) * (Pow(x, Pow(2, k)) % P) % P == Pow(x, Pow(2, k + 1)) % P
  {
    PowModMul(x, Pow(2, k), Pow(2, k), P);
  }

  /** One multiply step: c*f^a times f^(2^k) is c*f^(a + 2^k). */
  lemma MultiplyStep(c: nat, x: nat, a: nat, k: nat)
    ensures (c * Pow(x, a) % P) * (Pow(x, Pow(2, k)) % P) % P == c * Pow(x, a + Pow(2, k)) % P
  {
    var u, v := Pow(x, a), Pow(x, Pow(2, k));
    calc {
      (c * u % P) * (v % P) % P;
      { ModMulLeft(c * u, v % P, P); }
      (c * u) * (v % P) % P;
      { ModMulRight(c * u, v, P); }
      (c * u) * v % P;
      { MulAssoc(c, u, v); }
      c * (u * v) % P;
      { PowAdd(x, a, Pow(2, k)); }
      c * Pow(x, a + Pow(2, k)) % P;
    }
  }

  /** The exponent consumed after `bit` bits of `word`. */
  lemma ExponentStep(v: u64, word: nat, bit: nat)
    ensures v % Pow(2, bit + 1) * Pow(2, 64 * word)
         == v % Pow(2, bit) * Pow(2, 64 * word) + ((v / Pow(2, bit)) % 2) * Pow(2, 64 * word + bit)
  {
    var t, s := Pow(2, bit), Pow(2, 64 * word);
    var q := (v / t) % 2;
    calc {
      v % Pow(2, bit + 1) * s;
      { assert Pow(2, bit + 1) == t * 2; }
      v % (t * 2) * s;
      { DivDiv(v, t, 2); }
      (v % t + t * q) * s;
      { Distrib(v % t, t * q, s); }
      v % t * s + (t * q) * s;
      { MulSwap(q, s, t); assert (t * q) * s == q * (s * t); }
      v % t * s + q * (s * t);
      { PowAdd(2, 64 * word, bit); }
      v % t * s + q * Pow(2, 64 * word + bit);
    }
  }

  lemma InvertConstants()
    ensures D(RN1) * D(R3) % P == 1
  {
    assert Val(RN1) == RInv;
    assert D(RN1) == 6410373471146203899779102587304573274140162195127785533730612965577178602827;
    assert Val(R3) == 14921786541159648185948152738563080959093619838510245177710943249661917737183;
    assert D(R3) == 3096616502983703923843567936837374451735540968419076528771170197431451843209;
  }

  /** Bit i of v: `(v >> i) & 1 == 1`. */
  predicate Bit(v: nat, i: nat)
  {
    (v / Pow(2, i)) % 2 == 1
  }

  /** The part of the exponent consumed after `bit` bits of word `word`. */
  function Consumed(bits: Limbs, word: nat, bit: nat): nat
    requires word < 4
  {
    LowWords(bits, word) + bits[word] % Pow(2, bit) * Pow(2, 64 * word)
  }

  lemma ConsumedStep(bits: Limbs, word: nat, bit: nat)
    requires word < 4
    ensures Bit(bits[word], bit) ==>
      Consumed(bits, word, bit + 1) == Consumed(bits, word, bit) + Pow(2, 64 * word + bit)
    ensures !Bit(bits[word], bit) ==>
      Consumed(bits, word, bit + 1) == Consumed(bits, word, bit)
  {
    ExponentStep(bits[word], word, bit);
  }

  lemma ConsumedWord(bits: Limbs, word: nat)
    requires word < 4
    ensures Consumed(bits, word, 0) == LowWords(bits, word)
    ensures Consumed(bits, word, 64) == LowWords(bits, word + 1)
  {
    Pow2Words();
    ModOfSmall(bits[word], W);
  }

  /** Invert's `power` after k squarings of f stands for f^(2^k). */
  predicate Squared(power: Limbs, x: nat, k: nat)
  {
    D(power) == Pow(x, Pow(2, k)) % P
  }

  /** Invert's `sum` after consuming the exponent bits worth n stands for rN1 * f^n. */
  predicate Accumulated(sum: Limbs, x: nat, n: nat)
  {
    D(sum) == D(RN1) * Pow(x, n) % P
  }

  /** The squaring in Invert's inner loop takes f^(2^k) to f^(2^(k+1)). */
  lemma SquaringStep(power: Limbs, x: nat, k: nat)
    requires Squared(power, x, k)
    ensures Squared(GfpMul(power, power), x, k + 1)
  {
    MulDecodes(power, power);
    SquareStep(x, k);
  }

  /** The multiplication in Invert's inner loop, done when the bit is set, adds 2^k to the exponent. */
  lemma MultiplyingStep(sum: Limbs, power: Limbs, x: nat, k: nat, bits: Limbs, word: nat, bit: nat)
    requires word < 4 && k == 64 * word + bit
    requires Squared(power, x, k)
    requires Accumulated(sum, x, Consumed(bits, word, bit))
    ensures Bit(bits[word], bit) ==> Accumulated(GfpMul(sum, power), x, Consumed(bits, word, bit + 1))
    ensures !Bit(bits[word], bit) ==> Accumulated(sum, x, Consumed(bits, word, bit + 1))
  {
    if Bit(bits[word], bit) {
      ConsumedStep(bits, word, bit);
      var c := Consumed(bits, word, bit);
      calc {
        D(GfpMul(sum, power));
        { MulDecodes(sum, power); }
        D(sum) * D(power) % P;
        (D(RN1) * Pow(x, c) % P) * (Pow(x, Pow(2, k)) % P) % P;
        { MultiplyStep(D(RN1), x, c, k); }
        D(RN1) * Pow(x, c + Pow(2, k)) % P;
        D(RN1) * Pow(x, Consumed(bits, word, bit + 1)) % P;
      }
    } else {
      ConsumedStep(bits, word, bit);
    }
  }

  /** The final multiplication by r3 cancels the rN1 the sum started from. */
  lemma InvertFinish(sum: Limbs, x: nat, n: nat)
    requires Accumulated(sum, x, n)
    ensures D(GfpMul(sum, R3)) == Pow(x, n) % P
  {
    MulDecodes(sum, R3);
    InvertConstants();
    CancelFactor(D(RN1), Pow(x, n), D(R3), P);
  }

  /** Multiplying by b undoes a factor a when a * b is one modulo m. */
  lemma CancelFactor(a: nat, c: nat, b: nat, m: nat)
    requires m > 0 && a * b % m == 1
    ensures (a * c % m) * b % m == c % m
  {
    calc {
      (a * c % m) * b % m;
      { ModMulLeft(a * c, b, m); }
      a * c * b % m;
      { MulRotate(a, c, b); }
      c * (a * b) % m;
      { ModMulRight(c, a * b, m); }
      c * (a * b % m) % m;
    }
  }

  lemma MulRotate(a: int, c: int, b: int)
    ensures a * c * b == c * (a * b)
  {
  }

  lemma InvertResult(sum: Limbs, f: Limbs)
    requires Accumulated(sum, D(f), LowWords(InvertExponent, 4))
    ensures GfpMul(sum, R3) == Inverse(f)
  {
    LowWordsAll(InvertExponent);
    InvertExponentValue();
    InvertFinish(sum, D(f), P - 2);
    DInjective(GfpMul(sum, R3), Inverse(f));
  }

  /** What Invert's two accumulators stand for after `bit` bits of word `word`. */
  predicate InvertInvariant(sum: Limbs, power: Limbs, x: nat, word: nat, bit: nat)
    requires word < 4
  {
    Squared(power, x, 64 * word + bit) && Accumulated(sum, x, Consumed(InvertExponent, word, bit))
  }

  /** `sum` after the step for one bit: multiplied by `power` when the bit is set. */
  function NextSum(sum: Limbs, power: Limbs, word: nat, bit: nat): Limbs
    requires word < 4
  {
    if Bit(InvertExponent[word], bit) then GfpMul(sum, power) else sum
  }

  lemma InvertBitStep(sum: Limbs, power: Limbs, x: nat, word: nat, bit: nat)
    requires word < 4 && InvertInvariant(sum, power, x, word, bit)
    ensures InvertInvariant(NextSum(sum, power, word, bit), GfpMul(power, power), x, word, bit + 1)
  {
    MultiplyingStep(sum, power, x, 64 * word + bit, InvertExponent, word, bit);
    SquaringStep(power, x, 64 * word + bit);
  }

  lemma InvertWordStart(sum: Limbs, power: Limbs, x: nat, word: nat)
    requires word < 4
    requires Squared(power, x, 64 * word) && Accumulated(sum, x, LowWords(InvertExponent, word))
    ensures InvertInvariant(sum, power, x, word, 0)
  {
    ConsumedWord(InvertExponent, word);
  }

  lemma InvertWordEnd(sum: Limbs, power: Limbs, x: nat, word: nat)
    requires word < 4 && InvertInvariant(sum, power, x, word, 64)
    ensures Squared(power, x, 64 * (word + 1)) && Accumulated(sum, x, LowWords(InvertExponent, word + 1))
  {
    ConsumedWord(InvertExponent, word);
    assert 64 * word + 64 == 64 * (word + 1);
  }

  lemma InvertStart(f: Limbs)
    ensures Squared(f, D(f), 64 * 0) && Accumulated(RN1, D(f), LowWords(InvertExponent, 0))
  {
    assert Pow(D(f), Pow(2, 0)) == D(f);
    assert Pow(D(f), 0) == 1;
    DBound(RN1);
    ModOfSmall(D(RN1), P);
  }

  /**
   * Invert: square-and-multiply over the 256 bits of p - 2, least significant
   * first, starting from rN1 and finishing with a multiplication by r3.  The
   * result stands for f^(p-2), the inverse of f when f is not zero.
   */
  method Invert(f: Limbs) returns (e: Limbs)
    ensures e == Inverse(f)
  {
    var bits := InvertExponent;
    var sum := RN1;
    var power := f;
    ghost var x := D(f);
    InvertStart(f);
    var word := 0;
    while word < 4
      invariant 0 <= word <= 4
      invariant Squared(power, x, 64 * word)
      invariant Accumulated(sum, x, LowWords(bits, word))
    {
      InvertWordStart(sum, power, x, word);
      var bit := 0;
      while bit < 64
        invariant 0 <= bit <= 64
        invariant InvertInvariant(sum, power, x, word, bit)
      {
        InvertBitStep(sum, power, x, word, bit);
        ghost var next := NextSum(sum, power, word, bit);
        if Bit(bits[word], bit) {
          sum := GfpMul(sum, power);
        }
        assert sum == next;
        power := GfpMul(power, power);
        bit := bit + 1;
      }
      InvertWordEnd(sum, power, x, word);
      word := word + 1;
    }
    InvertResult(sum, f);
    sum := GfpMul(sum, R3);
    e := sum;
  }

  const PMinusOne: nat := P - 1

  /** With Fermat's little theorem for p, f^(p-1) is one for every non-zero f. */
  ghost predicate Fermat()
  {
    FermatHolds(P)
  }

  /** Invert's result times f stands for f^(p-1): one when f is not zero and p is prime. */
  lemma InverseProduct(f: Limbs)
    ensures D(GfpMul(f, Inverse(f))) == Pow(D(f), P - 1) % P
    ensures Fermat() && D(f) != 0 ==> D(GfpMul(f, Inverse(f))) == 1
  {
    MulDecodes(f, Inverse(f));
    assert Pow(D(f), 1) == D(f);
    PowModMul(D(f), 1, P - 2, P);
    ModOfSmall(D(f), P);
  }

  /** The inverse of zero is zero. */
  lemma InverseZero(f: Limbs)
    requires D(f) == 0
    ensures Inverse(f) == Zero
  {
    PowZero(P - 2);
    DZero(Inverse(f));
  }

  // ---------------------------------------------------------------------
  // Byte encoding (gfp.go:93-118) and the big-integer bridges (gfp.go:29-61)

  const B248: nat := 0x1_00_0000_0000_0000_0000_0000_0000_0000_0000_0000_0000_0000_0000_0000_0000_0000  // 2^248

  lemma Pow256()
    ensures Pow(256, 8) == W && Pow(256, 16) == W2 && Pow(256, 24) == W3
    ensures Pow(256, 31) == B248 && Pow(256, 32) == R
  {
    assert Pow(256, 1) == 0x100;
    PowAdd(256, 1, 1);
    assert Pow(256, 2) == 0x1_0000;
    PowAdd(256, 2, 1);
    assert Pow(256, 3) == 0x100_0000;
    PowAdd(256, 2, 2);
    assert Pow(256, 4) == 0x1_0000_0000;
    PowAdd(256, 4, 3);
    assert Pow(256, 7) == 0x100_0000_0000_0000;
    PowAdd(256, 4, 4);
    assert Pow(256, 8) == W;
    PowAdd(256, 8, 8);
    assert Pow(256, 16) == W2;
    PowAdd(256, 16, 8);
    assert Pow(256, 24) == W3;
    PowAdd(256, 24, 7);
    assert Pow(256, 31) == B248;
    PowAdd(256, 24, 8);
  }

  /**
   * The 32 bytes Marshal writes: word 3 - w goes to bytes 8w..8w+7, most
   * significant byte first.  `>> (56 - 8*b)` is a division by 256^(7-b) and
   * the conversion to `byte` keeps the low eight bits.
   */
  function MarshalBytes(e: Limbs): (bs: seq<u8>)
    ensures |bs| == 32
  {
    seq(32, i requires 0 <= i < 32 => (e[3 - i / 8] / Pow(256, 7 - i % 8)) % 256)
  }

  /** The big-endian word in bytes 8i..8i+7. */
  function WordAt(bs: seq<u8>, i: nat): (v: nat)
    requires 8 * i + 8 <= |bs|
    ensures v < W
  {
    var v := FromBE(bs[8 * i .. 8 * i + 8], 256);
    FromBEBound(bs[8 * i .. 8 * i + 8], 256);
    Pow256();
    v
  }

  /** The four big-endian words of the first 32 bytes, least significant word first. */
  function WordsOf(bs: seq<u8>): (e: Limbs)
    requires |bs| >= 32
  {
    [WordAt(bs, 3), WordAt(bs, 2), WordAt(bs, 1), WordAt(bs, 0)]
  }

  /** The words read back from 32 bytes are the big-endian integer they spell. */
  lemma WordsOfValue(bs: seq<u8>)
    requires |bs| >= 32
    ensures Val(WordsOf(bs)) == FromBE(bs[..32], 256)
  {
    Pow256();
    var b := bs[..32];
    assert b == b[..24] + b[24..32];
    FromBEAppend(b[..24], b[24..32], 256);
    assert b[..24] == b[..16] + b[16..24];
    FromBEAppend(b[..16], b[16..24], 256);
    assert b[..16] == b[..8] + b[8..16];
    FromBEAppend(b[..8], b[8..16], 256);
    assert b[..8] == bs[0..8] && b[8..16] == bs[8..16] && b[16..24] == bs[16..24] && b[24..32] == bs[24..32];
  }

  /** The eight bytes of one word in the encoding are its base-256 digits. */
  lemma MarshalWordBytes(e: Limbs, w: nat)
    requires w < 4
    ensures MarshalBytes(e)[8 * w .. 8 * w + 8] == Digits(e[3 - w], 256, 8)
  {
    var bs := MarshalBytes(e)[8 * w .. 8 * w + 8];
    forall b | 0 <= b < 8
      ensures bs[b] == Digits(e[3 - w], 256, 8)[b]
    {
      DigitAt(e[3 - w], 256, 8, b);
      assert (8 * w + b) / 8 == w && (8 * w + b) % 8 == b;
    }
  }

  /** Reading back what Marshal writes gives the same words. */
  lemma WordsOfMarshal(e: Limbs)
    ensures WordsOf(MarshalBytes(e)) == e
  {
    Pow256();
    forall w | 0 <= w < 4
      ensures WordAt(MarshalBytes(e), w) == e[3 - w]
    {
      MarshalWordBytes(e, w);
      DigitsRoundTrip(e[3 - w], 256, 8);
    }
  }

  /** Writing out the words read from 32 bytes gives back the bytes. */
  lemma MarshalWordsOf(bs: seq<u8>)
    requires |bs| == 32
    ensures MarshalBytes(WordsOf(bs)) == bs
  {
    var m := MarshalBytes(WordsOf(bs));
    MarshalWordChunk(bs, 0);
    MarshalWordChunk(bs, 1);
    MarshalWordChunk(bs, 2);
    MarshalWordChunk(bs, 3);
    calc {
      m;
      m[0..8] + m[8..16] + m[16..24] + m[24..32];
      bs[0..8] + bs[8..16] + bs[16..24] + bs[24..32];
      bs;
    }
  }

  lemma MarshalWordChunk(bs: seq<u8>, w: nat)
    requires |bs| == 32 && w < 4
    ensures MarshalBytes(WordsOf(bs))[8 * w .. 8 * w + 8] == bs[8 * w .. 8 * w + 8]
  {
    MarshalWordBytes(WordsOf(bs), w);
    var chunk: seq<nat> := bs[8 * w .. 8 * w + 8];
    assert DigitsBelow(chunk, 256);
    FromBEDigits(chunk, 256);
  }

  /** The encoding is the 32-byte big-endian form of the integer the words hold. */
  lemma MarshalValue(e: Limbs)
    ensures FromBE(MarshalBytes(e), 256) == Val(e)
  {
    WordsOfValue(MarshalBytes(e));
    WordsOfMarshal(e);
    assert MarshalBytes(e)[..32] == MarshalBytes(e);
  }

  /**
   * Marshal writes the 32 bytes into the slice that starts at out[off].  A
   * slice shorter than 32 bytes makes the Go runtime panic at the first index
   * past its end, after the bytes before it have been written: `panicked`
   * reports that, and the bytes written up to then stay written.
   */
  method Marshal(e: Limbs, out: array<u8>, off: nat) returns (panicked: bool)
    requires off <= out.Length
    modifies out
    ensures panicked <==> out.Length < off + 32
    ensures forall i :: off <= i < out.Length && i < off + 32 ==> out[i] == MarshalBytes(e)[i - off]
    ensures forall i :: 0 <= i < out.Length && !(off <= i < off + 32) ==> out[i] == old(out[i])
  {
    var w := 0;
    while w < 4
      invariant 0 <= w <= 4
      invariant off + 8 * w <= out.Length
      invariant forall i :: off <= i < off + 8 * w ==> out[i] == MarshalBytes(e)[i - off]
      invariant forall i :: 0 <= i < out.Length && !(off <= i < off + 8 * w) ==> out[i] == old(out[i])
    {
      var b := 0;
      while b < 8
        invariant 0 <= b <= 8
        invariant off + 8 * w + b <= out.Length
        invariant forall i :: off <= i < off + 8 * w + b ==> out[i] == MarshalBytes(e)[i - off]
        invariant forall i :: 0 <= i < out.Length && !(off <= i < off + 8 * w + b) ==> out[i] == old(out[i])
      {
        if off + 8 * w + b >= out.Length {
          return true;
        }
        assert (8 * w + b) / 8 == w && (8 * w + b) % 8 == b;
        out[off + 8 * w + b] := (e[3 - w] / Pow(256, 7 - b)) % 256;
        b := b + 1;
      }
      w := w + 1;
    }
    return false;
  }

  /**
   * The words Unmarshal leaves: each word of the receiver gains the
   * big-endian word read from its eight bytes, wrapping modulo 2^64 (the
   * receiver is added to, not overwritten).
   */
  function Accumulate(e: Limbs, input: seq<u8>): (r: Limbs)
    requires |input| >= 32
    ensures e == Zero ==> r == WordsOf(input)
  {
    var ws := WordsOf(input);
    [(e[0] + ws[0]) % W, (e[1] + ws[1]) % W, (e[2] + ws[2]) % W, (e[3] + ws[3]) % W]
  }

  datatype Error = CoordinateExceedsModulus | CoordinateEqualsModulus

  /** The error Unmarshal reports for the words it has read. */
  function ModulusCheck(r: Limbs): (err: Option<Error>)
    ensures err == None <==> Reduced(r)
    ensures err == Some(CoordinateExceedsModulus) <==> Val(r) > P
    ensures err == Some(CoordinateEqualsModulus) <==> Val(r) == P
  {
    if Val(r) < P then None
    else if Val(r) > P then Some(CoordinateExceedsModulus)
    else Some(CoordinateEqualsModulus)
  }

  /** The highest word where two word vectors differ decides their order. */
  lemma HighestDifference(a: Limbs, b: Limbs, i: nat)
    requires i < 4 && a[i] < b[i]
    requires forall j :: i < j < 4 ==> a[j] == b[j]
    ensures Val(a) < Val(b)
  {
  }

  /** A word of the receiver after Unmarshal has added in the first b of its eight bytes. */
  function ShiftedIn(acc: nat, input: seq<u8>, w: nat, b: nat): nat
    requires b <= 8 && 8 * w + 8 <= |input|
  {
    (acc + FromBE(input[8 * w .. 8 * w + b], 256) * Pow(256, 8 - b)) % W
  }

  /** One step of Unmarshal's inner loop: byte b of word w shifted into place. */
  lemma ShiftIn(acc: nat, input: seq<u8>, w: nat, b: nat)
    requires b < 8 && 8 * w + 8 <= |input|
    ensures (ShiftedIn(acc, input, w, b) + input[8 * w + b] * Pow(256, 7 - b)) % W == ShiftedIn(acc, input, w, b + 1)
  {
    var f := FromBE(input[8 * w .. 8 * w + b], 256);
    var t := Pow(256, 7 - b);
    var i := input[8 * w + b];
    assert input[8 * w .. 8 * w + (b + 1)][..b] == input[8 * w .. 8 * w + b];
    assert FromBE(input[8 * w .. 8 * w + (b + 1)], 256) == f * 256 + i;
    calc {
      (ShiftedIn(acc, input, w, b) + i * t) % W;
      { assert Pow(256, 8 - b) == 256 * t; }
      ((acc + f * (256 * t)) % W + i * t) % W;
      { ModAddLeft(acc + f * (256 * t), i * t, W); }
      (acc + f * (256 * t) + i * t) % W;
      { MulAssoc(f, 256, t); Distrib(f * 256, i, t); }
      (acc + (f * 256 + i) * t) % W;
      ShiftedIn(acc, input, w, b + 1);
    }
  }

  /** Unmarshal's inner loop starts from the receiver's word and ends with its new word. */
  lemma AccumulateWord(e: Limbs, input: seq<u8>, w: nat)
    requires w < 4 && |input| >= 32
    ensures e[3 - w] == ShiftedIn(e[3 - w], input, w, 0)
    ensures Accumulate(e, input)[3 - w] == ShiftedIn(e[3 - w], input, w, 8)
  {
    assert input[8 * w .. 8 * w + 0] == [];
    ModOfSmall(e[3 - w], W);
  }

  /**
   * Unmarshal: adds the big-endian words of input[0..32] into the receiver's
   * words (the receiver is normally zero), then compares the result with p
   * from the most significant word down.
   */
  method Unmarshal(e: Limbs, input: seq<u8>) returns (r: Limbs, err: Option<Error>)
    requires |input| >= 32
    ensures r == Accumulate(e, input)
    ensures err == ModulusCheck(r)
  {
    r := e;
    var w := 0;
    while w < 4
      invariant 0 <= w <= 4
      invariant forall j :: 3 - w < j < 4 ==> r[j] == Accumulate(e, input)[j]
      invariant forall j :: 0 <= j <= 3 - w ==> r[j] == e[j]
    {
      AccumulateWord(e, input, w);
      var b := 0;
      while b < 8
        invariant 0 <= b <= 8
        invariant forall j :: 3 - w < j < 4 ==> r[j] == Accumulate(e, input)[j]
        invariant forall j :: 0 <= j < 3 - w ==> r[j] == e[j]
        invariant r[3 - w] == ShiftedIn(e[3 - w], input, w, b)
      {
        ShiftIn(e[3 - w], input, w, b);
        r := r[3 - w := (r[3 - w] + input[8 * w + b] * Pow(256, 7 - b)) % W];
        b := b + 1;
      }
      w := w + 1;
    }
    Constants();
    var i := 3;
    while i >= 0
      invariant -1 <= i <= 3
      invariant forall j :: i < j < 4 ==> r[j] == P2[j]
    {
      if r[i] < P2[i] {
        HighestDifference(r, P2, i);
        return r, None;
      }
      if r[i] > P2[i] {
        HighestDifference(P2, r, i);
        return r, Some(CoordinateExceedsModulus);
      }
      i := i - 1;
    }
    assert r == P2;
    return r, Some(CoordinateEqualsModulus);
  }

  /** Unmarshalling Marshal's bytes into a zero receiver recovers the element, and accepts it iff it is reduced. */
  lemma UnmarshalMarshal(e: Limbs)
    ensures Accumulate(Zero, MarshalBytes(e)) == e
    ensures ModulusCheck(e) == None <==> Reduced(e)
  {
    WordsOfMarshal(e);
  }

  /** Marshalling what Unmarshal read into a zero receiver gives back the 32 bytes. */
  lemma MarshalUnmarshal(bs: seq<u8>)
    requires |bs| == 32
    ensures MarshalBytes(Accumulate(Zero, bs)) == bs
  {
    MarshalWordsOf(bs);
  }

  /**
   * newGFpFromBigInt: reads the four words from the minimal big-endian bytes
   * of the integer (big.Int.Bytes), eight bytes per word, most significant
   * word first.  Slicing inBytes[8i : 8i+8] past the end of the bytes makes the
   * Go runtime panic, so an integer with fewer than 32 significant bytes
   * (below 2^248) panics; one of more than 32 bytes has only its leading 32
   * bytes read.
   */
  method NewGFpFromBigInt(n: nat) returns (r: Outcome<Limbs>)
    ensures r.Panicked? <==> n < B248
    ensures B248 <= n < R ==> r == Done(FromNat(n))
    ensures R <= n ==> r.Done? && |MinimalBytes(n)| > 32 && Val(r.value) == FromBE(MinimalBytes(n)[..32], 256)
  {
    var inBytes := MinimalBytes(n);
    BigIntBytes(n);
    var out := Zero;
    var i := 0;
    while i < 4
      invariant 0 <= i <= 4 && 8 * i <= |inBytes|
      invariant forall j :: 0 <= j < i ==> out[3 - j] == WordAt(inBytes, j)
    {
      if 8 * (i + 1) > |inBytes| {
        return Panicked;
      }
      var word := WordAt(inBytes, i);
      out := out[3 - i := word];
      i := i + 1;
    }
    assert out == WordsOf(inBytes);
    WordsOfValue(inBytes);
    if n < R {
      LimbsInjective(out, FromNat(n));
    }
    return Done(out);
  }

  /** How many significant bytes an integer has, and what they spell. */
  lemma BigIntBytes(n: nat)
    ensures |MinimalBytes(n)| < 32 <==> n < B248
    ensures B248 <= n < R ==> FromBE(MinimalBytes(n)[..32], 256) == n
    ensures R <= n ==> |MinimalBytes(n)| > 32
  {
    Pow256();
    if n < B248 {
      MinimalBytesLength(n, 31);
    } else {
      MinimalBytesAtLeast(n, 31);
      if R <= n {
        MinimalBytesAtLeast(n, 32);
      }
      if n < R {
        MinimalBytesLength(n, 32);
        MinimalBytesValue(n);
        assert MinimalBytes(n)[..32] == MinimalBytes(n);
      }
    }
  }

  /** The characters `%x` prints for the digits 0 to 15. */
  const HexDigits: string := "0123456789abcdef"

  /** Base-16 digits as lowercase characters. */
  function HexString(ds: seq<nat>): (s: string)
    requires DigitsBelow(ds, 16)
    ensures |s| == |ds|
  {
    seq(|ds|, i requires 0 <= i < |ds| => HexDigits[ds[i]])
  }

  /** The four words printed with `%16.16x`: exactly 16 digits each, most significant word first. */
  function WordDigits(e: Limbs): (ds: seq<nat>)
    ensures |ds| == 64 && DigitsBelow(ds, 16)
  {
    DigitsBelowBase(e[3], 16, 16);
    DigitsBelowBase(e[2], 16, 16);
    DigitsBelowBase(e[1], 16, 16);
    DigitsBelowBase(e[0], 16, 16);
    Digits(e[3], 16, 16) + Digits(e[2], 16, 16) + Digits(e[1], 16, 16) + Digits(e[0], 16, 16)
  }

  /** String: the element's words as 64 lowercase hexadecimal digits. */
  function String(e: Limbs): (s: string)
    ensures |s| == 64
    ensures forall i :: 0 <= i < 64 ==> s[i] in HexDigits
  {
    HexString(WordDigits(e))
  }

  /** The value of one hexadecimal digit, either case, as big.Int's SetString reads it in base 16. */
  function HexValue(c: char): (d: Option<nat>)
    ensures d.Some? ==> d.value < 16
  {
    if '0' <= c <= '9' then Some(c as int - '0' as int)
    else if 'a' <= c <= 'f' then Some(c as int - 'a' as int + 10)
    else if 'A' <= c <= 'F' then Some(c as int - 'A' as int + 10)
    else None
  }

  /** The value of a string of hexadecimal digits, or None if a character is not one. */
  function HexDigitsValue(s: string): Option<nat>
  {
    if s == [] then Some(0)
    else match HexDigitsValue(s[..|s| - 1])
      case None => None
      case Some(v) =>
        match HexValue(s[|s| - 1])
        case None => None
        case Some(d) => Some(v * 16 + d)
  }

  /** big.Int's SetString(s, 16) on an unsigned string: fails on the empty string and on a non-digit. */
  function ParseHex(s: string): Option<nat>
  {
    if s == [] then None else HexDigitsValue(s)
  }

  lemma HexDigitValue(d: nat)
    requires d < 16
    ensures HexValue(HexDigits[d]) == Some(d)
  {
  }

  /** Reading back printed digits gives their value. */
  lemma {:induction false} HexRoundTrip(ds: seq<nat>)
    requires DigitsBelow(ds, 16)
    ensures HexDigitsValue(HexString(ds)) == Some(FromBE(ds, 16))
  {
    if ds != [] {
      var s, init, last := HexString(ds), ds[..|ds| - 1], ds[|ds| - 1];
      assert s[..|s| - 1] == HexString(init);
      assert s[|s| - 1] == HexDigits[last];
      HexRoundTrip(init);
      HexDigitValue(last);
    }
  }

  lemma Pow16()
    ensures Pow(16, 16) == W
  {
    assert Pow(16, 1) == 16;
    PowAdd(16, 1, 1);
    assert Pow(16, 2) == 0x100;
    PowAdd(16, 2, 2);
    assert Pow(16, 4) == 0x1_0000;
    PowAdd(16, 4, 4);
    assert Pow(16, 8) == 0x1_0000_0000;
    PowAdd(16, 8, 8);
  }

  /** The printed digits spell the integer the words hold. */
  lemma WordDigitsValue(e: Limbs)
    ensures FromBE(WordDigits(e), 16) == Val(e)
  {
    Pow16();
    var d3, d2, d1, d0 := Digits(e[3], 16, 16), Digits(e[2], 16, 16), Digits(e[1], 16, 16), Digits(e[0], 16, 16);
    DigitsRoundTrip(e[3], 16, 16);
    DigitsRoundTrip(e[2], 16, 16);
    DigitsRoundTrip(e[1], 16, 16);
    DigitsRoundTrip(e[0], 16, 16);
    FromBEAppend(d3, d2, 16);
    FromBEAppend(d3 + d2, d1, 16);
    FromBEAppend(d3 + d2 + d1, d0, 16);
  }

  /** The string String prints is read back by SetString as the integer the words hold. */
  lemma StringParses(e: Limbs)
    ensures ParseHex(String(e)) == Some(Val(e))
  {
    HexRoundTrip(WordDigits(e));
    WordDigitsValue(e);
  }

  /**
   * gFpToBigInt: prints the words and parses them back as a base-16 big
   * integer.  The error built when parsing fails is discarded in the Go code;
   * parsing never fails here.
   */
  function GfpToBigInt(e: Limbs): (n: nat)
    ensures n == Val(e)
  {
    StringParses(e);
    ParseHex(String(e)).value
  }
}
