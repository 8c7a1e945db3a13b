/**
 * Machine words, powers, positional notation and modular congruences.
 *
 * The Go code works on bytes, on 64-bit words and on residues modulo a prime.
 * Everything here is unbounded integer arithmetic: a byte or a word is an
 * integer in its range, a `>>` by a constant is a division by a power of two,
 * and a wrap-around is written out as a `%`.
 */
module Numbers {

  /** An 8-bit unsigned integer (Go `byte`). */
  type u8 = x: int | 0 <= x < 0x100

  /** A 64-bit unsigned integer (Go `uint64`). */
  type u64 = x: int | 0 <= x < 0x1_0000_0000_0000_0000

  const W: nat := 0x1_0000_0000_0000_0000  // 2^64, one limb

  /** b^k. */
  function Pow(b: nat, k: nat): (r: nat)
    ensures b > 0 ==> r > 0
  {
    if k == 0 then 1 else MulNonNegative(b, Pow(b, k - 1)); b * Pow(b, k - 1)
  }

  lemma {:induction false} PowAdd(b: nat, m: nat, n: nat)
    ensures Pow(b, m + n) == Pow(b, m) * Pow(b, n)
  {
    if n == 0 {
    } else {
      PowAdd(b, m, n - 1);
      calc {
        Pow(b, m + n);
        b * Pow(b, m + n - 1);
        b * (Pow(b, m) * Pow(b, n - 1));
        { MulSwap(b, Pow(b, m), Pow(b, n - 1)); }
        Pow(b, m) * (b * Pow(b, n - 1));
      }
    }
  }

  // Single rearrangements of products, for steps the solver should not search for.

  lemma MulSwap(a: int, b: int, c: int)
    ensures a * (b * c) == b * (a * c)
  {
  }

  lemma MulAssoc(a: int, b: int, c: int)
    ensures a * (b * c) == (a * b) * c
  {
  }

  lemma Distrib(a: int, b: int, c: int)
    ensures (a + b) * c == a * c + b * c
  {
  }

  lemma {:induction false} PowZero(k: nat)
    requires k > 0
    ensures Pow(0, k) == 0
  {
  }

  lemma MulPositive(a: int, b: int)
    requires a > 0 && b > 0
    ensures a * b > 0
  {
  }

  lemma MulNonNegative(a: int, b: int)
    requires a >= 0 && b >= 0
    ensures a * b >= 0
  {
  }

  lemma MulMonotone(a: int, b: int, c: int)
    requires a <= b && c >= 0
    ensures a * c <= b * c
  {
    MulNonNegative(b - a, c);
  }

  // ---------------------------------------------------------------------
  // Euclidean division

  /** The quotient and remainder of a division are the unique ones. */
  lemma DivModUnique(x: int, m: int, q: int, r: int)
    requires m > 0 && 0 <= r < m && x == q * m + r
    ensures x / m == q && x % m == r
  {
    var q0, r0 := x / m, x % m;
    assert x == q0 * m + r0;
    assert (q - q0) * m == r0 - r;
    MulBoundedZero(q - q0, m);
  }

  lemma DivModSplit(n: int, d: int)
    requires d > 0
    ensures n == (n / d) * d + n % d && 0 <= n % d < d
  {
  }

  lemma MulBoundedZero(a: int, m: int)
    requires m > 0 && -m < a * m < m
    ensures a == 0
  {
  }

  lemma DivLess(n: int, d: int, c: int)
    requires d > 0 && n < c * d
    ensures n / d < c
  {
    var q := n / d;
    assert q * d <= n;
    assert q * d < c * d;
    assert (c - q) * d > 0;
    MulSignPositive(c - q, d);
  }

  lemma DivAtLeast(n: int, d: int, c: int)
    requires d > 0 && c * d <= n
    ensures c <= n / d
  {
    var q := n / d;
    assert n < q * d + d;
    assert c * d < (q + 1) * d;
    assert (q + 1 - c) * d > 0;
    MulSignPositive(q + 1 - c, d);
  }

  lemma MulSignPositive(a: int, d: int)
    requires d > 0 && a * d > 0
    ensures a > 0
  {
  }

  lemma DivNonNegative(n: int, d: int)
    requires n >= 0 && d > 0
    ensures 0 <= n / d <= n
  {
    DivAtLeast(n, d, 0);
    MulMonotone(1, d, n);
    DivLess(n, d, n + 1);
  }

  lemma ModAddMultiple(x: int, k: int, m: int)
    requires m > 0
    ensures (x + k * m) % m == x % m
  {
    DivModUnique(x + k * m, m, x / m + k, x % m);
  }

  lemma ModOfSmall(x: int, m: int)
    requires 0 <= x < m
    ensures x % m == x && x / m == 0
  {
    DivModUnique(x, m, 0, x);
  }

  lemma ModAddLeft(a: int, b: int, m: int)
    requires m > 0
    ensures (a % m + b) % m == (a + b) % m
  {
    ModAddMultiple(a % m + b, a / m, m);
  }

  lemma ModAddRight(a: int, b: int, m: int)
    requires m > 0
    ensures (a + b % m) % m == (a + b) % m
  {
    ModAddMultiple(a + b % m, b / m, m);
  }

  lemma ModSubLeft(a: int, b: int, m: int)
    requires m > 0
    ensures (a % m - b) % m == (a - b) % m
  {
    ModAddMultiple(a % m - b, a / m, m);
  }

  lemma ModSubRight(a: int, b: int, m: int)
    requires m > 0
    ensures (a - b % m) % m == (a - b) % m
  {
    ModAddMultiple(a - b % m, -(b / m), m);
  }

  lemma ModMulLeft(a: int, b: int, m: int)
    requires m > 0
    ensures (a % m * b) % m == (a * b) % m
  {
    assert a * b == (a % m) * b + (a / m * b) * m by {
      assert a == (a / m) * m + a % m;
    }
    ModAddMultiple(a % m * b, a / m * b, m);
  }

  lemma ModMulRight(a: int, b: int, m: int)
    requires m > 0
    ensures (a * (b % m)) % m == (a * b) % m
  {
    ModMulLeft(b, a, m);
  }

  lemma ModIdempotent(a: int, m: int)
    requires m > 0
    ensures (a % m) % m == a % m
  {
    ModOfSmall(a % m, m);
  }

  lemma ModAddBoth(a: int, b: int, m: int)
    requires m > 0
    ensures (a % m + b % m) % m == (a + b) % m
  {
    ModAddLeft(a, b % m, m);
    ModAddRight(a, b, m);
  }

  lemma ModSubBoth(a: int, b: int, m: int)
    requires m > 0
    ensures (a % m - b % m) % m == (a - b) % m
  {
    ModSubLeft(a, b % m, m);
    ModSubRight(a, b, m);
  }

  lemma ModMulBoth(a: int, b: int, m: int)
    requires m > 0
    ensures (a % m) * (b % m) % m == a * b % m
  {
    ModMulLeft(a, b % m, m);
    ModMulRight(a, b, m);
  }

  /** -a has the same square as a, modulo m. */
  lemma NegSquareMod(a: int, m: int)
    requires m > 0
    ensures ((0 - a) % m) * ((0 - a) % m) % m == a * a % m
  {
    ModMulBoth(0 - a, 0 - a, m);
    assert (0 - a) * (0 - a) == a * a;
  }

  /** (v / a) / b == v / (a * b) for non-negative v. */
  lemma DivDiv(v: nat, a: nat, b: nat)
    requires a > 0 && b > 0
    ensures v / a / b == v / (a * b)
    ensures v % (a * b) == v % a + a * ((v / a) % b)
  {
    var q1, r1 := v / a, v % a;
    var q2, r2 := q1 / b, q1 % b;
    assert v == a * (b * q2 + r2) + r1;
    assert v == q2 * (a * b) + (a * r2 + r1);
    MulMonotone(r2, b - 1, a);
    MulPositive(a, b);
    DivModUnique(v, a * b, q2, a * r2 + r1);
  }

  /** Powers of x multiply by adding exponents, modulo m. */
  lemma PowModMul(x: nat, j: nat, k: nat, m: int)
    requires m > 0
    ensures (Pow(x, j) % m) * (Pow(x, k) % m) % m == Pow(x, j + k) % m
  {
    PowAdd(x, j, k);
    ModMulLeft(Pow(x, j), Pow(x, k) % m, m);
    ModMulRight(Pow(x, j), Pow(x, k), m);
  }

  /** Fermat's little theorem for the modulus m: a^(m-1) is one for every non-zero residue a. */
  ghost predicate FermatHolds(m: nat)
  {
    forall a: nat, e: nat :: 0 < a < m && e == m - 1 ==> Pow(a, e) % m == 1
  }

  // ---------------------------------------------------------------------
  // Positional notation, most significant digit first

  /** The value of a big-endian digit string in base `base`. */
  function FromBE(ds: seq<nat>, base: nat): nat
  {
    if ds == [] then 0 else FromBE(ds[..|ds| - 1], base) * base + ds[|ds| - 1]
  }

  predicate DigitsBelow(ds: seq<nat>, base: nat)
  {
    forall i :: 0 <= i < |ds| ==> 0 <= ds[i] < base
  }

  /** The k lowest digits of v in base `base`, most significant first. */
  function Digits(v: nat, base: nat, k: nat): (ds: seq<nat>)
    requires base > 1
    ensures |ds| == k
  {
    if k == 0 then [] else DivNonNegative(v, base); Digits(v / base, base, k - 1) + [v % base]
  }

  lemma {:induction false} FromBEBound(ds: seq<nat>, base: nat)
    requires base > 1 && DigitsBelow(ds, base)
    ensures 0 <= FromBE(ds, base) < Pow(base, |ds|)
  {
    if ds != [] {
      var init := ds[..|ds| - 1];
      FromBEBound(init, base);
      var h := FromBE(init, base);
      assert FromBE(ds, base) == h * base + ds[|ds| - 1];
      MulMonotone(h, Pow(base, |init|) - 1, base);
      assert (Pow(base, |init|) - 1) * base == Pow(base, |ds|) - base;
    }
  }

  lemma {:induction false} FromBEAppend(a: seq<nat>, b: seq<nat>, base: nat)
    ensures FromBE(a + b, base) == FromBE(a, base) * Pow(base, |b|) + FromBE(b, base)
  {
    if b == [] {
      assert a + b == a;
    } else {
      var b' := b[..|b| - 1];
      assert (a + b)[..|a + b| - 1] == a + b';
      FromBEAppend(a, b', base);
      var x, y, t := FromBE(a, base), FromBE(b', base), Pow(base, |b'|);
      calc {
        FromBE(a + b, base);
        FromBE(a + b', base) * base + b[|b| - 1];
        (x * t + y) * base + b[|b| - 1];
        { Distrib(x * t, y, base); }
        (x * t) * base + y * base + b[|b| - 1];
        { MulAssoc(x, t, base); }
        x * (t * base) + (y * base + b[|b| - 1]);
        { assert Pow(base, |b|) == base * t; }
        x * Pow(base, |b|) + FromBE(b, base);
      }
    }
  }

  /** Every digit of Digits is below the base. */
  lemma {:induction false} DigitsBelowBase(v: nat, base: nat, k: nat)
    requires base > 1
    ensures DigitsBelow(Digits(v, base, k), base)
  {
    if k > 0 {
      DivNonNegative(v, base);
      DigitsBelowBase(v / base, base, k - 1);
    }
  }

  /** Writing v in k digits and reading them back gives v, when v fits. */
  lemma {:induction false} DigitsRoundTrip(v: nat, base: nat, k: nat)
    requires base > 1 && v < Pow(base, k)
    ensures FromBE(Digits(v, base, k), base) == v
    ensures DigitsBelow(Digits(v, base, k), base)
  {
    DigitsBelowBase(v, base, k);
    if k > 0 {
      var ds := Digits(v, base, k);
      var hi := Digits(v / base, base, k - 1);
      assert ds[..k - 1] == hi;
      assert v < Pow(base, k - 1) * base;
      DivLess(v, base, Pow(base, k - 1));
      DivNonNegative(v, base);
      DigitsRoundTrip(v / base, base, k - 1);
      DivModSplit(v, base);
      assert FromBE(ds, base) == FromBE(hi, base) * base + v % base;
    }
  }

  /** Reading digits and writing them back gives the same digits. */
  lemma {:induction false} FromBEDigits(ds: seq<nat>, base: nat)
    requires base > 1 && DigitsBelow(ds, base)
    ensures Digits(FromBE(ds, base), base, |ds|) == ds
  {
    if ds != [] {
      var init := ds[..|ds| - 1];
      var v := FromBE(ds, base);
      FromBEBound(init, base);
      DivModUnique(v, base, FromBE(init, base), ds[|ds| - 1]);
      FromBEDigits(init, base);
    }
  }

  /** Digit i of v (counted from the most significant of k) is v / base^(k-1-i) % base. */
  lemma {:induction false} DigitAt(v: nat, base: nat, k: nat, i: nat)
    requires base > 1 && i < k
    ensures Digits(v, base, k)[i] == (v / Pow(base, k - 1 - i)) % base
  {
    if i == k - 1 {
      assert v / Pow(base, 0) == v;
    } else {
      DivNonNegative(v, base);
      DigitAt(v / base, base, k - 1, i);
      DivDiv(v, base, Pow(base, k - 2 - i));
    }
  }

  // ---------------------------------------------------------------------
  // Minimal big-endian bytes (math/big's Int.Bytes())

  /** The big-endian bytes of n without leading zero bytes; empty for 0. */
  function MinimalBytes(n: nat): (bs: seq<u8>)
    decreases n
  {
    if n == 0 then [] else MinimalBytes(n / 256) + [n % 256]
  }

  /** For n with k significant bytes, MinimalBytes(n) are exactly its k digits. */
  lemma {:induction false} MinimalBytesDigits(n: nat, k: nat)
    requires Pow(256, k) <= 256 * n && n < Pow(256, k)
    ensures MinimalBytes(n) == Digits(n, 256, k)
    decreases k
  {
    if k == 0 {
    } else if k == 1 {
      assert n < 256;
      ModOfSmall(n, 256);
    } else {
      var q := n / 256;
      assert Pow(256, k) == 256 * Pow(256, k - 1);
      DivLess(n, 256, Pow(256, k - 1));
      DivAtLeast(256 * n, 256, Pow(256, k - 1));
      assert Pow(256, k - 1) <= n;
      DivAtLeast(n, 256, Pow(256, k - 2));
      assert Pow(256, k - 1) == 256 * Pow(256, k - 2);
      assert Pow(256, k - 2) <= q;

      MinimalBytesDigits(q, k - 1);
    }
  }

  lemma {:induction false} MinimalBytesLength(n: nat, k: nat)
    requires n < Pow(256, k)
    ensures |MinimalBytes(n)| <= k
    decreases k
  {
    if n > 0 {
      assert k > 0;
      DivLess(n, 256, Pow(256, k - 1));
      MinimalBytesLength(n / 256, k - 1);
    }
  }

  lemma {:induction false} MinimalBytesValue(n: nat)
    ensures FromBE(MinimalBytes(n), 256) == n
    decreases n
  {
    if n > 0 {
      MinimalBytesValue(n / 256);
      var bs := MinimalBytes(n);
      assert bs[..|bs| - 1] == MinimalBytes(n / 256);
    }
  }

  lemma {:induction false} MinimalBytesAtLeast(n: nat, k: nat)
    requires Pow(256, k) <= n
    ensures |MinimalBytes(n)| > k
    decreases k
  {
    if k > 0 {
      assert Pow(256, k) == 256 * Pow(256, k - 1);
      DivAtLeast(n, 256, Pow(256, k - 1));
      MinimalBytesAtLeast(n / 256, k - 1);
    }
  }

  /** |n|, the magnitude math/big's Bytes() works on. */
  function Abs(n: int): nat
  {
    if n < 0 then -n else n
  }

  // ---------------------------------------------------------------------
  // Outcomes

  datatype Option<T> = None | Some(value: T)

  /** What a Go call that can panic comes back with. */
  datatype Outcome<T> = Done(value: T) | Panicked
}
