/**
 * The G1 point codec of mpc_serialization.go (the newer revision).
 *
 * A compressed encoding is 33 bytes: a flag byte carrying COMPRESSED (0x80),
 * INFINITY (0x40) and BIG_Y (0x20), then x out of Montgomery form in 32
 * big-endian bytes.  The decoder recovers y as the square root math/big
 * finds for x^3 + 3, and picks between y and -y by comparing their
 * Montgomery words, most significant word first.
 */
module Codec {
  import opened Numbers
  import opened Gfp
  import opened Curve

  const FqElementSize: nat := 32
  const G1CompressedSize: nat := FqElementSize + 1
  const G1UncompressedSize: nat := 2 * FqElementSize

  const SerializationMask: u8 := 0x1F
  const SerializationCompressed: u8 := 0x80
  const SerializationInfinity: u8 := 0x40
  const SerializationBigY: u8 := 0x20

  // ---------------------------------------------------------------------
  // Comparing field elements

  /** y is the higher of y and -y: its Montgomery words spell the larger integer. */
  predicate HigherY(y: Limbs)
  {
    Val(y) > Val(GfpNeg(y))
  }

  /** Of a non-zero y and -y exactly one is the higher; zero is not higher than itself. */
  lemma HigherYSign(y: Limbs)
    requires Reduced(y)
    ensures y == Zero ==> !HigherY(y)
    ensures y != Zero ==> (HigherY(y) <==> !HigherY(GfpNeg(y)))
  {
    NegatedWords(y);
    NegatedWords(GfpNeg(y));
  }

  /** IsHigherY: compares the words of y and -y from the most significant one down. */
  method IsHigherY(e: G1) returns (higher: bool)
    requires e.p != null
    ensures higher <==> HigherY(e.p.y)
  {
    var yCopy := e.p.y;
    var yNeg := GfpNeg(yCopy);
    var i: int := FpUint64Size - 1;
    while i >= 0
      invariant -1 <= i <= 3
      invariant forall j :: i < j < 4 ==> yCopy[j] == yNeg[j]
    {
      if yCopy[i] > yNeg[i] {
        HighestDifference(yNeg, yCopy, i);
        return true;
      } else if yCopy[i] < yNeg[i] {
        HighestDifference(yCopy, yNeg, i);
        return false;
      }
      i := i - 1;
    }
    assert yCopy == yNeg;
    return false;
  }

  /** gfpComp: 1, 0 or -1 as a is above, equal to or below b. */
  method GfpComp(a: Limbs, b: Limbs) returns (c: int)
    ensures c == 1 <==> Val(a) > Val(b)
    ensures c == 0 <==> a == b
    ensures c == -1 <==> Val(a) < Val(b)
  {
    var i: int := FpUint64Size - 1;
    while i >= 0
      invariant -1 <= i <= 3
      invariant forall j :: i < j < 4 ==> a[j] == b[j]
    {
      if a[i] > b[i] {
        HighestDifference(b, a, i);
        return 1;
      } else if a[i] == b[i] {
        i := i - 1;
      } else {
        HighestDifference(a, b, i);
        return -1;
      }
    }
    assert a == b;
    return 0;
  }

  // ---------------------------------------------------------------------
  // Encoding

  /** The bytes EncodeCompressed writes for an affine point with coordinates x and y. */
  function Compressed(x: Limbs, y: Limbs, infinity: bool): (bs: seq<u8>)
    ensures |bs| == G1CompressedSize
    ensures HasFlag(bs[0], SerializationCompressed) && Masked(bs[0]) == 0
    ensures HasFlag(bs[0], SerializationInfinity) <==> infinity
    ensures HasFlag(bs[0], SerializationBigY) <==> !infinity && HigherY(y)
    ensures infinity ==> AllZero(bs[1..])
    ensures !infinity ==> FromBE(bs[1..], 256) == D(x)
  {
    var flags := WithFlag(0, SerializationCompressed);
    if infinity then
      [WithFlag(flags, SerializationInfinity)] + seq(32, _ => 0)
    else
      MarshalValue(MontDecode(x));
      [if HigherY(y) then WithFlag(flags, SerializationBigY) else flags] + MarshalBytes(MontDecode(x))
  }

  /**
   * EncodeCompressed.  MakeAffine (curve.go) is not part of this model: the
   * point must already be affine or at infinity, when MakeAffine changes
   * nothing the encoder reads.
   */
  method EncodeCompressed(e: G1) returns (ret: seq<u8>)
    requires e.p != null && e.p.Affine()
    ensures ret == Compressed(e.p.x, e.p.y, e.p.IsInfinity())
  {
    var buf := new u8[G1CompressedSize](_ => 0);
    buf[0] := WithFlag(buf[0], SerializationCompressed);
    if e.p.IsInfinity() {
      buf[0] := WithFlag(buf[0], SerializationInfinity);
      return buf[..];
    }
    var higher := IsHigherY(e);
    if higher {
      buf[0] := WithFlag(buf[0], SerializationBigY);
    }
    var temp := MontDecode(e.p.x);
    var overran := Marshal(temp, buf, 1);
    assert buf[..] == [buf[0]] + MarshalBytes(temp);
    return buf[..];
  }

  /**
   * EncodeUncompressed.  The buffer has 64 bytes, one short of the flag
   * byte and two coordinates, so writing y from byte 33 runs past its end
   * and the Go runtime panics for every point but the identity.
   */
  method EncodeUncompressed(e: G1) returns (r: Outcome<seq<u8>>)
    requires e.p != null && e.p.Affine()
    ensures r.Panicked? <==> !e.p.IsInfinity()
    ensures e.p.IsInfinity() ==> r == Done([SerializationInfinity] + seq(63, _ => 0))
  {
    var buf := new u8[G1UncompressedSize](_ => 0);
    if e.p.IsInfinity() {
      buf[0] := WithFlag(buf[0], SerializationInfinity);
      assert buf[..] == [SerializationInfinity] + seq(63, _ => 0);
      return Done(buf[..]);
    }
    var temp := MontDecode(e.p.x);
    var overran := Marshal(temp, buf, 1);
    temp := MontDecode(e.p.y);
    overran := Marshal(temp, buf, G1CompressedSize);
    // the 31 bytes from index 33 cannot hold y: Marshal always runs past the end
    assert overran;
    return Panicked;
  }

  // ---------------------------------------------------------------------
  // Recovering y

  /**
   * What getYFromMontEncodedX returns for a Montgomery-form x: the root
   * ModSqrt finds for x^3 + 3, in Montgomery form; nothing ("not a square
   * mod P") when there is none; and a panic when the root is below 2^248,
   * so that newGFpFromBigInt finds fewer than 32 bytes to read.
   */
  function RecoverY(x: Limbs): (y: Outcome<Option<Limbs>>)
    ensures y.Done? && y.value.Some? ==> Reduced(y.value.value)
  {
    var c := CurveRhs(D(x));
    ModOfSmall(c, P);
    match ModSqrt(c)
    case None => Done(None)
    case Some(s) => if s < B248 then Panicked else Done(Some(Encode(s)))
  }

  /** A recovered y is on the curve with x. */
  lemma RecoveredOnCurve(x: Limbs)
    ensures RecoverY(x).Done? && RecoverY(x).value.Some? ==> OnCurve(D(x), D(RecoverY(x).value.value))
  {
    ModOfSmall(CurveRhs(D(x)), P);
  }

  /** The Montgomery-form chain of getYFromMontEncodedX computes x^3 + 3. */
  lemma RhsDecodes(x: Limbs)
    ensures Val(MontDecode(GfpAdd(GfpMul(GfpMul(x, x), x), CurveB))) == CurveRhs(D(x))
  {
    MulDecodes(x, x);
    MulDecodes(GfpMul(x, x), x);
    AddDecodes(GfpMul(GfpMul(x, x), x), CurveB);
    ModMulLeft(D(x) * D(x), D(x), P);
    ModAddLeft(D(x) * D(x) * D(x), 3, P);
  }

  /** getYFromMontEncodedX. */
  method GetYFromMontEncodedX(x: Limbs) returns (y: Outcome<Option<Limbs>>)
    ensures y == RecoverY(x)
  {
    var x2 := GfpMul(x, x);
    var x3 := GfpMul(x2, x);
    var rhs := GfpAdd(x3, CurveB);
    RhsDecodes(x);
    rhs := MontDecode(rhs);
    var rhsBig := GfpToBigInt(rhs);
    var root := ModSqrt(rhsBig);
    if root.None? {
      return Done(None);
    }
    var yCoord := NewGFpFromBigInt(root.value);
    if yCoord.Panicked? {
      return Panicked;
    }
    EncodedRoot(root.value);
    return Done(Some(MontEncode(yCoord.value)));
  }

  /** The root is found for every x^3 + 3 that is a square (p prime). */
  lemma RecoverYComplete(x: Limbs, s: nat)
    requires Fermat() && OnCurve(D(x), s)
    ensures RecoverY(x) != Done(None)
  {
    ModSqrtComplete(CurveRhs(D(x)), s);
  }

  // ---------------------------------------------------------------------
  // Decoding

  /**
   * What DecodeCompressed does with an input, from a receiver whose point
   * coordinates have just been reset.  The infinity check runs over the
   * bytes as received, flag byte included.
   */
  function Decompress(encoding: seq<u8>): Decoding
  {
    if |encoding| != G1CompressedSize then Refused(WrongEncodedPointSize)
    else if !HasFlag(encoding[0], SerializationCompressed) then Refused(PointIsNotCompressed)
    else if HasFlag(encoding[0], SerializationInfinity) then
      if HasFlag(encoding[0], SerializationBigY) then Rejected(HighYBitImproperlySet, Zero)
      else if !AllZero(encoding) then Rejected(InvalidInfinityEncoding, Zero)
      else AtInfinity
    else
      var w := Accumulate(Zero, encoding[1..]);
      match ModulusCheck(w)
      case Some(err) => Rejected(Coordinate(err), w)
      case None =>
        var x := MontEncode(w);
        match RecoverY(x)
        case Panicked => Panics
        case Done(None) => Rejected(NotASquareModP, x)
        case Done(Some(y)) =>
          if HigherY(y) == HasFlag(encoding[0], SerializationBigY) then Accepted(x, y, false)
          else Accepted(x, GfpNeg(y), true)
  }

  /**
   * DecodeCompressed.  A receiver without a point gets `&curvePoint{}`,
   * whose z is zero; one with a point has x, y reset to zero and z, t to
   * one.  The result is the error returned (None for success) or a panic.
   */
  method DecodeCompressed(e: G1, encoding: seq<u8>) returns (r: Outcome<Option<CodecError>>)
    modifies e, e.p
    ensures var d := Decompress(encoding);
      d.Refused? ==> r == Done(Some(d.err)) && e.p == old(e.p) && (e.p != null ==> unchanged(e.p))
    ensures var d := Decompress(encoding);
      !d.Refused? ==> (e.p != null
        && (old(e.p) == null ==> fresh(e.p) && e.p.z == Zero)
        && (old(e.p) != null ==> e.p == old(e.p) && e.p.z == One))
    ensures var d := Decompress(encoding);
      d.Rejected? ==> (r == Done(Some(d.err)) && e.p.x == d.x && e.p.y == Zero
        && e.p.t == (if old(e.p) == null then Zero else One))
    ensures var d := Decompress(encoding);
      d.Accepted? ==> (r == Done(None) && e.p.x == d.x && e.p.y == d.y
        && e.p.t == (if old(e.p) == null || d.negated then Zero else One))
    ensures Decompress(encoding).AtInfinity? ==> r == Done(None) && e.p.IsInfinity()
    ensures Decompress(encoding).Panics? <==> r.Panicked?
  {
    if |encoding| != G1CompressedSize {
      return Done(Some(WrongEncodedPointSize));
    }
    if !HasFlag(encoding[0], SerializationCompressed) {
      return Done(Some(PointIsNotCompressed));
    }
    if e.p == null {
      e.p := new CurvePoint();
    } else {
      NewGFpOne();
      e.p.x, e.p.y := Zero, Zero;
      e.p.z, e.p.t := NewGFp(1), NewGFp(1);
    }
    // make + copy: the 33 bytes as received, flag bits included
    var bin := encoding;
    if HasFlag(encoding[0], SerializationInfinity) {
      if HasFlag(encoding[0], SerializationBigY) {
        return Done(Some(HighYBitImproperlySet));
      }
      var nonZero := AnyNonZero(bin);
      if nonZero {
        return Done(Some(InvalidInfinityEncoding));
      }
      // bin[0] still carries the INFINITY bit, so the scan above has returned
      assert false;
    }
    var x, err := Unmarshal(e.p.x, bin[1..]);
    e.p.x := x;
    if err.Some? {
      return Done(Some(Coordinate(err.value)));
    }
    e.p.x := MontEncode(e.p.x);
    var y := GetYFromMontEncodedX(e.p.x);
    if y.Panicked? {
      return Panicked;
    }
    if y.value.None? {
      return Done(Some(NotASquareModP));
    }
    e.p.y := y.value.value;
    var higher := IsHigherY(e);
    if !higher {
      if HasFlag(encoding[0], SerializationBigY) {
        e.Neg(e);
      }
    } else {
      if !HasFlag(encoding[0], SerializationBigY) {
        e.Neg(e);
      }
    }
    return Done(None);
  }

  // ---------------------------------------------------------------------
  // What decoding promises

  /** An accepted point lies on the curve, has the x the bytes spell, and the sign BIG_Y asks for. */
  lemma DecodedPoint(encoding: seq<u8>)
    requires Decompress(encoding).Accepted?
    ensures var d := Decompress(encoding);
      Reduced(d.x) && Reduced(d.y) && OnCurve(D(d.x), D(d.y))
      && |encoding| == G1CompressedSize && D(d.x) == FromBE(encoding[1..], 256)
      && (d.y != Zero ==> (HigherY(d.y) <==> HasFlag(encoding[0], SerializationBigY)))
  {
    var w := Accumulate(Zero, encoding[1..]);
    WordsOfValue(encoding[1..]);
    assert encoding[1..][..32] == encoding[1..];
    ModOfSmall(Val(w), P);
    var x := MontEncode(w);
    var y := RecoverY(x).value.value;
    RecoveredOnCurve(x);
    NegDecodes(y);
    NegSquareMod(D(y), P);
    HigherYSign(y);
    NegatedWords(y);
  }

  /** Every x whose x^3 + 3 is a square decodes or panics; none is reported as not a square (p prime). */
  lemma DecodeFindsRoot(encoding: seq<u8>, s: nat)
    requires Fermat() && |encoding| == G1CompressedSize
    requires OnCurve(FromBE(encoding[1..], 256), s)
    ensures Decompress(encoding) != Rejected(NotASquareModP, MontEncode(Accumulate(Zero, encoding[1..])))
  {
    var w := Accumulate(Zero, encoding[1..]);
    WordsOfValue(encoding[1..]);
    assert encoding[1..][..32] == encoding[1..];
    if Reduced(w) {
      ModOfSmall(Val(w), P);
      RecoverYComplete(MontEncode(w), s);
    }
  }

  /** An x whose x^3 + 3 has no square root modulo p is reported as not a square. */
  lemma NonSquareRejected(encoding: seq<u8>)
    requires |encoding| == G1CompressedSize && HasFlag(encoding[0], SerializationCompressed)
    requires !HasFlag(encoding[0], SerializationInfinity)
    requires FromBE(encoding[1..], 256) < P
    requires forall s: nat :: !OnCurve(FromBE(encoding[1..], 256), s)
    ensures Decompress(encoding) == Rejected(NotASquareModP, MontEncode(Accumulate(Zero, encoding[1..])))
  {
    var w := Accumulate(Zero, encoding[1..]);
    WordsOfValue(encoding[1..]);
    assert encoding[1..][..32] == encoding[1..];
    ModOfSmall(Val(w), P);
    var x := MontEncode(w);
    var c := CurveRhs(D(x));
    ModOfSmall(c, P);
    match ModSqrt(c)
    case None =>
    case Some(s) =>
      assert OnCurve(D(x), s);
      assert false;
  }

  /**
   * Decoding an encoded finite point gives the point back, unless the
   * root ModSqrt finds is below 2^248 and the decoder panics (p prime).
   */
  lemma RoundTrip(x: Limbs, y: Limbs)
    requires Fermat() && Reduced(x) && Reduced(y)
    ensures OnCurve(D(x), D(y)) ==>
      var d := Decompress(Compressed(x, y, false));
      d.Panics? || (d.Accepted? && d.x == x && d.y == y)
  {
    if OnCurve(D(x), D(y)) {
      var enc := Compressed(x, y, false);
      assert enc[1..] == MarshalBytes(MontDecode(x));
      UnmarshalMarshal(MontDecode(x));
      MontRoundTrip(x);
      RecoverYComplete(x, D(y));
      ModOfSmall(CurveRhs(D(x)), P);
      var root := ModSqrt(CurveRhs(D(x)));
      if root.value >= B248 {
        RootMatches(y, root.value);
        HigherYSign(y);
        NegatedWords(y);
      }
    }
  }


  /** The identity's encoding is refused: the infinity check reads the flag byte as a coordinate byte. */
  lemma InfinityRoundTripFails(x: Limbs, y: Limbs)
    ensures Decompress(Compressed(x, y, true)) == Rejected(InvalidInfinityEncoding, Zero)
  {
  }

  /** No input decodes to the identity. */
  lemma InfinityNeverDecodes(encoding: seq<u8>)
    ensures Decompress(encoding) != AtInfinity
  {
    if |encoding| == G1CompressedSize && HasFlag(encoding[0], SerializationInfinity) {
      assert encoding[0] != 0;
    }
  }

  /** A cube root of -2 modulo p: x^3 + 3 is 1 there, and the root ModSqrt finds is 1. */
  const SmallRootX: nat := 737672023501788484657034070393467974112713954770214311754569895089682103088

  /** The points (x, 1) and (x, -1) on the curve with x = SmallRootX: decoding their encoding panics. */
  lemma SmallRootPanics(y: Limbs)
    requires y == Encode(1) || y == GfpNeg(Encode(1))
    ensures OnCurve(SmallRootX, D(y))
    ensures Decompress(Compressed(Encode(SmallRootX), y, false)) == Panics
  {
    var x := Encode(SmallRootX);
    SmallRootRhs();
    ModSqrtOne();
    var enc := Compressed(x, y, false);
    assert enc[1..] == MarshalBytes(MontDecode(x));
    UnmarshalMarshal(MontDecode(x));
    MontRoundTrip(x);
    NegDecodes(Encode(1));
    NegSquareMod(D(Encode(1)), P);
  }

  lemma SmallRootRhs()
    ensures CurveRhs(SmallRootX) == 1
  {
    var x := SmallRootX;
    assert x * x * x + 3 == 18339143127031519673955619368944035862951672456283526374992679353786018164670688387611428872761242441225503388880405105595015587478067583871559076078 * P + 1 by {
      assert x * x == 544160014257223182441909251108550369568743592194297573017352547261568129193160222873104092908518534053601301573227474957563639965025551134286659135744;
    }
    ModAddMultiple(1, 18339143127031519673955619368944035862951672456283526374992679353786018164670688387611428872761242441225503388880405105595015587478067583871559076078, P);
  }

  lemma ModSqrtOne()
    ensures ModSqrt(1) == Some(1)
  {
    PowOne(SqrtExponent);
  }
}
