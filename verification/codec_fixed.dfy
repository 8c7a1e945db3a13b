/**
 * The G1 codec of mpc_serialization.go with the defects of the newer
 * revision corrected:
 *  - the infinity check runs over the flag byte with its flag bits masked
 *    off, so the identity's own encoding decodes;
 *  - the root is read into a field element through 32 zero-padded bytes,
 *    so a root below 2^248 no longer panics;
 *  - a receiver without a point gets the same affine z = t = 1 as one
 *    with a point;
 *  - the uncompressed encoding has room for its flag byte, x and y.
 * Everything else is the newer revision's: the encoder is Codec.Compressed
 * and the sign of y is Codec.HigherY.
 */
module CodecFixed {
  import opened Numbers
  import opened Gfp
  import opened Curve
  import Codec

  // ---------------------------------------------------------------------
  // Encoding without the overrun

  /** 1 flag byte, then x and y out of Montgomery form, 32 big-endian bytes each. */
  const G1UncompressedSize: nat := 2 * Codec.FqElementSize + 1

  /** The bytes the corrected EncodeUncompressed writes; each coordinate reads back with Unmarshal. */
  function Uncompressed(x: Limbs, y: Limbs, infinity: bool): (bs: seq<u8>)
    ensures |bs| == G1UncompressedSize
    ensures HasFlag(bs[0], Codec.SerializationInfinity) <==> infinity
    ensures !HasFlag(bs[0], Codec.SerializationCompressed) && !HasFlag(bs[0], Codec.SerializationBigY)
    ensures infinity ==> AllZero(bs[1..])
    ensures !infinity ==> Accumulate(Zero, bs[1..33]) == MontDecode(x) && Accumulate(Zero, bs[33..]) == MontDecode(y)
    ensures !infinity ==> FromBE(bs[1..33], 256) == D(x) && FromBE(bs[33..], 256) == D(y)
  {
    if infinity then
      [Codec.SerializationInfinity] + seq(64, _ => 0)
    else
      var bs := [0] + MarshalBytes(MontDecode(x)) + MarshalBytes(MontDecode(y));
      MarshalPair(MontDecode(x), MontDecode(y));
      UnmarshalMarshal(MontDecode(x));
      UnmarshalMarshal(MontDecode(y));
      MarshalValue(MontDecode(x));
      MarshalValue(MontDecode(y));
      bs
  }

  lemma MarshalPair(a: Limbs, b: Limbs)
    ensures var bs := [0] + MarshalBytes(a) + MarshalBytes(b);
      |bs| == G1UncompressedSize && bs[0] == 0 && bs[1..33] == MarshalBytes(a) && bs[33..] == MarshalBytes(b)
  {
  }

  /** EncodeUncompressed with a 65-byte buffer, on a point already affine or at infinity. */
  method EncodeUncompressed(e: G1) returns (ret: seq<u8>)
    requires e.p != null && e.p.Affine()
    ensures ret == Uncompressed(e.p.x, e.p.y, e.p.IsInfinity())
  {
    var buf := new u8[G1UncompressedSize](_ => 0);
    if e.p.IsInfinity() {
      buf[0] := WithFlag(buf[0], Codec.SerializationInfinity);
      assert buf[..] == [buf[0]] + seq(64, _ => 0);
      return buf[..];
    }
    var temp := MontDecode(e.p.x);
    var overran := Marshal(temp, buf, 1);
    temp := MontDecode(e.p.y);
    overran := Marshal(temp, buf, Codec.G1CompressedSize);
    assert buf[..] == [0] + MarshalBytes(MontDecode(e.p.x)) + MarshalBytes(MontDecode(e.p.y));
    return buf[..];
  }

  // ---------------------------------------------------------------------
  // Reading the root without the panic

  /** big.Int.FillBytes into 32 bytes: n's minimal bytes behind leading zeros. */
  function FillBytes(n: nat): (bs: seq<u8>)
    requires n < R
    ensures |bs| == 32 && FromBE(bs, 256) == n
  {
    Pow256();
    MinimalBytesLength(n, 32);
    var zeros: seq<u8> := seq(32 - |MinimalBytes(n)|, _ => 0);
    FromBEAppend(zeros, MinimalBytes(n), 256);
    ZerosValue(|zeros|);
    MinimalBytesValue(n);
    zeros + MinimalBytes(n)
  }

  lemma {:induction false} ZerosValue(k: nat)
    ensures FromBE(seq(k, _ => 0), 256) == 0
  {
    if k > 0 {
      assert seq(k, _ => 0)[..k - 1] == seq(k - 1, _ => 0);
      ZerosValue(k - 1);
    }
  }

  /** The root as a field element: Unmarshal of its 32 padded bytes, for every root below 2^256. */
  method NewGFpFromBigInt(n: nat) returns (e: Limbs)
    requires n < R
    ensures e == FromNat(n)
  {
    var bs := FillBytes(n);
    var err;
    e, err := Unmarshal(Zero, bs);
    WordsOfValue(bs);
    assert bs[..32] == bs;
    FromNatVal(e);
  }

  /** What the corrected getYFromMontEncodedX returns: the root ModSqrt finds, in Montgomery form. */
  function RecoverY(x: Limbs): (y: Option<Limbs>)
    ensures y.Some? ==> Reduced(y.value)
  {
    var c := CurveRhs(D(x));
    ModOfSmall(c, P);
    match ModSqrt(c)
    case None => None
    case Some(s) => Some(Encode(s))
  }

  /** A recovered y is on the curve with x. */
  lemma RecoveredOnCurve(x: Limbs)
    ensures RecoverY(x).Some? ==> OnCurve(D(x), D(RecoverY(x).value))
  {
    ModOfSmall(CurveRhs(D(x)), P);
  }

  /**
   * The root is found for every x at which x^3 + 3 is a square (p prime);
   * with RecoveredOnCurve, y is found exactly for the x of curve points.
   */
  lemma RecoverYComplete(x: Limbs, s: nat)
    requires Fermat() && OnCurve(D(x), s)
    ensures RecoverY(x).Some?
  {
    ModSqrtComplete(CurveRhs(D(x)), s);
  }

  /** getYFromMontEncodedX with the padded conversion; nothing means "not a square mod P". */
  method GetYFromMontEncodedX(x: Limbs) returns (y: Option<Limbs>)
    ensures y == RecoverY(x)
  {
    var x2 := GfpMul(x, x);
    var x3 := GfpMul(x2, x);
    var rhs := GfpAdd(x3, Curve.CurveB);
    Codec.RhsDecodes(x);
    rhs := MontDecode(rhs);
    var rhsBig := GfpToBigInt(rhs);
    var root := ModSqrt(rhsBig);
    if root.None? {
      return None;
    }
    var yCoord := NewGFpFromBigInt(root.value);
    EncodedRoot(root.value);
    return Some(MontEncode(yCoord));
  }

  // ---------------------------------------------------------------------
  // Decoding

  /** The flag byte without its flag bits, then the 32 bytes of x. */
  function MaskedCopy(encoding: seq<u8>): (bin: seq<u8>)
    requires |encoding| >= 1
    ensures |bin| == |encoding| && bin[0] < 0x20 && bin[1..] == encoding[1..]
  {
    [Masked(encoding[0])] + encoding[1..]
  }

  /** The point with y or -y, whichever BIG_Y asks for; `negated` when it is -y. */
  function Orient(x: Limbs, y: Limbs, bigY: bool): (d: Decoding)
    ensures d.Accepted? && d.x == x
  {
    if Codec.HigherY(y) == bigY then Accepted(x, y, false) else Accepted(x, GfpNeg(y), true)
  }

  /** The finite path of the corrected decoder: x from bytes 1 to 32, y from RecoverY. */
  function ReadPoint(encoding: seq<u8>): (d: Decoding)
    requires |encoding| == Codec.G1CompressedSize
    ensures d.Rejected? || d.Accepted?
  {
    var w := Accumulate(Zero, encoding[1..]);
    match ModulusCheck(w)
    case Some(err) => Rejected(Coordinate(err), w)
    case None =>
      var x := MontEncode(w);
      match RecoverY(x)
      case None => Rejected(NotASquareModP, x)
      case Some(y) => Orient(x, y, HasFlag(encoding[0], Codec.SerializationBigY))
  }

  /** What the corrected DecodeCompressed does with an input; it never panics. */
  function Decompress(encoding: seq<u8>): (d: Decoding)
    ensures !d.Panics?
  {
    if |encoding| != Codec.G1CompressedSize then Refused(WrongEncodedPointSize)
    else if !HasFlag(encoding[0], Codec.SerializationCompressed) then Refused(PointIsNotCompressed)
    else if HasFlag(encoding[0], Codec.SerializationInfinity) then
      if HasFlag(encoding[0], Codec.SerializationBigY) then Rejected(HighYBitImproperlySet, Zero)
      else if !AllZero(MaskedCopy(encoding)) then Rejected(InvalidInfinityEncoding, Zero)
      else AtInfinity
    else ReadPoint(encoding)
  }

  /**
   * The corrected DecodeCompressed.  Every receiver ends with z = t = 1
   * (z = t = 0 at infinity), and the result is the error, None for success.
   */
  method DecodeCompressed(e: G1, encoding: seq<u8>) returns (err: Option<CodecError>)
    modifies e, e.p
    ensures var d := Decompress(encoding);
      d.Refused? ==> (err == Some(d.err) && e.p == old(e.p) && (e.p != null ==> unchanged(e.p)))
    ensures var d := Decompress(encoding);
      !d.Refused? ==> (e.p != null
        && (old(e.p) == null ==> fresh(e.p))
        && (old(e.p) != null ==> e.p == old(e.p)))
    ensures var d := Decompress(encoding);
      d.Rejected? ==> (err == Some(d.err) && e.p.x == d.x && e.p.y == Zero && e.p.z == One && e.p.t == One)
    ensures var d := Decompress(encoding);
      d.Accepted? ==> (err == None && e.p.x == d.x && e.p.y == d.y && e.p.z == One
        && e.p.t == (if d.negated then Zero else One))
    ensures Decompress(encoding).AtInfinity? ==>
      (err == None && e.p.x == Zero && e.p.y == One && e.p.z == Zero && e.p.t == Zero)
  {
    if |encoding| != Codec.G1CompressedSize {
      return Some(WrongEncodedPointSize);
    }
    if !HasFlag(encoding[0], Codec.SerializationCompressed) {
      return Some(PointIsNotCompressed);
    }
    if e.p == null {
      e.p := new CurvePoint();
    }
    NewGFpOne();
    e.p.x, e.p.y := Zero, Zero;
    e.p.z, e.p.t := NewGFp(1), NewGFp(1);
    var bin := MaskedCopy(encoding);
    if HasFlag(encoding[0], Codec.SerializationInfinity) {
      if HasFlag(encoding[0], Codec.SerializationBigY) {
        return Some(HighYBitImproperlySet);
      }
      var nonZero := AnyNonZero(bin);
      if nonZero {
        return Some(InvalidInfinityEncoding);
      }
      e.p.SetInfinity();
      return None;
    }
    assert Decompress(encoding) == ReadPoint(encoding);
    err := ReadCoordinates(e, encoding);
  }

  /** The finite path of the corrected DecodeCompressed, from the Unmarshal of x on. */
  method ReadCoordinates(e: G1, encoding: seq<u8>) returns (err: Option<CodecError>)
    requires |encoding| == Codec.G1CompressedSize
    requires e.p != null && e.p.x == Zero && e.p.z == One && e.p.t == One
    modifies e, e.p
    ensures e.p == old(e.p) && e.p.z == One
    ensures var d := ReadPoint(encoding);
      d.Rejected? ==> (err == Some(d.err) && e.p.x == d.x && e.p.y == old(e.p.y) && e.p.t == One)
    ensures var d := ReadPoint(encoding);
      d.Accepted? ==> (err == None && e.p.x == d.x && e.p.y == d.y
        && e.p.t == (if d.negated then Zero else One))
  {
    var x, cause := Unmarshal(e.p.x, encoding[1..]);
    e.p.x := x;
    if cause.Some? {
      return Some(Coordinate(cause.value));
    }
    e.p.x := MontEncode(e.p.x);
    var y := GetYFromMontEncodedX(e.p.x);
    if y.None? {
      return Some(NotASquareModP);
    }
    e.p.y := y.value;
    var higher := Codec.IsHigherY(e);
    if !higher {
      if HasFlag(encoding[0], Codec.SerializationBigY) {
        e.Neg(e);
      }
    } else {
      if !HasFlag(encoding[0], Codec.SerializationBigY) {
        e.Neg(e);
      }
    }
    return None;
  }

  // ---------------------------------------------------------------------
  // What the corrected codec promises

  /**
   * Every point on the curve, and the identity, decodes from its own
   * compressed encoding (p prime).
   */
  lemma RoundTrip(x: Limbs, y: Limbs, infinity: bool)
    requires Fermat() && Reduced(x) && Reduced(y)
    requires !infinity ==> OnCurve(D(x), D(y))
    ensures var d := Decompress(Codec.Compressed(x, y, infinity));
      if infinity then d == AtInfinity else d.Accepted? && d.x == x && d.y == y
  {
    var enc := Codec.Compressed(x, y, infinity);
    if infinity {
      var bin := MaskedCopy(enc);
      assert AllZero(bin) by {
        forall i | 0 <= i < |bin| ensures bin[i] == 0 {
          if i > 0 {
            assert bin[i] == enc[1..][i - 1];
          }
        }
      }
    } else {
      assert enc[1..] == MarshalBytes(MontDecode(x));
      UnmarshalMarshal(MontDecode(x));
      MontRoundTrip(x);
      ModOfSmall(CurveRhs(D(x)), P);
      ModSqrtComplete(CurveRhs(D(x)), D(y));
      var root := ModSqrt(CurveRhs(D(x)));
      RootMatches(y, root.value);
      Codec.HigherYSign(y);
      NegatedWords(y);
    }
  }

  /** An accepted point lies on the curve, has the x the bytes spell, and the sign BIG_Y asks for. */
  lemma DecodedPoint(encoding: seq<u8>)
    requires Decompress(encoding).Accepted?
    ensures var d := Decompress(encoding);
      Reduced(d.x) && Reduced(d.y) && OnCurve(D(d.x), D(d.y))
      && |encoding| == Codec.G1CompressedSize && D(d.x) == FromBE(encoding[1..], 256)
      && (d.y != Zero ==> (Codec.HigherY(d.y) <==> HasFlag(encoding[0], Codec.SerializationBigY)))
  {
    var w := Accumulate(Zero, encoding[1..]);
    WordsOfValue(encoding[1..]);
    assert encoding[1..][..32] == encoding[1..];
    ModOfSmall(Val(w), P);
    var x := MontEncode(w);
    var y := RecoverY(x).value;
    NegDecodes(y);
    NegSquareMod(D(y), P);
    Codec.HigherYSign(y);
    NegatedWords(y);
  }

  /** The identity decodes from exactly the 33 bytes 0xC0 0 ... 0, up to the five mask bits of the flag byte. */
  lemma InfinityEncodings(encoding: seq<u8>)
    ensures Decompress(encoding) == AtInfinity <==>
      |encoding| == Codec.G1CompressedSize && HasFlag(encoding[0], Codec.SerializationCompressed)
      && HasFlag(encoding[0], Codec.SerializationInfinity) && !HasFlag(encoding[0], Codec.SerializationBigY)
      && Masked(encoding[0]) == 0 && AllZero(encoding[1..])
  {
    if |encoding| == Codec.G1CompressedSize {
      var bin := MaskedCopy(encoding);
      assert AllZero(bin) <==> bin[0] == 0 && AllZero(bin[1..]) by {
        if bin[0] == 0 && AllZero(bin[1..]) {
          forall i | 0 <= i < |bin| ensures bin[i] == 0 {
            if i > 0 {
              assert bin[i] == bin[1..][i - 1];
            }
          }
        }
      }
    }
  }

  /** The x that SmallRootPanics exhibits now decodes: both its points round-trip. */
  lemma SmallRootDecodes(y: Limbs)
    requires Fermat()
    requires y == Encode(1) || y == GfpNeg(Encode(1))
    ensures var d := Decompress(Codec.Compressed(Encode(Codec.SmallRootX), y, false));
      d.Accepted? && d.y == y
  {
    Codec.SmallRootPanics(y);
    NegatedWords(Encode(1));
    // SmallRootX with D(y) meets the requires of both RecoverYComplete lemmas.
    Codec.RecoverYComplete(Encode(Codec.SmallRootX), D(y));
    RecoverYComplete(Encode(Codec.SmallRootX), D(y));
    RoundTrip(Encode(Codec.SmallRootX), y, false);
  }
}
