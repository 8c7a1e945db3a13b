/**
 * The G1 point codec of mpc-serialization.go, the older revision, which
 * the newer one replaced.
 *
 * Its encoder writes 33 bytes, but its decoder accepts only 64-byte
 * inputs.  The decoder reads x from the first 32 bytes, flag byte
 * included. It reads the BIG_Y flag only after masking it away. It takes
 * y as (x^3 + 3)^((p+1)/4) without checking that this squares back. The
 * higher of y and -y is decided on the words from the least significant
 * one up.
 */
module CodecOld {
  import opened Numbers
  import opened Gfp
  import opened Curve

  const FqElementSize: nat := 32
  const G1CompressedSize: nat := FqElementSize
  const G1UncompressedSize: nat := 2 * FqElementSize

  const SerializationMask: u8 := 0x1F
  const SerializationCompressed: u8 := 0x80
  const SerializationInfinity: u8 := 0x40
  const SerializationBigY: u8 := 0x20

  // ---------------------------------------------------------------------
  // Comparing y with -y, least significant word first

  /** The words in the opposite order, so that Val weighs word 0 the most. */
  function Reversed(e: Limbs): Limbs
  {
    [e[3], e[2], e[1], e[0]]
  }

  /** y is the higher of y and -y when their words are compared from word 0 up. */
  predicate HigherY(y: Limbs)
  {
    Val(Reversed(y)) > Val(Reversed(GfpNeg(y)))
  }

  /** Of a non-zero y and -y exactly one is the higher; zero is not higher than itself. */
  lemma HigherYSign(y: Limbs)
    requires Reduced(y)
    ensures y == Zero ==> !HigherY(y)
    ensures y != Zero ==> (HigherY(y) <==> !HigherY(GfpNeg(y)))
  {
    NegatedWords(y);
    if y != Zero && Val(Reversed(y)) == Val(Reversed(GfpNeg(y))) {
      LimbsInjective(Reversed(y), Reversed(GfpNeg(y)));
    }
  }

  /** IsHigherY: compares the words of y and -y from word 0 up. */
  method IsHigherY(e: G1) returns (higher: bool)
    requires e.p != null
    ensures higher <==> HigherY(e.p.y)
  {
    var yCopy := e.p.y;
    var yNeg := GfpNeg(yCopy);
    var i := 0;
    while i < FpUint64Size
      invariant 0 <= i <= 4
      invariant forall j :: 0 <= j < i ==> yCopy[j] == yNeg[j]
    {
      if yCopy[i] > yNeg[i] {
        HighestDifference(Reversed(yNeg), Reversed(yCopy), 3 - i);
        return true;
      } else if yCopy[i] < yNeg[i] {
        HighestDifference(Reversed(yCopy), Reversed(yNeg), 3 - i);
        return false;
      }
      i := i + 1;
    }
    assert yCopy == yNeg;
    return false;
  }

  // ---------------------------------------------------------------------
  // Encoding

  /** The bytes EncodeCompressed writes: numBytes + 1 = 33 of them, laid out as in the newer revision. */
  function Compressed(x: Limbs, y: Limbs, infinity: bool): (bs: seq<u8>)
    ensures |bs| == G1CompressedSize + 1
    ensures HasFlag(bs[0], SerializationCompressed) && Masked(bs[0]) == 0
    ensures HasFlag(bs[0], SerializationInfinity) <==> infinity
    ensures HasFlag(bs[0], SerializationBigY) <==> !infinity && HigherY(y)
    ensures infinity ==> AllZero(bs[1..])
    ensures !infinity ==> FromBE(bs[1..], 256) == D(x)
  {
    var flags := WithFlag(0, SerializationCompressed);
    if infinity then
      [WithFlag(flags, SerializationInfinity)] + seq(32, _ => 0)
    else
      MarshalValue(MontDecode(x));
      [if HigherY(y) then WithFlag(flags, SerializationBigY) else flags] + MarshalBytes(MontDecode(x))
  }

  /** EncodeCompressed, on a point already affine or at infinity. */
  method EncodeCompressed(e: G1) returns (ret: seq<u8>)
    requires e.p != null && e.p.Affine()
    ensures ret == Compressed(e.p.x, e.p.y, e.p.IsInfinity())
  {
    var buf := new u8[G1CompressedSize + 1](_ => 0);
    buf[0] := WithFlag(buf[0], SerializationCompressed);
    if e.p.IsInfinity() {
      buf[0] := WithFlag(buf[0], SerializationInfinity);
      return buf[..];
    }
    var higher := IsHigherY(e);
    if higher {
      buf[0] := WithFlag(buf[0], SerializationBigY);
    }
    var temp := MontDecode(e.p.x);
    var overran := Marshal(temp, buf, 1);
    assert buf[..] == [buf[0]] + MarshalBytes(temp);
    return buf[..];
  }

  /**
   * EncodeUncompressed.  The buffer has numBytes + 1 = 65 bytes, but y is
   * written from index numBytes + 1, its end, so the Go runtime panics for
   * every point but the identity.
   */
  method EncodeUncompressed(e: G1) returns (r: Outcome<seq<u8>>)
    requires e.p != null && e.p.Affine()
    ensures r.Panicked? <==> !e.p.IsInfinity()
    ensures e.p.IsInfinity() ==> r == Done([SerializationInfinity] + seq(64, _ => 0))
  {
    var buf := new u8[G1UncompressedSize + 1](_ => 0);
    if e.p.IsInfinity() {
      buf[0] := WithFlag(buf[0], SerializationInfinity);
      assert buf[..] == [SerializationInfinity] + seq(64, _ => 0);
      return Done(buf[..]);
    }
    var temp := MontDecode(e.p.x);
    var overran := Marshal(temp, buf, 1);
    temp := MontDecode(e.p.y);
    overran := Marshal(temp, buf, G1UncompressedSize + 1);
    // nothing is left from index 65 on: Marshal runs past the end at once
    assert overran;
    return Panicked;
  }

  // ---------------------------------------------------------------------
  // Recovering y

  /** (v^3 mod p + 3)^((p+1)/4) mod p, the candidate getYFromX computes for the plain integer v. */
  function CandidateRoot(v: nat): (s: nat)
    ensures s < P
  {
    Pow(Pow(v, 3) % P + 3, SqrtExponent) % P
  }

  /** The candidate is a root of x^3 + 3 whenever x^3 + 3 has one (p prime). */
  lemma CandidateRootSquares(v: nat, s: nat)
    requires Fermat() && OnCurve(v, s)
    ensures OnCurve(v, CandidateRoot(v))
  {
    var c := Pow(v, 3) % P + 3;
    assert c % P == CurveRhs(v) by {
      Cube(v);
      ModAddLeft(v * v * v, 3, P);
    }
    SqrtCandidate(c, s);
  }

  lemma Cube(v: nat)
    ensures Pow(v, 3) == v * v * v
  {
    assert Pow(v, 1) == v;
    assert Pow(v, 2) == v * v;
  }

  /**
   * getYFromX: the candidate root of x^3 + 3 for the plain integer the words
   * of x hold, read into words by newGFpFromBigInt, which panics when the
   * candidate is below 2^248.  Nothing checks that the candidate squares
   * back to x^3 + 3.
   */
  method GetYFromX(x: Limbs) returns (y: Outcome<Limbs>)
    ensures y.Panicked? <==> CandidateRoot(Val(x)) < B248
    ensures y.Done? ==> y.value == FromNat(CandidateRoot(Val(x)))
  {
    var xBig := GfpToBigInt(x);
    var rhs := Pow(xBig, 3) % P;
    rhs := rhs + 3;
    var finalExp := (P + 1) / 4;
    SqrtExponentValue();
    var yCoord := Pow(rhs, finalExp) % P;
    y := NewGFpFromBigInt(yCoord);
  }

  // ---------------------------------------------------------------------
  // Decoding

  /** The 33 bytes the decoder copies into `bin`, with the flag bits of the first masked off. */
  function MaskedCopy(encoding: seq<u8>): (bin: seq<u8>)
    requires |encoding| >= G1CompressedSize + 1
    ensures |bin| == G1CompressedSize + 1 && bin[0] < 0x20 && bin[1..] == encoding[1..G1CompressedSize + 1]
  {
    [Masked(encoding[0])] + encoding[1..G1CompressedSize + 1]
  }

  /** The point with y or -y, whichever BIG_Y asks for; `negated` when it is -y. */
  function Orient(x: Limbs, y: Limbs, bigY: bool): (d: Decoding)
    ensures d.Accepted? && d.x == x
  {
    if HigherY(y) == bigY then Accepted(x, y, false) else Accepted(x, GfpNeg(y), true)
  }

  /** The finite path of DecodeCompressed: x from the first 32 bytes, y from getYFromX. */
  function ReadPoint(encoding: seq<u8>): (d: Decoding)
    requires |encoding| == G1UncompressedSize
    ensures d.Rejected? || d.Panics? || d.Accepted?
  {
    var w := Accumulate(Zero, encoding);
    match ModulusCheck(w)
    case Some(err) => Rejected(Coordinate(err), w)
    case None =>
      if CandidateRoot(Val(w)) < B248 then Panics
      else Orient(MontEncode(w), MontEncode(FromNat(CandidateRoot(Val(w)))),
                  HasFlag(MaskedCopy(encoding)[0], SerializationBigY))
  }

  /**
   * What DecodeCompressed does with an input.  Only 64-byte inputs pass the
   * size check, which makes the COMPRESSED check dead; x is read from the
   * first 32 bytes as received; BIG_Y is read from the masked copy.
   */
  function Decompress(encoding: seq<u8>): Decoding
  {
    if |encoding| != G1UncompressedSize then Refused(WrongEncodedPointSize)
    else
      var bin := MaskedCopy(encoding);
      if HasFlag(encoding[0], SerializationInfinity) then
        if HasFlag(encoding[0], SerializationBigY) then Rejected(HighYBitImproperlySet, Zero)
        else if !AllZero(bin) then Rejected(InvalidInfinityEncoding, Zero)
        else AtInfinity
      else ReadPoint(encoding)
  }

  /**
   * DecodeCompressed.  A receiver without a point gets `&curvePoint{}`;
   * one with a point has only x and y reset to zero, so z and t keep
   * whatever they held.
   */
  method DecodeCompressed(e: G1, encoding: seq<u8>) returns (r: Outcome<Option<CodecError>>)
    modifies e, e.p
    ensures var d := Decompress(encoding);
      d.Refused? ==> (r == Done(Some(d.err)) && e.p == old(e.p) && (e.p != null ==> unchanged(e.p)))
    ensures var d := Decompress(encoding);
      !d.Refused? ==> (e.p != null
        && (old(e.p) == null ==> fresh(e.p))
        && (old(e.p) != null ==> e.p == old(e.p)))
    ensures var d := Decompress(encoding);
      d.Rejected? ==> (r == Done(Some(d.err)) && e.p.x == d.x && e.p.y == Zero
        && e.p.z == (if old(e.p) == null then Zero else old(e.p.z))
        && e.p.t == (if old(e.p) == null then Zero else old(e.p.t)))
    ensures var d := Decompress(encoding);
      d.Accepted? ==> (r == Done(None) && e.p.x == d.x && e.p.y == d.y
        && e.p.z == (if old(e.p) == null then Zero else old(e.p.z))
        && e.p.t == (if old(e.p) == null || d.negated then Zero else old(e.p.t)))
    ensures Decompress(encoding).AtInfinity? ==>
      (r == Done(None) && e.p.x == Zero && e.p.y == One && e.p.z == Zero && e.p.t == Zero)
    ensures Decompress(encoding).Panics? <==> r.Panicked?
  {
    if |encoding| != G1UncompressedSize {
      return Done(Some(WrongEncodedPointSize));
    }
    if !HasFlag(encoding[0], SerializationCompressed) && |encoding| < G1UncompressedSize {
      // the length is 64 here
      assert false;
    }
    if e.p == null {
      e.p := new CurvePoint();
    } else {
      e.p.x, e.p.y := Zero, Zero;
    }
    // make + copy: the first 33 bytes, then bin[0] &= serializationMask
    var bin := MaskedCopy(encoding);
    if HasFlag(encoding[0], SerializationInfinity) {
      if HasFlag(encoding[0], SerializationBigY) {
        return Done(Some(HighYBitImproperlySet));
      }
      var nonZero := AnyNonZero(bin);
      if nonZero {
        return Done(Some(InvalidInfinityEncoding));
      }
      assert Decompress(encoding) == AtInfinity;
      e.p.SetInfinity();
      return Done(None);
    }
    assert Decompress(encoding) == ReadPoint(encoding);
    r := ReadCoordinates(e, encoding, bin);
  }

  /**
   * The finite path of DecodeCompressed, from the Unmarshal of x on: it
   * leaves z and t alone, but for t when y is negated.
   */
  method ReadCoordinates(e: G1, encoding: seq<u8>, bin: seq<u8>) returns (r: Outcome<Option<CodecError>>)
    requires |encoding| == G1UncompressedSize && bin == MaskedCopy(encoding)
    requires e.p != null && e.p.x == Zero
    modifies e, e.p
    ensures e.p == old(e.p)
    ensures var d := ReadPoint(encoding);
      d.Rejected? ==> (r == Done(Some(d.err)) && e.p.x == d.x && e.p.y == old(e.p.y)
        && e.p.z == old(e.p.z) && e.p.t == old(e.p.t))
    ensures var d := ReadPoint(encoding);
      d.Accepted? ==> (r == Done(None) && e.p.x == d.x && e.p.y == d.y && e.p.z == old(e.p.z)
        && e.p.t == (if d.negated then Zero else old(e.p.t)))
    ensures ReadPoint(encoding).Panics? <==> r.Panicked?
  {
    assert !HasFlag(bin[0], SerializationBigY);
    var x, err := Unmarshal(e.p.x, encoding);
    e.p.x := x;
    if err.Some? {
      return Done(Some(Coordinate(err.value)));
    }
    var y := GetYFromX(e.p.x);
    if y.Panicked? {
      return Panicked;
    }
    assert ReadPoint(encoding) == Orient(MontEncode(x), MontEncode(y.value), false);
    e.p.y := y.value;
    e.p.x := MontEncode(e.p.x);
    e.p.y := MontEncode(e.p.y);
    var higher := IsHigherY(e);
    if !higher {
      if HasFlag(bin[0], SerializationBigY) {
        // bin[0] is masked: its BIG_Y bit is clear
        assert false;
      }
    } else {
      if !HasFlag(bin[0], SerializationBigY) {
        e.Neg(e);
      }
    }
    return Done(None);
  }

  // ---------------------------------------------------------------------
  // What decoding does and does not promise

  /** No output of EncodeCompressed passes the decoder's size check. */
  lemma CompressedNeverDecodes(x: Limbs, y: Limbs, infinity: bool)
    ensures Decompress(Compressed(x, y, infinity)) == Refused(WrongEncodedPointSize)
  {
  }

  /** With the COMPRESSED flag set, the flag byte makes x exceed p: every finite compressed input is rejected. */
  lemma CompressedFlagExceedsModulus(encoding: seq<u8>)
    requires |encoding| == G1UncompressedSize
    requires HasFlag(encoding[0], SerializationCompressed) && !HasFlag(encoding[0], SerializationInfinity)
    ensures Decompress(encoding) == Rejected(Coordinate(CoordinateExceedsModulus), Accumulate(Zero, encoding))
  {
    var w := Accumulate(Zero, encoding);
    WordsOfValue(encoding);
    var bs := encoding[..32];
    assert bs == [bs[0]] + bs[1..];
    FromBEAppend([bs[0]], bs[1..], 256);
    Pow256();
    assert FromBE([bs[0]], 256) == bs[0] by {
      assert [bs[0]][..0] == [];
    }
    assert bs[0] >= 0x80;
    MulMonotone(0x80, bs[0], B248);
  }

  /** Only inputs with COMPRESSED clear can decode to a finite point. */
  lemma AcceptedHasCompressedClear(encoding: seq<u8>)
    requires Decompress(encoding).Accepted?
    ensures !HasFlag(encoding[0], SerializationCompressed)
  {
    if HasFlag(encoding[0], SerializationCompressed) {
      CompressedFlagExceedsModulus(encoding);
      assert false;
    }
  }

  /** An accepted point never has the higher y: the BIG_Y flag is ignored. */
  lemma AcceptedIsNeverHigher(encoding: seq<u8>)
    requires Decompress(encoding).Accepted?
    ensures !HigherY(Decompress(encoding).y)
  {
    var w := Accumulate(Zero, encoding);
    var y := MontEncode(FromNat(CandidateRoot(Val(w))));
    assert !HasFlag(MaskedCopy(encoding)[0], SerializationBigY);
    assert Decompress(encoding) == Orient(MontEncode(w), y, false);
    HigherYSign(y);
  }

  /**
   * An accepted point has the x the first 32 bytes spell, and lies on the
   * curve when x^3 + 3 is a square (p prime); nothing rejects the other x.
   */
  lemma AcceptedPoint(encoding: seq<u8>, s: nat)
    requires Decompress(encoding).Accepted?
    requires Fermat() && OnCurve(D(Decompress(encoding).x), s)
    ensures var d := Decompress(encoding);
      Reduced(d.x) && D(d.x) == FromBE(encoding[..32], 256) && OnCurve(D(d.x), D(d.y))
  {
    var w := Accumulate(Zero, encoding);
    WordsOfValue(encoding);
    ModOfSmall(Val(w), P);
    var root := CandidateRoot(Val(w));
    CandidateRootSquares(Val(w), s);
    var y := MontEncode(FromNat(root));
    ModOfSmall(root, P);
    NegDecodes(y);
    NegSquareMod(D(y), P);
  }

  /** The identity decodes from exactly the inputs whose 33 masked bytes are zero, whatever follows them. */
  lemma InfinityEncodings(encoding: seq<u8>)
    ensures Decompress(encoding) == AtInfinity <==>
      |encoding| == G1UncompressedSize && HasFlag(encoding[0], SerializationInfinity)
      && !HasFlag(encoding[0], SerializationBigY) && Masked(encoding[0]) == 0
      && AllZero(encoding[1..G1CompressedSize + 1])
  {
    if |encoding| == G1UncompressedSize {
      var bin := MaskedCopy(encoding);
      assert AllZero(bin) <==> bin[0] == 0 && AllZero(bin[1..]) by {
        if bin[0] == 0 && AllZero(bin[1..]) {
          forall i | 0 <= i < |bin| ensures bin[i] == 0 {
            if i > 0 {
              assert bin[i] == bin[1..][i - 1];
            }
          }
        }
      }
    }
  }
}
