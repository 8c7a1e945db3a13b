# BN254 field arithmetic and G1 point serialization

A Dafny model of the core of a Go BN254 ("bn256") pairing package. It covers four parts.

- **The base field `gfP`** (`gfp.go`). An element is four 64-bit words, least significant first, held in Montgomery form. The model covers:
  - `newGFp` and `montEncode`/`montDecode`;
  - Fermat inversion by a right-to-left square-and-multiply loop over the words of p − 2;
  - big-endian `Marshal` and `Unmarshal`, with the modulus check;
  - conversion from and to big integers, and `String`.
- **The quadratic extension `gfP2`** (`gfp2.go`). An element `x·i + y` with i² = −1 is a class whose two word fields each method rewrites. The model covers:
  - componentwise add, subtract, negate and conjugate;
  - schoolbook `Mul` and complex `Square`;
  - `MulXi`, multiplication by ξ = i + 9;
  - norm-based `Invert`;
  - left-to-right binary `Exp` over the big-endian bytes of |exponent|.
- **The G1 point codec, newer revision** (`mpc_serialization.go`). This is module `Codec`.
  - A compressed encoding is 33 bytes: a flag byte carrying COMPRESSED (0x80), INFINITY (0x40) and BIG_Y (0x20), then x out of Montgomery form.
  - The decoder recovers y from y² = x³ + 3 with a modular square root. It picks between y and −y by comparing their Montgomery words from the most significant word down.
- **The older revision of the same codec** (`mpc-serialization.go`). This is module `CodecOld`. Its `IsHigherY` scans the words from the least significant up.

Module `CodecFixed` is the codec as the newer revision evidently intends it. Each defect listed under "## Findings" is modelled twice: as written in `Codec`/`CodecOld`, and corrected in `CodecFixed`.

## Modelling decisions

**Field elements**
- `Numbers` holds shared arithmetic: powers, modular lemmas and big-endian digit sequences.
- A `gfP` is a value (`Gfp.Limbs`, a sequence of four `u64`). Go copies the `[4]uint64` array by value, so a receiver method becomes a function or method that returns the new value.
- The field primitives `gfpAdd`, `gfpSub`, `gfpNeg` and `gfpMul` are assembly and are not part of this model. Each is a function returning the canonical residue, with `gfpMul(a, b) = a·b·R⁻¹ mod p` where R = 2²⁵⁶.
- The decoded value of a word vector is `D(e) = Val(e)·R⁻¹ mod p`. Every field identity is stated on decoded values.
- The constants p, R⁻¹, r2, r3 and `rN1` are written out.

**Number-theory hypotheses**
- Fermat's little theorem for p, which needs p prime, is the hypothesis `Gfp.Fermat()`. Lemmas that depend on primality take it as a precondition.
- The algebra of GF(p)[i] (`Gfp2.F2Mul` and its kin) is written for any modulus m, with Fermat's theorem for m as `Numbers.FermatHolds(m)`; the `GfP2` class uses it with m = p, and `Gfp.Fermat()` is `FermatHolds(p)`.

**Square roots**
- `math/big`'s `ModSqrt` is modelled for p ≡ 3 (mod 4) as the candidate c^((p+1)/4) mod p, kept only when it squares back to c.
- `Curve.ModSqrtComplete` proves from `Fermat()` that this finds a root whenever one exists.

**Curve points**
- `curve.go` is not part of this model. The conventions the codec relies on are written down in `Curve`:
  - `curvePoint` has fields x, y, z, t;
  - `IsInfinity` is z = 0;
  - `SetInfinity` sets (0, 1, 0, 0) in Montgomery form;
  - `G1.Neg` negates y and clears t.
- `MakeAffine` is not modelled. The encoders require an affine point, i.e. z = 1 or at infinity.

**Panics and errors**
- A Go runtime panic (an index out of range) is the `Outcome` value `Panicked`.
- Returned errors are `CodecError` values.

**Where the package's written description and the code disagree, the model follows the code:**
- A compressed encoding of the identity is `0xC0` followed by zeros (COMPRESSED | INFINITY), not `0x40`.
- The newer uncompressed encoder allocates 64 bytes, not 65.
- The newer decoder does not mask the flag bits before its all-zero infinity check.
- The older decoder does not check that x³ + 3 is a square. `getYFromX` returns the exponentiation result unchecked.
- `IsHigherY` compares the Montgomery words of y and −y, not their plain values.

## Model

| member | source | states |
|---|---|---|
| Gfp.MontEncode | gfp.go:123 | the result is reduced below p and decodes to the input's value mod p |
| Gfp.MontDecode | gfp.go:124 | the result is reduced and its plain value is the decoded value of the input |
| Gfp.MontRoundTrip | gfp.go:123-124 | decoding after encoding gives the value mod p; encoding after decoding is the identity on reduced elements |
| Gfp.NewGFp | gfp.go:17-27 | for every int64 x, including negatives through `gfpNeg`, the result is reduced and decodes to x mod p |
| Gfp.NewGFpOne | gfp.go:17-27 | `newGFp(1)` is the Montgomery one |
| Gfp.InvertExponentValue | gfp.go:73-74 | the exponent words `bits` spell p − 2 |
| Gfp.Inverse | gfp.go:70-91 | the inverse decodes to f^(p−2) mod p |
| Gfp.Invert | gfp.go:70-91 | the 4×64-step loop leaves exactly the inverse; the invariant is power = f^(2^k), sum = rN1·f^(bits mod 2^k) |
| Gfp.InverseProduct | gfp.go:70-91 | f · Invert(f) decodes to f^(p−1), hence to 1 when f ≠ 0 and p is prime |
| Gfp.InverseZero | gfp.go:70-91 | the inverse of zero is zero |
| Gfp.MarshalValue | gfp.go:93-99 | the 32 bytes, read big-endian, are the integer the four words spell |
| Gfp.Marshal | gfp.go:93-99 | writes the 32 bytes at the offset; panics iff the buffer is shorter than offset + 32; bytes in range are written even when it panics; nothing else changes |
| Gfp.Accumulate | gfp.go:101-107 | from a zero receiver, the words are the big-endian words of the input |
| Gfp.ModulusCheck | gfp.go:108-117 | no error iff the value is below p; "exceeds modulus" iff above p; "equals modulus" iff equal to p |
| Gfp.Unmarshal | gfp.go:101-118 | the receiver's words gain the input's words (mod 2^64 each), and the error is the modulus check of the result |
| Gfp.UnmarshalMarshal | gfp.go:93-118 | unmarshalling marshalled words into a zero receiver restores them, and succeeds iff they are reduced |
| Gfp.MarshalUnmarshal | gfp.go:93-118 | marshalling what 32 bytes unmarshal to gives the same bytes |
| Gfp.NewGFpFromBigInt | gfp.go:34-48 | panics iff the integer has fewer than 32 bytes (n < 2^248); for 2^248 ≤ n < 2^256 gives n's words; for larger n reads the first 32 of its bytes |
| Gfp.BigIntBytes | gfp.go:34-48 | big.Int `Bytes()` has fewer than 32 bytes iff n < 2^248, and exactly n's 32 bytes in range |
| Gfp.String | gfp.go:29-31 | 64 hex digits |
| Gfp.StringParses | gfp.go:29-31 | `String` prints word 3 first: parsing it as hex gives the integer the words spell |
| Gfp.GfpToBigInt | gfp.go:51-61 | the big integer parsed from `String` is the words' value |
| Gfp2.GfP2.constructor | gfp2.go:14-16 | the zero value has both words zero |
| Gfp2.GfP2.String | gfp2.go:25-27 | "(x, y)" where each half parses back to that word vector's value |
| Gfp2.GfP2.Set | gfp2.go:29-33 | copies both words of a |
| Gfp2.GfP2.SetZero | gfp2.go:35-39 | the element becomes zero |
| Gfp2.GfP2.SetOne | gfp2.go:41-45 | the element becomes one: x = 0 and y = newGFp(1) |
| Gfp2.GfP2.IsZero | gfp2.go:47-50 | true iff the element is zero |
| Gfp2.GfP2.IsOne | gfp2.go:52-55 | true iff the element is one |
| Gfp2.GfP2.Conjugate | gfp2.go:57-61 | the conjugate of a: x negated, y copied |
| Gfp2.GfP2.Neg | gfp2.go:63-67 | −a |
| Gfp2.GfP2.Add | gfp2.go:69-73 | a + b, correct when the receiver aliases an argument |
| Gfp2.GfP2.Sub | gfp2.go:75-79 | a − b |
| Gfp2.GfP2.Mul | gfp2.go:83-99 | the product in GF(p)[i] with i² = −1, also when the receiver aliases a or b |
| Gfp2.GfP2.MulScalar | gfp2.go:101-105 | a times an element of the base field |
| Gfp2.GfP2.MulXi | gfp2.go:108-129 | a · ξ with ξ = i + 9, the same as Mul(a, ξ) |
| Gfp2.GfP2.Square | gfp2.go:131-145 | the same as Mul(a, a) |
| Gfp2.GfP2.Invert | gfp2.go:147-163 | conj(a) · N(a)^(p−2), whose product with a is one when the norm is non-zero |
| Gfp2.GfP2.Exp | gfp2.go:192-218 | the receiver becomes its old value to the power \|exponent\| |
| Gfp2.GfP2Decode | gfp2.go:18-23 | both coordinates taken out of Montgomery form |
| Gfp2.SchoolbookDecodes | gfp2.go:83-99 | Mul's word steps compute the algebra's product |
| Gfp2.ComplexSquareDecodes | gfp2.go:131-145 | (y − x)(x + y) and 2xy compute the square |
| Gfp2.NineFold | gfp2.go:108-129 | the doubling chain 2a, 4a, 8a, 8a + a gives 9a |
| Gfp2.XiWords | gfp2.go:108-129 | MulXi's words are (9x + y, 9y − x), the product with ξ |
| Gfp2.InvertWords | gfp2.go:147-163 | Invert's steps compute conj(a) · N(a)^(p−2) |
| Gfp2.AddWords | gfp2.go:69-73 | word-wise addition is addition in GF(p)[i] |
| Gfp2.SubWords | gfp2.go:75-79 | word-wise subtraction is subtraction in GF(p)[i] |
| Gfp2.NegWords | gfp2.go:63-67 | negating both words negates the element |
| Gfp2.ConjWords | gfp2.go:57-61 | negating only x conjugates |
| Gfp2.ScalarWords | gfp2.go:101-105 | scaling both words is multiplication by (0, b) |
| Gfp2.F2AddSub | gfp2.go:69-79 | subtraction undoes addition |
| Gfp2.F2AddNeg | gfp2.go:63-73 | a + (−a) = 0 |
| Gfp2.F2NegInvolution | gfp2.go:63-67 | Neg is an involution |
| Gfp2.F2ConjInvolution | gfp2.go:57-61 | Conjugate is an involution |
| Gfp2.F2MulComm | gfp2.go:83-99 | multiplication is commutative |
| Gfp2.F2MulOne | gfp2.go:83-99 | one is the multiplicative identity, so Exp by 1 gives the element back |
| Gfp2.F2MulAssoc | gfp2.go:83-99 | multiplication is associative |
| Gfp2.F2PowAdd | gfp2.go:192-218 | a^(j+k) = a^j · a^k |
| Gfp2.F2PowOne | gfp2.go:192-218 | Exp by 1 leaves a reduced element unchanged |
| Gfp2.ConjProduct | gfp2.go:147-163 | a · conj(a) is the norm x² + y², with no i part |
| Gfp2.F2InverseProduct | gfp2.go:147-163 | a · Invert(a) = N(a)^(m−1), hence one when the norm is non-zero and Fermat's theorem holds for the modulus m (m = p prime) |
| Gfp2.ExpBitStep | gfp2.go:203-214 | one bit of Exp takes base^acc to base^(2·acc + bit), squaring only once a set bit was seen |
| Gfp2.F2InverseZero | gfp2.go:147-163 | the inverse of zero is zero |
| Gfp2.ExpByte | gfp2.go:204-213 | the inner loop over one byte v, most significant bit first, takes res from base^acc to base^(256·acc + v) |
| Gfp2.ExpBit | gfp2.go:205-212 | one pass of the inner loop's body leaves res squared once a set bit was seen, then times base when the bit is set |
| Gfp2.ReadBitsStep | gfp2.go:203-210 | testing bit 7 − j of the byte appends that bit to the exponent read so far |
| Gfp2.ReadPrefixBits | gfp2.go:203-210 | the bits read one at a time are the leading bits of the byte appended to the exponent read before it |
| Gfp2.ReadBitsEnd | gfp2.go:203-214 | after a byte's eight bits, the exponent read is 256·acc + v |
| Curve.CurvePoint.SetInfinity | mpc_serialization.go:226 | the point becomes (0, 1, 0, 0), which reads as infinity |
| Curve.CurvePoint.Neg | mpc_serialization.go:246-254 | y is negated, x and z kept, t cleared |
| Curve.G1.Neg | mpc_serialization.go:246-254 | negates a's point into the receiver's, allocating one when it has none |
| Curve.NegatedWords | mpc_serialization.go:50-67 | −y is reduced, −(−y) = y, and its value is p − y for non-zero y |
| Curve.WithFlag | mpc_serialization.go:40-45 | the flag bit is set and the five coordinate bits are unchanged |
| Curve.Masked | mpc-serialization.go:159-163 | `& 0x1F` keeps the low five bits and clears all three flags |
| Curve.AnyNonZero | mpc_serialization.go:220-224 | finds a non-zero byte iff the bytes are not all zero |
| Curve.ModSqrt | mpc_serialization.go:174-178 | a root, when given, is below p and squares to c mod p |
| Curve.ModSqrtComplete | mpc_serialization.go:174-178 | with p prime, a root is found whenever c is a square mod p |
| Curve.SquareRoots | mpc_serialization.go:246-254 | with p prime, two residues with the same square are equal or opposite |
| Curve.RootMatches | mpc_serialization.go:238-254 | the root recovered for a point's x is its y or −y |
| Codec.HigherYSign | mpc_serialization.go:50-67 | zero is not higher; of a non-zero y and −y exactly one is higher |
| Codec.IsHigherY | mpc_serialization.go:50-67 | true iff y's words spell a larger integer than −y's |
| Codec.GfpComp | mpc_serialization.go:72-83 | 1, 0, −1 exactly as the first word vector is above, equal to or below the second |
| Codec.Compressed | mpc_serialization.go:86-117 | 33 bytes, COMPRESSED set; INFINITY iff at infinity; BIG_Y iff finite and y is higher; then zeros or x's plain value big-endian |
| Codec.EncodeCompressed | mpc_serialization.go:86-117 | returns exactly those bytes |
| Codec.EncodeUncompressed | mpc_serialization.go:122-144 | 0x40 and 63 zeros for infinity; panics for every finite point |
| Codec.RecoverY | mpc_serialization.go:147-184 | a recovered y is reduced |
| Codec.RecoveredOnCurve | mpc_serialization.go:147-184 | a recovered y is on the curve with x |
| Codec.RhsDecodes | mpc_serialization.go:149-156 | the Montgomery chain x·x·x + curveB decodes to x³ + 3 mod p |
| Codec.GetYFromMontEncodedX | mpc_serialization.go:147-184 | returns the root in Montgomery form, "not a square" when there is none, and panics when the root is below 2^248 |
| Codec.RecoverYComplete | mpc_serialization.go:147-184 | with p prime, "not a square" is never reported for an x on the curve |
| Codec.DecodeCompressed | mpc_serialization.go:189-257 | wrong length or no COMPRESSED flag: the error, with the receiver untouched; otherwise the point is reset, then rejected with x parsed, or accepted with (x, y) and the sign BIG_Y asks for; panics exactly when recovering y does |
| Codec.DecodedPoint | mpc_serialization.go:232-254 | an accepted point is reduced, on the curve, has the x the bytes spell, and is higher iff BIG_Y is set (y ≠ 0) |
| Codec.DecodeFindsRoot | mpc_serialization.go:238-241 | with p prime, an x on the curve is never rejected as "not a square" |
| Codec.NonSquareRejected | mpc_serialization.go:238-241 | an x with no point on the curve is rejected as "not a square" |
| Codec.RoundTrip | mpc_serialization.go:86-257 | decoding an encoded finite point gives the point back, or panics |
| Codec.InfinityRoundTripFails | mpc_serialization.go:214-228 | the identity's encoding is rejected as an invalid infinity encoding |
| Codec.InfinityNeverDecodes | mpc_serialization.go:214-228 | no input at all decodes to the identity |
| Codec.SmallRootPanics | mpc_serialization.go:180 | the curve points with x³ + 3 = 1 are on the curve, and decoding their encoding panics |
| CodecOld.HigherYSign | mpc-serialization.go:49-65 | with the least-significant-first comparison, zero is not higher, and of a non-zero y and −y exactly one is |
| CodecOld.IsHigherY | mpc-serialization.go:49-65 | true iff y's words, read least significant first, spell a larger integer than −y's |
| CodecOld.Compressed | mpc-serialization.go:68-98 | 33 bytes with the same flags as the newer revision, using the old comparison for BIG_Y |
| CodecOld.EncodeCompressed | mpc-serialization.go:68-98 | returns exactly those bytes |
| CodecOld.EncodeUncompressed | mpc-serialization.go:101-125 | 0x40 and 64 zeros for infinity; panics for every finite point |
| CodecOld.CandidateRoot | mpc-serialization.go:127-141 | (x³ + 3)^((p+1)/4) mod p, always below p |
| CodecOld.CandidateRootSquares | mpc-serialization.go:127-141 | with p prime, when x has a point on the curve the candidate is a square root of x³ + 3 |
| CodecOld.GetYFromX | mpc-serialization.go:127-141 | returns the candidate's words, and panics iff it is below 2^248 |
| CodecOld.MaskedCopy | mpc-serialization.go:159-163 | the first 33 bytes with byte 0's flags cleared |
| CodecOld.ReadPoint | mpc-serialization.go:181-208 | a 64-byte finite input is rejected, panics, or is accepted |
| CodecOld.DecodeCompressed | mpc-serialization.go:144-211 | every 64-byte input is read, whatever its COMPRESSED bit (the check at :148 is dead); the infinity checks use the masked copy; a finite read parses x from bytes 0..31 and keeps z and t (of a fresh point, zero) |
| CodecOld.CompressedNeverDecodes | mpc-serialization.go:145 | the 33 bytes the encoder produces are refused for their length |
| CodecOld.CompressedFlagExceedsModulus | mpc-serialization.go:183 | every 64-byte input with COMPRESSED set and INFINITY clear is rejected as exceeding the modulus: the COMPRESSED bit in byte 0 puts x above p |
| CodecOld.AcceptedHasCompressedClear | mpc-serialization.go:181-208 | only inputs with COMPRESSED clear decode to a finite point |
| CodecOld.AcceptedIsNeverHigher | mpc-serialization.go:200-208 | an accepted point is never the higher one, whatever BIG_Y said |
| CodecOld.AcceptedPoint | mpc-serialization.go:181-208 | with p prime, an accepted point on the curve has the x bytes 0..31 spell |
| CodecOld.InfinityEncodings | mpc-serialization.go:159-179 | decodes to the identity iff 64 bytes with INFINITY set (COMPRESSED either way), BIG_Y clear, and the 32 masked coordinate bytes zero |
| CodecFixed.Uncompressed | mpc_serialization.go:122-144 | 65 bytes: flag byte, then x and y big-endian, each reading back to its element |
| CodecFixed.EncodeUncompressed | mpc_serialization.go:122-144 | returns exactly those bytes, for every point |
| CodecFixed.FillBytes | gfp.go:34-48 | a 32-byte big-endian encoding of any n < 2^256, zero-padded |
| CodecFixed.NewGFpFromBigInt | gfp.go:34-48 | the words of n, for every n < 2^256 |
| CodecFixed.RecoverY | mpc_serialization.go:147-184 | a recovered y is reduced |
| CodecFixed.RecoveredOnCurve | mpc_serialization.go:147-184 | a recovered y is on the curve with x |
| CodecFixed.RecoverYComplete | mpc_serialization.go:147-184 | with p prime, y is found for every x that has a point on the curve; with RecoveredOnCurve, exactly for those x |
| CodecFixed.GetYFromMontEncodedX | mpc_serialization.go:147-184 | returns exactly that recovery, never panicking |
| CodecFixed.MaskedCopy | mpc_serialization.go:210-211 | the input with byte 0's flags cleared |
| CodecFixed.Decompress | mpc_serialization.go:189-257 | decoding never panics |
| CodecFixed.DecodeCompressed | mpc_serialization.go:189-257 | like the newer decoder, but a fresh point is reset too: an accepted point has z = 1; the identity decodes to (0, 1, 0, 0) |
| CodecFixed.RoundTrip | mpc_serialization.go:86-257 | with p prime, decoding an encoding gives back every on-curve point and the identity |
| CodecFixed.DecodedPoint | mpc_serialization.go:232-254 | an accepted point is reduced, on the curve, has the x the bytes spell, and is higher iff BIG_Y is set (y ≠ 0) |
| CodecFixed.InfinityEncodings | mpc_serialization.go:214-228 | decodes to the identity iff 33 bytes with COMPRESSED and INFINITY set, BIG_Y clear, and all masked bytes zero |
| CodecFixed.SmallRootDecodes | mpc_serialization.go:180 | the points with x³ + 3 = 1 decode back |

## Left out

**Files not part of this model**
- The field primitives, constants and curve code are not part of this model: `gfpAdd`/`gfpSub`/`gfpNeg`/`gfpMul` (assembly), `constants.go`, `curve.go` and `bn256.go`. The primitives are functions with their canonical results. `MakeAffine` is replaced by the encoders' precondition that the point is affine.

**gfP**
- `gfP.Set` (gfp.go:63-68) is a value copy. With `gfP` a value it is plain assignment, with nothing to model.
- Gfp.Invert: the count of 256 squarings and the constant-time schedule are not stated. The result is.

**Number theory and `math/big`**
- Primality of p is not proved. Lemmas that need it take `Fermat()` as a hypothesis.
- `math/big.ModSqrt` is modelled by the candidate-and-check path for p ≡ 3 (mod 4), not by its general algorithm.
- The big-integer `Bytes`, `SetString` and `Exp` are modelled by their values.

**Panics and control flow**
- A panic ends the model's operation. The model does not follow Go's panic unwinding.
- Codec.EncodeUncompressed and CodecOld.EncodeUncompressed return `Panicked` rather than describing the bytes of the buffer that is dropped.

**gfP2**
- Gfp2.GfP2.MulScalar: `b` is a word vector passed by value. In the source it is a pointer that may alias `&e.x`; then the second `gfpMul` (gfp2.go:103) reads the already-updated `e.x`. That aliasing case is not modelled.
- Gfp2.GfP2.Exp: `math.Pow(2, 7−j)` (gfp2.go:209) is modelled as the exact bit test it computes. Floating point is not modelled.

**Codec**
- Debug output (mpc_serialization.go:87-88, 98, 105, 190, 225) is I/O with no effect on results.
- The G2 codec that the tests call is not part of this model.
- Randomness (`crypto/rand`, random points) is not modelled. mpc_serialization_test.go:110 calls a two-result `getYFromX` that neither revision defines.
- Constant-time behaviour is not expressible.
- Decoding a bare `G1` allocates a new point. Aliasing between two `G1` values sharing one point is modelled only through the `modifies` frames.

## Findings

| source | as written | input that shows it | evidently intended | confidence | as-written member | corrected member |
|---|---|---|---|---|---|---|
| mpc_serialization.go:214-228 | the all-zero check reads the unmasked flag byte, so a valid infinity encoding is always rejected | `0xC0` followed by 32 zero bytes, the encoder's own output for the identity | mask the flags first so the identity round-trips | high; not executed | Codec.InfinityRoundTripFails | CodecFixed.InfinityEncodings |
| gfp.go:34-48 via mpc_serialization.go:180 | `newGFpFromBigInt` indexes 32 bytes of `Bytes()`, which is shorter for roots below 2^248 | x = 737672023501788484657034070393467974112713954770214311754569895089682103088 with y = ±1 (x³ + 3 ≡ 1, root 1): decoding panics | pad the root to 32 bytes | high; not executed | Codec.SmallRootPanics | CodecFixed.SmallRootDecodes |
| mpc_serialization.go:199-204 | a receiver without a point gets `&curvePoint{}` and keeps z = 0, so the decoded point reads as infinity | any valid encoding decoded into a fresh `G1` | reset z and t to one in both cases | medium; not executed | Codec.DecodeCompressed | CodecFixed.DecodeCompressed |
| mpc_serialization.go:126-141 | 64-byte buffer, y written from byte 33 | any finite affine point | 65 bytes: flag, x, y | high; not executed | Codec.EncodeUncompressed | CodecFixed.EncodeUncompressed |
| mpc-serialization.go:107-122 | y written into `ret[65:]`, an empty slice | any finite affine point | y at bytes 33..64 | high; not executed | CodecOld.EncodeUncompressed | CodecFixed.EncodeUncompressed |
| mpc-serialization.go:145 | the decoder requires 64 bytes, while the encoder writes 33 | any output of EncodeCompressed | accept the 33-byte compressed size | high; not executed | CodecOld.CompressedNeverDecodes | CodecFixed.RoundTrip |
| mpc-serialization.go:163, 200-208 | flags are masked before BIG_Y is read, so the lower root is always chosen | any encoding with BIG_Y set whose point is accepted | read BIG_Y from the unmasked byte | high; not executed | CodecOld.AcceptedIsNeverHigher | CodecFixed.DecodedPoint |
| mpc-serialization.go:183 | x is unmarshalled from `encoding[0..31]`, flag byte included | any 64-byte input with COMPRESSED set and INFINITY clear | unmarshal from the masked bytes 1..32 | high; not executed | CodecOld.CompressedFlagExceedsModulus | CodecFixed.RoundTrip |
