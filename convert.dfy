/**
 * Per-pixel conversion performed by `Image.AsType`: the source pixel is read as a
 * little-endian unsigned integer (or as float bits) and written at the target width.
 */
module Convert {
  import opened Pixels
  import Arith

  /**
   * The float casts the conversion delegates to. Their bit-level behaviour is not modelled:
   * - `toInteger(src, bits, dst)`: the target bit pattern of a float pixel cast to integer type `dst`;
   * - `fromInteger(dst, u)`: the bits of the float of type `dst` nearest to the integer `u`;
   * - `widen(bits)`: the float64 bits of a float32 value.
   */
  datatype FloatCasts = FloatCasts(
    toInteger: (PixelType, nat, PixelType) -> nat,
    fromInteger: (PixelType, nat) -> nat,
    widen: nat -> nat)

  /**
   * The bytes of one converted pixel, as `AsType` computes them. Integer sources are always read
   * unsigned (`binary.LittleEndian.UintN` or the raw byte), so signed sources are not sign-extended;
   * a Float64 source converted to Float32 is also read as an unsigned integer.
   */
  function ConvertPixel(src: PixelType, dst: PixelType, bs: seq<byte>, casts: FloatCasts): (out: seq<byte>)
    ensures |out| == BytesPerPixel(dst)
  {
    var u := Unsigned(bs);
    var w := BytesPerPixel(dst);
    if !src.IsFloat() && !dst.IsFloat() then LittleEndian(u, w)
    else if !dst.IsFloat() then LittleEndian(casts.toInteger(src, u, dst), w)
    else if !src.IsFloat() || (src == Float64 && dst == Float32) then LittleEndian(casts.fromInteger(dst, u), w)
    else if src == Float32 && dst == Float64 then LittleEndian(casts.widen(u), w)
    else LittleEndian(u, w)
  }

  /** Integer narrowing keeps the low bytes: the result is the source value modulo `256^width`. */
  lemma NarrowingKeepsLowBytes(src: PixelType, dst: PixelType, bs: seq<byte>, casts: FloatCasts)
    requires !src.IsFloat() && !dst.IsFloat()
    requires |bs| == BytesPerPixel(src) && BytesPerPixel(dst) <= BytesPerPixel(src)
    ensures ConvertPixel(src, dst, bs, casts) == bs[..BytesPerPixel(dst)]
    ensures Unsigned(ConvertPixel(src, dst, bs, casts)) == Unsigned(bs) % Pow256(BytesPerPixel(dst))
  {
    var w := BytesPerPixel(dst);
    UnsignedOfPrefix(bs, w);
    LittleEndianOfUnsigned(bs[..w]);
    LittleEndianMod(Unsigned(bs), w);
  }

  /** Integer widening appends zero bytes, for signed sources too. */
  lemma WideningZeroExtends(src: PixelType, dst: PixelType, bs: seq<byte>, casts: FloatCasts)
    requires !src.IsFloat() && !dst.IsFloat()
    requires |bs| == BytesPerPixel(src) && BytesPerPixel(src) <= BytesPerPixel(dst)
    ensures ConvertPixel(src, dst, bs, casts) == bs + Zeros(BytesPerPixel(dst) - |bs|)
    ensures Unsigned(ConvertPixel(src, dst, bs, casts)) == Unsigned(bs)
  {
    var ext := bs + Zeros(BytesPerPixel(dst) - |bs|);
    UnsignedOfZeroExtension(bs, BytesPerPixel(dst) - |bs|);
    LittleEndianOfUnsigned(ext);
  }

  /** Converting between the signed and unsigned type of one width leaves the bytes as they are. */
  lemma SameWidthKeepsBytes(src: PixelType, dst: PixelType, bs: seq<byte>, casts: FloatCasts)
    requires !src.IsFloat() && !dst.IsFloat()
    requires |bs| == BytesPerPixel(src) == BytesPerPixel(dst)
    ensures ConvertPixel(src, dst, bs, casts) == bs
  {
    LittleEndianOfUnsigned(bs);
  }

  /** From an unsigned source to any wider integer type the value is kept. */
  lemma UnsignedWideningKeepsValue(src: PixelType, dst: PixelType, bs: seq<byte>, casts: FloatCasts)
    requires !src.IsFloat() && !src.IsSigned() && !dst.IsFloat()
    requires |bs| == BytesPerPixel(src) && BytesPerPixel(src) < BytesPerPixel(dst)
    ensures Decode(dst, ConvertPixel(src, dst, bs, casts)) == Decode(src, bs)
  {
    WideningZeroExtends(src, dst, bs, casts);
    UnsignedBound(bs);
    var ws, wd := BytesPerPixel(src), BytesPerPixel(dst);
    Pow256Monotone(ws + 1, wd);
    assert Pow256(ws + 1) == 256 * Pow256(ws);
  }

  /** Widening a signed pixel as written: an Int8 pixel holding -1 becomes the Int16 value 255. */
  lemma SignedWideningAsWritten(casts: FloatCasts)
    ensures Decode(Int8, [255]) == IntValue(-1)
    ensures ConvertPixel(Int8, Int16, [255], casts) == [255, 0]
    ensures Decode(Int16, ConvertPixel(Int8, Int16, [255], casts)) == IntValue(255)
  {
    assert Pow256(1) == 256;
    assert Pow256(2) == 65536;
    assert [255][1..] == [];
    assert ConvertPixel(Int8, Int16, [255], casts) == [255, 0];
    assert [255, 0][1..] == [0] && [0][1..] == [];
  }

  // ---------------------------------------------------------------------------
  // Value-preserving integer conversion (sign extension for signed sources)
  // ---------------------------------------------------------------------------

  /** Converts through the decoded value: two's-complement of the value at the target width. */
  function ConvertValue(src: PixelType, dst: PixelType, bs: seq<byte>): (out: seq<byte>)
    requires !src.IsFloat() && !dst.IsFloat()
    ensures |out| == BytesPerPixel(dst)
  {
    var v := Decode(src, bs).i;
    LittleEndian(v % Pow256(BytesPerPixel(dst)), BytesPerPixel(dst))
  }

  lemma Pow256Even(n: nat)
    requires n >= 1
    ensures Pow256(n) % 2 == 0 && Pow256(n) >= 256
  {
    if n > 1 {
      Pow256Even(n - 1);
    }
  }

  /** The `w`-byte two's-complement pattern of `v` decodes back to `v`, signed or unsigned as it fits. */
  lemma TwosComplementRoundTrip(v: int, w: nat)
    requires w >= 1
    ensures var u := Unsigned(LittleEndian(v % Pow256(w), w));
      (-(Pow256(w) / 2) <= v < Pow256(w) / 2 ==> ToSigned(u, w) == v)
      && (0 <= v < Pow256(w) ==> u == v)
  {
    var p := Pow256(w);
    Pow256Even(w);
    Arith.DivModBounds(if v < 0 then -v else v, p);
    var m := v % p;
    UnsignedOfLittleEndian(m, w);
    Arith.DivModBounds(m, p);
    assert m % p == m by { Arith.DivModUnique(m, p, 0, m); }
    if -(p / 2) <= v < 0 {
      Arith.DivModUnique(v, p, -1, v + p);
    } else if 0 <= v < p {
      Arith.DivModUnique(v, p, 0, v);
    }
  }

  /** Every value that fits the target type survives the conversion. */
  lemma ConvertValueKeepsValue(src: PixelType, dst: PixelType, bs: seq<byte>)
    requires !src.IsFloat() && !dst.IsFloat()
    requires MinValue(dst) <= Decode(src, bs).i <= MaxValue(dst)
    ensures Decode(dst, ConvertValue(src, dst, bs)) == Decode(src, bs)
  {
    TwosComplementRoundTrip(Decode(src, bs).i, BytesPerPixel(dst));
  }

  /** On unsigned sources the conversion as written and the value-preserving one agree. */
  lemma ConvertPixelAgreesOnUnsigned(src: PixelType, dst: PixelType, bs: seq<byte>, casts: FloatCasts)
    requires !src.IsFloat() && !src.IsSigned() && !dst.IsFloat()
    ensures ConvertPixel(src, dst, bs, casts) == ConvertValue(src, dst, bs)
  {
    UnsignedOfLittleEndian(Unsigned(bs), BytesPerPixel(dst));
    LittleEndianMod(Unsigned(bs), BytesPerPixel(dst));
  }

  /** Only the value modulo `256^n` reaches the `n` encoded bytes. */
  lemma {:induction false} LittleEndianMod(v: nat, n: nat)
    ensures LittleEndian(v, n) == LittleEndian(v % Pow256(n), n)
  {
    UnsignedOfLittleEndian(v, n);
    UnsignedOfLittleEndian(v % Pow256(n), n);
    Arith.DivModBounds(v, Pow256(n));
    assert (v % Pow256(n)) % Pow256(n) == v % Pow256(n) by {
      Arith.DivModUnique(v % Pow256(n), Pow256(n), 0, v % Pow256(n));
    }
    LittleEndianOfUnsigned(LittleEndian(v, n));
    LittleEndianOfUnsigned(LittleEndian(v % Pow256(n), n));
  }

  /** The Int8 pixel -1 widened through its value is the Int16 value -1. */
  lemma SignedWideningCorrected()
    ensures Decode(Int16, ConvertValue(Int8, Int16, [255])) == IntValue(-1)
  {
    assert Pow256(1) == 256;
    assert [255][1..] == [];
    assert Decode(Int8, [255]) == IntValue(-1);
    ConvertValueKeepsValue(Int8, Int16, [255]);
  }

  // ---------------------------------------------------------------------------
  // Float64 to Float32
  // ---------------------------------------------------------------------------

  /** The little-endian bytes of the float32 1.0. */
  lemma FloatOneBytes()
    ensures Unsigned([0x00, 0x00, 0x80, 0x3F]) == 0x3F80_0000
  {
  }

  /** A value below `2^64` reads back from its eight little-endian bytes. */
  lemma EightByteRoundTrip(v: nat)
    requires v < 0x1_0000_0000_0000_0000
    ensures Unsigned(LittleEndian(v, 8)) == v
  {
    assert Pow256(8) == 0x1_0000_0000_0000_0000 by {
      assert Pow256(8) == 0x1_0000 * Pow256(6);
      assert Pow256(6) == 0x1_0000 * Pow256(4);
    }
    UnsignedOfLittleEndian(v, 8);
  }

  /** The little-endian bytes of the float32 nearest to 2^62 - 2^52 (about 4.6e18). */
  lemma LargeFloatBytes()
    ensures LittleEndian(0x5E7F_C000, 4) == [0x00, 0xC0, 0x7F, 0x5E]
  {
  }

  /**
   * As written, a Float64 pixel converted to Float32 reads its eight bytes as an unsigned integer
   * and casts that integer to float32. Given the IEEE facts that the float32 1.0 (bits `0x3F800000`)
   * widens to the float64 bits `0x3FF0000000000000`, and that the float32 nearest to that integer
   * has bits `0x5E7FC000` (about 4.6e18), a float32 1.0 taken to Float64 and back comes out as 4.6e18.
   */
  lemma FloatNarrowingAsWritten(casts: FloatCasts)
    requires casts.widen(0x3F80_0000) == 0x3FF0_0000_0000_0000
    requires casts.fromInteger(Float32, 0x3FF0_0000_0000_0000) == 0x5E7F_C000
    ensures ConvertPixel(Float64, Float32, ConvertPixel(Float32, Float64, [0x00, 0x00, 0x80, 0x3F], casts), casts)
      == [0x00, 0xC0, 0x7F, 0x5E]
  {
    FloatOneBytes();
    var wide := ConvertPixel(Float32, Float64, [0x00, 0x00, 0x80, 0x3F], casts);
    assert wide == LittleEndian(0x3FF0_0000_0000_0000, 8);
    EightByteRoundTrip(0x3FF0_0000_0000_0000);
    LargeFloatBytes();
  }

  /**
   * The conversion with a Float64 pixel narrowed through its value: `narrow` gives the float32 bits
   * nearest to the float64 with the given bits. Every other pair converts as written.
   */
  function ConvertPixelCorrected(src: PixelType, dst: PixelType, bs: seq<byte>, casts: FloatCasts, narrow: nat -> nat): (out: seq<byte>)
    ensures |out| == BytesPerPixel(dst)
    ensures !(src == Float64 && dst == Float32) ==> out == ConvertPixel(src, dst, bs, casts)
  {
    if src == Float64 && dst == Float32 then LittleEndian(narrow(Unsigned(bs)), 4)
    else ConvertPixel(src, dst, bs, casts)
  }

  /**
   * With the corrected narrowing, a Float32 pixel taken to Float64 and back is unchanged, for any
   * float casts whose narrowing undoes their widening.
   */
  lemma FloatRoundTripCorrected(bs: seq<byte>, casts: FloatCasts, narrow: nat -> nat)
    requires |bs| == 4
    requires forall b: nat :: b < 0x1_0000_0000 ==> casts.widen(b) < 0x1_0000_0000_0000_0000 && narrow(casts.widen(b)) == b
    ensures ConvertPixelCorrected(Float64, Float32, ConvertPixelCorrected(Float32, Float64, bs, casts, narrow), casts, narrow) == bs
  {
    assert Pow256(4) == 0x1_0000_0000 && Pow256(8) == 0x1_0000_0000_0000_0000;
    var u := Unsigned(bs);
    UnsignedBound(bs);
    var wide := ConvertPixelCorrected(Float32, Float64, bs, casts, narrow);
    assert wide == LittleEndian(casts.widen(u), 8);
    UnsignedOfLittleEndian(casts.widen(u), 8);
    assert Unsigned(wide) == casts.widen(u);
    LittleEndianOfUnsigned(bs);
  }

  // ---------------------------------------------------------------------------
  // Integer to float
  // ---------------------------------------------------------------------------

  /**
   * As written, an integer pixel converted to a float type is read unsigned, signed sources
   * included. Given that the float32 nearest to 255 is 255.0 (bits `0x437F0000`), the `int8`
   * pixel -1 becomes the float32 255.0.
   */
  lemma SignedToFloatAsWritten(casts: FloatCasts)
    requires casts.fromInteger(Float32, 255) == 0x437F_0000
    ensures Decode(Int8, [0xFF]) == IntValue(-1)
    ensures ConvertPixel(Int8, Float32, [0xFF], casts) == [0x00, 0x00, 0x7F, 0x43]
  {
    assert Pow256(1) == 256;
    assert Unsigned([0xFF]) == 255 by {
      assert [0xFF as byte][1..] == [];
    }
  }

  /**
   * Integer to float as intended: the float nearest to the pixel's decoded value, so signed
   * sources keep their sign. `fromValue(dst, v)` gives the bits of the float of type `dst`
   * nearest to the integer `v`.
   */
  function IntegerToFloat(src: PixelType, dst: PixelType, bs: seq<byte>, fromValue: (PixelType, int) -> nat): (out: seq<byte>)
    requires !src.IsFloat() && dst.IsFloat()
    ensures |out| == BytesPerPixel(dst)
  {
    LittleEndian(fromValue(dst, Decode(src, bs).i), BytesPerPixel(dst))
  }

  /**
   * Wherever the decoded value is not negative (every unsigned pixel, and the non-negative
   * signed ones) the intended conversion agrees with the one as written.
   */
  lemma IntegerToFloatAgreesOnNonNegative(src: PixelType, dst: PixelType, bs: seq<byte>, casts: FloatCasts, fromValue: (PixelType, int) -> nat)
    requires !src.IsFloat() && dst.IsFloat()
    requires Decode(src, bs).i >= 0
    requires forall n: nat :: fromValue(dst, n) == casts.fromInteger(dst, n)
    ensures IntegerToFloat(src, dst, bs, fromValue) == ConvertPixel(src, dst, bs, casts)
  {
    UnsignedBound(bs);
    assert Decode(src, bs).i == Unsigned(bs);
  }

  /** Corrected: given that the float32 nearest to -1 is -1.0 (bits `0xBF800000`), the `int8` pixel -1 becomes -1.0. */
  lemma SignedToFloatCorrected(fromValue: (PixelType, int) -> nat)
    requires fromValue(Float32, -1) == 0xBF80_0000
    ensures IntegerToFloat(Int8, Float32, [0xFF], fromValue) == [0x00, 0x00, 0x80, 0xBF]
  {
    assert Pow256(1) == 256;
    assert [0xFF as byte][1..] == [];
    assert Decode(Int8, [0xFF]) == IntValue(-1);
  }
}
