/** Pixel types, their integer codes, and the little-endian byte layout of one pixel. */
module Pixels {
  import opened Results
  import Arith

  type byte = b: int | 0 <= b < 256

  /** The ten supported element types; `PixelTypeUnknown` (code 0) has no constructor. */
  datatype PixelType =
    | UInt8 | Int8 | UInt16 | Int16 | UInt32 | Int32 | UInt64 | Int64 | Float32 | Float64
  {
    predicate IsFloat() { this == Float32 || this == Float64 }

    predicate IsSigned() { this in {Int8, Int16, Int32, Int64} }
  }

  /** The integer constant the library uses for a pixel type. */
  function Code(t: PixelType): (c: int)
    ensures 1 <= c <= 10
  {
    match t
    case UInt8 => 1
    case Int8 => 2
    case UInt16 => 3
    case Int16 => 4
    case UInt32 => 5
    case Int32 => 6
    case UInt64 => 7
    case Int64 => 8
    case Float32 => 9
    case Float64 => 10
  }

  /** The pixel type named by an integer constant, if any. */
  function FromCode(c: int): (r: Option<PixelType>)
    ensures r.Some? <==> 1 <= c <= 10
    ensures r.Some? ==> Code(r.value) == c
  {
    if c == 1 then Some(UInt8)
    else if c == 2 then Some(Int8)
    else if c == 3 then Some(UInt16)
    else if c == 4 then Some(Int16)
    else if c == 5 then Some(UInt32)
    else if c == 6 then Some(Int32)
    else if c == 7 then Some(UInt64)
    else if c == 8 then Some(Int64)
    else if c == 9 then Some(Float32)
    else if c == 10 then Some(Float64)
    else None
  }

  lemma FromCodeOfCode(t: PixelType)
    ensures FromCode(Code(t)) == Some(t)
  {
  }

  /** Storage width of one pixel in bytes. */
  function BytesPerPixel(t: PixelType): (n: nat)
    ensures n == 1 || n == 2 || n == 4 || n == 8
    ensures n == 1 <==> t in {UInt8, Int8}
    ensures n == 2 <==> t in {UInt16, Int16}
    ensures n == 4 <==> t in {UInt32, Int32, Float32}
  {
    match t
    case UInt8 | Int8 => 1
    case UInt16 | Int16 => 2
    case UInt32 | Int32 | Float32 => 4
    case UInt64 | Int64 | Float64 => 8
  }

  function Pow256(n: nat): (p: nat)
    ensures p >= 1
  {
    if n == 0 then 1 else 256 * Pow256(n - 1)
  }

  lemma Pow256Monotone(m: nat, n: nat)
    requires m <= n
    ensures Pow256(m) <= Pow256(n)
  {
    if m < n {
      Pow256Monotone(m, n - 1);
    }
  }

  /** The unsigned integer whose little-endian bytes are `bs`. */
  function Unsigned(bs: seq<byte>): nat
  {
    if bs == [] then 0 else bs[0] + 256 * Unsigned(bs[1..])
  }

  /** The `n` low little-endian bytes of `v`. */
  function LittleEndian(v: nat, n: nat): (bs: seq<byte>)
    ensures |bs| == n
  {
    if n == 0 then [] else [v % 256] + LittleEndian(v / 256, n - 1)
  }

  lemma {:induction false} UnsignedBound(bs: seq<byte>)
    ensures Unsigned(bs) < Pow256(|bs|)
  {
    if bs != [] {
      UnsignedBound(bs[1..]);
      Arith.MixedRadixBound(bs[0], Unsigned(bs[1..]), 256, Pow256(|bs| - 1));
    }
  }

  /** Decoding the `n` bytes of `v` gives `v` reduced to `n` bytes. */
  lemma {:induction false} UnsignedOfLittleEndian(v: nat, n: nat)
    ensures Unsigned(LittleEndian(v, n)) == v % Pow256(n)
  {
    if n > 0 {
      var bs := LittleEndian(v, n);
      assert bs[1..] == LittleEndian(v / 256, n - 1);
      UnsignedOfLittleEndian(v / 256, n - 1);
      Arith.ModOfMulSplit(v % 256, v / 256, 256, Pow256(n - 1));
    }
  }

  /** Encoding the value of a byte string at its own width gives the byte string back. */
  lemma {:induction false} LittleEndianOfUnsigned(bs: seq<byte>)
    ensures LittleEndian(Unsigned(bs), |bs|) == bs
  {
    if bs != [] {
      Arith.DivModOfSum(bs[0], Unsigned(bs[1..]), 256);
      LittleEndianOfUnsigned(bs[1..]);
    }
  }

  /** The first `k` bytes hold the value modulo `256^k`: narrowing keeps the low bytes. */
  lemma {:induction false} UnsignedOfPrefix(bs: seq<byte>, k: nat)
    requires k <= |bs|
    ensures Unsigned(bs[..k]) == Unsigned(bs) % Pow256(k)
  {
    if k > 0 {
      assert bs[..k][1..] == bs[1..][..k - 1];
      UnsignedOfPrefix(bs[1..], k - 1);
      Arith.ModOfMulSplit(bs[0], Unsigned(bs[1..]), 256, Pow256(k - 1));
    }
  }

  function Zeros(n: nat): (bs: seq<byte>)
    ensures |bs| == n && forall i :: 0 <= i < n ==> bs[i] == 0
  {
    seq(n, _ => 0)
  }

  lemma {:induction false} UnsignedOfZeros(n: nat)
    ensures Unsigned(Zeros(n)) == 0
  {
    if n > 0 {
      assert Zeros(n)[1..] == Zeros(n - 1);
      UnsignedOfZeros(n - 1);
    }
  }

  /** Appending zero bytes does not change the value: widening zero-extends. */
  lemma {:induction false} UnsignedOfZeroExtension(bs: seq<byte>, n: nat)
    ensures Unsigned(bs + Zeros(n)) == Unsigned(bs)
  {
    if bs == [] {
      assert bs + Zeros(n) == Zeros(n);
      UnsignedOfZeros(n);
    } else {
      assert (bs + Zeros(n))[1..] == bs[1..] + Zeros(n);
      UnsignedOfZeroExtension(bs[1..], n);
    }
  }

  /** Two's-complement reading of a `bytes`-wide unsigned pattern. */
  function ToSigned(u: nat, bytes: nat): int
  {
    if 2 * u >= Pow256(bytes) then u - Pow256(bytes) else u
  }

  /** What `GetPixel` returns: an integer for the integer types, the raw bit pattern for floats. */
  datatype Value = IntValue(i: int) | FloatBits(t: PixelType, bits: nat)

  /** Decodes the little-endian bytes of one pixel of type `t`. */
  function Decode(t: PixelType, bs: seq<byte>): Value
  {
    if t.IsFloat() then FloatBits(t, Unsigned(bs))
    else if t.IsSigned() then IntValue(ToSigned(Unsigned(bs), |bs|))
    else IntValue(Unsigned(bs))
  }

  /** The least and greatest values of an integer pixel type. */
  function MinValue(t: PixelType): int
  {
    var half: int := Pow256(BytesPerPixel(t)) / 2;
    if t.IsSigned() then -half else 0
  }

  function MaxValue(t: PixelType): int
  {
    if t.IsSigned() then Pow256(BytesPerPixel(t)) / 2 - 1 else Pow256(BytesPerPixel(t)) - 1
  }

  /** Every decoded integer pixel lies in its type's range. */
  lemma DecodeInRange(t: PixelType, bs: seq<byte>)
    requires !t.IsFloat() && |bs| == BytesPerPixel(t)
    ensures Decode(t, bs).IntValue?
    ensures MinValue(t) <= Decode(t, bs).i <= MaxValue(t)
  {
    UnsignedBound(bs);
  }
}
