/**
 * The image container of image.go: a byte buffer holding `Product(size)` little-endian
 * pixels of one `PixelType`, laid out with the first axis fastest, plus its geometry.
 */
module Images {
  import opened Results
  import opened Pixels
  import opened Layout
  import Convert
  import Arith

  /** 2^32: the modulus of the `uint32` arithmetic in `SetSize`. */
  const U32: nat := 0x1_0000_0000

  /** The identity direction matrix, row by row. */
  const IdentityDirection: seq<real> := [1.0, 0.0, 0.0, 0.0, 1.0, 0.0, 0.0, 0.0, 1.0]

  /** The spacing a `d`-axis image with default spacing holds after `SetSpacing(s)`. */
  function SpacingAfterSet(s: seq<real>, d: nat): seq<real>
  {
    if |s| == d && forall k :: 0 <= k < |s| ==> s[k] > 0.0 then s else seq(d, _ => 1.0)
  }

  /** The origin a `d`-axis image with default origin holds after `SetOrigin(o)`. */
  function OriginAfterSet(o: seq<real>, d: nat): seq<real>
  {
    if |o| == d then o else seq(d, _ => 0.0)
  }

  /** The bytes of pixel `k` in a buffer of `bpp`-byte pixels. */
  function PixelBytes(buf: seq<byte>, k: nat, bpp: nat): (bs: seq<byte>)
    requires k * bpp + bpp <= |buf|
    ensures |bs| == bpp
  {
    buf[k * bpp .. k * bpp + bpp]
  }

  /** Pixel `k` of `n` pixels fits in an `n * bpp`-byte buffer. */
  lemma PixelFits(k: nat, n: nat, bpp: nat)
    requires k < n
    ensures k * bpp + bpp <= n * bpp
  {
    Arith.MulMonotone(k + 1, n, bpp);
  }

  /** Go's `copy(buf[start:start+len], src)`: copies `min(len, |src|)` bytes and leaves the rest. */
  function CopyInto(buf: seq<byte>, start: nat, src: seq<byte>, len: nat): (r: seq<byte>)
    requires start + len <= |buf|
    ensures |r| == |buf|
  {
    var n := if |src| < len then |src| else len;
    buf[..start] + src[..n] + buf[start + n..]
  }

  /** A pixel written with exactly `bpp` bytes reads back as those bytes. */
  lemma SetThenGet(buf: seq<byte>, k: nat, vb: seq<byte>, bpp: nat)
    requires k * bpp + bpp <= |buf| && |vb| == bpp
    ensures PixelBytes(CopyInto(buf, k * bpp, vb, bpp), k, bpp) == vb
  {
  }

  /** Bytes outside the copied range keep their values. */
  lemma CopyIntoOutside(buf: seq<byte>, start: nat, src: seq<byte>, len: nat, i: nat)
    requires start + len <= |buf| && i < |buf| && (i < start || start + len <= i)
    ensures CopyInto(buf, start, src, len)[i] == buf[i]
  {
  }

  /** Writing pixel `k` leaves every other pixel's bytes as they were. */
  lemma SetLeavesOtherPixels(buf: seq<byte>, k: nat, other: nat, vb: seq<byte>, bpp: nat)
    requires k * bpp + bpp <= |buf| && other * bpp + bpp <= |buf| && k != other
    ensures PixelBytes(CopyInto(buf, k * bpp, vb, bpp), other, bpp) == PixelBytes(buf, other, bpp)
  {
    DisjointPixels(k, other, bpp);
    CopyIntoOutsideRange(buf, k * bpp, vb, bpp, other * bpp, bpp);
  }

  /** Two different pixels' byte ranges do not overlap. */
  lemma DisjointPixels(k: nat, other: nat, bpp: nat)
    requires k != other
    ensures other * bpp + bpp <= k * bpp || k * bpp + bpp <= other * bpp
  {
    if other < k {
      Arith.MulMonotone(other + 1, k, bpp);
    } else {
      Arith.MulMonotone(k + 1, other, bpp);
    }
  }

  /** A range of bytes clear of the copied range keeps its values. */
  lemma CopyIntoOutsideRange(buf: seq<byte>, start: nat, src: seq<byte>, len: nat, lo: nat, n: nat)
    requires start + len <= |buf| && lo + n <= |buf| && (lo + n <= start || start + len <= lo)
    ensures CopyInto(buf, start, src, len)[lo..lo + n] == buf[lo..lo + n]
  {
    forall i | lo <= i < lo + n
      ensures CopyInto(buf, start, src, len)[i] == buf[i]
    {
      CopyIntoOutside(buf, start, src, len, i);
    }
  }

  /** The pixel types whose conversion reuses the source buffer instead of copying it. */
  predicate Aliases(src: PixelType, dst: PixelType)
  {
    (src == UInt16 && dst == Int16) || (src == UInt32 && dst == Int32) || (src == UInt64 && dst == Int64)
  }

  /** The pixels `0 .. n-1` of `buf`, each `ws` bytes wide, mapped through `f` and concatenated. */
  function MapPixels(f: seq<byte> -> seq<byte>, buf: seq<byte>, n: nat, ws: nat): seq<byte>
    requires n * ws <= |buf|
  {
    if n == 0 then []
    else
      PixelFits(n - 1, n, ws);
      MapPixels(f, buf, n - 1, ws) + f(PixelBytes(buf, n - 1, ws))
  }

  /** With `f` producing `wd` bytes per pixel, `n` pixels produce `n * wd` bytes. */
  lemma {:induction false} MapPixelsLength(f: seq<byte> -> seq<byte>, buf: seq<byte>, n: nat, ws: nat, wd: nat)
    requires n * ws <= |buf| && forall bs :: |f(bs)| == wd
    ensures |MapPixels(f, buf, n, ws)| == n * wd
  {
    if n > 0 {
      PixelFits(n - 1, n, ws);
      MapPixelsLength(f, buf, n - 1, ws, wd);
      assert (n - 1) * wd + wd == n * wd;
    }
  }

  /** Mapping the first `m` pixels gives a prefix of mapping the first `n`. */
  lemma {:induction false} MapPixelsPrefix(f: seq<byte> -> seq<byte>, buf: seq<byte>, n: nat, m: nat, ws: nat, wd: nat)
    requires n * ws <= |buf| && m <= n && forall bs :: |f(bs)| == wd
    ensures m * ws <= |buf| && m * wd <= n * wd && |MapPixels(f, buf, n, ws)| == n * wd
    ensures MapPixels(f, buf, n, ws)[..m * wd] == MapPixels(f, buf, m, ws)
  {
    Arith.MulMonotone(m, n, ws);
    Arith.MulMonotone(m, n, wd);
    MapPixelsLength(f, buf, m, ws, wd);
    MapPixelsLength(f, buf, n, ws, wd);
    if m < n {
      PixelFits(n - 1, n, ws);
      Arith.MulMonotone(m, n - 1, wd);
      MapPixelsPrefix(f, buf, n - 1, m, ws, wd);
      MapPixelsLength(f, buf, n - 1, ws, wd);
    }
  }

  /** Output pixel `k` is `f` of input pixel `k`. */
  lemma MapPixelsPixel(f: seq<byte> -> seq<byte>, buf: seq<byte>, n: nat, k: nat, ws: nat, wd: nat)
    requires n * ws <= |buf| && k < n && forall bs :: |f(bs)| == wd
    ensures k * ws + ws <= |buf| && k * wd + wd <= n * wd
    ensures |MapPixels(f, buf, n, ws)| == n * wd
    ensures PixelBytes(MapPixels(f, buf, n, ws), k, wd) == f(PixelBytes(buf, k, ws))
  {
    PixelFits(k, n, ws);
    PixelFits(k, n, wd);
    MapPixelsLength(f, buf, n, ws, wd);
    MapPixelsPrefix(f, buf, n, k + 1, ws, wd);
    MapPixelsLength(f, buf, k, ws, wd);
    assert (k + 1) * wd == k * wd + wd;
  }

  /** A map that returns every `ws`-byte pixel unchanged reproduces the buffer's prefix. */
  lemma {:induction false} MapPixelsIdentity(f: seq<byte> -> seq<byte>, buf: seq<byte>, n: nat, ws: nat)
    requires n * ws <= |buf| && forall bs :: |bs| == ws ==> f(bs) == bs
    ensures MapPixels(f, buf, n, ws) == buf[..n * ws]
  {
    if n > 0 {
      PixelFits(n - 1, n, ws);
      MapPixelsIdentity(f, buf, n - 1, ws);
      assert buf[..n * ws] == buf[..(n - 1) * ws] + PixelBytes(buf, n - 1, ws);
    }
  }

  /** The per-pixel conversion from `src` to `dst` as a function value. */
  function Converter(src: PixelType, dst: PixelType, casts: Convert.FloatCasts): seq<byte> -> seq<byte>
  {
    bs => Convert.ConvertPixel(src, dst, bs, casts)
  }

  /** The converter produces one pixel of the target width. */
  lemma ConverterWidth(src: PixelType, dst: PixelType, casts: Convert.FloatCasts)
    ensures forall bs :: |Converter(src, dst, casts)(bs)| == BytesPerPixel(dst)
  {
  }

  /** The first `n` pixels of `buf` converted one by one, as `AsType`'s loops produce them. */
  function ConvertAll(src: PixelType, dst: PixelType, buf: seq<byte>, n: nat, casts: Convert.FloatCasts): (out: seq<byte>)
    requires n * BytesPerPixel(src) <= |buf|
    ensures |out| == n * BytesPerPixel(dst)
  {
    MapPixelsLength(Converter(src, dst, casts), buf, n, BytesPerPixel(src), BytesPerPixel(dst));
    MapPixels(Converter(src, dst, casts), buf, n, BytesPerPixel(src))
  }

  /** Pixel `k` of the converted buffer is the conversion of pixel `k` of the source. */
  lemma ConvertAllPixel(src: PixelType, dst: PixelType, buf: seq<byte>, n: nat, k: nat, casts: Convert.FloatCasts)
    requires n * BytesPerPixel(src) <= |buf| && k < n
    ensures k * BytesPerPixel(src) + BytesPerPixel(src) <= |buf|
    ensures k * BytesPerPixel(dst) + BytesPerPixel(dst) <= n * BytesPerPixel(dst)
    ensures PixelBytes(ConvertAll(src, dst, buf, n, casts), k, BytesPerPixel(dst))
      == Convert.ConvertPixel(src, dst, PixelBytes(buf, k, BytesPerPixel(src)), casts)
  {
    MapPixelsPixel(Converter(src, dst, casts), buf, n, k, BytesPerPixel(src), BytesPerPixel(dst));
  }

  /** Reusing the buffer of an unsigned type as its signed counterpart is the same as converting it. */
  lemma AliasingMatchesConversion(src: PixelType, dst: PixelType, buf: seq<byte>, n: nat, casts: Convert.FloatCasts)
    requires Aliases(src, dst) && n * BytesPerPixel(src) <= |buf|
    ensures ConvertAll(src, dst, buf, n, casts) == buf[..n * BytesPerPixel(src)]
  {
    var f := Converter(src, dst, casts);
    forall bs | |bs| == BytesPerPixel(src)
      ensures f(bs) == bs
    {
      Convert.SameWidthKeepsBytes(src, dst, bs, casts);
    }
    MapPixelsIdentity(f, buf, n, BytesPerPixel(src));
  }

  /** The `uint32` product `SetSize` computes: each step is reduced modulo 2^32. */
  function WrappedProduct(size: seq<nat>): nat
  {
    if size == [] then 1 else (WrappedProduct(size[..|size| - 1]) * size[|size| - 1]) % U32
  }

  /** The wrapped product is the true product modulo 2^32. */
  lemma {:induction false} WrappedProductIsProductMod(size: seq<nat>)
    ensures WrappedProduct(size) == Product(size) % U32
  {
    if size == [] {
    } else {
      var init, last := size[..|size| - 1], size[|size| - 1];
      assert size == init + [last];
      WrappedProductIsProductMod(init);
      ProductOfAppend(init, last);
      ModOfProduct(Product(init), last, U32);
    }
  }

  lemma ModOfProduct(a: nat, b: nat, m: nat)
    requires m > 0
    ensures ((a % m) * b) % m == (a * b) % m
  {
    var q := a / m;
    assert a * b == (a % m) * b + m * (q * b) by {
      assert a == q * m + a % m;
    }
    Arith.DivModBounds((a % m) * b, m);
    var q2, r2 := ((a % m) * b) / m, ((a % m) * b) % m;
    Arith.DivModUnique(a * b, m, q2 + q * b, r2);
  }

  /** `SetSize`'s check accepts a size whose product only agrees with the pixel count modulo 2^32. */
  lemma SetSizeWrapAccepted()
    ensures WrappedProduct([65536, 65537]) == 65536
    ensures Product([65536, 65537]) == 65536 * 65537
  {
    assert [65536, 65537][..1] == [65536] && [65536][..0] == [];
  }

  /** The x-fastest index as `GetIndexFromLinearIndex` returns it: zeros, then `l % size[0]`. */
  function AsWrittenIndex(l: nat, size: seq<nat>): (index: seq<nat>)
    requires Positive(size)
    ensures |index| == |size|
  {
    if size == [] then [] else seq(|size| - 1, _ => 0) + [l % size[0]]
  }

  /** The index as written points at `(l % size[0]) * (size[0] * ... * size[n-2])`, not at `l`. */
  lemma AsWrittenIndexOffset(l: nat, size: seq<nat>)
    requires Positive(size) && |size| >= 1
    ensures Offset(AsWrittenIndex(l, size), size) == (l % size[0]) * Product(size[..|size| - 1])
  {
    OffsetOfLastOnly(l % size[0], size);
  }

  lemma {:induction false} OffsetOfLastOnly(v: nat, size: seq<nat>)
    requires |size| >= 1
    ensures Offset(seq(|size| - 1, _ => 0) + [v], size) == v * Product(size[..|size| - 1])
  {
    var index := seq(|size| - 1, _ => 0) + [v];
    if |size| == 1 {
      assert index == [v] && index[1..] == [];
      assert size[..0] == [];
    } else {
      assert index[1..] == seq(|size| - 2, _ => 0) + [v];
      OffsetOfLastOnly(v, size[1..]);
      assert size[1..][..|size| - 2] == size[..|size| - 1][1..];
      assert Offset(index, size) == size[0] * (v * Product(size[1..][..|size| - 2]));
    }
  }

  /** On a 2x2 image the linear positions 0 and 2 both give index [0, 0], and 1 gives [0, 1], which is pixel 2. */
  lemma AsWrittenIndexCounterexample()
    ensures AsWrittenIndex(0, [2, 2]) == AsWrittenIndex(2, [2, 2]) == [0, 0]
    ensures AsWrittenIndex(1, [2, 2]) == [0, 1] && Offset([0, 1], [2, 2]) == 2
  {
    assert [0, 1][1..] == [1] && [1][1..] == [];
  }

  /** The swap loop that reverses a slice in place. */
  method ReverseInPlace(a: array<nat>)
    modifies a
    ensures forall k :: 0 <= k < a.Length ==> a[k] == old(a[a.Length - 1 - k])
  {
    var n := a.Length;
    var h := 0;
    while h < n / 2
      invariant 0 <= h <= n / 2
      invariant forall k :: 0 <= k < h ==> a[k] == old(a[n - 1 - k]) && a[n - 1 - k] == old(a[k])
      invariant forall k :: h <= k < n - h ==> a[k] == old(a[k])
    {
      a[h], a[n - 1 - h] := a[n - 1 - h], a[h];
      h := h + 1;
    }
  }

  class Image {
    var pixels: array<byte>
    var pixelType: PixelType
    var bytesPerPixel: nat
    var dimension: nat
    var size: seq<nat>
    var spacing: seq<real>
    var origin: seq<real>
    var direction: seq<real>

    /** The buffer holds every pixel the extents describe, and each extent is positive. */
    ghost predicate Valid()
      reads this
    {
      bytesPerPixel == BytesPerPixel(pixelType)
      && dimension == |size| && Positive(size) && |direction| == 9
      && Product(size) * bytesPerPixel <= pixels.Length
    }

    /** One spacing and one origin coordinate per axis. */
    predicate HasGeometry()
      reads this
    {
      |spacing| == dimension && |origin| == dimension
    }

    /** The zero-filled image with unit spacing, zero origin and identity direction. */
    constructor (size: seq<nat>, t: PixelType, numPixels: nat)
      requires 2 <= |size| <= 3 && Positive(size) && numPixels == Product(size)
      ensures Valid() && HasGeometry() && fresh(pixels)
      ensures this.size == size && pixelType == t && dimension == |size|
      ensures spacing == seq(|size|, _ => 1.0) && origin == seq(|size|, _ => 0.0)
      ensures direction == IdentityDirection
      ensures pixels.Length == numPixels * BytesPerPixel(t)
      ensures forall i :: 0 <= i < pixels.Length ==> pixels[i] == 0
    {
      pixels := new byte[numPixels * BytesPerPixel(t)](_ => 0);
      pixelType := t;
      bytesPerPixel := BytesPerPixel(t);
      dimension := |size|;
      this.size := size;
      spacing := seq(|size|, _ => 1.0);
      origin := seq(|size|, _ => 0.0);
      direction := IdentityDirection;
    }

    /** The pixel an in-bounds index addresses, decoded from its bytes. */
    function PixelAt(index: seq<nat>): Value
      reads this, pixels
      requires Valid() && InBounds(index, size)
    {
      OffsetBound(index, size);
      PixelFits(Offset(index, size), Product(size), bytesPerPixel);
      Decode(pixelType, PixelBytes(pixels[..], Offset(index, size), bytesPerPixel))
    }

    /** The index check and offset loop shared by `GetPixel` and `SetPixel`. */
    method LinearOffset(index: seq<nat>) returns (r: Result<nat>)
      requires Valid()
      ensures r.Ok? <==> InBounds(index, size)
      ensures r.Ok? ==> r.value == Offset(index, size) && r.value < Product(size)
    {
      if |index| != dimension {
        return Err("invalid index length");
      }
      var idx := 0;
      var i := |index|;
      while i > 0
        invariant 0 <= i <= |index|
        invariant InBounds(index[i..], size[i..])
        invariant idx == Offset(index[i..], size[i..])
      {
        i := i - 1;
        if index[i] >= size[i] {
          return Err("index out of range");
        }
        assert index[i..][1..] == index[i + 1..] && size[i..][1..] == size[i + 1..];
        idx := idx * size[i] + index[i];
      }
      assert index[0..] == index && size[0..] == size;
      OffsetBound(index, size);
      return Ok(idx);
    }

    /** The decoded pixel at `index`, or an error for a wrong-length or out-of-range index. */
    method GetPixel(index: seq<nat>) returns (r: Result<Value>)
      requires Valid()
      ensures r.Ok? <==> InBounds(index, size)
      ensures r.Ok? ==> r.value == PixelAt(index)
    {
      var off :- LinearOffset(index);
      PixelFits(off, Product(size), bytesPerPixel);
      var bs := pixels[off * bytesPerPixel .. off * bytesPerPixel + bytesPerPixel];
      return Ok(Decode(pixelType, bs));
    }

    /**
     * Copies the encoded value into the pixel at `index`. `encoded` is the outcome of
     * converting the caller's value to bytes; its error is reported after the index check.
     */
    method SetPixel(index: seq<nat>, encoded: Result<seq<byte>>) returns (r: Outcome)
      requires Valid()
      modifies pixels
      ensures r.Success? <==> InBounds(index, size) && encoded.Ok?
      ensures r.Success? ==> Offset(index, size) * bytesPerPixel + bytesPerPixel <= pixels.Length
      ensures r.Success? ==>
        pixels[..] == CopyInto(old(pixels[..]), Offset(index, size) * bytesPerPixel, encoded.value, bytesPerPixel)
      ensures r.Failure? ==> pixels[..] == old(pixels[..])
    {
      var off := LinearOffset(index);
      if off.Err? {
        return Failure(off.msg);
      }
      if encoded.Err? {
        return Failure(encoded.msg);
      }
      var vb := encoded.value;
      var start := off.value * bytesPerPixel;
      PixelFits(off.value, Product(size), bytesPerPixel);
      var n := if |vb| < bytesPerPixel then |vb| else bytesPerPixel;
      forall k | 0 <= k < n {
        pixels[start + k] := vb[k];
      }
      assert pixels[..] == CopyInto(old(pixels[..]), start, vb, bytesPerPixel);
      return Success;
    }

    /** The product of the extents. */
    method NumPixels() returns (n: nat)
      requires Valid()
      ensures n == Product(size)
    {
      n := 1;
      var i := 0;
      while i < |size|
        invariant 0 <= i <= |size|
        invariant n == Product(size[..i])
      {
        assert size[..i + 1] == size[..i] + [size[i]];
        ProductOfAppend(size[..i], size[i]);
        n := n * size[i];
        i := i + 1;
      }
      assert size[..|size|] == size;
    }

    /** Replaces the spacing when it has one positive entry per axis. */
    method SetSpacing(s: seq<real>) returns (r: Outcome)
      modifies this`spacing
      ensures r.Success? <==> |s| == dimension && forall k :: 0 <= k < |s| ==> s[k] > 0.0
      ensures spacing == if r.Success? then s else old(spacing)
    {
      if |s| != dimension {
        return Failure("invalid spacing length");
      }
      var i := 0;
      while i < |s|
        invariant 0 <= i <= |s|
        invariant forall k :: 0 <= k < i ==> s[k] > 0.0
      {
        if s[i] <= 0.0 {
          return Failure("invalid spacing");
        }
        i := i + 1;
      }
      spacing := s;
      return Success;
    }

    /** Replaces the origin when it has one entry per axis. */
    method SetOrigin(o: seq<real>) returns (r: Outcome)
      modifies this`origin
      ensures r.Success? <==> |o| == dimension
      ensures origin == if r.Success? then o else old(origin)
    {
      if |o| != dimension {
        return Failure("invalid origin length");
      }
      origin := o;
      return Success;
    }

    method SetDirection(d: seq<real>)
      requires |d| == 9
      modifies this`direction
      ensures direction == d
    {
      direction := d;
    }

    /**
     * Replaces the buffer with the flattened bytes of the caller's data (`flattened`, whose
     * production is not modelled) when their whole-pixel count equals the image's pixel count.
     */
    method SetPixels(flattened: Result<seq<byte>>) returns (r: Outcome)
      requires Valid()
      modifies this`pixels
      ensures r.Success? <==> flattened.Ok? && |flattened.value| / bytesPerPixel == Product(size)
      ensures r.Success? ==> fresh(pixels) && pixels[..] == flattened.value
      ensures r.Failure? ==> pixels == old(pixels)
      ensures Valid()
    {
      if flattened.Err? {
        return Failure(flattened.msg);
      }
      var flat := flattened.value;
      var numPixels := NumPixels();
      if |flat| / bytesPerPixel != numPixels {
        return Failure("invalid number of pixels");
      }
      Arith.DivModBounds(|flat|, bytesPerPixel);
      pixels := new byte[|flat|](k requires 0 <= k < |flat| => flat[k]);
      return Success;
    }

    /**
     * Replaces the extents when their `uint32` product equals the pixel count (also taken as
     * `uint32`); the dimension follows the new length. Spacing and origin are left as they are.
     */
    method SetSize(newSize: seq<nat>) returns (r: Outcome)
      requires Valid()
      modifies this`size, this`dimension
      ensures r.Success? <==> WrappedProduct(newSize) == (old(pixels.Length) / bytesPerPixel) % U32
      ensures size == (if r.Success? then newSize else old(size))
      ensures dimension == (if r.Success? then |newSize| else old(dimension))
    {
      var total := 1;
      var i := 0;
      while i < |newSize|
        invariant 0 <= i <= |newSize|
        invariant total == WrappedProduct(newSize[..i])
        invariant size == old(size) && dimension == old(dimension)
      {
        assert newSize[..i + 1][..i] == newSize[..i];
        total := (total * newSize[i]) % U32;
        i := i + 1;
      }
      assert newSize[..|newSize|] == newSize;
      var numPixels := pixels.Length / bytesPerPixel;
      if numPixels % U32 != total {
        return Failure("invalid number of pixels");
      }
      size := newSize;
      dimension := |newSize|;
      return Success;
    }

    /** `SetSize` with the exact product: every size it accepts keeps the image valid. */
    method SetSizeExact(newSize: seq<nat>) returns (r: Outcome)
      requires Valid()
      modifies this`size, this`dimension
      ensures r.Success? <==> Product(newSize) == pixels.Length / bytesPerPixel
      ensures size == (if r.Success? then newSize else old(size))
      ensures dimension == (if r.Success? then |newSize| else old(dimension))
      ensures Valid()
    {
      var total := 1;
      var i := 0;
      while i < |newSize|
        invariant 0 <= i <= |newSize|
        invariant total == Product(newSize[..i])
        invariant size == old(size) && dimension == old(dimension)
      {
        assert newSize[..i + 1] == newSize[..i] + [newSize[i]];
        ProductOfAppend(newSize[..i], newSize[i]);
        total := total * newSize[i];
        i := i + 1;
      }
      assert newSize[..|newSize|] == newSize;
      var numPixels := pixels.Length / bytesPerPixel;
      if numPixels != total {
        return Failure("invalid number of pixels");
      }
      ProductPositive(size);
      Arith.DivModBounds(pixels.Length, bytesPerPixel);
      PositiveOfProduct(newSize);
      size := newSize;
      dimension := |newSize|;
      return Success;
    }

    /** The product of the first `i` extents, as the inner loops of the index conversion compute it. */
    method PrefixProduct(i: nat) returns (sub: nat)
      requires Valid() && i <= |size|
      ensures sub == Product(size[..i]) && sub > 0
    {
      sub := 1;
      var j := 0;
      while j < i
        invariant 0 <= j <= i
        invariant sub == Product(size[..j]) && sub > 0
      {
        assert size[..j + 1] == size[..j] + [size[j]];
        ProductOfAppend(size[..j], size[j]);
        sub := sub * size[j];
        j := j + 1;
      }
    }

    /**
     * The linear-to-index conversion as written: the remainder is reduced modulo 1 after the
     * first axis, so every later component is 0, and the components are then reversed.
     */
    method GetIndexFromLinearIndex(l: nat) returns (r: Result<seq<nat>>)
      requires Valid()
      ensures r.Err? <==> l >= Product(size)
      ensures r.Ok? ==> r.value == AsWrittenIndex(l, size)
    {
      var n := NumPixels();
      if l >= n {
        return Err("linear index out of range");
      }
      var indices := new nat[dimension](_ => 0);
      var remaining := l;
      var i := 0;
      while i < dimension
        invariant 0 <= i <= dimension
        invariant remaining == if i == 0 then l else 0
        invariant forall k :: 0 <= k < i ==> indices[k] == if k == 0 then l % size[0] else 0
      {
        var sub := PrefixProduct(i);
        if i > 0 {
          Arith.DivModBounds(remaining, sub);
        }
        indices[i] := (remaining / sub) % size[i];
        remaining := remaining % sub;
        i := i + 1;
      }
      ReverseInPlace(indices);
      if dimension > 0 {
        assert forall k :: 0 <= k < dimension ==> indices[k] == AsWrittenIndex(l, size)[k];
      }
      assert indices[..] == AsWrittenIndex(l, size);
      return Ok(indices[..]);
    }

    /** The intended conversion: component i is `(l / (size[0]*...*size[i-1])) % size[i]`, not reversed. */
    method LinearIndexToIndex(l: nat) returns (r: Result<seq<nat>>)
      requires Valid()
      ensures r.Err? <==> l >= Product(size)
      ensures r.Ok? ==> r.value == IndexOf(l, size) && InBounds(r.value, size) && Offset(r.value, size) == l
    {
      var n := NumPixels();
      if l >= n {
        return Err("linear index out of range");
      }
      var indices := new nat[dimension](_ => 0);
      var i := 0;
      while i < dimension
        invariant 0 <= i <= dimension
        invariant forall k :: 0 <= k < i ==> indices[k] == IndexOf(l, size)[k]
      {
        var sub := PrefixProduct(i);
        IndexOfComponent(l, size, i);
        indices[i] := (l / sub) % size[i];
        i := i + 1;
      }
      assert indices[..] == IndexOf(l, size);
      IndexOfInBounds(l, size);
      OffsetOfIndexOf(l, size);
      return Ok(indices[..]);
    }

    /**
     * The image converted to the pixel type with code `code`: the receiver itself for its own
     * type; otherwise a new image with the same geometry whose buffer is the receiver's buffer
     * for the unsigned-to-signed pairs of one width and a converted copy for every other pair.
     */
    method AsType(code: int, casts: Convert.FloatCasts) returns (r: Result<Image>)
      requires Valid() && |spacing| >= |size| && |origin| >= |size|
      ensures Code(pixelType) == code ==> r == Ok(this)
      ensures Code(pixelType) != code ==> (r.Ok? <==> 2 <= |size| <= 3 && FromCode(code).Some?)
      ensures Code(pixelType) != code && r.Ok? ==>
        var t := FromCode(code).value;
        fresh(r.value) && r.value.Valid() && r.value.pixelType == t
        && r.value.size == size && r.value.spacing == spacing[..|size|]
        && r.value.origin == origin[..|size|] && r.value.direction == direction
        && (Aliases(pixelType, t) ==> r.value.pixels == pixels)
        && (!Aliases(pixelType, t) ==>
              fresh(r.value.pixels) && r.value.pixels[..] == ConvertAll(pixelType, t, pixels[..], Product(size), casts))
    {
      if Code(pixelType) == code {
        return Ok(this);
      }
      var newImg :- NewImage(size, code);
      var t := newImg.pixelType;
      var sp := CopyLeading(newImg.spacing, spacing);
      var org := CopyLeading(newImg.origin, origin);
      newImg.spacing, newImg.origin := sp, org;
      newImg.direction := direction;
      if Aliases(pixelType, t) {
        assert BytesPerPixel(t) == bytesPerPixel;
        newImg.pixels := pixels;
        return Ok(newImg);
      }
      var numPixels := NumPixels();
      ConverterWidth(pixelType, t, casts);
      var data := MapBuffer(Converter(pixelType, t, casts), pixels, numPixels, bytesPerPixel, BytesPerPixel(t));
      assert data[..] == ConvertAll(pixelType, t, pixels[..], numPixels, casts);
      assert data.Length == numPixels * BytesPerPixel(t);
      newImg.pixels := data;
      return Ok(newImg);
    }
  }

  /** `into` with each of its positions overwritten by the same position of `from`. */
  method CopyLeading(into: seq<real>, from: seq<real>) returns (r: seq<real>)
    requires |from| >= |into|
    ensures r == from[..|into|]
  {
    r := into;
    var i := 0;
    while i < |into|
      invariant 0 <= i <= |into| && |r| == |into|
      invariant r[..i] == from[..i] && r[i..] == into[i..]
    {
      r := r[i := from[i]];
      i := i + 1;
    }
  }

  /** Mapping one more pixel appends `f` of that pixel's bytes. */
  lemma MapPixelsAppend(f: seq<byte> -> seq<byte>, buf: seq<byte>, n: nat, ws: nat)
    requires n * ws + ws <= |buf|
    ensures (n + 1) * ws <= |buf|
    ensures MapPixels(f, buf, n + 1, ws) == MapPixels(f, buf, n, ws) + f(buf[n * ws .. n * ws + ws])
  {
    assert (n + 1) * ws == n * ws + ws;
  }

  /** Copies `bs` into `data` at `at`, leaving the bytes before `at` alone. */
  method WriteAt(data: array<byte>, at: nat, bs: seq<byte>)
    requires at + |bs| <= data.Length
    modifies data
    ensures data[..at + |bs|] == old(data[..at]) + bs
  {
    forall k | 0 <= k < |bs| {
      data[at + k] := bs[k];
    }
    assert data[..at + |bs|] == old(data[..at]) + bs;
  }

  /** One step of `MapBuffer`: pixel `p` occupies `p * ws ..` in and `p * wd ..` out. */
  method MapOne(f: seq<byte> -> seq<byte>, pixels: array<byte>, data: array<byte>, p: nat, ws: nat, wd: nat)
    requires p * ws + ws <= pixels.Length && p * wd + wd <= data.Length && data != pixels
    requires forall bs :: |f(bs)| == wd
    requires data[..p * wd] == MapPixels(f, pixels[..], p, ws)
    modifies data
    ensures (p + 1) * ws == p * ws + ws && (p + 1) * wd == p * wd + wd
    ensures data[..(p + 1) * wd] == MapPixels(f, pixels[..], p + 1, ws)
  {
    var src, dst := p * ws, p * wd;
    MapPixelsAppend(f, pixels[..], p, ws);
    var cb := f(pixels[src .. src + ws]);
    WriteAt(data, dst, cb);
    assert (p + 1) * wd == dst + wd;
  }

  /** A fresh buffer holding the first `n` pixels of `pixels`, each mapped through `f`. */
  method MapBuffer(f: seq<byte> -> seq<byte>, pixels: array<byte>, n: nat, ws: nat, wd: nat)
    returns (data: array<byte>)
    requires n * ws <= pixels.Length && forall bs :: |f(bs)| == wd
    ensures fresh(data) && data[..] == MapPixels(f, pixels[..], n, ws)
  {
    data := new byte[n * wd](_ => 0);
    var p := 0;
    while p < n
      invariant 0 <= p <= n && p * wd <= data.Length
      invariant data[..p * wd] == MapPixels(f, pixels[..], p, ws)
    {
      PixelFits(p, n, ws);
      PixelFits(p, n, wd);
      MapOne(f, pixels, data, p, ws, wd);
      p := p + 1;
    }
    assert data[..] == data[..p * wd];
  }

  /** A product equal to a positive count has only positive factors. */
  lemma {:induction false} PositiveOfProduct(size: seq<nat>)
    requires Product(size) > 0
    ensures Positive(size)
  {
    if size != [] {
      assert Product(size[1..]) > 0;
      PositiveOfProduct(size[1..]);
      assert forall i :: 1 <= i < |size| ==> size[i] == size[1..][i - 1];
    }
  }

  /**
   * Validates the extents and the pixel-type code, then allocates a zeroed buffer of
   * `Product(size) * BytesPerPixel` bytes with the default geometry.
   */
  method NewImage(size: seq<nat>, code: int) returns (r: Result<Image>)
    ensures r.Err? <==> !(2 <= |size| <= 3) || !Positive(size) || FromCode(code).None?
    ensures r.Ok? ==> fresh(r.value) && fresh(r.value.pixels) && r.value.Valid() && r.value.HasGeometry()
    ensures r.Ok? ==> r.value.size == size && r.value.pixelType == FromCode(code).value
    ensures r.Ok? ==> r.value.spacing == seq(|size|, _ => 1.0) && r.value.origin == seq(|size|, _ => 0.0)
    ensures r.Ok? ==> r.value.direction == IdentityDirection
    ensures r.Ok? ==> r.value.pixels.Length == Product(size) * BytesPerPixel(FromCode(code).value)
    ensures r.Ok? ==> forall i :: 0 <= i < r.value.pixels.Length ==> r.value.pixels[i] == 0
  {
    if |size| < 2 || |size| > 3 {
      return Err("invalid size length");
    }
    var numPixels := 1;
    var i := 0;
    while i < |size|
      invariant 0 <= i <= |size|
      invariant numPixels == Product(size[..i]) && Positive(size[..i])
    {
      if size[i] == 0 {
        return Err("invalid size");
      }
      assert size[..i + 1] == size[..i] + [size[i]];
      ProductOfAppend(size[..i], size[i]);
      numPixels := numPixels * size[i];
      i := i + 1;
    }
    assert size[..|size|] == size;
    var t := FromCode(code);
    if t.None? {
      return Err("unsupported pixel type");
    }
    var img := new Image(size, t.value, numPixels);
    return Ok(img);
  }
}
