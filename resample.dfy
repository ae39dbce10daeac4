/**
 * The resampler of interpolate.go: a new image of the requested extents, spacing and
 * origin whose pixel at each index is the source image sampled, by `GetPixelFromPoint`,
 * at the position `index * spacing + origin` (the requested direction is stored but not
 * applied to the sample point).
 */
module Resample {
  import opened Results
  import opened Pixels
  import opened Layout
  import Images
  import Sampling
  import Matrix

  /**
   * The argument of `Resample`. Go accepts any value and recognises only
   * `LinearInterpolation`; every other value is `OtherInterpolation`.
   */
  datatype Interpolation =
    | LinearInterpolation(size: seq<nat>, spacing: seq<real>, origin: seq<real>,
                          direction: seq<real>, fillType: int)
    | OtherInterpolation

  /** The extents `NewImage` accepts: two or three axes, none of them empty. */
  predicate SizeAccepted(size: seq<nat>)
  {
    2 <= |size| <= 3 && Positive(size)
  }

  /** Enough spacing and origin entries for every output axis, and enough output axes for the source. */
  predicate Covers(interp: Interpolation, dimension: nat)
    requires interp.LinearInterpolation?
  {
    |interp.size| >= dimension && |interp.spacing| >= |interp.size| && |interp.origin| >= |interp.size|
  }

  // ---------------------------------------------------------------------------
  // Strides and index decomposition
  // ---------------------------------------------------------------------------

  /** The row-major strides: the stride of axis j is the product of the extents after j. */
  function Strides(size: seq<nat>): (s: seq<nat>)
    ensures |s| == |size|
    ensures forall j :: 0 <= j < |size| ==> s[j] == Stride(size, j)
  {
    seq(|size|, j requires 0 <= j < |size| => Stride(size, j))
  }

  predicate AllPositive(strides: seq<nat>)
  {
    forall j :: 0 <= j < |strides| ==> strides[j] > 0
  }

  /** `k[j] = idx / strides[j]; idx %= strides[j]`, axis after axis. */
  function Digits(idx: nat, strides: seq<nat>): (k: seq<nat>)
    requires AllPositive(strides)
    ensures |k| == |strides|
  {
    if strides == [] then [] else [idx / strides[0]] + Digits(idx % strides[0], strides[1..])
  }

  lemma StridesPositive(size: seq<nat>)
    requires Positive(size)
    ensures AllPositive(Strides(size))
  {
    forall j | 0 <= j < |size|
      ensures Strides(size)[j] > 0
    {
      ProductPositive(size[j + 1..]);
    }
  }

  /** Decomposing with the strides is the row-major decomposition of the pixel position. */
  lemma {:induction false} DigitsOfStrides(i: nat, size: seq<nat>)
    requires Positive(size)
    ensures AllPositive(Strides(size))
    ensures Digits(i, Strides(size)) == RowMajorIndex(i, size)
  {
    StridesPositive(size);
    if size != [] {
      var tail := size[1..];
      forall j | 0 <= j < |tail|
        ensures Strides(size)[1..][j] == Strides(tail)[j]
      {
        assert size[j + 2..] == tail[j + 1..];
      }
      assert Strides(size)[1..] == Strides(tail);
      assert Strides(size)[0] == Product(tail);
      DigitsOfStrides(i % Product(tail), tail);
    }
  }

  /** One step of the decomposition peels the first axis off the remaining strides. */
  lemma DigitsStep(i: nat, idx: nat, strides: seq<nat>, j: nat)
    requires AllPositive(strides) && j < |strides|
    requires Digits(i, strides)[j..] == Digits(idx, strides[j..])
    ensures Digits(i, strides)[j] == idx / strides[j]
    ensures Digits(i, strides)[j + 1..] == Digits(idx % strides[j], strides[j + 1..])
  {
    assert strides[j..][1..] == strides[j + 1..];
    assert Digits(i, strides)[j + 1..] == Digits(i, strides)[j..][1..];
  }

  /** Each stride is the next stride times the next extent. */
  lemma StrideStep(size: seq<nat>, i: nat)
    requires i + 1 < |size|
    ensures Stride(size, i) == Stride(size, i + 1) * size[i + 1]
  {
    assert size[i + 1..][1..] == size[i + 2..];
  }

  /** The strides loop: the last stride is 1, each other one the next stride times the next extent. */
  method ComputeStrides(size: seq<nat>) returns (strides: seq<nat>)
    requires |size| >= 1
    ensures strides == Strides(size)
  {
    var n := |size|;
    strides := seq(n, _ => 0);
    assert size[n..] == [];
    strides := strides[n - 1 := 1];
    var i := n - 2;
    while i >= 0
      invariant -1 <= i <= n - 2
      invariant |strides| == n
      invariant forall j :: i < j < n ==> strides[j] == Stride(size, j)
    {
      StrideStep(size, i);
      strides := strides[i := strides[i + 1] * size[i + 1]];
      i := i - 1;
    }
  }

  /** The pixel count, multiplied up over the requested extents. */
  method CountPixels(size: seq<nat>) returns (n: nat)
    ensures n == Product(size)
  {
    n := 1;
    var i := 0;
    while i < |size|
      invariant 0 <= i <= |size|
      invariant n == Product(size[..i])
    {
      assert size[..i + 1] == size[..i] + [size[i]];
      ProductOfAppend(size[..i], size[i]);
      n := n * size[i];
      i := i + 1;
    }
    assert size[..|size|] == size;
  }

  /** The output index of position `i`, decomposed as the second inner loop does it. */
  method Decompose(i: nat, strides: seq<nat>) returns (index: seq<nat>)
    requires AllPositive(strides)
    ensures index == Digits(i, strides)
  {
    index := [];
    var idx := i;
    var j := 0;
    while j < |strides|
      invariant 0 <= j <= |strides|
      invariant index == Digits(i, strides)[..j]
      invariant Digits(i, strides)[j..] == Digits(idx, strides[j..])
    {
      DigitsStep(i, idx, strides, j);
      index := index + [idx / strides[j]];
      idx := idx % strides[j];
      j := j + 1;
    }
  }

  // ---------------------------------------------------------------------------
  // Sample points
  // ---------------------------------------------------------------------------

  /** The physical position of output index `k`: `k[j] * spacing[j] + origin[j]`, with no direction. */
  function PointOf(k: seq<nat>, spacing: seq<real>, origin: seq<real>): (p: seq<real>)
    requires |spacing| >= |k| && |origin| >= |k|
    ensures |p| == |k|
  {
    seq(|k|, j requires 0 <= j < |k| => k[j] as real * spacing[j] + origin[j])
  }

  /** The first inner loop: the sample point of position `i`, decomposing as it goes. */
  method SamplePoint(i: nat, strides: seq<nat>, spacing: seq<real>, origin: seq<real>) returns (point: seq<real>)
    requires AllPositive(strides) && |spacing| >= |strides| && |origin| >= |strides|
    ensures point == PointOf(Digits(i, strides), spacing, origin)
  {
    ghost var k := Digits(i, strides);
    point := [];
    var idx := i;
    var j := 0;
    while j < |strides|
      invariant 0 <= j <= |strides|
      invariant |point| == j
      invariant forall m :: 0 <= m < j ==> point[m] == k[m] as real * spacing[m] + origin[m]
      invariant k[j..] == Digits(idx, strides[j..])
    {
      DigitsStep(i, idx, strides, j);
      point := point + [(idx / strides[j]) as real * spacing[j] + origin[j]];
      idx := idx % strides[j];
      j := j + 1;
    }
    ghost var expected := PointOf(k, spacing, origin);
    assert forall m :: 0 <= m < |k| ==> point[m] == expected[m];
  }

  // ---------------------------------------------------------------------------
  // What one output pixel becomes
  // ---------------------------------------------------------------------------

  /**
   * The bytes handed to `SetPixel` for output index `k`: the source sampled at `PointOf(k)`,
   * then converted to the output type by `encode` (the unseen `getValueAsPixelType` and
   * `getValueAsBytes`).
   */
  function ResampledPixel(g: Sampling.Grid, interp: Interpolation, t: PixelType,
                          encode: (real, PixelType) -> Result<seq<byte>>, k: seq<nat>): Result<seq<byte>>
    requires interp.LinearInterpolation? && Sampling.GridValid(g)
    requires |k| == |interp.size| && Covers(interp, |g.size|)
  {
    match Sampling.Sample(g, PointOf(k, interp.spacing, interp.origin), interp.fillType)
    case Err(e) => Err(e)
    case Ok(v) => encode(v, t)
  }

  /** Every output index samples and converts without error. */
  ghost predicate AllSucceed(g: Sampling.Grid, interp: Interpolation, t: PixelType,
                       encode: (real, PixelType) -> Result<seq<byte>>)
    requires interp.LinearInterpolation? && Sampling.GridValid(g) && Covers(interp, |g.size|)
  {
    forall k :: InBounds(k, interp.size) ==> ResampledPixel(g, interp, t, encode, k).Ok?
  }

  /** A zero pixel of `bpp` bytes overwritten by `SetPixel`'s copy of `bs`. */
  function Padded(bs: seq<byte>, bpp: nat): (p: seq<byte>)
    ensures |p| == bpp
  {
    Images.CopyInto(Zeros(bpp), 0, bs, bpp)
  }

  /** Pixel bytes after a `CopyInto` over that very pixel. */
  lemma PixelAfterCopy(buf: seq<byte>, k: nat, vb: seq<byte>, bpp: nat)
    requires k * bpp + bpp <= |buf|
    ensures Images.PixelBytes(Images.CopyInto(buf, k * bpp, vb, bpp), k, bpp)
         == Images.CopyInto(Images.PixelBytes(buf, k, bpp), 0, vb, bpp)
  {
    var start := k * bpp;
    var n := if |vb| < bpp then |vb| else bpp;
    var copied := Images.CopyInto(buf, start, vb, bpp);
    var after := Images.PixelBytes(copied, k, bpp);
    var pixel := Images.PixelBytes(buf, k, bpp);
    var expected := Images.CopyInto(pixel, 0, vb, bpp);
    assert copied == buf[..start] + vb[..n] + buf[start + n..];
    assert expected == vb[..n] + pixel[n..];
    forall m | 0 <= m < bpp
      ensures after[m] == expected[m]
    {
      assert after[m] == copied[start + m];
      if m < n {
        assert copied[start + m] == vb[m];
      } else {
        assert copied[start + m] == buf[start + m];
      }
    }
  }

  /**
   * The output buffer after the first `i` positions (in row-major order) were written with
   * the bytes `want` names for them, and every later pixel still zero.
   */
  ghost predicate WrittenUpTo(buf: seq<byte>, size: seq<nat>, bpp: nat, i: nat, want: seq<nat> -> Result<seq<byte>>)
  {
    (forall k :: InBounds(k, size) ==> Offset(k, size) * bpp + bpp <= |buf|)
    && (forall k :: InBounds(k, size) && RowMajorOffset(k, size) < i ==>
          want(k).Ok? && Images.PixelBytes(buf, Offset(k, size), bpp) == Padded(want(k).value, bpp))
    && (forall k :: InBounds(k, size) && RowMajorOffset(k, size) >= i ==>
          Images.PixelBytes(buf, Offset(k, size), bpp) == Zeros(bpp))
  }

  /** A freshly zeroed buffer of the right length has nothing written yet. */
  lemma NothingWritten(buf: seq<byte>, size: seq<nat>, bpp: nat, want: seq<nat> -> Result<seq<byte>>)
    requires |buf| == Product(size) * bpp && forall b :: 0 <= b < |buf| ==> buf[b] == 0
    ensures WrittenUpTo(buf, size, bpp, 0, want)
  {
    forall k | InBounds(k, size)
      ensures Offset(k, size) * bpp + bpp <= |buf|
      ensures Images.PixelBytes(buf, Offset(k, size), bpp) == Zeros(bpp)
    {
      OffsetBound(k, size);
      Images.PixelFits(Offset(k, size), Product(size), bpp);
    }
  }

  /** Writing position `i`'s bytes at its index extends the written prefix by one. */
  lemma WriteAdvances(before: seq<byte>, after: seq<byte>, size: seq<nat>, bpp: nat, i: nat,
                      want: seq<nat> -> Result<seq<byte>>)
    requires Positive(size) && i < Product(size) && WrittenUpTo(before, size, bpp, i, want)
    requires want(RowMajorIndex(i, size)).Ok?
    requires InBounds(RowMajorIndex(i, size), size)
    requires after == Images.CopyInto(before, Offset(RowMajorIndex(i, size), size) * bpp,
                                      want(RowMajorIndex(i, size)).value, bpp)
    ensures WrittenUpTo(after, size, bpp, i + 1, want)
  {
    var ki := RowMajorIndex(i, size);
    var vb := want(ki).value;
    RowMajorOffsetOfIndex(i, size);
    forall k | InBounds(k, size)
      ensures Offset(k, size) * bpp + bpp <= |after|
      ensures k == ki ==> Images.PixelBytes(after, Offset(k, size), bpp) == Padded(vb, bpp)
      ensures k != ki ==> Images.PixelBytes(after, Offset(k, size), bpp) == Images.PixelBytes(before, Offset(k, size), bpp)
      ensures k != ki ==> RowMajorOffset(k, size) != i
    {
      if k == ki {
        PixelAfterCopy(before, Offset(ki, size), vb, bpp);
      } else {
        OffsetInjective(k, ki, size);
        Images.SetLeavesOtherPixels(before, Offset(ki, size), Offset(k, size), vb, bpp);
        RowMajorIndexOfOffset(k, size);
      }
    }
  }

  /** Once every position is written, every in-bounds pixel holds its bytes. */
  lemma AllWritten(buf: seq<byte>, size: seq<nat>, bpp: nat, want: seq<nat> -> Result<seq<byte>>)
    requires WrittenUpTo(buf, size, bpp, Product(size), want)
    ensures forall k :: InBounds(k, size) ==>
      want(k).Ok? && Offset(k, size) * bpp + bpp <= |buf| &&
      Images.PixelBytes(buf, Offset(k, size), bpp) == Padded(want(k).value, bpp)
  {
    forall k | InBounds(k, size)
      ensures RowMajorOffset(k, size) < Product(size)
    {
      RowMajorOffsetBound(k, size);
    }
  }

  /**
   * The second loop of `linearResample`, over the output positions in row-major order:
   * sample, convert and write each output pixel, stopping at the first error.
   */
  method FillPixels(img: Images.Image, out: Images.Image, interp: Interpolation,
                    strides: seq<nat>, numPixels: nat,
                    encode: (real, PixelType) -> Result<seq<byte>>,
                    floatValue: (PixelType, nat) -> real) returns (r: Outcome)
    requires img.Valid() && img.HasGeometry() && 2 <= img.dimension <= 3
    requires interp.LinearInterpolation? && SizeAccepted(interp.size) && Covers(interp, img.dimension)
    requires out.Valid() && out.size == interp.size && out.pixels != img.pixels
    requires out.pixels.Length == Product(interp.size) * out.bytesPerPixel
    requires forall b :: 0 <= b < out.pixels.Length ==> out.pixels[b] == 0
    requires strides == Strides(interp.size) && numPixels == Product(interp.size)
    modifies out.pixels
    ensures r.Success? <==> AllSucceed(Sampling.GridOf(img, floatValue), interp, out.pixelType, encode)
    ensures r.Success? ==> forall k :: InBounds(k, interp.size) ==>
      Offset(k, interp.size) * out.bytesPerPixel + out.bytesPerPixel <= out.pixels.Length
    ensures r.Success? ==> forall k :: InBounds(k, interp.size) ==>
      Images.PixelBytes(out.pixels[..], Offset(k, interp.size), out.bytesPerPixel)
        == Padded(ResampledPixel(Sampling.GridOf(img, floatValue), interp, out.pixelType, encode, k).value,
                  out.bytesPerPixel)
  {
    ghost var g := Sampling.GridOf(img, floatValue);
    var size := interp.size;
    var bpp := out.bytesPerPixel;
    var t := out.pixelType;
    ghost var want := (k: seq<nat>) =>
      if |k| == |size| then ResampledPixel(g, interp, t, encode, k) else Err("index length");
    StridesPositive(size);
    NothingWritten(out.pixels[..], size, bpp, want);
    var i := 0;
    while i < numPixels
      invariant 0 <= i <= numPixels
      invariant Sampling.GridOf(img, floatValue) == g
      invariant WrittenUpTo(out.pixels[..], size, bpp, i, want)
    {
      ghost var ki := RowMajorIndex(i, size);
      DigitsOfStrides(i, size);
      RowMajorIndexInBounds(i, size);
      var point := SamplePoint(i, strides, interp.spacing, interp.origin);
      var value := Sampling.GetPixelFromPoint(img, point, interp.fillType, floatValue);
      if value.Err? {
        assert want(ki).Err?;
        return Failure(value.msg);
      }
      var pixelValue := encode(value.value, t);
      if pixelValue.Err? {
        assert want(ki).Err?;
        return Failure(pixelValue.msg);
      }
      assert want(ki) == pixelValue;
      var index := Decompose(i, strides);
      ghost var before := out.pixels[..];
      var res := out.SetPixel(index, pixelValue);
      // The index is in bounds and the bytes exist, so `SetPixel`'s own error cannot arise.
      assert res.Success?;
      WriteAdvances(before, out.pixels[..], size, bpp, i, want);
      i := i + 1;
    }
    AllWritten(out.pixels[..], size, bpp, want);
    return Success;
  }

  /**
   * What a successful resample produces from the source grid `g`: an image of the requested
   * extents and the source's pixel type, the requested geometry where the setters accept it,
   * and at every index the bytes of the source sampled at that index's position.
   */
  ghost predicate ResampledFrom(out: Images.Image, g: Sampling.Grid, interp: Interpolation, t: PixelType,
                                encode: (real, PixelType) -> Result<seq<byte>>)
    requires interp.LinearInterpolation? && Sampling.GridValid(g) && Covers(interp, |g.size|)
    reads out, out.pixels
  {
    out.Valid() && out.HasGeometry()
    && out.size == interp.size && out.pixelType == t
    && out.spacing == Images.SpacingAfterSet(interp.spacing, |interp.size|)
    && out.origin == Images.OriginAfterSet(interp.origin, |interp.size|)
    && out.direction == interp.direction
    && out.pixels.Length == Product(interp.size) * BytesPerPixel(t)
    && (forall k :: InBounds(k, interp.size) ==>
          Offset(k, interp.size) * out.bytesPerPixel + out.bytesPerPixel <= out.pixels.Length)
    && (forall k :: InBounds(k, interp.size) ==>
          ResampledPixel(g, interp, t, encode, k).Ok? &&
          Images.PixelBytes(out.pixels[..], Offset(k, interp.size), out.bytesPerPixel)
            == Padded(ResampledPixel(g, interp, t, encode, k).value, out.bytesPerPixel))
  }

  /**
   * `linearResample`: a new image of the requested extents and the source's type, the
   * requested geometry copied in (rejected spacing or origin silently leaves the default),
   * then every output pixel sampled from the source. Any error from `NewImage`, the sampler,
   * the conversion or `SetPixel` aborts with no image. The source is only read.
   */
  method LinearResample(img: Images.Image, interp: Interpolation,
                        encode: (real, PixelType) -> Result<seq<byte>>,
                        floatValue: (PixelType, nat) -> real) returns (r: Result<Images.Image>)
    requires img.Valid() && img.HasGeometry() && 2 <= img.dimension <= 3
    requires interp.LinearInterpolation? && |interp.direction| == 9
    requires SizeAccepted(interp.size) ==> Covers(interp, img.dimension)
    ensures r.Ok? <==> SizeAccepted(interp.size)
                       && AllSucceed(Sampling.GridOf(img, floatValue), interp, img.pixelType, encode)
    ensures r.Ok? ==> fresh(r.value) && fresh(r.value.pixels)
    ensures r.Ok? ==> ResampledFrom(r.value, Sampling.GridOf(img, floatValue), interp, img.pixelType, encode)
  {
    FromCodeOfCode(img.pixelType);
    var created := Images.NewImage(interp.size, Code(img.pixelType));
    if created.Err? {
      return Err(created.msg);
    }
    var out := created.value;
    var _ := out.SetOrigin(interp.origin);
    var _ := out.SetSpacing(interp.spacing);
    out.SetDirection(interp.direction);
    var numPixels := CountPixels(interp.size);
    var strides := ComputeStrides(interp.size);
    var filled := FillPixels(img, out, interp, strides, numPixels, encode, floatValue);
    if filled.Failure? {
      return Err(filled.msg);
    }
    return Ok(out);
  }

  /** `Image.Resample`: only a `LinearInterpolation` is understood; anything else is an error. */
  method Resample(img: Images.Image, interp: Interpolation,
                  encode: (real, PixelType) -> Result<seq<byte>>,
                  floatValue: (PixelType, nat) -> real) returns (r: Result<Images.Image>)
    requires img.Valid() && img.HasGeometry() && 2 <= img.dimension <= 3
    requires interp.LinearInterpolation? ==>
      |interp.direction| == 9 && (SizeAccepted(interp.size) ==> Covers(interp, img.dimension))
    ensures interp.OtherInterpolation? ==> r == Err("unknown interpolation type")
    ensures interp.LinearInterpolation? ==>
      (r.Ok? <==> SizeAccepted(interp.size)
                  && AllSucceed(Sampling.GridOf(img, floatValue), interp, img.pixelType, encode))
    ensures r.Ok? ==> interp.LinearInterpolation? && fresh(r.value) && fresh(r.value.pixels)
    ensures r.Ok? ==> ResampledFrom(r.value, Sampling.GridOf(img, floatValue), interp, img.pixelType, encode)
  {
    if interp.LinearInterpolation? {
      r := LinearResample(img, interp, encode, floatValue);
    } else {
      r := Err("unknown interpolation type");
    }
  }

  // ---------------------------------------------------------------------------
  // Example: upsampling a 4 x 4 image to 8 x 8 at half spacing
  // ---------------------------------------------------------------------------

  /** A 4 x 4 source whose first two rows are 0 and last two rows are 1, with unit spacing. */
  function StepGrid(): (g: Sampling.Grid)
    ensures Sampling.GridValid(g)
  {
    Sampling.Grid([4, 4], seq(16, p => if p >= 8 then 1.0 else 0.0), [1.0, 1.0], [0.0, 0.0],
                  Images.IdentityDirection)
  }

  function HalfSpacing(): (interp: Interpolation)
    ensures interp.LinearInterpolation? && SizeAccepted(interp.size) && Covers(interp, 2)
  {
    LinearInterpolation([8, 8], [0.5, 0.5], [0.0, 0.0], Images.IdentityDirection, Sampling.FillZero)
  }

  /** Every corner of the cell at (2, 2) lies in the rows of ones. */
  lemma StepGridCornersAreOne()
    ensures Sampling.CornersWithin(StepGrid(), [2, 2], Sampling.FillZero, 1.0, 1.0)
  {
    var g := StepGrid();
    Sampling.CornerBits();
    forall c | 0 <= c < Sampling.Pow2(2)
      ensures Sampling.CornerWithin(g, [2, 2], Sampling.FillZero, c, 1.0, 1.0)
    {
      var corner := Sampling.CornerIndex([2, 2], c);
      assert corner == [2 + Sampling.Bit(c, 0), 2 + Sampling.Bit(c, 1)];
      Sampling.ResolveInside(corner, g.size, Sampling.FillZero);
      var index := Sampling.ClampAll(corner, g.size);
      assert index == [corner[0] as nat, corner[1] as nat];
      OffsetOfTwo(index[0], index[1], g.size);
      assert Offset(index, g.size) >= 8;
    }
  }

  /** The source's geometry is the identity, so the sample position solves to itself. */
  lemma StepGridSolve()
    ensures Matrix.Solve(Sampling.IndexToPhysical(StepGrid().direction, StepGrid().spacing, 2),
                         Sampling.Relative([2.5, 2.5], StepGrid().origin, 2)) == Ok([2.5, 2.5])
  {
    var g := StepGrid();
    Sampling.IndexToPhysicalOfTwo(g.direction, g.spacing);
    assert Sampling.IndexToPhysical(g.direction, g.spacing, 2) == [[1.0, 0.0], [0.0, 1.0]];
    assert Sampling.Relative([2.5, 2.5], g.origin, 2) == [2.5, 2.5];
    Matrix.SolveIdentity2(2.5, 2.5);
  }

  /** The point (2.5, 2.5) lies in cell (2, 2), halfway along both axes. */
  lemma HalfwaySplit()
    ensures Sampling.Floors([2.5, 2.5]) == [2, 2]
    ensures Sampling.Fractions([2.5, 2.5]) == [0.5, 0.5]
  {
    assert (2.5).Floor == 2;
  }

  /** The four corners around (2.5, 2.5), each weighted 1/4, blend to 1. */
  lemma StepGridBlend()
    ensures Sampling.AccumulateFrom(StepGrid(), Sampling.Floors([2.5, 2.5]), Sampling.Fractions([2.5, 2.5]),
                                    Sampling.FillZero, 0, 0.0) == Ok(1.0)
  {
    HalfwaySplit();
    StepGridCornersAreOne();
    Sampling.BlendWithinRange(StepGrid(), [2, 2], [0.5, 0.5], Sampling.FillZero, 1.0, 1.0);
  }

  /** Output pixel (5, 5) samples the source at (2.5, 2.5), between the rows of ones, and reads 1. */
  lemma UpsampleExample()
    ensures PointOf([5, 5], [0.5, 0.5], [0.0, 0.0]) == [2.5, 2.5]
    ensures Sampling.Sample(StepGrid(), [2.5, 2.5], Sampling.FillZero) == Ok(1.0)
  {
    var p := PointOf([5, 5], [0.5, 0.5], [0.0, 0.0]);
    assert p[0] == 2.5 && p[1] == 2.5;
    StepGridSolve();
    StepGridBlend();
  }

  /** Through the whole resample: output index (5, 5) receives the converted value 1. */
  lemma UpsampleExamplePixel(t: PixelType, encode: (real, PixelType) -> Result<seq<byte>>)
    ensures ResampledPixel(StepGrid(), HalfSpacing(), t, encode, [5, 5]) == encode(1.0, t)
  {
    UpsampleExample();
  }
}
