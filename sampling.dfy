/**
 * Sampling an image at a physical point (point.go): the point is mapped to a continuous
 * index by solving `D * diag(spacing) * x = point - origin`, and the value is the bilinear
 * or trilinear blend of the 4 or 8 surrounding pixels, with out-of-range corners either
 * dropped (`FillZero`) or clamped to the border (`FillNearest`).
 */
module Sampling {
  import opened Results
  import opened Pixels
  import opened Layout
  import opened Matrix
  import Images

  /** Out-of-range corners contribute nothing. */
  const FillZero: int := 0
  /** Out-of-range corners are clamped to the nearest border pixel. */
  const FillNearest: int := 1

  /**
   * The state `GetPixelFromPoint` reads from an image, as a value: the pixels appear already
   * decoded, one real per pixel in row-major order.
   */
  datatype Grid = Grid(
    size: seq<nat>, values: seq<real>,
    spacing: seq<real>, origin: seq<real>, direction: seq<real>)

  predicate GridValid(g: Grid)
  {
    2 <= |g.size| <= 3 && Positive(g.size) && |g.values| == Product(g.size)
    && |g.spacing| == |g.size| && |g.origin| == |g.size| && |g.direction| == 9
  }

  /** A decoded pixel as a real; float bit patterns go through `floatValue`. */
  function ValueReal(v: Value, floatValue: (PixelType, nat) -> real): real
  {
    match v
    case IntValue(i) => i as real
    case FloatBits(t, bits) => floatValue(t, bits)
  }

  /** Pixel `k` of a buffer of type-`t` pixels, decoded to a real. */
  function PixelReal(t: PixelType, data: seq<byte>, k: nat, floatValue: (PixelType, nat) -> real): real
    requires k * BytesPerPixel(t) + BytesPerPixel(t) <= |data|
  {
    ValueReal(Decode(t, Images.PixelBytes(data, k, BytesPerPixel(t))), floatValue)
  }

  /** The first `n` pixels of a buffer, decoded. */
  function PixelReals(t: PixelType, data: seq<byte>, n: nat, floatValue: (PixelType, nat) -> real): (vs: seq<real>)
    requires n * BytesPerPixel(t) <= |data|
    ensures |vs| == n
  {
    seq(n, k requires 0 <= k < n => Images.PixelFits(k, n, BytesPerPixel(t)); PixelReal(t, data, k, floatValue))
  }

  function GridOf(img: Images.Image, floatValue: (PixelType, nat) -> real): (g: Grid)
    requires img.Valid()
    reads img, img.pixels
    ensures img.HasGeometry() && 2 <= img.dimension <= 3 ==> GridValid(g)
  {
    Grid(img.size, PixelReals(img.pixelType, img.pixels[..], Product(img.size), floatValue),
         img.spacing, img.origin, img.direction)
  }

  /** The value of the in-bounds pixel `index`. */
  function PixelValue(g: Grid, index: seq<nat>): real
    requires GridValid(g) && InBounds(index, g.size)
  {
    OffsetBound(index, g.size);
    g.values[Offset(index, g.size)]
  }

  /**
   * The matrix whose column `c` is direction column `c` (entries `3c`, `3c+1`, `3c+2`) scaled
   * by `spacing[c]`: it maps a continuous index to an offset from the origin.
   */
  function IndexToPhysical(direction: seq<real>, spacing: seq<real>, d: nat): (A: seq<seq<real>>)
    requires |direction| == 9 && |spacing| >= d && d <= 3
    ensures |A| == d && forall r :: 0 <= r < d ==> |A[r]| == d
  {
    seq(d, r requires 0 <= r < d => seq(d, c requires 0 <= c < d => direction[3 * c + r] * spacing[c]))
  }

  function Pow2(n: nat): (p: nat)
    ensures p >= 1
  {
    if n == 0 then 1 else 2 * Pow2(n - 1)
  }

  /** Bit `j` of corner number `c`: 1 when the corner takes the upper neighbour on axis `j`. */
  function Bit(c: nat, j: nat): (b: nat)
    ensures b <= 1
  {
    if j == 0 then c % 2 else Bit(c / 2, j - 1)
  }

  /** Corner `c` of the cell whose lower corner is `i0`: axis `j` is `i0[j] + Bit(c, j)`. */
  function CornerIndex(i0: seq<int>, c: nat): (corner: seq<int>)
    ensures |corner| == |i0|
  {
    seq(|i0|, j requires 0 <= j < |i0| => i0[j] + Bit(c, j))
  }

  /** The weight of corner `c` on axis `j`: `w[j]` for the upper neighbour, `1 - w[j]` for the lower. */
  function Factor(w: seq<real>, c: nat, j: nat): real
    requires j < |w|
  {
    if Bit(c, j) == 1 then w[j] else 1.0 - w[j]
  }

  /** The product of the factors of corner `c` over the first `k` axes. */
  function CornerWeight(w: seq<real>, c: nat, k: nat): real
    requires k <= |w|
  {
    if k == 0 then 1.0 else CornerWeight(w, c, k - 1) * Factor(w, c, k - 1)
  }

  /** The weight of corner `c`: the product of its factors over every axis. */
  function Weight(w: seq<real>, c: nat): real
  {
    CornerWeight(w, c, |w|)
  }

  lemma CornerWeightOfTwo(w: seq<real>, c: nat)
    requires |w| >= 2
    ensures CornerWeight(w, c, 2) == Factor(w, c, 0) * Factor(w, c, 1)
  {
    assert CornerWeight(w, c, 1) == Factor(w, c, 0);
  }

  lemma CornerWeightOfThree(w: seq<real>, c: nat)
    requires |w| == 3
    ensures CornerWeight(w, c, 3) == Factor(w, c, 0) * Factor(w, c, 1) * Factor(w, c, 2)
  {
    CornerWeightOfTwo(w, c);
  }

  lemma WeightOfTwo(w: seq<real>, c: nat)
    requires |w| == 2
    ensures Weight(w, c) == Factor(w, c, 0) * Factor(w, c, 1)
  {
    CornerWeightOfTwo(w, c);
  }

  lemma WeightOfThree(w: seq<real>, c: nat)
    requires |w| == 3
    ensures Weight(w, c) == Factor(w, c, 0) * Factor(w, c, 1) * Factor(w, c, 2)
  {
    CornerWeightOfThree(w, c);
  }

  /** `v` clamped into `0 .. n - 1`. */
  function Clamp(v: int, n: nat): (r: nat)
    requires n > 0
    ensures r < n
    ensures 0 <= v < n ==> r == v
  {
    if v < 0 then 0 else if v >= n then n - 1 else v
  }

  function ClampAll(corner: seq<int>, size: seq<nat>): (index: seq<nat>)
    requires |corner| == |size| && Positive(size)
    ensures InBounds(index, size)
  {
    seq(|corner|, j requires 0 <= j < |corner| => Clamp(corner[j], size[j]))
  }

  predicate Inside(corner: seq<int>, size: seq<nat>)
    requires |corner| == |size|
  {
    forall j :: 0 <= j < |corner| ==> 0 <= corner[j] < size[j]
  }

  /** What happens to one corner: it is read at an index, dropped, or the fill type is refused. */
  datatype Resolved = At(index: seq<nat>) | Skip | Unsupported

  /**
   * An inside corner is read where it is; an outside one is dropped under `FillZero`,
   * clamped under `FillNearest`, and refused under any other fill type.
   */
  function Resolve(corner: seq<int>, size: seq<nat>, fill: int): (r: Resolved)
    requires |corner| == |size| && Positive(size)
    ensures r.At? ==> InBounds(r.index, size)
  {
    if Inside(corner, size) || fill == FillNearest then At(ClampAll(corner, size))
    else if fill == FillZero then Skip
    else Unsupported
  }

  /** An inside corner is read at its own index. */
  lemma ResolveInside(corner: seq<int>, size: seq<nat>, fill: int)
    requires |corner| == |size| && Positive(size) && Inside(corner, size)
    ensures Resolve(corner, size, fill) == At(ClampAll(corner, size))
    ensures forall j :: 0 <= j < |corner| ==> ClampAll(corner, size)[j] == corner[j]
  {
  }

  /** A pixel value scaled by its corner's weight. */
  function Weighted(v: real, wt: real): real
  {
    v * wt
  }

  /** The weighted sum over corners `c ..`, added to `acc` in corner order. */
  function AccumulateFrom(g: Grid, i0: seq<int>, w: seq<real>, fill: int,
                          c: nat, acc: real): Result<real>
    requires GridValid(g) && |i0| == |g.size| && |w| == |g.size|
    decreases Pow2(|g.size|) - c
  {
    if c >= Pow2(|g.size|) then Ok(acc)
    else
      match Resolve(CornerIndex(i0, c), g.size, fill)
      case Unsupported => Err("unsupported fillType")
      case Skip => AccumulateFrom(g, i0, w, fill, c + 1, acc)
      case At(index) =>
        AccumulateFrom(g, i0, w, fill, c + 1,
          acc + Weighted(PixelValue(g, index), Weight(w, c)))
  }

  function Floors(x: seq<real>): (i0: seq<int>)
    ensures |i0| == |x|
  {
    seq(|x|, j requires 0 <= j < |x| => x[j].Floor)
  }

  /** The fractional part of each coordinate. */
  function Fractions(x: seq<real>): (w: seq<real>)
    ensures |w| == |x|
  {
    seq(|x|, j requires 0 <= j < |x| => x[j] - x[j].Floor as real)
  }

  /** `point - origin` on the first `d` axes. */
  function Relative(point: seq<real>, origin: seq<real>, d: nat): (p: seq<real>)
    requires |point| >= d && |origin| >= d
    ensures |p| == d
  {
    seq(d, j requires 0 <= j < d => point[j] - origin[j])
  }

  /** The interpolated value at a physical point, or the solver's or the fill type's error. */
  function Sample(g: Grid, point: seq<real>, fill: int): Result<real>
    requires GridValid(g) && |point| >= |g.size|
  {
    var d := |g.size|;
    match Solve(IndexToPhysical(g.direction, g.spacing, d), Relative(point, g.origin, d))
    case Err(e) => Err(e)
    case Ok(x) => AccumulateFrom(g, Floors(x), Fractions(x), fill, 0, 0.0)
  }

  // ---------------------------------------------------------------------------
  // Weights

  lemma FractionsInUnit(x: seq<real>)
    ensures forall j :: 0 <= j < |x| ==> 0.0 <= Fractions(x)[j] < 1.0
  {
  }

  /** The weights of the corners `c .. n - 1`. */
  function WeightSum(w: seq<real>, c: nat, n: nat): real
    requires |w| <= 3
    decreases n - c
  {
    if c >= n then 0.0 else Weight(w, c) + WeightSum(w, c + 1, n)
  }

  lemma {:induction false} CornerWeightNonNegative(w: seq<real>, c: nat, k: nat)
    requires k <= |w| && forall j :: 0 <= j < |w| ==> 0.0 <= w[j] <= 1.0
    ensures CornerWeight(w, c, k) >= 0.0
  {
    if k > 0 {
      CornerWeightNonNegative(w, c, k - 1);
      MulNonNegative(CornerWeight(w, c, k - 1), Factor(w, c, k - 1));
    }
  }

  lemma MulNonNegative(a: real, b: real)
    requires a >= 0.0 && b >= 0.0
    ensures a * b >= 0.0
  {
  }

  /** The axis bits of corners 0 to 7: axis 0 varies fastest, as in the corner lists of the source. */
  lemma CornerBits()
    ensures Pow2(0) == 1 && Pow2(1) == 2 && Pow2(2) == 4 && Pow2(3) == 8
    ensures Bit(0, 0) == 0 && Bit(0, 1) == 0 && Bit(0, 2) == 0
    ensures Bit(1, 0) == 1 && Bit(1, 1) == 0 && Bit(1, 2) == 0
    ensures Bit(2, 0) == 0 && Bit(2, 1) == 1 && Bit(2, 2) == 0
    ensures Bit(3, 0) == 1 && Bit(3, 1) == 1 && Bit(3, 2) == 0
    ensures Bit(4, 0) == 0 && Bit(4, 1) == 0 && Bit(4, 2) == 1
    ensures Bit(5, 0) == 1 && Bit(5, 1) == 0 && Bit(5, 2) == 1
    ensures Bit(6, 0) == 0 && Bit(6, 1) == 1 && Bit(6, 2) == 1
    ensures Bit(7, 0) == 1 && Bit(7, 1) == 1 && Bit(7, 2) == 1
  {
    assert Pow2(0) == 1 && Pow2(1) == 2 && Pow2(2) == 4 && Pow2(3) == 8;
  }

  /** The four bilinear weights sum to 1. */
  lemma WeightsSumToOne2(w: seq<real>)
    requires |w| == 2
    ensures WeightSum(w, 0, 4) == 1.0
  {
    var a, b := w[0], w[1];
    CornerBits();
    WeightOfTwo(w, 0);
    WeightOfTwo(w, 1);
    WeightOfTwo(w, 2);
    WeightOfTwo(w, 3);
    assert WeightSum(w, 0, 4) == (1.0 - a) * (1.0 - b) + a * (1.0 - b) + (1.0 - a) * b + a * b;
  }

  /** The eight trilinear weights sum to 1. */
  lemma WeightsSumToOne3(w: seq<real>)
    requires |w| == 3
    ensures WeightSum(w, 0, 8) == 1.0
  {
    var a, b, e := w[0], w[1], w[2];
    CornerBits();
    WeightOfThree(w, 0);
    WeightOfThree(w, 1);
    WeightOfThree(w, 2);
    WeightOfThree(w, 3);
    WeightOfThree(w, 4);
    WeightOfThree(w, 5);
    WeightOfThree(w, 6);
    WeightOfThree(w, 7);
    var q := (1.0 - a) * (1.0 - b) + a * (1.0 - b) + (1.0 - a) * b + a * b;
    assert q == 1.0;
    assert WeightSum(w, 4, 8) == q * e by {
      assert WeightSum(w, 6, 8) == Weight(w, 6) + Weight(w, 7);
    }
    assert WeightSum(w, 0, 8) == q * (1.0 - e) + WeightSum(w, 4, 8) by {
      assert WeightSum(w, 2, 8) == Weight(w, 2) + Weight(w, 3) + WeightSum(w, 4, 8);
    }
  }

  lemma WeightsSumToOne(w: seq<real>)
    requires 2 <= |w| <= 3
    ensures WeightSum(w, 0, Pow2(|w|)) == 1.0
  {
    if |w| == 2 {
      assert Pow2(2) == 4;
      WeightsSumToOne2(w);
    } else {
      assert Pow2(3) == 8;
      WeightsSumToOne3(w);
    }
  }

  // ---------------------------------------------------------------------------
  // The result stays within the range of the pixel values

  /** Every pixel value lies in `lo .. hi`. */
  predicate ValuesWithin(g: Grid, lo: real, hi: real)
  {
    forall k :: 0 <= k < |g.values| ==> lo <= g.values[k] <= hi
  }

  lemma ScaleBetween(v: real, lo: real, hi: real, wt: real)
    requires lo <= v <= hi && wt >= 0.0
    ensures lo * wt <= v * wt <= hi * wt
  {
  }

  /** `v` times each weight of the corners `c .. n - 1`, summed. */
  function ScaledSum(w: seq<real>, c: nat, n: nat, v: real): real
    requires |w| <= 3
    decreases n - c
  {
    if c >= n then 0.0 else v * Weight(w, c) + ScaledSum(w, c + 1, n, v)
  }

  lemma Distribute(v: real, a: real, b: real, s: real)
    requires s == a + b
    ensures v * s == v * a + v * b
  {
  }

  /** Scaling each weight by `v` scales their sum by `v`. */
  lemma {:induction false} ScaledSumIsProduct(w: seq<real>, c: nat, n: nat, v: real)
    requires |w| <= 3
    ensures ScaledSum(w, c, n, v) == v * WeightSum(w, c, n)
    decreases n - c
  {
    if c < n {
      ScaledSumIsProduct(w, c + 1, n, v);
      Distribute(v, Weight(w, c), WeightSum(w, c + 1, n), WeightSum(w, c, n));
    }
  }

  /** What corner `c` adds to the sum: its resolved pixel's value times its weight, or 0 when dropped. */
  function CornerTerm(g: Grid, i0: seq<int>, w: seq<real>, fill: int, c: nat): real
    requires GridValid(g) && |i0| == |g.size|
  {
    var res := Resolve(CornerIndex(i0, c), g.size, fill);
    if res.At? then Weighted(PixelValue(g, res.index), Weight(w, c)) else 0.0
  }

  /** Each corner the fill type does not refuse adds its term. */
  lemma AccumulateStep(g: Grid, i0: seq<int>, w: seq<real>, fill: int, c: nat, acc: real)
    requires GridValid(g) && |i0| == |g.size| && |w| == |g.size|
    requires !Resolve(CornerIndex(i0, c), g.size, fill).Unsupported?
    requires c < Pow2(|g.size|)
    ensures AccumulateFrom(g, i0, w, fill, c, acc)
         == AccumulateFrom(g, i0, w, fill, c + 1, acc + CornerTerm(g, i0, w, fill, c))
  {
  }

  /** A corner read at `index` adds its value `v` times its weight. */
  lemma AccumulateAt(g: Grid, i0: seq<int>, w: seq<real>, fill: int, c: nat, acc: real, index: seq<nat>, v: real)
    requires GridValid(g) && |i0| == |g.size| && |w| == |g.size| && c < Pow2(|g.size|)
    requires Resolve(CornerIndex(i0, c), g.size, fill) == At(index) && v == PixelValue(g, index)
    ensures AccumulateFrom(g, i0, w, fill, c, acc) == AccumulateFrom(g, i0, w, fill, c + 1, acc + Weighted(v, Weight(w, c)))
  {
    AccumulateResolved(g, i0, w, fill, c, acc);
    assert Resolve(CornerIndex(i0, c), g.size, fill).index == index;
  }

  lemma AccumulateResolved(g: Grid, i0: seq<int>, w: seq<real>, fill: int, c: nat, acc: real)
    requires GridValid(g) && |i0| == |g.size| && |w| == |g.size| && c < Pow2(|g.size|)
    requires Resolve(CornerIndex(i0, c), g.size, fill).At?
    ensures AccumulateFrom(g, i0, w, fill, c, acc)
         == AccumulateFrom(g, i0, w, fill, c + 1,
              acc + Weighted(PixelValue(g, Resolve(CornerIndex(i0, c), g.size, fill).index), Weight(w, c)))
  {
  }

  /**
   * Corner `c` stays within `lo .. hi`: it reads a pixel valued there, or is dropped while
   * `lo .. hi` includes 0, and the fill type is supported.
   */
  predicate CornerWithin(g: Grid, i0: seq<int>, fill: int, c: nat, lo: real, hi: real)
    requires GridValid(g) && |i0| == |g.size|
  {
    match Resolve(CornerIndex(i0, c), g.size, fill)
    case At(index) => lo <= PixelValue(g, index) <= hi
    case Skip => lo <= 0.0 <= hi
    case Unsupported => false
  }

  /** Every corner of the cell at `i0` stays within `lo .. hi`. */
  predicate CornersWithin(g: Grid, i0: seq<int>, fill: int, lo: real, hi: real)
    requires GridValid(g) && |i0| == |g.size|
  {
    forall c :: 0 <= c < Pow2(|g.size|) ==> CornerWithin(g, i0, fill, c, lo, hi)
  }

  /** When every pixel value is within `lo .. hi`, so is every corner of every cell. */
  lemma ValuesWithinCorners(g: Grid, i0: seq<int>, fill: int, lo: real, hi: real)
    requires GridValid(g) && |i0| == |g.size|
    requires ValuesWithin(g, lo, hi)
    requires fill == FillNearest || (fill == FillZero && lo <= 0.0 <= hi)
    ensures CornersWithin(g, i0, fill, lo, hi)
  {
    forall c | 0 <= c < Pow2(|g.size|)
      ensures CornerWithin(g, i0, fill, c, lo, hi)
    {
      var res := Resolve(CornerIndex(i0, c), g.size, fill);
      if res.At? {
        OffsetBound(res.index, g.size);
      }
    }
  }

  /** A corner's term lies between `lo` and `hi` times its weight. */
  lemma CornerTermWithin(g: Grid, i0: seq<int>, w: seq<real>, fill: int, c: nat, lo: real, hi: real)
    requires GridValid(g) && |i0| == |g.size|
    requires CornerWithin(g, i0, fill, c, lo, hi) && Weight(w, c) >= 0.0
    ensures lo * Weight(w, c) <= CornerTerm(g, i0, w, fill, c) <= hi * Weight(w, c)
  {
    var res := Resolve(CornerIndex(i0, c), g.size, fill);
    if res.At? {
      ScaleBetween(PixelValue(g, res.index), lo, hi, Weight(w, c));
    } else {
      ScaleBetween(0.0, lo, hi, Weight(w, c));
    }
  }

  /** The remaining corners add between `lo` and `hi` times each of their weights. */
  lemma {:induction false} AccumulateBetween(g: Grid, i0: seq<int>, w: seq<real>, fill: int, n: nat, c: nat, acc: real,
                                             lo: real, hi: real)
    requires GridValid(g) && |i0| == |g.size| && |w| == |g.size| && n == Pow2(|g.size|)
    requires forall j :: 0 <= j < |w| ==> 0.0 <= w[j] <= 1.0
    requires CornersWithin(g, i0, fill, lo, hi)
    ensures AccumulateFrom(g, i0, w, fill, c, acc).Ok?
    ensures acc + ScaledSum(w, c, n, lo) <= AccumulateFrom(g, i0, w, fill, c, acc).value
    ensures AccumulateFrom(g, i0, w, fill, c, acc).value <= acc + ScaledSum(w, c, n, hi)
    decreases n - c
  {
    if c < n {
      CornerWeightNonNegative(w, c, |g.size|);
      var t := CornerTerm(g, i0, w, fill, c);
      CornerTermWithin(g, i0, w, fill, c, lo, hi);
      AccumulateStep(g, i0, w, fill, c, acc);
      AccumulateBetween(g, i0, w, fill, n, c + 1, acc + t, lo, hi);
      var r := AccumulateFrom(g, i0, w, fill, c + 1, acc + t).value;
      ScaledSumStep(w, c, n, lo);
      ScaledSumStep(w, c, n, hi);
      Bracket(acc, t, r, lo * Weight(w, c), hi * Weight(w, c), ScaledSum(w, c + 1, n, lo), ScaledSum(w, c + 1, n, hi));
    }
  }

  lemma ScaledSumStep(w: seq<real>, c: nat, n: nat, v: real)
    requires |w| <= 3 && c < n
    ensures ScaledSum(w, c, n, v) == v * Weight(w, c) + ScaledSum(w, c + 1, n, v)
  {
  }

  /** A term within `a .. b` followed by a rest within `sa .. sb` stays within the sums. */
  lemma Bracket(acc: real, t: real, r: real, a: real, b: real, sa: real, sb: real)
    requires a <= t <= b && acc + t + sa <= r <= acc + t + sb
    ensures acc + (a + sa) <= r <= acc + (b + sb)
  {
  }

  lemma ScaleByOne(v: real, s: real)
    requires s == 1.0
    ensures v * s == v
  {
  }

  /** With fractions in the unit interval, the blend of corners within `lo .. hi` lies within `lo .. hi`. */
  lemma BlendWithinRange(g: Grid, i0: seq<int>, w: seq<real>, fill: int, lo: real, hi: real)
    requires GridValid(g) && |i0| == |g.size| && |w| == |g.size|
    requires forall j :: 0 <= j < |w| ==> 0.0 <= w[j] <= 1.0
    requires CornersWithin(g, i0, fill, lo, hi)
    ensures AccumulateFrom(g, i0, w, fill, 0, 0.0).Ok?
    ensures lo <= AccumulateFrom(g, i0, w, fill, 0, 0.0).value <= hi
  {
    var n := Pow2(|w|);
    AccumulateBetween(g, i0, w, fill, n, 0, 0.0, lo, hi);
    WeightsSumToOne(w);
    ScaledSumIsProduct(w, 0, n, lo);
    ScaledSumIsProduct(w, 0, n, hi);
    ScaleByOne(lo, WeightSum(w, 0, n));
    ScaleByOne(hi, WeightSum(w, 0, n));
  }

  /**
   * Under `FillNearest` the sampled value lies between the least and greatest pixel values;
   * under `FillZero` too when that range includes 0.
   */
  lemma SampleWithinRange(g: Grid, point: seq<real>, fill: int, lo: real, hi: real)
    requires GridValid(g) && |point| >= |g.size|
    requires ValuesWithin(g, lo, hi)
    requires fill == FillNearest || (fill == FillZero && lo <= 0.0 <= hi)
    requires Sample(g, point, fill).Ok?
    ensures lo <= Sample(g, point, fill).value <= hi
  {
    var d := |g.size|;
    var x := Solve(IndexToPhysical(g.direction, g.spacing, d), Relative(point, g.origin, d)).value;
    FractionsInUnit(x);
    ValuesWithinCorners(g, Floors(x), fill, lo, hi);
    BlendWithinRange(g, Floors(x), Fractions(x), fill, lo, hi);
  }

  // ---------------------------------------------------------------------------
  // Sampling at a grid point

  /** With every weight 0, only corner 0 counts and the remaining corners add nothing. */
  lemma {:induction false} AccumulateZeroWeights(g: Grid, i0: seq<int>, w: seq<real>, fill: int, c: nat, acc: real)
    requires GridValid(g) && |i0| == |g.size| && |w| == |g.size| && c >= 1
    requires forall j :: 0 <= j < |w| ==> w[j] == 0.0
    requires fill == FillZero || fill == FillNearest
    ensures AccumulateFrom(g, i0, w, fill, c, acc) == Ok(acc)
    decreases Pow2(|g.size|) - c
  {
    if c < Pow2(|g.size|) {
      ZeroTerm(g, i0, w, fill, c);
      AccumulateStep(g, i0, w, fill, c, acc);
      AccumulateZeroWeights(g, i0, w, fill, c + 1, acc);
    }
  }

  /** A corner other than 0 adds nothing when every fraction is 0. */
  lemma ZeroTerm(g: Grid, i0: seq<int>, w: seq<real>, fill: int, c: nat)
    requires GridValid(g) && |i0| == |g.size| && |w| == |g.size| && 1 <= c < Pow2(|g.size|)
    requires forall j :: 0 <= j < |w| ==> w[j] == 0.0
    requires fill == FillZero || fill == FillNearest
    ensures !Resolve(CornerIndex(i0, c), g.size, fill).Unsupported? && CornerTerm(g, i0, w, fill, c) == 0.0
  {
    CornerWeightZero(w, c, |g.size|);
  }

  /** A corner other than 0 takes the upper neighbour on some axis, so its weight is 0 when every fraction is. */
  lemma CornerWeightZero(w: seq<real>, c: nat, d: nat)
    requires d == |w| && 2 <= d <= 3 && 1 <= c < Pow2(d)
    requires forall j :: 0 <= j < |w| ==> w[j] == 0.0
    ensures CornerWeight(w, c, d) == 0.0
  {
    CornerBits();
    var j := if Bit(c, 0) == 1 then 0 else if Bit(c, 1) == 1 then 1 else 2;
    assert Factor(w, c, j) == 0.0 by {
      if d == 2 {
        assert c == 1 || c == 2 || c == 3;
      } else {
        assert c == 1 || c == 2 || c == 3 || c == 4 || c == 5 || c == 6 || c == 7;
      }
    }
    if d == 2 {
      CornerWeightOfTwo(w, c);
    } else {
      CornerWeightOfThree(w, c);
    }
  }

  /** Corner 0 of an all-zero fraction vector has weight 1. */
  lemma CornerZeroWeight(w: seq<real>, k: nat)
    requires k <= |w| && forall j :: 0 <= j < |w| ==> w[j] == 0.0
    ensures CornerWeight(w, 0, k) == 1.0
  {
    if k > 0 {
      CornerZeroWeight(w, k - 1);
    }
  }

  /**
   * When the continuous index lands on an in-bounds pixel, sampling under either fill type
   * returns that pixel's value.
   */
  lemma AccumulateAtGridPoint(g: Grid, index: seq<nat>, fill: int)
    requires GridValid(g) && InBounds(index, g.size)
    requires fill == FillZero || fill == FillNearest
    ensures AccumulateFrom(g, index, seq(|g.size|, _ => 0.0), fill, 0, 0.0) == Ok(PixelValue(g, index))
  {
    var w := seq(|g.size|, _ => 0.0);
    var i0: seq<int> := index;
    assert CornerIndex(i0, 0) == i0 by {
      assert forall j :: 0 <= j < |i0| ==> Bit(0, j) == 0;
    }
    ResolveInside(i0, g.size, fill);
    assert ClampAll(i0, g.size) == index;
    CornerZeroWeight(w, |g.size|);
    AccumulateZeroWeights(g, i0, w, fill, 1, PixelValue(g, index));
  }

  // ---------------------------------------------------------------------------
  // Corners outside the image

  /** Under `FillZero` remaining corners that all lie outside the image add nothing. */
  lemma {:induction false} AccumulateOutside(g: Grid, i0: seq<int>, w: seq<real>, c: nat, acc: real)
    requires GridValid(g) && |i0| == |g.size| && |w| == |g.size|
    requires forall e: nat :: c <= e < Pow2(|g.size|) ==> !Inside(CornerIndex(i0, e), g.size)
    ensures AccumulateFrom(g, i0, w, FillZero, c, acc) == Ok(acc)
    decreases Pow2(|g.size|) - c
  {
    if c < Pow2(|g.size|) {
      assert !Inside(CornerIndex(i0, c), g.size);
      AccumulateOutside(g, i0, w, c + 1, acc);
    }
  }

  /** A fill type other than `FillZero` and `FillNearest` is never looked at while every corner lies inside. */
  lemma {:induction false} UnknownFillInside(g: Grid, i0: seq<int>, w: seq<real>, fill: int, c: nat, acc: real)
    requires GridValid(g) && |i0| == |g.size| && |w| == |g.size|
    requires forall e: nat :: c <= e < Pow2(|g.size|) ==> Inside(CornerIndex(i0, e), g.size)
    ensures AccumulateFrom(g, i0, w, fill, c, acc).Ok?
    decreases Pow2(|g.size|) - c
  {
    if c < Pow2(|g.size|) {
      var corner := CornerIndex(i0, c);
      assert Inside(corner, g.size);
      AccumulateResolved(g, i0, w, fill, c, acc);
      UnknownFillInside(g, i0, w, fill, c + 1,
        acc + Weighted(PixelValue(g, Resolve(corner, g.size, fill).index), Weight(w, c)));
    }
  }

  /** A fill type other than `FillZero` and `FillNearest` is refused as soon as a corner `e` lies outside. */
  lemma {:induction false} UnknownFillRefused(g: Grid, i0: seq<int>, w: seq<real>, fill: int, c: nat, acc: real, e: nat)
    requires GridValid(g) && |i0| == |g.size| && |w| == |g.size|
    requires fill != FillZero && fill != FillNearest
    requires c <= e < Pow2(|g.size|) && !Inside(CornerIndex(i0, e), g.size)
    ensures AccumulateFrom(g, i0, w, fill, c, acc).Err?
    decreases e - c
  {
    var corner := CornerIndex(i0, c);
    if Inside(corner, g.size) {
      AccumulateResolved(g, i0, w, fill, c, acc);
      UnknownFillRefused(g, i0, w, fill, c + 1,
        acc + Weighted(PixelValue(g, Resolve(corner, g.size, fill).index), Weight(w, c)), e);
    } else {
      assert Resolve(corner, g.size, fill) == Unsupported;
    }
  }

  // ---------------------------------------------------------------------------
  // Examples: a 3 x 3 image holding 1 to 9

  /** A 3 x 3 image holding 1 to 9 in row-major order, with unit spacing, zero origin and no rotation. */
  function NineGrid(): (g: Grid)
    ensures GridValid(g)
  {
    Grid([3, 3], seq(9, p => (p + 1) as real), [1.0, 1.0], [0.0, 0.0], Images.IdentityDirection)
  }

  /** The image's geometry is the identity, so every point solves to itself. */
  lemma NineGridSolve(a: real, b: real)
    ensures Solve(IndexToPhysical(NineGrid().direction, NineGrid().spacing, 2),
                  Relative([a, b], NineGrid().origin, 2)) == Ok([a, b])
  {
    var g := NineGrid();
    IndexToPhysicalOfTwo(g.direction, g.spacing);
    assert IndexToPhysical(g.direction, g.spacing, 2) == [[1.0, 0.0], [0.0, 1.0]];
    assert Relative([a, b], g.origin, 2) == [a, b];
    SolveIdentity2(a, b);
  }

  /** Pixel `[x, y]` holds `1 + x + 3 * y`. */
  lemma NineGridPixel(x: nat, y: nat)
    requires x < 3 && y < 3
    ensures PixelValue(NineGrid(), [x, y]) == (1 + x + 3 * y) as real
  {
    OffsetOfTwo(x, y, [3, 3]);
  }

  /** A corner `[x, y]` inside the image is read at its own position, whatever the fill type. */
  lemma NineGridCorner(x: nat, y: nat, fill: int)
    requires x < 3 && y < 3
    ensures Resolve([x, y], [3, 3], fill) == At([x, y])
  {
    ResolveInside([x, y], [3, 3], fill);
    assert ClampAll([x, y], [3, 3]) == [x, y];
  }

  /** On the identity geometry a point is sampled around its own coordinates. */
  lemma NineGridSample(a: real, b: real, fill: int)
    ensures Sample(NineGrid(), [a, b], fill)
         == AccumulateFrom(NineGrid(), Floors([a, b]), Fractions([a, b]), fill, 0, 0.0)
  {
    NineGridSolve(a, b);
  }

  /** The floors and fractional parts of the four sample points. */
  lemma NineGridSplits()
    ensures Floors([1.0, 1.0]) == [1, 1] && Fractions([1.0, 1.0]) == [0.0, 0.0]
    ensures Floors([0.5, 0.5]) == [0, 0] && Fractions([0.5, 0.5]) == [0.5, 0.5]
    ensures Floors([-1.0, -1.0]) == [-1, -1] && Fractions([-1.0, -1.0]) == [0.0, 0.0]
    ensures Floors([-0.5, -0.5]) == [-1, -1] && Fractions([-0.5, -0.5]) == [0.5, 0.5]
  {
    assert (1.0).Floor == 1 && (0.5).Floor == 0 && (-1.0).Floor == -1 && (-0.5).Floor == -1;
  }

  /** The grid point (1, 1) reads the centre pixel, 5. */
  lemma NineGridCentre()
    ensures Sample(NineGrid(), [1.0, 1.0], FillNearest) == Ok(5.0)
  {
    NineGridSample(1.0, 1.0, FillNearest);
    NineGridSplits();
    NineGridBlendCentre();
  }

  /** The cell at (1, 1) with no fractional part blends to its own pixel, 5. */
  lemma NineGridBlendCentre()
    ensures AccumulateFrom(NineGrid(), [1, 1], [0.0, 0.0], FillNearest, 0, 0.0) == Ok(5.0)
  {
    assert [0.0, 0.0] == seq(2, _ => 0.0);
    AccumulateAtGridPoint(NineGrid(), [1, 1], FillNearest);
    NineGridPixel(1, 1);
  }

  /** The four corners of the cell at (0, 0), each weighted 1/4, blend to the average of 1, 2, 4 and 5. */
  lemma NineGridBlendAverage()
    ensures AccumulateFrom(NineGrid(), [0, 0], [0.5, 0.5], FillNearest, 0, 0.0) == Ok(3.0)
  {
    var g, i0, w := NineGrid(), [0, 0], [0.5, 0.5];
    CornerBits();
    forall c | 0 <= c < 4
      ensures Weight(w, c) == 0.25
    {
      WeightOfTwo(w, c);
    }
    assert CornerIndex(i0, 0) == [0, 0] && CornerIndex(i0, 1) == [1, 0];
    assert CornerIndex(i0, 2) == [0, 1] && CornerIndex(i0, 3) == [1, 1];
    NineGridCorner(0, 0, FillNearest);
    NineGridCorner(1, 0, FillNearest);
    NineGridCorner(0, 1, FillNearest);
    NineGridCorner(1, 1, FillNearest);
    NineGridPixel(0, 0);
    NineGridPixel(1, 0);
    NineGridPixel(0, 1);
    NineGridPixel(1, 1);
    AccumulateAt(g, i0, w, FillNearest, 0, 0.0, [0, 0], 1.0);
    AccumulateAt(g, i0, w, FillNearest, 1, 0.25, [1, 0], 2.0);
    AccumulateAt(g, i0, w, FillNearest, 2, 0.75, [0, 1], 4.0);
    AccumulateAt(g, i0, w, FillNearest, 3, 1.75, [1, 1], 5.0);
  }

  /** Halfway between the four top-left pixels (1, 2, 4, 5) the value is their average, 3. */
  lemma NineGridAverage()
    ensures Sample(NineGrid(), [0.5, 0.5], FillNearest) == Ok(3.0)
  {
    NineGridSample(0.5, 0.5, FillNearest);
    NineGridSplits();
    NineGridBlendAverage();
  }

  /** Under `FillZero` the cell at (-1, -1) with no fractional part blends to 0: its one inside corner has weight 0. */
  lemma NineGridBlendZero()
    ensures AccumulateFrom(NineGrid(), [-1, -1], [0.0, 0.0], FillZero, 0, 0.0) == Ok(0.0)
  {
    var g, i0, w := NineGrid(), [-1, -1], [0.0, 0.0];
    CornerBits();
    assert CornerIndex(i0, 0) == [-1, -1];
    assert Resolve(CornerIndex(i0, 0), g.size, FillZero) == Skip;
    AccumulateZeroWeights(g, i0, w, FillZero, 1, 0.0);
  }

  /** Under `FillZero` the point (-1, -1) samples to 0. */
  lemma NineGridZeroOutside()
    ensures Sample(NineGrid(), [-1.0, -1.0], FillZero) == Ok(0.0)
  {
    NineGridSample(-1.0, -1.0, FillZero);
    NineGridSplits();
    NineGridBlendZero();
  }

  /** Under `FillNearest` every corner of the cell at (-1, -1) clamps to pixel (0, 0), which holds 1. */
  lemma NineGridBlendNearest()
    ensures AccumulateFrom(NineGrid(), [-1, -1], [0.5, 0.5], FillNearest, 0, 0.0) == Ok(1.0)
  {
    var g, i0, w := NineGrid(), [-1, -1], [0.5, 0.5];
    CornerBits();
    NineGridPixel(0, 0);
    forall c | 0 <= c < Pow2(2)
      ensures CornerWithin(g, i0, FillNearest, c, 1.0, 1.0)
    {
      NearestCorner(c);
    }
    BlendWithinRange(g, i0, w, FillNearest, 1.0, 1.0);
  }

  /** Each corner of the cell at (-1, -1) has coordinates -1 or 0, which clamp to 0. */
  lemma NearestCorner(c: nat)
    requires c < 4
    ensures Resolve(CornerIndex([-1, -1], c), [3, 3], FillNearest) == At([0, 0])
  {
    CornerBits();
    var corner := CornerIndex([-1, -1], c);
    assert corner == [-1 + Bit(c, 0), -1 + Bit(c, 1)];
    assert ClampAll(corner, [3, 3]) == [0, 0];
  }

  /** Under `FillNearest` the point (-0.5, -0.5) samples to the corner pixel, 1. */
  lemma NineGridNearestOutside()
    ensures Sample(NineGrid(), [-0.5, -0.5], FillNearest) == Ok(1.0)
  {
    NineGridSample(-0.5, -0.5, FillNearest);
    NineGridSplits();
    NineGridBlendNearest();
  }

  // ---------------------------------------------------------------------------
  // The operation

  /** Checks each axis of `corner` in order: clamps, drops or refuses it per the fill type. */
  method ResolveCorner(corner: seq<int>, size: seq<nat>, fill: int) returns (r: Resolved)
    requires |corner| == |size| && Positive(size)
    ensures r == Resolve(corner, size, fill)
  {
    var indices := corner;
    var i := 0;
    while i < |size|
      invariant 0 <= i <= |size| && |indices| == |size|
      invariant forall j :: 0 <= j < i ==> 0 <= indices[j] < size[j] && indices[j] == Clamp(corner[j], size[j])
      invariant forall j :: i <= j < |size| ==> indices[j] == corner[j]
      invariant fill != FillNearest ==> forall j :: 0 <= j < i ==> 0 <= corner[j] < size[j]
    {
      if indices[i] < 0 || indices[i] >= size[i] {
        if fill == FillZero {
          return Skip;
        } else if fill == FillNearest {
          indices := indices[i := if indices[i] < 0 then 0 else size[i] - 1];
        } else {
          return Unsupported;
        }
      }
      i := i + 1;
    }
    var index := seq(|indices|, j requires 0 <= j < |indices| => Clamp(indices[j], size[j]));
    assert index == ClampAll(corner, size);
    return At(index);
  }

  /** The two-axis index-to-physical matrix, written out as `GetPixelFromPoint` builds it. */
  lemma IndexToPhysicalOfTwo(dir: seq<real>, sp: seq<real>)
    requires |dir| == 9 && |sp| >= 2
    ensures IndexToPhysical(dir, sp, 2) == [[dir[0] * sp[0], dir[3] * sp[1]],
                                             [dir[1] * sp[0], dir[4] * sp[1]]]
  {
    var A := IndexToPhysical(dir, sp, 2);
    assert A[0][0] == dir[0] * sp[0] && A[0][1] == dir[3] * sp[1];
    assert A[1][0] == dir[1] * sp[0] && A[1][1] == dir[4] * sp[1];
    assert A[0] == [dir[0] * sp[0], dir[3] * sp[1]];
    assert A[1] == [dir[1] * sp[0], dir[4] * sp[1]];
    assert A == [A[0], A[1]];
  }

  /** The three-axis index-to-physical matrix, written out as `GetPixelFromPoint` builds it. */
  lemma IndexToPhysicalOfThree(dir: seq<real>, sp: seq<real>)
    requires |dir| == 9 && |sp| >= 3
    ensures IndexToPhysical(dir, sp, 3) == [[dir[0] * sp[0], dir[3] * sp[1], dir[6] * sp[2]],
                                             [dir[1] * sp[0], dir[4] * sp[1], dir[7] * sp[2]],
                                             [dir[2] * sp[0], dir[5] * sp[1], dir[8] * sp[2]]]
  {
    var A := IndexToPhysical(dir, sp, 3);
    assert A[0][0] == dir[0] * sp[0] && A[0][1] == dir[3] * sp[1] && A[0][2] == dir[6] * sp[2];
    assert A[1][0] == dir[1] * sp[0] && A[1][1] == dir[4] * sp[1] && A[1][2] == dir[7] * sp[2];
    assert A[2][0] == dir[2] * sp[0] && A[2][1] == dir[5] * sp[1] && A[2][2] == dir[8] * sp[2];
    assert A[0] == [dir[0] * sp[0], dir[3] * sp[1], dir[6] * sp[2]];
    assert A[1] == [dir[1] * sp[0], dir[4] * sp[1], dir[7] * sp[2]];
    assert A[2] == [dir[2] * sp[0], dir[5] * sp[1], dir[8] * sp[2]];
    assert A == [A[0], A[1], A[2]];
  }

  /**
   * The interpolated value at `point`, read from the image as `GetPixelFromPoint` does. The
   * float pixel types are read through `floatValue`.
   */
  method GetPixelFromPoint(img: Images.Image, point: seq<real>, fill: int, floatValue: (PixelType, nat) -> real)
    returns (r: Result<real>)
    requires img.Valid() && img.HasGeometry() && 2 <= img.dimension <= 3 && |point| >= img.dimension
    ensures r == Sample(GridOf(img, floatValue), point, fill)
  {
    var p := RelativePoint(point, img.origin, img.dimension);
    var A := PhysicalMatrix(img.direction, img.spacing, img.dimension);
    var x :- SolveLinearSystem(A, p);
    var i0, w := SplitCoordinates(x);
    r := BlendCorners(img, i0, w, fill, floatValue);
  }

  /** The point relative to the origin, axis by axis. */
  method RelativePoint(point: seq<real>, origin: seq<real>, d: nat) returns (p: seq<real>)
    requires |point| >= d && |origin| >= d
    ensures p == Relative(point, origin, d)
  {
    p := [];
    for i := 0 to d
      invariant p == Relative(point, origin, i)
    {
      p := p + [point[i] - origin[i]];
    }
  }

  /** The index-to-physical matrix, written out entry by entry for two or three axes. */
  method PhysicalMatrix(dir: seq<real>, sp: seq<real>, d: nat) returns (A: seq<seq<real>>)
    requires |dir| == 9 && |sp| >= d && 2 <= d <= 3
    ensures A == IndexToPhysical(dir, sp, d)
  {
    if d == 2 {
      A := [[dir[0] * sp[0], dir[3] * sp[1]],
            [dir[1] * sp[0], dir[4] * sp[1]]];
      IndexToPhysicalOfTwo(dir, sp);
    } else {
      A := [[dir[0] * sp[0], dir[3] * sp[1], dir[6] * sp[2]],
            [dir[1] * sp[0], dir[4] * sp[1], dir[7] * sp[2]],
            [dir[2] * sp[0], dir[5] * sp[1], dir[8] * sp[2]]];
      IndexToPhysicalOfThree(dir, sp);
    }
  }

  /** Each coordinate's floor and fractional part. */
  method SplitCoordinates(x: seq<real>) returns (i0: seq<int>, w: seq<real>)
    ensures i0 == Floors(x) && w == Fractions(x)
  {
    i0, w := [], [];
    for i := 0 to |x|
      invariant i0 == Floors(x)[..i] && w == Fractions(x)[..i]
    {
      var f := x[i].Floor;
      i0 := i0 + [f];
      w := w + [x[i] - f as real];
    }
  }

  /** Adds up the corners of the cell at `i0` in order, stopping at an unsupported fill type. */
  method BlendCorners(img: Images.Image, i0: seq<int>, w: seq<real>, fill: int, floatValue: (PixelType, nat) -> real)
    returns (r: Result<real>)
    requires img.Valid() && img.HasGeometry() && 2 <= img.dimension <= 3
    requires |i0| == img.dimension && |w| == img.dimension
    ensures r == AccumulateFrom(GridOf(img, floatValue), i0, w, fill, 0, 0.0)
  {
    ghost var g := GridOf(img, floatValue);
    var n := Pow2(img.dimension);
    var acc := 0.0;
    var c := 0;
    while c < n
      invariant 0 <= c <= n
      decreases n - c
      invariant AccumulateFrom(g, i0, w, fill, c, acc) == AccumulateFrom(g, i0, w, fill, 0, 0.0)
    {
      var next := AddCorner(img, i0, w, fill, c, acc, floatValue);
      if next.Err? {
        return next;
      }
      acc := next.value;
      c := c + 1;
    }
    return Ok(acc);
  }

  /** One pass of the corner loop: resolves corner `c` and adds its weighted value, if any. */
  method AddCorner(img: Images.Image, i0: seq<int>, w: seq<real>, fill: int, c: nat, acc: real,
                   floatValue: (PixelType, nat) -> real) returns (r: Result<real>)
    requires img.Valid() && img.HasGeometry() && 2 <= img.dimension <= 3
    requires |i0| == img.dimension && |w| == img.dimension && c < Pow2(img.dimension)
    ensures var g := GridOf(img, floatValue);
      r.Err? ==> r == AccumulateFrom(g, i0, w, fill, c, acc)
    ensures var g := GridOf(img, floatValue);
      r.Ok? ==> AccumulateFrom(g, i0, w, fill, c + 1, r.value) == AccumulateFrom(g, i0, w, fill, c, acc)
  {
    ghost var g := GridOf(img, floatValue);
    var res := ResolveCorner(CornerIndex(i0, c), img.size, fill);
    if res.Unsupported? {
      return Err("unsupported fillType");
    } else if res.At? {
      var v := ReadPixel(img, res.index, floatValue);
      AccumulateAt(g, i0, w, fill, c, acc, res.index, v);
      return Ok(acc + Weighted(v, Weight(w, c)));
    }
    return Ok(acc);
  }

  /** Reads and decodes the in-bounds pixel `index`, computing its linear index as the source does. */
  method ReadPixel(img: Images.Image, index: seq<nat>, floatValue: (PixelType, nat) -> real) returns (v: real)
    requires img.Valid() && img.HasGeometry() && 2 <= img.dimension <= 3 && InBounds(index, img.size)
    ensures v == PixelValue(GridOf(img, floatValue), index)
  {
    var li := LinearIndex(index, img.size);
    Images.PixelFits(li, Product(img.size), img.bytesPerPixel);
    var bs := img.pixels[li * img.bytesPerPixel .. li * img.bytesPerPixel + img.bytesPerPixel];
    assert bs == Images.PixelBytes(img.pixels[..], li, img.bytesPerPixel);
    v := ValueReal(Decode(img.pixelType, bs), floatValue);
  }

  /** `x + y * size[0]`, plus `z * size[0] * size[1]` with three axes: the row-major offset. */
  method LinearIndex(index: seq<nat>, size: seq<nat>) returns (li: nat)
    requires 2 <= |size| <= 3 && InBounds(index, size)
    ensures li == Offset(index, size) && li < Product(size)
  {
    li := index[0] + index[1] * size[0];
    if |size| == 3 {
      li := li + index[2] * (size[0] * size[1]);
      OffsetOfThree(index[0], index[1], index[2], size);
      assert index == [index[0], index[1], index[2]];
    } else {
      OffsetOfTwo(index[0], index[1], size);
      assert index == [index[0], index[1]];
    }
    OffsetBound(index, size);
  }
}
