/**
 * Binary morphology of morph.go: every pixel is first binarised (set when its `int8`
 * conversion is above 0); dilation sets every pixel within `kernelSize / 2` of a set pixel
 * on every axis, erosion keeps a set pixel only when its whole window is inside the image
 * and set. The result is a new `Int8` image of 0s and 1s with the input's geometry.
 */
module Morph {
  import opened Results
  import opened Pixels
  import opened Layout
  import Images
  import Sampling
  import Arith

  const MorphOpen := 0
  const MorphClose := 1

  /** Go's `k / 2` on an `int`: the quotient truncated toward zero. */
  function Half(k: int): int
  {
    if k >= 0 then k / 2 else -((-k) / 2)
  }

  /** Truncation is symmetric, so `-kernelSize / 2` is the negated half-width. */
  lemma HalfOfNegation(k: int)
    ensures Half(-k) == -Half(k)
  {
  }

  function Indicator(b: bool): int
  {
    if b then 1 else 0
  }

  // ---------------------------------------------------------------------------
  // Masks: one flag per pixel, by linear offset
  // ---------------------------------------------------------------------------

  /** The binarised pixels of a buffer: pixel `p` is set when `toInt8` of its value is above 0. */
  function MaskOfBytes(t: PixelType, data: seq<byte>, n: nat, toInt8: Value -> int): (m: seq<bool>)
    requires n * BytesPerPixel(t) <= |data|
    ensures |m| == n
  {
    seq(n, p requires 0 <= p < n =>
      Images.PixelFits(p, n, BytesPerPixel(t));
      toInt8(Decode(t, Images.PixelBytes(data, p, BytesPerPixel(t)))) > 0)
  }

  /** The binarised input image, as the morphology loops read it through `GetPixelAsInt8`. */
  function MaskOf(img: Images.Image, toInt8: Value -> int): (m: seq<bool>)
    requires img.Valid()
    reads img, img.pixels
    ensures |m| == Product(img.size)
  {
    MaskOfBytes(img.pixelType, img.pixels[..], Product(img.size), toInt8)
  }

  predicate MaskShape(mask: seq<bool>, size: seq<nat>)
  {
    Positive(size) && |mask| == Product(size)
  }

  /** The flag of the in-bounds index `index`. */
  function MaskAt(mask: seq<bool>, size: seq<nat>, index: seq<nat>): bool
    requires MaskShape(mask, size) && InBounds(index, size)
  {
    OffsetBound(index, size);
    mask[Offset(index, size)]
  }

  /** `t` lies within `h` of `s` on every axis. */
  predicate Near(t: seq<int>, s: seq<int>, h: int)
    requires |t| == |s|
  {
    forall j :: 0 <= j < |t| ==> -h <= t[j] - s[j] <= h
  }

  /** Some set pixel lies within `h` of `t` on every axis. */
  ghost predicate DilatedAt(mask: seq<bool>, size: seq<nat>, h: int, t: seq<int>)
    requires MaskShape(mask, size) && |t| == |size|
  {
    exists q :: 0 <= q < |mask| && mask[q] && Near(t, IndexOf(q, size), h)
  }

  /** The position `r` is inside the image and its pixel is set. */
  predicate SetInside(mask: seq<bool>, size: seq<nat>, r: seq<int>)
    requires MaskShape(mask, size) && |r| == |size|
  {
    Sampling.Inside(r, size) && MaskAt(mask, size, Sampling.ClampAll(r, size))
  }

  /** The pixel is set and so is every pixel within `h` of it, none of them outside the image. */
  ghost predicate ErodedAt(mask: seq<bool>, size: seq<nat>, h: int, index: seq<nat>)
    requires MaskShape(mask, size) && InBounds(index, size)
  {
    MaskAt(mask, size, index)
    && forall r: seq<int> :: |r| == |size| && Near(r, index, h) ==> SetInside(mask, size, r)
  }

  /** The dilation of a mask with half-width `h`. */
  ghost function DilateMask(mask: seq<bool>, size: seq<nat>, h: int): (m: seq<bool>)
    requires MaskShape(mask, size)
    ensures |m| == |mask|
  {
    seq(|mask|, p requires 0 <= p < |mask| => DilatedAt(mask, size, h, IndexOf(p, size)))
  }

  /** The erosion of a mask with half-width `h`. */
  ghost function ErodeMask(mask: seq<bool>, size: seq<nat>, h: int): (m: seq<bool>)
    requires MaskShape(mask, size)
    ensures |m| == |mask|
  {
    seq(|mask|, p requires 0 <= p < |mask| => ErodedAtOffset(mask, size, h, p))
  }

  /** `ErodedAt` of the pixel at linear offset `p`. */
  ghost predicate ErodedAtOffset(mask: seq<bool>, size: seq<nat>, h: int, p: nat)
    requires MaskShape(mask, size) && p < |mask|
  {
    IndexOfInBounds(p, size);
    ErodedAt(mask, size, h, IndexOf(p, size))
  }

  /** The bytes of an `Int8` image holding 1 for each set flag and 0 for the others. */
  function Bytes01(m: seq<bool>): (bs: seq<byte>)
    ensures |bs| == |m|
  {
    seq(|m|, p requires 0 <= p < |m| => if m[p] then 1 else 0)
  }

  // ---------------------------------------------------------------------------
  // The scan order of the dilation loops
  // ---------------------------------------------------------------------------

  /** Whether one of the first `n` pixels (in offset order) is set and lies within `h` of `t`. */
  ghost predicate CoveredBy(mask: seq<bool>, size: seq<nat>, h: int, n: nat, t: seq<int>)
    requires MaskShape(mask, size) && n <= |mask| && |t| == |size|
  {
    n > 0 && (CoveredBy(mask, size, h, n - 1, t) || (mask[n - 1] && Near(t, IndexOf(n - 1, size), h)))
  }

  lemma {:induction false} CoveredByExists(mask: seq<bool>, size: seq<nat>, h: int, n: nat, t: seq<int>)
    requires MaskShape(mask, size) && n <= |mask| && |t| == |size|
    ensures CoveredBy(mask, size, h, n, t) <==>
      exists q :: 0 <= q < n && mask[q] && Near(t, IndexOf(q, size), h)
  {
    if n > 0 {
      CoveredByExists(mask, size, h, n - 1, t);
      if CoveredBy(mask, size, h, n, t) {
        if !CoveredBy(mask, size, h, n - 1, t) {
          assert mask[n - 1] && Near(t, IndexOf(n - 1, size), h);
        }
      } else {
        forall q | 0 <= q < n && mask[q]
          ensures !Near(t, IndexOf(q, size), h)
        {
        }
      }
    }
  }

  /** After the whole scan, covered means dilated. */
  lemma CoveredByAll(mask: seq<bool>, size: seq<nat>, h: int, t: seq<int>)
    requires MaskShape(mask, size) && |t| == |size|
    ensures CoveredBy(mask, size, h, |mask|, t) <==> DilatedAt(mask, size, h, t)
  {
    CoveredByExists(mask, size, h, |mask|, t);
  }

  // ---------------------------------------------------------------------------
  // Two-dimensional grids: `a[y, x]`, as Go's `[][]int8`
  // ---------------------------------------------------------------------------

  /** The grid has one cell per pixel of a `size[0]` by `size[1]` image. */
  predicate Shaped2(a: array2<int>, size: seq<nat>)
  {
    |size| == 2 && a.Length0 == size[1] && a.Length1 == size[0]
  }

  /** Cell `[y, x]` holds 1 when flag `[x, y]` of the mask is set and 0 otherwise. */
  ghost predicate Holds2(a: array2<int>, mask: seq<bool>, size: seq<nat>)
    requires MaskShape(mask, size) && Shaped2(a, size)
    reads a
  {
    forall y, x :: 0 <= y < a.Length0 && 0 <= x < a.Length1 ==>
      a[y, x] == Indicator(MaskAt(mask, size, [x, y]))
  }

  predicate AllZero2(a: array2<int>)
    reads a
  {
    forall y, x :: 0 <= y < a.Length0 && 0 <= x < a.Length1 ==> a[y, x] == 0
  }

  /** Reads the in-bounds pixel `index` and tests `toInt8` of it for positive, as the binarisation loops do. */
  method PixelSet(img: Images.Image, toInt8: Value -> int, index: seq<nat>) returns (on: bool)
    requires img.Valid() && InBounds(index, img.size)
    ensures on == MaskAt(MaskOf(img, toInt8), img.size, index)
  {
    var v := img.GetPixel(index);
    OffsetBound(index, img.size);
    on := toInt8(v.value) > 0;
  }

  /** One row of the two-axis binarisation loop: row `y` of `src` gets the flags, and of `also` the 1s when asked. */
  method BinarizeRow2(img: Images.Image, toInt8: Value -> int, src: array2<int>, also: array2<int>, copy: bool, y: nat)
    requires img.Valid() && img.dimension == 2 && Shaped2(src, img.size) && Shaped2(also, img.size)
    requires src != also && y < img.size[1]
    modifies src, also
    ensures forall ny, nx :: 0 <= ny < src.Length0 && 0 <= nx < src.Length1 ==>
      src[ny, nx] == if ny == y then Indicator(MaskAt(MaskOf(img, toInt8), img.size, [nx, ny])) else old(src[ny, nx])
    ensures forall ny, nx :: 0 <= ny < also.Length0 && 0 <= nx < also.Length1 ==>
      also[ny, nx] == if copy && ny == y && MaskAt(MaskOf(img, toInt8), img.size, [nx, ny]) then 1 else old(also[ny, nx])
  {
    ghost var mask := MaskOf(img, toInt8);
    var x := 0;
    while x < img.size[0]
      invariant 0 <= x <= img.size[0]
      invariant forall ny, nx :: 0 <= ny < src.Length0 && 0 <= nx < src.Length1 ==>
        src[ny, nx] == if ny == y && nx < x then Indicator(MaskAt(mask, img.size, [nx, ny])) else old(src[ny, nx])
      invariant forall ny, nx :: 0 <= ny < also.Length0 && 0 <= nx < also.Length1 ==>
        also[ny, nx] == if copy && ny == y && nx < x && MaskAt(mask, img.size, [nx, ny]) then 1 else old(also[ny, nx])
    {
      var on := PixelSet(img, toInt8, [x, y]);
      if on {
        src[y, x] := 1;
        if copy {
          also[y, x] := 1;
        }
      } else {
        src[y, x] := 0;
      }
      x := x + 1;
    }
  }

  /** The binarisation loops: `src[y][x]` is 1 when the pixel is set, and `also` gets the same 1s when asked. */
  method Binarize2(img: Images.Image, toInt8: Value -> int, src: array2<int>, also: array2<int>, copy: bool)
    requires img.Valid() && img.dimension == 2 && Shaped2(src, img.size) && Shaped2(also, img.size)
    requires src != also && (copy ==> AllZero2(also))
    modifies src, also
    ensures Holds2(src, MaskOf(img, toInt8), img.size)
    ensures copy ==> Holds2(also, MaskOf(img, toInt8), img.size)
    ensures !copy ==> forall y, x :: 0 <= y < also.Length0 && 0 <= x < also.Length1 ==> also[y, x] == old(also[y, x])
  {
    ghost var mask := MaskOf(img, toInt8);
    var h := img.size[1];
    var y := 0;
    while y < h
      invariant 0 <= y <= h
      invariant forall ny, nx :: 0 <= ny < y && 0 <= nx < src.Length1 ==> src[ny, nx] == Indicator(MaskAt(mask, img.size, [nx, ny]))
      invariant copy ==> forall ny, nx :: 0 <= ny < h && 0 <= nx < also.Length1 ==>
        also[ny, nx] == if ny < y then Indicator(MaskAt(mask, img.size, [nx, ny])) else 0
      invariant !copy ==> forall ny, nx :: 0 <= ny < h && 0 <= nx < also.Length1 ==> also[ny, nx] == old(also[ny, nx])
    {
      BinarizeRow2(img, toInt8, src, also, copy, y);
      y := y + 1;
    }
  }

  /** Pixel `[x, y]` of a two-axis image sits at linear offset `x + y * size[0]`, and back. */
  lemma IndexOfTwo(x: nat, y: nat, size: seq<nat>)
    requires |size| == 2 && Positive(size) && x < size[0] && y < size[1]
    ensures x + y * size[0] < Product(size)
    ensures IndexOf(x + y * size[0], size) == [x, y]
  {
    assert InBounds([x, y], size);
    OffsetOfTwo(x, y, size);
    OffsetBound([x, y], size);
    IndexOfOffset([x, y], size);
  }

  /** The stamping loops of one window row: every in-bounds cell of row `y + j` within `[lo, hi]` of `x` becomes 1. */
  method StampRow2(a: array2<int>, x: int, y: int, j: int, lo: int, hi: int)
    modifies a
    ensures forall ny, nx :: 0 <= ny < a.Length0 && 0 <= nx < a.Length1 ==>
      a[ny, nx] == if ny == y + j && lo <= nx - x <= hi then 1 else old(a[ny, nx])
  {
    var k := lo;
    while k <= hi
      invariant lo <= k && (k <= hi + 1 || k == lo)
      invariant forall ny, nx :: 0 <= ny < a.Length0 && 0 <= nx < a.Length1 ==>
        a[ny, nx] == if ny == y + j && lo <= nx - x < k then 1 else old(a[ny, nx])
    {
      var newY, newX := y + j, x + k;
      if newY >= 0 && newY < a.Length0 && newX >= 0 && newX < a.Length1 {
        a[newY, newX] := 1;
      }
      k := k + 1;
    }
  }

  /** The window stamped around a set pixel `[x, y]`, clipped at the borders. */
  method Stamp2(a: array2<int>, x: int, y: int, lo: int, hi: int)
    modifies a
    ensures forall ny, nx :: 0 <= ny < a.Length0 && 0 <= nx < a.Length1 ==>
      a[ny, nx] == if lo <= ny - y <= hi && lo <= nx - x <= hi then 1 else old(a[ny, nx])
  {
    var j := lo;
    while j <= hi
      invariant lo <= j && (j <= hi + 1 || j == lo)
      invariant forall ny, nx :: 0 <= ny < a.Length0 && 0 <= nx < a.Length1 ==>
        a[ny, nx] == if lo <= ny - y < j && lo <= nx - x <= hi then 1 else old(a[ny, nx])
    {
      StampRow2(a, x, y, j, lo, hi);
      j := j + 1;
    }
  }

  /** Cell `[y, x]` holds 1 exactly when one of the first `n` pixels is set and within `h` of `[x, y]`. */
  ghost predicate Covered2(a: array2<int>, mask: seq<bool>, size: seq<nat>, h: int, n: nat)
    requires MaskShape(mask, size) && Shaped2(a, size) && n <= |mask|
    reads a
  {
    forall ny, nx :: 0 <= ny < a.Length0 && 0 <= nx < a.Length1 ==>
      a[ny, nx] == Indicator(CoveredBy(mask, size, h, n, [nx, ny]))
  }

  /** Once every pixel is scanned, coverage is the dilation. */
  lemma CoveredIsDilated2(a: array2<int>, mask: seq<bool>, size: seq<nat>, h: int)
    requires MaskShape(mask, size) && Shaped2(a, size) && Covered2(a, mask, size, h, |mask|)
    ensures Holds2(a, DilateMask(mask, size, h), size)
  {
    var d := DilateMask(mask, size, h);
    forall ny, nx | 0 <= ny < a.Length0 && 0 <= nx < a.Length1
      ensures a[ny, nx] == Indicator(MaskAt(d, size, [nx, ny]))
    {
      IndexOfTwo(nx, ny, size);
      OffsetOfTwo(nx, ny, size);
      CoveredByAll(mask, size, h, [nx, ny]);
    }
  }

  /** Scanning pixel `[x, y]` adds its window to the coverage when it is set. */
  lemma CoveredByStep2(mask: seq<bool>, size: seq<nat>, h: int, x: nat, y: nat, nx: int, ny: int)
    requires MaskShape(mask, size) && |size| == 2 && x < size[0] && y < size[1]
    ensures x + y * size[0] < |mask|
    ensures CoveredBy(mask, size, h, x + y * size[0] + 1, [nx, ny]) <==>
      CoveredBy(mask, size, h, x + y * size[0], [nx, ny])
      || (MaskAt(mask, size, [x, y]) && -h <= ny - y <= h && -h <= nx - x <= h)
  {
    IndexOfTwo(x, y, size);
    OffsetOfTwo(x, y, size);
    assert Near([nx, ny], [x, y], h) <==> -h <= ny - y <= h && -h <= nx - x <= h;
  }

  /** The inner dilation loop: one row of pixels scanned. */
  method DilateRow2(src: array2<int>, a: array2<int>, ghost mask: seq<bool>, size: seq<nat>, y: nat, lo: int, hi: int)
    requires MaskShape(mask, size) && Shaped2(src, size) && Shaped2(a, size) && src != a
    requires Holds2(src, mask, size) && lo == -hi && y < size[1]
    requires y * size[0] + size[0] <= |mask| && Covered2(a, mask, size, hi, y * size[0])
    modifies a
    ensures Covered2(a, mask, size, hi, y * size[0] + size[0])
  {
    var w := size[0];
    var x := 0;
    while x < w
      invariant 0 <= x <= w
      invariant Covered2(a, mask, size, hi, y * w + x)
    {
      ghost var n := y * w + x;
      label before:
      if src[y, x] == 1 {
        Stamp2(a, x, y, lo, hi);
      }
      forall ny, nx | 0 <= ny < a.Length0 && 0 <= nx < a.Length1
        ensures a[ny, nx] == Indicator(CoveredBy(mask, size, hi, n + 1, [nx, ny]))
      {
        CoveredByStep2(mask, size, hi, x, y, nx, ny);
        assert old@before(a[ny, nx]) == Indicator(CoveredBy(mask, size, hi, n, [nx, ny]));
      }
      x := x + 1;
    }
  }

  /** The dilation loops over every pixel in scan order, stamping a window around each set one. */
  method DilateScan2(src: array2<int>, a: array2<int>, ghost mask: seq<bool>, size: seq<nat>, lo: int, hi: int)
    requires MaskShape(mask, size) && Shaped2(src, size) && Shaped2(a, size) && src != a
    requires Holds2(src, mask, size) && AllZero2(a) && lo == -hi
    modifies a
    ensures Holds2(a, DilateMask(mask, size, hi), size)
  {
    var w, h := size[0], size[1];
    assert Product(size) == w * h by {
      assert size[1..][1..] == [];
      assert Product(size[1..]) == h;
    }
    assert Covered2(a, mask, size, hi, 0);
    var y, n := 0, 0;
    while y < h
      invariant 0 <= y <= h && n == y * w && n <= |mask|
      invariant Holds2(src, mask, size)
      invariant Covered2(a, mask, size, hi, n)
    {
      Arith.MulMonotone(y + 1, h, w);
      assert n + w == (y + 1) * w;
      DilateRow2(src, a, mask, size, y, lo, hi);
      y, n := y + 1, n + w;
    }
    assert n == |mask|;
    CoveredIsDilated2(a, mask, size, hi);
  }

  /** Cell `[j, i]` is inside the grid and not 0. */
  predicate Cell2(src: array2<int>, j: int, i: int)
    reads src
  {
    0 <= j < src.Length0 && 0 <= i < src.Length1 && src[j, i] != 0
  }

  /** Every cell within `h` of `[x, y]` on both axes is inside the grid and set. */
  ghost predicate WindowSet2(src: array2<int>, x: int, y: int, h: int)
    reads src
  {
    forall j, i :: y - h <= j <= y + h && x - h <= i <= x + h ==> Cell2(src, j, i)
  }

  /** The innermost erosion loop over one window row `j`, stopping at the first cell outside or 0. */
  method AllSetRow2(src: array2<int>, x: int, j: int, h: int) returns (ok: bool)
    ensures ok <==> forall i :: x - h <= i <= x + h ==> Cell2(src, j, i)
  {
    var dx := -h;
    while dx <= h
      invariant -h <= dx && (dx <= h + 1 || dx == -h)
      invariant forall i :: x - h <= i < x + dx ==> Cell2(src, j, i)
    {
      var newX := x + dx;
      if j < 0 || j >= src.Length0 || newX < 0 || newX >= src.Length1 || src[j, newX] == 0 {
        assert !Cell2(src, j, newX);
        return false;
      }
      dx := dx + 1;
    }
    return true;
  }

  /** The window loops of one set pixel; the early `false` is the jump to the next pixel. */
  method AllSet2(src: array2<int>, x: int, y: int, h: int) returns (ok: bool)
    ensures ok <==> WindowSet2(src, x, y, h)
  {
    var dy := -h;
    while dy <= h
      invariant -h <= dy && (dy <= h + 1 || dy == -h)
      invariant forall j, i :: y - h <= j < y + dy && x - h <= i <= x + h ==> Cell2(src, j, i)
    {
      var row := AllSetRow2(src, x, y + dy, h);
      if !row {
        return false;
      }
      dy := dy + 1;
    }
    return true;
  }

  /** The erosion output of the scan: a set pixel stays set exactly when its whole window is. */
  ghost predicate ErodedUpTo2(e: array2<int>, src: array2<int>, mask: seq<bool>, size: seq<nat>, h: int, y: int, x: int)
    requires MaskShape(mask, size) && Shaped2(e, size)
    reads e, src
  {
    forall ny, nx :: 0 <= ny < e.Length0 && 0 <= nx < e.Length1 ==>
      e[ny, nx] == Indicator(MaskAt(mask, size, [nx, ny]) && ((ny < y || (ny == y && nx < x)) ==> WindowSet2(src, nx, ny, h)))
  }

  /** The inner erosion loop: one row of pixels, each set one cleared when its window misses. */
  method ErodeRow2(src: array2<int>, e: array2<int>, ghost mask: seq<bool>, size: seq<nat>, y: nat, h: int)
    requires MaskShape(mask, size) && Shaped2(src, size) && Shaped2(e, size) && src != e
    requires Holds2(src, mask, size) && y < size[1] && ErodedUpTo2(e, src, mask, size, h, y, 0)
    modifies e
    ensures ErodedUpTo2(e, src, mask, size, h, y + 1, 0)
  {
    var x := 0;
    while x < size[0]
      invariant 0 <= x <= size[0]
      invariant ErodedUpTo2(e, src, mask, size, h, y, x)
    {
      assert src[y, x] == Indicator(MaskAt(mask, size, [x, y]));
      if src[y, x] == 1 {
        var ok := AllSet2(src, x, y, h);
        if !ok {
          e[y, x] := 0;
        }
      }
      x := x + 1;
    }
  }

  /** The erosion loops over every pixel in scan order. */
  method ErodeScan2(src: array2<int>, e: array2<int>, ghost mask: seq<bool>, size: seq<nat>, h: int)
    requires MaskShape(mask, size) && Shaped2(src, size) && Shaped2(e, size) && src != e
    requires Holds2(src, mask, size) && Holds2(e, mask, size)
    modifies e
    ensures ErodedUpTo2(e, src, mask, size, h, size[1], 0)
  {
    var y := 0;
    while y < size[1]
      invariant 0 <= y <= size[1]
      invariant ErodedUpTo2(e, src, mask, size, h, y, 0)
    {
      ErodeRow2(src, e, mask, size, y, h);
      y := y + 1;
    }
  }

  /** On a grid holding the mask, the window test of the erosion loops is the erosion predicate. */
  lemma ErodedAtTwo(src: array2<int>, mask: seq<bool>, size: seq<nat>, h: int, x: nat, y: nat)
    requires MaskShape(mask, size) && Shaped2(src, size) && Holds2(src, mask, size)
    requires x < size[0] && y < size[1]
    ensures InBounds([x, y], size)
    ensures MaskAt(mask, size, [x, y]) && WindowSet2(src, x, y, h) <==> ErodedAt(mask, size, h, [x, y])
  {
    assert InBounds([x, y], size);
    if WindowSet2(src, x, y, h) {
      forall r: seq<int> | |r| == |size| && Near(r, [x, y], h)
        ensures SetInside(mask, size, r)
      {
        assert -h <= r[0] - x <= h && -h <= r[1] - y <= h;
        assert Cell2(src, r[1], r[0]);
        var c := Sampling.ClampAll(r, size);
        assert c == [r[0], r[1]];
      }
    }
    if ErodedAt(mask, size, h, [x, y]) {
      forall j, i | y - h <= j <= y + h && x - h <= i <= x + h
        ensures Cell2(src, j, i)
      {
        var r := [i, j];
        assert Near(r, [x, y], h);
        assert Sampling.ClampAll(r, size) == [i, j];
      }
    }
  }

  /** Once every pixel is scanned, the grid holds the erosion. */
  lemma ErodedIs2(e: array2<int>, src: array2<int>, mask: seq<bool>, size: seq<nat>, h: int)
    requires MaskShape(mask, size) && Shaped2(src, size) && Shaped2(e, size) && Holds2(src, mask, size)
    requires ErodedUpTo2(e, src, mask, size, h, size[1], 0)
    ensures Holds2(e, ErodeMask(mask, size, h), size)
  {
    var d := ErodeMask(mask, size, h);
    forall ny, nx | 0 <= ny < e.Length0 && 0 <= nx < e.Length1
      ensures e[ny, nx] == Indicator(MaskAt(d, size, [nx, ny]))
    {
      IndexOfTwo(nx, ny, size);
      OffsetOfTwo(nx, ny, size);
      ErodedAtTwo(src, mask, size, h, nx, ny);
    }
  }

  // ---------------------------------------------------------------------------
  // From a grid to an `Int8` image (GetImageFromArray)
  // ---------------------------------------------------------------------------

  /** One more flag of `Bytes01(m)`. */
  lemma Bytes01Prefix(m: seq<bool>, n: nat)
    requires n < |m|
    ensures Bytes01(m)[..n + 1] == Bytes01(m)[..n] + [if m[n] then 1 else 0]
  {
  }

  /** One grid row appended, each `int8` cell as its byte. */
  method FlattenRow2(a: array2<int>, ghost m: seq<bool>, size: seq<nat>, y: nat, flat: seq<byte>) returns (out: seq<byte>)
    requires MaskShape(m, size) && Shaped2(a, size) && Holds2(a, m, size) && y < size[1]
    requires y * size[0] + size[0] <= |m| && flat == Bytes01(m)[..y * size[0]]
    ensures out == Bytes01(m)[..y * size[0] + size[0]]
  {
    out := flat;
    var x := 0;
    while x < size[0]
      invariant 0 <= x <= size[0]
      invariant out == Bytes01(m)[..y * size[0] + x]
    {
      OffsetOfTwo(x, y, size);
      assert InBounds([x, y], size);
      Bytes01Prefix(m, y * size[0] + x);
      out := out + [a[y, x] as byte];
      x := x + 1;
    }
  }

  /** The grid's cells in row-major order, innermost index fastest, one byte per `int8`. */
  method Flatten2(a: array2<int>, ghost m: seq<bool>, size: seq<nat>) returns (flat: seq<byte>)
    requires MaskShape(m, size) && Shaped2(a, size) && Holds2(a, m, size)
    ensures flat == Bytes01(m)
  {
    var w := size[0];
    assert |m| == w * size[1] by {
      assert size[1..][1..] == [];
      assert Product(size[1..]) == size[1];
    }
    flat := [];
    var y, n := 0, 0;
    while y < size[1]
      invariant 0 <= y <= size[1] && n == y * w && n <= |m|
      invariant flat == Bytes01(m)[..n]
    {
      Arith.MulMonotone(y + 1, size[1], w);
      assert n + w == (y + 1) * w;
      flat := FlattenRow2(a, m, size, y, flat);
      y, n := y + 1, n + w;
    }
  }

  /** `GetImageFromArray` on a `[][]int8` grid: a fresh `Int8` image of the grid's extents holding its cells. */
  method FromGrid2(a: array2<int>, ghost m: seq<bool>, size: seq<nat>) returns (out: Images.Image)
    requires MaskShape(m, size) && Shaped2(a, size) && Holds2(a, m, size)
    ensures fresh(out) && fresh(out.pixels) && out.Valid() && out.HasGeometry()
    ensures out.size == size && out.pixelType == Int8
    ensures out.spacing == seq(2, _ => 1.0) && out.origin == seq(2, _ => 0.0)
    ensures out.direction == Images.IdentityDirection
    ensures out.pixels[..] == Bytes01(m)
  {
    var flat := Flatten2(a, m, size);
    assert [a.Length1, a.Length0] == size;
    var r := Images.NewImage([a.Length1, a.Length0], Code(Int8));
    assert r.Ok?;
    out := r.value;
    var s := out.SetPixels(Ok(flat));
    assert s.Success?;
  }

  // ---------------------------------------------------------------------------
  // The two-axis operations
  // ---------------------------------------------------------------------------

  /** The morphology result: an `Int8` image of the input's extents and geometry holding `Bytes01(m)`. */
  ghost predicate MorphResult(out: Images.Image, img: Images.Image, m: seq<bool>)
    reads out, out.pixels, img
  {
    out.Valid() && out.size == img.size && out.pixelType == Int8 && |m| == Product(img.size)
    && out.origin == Images.OriginAfterSet(img.origin, |img.size|)
    && out.spacing == Images.SpacingAfterSet(img.spacing, |img.size|)
    && out.direction == img.direction
    && Holds01(out.pixels[..], m)
  }

  /** The bytes hold 1 for each set flag and 0 for the others, stated flag by flag from the last. */
  ghost predicate Holds01(bs: seq<byte>, m: seq<bool>)
    decreases |m|
  {
    |bs| == |m| && (m == [] || (Holds01(bs[..|bs| - 1], m[..|m| - 1]) && bs[|bs| - 1] == if m[|m| - 1] then 1 else 0))
  }

  /** `Holds01` is holding exactly `Bytes01`. */
  lemma {:induction false} Holds01Bytes(bs: seq<byte>, m: seq<bool>)
    ensures Holds01(bs, m) <==> bs == Bytes01(m)
    decreases |m|
  {
    if |bs| == |m| && m != [] {
      var n := |m| - 1;
      Holds01Bytes(bs[..n], m[..n]);
      assert Bytes01(m) == Bytes01(m)[..n] + [Bytes01(m)[n]];
      assert Bytes01(m)[..n] == Bytes01(m[..n]);
      if bs == Bytes01(m) {
        assert bs[..n] == Bytes01(m)[..n];
      }
      if Holds01(bs, m) {
        assert bs == bs[..n] + [bs[n]];
      }
    }
  }

  /** The geometry copied from the input: origin, spacing and direction, each through its setter. */
  method CopyGeometry(out: Images.Image, img: Images.Image)
    requires out != img && out.Valid() && out.dimension == |img.size| && |img.direction| == 9
    requires out.spacing == seq(|img.size|, _ => 1.0) && out.origin == seq(|img.size|, _ => 0.0)
    modifies out`origin, out`spacing, out`direction
    ensures out.Valid()
    ensures out.origin == Images.OriginAfterSet(img.origin, |img.size|)
    ensures out.spacing == Images.SpacingAfterSet(img.spacing, |img.size|)
    ensures out.direction == img.direction
  {
    var _ := out.SetOrigin(img.origin);
    var _ := out.SetSpacing(img.spacing);
    out.SetDirection(img.direction);
  }

  /** `binaryDilate2D`. */
  method BinaryDilate2D(img: Images.Image, kernelSize: int, toInt8: Value -> int) returns (out: Images.Image)
    requires img.Valid() && img.dimension == 2
    ensures fresh(out) && fresh(out.pixels)
    ensures MorphResult(out, img, DilateMask(MaskOf(img, toInt8), img.size, Half(kernelSize)))
  {
    ghost var mask := MaskOf(img, toInt8);
    var w, h := img.size[0], img.size[1];
    var src := new int[h, w]((_, _) => 0);
    var expanded := new int[h, w]((_, _) => 0);
    Binarize2(img, toInt8, src, expanded, false);
    var lo, hi := Half(-kernelSize), Half(kernelSize);
    HalfOfNegation(kernelSize);
    DilateScan2(src, expanded, mask, img.size, lo, hi);
    out := FromGrid2(expanded, DilateMask(mask, img.size, hi), img.size);
    CopyGeometry(out, img);
    Holds01Bytes(out.pixels[..], DilateMask(mask, img.size, hi));
  }

  /** `binaryErode2D`. */
  method BinaryErode2D(img: Images.Image, kernelSize: int, toInt8: Value -> int) returns (out: Images.Image)
    requires img.Valid() && img.dimension == 2
    ensures fresh(out) && fresh(out.pixels)
    ensures MorphResult(out, img, ErodeMask(MaskOf(img, toInt8), img.size, Half(kernelSize)))
  {
    ghost var mask := MaskOf(img, toInt8);
    var w, h := img.size[0], img.size[1];
    var src := new int[h, w]((_, _) => 0);
    var eroded := new int[h, w]((_, _) => 0);
    Binarize2(img, toInt8, src, eroded, true);
    var halfKernel := Half(kernelSize);
    ErodeScan2(src, eroded, mask, img.size, halfKernel);
    ErodedIs2(eroded, src, mask, img.size, halfKernel);
    out := FromGrid2(eroded, ErodeMask(mask, img.size, halfKernel), img.size);
    CopyGeometry(out, img);
    Holds01Bytes(out.pixels[..], ErodeMask(mask, img.size, halfKernel));
  }

  // ---------------------------------------------------------------------------
  // Three-dimensional grids: `a[z, y, x]`, as Go's `[][][]int8`
  // ---------------------------------------------------------------------------

  /** The grid has one cell per pixel of a `size[0]` by `size[1]` by `size[2]` image. */
  predicate Shaped3(a: array3<int>, size: seq<nat>)
  {
    |size| == 3 && a.Length0 == size[2] && a.Length1 == size[1] && a.Length2 == size[0]
  }

  /** Cell `[z, y, x]` holds 1 when flag `[x, y, z]` of the mask is set and 0 otherwise. */
  ghost predicate Holds3(a: array3<int>, mask: seq<bool>, size: seq<nat>)
    requires MaskShape(mask, size) && Shaped3(a, size)
    reads a
  {
    forall z, y, x :: 0 <= z < a.Length0 && 0 <= y < a.Length1 && 0 <= x < a.Length2 ==>
      a[z, y, x] == Indicator(MaskAt(mask, size, [x, y, z]))
  }

  predicate AllZero3(a: array3<int>)
    reads a
  {
    forall z, y, x :: 0 <= z < a.Length0 && 0 <= y < a.Length1 && 0 <= x < a.Length2 ==> a[z, y, x] == 0
  }

  /** The extents of a three-axis image multiply out to its pixel count. */
  lemma ProductOfThree(size: seq<nat>)
    requires |size| == 3
    ensures Product(size) == size[2] * (size[0] * size[1])
  {
    assert size[1..][1..][1..] == [];
    assert Product(size[1..][1..]) == size[2];
    assert Product(size[1..]) == size[1] * size[2];
  }

  /** Pixel `[x, y, z]` of a three-axis image sits at linear offset `x + y * size[0] + z * size[0] * size[1]`, and back. */
  lemma IndexOfThree(x: nat, y: nat, z: nat, size: seq<nat>)
    requires |size| == 3 && Positive(size) && x < size[0] && y < size[1] && z < size[2]
    ensures x + y * size[0] + z * (size[0] * size[1]) < Product(size)
    ensures IndexOf(x + y * size[0] + z * (size[0] * size[1]), size) == [x, y, z]
  {
    assert InBounds([x, y, z], size);
    OffsetOfThree(x, y, z, size);
    OffsetBound([x, y, z], size);
    IndexOfOffset([x, y, z], size);
  }

  /** The binarisation loops of one row. */
  method BinarizeRow3(img: Images.Image, toInt8: Value -> int, src: array3<int>, also: array3<int>, copy: bool, z: nat, y: nat)
    requires img.Valid() && img.dimension == 3 && Shaped3(src, img.size) && Shaped3(also, img.size)
    requires src != also && z < img.size[2] && y < img.size[1]
    modifies src, also
    ensures forall nz, ny, nx :: 0 <= nz < src.Length0 && 0 <= ny < src.Length1 && 0 <= nx < src.Length2 ==>
      src[nz, ny, nx] == if nz == z && ny == y then Indicator(MaskAt(MaskOf(img, toInt8), img.size, [nx, ny, nz])) else old(src[nz, ny, nx])
    ensures forall nz, ny, nx :: 0 <= nz < also.Length0 && 0 <= ny < also.Length1 && 0 <= nx < also.Length2 ==>
      also[nz, ny, nx] == if copy && nz == z && ny == y && MaskAt(MaskOf(img, toInt8), img.size, [nx, ny, nz]) then 1 else old(also[nz, ny, nx])
  {
    ghost var mask := MaskOf(img, toInt8);
    var x := 0;
    while x < img.size[0]
      invariant 0 <= x <= img.size[0]
      invariant forall nz, ny, nx :: 0 <= nz < src.Length0 && 0 <= ny < src.Length1 && 0 <= nx < src.Length2 ==>
        src[nz, ny, nx] == if nz == z && ny == y && nx < x then Indicator(MaskAt(mask, img.size, [nx, ny, nz])) else old(src[nz, ny, nx])
      invariant forall nz, ny, nx :: 0 <= nz < also.Length0 && 0 <= ny < also.Length1 && 0 <= nx < also.Length2 ==>
        also[nz, ny, nx] == if copy && nz == z && ny == y && nx < x && MaskAt(mask, img.size, [nx, ny, nz]) then 1 else old(also[nz, ny, nx])
    {
      var on := PixelSet(img, toInt8, [x, y, z]);
      if on {
        src[z, y, x] := 1;
        if copy {
          also[z, y, x] := 1;
        }
      } else {
        src[z, y, x] := 0;
      }
      x := x + 1;
    }
  }

  /** The binarisation loops: `src[z][y][x]` is 1 when the pixel is set, and `also` gets the same 1s when asked. */
  method Binarize3(img: Images.Image, toInt8: Value -> int, src: array3<int>, also: array3<int>, copy: bool)
    requires img.Valid() && img.dimension == 3 && Shaped3(src, img.size) && Shaped3(also, img.size)
    requires src != also && AllZero3(also)
    modifies src, also
    ensures Holds3(src, MaskOf(img, toInt8), img.size)
    ensures copy ==> Holds3(also, MaskOf(img, toInt8), img.size)
    ensures !copy ==> AllZero3(also)
  {
    ghost var mask := MaskOf(img, toInt8);
    var z := 0;
    while z < img.size[2]
      invariant 0 <= z <= img.size[2]
      invariant forall nz, ny, nx :: 0 <= nz < src.Length0 && 0 <= ny < src.Length1 && 0 <= nx < src.Length2 && nz < z ==>
        src[nz, ny, nx] == Indicator(MaskAt(mask, img.size, [nx, ny, nz]))
      invariant forall nz, ny, nx :: 0 <= nz < also.Length0 && 0 <= ny < also.Length1 && 0 <= nx < also.Length2 ==>
        also[nz, ny, nx] == if copy && nz < z then Indicator(MaskAt(mask, img.size, [nx, ny, nz])) else 0
    {
      var y := 0;
      while y < img.size[1]
        invariant 0 <= y <= img.size[1]
        invariant forall nz, ny, nx :: 0 <= nz < src.Length0 && 0 <= ny < src.Length1 && 0 <= nx < src.Length2 && (nz < z || (nz == z && ny < y)) ==>
          src[nz, ny, nx] == Indicator(MaskAt(mask, img.size, [nx, ny, nz]))
        invariant forall nz, ny, nx :: 0 <= nz < also.Length0 && 0 <= ny < also.Length1 && 0 <= nx < also.Length2 ==>
          also[nz, ny, nx] == if copy && (nz < z || (nz == z && ny < y)) then Indicator(MaskAt(mask, img.size, [nx, ny, nz])) else 0
      {
        BinarizeRow3(img, toInt8, src, also, copy, z, y);
        y := y + 1;
      }
      z := z + 1;
    }
  }

  /** The innermost stamping loop: cells of line `[z + i, y + j]` within `[lo, hi]` of `x` become 1. */
  method StampLine3(a: array3<int>, x: int, y: int, z: int, i: int, j: int, lo: int, hi: int)
    modifies a
    ensures forall nz, ny, nx :: 0 <= nz < a.Length0 && 0 <= ny < a.Length1 && 0 <= nx < a.Length2 ==>
      a[nz, ny, nx] == if nz == z + i && ny == y + j && lo <= nx - x <= hi then 1 else old(a[nz, ny, nx])
  {
    var k := lo;
    while k <= hi
      invariant lo <= k && (k <= hi + 1 || k == lo)
      invariant forall nz, ny, nx :: 0 <= nz < a.Length0 && 0 <= ny < a.Length1 && 0 <= nx < a.Length2 ==>
        a[nz, ny, nx] == if nz == z + i && ny == y + j && lo <= nx - x < k then 1 else old(a[nz, ny, nx])
    {
      var newZ, newY, newX := z + i, y + j, x + k;
      if newZ >= 0 && newZ < a.Length0 && newY >= 0 && newY < a.Length1 && newX >= 0 && newX < a.Length2 {
        a[newZ, newY, newX] := 1;
      }
      k := k + 1;
    }
  }

  /** The middle stamping loop: one plane `z + i` of the window. */
  method StampPlane3(a: array3<int>, x: int, y: int, z: int, i: int, lo: int, hi: int)
    modifies a
    ensures forall nz, ny, nx :: 0 <= nz < a.Length0 && 0 <= ny < a.Length1 && 0 <= nx < a.Length2 ==>
      a[nz, ny, nx] == if nz == z + i && lo <= ny - y <= hi && lo <= nx - x <= hi then 1 else old(a[nz, ny, nx])
  {
    var j := lo;
    while j <= hi
      invariant lo <= j && (j <= hi + 1 || j == lo)
      invariant forall nz, ny, nx :: 0 <= nz < a.Length0 && 0 <= ny < a.Length1 && 0 <= nx < a.Length2 ==>
        a[nz, ny, nx] == if nz == z + i && lo <= ny - y < j && lo <= nx - x <= hi then 1 else old(a[nz, ny, nx])
    {
      StampLine3(a, x, y, z, i, j, lo, hi);
      j := j + 1;
    }
  }

  /** The cube stamped around a set pixel `[x, y, z]`, clipped at the borders. */
  method Stamp3(a: array3<int>, x: int, y: int, z: int, lo: int, hi: int)
    modifies a
    ensures forall nz, ny, nx :: 0 <= nz < a.Length0 && 0 <= ny < a.Length1 && 0 <= nx < a.Length2 ==>
      a[nz, ny, nx] == if lo <= nz - z <= hi && lo <= ny - y <= hi && lo <= nx - x <= hi then 1 else old(a[nz, ny, nx])
  {
    var i := lo;
    while i <= hi
      invariant lo <= i && (i <= hi + 1 || i == lo)
      invariant forall nz, ny, nx :: 0 <= nz < a.Length0 && 0 <= ny < a.Length1 && 0 <= nx < a.Length2 ==>
        a[nz, ny, nx] == if lo <= nz - z < i && lo <= ny - y <= hi && lo <= nx - x <= hi then 1 else old(a[nz, ny, nx])
    {
      StampPlane3(a, x, y, z, i, lo, hi);
      i := i + 1;
    }
  }

  /** Cell `[z, y, x]` holds 1 exactly when one of the first `n` pixels is set and within `h` of `[x, y, z]`. */
  ghost predicate Covered3(a: array3<int>, mask: seq<bool>, size: seq<nat>, h: int, n: nat)
    requires MaskShape(mask, size) && Shaped3(a, size) && n <= |mask|
    reads a
  {
    forall nz, ny, nx :: 0 <= nz < a.Length0 && 0 <= ny < a.Length1 && 0 <= nx < a.Length2 ==>
      a[nz, ny, nx] == Indicator(CoveredBy(mask, size, h, n, [nx, ny, nz]))
  }

  /** Scanning pixel `[x, y, z]`, at offset `n`, adds its cube to the coverage when it is set. */
  lemma CoveredByStep3(mask: seq<bool>, size: seq<nat>, h: int, x: nat, y: nat, z: nat, n: nat, nx: int, ny: int, nz: int)
    requires MaskShape(mask, size) && |size| == 3 && x < size[0] && y < size[1] && z < size[2]
    requires n == Offset([x, y, z], size)
    ensures n < |mask| && MaskAt(mask, size, [x, y, z]) == mask[n]
    ensures CoveredBy(mask, size, h, n + 1, [nx, ny, nz]) <==>
      CoveredBy(mask, size, h, n, [nx, ny, nz])
      || (mask[n] && -h <= nz - z <= h && -h <= ny - y <= h && -h <= nx - x <= h)
  {
    assert InBounds([x, y, z], size);
    OffsetBound([x, y, z], size);
    IndexOfOffset([x, y, z], size);
    assert Near([nx, ny, nz], [x, y, z], h) <==> -h <= nz - z <= h && -h <= ny - y <= h && -h <= nx - x <= h;
  }

  /** The innermost dilation loop: one row of pixels, starting at offset `row`, scanned. */
  method DilateRow3(src: array3<int>, a: array3<int>, ghost mask: seq<bool>, size: seq<nat>, y: nat, z: nat, ghost row: nat, lo: int, hi: int)
    requires MaskShape(mask, size) && Shaped3(src, size) && Shaped3(a, size) && src != a
    requires Holds3(src, mask, size) && lo == -hi && y < size[1] && z < size[2]
    requires row == y * size[0] + z * (size[0] * size[1]) && row + size[0] <= |mask|
    requires Covered3(a, mask, size, hi, row)
    modifies a
    ensures Covered3(a, mask, size, hi, row + size[0])
  {
    var x := 0;
    while x < size[0]
      invariant 0 <= x <= size[0]
      invariant Covered3(a, mask, size, hi, row + x)
    {
      ghost var n := row + x;
      OffsetOfThree(x, y, z, size);
      CoveredByStep3(mask, size, hi, x, y, z, n, 0, 0, 0);
      label before:
      if src[z, y, x] == 1 {
        Stamp3(a, x, y, z, lo, hi);
      }
      forall nz, ny, nx | 0 <= nz < a.Length0 && 0 <= ny < a.Length1 && 0 <= nx < a.Length2
        ensures a[nz, ny, nx] == Indicator(CoveredBy(mask, size, hi, n + 1, [nx, ny, nz]))
      {
        CoveredByStep3(mask, size, hi, x, y, z, n, nx, ny, nz);
        assert old@before(a[nz, ny, nx]) == Indicator(CoveredBy(mask, size, hi, n, [nx, ny, nz]));
      }
      x := x + 1;
    }
  }

  /** The middle dilation loop: one plane of pixels scanned. */
  method DilatePlane3(src: array3<int>, a: array3<int>, ghost mask: seq<bool>, size: seq<nat>, z: nat, lo: int, hi: int)
    requires MaskShape(mask, size) && Shaped3(src, size) && Shaped3(a, size) && src != a
    requires Holds3(src, mask, size) && lo == -hi && z < size[2]
    requires z * (size[0] * size[1]) + size[0] * size[1] <= |mask|
    requires Covered3(a, mask, size, hi, z * (size[0] * size[1]))
    modifies a
    ensures Covered3(a, mask, size, hi, z * (size[0] * size[1]) + size[0] * size[1])
  {
    var w, base := size[0], z * (size[0] * size[1]);
    var y, n := 0, base;
    while y < size[1]
      invariant 0 <= y <= size[1] && n == base + y * w
      invariant Holds3(src, mask, size)
      invariant Covered3(a, mask, size, hi, n)
    {
      Arith.MulMonotone(y + 1, size[1], w);
      assert n + w == base + (y + 1) * w;
      DilateRow3(src, a, mask, size, y, z, n, lo, hi);
      y, n := y + 1, n + w;
    }
    assert y * w == size[0] * size[1];
  }

  /** The dilation loops over every pixel in scan order, stamping a cube around each set one. */
  method DilateScan3(src: array3<int>, a: array3<int>, ghost mask: seq<bool>, size: seq<nat>, lo: int, hi: int)
    requires MaskShape(mask, size) && Shaped3(src, size) && Shaped3(a, size) && src != a
    requires Holds3(src, mask, size) && AllZero3(a) && lo == -hi
    modifies a
    ensures Holds3(a, DilateMask(mask, size, hi), size)
  {
    var plane := size[0] * size[1];
    ProductOfThree(size);
    assert Covered3(a, mask, size, hi, 0);
    var z, n := 0, 0;
    while z < size[2]
      invariant 0 <= z <= size[2] && n == z * plane && n <= |mask|
      invariant Holds3(src, mask, size)
      invariant Covered3(a, mask, size, hi, n)
    {
      Arith.MulMonotone(z + 1, size[2], plane);
      assert n + plane == (z + 1) * plane;
      DilatePlane3(src, a, mask, size, z, lo, hi);
      z, n := z + 1, n + plane;
    }
    assert n == |mask|;
    CoveredIsDilated3(a, mask, size, hi);
  }

  /** Once every pixel is scanned, coverage is the dilation. */
  lemma CoveredIsDilated3(a: array3<int>, mask: seq<bool>, size: seq<nat>, h: int)
    requires MaskShape(mask, size) && Shaped3(a, size) && Covered3(a, mask, size, h, |mask|)
    ensures Holds3(a, DilateMask(mask, size, h), size)
  {
    var d := DilateMask(mask, size, h);
    forall nz, ny, nx | 0 <= nz < a.Length0 && 0 <= ny < a.Length1 && 0 <= nx < a.Length2
      ensures a[nz, ny, nx] == Indicator(MaskAt(d, size, [nx, ny, nz]))
    {
      IndexOfThree(nx, ny, nz, size);
      OffsetOfThree(nx, ny, nz, size);
      CoveredByAll(mask, size, h, [nx, ny, nz]);
    }
  }

  /** Cell `[k, j, i]` is inside the grid and not 0. */
  predicate Cell3(src: array3<int>, k: int, j: int, i: int)
    reads src
  {
    0 <= k < src.Length0 && 0 <= j < src.Length1 && 0 <= i < src.Length2 && src[k, j, i] != 0
  }

  /** Every cell within `h` of `[x, y, z]` on all three axes is inside the grid and set. */
  ghost predicate WindowSet3(src: array3<int>, x: int, y: int, z: int, h: int)
    reads src
  {
    forall k, j, i :: z - h <= k <= z + h && y - h <= j <= y + h && x - h <= i <= x + h ==> Cell3(src, k, j, i)
  }

  /** The innermost erosion loop over one window line `[k, j]`, stopping at the first cell outside or 0. */
  method AllSetLine3(src: array3<int>, x: int, j: int, k: int, h: int) returns (ok: bool)
    ensures ok <==> forall i :: x - h <= i <= x + h ==> Cell3(src, k, j, i)
  {
    var dx := -h;
    while dx <= h
      invariant -h <= dx && (dx <= h + 1 || dx == -h)
      invariant forall i :: x - h <= i < x + dx ==> Cell3(src, k, j, i)
    {
      var newX := x + dx;
      if k < 0 || k >= src.Length0 || j < 0 || j >= src.Length1 || newX < 0 || newX >= src.Length2 || src[k, j, newX] == 0 {
        assert !Cell3(src, k, j, newX);
        return false;
      }
      dx := dx + 1;
    }
    return true;
  }

  /** The middle erosion loop over one window plane `k`. */
  method AllSetPlane3(src: array3<int>, x: int, y: int, k: int, h: int) returns (ok: bool)
    ensures ok <==> forall j, i :: y - h <= j <= y + h && x - h <= i <= x + h ==> Cell3(src, k, j, i)
  {
    var dy := -h;
    while dy <= h
      invariant -h <= dy && (dy <= h + 1 || dy == -h)
      invariant forall j, i :: y - h <= j < y + dy && x - h <= i <= x + h ==> Cell3(src, k, j, i)
    {
      var line := AllSetLine3(src, x, y + dy, k, h);
      if !line {
        return false;
      }
      dy := dy + 1;
    }
    return true;
  }

  /** The window loops of one set pixel; the early `false` is the jump to the next pixel. */
  method AllSet3(src: array3<int>, x: int, y: int, z: int, h: int) returns (ok: bool)
    ensures ok <==> WindowSet3(src, x, y, z, h)
  {
    var dz := -h;
    while dz <= h
      invariant -h <= dz && (dz <= h + 1 || dz == -h)
      invariant forall k, j, i :: z - h <= k < z + dz && y - h <= j <= y + h && x - h <= i <= x + h ==> Cell3(src, k, j, i)
    {
      var plane := AllSetPlane3(src, x, y, z + dz, h);
      if !plane {
        return false;
      }
      dz := dz + 1;
    }
    return true;
  }

  /** Pixel `[nx, ny, nz]` comes before `[x, y, z]` in scan order. */
  predicate Before3(nz: int, ny: int, nx: int, z: int, y: int, x: int)
  {
    nz < z || (nz == z && (ny < y || (ny == y && nx < x)))
  }

  /** The erosion output of the scan so far: scanned set pixels stay set exactly when their whole window is. */
  ghost predicate ErodedUpTo3(e: array3<int>, src: array3<int>, mask: seq<bool>, size: seq<nat>, h: int, z: int, y: int, x: int)
    requires MaskShape(mask, size) && Shaped3(e, size)
    reads e, src
  {
    forall nz, ny, nx :: 0 <= nz < e.Length0 && 0 <= ny < e.Length1 && 0 <= nx < e.Length2 ==>
      e[nz, ny, nx] == Indicator(MaskAt(mask, size, [nx, ny, nz]) && (Before3(nz, ny, nx, z, y, x) ==> WindowSet3(src, nx, ny, nz, h)))
  }

  /** The innermost erosion scan loop: one row of pixels. */
  method ErodeRow3(src: array3<int>, e: array3<int>, ghost mask: seq<bool>, size: seq<nat>, y: nat, z: nat, h: int)
    requires MaskShape(mask, size) && Shaped3(src, size) && Shaped3(e, size) && src != e
    requires Holds3(src, mask, size) && y < size[1] && z < size[2] && ErodedUpTo3(e, src, mask, size, h, z, y, 0)
    modifies e
    ensures ErodedUpTo3(e, src, mask, size, h, z, y + 1, 0)
  {
    var x := 0;
    while x < size[0]
      invariant 0 <= x <= size[0]
      invariant ErodedUpTo3(e, src, mask, size, h, z, y, x)
    {
      assert src[z, y, x] == Indicator(MaskAt(mask, size, [x, y, z]));
      if src[z, y, x] == 1 {
        var ok := AllSet3(src, x, y, z, h);
        if !ok {
          e[z, y, x] := 0;
        }
      }
      x := x + 1;
    }
  }

  /** The middle erosion scan loop: one plane of pixels. */
  method ErodePlane3(src: array3<int>, e: array3<int>, ghost mask: seq<bool>, size: seq<nat>, z: nat, h: int)
    requires MaskShape(mask, size) && Shaped3(src, size) && Shaped3(e, size) && src != e
    requires Holds3(src, mask, size) && z < size[2] && ErodedUpTo3(e, src, mask, size, h, z, 0, 0)
    modifies e
    ensures ErodedUpTo3(e, src, mask, size, h, z + 1, 0, 0)
  {
    var y := 0;
    while y < size[1]
      invariant 0 <= y <= size[1]
      invariant ErodedUpTo3(e, src, mask, size, h, z, y, 0)
    {
      ErodeRow3(src, e, mask, size, y, z, h);
      y := y + 1;
    }
  }

  /** The erosion loops over every pixel in scan order. */
  method ErodeScan3(src: array3<int>, e: array3<int>, ghost mask: seq<bool>, size: seq<nat>, h: int)
    requires MaskShape(mask, size) && Shaped3(src, size) && Shaped3(e, size) && src != e
    requires Holds3(src, mask, size) && Holds3(e, mask, size)
    modifies e
    ensures ErodedUpTo3(e, src, mask, size, h, size[2], 0, 0)
  {
    var z := 0;
    while z < size[2]
      invariant 0 <= z <= size[2]
      invariant ErodedUpTo3(e, src, mask, size, h, z, 0, 0)
    {
      ErodePlane3(src, e, mask, size, z, h);
      z := z + 1;
    }
  }

  /** On a grid holding the mask, the window test of the erosion loops is the erosion predicate. */
  lemma ErodedAtThree(src: array3<int>, mask: seq<bool>, size: seq<nat>, h: int, x: nat, y: nat, z: nat)
    requires MaskShape(mask, size) && Shaped3(src, size) && Holds3(src, mask, size)
    requires x < size[0] && y < size[1] && z < size[2]
    ensures InBounds([x, y, z], size)
    ensures MaskAt(mask, size, [x, y, z]) && WindowSet3(src, x, y, z, h) <==> ErodedAt(mask, size, h, [x, y, z])
  {
    assert InBounds([x, y, z], size);
    if WindowSet3(src, x, y, z, h) {
      forall r: seq<int> | |r| == |size| && Near(r, [x, y, z], h)
        ensures SetInside(mask, size, r)
      {
        assert -h <= r[0] - x <= h && -h <= r[1] - y <= h && -h <= r[2] - z <= h;
        assert Cell3(src, r[2], r[1], r[0]);
        var c := Sampling.ClampAll(r, size);
        assert c == [r[0], r[1], r[2]];
      }
    }
    if ErodedAt(mask, size, h, [x, y, z]) {
      forall k, j, i | z - h <= k <= z + h && y - h <= j <= y + h && x - h <= i <= x + h
        ensures Cell3(src, k, j, i)
      {
        var r := [i, j, k];
        assert Near(r, [x, y, z], h);
        assert Sampling.ClampAll(r, size) == [i, j, k];
      }
    }
  }

  /** Once every pixel is scanned, the grid holds the erosion. */
  lemma ErodedIs3(e: array3<int>, src: array3<int>, mask: seq<bool>, size: seq<nat>, h: int)
    requires MaskShape(mask, size) && Shaped3(src, size) && Shaped3(e, size) && Holds3(src, mask, size)
    requires ErodedUpTo3(e, src, mask, size, h, size[2], 0, 0)
    ensures Holds3(e, ErodeMask(mask, size, h), size)
  {
    var d := ErodeMask(mask, size, h);
    forall nz, ny, nx | 0 <= nz < e.Length0 && 0 <= ny < e.Length1 && 0 <= nx < e.Length2
      ensures e[nz, ny, nx] == Indicator(MaskAt(d, size, [nx, ny, nz]))
    {
      IndexOfThree(nx, ny, nz, size);
      OffsetOfThree(nx, ny, nz, size);
      ErodedAtThree(src, mask, size, h, nx, ny, nz);
    }
  }

  /** One grid row appended, each `int8` cell as its byte. */
  method FlattenRow3(a: array3<int>, ghost m: seq<bool>, size: seq<nat>, y: nat, z: nat, ghost row: nat, flat: seq<byte>) returns (out: seq<byte>)
    requires MaskShape(m, size) && Shaped3(a, size) && Holds3(a, m, size) && y < size[1] && z < size[2]
    requires row == y * size[0] + z * (size[0] * size[1]) && row + size[0] <= |m| && flat == Bytes01(m)[..row]
    ensures out == Bytes01(m)[..row + size[0]]
  {
    out := flat;
    var x := 0;
    while x < size[0]
      invariant 0 <= x <= size[0]
      invariant out == Bytes01(m)[..row + x]
    {
      OffsetOfThree(x, y, z, size);
      assert InBounds([x, y, z], size);
      Bytes01Prefix(m, row + x);
      out := out + [a[z, y, x] as byte];
      x := x + 1;
    }
  }

  /** One grid plane appended. */
  method FlattenPlane3(a: array3<int>, ghost m: seq<bool>, size: seq<nat>, z: nat, flat: seq<byte>) returns (out: seq<byte>)
    requires MaskShape(m, size) && Shaped3(a, size) && Holds3(a, m, size) && z < size[2]
    requires z * (size[0] * size[1]) + size[0] * size[1] <= |m| && flat == Bytes01(m)[..z * (size[0] * size[1])]
    ensures out == Bytes01(m)[..z * (size[0] * size[1]) + size[0] * size[1]]
  {
    var w, base := size[0], z * (size[0] * size[1]);
    out := flat;
    var y, n := 0, base;
    while y < size[1]
      invariant 0 <= y <= size[1] && n == base + y * w
      invariant out == Bytes01(m)[..n]
    {
      Arith.MulMonotone(y + 1, size[1], w);
      assert n + w == base + (y + 1) * w;
      out := FlattenRow3(a, m, size, y, z, n, out);
      y, n := y + 1, n + w;
    }
    assert y * w == size[0] * size[1];
  }

  /** The grid's cells in row-major order, innermost index fastest, one byte per `int8`. */
  method Flatten3(a: array3<int>, ghost m: seq<bool>, size: seq<nat>) returns (flat: seq<byte>)
    requires MaskShape(m, size) && Shaped3(a, size) && Holds3(a, m, size)
    ensures flat == Bytes01(m)
  {
    var plane := size[0] * size[1];
    ProductOfThree(size);
    flat := [];
    var z, n := 0, 0;
    while z < size[2]
      invariant 0 <= z <= size[2] && n == z * plane && n <= |m|
      invariant flat == Bytes01(m)[..n]
    {
      Arith.MulMonotone(z + 1, size[2], plane);
      assert n + plane == (z + 1) * plane;
      flat := FlattenPlane3(a, m, size, z, flat);
      z, n := z + 1, n + plane;
    }
    assert n == |m|;
  }

  /** `GetImageFromArray` on a `[][][]int8` grid: a fresh `Int8` image of the grid's extents holding its cells. */
  method FromGrid3(a: array3<int>, ghost m: seq<bool>, size: seq<nat>) returns (out: Images.Image)
    requires MaskShape(m, size) && Shaped3(a, size) && Holds3(a, m, size)
    ensures fresh(out) && fresh(out.pixels) && out.Valid() && out.HasGeometry()
    ensures out.size == size && out.pixelType == Int8
    ensures out.spacing == seq(3, _ => 1.0) && out.origin == seq(3, _ => 0.0)
    ensures out.direction == Images.IdentityDirection
    ensures out.pixels[..] == Bytes01(m)
  {
    var flat := Flatten3(a, m, size);
    assert [a.Length2, a.Length1, a.Length0] == size;
    var r := Images.NewImage([a.Length2, a.Length1, a.Length0], Code(Int8));
    assert r.Ok?;
    out := r.value;
    var s := out.SetPixels(Ok(flat));
    assert s.Success?;
  }

  // ---------------------------------------------------------------------------
  // The three-axis operations (the per-plane goroutines run one after another)
  // ---------------------------------------------------------------------------

  /** `binaryDilate3D`. */
  method BinaryDilate3D(img: Images.Image, kernelSize: int, toInt8: Value -> int) returns (out: Images.Image)
    requires img.Valid() && img.dimension == 3
    ensures fresh(out) && fresh(out.pixels)
    ensures MorphResult(out, img, DilateMask(MaskOf(img, toInt8), img.size, Half(kernelSize)))
  {
    ghost var mask := MaskOf(img, toInt8);
    var w, h, d := img.size[0], img.size[1], img.size[2];
    var src := new int[d, h, w]((_, _, _) => 0);
    var expanded := new int[d, h, w]((_, _, _) => 0);
    Binarize3(img, toInt8, src, expanded, false);
    var lo, hi := Half(-kernelSize), Half(kernelSize);
    HalfOfNegation(kernelSize);
    DilateScan3(src, expanded, mask, img.size, lo, hi);
    out := FromGrid3(expanded, DilateMask(mask, img.size, hi), img.size);
    CopyGeometry(out, img);
    Holds01Bytes(out.pixels[..], DilateMask(mask, img.size, hi));
  }

  /** `binaryErode3D`. */
  method BinaryErode3D(img: Images.Image, kernelSize: int, toInt8: Value -> int) returns (out: Images.Image)
    requires img.Valid() && img.dimension == 3
    ensures fresh(out) && fresh(out.pixels)
    ensures MorphResult(out, img, ErodeMask(MaskOf(img, toInt8), img.size, Half(kernelSize)))
  {
    ghost var mask := MaskOf(img, toInt8);
    var w, h, d := img.size[0], img.size[1], img.size[2];
    var src := new int[d, h, w]((_, _, _) => 0);
    var eroded := new int[d, h, w]((_, _, _) => 0);
    Binarize3(img, toInt8, src, eroded, true);
    var halfKernel := Half(kernelSize);
    ErodeScan3(src, eroded, mask, img.size, halfKernel);
    ErodedIs3(eroded, src, mask, img.size, halfKernel);
    out := FromGrid3(eroded, ErodeMask(mask, img.size, halfKernel), img.size);
    CopyGeometry(out, img);
    Holds01Bytes(out.pixels[..], ErodeMask(mask, img.size, halfKernel));
  }

  // ---------------------------------------------------------------------------
  // Dispatch and composition
  // ---------------------------------------------------------------------------

  /** `BinaryDilate`: the two- or three-axis dilation, and `nil` for any other dimension. */
  method BinaryDilate(img: Images.Image, kernelSize: int, toInt8: Value -> int) returns (r: Option<Images.Image>)
    requires img.Valid()
    ensures r.Some? <==> img.dimension == 2 || img.dimension == 3
    ensures r.Some? ==> fresh(r.value) && fresh(r.value.pixels)
    ensures r.Some? ==> MorphResult(r.value, img, DilateMask(MaskOf(img, toInt8), img.size, Half(kernelSize)))
  {
    if img.dimension == 2 {
      var out := BinaryDilate2D(img, kernelSize, toInt8);
      r := Some(out);
    } else if img.dimension == 3 {
      var out := BinaryDilate3D(img, kernelSize, toInt8);
      r := Some(out);
    } else {
      r := None;
    }
  }

  /** `BinaryErode`: the two- or three-axis erosion, and `nil` for any other dimension. */
  method BinaryErode(img: Images.Image, kernelSize: int, toInt8: Value -> int) returns (r: Option<Images.Image>)
    requires img.Valid()
    ensures r.Some? <==> img.dimension == 2 || img.dimension == 3
    ensures r.Some? ==> fresh(r.value) && fresh(r.value.pixels)
    ensures r.Some? ==> MorphResult(r.value, img, ErodeMask(MaskOf(img, toInt8), img.size, Half(kernelSize)))
  {
    if img.dimension == 2 {
      var out := BinaryErode2D(img, kernelSize, toInt8);
      r := Some(out);
    } else if img.dimension == 3 {
      var out := BinaryErode3D(img, kernelSize, toInt8);
      r := Some(out);
    } else {
      r := None;
    }
  }

  /** `n` dilations in a row. */
  ghost function DilateN(m: seq<bool>, size: seq<nat>, h: int, n: nat): (r: seq<bool>)
    requires MaskShape(m, size)
    ensures |r| == |m|
  {
    if n == 0 then m else DilateMask(DilateN(m, size, h, n - 1), size, h)
  }

  /** `n` erosions in a row. */
  ghost function ErodeN(m: seq<bool>, size: seq<nat>, h: int, n: nat): (r: seq<bool>)
    requires MaskShape(m, size)
    ensures |r| == |m|
  {
    if n == 0 then m else ErodeMask(ErodeN(m, size, h, n - 1), size, h)
  }

  /** The `int8` conversion leaves the `Int8` values 0 and 1 as they are. */
  predicate KeepsZeroOne(toInt8: Value -> int)
  {
    toInt8(IntValue(0)) == 0 && toInt8(IntValue(1)) == 1
  }

  /** Binarising a 0/1 `Int8` buffer gives back its flags. */
  lemma MaskOfBytes01(m: seq<bool>, toInt8: Value -> int)
    requires KeepsZeroOne(toInt8)
    ensures MaskOfBytes(Int8, Bytes01(m), |m|, toInt8) == m
  {
    var bs := Bytes01(m);
    forall p | 0 <= p < |m|
      ensures MaskOfBytes(Int8, bs, |m|, toInt8)[p] == m[p]
    {
      assert BytesPerPixel(Int8) == 1;
      var pb := Images.PixelBytes(bs, p, 1);
      assert pb == [bs[p]];
      assert pb[1..] == [];
      assert Unsigned(pb) == bs[p];
      assert Pow256(1) == 256;
      assert Decode(Int8, pb) == IntValue(if m[p] then 1 else 0);
    }
  }

  /** Re-applying a setter's fallback to what it produced changes nothing. */
  lemma GeometryAfterSetIdempotent(s: seq<real>, o: seq<real>, d: nat)
    ensures Images.SpacingAfterSet(Images.SpacingAfterSet(s, d), d) == Images.SpacingAfterSet(s, d)
    ensures Images.OriginAfterSet(Images.OriginAfterSet(o, d), d) == Images.OriginAfterSet(o, d)
  {
  }

  /** A morphology result fed to the next step: its mask is the flags it holds, and its geometry passes through. */
  lemma ChainStep(out: Images.Image, img: Images.Image, m: seq<bool>, toInt8: Value -> int)
    requires img.Valid() && MorphResult(out, img, m) && KeepsZeroOne(toInt8)
    ensures MaskOf(out, toInt8) == m
    ensures Images.OriginAfterSet(out.origin, |out.size|) == Images.OriginAfterSet(img.origin, |img.size|)
    ensures Images.SpacingAfterSet(out.spacing, |out.size|) == Images.SpacingAfterSet(img.spacing, |img.size|)
  {
    assert |m| == Product(img.size);
    MaskOfBytes01(m, toInt8);
    Holds01Bytes(out.pixels[..], m);
    GeometryAfterSetIdempotent(img.spacing, img.origin, |img.size|);
  }

  /** A step applied to a morphology result of `img` is again a morphology result of `img`. */
  lemma ChainResult(next: Images.Image, out: Images.Image, img: Images.Image, m: seq<bool>, m2: seq<bool>, toInt8: Value -> int)
    requires img.Valid() && KeepsZeroOne(toInt8) && MorphResult(out, img, m) && MorphResult(next, out, m2)
    ensures MorphResult(next, img, m2)
  {
    ChainStep(out, img, m, toInt8);
  }

  /** One more dilation of a chained result. */
  lemma DilateStepResult(next: Images.Image, out: Images.Image, img: Images.Image, cur: seq<bool>, h: int, toInt8: Value -> int)
    requires img.Valid() && KeepsZeroOne(toInt8) && MorphResult(out, img, cur)
    requires out.Valid() && MorphResult(next, out, DilateMask(MaskOf(out, toInt8), out.size, h))
    ensures MorphResult(next, img, DilateMask(cur, img.size, h))
  {
    ChainStep(out, img, cur, toInt8);
    ChainResult(next, out, img, cur, DilateMask(cur, img.size, h), toInt8);
  }

  /** One more erosion of a chained result. */
  lemma ErodeStepResult(next: Images.Image, out: Images.Image, img: Images.Image, cur: seq<bool>, h: int, toInt8: Value -> int)
    requires img.Valid() && KeepsZeroOne(toInt8) && MorphResult(out, img, cur)
    requires out.Valid() && MorphResult(next, out, ErodeMask(MaskOf(out, toInt8), out.size, h))
    ensures MorphResult(next, img, ErodeMask(cur, img.size, h))
  {
    ChainStep(out, img, cur, toInt8);
    ChainResult(next, out, img, cur, ErodeMask(cur, img.size, h), toInt8);
  }

  /** One iteration of the second loop: one more dilation of the previous output. */
  method DilateAgain(out: Images.Image, img: Images.Image, ghost cur: seq<bool>, kernelSize: int, toInt8: Value -> int)
    returns (next: Images.Image)
    requires img.Valid() && (img.dimension == 2 || img.dimension == 3)
    requires KeepsZeroOne(toInt8) && MorphResult(out, img, cur)
    ensures fresh(next)
    ensures MorphResult(next, img, DilateMask(cur, img.size, Half(kernelSize)))
  {
    var r := BinaryDilate(out, kernelSize, toInt8);
    DilateStepResult(r.value, out, img, cur, Half(kernelSize), toInt8);
    next := r.value;
  }

  /** One iteration of the second loop: one more erosion of the previous output. */
  method ErodeAgain(out: Images.Image, img: Images.Image, ghost cur: seq<bool>, kernelSize: int, toInt8: Value -> int)
    returns (next: Images.Image)
    requires img.Valid() && (img.dimension == 2 || img.dimension == 3)
    requires KeepsZeroOne(toInt8) && MorphResult(out, img, cur)
    ensures fresh(next)
    ensures MorphResult(next, img, ErodeMask(cur, img.size, Half(kernelSize)))
  {
    var r := BinaryErode(out, kernelSize, toInt8);
    ErodeStepResult(r.value, out, img, cur, Half(kernelSize), toInt8);
    next := r.value;
  }

  /** The second loop of OPEN: `n` dilations, each of the previous output. */
  method DilateRepeat(first: Images.Image, img: Images.Image, ghost m: seq<bool>, kernelSize: int, n: int, toInt8: Value -> int)
    returns (out: Images.Image)
    requires img.Valid() && (img.dimension == 2 || img.dimension == 3)
    requires KeepsZeroOne(toInt8) && MorphResult(first, img, m) && n >= 1
    ensures fresh(out)
    ensures MorphResult(out, img, DilateN(m, img.size, Half(kernelSize), n))
  {
    out := first;
    var i := 0;
    while i < n
      invariant 0 <= i <= n
      invariant i >= 1 ==> fresh(out)
      invariant MorphResult(out, img, DilateN(m, img.size, Half(kernelSize), i))
    {
      out := DilateAgain(out, img, DilateN(m, img.size, Half(kernelSize), i), kernelSize, toInt8);
      i := i + 1;
    }
  }

  /** The second loop of CLOSE: `n` erosions, each of the previous output. */
  method ErodeRepeat(first: Images.Image, img: Images.Image, ghost m: seq<bool>, kernelSize: int, n: int, toInt8: Value -> int)
    returns (out: Images.Image)
    requires img.Valid() && (img.dimension == 2 || img.dimension == 3)
    requires KeepsZeroOne(toInt8) && MorphResult(first, img, m) && n >= 1
    ensures fresh(out)
    ensures MorphResult(out, img, ErodeN(m, img.size, Half(kernelSize), n))
  {
    out := first;
    var i := 0;
    while i < n
      invariant 0 <= i <= n
      invariant i >= 1 ==> fresh(out)
      invariant MorphResult(out, img, ErodeN(m, img.size, Half(kernelSize), i))
    {
      out := ErodeAgain(out, img, ErodeN(m, img.size, Half(kernelSize), i), kernelSize, toInt8);
      i := i + 1;
    }
  }

  /**
   * `Morphology`: OPEN erodes the input `iterations` times (each time from the input itself) and then
   * dilates the result `iterations` times; CLOSE dilates and then erodes. `iterations <= 0` or an unknown
   * operation gives `nil`.
   */
  method Morphology(img: Images.Image, operation: int, kernelSize: int, iterations: int, toInt8: Value -> int)
    returns (r: Option<Images.Image>)
    requires img.Valid() && KeepsZeroOne(toInt8)
    requires iterations >= 1 && (operation == MorphOpen || operation == MorphClose) ==> img.dimension == 2 || img.dimension == 3
    ensures r.Some? <==> iterations >= 1 && (operation == MorphOpen || operation == MorphClose)
    ensures r.Some? ==> fresh(r.value)
    ensures r.Some? && operation == MorphOpen ==> MorphResult(r.value, img,
      DilateN(ErodeMask(MaskOf(img, toInt8), img.size, Half(kernelSize)), img.size, Half(kernelSize), iterations))
    ensures r.Some? && operation == MorphClose ==> MorphResult(r.value, img,
      ErodeN(DilateMask(MaskOf(img, toInt8), img.size, Half(kernelSize)), img.size, Half(kernelSize), iterations))
  {
    ghost var mask := MaskOf(img, toInt8);
    var output: Option<Images.Image> := None;
    if operation == MorphOpen || operation == MorphClose {
      var i := 0;
      while i < iterations
        invariant 0 <= i && (i <= iterations || i == 0)
        invariant i == 0 ==> output.None?
        invariant i > 0 ==> output.Some? && fresh(output.value)
        invariant i > 0 && operation == MorphOpen ==> MorphResult(output.value, img, ErodeMask(mask, img.size, Half(kernelSize)))
        invariant i > 0 && operation == MorphClose ==> MorphResult(output.value, img, DilateMask(mask, img.size, Half(kernelSize)))
      {
        if operation == MorphOpen {
          output := BinaryErode(img, kernelSize, toInt8);
        } else {
          output := BinaryDilate(img, kernelSize, toInt8);
        }
        i := i + 1;
      }
      if iterations >= 1 {
        var out;
        if operation == MorphOpen {
          out := DilateRepeat(output.value, img, ErodeMask(mask, img.size, Half(kernelSize)), kernelSize, iterations, toInt8);
        } else {
          out := ErodeRepeat(output.value, img, DilateMask(mask, img.size, Half(kernelSize)), kernelSize, iterations, toInt8);
        }
        output := Some(out);
      }
    }
    r := output;
  }

  // ---------------------------------------------------------------------------
  // Properties of dilation and erosion
  // ---------------------------------------------------------------------------

  /** With `kernelSize >= 0` the window holds its own centre, so dilation never clears a set pixel. */
  lemma DilateKeepsSet(mask: seq<bool>, size: seq<nat>, h: int, p: nat)
    requires MaskShape(mask, size) && p < |mask| && h >= 0 && mask[p]
    ensures DilateMask(mask, size, h)[p]
  {
    assert Near(IndexOf(p, size), IndexOf(p, size), h);
  }

  /** Erosion never sets a cleared pixel. */
  lemma ErodeKeepsClear(mask: seq<bool>, size: seq<nat>, h: int, p: nat)
    requires MaskShape(mask, size) && p < |mask| && !mask[p]
    ensures !ErodeMask(mask, size, h)[p]
  {
    IndexOfInBounds(p, size);
    OffsetOfIndexOf(p, size);
  }

  /** A pixel closer than `h` to the border along some axis `j` always erodes. */
  lemma ErodeClearsBorder(mask: seq<bool>, size: seq<nat>, h: int, p: nat, j: nat)
    requires MaskShape(mask, size) && p < |mask| && j < |size|
    requires IndexOf(p, size)[j] < h || IndexOf(p, size)[j] + h >= size[j]
    ensures !ErodeMask(mask, size, h)[p]
  {
    var idx := IndexOf(p, size);
    IndexOfInBounds(p, size);
    var step := if idx[j] < h then -h else h;
    var r: seq<int> := idx[j := idx[j] + step];
    assert Near(r, idx, h);
    assert !Sampling.Inside(r, size);
  }

  /** The mask with the single pixel `c` set. */
  ghost function Point(size: seq<nat>, c: seq<nat>): (m: seq<bool>)
    requires Positive(size)
    ensures |m| == Product(size)
  {
    seq(Product(size), p requires 0 <= p < Product(size) => IndexOf(p, size) == c)
  }

  /** The mask of the square (or cube) of half-width `h` around `c`, clipped at the borders. */
  ghost function Window(size: seq<nat>, c: seq<nat>, h: int): (m: seq<bool>)
    requires Positive(size) && |c| == |size|
    ensures |m| == Product(size)
  {
    seq(Product(size), p requires 0 <= p < Product(size) => Near(IndexOf(p, size), c, h))
  }

  lemma PointAt(size: seq<nat>, c: seq<nat>, index: seq<nat>)
    requires Positive(size) && InBounds(index, size)
    ensures MaskAt(Point(size, c), size, index) <==> index == c
  {
    OffsetBound(index, size);
    IndexOfOffset(index, size);
  }

  lemma WindowAt(size: seq<nat>, c: seq<nat>, h: int, index: seq<nat>)
    requires Positive(size) && |c| == |size| && InBounds(index, size)
    ensures MaskAt(Window(size, c, h), size, index) <==> Near(index, c, h)
  {
    OffsetBound(index, size);
    IndexOfOffset(index, size);
  }

  /** Dilating a single point gives the window around it (one point with `k = 3` becomes a 3x3 block). */
  lemma DilateOfPoint(size: seq<nat>, c: seq<nat>, h: int)
    requires Positive(size) && InBounds(c, size)
    ensures DilateMask(Point(size, c), size, h) == Window(size, c, h)
  {
    var pt := Point(size, c);
    forall p | 0 <= p < Product(size)
      ensures DilateMask(pt, size, h)[p] == Window(size, c, h)[p]
    {
      var q := Offset(c, size);
      OffsetBound(c, size);
      IndexOfOffset(c, size);
      if DilatedAt(pt, size, h, IndexOf(p, size)) {
        var q' :| 0 <= q' < |pt| && pt[q'] && Near(IndexOf(p, size), IndexOf(q', size), h);
      } else {
        assert !(pt[q] && Near(IndexOf(p, size), IndexOf(q, size), h));
      }
    }
  }

  /** The window fits inside the image with a margin of `h` on every side. */
  predicate WindowInside(size: seq<nat>, c: seq<nat>, h: int)
    requires |c| == |size|
  {
    forall j :: 0 <= j < |size| ==> h <= c[j] && c[j] + h < size[j]
  }

  /** Eroding a window that fits inside the image leaves only its centre (a 3x3 square becomes its centre). */
  lemma ErodeOfWindow(size: seq<nat>, c: seq<nat>, h: int)
    requires Positive(size) && InBounds(c, size) && h >= 0 && WindowInside(size, c, h)
    ensures ErodeMask(Window(size, c, h), size, h) == Point(size, c)
  {
    var w := Window(size, c, h);
    forall p | 0 <= p < Product(size)
      ensures ErodeMask(w, size, h)[p] == Point(size, c)[p]
    {
      var idx := IndexOf(p, size);
      IndexOfInBounds(p, size);
      WindowAt(size, c, h, idx);
      if idx == c {
        forall r: seq<int> | |r| == |size| && Near(r, idx, h)
          ensures SetInside(w, size, r)
        {
          var cl := Sampling.ClampAll(r, size);
          assert cl == r;
          WindowAt(size, c, h, cl);
        }
      } else if Near(idx, c, h) {
        var j :| 0 <= j < |size| && idx[j] != c[j];
        var r: seq<int> := idx[j := if idx[j] > c[j] then idx[j] + h else idx[j] - h];
        assert Near(r, idx, h);
        if Sampling.Inside(r, size) {
          var cl := Sampling.ClampAll(r, size);
          assert cl == r;
          WindowAt(size, c, h, cl);
          assert !Near(cl, c, h);
        }
        assert !SetInside(w, size, r);
      }
    }
  }

  /** Closing a single point gives the point back. */
  lemma CloseOfPoint(size: seq<nat>, c: seq<nat>, h: int)
    requires Positive(size) && InBounds(c, size) && h >= 0 && WindowInside(size, c, h)
    ensures ErodeN(DilateMask(Point(size, c), size, h), size, h, 1) == Point(size, c)
  {
    DilateOfPoint(size, c, h);
    ErodeOfWindow(size, c, h);
  }

  /** Opening a window that fits inside the image gives the window back. */
  lemma OpenOfWindow(size: seq<nat>, c: seq<nat>, h: int)
    requires Positive(size) && InBounds(c, size) && h >= 0 && WindowInside(size, c, h)
    ensures DilateN(ErodeMask(Window(size, c, h), size, h), size, h, 1) == Window(size, c, h)
  {
    ErodeOfWindow(size, c, h);
    DilateOfPoint(size, c, h);
  }

  /** The 5x5 test grids with `kernelSize = 3`: cell `[x, y]` of the block around `[2, 2]` is set for `1 <= x, y <= 3`. */
  lemma FiveByFiveExamples()
    ensures Half(3) == 1
    ensures DilateMask(Point([5, 5], [2, 2]), [5, 5], Half(3)) == Window([5, 5], [2, 2], 1)
    ensures ErodeMask(Window([5, 5], [2, 2], 1), [5, 5], Half(3)) == Point([5, 5], [2, 2])
    ensures ErodeN(DilateMask(Point([5, 5], [2, 2]), [5, 5], Half(3)), [5, 5], Half(3), 1) == Point([5, 5], [2, 2])
    ensures DilateN(ErodeMask(Window([5, 5], [2, 2], 1), [5, 5], Half(3)), [5, 5], Half(3), 1) == Window([5, 5], [2, 2], 1)
    ensures forall x: nat, y: nat :: x < 5 && y < 5 ==>
      (MaskAt(Window([5, 5], [2, 2], 1), [5, 5], [x, y]) <==> 1 <= x <= 3 && 1 <= y <= 3)
  {
    var size, c := [5, 5], [2, 2];
    assert Positive(size) && InBounds(c, size) && WindowInside(size, c, 1);
    DilateOfPoint(size, c, 1);
    ErodeOfWindow(size, c, 1);
    CloseOfPoint(size, c, 1);
    OpenOfWindow(size, c, 1);
    forall x: nat, y: nat | x < 5 && y < 5
      ensures MaskAt(Window(size, c, 1), size, [x, y]) <==> 1 <= x <= 3 && 1 <= y <= 3
    {
      assert InBounds([x, y], size);
      WindowAt(size, c, 1, [x, y]);
    }
  }
}
