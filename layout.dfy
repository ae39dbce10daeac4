/**
 * Index arithmetic shared by the image container, the sampler and the resampler:
 * the x-fastest linear offset `GetPixel` computes, its inverse, the row-major
 * strides of the resampler, and the chunk partition of the worker fan-out.
 */
module Layout {
  import Arith

  /** Number of pixels of an image of the given extents. */
  function Product(size: seq<nat>): nat
  {
    if size == [] then 1 else size[0] * Product(size[1..])
  }

  predicate Positive(size: seq<nat>)
  {
    forall i :: 0 <= i < |size| ==> size[i] > 0
  }

  /** An index with one component per axis, each below that axis' extent. */
  predicate InBounds(index: seq<nat>, size: seq<nat>)
  {
    |index| == |size| && forall i :: 0 <= i < |index| ==> index[i] < size[i]
  }

  lemma {:induction false} ProductPositive(size: seq<nat>)
    requires Positive(size)
    ensures Product(size) > 0
  {
    if size != [] {
      ProductPositive(size[1..]);
    }
  }

  lemma {:induction false} ProductOfAppend(size: seq<nat>, s: nat)
    ensures Product(size + [s]) == Product(size) * s
  {
    if size != [] {
      assert (size + [s])[1..] == size[1..] + [s];
      ProductOfAppend(size[1..], s);
    } else {
      assert [s][1..] == [];
    }
  }

  // ---------------------------------------------------------------------------
  // x-fastest layout (image.go GetPixel / SetPixel, point.go corner offsets)
  // ---------------------------------------------------------------------------

  /** `index[0] + size[0] * (index[1] + size[1] * (index[2] + ...))`: the first axis varies fastest. */
  function Offset(index: seq<nat>, size: seq<nat>): nat
    requires |index| == |size|
  {
    if index == [] then 0 else index[0] + size[0] * Offset(index[1..], size[1..])
  }

  /** An in-bounds index addresses a pixel inside the buffer. */
  lemma {:induction false} OffsetBound(index: seq<nat>, size: seq<nat>)
    requires InBounds(index, size)
    ensures Offset(index, size) < Product(size)
  {
    if index != [] {
      OffsetBound(index[1..], size[1..]);
      Arith.MixedRadixBound(index[0], Offset(index[1..], size[1..]), size[0], Product(size[1..]));
    }
  }

  /** The offsets of 2-D and 3-D indices written out, as the corner sampler computes them. */
  lemma OffsetOfThree(x: nat, y: nat, z: nat, size: seq<nat>)
    requires |size| == 3
    ensures Offset([x, y, z], size) == x + y * size[0] + z * (size[0] * size[1])
  {
    assert [x, y, z][1..] == [y, z] && [y, z][1..] == [z] && [z][1..] == [];
    var a, b := size[0], size[1];
    assert Offset([z], size[2..]) == z;
    assert Offset([y, z], size[1..]) == y + b * z;
    assert a * (y + b * z) == y * a + z * (a * b);
  }

  lemma OffsetOfTwo(x: nat, y: nat, size: seq<nat>)
    requires |size| == 2
    ensures Offset([x, y], size) == x + y * size[0]
  {
    assert [x, y][1..] == [y] && [y][1..] == [];
    assert Offset([y], size[1..]) == y;
    assert size[0] * y == y * size[0];
  }

  /**
   * The multi-index of linear position `l`: component i is `(l / (size[0]*...*size[i-1])) % size[i]`.
   * This is the inverse of `Offset`, the conversion a linear-to-index routine is meant to perform.
   */
  function IndexOf(l: nat, size: seq<nat>): (index: seq<nat>)
    requires Positive(size)
    ensures |index| == |size|
  {
    if size == [] then []
    else
      Arith.DivModBounds(l, size[0]);
      [l % size[0]] + IndexOf(l / size[0], size[1..])
  }

  lemma {:induction false} IndexOfInBounds(l: nat, size: seq<nat>)
    requires Positive(size) && l < Product(size)
    ensures InBounds(IndexOf(l, size), size)
  {
    if size != [] {
      var q := l / size[0];
      Arith.DivModBounds(l, size[0]);
      Arith.DivBelow(l, size[0], Product(size[1..]));
      IndexOfInBounds(q, size[1..]);
      var idx := IndexOf(l, size);
      assert idx[1..] == IndexOf(q, size[1..]);
    }
  }

  lemma {:induction false} OffsetOfIndexOf(l: nat, size: seq<nat>)
    requires Positive(size) && l < Product(size)
    ensures Offset(IndexOf(l, size), size) == l
  {
    if size != [] {
      var q := l / size[0];
      Arith.DivModBounds(l, size[0]);
      Arith.DivBelow(l, size[0], Product(size[1..]));
      var idx := IndexOf(l, size);
      assert idx[1..] == IndexOf(q, size[1..]);
      OffsetOfIndexOf(q, size[1..]);
      assert l == l % size[0] + size[0] * q;
    } else {
      assert l == 0;
    }
  }

  lemma {:induction false} IndexOfOffset(index: seq<nat>, size: seq<nat>)
    requires Positive(size) && InBounds(index, size)
    ensures IndexOf(Offset(index, size), size) == index
  {
    if index != [] {
      var rest := Offset(index[1..], size[1..]);
      Arith.DivModOfSum(index[0], rest, size[0]);
      IndexOfOffset(index[1..], size[1..]);
    }
  }

  /** Component `i` of `IndexOf` divides by the extents before axis `i`, as the per-axis loop does. */
  lemma {:induction false} IndexOfComponent(l: nat, size: seq<nat>, i: nat)
    requires Positive(size) && i < |size|
    ensures Product(size[..i]) > 0
    ensures IndexOf(l, size)[i] == (l / Product(size[..i])) % size[i]
  {
    assert Positive(size[..i]);
    ProductPositive(size[..i]);
    if i > 0 {
      Arith.DivModBounds(l, size[0]);
      var q := l / size[0];
      IndexOfComponent(q, size[1..], i - 1);
      assert IndexOf(l, size)[i] == IndexOf(q, size[1..])[i - 1];
      assert size[..i][1..] == size[1..][..i - 1];
      Arith.DivDiv(l, size[0], Product(size[1..][..i - 1]));
    }
  }

  /** Distinct in-bounds indices have distinct offsets: a pixel write touches only its own pixel. */
  lemma OffsetInjective(a: seq<nat>, b: seq<nat>, size: seq<nat>)
    requires Positive(size) && InBounds(a, size) && InBounds(b, size) && a != b
    ensures Offset(a, size) != Offset(b, size)
  {
    IndexOfOffset(a, size);
    IndexOfOffset(b, size);
  }

  // ---------------------------------------------------------------------------
  // Row-major decomposition (interpolate.go: last axis fastest)
  // ---------------------------------------------------------------------------

  /** The resampler's stride of axis j: the product of the extents after j. */
  function Stride(size: seq<nat>, j: nat): nat
    requires j < |size|
  {
    Product(size[j + 1..])
  }

  /** Repeated `k[j] = idx / strides[j]; idx %= strides[j]`, from the first axis on. */
  function RowMajorIndex(i: nat, size: seq<nat>): (index: seq<nat>)
    requires Positive(size)
    ensures |index| == |size|
  {
    if size == [] then []
    else
      ProductPositive(size[1..]);
      [i / Product(size[1..])] + RowMajorIndex(i % Product(size[1..]), size[1..])
  }

  /** Its inverse: `k[0] * stride[0] + k[1] * stride[1] + ...`. */
  function RowMajorOffset(index: seq<nat>, size: seq<nat>): nat
    requires |index| == |size|
  {
    if index == [] then 0 else index[0] * Product(size[1..]) + RowMajorOffset(index[1..], size[1..])
  }

  lemma {:induction false} RowMajorOffsetBound(index: seq<nat>, size: seq<nat>)
    requires InBounds(index, size)
    ensures RowMajorOffset(index, size) < Product(size)
  {
    if index != [] {
      RowMajorOffsetBound(index[1..], size[1..]);
      var p := Product(size[1..]);
      Arith.MixedRadixBound(RowMajorOffset(index[1..], size[1..]), index[0], p, size[0]);
      assert p * index[0] == index[0] * p && p * size[0] == size[0] * p;
    }
  }

  /** Every decomposed linear position below the pixel count is an in-bounds index. */
  lemma {:induction false} RowMajorIndexInBounds(i: nat, size: seq<nat>)
    requires Positive(size) && i < Product(size)
    ensures InBounds(RowMajorIndex(i, size), size)
  {
    if size != [] {
      var p := Product(size[1..]);
      ProductPositive(size[1..]);
      Arith.DivModBounds(i, p);
      assert i < p * size[0];
      Arith.DivBelow(i, p, size[0]);
      RowMajorIndexInBounds(i % p, size[1..]);
      assert RowMajorIndex(i, size)[1..] == RowMajorIndex(i % p, size[1..]);
    }
  }

  lemma {:induction false} RowMajorOffsetOfIndex(i: nat, size: seq<nat>)
    requires Positive(size) && i < Product(size)
    ensures RowMajorOffset(RowMajorIndex(i, size), size) == i
  {
    if size != [] {
      var p := Product(size[1..]);
      ProductPositive(size[1..]);
      var k := RowMajorIndex(i, size);
      assert k[1..] == RowMajorIndex(i % p, size[1..]);
      assert i % p < p;
      RowMajorIndexInBounds(i, size);
      RowMajorOffsetOfIndex(i % p, size[1..]);
      assert i == (i / p) * p + i % p;
    } else {
      assert i == 0;
    }
  }

  lemma {:induction false} RowMajorIndexOfOffset(index: seq<nat>, size: seq<nat>)
    requires Positive(size) && InBounds(index, size)
    ensures RowMajorIndex(RowMajorOffset(index, size), size) == index
  {
    if index != [] {
      var p := Product(size[1..]);
      ProductPositive(size[1..]);
      var rest := RowMajorOffset(index[1..], size[1..]);
      RowMajorOffsetBound(index[1..], size[1..]);
      Arith.DivModOfSum(rest, index[0], p);
      assert index[0] * p + rest == rest + p * index[0];
      RowMajorIndexOfOffset(index[1..], size[1..]);
    }
  }

  /** The resampler's loop over `[0, numPixels)` visits every in-bounds index exactly once. */
  lemma RowMajorBijection(size: seq<nat>)
    requires Positive(size)
    ensures forall i :: 0 <= i < Product(size) ==> InBounds(RowMajorIndex(i, size), size)
    ensures forall i, j :: 0 <= i < j < Product(size) ==> RowMajorIndex(i, size) != RowMajorIndex(j, size)
    ensures forall k :: InBounds(k, size) ==>
      RowMajorOffset(k, size) < Product(size) && RowMajorIndex(RowMajorOffset(k, size), size) == k
  {
    forall i | 0 <= i < Product(size)
      ensures InBounds(RowMajorIndex(i, size), size)
    {
      RowMajorIndexInBounds(i, size);
    }
    forall i, j | 0 <= i < j < Product(size)
      ensures RowMajorIndex(i, size) != RowMajorIndex(j, size)
    {
      RowMajorOffsetOfIndex(i, size);
      RowMajorOffsetOfIndex(j, size);
    }
    forall k | InBounds(k, size)
      ensures RowMajorOffset(k, size) < Product(size) && RowMajorIndex(RowMajorOffset(k, size), size) == k
    {
      RowMajorOffsetBound(k, size);
      RowMajorIndexOfOffset(k, size);
    }
  }

  // ---------------------------------------------------------------------------
  // Chunk partition (image.go GetArrayFromImage)
  // ---------------------------------------------------------------------------

  /** `n / workers`, plus one when that does not cover `n`. */
  function ChunkSize(n: nat, workers: nat): (c: nat)
    requires workers > 0
    ensures c * workers >= n
    ensures n > 0 ==> (c - 1) * workers < n
  {
    var c := n / workers;
    if c * workers < n then c + 1 else c
  }

  /** The half-open range `[start, end)` of chunk `c`, with `end` clamped to `n`. */
  function ChunkStart(c: nat, size: nat): nat { c * size }

  function ChunkEnd(c: nat, size: nat, n: nat): nat
  {
    if c * size + size > n then n else c * size + size
  }

  predicate InChunk(l: nat, c: nat, size: nat, n: nat)
  {
    ChunkStart(c, size) <= l < ChunkEnd(c, size, n)
  }

  /** Every position below `n` lies in exactly one of the `workers` chunks. */
  lemma ChunksPartition(n: nat, workers: nat, l: nat)
    requires workers > 0 && l < n
    ensures var size := ChunkSize(n, workers);
      size > 0 && l / size < workers && InChunk(l, l / size, size, n)
      && forall c :: 0 <= c < workers && InChunk(l, c, size, n) ==> c == l / size
  {
    var size := ChunkSize(n, workers);
    var c := l / size;
    assert c * size <= l < c * size + size;
    assert c < workers by {
      if c >= workers {
        Arith.MulMonotone(workers, c, size);
      }
    }
    forall c' | 0 <= c' < workers && InChunk(l, c', size, n)
      ensures c' == c
    {
      Arith.DivModUnique(l, size, c', l - c' * size);
    }
  }

  /** A chunk whose start is at or past `n` is empty. */
  lemma ChunkPastEndEmpty(c: nat, size: nat, n: nat)
    requires ChunkStart(c, size) >= n
    ensures forall l :: !InChunk(l, c, size, n)
  {
  }
}
