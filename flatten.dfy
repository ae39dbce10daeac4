// Flattening of nested slices into their leaf values (utils.go: flattenReflectValues).
//
// A value handed to the flattener is either a slice, whose elements are
// flattened in index order, or anything else (a number, a string, an array),
// which is one leaf.

module Flatten {
  import Arith

  /** A value as the flattener sees it: a slice of values, or a leaf. */
  datatype Value<T> = Leaf(v: T) | Slice(items: seq<Value<T>>)

  /** The concatenation of a sequence of sequences, in order. */
  function Concat<T>(ss: seq<seq<T>>): seq<T>
  {
    if ss == [] then [] else Concat(ss[..|ss| - 1]) + ss[|ss| - 1]
  }

  /** The flattened values: a leaf alone, a slice the concatenation of its elements' flattenings. */
  function Flat<T>(d: Value<T>): seq<T>
    decreases d, 1
  {
    match d
    case Leaf(v) => [v]
    case Slice(items) => Concat(Parts(items))
  }

  /** The flattening of each element of a slice. */
  function Parts<T>(items: seq<Value<T>>): (ps: seq<seq<T>>)
    decreases items, 0
    ensures |ps| == |items| && forall i :: 0 <= i < |items| ==> ps[i] == Flat(items[i])
  {
    seq(|items|, i requires 0 <= i < |items| => Flat(items[i]))
  }

  /** The sum of a sequence of counts. */
  function Sum(ns: seq<nat>): nat
  {
    if ns == [] then 0 else ns[0] + Sum(ns[1..])
  }

  /** The number of leaves: one for a leaf, the sum over a slice's elements. */
  function Leaves<T>(d: Value<T>): nat
    decreases d, 1
  {
    match d
    case Leaf(_) => 1
    case Slice(items) => Sum(Counts(items))
  }

  /** The number of leaves of each element of a slice. */
  function Counts<T>(items: seq<Value<T>>): (ns: seq<nat>)
    decreases items, 0
    ensures |ns| == |items| && forall i :: 0 <= i < |items| ==> ns[i] == Leaves(items[i])
  {
    seq(|items|, i requires 0 <= i < |items| => Leaves(items[i]))
  }

  lemma {:induction false} ConcatAppend<T>(xs: seq<seq<T>>, ys: seq<seq<T>>)
    ensures Concat(xs + ys) == Concat(xs) + Concat(ys)
  {
    if ys != [] {
      var n := |ys| - 1;
      assert (xs + ys)[..|xs + ys| - 1] == xs + ys[..n];
      ConcatAppend(xs, ys[..n]);
    } else {
      assert xs + ys == xs;
    }
  }

  lemma {:induction false} SumAppend(ms: seq<nat>, n: nat)
    ensures Sum(ms + [n]) == Sum(ms) + n
  {
    if ms != [] {
      assert (ms + [n])[1..] == ms[1..] + [n];
      SumAppend(ms[1..], n);
    }
  }

  /** Parts of known lengths concatenate to the sum of those lengths. */
  lemma {:induction false} ConcatLength<T>(ss: seq<seq<T>>, ns: seq<nat>)
    requires |ss| == |ns| && forall k :: 0 <= k < |ss| ==> |ss[k]| == ns[k]
    ensures |Concat(ss)| == Sum(ns)
  {
    if ss != [] {
      var n := |ss| - 1;
      ConcatLength(ss[..n], ns[..n]);
      assert ns == ns[..n] + [ns[n]];
      SumAppend(ns[..n], ns[n]);
    }
  }

  /** Where entry `j` of block `i` lands when blocks of `n` entries are laid end to end. */
  function Index(i: nat, n: nat, j: nat): nat
  {
    i * n + j
  }

  /** Entry `j < n` of block `i < m` lies inside the `m * n` entries. */
  lemma IndexBound(i: nat, n: nat, j: nat, m: nat)
    requires i < m && j < n
    ensures Index(i, n, j) < m * n
  {
    Arith.MulMonotone(i + 1, m, n);
  }

  /** Parts of one common length `c`: value `j` of part `i` sits at `Index(i, c, j)`. */
  lemma {:induction false} ConcatIndex<T>(ss: seq<seq<T>>, c: nat)
    requires forall k :: 0 <= k < |ss| ==> |ss[k]| == c
    ensures |Concat(ss)| == |ss| * c
    ensures forall i, j :: 0 <= i < |ss| && 0 <= j < c ==>
      Index(i, c, j) < |Concat(ss)| && Concat(ss)[Index(i, c, j)] == ss[i][j]
  {
    if ss != [] {
      var n := |ss| - 1;
      ConcatIndex(ss[..n], c);
      assert |Concat(ss)| == n * c + c;
      forall i, j | 0 <= i < |ss| && 0 <= j < c
        ensures Index(i, c, j) < |Concat(ss)| && Concat(ss)[Index(i, c, j)] == ss[i][j]
      {
        IndexBound(i, c, j, |ss|);
        if i < n {
          IndexBound(i, c, j, n);
          assert Concat(ss)[Index(i, c, j)] == Concat(ss[..n])[Index(i, c, j)];
          assert ss[..n][i] == ss[i];
        } else {
          assert Index(i, c, j) == n * c + j;
        }
      }
    }
  }

  // ---------------------------------------------------------------------------
  // Properties of the flattening
  // ---------------------------------------------------------------------------

  /** A slice of leaves flattens to the leaves' values, in order. */
  lemma {:induction false} FlatOfLeaves<T>(row: seq<T>)
    ensures Flat(Slice(seq(|row|, j requires 0 <= j < |row| => Leaf(row[j])))) == row
  {
    var items := seq(|row|, j requires 0 <= j < |row| => Leaf(row[j]));
    var parts := Parts(items);
    ConcatIndex(parts, 1);
    forall i | 0 <= i < |row|
      ensures Concat(parts)[i] == row[i]
    {
      assert Index(i, 1, 0) == i;
      assert parts[i] == [row[i]];
    }
  }

  /** Joining two slices joins their flattenings. */
  lemma FlatOfJoin<T>(xs: seq<Value<T>>, ys: seq<Value<T>>)
    ensures Flat(Slice(xs + ys)) == Flat(Slice(xs)) + Flat(Slice(ys))
  {
    assert Parts(xs + ys) == Parts(xs) + Parts(ys);
    ConcatAppend(Parts(xs), Parts(ys));
  }

  /** The flattening has one value per leaf; an empty slice contributes none. */
  lemma {:induction false} FlatLength<T>(d: Value<T>)
    ensures |Flat(d)| == Leaves(d)
  {
    match d
    case Leaf(_) =>
    case Slice(items) =>
      var parts, counts := Parts(items), Counts(items);
      forall k | 0 <= k < |items|
        ensures |parts[k]| == counts[k]
      {
        FlatLength(items[k]);
      }
      ConcatLength(parts, counts);
  }

  /** A matrix as nested slices: one slice per row. */
  function Grid<T>(m: seq<seq<T>>): Value<T>
  {
    Slice(seq(|m|, i requires 0 <= i < |m| => Slice(seq(|m[i]|, j requires 0 <= j < |m[i]| => Leaf(m[i][j])))))
  }

  /** A rectangular matrix flattens row-major: entry `(i, j)` lands at `i * c + j`. */
  lemma RowMajor<T>(m: seq<seq<T>>, c: nat)
    requires forall i :: 0 <= i < |m| ==> |m[i]| == c
    ensures |Flat(Grid(m))| == |m| * c
    ensures forall i, j :: 0 <= i < |m| && 0 <= j < c ==>
      Index(i, c, j) < |Flat(Grid(m))| && Flat(Grid(m))[Index(i, c, j)] == m[i][j]
  {
    var parts := Parts(Grid(m).items);
    forall i | 0 <= i < |m|
      ensures parts[i] == m[i]
    {
      FlatOfLeaves(m[i]);
    }
    assert parts == m;
    ConcatIndex(m, c);
  }

  /** A volume as nested slices: one grid per plane. */
  function Cube<T>(v: seq<seq<seq<T>>>): Value<T>
  {
    Slice(seq(|v|, p requires 0 <= p < |v| => Grid(v[p])))
  }

  /** A rectangular volume flattens with the innermost index fastest: `(p, i, j)` lands at `p * r * c + i * c + j`. */
  lemma Volume<T>(v: seq<seq<seq<T>>>, r: nat, c: nat)
    requires forall p :: 0 <= p < |v| ==> |v[p]| == r && forall i :: 0 <= i < r ==> |v[p][i]| == c
    ensures |Flat(Cube(v))| == |v| * (r * c)
    ensures forall p, i, j :: 0 <= p < |v| && 0 <= i < r && 0 <= j < c ==>
      Index(p, r * c, Index(i, c, j)) < |Flat(Cube(v))| && Flat(Cube(v))[Index(p, r * c, Index(i, c, j))] == v[p][i][j]
  {
    var parts := Parts(Cube(v).items);
    forall p | 0 <= p < |v|
      ensures |parts[p]| == r * c
      ensures forall i, j :: 0 <= i < r && 0 <= j < c ==>
        Index(i, c, j) < r * c && parts[p][Index(i, c, j)] == v[p][i][j]
    {
      RowMajor(v[p], c);
    }
    ConcatIndex(parts, r * c);
  }

  // ---------------------------------------------------------------------------
  // The flattener: a recursive helper appending to one shared list
  // ---------------------------------------------------------------------------

  /** The list the recursive helper appends to. */
  class Flattener<T> {
    var values: seq<T>

    constructor()
      ensures values == []
    {
      values := [];
    }

    /** Appends the leaves of `d` in order: descends into slices, appends anything else. */
    method Helper(d: Value<T>)
      modifies this
      ensures values == old(values) + Flat(d)
      decreases d
    {
      match d
      case Leaf(v) =>
        values := values + [v];
      case Slice(items) =>
        ghost var parts := Parts(items);
        var i := 0;
        while i < |items|
          invariant 0 <= i <= |items|
          invariant values == old(values) + Concat(parts[..i])
        {
          Helper(items[i]);
          assert parts[..i + 1][..i] == parts[..i];
          i := i + 1;
        }
        assert parts[..|items|] == parts;
    }
  }

  /** The flattened values of `data`: its leaves, in order. */
  method FlattenValues<T>(data: Value<T>) returns (r: seq<T>)
    ensures r == Flat(data)
    ensures |r| == Leaves(data)
  {
    var f := new Flattener<T>();
    f.Helper(data);
    r := f.values;
    FlatLength(data);
  }
}
