/**
 * The numeric routines of point.go: closed-form inversion of 2x2 and 3x3 matrices and
 * Gaussian elimination without row exchanges. Arithmetic is exact (`real`), an idealisation
 * of float64; the singularity threshold 1e-9 is kept.
 */
module Matrix {
  import opened Results

  function Abs(x: real): real { if x < 0.0 then -x else x }

  /** Pivot magnitudes below this are reported as a singular system. */
  const PivotEpsilon: real := 0.000000001

  // ---------------------------------------------------------------------------
  // Closed-form inversion (row-major flat matrices)
  //
  // Products of two entries go through small named functions (`Times`, `Minor`, `Dot2`,
  // `Dot3`), so that the polynomial identities are proved once about plain reals and then
  // reused entry by entry.

  function Times(x: real, s: real): real
  {
    x * s
  }

  /** `p * s - q * r`, the determinant of the 2x2 block `[p, q; r, s]`. */
  function Minor(p: real, q: real, r: real, s: real): real
  {
    p * s - q * r
  }

  function Dot2(x: real, y: real, p: real, q: real): real
  {
    x * p + y * q
  }

  function Dot3(x: real, y: real, z: real, p: real, q: real, r: real): real
  {
    x * p + y * q + z * r
  }

  /** Every entry multiplied by `s`. */
  function Scale(a: seq<real>, s: real): (c: seq<real>)
    ensures |c| == |a| && forall k :: 0 <= k < |a| ==> c[k] == Times(a[k], s)
  {
    seq(|a|, k requires 0 <= k < |a| => Times(a[k], s))
  }

  lemma TimesInverse(x: real)
    requires x != 0.0
    ensures Times(x, 1.0 / x) == 1.0
  {
  }

  function Det2(m: seq<real>): real
    requires |m| == 4
  {
    Minor(m[0], m[1], m[2], m[3])
  }

  /** Row-major product of two 2x2 matrices. */
  function Mul2(a: seq<real>, b: seq<real>): (c: seq<real>)
    requires |a| == 4 && |b| == 4
    ensures |c| == 4
  {
    [Dot2(a[0], a[1], b[0], b[2]), Dot2(a[0], a[1], b[1], b[3]),
     Dot2(a[2], a[3], b[0], b[2]), Dot2(a[2], a[3], b[1], b[3])]
  }

  const Identity2: seq<real> := [1.0, 0.0, 0.0, 1.0]

  /** `[d, -b; -c, a]` over the determinant; an error exactly when the determinant is zero. */
  function Invert2x2(m: seq<real>): (r: Result<seq<real>>)
    requires |m| == 4
    ensures r.Err? <==> Det2(m) == 0.0
    ensures r.Ok? ==> |r.value| == 4
  {
    var det := Det2(m);
    if det == 0.0 then Err("direction matrix is singular")
    else Ok(Scale([m[3], -m[1], -m[2], m[0]], 1.0 / det))
  }

  /** The adjugate `[d, nb; nc, a]` of `[a, b; c, d]` times the matrix, on both sides. */
  lemma Adjugate2Entries(a: real, b: real, c: real, d: real, nb: real, nc: real)
    requires nb == -b && nc == -c
    ensures Dot2(d, nb, a, c) == Minor(a, b, c, d) && Dot2(d, nb, b, d) == 0.0
    ensures Dot2(nc, a, a, c) == 0.0 && Dot2(nc, a, b, d) == Minor(a, b, c, d)
    ensures Dot2(a, b, d, nc) == Minor(a, b, c, d) && Dot2(a, b, nb, a) == 0.0
    ensures Dot2(c, d, d, nc) == 0.0 && Dot2(c, d, nb, a) == Minor(a, b, c, d)
  {
  }

  /** Scaling one factor of a dot product scales the product. */
  lemma Dot2Scale(x: real, y: real, p: real, q: real, s: real)
    ensures Dot2(Times(x, s), Times(y, s), p, q) == Times(Dot2(x, y, p, q), s)
    ensures Dot2(p, q, Times(x, s), Times(y, s)) == Times(Dot2(p, q, x, y), s)
  {
  }

  /** A successful 2x2 inversion is a two-sided inverse. */
  lemma Invert2x2IsInverse(m: seq<real>)
    requires |m| == 4 && Invert2x2(m).Ok?
    ensures Mul2(Invert2x2(m).value, m) == Identity2
    ensures Mul2(m, Invert2x2(m).value) == Identity2
  {
    var det, s := Det2(m), 1.0 / Det2(m);
    TimesInverse(det);
    TimesCancel(det, s);
    var adj := [m[3], -m[1], -m[2], m[0]];
    Adjugate2Entries(m[0], m[1], m[2], m[3], adj[1], adj[2]);
    var r := Invert2x2(m).value;
    assert r == Scale(adj, s);
    Dot2Scale(adj[0], adj[1], m[0], m[2], s);
    Dot2Scale(adj[0], adj[1], m[1], m[3], s);
    Dot2Scale(adj[2], adj[3], m[0], m[2], s);
    Dot2Scale(adj[2], adj[3], m[1], m[3], s);
    Dot2Scale(adj[0], adj[2], m[0], m[1], s);
    Dot2Scale(adj[1], adj[3], m[0], m[1], s);
    Dot2Scale(adj[0], adj[2], m[2], m[3], s);
    Dot2Scale(adj[1], adj[3], m[2], m[3], s);
    TimesUnit(det);
    var L, R := Mul2(r, m), Mul2(m, r);
    assert forall k :: 0 <= k < 4 ==> L[k] == Identity2[k] && R[k] == Identity2[k];
  }

  /** Cofactor expansion along the first row of `[a, b, c; d, e, f; g, h, i]`. */
  function Det3Of(a: real, b: real, c: real, d: real, e: real, f: real, g: real, h: real, i: real): real
  {
    a * Minor(e, f, h, i) - b * Minor(d, f, g, i) + c * Minor(d, e, g, h)
  }

  function Det3(m: seq<real>): real
    requires |m| == 9
  {
    Det3Of(m[0], m[1], m[2], m[3], m[4], m[5], m[6], m[7], m[8])
  }

  /** Row-major product of two 3x3 matrices. */
  function Mul3(a: seq<real>, b: seq<real>): (c: seq<real>)
    requires |a| == 9 && |b| == 9
    ensures |c| == 9
  {
    [Dot3(a[0], a[1], a[2], b[0], b[3], b[6]), Dot3(a[0], a[1], a[2], b[1], b[4], b[7]), Dot3(a[0], a[1], a[2], b[2], b[5], b[8]),
     Dot3(a[3], a[4], a[5], b[0], b[3], b[6]), Dot3(a[3], a[4], a[5], b[1], b[4], b[7]), Dot3(a[3], a[4], a[5], b[2], b[5], b[8]),
     Dot3(a[6], a[7], a[8], b[0], b[3], b[6]), Dot3(a[6], a[7], a[8], b[1], b[4], b[7]), Dot3(a[6], a[7], a[8], b[2], b[5], b[8])]
  }

  const Identity3: seq<real> := [1.0, 0.0, 0.0, 0.0, 1.0, 0.0, 0.0, 0.0, 1.0]

  /**
   * The transposed cofactor matrix of a 3x3 matrix. A negated minor such as `-(b * i - c * h)`
   * is written as the minor with its columns swapped, `c * h - b * i`.
   */
  function Adjugate3(m: seq<real>): (c: seq<real>)
    requires |m| == 9
    ensures |c| == 9
  {
    var a, b, c, d, e, f, g, h, i := m[0], m[1], m[2], m[3], m[4], m[5], m[6], m[7], m[8];
    [Minor(e, f, h, i), Minor(c, b, i, h), Minor(b, c, e, f),
     Minor(f, d, i, g), Minor(a, c, g, i), Minor(c, a, f, d),
     Minor(d, e, g, h), Minor(b, a, h, g), Minor(a, b, d, e)]
  }

  /** The adjugate over the determinant; an error exactly when the determinant is zero. */
  function Invert3x3(m: seq<real>): (r: Result<seq<real>>)
    requires |m| == 9
    ensures r.Err? <==> Det3(m) == 0.0
    ensures r.Ok? ==> |r.value| == 9
  {
    var det := Det3(m);
    if det == 0.0 then Err("direction matrix is singular")
    else Ok(Scale(Adjugate3(m), 1.0 / det))
  }

  /** Row 0 of the adjugate against each column of the matrix: the determinant on the diagonal, else 0. */
  lemma AdjugateRow0TimesMatrix(a: real, b: real, c: real, d: real, e: real, f: real, g: real, h: real, i: real)
    ensures Dot3(Minor(e, f, h, i), Minor(c, b, i, h), Minor(b, c, e, f), a, d, g) == Det3Of(a, b, c, d, e, f, g, h, i)
    ensures Dot3(Minor(e, f, h, i), Minor(c, b, i, h), Minor(b, c, e, f), b, e, h) == 0.0
    ensures Dot3(Minor(e, f, h, i), Minor(c, b, i, h), Minor(b, c, e, f), c, f, i) == 0.0
  {
  }

  /** Row 1 of the adjugate against each column of the matrix: the determinant on the diagonal, else 0. */
  lemma AdjugateRow1TimesMatrix(a: real, b: real, c: real, d: real, e: real, f: real, g: real, h: real, i: real)
    ensures Dot3(Minor(f, d, i, g), Minor(a, c, g, i), Minor(c, a, f, d), a, d, g) == 0.0
    ensures Dot3(Minor(f, d, i, g), Minor(a, c, g, i), Minor(c, a, f, d), b, e, h) == Det3Of(a, b, c, d, e, f, g, h, i)
    ensures Dot3(Minor(f, d, i, g), Minor(a, c, g, i), Minor(c, a, f, d), c, f, i) == 0.0
  {
  }

  /** Row 2 of the adjugate against each column of the matrix: the determinant on the diagonal, else 0. */
  lemma AdjugateRow2TimesMatrix(a: real, b: real, c: real, d: real, e: real, f: real, g: real, h: real, i: real)
    ensures Dot3(Minor(d, e, g, h), Minor(b, a, h, g), Minor(a, b, d, e), a, d, g) == 0.0
    ensures Dot3(Minor(d, e, g, h), Minor(b, a, h, g), Minor(a, b, d, e), b, e, h) == 0.0
    ensures Dot3(Minor(d, e, g, h), Minor(b, a, h, g), Minor(a, b, d, e), c, f, i) == Det3Of(a, b, c, d, e, f, g, h, i)
  {
  }

  /** Row 0 of the matrix against each column of the adjugate: the determinant on the diagonal, else 0. */
  lemma MatrixRow0TimesAdjugate(a: real, b: real, c: real, d: real, e: real, f: real, g: real, h: real, i: real)
    ensures Dot3(a, b, c, Minor(e, f, h, i), Minor(f, d, i, g), Minor(d, e, g, h)) == Det3Of(a, b, c, d, e, f, g, h, i)
    ensures Dot3(a, b, c, Minor(c, b, i, h), Minor(a, c, g, i), Minor(b, a, h, g)) == 0.0
    ensures Dot3(a, b, c, Minor(b, c, e, f), Minor(c, a, f, d), Minor(a, b, d, e)) == 0.0
  {
  }

  /** Row 1 of the matrix against each column of the adjugate: the determinant on the diagonal, else 0. */
  lemma MatrixRow1TimesAdjugate(a: real, b: real, c: real, d: real, e: real, f: real, g: real, h: real, i: real)
    ensures Dot3(d, e, f, Minor(e, f, h, i), Minor(f, d, i, g), Minor(d, e, g, h)) == 0.0
    ensures Dot3(d, e, f, Minor(c, b, i, h), Minor(a, c, g, i), Minor(b, a, h, g)) == Det3Of(a, b, c, d, e, f, g, h, i)
    ensures Dot3(d, e, f, Minor(b, c, e, f), Minor(c, a, f, d), Minor(a, b, d, e)) == 0.0
  {
  }

  /** Row 2 of the matrix against each column of the adjugate: the determinant on the diagonal, else 0. */
  lemma MatrixRow2TimesAdjugate(a: real, b: real, c: real, d: real, e: real, f: real, g: real, h: real, i: real)
    ensures Dot3(g, h, i, Minor(e, f, h, i), Minor(f, d, i, g), Minor(d, e, g, h)) == 0.0
    ensures Dot3(g, h, i, Minor(c, b, i, h), Minor(a, c, g, i), Minor(b, a, h, g)) == 0.0
    ensures Dot3(g, h, i, Minor(b, c, e, f), Minor(c, a, f, d), Minor(a, b, d, e)) == Det3Of(a, b, c, d, e, f, g, h, i)
  {
  }

  lemma TimesUnit(x: real)
    ensures Times(1.0, x) == x && Times(0.0, x) == 0.0
  {
  }

  /** The adjugate times the matrix is the determinant times the identity, on both sides. */
  lemma AdjugateProduct3(m: seq<real>)
    requires |m| == 9
    ensures Mul3(Adjugate3(m), m) == Scale(Identity3, Det3(m))
    ensures Mul3(m, Adjugate3(m)) == Scale(Identity3, Det3(m))
  {
    var a, b, c, d, e, f, g, h, i := m[0], m[1], m[2], m[3], m[4], m[5], m[6], m[7], m[8];
    AdjugateRow0TimesMatrix(a, b, c, d, e, f, g, h, i);
    AdjugateRow1TimesMatrix(a, b, c, d, e, f, g, h, i);
    AdjugateRow2TimesMatrix(a, b, c, d, e, f, g, h, i);
    MatrixRow0TimesAdjugate(a, b, c, d, e, f, g, h, i);
    MatrixRow1TimesAdjugate(a, b, c, d, e, f, g, h, i);
    MatrixRow2TimesAdjugate(a, b, c, d, e, f, g, h, i);
    TimesUnit(Det3(m));
    var L, R, D := Mul3(Adjugate3(m), m), Mul3(m, Adjugate3(m)), Scale(Identity3, Det3(m));
    assert forall k :: 0 <= k < 9 ==> L[k] == D[k] && R[k] == D[k];
  }

  /** Scaling one factor of a dot product scales the product. */
  lemma Dot3Scale(x: real, y: real, z: real, p: real, q: real, r: real, s: real)
    ensures Dot3(Times(x, s), Times(y, s), Times(z, s), p, q, r) == Times(Dot3(x, y, z, p, q, r), s)
    ensures Dot3(p, q, r, Times(x, s), Times(y, s), Times(z, s)) == Times(Dot3(p, q, r, x, y, z), s)
  {
  }

  /** A unit scaled by a determinant and then by its reciprocal is unchanged. */
  lemma TimesCancel(det: real, s: real)
    requires Times(det, s) == 1.0
    ensures Times(Times(1.0, det), s) == 1.0 && Times(Times(0.0, det), s) == 0.0
  {
  }

  /** If `x * m` and `m * x` are `det` times the identity, scaling `x` by `1 / det` gives the identity. */
  lemma ScaledProductIsIdentity(x: seq<real>, m: seq<real>, det: real, s: real)
    requires |x| == 9 && |m| == 9 && Times(det, s) == 1.0
    requires Mul3(x, m) == Scale(Identity3, det) && Mul3(m, x) == Scale(Identity3, det)
    ensures Mul3(Scale(x, s), m) == Identity3 && Mul3(m, Scale(x, s)) == Identity3
  {
    Dot3Scale(x[0], x[1], x[2], m[0], m[3], m[6], s);
    Dot3Scale(x[0], x[3], x[6], m[0], m[1], m[2], s);
    Dot3Scale(x[0], x[1], x[2], m[1], m[4], m[7], s);
    Dot3Scale(x[1], x[4], x[7], m[0], m[1], m[2], s);
    Dot3Scale(x[0], x[1], x[2], m[2], m[5], m[8], s);
    Dot3Scale(x[2], x[5], x[8], m[0], m[1], m[2], s);
    Dot3Scale(x[3], x[4], x[5], m[0], m[3], m[6], s);
    Dot3Scale(x[0], x[3], x[6], m[3], m[4], m[5], s);
    Dot3Scale(x[3], x[4], x[5], m[1], m[4], m[7], s);
    Dot3Scale(x[1], x[4], x[7], m[3], m[4], m[5], s);
    Dot3Scale(x[3], x[4], x[5], m[2], m[5], m[8], s);
    Dot3Scale(x[2], x[5], x[8], m[3], m[4], m[5], s);
    Dot3Scale(x[6], x[7], x[8], m[0], m[3], m[6], s);
    Dot3Scale(x[0], x[3], x[6], m[6], m[7], m[8], s);
    Dot3Scale(x[6], x[7], x[8], m[1], m[4], m[7], s);
    Dot3Scale(x[1], x[4], x[7], m[6], m[7], m[8], s);
    Dot3Scale(x[6], x[7], x[8], m[2], m[5], m[8], s);
    Dot3Scale(x[2], x[5], x[8], m[6], m[7], m[8], s);
    TimesCancel(det, s);
    var L, R := Mul3(Scale(x, s), m), Mul3(m, Scale(x, s));
    assert forall k :: 0 <= k < 9 ==> L[k] == Identity3[k] && R[k] == Identity3[k];
  }

  /** A successful 3x3 inversion is a two-sided inverse. */
  lemma Invert3x3IsInverse(m: seq<real>)
    requires |m| == 9 && Invert3x3(m).Ok?
    ensures Mul3(Invert3x3(m).value, m) == Identity3
    ensures Mul3(m, Invert3x3(m).value) == Identity3
  {
    TimesInverse(Det3(m));
    AdjugateProduct3(m);
    ScaledProductIsIdentity(Adjugate3(m), m, Det3(m), 1.0 / Det3(m));
  }

  /** A regular 2x2 matrix and its inverse. */
  lemma Invert2x2Example()
    ensures Invert2x2([4.0, 7.0, 2.0, 6.0]) == Ok([0.6, -0.7, -0.2, 0.4])
  {
    var m := [4.0, 7.0, 2.0, 6.0];
    assert Det2(m) == 10.0;
    var r := Invert2x2(m).value;
    assert r == Scale([6.0, -7.0, -2.0, 4.0], 0.1);
    assert r[0] == 0.6 && r[1] == -0.7 && r[2] == -0.2 && r[3] == 0.4;
    assert r == [0.6, -0.7, -0.2, 0.4];
  }

  /** A singular 2x2 matrix is rejected. */
  lemma Invert2x2SingularExample()
    ensures Invert2x2([1.0, 2.0, 2.0, 4.0]).Err?
  {
    assert Det2([1.0, 2.0, 2.0, 4.0]) == 0.0;
  }

  /** The cofactors of the worked 3x3 example, whose determinant is 1. */
  lemma Adjugate3Example()
    ensures Det3([1.0, 2.0, 3.0, 0.0, 1.0, 4.0, 5.0, 6.0, 0.0]) == 1.0
    ensures Adjugate3([1.0, 2.0, 3.0, 0.0, 1.0, 4.0, 5.0, 6.0, 0.0]) == [-24.0, 18.0, 5.0, 20.0, -15.0, -4.0, -5.0, 4.0, 1.0]
  {
    var m := [1.0, 2.0, 3.0, 0.0, 1.0, 4.0, 5.0, 6.0, 0.0];
    assert Minor(1.0, 4.0, 6.0, 0.0) == -24.0 && Minor(0.0, 4.0, 5.0, 0.0) == -20.0 && Minor(0.0, 1.0, 5.0, 6.0) == -5.0;
    var x := Adjugate3(m);
    assert x[0] == -24.0 && x[1] == 18.0 && x[2] == 5.0;
    assert x[3] == 20.0 && x[4] == -15.0 && x[5] == -4.0;
    assert x[6] == -5.0 && x[7] == 4.0 && x[8] == 1.0;
  }

  /** With determinant 1 the inverse is the adjugate itself. */
  lemma Invert3x3OfUnitDeterminant(m: seq<real>)
    requires |m| == 9 && Det3(m) == 1.0
    ensures Invert3x3(m) == Ok(Adjugate3(m))
  {
    var x := Adjugate3(m);
    assert 1.0 / Det3(m) == 1.0;
    assert forall k :: 0 <= k < 9 ==> Scale(x, 1.0)[k] == Times(x[k], 1.0) == x[k];
    assert Scale(x, 1.0) == x;
  }

  /** A regular 3x3 matrix with determinant 1 and its inverse. */
  lemma Invert3x3Example()
    ensures Invert3x3([1.0, 2.0, 3.0, 0.0, 1.0, 4.0, 5.0, 6.0, 0.0]) == Ok([-24.0, 18.0, 5.0, 20.0, -15.0, -4.0, -5.0, 4.0, 1.0])
  {
    var m := [1.0, 2.0, 3.0, 0.0, 1.0, 4.0, 5.0, 6.0, 0.0];
    Adjugate3Example();
    Invert3x3OfUnitDeterminant(m);
    assert Invert3x3(m) == Ok(Adjugate3(m));
  }

  /** A singular 3x3 matrix (rank one) is rejected. */
  lemma Invert3x3SingularExample()
    ensures Invert3x3([1.0, 2.0, 3.0, 2.0, 4.0, 6.0, 3.0, 6.0, 9.0]).Err?
  {
    assert Det3([1.0, 2.0, 3.0, 2.0, 4.0, 6.0, 3.0, 6.0, 9.0]) == 0.0;
  }

  // ---------------------------------------------------------------------------
  // Gaussian elimination on an augmented matrix [A | b], no row exchanges

  /** `M` has `n` rows of `n + 1` entries. */
  predicate WellFormed(M: seq<seq<real>>, n: nat)
  {
    |M| == n && forall k :: 0 <= k < n ==> |M[k]| == n + 1
  }

  /** `A` is `n` by `n` and `b` has `n` entries. */
  predicate IsSystem(A: seq<seq<real>>, b: seq<real>)
  {
    |b| == |A| && forall k :: 0 <= k < |A| ==> |A[k]| == |A|
  }

  /** `sum_{lo <= j < hi} row[j] * x[j]`, accumulated from the left. */
  function SumRange(row: seq<real>, x: seq<real>, lo: nat, hi: nat): real
    requires hi <= |row| && hi <= |x|
    decreases hi
  {
    if hi <= lo then 0.0 else SumRange(row, x, lo, hi - 1) + row[hi - 1] * x[hi - 1]
  }

  /** `x` satisfies row `k` of the augmented system `M`. */
  predicate RowHolds(M: seq<seq<real>>, n: nat, x: seq<real>, k: nat)
    requires WellFormed(M, n) && |x| == n && k < n
  {
    SumRange(M[k], x, 0, n) == M[k][n]
  }

  predicate SolvesAug(M: seq<seq<real>>, n: nat, x: seq<real>)
    requires WellFormed(M, n) && |x| == n
  {
    forall k :: 0 <= k < n ==> RowHolds(M, n, x, k)
  }

  /** `A * x == b`. */
  predicate Solves(A: seq<seq<real>>, b: seq<real>, x: seq<real>)
    requires IsSystem(A, b) && |x| == |A|
  {
    forall k :: 0 <= k < |A| ==> SumRange(A[k], x, 0, |A|) == b[k]
  }

  /** `[A | b]`, the copy the solver works on. */
  function Augment(A: seq<seq<real>>, b: seq<real>): (M: seq<seq<real>>)
    requires IsSystem(A, b)
    ensures WellFormed(M, |A|)
  {
    seq(|A|, k requires 0 <= k < |A| => A[k] + [b[k]])
  }

  /** Entries below the diagonal in the first `i` columns are zero. */
  predicate LowerZero(M: seq<seq<real>>, n: nat, i: nat)
    requires WellFormed(M, n)
  {
    forall k, j :: 0 <= j < k < n && j < i ==> M[k][j] == 0.0
  }

  /** Subtracts `ratio` times the pivot row from `row`, on the columns from `i` on. */
  function RowStep(row: seq<real>, pivotRow: seq<real>, i: nat, ratio: real): (r: seq<real>)
    requires |pivotRow| == |row|
    ensures |r| == |row|
  {
    seq(|row|, j requires 0 <= j < |row| => if j < i then row[j] else row[j] - ratio * pivotRow[j])
  }

  /** One elimination step: clears column `i` below the pivot `M[i][i]`. */
  function Step(M: seq<seq<real>>, n: nat, i: nat): (M': seq<seq<real>>)
    requires WellFormed(M, n) && i < n && M[i][i] != 0.0
    ensures WellFormed(M', n)
    ensures forall k :: 0 <= k <= i ==> M'[k] == M[k]
  {
    seq(n, k requires 0 <= k < n =>
      if k <= i then M[k] else RowStep(M[k], M[i], i, M[k][i] / M[i][i]))
  }

  /** Forward elimination from column `i`: fails at the first pivot below the threshold. */
  function Eliminate(M: seq<seq<real>>, n: nat, i: nat): (r: Result<seq<seq<real>>>)
    requires WellFormed(M, n) && i <= n
    ensures r.Ok? ==> WellFormed(r.value, n)
    decreases n - i
  {
    if i == n then Ok(M)
    else if Abs(M[i][i]) < PivotEpsilon then Err("matrix is singular or nearly singular")
    else Eliminate(Step(M, n, i), n, i + 1)
  }

  /** Back substitution from row `i - 1` up to row 0, on a partially filled `x`. */
  function BackFrom(U: seq<seq<real>>, n: nat, x: seq<real>, i: nat): (x': seq<real>)
    requires WellFormed(U, n) && |x| == n && i <= n
    requires forall k :: 0 <= k < n ==> U[k][k] != 0.0
    ensures |x'| == n
    decreases i
  {
    if i == 0 then x
    else
      var v := (U[i - 1][n] - SumRange(U[i - 1], x, i, n)) / U[i - 1][i - 1];
      BackFrom(U, n, x[i - 1 := v], i - 1)
  }

  /** What the solver computes: elimination, then back substitution into a zero vector. */
  function Solve(A: seq<seq<real>>, b: seq<real>): (r: Result<seq<real>>)
    requires IsSystem(A, b)
    ensures r.Ok? ==> |r.value| == |A|
  {
    var n := |A|;
    match Eliminate(Augment(A, b), n, 0)
    case Err(e) => Err(e)
    case Ok(U) =>
      EliminateSound(Augment(A, b), n, 0);
      Ok(BackFrom(U, n, seq(n, _ => 0.0), n))
  }

  // ---------------------------------------------------------------------------
  // Lemmas about sums

  lemma {:induction false} SumSplit(row: seq<real>, x: seq<real>, lo: nat, mid: nat, hi: nat)
    requires lo <= mid <= hi <= |row| && hi <= |x|
    ensures SumRange(row, x, lo, hi) == SumRange(row, x, lo, mid) + SumRange(row, x, mid, hi)
    decreases hi
  {
    if hi > mid {
      SumSplit(row, x, lo, mid, hi - 1);
    }
  }

  /** A sum only depends on the entries inside its range. */
  lemma {:induction false} SumCongruent(row: seq<real>, x: seq<real>, row': seq<real>, x': seq<real>, lo: nat, hi: nat)
    requires hi <= |row| && hi <= |x| && hi <= |row'| && hi <= |x'|
    requires forall j :: lo <= j < hi ==> row[j] == row'[j] && x[j] == x'[j]
    ensures SumRange(row, x, lo, hi) == SumRange(row', x', lo, hi)
    decreases hi
  {
    if hi > lo {
      SumCongruent(row, x, row', x', lo, hi - 1);
    }
  }

  lemma {:induction false} SumOfZeroRow(row: seq<real>, x: seq<real>, lo: nat, hi: nat)
    requires hi <= |row| && hi <= |x|
    requires forall j :: lo <= j < hi ==> row[j] == 0.0
    ensures SumRange(row, x, lo, hi) == 0.0
    decreases hi
  {
    if hi > lo {
      SumOfZeroRow(row, x, lo, hi - 1);
    }
  }

  /** Sums are linear in the row: `c = a - r * p` gives `sum c = sum a - r * sum p`. */
  lemma {:induction false} SumLinear(a: seq<real>, p: seq<real>, c: seq<real>, x: seq<real>, ratio: real, lo: nat, hi: nat)
    requires hi <= |a| && hi <= |p| && hi <= |c| && hi <= |x|
    requires forall j :: lo <= j < hi ==> c[j] == a[j] - ratio * p[j]
    ensures SumRange(c, x, lo, hi) == SumRange(a, x, lo, hi) - ratio * SumRange(p, x, lo, hi)
    decreases hi
  {
    if hi > lo {
      SumLinear(a, p, c, x, ratio, lo, hi - 1);
    }
  }

  // ---------------------------------------------------------------------------
  // Soundness of elimination and back substitution

  /** One step keeps the zeros below the diagonal and adds column `i` to them. */
  lemma StepLowerZero(M: seq<seq<real>>, n: nat, i: nat)
    requires WellFormed(M, n) && i < n && M[i][i] != 0.0 && LowerZero(M, n, i)
    ensures LowerZero(Step(M, n, i), n, i + 1)
  {
    var M' := Step(M, n, i);
    forall k, j | 0 <= j < k < n && j < i + 1
      ensures M'[k][j] == 0.0
    {
      if k > i && j == i {
        var ratio := M[k][i] / M[i][i];
        assert ratio * M[i][i] == M[k][i];
      }
    }
  }

  /** Any solution of the stepped system solves the system before the step. */
  lemma StepSound(M: seq<seq<real>>, n: nat, i: nat, x: seq<real>)
    requires WellFormed(M, n) && i < n && M[i][i] != 0.0 && LowerZero(M, n, i) && |x| == n
    requires SolvesAug(Step(M, n, i), n, x)
    ensures SolvesAug(M, n, x)
  {
    var M' := Step(M, n, i);
    forall k | 0 <= k < n
      ensures RowHolds(M, n, x, k)
    {
      if k > i {
        assert RowHolds(M', n, x, k) && RowHolds(M', n, x, i);
        var ratio := M[k][i] / M[i][i];
        forall j | 0 <= j < n
          ensures M'[k][j] == M[k][j] - ratio * M[i][j]
        {
          if j < i {
            assert M[i][j] == 0.0;
          }
        }
        SumLinear(M[k], M[i], M'[k], x, ratio, 0, n);
      } else {
        assert RowHolds(M', n, x, k);
      }
    }
  }

  /** Successful elimination yields an upper-triangular system with large pivots, keeping the rows above `i`. */
  lemma {:induction false} EliminateShape(M: seq<seq<real>>, n: nat, i: nat)
    requires WellFormed(M, n) && i <= n && LowerZero(M, n, i)
    requires Eliminate(M, n, i).Ok?
    ensures var U := Eliminate(M, n, i).value;
      && LowerZero(U, n, n)
      && (forall k :: 0 <= k < i ==> U[k] == M[k])
      && (forall k :: i <= k < n ==> Abs(U[k][k]) >= PivotEpsilon)
    decreases n - i
  {
    if i < n {
      var M' := Step(M, n, i);
      StepLowerZero(M, n, i);
      EliminateShape(M', n, i + 1);
      assert Eliminate(M, n, i).value[i] == M'[i] == M[i];
    }
  }

  /** A solution of the eliminated system solves the system elimination started from. */
  lemma {:induction false} EliminateSolution(M: seq<seq<real>>, n: nat, i: nat, x: seq<real>)
    requires WellFormed(M, n) && i <= n && LowerZero(M, n, i) && |x| == n
    requires Eliminate(M, n, i).Ok? && SolvesAug(Eliminate(M, n, i).value, n, x)
    ensures SolvesAug(M, n, x)
    decreases n - i
  {
    if i < n {
      StepLowerZero(M, n, i);
      EliminateSolution(Step(M, n, i), n, i + 1, x);
      StepSound(M, n, i, x);
    }
  }

  /** Successful elimination yields an upper-triangular system with large pivots and no more solutions. */
  lemma EliminateSound(M: seq<seq<real>>, n: nat, i: nat)
    requires WellFormed(M, n) && i <= n && LowerZero(M, n, i)
    requires Eliminate(M, n, i).Ok?
    ensures var U := Eliminate(M, n, i).value;
      && LowerZero(U, n, n)
      && (forall k :: 0 <= k < i ==> U[k] == M[k])
      && (forall k :: i <= k < n ==> Abs(U[k][k]) >= PivotEpsilon)
      && (forall x :: |x| == n && SolvesAug(U, n, x) ==> SolvesAug(M, n, x))
  {
    EliminateShape(M, n, i);
    forall x | |x| == n && SolvesAug(Eliminate(M, n, i).value, n, x)
      ensures SolvesAug(M, n, x)
    {
      EliminateSolution(M, n, i, x);
    }
  }

  /** Back substitution solves an upper-triangular system whose rows from `i` on already hold. */
  lemma {:induction false} BackSound(U: seq<seq<real>>, n: nat, x: seq<real>, i: nat)
    requires WellFormed(U, n) && |x| == n && i <= n && LowerZero(U, n, n)
    requires forall k :: 0 <= k < n ==> U[k][k] != 0.0
    requires forall k :: i <= k < n ==> RowHolds(U, n, x, k)
    ensures SolvesAug(U, n, BackFrom(U, n, x, i))
    decreases i
  {
    if i > 0 {
      var r := i - 1;
      var v := (U[r][n] - SumRange(U[r], x, i, n)) / U[r][r];
      var x' := x[r := v];
      forall k | i <= k < n
        ensures RowHolds(U, n, x', k)
      {
        assert RowHolds(U, n, x, k);
        SumSplit(U[k], x, 0, k, n);
        SumSplit(U[k], x', 0, k, n);
        SumOfZeroRow(U[k], x, 0, k);
        SumOfZeroRow(U[k], x', 0, k);
        SumCongruent(U[k], x, U[k], x', k, n);
      }
      assert RowHolds(U, n, x', r) by {
        SumSplit(U[r], x', 0, r, n);
        SumOfZeroRow(U[r], x', 0, r);
        SumSplit(U[r], x', r, i, n);
        SumCongruent(U[r], x, U[r], x', i, n);
        assert SumRange(U[r], x', r, i) == U[r][r] * v;
      }
      BackSound(U, n, x', r);
    }
  }

  /** A successful solve satisfies `A * x == b` exactly. */
  lemma SolveSound(A: seq<seq<real>>, b: seq<real>)
    requires IsSystem(A, b) && Solve(A, b).Ok?
    ensures Solves(A, b, Solve(A, b).value)
  {
    var n := |A|;
    var M := Augment(A, b);
    EliminateSound(M, n, 0);
    var U := Eliminate(M, n, 0).value;
    var x := Solve(A, b).value;
    BackSound(U, n, seq(n, _ => 0.0), n);
    forall k | 0 <= k < n
      ensures SumRange(A[k], x, 0, n) == b[k]
    {
      assert RowHolds(M, n, x, k);
      SumCongruent(A[k], x, M[k], x, 0, n);
    }
  }

  /** Without row exchanges a small leading entry fails the solve, even for an invertible matrix. */
  lemma SwapMatrixIsRejected()
    ensures Det2([0.0, 1.0, 1.0, 0.0]) != 0.0
    ensures Solve([[0.0, 1.0], [1.0, 0.0]], [1.0, 2.0]).Err?
  {
    var M := Augment([[0.0, 1.0], [1.0, 0.0]], [1.0, 2.0]);
    assert M[0][0] == 0.0;
  }

  /** The 2 x 2 identity system solves to its right-hand side. */
  lemma SolveIdentity2(a: real, b: real)
    ensures Solve([[1.0, 0.0], [0.0, 1.0]], [a, b]) == Ok([a, b])
  {
    var A := [[1.0, 0.0], [0.0, 1.0]];
    var M := Augment(A, [a, b]);
    assert M[0] == [1.0, 0.0, a] && M[1] == [0.0, 1.0, b];
    var row1 := RowStep(M[1], M[0], 0, M[1][0] / M[0][0]);
    assert row1 == M[1];
    assert Step(M, 2, 0) == M;
    assert Step(M, 2, 1) == M;
    assert Eliminate(M, 2, 2) == Ok(M);
    assert Eliminate(M, 2, 1) == Ok(M);
    assert Eliminate(M, 2, 0) == Ok(M);
    var x0: seq<real> := [0.0, 0.0];
    var x1 := x0[1 := b];
    assert SumRange(M[1], x0, 2, 2) == 0.0;
    assert BackFrom(M, 2, x0, 2) == BackFrom(M, 2, x1, 1);
    assert SumRange(M[0], x1, 1, 2) == 0.0 * b;
    assert BackFrom(M, 2, x1, 1) == BackFrom(M, 2, [a, b], 0);
    assert seq(2, _ => 0.0) == x0;
  }

  // ---------------------------------------------------------------------------
  // The imperative solver

  /** The innermost loop: row `k` minus `ratio` times row `i`, on the columns from `i` to `n`. */
  method SubtractScaledRow(M: seq<seq<real>>, n: nat, i: nat, k: nat, ratio: real) returns (M': seq<seq<real>>)
    requires WellFormed(M, n) && i < k < n
    ensures WellFormed(M', n)
    ensures M' == M[k := RowStep(M[k], M[i], i, ratio)]
  {
    M' := M;
    for j := i to n + 1
      invariant WellFormed(M', n) && M'[i] == M[i]
      invariant forall q :: 0 <= q < n && q != k ==> M'[q] == M[q]
      invariant forall c :: 0 <= c <= n ==> M'[k][c] == if i <= c < j then M[k][c] - ratio * M[i][c] else M[k][c]
    {
      M' := M'[k := M'[k][j := M'[k][j] - ratio * M'[i][j]]];
    }
    assert forall c :: 0 <= c <= n ==> M'[k][c] == RowStep(M[k], M[i], i, ratio)[c];
    assert M'[k] == RowStep(M[k], M[i], i, ratio);
  }

  /** One pass of elimination: clears column `i` in every row below the pivot. */
  method EliminateColumn(M: seq<seq<real>>, n: nat, i: nat) returns (M': seq<seq<real>>)
    requires WellFormed(M, n) && i < n && M[i][i] != 0.0
    ensures M' == Step(M, n, i)
  {
    M' := M;
    for k := i + 1 to n
      invariant WellFormed(M', n)
      invariant forall q :: 0 <= q < n ==> M'[q] == if i < q < k then Step(M, n, i)[q] else M[q]
    {
      var ratio := M'[k][i] / M'[i][i];
      M' := SubtractScaledRow(M', n, i, k, ratio);
    }
    forall q | 0 <= q < n
      ensures M'[q] == Step(M, n, i)[q]
    {
      if q <= i {
        assert Step(M, n, i)[q] == M[q];
      }
    }
  }

  /** Back substitution from the last row up, into a zero vector. */
  method BackSubstitute(U: seq<seq<real>>, n: nat) returns (x: seq<real>)
    requires WellFormed(U, n) && forall k :: 0 <= k < n ==> U[k][k] != 0.0
    ensures x == BackFrom(U, n, seq(n, _ => 0.0), n)
  {
    x := seq(n, _ => 0.0);
    var i := n;
    while i > 0
      invariant 0 <= i <= n && |x| == n
      invariant BackFrom(U, n, x, i) == BackFrom(U, n, seq(n, _ => 0.0), n)
    {
      i := i - 1;
      var sum := U[i][n];
      for j := i + 1 to n
        invariant sum == U[i][n] - SumRange(U[i], x, i + 1, j)
      {
        sum := sum - U[i][j] * x[j];
      }
      x := x[i := sum / U[i][i]];
    }
  }

  /**
   * Copies `A` and `b` into an augmented matrix, eliminates below each pivot and
   * back-substitutes. The inputs are values, so they are not modified.
   */
  method SolveLinearSystem(A: seq<seq<real>>, b: seq<real>) returns (r: Result<seq<real>>)
    requires IsSystem(A, b)
    ensures r == Solve(A, b)
    ensures |A| > 0 && Abs(A[0][0]) < PivotEpsilon ==> r.Err?
    ensures r.Ok? ==> |r.value| == |A| && Solves(A, b, r.value)
  {
    var n := |A|;
    var augmented: seq<seq<real>> := [];
    for i := 0 to n
      invariant augmented == Augment(A, b)[..i]
    {
      augmented := augmented + [A[i] + [b[i]]];
    }
    ghost var M0 := augmented;
    assert M0 == Augment(A, b);

    for i := 0 to n
      invariant WellFormed(augmented, n)
      invariant Eliminate(augmented, n, i) == Eliminate(M0, n, 0)
    {
      if Abs(augmented[i][i]) < PivotEpsilon {
        return Err("matrix is singular or nearly singular");
      }
      augmented := EliminateColumn(augmented, n, i);
    }
    assert Eliminate(augmented, n, n) == Ok(augmented);
    EliminateSound(M0, n, 0);

    var x := BackSubstitute(augmented, n);
    r := Ok(x);
    if r.Ok? {
      SolveSound(A, b);
    }
  }
}
