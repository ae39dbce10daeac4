/**
 * The statistics of stats.go over the pixels of an integer-typed image, taken as the sequence
 * of their values. Every statistic is one loop updating one accumulator of a fixed Go width;
 * the widths and their wrap-around are written out. An unknown pixel type gives `nil`.
 */
module Stats {
  import opened Results
  import opened Pixels
  import Arith

  // ---------------------------------------------------------------------------
  // Fixed-width integers
  // ---------------------------------------------------------------------------

  /** 2^(8 * bytes of `t`): the number of values of the type. */
  function Modulus(t: PixelType): (m: nat)
    ensures m == Pow256(BytesPerPixel(t))
  {
    assert Pow256(1) == 256 && Pow256(2) == 0x1_0000;
    assert Pow256(4) == 0x1_0000_0000;
    assert Pow256(8) == 0x1_0000_0000_0000_0000 by {
      assert Pow256(8) == 0x1_0000 * Pow256(6);
      assert Pow256(6) == 0x1_0000 * Pow256(4);
    }
    match BytesPerPixel(t)
    case 1 => 256
    case 2 => 0x1_0000
    case 4 => 0x1_0000_0000
    case 8 => 0x1_0000_0000_0000_0000
  }

  /** The range of an integer type in terms of its modulus. */
  lemma RangeOfModulus(t: PixelType)
    ensures Modulus(t) >= 256 && Modulus(t) % 2 == 0
    ensures MinValue(t) == (if t.IsSigned() then -(Modulus(t) / 2) else 0)
    ensures MaxValue(t) == (if t.IsSigned() then Modulus(t) / 2 - 1 else Modulus(t) - 1)
  {
  }

  predicate InRange(t: PixelType, v: int)
  {
    MinValue(t) <= v <= MaxValue(t)
  }

  /** The values of a typed slice all lie in the range of its element type. */
  predicate AllInRange(t: PixelType, values: seq<int>)
  {
    forall k :: 0 <= k < |values| ==> InRange(t, values[k])
  }

  /** Go's conversion of an integer into type `t`: the value of `t` congruent to `x` modulo 2^width. */
  function Wrap(t: PixelType, x: int): (r: int)
    ensures InRange(t, r)
    ensures (x - r) % Modulus(t) == 0
  {
    var m := Modulus(t);
    RangeOfModulus(t);
    var u := x % m;
    ModOfShift(0, x / m, m);
    ModOfShift(0, x / m + 1, m);
    assert x - u == (x / m) * m;
    if t.IsSigned() && 2 * u >= m then
      assert x - (u - m) == (x / m + 1) * m;
      u - m
    else u
  }

  /** Wrapping leaves the values of the type as they are. */
  lemma WrapInRange(t: PixelType, x: int)
    requires InRange(t, x)
    ensures Wrap(t, x) == x
  {
    var m := Modulus(t);
    RangeOfModulus(t);
    if x < 0 {
      Arith.DivModUnique(x, m, -1, x + m);
    } else {
      Arith.DivModUnique(x, m, 0, x);
    }
  }

  /** Wrapping after every addition is wrapping once at the end. */
  lemma WrapOfSum(t: PixelType, a: int, b: int)
    ensures Wrap(t, Wrap(t, a) + b) == Wrap(t, a + b)
  {
    var m := Modulus(t);
    var w := Wrap(t, a);
    var q := (a - w) / m;
    assert a - w == q * m;
    assert (w + b) % m == (a + b) % m by {
      assert a + b == (w + b) + q * m;
      ModOfShift(w + b, q, m);
    }
  }

  lemma ModOfShift(x: int, q: int, m: int)
    requires m > 0
    ensures (x + q * m) % m == x % m
  {
    var r := x % m;
    var d := x / m;
    assert x + q * m == (d + q) * m + r;
    Arith.DivModUnique(x + q * m, m, d + q, r);
  }

  /** The accumulator type of `Sum` and `ExactMean`: `uint64` for unsigned pixels, `int64` for signed ones. */
  function Accumulator(t: PixelType): PixelType
  {
    if t.IsSigned() then Int64 else UInt64
  }

  /** Go's integer division, which truncates toward zero. */
  function TruncDiv(a: int, b: int): int
    requires b != 0
  {
    var q := (if a < 0 then -a else a) / (if b < 0 then -b else b);
    if (a < 0) == (b < 0) then q else -q
  }

  // ---------------------------------------------------------------------------
  // Reference definitions over the whole sequence
  // ---------------------------------------------------------------------------

  /** The exact sum of the values. */
  function SeqSum(s: seq<int>): int
  {
    if s == [] then 0 else SeqSum(s[..|s| - 1]) + s[|s| - 1]
  }

  /** The running minimum the `Min` loop keeps, starting from `start`. */
  function MinFrom(start: int, s: seq<int>): int
  {
    if s == [] then start
    else
      var m := MinFrom(start, s[..|s| - 1]);
      if s[|s| - 1] < m then s[|s| - 1] else m
  }

  /** The running maximum the `Max` loop keeps, starting from `start`. */
  function MaxFrom(start: int, s: seq<int>): int
  {
    if s == [] then start
    else
      var m := MaxFrom(start, s[..|s| - 1]);
      if s[|s| - 1] > m then s[|s| - 1] else m
  }

  lemma {:induction false} MinFromLeast(start: int, s: seq<int>)
    ensures MinFrom(start, s) <= start
    ensures forall k :: 0 <= k < |s| ==> MinFrom(start, s) <= s[k]
    ensures MinFrom(start, s) == start || MinFrom(start, s) in s
  {
    if s != [] {
      var init := s[..|s| - 1];
      MinFromLeast(start, init);
      assert forall k :: 0 <= k < |init| ==> s[k] == init[k];
    }
  }

  lemma {:induction false} MaxFromGreatest(start: int, s: seq<int>)
    ensures MaxFrom(start, s) >= start
    ensures forall k :: 0 <= k < |s| ==> MaxFrom(start, s) >= s[k]
    ensures MaxFrom(start, s) == start || MaxFrom(start, s) in s
  {
    if s != [] {
      var init := s[..|s| - 1];
      MaxFromGreatest(start, init);
      assert forall k :: 0 <= k < |init| ==> s[k] == init[k];
    }
  }

  /** The sum lies between `|s|` times any lower bound and `|s|` times any upper bound of the values. */
  lemma {:induction false} SumBetween(s: seq<int>, lo: int, hi: int)
    requires forall k :: 0 <= k < |s| ==> lo <= s[k] <= hi
    ensures |s| * lo <= SeqSum(s) <= |s| * hi
  {
    if s != [] {
      var init := s[..|s| - 1];
      assert forall k :: 0 <= k < |init| ==> init[k] == s[k];
      SumBetween(init, lo, hi);
      assert |s| * lo == |init| * lo + lo;
      assert |s| * hi == |init| * hi + hi;
    }
  }

  lemma PrefixStep(s: seq<int>, i: nat)
    requires i < |s|
    ensures s[..i + 1][..i] == s[..i] && s[..i + 1][i] == s[i]
  {
  }

  // ---------------------------------------------------------------------------
  // The statistics
  // ---------------------------------------------------------------------------

  /** A known pixel type is an integer type, and every element lies in its range; the float branches are not modelled. */
  predicate Typed(code: int, values: seq<int>)
  {
    FromCode(code).Some? ==> !FromCode(code).value.IsFloat() && AllInRange(FromCode(code).value, values)
  }

  /** `Min`: the least element, starting from the type's maximum; `nil` for an unknown type. */
  method Min(code: int, values: seq<int>) returns (r: Option<int>)
    requires Typed(code, values)
    ensures r.None? <==> FromCode(code).None?
    ensures r.Some? ==> r.value == MinFrom(MaxValue(FromCode(code).value), values)
    ensures r.Some? ==> forall k :: 0 <= k < |values| ==> r.value <= values[k]
    ensures r.Some? && |values| > 0 ==> r.value in values
    ensures r.Some? && |values| == 0 ==> r.value == MaxValue(FromCode(code).value)
  {
    if FromCode(code).None? {
      return None;
    }
    var t := FromCode(code).value;
    var minValue := MaxValue(t);
    var i := 0;
    while i < |values|
      invariant 0 <= i <= |values|
      invariant minValue == MinFrom(MaxValue(t), values[..i])
    {
      PrefixStep(values, i);
      if values[i] < minValue {
        minValue := values[i];
      }
      i := i + 1;
    }
    assert values[..i] == values;
    MinFromLeast(MaxValue(t), values);
    if |values| > 0 && minValue == MaxValue(t) {
      assert values[0] == minValue;
    }
    r := Some(minValue);
  }

  /** `Max`: the greatest element, starting from 0 for unsigned types and the type's minimum for signed ones. */
  method Max(code: int, values: seq<int>) returns (r: Option<int>)
    requires Typed(code, values)
    ensures r.None? <==> FromCode(code).None?
    ensures r.Some? ==> r.value == MaxFrom(MinValue(FromCode(code).value), values)
    ensures r.Some? ==> forall k :: 0 <= k < |values| ==> r.value >= values[k]
    ensures r.Some? && |values| > 0 ==> r.value in values
    ensures r.Some? && |values| == 0 ==> r.value == MinValue(FromCode(code).value)
  {
    if FromCode(code).None? {
      return None;
    }
    var t := FromCode(code).value;
    var maxValue := MinValue(t);
    var i := 0;
    while i < |values|
      invariant 0 <= i <= |values|
      invariant maxValue == MaxFrom(MinValue(t), values[..i])
    {
      PrefixStep(values, i);
      if values[i] > maxValue {
        maxValue := values[i];
      }
      i := i + 1;
    }
    assert values[..i] == values;
    MaxFromGreatest(MinValue(t), values);
    if |values| > 0 && maxValue == MinValue(t) {
      assert values[0] == maxValue;
    }
    r := Some(maxValue);
  }

  /** The accumulation loop of `Sum` and `ExactMean`: each value added into an accumulator of type `acc`. */
  method SumInto(acc: PixelType, values: seq<int>) returns (sum: int)
    ensures sum == Wrap(acc, SeqSum(values))
  {
    sum := 0;
    WrapInRange(acc, 0);
    var i := 0;
    while i < |values|
      invariant 0 <= i <= |values|
      invariant sum == Wrap(acc, SeqSum(values[..i]))
    {
      PrefixStep(values, i);
      WrapOfSum(acc, SeqSum(values[..i]), values[i]);
      sum := Wrap(acc, sum + values[i]);
      i := i + 1;
    }
    assert values[..i] == values;
  }

  /** `Sum`: the sum in `uint64` or `int64`, wrapping modulo 2^64. */
  method Sum(code: int, values: seq<int>) returns (r: Option<int>)
    requires Typed(code, values)
    ensures r.None? <==> FromCode(code).None?
    ensures r.Some? ==> r.value == Wrap(Accumulator(FromCode(code).value), SeqSum(values))
  {
    if FromCode(code).None? {
      return None;
    }
    var s := SumInto(Accumulator(FromCode(code).value), values);
    r := Some(s);
  }

  /** The 8-, 16- and 32-bit sums never wrap while the buffer holds at most 2^32 pixels. */
  lemma SumOfNarrowTypes(t: PixelType, values: seq<int>)
    requires !t.IsFloat() && BytesPerPixel(t) <= 4 && AllInRange(t, values) && |values| <= 0x1_0000_0000
    ensures Wrap(Accumulator(t), SeqSum(values)) == SeqSum(values)
  {
    RangeOfModulus(t);
    RangeOfModulus(Accumulator(t));
    var n := |values|;
    var lo, hi := MinValue(t), MaxValue(t);
    assert -0x8000_0000 <= lo <= 0 <= hi <= 0xFFFF_FFFF;
    SumBetween(values, lo, hi);
    Arith.MulMonotone(hi, 0xFFFF_FFFF, n);
    Arith.MulMonotone(n, 0x1_0000_0000, 0xFFFF_FFFF);
    Arith.MulMonotone(-0x8000_0000, lo, n);
    Arith.MulMonotone(n, 0x1_0000_0000, 0x8000_0000);
    assert n * lo >= -0x8000_0000 * n;
    WrapInRange(Accumulator(t), SeqSum(values));
  }

  /** A float64 quotient: a number, or NaN for 0/0. */
  datatype Quotient = Finite(q: real) | NaN

  /** `ExactMean`: the 64-bit sum converted to float64 and divided by the pixel count. */
  method ExactMean(code: int, values: seq<int>) returns (r: Option<Quotient>)
    requires Typed(code, values)
    ensures r.None? <==> FromCode(code).None?
    ensures r.Some? && |values| == 0 ==> r.value == NaN
    ensures r.Some? && |values| > 0 ==>
      r.value == Finite(Wrap(Accumulator(FromCode(code).value), SeqSum(values)) as real / |values| as real)
  {
    if FromCode(code).None? {
      return None;
    }
    var s := SumInto(Accumulator(FromCode(code).value), values);
    if |values| == 0 {
      return Some(NaN);
    }
    r := Some(Finite(s as real / |values| as real));
  }

  /** `Mean`: the sum in the pixel's own width, divided by the count converted to that width. */
  method Mean(code: int, values: seq<int>) returns (r: Option<Result<int>>)
    requires Typed(code, values)
    ensures r.None? <==> FromCode(code).None?
    ensures r.Some? ==> (r.value.Err? <==> |values| % Modulus(FromCode(code).value) == 0)
    ensures r.Some? && r.value.Ok? ==>
      var t := FromCode(code).value;
      r.value.value == Wrap(t, TruncDiv(Wrap(t, SeqSum(values)), Wrap(t, |values|)))
  {
    if FromCode(code).None? {
      return None;
    }
    var t := FromCode(code).value;
    var sumValue := SumInto(t, values);
    var count := Wrap(t, |values|);
    assert count == 0 <==> |values| % Modulus(t) == 0 by {
      RangeOfModulus(t);
    }
    if count == 0 {
      return Some(Err("integer divide by zero"));
    }
    r := Some(Ok(Wrap(t, TruncDiv(sumValue, count))));
  }

  // ---------------------------------------------------------------------------
  // Properties
  // ---------------------------------------------------------------------------

  /** Truncated division by a positive count of a sum between `n * lo` and `n * hi` stays between `lo` and `hi`. */
  lemma TruncDivBetween(sum: int, n: nat, lo: int, hi: int)
    requires n > 0 && n * lo <= sum <= n * hi
    ensures lo <= TruncDiv(sum, n) <= hi
  {
    if sum >= 0 {
      DivBetween(sum, n, lo, hi);
    } else {
      assert n * (-hi) == -(n * hi) && n * (-lo) == -(n * lo);
      DivBetween(-sum, n, -hi, -lo);
    }
  }

  /** A non-negative quotient stays between the bounds its dividend is between, scaled. */
  lemma DivBetween(s: nat, n: nat, lo: int, hi: int)
    requires n > 0 && n * lo <= s <= n * hi
    ensures lo <= s / n <= hi
  {
    var q := s / n;
    assert q * n <= s < q * n + n;
    if q < lo {
      Arith.MulMonotone(q + 1, lo, n);
    }
    if q > hi {
      Arith.MulMonotone(hi + 1, q, n);
    }
  }

  /** The intended integer mean: the exact sum divided by the count, truncated; `None` for an empty slice. */
  function IntegerMean(values: seq<int>): Option<int>
  {
    if |values| == 0 then None else Some(TruncDiv(SeqSum(values), |values|))
  }

  /** The intended mean lies between the minimum and the maximum. */
  lemma IntegerMeanBetween(t: PixelType, values: seq<int>)
    requires !t.IsFloat() && AllInRange(t, values) && |values| > 0
    ensures MinFrom(MaxValue(t), values) <= IntegerMean(values).value <= MaxFrom(MinValue(t), values)
  {
    var lo, hi := MinFrom(MaxValue(t), values), MaxFrom(MinValue(t), values);
    MinFromLeast(MaxValue(t), values);
    MaxFromGreatest(MinValue(t), values);
    SumBetween(values, lo, hi);
    TruncDivBetween(SeqSum(values), |values|, lo, hi);
  }

  /** Without wrap-around (an unsigned sum and count below 2^width), `Mean` is the intended mean. */
  lemma MeanWithoutWrap(t: PixelType, values: seq<int>)
    requires !t.IsFloat() && !t.IsSigned() && |values| > 0
    requires 0 <= SeqSum(values) < Modulus(t) && |values| < Modulus(t)
    ensures Wrap(t, |values|) != 0
    ensures Wrap(t, TruncDiv(Wrap(t, SeqSum(values)), Wrap(t, |values|))) == IntegerMean(values).value
  {
    RangeOfModulus(t);
    var s, n := SeqSum(values), |values|;
    WrapInRange(t, s);
    WrapInRange(t, n);
    var q := s / n;
    assert q * n <= s;
    Arith.MulMonotone(1, n, q);
    assert 0 <= q <= s;
    WrapInRange(t, q);
  }

  /** Summing a concatenation sums its parts. */
  lemma {:induction false} SumOfConcat(a: seq<int>, b: seq<int>)
    ensures SeqSum(a + b) == SeqSum(a) + SeqSum(b)
  {
    if b != [] {
      assert (a + b)[..|a + b| - 1] == a + b[..|b| - 1];
      SumOfConcat(a, b[..|b| - 1]);
    } else {
      assert a + b == a;
    }
  }

  /** `n` copies of `v` sum to `n * v`. */
  lemma {:induction false} SumOfCopies(v: int, n: nat)
    ensures SeqSum(seq(n, _ => v)) == n * v
  {
    if n > 0 {
      assert seq(n, _ => v)[..n - 1] == seq(n - 1, _ => v);
      SumOfCopies(v, n - 1);
    }
  }

  /** `Mean` of two `uint8` pixels of 200 is 72: the 8-bit sum wraps to 144 before the division. */
  lemma MeanWrapsExample()
    ensures SeqSum([200, 200]) == 400
    ensures Wrap(UInt8, TruncDiv(Wrap(UInt8, SeqSum([200, 200])), Wrap(UInt8, 2))) == 72
    ensures MinFrom(MaxValue(UInt8), [200, 200]) == 200
    ensures IntegerMean([200, 200]) == Some(200)
  {
    SumOfCopies(200, 2);
    assert seq(2, _ => 200) == [200, 200];
    assert Modulus(UInt8) == 256;
    assert Wrap(UInt8, 400) == 144;
    assert Wrap(UInt8, 2) == 2;
    assert Wrap(UInt8, 72) == 72;
    assert [200, 200][..1] == [200];
    assert [200][..0] == [];
  }

  /** The twelve-pixel test grid of six 0s and six 1s: `Min` 0, `Max` 1, `Mean` 0, `ExactMean` 0.5. */
  function ZeroOneGrid(): seq<int>
  {
    [0, 0, 0, 0, 0, 0, 1, 1, 1, 1, 1, 1]
  }

  lemma ZeroOneGridStatistics()
    ensures MinFrom(MaxValue(Int8), ZeroOneGrid()) == 0
    ensures MaxFrom(MinValue(Int8), ZeroOneGrid()) == 1
    ensures Wrap(Int8, TruncDiv(Wrap(Int8, SeqSum(ZeroOneGrid())), Wrap(Int8, 12))) == 0
    ensures Wrap(Int64, SeqSum(ZeroOneGrid())) as real / 12 as real == 0.5
  {
    var g := ZeroOneGrid();
    assert g == seq(6, _ => 0) + seq(6, _ => 1);
    SumOfCopies(0, 6);
    SumOfCopies(1, 6);
    SumOfConcat(seq(6, _ => 0), seq(6, _ => 1));
    assert SeqSum(g) == 6;
    RangeOfModulus(Int8);
    WrapInRange(Int8, 6);
    WrapInRange(Int8, 12);
    WrapInRange(Int8, 0);
    RangeOfModulus(Int64);
    WrapInRange(Int64, 6);
    MinFromLeast(MaxValue(Int8), g);
    MaxFromGreatest(MinValue(Int8), g);
    assert g[0] == 0 && g[11] == 1;
  }
}
