/** Integer facts about Euclidean division used by the index and byte arithmetic. */
module Arith {

  /** Division and remainder are determined by any quotient/remainder split. */
  lemma DivModUnique(x: int, m: int, q: int, r: int)
    requires m > 0 && 0 <= r < m && x == q * m + r
    ensures x / m == q && x % m == r
  {
    var q', r' := x / m, x % m;
    assert x == q' * m + r' && 0 <= r' < m;
    if q' > q {
      assert q' * m >= (q + 1) * m by { MulMonotone(q + 1, q', m); }
    } else if q' < q {
      assert q * m >= (q' + 1) * m by { MulMonotone(q' + 1, q, m); }
    }
  }

  lemma MulMonotone(a: int, b: int, m: int)
    requires a <= b && m >= 0
    ensures a * m <= b * m
  {
  }

  /** `a + m * b` splits back into `a` and `b` when `0 <= a < m`. */
  lemma DivModOfSum(a: int, b: int, m: int)
    requires m > 0 && 0 <= a < m
    ensures (a + m * b) / m == b && (a + m * b) % m == a
  {
    DivModUnique(a + m * b, m, b, a);
  }

  /** Reducing modulo `m * p` keeps the low digit and reduces the rest modulo `p`. */
  lemma ModOfMulSplit(a: int, u: int, m: int, p: int)
    requires m > 0 && p > 0 && 0 <= a < m
    ensures (a + m * u) % (m * p) == a + m * (u % p)
  {
    var q, r := u / p, u % p;
    assert u == q * p + r;
    assert a + m * u == q * (m * p) + (a + m * r) by {
      assert m * u == m * (q * p) + m * r;
      assert m * (q * p) == q * (m * p);
    }
    assert 0 <= a + m * r < m * p by {
      assert m * r <= m * (p - 1) by { MulMonotone(r, p - 1, m); }
    }
    DivModUnique(a + m * u, m * p, q, a + m * r);
  }

  /** A mixed-radix digit bound: `a + m * b < m * n` when `a < m` and `b < n`. */
  lemma MixedRadixBound(a: int, b: int, m: int, n: int)
    requires 0 <= a < m && 0 <= b < n
    ensures 0 <= a + m * b < m * n
  {
    assert m * b <= m * (n - 1) by { MulMonotone(b, n - 1, m); }
  }

  /** Quotient and remainder of a natural number by a positive divisor. */
  lemma DivModBounds(l: int, m: int)
    requires l >= 0 && m > 0
    ensures 0 <= l / m <= l && 0 <= l % m < m && l == (l / m) * m + l % m
  {
    var q := l / m;
    assert q >= 0;
    MulMonotone(1, m, q);
  }

  /** A quotient by `m` of a number below `m * p` is below `p`. */
  lemma DivBelow(l: int, m: int, p: int)
    requires 0 <= l < m * p && m > 0
    ensures l / m < p
  {
    DivModBounds(l, m);
    if l / m >= p {
      MulMonotone(p, l / m, m);
    }
  }

  /** Dividing by `a` and then by `b` is dividing by `a * b`. */
  lemma DivDiv(l: int, a: int, b: int)
    requires l >= 0 && a > 0 && b > 0
    ensures (l / a) / b == l / (a * b)
  {
    var q1, r1 := l / a, l % a;
    var q2, r2 := q1 / b, q1 % b;
    assert l == q2 * (a * b) + (r2 * a + r1) by {
      assert l == q1 * a + r1;
      assert q1 == q2 * b + r2;
      assert q1 * a == q2 * (a * b) + r2 * a;
    }
    assert r2 * a + r1 < a * b by {
      MulMonotone(r2, b - 1, a);
    }
    MulMonotone(0, r2, a);
    DivModUnique(l, a * b, q2, r2 * a + r1);
  }
}
