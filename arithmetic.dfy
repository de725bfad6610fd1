/** Facts about natural-number division and real steps shared by the index-to-point mappers. */
module Arithmetic {
  /** k whole steps of width/n, for k < n, stay in [0, width). */
  lemma StepsBelowExtent(k: nat, n: nat, width: real)
    requires k < n && width > 0.0
    ensures 0.0 <= (k as real) * (width / (n as real)) < width
  {
    var s := width / (n as real);
    assert s > 0.0;
    assert (n as real) * s == width;
    assert ((n - k) as real) * s > 0.0;
  }

  lemma ModShift(i: nat, d: nat)
    requires d > 0
    ensures (i + d) % d == i % d
  {
    DivUnique(i + d, d, i / d + 1, i % d);
  }

  lemma DivBelow(i: nat, a: nat, b: nat)
    requires b > 0 && i < a * b
    ensures i / b < a
  {
    var q := i / b;
    assert q * b <= i;
    if q >= a {
      MulMonotone(a, q, b);
    }
  }

  /** A non-empty buffer has non-zero dimensions. */
  lemma PositiveFactors(x: nat, y: nat)
    ensures x * y > 0 ==> x > 0 && y > 0
  {
  }

  lemma MulMonotone(a: nat, q: nat, b: nat)
    requires a <= q
    ensures a * b <= q * b
  {
  }

  /** Division is determined by the quotient-remainder decomposition. */
  lemma DivUnique(m: nat, d: nat, q: nat, r: nat)
    requires d > 0 && r < d && m == q * d + r
    ensures m / d == q && m % d == r
  {
    var q', r' := m / d, m % d;
    assert m == q' * d + r';
    if q' > q {
      MulMonotone(q + 1, q', d);
    } else if q' < q {
      MulMonotone(q' + 1, q, d);
    }
  }

  lemma DivStep(n: nat, d: nat)
    requires d > 0
    ensures (n + 1) / d == n / d + (if n % d == d - 1 then 1 else 0)
  {
    var q, r := n / d, n % d;
    assert n == q * d + r;
    if r == d - 1 {
      assert n + 1 == (q + 1) * d + 0;
      DivUnique(n + 1, d, q + 1, 0);
    } else {
      DivUnique(n + 1, d, q, r + 1);
    }
  }

  /** k whole steps of width/n, for k >= n, reach at least width. */
  lemma StepsReachExtent(k: nat, n: nat, width: real)
    requires 0 < n <= k && width > 0.0
    ensures (k as real) * (width / (n as real)) >= width
  {
    var s := width / (n as real);
    assert s > 0.0;
    assert (n as real) * s == width;
    assert ((k - n) as real) * s >= 0.0;
  }

  /** Whole steps of a positive width grow strictly with the step count. */
  lemma StepsStrictlyIncrease(k: nat, l: nat, s: real)
    requires s > 0.0 && k < l
    ensures (k as real) * s < (l as real) * s
  {
    assert ((l - k) as real) * s > 0.0;
  }

  /** Offsets by whole steps of a positive width agree exactly when the step counts do. */
  lemma StepsEqualIff(origin: real, k: nat, l: nat, s: real)
    requires s > 0.0
    ensures origin + (k as real) * s == origin + (l as real) * s <==> k == l
  {
    if k < l {
      StepsStrictlyIncrease(k, l, s);
    } else if l < k {
      StepsStrictlyIncrease(l, k, s);
    }
  }

  /** Multiplying both sides by a non-negative factor keeps the order. */
  lemma MulRightMonotone(a: real, b: real, c: real)
    requires a <= b && c >= 0.0
    ensures a * c <= b * c
  {
    assert b * c - a * c == (b - a) * c;
  }

  /** An index is determined by its quotient and remainder. */
  lemma QuotientRemainderDetermine(i: nat, j: nat, d: nat)
    requires d > 0 && i / d == j / d && i % d == j % d
    ensures i == j
  {
  }
}
