/**
 Quantile estimation: the bucket boundaries read off the sorted sample.
 Boundary `i` (for `i` in `1 .. b-1`) is the sample element at position
 `int(i / b * (s - 1))`; the source computes that position in floating
 point, and here it is the exact truncated quotient `(i * (s - 1)) / b`.
 */
module Boundaries {
  import opened Sorting

  /** Truncating division by a positive divisor is monotone. */
  lemma DivMonotone(m: nat, n: nat, b: nat)
    requires b >= 1 && m <= n
    ensures m / b <= n / b
  {
    var q, r := m / b, n / b;
    assert m == q * b + m % b;
    assert n == r * b + n % b;
    assert (q - r) * b == q * b - r * b;
    PositiveMultiple(q - r, b);
  }

  lemma PositiveMultiple(d: int, b: nat)
    ensures d >= 1 ==> d * b >= b
  {
    if d >= 1 {
      MulMonotone(1, d, b);
    }
  }

  /** A dividend of at most `t * b` gives a quotient of at most `t`. */
  lemma QuotientAtMost(m: nat, b: nat, t: nat)
    requires b >= 1 && m <= t * b
    ensures m / b <= t
  {
    var k := m / b;
    assert m == k * b + m % b;
    assert (k - t) * b == k * b - t * b;
    PositiveMultiple(k - t, b);
  }

  lemma MulMonotone(x: int, y: int, b: nat)
    requires x <= y
    ensures x * b <= y * b
  {
  }

  /** Position in the sorted sample of the `i`-th of `b` quantiles. */
  function QuantileIndex(i: nat, b: nat, s: nat): (k: nat)
    requires b >= 1 && s >= 1 && i <= b
    ensures k <= s - 1
    ensures k * b <= i * (s - 1) < (k + 1) * b
  {
    MulMonotone(i, b, s - 1);
    QuotientAtMost(i * (s - 1), b, s - 1);
    (i * (s - 1)) / b
  }

  /** A later quantile never sits at an earlier sample position. */
  lemma QuantileIndexMonotone(i: nat, j: nat, b: nat, s: nat)
    requires b >= 1 && s >= 1 && i <= j <= b
    ensures QuantileIndex(i, b, s) <= QuantileIndex(j, b, s)
  {
    MulMonotone(i, j, s - 1);
    DivMonotone(i * (s - 1), j * (s - 1), b);
  }

  /** The `b - 1` boundary values, taken from the sorted sample. */
  function SelectBoundaries(sample: seq<int>, b: nat): (bounds: seq<int>)
    requires b >= 1 && (|sample| >= 1 || b == 1)
    ensures |bounds| == b - 1
    ensures forall k :: 0 <= k < |bounds| ==> bounds[k] in multiset(sample)
  {
    seq(b - 1, k requires 0 <= k < b - 1 => sample[QuantileIndex(k + 1, b, |sample|)])
  }

  /** A sorted sample gives non-decreasing boundaries. */
  lemma BoundariesSorted(sample: seq<int>, b: nat)
    requires b >= 1 && (|sample| >= 1 || b == 1)
    requires Sorted(sample)
    ensures Sorted(SelectBoundaries(sample, b))
  {
    var bounds := SelectBoundaries(sample, b);
    forall i, j | 0 <= i <= j < |bounds|
      ensures bounds[i] <= bounds[j]
    {
      QuantileIndexMonotone(i + 1, j + 1, b, |sample|);
    }
  }
}
