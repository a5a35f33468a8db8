/**
 The two size policies of the quantile bucket sort: how many buckets to use
 and how many elements to sample. The source computes both with floating
 point (`int(math.sqrt(n))` and `int(n * 0.01)`); here they are the integer
 values those expressions are meant to denote, both truncating.
 */
module Sizing {

  /** `(2h)^2 = 4h^2` and `(2h+2)^2 = 4(h+1)^2`. */
  lemma DoubleSquare(h: nat)
    ensures (2 * h) * (2 * h) == 4 * (h * h)
    ensures (2 * h + 2) * (2 * h + 2) == 4 * ((h + 1) * (h + 1))
  {
  }

  /** The integer square root, rounded down. */
  function FloorSqrt(n: nat): (r: nat)
    ensures r * r <= n < (r + 1) * (r + 1)
  {
    if n < 4 then
      if n == 0 then 0 else 1
    else
      var q := n / 4;
      var h := FloorSqrt(q);
      var c := 2 * h;
      DoubleSquare(h);
      assert 4 * q <= n < 4 * q + 4;
      assert c * c <= n;
      assert n < (c + 2) * (c + 2);
      if (c + 1) * (c + 1) <= n then c + 1 else c
  }

  /** Number of buckets, `max(1, int(sqrt(n)))`. */
  function NumBuckets(n: nat): (b: nat)
    ensures b >= 1
    ensures n >= 1 ==> b * b <= n < (b + 1) * (b + 1)
    ensures n >= 1 ==> b <= n
  {
    var r := FloorSqrt(n);
    if r < 1 then 1 else r
  }

  /** Sample size, `min(n, max(1000, int(n * 0.01)))`. */
  function SampleSize(n: nat): (s: nat)
    ensures s <= n
    ensures n >= 1 ==> s >= 1
    ensures s == n <==> n <= 1000
    ensures 1000 <= n <= 100_000 ==> s == 1000
    ensures n >= 100_000 ==> s == n / 100
  {
    var atLeast := if 1000 < n / 100 then n / 100 else 1000;
    if n < atLeast then n else atLeast
  }
}
