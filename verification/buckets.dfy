/**
 Bucket assignment. An element's bucket is the number of boundaries strictly
 below it, which on non-decreasing boundaries is the leftmost insertion point
 `bisect_left` returns. Elements are appended to their bucket in input order.
 */
module Buckets {
  import opened Sorting

  /** Number of boundaries strictly less than `x`. */
  function CountLess(bounds: seq<int>, x: int): (c: nat)
    ensures c <= |bounds|
    ensures c == 0 <==> forall j :: 0 <= j < |bounds| ==> x <= bounds[j]
    ensures c == |bounds| <==> forall j :: 0 <= j < |bounds| ==> bounds[j] < x
  {
    if bounds == [] then 0
    else (if bounds[0] < x then 1 else 0) + CountLess(bounds[1..], x)
  }

  /** A larger element never lands in an earlier bucket. */
  lemma {:induction false} CountLessMonotone(bounds: seq<int>, y: int, z: int)
    requires y <= z
    ensures CountLess(bounds, y) <= CountLess(bounds, z)
  {
    if bounds != [] {
      CountLessMonotone(bounds[1..], y, z);
    }
  }

  /**
   On non-decreasing boundaries, `CountLess` is the leftmost insertion point:
   `k` is the bucket of `x` exactly when every boundary before position `k`
   is below `x` and every boundary from position `k` on is at least `x`.
   */
  lemma {:induction false} CountLessIsInsertionPoint(bounds: seq<int>, x: int, k: nat)
    requires Sorted(bounds)
    ensures CountLess(bounds, x) == k <==>
              k <= |bounds|
              && (forall j :: 0 <= j < k ==> bounds[j] < x)
              && (forall j :: k <= j < |bounds| ==> x <= bounds[j])
  {
    if bounds != [] && k <= |bounds| {
      var tail := bounds[1..];
      assert Sorted(tail);
      if bounds[0] < x {
        if k >= 1 {
          CountLessIsInsertionPoint(tail, x, k - 1);
          assert forall j :: 1 <= j < k ==> (bounds[j] < x <==> tail[j - 1] < x);
          assert forall j :: k <= j < |bounds| ==> (x <= bounds[j] <==> x <= tail[j - 1]);
        }
      } else {
        assert forall j :: 0 <= j < |bounds| ==> x <= bounds[j];
      }
    }
  }

  /** The two bounds of bucket `k`: `(bounds[k-1], bounds[k]]`. */
  lemma BucketRange(bounds: seq<int>, x: int)
    requires Sorted(bounds)
    ensures var k := CountLess(bounds, x);
            (k > 0 ==> bounds[k - 1] < x) && (k < |bounds| ==> x <= bounds[k])
  {
    CountLessIsInsertionPoint(bounds, x, CountLess(bounds, x));
  }

  /**
   Conversely, on sorted boundaries an element lying in `(bounds[k-1], bounds[k]]`
   goes to bucket `k`.
   */
  lemma InRangeGoesToBucket(bounds: seq<int>, x: int, k: nat)
    requires Sorted(bounds) && k <= |bounds|
    requires k > 0 ==> bounds[k - 1] < x
    requires k < |bounds| ==> x <= bounds[k]
    ensures CountLess(bounds, x) == k
  {
    CountLessIsInsertionPoint(bounds, x, k);
  }

  /** An element equal to a boundary goes to the bucket that boundary closes. */
  lemma EqualToBoundaryGoesLow(bounds: seq<int>, k: nat)
    requires Sorted(bounds) && k < |bounds|
    ensures CountLess(bounds, bounds[k]) <= k
  {
    var c := CountLess(bounds, bounds[k]);
    CountLessIsInsertionPoint(bounds, bounds[k], c);
  }

  /** Python's `bisect_left`: lower-bound binary search. */
  method BisectLeft(bounds: seq<int>, x: int) returns (lo: nat)
    requires Sorted(bounds)
    ensures lo <= |bounds|
    ensures forall j :: 0 <= j < lo ==> bounds[j] < x
    ensures forall j :: lo <= j < |bounds| ==> x <= bounds[j]
    ensures lo == CountLess(bounds, x)
  {
    lo := 0;
    var hi := |bounds|;
    while lo < hi
      invariant 0 <= lo <= hi <= |bounds|
      invariant forall j :: 0 <= j < lo ==> bounds[j] < x
      invariant forall j :: hi <= j < |bounds| ==> x <= bounds[j]
      decreases hi - lo
    {
      var mid := (lo + hi) / 2;
      if bounds[mid] < x {
        lo := mid + 1;
      } else {
        hi := mid;
      }
    }
    CountLessIsInsertionPoint(bounds, x, lo);
  }

  /** Concatenation of buckets in index order. */
  function Flatten(buckets: seq<seq<int>>): (r: seq<int>)
    ensures forall y :: y in r <==> exists k :: 0 <= k < |buckets| && y in buckets[k]
  {
    if buckets == [] then []
    else Flatten(buckets[..|buckets| - 1]) + buckets[|buckets| - 1]
  }

  /** Appending `x` to one bucket adds exactly `x` to the concatenation. */
  lemma {:induction false} FlattenAppend(buckets: seq<seq<int>>, k: nat, x: int)
    requires k < |buckets|
    ensures multiset(Flatten(buckets[k := buckets[k] + [x]]))
            == multiset(Flatten(buckets)) + multiset{x}
  {
    var updated := buckets[k := buckets[k] + [x]];
    var last := |buckets| - 1;
    if k == last {
      assert updated[..last] == buckets[..last];
    } else {
      assert updated[..last] == buckets[..last][k := buckets[k] + [x]];
      FlattenAppend(buckets[..last], k, x);
    }
  }

  /** Buckets that are all empty concatenate to nothing. */
  lemma {:induction false} FlattenAllEmpty(buckets: seq<seq<int>>)
    requires forall k :: 0 <= k < |buckets| ==> buckets[k] == []
    ensures Flatten(buckets) == []
  {
    if buckets != [] {
      FlattenAllEmpty(buckets[..|buckets| - 1]);
    }
  }

  /** `b` empty buckets. */
  function EmptyBuckets(b: nat): (r: seq<seq<int>>)
    ensures |r| == b && Flatten(r) == []
  {
    var r := seq(b, _ => []);
    FlattenAllEmpty(r);
    r
  }

  /** The elements of `data` whose bucket is `k`, in input order. */
  function BucketOf(data: seq<int>, bounds: seq<int>, k: nat): (r: seq<int>)
    ensures forall y :: y in r ==> y in data && CountLess(bounds, y) == k
    ensures forall y :: y in data && CountLess(bounds, y) == k ==> y in r
    ensures forall y :: multiset(r)[y] == if CountLess(bounds, y) == k then multiset(data)[y] else 0
  {
    if data == [] then []
    else
      var init := data[..|data| - 1];
      var x := data[|data| - 1];
      assert data == init + [x];
      BucketOf(init, bounds, k) + (if CountLess(bounds, x) == k then [x] else [])
  }

  /**
   The assignment loop: each element of `data`, in order, is appended to the
   bucket `CountLess(bounds, x)` of `b` buckets.
   */
  function Assign(data: seq<int>, bounds: seq<int>, b: nat): (buckets: seq<seq<int>>)
    requires |bounds| == b - 1 && b >= 1
    ensures |buckets| == b
    ensures forall k :: 0 <= k < b ==> buckets[k] == BucketOf(data, bounds, k)
    ensures multiset(Flatten(buckets)) == multiset(data)
  {
    if data == [] then EmptyBuckets(b)
    else
      var init := data[..|data| - 1];
      var x := data[|data| - 1];
      assert data == init + [x];
      var before := Assign(init, bounds, b);
      var k := CountLess(bounds, x);
      FlattenAppend(before, k, x);
      before[k := before[k] + [x]]
  }
}
