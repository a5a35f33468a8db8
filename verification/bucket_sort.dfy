/**
 The quantile-based bucket sort (`bucket_sort_quantile_based`): pick
 `NumBuckets(n)` buckets, read `NumBuckets(n) - 1` boundaries off a sorted
 sample of `SampleSize(n)` elements, send every element to the bucket of its
 leftmost insertion point among the boundaries, sort each bucket and
 concatenate the buckets in order.

 The source draws the sample with `random.sample`; here the sample is a
 parameter, and any sub-multiset of the input of the right size is allowed.
 */
module BucketSort {
  import opened Sorting
  import opened Sizing
  import opened Boundaries
  import opened Buckets

  /** What `random.sample(data, SampleSize(n))` may return. */
  predicate ValidSample(data: seq<int>, sample: seq<int>) {
    |sample| == SampleSize(|data|) && multiset(sample) <= multiset(data)
  }

  /** For every input some sample is valid, so the sort applies to every input. */
  lemma SomeSampleIsValid(data: seq<int>)
    ensures ValidSample(data, data[..SampleSize(|data|)])
  {
    var s := SampleSize(|data|);
    assert data == data[..s] + data[s..];
  }

  /** Every element of an earlier bucket is at most every element of a later one. */
  predicate BucketsOrdered(buckets: seq<seq<int>>) {
    forall i, j, y, z :: 0 <= i < j < |buckets| && y in buckets[i] && z in buckets[j] ==> y <= z
  }

  /** Each bucket sorted on its own (`sorted(bucket)` for every bucket). */
  function SortEach(buckets: seq<seq<int>>): (r: seq<seq<int>>)
    ensures |r| == |buckets|
    ensures forall k :: 0 <= k < |r| ==> Sorted(r[k]) && multiset(r[k]) == multiset(buckets[k])
  {
    seq(|buckets|, k requires 0 <= k < |buckets| => Sort(buckets[k]))
  }

  /** Sorting the buckets one by one keeps the multiset of their concatenation. */
  lemma {:induction false} SortEachKeepsElements(buckets: seq<seq<int>>)
    ensures multiset(Flatten(SortEach(buckets))) == multiset(Flatten(buckets))
  {
    if buckets != [] {
      var last := |buckets| - 1;
      assert SortEach(buckets)[..last] == SortEach(buckets[..last]);
      SortEachKeepsElements(buckets[..last]);
    }
  }

  /** Sorting the buckets one by one keeps them ordered among each other. */
  lemma SortEachKeepsOrder(buckets: seq<seq<int>>)
    requires BucketsOrdered(buckets)
    ensures BucketsOrdered(SortEach(buckets))
  {
    var sorted := SortEach(buckets);
    forall i, j, y, z | 0 <= i < j < |sorted| && y in sorted[i] && z in sorted[j]
      ensures y <= z
    {
      assert y in multiset(sorted[i]) && z in multiset(sorted[j]);
      assert y in buckets[i] && z in buckets[j];
    }
  }

  /** Two sorted runs, the first wholly below the second, concatenate sorted. */
  lemma SortedConcat(a: seq<int>, b: seq<int>)
    requires Sorted(a) && Sorted(b)
    requires forall y, z :: y in a && z in b ==> y <= z
    ensures Sorted(a + b)
  {
    var c := a + b;
    forall i, j | 0 <= i <= j < |c|
      ensures c[i] <= c[j]
    {
      if i < |a| && |a| <= j {
        assert c[i] in a && c[j] in b;
      }
    }
  }

  /** Ordered, individually sorted buckets concatenate to a sorted sequence. */
  lemma {:induction false} ConcatSorted(buckets: seq<seq<int>>)
    requires forall k :: 0 <= k < |buckets| ==> Sorted(buckets[k])
    requires BucketsOrdered(buckets)
    ensures Sorted(Flatten(buckets))
  {
    if buckets != [] {
      var last := |buckets| - 1;
      var init := buckets[..last];
      ConcatSorted(init);
      assert forall y, z :: y in Flatten(init) && z in buckets[last] ==> y <= z;
      SortedConcat(Flatten(init), buckets[last]);
    }
  }

  /** Buckets filled by `CountLess` are ordered, whatever the boundaries. */
  lemma AssignOrdered(data: seq<int>, bounds: seq<int>, b: nat)
    requires |bounds| == b - 1 && b >= 1
    ensures BucketsOrdered(Assign(data, bounds, b))
  {
    var buckets := Assign(data, bounds, b);
    forall i, j, y, z | 0 <= i < j < |buckets| && y in buckets[i] && z in buckets[j]
      ensures y <= z
    {
      assert CountLess(bounds, y) == i && CountLess(bounds, z) == j;
      if z < y {
        CountLessMonotone(bounds, z, y);
      }
    }
  }

  /**
   With non-decreasing boundaries every element of bucket `k` lies in the
   half-open range `(bounds[k-1], bounds[k]]`.
   */
  lemma AssignedBucketRange(data: seq<int>, bounds: seq<int>, b: nat, k: nat, y: int)
    requires |bounds| == b - 1 && b >= 1 && Sorted(bounds)
    requires k < b && y in Assign(data, bounds, b)[k]
    ensures y in data
    ensures k > 0 ==> bounds[k - 1] < y
    ensures k < b - 1 ==> y <= bounds[k]
  {
    BucketRange(bounds, y);
  }

  /** `bucket_sort_quantile_based(data)` when `random.sample` returns `sample`. */
  function QuantileBucketSort(data: seq<int>, sample: seq<int>): (r: seq<int>)
    requires ValidSample(data, sample)
    ensures Sorted(r)
    ensures multiset(r) == multiset(data)
    ensures |data| == 0 ==> sample == [] && r == []
  {
    if |data| == 0 then data
    else
      var b := NumBuckets(|data|);
      var bounds := SelectBoundaries(Sort(sample), b);
      var buckets := Assign(data, bounds, b);
      AssignOrdered(data, bounds, b);
      SortEachKeepsOrder(buckets);
      SortEachKeepsElements(buckets);
      ConcatSorted(SortEach(buckets));
      Flatten(SortEach(buckets))
  }

  /** The result is the input in ascending order, the same as a plain sort. */
  lemma MatchesSort(data: seq<int>, sample: seq<int>)
    requires ValidSample(data, sample)
    ensures QuantileBucketSort(data, sample) == Sort(data)
  {
    SortedUnique(QuantileBucketSort(data, sample), Sort(data));
  }

  /** Which sample is drawn changes the buckets but never the result. */
  lemma IndependentOfSample(data: seq<int>, sample1: seq<int>, sample2: seq<int>)
    requires ValidSample(data, sample1) && ValidSample(data, sample2)
    ensures QuantileBucketSort(data, sample1) == QuantileBucketSort(data, sample2)
  {
    MatchesSort(data, sample1);
    MatchesSort(data, sample2);
  }

  /** An already sorted input comes back unchanged. */
  lemma SortedInputUnchanged(data: seq<int>, sample: seq<int>)
    requires ValidSample(data, sample) && Sorted(data)
    ensures QuantileBucketSort(data, sample) == data
  {
    SortedUnique(QuantileBucketSort(data, sample), data);
  }

  /** A one-element input comes back as itself. */
  lemma SingleElement(x: int, sample: seq<int>)
    requires ValidSample([x], sample)
    ensures QuantileBucketSort([x], sample) == [x]
  {
    SortedInputUnchanged([x], sample);
  }

  /**
   Five elements: two buckets, the whole input is the sample, and the one
   boundary is the median of the sorted sample.
   */
  lemma FiveElementExample()
    ensures NumBuckets(5) == 2 && SampleSize(5) == 5
    ensures SelectBoundaries([1, 2, 3, 4, 5], 2) == [3]
  {
    assert FloorSqrt(5) == 2 by {
      assert FloorSqrt(1) == 1;
    }
    assert QuantileIndex(1, 2, 5) == 2;
  }

  /** The boundary loop: `sorted[QuantileIndex(i, b, s)]` for `i` in `1 .. b-1`. */
  method ChooseBoundaries(sorted: seq<int>, b: nat) returns (bounds: seq<int>)
    requires b >= 1 && (|sorted| >= 1 || b == 1)
    ensures |bounds| == b - 1
    ensures Sorted(sorted) ==> Sorted(bounds)
    ensures bounds == SelectBoundaries(sorted, b)
  {
    ghost var target := SelectBoundaries(sorted, b);
    bounds := [];
    var i := 1;
    while i < b
      invariant 1 <= i <= b
      invariant bounds == target[..i - 1]
    {
      var index := QuantileIndex(i, b, |sorted|);
      bounds := bounds + [sorted[index]];
      i := i + 1;
    }
    if Sorted(sorted) {
      BoundariesSorted(sorted, b);
    }
  }

  /** One more element appended to its bucket extends the assignment by one step. */
  lemma AssignStep(data: seq<int>, bounds: seq<int>, b: nat, j: nat)
    requires |bounds| == b - 1 && b >= 1 && j < |data|
    ensures var before, k := Assign(data[..j], bounds, b), CountLess(bounds, data[j]);
            Assign(data[..j + 1], bounds, b) == before[k := before[k] + [data[j]]]
  {
    assert data[..j + 1][..j] == data[..j];
  }

  /** The assignment loop: `buckets[bisect_left(bounds, x)].append(x)` for each `x`. */
  method AssignAll(data: seq<int>, bounds: seq<int>, b: nat) returns (buckets: seq<seq<int>>)
    requires |bounds| == b - 1 && b >= 1 && Sorted(bounds)
    ensures |buckets| == b
    ensures multiset(Flatten(buckets)) == multiset(data)
    ensures buckets == Assign(data, bounds, b)
  {
    buckets := EmptyBuckets(b);
    assert data[..0] == [];
    var j := 0;
    while j < |data|
      invariant 0 <= j <= |data|
      invariant buckets == Assign(data[..j], bounds, b)
    {
      var index := BisectLeft(bounds, data[j]);
      AssignStep(data, bounds, b, j);
      buckets := buckets[index := buckets[index] + [data[j]]];
      j := j + 1;
    }
    assert data[..|data|] == data;
  }

  /** The final loop: `sorted_data.extend(sorted(bucket))` for each bucket in order. */
  method SortAndConcat(buckets: seq<seq<int>>) returns (r: seq<int>)
    ensures multiset(r) == multiset(Flatten(buckets))
    ensures r == Flatten(SortEach(buckets))
  {
    r := [];
    var k := 0;
    while k < |buckets|
      invariant 0 <= k <= |buckets|
      invariant r == Flatten(SortEach(buckets[..k]))
    {
      assert SortEach(buckets[..k + 1])[..k] == SortEach(buckets[..k]);
      r := r + Sort(buckets[k]);
      k := k + 1;
    }
    assert buckets[..|buckets|] == buckets;
    SortEachKeepsElements(buckets);
  }

  /** `bucket_sort_quantile_based`, step by step as the source runs it. */
  method BucketSortQuantileBased(data: seq<int>, sample: seq<int>) returns (r: seq<int>)
    requires ValidSample(data, sample)
    ensures Sorted(r) && multiset(r) == multiset(data)
    ensures r == QuantileBucketSort(data, sample)
  {
    var n := |data|;
    if n == 0 {
      assert data == [];
      return data;
    }
    var numBuckets := NumBuckets(n);
    var sorted := Sort(sample);
    assert |sorted| >= 1;
    var bounds := ChooseBoundaries(sorted, numBuckets);
    assert Sorted(bounds);
    var buckets := AssignAll(data, bounds, numBuckets);
    r := SortAndConcat(buckets);
    assert r == QuantileBucketSort(data, sample);
  }
}
