# Quantile-based bucket sort, in Dafny

This project models `bucket_sort_quantile_based` from `main.py`. It is a
bucket sort whose bucket boundaries are quantiles estimated from a sample of
the input. It runs in five stages:

1. **Bucket count.** `max(1, int(sqrt(n)))` buckets (`Sizing.NumBuckets`).
2. **Sample size.** `min(n, max(1000, int(n * 0.01)))` sampled elements (`Sizing.SampleSize`).
3. **Sample.** A random sample of that size, sorted (`Sorting.Sort`).
4. **Boundaries.** `num_buckets - 1` boundaries. Boundary `i` is the sorted
   sample element at position `int(i / num_buckets * (sample_size - 1))`
   (`Boundaries.QuantileIndex`, `Boundaries.SelectBoundaries`).
5. **Partition, sort, concatenate.** Each element goes to bucket
   `bisect_left(boundaries, x)`, which is the number of boundaries strictly
   below it (`Buckets.CountLess`, `Buckets.BisectLeft`, `Buckets.Assign`).
   Each bucket is then sorted, and the buckets are concatenated in index
   order (`BucketSort.SortEach`, `Buckets.Flatten`).

`BucketSort.QuantileBucketSort` is the whole algorithm as a pure function.
`BucketSort.BucketSortQuantileBased` is the same algorithm as the source's
three loops, proved equal to that function. The main result is that the
output is an ascending permutation of the input. Two facts give it:

- the partition keeps the multiset, so nothing is lost or duplicated;
- buckets are ordered: the bucket index never decreases as the element grows
  (`Buckets.CountLessMonotone`), whatever the boundaries, so concatenating
  the individually sorted buckets gives a sorted sequence.

Further facts describe the buckets themselves:

- the boundaries are non-decreasing;
- bucket indices are in range;
- on those sorted boundaries, an element goes to bucket `k` if and only if it
  lies in `(b[k-1], b[k]]` (`Buckets.BucketRange`, `Buckets.InRangeGoesToBucket`).

Sorted boundaries are also what makes `bisect_left` return the count of
boundaries strictly below an element.

From the main result, together with the uniqueness of a sorted permutation,
the model proves more: the result equals a plain sort of the input, it does
not depend on which sample was drawn, and an already sorted input comes back
unchanged.

Modelling decisions:

- **Sample.** The random sample is a parameter (`BucketSort.ValidSample`).
  It is any sub-multiset of the input whose size is `SampleSize(n)`. The
  random-number generator is not modelled.
- **Integer formulas.** The floating-point formulas become the integer values
  they are meant to denote. `int(math.sqrt(n))` is the floor square root.
  `int(n * 0.01)` is `n / 100`. `int(i / b * (s - 1))` is
  `(i * (s - 1)) / b`. All of them truncate; none of them rounds.
- **Elements.** Elements are unbounded integers (`int`).
- **Sorting.** Python's `list.sort` and `sorted` are replaced by a verified
  insertion sort. The result is fully determined anyway, because a sorted
  permutation is unique.
- **Sample size.** Because of the clamp `max(1000, …)`, the whole input is
  sampled exactly when `n <= 1000`; this is proved as an if-and-only-if. For
  `1000 <= n <= 100000` the sample is exactly 1000 elements. From 100000 on
  it is `n / 100`. One could read the formula as sampling everything up to
  about 100000 elements, but the code does not do that.
- **Rounding.** `int(n * 0.01)` truncates; the model uses `n / 100`, never a
  rounded value.

## Model

| member | source | states |
|---|---|---|
| `Sizing.FloorSqrt` | main.py:18 | the result `r` is the integer square root of `n` rounded down: `r*r <= n < (r+1)*(r+1)` |
| `Sizing.NumBuckets` | main.py:18 | there is at least one bucket; for `n >= 1` the count is `floor(sqrt(n))`, which lies between 1 and `n` |
| `Sizing.SampleSize` | main.py:21 | the sample size is at most `n`, and at least 1 when `n >= 1`; it equals `n` exactly when `n <= 1000`; it is 1000 on `[1000, 100000]` and `n / 100` from 100000 on |
| `Boundaries.QuantileIndex` | main.py:29-30 | the quantile position for `i` in `0..b` is the truncated value of `i / b * (s - 1)`: `k * b <= i * (s - 1) < (k + 1) * b`; it is a valid index of the sorted sample (at most `s - 1`) |
| `Boundaries.QuantileIndexMonotone` | main.py:27-30 | quantile positions do not decrease as `i` grows |
| `Boundaries.SelectBoundaries` | main.py:26-31 | the loop yields exactly `num_buckets - 1` boundaries, each of them a sample value |
| `Boundaries.BoundariesSorted` | main.py:23-31 | a sorted sample gives non-decreasing boundaries |
| `BucketSort.ChooseBoundaries` | main.py:26-31 | the boundary loop builds `num_buckets - 1` values equal to the functional selection; they are sorted when the sample is sorted |
| `Buckets.CountLess` | main.py:38 | the bucket index is in `[0, len(boundaries)]`; it is 0 exactly when no boundary is below `x`, and it is last exactly when every boundary is below `x` |
| `Buckets.CountLessIsInsertionPoint` | main.py:38 | on sorted boundaries, `k` is the bucket of `x` if and only if every boundary before `k` is `< x` and every boundary from `k` on is `>= x`; this is the leftmost insertion point |
| `Buckets.BisectLeft` | main.py:38 | the binary search returns the leftmost insertion point, and that point equals the count of boundaries strictly below `x` |
| `Buckets.CountLessMonotone` | main.py:38-39 | a larger element never goes to an earlier bucket |
| `Buckets.BucketRange` | main.py:38-39 | on sorted boundaries, an element in bucket `k` is `> b[k-1]` when `k > 0` and `<= b[k]` when `k` is not the last bucket |
| `Buckets.InRangeGoesToBucket` | main.py:38-39 | on sorted boundaries, an element with `b[k-1] < x` (when `k > 0`) and `x <= b[k]` (when `k` is not the last bucket) goes to bucket `k`; this is the converse of `BucketRange` |
| `Buckets.EqualToBoundaryGoesLow` | main.py:38 | an element equal to boundary `k` goes to bucket `k` or lower, never above that boundary |
| `Buckets.EmptyBuckets` | main.py:34 | there are `num_buckets` buckets, all empty, so they hold no elements |
| `Buckets.Flatten` | main.py:42-46 | an element is in the concatenation exactly when it is in one of the buckets |
| `Buckets.FlattenAppend` | main.py:39 | appending `x` to any one bucket adds exactly one `x` to the buckets' combined contents |
| `Buckets.BucketOf` | main.py:37-39 | bucket `k` holds exactly the input elements whose index is `k`, each with its full multiplicity |
| `Buckets.Assign` | main.py:34-39 | the append loop yields `num_buckets` buckets; bucket `k` is the in-order filter of the input by index `k`; the buckets together hold exactly the input multiset |
| `BucketSort.AssignAll` | main.py:34-39 | the `bisect_left` loop produces the same buckets as the functional assignment, and nothing is lost or duplicated |
| `BucketSort.AssignOrdered` | main.py:37-39 | every element of an earlier bucket is `<=` every element of a later bucket |
| `BucketSort.AssignedBucketRange` | main.py:37-39 | every element in bucket `k` comes from the input and lies in `(b[k-1], b[k]]` |
| `BucketSort.ValidSample` | main.py:21-22 | what `random.sample(data, sample_size)` may return: a sub-multiset of the input of exactly `SampleSize(n)` elements |
| `BucketSort.SomeSampleIsValid` | main.py:21-22 | a valid sample exists for every input: the first `SampleSize(n)` elements qualify, so the sort's precondition excludes no input |
| `Sorting.Insert` | main.py:44 | inserting into a sorted list keeps it sorted and adds exactly that one element |
| `Sorting.Sort` | main.py:44 | the per-bucket (and sample) sort returns an ascending permutation of its argument |
| `Sorting.SortedUnique` | main.py:42-46 | two ascending sequences that hold the same multiset are equal |
| `Sorting.SortOfSorted` | main.py:44 | sorting a sorted list returns it unchanged |
| `BucketSort.SortEach` | main.py:43-44 | each bucket is replaced by a sorted permutation of itself |
| `BucketSort.SortEachKeepsElements` | main.py:42-44 | sorting the buckets keeps the multiset of their concatenation |
| `BucketSort.SortEachKeepsOrder` | main.py:43-44 | sorting within buckets keeps the buckets ordered among each other |
| `BucketSort.SortedConcat` | main.py:44 | extending a sorted run by a sorted run lying wholly above it gives a sorted result |
| `BucketSort.ConcatSorted` | main.py:42-46 | ordered, individually sorted buckets concatenate to a sorted list |
| `BucketSort.SortAndConcat` | main.py:42-46 | the extend loop yields the concatenation of the sorted buckets, with the same multiset as the buckets |
| `BucketSort.QuantileBucketSort` | main.py:8-46 | the output is sorted and is a permutation of the input; empty input gives empty output and uses an empty sample |
| `BucketSort.BucketSortQuantileBased` | main.py:8-46 | the loop version yields a sorted permutation of the input, equal to the functional model |
| `BucketSort.MatchesSort` | main.py:8-46 | the result equals a plain sort of the input |
| `BucketSort.IndependentOfSample` | main.py:21-23 | any two valid samples give the same output |
| `BucketSort.SortedInputUnchanged` | main.py:42-46 | an already sorted input comes back unchanged |
| `BucketSort.SingleElement` | main.py:13-46 | the input `[x]` gives `[x]` |
| `BucketSort.FiveElementExample` | main.py:18-31 | for `n = 5` there are 2 buckets, all 5 elements are sampled, and the sorted sample `[1,2,3,4,5]` gives the boundary list `[3]` |

## Left out

- `bucket_sort_with_timing` (main.py:48-64) is left out. It only measures wall-clock time around the sort.
- `run_time_complexity_tests` and the `__main__` entry point (main.py:66-118) are left out. They are the measurement harness: RNG seeding, dataset generation, printing and plotting.
- The random sampler `random.sample` (main.py:22) is replaced by a caller-supplied sample of the right size, taken from the input's multiset.
- Floating-point evaluation of `math.sqrt(n)`, `n * 0.01` and `i / num_buckets * (sample_size - 1)` is left out. The model uses the exact integer values. The float versions can differ by one for very large `n` or where the exact product is an integer.
- Float elements (the exponential dataset) and NaN are left out. Elements are integers, so Python's `TypeError` on unorderable values, and NaN's unordered comparisons, cannot arise.
- The internals of Python's `sorted` and `list.sort` (Timsort) are left out. Any correct sort gives the same result.
- `Buckets.BisectLeft`: it requires sorted boundaries, which they always are here. Python's `bisect_left` on an unsorted list is not modelled.
- Object identity is not modelled. The source returns the caller's own (empty) list object for empty input; the model returns an equal empty sequence.
- Concrete traces of the bucket assignment for small inputs are not stated as lemmas. The general lemmas `Buckets.EqualToBoundaryGoesLow` and `Buckets.CountLessIsInsertionPoint` cover them; for example, four 2's with boundary `[2]` all go to bucket 0.
- `Boundaries.SelectBoundaries`: its contract gives the number of boundaries and says each one is a sample value. It does not say at which sample position each boundary is read. That position is `QuantileIndex(i, b, s)`, fixed by the definition. `BucketSort.ChooseBoundaries` proves the source's loop reads the same positions.
