/**
 * `TimSortLite`: binary insertion sort on runs of `minRun` elements, then bottom-up merge
 * passes that double the run size until one run covers the data. A span over an array is the
 * array with an offset `lo` and a `length`.
 */
module TimSorts {
  import opened GrowthPolicy
  import opened ArrayPools
  import opened SortSpec
  import BinarySorts
  import MergeSorts

  /** 2 to the `k`. */
  function Pow2(k: nat): (p: nat)
    ensures p > 0
  {
    if k == 0 then 1 else 2 * Pow2(k - 1)
  }

  /** Halving `n / p` is dividing by `2p`, and `2p` divides `n` exactly when `p` does and the
      quotient is even. */
  lemma DivTwice(n: int, p: int)
    requires 0 <= n && 0 < p
    ensures n / (2 * p) == (n / p) / 2
    ensures (n % (2 * p) == 0) <==> (n % p == 0 && (n / p) % 2 == 0)
  {
    var q, m := n / p, n % p;
    var q2, b := q / 2, q % 2;
    assert n == q2 * (2 * p) + (b * p + m) by {
      assert n == q * p + m;
      assert q == 2 * q2 + b;
      assert q * p == (2 * q2 + b) * p == q2 * (2 * p) + b * p;
    }
    assert 0 <= b * p + m < 2 * p by {
      assert b == 0 || b == 1;
    }
    DivModUnique(n, 2 * p, q2, b * p + m);
  }

  /** One round of `ComputeMinRun`'s loop: with `m = n / p` and `r` recording whether `p`
      leaves a remainder, halving `m` and folding its low bit into `r` gives the same for `2p`. */
  lemma HalveStep(n: int, p: int, m: int, r: int)
    requires 0 < p && 0 <= n && m == n / p && r == (if n % p == 0 then 0 else 1)
    ensures m / 2 == n / (2 * p)
    ensures (if m % 2 == 1 then 1 else r) == (if n % (2 * p) == 0 then 0 else 1)
  {
    DivTwice(n, p);
  }

  lemma DivModUnique(n: int, d: int, q: int, r: int)
    requires 0 < d && 0 <= r < d && n == q * d + r
    ensures n / d == q && n % d == r
  {
    var q' := n / d;
    if q < q' {
      MulMonotone(q + 1, q', d);
      assert false;
    } else if q > q' {
      MulMonotone(q' + 1, q, d);
      assert false;
    }
  }

  lemma MulMonotone(x: int, y: int, d: int)
    requires x <= y && 0 <= d
    ensures x * d <= y * d
  {
    assert y * d - x * d == (y - x) * d;
  }

  /** `ComputeMinRun(n)`: below 64, `n` itself; otherwise `n` is divided by the power of two
      that brings it into `[32, 64)`, rounding up, so the runs split `n` into a power of two
      or slightly fewer runs of nearly equal size. */
  method ComputeMinRun(n: Int32) returns (minRun: int, ghost p: nat)
    ensures p > 0
    ensures n < 64 ==> minRun == n && p == 1
    ensures n >= 64 ==> 32 <= n / p < 64 && minRun == n / p + (if n % p == 0 then 0 else 1)
    ensures n >= 64 ==> 32 <= minRun <= 64
    ensures n > 0 ==> 0 < minRun <= n
  {
    var m := n;
    var r := 0;
    p := 1;
    while m >= 64
      invariant p > 0
      invariant p == 1 ==> m == n && r == 0
      invariant p > 1 ==> 32 <= m
      invariant n >= 0 ==> m == n / p && r == (if n % p == 0 then 0 else 1)
      decreases m
    {
      HalveStep(n, p, m, r);
      if m % 2 == 1 {
        r := 1;
      }
      m := m / 2;
      p := 2 * p;
    }
    minRun := m + r;
  }

  /** The window `[lo, lo + length)` of `t` is a stable rearrangement of `o`'s, the rest is as
      in `o`, and its first `done` elements are sorted in runs of `size`. */
  ghost predicate RunsSorted(o: seq<int>, t: seq<int>, lo: int, length: int, done: int, size: int, key: int -> int)
  {
    RearrangesWindow(o, t, lo, lo + length, key) && 0 <= done <= length &&
    (length > 0 ==> size > 0 && RunsBetween(t, lo, lo + done, size, key))
  }

  /** The first loop of `Sort`: binary insertion sort on each run of `minRun` (the last one
      possibly shorter). Afterwards the window is sorted run by run. */
  method SortRuns(a: array<int>, lo: int, length: int, minRun: int, key: int -> int)
    requires 0 <= lo && 0 <= length && lo + length <= a.Length && (length > 0 ==> minRun > 0)
    modifies a
    ensures RunsSorted(old(a[..]), a[..], lo, length, length, minRun, key)
  {
    ghost var o := a[..];
    ghost var runs: nat := 0;
    var left := 0;
    while left < length
      invariant 0 <= left && (left <= length ==> left == RunTotal(runs, minRun))
      invariant RunsSorted(o, a[..], lo, length, Min(left, length), minRun, key)
      decreases length - left
    {
      SortRun(a, lo, length, left, minRun, key, o, runs);
      left := left + minRun;
      runs := runs + 1;
    }
  }

  /** One round of the first loop: sorts the run starting at `left`. */
  method SortRun(a: array<int>, lo: int, length: int, left: int, minRun: int, key: int -> int, ghost o: seq<int>, ghost runs: nat)
    requires 0 <= left < length && left == RunTotal(runs, minRun)
    requires RunsSorted(o, a[..], lo, length, left, minRun, key)
    modifies a
    ensures RunsSorted(o, a[..], lo, length, Min(left + minRun, length), minRun, key)
  {
    var len := Min(minRun, length - left);
    ghost var right := Min(left + minRun, length);
    ghost var s := a[..];
    assert SortedBy(a[lo + left..lo + left + Min(1, len)], key);
    BinarySorts.BinarySort(a, lo + left, len, key, 1);
    assert lo + left + len == lo + right;
    RunSorted(o, s, a[..], lo, length, left, right, minRun, runs, key);
  }

  /** Sorting the run `[left, right)` in place stably keeps the window a stable rearrangement of
      `o`'s and extends the sorted runs by one. */
  lemma RunSorted(o: seq<int>, s: seq<int>, t: seq<int>, lo: int, length: int, left: int, right: int, minRun: int, runs: nat, key: int -> int)
    requires 0 <= left < right <= length && right <= left + minRun && left == RunTotal(runs, minRun)
    requires RunsSorted(o, s, lo, length, left, minRun, key)
    requires SortsWindow(s, t, lo + left, lo + right, key)
    ensures RunsSorted(o, t, lo, length, right, minRun, key)
  {
    assert RearrangesWindow(o, t, lo, lo + length, key) by {
      RearrangesWithin(o, s, t, lo, lo + length, lo + left, lo + right, key);
    }
    assert RunsBetween(t, lo, lo + right, minRun, key) by {
      RunExtended(s, t, lo, lo + left, lo + right, minRun, runs, key);
    }
  }

  /** Sorting `[j, k)` of `s` into `t`, leaving `[i, j)` alone, extends the runs from `i` to `k`. */
  lemma RunExtended(s: seq<int>, t: seq<int>, i: int, j: int, k: int, size: int, runs: nat, key: int -> int)
    requires 0 <= i <= j <= k <= j + size && size > 0 && j - i == RunTotal(runs, size)
    requires RunsBetween(s, i, j, size, key) && SortsWindow(s, t, j, k, key)
    ensures RunsBetween(t, i, k, size, key)
  {
    SortedBetweenSlice(t, j, k, key);
    RunsAgree(s, t, i, j, size, key);
    RunsAppend(t, i, j, k, size, runs, key);
  }

  /** Part way through a merge pass: the first `merged` elements of the window are sorted in
      runs of `2 * size`, the rest still in runs of `size`. */
  ghost predicate PairsMerged(t: seq<int>, lo: int, length: int, merged: int, size: int, key: int -> int)
  {
    0 <= lo && 0 <= merged <= length && lo + length <= |t| && 0 < size &&
    RunsBetween(t, lo, lo + merged, 2 * size, key) && RunsBetween(t, lo + merged, lo + length, size, key)
  }

  /** The inner loop of the second phase: merges runs `2k` and `2k + 1` of `size` for every k
      that has a run `2k + 1`. Afterwards the window is sorted in runs of `2 * size`. */
  method MergePass(a: array<int>, lo: int, length: int, size: int, key: int -> int, shared: ArrayPool, ghost o: seq<int>)
    requires a.Length <= MaxInt32 && 0 < size < length <= 0x4000_0000
    requires RunsSorted(o, a[..], lo, length, length, size, key)
    modifies a, shared
    ensures RunsSorted(o, a[..], lo, length, length, 2 * size, key)
  {
    ghost var pairs: nat := 0;
    var left := 0;
    assert Min(0, length) == 0 && lo + 0 == lo;
    while left + size < length
      invariant 0 <= left && (left <= length ==> left == RunTotal(pairs, 2 * size))
      invariant RearrangesWindow(o, a[..], lo, lo + length, key)
      invariant PairsMerged(a[..], lo, length, Min(left, length), size, key)
      decreases length - left
    {
      assert Min(left, length) == left;
      MergePair(a, lo, length, left, size, key, shared, o, pairs);
      left := left + 2 * size;
      pairs := pairs + 1;
    }
    PassFinished(a[..], lo, length, left, size, pairs, key);
  }

  /** One round of the inner loop: `Merge(data[left..right], size)`. */
  method MergePair(a: array<int>, lo: int, length: int, left: int, size: int, key: int -> int,
                   shared: ArrayPool, ghost o: seq<int>, ghost pairs: nat)
    requires a.Length <= MaxInt32 && left + size < length && left == RunTotal(pairs, 2 * size)
    requires RearrangesWindow(o, a[..], lo, lo + length, key)
    requires PairsMerged(a[..], lo, length, left, size, key)
    modifies a, shared
    ensures RearrangesWindow(o, a[..], lo, lo + length, key)
    ensures PairsMerged(a[..], lo, length, Min(left + 2 * size, length), size, key)
  {
    var right := Min(left + 2 * size, length);
    ghost var s := a[..];
    MergeSorts.MergeSpan(a, lo + left, right - left, size, key, shared);
    PairStep(o, s, a[..], lo, length, left, right, size, pairs, key);
  }

  /** Merging runs `[left, left + size)` and `[left + size, right)` of `s` into `t`, where
      `right` is `min(left + 2 * size, length)`, moves the boundary between merged and unmerged
      runs to `right` and keeps the window a stable rearrangement of `o`'s. */
  lemma PairStep(o: seq<int>, s: seq<int>, t: seq<int>, lo: int, length: int, left: int, right: int, size: int, pairs: nat, key: int -> int)
    requires left + size < length && right == Min(left + 2 * size, length) && left == RunTotal(pairs, 2 * size)
    requires RearrangesWindow(o, s, lo, lo + length, key) && PairsMerged(s, lo, length, left, size, key)
    requires MergesWindow(s, t, lo + left, lo + left + size, lo + left + (right - left), key)
    ensures RearrangesWindow(o, t, lo, lo + length, key)
    ensures PairsMerged(t, lo, length, right, size, key)
  {
    var p, q, e := lo + left, lo + right, lo + length;
    assert MergesWindow(s, t, p, p + size, q, key);
    assert SortsWindow(s, t, p, q, key) by {
      PairMerged(s, t, p, q, e, size, key);
    }
    assert RunsBetween(t, lo, q, 2 * size, key) && RunsBetween(t, q, e, size, key) by {
      PairRuns(s, t, lo, p, q, e, size, pairs, key);
    }
    assert RearrangesWindow(o, t, lo, e, key) by {
      RearrangesWithin(o, s, t, lo, e, p, q, key);
    }
  }

  /** Merging the first two runs of `size` from `p` sorts their window `[p, q)`. */
  lemma PairMerged(s: seq<int>, t: seq<int>, p: int, q: int, e: int, size: int, key: int -> int)
    requires 0 <= p && 0 < size && p + size < q <= e <= |s| && q <= p + 2 * size && (q < e ==> q == p + 2 * size)
    requires RunsBetween(s, p, e, size, key) && MergesWindow(s, t, p, p + size, q, key)
    ensures SortsWindow(s, t, p, q, key)
  {
    RunsSplit(s, p, e, size, key);
    MergedBetween(s, t, p, p + size, q, key);
    SortedBetweenSlice(t, p, q, key);
  }

  /** Sorting the window `[p, q)` of `s` into `t`, after `pairs` merged runs from `lo`: the
      merged runs from `lo` gain one, and the runs from `q` to `e` stay as they were. */
  lemma PairRuns(s: seq<int>, t: seq<int>, lo: int, p: int, q: int, e: int, size: int, pairs: nat, key: int -> int)
    requires 0 <= lo <= p && 0 < size && p + size < q <= e <= |s| && q <= p + 2 * size
    requires (q < e ==> q == p + 2 * size) && p - lo == RunTotal(pairs, 2 * size)
    requires RunsBetween(s, lo, p, 2 * size, key) && RunsBetween(s, p, e, size, key)
    requires SortsWindow(s, t, p, q, key)
    ensures RunsBetween(t, lo, q, 2 * size, key) && RunsBetween(t, q, e, size, key)
  {
    SortedBetweenSlice(t, p, q, key);
    RunsAgree(s, t, lo, p, 2 * size, key);
    RunsAppend(t, lo, p, q, 2 * size, pairs, key);
    if q < e {
      RunsSplit(s, p, e, size, key);
      RunsAgree(s, t, q, e, size, key);
    }
  }

  /** When no run `2k + 1` is left, a leftover run shorter than `size` is already a sorted run
      of `2 * size`: the whole window is sorted in runs of `2 * size`. */
  lemma PassFinished(t: seq<int>, lo: int, length: int, left: int, size: int, pairs: nat, key: int -> int)
    requires PairsMerged(t, lo, length, Min(left, length), size, key) && length <= left + size
    requires left <= length ==> left == RunTotal(pairs, 2 * size)
    ensures RunsBetween(t, lo, lo + length, 2 * size, key)
  {
    if left < length {
      assert Min(left, length) == left;
      RunsAppend(t, lo, lo + left, lo + length, 2 * size, pairs, key);
    }
  }

  /** `Sort(data, comparer)` on a span: the window ends sorted, a stable rearrangement of what it
      held, and nothing outside it changes. */
  method TimSortLite(a: array<int>, lo: int, length: int, key: int -> int, shared: ArrayPool)
    requires 0 <= lo && 0 <= length && lo + length <= a.Length <= MaxInt32
    requires length <= 0x4000_0000  // beyond this, `size *= 2` and `left += 2 * size` may wrap
    modifies a, shared
    ensures SortsWindow(old(a[..]), a[..], lo, lo + length, key)
  {
    ghost var o := a[..];
    var minRun;
    ghost var p;
    minRun, p := ComputeMinRun(length);
    SortRuns(a, lo, length, minRun, key);
    var size := minRun;
    while size < length
      invariant RunsSorted(o, a[..], lo, length, length, size, key)
      decreases length - size
    {
      MergePass(a, lo, length, size, key, shared, o);
      size := size * 2;
    }
    SortedBetweenSlice(a[..], lo, lo + length, key);
  }
}
