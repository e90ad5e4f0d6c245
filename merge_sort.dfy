/**
 * `MergeSort`: top-down merge sort. `Merge` copies the left run into an array rented from the
 * shared `ArrayPool`, merges it with the right run (still in place) back into the data, taking
 * from the left run on ties, then clears the rented slots and returns the array.
 *
 * A `Span<T>` over an array is the array with an offset and a length; `MergeSortSpan` and
 * `MergeSpan` take them as `lo` and `len`. `HybridSortRecursive` is `MergeBinarySort`: merge
 * sort above a threshold, binary insertion sort below it.
 */
module MergeSorts {
  import opened GrowthPolicy
  import opened ListSpec
  import opened ArrayPools
  import opened SortSpec
  import BinarySorts

  const MergeThreshold: int := 64

  /** `Merge(data, left, middle, right, comparer)`: merges the sorted runs `[left, middle]` and
      `[middle + 1, right]`. The window becomes their merge, nothing else in the data changes,
      and the one rented array goes back to the pool with its used slots cleared. */
  method MergeRuns(a: array<int>, left: int, middle: int, right: int, key: int -> int, shared: ArrayPool)
    requires 0 <= left <= middle + 1 <= right + 1 <= a.Length <= MaxInt32
    modifies a, shared
    ensures MergesWindow(old(a[..]), a[..], left, middle + 1, right + 1, key)
    ensures |shared.returned| == |old(shared.returned)| + 1
    ensures shared.returned[..|old(shared.returned)|] == old(shared.returned)
    ensures var b := shared.returned[|old(shared.returned)|];
      fresh(b) && b.Length >= middle + 1 - left && b[..middle + 1 - left] == Zeros(middle + 1 - left)
  {
    var leftLength := middle - left + 1;
    var buf := shared.Rent(leftLength);
    forall l | 0 <= l < leftLength {
      buf[l] := a[left + l];
    }
    assert buf[..leftLength] == a[left..middle + 1];
    assert a[..] == old(a[..]);
    MergeLoops(a, buf, left, middle, right, key);
    ghost var merged := a[..];
    forall l | 0 <= l < leftLength {
      buf[l] := 0;
    }
    shared.Return(buf, false);
    assert a[..] == merged;
  }

  /** The two loops of `Merge`, reading the left run from its copy `buf`. */
  method MergeLoops(a: array<int>, buf: array<int>, left: int, middle: int, right: int, key: int -> int)
    requires buf != a
    requires 0 <= left <= middle + 1 <= right + 1 <= a.Length
    requires middle + 1 - left <= buf.Length && buf[..middle + 1 - left] == a[left..middle + 1]
    modifies a
    ensures a[left..right + 1] == Merge(old(a[left..middle + 1]), old(a[middle + 1..right + 1]), key)
    ensures a[..left] == old(a[..left]) && a[right + 1..] == old(a[right + 1..])
  {
    ghost var l0 := a[left..middle + 1];
    ghost var r0 := a[middle + 1..right + 1];
    var i, j := MergeBoth(a, buf, left, middle, right, key, l0, r0);
    CopyRest(a, buf, left, middle, right, key, l0, r0, i, j);
  }

  /** Part way through a merge: `i` elements of the left run and `j - middle - 1` of the right run
      are written from `left` on, the right run's rest is still in place, and what is written
      followed by the merge of what is left is the whole merge. */
  ghost predicate Merging(a: array<int>, left: int, middle: int, right: int, key: int -> int,
                          l0: seq<int>, r0: seq<int>, i: int, j: int)
    reads a
  {
    0 <= left <= middle + 1 <= right + 1 <= a.Length && |l0| == middle + 1 - left && |r0| == right - middle &&
    0 <= i <= |l0| && middle + 1 <= j <= right + 1 &&
    a[j..right + 1] == r0[j - middle - 1..] &&
    a[left..left + i + (j - middle - 1)] + Merge(l0[i..], r0[j - middle - 1..], key) == Merge(l0, r0, key)
  }

  /** The first loop of `Merge`: takes the smaller head, the left one on ties, while both runs
      have elements. */
  method MergeBoth(a: array<int>, buf: array<int>, left: int, middle: int, right: int, key: int -> int,
                   ghost l0: seq<int>, ghost r0: seq<int>) returns (i: int, j: int)
    requires buf != a
    requires 0 <= left <= middle + 1 <= right + 1 <= a.Length
    requires |l0| == middle + 1 - left <= buf.Length && buf[..middle + 1 - left] == l0
    requires |r0| == right - middle && a[middle + 1..right + 1] == r0
    modifies a
    ensures Merging(a, left, middle, right, key, l0, r0, i, j) && (i == |l0| || j == right + 1)
    ensures a[..left] == old(a[..left]) && a[right + 1..] == old(a[right + 1..])
  {
    var leftLength := middle - left + 1;
    i, j := 0, middle + 1;
    assert a[left..left] == [];
    while i < leftLength && j <= right
      invariant Merging(a, left, middle, right, key, l0, r0, i, j)
      invariant a[..left] == old(a[..left]) && a[right + 1..] == old(a[right + 1..])
      decreases |l0| - i + right - j
    {
      i, j := MergeOne(a, buf, left, middle, right, key, l0, r0, i, j);
    }
  }

  /** One step of the first loop: `data[k++] = leftTemp[i] <= data[j] ? leftTemp[i++] : data[j++]`. */
  method MergeOne(a: array<int>, buf: array<int>, left: int, middle: int, right: int, key: int -> int,
                  ghost l0: seq<int>, ghost r0: seq<int>, i0: int, j0: int) returns (i: int, j: int)
    requires buf != a && |l0| <= buf.Length && buf[..|l0|] == l0
    requires Merging(a, left, middle, right, key, l0, r0, i0, j0) && i0 < |l0| && j0 <= right
    modifies a
    ensures Merging(a, left, middle, right, key, l0, r0, i, j) && i + j == i0 + j0 + 1
    ensures a[..left] == old(a[..left]) && a[right + 1..] == old(a[right + 1..])
  {
    i, j := i0, j0;
    var k := left + i + (j - middle - 1);
    ghost var out := a[left..k];
    ghost var lr := l0[i..];
    ghost var rr := r0[j - middle - 1..];
    assert buf[i] == lr[0] by {
      assert buf[..|l0|][i] == l0[i];
    }
    assert a[j] == rr[0] by {
      assert a[j..right + 1][0] == a[j];
    }
    if key(buf[i]) <= key(a[j]) {
      a[k] := buf[i];
      i := i + 1;
      assert lr[1..] == l0[i..];
      MergeTakesLeft(out, lr, rr, key);
    } else {
      a[k] := a[j];
      j := j + 1;
      assert rr[1..] == r0[j - middle - 1..];
      MergeTakesRight(out, lr, rr, key);
    }
    assert a[left..k + 1] == out + [a[k]];
  }

  /** Writing the left head extends the output by the merge's first element. */
  lemma MergeTakesLeft(out: seq<int>, l: seq<int>, r: seq<int>, key: int -> int)
    requires |l| > 0 && |r| > 0 && key(l[0]) <= key(r[0])
    ensures out + [l[0]] + Merge(l[1..], r, key) == out + Merge(l, r, key)
  {
  }

  /** Writing the right head, when the left head is greater, does the same. */
  lemma MergeTakesRight(out: seq<int>, l: seq<int>, r: seq<int>, key: int -> int)
    requires |l| > 0 && |r| > 0 && key(l[0]) > key(r[0])
    ensures out + [r[0]] + Merge(l, r[1..], key) == out + Merge(l, r, key)
  {
  }

  /** The second loop of `Merge`: once the right run is used up, the rest of the left run is
      copied back; the right run's leftovers are already in place. */
  method CopyRest(a: array<int>, buf: array<int>, left: int, middle: int, right: int, key: int -> int,
                  ghost l0: seq<int>, ghost r0: seq<int>, i0: int, j: int)
    requires buf != a && |l0| <= buf.Length && buf[..|l0|] == l0
    requires Merging(a, left, middle, right, key, l0, r0, i0, j) && (i0 == |l0| || j == right + 1)
    modifies a
    ensures a[left..right + 1] == Merge(l0, r0, key)
    ensures a[..left] == old(a[..left]) && a[right + 1..] == old(a[right + 1..])
  {
    var leftLength := middle - left + 1;
    var i := i0;
    while i < leftLength
      invariant Merging(a, left, middle, right, key, l0, r0, i, j) && i0 <= i && (i == |l0| || j == right + 1)
      invariant a[..left] == old(a[..left]) && a[right + 1..] == old(a[right + 1..])
    {
      CopyOne(a, buf, left, middle, right, key, l0, r0, i, j);
      i := i + 1;
    }
    var k := left + i + (j - middle - 1);
    assert l0[i..] == [];
    assert a[left..right + 1] == a[left..k] + a[j..right + 1];
  }

  /** One step of the second loop: `data[k++] = leftTemp[i++]`. */
  method CopyOne(a: array<int>, buf: array<int>, left: int, middle: int, right: int, key: int -> int,
                 ghost l0: seq<int>, ghost r0: seq<int>, i: int, j: int)
    requires buf != a && |l0| <= buf.Length && buf[..|l0|] == l0
    requires Merging(a, left, middle, right, key, l0, r0, i, j) && i < |l0| && j == right + 1
    modifies a
    ensures Merging(a, left, middle, right, key, l0, r0, i + 1, j)
    ensures a[..left] == old(a[..left]) && a[right + 1..] == old(a[right + 1..])
  {
    var k := left + i + (j - middle - 1);
    ghost var out := a[left..k];
    ghost var lr := l0[i..];
    assert r0[j - middle - 1..] == [];
    assert buf[i] == lr[0] by {
      assert buf[..|l0|][i] == l0[i];
    }
    a[k] := buf[i];
    assert lr == [lr[0]] + l0[i + 1..];
    assert a[left..k + 1] == out + [a[k]];
  }

  /** `Merge(data, middle, comparer)` on a span: the runs `[0, middle)` and `[middle, len)`. */
  method MergeSpan(a: array<int>, lo: int, len: int, middle: int, key: int -> int, shared: ArrayPool)
    requires 0 <= lo && 0 <= middle <= len && lo + len <= a.Length <= MaxInt32
    modifies a, shared
    ensures MergesWindow(old(a[..]), a[..], lo, lo + middle, lo + len, key)
  {
    assert lo + middle - 1 + 1 == lo + middle && lo + len - 1 + 1 == lo + len;
    MergeRuns(a, lo, lo + middle - 1, lo + len - 1, key, shared);
  }

  /** The combining step of every merge sort, on snapshots of the array: `o` at the start, `s1`
      after sorting `[lo, mid)`, `s2` after sorting `[mid, hi)`, `s3` after merging. Then
      `[lo, hi)` is sorted, a stable rearrangement of what `o` held there, and the rest is `o`. */
  lemma SortHalvesThenMerge(o: seq<int>, s1: seq<int>, s2: seq<int>, s3: seq<int>, lo: int, mid: int, hi: int, key: int -> int)
    requires SortsWindow(o, s1, lo, mid, key) && SortsWindow(s1, s2, mid, hi, key)
    requires MergesWindow(s2, s3, lo, mid, hi, key)
    ensures SortsWindow(o, s3, lo, hi, key)
  {
    forall i | 0 <= i < mid - lo
      ensures s2[lo..mid][i] == s1[lo..mid][i]
    {
      assert s2[lo + i] == s1[lo + i];
    }
    forall i | 0 <= i < hi - mid
      ensures s1[mid..hi][i] == o[mid..hi][i]
    {
      assert s1[mid + i] == o[mid + i];
    }
    assert s2[lo..mid] == s1[lo..mid] && s1[mid..hi] == o[mid..hi];
    MergeSortedHalves(o[lo..mid], o[mid..hi], s2[lo..mid], s2[mid..hi], key);
    assert o[lo..hi] == o[lo..mid] + o[mid..hi];
  }

  /** `Sort(data, comparer)` on a span: halves at `length / 2`, sorts each, merges. */
  method MergeSortSpan(a: array<int>, lo: int, len: int, key: int -> int, shared: ArrayPool)
    requires 0 <= lo && 0 <= len && lo + len <= a.Length <= MaxInt32
    modifies a, shared
    ensures SortsWindow(old(a[..]), a[..], lo, lo + len, key)
    decreases len
  {
    if len > 1 {
      var middle := len / 2;
      ghost var o := a[..];
      MergeSortSpan(a, lo, middle, key, shared);
      ghost var s1 := a[..];
      MergeSortSpan(a, lo + middle, len - middle, key, shared);
      ghost var s2 := a[..];
      MergeSpan(a, lo, len, middle, key, shared);
      SortHalvesThenMerge(o, s1, s2, a[..], lo, lo + middle, lo + middle + (len - middle), key);
    }
  }

  /** `SortRecursive(data, left, right, comparer)`: sorts `[left, right]` (empty when
      `right < left`), splitting at `left + (right - left) / 2`. */
  method MergeSortRecursive(a: array<int>, left: int, right: int, key: int -> int, shared: ArrayPool)
    requires 0 <= left <= right + 1 <= a.Length <= MaxInt32
    modifies a, shared
    ensures SortsWindow(old(a[..]), a[..], left, right + 1, key)
    decreases right - left
  {
    if left < right {
      var middle := left + (right - left) / 2;
      ghost var o := a[..];
      MergeSortRecursive(a, left, middle, key, shared);
      ghost var s1 := a[..];
      MergeSortRecursive(a, middle + 1, right, key, shared);
      ghost var s2 := a[..];
      MergeRuns(a, left, middle, right, key, shared);
      SortHalvesThenMerge(o, s1, s2, a[..], left, middle + 1, right + 1, key);
    }
  }

  /** `MergeBinarySort.SortRecursive(array, left, right, comparer)`: binary insertion sort below
      `MergeThreshold` elements, otherwise halves, sorts each, merges. */
  method HybridSortRecursive(a: array<int>, left: int, right: int, key: int -> int, shared: ArrayPool)
    requires 0 <= left <= right + 1 <= a.Length <= MaxInt32
    modifies a, shared
    ensures SortsWindow(old(a[..]), a[..], left, right + 1, key)
    decreases right - left
  {
    var count := right - left + 1;
    if count < MergeThreshold {
      ghost var first := a[left..left + Min(1, count)];
      assert |first| <= 1;
      BinarySorts.BinarySort(a, left, count, key, 1);
    } else {
      var middle := left + (right - left) / 2;
      ghost var o := a[..];
      HybridSortRecursive(a, left, middle, key, shared);
      ghost var s1 := a[..];
      HybridSortRecursive(a, middle + 1, right, key, shared);
      ghost var s2 := a[..];
      MergeRuns(a, left, middle, right, key, shared);
      ghost var s3 := a[..];
      SortHalvesThenMerge(o, s1, s2, s3, left, middle + 1, right + 1, key);
    }
  }
}
