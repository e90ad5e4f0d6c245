/**
 * `BinarySort.Sort(array, start, count, comparer, sorted)`: insertion sort that finds each
 * element's place by binary search over the sorted prefix, then shifts. The first `sorted`
 * elements of the window must already be sorted (`1` by default, which always holds).
 */
module BinarySorts {
  import opened GrowthPolicy
  import opened SortSpec

  /** The binary search: the first slot of `[lo, hi)` whose key is greater than `x`'s, or `hi`.
      Equal keys are passed over, which keeps the sort stable. */
  method UpperBound(a: array<int>, lo: int, hi: int, x: int, key: int -> int) returns (m: int)
    requires 0 <= lo <= hi <= a.Length && SortedBy(a[lo..hi], key)
    ensures lo <= m <= hi
    ensures forall t :: lo <= t < m ==> key(a[t]) <= key(x)
    ensures forall t :: m <= t < hi ==> key(x) < key(a[t])
  {
    var min, max := lo, hi;
    while min < max
      invariant lo <= min <= max <= hi
      invariant forall t :: lo <= t < min ==> key(a[t]) <= key(x)
      invariant forall t :: max <= t < hi ==> key(x) < key(a[t])
    {
      var mid := min + (max - min) / 2;
      if key(x) < key(a[mid]) {
        forall t | mid <= t < max
          ensures key(x) < key(a[t])
        {
          assert a[lo..hi][mid - lo] == a[mid] && a[lo..hi][t - lo] == a[t];
        }
        max := mid;
      } else {
        forall t | min <= t <= mid
          ensures key(a[t]) <= key(x)
        {
          assert a[lo..hi][mid - lo] == a[mid] && a[lo..hi][t - lo] == a[t];
        }
        min := mid + 1;
      }
    }
    m := min;
  }

  /** The shifting loop: `a[lo..hi)` moves up one slot; slot `lo` keeps a stale copy. */
  method ShiftRight(a: array<int>, lo: int, hi: int)
    requires 0 <= lo <= hi < a.Length
    modifies a
    ensures forall t :: 0 <= t <= lo ==> a[t] == old(a[t])
    ensures forall t :: lo < t <= hi ==> a[t] == old(a[t - 1])
    ensures forall t :: hi < t < a.Length ==> a[t] == old(a[t])
  {
    var p := hi;
    while p > lo
      invariant lo <= p <= hi
      invariant forall t :: 0 <= t <= p ==> a[t] == old(a[t])
      invariant forall t :: p < t <= hi ==> a[t] == old(a[t - 1])
      invariant forall t :: hi < t < a.Length ==> a[t] == old(a[t])
    {
      a[p] := a[p - 1];
      p := p - 1;
    }
  }

  /** One pass for element `i` over the sorted `[start, i)`: search, shift, place. It leaves the
      array exactly as one pass of insertion sort would. */
  method BinaryInsert(a: array<int>, start: int, i: int, key: int -> int)
    requires 0 <= start <= i < a.Length && SortedBy(a[start..i], key)
    modifies a
    ensures a[..] == InsertionPass(old(a[..]), start, i, key)
  {
    ghost var s := a[..];
    var pivot := a[i];
    var min := UpperBound(a, start, i, pivot, key);
    UpperBoundIsShiftStop(s, start, i, pivot, min, key);
    ShiftRight(a, min, i);
    a[min] := pivot;
    PassFromPieces(s, start, i, min, a[..], key);
  }

  /** `Sort(array, start, count, comparer, sorted)`: the window is sorted, a stable rearrangement
      of what it held, and nothing outside it changes. */
  method BinarySort(a: array<int>, start: int, count: int, key: int -> int, sorted: int)
    requires 0 <= start && 0 <= count && start + count <= a.Length && 0 <= sorted
    requires SortedBy(a[start..start + Min(sorted, count)], key)
    modifies a
    ensures SortsWindow(old(a[..]), a[..], start, start + count, key)
  {
    ghost var o := a[..];
    var i := start + sorted;
    while i < start + count
      invariant start + sorted <= i && (i <= start + count || i == start + sorted)
      invariant SortsWindow(o, a[..], start, Min(i, start + count), key)
    {
      ghost var s := a[..];
      BinaryInsert(a, start, i, key);
      PassExtendsSort(o, s, start, i, key);
      i := i + 1;
    }
  }
}
