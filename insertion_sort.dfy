/**
 * `InsertionSort.Sort(data, index, length, comparer)`. The comparer is a key projection: two
 * elements compare as their keys do (`SortSpec.Identity` is the default comparer on `int`).
 *
 * As written, the shifting loop stops at 0 rather than at `index`, so an element of the window
 * can be moved below it: the window is not sorted and the slots before it change.
 * `InsertionSortAsWritten` is that code; `InsertionSort` is the evidently intended one, with
 * the loop stopping at `index`.
 */
module InsertionSorts {
  import opened GrowthPolicy
  import opened SortSpec

  /** The inner loop for element `i`: shifts the greater elements above `lo` up one slot, then
      writes the element where the shifting stopped. */
  method InsertStep(a: array<int>, lo: int, i: int, key: int -> int)
    requires 0 <= lo <= i < a.Length
    modifies a
    ensures a[..] == InsertionPass(old(a[..]), lo, i, key)
  {
    ghost var s := a[..];
    var x := a[i];
    var j := ShiftGreater(a, lo, i, x, key);
    a[j] := x;
    PassFromPieces(s, lo, i, j, a[..], key);
  }

  /** The shifting loop: moves `a[j - 1]` up while it is above `lo` and greater than `x`, and
      returns where it stopped. Slot `j` then holds a stale copy. */
  method ShiftGreater(a: array<int>, lo: int, i: int, x: int, key: int -> int) returns (j: int)
    requires 0 <= lo <= i < a.Length
    modifies a
    ensures j == ShiftStop(old(a[..]), lo, i, x, key)
    ensures forall t :: 0 <= t < j ==> a[t] == old(a[t])
    ensures forall t :: j < t <= i ==> a[t] == old(a[t - 1])
    ensures forall t :: i < t < a.Length ==> a[t] == old(a[t])
  {
    ghost var s := a[..];
    j := i;
    while j > lo && key(a[j - 1]) > key(x)
      invariant lo <= j <= i
      invariant ShiftStop(s, lo, j, x, key) == ShiftStop(s, lo, i, x, key)
      invariant forall t :: 0 <= t < j ==> a[t] == s[t]
      invariant forall t :: j < t <= i ==> a[t] == s[t - 1]
      invariant forall t :: i < t < a.Length ==> a[t] == s[t]
      decreases j
    {
      a[j] := a[j - 1];
      j := j - 1;
    }
  }


  /** `Sort(data, index, length, comparer)` as written: each pass shifts down to slot 0. */
  method InsertionSortAsWritten(a: array<int>, index: int, length: int, key: int -> int)
    requires 0 <= index && 0 <= length && index + length <= a.Length
    modifies a
    ensures a[..] == InsertionPasses(old(a[..]), 0, index + 1, index + length, key)
  {
    var i := index + 1;
    while i < index + length
      invariant i <= index + length ==> a[..] == InsertionPasses(old(a[..]), 0, index + 1, i, key)
      invariant i > index + length ==> i == index + 1 && a[..] == old(a[..])
    {
      InsertStep(a, 0, i, key);
      i := i + 1;
    }
  }

  /** With `[5, 3, 1]`, index 1 and length 2, the code as written moves 1 into slot 0: the window
      `[1, 3)` ends up `[5, 3]`, unsorted, and slot 0 outside it has changed. Stopping at the
      index gives the sorted window `[1, 3]`. */
  lemma InsertionSortEscapesWindow()
    ensures InsertionPasses([5, 3, 1], 0, 2, 3, Identity) == [1, 5, 3]
    ensures !SortedBy([1, 5, 3][1..3], Identity)
    ensures InsertionPasses([5, 3, 1], 1, 2, 3, Identity) == [5, 1, 3]
    ensures SortedBy([5, 1, 3][1..3], Identity)
  {
    assert InsertionPasses([5, 3, 1], 0, 2, 2, Identity) == [5, 3, 1];
    assert ShiftStop([5, 3, 1], 0, 2, 1, Identity) == 0 by {
      assert ShiftStop([5, 3, 1], 0, 1, 1, Identity) == 0;
    }
    assert [5, 3, 1][..0] + [1] + [5, 3, 1][0..2] + [5, 3, 1][3..] == [1, 5, 3];
    assert InsertionPasses([5, 3, 1], 1, 2, 2, Identity) == [5, 3, 1];
    assert ShiftStop([5, 3, 1], 1, 2, 1, Identity) == 1;
    assert [5, 3, 1][..1] + [1] + [5, 3, 1][1..2] + [5, 3, 1][3..] == [5, 1, 3];
    assert [1, 5, 3][1..3] == [5, 3];
  }

  /** `Sort(data, index, length, comparer)` with the shifting loop stopping at `index`: the
      window is sorted, a stable rearrangement of what it held, and nothing outside changes. */
  method InsertionSort(a: array<int>, index: int, length: int, key: int -> int)
    requires 0 <= index && 0 <= length && index + length <= a.Length
    modifies a
    ensures SortsWindow(old(a[..]), a[..], index, index + length, key)
  {
    ghost var o := a[..];
    var i := index + 1;
    while i < index + length
      invariant index < i && (i <= index + length || length == 0)
      invariant SortsWindow(o, a[..], index, Min(i, index + length), key)
    {
      ghost var s := a[..];
      InsertStep(a, index, i, key);
      PassExtendsSort(o, s, index, i, key);
      i := i + 1;
    }
  }
}
