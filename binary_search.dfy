/**
 * The binary searches over a read-only list. `Search` (and the extension method
 * `BinarySearch`, the same loop) finds an element that compares equal to the value, or returns
 * the bitwise complement of the insertion point. `Leftmost` and `LeftmostWhere` return the
 * lower bound: the first position whose element does not compare less than the value, or
 * where the predicate is no longer negative. A comparer is a key projection as for the sorts:
 * `Compare(x, v)` is the sign of `key(x) - key(v)`.
 */
module BinarySearches {
  import opened GrowthPolicy
  import opened SortSpec

  /** `~x` on a 32-bit int. */
  function Complement(x: int): (r: int)
    ensures x >= 0 <==> r < 0
    ensures -r - 1 == x
  {
    -x - 1
  }

  /** The predicate of `LeftmostWhere` changes sign at most once along `[i, j)`: once it is
      non-negative it stays non-negative. */
  ghost predicate MonotoneBetween(s: seq<int>, i: int, j: int, test: int -> int)
  {
    forall x, y :: i <= x < y < j && 0 <= x && y < |s| && test(s[x]) >= 0 ==> test(s[y]) >= 0
  }

  /** `Search(list, value, index, count, comparer)`: a hit is an index inside the range whose
      element compares equal; a miss is `~p` with `p` in `[index, index + count]`. On a range
      sorted by the comparer, `p` is where the value would be inserted, and a miss happens
      exactly when no element of the range compares equal. */
  method Search(list: seq<int>, value: int, index: int, count: int, key: int -> int) returns (r: int)
    requires 0 <= index && 0 <= count && index + count <= |list| <= MaxInt32
    ensures r >= 0 ==> index <= r < index + count && key(list[r]) == key(value)
    ensures r < 0 ==> index <= Complement(r) <= index + count
    ensures r < 0 && SortedBetween(list, index, index + count, key) ==>
      (forall i | index <= i < Complement(r) :: key(list[i]) < key(value)) &&
      (forall i | Complement(r) <= i < index + count :: key(list[i]) > key(value))
    ensures SortedBetween(list, index, index + count, key) ==>
      (r < 0 <==> forall i | index <= i < index + count :: key(list[i]) != key(value))
  {
    var min, max := index, index + count - 1;
    ghost var sorted := SortedBetween(list, index, index + count, key);
    while min <= max
      invariant index <= min <= max + 1 <= index + count
      invariant sorted ==> forall i | index <= i < min :: key(list[i]) < key(value)
      invariant sorted ==> forall i | max < i < index + count :: key(list[i]) > key(value)
      decreases max - min
    {
      var mid := min + (max - min) / 2;
      if key(list[mid]) == key(value) {
        return mid;
      }
      if key(list[mid]) < key(value) {
        min := mid + 1;
      } else {
        max := mid - 1;
      }
    }
    return Complement(min);
  }

  /** The `BinarySearch(list, value, comparer)` extension overload: `Search` over the whole list. */
  method BinarySearch(list: seq<int>, value: int, key: int -> int) returns (r: int)
    requires |list| <= MaxInt32
    ensures r >= 0 ==> r < |list| && key(list[r]) == key(value)
    ensures r < 0 ==> Complement(r) <= |list|
    ensures SortedBy(list, key) ==>
      (r < 0 <==> forall i | 0 <= i < |list| :: key(list[i]) != key(value))
  {
    r := Search(list, value, 0, |list|, key);
    if SortedBy(list, key) {
      assert list[0..|list|] == list;
      SortedBetweenSlice(list, 0, |list|, key);
    }
  }

  /** `BinarySearchLeftmost(list, value, index, count, comparer)`, as written: the searched range
      is `[index, count)`, so `count` acts as an end index. An empty range returns `index`
      without reading the list; on a sorted range the result is the lower bound of the value. */
  method Leftmost(list: seq<int>, value: int, index: int, count: int, key: int -> int) returns (r: int)
    requires index < count ==> 0 <= index && count <= |list|
    requires count <= 0x4000_0000
    ensures index >= count ==> r == index
    ensures index < count ==> index <= r <= count
    ensures index < count && SortedBetween(list, index, count, key) ==>
      (forall i | index <= i < r :: key(list[i]) < key(value)) &&
      (forall i | r <= i < count :: key(list[i]) >= key(value))
  {
    var min, max := index, count;
    ghost var sorted := SortedBetween(list, index, count, key);
    while min < max
      invariant index < count ==> index <= min <= max <= count
      invariant index >= count ==> min == index && max == count
      invariant sorted ==> forall i | index <= i < min :: key(list[i]) < key(value)
      invariant sorted ==> forall i | max <= i < count :: key(list[i]) >= key(value)
      decreases max - min
    {
      var mid := (min + max) / 2;
      if key(list[mid]) < key(value) {
        min := mid + 1;
      } else {
        max := mid;
      }
    }
    return min;
  }

  /** `BinarySearchLeftmost(list, value, count)`: `Leftmost` from index 0. */
  method LeftmostOfPrefix(list: seq<int>, value: int, count: int, key: int -> int) returns (r: int)
    requires count <= |list| && count <= 0x4000_0000
    ensures 0 < count ==> 0 <= r <= count
    ensures count <= 0 ==> r == 0
    ensures 0 < count && SortedBetween(list, 0, count, key) ==>
      (forall i | 0 <= i < r :: key(list[i]) < key(value)) &&
      (forall i | r <= i < count :: key(list[i]) >= key(value))
  {
    r := Leftmost(list, value, 0, count, key);
  }

  /** `BinarySearchLeftmost(list, index, count, test)`: the first position of `[index, count)`
      where the predicate is not negative, when it changes sign at most once there. */
  method LeftmostWhere(list: seq<int>, index: int, count: int, test: int -> int) returns (r: int)
    requires index < count ==> 0 <= index && count <= |list|
    requires count <= 0x4000_0000
    ensures index >= count ==> r == index
    ensures index < count ==> index <= r <= count
    ensures index < count && MonotoneBetween(list, index, count, test) ==>
      (forall i | index <= i < r :: test(list[i]) < 0) &&
      (forall i | r <= i < count :: test(list[i]) >= 0)
  {
    var min, max := index, count;
    ghost var monotone := MonotoneBetween(list, index, count, test);
    while min < max
      invariant index < count ==> index <= min <= max <= count
      invariant index >= count ==> min == index && max == count
      invariant monotone ==> forall i | index <= i < min :: test(list[i]) < 0
      invariant monotone ==> forall i | max <= i < count :: test(list[i]) >= 0
      decreases max - min
    {
      var mid := (min + max) / 2;
      if test(list[mid]) < 0 {
        min := mid + 1;
      } else {
        max := mid;
      }
    }
    return min;
  }

  /** The evidently intended `BinarySearchLeftmost`: the range is `[index, index + count)`, as
      for `Search` and the .NET convention for an `(index, count)` pair. */
  method LeftmostCorrected(list: seq<int>, value: int, index: int, count: int, key: int -> int) returns (r: int)
    requires 0 <= index && 0 <= count && index + count <= |list| <= MaxInt32
    ensures index <= r <= index + count
    ensures SortedBetween(list, index, index + count, key) ==>
      (forall i | index <= i < r :: key(list[i]) < key(value)) &&
      (forall i | r <= i < index + count :: key(list[i]) >= key(value))
  {
    var min, max := index, index + count;
    ghost var sorted := SortedBetween(list, index, index + count, key);
    while min < max
      invariant index <= min <= max <= index + count
      invariant sorted ==> forall i | index <= i < min :: key(list[i]) < key(value)
      invariant sorted ==> forall i | max <= i < index + count :: key(list[i]) >= key(value)
      decreases max - min
    {
      var mid := min + (max - min) / 2;
      if key(list[mid]) < key(value) {
        min := mid + 1;
      } else {
        max := mid;
      }
    }
    return min;
  }

  /** On `[0, 1, 2, 3]` with `index = 2, count = 2`, the search as written looks at nothing and
      answers 2, though the element there is less than 3; the corrected search answers 3. */
  method LeftmostSkipsRange() returns (asWritten: int, corrected: int)
    ensures asWritten == 2 && corrected == 3
  {
    var list := [0, 1, 2, 3];
    asWritten := Leftmost(list, 3, 2, 2, Identity);
    assert SortedBetween(list, 2, 4, Identity);
    corrected := LeftmostCorrected(list, 3, 2, 2, Identity);
    assert list[2] == 2 && list[3] == 3;
  }
}
