/**
 * List helpers of the three CollectionExtensions files. The target of the add-range
 * helpers is a `List<T>` (IList / System.Collections.Generic.List) modelled by its
 * contents and its capacity; the sources read by the helpers are read-only lists,
 * modelled as sequences. An `IEqualityComparer<T>` is an equality function `eq`.
 */
module CollectionExtensions {
  import opened Wrappers
  import opened GrowthPolicy
  import opened ListSpec

  /** The mutable target list: its contents and the capacity of its backing array. */
  class List<T> {
    var items: seq<T>
    var capacity: int

    ghost predicate Valid()
      reads this
    {
      |items| <= capacity <= MaxInt32
    }

    constructor (initial: seq<T>)
      requires |initial| <= MaxInt32
      ensures Valid() && items == initial && capacity == |initial|
    {
      items := initial;
      capacity := |initial|;
    }

    /** `list.Add(item)`: appends; the list grows its own storage when full. */
    method Add(x: T)
      requires Valid() && |items| < MaxInt32
      modifies this
      ensures Valid() && items == old(items) + [x]
      ensures old(capacity) <= capacity
      ensures |old(items)| < old(capacity) ==> capacity == old(capacity)
    {
      items := items + [x];
      if |items| > capacity {
        capacity := TryGetNewCapacity(capacity, |items|).newCapacity;
      }
    }

    /** The `Capacity` setter; the BCL rejects values below `Count`. */
    method SetCapacity(value: int) returns (o: Outcome)
      requires Valid() && value <= MaxInt32
      modifies this
      ensures Valid() && items == old(items)
      ensures o == (if value < |items| then Throws(ArgumentOutOfRange) else Done)
      ensures capacity == if o.Done? then value else old(capacity)
    {
      if value < |items| {
        return Throws(ArgumentOutOfRange);
      }
      capacity := value;
      return Done;
    }
  }

  /**
   * `EnsureCapacity(list, capacity)`: sets `Capacity` to the growth-policy result only
   * when `capacity` exceeds the current capacity; contents are untouched.
   */
  method EnsureCapacity<T>(list: List<T>, capacity: Int32)
    requires list.Valid()
    modifies list
    ensures list.Valid() && list.items == old(list.items)
    ensures capacity <= old(list.capacity) ==> list.capacity == old(list.capacity)
    ensures capacity > old(list.capacity) ==>
      list.capacity == TryGetNewCapacity(old(list.capacity), capacity).newCapacity && list.capacity >= capacity
  {
    var g := TryGetNewCapacity(list.capacity, capacity);
    if g.grow {
      var _ := list.SetCapacity(g.newCapacity);
    }
  }

  /**
   * The `AddRange_IList` / `AddRange_IReadOnlyList` / `AddRange_IEnumerable` /
   * `AddRange(ReadOnlySpan)` / `AddRangeNonAlloc(IList)` overloads: `list.Add` for each
   * element of `toAdd`, in order.
   */
  method AddRange<T>(list: List<T>, toAdd: seq<T>)
    requires list.Valid() && |list.items| + |toAdd| <= MaxInt32
    modifies list
    ensures list.Valid() && list.items == old(list.items) + toAdd
    ensures list.capacity >= old(list.capacity)
  {
    var i := 0;
    while i < |toAdd|
      invariant 0 <= i <= |toAdd|
      invariant list.capacity >= old(list.capacity)
      invariant list.Valid() && list.items == old(list.items) + toAdd[..i]
    {
      list.Add(toAdd[i]);
      assert toAdd[..i + 1] == toAdd[..i] + [toAdd[i]];
      i := i + 1;
    }
    assert toAdd[..i] == toAdd;
  }

  /** The `AddRangeWhere_*` overloads: `list.Add` for each element that satisfies `pred`. */
  method AddRangeWhere<T>(list: List<T>, toAdd: seq<T>, pred: T -> bool)
    requires list.Valid() && |list.items| + |toAdd| <= MaxInt32
    modifies list
    ensures list.Valid() && list.items == old(list.items) + Filter(toAdd, pred)
    ensures list.capacity >= old(list.capacity)
  {
    var i := 0;
    ghost var added: seq<T> := [];
    while i < |toAdd|
      invariant 0 <= i <= |toAdd|
      invariant list.capacity >= old(list.capacity)
      invariant list.Valid() && list.items == old(list.items) + added
      invariant added == Filter(toAdd[..i], pred)
    {
      var item := toAdd[i];
      FilterPrefixStep(toAdd, i, pred);
      if pred(item) {
        list.Add(item);
        added := added + [item];
      }
      i := i + 1;
    }
    assert toAdd[..i] == toAdd;
  }

  /**
   * `AddRangeNonAlloc(List, IReadOnlyList)` of Runtime/CollectionExtensions.cs: reserves
   * `Count + toAdd.Count` first, then adds every element in order.
   */
  method AddRangeReserved<T>(list: List<T>, toAdd: seq<T>)
    requires list.Valid() && |list.items| + |toAdd| <= MaxInt32
    modifies list
    ensures list.Valid() && list.items == old(list.items) + toAdd
    ensures list.capacity >= |list.items|
  {
    EnsureCapacity(list, |list.items| + |toAdd|);
    AddRange(list, toAdd);
  }

  /**
   * `AddRangeWhere(List, IReadOnlyList, Func)` of Runtime/CollectionExtensions.cs: reserves
   * room for every element, then adds those that satisfy `pred`.
   */
  method AddRangeWhereReserved<T>(list: List<T>, toAdd: seq<T>, pred: T -> bool)
    requires list.Valid() && |list.items| + |toAdd| <= MaxInt32
    modifies list
    ensures list.Valid() && list.items == old(list.items) + Filter(toAdd, pred)
    ensures list.capacity >= |old(list.items)| + |toAdd|
  {
    EnsureCapacity(list, |list.items| + |toAdd|);
    AddRangeWhere(list, toAdd, pred);
  }

  /** `ContentEquals(a, b, comparer)`: equal counts and pairwise comparer-equal elements. */
  method ContentEquals<T>(a: seq<T>, b: seq<T>, eq: (T, T) -> bool) returns (r: bool)
    ensures r <==> |a| == |b| && forall i :: 0 <= i < |a| ==> eq(a[i], b[i])
  {
    var count := |a|;
    if count != |b| {
      return false;
    }
    var i := 0;
    while i < count
      invariant 0 <= i <= count
      invariant forall k :: 0 <= k < i ==> eq(a[k], b[k])
    {
      if !eq(a[i], b[i]) {
        return false;
      }
      i := i + 1;
    }
    return true;
  }

  /** `IndexOf(list, value, comparer)`: the first index whose element equals `value`, else -1. */
  method IndexOf<T>(list: seq<T>, value: T, eq: (T, T) -> bool) returns (r: int)
    ensures -1 <= r < |list|
    ensures r >= 0 ==> eq(list[r], value) && forall k :: 0 <= k < r ==> !eq(list[k], value)
    ensures r == -1 <==> forall k :: 0 <= k < |list| ==> !eq(list[k], value)
  {
    var i := 0;
    while i < |list|
      invariant 0 <= i <= |list|
      invariant forall k :: 0 <= k < i ==> !eq(list[k], value)
    {
      if eq(list[i], value) {
        return i;
      }
      i := i + 1;
    }
    return -1;
  }

  /** `EqualityComparer<T>.Default` for a type with built-in equality. */
  function DefaultEquality<T(==)>(): (T, T) -> bool
  {
    (a: T, b: T) => a == b
  }

  /**
   * `IndexOf(list, value, comparer = null)` of Runtime/CollectionExtensions.cs: a missing
   * comparer is replaced by the default equality, for which the result is the first
   * occurrence of `value`.
   */
  method IndexOfOrDefault<T(==)>(list: seq<T>, value: T, comparer: Option<(T, T) -> bool>) returns (r: int)
    ensures -1 <= r < |list|
    ensures comparer.Some? ==>
      (r >= 0 ==> comparer.value(list[r], value) &&
                  forall k :: 0 <= k < r ==> !comparer.value(list[k], value)) &&
      (r == -1 <==> forall k :: 0 <= k < |list| ==> !comparer.value(list[k], value))
    ensures comparer.None? ==> r == FirstIndex(list, value)
  {
    var eq := if comparer.Some? then comparer.value else DefaultEquality();
    r := IndexOf(list, value, eq);
  }

  /** `Contains(list, comparer, value)`: `IndexOf(...) >= 0`. */
  method Contains<T>(list: seq<T>, value: T, eq: (T, T) -> bool) returns (r: bool)
    ensures r <==> exists k :: 0 <= k < |list| && eq(list[k], value)
  {
    var i := IndexOf(list, value, eq);
    r := i >= 0;
  }

  /** `FindIndex(list, predicate)`: the first index whose element satisfies `pred`, else -1. */
  method FindIndex<T>(list: seq<T>, pred: T -> bool) returns (r: int)
    ensures -1 <= r < |list|
    ensures r >= 0 ==> pred(list[r]) && forall k :: 0 <= k < r ==> !pred(list[k])
    ensures r == -1 <==> forall k :: 0 <= k < |list| ==> !pred(list[k])
  {
    var count := |list|;
    var i := 0;
    while i < count
      invariant 0 <= i <= count
      invariant forall k :: 0 <= k < i ==> !pred(list[k])
    {
      if pred(list[i]) {
        return i;
      }
      i := i + 1;
    }
    return -1;
  }

  /**
   * `ToArray(collection)` of Runtime/Extensions/CollectionExtensions.cs: the shared
   * `Array.Empty` instance (here `empty`) when the collection is empty, otherwise a new
   * array of length `Count` holding the collection's contents.
   */
  method ToArray<T>(collection: seq<T>, empty: array<T>) returns (r: array<T>)
    requires empty.Length == 0
    ensures r[..] == collection
    ensures |collection| == 0 ==> r == empty
    ensures |collection| > 0 ==> fresh(r)
  {
    if |collection| == 0 {
      return empty;
    }
    r := new T[|collection|](i requires 0 <= i < |collection| => collection[i]);
  }

  /**
   * `ToArray(collection)` of Utilities/CollectionExtensions.cs: always a new array of
   * length `Count` holding the collection's contents, even when it is empty.
   */
  method ToNewArray<T>(collection: seq<T>) returns (r: array<T>)
    ensures fresh(r) && r[..] == collection
  {
    r := new T[|collection|](i requires 0 <= i < |collection| => collection[i]);
  }
}
