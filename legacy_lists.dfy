/**
 * `Kryz.Collections.PooledList<T>`: the older pooled list. Its indexer checks only the array
 * bounds, it grows by the shared growth policy through its own pool, it clears vacated slots
 * only when the element type holds references, and its `Dispose` is not idempotent.
 *
 * `holdsReferences` stands for `RuntimeHelpers.IsReferenceOrContainsReferences<T>()`.
 */
module LegacyPooledLists {
  import opened Wrappers
  import opened GrowthPolicy
  import opened ListSpec
  import opened ArrayPools
  import opened VersionedEnumerator
  import ArrayOps

  class PooledList {
    var version: int
    var count: int
    var arr: array?<int>
    const arrayPool: ArrayPool
    const holdsReferences: bool

    /** Live with `count <= arr.Length`, or disposed (no array, count 0). */
    ghost predicate Valid()
      reads this, arr
    {
      0 <= count && (arr == null ==> count == 0) && (arr != null ==> count <= arr.Length <= MaxInt32)
    }

    ghost predicate Live()
      reads this
    {
      arr != null
    }

    ghost function Contents(): seq<int>
      reads this, arr
      requires Valid()
    {
      if arr == null then [] else arr[..count]
    }

    /** `new PooledList<T>(capacity, pool)`: rents at least 16 slots. */
    constructor (capacity: Int32, pool: ArrayPool?, shared: ArrayPool, holdsReferences: bool)
      ensures Valid() && Live() && fresh(arr) && Contents() == [] && version == 0
      ensures arr.Length >= Max(capacity, 16) && this.holdsReferences == holdsReferences
      ensures arrayPool == if pool == null then shared else pool
    {
      var p := if pool == null then shared else pool;
      var a := p.Rent(Max(capacity, 16));
      arrayPool := p;
      this.holdsReferences := holdsReferences;
      arr := a;
      count := 0;
      version := 0;
    }

    /** The indexer getter: bounded by the backing array, so slots past the count are readable. */
    method Get(index: int) returns (r: Result<int>)
      requires Valid() && Live()
      ensures r == ReadAt(arr[..], index)
      ensures 0 <= index < count ==> r == Ok(Contents()[index])
    {
      if index < 0 || index >= arr.Length {
        return Err(IndexOutOfRange);
      }
      return Ok(arr[index]);
    }

    /** The indexer setter: bounded by the backing array; the version is not touched. */
    method Set(index: int, x: int) returns (o: Outcome)
      requires Valid() && Live()
      modifies arr
      ensures o == if 0 <= index < arr.Length then Done else Throws(IndexOutOfRange)
      ensures arr[..] == if o.Done? then old(arr[..])[index := x] else old(arr[..])
    {
      if index < 0 || index >= arr.Length {
        return Throws(IndexOutOfRange);
      }
      arr[index] := x;
      return Done;
    }

    /** `EnsureCapacity`: grows by the growth policy through the list's own pool. */
    method EnsureCapacity(capacity: Int32)
      requires Valid() && Live()
      modifies this, arr, arrayPool
      ensures Valid() && Live() && Contents() == old(Contents()) && version == old(version)
      ensures arr.Length >= capacity
      ensures var g := TryGetNewCapacity(old(arr.Length), capacity);
        if g.grow then
          fresh(arr) && arr.Length >= g.newCapacity &&
          arrayPool.returned == old(arrayPool.returned) + [old(arr)] &&
          (holdsReferences ==> old(arr)[..old(count)] == Zeros(old(count)))
        else
          arr == old(arr) && arrayPool.returned == old(arrayPool.returned)
    {
      arr := ArrayOps.GrowByPolicy(arr, count, capacity, arrayPool, holdsReferences);
    }

    /** `Add`. */
    method Add(x: int)
      requires Valid() && Live() && count < MaxInt32
      modifies this, arr, arrayPool
      ensures Valid() && Live()
      ensures Contents() == old(Contents()) + [x] && version == old(version) + 1
    {
      if count == arr.Length {
        EnsureCapacity(count + 1);
      }
      arr[count] := x;
      count := count + 1;
      version := version + 1;
    }

    /**
     * `Insert`: no index check of its own. A full array grows first, whatever the index. Inside
     * `[0, count]` the tail shifts right and `x` lands at `index`. A negative index fails in
     * `Array.Copy` (ArgumentOutOfRange). An index past the count skips the shift and stores `x`
     * in the array if it fits (IndexOutOfRange otherwise); the count still goes up by one, so
     * the new last element is whatever the slot at the old count held.
     */
    method Insert(index: int, x: int) returns (o: Outcome)
      requires Valid() && Live() && count < MaxInt32
      modifies this, arr, arrayPool
      ensures Valid() && Live()
      ensures o == if index < 0 then Throws(ArgumentOutOfRange)
                   else if index < arr.Length then Done else Throws(IndexOutOfRange)
      ensures o.Throws? ==> Contents() == old(Contents()) && version == old(version)
      ensures o.Done? ==> version == old(version) + 1
      ensures o.Done? && index <= old(count) ==> Contents() == InsertAt(old(Contents()), index, x)
      ensures o.Done? && index > old(count) ==>
        count == old(count) + 1 && Contents()[..old(count)] == old(Contents()) && arr[index] == x
    {
      if count == arr.Length {
        EnsureCapacity(count + 1);
      }
      if index < 0 {
        return Throws(ArgumentOutOfRange);
      }
      if index < count {
        forall k | index < k <= count {
          arr[k] := arr[k - 1];
        }
      }
      if index >= arr.Length {
        return Throws(IndexOutOfRange);
      }
      arr[index] := x;
      count := count + 1;
      version := version + 1;
      o := Done;
    }

    /** `IndexOf(item)`. */
    method IndexOf(x: int) returns (r: int)
      requires Valid() && Live()
      ensures r == FirstIndex(Contents(), x)
    {
      var res := ArrayOps.IndexOf(arr, x, 0, count);
      assert Contents()[0..] == Contents();
      r := res.value;
    }

    /** `IndexOf(item, index)`. */
    method IndexOfFrom(x: int, index: int) returns (r: Result<int>)
      requires Valid() && Live()
      ensures r.Ok? <==> 0 <= index <= count
      ensures r.Ok? ==> r.value == IndexFrom(Contents(), x, index)
      ensures r.Err? ==> r.error == ArgumentOutOfRange
    {
      var n := count - index;
      r := ArrayOps.IndexOf(arr, x, index, n);
      if r.Ok? {
        assert arr[..index + n] == Contents();
      }
    }

    /** `Contains`. */
    method Contains(x: int) returns (r: bool)
      requires Valid() && Live()
      ensures r <==> x in Contents()
    {
      var i := IndexOf(x);
      r := i >= 0;
    }

    /** `RemoveAt`: the vacated last slot is cleared only for reference element types; otherwise
        the old last element stays behind in the array. */
    method RemoveAt(index: int) returns (o: Outcome)
      requires Valid() && Live()
      modifies this, arr
      ensures Valid() && Live() && arr == old(arr)
      ensures o == if 0 <= index < old(count) then Done else Throws(ArgumentOutOfRange)
      ensures o.Done? ==>
        Contents() == ListSpec.RemoveAt(old(Contents()), index) && version == old(version) + 1 &&
        arr[count] == if holdsReferences then 0 else old(arr[count - 1])
      ensures o.Throws? ==> Contents() == old(Contents()) && version == old(version)
    {
      if index < 0 || index >= count {
        return Throws(ArgumentOutOfRange);
      }
      count := count - 1;
      version := version + 1;
      if index < count {
        forall k | index <= k < count {
          arr[k] := arr[k + 1];
        }
      }
      if holdsReferences {
        arr[count] := 0;
      }
      return Done;
    }

    /** `Remove`. */
    method Remove(x: int) returns (removed: bool)
      requires Valid() && Live()
      modifies this, arr
      ensures Valid() && Live() && arr == old(arr)
      ensures removed <==> x in old(Contents())
      ensures Contents() == RemoveFirst(old(Contents()), x)
      ensures version == if removed then old(version) + 1 else old(version)
    {
      var i := IndexOf(x);
      if i >= 0 {
        var _ := RemoveAt(i);
        return true;
      }
      return false;
    }

    /** `CopyTo(array, arrayIndex)`. */
    method CopyTo(dst: array<int>, arrayIndex: int) returns (o: Outcome)
      requires Valid() && Live()
      modifies dst
      ensures o == if arrayIndex < 0 then Throws(ArgumentOutOfRange)
                   else if arrayIndex + count > dst.Length then Throws(Argument)
                   else Done
      ensures o.Done? ==> dst[arrayIndex..arrayIndex + count] == old(Contents())
      ensures o.Throws? ==> dst[..] == old(dst[..])
    {
      o := ArrayOps.Copy(arr, 0, dst, arrayIndex, count);
    }

    /** `CopyTo(PooledList<T>)`: copies into the other list's array without growing it and without
        touching its count; a target array shorter than this list's count is an Argument error. */
    method CopyToList(other: PooledList) returns (o: Outcome)
      requires Valid() && Live() && other.Valid() && other.Live()
      modifies other.arr
      ensures o == if count > other.arr.Length then Throws(Argument) else Done
      ensures o.Done? ==> other.arr[..count] == old(Contents()) && other.arr[count..] == old(other.arr[count..])
      ensures o.Throws? ==> other.arr[..] == old(other.arr[..])
    {
      o := ArrayOps.Copy(arr, 0, other.arr, 0, count);
    }

    /** `Clear`: empties the list; the slots are cleared only for reference element types. */
    method Clear()
      requires Valid() && Live()
      modifies this, arr
      ensures Valid() && Live() && arr == old(arr) && Contents() == [] && version == old(version) + 1
      ensures arr[..old(count)] == if holdsReferences then Zeros(old(count)) else old(arr[..count])
    {
      if holdsReferences {
        forall k | 0 <= k < count {
          arr[k] := 0;
        }
      }
      count := 0;
      version := version + 1;
    }

    /**
     * `Dispose`: `Clear()`, return the array to the pool, forget it. Calling it again throws
     * ArgumentNull: for reference element types from `Array.Clear(null, ...)` before the version
     * moves, otherwise from `ArrayPool.Return(null)` after `Clear` bumped the version.
     */
    method Dispose() returns (o: Outcome)
      requires Valid()
      modifies this, arr, arrayPool
      ensures Valid() && !Live()
      ensures o == if old(arr) != null then Done else Throws(ArgumentNull)
      ensures o.Done? ==>
        arrayPool.returned == old(arrayPool.returned) + [old(arr)] && version == old(version) + 1 &&
        (holdsReferences ==> old(arr)[..old(count)] == Zeros(old(count)))
      ensures o.Throws? ==>
        arrayPool.returned == old(arrayPool.returned) &&
        version == if holdsReferences then old(version) else old(version) + 1
    {
      if arr == null {
        if holdsReferences {
          return Throws(ArgumentNull);
        }
        count := 0;
        version := version + 1;
        return Throws(ArgumentNull);
      }
      Clear();
      arrayPool.Return(arr, false);
      arr := null;
      return Done;
    }

    method GetEnumerator() returns (e: Enumerator)
      requires Valid()
      ensures fresh(e) && e.list == this && e.State() == Start(count, version)
    {
      e := new Enumerator(this);
    }
  }

  /**
   * `PooledList<T>.Enumerator`: the same versioned state machine as the runtime list, reading
   * through this list's indexer, which is bounded by the array (and throws NullReference once
   * the array is gone).
   */
  class Enumerator {
    const list: PooledList
    const count: int
    const version: int
    var index: int
    var current: int

    function State(): Cursor
      reads this
    {
      Cursor(count, version, index, current)
    }

    constructor (list: PooledList)
      ensures this.list == list && State() == Start(list.count, list.version)
    {
      this.list := list;
      count := list.count;
      version := list.version;
      index := 0;
      current := 0;
    }

    method MoveNext() returns (r: Result<bool>)
      requires list.Valid()
      modifies this
      ensures Step(State(), r) ==
        VersionedEnumerator.MoveNext(old(State()), list.version, list.count,
          if list.arr == null then Err(NullReference) else ReadAt(list.arr[..], old(index)))
    {
      if version != list.version {
        index := list.count + 1;
        current := 0;
        return Err(InvalidOperation);
      }
      if index < count {
        var read: Result<int>;
        if list.arr == null {
          read := Err(NullReference);
        } else {
          read := list.Get(index);
        }
        index := index + 1;
        if read.Err? {
          return Err(read.error);
        }
        current := read.value;
        return Ok(true);
      }
      return Ok(false);
    }

    method Reset()
      modifies this
      ensures State() == VersionedEnumerator.Reset(old(State()))
    {
      index := 0;
      current := 0;
    }
  }
}

/**
 * `Kryz.Collections.NonAllocList<T>`: the struct list without a version counter. Growth
 * always clears the old array; `Clear` always clears; `RemoveAt` clears the vacated slot only
 * for reference element types. Its enumerator takes the array and a count, where a count of
 * zero means "the whole array".
 */
module NonAllocLists {
  import opened Wrappers
  import opened GrowthPolicy
  import opened ListSpec
  import opened ArrayPools
  import opened VersionedEnumerator
  import ArrayOps

  class NonAllocList {
    var count: int
    var arr: array?<int>
    const arrayPool: ArrayPool
    const holdsReferences: bool

    ghost predicate Valid()
      reads this, arr
    {
      0 <= count && (arr == null ==> count == 0) && (arr != null ==> count <= arr.Length <= MaxInt32)
    }

    ghost predicate Live()
      reads this
    {
      arr != null
    }

    ghost function Contents(): seq<int>
      reads this, arr
      requires Valid()
    {
      if arr == null then [] else arr[..count]
    }

    /** `new NonAllocList<T>(capacity, pool)`: rents at least 16 slots. */
    constructor (capacity: Int32, pool: ArrayPool?, shared: ArrayPool, holdsReferences: bool)
      ensures Valid() && Live() && fresh(arr) && Contents() == []
      ensures arr.Length >= Max(capacity, 16) && this.holdsReferences == holdsReferences
      ensures arrayPool == if pool == null then shared else pool
    {
      var p := if pool == null then shared else pool;
      var a := p.Rent(Max(capacity, 16));
      arrayPool := p;
      this.holdsReferences := holdsReferences;
      arr := a;
      count := 0;
    }

    /** The indexer getter: bounded by the backing array. */
    method Get(index: int) returns (r: Result<int>)
      requires Valid() && Live()
      ensures r == ReadAt(arr[..], index)
      ensures 0 <= index < count ==> r == Ok(Contents()[index])
    {
      if index < 0 || index >= arr.Length {
        return Err(IndexOutOfRange);
      }
      return Ok(arr[index]);
    }

    /** The indexer setter: bounded by the backing array. */
    method Set(index: int, x: int) returns (o: Outcome)
      requires Valid() && Live()
      modifies arr
      ensures o == if 0 <= index < arr.Length then Done else Throws(IndexOutOfRange)
      ensures arr[..] == if o.Done? then old(arr[..])[index := x] else old(arr[..])
    {
      if index < 0 || index >= arr.Length {
        return Throws(IndexOutOfRange);
      }
      arr[index] := x;
      return Done;
    }

    /** `EnsureCapacity`: grows by the growth policy through the list's pool, always clearing the
        copied part of the old array before returning it. */
    method EnsureCapacity(capacity: Int32)
      requires Valid() && Live()
      modifies this, arr, arrayPool
      ensures Valid() && Live() && Contents() == old(Contents()) && arr.Length >= capacity
      ensures var g := TryGetNewCapacity(old(arr.Length), capacity);
        if g.grow then
          fresh(arr) && arr.Length >= g.newCapacity &&
          arrayPool.returned == old(arrayPool.returned) + [old(arr)] &&
          old(arr)[..old(count)] == Zeros(old(count))
        else
          arr == old(arr) && arrayPool.returned == old(arrayPool.returned)
    {
      arr := ArrayOps.GrowByPolicy(arr, count, capacity, arrayPool, true);
    }

    /** `Add`. */
    method Add(x: int)
      requires Valid() && Live() && count < MaxInt32
      modifies this, arr, arrayPool
      ensures Valid() && Live() && Contents() == old(Contents()) + [x]
    {
      if count == arr.Length {
        EnsureCapacity(count + 1);
      }
      arr[count] := x;
      count := count + 1;
    }

    /**
     * `Insert`: no index check of its own. A full array grows first, whatever the index. Inside
     * `[0, count]` the tail shifts right and `x` lands at `index`. A negative index fails in
     * `Array.Copy` (ArgumentOutOfRange). An index past the count skips the shift and stores `x`
     * in the array if it fits (IndexOutOfRange otherwise); the count still goes up by one, so
     * the new last element is whatever the slot at the old count held.
     */
    method Insert(index: int, x: int) returns (o: Outcome)
      requires Valid() && Live() && count < MaxInt32
      modifies this, arr, arrayPool
      ensures Valid() && Live()
      ensures o == if index < 0 then Throws(ArgumentOutOfRange)
                   else if index < arr.Length then Done else Throws(IndexOutOfRange)
      ensures o.Throws? ==> Contents() == old(Contents())
      ensures o.Done? && index <= old(count) ==> Contents() == InsertAt(old(Contents()), index, x)
      ensures o.Done? && index > old(count) ==>
        count == old(count) + 1 && Contents()[..old(count)] == old(Contents()) && arr[index] == x
    {
      if count == arr.Length {
        EnsureCapacity(count + 1);
      }
      if index < 0 {
        return Throws(ArgumentOutOfRange);
      }
      if index < count {
        forall k | index < k <= count {
          arr[k] := arr[k - 1];
        }
      }
      if index >= arr.Length {
        return Throws(IndexOutOfRange);
      }
      arr[index] := x;
      count := count + 1;
      o := Done;
    }

    /** `IndexOf(item)`. */
    method IndexOf(x: int) returns (r: int)
      requires Valid() && Live()
      ensures r == FirstIndex(Contents(), x)
    {
      var res := ArrayOps.IndexOf(arr, x, 0, count);
      assert Contents()[0..] == Contents();
      r := res.value;
    }

    /** `IndexOf(item, index)`. */
    method IndexOfFrom(x: int, index: int) returns (r: Result<int>)
      requires Valid() && Live()
      ensures r.Ok? <==> 0 <= index <= count
      ensures r.Ok? ==> r.value == IndexFrom(Contents(), x, index)
      ensures r.Err? ==> r.error == ArgumentOutOfRange
    {
      var n := count - index;
      r := ArrayOps.IndexOf(arr, x, index, n);
      if r.Ok? {
        assert arr[..index + n] == Contents();
      }
    }

    /** `Contains`. */
    method Contains(x: int) returns (r: bool)
      requires Valid() && Live()
      ensures r <==> x in Contents()
    {
      var i := IndexOf(x);
      r := i >= 0;
    }

    /** `RemoveAt`. */
    method RemoveAt(index: int) returns (o: Outcome)
      requires Valid() && Live()
      modifies this, arr
      ensures Valid() && Live() && arr == old(arr)
      ensures o == if 0 <= index < old(count) then Done else Throws(ArgumentOutOfRange)
      ensures o.Done? ==>
        Contents() == ListSpec.RemoveAt(old(Contents()), index) &&
        arr[count] == if holdsReferences then 0 else old(arr[count - 1])
      ensures o.Throws? ==> Contents() == old(Contents())
    {
      if index < 0 || index >= count {
        return Throws(ArgumentOutOfRange);
      }
      count := count - 1;
      if index < count {
        forall k | index <= k < count {
          arr[k] := arr[k + 1];
        }
      }
      if holdsReferences {
        arr[count] := 0;
      }
      return Done;
    }

    /** `Remove`. */
    method Remove(x: int) returns (removed: bool)
      requires Valid() && Live()
      modifies this, arr
      ensures Valid() && Live() && arr == old(arr)
      ensures removed <==> x in old(Contents())
      ensures Contents() == RemoveFirst(old(Contents()), x)
    {
      var i := IndexOf(x);
      if i >= 0 {
        var _ := RemoveAt(i);
        return true;
      }
      return false;
    }

    /** `CopyTo(array, arrayIndex)`. */
    method CopyTo(dst: array<int>, arrayIndex: int) returns (o: Outcome)
      requires Valid() && Live()
      modifies dst
      ensures o == if arrayIndex < 0 then Throws(ArgumentOutOfRange)
                   else if arrayIndex + count > dst.Length then Throws(Argument)
                   else Done
      ensures o.Done? ==> dst[arrayIndex..arrayIndex + count] == old(Contents())
      ensures o.Throws? ==> dst[..] == old(dst[..])
    {
      o := ArrayOps.Copy(arr, 0, dst, arrayIndex, count);
    }

    /** `CopyTo(NonAllocList<T>)`: into the other list's array, leaving its count alone. */
    method CopyToList(other: NonAllocList) returns (o: Outcome)
      requires Valid() && Live() && other.Valid() && other.Live()
      modifies other.arr
      ensures o == if count > other.arr.Length then Throws(Argument) else Done
      ensures o.Done? ==> other.arr[..count] == old(Contents()) && other.arr[count..] == old(other.arr[count..])
      ensures o.Throws? ==> other.arr[..] == old(other.arr[..])
    {
      o := ArrayOps.Copy(arr, 0, other.arr, 0, count);
    }

    /** `Clear`: always clears the live slots. */
    method Clear()
      requires Valid() && Live()
      modifies this, arr
      ensures Valid() && Live() && arr == old(arr) && Contents() == []
      ensures arr[..old(count)] == Zeros(old(count))
    {
      forall k | 0 <= k < count {
        arr[k] := 0;
      }
      count := 0;
    }

    /** `Dispose`: clear, return the array once, forget it; a second call throws ArgumentNull
        from `Array.Clear(null, ...)`. */
    method Dispose() returns (o: Outcome)
      requires Valid()
      modifies this, arr, arrayPool
      ensures Valid() && !Live()
      ensures o == if old(arr) != null then Done else Throws(ArgumentNull)
      ensures o.Done? ==>
        arrayPool.returned == old(arrayPool.returned) + [old(arr)] &&
        old(arr)[..old(count)] == Zeros(old(count))
      ensures o.Throws? ==> arrayPool.returned == old(arrayPool.returned)
    {
      if arr == null {
        return Throws(ArgumentNull);
      }
      Clear();
      arrayPool.Return(arr, false);
      arr := null;
      return Done;
    }

    /** `GetEnumerator`: `new Enumerator(array, count)`, so an empty list enumerates its whole
        backing array. */
    method GetEnumerator() returns (e: Enumerator)
      requires Valid() && Live()
      ensures fresh(e) && e.arr == arr && e.count == SnapshotCount(arr.Length, count) && e.index == 0
    {
      e := new Enumerator(arr, count);
    }

    /** The evidently intended `GetEnumerator`: an enumerator over exactly the live elements. */
    method GetEnumeratorCorrected() returns (e: Enumerator)
      requires Valid() && Live()
      ensures fresh(e) && e.arr == arr && e.index == 0
      ensures Enumerate(e.State(), 0, 0, e.arr[..]) == Contents()
    {
      e := new Enumerator.Exact(arr, count);
      EnumerateAll(count, 0, 0, arr[..]);
    }
  }

  /** `Enumerator(array, count)`: the number of elements it yields. */
  function SnapshotCount(arrayLength: int, count: int): (n: int)
    ensures count > 0 ==> n == count
    ensures count <= 0 ==> n == arrayLength
  {
    if count > 0 then count else arrayLength
  }

  /** On an empty list, `GetEnumerator` yields every slot of the backing array instead of nothing. */
  lemma EmptyListEnumeratesBackingArray(store: seq<int>)
    requires |store| > 0
    ensures Enumerate(Start(SnapshotCount(|store|, 0), 0), 0, 0, store) == store
    ensures Enumerate(Start(SnapshotCount(|store|, 0), 0), 0, 0, store) != store[..0]
  {
    EnumerateAll(|store|, 0, 0, store);
  }

  /**
   * `NonAllocList<T>.Enumerator`: no version check; `MoveNext` reads `array[index++]` while the
   * index is below the count. It is the versioned state machine with the version held fixed.
   */
  class Enumerator {
    const arr: array<int>
    const count: int
    var index: int
    var current: int

    function State(): Cursor
      reads this
    {
      Cursor(count, 0, index, current)
    }

    /** `Enumerator(array, count)`: a non-positive count means the whole array. */
    constructor (arr: array<int>, count: int)
      ensures this.arr == arr && this.count == SnapshotCount(arr.Length, count)
      ensures index == 0 && current == 0
    {
      this.arr := arr;
      this.count := if count > 0 then count else arr.Length;
      index := 0;
      current := 0;
    }

    /** An enumerator over exactly the first `count` slots. */
    constructor Exact(arr: array<int>, count: int)
      ensures this.arr == arr && State() == Start(count, 0)
    {
      this.arr := arr;
      this.count := count;
      index := 0;
      current := 0;
    }

    method MoveNext() returns (r: Result<bool>)
      modifies this
      ensures Step(State(), r) == VersionedEnumerator.MoveNext(old(State()), 0, 0, ReadAt(arr[..], old(index)))
    {
      if index < count {
        var i := index;
        index := index + 1;
        if i < 0 || i >= arr.Length {
          return Err(IndexOutOfRange);
        }
        current := arr[i];
        return Ok(true);
      }
      return Ok(false);
    }

    method Reset()
      modifies this
      ensures State() == VersionedEnumerator.Reset(old(State()))
    {
      index := 0;
      current := 0;
    }
  }
}
