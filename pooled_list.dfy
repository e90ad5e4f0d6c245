/**
 * `Kryz.Utils.PooledList<T>` (runtime flavour): a growable list whose backing array is
 * rented from an `ArrayPool`, with a version counter checked by its enumerator, and
 * with list objects themselves recycled through a per-thread pool of 128 slots.
 *
 * The live contents are `arr[..count]`. A disposed list has no array and no pool.
 * `ArrayPool<T>.Shared` and the thread's `LocalPool` are explicit parameters.
 */
module PooledLists {
  import opened Wrappers
  import opened GrowthPolicy
  import opened ListSpec
  import opened ArrayPools
  import opened ArrayPoolUtils
  import opened VersionedEnumerator
  import ArrayOps

  class PooledList {
    var version: int
    var count: int
    var arr: array?<int>
    var pool: ArrayPool?
    const isPooled: bool

    /** Either live (an array holding the contents, and its pool) or disposed (neither, count 0). */
    ghost predicate Valid()
      reads this, arr
    {
      0 <= count && (arr == null <==> pool == null) &&
      (arr == null ==> count == 0) &&
      (arr != null ==> count <= arr.Length <= MaxInt32)
    }

    ghost predicate Live()
      reads this
    {
      arr != null
    }

    /** The elements of the list, in order; empty once disposed. */
    ghost function Contents(): seq<int>
      reads this, arr
      requires Valid()
    {
      if arr == null then [] else arr[..count]
    }

    /** `new PooledList<T>(capacity, arrayPool)` and the pool-only constructor with `isPooled`. */
    constructor (capacity: Int32, arrayPool: ArrayPool?, shared: ArrayPool, isPooled: bool)
      ensures Valid() && Live() && fresh(arr) && this.isPooled == isPooled
      ensures Contents() == [] && version == 0 && arr.Length >= Max(capacity, 1)
      ensures pool == if arrayPool == null then shared else arrayPool
    {
      var p := if arrayPool == null then shared else arrayPool;
      var a := p.Rent(if capacity > 0 then capacity else 1);
      this.isPooled := isPooled;
      pool := p;
      arr := a;
      count := 0;
      version := 0;
    }

    /** `Init`: re-arms a recycled list with a freshly rented array; count and version restart at 0. */
    method Init(capacity: Int32, arrayPool: ArrayPool?, shared: ArrayPool)
      modifies this
      ensures Valid() && Live() && fresh(arr)
      ensures Contents() == [] && version == 0 && arr.Length >= Max(capacity, 1)
      ensures pool == if arrayPool == null then shared else arrayPool
    {
      pool := if arrayPool == null then shared else arrayPool;
      arr := pool.Rent(if capacity > 0 then capacity else 1);
      count := 0;
      version := 0;
    }

    /** The `ref T this[index]` getter: bounds-checked against the count, not the array. */
    method Get(index: int) returns (r: Result<int>)
      requires Valid()
      ensures r == ReadAt(Contents(), index)
    {
      if index < 0 || index >= count {
        return Err(IndexOutOfRange);
      }
      return Ok(arr[index]);
    }

    /** A write through the `ref T` indexer: replaces one element and, unlike every other
        mutation, leaves the version alone, so enumerators do not notice it. */
    method Set(index: int, x: int) returns (o: Outcome)
      requires Valid()
      modifies arr
      ensures Valid() && Contents() == if 0 <= index < count then old(Contents())[index := x] else old(Contents())
      ensures o == if 0 <= index < count then Done else Throws(IndexOutOfRange)
    {
      if index < 0 || index >= count {
        return Throws(IndexOutOfRange);
      }
      arr[index] := x;
      return Done;
    }

    /** `EnsureCapacity`: resizes through `ArrayPool<T>.Shared`, whichever pool the list was built with. */
    method EnsureCapacity(capacity: Int32, shared: ArrayPool)
      requires Valid() && Live()
      modifies this, arr, shared
      ensures Valid() && Live() && Contents() == old(Contents())
      ensures version == old(version) && pool == old(pool) && arr.Length >= capacity
      ensures old(arr.Length) >= capacity ==>
        arr == old(arr) && arr[..] == old(arr[..]) && shared.returned == old(shared.returned)
      ensures old(arr.Length) < capacity ==>
        fresh(arr) && shared.returned == old(shared.returned) + [old(arr)] &&
        old(arr)[..old(count)] == Zeros(old(count))
    {
      if arr.Length < capacity {
        arr := Resize(arr, count, capacity, shared);
      }
    }

    /** `Add`: appends, growing to at least one more slot when full. */
    method Add(x: int, shared: ArrayPool)
      requires Valid() && Live() && count < MaxInt32
      modifies this, arr, shared
      ensures Valid() && Live() && pool == old(pool)
      ensures Contents() == old(Contents()) + [x] && version == old(version) + 1
      ensures old(count) < old(arr.Length) ==> arr == old(arr) && shared.returned == old(shared.returned)
      ensures old(count) == old(arr.Length) ==> fresh(arr) && shared.returned == old(shared.returned) + [old(arr)]
    {
      if count == arr.Length {
        EnsureCapacity(count + 1, shared);
      }
      arr[count] := x;
      count := count + 1;
      version := version + 1;
    }

    /** `AddRange(ICollection<T>)`: one copy, one version bump, and nothing at all for an empty
        range. This is also the evidently intended `AddRange(ReadOnlySpan<T>)`, copying into
        `array.AsSpan(count)`. */
    method AddRangeCollection(items: seq<int>, shared: ArrayPool)
      requires Valid() && Live() && count + |items| <= MaxInt32
      modifies this, arr, shared
      ensures Valid() && Live() && pool == old(pool)
      ensures Contents() == old(Contents()) + items
      ensures version == if |items| > 0 then old(version) + 1 else old(version)
    {
      var newCount := count + |items|;
      if newCount > count {
        if newCount > arr.Length {
          EnsureCapacity(newCount, shared);
        }
        forall k | 0 <= k < |items| {
          arr[count + k] := items[k];
        }
        count := newCount;
        version := version + 1;
      }
    }

    /**
     * `AddRange(ReadOnlySpan<T>)` as written: `array[count..]` on a `T[]` is a range copy, so the
     * items are copied into a temporary array and never reach the list's array. The count and
     * the version still move, and the new elements are whatever the array held past the old count.
     */
    method AddRangeSpan(items: seq<int>, shared: ArrayPool)
      requires Valid() && Live() && count + |items| <= MaxInt32
      modifies this, arr, shared
      ensures Valid() && Live() && pool == old(pool)
      ensures count == old(count) + |items| && Contents()[..old(count)] == old(Contents())
      ensures version == if |items| > 0 then old(version) + 1 else old(version)
      ensures old(count) + |items| <= old(arr.Length) ==>
        arr == old(arr) && Contents() == old(arr[..count + |items|])
    {
      var newCount := count + |items|;
      if newCount > count {
        if newCount > arr.Length {
          EnsureCapacity(newCount, shared);
        }
        var a, c := arr, count;
        assert a[..c] == old(Contents());
        var tail := new int[a.Length - c](i requires 0 <= i < a.Length - c reads a => a[c + i]);
        forall k | 0 <= k < |items| {
          tail[k] := items[k];
        }
        count := newCount;
        version := version + 1;
        assert Contents()[..c] == a[..c];
      }
    }

    /** `AddRange(IEnumerable<T>)` over a sequence that is not a collection: one `Add` per item. */
    method AddRangeEnumerable(items: seq<int>, shared: ArrayPool)
      requires Valid() && Live() && count + |items| <= MaxInt32
      modifies this, arr, shared
      ensures Valid() && Live() && pool == old(pool)
      ensures Contents() == old(Contents()) + items
      ensures version == old(version) + |items|
    {
      var i := 0;
      while i < |items|
        invariant 0 <= i <= |items|
        invariant Valid() && Live() && pool == old(pool)
        invariant Contents() == old(Contents()) + items[..i]
        invariant version == old(version) + i
        invariant fresh(arr) || arr == old(arr)
        invariant count == old(count) + i
      {
        Add(items[i], shared);
        assert items[..i + 1] == items[..i] + [items[i]];
        i := i + 1;
      }
      assert items[..i] == items;
    }

    /**
     * `Insert`: no index check of its own. A full array grows first, whatever the index. Inside
     * `[0, count]` the tail shifts right and `x` lands at `index`. A negative index fails in
     * `Array.Copy` (ArgumentOutOfRange). An index past the count skips the shift and stores `x`
     * in the array if it fits (IndexOutOfRange otherwise); the count still goes up by one, so
     * the new last element is whatever the slot at the old count held.
     */
    method Insert(index: int, x: int, shared: ArrayPool) returns (o: Outcome)
      requires Valid() && Live() && count < MaxInt32
      modifies this, arr, shared
      ensures Valid() && Live() && pool == old(pool)
      ensures o == if index < 0 then Throws(ArgumentOutOfRange)
                   else if index < arr.Length then Done else Throws(IndexOutOfRange)
      ensures o.Throws? ==> Contents() == old(Contents()) && version == old(version)
      ensures o.Done? ==> version == old(version) + 1
      ensures o.Done? && index <= old(count) ==> Contents() == InsertAt(old(Contents()), index, x)
      ensures o.Done? && index > old(count) ==>
        count == old(count) + 1 && Contents()[..old(count)] == old(Contents()) && arr[index] == x
    {
      if count == arr.Length {
        EnsureCapacity(count + 1, shared);
      }
      if index < 0 {
        return Throws(ArgumentOutOfRange);
      }
      if index < count {
        forall k | index < k <= count {
          arr[k] := arr[k - 1];
        }
      }
      if index >= arr.Length {
        return Throws(IndexOutOfRange);
      }
      arr[index] := x;
      count := count + 1;
      version := version + 1;
      o := Done;
    }

    /** `IndexOf(item)`: `Array.IndexOf` over the live elements. */
    method IndexOf(x: int) returns (r: int)
      requires Valid() && Live()
      ensures r == FirstIndex(Contents(), x)
    {
      var res := ArrayOps.IndexOf(arr, x, 0, count);
      assert Contents()[0..] == Contents();
      r := res.value;
    }

    /** `IndexOf(item, index)`: `Array.IndexOf` from `index` over the live elements; a start past
        the count makes the window length negative, which is ArgumentOutOfRange. */
    method IndexOfFrom(x: int, index: int) returns (r: Result<int>)
      requires Valid()
      ensures !Live() ==> r == Err(ArgumentNull)
      ensures Live() ==> (r.Ok? <==> 0 <= index <= count)
      ensures r.Ok? ==> r.value == IndexFrom(Contents(), x, index)
      ensures Live() && r.Err? ==> r.error == ArgumentOutOfRange
    {
      if arr == null {
        return Err(ArgumentNull);
      }
      var n := count - index;
      r := ArrayOps.IndexOf(arr, x, index, n);
      if r.Ok? {
        assert arr[..index + n] == Contents();
      }
    }

    /** `Contains`. */
    method Contains(x: int) returns (r: bool)
      requires Valid() && Live()
      ensures r <==> x in Contents()
    {
      var i := IndexOf(x);
      r := i >= 0;
    }

    /** `RemoveAt`: rejects an index outside the live elements, otherwise closes the gap and
        clears the freed slot. */
    method RemoveAt(index: int) returns (o: Outcome)
      requires Valid()
      modifies this, arr
      ensures Valid() && arr == old(arr) && pool == old(pool)
      ensures o == if 0 <= index < old(count) then Done else Throws(ArgumentOutOfRange)
      ensures o.Done? ==>
        Contents() == ListSpec.RemoveAt(old(Contents()), index) && version == old(version) + 1 && arr[count] == 0
      ensures o.Throws? ==> Contents() == old(Contents()) && version == old(version)
    {
      if index < 0 || index >= count {
        return Throws(ArgumentOutOfRange);
      }
      count := count - 1;
      version := version + 1;
      if index < count {
        forall k | index <= k < count {
          arr[k] := arr[k + 1];
        }
      }
      arr[count] := 0;
      return Done;
    }

    /** `Remove`: removes the first occurrence, reporting whether there was one. */
    method Remove(x: int) returns (removed: bool)
      requires Valid()
      modifies this, arr
      ensures Valid() && arr == old(arr) && pool == old(pool)
      ensures removed <==> x in old(Contents())
      ensures Contents() == RemoveFirst(old(Contents()), x)
      ensures version == if removed then old(version) + 1 else old(version)
    {
      if count == 0 {
        return false;
      }
      var i := IndexOf(x);
      if i >= 0 {
        var _ := RemoveAt(i);
        return true;
      }
      return false;
    }

    /** `RemoveRange(index, count)`: negative arguments are out of range, a range past the end is
        an invalid argument; an empty range changes nothing. The vacated slots are cleared. */
    method RemoveRange(index: int, n: int) returns (o: Outcome)
      requires Valid()
      modifies this, arr
      ensures Valid() && arr == old(arr) && pool == old(pool)
      ensures o == if index < 0 || n < 0 then Throws(ArgumentOutOfRange)
                   else if old(count) - index < n then Throws(Argument)
                   else Done
      ensures o.Done? ==>
        Contents() == ListSpec.RemoveRange(old(Contents()), index, n) &&
        version == (if n > 0 then old(version) + 1 else old(version)) &&
        (n > 0 ==> arr[count..old(count)] == Zeros(n))
      ensures o.Throws? ==> Contents() == old(Contents()) && version == old(version)
    {
      if index < 0 {
        return Throws(ArgumentOutOfRange);
      }
      if n < 0 {
        return Throws(ArgumentOutOfRange);
      }
      if count - index < n {
        return Throws(Argument);
      }
      if n > 0 {
        count := count - n;
        if index < count {
          forall k | index <= k < count {
            arr[k] := arr[k + n];
          }
        }
        version := version + 1;
        forall k | count <= k < count + n {
          arr[k] := 0;
        }
      }
      return Done;
    }

    /** `RemoveAll(match)` (and `RemoveAll(IEquatable)`, whose `Equals` is the predicate):
        compacts the kept elements to the front in order, clears the rest, and reports how
        many went; a call that removes nothing leaves the version alone. */
    method RemoveAll(pred: int -> bool) returns (removed: int)
      requires Valid()
      modifies this, arr
      ensures Valid() && arr == old(arr) && pool == old(pool)
      ensures Contents() == Filter(old(Contents()), Not(pred))
      ensures removed == CountWhere(old(Contents()), pred)
      ensures version == if removed == 0 then old(version) else old(version) + 1
      ensures Live() ==> arr[count..old(count)] == Zeros(removed)
    {
      if arr == null {
        // a disposed list has no elements, so the first scan ends at once
        return 0;
      }
      var kept := Compact(arr, count, pred);
      if kept == count {
        RemovedCount(old(Contents()), pred);
        return 0;
      }
      forall k | kept <= k < count {
        arr[k] := 0;
      }
      RemovedCount(old(Contents()), pred);
      removed := count - kept;
      count := kept;
      version := version + 1;
    }

    /** `ToArray`: a copy of the live elements (the shared empty array when there are none). */
    method ToArray() returns (r: array<int>)
      requires Valid()
      ensures r[..] == Contents() && (|Contents()| > 0 ==> fresh(r))
    {
      r := new int[count];
      if count > 0 {
        forall k | 0 <= k < count {
          r[k] := arr[k];
        }
      }
    }

    /** `SetCount`: growing exposes whatever the (possibly resized) array holds past the old
        count; shrinking clears the dropped slots; a negative count is rejected by `Array.Clear`. */
    method SetCount(value: Int32, shared: ArrayPool) returns (o: Outcome)
      requires Valid()
      modifies this, arr, shared
      ensures Valid() && Live() == old(Live()) && pool == old(pool) && (value <= old(count) ==> arr == old(arr))
      ensures old(Live()) ==> o == if value < 0 then Throws(IndexOutOfRange) else Done
      ensures !old(Live()) ==>
        o == if value == 0 then Done else if value < 0 then Throws(ArgumentNull) else Throws(NullReference)
      ensures o.Throws? || value == old(count) ==> Contents() == old(Contents()) && version == old(version)
      ensures o.Done? && value != old(count) ==> |Contents()| == value && version == old(version) + 1
      ensures o.Done? && value < old(count) ==>
        Contents() == old(Contents())[..value] && arr[value..old(count)] == Zeros(old(count) - value)
      ensures o.Done? && value > old(count) ==> Contents()[..old(count)] == old(Contents())
      ensures o.Done? && value > old(count) && old(arr.Length) >= value ==> Contents() == old(arr[..value])
    {
      if value == count {
        return Done;
      }
      if arr == null {
        // `EnsureCapacity` reads `array.Length`; `Array.Clear` rejects a null array
        return if value < 0 then Throws(ArgumentNull) else Throws(NullReference);
      }
      if value > count {
        EnsureCapacity(value, shared);
      } else {
        if value < 0 {
          return Throws(IndexOutOfRange);
        }
        forall k | value <= k < count {
          arr[k] := 0;
        }
      }
      count := value;
      version := version + 1;
      return Done;
    }

    /** `Clear`: clears the live slots and empties the list. */
    method Clear()
      requires Valid() && Live()
      modifies this, arr
      ensures Valid() && Live() && arr == old(arr) && pool == old(pool)
      ensures Contents() == [] && version == old(version) + 1
      ensures arr[..old(count)] == Zeros(old(count))
    {
      forall k | 0 <= k < count {
        arr[k] := 0;
      }
      count := 0;
      version := version + 1;
    }

    /** `CopyTo(array, arrayIndex)`: `Array.Copy` of the live elements into `dst` at `arrayIndex`. */
    method CopyTo(dst: array<int>, arrayIndex: int) returns (o: Outcome)
      requires Valid()
      modifies dst
      ensures !Live() ==> o == Throws(ArgumentNull)
      ensures Live() ==> o == if arrayIndex < 0 then Throws(ArgumentOutOfRange)
                   else if arrayIndex + count > dst.Length then Throws(Argument)
                   else Done
      ensures o.Done? ==>
        dst[arrayIndex..arrayIndex + count] == old(Contents()) &&
        dst[..arrayIndex] == old(dst[..arrayIndex]) &&
        dst[arrayIndex + count..] == old(dst[arrayIndex + count..])
      ensures o.Throws? ==> dst[..] == old(dst[..])
    {
      if arr == null {
        return Throws(ArgumentNull);
      }
      o := ArrayOps.Copy(arr, 0, dst, arrayIndex, count);
    }

    /** `CopyTo(PooledList<T>)`: writes this list's elements over the start of `other`'s array
        but leaves `other`'s count as it was, so only the first `other.Count` copies are visible. */
    method CopyToList(other: PooledList, shared: ArrayPool)
      requires Valid() && Live() && other.Valid() && other.Live()
      requires other == this || other.arr != arr
      modifies other, other.arr, shared
      ensures other.Valid() && other.Live() && other.version == old(other.version)
      ensures other.arr.Length >= old(count) && other.arr[..old(count)] == old(Contents())
      ensures other.Contents() ==
        if old(other.count) <= old(count) then old(Contents())[..old(other.count)]
        else old(Contents()) + old(other.Contents())[old(count)..]
    {
      other.EnsureCapacity(count, shared);
      forall k | 0 <= k < count {
        other.arr[k] := arr[k];
      }
    }

    /** `Dispose`: clears the live slots, returns the array to its pool exactly once, forgets
        array and pool, and hands a pool-born list back to the thread's list pool. A second
        call does nothing. */
    method Dispose(local: LocalPool)
      requires Valid() && local.Valid()
      modifies this, arr, pool, local, local.slots
      ensures Valid() && !Live() && local.Valid()
      ensures old(arr) == null ==> version == old(version) && local.Held() == old(local.Held())
      ensures old(arr) != null ==>
        old(pool).returned == old(pool.returned) + [old(arr)] &&
        old(arr)[..old(count)] == Zeros(old(count)) &&
        version == old(version) + 1 &&
        local.Held() == if isPooled && old(local.count) < LocalPoolCapacity
                        then old(local.Held()) + [this] else old(local.Held())
    {
      if arr == null || pool == null {
        return;
      }
      forall k | 0 <= k < count {
        arr[k] := 0;
      }
      pool.Return(arr, false);
      arr := null;
      pool := null;
      count := 0;
      version := version + 1;
      if isPooled {
        local.Return(this);
      }
    }

    /** `GetEnumerator`: an enumerator snapshotting the current count and version. */
    method GetEnumerator() returns (e: Enumerator)
      requires Valid()
      ensures fresh(e) && e.list == this && e.State() == Start(count, version)
    {
      e := new Enumerator(this);
    }
  }

  /** As written, appending `[1, 2, 3]` to an empty list whose array holds zeros leaves the
      list holding `[0, 0, 0]`. */
  method SpanAddRangeDropsItems(list: PooledList, shared: ArrayPool)
    requires list.Valid() && list.Live() && list.count == 0
    requires list.arr.Length >= 3 && list.arr[..3] == [0, 0, 0]
    modifies list, list.arr, shared
    ensures list.Valid() && list.Contents() == [0, 0, 0] != [1, 2, 3]
  {
    list.AddRangeSpan([1, 2, 3], shared);
  }

  /**
   * The two-cursor compaction inside `RemoveAll`: skips the leading kept elements, then moves
   * every later element that does not match down to the first free slot. Returns the number
   * kept; `a[..n]` then starts with exactly the non-matching elements, in order, and nothing
   * was written when every element is kept.
   */
  method Compact(a: array<int>, n: int, pred: int -> bool) returns (kept: int)
    requires 0 <= n <= a.Length
    modifies a
    ensures 0 <= kept <= n
    ensures a[..kept] == Filter(old(a[..n]), Not(pred))
    ensures a[n..] == old(a[n..])
    ensures kept == n ==> a[..] == old(a[..])
  {
    ghost var s := a[..n];
    var freeIndex := 0;
    while freeIndex < n && !pred(a[freeIndex])
      invariant 0 <= freeIndex <= n
      invariant forall k :: 0 <= k < freeIndex ==> !pred(s[k])
    {
      freeIndex := freeIndex + 1;
    }
    if freeIndex >= n {
      FilterAll(s, Not(pred));
      return n;
    }
    KeptAll(s, freeIndex + 1, pred);
    kept := CompactFrom(a, n, pred, freeIndex);
    KeptIsFilter(s, n, pred);
    assert s[..n] == s;
  }

  /** The elements of `s[..c]` that do not match, in order, built from the front. */
  ghost function Kept(s: seq<int>, c: int, pred: int -> bool): (r: seq<int>)
    requires 0 <= c <= |s|
    ensures |r| <= c
  {
    if c == 0 then [] else Kept(s, c - 1, pred) + (if pred(s[c - 1]) then [] else [s[c - 1]])
  }

  /** `Kept` is the filter by the complement of the predicate. */
  lemma {:induction false} KeptIsFilter(s: seq<int>, c: int, pred: int -> bool)
    requires 0 <= c <= |s|
    ensures Kept(s, c, pred) == Filter(s[..c], Not(pred))
  {
    if c > 0 {
      KeptIsFilter(s, c - 1, pred);
      FilterPrefixStep(s, c - 1, Not(pred));
    }
  }

  /** When only `s[c - 1]` matches among the first `c`, `Kept` is the first `c - 1`. */
  lemma {:induction false} KeptAll(s: seq<int>, c: int, pred: int -> bool)
    requires 0 < c <= |s| && pred(s[c - 1]) && forall k :: 0 <= k < c - 1 ==> !pred(s[k])
    ensures Kept(s, c, pred) == s[..c - 1]
  {
    var k := c - 1;
    while k > 0
      invariant 0 <= k <= c - 1
      invariant Kept(s, c, pred) == Kept(s, k, pred) + s[k..c - 1]
    {
      assert s[k - 1..c - 1] == [s[k - 1]] + s[k..c - 1];
      k := k - 1;
    }
  }

  /** The second phase of `Compact`: the first removal is at `freeIndex0`, and the elements kept
      so far fill `a[..freeIndex0]`. The inner "skip the matches" loop of the original is folded
      into this loop: each pass either skips one match or moves one kept element. */
  method CompactFrom(a: array<int>, n: int, pred: int -> bool, freeIndex0: int) returns (kept: int)
    requires 0 <= freeIndex0 < n <= a.Length
    requires a[..freeIndex0] == Kept(a[..n], freeIndex0 + 1, pred)
    modifies a
    ensures freeIndex0 <= kept < n
    ensures a[..kept] == Kept(old(a[..n]), n, pred)
    ensures a[n..] == old(a[n..])
  {
    ghost var s := a[..n];
    ghost var out := a[..freeIndex0];
    var freeIndex := freeIndex0;
    var current := freeIndex + 1;
    while current < n
      invariant freeIndex0 <= freeIndex < current <= n
      invariant out == Kept(s, current, pred) && |out| == freeIndex
      invariant forall k :: 0 <= k < freeIndex ==> a[k] == out[k]
      invariant forall k :: current <= k < n ==> a[k] == s[k]
      invariant forall k :: n <= k < a.Length ==> a[k] == old(a[k])
    {
      if !pred(a[current]) {
        a[freeIndex] := a[current];
        out := out + [s[current]];
        freeIndex := freeIndex + 1;
      }
      current := current + 1;
    }
    assert a[..freeIndex] == out;
    assert a[n..] == old(a[n..]);
    return freeIndex;
  }

  /** `PooledList<T>.Enumerator`: MoveNext follows the versioned-enumerator state machine. */
  class Enumerator {
    const list: PooledList
    const count: int
    const version: int
    var index: int
    var current: int

    function State(): Cursor
      reads this
    {
      Cursor(count, version, index, current)
    }

    constructor (list: PooledList)
      ensures this.list == list && State() == Start(list.count, list.version)
    {
      this.list := list;
      count := list.count;
      version := list.version;
      index := 0;
      current := 0;
    }

    method MoveNext() returns (r: Result<bool>)
      requires list.Valid()
      modifies this
      ensures Step(State(), r) ==
        VersionedEnumerator.MoveNext(old(State()), list.version, list.count, ReadAt(list.Contents(), old(index)))
    {
      if version != list.version {
        index := list.count + 1;
        current := 0;
        return Err(InvalidOperation);
      }
      if index < count {
        var read := list.Get(index);
        index := index + 1;
        if read.Err? {
          return Err(read.error);
        }
        current := read.value;
        return Ok(true);
      }
      return Ok(false);
    }

    method Reset()
      modifies this
      ensures State() == VersionedEnumerator.Reset(old(State()))
    {
      index := 0;
      current := 0;
    }
  }

  /** Slots in a thread's pool of recycled lists. */
  const LocalPoolCapacity := 128

  /** `LocalPool`: a fixed stack of up to 128 disposed lists, one per thread. */
  class LocalPool {
    const slots: array<PooledList?>
    var count: int

    /** The first `count` slots hold lists; the rest are empty. */
    ghost predicate Valid()
      reads this, slots
    {
      slots.Length == LocalPoolCapacity && 0 <= count <= slots.Length &&
      (forall i :: 0 <= i < count ==> slots[i] != null) &&
      (forall i :: count <= i < slots.Length ==> slots[i] == null)
    }

    ghost function Held(): seq<PooledList?>
      reads this, slots
      requires Valid()
    {
      slots[..count]
    }

    constructor ()
      ensures Valid() && Held() == [] && fresh(slots)
    {
      slots := new PooledList?[LocalPoolCapacity](_ => null);
      count := 0;
    }

    /** `TryGet`: pops the most recently returned list and empties its slot. */
    method TryGet() returns (found: bool, list: PooledList?)
      requires Valid()
      modifies this, slots
      ensures Valid() && (found <==> old(count) > 0) && (found <==> list != null)
      ensures found ==> list == old(Held())[old(count) - 1] && Held() == old(Held())[..old(count) - 1]
      ensures !found ==> Held() == old(Held())
    {
      if count > 0 {
        count := count - 1;
        list := slots[count];
        slots[count] := null;
        return true, list;
      }
      return false, null;
    }

    /** `Return`: pushes the list if there is a free slot, otherwise drops it. */
    method Return(list: PooledList)
      requires Valid()
      modifies this, slots
      ensures Valid()
      ensures Held() == if old(count) < LocalPoolCapacity then old(Held()) + [list] else old(Held())
    {
      if count < slots.Length {
        slots[count] := list;
        count := count + 1;
      }
    }
  }

  /** `PooledList<T>.Rent` / `Pool.Rent`: reuses the thread's most recently disposed list when
      there is one, otherwise builds a new pool-born list. */
  method Rent(capacity: Int32, arrayPool: ArrayPool?, local: LocalPool, shared: ArrayPool) returns (list: PooledList)
    requires local.Valid()
    modifies local, local.slots, local.Held()
    ensures local.Valid() && list.Valid() && list.Live() && fresh(list.arr)
    ensures list.Contents() == [] && list.version == 0 && list.arr.Length >= Max(capacity, 1)
    ensures list.pool == if arrayPool == null then shared else arrayPool
    ensures old(local.count) > 0 ==>
      list == old(local.Held())[old(local.count) - 1] && local.Held() == old(local.Held())[..old(local.count) - 1]
    ensures old(local.count) == 0 ==> fresh(list) && list.isPooled && local.Held() == []
  {
    var found, l := local.TryGet();
    if found {
      l.Init(capacity, arrayPool, shared);
      list := l;
    } else {
      list := new PooledList(capacity, arrayPool, shared, true);
    }
  }
}
