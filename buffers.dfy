/**
 * `NonAllocBuffer<T>` and `ReadOnlyNonAllocBuffer<T>` (experimental ref structs). A buffer
 * starts either on caller-provided storage (a span, modelled as a caller-owned array) or on
 * an array rented from a pool. It moves to a rented array when it outgrows its storage. Only
 * rented arrays are ever returned to the pool. The caller's storage is never returned, and
 * growth never writes to it, which the `modifies` clauses below show.
 */
module NonAllocBuffers {
  import opened Wrappers
  import opened GrowthPolicy
  import opened ListSpec
  import opened ArrayPools

  class NonAllocBuffer {
    var count: int
    /** The rented array, if the buffer currently owns one. */
    var arr: array?<int>
    /** The storage: the caller's span, or the rented array. */
    var span: array<int>
    const arrayPool: ArrayPool
    /** The caller's storage this buffer was built on, if any. */
    ghost const callerSpan: array?<int>

    /** The count fits the storage, a rented array is the storage, and is never the caller's. */
    ghost predicate Valid()
      reads this
    {
      0 <= count <= span.Length <= MaxInt32 &&
      (arr != null ==> arr == span && arr != callerSpan)
    }

    ghost function Contents(): seq<int>
      reads this, span
      requires Valid()
    {
      span[..count]
    }

    /** `NonAllocBuffer(span, count, pool)`: wraps caller storage; the count is clamped to its length. */
    constructor FromSpan(span: array<int>, count: int, pool: ArrayPool?, shared: ArrayPool)
      requires 0 <= count && span.Length <= MaxInt32
      ensures Valid() && this.span == span && arr == null && callerSpan == span
      ensures this.count == Min(count, span.Length)
      ensures arrayPool == if pool == null then shared else pool
    {
      arr := null;
      this.span := span;
      arrayPool := if pool == null then shared else pool;
      this.count := Min(count, span.Length);
      callerSpan := span;
    }

    /** `NonAllocBuffer(minCapacity, count, pool)`: rents its storage; the count is clamped to it. */
    constructor WithCapacity(minCapacity: Int32, count: int, pool: ArrayPool?, shared: ArrayPool)
      requires 0 <= minCapacity && 0 <= count
      ensures Valid() && arr == span && fresh(span) && span.Length >= minCapacity
      ensures this.count == Min(count, span.Length)
      ensures arrayPool == if pool == null then shared else pool
    {
      var p := if pool == null then shared else pool;
      var a := p.Rent(minCapacity);
      arrayPool := p;
      arr := a;
      span := a;
      this.count := Min(count, a.Length);
      callerSpan := null;
    }

    /** `SetCount` and the `Count` setter: any count from 0 to the storage length. */
    method SetCount(value: int) returns (o: Outcome)
      requires Valid()
      modifies this
      ensures Valid() && span == old(span) && arr == old(arr)
      ensures o == if 0 <= value <= span.Length then Done else Throws(ArgumentOutOfRange)
      ensures count == if o.Done? then value else old(count)
    {
      if value < 0 || value > span.Length {
        return Throws(ArgumentOutOfRange);
      }
      count := value;
      return Done;
    }

    /** The indexer getter: bounded by the storage, not by the count. */
    method Get(index: int) returns (r: Result<int>)
      requires Valid()
      ensures r.Ok? <==> 0 <= index < span.Length
      ensures r.Ok? ==> r.value == span[index]
      ensures r.Err? ==> r.error == IndexOutOfRange
    {
      if index < 0 || index >= span.Length {
        return Err(IndexOutOfRange);
      }
      return Ok(span[index]);
    }

    /** The indexer setter: writes one slot of the storage, bounded by its length, not by the
        count; the count is unchanged. */
    method Set(index: int, x: int) returns (o: Outcome)
      requires Valid()
      modifies span
      ensures Valid() && count == old(count) && span == old(span) && arr == old(arr)
      ensures o == if 0 <= index < span.Length then Done else Throws(IndexOutOfRange)
      ensures o.Done? ==> span[..] == old(span[..])[index := x]
      ensures o.Throws? ==> span[..] == old(span[..])
    {
      if index < 0 || index >= span.Length {
        return Throws(IndexOutOfRange);
      }
      span[index] := x;
      return Done;
    }

    /** `EnsureCapacity`: when the growth policy says so, moves the live elements to a newly rented
        array. The old storage is cleared and returned only if it was itself rented. */
    method EnsureCapacity(capacity: Int32)
      requires Valid()
      modifies this, arr, arrayPool
      ensures Valid() && Contents() == old(Contents()) && span.Length >= capacity
      ensures var g := TryGetNewCapacity(old(span.Length), capacity);
        if g.grow then
          fresh(span) && arr == span && span.Length >= g.newCapacity &&
          arrayPool.returned == old(arrayPool.returned) + (if old(arr) == null then [] else [old(arr)]) &&
          (old(arr) != null ==> old(arr)[..old(count)] == Zeros(old(count)))
        else
          span == old(span) && arr == old(arr) && span[..] == old(span[..]) &&
          arrayPool.returned == old(arrayPool.returned)
    {
      var g := TryGetNewCapacity(span.Length, capacity);
      if g.grow {
        var oldArray := arr;
        var oldSpan := span;
        var a := arrayPool.Rent(g.newCapacity);
        forall k | 0 <= k < count {
          a[k] := oldSpan[k];
        }
        span := a;
        arr := a;
        if oldArray != null {
          forall k | 0 <= k < count {
            oldArray[k] := 0;
          }
          arrayPool.Return(oldArray, false);
        }
      }
    }

    /** `Add`: ensures room for one more, then appends. */
    method Add(x: int)
      requires Valid() && count < MaxInt32
      modifies this, span, arrayPool
      ensures Valid() && Contents() == old(Contents()) + [x]
      ensures arrayPool.returned == old(arrayPool.returned) ||
              (old(arr) != null && arrayPool.returned == old(arrayPool.returned) + [old(arr)])
    {
      EnsureCapacity(count + 1);
      span[count] := x;
      count := count + 1;
    }

    /** `AddRange`: ensures room for all of `values`, then copies them after the live elements. */
    method AddRange(values: seq<int>)
      requires Valid() && count + |values| <= MaxInt32
      modifies this, span, arrayPool
      ensures Valid() && Contents() == old(Contents()) + values
      ensures arrayPool.returned == old(arrayPool.returned) ||
              (old(arr) != null && arrayPool.returned == old(arrayPool.returned) + [old(arr)])
    {
      EnsureCapacity(count + |values|);
      forall k | 0 <= k < |values| {
        span[count + k] := values[k];
      }
      count := count + |values|;
    }

    /** `Clear`: empties the buffer and clears the whole storage, not just the live part. */
    method Clear()
      requires Valid()
      modifies this, span
      ensures Valid() && span == old(span) && arr == old(arr)
      ensures count == 0 && span[..] == Zeros(span.Length)
    {
      count := 0;
      forall k | 0 <= k < span.Length {
        span[k] := 0;
      }
    }

    /**
     * `Dispose`: `Clear()`, then return the rented array, if any, and forget it. The storage
     * reference is kept, so after the first call it still names the returned array, and a
     * second call clears that array again without returning anything.
     */
    method Dispose()
      requires Valid()
      modifies this, span, arrayPool
      ensures Valid() && arr == null && span == old(span) && count == 0
      ensures span[..] == Zeros(span.Length)
      ensures arrayPool.returned == old(arrayPool.returned) + (if old(arr) == null then [] else [old(arr)])
    {
      Clear();
      if arr != null {
        arrayPool.Return(arr, false);
        arr := null;
      }
    }

    /** `ToArray` (and `GetFilledSpan`, `GetEnumerator`, the `ReadOnlySpan` conversion, which all
        view the same elements): a copy of the live elements. `Span<T>.ToArray` gives the shared
        `Array.Empty<T>()` (here `empty`) for an empty span. */
    method ToArray(empty: array<int>) returns (r: array<int>)
      requires Valid() && empty.Length == 0
      ensures r[..] == Contents()
      ensures count == 0 ==> r == empty
      ensures count > 0 ==> fresh(r)
    {
      if count == 0 {
        return empty;
      }
      r := new int[count];
      forall k | 0 <= k < count {
        r[k] := span[k];
      }
    }

    /** `AsReadOnly`: a read-only view of the live elements that shares the rented array and its
        pool with this buffer, which keeps them too. */
    method AsReadOnly() returns (ro: ReadOnlyNonAllocBuffer)
      requires Valid()
      ensures fresh(ro) && ro.Valid() && ro.span == span && ro.spanLength == count && ro.count == count
      ensures ro.arr == arr && ro.arrayPool == arrayPool
    {
      ro := new ReadOnlyNonAllocBuffer(span, count, arr, arrayPool, arrayPool);
    }
  }

  /** `ReadOnlyNonAllocBuffer<T>`: a read-only span, optionally owning a rented array. */
  class ReadOnlyNonAllocBuffer {
    var arr: array?<int>
    /** The span is `span[..spanLength]`. */
    var span: array<int>
    var spanLength: int
    const arrayPool: ArrayPool?
    /** The readonly `Count` field, fixed at construction. */
    const count: int

    ghost predicate Valid()
      reads this
    {
      0 <= spanLength <= span.Length
    }

    /** `ReadOnlyNonAllocBuffer(span)`: a view that owns nothing. */
    constructor FromSpan(span: array<int>, length: int)
      requires 0 <= length <= span.Length
      ensures Valid() && this.span == span && spanLength == length && count == length
      ensures arr == null && arrayPool == null
    {
      arr := null;
      arrayPool := null;
      this.span := span;
      spanLength := length;
      count := length;
    }

    /** `ReadOnlyNonAllocBuffer(span, array, arrayPool)`: a view that owns `owned` (the `array` argument). */
    constructor (span: array<int>, length: int, owned: array?<int>, pool: ArrayPool?, shared: ArrayPool)
      requires 0 <= length <= span.Length
      ensures Valid() && this.span == span && spanLength == length && count == length && arr == owned
      ensures arrayPool == if pool == null then shared else pool
    {
      arr := owned;
      arrayPool := if pool == null then shared else pool;
      this.span := span;
      spanLength := length;
      count := length;
    }

    /** The indexer: bounded by the span. */
    method Get(index: int) returns (r: Result<int>)
      requires Valid()
      ensures r.Ok? <==> 0 <= index < spanLength
      ensures r.Ok? ==> r.value == span[index]
      ensures r.Err? ==> r.error == IndexOutOfRange
    {
      if index < 0 || index >= spanLength {
        return Err(IndexOutOfRange);
      }
      return Ok(span[index]);
    }

    /** `ToArray`: a copy of the span, or the shared `Array.Empty<T>()` (here `empty`) for an
        empty one. */
    method ToArray(empty: array<int>) returns (r: array<int>)
      requires Valid() && empty.Length == 0
      ensures r[..] == span[..spanLength]
      ensures spanLength == 0 ==> r == empty
      ensures spanLength > 0 ==> fresh(r)
    {
      if spanLength == 0 {
        return empty;
      }
      r := new int[spanLength];
      forall k | 0 <= k < spanLength {
        r[k] := span[k];
      }
    }

    /**
     * `Dispose`: when it owns an array and a pool, clears the span's length of the array,
     * returns it once, and empties the span (`Count` keeps its value). `Array.Clear` rejects
     * a span longer than the array. A second call does nothing.
     */
    method Dispose() returns (o: Outcome)
      requires Valid()
      modifies this, arr, arrayPool
      ensures Valid()
      ensures o == if old(arr) != null && arrayPool != null && old(spanLength) > old(arr.Length)
                   then Throws(IndexOutOfRange) else Done
      ensures (old(arr) == null || arrayPool == null || o.Throws?) ==>
        arr == old(arr) && spanLength == old(spanLength) && (arrayPool != null ==> arrayPool.returned == old(arrayPool.returned))
      ensures old(arr) != null && arrayPool != null && o.Done? ==>
        arr == null && spanLength == 0 &&
        arrayPool.returned == old(arrayPool.returned) + [old(arr)] &&
        old(arr)[..old(spanLength)] == Zeros(old(spanLength))
    {
      if arr != null && arrayPool != null {
        if spanLength > arr.Length {
          return Throws(IndexOutOfRange);
        }
        forall k | 0 <= k < spanLength {
          arr[k] := 0;
        }
        arrayPool.Return(arr, false);
        arr := null;
        spanLength := 0;
      }
      return Done;
    }
  }
}

/**
 * `ValuePooledList<T>` (ref struct): a list that starts on a caller span (or on nothing, as
 * the default struct value) and moves to rented arrays as it grows: to at least 4 slots from
 * empty storage, otherwise to twice the current length or the required size, whichever is
 * larger.
 */
module ValuePooledLists {
  import opened Wrappers
  import opened GrowthPolicy
  import opened ListSpec
  import opened ArrayPools

  /** `Math.Max(required, length == 0 ? 4 : length * 2)`. */
  function GrowTarget(required: int, length: nat): (n: int)
    ensures n >= required && (length == 0 ==> n >= 4) && (length > 0 ==> n >= 2 * length)
    ensures n == required || n == (if length == 0 then 4 else 2 * length)
  {
    Max(required, if length == 0 then 4 else length * 2)
  }

  class ValuePooledList {
    var arrayPool: ArrayPool?
    var span: array<int>
    var arr: array?<int>
    var count: int
    ghost const callerSpan: array?<int>

    ghost predicate Valid()
      reads this
    {
      0 <= count <= span.Length <= MaxInt32 &&
      (arr != null ==> arr == span && arr != callerSpan)
    }

    ghost function Contents(): seq<int>
      reads this, span
      requires Valid()
    {
      span[..count]
    }

    /** The pool `arrayPool ??= ArrayPool<T>.Shared` settles on. */
    ghost function PoolOr(shared: ArrayPool): ArrayPool
      reads this
    {
      if arrayPool == null then shared else arrayPool
    }

    /** `default(ValuePooledList<T>)`: no pool, empty storage. */
    constructor Default()
      ensures Valid() && arrayPool == null && arr == null && span.Length == 0 && count == 0
    {
      arrayPool := null;
      span := new int[0];
      arr := null;
      count := 0;
      callerSpan := null;
    }

    /** `ValuePooledList(initialSpan)`: starts empty on caller storage, with the shared pool. */
    constructor FromSpan(initialSpan: array<int>, shared: ArrayPool)
      requires initialSpan.Length <= MaxInt32
      ensures Valid() && span == initialSpan && arr == null && callerSpan == initialSpan
      ensures Contents() == [] && arrayPool == shared
    {
      arrayPool := shared;
      span := initialSpan;
      arr := null;
      count := 0;
      callerSpan := initialSpan;
    }

    /** `ValuePooledList(capacity, pool)`: starts empty on a rented array. */
    constructor WithCapacity(capacity: Int32, pool: ArrayPool?, shared: ArrayPool)
      requires 0 <= capacity
      ensures Valid() && arr == span && fresh(span) && span.Length >= capacity && Contents() == []
      ensures arrayPool == if pool == null then shared else pool
    {
      var p := if pool == null then shared else pool;
      var a := p.Rent(capacity);
      arrayPool := p;
      arr := a;
      span := a;
      count := 0;
      callerSpan := null;
    }

    /** `Grow(requiredCapacity)`: moves to a rented array of at least `GrowTarget` slots; the old
        storage is cleared and returned only if it was rented. */
    method Grow(required: int, shared: ArrayPool)
      requires Valid() && GrowTarget(required, span.Length) <= MaxInt32
      modifies this, arr, shared, arrayPool
      ensures Valid() && Contents() == old(Contents()) && fresh(span) && arr == span
      ensures span.Length >= GrowTarget(required, old(span.Length))
      ensures arrayPool == old(PoolOr(shared))
      ensures arrayPool.returned == old(PoolOr(shared).returned) + (if old(arr) == null then [] else [old(arr)])
      ensures old(arr) != null ==> old(arr)[..old(count)] == Zeros(old(count))
    {
      var newCapacity := GrowTarget(required, span.Length);
      var oldArray := arr;
      if arrayPool == null {
        arrayPool := shared;
      }
      var a := arrayPool.Rent(newCapacity);
      forall k | 0 <= k < count {
        a[k] := span[k];
      }
      arr := a;
      span := a;
      if oldArray != null {
        forall k | 0 <= k < count {
          oldArray[k] := 0;
        }
        arrayPool.Return(oldArray, false);
      }
    }

    /** `Add(item)`: grows when full, then appends. */
    method Add(x: int, shared: ArrayPool)
      requires Valid() && (count == span.Length ==> GrowTarget(0, span.Length) <= MaxInt32)
      modifies this, span, shared, arrayPool
      ensures Valid() && Contents() == old(Contents()) + [x]
      ensures old(count) < old(span.Length) ==> span == old(span) && arrayPool == old(arrayPool)
    {
      if count == span.Length {
        Grow(0, shared);
      }
      span[count] := x;
      count := count + 1;
    }

    /** `ref T Add()`: grows when full and hands out the next slot, whose value is whatever the
        storage holds there. */
    method AddSlot(shared: ArrayPool) returns (slot: int)
      requires Valid() && (count == span.Length ==> GrowTarget(0, span.Length) <= MaxInt32)
      modifies this, span, shared, arrayPool
      ensures Valid() && slot == old(count) && count == old(count) + 1
      ensures Contents()[..slot] == old(Contents())
    {
      if count == span.Length {
        Grow(0, shared);
      }
      slot := count;
      count := count + 1;
    }

    /** `AddRange`: grows to at least the required size when the items do not fit, then copies. */
    method AddRange(items: seq<int>, shared: ArrayPool)
      requires Valid() && count + |items| <= MaxInt32
      requires count + |items| > span.Length ==> GrowTarget(count + |items|, span.Length) <= MaxInt32
      modifies this, span, shared, arrayPool
      ensures Valid() && Contents() == old(Contents()) + items
      ensures old(count) + |items| <= old(span.Length) ==> span == old(span) && arrayPool == old(arrayPool)
    {
      if count + |items| > span.Length {
        Grow(count + |items|, shared);
      }
      forall k | 0 <= k < |items| {
        span[count + k] := items[k];
      }
      count := count + |items|;
    }

    /** `Clear`: forgets the elements without clearing anything. */
    method Clear()
      requires Valid()
      modifies this
      ensures Valid() && count == 0 && span == old(span) && arr == old(arr)
    {
      count := 0;
    }

    /**
     * `Dispose`: when it owns a rented array, clears the live part, returns the array once and
     * forgets it. The count and the storage reference are kept. A second call does nothing.
     */
    method Dispose(shared: ArrayPool)
      requires Valid()
      modifies this, arr, shared, arrayPool
      ensures Valid() && arr == null && span == old(span) && count == old(count)
      ensures old(arr) != null ==>
        arrayPool == old(PoolOr(shared)) &&
        arrayPool.returned == old(PoolOr(shared).returned) + [old(arr)] &&
        old(arr)[..old(count)] == Zeros(old(count))
      ensures old(arr) == null ==> arrayPool == old(arrayPool) && span[..] == old(span[..])
    {
      if arr != null {
        forall k | 0 <= k < count {
          arr[k] := 0;
        }
        if arrayPool == null {
          arrayPool := shared;
        }
        arrayPool.Return(arr, false);
        arr := null;
      }
    }
  }
}
