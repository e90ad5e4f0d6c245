/**
 * `PooledSpan<T>` and `SpanScope<T>`: readonly ref structs, so immutable values here. Each one
 * either rents an array and exposes `size` slots, or wraps a caller span and owns nothing. A
 * span is an array viewed from index 0 for `spanLength` slots. As written, the rented
 * constructors take `array[..size]`, which on a `T[]` is a range copy (a new array, or the
 * shared empty array for size 0), so the span is not the rented array. The corrected
 * constructors view the rented array itself, as `array.AsSpan(0, size)` would. Because the
 * values cannot change, `Dispose` cannot forget the array: every call clears the first
 * `spanLength` slots of the rented array and returns it to the pool again.
 */
module PooledSpans {
  import opened Wrappers
  import opened GrowthPolicy
  import opened ListSpec
  import opened ArrayPools

  datatype PooledSpan = PooledSpan(span: array<int>, spanLength: int, length: int, arr: array?<int>, pool: ArrayPool?)
  {
    /** The span lies inside its array; an owned array is at least as long as the span. */
    predicate Valid()
    {
      0 <= spanLength <= span.Length && (arr != null ==> spanLength <= arr.Length)
    }

    /** The `ref T this[index]` getter: bounded by the span. */
    method Get(index: int) returns (r: Result<int>)
      requires Valid()
      ensures r.Ok? <==> 0 <= index < spanLength
      ensures r.Ok? ==> r.value == span[index]
      ensures r.Err? ==> r.error == IndexOutOfRange
    {
      if index < 0 || index >= spanLength {
        return Err(IndexOutOfRange);
      }
      return Ok(span[index]);
    }

    /** A write through the `ref T` indexer. */
    method Set(index: int, x: int) returns (o: Outcome)
      requires Valid()
      modifies span
      ensures o == if 0 <= index < spanLength then Done else Throws(IndexOutOfRange)
      ensures span[..] == if o.Done? then old(span[..])[index := x] else old(span[..])
    {
      if index < 0 || index >= spanLength {
        return Throws(IndexOutOfRange);
      }
      span[index] := x;
      return Done;
    }

    /** `Dispose`: when it owns an array and a pool, clears the array's first `Span.Length` slots
        and returns it (with `clearArray: false`). A span that is a copy keeps its data.
        Nothing is forgotten, so each call returns the array again. */
    method Dispose()
      requires Valid()
      modifies arr, pool
      ensures arr != null && pool != null ==>
        pool.returned == old(pool.returned) + [arr] && arr[..spanLength] == Zeros(spanLength) &&
        arr[spanLength..] == old(arr[spanLength..])
      ensures arr == null || pool == null ==> (pool != null ==> pool.returned == old(pool.returned))
      ensures arr != span ==> span[..] == old(span[..])
    {
      if arr != null && pool != null {
        forall k | 0 <= k < spanLength {
          arr[k] := 0;
        }
        pool.Return(arr, false);
      }
    }
  }

  /** `array[..size]` on a `T[]`: a new array holding a copy of the first `size` slots, or the
      shared `Array.Empty<T>()` (here `empty`) when `size` is 0. */
  method RangeCopy(a: array<int>, size: int, empty: array<int>) returns (r: array<int>)
    requires 0 <= size <= a.Length && empty.Length == 0
    ensures r.Length == size && r[..] == a[..size]
    ensures size == 0 ==> r == empty
    ensures size > 0 ==> fresh(r)
  {
    if size == 0 {
      return empty;
    }
    r := new int[size](i requires 0 <= i < size reads a => a[i]);
  }

  /** `new PooledSpan<T>(size, arrayPool)` as written: rents at least `size` slots, but the span
      is a copy of the first `size` of them, not the rented array. */
  method NewPooledSpan(size: Int32, arrayPool: ArrayPool?, shared: ArrayPool, empty: array<int>) returns (p: PooledSpan)
    requires 0 <= size && empty.Length == 0
    ensures p.Valid() && p.arr != null && fresh(p.arr) && p.span != p.arr
    ensures p.spanLength == size && p.length == size
    ensures p.span[..] == p.arr[..size] && (size > 0 ==> fresh(p.span))
    ensures p.pool == if arrayPool == null then shared else arrayPool
  {
    var pool := if arrayPool == null then shared else arrayPool;
    var a := pool.Rent(size);
    var s := RangeCopy(a, size, empty);
    p := PooledSpan(s, size, size, a, pool);
  }

  /** As written, a value stored through the indexer never reaches the rented array, and
      `Dispose` leaves it in the span while clearing the array it returns. */
  method PooledSpanWriteSurvivesDispose(shared: ArrayPool, empty: array<int>) returns (p: PooledSpan)
    requires empty.Length == 0
    modifies shared
    ensures p.Valid() && p.spanLength == 1 && p.arr != null && p.span != p.arr
    ensures p.span[0] == 7 && p.arr[0] == 0
    ensures shared.returned == old(shared.returned) + [p.arr]
  {
    p := NewPooledSpan(1, null, shared, empty);
    var _ := p.Set(0, 7);
    p.Dispose();
  }

  /** The evidently intended constructor: the span is the rented array's first `size` slots. */
  method NewPooledSpanCorrected(size: Int32, arrayPool: ArrayPool?, shared: ArrayPool) returns (p: PooledSpan)
    requires 0 <= size
    ensures p.Valid() && fresh(p.span) && p.arr == p.span
    ensures p.spanLength == size && p.length == size
    ensures p.pool == if arrayPool == null then shared else arrayPool
  {
    var pool := if arrayPool == null then shared else arrayPool;
    var a := pool.Rent(size);
    p := PooledSpan(a, size, size, a, pool);
  }

  /** With the correction, `Dispose` clears what was stored through the indexer. */
  method CorrectedDisposeClearsWrite(shared: ArrayPool) returns (p: PooledSpan)
    modifies shared
    ensures p.Valid() && p.spanLength == 1 && p.arr == p.span
    ensures p.span[0] == 0
    ensures shared.returned == old(shared.returned) + [p.arr]
  {
    p := NewPooledSpanCorrected(1, null, shared);
    var _ := p.Set(0, 7);
    p.Dispose();
  }

  /** The implicit conversion from `Span<T>`: owns nothing, and its `Length` is 0. */
  function PooledSpanFromSpan(span: array<int>): (p: PooledSpan)
    ensures p.Valid() && p.span == span && p.spanLength == span.Length
    ensures p.arr == null && p.pool == null && p.length == 0
  {
    PooledSpan(span, span.Length, 0, null, null)
  }

  /** A converted span reports `Length` 0 whatever its span's length, unlike a rented one. */
  lemma ConvertedLengthDisagrees(span: array<int>)
    requires span.Length > 0
    ensures PooledSpanFromSpan(span).length != PooledSpanFromSpan(span).spanLength
  {
  }

  /** The evidently intended conversion: `Length` is the span's length, as for a rented span. */
  function PooledSpanFromSpanCorrected(span: array<int>): (p: PooledSpan)
    ensures p.Valid() && p.span == span && p.arr == null && p.pool == null
    ensures p.length == p.spanLength == span.Length
  {
    PooledSpan(span, span.Length, span.Length, null, null)
  }

  datatype SpanScope = SpanScope(span: array<int>, spanLength: int, arr: array?<int>, pool: ArrayPool?)
  {
    predicate Valid()
    {
      0 <= spanLength <= span.Length && (arr != null ==> spanLength <= arr.Length)
    }

    /** `Dispose`: as for `PooledSpan`, every call clears the array's first `Span.Length` slots
        and returns it; a span that is a copy keeps its data. */
    method Dispose()
      requires Valid()
      modifies arr, pool
      ensures arr != null && pool != null ==>
        pool.returned == old(pool.returned) + [arr] && arr[..spanLength] == Zeros(spanLength) &&
        arr[spanLength..] == old(arr[spanLength..])
      ensures arr == null || pool == null ==> (pool != null ==> pool.returned == old(pool.returned))
      ensures arr != span ==> span[..] == old(span[..])
    {
      if arr != null && pool != null {
        forall k | 0 <= k < spanLength {
          arr[k] := 0;
        }
        pool.Return(arr, false);
      }
    }
  }

  /** `new SpanScope<T>(size, arrayPool)` as written: the span is a copy of the rented array's
      first `size` slots. */
  method NewSpanScope(size: Int32, arrayPool: ArrayPool?, shared: ArrayPool, empty: array<int>) returns (s: SpanScope)
    requires 0 <= size && empty.Length == 0
    ensures s.Valid() && s.arr != null && fresh(s.arr) && s.span != s.arr && s.spanLength == size
    ensures s.span[..] == s.arr[..size] && (size > 0 ==> fresh(s.span))
    ensures s.pool == if arrayPool == null then shared else arrayPool
  {
    var pool := if arrayPool == null then shared else arrayPool;
    var a := pool.Rent(size);
    var c := RangeCopy(a, size, empty);
    s := SpanScope(c, size, a, pool);
  }

  /** As written, 7 stored through a one-slot scope's span outlives `Dispose`, while the
      rented array goes back to the pool holding 0. */
  method SpanScopeWriteSurvivesDispose(shared: ArrayPool, empty: array<int>) returns (s: SpanScope)
    requires empty.Length == 0
    modifies shared
    ensures s.Valid() && s.spanLength == 1 && s.arr != null && s.span != s.arr
    ensures s.span[0] == 7 && s.arr[0] == 0
    ensures shared.returned == old(shared.returned) + [s.arr]
  {
    s := NewSpanScope(1, null, shared, empty);
    s.span[0] := 7;
    s.Dispose();
  }

  /** The evidently intended `SpanScope` constructor: the span is the rented array itself. */
  method NewSpanScopeCorrected(size: Int32, arrayPool: ArrayPool?, shared: ArrayPool) returns (s: SpanScope)
    requires 0 <= size
    ensures s.Valid() && fresh(s.span) && s.arr == s.span && s.spanLength == size
    ensures s.pool == if arrayPool == null then shared else arrayPool
  {
    var pool := if arrayPool == null then shared else arrayPool;
    var a := pool.Rent(size);
    s := SpanScope(a, size, a, pool);
  }

  /** The implicit conversion from `Span<T>`: owns nothing, so `Dispose` does nothing. */
  function SpanScopeFromSpan(span: array<int>): (s: SpanScope)
    ensures s.Valid() && s.span == span && s.spanLength == span.Length && s.arr == null && s.pool == null
  {
    SpanScope(span, span.Length, null, null)
  }
}

/**
 * `ArrayEnumerator<T>`: a struct enumerator over the first `count` slots of an array. On
 * exhaustion it parks the index at -1, so a further `MoveNext` reads `array[-1]` and throws,
 * after which the enumeration starts over.
 */
module ArrayEnumerators {
  import opened Wrappers

  datatype ArrayCursor = ArrayCursor(index: int, current: int)
  datatype ArrayStep = ArrayStep(next: ArrayCursor, result: Result<bool>)

  function Start(): (c: ArrayCursor)
    ensures c.index == 0 && c.current == 0
  {
    ArrayCursor(0, 0)
  }

  /** `MoveNext` as written: `current = array[index++]` below the count, else park at -1. */
  function Advance(store: seq<int>, count: int, c: ArrayCursor): ArrayStep
  {
    if c.index < count then
      if 0 <= c.index < |store| then ArrayStep(ArrayCursor(c.index + 1, store[c.index]), Ok(true))
      else ArrayStep(c.(index := c.index + 1), Err(IndexOutOfRange))
    else
      ArrayStep(ArrayCursor(-1, 0), Ok(false))
  }

  /** The elements a `foreach` sees, following `Advance` while it returns true. */
  function Enumerate(store: seq<int>, count: int, c: ArrayCursor): seq<int>
    decreases count - c.index
  {
    if c.index < count && 0 <= c.index < |store| then
      [store[c.index]] + Enumerate(store, count, ArrayCursor(c.index + 1, store[c.index]))
    else []
  }

  /** `Enumerate` agrees with `Advance`: each element is what one `MoveNext` returning true yields. */
  lemma EnumerateSteps(store: seq<int>, count: int, c: ArrayCursor)
    requires c.index < count && 0 <= c.index < |store|
    ensures Advance(store, count, c).result == Ok(true)
    ensures Enumerate(store, count, c) == [Advance(store, count, c).next.current] + Enumerate(store, count, Advance(store, count, c).next)
  {
  }

  /** From any in-range cursor, enumeration yields the array's slots up to the count. */
  lemma {:induction false} EnumerateFrom(store: seq<int>, count: int, c: ArrayCursor)
    requires 0 <= c.index <= count <= |store|
    ensures Enumerate(store, count, c) == store[c.index..count]
    decreases count - c.index
  {
    if c.index < count {
      EnumerateFrom(store, count, ArrayCursor(c.index + 1, store[c.index]));
    }
  }

  /** A fresh enumerator yields exactly the first `count` slots. */
  lemma EnumerateAll(store: seq<int>, count: int)
    requires 0 <= count <= |store|
    ensures Enumerate(store, count, Start()) == store[..count]
  {
    EnumerateFrom(store, count, Start());
  }

  /** As written: after the call that returns false, the next call throws, and the one after
      that starts the enumeration over from the first slot. */
  lemma MoveNextAfterEndThrows(store: seq<int>, count: int, c: ArrayCursor)
    requires 0 < count <= |store| && c.index >= count
    ensures Advance(store, count, c).result == Ok(false)
    ensures Advance(store, count, Advance(store, count, c).next).result == Err(IndexOutOfRange)
    ensures Advance(store, count, Advance(store, count, Advance(store, count, c).next).next) ==
      ArrayStep(ArrayCursor(1, store[0]), Ok(true))
  {
  }

  /** The evidently intended `MoveNext`: on exhaustion the index stays at the count. */
  function AdvanceCorrected(store: seq<int>, count: int, c: ArrayCursor): ArrayStep
  {
    if c.index < count then Advance(store, count, c)
    else ArrayStep(ArrayCursor(count, 0), Ok(false))
  }

  /** The cursor after `n` calls of the corrected `MoveNext`. */
  function AdvanceCorrectedN(store: seq<int>, count: int, c: ArrayCursor, n: nat): ArrayCursor
    decreases n
  {
    if n == 0 then c else AdvanceCorrectedN(store, count, AdvanceCorrected(store, count, c).next, n - 1)
  }

  /** With the correction, an exhausted enumerator returns false on every later call. */
  lemma {:induction false} CorrectedStaysExhausted(store: seq<int>, count: int, c: ArrayCursor, n: nat)
    requires c.index >= count
    ensures AdvanceCorrectedN(store, count, c, n).index >= count
    ensures AdvanceCorrected(store, count, AdvanceCorrectedN(store, count, c, n)).result == Ok(false)
    decreases n
  {
    if n > 0 {
      CorrectedStaysExhausted(store, count, AdvanceCorrected(store, count, c).next, n - 1);
    }
  }

  class ArrayEnumerator {
    const arr: array<int>
    const count: int
    var index: int
    var current: int

    function State(): ArrayCursor
      reads this
    {
      ArrayCursor(index, current)
    }

    /** `ArrayEnumerator(array)`: over the whole array. */
    constructor (arr: array<int>)
      ensures this.arr == arr && count == arr.Length && State() == Start()
    {
      this.arr := arr;
      count := arr.Length;
      index := 0;
      current := 0;
    }

    /** `ArrayEnumerator(array, count)`. */
    constructor WithCount(arr: array<int>, count: int)
      ensures this.arr == arr && this.count == count && State() == Start()
    {
      this.arr := arr;
      this.count := count;
      index := 0;
      current := 0;
    }

    method MoveNext() returns (r: Result<bool>)
      modifies this
      ensures ArrayStep(State(), r) == Advance(arr[..], count, old(State()))
    {
      if index < count {
        var i := index;
        index := index + 1;
        if i < 0 || i >= arr.Length {
          return Err(IndexOutOfRange);
        }
        current := arr[i];
        return Ok(true);
      }
      index := -1;
      current := 0;
      return Ok(false);
    }

    method Reset()
      modifies this
      ensures State() == Start()
    {
      index := 0;
      current := 0;
    }

    /** `GetEnumerator` returns `this` by value: an independent copy of the current state. */
    method GetEnumerator() returns (e: ArrayEnumerator)
      ensures fresh(e) && e.arr == arr && e.count == count && e.State() == State()
    {
      e := new ArrayEnumerator.WithCount(arr, count);
      e.index := index;
      e.current := current;
    }
  }
}
