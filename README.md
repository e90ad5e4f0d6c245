# Pooled buffers, sorts and searches from Kryz.Utils, modelled in Dafny

The Kryz C# utility library centres on growable buffers whose storage is rented from an
`ArrayPool<T>` and given back when the buffer is disposed. This project models that subsystem
and the small algorithm libraries around it, and proves what each operation promises.

- **Growth policy** (`GrowthPolicy`). `TryGetNewCapacity` decides whether a buffer must grow
  and to what size, in 32-bit unsigned arithmetic. The module also holds the list helpers
  (`CollectionExtensions`: add-range, filtered add-range, content equality, index-of,
  find-index, to-array) and the array primitives they rely on (`ArrayOps`: `Array.IndexOf`,
  `Array.Copy`, `Array.Clear`).
- **Allocators.**
  - `ArrayPools.ArrayPool` is the abstract `ArrayPool<T>`. `Rent(n)` hands out a fresh array of
    at least `n` slots. A ghost log records every array given back, so "returned exactly
    once" and "caller storage is never returned" can be stated.
  - `ExactSizeArrayPools` is the exact-size pool: fast slots plus capped per-length queues.
    Its `Rent(n)` returns an array of exactly `n` slots.
  - `BasePools` is the generic bounded object pool with `Fill`.
  - `ArrayPoolUtils.Resize` resizes an array through a pool.
- **Lists over rented arrays.** The contents of each list are the prefix `[0, count)` of its
  backing array.
  - `PooledLists`: the runtime `PooledList<T>`, with its version counter, bounds-checked
    indexer, `RemoveAll` compaction, idempotent `Dispose` and per-thread free list of 128
    wrappers.
  - `LegacyPooledLists`: the older versioned list.
  - `NonAllocLists`: the struct list without a version.
  - `NonAllocBuffers`: `NonAllocBuffer<T>` and `ReadOnlyNonAllocBuffer<T>`, which start on
    caller storage and move to rented arrays when they outgrow it.
  - `ValuePooledLists`: `ValuePooledList<T>`, which does the same.
  - `PooledSpans`: `PooledSpan<T>` and `SpanScope<T>`.
- **Enumerators.** `VersionedEnumerator` is the state machine that detects modification
  through a version snapshot. `ArrayEnumerators` covers `ArrayEnumerator<T>`.
- **Sorts.** The modules are `InsertionSorts`, `BinarySorts`, `MergeSorts` (merge sort, and
  the merge/binary hybrids `MergeBinarySort` and `CombinedSort`) and `TimSorts`
  (`TimSortLite`). Each method is proved to leave its window sorted and stably rearranged,
  and to change nothing outside it. `SortSpec` defines these notions and proves that a
  stable rearrangement is a permutation and that the sorted stable result is unique.
- **Searches** (`BinarySearches`). The exact search returns an index or `~insertionPoint`.
  The leftmost searches return a lower bound.
- **Bit flags.** `FlagUtils` is the all-bits test and `BitmaskExtensions` the any-bit test.
  Both are stated on bit-vectors and characterised bit by bit (`Bits`).

Elements are `int`. `default(T)` is 0, so clearing a slot writes 0. A comparer is modelled as
a key projection `key: int -> int`: `Compare(x, y)` has the sign of `key(x) - key(y)`, and
`Comparer<int>.Default` is the identity key. Exceptions the code throws are the `Err` or
`Throws` values of `Result` and `Outcome` (`Wrappers`). `ArrayPool<T>.Shared` is passed in as
a parameter. So is the per-thread free list.

## Model

| member | source | states |
|---|---|---|
| GrowthPolicy.TryGetNewCapacity | Runtime/Extensions/CollectionExtensions.cs:9-19 | growth happens exactly when the desired capacity exceeds the current one; the new capacity is then at least the desired one and above the current one; without growth the capacity is unchanged; the same member also covers Utilities/CollectionExtensions.cs:9-19 (the `TryEnsureCapacity` copy: the same growth contract); Runtime/CollectionExtensions.cs:8-18 (the second `TryEnsureCapacity` copy: the same growth contract) |
| GrowthPolicy.ToUInt32 | Runtime/Extensions/CollectionExtensions.cs:13 | the `(uint)` cast: a non-negative value is kept, a negative one becomes its value plus 2^32 |
| GrowthPolicy.DoublingIsExact | Runtime/Extensions/CollectionExtensions.cs:13-14 | for a non-negative current capacity the unsigned doubling cannot wrap, so the new capacity is exactly max(desired, min(int.MaxValue, 2 * current)) |
| GrowthPolicy.GrowthAtLeastDoubles | Runtime/Extensions/CollectionExtensions.cs:13-14 | growth from a non-negative capacity at least doubles it, up to int.MaxValue |
| GrowthPolicy.GrowthIsIdempotent | Runtime/Extensions/CollectionExtensions.cs:11-18 | asking again for the same capacity after growing never grows a second time |
| CollectionExtensions.EnsureCapacity | Runtime/CollectionExtensions.cs:20-26 | the list's capacity changes only when the request exceeds it, and then to the growth-policy result, which is at least the request; the contents never change |
| CollectionExtensions.AddRange | Runtime/Extensions/CollectionExtensions.cs:21-46 | the three `AddRangeNonAlloc` overloads append every element of the input, in order, after the existing contents; the same member also covers Utilities/CollectionExtensions.cs:27-33 (`AddRange_IEnumerable` appends every input element in order); Utilities/CollectionExtensions.cs:57-64 (`AddRange_IList` appends every input element in order); Utilities/CollectionExtensions.cs:89-96 (`AddRange_IReadOnlyList` appends every input element in order); Utilities/CollectionExtensions.cs:121-128 (`AddRange(ReadOnlySpan)` appends every input element in order) |
| CollectionExtensions.AddRangeWhere | Utilities/CollectionExtensions.cs:41-50 | `AddRangeWhere_IEnumerable` appends exactly the inputs that satisfy the predicate, in input order, and nothing else; the same member also covers Utilities/CollectionExtensions.cs:71-82 (`AddRangeWhere_IList`: the same); Utilities/CollectionExtensions.cs:103-114 (`AddRangeWhere_IReadOnlyList`: the same); Utilities/CollectionExtensions.cs:135-146 (`AddRangeWhere(ReadOnlySpan)`: the same) |
| CollectionExtensions.AddRangeReserved | Runtime/CollectionExtensions.cs:28-37 | after reserving room for the whole input, the list holds its old contents followed by every input element; the capacity covers the new count |
| CollectionExtensions.AddRangeWhereReserved | Runtime/CollectionExtensions.cs:39-52 | after reserving room for the whole input, the list holds its old contents followed by the inputs that satisfy the predicate, in order; the capacity covers old count plus input length |
| CollectionExtensions.ContentEquals | Runtime/Extensions/CollectionExtensions.cs:72-88 | true exactly when the counts are equal and every pair at the same index is comparer-equal; the same member also covers Utilities/CollectionExtensions.cs:178-194 (the same equivalence) |
| CollectionExtensions.IndexOf | Runtime/Extensions/CollectionExtensions.cs:96-106 | the result is the smallest index whose element is comparer-equal to the value, or -1 exactly when there is none; the same member also covers Utilities/CollectionExtensions.cs:202-212 (the same) |
| CollectionExtensions.IndexOfOrDefault | Runtime/CollectionExtensions.cs:54-66 | with a comparer, a hit is the first comparer-equal element and -1 means no element is; without one, the default equality gives the first occurrence of the value |
| CollectionExtensions.Contains | Runtime/Extensions/CollectionExtensions.cs:109-118 | true exactly when some element is comparer-equal to the value; the same member also covers Utilities/CollectionExtensions.cs:215-224 (the same); Runtime/CollectionExtensions.cs:68-71 (the same, with the default equality) |
| CollectionExtensions.FindIndex | Utilities/CollectionExtensions.cs:232-243 | the first index whose element satisfies the predicate, or -1 exactly when none does; the same member also covers Runtime/CollectionExtensions.cs:73-83 (the same) |
| CollectionExtensions.ToArray | Runtime/Extensions/CollectionExtensions.cs:126-132 | an array holding exactly the collection's contents: the shared empty array when there are none, a new array otherwise |
| CollectionExtensions.ToNewArray | Utilities/CollectionExtensions.cs:251-256 | always a new array whose length is the count and whose elements are the contents, even for an empty collection |
| ArrayOps.IndexOf | Collections/NonAllocList.cs:105 | `Array.IndexOf(array, x, start, n)`: succeeds exactly when the window lies inside the array, and then gives the absolute index of the first occurrence in the window or -1 |
| ArrayOps.Copy | Collections/NonAllocList.cs:64 | `Array.Copy`: negative arguments and a window past either end throw, leaving the target unchanged; otherwise the target window holds the source window and the rest of the target is unchanged |
| ArrayOps.Clear | Collections/NonAllocList.cs:135 | `Array.Clear`: a window outside the array throws; otherwise exactly the window is zeroed |
| ArrayOps.GrowByPolicy | Collections/PooledList.cs:136-149 | when the growth policy says so, a fresh array of at least the new capacity holds the first `count` elements; the old array is returned to the same pool once, cleared in its prefix when asked; otherwise nothing changes |
| ArrayPoolUtils.Resize | Runtime/Collections/ArrayPoolUtils.cs:10-17 | the result is a fresh array of at least the new size whose first `oldSize` elements are the old array's; the old array's first `oldSize` slots are cleared and the rest kept; the old array is returned to the given pool exactly once; the same member also covers Runtime/Collections/ArrayPoolUtils.cs:8 (the three-argument overload: the same, with `ArrayPool<T>.Shared` passed as the pool) |
| ExactSizeArrayPools.RentFrom | Runtime/Collections/ExactSizeArrayPool.cs:30-47 | when `Rent` finds nothing pooled, the pool state is unchanged |
| ExactSizeArrayPools.RentKeepsInv | Runtime/Collections/ExactSizeArrayPool.cs:30-46 | `Rent` keeps the pool invariant (arrays filed under their own length, each counter equal to its queue's length, queues within `maxPerSize`); a pooled array it finds has exactly the requested length; the pool then holds one array fewer of that length |
| ExactSizeArrayPools.ReturnKeepsInv | Runtime/Collections/ExactSizeArrayPool.cs:63-81 | `Return` keeps the invariant; the array is held afterwards unless both the fast slot and the queue of its length are full, in which case the counter is rolled back and the array dropped |
| ExactSizeArrayPools.HeldIsBounded | Runtime/Collections/ExactSizeArrayPool.cs:74-81 | the pool never holds more arrays of one length than its fast slot plus `maxPerSize` |
| ExactSizeArrayPools.ReturnThenRentSameArray | Runtime/Collections/ExactSizeArrayPool.cs:30-37 | when the fast slot of that length is empty, whatever its queue holds, or nothing of that length is pooled, returning an array and then renting its length hands back the same array with the fast slots as before; through the empty fast slot the whole pool ends as it began |
| ExactSizeArrayPools.ExactSizeArrayPool.New | Runtime/Collections/ExactSizeArrayPool.cs:17-24 | construction succeeds exactly when both sizes are positive, giving empty fast slots, queues and counters; otherwise ArgumentOutOfRange |
| ExactSizeArrayPools.ExactSizeArrayPool.constructor | Runtime/Collections/ExactSizeArrayPool.cs:17-24 | the successful construction: `fastSlots` empty slots, no queues, no counters |
| ExactSizeArrayPools.ExactSizeArrayPool.Rent | Runtime/Collections/ExactSizeArrayPool.cs:26-50 | a negative length throws ArgumentOutOfRange and changes nothing; otherwise the result has exactly the requested length, is the array `RentFrom` finds or a fresh one, and the state is `RentFrom`'s |
| ExactSizeArrayPools.ExactSizeArrayPool.Return | Runtime/Collections/ExactSizeArrayPool.cs:52-82 | null throws ArgumentNull and changes nothing; otherwise the array is zeroed when asked and the state is `ReturnTo`'s |
| ExactSizeArrayPools.ExactSizeArrayPool.File | Runtime/Collections/ExactSizeArrayPool.cs:63-81 | the filing step of `Return`: the new state is `ReturnTo` of the old one, and the invariant holds |
| BasePools.EffectiveMaxSize | Pools/BasePool.cs:19 | a positive `maxSize` is kept, a non-positive one becomes int.MaxValue |
| BasePools.ReturnThenGet | Pools/BasePool.cs:44-60 | below `maxSize`, `Return(x)` puts `x` on top and the stack beneath is the old one, so the next `Get` yields `x` and restores the stack |
| BasePools.CreatedRunStep | Pools/BasePool.cs:68-71 | one more round of `Fill`'s loop appends the next created object |
| BasePools.BasePool.constructor | Pools/BasePool.cs:34-40 | the normalised `maxSize`; the given pool, else the shared one; an empty stack in an array of at least max(capacity, 16) |
| BasePools.BasePool.SetMaxSize | Pools/BasePool.cs:14-20 | the setter stores the normalised value and changes nothing else |
| BasePools.BasePool.Get | Pools/BasePool.cs:42-47 | a non-empty pool pops its top object; an empty one calls `Create`; `OnGet` sees the object in both cases |
| BasePools.BasePool.Return | Pools/BasePool.cs:49-61 | `OnReturn` always runs; the object is pushed unless the pool already holds `maxSize`; the array grows only when full |
| BasePools.BasePool.Fill | Pools/BasePool.cs:63-72 | `Fill(d)` appends exactly max(0, min(d, maxSize) - count) newly created objects, in creation order, with a `Create` and an `OnReturn` call for each |
| BasePools.BasePool.FillTo | Pools/BasePool.cs:68-71 | the loop of `Fill`: the pool ends with `target` objects (or its old count if larger), the new ones created in order |
| BasePools.BasePool.ReturnCreated | Pools/BasePool.cs:70 | one `Return(Create())`: the next created object is pushed, after one `Create` and one `OnReturn` call |
| BasePools.BasePool.EnsureCapacity | Pools/BasePool.cs:74-84 | when the growth policy says so, the stack moves to a fresh array of at least the new capacity, and the old array's live slots are cleared before it is returned once to the pool's own `ArrayPool`; the pooled objects never change |
| PooledLists.PooledList.constructor | Runtime/Collections/PooledList.cs:67-75 | a live, empty list at version 0 in a fresh array of at least max(capacity, 1) slots, rented from the given pool or else the shared one |
| PooledLists.PooledList.Init | Runtime/Collections/PooledList.cs:77-90 | re-arming a recycled list: live, empty, version 0, a fresh array of at least max(capacity, 1) slots from the given or the shared pool |
| PooledLists.PooledList.Get | Runtime/Collections/PooledList.cs:31-40 | the indexer reads the element at `index` when it is below the count, and throws IndexOutOfRange otherwise, whatever the array's length |
| PooledLists.PooledList.Set | Runtime/Collections/PooledList.cs:42-46 | a write through the indexer replaces exactly one element inside the count, and throws IndexOutOfRange outside it, changing nothing |
| PooledLists.PooledList.EnsureCapacity | Runtime/Collections/PooledList.cs:316-322 | afterwards the array holds at least `capacity`; contents, version and pool are unchanged; a resize goes through `ArrayPool<T>.Shared`, which gets the old array back once with its live part cleared, whatever pool the list was built with |
| PooledLists.PooledList.Add | Runtime/Collections/PooledList.cs:92-100 | the item is appended, earlier elements are unchanged and the version goes up by one; a full array is replaced through the shared pool |
| PooledLists.PooledList.AddRangeCollection | Runtime/Collections/PooledList.cs:109-122 | a collection is appended in order with a single version bump, and none when it is empty; this is also what the span overload evidently intends |
| PooledLists.PooledList.AddRangeSpan | Runtime/Collections/PooledList.cs:132-145 | as written: the count grows by the number of items and the version moves once, but the items go into a range copy of the array, so the old elements are kept and the new ones are whatever the array already held past the old count |
| PooledLists.SpanAddRangeDropsItems | Runtime/Collections/PooledList.cs:141 | appending `[1, 2, 3]` through the span overload to an empty list whose array holds zeros leaves it holding `[0, 0, 0]` |
| PooledLists.PooledList.AddRangeEnumerable | Runtime/Collections/PooledList.cs:123-129 | a plain enumerable is appended in order, one `Add` and one version bump per item |
| PooledLists.PooledList.Insert | Runtime/Collections/PooledList.cs:147-160 | there is no index check: a full array grows first; an index in `[0, count]` inserts the item there and bumps the version; a negative index throws ArgumentOutOfRange and an index past the array throws IndexOutOfRange, both leaving the contents and version as they were; an index between the count and the array's end stores the item in that slot and still adds one element, the stale slot at the old count |
| PooledLists.PooledList.IndexOf | Runtime/Collections/PooledList.cs:353 | the first index of the item among the live elements, or -1 |
| PooledLists.PooledList.IndexOfFrom | Runtime/Collections/PooledList.cs:356 | a start inside `[0, count]` gives the first index of the item from there on, or -1; any other start is ArgumentOutOfRange; on a disposed list `Array.IndexOf` meets a null array and throws ArgumentNull |
| PooledLists.PooledList.Contains | Runtime/Collections/PooledList.cs:359 | true exactly when the item is among the live elements |
| PooledLists.PooledList.RemoveAt | Runtime/Collections/PooledList.cs:178-194 | an index outside `[0, count)` throws ArgumentOutOfRange and changes nothing; otherwise exactly that element is removed, the vacated slot is cleared and the version goes up by one; a disposed list has count 0, so every index throws |
| PooledLists.PooledList.Remove | Runtime/Collections/PooledList.cs:162-176 | reports whether the item occurs and removes only its first occurrence; the version moves only when something was removed; a disposed list reports false |
| PooledLists.PooledList.RemoveRange | Runtime/Collections/PooledList.cs:196-224 | negative arguments are ArgumentOutOfRange and a range past the count is Argument, changing nothing; otherwise exactly the range is removed, the freed tail is cleared and the version moves once when the range is non-empty; on a disposed list only the empty range at 0 succeeds |
| PooledLists.PooledList.RemoveAll | Runtime/Collections/PooledList.cs:226-255 | the survivors are the non-matching elements in order; the result is the number of matches; the freed tail is cleared; the version moves once when something was removed and not at all otherwise; a disposed list removes nothing and returns 0; the same member also covers Runtime/Collections/PooledList.cs:257-286 (the `IEquatable` overload, whose `Equals` is the predicate: the same) |
| PooledLists.Compact | Runtime/Collections/PooledList.cs:230-249 | the two-cursor loop leaves exactly the non-matching elements, in order, at the front; nothing past the count is touched, and nothing at all when every element is kept |
| PooledLists.CompactFrom | Runtime/Collections/PooledList.cs:236-247 | the copying phase, from the first match on: the front ends up holding the non-matching prefix built from the front (`Kept`) |
| PooledLists.KeptIsFilter | Runtime/Collections/PooledList.cs:226-255 | the prefix built by the compaction is the filter of the list by the complement of the predicate |
| PooledLists.KeptAll | Runtime/Collections/PooledList.cs:233-236 | when the first match is the last of the first `c` elements, the kept prefix is everything before it |
| PooledLists.PooledList.ToArray | Runtime/Collections/PooledList.cs:288-294 | an array holding exactly the live elements, freshly allocated when there are any; a disposed list gives an empty array |
| PooledLists.PooledList.SetCount | Runtime/Collections/PooledList.cs:298-314 | a negative count throws and changes nothing; the same count changes nothing; shrinking keeps the prefix and clears the dropped slots; growing keeps the old elements and exposes whatever the array holds past them; every change bumps the version once; on a disposed list 0 changes nothing, a negative count is ArgumentNull (`Array.Clear` of a null array) and a positive one NullReference (`EnsureCapacity` reads `array.Length`) |
| PooledLists.PooledList.Clear | Runtime/Collections/PooledList.cs:324-329 | the live slots are cleared, the list becomes empty and the version goes up by one, even when it was already empty |
| PooledLists.PooledList.CopyTo | Runtime/Collections/PooledList.cs:362 | `Array.Copy` of the live elements into the target at `arrayIndex`, with its argument errors; the rest of the target is unchanged; a disposed list throws ArgumentNull |
| PooledLists.PooledList.CopyToList | Runtime/Collections/PooledList.cs:365-369 | the other list's array starts with this list's elements; its count and version are unchanged, so its contents are this list's elements cut or padded by its own old tail |
| PooledLists.PooledList.Dispose | Runtime/Collections/PooledList.cs:331-350 | a live list clears its live slots, returns its array to its pool exactly once, becomes disposed, bumps its version and, if it came from the pool, is pushed on the thread's free list when there is room; disposing again does nothing |
| PooledLists.PooledList.GetEnumerator | Runtime/Collections/PooledList.cs:371 | a new enumerator over this list that snapshots the current count and version |
| PooledLists.Enumerator.constructor | Runtime/Collections/PooledList.Enumerator.cs:21-28 | the snapshot of count and version, cursor 0, `Current` default |
| PooledLists.Enumerator.MoveNext | Runtime/Collections/PooledList.Enumerator.cs:30-45 | one step of the versioned state machine `VersionedEnumerator.MoveNext`, reading through the list's bounds-checked indexer |
| PooledLists.Enumerator.Reset | Runtime/Collections/PooledList.Enumerator.cs:47-51 | rewinds the cursor and keeps the version snapshot |
| PooledLists.LocalPool.constructor | Runtime/Collections/PooledList.Pool.cs:31-32 | an empty free list of 128 slots |
| PooledLists.LocalPool.TryGet | Runtime/Collections/PooledList.Pool.cs:34-44 | an empty free list reports false; otherwise the most recently returned list is popped and its slot emptied |
| PooledLists.LocalPool.Return | Runtime/Collections/PooledList.Pool.cs:46-52 | the list is pushed when fewer than 128 are held; a full free list silently drops it |
| PooledLists.Rent | Runtime/Collections/PooledList.Pool.cs:13-20 | reuses the most recently disposed list, re-armed exactly as a fresh one, or builds a new pooled list; either way live, empty, version 0 |
| VersionedEnumerator.Start | Runtime/Collections/PooledList.Enumerator.cs:21-28 | the snapshot of the list's count and version, cursor 0, `Current` default |
| VersionedEnumerator.ReadAt | Runtime/Collections/PooledList.cs:36-38 | the bounds-checked read: the element inside the bounds, IndexOutOfRange outside |
| VersionedEnumerator.Reset | Runtime/Collections/PooledList.Enumerator.cs:47-51 | the cursor and `Current` go back to the start; the snapshot is kept |
| VersionedEnumerator.EnumerateFrom | Runtime/Collections/PooledList.Enumerator.cs:39-44 | on an unmodified list, enumeration from any cursor yields the snapshot from that cursor on |
| VersionedEnumerator.EnumerateAll | Runtime/Collections/PooledList.Enumerator.cs:21-44 | a fresh enumerator over an unmodified list yields exactly its first `count` elements, in order |
| VersionedEnumerator.ExhaustedStaysExhausted | Runtime/Collections/PooledList.Enumerator.cs:39-44 | once exhausted, `MoveNext` keeps returning false and the state stays put |
| VersionedEnumerator.StaleAlwaysThrows | Runtime/Collections/PooledList.Enumerator.cs:32-37 | after a version change this call, the next one and one after `Reset` all throw InvalidOperation |
| VersionedEnumerator.InSnapshotNeverThrows | Runtime/Collections/PooledList.Enumerator.cs:39-42 | with the version unchanged and the list's count as snapshotted, the indexer never throws |
| PooledSpans.PooledSpan.Get | Runtime/Collections/PooledSpan.cs:17 | the indexer reads the span inside its length and throws IndexOutOfRange outside |
| PooledSpans.PooledSpan.Set | Runtime/Collections/PooledSpan.cs:17 | a write through the indexer changes exactly one slot of the span, or throws and changes nothing |
| PooledSpans.PooledSpan.Dispose | Runtime/Collections/PooledSpan.cs:41-48 | with an array and a pool, clears the array's first `Span.Length` slots and returns it; otherwise does nothing; a span that is not the array keeps its data; a second call returns the array again |
| PooledSpans.RangeCopy | Runtime/Collections/PooledSpan.cs:29 | `array[..size]` on an array: a copy of the first `size` slots, new when non-empty and the shared empty array otherwise; the same member also covers Runtime/Collections/SpanScope.cs:26 (the same range copy) |
| PooledSpans.NewPooledSpan | Runtime/Collections/PooledSpan.cs:25-31 | as written: owns a newly rented array and its pool, and its span of exactly `size` slots with `Length` `size` is a separate copy of that array's first `size` slots |
| PooledSpans.PooledSpanWriteSurvivesDispose | Runtime/Collections/PooledSpan.cs:29 | as written, 7 stored through the indexer of a one-slot rented span is still in the span after `Dispose`, while the rented array goes back to the pool holding 0 |
| PooledSpans.NewPooledSpanCorrected | Runtime/Collections/PooledSpan.cs:25-31 | the intended constructor: the span is the rented array itself, `size` slots long |
| PooledSpans.CorrectedDisposeClearsWrite | Runtime/Collections/PooledSpan.cs:41-48 | with the intended constructor, a value stored through the indexer is cleared by `Dispose` and the array is returned |
| PooledSpans.PooledSpanFromSpan | Runtime/Collections/PooledSpan.cs:33-39 | the conversion from a span owns no array or pool, and its `Length` is 0 |
| PooledSpans.PooledSpanFromSpanCorrected | Runtime/Collections/PooledSpan.cs:33-39 | the intended conversion: `Length` equals the span's length |
| PooledSpans.ConvertedLengthDisagrees | Runtime/Collections/PooledSpan.cs:38 | for a non-empty span, the converted value's `Length` differs from its span's length |
| PooledSpans.SpanScope.Dispose | Runtime/Collections/SpanScope.cs:36-43 | with an array and a pool, clears the array's first `Span.Length` slots and returns it; otherwise does nothing; a span that is not the array keeps its data |
| PooledSpans.NewSpanScope | Runtime/Collections/SpanScope.cs:22-27 | as written: owns a newly rented array and its pool, and its span of exactly `size` slots is a separate copy of that array's first `size` slots |
| PooledSpans.SpanScopeWriteSurvivesDispose | Runtime/Collections/SpanScope.cs:26 | as written, 7 stored through a one-slot scope's span is still there after `Dispose`, while the rented array goes back to the pool holding 0 |
| PooledSpans.NewSpanScopeCorrected | Runtime/Collections/SpanScope.cs:22-27 | the intended constructor: the span is the rented array itself, `size` slots long |
| PooledSpans.SpanScopeFromSpan | Runtime/Collections/SpanScope.cs:29-34 | the conversion from a span owns nothing and keeps the span, so converting back gives the same span |
| ArrayEnumerators.Start | Runtime/Collections/ArrayEnumerator.cs:19-26 | index 0 and `Current` default |
| ArrayEnumerators.EnumerateSteps | Runtime/Collections/ArrayEnumerator.cs:28-34 | each element enumerated is what one `MoveNext` returning true yields |
| ArrayEnumerators.EnumerateFrom | Runtime/Collections/ArrayEnumerator.cs:28-38 | from any in-range cursor, enumeration yields the array's slots up to the count |
| ArrayEnumerators.EnumerateAll | Runtime/Collections/ArrayEnumerator.cs:17-38 | a fresh enumerator yields exactly the first `count` slots |
| ArrayEnumerators.MoveNextAfterEndThrows | Runtime/Collections/ArrayEnumerator.cs:30-38 | as written: after the call that returns false, the next call reads index -1 and throws, and the one after restarts at the first element |
| ArrayEnumerators.CorrectedStaysExhausted | Runtime/Collections/ArrayEnumerator.cs:28-39 | with the index left at the count, an exhausted enumerator returns false on every later call |
| ArrayEnumerators.ArrayEnumerator.constructor | Runtime/Collections/ArrayEnumerator.cs:17 | the one-argument constructor enumerates the whole array |
| ArrayEnumerators.ArrayEnumerator.WithCount | Runtime/Collections/ArrayEnumerator.cs:19-26 | the given count, index 0, `Current` default |
| ArrayEnumerators.ArrayEnumerator.MoveNext | Runtime/Collections/ArrayEnumerator.cs:28-39 | one step of `Advance` over the array |
| ArrayEnumerators.ArrayEnumerator.Reset | Runtime/Collections/ArrayEnumerator.cs:41-45 | back to index 0 with `Current` default |
| ArrayEnumerators.ArrayEnumerator.GetEnumerator | Runtime/Collections/ArrayEnumerator.cs:49 | an independent copy of the current state |
| LegacyPooledLists.PooledList.constructor | Collections/PooledList.cs:39-45 | a live, empty list at version 0 in a fresh array of at least max(capacity, 16) slots from the given pool or else the shared one |
| LegacyPooledLists.PooledList.Get | Collections/PooledList.cs:31-34 | the indexer is bounded by the array, not the count: it reads any slot of the array and throws IndexOutOfRange only outside it; inside the count it reads the element |
| LegacyPooledLists.PooledList.Set | Collections/PooledList.cs:35-36 | a write inside the array replaces exactly that slot, even past the count; outside it throws and changes nothing |
| LegacyPooledLists.PooledList.EnsureCapacity | Collections/PooledList.cs:136-149 | afterwards the array holds at least `capacity` with the contents and version unchanged; when the growth policy asks to grow, a fresh array replaces the old one, which goes back to the list's own pool once, cleared only for reference element types |
| LegacyPooledLists.PooledList.Add | Collections/PooledList.cs:47-55 | the item is appended, earlier elements are unchanged, the version goes up by one |
| LegacyPooledLists.PooledList.Insert | Collections/PooledList.cs:57-70 | there is no index check: a full array grows first; an index in `[0, count]` inserts the item there and bumps the version; a negative index throws ArgumentOutOfRange and an index past the array throws IndexOutOfRange, both leaving the contents and version as they were; an index between the count and the array's end stores the item in that slot and still adds one element, the stale slot at the old count |
| LegacyPooledLists.PooledList.IndexOf | Collections/PooledList.cs:105 | the first index of the item among the live elements, or -1 |
| LegacyPooledLists.PooledList.IndexOfFrom | Collections/PooledList.cs:108 | a start inside `[0, count]` gives the first index of the item from there on, or -1; any other start is ArgumentOutOfRange |
| LegacyPooledLists.PooledList.Contains | Collections/PooledList.cs:111 | true exactly when the item is among the live elements |
| LegacyPooledLists.PooledList.RemoveAt | Collections/PooledList.cs:83-102 | an index outside `[0, count)` throws and changes nothing; otherwise exactly that element is removed, the version goes up by one and the vacated slot is cleared for reference element types and keeps a stale copy otherwise |
| LegacyPooledLists.PooledList.Remove | Collections/PooledList.cs:72-81 | reports whether the item occurs and removes only its first occurrence; the version moves only when something was removed |
| LegacyPooledLists.PooledList.CopyTo | Collections/PooledList.cs:114 | `Array.Copy` of the live elements into the target at `arrayIndex`, with its argument errors; the target is otherwise unchanged |
| LegacyPooledLists.PooledList.CopyToList | Collections/PooledList.cs:117 | the other list's array starts with this list's elements and keeps the rest; too small an array is an Argument error |
| LegacyPooledLists.PooledList.Clear | Collections/PooledList.cs:119-127 | the list becomes empty and the version goes up by one; the slots are cleared only for reference element types |
| LegacyPooledLists.PooledList.Dispose | Collections/PooledList.cs:129-134 | the first call clears, returns the array to the pool once and forgets it; a second call throws ArgumentNull and returns nothing more, having bumped the version only for value element types |
| LegacyPooledLists.PooledList.GetEnumerator | Collections/PooledList.cs:151 | a new enumerator over this list that snapshots its count and version |
| LegacyPooledLists.Enumerator.constructor | Collections/PooledList.cs:168-175 | the snapshot of count and version, cursor 0, `Current` default |
| LegacyPooledLists.Enumerator.MoveNext | Collections/PooledList.cs:177-192 | one step of the versioned state machine, reading through the array-bounded indexer, or NullReference once the list is disposed |
| LegacyPooledLists.Enumerator.Reset | Collections/PooledList.cs:194-198 | rewinds the cursor and keeps the version snapshot |
| NonAllocLists.NonAllocList.constructor | Collections/NonAllocList.cs:38-43 | a live, empty list in a fresh array of at least max(capacity, 16) slots from the given pool or else the shared one |
| NonAllocLists.NonAllocList.Get | Collections/NonAllocList.cs:30-33 | the indexer is bounded by the array, not the count |
| NonAllocLists.NonAllocList.Set | Collections/NonAllocList.cs:34-35 | a write inside the array replaces exactly that slot; outside it throws and changes nothing |
| NonAllocLists.NonAllocList.EnsureCapacity | Collections/NonAllocList.cs:146-156 | afterwards the array holds at least `capacity` with the contents unchanged; a replaced array is always cleared and goes back to the pool once |
| NonAllocLists.NonAllocList.Add | Collections/NonAllocList.cs:46-53 | the item is appended and earlier elements are unchanged |
| NonAllocLists.NonAllocList.Insert | Collections/NonAllocList.cs:56-68 | there is no index check: a full array grows first; an index in `[0, count]` inserts the item there; a negative index throws ArgumentOutOfRange and an index past the array throws IndexOutOfRange, both leaving the contents as they were; an index between the count and the array's end stores the item in that slot and still adds one element, the stale slot at the old count |
| NonAllocLists.NonAllocList.IndexOf | Collections/NonAllocList.cs:103-106 | the first index of the item among the live elements, or -1 |
| NonAllocLists.NonAllocList.IndexOfFrom | Collections/NonAllocList.cs:109-112 | a start inside `[0, count]` gives the first index of the item from there on, or -1; any other start is ArgumentOutOfRange |
| NonAllocLists.NonAllocList.Contains | Collections/NonAllocList.cs:115-118 | true exactly when the item is among the live elements |
| NonAllocLists.NonAllocList.RemoveAt | Collections/NonAllocList.cs:83-100 | an index outside `[0, count)` throws and changes nothing; otherwise exactly that element is removed and the vacated slot is cleared only for reference element types |
| NonAllocLists.NonAllocList.Remove | Collections/NonAllocList.cs:71-80 | reports whether the item occurs and removes only its first occurrence |
| NonAllocLists.NonAllocList.CopyTo | Collections/NonAllocList.cs:121-124 | `Array.Copy` of the live elements into the target at `arrayIndex`, with its argument errors |
| NonAllocLists.NonAllocList.CopyToList | Collections/NonAllocList.cs:127-130 | the other list's array starts with this list's elements and keeps the rest |
| NonAllocLists.NonAllocList.Clear | Collections/NonAllocList.cs:133-137 | the list becomes empty and its live slots are cleared |
| NonAllocLists.NonAllocList.Dispose | Collections/NonAllocList.cs:139-144 | the first call clears, returns the array once and forgets it; a second call throws ArgumentNull and returns nothing |
| NonAllocLists.NonAllocList.GetEnumerator | Collections/NonAllocList.cs:158 | as written: an enumerator over the array with the list's count, so an empty list snapshots the whole array |
| NonAllocLists.NonAllocList.GetEnumeratorCorrected | Collections/NonAllocList.cs:158 | the intended enumerator: enumerating it yields exactly the live elements |
| NonAllocLists.SnapshotCount | Collections/NonAllocList.cs:177 | a positive count is kept; zero or less means the array's length |
| NonAllocLists.EmptyListEnumeratesBackingArray | Collections/NonAllocList.cs:158 | enumerating an empty list with a non-empty array yields every slot of the array instead of nothing |
| NonAllocLists.Enumerator.constructor | Collections/NonAllocList.cs:174-180 | the count is the given one when positive and the array's length otherwise; cursor 0 |
| NonAllocLists.Enumerator.Exact | Collections/NonAllocList.cs:174-180 | with a positive count, exactly the first `count` slots at cursor 0 |
| NonAllocLists.Enumerator.MoveNext | Collections/NonAllocList.cs:182-190 | one step of the state machine with no version check: the next slot while the cursor is below the count, else false |
| NonAllocLists.Enumerator.Reset | Collections/NonAllocList.cs:192-196 | back to cursor 0 with `Current` default |
| NonAllocBuffers.NonAllocBuffer.FromSpan | Experimental/NonAllocBuffer.cs:48-54 | wraps caller storage without owning an array; the count is the given one clamped to the storage length; the pool is the given or the shared one |
| NonAllocBuffers.NonAllocBuffer.WithCapacity | Experimental/NonAllocBuffer.cs:57-62 | rents storage of at least `minCapacity` slots and owns it; the count is clamped to its length |
| NonAllocBuffers.NonAllocBuffer.SetCount | Experimental/NonAllocBuffer.cs:20-31 | the `Count` setter: a value in `[0, storage length]` becomes the count, anything else throws ArgumentOutOfRange and changes nothing; the same member also covers Experimental/NonAllocBuffer.cs:65-70 (`SetCount`: the same) |
| NonAllocBuffers.NonAllocBuffer.Get | Experimental/NonAllocBuffer.cs:39-42 | the indexer reads any slot of the storage, past the count too, and throws IndexOutOfRange outside it |
| NonAllocBuffers.NonAllocBuffer.Set | Experimental/NonAllocBuffer.cs:44 | the indexer setter writes exactly one slot of the storage, past the count too, leaving the count and every other slot as they were; outside the storage it throws IndexOutOfRange and changes nothing |
| NonAllocBuffers.NonAllocBuffer.EnsureCapacity | Experimental/NonAllocBuffer.cs:95-110 | afterwards the storage holds at least `capacity` with the live elements unchanged; on growth the elements move to a fresh rented array, and only an owned old array is cleared and returned, never the caller's storage |
| NonAllocBuffers.NonAllocBuffer.Add | Experimental/NonAllocBuffer.cs:73-77 | the item is appended to the live elements; at most the owned array goes back to the pool |
| NonAllocBuffers.NonAllocBuffer.AddRange | Experimental/NonAllocBuffer.cs:80-85 | the values are appended in order; at most the owned array goes back to the pool |
| NonAllocBuffers.NonAllocBuffer.Clear | Experimental/NonAllocBuffer.cs:88-92 | the count becomes 0 and the whole storage, not only its live part, is cleared |
| NonAllocBuffers.NonAllocBuffer.Dispose | Experimental/NonAllocBuffer.cs:113-122 | clears the storage, returns an owned array exactly once and forgets it; the storage reference is kept, so a second call clears again and returns nothing |
| NonAllocBuffers.NonAllocBuffer.ToArray | Experimental/NonAllocBuffer.cs:125-130 | an array holding exactly the live elements (also what the enumerator and `GetFilledSpan` expose): the shared empty array for an empty buffer, a new array otherwise |
| NonAllocBuffers.NonAllocBuffer.AsReadOnly | Experimental/NonAllocBuffer.cs:132 | a read-only view of exactly the live elements that shares the owned array and pool; the buffer keeps them too, so both may return the array |
| NonAllocBuffers.ReadOnlyNonAllocBuffer.FromSpan | Collections/Experimental/ReadOnlyNonAllocBuffer.cs:28-34 | a view that owns nothing, with `Count` the span's length |
| NonAllocBuffers.ReadOnlyNonAllocBuffer.constructor | Collections/Experimental/ReadOnlyNonAllocBuffer.cs:37-43 | a view owning the given array, with the given pool or the shared one, `Count` the span's length |
| NonAllocBuffers.ReadOnlyNonAllocBuffer.Get | Collections/Experimental/ReadOnlyNonAllocBuffer.cs:21-25 | the indexer reads inside the span and throws IndexOutOfRange outside |
| NonAllocBuffers.ReadOnlyNonAllocBuffer.ToArray | Collections/Experimental/ReadOnlyNonAllocBuffer.cs:61 | an array holding exactly the span's elements: the shared empty array for an empty span, a new array otherwise |
| NonAllocBuffers.ReadOnlyNonAllocBuffer.Dispose | Collections/Experimental/ReadOnlyNonAllocBuffer.cs:46-55 | owning an array and a pool, it clears the span's length of the array (throwing when that exceeds the array), returns it once and empties the span; otherwise, and on a second call, nothing changes |
| ValuePooledLists.GrowTarget | Runtime/Collections/ValuePooledList.cs:67 | the new capacity is at least the required one and at least 4 from empty storage or twice the length otherwise, and is one of the two |
| ValuePooledLists.ValuePooledList.Default | Runtime/Collections/ValuePooledList.cs:6-15 | the default struct value: no pool, no storage, empty |
| ValuePooledLists.ValuePooledList.FromSpan | Runtime/Collections/ValuePooledList.cs:19-25 | empty on the caller's storage, owning nothing, with the shared pool |
| ValuePooledLists.ValuePooledList.WithCapacity | Runtime/Collections/ValuePooledList.cs:27-33 | empty on a rented array of at least `capacity` slots from the given or the shared pool |
| ValuePooledLists.ValuePooledList.Grow | Runtime/Collections/ValuePooledList.cs:65-81 | moves the live elements to a fresh rented array of at least `GrowTarget` slots, settling a missing pool on the shared one; an owned old array is cleared and returned once |
| ValuePooledLists.ValuePooledList.Add | Runtime/Collections/ValuePooledList.cs:35-41 | the item is appended; the storage moves only when it was full |
| ValuePooledLists.ValuePooledList.AddSlot | Runtime/Collections/ValuePooledList.cs:43-49 | `ref T Add()`: the count grows by one, the earlier elements are kept, and the handed-out slot is the old count |
| ValuePooledLists.ValuePooledList.AddRange | Runtime/Collections/ValuePooledList.cs:51-58 | the items are appended in order; the storage moves only when they do not fit |
| ValuePooledLists.ValuePooledList.Clear | Runtime/Collections/ValuePooledList.cs:60-63 | the count becomes 0 and nothing else changes |
| ValuePooledLists.ValuePooledList.Dispose | Runtime/Collections/ValuePooledList.cs:83-92 | an owned array has its live part cleared and goes back once to the pool (settled on the shared one if missing); the count and storage reference are kept; without an owned array nothing changes |
| InsertionSorts.ShiftGreater | Runtime/Sort/InsertionSort.cs:21-25 | the shifting loop (stopping at the window's start) ends where `ShiftStop` says, with the greater elements moved up one slot and everything else unchanged |
| InsertionSorts.InsertStep | Runtime/Sort/InsertionSort.cs:19-27 | one outer iteration leaves the array as `InsertionPass`: the element moved down past the greater ones |
| InsertionSorts.InsertionSortAsWritten | Runtime/Sort/InsertionSort.cs:15-29 | as written, with the loop running down to slot 0: the array becomes the insertion passes for `index + 1 .. index + length - 1` with no lower bound; the same member also covers Runtime/Sort/InsertionSort.cs:35-49 (the `IList` overload is the same loop, with the same unbounded inner loop) |
| InsertionSorts.InsertionSortEscapesWindow | Runtime/Sort/InsertionSort.cs:22 | on `[5, 3, 1]` with index 1 and length 2 the code as written yields `[1, 5, 3]`, moving an element out of the window and leaving the window unsorted, while the bounded loop yields `[5, 1, 3]` |
| InsertionSorts.InsertionSort | Runtime/Sort/InsertionSort.cs:15-29 | with the loop bounded by `index`: the window ends sorted, is a stable rearrangement of what it held, and nothing outside it changes; the same member also covers Runtime/Sort/InsertionSort.cs:5-8 (the class's promise of a stable sort) |
| BinarySorts.UpperBound | Runtime/Sort/BinarySort.cs:15-32 | over the sorted prefix, the search stops at the first element whose key is greater than the pivot's: everything before it is no greater, everything from it on is greater, so equal keys keep their order |
| BinarySorts.ShiftRight | Runtime/Sort/BinarySort.cs:34-38 | the slots from the insertion point to `i - 1` move up one and nothing else changes |
| BinarySorts.BinaryInsert | Runtime/Sort/BinarySort.cs:13-41 | one iteration of the outer loop is the same pass as insertion sort's: `InsertionPass` bounded by `start` |
| BinarySorts.BinarySort | Runtime/Sort/BinarySort.cs:11-42 | given a sorted first `sorted` elements, the window `[start, start + count)` ends sorted, a stable rearrangement, and nothing outside changes |
| MergeSorts.MergeRuns | Runtime/Sort/MergeSort.cs:83-111 | `[left, right]` becomes the merge of the runs `[left, middle]` and `[middle + 1, right]`, nothing outside changes, and exactly one fresh array goes back to the shared pool with its first `middle - left + 1` slots cleared |
| MergeSorts.MergeLoops | Runtime/Sort/MergeSort.cs:93-107 | the two loops write `Merge(left run, right run)` over the window, reading the left run from its copy |
| MergeSorts.MergeBoth | Runtime/Sort/MergeSort.cs:98-101 | the first loop ends with one run used up and the output so far a prefix of the merge |
| MergeSorts.MergeOne | Runtime/Sort/MergeSort.cs:100 | one step takes the left head when its key is not greater, the right head otherwise, and extends the merged prefix by one |
| MergeSorts.CopyRest | Runtime/Sort/MergeSort.cs:104-107 | the second loop completes the merge: the right run's remainder is already in place |
| MergeSorts.CopyOne | Runtime/Sort/MergeSort.cs:106 | one step copies the next left element and keeps the merge invariant |
| MergeSorts.MergeTakesLeft | Runtime/Sort/MergeSort.cs:100 | writing the left head when it is not greater is writing the merge's first element |
| MergeSorts.MergeTakesRight | Runtime/Sort/MergeSort.cs:100 | writing the right head when the left one is greater is writing the merge's first element |
| MergeSorts.MergeSpan | Runtime/Sort/MergeSort.cs:34-61 | the span overload: `[0, middle)` and `[middle, length)` of the span are merged in place and nothing outside it changes |
| MergeSorts.SortHalvesThenMerge | Runtime/Sort/MergeSort.cs:27-30 | sorting each half stably and then merging them sorts the whole window stably |
| MergeSorts.MergeSortSpan | Runtime/Sort/MergeSort.cs:21-32 | the span is sorted, a stable rearrangement of what it held, and nothing outside it changes |
| MergeSorts.MergeSortRecursive | Runtime/Sort/MergeSort.cs:72-81 | `[left, right]` is sorted stably with nothing outside changed; an empty or one-element range is left alone; the same member also covers Runtime/Sort/MergeSort.cs:67-70 (the indexed overload sorts `[index, index + length)` through it) |
| MergeSorts.HybridSortRecursive | Runtime/Sort/MergeBinarySort.cs:18-33 | below 64 elements binary insertion sort, else halves, recursion and merge: `[left, right]` ends sorted stably with nothing outside changed; the same member also covers Runtime/Sort/CombinedSort.cs:15-30 (`CombinedSort` is the same code with the same threshold) |
| TimSorts.ComputeMinRun | Runtime/Sort/TimSortLite.cs:71-81 | below 64 the result is `n`; otherwise `n` is divided by the power of two `p` that brings it into `[32, 64)` and rounded up, so the result lies in `[32, 64]`; a positive `n` gives a run in `(0, n]` |
| TimSorts.HalveStep | Runtime/Sort/TimSortLite.cs:77-78 | one round of the loop halves `n / p` and keeps the flag recording whether the division so far left a remainder |
| TimSorts.SortRuns | Runtime/Sort/TimSortLite.cs:25-30 | the first loop leaves every run of `minRun` elements from the start (the last shorter) sorted, the window a stable rearrangement and the rest unchanged |
| TimSorts.SortRun | Runtime/Sort/TimSortLite.cs:28-29 | one round sorts the run at `left` and extends the sorted runs by it |
| TimSorts.RunSorted | Runtime/Sort/TimSortLite.cs:26-30 | sorting one more run in place keeps the earlier runs and the stable rearrangement of the window |
| TimSorts.MergePass | Runtime/Sort/TimSortLite.cs:35-39 | one inner loop turns runs of `size` into runs of `2 * size` and keeps the window a stable rearrangement |
| TimSorts.MergePair | Runtime/Sort/TimSortLite.cs:37-38 | one round merges runs `2k` and `2k + 1` and extends the merged prefix |
| TimSorts.PairStep | Runtime/Sort/TimSortLite.cs:37-38 | the merge of the next pair keeps the window's stable rearrangement and extends the merged prefix |
| TimSorts.PairMerged | Runtime/Sort/TimSortLite.cs:38 | merging two adjacent runs of `size` sorts their window |
| TimSorts.PassFinished | Runtime/Sort/TimSortLite.cs:35 | when no second run is left, a leftover shorter run is already a run of `2 * size` |
| TimSorts.TimSortLite | Runtime/Sort/TimSortLite.cs:20-41 | the span ends sorted, a stable rearrangement of what it held, and nothing outside it changes; the same member also covers Runtime/Sort/TimSortLite.cs:47-69 (the `IList` overload sorts the same runs and merges the same pairs of `[index, index + length)`, so it ends sorted and stably rearranged with nothing outside changed) |
| SortSpec.KeyClassAppend | Runtime/Sort/MergeSort.cs:7-10 | the elements of a key, in order, split over a concatenation |
| SortSpec.StableIsPermutation | Runtime/Sort/MergeSort.cs:7-10 | a stable rearrangement is a permutation: the sorts neither lose nor duplicate elements |
| SortSpec.SortedStableUnique | Runtime/Sort/TimSortLite.cs:6-9 | the sorted stable rearrangement is unique, so every stable sort here gives the same result on the same input |
| SortSpec.MergeMembers | Runtime/Sort/MergeSort.cs:97-107 | a merge holds exactly the elements of its two runs |
| SortSpec.MergeSorted | Runtime/Sort/MergeSort.cs:97-107 | merging two sorted runs gives a sorted run |
| SortSpec.MergeKeyClass | Runtime/Sort/MergeSort.cs:100 | taking the left head on ties puts every key's left elements before its right ones |
| SortSpec.MergeIsStableSort | Runtime/Sort/MergeSort.cs:83-111 | merging two sorted runs is a stable sort of their concatenation |
| SortSpec.MergeSortedHalves | Runtime/Sort/MergeSort.cs:72-81 | two halves sorted stably and then merged sort the whole stably |
| SortSpec.RearrangesWithin | Runtime/Sort/TimSortLite.cs:26-40 | rearranging a piece of the window stably keeps the whole window a stable rearrangement |
| SortSpec.ShiftStop | Runtime/Sort/InsertionSort.cs:22 | the loop stops above `lo` at the first element from the top whose key is not greater than the pivot's; everything it passed is greater |
| SortSpec.InsertionPassSorts | Runtime/Sort/InsertionSort.cs:17-28 | with `[lo, i)` sorted, a pass leaves `[lo, i]` sorted and stably rearranged and touches nothing outside it |
| SortSpec.PassExtendsSort | Runtime/Sort/BinarySort.cs:13-41 | a pass over an array that sorts `[lo, i)` of the input sorts `[lo, i]` of it: the invariant of both insertion sorts |
| SortSpec.UpperBoundIsShiftStop | Runtime/Sort/BinarySort.cs:19-32 | on a sorted prefix the binary search finds the same place as the linear shifting loop, so binary and plain insertion sort do the same passes |
| SortSpec.MergedBetween | Runtime/Sort/TimSortLite.cs:38 | merging two sorted adjacent ranges sorts their union stably |
| SortSpec.RunsAppend | Runtime/Sort/TimSortLite.cs:26-30 | a sorted run after `n` full runs extends the runs |
| SortSpec.RunsOfOne | Runtime/Sort/TimSortLite.cs:33 | every range is sorted in runs of one, the starting point when `minRun` is 1 |
| ListSpec.FilterMembers | Runtime/Collections/PooledList.cs:226-255 | the survivors of `RemoveAll` are exactly the elements that do not match |
| ListSpec.FilterSplitsMultiset | Runtime/Collections/PooledList.cs:226-255 | the removed and the kept elements together are the old contents |
| ListSpec.RemovedCount | Runtime/Collections/PooledList.cs:251 | the count `RemoveAll` returns is the number of matching elements |
| ListSpec.RemoveAtInsertAt | Runtime/Collections/PooledList.cs:147-194 | removing at the index just inserted at restores the list |
| ListSpec.RemoveRangeOne | Runtime/Collections/PooledList.cs:178-224 | `RemoveRange(i, 1)` is `RemoveAt(i)` |
| ListSpec.AppendIsInsertAtEnd | Runtime/Collections/PooledList.cs:92-160 | `Add` is `Insert` at the count |
| ListSpec.FirstIndex | Runtime/Collections/PooledList.cs:353 | `IndexOf` is the first position holding the item, -1 exactly when it is absent |
| ListSpec.IndexFrom | Runtime/Collections/PooledList.cs:356 | the first position at or after the start holding the item, -1 exactly when none does |
| ListSpec.RemoveFirstMultiset | Runtime/Collections/PooledList.cs:162-176 | `Remove` takes out exactly one copy of a present item and leaves the list alone otherwise |
| BinarySearches.Complement | Runtime/Search/BinarySearch.cs:24 | `~min` is negative exactly when `min` is not, and `~(~min)` gives `min` back |
| BinarySearches.Search | Runtime/Search/BinarySearch.cs:7-25 | a non-negative result is an index inside `[index, index + count)` whose element compares equal to the value; a negative one complements an insertion point inside the range; on a sorted range everything before the insertion point is less and everything from it on greater, and the result is negative exactly when no element compares equal; the same member also covers Runtime/Extensions/BinarySearchExtensions.cs:26-44 (the `BinarySearch` extension is the same loop) |
| BinarySearches.BinarySearch | Runtime/Extensions/BinarySearchExtensions.cs:21-24 | over the whole list: a hit compares equal, a miss complements an insertion point, and on a sorted list a miss means no element compares equal; the same member also covers Runtime/Extensions/BinarySearchExtensions.cs:9-12 (the default-comparer overload, with the identity key) |
| BinarySearches.Leftmost | Runtime/BinarySearch.cs:12-28 | as written, the search runs over `[index, count)`: an empty one returns `index`; otherwise the result lies in it and, when it is sorted, is the first position whose element is not less than the value; the same member also covers Utilities/BinarySearch.cs:26-41 (the generic-list copy of the same loop) |
| BinarySearches.LeftmostOfPrefix | Runtime/BinarySearch.cs:10 | the lower bound within the first `count` elements; 0 when `count` is not positive; the same member also covers Runtime/BinarySearch.cs:8 (with `count` the list's length, the lower bound over the whole list); Utilities/BinarySearch.cs:9-12 (the same over the whole list) |
| BinarySearches.LeftmostWhere | Runtime/BinarySearch.cs:32-47 | over `[index, count)` with a predicate that is negative and then not: the first position where it is no longer negative; the same member also covers Runtime/BinarySearch.cs:30 (the whole-list overload) |
| BinarySearches.LeftmostSkipsRange | Runtime/BinarySearch.cs:15-16 | on `[0, 1, 2, 3]` searching 3 with index 2 and count 2, the code as written searches nothing and returns 2, while the range `[2, 4)` holds 3 at position 3; the same member also covers Utilities/BinarySearch.cs:28-29 (the same in the generic-list copy) |
| BinarySearches.LeftmostCorrected | Runtime/BinarySearch.cs:12-28 | with the range read as `[index, index + count)`, as in `Search`, the result is the lower bound of the value in that range |
| Bits.AndBit | Runtime/FlagUtils.cs:20-23 | a bit of `mask & flag` is set exactly when it is set in both |
| Bits.BitsDetermine | Runtime/FlagUtils.cs:20-23 | two masks with the same bits are equal, which turns bitwise reasoning into the `==` the test uses |
| FlagUtils.HasFlag | Runtime/FlagUtils.cs:20-28 | the `int` and `uint` overloads: the test holds exactly when no bit of the flag lies outside the mask, and then the flag is at most the mask as an unsigned number |
| FlagUtils.HasFlagLong | Runtime/FlagUtils.cs:30-38 | the `long` and `ulong` overloads: the same two facts on 64 bits |
| FlagUtils.HasFlagByte | Runtime/FlagUtils.cs:5-8 | the `byte` overload: the same two facts on 8 bits |
| FlagUtils.HasFlagShort | Runtime/FlagUtils.cs:10-18 | the `short` and `ushort` overloads: the same two facts on 16 bits (sign extension to `int` keeps the test unchanged) |
| FlagUtils.HasFlagBitwise | Runtime/FlagUtils.cs:20-28 | `HasFlag` holds exactly when every bit of the flag is set in the mask |
| FlagUtils.HasEmptyAndSelf | Runtime/FlagUtils.cs:20-28 | every mask has the empty flag and itself |
| FlagUtils.HasFlagTransitive | Runtime/FlagUtils.cs:20-28 | a mask having a flag has every flag whose bits lie within it |
| BitmaskExtensions.HasFlag | Runtime/Extensions/BitmaskExtensions.cs:20-28 | the `int` and `uint` overloads: the test needs a non-zero mask and a non-zero flag, and holds whenever a non-empty flag passes `FlagUtils.HasFlag` |
| BitmaskExtensions.HasFlagLong | Runtime/Extensions/BitmaskExtensions.cs:30-38 | the `long` and `ulong` overloads: the same two facts on 64 bits |
| BitmaskExtensions.HasFlagByte | Runtime/Extensions/BitmaskExtensions.cs:5-8 | the `byte` overload: the same two facts on 8 bits |
| BitmaskExtensions.HasFlagShort | Runtime/Extensions/BitmaskExtensions.cs:10-18 | the `short` and `ushort` overloads: the same two facts on 16 bits (sign extension to `int` keeps the test unchanged) |
| BitmaskExtensions.HasFlagBitwise | Runtime/Extensions/BitmaskExtensions.cs:20-28 | `HasFlag` holds exactly when the mask and the flag share a set bit |
| BitmaskExtensions.HasFlagBasics | Runtime/Extensions/BitmaskExtensions.cs:20-28 | nothing shares a bit with 0, the test is symmetric, and a mask has itself exactly when it is not 0 |
| BitmaskExtensions.AllAndAny | Runtime/Extensions/BitmaskExtensions.cs:20-23 | for a non-empty flag, having all its bits implies sharing one; for a one-bit flag the two tests agree; for the flag 3 on the mask 1 they differ |
| ListSpec.InsertAt | Runtime/Collections/PooledList.cs:147-160 | inserting puts the item at the index, keeps everything before it and shifts everything after it up one |
| ListSpec.RemoveAt | Runtime/Collections/PooledList.cs:178-194 | removing a position keeps everything before it and shifts everything after it down one |
| ListSpec.RemoveRange | Runtime/Collections/PooledList.cs:196-224 | removing `n` positions from `i` keeps everything before `i` and shifts the rest down by `n` |
| ListSpec.Filter | Runtime/Collections/PooledList.cs:226-255 | what `RemoveAll` keeps is no longer than the list and made only of elements the test accepts |
| SortSpec.Merge | Runtime/Sort/MergeSort.cs:97-107 | the merge is as long as both runs together |

## Left out

- Generic element types: every container and algorithm holds `int`. A comparer is a key projection, which every consistent `IComparer<T>` amounts to on the values compared; an inconsistent comparer is not modelled.
- The convenience overloads that only fill in defaults (`Comparer<T>.Default`, index 0, the whole length, `AsSpan`) are not separate members; the rows above cite them against the member they forward to.
- Sorting through `IList<T>` is modelled on an array; an `IList` whose indexer does more than read and write a slot is not modelled.
- The `BinarySort.Sort` overloads on a span and on `IList<T>` that `TimSortLite` calls are not in Runtime/Sort/BinarySort.cs, which has only the array overloads; `TimSorts.SortRun` uses `BinarySorts.BinarySort` on the run's window in their place.
- BinarySearches.Leftmost: requires `count <= 2^30`, because `(min + max) / 2` in 32-bit arithmetic overflows beyond that, and requires the range to lie inside the list when it is non-empty; the exceptions the indexer would throw outside it are not modelled.
- BinarySearches.LeftmostWhere: the same two requirements as `Leftmost`.
- BinarySearches.LeftmostOfPrefix: the same two requirements as `Leftmost`.
- BinarySearches.Search: requires `[index, index + count)` to lie inside the list; an out-of-range window, where the list's indexer throws, is not modelled.
- FlagUtils and BitmaskExtensions: the 8-, 16- and 64-bit `HasFlag` predicates are modelled, but the bitwise lemmas are stated for the 32-bit masks only.
- ValuePooledLists.ValuePooledList.Grow: requires the doubled capacity to fit in an `int`; the 32-bit overflow of `span.Length * 2` past 2^30 elements is not modelled.
- PooledLists.PooledList.Add and the other appending methods require the count to stay below `int.MaxValue`; `count++` wrapping around is not modelled.
- TimSorts.TimSortLite: requires at most 2^30 elements. Beyond that, `size *= 2`, `left += 2 * size` and `Math.Min(left + 2 * size, length)` can wrap in 32-bit arithmetic, and the source then throws from about 1.4 billion elements; this is not modelled. Nor is the earlier wrap of `index + length` and `left + 2 * size - 1` in the `IList` overload when `index > 0`.
- TimSorts.MergePass: the same bound of 2^30 elements as `TimSorts.TimSortLite`, so that `left + 2 * size` stays inside 32 bits.
- NonAllocBuffers.NonAllocBuffer.FromSpan: requires a non-negative count. The source stores `Math.Min(count, span.Length)` unchecked, so a negative count becomes a negative `Count`; a buffer in that state is not modelled.
- NonAllocBuffers.NonAllocBuffer.WithCapacity: requires a non-negative count and capacity. The negative count of `FromSpan` is not modelled, and neither is the ArgumentOutOfRange that `ArrayPool.Rent` throws for a negative capacity.
- ValuePooledLists.ValuePooledList.WithCapacity: requires a non-negative capacity; the ArgumentOutOfRange of `ArrayPool.Rent` for a negative one is not modelled.
- PooledSpans.NewPooledSpan: requires a non-negative size; the ArgumentOutOfRange of `ArrayPool.Rent` for a negative one is not modelled.
- PooledSpans.NewSpanScope: requires a non-negative size, as `PooledSpans.NewPooledSpan` does.
- PooledLists.PooledList: use after `Dispose` is modelled for `Get`, `Set`, `IndexOfFrom`, `RemoveAt`, `Remove`, `RemoveRange`, `RemoveAll`, `ToArray`, `SetCount`, `CopyTo`, `Dispose` and `GetEnumerator`. The other methods require a live list. On a disposed list the source throws NullReference from `Add`, `AddRange`, `Insert` and `EnsureCapacity` (they read `array.Length`), and ArgumentNull from `IndexOf`, `Contains`, `Clear` and `CopyTo(PooledList)` (`Array.IndexOf`/`Array.Clear`/`Array.Copy` of a null array); these failures are not modelled.
- LegacyPooledLists.PooledList: every method except `Dispose` and `GetEnumerator` requires a live list, so use after `Dispose` (the same NullReference and ArgumentNull failures) is not modelled.
- NonAllocLists.NonAllocList: every method except `Dispose` requires a live list, so use after `Dispose` is not modelled.
- PooledLists.PooledList: `version` is an unbounded integer, while the source's `version++` wraps at 32 bits. After 2^32 modifications, a stale enumerator would see a matching version again and not throw; that is not modelled.
- LegacyPooledLists.PooledList: its `version` is unbounded too, so the 32-bit wrap of `version++` is not modelled.
- BinarySorts.BinarySort: requires a non-negative `sorted` and `count`. The public `Sort(array, start, count, comparer, sorted)` accepts others. A negative `count` does nothing in the source. With `sorted < 0` and `start > 0`, the source shifts `array[start - 1]` into the window, writing outside it. Neither case is modelled.
- CollectionExtensions.ToArray, NonAllocBuffers.NonAllocBuffer.ToArray, NonAllocBuffers.ReadOnlyNonAllocBuffer.ToArray, PooledSpans.RangeCopy, PooledSpans.NewPooledSpan and PooledSpans.NewSpanScope take the shared `Array.Empty<T>()` instance as a parameter, since the model has no per-type static state.
- Value-type copies: `NonAllocList`, `NonAllocBuffer`, `ValuePooledList`, `PooledSpan` and the enumerators are structs or ref structs in the source but classes here. A copy of a struct shares the array but has its own count and version; that divergence between copies is not modelled, and every alias here sees every update.
- `ArrayPool<T>` internals: `Rent(n)` is any fresh array of at least `n` slots, and what a pool does with a returned array is only its log.
- Concurrency: the `ThreadLocal` free list, `Interlocked.CompareExchange` and the concurrent queue and dictionary of `ExactSizeArrayPool` are modelled single-threaded; counter drift under races is not modelled.
- Null arguments (`match == null`, a null list or array) are not modelled; every reference in the model is non-null unless its type says otherwise.
- Collections/PooledList.Pool.cs is not part of this model: it refers to a constructor and an `Init` that the older list does not have.
- Reflection and type helpers (`TypeExtensions`, `ObjectCreator`, `RefStructReflection`), `Runtime/Pools/Pool.cs`, `PoolTNew.cs`, `ValueComparer.cs` and the `ListExtensions` files are not part of this model.
- Span lifetimes, `stackalloc` and `ref` returns: a span is an array viewed from an offset for a length, and the slot `ref T Add()` hands out is its index. Slicing a span gives a view of the same array. Slicing an array (`array[a..b]`) gives a new array, as `PooledSpans.RangeCopy` and `PooledLists.PooledList.AddRangeSpan` model.
- NonAllocBuffers.NonAllocBuffer.AddRange: takes the appended values as a sequence, so a span aliasing the buffer's own rented storage (`b.AddRange(b.GetFilledSpan())`) is not modelled. In the source, growth first clears and returns that storage, and only then are the values read, so zeros are appended.
- ValuePooledLists.ValuePooledList.AddRange: takes the items as a sequence, so an items span aliasing the list's own rented storage (`l.AddRange(l.AsSpan())`) is not modelled. In the source, `Grow` clears and returns that storage before the items are copied, so zeros are appended.
- Enumerators' `Dispose` methods do nothing in the source and are not modelled.

## Findings

| source | as written | input that shows it | evidently intended | confidence | as-written member | corrected member |
|---|---|---|---|---|---|---|
| Runtime/Sort/InsertionSort.cs:22 | the shifting loop runs while `j > 0`, so it can move an element of the window below `index` | `[5, 3, 1]`, index 1, length 2 gives `[1, 5, 3]`: slot 0 changes and the window `[5, 3]` is unsorted | the loop runs while `j > index`, sorting only the window | high; not executed | InsertionSorts.InsertionSortAsWritten, InsertionSorts.InsertionSortEscapesWindow | InsertionSorts.InsertionSort |
| Runtime/BinarySearch.cs:16 | the search range is `[index, count)`, treating `count` as an end position | `[0, 1, 2, 3]`, value 3, index 2, count 2 returns 2 without looking at anything, though 3 is at 3 | the range is `[index, index + count)`, as in `Search` | medium; not executed | BinarySearches.Leftmost, BinarySearches.LeftmostSkipsRange | BinarySearches.LeftmostCorrected |
| Collections/NonAllocList.cs:158 | `GetEnumerator` passes the count to an enumerator that reads a count of 0 as "the whole array" | an empty list over a 16-slot array enumerates 16 stale slots instead of nothing | an enumerator over exactly the live elements | high; not executed | NonAllocLists.NonAllocList.GetEnumerator, NonAllocLists.EmptyListEnumeratesBackingArray | NonAllocLists.NonAllocList.GetEnumeratorCorrected |
| Runtime/Collections/ArrayEnumerator.cs:36 | on exhaustion `MoveNext` sets the index to -1 | after `MoveNext` returns false on a non-empty array, the next call reads `array[-1]` and throws, and the one after restarts from the first element | the index stays at the count and `MoveNext` keeps returning false | medium; not executed | ArrayEnumerators.MoveNextAfterEndThrows | ArrayEnumerators.CorrectedStaysExhausted |
| Runtime/Collections/PooledList.cs:141 | `span.CopyTo(array[count..])` copies into a range copy of the array, so the list's array is never written; the count and version still move | an empty list whose array holds zeros, then `AddRange([1, 2, 3])` as a span, holds `[0, 0, 0]` | `span.CopyTo(array.AsSpan(count))`, appending the items as the collection overload does | high; not executed | PooledLists.PooledList.AddRangeSpan, PooledLists.SpanAddRangeDropsItems | PooledLists.PooledList.AddRangeCollection |
| Runtime/Collections/PooledSpan.cs:29 | `Span = array[..size]` makes the span a new copy of the rented array's first `size` slots, so writes never reach the rented array and `Dispose` clears and returns an array the span does not use | a one-slot `PooledSpan`, 7 stored at index 0, then `Dispose`: the span still holds 7 and the returned array holds 0 | `Span = array.AsSpan(0, size)`, a view of the rented array | high; not executed | PooledSpans.NewPooledSpan, PooledSpans.PooledSpanWriteSurvivesDispose | PooledSpans.NewPooledSpanCorrected, PooledSpans.CorrectedDisposeClearsWrite |
| Runtime/Collections/SpanScope.cs:26 | `Span = array[..size]`, the same range copy as in `PooledSpan` | a one-slot `SpanScope`, 7 stored through its span, then `Dispose`: the span still holds 7 | `Span = array.AsSpan(0, size)` | high; not executed | PooledSpans.NewSpanScope, PooledSpans.SpanScopeWriteSurvivesDispose | PooledSpans.NewSpanScopeCorrected |
| Runtime/Collections/PooledSpan.cs:38 | the conversion from a span sets `Length` to 0 | converting a span of 3 elements gives a `PooledSpan` whose `Length` is 0 and whose span has 3 elements | `Length` is the span's length, as for a rented span | medium; not executed | PooledSpans.ConvertedLengthDisagrees | PooledSpans.PooledSpanFromSpanCorrected |
