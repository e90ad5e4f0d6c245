/**
 * The state machine of the versioned list enumerators (`PooledList<T>.Enumerator` of
 * both PooledList implementations): a snapshot of the list's count and version, a
 * cursor and the current element. `MoveNext` is a function of that state, the list's
 * current version and the outcome of the list's indexer at the cursor.
 */
module VersionedEnumerator {
  import opened Wrappers

  datatype Cursor = Cursor(count: int, version: int, index: int, current: int)

  /** What `MoveNext` returns and the state it leaves behind. */
  datatype Step = Step(next: Cursor, result: Result<bool>)

  /** The enumerator right after construction: snapshot taken, cursor 0, `current` default. */
  function Start(count: int, version: int): (c: Cursor)
    ensures c.index == 0 && c.current == 0 && c.count == count && c.version == version
  {
    Cursor(count, version, 0, 0)
  }

  /** An indexer that bounds-checks against `store` (the live contents or the backing array). */
  function ReadAt(store: seq<int>, i: int): (r: Result<int>)
    ensures r.Ok? <==> 0 <= i < |store|
    ensures r.Ok? ==> r.value == store[i]
    ensures r.Err? ==> r.error == IndexOutOfRange
  {
    if 0 <= i < |store| then Ok(store[i]) else Err(IndexOutOfRange)
  }

  /**
   * `MoveNext`: a version mismatch throws InvalidOperation (moving the cursor past the end);
   * otherwise the next snapshot element is read through the indexer (`list[index++]`, so the
   * cursor advances even when the indexer throws); past the snapshot count it returns false.
   */
  function MoveNext(c: Cursor, listVersion: int, listCount: int, read: Result<int>): Step
  {
    if c.version != listVersion then
      Step(c.(index := listCount + 1, current := 0), Err(InvalidOperation))
    else if c.index < c.count then
      match read
      case Ok(x) => Step(c.(index := c.index + 1, current := x), Ok(true))
      case Err(e) => Step(c.(index := c.index + 1), Err(e))
    else
      Step(c, Ok(false))
  }

  /** `Reset`: back to the first element; the version snapshot is not taken again. */
  function Reset(c: Cursor): (r: Cursor)
    ensures r.index == 0 && r.current == 0 && r.count == c.count && r.version == c.version
  {
    c.(index := 0, current := 0)
  }

  /**
   * The elements a `foreach` loop sees: `MoveNext` repeated while it returns true, on a
   * list whose version stays `v` and whose indexer reads `store`.
   */
  function Enumerate(c: Cursor, v: int, listCount: int, store: seq<int>): seq<int>
    decreases c.count - c.index
  {
    var s := MoveNext(c, v, listCount, ReadAt(store, c.index));
    if s.result == Ok(true) then [s.next.current] + Enumerate(s.next, v, listCount, store) else []
  }

  /** On an unmodified list, enumeration from any cursor yields the snapshot from the cursor on. */
  lemma {:induction false} EnumerateFrom(c: Cursor, v: int, listCount: int, store: seq<int>)
    requires c.version == v && 0 <= c.index <= c.count <= |store|
    ensures Enumerate(c, v, listCount, store) == store[c.index..c.count]
    decreases c.count - c.index
  {
    if c.index < c.count {
      var s := MoveNext(c, v, listCount, ReadAt(store, c.index));
      EnumerateFrom(s.next, v, listCount, store);
    }
  }

  /** A fresh enumerator over an unmodified list yields exactly the first `count` elements, in order. */
  lemma EnumerateAll(count: int, v: int, listCount: int, store: seq<int>)
    requires 0 <= count <= |store|
    ensures Enumerate(Start(count, v), v, listCount, store) == store[..count]
  {
    EnumerateFrom(Start(count, v), v, listCount, store);
  }

  /** Once exhausted, `MoveNext` keeps returning false and the state stays put. */
  lemma ExhaustedStaysExhausted(c: Cursor, v: int, listCount: int, read: Result<int>)
    requires c.version == v && c.index >= c.count
    ensures MoveNext(c, v, listCount, read) == Step(c, Ok(false))
  {
  }

  /** After a version change, this call and every later call (whatever Reset does) throw. */
  lemma {:induction false} StaleAlwaysThrows(c: Cursor, v: int, listCount: int, read: Result<int>)
    requires c.version != v
    ensures MoveNext(c, v, listCount, read).result == Err(InvalidOperation)
    ensures MoveNext(MoveNext(c, v, listCount, read).next, v, listCount, read).result == Err(InvalidOperation)
    ensures MoveNext(Reset(c), v, listCount, read).result == Err(InvalidOperation)
  {
  }

  /** With the version unchanged and the count as snapshotted, the indexer never throws. */
  lemma {:induction false} InSnapshotNeverThrows(c: Cursor, v: int, store: seq<int>)
    requires c.version == v && 0 <= c.index && c.count <= |store|
    ensures MoveNext(c, v, |store|, ReadAt(store, c.index)).result.Ok?
  {
  }
}
