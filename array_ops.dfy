/**
 * The `System.Array` primitives the buffers are written with, with their argument checks:
 * `Array.IndexOf(array, value, startIndex, count)`, `Array.Copy(src, srcIndex, dst, dstIndex,
 * length)` and `Array.Clear(array, index, length)`, plus the "grow by policy" step that the
 * legacy lists and `BasePool` inline in their `EnsureCapacity`.
 */
module ArrayOps {
  import opened Wrappers
  import opened GrowthPolicy
  import opened ListSpec
  import opened ArrayPools

  /** `Array.IndexOf(a, x, start, n)`: the absolute index of the first `x` in `a[start..start+n]`,
      or -1; a window outside the array is ArgumentOutOfRange. */
  method IndexOf(a: array<int>, x: int, start: int, n: int) returns (r: Result<int>)
    ensures r.Ok? <==> 0 <= start && 0 <= n && start + n <= a.Length
    ensures r.Err? ==> r.error == ArgumentOutOfRange
    ensures r.Ok? ==> r.value == IndexFrom(a[..start + n], x, start)
  {
    if start < 0 || n < 0 || start + n > a.Length {
      return Err(ArgumentOutOfRange);
    }
    var i := start;
    while i < start + n
      invariant start <= i <= start + n
      invariant x !in a[start..i]
    {
      if a[i] == x {
        assert a[..start + n][start..][..i - start] == a[start..i];
        return Ok(i);
      }
      assert a[start..i + 1] == a[start..i] + [a[i]];
      i := i + 1;
    }
    assert a[..start + n][start..] == a[start..i];
    return Ok(-1);
  }

  /** `Array.Copy(src, srcIndex, dst, dstIndex, n)`: negative arguments are ArgumentOutOfRange, a
      window past either end is Argument; otherwise the window is copied as if through a
      temporary, so overlapping copies within one array are safe. */
  method Copy(src: array<int>, srcIndex: int, dst: array<int>, dstIndex: int, n: int) returns (o: Outcome)
    modifies dst
    ensures o == if srcIndex < 0 || dstIndex < 0 || n < 0 then Throws(ArgumentOutOfRange)
                 else if srcIndex + n > src.Length || dstIndex + n > dst.Length then Throws(Argument)
                 else Done
    ensures o.Done? ==>
      dst[dstIndex..dstIndex + n] == old(src[srcIndex..srcIndex + n]) &&
      dst[..dstIndex] == old(dst[..dstIndex]) && dst[dstIndex + n..] == old(dst[dstIndex + n..])
    ensures o.Throws? ==> dst[..] == old(dst[..])
  {
    if srcIndex < 0 || dstIndex < 0 || n < 0 {
      return Throws(ArgumentOutOfRange);
    }
    if srcIndex + n > src.Length || dstIndex + n > dst.Length {
      return Throws(Argument);
    }
    forall k | 0 <= k < n {
      dst[dstIndex + k] := src[srcIndex + k];
    }
    return Done;
  }

  /** `Array.Clear(a, index, n)`: a window outside the array is IndexOutOfRange; otherwise the
      window is reset to the default value and nothing else changes. */
  method Clear(a: array<int>, index: int, n: int) returns (o: Outcome)
    modifies a
    ensures o == if index < 0 || n < 0 || index + n > a.Length then Throws(IndexOutOfRange) else Done
    ensures o.Done? ==>
      a[index..index + n] == Zeros(n) && a[..index] == old(a[..index]) && a[index + n..] == old(a[index + n..])
    ensures o.Throws? ==> a[..] == old(a[..])
  {
    if index < 0 || n < 0 || index + n > a.Length {
      return Throws(IndexOutOfRange);
    }
    forall k | index <= k < index + n {
      a[k] := 0;
    }
    return Done;
  }

  /**
   * The `EnsureCapacity` body of the legacy lists and of `BasePool`: when the growth policy
   * says so, rent an array of the new capacity from `pool`, copy the first `count` elements,
   * clear them in the old array when `clearOld` (reference element types), and return the old
   * array to the same pool. Otherwise nothing happens.
   */
  method GrowByPolicy(a: array<int>, count: int, capacity: Int32, pool: ArrayPool, clearOld: bool)
    returns (r: array<int>)
    requires 0 <= count <= a.Length <= MaxInt32
    modifies a, pool
    ensures var g := TryGetNewCapacity(a.Length, capacity);
      if g.grow then
        fresh(r) && g.newCapacity <= r.Length <= MaxInt32 && r[..count] == old(a[..count]) &&
        pool.returned == old(pool.returned) + [a] &&
        a[..count] == (if clearOld then Zeros(count) else old(a[..count])) && a[count..] == old(a[count..])
      else
        r == a && a[..] == old(a[..]) && pool.returned == old(pool.returned)
  {
    var g := TryGetNewCapacity(a.Length, capacity);
    if g.grow {
      r := pool.Rent(g.newCapacity);
      forall k | 0 <= k < count {
        r[k] := a[k];
      }
      if clearOld {
        forall k | 0 <= k < count {
          a[k] := 0;
        }
      }
      pool.Return(a, false);
    } else {
      r := a;
    }
  }
}
