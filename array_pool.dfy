/**
 * The allocator interface the buffers rent their backing arrays from
 * (System.Buffers.ArrayPool, by default `ArrayPool<T>.Shared`). Its internals are not
 * part of the model: `Rent(n)` hands out an array of at least `n` elements that no
 * buffer owns yet, and the ghost log `returned` records every array given back, so
 * that "returned exactly once" and "caller storage is never returned" can be stated.
 */
module ArrayPools {
  import opened GrowthPolicy
  import opened ListSpec

  class ArrayPool {
    /** Every array passed to `Return`, in order. */
    ghost var returned: seq<array<int>>

    constructor ()
      ensures returned == []
    {
      returned := [];
    }

    /** `Rent(minimumLength)`: an array of at least `n` elements, not owned by anyone else. */
    method Rent(n: int) returns (a: array<int>)
      requires 0 <= n <= MaxInt32
      ensures fresh(a) && n <= a.Length <= MaxInt32
    {
      a := new int[n];
    }

    /** `Return(array, clearArray)`: gives `a` back; with `clearArray` its contents are zeroed first. */
    method Return(a: array<int>, clearArray: bool)
      modifies this, a
      ensures returned == old(returned) + [a]
      ensures a[..] == if clearArray then Zeros(a.Length) else old(a[..])
    {
      if clearArray {
        forall k | 0 <= k < a.Length {
          a[k] := 0;
        }
      }
      returned := returned + [a];
    }
  }
}

/** ArrayPoolUtils: resizing a rented array through a pool. */
module ArrayPoolUtils {
  import opened GrowthPolicy
  import opened ListSpec
  import opened ArrayPools

  /**
   * `Resize(ref array, oldSize, newSize, arrayPool)`: rents a new array of `newSize`,
   * copies the first `oldSize` elements, clears them in the old array and returns the
   * old array to the same pool exactly once. The `ref` parameter is the result. The
   * three-argument overload is this method with `ArrayPool<T>.Shared` as the pool.
   * `Array.Copy` fails unless `oldSize` fits both arrays, hence the precondition.
   */
  method Resize(a: array<int>, oldSize: int, newSize: int, pool: ArrayPool) returns (r: array<int>)
    requires 0 <= oldSize <= a.Length && oldSize <= newSize <= MaxInt32
    modifies pool, a
    ensures fresh(r) && newSize <= r.Length <= MaxInt32
    ensures r[..oldSize] == old(a[..oldSize])
    ensures a[..oldSize] == Zeros(oldSize) && a[oldSize..] == old(a[oldSize..])
    ensures pool.returned == old(pool.returned) + [a]
  {
    r := pool.Rent(newSize);
    forall k | 0 <= k < oldSize {
      r[k] := a[k];
    }
    forall k | 0 <= k < oldSize {
      a[k] := 0;
    }
    assert a[..oldSize] == Zeros(oldSize);
    pool.Return(a, false);
  }
}
