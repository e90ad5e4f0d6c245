/**
 * `BasePool<T>`: an object pool that keeps returned objects on a stack in an array rented from
 * an `ArrayPool`, at most `MaxSize` of them. The subclass's `Create`, `OnGet` and `OnReturn`
 * hooks are modelled as a factory `create(i)`, the value the i-th call of `Create` produces,
 * plus a ghost log of every hook call in order.
 */
module BasePools {
  import opened Wrappers
  import opened GrowthPolicy
  import opened ListSpec
  import opened ArrayPools
  import ArrayOps

  /** A call of one of the subclass hooks, with its argument or result. */
  datatype Hook = Created(item: int) | Got(item: int) | Returned(item: int)

  const MinArrayCapacity: int := 16

  /** The `maxSize` the constructor and the `MaxSize` setter store: non-positive means unbounded. */
  function EffectiveMaxSize(value: Int32): (m: Int32)
    ensures 0 < m
    ensures value > 0 ==> m == value
    ensures value <= 0 ==> m == MaxInt32
  {
    if value > 0 then value else MaxInt32
  }

  /** The stack after `Return(item)`: pushed unless the pool already holds `maxSize` objects. */
  function Pushed(items: seq<int>, item: int, maxSize: int): seq<int>
  {
    if |items| >= maxSize then items else items + [item]
  }

  /** `Return` then `Get` hands back the returned object and leaves the stack as it was,
      whenever the pool had room. */
  lemma ReturnThenGet(items: seq<int>, item: int, maxSize: int)
    requires |items| < maxSize
    ensures var p := Pushed(items, item, maxSize);
      |p| > 0 && p[|p| - 1] == item && p[..|p| - 1] == items
  {
  }

  /** The objects the i-th to (i+n-1)-th calls of `Create` produce. */
  function CreatedRun(create: nat -> int, from: nat, n: nat): (r: seq<int>)
    ensures |r| == n && forall i :: 0 <= i < n ==> r[i] == create(from + i)
  {
    seq(n, i requires 0 <= i < n => create(from + i))
  }

  lemma CreatedRunStep(create: nat -> int, from: nat, n: nat)
    ensures CreatedRun(create, from, n + 1) == CreatedRun(create, from, n) + [create(from + n)]
  {
  }

  /** The hook calls of `n` rounds of `Return(Create())`, starting with the `from`-th creation. */
  function FillHooks(create: nat -> int, from: nat, n: nat): (h: seq<Hook>)
    ensures |h| == 2 * n
  {
    if n == 0 then [] else
      var x := create(from + n - 1);
      FillHooks(create, from, n - 1) + [Created(x), Returned(x)]
  }

  class BasePool {
    var maxSize: int
    var count: int
    var arr: array<int>
    const arrayPool: ArrayPool
    /** The subclass's `Create`, indexed by how many objects it has made. */
    const create: nat -> int
    var created: nat
    ghost var hooks: seq<Hook>

    ghost predicate Valid()
      reads this
    {
      0 < maxSize <= MaxInt32 && 0 <= count <= arr.Length <= MaxInt32
    }

    /** The pooled objects, bottom of the stack first. */
    ghost function Contents(): seq<int>
      reads this, arr
      requires Valid()
    {
      arr[..count]
    }

    /** `BasePool(maxSize, capacity, arrayPool)`: rents at least max(capacity, 16) slots. */
    constructor (maxSize: Int32, capacity: Int32, arrayPool: ArrayPool?, shared: ArrayPool, create: nat -> int)
      modifies if arrayPool == null then shared else arrayPool
      ensures Valid() && Contents() == [] && hooks == [] && created == 0
      ensures this.maxSize == EffectiveMaxSize(maxSize)
      ensures this.arrayPool == (if arrayPool == null then shared else arrayPool)
      ensures fresh(arr) && arr.Length >= Max(capacity, MinArrayCapacity)
      ensures this.create == create
    {
      this.maxSize := EffectiveMaxSize(maxSize);
      var pool := if arrayPool == null then shared else arrayPool;
      this.arrayPool := pool;
      var a := pool.Rent(Max(capacity, MinArrayCapacity));
      arr := a;
      count := 0;
      this.create := create;
      created := 0;
      hooks := [];
    }

    /** The `MaxSize` setter. It does not drop objects already pooled. */
    method SetMaxSize(value: Int32)
      requires Valid()
      modifies this
      ensures Valid() && maxSize == EffectiveMaxSize(value)
      ensures count == old(count) && arr == old(arr) && created == old(created) && hooks == old(hooks)
    {
      maxSize := EffectiveMaxSize(value);
    }

    /** `Get`: pops the top object, or creates one when the pool is empty; `OnGet` sees it. */
    method Get() returns (item: int)
      requires Valid()
      modifies this
      ensures Valid() && arr == old(arr) && maxSize == old(maxSize)
      ensures old(count) > 0 ==> (item == old(Contents())[old(count) - 1] &&
        Contents() == old(Contents())[..old(count) - 1] && created == old(created) &&
        hooks == old(hooks) + [Got(item)])
      ensures old(count) == 0 ==> (item == create(old(created)) && Contents() == [] &&
        created == old(created) + 1 && hooks == old(hooks) + [Created(item), Got(item)])
    {
      if count > 0 {
        count := count - 1;
        item := arr[count];
      } else {
        item := create(created);
        created := created + 1;
        hooks := hooks + [Created(item)];
      }
      hooks := hooks + [Got(item)];
    }

    /** `Return(item)`: `OnReturn` always sees it; it is kept only while fewer than `maxSize` are
        pooled, growing the array by the policy when it is full. */
    method Return(item: int)
      requires Valid()
      modifies this, arr, arrayPool
      ensures Valid() && maxSize == old(maxSize) && created == old(created)
      ensures Contents() == Pushed(old(Contents()), item, maxSize)
      ensures hooks == old(hooks) + [Returned(item)]
      ensures old(count) < old(arr.Length) || old(count) >= maxSize ==> arr == old(arr)
      ensures arr.Length >= old(arr.Length)
    {
      hooks := hooks + [Returned(item)];
      if count >= maxSize {
        return;
      }
      if count == arr.Length {
        EnsureCapacity(count + 1);
      }
      arr[count] := item;
      count := count + 1;
    }

    /** `Fill(desiredCount)`: tops the pool up to min(desiredCount, maxSize) new objects, growing
        the array once beforehand. */
    method Fill(desiredCount: Int32)
      requires Valid()
      modifies this, arr, arrayPool
      ensures Valid() && maxSize == old(maxSize)
      ensures var n := Max(0, Min(desiredCount, maxSize) - old(count));
        Contents() == old(Contents()) + CreatedRun(create, old(created), n) &&
        created == old(created) + n && hooks == old(hooks) + FillHooks(create, old(created), n)
    {
      var target := Min(desiredCount, maxSize);
      EnsureCapacity(target);
      FillTo(target);
    }

    /** The loop of `Fill`: `Return(Create())` until `target` objects are pooled. The array
        already has room for them, so it is never replaced. */
    method FillTo(target: int)
      requires Valid() && target <= maxSize && (count < target ==> target <= arr.Length)
      modifies this, arr, arrayPool
      ensures Valid() && maxSize == old(maxSize) && arr == old(arr)
      ensures var n := Max(0, target - old(count));
        Contents() == old(Contents()) + CreatedRun(create, old(created), n) &&
        created == old(created) + n && hooks == old(hooks) + FillHooks(create, old(created), n)
    {
      while count < target
        invariant Valid() && maxSize == old(maxSize) && arr == old(arr) && count >= old(count)
        invariant count == old(count) || count <= target
        invariant count < target ==> target <= arr.Length
        invariant created == old(created) + (count - old(count))
        invariant Contents() == old(Contents()) + CreatedRun(create, old(created), count - old(count))
        invariant hooks == old(hooks) + FillHooks(create, old(created), count - old(count))
        decreases target - count
      {
        ghost var k := count - old(count);
        ReturnCreated();
        CreatedRunStep(create, old(created), k);
      }
    }

    /** One round of `Fill`'s loop, `Return(Create())`, while the array has room and the pool is
        below `maxSize`: the new object is pushed. */
    method ReturnCreated()
      requires Valid() && count < maxSize && count < arr.Length
      modifies this, arr, arrayPool
      ensures Valid() && maxSize == old(maxSize) && arr == old(arr) && count == old(count) + 1
      ensures Contents() == old(Contents()) + [create(old(created))] && created == old(created) + 1
      ensures hooks == old(hooks) + [Created(create(old(created))), Returned(create(old(created)))]
    {
      var x := create(created);
      created := created + 1;
      hooks := hooks + [Created(x)];
      Return(x);
    }

    /** `EnsureCapacity(capacity)`: grows by the policy through the pool's own `ArrayPool`,
        clearing the old array before returning it. */
    method EnsureCapacity(capacity: Int32)
      requires Valid()
      modifies this, arr, arrayPool
      ensures Valid() && maxSize == old(maxSize) && count == old(count) && created == old(created)
      ensures hooks == old(hooks) && Contents() == old(Contents())
      ensures var g := TryGetNewCapacity(old(arr.Length), capacity);
        if g.grow then
          fresh(arr) && arr.Length >= g.newCapacity && arrayPool.returned == old(arrayPool.returned) + [old(arr)] &&
          old(arr)[..old(count)] == Zeros(old(count))
        else arr == old(arr) && arrayPool.returned == old(arrayPool.returned)
    {
      arr := ArrayOps.GrowByPolicy(arr, count, capacity, arrayPool, true);
    }
  }
}
