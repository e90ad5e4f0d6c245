/**
 * `ExactSizeArrayPool<T>`: an array pool that hands out arrays of exactly the requested length.
 * It has one fast slot per small length, then a FIFO queue per length holding at most
 * `maxPerSize` arrays, with a per-length counter kept next to the queue. The pool's state is
 * `PoolState`; `RentFrom` and `ReturnTo` say how one call changes it, and the class is proved
 * against them. The model is sequential: the compare-and-swap on a fast slot always succeeds.
 */
module ExactSizeArrayPools {
  import opened Wrappers
  import opened GrowthPolicy
  import opened ListSpec

  const DefaultFastSlots: int := 50
  const DefaultMaxPerSize: int := 50

  /** The fast slots, the queue per length and the counter per length. */
  datatype PoolState = PoolState(slots: seq<array?<int>>, queues: map<int, seq<array<int>>>, counts: map<int, int>)

  /** What `Rent` finds before it allocates: the new state and the pooled array, if any. */
  datatype Taken = Taken(state: PoolState, found: Option<array<int>>)

  /** The pool's invariant: every held array has the length it is filed under, each counter is
      its queue's length, and no queue is longer than `maxPerSize`. */
  predicate Inv(s: PoolState, maxPerSize: int)
  {
    0 < maxPerSize &&
    (forall n | 0 <= n < |s.slots| && s.slots[n] != null :: s.slots[n].Length == n) &&
    (forall n, a | n in s.queues && a in s.queues[n] :: a.Length == n) &&
    (forall n | n in s.queues :: n in s.counts && s.counts[n] == |s.queues[n]| <= maxPerSize) &&
    (forall n | n in s.counts :: n in s.queues)
  }

  /** How many arrays of length `n` the pool holds. */
  function Held(s: PoolState, n: int): nat
  {
    (if 0 <= n < |s.slots| && s.slots[n] != null then 1 else 0) + (if n in s.queues then |s.queues[n]| else 0)
  }

  /** How many arrays of length `n` the pool can hold: its fast slot, if it has one, and a full queue. */
  function Room(s: PoolState, n: int, maxPerSize: int): int
  {
    (if 0 <= n < |s.slots| then 1 else 0) + maxPerSize
  }

  /** `Rent(length)` for `length >= 0`, up to allocation: the fast slot, else the queue's head
      (the counter is decremented, not below 0), else nothing is found. */
  function RentFrom(s: PoolState, length: int): (t: Taken)
    requires 0 <= length
    ensures t.found.None? ==> t.state == s
  {
    if length < |s.slots| && s.slots[length] != null then
      Taken(s.(slots := s.slots[length := null]), Some(s.slots[length]))
    else if length in s.queues && |s.queues[length]| > 0 then
      var c := if length in s.counts then Max(0, s.counts[length] - 1) else 0;
      Taken(s.(queues := s.queues[length := s.queues[length][1..]], counts := s.counts[length := c]),
            Some(s.queues[length][0]))
    else
      Taken(s, None)
  }

  /** `Return(array)`: into the empty fast slot of its length, else counted and enqueued; when the
      count would exceed `maxPerSize` the array is dropped and the counter restored. */
  function ReturnTo(s: PoolState, a: array<int>, maxPerSize: int): PoolState
  {
    var n := a.Length;
    if n < |s.slots| && s.slots[n] == null then
      s.(slots := s.slots[n := a])
    else
      var q := if n in s.queues then s.queues[n] else [];
      var c := if n in s.counts then s.counts[n] + 1 else 1;
      if c <= maxPerSize then PoolState(s.slots, s.queues[n := q + [a]], s.counts[n := c])
      else PoolState(s.slots, s.queues[n := q], s.counts[n := Max(0, c - 1)])
  }

  /** `Rent` keeps the invariant and what it finds has exactly the requested length. */
  lemma RentKeepsInv(s: PoolState, maxPerSize: int, length: int)
    requires Inv(s, maxPerSize) && 0 <= length
    ensures Inv(RentFrom(s, length).state, maxPerSize)
    ensures RentFrom(s, length).found.Some? ==> RentFrom(s, length).found.value.Length == length
    ensures Held(RentFrom(s, length).state, length) ==
      Held(s, length) - (if RentFrom(s, length).found.Some? then 1 else 0)
  {
    var t := RentFrom(s, length);
    if !(length < |s.slots| && s.slots[length] != null) && length in s.queues && |s.queues[length]| > 0 {
      assert s.queues[length][0] in s.queues[length];
      forall n, a | n in t.state.queues && a in t.state.queues[n]
        ensures a.Length == n
      {
        if n == length {
          assert a in s.queues[length];
        }
      }
    }
  }

  /** `Return` keeps the invariant; the array is held afterwards unless its queue was full. */
  lemma ReturnKeepsInv(s: PoolState, maxPerSize: int, a: array<int>)
    requires Inv(s, maxPerSize)
    ensures Inv(ReturnTo(s, a, maxPerSize), maxPerSize)
    ensures Held(ReturnTo(s, a, maxPerSize), a.Length) ==
      Held(s, a.Length) + (if Held(s, a.Length) < Room(s, a.Length, maxPerSize) then 1 else 0)
  {
    var n := a.Length;
    var r := ReturnTo(s, a, maxPerSize);
    if !(n < |s.slots| && s.slots[n] == null) {
      var q := if n in s.queues then s.queues[n] else [];
      forall m, b | m in r.queues && b in r.queues[m]
        ensures b.Length == m
      {
        if m == n && b != a {
          assert b in q;
        }
      }
    }
  }

  /** The pool never holds more arrays of a length than its fast slot and a full queue. */
  lemma HeldIsBounded(s: PoolState, maxPerSize: int, n: int)
    requires Inv(s, maxPerSize)
    ensures Held(s, n) <= Room(s, n, maxPerSize)
  {
  }

  /** When the fast slot of `a`'s length is empty, or the pool holds no array of that length at
      all, renting that length right after returning `a` gives back `a` itself, and the fast
      slots are as before; through an empty fast slot the whole pool is as before. */
  lemma ReturnThenRentSameArray(s: PoolState, maxPerSize: int, a: array<int>)
    requires Inv(s, maxPerSize)
    requires (a.Length < |s.slots| && s.slots[a.Length] == null) || Held(s, a.Length) == 0
    ensures RentFrom(ReturnTo(s, a, maxPerSize), a.Length).found == Some(a)
    ensures RentFrom(ReturnTo(s, a, maxPerSize), a.Length).state.slots == s.slots
    ensures a.Length < |s.slots| && s.slots[a.Length] == null ==>
      RentFrom(ReturnTo(s, a, maxPerSize), a.Length).state == s
  {
    var n := a.Length;
    if !(n < |s.slots|) {
      assert n !in s.queues || s.queues[n] == [];
      assert n !in s.counts || s.counts[n] == 0;
    }
  }

  class ExactSizeArrayPool {
    const fastSlots: array<array?<int>>
    const maxPerSize: int
    var queues: map<int, seq<array<int>>>
    var counts: map<int, int>

    function State(): PoolState
      reads this, fastSlots
    {
      PoolState(fastSlots[..], queues, counts)
    }

    predicate Valid()
      reads this, fastSlots
    {
      fastSlots.Length > 0 && Inv(State(), maxPerSize)
    }

    constructor (fastSlotCount: int, maxPerSize: int)
      requires fastSlotCount > 0 && maxPerSize > 0
      ensures Valid() && fresh(fastSlots) && this.maxPerSize == maxPerSize
      ensures State() == PoolState(seq(fastSlotCount, _ => null), map[], map[])
    {
      this.maxPerSize := maxPerSize;
      fastSlots := new array?<int>[fastSlotCount](_ => null);
      queues := map[];
      counts := map[];
    }

    /** `new ExactSizeArrayPool<T>(fastSlots, maxPerSize)`: both must be positive. */
    static method New(fastSlotCount: int, maxPerSize: int) returns (r: Result<ExactSizeArrayPool>)
      ensures r.Ok? <==> fastSlotCount > 0 && maxPerSize > 0
      ensures r.Err? ==> r.error == ArgumentOutOfRange
      ensures r.Ok? ==> (fresh(r.value) && fresh(r.value.fastSlots) && r.value.Valid() &&
        r.value.maxPerSize == maxPerSize && r.value.State() == PoolState(seq(fastSlotCount, _ => null), map[], map[]))
    {
      if fastSlotCount <= 0 || maxPerSize <= 0 {
        return Err(ArgumentOutOfRange);
      }
      var pool := new ExactSizeArrayPool(fastSlotCount, maxPerSize);
      return Ok(pool);
    }

    /** `Rent(length)`: a negative length throws; otherwise an array of exactly `length` elements,
        from the pool as `RentFrom` says or newly allocated. */
    method Rent(length: Int32) returns (r: Result<array<int>>)
      requires Valid()
      modifies this, fastSlots
      ensures Valid()
      ensures length < 0 ==> r == Err(ArgumentOutOfRange) && State() == old(State())
      ensures length >= 0 ==> (r.Ok? && r.value.Length == length &&
        var t := RentFrom(old(State()), length);
        State() == t.state && (if t.found.Some? then r.value == t.found.value else fresh(r.value)))
    {
      if length < 0 {
        return Err(ArgumentOutOfRange);
      }
      RentKeepsInv(State(), maxPerSize, length);
      if length < fastSlots.Length {
        var slot := fastSlots[length];
        if slot != null {
          fastSlots[length] := null;
          return Ok(slot);
        }
      }
      if length in queues && |queues[length]| > 0 {
        var a := queues[length][0];
        queues := queues[length := queues[length][1..]];
        counts := counts[length := if length in counts then Max(0, counts[length] - 1) else 0];
        return Ok(a);
      }
      var a := new int[length];
      return Ok(a);
    }

    /** `Return(array, clearArray)`: null throws; otherwise the array is cleared on request and
        filed as `ReturnTo` says. */
    method Return(a: array?<int>, clearArray: bool) returns (o: Outcome)
      requires Valid()
      modifies this, fastSlots, a
      ensures Valid()
      ensures a == null ==> o == Throws(ArgumentNull) && State() == old(State())
      ensures a != null ==> (o == Done && State() == ReturnTo(old(State()), a, maxPerSize) &&
        a[..] == if clearArray then Zeros(a.Length) else old(a[..]))
    {
      if a == null {
        return Throws(ArgumentNull);
      }
      var b: array<int> := a;
      if clearArray {
        forall k | 0 <= k < b.Length {
          b[k] := 0;
        }
      }
      File(b);
      return Done;
    }

    /** The filing part of `Return`: the fast slot of the array's length if it is empty, else
        the queue, unless the counter says the queue is full. */
    method File(b: array<int>)
      requires Valid()
      modifies this, fastSlots
      ensures Valid() && State() == ReturnTo(old(State()), b, maxPerSize)
    {
      ReturnKeepsInv(State(), maxPerSize, b);
      var n := b.Length;
      if n < fastSlots.Length && fastSlots[n] == null {
        fastSlots[n] := b;
        return;
      }
      var q := if n in queues then queues[n] else [];
      var c := if n in counts then counts[n] + 1 else 1;
      if c <= maxPerSize {
        queues := queues[n := q + [b]];
        counts := counts[n := c];
      } else {
        queues := queues[n := q];
        counts := counts[n := Max(0, c - 1)];
      }
    }
  }
}
