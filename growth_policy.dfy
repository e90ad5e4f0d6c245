/**
 * The shared capacity growth policy: `TryGetNewCapacity` (and its two copies named
 * `TryEnsureCapacity`). It doubles the current capacity in 32-bit unsigned arithmetic,
 * saturates at int.MaxValue and never returns less than the desired capacity.
 */
module GrowthPolicy {

  const MaxInt32: int := 0x7FFF_FFFF
  const MinInt32: int := -0x8000_0000

  type Int32 = x: int | MinInt32 <= x <= MaxInt32

  /** The result of the C# method: its bool return value and its `out` parameter. */
  datatype Growth = Growth(grow: bool, newCapacity: Int32)

  /** `(uint)x`: reinterpretation of a 32-bit signed value as unsigned. */
  function ToUInt32(x: Int32): (r: int)
    ensures 0 <= r < 0x1_0000_0000
    ensures x >= 0 ==> r == x
    ensures x < 0 ==> r == x + 0x1_0000_0000
  {
    x % 0x1_0000_0000
  }

  /** `(uint)current * 2` in unchecked uint arithmetic, then `Math.Min(int.MaxValue, _)`. */
  function DoubledSaturated(current: Int32): (r: Int32)
    ensures 0 <= r
  {
    var doubled := ToUInt32(current) * 2 % 0x1_0000_0000;
    if doubled < MaxInt32 then doubled else MaxInt32
  }

  /** TryGetNewCapacity(currentCapacity, desiredCapacity, out newCapacity). */
  function TryGetNewCapacity(current: Int32, desired: Int32): (g: Growth)
    ensures g.grow <==> desired > current
    ensures g.grow ==> g.newCapacity >= desired && g.newCapacity > current
    ensures !g.grow ==> g.newCapacity == current
  {
    if desired > current then
      var capped := DoubledSaturated(current);
      Growth(true, if capped < desired then desired else capped)
    else
      Growth(false, current)
  }

  /** The value the policy computes when growth is needed, stated in plain integers. */
  function Max(a: int, b: int): int { if a < b then b else a }
  function Min(a: int, b: int): int { if a < b then a else b }

  /**
   * For a non-negative current capacity the unsigned doubling cannot wrap: the new
   * capacity is exactly max(desired, min(int.MaxValue, 2 * current)).
   */
  lemma DoublingIsExact(current: Int32, desired: Int32)
    requires 0 <= current < desired
    ensures TryGetNewCapacity(current, desired).newCapacity == Max(desired, Min(MaxInt32, 2 * current))
  {
    assert ToUInt32(current) * 2 < 0x1_0000_0000;
  }

  /** Growth at least doubles a non-empty capacity (up to int.MaxValue), which bounds reallocations. */
  lemma GrowthAtLeastDoubles(current: Int32, desired: Int32)
    requires 0 <= current < desired
    ensures TryGetNewCapacity(current, desired).newCapacity >= Min(MaxInt32, 2 * current)
  {
    DoublingIsExact(current, desired);
  }

  /** Asking twice for the same capacity grows at most once. */
  lemma GrowthIsIdempotent(current: Int32, desired: Int32)
    ensures var g := TryGetNewCapacity(current, desired);
            !TryGetNewCapacity(g.newCapacity, desired).grow
  {
  }
}
