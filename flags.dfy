/**
 * Bit-flag tests on masks of 8, 16, 32 and 64 bits. C# promotes `byte`, `short` and `ushort`
 * operands of `&` to `int`; zero- and sign-extension copy the same bits into both operands, so
 * the test comes out as on the narrow type itself, which is how it is written here. A signed
 * and an unsigned type of the same width test the same bit patterns and share one predicate.
 */
module Bits {
  /** Bit `i` of a 32-bit mask. */
  predicate Bit(x: bv32, i: bv5)
  {
    x & (1 << i) != 0
  }

  /** A bit of `x & y` is set exactly when it is set in both. */
  lemma AndBit(x: bv32, y: bv32, i: bv5)
    ensures Bit(x & y, i) <==> Bit(x, i) && Bit(y, i)
  {
  }

  /** No bit of 0 is set. */
  lemma NoBitOfZero(i: bv5)
    ensures !Bit(0, i)
  {
  }

  /** Two masks with the same bits are equal. */
  lemma BitsDetermine(x: bv32, y: bv32)
    requires forall i: bv5 :: Bit(x, i) == Bit(y, i)
    ensures x == y
  {
    EachBitAgrees(x, y);
  }

  /** `BitsDetermine` with the 32 bits spelled out. */
  lemma EachBitAgrees(x: bv32, y: bv32)
    requires Bit(x, 0) == Bit(y, 0) && Bit(x, 1) == Bit(y, 1) && Bit(x, 2) == Bit(y, 2) && Bit(x, 3) == Bit(y, 3) &&
      Bit(x, 4) == Bit(y, 4) && Bit(x, 5) == Bit(y, 5) && Bit(x, 6) == Bit(y, 6) && Bit(x, 7) == Bit(y, 7) &&
      Bit(x, 8) == Bit(y, 8) && Bit(x, 9) == Bit(y, 9) && Bit(x, 10) == Bit(y, 10) && Bit(x, 11) == Bit(y, 11) &&
      Bit(x, 12) == Bit(y, 12) && Bit(x, 13) == Bit(y, 13) && Bit(x, 14) == Bit(y, 14) && Bit(x, 15) == Bit(y, 15) &&
      Bit(x, 16) == Bit(y, 16) && Bit(x, 17) == Bit(y, 17) && Bit(x, 18) == Bit(y, 18) && Bit(x, 19) == Bit(y, 19) &&
      Bit(x, 20) == Bit(y, 20) && Bit(x, 21) == Bit(y, 21) && Bit(x, 22) == Bit(y, 22) && Bit(x, 23) == Bit(y, 23) &&
      Bit(x, 24) == Bit(y, 24) && Bit(x, 25) == Bit(y, 25) && Bit(x, 26) == Bit(y, 26) && Bit(x, 27) == Bit(y, 27) &&
      Bit(x, 28) == Bit(y, 28) && Bit(x, 29) == Bit(y, 29) && Bit(x, 30) == Bit(y, 30) && Bit(x, 31) == Bit(y, 31)
    ensures x == y
  {
  }
}

/**
 * `FlagUtils.HasFlag(mask, flag)`: `(mask & flag) == flag`, every bit of the flag is set in the
 * mask.
 */
module FlagUtils {
  import opened Bits

  /** The `int` and `uint` overloads. */
  function HasFlag(mask: bv32, flag: bv32): (r: bool)
    ensures r <==> flag & !mask == 0
    ensures r ==> flag <= mask
  {
    mask & flag == flag
  }

  /** The `long` and `ulong` overloads. */
  function HasFlagLong(mask: bv64, flag: bv64): (r: bool)
    ensures r <==> flag & !mask == 0
    ensures r ==> flag <= mask
  {
    mask & flag == flag
  }

  /** The `byte` overload. */
  function HasFlagByte(mask: bv8, flag: bv8): (r: bool)
    ensures r <==> flag & !mask == 0
    ensures r ==> flag <= mask
  {
    mask & flag == flag
  }

  /** The `short` and `ushort` overloads. */
  function HasFlagShort(mask: bv16, flag: bv16): (r: bool)
    ensures r <==> flag & !mask == 0
    ensures r ==> flag <= mask
  {
    mask & flag == flag
  }

  /** The flag's bits are all set in the mask, bit by bit. */
  lemma HasFlagBitwise(mask: bv32, flag: bv32)
    ensures HasFlag(mask, flag) <==> forall i: bv5 :: Bit(flag, i) ==> Bit(mask, i)
  {
    forall i: bv5
      ensures Bit(mask & flag, i) == (Bit(mask, i) && Bit(flag, i))
    {
      AndBit(mask, flag, i);
    }
    if forall i: bv5 :: Bit(flag, i) ==> Bit(mask, i) {
      BitsDetermine(mask & flag, flag);
    }
  }

  /** The empty flag and the mask itself are always contained. */
  lemma HasEmptyAndSelf(mask: bv32)
    ensures HasFlag(mask, 0) && HasFlag(mask, mask)
  {
  }

  /** Containment is transitive: a mask that has `flag` has every flag whose bits lie in `flag`. */
  lemma HasFlagTransitive(mask: bv32, flag: bv32, sub: bv32)
    requires HasFlag(mask, flag) && HasFlag(flag, sub)
    ensures HasFlag(mask, sub)
  {
    assert mask & sub == mask & (flag & sub) == (mask & flag) & sub;
  }
}

/**
 * `BitmaskExtensions.HasFlag(mask, flag)`: `(mask & flag) != 0`, the mask and the flag share a
 * set bit. For a one-bit flag this agrees with `FlagUtils.HasFlag`; for a wider flag it does not.
 */
module BitmaskExtensions {
  import opened Bits
  import FlagUtils

  /** The `int` and `uint` overloads. */
  function HasFlag(mask: bv32, flag: bv32): (r: bool)
    ensures r ==> mask != 0 && flag != 0
    ensures flag != 0 && FlagUtils.HasFlag(mask, flag) ==> r
  {
    mask & flag != 0
  }

  /** The `long` and `ulong` overloads. */
  function HasFlagLong(mask: bv64, flag: bv64): (r: bool)
    ensures r ==> mask != 0 && flag != 0
    ensures flag != 0 && FlagUtils.HasFlagLong(mask, flag) ==> r
  {
    mask & flag != 0
  }

  /** The `byte` overload. */
  function HasFlagByte(mask: bv8, flag: bv8): (r: bool)
    ensures r ==> mask != 0 && flag != 0
    ensures flag != 0 && FlagUtils.HasFlagByte(mask, flag) ==> r
  {
    mask & flag != 0
  }

  /** The `short` and `ushort` overloads. */
  function HasFlagShort(mask: bv16, flag: bv16): (r: bool)
    ensures r ==> mask != 0 && flag != 0
    ensures flag != 0 && FlagUtils.HasFlagShort(mask, flag) ==> r
  {
    mask & flag != 0
  }

  /** Some bit is set in both, bit by bit. */
  lemma HasFlagBitwise(mask: bv32, flag: bv32)
    ensures HasFlag(mask, flag) <==> exists i: bv5 :: Bit(flag, i) && Bit(mask, i)
  {
    forall i: bv5
      ensures Bit(mask & flag, i) == (Bit(mask, i) && Bit(flag, i)) && !Bit(0, i)
    {
      AndBit(mask, flag, i);
      NoBitOfZero(i);
    }
    if !exists i: bv5 :: Bit(flag, i) && Bit(mask, i) {
      BitsDetermine(mask & flag, 0);
    }
  }

  /** Nothing shares a bit with 0; the test is symmetric; a mask has itself unless it is 0. */
  lemma HasFlagBasics(mask: bv32, flag: bv32)
    ensures !HasFlag(mask, 0) && !HasFlag(0, flag)
    ensures HasFlag(mask, flag) == HasFlag(flag, mask)
    ensures HasFlag(mask, mask) <==> mask != 0
  {
  }


  /** Having all of a non-empty flag implies having any of it, and for a one-bit flag the two
      tests agree; the flag 3 shows they differ for a wider flag. */
  lemma AllAndAny(mask: bv32, flag: bv32, k: bv5)
    ensures flag != 0 && FlagUtils.HasFlag(mask, flag) ==> HasFlag(mask, flag)
    ensures FlagUtils.HasFlag(mask, 1 << k) <==> HasFlag(mask, 1 << k)
    ensures HasFlag(1, 3) && !FlagUtils.HasFlag(1, 3)
  {
  }
}
