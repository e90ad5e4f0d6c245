/**
 * Value-level meaning of the list operations shared by every growable list:
 * the live contents of a list are a sequence, and each structural operation is
 * a function on that sequence.
 */
module ListSpec {

  /** The elements of `s` that satisfy `p`, in their original order. */
  function Filter<T>(s: seq<T>, p: T -> bool): (r: seq<T>)
    ensures |r| <= |s|
    ensures forall k :: 0 <= k < |r| ==> p(r[k])
  {
    if s == [] then [] else (if p(s[0]) then [s[0]] else []) + Filter(s[1..], p)
  }

  lemma {:induction false} FilterAppend<T>(a: seq<T>, b: seq<T>, p: T -> bool)
    ensures Filter(a + b, p) == Filter(a, p) + Filter(b, p)
  {
    if a == [] {
      assert a + b == b;
    } else {
      assert (a + b)[1..] == a[1..] + b;
      FilterAppend(a[1..], b, p);
    }
  }

  /** Filtering keeps exactly the elements that satisfy the predicate. */
  lemma {:induction false} FilterMembers<T>(s: seq<T>, p: T -> bool, x: T)
    ensures x in Filter(s, p) <==> x in s && p(x)
  {
    if s != [] {
      FilterMembers(s[1..], p, x);
      assert s == [s[0]] + s[1..];
    }
  }

  /** A filter that rejects nothing is the identity. */
  lemma {:induction false} FilterAll<T>(s: seq<T>, p: T -> bool)
    requires forall k :: 0 <= k < |s| ==> p(s[k])
    ensures Filter(s, p) == s
  {
    if s != [] {
      FilterAll(s[1..], p);
    }
  }

  /** Filtering a prefix one element longer appends that element when it passes. */
  lemma FilterPrefixStep<T>(s: seq<T>, c: nat, p: T -> bool)
    requires c < |s|
    ensures Filter(s[..c + 1], p) == Filter(s[..c], p) + (if p(s[c]) then [s[c]] else [])
  {
    assert s[..c + 1] == s[..c] + [s[c]];
    FilterAppend(s[..c], [s[c]], p);
  }

  /** The complement of a predicate (`!match(x)`). */
  function Not<T>(p: T -> bool): T -> bool
  {
    x => !p(x)
  }

  /** Filtering by a predicate and by its complement splits the multiset of `s`. */
  lemma {:induction false} FilterSplitsMultiset<T>(s: seq<T>, p: T -> bool)
    ensures multiset(Filter(s, p)) + multiset(Filter(s, Not(p))) == multiset(s)
  {
    if s != [] {
      FilterSplitsMultiset(s[1..], p);
      assert Filter(s, p) == (if p(s[0]) then [s[0]] else []) + Filter(s[1..], p);
      assert Filter(s, Not(p)) == (if !p(s[0]) then [s[0]] else []) + Filter(s[1..], Not(p));
      assert s == [s[0]] + s[1..];
    }
  }

  /** Number of elements of `s` satisfying `p`. */
  function CountWhere<T>(s: seq<T>, p: T -> bool): nat
  {
    |Filter(s, p)|
  }

  /** Removing the matches removes exactly as many elements as match. */
  lemma {:induction false} RemovedCount<T>(s: seq<T>, p: T -> bool)
    ensures |s| - |Filter(s, Not(p))| == CountWhere(s, p)
  {
    if s != [] {
      RemovedCount(s[1..], p);
      assert Filter(s, Not(p)) == (if !p(s[0]) then [s[0]] else []) + Filter(s[1..], Not(p));
    }
  }

  /** `s` with `x` placed at position `i` and the tail `s[i..]` shifted right by one. */
  function InsertAt<T>(s: seq<T>, i: nat, x: T): (r: seq<T>)
    requires i <= |s|
    ensures |r| == |s| + 1 && r[i] == x
    ensures forall k :: 0 <= k < i ==> r[k] == s[k]
    ensures forall k :: i < k < |r| ==> r[k] == s[k - 1]
  {
    s[..i] + [x] + s[i..]
  }

  /** `s` without position `i`; the tail `s[i+1..]` shifts left by one. */
  function RemoveAt<T>(s: seq<T>, i: nat): (r: seq<T>)
    requires i < |s|
    ensures |r| == |s| - 1
    ensures forall k :: 0 <= k < i ==> r[k] == s[k]
    ensures forall k :: i <= k < |r| ==> r[k] == s[k + 1]
  {
    s[..i] + s[i + 1..]
  }

  /** `s` without the `n` positions starting at `i`. */
  function RemoveRange<T>(s: seq<T>, i: nat, n: nat): (r: seq<T>)
    requires i + n <= |s|
    ensures |r| == |s| - n
    ensures forall k :: 0 <= k < i ==> r[k] == s[k]
    ensures forall k :: i <= k < |r| ==> r[k] == s[k + n]
  {
    s[..i] + s[i + n..]
  }

  /** Removing the inserted position gives the original back. */
  lemma RemoveAtInsertAt<T>(s: seq<T>, i: nat, x: T)
    requires i <= |s|
    ensures RemoveAt(InsertAt(s, i, x), i) == s
  {
    assert RemoveAt(InsertAt(s, i, x), i) == s[..i] + s[i..];
    assert s[..i] + s[i..] == s;
  }

  /** Removing one position is removing a range of length one. */
  lemma RemoveRangeOne<T>(s: seq<T>, i: nat)
    requires i < |s|
    ensures RemoveRange(s, i, 1) == RemoveAt(s, i)
  {
  }

  /** Appending is inserting at the end. */
  lemma AppendIsInsertAtEnd<T>(s: seq<T>, x: T)
    ensures InsertAt(s, |s|, x) == s + [x]
  {
    assert s[..|s|] == s;
  }

  /** Index of the first element of `s` equal to `x`, or -1 (Array.IndexOf). */
  function FirstIndex<T(==)>(s: seq<T>, x: T): (r: int)
    ensures -1 <= r < |s|
    ensures r >= 0 ==> s[r] == x && forall k :: 0 <= k < r ==> s[k] != x
    ensures r < 0 <==> x !in s
  {
    if s == [] then -1
    else if s[0] == x then 0
    else var t := FirstIndex(s[1..], x); if t < 0 then -1 else t + 1
  }

  /** `Array.IndexOf(array, x, start, n - start)` on the first `n` elements: absolute index of the first `x` at or after `start`, or -1. */
  function IndexFrom<T(==)>(s: seq<T>, x: T, start: nat): (r: int)
    requires start <= |s|
    ensures r == -1 || start <= r < |s|
    ensures r >= 0 ==> s[r] == x && forall k :: start <= k < r ==> s[k] != x
    ensures r < 0 <==> x !in s[start..]
  {
    var i := FirstIndex(s[start..], x);
    if i < 0 then -1 else start + i
  }

  /** `List.Remove`: drops the first occurrence of `x`, if any. */
  function RemoveFirst<T(==)>(s: seq<T>, x: T): (r: seq<T>)
  {
    var i := FirstIndex(s, x);
    if i < 0 then s else RemoveAt(s, i)
  }

  /** Removing the first occurrence removes exactly one copy of `x`. */
  lemma RemoveFirstMultiset<T>(s: seq<T>, x: T)
    ensures x in s ==> multiset(RemoveFirst(s, x)) == multiset(s) - multiset{x}
    ensures x !in s ==> RemoveFirst(s, x) == s
  {
    var i := FirstIndex(s, x);
    if i >= 0 {
      assert s == s[..i] + [x] + s[i + 1..];
      calc {
        multiset(s);
        multiset(s[..i]) + multiset{x} + multiset(s[i + 1..]);
        multiset(RemoveAt(s, i)) + multiset{x};
      }
    }
  }

  /** A sequence of `n` zeroes: what `Array.Clear` leaves behind. */
  function Zeros(n: nat): (r: seq<int>)
    ensures |r| == n && forall k :: 0 <= k < n ==> r[k] == 0
  {
    seq(n, _ => 0)
  }
}
