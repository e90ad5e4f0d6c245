/**
 * What the library's sorts promise. A comparer is modelled as a key projection: `Compare(x, y)`
 * is negative, zero or positive as `key(x)` is below, equal to or above `key(y)`, which is
 * what every consistent comparer amounts to on the values being sorted. A sort is correct when
 * its output is `SortedBy` the key and is a `StablePermutation` of its input: for every key,
 * the elements with that key appear in the same order as before. That implies it is a
 * permutation, and the sorted stable result is unique, so all the stable sorts agree.
 */
module SortSpec {

  /** `Comparer<int>.Default`. */
  function Identity(x: int): int { x }

  predicate SortedBy(s: seq<int>, key: int -> int)
  {
    forall i, j :: 0 <= i < j < |s| ==> key(s[i]) <= key(s[j])
  }

  /** The elements of `s` whose key is `k`, in order. */
  function KeyClass(s: seq<int>, key: int -> int, k: int): (r: seq<int>)
    ensures |r| <= |s|
  {
    if |s| == 0 then [] else (if key(s[0]) == k then [s[0]] else []) + KeyClass(s[1..], key, k)
  }

  /** `t` rearranges `s` keeping the relative order of elements with equal keys. */
  ghost predicate StablePermutation(s: seq<int>, t: seq<int>, key: int -> int)
  {
    forall k :: KeyClass(s, key, k) == KeyClass(t, key, k)
  }

  lemma {:induction false} KeyClassAppend(a: seq<int>, b: seq<int>, key: int -> int, k: int)
    ensures KeyClass(a + b, key, k) == KeyClass(a, key, k) + KeyClass(b, key, k)
    decreases |a|
  {
    if |a| > 0 {
      assert (a + b)[1..] == a[1..] + b;
      KeyClassAppend(a[1..], b, key, k);
    } else {
      assert a + b == b;
    }
  }

  lemma {:induction false} KeyClassNone(s: seq<int>, key: int -> int, k: int)
    requires forall i :: 0 <= i < |s| ==> key(s[i]) != k
    ensures KeyClass(s, key, k) == []
    decreases |s|
  {
    if |s| > 0 {
      KeyClassNone(s[1..], key, k);
    }
  }

  /** The first element of `t` with key `k` heads that key class; nothing before it has key `k`. */
  lemma {:induction false} FirstOfKey(t: seq<int>, key: int -> int, k: int) returns (p: nat)
    requires KeyClass(t, key, k) != []
    ensures p < |t| && key(t[p]) == k && KeyClass(t[..p], key, k) == []
    ensures KeyClass(t, key, k) == [t[p]] + KeyClass(t[p + 1..], key, k)
    decreases |t|
  {
    if key(t[0]) == k {
      p := 0;
      assert t[..0] == [];
    } else {
      var q := FirstOfKey(t[1..], key, k);
      p := q + 1;
      assert t[1..][q + 1..] == t[p + 1..];
      assert t[..p] == [t[0]] + t[1..][..q];
      KeyClassAppend([t[0]], t[1..][..q], key, k);
    }
  }

  /** Removing the head of a key class from both sides keeps a stable permutation. */
  lemma RemoveHead(s: seq<int>, t: seq<int>, key: int -> int, p: nat)
    requires |s| > 0 && StablePermutation(s, t, key)
    requires p < |t| && t[p] == s[0] && KeyClass(t[..p], key, key(s[0])) == []
    ensures StablePermutation(s[1..], t[..p] + t[p + 1..], key)
  {
    var x := s[0];
    assert t == t[..p] + [x] + t[p + 1..];
    forall k
      ensures KeyClass(s[1..], key, k) == KeyClass(t[..p] + t[p + 1..], key, k)
    {
      KeyClassAppend(t[..p], t[p + 1..], key, k);
      KeyClassAppend(t[..p] + [x], t[p + 1..], key, k);
      KeyClassAppend(t[..p], [x], key, k);
      assert [x][1..] == [];
      assert KeyClass([x], key, k) == if key(x) == k then [x] else [];
      assert KeyClass(s, key, k) == KeyClass([x], key, k) + KeyClass(s[1..], key, k);
      assert KeyClass(t, key, k) == KeyClass(t[..p], key, k) + KeyClass([x], key, k) + KeyClass(t[p + 1..], key, k);
      assert KeyClass(s, key, k) == KeyClass(t, key, k);
      if k == key(x) {
        assert KeyClass(t[..p], key, k) == [];
        assert KeyClass(s[1..], key, k) == KeyClass(s, key, k)[1..];
        assert KeyClass(t[p + 1..], key, k) == KeyClass(t, key, k)[1..];
      } else {
        assert KeyClass([x], key, k) == [];
        assert KeyClass(s[1..], key, k) == KeyClass(s, key, k);
      }
    }
  }

  /** The first element of `s` is the first element of `t` with the same key. */
  lemma HeadsOfKeyClassAgree(s: seq<int>, t: seq<int>, key: int -> int, p: nat)
    requires |s| > 0 && StablePermutation(s, t, key)
    requires p < |t| && KeyClass(t, key, key(s[0])) == [t[p]] + KeyClass(t[p + 1..], key, key(s[0]))
    ensures t[p] == s[0]
  {
    var k := key(s[0]);
    assert KeyClass(s, key, k) == [s[0]] + KeyClass(s[1..], key, k);
    assert KeyClass(s, key, k) == KeyClass(t, key, k);
    assert KeyClass(s, key, k)[0] == s[0];
    assert KeyClass(t, key, k)[0] == t[p];
  }

  /** Where the head of `s` sits in `t`: the first element of `t` with its key. */
  lemma HeadPosition(s: seq<int>, t: seq<int>, key: int -> int) returns (p: nat)
    requires |s| > 0 && StablePermutation(s, t, key)
    ensures p < |t| && t[p] == s[0] && KeyClass(t[..p], key, key(s[0])) == []
  {
    assert KeyClass(s, key, key(s[0])) == [s[0]] + KeyClass(s[1..], key, key(s[0]));
    assert KeyClass(s, key, key(s[0])) == KeyClass(t, key, key(s[0]));
    p := FirstOfKey(t, key, key(s[0]));
    HeadsOfKeyClassAgree(s, t, key, p);
  }

  /** Only an empty sequence is a stable permutation of the empty sequence. */
  lemma StableEmpty(s: seq<int>, t: seq<int>, key: int -> int)
    requires |s| == 0 && StablePermutation(s, t, key)
    ensures |t| == 0
  {
    if |t| > 0 {
      KeyClassOfHead(t, key);
      assert false;
    }
  }

  lemma KeyClassOfHead(t: seq<int>, key: int -> int)
    requires |t| > 0
    ensures KeyClass(t, key, key(t[0])) != []
  {
  }

  lemma MultisetRemoveAt(t: seq<int>, p: nat)
    requires p < |t|
    ensures multiset(t) == multiset(t[..p] + t[p + 1..]) + multiset{t[p]}
  {
    assert t == t[..p] + [t[p]] + t[p + 1..];
  }

  lemma MultisetAddBack(s: seq<int>, t: seq<int>, p: nat)
    requires |s| > 0 && p < |t| && t[p] == s[0] && multiset(s[1..]) == multiset(t[..p] + t[p + 1..])
    ensures multiset(s) == multiset(t)
  {
    MultisetRemoveAt(s, 0);
    assert s[..0] + s[1..] == s[1..];
    MultisetRemoveAt(t, p);
  }

  /** A stable permutation is a permutation. */
  lemma {:induction false} StableIsPermutation(s: seq<int>, t: seq<int>, key: int -> int)
    requires StablePermutation(s, t, key)
    ensures multiset(s) == multiset(t)
    decreases |s|
  {
    if |s| == 0 {
      StableEmpty(s, t, key);
    } else {
      var p := HeadPosition(s, t, key);
      RemoveHead(s, t, key, p);
      StableIsPermutation(s[1..], t[..p] + t[p + 1..], key);
      MultisetAddBack(s, t, p);
    }
  }

  /** The sorted stable rearrangement of a sequence is unique. */
  lemma {:induction false} SortedStableUnique(s: seq<int>, t: seq<int>, key: int -> int)
    requires SortedBy(s, key) && SortedBy(t, key) && StablePermutation(s, t, key)
    ensures s == t
    decreases |s|
  {
    if |s| == 0 {
      StableEmpty(s, t, key);
    } else {
      var p := HeadPosition(s, t, key);
      SortedHeadFirst(s, t, key, p);
      RemoveHead(s, t, key, p);
      assert t[..0] + t[1..] == t[1..];
      SortedStableUnique(s[1..], t[1..], key);
      assert s == [s[0]] + s[1..] && t == [t[0]] + t[1..];
    }
  }

  /** In two sorted stable rearrangements of each other, the head of one is the head of the other. */
  lemma SortedHeadFirst(s: seq<int>, t: seq<int>, key: int -> int, p: nat)
    requires SortedBy(s, key) && SortedBy(t, key) && StablePermutation(s, t, key)
    requires |s| > 0 && p < |t| && t[p] == s[0] && KeyClass(t[..p], key, key(s[0])) == []
    ensures p == 0
  {
    if p > 0 {
      var k := key(t[0]);
      assert k != key(s[0]) by {
        assert t[..p] == [t[0]] + t[1..p];
        KeyClassAppend([t[0]], t[1..p], key, key(s[0]));
      }
      assert k < key(s[0]) by {
        assert key(t[0]) <= key(t[p]);
      }
      assert KeyClass(t, key, k) != [];
      assert KeyClass(s, key, k) == KeyClass(t, key, k);
      var q := FirstOfKey(s, key, k);
    }
  }

  lemma StablePermutationTrans(a: seq<int>, b: seq<int>, c: seq<int>, key: int -> int)
    requires StablePermutation(a, b, key) && StablePermutation(b, c, key)
    ensures StablePermutation(a, c, key)
  {
  }

  lemma StablePermutationAppend(a: seq<int>, b: seq<int>, c: seq<int>, d: seq<int>, key: int -> int)
    requires StablePermutation(a, b, key) && StablePermutation(c, d, key)
    ensures StablePermutation(a + c, b + d, key)
  {
    forall k
      ensures KeyClass(a + c, key, k) == KeyClass(b + d, key, k)
    {
      KeyClassAppend(a, c, key, k);
      KeyClassAppend(b, d, key, k);
    }
  }

  /** A slice of a slice is a slice. */
  lemma SliceOfSlice(s: seq<int>, i: int, j: int, k: int, l: int)
    requires 0 <= i <= j <= |s| && 0 <= k <= l <= j - i
    ensures s[i..j][k..l] == s[i + k..i + l]
  {
    forall m | 0 <= m < l - k
      ensures s[i..j][k..l][m] == s[i + k..i + l][m]
    {
    }
  }

  /** A stable rearrangement of the window [i, j) of `s` is a stable rearrangement of all of `s`. */
  lemma StableSplice(s: seq<int>, t: seq<int>, i: int, j: int, key: int -> int)
    requires 0 <= i <= j <= |s| == |t|
    requires s[..i] == t[..i] && s[j..] == t[j..] && StablePermutation(s[i..j], t[i..j], key)
    ensures StablePermutation(s, t, key)
  {
    assert s == s[..i] + s[i..j] + s[j..];
    assert t == t[..i] + t[i..j] + t[j..];
    StablePermutationAppend(s[..i], t[..i], s[i..j], t[i..j], key);
    StablePermutationAppend(s[..i] + s[i..j], t[..i] + t[i..j], s[j..], t[j..], key);
  }

  /** Moving `x` in front of elements with greater keys keeps every key class. */
  lemma MovePastGreater(p: seq<int>, m: seq<int>, x: int, key: int -> int)
    requires forall i :: 0 <= i < |m| ==> key(m[i]) > key(x)
    ensures StablePermutation(p + m + [x], p + [x] + m, key)
  {
    forall k
      ensures KeyClass(p + m + [x], key, k) == KeyClass(p + [x] + m, key, k)
    {
      KeyClassAppend(p + m, [x], key, k);
      KeyClassAppend(p, m, key, k);
      KeyClassAppend(p + [x], m, key, k);
      KeyClassAppend(p, [x], key, k);
      if k == key(x) {
        KeyClassNone(m, key, k);
      }
    }
  }

  // ---------------------------------------------------------------------------------------
  // Merging two runs, taking from the left run on ties.

  function Merge(l: seq<int>, r: seq<int>, key: int -> int): (m: seq<int>)
    ensures |m| == |l| + |r|
    decreases |l| + |r|
  {
    if |l| == 0 then r
    else if |r| == 0 then l
    else if key(l[0]) <= key(r[0]) then [l[0]] + Merge(l[1..], r, key)
    else [r[0]] + Merge(l, r[1..], key)
  }

  lemma {:induction false} MergeMembers(l: seq<int>, r: seq<int>, key: int -> int)
    ensures multiset(Merge(l, r, key)) == multiset(l + r)
    decreases |l| + |r|
  {
    if |l| > 0 && |r| > 0 {
      if key(l[0]) <= key(r[0]) {
        MergeMembers(l[1..], r, key);
        assert l + r == [l[0]] + (l[1..] + r);
      } else {
        MergeMembers(l, r[1..], key);
        assert r == [r[0]] + r[1..];
      }
    } else if |l| == 0 {
      assert l + r == r;
    } else {
      assert l + r == l;
    }
  }

  /** Every element of a merge is bounded below by the smaller head. */
  lemma MergeLowerBound(l: seq<int>, r: seq<int>, key: int -> int, b: int)
    requires SortedBy(l, key) && SortedBy(r, key)
    requires (|l| > 0 ==> b <= key(l[0])) && (|r| > 0 ==> b <= key(r[0]))
    ensures forall i :: 0 <= i < |Merge(l, r, key)| ==> b <= key(Merge(l, r, key)[i])
  {
    MergeMembers(l, r, key);
    forall i | 0 <= i < |Merge(l, r, key)|
      ensures b <= key(Merge(l, r, key)[i])
    {
      var y := Merge(l, r, key)[i];
      assert y in multiset(l + r);
      assert y in l + r;
      if y in l {
        var t :| 0 <= t < |l| && l[t] == y;
        assert key(l[0]) <= key(l[t]);
      } else {
        var t :| 0 <= t < |r| && r[t] == y;
        assert key(r[0]) <= key(r[t]);
      }
    }
  }

  /** Merging two sorted runs gives a sorted run. */
  lemma {:induction false} MergeSorted(l: seq<int>, r: seq<int>, key: int -> int)
    requires SortedBy(l, key) && SortedBy(r, key)
    ensures SortedBy(Merge(l, r, key), key)
    decreases |l| + |r|
  {
    if |l| > 0 && |r| > 0 {
      if key(l[0]) <= key(r[0]) {
        MergeSorted(l[1..], r, key);
        MergeLowerBound(l[1..], r, key, key(l[0]));
      } else {
        MergeSorted(l, r[1..], key);
        MergeLowerBound(l, r[1..], key, key(r[0]));
      }
    }
  }

  /** Merging takes equal keys from the left run first: each key class of the merge is the left
      run's followed by the right run's. */
  lemma {:induction false} MergeKeyClass(l: seq<int>, r: seq<int>, key: int -> int, k: int)
    requires SortedBy(l, key)
    ensures KeyClass(Merge(l, r, key), key, k) == KeyClass(l, key, k) + KeyClass(r, key, k)
    decreases |l| + |r|
  {
    if |l| > 0 && |r| > 0 {
      if key(l[0]) <= key(r[0]) {
        MergeKeyClass(l[1..], r, key, k);
        KeyClassAppend([l[0]], Merge(l[1..], r, key), key, k);
      } else {
        MergeKeyClass(l, r[1..], key, k);
        KeyClassAppend([r[0]], Merge(l, r[1..], key), key, k);
        if key(r[0]) == k {
          SortedAboveKey(l, key, k);
        }
      }
    }
  }

  /** A run sorted by key whose head's key is above `k` has no element of key `k`. */
  lemma SortedAboveKey(l: seq<int>, key: int -> int, k: int)
    requires SortedBy(l, key) && |l| > 0 && k < key(l[0])
    ensures KeyClass(l, key, k) == []
  {
    forall i | 0 <= i < |l|
      ensures key(l[i]) != k
    {
      assert key(l[0]) <= key(l[i]);
    }
    KeyClassNone(l, key, k);
  }

  /** Merging two sorted runs is a stable sort of their concatenation. */
  lemma MergeIsStableSort(l: seq<int>, r: seq<int>, key: int -> int)
    requires SortedBy(l, key) && SortedBy(r, key)
    ensures SortedBy(Merge(l, r, key), key)
    ensures StablePermutation(l + r, Merge(l, r, key), key)
  {
    MergeSorted(l, r, key);
    forall k
      ensures KeyClass(l + r, key, k) == KeyClass(Merge(l, r, key), key, k)
    {
      KeyClassAppend(l, r, key, k);
      MergeKeyClass(l, r, key, k);
    }
  }

  /** The step of every merge sort: two halves sorted stably, then merged, sort the whole stably. */
  lemma MergeSortedHalves(l0: seq<int>, r0: seq<int>, l: seq<int>, r: seq<int>, key: int -> int)
    requires SortedBy(l, key) && SortedBy(r, key)
    requires StablePermutation(l0, l, key) && StablePermutation(r0, r, key)
    ensures SortedBy(Merge(l, r, key), key)
    ensures StablePermutation(l0 + r0, Merge(l, r, key), key)
  {
    MergeIsStableSort(l, r, key);
    StablePermutationAppend(l0, l, r0, r, key);
    StablePermutationTrans(l0 + r0, l + r, Merge(l, r, key), key);
  }

  /** `t` agrees with `o` everywhere outside the window `[lo, hi)`. */
  ghost predicate SameOutside(o: seq<int>, t: seq<int>, lo: int, hi: int)
  {
    |o| == |t| && forall x :: 0 <= x < |t| && (x < lo || hi <= x) ==> t[x] == o[x]
  }

  /** `t` holds the window `[lo, hi)` of `o` stably rearranged, and the rest of `o` unchanged. */
  ghost predicate RearrangesWindow(o: seq<int>, t: seq<int>, lo: int, hi: int, key: int -> int)
  {
    0 <= lo <= hi <= |o| == |t| && StablePermutation(o[lo..hi], t[lo..hi], key) && SameOutside(o, t, lo, hi)
  }

  /** `t` is `o` with the window `[lo, hi)` sorted stably and nothing outside it changed: what
      every sort of the library promises for the window it is given. */
  ghost predicate SortsWindow(o: seq<int>, t: seq<int>, lo: int, hi: int, key: int -> int)
  {
    RearrangesWindow(o, t, lo, hi, key) && SortedBy(t[lo..hi], key)
  }

  /** Rearranging a piece `[x, y)` of the window `[lo, hi)` stably, after rearranging the whole
      window, is a stable rearrangement of the window. */
  lemma RearrangesWithin(o: seq<int>, s: seq<int>, t: seq<int>, lo: int, hi: int, x: int, y: int, key: int -> int)
    requires RearrangesWindow(o, s, lo, hi, key) && lo <= x <= y <= hi && RearrangesWindow(s, t, x, y, key)
    ensures RearrangesWindow(o, t, lo, hi, key)
  {
    var sw, tw := s[lo..hi], t[lo..hi];
    forall i | 0 <= i < x - lo || y - lo <= i < hi - lo
      ensures sw[i] == tw[i]
    {
      assert sw[i] == s[lo + i] && tw[i] == t[lo + i];
    }
    assert sw[..x - lo] == tw[..x - lo];
    assert sw[y - lo..] == tw[y - lo..];
    SliceOfSlice(s, lo, hi, x - lo, y - lo);
    SliceOfSlice(t, lo, hi, x - lo, y - lo);
    StableSplice(sw, tw, x - lo, y - lo, key);
    StablePermutationTrans(o[lo..hi], sw, tw, key);
  }

  /** `t` is `s` with the adjacent runs `[lo, mid)` and `[mid, hi)` merged and nothing else
      changed. */
  ghost predicate MergesWindow(s: seq<int>, t: seq<int>, lo: int, mid: int, hi: int, key: int -> int)
  {
    0 <= lo <= mid <= hi <= |s| == |t| &&
    t[lo..hi] == Merge(s[lo..mid], s[mid..hi], key) && SameOutside(s, t, lo, hi)
  }

  // ---------------------------------------------------------------------------------------
  // One pass of insertion sort: element i moves left past the greater elements above `lo`.

  /** Where the shifting loop stops for `x`, scanning down from `j` but not below `lo`. */
  function ShiftStop(s: seq<int>, lo: int, j: int, x: int, key: int -> int): (r: int)
    requires 0 <= lo <= j <= |s|
    ensures lo <= r <= j
    ensures forall t :: r <= t < j ==> key(s[t]) > key(x)
    ensures r == lo || key(s[r - 1]) <= key(x)
    decreases j
  {
    if j > lo && key(s[j - 1]) > key(x) then ShiftStop(s, lo, j - 1, x, key) else j
  }

  /** `s` after moving `s[i]` down to where the shifting loop stops. */
  function InsertionPass(s: seq<int>, lo: int, i: int, key: int -> int): (t: seq<int>)
    requires 0 <= lo <= i < |s|
    ensures |t| == |s|
  {
    var j := ShiftStop(s, lo, i, s[i], key);
    s[..j] + [s[i]] + s[j..i] + s[i + 1..]
  }

  /** The passes for i = start, ..., stop - 1 in turn. */
  function InsertionPasses(s: seq<int>, lo: int, start: int, stop: int, key: int -> int): (t: seq<int>)
    requires 0 <= lo <= start && stop <= |s|
    ensures |t| == |s|
    decreases stop - start
  {
    if stop <= start then s
    else InsertionPass(InsertionPasses(s, lo, start, stop - 1, key), lo, stop - 1, key)
  }

  /** A sequence that holds `s` below `j`, `s[i]` at `j`, `s[j..i]` shifted up one and `s` above
      `i`, where `j` is the shifting loop's stop, is the pass. */
  lemma PassFromPieces(s: seq<int>, lo: int, i: int, j: int, u: seq<int>, key: int -> int)
    requires 0 <= lo <= i < |s| == |u| && j == ShiftStop(s, lo, i, s[i], key)
    requires forall t :: 0 <= t < j ==> u[t] == s[t]
    requires u[j] == s[i]
    requires forall t :: j < t <= i ==> u[t] == s[t - 1]
    requires forall t :: i < t < |u| ==> u[t] == s[t]
    ensures u == InsertionPass(s, lo, i, key)
  {
    var t := InsertionPass(s, lo, i, key);
    assert t == s[..j] + [s[i]] + s[j..i] + s[i + 1..];
    forall p | 0 <= p < |u|
      ensures u[p] == t[p]
    {
      if p < j {
        assert t[p] == s[..j][p];
      } else if p == j {
      } else if p <= i {
        assert t[p] == s[j..i][p - j - 1];
      } else {
        assert t[p] == s[i + 1..][p - i - 1];
      }
    }
  }

  /** With `[lo, i)` sorted, a pass leaves `[lo, i]` sorted, rearranges it stably and touches
      nothing outside it. */
  lemma InsertionPassSorts(s: seq<int>, lo: int, i: int, key: int -> int)
    requires 0 <= lo <= i < |s| && SortedBy(s[lo..i], key)
    ensures SortedBy(InsertionPass(s, lo, i, key)[lo..i + 1], key)
    ensures StablePermutation(s[lo..i + 1], InsertionPass(s, lo, i, key)[lo..i + 1], key)
    ensures InsertionPass(s, lo, i, key)[..lo] == s[..lo]
    ensures InsertionPass(s, lo, i, key)[i + 1..] == s[i + 1..]
  {
    var j := ShiftStop(s, lo, i, s[i], key);
    InsertionPassPieces(s, lo, i, j, key);
    var p, m := s[lo..j], s[j..i];
    assert s[lo..i] == p + m;
    MovePastGreater(p, m, s[i], key);
    SortedInsert(p, s[i], m, key);
  }

  /** The pass in pieces: below `lo`, the run up to `x`'s key, `x`, the greater run, above `i`. */
  lemma InsertionPassPieces(s: seq<int>, lo: int, i: int, j: int, key: int -> int)
    requires 0 <= lo <= i < |s| && j == ShiftStop(s, lo, i, s[i], key)
    ensures InsertionPass(s, lo, i, key)[lo..i + 1] == s[lo..j] + [s[i]] + s[j..i]
    ensures s[lo..i + 1] == s[lo..j] + s[j..i] + [s[i]]
    ensures InsertionPass(s, lo, i, key)[..lo] == s[..lo]
    ensures InsertionPass(s, lo, i, key)[i + 1..] == s[i + 1..]
    ensures j > lo ==> key(s[lo..j][j - lo - 1]) <= key(s[i])
    ensures forall t :: 0 <= t < |s[j..i]| ==> key(s[j..i][t]) > key(s[i])
  {
    var t := InsertionPass(s, lo, i, key);
    assert t == s[..j] + [s[i]] + s[j..i] + s[i + 1..];
  }

  /** Putting `x` between a sorted run's elements up to its key and those above it keeps it sorted. */
  lemma SortedInsert(p: seq<int>, x: int, m: seq<int>, key: int -> int)
    requires SortedBy(p + m, key)
    requires |p| > 0 ==> key(p[|p| - 1]) <= key(x)
    requires forall i :: 0 <= i < |m| ==> key(m[i]) > key(x)
    ensures SortedBy(p + [x] + m, key)
  {
    var u := p + [x] + m;
    forall a, b | 0 <= a < b < |u|
      ensures key(u[a]) <= key(u[b])
    {
      if b < |p| {
        assert u[a] == (p + m)[a] && u[b] == (p + m)[b];
      } else if a > |p| {
        assert u[a] == (p + m)[a - 1] && u[b] == (p + m)[b - 1];
      } else if b == |p| {
        assert u[a] == (p + m)[a] && (p + m)[|p| - 1] == p[|p| - 1];
      } else if a == |p| {
        assert u[b] == m[b - |p| - 1];
      } else {
        assert u[a] == (p + m)[a] && u[b] == (p + m)[b - 1];
      }
    }
  }

  /** One pass applied to `s`, itself a stable rearrangement of `o` sorted on `[lo, i)`: the
      result is sorted on `[lo, i]`, a stable rearrangement of `o` there, and `o` elsewhere. */
  lemma PassKeepsStable(o: seq<int>, s: seq<int>, lo: int, i: int, key: int -> int)
    requires 0 <= lo <= i < |o| == |s|
    requires SortedBy(s[lo..i], key) && StablePermutation(o[lo..i], s[lo..i], key)
    requires s[..lo] == o[..lo] && s[i..] == o[i..]
    ensures SortedBy(InsertionPass(s, lo, i, key)[lo..i + 1], key)
    ensures StablePermutation(o[lo..i + 1], InsertionPass(s, lo, i, key)[lo..i + 1], key)
    ensures InsertionPass(s, lo, i, key)[..lo] == o[..lo]
    ensures InsertionPass(s, lo, i, key)[i + 1..] == o[i + 1..]
  {
    InsertionPassSorts(s, lo, i, key);
    assert o[lo..i + 1] == o[lo..i] + [o[i]];
    assert s[lo..i + 1] == s[lo..i] + [s[i]];
    assert o[i] == s[i] by {
      assert o[i..][0] == o[i] && s[i..][0] == s[i];
    }
    StablePermutationAppend(o[lo..i], s[lo..i], [o[i]], [s[i]], key);
    StablePermutationTrans(o[lo..i + 1], s[lo..i + 1], InsertionPass(s, lo, i, key)[lo..i + 1], key);
    assert o[i + 1..] == o[i..][1..] && s[i + 1..] == s[i..][1..];
  }

  /** A pass over `s`, which sorts `[lo, i)` of `o`, sorts `[lo, i]` of `o`. */
  lemma PassExtendsSort(o: seq<int>, s: seq<int>, lo: int, i: int, key: int -> int)
    requires SortsWindow(o, s, lo, i, key) && i < |s|
    ensures SortsWindow(o, InsertionPass(s, lo, i, key), lo, i + 1, key)
  {
    var t := InsertionPass(s, lo, i, key);
    assert s[..lo] == o[..lo];
    assert s[i..] == o[i..];
    PassKeepsStable(o, s, lo, i, key);
    forall x | 0 <= x < |t| && (x < lo || i + 1 <= x)
      ensures t[x] == o[x]
    {
      if x < lo {
        assert t[..lo][x] == t[x] && o[..lo][x] == o[x];
      } else {
        assert t[i + 1..][x - i - 1] == t[x] && o[i + 1..][x - i - 1] == o[x];
      }
    }
  }

  /** With a sorted prefix, the upper bound of `x` in `[lo, i)` is where the shifting loop stops. */
  lemma {:induction false} UpperBoundIsShiftStop(s: seq<int>, lo: int, i: int, x: int, m: int, key: int -> int)
    requires 0 <= lo <= m <= i <= |s|
    requires forall t :: lo <= t < m ==> key(s[t]) <= key(x)
    requires forall t :: m <= t < i ==> key(x) < key(s[t])
    ensures ShiftStop(s, lo, i, x, key) == m
    decreases i
  {
    if i > m {
      UpperBoundIsShiftStop(s, lo, i - 1, x, m, key);
    }
  }

  // ---------------------------------------------------------------------------------------
  // Runs of a fixed size, for the bottom-up merge passes, stated on positions of one sequence.

  /** `s` is sorted by key between positions `i` and `j`. */
  ghost predicate SortedBetween(s: seq<int>, i: int, j: int, key: int -> int)
  {
    forall x, y :: i <= x < y < j && 0 <= x && y < |s| ==> key(s[x]) <= key(s[y])
  }

  /** `SortedBetween` is `SortedBy` on the slice. */
  lemma SortedBetweenSlice(s: seq<int>, i: int, j: int, key: int -> int)
    requires 0 <= i <= j <= |s|
    ensures SortedBetween(s, i, j, key) <==> SortedBy(s[i..j], key)
  {
    if SortedBy(s[i..j], key) {
      forall x, y | i <= x < y < j
        ensures key(s[x]) <= key(s[y])
      {
        assert s[x] == s[i..j][x - i] && s[y] == s[i..j][y - i];
      }
    }
  }

  /** `[i, j)` of `s`, cut into runs of `size` from `i` (the last may be shorter), has every
      run sorted. */
  ghost predicate RunsBetween(s: seq<int>, i: int, j: int, size: int, key: int -> int)
    requires size > 0
    decreases j - i
  {
    if j - i <= size then SortedBetween(s, i, j, key)
    else SortedBetween(s, i, i + size, key) && RunsBetween(s, i + size, j, size, key)
  }

  /** The length of `n` full runs of `size`, counted run by run. */
  function RunTotal(n: nat, size: int): (r: int)
    ensures size >= 0 ==> r >= 0
    ensures n > 0 && size > 0 ==> r >= size
  {
    if n == 0 then 0 else RunTotal(n - 1, size) + size
  }

  /** Runs depend only on the elements between their ends. */
  lemma {:induction false} RunsAgree(s: seq<int>, t: seq<int>, i: int, j: int, size: int, key: int -> int)
    requires size > 0 && RunsBetween(s, i, j, size, key)
    requires 0 <= i && j <= |s| == |t| && forall x :: i <= x < j ==> s[x] == t[x]
    ensures RunsBetween(t, i, j, size, key)
    decreases j - i
  {
    if j - i > size {
      RunsAgree(s, t, i + size, j, size, key);
    }
  }

  /** Merging the sorted runs `[p, m)` and `[m, q)` of `s` into `[p, q)` of `t` sorts that
      window of `t` stably. */
  lemma MergedBetween(s: seq<int>, t: seq<int>, p: int, m: int, q: int, key: int -> int)
    requires 0 <= p <= m <= q <= |s| == |t|
    requires SortedBetween(s, p, m, key) && SortedBetween(s, m, q, key)
    requires t[p..q] == Merge(s[p..m], s[m..q], key)
    ensures SortedBetween(t, p, q, key) && StablePermutation(s[p..q], t[p..q], key)
  {
    SortedBetweenSlice(s, p, m, key);
    SortedBetweenSlice(s, m, q, key);
    MergeIsStableSort(s[p..m], s[m..q], key);
    assert s[p..m] + s[m..q] == s[p..q];
    SortedBetweenSlice(t, p, q, key);
  }

  /** Appending one sorted run of at most `size` after `n` full runs. */
  lemma {:induction false} RunsAppend(s: seq<int>, i: int, j: int, k: int, size: int, n: nat, key: int -> int)
    requires size > 0 && j - i == RunTotal(n, size) && j <= k <= j + size
    requires RunsBetween(s, i, j, size, key) && SortedBetween(s, j, k, key)
    ensures RunsBetween(s, i, k, size, key)
    decreases n
  {
    if n > 0 && k > j {
      if j - i > size {
        RunsAppend(s, i + size, j, k, size, n - 1, key);
      } else {
        assert RunsBetween(s, i + size, k, size, key);
      }
    }
  }

  /** The first two runs are sorted and the runs after them are still runs. */
  lemma RunsSplit(s: seq<int>, i: int, j: int, size: int, key: int -> int)
    requires size > 0 && RunsBetween(s, i, j, size, key) && j - i > size
    ensures SortedBetween(s, i, i + size, key)
    ensures SortedBetween(s, i + size, if j - i < 2 * size then j else i + 2 * size, key)
    ensures j - i > 2 * size ==> RunsBetween(s, i + 2 * size, j, size, key)
  {
  }

  /** Every range is sorted in runs of one. */
  lemma {:induction false} RunsOfOne(s: seq<int>, i: int, j: int, key: int -> int)
    ensures RunsBetween(s, i, j, 1, key)
    decreases j - i
  {
    if j - i > 1 {
      RunsOfOne(s, i + 1, j, key);
    }
  }
}
