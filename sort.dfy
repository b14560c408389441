/**
 * Top-down merge sort of an array by a caller-supplied key, working on
 * inclusive index ranges `[lo, hi]` and merging each pair of sorted halves back
 * into the array through two snapshots of the halves.
 */
module MergeSort {
  import opened SortSpec

  datatype Option<T> = None | Some(value: T)

  /** The key used when the caller gives none: elements are compared directly. */
  function Identity(x: int): int { x }

  function KeyOrIdentity(key: Option<int -> int>): int -> int {
    if key.Some? then key.value else Identity
  }

  /** The split point of a range of two or more elements; both halves are non-empty. */
  function Middle(lo: int, hi: int): (m: int)
    requires lo < hi
    ensures lo <= m < hi
    ensures m - lo < hi - lo && hi - (m + 1) < hi - lo
  {
    (lo + hi) / 2
  }

  /** `s` and `t` have the same length and agree everywhere outside `[lo, hi]`. */
  ghost predicate SameOutside<T>(s: seq<T>, t: seq<T>, lo: int, hi: int) {
    |s| == |t| && forall p :: 0 <= p < |s| && (p < lo || hi < p) ==> s[p] == t[p]
  }

  /**
   * Overwrites `a[at..at + |src|]` with `src`: a slice assignment whose
   * replacement has the same length as the slice it replaces.
   */
  method CopyInto<T>(a: array<T>, at: int, src: seq<T>)
    requires 0 <= at && at + |src| <= a.Length
    modifies a
    ensures a[at..at + |src|] == src
    ensures SameOutside(a[..], old(a[..]), at, at + |src| - 1)
  {
    var n := 0;
    while n < |src|
      invariant 0 <= n <= |src|
      invariant forall q :: 0 <= q < n ==> a[at + q] == src[q]
      invariant forall p :: 0 <= p < a.Length && (p < at || at + n <= p) ==> a[p] == old(a[p])
    {
      a[at + n] := src[n];
      n := n + 1;
    }
  }

  /**
   * The first phase of the merge into `a[lo..hi]` (inclusive bounds): writes
   * the head that the merge of `l` and `r` picks at `a[s]`, advancing `s`,
   * until one of the two runs is exhausted. What is written is exactly the
   * start of the merge, and what is left of the runs merges into exactly the
   * rest of it; slots from `s` on are not touched.
   */
  method MergeHeads<T>(a: array<T>, lo: int, hi: int, l: seq<T>, r: seq<T>, key: T -> int)
    returns (i: int, j: int, s: int)
    requires 0 <= lo && lo + |l| + |r| == hi + 1 <= a.Length
    modifies a
    ensures 0 <= i <= |l| && 0 <= j <= |r| && (i == |l| || j == |r|)
    ensures s == lo + i + j
    ensures a[lo..s] == Merge(l, r, key)[..s - lo]
    ensures Merge(l[i..], r[j..], key) == Merge(l, r, key)[s - lo..]
    ensures SameOutside(a[..], old(a[..]), lo, s - 1)
  {
    ghost var merged := Merge(l, r, key);
    i, j, s := 0, 0, lo;
    while i < |l| && j < |r|
      invariant 0 <= i <= |l| && 0 <= j <= |r|
      invariant s == lo + i + j
      invariant Merge(l[i..], r[j..], key) == merged[i + j..]
      invariant forall q :: lo <= q < s ==> a[q] == merged[q - lo]
      invariant forall p :: 0 <= p < a.Length && (p < lo || s <= p) ==> a[p] == old(a[p])
    {
      MergeAdvance(l, r, key, i, j, merged);
      if key(l[i]) <= key(r[j]) {
        a[s] := l[i];
        i := i + 1;
      } else {
        a[s] := r[j];
        j := j + 1;
      }
      s := s + 1;
    }
  }

  /**
   * The second phase of the merge: once one of `l` and `r` is empty, the
   * other one is copied to `a[s..hi]` (inclusive bounds).
   */
  method AddRest<T>(a: array<T>, s: int, hi: int, l: seq<T>, r: seq<T>)
    requires 0 <= s && s + |l| + |r| == hi + 1 <= a.Length
    requires l == [] || r == []
    modifies a
    ensures a[s..hi + 1] == l + r
    ensures SameOutside(a[..], old(a[..]), s, hi)
  {
    if |l| > 0 {
      CopyInto(a, s, l);
      assert l + r == l;
    }
    if |r| > 0 {
      CopyInto(a, s, r);
      assert l + r == r;
    }
  }

  lemma JoinSlices<T>(x: seq<T>, lo: int, mid: int, hi: int)
    requires 0 <= lo <= mid <= hi <= |x|
    ensures x[lo..hi] == x[lo..mid] + x[mid..hi]
  {
  }

  /**
   * The two phases of the merge put together, on whole-array snapshots: when
   * `a1` holds the start of `m` in `[lo, s)` and `a2` adds the rest of `m`
   * in `[s, hi]`, `a2` holds all of `m` in `[lo, hi]`.
   */
  lemma Spliced<T>(a0: seq<T>, a1: seq<T>, a2: seq<T>, lo: int, s: int, hi: int, m: seq<T>)
    requires 0 <= lo <= s <= hi + 1 == lo + |m| <= |a0| == |a1| == |a2|
    requires a1[lo..s] == m[..s - lo] && SameOutside(a1, a0, lo, hi)
    requires a2[s..hi + 1] == m[s - lo..] && SameOutside(a2, a1, s, hi)
    ensures a2[lo..hi + 1] == m
    ensures SameOutside(a2, a0, lo, hi)
  {
    assert a2[lo..s] == a1[lo..s];
    JoinSlices(a2, lo, s, hi + 1);
    JoinSlices(m, 0, s - lo, |m|);
    assert m[0..s - lo] == m[..s - lo] && m[s - lo..|m|] == m[s - lo..] && m[0..|m|] == m;
  }

  /**
   * Merges the runs `a[lo..mid]` and `a[mid+1..hi]` (inclusive bounds) into
   * `a[lo..hi]` through snapshots of both. The result is the functional
   * merge of the two old runs, so it is sorted when both runs are, and a
   * permutation of the range in any case; nothing outside the range changes.
   */
  method MergeRange<T>(a: array<T>, lo: int, hi: int, mid: int, key: T -> int)
    requires 0 <= lo <= mid + 1 <= hi + 1 <= a.Length
    modifies a
    ensures a[lo..hi + 1] == Merge(old(a[lo..mid + 1]), old(a[mid + 1..hi + 1]), key)
    ensures (Sorted(old(a[lo..mid + 1]), key) && Sorted(old(a[mid + 1..hi + 1]), key))
              ==> Sorted(a[lo..hi + 1], key)
    ensures multiset(a[lo..hi + 1]) == multiset(old(a[lo..hi + 1]))
    ensures SameOutside(a[..], old(a[..]), lo, hi)
  {
    ghost var a0 := a[..];
    var leftCopy := a[lo..mid + 1];
    var rightCopy := a[mid + 1..hi + 1];
    ghost var merged := Merge(leftCopy, rightCopy, key);
    JoinSlices(a0, lo, mid + 1, hi + 1);

    // Merging until one of the runs is exhausted
    var i, j, s := MergeHeads(a, lo, hi, leftCopy, rightCopy, key);
    ghost var a1 := a[..];

    // Adding the rest of whichever run is left
    AddRest(a, s, hi, leftCopy[i..], rightCopy[j..]);

    MergeExhausted(leftCopy[i..], rightCopy[j..], key);
    Spliced(a0, a1, a[..], lo, s, hi, merged);
    if Sorted(leftCopy, key) && Sorted(rightCopy, key) {
      MergeSorted(leftCopy, rightCopy, key);
    }
    MergePermutes(leftCopy, rightCopy, key);
    assert multiset(leftCopy + rightCopy) == multiset(leftCopy) + multiset(rightCopy);
  }

  /**
   * What sorting the inclusive range `[lo, hi]` of `t` into `s` means: the
   * range is sorted, it keeps the order within every key, and nothing
   * outside it differs.
   */
  ghost predicate RangeSortedFrom<T>(s: seq<T>, t: seq<T>, lo: int, hi: int, key: T -> int) {
    0 <= lo <= hi + 1 <= |s| == |t|
    && Sorted(s[lo..hi + 1], key)
    && SameOrderWithinKeys(s[lo..hi + 1], t[lo..hi + 1], key)
    && SameOutside(s, t, lo, hi)
  }

  /**
   * The recursive step of merge sort on whole-array snapshots: sorting the
   * left half (`a0` to `a1`), then the right half (`a1` to `a2`), then
   * merging the two halves (`a2` to `a3`) sorts the whole range.
   */
  lemma SortHalvesThenMerge<T>(a0: seq<T>, a1: seq<T>, a2: seq<T>, a3: seq<T>,
                               lo: int, mid: int, hi: int, key: T -> int)
    requires 0 <= lo <= mid < hi < |a0| == |a1| == |a2| == |a3|
    requires RangeSortedFrom(a1, a0, lo, mid, key)
    requires RangeSortedFrom(a2, a1, mid + 1, hi, key)
    requires a3[lo..hi + 1] == Merge(a2[lo..mid + 1], a2[mid + 1..hi + 1], key)
    requires SameOutside(a3, a2, lo, hi)
    ensures RangeSortedFrom(a3, a0, lo, hi, key)
  {
    assert a1[mid + 1..hi + 1] == a0[mid + 1..hi + 1];
    assert a2[lo..mid + 1] == a1[lo..mid + 1];
    assert a0[lo..hi + 1] == a0[lo..mid + 1] + a0[mid + 1..hi + 1];
    MergeSortedHalves(a0[lo..mid + 1], a0[mid + 1..hi + 1], a2[lo..mid + 1], a2[mid + 1..hi + 1], key);
  }

  /**
   * Sorts the inclusive range `[lo, hi]` of `a` stably by `key`; everything
   * outside it stays as it was, and a range of at most one element is left
   * untouched.
   */
  method MergeSortRange<T>(a: array<T>, lo: int, hi: int, key: T -> int)
    requires 0 <= lo <= hi + 1 <= a.Length
    modifies a
    ensures RangeSortedFrom(a[..], old(a[..]), lo, hi, key)
    ensures lo >= hi ==> a[..] == old(a[..])
    decreases hi - lo
  {
    if lo >= hi {
      return;
    }
    var mid := Middle(lo, hi);
    ghost var a0 := a[..];
    MergeSortRange(a, lo, mid, key);
    ghost var a1 := a[..];
    MergeSortRange(a, mid + 1, hi, key);
    ghost var a2 := a[..];
    MergeRange(a, lo, hi, mid, key);
    SortHalvesThenMerge(a0, a1, a2, a[..], lo, mid, hi, key);
  }

  /**
   * Sorts `a` in place, stably, by `key`: the keys end up non-decreasing, the
   * elements are a permutation of the old ones, elements with equal keys
   * keep their relative order, and an already sorted array is left as it is.
   */
  method Sort<T>(a: array<T>, key: T -> int)
    modifies a
    ensures Sorted(a[..], key) && AdjacentSorted(a[..], key)
    ensures SameOrderWithinKeys(a[..], old(a[..]), key)
    ensures multiset(a[..]) == multiset(old(a[..]))
    ensures Sorted(old(a[..]), key) ==> a[..] == old(a[..])
  {
    if a.Length == 0 {
      return;
    }
    MergeSortRange(a, 0, a.Length - 1, key);
    assert a[..] == a[0..a.Length - 1 + 1];
    assert old(a[..]) == old(a[0..a.Length - 1 + 1]);
    AdjacentSortedIffSorted(a[..], key);
    SameOrderWithinKeysPermutes(a[..], old(a[..]), key);
    if Sorted(old(a[..]), key) {
      SortedStableUnique(a[..], old(a[..]), key);
    }
  }

  /**
   * The entry point for callers whose key is optional: with no key the
   * elements are compared directly.
   */
  method SortDefaultKey(a: array<int>, key: Option<int -> int>)
    modifies a
    ensures key.None? ==> forall i, j :: 0 <= i < j < a.Length ==> a[i] <= a[j]
    ensures Sorted(a[..], KeyOrIdentity(key))
    ensures SameOrderWithinKeys(a[..], old(a[..]), KeyOrIdentity(key))
    ensures multiset(a[..]) == multiset(old(a[..]))
  {
    Sort(a, KeyOrIdentity(key));
    if key.None? {
      forall i, j | 0 <= i < j < a.Length ensures a[i] <= a[j] {
        assert Identity(a[..][i]) <= Identity(a[..][j]);
      }
    }
  }

  /**
   * With the identity key the elements carrying key `k` are copies of `k`
   * itself, as many as `s` holds.
   */
  lemma {:induction false} IdentityKeyClass(s: seq<int>, k: int)
    ensures ElementsWithKey(s, Identity, k) == seq(multiset(s)[k], _ => k)
  {
    if s != [] {
      IdentityKeyClass(s[1..], k);
      assert s == [s[0]] + s[1..];
      var n := multiset(s[1..])[k];
      if s[0] == k {
        assert [k] + seq(n, _ => k) == seq(n + 1, _ => k);
      }
    }
  }

  /**
   * When elements are compared directly, keeping the order within keys is
   * the same as being a rearrangement: equal integers cannot be told apart.
   */
  lemma IdentityKeyStableIffPermutation(s: seq<int>, t: seq<int>)
    ensures SameOrderWithinKeys(s, t, Identity) <==> multiset(s) == multiset(t)
  {
    if multiset(s) == multiset(t) {
      forall k ensures ElementsWithKey(s, Identity, k) == ElementsWithKey(t, Identity, k) {
        IdentityKeyClass(s, k);
        IdentityKeyClass(t, k);
      }
    } else if SameOrderWithinKeys(s, t, Identity) {
      SameOrderWithinKeysPermutes(s, t, Identity);
    }
  }

  /**
   * Sorting with the default key has exactly one possible outcome: the
   * non-decreasing rearrangement of the elements.
   */
  lemma DefaultKeySortUnique(s: seq<int>, t: seq<int>)
    requires Sorted(s, Identity) && Sorted(t, Identity)
    requires multiset(s) == multiset(t)
    ensures s == t
  {
    IdentityKeyStableIffPermutation(s, t);
    SortedStableUnique(s, t, Identity);
  }
}
