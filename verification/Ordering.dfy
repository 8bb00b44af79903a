/** Comparators in the style of C, and the sequence facts a sort is judged by. */
module Ordering {

  /** What qsort asks of a comparator: its sign is a total preorder. */
  ghost predicate TotalPreorder<T(!new)>(cmp: (T, T) -> int) {
    && (forall x, y {:trigger cmp(x, y)} :: cmp(x, y) <= 0 <==> cmp(y, x) >= 0)
    && (forall x, y, z {:trigger cmp(x, y), cmp(y, z)} :: cmp(x, y) <= 0 && cmp(y, z) <= 0 ==> cmp(x, z) <= 0)
  }

  ghost predicate Sorted<T>(s: seq<T>, lo: int, hi: int, cmp: (T, T) -> int)
    requires 0 <= lo && hi <= |s|
  {
    forall i, j {:trigger s[i], s[j]} :: lo <= i < j < hi ==> cmp(s[i], s[j]) <= 0
  }

  /** Nothing in [lo, mid) comes after anything in [mid, hi). */
  ghost predicate Below<T>(s: seq<T>, lo: int, mid: int, hi: int, cmp: (T, T) -> int)
    requires 0 <= lo && hi <= |s|
  {
    forall i, j {:trigger s[i], s[j]} :: lo <= i < mid <= j < hi ==> cmp(s[i], s[j]) <= 0
  }

  /** s' is s with [lo, hi) permuted. */
  ghost predicate Rearranged<T>(s: seq<T>, s': seq<T>, lo: int, hi: int) {
    && 0 <= lo <= hi <= |s| == |s'|
    && s'[..lo] == s[..lo] && s'[hi..] == s[hi..]
    && multiset(s'[lo..hi]) == multiset(s[lo..hi])
  }

  ghost predicate All<T>(s: seq<T>, lo: int, hi: int, p: T -> bool)
    requires 0 <= lo && hi <= |s|
  {
    forall k {:trigger s[k]} :: lo <= k < hi ==> p(s[k])
  }

  lemma RearrangedIsTransitive<T>(s: seq<T>, s': seq<T>, s'': seq<T>, lo: int, hi: int)
    requires Rearranged(s, s', lo, hi) && Rearranged(s', s'', lo, hi)
    ensures Rearranged(s, s'', lo, hi)
  {}

  /** A permutation of a part is a permutation of the whole. */
  lemma RearrangedWithin<T>(s: seq<T>, s': seq<T>, lo: int, l: int, h: int, hi: int)
    requires Rearranged(s, s', l, h) && 0 <= lo <= l <= h <= hi <= |s|
    ensures Rearranged(s, s', lo, hi)
  {
    assert s[lo..hi] == s[lo..l] + s[l..h] + s[h..hi];
    assert s'[lo..hi] == s'[lo..l] + s'[l..h] + s'[h..hi];
    assert s'[lo..l] == s'[..l][lo..] == s[..l][lo..] == s[lo..l];
    assert s'[h..hi] == s'[h..][..hi - h] == s[h..][..hi - h] == s[h..hi];
    assert s'[..lo] == s'[..l][..lo] == s[..lo];
    assert s'[hi..] == s'[h..][hi - h..] == s[hi..];
  }

  lemma OutsideUnchanged<T>(s: seq<T>, s': seq<T>, lo: int, hi: int)
    requires Rearranged(s, s', lo, hi)
    ensures forall k {:trigger s'[k]} :: 0 <= k < lo || hi <= k < |s| ==> s'[k] == s[k]
  {
    forall k | 0 <= k < lo ensures s'[k] == s[k] {
      assert s'[..lo][k] == s[..lo][k];
    }
    forall k | hi <= k < |s| ensures s'[k] == s[k] {
      assert s'[hi..][k - hi] == s[hi..][k - hi];
    }
  }

  /** What holds of every element of a range holds after a permutation of the range. */
  lemma AllIsKept<T>(s: seq<T>, s': seq<T>, lo: int, hi: int, p: T -> bool)
    requires Rearranged(s, s', lo, hi) && All(s, lo, hi, p)
    ensures All(s', lo, hi, p)
  {
    forall k | lo <= k < hi ensures p(s'[k]) {
      assert s'[k] == s'[lo..hi][k - lo];
      assert s'[k] in multiset(s'[lo..hi]);
      assert s'[k] in s[lo..hi];
      var j :| 0 <= j < |s[lo..hi]| && s[lo..hi][j] == s'[k];
      assert s[lo + j] == s'[k];
    }
  }

  function Swapped<T>(s: seq<T>, i: int, j: int): seq<T>
    requires 0 <= i < |s| && 0 <= j < |s|
  {
    s[i := s[j]][j := s[i]]
  }

  lemma SwapRearranges<T>(s: seq<T>, i: int, j: int, lo: int, hi: int)
    requires 0 <= lo <= i < hi <= |s| && lo <= j < hi
    ensures Rearranged(s, Swapped(s, i, j), lo, hi)
  {
    var s' := Swapped(s, i, j);
    var w := s[lo..hi];
    assert s'[lo..hi] == w[i - lo := w[j - lo]][j - lo := w[i - lo]];
  }

  /** Around a pivot: smaller before larger. */
  lemma AcrossPivot<T(!new)>(cmp: (T, T) -> int, x: T, y: T, pivot: T)
    requires TotalPreorder(cmp) && cmp(x, pivot) <= 0 && cmp(y, pivot) >= 0
    ensures cmp(x, y) <= 0
  {
    assert cmp(pivot, y) <= 0;
  }

  lemma Reflexive<T(!new)>(cmp: (T, T) -> int, x: T)
    requires TotalPreorder(cmp)
    ensures cmp(x, x) == 0
  {
    assert cmp(x, x) <= 0 <==> cmp(x, x) >= 0;
  }
}
