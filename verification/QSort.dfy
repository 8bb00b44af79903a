/**
  qsort, after Bentley and McIlroy: a three-way partition that parks equal elements at both ends,
  an insertion sort for short or already partitioned ranges, recursion on the smaller elements and
  iteration on the larger ones. Ranges are given by index and element count.
 */
module QSort {
  import opened Ordering

  method Swap<T>(a: array<T>, i: int, j: int, ghost lo: int, ghost hi: int)
    requires 0 <= lo <= i < hi <= a.Length && lo <= j < hi
    modifies a
    ensures a[..] == Swapped(old(a[..]), i, j) && Rearranged(old(a[..]), a[..], lo, hi)
  {
    SwapRearranges(a[..], i, j, lo, hi);
    a[i], a[j] := a[j], a[i];
  }

  // ---------- insertion sort ----------

  /** [lo, i] is in order except that the element at j may belong further down. */
  ghost predicate SortedBut<T(!new)>(s: seq<T>, lo: int, i: int, j: int, cmp: (T, T) -> int)
    requires 0 <= lo && i < |s|
  {
    TotalPreorder(cmp) ==> forall p, q {:trigger s[p], s[q]} :: lo <= p < q <= i && q != j ==> cmp(s[p], s[q]) <= 0
  }

  lemma SinkStep<T(!new)>(s: seq<T>, s': seq<T>, lo: int, i: int, j: int, cmp: (T, T) -> int)
    requires 0 <= lo < j <= i < |s| && SortedBut(s, lo, i, j, cmp) && cmp(s[j - 1], s[j]) > 0
    requires s' == Swapped(s, j, j - 1)
    ensures SortedBut(s', lo, i, j - 1, cmp)
  {
    if TotalPreorder(cmp) {
      assert cmp(s[j], s[j - 1]) <= 0;
      forall p, q | lo <= p < q <= i && q != j - 1 ensures cmp(s'[p], s'[q]) <= 0 {
        var p' := if p == j - 1 then j else if p == j then j - 1 else p;
        var q' := if q == j then j - 1 else q;
        assert s'[p] == s[p'] && s'[q] == s[q'];
      }
    }
  }

  lemma SinkDone<T(!new)>(s: seq<T>, lo: int, i: int, j: int, cmp: (T, T) -> int)
    requires 0 <= lo <= j <= i < |s| && SortedBut(s, lo, i, j, cmp) && (j == lo || cmp(s[j - 1], s[j]) <= 0)
    ensures TotalPreorder(cmp) ==> Sorted(s, lo, i + 1, cmp)
  {
    if TotalPreorder(cmp) {
      forall p | lo <= p < j ensures cmp(s[p], s[j]) <= 0 {
        assert p == j - 1 || cmp(s[p], s[j - 1]) <= 0;
      }
    }
  }

  lemma SinkStart<T(!new)>(s: seq<T>, lo: int, i: int, cmp: (T, T) -> int)
    requires 0 <= lo <= i < |s| && (TotalPreorder(cmp) ==> Sorted(s, lo, i, cmp))
    ensures SortedBut(s, lo, i, i, cmp)
  {}

  method SinkOne<T(!new)>(a: array<T>, lo: int, ghost i: int, j: int, ghost hi: int, cmp: (T, T) -> int)
    requires 0 <= lo < j <= i < hi <= a.Length && SortedBut(a[..], lo, i, j, cmp) && cmp(a[j - 1], a[j]) > 0
    modifies a
    ensures Rearranged(old(a[..]), a[..], lo, hi) && SortedBut(a[..], lo, i, j - 1, cmp)
  {
    ghost var s := a[..];
    Swap(a, j, j - 1, lo, hi);
    SinkStep(s, a[..], lo, i, j, cmp);
  }

  /** The element at i sinks to its place in the sorted range before it. */
  method Sink<T(!new)>(a: array<T>, lo: int, i: int, ghost hi: int, cmp: (T, T) -> int)
    requires 0 <= lo <= i < hi <= a.Length
    requires TotalPreorder(cmp) ==> Sorted(a[..], lo, i, cmp)
    modifies a
    ensures Rearranged(old(a[..]), a[..], lo, hi)
    ensures TotalPreorder(cmp) ==> Sorted(a[..], lo, i + 1, cmp)
  {
    ghost var s := a[..];
    var j := i;
    SinkStart(s, lo, i, cmp);
    while j > lo && cmp(a[j - 1], a[j]) > 0
      invariant lo <= j <= i && Rearranged(s, a[..], lo, hi) && SortedBut(a[..], lo, i, j, cmp)
    {
      ghost var s1 := a[..];
      SinkOne(a, lo, i, j, hi, cmp);
      RearrangedIsTransitive(s, s1, a[..], lo, hi);
      j := j - 1;
    }
    SinkDone(a[..], lo, i, j, cmp);
  }

  method InsertionSort<T(!new)>(a: array<T>, lo: int, hi: int, cmp: (T, T) -> int)
    requires 0 <= lo <= hi <= a.Length
    modifies a
    ensures Rearranged(old(a[..]), a[..], lo, hi)
    ensures TotalPreorder(cmp) ==> Sorted(a[..], lo, hi, cmp)
  {
    ghost var s := a[..];
    var i := lo + 1;
    while i < hi
      invariant lo < i && Rearranged(s, a[..], lo, hi)
      invariant TotalPreorder(cmp) ==> Sorted(a[..], lo, if i < hi then i else hi, cmp)
    {
      ghost var s1 := a[..];
      Sink(a, lo, i, hi, cmp);
      RearrangedIsTransitive(s, s1, a[..], lo, hi);
      i := i + 1;
    }
  }

  // ---------- the pivot ----------

  /** One of the three is at or below the chosen element, another at or above it. */
  ghost predicate IsMedian<T>(s: seq<T>, i: int, j: int, k: int, m: int, cmp: (T, T) -> int)
    requires 0 <= i < |s| && 0 <= j < |s| && 0 <= k < |s| && 0 <= m < |s|
  {
    || (m == i && ((cmp(s[j], s[i]) <= 0 && cmp(s[i], s[k]) <= 0) || (cmp(s[k], s[i]) <= 0 && cmp(s[i], s[j]) <= 0)))
    || (m == j && ((cmp(s[i], s[j]) <= 0 && cmp(s[j], s[k]) <= 0) || (cmp(s[k], s[j]) <= 0 && cmp(s[j], s[i]) <= 0)))
    || (m == k && ((cmp(s[i], s[k]) <= 0 && cmp(s[k], s[j]) <= 0) || (cmp(s[j], s[k]) <= 0 && cmp(s[k], s[i]) <= 0)))
  }

  function Med3<T(!new)>(a: array<T>, i: int, j: int, k: int, cmp: (T, T) -> int): (m: int)
    requires 0 <= i < a.Length && 0 <= j < a.Length && 0 <= k < a.Length
    reads a
    ensures m == i || m == j || m == k
    ensures TotalPreorder(cmp) ==> IsMedian(a[..], i, j, k, m, cmp)
  {
    if cmp(a[i], a[j]) < 0 then
      if cmp(a[j], a[k]) < 0 then j else if cmp(a[i], a[k]) < 0 then k else i
    else
      if cmp(a[j], a[k]) > 0 then j else if cmp(a[i], a[k]) < 0 then i else k
  }

  method ChoosePivot<T(!new)>(a: array<T>, lo: int, n: int, cmp: (T, T) -> int) returns (pm: int)
    requires 0 <= lo && 7 <= n && lo + n <= a.Length
    ensures lo <= pm < lo + n
  {
    pm := lo + n / 2;
    if n > 7 {
      var pl, pn := lo, lo + n - 1;
      if n > 40 {
        var d := n / 8;
        pl := Med3(a, pl, pl + d, pl + 2 * d, cmp);
        pm := Med3(a, pm - d, pm, pm + d, cmp);
        pn := Med3(a, pn - 2 * d, pn - d, pn, cmp);
      }
      pm := Med3(a, pl, pm, pn, cmp);
    }
  }

  // ---------- partition ----------

  /** The pivot is at lo; then equal, smaller, unknown (pb..pc), larger and equal elements. */
  ghost predicate Parts<T>(s: seq<T>, lo: int, hi: int, pa: int, pb: int, pc: int, pd: int, cmp: (T, T) -> int) {
    && 0 <= lo < pa <= pb <= pc + 1 <= pd + 1 <= hi <= |s|
    && (forall k {:trigger s[k]} :: lo < k < pa ==> cmp(s[k], s[lo]) == 0)
    && (forall k {:trigger s[k]} :: pa <= k < pb ==> cmp(s[k], s[lo]) < 0)
    && (forall k {:trigger s[k]} :: pc < k <= pd ==> cmp(s[k], s[lo]) > 0)
    && (forall k {:trigger s[k]} :: pd < k < hi ==> cmp(s[k], s[lo]) == 0)
  }

  lemma ParkedLeft<T>(s: seq<T>, s': seq<T>, lo: int, hi: int, pa: int, pb: int, pc: int, pd: int, cmp: (T, T) -> int)
    requires Parts(s, lo, hi, pa, pb, pc, pd, cmp) && pb <= pc && cmp(s[pb], s[lo]) == 0 && s' == Swapped(s, pa, pb)
    ensures Parts(s', lo, hi, pa + 1, pb + 1, pc, pd, cmp)
  {}

  lemma ParkedRight<T>(s: seq<T>, s': seq<T>, lo: int, hi: int, pa: int, pb: int, pc: int, pd: int, cmp: (T, T) -> int)
    requires Parts(s, lo, hi, pa, pb, pc, pd, cmp) && pb <= pc && cmp(s[pc], s[lo]) == 0 && s' == Swapped(s, pc, pd)
    ensures Parts(s', lo, hi, pa, pb, pc - 1, pd - 1, cmp) && s'[lo] == s[lo] && (pb < pc ==> s'[pb] == s[pb])
  {}

  /** Passes elements up to the pivot, parking equal ones on the left. */
  method ScanUp<T>(a: array<T>, lo: int, ghost hi: int, pa0: int, pb0: int, pc: int, ghost pd: int, cnt0: int,
                   cmp: (T, T) -> int)
    returns (pa: int, pb: int, swapCount: int)
    requires Parts(a[..], lo, hi, pa0, pb0, pc, pd, cmp)
    modifies a
    ensures Parts(a[..], lo, hi, pa, pb, pc, pd, cmp) && pb0 <= pb
    ensures pb <= pc ==> cmp(a[pb], a[lo]) > 0
    ensures Rearranged(old(a[..]), a[..], lo, hi)
  {
    ghost var s := a[..];
    pa, pb, swapCount := pa0, pb0, cnt0;
    while pb <= pc && cmp(a[pb], a[lo]) <= 0
      invariant Parts(a[..], lo, hi, pa, pb, pc, pd, cmp) && pb0 <= pb
      invariant Rearranged(s, a[..], lo, hi)
    {
      if cmp(a[pb], a[lo]) == 0 {
        swapCount := 1;
        ghost var s1 := a[..];
        Swap(a, pa, pb, lo, hi);
        ParkedLeft(s1, a[..], lo, hi, pa, pb, pc, pd, cmp);
        RearrangedIsTransitive(s, s1, a[..], lo, hi);
        pa := pa + 1;
      }
      pb := pb + 1;
    }
  }

  /** Passes elements down to the pivot, parking equal ones on the right. */
  method ScanDown<T>(a: array<T>, lo: int, ghost hi: int, ghost pa: int, pb: int, pc0: int, pd0: int, cnt0: int,
                     cmp: (T, T) -> int)
    returns (pc: int, pd: int, swapCount: int)
    requires Parts(a[..], lo, hi, pa, pb, pc0, pd0, cmp)
    requires pb <= pc0 ==> cmp(a[pb], a[lo]) > 0
    modifies a
    ensures Parts(a[..], lo, hi, pa, pb, pc, pd, cmp) && pc <= pc0
    ensures pb <= pc ==> pb < pc && cmp(a[pb], a[lo]) > 0 && cmp(a[pc], a[lo]) < 0
    ensures Rearranged(old(a[..]), a[..], lo, hi)
  {
    ghost var s := a[..];
    pc, pd, swapCount := pc0, pd0, cnt0;
    while pb <= pc && cmp(a[pc], a[lo]) >= 0
      invariant Parts(a[..], lo, hi, pa, pb, pc, pd, cmp) && pc <= pc0
      invariant pb <= pc ==> cmp(a[pb], a[lo]) > 0
      invariant Rearranged(s, a[..], lo, hi)
    {
      if cmp(a[pc], a[lo]) == 0 {
        swapCount := 1;
        ghost var s1 := a[..];
        Swap(a, pc, pd, lo, hi);
        ParkedRight(s1, a[..], lo, hi, pa, pb, pc, pd, cmp);
        RearrangedIsTransitive(s, s1, a[..], lo, hi);
        pd := pd - 1;
      }
      pc := pc - 1;
    }
  }

  method ScanBoth<T>(a: array<T>, lo: int, ghost hi: int, pa0: int, pb0: int, pc0: int, pd0: int, cnt0: int,
                     cmp: (T, T) -> int)
    returns (pa: int, pb: int, pc: int, pd: int, swapCount: int)
    requires Parts(a[..], lo, hi, pa0, pb0, pc0, pd0, cmp)
    modifies a
    ensures Parts(a[..], lo, hi, pa, pb, pc, pd, cmp) && pb0 <= pb && pc <= pc0
    ensures pb <= pc ==> pb < pc && cmp(a[pb], a[lo]) > 0 && cmp(a[pc], a[lo]) < 0
    ensures Rearranged(old(a[..]), a[..], lo, hi)
  {
    ghost var s := a[..];
    pa, pb, swapCount := ScanUp(a, lo, hi, pa0, pb0, pc0, pd0, cnt0, cmp);
    ghost var s1 := a[..];
    pc, pd, swapCount := ScanDown(a, lo, hi, pa, pb, pc0, pd0, swapCount, cmp);
    RearrangedIsTransitive(s, s1, a[..], lo, hi);
  }

  method Partition<T>(a: array<T>, lo: int, hi: int, cmp: (T, T) -> int)
    returns (pa: int, pb: int, pc: int, pd: int, swapCount: int)
    requires 0 <= lo < hi <= a.Length
    modifies a
    ensures Parts(a[..], lo, hi, pa, pb, pc, pd, cmp) && pb == pc + 1
    ensures Rearranged(old(a[..]), a[..], lo, hi)
  {
    ghost var s := a[..];
    swapCount := 0;
    pa, pb, pc, pd := lo + 1, lo + 1, hi - 1, hi - 1;
    while true
      invariant Parts(a[..], lo, hi, pa, pb, pc, pd, cmp) && Rearranged(s, a[..], lo, hi)
      decreases pc - pb
    {
      ghost var s1 := a[..];
      pa, pb, pc, pd, swapCount := ScanBoth(a, lo, hi, pa, pb, pc, pd, swapCount, cmp);
      RearrangedIsTransitive(s, s1, a[..], lo, hi);
      if pb > pc {
        break;
      }
      ghost var s3 := a[..];
      Exchange(a, lo, hi, pa, pb, pc, pd, cmp);
      RearrangedIsTransitive(s, s3, a[..], lo, hi);
      swapCount := 1;
      pb, pc := pb + 1, pc - 1;
    }
  }

  /** A larger element and a smaller one on the wrong sides change places. */
  method Exchange<T>(a: array<T>, lo: int, hi: int, ghost pa: int, pb: int, pc: int, ghost pd: int,
                     ghost cmp: (T, T) -> int)
    requires Parts(a[..], lo, hi, pa, pb, pc, pd, cmp)
    requires pb < pc && cmp(a[pb], a[lo]) > 0 && cmp(a[pc], a[lo]) < 0
    modifies a
    ensures Parts(a[..], lo, hi, pa, pb + 1, pc - 1, pd, cmp) && Rearranged(old(a[..]), a[..], lo, hi)
  {
    Swap(a, pb, pc, lo, hi);
  }

  // ---------- moving the equal elements to the middle ----------

  /** Exchanges the r elements at i with the r elements at j. */
  method VecSwap<T>(a: array<T>, i: int, j: int, r: int, ghost lo: int, ghost hi: int)
    requires 0 <= lo <= i && 0 <= r && i + r <= j && j + r <= hi <= a.Length
    modifies a
    ensures Rearranged(old(a[..]), a[..], lo, hi)
    ensures BlocksSwapped(old(a[..]), a[..], i, j, r)
  {
    ghost var s := a[..];
    var k := 0;
    while k < r
      invariant 0 <= k <= r && Rearranged(s, a[..], lo, hi) && BlocksSwapped(s, a[..], i, j, k)
    {
      ghost var s1 := a[..];
      Swap(a, i + k, j + k, lo, hi);
      RearrangedIsTransitive(s, s1, a[..], lo, hi);
      OneMoreSwapped(s, s1, a[..], i, j, k);
      k := k + 1;
    }
  }

  ghost predicate BlocksSwapped<T>(s: seq<T>, s': seq<T>, i: int, j: int, r: int)
    requires 0 <= i && 0 <= r && i + r <= j && j + r <= |s|
  {
    && |s'| == |s|
    && forall k {:trigger s'[k]} :: 0 <= k < |s| ==>
         s'[k] == s[if i <= k < i + r then k - i + j else if j <= k < j + r then k - j + i else k]
  }

  lemma OneMoreSwapped<T>(s: seq<T>, s1: seq<T>, s2: seq<T>, i: int, j: int, k: int)
    requires 0 <= i && 0 <= k && i + k < j && j + k < |s|
    requires BlocksSwapped(s, s1, i, j, k) && s2 == Swapped(s1, i + k, j + k)
    ensures BlocksSwapped(s, s2, i, j, k + 1)
  {}

  /** Smaller, equal and larger than the pivot; the pivot itself counts as equal. */
  ghost predicate ThreeWay<T>(s: seq<T>, lo: int, p: int, q: int, hi: int, pivot: T, cmp: (T, T) -> int) {
    && 0 <= lo <= p < q <= hi <= |s|
    && All(s, lo, p, x => cmp(x, pivot) < 0)
    && (forall k {:trigger s[k]} :: p <= k < q ==> s[k] == pivot || cmp(s[k], pivot) == 0)
    && All(s, q, hi, x => cmp(x, pivot) > 0)
  }

  function Min(x: int, y: int): int {
    if x < y then x else y
  }

  lemma GatherLeft<T>(s: seq<T>, s': seq<T>, lo: int, hi: int, pa: int, pb: int, pd: int, r: int, cmp: (T, T) -> int)
    requires Parts(s, lo, hi, pa, pb, pb - 1, pd, cmp) && r == Min(pa - lo, pb - pa)
             && BlocksSwapped(s, s', lo, pb - r, r)
    ensures LeftGathered(s', lo, lo + pb - pa, pb, pd, hi, s[lo], cmp)
  {}

  /** Smaller, equal, larger, equal. */
  ghost predicate LeftGathered<T>(s: seq<T>, lo: int, p: int, pb: int, pd: int, hi: int, pivot: T, cmp: (T, T) -> int) {
    && 0 <= lo <= p < pb <= pd + 1 <= hi <= |s|
    && All(s, lo, p, x => cmp(x, pivot) < 0)
    && (forall k {:trigger s[k]} :: p <= k < pb ==> s[k] == pivot || cmp(s[k], pivot) == 0)
    && (forall k {:trigger s[k]} :: pb <= k <= pd ==> cmp(s[k], pivot) > 0)
    && (forall k {:trigger s[k]} :: pd < k < hi ==> cmp(s[k], pivot) == 0)
  }

  lemma GatherRight<T>(s: seq<T>, s': seq<T>, lo: int, p: int, hi: int, pb: int, pd: int, r: int, pivot: T,
                       cmp: (T, T) -> int)
    requires LeftGathered(s, lo, p, pb, pd, hi, pivot, cmp)
    requires r == Min(pd + 1 - pb, hi - pd - 1) && BlocksSwapped(s, s', pb, hi - r, r)
    ensures ThreeWay(s', lo, p, hi - (pd + 1 - pb), hi, pivot, cmp)
  {}

  lemma GatherBoth<T>(s: seq<T>, s1: seq<T>, s2: seq<T>, lo: int, hi: int, pa: int, pb: int, pc: int, pd: int,
                      l: int, r: int, l': int, r': int, cmp: (T, T) -> int)
    requires Parts(s, lo, hi, pa, pb, pc, pd, cmp) && pb == pc + 1
    requires r == Min(pa - lo, pb - pa) && l == pb - r && BlocksSwapped(s, s1, lo, l, r)
    requires r' == Min(pd - pc, hi - pd - 1) && l' == hi - r' && BlocksSwapped(s1, s2, pb, l', r')
    ensures ThreeWay(s2, lo, lo + (pb - pa), hi - (pd - pc), hi, s[lo], cmp)
  {
    GatherLeft(s, s1, lo, hi, pa, pb, pd, r, cmp);
    GatherRight(s1, s2, lo, lo + pb - pa, hi, pb, pd, r', s[lo], cmp);
  }

  method Gather<T>(a: array<T>, lo: int, hi: int, pa: int, pb: int, pc: int, pd: int, cmp: (T, T) -> int)
    requires Parts(a[..], lo, hi, pa, pb, pc, pd, cmp) && pb == pc + 1
    modifies a
    ensures ThreeWay(a[..], lo, lo + (pb - pa), hi - (pd - pc), hi, old(a[lo]), cmp)
    ensures Rearranged(old(a[..]), a[..], lo, hi)
  {
    ghost var s := a[..];
    var r := Min(pa - lo, pb - pa);
    var l := pb - r;
    VecSwap(a, lo, l, r, lo, hi);
    ghost var s1 := a[..];
    var r' := Min(pd - pc, hi - pd - 1);
    var l' := hi - r';
    VecSwap(a, pb, l', r', lo, hi);
    RearrangedIsTransitive(s, s1, a[..], lo, hi);
    GatherBoth(s, s1, a[..], lo, hi, pa, pb, pc, pd, l, r, l', r', cmp);
  }

  // ---------- sorting ----------

  /** [lo, mid) is final: in order, and nothing there comes after anything up to hi. */
  ghost predicate SortedUpTo<T(!new)>(s: seq<T>, lo: int, mid: int, hi: int, cmp: (T, T) -> int)
    requires 0 <= lo <= mid <= hi <= |s|
  {
    TotalPreorder(cmp) ==> Sorted(s, lo, mid, cmp) && Below(s, lo, mid, hi, cmp)
  }

  lemma SmallerSorted<T(!new)>(s: seq<T>, s': seq<T>, lo: int, p: int, q: int, hi: int, pivot: T, cmp: (T, T) -> int)
    requires ThreeWay(s, lo, p, q, hi, pivot, cmp) && Rearranged(s, s', lo, p)
    requires TotalPreorder(cmp) ==> Sorted(s', lo, p, cmp)
    ensures SortedUpTo(s', lo, q, hi, cmp)
  {
    AllIsKept(s, s', lo, p, x => cmp(x, pivot) < 0);
    OutsideUnchanged(s, s', lo, p);
    if TotalPreorder(cmp) {
      Reflexive(cmp, pivot);
      forall i, j | lo <= i < j < hi && i < q && p <= j ensures cmp(s'[i], s'[j]) <= 0 {
        AcrossPivot(cmp, s'[i], s'[j], pivot);
      }
    }
  }

  /** One pass over n elements from lo; what is left to sort is at lo', n' elements. */
  method Pass<T(!new)>(a: array<T>, lo: int, n: int, cmp: (T, T) -> int) returns (lo': int, n': int)
    requires 0 <= lo && 0 <= n && lo + n <= a.Length
    modifies a
    ensures lo <= lo' && 0 <= n' && lo' + n' == lo + n && (n' < n || n' == 0)
    ensures Rearranged(old(a[..]), a[..], lo, lo + n)
    ensures SortedUpTo(a[..], lo, lo', lo + n, cmp)
    decreases n, 0
  {
    var hi := lo + n;
    if n < 7 {
      InsertionSort(a, lo, hi, cmp);
      return hi, 0;
    }
    ghost var s := a[..];
    var pa, pb, pc, pd, swapCount := PivotAndPartition(a, lo, hi, cmp);
    ghost var s1 := a[..];
    if swapCount == 0 {
      InsertionSort(a, lo, hi, cmp);
      RearrangedIsTransitive(s, s1, a[..], lo, hi);
      return hi, 0;
    }
    Conquer(a, lo, hi, pa, pb, pc, pd, cmp);
    RearrangedIsTransitive(s, s1, a[..], lo, hi);
    return hi - (pd - pc), pd - pc;
  }

  /** After the partition: equal elements to the middle, smaller ones sorted. */
  method Conquer<T(!new)>(a: array<T>, lo: int, hi: int, pa: int, pb: int, pc: int, pd: int, cmp: (T, T) -> int)
    requires Parts(a[..], lo, hi, pa, pb, pc, pd, cmp) && pb == pc + 1
    modifies a
    ensures Rearranged(old(a[..]), a[..], lo, hi)
    ensures SortedUpTo(a[..], lo, hi - (pd - pc), hi, cmp)
    decreases pb - pa, 3
  {
    ghost var s := a[..];
    Gather(a, lo, hi, pa, pb, pc, pd, cmp);
    ghost var s1 := a[..];
    SortSmaller(a, lo, pb - pa, hi - (pd - pc), hi, s[lo], cmp);
    RearrangedIsTransitive(s, s1, a[..], lo, hi);
  }

  method PivotAndPartition<T(!new)>(a: array<T>, lo: int, hi: int, cmp: (T, T) -> int)
    returns (pa: int, pb: int, pc: int, pd: int, swapCount: int)
    requires 0 <= lo && lo + 7 <= hi <= a.Length
    modifies a
    ensures Parts(a[..], lo, hi, pa, pb, pc, pd, cmp) && pb == pc + 1
    ensures Rearranged(old(a[..]), a[..], lo, hi)
  {
    ghost var s := a[..];
    var pm := ChoosePivot(a, lo, hi - lo, cmp);
    Swap(a, lo, pm, lo, hi);
    ghost var s1 := a[..];
    pa, pb, pc, pd, swapCount := Partition(a, lo, hi, cmp);
    RearrangedIsTransitive(s, s1, a[..], lo, hi);
  }

  /** The recursive call, made only for two or more smaller elements. */
  method SortSmaller<T(!new)>(a: array<T>, lo: int, r: int, ghost q: int, ghost hi: int, ghost pivot: T,
                              cmp: (T, T) -> int)
    requires ThreeWay(a[..], lo, lo + r, q, hi, pivot, cmp) && 0 <= r
    modifies a
    ensures Rearranged(old(a[..]), a[..], lo, hi)
    ensures SortedUpTo(a[..], lo, q, hi, cmp)
    decreases r, 2
  {
    ghost var s := a[..];
    if r > 1 {
      QSort(a, lo, r, cmp);
    }
    SmallerSorted(s, a[..], lo, lo + r, q, hi, pivot, cmp);
    RearrangedWithin(s, a[..], lo, lo, lo + r, hi);
  }

  /**
    qsort of the count elements from start. For any comparator it terminates and permutes them,
    leaving the rest alone; when the comparator is a total preorder they end up in order.
   */
  method QSort<T(!new)>(a: array<T>, start: int, count: int, cmp: (T, T) -> int)
    requires 0 <= start && 0 <= count && start + count <= a.Length
    modifies a
    ensures Rearranged(old(a[..]), a[..], start, start + count)
    ensures TotalPreorder(cmp) ==> Sorted(a[..], start, start + count, cmp)
    decreases count, 1
  {
    ghost var s := a[..];
    ghost var hi := start + count;
    var lo, n := start, count;
    while true
      invariant start <= lo && 0 <= n <= count && lo + n == hi
      invariant Rearranged(s, a[..], start, hi) && SortedUpTo(a[..], start, lo, hi, cmp)
      decreases n
    {
      ghost var s1, lo1 := a[..], lo;
      lo, n := Pass(a, lo, n, cmp);
      PassExtends(s1, a[..], start, lo1, lo, hi, cmp);
      RearrangedWithin(s1, a[..], start, lo1, hi, hi);
      RearrangedIsTransitive(s, s1, a[..], start, hi);
      if n <= 1 {
        return;
      }
    }
  }

  /** A pass on what is left extends the final part. */
  lemma PassExtends<T(!new)>(s: seq<T>, s': seq<T>, start: int, lo: int, lo': int, hi: int, cmp: (T, T) -> int)
    requires 0 <= start <= lo <= lo' <= hi <= |s| && Rearranged(s, s', lo, hi)
    requires SortedUpTo(s, start, lo, hi, cmp) && SortedUpTo(s', lo, lo', hi, cmp)
    ensures SortedUpTo(s', start, lo', hi, cmp)
  {
    OutsideUnchanged(s, s', lo, hi);
    if TotalPreorder(cmp) {
      forall i, j | start <= i < lo <= j < hi ensures cmp(s'[i], s'[j]) <= 0 {
        AllIsKept(s, s', lo, hi, x => cmp(s'[i], x) <= 0);
      }
    }
  }
}
