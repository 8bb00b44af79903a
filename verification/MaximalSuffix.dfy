/**
  The maximal suffix computation of twoway_memmem (run twice there, once for each byte order):
  a scan that keeps a candidate start, compares it with a later copy of itself, and backs up
  to a new candidate when a larger byte turns up.
 */
module MaximalSuffix {
  import opened BitBytes
  import opened CriticalFactorization

  /** Inside n[..e), the suffix at t drops below the candidate s after q equal bytes, or runs out at e. */
  ghost predicate DominatedAt(n: seq<Byte>, rev: bool, s: nat, t: nat, e: nat, q: nat) {
    && s < t && t + q <= e <= |n|
    && Agree(n, t, s, q)
    && (t + q < e ==> Lt(rev, n[t + q], n[s + q]))
  }

  ghost predicate Dominated(n: seq<Byte>, rev: bool, s: nat, t: nat, e: nat) {
    exists q: nat :: DominatedAt(n, rev, s, t, e, q)
  }

  ghost predicate Dominates(n: seq<Byte>, rev: bool, s: nat, e: nat) {
    forall t: nat :: s < t <= e ==> Dominated(n, rev, s, t, e)
  }

  ghost predicate StrictlyBelow(n: seq<Byte>, rev: bool, s: nat, t: nat, e: nat) {
    exists q: nat :: t + q < e && DominatedAt(n, rev, s, t, e, q)
  }

  /** The block n[s..e) is strictly larger than each of its proper suffixes, by a difference inside it. */
  ghost predicate StrictlyDominates(n: seq<Byte>, rev: bool, s: nat, e: nat) {
    forall t: nat :: s < t < e ==> StrictlyBelow(n, rev, s, t, e)
  }

  /** What the scan knows: candidate start s with period p over n[s..jp + k), k - 1 bytes of the next copy compared. */
  ghost predicate Scan(n: seq<Byte>, rev: bool, s: nat, jp: nat, k: nat, p: nat) {
    && 1 <= k <= p && s + p <= jp + 1 && jp + k <= |n|
    && Agree(n, s, jp + 1, k - 1)
    && Agree(n, s, jp + 1 - p, p)
    && PeriodOn(n, s, jp + k, p)
    && StrictlyDominates(n, rev, s, s + p)
    && Dominates(n, rev, s, jp + k)
    && forall t: nat :: t < s ==> Precedes(n, rev, t, s)
  }

  lemma StrictBlockDiffers(n: seq<Byte>, rev: bool, s: nat, t: nat, e: nat)
    requires e <= |n| && StrictlyDominates(n, rev, s, e)
    ensures s < t < e ==> !Agree(n, t, s, e - t)
  {
    if s < t < e {
      assert StrictlyBelow(n, rev, s, t, e);
      var q: nat :| t + q < e && DominatedAt(n, rev, s, t, e, q);
      assert n[t + q] != n[s + q];
    }
  }

  lemma PeriodShiftsAgreement(n: seq<Byte>, s: nat, e: nat, p: nat, t: nat)
    requires s + p <= t <= e <= |n| && PeriodOn(n, s, e, p) && Agree(n, t, s, e - t)
    ensures Agree(n, t - p, s, e - t)
  {
    forall x, y | t - p <= x < e - p && s <= y < s + e - t && x - (t - p) == y - s ensures n[x] == n[y] {
      assert n[x] == n[x + p] == n[y];
    }
  }

  /** A suffix that equals the candidate up to e would be continued by a byte no smaller than the expected one. */
  lemma BorderContinuation(n: seq<Byte>, rev: bool, s: nat, p: nat, e: nat, t: nat)
    requires s + p <= e < |n| && PeriodOn(n, s, e, p)
    requires StrictlyDominates(n, rev, s, s + p) && Dominates(n, rev, s, e)
    requires s < t <= e && DominatedAt(n, rev, s, t, e, e - t)
    ensures n[e - p] == n[s + e - t] || Lt(rev, n[e - p], n[s + e - t])
  {
    StrictBlockDiffers(n, rev, s, t, s + p);
    if t > s + p {
      PeriodShiftsAgreement(n, s, e, p, t);
      assert Dominated(n, rev, s, t - p, e);
      var q: nat :| DominatedAt(n, rev, s, t - p, e, q);
    }
  }

  /**
    The next byte is at most the expected one: the candidate stays; if it is smaller, the whole scanned part
    becomes one block.
   */
  lemma ExtendDomination(n: seq<Byte>, rev: bool, s: nat, p: nat, e: nat)
    requires s + p <= e < |n| && PeriodOn(n, s, e, p)
    requires StrictlyDominates(n, rev, s, s + p) && Dominates(n, rev, s, e)
    requires n[e] == n[e - p] || Lt(rev, n[e], n[e - p])
    ensures Dominates(n, rev, s, e + 1)
    ensures Lt(rev, n[e], n[e - p]) ==> StrictlyDominates(n, rev, s, e + 1)
  {
    var e' := e + 1;
    forall t: nat | s < t <= e'
      ensures Dominated(n, rev, s, t, e')
      ensures t <= e && Lt(rev, n[e], n[e - p]) ==> StrictlyBelow(n, rev, s, t, e')
    {
      if t == e' {
        assert DominatedAt(n, rev, s, t, e', 0);
      } else {
        assert Dominated(n, rev, s, t, e);
        var q: nat :| DominatedAt(n, rev, s, t, e, q);
        if t + q == e {
          BorderContinuation(n, rev, s, p, e, t);
          LtTransitive(rev, n[e], n[e - p], n[s + q]);
          if n[e] == n[s + q] {
            assert DominatedAt(n, rev, s, t, e', q + 1);
          } else {
            assert DominatedAt(n, rev, s, t, e', q);
          }
        } else {
          assert DominatedAt(n, rev, s, t, e', q);
        }
      }
    }
  }

  lemma FirstScan(n: seq<Byte>, rev: bool)
    requires n != []
    ensures Scan(n, rev, 0, 0, 1, 1)
  {
    assert DominatedAt(n, rev, 0, 1, 1, 0);
  }

  lemma EqualByte(n: seq<Byte>, rev: bool, s: nat, jp: nat, k: nat, p: nat, jp': nat, k': nat)
    requires Scan(n, rev, s, jp, k, p) && jp + k < |n|
    requires n[jp + k] == n[s + k - 1]
    requires if k == p then jp' == jp + p && k' == 1 else jp' == jp && k' == k + 1
    ensures Scan(n, rev, s, jp', k', p)
  {
    assert n[jp + k - p] == n[s + k - 1];
    ExtendDomination(n, rev, s, p, jp + k);
    EqualByteAgrees(n, s, jp, k, p);
  }

  lemma EqualByteAgrees(n: seq<Byte>, s: nat, jp: nat, k: nat, p: nat)
    requires 1 <= k <= p && s + p <= jp + 1 && jp + k < |n| && n[jp + k] == n[s + k - 1]
    requires Agree(n, s, jp + 1, k - 1) && PeriodOn(n, s, jp + k, p)
    requires n[jp + k - p] == n[s + k - 1]
    ensures Agree(n, s, jp + 1, k) && PeriodOn(n, s, jp + k + 1, p)
  {}

  lemma SmallerByte(n: seq<Byte>, rev: bool, s: nat, jp: nat, k: nat, p: nat, jp': nat, p': nat)
    requires Scan(n, rev, s, jp, k, p) && jp + k < |n|
    requires Lt(rev, n[jp + k], n[s + k - 1])
    requires jp' == jp + k && p' == jp' - s + 1
    ensures Scan(n, rev, s, jp', 1, p')
  {
    assert n[jp + k - p] == n[s + k - 1];
    ExtendDomination(n, rev, s, p, jp + k);
  }

  /** The next byte exceeds the expected one: every suffix up to jp is below the one at jp + 1. */
  lemma LargerByte(n: seq<Byte>, rev: bool, s: nat, jp: nat, k: nat, p: nat)
    requires Scan(n, rev, s, jp, k, p) && jp + k < |n|
    requires Lt(rev, n[s + k - 1], n[jp + k])
    ensures Scan(n, rev, jp + 1, jp + 1, 1, 1)
  {
    var s' := jp + 1;
    assert PrecedesAt(n, rev, s, s', k - 1);
    forall t: nat | t < s' ensures Precedes(n, rev, t, s') {
      LargerByteAt(n, rev, s, s', k - 1, t);
    }
    assert DominatedAt(n, rev, s', s' + 1, s' + 1, 0);
  }

  lemma LargerByteAt(n: seq<Byte>, rev: bool, s: nat, s': nat, k: nat, t: nat)
    requires PrecedesAt(n, rev, s, s', k)
    requires t < s ==> Precedes(n, rev, t, s)
    requires Dominates(n, rev, s, s' + k)
    requires t < s'
    ensures Precedes(n, rev, t, s')
  {
    if t < s {
      PrecedesTransitive(n, rev, t, s, s');
    } else if s < t {
      assert Dominated(n, rev, s, t, s' + k);
      var q: nat :| DominatedAt(n, rev, s, t, s' + k, q);
      LargerByteInside(n, rev, s, s', k, t, q);
    }
  }

  lemma LargerByteInside(n: seq<Byte>, rev: bool, s: nat, s': nat, k: nat, t: nat, q: nat)
    requires s < t < s' && PrecedesAt(n, rev, s, s', k) 
    requires DominatedAt(n, rev, s, t, s' + k, q)
    ensures Precedes(n, rev, t, s')
  {
    if t + q < s' + k {
      assert PrecedesAt(n, rev, t, s, q);
      PrecedesTransitive(n, rev, t, s, s');
    } else {
      AgreeTransitive(n, t, s, s', k);
      assert n[t + k] == n[s + k];
      assert PrecedesAt(n, rev, t, s', k);
    }
  }

  /** A finished scan has found the maximal suffix, and p is its least period. */
  lemma FinishedScan(n: seq<Byte>, rev: bool, s: nat, jp: nat, k: nat, p: nat)
    requires Scan(n, rev, s, jp, k, p) && jp + k == |n|
    ensures IsMaximalSuffix(n, rev, s)
    ensures forall d: nat :: PeriodOn(n, s, |n|, d) ==> p <= d
  {
    forall t: nat | t < |n| && t != s ensures Precedes(n, rev, t, s) {
      if s < t {
        assert Dominated(n, rev, s, t, |n|);
        var q: nat :| DominatedAt(n, rev, s, t, |n|, q);
        assert PrecedesAt(n, rev, t, s, q);
      }
    }
    forall d: nat | PeriodOn(n, s, |n|, d) ensures p <= d {
      StrictBlockDiffers(n, rev, s, s + d, s + p);
    }
  }

  /** One comparison takes the scan from the first four numbers to the others. */
  ghost predicate Compared(n: seq<Byte>, rev: bool, s: nat, jp: nat, k: nat, p: nat,
                           s': nat, jp': nat, k': nat, p': nat)
    requires 1 <= s + k <= jp + k < |n|
  {
    if n[s + k - 1] == n[jp + k] then
      s' == s && p' == p && if k == p then jp' == jp + p && k' == 1 else jp' == jp && k' == k + 1
    else if Lt(rev, n[jp + k], n[s + k - 1]) then
      s' == s && jp' == jp + k && k' == 1 && p' == jp' - s + 1
    else
      s' == jp' == jp + 1 && k' == p' == 1
  }

  lemma ScanPlaces(n: seq<Byte>, rev: bool, s: nat, jp: nat, k: nat, p: nat)
    requires Scan(n, rev, s, jp, k, p)
    ensures 1 <= k <= p && s <= jp
  {}

  lemma ScanStep(n: seq<Byte>, rev: bool, s: nat, jp: nat, k: nat, p: nat, s': nat, jp': nat, k': nat, p': nat)
    requires Scan(n, rev, s, jp, k, p) && 1 <= s + k <= jp + k < |n|
    requires Compared(n, rev, s, jp, k, p, s', jp', k', p')
    ensures Scan(n, rev, s', jp', k', p')
  {
    if n[s + k - 1] == n[jp + k] {
      EqualByte(n, rev, s, jp, k, p, jp', k');
    } else if Lt(rev, n[jp + k], n[s + k - 1]) {
      SmallerByte(n, rev, s, jp, k, p, jp', p');
    } else {
      LtTotal(rev, n[s + k - 1], n[jp + k]);
      LargerByte(n, rev, s, jp, k, p);
    }
  }

  /**
    The loop of kern_memmem.cpp:99-114 (rev false) and :119-134 (rev true). The source keeps
    ip = s - 1, starting from (size_t)-1.
   */
  method Compute(n: seq<Byte>, rev: bool) returns (s: nat, p: nat)
    requires n != []
    ensures IsMaximalSuffix(n, rev, s)
    ensures s + p <= |n| && PeriodOn(n, s, |n|, p)
    ensures forall d: nat :: PeriodOn(n, s, |n|, d) ==> p <= d
  {
    var jp: nat, k: nat := 0, 1;
    s, p := 0, 1;
    FirstScan(n, rev);
    while jp + k < |n|
      invariant Scan(n, rev, s, jp, k, p)
      decreases |n| - s, |n| - (jp + k)
    {
      ghost var s0, jp0, k0, p0 := s, jp, k, p;
      ScanPlaces(n, rev, s, jp, k, p);
      if n[s + k - 1] == n[jp + k] {
        if k == p {
          jp := jp + p;
          k := 1;
        } else {
          k := k + 1;
        }
      } else if Lt(rev, n[jp + k], n[s + k - 1]) {
        jp := jp + k;
        k := 1;
        p := jp - s + 1;
      } else {
        s := jp + 1;
        jp := jp + 1;
        k, p := 1, 1;
      }
      ScanStep(n, rev, s0, jp0, k0, p0, s, jp, k, p);
    }
    FinishedScan(n, rev, s, jp, k, p);
  }
}
