/**
  Words over bytes: periods, local repetitions, lexicographically maximal suffixes, and
  the critical factorization theorem on which the two-way search of MemMem rests.
  Every notion is about positions inside one fixed word n.
 */
module CriticalFactorization {

  import opened BitBytes

  /** The byte order, or (rev) the opposite order. */
  predicate Lt(rev: bool, a: Byte, b: Byte) {
    if rev then (b as nat) < (a as nat) else (a as nat) < (b as nat)
  }

  /** n[a..a+q) and n[b..b+q) are equal. */
  ghost predicate Agree(n: seq<Byte>, a: nat, b: nat, q: nat)
    requires a + q <= |n| && b + q <= |n|
  {
    forall x, y :: a <= x < a + q && b <= y < b + q && x - a == y - b ==> n[x] == n[y]
  }

  /** The suffix of n at a precedes the suffix at b, their first q bytes being equal. */
  ghost predicate PrecedesAt(n: seq<Byte>, rev: bool, a: nat, b: nat, q: nat) {
    && a + q <= |n|
    && b + q < |n|
    && Agree(n, a, b, q)
    && (a + q < |n| ==> Lt(rev, n[a + q], n[b + q]))
  }

  /** Lexicographic order on the suffixes of n. */
  ghost predicate Precedes(n: seq<Byte>, rev: bool, a: nat, b: nat) {
    exists q: nat :: PrecedesAt(n, rev, a, b, q)
  }

  ghost predicate IsMaximalSuffix(n: seq<Byte>, rev: bool, s: nat) {
    && s < |n|
    && forall t: nat :: t < |n| && t != s ==> Precedes(n, rev, t, s)
  }

  /** n[lo..hi) has period d. */
  ghost predicate PeriodOn(n: seq<Byte>, lo: nat, hi: nat, d: nat)
    requires hi <= |n|
  {
    && 1 <= d
    && forall i, j :: lo <= i < j < hi && j == i + d ==> n[i] == n[j]
  }

  ghost predicate Period(n: seq<Byte>, d: nat) {
    PeriodOn(n, 0, |n|, d)
  }

  /** A square of side d (cut off at the ends of n) is centred between n[..c] and n[c..]. */
  ghost predicate LocalRepetition(n: seq<Byte>, c: nat, d: nat) {
    && 1 <= d
    && forall i, j :: 0 <= i < c <= j < |n| && j == i + d ==> n[i] == n[j]
  }

  /** Position c is critical: each local repetition there is longer than c and is a period of all of n. */
  ghost predicate Critical(n: seq<Byte>, c: nat) {
    forall d: nat :: LocalRepetition(n, c, d) ==> c < d && Period(n, d)
  }

  lemma PrecedesAsymmetric(n: seq<Byte>, rev: bool, a: nat, b: nat)
    requires Precedes(n, rev, a, b)
    ensures !Precedes(n, rev, b, a)
  {
    var q: nat :| PrecedesAt(n, rev, a, b, q);
    forall r: nat ensures !PrecedesAt(n, rev, b, a, r) {
      if PrecedesAt(n, rev, b, a, r) {
        assert false;
      }
    }
  }

  lemma AgreeTransitive(n: seq<Byte>, a: nat, b: nat, c: nat, q: nat)
    requires a + q <= |n| && b + q <= |n| && c + q <= |n|
    requires Agree(n, a, b, q) && Agree(n, b, c, q)
    ensures Agree(n, a, c, q)
  {
    forall x, z | a <= x < a + q && c <= z < c + q && x - a == z - c ensures n[x] == n[z] {
      assert n[x] == n[b + (x - a)] == n[z];
    }
  }

  lemma LtTransitive(rev: bool, a: Byte, b: Byte, c: Byte)
    ensures Lt(rev, a, b) && Lt(rev, b, c) ==> Lt(rev, a, c)
  {}

  lemma LtTotal(rev: bool, a: Byte, b: Byte)
    ensures a == b || Lt(rev, a, b) || Lt(rev, b, a)
  {}

  lemma PrecedesTransitive(n: seq<Byte>, rev: bool, a: nat, b: nat, c: nat)
    requires Precedes(n, rev, a, b) && Precedes(n, rev, b, c)
    ensures Precedes(n, rev, a, c)
  {
    var q: nat :| PrecedesAt(n, rev, a, b, q);
    var r: nat :| PrecedesAt(n, rev, b, c, r);
    if q < r {
      PrecedesFirst(n, rev, a, b, c, q, r);
    } else {
      PrecedesSecond(n, rev, a, b, c, q, r);
    }
  }

  lemma PrecedesFirst(n: seq<Byte>, rev: bool, a: nat, b: nat, c: nat, q: nat, r: nat)
    requires PrecedesAt(n, rev, a, b, q) && PrecedesAt(n, rev, b, c, r) && q < r
    ensures PrecedesAt(n, rev, a, c, q)
  {
    AgreeTransitive(n, a, b, c, q);
    assert n[b + q] == n[c + q];
  }

  lemma PrecedesSecond(n: seq<Byte>, rev: bool, a: nat, b: nat, c: nat, q: nat, r: nat)
    requires PrecedesAt(n, rev, a, b, q) && PrecedesAt(n, rev, b, c, r) && r <= q
    ensures PrecedesAt(n, rev, a, c, r)
  {
    AgreeTransitive(n, a, b, c, r);
    if r < q {
      assert n[a + r] == n[b + r];
    } else if a + r < |n| {
      LtTransitive(rev, n[a + r], n[b + r], n[c + r]);
    }
  }

  /** No repetition at the start of a maximal suffix fits to the left of it. */
  lemma NoRepetitionLeftOfMaximalSuffix(n: seq<Byte>, rev: bool, c: nat, d: nat)
    requires IsMaximalSuffix(n, rev, c)
    requires LocalRepetition(n, c, d)
    ensures c < d
  {
    if d <= c {
      assert Precedes(n, rev, c - d, c);
      var q: nat :| PrecedesAt(n, rev, c - d, c, q);
      if q < d {
        assert false;
      } else {
        var r := q - d;
        assert PrecedesAt(n, rev, c, c + d, r);
        PrecedesAsymmetric(n, rev, c, c + d);
      }
    }
  }

  /**
    The critical factorization theorem in the form the search needs: of the two starts of the
    maximal suffixes for an order and for its opposite, the later one is critical.
   */
  lemma CriticalFactorizationTheorem(n: seq<Byte>, rev: bool, c: nat, c': nat)
    requires IsMaximalSuffix(n, rev, c) && IsMaximalSuffix(n, !rev, c')
    requires c' <= c
    ensures Critical(n, c)
  {
    forall d: nat | LocalRepetition(n, c, d) ensures c < d && Period(n, d) {
      NoRepetitionLeftOfMaximalSuffix(n, rev, c, d);
      RepetitionIsPeriod(n, rev, c, c', d);
    }
  }

  /** Were there one, the suffix at c' would precede the one at c' + d, against the choice of c'. */
  lemma NoMismatchBehind(n: seq<Byte>, rev: bool, c: nat, c': nat, d: nat, q: nat)
    requires IsMaximalSuffix(n, !rev, c') && c' <= c < d && LocalRepetition(n, c, d)
    requires c + d < |n| && PrecedesAt(n, rev, c + d, c, q)
    ensures c + d + q >= |n|
  {
    if c + d + q < |n| {
      var m := c - c' + q;
      assert PrecedesAt(n, !rev, c', c' + d, m);
      PrecedesAsymmetric(n, !rev, c', c' + d);
      assert false;
    }
  }

  lemma RepetitionIsPeriod(n: seq<Byte>, rev: bool, c: nat, c': nat, d: nat)
    requires IsMaximalSuffix(n, rev, c) && IsMaximalSuffix(n, !rev, c')
    requires c' <= c < d
    requires LocalRepetition(n, c, d)
    ensures Period(n, d)
  {
    if c + d < |n| {
      assert Precedes(n, rev, c + d, c);
      var q: nat :| PrecedesAt(n, rev, c + d, c, q);
      NoMismatchBehind(n, rev, c, c', d, q);
      forall i, j | 0 <= i < j < |n| && j == i + d ensures n[i] == n[j] {
        if c <= i {
          assert c <= i < c + q && c + d <= j < c + d + q;
        }
      }
    }
  }

  /** If the suffix at a critical position has least period p and n has a period that fits in it, p is a period of n. */
  lemma {:induction false} SuffixPeriodIsPeriod(n: seq<Byte>, c: nat, p: nat, d: nat)
    requires c < |n| && Critical(n, c)
    requires PeriodOn(n, c, |n|, p)
    requires forall e: nat :: PeriodOn(n, c, |n|, e) ==> p <= e
    requires Period(n, d) && c + d <= |n|
    ensures Period(n, p)
    decreases d
  {
    assert PeriodOn(n, c, |n|, d);
    if d != p {
      var e := d - p;
      forall i, j | 0 <= i < c <= j < |n| && j == i + e ensures n[i] == n[j] {
        assert n[i] == n[i + d];
        assert n[j] == n[j + p];
      }
      assert LocalRepetition(n, c, e);
      SuffixPeriodIsPeriod(n, c, p, e);
    }
  }
}
