/** What a healthy heap looks like as a whole: when it is empty, where its units are, and when a request cannot fit. */
module UmmLayout {
  import opened UmmHeap
  import opened UmmSteps
  import opened UmmMalloc

  /** The links of the heap umm_init builds: one free block from unit 1 up to the last unit. */
  ghost predicate InitialLinks(m: Mem, n: int)
    requires Shape(m, n)
  {
    && m.nx[0] == 1 && m.nf[0] == 1 && m.pf[0] == 1
    && m.nx[1] == n - 1 + FREELIST_MASK && m.pv[1] == 0 && m.nf[1] == 0 && m.pf[1] == 0
    && m.nx[n - 1] == 0 && m.pv[n - 1] == 1
  }

  /** Once nothing is live, whatever the history, the heap is again the one umm_init built. */
  lemma FreeingAllRestoresInitial(m: Mem, n: int, starts: set<int>, ring: seq<int>)
    requires Healthy(m, n, starts, ring) && LiveSet(m, n, starts) == {}
    ensures starts == {0, 1, n - 1} && ring == [0, 1] && InitialLinks(m, n)
  {
    assert 1 !in LiveSet(m, n, starts);
    assert Flagged(m, 1) && !Flagged(m, Next(m, 1));
    OneBlock(m, n, starts);
    assert 1 in ring;
    OneEntry(ring);
    assert Succ(ring, 0) == 1 && Succ(ring, 1) == 0;
  }

  lemma OneBlock(m: Mem, n: int, starts: set<int>)
    requires Chain(m, n, starts) && LiveSet(m, n, starts) == {} && Flagged(m, 1) && !Flagged(m, Next(m, 1))
    ensures Next(m, 1) == n - 1 && Next(m, 0) == 1 && starts == {0, 1, n - 1}
  {
    var x := Next(m, 1);
    assert x !in LiveSet(m, n, starts) && x in starts;
    forall b | b in starts ensures b in {0, 1, n - 1} {
      assert b <= 1 || x <= b;
    }
  }

  lemma ThirdEntry(ring: seq<int>)
    requires Distinct(ring) && |ring| >= 2
    ensures |ring| == 2 || (ring[2] != ring[0] && ring[2] != ring[1])
  {}

  lemma OneEntry(ring: seq<int>)
    requires Distinct(ring) && |ring| >= 1 && ring[0] == 0 && 1 in ring
    requires forall i :: 0 <= i < |ring| ==> ring[i] in {0, 1}
    ensures ring == [0, 1]
  {
    assert |ring| >= 2;
    assert ring[1] == 1;
    ThirdEntry(ring);
  }

  // ---------- conservation ----------

  /** Units in the blocks from b up to the last unit whose free flag is free. */
  ghost function Units(m: Mem, n: int, starts: set<int>, b: int, free: bool): int
    requires Chain(m, n, starts) && b in starts
    decreases n - b
  {
    if b == n - 1 then 0
    else (if Flagged(m, b) == free then SizeOf(m, b) else 0) + Units(m, n, starts, Next(m, b), free)
  }

  /** Live and free blocks together take every unit between unit 0 and the last one. */
  lemma {:induction false} UnitsAreConserved(m: Mem, n: int, starts: set<int>, b: int)
    requires Chain(m, n, starts) && b in starts
    ensures Units(m, n, starts, b, true) + Units(m, n, starts, b, false) == n - 1 - b
    decreases n - b
  {
    if b != n - 1 {
      UnitsAreConserved(m, n, starts, Next(m, b));
    }
  }

  // ---------- when a request cannot fit ----------

  /** Unit u belongs to block b. */
  ghost predicate Holds(m: Mem, n: int, starts: set<int>, b: int, u: int)
    requires Chain(m, n, starts)
  {
    b in starts && 0 <= b < n - 1 && b <= u < Next(m, b)
  }

  /** k units in a row, none of them in a live block. */
  ghost predicate FreeRun(m: Mem, n: int, starts: set<int>, i: int, k: int)
    requires Chain(m, n, starts)
  {
    && 1 <= i && i + k <= n - 1
    && forall b, u {:trigger Holds(m, n, starts, b, u)} :: i <= u < i + k && Holds(m, n, starts, b, u) ==>
       b !in LiveSet(m, n, starts)
  }

  lemma {:induction false} BlockOfUnit(m: Mem, n: int, starts: set<int>, b: int, u: int) returns (c: int)
    requires Chain(m, n, starts) && b in starts && b <= u < n - 1
    ensures Holds(m, n, starts, c, u) && b <= c
    decreases n - b
  {
    if u < Next(m, b) {
      c := b;
    } else {
      c := BlockOfUnit(m, n, starts, Next(m, b), u);
    }
  }

  /** A request of k units fails exactly when the heap has no k units in a row outside live blocks. */
  lemma NoFitMeansNoRun(m: Mem, n: int, starts: set<int>, ring: seq<int>, k: int)
    requires Healthy(m, n, starts, ring) && 1 <= k
    ensures NoFit(m, n, starts, k) <==> forall i :: !FreeRun(m, n, starts, i, k)
  {
    forall i | FreeRun(m, n, starts, i, k) ensures !NoFit(m, n, starts, k) {
      RunIsInOneBlock(m, n, starts, i, k);
    }
    forall f | f in starts && 0 <= f < n && Flagged(m, f) && SizeOf(m, f) >= k ensures FreeRun(m, n, starts, f, k) {
      BlockIsRun(m, n, starts, f, k);
    }
  }

  lemma RunIsInOneBlock(m: Mem, n: int, starts: set<int>, i: int, k: int)
    requires Chain(m, n, starts) && Coalesced(m, n, starts) && 1 <= k && FreeRun(m, n, starts, i, k)
    ensures !NoFit(m, n, starts, k)
  {
    var b := BlockOfUnit(m, n, starts, 1, i);
    assert Flagged(m, b);
    var x := Next(m, b);
    assert x == n - 1 || Holds(m, n, starts, x, x);
  }

  lemma BlockIsRun(m: Mem, n: int, starts: set<int>, f: int, k: int)
    requires Chain(m, n, starts) && f in starts && 0 <= f < n && Flagged(m, f) && SizeOf(m, f) >= k >= 1
    ensures FreeRun(m, n, starts, f, k)
  {
    forall b, u | f <= u < f + k && Holds(m, n, starts, b, u) ensures b == f {}
  }
}
