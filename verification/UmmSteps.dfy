/** What each step of the allocator does to the set of live blocks and to their data. */
module UmmSteps {
  import opened UmmHeap

  ghost function LiveSet(m: Mem, n: int, starts: set<int>): set<int>
    requires Chain(m, n, starts)
  {
    set b | b in starts && 0 < b < n - 1 && !Flagged(m, b)
  }

  /** All live blocks except those in the set keep extent and data. */
  ghost predicate OthersKept(m: Mem, m': Mem, n: int, starts: set<int>, except: set<int>)
    requires Chain(m, n, starts) && Shape(m', n)
  {
    forall b {:trigger Kept(m, m', n, b)} {:trigger b in starts} :: Live(m, n, starts, b) && b !in except ==>
           Kept(m, m', n, b)
  }

  lemma OthersKeptCompose(m: Mem, m': Mem, m'': Mem, n: int, starts: set<int>, starts': set<int>, a: set<int>,
                          a': set<int>)
    requires Chain(m, n, starts) && Chain(m', n, starts') && Shape(m'', n)
    requires OthersKept(m, m', n, starts, a) && OthersKept(m', m'', n, starts', a')
    requires LiveSet(m, n, starts) - a <= LiveSet(m', n, starts')
    ensures OthersKept(m, m'', n, starts, a + a')
  {
    forall b | Live(m, n, starts, b) && b !in a + a' ensures Kept(m, m'', n, b) {
      assert b in LiveSet(m, n, starts) - a;
      assert b in LiveSet(m', n, starts');
      assert Kept(m, m', n, b) && Kept(m', m'', n, b);
    }
  }

  // ---------- assimilating the free block above c ----------

  function Up(m: Mem, x: int): Mem
    requires |m.nx| == |m.pv| == |m.nf| == |m.pf| && 0 <= x < |m.nx|
    requires 0 <= m.pf[x] < |m.nx| && 0 <= m.nf[x] < |m.nx| && m.pf[x] != x && 0 <= m.pv[x] < |m.nx|
             && Next(m, x) < |m.nx|
  {
    MergedDown(Disconnected(m, x), x, 0)
  }

  ghost predicate CanGoUp(m: Mem, n: int, starts: set<int>, ring: seq<int>, c: int, x: int, i: int) {
    Healthy(m, n, starts, ring) && Live(m, n, starts, c) && x == Next(m, c) && OnFreeList(m, n, starts, ring, x, i)
  }

  lemma UpIsMerge(m: Mem, n: int, starts: set<int>, ring: seq<int>, c: int, x: int, i: int)
    requires CanGoUp(m, n, starts, ring, c, x, i)
    ensures 0 <= m.pf[x] < n && 0 <= m.nf[x] < n && m.pf[x] != x && m.pv[x] == c && Next(m, x) < n && x < n - 1
    ensures CanMerge(Disconnected(m, x), n, starts, c, x) && !Flagged(Disconnected(m, x), c)
  {
    FreeNeighbours(m, n, starts, ring, x, i);
    DisconnectKeepsHealth(m, n, starts, ring, x, i);
    var m1 := Disconnected(m, x);
    assert Next(m1, c) == Next(m, c);
  }

  lemma UpKeepsHealth(m: Mem, n: int, starts: set<int>, ring: seq<int>, c: int, x: int, i: int)
    requires CanGoUp(m, n, starts, ring, c, x, i)
    ensures 0 <= m.pf[x] < n && 0 <= m.nf[x] < n && m.pf[x] != x && m.pv[x] == c && Next(m, x) < n
    ensures Healthy(Up(m, x), n, starts - {x}, ring[..i] + ring[i + 1..])
    ensures Next(Up(m, x), c) == Next(m, x) && !Flagged(Up(m, x), Next(m, x)) && !Flagged(Up(m, x), c)
  {
    UpIsMerge(m, n, starts, ring, c, x, i);
    DisconnectKeepsHealth(m, n, starts, ring, x, i);
    var m1 := Disconnected(m, x);
    assert Next(m1, x) == m1.nx[x] == Next(m, x);
    MergeKeepsHealth(m1, n, starts, ring[..i] + ring[i + 1..], c, x, 0);
  }

  lemma UpKeepsData(m: Mem, n: int, starts: set<int>, ring: seq<int>, c: int, x: int, i: int)
    requires CanGoUp(m, n, starts, ring, c, x, i)
    requires 0 <= m.pf[x] < n && 0 <= m.nf[x] < n && m.pf[x] != x && m.pv[x] == c && Next(m, x) < n
    requires Chain(Up(m, x), n, starts - {x})
    ensures OthersKept(m, Up(m, x), n, starts, {c})
    ensures SameData(m, c, Up(m, x), c, x - c, n)
    ensures LiveSet(Up(m, x), n, starts - {x}) == LiveSet(m, n, starts)
  {
    UpIsMerge(m, n, starts, ring, c, x, i);
    DisconnectKeepsHealth(m, n, starts, ring, x, i);
    var m1, m2 := Disconnected(m, x), Up(m, x);
    forall b | Live(m, n, starts, b) && b != c ensures Kept(m, m2, n, b) {
      DisconnectKeepsData(m, n, starts, ring, x, i, b);
      MergeKeepsData(m1, n, starts, c, x, 0, b);
      KeptIsTransitive(m, m1, m2, n, b);
    }
    DisconnectKeepsData(m, n, starts, ring, x, i, c);
    assert Next(m1, x) in starts;
    forall b ensures b in LiveSet(m2, n, starts - {x}) <==> b in LiveSet(m, n, starts) {
      if 0 <= b < n {
        assert Flagged(m1, b) <==> Flagged(m, b) && b != x;
        assert Flagged(m2, b) <==> Flagged(m1, b);
      }
    }
  }

  // ---------- predecessors ----------

  /** Walking up from b one reaches the block whose successor is c. */
  lemma {:induction false} PredecessorFrom(m: Mem, n: int, starts: set<int>, b: int, c: int)
    requires Chain(m, n, starts) && b in starts && c in starts && b < c
    ensures m.pv[c] in starts && b <= m.pv[c] < c && Next(m, m.pv[c]) == c
    decreases c - b
  {
    if Next(m, b) != c {
      PredecessorFrom(m, n, starts, Next(m, b), c);
    }
  }

  lemma Predecessor(m: Mem, n: int, starts: set<int>, c: int)
    requires Chain(m, n, starts) && c in starts && 0 < c
    ensures m.pv[c] in starts && 0 <= m.pv[c] < c && Next(m, m.pv[c]) == c
    ensures c > 1 ==> 0 < m.pv[c]
  {
    PredecessorFrom(m, n, starts, if c > 1 then 1 else 0, c);
  }

  // ---------- returning c to the free list ----------

  lemma DownStep(m: Mem, n: int, starts: set<int>, ring: seq<int>, c: int)
    requires Healthy(m, n, starts, ring) && Live(m, n, starts, c) && !Flagged(m, Next(m, c))
    requires 0 <= m.pv[c] < n && Flagged(m, m.pv[c])
    ensures 0 <= m.nx[c] < n && Healthy(MergedDown(m, c, FREELIST_MASK), n, starts - {c}, ring)
    ensures OthersKept(m, MergedDown(m, c, FREELIST_MASK), n, starts, {c})
    ensures LiveSet(MergedDown(m, c, FREELIST_MASK), n, starts - {c}) == LiveSet(m, n, starts) - {c}
  {
    Predecessor(m, n, starts, c);
    var p := m.pv[c];
    MergeKeepsHealth(m, n, starts, ring, p, c, FREELIST_MASK);
    var m' := MergedDown(m, c, FREELIST_MASK);
    forall b | Live(m, n, starts, b) && b != c ensures Kept(m, m', n, b) {
      MergeKeepsData(m, n, starts, p, c, FREELIST_MASK, b);
    }
    forall b | 0 <= b < n ensures Flagged(m', b) <==> Flagged(m, b) {}
  }

  lemma PushStep(m: Mem, n: int, starts: set<int>, ring: seq<int>, c: int)
    requires Healthy(m, n, starts, ring) && Live(m, n, starts, c) && !Flagged(m, Next(m, c))
    requires 0 <= m.pv[c] < n && !Flagged(m, m.pv[c])
    ensures 0 <= m.nf[0] < n && Healthy(Pushed(m, c), n, starts, [0, c] + ring[1..])
    ensures OthersKept(m, Pushed(m, c), n, starts, {c})
    ensures LiveSet(Pushed(m, c), n, starts) == LiveSet(m, n, starts) - {c}
  {
    PushKeepsHealth(m, n, starts, ring, c);
    var m' := Pushed(m, c);
    forall b | Live(m, n, starts, b) && b != c ensures Kept(m, m', n, b) {
      PushKeepsData(m, n, starts, ring, c, b);
    }
    forall b | 0 <= b < n ensures Flagged(m', b) <==> Flagged(m, b) || b == c {}
  }

  // ---------- taking c from the free list ----------

  lemma TakeStep(m: Mem, n: int, starts: set<int>, ring: seq<int>, c: int, i: int)
    requires OnFreeList(m, n, starts, ring, c, i) && Coalesced(m, n, starts)
    ensures 0 <= m.pf[c] < n && 0 <= m.nf[c] < n && m.pf[c] != c
    ensures Healthy(Disconnected(m, c), n, starts, ring[..i] + ring[i + 1..])
    ensures OthersKept(m, Disconnected(m, c), n, starts, {})
    ensures LiveSet(Disconnected(m, c), n, starts) == LiveSet(m, n, starts) + {c}
    ensures Next(Disconnected(m, c), c) == Next(m, c)
  {
    FreeNeighbours(m, n, starts, ring, c, i);
    DisconnectKeepsHealth(m, n, starts, ring, c, i);
    var m' := Disconnected(m, c);
    forall b | Live(m, n, starts, b) ensures Kept(m, m', n, b) {
      DisconnectKeepsData(m, n, starts, ring, c, i, b);
    }
    forall b | 0 <= b < n ensures Flagged(m', b) <==> Flagged(m, b) && b != c {}
  }

  lemma CarveStep(m: Mem, n: int, starts: set<int>, ring: seq<int>, c: int, i: int, k: int)
    requires OnFreeList(m, n, starts, ring, c, i) && Coalesced(m, n, starts) && CanSplit(m, n, starts, c, k)
    ensures 0 <= m.pf[c] < n && 0 <= m.nf[c] < n
    ensures Healthy(Carved(m, c, k), n, starts + {c + k}, ring[i := c + k])
    ensures OthersKept(m, Carved(m, c, k), n, starts, {})
    ensures LiveSet(Carved(m, c, k), n, starts + {c + k}) == LiveSet(m, n, starts) + {c}
    ensures Next(Carved(m, c, k), c) == c + k
  {
    FreeNeighbours(m, n, starts, ring, c, i);
    CarveKeepsHealth(m, n, starts, ring, c, i, k);
    var m' := Carved(m, c, k);
    forall b | Live(m, n, starts, b) ensures Kept(m, m', n, b) {
      CarveKeepsData(m, n, starts, ring, c, i, k, b);
    }
    forall b | 0 <= b < n ensures Flagged(m', b) <==> b == c + k || (b != c && Flagged(m, b)) {}
  }

  // ---------- resizing ----------

  lemma SplitHeaders(m: Mem, n: int, starts: set<int>, c: int, k: int)
    requires CanSplit(m, n, starts, c, k) && Live(m, n, starts, c) && Shape(Split(m, c, k, 0), n)
    ensures c + k !in starts
    ensures forall b {:trigger Flagged(Split(m, c, k, 0), b)} :: 0 <= b < n ==>
              (Flagged(Split(m, c, k, 0), b) <==> b != c + k && Flagged(m, b))
    ensures forall b {:trigger Next(Split(m, c, k, 0), b)} :: 0 <= b < n ==>
              Next(Split(m, c, k, 0), b) == if b == c + k then Next(m, c) else if b == c then c + k else Next(m, b)
  {
    NoStartInside(m, n, starts, c, c + k);
  }

  lemma SplitStep(m: Mem, n: int, starts: set<int>, ring: seq<int>, c: int, k: int)
    requires Healthy(m, n, starts, ring) && Live(m, n, starts, c) && CanSplit(m, n, starts, c, k)
    ensures Healthy(Split(m, c, k, 0), n, starts + {c + k}, ring)
    ensures OthersKept(m, Split(m, c, k, 0), n, starts, {c})
    ensures SameData(m, c, Split(m, c, k, 0), c, k, n)
    ensures LiveSet(Split(m, c, k, 0), n, starts + {c + k}) == LiveSet(m, n, starts) + {c + k}
    ensures Next(Split(m, c, k, 0), c) == c + k
  {
    SplitKeepsChain(m, n, starts, c, k, 0);
    SplitHeaders(m, n, starts, c, k);
    SplitData(m, n, starts, c, k);
    SplitLive(m, n, starts, c, k);
    SplitRing(m, Split(m, c, k, 0), n, starts, ring, c + k);
  }

  lemma SplitLive(m: Mem, n: int, starts: set<int>, c: int, k: int)
    requires CanSplit(m, n, starts, c, k) && Live(m, n, starts, c) && Chain(Split(m, c, k, 0), n, starts + {c + k})
    ensures LiveSet(Split(m, c, k, 0), n, starts + {c + k}) == LiveSet(m, n, starts) + {c + k}
  {
    SplitHeaders(m, n, starts, c, k);
  }

  lemma SplitData(m: Mem, n: int, starts: set<int>, c: int, k: int)
    requires CanSplit(m, n, starts, c, k) && Live(m, n, starts, c) && Shape(Split(m, c, k, 0), n)
    ensures OthersKept(m, Split(m, c, k, 0), n, starts, {c})
    ensures SameData(m, c, Split(m, c, k, 0), c, k, n)
  {
    forall b | Live(m, n, starts, b) && b != c ensures Kept(m, Split(m, c, k, 0), n, b) {
      SplitKeepsData(m, n, starts, c, k, 0, b);
    }
  }

  lemma SplitRing(m: Mem, m': Mem, n: int, starts: set<int>, ring: seq<int>, x: int)
    requires Healthy(m, n, starts, ring) && Chain(m', n, starts + {x}) && x !in starts
    requires m'.nf == m.nf && m'.pf == m.pf
    requires forall b {:trigger Flagged(m', b)} :: 0 <= b < n ==> (Flagged(m', b) <==> b != x && Flagged(m, b))
    requires forall b {:trigger Next(m', b)} :: b in starts && Flagged(m, b) ==> Next(m', b) == Next(m, b)
    ensures Healthy(m', n, starts + {x}, ring)
  {
    forall i | 1 <= i < |ring| ensures Flagged(m', ring[i]) {
      assert ring[i] in starts;
    }
    forall b | b in starts + {x} && Flagged(m', b) ensures !Flagged(m', Next(m', b)) {
      assert Flagged(m, b) && !Flagged(m, Next(m, b));
    }
  }

  /** The used block c grows down over the free block p below it. */
  function GrownDown(m: Mem, p: int, c: int): Mem
    requires |m.nx| == |m.pv| == |m.nf| == |m.pf| && 0 <= p < |m.nx| && 0 <= c < |m.nx| && p != c
    requires 0 <= m.pf[p] < |m.nx| && 0 <= m.nf[p] < |m.nx| && m.pf[p] != p && 0 <= m.pv[c] < |m.nx|
             && 0 <= m.nx[c] < |m.nx|
  {
    MergedDown(Disconnected(m, p), c, 0)
  }

  lemma MergeOthers(m: Mem, n: int, starts: set<int>, p: int, c: int)
    requires CanMerge(m, n, starts, p, c) && m.pv[c] == p && 0 <= m.nx[c] < n && Shape(MergedDown(m, c, 0), n)
    ensures OthersKept(m, MergedDown(m, c, 0), n, starts, {p, c})
  {
    forall b | Live(m, n, starts, b) && b !in {p, c} ensures Kept(m, MergedDown(m, c, 0), n, b) {
      MergeKeepsData(m, n, starts, p, c, 0, b);
    }
  }

  ghost predicate CanGrowDown(m: Mem, n: int, starts: set<int>, ring: seq<int>, p: int, c: int, i: int) {
    Healthy(m, n, starts, ring) && Live(m, n, starts, c) && p == m.pv[c] && OnFreeList(m, n, starts, ring, p, i)
  }

  lemma GrowDownPlaces(m: Mem, n: int, starts: set<int>, ring: seq<int>, p: int, c: int, i: int)
    requires CanGrowDown(m, n, starts, ring, p, c, i)
    ensures 0 <= m.pf[p] < n && 0 <= m.nf[p] < n && m.pf[p] != p && 0 < p < c && 0 <= m.nx[c] < n
    ensures Chain(Disconnected(m, p), n, starts) && CanMerge(Disconnected(m, p), n, starts, p, c)
    ensures !Flagged(Disconnected(m, p), p) && Disconnected(m, p).nx[c] == m.nx[c] == Next(m, c)
  {
    Predecessor(m, n, starts, c);
    FreeNeighbours(m, n, starts, ring, p, i);
    DisconnectKeepsHealth(m, n, starts, ring, p, i);
    assert Next(m, c) == m.nx[c];
    assert Next(Disconnected(m, p), p) == Next(m, p);
  }

  lemma GrowDownHealth(m: Mem, n: int, starts: set<int>, ring: seq<int>, p: int, c: int, i: int)
    requires CanGrowDown(m, n, starts, ring, p, c, i)
    ensures 0 <= m.pf[p] < n && 0 <= m.nf[p] < n && m.pf[p] != p && 0 < p < c && 0 <= m.nx[c] < n
    ensures Healthy(GrownDown(m, p, c), n, starts - {c}, ring[..i] + ring[i + 1..])
    ensures LiveSet(GrownDown(m, p, c), n, starts - {c}) == LiveSet(m, n, starts) - {c} + {p}
    ensures Next(GrownDown(m, p, c), p) == Next(m, c)
  {
    GrowDownPlaces(m, n, starts, ring, p, c, i);
    DisconnectKeepsHealth(m, n, starts, ring, p, i);
    MergeKeepsHealth(Disconnected(m, p), n, starts, ring[..i] + ring[i + 1..], p, c, 0);
    var m2 := GrownDown(m, p, c);
    forall b | 0 <= b < n ensures Flagged(m2, b) <==> Flagged(m, b) && b != p {}
  }

  lemma GrowDownData(m: Mem, n: int, starts: set<int>, ring: seq<int>, p: int, c: int, i: int)
    requires CanGrowDown(m, n, starts, ring, p, c, i)
    requires 0 <= m.pf[p] < n && 0 <= m.nf[p] < n && m.pf[p] != p && 0 < p < c && 0 <= m.nx[c] < n
    requires Shape(GrownDown(m, p, c), n)
    ensures OthersKept(m, GrownDown(m, p, c), n, starts, {c})
    ensures SameData(m, c, GrownDown(m, p, c), c, Next(m, c) - c, n)
  {
    GrowDownPlaces(m, n, starts, ring, p, c, i);
    TakeStep(m, n, starts, ring, p, i);
    var m1, m2 := Disconnected(m, p), GrownDown(m, p, c);
    MergeOthers(m1, n, starts, p, c);
    OthersKeptCompose(m, m1, m2, n, starts, starts, {}, {p, c});
    assert p !in LiveSet(m, n, starts);
    DisconnectKeepsData(m, n, starts, ring, p, i, c);
  }

  // ---------- moving data inside a live block ----------

  /** m' differs from m only in data of the live block p. */
  ghost predicate OnlyDataOf(m: Mem, m': Mem, n: int, starts: set<int>, p: int)
    requires Chain(m, n, starts) && Live(m, n, starts, p) && Shape(m', n)
  {
    forall b {:trigger m'.nx[b]} {:trigger m'.pv[b]} {:trigger m'.nf[b]} {:trigger m'.pf[b]} :: 0 <= b < n ==>
      && (p < b < Next(m, p) || (m'.nx[b] == m.nx[b] && m'.pv[b] == m.pv[b]))
      && (p <= b < Next(m, p) || (m'.nf[b] == m.nf[b] && m'.pf[b] == m.pf[b]))
  }

  lemma DataHeaders(m: Mem, m': Mem, n: int, starts: set<int>, p: int)
    requires Chain(m, n, starts) && Live(m, n, starts, p) && Shape(m', n) && OnlyDataOf(m, m', n, starts, p)
    ensures Chain(m', n, starts) && LiveSet(m', n, starts) == LiveSet(m, n, starts)
    ensures forall b {:trigger Next(m', b)} :: b in starts ==> Next(m', b) == Next(m, b)
    ensures forall b {:trigger Flagged(m', b)} :: b in starts ==> (Flagged(m', b) <==> Flagged(m, b))
  {
    forall b | b in starts
      ensures m'.nx[b] == m.nx[b] && m'.pv[b] == m.pv[b] && Next(m', b) == Next(m, b)
              && (Flagged(m', b) <==> Flagged(m, b))
    {}
  }

  lemma DataRing(m: Mem, m': Mem, n: int, starts: set<int>, ring: seq<int>, p: int)
    requires WellFormed(m, n, starts, ring) && Live(m, n, starts, p) && Shape(m', n) && OnlyDataOf(m, m', n, starts, p)
    ensures Linked(m'.nf, m'.pf, ring)
  {
    RingHoldsFree(m, n, starts, ring, p);
    forall j | 0 <= j < |ring|
      ensures m'.nf[ring[j]] == m.nf[ring[j]] && m'.pf[Succ(ring, j)] == m.pf[Succ(ring, j)]
    {
      assert ring[j] in starts && Succ(ring, j) in ring;
    }
  }

  lemma DataStep(m: Mem, m': Mem, n: int, starts: set<int>, ring: seq<int>, p: int)
    requires Healthy(m, n, starts, ring) && Live(m, n, starts, p) && Shape(m', n) && OnlyDataOf(m, m', n, starts, p)
    ensures Healthy(m', n, starts, ring)
    ensures OthersKept(m, m', n, starts, {p})
    ensures LiveSet(m', n, starts) == LiveSet(m, n, starts) && Next(m', p) == Next(m, p)
  {
    DataHeaders(m, m', n, starts, p);
    DataRing(m, m', n, starts, ring, p);
    forall b | Live(m, n, starts, b) && b != p ensures Kept(m, m', n, b) {
      assert Next(m, b) <= p || Next(m, p) <= b;
    }
  }

  // ---------- following one block's data through several steps ----------

  /** Data carried to c', cut to j units, is still there after a step that keeps c' whole. */
  lemma SameDataThenKept(m: Mem, c: int, m': Mem, c': int, m'': Mem, j: int, n: int)
    requires Shape(m, n) && Shape(m', n) && Shape(m'', n) && 0 <= c && 0 <= c' && 1 <= j && c + j <= n && c' + j <= n
    requires SameData(m, c, m', c', j, n) && Kept(m', m'', n, c') && c' + j <= Next(m', c')
    ensures SameData(m, c, m'', c', j, n)
  {
    forall i, i' {:trigger m.nx[i], m''.nx[i']} | c < i < c + j && i' - c' == i - c
      ensures m''.nx[i'] == m.nx[i] && m''.pv[i'] == m.pv[i] && m''.nf[i'] == m.nf[i] && m''.pf[i'] == m.pf[i]
    {
      assert m''.nx[i'] == m'.nx[i'] && m'.nx[i'] == m.nx[i];
    }
  }

  lemma SameDataCompose(m: Mem, c: int, m': Mem, c': int, m'': Mem, c'': int, j: int, k: int, n: int)
    requires Shape(m, n) && Shape(m', n) && Shape(m'', n) && 0 <= c && 0 <= c' && 0 <= c''
    requires 1 <= j <= k && c + k <= n && c' + k <= n && c'' + j <= n
    requires SameData(m, c, m', c', k, n) && SameData(m', c', m'', c'', j, n)
    ensures SameData(m, c, m'', c'', j, n)
  {
    forall i, i'' | c < i < c + j && i'' - c'' == i - c
      ensures m''.nx[i''] == m.nx[i] && m''.pv[i''] == m.pv[i] && m''.nf[i''] == m.nf[i] && m''.pf[i''] == m.pf[i]
    {
      var i' := c' + (i - c);
      assert m'.nx[i'] == m.nx[i] && m''.nx[i''] == m'.nx[i'];
      assert m'.nf[i'] == m.nf[i] && m''.nf[i''] == m'.nf[i'];
    }
  }

  function Overwritten(s: seq<int>, dst: int, src: int, k: int): (s': seq<int>)
    requires 0 <= dst && 0 <= src && 0 <= k && dst + k <= |s| && src + k <= |s|
    ensures |s'| == |s|
    ensures forall b {:trigger s'[b]} :: 0 <= b < |s| ==>
            s'[b] == if dst <= b < dst + k then s[src + (b - dst)] else s[b]
  {
    s[..dst] + s[src..src + k] + s[dst + k..]
  }

  function DataCopied(m: Mem, dst: int, src: int, k: int): Mem
    requires |m.nx| == |m.pv| == |m.nf| == |m.pf| && 0 <= dst && 0 <= src && 1 <= k && dst + k <= |m.nx|
             && src + k <= |m.nx|
  {
    Mem(Overwritten(m.nx, dst + 1, src + 1, k - 1), Overwritten(m.pv, dst + 1, src + 1, k - 1),
        Overwritten(m.nf, dst, src, k), Overwritten(m.pf, dst, src, k))
  }

  lemma CopiedShape(m: Mem, n: int, dst: int, src: int, k: int)
    requires Shape(m, n) && 0 <= dst && 0 <= src && 1 <= k && dst + k <= n && src + k <= n
    ensures Shape(DataCopied(m, dst, src, k), n) && SameData(m, src, DataCopied(m, dst, src, k), dst, k, n)
  {
    var m' := DataCopied(m, dst, src, k);
    forall i, i' | src < i < src + k && i' - dst == i - src
      ensures m'.nx[i'] == m.nx[i] && m'.pv[i'] == m.pv[i] && m'.nf[i'] == m.nf[i] && m'.pf[i'] == m.pf[i]
    {
      assert i == src + (i' - dst) && i == src + 1 + (i' - (dst + 1));
    }
  }

  lemma CopiedOnlyData(m: Mem, n: int, starts: set<int>, dst: int, src: int, k: int)
    requires Chain(m, n, starts) && Live(m, n, starts, dst) && 1 <= k <= Next(m, dst) - dst
    requires 0 <= src && src + k <= n && Shape(DataCopied(m, dst, src, k), n)
    ensures OnlyDataOf(m, DataCopied(m, dst, src, k), n, starts, dst)
  {}

  lemma CopyStep(m: Mem, n: int, starts: set<int>, ring: seq<int>, dst: int, src: int, k: int)
    requires Healthy(m, n, starts, ring) && Live(m, n, starts, dst) && 1 <= k <= Next(m, dst) - dst
    requires 0 <= src && src + k <= n
    ensures Shape(DataCopied(m, dst, src, k), n) && Healthy(DataCopied(m, dst, src, k), n, starts, ring)
    ensures SameData(m, src, DataCopied(m, dst, src, k), dst, k, n)
    ensures OthersKept(m, DataCopied(m, dst, src, k), n, starts, {dst})
    ensures LiveSet(DataCopied(m, dst, src, k), n, starts) == LiveSet(m, n, starts)
    ensures Next(DataCopied(m, dst, src, k), dst) == Next(m, dst)
  {
    CopiedShape(m, n, dst, src, k);
    CopiedOnlyData(m, n, starts, dst, src, k);
    DataStep(m, DataCopied(m, dst, src, k), n, starts, ring, dst);
  }

  /** Block c of m is block c' of m' with at least its first j units of data; all other live blocks are kept. */
  ghost predicate Carried(m: Mem, m': Mem, n: int, starts: set<int>, c: int, c': int, j: int)
    requires Chain(m, n, starts) && Shape(m', n) && 0 <= c && 0 <= c' && c + j <= n && c' + j <= n && j >= 1
  {
    OthersKept(m, m', n, starts, {c}) && SameData(m, c, m', c', j, n)
  }

  /** The places written when c moves down into p are in range and apart. */
  ghost predicate MovePlaces(m: Mem, n: int, p: int, c: int) {
    && |m.nx| == |m.pv| == |m.nf| == |m.pf| == n && 0 < p < c < n && c < m.nx[c] < n && m.pv[c] == p
    && 0 <= m.pf[p] < n && 0 <= m.nf[p] < n && m.pf[p] != p && m.nf[p] != p
  }

  /** c has moved down into the free block p: links first, then the data. */
  function MovedDown(m: Mem, n: int, p: int, c: int, k: int): Mem
    requires 0 <= c < |m.nx| && 0 <= p < |m.pf| && MovePlaces(m, n, p, c) && 1 <= k <= m.nx[c] - c
  {
    DataCopied(GrownDown(m, p, c), p, c, k)
  }

  lemma CanMoveDown(m: Mem, n: int, starts: set<int>, ring: seq<int>, p: int, c: int, i: int)
    requires CanGrowDown(m, n, starts, ring, p, c, i)
    ensures MovePlaces(m, n, p, c) && m.nx[c] == Next(m, c)
  {
    FreeNeighbours(m, n, starts, ring, p, i);
    GrowDownPlaces(m, n, starts, ring, p, c, i);
  }

  lemma MovedDownHealth(m: Mem, n: int, starts: set<int>, ring: seq<int>, p: int, c: int, i: int, k: int)
    requires CanGrowDown(m, n, starts, ring, p, c, i) && MovePlaces(m, n, p, c) && 1 <= k <= m.nx[c] - c
    ensures Healthy(MovedDown(m, n, p, c, k), n, starts - {c}, ring[..i] + ring[i + 1..])
    ensures LiveSet(MovedDown(m, n, p, c, k), n, starts - {c}) == LiveSet(m, n, starts) - {c} + {p}
    ensures Next(MovedDown(m, n, p, c, k), p) == Next(m, c)
  {
    GrowDownHealth(m, n, starts, ring, p, c, i);
    assert p in LiveSet(GrownDown(m, p, c), n, starts - {c});
    CopyStep(GrownDown(m, p, c), n, starts - {c}, ring[..i] + ring[i + 1..], p, c, k);
  }

  lemma MovedDownData(m: Mem, n: int, starts: set<int>, ring: seq<int>, p: int, c: int, i: int, k: int)
    requires CanGrowDown(m, n, starts, ring, p, c, i) && MovePlaces(m, n, p, c) && 1 <= k <= m.nx[c] - c
    requires Shape(MovedDown(m, n, p, c, k), n)
    ensures Carried(m, MovedDown(m, n, p, c, k), n, starts, c, p, k)
  {
    GrowDownHealth(m, n, starts, ring, p, c, i);
    GrowDownData(m, n, starts, ring, p, c, i);
    GrownThenCopied(m, GrownDown(m, p, c), MovedDown(m, n, p, c, k), n, starts, starts - {c},
                    ring[..i] + ring[i + 1..], c, p, k);
  }

  lemma GrownThenCopied(m: Mem, m1: Mem, m2: Mem, n: int, s: set<int>, s1: set<int>, ring1: seq<int>, c: int, p: int,
                        k: int)
    requires Chain(m, n, s) && Healthy(m1, n, s1, ring1) && 0 <= p < c < n && k >= 1 && c + k <= n && Flagged(m, p)
    requires LiveSet(m1, n, s1) == LiveSet(m, n, s) - {c} + {p} && c + k <= Next(m1, p)
    requires OthersKept(m, m1, n, s, {c}) && SameData(m, c, m1, c, k, n)
    requires m2 == DataCopied(m1, p, c, k) && Shape(m2, n)
    ensures Carried(m, m2, n, s, c, p, k)
  {
    assert p in LiveSet(m1, n, s1) && p !in LiveSet(m, n, s);
    CopyStep(m1, n, s1, ring1, p, c, k);
    CarriedCompose(m, m1, m2, n, s, s1, c, p, k);
  }

  lemma CarriedCompose(m: Mem, m1: Mem, m2: Mem, n: int, s: set<int>, s1: set<int>, c: int, p: int, k: int)
    requires Chain(m, n, s) && Chain(m1, n, s1) && Shape(m2, n) && 0 <= p < c && 1 <= k && c + k <= n
    requires OthersKept(m, m1, n, s, {c}) && SameData(m, c, m1, c, k, n)
    requires OthersKept(m1, m2, n, s1, {p}) && SameData(m1, c, m2, p, k, n)
    requires LiveSet(m1, n, s1) == LiveSet(m, n, s) - {c} + {p} && p !in LiveSet(m, n, s)
    ensures Carried(m, m2, n, s, c, p, k)
  {
    SameDataCompose(m, c, m1, c, m2, p, k, k, n);
    OthersKeptCompose(m, m1, m2, n, s, s1, {c}, {p});
  }

  lemma SameDataCut(m: Mem, c: int, m': Mem, c': int, j: int, k: int, n: int)
    requires Shape(m, n) && Shape(m', n) && 0 <= c && 0 <= c' && 1 <= j <= k && c + k <= n && c' + k <= n
    requires SameData(m, c, m', c', k, n)
    ensures SameData(m, c, m', c', j, n)
  {
    forall i, i' | c < i < c + j && i' - c' == i - c
      ensures m'.nx[i'] == m.nx[i] && m'.pv[i'] == m.pv[i] && m'.nf[i'] == m.nf[i] && m'.pf[i'] == m.pf[i]
    {
      assert c < i < c + k;
      assert m'.nx[i'] == m.nx[i];
    }
  }

  /** Carrying c to c1 and then c1 to c2 carries c to c2, as much of it as both steps carry. */
  lemma CarriedThen(m: Mem, m1: Mem, m2: Mem, n: int, s: set<int>, s1: set<int>, c: int, c1: int, c2: int, k: int,
                    k': int, j: int)
    requires Chain(m, n, s) && Chain(m1, n, s1) && Shape(m2, n) && 0 <= c && 0 <= c1 && 0 <= c2
    requires 1 <= k && 1 <= k' && c + k <= n && c1 + k <= n && c1 + k' <= n && c2 + k' <= n
    requires Carried(m, m1, n, s, c, c1, k) && Carried(m1, m2, n, s1, c1, c2, k')
    requires LiveSet(m1, n, s1) == LiveSet(m, n, s) - {c} + {c1} && (c1 == c || c1 !in LiveSet(m, n, s))
    requires j == if k < k' then k else k'
    ensures Carried(m, m2, n, s, c, c2, j)
  {
    SameDataCut(m1, c1, m2, c2, j, k', n);
    SameDataCompose(m, c, m1, c1, m2, c2, j, k, n);
    OthersKeptCompose(m, m1, m2, n, s, s1, {c}, {c1});
  }
}
