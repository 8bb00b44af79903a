/** What an empty split does to the heap: a block that is its own successor leaves no block chain at all. */
module UmmBroken {
  import opened UmmHeap

  /** Whatever the block starts are taken to be, they form no chain. */
  ghost predicate NoChain(m: Mem, n: int) {
    forall starts {:trigger Chain(m, n, starts)} :: !Chain(m, n, starts)
  }

  /** Links that agree below c lead any chain from b up to c. */
  lemma {:induction false} ChainReaches(m: Mem, m': Mem, n: int, starts: set<int>, starts': set<int>, b: int, c: int)
    requires Chain(m, n, starts) && Chain(m', n, starts') && b in starts && b in starts' && c in starts
             && b <= c < n - 1
    requires forall x {:trigger m'.nx[x]} :: 0 <= x < n && x != c ==> m'.nx[x] == m.nx[x]
    ensures c in starts'
    decreases c - b
  {
    if b < c {
      assert m'.nx[b] == m.nx[b];
      assert Next(m', b) == Next(m, b);
      ChainReaches(m, m', n, starts, starts', Next(m, b), c);
    }
  }

  lemma SelfLoopBreaksChain(m: Mem, m': Mem, n: int, starts: set<int>, c: int)
    requires Chain(m, n, starts) && c in starts && 0 < c < n - 1 && |m'.nx| == n && Next(m', c) == c
    requires forall x {:trigger m'.nx[x]} :: 0 <= x < n && x != c ==> m'.nx[x] == m.nx[x]
    ensures NoChain(m', n)
  {
    forall starts' | Chain(m', n, starts') ensures false {
      ChainReaches(m, m', n, starts, starts', 1, c);
    }
  }

  /** Splitting zero units off a block of a healthy heap. */
  lemma EmptySplitBreaks(m: Mem, n: int, starts: set<int>, c: int, mask: int)
    requires Chain(m, n, starts) && c in starts && 0 < c < n - 1
    ensures c < Next(m, c) < n && Next(Split(m, c, 0, mask), c) == c && !Flagged(Split(m, c, 0, mask), c)
    ensures NoChain(Split(m, c, 0, mask), n)
  {
    SelfLoopBreaksChain(m, Split(m, c, 0, mask), n, starts, c);
  }

  /** The block then goes on the free list, as umm_free does with what it takes for the rest. */
  lemma PushedSplitBreaks(m: Mem, n: int, starts: set<int>, c: int)
    requires Chain(m, n, starts) && c in starts && 0 < c < n - 1 && 0 <= m.nf[0] < n
    ensures Next(m, c) < n && Next(Pushed(Split(m, c, 0, 0), c), c) == c && Flagged(Pushed(Split(m, c, 0, 0), c), c)
    ensures NoChain(Pushed(Split(m, c, 0, 0), c), n)
  {
    EmptySplitBreaks(m, n, starts, c, 0);
    SelfLoopBreaksChain(m, Pushed(Split(m, c, 0, 0), c), n, starts, c);
  }

  lemma SecondIsFree(m: Mem, n: int, starts: set<int>, ring: seq<int>)
    requires WellFormed(m, n, starts, ring) && |ring| > 1
    ensures ring[1] in starts && 0 <= ring[1] < n && Flagged(m, ring[1])
  {}

  lemma EmptyFreeList(m: Mem, n: int, starts: set<int>, ring: seq<int>)
    requires WellFormed(m, n, starts, ring)
    requires forall f {:trigger Flagged(m, f)} :: f in starts && 0 <= f < n ==> !Flagged(m, f)
    ensures m.nf[0] == 0 && m.pf[0] == 0 && 0 < m.nx[0] < FREELIST_MASK
  {
    if |ring| > 1 {
      SecondIsFree(m, n, starts, ring);
      assert false;
    }
    assert Succ(ring, 0) == 0;
    assert Next(m, 0) == m.nx[0];
  }
}
