/**
  The umm_malloc heap as values: four header and body fields per block unit, the set of block starts,
  and the circular free list through unit 0. A unit that is not a block start is plain data.
 */
module UmmHeap {

  const FREELIST_MASK: int := 0x8000

  /** next, prev of the header; next and prev free links of the body, which double as data. */
  datatype Mem = Mem(nx: seq<int>, pv: seq<int>, nf: seq<int>, pf: seq<int>)

  function Next(m: Mem, b: int): int
    requires 0 <= b < |m.nx|
  {
    m.nx[b] % FREELIST_MASK
  }

  predicate Flagged(m: Mem, b: int)
    requires 0 <= b < |m.nx|
  {
    m.nx[b] >= FREELIST_MASK
  }

  ghost predicate Shape(m: Mem, n: int) {
    && 3 <= n < 0x7FFF
    && |m.nx| == |m.pv| == |m.nf| == |m.pf| == n
    && forall b {:trigger m.nx[b]} :: 0 <= b < n ==> 0 <= m.nx[b] < 0x1_0000
  }

  /** The block chain: it rises from 0 through 1 to n - 1, and prev is its inverse. */
  ghost predicate Chain(m: Mem, n: int, starts: set<int>) {
    && Shape(m, n)
    && 0 in starts && 1 in starts && n - 1 in starts
    && (forall b {:trigger b in starts} :: b in starts ==> 0 <= b < n)
    && (forall b {:trigger Next(m, b)} :: b in starts && b < n - 1 ==>
          b < Next(m, b) < n && Next(m, b) in starts && m.pv[Next(m, b)] == b)
    && (forall b, x {:trigger Next(m, b), x in starts} :: b in starts && b < n - 1 && x in starts && b < x ==>
        Next(m, b) <= x)
    && m.nx[n - 1] == 0 && !Flagged(m, 0)
  }

  function Succ(ring: seq<int>, i: int): int
    requires 0 <= i < |ring|
  {
    if i + 1 < |ring| then ring[i + 1] else ring[0]
  }

  ghost predicate Distinct(ring: seq<int>) {
    forall i, j {:trigger ring[i], ring[j]} :: 0 <= i < j < |ring| ==> ring[i] != ring[j]
  }

  /** nf and pf run forwards and backwards through ring. */
  ghost predicate Linked(nf: seq<int>, pf: seq<int>, ring: seq<int>) {
    && |ring| >= 1 && Distinct(ring)
    && (forall i {:trigger ring[i]} :: 0 <= i < |ring| ==> 0 <= ring[i] < |nf| && ring[i] < |pf|)
    && (forall i {:trigger Succ(ring, i)} :: 0 <= i < |ring| ==>
        nf[ring[i]] == Succ(ring, i) && pf[Succ(ring, i)] == ring[i])
  }

  /** The members of the free list are 0 and the flagged blocks. */
  ghost predicate RingIsFree(m: Mem, n: int, starts: set<int>, ring: seq<int>)
    requires Shape(m, n)
  {
    && |ring| >= 1 && ring[0] == 0
    && (forall i {:trigger ring[i]} :: 0 <= i < |ring| ==> ring[i] in starts && 0 <= ring[i] < n - 1)
    && (forall i {:trigger ring[i]} :: 1 <= i < |ring| ==> Flagged(m, ring[i]))
    && (forall b {:trigger b in ring} {:trigger m.nx[b]} :: b in starts && 0 <= b < n && Flagged(m, b) ==> b in ring)
  }

  /** The free list: the flagged blocks, linked both ways in a circle through 0. */
  ghost predicate FreeRing(m: Mem, n: int, starts: set<int>, ring: seq<int>)
    requires Shape(m, n)
  {
    RingIsFree(m, n, starts, ring) && Linked(m.nf, m.pf, ring)
  }

  ghost predicate WellFormed(m: Mem, n: int, starts: set<int>, ring: seq<int>) {
    Chain(m, n, starts) && FreeRing(m, n, starts, ring)
  }

  /** No two free blocks are neighbours. */
  ghost predicate Coalesced(m: Mem, n: int, starts: set<int>)
    requires Chain(m, n, starts)
  {
    forall b {:trigger Next(m, b)} :: b in starts && Flagged(m, b) ==> !Flagged(m, Next(m, b))
  }

  ghost predicate Live(m: Mem, n: int, starts: set<int>, b: int)
    requires Chain(m, n, starts)
  {
    b in starts && 0 < b < n - 1 && !Flagged(m, b)
  }

  /** The data of the k-unit block c in m is the same as at c' in m'. */
  ghost predicate SameData(m: Mem, c: int, m': Mem, c': int, k: int, n: int)
    requires Shape(m, n) && Shape(m', n) && 0 <= c && 0 <= c' && c + k <= n && c' + k <= n && k >= 1
  {
    && m'.nf[c'] == m.nf[c] && m'.pf[c'] == m.pf[c]
    && forall i, i' {:trigger m.nx[i], m'.nx[i']} {:trigger m'.nf[i'], m.nf[i]} :: c < i < c + k && i' - c' == i - c ==>
         m'.nx[i'] == m.nx[i] && m'.pv[i'] == m.pv[i] && m'.nf[i'] == m.nf[i] && m'.pf[i'] == m.pf[i]
  }

  /** Block b keeps its extent, stays live, and none of its data changes. */
  ghost predicate Kept(m: Mem, m': Mem, n: int, b: int)
    requires Shape(m, n) && Shape(m', n) && 0 <= b < n
  {
    && m'.nx[b] == m.nx[b] && m'.nf[b] == m.nf[b] && m'.pf[b] == m.pf[b]
    && forall i {:trigger m'.nx[i]} {:trigger m'.nf[i]} {:trigger m'.pv[i]} {:trigger m'.pf[i]} ::
         b < i < Next(m, b) && i < n ==>
         m'.nx[i] == m.nx[i] && m'.pv[i] == m.pv[i] && m'.nf[i] == m.nf[i] && m'.pf[i] == m.pf[i]
  }

  // ---------- taking a block off the free list ----------

  function Disconnected(m: Mem, c: int): Mem
    requires |m.nx| == |m.pv| == |m.nf| == |m.pf| && 0 <= c < |m.nx|
    requires 0 <= m.pf[c] < |m.nx| && 0 <= m.nf[c] < |m.nx| && m.pf[c] != c
  {
    Mem(m.nx[c := Next(m, c)], m.pv, m.nf[m.pf[c] := m.nf[c]], m.pf[m.nf[c] := m.pf[c]])
  }

  ghost predicate OnFreeList(m: Mem, n: int, starts: set<int>, ring: seq<int>, c: int, i: int) {
    WellFormed(m, n, starts, ring) && 1 <= i < |ring| && ring[i] == c
  }

  lemma FreeNeighbours(m: Mem, n: int, starts: set<int>, ring: seq<int>, c: int, i: int)
    requires OnFreeList(m, n, starts, ring, c, i)
    ensures 0 < c < n - 1 && c in starts && Flagged(m, c)
    ensures m.pf[c] == ring[i - 1] && m.nf[c] == Succ(ring, i) && m.nf[c] in ring && m.pf[c] in starts
            && m.nf[c] in starts
    ensures m.pf[c] != c && m.nf[c] != c && 0 <= m.pf[c] < n - 1 && 0 <= m.nf[c] < n - 1
  {
    assert Succ(ring, i - 1) == c && Succ(ring, i) in ring;
    assert ring[0] != c;
  }

  lemma DisconnectKeepsChain(m: Mem, n: int, starts: set<int>, ring: seq<int>, c: int, i: int)
    requires OnFreeList(m, n, starts, ring, c, i)
    ensures 0 <= m.pf[c] < n && 0 <= m.nf[c] < n && m.pf[c] != c
    ensures Chain(Disconnected(m, c), n, starts)
  {
    FreeNeighbours(m, n, starts, ring, c, i);
    var m' := Disconnected(m, c);
    forall b | 0 <= b < n ensures Next(m', b) == Next(m, b) {}
  }

  lemma SuccIsInjective(ring: seq<int>, i: int, j: int)
    requires Distinct(ring) && 0 <= i < |ring| && 0 <= j < |ring| && i != j
    ensures Succ(ring, i) != Succ(ring, j)
  {}

  /** Unlinking the i-th member of a ring. */
  lemma UnlinkKeepsLinks(nf: seq<int>, pf: seq<int>, ring: seq<int>, i: int)
    requires Linked(nf, pf, ring) && 1 <= i < |ring|
    ensures Linked(nf[ring[i - 1] := Succ(ring, i)], pf[Succ(ring, i) := ring[i - 1]], ring[..i] + ring[i + 1..])
  {
    var ring' := ring[..i] + ring[i + 1..];
    forall j | 0 <= j < |ring'|
      ensures ring'[j] == ring[if j < i then j else j + 1]
      ensures Succ(ring', j) == if j == i - 1 then Succ(ring, i) else Succ(ring, if j < i then j else j + 1)
      ensures j != i - 1 ==> Succ(ring', j) != Succ(ring, i)
    {
      UnlinkedAt(ring, i, j);
    }
    var nf', pf' := nf[ring[i - 1] := Succ(ring, i)], pf[Succ(ring, i) := ring[i - 1]];
    forall j | 0 <= j < |ring'| ensures nf'[ring'[j]] == Succ(ring', j) && pf'[Succ(ring', j)] == ring'[j] {
      var j0 := if j < i then j else j + 1;
      assert nf[ring[j0]] == Succ(ring, j0) && pf[Succ(ring, j0)] == ring[j0];
      assert ring[j0] in ring && ring[i] in ring;
    }
  }

  lemma UnlinkedAt(ring: seq<int>, i: int, j: int)
    requires Distinct(ring) && 1 <= i < |ring| && 0 <= j < |ring| - 1
    ensures var ring' := ring[..i] + ring[i + 1..];
            && ring'[j] == ring[if j < i then j else j + 1]
            && Succ(ring', j) == (if j == i - 1 then Succ(ring, i) else Succ(ring, if j < i then j else j + 1))
            && (j != i - 1 ==> Succ(ring', j) != Succ(ring, i))
  {
    if j != i - 1 {
      SuccIsInjective(ring, if j < i then j else j + 1, i);
    }
  }

  lemma StaysMember(ring: seq<int>, i: nat, b: int)
    requires i < |ring| && b in ring && b != ring[i]
    ensures b in ring[..i] + ring[i + 1..]
  {
    var j :| 0 <= j < |ring| && ring[j] == b;
    assert (ring[..i] + ring[i + 1..])[if j < i then j else j - 1] == b;
  }

  lemma DisconnectKeepsRing(m: Mem, n: int, starts: set<int>, ring: seq<int>, c: int, i: int)
    requires OnFreeList(m, n, starts, ring, c, i)
    requires 0 <= m.pf[c] < n && 0 <= m.nf[c] < n && m.pf[c] != c
    requires Shape(Disconnected(m, c), n)
    ensures RingIsFree(Disconnected(m, c), n, starts, ring[..i] + ring[i + 1..])
  {
    var m', ring' := Disconnected(m, c), ring[..i] + ring[i + 1..];
    forall j | 0 <= j < |ring'|
      ensures ring'[j] in starts && 0 <= ring'[j] < n - 1 && (j >= 1 ==> Flagged(m', ring'[j]))
    {
      assert ring'[j] == ring[if j < i then j else j + 1] != c;
    }
    forall b | b in starts && 0 <= b < n && Flagged(m', b) ensures b in ring' {
      assert Flagged(m, b);
      StaysMember(ring, i, b);
    }
  }

  lemma DisconnectKeepsHeap(m: Mem, n: int, starts: set<int>, ring: seq<int>, c: int, i: int)
    requires OnFreeList(m, n, starts, ring, c, i)
    ensures 0 <= m.pf[c] < n && 0 <= m.nf[c] < n && m.pf[c] != c
    ensures WellFormed(Disconnected(m, c), n, starts, ring[..i] + ring[i + 1..])
  {
    FreeNeighbours(m, n, starts, ring, c, i);
    DisconnectKeepsChain(m, n, starts, ring, c, i);
    DisconnectKeepsRing(m, n, starts, ring, c, i);
    UnlinkKeepsLinks(m.nf, m.pf, ring, i);
  }

  // ---------- block starts inside and outside blocks ----------

  /** A start above b is not inside b. */
  lemma NoStartInside(m: Mem, n: int, starts: set<int>, b: int, i: int)
    requires Chain(m, n, starts) && b in starts && b < n - 1 && b < i < Next(m, b)
    ensures i !in starts
  {}

  /** A unit is inside at most one block. */
  lemma InsideIsUnique(m: Mem, n: int, starts: set<int>, b: int, c: int, i: int)
    requires Chain(m, n, starts) && b in starts && c in starts && b < n - 1 && c < n - 1 && b != c
    requires b < i < Next(m, b)
    ensures !(c < i < Next(m, c))
  {}

  lemma DisconnectKeepsData(m: Mem, n: int, starts: set<int>, ring: seq<int>, c: int, i: int, b: int)
    requires OnFreeList(m, n, starts, ring, c, i)
    requires 0 <= m.pf[c] < n && 0 <= m.nf[c] < n && m.pf[c] != c
    requires Shape(Disconnected(m, c), n)
    requires Live(m, n, starts, b)
    ensures Kept(m, Disconnected(m, c), n, b)
  {
    FreeNeighbours(m, n, starts, ring, c, i);
    assert m.pf[c] in ring;
  }

  // ---------- putting a block on the free list ----------

  function Pushed(m: Mem, c: int): Mem
    requires |m.nx| == |m.pv| == |m.nf| == |m.pf| && 0 <= c < |m.nx| && 0 <= m.nf[0] < |m.nx|
  {
    Mem(m.nx[c := Next(m, c) + FREELIST_MASK], m.pv, m.nf[c := m.nf[0]][0 := c], m.pf[m.nf[0] := c][c := 0])
  }

  lemma PushKeepsLinks(nf: seq<int>, pf: seq<int>, ring: seq<int>, c: int)
    requires Linked(nf, pf, ring) && ring[0] == 0 && 0 <= c < |nf| && c < |pf| && c !in ring
    ensures 0 <= nf[0] < |pf| && Linked(nf[c := nf[0]][0 := c], pf[nf[0] := c][c := 0], [0, c] + ring[1..])
  {
    var ring' := [0, c] + ring[1..];
    assert Succ(ring, 0) == nf[0] && Succ(ring, 0) in ring;
    forall j | 0 <= j < |ring'|
      ensures Succ(ring', j) == if j == 0 then c else Succ(ring, j - 1)
      ensures j >= 2 ==> Succ(ring', j) != Succ(ring, 0) && ring'[j] == ring[j - 1]
    {
      if j >= 2 {
        SuccIsInjective(ring, j - 1, 0);
      }
    }
  }

  lemma RingHoldsFree(m: Mem, n: int, starts: set<int>, ring: seq<int>, c: int)
    requires Shape(m, n) && RingIsFree(m, n, starts, ring)
    ensures c in ring ==> c == 0 || (0 < c < n && Flagged(m, c))
  {
    if c in ring {
      var j :| 0 <= j < |ring| && ring[j] == c;
    }
  }

  lemma PushKeepsHeap(m: Mem, n: int, starts: set<int>, ring: seq<int>, c: int)
    requires WellFormed(m, n, starts, ring) && Live(m, n, starts, c)
    ensures 0 <= m.nf[0] < n && WellFormed(Pushed(m, c), n, starts, [0, c] + ring[1..])
  {
    RingHoldsFree(m, n, starts, ring, c);
    PushKeepsLinks(m.nf, m.pf, ring, c);
    var m' := Pushed(m, c);
    forall b | 0 <= b < n ensures Next(m', b) == Next(m, b) && (Flagged(m', b) <==> Flagged(m, b) || b == c) {}
    PushKeepsMembers(ring, c);
  }

  lemma PushKeepsMembers(ring: seq<int>, c: int)
    requires |ring| >= 1 && ring[0] == 0
    ensures forall b :: b in [0, c] + ring[1..] <==> b == c || b in ring
  {
    assert ring == [0] + ring[1..];
  }

  lemma PushKeepsData(m: Mem, n: int, starts: set<int>, ring: seq<int>, c: int, b: int)
    requires WellFormed(m, n, starts, ring) && Live(m, n, starts, c) && Live(m, n, starts, b) && b != c
    requires 0 <= m.nf[0] < n && Shape(Pushed(m, c), n)
    ensures Kept(m, Pushed(m, c), n, b)
  {
    assert Succ(ring, 0) == m.nf[0] && Succ(ring, 0) in ring;
  }

  // ---------- splitting a block ----------

  function Split(m: Mem, c: int, k: int, mask: int): Mem
    requires |m.nx| == |m.pv| && 0 <= c && 0 <= k && c + k < |m.nx| && Next(m, c) < |m.nx|
  {
    Mem(m.nx[c + k := Next(m, c) + mask][c := c + k], m.pv[c + k := c][Next(m, c) := c + k], m.nf, m.pf)
  }

  ghost predicate CanSplit(m: Mem, n: int, starts: set<int>, c: int, k: int) {
    Chain(m, n, starts) && c in starts && 0 < c < n - 1 && 0 < k && c + k < Next(m, c)
  }

  lemma SplitKeepsChain(m: Mem, n: int, starts: set<int>, c: int, k: int, mask: int)
    requires CanSplit(m, n, starts, c, k) && (mask == 0 || mask == FREELIST_MASK)
    ensures Chain(Split(m, c, k, mask), n, starts + {c + k})
  {
    var m' := Split(m, c, k, mask);
    forall b | 0 <= b < n
      ensures Next(m', b) == if b == c + k then Next(m, c) else if b == c then c + k else Next(m, b)
      ensures Flagged(m', b) <==> if b == c + k then mask != 0 else b != c && Flagged(m, b)
    {}
  }

  lemma SplitKeepsData(m: Mem, n: int, starts: set<int>, c: int, k: int, mask: int, b: int)
    requires CanSplit(m, n, starts, c, k) && (mask == 0 || mask == FREELIST_MASK)
    requires Live(m, n, starts, b) && b != c && Shape(Split(m, c, k, mask), n)
    ensures Kept(m, Split(m, c, k, mask), n, b)
  {
    if b < c + k < Next(m, b) {
      InsideIsUnique(m, n, starts, b, c, c + k);
    }
  }

  // ---------- merging a block into its predecessor ----------

  function MergedDown(m: Mem, c: int, mask: int): Mem
    requires |m.nx| == |m.pv| && 0 <= c < |m.nx| && 0 <= m.pv[c] < |m.nx| && 0 <= m.nx[c] < |m.pv|
  {
    Mem(m.nx[m.pv[c] := m.nx[c] + mask], m.pv[m.nx[c] := m.pv[c]], m.nf, m.pf)
  }

  /** c is a used block with a predecessor other than unit 0. */
  ghost predicate CanMerge(m: Mem, n: int, starts: set<int>, p: int, c: int) {
    Chain(m, n, starts) && p in starts && 0 < p < n - 1 && c in starts && c < n - 1 && Next(m, p) == c && !Flagged(m, c)
  }

  lemma MergeKeepsChain(m: Mem, n: int, starts: set<int>, p: int, c: int, mask: int)
    requires CanMerge(m, n, starts, p, c) && (mask == 0 || mask == FREELIST_MASK)
    ensures m.pv[c] == p && 0 <= m.nx[c] < n && Chain(MergedDown(m, c, mask), n, starts - {c})
  {
    MergedHeaders(m, n, starts, p, c, mask);
    var m', s' := MergedDown(m, c, mask), starts - {c};
    forall b | b in s' && b < n - 1
      ensures b < Next(m', b) < n && Next(m', b) in s' && m'.pv[Next(m', b)] == b
      ensures forall x {:trigger x in s'} :: x in s' && b < x ==> Next(m', b) <= x
    {
      assert Next(m', b) == if b == p then Next(m, c) else Next(m, b);
      assert m.pv[Next(m, c)] == c && m.pv[Next(m, b)] == b;
    }
  }

  lemma MergedHeaders(m: Mem, n: int, starts: set<int>, p: int, c: int, mask: int)
    requires CanMerge(m, n, starts, p, c) && (mask == 0 || mask == FREELIST_MASK)
    ensures m.pv[c] == p && m.nx[c] == Next(m, c) && Shape(MergedDown(m, c, mask), n)
    ensures forall b {:trigger Next(MergedDown(m, c, mask), b)} {:trigger Flagged(MergedDown(m, c, mask), b)} ::
              0 <= b < n ==>
              && Next(MergedDown(m, c, mask), b) == (if b == p then Next(m, c) else Next(m, b))
              && (Flagged(MergedDown(m, c, mask), b) <==> if b == p then mask != 0 else Flagged(m, b))
  {
    assert Next(m, c) == m.nx[c] && Next(m, p) == c;
  }

  lemma MergeKeepsData(m: Mem, n: int, starts: set<int>, p: int, c: int, mask: int, b: int)
    requires CanMerge(m, n, starts, p, c) && (mask == 0 || mask == FREELIST_MASK)
    requires m.pv[c] == p && 0 <= m.nx[c] < n && Shape(MergedDown(m, c, mask), n)
    requires Live(m, n, starts, b) && b != c && b != p
    ensures Kept(m, MergedDown(m, c, mask), n, b)
  {
    assert Next(m, c) == m.nx[c] && Next(m, c) in starts && p in starts;
  }

  lemma KeptIsTransitive(m: Mem, m': Mem, m'': Mem, n: int, b: int)
    requires Shape(m, n) && Shape(m', n) && Shape(m'', n) && 0 <= b < n
    requires Kept(m, m', n, b) && Kept(m', m'', n, b)
    ensures Kept(m, m'', n, b)
  {}

  // ---------- the compound steps of the allocator ----------

  function SizeOf(m: Mem, b: int): int
    requires 0 <= b < |m.nx|
  {
    Next(m, b) - b
  }

  /** A healthy heap: well formed, and no two free blocks adjacent. */
  ghost predicate Healthy(m: Mem, n: int, starts: set<int>, ring: seq<int>) {
    WellFormed(m, n, starts, ring) && Coalesced(m, n, starts)
  }

  lemma MergeKeepsRing(m: Mem, n: int, starts: set<int>, ring: seq<int>, p: int, c: int, mask: int)
    requires WellFormed(m, n, starts, ring) && CanMerge(m, n, starts, p, c)
    requires mask == if Flagged(m, p) then FREELIST_MASK else 0
    requires m.pv[c] == p && 0 <= m.nx[c] < n && Shape(MergedDown(m, c, mask), n)
    ensures FreeRing(MergedDown(m, c, mask), n, starts - {c}, ring)
  {
    assert Next(m, c) == m.nx[c];
    RingHoldsFree(m, n, starts, ring, c);
    var m' := MergedDown(m, c, mask);
    forall b | 0 <= b < n ensures Flagged(m', b) <==> Flagged(m, b) {}
  }

  lemma MergeKeepsHealth(m: Mem, n: int, starts: set<int>, ring: seq<int>, p: int, c: int, mask: int)
    requires Healthy(m, n, starts, ring) && CanMerge(m, n, starts, p, c)
    requires mask == if Flagged(m, p) then FREELIST_MASK else 0
    requires mask != 0 ==> !Flagged(m, Next(m, c))
    ensures m.pv[c] == p && 0 <= m.nx[c] < n && Healthy(MergedDown(m, c, mask), n, starts - {c}, ring)
  {
    MergeKeepsChain(m, n, starts, p, c, mask);
    MergeKeepsRing(m, n, starts, ring, p, c, mask);
    var m' := MergedDown(m, c, mask);
    assert Next(m, c) == m.nx[c];
    forall b | 0 <= b < n
      ensures Next(m', b) == if b == p then Next(m, c) else Next(m, b)
      ensures Flagged(m', b) <==> Flagged(m, b)
    {}
    forall b | b in starts - {c} && Flagged(m', b) ensures !Flagged(m', Next(m', b)) {
      assert Flagged(m, b) && !Flagged(m, Next(m, b));
    }
  }

  lemma DisconnectKeepsHealth(m: Mem, n: int, starts: set<int>, ring: seq<int>, c: int, i: int)
    requires OnFreeList(m, n, starts, ring, c, i) && Coalesced(m, n, starts)
    ensures 0 <= m.pf[c] < n && 0 <= m.nf[c] < n && m.pf[c] != c
    ensures Healthy(Disconnected(m, c), n, starts, ring[..i] + ring[i + 1..])
  {
    DisconnectKeepsHeap(m, n, starts, ring, c, i);
    var m' := Disconnected(m, c);
    forall b | b in starts && Flagged(m', b) ensures !Flagged(m', Next(m', b)) {
      assert Flagged(m, b) && Next(m', b) == Next(m, b);
    }
  }

  lemma PushKeepsHealth(m: Mem, n: int, starts: set<int>, ring: seq<int>, c: int)
    requires Healthy(m, n, starts, ring) && Live(m, n, starts, c)
    requires !Flagged(m, Next(m, c)) && 0 <= m.pv[c] < n && !Flagged(m, m.pv[c])
    ensures 0 <= m.nf[0] < n && Healthy(Pushed(m, c), n, starts, [0, c] + ring[1..])
  {
    PushKeepsHeap(m, n, starts, ring, c);
    var m' := Pushed(m, c);
    forall b | b in starts && Flagged(m', b) ensures !Flagged(m', Next(m', b)) {
      assert Next(m', b) == Next(m, b);
      if b != c {
        assert Flagged(m, b) && Next(m, b) != c;
      }
    }
  }

  // ---------- the start of a free block moving up ----------

  function Moved(m: Mem, c: int, c': int): Mem
    requires |m.nx| == |m.pv| == |m.nf| == |m.pf| && 0 <= c < |m.nx| && 0 <= c' < |m.nx|
    requires 0 <= m.pf[c] < |m.nx| && 0 <= m.nf[c] < |m.nx|
  {
    Mem(m.nx, m.pv, m.nf[m.pf[c] := c'][c' := m.nf[c]], m.pf[c' := m.pf[c]][m.nf[c] := c'])
  }

  lemma MoveKeepsLinks(nf: seq<int>, pf: seq<int>, ring: seq<int>, i: int, c': int)
    requires Linked(nf, pf, ring) && 1 <= i < |ring| && 0 <= c' < |nf| && c' < |pf| && c' !in ring
    ensures pf[ring[i]] == ring[i - 1] && nf[ring[i]] == Succ(ring, i)
    ensures Linked(nf[ring[i - 1] := c'][c' := Succ(ring, i)], pf[c' := ring[i - 1]][Succ(ring, i) := c'],
                   ring[i := c'])
  {
    assert Succ(ring, i - 1) == ring[i] && Succ(ring, i) in ring;
    var ring' := ring[i := c'];
    forall j | 0 <= j < |ring'|
      ensures Succ(ring', j) == if j == i - 1 then c' else Succ(ring, j)
      ensures j != i ==> Succ(ring', j) != Succ(ring, i)
    {
      if j != i {
        SuccIsInjective(ring, j, i);
      }
    }
  }

  /** The free block c keeps its first k units for the caller; the rest stays free. */
  function Carved(m: Mem, c: int, k: int): Mem
    requires |m.nx| == |m.pv| == |m.nf| == |m.pf| && 0 <= c && 0 < k && c + k < |m.nx| && Next(m, c) < |m.nx|
    requires 0 <= m.pf[c] < |m.nx| && 0 <= m.nf[c] < |m.nx|
  {
    Moved(Split(m, c, k, FREELIST_MASK), c, c + k)
  }

  lemma CarveKeepsHealth(m: Mem, n: int, starts: set<int>, ring: seq<int>, c: int, i: int, k: int)
    requires OnFreeList(m, n, starts, ring, c, i) && Coalesced(m, n, starts) && CanSplit(m, n, starts, c, k)
    ensures 0 <= m.pf[c] < n && 0 <= m.nf[c] < n
    ensures Healthy(Carved(m, c, k), n, starts + {c + k}, ring[i := c + k])
  {
    FreeNeighbours(m, n, starts, ring, c, i);
    SplitKeepsChain(m, n, starts, c, k, FREELIST_MASK);
    NoStartInside(m, n, starts, c, c + k);
    assert c + k !in ring;
    MoveKeepsLinks(m.nf, m.pf, ring, i, c + k);
    CarveKeepsRing(m, n, starts, ring, c, i, k);
    SameHeadersSameChain(Split(m, c, k, FREELIST_MASK), Carved(m, c, k), n, starts + {c + k});
    CarveKeepsCoalesced(m, n, starts, c, k, Carved(m, c, k));
  }

  lemma SameHeadersSameChain(m: Mem, m': Mem, n: int, starts: set<int>)
    requires Chain(m, n, starts) && m'.nx == m.nx && m'.pv == m.pv && |m'.nf| == |m'.pf| == n
    ensures Chain(m', n, starts)
  {
    forall b | 0 <= b < n ensures Next(m', b) == Next(m, b) && (Flagged(m', b) <==> Flagged(m, b)) {}
  }

  lemma CarveKeepsCoalesced(m: Mem, n: int, starts: set<int>, c: int, k: int, m': Mem)
    requires Chain(m, n, starts) && Coalesced(m, n, starts) && CanSplit(m, n, starts, c, k) && Flagged(m, c)
    requires m'.nx == Split(m, c, k, FREELIST_MASK).nx && Chain(m', n, starts + {c + k})
    ensures Coalesced(m', n, starts + {c + k})
  {
    forall b | 0 <= b < n
      ensures Next(m', b) == if b == c + k then Next(m, c) else if b == c then c + k else Next(m, b)
      ensures Flagged(m', b) <==> if b == c + k then true else b != c && Flagged(m, b)
    {}
    NoStartInside(m, n, starts, c, c + k);
    forall b | b in starts + {c + k} && Flagged(m', b) ensures !Flagged(m', Next(m', b)) {
      if b != c + k {
        assert Flagged(m, b) && !Flagged(m, Next(m, b));
      }
    }
  }

  lemma CarveKeepsRing(m: Mem, n: int, starts: set<int>, ring: seq<int>, c: int, i: int, k: int)
    requires OnFreeList(m, n, starts, ring, c, i) && CanSplit(m, n, starts, c, k)
    requires 0 <= m.pf[c] < n && 0 <= m.nf[c] < n && c + k !in ring
    requires Shape(Carved(m, c, k), n)
    ensures RingIsFree(Carved(m, c, k), n, starts + {c + k}, ring[i := c + k])
  {
    var m', ring' := Carved(m, c, k), ring[i := c + k];
    forall b | 0 <= b < n
      ensures Flagged(m', b) <==> if b == c + k then true else b != c && Flagged(m, b)
    {}
    assert ring'[i] == c + k;
    forall b | b in ring && b != c ensures b in ring' {
      var j :| 0 <= j < |ring| && ring[j] == b;
      assert ring'[j] == b;
    }
  }

  lemma CarveKeepsData(m: Mem, n: int, starts: set<int>, ring: seq<int>, c: int, i: int, k: int, b: int)
    requires OnFreeList(m, n, starts, ring, c, i) && CanSplit(m, n, starts, c, k)
    requires 0 <= m.pf[c] < n && 0 <= m.nf[c] < n && Shape(Carved(m, c, k), n)
    requires Live(m, n, starts, b)
    ensures Kept(m, Carved(m, c, k), n, b)
  {
    FreeNeighbours(m, n, starts, ring, c, i);
    assert m.pf[c] in ring;
    if b < c + k < Next(m, b) {
      InsideIsUnique(m, n, starts, b, c, c + k);
    }
    RingHoldsFree(m, n, starts, ring, b);
    NoStartInside(m, n, starts, c, c + k);
  }
}
