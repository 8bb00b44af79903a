/**
  umm_malloc: an allocator that keeps its block chain and its free list in the heap units themselves.
  A unit has four 16-bit fields, held here in four arrays. A pointer is a byte offset into the heap,
  8 * c + 4 for block c, and 0 stands for NULL.
 */
module UmmMalloc {
  import opened UmmHeap
  import opened UmmSteps
  import opened UmmBroken

  const NULL: int := 0

  function DataPtr(c: int): int {
    8 * c + 4
  }

  lemma BlockOfPtr(c: int)
    ensures DataPtr(c) / 8 == c && (0 < c ==> DataPtr(c) != NULL)
  {}

  // ---------- block counts ----------

  /** Units needed for size bytes: the first holds 4 data bytes, each further one 8. */
  function BlockCount(size: nat): (k: nat)
    ensures k >= 1 && size <= Capacity(k) && (size > 4 ==> Capacity(k - 1) < size)
  {
    if size <= 4 then 1 else 2 + (size - 5) / 8
  }

  function Capacity(k: int): int {
    8 * k - 4
  }

  /**
    The data of a block of k units start right behind its two 16-bit links and end where the next block starts.
   */
  lemma DataFillsBlock(c: int, k: int)
    ensures DataPtr(c) == 8 * c + 2 * 2 && DataPtr(c) + Capacity(k) == 8 * (c + k)
  {}

  /** umm_blocks returns the count as an unsigned short. */
  method Blocks(size: nat) returns (k: int)
    ensures k == BlockCount(size) % 0x1_0000
    ensures size <= Capacity(k) <==> BlockCount(size) < 0x1_0000
  {
    if size <= 4 {
      return 1;
    }
    k := (2 + (size - 5) / 8) % 0x1_0000;
  }

  /** The sizes whose count is zero in 16 bits: eight in every 512 kilobytes, the first from 524277 on. */
  lemma ZeroCounts(size: nat)
    ensures BlockCount(size) % 0x1_0000 == 0 <==> 524277 <= size && (size - 524277) % 0x8_0000 < 8
  {
    if size > 4 {
      var q, r := (size - 5) / 8, (size - 5) % 8;
      assert size - 524277 == 8 * (q - 65534) + r && BlockCount(size) == q - 65534 + 0x1_0000;
      TimesEight(q - 65534, r);
    }
  }

  lemma TimesEight(q: int, r: int)
    requires 0 <= r < 8
    ensures (8 * q + r) % 0x8_0000 < 8 <==> q % 0x1_0000 == 0
  {
    var a, b := q / 0x1_0000, q % 0x1_0000;
    assert 8 * q + r == 0x8_0000 * a + (8 * b + r);
  }

  /** And one that is cut to a single unit, four bytes for half a megabyte. */
  lemma CountIsCut()
    ensures BlockCount(524277) == 0x1_0000 && BlockCount(524285) % 0x1_0000 == 1 && Capacity(1) == 4
  {}

  class Heap {
    const n: int
    const nx: array<int>
    const pv: array<int>
    const nf: array<int>
    const pf: array<int>
    ghost var starts: set<int>
    ghost var ring: seq<int>

    ghost function Now(): Mem
      reads nx, pv, nf, pf
    {
      Mem(nx[..], pv[..], nf[..], pf[..])
    }

    ghost predicate Apart() {
      nx != pv && nx != nf && nx != pf && pv != nf && pv != pf && nf != pf
    }

    ghost predicate Valid()
      reads this, nx, pv, nf, pf
    {
      Apart() && Healthy(Now(), n, starts, ring)
    }

    ghost function LiveBlocks(): set<int>
      requires Valid()
      reads this, nx, pv, nf, pf
    {
      LiveSet(Now(), n, starts)
    }

    // ---------- the link primitives ----------

    method SplitBlock(c: int, k: int, mask: int)
      requires Apart() && Shape(Now(), n) && 0 <= c && 0 <= k && c + k < n && Next(Now(), c) < n
      requires Next(Now(), c) != c + k && Next(Now(), c) != c && 0 <= Next(Now(), c)
               && (mask == 0 || mask == FREELIST_MASK)
      modifies nx, pv
      ensures Now() == Split(old(Now()), c, k, mask)
    {
      ghost var m := Now();
      nx[c + k] := nx[c] % FREELIST_MASK + mask;
      pv[c + k] := c;
      pv[nx[c] % FREELIST_MASK] := c + k;
      nx[c] := c + k;
      assert nx[..] == Split(m, c, k, mask).nx && pv[..] == Split(m, c, k, mask).pv;
    }

    method Disconnect(c: int)
      requires Apart() && Shape(Now(), n) && 0 <= c < n
      requires 0 <= pf[c] < n && 0 <= nf[c] < n && pf[c] != c && nf[c] != c
      modifies nx, nf, pf
      ensures Now() == Disconnected(old(Now()), c)
    {
      ghost var m := Now();
      nf[pf[c]] := nf[c];
      pf[nf[c]] := pf[c];
      nx[c] := nx[c] % FREELIST_MASK;
      assert nx[..] == Disconnected(m, c).nx && nf[..] == Disconnected(m, c).nf && pf[..] == Disconnected(m, c).pf;
    }

    method LinkDown(c: int, mask: int)
      requires Apart() && Shape(Now(), n) && 0 <= c < n && 0 <= pv[c] < n && 0 <= nx[c] < n && pv[c] != c && nx[c] != c
      modifies nx, pv
      ensures Now() == MergedDown(old(Now()), c, mask)
    {
      ghost var m := Now();
      nx[pv[c]] := nx[c] + mask;
      pv[nx[c]] := pv[c];
      assert nx[..] == MergedDown(m, c, mask).nx && pv[..] == MergedDown(m, c, mask).pv;
    }

    method Push(c: int)
      requires Apart() && Shape(Now(), n) && 0 < c < n && 0 <= nf[0] < n && nf[0] != c && !Flagged(Now(), c)
      modifies nx, nf, pf
      ensures Now() == Pushed(old(Now()), c)
    {
      ghost var m := Now();
      pf[nf[0]] := c;
      nf[c] := nf[0];
      pf[c] := 0;
      nf[0] := c;
      nx[c] := nx[c] + FREELIST_MASK;
      assert nx[..] == Pushed(m, c).nx && nf[..] == Pushed(m, c).nf && pf[..] == Pushed(m, c).pf;
    }

    // ---------- umm_init ----------

    /** umm_init: one free block between unit 0, the head of the free list, and the last unit. */
    constructor (numblocks: int)
      requires 3 <= numblocks < 0x7FFF
      ensures Valid() && n == numblocks && fresh(nx) && fresh(pv) && fresh(nf) && fresh(pf)
      ensures Now() == Initial(n) && starts == {0, 1, n - 1} && LiveBlocks() == {}
    {
      n := numblocks;
      nx := new int[numblocks](i => 0);
      pv := new int[numblocks](i => 0);
      nf := new int[numblocks](i => 0);
      pf := new int[numblocks](i => 0);
      new;
      Setup();
      starts, ring := {0, 1, n - 1}, [0, 1];
      InitialIsHealthy(n);
    }

    /** Writes the first links into the cleared heap. */
    method Setup()
      requires Apart() && 3 <= n && nx.Length == pv.Length == nf.Length == pf.Length == n
      requires forall i :: 0 <= i < n ==> nx[i] == 0 && pv[i] == 0 && nf[i] == 0 && pf[i] == 0
      modifies nx, pv, nf, pf
      ensures Now() == Initial(n)
    {
      nx[0] := 1;
      nf[0] := 1;
      pf[0] := 1;
      nx[1] := n - 1 + FREELIST_MASK;
      nf[1] := 0;
      pv[1] := 0;
      pf[1] := 0;
      nx[n - 1] := 0;
      pv[n - 1] := 1;
      assert nx[..] == Initial(n).nx && pv[..] == Initial(n).pv;
      assert nf[..] == Initial(n).nf && pf[..] == Initial(n).pf;
    }

    // ---------- umm_free ----------

    method Absorb(x: int)
      requires Apart() && Shape(Now(), n) && 0 <= x < n
      requires 0 <= pf[x] < n && 0 <= nf[x] < n && pf[x] != x && nf[x] != x
      requires 0 <= pv[x] < n && pv[x] != x && Next(Now(), x) < n && Next(Now(), x) != x
      modifies nx, pv, nf, pf
      ensures Now() == Up(old(Now()), x)
    {
      Disconnect(x);
      LinkDown(x, 0);
    }

    /** umm_assimilate_up: a free block above c becomes part of c. */
    method AssimilateUp(c: int)
      requires Valid() && c in LiveBlocks()
      modifies this, nx, pv, nf, pf
      ensures Valid() && TookAbove(old(Now()), old(starts), Now(), starts, n, c)
    {
      ghost var m := Now();
      var x := nx[c];
      AboveIs(m, n, starts, c);
      if nx[x] >= FREELIST_MASK {
        ghost var i := UpStep(m, n, starts, ring, c, x);
        Absorb(x);
        starts, ring := starts - {x}, ring[..i] + ring[i + 1..];
      } else {
        NothingAbove(m, n, starts, c);
      }
    }

    /** A pointer the caller may hand back: NULL or the data of a live block. */
    ghost predicate MayFree(ptr: int)
      requires Valid()
      reads this, nx, pv, nf, pf
    {
      ptr == NULL || (ptr == DataPtr(ptr / 8) && ptr / 8 in LiveBlocks())
    }

    /** The second half of umm_free: c joins the free block below it, or the head of the free list. */
    method Release(c: int)
      requires Valid() && c in LiveBlocks() && !Flagged(Now(), Next(Now(), c))
      modifies this, nx, pv, nf, pf
      ensures Valid() && LiveBlocks() == old(LiveBlocks()) - {c}
      ensures OthersKept(old(Now()), Now(), n, old(starts), {c})
    {
      ghost var m := Now();
      Predecessor(m, n, starts, c);
      assert Next(m, c) == m.nx[c] && Next(m, c) in starts;
      if nx[pv[c]] >= FREELIST_MASK {
        DownStep(m, n, starts, ring, c);
        LinkDown(c, FREELIST_MASK);
        starts := starts - {c};
      } else {
        PushStep(m, n, starts, ring, c);
        HeadIsNot(m, n, starts, ring, c);
        Push(c);
        ring := [0, c] + ring[1..];
      }
    }

    /** umm_free of a live pointer, or of NULL. */
    method Free(ptr: int)
      requires Valid() && MayFree(ptr)
      modifies this, nx, pv, nf, pf
      ensures Valid()
      ensures ptr == NULL ==> Now() == old(Now()) && starts == old(starts)
      ensures ptr != NULL ==> LiveBlocks() == old(LiveBlocks()) - {ptr / 8}
      ensures OthersKept(old(Now()), Now(), n, old(starts), {ptr / 8})
    {
      if ptr == NULL {
        return;
      }
      var c := ptr / 8;
      ghost var m, s := Now(), starts;
      AssimilateUp(c);
      ghost var m1, s1 := Now(), starts;
      Release(c);
      OthersKeptCompose(m, m1, Now(), n, s, s1, {c}, {c});
      assert {c} + {c} == {c};
    }

    // ---------- umm_malloc ----------

    /** The best-fit scan of the free list. */
    method FindBest(blocks: int) returns (cf: int, blockSize: int)
      requires Valid() && 0 <= blocks
      ensures NoFit(Now(), n, starts, blocks) ==>
              cf == 0 && (if blocks == 0 then blockSize == 0 else blockSize < blocks)
      ensures !NoFit(Now(), n, starts, blocks) ==>
              IsBestFit(Now(), n, starts, blocks, cf) && blockSize == SizeOf(Now(), cf)
    {
      ghost var m := Now();
      cf := nf[0];
      var bestBlock, bestSize := nf[0], 0x7FFF;
      blockSize := 0;
      ghost var j := 1;
      ScanStep(m, n, starts, ring, 0);
      while cf != 0
        invariant Scanning(m, n, starts, ring, j, blocks, bestBlock, bestSize, cf, blockSize)
        decreases |ring| - j
      {
        ScanNext(m, n, starts, ring, j, blocks, bestBlock, bestSize, cf, blockSize);
        blockSize := nx[cf] % FREELIST_MASK - cf;
        assert blockSize == SizeOf(m, cf) && nf[cf] == m.nf[cf];
        if blockSize >= blocks && blockSize < bestSize {
          bestBlock := cf;
          bestSize := blockSize;
        }
        cf := nf[cf];
        j := j + 1;
      }
      ScanDone(m, n, starts, ring, j, blocks, bestBlock, bestSize);
      if bestSize != 0x7FFF {
        cf, blockSize := bestBlock, bestSize;
      }
    }

    /** Splits the free block c and moves its free-list links to the upper part. */
    method Carve(c: int, k: int)
      requires Apart() && Shape(Now(), n) && 0 <= c && 0 < k && c + k < n && c + k < Next(Now(), c) < n
      requires 0 <= pf[c] < n && 0 <= nf[c] < n && pf[c] != c && nf[c] != c && pf[c] != c + k && nf[c] != c + k
      modifies nx, pv, nf, pf
      ensures Now() == Carved(old(Now()), c, k)
    {
      ghost var m := Now();
      SplitBlock(c, k, FREELIST_MASK);
      nf[pf[c]] := c + k;
      pf[c + k] := pf[c];
      pf[nf[c]] := c + k;
      nf[c + k] := nf[c];
      assert nf[..] == Carved(m, c, k).nf && pf[..] == Carved(m, c, k).pf;
    }

    method TakeWhole(c: int, ghost i: int)
      requires Valid() && OnFreeList(Now(), n, starts, ring, c, i)
      modifies this, nx, nf, pf
      ensures Valid() && LiveBlocks() == old(LiveBlocks()) + {c} && SizeOf(Now(), c) == old(SizeOf(Now(), c))
      ensures OthersKept(old(Now()), Now(), n, old(starts), {})
    {
      FreeNeighbours(Now(), n, starts, ring, c, i);
      TakeStep(Now(), n, starts, ring, c, i);
      Disconnect(c);
      ring := ring[..i] + ring[i + 1..];
    }

    method TakePart(c: int, k: int, ghost i: int)
      requires Valid() && OnFreeList(Now(), n, starts, ring, c, i) && 0 < k < SizeOf(Now(), c)
      modifies this, nx, pv, nf, pf
      ensures Valid() && LiveBlocks() == old(LiveBlocks()) + {c} && SizeOf(Now(), c) == k
      ensures OthersKept(old(Now()), Now(), n, old(starts), {})
    {
      FreeNeighbours(Now(), n, starts, ring, c, i);
      CarveStep(Now(), n, starts, ring, c, i, k);
      NoStartInside(Now(), n, starts, c, c + k);
      Carve(c, k);
      starts, ring := starts + {c + k}, ring[i := c + k];
    }

    /** Takes the best-fit block c, or its first k units, off the free list. */
    method Take(c: int, k: int)
      requires Valid() && IsBestFit(Now(), n, starts, k, c) && 1 <= k
      modifies this, nx, pv, nf, pf
      ensures Valid() && LiveBlocks() == old(LiveBlocks()) + {c} && SizeOf(Now(), c) == k
      ensures OthersKept(old(Now()), Now(), n, old(starts), {})
    {
      assert c in ring;
      ghost var i :| 0 <= i < |ring| && ring[i] == c;
      assert i != 0;
      if nx[c] % FREELIST_MASK - c == k {
        TakeWhole(c, i);
      } else {
        TakePart(c, k, i);
      }
    }

    /** umm_malloc for a given count of units. */
    method MallocUnits(blocks: int) returns (ptr: int)
      requires Valid() && 1 <= blocks
      modifies this, nx, pv, nf, pf
      ensures Valid()
      ensures if old(NoFit(Now(), n, starts, blocks)) then ptr == NULL && Now() == old(Now()) && starts == old(starts)
              else Obtained(old(Now()), old(starts), Now(), starts, n, blocks, ptr)
    {
      var cf, blockSize := FindBest(blocks);
      if nx[cf] % FREELIST_MASK != 0 && blockSize >= blocks {
        FitIsNotNull(Now(), n, starts, blocks, cf);
        Take(cf, blocks);
        BlockOfPtr(cf);
        return DataPtr(cf);
      }
      if !NoFit(Now(), n, starts, blocks) {
        FreeLeadsOn(Now(), n, starts, ring, cf);
      }
      return NULL;
    }

    /** umm_disconnect_from_free_list of unit 0 alone on its list. */
    method DisconnectHead()
      requires Apart() && Shape(Now(), n) && nf[0] == 0 && pf[0] == 0 && nx[0] < FREELIST_MASK
      modifies nx, nf, pf
      ensures Now() == old(Now())
    {
      ghost var m := Now();
      nf[pf[0]] := nf[0];
      pf[nf[0]] := pf[0];
      nx[0] := nx[0] % FREELIST_MASK;
      assert nx[..] == m.nx && nf[..] == m.nf && pf[..] == m.pf;
    }

    /**
      The same code for a count of zero units. The scan settles on a smallest free block, from which nothing is
      split off, or on unit 0 if there is no free block.
     */
    method MallocNoUnits() returns (ptr: int)
      requires Valid()
      modifies this, nx, pv, nf, pf
      ensures ptr == DataPtr(ptr / 8)
      ensures old(NoFit(Now(), n, starts, 0)) ==>
              ptr / 8 == 0 && Valid() && Now() == old(Now()) && starts == old(starts)
      ensures !old(NoFit(Now(), n, starts, 0)) ==>
              old(IsBestFit(Now(), n, starts, 0, ptr / 8)) && Emptied(ptr / 8, old(Now()), FREELIST_MASK)
    {
      ghost var m := Now();
      var cf, blockSize := FindBest(0);
      BlockOfPtr(cf);
      if NoFit(m, n, starts, 0) {
        EmptyFreeList(m, n, starts, ring);
      } else {
        NothingTaken(m, n, starts, ring, cf);
      }
      if blockSize == 0 {
        DisconnectHead();
      } else {
        SplitBlock(cf, 0, FREELIST_MASK);
        nf[pf[cf]] := cf;
        pf[nf[cf]] := cf;
        assert nf[..] == m.nf && pf[..] == m.pf;
      }
      ptr := DataPtr(cf);
    }

    /** The block c has been split from m at its own start: it is its own successor, and no chain is left. */
    ghost predicate Emptied(c: int, m: Mem, mask: int)
      reads nx, pv, nf, pf
    {
      && 0 <= c < |m.nx| == |m.pv| && Next(m, c) < |m.nx| && c < nx.Length
      && Now() == Split(m, c, 0, mask) && Next(Now(), c) == c && NoChain(Now(), n)
    }

    /**
      umm_malloc, best fit. The count of units is kept in 16 bits. Unless it is zero there, a smallest sufficient
      block is taken or nothing changes; a count of zero that finds a free block leaves no heap.
     */
    method Malloc(size: nat) returns (ptr: int)
      requires Valid()
      modifies this, nx, pv, nf, pf
      ensures var k := BlockCount(size) % 0x1_0000;
              if size == 0 || (k != 0 && old(NoFit(Now(), n, starts, k))) then
                ptr == NULL && Valid() && Now() == old(Now()) && starts == old(starts)
              else if k != 0 then
                Valid() && Obtained(old(Now()), old(starts), Now(), starts, n, k, ptr)
              else if old(NoFit(Now(), n, starts, 0)) then
                ptr == DataPtr(0) && Valid() && Now() == old(Now()) && starts == old(starts)
              else
                ptr == DataPtr(ptr / 8) && old(IsBestFit(Now(), n, starts, 0, ptr / 8))
                && Emptied(ptr / 8, old(Now()), FREELIST_MASK)
    {
      if size == 0 {
        return NULL;
      }
      var blocks := Blocks(size);
      if blocks == 0 {
        ptr := MallocNoUnits();
      } else {
        ptr := MallocUnits(blocks);
      }
    }

    // ---------- umm_realloc ----------

    /** Copies k entries of one field, lowest first. */
    static method CopyField(a: array<int>, dst: int, src: int, k: int)
      requires 0 <= dst && 0 <= src && 0 <= k && dst + k <= a.Length && src + k <= a.Length
      requires dst < src || src + k <= dst
      modifies a
      ensures a[..] == Overwritten(old(a[..]), dst, src, k)
    {
      ghost var s := a[..];
      var i := 0;
      while i < k
        invariant 0 <= i <= k && a[..] == Overwritten(s, dst, src, i)
      {
        a[dst + i] := a[src + i];
        i := i + 1;
      }
    }

    /** memmove (towards lower units) and memcpy: the data of the k-unit block at src goes to dst. */
    method CopyUnits(dst: int, src: int, k: int)
      requires Apart() && nx.Length == pv.Length == nf.Length == pf.Length == n
      requires 0 <= dst && 0 <= src && 1 <= k && dst + k <= n && src + k <= n
      requires dst < src || src + k <= dst
      modifies nx, pv, nf, pf
      ensures Now() == DataCopied(old(Now()), dst, src, k)
    {
      ghost var m := Now();
      CopyTwo(nx, pv, dst + 1, src + 1, k - 1);
      CopyTwo(nf, pf, dst, src, k);
      CopiedInFull(m, Now(), dst, src, k);
    }

    static method CopyTwo(a: array<int>, b: array<int>, dst: int, src: int, k: int)
      requires a != b && a.Length == b.Length
      requires 0 <= dst && 0 <= src && 0 <= k && dst + k <= a.Length && src + k <= a.Length
      requires dst < src || src + k <= dst
      modifies a, b
      ensures a[..] == Overwritten(old(a[..]), dst, src, k) && b[..] == Overwritten(old(b[..]), dst, src, k)
    {
      CopyField(a, dst, src, k);
      CopyField(b, dst, src, k);
    }

    /** The links of growing c down over the free block p, and the data moved there. */
    method MoveDown(p: int, c: int, k: int)
      requires Apart() && Shape(Now(), n) && 0 <= p < n && 0 <= c < n && MovePlaces(Now(), n, p, c)
               && 1 <= k <= nx[c] - c
      modifies nx, pv, nf, pf
      ensures Now() == MovedDown(old(Now()), n, p, c, k)
    {
      Disconnect(p);
      LinkDown(c, 0);
      CopyUnits(p, c, k);
    }

    /** The block below c is free: c moves down into it with its first k units of data. */
    method GrowDown(c: int, k: int) returns (p: int)
      requires Valid() && c in LiveBlocks() && 0 <= pv[c] < n && Flagged(Now(), pv[c]) && 1 <= k <= SizeOf(Now(), c)
      modifies this, nx, pv, nf, pf
      ensures Valid() && p == old(pv[c]) && 0 < p < c && Replaced(old(Now()), old(starts), Now(), starts, n, c, p)
      ensures Next(Now(), p) == old(Next(Now(), c)) && c + k <= n
      ensures Carried(old(Now()), Now(), n, old(starts), c, p, k)
    {
      p := pv[c];
      ghost var i := PlanGrowDown(Now(), n, starts, ring, c, k);
      MoveDown(p, c, k);
      starts, ring := starts - {c}, ring[..i] + ring[i + 1..];
    }

    /** Makes the units of c from k on a live block of their own. */
    method CutOff(c: int, k: int)
      requires Valid() && c in LiveBlocks() && 0 < k < SizeOf(Now(), c)
      modifies this, nx, pv
      ensures Valid() && LiveBlocks() == old(LiveBlocks()) + {c + k} && c + k !in old(LiveBlocks())
      ensures c + k <= n && OthersKept(old(Now()), Now(), n, old(starts), {c})
              && SameData(old(Now()), c, Now(), c, k, n)
      ensures SizeOf(Now(), c) == k
    {
      NoStartInside(Now(), n, starts, c, c + k);
      SplitStep(Now(), n, starts, ring, c, k);
      SplitBlock(c, k, 0);
      starts := starts + {c + k};
    }

    /** Cuts the live block c to k units and frees the rest. */
    method Shrink(c: int, k: int)
      requires Valid() && c in LiveBlocks() && 0 < k <= SizeOf(Now(), c)
      modifies this, nx, pv, nf, pf
      ensures Valid() && Reallocated(old(Now()), old(starts), Now(), starts, n, c, c, k)
    {
      if nx[c] - c > k {
        CutOffAndFree(c, k);
      } else {
        AlreadyThatSize(Now(), n, starts, c);
      }
    }

    method CutOffAndFree(c: int, k: int)
      requires Valid() && c in LiveBlocks() && 0 < k < SizeOf(Now(), c)
      modifies this, nx, pv, nf, pf
      ensures Valid() && Reallocated(old(Now()), old(starts), Now(), starts, n, c, c, k)
    {
      ghost var m, s := Now(), starts;
      CutOff(c, k);
      ghost var m1, s1 := Now(), starts;
      BlockOfPtr(c + k);
      Free(DataPtr(c + k));
      ShrinkComposes(m, m1, Now(), n, s, s1, starts, c, k);
    }

    /** Both free neighbours: the one above joins c, and c moves down into the one below. */
    method GrowBoth(c: int, k: int) returns (p: int)
      requires Valid() && c in LiveBlocks() && 0 < FreeBelow(Now(), c) && k == SizeOf(Now(), c)
      modifies this, nx, pv, nf, pf
      ensures Valid() && p == old(pv[c]) && 0 < p < c && Replaced(old(Now()), old(starts), Now(), starts, n, c, p)
      ensures SizeOf(Now(), p) == old(FreeBelow(Now(), c) + SizeOf(Now(), c) + FreeAbove(Now(), c))
      ensures 1 <= k && c + k <= n && Carried(old(Now()), Now(), n, old(starts), c, p, k)
    {
      ghost var m, s := Now(), starts;
      AssimilateUp(c);
      ghost var m1, s1 := Now(), starts;
      p := GrowDown(c, k);
      UpThenDown(m, m1, Now(), n, s, s1, starts, c, p, k);
    }

    /** The strategies of umm_realloc that use the free neighbours of c. */
    method GrowInPlace(c: int, blocks: int, prevBlockSize: int, nextBlockSize: int) returns (c': int)
      requires Valid() && c in LiveBlocks()
      requires prevBlockSize == FreeBelow(Now(), c) && nextBlockSize == FreeAbove(Now(), c)
      requires SizeOf(Now(), c) < blocks <= prevBlockSize + SizeOf(Now(), c) + nextBlockSize
      modifies this, nx, pv, nf, pf
      ensures Valid() && Replaced(old(Now()), old(starts), Now(), starts, n, c, c')
      ensures blocks <= SizeOf(Now(), c')
      ensures c' == if old(SizeOf(Now(), c)) + nextBlockSize >= blocks then c else old(pv[c])
      ensures CarriedAll(old(Now()), Now(), n, old(starts), c, c')
    {
      var blockSize := nx[c] - c;
      BelowIsFree(Now(), n, starts, c);
      if blockSize + nextBlockSize >= blocks {
        AssimilateUp(c);
        c' := c;
      } else if prevBlockSize + blockSize >= blocks {
        c' := GrowDown(c, blockSize);
      } else {
        c' := GrowBoth(c, blockSize);
      }
    }

    /** The data of c goes to the live block c'. */
    method CopyData(c: int, c': int, k: int)
      requires Valid() && c in LiveBlocks() && c' in LiveBlocks() && c' != c
      requires k == SizeOf(Now(), c) && k < SizeOf(Now(), c')
      modifies nx, pv, nf, pf
      ensures Valid() && LiveBlocks() == old(LiveBlocks()) && Next(Now(), c') == old(Next(Now(), c'))
      ensures OthersKept(old(Now()), Now(), n, starts, {c'})
      ensures 1 <= k && c + k <= n && c' + k <= n && SameData(old(Now()), c, Now(), c', k, n)
    {
      CopyStep(Now(), n, starts, ring, c', c, k);
      Separate(Now(), n, starts, c, c');
      CopyUnits(c', c, k);
    }

    /** The data of c goes to the live block c', and c is freed. */
    method Relocate(c: int, c': int, k: int)
      requires Valid() && c in LiveBlocks() && c' in LiveBlocks() && c' != c
      requires k == SizeOf(Now(), c) && k < SizeOf(Now(), c')
      modifies this, nx, pv, nf, pf
      ensures Valid() && LiveBlocks() == old(LiveBlocks()) - {c} && SizeOf(Now(), c') == old(SizeOf(Now(), c'))
      ensures OthersKept(old(Now()), Now(), n, old(starts), {c, c'})
      ensures 1 <= k && c + k <= n && c' + k <= n && SameData(old(Now()), c, Now(), c', k, n)
    {
      ghost var m, s := Now(), starts;
      CopyData(c, c', k);
      ghost var m1 := Now();
      BlockOfPtr(c);
      Free(DataPtr(c));
      RelocateComposes(m, m1, Now(), n, s, c, c', k);
    }

    /** The last strategy: a new block, the data copied there, and the old block freed. */
    method MoveToNew(c: int, size: nat) returns (ptr: int)
      requires Valid() && c in LiveBlocks() && 0 < size
      requires 0 < SizeOf(Now(), c)
      requires FreeBelow(Now(), c) + SizeOf(Now(), c) + FreeAbove(Now(), c) < BlockCount(size) % 0x1_0000
      modifies this, nx, pv, nf, pf
      ensures Valid()
      ensures ptr == NULL <==> old(NoFit(Now(), n, starts, BlockCount(size) % 0x1_0000))
      ensures ptr == NULL ==> Now() == old(Now()) && starts == old(starts)
      ensures ptr != NULL ==>
              ptr == DataPtr(ptr / 8)
              && Reallocated(old(Now()), old(starts), Now(), starts, n, c, ptr / 8, BlockCount(size) % 0x1_0000)
              && old(IsPlace(Now(), n, starts, c, BlockCount(size) % 0x1_0000, ptr / 8))
    {
      ghost var m, s := Now(), starts;
      var k := nx[c] - c;
      ptr := Malloc(size);
      if ptr != NULL {
        ghost var m1, s1 := Now(), starts;
        BelowIsFree(m, n, s, c);
        BestFitIsFree(m, n, s, BlockCount(size) % 0x1_0000, ptr / 8);
        KeptBlock(m, m1, n, s, s1, c, ptr / 8);
        Relocate(c, ptr / 8, k);
        NewBlockComposes(m, m1, Now(), n, s, s1, starts, c, ptr / 8, k);
        PlaceIs(m, n, s, c, BlockCount(size) % 0x1_0000, ptr / 8);
      }
    }

    method FreeAboveOf(c: int) returns (k: int)
      requires Valid() && c in LiveBlocks()
      ensures k == FreeAbove(Now(), c)
    {
      assert Next(Now(), c) == nx[c] && nx[c] in starts;
      if nx[nx[c]] >= FREELIST_MASK {
        return nx[nx[c]] % FREELIST_MASK - nx[c];
      }
      return 0;
    }

    method FreeBelowOf(c: int) returns (k: int)
      requires Valid() && c in LiveBlocks()
      ensures k == FreeBelow(Now(), c)
    {
      Predecessor(Now(), n, starts, c);
      if nx[pv[c]] >= FREELIST_MASK {
        return c - pv[c];
      }
      return 0;
    }

    /** The same code for a count of zero units: nothing is split off, and the block itself is freed. */
    method ReallocNoUnits(c: int)
      requires Valid() && c in LiveBlocks()
      modifies nx, pv, nf, pf
      ensures ReallocEmptied(c, old(Now()))
    {
      ghost var m := Now();
      HeadIsNot(m, n, starts, ring, c);
      PushedSplitBreaks(m, n, starts, c);
      EmptySplitBreaks(m, n, starts, c, 0);
      SplitBlock(c, 0, 0);
      assert nx[nx[c]] < FREELIST_MASK && nx[pv[c]] < FREELIST_MASK;
      Push(c);
    }

    /** The block c is its own successor and on the free list, and no chain is left. */
    ghost predicate ReallocEmptied(c: int, m: Mem)
      reads nx, pv, nf, pf
    {
      && |m.nx| == |m.pv| == |m.nf| == |m.pf| && 0 <= c < |m.nx| && Next(m, c) < |m.nx| && 0 <= m.nf[0] < |m.nx|
      && c < nx.Length
      && Now() == Pushed(Split(m, c, 0, 0), c) && Next(Now(), c) == c && Flagged(Now(), c) && NoChain(Now(), n)
    }

    /**
      umm_realloc. NULL is umm_malloc, size 0 is umm_free. Otherwise, unless the count of units is zero in 16 bits,
      success gives a block of exactly the units asked for with the old data up to the smaller of both sizes and
      every other live block untouched, and failure changes nothing; a count of zero leaves no heap and returns
      the block it has freed.
     */
    method Realloc(ptr: int, size: nat) returns (ret: int)
      requires Valid() && MayFree(ptr)
      modifies this, nx, pv, nf, pf
      ensures ptr != NULL ==> var k := BlockCount(size) % 0x1_0000;
              if size == 0 then
                ret == NULL && Valid() && LiveBlocks() == old(LiveBlocks()) - {ptr / 8}
                && OthersKept(old(Now()), Now(), n, old(starts), {ptr / 8})
              else if k == 0 then
                ret == ptr && ReallocEmptied(ptr / 8, old(Now()))
              else if old(NoRoom(Now(), n, starts, ptr, k)) then
                ret == NULL && Valid() && Now() == old(Now()) && starts == old(starts)
              else
                ret == DataPtr(ret / 8) && Valid()
                && Reallocated(old(Now()), old(starts), Now(), starts, n, ptr / 8, ret / 8, k)
                && old(IsPlace(Now(), n, starts, ptr / 8, k, ret / 8))
      ensures ptr == NULL ==> var k := BlockCount(size) % 0x1_0000;
              if size == 0 || (k != 0 && old(NoFit(Now(), n, starts, k))) then
                ret == NULL && Valid() && Now() == old(Now()) && starts == old(starts)
              else if k != 0 then
                Valid() && Obtained(old(Now()), old(starts), Now(), starts, n, k, ret)
              else if old(NoFit(Now(), n, starts, 0)) then
                ret == DataPtr(0) && Valid() && Now() == old(Now()) && starts == old(starts)
              else
                ret == DataPtr(ret / 8) && old(IsBestFit(Now(), n, starts, 0, ret / 8))
                && Emptied(ret / 8, old(Now()), FREELIST_MASK)
    {
      if ptr == NULL {
        ret := Malloc(size);
        return;
      }
      if size == 0 {
        Free(ptr);
        return NULL;
      }
      var blocks := Blocks(size);
      if blocks == 0 {
        ReallocNoUnits(ptr / 8);
        return ptr;
      }
      ret := ReallocLive(ptr / 8, size, blocks);
    }

    method ReallocLive(c: int, size: nat, blocks: int) returns (ret: int)
      requires Valid() && c in LiveBlocks() && 0 < size && blocks == BlockCount(size) % 0x1_0000 && blocks != 0
      modifies this, nx, pv, nf, pf
      ensures Valid()
      ensures ret == NULL <==> old(NoRoom(Now(), n, starts, DataPtr(c), blocks))
      ensures ret == NULL ==> Now() == old(Now()) && starts == old(starts)
      ensures ret != NULL ==>
              ret == DataPtr(ret / 8) && Reallocated(old(Now()), old(starts), Now(), starts, n, c, ret / 8, blocks)
              && old(IsPlace(Now(), n, starts, c, blocks, ret / 8))
    {
      RoomIs(Now(), n, starts, c, blocks);
      var blockSize := nx[c] - c;
      var nextBlockSize := FreeAboveOf(c);
      var prevBlockSize := FreeBelowOf(c);
      if blockSize >= blocks {
        ghost var m, s := Now(), starts;
        PlaceIs(m, n, s, c, blocks, c);
        Shrink(c, blocks);
        BlockOfPtr(c);
        ret := DataPtr(c);
        return;
      }
      if prevBlockSize + blockSize + nextBlockSize < blocks {
        ret := MoveToNew(c, size);
        return;
      }
      ret := GrowAndShrink(c, blocks, prevBlockSize, nextBlockSize);
    }

    method GrowAndShrink(c: int, blocks: int, prevBlockSize: int, nextBlockSize: int) returns (ret: int)
      requires Valid() && c in LiveBlocks()
      requires prevBlockSize == FreeBelow(Now(), c) && nextBlockSize == FreeAbove(Now(), c)
      requires SizeOf(Now(), c) < blocks <= prevBlockSize + SizeOf(Now(), c) + nextBlockSize
      modifies this, nx, pv, nf, pf
      ensures Valid() && ret == DataPtr(ret / 8) && ret != NULL
              && Reallocated(old(Now()), old(starts), Now(), starts, n, c, ret / 8, blocks)
      ensures old(IsPlace(Now(), n, starts, c, blocks, ret / 8))
    {
      ghost var m, s := Now(), starts;
      var c' := GrowInPlace(c, blocks, prevBlockSize, nextBlockSize);
      ghost var m1, s1 := Now(), starts;
      Shrink(c', blocks);
      GrowThenShrink(m, m1, Now(), n, s, s1, starts, c, c', blocks);
      PlaceIs(m, n, s, c, blocks, c');
      BlockOfPtr(c');
      ret := DataPtr(c');
    }
  }

  /** ptr is a new live block of exactly k units, from a smallest sufficient free one, and all live data is kept. */
  ghost predicate Obtained(m: Mem, s: set<int>, m': Mem, s': set<int>, n: int, k: int, ptr: int)
    requires Chain(m, n, s) && Chain(m', n, s')
  {
    var c := ptr / 8;
    && ptr == DataPtr(c) && ptr != NULL && IsBestFit(m, n, s, k, c) && OthersKept(m, m', n, s, {})
    && LiveSet(m', n, s') == LiveSet(m, n, s) + {c} && SizeOf(m', c) == k
  }

  lemma NothingTaken(m: Mem, n: int, starts: set<int>, ring: seq<int>, c: int)
    requires WellFormed(m, n, starts, ring) && IsBestFit(m, n, starts, 0, c)
    ensures 0 < c < n - 1 && 0 <= m.pf[c] < n && 0 <= m.nf[c] < n && m.nf[m.pf[c]] == c && m.pf[m.nf[c]] == c
    ensures c < Next(m, c) < n && Next(Split(m, c, 0, FREELIST_MASK), c) == c
            && NoChain(Split(m, c, 0, FREELIST_MASK), n)
  {
    assert c in ring;
    var i :| 0 <= i < |ring| && ring[i] == c;
    FreeNeighbours(m, n, starts, ring, c, i);
    assert Succ(ring, i - 1) == c;
    EmptySplitBreaks(m, n, starts, c, FREELIST_MASK);
  }

  /** c' has taken the place of c among the live blocks. */
  ghost predicate Replaced(m: Mem, s: set<int>, m': Mem, s': set<int>, n: int, c: int, c': int)
    requires Chain(m, n, s) && Chain(m', n, s')
  {
    0 < c' < n && LiveSet(m', n, s') == LiveSet(m, n, s) - {c} + {c'} && (c' == c || c' !in LiveSet(m, n, s))
  }

  /** What a successful reallocation of c to k units promises. */
  ghost predicate Reallocated(m: Mem, s: set<int>, m': Mem, s': set<int>, n: int, c: int, c': int, k: int)
    requires Chain(m, n, s) && Chain(m', n, s')
  {
    Replaced(m, s, m', s', n, c, c') && SizeOf(m', c') == k && CarriedUpTo(m, m', n, s, c, c', k)
  }

  /**
    Where k units for the block c are found: in place if it has them, with the free block above if there is one;
    else from the start of the free block below; else in a smallest sufficient free block.
   */
  ghost predicate IsPlace(m: Mem, n: int, s: set<int>, c: int, k: int, c': int)
    requires Chain(m, n, s) && 0 <= c < n
  {
    var up := SizeOf(m, c) + FreeAbove(m, c);
    if up >= k then c' == c
    else if FreeBelow(m, c) + up >= k then c' == m.pv[c]
    else IsBestFit(m, n, s, k, c')
  }

  lemma PlaceIs(m: Mem, n: int, s: set<int>, c: int, k: int, c': int)
    requires Chain(m, n, s) && Live(m, n, s, c)
    requires if SizeOf(m, c) + FreeAbove(m, c) >= k || SizeOf(m, c) >= k then c' == c
             else if FreeBelow(m, c) + SizeOf(m, c) + FreeAbove(m, c) >= k then c' == m.pv[c]
             else IsBestFit(m, n, s, k, c')
    ensures IsPlace(m, n, s, c, k, c')
  {
    BelowIsFree(m, n, s, c);
  }

  /** The data of c, all of it, is at c' in m'; every other live block is kept. */
  ghost predicate CarriedAll(m: Mem, m': Mem, n: int, starts: set<int>, c: int, c': int)
    requires Chain(m, n, starts) && Shape(m', n)
  {
    && 0 <= c < n && 0 <= c' && 1 <= SizeOf(m, c) && c + SizeOf(m, c) <= n && c' + SizeOf(m, c) <= n
    && Carried(m, m', n, starts, c, c', SizeOf(m, c))
  }

  /** The same, cut to k units when the block held more. */
  ghost predicate CarriedUpTo(m: Mem, m': Mem, n: int, starts: set<int>, c: int, c': int, k: int)
    requires Chain(m, n, starts) && Shape(m', n)
  {
    && 0 <= c < n && 0 <= c' && var j := if SizeOf(m, c) < k then SizeOf(m, c) else k;
    && 1 <= j && c + j <= n && c' + j <= n && Carried(m, m', n, starts, c, c', j)
  }

  /** Units of the free block right above, or 0. */
  function FreeAbove(m: Mem, c: int): int {
    if 0 <= c < |m.nx| && Next(m, c) < |m.nx| && Flagged(m, Next(m, c)) then SizeOf(m, Next(m, c)) else 0
  }

  /** Units of the free block right below, or 0. */
  function FreeBelow(m: Mem, c: int): int {
    if 0 <= c < |m.pv| && 0 <= m.pv[c] < |m.nx| && Flagged(m, m.pv[c]) then c - m.pv[c] else 0
  }

  /** Neither the block with its free neighbours nor any free block has k units. */
  ghost predicate NoRoom(m: Mem, n: int, starts: set<int>, ptr: int, k: int)
    requires Shape(m, n)
  {
    && NoFit(m, n, starts, k)
    && (ptr != NULL ==> var c := ptr / 8;
          0 <= c < n && FreeBelow(m, c) + SizeOf(m, c) + FreeAbove(m, c) < k)
  }

  // ---------- fits ----------

  ghost predicate NoFit(m: Mem, n: int, starts: set<int>, k: int)
    requires Shape(m, n)
  {
    forall f {:trigger Flagged(m, f)} :: f in starts && 0 <= f < n && Flagged(m, f) ==> SizeOf(m, f) < k
  }

  /** c is a smallest free block of at least k units. */
  ghost predicate IsBestFit(m: Mem, n: int, starts: set<int>, k: int, c: int)
    requires Shape(m, n)
  {
    && c in starts && 0 <= c < n && Flagged(m, c) && SizeOf(m, c) >= k
    && forall f {:trigger Flagged(m, f)} :: f in starts && 0 <= f < n && Flagged(m, f) && SizeOf(m, f) >= k ==>
       SizeOf(m, c) <= SizeOf(m, f)
  }

  lemma FitIsNotNull(m: Mem, n: int, starts: set<int>, k: int, c: int)
    requires Chain(m, n, starts) && 1 <= k && c in starts && 0 <= c < n && SizeOf(m, c) >= k
    ensures 0 < n && (c == 0 ==> !Flagged(m, c)) && DataPtr(c) / 8 == c && DataPtr(c) != NULL
    ensures !NoFit(m, n, starts, k) || !Flagged(m, c)
  {}

  lemma FreeLeadsOn(m: Mem, n: int, starts: set<int>, ring: seq<int>, c: int)
    requires WellFormed(m, n, starts, ring) && c in starts && 0 <= c < n && Flagged(m, c)
    ensures c < Next(m, c)
  {
    assert c in ring;
    var i :| 0 <= i < |ring| && ring[i] == c;
  }

  /** best is the smallest sufficient block among those seen; 0x7FFF says none has been. */
  ghost predicate Scanned(m: Mem, n: int, starts: set<int>, seen: seq<int>, k: int, best: int, bestSize: int)
    requires Shape(m, n)
  {
    && (forall f {:trigger f in seen} :: f in seen && 0 <= f < n && SizeOf(m, f) >= k ==> bestSize <= SizeOf(m, f))
    && (bestSize == 0x7FFF || (best in seen && 0 <= best < n && bestSize == SizeOf(m, best) && k <= bestSize < 0x7FFF))
  }

  lemma ScanStep(m: Mem, n: int, starts: set<int>, ring: seq<int>, j: int)
    requires WellFormed(m, n, starts, ring) && 0 <= j < |ring|
    ensures 0 <= ring[j] < n && m.nf[ring[j]] == if j + 1 < |ring| then ring[j + 1] else 0
    ensures 0 < SizeOf(m, ring[j]) < 0x7FFF && (j + 1 < |ring| ==> ring[j + 1] != 0)
  {
    assert m.nf[ring[j]] == Succ(ring, j);
    assert ring[j] in starts;
    assert ring[0] == 0;
  }

  lemma ScanMore(m: Mem, n: int, starts: set<int>, ring: seq<int>, j: int, k: int, best: int, bestSize: int)
    requires WellFormed(m, n, starts, ring) && 1 <= j < |ring| && 0 <= k
    requires Scanned(m, n, starts, ring[1..j], k, best, bestSize)
    requires 0 <= ring[j] < n && SizeOf(m, ring[j]) < 0x7FFF
    ensures var better := SizeOf(m, ring[j]) >= k && SizeOf(m, ring[j]) < bestSize;
            Scanned(m, n, starts, ring[1..j + 1], k, if better then ring[j] else best,
                    if better then SizeOf(m, ring[j]) else bestSize)
  {
    assert ring[1..j + 1] == ring[1..j] + [ring[j]];
  }

  /** The scan stands at the j-th entry of the free list, or at its end. */
  ghost predicate Scanning(m: Mem, n: int, starts: set<int>, ring: seq<int>, j: int, k: int, best: int, bestSize: int,
                           cf: int, blockSize: int)
    requires Shape(m, n)
  {
    && 1 <= j <= |ring| && cf == (if j < |ring| then ring[j] else 0)
    && Scanned(m, n, starts, ring[1..j], k, best, bestSize)
    && (j == 1 ==> blockSize == 0)
    && (j > 1 ==> 0 <= ring[j - 1] < n && blockSize == SizeOf(m, ring[j - 1]))
  }

  lemma ScanNext(m: Mem, n: int, starts: set<int>, ring: seq<int>, j: int, k: int, best: int, bestSize: int, cf: int,
                 blockSize: int)
    requires WellFormed(m, n, starts, ring) && 0 <= k && cf != 0
             && Scanning(m, n, starts, ring, j, k, best, bestSize, cf, blockSize)
    ensures 0 <= cf < n && j < |ring|
    ensures var better := SizeOf(m, cf) >= k && SizeOf(m, cf) < bestSize;
            Scanning(m, n, starts, ring, j + 1, k, if better then cf else best,
                     if better then SizeOf(m, cf) else bestSize, m.nf[cf], SizeOf(m, cf))
  {
    ScanStep(m, n, starts, ring, j);
    ScanMore(m, n, starts, ring, j, k, best, bestSize);
  }

  lemma ScanDone(m: Mem, n: int, starts: set<int>, ring: seq<int>, j: int, k: int, best: int, bestSize: int)
    requires Healthy(m, n, starts, ring) && j == |ring|
    requires Scanned(m, n, starts, ring[1..j], k, best, bestSize) 
    ensures bestSize == 0x7FFF ==> NoFit(m, n, starts, k)
    ensures bestSize != 0x7FFF ==> IsBestFit(m, n, starts, k, best)
    ensures bestSize == 0x7FFF ==> forall i {:trigger ring[i]} :: 1 <= i < |ring| ==> SizeOf(m, ring[i]) < k
  {
    forall f | f in starts && 0 <= f < n && Flagged(m, f) ensures f in ring[1..j] && SizeOf(m, f) < 0x7FFF {
      assert f in ring && f != ring[0];
      var i :| 0 <= i < |ring| && ring[i] == f;
      assert ring[1..j][i - 1] == f;
    }
    forall i | 1 <= i < |ring| ensures ring[i] in ring[1..j] && SizeOf(m, ring[i]) < 0x7FFF {
      assert ring[1..j][i - 1] == ring[i];
    }
    if bestSize != 0x7FFF {
      var i :| 0 <= i < |ring[1..j]| && ring[1..j][i] == best;
      assert best == ring[i + 1];
    }
  }

  /** The heap right after umm_init. */
  ghost function Initial(n: int): Mem
    requires 3 <= n
  {
    var zeros := seq(n, _ => 0);
    Mem(zeros[0 := 1][1 := n - 1 + FREELIST_MASK], zeros[n - 1 := 1], zeros[0 := 1], zeros[0 := 1])
  }

  lemma InitialFields(n: int)
    requires 3 <= n < 0x7FFF
    ensures var m := Initial(n);
            Shape(m, n) && Next(m, 0) == 1 && Next(m, 1) == n - 1 && m.nx[n - 1] == 0
            && m.pv[1] == 0 && m.pv[n - 1] == 1
            && !Flagged(m, 0) && Flagged(m, 1) && !Flagged(m, n - 1)
            && m.nf[0] == m.pf[0] == 1 && m.nf[1] == m.pf[1] == 0
  {}

  lemma InitialChain(n: int)
    requires 3 <= n < 0x7FFF
    ensures Chain(Initial(n), n, {0, 1, n - 1})
    ensures LiveSet(Initial(n), n, {0, 1, n - 1}) == {} && Coalesced(Initial(n), n, {0, 1, n - 1})
  {
    InitialFields(n);
  }

  lemma InitialRing(n: int)
    requires 3 <= n < 0x7FFF
    ensures Shape(Initial(n), n) && FreeRing(Initial(n), n, {0, 1, n - 1}, [0, 1])
  {
    InitialFields(n);
    assert [0, 1][1] == 1 && 1 in [0, 1];
  }

  lemma InitialIsHealthy(n: int)
    requires 3 <= n < 0x7FFF
    ensures Healthy(Initial(n), n, {0, 1, n - 1}, [0, 1])
    ensures LiveSet(Initial(n), n, {0, 1, n - 1}) == {}
  {
    InitialChain(n);
    InitialRing(n);
  }

  /** The free block above c, if there was one, is part of c now. */
  ghost predicate TookAbove(m: Mem, s: set<int>, m': Mem, s': set<int>, n: int, c: int)
    requires Chain(m, n, s) && Chain(m', n, s')
  {
    && c in s && c in s' && 0 < c < n - 1 && LiveSet(m', n, s') == LiveSet(m, n, s) && !Flagged(m', Next(m', c))
    && m'.pv[c] == m.pv[c]
    && OthersKept(m, m', n, s, {c})
    && 1 <= SizeOf(m, c) && c + SizeOf(m, c) <= n && SameData(m, c, m', c, SizeOf(m, c), n)
    && SizeOf(m', c) == SizeOf(m, c) + FreeAbove(m, c) && FreeBelow(m', c) == FreeBelow(m, c)
  }

  lemma AboveIs(m: Mem, n: int, s: set<int>, c: int)
    requires Chain(m, n, s) && Live(m, n, s, c)
    ensures c < m.nx[c] < n && m.nx[c] == Next(m, c) && m.nx[c] in s
  {
    assert Next(m, c) == m.nx[c];
  }

  lemma NothingAbove(m: Mem, n: int, s: set<int>, c: int)
    requires Chain(m, n, s) && Live(m, n, s, c) && !Flagged(m, Next(m, c))
    ensures TookAbove(m, s, m, s, n, c)
  {}

  lemma UpStep(m: Mem, n: int, starts: set<int>, ring: seq<int>, c: int, x: int) returns (i: int)
    requires Healthy(m, n, starts, ring) && Live(m, n, starts, c) && x == Next(m, c) && Flagged(m, x)
    ensures 0 <= i < |ring|
    ensures 0 <= m.pf[x] < n && 0 <= m.nf[x] < n && m.pf[x] != x && m.nf[x] != x && m.pv[x] == c && Next(m, x) < n
            && Next(m, x) != x
    ensures Healthy(Up(m, x), n, starts - {x}, ring[..i] + ring[i + 1..])
    ensures TookAbove(m, starts, Up(m, x), starts - {x}, n, c)
  {
    assert x in starts && x in ring;
    i :| 0 <= i < |ring| && ring[i] == x;
    UpFacts(m, n, starts, ring, c, x, i);
    TakesAbove(m, Up(m, x), n, starts, c, x);
  }

  lemma TakesAbove(m: Mem, m': Mem, n: int, starts: set<int>, c: int, x: int)
    requires Chain(m, n, starts) && Live(m, n, starts, c) && x == Next(m, c) && x < n && Flagged(m, x)
    requires Chain(m', n, starts - {x}) && Next(m', c) == Next(m, x) && !Flagged(m', Next(m, x)) && m'.pv[c] == m.pv[c]
    requires FreeBelow(m', c) == FreeBelow(m, c) && LiveSet(m', n, starts - {x}) == LiveSet(m, n, starts)
    requires OthersKept(m, m', n, starts, {c}) && SameData(m, c, m', c, x - c, n)
    ensures TookAbove(m, starts, m', starts - {x}, n, c)
  {}

  lemma UpFacts(m: Mem, n: int, starts: set<int>, ring: seq<int>, c: int, x: int, i: int)
    requires CanGoUp(m, n, starts, ring, c, x, i)
    ensures 0 <= m.pf[x] < n && 0 <= m.nf[x] < n && m.pf[x] != x && m.nf[x] != x && m.pv[x] == c && Next(m, x) < n
            && Next(m, x) != x
    ensures Up(m, x).pv[c] == m.pv[c] && Next(Up(m, x), c) == Next(m, x) && FreeBelow(Up(m, x), c) == FreeBelow(m, c)
    ensures Healthy(Up(m, x), n, starts - {x}, ring[..i] + ring[i + 1..]) && !Flagged(Up(m, x), Next(m, x))
    ensures OthersKept(m, Up(m, x), n, starts, {c}) && SameData(m, c, Up(m, x), c, x - c, n)
    ensures LiveSet(Up(m, x), n, starts - {x}) == LiveSet(m, n, starts)
  {
    UpIsMerge(m, n, starts, ring, c, x, i);
    FreeNeighbours(m, n, starts, ring, x, i);
    assert Next(m, x) > x > c;
    UpKeepsHealth(m, n, starts, ring, c, x, i);
    UpKeepsData(m, n, starts, ring, c, x, i);
    Predecessor(m, n, starts, c);
  }

  lemma CopiedInFull(m: Mem, m': Mem, dst: int, src: int, k: int)
    requires |m.nx| == |m.pv| == |m.nf| == |m.pf| && 0 <= dst && 0 <= src && 1 <= k && dst + k <= |m.nx|
             && src + k <= |m.nx|
    requires m'.nx == Overwritten(m.nx, dst + 1, src + 1, k - 1) && m'.pv == Overwritten(m.pv, dst + 1, src + 1, k - 1)
    requires m'.nf == Overwritten(m.nf, dst, src, k) && m'.pf == Overwritten(m.pf, dst, src, k)
    ensures m' == DataCopied(m, dst, src, k)
  {}

  lemma HeadIsNot(m: Mem, n: int, starts: set<int>, ring: seq<int>, c: int)
    requires WellFormed(m, n, starts, ring) && Live(m, n, starts, c)
    ensures 0 <= m.nf[0] < n && m.nf[0] != c
  {
    assert Succ(ring, 0) == m.nf[0] && Succ(ring, 0) in ring;
    RingHoldsFree(m, n, starts, ring, c);
  }

  lemma ShrinkComposes(m: Mem, m1: Mem, m2: Mem, n: int, s: set<int>, s1: set<int>, s2: set<int>, c: int, k: int)
    requires Chain(m, n, s) && Chain(m1, n, s1) && Chain(m2, n, s2) && Live(m, n, s, c) && k < SizeOf(m, c)
             && Live(m1, n, s1, c) && 1 <= k && c + k <= n
    requires OthersKept(m, m1, n, s, {c}) && SameData(m, c, m1, c, k, n)
    requires OthersKept(m1, m2, n, s1, {c + k})
    requires LiveSet(m1, n, s1) == LiveSet(m, n, s) + {c + k} && c + k !in LiveSet(m, n, s)
    requires LiveSet(m2, n, s2) == LiveSet(m1, n, s1) - {c + k} && SizeOf(m1, c) == k
    ensures Reallocated(m, s, m2, s2, n, c, c, k)
  {
    assert c in LiveSet(m, n, s);
    assert Kept(m1, m2, n, c);
    SameDataThenKept(m, c, m1, c, m2, k, n);
    OthersKeptCompose(m, m1, m2, n, s, s1, {c}, {c + k});
  }

  lemma AlreadyThatSize(m: Mem, n: int, s: set<int>, c: int)
    requires Chain(m, n, s) && Live(m, n, s, c)
    ensures Reallocated(m, s, m, s, n, c, c, SizeOf(m, c))
  {
    assert c in LiveSet(m, n, s);
  }

  lemma PlanGrowDown(m: Mem, n: int, starts: set<int>, ring: seq<int>, c: int, k: int) returns (i: int)
    requires Healthy(m, n, starts, ring) && Live(m, n, starts, c) && 0 <= m.pv[c] < n && Flagged(m, m.pv[c])
    requires 1 <= k <= SizeOf(m, c)
    ensures 0 <= i < |ring|
    ensures var p := m.pv[c];
            && MovePlaces(m, n, p, c) && m.nx[c] == Next(m, c)
            && Healthy(MovedDown(m, n, p, c, k), n, starts - {c}, ring[..i] + ring[i + 1..])
            && Replaced(m, starts, MovedDown(m, n, p, c, k), starts - {c}, n, c, p)
            && Next(MovedDown(m, n, p, c, k), p) == Next(m, c)
            && Carried(m, MovedDown(m, n, p, c, k), n, starts, c, p, k)
  {
    var p := m.pv[c];
    Predecessor(m, n, starts, c);
    assert p in ring;
    i :| 0 <= i < |ring| && ring[i] == p;
    CanMoveDown(m, n, starts, ring, p, c, i);
    MovedDownHealth(m, n, starts, ring, p, c, i, k);
    MovedDownData(m, n, starts, ring, p, c, i, k);
  }

  /** The data of a kept block is the same in place. */
  lemma KeptBlock(m: Mem, m': Mem, n: int, s: set<int>, s': set<int>, c: int, c': int)
    requires Chain(m, n, s) && Chain(m', n, s') && Live(m, n, s, c) && OthersKept(m, m', n, s, {})
    requires c' !in LiveSet(m, n, s) && LiveSet(m', n, s') == LiveSet(m, n, s) + {c'}
    ensures c in LiveSet(m', n, s') && c' in LiveSet(m', n, s') && c != c'
    ensures Kept(m, m', n, c) && SizeOf(m', c) == SizeOf(m, c)
    ensures c + SizeOf(m, c) <= n && 1 <= SizeOf(m, c) && SameData(m, c, m', c, SizeOf(m, c), n)
  {
    assert c in LiveSet(m, n, s);
  }

  lemma BestFitIsFree(m: Mem, n: int, s: set<int>, k: int, c: int)
    requires Chain(m, n, s) && IsBestFit(m, n, s, k, c)
    ensures c !in LiveSet(m, n, s)
  {}

  lemma BelowIsFree(m: Mem, n: int, s: set<int>, c: int)
    requires Chain(m, n, s) && Live(m, n, s, c)
    ensures 0 <= m.pv[c] < c && Next(m, m.pv[c]) == c && (0 < FreeBelow(m, c) <==> Flagged(m, m.pv[c]))
            && FreeBelow(m, c) >= 0 && FreeAbove(m, c) >= 0
    ensures 1 <= SizeOf(m, c) && c + SizeOf(m, c) <= n && m.nx[c] == Next(m, c)
  {
    Predecessor(m, n, s, c);
    var x := Next(m, c);
    assert x in s;
    assert x == n - 1 || x < Next(m, x);
  }

  lemma RoomIs(m: Mem, n: int, s: set<int>, c: int, k: int)
    requires Chain(m, n, s) && Live(m, n, s, c)
    ensures DataPtr(c) != NULL && DataPtr(c) / 8 == c && m.nx[c] == Next(m, c) && 0 < SizeOf(m, c)
    ensures FreeBelow(m, c) + SizeOf(m, c) + FreeAbove(m, c) >= SizeOf(m, c)
    ensures NoRoom(m, n, s, DataPtr(c), k) <==>
            NoFit(m, n, s, k) && FreeBelow(m, c) + SizeOf(m, c) + FreeAbove(m, c) < k
  {
    BelowIsFree(m, n, s, c);
  }

  lemma Separate(m: Mem, n: int, s: set<int>, c: int, c': int)
    requires Chain(m, n, s) && Live(m, n, s, c) && Live(m, n, s, c') && c != c'
    ensures c + SizeOf(m, c) <= c' || c' + SizeOf(m, c') <= c
  {}

  lemma UpThenDown(m: Mem, m1: Mem, m2: Mem, n: int, s: set<int>, s1: set<int>, s2: set<int>, c: int, p: int, k: int)
    requires Chain(m, n, s) && Chain(m1, n, s1) && Shape(m2, n) && 0 <= p && 1 <= k && c + k <= n && p + k <= n
             && 0 <= c
    requires OthersKept(m, m1, n, s, {c}) && SameData(m, c, m1, c, k, n) && LiveSet(m1, n, s1) == LiveSet(m, n, s)
    requires Carried(m1, m2, n, s1, c, p, k) && Live(m, n, s, c)
    requires Chain(m2, n, s2) && Replaced(m1, s1, m2, s2, n, c, p)
    ensures Carried(m, m2, n, s, c, p, k) && Replaced(m, s, m2, s2, n, c, p)
  {
    assert LiveSet(m, n, s) == LiveSet(m, n, s) - {c} + {c};
    CarriedThen(m, m1, m2, n, s, s1, c, c, p, k, k, k);
  }

  lemma RelocateComposes(m: Mem, m1: Mem, m2: Mem, n: int, s: set<int>, c: int, c': int, k: int)
    requires Chain(m, n, s) && Chain(m1, n, s) && Shape(m2, n) && LiveSet(m1, n, s) == LiveSet(m, n, s)
    requires c' in LiveSet(m, n, s) && c != c' && 0 <= c && 1 <= k && c + k <= n && c' + k <= Next(m1, c') <= n
    requires OthersKept(m, m1, n, s, {c'}) && SameData(m, c, m1, c', k, n) && OthersKept(m1, m2, n, s, {c})
    ensures OthersKept(m, m2, n, s, {c, c'}) && SameData(m, c, m2, c', k, n) && m2.nx[c'] == m1.nx[c']
  {
    assert c' in LiveSet(m1, n, s);
    assert Kept(m1, m2, n, c');
    SameDataThenKept(m, c, m1, c', m2, k, n);
    OthersKeptCompose(m, m1, m2, n, s, s, {c'}, {c});
    assert {c'} + {c} == {c, c'};
  }

  lemma NewBlockComposes(m: Mem, m1: Mem, m2: Mem, n: int, s: set<int>, s1: set<int>, s2: set<int>, c: int, c': int,
                         k: int)
    requires Chain(m, n, s) && Chain(m1, n, s1) && Chain(m2, n, s2) && Live(m, n, s, c) && k == SizeOf(m, c)
    requires 1 <= k && c + k <= n && 0 < c' < n && c' + k <= n && c' !in LiveSet(m, n, s)
    requires OthersKept(m, m1, n, s, {}) && LiveSet(m1, n, s1) == LiveSet(m, n, s) + {c'} && SameData(m, c, m1, c, k, n)
    requires OthersKept(m1, m2, n, s1, {c, c'}) && SameData(m1, c, m2, c', k, n)
    requires LiveSet(m2, n, s2) == LiveSet(m1, n, s1) - {c} && k < SizeOf(m2, c')
    ensures Reallocated(m, s, m2, s2, n, c, c', SizeOf(m2, c'))
  {
    SameDataCompose(m, c, m1, c, m2, c', k, k, n);
    OthersKeptCompose(m, m1, m2, n, s, s1, {}, {c, c'});
    assert c in LiveSet(m, n, s);
  }

  lemma GrowThenShrink(m: Mem, m1: Mem, m2: Mem, n: int, s: set<int>, s1: set<int>, s2: set<int>, c: int, c1: int,
                       k: int)
    requires Chain(m, n, s) && Chain(m1, n, s1) && Chain(m2, n, s2) && 0 <= c < n && SizeOf(m, c) < k
    requires Replaced(m, s, m1, s1, n, c, c1) && CarriedAll(m, m1, n, s, c, c1)
    requires Reallocated(m1, s1, m2, s2, n, c1, c1, k) && k <= SizeOf(m1, c1)
    ensures Reallocated(m, s, m2, s2, n, c, c1, k)
  {
    CarriedThen(m, m1, m2, n, s, s1, c, c1, c1, SizeOf(m, c), k, SizeOf(m, c));
  }
}
