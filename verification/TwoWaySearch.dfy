/**
  twoway_memmem: the search loop over a haystack window, with a byte set, a last-byte shift
  table and a remembered prefix. Each advance of the window is justified by its own lemma.
 */
module TwoWaySearch {
  import opened BitBytes
  import opened Optional
  import opened CriticalFactorization
  import MaximalSuffix

  predicate MatchAt(h: seq<Byte>, n: seq<Byte>, i: nat) {
    i + |n| <= |h| && h[i..i + |n|] == n
  }

  /** r is the first occurrence of n in h, or None when there is none. */
  ghost predicate IsFirstMatch(h: seq<Byte>, n: seq<Byte>, r: Option<nat>) {
    match r
    case Some(i) => MatchAt(h, n, i) && forall j: nat :: j < i ==> !MatchAt(h, n, j)
    case None => forall j: nat :: !MatchAt(h, n, j)
  }

  ghost predicate NoMatchBelow(h: seq<Byte>, n: seq<Byte>, i: nat) {
    forall j: nat :: j < i ==> !MatchAt(h, n, j)
  }

  /** n[lo..hi) equals the bytes of h under it when n is laid at pos. */
  ghost predicate Covers(h: seq<Byte>, n: seq<Byte>, pos: nat, lo: nat, hi: nat)
    requires pos + |n| <= |h| && hi <= |n|
  {
    forall x, y :: lo <= y < hi && pos + lo <= x < pos + hi && x - pos == y ==> h[x] == n[y]
  }

  lemma MatchCovers(h: seq<Byte>, n: seq<Byte>, i: nat)
    requires MatchAt(h, n, i)
    ensures Covers(h, n, i, 0, |n|)
  {
    forall x, y | 0 <= y < |n| && i <= x < i + |n| && x - i == y ensures h[x] == n[y] {
      assert h[i..i + |n|][y] == n[y];
    }
  }

  lemma CoveredMatches(h: seq<Byte>, n: seq<Byte>, i: nat)
    requires i + |n| <= |h| && Covers(h, n, i, 0, |n|)
    ensures MatchAt(h, n, i)
  {
    forall j | 0 <= j < |n| ensures h[i..i + |n|][j] == n[j] {
      assert h[i + j] == n[j];
    }
  }

  // ---------- the shift tables ----------

  /** shift holds, for the byte c of n, one more than its last position. */
  ghost predicate LastPosition(n: seq<Byte>, c: Byte, s: int) {
    1 <= s <= |n| && n[s - 1] == c && forall j :: s <= j < |n| ==> n[j] != c
  }

  /** Which of the four words of the byte set, and which bit of it, stands for c. */
  function WordOf(c: Byte): (w: nat) ensures w < 4 {
    (c >> 6) as nat
  }

  function BitOf(c: Byte): (i: bv64) ensures i < 64 {
    (c & 63) as bv64
  }

  function Index(c: Byte): (i: nat) ensures i < 256 {
    c as nat
  }

  predicate ByteIn(set4: seq<bv64>, c: Byte)
    requires |set4| == 4
  {
    set4[WordOf(c)] & (1 << BitOf(c)) != 0
  }

  ghost predicate BytesetOf(set4: seq<bv64>, n: seq<Byte>) {
    |set4| == 4 && forall c: Byte :: ByteIn(set4, c) <==> c in n
  }

  ghost predicate ShiftsOf(shift: seq<nat>, n: seq<Byte>) {
    |shift| == 256 && forall c: Byte :: c in n ==> LastPosition(n, c, shift[Index(c)])
  }

  method FillTables(n: seq<Byte>) returns (byteset: array<bv64>, shift: array<nat>)
    ensures fresh(byteset) && fresh(shift)
    ensures BytesetOf(byteset[..], n) && ShiftsOf(shift[..], n)
  {
    byteset := new bv64[4](_ => 0);
    shift := new nat[256];
    for i := 0 to |n|
      invariant BytesetOf(byteset[..], n[..i]) && ShiftsOf(shift[..], n[..i])
    {
      AddByte(byteset, shift, n[i], n[..i]);
      assert n[..i + 1] == n[..i] + [n[i]];
    }
    assert n[..|n|] == n;
  }

  method AddByte(byteset: array<bv64>, shift: array<nat>, b: Byte, n: seq<Byte>)
    requires BytesetOf(byteset[..], n) && ShiftsOf(shift[..], n)
    modifies byteset, shift
    ensures BytesetOf(byteset[..], n + [b]) && ShiftsOf(shift[..], n + [b])
  {
    ghost var set4: seq<bv64>, shifts: seq<nat> := byteset[..], shift[..];
    AddToByteset(set4, n, b);
    AddToShifts(shifts, n, b);
    byteset[WordOf(b)] := byteset[WordOf(b)] | (1 << BitOf(b));
    shift[Index(b)] := |n| + 1;
    assert byteset[..] == set4[WordOf(b) := set4[WordOf(b)] | (1 << BitOf(b))];
    assert shift[..] == shifts[Index(b) := |n| + 1];
  }

  lemma AddToByteset(set4: seq<bv64>, n: seq<Byte>, b: Byte)
    requires BytesetOf(set4, n)
    ensures BytesetOf(set4[WordOf(b) := set4[WordOf(b)] | (1 << BitOf(b))], n + [b])
  {
    forall c: Byte ensures ByteIn(set4[WordOf(b) := set4[WordOf(b)] | (1 << BitOf(b))], c) <==> c in n + [b] {
      SetByte(set4, b, c);
    }
  }

  lemma AddToShifts(shift: seq<nat>, n: seq<Byte>, b: Byte)
    requires ShiftsOf(shift, n)
    ensures ShiftsOf(shift[Index(b) := |n| + 1], n + [b])
  {
    var n', shift' := n + [b], shift[Index(b) := |n| + 1];
    forall c: Byte | c in n' ensures LastPosition(n', c, shift'[Index(c)]) {
      AddToShift(shift, n, b, c);
    }
  }

  lemma AddToShift(shift: seq<nat>, n: seq<Byte>, b: Byte, c: Byte)
    requires ShiftsOf(shift, n) && (c in n || c == b)
    ensures LastPosition(n + [b], c, shift[Index(b) := |n| + 1][Index(c)])
  {
    IndexInjective(c, b);
    LastPositionExtends(n, b, c, if c == b then 0 else shift[Index(c)]);
  }

  lemma LastPositionExtends(n: seq<Byte>, b: Byte, c: Byte, s: int)
    ensures LastPosition(n + [b], b, |n| + 1)
    ensures c != b && LastPosition(n, c, s) ==> LastPosition(n + [b], c, s)
  {}

  lemma IndexInjective(a: Byte, b: Byte)
    ensures Index(a) == Index(b) <==> a == b
  {
    assert (a as nat) as Byte == a && (b as nat) as Byte == b;
  }

  lemma SetByte(set4: seq<bv64>, b: Byte, c: Byte)
    requires |set4| == 4
    ensures ByteIn(set4[WordOf(b) := set4[WordOf(b)] | (1 << BitOf(b))], c) <==> c == b || ByteIn(set4, c)
  {
    SamePlace(b, c);
    SetBit(set4[WordOf(b)], BitOf(b), BitOf(c));
  }

  lemma SamePlace(b: Byte, c: Byte)
    ensures WordOf(b) == WordOf(c) && BitOf(b) == BitOf(c) <==> b == c
  {
    IndexInjective(b >> 6, c >> 6);
    SameBits(b, c);
  }

  lemma SameBits(b: Byte, c: Byte)
    ensures b >> 6 == c >> 6 && (b & 63) as bv64 == (c & 63) as bv64 <==> b == c
  {}

  lemma SetBit(x: bv64, i: bv64, j: bv64)
    requires i < 64 && j < 64
    ensures ((x | (1 << i)) & (1 << j)) != 0 <==> i == j || (x & (1 << j)) != 0
  {}

  // ---------- why each advance is safe ----------

  /** The last byte of the window is at most at position s - 1 of the needle. */
  lemma SkipByLastByte(h: seq<Byte>, n: seq<Byte>, pos: nat, s: nat, d: nat)
    requires n != [] && pos + |n| <= |h| && s <= |n|
    requires forall j :: s <= j < |n| ==> n[j] != h[pos + |n| - 1]
    requires d < |n| - s
    ensures !MatchAt(h, n, pos + d)
  {
    var aligned := n[|n| - 1 - d];
    if MatchAt(h, n, pos + d) {
      MatchCovers(h, n, pos + d);
    }
  }

  /** With the remembered prefix in place and a wrong last byte, the window may move past that prefix. */
  lemma SkipRememberedPrefix(h: seq<Byte>, n: seq<Byte>, pos: nat, p: nat, d: nat)
    requires Period(n, p) && p < |n| && pos + |n| <= |h|
    requires Covers(h, n, pos, 0, |n| - p)
    requires h[pos + |n| - 1] != n[|n| - 1]
    requires 0 < d < |n| - p
    ensures !MatchAt(h, n, pos + d)
  {
    // h[last] would be n[last - d] = n[last - d - p] = h[last - p] = n[last - p] = n[last].
    var last := |n| - 1;
    assert n[last - d - p] == n[last - d] && h[pos + last - p] == n[last - p] == n[last];
    if MatchAt(h, n, pos + d) {
      MatchCovers(h, n, pos + d);
    }
  }

  /** A match further right makes the covered part of the right half a repetition at the critical position. */
  lemma MatchIsRepetition(h: seq<Byte>, n: seq<Byte>, c: nat, pos: nat, k: nat, d: nat)
    requires c <= k <= |n| && pos + |n| <= |h|
    requires Covers(h, n, pos, c, k)
    requires 0 < d < |n| && (k < |n| ==> c + d <= k)
    requires MatchAt(h, n, pos + d)
    ensures LocalRepetition(n, c, d)
  {
    MatchCovers(h, n, pos + d);
    forall i, j | 0 <= i < c <= j < |n| && j == i + d ensures n[i] == n[j] {
      assert n[j] == h[pos + j] == n[i];
    }
  }

  lemma SkipRightMismatch(h: seq<Byte>, n: seq<Byte>, c: nat, pos: nat, k: nat, d: nat)
    requires Critical(n, c) && c <= k < |n| && pos + |n| <= |h|
    requires Covers(h, n, pos, c, k) && n[k] != h[pos + k]
    requires d <= k - c
    ensures !MatchAt(h, n, pos + d)
  {
    var aligned := n[k - d];
    if MatchAt(h, n, pos + d) {
      MatchCovers(h, n, pos + d);
      if d > 0 {
        MatchIsRepetition(h, n, c, pos, k, d);
      }
    }
  }

  lemma SkipFullRightHalf(h: seq<Byte>, n: seq<Byte>, c: nat, p: nat, pos: nat, d: nat)
    requires Critical(n, c) && c < |n| && pos + |n| <= |h|
    requires Covers(h, n, pos, c, |n|)
    requires forall e: nat :: c < e < |n| && Period(n, e) ==> p <= e
    requires 0 < d < p && d < |n|
    ensures !MatchAt(h, n, pos + d)
  {
    if MatchAt(h, n, pos + d) {
      MatchIsRepetition(h, n, c, pos, |n|, d);
    }
  }

  // ---------- the search ----------

  lemma NoSmallerPeriodInSuffix(n: seq<Byte>, c: nat, p: nat, e: nat)
    requires c < |n| && Critical(n, c) && c + p <= |n|
    requires PeriodOn(n, c, |n|, p)
    requires forall d: nat :: PeriodOn(n, c, |n|, d) ==> p <= d
    requires n[..c] != n[p..p + c]
    requires Period(n, e)
    ensures |n| - c < e
  {
    PeriodRepeatsPrefix(n, c, p);
    if c + e <= |n| {
      SuffixPeriodIsPeriod(n, c, p, e);
    }
  }

  lemma PeriodRepeatsPrefix(n: seq<Byte>, c: nat, p: nat)
    requires c + p <= |n|
    ensures Period(n, p) ==> n[..c] == n[p..p + c]
  {}

  /** The needle's critical position, the shift after a full right half, and the prefix length to remember. */
  method Factorize(n: seq<Byte>) returns (c: nat, p: nat, mem0: nat)
    requires n != []
    ensures Factored(n, c, p, mem0)
  {
    var p0;
    c, p0 := MaximalSuffix.Compute(n, false);
    var c1;
    c1, p := MaximalSuffix.Compute(n, true);
    if c1 > c {
      CriticalFactorizationTheorem(n, true, c1, c);
      c := c1;
    } else {
      CriticalFactorizationTheorem(n, false, c, c1);
      p := p0;
    }
    if n[..c] != n[p..p + c] {
      forall e: nat | Period(n, e) ensures |n| - c < e {
        NoSmallerPeriodInSuffix(n, c, p, e);
      }
      mem0 := 0;
      p := if c - 1 > |n| - c then c else |n| - c + 1;
    } else {
      forall i, j | 0 <= i < j < |n| && j == i + p ensures n[i] == n[j] {
        if i < c {
          assert n[..c][i] == n[p..p + c][i];
        }
      }
      assert LocalRepetition(n, c, p);
      forall e: nat | Period(n, e) ensures p <= e {
        assert PeriodOn(n, c, |n|, e);
      }
      mem0 := |n| - p;
    }
  }

  /** What Factorize tells the search loop about its needle. */
  ghost predicate Factored(n: seq<Byte>, c: nat, p: nat, mem0: nat) {
    && c < |n| && Critical(n, c)
    && 1 <= p <= |n|
    && (mem0 == 0 || (mem0 == |n| - p && c < p && Period(n, p)))
    && forall e: nat :: c < e < |n| && Period(n, e) ==> p <= e
  }

  /** What the loop knows when the window is at pos: nothing matches before, and mem bytes match already. */
  ghost predicate Window(h: seq<Byte>, n: seq<Byte>, p: nat, pos: nat, mem: nat) {
    && pos <= |h|
    && NoMatchBelow(h, n, pos)
    && (mem == 0 || (mem == |n| - p && p < |n| && Period(n, p)))
    && (pos + |n| <= |h| ==> Covers(h, n, pos, 0, mem))
  }

  lemma AbsentByteAdvance(h: seq<Byte>, n: seq<Byte>, p: nat, pos: nat, mem: nat)
    requires n != [] && pos + |n| <= |h| && Window(h, n, p, pos, mem)
    requires h[pos + |n| - 1] !in n
    ensures Window(h, n, p, pos + |n|, 0)
  {
    var pos' := pos + |n|;
    forall j: nat | j < pos' ensures !MatchAt(h, n, j) {
      if pos <= j {
        SkipByLastByte(h, n, pos, 0, j - pos);
      }
    }
  }

  lemma LastByteAdvance(h: seq<Byte>, n: seq<Byte>, p: nat, pos: nat, mem: nat, s: nat, k: nat)
    requires n != [] && pos + |n| <= |h| && Window(h, n, p, pos, mem)
    requires LastPosition(n, h[pos + |n| - 1], s) && s < |n|
    requires k == if |n| - s < mem then mem else |n| - s
    ensures Window(h, n, p, pos + k, 0)
  {
    var pos' := pos + k;
    forall j: nat | j < pos' ensures !MatchAt(h, n, j) {
      if pos <= j < pos + (|n| - s) {
        SkipByLastByte(h, n, pos, s, j - pos);
      } else if pos <= j {
        SkipRememberedPrefix(h, n, pos, p, j - pos);
      }
    }
  }

  lemma RightMismatchAdvance(h: seq<Byte>, n: seq<Byte>, c: nat, p: nat, pos: nat, mem: nat, k: nat)
    requires pos + |n| <= |h| && Window(h, n, p, pos, mem)
    requires Critical(n, c) && c <= k < |n|
    requires Covers(h, n, pos, c, k) && n[k] != h[pos + k]
    ensures Window(h, n, p, pos + k - c + 1, 0)
  {
    var pos' := pos + k - c + 1;
    forall j: nat | j < pos' ensures !MatchAt(h, n, j) {
      if pos <= j {
        SkipRightMismatch(h, n, c, pos, k, j - pos);
      }
    }
  }

  lemma LeftMismatchAdvance(h: seq<Byte>, n: seq<Byte>, c: nat, p: nat, mem0: nat, pos: nat, mem: nat)
    requires pos + |n| <= |h| && Window(h, n, p, pos, mem) && Factored(n, c, p, mem0)
    requires Covers(h, n, pos, c, |n|) && !MatchAt(h, n, pos)
    ensures Window(h, n, p, pos + p, mem0)
  {
    var pos' := pos + p;
    forall j: nat | j < pos' ensures !MatchAt(h, n, j) {
      if pos < j {
        SkipFullRightHalf(h, n, c, p, pos, j - pos);
      }
    }
    if mem0 != 0 && pos' + |n| <= |h| {
      forall x, y | 0 <= y < mem0 && pos' <= x < pos' + mem0 && x - pos' == y ensures h[x] == n[y] {
        assert n[y] == n[y + p] == h[x];
      }
    }
  }

  /** Compares rightwards from the critical position, or from the end of the remembered prefix. */
  method CompareRightHalf(h: seq<Byte>, n: seq<Byte>, c: nat, pos: nat, mem: nat) returns (k: nat)
    requires c <= |n| && mem <= |n| && pos + |n| <= |h| && Covers(h, n, pos, 0, mem)
    ensures c <= k <= |n| && Covers(h, n, pos, c, k)
    ensures k < |n| ==> n[k] != h[pos + k]
  {
    k := if c < mem then mem else c;
    while k < |n| && n[k] == h[pos + k]
      invariant c <= k <= |n| && Covers(h, n, pos, c, k)
    {
      k := k + 1;
    }
  }

  /** Compares leftwards from the critical position down to the remembered prefix. */
  method CompareLeftHalf(h: seq<Byte>, n: seq<Byte>, c: nat, pos: nat, mem: nat) returns (k: nat)
    requires c <= |n| && pos + |n| <= |h| && Covers(h, n, pos, c, |n|)
    ensures k <= c && Covers(h, n, pos, k, |n|)
    ensures mem < k ==> n[k - 1] != h[pos + k - 1]
  {
    k := c;
    while k > mem && n[k - 1] == h[pos + k - 1]
      invariant k <= c && Covers(h, n, pos, k, |n|)
    {
      k := k - 1;
    }
  }

  /** The search loop: it returns exactly the first match. */
  method Search(h: seq<Byte>, n: seq<Byte>) returns (r: Option<nat>)
    requires n != []
    ensures IsFirstMatch(h, n, r)
  {
    var byteset, shift := FillTables(n);
    var c, p, mem0 := Factorize(n);
    var l := |n|;
    ghost var set4, shifts := byteset[..], shift[..];
    var pos: nat, mem: nat := 0, 0;
    while true
      invariant byteset[..] == set4 && shift[..] == shifts
      invariant Window(h, n, p, pos, mem)
      decreases |h| - pos
    {
      if |h| - pos < l {
        return None;
      }
      var last := h[pos + l - 1];
      if !ByteIn(byteset[..], last) {
        AbsentByteAdvance(h, n, p, pos, mem);
        pos, mem := pos + l, 0;
        continue;
      }
      assert LastPosition(n, last, shifts[Index(last)]);
      var k: nat := l - shift[Index(last)];
      if k != 0 {
        if k < mem {
          k := mem;
        }
        LastByteAdvance(h, n, p, pos, mem, shift[Index(last)], k);
        pos, mem := pos + k, 0;
        continue;
      }
      k := CompareRightHalf(h, n, c, pos, mem);
      if k < l {
        RightMismatchAdvance(h, n, c, p, pos, mem, k);
        pos, mem := pos + k - c + 1, 0;
        continue;
      }
      k := CompareLeftHalf(h, n, c, pos, mem);
      if k <= mem {
        CoveredMatches(h, n, pos);
        return Some(pos);
      }
      LeftHalfDiffers(h, n, pos, k - 1);
      LeftMismatchAdvance(h, n, c, p, mem0, pos, mem);
      pos, mem := pos + p, mem0;
    }
    assert false;
    return None;
  }

  lemma LeftHalfDiffers(h: seq<Byte>, n: seq<Byte>, pos: nat, y: nat)
    requires pos + |n| <= |h| && y < |n| && n[y] != h[pos + y]
    ensures !MatchAt(h, n, pos)
  {
    assert h[pos..pos + |n|][y] == h[pos + y];
  }
}
