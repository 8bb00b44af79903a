/**
  KernelPatcher::findPattern and findAndReplaceWithMask: a masked search, and the replacement of the
  matches numbered skip, skip + 1, ... up to count of them, under a second mask.
 */
module FindReplace {
  import opened Optional
  import opened BitBytes

  datatype Pattern = Pattern(bytes: seq<Byte>, mask: Option<seq<Byte>>)

  predicate Fits(p: Pattern) {
    p.mask.Some? ==> |p.mask.value| == |p.bytes|
  }

  predicate ByteMatches(p: Pattern, b: Byte, k: int)
    requires Fits(p) && 0 <= k < |p.bytes|
  {
    if p.mask.None? then b == p.bytes[k] else b & p.mask.value[k] == p.bytes[k]
  }

  ghost predicate WindowMatches(p: Pattern, w: seq<Byte>)
    requires Fits(p) && |w| == |p.bytes|
  {
    forall k {:trigger w[k]} :: 0 <= k < |w| ==> ByteMatches(p, w[k], k)
  }

  ghost predicate MatchesAt(p: Pattern, d: seq<Byte>, i: int)
    requires Fits(p)
  {
    0 <= i && i + |p.bytes| <= |d| && WindowMatches(p, d[i..i + |p.bytes|])
  }

  /** The first match at or after from. */
  ghost predicate IsFirst(p: Pattern, d: seq<Byte>, from: int, res: Option<int>)
    requires Fits(p)
  {
    match res
    case Some(i) => from <= i && MatchesAt(p, d, i) && forall j {:trigger MatchesAt(p, d, j)} :: from <= j < i ==>
      !MatchesAt(p, d, j)
    case None => forall j {:trigger MatchesAt(p, d, j)} :: from <= j ==> !MatchesAt(p, d, j)
  }

  /** What a match is, byte by byte: equal to the pattern, or equal to it under the mask. */
  lemma MatchMeans(p: Pattern, d: seq<Byte>, i: int)
    requires Fits(p)
    ensures MatchesAt(p, d, i) <==>
            && 0 <= i && i + |p.bytes| <= |d|
            && match p.mask
               case None => d[i..i + |p.bytes|] == p.bytes
               case Some(m) => forall k {:trigger m[k]} :: 0 <= k < |p.bytes| ==> d[i + k] & m[k] == p.bytes[k]
  {
    if 0 <= i && i + |p.bytes| <= |d| {
      var w := d[i..i + |p.bytes|];
      assert forall k {:trigger w[k]} :: 0 <= k < |w| ==> w[k] == d[i + k];
    }
  }

  method FindPattern(p: Pattern, data: array<Byte>, dataOffset: nat) returns (res: Option<int>)
    requires Fits(p)
    ensures p.bytes == [] ==> res == None
    ensures p.bytes != [] ==> IsFirst(p, data[..], dataOffset, res)
  {
    if |p.bytes| == 0 || data.Length < |p.bytes| {
      return None;
    }
    var currOffset, lastOffset := dataOffset, data.Length - |p.bytes|;
    while currOffset <= lastOffset
      invariant dataOffset <= currOffset
      invariant forall j {:trigger MatchesAt(p, data[..], j)} :: dataOffset <= j < currOffset ==>
                !MatchesAt(p, data[..], j)
    {
      ghost var w := data[..][currOffset..currOffset + |p.bytes|];
      var i := 0;
      while i < |p.bytes| && ByteMatches(p, data[currOffset + i], i)
        invariant 0 <= i <= |p.bytes|
        invariant forall k {:trigger w[k]} :: 0 <= k < i ==> ByteMatches(p, w[k], k)
      {
        assert data[currOffset + i] == w[i];
        i := i + 1;
      }
      if i == |p.bytes| {
        return Some(currOffset);
      }
      assert data[currOffset + i] == w[i];
      currOffset := currOffset + 1;
    }
    return None;
  }

  // ---------- the matches ----------

  /** How far behind match number i the next search starts: matches up to skip are passed over, the others patched. */
  function Stride(p: Pattern, advance: nat, skip: nat, i: int): nat {
    if i < skip then |p.bytes| else advance
  }

  /** Where the search for match number i starts. */
  function Behind(p: Pattern, advance: nat, skip: nat, hits: seq<int>, i: int): int
    requires 0 <= i <= |hits|
  {
    if i == 0 then 0 else hits[i - 1] + Stride(p, advance, skip, i - 1)
  }

  ghost predicate HitAt(p: Pattern, advance: nat, skip: nat, d: seq<Byte>, hits: seq<int>, i: int)
    requires Fits(p) && 0 <= i < |hits|
  {
    IsFirst(p, d, Behind(p, advance, skip, hits, i), Some(hits[i]))
  }

  /** hits are the matches of d from left to right. */
  ghost predicate AreHits(p: Pattern, advance: nat, skip: nat, d: seq<Byte>, hits: seq<int>)
    requires Fits(p)
  {
    forall i {:trigger HitAt(p, advance, skip, d, hits, i)} :: 0 <= i < |hits| ==> HitAt(p, advance, skip, d, hits, i)
  }

  /** h is match number k of d. */
  ghost predicate HitIs(p: Pattern, advance: nat, skip: nat, d: seq<Byte>, k: nat, h: int)
    requires Fits(p)
  {
    exists hits {:trigger AreHits(p, advance, skip, d, hits)} ::
      AreHits(p, advance, skip, d, hits) && |hits| == k + 1 && hits[k] == h
  }

  lemma FirstIsUnique(p: Pattern, d: seq<Byte>, from: int, h: int, h': int)
    requires Fits(p) && IsFirst(p, d, from, Some(h)) && IsFirst(p, d, from, Some(h'))
    ensures h == h'
  {
    assert MatchesAt(p, d, h) && MatchesAt(p, d, h');
  }

  /** The matches are determined by the data: no two lists of them differ. */
  lemma {:induction false} HitsAreUnique(p: Pattern, advance: nat, skip: nat, d: seq<Byte>, a: seq<int>, b: seq<int>,
                                         i: nat)
    requires Fits(p) && AreHits(p, advance, skip, d, a) && AreHits(p, advance, skip, d, b) && i <= |a| && i <= |b|
    ensures Behind(p, advance, skip, a, i) == Behind(p, advance, skip, b, i) && a[..i] == b[..i]
  {
    if i > 0 {
      HitsAreUnique(p, advance, skip, d, a, b, i - 1);
      assert HitAt(p, advance, skip, d, a, i - 1) && HitAt(p, advance, skip, d, b, i - 1);
      FirstIsUnique(p, d, Behind(p, advance, skip, a, i - 1), a[i - 1], b[i - 1]);
      assert a[..i] == a[..i - 1] + [a[i - 1]] && b[..i] == b[..i - 1] + [b[i - 1]];
    }
  }

  lemma OneMoreHit(p: Pattern, advance: nat, skip: nat, d: seq<Byte>, hits: seq<int>, h: int)
    requires Fits(p) && AreHits(p, advance, skip, d, hits)
    requires IsFirst(p, d, Behind(p, advance, skip, hits, |hits|), Some(h))
    ensures AreHits(p, advance, skip, d, hits + [h]) && HitIs(p, advance, skip, d, |hits|, h)
  {
    var more := hits + [h];
    forall i | 0 <= i < |more| ensures HitAt(p, advance, skip, d, more, i) {
      assert Behind(p, advance, skip, more, i) == Behind(p, advance, skip, hits, i);
      assert i < |hits| ==> HitAt(p, advance, skip, d, hits, i);
    }
    assert more[|hits|] == h;
  }

  /** Each match ends before where the last search left off, and the part that is written there too. */
  lemma {:induction false} HitsEnd(p: Pattern, advance: nat, skip: nat, d: seq<Byte>, hits: seq<int>, i: nat, n: nat)
    requires Fits(p) && AreHits(p, advance, skip, d, hits) && i < n <= |hits|
    ensures 0 <= hits[i] && hits[i] + Stride(p, advance, skip, i) <= Behind(p, advance, skip, hits, n)
  {
    assert HitAt(p, advance, skip, d, hits, n - 1);
    if i < n - 1 {
      HitsEnd(p, advance, skip, d, hits, i, n - 1);
    }
  }

  // ---------- what is replaced ----------

  /** One byte rewritten under the replacement mask. */
  function Mixed(r: Pattern, b: Byte, k: int): Byte
    requires Fits(r) && 0 <= k < |r.bytes|
  {
    if r.mask.None? then r.bytes[k] else Mix(b, r.bytes[k], r.mask.value[k])
  }

  function Mix(b: Byte, x: Byte, m: Byte): Byte {
    (b & !m) | (x & m)
  }

  function ReplacedAt(r: Pattern, d: seq<Byte>, h: int): (d': seq<Byte>)
    requires Fits(r) && 0 <= h && h + |r.bytes| <= |d|
    ensures |d'| == |d|
    ensures forall k {:trigger d'[k]} :: 0 <= k < |d| ==>
              d'[k] == if h <= k < h + |r.bytes| then Mixed(r, d[k], k - h) else d[k]
  {
    seq(|d|, k requires 0 <= k < |d| => if h <= k < h + |r.bytes| then Mixed(r, d[k], k - h) else d[k])
  }

  /** d' is d with exactly the places in chosen rewritten, each from the bytes d has there. */
  ghost predicate Rewritten(r: Pattern, d: seq<Byte>, d': seq<Byte>, chosen: seq<int>)
    requires Fits(r)
  {
    && |d'| == |d|
    && (forall i, k {:trigger chosen[i], d'[k]} ::
           0 <= i < |chosen| && 0 <= k < |d| && chosen[i] <= k < chosen[i] + |r.bytes| ==>
           d'[k] == Mixed(r, d[k], k - chosen[i]))
    && (forall k {:trigger d'[k]} ::
           0 <= k < |d|
           && (forall i {:trigger chosen[i]} :: 0 <= i < |chosen| ==> !(chosen[i] <= k < chosen[i] + |r.bytes|)) ==>
           d'[k] == d[k])
  }

  /** Those of the matches found that are patched. */
  function Chosen(hits: seq<int>, skip: nat): seq<int> {
    if |hits| <= skip then [] else hits[skip..]
  }

  /** Rewriting one more place behind all others. */
  lemma RewriteOneMore(r: Pattern, d: seq<Byte>, d': seq<Byte>, d'': seq<Byte>, chosen: seq<int>, end: int, h: int)
    requires Fits(r) && Rewritten(r, d, d', chosen) && 0 <= h && h + |r.bytes| <= |d|
    requires (forall i {:trigger chosen[i]} :: 0 <= i < |chosen| ==> chosen[i] + |r.bytes| <= end) && end <= h
    requires d'' == ReplacedAt(r, d', h)
    ensures Rewritten(r, d, d'', chosen + [h])
  {
    var chosen' := chosen + [h];
    forall k | 0 <= k < |d|
           && (forall i {:trigger chosen'[i]} :: 0 <= i < |chosen'| ==> !(chosen'[i] <= k < chosen'[i] + |r.bytes|))
      ensures d''[k] == d[k]
    {
      OutsideAll(r, chosen, h, k);
    }
    forall i, k | 0 <= i < |chosen'| && 0 <= k < |d| && chosen'[i] <= k < chosen'[i] + |r.bytes|
      ensures d''[k] == Mixed(r, d[k], k - chosen'[i])
    {
      if i < |chosen| {
        assert chosen'[i] == chosen[i];
      } else {
        assert d'[k] == d[k];
      }
    }
  }

  lemma OutsideAll(r: Pattern, chosen: seq<int>, h: int, k: int)
    requires var chosen' := chosen + [h];
             forall i {:trigger chosen'[i]} :: 0 <= i < |chosen'| ==> !(chosen'[i] <= k < chosen'[i] + |r.bytes|)
    ensures !(h <= k < h + |r.bytes|)
    ensures forall i {:trigger chosen[i]} :: 0 <= i < |chosen| ==> !(chosen[i] <= k < chosen[i] + |r.bytes|)
  {
    var chosen' := chosen + [h];
    assert chosen'[|chosen|] == h;
    forall i | 0 <= i < |chosen| ensures !(chosen[i] <= k < chosen[i] + |r.bytes|) {
      assert chosen'[i] == chosen[i];
    }
  }

  /** A search behind everything rewritten so far finds what it would find in the original. */
  lemma SearchesAgree(p: Pattern, d: seq<Byte>, d': seq<Byte>, from: int, res: Option<int>)
    requires Fits(p) && |d| == |d'| && 0 <= from
    requires forall k {:trigger d'[k]} :: from <= k < |d| ==> d'[k] == d[k]
    requires IsFirst(p, d', from, res)
    ensures IsFirst(p, d, from, res)
  {
    forall j | from <= j ensures MatchesAt(p, d, j) <==> MatchesAt(p, d', j) {
      if j + |p.bytes| <= |d| {
        assert d[j..j + |p.bytes|] == d'[j..j + |p.bytes|];
      }
    }
  }

  /** What is written at a match: all of an unmasked replacement, of a masked one as much as the pattern is long. */
  function Patch(p: Pattern, r: Pattern): Pattern
    requires r.mask.Some? ==> |p.bytes| <= |r.bytes| && |p.bytes| <= |r.mask.value|
  {
    if r.mask.None? then r else Pattern(r.bytes[..|p.bytes|], Some(r.mask.value[..|p.bytes|]))
  }

  /** The data after some matches: those chosen are rewritten, and what is still to be searched is as it was. */
  ghost predicate Progress(p: Pattern, w: Pattern, advance: nat, skip: nat, d0: seq<Byte>, d: seq<Byte>,
                           hits: seq<int>)
    requires Fits(p) && Fits(w)
  {
    && AreHits(p, advance, skip, d0, hits) && Rewritten(w, d0, d, Chosen(hits, skip))
    && (forall i {:trigger hits[i]} :: skip <= i < |hits| ==> hits[i] + |w.bytes| <= |d0|)
    && 0 <= Behind(p, advance, skip, hits, |hits|)
    && forall k {:trigger d[k]} :: Behind(p, advance, skip, hits, |hits|) <= k < |d0| ==> d[k] == d0[k]
  }

  lemma ProgressStarts(p: Pattern, w: Pattern, advance: nat, skip: nat, d: seq<Byte>)
    requires Fits(p) && Fits(w)
    ensures Progress(p, w, advance, skip, d, d, [])
  {}

  /** The search in the rewritten data finds what it would find in the original. */
  lemma NextHit(p: Pattern, w: Pattern, advance: nat, skip: nat, d0: seq<Byte>, d: seq<Byte>, hits: seq<int>,
                res: Option<int>)
    requires Fits(p) && Fits(w) && Progress(p, w, advance, skip, d0, d, hits)
    requires IsFirst(p, d, Behind(p, advance, skip, hits, |hits|), res)
    ensures IsFirst(p, d0, Behind(p, advance, skip, hits, |hits|), res)
  {
    SearchesAgree(p, d0, d, Behind(p, advance, skip, hits, |hits|), res);
  }

  lemma ProgressSkip(p: Pattern, w: Pattern, advance: nat, skip: nat, d0: seq<Byte>, d: seq<Byte>, hits: seq<int>,
                     h: int)
    requires Fits(p) && Fits(w) && Progress(p, w, advance, skip, d0, d, hits) && |hits| < skip
    requires IsFirst(p, d, Behind(p, advance, skip, hits, |hits|), Some(h))
    ensures Progress(p, w, advance, skip, d0, d, hits + [h])
    ensures Behind(p, advance, skip, hits + [h], |hits| + 1) == h + |p.bytes|
  {
    NextHit(p, w, advance, skip, d0, d, hits, Some(h));
    OneMoreHit(p, advance, skip, d0, hits, h);
  }

  lemma ProgressHit(p: Pattern, w: Pattern, advance: nat, skip: nat, d0: seq<Byte>, d: seq<Byte>, hits: seq<int>,
                    h: int)
    requires Fits(p) && Fits(w) && |w.bytes| <= advance && Progress(p, w, advance, skip, d0, d, hits) && skip <= |hits|
    requires IsFirst(p, d, Behind(p, advance, skip, hits, |hits|), Some(h)) && 0 <= h && h + |w.bytes| <= |d|
    ensures Progress(p, w, advance, skip, d0, ReplacedAt(w, d, h), hits + [h])
    ensures Behind(p, advance, skip, hits + [h], |hits| + 1) == h + advance
  {
    NextHit(p, w, advance, skip, d0, d, hits, Some(h));
    OneMoreHit(p, advance, skip, d0, hits, h);
    ChosenEnd(p, w, advance, skip, d0, hits);
    RewriteOneMore(w, d0, d, ReplacedAt(w, d, h), Chosen(hits, skip), Behind(p, advance, skip, hits, |hits|), h);
    assert Chosen(hits + [h], skip) == Chosen(hits, skip) + [h];
  }

  /** What has been written lies before where the search goes on. */
  lemma ChosenEnd(p: Pattern, w: Pattern, advance: nat, skip: nat, d: seq<Byte>, hits: seq<int>)
    requires Fits(p) && |w.bytes| <= advance && AreHits(p, advance, skip, d, hits)
    ensures var chosen := Chosen(hits, skip);
            forall i {:trigger chosen[i]} :: 0 <= i < |chosen| ==>
              chosen[i] + |w.bytes| <= Behind(p, advance, skip, hits, |hits|)
  {
    var chosen := Chosen(hits, skip);
    forall i | 0 <= i < |chosen| ensures chosen[i] + |w.bytes| <= Behind(p, advance, skip, hits, |hits|) {
      HitsEnd(p, advance, skip, d, hits, skip + i, |hits|);
    }
  }

  method Replace(data: array<Byte>, r: Pattern, h: nat)
    requires Fits(r) && h + |r.bytes| <= data.Length
    modifies data
    ensures data[..] == ReplacedAt(r, old(data[..]), h)
  {
    ghost var d := data[..];
    var i := 0;
    while i < |r.bytes|
      invariant 0 <= i <= |r.bytes|
      invariant forall k {:trigger data[k]} :: 0 <= k < data.Length ==>
                data[k] == if h <= k < h + i then Mixed(r, d[k], k - h) else d[k]
    {
      data[h + i] := Mixed(r, data[h + i], i);
      i := i + 1;
    }
  }

  // ---------- how it ends ----------

  /** By itself, before a write past the data, or never, the replacement being empty. */
  datatype End = Finished | PastData | Forever

  /** Match number k is wanted. */
  predicate Wanted(skip: nat, count: nat, k: int) {
    skip <= k && (count == 0 || k < skip + count)
  }

  /** What follows the matches found. */
  ghost predicate EndsSo(p: Pattern, w: Pattern, advance: nat, skip: nat, count: nat, d: seq<Byte>, hits: seq<int>,
                         how: End)
    requires Fits(p)
  {
    var end := Behind(p, advance, skip, hits, |hits|);
    match how
    case Finished => IsFirst(p, d, end, None) || (count > 0 && |hits| == skip + count)
    case PastData => Wanted(skip, count, |hits|) && exists h :: IsFirst(p, d, end, Some(h)) && |d| < h + |w.bytes|
    case Forever => advance == 0 == count && |hits| == skip && exists h :: IsFirst(p, d, end, Some(h))
  }

  /** A wanted match of the original data has too little room for what is written. */
  ghost predicate Overruns(p: Pattern, w: Pattern, advance: nat, skip: nat, count: nat, d: seq<Byte>)
    requires Fits(p)
  {
    exists k: nat, h: int {:trigger HitIs(p, advance, skip, d, k, h)} ::
      HitIs(p, advance, skip, d, k, h) && Wanted(skip, count, k) && |d| < h + |w.bytes|
  }

  /** All matches are wanted, there is one beyond those passed over, and the replacement is empty. */
  ghost predicate NeverEnds(p: Pattern, advance: nat, skip: nat, count: nat, d: seq<Byte>)
    requires Fits(p)
  {
    advance == 0 == count
    && exists h: int {:trigger HitIs(p, advance, skip, d, skip, h)} :: HitIs(p, advance, skip, d, skip, h)
  }

  /** A match with a higher number follows the matches found. */
  lemma LaterHit(p: Pattern, advance: nat, skip: nat, d: seq<Byte>, hits: seq<int>, k: nat, h: int)
    requires Fits(p) && AreHits(p, advance, skip, d, hits) && HitIs(p, advance, skip, d, k, h)
    ensures k < |hits| ==> hits[k] == h
    ensures k >= |hits| ==> !IsFirst(p, d, Behind(p, advance, skip, hits, |hits|), None)
  {
    var all :| AreHits(p, advance, skip, d, all) && |all| == k + 1 && all[k] == h;
    if k < |hits| {
      HitsAreUnique(p, advance, skip, d, hits, all, k + 1);
      assert hits[..k + 1][k] == all[..k + 1][k];
    } else {
      HitsAreUnique(p, advance, skip, d, hits, all, |hits|);
      assert HitAt(p, advance, skip, d, all, |hits|);
      assert MatchesAt(p, d, all[|hits|]);
    }
  }

  /** All that is found before the end. */
  ghost predicate Found(p: Pattern, w: Pattern, advance: nat, skip: nat, count: nat, d: seq<Byte>, hits: seq<int>)
    requires Fits(p)
  {
    && AreHits(p, advance, skip, d, hits) && (count > 0 ==> |hits| <= skip + count)
    && (advance == 0 == count ==> |hits| <= skip)
    && forall i {:trigger hits[i]} :: skip <= i < |hits| ==> hits[i] + |w.bytes| <= |d|
  }

  lemma PastDataIsExact(p: Pattern, w: Pattern, advance: nat, skip: nat, count: nat, d: seq<Byte>, hits: seq<int>,
                        how: End)
    requires Fits(p) && Found(p, w, advance, skip, count, d, hits) && (advance == 0 ==> w.bytes == [])
    requires EndsSo(p, w, advance, skip, count, d, hits, how)
    ensures how.PastData? <==> Overruns(p, w, advance, skip, count, d)
  {
    var end := Behind(p, advance, skip, hits, |hits|);
    if how.PastData? {
      var h :| IsFirst(p, d, end, Some(h)) && |d| < h + |w.bytes|;
      OneMoreHit(p, advance, skip, d, hits, h);
    } else if k: nat, h: int :|
      HitIs(p, advance, skip, d, k, h) && Wanted(skip, count, k) && |d| < h + |w.bytes|
    {
      LaterHit(p, advance, skip, d, hits, k, h);
      HitIsMatch(p, advance, skip, d, k, h);
      assert false;
    }
  }

  lemma HitIsMatch(p: Pattern, advance: nat, skip: nat, d: seq<Byte>, k: nat, h: int)
    requires Fits(p) && HitIs(p, advance, skip, d, k, h)
    ensures MatchesAt(p, d, h)
  {
    var all :| AreHits(p, advance, skip, d, all) && |all| == k + 1 && all[k] == h;
    assert HitAt(p, advance, skip, d, all, k);
  }

  lemma ForeverIsExact(p: Pattern, w: Pattern, advance: nat, skip: nat, count: nat, d: seq<Byte>, hits: seq<int>,
                       how: End)
    requires Fits(p) && Found(p, w, advance, skip, count, d, hits) && (advance == 0 ==> w.bytes == [])
    requires EndsSo(p, w, advance, skip, count, d, hits, how)
    ensures how.Forever? <==> NeverEnds(p, advance, skip, count, d)
  {
    var end := Behind(p, advance, skip, hits, |hits|);
    if how.Forever? {
      var h :| IsFirst(p, d, end, Some(h));
      OneMoreHit(p, advance, skip, d, hits, h);
    } else if NeverEnds(p, advance, skip, count, d) {
      var h :| HitIs(p, advance, skip, d, skip, h);
      LaterHit(p, advance, skip, d, hits, skip, h);
      assert false;
    }
  }

  /** Only a replacement longer than the pattern is ever written past the data. */
  lemma OnlyLongerOverruns(p: Pattern, w: Pattern, advance: nat, skip: nat, count: nat, d: seq<Byte>)
    requires Fits(p) && Overruns(p, w, advance, skip, count, d)
    ensures |p.bytes| < |w.bytes|
  {
    var k: nat, h: int :| HitIs(p, advance, skip, d, k, h) && Wanted(skip, count, k) && |d| < h + |w.bytes|;
    HitIsMatch(p, advance, skip, d, k, h);
  }

  /** Such a replacement: two bytes for the only one there is. */
  lemma LongerReplacementOverruns()
    ensures var p, w := Pattern([1], None), Pattern([2, 2], None); Overruns(p, w, 2, 0, 0, [1])
  {
    OnlyByteIsFirst();
    OneMoreHit(Pattern([1], None), 2, 0, [1], [], 0);
  }

  lemma OnlyByteIsFirst()
    ensures IsFirst(Pattern([1], None), [1], 0, Some(0))
  {
    var d: seq<Byte> := [1];
    assert d[0..0 + 1] == [1];
    assert MatchesAt(Pattern([1], None), d, 0);
  }

  /** And one that never ends: the same byte removed as often as there is one. */
  lemma EmptyReplacementNeverEnds()
    ensures NeverEnds(Pattern([1], None), 0, 0, 0, [1])
  {
    OnlyByteIsFirst();
    OneMoreHit(Pattern([1], None), 0, 0, [1], [], 0);
  }

  /** Where the model stops with Forever, the loop comes to the same data and offset again. */
  lemma ForeverRepeats(p: Pattern, w: Pattern, d: seq<Byte>, h: int)
    requires Fits(p) && Fits(w) && w.bytes == [] && MatchesAt(p, d, h)
    ensures 0 <= h <= |d| && ReplacedAt(w, d, h) == d && IsFirst(p, d, h, Some(h))
  {}

  // ---------- what is left in the data ----------

  /** Bytes written at a match: all of the replacement, or as many as the pattern has if there is a mask. */
  function Width(p: Pattern, r: Pattern): nat {
    if r.mask.None? then |r.bytes| else |p.bytes|
  }

  /**
    d' is d with r written at the places in chosen: its bytes, or under a mask its bits where the mask has ones and
    those of d where it has zeros. Nothing else changes.
   */
  ghost predicate Patched(p: Pattern, r: Pattern, d: seq<Byte>, d': seq<Byte>, chosen: seq<int>)
    requires r.mask.Some? ==> |p.bytes| <= |r.bytes| && |p.bytes| <= |r.mask.value|
  {
    && |d'| == |d|
    && (forall i {:trigger chosen[i]} :: 0 <= i < |chosen| ==>
          PatchedAt(p, r, d, d', chosen[i]))
    && forall k {:trigger d'[k]} :: 0 <= k < |d| && !Within(p, r, chosen, k) ==> d'[k] == d[k]
  }

  /** k lies in one of the places that are written. */
  ghost predicate Within(p: Pattern, r: Pattern, chosen: seq<int>, k: int) {
    exists i {:trigger chosen[i]} :: 0 <= i < |chosen| && chosen[i] <= k < chosen[i] + Width(p, r)
  }

  ghost predicate PatchedAt(p: Pattern, r: Pattern, d: seq<Byte>, d': seq<Byte>, h: int)
    requires |d'| == |d| && (r.mask.Some? ==> |p.bytes| <= |r.bytes| && |p.bytes| <= |r.mask.value|)
  {
    && 0 <= h && h + Width(p, r) <= |d|
    && match r.mask
       case None => d'[h..h + |r.bytes|] == r.bytes
       case Some(m) => forall k {:trigger m[k]} :: 0 <= k < |p.bytes| ==>
         d'[h + k] & m[k] == r.bytes[k] & m[k] && d'[h + k] & !m[k] == d[h + k] & !m[k]
  }

  lemma RewrittenIsPatched(p: Pattern, r: Pattern, d: seq<Byte>, d': seq<Byte>, chosen: seq<int>)
    requires r.mask.Some? ==> |p.bytes| <= |r.bytes| && |p.bytes| <= |r.mask.value|
    requires Rewritten(Patch(p, r), d, d', chosen)
    requires forall i {:trigger chosen[i]} :: 0 <= i < |chosen| ==> 0 <= chosen[i] && chosen[i] + Width(p, r) <= |d|
    ensures Patched(p, r, d, d', chosen)
  {
    var w := Patch(p, r);
    assert |w.bytes| == Width(p, r);
    forall i {:trigger chosen[i]} | 0 <= i < |chosen| ensures PatchedAt(p, r, d, d', chosen[i]) {
      RewrittenAt(p, r, d, d', chosen, i);
    }
  }

  lemma RewrittenAt(p: Pattern, r: Pattern, d: seq<Byte>, d': seq<Byte>, chosen: seq<int>, i: int)
    requires r.mask.Some? ==> |p.bytes| <= |r.bytes| && |p.bytes| <= |r.mask.value|
    requires Rewritten(Patch(p, r), d, d', chosen) && 0 <= i < |chosen|
    requires 0 <= chosen[i] && chosen[i] + Width(p, r) <= |d|
    ensures PatchedAt(p, r, d, d', chosen[i])
  {
    if r.mask.None? {
      PlainAt(p, r, d, d', chosen, i);
    } else {
      MaskedAt(p, r, d, d', chosen, i);
    }
  }

  lemma PlainAt(p: Pattern, r: Pattern, d: seq<Byte>, d': seq<Byte>, chosen: seq<int>, i: int)
    requires r.mask.None? && Rewritten(Patch(p, r), d, d', chosen) && 0 <= i < |chosen|
    requires 0 <= chosen[i] && chosen[i] + |r.bytes| <= |d|
    ensures PatchedAt(p, r, d, d', chosen[i])
  {
    var h := chosen[i];
    forall x {:trigger d'[x]} | h <= x < h + |r.bytes| ensures d'[x] == r.bytes[x - h] {
      RewrittenByte(p, r, d, d', chosen, i, x - h);
    }
  }

  lemma MaskedAt(p: Pattern, r: Pattern, d: seq<Byte>, d': seq<Byte>, chosen: seq<int>, i: int)
    requires r.mask.Some? && |p.bytes| <= |r.bytes| && |p.bytes| <= |r.mask.value|
    requires Rewritten(Patch(p, r), d, d', chosen) && 0 <= i < |chosen|
    requires 0 <= chosen[i] && chosen[i] + |p.bytes| <= |d|
    ensures PatchedAt(p, r, d, d', chosen[i])
  {
    var h, m := chosen[i], r.mask.value;
    forall k {:trigger m[k]} | 0 <= k < |p.bytes|
      ensures d'[h + k] & m[k] == r.bytes[k] & m[k] && d'[h + k] & !m[k] == d[h + k] & !m[k]
    {
      RewrittenByte(p, r, d, d', chosen, i, k);
    }
  }

  lemma RewrittenByte(p: Pattern, r: Pattern, d: seq<Byte>, d': seq<Byte>, chosen: seq<int>, i: int, k: int)
    requires r.mask.Some? ==> |p.bytes| <= |r.bytes| && |p.bytes| <= |r.mask.value|
    requires Rewritten(Patch(p, r), d, d', chosen) && 0 <= i < |chosen| && 0 <= k < Width(p, r)
    requires 0 <= chosen[i] && chosen[i] + Width(p, r) <= |d|
    ensures var b := d'[chosen[i] + k];
            match r.mask
            case None => b == r.bytes[k]
            case Some(m) => b & m[k] == r.bytes[k] & m[k] && b & !m[k] == d[chosen[i] + k] & !m[k]
  {
    var x := chosen[i] + k;
    assert d'[x] == Mixed(Patch(p, r), d[x], k);
    if r.mask.Some? {
      OnlyMaskedBitsChange(d[x], r.bytes[k], r.mask.value[k]);
    }
  }

  // ---------- the whole function ----------

  /**
    findAndReplaceWithMask, for any two lengths. hits are matches of the original data, also where the replacement is
    shorter or longer than the pattern; those from number skip on, and count of them if count is not 0, are
    rewritten, each from the bytes the original has there. It comes to an end within the data unless a wanted match
    has too little room, or the replacement is empty and all matches are wanted.
   */
  method FindAndReplaceWithMask(data: array<Byte>, p: Pattern, r: Pattern, count: nat, skip: nat)
    returns (ok: bool, how: End, ghost hits: seq<int>)
    requires Fits(p) && (r.mask.Some? ==> |p.bytes| <= |r.bytes| && |p.bytes| <= |r.mask.value|)
    modifies data
    ensures p.bytes == [] ==> !ok && how.Finished? && data[..] == old(data[..])
    ensures p.bytes != [] ==>
              && Found(p, Patch(p, r), |r.bytes|, skip, count, old(data[..]), hits) && (ok <==> |hits| > skip)
              && Rewritten(Patch(p, r), old(data[..]), data[..], Chosen(hits, skip))
              && EndsSo(p, Patch(p, r), |r.bytes|, skip, count, old(data[..]), hits, how)
    ensures p.bytes != [] ==>
              && (how.PastData? <==> Overruns(p, Patch(p, r), |r.bytes|, skip, count, old(data[..])))
              && (how.Forever? <==> NeverEnds(p, |r.bytes|, skip, count, old(data[..])))
    ensures p.bytes != [] ==> Patched(p, r, old(data[..]), data[..], Chosen(hits, skip))
  {
    var w := Patch(p, r);
    ghost var d0 := data[..];
    ok, how, hits := false, Finished, [];
    if data.Length < |p.bytes| || p.bytes == [] {
      ProgressStarts(p, w, |r.bytes|, skip, d0);
    } else {
      ok, how, hits := ReplaceAll(data, p, w, |r.bytes|, count, skip);
    }
    if p.bytes != [] {
      PastDataIsExact(p, w, |r.bytes|, skip, count, d0, hits, how);
      ForeverIsExact(p, w, |r.bytes|, skip, count, d0, hits, how);
      ChosenHaveRoom(p, w, |r.bytes|, skip, count, d0, hits);
      RewrittenIsPatched(p, r, d0, data[..], Chosen(hits, skip));
    }
  }

  lemma ChosenHaveRoom(p: Pattern, w: Pattern, advance: nat, skip: nat, count: nat, d: seq<Byte>, hits: seq<int>)
    requires Fits(p) && Found(p, w, advance, skip, count, d, hits)
    ensures var chosen := Chosen(hits, skip);
            forall i {:trigger chosen[i]} :: 0 <= i < |chosen| ==> 0 <= chosen[i] && chosen[i] + |w.bytes| <= |d|
  {
    var chosen := Chosen(hits, skip);
    forall i {:trigger chosen[i]} | 0 <= i < |chosen| ensures 0 <= chosen[i] && chosen[i] + |w.bytes| <= |d| {
      HitsEnd(p, advance, skip, d, hits, skip + i, |hits|);
    }
  }

  /** The search loop: w is written over each match, and the search goes on advance bytes behind where it starts. */
  method ReplaceAll(data: array<Byte>, p: Pattern, w: Pattern, advance: nat, count: nat, skip: nat)
    returns (ok: bool, how: End, ghost hits: seq<int>)
    requires Fits(p) && Fits(w) && p.bytes != [] && |w.bytes| <= advance
    modifies data
    ensures Found(p, w, advance, skip, count, old(data[..]), hits) && (ok <==> |hits| > skip)
    ensures Rewritten(w, old(data[..]), data[..], Chosen(hits, skip))
    ensures EndsSo(p, w, advance, skip, count, old(data[..]), hits, how)
  {
    ghost var d0 := data[..];
    var toSkip, replCount, dataOffset, left, more := skip, 0, 0, count, true;
    how, hits := Finished, [];
    ProgressStarts(p, w, advance, skip, d0);
    while more
      invariant Going(p, w, advance, skip, count, d0, data[..], hits, dataOffset, toSkip, replCount, left)
      invariant if more then how.Finished? && (count > 0 ==> left > 0)
                else EndsSo(p, w, advance, skip, count, d0, hits, how)
      decreases more, data.Length - dataOffset, left
    {
      more, how, hits, dataOffset, toSkip, replCount, left :=
        Round(data, p, w, advance, count, skip, d0, hits, dataOffset, toSkip, replCount, left);
    }
    ok := replCount > 0;
  }

  /** One search, and what is done with what it finds. */
  method Round(data: array<Byte>, p: Pattern, w: Pattern, advance: nat, count: nat, ghost skip: nat,
               ghost d0: seq<Byte>, ghost hits0: seq<int>, offset0: nat, toSkip0: nat, replCount0: nat, left0: nat)
    returns (more: bool, how: End, ghost hits: seq<int>, dataOffset: nat, toSkip: nat, replCount: nat, left: nat)
    requires Fits(p) && Fits(w) && p.bytes != [] && |w.bytes| <= advance && (count > 0 ==> left0 > 0)
    requires Going(p, w, advance, skip, count, d0, data[..], hits0, offset0, toSkip0, replCount0, left0)
    modifies data
    ensures Going(p, w, advance, skip, count, d0, data[..], hits, dataOffset, toSkip, replCount, left)
    ensures if more then how.Finished? && (count > 0 ==> left > 0)
            else EndsSo(p, w, advance, skip, count, d0, hits, how)
    ensures more ==> offset0 <= data.Length
    ensures more ==> offset0 < dataOffset || (offset0 == dataOffset && left < left0)
  {
    more, how, hits, dataOffset, toSkip, replCount, left := true, Finished, hits0, offset0, toSkip0, replCount0, left0;
    var found := FindPattern(p, data, dataOffset);
    if found.Some? && toSkip > 0 {
      SkipsOne(p, w, advance, skip, count, d0, data[..], hits, dataOffset, toSkip, replCount, left, found.value);
      toSkip, hits, dataOffset := toSkip - 1, hits + [found.value], found.value + |p.bytes|;
    } else if found.None? || data.Length < found.value + |w.bytes| || (advance == 0 && count == 0) {
      how := if found.None? then Finished else if data.Length < found.value + |w.bytes| then PastData else Forever;
      StopsHere(p, w, advance, skip, count, d0, data[..], hits, dataOffset, toSkip, replCount, left, found, how);
      more := false;
    } else {
      ReplaceOne(data, p, w, advance, skip, count, d0, hits, dataOffset, replCount, left, found.value);
      replCount, hits, dataOffset := replCount + 1, hits + [found.value], found.value + advance;
      if left > 0 {
        left := left - 1;
        more := left > 0;
      }
    }
  }

  /** The loop between two rounds. */
  ghost predicate Going(p: Pattern, w: Pattern, advance: nat, skip: nat, count: nat, d0: seq<Byte>, d: seq<Byte>,
                        hits: seq<int>, end: int, toSkip: nat, replCount: nat, left: nat)
    requires Fits(p) && Fits(w)
  {
    && Progress(p, w, advance, skip, d0, d, hits) && end == Behind(p, advance, skip, hits, |hits|)
    && |d| == |d0| && toSkip == (if |hits| < skip then skip - |hits| else 0) && |hits| == skip - toSkip + replCount
    && (if count == 0 then left == 0 else left == count - replCount)
    && (advance == 0 == count ==> replCount == 0)
  }

  lemma StopsHere(p: Pattern, w: Pattern, advance: nat, skip: nat, count: nat, d0: seq<Byte>, d: seq<Byte>,
                  hits: seq<int>, end: int, toSkip: nat, replCount: nat, left: nat, found: Option<int>, how: End)
    requires Fits(p) && Fits(w) && Going(p, w, advance, skip, count, d0, d, hits, end, toSkip, replCount, left)
    requires IsFirst(p, d, end, found) && (count > 0 ==> left > 0) && (found.Some? ==> toSkip == 0)
    requires match how
             case Finished => found == None
             case PastData => found.Some? && |d| < found.value + |w.bytes|
             case Forever => found.Some? && advance == 0 == count
    ensures EndsSo(p, w, advance, skip, count, d0, hits, how)
  {
    NextHit(p, w, advance, skip, d0, d, hits, found);
  }

  lemma SkipsOne(p: Pattern, w: Pattern, advance: nat, skip: nat, count: nat, d0: seq<Byte>, d: seq<Byte>,
                 hits: seq<int>, end: int, toSkip: nat, replCount: nat, left: nat, h: int)
    requires Fits(p) && Fits(w) && Going(p, w, advance, skip, count, d0, d, hits, end, toSkip, replCount, left)
    requires IsFirst(p, d, end, Some(h)) && toSkip > 0
    ensures Going(p, w, advance, skip, count, d0, d, hits + [h], h + |p.bytes|, toSkip - 1, replCount, left)
  {
    ProgressSkip(p, w, advance, skip, d0, d, hits, h);
  }

  method ReplaceOne(data: array<Byte>, p: Pattern, w: Pattern, advance: nat, ghost skip: nat, ghost count: nat,
                    ghost d0: seq<Byte>, ghost hits: seq<int>, ghost end: int, ghost replCount: nat, ghost left: nat,
                    h: nat)
    requires Fits(p) && Fits(w) && |w.bytes| <= advance && !(advance == 0 == count)
    requires Going(p, w, advance, skip, count, d0, data[..], hits, end, 0, replCount, left)
    requires IsFirst(p, data[..], end, Some(h)) && h + |w.bytes| <= data.Length && (count > 0 ==> left > 0)
    modifies data
    ensures Going(p, w, advance, skip, count, d0, data[..], hits + [h], h + advance, 0, replCount + 1,
                  if count > 0 then left - 1 else 0)
  {
    ProgressHit(p, w, advance, skip, d0, data[..], hits, h);
    Replace(data, w, h);
  }

  /** Only bits under the replacement mask change, and those become the replacement's. */
  lemma OnlyMaskedBitsChange(b: Byte, x: Byte, m: Byte)
    ensures Mix(b, x, m) & !m == b & !m
    ensures Mix(b, x, m) & m == x & m
  {}
}
