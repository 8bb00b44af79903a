/** decompress_lzss: the ring-buffer decoder, proved to return what the stream means. */
module LzssDecoder {
  import opened LzssTree
  import opened Bytes
  import opened LzssStrings
  import opened LzssFormat

  // ---------- the flag register ----------

  /** reg holds the n unread flag bits f below the eight marker bits that count them. */
  ghost predicate Marked(reg: int, n: nat, f: int) {
    n <= 8 && 0 <= f < Pow2(n) && reg == f + 255 * Pow2(n)
  }

  lemma MarkerCounts(reg: int, n: nat, f: int)
    requires Marked(reg, n, f)
    ensures reg / 256 % 2 == 0 <==> n == 0
    ensures n > 0 ==> reg % 2 == f % 2 && Marked(reg / 2, n - 1, f / 2)
  {
    var p := Pow2(n);
    assert p in {1, 2, 4, 8, 16, 32, 64, 128, 256};
  }

  // ---------- the ring ----------

  ghost predicate RingHolds(buf: seq<byte>, junk: seq<byte>, h: seq<byte>, r: int) {
    && |buf| == TEXT && |junk| == N && r == |h| % N
    && forall x :: 0 <= x < N ==> buf[x] == RingAt(junk, h, x)
  }

  lemma RingWrite(junk: seq<byte>, h: seq<byte>, c: byte, x: int)
    requires |junk| == N && 0 <= x < N
    ensures RingAt(junk, h + [c], x) == if x == |h| % N then c else RingAt(junk, h, x)
  {
    var m := (x - |h|) % N;
    if x == |h| % N {
      assert (x - |h|) % N == 0 && (x - |h| - 1) % N == N - 1;
    } else {
      assert m > 0 && (x - |h| - 1) % N == m - 1;
    }
  }

  lemma RingPush(buf: seq<byte>, junk: seq<byte>, h: seq<byte>, r: int, c: byte)
    requires RingHolds(buf, junk, h, r)
    ensures RingHolds(buf[r := c], junk, h + [c], (r + 1) % N)
  {
    forall x | 0 <= x < N ensures buf[r := c][x] == RingAt(junk, h + [c], x) {
      RingWrite(junk, h, c, x);
    }
  }

  lemma RingStart(buf: seq<byte>, junk: seq<byte>)
    requires |buf| == TEXT && |junk| == N
    requires forall x :: 0 <= x < N ==> buf[x] == if x < N - F then 32 else junk[x]
    ensures RingHolds(buf, junk, Spaces(), N - F)
  {
    forall x | 0 <= x < N ensures buf[x] == RingAt(junk, Spaces(), x) {
      var m := (x - (N - F)) % N;
      assert m == if x < N - F then x + F else x - (N - F);
    }
  }

  // ---------- the decoder ----------

  /** The first d output bytes are what h has beyond the initial spaces. */
  ghost predicate Emitted(dst: seq<byte>, d: nat, h: seq<byte>) {
    d <= |dst| && |h| == N - F + d && dst[..d] == h[N - F..]
  }

  lemma EmitByte(dst: seq<byte>, d: nat, h: seq<byte>, c: byte)
    requires Emitted(dst, d, h) && d < |dst|
    ensures Emitted(dst[d := c], d + 1, h + [c])
  {
    assert (h + [c])[N - F..] == h[N - F..] + [c];
    assert dst[d := c][..d + 1] == dst[..d] + [c];
  }

  /** The history so far is on the way to all: either the unread units lead there, or dst is full. */
  ghost predicate OnTheWay(all: seq<byte>, junk: seq<byte>, h: seq<byte>, rest: seq<Unit>, room: int) {
    |junk| == N && ValidUnits(rest) && h <= all && (Expand(junk, h, rest) == all || room == 0)
  }

  /** Stores c in the output and in the ring. */
  method PutByte(dst: array<byte>, d0: nat, textBuf: array<byte>, r0: int, c: byte, ghost junk: seq<byte>,
                 ghost h: seq<byte>)
    returns (d: nat, r: int)
    requires dst != textBuf && textBuf.Length == TEXT && RingHolds(textBuf[..], junk, h, r0)
    requires d0 < dst.Length && Emitted(dst[..], d0, h)
    modifies dst, textBuf
    ensures RingHolds(textBuf[..], junk, h + [c], r) && Emitted(dst[..], d, h + [c])
  {
    EmitByte(dst[..], d0, h, c);
    RingPush(textBuf[..], junk, h, r0, c);
    ghost var dst', buf' := dst[..][d0 := c], textBuf[..][r0 := c];
    dst[d0] := c;
    textBuf[r0] := c;
    assert dst[..] == dst' && textBuf[..] == buf';
    d, r := d0 + 1, (r0 + 1) % N;
  }

  /** The match loop of the decoder: byte by byte, so that it may read what it has just written. */
  method CopyMatch(dst: array<byte>, d0: nat, textBuf: array<byte>, r0: int, i: int, len: int, ghost junk: seq<byte>,
                   ghost h0: seq<byte>)
    returns (d: nat, r: int, ghost h: seq<byte>)
    requires dst != textBuf && textBuf.Length == TEXT && RingHolds(textBuf[..], junk, h0, r0)
    requires Emitted(dst[..], d0, h0) && 0 <= i < N && 0 <= len
    modifies dst, textBuf
    ensures RingHolds(textBuf[..], junk, h, r) && Emitted(dst[..], d, h)
    ensures h0 <= h <= CopyFrom(junk, h0, i, len)
    ensures h == CopyFrom(junk, h0, i, len) || d == dst.Length
  {
    d, r, h := d0, r0, h0;
    var k := 0;
    while k < len
      invariant 0 <= k && Copying(junk, h0, h, i, k, len)
      invariant RingHolds(textBuf[..], junk, h, r) && Emitted(dst[..], d, h)
    {
      var c := textBuf[(i + k) % N];
      if d >= dst.Length {
        break;
      }
      CopyStep(junk, h0, h, i, k, len, c);
      d, r := PutByte(dst, d, textBuf, r, c, junk, h);
      h, k := h + [c], k + 1;
    }
    CopyEnds(junk, h0, h, i, k, len);
  }

  /** k bytes of the reference are copied. */
  ghost predicate Copying(junk: seq<byte>, h0: seq<byte>, h: seq<byte>, i: int, k: nat, len: int) {
    && |junk| == N && k <= len && h0 <= h && 0 <= i < N
    && CopyFrom(junk, h, (i + k) % N, len - k) == CopyFrom(junk, h0, i, len)
  }

  lemma CopyStep(junk: seq<byte>, h0: seq<byte>, h: seq<byte>, i: int, k: nat, len: int, c: byte)
    requires Copying(junk, h0, h, i, k, len) && k < len && c == RingAt(junk, h, (i + k) % N)
    ensures Copying(junk, h0, h + [c], i, k + 1, len)
  {
    RingIndexStep(i, k);
  }

  lemma CopyEnds(junk: seq<byte>, h0: seq<byte>, h: seq<byte>, i: int, k: nat, len: int)
    requires Copying(junk, h0, h, i, k, len)
    ensures h0 <= h <= CopyFrom(junk, h0, i, len)
    ensures k == len ==> h == CopyFrom(junk, h0, i, len)
  {}

  lemma RingIndexStep(i: int, k: int)
    ensures ((i + k) % N + 1) % N == (i + (k + 1)) % N
  {}

  lemma ReferenceFields(lo: byte, hi: byte)
    ensures 0 <= hi / 16 < 16 && 0 <= hi % 16 < 16
  {}

  // ---------- one step of the main loop, on the stream ----------

  lemma LiteralStep(all: seq<byte>, junk: seq<byte>, h: seq<byte>, src: seq<byte>, i: nat, n: nat, f: int, room: int)
    requires i < |src| && n > 0 && f % 2 == 1 && room > 0
    requires OnTheWay(all, junk, h, Parse(src[i..], n, f), room)
    ensures OnTheWay(all, junk, h + [src[i]], Parse(src[i + 1..], n - 1, f / 2), room - 1)
  {
    var u, rest := Literal(src[i]), Parse(src[i + 1..], n - 1, f / 2);
    assert src[i..][1..] == src[i + 1..];
    assert Parse(src[i..], n, f) == [u] + rest;
    UnitConsumed(all, junk, h, u, rest, room, h + [src[i]], room - 1);
  }

  lemma ParseReference(src: seq<byte>, i: nat, n: nat, f: int, pos: int, len: int)
    requires i + 1 < |src| && n > 0 && f % 2 != 1
    requires var lo: int, hi: int := src[i], src[i + 1]; pos == lo + hi / 16 * 256 && len == hi % 16 + THRESHOLD + 1
    ensures Parse(src[i..], n, f) == [Reference(pos, len)] + Parse(src[i + 2..], n - 1, f / 2)
  {
    var s := src[i..];
    assert s[2..] == src[i + 2..] && s[0] == src[i] && s[1] == src[i + 1];
  }

  lemma ReferenceStep(all: seq<byte>, junk: seq<byte>, h: seq<byte>, src: seq<byte>, i: nat, n: nat, f: int, room: int,
                      pos: int, len: int, h': seq<byte>, room': int)
    requires i + 1 < |src| && n > 0 && f % 2 != 1 && 0 <= room
    requires var lo: int, hi: int := src[i], src[i + 1]; pos == lo + hi / 16 * 256 && len == hi % 16 + THRESHOLD + 1
    requires OnTheWay(all, junk, h, Parse(src[i..], n, f), room)
    requires h <= h' <= CopyFrom(junk, h, pos, len) && room' == room - (|h'| - |h|)
    requires 0 <= room' && (h' == CopyFrom(junk, h, pos, len) || room' == 0)
    ensures OnTheWay(all, junk, h', Parse(src[i + 2..], n - 1, f / 2), room')
  {
    var u, rest := Reference(pos, len), Parse(src[i + 2..], n - 1, f / 2);
    ParseReference(src, i, n, f, pos, len);
    UnitConsumed(all, junk, h, u, rest, room, h', room');
  }

  /** One unit off the stream leads on towards all. */
  lemma UnitConsumed(all: seq<byte>, junk: seq<byte>, h: seq<byte>, u: Unit, rest: seq<Unit>, room: int,
                     h': seq<byte>, room': int)
    requires ValidUnit(u) && ValidUnits(rest) && OnTheWay(all, junk, h, [u] + rest, room)
    requires room > 0 ==> h' <= Apply(junk, h, u) && (h' == Apply(junk, h, u) || room' == 0)
    requires room == 0 ==> h' == h && room' == 0
    requires 0 <= room
    ensures OnTheWay(all, junk, h', rest, room')
  {
    assert ([u] + rest)[0] == u && ([u] + rest)[1..] == rest;
    if room > 0 {
      var h1 := Apply(junk, h, u);
      assert Expand(junk, h, [u] + rest) == Expand(junk, h1, rest);
      assert h1 <= all;
    }
  }

  lemma Finished(dst: seq<byte>, src: seq<byte>, junk: seq<byte>, h: seq<byte>, d: nat, rest: seq<Unit>)
    requires |junk| == N && Emitted(dst, d, h)
    requires OnTheWay(Expand(junk, Spaces(), Parse(src, 0, 0)), junk, h, rest, |dst| - d)
    requires rest == [] || d == |dst|
    ensures dst[..d] == Decode(junk, src, |dst|)
  {
    var all := Expand(junk, Spaces(), Parse(src, 0, 0));
    if d == |dst| {
      assert all[N - F..][..d] == h[N - F..];
    }
  }

  method NewRing() returns (textBuf: array<byte>, ghost junk: seq<byte>)
    ensures fresh(textBuf) && textBuf.Length == TEXT
    ensures RingHolds(textBuf[..], junk, Spaces(), N - F)
  {
    textBuf := new byte[TEXT];
    junk := textBuf[..N];
    for x := 0 to N - F
      invariant forall y :: 0 <= y < N ==> textBuf[y] == if y < x then 32 else junk[y]
    {
      textBuf[x] := 32;
    }
    RingStart(textBuf[..], junk);
  }

  /** Between units: the register holds the n unread flag bits f, one position too far left, or nothing yet. */
  ghost predicate Waiting(flags: int, n: nat, f: int) {
    n <= 7 && ((n == 0 && flags == 0 && f == 0) || Marked(flags / 2, n, f))
  }

  /** Shifts to the next flag bit, reading a new flag byte when the eight are used up. */
  method NextFlag(src: seq<byte>, i0: nat, flags0: int, ghost n0: nat, ghost f0: int)
    returns (more: bool, i: nat, flags: int, ghost n: nat, ghost f: int)
    requires i0 <= |src| && Waiting(flags0, n0, f0)
    ensures !more ==> i0 == |src|
    ensures more ==> i0 <= i <= |src| && 1 <= n && Marked(flags, n, f)
    ensures more ==> flags % 2 == f % 2 && Waiting(flags, n - 1, f / 2)
    ensures more ==> Parse(src[i..], n, f) == Parse(src[i0..], n0, f0)
  {
    more, i, flags, n, f := true, i0, flags0 / 2, n0, f0;
    if n > 0 || flags != 0 {
      MarkerCounts(flags, n, f);
    }
    if flags / 256 % 2 == 0 {
      if i >= |src| {
        more := false;
        return;
      }
      var bits: int := src[i];
      flags := bits + 0xFF00;
      n, f := 8, bits;
      i := i + 1;
      assert src[i0..][1..] == src[i..];
    }
    MarkerCounts(flags, n, f);
  }

  /** decompress_lzss. The ring is a stack array that starts with arbitrary bytes. */
  method DecompressLzss(dst: array<byte>, src: seq<byte>) returns (size: nat, ghost junk: seq<byte>)
    modifies dst
    ensures |junk| == N && size <= dst.Length
    ensures dst[..size] == Decode(junk, src, dst.Length)
  {
    var textBuf;
    textBuf, junk := NewRing();
    ghost var h, rest;
    size, h, rest := DecodeLoop(dst, src, textBuf, junk, Expand(junk, Spaces(), Parse(src, 0, 0)));
    Finished(dst[..], src, junk, h, size, rest);
  }

  method OneLiteral(dst: array<byte>, size0: nat, textBuf: array<byte>, r0: int, src: seq<byte>, i: nat,
                    ghost junk: seq<byte>, ghost all: seq<byte>, ghost h0: seq<byte>, ghost n: nat, ghost f: int)
    returns (size: nat, r: int, ghost h: seq<byte>)
    requires dst != textBuf && RingHolds(textBuf[..], junk, h0, r0) && Emitted(dst[..], size0, h0)
    requires i < |src| && size0 < dst.Length && n > 0 && f % 2 == 1
    requires OnTheWay(all, junk, h0, Parse(src[i..], n, f), dst.Length - size0)
    modifies dst, textBuf
    ensures RingHolds(textBuf[..], junk, h, r) && Emitted(dst[..], size, h)
    ensures OnTheWay(all, junk, h, Parse(src[i + 1..], n - 1, f / 2), dst.Length - size)
  {
    LiteralStep(all, junk, h0, src, i, n, f, dst.Length - size0);
    size, r := PutByte(dst, size0, textBuf, r0, src[i], junk, h0);
    h := h0 + [src[i]];
  }

  method OneReference(dst: array<byte>, size0: nat, textBuf: array<byte>, r0: int, src: seq<byte>, i: nat,
                      ghost junk: seq<byte>, ghost all: seq<byte>, ghost h0: seq<byte>, ghost n: nat, ghost f: int)
    returns (size: nat, r: int, ghost h: seq<byte>)
    requires dst != textBuf && RingHolds(textBuf[..], junk, h0, r0) && Emitted(dst[..], size0, h0)
    requires i + 1 < |src| && n > 0 && f % 2 != 1
    requires OnTheWay(all, junk, h0, Parse(src[i..], n, f), dst.Length - size0)
    modifies dst, textBuf
    ensures RingHolds(textBuf[..], junk, h, r) && Emitted(dst[..], size, h)
    ensures OnTheWay(all, junk, h, Parse(src[i + 2..], n - 1, f / 2), dst.Length - size)
  {
    var lo: int, hi: int := src[i], src[i + 1];
    ReferenceFields(src[i], src[i + 1]);
    var pos, len := lo + hi / 16 * 256, hi % 16 + THRESHOLD + 1;
    size, r, h := CopyMatch(dst, size0, textBuf, r0, pos, len, junk, h0);
    ReferenceStep(all, junk, h0, src, i, n, f, dst.Length - size0, pos, len, h, dst.Length - size);
  }

  /** After i source bytes, h is out and the rest of the units is still to come. */
  ghost predicate Decoding(dst: seq<byte>, textBuf: seq<byte>, src: seq<byte>, junk: seq<byte>, all: seq<byte>,
                           size: nat, h: seq<byte>, r: int, i: nat, flags: int, n: nat, f: int) {
    && i <= |src| && Waiting(flags, n, f)
    && RingHolds(textBuf, junk, h, r) && Emitted(dst, size, h)
    && OnTheWay(all, junk, h, Parse(src[i..], n, f), |dst| - size)
  }

  /** A unit whose bytes are cut off is no unit. */
  lemma NothingLeft(src: seq<byte>, i: nat, n: nat, f: int)
    requires i <= |src| && n > 0
    ensures i == |src| || (i + 1 == |src| && f % 2 != 1) ==> Parse(src[i..], n, f) == []
  {}

  /** One round of the loop: a unit, or the end of source or destination. */
  method OneUnit(dst: array<byte>, size0: nat, textBuf: array<byte>, r0: int, src: seq<byte>, i0: nat, flags0: int,
                 ghost junk: seq<byte>, ghost all: seq<byte>, ghost h0: seq<byte>, ghost n0: nat, ghost f0: int)
    returns (more: bool, size: nat, r: int, i: nat, flags: int, ghost h: seq<byte>, ghost n: nat, ghost f: int,
             ghost rest: seq<Unit>)
    requires dst != textBuf && Decoding(dst[..], textBuf[..], src, junk, all, size0, h0, r0, i0, flags0, n0, f0)
    modifies dst, textBuf
    ensures more ==> i0 < i && Decoding(dst[..], textBuf[..], src, junk, all, size, h, r, i, flags, n, f)
    ensures !more ==> Emitted(dst[..], size, h) && OnTheWay(all, junk, h, rest, dst.Length - size)
    ensures !more ==> rest == [] || size == dst.Length
  {
    size, r, h, rest := size0, r0, h0, [];
    more, i, flags, n, f := NextFlag(src, i0, flags0, n0, f0);
    if more {
      more, size, r, i, h, rest := TakeUnit(dst, size, textBuf, r, src, i, flags % 2 == 1, junk, all, h, n, f);
      n, f := n - 1, f / 2;
    }
  }

  /** The unit behind a flag bit. */
  method TakeUnit(dst: array<byte>, size0: nat, textBuf: array<byte>, r0: int, src: seq<byte>, i0: nat, literal: bool,
                  ghost junk: seq<byte>, ghost all: seq<byte>, ghost h0: seq<byte>, ghost n: nat, ghost f: int)
    returns (more: bool, size: nat, r: int, i: nat, ghost h: seq<byte>, ghost rest: seq<Unit>)
    requires dst != textBuf && RingHolds(textBuf[..], junk, h0, r0) && Emitted(dst[..], size0, h0)
    requires i0 <= |src| && n > 0 && (literal <==> f % 2 == 1)
    requires OnTheWay(all, junk, h0, Parse(src[i0..], n, f), dst.Length - size0)
    modifies dst, textBuf
    ensures Emitted(dst[..], size, h) && (more ==> RingHolds(textBuf[..], junk, h, r))
    ensures more ==> i0 < i <= |src| && OnTheWay(all, junk, h, Parse(src[i..], n - 1, f / 2), dst.Length - size)
    ensures !more ==> OnTheWay(all, junk, h, rest, dst.Length - size) && (rest == [] || size == dst.Length)
  {
    more, size, r, i, h := true, size0, r0, i0, h0;
    rest := Parse(src[i..], n, f);
    if literal {
      if i >= |src| || size >= dst.Length {
        NothingLeft(src, i, n, f);
        more := false;
        return;
      }
      size, r, h := OneLiteral(dst, size, textBuf, r, src, i, junk, all, h, n, f);
      i := i + 1;
    } else {
      if i + 1 >= |src| {
        NothingLeft(src, i, n, f);
        more := false;
        return;
      }
      size, r, h := OneReference(dst, size, textBuf, r, src, i, junk, all, h, n, f);
      i := i + 2;
    }
  }

  method DecodeLoop(dst: array<byte>, src: seq<byte>, textBuf: array<byte>, ghost junk: seq<byte>, ghost all: seq<byte>)
    returns (size: nat, ghost h: seq<byte>, ghost rest: seq<Unit>)
    requires dst != textBuf && RingHolds(textBuf[..], junk, Spaces(), N - F)
    requires OnTheWay(all, junk, Spaces(), Parse(src, 0, 0), dst.Length)
    modifies dst, textBuf
    ensures Emitted(dst[..], size, h) && OnTheWay(all, junk, h, rest, dst.Length - size)
    ensures rest == [] || size == dst.Length
  {
    var r: int, flags: int, i: nat := N - F, 0, 0;
    size := 0;
    ghost var n: nat, f: int := 0, 0;
    h, rest := Spaces(), [];
    assert src[0..] == src;
    var more := true;
    while more
      invariant more ==> Decoding(dst[..], textBuf[..], src, junk, all, size, h, r, i, flags, n, f)
      invariant !more ==> Emitted(dst[..], size, h) && OnTheWay(all, junk, h, rest, dst.Length - size)
      invariant !more ==> rest == [] || size == dst.Length
      decreases if more then |src| - i else -1
    {
      more, size, r, i, flags, h, n, f, rest := OneUnit(dst, size, textBuf, r, src, i, flags, junk, all, h, n, f);
    }
  }
}
