/** The code buffer of the encoder: up to eight units behind one flag byte, flushed to the output. */
module LzssCodeBuffer {
  import opened LzssTree
  import opened Bytes
  import opened LzssStrings
  import opened LzssFormat

  lemma {:induction false} BodiesAppend(us: seq<Unit>, u: Unit)
    requires ValidUnits(us) && ValidUnit(u)
    ensures ValidUnits(us + [u]) && Bodies(us + [u]) == Bodies(us) + Body(u)
  {
    if us == [] {
      assert Bodies([u]) == Body(u) + Bodies([]);
    } else {
      BodiesAppend(us[1..], u);
      assert (us + [u])[1..] == us[1..] + [u];
    }
  }

  lemma {:induction false} FlagsAppend(us: seq<Unit>, u: Unit)
    requires |us| < 8
    ensures Flags(us + [u]) == Flags(us) + Bit(u) * Pow2(|us|)
  {
    if us != [] {
      FlagsAppend(us[1..], u);
      assert (us + [u])[1..] == us[1..] + [u];
    }
  }

  lemma {:induction false} PackAppend(done: seq<Unit>, g: seq<Unit>)
    requires ValidUnits(done) && ValidUnits(g) && |done| % 8 == 0 && 0 < |g| <= 8
    ensures ValidUnits(done + g) && Pack(done + g) == Pack(done) + Group(g)
    decreases |done|
  {
    if done != [] {
      var us := done + g;
      assert us[..8] == done[..8] && us[8..] == done[8..] + g;
      PackAppend(done[8..], g);
      assert Pack(done) == Group(done[..8]) + Pack(done[8..]);
    } else {
      assert done + g == g;
    }
  }

  lemma {:induction false} BodiesLength(us: seq<Unit>)
    requires ValidUnits(us)
    ensures |us| <= |Bodies(us)| <= 2 * |us|
  {
    if us != [] {
      BodiesLength(us[1..]);
    }
  }

  lemma BodiesSplit(us: seq<Unit>, k: nat)
    requires ValidUnits(us) && k <= |us|
    ensures |Bodies(us)| == |Bodies(us[..k])| + |Bodies(us[k..])|
    decreases k
  {
    if k == 0 {
      assert us[0..] == us;
    } else {
      BodiesSplit(us[1..], k - 1);
      assert us[1..][..k - 1] == us[..k][1..] && us[1..][k - 1..] == us[k..];
    }
  }

  /** One byte per flag group, and the bodies. */
  lemma {:induction false} PackLength(us: seq<Unit>)
    requires ValidUnits(us)
    ensures |Pack(us)| == |Bodies(us)| + (|us| + 7) / 8
  {
    if |us| > 8 {
      PackLength(us[8..]);
      BodiesSplit(us, 8);
    }
  }

  lemma {:induction false} ExpandAppend(junk: seq<byte>, h: seq<byte>, us: seq<Unit>, u: Unit)
    requires |junk| == N && ValidUnits(us) && ValidUnit(u)
    ensures ValidUnits(us + [u]) && Expand(junk, h, us + [u]) == Apply(junk, Expand(junk, h, us), u)
    decreases us
  {
    if us == [] {
      assert [u][1..] == [] && us + [u] == [u];
    } else {
      ExpandAppend(junk, Apply(junk, h, us[0]), us[1..], u);
      assert (us + [u])[1..] == us[1..] + [u];
    }
  }

  /** A unit stands for at least as many bytes as its body takes. */
  lemma {:induction false} ExpandLength(junk: seq<byte>, h: seq<byte>, us: seq<Unit>)
    requires |junk| == N && ValidUnits(us)
    ensures |Expand(junk, h, us)| >= |h| + |Bodies(us)|
    decreases us
  {
    if us != [] {
      ExpandLength(junk, Apply(junk, h, us[0]), us[1..]);
    }
  }

  /** The largest output for n source bytes. */
  function Bound(n: int): int {
    n + (n + 7) / 8
  }

  lemma PackIsBounded(junk: seq<byte>, us: seq<Unit>, n: int)
    requires |junk| == N && ValidUnits(us) && |Expand(junk, Spaces(), us)| == N - F + n
    ensures |Pack(us)| <= Bound(n)
  {
    ExpandLength(junk, Spaces(), us);
    BodiesLength(us);
    PackLength(us);
  }

  /** done has been written out, g waits in the code buffer. */
  ghost predicate Buffered(dst: seq<byte>, d: nat, codeBuf: seq<byte>, ptr: int, mask: int, done: seq<Unit>,
                           g: seq<Unit>) {
    && ValidUnits(done) && ValidUnits(g) && |done| % 8 == 0 && |g| <= 8
    && d <= |dst| && dst[..d] == Pack(done)
    && |codeBuf| == 17 && ptr == 1 + |Bodies(g)| && ptr <= 1 + 2 * |g|
    && codeBuf[0] == Flags(g) && codeBuf[1..ptr] == Bodies(g)
    && mask == Pow2(|g|) % 256
  }

  lemma BufferedUnit(dst: seq<byte>, d: nat, codeBuf: seq<byte>, ptr: int, mask: int, done: seq<Unit>, g: seq<Unit>,
                     u: Unit, codeBuf': seq<byte>)
    requires Buffered(dst, d, codeBuf, ptr, mask, done, g) && |g| < 8 && ValidUnit(u)
    requires |codeBuf'| == 17 && codeBuf'[0] == codeBuf[0] + Bit(u) * mask
    requires codeBuf'[1..ptr] == codeBuf[1..ptr] && codeBuf'[ptr..ptr + |Body(u)|] == Body(u)
    ensures Buffered(dst, d, codeBuf', ptr + |Body(u)|, mask * 2 % 256, done, g + [u])
  {
    BodiesAppend(g, u);
    FlagsAppend(g, u);
    Adjacent(codeBuf', 1, ptr, ptr + |Body(u)|);
    MaskStep(|g|);
  }

  lemma MaskStep(k: nat)
    requires k < 8
    ensures Pow2(k) % 256 == Pow2(k) && Pow2(k) % 256 * 2 % 256 == Pow2(k + 1) % 256
  {
    assert Pow2(k + 1) == 2 * Pow2(k);
  }

  lemma Adjacent(s: seq<byte>, i: int, j: int, k: int)
    requires 0 <= i <= j <= k <= |s|
    ensures s[i..k] == s[i..j] + s[j..k]
  {}

  lemma FlagBitFits(n: nat, f: int)
    requires n < 8 && 0 <= f < Pow2(n)
    ensures f + Pow2(n) < 256 && Pow2(n) % 256 == Pow2(n)
  {
    assert Pow2(n + 1) == 2 * Pow2(n);
  }

  /** Appends a literal to the group; the flag bit is still clear, so or-ing it in is adding it. */
  method PutLiteral(codeBuf: array<byte>, ptr: int, mask: int, c: byte, ghost dst: seq<byte>, ghost d: nat,
                    ghost done: seq<Unit>, ghost g: seq<Unit>)
    returns (ptr': int, mask': int)
    requires Buffered(dst, d, codeBuf[..], ptr, mask, done, g) && |g| < 8
    modifies codeBuf
    ensures Buffered(dst, d, codeBuf[..], ptr', mask', done, g + [Literal(c)])
  {
    ghost var before, u := codeBuf[..], Literal(c);
    var flags: int := codeBuf[0];
    FlagBitFits(|g|, Flags(g));
    codeBuf[0] := flags + mask;
    codeBuf[ptr] := c;
    ptr', mask' := ptr + 1, mask * 2 % 256;
    assert codeBuf[..][1..ptr] == before[1..ptr];
    assert codeBuf[..][ptr..ptr + 1] == [c];
    BufferedUnit(dst, d, before, ptr, mask, done, g, u, codeBuf[..]);
  }

  method PutReference(codeBuf: array<byte>, ptr: int, mask: int, pos: int, len: int, ghost dst: seq<byte>,
                      ghost d: nat, ghost done: seq<Unit>, ghost g: seq<Unit>)
    returns (ptr': int, mask': int)
    requires Buffered(dst, d, codeBuf[..], ptr, mask, done, g) && |g| < 8
    requires 0 <= pos < N && THRESHOLD < len <= F
    modifies codeBuf
    ensures Buffered(dst, d, codeBuf[..], ptr', mask', done, g + [Reference(pos, len)])
  {
    ghost var before, u := codeBuf[..], Reference(pos, len);
    codeBuf[ptr] := pos % 256;
    codeBuf[ptr + 1] := pos / 256 * 16 + (len - (THRESHOLD + 1));
    ptr', mask' := ptr + 2, mask * 2 % 256;
    assert codeBuf[..][1..ptr] == before[1..ptr];
    assert codeBuf[..][ptr..ptr + 2] == Body(u);
    BufferedUnit(dst, d, before, ptr, mask, done, g, u, codeBuf[..]);
  }

  /** Copies the code buffer to the output, or gives up when the output is full. */
  method CopyOut(dst: array<byte>, d0: nat, codeBuf: array<byte>, ptr: int) returns (ok: bool, d: nat)
    requires dst != codeBuf && 0 <= ptr <= codeBuf.Length && d0 <= dst.Length
    modifies dst
    ensures ok ==> d == d0 + ptr <= dst.Length && dst[..d] == old(dst[..d0]) + codeBuf[..ptr]
    ensures !ok ==> d0 + ptr > dst.Length
  {
    ghost var head := dst[..d0];
    d := d0;
    var i := 0;
    while i < ptr
      invariant 0 <= i <= ptr && d == d0 + i <= dst.Length
      invariant dst[..d] == head + codeBuf[..i]
    {
      if d >= dst.Length {
        return false, d;
      }
      dst[d] := codeBuf[i];
      assert codeBuf[..i + 1] == codeBuf[..i] + [codeBuf[i]];
      d, i := d + 1, i + 1;
    }
    ok := true;
  }

  method Flush(dst: array<byte>, d0: nat, codeBuf: array<byte>, ptr: int, mask: int, ghost done: seq<Unit>,
               ghost g: seq<Unit>)
    returns (ok: bool, d: nat)
    requires dst != codeBuf && Buffered(dst[..], d0, codeBuf[..], ptr, mask, done, g) && g != []
    modifies dst
    ensures ok ==> ValidUnits(done + g) && d <= dst.Length && dst[..d] == Pack(done + g)
    ensures !ok ==> ValidUnits(done + g) && |Pack(done + g)| > dst.Length
  {
    PackAppend(done, g);
    ghost var group := codeBuf[..ptr];
    assert group == [codeBuf[..][0]] + codeBuf[..][1..ptr];
    ok, d := CopyOut(dst, d0, codeBuf, ptr);
  }
}
