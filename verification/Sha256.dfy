/**
  SHA-256. The block computation follows section 6.2.2 of FIPS 180-4; the padding and the iteration over
  blocks are those of module BlockHash.
 */
module Sha256 {
  import opened BitBytes
  import opened BlockHash

  type Word = bv32

  // ---------- specification ----------

  /** The 64 constants, eight to a row. */
  const K: seq<seq<Word>> := [
    [0x428a2f98, 0x71374491, 0xb5c0fbcf, 0xe9b5dba5, 0x3956c25b, 0x59f111f1, 0x923f82a4, 0xab1c5ed5],
    [0xd807aa98, 0x12835b01, 0x243185be, 0x550c7dc3, 0x72be5d74, 0x80deb1fe, 0x9bdc06a7, 0xc19bf174],
    [0xe49b69c1, 0xefbe4786, 0x0fc19dc6, 0x240ca1cc, 0x2de92c6f, 0x4a7484aa, 0x5cb0a9dc, 0x76f988da],
    [0x983e5152, 0xa831c66d, 0xb00327c8, 0xbf597fc7, 0xc6e00bf3, 0xd5a79147, 0x06ca6351, 0x14292967],
    [0x27b70a85, 0x2e1b2138, 0x4d2c6dfc, 0x53380d13, 0x650a7354, 0x766a0abb, 0x81c2c92e, 0x92722c85],
    [0xa2bfe8a1, 0xa81a664b, 0xc24b8b70, 0xc76c51a3, 0xd192e819, 0xd6990624, 0xf40e3585, 0x106aa070],
    [0x19a4c116, 0x1e376c08, 0x2748774c, 0x34b0bcb5, 0x391c0cb3, 0x4ed8aa4a, 0x5b9cca4f, 0x682e6ff3],
    [0x748f82ee, 0x78a5636f, 0x84c87814, 0x8cc70208, 0x90befffa, 0xa4506ceb, 0xbef9a3f7, 0xc67178f2]]

  function Constant(t: nat): Word
    requires t < 64
  {
    assert |K| == 8 && |K[t / 8]| == 8;
    K[t / 8][t % 8]
  }

  function Ch(x: Word, y: Word, z: Word): Word {
    (x & y) ^ (!x & z)
  }

  function Maj(x: Word, y: Word, z: Word): Word {
    (x & y) ^ (x & z) ^ (y & z)
  }

  function Rotr(x: Word, n: Word): Word
    requires n <= 32
  {
    (x >> n) | (x << (32 - n))
  }

  function Ep0(x: Word): Word {
    Rotr(x, 2) ^ Rotr(x, 13) ^ Rotr(x, 22)
  }

  function Ep1(x: Word): Word {
    Rotr(x, 6) ^ Rotr(x, 11) ^ Rotr(x, 25)
  }

  function Sig0(x: Word): Word {
    Rotr(x, 7) ^ Rotr(x, 18) ^ (x >> 3)
  }

  function Sig1(x: Word): Word {
    Rotr(x, 17) ^ Rotr(x, 19) ^ (x >> 10)
  }

  /** Word t of a block, most significant byte first. */
  function BlockWord(b: Block, t: nat): Word
    requires t < 16
  {
    ((b[4 * t] as Word) << 24) | ((b[4 * t + 1] as Word) << 16) | ((b[4 * t + 2] as Word) << 8) | (b[4 * t + 3] as Word)
  }

  function Expanded(w2: Word, w7: Word, w15: Word, w16: Word): Word {
    Sig1(w2) + w7 + Sig0(w15) + w16
  }

  /** The message schedule. */
  function Schedule(b: Block, t: nat): Word
    requires t < 64
  {
    if t < 16 then BlockWord(b, t)
    else Expanded(Schedule(b, t - 2), Schedule(b, t - 7), Schedule(b, t - 15), Schedule(b, t - 16))
  }

  datatype Vars = Vars(a: Word, b: Word, c: Word, d: Word, e: Word, f: Word, g: Word, h: Word)

  function Sum(x: Word, y: Word): Word {
    x + y
  }

  function T1(e: Word, f: Word, g: Word, h: Word, k: Word, w: Word): Word {
    h + Ep1(e) + Ch(e, f, g) + k + w
  }

  function T2(a: Word, b: Word, c: Word): Word {
    Ep0(a) + Maj(a, b, c)
  }

  function Round(v: Vars, k: Word, w: Word): Vars {
    var t1, t2 := T1(v.e, v.f, v.g, v.h, k, w), T2(v.a, v.b, v.c);
    Vars(Sum(t1, t2), v.a, v.b, v.c, Sum(v.d, t1), v.e, v.f, v.g)
  }

  function Rounds(v: Vars, b: Block, t: nat): Vars
    requires t <= 64
  {
    if t == 0 then v else Round(Rounds(v, b, t - 1), Constant(t - 1), Schedule(b, t - 1))
  }

  function Added(v: Vars, w: Vars): Vars {
    Vars(Sum(v.a, w.a), Sum(v.b, w.b), Sum(v.c, w.c), Sum(v.d, w.d), Sum(v.e, w.e), Sum(v.f, w.f), Sum(v.g, w.g),
         Sum(v.h, w.h))
  }

  /** One block: 64 rounds, as many as the block has bytes. */
  function Compress(v: Vars, b: Block): Vars {
    Added(v, Rounds(v, b, |b|))
  }

  const H0: Vars := Vars(0x6a09e667, 0xbb67ae85, 0x3c6ef372, 0xa54ff53a, 0x510e527f, 0x9b05688c, 0x1f83d9ab, 0x5be0cd19)

  function WordBytes(w: Word): (b: seq<Byte>)
    ensures |b| == 4
  {
    [((w >> 24) & 0xff) as Byte, ((w >> 16) & 0xff) as Byte, ((w >> 8) & 0xff) as Byte, (w & 0xff) as Byte]
  }

  function Output(v: Vars): (h: seq<Byte>)
    ensures |h| == 32
  {
    WordBytes(v.a) + WordBytes(v.b) + WordBytes(v.c) + WordBytes(v.d) + WordBytes(v.e) + WordBytes(v.f)
      + WordBytes(v.g) + WordBytes(v.h)
  }

  /** The block function of the hash. */
  function BlockFunction(): (Vars, seq<Byte>) -> Vars {
    (v, b) => if |b| == 64 then Compress(v, b) else v
  }

  /** SHA-256 of a message. */
  function Digest(m: seq<Byte>): (h: seq<Byte>)
    ensures |h| == 32
  {
    Output(Chain(BlockFunction(), H0, Padded(m)))
  }

  // ---------- the block computation ----------

  method LoadBlock(m: array<Word>, data: Block)
    requires m.Length == 64
    modifies m
    ensures forall t {:trigger m[t]} :: 0 <= t < 16 ==> m[t] == Schedule(data, t)
  {
    var i := 0;
    while i < 16
      invariant 0 <= i <= 16 && forall t {:trigger m[t]} :: 0 <= t < i ==> m[t] == Schedule(data, t)
    {
      m[i] := BlockWord(data, i);
      i := i + 1;
    }
  }

  method MakeSchedule(data: Block) returns (m: array<Word>)
    ensures fresh(m) && m.Length == 64 && forall t {:trigger m[t]} :: 0 <= t < 64 ==> m[t] == Schedule(data, t)
  {
    m := new Word[64];
    LoadBlock(m, data);
    var i := 16;
    while i < 64
      invariant 16 <= i <= 64 && forall t {:trigger m[t]} :: 0 <= t < i ==> m[t] == Schedule(data, t)
    {
      m[i] := Expanded(m[i - 2], m[i - 7], m[i - 15], m[i - 16]);
      i := i + 1;
    }
  }

  /** The working variables move one place, as the source assigns them. */
  method OneRound(v: Vars, k: Word, w: Word) returns (v': Vars)
    ensures v' == Round(v, k, w)
  {
    var a, b, c, d, e, f, g, h := v.a, v.b, v.c, v.d, v.e, v.f, v.g, v.h;
    var t1, t2 := T1(e, f, g, h, k, w), T2(a, b, c);
    h := g;
    g := f;
    f := e;
    e := Sum(d, t1);
    d := c;
    c := b;
    b := a;
    a := Sum(t1, t2);
    v' := Vars(a, b, c, d, e, f, g, h);
  }

  /** sha256_transform */
  method Transform(state: Vars, data: Block) returns (state': Vars)
    ensures state' == Compress(state, data)
  {
    var schedule := MakeSchedule(data);
    var m, v, i := schedule[..], state, 0;
    while i < 64
      invariant 0 <= i <= 64 && v == Rounds(state, data, i)
    {
      v := OneRound(v, Constant(i), m[i]);
      i := i + 1;
    }
    state' := Added(state, v);
  }

  /** The whole message fed in pieces of any size, each under 2^32 bytes. */
  method Hash(pieces: seq<seq<Byte>>) returns (hash: seq<Byte>)
    requires forall i :: 0 <= i < |pieces| ==> |pieces[i]| < 0x1_0000_0000
    requires |Joined(pieces)| < 0x2000_0000_0000_0000
    ensures hash == Digest(Joined(pieces))
  {
    var ctx := new Context<Vars>(BlockFunction(), H0);
    var i := 0;
    while i < |pieces|
      invariant 0 <= i <= |pieces| && ctx.Valid() && fresh(ctx) && fresh(ctx.data)
      invariant ctx.f == BlockFunction() && ctx.init == H0 && ctx.Message() == Joined(pieces[..i])
    {
      JoinedMore(pieces, i);
      ctx.Update(pieces[i]);
      i := i + 1;
    }
    assert pieces[..i] == pieces;
    ctx.Final();
    hash := Output(ctx.state);
  }

  function Joined(pieces: seq<seq<Byte>>): seq<Byte> {
    if pieces == [] then [] else Joined(pieces[..|pieces| - 1]) + pieces[|pieces| - 1]
  }

  lemma {:induction false} JoinedMore(pieces: seq<seq<Byte>>, i: nat)
    requires i < |pieces|
    ensures Joined(pieces[..i + 1]) == Joined(pieces[..i]) + pieces[i] && |Joined(pieces[..i + 1])| <= |Joined(pieces)|
    decreases |pieces| - i
  {
    assert pieces[..i + 1][..i] == pieces[..i];
    if i + 1 < |pieces| {
      JoinedMore(pieces, i + 1);
    } else {
      assert pieces[..i + 1] == pieces;
    }
  }
}
