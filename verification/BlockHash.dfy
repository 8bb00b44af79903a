/**
  Hashing a message block by block while it arrives in pieces, with the padding of section 5.1.1 of
  FIPS 180-4. The block function is a parameter.
 */
module BlockHash {
  import opened BitBytes
  import opened Bytes
  import opened Repetition

  type Block = b: seq<Byte> | |b| == 64 witness seq(64, _ => 0)

  /** The hash value after all blocks of a message whose length is a multiple of the block size. */
  function Chain<V>(f: (V, seq<Byte>) -> V, v: V, m: seq<Byte>): V
    requires |m| % 64 == 0
    decreases |m|
  {
    if m == [] then v else f(Chain(f, v, m[..|m| - 64]), m[|m| - 64..])
  }

  lemma OneMoreBlock<V>(f: (V, seq<Byte>) -> V, v: V, m: seq<Byte>, b: Block)
    requires |m| % 64 == 0
    ensures Chain(f, v, m + b) == f(Chain(f, v, m), b)
  {
    assert (m + b)[..|m|] == m && (m + b)[|m|..] == b;
  }

  /** A 64-bit length, most significant byte first. */
  function LengthBytes(n: nat): (w: seq<Byte>)
    ensures |w| == 8
  {
    var b := BE64(n % 0x1_0000_0000_0000_0000);
    seq(8, i requires 0 <= i < 8 => b[i] as Byte)
  }

  /** The smallest number of zero bytes that lets the padded message end on a block. */
  function ZeroCount(n: nat): (k: nat)
    ensures k < 64 && (n + 1 + k + 8) % 64 == 0
  {
    (119 - n % 64) % 64
  }

  /** The message, a one bit, zeros, and the length in bits. */
  function Padded(m: seq<Byte>): (p: seq<Byte>)
    ensures |p| % 64 == 0
  {
    m + [0x80] + Repeated(0, ZeroCount(|m|)) + LengthBytes(8 * |m|)
  }

  // ---------- the context ----------

  class Context<V> {
    const f: (V, seq<Byte>) -> V
    ghost const init: V
    const data: array<Byte>
    var datalen: nat
    var bitlen: nat
    var state: V
    /** the bytes hashed so far, a whole number of blocks */
    ghost var hashed: seq<Byte>

    ghost predicate Valid()
      reads this, data
    {
      && data.Length == 64 && datalen < 64 && |hashed| % 64 == 0 && |hashed| + datalen < 0x2000_0000_0000_0000
      && bitlen == 8 * |hashed| && state == Chain(f, init, hashed)
    }

    /** All bytes fed so far. */
    ghost function Message(): seq<Byte>
      requires Valid()
      reads this, data
    {
      hashed + data[..datalen]
    }

    constructor (f: (V, seq<Byte>) -> V, init: V)
      ensures Valid() && Message() == [] && fresh(data) && this.f == f && this.init == init
    {
      this.f, this.init := f, init;
      data := new Byte[64];
      datalen, bitlen, state := 0, 0, init;
      hashed := [];
    }

    /** Appends one byte; a full buffer is hashed. */
    method Feed(x: Byte)
      requires Valid() && |Message()| + 1 < 0x2000_0000_0000_0000
      modifies this, data
      ensures Valid() && Message() == old(Message()) + [x]
    {
      ghost var m := Message();
      data[datalen] := x;
      datalen := datalen + 1;
      assert hashed + data[..datalen] == m + [x];
      if datalen == 64 {
        Flush();
      }
    }

    /** The full buffer is hashed. */
    method Flush()
      requires data.Length == 64 && datalen == 64 && |hashed| % 64 == 0 && |hashed| + 64 < 0x2000_0000_0000_0000
      requires bitlen == 8 * |hashed| && state == Chain(f, init, hashed)
      modifies this
      ensures Valid() && datalen == 0 && hashed == old(hashed) + data[..]
    {
      ghost var b := data[..];
      OneMoreBlock(f, init, hashed, b);
      state := f(state, data[..]);
      bitlen := (bitlen + 512) % 0x1_0000_0000_0000_0000;
      datalen := 0;
      hashed := hashed + b;
      assert |hashed| == |old(hashed)| + 64;
    }

    /** sha256_update; the source counts in 32 bits, so a piece has fewer than 2^32 bytes. */
    method Update(piece: seq<Byte>)
      requires Valid() && |piece| < 0x1_0000_0000 && |Message()| + |piece| < 0x2000_0000_0000_0000
      modifies this, data
      ensures Valid() && Message() == old(Message()) + piece
    {
      ghost var m := Message();
      var i := 0;
      while i < |piece|
        invariant 0 <= i <= |piece| && Valid() && Message() == m + piece[..i]
      {
        assert m + piece[..i] + [piece[i]] == m + piece[..i + 1];
        Feed(piece[i]);
        i := i + 1;
      }
      assert piece[..|piece|] == piece;
    }

    method Fill(from: nat, to: nat)
      requires from <= to <= data.Length
      modifies data
      ensures data[..] == old(data[..from]) + Repeated(0, to - from) + old(data[to..])
    {
      var i := from;
      while i < to
        invariant from <= i <= to && data[..from] == old(data[..from]) && data[to..] == old(data[to..])
        invariant forall k {:trigger data[k]} :: from <= k < i ==> data[k] == 0
      {
        data[i] := 0;
        i := i + 1;
      }
    }

    method Put(at: nat, w: seq<Byte>)
      requires at + |w| <= data.Length
      modifies data
      ensures data[..] == old(data[..at]) + w + old(data[at + |w|..])
    {
      forall i | 0 <= i < |w| {
        data[at + i] := w[i];
      }
    }

    /** The end mark and zeros up to to. */
    method Mark(to: nat)
      requires data.Length == 64 && datalen < to <= 64
      modifies data
      ensures data[..to] == old(data[..datalen]) + [0x80] + Repeated(0, to - 1 - datalen)
    {
      data[datalen] := 0x80;
      Fill(datalen + 1, to);
    }

    /** A buffer too full for the length: its block is hashed and the buffer cleared. */
    method MarkAndFlush()
      requires data.Length == 64 && 56 <= datalen < 64 && |hashed| % 64 == 0 && state == Chain(f, init, hashed)
      modifies this`state, data
      ensures data[..56] == Repeated(0, 56)
      ensures state == Chain(f, init, hashed + MarkedBlock(old(data[..datalen])))
    {
      ghost var b := MarkedBlock(data[..datalen]);
      Mark(64);
      assert data[..] == data[..64] == b;
      OneMoreBlock(f, init, hashed, b);
      state := f(state, data[..]);
      Fill(0, 56);
    }

    /** sha256_final, up to the output: the chain over everything fed since init, padded. */
    method Final()
      requires Valid()
      modifies this, data
      ensures state == Chain(f, init, Padded(old(Message())))
    {
      if datalen < 56 {
        FinishShort(data[..datalen]);
      } else {
        FinishLong(data[..datalen]);
      }
    }

    method CountTail()
      requires bitlen == 8 * |hashed| && |hashed| + datalen < 0x2000_0000_0000_0000
      modifies this`bitlen
      ensures bitlen == 8 * (|hashed| + datalen)
    {
      bitlen := (bitlen + datalen * 8) % 0x1_0000_0000_0000_0000;
    }

    /** Mark and length share the last block. */
    method FinishShort(ghost tail: seq<Byte>)
      requires Valid() && datalen < 56 && tail == data[..datalen]
      modifies this, data
      ensures state == Chain(f, init, Padded(hashed + tail)) && hashed == old(hashed)
    {
      Mark(56);
      PaddedShort(hashed, tail);
      CountTail();
      LastBlock(hashed, data[..56], |hashed + tail|);
    }

    /** The length needs a block of its own. */
    method FinishLong(ghost tail: seq<Byte>)
      requires Valid() && 56 <= datalen && tail == data[..datalen]
      modifies this, data
      ensures state == Chain(f, init, Padded(hashed + tail)) && hashed == old(hashed)
    {
      MarkAndFlush();
      PaddedLong(hashed, tail);
      CountTail();
      LastBlock(hashed + MarkedBlock(tail), data[..56], |hashed + tail|);
    }

    /** The length goes behind the 56 bytes x, and the block is hashed. */
    method LastBlock(ghost blocks: seq<Byte>, ghost x: seq<Byte>, ghost n: nat)
      requires data.Length == 64 && data[..56] == x && bitlen == 8 * n
      requires |blocks| % 64 == 0 && state == Chain(f, init, blocks)
      modifies this`state, data
      ensures |x| == 56 && state == Chain(f, init, blocks + (x + LengthBytes(8 * n)))
    {
      Put(56, LengthBytes(bitlen));
      assert data[..] == x + LengthBytes(8 * n);
      OneMoreBlock(f, init, blocks, data[..]);
      state := f(state, data[..]);
    }
  }

  /** The left-over bytes with the end mark, filled up to a block. */
  function MarkedBlock(tail: seq<Byte>): (b: Block)
    requires |tail| < 64
  {
    tail + [0x80] + Repeated(0, 63 - |tail|)
  }

  /** The mark and the length fit behind the left-over bytes: one last block. */
  lemma PaddedShort(blocks: seq<Byte>, tail: seq<Byte>)
    requires |blocks| % 64 == 0 && |tail| < 56
    ensures blocks + (tail + [0x80] + Repeated(0, 55 - |tail|) + LengthBytes(8 * |blocks + tail|))
            == Padded(blocks + tail)
  {
    assert ZeroCount(|blocks + tail|) == 55 - |tail|;
  }

  /** They do not fit: a block with the mark, and one with the length. */
  lemma PaddedLong(blocks: seq<Byte>, tail: seq<Byte>)
    requires |blocks| % 64 == 0 && 56 <= |tail| < 64
    ensures |blocks + MarkedBlock(tail)| % 64 == 0
    ensures blocks + MarkedBlock(tail) + (Repeated(0, 56) + LengthBytes(8 * |blocks + tail|)) == Padded(blocks + tail)
  {
    assert ZeroCount(|blocks + tail|) == 119 - |tail|;
    assert Repeated(0, 63 - |tail|) + Repeated(0, 56) == Repeated(0, 119 - |tail|);
  }
}
