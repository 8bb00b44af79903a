/** Bytes, and words in memory. */
module Bytes {
  type byte = x: int | 0 <= x < 256

  /** A 32-bit word in memory, low byte first. */
  function LE32(n: nat): (w: seq<byte>)
    requires n < 0x1_0000_0000
    ensures |w| == 4
  {
    [n % 256, n / 256 % 256, n / 0x1_0000 % 256, n / 0x100_0000]
  }

  function FromLE32(w: seq<byte>): nat
    requires |w| == 4
  {
    w[0] as nat + 256 * w[1] as nat + 0x1_0000 * w[2] as nat + 0x100_0000 * w[3] as nat
  }

  lemma WordRoundTrip(n: nat)
    requires n < 0x1_0000_0000
    ensures FromLE32(LE32(n)) == n
  {}

  /** A 64-bit word in memory, low byte first. */
  function LE64(n: nat): (w: seq<byte>)
    requires n < 0x1_0000_0000_0000_0000
    ensures |w| == 8
  {
    LE32(n % 0x1_0000_0000) + LE32(n / 0x1_0000_0000)
  }

  function FromLE64(w: seq<byte>): nat
    requires |w| == 8
  {
    FromLE32(w[..4]) + 0x1_0000_0000 * FromLE32(w[4..])
  }

  lemma LongWordRoundTrip(n: nat)
    requires n < 0x1_0000_0000_0000_0000
    ensures FromLE64(LE64(n)) == n
  {
    WordRoundTrip(n % 0x1_0000_0000);
    WordRoundTrip(n / 0x1_0000_0000);
    assert LE64(n)[..4] == LE32(n % 0x1_0000_0000) && LE64(n)[4..] == LE32(n / 0x1_0000_0000);
  }

  /** The same with the high byte first. */
  function BE32(n: nat): (w: seq<byte>)
    requires n < 0x1_0000_0000
    ensures |w| == 4
  {
    [n / 0x100_0000, n / 0x1_0000 % 256, n / 256 % 256, n % 256]
  }

  function BE64(n: nat): (w: seq<byte>)
    requires n < 0x1_0000_0000_0000_0000
    ensures |w| == 8
  {
    BE32(n / 0x1_0000_0000) + BE32(n % 0x1_0000_0000)
  }

  /** The bytes of the two orders are each other's reverse. */
  lemma OrdersAreReversed(n: nat, i: nat)
    requires n < 0x1_0000_0000_0000_0000 && i < 8
    ensures BE64(n)[i] == LE64(n)[7 - i]
  {}
}

/** Bytes as bit vectors, where masks and shifts matter. */
module BitBytes {
  type Byte = bv8
}

module Repetition {
  function Repeated<T>(x: T, k: nat): seq<T> {
    seq(k, _ => x)
  }
}
