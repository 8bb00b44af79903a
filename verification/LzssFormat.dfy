/**
  The LZSS stream: units, their packing into groups of eight behind a flag byte, and what a list of
  units means. A reference names a ring position; the ring holds the last N bytes of the history,
  which starts as N - F spaces.
 */
module LzssFormat {
  import opened LzssTree
  import opened Bytes
  import opened LzssStrings

  const THRESHOLD: int := 2

  datatype Unit = Literal(b: byte) | Reference(pos: int, len: int)

  predicate ValidUnit(u: Unit) {
    u.Reference? ==> 0 <= u.pos < N && THRESHOLD < u.len <= F
  }

  ghost predicate ValidUnits(us: seq<Unit>) {
    forall i :: 0 <= i < |us| ==> ValidUnit(us[i])
  }

  // ---------- bytes ----------

  function Pow2(n: nat): (p: int)
    requires n <= 8
    ensures 1 <= p <= 256 && (n > 0 ==> p == 2 * Pow2(n - 1))
  {
    [1, 2, 4, 8, 16, 32, 64, 128, 256][n]
  }

  function Bit(u: Unit): int {
    if u.Literal? then 1 else 0
  }

  /** Bit i of a group's flag byte is 1 when its i-th unit is a literal. */
  function Flags(us: seq<Unit>): (f: byte)
    requires |us| <= 8
    ensures f < Pow2(|us|)
  {
    if us == [] then 0 else
      var rest: int := Flags(us[1..]);
      Bit(us[0]) + 2 * rest
  }

  /** One byte, or the low eight position bits and then the high four with the length less three. */
  function Body(u: Unit): seq<byte>
    requires ValidUnit(u)
  {
    if u.Literal? then [u.b] else [u.pos % 256, u.pos / 256 * 16 + (u.len - (THRESHOLD + 1))]
  }

  function Bodies(us: seq<Unit>): seq<byte>
    requires ValidUnits(us)
  {
    if us == [] then [] else Body(us[0]) + Bodies(us[1..])
  }

  function Group(us: seq<Unit>): (g: seq<byte>)
    requires ValidUnits(us) && |us| <= 8
  {
    [Flags(us)] + Bodies(us)
  }

  function Pack(us: seq<Unit>): seq<byte>
    requires ValidUnits(us)
  {
    if us == [] then []
    else if |us| <= 8 then Group(us)
    else Group(us[..8]) + Pack(us[8..])
  }

  /** What a stream says, byte by byte: n flag bits, the number f, are left of the current flag byte. */
  function Parse(src: seq<byte>, n: nat, f: int): (us: seq<Unit>)
    ensures ValidUnits(us)
    decreases |src|
  {
    if src == [] then []
    else if n == 0 then Parse(src[1..], 8, src[0])
    else if f % 2 == 1 then [Literal(src[0])] + Parse(src[1..], n - 1, f / 2)
    else if |src| < 2 then []
    else
      var i: int, j: int := src[0], src[1];
      [Reference(i + j / 16 * 256, j % 16 + THRESHOLD + 1)] + Parse(src[2..], n - 1, f / 2)
  }

  // ---------- meaning ----------

  /** The byte at ring position x once h has been produced; junk is what the ring held before that. */
  function RingAt(junk: seq<byte>, h: seq<byte>, x: int): byte
    requires |junk| == N && 0 <= x < N
  {
    var a := |h| - N + (x - |h|) % N;
    if a >= 0 then h[a] else junk[x]
  }

  /** Appends len bytes read from ring position x on, each byte being written before the next is read. */
  function CopyFrom(junk: seq<byte>, h: seq<byte>, x: int, len: nat): (h': seq<byte>)
    requires |junk| == N && 0 <= x < N
    ensures |h'| == |h| + len && h <= h'
    decreases len
  {
    if len == 0 then h else CopyFrom(junk, h + [RingAt(junk, h, x)], (x + 1) % N, len - 1)
  }

  function Apply(junk: seq<byte>, h: seq<byte>, u: Unit): (h': seq<byte>)
    requires |junk| == N && ValidUnit(u)
    ensures h <= h' && |h'| > |h|
  {
    match u
    case Literal(b) => h + [b]
    case Reference(pos, len) => CopyFrom(junk, h, pos, len)
  }

  function Expand(junk: seq<byte>, h: seq<byte>, us: seq<Unit>): (h': seq<byte>)
    requires |junk| == N && ValidUnits(us)
    ensures h <= h'
    decreases us
  {
    if us == [] then h else Expand(junk, Apply(junk, h, us[0]), us[1..])
  }

  /** The N - F spaces both sides start from. */
  function Spaces(): (s: seq<byte>)
    ensures |s| == N - F && forall i :: 0 <= i < |s| ==> s[i] == 32
  {
    seq(N - F, _ => 32)
  }

  /** What decompress_lzss returns for a stream and an output capacity. */
  function Decode(junk: seq<byte>, src: seq<byte>, dstlen: nat): (out: seq<byte>)
    requires |junk| == N
    ensures |out| <= dstlen
  {
    var all := Expand(junk, Spaces(), Parse(src, 0, 0))[N - F..];
    if |all| <= dstlen then all else all[..dstlen]
  }

  // ---------- packing and parsing are inverse ----------

  /** Reading one unit back gives the unit. */
  lemma ParseUnit(u: Unit, n: nat, f: int, rest: seq<byte>)
    requires ValidUnit(u) && 1 <= n && f % 2 == Bit(u)
    ensures Parse(Body(u) + rest, n, f) == [u] + Parse(rest, n - 1, f / 2)
  {
    var s := Body(u) + rest;
    if u.Literal? {
      assert s[0] == u.b && s[1..] == rest;
    } else {
      var i: int, j: int := s[0], s[1];
      assert i == u.pos % 256 && j == u.pos / 256 * 16 + (u.len - 3);
      assert j / 16 == u.pos / 256 && j % 16 == u.len - 3;
      assert i + j / 16 * 256 == u.pos;
      assert s[2..] == rest;
    }
  }

  lemma FlagsHead(us: seq<Unit>)
    requires us != [] && |us| <= 8
    ensures Flags(us) % 2 == Bit(us[0]) && Flags(us) / 2 == Flags(us[1..])
  {}

  lemma {:induction false} ParseBodies(us: seq<Unit>, n: nat, rest: seq<byte>)
    requires ValidUnits(us) && |us| <= n <= 8
    ensures Parse(Bodies(us) + rest, n, Flags(us)) == us + Parse(rest, n - |us|, 0)
  {
    if us == [] {
      assert Bodies(us) + rest == rest;
      assert us + Parse(rest, n, 0) == Parse(rest, n, 0);
    } else {
      var u, us' := us[0], us[1..];
      var s, s' := Bodies(us) + rest, Bodies(us') + rest;
      BodiesHead(us, rest);
      FlagsHead(us);
      ParseUnit(u, n, Flags(us), s');
      ParseBodies(us', n - 1, rest);
      Prepend(u, us, us', Parse(s, n, Flags(us)), Parse(s', n - 1, Flags(us')), Parse(rest, n - |us|, 0));
    }
  }

  lemma BodiesHead(us: seq<Unit>, rest: seq<byte>)
    requires us != [] && ValidUnits(us)
    ensures Bodies(us) + rest == Body(us[0]) + (Bodies(us[1..]) + rest)
  {}

  lemma Prepend(u: Unit, us: seq<Unit>, us': seq<Unit>, p: seq<Unit>, p': seq<Unit>, tail: seq<Unit>)
    requires us == [u] + us' && p == [u] + p' && p' == us' + tail
    ensures p == us + tail
  {}

  lemma {:induction false} ParsePack(us: seq<Unit>)
    requires ValidUnits(us)
    ensures Parse(Pack(us), 0, 0) == us
  {
    if us != [] {
      var g := if |us| <= 8 then us else us[..8];
      var rest := Pack(us[|g|..]);
      assert Pack(us) == [Flags(g)] + (Bodies(g) + rest);
      assert Pack(us)[1..] == Bodies(g) + rest;
      if |us| > 8 {
        ParsePack(us[8..]);
        ParseBodies(g, 8, rest);
      } else {
        ParseBodies(g, 8, []);
      }
    }
  }
}
