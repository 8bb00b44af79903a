/** Compressing and decompressing with the right output length is the identity on every source. */
module LzssRoundTrip {
  import opened Optional
  import opened Bytes
  import opened LzssCodeBuffer
  import opened LzssEncoder
  import LzssDecoder

  method CompressThenDecompress(src: seq<byte>, capacity: nat, memory: bool) returns (out: Option<seq<byte>>)
    ensures out.Some? ==> out.value == src
    ensures memory && src != [] && capacity >= Bound(|src|) ==> out.Some?
  {
    var packed := new byte[capacity];
    var end, _ := CompressLzss(packed, src, memory);
    if end.None? {
      return None;
    }
    var dst := new byte[|src|];
    var size, _ := LzssDecoder.DecompressLzss(dst, packed[..end.value]);
    return Some(dst[..size]);
  }
}
