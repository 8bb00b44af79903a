/** Eight bytes in one machine word, and the zero-byte test of kern_memmem.cpp on it. */
module ByteWords {

  import opened BitBytes

  const WORD: nat := 8

  /** w is the little-endian word of the eight bytes. */
  predicate IsWord(w: bv64, b0: Byte, b1: Byte, b2: Byte, b3: Byte, b4: Byte, b5: Byte, b6: Byte, b7: Byte) {
    w == (b0 as bv64) | ((b1 as bv64) << 8) | ((b2 as bv64) << 16) | ((b3 as bv64) << 24)
       | ((b4 as bv64) << 32) | ((b5 as bv64) << 40) | ((b6 as bv64) << 48) | ((b7 as bv64) << 56)
  }

  predicate HasZero(x: bv64) {
    (x - 0x0101_0101_0101_0101) & !x & 0x8080_8080_8080_8080 != 0
  }

  /** The word test is exact: it fires if and only if one of the eight bytes is c. */
  lemma WordTest(w: bv64, b0: Byte, b1: Byte, b2: Byte, b3: Byte, b4: Byte, b5: Byte, b6: Byte, b7: Byte, c: Byte)
    requires IsWord(w, b0, b1, b2, b3, b4, b5, b6, b7)
    ensures HasZero(w ^ (0x0101_0101_0101_0101 * (c as bv64)))
       <==> c == b0 || c == b1 || c == b2 || c == b3 || c == b4 || c == b5 || c == b6 || c == b7
  {}

  method TestWord(b0: Byte, b1: Byte, b2: Byte, b3: Byte, b4: Byte, b5: Byte, b6: Byte, b7: Byte, c: Byte)
    returns (hit: bool)
    ensures hit <==> c == b0 || c == b1 || c == b2 || c == b3 || c == b4 || c == b5 || c == b6 || c == b7
  {
    var w: bv64 := (b0 as bv64) | ((b1 as bv64) << 8) | ((b2 as bv64) << 16) | ((b3 as bv64) << 24)
       | ((b4 as bv64) << 32) | ((b5 as bv64) << 40) | ((b6 as bv64) << 48) | ((b7 as bv64) << 56);
    WordTest(w, b0, b1, b2, b3, b4, b5, b6, b7, c);
    hit := HasZero(w ^ (0x0101_0101_0101_0101 * (c as bv64)));
  }

  /** Does the word loaded from b hold the byte c? */
  method WordHolds(b: seq<Byte>, c: Byte) returns (hit: bool)
    requires |b| == WORD
    ensures hit <==> c in b
  {
    hit := TestWord(b[0], b[1], b[2], b[3], b[4], b[5], b[6], b[7], c);
  }
}
