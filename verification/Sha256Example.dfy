/**
  The example of FIPS 180-4 for a message of one block: the digest of "abc", computed step by step with the
  specification's own functions. w is the message schedule, and each round is given by the two variables it sets.
 */
module Sha256Example {
  import opened BitBytes
  import opened Bytes
  import opened BlockHash
  import opened Repetition
  import opened Sha256

  /** The message, the end mark, and its length of 24 bits in the last byte. */
  ghost predicate IsAbc(b: Block) {
    && b[0] == 97 && b[1] == 98 && b[2] == 99 && b[3] == 0x80 && b[63] == 24
    && forall i {:trigger b[i]} :: 4 <= i < 63 ==> b[i] == 0
  }

  lemma LengthIs24(w: seq<Byte>)
    requires w == LengthBytes(24)
    ensures |w| == 8 && w[7] == 24 && forall i {:trigger w[i]} :: 0 <= i < 7 ==> w[i] == 0
  {
    assert BE64(24) == BE32(0) + BE32(24);
    assert BE32(0) == [0, 0, 0, 0] && BE32(24) == [0, 0, 0, 24];
  }

  lemma AbcIsPadded(m: seq<Byte>)
    requires m == [97, 98, 99]
    ensures |Padded(m)| == 64 && IsAbc(Padded(m))
  {
    assert ZeroCount(3) == 52;
    LengthIs24(LengthBytes(8 * |m|));
  }

  // ---------- the message schedule ----------

  /** Eight words of the schedule, from word t on. */
  ghost predicate Eight(b: Block, t: nat, w: seq<Word>)
    requires t + 8 <= 64
  {
    && |w| == 8
    && Schedule(b, t) == w[0] && Schedule(b, t + 1) == w[1] && Schedule(b, t + 2) == w[2] && Schedule(b, t + 3) == w[3]
    && Schedule(b, t + 4) == w[4] && Schedule(b, t + 5) == w[5] && Schedule(b, t + 6) == w[6]
    && Schedule(b, t + 7) == w[7]
  }

  lemma Words0(b: Block)
    requires IsAbc(b)
    ensures Eight(b, 0, [0x61626380, 0x00000000, 0x00000000, 0x00000000,
                         0x00000000, 0x00000000, 0x00000000, 0x00000000])
  {
  }

  lemma Words8(b: Block)
    requires IsAbc(b)
    ensures Eight(b, 8, [0x00000000, 0x00000000, 0x00000000, 0x00000000,
                         0x00000000, 0x00000000, 0x00000000, 0x00000018])
  {
  }

  lemma Words16(b: Block)
    requires IsAbc(b)
    ensures Eight(b, 16, [0x61626380, 0x000f0000, 0x7da86405, 0x600003c6,
                          0x3e9d7b78, 0x0183fc00, 0x12dcbfdb, 0xe2e2c38e])
  {
    Words0(b);
    Words8(b);
  }

  lemma Words24(b: Block)
    requires IsAbc(b)
    ensures Eight(b, 24, [0xc8215c1a, 0xb73679a2, 0xe5bc3909, 0x32663c5b,
                          0x9d209d67, 0xec8726cb, 0x702138a4, 0xd3b7973b])
  {
    Words8(b);
    Words16(b);
  }

  lemma Words32(b: Block)
    requires IsAbc(b)
    ensures Eight(b, 32, [0x93f5997f, 0x3b68ba73, 0xaff4ffc1, 0xf10a5c62,
                          0x0a8b3996, 0x72af830a, 0x9409e33e, 0x24641522])
  {
    Words16(b);
    Words24(b);
  }

  lemma Words40(b: Block)
    requires IsAbc(b)
    ensures Eight(b, 40, [0x9f47bf94, 0xf0a64f5a, 0x3e246a79, 0x27333ba3,
                          0x0c4763f2, 0x840abf27, 0x7a290d5d, 0x065c43da])
  {
    Words24(b);
    Words32(b);
  }

  lemma Words48(b: Block)
    requires IsAbc(b)
    ensures Eight(b, 48, [0xfb3e89cb, 0xcc7617db, 0xb9e66c34, 0xa9993667,
                          0x84badedd, 0xc21462bc, 0x1487472c, 0xb20f7a99])
  {
    Words32(b);
    Words40(b);
  }

  lemma Words56(b: Block)
    requires IsAbc(b)
    ensures Eight(b, 56, [0xef57b9cd, 0xebe6b238, 0x9fe3095e, 0x78bc8d4b,
                          0xa43fcf15, 0x668b2ff8, 0xeeaba2cc, 0x12b1edeb])
  {
    Words40(b);
    Words48(b);
  }

  // ---------- the rounds ----------

  /** Round t, with the two variables it sets; the others move on. */
  lemma Next(b: Block, t: nat, v: Vars, w: Word, a: Word, e: Word) returns (v': Vars)
    requires t < 64 && Rounds(H0, b, t) == v && Schedule(b, t) == w
    requires var n := Round(v, Constant(t), w); n.a == a && n.e == e
    ensures v' == Vars(a, v.a, v.b, v.c, e, v.e, v.f, v.g) && Rounds(H0, b, t + 1) == v'
  {
    v' := Vars(a, v.a, v.b, v.c, e, v.e, v.f, v.g);
  }

  lemma Rounds8(b: Block)
    requires IsAbc(b)
    ensures Rounds(H0, b, 8) ==
            Vars(0x85a07b5f, 0xe5030380, 0x2b4209f5, 0x04409a6a,
                 0x0c657a79, 0x9b27a401, 0x714260ad, 0x43ada245)
  {
    Words0(b);
    var v := H0;
    v := Next(b, 0, v, 0x61626380, 0x5d6aebcd, 0xfa2a4622);
    v := Next(b, 1, v, 0x00000000, 0x5a6ad9ad, 0x78ce7989);
    v := Next(b, 2, v, 0x00000000, 0xc8c347a7, 0xf92939eb);
    v := Next(b, 3, v, 0x00000000, 0xd550f666, 0x24e00850);
    v := Next(b, 4, v, 0x00000000, 0x04409a6a, 0x43ada245);
    v := Next(b, 5, v, 0x00000000, 0x2b4209f5, 0x714260ad);
    v := Next(b, 6, v, 0x00000000, 0xe5030380, 0x9b27a401);
    v := Next(b, 7, v, 0x00000000, 0x85a07b5f, 0x0c657a79);
  }

  lemma Rounds16(b: Block)
    requires IsAbc(b)
    ensures Rounds(H0, b, 16) ==
            Vars(0xb0fa238e, 0xc0645fde, 0xd932eb16, 0x87912990,
                 0x07590dcd, 0x0b92f20c, 0x745a48de, 0x1e578218)
  {
    Words8(b);
    Rounds8(b);
    var v := Rounds(H0, b, 8);
    v := Next(b, 8, v, 0x00000000, 0x8e04ecb9, 0x32ca2d8c);
    v := Next(b, 9, v, 0x00000000, 0x8c87346b, 0x1cc92596);
    v := Next(b, 10, v, 0x00000000, 0x4798a3f4, 0x436b23e8);
    v := Next(b, 11, v, 0x00000000, 0xf71fc5a9, 0x816fd6e9);
    v := Next(b, 12, v, 0x00000000, 0x87912990, 0x1e578218);
    v := Next(b, 13, v, 0x00000000, 0xd932eb16, 0x745a48de);
    v := Next(b, 14, v, 0x00000000, 0xc0645fde, 0x0b92f20c);
    v := Next(b, 15, v, 0x00000018, 0xb0fa238e, 0x07590dcd);
  }

  lemma Rounds24(b: Block)
    requires IsAbc(b)
    ensures Rounds(H0, b, 24) ==
            Vars(0xc5d53d8d, 0xa7a3623f, 0xc2606d6d, 0x9dc68b63,
                 0xaa47c347, 0x49f5114a, 0xe1257970, 0x8ada8930)
  {
    Words16(b);
    Rounds16(b);
    var v := Rounds(H0, b, 16);
    v := Next(b, 16, v, 0x61626380, 0x21da9a9b, 0x8034229c);
    v := Next(b, 17, v, 0x000f0000, 0xc2fbd9d1, 0x846ee454);
    v := Next(b, 18, v, 0x7da86405, 0xfe777bbf, 0xcc899961);
    v := Next(b, 19, v, 0x600003c6, 0xe1f20c33, 0xb0638179);
    v := Next(b, 20, v, 0x3e9d7b78, 0x9dc68b63, 0x8ada8930);
    v := Next(b, 21, v, 0x0183fc00, 0xc2606d6d, 0xe1257970);
    v := Next(b, 22, v, 0x12dcbfdb, 0xa7a3623f, 0x49f5114a);
    v := Next(b, 23, v, 0xe2e2c38e, 0xc5d53d8d, 0xaa47c347);
  }

  lemma Rounds32(b: Block)
    requires IsAbc(b)
    ensures Rounds(H0, b, 32) ==
            Vars(0x73b33bf5, 0xea992a22, 0xa0060b30, 0x363482c9,
                 0xba591112, 0x0109ab3a, 0xade79437, 0x6112a3b7)
  {
    Words24(b);
    Rounds24(b);
    var v := Rounds(H0, b, 24);
    v := Next(b, 24, v, 0xc8215c1a, 0x1c2c2838, 0x2823ef91);
    v := Next(b, 25, v, 0xb73679a2, 0xcde8037d, 0x14383d8e);
    v := Next(b, 26, v, 0xe5bc3909, 0xb62ec4bc, 0xc74c6516);
    v := Next(b, 27, v, 0x32663c5b, 0x77d37528, 0xedffbff8);
    v := Next(b, 28, v, 0x9d209d67, 0x363482c9, 0x6112a3b7);
    v := Next(b, 29, v, 0xec8726cb, 0xa0060b30, 0xade79437);
    v := Next(b, 30, v, 0x702138a4, 0xea992a22, 0x0109ab3a);
    v := Next(b, 31, v, 0xd3b7973b, 0x73b33bf5, 0xba591112);
  }

  lemma Rounds40(b: Block)
    requires IsAbc(b)
    ensures Rounds(H0, b, 40) ==
            Vars(0x79ea687a, 0x6dc57a8a, 0x34df1604, 0x41a65cb1,
                 0x1efbc0a0, 0xf0781bc8, 0xa507a53d, 0x0772a26b)
  {
    Words32(b);
    Rounds32(b);
    var v := Rounds(H0, b, 32);
    v := Next(b, 32, v, 0x93f5997f, 0x98e12507, 0x9cd9f5f6);
    v := Next(b, 33, v, 0x3b68ba73, 0xfe604df5, 0x59249dd3);
    v := Next(b, 34, v, 0xaff4ffc1, 0xa9a7738c, 0x085f3833);
    v := Next(b, 35, v, 0xf10a5c62, 0x65a0cfe4, 0xf4b002d6);
    v := Next(b, 36, v, 0x0a8b3996, 0x41a65cb1, 0x0772a26b);
    v := Next(b, 37, v, 0x72af830a, 0x34df1604, 0xa507a53d);
    v := Next(b, 38, v, 0x9409e33e, 0x6dc57a8a, 0xf0781bc8);
    v := Next(b, 39, v, 0x24641522, 0x79ea687a, 0x1efbc0a0);
  }

  lemma Rounds48(b: Block)
    requires IsAbc(b)
    ensures Rounds(H0, b, 48) ==
            Vars(0x4172328d, 0xa14c14b0, 0x72ab4b91, 0x26628815,
                 0xfecf0bc6, 0xd57b94a9, 0xb7755da1, 0xa80f11f0)
  {
    Words40(b);
    Rounds40(b);
    var v := Rounds(H0, b, 40);
    v := Next(b, 40, v, 0x9f47bf94, 0xd6670766, 0x26352d63);
    v := Next(b, 41, v, 0xf0a64f5a, 0xdf46652f, 0x838b2711);
    v := Next(b, 42, v, 0x3e246a79, 0x17aa0dfe, 0xdecd4715);
    v := Next(b, 43, v, 0x27333ba3, 0x9d4baf93, 0xfda24c2e);
    v := Next(b, 44, v, 0x0c4763f2, 0x26628815, 0xa80f11f0);
    v := Next(b, 45, v, 0x840abf27, 0x72ab4b91, 0xb7755da1);
    v := Next(b, 46, v, 0x7a290d5d, 0xa14c14b0, 0xd57b94a9);
    v := Next(b, 47, v, 0x065c43da, 0x4172328d, 0xfecf0bc6);
  }

  lemma Rounds56(b: Block)
    requires IsAbc(b)
    ensures Rounds(H0, b, 56) ==
            Vars(0x38cc9913, 0x3ec45cdb, 0xf5702fdb, 0x101fd28f,
                 0x54cb266b, 0xe50e1b4f, 0x9f4787c3, 0x529e7d00)
  {
    Words48(b);
    Rounds48(b);
    var v := Rounds(H0, b, 48);
    v := Next(b, 48, v, 0xfb3e89cb, 0x05757ceb, 0xbd714038);
    v := Next(b, 49, v, 0xcc7617db, 0xf11bfaa8, 0x6e5c390c);
    v := Next(b, 50, v, 0xb9e66c34, 0x7a0508a1, 0x52f1ccf7);
    v := Next(b, 51, v, 0xa9993667, 0x886e7a22, 0x49231c1e);
    v := Next(b, 52, v, 0x84badedd, 0x101fd28f, 0x529e7d00);
    v := Next(b, 53, v, 0xc21462bc, 0xf5702fdb, 0x9f4787c3);
    v := Next(b, 54, v, 0x1487472c, 0x3ec45cdb, 0xe50e1b4f);
    v := Next(b, 55, v, 0xb20f7a99, 0x38cc9913, 0x54cb266b);
  }

  lemma Rounds64(b: Block)
    requires IsAbc(b)
    ensures Rounds(H0, b, 64) ==
            Vars(0x506e3058, 0xd39a2165, 0x04d24d6c, 0xb85e2ce9,
                 0x5ef50f24, 0xfb121210, 0x948d25b6, 0x961f4894)
  {
    Words56(b);
    Rounds56(b);
    var v := Rounds(H0, b, 56);
    v := Next(b, 56, v, 0xef57b9cd, 0xfcd1887b, 0x9b5e906c);
    v := Next(b, 57, v, 0xebe6b238, 0xc062d46f, 0x7e44008e);
    v := Next(b, 58, v, 0x9fe3095e, 0xffb70472, 0x6d83bfc6);
    v := Next(b, 59, v, 0x78bc8d4b, 0xb6ae8fff, 0xb21bad3d);
    v := Next(b, 60, v, 0xa43fcf15, 0xb85e2ce9, 0x961f4894);
    v := Next(b, 61, v, 0x668b2ff8, 0x04d24d6c, 0x948d25b6);
    v := Next(b, 62, v, 0xeeaba2cc, 0xd39a2165, 0xfb121210);
    v := Next(b, 63, v, 0x12b1edeb, 0x506e3058, 0x5ef50f24);
  }

  lemma AbcIsCompressed(b: Block)
    requires IsAbc(b)
    ensures Compress(H0, b) == Vars(0xba7816bf, 0x8f01cfea, 0x414140de, 0x5dae2223,
                                    0xb00361a3, 0x96177a9c, 0xb410ff61, 0xf20015ad)
  {
    Rounds64(b);
  }

  lemma LeftWords()
    ensures WordBytes(0xba7816bf) == [0xba, 0x78, 0x16, 0xbf] && WordBytes(0x8f01cfea) == [0x8f, 0x01, 0xcf, 0xea]
    ensures WordBytes(0x414140de) == [0x41, 0x41, 0x40, 0xde] && WordBytes(0x5dae2223) == [0x5d, 0xae, 0x22, 0x23]
  {
  }

  lemma RightWords()
    ensures WordBytes(0xb00361a3) == [0xb0, 0x03, 0x61, 0xa3] && WordBytes(0x96177a9c) == [0x96, 0x17, 0x7a, 0x9c]
    ensures WordBytes(0xb410ff61) == [0xb4, 0x10, 0xff, 0x61] && WordBytes(0xf20015ad) == [0xf2, 0x00, 0x15, 0xad]
  {
  }

  lemma OneBlock(p: Block)
    ensures Chain(BlockFunction(), H0, p) == Compress(H0, p)
  {
    OneMoreBlock(BlockFunction(), H0, [], p);
    assert [] + p == p;
    assert Chain(BlockFunction(), H0, []) == H0;
  }

  /** The digest of the three letters. */
  lemma AbcDigest(m: seq<Byte>)
    requires m == [97, 98, 99]
    ensures Digest(m) ==
            [0xba, 0x78, 0x16, 0xbf] + [0x8f, 0x01, 0xcf, 0xea] + [0x41, 0x41, 0x40, 0xde] + [0x5d, 0xae, 0x22, 0x23]
            + [0xb0, 0x03, 0x61, 0xa3] + [0x96, 0x17, 0x7a, 0x9c] + [0xb4, 0x10, 0xff, 0x61] + [0xf2, 0x00, 0x15, 0xad]
  {
    AbcIsPadded(m);
    var p: Block := Padded(m);
    OneBlock(p);
    AbcIsCompressed(p);
    LeftWords();
    RightWords();
  }
}
