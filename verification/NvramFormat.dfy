/**
  The layers of a value in non-volatile storage: a header, then the payload, which may have been
  compressed, then encrypted, and last a checksum over all before it.
 */
module NvramFormat {
  import opened Optional
  import opened Bytes
  import opened Repetition
  import opened LzssFormat
  import opened LzssMeaning
  import opened LzssTightness

  // ---------- parts outside this model ----------

  /** The block cipher in CBC mode, and CRC32: any functions that keep these promises. */
  datatype Primitives = Primitives(
    encrypt: (seq<byte>, seq<byte>, seq<byte>) -> seq<byte>,
    decrypt: (seq<byte>, seq<byte>, seq<byte>) -> seq<byte>,
    crc32: seq<byte> -> nat)

  const BLOCK_SIZE: int := 16

  /** What NVStorage::compress allocates beyond the source size, length word included. */
  const SLACK: int := 1024

  ghost predicate Sound(p: Primitives) {
    && (forall key, iv, d {:trigger p.encrypt(key, iv, d)} :: |d| % BLOCK_SIZE == 0 ==>
          |p.encrypt(key, iv, d)| == |d| && p.decrypt(key, iv, p.encrypt(key, iv, d)) == d)
    && (forall key, iv, d {:trigger p.decrypt(key, iv, d)} :: |p.decrypt(key, iv, d)| == |d|)
    && (forall d {:trigger p.crc32(d)} :: p.crc32(d) < 0x1_0000_0000)
  }

  // ---------- options ----------

  datatype Options = Options(raw: bool, compressed: bool, encrypted: bool, checksum: bool, sensitive: bool)

  function Bit(b: bool, weight: nat): nat {
    if b then weight else 0
  }

  /** The options byte stored in a header; the sensitive bit is never stored, a raw value has no header. */
  function HeaderBits(o: Options): byte {
    Bit(o.raw, 1) + Bit(o.compressed, 2) + Bit(o.encrypted, 4) + Bit(o.checksum, 8)
  }

  predicate HasBit(bits: byte, weight: nat)
    requires weight > 0
  {
    bits as nat / weight % 2 == 1
  }

  /** (bits & opts) == opts */
  predicate Grants(bits: byte, o: Options) {
    && (o.raw ==> HasBit(bits, 1)) && (o.compressed ==> HasBit(bits, 2)) && (o.encrypted ==> HasBit(bits, 4))
    && (o.checksum ==> HasBit(bits, 8)) && (o.sensitive ==> HasBit(bits, 16))
  }

  lemma StoredBits(o: Options)
    ensures var b := HeaderBits(o);
            && (HasBit(b, 1) <==> o.raw) && (HasBit(b, 2) <==> o.compressed) && (HasBit(b, 4) <==> o.encrypted)
            && (HasBit(b, 8) <==> o.checksum) && !HasBit(b, 16)
  {}

  const HEADER_SIZE: int := 4

  function Header(o: Options): (h: seq<byte>)
    ensures |h| == HEADER_SIZE
  {
    [0x17, 0xC7, 1, HeaderBits(o)]
  }

  // ---------- what writing produces ----------

  function Padding(n: nat): (k: nat)
    ensures (n + k) % BLOCK_SIZE == 0 && k < BLOCK_SIZE
  {
    if n % BLOCK_SIZE == 0 then 0 else BLOCK_SIZE - n % BLOCK_SIZE
  }

  /** Crypto::encrypt: the initialisation vector, then length, data and zero padding, encrypted. */
  function Encrypted(p: Primitives, key: seq<byte>, iv: seq<byte>, src: seq<byte>): seq<byte>
    requires |src| < 0x1_0000_0000
  {
    iv + p.encrypt(key, iv, LE32(|src|) + src + Repeated<byte>(0, Padding(4 + |src|)))
  }

  /** The length in front, padding to whole blocks behind, and the vector. */
  function EncryptedSize(n: nat): nat {
    4 + n + Padding(4 + n) + BLOCK_SIZE
  }

  lemma EncryptedHasSize(p: Primitives, key: seq<byte>, iv: seq<byte>, src: seq<byte>)
    requires Sound(p) && |iv| == BLOCK_SIZE && |src| < 0x1_0000_0000
    ensures |Encrypted(p, key, iv, src)| == EncryptedSize(|src|)
  {
    var plain := LE32(|src|) + src + Repeated<byte>(0, Padding(4 + |src|));
    assert |plain| % BLOCK_SIZE == 0;
  }

  /** A length word and a stream that decodes to src, whatever the decoder's buffer starts with. */
  ghost predicate IsPacked(packed: seq<byte>, src: seq<byte>) {
    && |src| < 0x1_0000_0000 && 4 < |packed| && packed[..4] == LE32(|src|)
    && forall junk: seq<byte> {:trigger Decode(junk, packed[4..], |src|)} :: |junk| == LzssTree.N ==>
       Decode(junk, packed[4..], |src|) == src
  }

  /** data is a stored form of src under the options o. */
  ghost predicate Stores(p: Primitives, data: seq<byte>, src: seq<byte>, o: Options, key: Option<seq<byte>>,
                         iv: seq<byte>, packed: seq<byte>) {
    && (o.compressed ==> IsPacked(packed, src)) && (!o.compressed ==> packed == src)
    && 0 < |packed| < 0x1_0000_0000 && |iv| == BLOCK_SIZE && (o.encrypted ==> key.Some?)
    && data == Framed(p, o, if o.encrypted then Encrypted(p, key.value, iv, packed) else packed)
  }

  function Framed(p: Primitives, o: Options, payload: seq<byte>): seq<byte> {
    var body := Header(o) + payload;
    if o.checksum then body + LE32(p.crc32(body) % 0x1_0000_0000) else body
  }

  // ---------- what reading accepts ----------

  /** Crypto::decrypt */
  function Decrypted(p: Primitives, key: Option<seq<byte>>, src: seq<byte>): Option<seq<byte>> {
    if |src| < 2 * BLOCK_SIZE || |src| % BLOCK_SIZE != 0 || key.None? then None
    else
      var d := p.decrypt(key.value, src[..BLOCK_SIZE], src[BLOCK_SIZE..]);
      if |d| < 4 || |d| - 4 < FromLE32(d[..4]) then None else Some(d[4..4 + FromLE32(d[..4])])
  }

  /** NVStorage::decompress; junk is what the decoder's buffer starts with. */
  function Unpacked(junk: seq<byte>, src: seq<byte>): Option<seq<byte>>
    requires |junk| == LzssTree.N
  {
    if |src| <= 4 then None
    else
      var n := FromLE32(src[..4]);
      var out := Decode(junk, src[4..], n);
      if |out| == n then Some(out) else None
  }

  /** The header and the checksum are right; what is left is the payload. */
  function Unframed(p: Primitives, data: seq<byte>, o: Options): Option<seq<byte>> {
    if |data| < HEADER_SIZE then None
    else if data[0] != 0x17 || data[1] != 0xC7 || data[2] > 1 || !Grants(data[3], o) then None
    else if HasBit(data[3], 8) then
      if |data| < HEADER_SIZE + 4 then None
      else if FromLE32(data[|data| - 4..]) != p.crc32(data[..|data| - 4]) then None
      else Some(data[HEADER_SIZE..|data| - 4])
    else Some(data[HEADER_SIZE..])
  }

  /** NVStorage::read of the stored bytes data with the options o. */
  function Loaded(p: Primitives, junk: seq<byte>, data: seq<byte>, o: Options,
                  key: Option<seq<byte>>): Option<seq<byte>>
    requires |junk| == LzssTree.N
  {
    if data == [] then None
    else if o.raw then Some(data)
    else
      var payload := Unframed(p, data, o);
      if payload.None? then None
      else
        var plain := if HasBit(data[3], 4) then Decrypted(p, key, payload.value) else payload;
        if plain.None? then None
        else if HasBit(data[3], 2) then Unpacked(junk, plain.value) else plain
  }

  // ---------- round trips ----------

  lemma PlainParts(src: seq<byte>, plain: seq<byte>)
    requires |src| < 0x1_0000_0000 && plain == LE32(|src|) + src + Repeated<byte>(0, Padding(4 + |src|))
    ensures |plain| == 4 + |src| + Padding(4 + |src|) && |plain| % BLOCK_SIZE == 0
    ensures FromLE32(plain[..4]) == |src| && plain[4..4 + |src|] == src
  {
    WordRoundTrip(|src|);
    assert plain[..4] == LE32(|src|);
  }

  lemma DecryptedWhen(p: Primitives, key: seq<byte>, iv: seq<byte>, cipher: seq<byte>, plain: seq<byte>, src: seq<byte>)
    requires |iv| == BLOCK_SIZE <= |cipher| == |plain| && |plain| % BLOCK_SIZE == 0
    requires p.decrypt(key, iv, cipher) == plain && 4 + |src| <= |plain|
    requires FromLE32(plain[..4]) == |src| && plain[4..4 + |src|] == src
    ensures Decrypted(p, Some(key), iv + cipher) == Some(src)
  {
    assert (iv + cipher)[..BLOCK_SIZE] == iv && (iv + cipher)[BLOCK_SIZE..] == cipher;
  }

  lemma DecryptedIsInverse(p: Primitives, key: seq<byte>, iv: seq<byte>, src: seq<byte>)
    requires Sound(p) && |iv| == BLOCK_SIZE && 0 < |src| < 0x1_0000_0000
    ensures Decrypted(p, Some(key), Encrypted(p, key, iv, src)) == Some(src)
  {
    var plain := LE32(|src|) + src + Repeated<byte>(0, Padding(4 + |src|));
    PlainParts(src, plain);
    DecryptedWhen(p, key, iv, p.encrypt(key, iv, plain), plain, src);
  }

  lemma UnpackedIsInverse(junk: seq<byte>, packed: seq<byte>, src: seq<byte>)
    requires |junk| == LzssTree.N && IsPacked(packed, src)
    ensures Unpacked(junk, packed) == Some(src)
  {
    WordRoundTrip(|src|);
    assert Decode(junk, packed[4..], |src|) == src;
  }

  lemma UnframedIsInverse(p: Primitives, o: Options, payload: seq<byte>, o': Options)
    requires Sound(p)
    ensures Unframed(p, Framed(p, o, payload), o') == if Grants(HeaderBits(o), o') then Some(payload) else None
  {
    StoredBits(o);
    FramedParts(p, o, payload);
    WordRoundTrip(p.crc32(Header(o) + payload) % 0x1_0000_0000);
  }

  lemma FramedParts(p: Primitives, o: Options, payload: seq<byte>)
    ensures var body, data := Header(o) + payload, Framed(p, o, payload);
            && |data| == |body| + (if o.checksum then 4 else 0) && |body| == HEADER_SIZE + |payload|
            && data[0] == 0x17 && data[1] == 0xC7 && data[2] == 1 && data[3] == HeaderBits(o)
            && data[HEADER_SIZE..|body|] == payload
            && data[..|body|] == body && (o.checksum ==> data[|body|..] == LE32(p.crc32(body) % 0x1_0000_0000))
  {
    var body, data := Header(o) + payload, Framed(p, o, payload);
    assert data[..4] == Header(o);
  }

  /** The options a reader may ask for: those written, the sensitive bit never. */
  predicate MayAsk(o: Options, o': Options) {
    && (o'.compressed ==> o.compressed) && (o'.encrypted ==> o.encrypted) && (o'.checksum ==> o.checksum)
    && !o'.sensitive
  }

  /** What was written is read back exactly when the reader asks for no option the writer did not use. */
  lemma StoredIsLoaded(p: Primitives, junk: seq<byte>, data: seq<byte>, src: seq<byte>, o: Options, o': Options,
                       key: Option<seq<byte>>, iv: seq<byte>, packed: seq<byte>)
    requires Sound(p) && |junk| == LzssTree.N && !o.raw && !o'.raw && Stores(p, data, src, o, key, iv, packed)
    ensures Loaded(p, junk, data, o', key) == if MayAsk(o, o') then Some(src) else None
  {
    var payload := if o.encrypted then Encrypted(p, key.value, iv, packed) else packed;
    StoredBits(o);
    UnframedIsInverse(p, o, payload, o');
    assert data[3] == HeaderBits(o);
    if o.encrypted {
      DecryptedIsInverse(p, key.value, iv, packed);
    }
    if o.compressed {
      UnpackedIsInverse(junk, packed, src);
    }
  }

  // ---------- what is accepted, byte by byte ----------

  /** The number in the four bytes at i, low byte first. */
  function NumberAt(d: seq<byte>, i: int): nat
    requires 0 <= i && i + 4 <= |d|
  {
    d[i] as nat + 0x100 * d[i + 1] as nat + 0x1_0000 * d[i + 2] as nat + 0x100_0000 * d[i + 3] as nat
  }

  /** The magic number 0xC717, version 0 or 1, all options asked for, and a checksum that is right if there is one. */
  ghost predicate WellFramed(p: Primitives, data: seq<byte>, o: Options) {
    && 4 <= |data| && data[0] as nat + 0x100 * data[1] as nat == 0xC717 && data[2] <= 1
    && (o.raw ==> data[3] % 2 == 1) && (o.compressed ==> data[3] / 2 % 2 == 1) && (o.encrypted ==> data[3] / 4 % 2 == 1)
    && (o.checksum ==> data[3] / 8 % 2 == 1) && (o.sensitive ==> data[3] / 16 % 2 == 1)
    && (data[3] / 8 % 2 == 1 ==> 8 <= |data| && NumberAt(data, |data| - 4) == p.crc32(data[..|data| - 4]))
  }

  /** What stands between header and checksum. */
  function Payload(data: seq<byte>): seq<byte>
    requires 4 <= |data| && (data[3] / 8 % 2 == 1 ==> 8 <= |data|)
  {
    data[4..|data| - if data[3] / 8 % 2 == 1 then 4 else 0]
  }

  /** A vector and at least one block, all of them whole; what is decrypted has the length it starts with. */
  ghost predicate WellEncrypted(p: Primitives, key: Option<seq<byte>>, s: seq<byte>) {
    && key.Some? && 32 <= |s| && |s| % 16 == 0
    && var d := p.decrypt(key.value, s[..16], s[16..]); 4 <= |d| && 4 + NumberAt(d, 0) <= |d|
  }

  function Plain(p: Primitives, key: Option<seq<byte>>, s: seq<byte>): seq<byte>
    requires WellEncrypted(p, key, s)
  {
    var d := p.decrypt(key.value, s[..16], s[16..]);
    d[4..4 + NumberAt(d, 0)]
  }

  /** A length, and a stream that yields that many bytes. */
  ghost predicate WellPacked(junk: seq<byte>, s: seq<byte>)
    requires |junk| == LzssTree.N
  {
    4 < |s| && |Decode(junk, s[4..], NumberAt(s, 0))| == NumberAt(s, 0)
  }

  /** v is what data holds, layer by layer, and all its layers are well formed. */
  ghost predicate Holds(p: Primitives, junk: seq<byte>, data: seq<byte>, o: Options, key: Option<seq<byte>>,
                        v: seq<byte>)
    requires |junk| == LzssTree.N
  {
    && WellFramed(p, data, o)
    && var s := Payload(data);
    && (data[3] / 4 % 2 == 1 ==> WellEncrypted(p, key, s))
    && var t := if data[3] / 4 % 2 == 1 then Plain(p, key, s) else s;
    if data[3] / 2 % 2 == 1 then WellPacked(junk, t) && v == Decode(junk, t[4..], NumberAt(t, 0)) else v == t
  }

  lemma NumberIsWord(d: seq<byte>, i: int)
    requires 0 <= i && i + 4 <= |d|
    ensures FromLE32(d[i..i + 4]) == NumberAt(d, i)
  {}

  lemma UnframedExactly(p: Primitives, data: seq<byte>, o: Options)
    ensures Unframed(p, data, o).Some? <==> WellFramed(p, data, o)
    ensures WellFramed(p, data, o) ==> Unframed(p, data, o) == Some(Payload(data))
  {
    if 8 <= |data| {
      NumberIsWord(data, |data| - 4);
      assert data[|data| - 4..] == data[|data| - 4..|data| - 4 + 4];
    }
    if 4 <= |data| {
      assert data[4..|data|] == data[4..];
    }
  }

  lemma DecryptedExactly(p: Primitives, key: Option<seq<byte>>, s: seq<byte>)
    ensures Decrypted(p, key, s).Some? <==> WellEncrypted(p, key, s)
    ensures WellEncrypted(p, key, s) ==> Decrypted(p, key, s) == Some(Plain(p, key, s))
  {
    if key.Some? && 32 <= |s| {
      var d := p.decrypt(key.value, s[..16], s[16..]);
      if 4 <= |d| {
        NumberIsWord(d, 0);
      }
    }
  }

  /** What is read of stored bytes, whatever they are, with its rejections. */
  lemma LoadedExactly(p: Primitives, junk: seq<byte>, data: seq<byte>, o: Options, key: Option<seq<byte>>, v: seq<byte>)
    requires |junk| == LzssTree.N
    ensures !o.raw ==> (Loaded(p, junk, data, o, key) == Some(v) <==> Holds(p, junk, data, o, key, v))
    ensures o.raw ==> Loaded(p, junk, data, o, key) == if data == [] then None else Some(data)
  {
    UnframedExactly(p, data, o);
    if !o.raw && WellFramed(p, data, o) {
      var s := Payload(data);
      DecryptedExactly(p, key, s);
      if data[3] / 4 % 2 == 1 ==> WellEncrypted(p, key, s) {
        var t := if data[3] / 4 % 2 == 1 then Plain(p, key, s) else s;
        if 4 < |t| {
          NumberIsWord(t, 0);
        }
      }
    }
  }

  lemma ReadExactly(p: Primitives, junk: seq<byte>, data: seq<byte>, o: Options, key: Option<seq<byte>>)
    requires |junk| == LzssTree.N
    ensures !o.raw ==> forall v {:trigger Holds(p, junk, data, o, key, v)} ::
              Loaded(p, junk, data, o, key) == Some(v) <==> Holds(p, junk, data, o, key, v)
    ensures o.raw ==> Loaded(p, junk, data, o, key) == if data == [] then None else Some(data)
  {
    LoadedExactly(p, junk, data, o, key, []);
    forall v {:trigger Holds(p, junk, data, o, key, v)}
      ensures !o.raw ==> (Loaded(p, junk, data, o, key) == Some(v) <==> Holds(p, junk, data, o, key, v))
    {
      LoadedExactly(p, junk, data, o, key, v);
    }
  }

  /** Bytes whose checksum is not that of the rest are read by nobody, whatever else they are. */
  lemma WrongChecksumIsRejected(p: Primitives, junk: seq<byte>, data: seq<byte>, o: Options, key: Option<seq<byte>>)
    requires |junk| == LzssTree.N && !o.raw && 4 <= |data| && data[3] / 8 % 2 == 1
    requires 8 <= |data| ==> NumberAt(data, |data| - 4) != p.crc32(data[..|data| - 4])
    ensures Loaded(p, junk, data, o, key) == None
  {
    UnframedExactly(p, data, o);
  }

  // ---------- the fixed slack of NVStorage::compress ----------

  /** The size of the buffer that is allocated for n source bytes: 32 bits, in which the slack may wrap around. */
  function Capacity(n: nat): (c: nat)
    ensures c <= n + SLACK && (n + SLACK < 0x1_0000_0000 ==> c == n + SLACK)
  {
    (n + SLACK) % 0x1_0000_0000
  }

  /** Its bytes behind the length word; below 0 if that does not fit. */
  function Room(n: nat): int {
    Capacity(n) - 4
  }

  /** What compress_lzss has sent does not fit the room, be it the whole source or as much as it got to send. */
  ghost predicate Overruns(us: seq<Unit>, src: seq<byte>) {
    ValidUnits(us) && |Pack(us)| > Room(|src|)
  }

  /** The units compress_lzss may leave for src when it is told of the whole buffer's size. */
  ghost predicate MaySend(us: seq<Unit>, src: seq<byte>) {
    (Complete(us, src) && |Pack(us)| <= Capacity(|src|)) || TooLong(us, src, Capacity(|src|))
  }

  lemma ShortSourcesFit(us: seq<Unit>, src: seq<byte>)
    requires MaySend(us, src) && |src| <= 8160
    ensures !Overruns(us, src)
  {
    if Complete(us, src) {
      MeansIsBounded(us, src, LzssTree.N - LzssStrings.F + |src|);
    }
    if TooLong(us, src, Capacity(|src|)) {
      TooLongIsBounded(us, src, Capacity(|src|));
    }
  }

  /** From 8161 bytes on there is a source that always overruns. */
  lemma WitnessOverruns(n: nat, us: seq<Unit>)
    requires MaySend(us, Witness(n)) && n > 8160
    ensures Overruns(us, Witness(n))
  {
    if Complete(us, Witness(n)) {
      BoundIsReached(n, us);
    }
  }

  /** Something can be sent for every source. */
  lemma SomethingIsSent(src: seq<byte>)
    ensures exists us :: MaySend(us, src)
  {
    var us := Literally(src);
    LiterallyIsComplete(src);
    if |Pack(us)| > Capacity(|src|) {
      assert Means(us, Spaces() + src, LzssTree.N - LzssStrings.F + |src|);
      assert TooLong(us, src, Capacity(|src|));
    }
    assert MaySend(us, src);
  }

  /** The slack is enough for every source of n bytes exactly up to 8160 bytes. */
  lemma SlackSuffices(n: nat)
    ensures n <= 8160 <==>
            forall us, src {:trigger Overruns(us, src)} :: |src| == n && MaySend(us, src) ==> !Overruns(us, src)
  {
    if n <= 8160 {
      forall us, src | |src| == n && MaySend(us, src) ensures !Overruns(us, src) {
        ShortSourcesFit(us, src);
      }
    } else {
      SomethingIsSent(Witness(n));
      var us :| MaySend(us, Witness(n));
      WitnessOverruns(n, us);
    }
  }
}
