/**
  NVStorage: writing a value replaces the payload stage by stage, reading undoes the stages the header
  names. An allocation succeeds when memory is set and the size is within the limit of Buffer::create.
 */
module Nvram {
  import opened Optional
  import opened Bytes
  import opened Repetition
  import opened LzssFormat
  import opened NvramFormat
  import LzssEncoder
  import LzssDecoder

  const BUFFER_MAX: int := 1024 * 1024 * 1024

  predicate Allocates(memory: bool, size: int) {
    memory && size <= BUFFER_MAX
  }

  // ---------- Crypto ----------

  method Encrypt(p: Primitives, key: Option<seq<byte>>, iv: seq<byte>, src: seq<byte>, memory: bool)
    returns (res: Option<seq<byte>>)
    requires |src| + 2 * BLOCK_SIZE < 0x1_0000_0000
    ensures res.Some? ==> key.Some? && res.value == Encrypted(p, key.value, iv, src)
    ensures res.Some? <==> key.Some? && src != [] && Allocates(memory, EncryptedSize(|src|))
  {
    if src == [] || key.None? {
      return None;
    }
    var realSize := 4 + |src|;
    var padSize := realSize % BLOCK_SIZE;
    if padSize > 0 {
      padSize := BLOCK_SIZE - padSize;
    }
    var encSize := realSize + padSize;
    var fullSize := encSize + BLOCK_SIZE;
    if !Allocates(memory, encSize) || !Allocates(memory, fullSize) {
      return None;
    }
    var data := LE32(|src|) + src + Repeated<byte>(0, padSize);
    return Some(iv + p.encrypt(key.value, iv, data));
  }

  method Decrypt(p: Primitives, key: Option<seq<byte>>, src: seq<byte>, memory: bool) returns (res: Option<seq<byte>>)
    requires Sound(p)
    ensures Allocates(memory, |src|) ==> res == Decrypted(p, key, src)
    ensures res.Some? ==> res == Decrypted(p, key, src)
  {
    if |src| < 2 * BLOCK_SIZE || |src| % BLOCK_SIZE != 0 || key.None? {
      return None;
    }
    var size := |src| - BLOCK_SIZE;
    if !Allocates(memory, size) {
      return None;
    }
    var decBuf := p.decrypt(key.value, src[..BLOCK_SIZE], src[BLOCK_SIZE..]);
    var dataSize := FromLE32(decBuf[..4]);
    if size - 4 < dataSize {
      return None;
    }
    return Some(decBuf[4..4 + dataSize]);
  }

  // ---------- compression ----------

  /**
    NVStorage::compress. It tells compress_lzss the size of the whole buffer although the length word already takes
    four bytes of it. room is the memory behind that word: its last four bytes lie past the buffer. overrun says
    that they, or what follows, were reached, or that not even the length word fits, the 32-bit size having wrapped
    around; the model then stops. us are the units sent.
   */
  method Compress(src: seq<byte>, memory: bool) returns (res: Option<seq<byte>>, overrun: bool, ghost us: seq<Unit>)
    requires |src| < 0x1_0000_0000
    ensures Allocates(memory, Capacity(|src|)) && src != [] ==> MaySend(us, src) && (overrun <==> Overruns(us, src))
    ensures !(Allocates(memory, Capacity(|src|)) && src != []) ==> !overrun && res == None
    ensures overrun ==> res == None && |src| > 8160
    ensures res.Some? ==> IsPacked(res.value, src) && |res.value| <= Capacity(|src|)
    ensures !overrun && src != [] && Allocates(memory, Capacity(|src|)) ==> res.Some?
  {
    us := [];
    var dstSize := (|src| + SLACK) % 0x1_0000_0000;
    if !Allocates(memory, dstSize) || src == [] {
      return None, false, us;
    }
    var room := new byte[dstSize];
    var end;
    end, us := LzssEncoder.CompressLzss(room, src, memory);
    overrun := end.None? || end.value > dstSize - 4;
    if |src| <= 8160 {
      ShortSourcesFit(us, src);
    }
    if overrun {
      return None, overrun, us;
    }
    var packed := LE32(|src|) + room[..end.value];
    assert packed[4..] == room[..end.value];
    return Some(packed), overrun, us;
  }

  method Decompress(src: seq<byte>, memory: bool) returns (res: Option<seq<byte>>, ghost junk: seq<byte>)
    ensures |junk| == LzssTree.N
    ensures res.Some? ==> res == Unpacked(junk, src)
    ensures |src| > 4 && Allocates(memory, FromLE32(src[..4])) ==> res == Unpacked(junk, src)
  {
    junk := Repeated<byte>(0, LzssTree.N);
    if |src| <= 4 {
      return None, junk;
    }
    var dstSize := FromLE32(src[..4]);
    if !Allocates(memory, dstSize) {
      return None, junk;
    }
    var buf := new byte[dstSize];
    var size;
    size, junk := LzssDecoder.DecompressLzss(buf, src[4..]);
    if size != dstSize {
      return None, junk;
    }
    return Some(buf[..size]), junk;
  }

  // ---------- the storage ----------

  /** n bytes of payload, encrypted if that is asked for, between header and checksum. */
  function StoredSize(n: nat, o: Options): nat {
    HEADER_SIZE + (if o.encrypted then EncryptedSize(n) else n) + if o.checksum then 4 else 0
  }

  /** There is a key if one is needed, and memory for each stage: n bytes to store, k of them when compressed. */
  predicate Fits(n: nat, k: nat, o: Options, key: Option<seq<byte>>, memory: bool) {
    && (o.compressed ==> Allocates(memory, Capacity(n)))
    && (o.encrypted ==> key.Some? && Allocates(memory, EncryptedSize(k)))
    && Allocates(memory, StoredSize(k, o))
  }

  class NVStorage {
    const p: Primitives
    var entries: map<string, seq<byte>>

    constructor (p: Primitives)
      ensures this.p == p && entries == map[]
    {
      this.p := p;
      entries := map[];
    }

    /**
      NVStorage::write; accepted says whether the device tree takes the property, overrun that compression
      went past its buffer, where the model stops.
     */
    method Write(name: string, src: seq<byte>, o: Options, key: Option<seq<byte>>, iv: seq<byte>, memory: bool,
                 accepted: bool)
      returns (ok: bool, overrun: bool, ghost packed: seq<byte>)
      requires Sound(p) && |iv| == BLOCK_SIZE && |src| + 2048 < 0x1_0000_0000
      modifies this
      ensures entries.Keys == old(entries).Keys + (if ok then {name} else {})
      ensures forall other :: other in old(entries) && (other != name || !ok) ==> entries[other] == old(entries)[other]
      ensures src == [] || overrun ==> !ok
      ensures overrun ==> o.compressed && !o.raw && |src| > 8160
      ensures ok && !o.raw ==> Stores(p, entries[name], src, o, key, iv, packed) && |entries[name]| <= BUFFER_MAX
      ensures ok && o.raw ==> entries[name] == src
      ensures 0 < |src| <= 8160 && memory && accepted && (o.encrypted && !o.raw ==> key.Some?) ==> ok
      ensures ok <==> accepted && src != [] && !overrun && (o.raw || Fits(|src|, |packed|, o, key, memory))
    {
      packed := src;
      if src == [] {
        return false, false, packed;
      }
      overrun := false;
      var payload := Some(src);
      if !o.raw {
        payload, overrun, packed := Stage(src, o, key, iv, memory);
        if payload.None? || !Allocates(memory, HEADER_SIZE + |payload.value| + if o.checksum then 4 else 0) {
          return false, overrun, packed;
        }
        var buf := Seal(payload.value, o);
        payload := Some(buf);
      }
      if accepted {
        entries := entries[name := payload.value];
      }
      return accepted, overrun, packed;
    }

    /** Compression, then encryption. */
    method Stage(src: seq<byte>, o: Options, key: Option<seq<byte>>, iv: seq<byte>, memory: bool)
      returns (payload: Option<seq<byte>>, overrun: bool, ghost packed: seq<byte>)
      requires Sound(p) && |iv| == BLOCK_SIZE && |src| + 2048 < 0x1_0000_0000 && src != []
      ensures payload.Some? ==>
        && (o.compressed ==> IsPacked(packed, src)) && (!o.compressed ==> packed == src)
        && 0 < |packed| < 0x1_0000_0000 && (o.encrypted ==> key.Some?)
        && payload.value == if o.encrypted then Encrypted(p, key.value, iv, packed) else packed
      ensures overrun ==> payload == None && o.compressed && |src| > 8160
      ensures |src| <= 8160 && memory && (o.encrypted ==> key.Some?) ==> payload.Some? && |packed| <= |src| + 1024
      ensures payload.Some? <==>
                && !overrun && (o.compressed ==> Allocates(memory, Capacity(|src|)))
                && (o.encrypted ==> key.Some? && Allocates(memory, EncryptedSize(|packed|)))
      ensures payload.Some? && o.encrypted ==> |payload.value| == EncryptedSize(|packed|)
    {
      payload := Some(src);
      packed := src;
      overrun := false;
      if o.compressed {
        ghost var us;
        payload, overrun, us := Compress(src, memory);
        if payload.None? {
          return;
        }
        packed := payload.value;
      }
      if o.encrypted {
        payload := Encrypt(p, key, iv, payload.value, memory);
        if payload.Some? {
          EncryptedHasSize(p, key.value, iv, packed);
        }
      }
    }

    /** Header in front, checksum behind. */
    method Seal(payload: seq<byte>, o: Options) returns (buf: seq<byte>)
      requires Sound(p)
      ensures buf == Framed(p, o, payload) && |buf| == HEADER_SIZE + |payload| + if o.checksum then 4 else 0
    {
      buf := Header(o) + payload;
      if o.checksum {
        var ncrc := p.crc32(buf);
        buf := buf + LE32(ncrc);
      }
    }

    /**
      NVStorage::read. What it returns is held by the entry in well-formed layers, or is the entry itself if raw is
      asked for; without an allocation failure it returns whatever is.
     */
    method Read(name: string, o: Options, key: Option<seq<byte>>, memory: bool)
      returns (res: Option<seq<byte>>, ghost junk: seq<byte>)
      requires Sound(p)
      ensures |junk| == LzssTree.N
      ensures name !in entries ==> res == None
      ensures name in entries && res.Some? ==> res == Loaded(p, junk, entries[name], o, key)
      ensures name in entries && memory && |entries[name]| <= BUFFER_MAX && res == None ==>
                Loaded(p, junk, entries[name], o, key) == None
                || BUFFER_MAX < |Loaded(p, junk, entries[name], o, key).value|
      ensures name in entries && res.Some? && !o.raw ==> Holds(p, junk, entries[name], o, key, res.value)
      ensures name in entries && res.Some? && o.raw ==> res.value == entries[name] != []
      ensures name in entries && memory && |entries[name]| <= BUFFER_MAX && res == None ==>
                if o.raw then entries[name] == []
                else forall v {:trigger Holds(p, junk, entries[name], o, key, v)} ::
                       Holds(p, junk, entries[name], o, key, v) ==> BUFFER_MAX < |v|
    {
      if name !in entries {
        junk := Repeated<byte>(0, LzssTree.N);
        return None, junk;
      }
      res, junk := Load(entries[name], o, key, memory);
      ReadExactly(p, junk, entries[name], o, key);
    }

    method Load(data: seq<byte>, o: Options, key: Option<seq<byte>>, memory: bool)
      returns (res: Option<seq<byte>>, ghost junk: seq<byte>)
      requires Sound(p)
      ensures |junk| == LzssTree.N
      ensures res.Some? ==> res == Loaded(p, junk, data, o, key)
      ensures memory && |data| <= BUFFER_MAX && res == None ==>
                Loaded(p, junk, data, o, key) == None || BUFFER_MAX < |Loaded(p, junk, data, o, key).value|
    {
      junk := Repeated<byte>(0, LzssTree.N);
      if data == [] {
        return None, junk;
      }
      var payload := Some(data);
      if !o.raw {
        payload := CheckFrame(data, o);
        if payload.Some? && HasBit(data[3], 4) {
          payload := Decrypt(p, key, payload.value, memory);
        }
        if payload.Some? && HasBit(data[3], 2) {
          payload, junk := Decompress(payload.value, memory);
        }
      }
      if payload.Some? && !Allocates(memory, |payload.value|) {
        return None, junk;
      }
      res := payload;
    }

    /** The header and checksum tests of read. */
    method CheckFrame(data: seq<byte>, o: Options) returns (payload: Option<seq<byte>>)
      ensures payload == Unframed(p, data, o)
    {
      if |data| < HEADER_SIZE {
        return None;
      }
      var payloadSize := |data| - HEADER_SIZE;
      if data[0] as nat + 256 * data[1] as nat != 0xC717 || data[2] > 1 || !Grants(data[3], o) {
        return None;
      }
      if HasBit(data[3], 8) {
        if payloadSize < 4 {
          return None;
        }
        payloadSize := payloadSize - 4;
        var ncrc := p.crc32(data[..|data| - 4]);
        var ocrc := FromLE32(data[HEADER_SIZE + payloadSize..]);
        if ocrc != ncrc {
          return None;
        }
      }
      assert data[HEADER_SIZE..|data|] == data[HEADER_SIZE..];
      return Some(data[HEADER_SIZE..HEADER_SIZE + payloadSize]);
    }
  }

  /** A value that was written is read back, and only with options the writer used. */
  method WriteThenRead(s: NVStorage, name: string, src: seq<byte>, o: Options, o': Options, key: Option<seq<byte>>,
                       iv: seq<byte>)
    returns (ok: bool, overrun: bool, res: Option<seq<byte>>)
    requires Sound(s.p) && |iv| == BLOCK_SIZE && |src| + 2048 < 0x1_0000_0000 && !o.raw && !o'.raw
    modifies s
    ensures overrun ==> !ok && o.compressed && |src| > 8160
    ensures ok && res.Some? ==> res.value == src && MayAsk(o, o')
    ensures ok && MayAsk(o, o') && |src| <= BUFFER_MAX ==> res == Some(src)
  {
    ghost var packed;
    ok, overrun, packed := s.Write(name, src, o, key, iv, true, true);
    if !ok {
      return ok, overrun, None;
    }
    ghost var junk;
    res, junk := s.Read(name, o', key, true);
    StoredIsLoaded(s.p, junk, s.entries[name], src, o, o', key, iv, packed);
  }
}
