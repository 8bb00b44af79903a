/** compress_lzss: greedy matching over the sliding window, and the round trip with the decoder. */
module LzssEncoder {
  import opened Optional
  import opened LzssTree
  import opened Bytes
  import opened LzssStrings
  import opened LzssSearch
  import opened LzssFormat
  import opened LzssWindow
  import opened LzssCodeBuffer
  import opened LzssMeaning
  import opened LzssIndex
  import opened LzssGreedy
  import opened LzssEncodeState

  /** The encoder stands at text position R with the bytes up to hi read. */
  ghost predicate Scanning(sp: EncodeState, text: seq<byte>, R: int, hi: int)
    reads sp, sp.lchild, sp.rchild, sp.parent, sp.textBuf
  {
    && sp.Valid()
    && BufferHolds(sp.textBuf[..], text, R, hi)
    && LiveWindow(LiveSet(sp.sub), R)
    && N - F <= R && hi <= R + F
  }

  lemma MatchIsInWindow(buf: seq<byte>, live: set<int>, R: int, r: int, pos: int, len: int)
    requires |buf| == TEXT && LiveWindow(live, R) && r == R % N && r !in live
    requires IsLongestMatch(buf, live, r, pos, len)
    ensures MatchFacts(buf, R, pos, len)
  {
    if len > 0 {
      assert pos in live;
      assert Abs(pos, R) % N == pos;
    }
  }

  /** insert_node at the scan position, which must not be live yet. */
  method InsertHere(sp: EncodeState, r: int, ghost text: seq<byte>, ghost R: int, ghost hi: int)
    requires Scanning(sp, text, R, hi) && r == R % N && r !in LiveSet(sp.sub)
    requires Indexed(sp.textBuf[..], LiveSet(sp.sub), R, R)
    modifies sp, sp.lchild, sp.rchild, sp.parent
    ensures Scanning(sp, text, R, hi) && Indexed(sp.textBuf[..], LiveSet(sp.sub), R, R + 1)
    ensures BestMatch(sp.textBuf[..], R, sp.matchPosition, sp.matchLength)
  {
    ghost var live := LiveSet(sp.sub);
    sp.InsertNode(r);
    Registered(sp.textBuf[..], live, LiveSet(sp.sub), R, sp.matchPosition, sp.matchLength);
  }

  lemma Registered(buf: seq<byte>, live: set<int>, live': set<int>, R: int, pos: int, len: int)
    requires |buf| == TEXT && LiveWindow(live, R) && Indexed(buf, live, R, R) && N - F <= R && R % N !in live
    requires IsLongestMatch(buf, live, R % N, pos, len)
    requires live' == live - (if len == F then {pos} else {}) + {R % N}
    ensures LiveWindow(live', R) && Indexed(buf, live', R, R + 1) && BestMatch(buf, R, pos, len)
  {
    MatchIsInWindow(buf, live, R, R % N, pos, len);
    FoundIsBest(buf, live, R, pos, len);
    IndexTakes(buf, live, live', R, pos, len);
    assert Abs(R % N, R) == R;
  }

  lemma AbsMoves(x: int, R: int)
    requires 0 <= x < N && R + F - N <= Abs(x, R) && x != (R + F) % N
    ensures x != (R + 1) % N && Abs(x, R + 1) == Abs(x, R) && R + F - N < Abs(x, R)
  {
    var t := Abs(x, R);
    SameClass(R + F);
    assert t != R + F - N;
    AbsIs(x, R + 1, t);
    CloseMeansDistinct(t, R + 1);
  }

  lemma SameClass(a: int)
    ensures (a - N) % N == a % N
  {}

  lemma AbsIs(x: int, R: int, t: int)
    requires R - N < t <= R && t % N == x
    ensures Abs(x, R) == t
  {}

  lemma WindowMoves(live: set<int>, R: int)
    requires LiveWindow(live, R) && (R + F) % N !in live
    ensures LiveWindow(live, R + 1) && (R + 1) % N !in live
  {
    forall x | x in live ensures x != (R + 1) % N && Abs(x, R + 1) == Abs(x, R) && R + F - N < Abs(x, R) {
      AbsMoves(x, R);
    }
  }

  lemma RingSuccessor(x: int)
    ensures (x % N + 1) % N == (x + 1) % N
  {}

  /** The byte at hi goes to ring index hi % N, and to the mirror if that is near the start. */
  lemma BufferTakesByte(buf: seq<byte>, buf': seq<byte>, text: seq<byte>, R: int)
    requires BufferHolds(buf, text, R, R + F) && R + F < |text| && |buf'| == TEXT
    requires var s := (R + F) % N;
             forall x {:trigger buf'[x]} :: 0 <= x < TEXT ==>
               buf'[x] == if x == s || (s < F - 1 && x == s + N) then text[R + F] else buf[x]
    ensures BufferHolds(buf', text, R + 1, R + F + 1)
  {
    var hi := R + F;
    forall t | 0 <= t && R + 1 + F - N <= t < hi
      ensures buf'[t % N] == text[t] && (t >= N && t % N < F - 1 ==> buf'[t % N + N] == text[t])
    {
      CloseMeansDistinct(t, hi);
    }
  }

  lemma LiveStringsKept(buf: seq<byte>, buf': seq<byte>, live: set<int>, R: int, x: int)
    requires |buf| == |buf'| == TEXT && LiveWindow(live, R) && (R + F) % N !in live && x in live
    requires var s := (R + F) % N;
             forall y {:trigger buf'[y]} :: 0 <= y < TEXT && y != s && y != s + N ==> buf'[y] == buf[y]
    ensures StringAt(buf', x) == StringAt(buf, x)
  {
    forall k | 0 <= k < F ensures StringAt(buf', x)[k] == StringAt(buf, x)[k] {
      WriteMissesLiveStrings(live, R, x, k);
    }
  }

  /** Reads c into the slot freed by the deletion of the oldest string. */
  method ReadByte(sp: EncodeState, s: int, c: byte, ghost text: seq<byte>, ghost R: int) returns (ghost at: int)
    requires Scanning(sp, text, R, R + F) && R + F < |text| && c == text[R + F]
    requires s == (R + F) % N && s !in LiveSet(sp.sub)
    modifies sp.textBuf
    ensures at == R + 1 && Scanning(sp, text, at, at + F)
    ensures forall y {:trigger sp.textBuf[y]} :: 0 <= y < TEXT && y != s && y != s + N ==>
              sp.textBuf[y] == old(sp.textBuf[y])
  {
    ghost var buf, live := sp.textBuf[..], LiveSet(sp.sub);
    sp.textBuf[s] := c;
    if s < F - 1 {
      sp.textBuf[s + N] := c;
    }
    ghost var buf' := sp.textBuf[..];
    BufferTakesByte(buf, buf', text, R);
    forall x | Live(sp.sub, x) ensures StringAt(buf', x) == StringAt(buf, x) {
      assert x in live;
      LiveStringsKept(buf, buf', live, R, x);
    }
    TextChangeKeepsTree(sp.Now(), sp.sub, buf, buf');
    WindowMoves(live, R);
    at := R + 1;
  }

  /** One round of the reading loop: drop the oldest string, read a byte, register the next position. */
  method AdvanceReading(sp: EncodeState, s: int, r: int, c: byte, ghost text: seq<byte>, ghost R: int)
    returns (s': int, r': int, ghost at: int)
    requires Scanning(sp, text, R, R + F) && Indexed(sp.textBuf[..], LiveSet(sp.sub), R, R + 1)
    requires R + F < |text| && c == text[R + F] && s == (R + F) % N && r == R % N
    modifies sp, sp.lchild, sp.rchild, sp.parent, sp.textBuf
    ensures at == R + 1 && Scanning(sp, text, at, at + F) && Indexed(sp.textBuf[..], LiveSet(sp.sub), at, at + 1)
    ensures BestMatch(sp.textBuf[..], at, sp.matchPosition, sp.matchLength)
    ensures s' == (at + F) % N && r' == at % N
  {
    at := DropAndRead(sp, s, c, text, R);
    RingSuccessor(R + F);
    RingSuccessor(R);
    s', r' := (s + 1) % N, (r + 1) % N;
    InsertHere(sp, r', text, at, at + F);
  }

  method DropAndRead(sp: EncodeState, s: int, c: byte, ghost text: seq<byte>, ghost R: int) returns (ghost at: int)
    requires Scanning(sp, text, R, R + F) && Indexed(sp.textBuf[..], LiveSet(sp.sub), R, R + 1)
    requires R + F < |text| && c == text[R + F] && s == (R + F) % N
    modifies sp, sp.lchild, sp.rchild, sp.parent, sp.textBuf
    ensures at == R + 1 && Scanning(sp, text, at, at + F) && Indexed(sp.textBuf[..], LiveSet(sp.sub), at, at)
    ensures at % N !in LiveSet(sp.sub)
  {
    ghost var buf, live := sp.textBuf[..], LiveSet(sp.sub);
    sp.DeleteNode(s);
    WindowMoves(LiveSet(sp.sub), R);
    at := ReadByte(sp, s, c, text, R);
    IndexMoves(buf, sp.textBuf[..], live, R);
  }

  /** One round after the end of the source: nothing to read, and nothing to register once all is sent. */
  method AdvanceDraining(sp: EncodeState, s: int, r: int, len: int, ghost text: seq<byte>, ghost R: int, ghost hi: int)
    returns (s': int, r': int, len': int, ghost at: int)
    requires Scanning(sp, text, R, hi) && Indexed(sp.textBuf[..], LiveSet(sp.sub), R, R + 1)
    requires R < hi && len == hi - R && s == (R + F) % N && r == R % N
    modifies sp, sp.lchild, sp.rchild, sp.parent
    ensures at == R + 1 && Scanning(sp, text, at, hi) && len' == len - 1
    ensures len' > 0 ==> Indexed(sp.textBuf[..], LiveSet(sp.sub), at, at + 1)
                         && BestMatch(sp.textBuf[..], at, sp.matchPosition, sp.matchLength)
    ensures s' == (at + F) % N && r' == at % N
  {
    at := Drop(sp, s, text, R, hi);
    RingSuccessor(R + F);
    RingSuccessor(R);
    s', r' := (s + 1) % N, (r + 1) % N;
    len' := len - 1;
    if len' != 0 {
      InsertHere(sp, r', text, at, hi);
    }
  }

  method Drop(sp: EncodeState, s: int, ghost text: seq<byte>, ghost R: int, ghost hi: int) returns (ghost at: int)
    requires Scanning(sp, text, R, hi) && Indexed(sp.textBuf[..], LiveSet(sp.sub), R, R + 1)
    requires R < hi && s == (R + F) % N
    modifies sp, sp.lchild, sp.rchild, sp.parent
    ensures at == R + 1 && Scanning(sp, text, at, hi) && Indexed(sp.textBuf[..], LiveSet(sp.sub), at, at)
    ensures at % N !in LiveSet(sp.sub)
  {
    ghost var buf, live := sp.textBuf[..], LiveSet(sp.sub);
    sp.DeleteNode(s);
    WindowMoves(LiveSet(sp.sub), R);
    IndexMoves(buf, buf, live, R);
    at := R + 1;
  }

  // ---------- start ----------

  /** The ring right after the first bytes have been read behind the spaces. */
  lemma FirstBuffer(buf: seq<byte>, src: seq<byte>, len: int)
    requires |buf| == TEXT && 0 <= len <= F && len <= |src|
    requires forall i {:trigger buf[i]} :: 0 <= i < N - F ==> buf[i] == 32
    requires forall i {:trigger buf[i]} :: N - F <= i < N - F + len ==> buf[i] == src[i - (N - F)]
    ensures BufferHolds(buf, Spaces() + src, N - F, N - F + len)
  {}

  lemma BeforeTheText(x: int)
    requires N - 2 * F <= x < N - F
    ensures Abs(x, N - F) == x
  {}

  /** Reads up to F bytes and registers the F strings that start in the spaces, then the first text string. */
  method Start(src: seq<byte>) returns (sp: EncodeState, len: int)
    requires src != []
    ensures fresh(sp) && fresh(sp.lchild) && fresh(sp.rchild) && fresh(sp.parent) && fresh(sp.textBuf)
    ensures len == if |src| < F then |src| else F
    ensures Scanning(sp, Spaces() + src, N - F, N - F + len)
    ensures Indexed(sp.textBuf[..], LiveSet(sp.sub), N - F, N - F + 1)
    ensures BestMatch(sp.textBuf[..], N - F, sp.matchPosition, sp.matchLength)
  {
    ghost var text := Spaces() + src;
    sp, len := StartReading(src);
    assert text[..N - F] == Spaces();
    var r := N - F;
    InsertSpaces(sp, r, text, r + len);
    InsertHere(sp, r, text, r, r + len);
  }

  method StartReading(src: seq<byte>) returns (sp: EncodeState, len: int)
    requires src != []
    ensures fresh(sp) && fresh(sp.lchild) && fresh(sp.rchild) && fresh(sp.parent) && fresh(sp.textBuf)
    ensures len == if |src| < F then |src| else F
    ensures Scanning(sp, Spaces() + src, N - F, N - F + len) && LiveSet(sp.sub) == {}
  {
    sp := new EncodeState();
    len := ReadFirst(sp, src);
    FirstBuffer(sp.textBuf[..], src, len);
  }

  method InsertSpaces(sp: EncodeState, r: int, ghost text: seq<byte>, ghost hi: int)
    requires Scanning(sp, text, r, hi) && r == N - F && LiveSet(sp.sub) == {} && text[..N - F] == Spaces()
    modifies sp, sp.lchild, sp.rchild, sp.parent
    ensures Scanning(sp, text, r, hi) && r !in LiveSet(sp.sub) && Indexed(sp.textBuf[..], LiveSet(sp.sub), r, r)
  {
    ghost var buf := sp.textBuf[..];
    SpacesInBuffer(buf, text, hi);
    for i := 1 to F + 1
      invariant Scanning(sp, text, r, hi) && sp.textBuf[..] == buf && Spaced(buf, LiveSet(sp.sub), r - i + 1)
    {
      InsertSpace(sp, r - i, text, hi);
    }
    SpacedIsIndexed(buf, LiveSet(sp.sub));
  }

  lemma SpacesInBuffer(buf: seq<byte>, text: seq<byte>, hi: int)
    requires BufferHolds(buf, text, N - F, hi) && text[..N - F] == Spaces()
    ensures forall k {:trigger buf[k]} :: 0 <= k < N - F ==> buf[k] == 32
  {
    forall k | 0 <= k < N - F ensures buf[k] == 32 {
      assert text[k] == text[..N - F][k] && k % N == k;
    }
  }

  method InsertSpace(sp: EncodeState, x: int, ghost text: seq<byte>, ghost hi: int)
    requires Scanning(sp, text, N - F, hi) && N - 2 * F <= x < N - F && Spaced(sp.textBuf[..], LiveSet(sp.sub), x + 1)
    requires forall k {:trigger sp.textBuf[..][k]} :: 0 <= k < N - F ==> sp.textBuf[..][k] == 32
    modifies sp, sp.lchild, sp.rchild, sp.parent
    ensures Scanning(sp, text, N - F, hi) && Spaced(sp.textBuf[..], LiveSet(sp.sub), x)
  {
    ghost var live := LiveSet(sp.sub);
    assert x !in live;
    sp.InsertNode(x);
    SpaceTakes(sp.textBuf[..], live, LiveSet(sp.sub), x, sp.matchPosition, sp.matchLength);
    BeforeTheText(x);
  }

  method ReadFirst(sp: EncodeState, src: seq<byte>) returns (len: int)
    requires sp.Valid() && LiveSet(sp.sub) == {}
    requires forall i {:trigger sp.textBuf[i]} :: 0 <= i < N - F ==> sp.textBuf[i] == 32
    modifies sp.textBuf
    ensures sp.Valid() && LiveSet(sp.sub) == {}
    ensures len == if |src| < F then |src| else F
    ensures forall i {:trigger sp.textBuf[i]} :: 0 <= i < N - F ==> sp.textBuf[i] == 32
    ensures forall i {:trigger sp.textBuf[i]} :: N - F <= i < N - F + len ==> sp.textBuf[i] == src[i - (N - F)]
  {
    ghost var text := sp.textBuf[..];
    len := 0;
    while len < F && len < |src|
      invariant 0 <= len <= F && len <= |src|
      invariant forall i {:trigger sp.textBuf[i]} :: 0 <= i < N - F ==> sp.textBuf[i] == 32
      invariant forall i {:trigger sp.textBuf[i]} :: N - F <= i < N - F + len ==> sp.textBuf[i] == src[i - (N - F)]
    {
      sp.textBuf[N - F + len] := src[len];
      len := len + 1;
    }
    assert forall x :: Live(sp.sub, x) ==> x in LiveSet(sp.sub);
    TextChangeKeepsTree(sp.Now(), sp.sub, text, sp.textBuf[..]);
  }

  /** Emits the unit for the recorded match, or a literal when it is too short to pay. */
  method SendUnit(sp: EncodeState, codeBuf: array<byte>, ptr: int, mask: int, len: int, r: int,
                  ghost text: seq<byte>, ghost R: int, ghost hi: int, ghost dst: seq<byte>, ghost d: nat,
                  ghost done: seq<Unit>, ghost g: seq<Unit>)
    returns (ptr': int, mask': int, ghost u: Unit)
    requires Scanning(sp, text, R, hi) && BestMatch(sp.textBuf[..], R, sp.matchPosition, sp.matchLength)
    requires len == hi - R && len > 0 && r == R % N && (hi == |text| || hi == R + F)
    requires codeBuf != sp.textBuf && codeBuf as object != sp.lchild && codeBuf as object != sp.rchild
             && codeBuf as object != sp.parent
    requires Buffered(dst, d, codeBuf[..], ptr, mask, done, g) && |g| < 8
    modifies sp`matchLength, codeBuf
    ensures Buffered(dst, d, codeBuf[..], ptr', mask', done, g + [u])
    ensures 1 <= sp.matchLength <= len && Leads(u, text, R, R + sp.matchLength)
    ensures Greedy(u, text, R) && Size(u) == sp.matchLength
  {
    SentIsGreedy(sp.textBuf[..], text, R, hi, sp.matchPosition, sp.matchLength);
    SentLeads(sp.textBuf[..], text, R, hi, sp.matchPosition, sp.matchLength);
    if sp.matchLength > len {
      sp.matchLength := len;
    }
    u := Sent(text, R, sp.matchPosition, sp.matchLength);
    if sp.matchLength <= THRESHOLD {
      sp.matchLength := 1;
      ptr', mask' := PutLiteral(codeBuf, ptr, mask, sp.textBuf[r], dst, d, done, g);
    } else {
      ptr', mask' := PutReference(codeBuf, ptr, mask, sp.matchPosition, sp.matchLength, dst, d, done, g);
    }
  }

  lemma SentLeads(buf: seq<byte>, text: seq<byte>, R: int, hi: int, pos: int, found: int)
    requires BufferHolds(buf, text, R, hi) && MatchFacts(buf, R, pos, found) && R < hi
    ensures var u := Sent(text, R, pos, Least(found, hi - R));
            && Leads(u, text, R, R + Size(u)) && 1 <= Size(u) <= hi - R && buf[R % N] == text[R]
            && (u.Reference? ==> 0 <= pos < N)
  {
    var len := Least(found, hi - R);
    LiteralLeads(buf, text, R, hi);
    if len > THRESHOLD {
      ReferenceLeads(buf, text, R, hi, pos, found, len);
    }
  }

  lemma LiteralLeads(buf: seq<byte>, text: seq<byte>, R: int, hi: int)
    requires BufferHolds(buf, text, R, hi) && R < hi
    ensures buf[R % N] == text[R] && Leads(Literal(text[R]), text, R, R + 1)
  {
    assert text[..R] + [text[R]] == text[..R + 1];
  }

  lemma ReferenceLeads(buf: seq<byte>, text: seq<byte>, R: int, hi: int, pos: int, found: int, len: int)
    requires BufferHolds(buf, text, R, hi) && MatchFacts(buf, R, pos, found)
    requires THRESHOLD < len <= found && R + len <= hi
    ensures Leads(Reference(pos, len), text, R, R + len)
  {
    forall junk: seq<byte> | |junk| == N ensures Apply(junk, text[..R], Reference(pos, len)) == text[..R + len] {
      MatchDecodes(junk, buf, text, R, hi, pos, found, len);
    }
  }

  /** The encoder's variables when the scan is at position R. */
  ghost predicate Standing(sp: EncodeState, src: seq<byte>, pos: int, s: int, r: int, len: int, R: int)
    reads sp, sp.lchild, sp.rchild, sp.parent, sp.textBuf
  {
    && 0 <= pos <= |src|
    && Scanning(sp, Spaces() + src, R, N - F + pos)
    && len == N - F + pos - R && (pos < |src| ==> len == F)
    && s == (R + F) % N && r == R % N
    && (len > 0 ==> Indexed(sp.textBuf[..], LiveSet(sp.sub), R, R + 1))
  }

  /** The reading loop: at most count rounds, fewer when the source ends. */
  method AdvanceAndRead(sp: EncodeState, src: seq<byte>, pos0: int, s0: int, r0: int, len: int, count: int,
                        ghost R: int)
    returns (i: int, pos: int, s: int, r: int, ghost at: int)
    requires Standing(sp, src, pos0, s0, r0, len, R) && 1 <= count
    modifies sp, sp.lchild, sp.rchild, sp.parent, sp.textBuf
    ensures 0 <= i <= count && at == R + i && Standing(sp, src, pos, s, r, len, at)
    ensures i == count || pos == |src|
    ensures i > 0 ==> BestMatch(sp.textBuf[..], at, sp.matchPosition, sp.matchLength)
  {
    i, pos, s, r, at := 0, pos0, s0, r0, R;
    while i < count && pos < |src|
      invariant 0 <= i <= count && at == R + i && Standing(sp, src, pos, s, r, len, at)
      invariant i > 0 ==> BestMatch(sp.textBuf[..], at, sp.matchPosition, sp.matchLength)
    {
      pos, s, r, at := ReadOne(sp, src, pos, s, r, len, at);
      i := i + 1;
    }
  }

  method ReadOne(sp: EncodeState, src: seq<byte>, pos0: int, s0: int, r0: int, ghost len: int, ghost R: int)
    returns (pos: int, s: int, r: int, ghost at: int)
    requires Standing(sp, src, pos0, s0, r0, len, R) && pos0 < |src|
    modifies sp, sp.lchild, sp.rchild, sp.parent, sp.textBuf
    ensures pos == pos0 + 1 && at == R + 1 && Standing(sp, src, pos, s, r, len, at)
    ensures BestMatch(sp.textBuf[..], at, sp.matchPosition, sp.matchLength)
  {
    s, r, at := AdvanceReading(sp, s0, r0, src[pos0], Spaces() + src, R);
    pos := pos0 + 1;
    assert at + F == N - F + pos;
  }

  /** The draining loop: the remaining rounds, once the source has ended. */
  method AdvanceAndDrain(sp: EncodeState, src: seq<byte>, s0: int, r0: int, len0: int, i0: int, count: int,
                         ghost R: int)
    returns (s: int, r: int, len: int, ghost at: int)
    requires Standing(sp, src, |src|, s0, r0, len0, R) && i0 < count && count - i0 <= len0
    modifies sp, sp.lchild, sp.rchild, sp.parent
    ensures at == R + (count - i0) && Standing(sp, src, |src|, s, r, len, at)
    ensures len > 0 ==> BestMatch(sp.textBuf[..], at, sp.matchPosition, sp.matchLength)
  {
    s, r, len, at := s0, r0, len0, R;
    var i := i0;
    while i < count
      invariant i0 <= i <= count && count - i <= len && at == R + (i - i0) && Standing(sp, src, |src|, s, r, len, at)
      invariant i > i0 && len > 0 ==> BestMatch(sp.textBuf[..], at, sp.matchPosition, sp.matchLength)
    {
      s, r, len, at := DrainOne(sp, src, s, r, len, at);
      i := i + 1;
    }
  }

  method DrainOne(sp: EncodeState, src: seq<byte>, s0: int, r0: int, len0: int, ghost R: int)
    returns (s: int, r: int, len: int, ghost at: int)
    requires Standing(sp, src, |src|, s0, r0, len0, R) && len0 > 0
    modifies sp, sp.lchild, sp.rchild, sp.parent
    ensures at == R + 1 && Standing(sp, src, |src|, s, r, len, at) && len == len0 - 1
    ensures len > 0 ==> BestMatch(sp.textBuf[..], at, sp.matchPosition, sp.matchLength)
  {
    s, r, len, at := AdvanceDraining(sp, s0, r0, len0, Spaces() + src, R, N - F + |src|);
  }

  /** Moves the window count positions on, reading while there is something to read. */
  method Advance(sp: EncodeState, src: seq<byte>, pos0: int, s0: int, r0: int, len0: int, count: int, ghost R: int)
    returns (pos: int, s: int, r: int, len: int, ghost at: int)
    requires Standing(sp, src, pos0, s0, r0, len0, R) && 1 <= count <= len0
    modifies sp, sp.lchild, sp.rchild, sp.parent, sp.textBuf
    ensures at == R + count && Standing(sp, src, pos, s, r, len, at)
    ensures len > 0 ==> BestMatch(sp.textBuf[..], at, sp.matchPosition, sp.matchLength)
  {
    var i;
    i, pos, s, r, at := AdvanceAndRead(sp, src, pos0, s0, r0, len0, count, R);
    len := len0;
    if i < count {
      s, r, len, at := AdvanceAndDrain(sp, src, s, r, len, i, count, at);
    }
  }

  // ---------- compress_lzss ----------

  /** Units sent so far, those waiting in the code buffer included, and the state of both buffers. */
  ghost predicate Sending(dst: seq<byte>, d: nat, codeBuf: seq<byte>, ptr: int, mask: int, src: seq<byte>, R: int,
                          done: seq<Unit>, g: seq<Unit>) {
    && Buffered(dst, d, codeBuf, ptr, mask, done, g)
    && Means(done + g, Spaces() + src, R) && N - F <= R
    && AreGreedy(done + g, Spaces() + src, R)
  }

  /** The units follow the greedy law as far as they go. */
  ghost predicate IsGreedy(us: seq<Unit>, src: seq<byte>) {
    exists R {:trigger AreGreedy(us, Spaces() + src, R)} :: AreGreedy(us, Spaces() + src, R)
  }

  lemma SendingStart(dst: seq<byte>, codeBuf: seq<byte>, src: seq<byte>)
    requires |codeBuf| == 17 && codeBuf[0] == 0
    ensures Sending(dst, 0, codeBuf, 1, 1, src, N - F, [], [])
  {
    var text := Spaces() + src;
    assert text[..N - F] == Spaces();
    var none: seq<Unit> := [];
    assert none + none == none;
  }

  lemma UnitSent(dst: seq<byte>, d: nat, codeBuf: seq<byte>, ptr: int, mask: int, src: seq<byte>, R: int, E: int,
                 done: seq<Unit>, g: seq<Unit>, u: Unit)
    requires Means(done + g, Spaces() + src, R) && AreGreedy(done + g, Spaces() + src, R) && N - F <= R
    requires Buffered(dst, d, codeBuf, ptr, mask, done, g + [u]) && Leads(u, Spaces() + src, R, E)
    requires Greedy(u, Spaces() + src, R) && E == R + Size(u)
    ensures Sending(dst, d, codeBuf, ptr, mask, src, E, done, g + [u])
  {
    MeansAppend(done + g, u, Spaces() + src, R, E);
    GreedyAppend(done + g, u, Spaces() + src, R);
    assert done + g + [u] == done + (g + [u]);
  }

  /** Empties a full code buffer. */
  method FlushGroup(dst: array<byte>, d0: nat, codeBuf: array<byte>, ptr: int, mask: int, src: seq<byte>,
                    ghost R: int, ghost done: seq<Unit>, ghost g: seq<Unit>)
    returns (ok: bool, d: nat)
    requires dst != codeBuf && Sending(dst[..], d0, codeBuf[..], ptr, mask, src, R, done, g) && |g| == 8
    modifies dst, codeBuf
    ensures ok ==> Sending(dst[..], d, codeBuf[..], 1, 1, src, R, done + g, [])
    ensures !ok ==> TooLong(done + g, src, dst.Length) && IsGreedy(done + g, src)
  {
    ok, d := Flush(dst, d0, codeBuf, ptr, mask, done, g);
    codeBuf[0] := 0;
    assert done + g + [] == done + g;
  }

  lemma MaskIsZeroWhenFull(k: nat)
    requires k <= 8
    ensures Pow2(k) % 256 == 0 <==> k == 8
  {}

  /** One unit: emit it, and flush the group when it is full. */
  method SendAndFlush(sp: EncodeState, dst: array<byte>, d0: nat, codeBuf: array<byte>, ptr0: int, mask0: int,
                      src: seq<byte>, ghost pos: int, ghost s: int, r: int, len: int, ghost R: int,
                      ghost done0: seq<Unit>, ghost g0: seq<Unit>)
    returns (ok: bool, d: nat, ptr: int, mask: int, ghost done: seq<Unit>, ghost g: seq<Unit>, ghost E: int)
    requires Standing(sp, src, pos, s, r, len, R) && len > 0
    requires BestMatch(sp.textBuf[..], R, sp.matchPosition, sp.matchLength)
    requires dst != codeBuf && Apart(dst, sp) && Apart(codeBuf, sp)
    requires Sending(dst[..], d0, codeBuf[..], ptr0, mask0, src, R, done0, g0) && |g0| < 8
    modifies sp`matchLength, dst, codeBuf
    ensures Standing(sp, src, pos, s, r, len, R) && 1 <= sp.matchLength <= len && E == R + sp.matchLength
    ensures ok ==> Sending(dst[..], d, codeBuf[..], ptr, mask, src, E, done, g) && |g| < 8
    ensures !ok ==> TooLong(done + g, src, dst.Length) && IsGreedy(done + g, src)
  {
    ghost var u;
    ptr, mask, u, E := Send(sp, dst, d0, codeBuf, ptr0, mask0, src, pos, s, r, len, R, done0, g0);
    ok, d, ptr, mask, done, g := FlushIfFull(dst, d0, codeBuf, ptr, mask, src, E, done0, g0 + [u]);
  }

  method Send(sp: EncodeState, ghost dst: array<byte>, ghost d: nat, codeBuf: array<byte>, ptr0: int, mask0: int,
              ghost src: seq<byte>, ghost pos: int, ghost s: int, r: int, len: int, ghost R: int,
              ghost done: seq<Unit>, ghost g: seq<Unit>)
    returns (ptr: int, mask: int, ghost u: Unit, ghost E: int)
    requires Standing(sp, src, pos, s, r, len, R) && len > 0
    requires BestMatch(sp.textBuf[..], R, sp.matchPosition, sp.matchLength)
    requires dst != codeBuf && Apart(codeBuf, sp)
    requires Sending(dst[..], d, codeBuf[..], ptr0, mask0, src, R, done, g) && |g| < 8
    modifies sp`matchLength, codeBuf
    ensures Standing(sp, src, pos, s, r, len, R) && 1 <= sp.matchLength <= len && E == R + sp.matchLength
    ensures Sending(dst[..], d, codeBuf[..], ptr, mask, src, E, done, g + [u])
  {
    ptr, mask, u := SendUnit(sp, codeBuf, ptr0, mask0, len, r, Spaces() + src, R, N - F + pos, dst[..], d, done, g);
    E := R + sp.matchLength;
    UnitSent(dst[..], d, codeBuf[..], ptr, mask, src, R, E, done, g, u);
  }

  method FlushIfFull(dst: array<byte>, d0: nat, codeBuf: array<byte>, ptr0: int, mask0: int, src: seq<byte>,
                     ghost R: int, ghost done0: seq<Unit>, ghost g0: seq<Unit>)
    returns (ok: bool, d: nat, ptr: int, mask: int, ghost done: seq<Unit>, ghost g: seq<Unit>)
    requires dst != codeBuf && Sending(dst[..], d0, codeBuf[..], ptr0, mask0, src, R, done0, g0) && |g0| <= 8
    modifies dst, codeBuf
    ensures ok ==> Sending(dst[..], d, codeBuf[..], ptr, mask, src, R, done, g) && |g| < 8
    ensures !ok ==> TooLong(done + g, src, dst.Length) && IsGreedy(done + g, src)
  {
    ok, d, ptr, mask, done, g := true, d0, ptr0, mask0, done0, g0;
    MaskIsZeroWhenFull(|g|);
    if mask == 0 {
      ok, d := FlushGroup(dst, d0, codeBuf, ptr, mask, src, R, done, g);
      ptr, mask, done, g := 1, 1, done + g, [];
      assert done + g == done;
    }
  }

  /** a is none of sp's arrays. */
  ghost predicate Apart(a: array<byte>, sp: EncodeState) {
    a != sp.textBuf && a as object != sp.lchild && a as object != sp.rchild && a as object != sp.parent
  }

  /** Everything the main loop keeps. */
  ghost predicate Running(sp: EncodeState, dst: array<byte>, d: nat, codeBuf: array<byte>, ptr: int, mask: int,
                          src: seq<byte>, pos: int, s: int, r: int, len: int, R: int, done: seq<Unit>, g: seq<Unit>)
    reads sp, sp.lchild, sp.rchild, sp.parent, sp.textBuf, dst, codeBuf
  {
    && dst != codeBuf && Apart(dst, sp) && Apart(codeBuf, sp)
    && Standing(sp, src, pos, s, r, len, R)
    && (len > 0 ==> BestMatch(sp.textBuf[..], R, sp.matchPosition, sp.matchLength))
    && Sending(dst[..], d, codeBuf[..], ptr, mask, src, R, done, g) && |g| < 8
  }

  /** After a unit has been sent, the encoder moves past the bytes it stands for. */
  method MoveOn(sp: EncodeState, ghost dst: array<byte>, ghost d: nat, ghost codeBuf: array<byte>, ghost ptr: int,
                ghost mask: int, src: seq<byte>, pos0: int, s0: int, r0: int, len0: int, ghost R: int, ghost E: int,
                ghost done: seq<Unit>, ghost g: seq<Unit>)
    returns (pos: int, s: int, r: int, len: int)
    requires Standing(sp, src, pos0, s0, r0, len0, R) && 1 <= sp.matchLength <= len0 && E == R + sp.matchLength
    requires dst != codeBuf && Apart(dst, sp) && Apart(codeBuf, sp)
    requires Sending(dst[..], d, codeBuf[..], ptr, mask, src, E, done, g) && |g| < 8
    modifies sp, sp.lchild, sp.rchild, sp.parent, sp.textBuf
    ensures Running(sp, dst, d, codeBuf, ptr, mask, src, pos, s, r, len, E, done, g)
  {
    ghost var out, code := dst[..], codeBuf[..];
    ghost var at;
    pos, s, r, len, at := Advance(sp, src, pos0, s0, r0, len0, sp.matchLength, R);
    assert dst[..] == out && codeBuf[..] == code;
  }

  /** One round of the main loop. */
  method Round(sp: EncodeState, dst: array<byte>, d0: nat, codeBuf: array<byte>, ptr0: int, mask0: int,
               src: seq<byte>, pos0: int, s0: int, r0: int, len0: int, ghost R0: int, ghost done0: seq<Unit>,
               ghost g0: seq<Unit>)
    returns (ok: bool, d: nat, ptr: int, mask: int, pos: int, s: int, r: int, len: int, ghost R: int,
             ghost done: seq<Unit>, ghost g: seq<Unit>)
    requires Running(sp, dst, d0, codeBuf, ptr0, mask0, src, pos0, s0, r0, len0, R0, done0, g0) && len0 > 0
    modifies sp, sp.lchild, sp.rchild, sp.parent, sp.textBuf, dst, codeBuf
    ensures ok ==> R0 < R && Running(sp, dst, d, codeBuf, ptr, mask, src, pos, s, r, len, R, done, g)
    ensures !ok ==> TooLong(done + g, src, dst.Length) && IsGreedy(done + g, src)
  {
    ok, d, ptr, mask, done, g, R :=
      SendAndFlush(sp, dst, d0, codeBuf, ptr0, mask0, src, pos0, s0, r0, len0, R0, done0, g0);
    pos, s, r, len := pos0, s0, r0, len0;
    if ok {
      pos, s, r, len := MoveOn(sp, dst, d, codeBuf, ptr, mask, src, pos, s, r, len, R0, R, done, g);
    }
  }

  /** Sends what is left in the code buffer. */
  method Finish(dst: array<byte>, d0: nat, codeBuf: array<byte>, ptr: int, mask: int, src: seq<byte>,
                ghost done: seq<Unit>, ghost g: seq<Unit>, ghost R: int)
    returns (res: Option<nat>)
    requires dst != codeBuf && src != []
    requires R == N - F + |src| && Sending(dst[..], d0, codeBuf[..], ptr, mask, src, R, done, g)
    modifies dst
    ensures res.Some? ==> res.value <= dst.Length && dst[..res.value] == Pack(done + g)
    ensures res.None? ==> TooLong(done + g, src, dst.Length)
  {
    ghost var us := done + g;
    if ptr > 1 {
      var ok, d := Flush(dst, d0, codeBuf, ptr, mask, done, g);
      return if ok then Some(d) else None;
    }
    BodiesLength(g);
    assert us == done;
    return Some(d0);
  }

  /** The main loop, from the first match on. */
  method SendAll(sp: EncodeState, dst: array<byte>, codeBuf: array<byte>, src: seq<byte>, len0: int)
    returns (ok: bool, d: nat, ptr: int, mask: int, ghost done: seq<Unit>, ghost g: seq<Unit>, ghost R: int)
    requires Running(sp, dst, 0, codeBuf, 1, 1, src, len0, 0, N - F, len0, N - F, [], [])
    modifies sp, sp.lchild, sp.rchild, sp.parent, sp.textBuf, dst, codeBuf
    ensures if ok then R == N - F + |src| && Sending(dst[..], d, codeBuf[..], ptr, mask, src, R, done, g)
            else TooLong(done + g, src, dst.Length) && IsGreedy(done + g, src)
  {
    var r, s, pos, len := N - F, 0, len0, len0;
    ok, d, ptr, mask, done, g, R := true, 0, 1, 1, [], [], N - F;
    while len > 0
      invariant Running(sp, dst, d, codeBuf, ptr, mask, src, pos, s, r, len, R, done, g)
      decreases N - F + |src| - R
    {
      ok, d, ptr, mask, pos, s, r, len, R, done, g :=
        Round(sp, dst, d, codeBuf, ptr, mask, src, pos, s, r, len, R, done, g);
      if !ok {
        return;
      }
    }
    ok := true;
  }

  /** What the caller is told follows from the units. */
  lemma Conclude(src: seq<byte>, us: seq<Unit>, dst: seq<byte>, res: Option<nat>)
    requires Complete(us, src) && src != [] && (res.None? ==> TooLong(us, src, |dst|))
    requires res.Some? ==> res.value <= |dst| && dst[..res.value] == Pack(us)
    ensures |dst| >= Bound(|src|) ==> res.Some?
    ensures res.Some? ==> 0 < res.value <= Bound(|src|)
    ensures res.Some? ==> forall junk: seq<byte> | |junk| == N :: Decode(junk, dst[..res.value], |src|) == src
  {
    MeansIsBounded(us, src, N - F + |src|);
    MeansDecodes(us, src);
    SomethingSent(us, src);
    if res.None? {
      TooLongIsBounded(us, src, |dst|);
    }
  }

  /**
    compress_lzss. us are the units sent, each the longest match or a literal. A result is their packed form,
    decodes to src whatever the decoder's ring holds at first, and never exceeds the bound; otherwise, unless the
    source is empty or allocation failed, the units do not fit.
   */
  method CompressLzss(dst: array<byte>, src: seq<byte>, memory: bool) returns (res: Option<nat>, ghost us: seq<Unit>)
    modifies dst
    ensures res.Some? ==> Complete(us, src) && res.value <= dst.Length && dst[..res.value] == Pack(us)
    ensures res.None? && memory && src != [] ==> TooLong(us, src, dst.Length)
    ensures memory && src != [] ==> IsGreedy(us, src)
    ensures !memory || src == [] ==> res == None
    ensures memory && src != [] && dst.Length >= Bound(|src|) ==> res.Some?
    ensures res.Some? ==> 0 < res.value <= dst.Length && res.value <= Bound(|src|)
    ensures res.Some? ==> forall junk: seq<byte> | |junk| == N :: Decode(junk, dst[..res.value], |src|) == src
  {
    us := [];
    if !memory || src == [] {
      return None, us;
    }
    var sp, len := Start(src);
    var codeBuf := new byte[17];
    codeBuf[0] := 0;
    SendingStart(dst[..], codeBuf[..], src);
    var ok, d, ptr, mask;
    ghost var done, g;
    ghost var R;
    ok, d, ptr, mask, done, g, R := SendAll(sp, dst, codeBuf, src, len);
    us := done + g;
    if !ok {
      TooLongIsBounded(us, src, dst.Length);
      return None, us;
    }
    res := Finish(dst, d, codeBuf, ptr, mask, src, done, g, R);
    Conclude(src, us, dst[..], res);
  }
}
