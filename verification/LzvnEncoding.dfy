/** What a stream that an encoder lays out is decoded to, and which opcodes are none. */
module LzvnEncoding {
  import opened Bytes
  import opened LzvnFormat
  import opened LzvnStream
  import opened LzvnDecoder

  /** Exactly these opcodes are undefined, do nothing, or end the stream. */
  lemma OpcodeClasses(opc: byte)
    ensures KindOf(opc) == Udef <==>
            opc == 30 || opc == 38 || opc == 46 || opc == 54 || opc == 62 || 112 <= opc <= 127 || 208 <= opc <= 223
    ensures KindOf(opc) == Nop <==> opc == 14 || opc == 22
    ensures KindOf(opc) == Eos <==> opc == 6
  {}

  /** An instruction with its literals, or a byte that does nothing. */
  datatype Token = Token(i: Instruction, literals: seq<byte>) | Pause(b: byte)

  predicate ValidToken(t: Token) {
    match t
    case Token(i, literals) => Encodable(i) && |literals| == LiteralCount(i)
    case Pause(b) => b == 14 || b == 22
  }

  function TokenBytes(t: Token): seq<byte>
    requires ValidToken(t)
  {
    match t
    case Token(i, literals) => Encode(i) + literals
    case Pause(b) => [b]
  }

  ghost predicate ValidTokens(ts: seq<Token>) {
    forall i {:trigger ts[i]} :: 0 <= i < |ts| ==> ValidToken(ts[i])
  }

  /**
    What stands behind the tokens: the end of the stream, 6 and seven bytes more; a token cut off so that no byte
    follows it; a byte that is no opcode; 6 with too few bytes behind; a token whose match reaches too far back.
   */
  datatype Ending =
    | Ended(tail: seq<byte>)
    | Broken(t: Token, k: nat)
    | Undefined(b: byte, tail: seq<byte>)
    | TooShort(tail: seq<byte>)
    | Rejected(t: Token, tail: seq<byte>)

  predicate ValidEnding(e: Ending) {
    match e
    case Ended(tail) => |tail| >= 7
    case Broken(t, k) => ValidToken(t) && 0 < k <= |TokenBytes(t)|
    case Undefined(b, _) => b == 30 || b == 38 || b == 46 || b == 54 || b == 62 || 112 <= b <= 127 || 208 <= b <= 223
    case TooShort(tail) => |tail| < 7
    case Rejected(t, tail) => ValidToken(t) && t.Token? && !t.i.SmallMatch? && !t.i.LargeMatch? && tail != []
  }

  function EndingBytes(e: Ending): (s: seq<byte>)
    requires ValidEnding(e)
    ensures s != []
  {
    match e
    case Ended(tail) => [6] + tail
    case Broken(t, k) => TokenBytes(t)[..k]
    case Undefined(b, tail) => [b] + tail
    case TooShort(tail) => [6] + tail
    case Rejected(t, tail) => TokenBytes(t) + tail
  }

  /** One token after the other, and the ending. */
  function Stream(ts: seq<Token>, e: Ending): (s: seq<byte>)
    requires ValidTokens(ts) && ValidEnding(e)
    ensures s != []
  {
    if ts == [] then EndingBytes(e) else TokenBytes(ts[0]) + Stream(ts[1..], e)
  }

  // ---------- what tokens mean ----------

  function MatchCount(i: Instruction): nat {
    if i.SmallLiteral? || i.LargeLiteral? then 0 else i.M
  }

  /** The distance of an instruction that has one, else the one carried over. */
  function DistanceOf(i: Instruction, D: nat): nat {
    if i.SmallDistance? || i.MediumDistance? || i.LargeDistance? then i.D else D
  }

  /** M more bytes, each the one D before it. */
  function Repeat(out: seq<byte>, D: nat, M: nat): (r: seq<byte>)
    requires M > 0 ==> 0 < D <= |out|
    ensures |r| == |out| + M && r[..|out|] == out
    ensures forall k {:trigger r[k]} :: |out| <= k < |r| ==> r[k] == r[k - D]
    decreases M
  {
    if M == 0 then out
    else
      var r := Repeat(out, D, M - 1);
      r + [r[|r| - D]]
  }

  /** A match lies within what has been put out. */
  predicate TokenInRange(t: Token, n: nat, D: nat) {
    t.Token? && MatchCount(t.i) > 0 ==> 0 < DistanceOf(t.i, D) <= n + |t.literals|
  }

  /** The literals of a token, and what its match repeats. */
  function After(t: Token, out: seq<byte>, D: nat): (next: seq<byte>)
    requires TokenInRange(t, |out|, D)
    ensures |next| == |out| + TokenSize(t)
  {
    match t
    case Token(i, literals) => Repeat(out + literals, DistanceOf(i, D), MatchCount(i))
    case Pause(_) => out
  }

  function TokenSize(t: Token): nat {
    match t
    case Token(i, literals) => |literals| + MatchCount(i)
    case Pause(_) => 0
  }

  function DistanceAfter(t: Token, D: nat): nat {
    match t
    case Token(i, _) => DistanceOf(i, D)
    case Pause(_) => D
  }

  /** All matches of the tokens lie within what is out before them, that of a rejected token does not. */
  ghost predicate InRange(ts: seq<Token>, e: Ending, n: nat, D: nat) {
    if ts == [] then e.Rejected? ==> !TokenInRange(e.t, n, D)
    else TokenInRange(ts[0], n, D) && InRange(ts[1..], e, n + TokenSize(ts[0]), DistanceAfter(ts[0], D))
  }

  /** The output of all tokens, one after the other; of a rejected one, its literals. */
  ghost function Meant(ts: seq<Token>, e: Ending, out: seq<byte>, D: nat): (all: seq<byte>)
    requires InRange(ts, e, |out|, D) && ValidEnding(e)
    ensures |out| <= |all|
  {
    if ts == [] then if e.Rejected? then out + e.t.literals else out
    else Meant(ts[1..], e, After(ts[0], out, D), DistanceAfter(ts[0], D))
  }

  /**
    What the decoder does not take back: a rejected token is taken back with its literals, and the last token before
    a byte that is no opcode.
   */
  ghost function Kept(ts: seq<Token>, e: Ending, before: seq<byte>, out: seq<byte>, D: nat): seq<byte>
    requires InRange(ts, e, |out|, D)
  {
    if ts == [] then if e.Undefined? || e.TooShort? then before else out
    else Kept(ts[1..], e, out, After(ts[0], out, D), DistanceAfter(ts[0], D))
  }

  // ---------- the interpreter yields what is meant ----------

  function Cells(s: seq<byte>): (c: seq<Cell>)
    ensures |c| == |s| && forall k {:trigger c[k]} :: 0 <= k < |s| ==> c[k] == Set(s[k])
  {
    seq(|s|, k requires 0 <= k < |s| => Set(s[k]))
  }

  lemma CopiedFrom(out: seq<Cell>, D: nat, M: nat)
    requires 0 < D <= |out| && M > 0
    ensures |Copied(out, D, M - 1)| >= D
    ensures Copied(out, D, M) == Copied(out, D, M - 1) + [Back(Copied(out, D, M - 1), D)]
  {
    CopiedInTwo(out, D, M - 1, 1);
    var c := Copied(out, D, M - 1);
    assert Copied(c, D, 1) == Copied(c + [Back(c, D)], D, 0);
  }

  lemma {:induction false} CopiedIsRepeat(out: seq<byte>, D: nat, M: nat)
    requires D <= |out| && (M > 0 ==> 0 < D)
    ensures Copied(Cells(out), D, M) == Cells(Repeat(out, D, M))
    decreases M
  {
    if M > 0 {
      CopiedIsRepeat(out, D, M - 1);
      CopiedFrom(Cells(out), D, M);
      var r := Repeat(out, D, M - 1);
      assert Cells(r + [r[|r| - D]]) == Cells(r) + [Set(r[|r| - D])];
    }
  }

  /** What the unlimited and the limited decoder are to make of a stream. */
  datatype Result = Result(all: seq<byte>, kept: seq<byte>, ended: bool)

  /**
    From ip on, with out before it, the interpreter emits all. The limited one, given room for all and the state good
    to fall back to, leaves what is kept.
   */
  ghost predicate Reads(src: seq<byte>, ip: nat, out: seq<byte>, D: nat, good: State, cap: nat, r: Result) {
    && ip < |src| && D <= |out| <= cap && !good.eos && Interp(src, ip, Cells(out), D) == (Cells(r.all), r.ended)
    && var st := Step(src, cap, good, ip, Cells(out), D); st.out == Cells(r.kept) && st.eos == r.ended
  }

  ghost predicate EmitReadsTo(src: seq<byte>, ip: nat, out: seq<Cell>, L: nat, M: nat, D: nat, check: bool,
                              good: State, cap: nat, r: Result) {
    && ip + L < |src| && |out| <= cap && (check || D <= |out| + L)
    && Emit(src, ip, out, L, M, D, check) == (Cells(r.all), r.ended)
    && var st := Expand(src, cap, good, ip, out, L, M, D, check); st.out == Cells(r.kept) && st.eos == r.ended
  }

  lemma StopIsRead(src: seq<byte>, ip: nat, out: seq<byte>, D: nat, good: State, cap: nat, before: seq<byte>)
    requires ip < |src| && D <= |out| <= cap && !good.eos && good.out == Cells(before) && !OpAt(src, ip, D).Copy?
    ensures var op := OpAt(src, ip, D);
            Reads(src, ip, out, D, good, cap, Result(out, if op == Bad then before else out, op == End))
  {}

  /** Literals and a match whose distance is accepted, or need not be. */
  lemma EmitReads(src: seq<byte>, ip: nat, out: seq<Cell>, L: nat, M: nat, d: nat, check: bool, ip': nat,
                  copied: seq<Cell>, next: seq<byte>, good: State, cap: nat, r: Result)
    requires ip' == ip + L < |src| && copied == out + Literals(src, ip, L) && d <= |copied| && (check ==> 0 < d)
    requires Cells(next) == Copied(copied, d, M) && Reads(src, ip', next, d, good, cap, r)
    ensures EmitReadsTo(src, ip, out, L, M, d, check, good, cap, r)
  {}

  /** A match that reaches too far back. */
  lemma EmitRejects(src: seq<byte>, ip: nat, out: seq<byte>, L: nat, M: nat, d: nat, good: State, cap: nat,
                    copied: seq<byte>)
    requires ip + L < |src| && Cells(copied) == Cells(out) + Literals(src, ip, L) && (d == 0 || d > |out| + L)
    requires |out| + L <= cap && !good.eos && good.out == Cells(out)
    ensures EmitReadsTo(src, ip, Cells(out), L, M, d, true, good, cap, Result(copied, out, false))
  {}

  lemma TokenParts(src: seq<byte>, ip: nat, a: seq<byte>, b: seq<byte>)
    requires ip + |a| + |b| <= |src| && src[ip..ip + |a| + |b|] == a + b
    ensures src[ip..ip + |a|] == a && src[ip + |a|..ip + |a| + |b|] == b
  {
    var s := src[ip..ip + |a| + |b|];
    assert s[..|a|] == a && s[|a|..] == b;
    assert src[ip..ip + |a|] == s[..|a|];
    assert src[ip + |a|..ip + |a| + |b|] == s[|a|..];
  }

  lemma MeaningIs(i: Instruction, D: nat)
    requires Encodable(i)
    ensures var m := Meaning(i, D);
            && m == Copy(|Encode(i)|, LiteralCount(i), MatchCount(i), DistanceOf(i, D), m.check)
            && (m.check ==> MatchCount(i) > 0)
  {}

  lemma LiteralsAreCells(src: seq<byte>, ip: nat, literals: seq<byte>, out: seq<byte>)
    requires ip + |literals| <= |src| && src[ip..ip + |literals|] == literals
    ensures Cells(out) + Literals(src, ip, |literals|) == Cells(out + literals)
  {
    forall k | 0 <= k < |literals| ensures src[ip + k] == literals[k] {
      assert src[ip..ip + |literals|][k] == src[ip + k];
    }
  }

  lemma CopyIsRead(src: seq<byte>, ip: nat, out: seq<byte>, D: nat, op: Op, at: nat, good: State, cap: nat, r: Result)
    requires ip < |src| && D <= |out| <= cap && OpAt(src, ip, D) == op && op.Copy? && at == ip + op.len && !good.eos
    requires EmitReadsTo(src, at, Cells(out), op.L, op.M, op.D, op.check, Good(good, ip, Cells(out), D), cap, r)
    ensures Reads(src, ip, out, D, good, cap, r)
  {
    InterpIsEmit(src, ip, Cells(out), D);
    StepIsExpand(src, cap, good, ip, Cells(out), D);
  }

  lemma TokenOp(src: seq<byte>, ip: nat, i: Instruction, literals: seq<byte>, D: nat)
    requires Encodable(i) && |literals| == LiteralCount(i)
    requires var n := |Encode(i)|;
             ip + n + |literals| < |src| && src[ip..ip + n + |literals|] == Encode(i) + literals
    ensures var n := |Encode(i)|;
            && src[ip + n..ip + n + |literals|] == literals
            && OpAt(src, ip, D) == Copy(n, |literals|, MatchCount(i), DistanceOf(i, D), Meaning(i, D).check)
  {
    TokenParts(src, ip, Encode(i), literals);
    OpcodesReadBack(src, ip, i, D);
    MeaningIs(i, D);
  }

  lemma TokenReads(src: seq<byte>, ip: nat, i: Instruction, literals: seq<byte>, out: seq<byte>, D: nat,
                   next: seq<byte>, d: nat, ip': nat, good: State, cap: nat, r: Result)
    requires Encodable(i) && |literals| == LiteralCount(i) && D <= |out| <= cap && !good.eos
    requires ip' == ip + |Encode(i)| + |literals| < |src| && src[ip..ip'] == Encode(i) + literals
    requires Reads(src, ip', next, d, Good(good, ip, Cells(out), D), cap, r)
    requires d == DistanceOf(i, D) && (MatchCount(i) > 0 ==> 0 < d <= |out| + |literals|)
    requires next == Repeat(out + literals, d, MatchCount(i))
    ensures Reads(src, ip, out, D, good, cap, r)
  {
    var at, M, good' := ip + |Encode(i)|, MatchCount(i), Good(good, ip, Cells(out), D);
    TokenOp(src, ip, i, literals, D);
    MeaningIs(i, D);
    DistanceStays(i, D);
    LiteralsAreCells(src, at, literals, out);
    CopiedIsRepeat(out + literals, d, M);
    var op := OpAt(src, ip, D);
    EmitReads(src, at, Cells(out), op.L, op.M, op.D, op.check, ip', Cells(out + literals), next, good', cap, r);
    CopyIsRead(src, ip, out, D, op, at, good, cap, r);
  }

  lemma TokenRejects(src: seq<byte>, ip: nat, i: Instruction, literals: seq<byte>, out: seq<byte>, D: nat,
                     good: State, cap: nat)
    requires Encodable(i) && |literals| == LiteralCount(i) && D <= |out| && |out| + |literals| <= cap && !good.eos
    requires var n := |Encode(i)|;
             ip + n + |literals| < |src| && src[ip..ip + n + |literals|] == Encode(i) + literals
    requires !i.SmallMatch? && !i.LargeMatch? && !TokenInRange(Token(i, literals), |out|, D)
    ensures Reads(src, ip, out, D, good, cap, Result(out + literals, out, false))
  {
    var at, good' := ip + |Encode(i)|, Good(good, ip, Cells(out), D);
    TokenOp(src, ip, i, literals, D);
    LiteralsAreCells(src, at, literals, out);
    var op := OpAt(src, ip, D);
    EmitRejects(src, at, out, op.L, op.M, op.D, good', cap, out + literals);
    CopyIsRead(src, ip, out, D, op, at, good, cap, Result(out + literals, out, false));
  }

  lemma PauseReads(src: seq<byte>, ip: nat, out: seq<byte>, D: nat, good: State, cap: nat, r: Result)
    requires ip + 1 < |src| && (src[ip] == 14 || src[ip] == 22) && D <= |out| <= cap && !good.eos
    requires Reads(src, ip + 1, out, D, Good(good, ip, Cells(out), D), cap, r)
    ensures Reads(src, ip, out, D, good, cap, r)
  {
    var op := OpAt(src, ip, D);
    assert op == Copy(1, 0, 0, D, false);
    assert Cells(out) + Literals(src, ip + 1, 0) == Cells(out);
    assert Copied(Cells(out), D, 0) == Cells(out);
    EmitReads(src, ip + 1, Cells(out), 0, 0, D, false, ip + 1, Cells(out), out, Good(good, ip, Cells(out), D), cap, r);
    CopyIsRead(src, ip, out, D, op, ip + 1, good, cap, r);
  }

  /** A token of either kind that stands between ip and ip'. */
  lemma StepReads(src: seq<byte>, ip: nat, ip': nat, t: Token, out: seq<byte>, D: nat, next: seq<byte>, d: nat,
                  good: State, cap: nat, r: Result)
    requires ValidToken(t) && D <= |out| <= cap && !good.eos && TokenInRange(t, |out|, D)
    requires ip < ip' < |src| && src[ip..ip'] == TokenBytes(t)
    requires next == After(t, out, D) && d == DistanceAfter(t, D)
    requires Reads(src, ip', next, d, Good(good, ip, Cells(out), D), cap, r)
    ensures Reads(src, ip, out, D, good, cap, r)
  {
    assert |src[ip..ip']| == ip' - ip;
    match t
    case Pause(_) =>
      assert src[ip..ip'][0] == src[ip];
      PauseReads(src, ip, out, D, good, cap, r);
    case Token(i, literals) =>
      TokenReads(src, ip, i, literals, out, D, next, d, ip', good, cap, r);
  }

  lemma DistanceStays(i: Instruction, D: nat)
    requires Encodable(i)
    ensures MatchCount(i) == 0 ==> DistanceOf(i, D) == D
  {}

  lemma DistanceFits(t: Token, n: nat, D: nat)
    requires ValidToken(t) && TokenInRange(t, n, D) && D <= n
    ensures DistanceAfter(t, D) <= n + TokenSize(t)
  {}

  /** What stands at ip is bytes followed by the rest. */
  lemma StreamParts(src: seq<byte>, ip: nat, bytes: seq<byte>, rest: seq<byte>, ip': nat)
    requires ip <= |src| && src[ip..] == bytes + rest && ip' == ip + |bytes|
    ensures ip' <= |src| && src[ip..ip'] == bytes && src[ip'..] == rest
  {
    var s := src[ip..];
    assert s[..|bytes|] == bytes && s[|bytes|..] == rest;
    assert src[ip..ip'] == s[..|bytes|];
    assert src[ip'..] == s[|bytes|..];
  }

  lemma BytesAreSome(t: Token)
    requires ValidToken(t)
    ensures TokenBytes(t) != []
  {}

  /** A token that ends with the source, or before its own end, is not read. */
  lemma BrokenIsCut(src: seq<byte>, whole: seq<byte>, ip: nat, D: nat)
    requires ip < |src| < |whole| && whole[..|src|] == src
    requires var op := OpAt(whole, ip, D); op.Copy? && |src| <= ip + op.len + op.L
    ensures OpAt(src, ip, D).Cut?
  {
    assert src[ip] == whole[ip];
    assert ip + 1 < |src| ==> src[ip + 1] == whole[ip + 1];
    assert ip + 2 < |src| ==> src[ip + 2] == whole[ip + 2];
  }

  lemma BrokenStops(src: seq<byte>, ip: nat, t: Token, k: nat, D: nat)
    requires ValidToken(t) && 0 < k <= |TokenBytes(t)| && ip + k == |src| && src[ip..] == TokenBytes(t)[..k]
    ensures OpAt(src, ip, D).Cut?
  {
    var bytes := TokenBytes(t);
    var whole := src + bytes[k..] + [0];
    assert whole[ip..ip + |bytes|] == src[ip..] + bytes[k..] == bytes;
    assert whole[..|src|] == src;
    match t
    case Pause(b) =>
      assert whole[ip] == bytes[0];
      assert OpAt(whole, ip, D) == Copy(1, 0, 0, D, false);
      BrokenIsCut(src, whole, ip, D);
    case Token(i, literals) =>
      TokenOp(whole, ip, i, literals, D);
      BrokenIsCut(src, whole, ip, D);
  }

  lemma EndingIsRead(src: seq<byte>, ip: nat, e: Ending, out: seq<byte>, D: nat, good: State, cap: nat,
                     before: seq<byte>)
    requires ValidEnding(e) && InRange([], e, |out|, D) && D <= |out| && |Meant([], e, out, D)| <= cap && !good.eos
    requires ip < |src| && src[ip..] == EndingBytes(e) && good.out == Cells(before)
    ensures Reads(src, ip, out, D, good, cap, Result(Meant([], e, out, D), Kept([], e, before, out, D), e.Ended?))
  {
    assert src[ip] == src[ip..][0] && |src| == ip + |EndingBytes(e)|;
    if e.Rejected? {
      StreamParts(src, ip, TokenBytes(e.t), e.tail, ip + |TokenBytes(e.t)|);
      TokenRejects(src, ip, e.t.i, e.t.literals, out, D, good, cap);
    } else {
      if e.Broken? {
        BrokenStops(src, ip, e.t, e.k, D);
      }
      StopIsRead(src, ip, out, D, good, cap, before);
    }
  }

  ghost predicate AreMeant(ts: seq<Token>, e: Ending, before: seq<byte>, out: seq<byte>, D: nat, r: Result)
    requires InRange(ts, e, |out|, D) && ValidEnding(e)
  {
    r == Result(Meant(ts, e, out, D), Kept(ts, e, before, out, D), e.Ended?)
  }

  /** A stream without its first token. */
  lemma FirstToken(ts: seq<Token>, e: Ending, before: seq<byte>, out: seq<byte>, D: nat, next: seq<byte>, d: nat,
                   r: Result)
    requires ts != [] && ValidTokens(ts) && ValidEnding(e) && InRange(ts, e, |out|, D) && D <= |out|
    requires TokenInRange(ts[0], |out|, D) && next == After(ts[0], out, D) && d == DistanceAfter(ts[0], D)
    requires AreMeant(ts, e, before, out, D, r)
    ensures TokenBytes(ts[0]) != [] && Stream(ts, e) == TokenBytes(ts[0]) + Stream(ts[1..], e)
    ensures d <= |next| && InRange(ts[1..], e, |next|, d) && AreMeant(ts[1..], e, out, next, d, r)
  {
    BytesAreSome(ts[0]);
    DistanceFits(ts[0], |out|, D);
  }

  /** A stream that stands at ip is decoded as it is meant, whatever it ends with. */
  lemma {:induction false} StreamIsRead(src: seq<byte>, ip: nat, ts: seq<Token>, e: Ending, out: seq<byte>, D: nat,
                                        good: State, cap: nat, before: seq<byte>, r: Result)
    requires ValidTokens(ts) && ValidEnding(e) && InRange(ts, e, |out|, D) && D <= |out|
    requires ip < |src| && src[ip..] == Stream(ts, e)
    requires AreMeant(ts, e, before, out, D, r) && |out| <= |r.all| <= cap && !good.eos && good.out == Cells(before)
    ensures Reads(src, ip, out, D, good, cap, r)
    decreases |ts|
  {
    if ts == [] {
      EndingIsRead(src, ip, e, out, D, good, cap, before);
    } else {
      var bytes, good' := TokenBytes(ts[0]), Good(good, ip, Cells(out), D);
      var ip', next, d := ip + |bytes|, After(ts[0], out, D), DistanceAfter(ts[0], D);
      FirstToken(ts, e, before, out, D, next, d, r);
      StreamParts(src, ip, bytes, Stream(ts[1..], e), ip');
      StreamIsRead(src, ip', ts[1..], e, next, d, good', cap, out, r);
      StepReads(src, ip, ip', ts[0], out, D, next, d, good, cap, r);
    }
  }

  /** The decoder returns what an encoder means, up to the room there is, less what it takes back at the ending. */
  method DecodeStream(dst: array<byte>, dstSize: nat, ts: seq<Token>, e: Ending) returns (n: nat)
    requires ValidTokens(ts) && ValidEnding(e) && InRange(ts, e, 0, 0) && 0 < dstSize <= dst.Length
    modifies dst
    ensures var all := Meant(ts, e, [], 0);
            && n <= dstSize
            && if |all| <= dstSize then dst[..n] == Kept(ts, e, [], [], 0) else n == dstSize && dst[..n] == all[..n]
  {
    ghost var all, kept := Meant(ts, e, [], 0), Kept(ts, e, [], [], 0);
    var src := Stream(ts, e);
    assert src[0..] == src && Cells([]) == [];
    ghost var room := if |all| <= dstSize then dstSize else |all|;
    StreamIsRead(src, 0, ts, e, [], 0, FRESH, room, [], Result(all, kept, e.Ended?));
    n := DecodeBuffer(dst, dstSize, src);
    if |all| <= dstSize {
      AgreedCells(kept, dst[..]);
    } else {
      assert Cells(all)[..n] == Cells(all[..n]);
      AgreedCells(all[..n], dst[..]);
    }
    assert dst[..n] == dst[..][..n];
  }

  lemma AgreedCells(s: seq<byte>, b: seq<byte>)
    requires Agrees(Cells(s), b)
    ensures b[..|s|] == s
  {
    var c := Cells(s);
    assert forall k {:trigger c[k]} :: 0 <= k < |s| ==> c[k].Set?;
    forall k | 0 <= k < |s| ensures b[k] == s[k] {
      assert c[k] == Set(s[k]);
    }
  }
}
