/** What limited and repeated calls of the LZVN decoder have to do with the whole stream. */
module LzvnStream {
  import opened Bytes
  import opened LzvnFormat

  // ---------- opcode layouts ----------

  /** The instructions as the format lays them out. */
  datatype Instruction =
    | SmallDistance(L: nat, M: nat, D: nat)
    | MediumDistance(L: nat, M: nat, D: nat)
    | LargeDistance(L: nat, M: nat, D: nat)
    | PreviousDistance(L: nat, M: nat)
    | SmallMatch(M: nat)
    | LargeMatch(M: nat)
    | SmallLiteral(L: nat)
    | LargeLiteral(L: nat)

  /** The lengths LLMMM can hold without running into another opcode. */
  predicate ShortLengths(L: nat, M: nat) {
    3 <= M && match L case 0 => M <= 10 case 1 => M <= 8 case 2 => M <= 6 case 3 => M <= 4 case _ => false
  }

  predicate Encodable(i: Instruction) {
    match i
    case SmallDistance(L, M, D) => ShortLengths(L, M) && D < 0x600
    case MediumDistance(L, M, D) => L <= 3 && 3 <= M <= 34 && D < 0x4000
    case LargeDistance(L, M, D) => ShortLengths(L, M) && D < 0x1_0000
    case PreviousDistance(L, M) => ShortLengths(L, M) && 1 <= L
    case SmallMatch(M) => 1 <= M <= 15
    case LargeMatch(M) => 16 <= M <= 271
    case SmallLiteral(L) => 1 <= L <= 15
    case LargeLiteral(L) => 16 <= L <= 271
  }

  /** The opcode bytes, literals not included. */
  function Encode(i: Instruction): seq<byte>
    requires Encodable(i)
  {
    match i
    case SmallDistance(L, M, D) => [L * 64 + (M - 3) * 8 + D / 256, D % 256]
    case MediumDistance(L, M, D) => [160 + L * 8 + (M - 3) / 4, D % 64 * 4 + (M - 3) % 4, D / 64]
    case LargeDistance(L, M, D) => [L * 64 + (M - 3) * 8 + 7, D % 256, D / 256]
    case PreviousDistance(L, M) => [L * 64 + (M - 3) * 8 + 6]
    case SmallMatch(M) => [240 + M]
    case LargeMatch(M) => [240, M - 16]
    case SmallLiteral(L) => [224 + L]
    case LargeLiteral(L) => [224, L - 16]
  }

  function LiteralCount(i: Instruction): nat {
    if i.SmallMatch? || i.LargeMatch? then 0 else i.L
  }

  /** What an instruction asks for, D being the distance carried over. */
  function Meaning(i: Instruction, D: nat): Op
    requires Encodable(i)
  {
    var n := |Encode(i)|;
    match i
    case SmallDistance(L, M, d) => Copy(n, L, M, d, true)
    case MediumDistance(L, M, d) => Copy(n, L, M, d, true)
    case LargeDistance(L, M, d) => Copy(n, L, M, d, true)
    case PreviousDistance(L, M) => Copy(n, L, M, D, true)
    case SmallMatch(M) => Copy(n, 0, M, D, false)
    case LargeMatch(M) => Copy(n, 0, M, D, false)
    case SmallLiteral(L) => Copy(n, L, 0, D, false)
    case LargeLiteral(L) => Copy(n, L, 0, D, false)
  }

  lemma ShortOpcode(L: nat, M: nat, low: nat)
    requires ShortLengths(L, M) && low < 8
    ensures var opc := L * 64 + (M - 3) * 8 + low;
            && opc < 256 && opc / 64 == L && opc / 8 % 8 == M - 3 && opc % 8 == low
            && (low < 6 ==> KindOf(opc) == SmlD) && (low == 6 && L >= 1 ==> KindOf(opc) == PreD)
            && (low == 7 ==> KindOf(opc) == LrgD)
  {}

  lemma MediumOpcode(L: nat, M: nat, D: nat)
    requires L <= 3 && 3 <= M <= 34 && D < 0x4000
    ensures var opc := 160 + L * 8 + (M - 3) / 4;
            && KindOf(opc) == MedD && opc / 8 % 4 == L && opc % 8 == (M - 3) / 4
    ensures var word := (D % 64 * 4 + (M - 3) % 4) + 256 * (D / 64);
            && word % 4 == (M - 3) % 4 && word / 4 == D && D % 64 * 4 + (M - 3) % 4 < 256 && D / 64 < 256
  {}

  lemma MediumRoundTrip(src: seq<byte>, ip: nat, L: nat, M: nat, d: nat, D: nat)
    requires L <= 3 && 3 <= M <= 34 && d < 0x4000 && ip + 3 + L < |src|
    requires src[ip..ip + 3] == Encode(MediumDistance(L, M, d))
    ensures OpAt(src, ip, D) == Copy(3, L, M, d, true)
  {
    MediumOpcode(L, M, d);
    var e := Encode(MediumDistance(L, M, d));
    assert src[ip] == e[0] && src[ip + 1] == e[1] && src[ip + 2] == e[2];
  }

  lemma SmallRoundTrip(src: seq<byte>, ip: nat, L: nat, M: nat, d: nat, D: nat)
    requires ShortLengths(L, M) && d < 0x600 && ip + 2 + L < |src|
    requires src[ip..ip + 2] == Encode(SmallDistance(L, M, d))
    ensures OpAt(src, ip, D) == Copy(2, L, M, d, true)
  {
    ShortOpcode(L, M, d / 256);
    var e := Encode(SmallDistance(L, M, d));
    assert src[ip] == e[0] && src[ip + 1] == e[1];
  }

  lemma LargeRoundTrip(src: seq<byte>, ip: nat, L: nat, M: nat, d: nat, D: nat)
    requires ShortLengths(L, M) && d < 0x1_0000 && ip + 3 + L < |src|
    requires src[ip..ip + 3] == Encode(LargeDistance(L, M, d))
    ensures OpAt(src, ip, D) == Copy(3, L, M, d, true)
  {
    ShortOpcode(L, M, 7);
    var e := Encode(LargeDistance(L, M, d));
    assert src[ip] == e[0] && src[ip + 1] == e[1] && src[ip + 2] == e[2];
  }

  lemma PreviousRoundTrip(src: seq<byte>, ip: nat, L: nat, M: nat, D: nat)
    requires ShortLengths(L, M) && 1 <= L && ip + 1 + L < |src|
    requires src[ip..ip + 1] == Encode(PreviousDistance(L, M))
    ensures OpAt(src, ip, D) == Copy(1, L, M, D, true)
  {
    ShortOpcode(L, M, 6);
    var e := Encode(PreviousDistance(L, M));
    assert src[ip] == e[0];
  }

  lemma SingleRoundTrip(src: seq<byte>, ip: nat, i: Instruction, D: nat)
    requires Encodable(i) && (i.SmallMatch? || i.LargeMatch? || i.SmallLiteral? || i.LargeLiteral?)
    requires ip + |Encode(i)| + LiteralCount(i) < |src| && src[ip..ip + |Encode(i)|] == Encode(i)
    ensures OpAt(src, ip, D) == Meaning(i, D)
  {
    var e := Encode(i);
    assert src[ip] == e[0];
    assert |e| > 1 ==> src[ip + 1] == e[1];
  }

  /** Every instruction reads back as itself wherever its bytes stand, given its literals and one byte more. */
  lemma OpcodesReadBack(src: seq<byte>, ip: nat, i: Instruction, D: nat)
    requires Encodable(i) && ip + |Encode(i)| + LiteralCount(i) < |src|
    requires src[ip..ip + |Encode(i)|] == Encode(i)
    ensures OpAt(src, ip, D) == Meaning(i, D)
  {
    match i
    case SmallDistance(L, M, d) => SmallRoundTrip(src, ip, L, M, d, D);
    case MediumDistance(L, M, d) => MediumRoundTrip(src, ip, L, M, d, D);
    case LargeDistance(L, M, d) => LargeRoundTrip(src, ip, L, M, d, D);
    case PreviousDistance(L, M) => PreviousRoundTrip(src, ip, L, M, D);
    case _ => SingleRoundTrip(src, ip, i, D);
  }

  // ---------- against the whole stream ----------

  ghost predicate IsPrefix(s: seq<Cell>, t: seq<Cell>) {
    |s| <= |t| && t[..|s|] == s
  }

  lemma PrefixIsTransitive(s: seq<Cell>, t: seq<Cell>, u: seq<Cell>)
    requires IsPrefix(s, t) && IsPrefix(t, u)
    ensures IsPrefix(s, u)
  {
    assert u[..|s|] == u[..|t|][..|s|];
  }

  lemma CopiedExtends(out: seq<Cell>, D: nat, a: nat, b: nat)
    requires D <= |out| && a <= b
    ensures IsPrefix(Copied(out, D, a), Copied(out, D, b)) && IsPrefix(out, Copied(out, D, a))
  {
    CopiedInTwo(out, D, a, b - a);
  }

  lemma LiteralsExtend(src: seq<byte>, ip: nat, out: seq<Cell>, a: nat, b: nat)
    requires ip + b <= |src| && a <= b
    ensures IsPrefix(out + Literals(src, ip, a), out + Literals(src, ip, b))
            && IsPrefix(out, out + Literals(src, ip, a))
    ensures out + Literals(src, ip, a) + Literals(src, ip + a, b - a) == out + Literals(src, ip, b)
  {}

  /** The interpreter only appends. */
  lemma {:induction false} InterpExtends(src: seq<byte>, ip: nat, out: seq<Cell>, D: nat)
    requires ip < |src| && D <= |out|
    ensures IsPrefix(out, Interp(src, ip, out, D).0)
    decreases |src| - ip, 0
  {
    OpFits(src, ip, D);
    var op := OpAt(src, ip, D);
    if op.Copy? {
      EmitExtends(src, ip + op.len, out, op.L, op.M, op.D, op.check, 0, 0);
    }
  }

  /** What an instruction emits, even partly, stays. */
  lemma {:induction false} EmitExtends(src: seq<byte>, ip: nat, out: seq<Cell>, L: nat, M: nat, D: nat, check: bool,
                                       l: nat, m: nat)
    requires ip + L < |src| && (check || D <= |out| + L) && l <= L && m <= M
    ensures IsPrefix(out + Literals(src, ip, l), Emit(src, ip, out, L, M, D, check).0)
    ensures IsPrefix(out, Emit(src, ip, out, L, M, D, check).0)
    ensures var out1 := out + Literals(src, ip, L);
            D <= |out1| && !(check && D == 0) ==> IsPrefix(Copied(out1, D, m), Emit(src, ip, out, L, M, D, check).0)
    decreases |src| - ip, 1
  {
    var out1 := out + Literals(src, ip, L);
    var all := Emit(src, ip, out, L, M, D, check).0;
    LiteralsExtend(src, ip, out, l, L);
    LiteralsExtend(src, ip, out, 0, L);
    if !(check && (D > |out1| || D == 0)) {
      InterpExtends(src, ip + L, Copied(out1, D, M), D);
      CopiedExtends(out1, D, m, M);
      PrefixIsTransitive(Copied(out1, D, m), Copied(out1, D, M), all);
      PrefixIsTransitive(out1, Copied(out1, D, M), all);
    }
    PrefixIsTransitive(out + Literals(src, ip, l), out1, all);
    PrefixIsTransitive(out, out1, all);
  }

  /**
    A run limited by cap returns a prefix of what the interpreter emits: all of it when it ends with
    the end of the stream, and it does end so when the stream does and cap is large enough. A cap too small for all
    is reached.
   */
  ghost predicate Represents(eos: bool, r: State, whole: (seq<Cell>, bool), cap: nat) {
    && (eos || IsPrefix(r.out, whole.0))
    && (r.eos && !eos ==> whole.1 && r.out == whole.0 && !Pending(r))
    && (whole.1 && |whole.0| <= cap ==> r.eos)
    && (|whole.0| > cap ==> |r.out| == cap)
  }

  /** What the limited and the unlimited interpreter make of the stream from ip on. */
  ghost predicate AreRun(src: seq<byte>, cap: nat, good: State, ip: nat, out: seq<Cell>, D: nat, r: State,
                         whole: (seq<Cell>, bool))
    requires ip < |src| && D <= |out| <= cap
  {
    r == Step(src, cap, good, ip, out, D) && whole == Interp(src, ip, out, D)
  }

  lemma {:induction false} StepRepresents(src: seq<byte>, cap: nat, good: State, ip: nat, out: seq<Cell>, D: nat,
                                          r: State, whole: (seq<Cell>, bool))
    requires ip < |src| && D <= |out| <= cap && IsPrefix(good.out, out) && !Pending(good)
    requires AreRun(src, cap, good, ip, out, D, r, whole)
    ensures Represents(good.eos, r, whole, cap)
    decreases |src| - ip, 1
  {
    if OpAt(src, ip, D).Copy? {
      CopyRepresents(src, cap, good, ip, out, D, r, whole);
    } else {
      StopRepresents(src, cap, good, ip, out, D);
    }
  }

  /** What the limited and the unlimited interpreter make of an instruction's literals and match. */
  ghost predicate AreExpanded(src: seq<byte>, cap: nat, good: State, ip: nat, out: seq<Cell>, L: nat, M: nat, D: nat,
                              check: bool, r: State, whole: (seq<Cell>, bool))
    requires ip + L < |src| && |out| <= cap && (check || D <= |out| + L)
  {
    r == Expand(src, cap, good, ip, out, L, M, D, check) && whole == Emit(src, ip, out, L, M, D, check)
  }

  lemma CopyIsExpanded(src: seq<byte>, cap: nat, good: State, ip: nat, out: seq<Cell>, D: nat, r: State,
                       whole: (seq<Cell>, bool))
    requires ip < |src| && D <= |out| <= cap && OpAt(src, ip, D).Copy?
    requires AreRun(src, cap, good, ip, out, D, r, whole)
    ensures var op := OpAt(src, ip, D);
            && op.len >= 1 && ip + op.len + op.L < |src| && (op.check || op.D <= |out| + op.L)
            && AreExpanded(src, cap, Good(good, ip, out, D), ip + op.len, out, op.L, op.M, op.D, op.check, r, whole)
  {
    OpFits(src, ip, D);
    StepIsExpand(src, cap, good, ip, out, D);
    InterpIsEmit(src, ip, out, D);
  }

  lemma {:induction false} CopyRepresents(src: seq<byte>, cap: nat, good: State, ip: nat, out: seq<Cell>, D: nat,
                                          r: State, whole: (seq<Cell>, bool))
    requires ip < |src| && D <= |out| <= cap && IsPrefix(good.out, out) && !Pending(good) && OpAt(src, ip, D).Copy?
    requires AreRun(src, cap, good, ip, out, D, r, whole)
    ensures Represents(good.eos, r, whole, cap)
    decreases |src| - ip, 0
  {
    var op := OpAt(src, ip, D);
    CopyIsExpanded(src, cap, good, ip, out, D, r, whole);
    ExpandRepresents(src, cap, Good(good, ip, out, D), ip + op.len, out, op.L, op.M, op.D, op.check, r, whole);
  }

  lemma StopRepresents(src: seq<byte>, cap: nat, good: State, ip: nat, out: seq<Cell>, D: nat)
    requires ip < |src| && D <= |out| <= cap && IsPrefix(good.out, out) && !Pending(good) && !OpAt(src, ip, D).Copy?
    ensures Represents(good.eos, Step(src, cap, good, ip, out, D), Interp(src, ip, out, D), cap)
  {}

  lemma {:induction false} ExpandRepresents(src: seq<byte>, cap: nat, good: State, ip: nat, out: seq<Cell>,
                                            L: nat, M: nat, D: nat, check: bool, r: State, whole: (seq<Cell>, bool))
    requires ip + L < |src| && |out| <= cap && (check || D <= |out| + L) && IsPrefix(good.out, out) && !Pending(good)
    requires AreExpanded(src, cap, good, ip, out, L, M, D, check, r, whole)
    ensures Represents(good.eos, r, whole, cap)
    decreases |src| - ip, 2
  {
    var room := cap - |out|;
    EmitExtends(src, ip, out, L, M, D, check, if L > room then room else L, 0);
    PrefixIsTransitive(good.out, out, whole.0);
    if L <= room {
      var out1 := out + Literals(src, ip, L);
      if !(check && (D > |out1| || D == 0)) {
        if M > cap - |out1| {
          EmitExtends(src, ip, out, L, M, D, check, L, cap - |out1|);
          InterpExtends(src, ip + L, Copied(out1, D, M), D);
        } else {
          LiteralsExtend(src, ip, out, 0, L);
          PrefixIsTransitive(good.out, out, out1);
          CopiedExtends(out1, D, M, M);
          PrefixIsTransitive(good.out, out1, Copied(out1, D, M));
          StepRepresents(src, cap, good, ip + L, Copied(out1, D, M), D, r, whole);
        }
      }
    } else {
      LiteralsExtend(src, ip, out, L, L);
      EmitExtends(src, ip, out, L, M, D, check, L, 0);
    }
  }

  /** One call on a fresh state, against the whole stream. */
  lemma FreshCallRepresents(src: seq<byte>, cap: nat)
    requires src != [] && cap > 0
    ensures Represents(false, Call(src, FRESH, cap), Interp(src, 0, [], 0), cap)
  {
    StepRepresents(src, cap, FRESH, 0, [], 0, Call(src, FRESH, cap), Interp(src, 0, [], 0));
  }

  // ---------- when the output is determined ----------

  ghost predicate Known(out: seq<Cell>) {
    forall k :: 0 <= k < |out| ==> out[k].Set?
  }

  /** Past literals and nops, the first instruction is a match that gives no distance. */
  predicate OpensWithMatch(src: seq<byte>, ip: nat)
    requires ip < |src|
    decreases |src| - ip
  {
    var op := OpAt(src, ip, 0);
    OpFits(src, ip, 0);
    op.Copy? && !op.check && (op.M > 0 || OpensWithMatch(src, ip + op.len + op.L))
  }

  lemma CopiedIsKnown(out: seq<Cell>, D: nat, M: nat)
    requires D <= |out| && Known(out) && (0 < D || M == 0)
    ensures Known(Copied(out, D, M))
    decreases M
  {
    if M > 0 {
      CopiedIsKnown(out + [Back(out, D)], D, M - 1);
    }
  }

  lemma LiteralsAreKnown(src: seq<byte>, ip: nat, out: seq<Cell>, k: nat)
    requires ip + k <= |src| && Known(out)
    ensures Known(out + Literals(src, ip, k))
  {}

  lemma {:induction false} InterpIsKnown(src: seq<byte>, ip: nat, out: seq<Cell>, D: nat)
    requires ip < |src| && D <= |out| && Known(out) && (0 < D || !OpensWithMatch(src, ip))
    ensures Known(Interp(src, ip, out, D).0)
    decreases |src| - ip, 0
  {
    OpFits(src, ip, D);
    OpFits(src, ip, 0);
    var op := OpAt(src, ip, D);
    if op.Copy? {
      SameShape(src, ip, D);
      EmitIsKnown(src, ip + op.len, out, op.L, op.M, op.D, op.check);
    }
  }

  /** The distance carried over decides nothing but the distance. */
  lemma SameShape(src: seq<byte>, ip: nat, D: nat)
    requires ip < |src|
    ensures var op, op0 := OpAt(src, ip, D), OpAt(src, ip, 0);
            && (op.Copy? <==> op0.Copy?)
            && (op.Copy? ==>
                op.len == op0.len && op.L == op0.L && op.M == op0.M && op.check == op0.check
                && (!op.check ==> op.D == D))
  {}

  lemma {:induction false} EmitIsKnown(src: seq<byte>, ip: nat, out: seq<Cell>, L: nat, M: nat, D: nat, check: bool)
    requires ip + L < |src| && (check || D <= |out| + L) && Known(out)
    requires check || 0 < D || (M == 0 && !OpensWithMatch(src, ip + L))
    ensures Known(Emit(src, ip, out, L, M, D, check).0)
    decreases |src| - ip, 1
  {
    var out1 := out + Literals(src, ip, L);
    LiteralsAreKnown(src, ip, out, L);
    if !(check && (D > |out1| || D == 0)) {
      CopiedIsKnown(out1, D, M);
      InterpIsKnown(src, ip + L, Copied(out1, D, M), D);
    }
  }

  lemma {:induction false} OpeningMatchIsUnset(src: seq<byte>, ip: nat, out: seq<Cell>)
    requires ip < |src| && OpensWithMatch(src, ip)
    ensures !Known(Interp(src, ip, out, 0).0)
    decreases |src| - ip
  {
    OpFits(src, ip, 0);
    var op := OpAt(src, ip, 0);
    if op.M > 0 {
      MatchWithoutDistance(src, ip + op.len, out, op.L, op.M);
    } else {
      OpeningMatchIsUnset(src, ip + op.len + op.L, Copied(out + Literals(src, ip + op.len, op.L), 0, 0));
    }
  }

  lemma MatchWithoutDistance(src: seq<byte>, ip: nat, out: seq<Cell>, L: nat, M: nat)
    requires ip + L < |src| && M > 0
    ensures !Known(Emit(src, ip, out, L, M, 0, false).0)
  {
    var out1 := out + Literals(src, ip, L);
    assert Copied(out1, 0, 1) == Copied(out1 + [Unset], 0, 0) == out1 + [Unset];
    EmitExtends(src, ip, out, L, M, 0, false, 0, 1);
    var whole := Emit(src, ip, out, L, M, 0, false).0;
    assert whole[|out1|] == whole[..|out1| + 1][|out1|];
  }

  /** Every byte of the output has a value exactly when no match stands before the first distance. */
  lemma OutputIsDetermined(src: seq<byte>)
    requires src != []
    ensures Known(Interp(src, 0, [], 0).0) <==> !OpensWithMatch(src, 0)
  {
    if OpensWithMatch(src, 0) {
      OpeningMatchIsUnset(src, 0, []);
    } else {
      InterpIsKnown(src, 0, [], 0);
    }
  }
}
