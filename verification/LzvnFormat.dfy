/**
  The LZVN stream: its opcodes, a byte-at-a-time interpreter of a whole stream, and what one call of
  the decoder does with a destination of limited size and the state saved by an earlier call.
 */
module LzvnFormat {
  import opened Bytes

  /** A byte of output; Unset is a byte that no instruction has given a value. */
  datatype Cell = Unset | Set(b: byte)

  // ---------- opcodes ----------

  datatype Kind = SmlD | MedD | LrgD | PreD | SmlM | LrgM | SmlL | LrgL | Nop | Eos | Udef

  /** The jump table. */
  function KindOf(opc: byte): Kind {
    if opc >= 240 then (if opc == 240 then LrgM else SmlM)
    else if opc >= 224 then (if opc == 224 then LrgL else SmlL)
    else if 160 <= opc < 192 then MedD
    else if 112 <= opc < 128 || 208 <= opc then Udef
    else if opc % 8 == 7 then LrgD
    else if opc % 8 < 6 then SmlD
    else if opc == 6 then Eos
    else if opc == 14 || opc == 22 then Nop
    else if opc < 64 then Udef
    else PreD
  }

  /**
    An instruction: skip len bytes, copy L literals, then M bytes from distance D, which is checked
    first if check is set. Cut is an instruction the source is too short for.
   */
  datatype Op = Copy(len: nat, L: nat, M: nat, D: nat, check: bool) | End | Cut | Bad

  function Word(src: seq<byte>, i: nat): nat
    requires i + 1 < |src|
  {
    src[i] as nat + 256 * src[i + 1] as nat
  }

  /** The instruction, if its literals and one byte more are left in the source. */
  function Fitted(left: nat, len: nat, L: nat, M: nat, D: nat, check: bool): Op {
    if left <= len + L then Cut else Copy(len, L, M, D, check)
  }

  /** The instruction at ip; D is the distance carried over. */
  function OpAt(src: seq<byte>, ip: nat, D: nat): Op
    requires ip < |src|
  {
    var opc := src[ip];
    var left := |src| - ip;
    match KindOf(opc)
    case SmlD => if left <= 2 then Cut
      else Fitted(left, 2, opc / 64, opc / 8 % 8 + 3, opc % 8 * 256 + src[ip + 1], true)
    case MedD => if left <= 3 then Cut
      else Fitted(left, 3, opc / 8 % 4, opc % 8 * 4 + Word(src, ip + 1) % 4 + 3, Word(src, ip + 1) / 4, true)
    case LrgD => if left <= 3 then Cut else Fitted(left, 3, opc / 64, opc / 8 % 8 + 3, Word(src, ip + 1), true)
    case PreD => Fitted(left, 1, opc / 64, opc / 8 % 8 + 3, D, true)
    case SmlM => Fitted(left, 1, 0, opc % 16, D, false)
    case LrgM => if left <= 2 then Cut else Copy(2, 0, src[ip + 1] as nat + 16, D, false)
    case SmlL => Fitted(left, 1, opc % 16, 0, D, false)
    case LrgL => if left <= 2 then Cut else Fitted(left, 2, src[ip + 1] as nat + 16, 0, D, false)
    case Nop => Fitted(left, 1, 0, 0, D, false)
    case Eos => if left < 8 then Bad else End
    case Udef => Bad
  }

  lemma OpFits(src: seq<byte>, ip: nat, D: nat)
    requires ip < |src|
    ensures var op := OpAt(src, ip, D);
            op.Copy? ==>
              && op.len >= 1 && ip + op.len + op.L < |src| && op.L <= 271 && op.M <= 271
              && (op.check ==> op.L <= 3 && op.M >= 3)
              && (!op.check ==> op.D == D && (op.L == 0 || op.M == 0))
  {}

  // ---------- what instructions write ----------

  function Literals(src: seq<byte>, ip: nat, k: nat): seq<Cell>
    requires ip + k <= |src|
  {
    seq(k, i requires 0 <= i < k => Set(src[ip + i]))
  }

  /** The next byte of a match. */
  function Back(out: seq<Cell>, D: nat): Cell
    requires D <= |out|
  {
    if D == 0 then Unset else out[|out| - D]
  }

  /** M bytes of a match, one at a time. */
  function Copied(out: seq<Cell>, D: nat, M: nat): (r: seq<Cell>)
    requires D <= |out|
    ensures |r| == |out| + M && r[..|out|] == out
    decreases M
  {
    if M == 0 then out else
      var out1 := out + [Back(out, D)];
      assert out1[..|out|] == out;
      var r := Copied(out1, D, M - 1);
      assert r[..|out|] == r[..|out1|][..|out|];
      r
  }

  lemma {:induction false} CopiedInTwo(out: seq<Cell>, D: nat, a: nat, b: nat)
    requires D <= |out|
    ensures Copied(Copied(out, D, a), D, b) == Copied(out, D, a + b)
    decreases a
  {
    if a > 0 {
      CopiedInTwo(out + [Back(out, D)], D, a - 1, b);
    }
  }

  /** A match repeats what lies D bytes back, also where the two overlap. */
  lemma {:induction false} CopiedAt(out: seq<Cell>, D: nat, M: nat, k: nat)
    requires 0 < D <= |out| <= k < |out| + M
    ensures Copied(out, D, M)[k] == Copied(out, D, M)[k - D]
    decreases M
  {
    var out1 := out + [Back(out, D)];
    var r := Copied(out, D, M);
    assert r[..|out1|] == out1;
    if k == |out| {
      assert r[k] == out1[k] && r[k - D] == out1[k - D];
    } else {
      CopiedAt(out1, D, M - 1, k);
    }
  }

  // ---------- the byte-at-a-time interpreter ----------

  /** Everything a stream emits from ip on, and whether it ends with the end-of-stream opcode. */
  function Interp(src: seq<byte>, ip: nat, out: seq<Cell>, D: nat): (seq<Cell>, bool)
    requires ip < |src| && D <= |out|
    decreases |src| - ip, 0
  {
    OpFits(src, ip, D);
    match OpAt(src, ip, D)
    case Copy(len, L, M, d, check) => Emit(src, ip + len, out, L, M, d, check)
    case End => (out, true)
    case _ => (out, false)
  }

  function Emit(src: seq<byte>, ip: nat, out: seq<Cell>, L: nat, M: nat, D: nat, check: bool): (seq<Cell>, bool)
    requires ip + L < |src| && (check || D <= |out| + L)
    decreases |src| - ip, 1
  {
    var out1 := out + Literals(src, ip, L);
    if check && (D > |out1| || D == 0) then (out1, false)
    else Interp(src, ip + L, Copied(out1, D, M), D)
  }

  lemma InterpIsEmit(src: seq<byte>, ip: nat, out: seq<Cell>, D: nat)
    requires ip < |src| && D <= |out| && OpAt(src, ip, D).Copy?
    ensures var op := OpAt(src, ip, D);
            && ip + op.len + op.L < |src| && (op.check || op.D <= |out| + op.L)
            && Interp(src, ip, out, D) == Emit(src, ip + op.len, out, op.L, op.M, op.D, op.check)
  {
    OpFits(src, ip, D);
  }

  // ---------- one call of the decoder ----------

  /**
    The state between calls: source position, output so far, a partly expanded instruction, the last
    distance, and whether the end of the stream was seen.
   */
  datatype State = State(ip: nat, out: seq<Cell>, L: nat, M: nat, D: nat, prev: nat, eos: bool)

  predicate Pending(st: State) {
    st.L != 0 || st.M != 0
  }

  ghost predicate ValidState(src: seq<byte>, st: State, cap: nat) {
    && st.ip <= |src| && |st.out| <= cap && st.prev <= |st.out|
    && (!Pending(st) ==> st.D == 0)
    && (Pending(st) ==> st.ip + st.L < |src|)
    && (st.L > 0 && st.M > 0 ==> st.L <= 3)
    && (Pending(st) && (st.L == 0 || st.M == 0) ==> st.D <= |st.out|)
  }

  function Good(good: State, ip: nat, out: seq<Cell>, D: nat): State {
    good.(ip := ip, out := out, prev := D)
  }

  function Call(src: seq<byte>, st: State, cap: nat): State
    requires ValidState(src, st, cap)
  {
    if st.ip == |src| || |st.out| == cap then st
    else if Pending(st)
         then Expand(src, cap, st.(L := 0, M := 0, D := 0), st.ip, st.out, st.L, st.M, st.D, st.L != 0 && st.M != 0)
    else Step(src, cap, st, st.ip, st.out, st.prev)
  }

  /** From the instruction at ip on; good is the state to fall back to. */
  function Step(src: seq<byte>, cap: nat, good: State, ip: nat, out: seq<Cell>, D: nat): State
    requires ip < |src| && D <= |out| <= cap
    decreases |src| - ip, 0
  {
    OpFits(src, ip, D);
    match OpAt(src, ip, D)
    case Copy(len, L, M, d, check) => Expand(src, cap, Good(good, ip, out, D), ip + len, out, L, M, d, check)
    case End => Good(good, ip + 8, out, D).(eos := true)
    case Cut => Good(good, ip, out, D)
    case Bad => good
  }

  function Expand(src: seq<byte>, cap: nat, good: State, ip: nat, out: seq<Cell>, L: nat, M: nat, D: nat,
                  check: bool): State
    requires ip + L < |src| && |out| <= cap && (check || D <= |out| + L)
    decreases |src| - ip, 1
  {
    var room := cap - |out|;
    if L > room then good.(ip := ip + room, out := out + Literals(src, ip, room), L := L - room, M := M, D := D)
    else
      var out1 := out + Literals(src, ip, L);
      if check && (D > |out1| || D == 0) then good
      else if M > cap - |out1| then
        good.(ip := ip + L, out := Copied(out1, D, cap - |out1|), L := 0, M := M - (cap - |out1|), D := D)
      else Step(src, cap, good, ip + L, Copied(out1, D, M), D)
  }

  lemma StepIsExpand(src: seq<byte>, cap: nat, good: State, ip: nat, out: seq<Cell>, D: nat)
    requires ip < |src| && D <= |out| <= cap && OpAt(src, ip, D).Copy?
    ensures var op := OpAt(src, ip, D);
            && ip + op.len + op.L < |src| && (op.check || op.D <= |out| + op.L)
            && Step(src, cap, good, ip, out, D)
               == Expand(src, cap, Good(good, ip, out, D), ip + op.len, out, op.L, op.M, op.D, op.check)
  {
    OpFits(src, ip, D);
  }

  /** Once the literals fit, only the match is left, if its distance is accepted. */
  lemma LiteralsThenMatch(src: seq<byte>, cap: nat, good: State, ip: nat, out: seq<Cell>, L: nat, M: nat, D: nat,
                          check: bool)
    requires ip + L < |src| && |out| + L <= cap && (check || D <= |out| + L)
    ensures var out1 := out + Literals(src, ip, L);
            Expand(src, cap, good, ip, out, L, M, D, check)
            == if check && (D > |out1| || D == 0) then good else Expand(src, cap, good, ip + L, out1, 0, M, D, false)
  {
    var out1 := out + Literals(src, ip, L);
    assert out1 + Literals(src, ip + L, 0) == out1;
  }

  const FRESH: State := State(0, [], 0, 0, 0, 0, false)
}
