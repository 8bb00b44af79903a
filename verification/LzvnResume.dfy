/** Decoding a stream in several calls, each with a larger destination, against decoding it in one. */
module LzvnResume {
  import opened Bytes
  import opened LzvnFormat
  import opened LzvnStream

  // ---------- where a break shows ----------

  /**
    An instruction with its literals behind it at source position ip and output length n goes wrong within cap:
    its distance is refused, or it is complete and the next opcode is undefined or a cut end of stream.
   */
  predicate Falls(src: seq<byte>, cap: nat, ip: nat, n: nat, M: nat, D: nat, check: bool)
    requires ip < |src|
  {
    && n <= cap
    && if check && (D > n || D == 0) then true else n + M <= cap && OpAt(src, ip, D).Bad?
  }

  /** The same of the instruction a state has broken off. */
  predicate FallsBehind(src: seq<byte>, st: State, cap: nat)
    requires st.ip + st.L < |src|
  {
    Falls(src, cap, st.ip + st.L, |st.out| + st.L, st.M, st.D, st.L != 0 && st.M != 0)
  }

  predicate Settled(good: State) {
    good.L == 0 && good.M == 0 && good.D == 0
  }

  /** A state with nothing under way. */
  function Dropped(st: State): State {
    st.(L := 0, M := 0, D := 0)
  }

  /** good' is a later state to fall back to than good. */
  predicate Later(good: State, good': State) {
    good' == good.(ip := good'.ip, out := good'.out) && Settled(good)
  }

  /** The resumed run and the unbroken one end alike unless both fall back. */
  predicate Rejoins(resumed: State, unbroken: State, good: State, good': State, falls: bool) {
    if falls then resumed == good' && unbroken == good else resumed == unbroken
  }

  lemma FallbackAtBadOnly(src: seq<byte>, cap: nat, good: State, good': State, ip: nat, out: seq<Cell>, D: nat)
    requires ip < |src| && D <= |out| <= cap && Later(good, good')
    ensures Rejoins(Step(src, cap, good', ip, out, D), Step(src, cap, good, ip, out, D), good, good',
                    OpAt(src, ip, D).Bad?)
  {
    OpFits(src, ip, D);
  }

  /** A break after a of the L literals. */
  lemma BreakInLiterals(src: seq<byte>, cap: nat, good: State, good': State, ip: nat, out: seq<Cell>,
                        L: nat, M: nat, D: nat, check: bool, a: nat)
    requires ip + L < |src| && (check || D <= |out| + L) && a <= L && |out| + a <= cap && Later(good, good')
    ensures Rejoins(Expand(src, cap, good', ip + a, out + Literals(src, ip, a), L - a, M, D, check),
                    Expand(src, cap, good, ip, out, L, M, D, check),
                    good, good', Falls(src, cap, ip + L, |out| + L, M, D, check))
  {
    var out1 := out + Literals(src, ip, L);
    LiteralsExtend(src, ip, out, a, L);
    var room := cap - |out|;
    if L > room {
      LiteralsExtend(src, ip, out, a, room);
    } else if !(check && (D > |out1| || D == 0)) && M <= cap - |out1| {
      FallbackAtBadOnly(src, cap, good, good', ip + L, Copied(out1, D, M), D);
    }
  }

  /** A break after b of the M bytes of a match. */
  lemma BreakInMatch(src: seq<byte>, cap: nat, good: State, good': State, ip: nat, out: seq<Cell>, M: nat, D: nat,
                     b: nat)
    requires ip < |src| && D <= |out| && b <= M && |out| + b <= cap && Later(good, good')
    ensures Rejoins(Expand(src, cap, good', ip, Copied(out, D, b), 0, M - b, D, false),
                    Expand(src, cap, good, ip, out, 0, M, D, false),
                    good, good', Falls(src, cap, ip, |out|, M, D, false))
  {
    var out2 := Copied(out, D, b);
    assert out + Literals(src, ip, 0) == out && out2 + Literals(src, ip, 0) == out2;
    CopiedInTwo(out, D, b, M - b);
    if M > cap - |out| {
      CopiedInTwo(out, D, b, cap - |out| - b);
    } else {
      FallbackAtBadOnly(src, cap, good, good', ip, Copied(out, D, M), D);
    }
  }

  // ---------- one break ----------

  /**
    s1 is where a run stopped at cap1, s2 where the same run stops at cap2. If it broke off an instruction,
    going on from s1 ends in s2 exactly when that instruction does not fall behind; if it does, the
    resumed run keeps what it had and the unbroken one less.
   */
  ghost predicate Resumes(src: seq<byte>, cap1: nat, cap2: nat, eos: bool, s1: State, s2: State) {
    && cap1 < cap2 && ValidState(src, s1, cap1)
    && (!Pending(s1) ==> s1 == s2)
    && (Pending(s1) ==> |s1.out| == cap1 && s1.eos == eos && Parts(src, cap2, s1, s2))
  }

  ghost predicate Parts(src: seq<byte>, cap: nat, s1: State, s2: State)
    requires ValidState(src, s1, cap) && Pending(s1)
  {
    if FallsBehind(src, s1, cap) then
      && Call(src, s1, cap) == Dropped(s1) != s2
      && Settled(s2) && s2.eos == s1.eos && IsPrefix(s2.out, s1.out)
    else
      Call(src, s1, cap) == s2
  }

  ghost predicate Sound(src: seq<byte>, good: State, out: seq<Cell>) {
    Settled(good) && good.ip <= |src| && good.prev <= |good.out| && IsPrefix(good.out, out)
  }

  lemma {:induction false} StepResumes(src: seq<byte>, cap1: nat, cap2: nat, good: State, ip: nat, out: seq<Cell>,
                                       D: nat, s1: State, s2: State)
    requires ip < |src| && D <= |out| <= cap1 < cap2 && Sound(src, good, out)
    requires s1 == Step(src, cap1, good, ip, out, D) && s2 == Step(src, cap2, good, ip, out, D)
    ensures Resumes(src, cap1, cap2, good.eos, s1, s2)
    decreases |src| - ip, 1
  {
    if OpAt(src, ip, D).Copy? {
      CopyResumes(src, cap1, cap2, good, ip, out, D, s1, s2);
    } else {
      StopResumes(src, cap1, cap2, good, ip, out, D);
    }
  }

  lemma {:induction false} CopyResumes(src: seq<byte>, cap1: nat, cap2: nat, good: State, ip: nat, out: seq<Cell>,
                                       D: nat, s1: State, s2: State)
    requires ip < |src| && D <= |out| <= cap1 < cap2 && Sound(src, good, out) && OpAt(src, ip, D).Copy?
    requires s1 == Step(src, cap1, good, ip, out, D) && s2 == Step(src, cap2, good, ip, out, D)
    ensures Resumes(src, cap1, cap2, good.eos, s1, s2)
    decreases |src| - ip, 0
  {
    var op := OpAt(src, ip, D);
    OpFits(src, ip, D);
    StepIsExpand(src, cap1, good, ip, out, D);
    StepIsExpand(src, cap2, good, ip, out, D);
    ExpandResumes(src, cap1, cap2, Good(good, ip, out, D), ip + op.len, out, op.L, op.M, op.D, op.check, s1, s2);
  }

  lemma StopResumes(src: seq<byte>, cap1: nat, cap2: nat, good: State, ip: nat, out: seq<Cell>, D: nat)
    requires ip < |src| && D <= |out| <= cap1 < cap2 && Sound(src, good, out) && !OpAt(src, ip, D).Copy?
    ensures Resumes(src, cap1, cap2, good.eos, Step(src, cap1, good, ip, out, D), Step(src, cap2, good, ip, out, D))
  {}

  ghost predicate Expandable(src: seq<byte>, cap: nat, good: State, ip: nat, out: seq<Cell>,
                             L: nat, M: nat, D: nat, check: bool) {
    && ip + L < |src| && Sound(src, good, out) && |out| <= cap && (good.ip < ip || |good.out| < |out| || |out| < cap)
    && (check ==> L <= 3 && M >= 1) && (!check ==> (L == 0 || M == 0) && D <= |out|)
  }

  /** From the two ends of a broken run to what the break does. */
  lemma CutResumes(src: seq<byte>, cap1: nat, cap2: nat, good: State, s1: State, s2: State)
    requires cap1 < cap2 && ValidState(src, s1, cap1) && Pending(s1) && |s1.out| == cap1 && s1.eos == good.eos
    requires Settled(good) && IsPrefix(good.out, s1.out) && Dropped(s1) != good
    requires Rejoins(Call(src, s1, cap2), s2, good, Dropped(s1), FallsBehind(src, s1, cap2))
    ensures Resumes(src, cap1, cap2, good.eos, s1, s2)
  {}

  lemma LiteralsCut(src: seq<byte>, cap1: nat, cap2: nat, good: State, ip: nat, out: seq<Cell>,
                    L: nat, M: nat, D: nat, check: bool, s1: State, s2: State)
    requires cap1 < cap2 && Expandable(src, cap1, good, ip, out, L, M, D, check) && L > cap1 - |out|
    requires s1 == Expand(src, cap1, good, ip, out, L, M, D, check)
             && s2 == Expand(src, cap2, good, ip, out, L, M, D, check)
    ensures Resumes(src, cap1, cap2, good.eos, s1, s2)
  {
    var room := cap1 - |out|;
    LiteralsCutState(src, cap1, good, ip, out, L, M, D, check, s1);
    BreakInLiterals(src, cap2, good, Dropped(s1), ip, out, L, M, D, check, room);
    CallAfterLiterals(src, cap2, good, ip, out, L, M, D, check, room, s1);
    CutResumes(src, cap1, cap2, good, s1, s2);
  }

  lemma LiteralsCutState(src: seq<byte>, cap: nat, good: State, ip: nat, out: seq<Cell>,
                         L: nat, M: nat, D: nat, check: bool, s1: State)
    requires Expandable(src, cap, good, ip, out, L, M, D, check) && L > cap - |out|
    requires s1 == Expand(src, cap, good, ip, out, L, M, D, check)
    ensures var room := cap - |out|;
            s1 == good.(ip := ip + room, out := out + Literals(src, ip, room), L := L - room, M := M, D := D)
    ensures ValidState(src, s1, cap) && Pending(s1)
    ensures |s1.out| == cap && IsPrefix(good.out, s1.out) && Dropped(s1) != good
  {
    LiteralsExtend(src, ip, out, 0, cap - |out|);
    PrefixIsTransitive(good.out, out, s1.out);
  }

  lemma CallAfterLiterals(src: seq<byte>, cap: nat, good: State, ip: nat, out: seq<Cell>,
                          L: nat, M: nat, D: nat, check: bool, a: nat, s1: State)
    requires ip + L < |src| && a < L && |out| + a < cap && Settled(good) && (check <==> M != 0)
    requires s1 == good.(ip := ip + a, out := out + Literals(src, ip, a), L := L - a, M := M, D := D)
             && ValidState(src, s1, cap)
    ensures Call(src, s1, cap) == Expand(src, cap, Dropped(s1), ip + a, out + Literals(src, ip, a), L - a, M, D, check)
    ensures FallsBehind(src, s1, cap) == Falls(src, cap, ip + L, |out| + L, M, D, check)
  {
    assert Pending(s1) && |s1.out| == |out| + a && s1.ip == ip + a && s1.L == L - a && s1.M == M && s1.D == D;
  }

  /** A match that does not fit. */
  lemma MatchCut(src: seq<byte>, cap1: nat, cap2: nat, good: State, ip: nat, out: seq<Cell>, M: nat, D: nat,
                 s1: State, s2: State)
    requires cap1 < cap2 && Expandable(src, cap1, good, ip, out, 0, M, D, false) && M > cap1 - |out|
    requires s1 == Expand(src, cap1, good, ip, out, 0, M, D, false)
             && s2 == Expand(src, cap2, good, ip, out, 0, M, D, false)
    ensures Resumes(src, cap1, cap2, good.eos, s1, s2)
  {
    var b := cap1 - |out|;
    MatchCutState(src, cap1, good, ip, out, M, D, s1);
    BreakInMatch(src, cap2, good, Dropped(s1), ip, out, M, D, b);
    CutResumes(src, cap1, cap2, good, s1, s2);
  }

  lemma MatchCutState(src: seq<byte>, cap: nat, good: State, ip: nat, out: seq<Cell>, M: nat, D: nat, s1: State)
    requires Expandable(src, cap, good, ip, out, 0, M, D, false) && M > cap - |out|
    requires s1 == Expand(src, cap, good, ip, out, 0, M, D, false)
    ensures s1 == good.(ip := ip, out := Copied(out, D, cap - |out|), L := 0, M := M - (cap - |out|), D := D)
    ensures ValidState(src, s1, cap) && Pending(s1) && |s1.out| == cap && IsPrefix(good.out, s1.out)
            && Dropped(s1) != good
  {
    assert out + Literals(src, ip, 0) == out;
    CopiedExtends(out, D, cap - |out|, M);
    PrefixIsTransitive(good.out, out, s1.out);
  }

  lemma {:induction false} ExpandResumes(src: seq<byte>, cap1: nat, cap2: nat, good: State, ip: nat, out: seq<Cell>,
                                         L: nat, M: nat, D: nat, check: bool, s1: State, s2: State)
    requires cap1 < cap2 && Expandable(src, cap1, good, ip, out, L, M, D, check)
    requires s1 == Expand(src, cap1, good, ip, out, L, M, D, check)
             && s2 == Expand(src, cap2, good, ip, out, L, M, D, check)
    ensures Resumes(src, cap1, cap2, good.eos, s1, s2)
    decreases |src| - ip, 3
  {
    var out1 := out + Literals(src, ip, L);
    if L > cap1 - |out| {
      LiteralsCut(src, cap1, cap2, good, ip, out, L, M, D, check, s1, s2);
    } else {
      LiteralsThenMatch(src, cap1, good, ip, out, L, M, D, check);
      LiteralsThenMatch(src, cap2, good, ip, out, L, M, D, check);
      if !(check && (D > |out1| || D == 0)) {
        LiteralsExtend(src, ip, out, 0, L);
        PrefixIsTransitive(good.out, out, out1);
        MatchResumes(src, cap1, cap2, good, ip + L, out1, M, D, s1, s2);
      }
    }
  }

  lemma {:induction false} MatchResumes(src: seq<byte>, cap1: nat, cap2: nat, good: State, ip: nat, out: seq<Cell>,
                                        M: nat, D: nat, s1: State, s2: State)
    requires cap1 < cap2 && Expandable(src, cap1, good, ip, out, 0, M, D, false)
    requires s1 == Expand(src, cap1, good, ip, out, 0, M, D, false)
             && s2 == Expand(src, cap2, good, ip, out, 0, M, D, false)
    ensures Resumes(src, cap1, cap2, good.eos, s1, s2)
    decreases |src| - ip, 2
  {
    if M > cap1 - |out| {
      MatchCut(src, cap1, cap2, good, ip, out, M, D, s1, s2);
    } else {
      assert out + Literals(src, ip, 0) == out;
      CopiedExtends(out, D, M, M);
      PrefixIsTransitive(good.out, out, Copied(out, D, M));
      StepResumes(src, cap1, cap2, good, ip, Copied(out, D, M), D, s1, s2);
    }
  }

  /** One call and then another with a larger destination, against the second alone: exactly when they agree. */
  lemma CallResumes(src: seq<byte>, st: State, cap1: nat, cap2: nat)
    requires ValidState(src, st, cap1) && st.ip < |src| && |st.out| < cap1 < cap2
    ensures Resumes(src, cap1, cap2, st.eos, Call(src, st, cap1), Call(src, st, cap2))
  {
    var s1, s2 := Call(src, st, cap1), Call(src, st, cap2);
    if Pending(st) {
      ExpandResumes(src, cap1, cap2, Dropped(st), st.ip, st.out, st.L, st.M, st.D, st.L != 0 && st.M != 0, s1, s2);
    } else {
      StepResumes(src, cap1, cap2, st, st.ip, st.out, st.prev, s1, s2);
    }
  }

  /** A stream that keeps nothing in one call and a byte in two: its second opcode is undefined. */
  lemma BrokenStreamKeepsMore()
    ensures var src := [0xE2, 97, 98, 0x1E];
            && ValidState(src, FRESH, 1) && ValidState(src, Call(src, FRESH, 1), 8)
            && Call(src, FRESH, 8).out == []
            && Call(src, Call(src, FRESH, 1), 8).out == [Set(97)]
  {
    var src: seq<byte> := [0xE2, 97, 98, 0x1E];
    assert OpAt(src, 0, 0) == Copy(1, 2, 0, 0, false) && OpAt(src, 3, 0) == Bad;
    assert [] + Literals(src, 1, 2) == [Set(97), Set(98)];
    assert [] + Literals(src, 1, 1) == [Set(97)];
    var s1 := State(2, [Set(97)], 1, 0, 0, 0, false);
    assert Call(src, FRESH, 1) == s1;
    assert [Set(97)] + Literals(src, 2, 1) == [Set(97), Set(98)];
    assert Call(src, s1, 8) == Dropped(s1);
  }

  // ---------- many calls ----------

  predicate Growing(caps: seq<nat>) {
    forall i, j :: 0 <= i < j < |caps| ==> caps[i] < caps[j]
  }

  /** Calls with the given destination sizes, until the end of the stream is seen. */
  function Calls(src: seq<byte>, st: State, caps: seq<nat>): State
    requires Growing(caps) && (caps != [] ==> ValidState(src, st, caps[0]))
    decreases |caps|
  {
    if caps == [] || st.eos then st
    else
      CallIsValid(src, st, caps[0]);
      Calls(src, Call(src, st, caps[0]), caps[1..])
  }

  lemma CallIsValid(src: seq<byte>, st: State, cap: nat)
    requires ValidState(src, st, cap)
    ensures ValidState(src, Call(src, st, cap), cap)
  {
    if st.ip < |src| && |st.out| < cap {
      CallResumes(src, st, cap, cap + 1);
    }
  }

  /** A stream that one call decodes to its end is decoded to the same state by any number of calls. */
  lemma {:induction false} ManyCallsAreOne(src: seq<byte>, st: State, caps: seq<nat>, last: nat)
    requires caps != [] && Growing(caps) && last == caps[|caps| - 1]
    requires ValidState(src, st, caps[0]) && !st.eos && |st.out| < caps[0] <= last
    requires Call(src, st, last).eos
    ensures Calls(src, st, caps) == Call(src, st, last)
    decreases |caps|
  {
    var s1 := Call(src, st, caps[0]);
    CallIsValid(src, st, caps[0]);
    var rest := caps[1..];
    if |caps| > 1 {
      CallResumes(src, st, caps[0], last);
      if Pending(s1) {
        assert Call(src, s1, last) == Call(src, st, last);
        ManyCallsAreOne(src, s1, rest, last);
      }
    }
  }
}
