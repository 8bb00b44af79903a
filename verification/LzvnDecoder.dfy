/**
  The LZVN decoder over a destination buffer. Near neither end it copies four or eight bytes at a time
  and may write past what an instruction emits, though never past the end of the destination.
 */
module LzvnDecoder {
  import opened Bytes
  import opened LzvnFormat
  import opened LzvnStream
  import opened LzvnResume

  /** The buffer starts with out, wherever out has a value. */
  ghost predicate Agrees(out: seq<Cell>, b: seq<byte>) {
    |out| <= |b| && forall k {:trigger out[k]} :: 0 <= k < |out| && out[k].Set? ==> b[k] == out[k].b
  }

  // ---------- copying ----------

  /** L literals are written at dp; nothing before dp or from cap on changes. */
  ghost predicate LiteralsWritten(b: seq<byte>, b': seq<byte>, dp: nat, cap: nat, src: seq<byte>, ip: nat, L: nat)
    requires ip + L <= |src| && dp + L <= cap <= |b|
  {
    && |b'| == |b|
    && (forall k {:trigger b'[k]} :: 0 <= k < dp || cap <= k < |b| ==> b'[k] == b[k])
    && forall k {:trigger b'[k]} :: dp <= k < dp + L ==> b'[k] == src[k - dp + ip]
  }

  /** M bytes at dp repeat what lies D bytes back; nothing before dp or from cap on changes. */
  ghost predicate MatchWritten(b: seq<byte>, b': seq<byte>, dp: nat, cap: nat, D: nat, M: nat)
    requires D <= dp && dp + M <= cap <= |b|
  {
    && |b'| == |b|
    && (forall k {:trigger b'[k]} :: 0 <= k < dp || cap <= k < |b| ==> b'[k] == b[k])
    && (D > 0 ==> forall k, j {:trigger b'[k], b'[j]} :: dp <= k < dp + M && j == k - D ==> b'[k] == b'[j])
  }

  lemma LiteralsAgree(out: seq<Cell>, b: seq<byte>, b': seq<byte>, cap: nat, src: seq<byte>, ip: nat, L: nat)
    requires ip + L <= |src| && |out| + L <= cap <= |b|
    requires Agrees(out, b) && LiteralsWritten(b, b', |out|, cap, src, ip, L)
    ensures Agrees(out + Literals(src, ip, L), b')
  {}

  lemma {:induction false} RepeatsAgree(out: seq<Cell>, b: seq<byte>, D: nat, M: nat)
    requires Agrees(out, b) && D <= |out| && |out| + M <= |b|
    requires D > 0 ==> forall k, j {:trigger b[k], b[j]} :: |out| <= k < |out| + M && j == k - D ==> b[k] == b[j]
    ensures Agrees(Copied(out, D, M), b)
    decreases M
  {
    if M > 0 {
      var x := b[|out| - D];
      RepeatsAgree(out + [Back(out, D)], b, D, M - 1);
    }
  }

  lemma MatchAgrees(out: seq<Cell>, b: seq<byte>, b': seq<byte>, cap: nat, D: nat, M: nat)
    requires D <= |out| && |out| + M <= cap <= |b| && Agrees(out, b) && MatchWritten(b, b', |out|, cap, D, M)
    ensures Agrees(Copied(out, D, M), b')
  {
    RepeatsAgree(out, b', D, M);
  }

  /** store4 and store8. */
  method Store(buffer: array<byte>, at: nat, data: seq<byte>)
    requires at + |data| <= buffer.Length
    modifies buffer
    ensures forall k {:trigger buffer[k]} :: 0 <= k < buffer.Length ==>
              buffer[k] == if at <= k < at + |data| then data[k - at] else old(buffer[k])
  {
    forall k | 0 <= k < |data| {
      buffer[at + k] := data[k];
    }
  }

  method CopyBytes(buffer: array<byte>, dp: nat, ghost cap: nat, src: seq<byte>, ip: nat, L: nat)
    requires ip + L <= |src| && dp + L <= cap <= buffer.Length
    modifies buffer
    ensures LiteralsWritten(old(buffer[..]), buffer[..], dp, cap, src, ip, L)
  {
    var i := 0;
    while i < L
      invariant 0 <= i <= L && LiteralsWritten(old(buffer[..]), buffer[..], dp, cap, src, ip, i)
    {
      buffer[dp + i] := src[ip + i];
      i := i + 1;
    }
  }

  /** Eight bytes at a time; the last store may run past the literal. */
  method CopyWide(buffer: array<byte>, dp: nat, ghost cap: nat, src: seq<byte>, ip: nat, L: nat)
    requires ip + L + 7 <= |src| && dp + L + 7 <= cap <= buffer.Length
    modifies buffer
    ensures LiteralsWritten(old(buffer[..]), buffer[..], dp, cap, src, ip, L)
  {
    var i := 0;
    while i < L
      invariant 0 <= i <= L + 7 && LiteralsWritten(old(buffer[..]), buffer[..], dp, cap, src, ip, i)
    {
      Store(buffer, dp + i, src[ip + i..ip + i + 8]);
      i := i + 8;
    }
  }

  method RepeatBytes(buffer: array<byte>, dp: nat, ghost cap: nat, D: nat, M: nat)
    requires D <= dp && dp + M <= cap <= buffer.Length
    modifies buffer
    ensures MatchWritten(old(buffer[..]), buffer[..], dp, cap, D, M)
  {
    var i := 0;
    while i < M
      invariant 0 <= i <= M && MatchWritten(old(buffer[..]), buffer[..], dp, cap, D, i)
    {
      buffer[dp + i] := buffer[dp + i - D];
      i := i + 1;
    }
  }

  /** Eight bytes at a time, from at least eight bytes back. */
  method RepeatWide(buffer: array<byte>, dp: nat, ghost cap: nat, D: nat, M: nat)
    requires 8 <= D <= dp && dp + M + 7 <= cap <= buffer.Length
    modifies buffer
    ensures MatchWritten(old(buffer[..]), buffer[..], dp, cap, D, M)
  {
    var i := 0;
    while i < M
      invariant 0 <= i <= M + 7 && MatchWritten(old(buffer[..]), buffer[..], dp, cap, D, i)
    {
      Store(buffer, dp + i, buffer[dp + i - D..dp + i - D + 8]);
      i := i + 8;
    }
  }

  // ---------- the decoder ----------

  class DecoderState {
    const source: seq<byte>
    const buffer: array<byte>
    var src: nat
    var dst: nat
    var dstEnd: nat
    var L: nat
    var M: nat
    var D: nat
    var dPrev: nat
    var endOfStream: bool
    ghost var out: seq<Cell>

    ghost function Now(): State
      reads this
    {
      State(src, out, L, M, D, dPrev, endOfStream)
    }

    ghost predicate Valid()
      reads this, buffer
    {
      && dst == |out| && dst <= dstEnd <= buffer.Length
      && ValidState(source, Now(), dstEnd) && Agrees(out, buffer[..])
    }

    /** The decoder stands at ip and dp with o written, ahead of the state to fall back to. */
    ghost predicate At(ip: nat, dp: nat, o: seq<Cell>)
      reads this, buffer
    {
      && dst == |out| && dp == |o| && dp <= dstEnd <= buffer.Length && src <= |source| && ip < |source|
      && Sound(source, Now(), o) && Agrees(o, buffer[..])
    }

    constructor (source: seq<byte>, buffer: array<byte>, size: nat)
      requires size <= buffer.Length
      ensures Valid() && Now() == FRESH && this.source == source && this.buffer == buffer && dstEnd == size
    {
      this.source, this.buffer := source, buffer;
      src, dst, dstEnd := 0, 0, size;
      L, M, D, dPrev := 0, 0, 0, 0;
      endOfStream := false;
      out := [];
    }

    /** UPDATE_GOOD */
    method UpdateGood(ip: nat, dp: nat, D': nat, ghost o: seq<Cell>)
      requires At(ip, dp, o) && D' <= dp
      modifies this`src, this`dst, this`dPrev, this`out
      ensures At(ip, dp, o) && Now() == Good(old(Now()), ip, o, D')
    {
      src, dst, dPrev := ip, dp, D';
      out := o;
    }

    /** The destination is full: saves what is left of the instruction. */
    method Suspend(ip: nat, L': nat, M': nat, D': nat, ghost o: seq<Cell>)
      requires |o| == dstEnd <= buffer.Length && Agrees(o, buffer[..])
      modifies this`src, this`dst, this`L, this`M, this`D, this`out
      ensures dst == |out| && Agrees(out, buffer[..])
      ensures Now() == old(Now()).(ip := ip, out := o, L := L', M := M', D := D')
    {
      src, dst, L, M, D := ip, dstEnd, L', M', D';
      out := o;
    }

    /** copy_match */
    method CopyMatch(ip: nat, dp: nat, M': nat, D': nat, ghost o: seq<Cell>)
      returns (more: bool, dp': nat, ghost o': seq<Cell>)
      requires At(ip, dp, o) && D' <= dp
      modifies this, buffer
      ensures unchanged(this`dstEnd) && Beyond(old(buffer[..]), buffer[..], dstEnd)
      ensures more ==> At(ip, dp', o') && Now() == old(Now()) && D' <= dp'
      ensures more ==> o' == Copied(o, D', M')
      ensures !more ==> M' > dstEnd - dp && dst == |out| && Agrees(out, buffer[..])
      ensures !more ==>
              Now() == old(Now()).(ip := ip, out := Copied(o, D', dstEnd - dp), L := 0, M := M' - (dstEnd - dp),
                                   D := D')
    {
      ghost var b := buffer[..];
      if dstEnd - dp >= M' + 7 && D' >= 8 {
        RepeatWide(buffer, dp, dstEnd, D', M');
      } else if M' <= dstEnd - dp {
        RepeatBytes(buffer, dp, dstEnd, D', M');
      } else {
        var room := dstEnd - dp;
        RepeatBytes(buffer, dp, dstEnd, D', room);
        MatchAgrees(o, b, buffer[..], dstEnd, D', room);
        Suspend(ip, 0, M' - room, D', Copied(o, D', room));
        return false, dp, o;
      }
      MatchAgrees(o, b, buffer[..], dstEnd, D', M');
      CopiedExtends(o, D', M', M');
      PrefixIsTransitive(out, o, Copied(o, D', M'));
      return true, dp + M', Copied(o, D', M');
    }

    /** The literals of copy_literal_and_match, at most three: four bytes are stored where they fit. */
    method CopyFewLiterals(ip: nat, dp: nat, L': nat, ghost o: seq<Cell>)
      requires At(ip, dp, o) && L' <= 3 && ip + L' < |source| && L' <= dstEnd - dp
      modifies buffer
      ensures Beyond(old(buffer[..]), buffer[..], dstEnd)
      ensures At(ip + L', dp + L', o + Literals(source, ip, L'))
    {
      ghost var b := buffer[..];
      if dstEnd - dp >= 4 && |source| - ip >= 4 {
        Store(buffer, dp, source[ip..ip + 4]);
        assert LiteralsWritten(b, buffer[..], dp, dstEnd, source, ip, L');
      } else {
        CopyBytes(buffer, dp, dstEnd, source, ip, L');
      }
      LiteralsAgree(o, b, buffer[..], dstEnd, source, ip, L');
      LiteralsExtend(source, ip, o, L', L');
      PrefixIsTransitive(out, o, o + Literals(source, ip, L'));
    }

    /** Fills the destination with literals and saves the rest of the instruction. */
    method CutLiterals(ip: nat, dp: nat, L': nat, M': nat, D': nat, ghost o: seq<Cell>)
      requires At(ip, dp, o) && ip + L' < |source| && L' > dstEnd - dp
      modifies this, buffer
      ensures unchanged(this`dstEnd) && Beyond(old(buffer[..]), buffer[..], dstEnd)
      ensures dst == |out| && Agrees(out, buffer[..])
      ensures var room := dstEnd - dp;
              Now() == old(Now()).(ip := ip + room, out := o + Literals(source, ip, room), L := L' - room, M := M',
                                   D := D')
    {
      ghost var b := buffer[..];
      var room := dstEnd - dp;
      CopyBytes(buffer, dp, dstEnd, source, ip, room);
      LiteralsAgree(o, b, buffer[..], dstEnd, source, ip, room);
      Suspend(ip + room, L' - room, M', D', o + Literals(source, ip, room));
    }

    /** What a shared copy routine promises: either it stopped, or decoding goes on with the next opcode. */
    twostate predicate Expanded(more: bool, ip: nat, dp: nat, o: seq<Cell>, L': nat, M': nat, D': nat, check: bool,
                                ip': nat, dp': nat, o': seq<Cell>)
      reads this, buffer
    {
      && unchanged(this`dstEnd) && Beyond(old(buffer[..]), buffer[..], dstEnd)
      && ip + L' < |source| && |o| <= dstEnd && (check || D' <= |o| + L')
      && var r := Expand(source, dstEnd, old(Now()), ip, o, L', M', D', check);
      && (more ==>
          ip' == ip + L' && At(ip', dp', o') && Now() == old(Now()) && D' <= dp'
          && r == Step(source, dstEnd, Now(), ip', o', D'))
      && (!more ==> Now() == r && dst == |out| && Agrees(out, buffer[..]))
    }

    /** copy_literal_and_match */
    method CopyLiteralAndMatch(ip: nat, dp: nat, L': nat, M': nat, D': nat, ghost o: seq<Cell>)
      returns (more: bool, ip': nat, dp': nat, ghost o': seq<Cell>)
      requires At(ip, dp, o) && L' <= 3 && ip + L' < |source|
      modifies this, buffer
      ensures Expanded(more, ip, dp, o, L', M', D', true, ip', dp', o')
    {
      if L' > dstEnd - dp {
        CutLiterals(ip, dp, L', M', D', o);
        return false, ip, dp, o;
      }
      LiteralsThenMatch(source, dstEnd, Now(), ip, o, L', M', D', true);
      CopyFewLiterals(ip, dp, L', o);
      ghost var o1 := o + Literals(source, ip, L');
      if D' > dp + L' || D' == 0 {
        return false, ip, dp, o;
      }
      more, ip', dp', o' := CopyMatchOnly(ip + L', dp + L', M', D', o1);
    }

    /** copy_match, reached without literals */
    method CopyMatchOnly(ip: nat, dp: nat, M': nat, D': nat, ghost o: seq<Cell>)
      returns (more: bool, ip': nat, dp': nat, ghost o': seq<Cell>)
      requires At(ip, dp, o) && D' <= dp
      modifies this, buffer
      ensures Expanded(more, ip, dp, o, 0, M', D', false, ip', dp', o')
    {
      assert o + Literals(source, ip, 0) == o;
      more, dp', o' := CopyMatch(ip, dp, M', D', o);
      ip' := ip;
    }

    /** copy_literal, past the check of the source length */
    method CopyLiteral(ip: nat, dp: nat, L': nat, D': nat, ghost o: seq<Cell>)
      returns (more: bool, ip': nat, dp': nat, ghost o': seq<Cell>)
      requires At(ip, dp, o) && ip + L' < |source| && D' <= dp
      modifies this, buffer
      ensures Expanded(more, ip, dp, o, L', 0, D', false, ip', dp', o')
    {
      ghost var b := buffer[..];
      ip', dp', o' := ip + L', dp + L', o + Literals(source, ip, L');
      if dstEnd - dp >= L' + 7 && |source| - ip >= L' + 7 {
        CopyWide(buffer, dp, dstEnd, source, ip, L');
      } else if L' <= dstEnd - dp {
        CopyBytes(buffer, dp, dstEnd, source, ip, L');
      } else {
        CutLiterals(ip, dp, L', 0, D', o);
        return false, ip', dp', o';
      }
      LiteralsAgree(o, b, buffer[..], dstEnd, source, ip, L');
      LiteralsExtend(source, ip, o, L', L');
      PrefixIsTransitive(out, o, o');
      more := true;
    }

    /** Goes on with the instruction saved by an earlier call. */
    method Resume() returns (more: bool, ip: nat, dp: nat, D': nat, ghost o: seq<Cell>)
      requires Valid() && Pending(Now()) && dst < dstEnd
      modifies this, buffer
      ensures unchanged(this`dstEnd) && Beyond(old(buffer[..]), buffer[..], dstEnd)
      ensures more ==>
              At(ip, dp, o) && D' <= dp && old(Call(source, Now(), dstEnd)) == Step(source, dstEnd, Now(), ip, o, D')
      ensures !more ==> Now() == old(Call(source, Now(), dstEnd)) && dst == |out| && Agrees(out, buffer[..])
    {
      ip, dp, D', o := src, dst, D, out;
      var L', M' := L, M;
      L, M, D := 0, 0, 0;
      if M' == 0 {
        more, ip, dp, o := CopyLiteral(ip, dp, L', D', o);
      } else if L' == 0 {
        more, ip, dp, o := CopyMatchOnly(ip, dp, M', D', o);
      } else {
        more, ip, dp, o := CopyLiteralAndMatch(ip, dp, L', M', D', o);
      }
    }

    /** Opcode length, literal length, match length and distance; cut if the source is too short. */
    method Unpack(ip: nat, kind: Kind, D': nat) returns (cut: bool, len: nat, L': nat, M': nat, d: nat)
      requires ip < |source| && kind == KindOf(source[ip]) && kind != Eos && kind != Udef
      ensures cut <==> OpAt(source, ip, D').Cut?
      ensures !cut ==>
              OpAt(source, ip, D') == Copy(len, L', M', d, kind == SmlD || kind == MedD || kind == LrgD || kind == PreD)
      ensures !cut && (kind == SmlL || kind == LrgL) ==> M' == 0
      ensures !cut && (kind == SmlM || kind == LrgM) ==> L' == 0
      ensures !cut && kind == Nop ==> len == 1 && L' == 0 && M' == 0
    {
      var opc: nat := source[ip];
      var left := |source| - ip;
      cut, L', M', d := true, 0, 0, D';
      match kind {
        case SmlD =>
          len, L', M' := 2, opc / 64, opc / 8 % 8 + 3;
          if left <= len + L' { return; }
          d := opc % 8 * 256 + source[ip + 1];
        case MedD =>
          len, L' := 3, opc / 8 % 4;
          if left <= len + L' { return; }
          var opc23 := Word(source, ip + 1);
          M', d := opc % 8 * 4 + opc23 % 4 + 3, opc23 / 4;
        case LrgD =>
          len, L', M' := 3, opc / 64, opc / 8 % 8 + 3;
          if left <= len + L' { return; }
          d := Word(source, ip + 1);
        case PreD =>
          len, L', M' := 1, opc / 64, opc / 8 % 8 + 3;
          if left <= len + L' { return; }
        case SmlM =>
          len := 1;
          if left <= len { return; }
          M' := opc % 16;
        case LrgM =>
          len := 2;
          if left <= len { return; }
          M' := source[ip + 1] as nat + 16;
        case SmlL =>
          len, L' := 1, opc % 16;
          if left <= len + L' { return; }
        case LrgL =>
          len := 2;
          if left <= 2 { return; }
          L' := source[ip + 1] as nat + 16;
          if left <= len + L' { return; }
        case Nop =>
          len := 1;
          if left <= len { return; }
      }
      cut := false;
    }

    /** One opcode, from its byte to the byte of the next. */
    method Instruction(ip: nat, dp: nat, D': nat, ghost o: seq<Cell>)
      returns (more: bool, ip': nat, dp': nat, d: nat, ghost o': seq<Cell>)
      requires At(ip, dp, o) && D' <= dp
      modifies this, buffer
      ensures unchanged(this`dstEnd) && Beyond(old(buffer[..]), buffer[..], dstEnd)
      ensures more ==> ip < ip' && At(ip', dp', o') && d <= dp'
      ensures more ==> old(Step(source, dstEnd, Now(), ip, o, D')) == Step(source, dstEnd, Now(), ip', o', d)
      ensures !more ==> Now() == old(Step(source, dstEnd, Now(), ip, o, D')) && dst == |out| && Agrees(out, buffer[..])
    {
      more, ip', dp', d, o' := false, ip, dp, D', o;
      var kind := KindOf(source[ip]);
      if kind == Udef {
        return;
      }
      if kind == Eos {
        if |source| - ip >= 8 {
          endOfStream := true;
          src, dst, dPrev := ip + 8, dp, D';
          out := o;
        }
        return;
      }
      UpdateGood(ip, dp, D', o);
      more, ip', dp', d, o' := Execute(ip, dp, kind, D', o);
    }

    /** An opcode with operands, once the state to fall back to is its beginning. */
    method Execute(ip: nat, dp: nat, kind: Kind, D': nat, ghost o: seq<Cell>)
      returns (more: bool, ip': nat, dp': nat, d: nat, ghost o': seq<Cell>)
      requires At(ip, dp, o) && D' <= dp && kind == KindOf(source[ip]) && kind != Eos && kind != Udef
      requires Now() == Good(Now(), ip, o, D')
      modifies this, buffer
      ensures unchanged(this`dstEnd) && Beyond(old(buffer[..]), buffer[..], dstEnd)
      ensures more ==> ip < ip' && At(ip', dp', o') && d <= dp'
      ensures more ==> old(Step(source, dstEnd, Now(), ip, o, D')) == Step(source, dstEnd, Now(), ip', o', d)
      ensures !more ==> Now() == old(Step(source, dstEnd, Now(), ip, o, D')) && dst == |out| && Agrees(out, buffer[..])
    {
      var cut, len, L', M';
      cut, len, L', M', d := Unpack(ip, kind, D');
      if cut {
        return false, ip, dp, d, o;
      }
      StepIsExpand(source, dstEnd, Now(), ip, o, D');
      OpFits(source, ip, D');
      more, ip', dp', o' := Dispatch(kind, ip + len, dp, L', M', d, o);
    }

    /** The jump to the copy routine of an opcode. */
    method Dispatch(kind: Kind, ip: nat, dp: nat, L': nat, M': nat, d: nat, ghost o: seq<Cell>)
      returns (more: bool, ip': nat, dp': nat, ghost o': seq<Cell>)
      requires At(ip, dp, o) && ip + L' < |source| && kind != Eos && kind != Udef
      requires if kind == SmlD || kind == MedD || kind == LrgD || kind == PreD then L' <= 3 else d <= dp
      requires kind == SmlL || kind == LrgL ==> M' == 0
      requires kind == SmlM || kind == LrgM ==> L' == 0
      requires kind == Nop ==> L' == 0 && M' == 0
      modifies this, buffer
      ensures Expanded(more, ip, dp, o, L', M', d,
                       kind == SmlD || kind == MedD || kind == LrgD || kind == PreD, ip', dp', o')
    {
      if kind == SmlL || kind == LrgL {
        more, ip', dp', o' := CopyLiteral(ip, dp, L', d, o);
      } else if kind == SmlM || kind == LrgM {
        more, ip', dp', o' := CopyMatchOnly(ip, dp, M', d, o);
      } else if kind == Nop {
        more, ip', dp', o' := true, ip, dp, o;
        NothingToExpand(source, dstEnd, Now(), ip, o, d);
      } else {
        more, ip', dp', o' := CopyLiteralAndMatch(ip, dp, L', M', d, o);
      }
    }

    /** lzvn_decode */
    method Decode()
      requires Valid()
      modifies this, buffer
      ensures Valid() && Now() == old(Call(source, Now(), dstEnd))
      ensures unchanged(this`dstEnd) && Beyond(old(buffer[..]), buffer[..], dstEnd)
    {
      CallIsValid(source, Now(), dstEnd);
      if |source| == src || dstEnd == dst {
        return;
      }
      ghost var goal := Call(source, Now(), dstEnd);
      var more, ip, dp, d := true, src, dst, dPrev;
      ghost var o := out;
      if L != 0 || M != 0 {
        more, ip, dp, d, o := Resume();
      }
      while more
        invariant unchanged(this`dstEnd) && Beyond(old(buffer[..]), buffer[..], dstEnd)
        invariant more ==> At(ip, dp, o) && d <= dp && Step(source, dstEnd, Now(), ip, o, d) == goal
        invariant !more ==> Now() == goal && dst == |out| && Agrees(out, buffer[..])
        decreases if more then |source| - ip else -1
      {
        more, ip, dp, d, o := Instruction(ip, dp, d, o);
      }
    }
  }

  lemma NothingToExpand(src: seq<byte>, cap: nat, good: State, ip: nat, out: seq<Cell>, D: nat)
    requires ip < |src| && D <= |out| <= cap
    ensures Expand(src, cap, good, ip, out, 0, 0, D, false) == Step(src, cap, good, ip, out, D)
  {
    assert out + Literals(src, ip, 0) == out;
  }

  /** Nothing at or past the end of the destination changes. */
  ghost predicate Beyond(b: seq<byte>, b': seq<byte>, end: nat) {
    |b'| == |b| && forall k {:trigger b'[k]} :: end <= k < |b| ==> b'[k] == b[k]
  }

  /**
    lzvn_decode_buffer. What it returns is a prefix of what the stream emits: all of it when the stream
    ends properly and there is room, and without room for all of it as much as there is room for.
   */
  method DecodeBuffer(dst: array<byte>, dstSize: nat, src: seq<byte>) returns (n: nat)
    requires dstSize <= dst.Length
    modifies dst
    ensures n <= dstSize && Beyond(old(dst[..]), dst[..], dstSize)
    ensures src == [] || dstSize == 0 ==> n == 0
    ensures src != [] ==> var whole := Interp(src, 0, [], 0);
              && n <= |whole.0| && Agrees(whole.0[..n], dst[..])
              && (whole.1 && |whole.0| <= dstSize && dstSize > 0 ==> n == |whole.0|)
              && (|whole.0| > dstSize ==> n == dstSize)
    ensures src != [] ==> var kept := Call(src, FRESH, dstSize).out; n == |kept| && Agrees(kept, dst[..])
  {
    var dstate := new DecoderState(src, dst, dstSize);
    dstate.Decode();
    if src != [] && dstSize > 0 {
      FreshCallRepresents(src, dstSize);
    }
    return dstate.dst;
  }
}
