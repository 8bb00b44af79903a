/** KernelPatcher: routing a function, and removing the patches at the end. */
module RoutePatcher {
  import opened Bytes
  import opened Routes
  import opened RouteUndo

  /** Panic stops the kernel; Routed gives what a wrapper is to call as the original, or 0. */
  datatype Outcome = Panic | Failed | Routed(trampoline: nat)

  // ---------- what routeFunctionInternal decides ----------

  /** A route, as asked for; near says that a 32-bit relative jump reaches the target. */
  datatype Request = Request(near: bool, buildWrapper: bool, jumpType: JumpType, info: bool, trampolineAt: nat)

  function Asked(from: int, to: Address, buildWrapper: bool, jumpType: JumpType, info: bool, trampolineAt: nat): Request
  {
    Request(Near(from, to), buildWrapper, jumpType, info, trampolineAt)
  }

  predicate TooFar(q: Request) {
    q.jumpType == ShortType && !q.near
  }

  /** A short jump that does not reach, or no trampoline for a function that does not start with a jump. */
  predicate Fails(q: Request, r: (nat, JumpType)) {
    TooFar(q) || (r.0 == 0 && q.buildWrapper && q.trampolineAt == 0)
  }

  predicate SlotLeft(next: int, hi: int) {
    next != 0 && next + 8 <= hi
  }

  /** Over a jump r: a short one on either side, or a slotted one without another slot. */
  predicate Panics(q: Request, r: (nat, JumpType), slotLeft: bool) {
    && !TooFar(q) && r.0 != 0
    && (r.1 == ShortType || q.jumpType == ShortType || (r.1 == MediumType && !(q.info && slotLeft)))
  }

  /** Over a slotted jump, or for a wrapper whose target is far or which is to be long. */
  predicate WantsSlot(q: Request, r: (nat, JumpType)) {
    if r.0 != 0 then r.1 == MediumType
    else q.buildWrapper && q.info && (q.jumpType == LongType || (q.jumpType == AutoType && !q.near))
  }

  function Decided(q: Request, r: (nat, JumpType), slotLeft: bool): Outcome {
    if Fails(q, r) then Failed
    else if Panics(q, r, slotLeft) then Panic
    else Routed(if !q.buildWrapper then 0 else if r.0 != 0 then r.0 else q.trampolineAt)
  }

  function ChosenForm(q: Request, r: (nat, JumpType), next: int, hi: int): Form {
    if WantsSlot(q, r) && SlotLeft(next, hi) then Medium(next)
    else if q.jumpType == LongType || !q.near then Long else Short
  }

  /** The slot that is taken, also if no trampoline is left for the route then. */
  function SlotsAfter(q: Request, r: (nat, JumpType), next: int, hi: int): int {
    if !TooFar(q) && !Panics(q, r, SlotLeft(next, hi)) && WantsSlot(q, r) && SlotLeft(next, hi) then next + 8 else next
  }

  /** The form of a route that goes through is fresh, and fits over the jump before it. */
  lemma FormFits(q: Request, r: (nat, JumpType), next: int, hi: int)
    requires !Fails(q, r) && !Panics(q, r, SlotLeft(next, hi)) && 0 <= next
    ensures var form := ChosenForm(q, r, next, hi);
            && Fresh(form, next, hi) && NextSlot(form, next) == SlotsAfter(q, r, next, hi) && (form.Short? ==> q.near)
            && (r.0 != 0 ==> Length(form) <= Extent(r.1))
  {}

  class KernelPatcher {
    const mem: array<byte>
    var addressSlots: int
    var addressSlotsEnd: int
    var kpatches: seq<Patch>
    ghost const firstSlot: int
    ghost var hooks: map<int, Hook>

    ghost predicate Valid()
      reads this, mem
    {
      Inv(mem[..], kpatches, hooks, firstSlot, addressSlots, addressSlotsEnd)
    }

    constructor (mem: array<byte>, slots: int, slotsEnd: int)
      requires 0 <= slots <= slotsEnd <= mem.Length < 0x1_0000_0000_0000_0000
      ensures Valid() && this.mem == mem && kpatches == [] && hooks == map[]
      ensures firstSlot == addressSlots == slots && addressSlotsEnd == slotsEnd
    {
      this.mem, addressSlots, addressSlotsEnd, kpatches := mem, slots, slotsEnd, [];
      firstSlot, hooks := slots, map[];
    }

    /** MachInfo::getAddressSlot */
    method GetAddressSlot() returns (slot: int)
      requires Valid()
      modifies this`addressSlots
      ensures Valid() && 0 <= slot
      ensures slot != 0 <==> SlotLeft(old(addressSlots), addressSlotsEnd)
      ensures slot != 0 ==> slot == old(addressSlots) && addressSlots == slot + 8 <= addressSlotsEnd
      ensures slot == 0 ==> addressSlots == old(addressSlots)
    {
      if addressSlots != 0 && addressSlots + 8 <= addressSlotsEnd {
        slot := addressSlots;
        addressSlots := addressSlots + 8;
        MoreSlots(mem[..], kpatches, hooks, firstSlot, slot, addressSlots, addressSlotsEnd);
      } else {
        slot := 0;
      }
    }

    method Write(a: int, w: seq<byte>)
      requires 0 <= a && a + |w| <= mem.Length
      modifies mem
      ensures mem[..] == Written(old(mem[..]), a, w)
    {
      forall i | 0 <= i < |w| {
        mem[a + i] := w[i];
      }
    }

    method WriteTwo(from: int, op: seq<byte>, arg: seq<byte>)
      requires 0 <= from && from + |op| + |arg| <= mem.Length
      modifies mem
      ensures mem[..] == Written(old(mem[..]), from, op + arg)
    {
      WrittenTwice(mem[..], from, op, arg);
      Write(from, op);
      Write(from + |op|, arg);
    }

    /** Opcode and argument: in one eight-byte store if from is aligned, the rest of it from memory. */
    method WriteCode(from: int, form: Form, to: Address)
      requires Placed(mem[..], from, form) && !form.Long?
      modifies mem
      ensures mem[..] == Written(old(mem[..]), from, Code(from, form, to))
    {
      var op, arg := Opcode(form), LE32(Argument(from, form, to));
      ghost var c := Code(from, form, to);
      assert c == op + arg;
      if from % 8 == 0 {
        var org := mem[from + Length(form)..from + 8];
        WrittenWider(mem[..], from, c, 8 - Length(form));
        Write(from, op + arg + org);
      } else {
        WriteTwo(from, op, arg);
      }
    }

    /** The target first, then opcode and argument. */
    method WriteParts(from: int, op: seq<byte>, arg: seq<byte>, disp: seq<byte>)
      requires 0 <= from && from + |op| + |arg| + |disp| <= mem.Length
      modifies mem
      ensures mem[..] == Written(old(mem[..]), from, op + arg + disp)
    {
      WrittenTwice(mem[..], from, op + arg, disp);
      Write(from + |op + arg|, disp);
      WriteTwo(from, op, arg);
    }

    /** The long form: one sixteen-byte store if from is aligned. */
    method WriteLong(from: int, to: Address)
      requires Placed(mem[..], from, Long)
      modifies mem
      ensures mem[..] == Written(old(mem[..]), from, Code(from, Long, to))
    {
      var op, arg, disp := Opcode(Long), LE32(0), LE64(to);
      ghost var c := Code(from, Long, to);
      assert c == op + arg + disp;
      if from % 16 == 0 {
        var org := mem[from + LONG_JUMP..from + WINDOW];
        WrittenWider(mem[..], from, c, 2);
        Write(from, op + arg + disp + org);
      } else {
        WriteParts(from, op, arg, disp);
      }
    }

    method Install(from: int, form: Form, to: Address)
      requires Placed(mem[..], from, form)
      modifies mem
      ensures mem[..] == Installed(old(mem[..]), from, form, to)
    {
      match form {
        case Medium(slot) =>
          Write(slot, LE64(to));
          WriteCode(from, form, to);
        case Short =>
          WriteCode(from, form, to);
        case Long =>
          WriteLong(from, to);
      }
    }

    /** readChain on memory. */
    method Chain(from: int) returns (trampoline: nat, prevJump: JumpType)
      requires Readable(mem[..], from)
      ensures (trampoline, prevJump) == ReadChain(mem[..], from)
    {
      ghost var m := mem[..];
      trampoline, prevJump := 0, AutoType;
      if mem[from] as int + 256 * mem[from + 1] as int == 0x25FF {
        assert mem[from + 2..from + MEDIUM_JUMP] == m[from + 2..from + MEDIUM_JUMP];
        var disp := Signed32(FromLE32(mem[from + 2..from + MEDIUM_JUMP]));
        prevJump := if disp != 0 then MediumType else LongType;
        var a := Wrap(from + MEDIUM_JUMP + disp);
        assert mem[a..a + 8] == m[a..a + 8];
        trampoline := FromLE64(mem[a..a + 8]);
      } else if mem[from] == 0xE9 {
        assert mem[from + 1..from + SMALL_JUMP] == m[from + 1..from + SMALL_JUMP];
        prevJump := ShortType;
        trampoline := Wrap(from + SMALL_JUMP + Signed32(FromLE32(mem[from + 1..from + SMALL_JUMP])));
      }
    }

    /** The state a caller must find: from may be routed, and what it starts with can be read. */
    ghost predicate Ready(from: int)
      reads this, mem
    {
      Valid() && Routable(mem[..], hooks, firstSlot, addressSlotsEnd, from) && Readable(mem[..], from)
    }

    /** Nothing but the supply of slots has changed. */
    twostate predicate OnlySlots()
      reads this, mem
    {
      mem[..] == old(mem[..]) && unchanged(this`kpatches) && unchanged(this`hooks) && unchanged(this`addressSlotsEnd)
    }

    /**
      The first half of routeFunctionInternal: which form the jump takes and what the wrapper calls.
      stop is set when the route is given up.
     */
    method Plan(from: int, to: Address, buildWrapper: bool, revertible: bool, jumpType: JumpType, info: bool,
                trampolineAt: nat)
      returns (stop: bool, outcome: Outcome, form: Form, undo: bool)
      requires Ready(from)
      modifies this`addressSlots
      ensures Ready(from) && OnlySlots()
      ensures outcome == Decided(Asked(from, to, buildWrapper, jumpType, info, trampolineAt),
                                 ReadChain(mem[..], from), SlotLeft(old(addressSlots), addressSlotsEnd))
      ensures stop <==> !outcome.Routed?
      ensures addressSlots == SlotsAfter(Asked(from, to, buildWrapper, jumpType, info, trampolineAt),
                                         ReadChain(mem[..], from), old(addressSlots), addressSlotsEnd)
      ensures !stop ==>
                form == ChosenForm(Asked(from, to, buildWrapper, jumpType, info, trampolineAt),
                                   ReadChain(mem[..], from), old(addressSlots), addressSlotsEnd)
      ensures !stop ==>
              Fresh(form, old(addressSlots), addressSlotsEnd) && addressSlots == NextSlot(form, old(addressSlots))
      ensures !stop ==> Placed(mem[..], from, form) && (form.Short? ==> Near(from, to))
      ensures !stop ==> var r := ReadChain(mem[..], from);
                && (undo <==> revertible && r.0 == 0)
                && (r.0 != 0 ==> Length(form) <= Extent(r.1))
    {
      form, undo := Long, revertible;
      var absolute := !Near(from, to);
      if jumpType == LongType {
        absolute := true;
      } else if jumpType == ShortType && absolute {
        return true, Failed, form, undo;
      }
      var trampoline, prevJump := Chain(from);
      undo := undo && trampoline == 0;
      var addressSlot;
      outcome, addressSlot :=
        SlotFor(trampoline, prevJump, Asked(from, to, buildWrapper, jumpType, info, trampolineAt), absolute);
      if !outcome.Routed? {
        return true, outcome, form, undo;
      }
      form := if addressSlot != 0 then Medium(addressSlot) else if absolute then Long else Short;
      FormFits(Asked(from, to, buildWrapper, jumpType, info, trampolineAt), (trampoline, prevJump), old(addressSlots),
               addressSlotsEnd);
      FreshIsPlaced(mem[..], kpatches, hooks, firstSlot, old(addressSlots), addressSlotsEnd, from, form);
      return false, outcome, form, undo;
    }

    /** What becomes of a route over what the function starts with, and the slot for it. */
    method SlotFor(trampoline: nat, prevJump: JumpType, q: Request, absolute: bool)
      returns (outcome: Outcome, addressSlot: int)
      requires Valid() && !TooFar(q) && absolute == (q.jumpType == LongType || !q.near)
      modifies this`addressSlots
      ensures Valid()
      ensures outcome == Decided(q, (trampoline, prevJump), SlotLeft(old(addressSlots), addressSlotsEnd))
      ensures addressSlots == SlotsAfter(q, (trampoline, prevJump), old(addressSlots), addressSlotsEnd)
      ensures outcome.Routed? ==>
                addressSlot == if WantsSlot(q, (trampoline, prevJump)) && SlotLeft(old(addressSlots), addressSlotsEnd)
                               then old(addressSlots) else 0
    {
      addressSlot := 0;
      if trampoline != 0 {
        var ok;
        ok, addressSlot := SlotOver(prevJump, q.jumpType, q.info);
        if !ok {
          return Panic, addressSlot;
        }
        return Routed(if q.buildWrapper then trampoline else 0), addressSlot;
      }
      if q.buildWrapper {
        if q.info && absolute && (q.jumpType == AutoType || q.jumpType == LongType) {
          addressSlot := GetAddressSlot();
        }
        if q.trampolineAt == 0 {
          return Failed, addressSlot;
        }
        return Routed(q.trampolineAt), addressSlot;
      }
      return Routed(0), addressSlot;
    }

    /** The tests before a function that starts with a jump is routed again, and the slot for it. */
    method SlotOver(prevJump: JumpType, jumpType: JumpType, info: bool) returns (ok: bool, addressSlot: int)
      requires Valid()
      modifies this`addressSlots
      ensures Valid()
      ensures ok <==> prevJump != ShortType && jumpType != ShortType
                      && (prevJump == MediumType ==> info && SlotLeft(old(addressSlots), addressSlotsEnd))
      ensures addressSlot == if ok && prevJump == MediumType then old(addressSlots) else 0
      ensures addressSlots == if ok && prevJump == MediumType then old(addressSlots) + 8 else old(addressSlots)
    {
      addressSlot := 0;
      if prevJump == ShortType || jumpType == ShortType {
        return false, 0;
      }
      if prevJump == MediumType {
        if !info {
          return false, 0;
        }
        addressSlot := GetAddressSlot();
        return addressSlot != 0, addressSlot;
      }
      return true, 0;
    }

    /**
      routeFunctionInternal. Whether a route is given up, and in which form it is written, follows from what the
      function starts with and from the slots left; one that is given up changes nothing but their supply. Otherwise
      memory, patches and hooks are as stated, and a wrapper calls the previous target, or the trampoline of a
      function that did not start with a jump; trampolineAt is the address of that trampoline, 0 if none can be built.
      Unless its slot is out of reach, the route leads to its target. Behind a route that works, and not to address 0,
      a further one leaves alone what undoing does.
     */
    method RouteFunction(from: int, to: Address, buildWrapper: bool, kernelRoute: bool, revertible: bool,
                         jumpType: JumpType, info: bool, trampolineAt: nat)
      returns (outcome: Outcome, ghost form: Form, ghost undo: bool)
      requires Ready(from)
      modifies this, mem
      ensures Valid()
      ensures !outcome.Routed? ==> OnlySlots()
      ensures outcome.Routed? ==>
                && Placed(old(mem[..]), from, form) && mem[..] == Installed(old(mem[..]), from, form, to)
                && kpatches == old(kpatches) + (if undo then Patches(old(mem[..]), from, form, to) else [])
                && hooks == Hooked(old(mem[..]), old(hooks), from, form, to, undo)
      ensures outcome == Decided(Asked(from, to, buildWrapper, jumpType, info, trampolineAt),
                                 old(ReadChain(mem[..], from)), old(SlotLeft(addressSlots, addressSlotsEnd)))
      ensures addressSlotsEnd == old(addressSlotsEnd)
      ensures addressSlots == SlotsAfter(Asked(from, to, buildWrapper, jumpType, info, trampolineAt),
                                         old(ReadChain(mem[..], from)), old(addressSlots), addressSlotsEnd)
      ensures outcome.Routed? ==>
                form == ChosenForm(Asked(from, to, buildWrapper, jumpType, info, trampolineAt),
                                   old(ReadChain(mem[..], from)), old(addressSlots), addressSlotsEnd)
      ensures outcome.Routed? ==> (undo <==> kernelRoute && revertible && old(ReadChain(mem[..], from).0) == 0)
      ensures outcome.Routed? && (form.Medium? ==> InReach(from, form.slot)) ==>
                Readable(mem[..], from) && ReadChain(mem[..], from) == (to as nat, Kind(form))
      ensures outcome.Routed? && old(from in hooks && hooks[from].leads && hooks[from].target != 0) ==>
                hooks[from].undo == old(hooks[from].undo) && hooks[from].reach == old(hooks[from].reach)
    {
      ghost var m, ps, hs, next := mem[..], kpatches, hooks, addressSlots;
      var stop, plan, keep;
      stop, outcome, plan, keep :=
        Plan(from, to, buildWrapper, kernelRoute && revertible, jumpType, info, trampolineAt);
      form, undo := plan, keep;
      if stop {
        return;
      }
      Perform(from, plan, to, keep);
      RoutedState(m, ps, hs, firstSlot, next, addressSlotsEnd, from, form, to, undo, mem[..], kpatches);
      hooks := Hooked(m, hs, from, form, to, undo);
    }

    /** The second half: patches are recorded and memory is written. */
    method Perform(from: int, form: Form, to: Address, undo: bool)
      requires Placed(mem[..], from, form)
      modifies this`kpatches, mem
      ensures mem[..] == Installed(old(mem[..]), from, form, to)
      ensures kpatches == old(kpatches) + if undo then Patches(old(mem[..]), from, form, to) else []
    {
      var added := if undo then Patches(mem[..], from, form, to) else [];
      Install(from, form, to);
      kpatches := kpatches + added;
    }

    /**
      deinit: a function for which patches were kept has its first bytes again exactly if they were not kept a second
      time.
     */
    method Deinit()
      requires Valid()
      modifies this`kpatches, mem
      ensures kpatches == [] && InMemory(old(kpatches), |old(mem[..])|)
              && mem[..] == Restored(old(mem[..]), old(kpatches))
      ensures forall f {:trigger f in hooks} :: f in hooks && IsUndone(hooks[f]) ==>
              0 <= f && f + WINDOW <= mem.Length
              && (mem[f..f + WINDOW] == hooks[f].original <==> hooks[f].undo.Restores?)
    {
      ghost var m, ps := mem[..], kpatches;
      var i := 0;
      while i < |kpatches|
        invariant 0 <= i <= |kpatches| && kpatches == ps
        invariant InMemory(ps[i..], |mem[..]|) && Restored(mem[..], ps[i..]) == Restored(m, ps)
      {
        assert ps[i..][0] == ps[i] && ps[i..][1..] == ps[i + 1..];
        Write(kpatches[i].addr, kpatches[i].original);
        i := i + 1;
      }
      assert ps[i..] == [];
      kpatches := [];
      forall f | f in hooks && IsUndone(hooks[f])
        ensures 0 <= f && f + WINDOW <= mem.Length
        ensures mem[..][f..f + WINDOW] == hooks[f].original <==> hooks[f].undo.Restores?
      {
        UndoneExactly(m, ps, hooks, firstSlot, addressSlots, addressSlotsEnd, f);
      }
    }
  }

  /** Patches were kept for the function, for all that was written, and it did not start with a jump. */
  predicate IsUndone(h: Hook) {
    !h.undo.Unkept? && h.reach == h.cover && |h.original| == WINDOW && !StartsJump(h.original, 0)
  }

  lemma MoreSlots(m: seq<byte>, ps: seq<Patch>, hooks: map<int, Hook>, lo: int, next: int, next': int, hi: int)
    requires Inv(m, ps, hooks, lo, next, hi) && next <= next' <= hi
    ensures Inv(m, ps, hooks, lo, next', hi)
  {}

  lemma FreshIsPlaced(m: seq<byte>, ps: seq<Patch>, hooks: map<int, Hook>, lo: int, next: int, hi: int, from: int,
                      form: Form)
    requires Inv(m, ps, hooks, lo, next, hi) && Routable(m, hooks, lo, hi, from) && Fresh(form, next, hi)
    ensures Placed(m, from, form)
  {}

  /** The bookkeeping after a route. */
  lemma RoutedState(m: seq<byte>, ps: seq<Patch>, hooks: map<int, Hook>, lo: int, next: int, hi: int, from: int,
                    form: Form, to: Address, undo: bool, m': seq<byte>, ps': seq<Patch>)
    requires Inv(m, ps, hooks, lo, next, hi) && Routable(m, hooks, lo, hi, from) && Readable(m, from)
    requires Fresh(form, next, hi) && Placed(m, from, form) && (form.Short? ==> Near(from, to))
    requires ReadChain(m, from).0 != 0 ==> !undo && Length(form) <= Extent(ReadChain(m, from).1)
    requires m' == Installed(m, from, form, to) && ps' == ps + if undo then Patches(m, from, form, to) else []
    ensures Inv(m', ps', Hooked(m, hooks, from, form, to, undo), lo, NextSlot(form, next), hi)
    ensures (form.Medium? ==> InReach(from, form.slot)) ==>
              Readable(m', from) && ReadChain(m', from) == (to as nat, Kind(form))
    ensures from in hooks && hooks[from].leads && hooks[from].target != 0 ==>
              var h := Hooked(m, hooks, from, form, to, undo)[from];
              h.undo == hooks[from].undo && h.reach == hooks[from].reach
  {
    PatchesAreSome(m, from, form, to);
    var added := if undo then Patches(m, from, form, to) else [];
    RouteKeepsInv(m, ps, hooks, lo, next, hi, from, form, to, added);
    if Works(from, form, to) {
      RouteIsReadBack(m, from, form, to);
    }
    if from in hooks && hooks[from].leads {
      WorkingRouteIsKept(m, hooks, lo, next, from, form, to);
    }
  }

  // ---------- routes of one function in turn ----------

  /** What a function starts with after some long wrapped routes. */
  predicate StartsWith(r: (nat, JumpType), last: Address, info: bool) {
    if last == 0 then r.0 == 0 else r == (last as nat, if info then MediumType else LongType)
  }

  lemma LongIsRouted(q: Request, r: (nat, JumpType), last: Address, next: int, hi: int)
    requires q.jumpType == LongType && q.buildWrapper && q.trampolineAt != 0 && StartsWith(r, last, q.info)
    requires q.info ==> SlotLeft(next, hi)
    ensures Decided(q, r, SlotLeft(next, hi)) == Routed(if last == 0 then q.trampolineAt else last)
    ensures ChosenForm(q, r, next, hi) == if q.info then Medium(next) else Long
    ensures q.info ==> SlotsAfter(q, r, next, hi) == next + 8
  {}

  /** The slots from first up to hi are within reach. */
  predicate AllInReach(from: int, first: int, hi: int) {
    forall slot {:trigger InReach(from, slot)} :: first <= slot < hi ==> InReach(from, slot)
  }

  lemma SlotInReach(from: int, first: int, hi: int, slot: int)
    requires AllInReach(from, first, hi) && first <= slot < hi
    ensures InReach(from, slot)
  {}

  /** One of them: last is the target of the one before, 0 if there is none. */
  method RouteOver(p: KernelPatcher, from: int, to: Address, ghost last: Address, info: bool, trampolineAt: nat,
                   ghost first: int)
    returns (outcome: Outcome)
    requires p.Ready(from) && StartsWith(ReadChain(p.mem[..], from), last, info) && trampolineAt != 0 && to != 0
    requires info ==> 0 < first <= p.addressSlots && p.addressSlots + 8 <= p.addressSlotsEnd
                      && AllInReach(from, first, p.addressSlotsEnd)
    modifies p, p.mem
    ensures p.Ready(from) && StartsWith(ReadChain(p.mem[..], from), to, info)
    ensures outcome == Routed(if last == 0 then trampolineAt else last)
    ensures p.addressSlotsEnd == old(p.addressSlotsEnd) && (info ==> p.addressSlots == old(p.addressSlots) + 8)
  {
    LongIsRouted(Asked(from, to, true, LongType, info, trampolineAt), ReadChain(p.mem[..], from), last, p.addressSlots,
                 p.addressSlotsEnd);
    if info {
      SlotInReach(from, first, p.addressSlotsEnd, p.addressSlots);
    }
    ghost var form, undo;
    outcome, form, undo := p.RouteFunction(from, to, true, true, true, LongType, info, trampolineAt);
  }

  function LastOf(tos: seq<Address>, last: Address): Address {
    if tos == [] then last else LastOf(tos[1..], tos[0])
  }

  /** The first wrapper is given the trampoline, or last; each other one the target of the route before. */
  predicate AreOriginals(outcomes: seq<Outcome>, tos: seq<Address>, last: Address, trampolineAt: nat) {
    && |outcomes| == |tos|
    && forall i {:trigger outcomes[i]} :: 0 <= i < |tos| ==>
         outcomes[i] == Routed(if i > 0 then tos[i - 1] else if last == 0 then trampolineAt else last)
  }

  lemma OriginalBefore(outcome: Outcome, rest: seq<Outcome>, tos: seq<Address>, last: Address, trampolineAt: nat)
    requires tos != [] && tos[0] != 0 && AreOriginals(rest, tos[1..], tos[0], trampolineAt)
    requires outcome == Routed(if last == 0 then trampolineAt else last)
    ensures AreOriginals([outcome] + rest, tos, last, trampolineAt)
  {
    forall i | 1 <= i < |tos| ensures ([outcome] + rest)[i] == Routed(tos[i - 1]) {
      assert ([outcome] + rest)[i] == rest[i - 1];
    }
  }

  /**
    Several wrapped long routes of one function, with a slot for each or with none at all: all go through. last is
    the target of the route before them, 0 if there is none.
   */
  method RouteInTurn(p: KernelPatcher, from: int, tos: seq<Address>, ghost last: Address, info: bool,
                     trampolineAt: nat, ghost first: int)
    returns (outcomes: seq<Outcome>)
    requires p.Ready(from) && StartsWith(ReadChain(p.mem[..], from), last, info) && trampolineAt != 0
    requires 0 !in tos
    requires info ==> 0 < first <= p.addressSlots && p.addressSlots + 8 * |tos| <= p.addressSlotsEnd
                      && AllInReach(from, first, p.addressSlotsEnd)
    modifies p, p.mem
    ensures p.Ready(from) && AreOriginals(outcomes, tos, last, trampolineAt)
    ensures StartsWith(ReadChain(p.mem[..], from), LastOf(tos, last), info)
    decreases |tos|
  {
    if tos == [] {
      return [];
    }
    var outcome := RouteOver(p, from, tos[0], last, info, trampolineAt, first);
    var rest := RouteInTurn(p, from, tos[1..], tos[0], info, trampolineAt, first);
    OriginalBefore(outcome, rest, tos, last, trampolineAt);
    outcomes := [outcome] + rest;
  }
}
