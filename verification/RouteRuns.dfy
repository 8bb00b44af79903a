/** Routes of one function one after another, and when undoing them all gives the function its bytes back. */
module RouteRuns {
  import opened Bytes
  import opened Routes
  import opened RouteUndo

  datatype Route = Route(form: Form, to: Address)

  /** Memory, the patches kept, and what is known about the function. */
  datatype Routed = Routed(m: seq<byte>, ps: seq<Patch>, h: Hook)

  predicate AllPlaced(m: seq<byte>, from: int, rs: seq<Route>) {
    && 0 <= from && from + WINDOW <= |m|
    && forall i {:trigger rs[i]} :: 0 <= i < |rs| ==> Placed(m, from, rs[i].form)
  }

  /** What the function starts with reads as no jump, so that a route keeps its patches. */
  predicate ReadsAsNone(m: seq<byte>, from: int) {
    Readable(m, from) && ReadChain(m, from).0 == 0
  }

  function First(m: seq<byte>, from: int, r: Route): Routed
    requires Placed(m, from, r.form)
  {
    Routed(Installed(m, from, r.form, r.to), Patches(m, from, r.form, r.to),
           Hook(m[from..from + WINDOW], Length(r.form), Length(r.form), r.to, Works(from, r.form, r.to), Restores))
  }

  function Next(s: Routed, from: int, r: Route): Routed
    requires Placed(s.m, from, r.form)
  {
    var kept := ReadsAsNone(s.m, from);
    Routed(Installed(s.m, from, r.form, r.to), s.ps + (if kept then Patches(s.m, from, r.form, r.to) else []),
           Rehooked(s.h, from, r.form, r.to, kept))
  }

  /** A revertible route of the function, and revertible ones behind it. */
  function Run(s: Routed, from: int, rs: seq<Route>): Routed
    requires AllPlaced(s.m, from, rs)
    decreases |rs|
  {
    if rs == [] then s else Run(Next(s, from, rs[0]), from, rs[1..])
  }

  /** No route finds a function that reads as none. */
  predicate NoneKeptAgain(s: Routed, from: int, rs: seq<Route>)
    requires AllPlaced(s.m, from, rs)
    decreases |rs|
  {
    rs == [] || (!ReadsAsNone(s.m, from) && NoneKeptAgain(Next(s, from, rs[0]), from, rs[1..]))
  }

  /** Over a jump that is read, no route is longer than what has been written. */
  predicate Fitting(s: Routed, from: int, rs: seq<Route>)
    requires AllPlaced(s.m, from, rs)
    decreases |rs|
  {
    rs == [] || ((ReadsAsNone(s.m, from) || Length(rs[0].form) <= s.h.reach)
                 && Fitting(Next(s, from, rs[0]), from, rs[1..]))
  }

  /** The state is as its hook says. */
  ghost predicate Sound(s: Routed, from: int) {
    && 0 <= from && from + WINDOW <= |s.m| && InMemory(s.ps, |s.m|) && |s.h.original| == WINDOW
    && s.h.cover <= s.h.reach <= WINDOW
    && StartsJump(s.m, from) && UndoneSo(s.m, s.ps, from, s.h) && !s.h.undo.Unkept?
    && (s.h.undo.Restores? ==> OnlyCode(s, from))
  }

  /** The patches cover nothing of the function behind what the first route has written. */
  ghost predicate OnlyCode(s: Routed, from: int) {
    forall x {:trigger Covered(s.ps, x)} :: from + s.h.cover <= x < from + WINDOW ==> !Covered(s.ps, x)
  }

  lemma FirstIsSound(m: seq<byte>, from: int, r: Route)
    requires Placed(m, from, r.form)
    ensures Sound(First(m, from, r), from)
  {
    var s := First(m, from, r);
    StartsWithCode(m, from, r.form, r.to);
    forall x | from <= x < from + WINDOW
      ensures Restored(s.m, s.ps)[x] == m[x] && (x < from + Length(r.form) <==> Covered(s.ps, x))
    {
      PatchesCover(m, from, r.form, r.to, x);
      if x < from + Length(r.form) {
        PatchesRestore(m, s.m, from, r.form, r.to, x);
      } else {
        RestoredUncovered(s.m, s.ps, x);
      }
    }
    UndoableBy(m, s.m, s.ps, from, s.h);
  }

  lemma NextIsSound(s: Routed, from: int, r: Route)
    requires Sound(s, from) && Placed(s.m, from, r.form)
    ensures Sound(Next(s, from, r), from)
  {
    StartsWithCode(s.m, from, r.form, r.to);
    if ReadsAsNone(s.m, from) {
      PatchesAreSome(s.m, from, r.form, r.to);
      SelfAgain(s.m, s.ps, Patches(s.m, from, r.form, r.to), from, s.h, r.form, r.to);
    } else {
      assert s.ps + [] == s.ps;
      SelfAgain(s.m, s.ps, [], from, s.h, r.form, r.to);
      assert Next(s, from, r).ps == s.ps;
    }
  }

  lemma {:induction false} SpoiledStays(s: Routed, from: int, rs: seq<Route>)
    requires Sound(s, from) && AllPlaced(s.m, from, rs) && s.h.undo.Spoiled?
    ensures Sound(Run(s, from, rs), from) && Run(s, from, rs).h.undo.Spoiled?
    ensures Run(s, from, rs).h.original == s.h.original && Run(s, from, rs).h.cover == s.h.cover
    decreases |rs|
  {
    if rs != [] {
      NextIsSound(s, from, rs[0]);
      SpoiledStays(Next(s, from, rs[0]), from, rs[1..]);
    }
  }

  /** At the end undoing still restores exactly if no patches have been kept again on the way. */
  lemma {:induction false} RunIsSound(s: Routed, from: int, rs: seq<Route>)
    requires Sound(s, from) && AllPlaced(s.m, from, rs) && s.h.undo.Restores?
    ensures var s' := Run(s, from, rs);
            && Sound(s', from) && s'.h.original == s.h.original && s'.h.cover == s.h.cover
            && s'.h.undo == if NoneKeptAgain(s, from, rs) then Restores else Spoiled
    decreases |rs|
  {
    if rs != [] {
      NextIsSound(s, from, rs[0]);
      if ReadsAsNone(s.m, from) {
        SpoiledStays(Next(s, from, rs[0]), from, rs[1..]);
      } else {
        RunIsSound(Next(s, from, rs[0]), from, rs[1..]);
      }
    }
  }

  lemma {:induction false} FittingKeepsReach(s: Routed, from: int, rs: seq<Route>)
    requires AllPlaced(s.m, from, rs) && Fitting(s, from, rs) && NoneKeptAgain(s, from, rs)
    ensures Run(s, from, rs).h.reach == s.h.reach
    decreases |rs|
  {
    if rs != [] {
      FittingKeepsReach(Next(s, from, rs[0]), from, rs[1..]);
    }
  }

  ghost predicate Undone(m: seq<byte>, s: Routed, from: int)
    requires 0 <= from && from + WINDOW <= |m|
  {
    InMemory(s.ps, |s.m|) && |s.m| == |m| &&
    forall x {:trigger m[x]} :: from <= x < from + WINDOW ==> Restored(s.m, s.ps)[x] == m[x]
  }

  lemma {:induction false} RunKeepsSize(s: Routed, from: int, rs: seq<Route>)
    requires AllPlaced(s.m, from, rs)
    ensures |Run(s, from, rs).m| == |s.m|
    decreases |rs|
  {
    if rs != [] {
      RunKeepsSize(Next(s, from, rs[0]), from, rs[1..]);
    }
  }

  /** What longer routes have written behind the first one's code happens to be what was there. */
  predicate TailIsOld(m: seq<byte>, s: Routed, from: int)
    requires 0 <= from && from + WINDOW <= |m| == |s.m| && 0 <= s.h.cover <= s.h.reach <= WINDOW
  {
    s.m[from + s.h.cover..from + s.h.reach] == m[from + s.h.cover..from + s.h.reach]
  }

  lemma SoundIsExact(m: seq<byte>, s: Routed, from: int)
    requires Sound(s, from) && |s.m| == |m| && s.h.original == m[from..from + WINDOW] && !StartsJump(m, from)
    requires 0 <= s.h.cover
    ensures Undone(m, s, from) <==> s.h.undo.Restores? && TailIsOld(m, s, from)
  {
    var m', a, b := Restored(s.m, s.ps), from + s.h.cover, from + s.h.reach;
    if s.h.undo.Restores? {
      forall x | from <= x < from + WINDOW
        ensures m'[x] == if a <= x < b then s.m[x] else m[x]
      {
        var y := s.m[x];
        if a <= x < b {
          RestoredUncovered(s.m, s.ps, x);
        }
      }
      AgreeOnTail(m, m', s.m, from, a, b);
    } else if Undone(m, s, from) {
      var x, y := m[from], m[from + 1];
      SameStart(m, m', from);
    }
  }

  lemma AgreeOnTail(m: seq<byte>, m': seq<byte>, now: seq<byte>, from: int, a: int, b: int)
    requires 0 <= from <= a <= b <= from + WINDOW <= |m| == |m'| == |now|
    requires forall x :: from <= x < from + WINDOW ==> m'[x] == if a <= x < b then now[x] else m[x]
    ensures (forall x {:trigger m[x]} :: from <= x < from + WINDOW ==> m'[x] == m[x]) <==> now[a..b] == m[a..b]
  {
    if forall x {:trigger m[x]} :: from <= x < from + WINDOW ==> m'[x] == m[x] {
      forall x | a <= x < b ensures now[x] == m[x] {
        assert m'[x] == m[x];
      }
    }
    if now[a..b] == m[a..b] {
      forall x | a <= x < b ensures now[x] == m[x] {
        assert now[a..b][x - a] == m[a..b][x - a];
      }
    }
  }

  lemma RunFromFirst(m: seq<byte>, from: int, r: Route, rs: seq<Route>)
    requires Placed(m, from, r.form) && AllPlaced(m, from, rs)
    ensures var s, s' := First(m, from, r), Run(First(m, from, r), from, rs);
            && Sound(s', from) && |s'.m| == |m| && s'.h.original == m[from..from + WINDOW]
            && s'.h.cover == Length(r.form) && s'.h.undo == if NoneKeptAgain(s, from, rs) then Restores else Spoiled
  {
    var s := First(m, from, r);
    FirstIsSound(m, from, r);
    RunIsSound(s, from, rs);
    RunKeepsSize(s, from, rs);
  }

  /**
    Undoing gives the function its bytes back exactly if no route but the first has kept patches and no longer one
    has written behind the first, whatever the routes: to address 0, through slots out of reach, in any forms.
   */
  lemma UndoIsExact(m: seq<byte>, from: int, r: Route, rs: seq<Route>)
    requires Placed(m, from, r.form) && AllPlaced(m, from, rs) && !StartsJump(m, from)
    ensures var s, s' := First(m, from, r), Run(First(m, from, r), from, rs);
            && |s'.m| == |m| && 0 <= s'.h.cover <= s'.h.reach <= WINDOW
            && (Undone(m, s', from) <==> NoneKeptAgain(s, from, rs) && TailIsOld(m, s', from))
  {
    RunFromFirst(m, from, r, rs);
    SoundIsExact(m, Run(First(m, from, r), from, rs), from);
  }

  /** With routes that fit over each other there is no such tail. */
  lemma FittingRoutesAreUndone(m: seq<byte>, from: int, r: Route, rs: seq<Route>)
    requires Placed(m, from, r.form) && AllPlaced(m, from, rs) && !StartsJump(m, from)
    requires Fitting(First(m, from, r), from, rs)
    ensures Undone(m, Run(First(m, from, r), from, rs), from) <==> NoneKeptAgain(First(m, from, r), from, rs)
  {
    var s := First(m, from, r);
    RunFromFirst(m, from, r, rs);
    SoundIsExact(m, Run(s, from, rs), from);
    if NoneKeptAgain(s, from, rs) {
      FittingKeepsReach(s, from, rs);
    }
  }

  // ---------- routes that work ----------

  /** The function leads to its target as far as readChain sees. */
  predicate Seen(s: Routed, from: int) {
    Readable(s.m, from) && ReadChain(s.m, from).0 == s.h.target
  }

  /** Behind each of the routes, and the one before them, another follows: none of these leads to 0. */
  predicate NoneToNull(target: nat, rs: seq<Route>) {
    rs == [] || (target != 0 && forall i {:trigger rs[i]} :: 0 <= i < |rs| - 1 ==> rs[i].to != 0)
  }

  lemma NoneToNullOn(target: nat, rs: seq<Route>)
    requires rs != []
    ensures NoneToNull(target, rs) <==> target != 0 && NoneToNull(rs[0].to, rs[1..])
  {
    var rest := rs[1..];
    assert forall i {:trigger rest[i]} :: 0 <= i < |rest| ==> rest[i] == rs[i + 1];
    assert forall i {:trigger rs[i]} :: 1 <= i < |rs| ==> rs[i] == rest[i - 1];
  }

  lemma {:induction false} WorkingRunReads(s: Routed, from: int, rs: seq<Route>)
    requires AllPlaced(s.m, from, rs) && Seen(s, from)
    requires forall i {:trigger rs[i]} :: 0 <= i < |rs| - 1 ==> Works(from, rs[i].form, rs[i].to)
    ensures NoneKeptAgain(s, from, rs) <==> NoneToNull(s.h.target, rs)
    decreases |rs|
  {
    if |rs| > 1 {
      RouteIsReadBack(s.m, from, rs[0].form, rs[0].to);
      WorkingRunReads(Next(s, from, rs[0]), from, rs[1..]);
    }
    if rs != [] {
      NoneToNullOn(s.h.target, rs);
      assert |rs| == 1 ==> NoneKeptAgain(Next(s, from, rs[0]), from, rs[1..]);
    }
  }

  /** Routes that work are undone exactly if none but the last leads to address 0. */
  lemma WorkingRoutesAreUndone(m: seq<byte>, from: int, r: Route, rs: seq<Route>)
    requires Placed(m, from, r.form) && AllPlaced(m, from, rs) && !StartsJump(m, from)
    requires Fitting(First(m, from, r), from, rs) && Works(from, r.form, r.to)
    requires forall i {:trigger rs[i]} :: 0 <= i < |rs| - 1 ==> Works(from, rs[i].form, rs[i].to)
    ensures Undone(m, Run(First(m, from, r), from, rs), from) <==> NoneToNull(r.to, rs)
  {
    FittingRoutesAreUndone(m, from, r, rs);
    RouteIsReadBack(m, from, r.form, r.to);
    WorkingRunReads(First(m, from, r), from, rs);
  }

  /** The shortest run that is not undone: a route to 0, in any form, and any other behind it. */
  lemma NullRouteIsNotUndone(m: seq<byte>, from: int, first: Form, second: Route)
    requires Placed(m, from, first) && Placed(m, from, second.form) && Works(from, first, 0) && !StartsJump(m, from)
    ensures !Undone(m, Run(First(m, from, Route(first, 0)), from, [second]), from)
  {
    var s, rs := First(m, from, Route(first, 0)), [second];
    RouteIsReadBack(m, from, first, 0);
    assert rs[1..] == [];
    assert Fitting(Next(s, from, second), from, rs[1..]);
    WorkingRoutesAreUndone(m, from, Route(first, 0), rs);
  }

  /** routeFunctionInternal sees to Fitting, unless the slot of the jump before lies a multiple of 4 GB behind it. */
  lemma PlannedFits(m: seq<byte>, from: int, form: Form, to: Address, next: Form)
    requires Placed(m, from, form) && Readable(Installed(m, from, form, to), from)
    requires form.Medium? ==> Argument(from, form, to) != 0
    requires var r := ReadChain(Installed(m, from, form, to), from); r.0 != 0 ==> Length(next) <= Extent(r.1)
    ensures ReadsAsNone(Installed(m, from, form, to), from) || Length(next) <= Length(form)
  {
    match form
    case Short => ReadsShort(m, from, to);
    case Medium(slot) =>
      PointerOfSlotted(m, from, slot, to);
      IndirectInMemory(m, from, form, to, slot);
      WordRoundTrip(Argument(from, form, to));
    case Long => ReadsLong(m, from, to);
  }

  // ---------- slots out of reach ----------

  /** The word a jump goes through whose slot is out of reach. */
  function Missed(from: int, slot: int): nat {
    Wrap(from + MEDIUM_JUMP + Signed32(Low32(slot - (from + MEDIUM_JUMP))))
  }

  /** Such a jump reads as none, so that patches are kept again behind it, exactly if that word is 0. */
  lemma MissedSlotReads(m: seq<byte>, from: int, slot: int, to: Address)
    requires Placed(m, from, Medium(slot)) && !InReach(from, slot) && Missed(from, slot) + 8 <= |m|
    ensures var m', a := Installed(m, from, Medium(slot), to), Missed(from, slot);
            a != slot && Readable(m', from) && (ReadsAsNone(m', from) <==> FromLE64(m'[a..a + 8]) == 0)
  {
    PointsToSlot(m, from, slot, to);
    PointerOfSlotted(m, from, slot, to);
  }

  /** It is what was there before unless it overlaps what the route writes. */
  lemma MissedWordStays(m: seq<byte>, from: int, slot: int, to: Address)
    requires Placed(m, from, Medium(slot)) && Missed(from, slot) + 8 <= |m|
    requires Apart(Missed(from, slot), 8, from, MEDIUM_JUMP) && Apart(Missed(from, slot), 8, slot, 8)
    ensures var m', a := Installed(m, from, Medium(slot), to), Missed(from, slot); m'[a..a + 8] == m[a..a + 8]
  {
    Elsewhere(m, from, Medium(slot), to, Missed(from, slot), 8);
  }
}
