/** The patches a route leaves behind, what undoing them all restores, and the chain of hooks. */
module RouteUndo {
  import opened Bytes
  import opened Routes

  /** Patch::P: a place in memory with the bytes before and after. */
  datatype Patch = Patch(addr: int, original: seq<byte>, replaced: seq<byte>)

  predicate Over(p: Patch, x: int) {
    p.addr <= x < p.addr + |p.original|
  }

  ghost predicate InMemory(ps: seq<Patch>, size: int) {
    forall i {:trigger ps[i]} :: 0 <= i < |ps| ==> 0 <= ps[i].addr && ps[i].addr + |ps[i].original| <= size
  }

  ghost predicate Covered(ps: seq<Patch>, x: int) {
    exists i {:trigger ps[i]} :: 0 <= i < |ps| && Over(ps[i], x)
  }

  /** Restoring all patches, the first one first. */
  ghost function Restored(m: seq<byte>, ps: seq<Patch>): (m': seq<byte>)
    requires InMemory(ps, |m|)
    ensures |m'| == |m|
    decreases |ps|
  {
    if ps == [] then m else Restored(Written(m, ps[0].addr, ps[0].original), ps[1..])
  }

  lemma {:induction false} RestoredAgrees(m: seq<byte>, m': seq<byte>, ps: seq<Patch>, x: int)
    requires InMemory(ps, |m|) && |m'| == |m| && 0 <= x < |m| && (m[x] == m'[x] || Covered(ps, x))
    ensures Restored(m, ps)[x] == Restored(m', ps)[x]
    decreases |ps|
  {
    if ps != [] {
      if !Over(ps[0], x) && m[x] != m'[x] {
        var i :| 0 <= i < |ps| && Over(ps[i], x);
        assert ps[1..][i - 1] == ps[i];
      }
      RestoredAgrees(Written(m, ps[0].addr, ps[0].original), Written(m', ps[0].addr, ps[0].original), ps[1..], x);
    }
  }

  lemma {:induction false} RestoredUncovered(m: seq<byte>, ps: seq<Patch>, x: int)
    requires InMemory(ps, |m|) && 0 <= x < |m| && !Covered(ps, x)
    ensures Restored(m, ps)[x] == m[x]
    decreases |ps|
  {
    if ps != [] {
      assert !Over(ps[0], x);
      assert forall i {:trigger ps[1..][i]} :: 0 <= i < |ps| - 1 ==> ps[1..][i] == ps[i + 1];
      RestoredUncovered(Written(m, ps[0].addr, ps[0].original), ps[1..], x);
    }
  }

  lemma {:induction false} RestoredInTwo(m: seq<byte>, a: seq<Patch>, b: seq<Patch>)
    requires InMemory(a, |m|) && InMemory(b, |m|)
    ensures InMemory(a + b, |m|) && Restored(m, a + b) == Restored(Restored(m, a), b)
    decreases |a|
  {
    if a == [] {
      assert a + b == b;
    } else {
      assert (a + b)[1..] == a[1..] + b;
      RestoredInTwo(Written(m, a[0].addr, a[0].original), a[1..], b);
    }
  }

  // ---------- the patches of one route ----------

  function CodePatches(m: seq<byte>, from: int, form: Form, to: Address): (ps: seq<Patch>)
    requires Placed(m, from, form)
    ensures InMemory(ps, |m|)
  {
    var k := |Opcode(form)|;
    [Patch(from, m[from..from + k], Opcode(form)),
     Patch(from + k, m[from + k..from + k + 4], LE32(Argument(from, form, to)))]
  }

  function TargetPatch(m: seq<byte>, from: int, form: Form, to: Address): (ps: seq<Patch>)
    requires Placed(m, from, form)
    ensures InMemory(ps, |m|)
  {
    match form
    case Short => []
    case Medium(slot) => [Patch(slot, m[slot..slot + 8], LE64(to))]
    case Long => [Patch(from + MEDIUM_JUMP, m[from + MEDIUM_JUMP..from + LONG_JUMP], LE64(to))]
  }

  function Patches(m: seq<byte>, from: int, form: Form, to: Address): (ps: seq<Patch>)
    requires Placed(m, from, form)
    ensures InMemory(ps, |m|)
  {
    CodePatches(m, from, form, to) + TargetPatch(m, from, form, to)
  }

  lemma PatchesAreSome(m: seq<byte>, from: int, form: Form, to: Address)
    requires Placed(m, from, form)
    ensures Patches(m, from, form, to) != []
  {}

  lemma PatchesCover(m: seq<byte>, from: int, form: Form, to: Address, x: int)
    requires Placed(m, from, form)
    ensures Covered(Patches(m, from, form, to), x) <==>
            from <= x < from + Length(form) || (form.Medium? && form.slot <= x < form.slot + 8)
  {
    var ps := Patches(m, from, form, to);
    assert ps[0] == CodePatches(m, from, form, to)[0] && ps[1] == CodePatches(m, from, form, to)[1];
    if !form.Short? {
      assert ps[2] == TargetPatch(m, from, form, to)[0];
    }
  }

  /** The patch remembers what m has in its place. */
  ghost predicate Remembers(p: Patch, m: seq<byte>) {
    0 <= p.addr && p.addr + |p.original| <= |m| && p.original == m[p.addr..p.addr + |p.original|]
  }

  lemma {:induction false} RestoredRemembers(m: seq<byte>, now: seq<byte>, ps: seq<Patch>, x: int)
    requires (forall i {:trigger ps[i]} :: 0 <= i < |ps| ==> Remembers(ps[i], m)) && InMemory(ps, |m|) && |now| == |m|
    requires 0 <= x < |m| && (Covered(ps, x) || now[x] == m[x])
    ensures Restored(now, ps)[x] == m[x]
    decreases |ps|
  {
    if ps != [] {
      var now1 := Written(now, ps[0].addr, ps[0].original);
      if !Over(ps[0], x) && now[x] != m[x] {
        var i :| 0 <= i < |ps| && Over(ps[i], x);
        assert ps[1..][i - 1] == ps[i];
      } else {
        assert now1[x] == m[x];
      }
      RestoredRemembers(m, now1, ps[1..], x);
    }
  }

  lemma PatchesRemember(m: seq<byte>, from: int, form: Form, to: Address)
    requires Placed(m, from, form)
    ensures forall i {:trigger Patches(m, from, form, to)[i]} :: 0 <= i < |Patches(m, from, form, to)| ==>
            Remembers(Patches(m, from, form, to)[i], m)
  {
    var k := |Opcode(form)|;
    assert |m[from..from + k]| == k && |m[from + k..from + k + 4]| == 4;
  }

  /** Undoing a route restores what was there, whatever has been written since. */
  lemma PatchesRestore(m: seq<byte>, now: seq<byte>, from: int, form: Form, to: Address, x: int)
    requires Placed(m, from, form) && |now| == |m| && from <= x < from + Length(form)
    ensures Restored(now, Patches(m, from, form, to))[x] == m[x]
  {
    PatchesRemember(m, from, form, to);
    PatchesCover(m, from, form, to, x);
    RestoredRemembers(m, now, Patches(m, from, form, to), x);
  }

  // ---------- all routes together ----------

  /** What undoing all patches does to a routed function: nothing was kept, its bytes come back, or a jump stays. */
  datatype Undo = Unkept | Restores | Spoiled

  /**
    What is kept about a routed function: its bytes before the first write, how many of them were covered by patches
    then, how many have been written to since, where it leads now, whether it is seen to lead there, and what undoing
    does to it.
   */
  datatype Hook = Hook(original: seq<byte>, cover: int, reach: int, target: nat, leads: bool, undo: Undo)

  /** The function starts with a jump of one of the kinds the patcher writes. */
  predicate StartsJump(m: seq<byte>, f: int)
    requires 0 <= f && f + MEDIUM_JUMP <= |m|
  {
    m[f] == 0xE9 || IsIndirect(m, f)
  }

  predicate Apart(a: int, n: int, b: int, k: int) {
    a + n <= b || b + k <= a
  }

  /** Bytes the jump at f occupies, by its kind. */
  function Extent(t: JumpType): int {
    match t case ShortType => SMALL_JUMP case MediumType => MEDIUM_JUMP case LongType => LONG_JUMP
      case AutoType => WINDOW
  }

  /** The function at f leads to its target, through a slot handed out before next if at all. */
  ghost predicate Leads(m: seq<byte>, f: int, h: Hook, lo: int, next: int) {
    && Readable(m, f) && ReadChain(m, f).0 == h.target && Extent(ReadChain(m, f).1) <= h.reach
    && (IsIndirect(m, f) ==> Pointer(m, f) == f + MEDIUM_JUMP || (lo <= Pointer(m, f) && Pointer(m, f) + 8 <= next))
  }

  /** Undoing everything gives the function its bytes back, but for those only a later and longer route has written. */
  ghost predicate Undoable(m: seq<byte>, ps: seq<Patch>, f: int, h: Hook)
    requires 0 <= f && f + WINDOW <= |m| && InMemory(ps, |m|) && |h.original| == WINDOW
  {
    && (forall x {:trigger m[x]} :: f <= x < f + WINDOW && !(f + h.cover <= x < f + h.reach) ==>
          Restored(m, ps)[x] == h.original[x - f])
    && (forall x {:trigger m[x]} :: f <= x < f + h.cover ==> Covered(ps, x))
  }

  /** Undoing everything leaves a jump. */
  ghost predicate JumpStays(m: seq<byte>, ps: seq<Patch>, f: int)
    requires 0 <= f && f + WINDOW <= |m| && InMemory(ps, |m|)
  {
    StartsJump(Restored(m, ps), f) && Covered(ps, f) && Covered(ps, f + 1)
  }

  ghost predicate UndoneSo(m: seq<byte>, ps: seq<Patch>, f: int, h: Hook)
    requires 0 <= f && f + WINDOW <= |m| && InMemory(ps, |m|) && |h.original| == WINDOW
  {
    && (h.undo.Restores? ==> Undoable(m, ps, f, h))
    && (h.undo.Spoiled? ==> JumpStays(m, ps, f))
  }

  /** A patch lies in the window of a routed function or among the slots. */
  ghost predicate Homed(p: Patch, hooks: map<int, Hook>, lo: int, hi: int) {
    (lo <= p.addr && p.addr + |p.original| <= hi)
    || exists f {:trigger f in hooks} :: f in hooks && f <= p.addr && p.addr + |p.original| <= f + WINDOW
  }

  /** The windows of the hooked functions are apart from each other and from the slots. */
  ghost predicate WindowsApart(hooks: map<int, Hook>, size: int, lo: int, hi: int) {
    && (forall f {:trigger f in hooks} :: f in hooks ==>
        && 0 <= f && f + WINDOW <= size && Apart(f, WINDOW, lo, hi - lo) && |hooks[f].original| == WINDOW
        && SMALL_JUMP <= hooks[f].cover <= hooks[f].reach <= WINDOW)
    && (forall f, g {:trigger f in hooks, g in hooks} :: f in hooks && g in hooks && f != g ==>
        Apart(f, WINDOW, g, WINDOW))
  }

  ghost predicate AllHomed(ps: seq<Patch>, hooks: map<int, Hook>, lo: int, hi: int) {
    forall i {:trigger ps[i]} :: 0 <= i < |ps| ==> Homed(ps[i], hooks, lo, hi)
  }

  ghost predicate AllLead(m: seq<byte>, hooks: map<int, Hook>, lo: int, next: int) {
    forall f {:trigger f in hooks} :: f in hooks && hooks[f].leads ==> Leads(m, f, hooks[f], lo, next)
  }

  ghost predicate AllJump(m: seq<byte>, hooks: map<int, Hook>) {
    forall f {:trigger f in hooks} :: f in hooks ==> 0 <= f && f + WINDOW <= |m| && StartsJump(m, f)
  }

  ghost predicate AllUndoneSo(m: seq<byte>, ps: seq<Patch>, hooks: map<int, Hook>)
    requires InMemory(ps, |m|)
  {
    forall f {:trigger f in hooks} :: f in hooks ==>
      0 <= f && f + WINDOW <= |m| && |hooks[f].original| == WINDOW && UndoneSo(m, ps, f, hooks[f])
  }

  /** State of the patcher: memory, patches to undo, hooks, and the slots lo..hi, those below next in use. */
  ghost predicate Inv(m: seq<byte>, ps: seq<Patch>, hooks: map<int, Hook>, lo: int, next: int, hi: int) {
    && 0 <= lo <= next <= hi <= |m| < 0x1_0000_0000_0000_0000 && InMemory(ps, |m|)
    && WindowsApart(hooks, |m|, lo, hi) && AllLead(m, hooks, lo, next) && AllJump(m, hooks)
    && AllUndoneSo(m, ps, hooks) && AllHomed(ps, hooks, lo, hi)
  }

  /** from may be routed: a known function, or one whose window is away from all others and the slots. */
  ghost predicate Routable(m: seq<byte>, hooks: map<int, Hook>, lo: int, hi: int, from: int) {
    && 0 <= from && from + WINDOW <= |m| && Apart(from, WINDOW, lo, hi - lo)
    && forall g {:trigger g in hooks} :: g in hooks && g != from ==> Apart(from, WINDOW, g, WINDOW)
  }

  /** form is Short, Long, or goes through the next free slot. */
  predicate Fresh(form: Form, next: int, hi: int) {
    form.Medium? ==> form.slot == next && next + 8 <= hi
  }

  function NextSlot(form: Form, next: int): int {
    if form.Medium? then next + 8 else next
  }

  // ---------- what a route does to another function ----------

  lemma OthersLead(m: seq<byte>, g: int, h: Hook, lo: int, next: int, hi: int, from: int, form: Form, to: Address)
    requires Placed(m, from, form) && 0 <= lo <= next <= hi <= |m| && Fresh(form, next, hi)
    requires Leads(m, g, h, lo, next) && Apart(g, WINDOW, from, WINDOW) && Apart(g, WINDOW, lo, hi - lo)
             && Apart(from, WINDOW, lo, hi - lo)
    ensures Leads(Installed(m, from, form, to), g, h, lo, NextSlot(form, next))
  {
    OthersView(m, g, h, lo, next, hi, from, form, to);
    LeadsAlike(m, Installed(m, from, form, to), g, h, lo, next, NextSlot(form, next));
  }

  /** readChain sees the same at g. */
  predicate SameView(m: seq<byte>, m': seq<byte>, g: int)
    requires Readable(m, g)
  {
    && |m'| == |m| && m'[g..g + WINDOW] == m[g..g + WINDOW]
    && (IsIndirect(m, g) ==> m'[Pointer(m, g)..Pointer(m, g) + 8] == m[Pointer(m, g)..Pointer(m, g) + 8])
  }

  lemma OthersView(m: seq<byte>, g: int, h: Hook, lo: int, next: int, hi: int, from: int, form: Form, to: Address)
    requires Placed(m, from, form) && 0 <= lo <= next <= hi <= |m| && Fresh(form, next, hi)
    requires Leads(m, g, h, lo, next) && Apart(g, WINDOW, from, WINDOW) && Apart(g, WINDOW, lo, hi - lo)
             && Apart(from, WINDOW, lo, hi - lo)
    ensures SameView(m, Installed(m, from, form, to), g)
  {
    Elsewhere(m, from, form, to, g, WINDOW);
    if IsIndirect(m, g) {
      PointedStays(m, Pointer(m, g), lo, next, hi, from, form, to, g);
    }
  }

  lemma LeadsAlike(m: seq<byte>, m': seq<byte>, g: int, h: Hook, lo: int, next: int, next': int)
    requires Leads(m, g, h, lo, next) && next <= next' && SameView(m, m', g)
    ensures Leads(m', g, h, lo, next')
  {
    SameReading(m, m', g);
  }

  /** A word in the window of g, or among the slots handed out before. */
  lemma PointedStays(m: seq<byte>, a: int, lo: int, next: int, hi: int, from: int, form: Form, to: Address, g: int)
    requires Placed(m, from, form) && 0 <= lo <= next <= hi <= |m| && Fresh(form, next, hi) && 0 <= g && a + 8 <= |m|
    requires Apart(g, WINDOW, from, WINDOW) && Apart(g, WINDOW, lo, hi - lo) && Apart(from, WINDOW, lo, hi - lo)
    requires a == g + MEDIUM_JUMP || (lo <= a && a + 8 <= next)
    ensures Installed(m, from, form, to)[a..a + 8] == m[a..a + 8]
  {
    Elsewhere(m, from, form, to, a, 8);
  }

  /** A route elsewhere changes nothing in the window at g, neither now nor after undoing. */
  lemma OthersStay(m: seq<byte>, ps: seq<Patch>, added: seq<Patch>, g: int, from: int, form: Form, to: Address, x: int)
    requires Placed(m, from, form) && InMemory(ps, |m|) && 0 <= g && g + WINDOW <= |m| && g <= x < g + WINDOW
    requires added == [] || added == Patches(m, from, form, to)
    requires Apart(g, WINDOW, from, WINDOW) && (form.Medium? ==> Apart(g, WINDOW, form.slot, 8))
    ensures var m' := Installed(m, from, form, to);
            && m'[x] == m[x] && InMemory(ps + added, |m|) && Restored(m', ps + added)[x] == Restored(m, ps)[x]
            && (Covered(ps, x) ==> Covered(ps + added, x))
  {
    var m' := Installed(m, from, form, to);
    RestoredInTwo(m', ps, added);
    if added != [] {
      PatchesCover(m, from, form, to, x);
    }
    RestoredUncovered(Restored(m', ps), added, x);
    RestoredAgrees(m', m, ps, x);
    if Covered(ps, x) {
      CoveredStays(ps, added, x);
    }
  }

  lemma OthersUndoneSo(m: seq<byte>, ps: seq<Patch>, added: seq<Patch>, g: int, h: Hook, from: int, form: Form,
                       to: Address)
    requires Placed(m, from, form) && InMemory(ps, |m|) && 0 <= g && g + WINDOW <= |m| && |h.original| == WINDOW
    requires UndoneSo(m, ps, g, h) && StartsJump(m, g) && h.cover <= WINDOW
    requires added == [] || added == Patches(m, from, form, to)
    requires Apart(g, WINDOW, from, WINDOW) && (form.Medium? ==> Apart(g, WINDOW, form.slot, 8))
    ensures var m' := Installed(m, from, form, to);
            InMemory(ps + added, |m|) && UndoneSo(m', ps + added, g, h) && StartsJump(m', g)
  {
    var m' := Installed(m, from, form, to);
    OthersStay(m, ps, added, g, from, form, to, g);
    OthersStay(m, ps, added, g, from, form, to, g + 1);
    if h.undo.Restores? {
      forall x | g <= x < g + WINDOW
        ensures Restored(m', ps + added)[x] == Restored(m, ps)[x] && (Covered(ps, x) ==> Covered(ps + added, x))
      {
        OthersStay(m, ps, added, g, from, form, to, x);
      }
      UndoableStays(m, ps, m', ps + added, g, h);
    }
  }

  lemma UndoableStays(m: seq<byte>, ps: seq<Patch>, m': seq<byte>, ps': seq<Patch>, f: int, h: Hook)
    requires 0 <= f && f + WINDOW <= |m| == |m'| && InMemory(ps, |m|) && InMemory(ps', |m|) && |h.original| == WINDOW
    requires Undoable(m, ps, f, h) && h.cover <= WINDOW
    requires forall x :: f <= x < f + WINDOW ==>
               Restored(m', ps')[x] == Restored(m, ps)[x] && (Covered(ps, x) ==> Covered(ps', x))
    ensures Undoable(m', ps', f, h)
  {
    forall x {:trigger m'[x]} | f <= x < f + WINDOW
      ensures !(f + h.cover <= x < f + h.reach) ==> Restored(m', ps')[x] == h.original[x - f]
      ensures x < f + h.cover ==> Covered(ps', x)
    {
      var b := m[x];
    }
  }

  lemma CoveredStays(ps: seq<Patch>, added: seq<Patch>, x: int)
    requires Covered(ps, x) || Covered(added, x)
    ensures Covered(ps + added, x)
  {
    if Covered(ps, x) {
      var i :| 0 <= i < |ps| && Over(ps[i], x);
      assert (ps + added)[i] == ps[i];
    } else {
      var i :| 0 <= i < |added| && Over(added[i], x);
      assert (ps + added)[|ps| + i] == added[i];
    }
  }

  // ---------- what a route does to its own function ----------

  function Longer(a: int, b: int): int {
    if a < b then b else a
  }

  /** The bookkeeping of a route; kept says whether its patches are. */
  function Hooked(m: seq<byte>, hooks: map<int, Hook>, from: int, form: Form, to: Address, kept: bool): map<int, Hook>
    requires 0 <= from && from + WINDOW <= |m|
  {
    hooks[from := if from in hooks then Rehooked(hooks[from], from, form, to, kept)
                  else Hook(m[from..from + WINDOW], Length(form), Length(form), to, Works(from, form, to),
                            if kept then Restores else Unkept)]
  }

  /** Patches kept a second time remember the jump that was there. */
  function Rehooked(h: Hook, from: int, form: Form, to: Address, kept: bool): Hook {
    Hook(h.original, h.cover, Longer(h.reach, Length(form)), to, Works(from, form, to),
         if kept then Spoiled else h.undo)
  }

  /** Any route the patcher may write: also one to address 0, and one whose slot is out of reach. */
  ghost predicate CanRoute(m: seq<byte>, ps: seq<Patch>, hooks: map<int, Hook>, lo: int, next: int, hi: int,
                           from: int, form: Form, to: Address, added: seq<Patch>) {
    && Inv(m, ps, hooks, lo, next, hi) && Routable(m, hooks, lo, hi, from) && Placed(m, from, form)
    && Fresh(form, next, hi) && (added == [] || added == Patches(m, from, form, to))
  }

  lemma StartsWithCode(m: seq<byte>, from: int, form: Form, to: Address)
    requires Placed(m, from, form)
    ensures StartsJump(Installed(m, from, form, to), from)
  {
    match form
    case Short => ShortInMemory(m, from, to);
    case Medium(slot) => PointerOfSlotted(m, from, slot, to);
    case Long => ReadsLong(m, from, to);
  }

  lemma SelfLeads(m: seq<byte>, from: int, form: Form, to: Address, lo: int, next: int, h: Hook)
    requires Placed(m, from, form) && Works(from, form, to) && (form.Medium? ==> form.slot == next >= lo)
    requires h.target == to && Length(form) <= h.reach
    ensures Leads(Installed(m, from, form, to), from, h, lo, NextSlot(form, next))
  {
    match form
    case Short =>
      ReadsShort(m, from, to);
      ShortInMemory(m, from, to);
    case Medium(slot) => ReadsMedium(m, from, slot, to);
    case Long => ReadsLong(m, from, to);
  }

  /** No patch touches a function that has not been routed. */
  lemma NotCovered(m: seq<byte>, ps: seq<Patch>, hooks: map<int, Hook>, lo: int, next: int, hi: int, from: int, x: int)
    requires Inv(m, ps, hooks, lo, next, hi) && Routable(m, hooks, lo, hi, from) && from !in hooks
             && from <= x < from + WINDOW
    ensures !Covered(ps, x)
  {
    forall i | 0 <= i < |ps| ensures !Over(ps[i], x) {
      assert Homed(ps[i], hooks, lo, hi);
    }
  }

  lemma BehindTheCode(m: seq<byte>, ps: seq<Patch>, hooks: map<int, Hook>, lo: int, next: int, hi: int, from: int,
                      form: Form, to: Address, x: int)
    requires Placed(m, from, form) && from !in hooks && from + Length(form) <= x < from + WINDOW
    requires CanRoute(m, ps, hooks, lo, next, hi, from, form, to, Patches(m, from, form, to))
    ensures Restored(Restored(Installed(m, from, form, to), ps), Patches(m, from, form, to))[x] == m[x]
  {
    var m', added := Installed(m, from, form, to), Patches(m, from, form, to);
    PatchesCover(m, from, form, to, x);
    RestoredUncovered(Restored(m', ps), added, x);
    NotCovered(m, ps, hooks, lo, next, hi, from, x);
    RestoredUncovered(m', ps, x);
  }

  lemma FirstRestores(m: seq<byte>, ps: seq<Patch>, hooks: map<int, Hook>, lo: int, next: int, hi: int, from: int,
                      form: Form, to: Address, x: int)
    requires Placed(m, from, form) && from !in hooks && from <= x < from + WINDOW
    requires CanRoute(m, ps, hooks, lo, next, hi, from, form, to, Patches(m, from, form, to))
    ensures InMemory(ps + Patches(m, from, form, to), |m|)
    ensures Restored(Installed(m, from, form, to), ps + Patches(m, from, form, to))[x] == m[x]
  {
    var m', added := Installed(m, from, form, to), Patches(m, from, form, to);
    RestoredInTwo(m', ps, added);
    if x < from + Length(form) {
      PatchesRestore(m, Restored(m', ps), from, form, to, x);
    } else {
      BehindTheCode(m, ps, hooks, lo, next, hi, from, form, to, x);
    }
  }

  lemma NewCovers(m: seq<byte>, ps: seq<Patch>, from: int, form: Form, to: Address, x: int)
    requires Placed(m, from, form) && from <= x < from + Length(form)
    ensures Covered(ps + Patches(m, from, form, to), x)
  {
    PatchesCover(m, from, form, to, x);
    CoveredStays(ps, Patches(m, from, form, to), x);
  }

  /** The first route of a function, its patches kept. */
  lemma FirstIsUndoable(m: seq<byte>, ps: seq<Patch>, hooks: map<int, Hook>, lo: int, next: int, hi: int, from: int,
                        form: Form, to: Address, h: Hook)
    requires Placed(m, from, form) && from !in hooks
    requires CanRoute(m, ps, hooks, lo, next, hi, from, form, to, Patches(m, from, form, to))
    requires h.original == m[from..from + WINDOW] && h.cover == Length(form)
    ensures var m', ps' := Installed(m, from, form, to), ps + Patches(m, from, form, to);
            InMemory(ps', |m|) && Undoable(m', ps', from, h)
  {
    var m', ps' := Installed(m, from, form, to), ps + Patches(m, from, form, to);
    FirstRestores(m, ps, hooks, lo, next, hi, from, form, to, from);
    forall x | from <= x < from + WINDOW ensures Restored(m', ps')[x] == m[x] {
      FirstRestores(m, ps, hooks, lo, next, hi, from, form, to, x);
    }
    forall x | from <= x < from + Length(form) ensures Covered(ps', x) {
      NewCovers(m, ps, from, form, to, x);
    }
    UndoableBy(m, m', ps', from, h);
  }

  lemma UndoableBy(m: seq<byte>, m': seq<byte>, ps: seq<Patch>, from: int, h: Hook)
    requires 0 <= from && from + WINDOW <= |m| == |m'| && InMemory(ps, |m|) && h.original == m[from..from + WINDOW]
    requires forall x :: from <= x < from + WINDOW ==> Restored(m', ps)[x] == m[x]
    requires forall x :: from <= x < from + h.cover ==> Covered(ps, x)
    ensures Undoable(m', ps, from, h)
  {}

  /** A further route without patches: the first ones still cover all they did. */
  lemma AgainIsUndoable(m: seq<byte>, ps: seq<Patch>, from: int, h: Hook, form: Form, to: Address, h': Hook)
    requires Placed(m, from, form) && InMemory(ps, |m|) && |h.original| == WINDOW && Undoable(m, ps, from, h)
    requires h.cover <= WINDOW
    requires h'.original == h.original && h'.cover == h.cover && h.reach <= h'.reach && Length(form) <= h'.reach
    ensures Undoable(Installed(m, from, form, to), ps, from, h')
  {
    var m' := Installed(m, from, form, to);
    forall x | from <= x < from + WINDOW && !(from + h'.cover <= x < from + h'.reach)
      ensures Restored(m', ps)[x] == h.original[x - from]
    {
      var b := m[x];
      RestoredAgrees(m', m, ps, x);
    }
    forall x | from <= x < from + h.cover ensures Covered(ps, x) {
      var b := m[x];
    }
  }

  /** A further route whose patches are kept again: they bring back the jump they found. */
  lemma KeptAgainSpoils(m: seq<byte>, now: seq<byte>, ps: seq<Patch>, from: int, form: Form, to: Address)
    requires Placed(m, from, form) && InMemory(ps, |m|) && |now| == |m| && StartsJump(m, from)
    ensures InMemory(ps + Patches(m, from, form, to), |m|)
    ensures JumpStays(now, ps + Patches(m, from, form, to), from)
  {
    var added := Patches(m, from, form, to);
    LastBringBack(m, now, ps, from, form, to, from);
    LastBringBack(m, now, ps, from, form, to, from + 1);
    SameStart(m, Restored(now, ps + added), from);
  }

  lemma LastBringBack(m: seq<byte>, now: seq<byte>, ps: seq<Patch>, from: int, form: Form, to: Address, x: int)
    requires Placed(m, from, form) && InMemory(ps, |m|) && |now| == |m| && from <= x < from + Length(form)
    ensures var ps' := ps + Patches(m, from, form, to);
            InMemory(ps', |m|) && Restored(now, ps')[x] == m[x] && Covered(ps', x)
  {
    RestoredInTwo(now, ps, Patches(m, from, form, to));
    PatchesRestore(m, Restored(now, ps), from, form, to, x);
    NewCovers(m, ps, from, form, to, x);
  }

  lemma SameStart(m: seq<byte>, m': seq<byte>, f: int)
    requires 0 <= f && f + MEDIUM_JUMP <= |m| == |m'| && m[f] == m'[f] && m[f + 1] == m'[f + 1]
    ensures StartsJump(m, f) <==> StartsJump(m', f)
  {}

  lemma JumpStillStays(m: seq<byte>, now: seq<byte>, ps: seq<Patch>, from: int)
    requires 0 <= from && from + WINDOW <= |m| == |now| && InMemory(ps, |m|) && JumpStays(m, ps, from)
    ensures JumpStays(now, ps, from)
  {
    RestoredAgrees(m, now, ps, from);
    RestoredAgrees(m, now, ps, from + 1);
    SameStart(Restored(m, ps), Restored(now, ps), from);
  }

  lemma SelfAgain(m: seq<byte>, ps: seq<Patch>, added: seq<Patch>, from: int, h: Hook, form: Form, to: Address)
    requires Placed(m, from, form) && InMemory(ps, |m|) && |h.original| == WINDOW
    requires UndoneSo(m, ps, from, h) && StartsJump(m, from) && h.cover <= WINDOW
    requires added == [] || added == Patches(m, from, form, to)
    ensures var m' := Installed(m, from, form, to);
            InMemory(ps + added, |m|) && UndoneSo(m', ps + added, from, Rehooked(h, from, form, to, added != []))
  {
    var m', h' := Installed(m, from, form, to), Rehooked(h, from, form, to, added != []);
    if added != [] {
      KeptAgainSpoils(m, m', ps, from, form, to);
    } else {
      assert ps + added == ps;
      if h.undo.Restores? {
        AgainIsUndoable(m, ps, from, h, form, to, h');
      } else if h.undo.Spoiled? {
        JumpStillStays(m, m', ps, from);
      }
    }
  }

  // ---------- what a route does to the whole state ----------

  lemma HookedIsHomed(m: seq<byte>, ps: seq<Patch>, hooks: map<int, Hook>, lo: int, next: int, hi: int, from: int,
                      form: Form, to: Address, added: seq<Patch>)
    requires CanRoute(m, ps, hooks, lo, next, hi, from, form, to, added)
    ensures AllHomed(ps + added, Hooked(m, hooks, from, form, to, added != []), lo, hi)
  {
    var hooks' := Hooked(m, hooks, from, form, to, added != []);
    forall i | 0 <= i < |ps + added| ensures Homed((ps + added)[i], hooks', lo, hi) {
      if i < |ps| {
        assert (ps + added)[i] == ps[i] && Homed(ps[i], hooks, lo, hi);
        if !(lo <= ps[i].addr && ps[i].addr + |ps[i].original| <= hi) {
          var f :| f in hooks && f <= ps[i].addr && ps[i].addr + |ps[i].original| <= f + WINDOW;
          assert f in hooks';
        }
      } else {
        assert (ps + added)[i] == added[i - |ps|];
        assert from in hooks';
        PatchPlaces(m, from, form, to, i - |ps|);
      }
    }
  }

  lemma PatchPlaces(m: seq<byte>, from: int, form: Form, to: Address, i: nat)
    requires Placed(m, from, form) && i < |Patches(m, from, form, to)|
    ensures var p := Patches(m, from, form, to)[i];
            (from <= p.addr && p.addr + |p.original| <= from + WINDOW)
            || (form.Medium? && p.addr == form.slot && |p.original| == 8)
  {
    var code, target := CodePatches(m, from, form, to), TargetPatch(m, from, form, to);
    assert i < 2 ==> Patches(m, from, form, to)[i] == code[i];
    assert i >= 2 ==> Patches(m, from, form, to)[i] == target[i - 2];
  }

  lemma AllStillLead(m: seq<byte>, ps: seq<Patch>, hooks: map<int, Hook>, lo: int, next: int, hi: int, from: int,
                     form: Form, to: Address, added: seq<Patch>, kept: bool)
    requires CanRoute(m, ps, hooks, lo, next, hi, from, form, to, added)
    ensures AllLead(Installed(m, from, form, to), Hooked(m, hooks, from, form, to, kept), lo, NextSlot(form, next))
  {
    var m', hooks' := Installed(m, from, form, to), Hooked(m, hooks, from, form, to, kept);
    forall g | g in hooks' && hooks'[g].leads ensures Leads(m', g, hooks'[g], lo, NextSlot(form, next)) {
      if g != from {
        OthersLead(m, g, hooks[g], lo, next, hi, from, form, to);
      } else {
        SelfLeads(m, from, form, to, lo, next, hooks'[from]);
      }
    }
  }

  lemma OneUndoneSo(m: seq<byte>, ps: seq<Patch>, hooks: map<int, Hook>, lo: int, next: int, hi: int, from: int,
                    form: Form, to: Address, added: seq<Patch>, g: int)
    requires CanRoute(m, ps, hooks, lo, next, hi, from, form, to, added)
    requires g in Hooked(m, hooks, from, form, to, added != [])
    ensures var m', h := Installed(m, from, form, to), Hooked(m, hooks, from, form, to, added != [])[g];
            && InMemory(ps + added, |m|) && 0 <= g && g + WINDOW <= |m| && |h.original| == WINDOW
            && UndoneSo(m', ps + added, g, h) && StartsJump(m', g)
  {
    StartsWithCode(m, from, form, to);
    if g != from {
      OthersUndoneSo(m, ps, added, g, hooks[g], from, form, to);
    } else if from in hooks {
      SelfAgain(m, ps, added, from, hooks[from], form, to);
    } else if added != [] {
      FirstIsUndoable(m, ps, hooks, lo, next, hi, from, form, to, Hooked(m, hooks, from, form, to, true)[from]);
    } else {
      assert ps + added == ps;
    }
  }

  lemma AllStayUndoneSo(m: seq<byte>, ps: seq<Patch>, hooks: map<int, Hook>, lo: int, next: int, hi: int, from: int,
                        form: Form, to: Address, added: seq<Patch>)
    requires CanRoute(m, ps, hooks, lo, next, hi, from, form, to, added)
    ensures InMemory(ps + added, |m|)
    ensures AllUndoneSo(Installed(m, from, form, to), ps + added, Hooked(m, hooks, from, form, to, added != []))
    ensures AllJump(Installed(m, from, form, to), Hooked(m, hooks, from, form, to, added != []))
  {
    var m', hooks' := Installed(m, from, form, to), Hooked(m, hooks, from, form, to, added != []);
    OneUndoneSo(m, ps, hooks, lo, next, hi, from, form, to, added, from);
    forall g | g in hooks'
      ensures 0 <= g && g + WINDOW <= |m| && |hooks'[g].original| == WINDOW
              && UndoneSo(m', ps + added, g, hooks'[g]) && StartsJump(m', g)
    {
      OneUndoneSo(m, ps, hooks, lo, next, hi, from, form, to, added, g);
    }
  }

  lemma WindowsStayApart(m: seq<byte>, hooks: map<int, Hook>, lo: int, hi: int, from: int, form: Form, to: Address,
                         kept: bool)
    requires WindowsApart(hooks, |m|, lo, hi) && Routable(m, hooks, lo, hi, from)
    ensures WindowsApart(Hooked(m, hooks, from, form, to, kept), |m|, lo, hi)
  {}

  /**
    Every route, wherever it leads, keeps the state in order: each function whose last route works still leads to its
    target, each whose first patches alone were kept gets its first bytes back, and each for which patches were kept
    again is left with a jump.
   */
  lemma RouteKeepsInv(m: seq<byte>, ps: seq<Patch>, hooks: map<int, Hook>, lo: int, next: int, hi: int, from: int,
                      form: Form, to: Address, added: seq<Patch>)
    requires CanRoute(m, ps, hooks, lo, next, hi, from, form, to, added)
    ensures Inv(Installed(m, from, form, to), ps + added, Hooked(m, hooks, from, form, to, added != []), lo,
                NextSlot(form, next), hi)
  {
    HookedIsHomed(m, ps, hooks, lo, next, hi, from, form, to, added);
    AllStillLead(m, ps, hooks, lo, next, hi, from, form, to, added, added != []);
    AllStayUndoneSo(m, ps, hooks, lo, next, hi, from, form, to, added);
    WindowsStayApart(m, hooks, lo, hi, from, form, to, added != []);
  }

  /** Undoing all patches gives a function its first bytes back exactly if none were kept for it a second time. */
  lemma UndoneExactly(m: seq<byte>, ps: seq<Patch>, hooks: map<int, Hook>, lo: int, next: int, hi: int, f: int)
    requires Inv(m, ps, hooks, lo, next, hi) && f in hooks && !hooks[f].undo.Unkept?
    requires hooks[f].reach == hooks[f].cover && !StartsJump(hooks[f].original, 0)
    ensures Restored(m, ps)[f..f + WINDOW] == hooks[f].original <==> hooks[f].undo.Restores?
  {
    var h, m' := hooks[f], Restored(m, ps);
    if h.undo.Restores? {
      forall x | f <= x < f + WINDOW ensures m'[x] == h.original[x - f] {
        var b := m[x];
      }
    } else {
      assert m'[f] == m'[f..f + WINDOW][0] && m'[f + 1] == m'[f..f + WINDOW][1];
    }
  }

  /** A route behind one that works, and does not lead to 0, has no patches of its own and fits over it. */
  lemma WorkingRouteIsKept(m: seq<byte>, hooks: map<int, Hook>, lo: int, next: int, from: int, form: Form, to: Address)
    requires AllLead(m, hooks, lo, next) && from in hooks && hooks[from].leads
    requires Readable(m, from) && (ReadChain(m, from).0 != 0 ==> Length(form) <= Extent(ReadChain(m, from).1))
    ensures ReadChain(m, from).0 == 0 <==> hooks[from].target == 0
    ensures hooks[from].target != 0 ==> Rehooked(hooks[from], from, form, to, false).reach == hooks[from].reach
  {}
}
