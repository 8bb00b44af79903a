/**
  ThreadLocal: per-thread values in N slots, found and claimed without locks. Threads are numbered; each
  atomic load, compare-and-swap and slot write is one step, and steps of all threads may interleave in
  any order.
 */
module ThreadLocal {
  import opened Optional

  /** What a finished call returned: set and erase a flag, get a slot. */
  datatype Ret = Nothing | Flag(ok: bool) | Slot(p: Option<nat>)

  datatype Pc<T> =
    | Idle(last: Ret)
    | SetFind(v: T, i: nat) | SetClaim(v: T, i: nat) | SetWrite(v: T, i: nat)
    | GetScan(i: nat)
    | EraseScan(i: nat) | EraseClear(i: nat) | EraseRelease(i: nat)

  /** mine is no memory of the program: the value each thread last set and has not erased since. */
  datatype State<T> = State(owner: seq<Option<nat>>, value: seq<T>, pc: seq<Pc<T>>, mine: seq<Option<T>>)

  datatype Op<T> = Set(v: T) | Get | Erase

  datatype Act<T> = Call(t: nat, op: Op<T>) | Tick(t: nat)

  predicate Shape<T>(s: State<T>) {
    && |s.owner| == |s.value| && |s.pc| == |s.mine|
    && forall t {:trigger s.pc[t]} :: 0 <= t < |s.pc| ==> InRange(s.pc[t], |s.owner|)
  }

  predicate InRange<T>(pc: Pc<T>, n: nat) {
    match pc
    case Idle(_) => true
    case SetFind(_, i) => i <= n
    case SetClaim(_, i) => i <= n
    case SetWrite(_, i) => i < n
    case GetScan(i) => i <= n
    case EraseScan(i) => i <= n
    case EraseClear(i) => i < n
    case EraseRelease(i) => i < n
  }

  function Begin<T>(s: State<T>, t: nat, op: Op<T>): State<T>
    requires Shape(s) && t < |s.pc|
  {
    if !s.pc[t].Idle? then s
    else
      match op
      case Set(v) => s.(pc := s.pc[t := SetFind(v, 0)])
      case Get => s.(pc := s.pc[t := GetScan(0)])
      case Erase => s.(pc := s.pc[t := EraseScan(0)])
  }

  function Return<T>(s: State<T>, t: nat, ret: Ret): State<T>
    requires Shape(s) && t < |s.pc|
  {
    s.(pc := s.pc[t := Idle(ret)])
  }

  /** The next step of thread t; blank is the value a slot is reset to. */
  function Move<T(==)>(s: State<T>, t: nat, blank: T): State<T>
    requires Shape(s) && t < |s.pc|
  {
    var n := |s.owner|;
    match s.pc[t]
    case Idle(_) => s
    case SetFind(v, i) =>
      if i == n then s.(pc := s.pc[t := SetClaim(v, 0)])
      else s.(pc := s.pc[t := if s.owner[i] == Some(t) then SetWrite(v, i) else SetFind(v, i + 1)])
    case SetClaim(v, i) =>
      if i == n then Return(s, t, Flag(false))
      else if s.owner[i] == None then s.(owner := s.owner[i := Some(t)], pc := s.pc[t := SetWrite(v, i)])
      else s.(pc := s.pc[t := SetClaim(v, i + 1)])
    case SetWrite(v, i) =>
      Return(s, t, Flag(true)).(value := s.value[i := v], mine := s.mine[t := Some(v)])
    case GetScan(i) =>
      if i == n then Return(s, t, Slot(None))
      else if s.owner[i] == Some(t) then Return(s, t, Slot(Some(i)))
      else s.(pc := s.pc[t := GetScan(i + 1)])
    case EraseScan(i) =>
      if i == n then Return(s, t, Flag(false)).(mine := s.mine[t := None])
      else s.(pc := s.pc[t := if s.owner[i] == Some(t) then EraseClear(i) else EraseScan(i + 1)])
    case EraseClear(i) => s.(value := s.value[i := blank], pc := s.pc[t := EraseRelease(i)])
    case EraseRelease(i) =>
      if s.owner[i] == Some(t) then Return(s, t, Flag(true)).(owner := s.owner[i := None], mine := s.mine[t := None])
      else Return(s, t, Flag(false)).(mine := s.mine[t := None])
  }

  function Do<T(==)>(s: State<T>, act: Act<T>, blank: T): (s': State<T>)
    requires Shape(s)
    ensures Shape(s') && |s'.owner| == |s.owner| && |s'.pc| == |s.pc|
  {
    if act.t >= |s.pc| then s
    else match act case Call(t, op) => Begin(s, t, op) case Tick(t) => Move(s, t, blank)
  }

  function Run<T(==)>(s: State<T>, acts: seq<Act<T>>, blank: T): (s': State<T>)
    requires Shape(s)
    ensures Shape(s') && |s'.owner| == |s.owner| && |s'.pc| == |s.pc|
    decreases |acts|
  {
    if acts == [] then s else Run(Do(s, acts[0], blank), acts[1..], blank)
  }

  /** N free slots and k idle threads. */
  function Initial<T>(n: nat, k: nat, blank: T): State<T> {
    State(seq(n, _ => None), seq(n, _ => blank), seq(k, _ => Idle(Nothing)), seq(k, _ => None))
  }

  // ---------- the invariant ----------

  ghost predicate Holds<T>(s: State<T>, t: nat, i: int) {
    0 <= i < |s.owner| && s.owner[i] == Some(t)
  }

  ghost predicate AtMostOneSlot<T>(s: State<T>) {
    forall t: nat, i, j {:trigger Holds(s, t, i), Holds(s, t, j)} :: Holds(s, t, i) && Holds(s, t, j) ==> i == j
  }

  /** What thread t knows about its own slot where it stands. */
  ghost predicate Knows<T>(s: State<T>, t: nat)
    requires Shape(s) && t < |s.pc|
  {
    match s.pc[t]
    case SetFind(_, i) => forall j {:trigger Holds(s, t, j)} :: j < i ==> !Holds(s, t, j)
    case SetClaim(_, _) => forall j {:trigger Holds(s, t, j)} :: !Holds(s, t, j)
    case SetWrite(_, i) => Holds(s, t, i)
    case GetScan(i) => forall j {:trigger Holds(s, t, j)} :: j < i ==> !Holds(s, t, j)
    case EraseScan(i) => forall j {:trigger Holds(s, t, j)} :: j < i ==> !Holds(s, t, j)
    case EraseClear(i) => Holds(s, t, i)
    case EraseRelease(i) => Holds(s, t, i) && s.mine[t].Some?
    case Idle(_) => true
  }

  /** Thread t's slot has its value, unless it is just being written or erased. */
  ghost predicate HasMine<T>(s: State<T>, t: nat)
    requires Shape(s) && t < |s.pc|
  {
    && (forall i {:trigger Holds(s, t, i)} :: Holds(s, t, i) && !s.pc[t].SetWrite? && !s.pc[t].EraseRelease? ==>
        s.mine[t] == Some(s.value[i]))
    && (s.mine[t].Some? ==> exists i :: Holds(s, t, i))
  }

  ghost predicate Inv<T>(s: State<T>) {
    && Shape(s) && AtMostOneSlot(s)
    && (forall i {:trigger s.owner[i]} :: 0 <= i < |s.owner| && s.owner[i].Some? ==> s.owner[i].value < |s.pc|)
    && forall t {:trigger s.pc[t]} :: 0 <= t < |s.pc| ==> Knows(s, t) && HasMine(s, t)
  }

  lemma InitialIsInv<T>(n: nat, k: nat, blank: T)
    ensures Inv(Initial(n, k, blank))
  {
    var s := Initial(n, k, blank);
    forall t | 0 <= t < |s.pc| ensures s.pc[t] == Idle(Nothing) && Knows(s, t) && HasMine(s, t) {
      assert forall i {:trigger Holds(s, t, i)} :: !Holds(s, t, i);
    }
  }

  /** A step of thread t changes neither the slot of another thread nor anything it knows. */
  ghost predicate Untouched<T>(s: State<T>, s': State<T>, u: nat)
    requires Shape(s) && Shape(s') && u < |s.pc| == |s'.pc|
  {
    && |s'.owner| == |s.owner| && s'.pc[u] == s.pc[u] && s'.mine[u] == s.mine[u]
    && (forall i {:trigger Holds(s', u, i)} {:trigger Holds(s, u, i)} :: Holds(s', u, i) <==> Holds(s, u, i))
    && (forall i {:trigger Holds(s, u, i)} :: Holds(s, u, i) ==> s'.value[i] == s.value[i])
  }

  lemma OthersUntouched<T>(s: State<T>, act: Act<T>, blank: T, u: nat)
    requires Inv(s) && u < |s.pc| && u != act.t
    ensures Untouched(s, Do(s, act, blank), u)
  {
    if act.t < |s.pc| && act.Tick? {
      assert Knows(s, act.t);
    }
  }

  lemma UntouchedKeeps<T>(s: State<T>, s': State<T>, u: nat)
    requires Shape(s) && Shape(s') && u < |s.pc| == |s'.pc| && Untouched(s, s', u) && Knows(s, u) && HasMine(s, u)
    ensures Knows(s', u) && HasMine(s', u)
  {
    assert forall i {:trigger Holds(s', u, i)} :: Holds(s', u, i) <==> Holds(s, u, i);
    if s'.mine[u].Some? {
      var i :| Holds(s, u, i);
      assert Holds(s', u, i);
    }
  }

  /** The slots thread t holds after a step of its own. */
  lemma OwnSlots<T>(s: State<T>, act: Act<T>, blank: T)
    requires Inv(s) && act.t < |s.pc|
    ensures var t, pc, s' := act.t, s.pc[act.t], Do(s, act, blank);
            forall j {:trigger Holds(s', t, j)} ::
              Holds(s', t, j) <==> (Holds(s, t, j) && !(act.Tick? && pc.EraseRelease?))
                                   || (act.Tick? && pc.SetClaim? && pc.i == j < |s.owner| && s.owner[j] == None)
  {
    var t, pc, s' := act.t, s.pc[act.t], Do(s, act, blank);
    assert Knows(s, t);
    if act.Tick? && pc.EraseRelease? {
      assert Holds(s, t, pc.i);
      forall j ensures !Holds(s', t, j) {
        if j != pc.i && 0 <= j < |s.owner| {
          assert Holds(s, t, j) <==> Holds(s', t, j);
        }
      }
    } else {
      forall j | 0 <= j < |s.owner| ensures Holds(s', t, j) <==>
             Holds(s, t, j) || (act.Tick? && pc.SetClaim? && pc.i == j && s.owner[j] == None) {}
    }
  }

  lemma OwnStep<T>(s: State<T>, act: Act<T>, blank: T)
    requires Inv(s) && act.t < |s.pc|
    ensures Knows(Do(s, act, blank), act.t) && HasMine(Do(s, act, blank), act.t)
  {
    OwnSlots(s, act, blank);
    var t, s' := act.t, Do(s, act, blank);
    assert Knows(s, t) && HasMine(s, t);
    if act.Tick? && s.pc[t].SetWrite? {
      assert Holds(s', t, s.pc[t].i);
    } else if s.mine[t].Some? {
      var i :| Holds(s, t, i);
      assert Holds(s', t, i) <==> !(act.Tick? && s.pc[t].EraseRelease?);
    }
  }

  lemma StepIsInv<T>(s: State<T>, act: Act<T>, blank: T)
    requires Inv(s)
    ensures Inv(Do(s, act, blank))
  {
    var s' := Do(s, act, blank);
    forall u | 0 <= u < |s.pc| ensures Knows(s', u) && HasMine(s', u) {
      assert Knows(s, u) && HasMine(s, u);
      if u == act.t {
        OwnStep(s, act, blank);
      } else {
        OthersUntouched(s, act, blank, u);
        UntouchedKeeps(s, s', u);
      }
    }
    OneSlotStays(s, act, blank);
  }

  lemma OneSlotStays<T>(s: State<T>, act: Act<T>, blank: T)
    requires Inv(s)
    ensures AtMostOneSlot(Do(s, act, blank))
  {
    var s' := Do(s, act, blank);
    if act.t < |s.pc| && act.Tick? {
      assert Knows(s, act.t);
    }
    forall t: nat, i, j | Holds(s', t, i) && Holds(s', t, j) ensures i == j {
      assert Holds(s, t, i) || s.owner[i] == None;
      assert Holds(s, t, j) || s.owner[j] == None;
    }
  }

  /** Every interleaving, from any state that satisfies the invariant. */
  lemma {:induction false} RunIsInv<T>(s: State<T>, acts: seq<Act<T>>, blank: T)
    requires Inv(s)
    ensures Inv(Run(s, acts, blank))
    decreases |acts|
  {
    if acts != [] {
      StepIsInv(s, acts[0], blank);
      RunIsInv(Do(s, acts[0], blank), acts[1..], blank);
    }
  }

  // ---------- what calls return ----------

  /** The step by which thread t's call returns. */
  ghost predicate Returns<T>(s: State<T>, t: nat, blank: T)
    requires Shape(s) && t < |s.pc|
  {
    !s.pc[t].Idle? && Move(s, t, blank).pc[t].Idle?
  }

  /** A get that returns has found the thread's last value, or null when there is none. */
  lemma GetIsRight<T>(s: State<T>, t: nat, blank: T)
    requires Inv(s) && t < |s.pc| && s.pc[t].GetScan? && Returns(s, t, blank)
    ensures var s' := Move(s, t, blank);
            var ret := s'.pc[t].last;
            && ret.Slot? && s'.mine[t] == s.mine[t]
            && (ret.p == None <==> s.mine[t] == None)
            && (ret.p.Some? ==> Holds(s', t, ret.p.value) && s'.mine[t] == Some(s'.value[ret.p.value]))
  {
    assert Knows(s, t) && HasMine(s, t);
    if s.pc[t].i < |s.owner| {
      assert Holds(s, t, s.pc[t].i);
    }
  }

  /** A step changes a value only in a slot the moving thread holds, and an owner only to or from that thread. */
  lemma OnlyTheOwnerTouches<T>(s: State<T>, act: Act<T>, blank: T, i: nat)
    requires Inv(s) && i < |s.owner|
    ensures Do(s, act, blank).value[i] != s.value[i] ==> Holds(s, act.t, i)
    ensures Do(s, act, blank).owner[i] != s.owner[i] ==>
            Holds(s, act.t, i) || (s.owner[i] == None && Holds(Do(s, act, blank), act.t, i))
  {
    if act.t < |s.pc| {
      assert Knows(s, act.t);
    }
  }

  /** The slot get returned stays the thread's, with its value, while only other threads move. */
  lemma {:induction false} SlotStays<T>(s: State<T>, acts: seq<Act<T>>, blank: T, t: nat)
    requires Inv(s) && t < |s.pc| && forall k :: 0 <= k < |acts| ==> acts[k].t != t
    ensures Untouched(s, Run(s, acts, blank), t)
    decreases |acts|
  {
    if acts != [] {
      var s1 := Do(s, acts[0], blank);
      OthersUntouched(s, acts[0], blank, t);
      StepIsInv(s, acts[0], blank);
      SlotStays(s1, acts[1..], blank, t);
      var s2 := Run(s1, acts[1..], blank);
      assert forall i {:trigger Holds(s2, t, i)} :: Holds(s2, t, i) <==> Holds(s1, t, i);
    }
  }

  /** An erase that returns says whether there was a value, and there is none after it. */
  lemma EraseIsRight<T>(s: State<T>, t: nat, blank: T)
    requires Inv(s) && t < |s.pc| && (s.pc[t].EraseScan? || s.pc[t].EraseRelease?) && Returns(s, t, blank)
    ensures var s' := Move(s, t, blank);
            && (s'.pc[t].last == Flag(true) <==> s.mine[t].Some?) && s'.mine[t] == None
            && forall i {:trigger Holds(s', t, i)} :: !Holds(s', t, i)
  {
    assert Knows(s, t) && HasMine(s, t);
    OwnSlots(s, Tick(t), blank);
    assert Do(s, Tick(t), blank) == Move(s, t, blank);
    assert forall i {:trigger Holds(s, t, i)} :: Holds(s, t, i) ==> s.pc[t].EraseRelease?;
  }

  // ---------- set fails only when there are more threads than slots ----------

  /** The slot a thread holds, or the one it is about to try to claim. */
  ghost predicate Reaches<T>(s: State<T>, t: nat, j: int)
    requires t < |s.pc|
  {
    j <= 0 || (exists i :: j <= i && Holds(s, t, i)) || (s.pc[t].SetClaim? && j <= s.pc[t].i)
  }

  ghost function Reaching<T>(s: State<T>, j: int): set<int> {
    set t: nat | t < |s.pc| && Reaches(s, t, j)
  }

  /** At most k - j of k threads are at slot j or beyond. */
  ghost predicate Spread<T>(s: State<T>) {
    forall j {:trigger Reaching(s, j)} :: 0 <= j <= |s.owner| ==>
           |Reaching(s, j)| <= if j <= |s.pc| then |s.pc| - j else 0
  }

  lemma SubsetIsSmaller(a: set<int>, b: set<int>)
    requires a <= b
    ensures |a| <= |b|
  {
    assert b == a + (b - a);
  }

  lemma ReachStep<T>(s: State<T>, t: nat, blank: T, w: nat, j: int)
    requires Inv(s) && t < |s.pc| && w < |s.pc| && s.pc[t].SetClaim? && s.pc[t].i < |s.owner|
             && s.owner[s.pc[t].i].Some?
    requires Reaches(Move(s, t, blank), w, j)
    ensures Reaches(s, w, j) || (w == t && j == s.pc[t].i + 1)
  {
    var s' := Move(s, t, blank);
    assert forall i {:trigger Holds(s', w, i)} :: Holds(s', w, i) <==> Holds(s, w, i);
  }

  lemma AdvancePast<T>(s: State<T>, t: nat, blank: T)
    requires Inv(s) && Spread(s) && t < |s.pc| && s.pc[t].SetClaim? && s.pc[t].i < |s.owner| && s.owner[s.pc[t].i].Some?
    ensures Spread(Move(s, t, blank))
  {
    var s', i := Move(s, t, blank), s.pc[t].i;
    var u := s.owner[i].value;
    assert Knows(s, t) && Knows(s, u);
    assert Holds(s, u, i) && !Holds(s, t, i);
    forall j | 0 <= j <= |s'.owner| ensures |Reaching(s', j)| <= if j <= |s'.pc| then |s'.pc| - j else 0 {
      if j == i + 1 {
        assert !Reaches(s, u, j);
        assert Reaches(s, u, i) && u in Reaching(s, i);
        forall w | w in Reaching(s', j) ensures w in Reaching(s, i) - {u} {
          ReachStep(s, t, blank, w, j);
        }
        SubsetIsSmaller(Reaching(s', j), Reaching(s, i) - {u});
      } else {
        forall w | w in Reaching(s', j) ensures w in Reaching(s, j) {
          ReachStep(s, t, blank, w, j);
        }
        SubsetIsSmaller(Reaching(s', j), Reaching(s, j));
      }
    }
  }

  predicate Advances<T>(s: State<T>, act: Act<T>)
    requires Shape(s)
  {
    act.Tick? && act.t < |s.pc| && s.pc[act.t].SetClaim? && s.pc[act.t].i < |s.owner| && s.owner[s.pc[act.t].i].Some?
  }

  /** Any other step takes no thread to a further slot. */
  lemma NoneAdvances<T>(s: State<T>, act: Act<T>, blank: T, w: nat, j: int)
    requires Inv(s) && !Advances(s, act) && w < |s.pc| && Reaches(Do(s, act, blank), w, j)
    ensures Reaches(s, w, j)
  {
    var s' := Do(s, act, blank);
    if act.t >= |s.pc| {
    } else if w == act.t {
      OwnSlots(s, act, blank);
    } else {
      OthersUntouched(s, act, blank, w);
    }
  }

  lemma StepIsSpread<T>(s: State<T>, act: Act<T>, blank: T)
    requires Inv(s) && Spread(s)
    ensures Spread(Do(s, act, blank))
  {
    var s' := Do(s, act, blank);
    if Advances(s, act) {
      AdvancePast(s, act.t, blank);
    } else {
      forall j | 0 <= j <= |s'.owner| ensures |Reaching(s', j)| <= |Reaching(s, j)| {
        forall w | w in Reaching(s', j) ensures w in Reaching(s, j) {
          NoneAdvances(s, act, blank, w, j);
        }
        SubsetIsSmaller(Reaching(s', j), Reaching(s, j));
      }
    }
  }

  function Below(k: nat): (b: set<int>)
    ensures |b| == k && forall t :: t in b <==> 0 <= t < k
  {
    if k == 0 then {} else Below(k - 1) + {k - 1}
  }

  lemma InitialIsSpread<T>(n: nat, k: nat, blank: T)
    ensures Spread(Initial(n, k, blank))
  {
    var s := Initial(n, k, blank);
    forall j | 0 <= j <= |s.owner| ensures |Reaching(s, j)| <= if j <= |s.pc| then |s.pc| - j else 0 {
      if j == 0 {
        SubsetIsSmaller(Reaching(s, j), Below(k));
      } else {
        assert forall t | t in Reaching(s, j) :: s.pc[t] == Idle(Nothing);
        assert Reaching(s, j) == {};
      }
    }
  }

  lemma {:induction false} RunIsSpread<T>(s: State<T>, acts: seq<Act<T>>, blank: T)
    requires Inv(s) && Spread(s)
    ensures Inv(Run(s, acts, blank)) && Spread(Run(s, acts, blank))
    decreases |acts|
  {
    if acts != [] {
      StepIsInv(s, acts[0], blank);
      StepIsSpread(s, acts[0], blank);
      RunIsSpread(Do(s, acts[0], blank), acts[1..], blank);
    }
  }

  /** With no more threads than slots every set succeeds, whatever the interleaving. */
  lemma SetSucceeds<T>(n: nat, k: nat, acts: seq<Act<T>>, blank: T, t: nat)
    requires t < k <= n
    ensures var s := Run(Initial(n, k, blank), acts, blank);
            var s' := Move(s, t, blank);
            (s.pc[t].SetFind? || s.pc[t].SetClaim? || s.pc[t].SetWrite?) && Returns(s, t, blank) ==>
              s.pc[t].SetWrite? && s'.pc[t].last == Flag(true) && s'.mine[t] == Some(s.pc[t].v)
              && Holds(s', t, s.pc[t].i)
  {
    InitialIsInv(n, k, blank);
    InitialIsSpread(n, k, blank);
    RunIsSpread(Initial(n, k, blank), acts, blank);
    var s := Run(Initial(n, k, blank), acts, blank);
    assert Knows(s, t);
    assert Reaching(s, n) == {};
    assert t !in Reaching(s, n);
  }

  // ---------- a set that finds every slot taken ----------

  function Ticks<T>(t: nat, m: nat): seq<Act<T>> {
    seq(m, _ => Tick(t))
  }

  lemma {:induction false} RunInTwo<T>(s: State<T>, a: seq<Act<T>>, b: seq<Act<T>>, blank: T)
    requires Shape(s)
    ensures Run(s, a + b, blank) == Run(Run(s, a, blank), b, blank)
    decreases |a|
  {
    if a == [] {
      assert a + b == b;
    } else {
      assert (a + b)[1..] == a[1..] + b;
      RunInTwo(Do(s, a[0], blank), a[1..], b, blank);
    }
  }

  lemma {:induction false} FindScan<T>(s: State<T>, t: nat, v: T, i: nat, blank: T)
    requires Shape(s) && t < |s.pc| && s.pc[t] == SetFind(v, i)
    requires forall j :: i <= j < |s.owner| ==> s.owner[j] != Some(t)
    ensures Run(s, Ticks(t, |s.owner| - i + 1), blank) == s.(pc := s.pc[t := SetClaim(v, 0)])
    decreases |s.owner| - i
  {
    var acts := Ticks(t, |s.owner| - i + 1);
    var s1 := Do(s, acts[0], blank);
    assert acts[1..] == Ticks(t, |s.owner| - i);
    if i < |s.owner| {
      FindScan(s1, t, v, i + 1, blank);
      assert s1.(pc := s1.pc[t := SetClaim(v, 0)]) == s.(pc := s.pc[t := SetClaim(v, 0)]);
    } else {
      assert Run(s1, acts[1..], blank) == s1;
    }
  }

  /** The claim passes the slots that are taken and then takes slot e, or fails if e is the end. */
  function Claimed<T>(s: State<T>, t: nat, v: T, e: nat): State<T>
    requires Shape(s) && t < |s.pc| && e <= |s.owner|
  {
    if e == |s.owner| then Return(s, t, Flag(false))
    else State(s.owner[e := Some(t)], s.value[e := v], s.pc[t := Idle(Flag(true))], s.mine[t := Some(v)])
  }

  lemma {:induction false} ClaimScan<T>(s: State<T>, t: nat, v: T, i: nat, e: nat, blank: T)
    requires Shape(s) && t < |s.pc| && i <= e <= |s.owner| && s.pc[t] == SetClaim(v, i)
    requires (forall j :: i <= j < e ==> s.owner[j].Some?) && (e < |s.owner| ==> s.owner[e] == None)
    ensures Run(s, Ticks(t, e - i + 2), blank) == Claimed(s, t, v, e)
    decreases e - i
  {
    var acts := Ticks(t, e - i + 2);
    var s1 := Do(s, acts[0], blank);
    assert acts[1..] == Ticks(t, e - i + 1);
    if i < e {
      ClaimScan(s1, t, v, i + 1, e, blank);
      assert Claimed(s1, t, v, e) == Claimed(s, t, v, e);
    } else {
      var rest := acts[1..];
      assert Run(s1, rest, blank) == Do(s1, rest[0], blank);
    }
  }

  /** A set that nothing interrupts takes the first free slot, or fails if there is none. */
  lemma SetAlone<T>(s: State<T>, t: nat, v: T, e: nat, blank: T) returns (acts: seq<Act<T>>)
    requires Shape(s) && t < |s.pc| && e <= |s.owner| && s.pc[t].Idle?
    requires forall j :: 0 <= j < |s.owner| ==> s.owner[j] != Some(t)
    requires (forall j :: 0 <= j < e ==> s.owner[j].Some?) && (e < |s.owner| ==> s.owner[e] == None)
    ensures Run(s, acts, blank) == Claimed(s, t, v, e)
  {
    var s1 := Begin(s, t, Set(v));
    var find, claim := Ticks<T>(t, |s.owner| + 1), Ticks<T>(t, e + 2);
    FindScan(s1, t, v, 0, blank);
    var s2 := s1.(pc := s1.pc[t := SetClaim(v, 0)]);
    ClaimScan(s2, t, v, 0, e, blank);
    assert Claimed(s2, t, v, e) == Claimed(s, t, v, e);
    RunInTwo(s1, find, claim, blank);
    acts := [Call(t, Set(v))] + (find + claim);
    assert acts[1..] == find + claim;
  }

  ghost predicate Filled<T>(s: State<T>, n: nat, k: nat, i: nat) {
    && |s.owner| == n && |s.pc| == k && Shape(s)
    && (forall j :: 0 <= j < n ==> s.owner[j] == if j < i then Some(j) else None)
    && forall t :: 0 <= t < k ==> s.pc[t].Idle?
  }

  lemma {:induction false} FillSlots<T>(n: nat, k: nat, i: nat, blank: T) returns (acts: seq<Act<T>>)
    requires i <= n && i <= k
    ensures Filled(Run(Initial(n, k, blank), acts, blank), n, k, i)
  {
    if i == 0 {
      acts := [];
    } else {
      var before := FillSlots(n, k, i - 1, blank);
      var s := Run(Initial(n, k, blank), before, blank);
      var more := SetAlone(s, i - 1, blank, i - 1, blank);
      RunInTwo(Initial(n, k, blank), before, more, blank);
      acts := before + more;
    }
  }

  /** With more threads than slots a set can fail. */
  lemma SetCanFail<T>(n: nat, k: nat, blank: T) returns (acts: seq<Act<T>>)
    requires n < k
    ensures Run(Initial(n, k, blank), acts, blank).pc[n] == Idle(Flag(false))
    ensures Run(Initial(n, k, blank), acts, blank).mine[n] == None
  {
    var fill := FillSlots(n, k, n, blank);
    var s := Run(Initial(n, k, blank), fill, blank);
    InitialIsInv(n, k, blank);
    RunIsInv(Initial(n, k, blank), fill, blank);
    var more := SetAlone(s, n, blank, n, blank);
    RunInTwo(Initial(n, k, blank), fill, more, blank);
    acts := fill + more;
    assert HasMine(s, n);
  }
}
