/**
  Jumps as the patcher writes them over the start of a function, and the patches that undo them, on a
  64-bit machine. Memory is a sequence of bytes; addresses are its indices, jump targets any 64-bit word.
 */
module Routes {
  import opened Bytes

  const SMALL_JUMP: int := 5
  const MEDIUM_JUMP: int := 6
  const LONG_JUMP: int := 14
  const WINDOW: int := 16

  function Wrap(x: int): nat {
    x % 0x1_0000_0000_0000_0000
  }

  /** The low 32 bits of a 64-bit difference. */
  function Low32(x: int): nat {
    x % 0x1_0000_0000
  }

  function Signed32(n: nat): int
    requires n < 0x1_0000_0000
  {
    if n < 0x8000_0000 then n else n - 0x1_0000_0000
  }

  type Address = a: int | 0 <= a < 0x1_0000_0000_0000_0000

  // ---------- memory ----------

  function Written(m: seq<byte>, a: int, w: seq<byte>): (m': seq<byte>)
    requires 0 <= a && a + |w| <= |m|
    ensures |m'| == |m|
    ensures forall x {:trigger m'[x]} :: 0 <= x < |m| ==> m'[x] == if a <= x < a + |w| then w[x - a] else m[x]
    ensures m'[a..a + |w|] == w
  {
    m[..a] + w + m[a + |w|..]
  }

  lemma WrittenTwice(m: seq<byte>, a: int, v: seq<byte>, w: seq<byte>)
    requires 0 <= a && a + |v| + |w| <= |m|
    ensures Written(Written(m, a, v), a + |v|, w) == Written(m, a, v + w)
    ensures Written(Written(m, a + |v|, w), a, v) == Written(m, a, v + w)
  {}

  /** Writing back what is there changes nothing: a wider store with bytes taken from memory. */
  lemma WrittenWider(m: seq<byte>, a: int, w: seq<byte>, k: nat)
    requires 0 <= a && a + |w| + k <= |m|
    ensures Written(m, a, w + m[a + |w|..a + |w| + k]) == Written(m, a, w)
  {}

  // ---------- jumps ----------

  datatype Form = Short | Medium(slot: int) | Long

  datatype JumpType = AutoType | LongType | ShortType | MediumType

  /** from and to are near enough for a 32-bit relative jump. */
  predicate Near(from: int, to: int) {
    Wrap(to - (from + SMALL_JUMP)) == Wrap(Signed32(Low32(to - (from + SMALL_JUMP))))
  }

  function Argument(from: int, form: Form, to: int): nat {
    match form
    case Short => Low32(to - (from + SMALL_JUMP))
    case Medium(slot) => Low32(slot - (from + MEDIUM_JUMP))
    case Long => 0
  }

  function Opcode(form: Form): seq<byte> {
    if form.Short? then [0xE9] else [0xFF, 0x25]
  }

  /** The bytes written over the function. */
  function Code(from: int, form: Form, to: Address): (c: seq<byte>)
    ensures |c| == Length(form)
  {
    Opcode(form) + LE32(Argument(from, form, to)) + if form.Long? then LE64(to) else []
  }

  function Length(form: Form): int {
    match form case Short => SMALL_JUMP case Medium(_) => MEDIUM_JUMP case Long => LONG_JUMP
  }

  predicate Placed(m: seq<byte>, from: int, form: Form) {
    && 0 <= from && from + WINDOW <= |m| < 0x1_0000_0000_0000_0000
    && (form.Medium? ==>
        0 <= form.slot && form.slot + 8 <= |m| && (form.slot + 8 <= from || from + WINDOW <= form.slot))
  }

  /** Memory with the route in place. */
  function Installed(m: seq<byte>, from: int, form: Form, to: Address): (m': seq<byte>)
    requires Placed(m, from, form)
    ensures |m'| == |m|
    ensures forall x {:trigger m'[x]} ::
              0 <= x < |m| && !(from <= x < from + Length(form))
              && !(form.Medium? && form.slot <= x < form.slot + 8) ==>
              m'[x] == m[x]
  {
    var m1 := if form.Medium? then Written(m, form.slot, LE64(to)) else m;
    Written(m1, from, Code(from, form, to))
  }

  /** Where a jump through memory finds its target. */
  function Pointer(m: seq<byte>, from: int): nat
    requires 0 <= from && from + MEDIUM_JUMP <= |m|
  {
    Wrap(from + MEDIUM_JUMP + Signed32(FromLE32(m[from + 2..from + MEDIUM_JUMP])))
  }

  predicate IsIndirect(m: seq<byte>, from: int)
    requires 0 <= from && from + MEDIUM_JUMP <= |m|
  {
    m[from] == 0xFF && m[from + 1] == 0x25
  }

  predicate Readable(m: seq<byte>, from: int) {
    && 0 <= from && from + WINDOW <= |m| < 0x1_0000_0000_0000_0000
    && (IsIndirect(m, from) ==> Pointer(m, from) + 8 <= |m|)
  }

  /** readChain: the target of the jump a function starts with, or 0, and the kind of jump. */
  function ReadChain(m: seq<byte>, from: int): (nat, JumpType)
    requires Readable(m, from)
  {
    if IsIndirect(m, from) then
      var a := Pointer(m, from);
      (FromLE64(m[a..a + 8]), if FromLE32(m[from + 2..from + MEDIUM_JUMP]) != 0 then MediumType else LongType)
    else if m[from] == 0xE9 then
      (Wrap(from + SMALL_JUMP + Signed32(FromLE32(m[from + 1..from + SMALL_JUMP]))), ShortType)
    else (0, AutoType)
  }

  /** A slot is within 32-bit reach of an indirect jump at from. */
  predicate InReach(from: int, slot: int) {
    Wrap(slot - (from + MEDIUM_JUMP)) == Wrap(Signed32(Low32(slot - (from + MEDIUM_JUMP))))
  }

  predicate Works(from: int, form: Form, to: int) {
    (form.Short? ==> Near(from, to)) && (form.Medium? ==> InReach(from, form.slot))
  }

  lemma WrapShift(a: int, b: int, c: int)
    ensures Wrap(a + b) == Wrap(a + c) <==> Wrap(b) == Wrap(c)
  {
    WrapDifference(a + b, a + c);
    WrapDifference(b, c);
  }

  lemma WrapDifference(x: int, y: int)
    ensures Wrap(x) == Wrap(y) <==> (x - y) % 0x1_0000_0000_0000_0000 == 0
  {}

  lemma Part(m: seq<byte>, a: int, w: seq<byte>, i: int, j: int)
    requires 0 <= a && a + |w| <= |m| && m[a..a + |w|] == w && 0 <= i <= j <= |w|
    ensures m[a + i..a + j] == w[i..j]
  {
    forall x | 0 <= x < j - i ensures m[a + i..a + j][x] == w[i..j][x] {
      assert m[a..a + |w|][i + x] == w[i + x];
    }
  }

  lemma CodeParts(from: int, form: Form, to: Address)
    ensures var c, k := Code(from, form, to), |Opcode(form)|;
            && c[..k] == Opcode(form) && c[k..k + 4] == LE32(Argument(from, form, to))
            && (form.Long? ==> c[MEDIUM_JUMP..LONG_JUMP] == LE64(to))
  {}

  /** The code of a short route stands in memory. */
  lemma ShortInMemory(m: seq<byte>, from: int, to: Address)
    requires Placed(m, from, Short)
    ensures var m' := Installed(m, from, Short, to);
            m'[from] == 0xE9 && m'[from + 1..from + SMALL_JUMP] == LE32(Argument(from, Short, to))
  {
    var m', c := Installed(m, from, Short, to), Code(from, Short, to);
    CodeParts(from, Short, to);
    Part(m', from, c, 1, SMALL_JUMP);
    assert m'[from] == c[0] == c[..1][0];
  }

  /** The code of an indirect route, and the word it goes through. */
  lemma IndirectInMemory(m: seq<byte>, from: int, form: Form, to: Address, a: int)
    requires Placed(m, from, form) && !form.Short? && a == if form.Medium? then form.slot else from + MEDIUM_JUMP
    ensures var m' := Installed(m, from, form, to);
            && m'[from..from + 2] == [0xFF, 0x25] && m'[from + 2..from + MEDIUM_JUMP] == LE32(Argument(from, form, to))
            && m'[a..a + 8] == LE64(to)
  {
    var m', c := Installed(m, from, form, to), Code(from, form, to);
    CodeParts(from, form, to);
    Part(m', from, c, 0, 2);
    Part(m', from, c, 2, MEDIUM_JUMP);
    if form.Long? {
      Part(m', from, c, MEDIUM_JUMP, LONG_JUMP);
    } else {
      assert m'[a..a + 8] == Written(m, a, LE64(to))[a..a + 8];
    }
  }

  lemma ReadsShort(m: seq<byte>, from: int, to: Address)
    requires Placed(m, from, Short)
    ensures Readable(Installed(m, from, Short, to), from)
    ensures var r := ReadChain(Installed(m, from, Short, to), from); r.1 == ShortType && (r.0 == to <==> Near(from, to))
  {
    ShortInMemory(m, from, to);
    WordRoundTrip(Argument(from, Short, to));
    ShortReached(from, to);
  }

  lemma ShortReached(from: int, to: Address)
    ensures Wrap(from + SMALL_JUMP + Signed32(Low32(to - (from + SMALL_JUMP)))) == to <==> Near(from, to)
  {
    WrapShift(from + SMALL_JUMP, to - (from + SMALL_JUMP), Signed32(Low32(to - (from + SMALL_JUMP))));
  }

  lemma PointerIs(m: seq<byte>, from: int, arg: nat)
    requires 0 <= from && from + MEDIUM_JUMP <= |m| && arg < 0x1_0000_0000
    requires m[from..from + 2] == [0xFF, 0x25] && m[from + 2..from + MEDIUM_JUMP] == LE32(arg)
    ensures IsIndirect(m, from) && Pointer(m, from) == Wrap(from + MEDIUM_JUMP + Signed32(arg))
  {
    assert m[from] == m[from..from + 2][0] && m[from + 1] == m[from..from + 2][1];
    WordRoundTrip(arg);
  }

  lemma ReadsIndirect(m: seq<byte>, from: int, arg: nat, to: Address)
    requires 0 <= from && from + WINDOW <= |m| < 0x1_0000_0000_0000_0000 && arg < 0x1_0000_0000
    requires m[from + 2..from + MEDIUM_JUMP] == LE32(arg) && IsIndirect(m, from)
    requires Pointer(m, from) + 8 <= |m| && m[Pointer(m, from)..Pointer(m, from) + 8] == LE64(to)
    ensures Readable(m, from) && ReadChain(m, from) == (to as nat, if arg != 0 then MediumType else LongType)
  {
    WordRoundTrip(arg);
    LongWordRoundTrip(to);
  }

  lemma NoOffset(from: int)
    requires 0 <= from && from + MEDIUM_JUMP < 0x1_0000_0000_0000_0000
    ensures Wrap(from + MEDIUM_JUMP + Signed32(0)) == from + MEDIUM_JUMP
  {}

  lemma ReadsLong(m: seq<byte>, from: int, to: Address)
    requires Placed(m, from, Long)
    ensures var m' := Installed(m, from, Long, to);
            Readable(m', from) && IsIndirect(m', from) && Pointer(m', from) == from + MEDIUM_JUMP
            && ReadChain(m', from) == (to as nat, LongType)
  {
    var m' := Installed(m, from, Long, to);
    IndirectInMemory(m, from, Long, to, from + MEDIUM_JUMP);
    PointerIs(m', from, 0);
    NoOffset(from);
    ReadsIndirect(m', from, 0, to);
  }

  lemma SlotReached(from: int, slot: int)
    requires 0 <= slot < 0x1_0000_0000_0000_0000
    ensures Wrap(from + MEDIUM_JUMP + Signed32(Low32(slot - (from + MEDIUM_JUMP)))) == slot <==> InReach(from, slot)
  {
    WrapShift(from + MEDIUM_JUMP, slot - (from + MEDIUM_JUMP), Signed32(Low32(slot - (from + MEDIUM_JUMP))));
  }

  lemma PointerOfSlotted(m: seq<byte>, from: int, slot: int, to: Address)
    requires Placed(m, from, Medium(slot))
    ensures var m' := Installed(m, from, Medium(slot), to);
            IsIndirect(m', from)
            && Pointer(m', from) == Wrap(from + MEDIUM_JUMP + Signed32(Low32(slot - (from + MEDIUM_JUMP))))
  {
    var m', arg := Installed(m, from, Medium(slot), to), Argument(from, Medium(slot), to);
    IndirectInMemory(m, from, Medium(slot), to, slot);
    PointerIs(m', from, arg);
    assert arg == Low32(slot - (from + MEDIUM_JUMP));
  }

  /** A slotted jump reaches its slot exactly when the slot is within reach. */
  lemma PointsToSlot(m: seq<byte>, from: int, slot: int, to: Address)
    requires Placed(m, from, Medium(slot))
    ensures var m' := Installed(m, from, Medium(slot), to);
            IsIndirect(m', from) && (Pointer(m', from) == slot <==> InReach(from, slot))
  {
    PointerOfSlotted(m, from, slot, to);
    SlotReached(from, slot);
  }

  /** Such a slot exists in any memory large enough: the jump at 0 does not reach the slot at 2 GB and 16. */
  lemma FarSlotIsMissed(m: seq<byte>, to: Address)
    requires 0x8000_0020 <= |m| < 0x1_0000_0000_0000_0000
    ensures Placed(m, 0, Medium(0x8000_0010)) && !InReach(0, 0x8000_0010)
    ensures Pointer(Installed(m, 0, Medium(0x8000_0010), to), 0) != 0x8000_0010
  {
    PointsToSlot(m, 0, 0x8000_0010, to);
  }

  lemma ReadsMedium(m: seq<byte>, from: int, slot: int, to: Address)
    requires Placed(m, from, Medium(slot)) && InReach(from, slot)
    ensures var m' := Installed(m, from, Medium(slot), to);
            Readable(m', from) && IsIndirect(m', from) && Pointer(m', from) == slot
            && ReadChain(m', from) == (to as nat, MediumType)
  {
    PointsToSlot(m, from, slot, to);
    ArgumentIsNotZero(from, slot);
    ReadsThroughSlot(m, from, slot, to);
  }

  lemma ReadsThroughSlot(m: seq<byte>, from: int, slot: int, to: Address)
    requires Placed(m, from, Medium(slot)) && Argument(from, Medium(slot), to) != 0
    requires IsIndirect(Installed(m, from, Medium(slot), to), from)
             && Pointer(Installed(m, from, Medium(slot), to), from) == slot
    ensures var m' := Installed(m, from, Medium(slot), to);
            Readable(m', from) && ReadChain(m', from) == (to as nat, MediumType)
  {
    IndirectInMemory(m, from, Medium(slot), to, slot);
    ReadsIndirect(Installed(m, from, Medium(slot), to), from, Argument(from, Medium(slot), to), to);
  }

  /** A slot outside the window is not the place right behind the jump. */
  lemma ArgumentIsNotZero(from: int, slot: int)
    requires InReach(from, slot) && 0 <= slot < 0x1_0000_0000_0000_0000 && 0 <= from
             && from + MEDIUM_JUMP < 0x1_0000_0000_0000_0000
    requires slot != from + MEDIUM_JUMP
    ensures forall to :: Argument(from, Medium(slot), to) != 0
  {}

  function Kind(form: Form): JumpType {
    match form case Short => ShortType case Medium(_) => MediumType case Long => LongType
  }

  /** A route that works is read back by readChain. */
  lemma RouteIsReadBack(m: seq<byte>, from: int, form: Form, to: Address)
    requires Placed(m, from, form) && Works(from, form, to)
    ensures Readable(Installed(m, from, form, to), from)
    ensures ReadChain(Installed(m, from, form, to), from) == (to as nat, Kind(form))
  {
    match form
    case Short => ReadsShort(m, from, to);
    case Medium(slot) => ReadsMedium(m, from, slot, to);
    case Long => ReadsLong(m, from, to);
  }

  /** Bytes away from the code and the slot stay. */
  lemma Elsewhere(m: seq<byte>, from: int, form: Form, to: Address, a: int, n: nat)
    requires Placed(m, from, form) && 0 <= a && a + n <= |m| && (a + n <= from || from + Length(form) <= a)
    requires form.Medium? ==> a + n <= form.slot || form.slot + 8 <= a
    ensures Installed(m, from, form, to)[a..a + n] == m[a..a + n]
  {}

  /** readChain looks only at the first bytes of the function and at the word they point to. */
  lemma SameReading(m: seq<byte>, m': seq<byte>, g: int)
    requires Readable(m, g) && |m'| == |m| && m'[g..g + WINDOW] == m[g..g + WINDOW]
    requires IsIndirect(m, g) ==> m'[Pointer(m, g)..Pointer(m, g) + 8] == m[Pointer(m, g)..Pointer(m, g) + 8]
    ensures Readable(m', g) && ReadChain(m', g) == ReadChain(m, g)
    ensures (IsIndirect(m', g) <==> IsIndirect(m, g)) && Pointer(m', g) == Pointer(m, g)
  {
    var w := m[g..g + WINDOW];
    Part(m, g, w, 1, SMALL_JUMP);
    Part(m', g, w, 1, SMALL_JUMP);
    Part(m, g, w, 2, MEDIUM_JUMP);
    Part(m', g, w, 2, MEDIUM_JUMP);
    assert m'[g] == w[0] == m[g] && m'[g + 1] == w[1] == m[g + 1];
  }
}
