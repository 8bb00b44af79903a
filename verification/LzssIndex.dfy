/**
  Which strings of the window the trees stand for. A node may be replaced by a later one with the same string, so
  that each string registered is found as long as its own position is in the window. The strings before the text are
  the exception: they are registered from the last to the first, so that of those that are all spaces the first
  alone is kept, and once it has left the window the others are not found.
 */
module LzssIndex {
  import opened LzssTree
  import opened Bytes
  import opened LzssStrings
  import opened LzssSearch
  import opened LzssWindow

  function WindowStart(R: int): int {
    if R + F - N < N - 2 * F then N - 2 * F else R + F - N
  }

  ghost predicate BlankAt(buf: seq<byte>, x: int)
    requires |buf| == TEXT && 0 <= x < N
  {
    forall k {:trigger buf[k]} :: x <= k < x + F ==> buf[k] == 32
  }

  /** The string at text position t is still to be found from R. */
  ghost predicate Kept(buf: seq<byte>, R: int, t: int)
    requires |buf| == TEXT
  {
    WindowStart(R) <= t && !(t < N - F && N - 2 * F < R + F - N && BlankAt(buf, t))
  }

  /** x has the string at t; it is no older, unless t is before the text and all is spaces there. */
  ghost predicate StandsFor(buf: seq<byte>, R: int, t: int, x: int)
    requires |buf| == TEXT && N - 2 * F <= t
  {
    0 <= x < N && StringAt(buf, x) == StringAt(buf, t % N) && (t <= Abs(x, R) || (t < N - F && BlankAt(buf, t)))
  }

  ghost predicate Stands(buf: seq<byte>, live: set<int>, R: int, t: int)
    requires |buf| == TEXT && N - 2 * F <= t
  {
    exists x {:trigger StandsFor(buf, R, t, x)} :: x in live && StandsFor(buf, R, t, x)
  }

  /** All strings kept that start before top have a node, and no blank node lies between the first one and the text. */
  ghost predicate Indexed(buf: seq<byte>, live: set<int>, R: int, top: int)
    requires |buf| == TEXT
  {
    && (forall t {:trigger Kept(buf, R, t)} :: Kept(buf, R, t) && t < top ==> Stands(buf, live, R, t))
    && (forall x {:trigger x in live} :: x in live && 0 <= x < N && N - 2 * F < Abs(x, R) < N - F ==> !BlankAt(buf, x))
  }

  /** The match recorded at R is as long as any with a string that is kept, and is one of them. */
  ghost predicate BestMatch(buf: seq<byte>, R: int, pos: int, len: int) {
    && MatchFacts(buf, R, pos, len)
    && (forall t {:trigger Kept(buf, R, t)} :: Kept(buf, R, t) && t < R ==> Shared(buf, R % N, t % N) <= len)
    && (len > 0 ==> Kept(buf, R, Abs(pos, R)))
  }

  // ---------- registering a string ----------

  lemma SharedAll(buf: seq<byte>, x: int, y: int)
    requires |buf| == TEXT && 0 <= x < N && 0 <= y < N
    ensures Shared(buf, x, y) == F <==> StringAt(buf, x) == StringAt(buf, y)
  {
    var a, b := StringAt(buf, x), StringAt(buf, y);
    assert a[..F] == a && b[..F] == b;
    if a == b {
      CommonPrefixIs(a, b, F);
    }
  }

  lemma FoundIsBest(buf: seq<byte>, live: set<int>, R: int, pos: int, len: int)
    requires |buf| == TEXT && Indexed(buf, live, R, R) && LiveWindow(live, R)
    requires IsLongestMatch(buf, live, R % N, pos, len) && MatchFacts(buf, R, pos, len)
    ensures BestMatch(buf, R, pos, len)
  {
    forall t | Kept(buf, R, t) && t < R ensures Shared(buf, R % N, t % N) <= len {
      var x :| x in live && StandsFor(buf, R, t, x);
      assert Shared(buf, R % N, x) <= len;
    }
    if len > 0 {
      assert pos in live;
      assert Abs(pos, R) % N == pos;
    }
  }

  /** The scan position gets a node, in place of one with the same string if there is one. */
  lemma IndexTakes(buf: seq<byte>, live: set<int>, live': set<int>, R: int, pos: int, len: int)
    requires |buf| == TEXT && Indexed(buf, live, R, R) && LiveWindow(live, R) && N - F <= R
    requires IsLongestMatch(buf, live, R % N, pos, len)
    requires live' == live - (if len == F then {pos} else {}) + {R % N}
    ensures Indexed(buf, live', R, R + 1)
  {
    var r := R % N;
    assert Abs(r, R) == R;
    forall t | Kept(buf, R, t) && t < R + 1 ensures Stands(buf, live', R, t) {
      if t == R {
        assert StandsFor(buf, R, t, r);
      } else {
        var x :| x in live && StandsFor(buf, R, t, x);
        if x !in live' {
          SharedAll(buf, r, pos);
          assert StandsFor(buf, R, t, r);
        }
      }
    }
  }

  // ---------- moving on ----------

  /** A string of the window reads the same after the byte at R + F has been written. */
  lemma StringStays(buf: seq<byte>, buf': seq<byte>, R: int, t: int)
    requires |buf| == |buf'| == TEXT && N - F <= R && WindowStart(R + 1) <= t <= R
    requires var s := (R + F) % N;
             forall y {:trigger buf'[y]} :: 0 <= y < TEXT && y != s && y != s + N ==> buf'[y] == buf[y]
    ensures StringAt(buf', t % N) == StringAt(buf, t % N)
    ensures t < N ==> (BlankAt(buf', t) <==> BlankAt(buf, t))
  {
    var x := t % N;
    AbsOf(t, R);
    CloseMeansDistinct(t, R + F);
    forall k {:trigger buf[k]} {:trigger buf'[k]} | x <= k < x + F ensures buf'[k] == buf[k] {
      WriteMissesLiveStrings({x}, R, x, k - x);
    }
  }

  lemma AbsOf(t: int, R: int)
    requires R - N < t <= R
    ensures Abs(t % N, R) == t
  {}

  lemma AbsMovesOn(x: int, R: int)
    requires 0 <= x < N && x != (R + 1) % N
    ensures Abs(x, R + 1) == Abs(x, R)
  {
    var t := Abs(x, R);
    assert t != R + 1 - N;
    AbsOf(t, R + 1);
  }

  /** Once the string at s has been deleted and its byte overwritten, the rest of the window is as it was. */
  lemma IndexMoves(buf: seq<byte>, buf': seq<byte>, live: set<int>, R: int)
    requires |buf| == |buf'| == TEXT && N - F <= R && LiveWindow(live, R) && Indexed(buf, live, R, R + 1)
    requires var s := (R + F) % N;
             forall y {:trigger buf'[y]} :: 0 <= y < TEXT && y != s && y != s + N ==> buf'[y] == buf[y]
    ensures Indexed(buf', live - {(R + F) % N}, R + 1, R + 1)
  {
    var s, live' := (R + F) % N, live - {(R + F) % N};
    forall t {:trigger Kept(buf', R + 1, t)} | Kept(buf', R + 1, t) && t < R + 1
      ensures Stands(buf', live', R + 1, t)
    {
      StillStands(buf, buf', live, R, t);
    }
    forall x | x in live' && 0 <= x < N && N - 2 * F < Abs(x, R + 1) < N - F ensures !BlankAt(buf', x) {
      NodeStays(buf, buf', live, R, x);
      StringStays(buf, buf', R, Abs(x, R));
    }
  }

  lemma StillStands(buf: seq<byte>, buf': seq<byte>, live: set<int>, R: int, t: int)
    requires |buf| == |buf'| == TEXT && N - F <= R && LiveWindow(live, R) && Indexed(buf, live, R, R + 1)
    requires var s := (R + F) % N;
             forall y {:trigger buf'[y]} :: 0 <= y < TEXT && y != s && y != s + N ==> buf'[y] == buf[y]
    requires Kept(buf', R + 1, t) && t < R + 1
    ensures Stands(buf', live - {(R + F) % N}, R + 1, t)
  {
    StringStays(buf, buf', R, t);
    assert Kept(buf, R, t);
    var x :| x in live && StandsFor(buf, R, t, x);
    OldestIsGone(buf, buf', live, R, t, x);
    NodeStays(buf, buf', live, R, x);
    assert StandsFor(buf', R + 1, t, x);
  }

  /** A node other than the oldest stays where it is. */
  lemma NodeStays(buf: seq<byte>, buf': seq<byte>, live: set<int>, R: int, x: int)
    requires |buf| == |buf'| == TEXT && N - F <= R && LiveWindow(live, R) && x in live && x != (R + F) % N
    requires var s := (R + F) % N;
             forall y {:trigger buf'[y]} :: 0 <= y < TEXT && y != s && y != s + N ==> buf'[y] == buf[y]
    ensures Abs(x, R + 1) == Abs(x, R) && StringAt(buf', x) == StringAt(buf, x)
    ensures WindowStart(R + 1) <= Abs(x, R) && Abs(x, R) % N == x
  {
    var t := Abs(x, R);
    assert t % N == x;
    assert (R + F - N) % N == (R + F) % N;
    assert t != R + F - N;
    assert (R + 1 - N) % N == (R + 1) % N && t != R + 1 - N;
    AbsOf(t, R + 1);
    StringStays(buf, buf', R, t);
  }

  /** The oldest string stands for itself, and for blank strings before the text: none of them is kept any more. */
  lemma OldestIsGone(buf: seq<byte>, buf': seq<byte>, live: set<int>, R: int, t: int, x: int)
    requires |buf| == |buf'| == TEXT && N - F <= R && LiveWindow(live, R) && x in live && 0 <= x < N
    requires WindowStart(R + 1) <= t <= R && Kept(buf', R + 1, t)
    requires t < N - F ==> (BlankAt(buf', t) <==> BlankAt(buf, t))
    requires t <= Abs(x, R) || (t < N - F && BlankAt(buf, t))
    ensures x != (R + F) % N
  {
    AbsOf(R + F - N, R);
    assert (R + F - N) % N == (R + F) % N;
  }

  // ---------- the strings before the text ----------

  /** While the strings at first, first + 1, ... before the text are registered. */
  ghost predicate Spaced(buf: seq<byte>, live: set<int>, first: int)
    requires |buf| == TEXT && N - 2 * F <= first
  {
    && (forall x {:trigger x in live} :: x in live ==> first <= x < N - F && (BlankAt(buf, x) ==> x == first))
    && (forall t {:trigger Stands(buf, live, N - F, t)} :: first <= t < N - F ==> Stands(buf, live, N - F, t))
  }

  lemma SpacedIsIndexed(buf: seq<byte>, live: set<int>)
    requires |buf| == TEXT && Spaced(buf, live, N - 2 * F)
    ensures Indexed(buf, live, N - F, N - F)
  {
    forall x | x in live && N - 2 * F < Abs(x, N - F) < N - F ensures !BlankAt(buf, x) {
      AbsOf(x, N - F);
    }
  }

  /** A string of spaces only is found again wherever it has been registered. */
  lemma SpaceTakes(buf: seq<byte>, live: set<int>, live': set<int>, r: int, pos: int, len: int)
    requires |buf| == TEXT && N - 2 * F <= r < N - F && Spaced(buf, live, r + 1)
    requires forall k {:trigger buf[k]} :: 0 <= k < N - F ==> buf[k] == 32
    requires IsLongestMatch(buf, live, r, pos, len)
    requires live' == live - (if len == F then {pos} else {}) + {r}
    ensures Spaced(buf, live', r)
  {
    forall x | x in live' ensures r <= x < N - F && (BlankAt(buf, x) ==> x == r) {
      if x in live && BlankAt(buf, x) {
        BlankGoesOn(buf, r);
        SameBlanks(buf, r, x);
        SharedAll(buf, r, x);
        assert Shared(buf, r, x) <= len;
        SharedAll(buf, r, pos);
        SameBlank(buf, r, pos);
      }
    }
    forall t {:trigger Stands(buf, live', N - F, t)} | r <= t < N - F ensures Stands(buf, live', N - F, t) {
      SpaceStands(buf, live, live', r, pos, len, t);
    }
  }

  lemma SpaceStands(buf: seq<byte>, live: set<int>, live': set<int>, r: int, pos: int, len: int, t: int)
    requires |buf| == TEXT && N - 2 * F <= r <= t < N - F && Spaced(buf, live, r + 1)
    requires forall k {:trigger buf[k]} :: 0 <= k < N - F ==> buf[k] == 32
    requires IsLongestMatch(buf, live, r, pos, len)
    requires live' == live - (if len == F then {pos} else {}) + {r}
    ensures Stands(buf, live', N - F, t)
  {
    AbsOf(r, N - F);
    if t == r {
      assert StandsFor(buf, N - F, t, r);
    } else {
      assert Stands(buf, live, N - F, t);
      var x :| x in live && StandsFor(buf, N - F, t, x);
      if x !in live' {
        assert x == pos && len == F;
        SpaceReplaces(buf, r, t, x);
      }
    }
  }

  lemma SpaceReplaces(buf: seq<byte>, r: int, t: int, x: int)
    requires |buf| == TEXT && N - 2 * F <= r < t < N - F && StandsFor(buf, N - F, t, x) && Shared(buf, r, x) == F
    requires forall k {:trigger buf[k]} :: 0 <= k < N - F ==> buf[k] == 32
    ensures StandsFor(buf, N - F, t, r)
  {
    SharedAll(buf, r, x);
    assert t % N == t;
    RepeatedIsBlank(buf, r, t);
  }

  lemma BlankGoesOn(buf: seq<byte>, r: int)
    requires |buf| == TEXT && 0 <= r < N - 1 && buf[r] == 32 && BlankAt(buf, r + 1)
    ensures BlankAt(buf, r)
  {}

  lemma SameBlanks(buf: seq<byte>, x: int, y: int)
    requires |buf| == TEXT && 0 <= x < N && 0 <= y < N && BlankAt(buf, x) && BlankAt(buf, y)
    ensures StringAt(buf, x) == StringAt(buf, y)
  {}

  lemma SameBlank(buf: seq<byte>, x: int, y: int)
    requires |buf| == TEXT && 0 <= x < N && 0 <= y < N && BlankAt(buf, x) && StringAt(buf, x) == StringAt(buf, y)
    ensures BlankAt(buf, y)
  {
    forall k | y <= k < y + F ensures buf[k] == 32 {
      assert StringAt(buf, y)[k - y] == StringAt(buf, x)[k - y];
    }
  }

  /** A string that repeats one before the text, starting within the spaces, is blank. */
  lemma RepeatedIsBlank(buf: seq<byte>, r: int, t: int)
    requires |buf| == TEXT && 0 <= r < t < N - F && StringAt(buf, r) == StringAt(buf, t)
    requires forall k {:trigger buf[k]} :: 0 <= k < N - F ==> buf[k] == 32
    ensures BlankAt(buf, t)
  {
    forall k | t <= k < t + F ensures buf[k] == 32 {
      RepeatedSpace(buf, r, t, k - t);
    }
  }

  lemma {:induction false} RepeatedSpace(buf: seq<byte>, r: int, t: int, k: nat)
    requires |buf| == TEXT && 0 <= r < t < N - F && StringAt(buf, r) == StringAt(buf, t) && k < F
    requires forall k {:trigger buf[k]} :: 0 <= k < N - F ==> buf[k] == 32
    ensures buf[t + k] == 32
  {
    assert buf[t + k] == StringAt(buf, t)[k] == StringAt(buf, r)[k] == buf[r + k];
    if t <= r + k {
      RepeatedSpace(buf, r, t, r + k - t);
    }
  }
}
