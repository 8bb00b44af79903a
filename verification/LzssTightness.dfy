/**
  The bound on the packed size is reached: for every length there is a source of which no three bytes in a row
  occur earlier within a ring's length, so that every unit of it is a literal.
 */
module LzssTightness {
  import opened LzssTree
  import opened LzssStrings
  import opened Bytes
  import opened LzssFormat
  import opened LzssCodeBuffer
  import opened LzssMeaning

  // ---------- a reference repeats the text ----------

  /** The three bytes at R stand at a as well. */
  predicate Repeats(text: seq<byte>, a: int, R: int) {
    0 <= a < R && R + 3 <= |text| && text[a] == text[R] && text[a + 1] == text[R + 1] && text[a + 2] == text[R + 2]
  }

  /** Where the ring byte read for a reference to position x stands in the history. */
  function Source(n: int, x: int): int {
    n - N + (x - n) % N
  }

  lemma SourceMoves(n: int, x: int)
    requires 0 <= x < N
    ensures Source(n + 1, (x + 1) % N) == Source(n, x) + 1
  {
    var a := Source(n, x);
    assert (a + 1 - ((x + 1) % N)) % N == 0 by {
      assert (a - x) % N == 0;
    }
    assert n + 1 - N <= a + 1 < n + 1;
  }

  /** The first byte copied, and what is left to copy. */
  lemma CopyStep(junk: seq<byte>, text: seq<byte>, R: int, x: int, len: nat)
    requires |junk| == N && 0 <= x < N && len > 0 && 0 <= R <= |text| && CopyFrom(junk, text[..R], x, len) <= text
    ensures R < |text| && CopyFrom(junk, text[..R + 1], (x + 1) % N, len - 1) <= text
    ensures Source(R, x) < R && text[R] == if Source(R, x) >= 0 then text[Source(R, x)] else junk[x]
  {
    var h := text[..R];
    var h1 := h + [RingAt(junk, h, x)];
    assert h1 <= CopyFrom(junk, h, x, len) <= text;
    assert h1 == text[..R + 1];
  }

  lemma CopyRepeats(junk: seq<byte>, text: seq<byte>, R: int, x: int, len: nat)
    requires |junk| == N && 0 <= x < N && len >= 3 && 0 <= R <= |text| && CopyFrom(junk, text[..R], x, len) <= text
    ensures if Source(R, x) >= 0 then Repeats(text, Source(R, x), R) else R < |text| && text[R] == junk[x]
  {
    var x1 := (x + 1) % N;
    CopyStep(junk, text, R, x, len);
    CopyStep(junk, text, R + 1, x1, len - 1);
    CopyStep(junk, text, R + 2, (x1 + 1) % N, len - 2);
    SourceMoves(R, x);
    SourceMoves(R + 1, x1);
  }

  /** A reference that leads on repeats three bytes found within a ring's length before. */
  lemma ReferenceRepeats(u: Unit, text: seq<byte>, R: int, E: int) returns (a: int)
    requires Leads(u, text, R, E) && u.Reference?
    ensures R - N <= a && Repeats(text, a, R)
  {
    var zeros: seq<byte>, ones: seq<byte> := seq(N, _ => 0), seq(N, _ => 1);
    assert Apply(zeros, text[..R], u) == text[..E] && Apply(ones, text[..R], u) == text[..E];
    CopyRepeats(zeros, text, R, u.pos, u.len);
    CopyRepeats(ones, text, R, u.pos, u.len);
    a := Source(R, u.pos);
  }

  // ---------- the last unit ----------

  /** What the units stand for has a length that does not depend on the ring. */
  lemma {:induction false} LengthIsFixed(junk: seq<byte>, junk': seq<byte>, h: seq<byte>, h': seq<byte>, us: seq<Unit>)
    requires |junk| == N && |junk'| == N && ValidUnits(us) && |h| == |h'|
    ensures |Expand(junk, h, us)| == |Expand(junk', h', us)|
    decreases us
  {
    if us != [] {
      LengthIsFixed(junk, junk', Apply(junk, h, us[0]), Apply(junk', h', us[0]), us[1..]);
    }
  }

  lemma LastUnit(us: seq<Unit>, text: seq<byte>, E: int) returns (R: int)
    requires Means(us, text, E) && us != []
    ensures N - F <= R < E && Means(us[..|us| - 1], text, R) && Leads(us[|us| - 1], text, R, E)
  {
    var front, u := us[..|us| - 1], us[|us| - 1];
    var zeros: seq<byte> := seq(N, _ => 0);
    R := |Expand(zeros, Spaces(), front)|;
    FrontOf(zeros, zeros, us, text, E);
    forall junk: seq<byte> | |junk| == N
      ensures R < E && Expand(junk, Spaces(), front) == text[..R] && Apply(junk, text[..R], u) == text[..E]
    {
      FrontOf(junk, zeros, us, text, E);
    }
    assert Apply(zeros, text[..R], u) == text[..E];
  }

  lemma FrontOf(junk: seq<byte>, zeros: seq<byte>, us: seq<Unit>, text: seq<byte>, E: int)
    requires |junk| == N && |zeros| == N && Means(us, text, E) && us != []
    ensures var front, u := us[..|us| - 1], us[|us| - 1];
            var R := |Expand(zeros, Spaces(), front)|;
            R < E && Expand(junk, Spaces(), front) == text[..R] && Apply(junk, text[..R], u) == text[..E]
  {
    var front, u := us[..|us| - 1], us[|us| - 1];
    assert us == front + [u];
    ExpandAppend(junk, Spaces(), front, u);
    LengthIsFixed(junk, zeros, Spaces(), Spaces(), front);
    var h := Expand(junk, Spaces(), front);
    assert Expand(junk, Spaces(), us) == text[..E];
    assert h <= Apply(junk, h, u) == text[..E];
    assert h == text[..E][..|h|] == text[..|h|];
  }

  // ---------- the source without repetition ----------

  function WitnessByte(i: nat): byte {
    var q := i / 2 % 4096;
    if i % 2 == 0 then q / 128 else 128 + q % 128
  }

  /** Counts up in two digits, the first below 32 and the second from 128 on. */
  function Witness(n: nat): (w: seq<byte>)
    ensures |w| == n
  {
    seq(n, i requires 0 <= i < n => WitnessByte(i))
  }

  lemma NoRepeatWithin(j: nat, i: nat)
    requires j < i <= j + N
    ensures WitnessByte(j) != WitnessByte(i) || WitnessByte(j + 1) != WitnessByte(i + 1)
            || WitnessByte(j + 2) != WitnessByte(i + 2)
  {
    var p, q := j / 2, i / 2;
    if j % 2 == i % 2 {
      assert 0 < q - p <= 2048;
      DigitsDiffer(p, q);
      DigitsDiffer(p + 1, q + 1);
      assert j % 2 == 0 ==> (j + 1) / 2 == p && (i + 1) / 2 == q;
      assert j % 2 == 1 ==>
             (j + 1) / 2 == p + 1 && (i + 1) / 2 == q + 1 && (j + 2) / 2 == p + 1 && (i + 2) / 2 == q + 1;
    }
  }

  lemma DigitsDiffer(p: nat, q: nat)
    requires 0 < q - p <= 2048
    ensures p % 4096 / 128 != q % 4096 / 128 || p % 4096 % 128 != q % 4096 % 128
  {
    assert p % 4096 != q % 4096;
  }

  lemma WitnessNeverRepeats(n: nat, a: int, R: int)
    requires N - F <= R && R - N <= a
    ensures !Repeats(Spaces() + Witness(n), a, R)
  {
    var text := Spaces() + Witness(n);
    if 0 <= a < R && R + 3 <= |text| {
      var i := R - (N - F);
      assert text[R] == WitnessByte(i) && text[R + 1] == WitnessByte(i + 1) && text[R + 2] == WitnessByte(i + 2);
      if a < N - F {
        assert text[a] == 32;
      } else {
        var j := a - (N - F);
        assert text[a] == WitnessByte(j) && text[a + 1] == WitnessByte(j + 1) && text[a + 2] == WitnessByte(j + 2);
        NoRepeatWithin(j, i);
      }
    }
  }

  /** Whatever stands for a beginning of the witness is all literals. */
  lemma {:induction false} AllLiterals(n: nat, us: seq<Unit>, E: int)
    requires Means(us, Spaces() + Witness(n), E) && E >= N - F
    ensures |us| == |Bodies(us)| == E - (N - F)
    decreases |us|
  {
    var text := Spaces() + Witness(n);
    if us == [] {
      var zeros: seq<byte> := seq(N, _ => 0);
      assert Expand(zeros, Spaces(), us) == text[..E];
    } else {
      var front, u := us[..|us| - 1], us[|us| - 1];
      var R := LastUnit(us, text, E);
      if u.Reference? {
        var a := ReferenceRepeats(u, text, R, E);
        WitnessNeverRepeats(n, a, R);
        assert false;
      }
      AllLiterals(n, front, R);
      var zeros: seq<byte> := seq(N, _ => 0);
      assert Apply(zeros, text[..R], u) == text[..E];
      assert us == front + [u];
      BodiesAppend(front, u);
    }
  }

  /** The packed size of the witness is the bound, whatever units stand for it. */
  lemma BoundIsReached(n: nat, us: seq<Unit>)
    requires Complete(us, Witness(n))
    ensures |Pack(us)| == Bound(n)
  {
    AllLiterals(n, us, N - F + n);
    PackLength(us);
  }

  // ---------- literals stand for any source ----------

  function Literally(src: seq<byte>): seq<Unit> {
    seq(|src|, i requires 0 <= i < |src| => Literal(src[i]))
  }

  lemma {:induction false} LiterallyIsComplete(src: seq<byte>)
    ensures Complete(Literally(src), src)
    decreases |src|
  {
    var text := Spaces() + src;
    if src == [] {
      assert text[..N - F] == Spaces();
    } else {
      var front, b := src[..|src| - 1], src[|src| - 1];
      LiterallyIsComplete(front);
      assert Literally(src) == Literally(front) + [Literal(b)];
      forall junk: seq<byte> | |junk| == N
        ensures Expand(junk, Spaces(), Literally(src)) == text[..N - F + |src|]
      {
        ExpandAppend(junk, Spaces(), Literally(front), Literal(b));
        assert Expand(junk, Spaces(), Literally(front)) == (Spaces() + front)[..N - F + |front|] == Spaces() + front;
        assert text[..N - F + |src|] == text == Spaces() + front + [b];
      }
    }
  }
}
