/**
  The greedy law of compress_lzss, on the text alone: each unit stands for the longest match with an earlier string of
  the window, and is a literal if that does not pay.
 */
module LzssGreedy {
  import opened LzssTree
  import opened Bytes
  import opened LzssStrings
  import opened LzssSearch
  import opened LzssFormat
  import opened LzssWindow
  import opened LzssIndex

  ghost predicate IsBlank(text: seq<byte>, t: int) {
    0 <= t && forall k {:trigger text[k]} :: t <= k < t + F && k < |text| ==> text[k] == 32
  }

  /**
    The text positions a match may start from: those less than N - F back and no further than F before the text. Of
    strings before the text that are all spaces only the first is found; behind it they are not.
   */
  ghost predicate Candidate(text: seq<byte>, R: int, t: int) {
    WindowStart(R) <= t < R && !(t < N - F && N - 2 * F < R + F - N && IsBlank(text, t))
  }

  /** The m bytes at R are those at t; the two may overlap. */
  predicate Agrees(text: seq<byte>, t: int, R: int, m: int) {
    0 <= t < R && 0 <= m && R + m <= |text| && text[t..t + m] == text[R..R + m]
  }

  /** The longest match at R has L bytes. */
  ghost predicate IsLongest(text: seq<byte>, R: int, L: int) {
    && 0 <= L <= F
    && (L > 0 ==> exists t {:trigger Candidate(text, R, t)} :: Candidate(text, R, t) && Agrees(text, t, R, L))
    && forall t, m {:trigger Agrees(text, t, R, m)} ::
         Candidate(text, R, t) && Agrees(text, t, R, m) && m <= F ==> m <= L
  }

  /** The unit at R is the longest match, in one of the places it is found in, or a literal. */
  ghost predicate Greedy(u: Unit, text: seq<byte>, R: int) {
    0 <= R < |text| && exists L {:trigger IsLongest(text, R, L)} :: IsLongest(text, R, L) && Chosen(u, text, R, L)
  }

  ghost predicate Chosen(u: Unit, text: seq<byte>, R: int, L: int)
    requires 0 <= R < |text|
  {
    if L > THRESHOLD then
      && u.Reference? && u.len == L
      && exists t {:trigger Candidate(text, R, t)} :: Candidate(text, R, t) && Agrees(text, t, R, L) && u.pos == t % N
    else u == Literal(text[R])
  }

  function Size(u: Unit): int {
    if u.Literal? then 1 else u.len
  }

  /** The units, one behind the other from the start of the text proper, end at R, and each is greedy. */
  ghost predicate AreGreedy(us: seq<Unit>, text: seq<byte>, R: int) {
    if us == [] then R == N - F
    else
      var front, u := us[..|us| - 1], us[|us| - 1];
      AreGreedy(front, text, R - Size(u)) && Greedy(u, text, R - Size(u))
  }

  lemma GreedyAppend(us: seq<Unit>, u: Unit, text: seq<byte>, R: int)
    requires AreGreedy(us, text, R) && Greedy(u, text, R)
    ensures AreGreedy(us + [u], text, R + Size(u))
  {
    assert (us + [u])[..|us|] == us;
  }

  // ---------- the law determines the units but for where a match is taken from ----------

  lemma LongestIsUnique(text: seq<byte>, R: int, L: int, L': int)
    requires IsLongest(text, R, L) && IsLongest(text, R, L')
    ensures L == L'
  {
    if L > 0 {
      var t :| Candidate(text, R, t) && Agrees(text, t, R, L);
    }
    if L' > 0 {
      var t :| Candidate(text, R, t) && Agrees(text, t, R, L');
    }
  }

  predicate SameShape(u: Unit, u': Unit) {
    if u.Literal? then u' == u else u'.Reference? && u'.len == u.len
  }

  lemma GreedyIsUnique(u: Unit, u': Unit, text: seq<byte>, R: int)
    requires Greedy(u, text, R) && Greedy(u', text, R)
    ensures SameShape(u, u')
  {
    var L :| IsLongest(text, R, L) && Chosen(u, text, R, L);
    var L' :| IsLongest(text, R, L') && Chosen(u', text, R, L');
    LongestIsUnique(text, R, L, L');
  }

  /** Two greedy lists for one text have the same lengths, and so the same size, as far as both go. */
  lemma {:induction false} GreedyIsDetermined(us: seq<Unit>, us': seq<Unit>, text: seq<byte>, R: int, R': int)
    requires AreGreedy(us, text, R) && AreGreedy(us', text, R') && |us| == |us'|
    ensures R == R' && forall i {:trigger us[i]} {:trigger us'[i]} :: 0 <= i < |us| ==> SameShape(us[i], us'[i])
    decreases |us|
  {
    if us != [] {
      var n := |us| - 1;
      GreedyIsDetermined(us[..n], us'[..n], text, R - Size(us[n]), R' - Size(us'[n]));
      GreedyIsUnique(us[n], us'[n], text, R - Size(us[n]));
      forall i | 0 <= i < n ensures SameShape(us[i], us'[i]) {
        assert us[..n][i] == us[i] && us'[..n][i] == us'[i];
      }
    }
  }

  // ---------- the encoder's match is the longest ----------

  lemma SharedAtLeast(buf: seq<byte>, x: int, y: int, m: int)
    requires |buf| == TEXT && 0 <= x < N && 0 <= y < N && 0 <= m <= F
    requires StringAt(buf, x)[..m] == StringAt(buf, y)[..m]
    ensures Shared(buf, x, y) >= m
  {
    PrefixAgrees(StringAt(buf, x), StringAt(buf, y), m);
  }

  lemma CandidateIsKept(buf: seq<byte>, text: seq<byte>, R: int, hi: int, t: int)
    requires BufferHolds(buf, text, R, hi) && N - F <= R && t < R && WindowStart(R) <= t
    requires hi == |text| || hi == R + F
    ensures Kept(buf, R, t) <==> Candidate(text, R, t)
  {
    if t < N - F && N - 2 * F < R + F - N {
      forall k | t <= k < t + F ensures k < hi && buf[k] == text[k] {
        DirectRead(buf, text, R, hi, t, k - t);
      }
    }
  }

  lemma LongerIsFound(buf: seq<byte>, text: seq<byte>, R: int, hi: int, pos: int, len: int, t: int, m: int)
    requires BufferHolds(buf, text, R, hi) && BestMatch(buf, R, pos, len) && N - F <= R
    requires hi == |text| || hi == R + F
    requires Candidate(text, R, t) && Agrees(text, t, R, m) && m <= F
    ensures m <= len && R + m <= hi
  {
    CandidateIsKept(buf, text, R, hi, t);
    var a, b := StringAt(buf, R % N), StringAt(buf, t % N);
    forall k | 0 <= k < m ensures a[k] == b[k] {
      DirectRead(buf, text, R, hi, t, k);
      DirectRead(buf, text, R, hi, R, k);
      assert text[t..t + m][k] == text[R..R + m][k];
    }
    assert a[..m] == b[..m];
    SharedAtLeast(buf, R % N, t % N, m);
  }

  lemma FoundAgrees(buf: seq<byte>, text: seq<byte>, R: int, hi: int, pos: int, len: int, m: int)
    requires BufferHolds(buf, text, R, hi) && MatchFacts(buf, R, pos, len) && 0 < m <= len && R + m <= hi
    ensures Agrees(text, Abs(pos, R), R, m) && Abs(pos, R) % N == pos
  {
    var t := Abs(pos, R);
    forall j | t <= j < t + m ensures text[j] == text[j - t + R] {
      MatchedByte(buf, text, R, hi, pos, len, j - t);
    }
    assert text[t..t + m] == text[R..R + m];
  }

  function Least(a: int, b: int): int {
    if a < b then a else b
  }

  lemma BestIsLongest(buf: seq<byte>, text: seq<byte>, R: int, hi: int, pos: int, len: int)
    requires BufferHolds(buf, text, R, hi) && BestMatch(buf, R, pos, len) && N - F <= R < hi
    requires hi == |text| || hi == R + F
    ensures var L := Least(len, hi - R);
            && IsLongest(text, R, L)
            && (L > 0 ==> Candidate(text, R, Abs(pos, R)) && Agrees(text, Abs(pos, R), R, L) && pos == Abs(pos, R) % N)
  {
    var L := Least(len, hi - R);
    if L > 0 {
      FoundAgrees(buf, text, R, hi, pos, len, L);
      CandidateIsKept(buf, text, R, hi, Abs(pos, R));
    }
    forall t, m | Candidate(text, R, t) && Agrees(text, t, R, m) && m <= F ensures m <= L {
      LongerIsFound(buf, text, R, hi, pos, len, t, m);
    }
  }

  /** What is sent for the match found, cut to the rest of the text. */
  function Sent(text: seq<byte>, R: int, pos: int, L: int): Unit
    requires 0 <= R < |text|
  {
    if L > THRESHOLD then Reference(pos, L) else Literal(text[R])
  }

  lemma SentIsGreedy(buf: seq<byte>, text: seq<byte>, R: int, hi: int, pos: int, len: int)
    requires BufferHolds(buf, text, R, hi) && BestMatch(buf, R, pos, len) && N - F <= R < hi
    requires hi == |text| || hi == R + F
    ensures Greedy(Sent(text, R, pos, Least(len, hi - R)), text, R)
  {
    BestIsLongest(buf, text, R, hi, pos, len);
  }

  // ---------- blank strings before the text ----------

  /** Spaces, a filler without any, and spaces again just when the first blank string has left the window. */
  function BlankEnds(): (text: seq<byte>)
    ensures |text| == 2 * N - 2 * F + 1
    ensures forall k {:trigger text[k]} :: 0 <= k < |text| ==>
              text[k] == if N - 1 <= k < 2 * N - 3 * F + 1 then 97 else 32
  {
    seq(2 * N - 2 * F + 1, k => if N - 1 <= k < 2 * N - 3 * F + 1 then 97 else 32)
  }

  lemma BeginningIsBlank(t: int)
    requires 0 <= t < N - F
    ensures IsBlank(BlankEnds(), t)
  {}

  /** What can be found has a byte of the filler in it. */
  lemma NoFullMatch(t: int)
    requires Candidate(BlankEnds(), 2 * N - 3 * F + 1, t)
    ensures !Agrees(BlankEnds(), t, 2 * N - 3 * F + 1, F)
  {
    var text, R := BlankEnds(), 2 * N - 3 * F + 1;
    if t < N - F {
      BeginningIsBlank(t);
    } else {
      var k := if t < N - 1 then N - 1 else t;
      assert text[k] != text[R + (k - t)];
      assert text[t..t + F][k - t] == text[k] && text[R..R + F][k - t] == text[R + (k - t)];
    }
  }

  /** A full match starts right before the text, within reach, but the longest that is found is one shorter. */
  lemma BlankStringIsMissed()
    ensures var text, R := BlankEnds(), 2 * N - 3 * F + 1;
            && text[..N - F] == Spaces() && WindowStart(R) <= N - F - 1 && Agrees(text, N - F - 1, R, F)
            && IsLongest(text, R, F - 1)
  {
    var text, R := BlankEnds(), 2 * N - 3 * F + 1;
    assert text[N - F - 1..N - 1] == text[R..R + F];
    assert Candidate(text, R, N - F) && text[N - F..N - 1] == text[R..R + F - 1];
    forall t, m | Candidate(text, R, t) && Agrees(text, t, R, m) && m <= F ensures m <= F - 1 {
      NoFullMatch(t);
    }
  }
}
