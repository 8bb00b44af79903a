/**
  The encoder's window over the text. Text positions are absolute: the text is N - F spaces followed
  by the source, and position t lives at ring index t % N. The scan is at position R; bytes up to hi
  have been read; the ring still holds what lies from R + F - N on.
 */
module LzssWindow {
  import opened LzssTree
  import opened Bytes
  import opened LzssStrings
  import opened LzssSearch
  import opened LzssFormat

  /** The latest text position, at most R, that lives at ring index x. */
  function Abs(x: int, R: int): (t: int)
    ensures R - N < t <= R
    ensures 0 <= x < N ==> t % N == x
  {
    R - (R - x) % N
  }

  /** The ring, and its mirrored first F - 1 bytes, hold the text from R + F - N to hi. */
  ghost predicate BufferHolds(buf: seq<byte>, text: seq<byte>, R: int, hi: int) {
    && |buf| == TEXT && 0 <= R <= hi <= |text|
    && (forall t {:trigger text[t]} :: 0 <= t && R + F - N <= t < hi ==>
          buf[t % N] == text[t] && (t >= N && t % N < F - 1 ==> buf[t % N + N] == text[t]))
  }

  /** Live nodes stand for text positions inside the window, no earlier than the F spaces before the text. */
  ghost predicate LiveWindow(live: set<int>, R: int) {
    forall x {:trigger x in live} :: x in live ==> 0 <= x < N && R + F - N <= Abs(x, R) && N - 2 * F <= Abs(x, R)
  }

  /** A recorded match starts in the window before R and agrees with the text at R. */
  ghost predicate MatchFacts(buf: seq<byte>, R: int, pos: int, len: int) {
    && |buf| == TEXT && 0 <= len <= F
    && (len > 0 ==> 0 <= pos < N && R + F - N <= Abs(pos, R) < R && N - 2 * F <= Abs(pos, R)
                    && Shared(buf, R % N, pos) == len)
  }

  /** Reading on from a ring index without wrapping around sees the text, thanks to the mirrored bytes. */
  lemma DirectRead(buf: seq<byte>, text: seq<byte>, R: int, hi: int, t: int, k: int)
    requires BufferHolds(buf, text, R, hi)
    requires 0 <= t && R + F - N <= t && 0 <= k < F && t + k < hi
    ensures t % N + k < TEXT && buf[t % N + k] == text[t + k]
  {
    var x := text[t + k];
    assert (t + k) % N == if t % N + k < N then t % N + k else t % N + k - N;
  }

  /** The ring of the decoder, after the text up to h, still holds position a. */
  lemma RingHoldsPosition(junk: seq<byte>, text: seq<byte>, h: int, a: int)
    requires |junk| == N && 0 <= a < h <= |text| && h - N <= a
    ensures RingAt(junk, text[..h], a % N) == text[a]
  {
    assert (a % N - h) % N == a - (h - N);
  }

  lemma MatchedByte(buf: seq<byte>, text: seq<byte>, R: int, hi: int, pos: int, len: int, k: int)
    requires BufferHolds(buf, text, R, hi) && MatchFacts(buf, R, pos, len)
    requires 0 <= k < len && R + k < hi
    ensures text[Abs(pos, R) + k] == text[R + k]
  {
    var t := Abs(pos, R);
    DirectRead(buf, text, R, hi, t, k);
    DirectRead(buf, text, R, hi, R, k);
    var a, b := StringAt(buf, R % N), StringAt(buf, pos);
    PrefixAgrees(a, b, len);
    assert a[k] == buf[R % N + k] && b[k] == buf[pos + k];
  }

  /** Decoding a match yields the text. */
  lemma MatchDecodes(junk: seq<byte>, buf: seq<byte>, text: seq<byte>, R: int, hi: int, pos: int, len: int, m: nat)
    requires |junk| == N && BufferHolds(buf, text, R, hi) && MatchFacts(buf, R, pos, len)
    requires 0 < m <= len && R + m <= hi
    ensures CopyFrom(junk, text[..R], pos, m) == text[..R + m]
  {
    var t := Abs(pos, R);
    forall a, b | t <= a < t + m && R <= b < R + m && b - R == a - t ensures text[a] == text[b] {
      MatchedByte(buf, text, R, hi, pos, len, a - t);
    }
    CopyRepeatsText(junk, text, R, t, m);
  }

  /** Copying from t when the text at R repeats the text at t; the two may overlap. */
  lemma {:induction false} CopyRepeatsText(junk: seq<byte>, text: seq<byte>, R: int, t: int, m: nat)
    requires |junk| == N && 0 <= t < R && R - N <= t && R + m <= |text|
    requires forall a, b :: t <= a < t + m && R <= b < R + m && b - R == a - t ==> text[a] == text[b]
    ensures CopyFrom(junk, text[..R], t % N, m) == text[..R + m]
    decreases m
  {
    if m > 0 {
      DecodeOneByte(junk, text, R, t, t % N, m);
      CopyRepeatsText(junk, text, R + 1, t + 1, m - 1);
      NextIndex(t);
    }
  }

  lemma NextIndex(t: int)
    ensures (t % N + 1) % N == (t + 1) % N
  {}

  lemma DecodeOneByte(junk: seq<byte>, text: seq<byte>, h: int, a: int, x: int, len: nat)
    requires |junk| == N && 0 <= a < h < |text| && h - N <= a && x == a % N && len > 0
    requires text[a] == text[h]
    ensures CopyFrom(junk, text[..h], x, len) == CopyFrom(junk, text[..h + 1], (x + 1) % N, len - 1)
  {
    RingHoldsPosition(junk, text, h, a);
    assert text[..h] + [text[h]] == text[..h + 1];
  }

  /** The ring slot about to be written belongs to no live string. */
  lemma WriteMissesLiveStrings(live: set<int>, R: int, x: int, k: int)
    requires LiveWindow(live, R) && (R + F) % N !in live && x in live && 0 <= k < F
    ensures x + k != (R + F) % N && x + k != (R + F) % N + N
  {
    var t, s := Abs(x, R), R + F;
    assert t % N == x && (s - N) % N == s % N && s % N != x;
    assert s - N < t;
    CloseMeansDistinct(t + k, s);
    ShiftMod(t, k);
    assert (s % N) % N == s % N && (s % N + N) % N == s % N;
  }

  lemma ShiftMod(t: int, k: int)
    ensures (t % N + k) % N == (t + k) % N
  {}

  lemma CloseMeansDistinct(a: int, b: int)
    requires b - N < a < b
    ensures a % N != b % N
  {}

  /** Changing bytes outside all live strings leaves the trees in order. */
  lemma TextChangeKeepsTree(t: Links, sub: seq<set<int>>, text: seq<byte>, text': seq<byte>)
    requires TextTree(t, sub, text) && |text'| == TEXT
    requires forall x {:trigger x in sub[x]} :: Live(sub, x) ==> StringAt(text', x) == StringAt(text, x)
    ensures TextTree(t, sub, text')
  {
    var k, k', h, h' := Keys(text), Keys(text'), Homes(text), Homes(text');
    forall x | Live(sub, x) ensures k'[x] == k[x] && h'[x] == h[x] {
      assert StringAt(text, x)[0] == text[x] && StringAt(text', x)[0] == text'[x];
    }
    SameKeysSameTree(t, sub, k, h, k', h');
  }

  lemma SameKeysSameTree(t: Links, sub: seq<set<int>>, k: seq<int>, h: seq<int>, k': seq<int>, h': seq<int>)
    requires Tree(t, sub, k, h) && Sized(t, sub, k', h')
    requires forall x {:trigger k'[x]} {:trigger h'[x]} :: Live(sub, x) ==> k'[x] == k[x] && h'[x] == h[x]
    ensures Tree(t, sub, k', h')
  {}
}
