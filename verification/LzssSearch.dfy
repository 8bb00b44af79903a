/** Facts about walking down a search tree with a new string, stated on the links and on the text. */
module LzssSearch {
  import opened LzssTree
  import opened Bytes
  import opened LzssStrings

  function StringAt(text: seq<byte>, x: int): (s: seq<byte>)
    requires |text| == TEXT && 0 <= x < N
    ensures |s| == F
  {
    text[x..x + F]
  }

  /** How many leading bytes, at most F, the strings at x and y have in common. */
  function Shared(text: seq<byte>, x: int, y: int): nat
    requires |text| == TEXT && 0 <= x < N && 0 <= y < N
  {
    CommonPrefix(StringAt(text, x), StringAt(text, y))
  }

  ghost function Keys(text: seq<byte>): (k: seq<int>)
    requires |text| == TEXT
    ensures |k| == N && forall x {:trigger k[x]} :: 0 <= x < N ==> k[x] == Value(StringAt(text, x))
  {
    seq(N, x requires 0 <= x < N => Value(StringAt(text, x)))
  }

  ghost function Homes(text: seq<byte>): (h: seq<int>)
    requires |text| == TEXT
    ensures |h| == N && forall x {:trigger h[x]} :: 0 <= x < N ==> h[x] == N + 1 + text[x]
  {
    seq(N, x requires 0 <= x < N => N + 1 + text[x])
  }

  ghost predicate TextTree(t: Links, sub: seq<set<int>>, text: seq<byte>) {
    |text| == TEXT && Tree(t, sub, Keys(text), Homes(text))
  }

  ghost function LiveSet(sub: seq<set<int>>): set<int>
    requires |sub| == N + 257
  {
    set x | 0 <= x < N && x in sub[x]
  }

  /** No live string shares more than length bytes with the one at r, and the one at position shares that many. */
  ghost predicate IsLongestMatch(text: seq<byte>, live: set<int>, r: int, position: int, length: int)
    requires |text| == TEXT && 0 <= r < N
  {
    && 0 <= length <= F
    && (forall y {:trigger y in live} :: y in live && 0 <= y < N ==> Shared(text, r, y) <= length)
    && (length > 0 ==> position in live && 0 <= position < N && Shared(text, r, position) == length)
  }

  /** The walk for r stands at p and is to go right (cmp >= 0) or left. */
  ghost predicate Walking(sub: seq<set<int>>, text: seq<byte>, r: int, p: int, cmp: int)
    requires |text| == TEXT && |sub| == N + 257
  {
    && 0 <= r < N && 0 <= p < N + 257 && p != NIL
    && OnPath(sub, Keys(text), Homes(text), r, p)
    && (p > N ==> cmp >= 0)
    && (p < N && cmp >= 0 ==> Keys(text)[p] < Keys(text)[r])
    && (p < N && cmp < 0 ==> Keys(text)[r] < Keys(text)[p])
  }

  function Next(t: Links, p: int, cmp: int): int
    requires |t.lc| == N + 1 && |t.rc| == N + 257 && 0 <= p < N + 257 && (p > N ==> cmp >= 0)
  {
    if cmp >= 0 then t.rc[p] else t.lc[p]
  }

  /** Everything outside the subtree still to be searched shares at most m bytes with r. */
  ghost predicate Searched(sub: seq<set<int>>, text: seq<byte>, r: int, c: int, m: int)
    requires |text| == TEXT && |sub| == N + 257 && 0 <= r < N && 0 <= c < N + 257
  {
    forall y {:trigger y in sub[y]} :: Live(sub, y) && y !in sub[c] ==> Shared(text, r, y) <= m
  }

  lemma StartAtRoot(t: Links, sub: seq<set<int>>, text: seq<byte>, r: int)
    requires TextTree(t, sub, text) && 0 <= r < N
    ensures Walking(sub, text, r, N + 1 + text[r], 1)
    ensures Searched(sub, text, r, t.rc[N + 1 + text[r]], 0)
  {
    var root := N + 1 + text[r];
    assert Homes(text)[r] == root;
    forall y | Live(sub, y) && y !in sub[t.rc[root]] ensures Shared(text, r, y) == 0 {
      assert y !in sub[root];
      assert y in sub[Homes(text)[y]];
      assert StringAt(text, y)[0] == text[y] && StringAt(text, r)[0] == text[r];
    }
  }

  lemma ChildIsBelow(t: Links, sub: seq<set<int>>, text: seq<byte>, r: int, p: int, cmp: int)
    requires TextTree(t, sub, text) && Walking(sub, text, r, p, cmp) && Next(t, p, cmp) != NIL
    ensures var q := Next(t, p, cmp);
            Live(sub, q) && text[q] == text[r] && t.par[q] == p && q != p && Homes(text)[q] == Homes(text)[r]
    ensures var q := Next(t, p, cmp); p < N ==> (Keys(text)[q] < Keys(text)[p] <==> cmp < 0)
  {
    var q := Next(t, p, cmp);
    assert q in sub[q];
    assert p > N ==> q in sub[p];
    assert Homes(text)[r] > N;
  }

  /** A child of a node on the path is on the path. */
  lemma PathDescends(t: Links, sub: seq<set<int>>, text: seq<byte>, r: int, p: int, cmp: int)
    requires TextTree(t, sub, text) && Walking(sub, text, r, p, cmp) && Next(t, p, cmp) != NIL
    ensures OnPath(sub, Keys(text), Homes(text), r, Next(t, p, cmp))
  {
    var q := Next(t, p, cmp);
    ChildIsBelow(t, sub, text, r, p, cmp);
    forall z | Live(sub, z) && q in sub[z] && z != q
      ensures Keys(text)[r] != Keys(text)[z] && (Keys(text)[r] < Keys(text)[z] <==> Keys(text)[q] < Keys(text)[z])
    {
      assert t.par[q] in sub[z];
      if z != p {
        assert p in sub[z];
        SameSide(t, sub, text, z, p, q);
      }
    }
  }

  lemma SameSide(t: Links, sub: seq<set<int>>, text: seq<byte>, z: int, p: int, q: int)
    requires TextTree(t, sub, text) && Live(sub, z) && Live(sub, q) && 0 <= p < N
    requires q in sub[z] && p in sub[z] && z != p && z != q && t.par[q] == p
    ensures Keys(text)[q] < Keys(text)[z] <==> Keys(text)[p] < Keys(text)[z]
  {
    var k := Keys(text);
    assert t.lc[z] != NIL ==> t.par[t.lc[z]] == z;
    assert t.rc[z] != NIL ==> t.par[t.rc[z]] == z;
    if k[q] < k[z] {
      assert q in sub[t.lc[z]];
      assert t.par[q] in sub[t.lc[z]];
    } else {
      assert q in sub[t.rc[z]];
      assert t.par[q] in sub[t.rc[z]];
    }
  }

  /** After the comparison with q the other side of q, and q itself, need no search. */
  lemma ComparisonPrunes(t: Links, sub: seq<set<int>>, text: seq<byte>, r: int, q: int, cmp: int, m: int)
    requires TextTree(t, sub, text) && Walking(sub, text, r, q, cmp) && q < N
    requires Searched(sub, text, r, q, m) && Shared(text, r, q) <= m
    ensures 0 <= Next(t, q, cmp) <= N && Searched(sub, text, r, Next(t, q, cmp), m)
  {
    var c := Next(t, q, cmp);
    forall y | Live(sub, y) && y !in sub[c] ensures Shared(text, r, y) <= m {
      if y in sub[q] && y != q {
        assert Keys(text)[y] != Keys(text)[q];
        BetweenSharesMore(StringAt(text, y), StringAt(text, q), StringAt(text, r));
      }
    }
  }

  lemma SubtreeShrinks(t: Links, sub: seq<set<int>>, text: seq<byte>, q: int, c: int)
    requires TextTree(t, sub, text) && Live(sub, q) && (c == t.lc[q] || c == t.rc[q])
    ensures 0 <= c <= N && |sub[c]| < |sub[q]|
  {
    assert q !in sub[c] && q in sub[q];
    assert forall x :: x in sub[c] ==> x in sub[q];
    SubsetSmaller(sub[c], sub[q], q);
  }

  /** One round of the walk: from p down to its child q, and a comparison there. */
  lemma WalkDown(t: Links, sub: seq<set<int>>, text: seq<byte>, r: int, p: int, cmp: int, q: int, cmp': int, m: int,
                 m': int)
    requires TextTree(t, sub, text) && Walking(sub, text, r, p, cmp) && q == Next(t, p, cmp) && q != NIL
    requires Searched(sub, text, r, q, m) && m <= m' && Shared(text, r, q) <= m'
    requires if cmp' >= 0 then Keys(text)[q] < Keys(text)[r] else Keys(text)[r] < Keys(text)[q]
    ensures Walking(sub, text, r, q, cmp')
    ensures Searched(sub, text, r, Next(t, q, cmp'), m')
    ensures |sub[Next(t, q, cmp')]| < |sub[q]|
  {
    ChildIsBelow(t, sub, text, r, p, cmp);
    PathDescends(t, sub, text, r, p, cmp);
    ComparisonPrunes(t, sub, text, r, q, cmp', m');
    SubtreeShrinks(t, sub, text, q, Next(t, q, cmp'));
  }

  lemma SearchedAll(sub: seq<set<int>>, text: seq<byte>, r: int, c: int, position: int, m: int)
    requires |text| == TEXT && |sub| == N + 257 && 0 <= r < N && 0 <= c < N + 257 && 0 <= m <= F
    requires m == F || (Searched(sub, text, r, c, m) && sub[c] == {})
    requires m > 0 ==> position in LiveSet(sub) && Shared(text, r, position) == m
    ensures IsLongestMatch(text, LiveSet(sub), r, position, m)
  {
    forall y | y in LiveSet(sub) && 0 <= y < N ensures Shared(text, r, y) <= m {
      assert m == F || y in sub[y];
    }
  }

  /** A full match is the same string: r's node can take the place of p's. */
  lemma SameString(t: Links, sub: seq<set<int>>, text: seq<byte>, r: int, p: int)
    requires TextTree(t, sub, text) && 0 <= r < N && Live(sub, p) && !Live(sub, r)
    requires Shared(text, r, p) == F
    ensures r != p && Fits(sub, Keys(text), Homes(text), p, r)
    ensures 0 <= t.par[p] < N + 257 && 0 <= t.lc[p] <= N && 0 <= t.rc[p] <= N
    ensures t.lc[p] != p && t.rc[p] != p && t.par[p] != r
    ensures t.rc[t.par[p]] != p ==> t.par[p] < N + 1
  {
    var a, b := StringAt(text, r), StringAt(text, p);
    assert a == a[..F] && b == b[..F];
    assert a[0] == text[r] && b[0] == text[p];
    assert Keys(text)[r] == Keys(text)[p] && Homes(text)[r] == Homes(text)[p];
    assert p in sub[p] && p !in sub[t.lc[p]] && p !in sub[t.rc[p]];
  }
}
