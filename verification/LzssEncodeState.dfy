/** encode_state: the match finder of the LZSS encoder, with its trees updated in place. */
module LzssEncodeState {
  import opened LzssTree
  import opened Bytes
  import opened LzssStrings
  import opened LzssSearch
  import opened LzssPromotion

  ghost function GrownSubtrees(sub: seq<set<int>>, r: int, p: int): (sub': seq<set<int>>)
    requires |sub| == N + 257 && 0 <= r < N
    ensures Grown(sub, sub', r, p)
  {
    seq(N + 257, z requires 0 <= z < N + 257 => if z == r || z == p || p in sub[z] then sub[z] + {r} else sub[z])
  }

  ghost function ShrunkSubtrees(sub: seq<set<int>>, p: int): (sub': seq<set<int>>)
    requires |sub| == N + 257 && 0 <= p < N
    ensures Shrunk(sub, sub', p)
  {
    seq(N + 257, z requires 0 <= z < N + 257 => if z == p then {} else sub[z] - {p})
  }

  ghost function RenamedSubtrees(sub: seq<set<int>>, p: int, r: int): (sub': seq<set<int>>)
    requires |sub| == N + 257 && 0 <= p < N && 0 <= r < N
    ensures Renamed(sub, sub', p, r)
  {
    seq(N + 257, z requires 0 <= z < N + 257 =>
      if z == p then {}
      else if z == r then (sub[p] - {p}) + {r}
      else if p in sub[z] then (sub[z] - {p}) + {r}
      else sub[z] - {p})
  }

  lemma GrownLive(sub: seq<set<int>>, sub': seq<set<int>>, r: int, p: int)
    requires Grown(sub, sub', r, p)
    requires 0 <= p < N ==> p in sub[p]
    ensures LiveSet(sub') == LiveSet(sub) + {r}
  {}

  lemma RenamedLive(sub: seq<set<int>>, sub': seq<set<int>>, p: int, r: int)
    requires Renamed(sub, sub', p, r) && p in sub[p] && p != r
    ensures LiveSet(sub') == LiveSet(sub) - {p} + {r}
  {}

  lemma ShrunkLive(sub: seq<set<int>>, sub': seq<set<int>>, p: int)
    requires Shrunk(sub, sub', p)
    ensures LiveSet(sub') == LiveSet(sub) - {p}
  {}

  lemma DetachPlaces(t: Links, sub: seq<set<int>>, key: seq<int>, home: seq<int>, p: int, q: int)
    requires Tree(t, sub, key, home) && Live(sub, p)
    requires (t.lc[p] == NIL && q == t.rc[p]) || (t.rc[p] == NIL && q == t.lc[p])
    ensures 0 <= q <= N && q != p && 0 <= t.par[p] < N + 257
    ensures t.rc[t.par[p]] != p ==> t.par[p] < N + 1
  {
    assert p in sub[p] && p !in sub[t.lc[p]] && p !in sub[t.rc[p]];
  }

  ghost function PromotedSubtrees(t: Links, sub: seq<set<int>>, key: seq<int>, home: seq<int>, p: int,
                                  q: int): (sub': seq<set<int>>)
    requires CanPromote(t, sub, key, home, p, q)
    ensures PromotableApart(t, p, q) && Tree(PromotedByCode(t, p, q), sub', key, home)
    ensures LiveSet(sub') == LiveSet(sub) - {p}
  {
    PromotedTree(t, sub, key, home, p, q, ShrunkSubtrees(sub, q));
    PromotedLive(t, sub, key, home, p, q, ShrunkSubtrees(sub, q));
    RenamedSubtrees(ShrunkSubtrees(sub, q), p, q)
  }

  lemma PromotedTree(t: Links, sub: seq<set<int>>, key: seq<int>, home: seq<int>, p: int, q: int, sub1: seq<set<int>>)
    requires CanPromote(t, sub, key, home, p, q) && sub1 == ShrunkSubtrees(sub, q)
    ensures PromotableApart(t, p, q) && Tree(PromotedByCode(t, p, q), RenamedSubtrees(sub1, p, q), key, home)
  {
    PromotionKeepsTree(t, sub, sub1, RenamedSubtrees(sub1, p, q), key, home, p, q);
  }

  lemma PromotedLive(t: Links, sub: seq<set<int>>, key: seq<int>, home: seq<int>, p: int, q: int, sub1: seq<set<int>>)
    requires CanPromote(t, sub, key, home, p, q) && sub1 == ShrunkSubtrees(sub, q)
    ensures LiveSet(RenamedSubtrees(sub1, p, q)) == LiveSet(sub) - {p}
  {
    PromotionPlaces(t, sub, key, home, p, q);
    ShrunkLive(sub, sub1, q);
    RenamedLive(sub1, RenamedSubtrees(sub1, p, q), p, q);
  }

  class EncodeState {
    const lchild: array<int>
    const rchild: array<int>
    const parent: array<int>
    const textBuf: array<byte>
    var matchPosition: int
    var matchLength: int
    ghost var sub: seq<set<int>>

    ghost predicate Shape()
      reads this
    {
      && lchild.Length == N + 1 && rchild.Length == N + 257 && parent.Length == N + 1 && textBuf.Length == TEXT
      && lchild != rchild && lchild != parent && rchild != parent
      && textBuf as object != lchild && textBuf as object != rchild && textBuf as object != parent
    }

    ghost function Now(): Links
      reads lchild, rchild, parent
    {
      Links(lchild[..], rchild[..], parent[..])
    }

    ghost predicate Valid()
      reads this, lchild, rchild, parent, textBuf
    {
      Shape() && TextTree(Now(), sub, textBuf[..])
    }

    /** init_state: spaces in all but the last F ring positions, and empty trees. */
    constructor ()
      ensures Valid() && LiveSet(sub) == {}
      ensures fresh(lchild) && fresh(rchild) && fresh(parent) && fresh(textBuf)
      ensures forall i :: 0 <= i < N - F ==> textBuf[i] == 32
      ensures forall i :: N - F <= i < TEXT ==> textBuf[i] == 0
    {
      lchild := new int[N + 1](_ => 0);
      rchild := new int[N + 257](i => if i <= N then 0 else NIL);
      parent := new int[N + 1](i => if i < N then NIL else 0);
      textBuf := new byte[TEXT](i => if i < N - F then 32 else 0);
      matchPosition, matchLength := 0, 0;
      sub := seq(N + 257, _ => {});
      new;
      NoTrees(Now(), sub, textBuf[..]);
    }

    /** The byte comparison of insert_node: i bytes agree, and cmp is the sign of the first difference. */
    method CompareStrings(r: int, p: int) returns (i: int, cmp: int)
      requires Valid() && 0 <= r < N && 0 <= p < N && textBuf[r] == textBuf[p]
      ensures 1 <= i <= F && i == Shared(textBuf[..], r, p)
      ensures i < F ==>
              if cmp >= 0 then Keys(textBuf[..])[p] < Keys(textBuf[..])[r]
                 else Keys(textBuf[..])[r] < Keys(textBuf[..])[p]
      ensures i == F ==> Keys(textBuf[..])[p] == Keys(textBuf[..])[r]
    {
      ghost var a, b := StringAt(textBuf[..], r), StringAt(textBuf[..], p);
      i, cmp := FirstDifference(r, p);
      OrderAt(a, b, i, cmp);
    }

    method FirstDifference(r: int, p: int) returns (i: int, cmp: int)
      requires Shape() && textBuf.Length == TEXT && 0 <= r < N && 0 <= p < N && textBuf[r] == textBuf[p]
      ensures var a, b := StringAt(textBuf[..], r), StringAt(textBuf[..], p);
              1 <= i <= F && a[..i] == b[..i] && (i < F ==> a[i] != b[i] && cmp == a[i] as int - b[i] as int)
    {
      ghost var a, b := StringAt(textBuf[..], r), StringAt(textBuf[..], p);
      i, cmp := 1, 0;
      while i < F
        invariant 1 <= i <= F
        invariant a[..i] == b[..i]
      {
        var x: int, y: int := textBuf[r + i], textBuf[p + i];
        cmp := x - y;
        if cmp != 0 {
          break;
        }
        assert a[..i + 1] == a[..i] + [a[i]] && b[..i + 1] == b[..i] + [b[i]];
        i := i + 1;
      }
    }

    /** Compares with the node c and remembers it if it shares more than any before. */
    method Visit(r: int, c: int) returns (cmp: int)
      requires Valid() && 0 <= r < N && c in LiveSet(sub) && textBuf[r] == textBuf[c] && 0 <= matchLength < F
      modifies this`matchPosition, this`matchLength
      ensures Shared(textBuf[..], r, c) <= matchLength <= F && old(matchLength) <= matchLength
      ensures if Shared(textBuf[..], r, c) > old(matchLength)
              then matchPosition == c && matchLength == Shared(textBuf[..], r, c)
              else matchPosition == old(matchPosition) && matchLength == old(matchLength)
      ensures Shared(textBuf[..], r, c) < F ==>
                if cmp >= 0 then Keys(textBuf[..])[c] < Keys(textBuf[..])[r]
                   else Keys(textBuf[..])[r] < Keys(textBuf[..])[c]
    {
      var i;
      i, cmp := CompareStrings(r, c);
      if i > matchLength {
        matchPosition := c;
        matchLength := i;
      }
    }

    /**
      The search loop of insert_node: it walks down r's tree, keeping the longest match, until it
      finds a free child slot at p or (matchLength == F) a node p holding the same string.
     */
    method FindPlace(r: int) returns (p: int, cmp: int)
      requires Valid() && 0 <= r < N && r !in LiveSet(sub)
      modifies this`matchPosition, this`matchLength
      ensures IsLongestMatch(textBuf[..], LiveSet(sub), r, matchPosition, matchLength)
      ensures matchLength == F ==> p == matchPosition
      ensures matchLength < F ==> Walking(sub, textBuf[..], r, p, cmp) && Next(Now(), p, cmp) == NIL
    {
      ghost var t, text := Now(), textBuf[..];
      cmp := 1;
      p := N + 1 + textBuf[r];
      matchLength := 0;
      StartAtRoot(t, sub, text, r);
      while true
        invariant Now() == t && textBuf[..] == text
        invariant Walking(sub, text, r, p, cmp)
        invariant Searched(sub, text, r, Next(t, p, cmp), matchLength)
        invariant 0 <= matchLength < F
        invariant matchLength > 0 ==> matchPosition in LiveSet(sub) && Shared(text, r, matchPosition) == matchLength
        decreases |sub[Next(t, p, cmp)]|
      {
        var c := if cmp >= 0 then rchild[p] else lchild[p];
        assert c == Next(t, p, cmp);
        if c == NIL {
          SearchedAll(sub, text, r, NIL, matchPosition, matchLength);
          return;
        }
        ghost var m := matchLength;
        ChildIsBelow(t, sub, text, r, p, cmp);
        var cmp' := Visit(r, c);
        if matchLength >= F {
          SearchedAll(sub, text, r, NIL, matchPosition, matchLength);
          return c, cmp';
        }
        WalkDown(t, sub, text, r, p, cmp, c, cmp', m, matchLength);
        p, cmp := c, cmp';
      }
    }

    /** Hangs the leaf r under p. */
    method Attach(r: int, p: int, cmp: int)
      requires Shape() && 0 <= r < N && 0 <= p < N + 257 && (p > N ==> cmp >= 0) && p != NIL
      requires lchild[r] == NIL && rchild[r] == NIL
      modifies lchild, rchild, parent
      ensures Now() == if cmp >= 0 then AttachRight(old(Now()), r, p) else AttachLeft(old(Now()), r, p)
    {
      ghost var t := Now();
      if cmp >= 0 {
        rchild[p] := r;
        assert rchild[..] == t.rc[r := NIL][p := r];
      } else {
        lchild[p] := r;
        assert lchild[..] == t.lc[r := NIL][p := r];
      }
      parent[r] := p;
      assert t.lc == t.lc[r := NIL] && t.rc == t.rc[r := NIL];
    }

    /** The end of insert_node: r takes over the place of p, whose string is the same. */
    method TakeOver(r: int, p: int)
      requires Shape() && 0 <= r < N && 0 <= p < N && r != p
      requires 0 <= parent[p] < N + 257 && 0 <= lchild[p] <= N && 0 <= rchild[p] <= N
      requires lchild[p] != p && rchild[p] != p && parent[p] != r
      requires rchild[parent[p]] != p ==> parent[p] < N + 1
      modifies lchild, rchild, parent
      ensures Now() == Replace(old(Now()), p, r)
    {
      ghost var t := Now();
      parent[r] := parent[p];
      lchild[r] := lchild[p];
      rchild[r] := rchild[p];
      parent[lchild[p]] := r;
      parent[rchild[p]] := r;
      if rchild[parent[p]] == p {
        rchild[parent[p]] := r;
      } else {
        lchild[parent[p]] := r;
      }
      parent[p] := NIL;
      assert parent[..] == t.par[r := t.par[p]][t.lc[p] := r][t.rc[p] := r][p := NIL];
      assert lchild[..] == Replace(t, p, r).lc;
      assert rchild[..] == Replace(t, p, r).rc;
    }

    method AttachNode(r: int, p: int, cmp: int)
      requires Valid() && 0 <= r < N && r !in LiveSet(sub)
      requires lchild[r] == NIL && rchild[r] == NIL
      requires Walking(sub, textBuf[..], r, p, cmp) && Next(Now(), p, cmp) == NIL
      modifies this`sub, lchild, rchild, parent
      ensures Valid()
      ensures LiveSet(sub) == old(LiveSet(sub)) + {r}
    {
      ghost var t, key, home := Now(), Keys(textBuf[..]), Homes(textBuf[..]);
      Attach(r, p, cmp);
      ghost var sub' := GrownSubtrees(sub, r, p);
      if cmp >= 0 {
        AttachRightKeepsTree(t, sub, sub', key, home, r, p);
      } else {
        AttachLeftKeepsTree(t, sub, sub', key, home, r, p);
      }
      GrownLive(sub, sub', r, p);
      sub := sub';
    }

    method TakeOverNode(r: int, p: int)
      requires Valid() && 0 <= r < N && r !in LiveSet(sub)
      requires p in LiveSet(sub) && Shared(textBuf[..], r, p) == F
      modifies this`sub, lchild, rchild, parent
      ensures Valid()
      ensures LiveSet(sub) == old(LiveSet(sub)) - {p} + {r}
    {
      ghost var t, key, home := Now(), Keys(textBuf[..]), Homes(textBuf[..]);
      SameString(t, sub, textBuf[..], r, p);
      TakeOver(r, p);
      ghost var sub' := RenamedSubtrees(sub, p, r);
      ReplaceKeepsTree(t, sub, sub', key, home, p, r);
      RenamedLive(sub, sub', p, r);
      sub := sub';
    }

    /**
      insert_node: registers the string at r and reports the longest match among the strings that
      were live. When all F bytes match, r replaces the matched node.
     */
    method InsertNode(r: int)
      requires Valid() && 0 <= r < N && r !in LiveSet(sub)
      modifies this, lchild, rchild, parent
      ensures Valid()
      ensures IsLongestMatch(textBuf[..], old(LiveSet(sub)), r, matchPosition, matchLength)
      ensures LiveSet(sub) == old(LiveSet(sub)) - (if matchLength == F then {matchPosition} else {}) + {r}
    {
      ghost var t, key, home := Now(), Keys(textBuf[..]), Homes(textBuf[..]);
      rchild[r] := NIL;
      lchild[r] := NIL;
      DeadLinksAreIrrelevant(t, Now(), sub, key, home);
      var p, cmp := FindPlace(r);
      if matchLength < F {
        AttachNode(r, p, cmp);
      } else {
        TakeOverNode(r, p);
      }
    }

    /** The end of delete_node: q (possibly NIL) is hung under p's parent in place of p. */
    method Unlink(p: int, q: int)
      requires Shape() && 0 <= p < N && 0 <= q <= N && q != p
      requires 0 <= parent[p] < N + 257 && (rchild[parent[p]] != p ==> parent[p] < N + 1)
      modifies lchild, rchild, parent
      ensures Now() == Detach(old(Now()), p, q)
    {
      ghost var t := Now();
      parent[q] := parent[p];
      if rchild[parent[p]] == p {
        rchild[parent[p]] := q;
      } else {
        lchild[parent[p]] := q;
      }
      parent[p] := NIL;
      assert parent[..] == t.par[q := t.par[p]][p := NIL];
      assert lchild[..] == Detach(t, p, q).lc;
      assert rchild[..] == Detach(t, p, q).rc;
    }

    /** The walk to the right end of p's left subtree. */
    method Predecessor(p: int) returns (q: int)
      requires Valid() && p in LiveSet(sub) && lchild[p] != NIL
      ensures LargestLeft(Now(), sub, Keys(textBuf[..]), Homes(textBuf[..]), p, q) && rchild[q] == NIL
    {
      ghost var t, key, home := Now(), Keys(textBuf[..]), Homes(textBuf[..]);
      q := lchild[p];
      LargestLeftStart(t, sub, key, home, p);
      while rchild[q] != NIL
        invariant LargestLeft(t, sub, key, home, p, q)
        decreases |sub[q]|
      {
        LargestLeftStep(t, sub, key, home, p, q);
        q := rchild[q];
      }
    }

    /** The two-children branch of delete_node, up to the relinking of p's parent. */
    method PullUp(p: int, q: int)
      requires Shape() && 0 <= p < N && 0 <= q < N && p != q
      requires 0 <= lchild[p] <= N && 0 <= rchild[p] <= N && 0 <= lchild[q] <= N && 0 <= parent[q] < N
      requires lchild[q] != q && rchild[p] != q && parent[q] != q && (q != lchild[p] ==> parent[q] != p)
      modifies lchild, rchild, parent
      ensures Now() == Rewire(old(Now()), p, q)
    {
      ghost var t := Now();
      if q != lchild[p] {
        rchild[parent[q]] := lchild[q];
        parent[lchild[q]] := parent[q];
        lchild[q] := lchild[p];
        parent[lchild[p]] := q;
      }
      rchild[q] := rchild[p];
      parent[rchild[p]] := q;
      assert lchild[..] == Rewire(t, p, q).lc;
      assert rchild[..] == Rewire(t, p, q).rc;
      assert parent[..] == Rewire(t, p, q).par;
    }

    method DetachNode(p: int, q: int)
      requires Valid() && p in LiveSet(sub)
      requires (lchild[p] == NIL && q == rchild[p]) || (rchild[p] == NIL && q == lchild[p])
      modifies this`sub, lchild, rchild, parent
      ensures Valid()
      ensures LiveSet(sub) == old(LiveSet(sub)) - {p}
    {
      ghost var t, key, home := Now(), Keys(textBuf[..]), Homes(textBuf[..]);
      ghost var sub' := ShrunkSubtrees(sub, p);
      DetachKeepsTree(t, sub, sub', key, home, p, q);
      DetachPlaces(t, sub, key, home, p, q);
      Unlink(p, q);
      ShrunkLive(sub, sub', p);
      sub := sub';
    }

    method PromoteLinks(p: int, q: int)
      requires Shape() && PromotableApart(Now(), p, q)
      modifies lchild, rchild, parent
      ensures Now() == PromotedByCode(old(Now()), p, q)
    {
      PullUp(p, q);
      Unlink(p, q);
    }

    method PlanPromotion(p: int) returns (q: int, ghost sub': seq<set<int>>)
      requires Valid() && p in LiveSet(sub) && lchild[p] != NIL && rchild[p] != NIL
      ensures PromotableApart(Now(), p, q)
      ensures TextTree(PromotedByCode(Now(), p, q), sub', textBuf[..])
      ensures LiveSet(sub') == LiveSet(sub) - {p}
    {
      q := Predecessor(p);
      sub' := PromotedSubtrees(Now(), sub, Keys(textBuf[..]), Homes(textBuf[..]), p, q);
    }

    method PromoteNode(p: int)
      requires Valid() && p in LiveSet(sub)
      requires lchild[p] != NIL && rchild[p] != NIL
      modifies this`sub, lchild, rchild, parent
      ensures Valid()
      ensures LiveSet(sub) == old(LiveSet(sub)) - {p}
    {
      var q;
      ghost var sub';
      q, sub' := PlanPromotion(p);
      PromoteLinks(p, q);
      sub := sub';
    }

    /** delete_node: takes the string at p out of its tree, if it is in one. */
    method DeleteNode(p: int)
      requires Valid() && 0 <= p < N
      modifies this`sub, lchild, rchild, parent
      ensures Valid()
      ensures LiveSet(sub) == old(LiveSet(sub)) - {p}
    {
      if parent[p] == NIL {
        return;
      }
      if rchild[p] == NIL {
        DetachNode(p, lchild[p]);
      } else if lchild[p] == NIL {
        DetachNode(p, rchild[p]);
      } else {
        PromoteNode(p);
      }
    }
  }

  lemma NoTrees(t: Links, sub: seq<set<int>>, text: seq<byte>)
    requires |t.lc| == N + 1 && |t.rc| == N + 257 && |t.par| == N + 1 && |text| == TEXT
    requires sub == seq(N + 257, _ => {}) && forall c :: N < c < N + 257 ==> t.rc[c] == NIL
    requires forall x :: 0 <= x < N ==> t.par[x] == NIL
    ensures TextTree(t, sub, text)
  {}

  /** The first difference decides the order of two strings. */
  lemma OrderAt(a: seq<byte>, b: seq<byte>, i: nat, cmp: int)
    requires |a| == |b| == F && 1 <= i <= F && a[..i] == b[..i]
    requires i < F ==> a[i] != b[i] && cmp == a[i] as int - b[i] as int
    ensures i == CommonPrefix(a, b)
    ensures i < F ==> if cmp >= 0 then Value(b) < Value(a) else Value(a) < Value(b)
    ensures i == F ==> Value(a) == Value(b)
  {
    CommonPrefixIs(a, b, i);
    if i < F {
      if cmp >= 0 {
        ValueOrder(b, a, i);
      } else {
        ValueOrder(a, b, i);
      }
    } else {
      assert a[..F] == a && b[..F] == b;
    }
  }
}
