/**
  Deleting a node with two children: its in-order predecessor q is taken out of the left subtree and
  put in its place. The link updates amount to a Detach of q followed by a Replace of p by q.
 */
module LzssPromotion {
  import opened LzssTree

  /** q is the largest node of p's left subtree, or (walking) everything larger there is below q. */
  ghost predicate LargestLeft(t: Links, sub: seq<set<int>>, key: seq<int>, home: seq<int>, p: int, q: int) {
    && Tree(t, sub, key, home) && Live(sub, p) && t.lc[p] != NIL && Live(sub, q)
    && q in sub[t.lc[p]]
    && forall y {:trigger y in sub[t.lc[p]]} :: Live(sub, y) && y in sub[t.lc[p]] ==> y in sub[q] || key[y] < key[q]
  }

  lemma LargestLeftStart(t: Links, sub: seq<set<int>>, key: seq<int>, home: seq<int>, p: int)
    requires Tree(t, sub, key, home) && Live(sub, p) && t.lc[p] != NIL
    ensures LargestLeft(t, sub, key, home, p, t.lc[p])
  {}

  lemma LargestLeftStep(t: Links, sub: seq<set<int>>, key: seq<int>, home: seq<int>, p: int, q: int)
    requires LargestLeft(t, sub, key, home, p, q) && t.rc[q] != NIL
    ensures LargestLeft(t, sub, key, home, p, t.rc[q])
    ensures |sub[t.rc[q]]| < |sub[q]|
  {
    var q' := t.rc[q];
    assert q' in sub[q'];
    BelowIsTransitive(t, sub, key, home, t.lc[p], q, q');
    assert q !in sub[q'] && q in sub[q];
    assert forall x :: x in sub[q'] ==> x in sub[q];
    SubsetSmaller(sub[q'], sub[q], q);
  }

  /** Where the links of p's children and of q's old neighbours point once q has been pulled up. */
  function Rewire(t: Links, p: int, q: int): (t': Links)
    requires Shaped(t) && 0 <= p < N && 0 <= q < N && 0 <= t.lc[p] <= N && 0 <= t.rc[p] <= N && 0 <= t.lc[q] <= N
    requires 0 <= t.par[q] < N + 257
    ensures Shaped(t')
  {
    if q == t.lc[p] then
      Links(t.lc, t.rc[q := t.rc[p]], t.par[t.rc[p] := q])
    else
      Links(t.lc[q := t.lc[p]],
            t.rc[t.par[q] := t.lc[q]][q := t.rc[p]],
            t.par[t.lc[q] := t.par[q]][t.lc[p] := q][t.rc[p] := q])
  }

  /** What is known of p with two children and its predecessor q. */
  ghost predicate CanPromote(t: Links, sub: seq<set<int>>, key: seq<int>, home: seq<int>, p: int, q: int) {
    LargestLeft(t, sub, key, home, p, q) && t.rc[p] != NIL && t.rc[q] == NIL
  }

  lemma PredecessorFits(t: Links, sub: seq<set<int>>, sub1: seq<set<int>>, key: seq<int>, home: seq<int>, p: int,
                        q: int)
    requires CanPromote(t, sub, key, home, p, q) && Shrunk(sub, sub1, q)
    ensures Fits(sub1, key, home, p, q)
  {
    assert q in sub[p] && key[q] < key[p];
    forall y | Live(sub1, y) && y != p && (y in sub1[p] || p in sub1[y])
      ensures key[q] != key[y] && (key[y] < key[p] <==> key[y] < key[q])
    {
      assert y in sub[y];
      if y in sub1[p] {
        assert y in sub[p] && y != q;
        assert y in sub[t.lc[p]] ==> y in sub[q] || key[y] < key[q];
        assert y !in sub[t.rc[q]];
      } else {
        assert p in sub[y];
        if key[y] < key[p] {
          assert p in sub[t.rc[y]];
          BelowIsTransitive(t, sub, key, home, t.rc[y], p, q);
          assert q in sub[t.rc[y]];
        }
      }
    }
  }

  /** Distinctness of the places written by the promotion. */
  lemma PromotionPlaces(t: Links, sub: seq<set<int>>, key: seq<int>, home: seq<int>, p: int, q: int)
    requires CanPromote(t, sub, key, home, p, q)
    ensures p != q && t.par[p] != q && 0 <= t.par[q] < N && t.par[p] != NIL && 0 <= t.par[p] < N + 257
    ensures t.lc[q] != p && t.lc[q] != q && t.rc[p] != q && t.rc[p] != p && t.lc[p] != p
    ensures t.lc[q] != NIL ==> t.par[t.lc[q]] == q
    ensures t.par[t.lc[p]] == p && t.par[t.rc[p]] == p
    ensures 0 <= t.lc[q] <= N && 0 <= t.lc[p] < N && 0 <= t.rc[p] < N
    ensures q == t.lc[p] ==> t.par[q] == p
    ensures q != t.lc[p] ==> t.par[q] != p && t.rc[t.par[q]] == q && t.lc[t.par[q]] != q
    ensures t.rc[t.par[p]] != p ==> t.par[p] < N
    ensures Live(sub, t.par[q]) && (t.par[p] < N ==> Live(sub, t.par[p]))
  {
    var w := t.lc[p];
    assert q in sub[p] && key[q] < key[p];
    assert w in sub[w] && w in sub[p];
    assert t.par[q] in sub[p];
    assert t.par[p] < N ==> p in sub[t.par[p]];
    assert p !in sub[t.rc[q]] && p !in sub[q];
    if q != w {
      var u := t.par[q];
      assert u in sub[w] && u !in sub[t.rc[q]];
      assert u in sub[q] || key[u] < key[q];
      assert key[u] <= key[q];
      assert q in sub[u];
    }
  }

  ghost predicate Promotable(t: Links, p: int, q: int) {
    && Shaped(t) && 0 <= p < N && 0 <= q < N
    && 0 <= t.par[p] < N + 257 && 0 <= t.par[q] < N && 0 <= t.lc[q] <= N && 0 <= t.lc[p] <= N && 0 <= t.rc[p] <= N
    && (var r := Rewire(t, p, q);
        0 <= r.par[p] < N + 257 && (r.rc[r.par[p]] != p ==> r.par[p] < N + 1))
    && (var d := Detach(t, q, t.lc[q]);
        0 <= d.par[p] < N + 257 && 0 <= d.lc[p] <= N && 0 <= d.rc[p] <= N && (d.rc[d.par[p]] != p ==> d.par[p] < N + 1))
  }

  /** Besides, the places the promotion writes to do not collide. */
  ghost predicate PromotableApart(t: Links, p: int, q: int) {
    && Promotable(t, p, q) && p != q
    && t.lc[q] != q && t.lc[q] != p && t.rc[p] != q && t.rc[p] != p && t.par[q] != q
    && (q != t.lc[p] ==> t.par[q] != p)
  }

  /** The links as delete_node leaves them. */
  function PromotedByCode(t: Links, p: int, q: int): (t': Links)
    requires Promotable(t, p, q)
    ensures Shaped(t')
  {
    Detach(Rewire(t, p, q), p, q)
  }

  function PromotedBySteps(t: Links, p: int, q: int): (t': Links)
    requires Promotable(t, p, q)
    ensures Shaped(t')
  {
    Replace(Detach(t, q, t.lc[q]), p, q)
  }

  lemma RewiredPlaces(t: Links, sub: seq<set<int>>, key: seq<int>, home: seq<int>, p: int, q: int)
    requires CanPromote(t, sub, key, home, p, q)
    ensures 0 <= p < N && 0 <= q < N && 0 <= t.par[p] < N + 257 && 0 <= t.par[q] < N && 0 <= t.lc[q] <= N
            && 0 <= t.lc[p] <= N && 0 <= t.rc[p] <= N
    ensures var r := Rewire(t, p, q);
            0 <= r.par[p] < N + 257 && (r.rc[r.par[p]] != p ==> r.par[p] < N + 1)
  {
    PromotionPlaces(t, sub, key, home, p, q);
  }

  lemma DetachedPlaces(t: Links, sub: seq<set<int>>, key: seq<int>, home: seq<int>, p: int, q: int)
    requires CanPromote(t, sub, key, home, p, q) && 0 <= q < N && 0 <= t.par[q] < N && 0 <= t.lc[q] <= N
    ensures var d := Detach(t, q, t.lc[q]);
            0 <= d.par[p] < N + 257 && 0 <= d.lc[p] <= N && 0 <= d.rc[p] <= N
            && (d.rc[d.par[p]] != p ==> d.par[p] < N + 1)
  {
    PromotionPlaces(t, sub, key, home, p, q);
  }

  lemma PromotionIsDefined(t: Links, sub: seq<set<int>>, key: seq<int>, home: seq<int>, p: int, q: int)
    requires CanPromote(t, sub, key, home, p, q)
    ensures Promotable(t, p, q)
  {
    RewiredPlaces(t, sub, key, home, p, q);
    DetachedPlaces(t, sub, key, home, p, q);
  }

  lemma PromotionLcAgree(t: Links, sub: seq<set<int>>, key: seq<int>, home: seq<int>, p: int, q: int)
    requires CanPromote(t, sub, key, home, p, q) && Promotable(t, p, q)
    ensures forall x {:trigger PromotedByCode(t, p, q).lc[x]} :: 0 <= x < N && x != p ==>
              PromotedByCode(t, p, q).lc[x] == PromotedBySteps(t, p, q).lc[x]
  {
    PromotionPlaces(t, sub, key, home, p, q);
  }

  lemma PromotionRcAgree(t: Links, sub: seq<set<int>>, key: seq<int>, home: seq<int>, p: int, q: int)
    requires CanPromote(t, sub, key, home, p, q) && Promotable(t, p, q)
    ensures forall x {:trigger PromotedByCode(t, p, q).rc[x]} :: 0 <= x < N + 257 && x != p && x != NIL ==>
              PromotedByCode(t, p, q).rc[x] == PromotedBySteps(t, p, q).rc[x]
  {
    PromotionPlaces(t, sub, key, home, p, q);
  }

  lemma PromotionParAgreeNear(t: Links, sub: seq<set<int>>, key: seq<int>, home: seq<int>, p: int, q: int)
    requires CanPromote(t, sub, key, home, p, q) && q == t.lc[p] && Promotable(t, p, q)
    ensures forall x {:trigger PromotedByCode(t, p, q).par[x]} :: 0 <= x < N ==>
              PromotedByCode(t, p, q).par[x] == PromotedBySteps(t, p, q).par[x]
  {
    PromotionPlaces(t, sub, key, home, p, q);
  }

  lemma PromotionParAgreeFar(t: Links, sub: seq<set<int>>, key: seq<int>, home: seq<int>, p: int, q: int)
    requires CanPromote(t, sub, key, home, p, q) && q != t.lc[p] && Promotable(t, p, q)
    ensures forall x {:trigger PromotedByCode(t, p, q).par[x]} :: 0 <= x < N ==>
              PromotedByCode(t, p, q).par[x] == PromotedBySteps(t, p, q).par[x]
  {
    PromotionPlaces(t, sub, key, home, p, q);
  }

  lemma PromotionParAgree(t: Links, sub: seq<set<int>>, key: seq<int>, home: seq<int>, p: int, q: int)
    requires CanPromote(t, sub, key, home, p, q) && Promotable(t, p, q)
    ensures forall x {:trigger PromotedByCode(t, p, q).par[x]} :: 0 <= x < N ==>
              PromotedByCode(t, p, q).par[x] == PromotedBySteps(t, p, q).par[x]
  {
    if q == t.lc[p] {
      PromotionParAgreeNear(t, sub, key, home, p, q);
    } else {
      PromotionParAgreeFar(t, sub, key, home, p, q);
    }
  }

  lemma PromotionKeepsTree(t: Links, sub: seq<set<int>>, sub1: seq<set<int>>, sub2: seq<set<int>>, key: seq<int>,
                           home: seq<int>, p: int, q: int)
    requires CanPromote(t, sub, key, home, p, q)
    requires Shrunk(sub, sub1, q) && Renamed(sub1, sub2, p, q)
    ensures Promotable(t, p, q) && Tree(PromotedByCode(t, p, q), sub2, key, home)
  {
    PromotionIsDefined(t, sub, key, home, p, q);
    DetachKeepsTree(t, sub, sub1, key, home, q, t.lc[q]);
    var d := Detach(t, q, t.lc[q]);
    PredecessorFits(t, sub, sub1, key, home, p, q);
    assert p in sub1[p] && q !in sub1[q];
    ReplaceKeepsTree(d, sub1, sub2, key, home, p, q);
    PromotionLcAgree(t, sub, key, home, p, q);
    PromotionRcAgree(t, sub, key, home, p, q);
    PromotionParAgree(t, sub, key, home, p, q);
    assert p !in sub2[p];
    DeadLinksAreIrrelevant(PromotedBySteps(t, p, q), PromotedByCode(t, p, q), sub2, key, home);
  }
}
