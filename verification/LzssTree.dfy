/**
  The 256 search trees of the LZSS encoder, as links in three arrays: lc and rc are the children,
  par the parent, index NIL = N stands for "none" and index N + 1 + c holds the root of the tree
  for strings starting with byte c. The ghost sub gives, for each node and root, the nodes below it.
 */
module LzssTree {

  const N: int := 4096
  const NIL: int := N

  datatype Links = Links(lc: seq<int>, rc: seq<int>, par: seq<int>)

  ghost predicate Sized(t: Links, sub: seq<set<int>>, key: seq<int>, home: seq<int>) {
    && |t.lc| == N + 1 && |t.rc| == N + 257 && |t.par| == N + 1
    && |sub| == N + 257 && |key| == N && |home| == N
    && sub[NIL] == {}
    && forall x :: 0 <= x < N ==> N < home[x] <= N + 256
  }

  ghost predicate Live(sub: seq<set<int>>, x: int)
    requires |sub| == N + 257
  {
    0 <= x < N && x in sub[x]
  }

  /** Subtrees hold live nodes of one tree only, and each live node is in its tree. */
  ghost predicate Members(t: Links, sub: seq<set<int>>, key: seq<int>, home: seq<int>)
    requires Sized(t, sub, key, home)
  {
    && (forall z, y {:trigger y in sub[z]} :: 0 <= z < N && y in sub[z] ==>
        Live(sub, z) && Live(sub, y) && home[y] == home[z])
    && (forall z, y {:trigger y in sub[z]} :: N < z < N + 257 && y in sub[z] ==> Live(sub, y) && home[y] == z)
    && (forall y {:trigger sub[home[y]]} :: Live(sub, y) ==> y in sub[home[y]])
  }

  /** The left subtree of z is what lies below z with a smaller key. */
  ghost predicate LeftIsSmaller(t: Links, sub: seq<set<int>>, key: seq<int>, home: seq<int>)
    requires Sized(t, sub, key, home)
  {
    && (forall z {:trigger t.lc[z]} :: Live(sub, z) ==> 0 <= t.lc[z] <= N)
    && (forall z, y {:trigger y in sub[z], t.lc[z]} {:trigger y in sub[t.lc[z]]} :: Live(sub, z) ==>
          (y in sub[t.lc[z]] <==> y in sub[z] && 0 <= y < N && key[y] < key[z]))
  }

  /** The right subtree of z is what lies below z with a larger key. */
  ghost predicate RightIsLarger(t: Links, sub: seq<set<int>>, key: seq<int>, home: seq<int>)
    requires Sized(t, sub, key, home)
  {
    && (forall z {:trigger t.rc[z]} :: Live(sub, z) ==> 0 <= t.rc[z] <= N)
    && (forall z, y {:trigger y in sub[z], t.rc[z]} {:trigger y in sub[t.rc[z]]} :: Live(sub, z) ==>
          (y in sub[t.rc[z]] <==> y in sub[z] && 0 <= y < N && key[z] < key[y]))
  }

  ghost predicate RootHoldsAll(t: Links, sub: seq<set<int>>, key: seq<int>, home: seq<int>)
    requires Sized(t, sub, key, home)
  {
    && (forall z {:trigger t.rc[z]} :: N < z < N + 257 ==> 0 <= t.rc[z] <= N)
    && (forall z, y {:trigger y in sub[z], t.rc[z]} {:trigger y in sub[t.rc[z]]} :: N < z < N + 257 ==>
          (y in sub[t.rc[z]] <==> y in sub[z]))
  }

  ghost predicate KeysDiffer(t: Links, sub: seq<set<int>>, key: seq<int>, home: seq<int>)
    requires Sized(t, sub, key, home)
  {
    forall z, y {:trigger y in sub[z], key[z]} :: Live(sub, z) && Live(sub, y) && y in sub[z] && key[y] == key[z] ==>
           y == z
  }

  /** The parent of a child is the node it is a child of. */
  ghost predicate LinkedDown(t: Links, sub: seq<set<int>>, key: seq<int>, home: seq<int>)
    requires Sized(t, sub, key, home)
  {
    && (forall z {:trigger t.lc[z]} :: Live(sub, z) && t.lc[z] != NIL ==> Live(sub, t.lc[z]) && t.par[t.lc[z]] == z)
    && (forall z {:trigger t.rc[z]} :: (Live(sub, z) || N < z < N + 257) && t.rc[z] != NIL ==>
          Live(sub, t.rc[z]) && t.par[t.rc[z]] == z)
  }

  /** A live node is a child of its parent; a dead one has none. */
  ghost predicate LinkedUp(t: Links, sub: seq<set<int>>, key: seq<int>, home: seq<int>)
    requires Sized(t, sub, key, home)
  {
    && (forall y {:trigger t.par[y]} :: Live(sub, y) ==>
          || (t.par[y] == home[y] && t.rc[home[y]] == y)
          || (Live(sub, t.par[y]) && y in sub[t.par[y]] && (t.lc[t.par[y]] == y || t.rc[t.par[y]] == y)))
    && (forall x {:trigger t.par[x]} :: 0 <= x < N && !Live(sub, x) ==> t.par[x] == NIL)
  }

  /** Going up from below z does not leave the subtree of z before reaching z. */
  ghost predicate ClosedUpwards(t: Links, sub: seq<set<int>>, key: seq<int>, home: seq<int>)
    requires Sized(t, sub, key, home)
  {
    forall z, y {:trigger y in sub[z], t.par[y]} :: 0 <= z < N && y in sub[z] && 0 <= y < N && y != z ==>
      0 <= t.par[y] < N && t.par[y] in sub[z]
  }

  ghost predicate Tree(t: Links, sub: seq<set<int>>, key: seq<int>, home: seq<int>) {
    && Sized(t, sub, key, home)
    && Members(t, sub, key, home)
    && LeftIsSmaller(t, sub, key, home)
    && RightIsLarger(t, sub, key, home)
    && RootHoldsAll(t, sub, key, home)
    && KeysDiffer(t, sub, key, home)
    && LinkedDown(t, sub, key, home)
    && LinkedUp(t, sub, key, home)
    && ClosedUpwards(t, sub, key, home)
  }

  // ---------- attaching a new leaf ----------

  function AttachRight(t: Links, r: int, p: int): Links
    requires |t.lc| == N + 1 && |t.rc| == N + 257 && |t.par| == N + 1 && 0 <= r < N && 0 <= p < N + 257
  {
    Links(t.lc[r := NIL], t.rc[r := NIL][p := r], t.par[r := p])
  }

  function AttachLeft(t: Links, r: int, p: int): Links
    requires |t.lc| == N + 1 && |t.rc| == N + 257 && |t.par| == N + 1 && 0 <= r < N && 0 <= p < N
  {
    Links(t.lc[r := NIL][p := r], t.rc[r := NIL], t.par[r := p])
  }

  /** p is on the search path of a new key: above p, the new key goes the way p went. */
  ghost predicate OnPath(sub: seq<set<int>>, key: seq<int>, home: seq<int>, r: int, p: int)
    requires |sub| == N + 257 && |key| == N && |home| == N && 0 <= r < N
  {
    || p == home[r]
    || (Live(sub, p) && home[p] == home[r] &&
        forall z {:trigger p in sub[z]} :: Live(sub, z) && p in sub[z] && z != p ==>
          key[r] != key[z] && (key[r] < key[z] <==> key[p] < key[z]))
  }

  /** The subtrees after r has become a child of p. */
  ghost predicate Grown(sub: seq<set<int>>, sub': seq<set<int>>, r: int, p: int) {
    && |sub| == |sub'| == N + 257 && 0 <= r < N
    && forall z, y {:trigger y in sub'[z]} {:trigger y in sub[z]} :: 0 <= z < N + 257 ==>
         (y in sub'[z] <==> y in sub[z] || (y == r && (z == r || z == p || p in sub[z])))
  }

  ghost predicate CanAttachRight(t: Links, sub: seq<set<int>>, sub': seq<set<int>>, key: seq<int>, home: seq<int>,
                                 r: int, p: int) {
    && Tree(t, sub, key, home) && 0 <= r < N && !Live(sub, r)
    && OnPath(sub, key, home, r, p) && (p < N ==> key[p] < key[r])
    && 0 <= p < N + 257 && t.rc[p] == NIL
    && Grown(sub, sub', r, p)
  }

  lemma AttachRightMembers(t: Links, sub: seq<set<int>>, sub': seq<set<int>>, key: seq<int>, home: seq<int>, r: int,
                           p: int)
    requires CanAttachRight(t, sub, sub', key, home, r, p)
    ensures Sized(AttachRight(t, r, p), sub', key, home) && Members(AttachRight(t, r, p), sub', key, home)
  {
    forall y ensures y !in sub'[NIL] {
      assert y !in sub[NIL];
    }
  }

  lemma AttachRightLeftIsSmaller(t: Links, sub: seq<set<int>>, sub': seq<set<int>>, key: seq<int>, home: seq<int>,
                                 r: int, p: int)
    requires CanAttachRight(t, sub, sub', key, home, r, p)
    requires Sized(AttachRight(t, r, p), sub', key, home)
    ensures LeftIsSmaller(AttachRight(t, r, p), sub', key, home)
  {}

  lemma AttachRightRightIsLarger(t: Links, sub: seq<set<int>>, sub': seq<set<int>>, key: seq<int>, home: seq<int>,
                                 r: int, p: int)
    requires CanAttachRight(t, sub, sub', key, home, r, p)
    requires Sized(AttachRight(t, r, p), sub', key, home)
    ensures RightIsLarger(AttachRight(t, r, p), sub', key, home)
  {}

  lemma AttachRightRootHoldsAll(t: Links, sub: seq<set<int>>, sub': seq<set<int>>, key: seq<int>, home: seq<int>,
                                r: int, p: int)
    requires CanAttachRight(t, sub, sub', key, home, r, p)
    requires Sized(AttachRight(t, r, p), sub', key, home)
    ensures RootHoldsAll(AttachRight(t, r, p), sub', key, home)
  {}

  lemma AttachRightKeysDiffer(t: Links, sub: seq<set<int>>, sub': seq<set<int>>, key: seq<int>, home: seq<int>,
                              r: int, p: int)
    requires CanAttachRight(t, sub, sub', key, home, r, p)
    requires Sized(AttachRight(t, r, p), sub', key, home)
    ensures KeysDiffer(AttachRight(t, r, p), sub', key, home)
  {}

  lemma AttachRightLinkedDown(t: Links, sub: seq<set<int>>, sub': seq<set<int>>, key: seq<int>, home: seq<int>,
                              r: int, p: int)
    requires CanAttachRight(t, sub, sub', key, home, r, p)
    requires Sized(AttachRight(t, r, p), sub', key, home)
    ensures LinkedDown(AttachRight(t, r, p), sub', key, home)
  {}

  lemma AttachRightLinkedUp(t: Links, sub: seq<set<int>>, sub': seq<set<int>>, key: seq<int>, home: seq<int>, r: int,
                            p: int)
    requires CanAttachRight(t, sub, sub', key, home, r, p)
    requires Sized(AttachRight(t, r, p), sub', key, home)
    ensures LinkedUp(AttachRight(t, r, p), sub', key, home)
  {}

  lemma AttachRightClosedUpwards(t: Links, sub: seq<set<int>>, sub': seq<set<int>>, key: seq<int>, home: seq<int>,
                                 r: int, p: int)
    requires CanAttachRight(t, sub, sub', key, home, r, p)
    requires Sized(AttachRight(t, r, p), sub', key, home)
    ensures ClosedUpwards(AttachRight(t, r, p), sub', key, home)
  {}

  lemma AttachRightKeepsTree(t: Links, sub: seq<set<int>>, sub': seq<set<int>>, key: seq<int>, home: seq<int>, r: int,
                             p: int)
    requires CanAttachRight(t, sub, sub', key, home, r, p)
    ensures Tree(AttachRight(t, r, p), sub', key, home)
  {
    AttachRightMembers(t, sub, sub', key, home, r, p);
    AttachRightLeftIsSmaller(t, sub, sub', key, home, r, p);
    AttachRightRightIsLarger(t, sub, sub', key, home, r, p);
    AttachRightRootHoldsAll(t, sub, sub', key, home, r, p);
    AttachRightKeysDiffer(t, sub, sub', key, home, r, p);
    AttachRightLinkedDown(t, sub, sub', key, home, r, p);
    AttachRightLinkedUp(t, sub, sub', key, home, r, p);
    AttachRightClosedUpwards(t, sub, sub', key, home, r, p);
  }

  ghost predicate CanAttachLeft(t: Links, sub: seq<set<int>>, sub': seq<set<int>>, key: seq<int>, home: seq<int>,
                                r: int, p: int) {
    && Tree(t, sub, key, home) && 0 <= r < N && !Live(sub, r)
    && OnPath(sub, key, home, r, p) && 0 <= p < N && key[r] < key[p]
    && t.lc[p] == NIL
    && Grown(sub, sub', r, p)
  }

  lemma AttachLeftMembers(t: Links, sub: seq<set<int>>, sub': seq<set<int>>, key: seq<int>, home: seq<int>, r: int,
                          p: int)
    requires CanAttachLeft(t, sub, sub', key, home, r, p)
    ensures Sized(AttachLeft(t, r, p), sub', key, home) && Members(AttachLeft(t, r, p), sub', key, home)
  {
    forall y ensures y !in sub'[NIL] {
      assert y !in sub[NIL];
    }
  }

  lemma AttachLeftLeftIsSmaller(t: Links, sub: seq<set<int>>, sub': seq<set<int>>, key: seq<int>, home: seq<int>,
                                r: int, p: int)
    requires CanAttachLeft(t, sub, sub', key, home, r, p)
    requires Sized(AttachLeft(t, r, p), sub', key, home)
    ensures LeftIsSmaller(AttachLeft(t, r, p), sub', key, home)
  {}

  lemma AttachLeftRightIsLarger(t: Links, sub: seq<set<int>>, sub': seq<set<int>>, key: seq<int>, home: seq<int>,
                                r: int, p: int)
    requires CanAttachLeft(t, sub, sub', key, home, r, p)
    requires Sized(AttachLeft(t, r, p), sub', key, home)
    ensures RightIsLarger(AttachLeft(t, r, p), sub', key, home)
  {}

  lemma AttachLeftRootHoldsAll(t: Links, sub: seq<set<int>>, sub': seq<set<int>>, key: seq<int>, home: seq<int>,
                               r: int, p: int)
    requires CanAttachLeft(t, sub, sub', key, home, r, p)
    requires Sized(AttachLeft(t, r, p), sub', key, home)
    ensures RootHoldsAll(AttachLeft(t, r, p), sub', key, home)
  {}

  lemma AttachLeftKeysDiffer(t: Links, sub: seq<set<int>>, sub': seq<set<int>>, key: seq<int>, home: seq<int>, r: int,
                             p: int)
    requires CanAttachLeft(t, sub, sub', key, home, r, p)
    requires Sized(AttachLeft(t, r, p), sub', key, home)
    ensures KeysDiffer(AttachLeft(t, r, p), sub', key, home)
  {}

  lemma AttachLeftLinkedDown(t: Links, sub: seq<set<int>>, sub': seq<set<int>>, key: seq<int>, home: seq<int>, r: int,
                             p: int)
    requires CanAttachLeft(t, sub, sub', key, home, r, p)
    requires Sized(AttachLeft(t, r, p), sub', key, home)
    ensures LinkedDown(AttachLeft(t, r, p), sub', key, home)
  {}

  lemma AttachLeftLinkedUp(t: Links, sub: seq<set<int>>, sub': seq<set<int>>, key: seq<int>, home: seq<int>, r: int,
                           p: int)
    requires CanAttachLeft(t, sub, sub', key, home, r, p)
    requires Sized(AttachLeft(t, r, p), sub', key, home)
    ensures LinkedUp(AttachLeft(t, r, p), sub', key, home)
  {}

  lemma AttachLeftClosedUpwards(t: Links, sub: seq<set<int>>, sub': seq<set<int>>, key: seq<int>, home: seq<int>,
                                r: int, p: int)
    requires CanAttachLeft(t, sub, sub', key, home, r, p)
    requires Sized(AttachLeft(t, r, p), sub', key, home)
    ensures ClosedUpwards(AttachLeft(t, r, p), sub', key, home)
  {}

  lemma AttachLeftKeepsTree(t: Links, sub: seq<set<int>>, sub': seq<set<int>>, key: seq<int>, home: seq<int>, r: int,
                            p: int)
    requires CanAttachLeft(t, sub, sub', key, home, r, p)
    ensures Tree(AttachLeft(t, r, p), sub', key, home)
  {
    AttachLeftMembers(t, sub, sub', key, home, r, p);
    AttachLeftLeftIsSmaller(t, sub, sub', key, home, r, p);
    AttachLeftRightIsLarger(t, sub, sub', key, home, r, p);
    AttachLeftRootHoldsAll(t, sub, sub', key, home, r, p);
    AttachLeftKeysDiffer(t, sub, sub', key, home, r, p);
    AttachLeftLinkedDown(t, sub, sub', key, home, r, p);
    AttachLeftLinkedUp(t, sub, sub', key, home, r, p);
    AttachLeftClosedUpwards(t, sub, sub', key, home, r, p);
  }

  // ---------- removing a node with at most one child ----------

  ghost predicate Shaped(t: Links) {
    |t.lc| == N + 1 && |t.rc| == N + 257 && |t.par| == N + 1
  }

  /** The link by which p hangs under its parent now leads to q. */
  function Relink(t: Links, p: int, q: int): (t': Links)
    requires Shaped(t) && 0 <= p < N && 0 <= t.par[p] < N + 257
    requires t.rc[t.par[p]] != p ==> t.par[p] < N + 1
    ensures Shaped(t')
  {
    var up := t.par[p];
    if t.rc[up] == p then t.(rc := t.rc[up := q]) else t.(lc := t.lc[up := q])
  }

  function Detach(t: Links, p: int, q: int): (t': Links)
    requires Shaped(t) && 0 <= p < N && 0 <= q <= N && 0 <= t.par[p] < N + 257
    requires t.rc[t.par[p]] != p ==> t.par[p] < N + 1
    ensures Shaped(t')
  {
    var t1 := Relink(t, p, q);
    t1.(par := t1.par[q := t.par[p]][p := NIL])
  }

  ghost predicate Shrunk(sub: seq<set<int>>, sub': seq<set<int>>, p: int) {
    && |sub| == |sub'| == N + 257 && 0 <= p < N
    && forall z, y {:trigger y in sub'[z]} {:trigger y in sub[z]} :: 0 <= z < N + 257 ==>
         (y in sub'[z] <==> y in sub[z] && y != p && z != p)
  }

  ghost predicate CanDetach(t: Links, sub: seq<set<int>>, sub': seq<set<int>>, key: seq<int>, home: seq<int>, p: int,
                            q: int) {
    && Tree(t, sub, key, home) && Live(sub, p)
    && ((t.lc[p] == NIL && q == t.rc[p]) || (t.rc[p] == NIL && q == t.lc[p]))
    && Shrunk(sub, sub', p)
  }

  lemma DetachMembers(t: Links, sub: seq<set<int>>, sub': seq<set<int>>, key: seq<int>, home: seq<int>, p: int, q: int)
    requires CanDetach(t, sub, sub', key, home, p, q)
    ensures Sized(Detach(t, p, q), sub', key, home) && Members(Detach(t, p, q), sub', key, home)
  {
    forall y ensures y !in sub'[NIL] {
      assert y !in sub[NIL];
    }
  }

  lemma DetachLeftIsSmaller(t: Links, sub: seq<set<int>>, sub': seq<set<int>>, key: seq<int>, home: seq<int>, p: int,
                            q: int)
    requires CanDetach(t, sub, sub', key, home, p, q)
    requires Sized(Detach(t, p, q), sub', key, home)
    ensures LeftIsSmaller(Detach(t, p, q), sub', key, home)
  {}

  lemma DetachRightIsLarger(t: Links, sub: seq<set<int>>, sub': seq<set<int>>, key: seq<int>, home: seq<int>, p: int,
                            q: int)
    requires CanDetach(t, sub, sub', key, home, p, q)
    requires Sized(Detach(t, p, q), sub', key, home)
    ensures RightIsLarger(Detach(t, p, q), sub', key, home)
  {}

  lemma DetachRootHoldsAll(t: Links, sub: seq<set<int>>, sub': seq<set<int>>, key: seq<int>, home: seq<int>, p: int,
                           q: int)
    requires CanDetach(t, sub, sub', key, home, p, q)
    requires Sized(Detach(t, p, q), sub', key, home)
    ensures RootHoldsAll(Detach(t, p, q), sub', key, home)
  {}

  lemma DetachKeysDiffer(t: Links, sub: seq<set<int>>, sub': seq<set<int>>, key: seq<int>, home: seq<int>, p: int,
                         q: int)
    requires CanDetach(t, sub, sub', key, home, p, q)
    requires Sized(Detach(t, p, q), sub', key, home)
    ensures KeysDiffer(Detach(t, p, q), sub', key, home)
  {}

  lemma DetachLinkedDown(t: Links, sub: seq<set<int>>, sub': seq<set<int>>, key: seq<int>, home: seq<int>, p: int,
                         q: int)
    requires CanDetach(t, sub, sub', key, home, p, q)
    requires Sized(Detach(t, p, q), sub', key, home)
    ensures LinkedDown(Detach(t, p, q), sub', key, home)
  {}

  lemma DetachLinkedUp(t: Links, sub: seq<set<int>>, sub': seq<set<int>>, key: seq<int>, home: seq<int>, p: int, q: int)
    requires CanDetach(t, sub, sub', key, home, p, q)
    requires Sized(Detach(t, p, q), sub', key, home)
    ensures LinkedUp(Detach(t, p, q), sub', key, home)
  {}

  lemma DetachClosedUpwards(t: Links, sub: seq<set<int>>, sub': seq<set<int>>, key: seq<int>, home: seq<int>, p: int,
                            q: int)
    requires CanDetach(t, sub, sub', key, home, p, q)
    requires Sized(Detach(t, p, q), sub', key, home)
    ensures ClosedUpwards(Detach(t, p, q), sub', key, home)
  {}

  lemma DetachKeepsTree(t: Links, sub: seq<set<int>>, sub': seq<set<int>>, key: seq<int>, home: seq<int>, p: int,
                        q: int)
    requires CanDetach(t, sub, sub', key, home, p, q)
    ensures Tree(Detach(t, p, q), sub', key, home)
  {
    DetachMembers(t, sub, sub', key, home, p, q);
    DetachLeftIsSmaller(t, sub, sub', key, home, p, q);
    DetachRightIsLarger(t, sub, sub', key, home, p, q);
    DetachRootHoldsAll(t, sub, sub', key, home, p, q);
    DetachKeysDiffer(t, sub, sub', key, home, p, q);
    DetachLinkedDown(t, sub, sub', key, home, p, q);
    DetachLinkedUp(t, sub, sub', key, home, p, q);
    DetachClosedUpwards(t, sub, sub', key, home, p, q);
  }

  // ---------- putting a node in the place of another ----------

  function Replace(t: Links, p: int, r: int): (t': Links)
    requires Shaped(t) && 0 <= p < N && 0 <= r < N && 0 <= t.par[p] < N + 257
    requires 0 <= t.lc[p] <= N && 0 <= t.rc[p] <= N
    requires t.rc[t.par[p]] != p ==> t.par[p] < N + 1
    ensures Shaped(t')
  {
    var t1 := Relink(t, p, r);
    Links(t1.lc[r := t.lc[p]], t1.rc[r := t.rc[p]], t.par[r := t.par[p]][t.lc[p] := r][t.rc[p] := r][p := NIL])
  }

  ghost predicate Renamed(sub: seq<set<int>>, sub': seq<set<int>>, p: int, r: int) {
    && |sub| == |sub'| == N + 257 && 0 <= p < N && 0 <= r < N
    && forall z, y {:trigger y in sub'[z]} {:trigger y in sub[z]} :: 0 <= z < N + 257 ==>
         (y in sub'[z] <==>
           if z == p then false
           else if z == r then y == r || (y in sub[p] && y != p)
           else (y in sub[z] && y != p) || (y == r && p in sub[z]))
  }

  /** r's key fits where p's key was. */
  ghost predicate Fits(sub: seq<set<int>>, key: seq<int>, home: seq<int>, p: int, r: int)
    requires |sub| == N + 257 && |key| == N && |home| == N && 0 <= p < N && 0 <= r < N
  {
    && home[r] == home[p]
    && forall y {:trigger y in sub[p]} {:trigger p in sub[y]} ::
         Live(sub, y) && y != p && (y in sub[p] || p in sub[y]) ==>
         key[r] != key[y] && (key[y] < key[p] <==> key[y] < key[r])
  }

  ghost predicate CanReplace(t: Links, sub: seq<set<int>>, sub': seq<set<int>>, key: seq<int>, home: seq<int>, p: int,
                             r: int) {
    && Tree(t, sub, key, home) && Live(sub, p) && 0 <= r < N && !Live(sub, r)
    && Fits(sub, key, home, p, r) && Renamed(sub, sub', p, r)
  }

  lemma ReplaceMembers(t: Links, sub: seq<set<int>>, sub': seq<set<int>>, key: seq<int>, home: seq<int>, p: int, r: int)
    requires CanReplace(t, sub, sub', key, home, p, r)
    ensures Sized(Replace(t, p, r), sub', key, home) && Members(Replace(t, p, r), sub', key, home)
  {
    forall y ensures y !in sub'[NIL] {
      assert y !in sub[NIL];
    }
  }

  lemma ReplaceLeftIsSmaller(t: Links, sub: seq<set<int>>, sub': seq<set<int>>, key: seq<int>, home: seq<int>, p: int,
                             r: int)
    requires CanReplace(t, sub, sub', key, home, p, r)
    requires Sized(Replace(t, p, r), sub', key, home)
    ensures LeftIsSmaller(Replace(t, p, r), sub', key, home)
  {}

  lemma ReplaceRightIsLarger(t: Links, sub: seq<set<int>>, sub': seq<set<int>>, key: seq<int>, home: seq<int>, p: int,
                             r: int)
    requires CanReplace(t, sub, sub', key, home, p, r)
    requires Sized(Replace(t, p, r), sub', key, home)
    ensures RightIsLarger(Replace(t, p, r), sub', key, home)
  {}

  lemma ReplaceRootHoldsAll(t: Links, sub: seq<set<int>>, sub': seq<set<int>>, key: seq<int>, home: seq<int>, p: int,
                            r: int)
    requires CanReplace(t, sub, sub', key, home, p, r)
    requires Sized(Replace(t, p, r), sub', key, home)
    ensures RootHoldsAll(Replace(t, p, r), sub', key, home)
  {}

  lemma ReplaceKeysDiffer(t: Links, sub: seq<set<int>>, sub': seq<set<int>>, key: seq<int>, home: seq<int>, p: int,
                          r: int)
    requires CanReplace(t, sub, sub', key, home, p, r)
    requires Sized(Replace(t, p, r), sub', key, home)
    ensures KeysDiffer(Replace(t, p, r), sub', key, home)
  {}

  lemma ReplaceLinkedDown(t: Links, sub: seq<set<int>>, sub': seq<set<int>>, key: seq<int>, home: seq<int>, p: int,
                          r: int)
    requires CanReplace(t, sub, sub', key, home, p, r)
    requires Sized(Replace(t, p, r), sub', key, home)
    ensures LinkedDown(Replace(t, p, r), sub', key, home)
  {
    ReplaceLinkedLeft(t, sub, sub', key, home, p, r);
    ReplaceLinkedRight(t, sub, sub', key, home, p, r);
  }

  lemma ReplaceLinkedLeft(t: Links, sub: seq<set<int>>, sub': seq<set<int>>, key: seq<int>, home: seq<int>, p: int,
                          r: int)
    requires CanReplace(t, sub, sub', key, home, p, r)
    ensures var t' := Replace(t, p, r);
            forall z {:trigger t'.lc[z]} :: Live(sub', z) && t'.lc[z] != NIL ==>
              0 <= t'.lc[z] < N && Live(sub', t'.lc[z]) && t'.par[t'.lc[z]] == z
  {}

  lemma ReplaceLinkedRight(t: Links, sub: seq<set<int>>, sub': seq<set<int>>, key: seq<int>, home: seq<int>, p: int,
                           r: int)
    requires CanReplace(t, sub, sub', key, home, p, r)
    ensures var t' := Replace(t, p, r);
            forall z {:trigger t'.rc[z]} :: (Live(sub', z) || N < z < N + 257) && t'.rc[z] != NIL ==>
              0 <= t'.rc[z] < N && Live(sub', t'.rc[z]) && t'.par[t'.rc[z]] == z
  {}

  lemma ReplaceLinkedUp(t: Links, sub: seq<set<int>>, sub': seq<set<int>>, key: seq<int>, home: seq<int>, p: int,
                        r: int)
    requires CanReplace(t, sub, sub', key, home, p, r)
    requires Sized(Replace(t, p, r), sub', key, home)
    ensures LinkedUp(Replace(t, p, r), sub', key, home)
  {}

  lemma ReplaceClosedUpwards(t: Links, sub: seq<set<int>>, sub': seq<set<int>>, key: seq<int>, home: seq<int>, p: int,
                             r: int)
    requires CanReplace(t, sub, sub', key, home, p, r)
    requires Sized(Replace(t, p, r), sub', key, home)
    ensures ClosedUpwards(Replace(t, p, r), sub', key, home)
  {}

  lemma ReplaceKeepsTree(t: Links, sub: seq<set<int>>, sub': seq<set<int>>, key: seq<int>, home: seq<int>, p: int,
                         r: int)
    requires CanReplace(t, sub, sub', key, home, p, r)
    ensures Tree(Replace(t, p, r), sub', key, home)
  {
    ReplaceMembers(t, sub, sub', key, home, p, r);
    ReplaceLeftIsSmaller(t, sub, sub', key, home, p, r);
    ReplaceRightIsLarger(t, sub, sub', key, home, p, r);
    ReplaceRootHoldsAll(t, sub, sub', key, home, p, r);
    ReplaceKeysDiffer(t, sub, sub', key, home, p, r);
    ReplaceLinkedDown(t, sub, sub', key, home, p, r);
    ReplaceLinkedUp(t, sub, sub', key, home, p, r);
    ReplaceClosedUpwards(t, sub, sub', key, home, p, r);
  }

  /** The tree does not depend on the links stored for dead nodes, nor on the parent slot of NIL. */
  lemma DeadLinksAreIrrelevant(t: Links, t': Links, sub: seq<set<int>>, key: seq<int>, home: seq<int>)
    requires Tree(t, sub, key, home) && Shaped(t')
    requires forall x {:trigger t'.lc[x]} :: Live(sub, x) ==> t'.lc[x] == t.lc[x]
    requires forall x {:trigger t'.rc[x]} :: Live(sub, x) || N < x < N + 257 ==> t'.rc[x] == t.rc[x]
    requires forall x {:trigger t'.par[x]} :: 0 <= x < N ==> t'.par[x] == t.par[x]
    ensures Tree(t', sub, key, home)
  {}

  /** Below a node below z is below z. */
  lemma {:induction false} BelowIsTransitive(t: Links, sub: seq<set<int>>, key: seq<int>, home: seq<int>, z: int,
                                             p: int, y: int)
    requires Tree(t, sub, key, home) && 0 <= z < N && p in sub[z] && y in sub[p]
    ensures y in sub[z]
    decreases |sub[z]|
  {
    if p != z {
      var c := if key[p] < key[z] then t.lc[z] else t.rc[z];
      assert p in sub[c] && z !in sub[c];
      assert sub[c] <= sub[z] by {
        forall x | x in sub[c] ensures x in sub[z] {}
      }
      SubsetSmaller(sub[c], sub[z], z);
      BelowIsTransitive(t, sub, key, home, c, p, y);
    }
  }

  lemma SubsetSmaller(a: set<int>, b: set<int>, x: int)
    requires a <= b && x in b && x !in a
    ensures |a| < |b|
  {
    assert b == a + (b - a) && x in b - a;
  }
}
