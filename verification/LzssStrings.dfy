/**
  The strings the search trees are ordered by: F bytes starting at a node's position. A string is
  read as a number, most significant byte first, so that lexicographic order is the order of numbers.
 */
module LzssStrings {
  import opened LzssTree
  import opened Bytes

  const F: int := 18

  /** The length of text_buf: the ring, and the mirror of its first F - 1 bytes behind it. */
  const TEXT: int := N + F - 1

  function Value(s: seq<byte>): nat {
    if s == [] then 0 else 256 * Value(s[..|s| - 1]) + s[|s| - 1]
  }

  function CommonPrefix(a: seq<byte>, b: seq<byte>): (i: nat)
    ensures i <= |a| && i <= |b| && a[..i] == b[..i]
    ensures i < |a| && i < |b| ==> a[i] != b[i]
  {
    if a == [] || b == [] || a[0] != b[0] then 0 else 1 + CommonPrefix(a[1..], b[1..])
  }

  lemma {:induction false} ValueOrder(a: seq<byte>, b: seq<byte>, i: nat)
    requires |a| == |b| && i < |a| && a[..i] == b[..i] && a[i] < b[i]
    ensures Value(a) < Value(b)
  {
    var m := |a| - 1;
    if i < m {
      assert a[..m][..i] == a[..i] && b[..m][..i] == b[..i];
      ValueOrder(a[..m], b[..m], i);
    }
  }

  lemma PrefixAgrees(a: seq<byte>, b: seq<byte>, i: nat)
    requires i <= |a| && i <= |b| && a[..i] == b[..i]
    ensures forall k :: 0 <= k < i ==> a[k] == b[k]
  {
    forall k | 0 <= k < i ensures a[k] == b[k] {
      assert a[..i][k] == b[..i][k];
    }
  }

  lemma CommonPrefixIs(a: seq<byte>, b: seq<byte>, i: nat)
    requires i <= |a| && i <= |b| && a[..i] == b[..i]
    requires i < |a| && i < |b| ==> a[i] != b[i]
    requires |a| == |b|
    ensures CommonPrefix(a, b) == i
  {
    PrefixAgrees(a, b, i);
    PrefixAgrees(a, b, CommonPrefix(a, b));
  }

  /** A string between two others shares at least as much with each of them as they share with each other. */
  lemma BetweenSharesMore(y: seq<byte>, p: seq<byte>, r: seq<byte>)
    requires |y| == |p| == |r|
    requires Value(y) < Value(p) < Value(r) || Value(r) < Value(p) < Value(y)
    ensures CommonPrefix(r, y) <= CommonPrefix(r, p)
  {
    var i, j := CommonPrefix(r, y), CommonPrefix(r, p);
    PrefixAgrees(r, y, i);
    if j < i {
      assert r[..j] == y[..j];
      if p[j] < r[j] {
        ValueOrder(p, r, j);
        ValueOrder(p, y, j);
      } else {
        ValueOrder(r, p, j);
        ValueOrder(y, p, j);
      }
      assert false;
    }
  }
}
