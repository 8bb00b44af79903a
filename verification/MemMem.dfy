/**
  lilu_os_memchr and lilu_os_memmem: word-at-a-time byte search, rolling windows for needles of
  two to four bytes, and the two-way search for longer ones.
 */
module MemMem {
  import opened BitBytes
  import opened Optional
  import opened ByteWords
  import opened TwoWaySearch

  /** base is the address of src; words are read only at aligned addresses. */
  method MemChr(src: seq<Byte>, base: nat, c: Byte) returns (r: Option<nat>)
    ensures match r
            case Some(i) => i < |src| && src[i] == c && c !in src[..i]
            case None => c !in src
  {
    var i: nat := 0;
    while (base + i) % WORD != 0 && i < |src| && src[i] != c
      invariant i <= |src| && c !in src[..i]
      decreases |src| - i
    {
      i := i + 1;
    }
    if i < |src| && src[i] != c {
      assert (base + i) % WORD == 0;
      while |src| - i >= WORD
        invariant i <= |src| && c !in src[..i]
        invariant (base + i) % WORD == 0
      {
        var hit := WordHolds(src[i..i + WORD], c);
        if hit {
          break;
        }
        assert src[..i + WORD] == src[..i] + src[i..i + WORD];
        i := i + WORD;
      }
    }
    while i < |src| && src[i] != c
      invariant i <= |src| && c !in src[..i]
    {
      i := i + 1;
    }
    if i < |src| {
      return Some(i);
    }
    assert src[..i] == src;
    return None;
  }

  function Pack2(a0: Byte, a1: Byte): bv16 {
    ((a0 as bv16) << 8) | (a1 as bv16)
  }

  lemma Pack2Injective(a0: Byte, a1: Byte, b0: Byte, b1: Byte)
    ensures Pack2(a0, a1) == Pack2(b0, b1) <==> a0 == b0 && a1 == b1
  {}

  /** Rolling the window by one byte drops the oldest byte and takes in b. */
  lemma Pack2Rolls(a0: Byte, a1: Byte, b: Byte)
    ensures (Pack2(a0, a1) << 8) | (b as bv16) == Pack2(a1, b)
  {}

  lemma TwoMatch(h: seq<Byte>, n: seq<Byte>, i: nat)
    requires |n| == 2 && i + 2 <= |h|
    ensures MatchAt(h, n, i) <==> n[0] == h[i] && n[1] == h[i + 1]
  {
    assert h[i..i + 2] == [h[i], h[i + 1]];
  }

  /** The last place a match can start. */
  lemma LastWindow(h: seq<Byte>, n: seq<Byte>, i: nat)
    requires NoMatchBelow(h, n, i) && i + |n| == |h|
    ensures IsFirstMatch(h, n, if MatchAt(h, n, i) then Some(i) else None)
  {
    forall j: nat | i < j ensures !MatchAt(h, n, j) {}
  }

  method TwoByte(h: seq<Byte>, n: seq<Byte>) returns (r: Option<nat>)
    requires |n| == 2 <= |h|
    ensures IsFirstMatch(h, n, r)
  {
    var nw, hw := Pack2(n[0], n[1]), Pack2(h[0], h[1]);
    var i: nat := 2;
    while i < |h|
      invariant 2 <= i <= |h| && hw == Pack2(h[i - 2], h[i - 1])
      invariant NoMatchBelow(h, n, i - 2)
    {
      Pack2Injective(n[0], n[1], h[i - 2], h[i - 1]);
      TwoMatch(h, n, i - 2);
      if hw == nw {
        return Some(i - 2);
      }
      Pack2Rolls(h[i - 2], h[i - 1], h[i]);
      hw := (hw << 8) | (h[i] as bv16);
      i := i + 1;
    }
    Pack2Injective(n[0], n[1], h[i - 2], h[i - 1]);
    TwoMatch(h, n, i - 2);
    LastWindow(h, n, i - 2);
    return if hw == nw then Some(i - 2) else None;
  }

  function Pack3(a0: Byte, a1: Byte, a2: Byte): bv32 {
    ((a0 as bv32) << 24) | ((a1 as bv32) << 16) | ((a2 as bv32) << 8)
  }

  lemma Pack3Injective(a0: Byte, a1: Byte, a2: Byte, b0: Byte, b1: Byte, b2: Byte)
    ensures Pack3(a0, a1, a2) == Pack3(b0, b1, b2) <==> a0 == b0 && a1 == b1 && a2 == b2
  {}

  /** Rolling the window by one byte drops the oldest byte and takes in b. */
  lemma Pack3Rolls(a0: Byte, a1: Byte, a2: Byte, b: Byte)
    ensures (Pack3(a0, a1, a2) | (b as bv32)) << 8 == Pack3(a1, a2, b)
  {}

  lemma ThreeMatch(h: seq<Byte>, n: seq<Byte>, i: nat)
    requires |n| == 3 && i + 3 <= |h|
    ensures MatchAt(h, n, i) <==> n[0] == h[i] && n[1] == h[i + 1] && n[2] == h[i + 2]
  {
    assert h[i..i + 3] == [h[i], h[i + 1], h[i + 2]];
  }

  method ThreeByte(h: seq<Byte>, n: seq<Byte>) returns (r: Option<nat>)
    requires |n| == 3 <= |h|
    ensures IsFirstMatch(h, n, r)
  {
    var nw, hw := Pack3(n[0], n[1], n[2]), Pack3(h[0], h[1], h[2]);
    var i: nat := 3;
    while i < |h|
      invariant 3 <= i <= |h| && hw == Pack3(h[i - 3], h[i - 2], h[i - 1])
      invariant NoMatchBelow(h, n, i - 3)
    {
      Pack3Injective(n[0], n[1], n[2], h[i - 3], h[i - 2], h[i - 1]);
      ThreeMatch(h, n, i - 3);
      if hw == nw {
        return Some(i - 3);
      }
      Pack3Rolls(h[i - 3], h[i - 2], h[i - 1], h[i]);
      hw := (hw | (h[i] as bv32)) << 8;
      i := i + 1;
    }
    Pack3Injective(n[0], n[1], n[2], h[i - 3], h[i - 2], h[i - 1]);
    ThreeMatch(h, n, i - 3);
    LastWindow(h, n, i - 3);
    return if hw == nw then Some(i - 3) else None;
  }

  function Pack4(a0: Byte, a1: Byte, a2: Byte, a3: Byte): bv32 {
    ((a0 as bv32) << 24) | ((a1 as bv32) << 16) | ((a2 as bv32) << 8) | (a3 as bv32)
  }

  lemma Pack4Injective(a0: Byte, a1: Byte, a2: Byte, a3: Byte, b0: Byte, b1: Byte, b2: Byte, b3: Byte)
    ensures Pack4(a0, a1, a2, a3) == Pack4(b0, b1, b2, b3) <==> a0 == b0 && a1 == b1 && a2 == b2 && a3 == b3
  {}

  /** Rolling the window by one byte drops the oldest byte and takes in b. */
  lemma Pack4Rolls(a0: Byte, a1: Byte, a2: Byte, a3: Byte, b: Byte)
    ensures (Pack4(a0, a1, a2, a3) << 8) | (b as bv32) == Pack4(a1, a2, a3, b)
  {}

  lemma FourMatch(h: seq<Byte>, n: seq<Byte>, i: nat)
    requires |n| == 4 && i + 4 <= |h|
    ensures MatchAt(h, n, i) <==> n[0] == h[i] && n[1] == h[i + 1] && n[2] == h[i + 2] && n[3] == h[i + 3]
  {
    assert h[i..i + 4] == [h[i], h[i + 1], h[i + 2], h[i + 3]];
  }

  method FourByte(h: seq<Byte>, n: seq<Byte>) returns (r: Option<nat>)
    requires |n| == 4 <= |h|
    ensures IsFirstMatch(h, n, r)
  {
    var nw, hw := Pack4(n[0], n[1], n[2], n[3]), Pack4(h[0], h[1], h[2], h[3]);
    var i: nat := 4;
    while i < |h|
      invariant 4 <= i <= |h| && hw == Pack4(h[i - 4], h[i - 3], h[i - 2], h[i - 1])
      invariant NoMatchBelow(h, n, i - 4)
    {
      Pack4Injective(n[0], n[1], n[2], n[3], h[i - 4], h[i - 3], h[i - 2], h[i - 1]);
      FourMatch(h, n, i - 4);
      if hw == nw {
        return Some(i - 4);
      }
      Pack4Rolls(h[i - 4], h[i - 3], h[i - 2], h[i - 1], h[i]);
      hw := (hw << 8) | (h[i] as bv32);
      i := i + 1;
    }
    Pack4Injective(n[0], n[1], n[2], n[3], h[i - 4], h[i - 3], h[i - 2], h[i - 1]);
    FourMatch(h, n, i - 4);
    LastWindow(h, n, i - 4);
    return if hw == nw then Some(i - 4) else None;
  }

  /** Matches of n in h, when n's first byte does not occur before position i. */
  lemma MatchesFromFirstByte(h: seq<Byte>, n: seq<Byte>, i: nat, r: Option<nat>)
    requires n != [] && i <= |h| && n[0] !in h[..i]
    requires IsFirstMatch(h[i..], n, r)
    ensures IsFirstMatch(h, n, if r.Some? then Some(i + r.value) else None)
  {
    forall j: nat
      ensures MatchAt(h, n, j) ==> i <= j
      ensures i <= j ==> (MatchAt(h, n, j) <==> MatchAt(h[i..], n, j - i))
    {
      if MatchAt(h, n, j) {
        assert h[j] == h[j..j + |n|][0];
      }
      if i <= j && j + |n| <= |h| {
        assert h[i..][j - i..j - i + |n|] == h[j..j + |n|];
      }
    }
  }

  lemma OneMatch(h: seq<Byte>, n: seq<Byte>, i: nat)
    requires |n| == 1 && i < |h| && h[i] == n[0] && n[0] !in h[..i]
    ensures IsFirstMatch(h, n, Some(i))
  {
    assert h[i..i + 1] == n;
    forall j: nat | j < i ensures !MatchAt(h, n, j) {
      assert h[j] == h[..i][j];
      assert h[j..j + 1][0] == h[j];
    }
  }

  /** For every haystack and needle the result is the first occurrence, or None when there is none. */
  method Find(h: seq<Byte>, base: nat, n: seq<Byte>) returns (r: Option<nat>)
    ensures IsFirstMatch(h, n, r)
  {
    if n == [] {
      return Some(0);
    }
    if |h| < |n| {
      return None;
    }
    var first := MemChr(h, base, n[0]);
    if first.None? {
      MatchesFromFirstByte(h, n, |h|, None);
      return None;
    }
    var i := first.value;
    if |n| == 1 {
      OneMatch(h, n, i);
      return first;
    }
    var k := h[i..];
    if |k| < |n| {
      r := None;
    } else if |n| == 2 {
      r := TwoByte(k, n);
    } else if |n| == 3 {
      r := ThreeByte(k, n);
    } else if |n| == 4 {
      r := FourByte(k, n);
    } else {
      r := Search(k, n);
    }
    MatchesFromFirstByte(h, n, i, r);
    r := if r.Some? then Some(i + r.value) else None;
  }
}
