/** What a list of units says about a text, independently of the encoder that sent them. */
module LzssMeaning {
  import opened LzssTree
  import opened LzssStrings
  import opened Bytes
  import opened LzssFormat
  import opened LzssCodeBuffer

  /** Whatever the decoder's ring starts with, the units expand to the text up to E. */
  ghost predicate Means(us: seq<Unit>, text: seq<byte>, E: int) {
    && ValidUnits(us) && 0 <= E <= |text|
    && forall junk: seq<byte> {:trigger Expand(junk, Spaces(), us)} :: |junk| == N ==>
       Expand(junk, Spaces(), us) == text[..E]
  }

  /** From text position R, the unit leads to position E. */
  ghost predicate Leads(u: Unit, text: seq<byte>, R: int, E: int) {
    && ValidUnit(u) && 0 <= R <= E <= |text|
    && forall junk: seq<byte> {:trigger Apply(junk, text[..R], u)} :: |junk| == N ==>
       Apply(junk, text[..R], u) == text[..E]
  }

  lemma MeansAppend(us: seq<Unit>, u: Unit, text: seq<byte>, R: int, E: int)
    requires Means(us, text, R) && Leads(u, text, R, E)
    ensures Means(us + [u], text, E)
  {
    forall junk: seq<byte> | |junk| == N
      ensures ValidUnits(us + [u]) && Expand(junk, Spaces(), us + [u]) == text[..E]
    {
      ExpandAppend(junk, Spaces(), us, u);
      assert Expand(junk, Spaces(), us) == text[..R];
    }
    var zeros: seq<byte> := seq(N, _ => 0);
    assert ValidUnits(us + [u]) by {
      ExpandAppend(zeros, Spaces(), us, u);
    }
  }

  /** The packed units of a text prefix are at most one ninth longer than the prefix. */
  lemma MeansIsBounded(us: seq<Unit>, src: seq<byte>, E: int)
    requires Means(us, Spaces() + src, E) && E >= N - F
    ensures |Pack(us)| <= Bound(|src|)
  {
    var zeros: seq<byte> := seq(N, _ => 0);
    assert Expand(zeros, Spaces(), us) == (Spaces() + src)[..E];
    PackIsBounded(zeros, us, E - (N - F));
  }

  lemma MeansDecodes(us: seq<Unit>, src: seq<byte>)
    requires Complete(us, src)
    ensures forall junk: seq<byte> | |junk| == N :: Decode(junk, Pack(us), |src|) == src
  {
    var text := Spaces() + src;
    ParsePack(us);
    forall junk: seq<byte> | |junk| == N ensures Decode(junk, Pack(us), |src|) == src {
      assert Expand(junk, Spaces(), us) == text[..N - F + |src|] == text;
      assert text[N - F..] == src;
    }
  }

  /** The units of a whole source. */
  ghost predicate Complete(us: seq<Unit>, src: seq<byte>) {
    Means(us, Spaces() + src, N - F + |src|)
  }

  /** Units of the beginning of a source that already exceed the capacity. */
  ghost predicate TooLong(us: seq<Unit>, src: seq<byte>, capacity: int) {
    && ValidUnits(us) && |Pack(us)| > capacity
    && exists E {:trigger Means(us, Spaces() + src, E)} :: N - F <= E && Means(us, Spaces() + src, E)
  }

  lemma TooLongIsBounded(us: seq<Unit>, src: seq<byte>, capacity: int)
    requires TooLong(us, src, capacity)
    ensures capacity < Bound(|src|)
  {
    var E :| N - F <= E && Means(us, Spaces() + src, E);
    MeansIsBounded(us, src, E);
  }

  lemma SomethingSent(us: seq<Unit>, src: seq<byte>)
    requires Complete(us, src) && src != []
    ensures us != [] && |Pack(us)| > 0
  {
    var zeros: seq<byte> := seq(N, _ => 0);
    assert Expand(zeros, Spaces(), us) == (Spaces() + src)[..N - F + |src|];
    PackLength(us);
    BodiesLength(us);
  }
}
