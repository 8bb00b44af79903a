/**
  The index by which UserPatcher recognises a page: four words at fixed offsets, the first of them at an
  offset where no two stored pages agree if there is one, and a comparison of the whole page at the end.
 */
module PageLookup {
  import opened Optional
  import opened Bytes

  const PAGE_SIZE: int := 4096
  const MATCH_NUM: int := 4

  type Page = p: seq<byte> | |p| == PAGE_SIZE witness seq(PAGE_SIZE, _ => 0)

  predicate IsOffset(off: int) {
    0 <= off && off + 8 <= PAGE_SIZE && off % 8 == 0
  }

  function WordAt(p: Page, off: int): nat
    requires IsOffset(off)
  {
    FromLE64(p[off..off + 8])
  }

  /** The words of all stored pages at one offset. */
  function Column(pages: seq<Page>, off: int): (c: seq<nat>)
    requires IsOffset(off)
    ensures |c| == |pages|
  {
    seq(|pages|, p requires 0 <= p < |pages| => WordAt(pages[p], off))
  }

  ghost predicate Distinct(c: seq<nat>) {
    forall i, j {:trigger c[i], c[j]} :: 0 <= i < j < |c| ==> c[i] != c[j]
  }

  /** Stored pages pairwise differ in the word at off. */
  ghost predicate Separates(pages: seq<Page>, off: int) {
    IsOffset(off) && Distinct(Column(pages, off))
  }

  /** off is the first separating offset, or PAGE_SIZE if there is none. */
  ghost predicate IsFirstSeparating(pages: seq<Page>, off: int) {
    && (off == PAGE_SIZE || Separates(pages, off))
    && forall o {:trigger Separates(pages, o)} :: 0 <= o < off ==> !Separates(pages, o)
  }

  /** Offsets and columns one can search with. */
  predicate Searchable(offs: seq<int>, c: seq<seq<nat>>, n: nat) {
    && |offs| == |c| == MATCH_NUM
    && forall i {:trigger offs[i]} {:trigger c[i]} :: 0 <= i < MATCH_NUM ==> IsOffset(offs[i]) && |c[i]| == n
  }

  /** The offset i words behind the first, past the end of the page from its beginning. */
  function Following(first: int, i: int): int {
    (first + 8 * i) % PAGE_SIZE
  }

  /** How loadLookups comes from one offset to the next, unless it leaves the page. */
  lemma NextOffset(first: int, i: int, off: int)
    requires IsOffset(first) && 1 <= i < MATCH_NUM
    requires off == (if i == 1 then first else Following(first, i - 1) + 8)
             || (i == 1 && off == PAGE_SIZE && first == 0)
    ensures var o := if off == PAGE_SIZE then 0 else off; var o' := if o == first then o + 8 else o;
            && 0 <= o' <= PAGE_SIZE && o' % 8 == 0 && (o' == PAGE_SIZE <==> i == 1 && first == PAGE_SIZE - 8)
            && (o' != PAGE_SIZE ==> o' == Following(first, i))
  {}

  /**
    What loadLookups leaves. The last three columns are those of the three offsets that follow the first, cyclically.
    The first is that of the first separating offset if there is one; if not, its offset is 0 still, while its column
    is the last one looked at.
   */
  ghost predicate Loaded(pages: seq<Page>, offs: seq<int>, c: seq<seq<nat>>, found: bool) {
    && Searchable(offs, c, |pages|)
    && (forall i {:trigger offs[i]} {:trigger c[i]} :: 1 <= i < MATCH_NUM ==>
          offs[i] == Following(offs[0], i) && c[i] == Column(pages, offs[i]))
    && (found ==> c[0] == Column(pages, offs[0]) && offs[0] != PAGE_SIZE && IsFirstSeparating(pages, offs[0]))
    && (!found ==> offs[0] == 0 && c[0] == Column(pages, PAGE_SIZE - 8) && forall o :: !Separates(pages, o))
  }

  class UserPatcher {
    const pages: seq<Page>
    var offs: seq<int>
    var c: seq<seq<nat>>

    constructor (pages: seq<Page>)
      ensures this.pages == pages && offs == [0, 0, 0, 0] && c == [[], [], [], []]
    {
      this.pages := pages;
      offs, c := [0, 0, 0, 0], [[], [], [], []];
    }

    method ObtainValues(off: int) returns (column: seq<nat>)
      requires IsOffset(off)
      ensures column == Column(pages, off)
    {
      column := [];
      var p := 0;
      while p < |pages|
        invariant 0 <= p <= |pages| && column == Column(pages, off)[..p]
      {
        column := column + [WordAt(pages[p], off)];
        p := p + 1;
      }
    }

    /** The first offset that separates the pages, and the last column looked at. */
    method FindOffset() returns (off: int, column: seq<nat>)
      ensures IsFirstSeparating(pages, off)
      ensures column == Column(pages, if off == PAGE_SIZE then PAGE_SIZE - 8 else off)
    {
      off, column := 0, [];
      while off < PAGE_SIZE
        invariant 0 <= off <= PAGE_SIZE && off % 8 == 0
        invariant forall o {:trigger Separates(pages, o)} :: 0 <= o < off ==> !Separates(pages, o)
        invariant off > 0 ==> column == Column(pages, off - 8)
      {
        column := ObtainValues(off);
        var same := HasSameValues(column);
        if !same {
          return;
        }
        off := off + 8;
      }
    }

    /**
      loadLookups on fresh lookups. It reads past the pages exactly when they differ first in their last word;
      the model stops there and reports it.
     */
    method LoadLookups() returns (found: bool, inRange: bool)
      requires offs == [0, 0, 0, 0] && |c| == MATCH_NUM
      modifies this
      ensures found <==> exists o :: Separates(pages, o)
      ensures inRange <==> !IsFirstSeparating(pages, PAGE_SIZE - 8)
      ensures inRange ==> Loaded(pages, offs, c, found)
    {
      var off, column := FindOffset();
      found := off < PAGE_SIZE;
      c := c[0 := column];
      if found {
        offs := offs[0 := off];
      }
      FirstIsUnique(pages, off, PAGE_SIZE - 8);
      inRange := LoadRest(off, found);
    }

    /** The other three columns, at the offsets that follow, the first one's left out. */
    method LoadRest(off0: int, ghost found: bool) returns (inRange: bool)
      requires |offs| == |c| == MATCH_NUM && IsOffset(offs[0]) && |c[0]| == |pages|
      requires off0 == if found then offs[0] else PAGE_SIZE
      requires !found ==> offs[0] == 0
      modifies this
      ensures |offs| == |c| == MATCH_NUM && c[0] == old(c[0]) && offs[0] == old(offs[0])
      ensures inRange <==> offs[0] != PAGE_SIZE - 8
      ensures inRange ==> ColumnsFrom(1, MATCH_NUM)
    {
      var off, i := off0, 1;
      while i < MATCH_NUM
        invariant 1 <= i <= MATCH_NUM && |offs| == |c| == MATCH_NUM && c[0] == old(c[0]) && offs[0] == old(offs[0])
        invariant 0 <= off <= PAGE_SIZE && off % 8 == 0 && (i > 1 ==> offs[0] != PAGE_SIZE - 8)
        invariant off == if i == 1 then off0 else Following(offs[0], i - 1) + 8
        invariant ColumnsFrom(1, i)
      {
        NextOffset(offs[0], i, off);
        if off == PAGE_SIZE {
          off := 0;
        }
        if off == offs[0] {
          off := off + 8;
        }
        if off == PAGE_SIZE {
          return false;
        }
        var column := ObtainValues(off);
        c := c[i := column];
        offs := offs[i := off];
        off := off + 8;
        i := i + 1;
      }
      return true;
    }

    ghost predicate ColumnsFrom(lo: int, hi: int)
      requires 0 <= lo && 0 < hi <= |offs| && hi <= |c|
      reads this
    {
      forall i {:trigger offs[i]} {:trigger c[i]} :: lo <= i < hi ==>
             IsOffset(offs[i]) && offs[i] == Following(offs[0], i) && c[i] == Column(pages, offs[i])
    }

    /** The search in performPagePatch for the stored page to use, with whatever columns there are. */
    method FindPage(ptr: Page) returns (res: Option<nat>)
      requires Searchable(offs, c, |pages|)
      ensures res == Chosen(pages, offs, c, ptr)
    {
      var sz := |pages|;
      if sz == 0 {
        return None;
      }
      var value := WordAt(ptr, offs[0]);
      var maybe := 0;
      while maybe < sz && c[0][maybe] != value
        invariant 0 <= maybe <= sz && FirstWith(c[0], value, 0) == FirstWith(c[0], value, maybe)
      {
        maybe := maybe + 1;
      }
      ghost var first := maybe;
      var i := 1;
      while i < MATCH_NUM && maybe != sz
        invariant 1 <= i <= MATCH_NUM && (maybe == sz || maybe == first)
        invariant maybe != sz ==> WordsAgree(offs, c, ptr, first, i)
        invariant maybe == sz && first < sz ==> !WordsAgree(offs, c, ptr, first, MATCH_NUM)
      {
        value := WordAt(ptr, offs[i]);
        if c[i][maybe] != value {
          maybe := sz;
        }
        i := i + 1;
      }
      if maybe < sz && pages[maybe] == ptr {
        return Some(maybe);
      }
      return None;
    }
  }

  method HasSameValues(c: seq<nat>) returns (same: bool)
    ensures same <==> !Distinct(c)
  {
    var i := 0;
    while i < |c|
      invariant 0 <= i <= |c|
      invariant forall a, b {:trigger c[a], c[b]} :: 0 <= a < i && a < b < |c| ==> c[a] != c[b]
    {
      var j := i + 1;
      while j < |c|
        invariant i < j <= |c|
        invariant forall b {:trigger c[b]} :: i < b < j ==> c[i] != c[b]
      {
        if c[i] == c[j] {
          return true;
        }
        j := j + 1;
      }
      i := i + 1;
    }
    return false;
  }

  lemma FirstIsUnique(pages: seq<Page>, off: int, off': int)
    requires IsFirstSeparating(pages, off) && 0 <= off && 0 <= off' < PAGE_SIZE
    ensures IsFirstSeparating(pages, off') <==> off == off'
  {}

  // ---------- the search against a scan ----------

  /** The first index from i on where c has value, or |c|. */
  function FirstWith(c: seq<nat>, value: nat, i: nat): (k: nat)
    requires i <= |c|
    ensures i <= k <= |c| && (k < |c| ==> c[k] == value)
    ensures forall j :: i <= j < k ==> c[j] != value
    decreases |c| - i
  {
    if i == |c| || c[i] == value then i else FirstWith(c, value, i + 1)
  }

  /** Columns 1 to n - 1 have at p the words of ptr. */
  predicate WordsAgree(offs: seq<int>, c: seq<seq<nat>>, ptr: Page, p: nat, n: int)
    requires |c| == MATCH_NUM && Searchable(offs, c, |c[0]|) && p < |c[0]| && n <= MATCH_NUM
  {
    forall i {:trigger offs[i]} {:trigger c[i]} :: 1 <= i < n ==> c[i][p] == WordAt(ptr, offs[i])
  }

  /** The page the index settles on, if it is ptr. */
  function Chosen(pages: seq<Page>, offs: seq<int>, c: seq<seq<nat>>, ptr: Page): Option<nat>
    requires Searchable(offs, c, |pages|)
  {
    var p := FirstWith(c[0], WordAt(ptr, offs[0]), 0);
    if p < |pages| && WordsAgree(offs, c, ptr, p, MATCH_NUM) && pages[p] == ptr then Some(p) else None
  }

  /** What a scan comparing whole pages finds first. */
  function Scan(pages: seq<Page>, ptr: Page, i: nat): (r: Option<nat>)
    requires i <= |pages|
    ensures r.Some? ==>
            i <= r.value < |pages| && pages[r.value] == ptr && forall j :: i <= j < r.value ==> pages[j] != ptr
    ensures r.None? ==> forall j :: i <= j < |pages| ==> pages[j] != ptr
    decreases |pages| - i
  {
    if i == |pages| then None else if pages[i] == ptr then Some(i) else Scan(pages, ptr, i + 1)
  }

  /** k is the first place of its page. */
  predicate IsFirstPlace(pages: seq<Page>, k: int) {
    0 <= k < |pages| && forall j :: 0 <= j < k ==> pages[j] != pages[k]
  }

  /** Every page has its own first word as its last word, and no page before its first place ends with that word. */
  ghost predicate EdgesIdentify(pages: seq<Page>) {
    forall k {:trigger pages[k]} :: IsFirstPlace(pages, k) ==>
      && WordAt(pages[k], PAGE_SIZE - 8) == WordAt(pages[k], 0)
      && forall j {:trigger pages[j]} :: 0 <= j < k ==> WordAt(pages[j], PAGE_SIZE - 8) != WordAt(pages[k], 0)
  }

  /** The first column leads each page to its first place. */
  ghost predicate LeadsToFirst(pages: seq<Page>, off: int, c: seq<nat>)
    requires IsOffset(off) && |c| == |pages|
  {
    forall k {:trigger pages[k]} :: IsFirstPlace(pages, k) ==> FirstWith(c, WordAt(pages[k], off), 0) == k
  }

  lemma ChosenIfLed(pages: seq<Page>, offs: seq<int>, c: seq<seq<nat>>, found: bool, ptr: Page)
    requires Loaded(pages, offs, c, found) && LeadsToFirst(pages, offs[0], c[0])
    ensures Chosen(pages, offs, c, ptr) == Scan(pages, ptr, 0)
  {
    var r := Scan(pages, ptr, 0);
    if r.Some? {
      var k := r.value;
      assert IsFirstPlace(pages, k);
      forall i | 1 <= i < MATCH_NUM ensures c[i][k] == WordAt(ptr, offs[i]) {
        assert c[i] == Column(pages, offs[i]);
      }
    }
  }

  lemma LedIfChosen(pages: seq<Page>, offs: seq<int>, c: seq<seq<nat>>, k: nat)
    requires Searchable(offs, c, |pages|) && IsFirstPlace(pages, k)
    requires Chosen(pages, offs, c, pages[k]) == Scan(pages, pages[k], 0)
    ensures FirstWith(c[0], WordAt(pages[k], offs[0]), 0) == k
  {
    var r := Scan(pages, pages[k], 0);
    assert r.Some? && r.value == k;
  }

  lemma FoundLeads(pages: seq<Page>, off: int)
    requires Separates(pages, off)
    ensures LeadsToFirst(pages, off, Column(pages, off))
  {
    var c := Column(pages, off);
    forall k | IsFirstPlace(pages, k) ensures FirstWith(c, WordAt(pages[k], off), 0) == k {
      assert c[k] == WordAt(pages[k], off);
    }
  }

  /** When no offset separates the pages, the edges of the pages decide. */
  lemma UnfoundLeads(pages: seq<Page>)
    ensures LeadsToFirst(pages, 0, Column(pages, PAGE_SIZE - 8)) <==> EdgesIdentify(pages)
  {
    var c := Column(pages, PAGE_SIZE - 8);
    forall k | IsFirstPlace(pages, k)
      ensures FirstWith(c, WordAt(pages[k], 0), 0) == k <==>
              && WordAt(pages[k], PAGE_SIZE - 8) == WordAt(pages[k], 0)
              && forall j {:trigger pages[j]} :: 0 <= j < k ==> WordAt(pages[j], PAGE_SIZE - 8) != WordAt(pages[k], 0)
    {
      EdgeOf(pages, c, k);
    }
  }

  lemma EdgeOf(pages: seq<Page>, c: seq<nat>, k: nat)
    requires c == Column(pages, PAGE_SIZE - 8) && k < |pages|
    ensures FirstWith(c, WordAt(pages[k], 0), 0) == k <==>
            && WordAt(pages[k], PAGE_SIZE - 8) == WordAt(pages[k], 0)
            && forall j {:trigger pages[j]} :: 0 <= j < k ==> WordAt(pages[j], PAGE_SIZE - 8) != WordAt(pages[k], 0)
  {
    var w := WordAt(pages[k], 0);
    forall j | 0 <= j < |pages| ensures c[j] == WordAt(pages[j], PAGE_SIZE - 8) {}
    if FirstWith(c, w, 0) == k {
      forall j | 0 <= j < k ensures WordAt(pages[j], PAGE_SIZE - 8) != w {
        assert c[j] != w;
      }
    }
  }

  /**
    In every state loadLookups leaves, the index finds what the scan finds for every page exactly when a
    separating offset was found or the edges of the pages identify them.
   */
  lemma LookupIsScan(pages: seq<Page>, offs: seq<int>, c: seq<seq<nat>>, found: bool)
    requires Loaded(pages, offs, c, found)
    ensures (forall ptr: Page :: Chosen(pages, offs, c, ptr) == Scan(pages, ptr, 0)) <==> found || EdgesIdentify(pages)
  {
    if found {
      FoundLeads(pages, offs[0]);
    } else {
      UnfoundLeads(pages);
    }
    if LeadsToFirst(pages, offs[0], c[0]) {
      forall ptr: Page ensures Chosen(pages, offs, c, ptr) == Scan(pages, ptr, 0) {
        ChosenIfLed(pages, offs, c, found, ptr);
      }
    }
    if forall ptr: Page :: Chosen(pages, offs, c, ptr) == Scan(pages, ptr, 0) {
      forall k | IsFirstPlace(pages, k) ensures FirstWith(c[0], WordAt(pages[k], offs[0]), 0) == k {
        LedIfChosen(pages, offs, c, k);
      }
    }
  }

  lemma TwinsAreAlike(p: Page, off: int)
    ensures !Separates([p, p], off)
  {
    if IsOffset(off) {
      var c := Column([p, p], off);
      assert c[0] == WordAt(p, off) && c[1] == WordAt(p, off);
    }
  }

  /** Two copies of a page whose first and last word differ: not even the first of them is found. */
  lemma TwinPagesAreMissed(p: Page, offs: seq<int>, c: seq<seq<nat>>, found: bool)
    requires WordAt(p, 0) != WordAt(p, PAGE_SIZE - 8) && Loaded([p, p], offs, c, found)
    ensures !found && Scan([p, p], p, 0) == Some(0) && Chosen([p, p], offs, c, p) == None
  {
    var pages := [p, p];
    TwinsAreAlike(p, offs[0]);
    var last := Column(pages, PAGE_SIZE - 8);
    assert last[0] == WordAt(p, PAGE_SIZE - 8) && last[1] == WordAt(p, PAGE_SIZE - 8);
  }

  /** Two pages that differ in their last word alone: loadLookups reads past them. */
  lemma LastWordSeparates() returns (pages: seq<Page>)
    ensures |pages| == 2 && IsFirstSeparating(pages, PAGE_SIZE - 8)
  {
    var p: Page := seq(PAGE_SIZE, _ => 0);
    var q: Page := seq(PAGE_SIZE, i => if i == PAGE_SIZE - 8 then 1 else 0);
    pages := [p, q];
    forall o | 0 <= o < PAGE_SIZE - 8 ensures !Separates(pages, o) {
      if IsOffset(o) {
        assert p[o..o + 8] == q[o..o + 8];
        assert Column(pages, o)[0] == Column(pages, o)[1];
      }
    }
    LastWordsDiffer(p, q);
  }

  lemma LastWordsDiffer(p: Page, q: Page)
    requires p[PAGE_SIZE - 8] == 0 && q[PAGE_SIZE - 8] == 1
    requires forall i {:trigger p[i]} {:trigger q[i]} :: PAGE_SIZE - 8 < i < PAGE_SIZE ==> p[i] == q[i] == 0
    ensures Separates([p, q], PAGE_SIZE - 8)
  {
    var v, w, c := p[PAGE_SIZE - 8..PAGE_SIZE], q[PAGE_SIZE - 8..PAGE_SIZE], Column([p, q], PAGE_SIZE - 8);
    assert v == [0, 0, 0, 0, 0, 0, 0, 0] && w == [1, 0, 0, 0, 0, 0, 0, 0];
    assert FromLE64(v) == 0 && FromLE64(w) == 1;
    assert c == [WordAt(p, PAGE_SIZE - 8), WordAt(q, PAGE_SIZE - 8)];
  }

  /** Such a page. */
  lemma UnevenPage() returns (p: Page)
    ensures WordAt(p, 0) != WordAt(p, PAGE_SIZE - 8)
  {
    p := seq(PAGE_SIZE, i => if i == 0 then 1 else 0);
    assert p[0..8][0] == 1;
    assert p[PAGE_SIZE - 8..PAGE_SIZE] == [0, 0, 0, 0, 0, 0, 0, 0];
    var w := p[0..8];
    assert w[..4][0] == 1;
  }
}
