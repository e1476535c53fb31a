/**
 What handing out a sequence of pages does to a vector of range headers, independent of
 the order in which the allocator happens to visit them.
 */
module PmmTrace {
  import opened Common
  import opened PmmHeader

  /** A physical range: its header page sits at `base`, its `length` pages follow. */
  datatype Range = Range(base: nat, length: nat)

  /** Page p of range r. */
  datatype Page = Page(r: nat, p: nat)

  function Address(ranges: seq<Range>, g: Page): nat
    requires g.r < |ranges|
  {
    ranges[g.r].base + (g.p + 1) * PAGE
  }

  ghost predicate AllInv(ranges: seq<Range>, hs: seq<Header>) {
    |hs| == |ranges| && forall r :: 0 <= r < |hs| ==> Inv(hs[r], ranges[r].length)
  }

  ghost predicate IsPage(ranges: seq<Range>, g: Page) {
    g.r < |ranges| && g.p < ranges[g.r].length
  }

  ghost predicate Used(hs: seq<Header>, g: Page) {
    g.r < |hs| && Shape(hs[g.r]) && g.p < MAX_SIZE && hs[g.r].bits[0][g.p]
  }

  /** The headers after one page was handed out. */
  ghost function Mark(hs: seq<Header>, g: Page): (hs': seq<Header>)
    ensures |hs'| == |hs|
  {
    if g.r < |hs| && Shape(hs[g.r]) && g.p < MAX_SIZE then hs[g.r := AllocPage(hs[g.r], g.p)] else hs
  }

  ghost function After(hs: seq<Header>, pages: seq<Page>): (hs': seq<Header>)
    ensures |hs'| == |hs|
  {
    if pages == [] then hs else Mark(After(hs, pages[..|pages| - 1]), pages[|pages| - 1])
  }

  /** Every page was free when it was handed out. */
  ghost predicate Legal(ranges: seq<Range>, hs: seq<Header>, pages: seq<Page>) {
    pages == [] ||
    (var init, g := pages[..|pages| - 1], pages[|pages| - 1];
     Legal(ranges, hs, init) && IsPage(ranges, g) && !Used(After(hs, init), g))
  }

  lemma Extend(ranges: seq<Range>, hs: seq<Header>, pages: seq<Page>, g: Page)
    requires Legal(ranges, hs, pages) && IsPage(ranges, g) && !Used(After(hs, pages), g)
    ensures Legal(ranges, hs, pages + [g])
    ensures After(hs, pages + [g]) == Mark(After(hs, pages), g)
  {
    assert (pages + [g])[..|pages + [g]| - 1] == pages;
  }

  lemma {:induction false} LegalInv(ranges: seq<Range>, hs: seq<Header>, pages: seq<Page>)
    requires AllInv(ranges, hs) && Legal(ranges, hs, pages)
    ensures AllInv(ranges, After(hs, pages))
  {
    if pages != [] {
      var init, g := pages[..|pages| - 1], pages[|pages| - 1];
      LegalInv(ranges, hs, init);
      AllocInv(After(hs, init)[g.r], ranges[g.r].length, g.p);
    }
  }

  lemma UsedAfterMark(ranges: seq<Range>, hs: seq<Header>, g: Page, x: Page)
    requires AllInv(ranges, hs) && IsPage(ranges, g)
    ensures Used(Mark(hs, g), x) <==> x == g || Used(hs, x)
  {
    assert Inv(hs[g.r], ranges[g.r].length);
  }

  /** After a legal trace, exactly the old allocated pages and the traced pages are allocated. */
  lemma {:induction false} UsedAfter(ranges: seq<Range>, hs: seq<Header>, pages: seq<Page>, x: Page)
    requires AllInv(ranges, hs) && Legal(ranges, hs, pages)
    ensures Used(After(hs, pages), x) <==> Used(hs, x) || x in pages
  {
    if pages != [] {
      var init, g := pages[..|pages| - 1], pages[|pages| - 1];
      UsedAfter(ranges, hs, init, x);
      LegalInv(ranges, hs, init);
      UsedAfterMark(ranges, After(hs, init), g, x);
      assert pages == init + [g];
    }
  }

  /** A legal trace hands out pairwise distinct pages, all of them free beforehand. */
  lemma {:induction false} LegalDistinct(ranges: seq<Range>, hs: seq<Header>, pages: seq<Page>)
    requires AllInv(ranges, hs) && Legal(ranges, hs, pages)
    ensures Distinct(pages)
    ensures forall g :: g in pages ==> IsPage(ranges, g) && !Used(hs, g)
  {
    if pages != [] {
      var init, g := pages[..|pages| - 1], pages[|pages| - 1];
      LegalDistinct(ranges, hs, init);
      UsedAfter(ranges, hs, init, g);
      assert pages == init + [g];
    }
  }

  // ---- counting free pages over ranges --------------------------------------------

  /** Free pages, by the level-0 counters, over the ranges in s. */
  ghost function FreeIn(hs: seq<Header>, s: set<nat>): int {
    if hs == [] then 0
    else
      var n := |hs| - 1;
      FreeIn(hs[..n], s) + if n in s && |hs[n].avail| == 4 then hs[n].avail[0] else 0
  }

  ghost function Indices(n: nat): (s: set<nat>)
    ensures forall r: nat :: r in s <==> r < n
  {
    if n == 0 then {} else Indices(n - 1) + {n - 1}
  }

  lemma {:induction false} FreeInMark(hs: seq<Header>, s: set<nat>, r: nat, h: Header)
    requires r < |hs| && |hs[r].avail| == 4 && |h.avail| == 4
    ensures FreeIn(hs[r := h], s) == FreeIn(hs, s) + if r in s then h.avail[0] - hs[r].avail[0] else 0
  {
    var n := |hs| - 1;
    if r == n {
      assert hs[r := h][..n] == hs[..n];
    } else {
      FreeInMark(hs[..n], s, r, h);
      assert hs[r := h][..n] == hs[..n][r := h];
    }
  }

  lemma {:induction false} FreeInDrop(hs: seq<Header>, s: set<nat>, r: nat)
    requires r < |hs| && |hs[r].avail| == 4 && r in s
    ensures FreeIn(hs, s - {r}) == FreeIn(hs, s) - hs[r].avail[0]
  {
    var n := |hs| - 1;
    if r < n {
      FreeInDrop(hs[..n], s, r);
    } else {
      FreeInSame(hs[..n], s, s - {r});
    }
  }

  lemma {:induction false} FreeInSame(hs: seq<Header>, s: set<nat>, t: set<nat>)
    requires forall r: nat :: r < |hs| ==> (r in s <==> r in t) || (|hs[r].avail| == 4 && hs[r].avail[0] == 0)
    ensures FreeIn(hs, s) == FreeIn(hs, t)
  {
    if hs != [] {
      FreeInSame(hs[..|hs| - 1], s, t);
    }
  }

  lemma AvailNat(h: Header, length: nat, k: Level)
    requires Inv(h, length)
    ensures 0 <= h.avail[k]
  {
    assert h.avail[k] == Clear(h.bits[k], Blocks(k, length));
  }

  lemma {:induction false} FreeInNat(ranges: seq<Range>, hs: seq<Header>, s: set<nat>)
    requires AllInv(ranges, hs)
    ensures 0 <= FreeIn(hs, s) <= FreeIn(hs, Indices(|hs|))
  {
    if hs != [] {
      var n := |hs| - 1;
      AvailNat(hs[n], ranges[n].length, 0);
      FreeInNat(ranges[..n], hs[..n], s);
      FreeInSame(hs[..n], Indices(n), Indices(n + 1));
    }
  }

  /** Handing out |pages| pages of ranges in s lowers their free count by exactly |pages|. */
  lemma {:induction false} FreeInAfter(ranges: seq<Range>, hs: seq<Header>, pages: seq<Page>, s: set<nat>)
    requires AllInv(ranges, hs) && Legal(ranges, hs, pages)
    requires forall g :: g in pages ==> g.r in s
    ensures FreeIn(After(hs, pages), s) == FreeIn(hs, s) - |pages|
  {
    if pages != [] {
      var init, g := pages[..|pages| - 1], pages[|pages| - 1];
      FreeInAfter(ranges, hs, init, s);
      LegalInv(ranges, hs, init);
      var m := After(hs, init);
      assert Inv(m[g.r], ranges[g.r].length);
      FreeInMark(m, s, g.r, AllocPage(m[g.r], g.p));
      assert g in pages;
    }
  }
}
