/**
 The header of one physical memory range: four bitmaps over blocks of 1, 4, 8 and 16
 pages, and one counter of free blocks per bitmap.

 A bitmap is modelled as the sequence of its bits, least significant bit of byte 0 first;
 PmmBytes relates this to the bytes and masks that the kernel computes with.
 */
module PmmHeader {

  const MAX_SIZE: nat := 16384

  datatype Header = Header(avail: seq<int>, bits: seq<seq<bool>>)

  type Level = k: nat | k < 4

  /** The block of level k that holds page p. */
  function Block(k: Level, p: nat): nat {
    if k == 0 then p else if k == 1 then p / 4 else if k == 2 then p / 8 else p / 16
  }

  /** Pages per block of level k. */
  function Granularity(k: Level): nat {
    if k == 0 then 1 else if k == 1 then 4 else if k == 2 then 8 else 16
  }

  /** Number of bits in the level-k bitmap. */
  function Bits(k: Level): nat {
    if k == 0 then 16384 else if k == 1 then 4096 else if k == 2 then 2048 else 1024
  }

  /** Blocks of level k needed to cover `length` pages; the last one may be partial. */
  function Blocks(k: Level, length: nat): nat {
    if k == 0 then length else if k == 1 then (length + 3) / 4
    else if k == 2 then (length + 7) / 8 else (length + 15) / 16
  }

  /** Number of clear bits among the first n. */
  function Clear(s: seq<bool>, n: nat): (c: nat)
    requires n <= |s|
    ensures c <= n
  {
    if n == 0 then 0 else Clear(s, n - 1) + if s[n - 1] then 0 else 1
  }

  predicate Shape(h: Header) {
    && |h.avail| == 4 && |h.bits| == 4
    && |h.bits[0]| == 16384 && |h.bits[1]| == 4096 && |h.bits[2]| == 2048 && |h.bits[3]| == 1024
  }

  /** Some page of block b of level k is allocated. */
  ghost predicate SomeUsed(h: Header, k: Level, b: nat)
    requires Shape(h)
  {
    exists p: nat :: p < MAX_SIZE && h.bits[0][p] && Block(k, p) == b
  }

  /** A bit of level k is set exactly when some page below it is allocated. */
  ghost predicate Summary(h: Header)
    requires Shape(h)
  {
    forall k: Level, b: nat :: b < |h.bits[k]| ==> (h.bits[k][b] <==> SomeUsed(h, k, b))
  }

  /** Each counter is the number of clear bits of its bitmap inside the range. */
  ghost predicate Counted(h: Header, length: nat)
    requires Shape(h) && length <= MAX_SIZE
  {
    forall k: Level :: h.avail[k] == Clear(h.bits[k], Blocks(k, length))
  }

  /** What the kernel's own debug checkers test, plus: nothing beyond the range is marked. */
  ghost predicate Inv(h: Header, length: nat) {
    && Shape(h) && length <= MAX_SIZE
    && Summary(h)
    && Counted(h, length)
    && forall p: nat :: length <= p < MAX_SIZE ==> !h.bits[0][p]
  }

  /** init_memory_range: a range of `length` pages with every page free. */
  function Fresh(length: nat): (h: Header)
    requires length <= MAX_SIZE
  {
    Header([length, (length + 3) / 4, (length + 7) / 8, (length + 15) / 16],
           [seq(16384, _ => false), seq(4096, _ => false), seq(2048, _ => false), seq(1024, _ => false)])
  }

  /** The counters after page p is marked: one less wherever the covering bit was clear. */
  function AllocAvail(h: Header, p: nat): (avail: seq<int>)
    requires Shape(h) && p < MAX_SIZE
    ensures |avail| == 4
  {
    [h.avail[0] - 1,
     h.avail[1] - (if h.bits[1][p / 4] then 0 else 1),
     h.avail[2] - (if h.bits[2][p / 8] then 0 else 1),
     h.avail[3] - (if h.bits[3][p / 16] then 0 else 1)]
  }

  /** alloc_page_bitmaps as a function of the header. */
  function AllocPage(h: Header, p: nat): (h': Header)
    requires Shape(h) && p < MAX_SIZE
    ensures Shape(h')
  {
    Header(AllocAvail(h, p),
           [h.bits[0][p := true], h.bits[1][p / 4 := true], h.bits[2][p / 8 := true], h.bits[3][p / 16 := true]])
  }

  predicate Quad(s: seq<bool>, b: nat)
    requires 4 * b + 3 < |s|
  {
    s[4 * b] || s[4 * b + 1] || s[4 * b + 2] || s[4 * b + 3]
  }

  predicate Pair(s: seq<bool>, b: nat)
    requires 2 * b + 1 < |s|
  {
    s[2 * b] || s[2 * b + 1]
  }

  /** free_page_bitmaps: each level is re-examined after the level below it was updated. */
  function FreePage(h: Header, p: nat): (h': Header)
    requires Shape(h) && p < MAX_SIZE
    ensures Shape(h')
  {
    var b0 := h.bits[0][p := false];
    var keep1 := Quad(b0, p / 4);
    var b1 := if keep1 then h.bits[1] else h.bits[1][p / 4 := false];
    var keep2 := Pair(b1, p / 8);
    var b2 := if keep2 then h.bits[2] else h.bits[2][p / 8 := false];
    var keep3 := Pair(b2, p / 16);
    var b3 := if keep3 then h.bits[3] else h.bits[3][p / 16 := false];
    Header([h.avail[0] + 1, h.avail[1] + (if keep1 then 0 else 1),
            h.avail[2] + (if keep2 then 0 else 1), h.avail[3] + (if keep3 then 0 else 1)],
           [b0, b1, b2, b3])
  }

  // ---- counting -----------------------------------------------------------------

  lemma {:induction false} ClearUpdate(s: seq<bool>, n: nat, i: nat, v: bool)
    requires n <= |s| && i < |s|
    ensures Clear(s[i := v], n) ==
            Clear(s, n) + (if i < n then (if s[i] then 1 else 0) - (if v then 1 else 0) else 0)
  {
    if n > 0 {
      ClearUpdate(s, n - 1, i, v);
    }
  }

  lemma {:induction false} ClearAllFalse(s: seq<bool>, n: nat)
    requires n <= |s| && forall i :: 0 <= i < n ==> !s[i]
    ensures Clear(s, n) == n
  {
    if n > 0 {
      ClearAllFalse(s, n - 1);
    }
  }

  /** A counter is positive exactly when the bitmap has a clear bit. */
  lemma {:induction false} ClearPositive(s: seq<bool>, n: nat)
    requires n <= |s|
    ensures Clear(s, n) > 0 <==> exists i :: 0 <= i < n && !s[i]
  {
    if n > 0 {
      ClearPositive(s, n - 1);
    }
  }

  // ---- invariant ----------------------------------------------------------------

  lemma BlockBound(k: Level, p: nat, length: nat)
    requires p < length <= MAX_SIZE
    ensures Block(k, p) < Blocks(k, length) <= Bits(k)
  {}

  lemma FreshInv(length: nat)
    requires length <= MAX_SIZE
    ensures Inv(Fresh(length), length)
  {
    var h := Fresh(length);
    forall k: Level ensures h.avail[k] == Clear(h.bits[k], Blocks(k, length)) {
      ClearAllFalse(h.bits[k], Blocks(k, length));
    }
  }

  lemma AllocCounted(h: Header, length: nat, p: nat)
    requires Inv(h, length) && p < length && !h.bits[0][p]
    ensures Counted(AllocPage(h, p), length)
  {
    forall k: Level ensures AllocPage(h, p).avail[k] == Clear(AllocPage(h, p).bits[k], Blocks(k, length)) {
      BlockBound(k, p, length);
      ClearUpdate(h.bits[k], Blocks(k, length), Block(k, p), true);
    }
  }

  lemma AllocSummaryAt(h: Header, p: nat, k: Level, b: nat)
    requires Shape(h) && Summary(h) && p < MAX_SIZE && b < |h.bits[k]|
    ensures AllocPage(h, p).bits[k][b] <==> SomeUsed(AllocPage(h, p), k, b)
  {
    hide AllocAvail;
    var h' := AllocPage(h, p);
    assert h'.bits[0][p] && Block(k, p) < |h.bits[k]|;
    assert h'.bits[k] == h.bits[k][Block(k, p) := true];
    assert h.bits[k][b] <==> SomeUsed(h, k, b);
  }

  lemma AllocSummary(h: Header, p: nat)
    requires Shape(h) && Summary(h) && p < MAX_SIZE
    ensures Summary(AllocPage(h, p))
  {
    forall k: Level, b: nat | b < |AllocPage(h, p).bits[k]|
      ensures AllocPage(h, p).bits[k][b] <==> SomeUsed(AllocPage(h, p), k, b)
    {
      AllocSummaryAt(h, p, k, b);
    }
  }

  /** Marking a free page of the range keeps the whole header invariant. */
  lemma AllocInv(h: Header, length: nat, p: nat)
    requires Inv(h, length) && p < length && !h.bits[0][p]
    ensures Inv(AllocPage(h, p), length)
  {
    AllocCounted(h, length, p);
    AllocSummary(h, p);
  }

  lemma UsedAbove(h: Header, p: nat)
    requires Shape(h) && Summary(h) && p < MAX_SIZE && h.bits[0][p]
    ensures h.bits[1][p / 4] && h.bits[2][p / 8] && h.bits[3][p / 16]
  {}

  /** Level-1 bits summarise four pages, level-2 and level-3 bits two bits of the level below. */
  ghost predicate Stacked(h: Header)
    requires Shape(h)
  {
    && (forall b: nat :: b < 4096 ==> (h.bits[1][b] <==> Quad(h.bits[0], b)))
    && (forall b: nat :: b < 2048 ==> (h.bits[2][b] <==> Pair(h.bits[1], b)))
    && (forall b: nat :: b < 1024 ==> (h.bits[3][b] <==> Pair(h.bits[2], b)))
  }

  lemma StackedUsed(h: Header, k: Level, b: nat)
    requires Shape(h) && Stacked(h) && b < |h.bits[k]|
    ensures h.bits[k][b] <==> SomeUsed(h, k, b)
  {}

  /** The direct reading of the summary bits and the level-by-level reading agree. */
  lemma SummaryIffStacked(h: Header)
    requires Shape(h)
    ensures Summary(h) <==> Stacked(h)
  {
    if Stacked(h) {
      forall k: Level, b: nat | b < |h.bits[k]|
        ensures h.bits[k][b] <==> SomeUsed(h, k, b)
      {
        StackedUsed(h, k, b);
      }
    }
    if Summary(h) {
      forall b: nat | b < 4096 ensures h.bits[1][b] <==> Quad(h.bits[0], b) {
        SummaryQuad(h, b);
      }
      forall b: nat | b < 2048 ensures h.bits[2][b] <==> Pair(h.bits[1], b) {
        SummaryPair(h, 1, b);
      }
      forall b: nat | b < 1024 ensures h.bits[3][b] <==> Pair(h.bits[2], b) {
        SummaryPair(h, 2, b);
      }
    }
  }

  lemma SummaryQuad(h: Header, b: nat)
    requires Shape(h) && Summary(h) && b < 4096
    ensures h.bits[1][b] <==> Quad(h.bits[0], b)
  {}

  lemma SummaryPair(h: Header, k: Level, b: nat)
    requires Shape(h) && Summary(h) && 1 <= k <= 2 && b < |h.bits[k + 1]|
    ensures h.bits[k + 1][b] <==> Pair(h.bits[k], b)
  {}

  lemma FreeStacked(h: Header, p: nat)
    requires Shape(h) && Stacked(h) && p < MAX_SIZE && h.bits[0][p]
    ensures Stacked(FreePage(h, p))
  {
    var h' := FreePage(h, p);
    assert forall q: nat :: q < MAX_SIZE && q != p ==> h'.bits[0][q] == h.bits[0][q];
    forall b: nat | b < 4096 ensures h'.bits[1][b] <==> Quad(h'.bits[0], b) {
      assert h.bits[1][b] <==> Quad(h.bits[0], b);
      if b != p / 4 {
        assert h'.bits[1][b] == h.bits[1][b];
      }
    }
    forall b: nat | b < 2048 ensures h'.bits[2][b] <==> Pair(h'.bits[1], b) {
      assert h.bits[2][b] <==> Pair(h.bits[1], b);
      if b != p / 8 {
        assert h'.bits[2][b] == h.bits[2][b];
      }
    }
    forall b: nat | b < 1024 ensures h'.bits[3][b] <==> Pair(h'.bits[2], b) {
      assert h.bits[3][b] <==> Pair(h.bits[2], b);
      if b != p / 16 {
        assert h'.bits[3][b] == h.bits[3][b];
      }
    }
  }

  lemma FreeCounted(h: Header, length: nat, p: nat)
    requires Inv(h, length) && p < length && h.bits[0][p]
    ensures Counted(FreePage(h, p), length)
  {
    UsedAbove(h, p);
    forall k: Level ensures FreePage(h, p).avail[k] == Clear(FreePage(h, p).bits[k], Blocks(k, length)) {
      BlockBound(k, p, length);
      ClearUpdate(h.bits[k], Blocks(k, length), Block(k, p), false);
    }
  }

  /** Releasing an allocated page keeps the whole header invariant. */
  lemma FreeInv(h: Header, length: nat, p: nat)
    requires Inv(h, length) && p < length && h.bits[0][p]
    ensures Inv(FreePage(h, p), length)
  {
    FreeCounted(h, length, p);
    SummaryIffStacked(h);
    FreeStacked(h, p);
    SummaryIffStacked(FreePage(h, p));
  }

  lemma Restore(s: seq<bool>, i: nat)
    requires i < |s|
    ensures !s[i] ==> s[i := true][i := false] == s
    ensures s[i] ==> s[i := true] == s
  {}

  lemma AllocThenFreeShape(h: Header, p: nat)
    requires Shape(h) && p < MAX_SIZE && !h.bits[0][p]
    requires h.bits[1][p / 4] == Quad(h.bits[0], p / 4)
    requires h.bits[2][p / 8] == Pair(h.bits[1], p / 8)
    requires h.bits[3][p / 16] == Pair(h.bits[2], p / 16)
    ensures FreePage(AllocPage(h, p), p) == h
  {
    Restore(h.bits[0], p);
    Restore(h.bits[1], p / 4);
    Restore(h.bits[2], p / 8);
    Restore(h.bits[3], p / 16);
    var f := FreePage(AllocPage(h, p), p);
    assert f.bits[0] == h.bits[0];
    assert f.bits[1] == h.bits[1];
    assert f.bits[2] == h.bits[2];
    assert f.bits[3] == h.bits[3];
    assert f.bits == h.bits;
    assert f.avail == h.avail;
  }

  /** Releasing a page right after marking it restores all four bitmaps and counters. */
  lemma AllocThenFree(h: Header, length: nat, p: nat)
    requires Inv(h, length) && p < length && !h.bits[0][p]
    ensures FreePage(AllocPage(h, p), p) == h
  {
    SummaryQuad(h, p / 4);
    SummaryPair(h, 1, p / 8);
    SummaryPair(h, 2, p / 16);
    AllocThenFreeShape(h, p);
  }
}
