/**
 The physical page allocator: range headers, the four lists of ranges by best free level,
 physalloc's scan, and physfree with its dichotomic search.
 */
module Pmm {
  import opened Common
  import opened PmmHeader
  import opened PmmTrace

  /** physalloc either serves the request or stops the kernel at one of two panics. */
  datatype Outcome = Done | OutOfMemory | NoRange

  /** One invocation of the caller's callback. */
  datatype Call = Call(paddr: nat, vaddr: nat)

  type Lists = seq<seq<nat>>

  function First(k: Level, b: nat): nat {
    if k == 0 then b else if k == 1 then 4 * b else if k == 2 then 8 * b else 16 * b
  }

  /** __builtin_ffsll over the 64 bits of a word: one plus the index of the lowest set bit. */
  function FindFirstSet(word: seq<bool>): (r: nat)
    requires |word| <= 64
    ensures r <= |word|
    ensures r == 0 ==> forall i :: 0 <= i < |word| ==> !word[i]
    ensures r > 0 ==> word[r - 1] && forall i :: 0 <= i < r - 1 ==> !word[i]
  {
    if word == [] then 0
    else if word[0] then 1
    else var t := FindFirstSet(word[1..]); if t == 0 then 0 else t + 1
  }

  ghost function Elems(l: seq<nat>): set<nat> {
    set x | x in l
  }

  /** The ranges that getMR can still reach. */
  ghost function Listed(lists: Lists): set<nat>
    requires |lists| == 4
  {
    Elems(lists[0]) + Elems(lists[1]) + Elems(lists[2]) + Elems(lists[3])
  }

  ghost predicate NoRepeats(lists: Lists)
    requires |lists| == 4
  {
    forall k, i, k', i' ::
      0 <= k < 4 && 0 <= i < |lists[k]| && 0 <= k' < 4 && 0 <= i' < |lists[k']| && lists[k][i] == lists[k'][i']
      ==> k == k' && i == i'
  }

  /** The range at place i of list k exists and has a free block of level k. */
  ghost predicate Deserves(hs: seq<Header>, lists: Lists, k: nat, i: nat)
    requires |lists| == 4 && k < 4 && i < |lists[k]|
  {
    var r := lists[k][i];
    r < |hs| && Shape(hs[r]) && hs[r].avail[k] > 0
  }

  ghost predicate ListsOk(hs: seq<Header>, lists: Lists) {
    && |lists| == 4 && NoRepeats(lists)
    && forall k, i :: 0 <= k < 4 && 0 <= i < |lists[k]| ==> Deserves(hs, lists, k, i)
  }

  /** As ListsOk, except that the head of list k may just have run out of level-k blocks. */
  ghost predicate ListsOkButHead(hs: seq<Header>, lists: Lists, k: nat) {
    && |lists| == 4 && k < 4 && NoRepeats(lists) && lists[k] != []
    && lists[k][0] < |hs| && Shape(hs[lists[k][0]])
    && forall k', i :: 0 <= k' < 4 && 0 <= i < |lists[k']| && !(k' == k && i == 0) ==> Deserves(hs, lists, k', i)
  }

  ghost predicate Sorted(ranges: seq<Range>) {
    forall i, j :: 0 <= i < j < |ranges| ==>
      ranges[i].base + (ranges[i].length + 1) * PAGE <= ranges[j].base
  }

  /** The last page of the last range. */
  ghost predicate Topmost(ranges: seq<Range>, g: Page) {
    g.r == |ranges| - 1 && g.p == ranges[g.r].length - 1
  }

  /** Every page of a range that no list holds is allocated. */
  ghost predicate NoneStranded(hs: seq<Header>, listed: set<nat>) {
    forall r: nat :: r < |hs| && r !in listed ==> |hs[r].avail| == 4 && hs[r].avail[0] == 0
  }

  /** total_pages - n_ranges: the pages left after each range keeps one for its header. */
  ghost function Pages(boot: seq<Range>): nat {
    if boot == [] then 0 else Pages(boot[..|boot| - 1]) + boot[|boot| - 1].length
  }

  /** The lists after the head of one list went to the front of a lower one, or to none. */
  ghost function Moved(lists: Lists, r: nat, from: nat, to: int): Lists
    requires |lists| == 4 && from < 4 && lists[from] != [] && to <= from
  {
    var cut := lists[from := lists[from][1..]];
    if to == from then lists else if to < 0 then cut else cut[to := [r] + cut[to]]
  }

  class Allocator {
    const ranges: seq<Range>
    var headers: seq<Header>
    var lists: Lists
    var totalAvailable: nat

    ghost predicate Valid()
      reads this
    {
      && Sorted(ranges)
      && AllInv(ranges, headers)
      && ListsOk(headers, lists)
      && totalAvailable == FreeIn(headers, Indices(|headers|))
    }

    /** init_memory_range over the boot ranges: every page free, every range filed in the list
        of its best level. */
    constructor (boot: seq<Range>)
      requires Sorted(boot) && forall r :: 0 <= r < |boot| ==> 0 < boot[r].length <= MAX_SIZE
      ensures Valid() && ranges == boot && totalAvailable == Pages(boot)
      ensures forall g :: !Used(headers, g)
      ensures NoneStranded(headers, Listed(lists))
    {
      hide Inv, Fresh, FreeIn, ListsOk, AllInv;
      var hs: seq<Header>, l: Lists, total := [], [[], [], [], []], 0;
      NoRanges();
      for r := 0 to |boot|
        invariant AllInv(boot[..r], hs) && |hs| == r && |l| == 4
        invariant ListsOk(hs, l) && Listed(l) == Indices(r)
        invariant total == FreeIn(hs, Indices(r)) == Pages(boot[..r])
        invariant forall i :: 0 <= i < r ==> Shape(hs[i]) && forall p :: 0 <= p < MAX_SIZE ==> !hs[i].bits[0][p]
      {
        var h, k := InitMemoryRange(boot[r].length);
        Register(boot[..r], hs, l, k, boot[r], h);
        assert boot[..r + 1] == boot[..r] + [boot[r]] && boot[..r + 1][..r] == boot[..r];
        hs := hs + [h];
        l := l[k := [r] + l[k]];
        total := total + boot[r].length;
      }
      ranges, headers, lists, totalAvailable := boot, hs, l, total;
      assert boot[..|boot|] == boot;
    }

    /** Free pages in the ranges that physalloc can reach. */
    ghost function Reachable(): int
      reads this
      requires Valid()
    {
      FreeIn(headers, Listed(lists))
    }

    /** move_region_if_full: sink the head range to the best list it still deserves, or drop it
        (to < 0). */
    method MoveRegionIfFull(r: nat, listId: nat) returns (moved: bool, ghost to: int)
      requires ListsOkButHead(headers, lists, listId) && lists[listId][0] == r
      requires forall k :: 0 <= k < 4 ==> 0 <= headers[r].avail[k]
      modifies this`lists
      ensures ListsOk(headers, lists)
      ensures moved <==> headers[r].avail[listId] == 0
      ensures -1 <= to <= listId && (to >= 0 ==> headers[r].avail[to] > 0)
      ensures forall j :: to < j <= listId ==> headers[r].avail[j] == 0
      ensures lists == Moved(old(lists), r, listId, to)
      ensures Listed(lists) == old(Listed(lists)) ||
              (headers[r].avail[0] == 0 && Listed(lists) == old(Listed(lists)) - {r})
    {
      hide ListsOk, ListsOkButHead, Listed, Moved;
      ButHead(headers, lists, listId);
      NotMoved(lists, r, listId);
      moved := false;
      var k: nat := listId;
      while true
        invariant k <= listId && |lists| == 4 && lists[k] != []
        invariant ListsOkButHead(headers, lists, k) && lists[k][0] == r
        invariant Listed(lists) == old(Listed(lists))
        invariant moved <==> k < listId
        invariant forall j :: k < j <= listId ==> headers[r].avail[j] == 0
        invariant lists == Moved(old(lists), r, listId, k)
        decreases k
      {
        ButHead(headers, lists, k);
        if headers[r].avail[k] != 0 {
          to := k;
          return;
        }
        PopHead(headers, lists, k);
        MovedOut(old(lists), r, listId, k);
        assert Listed(lists) - {r} + {r} == Listed(lists);
        lists := lists[k := lists[k][1..]];
        moved := true;
        if k == 0 {
          to := -1;
          return;
        }
        PushHead(headers, lists, k - 1, r);
        MovedIn(old(lists), r, listId, k - 1);
        k := k - 1;
        lists := lists[k := [r] + lists[k]];
      }
    }

    /** Hand out the pages of one free block, in order, until the block, the range or the
        request ends. `trace` records the pages; `calls` the callback invocations. */
    method AllocBlock(r: nat, k: Level, b: nat, size0: nat, virt0: nat, ghost hs0: seq<Header>, ghost trace0: seq<Page>)
      returns (size: nat, virt: nat, done: bool, calls: seq<Call>, ghost trace: seq<Page>)
      requires AllInv(ranges, headers) && r < |ranges| && size0 > 0
      requires b < Blocks(k, ranges[r].length) && !headers[r].bits[k][b]
      requires Legal(ranges, hs0, trace0) && headers == After(hs0, trace0)
      modifies this`headers
      ensures AllInv(ranges, headers)
      ensures trace0 < trace && Legal(ranges, hs0, trace) && headers == After(hs0, trace)
      ensures Served(ranges, trace[|trace0|..], calls, virt0)
      ensures forall g :: g in trace[|trace0|..] ==> g.r == r
      ensures size == size0 - |calls| < size0 && virt == virt0 + PAGE * |calls|
      ensures Elsewhere(old(headers), headers, r)
      ensures headers[r].bits[k] == old(headers[r].bits[k])[b := true]
      ensures done <==> size == 0 || First(k, b) + Granularity(k) >= ranges[r].length
    {
      hide Inv, Legal, After, AllocPage, Served, Blocks;
      AllShaped(ranges, headers);
      BlockSpan(k, b, ranges[r].length);
      size, virt, done, calls, trace := size0, virt0, false, [], trace0;
      ServedNone(ranges, virt0);
      assert trace[|trace0|..] == [];
      var page := First(k, b);
      ghost var h0 := headers[r];
      BlockIsFree(h0, k, b);
      var j := 0;
      while j < Granularity(k)
        invariant 0 <= j <= Granularity(k) && page == First(k, b) + j
        invariant AllInv(ranges, headers) && Shape(headers[r]) && page < ranges[r].length
        invariant size > 0 && Elsewhere(old(headers), headers, r)
        invariant trace0 <= trace && Legal(ranges, hs0, trace) && headers == After(hs0, trace)
        invariant Served(ranges, trace[|trace0|..], calls, virt0)
        invariant forall g :: g in trace[|trace0|..] ==> g.r == r
        invariant |trace| == |trace0| + j && |calls| == j
        invariant size == size0 - |calls| && virt == virt0 + PAGE * |calls|
        invariant forall q: nat :: page <= q < First(k, b) + Granularity(k) ==> !headers[r].bits[0][q]
        invariant headers[r].bits[k] == if j == 0 then h0.bits[k] else h0.bits[k][b := true]
      {
        ghost var g := Page(r, page);
        Step(ranges, hs0, trace, headers, g, k, b);
        var paddr := ranges[r].base + (page + 1) * PAGE;
        ServedMore(ranges, trace[|trace0|..], calls, virt0, g);
        assert (trace + [g])[|trace0|..] == trace[|trace0|..] + [g];
        calls := calls + [Call(paddr, virt)];
        trace := trace + [g];
        headers := headers[r := AllocPage(headers[r], page)];
        size := size - 1;
        page := page + 1;
        virt := virt + PAGE;
        j := j + 1;
        if page >= ranges[r].length || size == 0 {
          done := true;
          return;
        }
      }
    }

    /** The 64 blocks of one word of the level-k bitmap, lowest free block first. */
    method ScanChunk(r: nat, k: Level, cur0: nat, size0: nat, virt0: nat, ghost hs0: seq<Header>, ghost trace0: seq<Page>)
      returns (cur: nat, size: nat, virt: nat, calls: seq<Call>, ghost trace: seq<Page>)
      requires AllInv(ranges, headers) && r < |ranges| && size0 > 0
      requires cur0 % 64 == 0 && cur0 < Blocks(k, ranges[r].length) && SetBelow(headers[r], k, cur0)
      requires Legal(ranges, hs0, trace0) && headers == After(hs0, trace0)
      modifies this`headers
      ensures AllInv(ranges, headers)
      ensures trace0 <= trace && Legal(ranges, hs0, trace) && headers == After(hs0, trace)
      ensures Served(ranges, trace[|trace0|..], calls, virt0)
      ensures forall g :: g in trace[|trace0|..] ==> g.r == r
      ensures size == size0 - |calls| && virt == virt0 + PAGE * |calls|
      ensures Elsewhere(old(headers), headers, r) && (calls == [] ==> headers == old(headers))
      ensures size == 0 || SetBelow(headers[r], k, Blocks(k, ranges[r].length)) ||
              (cur == cur0 + 64 && SetBelow(headers[r], k, cur))
    {
      hide Inv, Legal, After, AllocPage, Served;
      AllShaped(ranges, headers);
      var total := Blocks(k, ranges[r].length);
      ChunkFits(k, ranges[r].length, cur0);
      cur, size, virt, calls, trace := cur0, size0, virt0, [], trace0;
      ServedNone(ranges, virt0);
      assert trace[|trace0|..] == [];
      var chunk := headers[r].bits[k][cur0..cur0 + 64];
      var free := seq(64, i requires 0 <= i < 64 => !chunk[i]);
      while true
        invariant AllInv(ranges, headers) && Shape(headers[r]) && size > 0 && cur == cur0
        invariant trace0 <= trace && Legal(ranges, hs0, trace) && headers == After(hs0, trace)
        invariant Served(ranges, trace[|trace0|..], calls, virt0)
        invariant forall g :: g in trace[|trace0|..] ==> g.r == r
        invariant size == size0 - |calls| && virt == virt0 + PAGE * |calls|
        invariant Elsewhere(old(headers), headers, r) && (calls == [] ==> headers == old(headers))
        invariant |free| == 64 && forall i :: 0 <= i < 64 ==> free[i] == !headers[r].bits[k][cur0 + i]
        invariant SetBelow(headers[r], k, cur0)
        decreases size
      {
        var ffs := FindFirstSet(free);
        if ffs == 0 {
          cur := cur + 64;
          assert SetBelow(headers[r], k, cur) by {
            forall b | cur0 <= b < cur0 + 64 ensures headers[r].bits[k][b] {
              assert free[b - cur0] == !headers[r].bits[k][cur0 + (b - cur0)];
            }
          }
          return;
        }
        var b := cur + (ffs - 1);
        assert forall c :: cur0 <= c < b ==> headers[r].bits[k][c] by {
          forall c | cur0 <= c < b ensures headers[r].bits[k][c] {
            assert free[c - cur0] == !headers[r].bits[k][cur0 + (c - cur0)];
          }
        }
        if b >= total {
          cur := b;
          return;
        }
        free := free[ffs - 1 := false];
        ghost var trace1, calls1 := trace, calls;
        var done, more;
        size, virt, done, more, trace := AllocBlock(r, k, b, size, virt, hs0, trace);
        ServedJoin(ranges, trace0, trace1, trace, calls1, more, virt0);
        calls := calls + more;
        AllShaped(ranges, headers);
        if done {
          cur := b;
          if size > 0 {
            LastBlock(k, b, ranges[r].length);
          }
          return;
        }
      }
    }

    /** Scan the level-k bitmap of the head range of list k, then re-file the range. */
    method ScanRange(r: nat, k: Level, size0: nat, virt0: nat, ghost hs0: seq<Header>, ghost trace0: seq<Page>)
      returns (size: nat, virt: nat, calls: seq<Call>, ghost trace: seq<Page>)
      requires AllInv(ranges, headers) && ListsOk(headers, lists) && size0 > 0
      requires lists[k] != [] && lists[k][0] == r
      requires Legal(ranges, hs0, trace0) && headers == After(hs0, trace0)
      modifies this`headers, this`lists
      ensures AllInv(ranges, headers) && ListsOk(headers, lists)
      ensures trace0 <= trace && Legal(ranges, hs0, trace) && headers == After(hs0, trace)
      ensures Served(ranges, trace[|trace0|..], calls, virt0) && calls != []
      ensures Elsewhere(old(headers), headers, r) && r < |headers| && Shape(headers[r])
      ensures forall g :: g in trace[|trace0|..] ==> g.r == r
      ensures size == size0 - |calls| && virt == virt0 + PAGE * |calls|
      ensures Listed(lists) == old(Listed(lists)) ||
              (headers[r].avail[0] == 0 && Listed(lists) == old(Listed(lists)) - {r})
    {
      hide Inv, Legal, After, AllocPage, Served;
      AllShaped(ranges, headers);
      assert Deserves(headers, lists, k, 0);
      var total := Blocks(k, ranges[r].length);
      var cur := 0;
      size, virt, calls, trace := size0, virt0, [], trace0;
      ServedNone(ranges, virt0);
      assert trace[|trace0|..] == [];
      while cur < total
        invariant cur % 64 == 0 && AllInv(ranges, headers) && Shape(headers[r]) && size > 0
        invariant lists == old(lists) && ListsOk(headers, lists)
        invariant trace0 <= trace && Legal(ranges, hs0, trace) && headers == After(hs0, trace)
        invariant Served(ranges, trace[|trace0|..], calls, virt0)
        invariant forall g :: g in trace[|trace0|..] ==> g.r == r
        invariant size == size0 - |calls| && virt == virt0 + PAGE * |calls|
        invariant calls == [] ==> headers == old(headers)
        invariant Elsewhere(old(headers), headers, r)
        invariant SetBelow(headers[r], k, cur)
        decreases if cur < total then total - cur else 0
      {
        ChunkFits(k, ranges[r].length, cur);
        if Full(headers[r].bits[k][cur..cur + 64]) {
          FullChunk(headers[r], k, cur);
          cur := cur + 64;
          continue;
        }
        ghost var hs1, trace1, calls1 := headers, trace, calls;
        var more;
        cur, size, virt, more, trace := ScanChunk(r, k, cur, size, virt, hs0, trace);
        ServedJoin(ranges, trace0, trace1, trace, calls1, more, virt0);
        calls := calls + more;
        AllShaped(ranges, headers);
        LocalChange(hs1, headers, lists, k);
        AllNat(ranges, headers, r);
        var moved;
        ghost var to;
        moved, to := MoveRegionIfFull(r, k);
        if moved {
          return;
        }
        assert Deserves(headers, lists, k, 0);
        if size == 0 {
          return;
        }
        NotFull(headers[r], ranges[r].length, k);
      }
      assert Deserves(headers, lists, k, 0);
      NotFull(headers[r], ranges[r].length, k);
    }

    /** getMR: the head of the best non-empty list. */
    method GetMR() returns (found: bool, r: nat, k: Level)
      requires ListsOk(headers, lists)
      ensures found ==> lists[k] != [] && lists[k][0] == r && forall j :: k < j < 4 ==> lists[j] == []
      ensures !found ==> Listed(lists) == {}
    {
      var i := 3;
      while i >= 0
        invariant -1 <= i <= 3
        invariant forall j :: i < j < 4 ==> lists[j] == []
      {
        if lists[i] != [] {
          return true, lists[i][0], i;
        }
        i := i - 1;
      }
      return false, 0, 0;
    }

    /** physalloc. Which of the three outcomes happens is decided by two numbers: the pages the
        kernel counts as available, and the pages in ranges that some list still holds. */
    method PhysAlloc(request: nat, virt0: nat)
      returns (out: Outcome, calls: seq<Call>, ghost pages: seq<Page>)
      requires Valid()
      modifies this`headers, this`lists, this`totalAvailable
      ensures out == OutOfMemory <==> request > old(totalAvailable)
      ensures out == NoRange <==> old(Reachable()) < request <= old(totalAvailable)
      ensures old(NoneStranded(headers, Listed(lists))) ==> out != NoRange
      ensures out == OutOfMemory ==> unchanged(this) && calls == []
      ensures Served(ranges, pages, calls, virt0) && Distinct(pages) && |lists| == 4 && Listed(lists) <= old(Listed(lists))
      ensures forall g :: g in pages ==> IsPage(ranges, g) && !Used(old(headers), g) && g.r in old(Listed(lists))
      ensures forall g :: Used(headers, g) <==> Used(old(headers), g) || g in pages
      ensures out == NoRange ==> |calls| == old(Reachable()) && Listed(lists) == {}
      ensures out == Done ==>
                && Valid()
                && |calls| == request && totalAvailable == old(totalAvailable) - request
                && Reachable() == old(Reachable()) - request
      ensures out == Done && old(NoneStranded(headers, Listed(lists))) ==> NoneStranded(headers, Listed(lists))
    {
      hide AllInv, Legal, After, Served, ListsOk, FreeIn, Used, Distinct, Drained, Elsewhere, NoneStranded;
      ListsLength(headers, lists);
      calls, pages := [], [];
      ghost var hs0, l0 := headers, Listed(lists);
      if NoneStranded(hs0, l0) {
        NothingStranded(hs0, l0);
      }
      if totalAvailable < request {
        FreeInNat(ranges, headers, l0);
        Begin(ranges, hs0, virt0);
        return OutOfMemory, [], [];
      }
      totalAvailable := totalAvailable - request;
      var size, virt := request, virt0;
      Begin(ranges, hs0, virt0);
      assert l0 - Listed(lists) == {};
      while size > 0
        invariant AllInv(ranges, headers) && ListsOk(headers, lists) && |lists| == 4
        invariant Legal(ranges, hs0, pages) && headers == After(hs0, pages)
        invariant Served(ranges, pages, calls, virt0)
        invariant size == request - |calls| && virt == virt0 + PAGE * |calls|
        invariant Listed(lists) <= l0 && forall g :: g in pages ==> g.r in l0
        invariant Drained(headers, l0 - Listed(lists))
        invariant totalAvailable == old(totalAvailable) - request
      {
        var found, r, k := GetMR();
        if !found {
          ServedLength(ranges, pages, calls, virt0);
          assert l0 - Listed(lists) == l0;
          Exhausted(ranges, hs0, pages, l0, headers);
          TracePages(ranges, hs0, pages);
          return NoRange, calls, pages;
        }
        ghost var pages1, calls1, hs1, l1 := pages, calls, headers, Listed(lists);
        HeadListed(headers, lists, k);
        var more;
        size, virt, more, pages := ScanRange(r, k, size, virt, hs0, pages);
        assert pages1[0..] == pages1 && pages[0..] == pages;
        ServedJoin(ranges, [], pages1, pages, calls1, more, virt0);
        calls := calls + more;
        ListsLength(headers, lists);
        assert l0 - Listed(lists) == l0 - l1 || l0 - Listed(lists) == l0 - l1 + {r};
        StillDrained(hs1, headers, l0 - l1, r, l0 - Listed(lists));
      }
      ServedLength(ranges, pages, calls, virt0);
      TracePages(ranges, hs0, pages);
      Settle(ranges, hs0, pages, l0, Listed(lists), headers);
      return Done, calls, pages;
    }

    /** get_memory_range: dichotomy over the sorted ranges. For the address of a page it finds
        the owning range, except that the bound test on the last range is strict, so the very
        last page of memory trips the assertion. */
    method GetMemoryRange(addr: nat, ghost g: Page) returns (ok: bool, r: nat)
      requires Sorted(ranges) && IsPage(ranges, g) && addr == Address(ranges, g)
      ensures ok ==> r == g.r
      ensures !ok <==> Topmost(ranges, g)
    {
      var a, b := 0, |ranges| - 1;
      Owner(ranges, g);
      if addr > ranges[b].base {
        return addr < ranges[b].base + ranges[b].length * PAGE, b;
      }
      while addr > ranges[a].base + ranges[a].length * PAGE
        invariant 0 <= a <= g.r < b < |ranges|
        decreases b - a
      {
        var c := (a + b) / 2;
        if addr < ranges[c].base {
          b := c;
        } else {
          a := c;
        }
      }
      return true, a;
    }

    /** physfree of an allocated page: the header and the total change, the lists do not. */
    method PhysFree(addr: nat, ghost g: Page) returns (ok: bool)
      requires Valid() && IsPage(ranges, g) && Used(headers, g) && addr == Address(ranges, g)
      modifies this`headers, this`totalAvailable
      ensures ok <==> !Topmost(ranges, g)
      ensures !ok ==> unchanged(this)
      ensures ok ==>
                && Valid() && totalAvailable == old(totalAvailable) + 1
                && headers == old(headers)[g.r := FreePage(old(headers)[g.r], g.p)]
                && forall x :: Used(headers, x) <==> Used(old(headers), x) && x != g
    {
      hide FreeIn, ListsOk, Topmost;
      var r;
      ok, r := GetMemoryRange(addr, g);
      if ok {
        var position := (addr - ranges[r].base) / PAGE - 1;
        PositionIs(ranges[r].base, g.p);
        ghost var h := FreePage(headers[r], position);
        FreeInv(headers[r], ranges[r].length, position);
        FreeInMark(headers, Indices(|headers|), r, h);
        FreeKeepsLists(headers, lists, ranges, r, position);
        FreedIs(ranges, headers, g, h);
        headers := headers[r := FreePage(headers[r], position)];
        totalAvailable := totalAvailable + 1;
      }
    }
  }

  /** Only the freed page changes. */
  lemma FreedIs(ranges: seq<Range>, hs: seq<Header>, g: Page, h: Header)
    requires AllInv(ranges, hs) && IsPage(ranges, g) && Used(hs, g) && h == FreePage(hs[g.r], g.p)
    requires Inv(h, ranges[g.r].length)
    ensures AllInv(ranges, hs[g.r := h])
    ensures forall x :: Used(hs[g.r := h], x) <==> Used(hs, x) && x != g
  {}

  lemma PositionIs(base: nat, p: nat)
    ensures (base + (p + 1) * PAGE - base) / PAGE - 1 == p
  {}

  /** A client request: pages, or the return of a page. */
  datatype Op = Alloc(request: nat, virt: nat) | Free(page: Page)

  /**
   Over every run of requests and returns, no page of a range that is in no list is ever
   handed out, and no range comes back into a list. The run stops at a panic, or at the
   return of a page that is not allocated.
   */
  method Session(pmm: Allocator, ops: seq<Op>) returns (stopped: bool, ghost handed: seq<Page>)
    requires pmm.Valid()
    modifies pmm`headers, pmm`lists, pmm`totalAvailable
    ensures forall g :: g in handed ==> g.r in old(Listed(pmm.lists))
    ensures !stopped ==> pmm.Valid() && Listed(pmm.lists) <= old(Listed(pmm.lists))
    ensures forall g :: Used(pmm.headers, g) ==> Used(old(pmm.headers), g) || g in handed
  {
    handed := [];
    hide AllInv, FreeIn, Used, Served, NoneStranded;
    for i := 0 to |ops|
      invariant pmm.Valid() && Listed(pmm.lists) <= old(Listed(pmm.lists))
      invariant forall g :: g in handed ==> g.r in old(Listed(pmm.lists))
      invariant forall g :: Used(pmm.headers, g) ==> Used(old(pmm.headers), g) || g in handed
    {
      match ops[i]
      case Alloc(request, virt) =>
        var out, calls;
        ghost var pages;
        out, calls, pages := pmm.PhysAlloc(request, virt);
        handed := handed + pages;
        if out != Done {
          return true, handed;
        }
      case Free(g) =>
        var inUse := IsAllocated(pmm, g);
        if !inUse {
          return true, handed;
        }
        var ok := pmm.PhysFree(Address(pmm.ranges, g), g);
        if !ok {
          return true, handed;
        }
    }
    stopped := false;
  }

  method IsAllocated(pmm: Allocator, g: Page) returns (b: bool)
    requires pmm.Valid()
    ensures b <==> IsPage(pmm.ranges, g) && Used(pmm.headers, g)
  {
    AllShaped(pmm.ranges, pmm.headers);
    b := g.r < |pmm.ranges| && g.p < pmm.ranges[g.r].length && pmm.headers[g.r].bits[0][g.p];
  }

  /** The consequence of physfree never re-filing a range: a page returned to a drained range
      is counted as available and can never be handed out again. */
  method StrandedPage() returns (first: Outcome, freed: bool, second: Outcome, available: nat)
    ensures first == Done && freed && second == NoRange && available == 1
  {
    hide AllInv, FreeIn, Used, FreePage;
    var boot := [Range(0x100000, 9)];
    var pmm := new Allocator(boot);
    assert boot[..0] == [];
    NothingStranded(pmm.headers, Listed(pmm.lists));
    var calls;
    ghost var pages;
    first, calls, pages := pmm.PhysAlloc(9, 0);
    NoneLeft(pmm.ranges, pmm.headers, pmm.lists);
    assert pages[0] in pages && pages[1] in pages;
    var i := if calls[0].paddr == 0x100000 + 9 * PAGE then 1 else 0;
    freed := pmm.PhysFree(calls[i].paddr, pages[i]);
    available := pmm.totalAvailable;
    FreeInEmpty(pmm.headers);
    second, calls, pages := pmm.PhysAlloc(1, 0);
  }

  /** Lists that reach no free page are empty. */
  lemma NoneLeft(ranges: seq<Range>, hs: seq<Header>, lists: Lists)
    requires AllInv(ranges, hs) && ListsOk(hs, lists) && FreeIn(hs, Listed(lists)) == 0
    ensures Listed(lists) == {}
  {
    if r :| r in Listed(lists) {
      var k, i :| 0 <= k < 4 && 0 <= i < |lists[k]| && lists[k][i] == r;
      assert Deserves(hs, lists, k, i);
      BlockHasPage(hs[r], ranges[r].length, k);
      FreeInDrop(hs, Listed(lists), r);
      FreeInNat(ranges, hs, Listed(lists) - {r});
    }
  }

  lemma BlockHasPage(h: Header, length: nat, k: Level)
    requires Inv(h, length) && h.avail[k] > 0
    ensures h.avail[0] > 0
  {
    ClearPositive(h.bits[k], Blocks(k, length));
    var b :| 0 <= b < Blocks(k, length) && !h.bits[k][b];
    BlockIsFree(h, k, b);
    BlockSpan(k, b, length);
    assert !h.bits[0][First(k, b)];
    ClearPositive(h.bits[0], Blocks(0, length));
  }

  method InitMemoryRange(length: nat) returns (h: Header, k: nat)
    requires 0 < length <= MAX_SIZE
    ensures Inv(h, length) && h.avail[0] == length && forall p :: 0 <= p < MAX_SIZE ==> !h.bits[0][p]
    ensures k < 4 && h.avail[k] > 0 && forall j :: k < j < 4 ==> h.avail[j] == 0
  {
    h := Fresh(length);
    FreshInv(length);
    AllNat([Range(0, length)], [h], 0);
    k := BestList(h);
  }

  method BestList(h: Header) returns (k: nat)
    requires Shape(h) && h.avail[0] > 0 && forall j :: 0 <= j < 4 ==> 0 <= h.avail[j]
    ensures k < 4 && h.avail[k] > 0 && forall j :: k < j < 4 ==> h.avail[j] == 0
  {
    k := 3;
    while h.avail[k] == 0
      invariant k < 4 && forall j :: k < j < 4 ==> h.avail[j] == 0
      decreases k
    {
      k := k - 1;
    }
  }

  lemma NoRanges()
    ensures AllInv([], []) && ListsOk([], [[], [], [], []]) && FreeIn([], {}) == 0
  {}

  lemma NothingStranded(hs: seq<Header>, listed: set<nat>)
    requires NoneStranded(hs, listed)
    ensures FreeIn(hs, listed) == FreeIn(hs, Indices(|hs|))
  {
    FreeInSame(hs, listed, Indices(|hs|));
  }

  /** Where the owner of a page sits relative to any other range. */
  lemma Owner(ranges: seq<Range>, g: Page)
    requires Sorted(ranges) && IsPage(ranges, g)
    ensures forall i :: 0 <= i < g.r ==> ranges[i].base + ranges[i].length * PAGE < Address(ranges, g)
    ensures forall i :: g.r < i < |ranges| ==> Address(ranges, g) < ranges[i].base
    ensures ranges[g.r].base < Address(ranges, g) <= ranges[g.r].base + ranges[g.r].length * PAGE
  {}

  /** Distinct pages have distinct physical addresses. */
  lemma AddressInjective(ranges: seq<Range>, g: Page, g': Page)
    requires Sorted(ranges) && IsPage(ranges, g) && IsPage(ranges, g')
    requires Address(ranges, g) == Address(ranges, g')
    ensures g == g'
  {
    Owner(ranges, g);
    Owner(ranges, g');
  }

  lemma FreeKeepsLists(hs: seq<Header>, lists: Lists, ranges: seq<Range>, r: nat, p: nat)
    requires AllInv(ranges, hs) && ListsOk(hs, lists) && r < |hs| && p < ranges[r].length
    ensures ListsOk(hs[r := FreePage(hs[r], p)], lists)
  {
    var hs' := hs[r := FreePage(hs[r], p)];
    forall k, i | 0 <= k < 4 && 0 <= i < |lists[k]| ensures Deserves(hs', lists, k, i) {
      assert Deserves(hs, lists, k, i);
    }
  }

  lemma Register(ranges: seq<Range>, hs: seq<Header>, lists: Lists, k: nat, range: Range, h: Header)
    requires AllInv(ranges, hs) && ListsOk(hs, lists) && Listed(lists) == Indices(|hs|)
    requires Inv(h, range.length) && k < 4 && h.avail[k] > 0
    ensures AllInv(ranges + [range], hs + [h])
    ensures ListsOk(hs + [h], lists[k := [|hs|] + lists[k]])
    ensures Listed(lists[k := [|hs|] + lists[k]]) == Indices(|hs| + 1)
    ensures FreeIn(hs + [h], Indices(|hs| + 1)) == FreeIn(hs, Indices(|hs|)) + h.avail[0]
  {
    hide FreeIn, Inv, ListsOk, Listed;
    InvShape(h, range.length);
    RegisterLists(hs, lists, k, h);
    FreeInOneMore(hs, h);
  }

  lemma InvShape(h: Header, length: nat)
    requires Inv(h, length)
    ensures Shape(h)
  {}

  lemma RegisterLists(hs: seq<Header>, lists: Lists, k: nat, h: Header)
    requires ListsOk(hs, lists) && Listed(lists) == Indices(|hs|) && Shape(h) && k < 4 && h.avail[k] > 0
    ensures ListsOk(hs + [h], lists[k := [|hs|] + lists[k]])
    ensures Listed(lists[k := [|hs|] + lists[k]]) == Indices(|hs| + 1)
  {
    var hs' := hs + [h];
    assert ListsOk(hs', lists) by {
      forall k', i | 0 <= k' < 4 && 0 <= i < |lists[k']| ensures Deserves(hs', lists, k', i) {
        assert Deserves(hs, lists, k', i);
      }
    }
    PushHead(hs', lists, k, |hs|);
    assert Deserves(hs', lists[k := [|hs|] + lists[k]], k, 0);
  }

  lemma FreeInOneMore(hs: seq<Header>, h: Header)
    requires Shape(h)
    ensures FreeIn(hs + [h], Indices(|hs| + 1)) == FreeIn(hs, Indices(|hs|)) + h.avail[0]
  {
    assert (hs + [h])[..|hs|] == hs;
    FreeInSame(hs, Indices(|hs|), Indices(|hs| + 1));
  }

  /** Every range in s has no free page. */
  ghost predicate Drained(hs: seq<Header>, s: set<nat>) {
    forall r :: r in s ==> r < |hs| && Shape(hs[r]) && hs[r].avail[0] == 0
  }

  lemma StillDrained(hs: seq<Header>, hs': seq<Header>, s: set<nat>, r: nat, s': set<nat>)
    requires Drained(hs, s) && Elsewhere(hs, hs', r) && r !in s && r < |hs'| && Shape(hs'[r])
    requires s' == s || (s' == s + {r} && hs'[r].avail[0] == 0)
    ensures Drained(hs', s')
  {}

  lemma Begin(ranges: seq<Range>, hs: seq<Header>, virt: nat)
    ensures Legal(ranges, hs, []) && After(hs, []) == hs && Served(ranges, [], [], virt) && Drained(hs, {}) && Distinct<Page>([])
  {}

  lemma ListsLength(hs: seq<Header>, lists: Lists)
    requires ListsOk(hs, lists)
    ensures |lists| == 4
  {}

  lemma ServedLength(ranges: seq<Range>, pages: seq<Page>, calls: seq<Call>, virt: nat)
    requires Served(ranges, pages, calls, virt)
    ensures |pages| == |calls|
  {}

  lemma HeadListed(hs: seq<Header>, lists: Lists, k: nat)
    requires ListsOk(hs, lists) && k < 4 && lists[k] != []
    ensures lists[k][0] in Listed(lists) && lists[k][0] < |hs|
  {
    assert Deserves(hs, lists, k, 0);
  }

  /** When every list is empty, the pages handed out are all that was reachable. */
  lemma Exhausted(ranges: seq<Range>, hs0: seq<Header>, pages: seq<Page>, l0: set<nat>, hs: seq<Header>)
    requires AllInv(ranges, hs0) && Legal(ranges, hs0, pages) && hs == After(hs0, pages)
    requires forall g :: g in pages ==> g.r in l0
    requires Drained(hs, l0)
    ensures |pages| == FreeIn(hs0, l0)
  {
    FreeInAfter(ranges, hs0, pages, l0);
    FreeInSame(hs, l0, {});
    FreeInEmpty(hs);
  }

  lemma {:induction false} FreeInEmpty(hs: seq<Header>)
    ensures FreeIn(hs, {}) == 0
  {
    if hs != [] {
      FreeInEmpty(hs[..|hs| - 1]);
    }
  }

  /** What a legal trace handed out. */
  lemma TracePages(ranges: seq<Range>, hs0: seq<Header>, pages: seq<Page>)
    requires AllInv(ranges, hs0) && Legal(ranges, hs0, pages)
    ensures Distinct(pages) && forall g :: g in pages ==> IsPage(ranges, g) && !Used(hs0, g)
    ensures forall g :: Used(After(hs0, pages), g) <==> Used(hs0, g) || g in pages
  {
    LegalDistinct(ranges, hs0, pages);
    forall g ensures Used(After(hs0, pages), g) <==> Used(hs0, g) || g in pages {
      UsedAfter(ranges, hs0, pages, g);
    }
  }

  lemma Settle(ranges: seq<Range>, hs0: seq<Header>, pages: seq<Page>, l0: set<nat>, l: set<nat>, hs: seq<Header>)
    requires AllInv(ranges, hs0) && Legal(ranges, hs0, pages) && hs == After(hs0, pages)
    requires l <= l0 && forall g :: g in pages ==> g.r in l0
    requires Drained(hs, l0 - l)
    ensures FreeIn(hs, Indices(|hs|)) == FreeIn(hs0, Indices(|hs0|)) - |pages|
    ensures FreeIn(hs, l) == FreeIn(hs0, l0) - |pages| >= 0
    ensures NoneStranded(hs0, l0) ==> NoneStranded(hs, l)
  {
    LegalDistinct(ranges, hs0, pages);
    LegalInv(ranges, hs0, pages);
    FreeInAfter(ranges, hs0, pages, Indices(|hs0|));
    FreeInAfter(ranges, hs0, pages, l0);
    FreeInSame(hs, l0, l);
    FreeInNat(ranges, hs, l);
    if NoneStranded(hs0, l0) {
      StillNoneStranded(hs0, pages, l0, l, hs);
    }
  }

  lemma StillNoneStranded(hs0: seq<Header>, pages: seq<Page>, l0: set<nat>, l: set<nat>, hs: seq<Header>)
    requires NoneStranded(hs0, l0) && hs == After(hs0, pages) && (forall g :: g in pages ==> g.r in l0) && Drained(hs, l0 - l)
    ensures NoneStranded(hs, l)
  {
    forall r: nat | r < |hs| && r !in l0 ensures hs[r] == hs0[r] {
      Untouched(hs0, pages, r);
    }
  }

  lemma {:induction false} Untouched(hs: seq<Header>, pages: seq<Page>, r: nat)
    requires r < |hs| && forall g :: g in pages ==> g.r != r
    ensures After(hs, pages)[r] == hs[r]
  {
    if pages != [] {
      Untouched(hs, pages[..|pages| - 1], r);
    }
  }

  predicate Full(chunk: seq<bool>) {
    forall i :: 0 <= i < |chunk| ==> chunk[i]
  }

  lemma FullChunk(h: Header, k: Level, cur: nat)
    requires SetBelow(h, k, cur) && cur + 64 <= |h.bits[k]| && Full(h.bits[k][cur..cur + 64])
    ensures SetBelow(h, k, cur + 64)
  {
    forall b | cur <= b < cur + 64 ensures h.bits[k][b] {
      assert h.bits[k][cur..cur + 64][b - cur];
    }
  }

  ghost predicate Elsewhere(hs: seq<Header>, hs': seq<Header>, r: nat) {
    |hs'| == |hs| && forall i :: 0 <= i < |hs| && i != r ==> hs'[i] == hs[i]
  }

  ghost predicate SetBelow(h: Header, k: Level, n: nat) {
    Shape(h) && n <= |h.bits[k]| && forall b :: 0 <= b < n ==> h.bits[k][b]
  }

  lemma ChunkFits(k: Level, length: nat, cur: nat)
    requires cur % 64 == 0 && cur < Blocks(k, length) && length <= MAX_SIZE
    ensures cur + 64 <= Bits(k) && Blocks(k, length) <= Bits(k)
  {}

  lemma LastBlock(k: Level, b: nat, length: nat)
    requires b < Blocks(k, length) && First(k, b) + Granularity(k) >= length
    ensures b == Blocks(k, length) - 1
  {}

  /** A level whose counter is positive has a clear bit inside the range. */
  lemma NotFull(h: Header, length: nat, k: Level)
    requires Inv(h, length) && h.avail[k] > 0
    ensures !SetBelow(h, k, Blocks(k, length))
  {
    ClearPositive(h.bits[k], Blocks(k, length));
  }

  lemma AllNat(ranges: seq<Range>, hs: seq<Header>, r: nat)
    requires AllInv(ranges, hs) && r < |hs|
    ensures forall k :: 0 <= k < 4 ==> 0 <= hs[r].avail[k]
  {
    forall k: Level ensures 0 <= hs[r].avail[k] {
      AvailNat(hs[r], ranges[r].length, k);
    }
  }

  lemma LocalChange(hs: seq<Header>, hs': seq<Header>, lists: Lists, k: nat)
    requires ListsOk(hs, lists) && k < 4 && lists[k] != []
    requires Elsewhere(hs, hs', lists[k][0]) && lists[k][0] < |hs'| && Shape(hs'[lists[k][0]])
    ensures ListsOkButHead(hs', lists, k)
  {
    forall k', i | 0 <= k' < 4 && 0 <= i < |lists[k']| && !(k' == k && i == 0) ensures Deserves(hs', lists, k', i) {
      assert Deserves(hs, lists, k', i);
    }
  }

  lemma ServedJoin(ranges: seq<Range>, t0: seq<Page>, t1: seq<Page>, t2: seq<Page>, calls: seq<Call>, more: seq<Call>, virt: nat)
    requires t0 <= t1 <= t2
    requires Served(ranges, t1[|t0|..], calls, virt)
    requires Served(ranges, t2[|t1|..], more, virt + PAGE * |calls|)
    ensures Served(ranges, t2[|t0|..], calls + more, virt)
    ensures t2[|t0|..] == t1[|t0|..] + t2[|t1|..]
  {
    assert t2[|t0|..] == t1[|t0|..] + t2[|t1|..];
  }

  /** The i-th call maps the i-th page of the trace at the i-th virtual page. */
  ghost predicate Served(ranges: seq<Range>, pages: seq<Page>, calls: seq<Call>, virt: nat) {
    && |calls| == |pages|
    && (forall i :: 0 <= i < |pages| ==> IsPage(ranges, pages[i]))
    && forall i :: 0 <= i < |calls| ==> calls[i] == Call(Address(ranges, pages[i]), virt + PAGE * i)
  }

  lemma ServedMore(ranges: seq<Range>, pages: seq<Page>, calls: seq<Call>, virt: nat, g: Page)
    requires Served(ranges, pages, calls, virt) && IsPage(ranges, g)
    ensures Served(ranges, pages + [g], calls + [Call(Address(ranges, g), virt + PAGE * |calls|)], virt)
  {}

  lemma ServedNone(ranges: seq<Range>, virt: nat)
    ensures Served(ranges, [], [], virt)
  {}

  lemma AllShaped(ranges: seq<Range>, hs: seq<Header>)
    requires AllInv(ranges, hs)
    ensures forall r :: 0 <= r < |hs| ==> Shape(hs[r]) && Summary(hs[r]) && ranges[r].length <= MAX_SIZE
  {}

  lemma BlockSpan(k: Level, b: nat, length: nat)
    requires b < Blocks(k, length) && length <= MAX_SIZE
    ensures First(k, b) < length && First(k, b) + Granularity(k) <= MAX_SIZE && b < Bits(k)
  {}

  /** Handing out one free page of block b of level k. */
  lemma Step(ranges: seq<Range>, hs0: seq<Header>, trace: seq<Page>, hs: seq<Header>, g: Page, k: Level, b: nat)
    requires AllInv(ranges, hs) && Legal(ranges, hs0, trace) && hs == After(hs0, trace)
    requires IsPage(ranges, g) && !Used(hs, g) && Block(k, g.p) == b
    ensures g.p < MAX_SIZE && Shape(hs[g.r])
    ensures var h' := AllocPage(hs[g.r], g.p); var hs' := hs[g.r := h'];
            && AllInv(ranges, hs') && Legal(ranges, hs0, trace + [g]) && hs' == After(hs0, trace + [g])
            && h'.bits[0] == hs[g.r].bits[0][g.p := true] && b < |hs[g.r].bits[k]|
            && h'.bits[k] == hs[g.r].bits[k][b := true]
  {
    Extend(ranges, hs0, trace, g);
    assert Inv(hs[g.r], ranges[g.r].length);
    AllocInv(hs[g.r], ranges[g.r].length, g.p);
  }

  lemma BlockIsFree(h: Header, k: Level, b: nat)
    requires Shape(h) && Summary(h) && b < |h.bits[k]| && !h.bits[k][b]
    ensures First(k, b) + Granularity(k) <= MAX_SIZE
    ensures forall q: nat :: First(k, b) <= q < First(k, b) + Granularity(k) ==> !h.bits[0][q]
  {
    BlockSpan(k, b, MAX_SIZE);
    assert !SomeUsed(h, k, b);
    forall q: nat | First(k, b) <= q < First(k, b) + Granularity(k) ensures !h.bits[0][q] {
      assert Block(k, q) == b;
    }
  }

  lemma PopHead(hs: seq<Header>, lists: Lists, k: nat)
    requires ListsOkButHead(hs, lists, k)
    ensures var l := lists[k := lists[k][1..]];
            ListsOk(hs, l) && lists[k][0] !in Listed(l) && Listed(l) == Listed(lists) - {lists[k][0]}
  {
    var l := lists[k := lists[k][1..]];
    assert forall i :: 0 <= i < |l[k]| ==> l[k][i] == lists[k][i + 1];
    forall k', i | 0 <= k' < 4 && 0 <= i < |l[k']| ensures Deserves(hs, l, k', i) {
      assert Deserves(hs, lists, k', if k' == k then i + 1 else i);
    }
    forall k', x | 0 <= k' < 4 && x in l[k'] ensures x != lists[k][0] && x in lists[k'] {
      var i :| 0 <= i < |l[k']| && l[k'][i] == x;
    }
    assert lists[k] == [lists[k][0]] + l[k];
  }

  lemma ButHead(hs: seq<Header>, lists: Lists, k: nat)
    requires ListsOkButHead(hs, lists, k)
    ensures |lists| == 4 && k < 4 && lists[k] != [] && lists[k][0] < |hs| && Shape(hs[lists[k][0]])
    ensures lists[k][0] in Listed(lists)
    ensures hs[lists[k][0]].avail[k] > 0 ==> ListsOk(hs, lists)
  {
    if hs[lists[k][0]].avail[k] > 0 {
      assert Deserves(hs, lists, k, 0);
    }
  }

  lemma NotMoved(lists: Lists, r: nat, from: nat)
    requires |lists| == 4 && from < 4 && lists[from] != []
    ensures Moved(lists, r, from, from) == lists
  {}

  /** Popping the range where it was put on the way down. */
  lemma MovedOut(lists: Lists, r: nat, from: nat, to: nat)
    requires |lists| == 4 && from < 4 && lists[from] != [] && to <= from
    ensures
      var l := Moved(lists, r, from, to);
      |l| == 4 && l[to] != [] && l[to := l[to][1..]] == Moved(lists, r, from, -1)
  {}

  lemma MovedIn(lists: Lists, r: nat, from: nat, to: nat)
    requires |lists| == 4 && from < 4 && lists[from] != [] && to < from
    ensures
      var l := Moved(lists, r, from, -1);
      |l| == 4 && l[to := [r] + l[to]] == Moved(lists, r, from, to)
  {}

  lemma PushHead(hs: seq<Header>, lists: Lists, k: nat, r: nat)
    requires ListsOk(hs, lists) && k < 4 && r < |hs| && Shape(hs[r]) && r !in Listed(lists)
    ensures var l := lists[k := [r] + lists[k]];
            ListsOkButHead(hs, l, k) && Listed(l) == Listed(lists) + {r}
  {
    var l := lists[k := [r] + lists[k]];
    assert forall i :: 1 <= i < |l[k]| ==> l[k][i] == lists[k][i - 1];
    assert forall k', i :: 0 <= k' < 4 && 0 <= i < |lists[k']| ==> lists[k'][i] in Listed(lists);
    forall k', i | 0 <= k' < 4 && 0 <= i < |l[k']| && !(k' == k && i == 0) ensures Deserves(hs, l, k', i) {
      assert Deserves(hs, lists, k', if k' == k then i - 1 else i);
    }
  }
}
