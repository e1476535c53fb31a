/**
 The kernel's page-table manager: table allocation through a small buffer, mapping,
 unmapping and translation, each proved against the flat view of the page-table tree.
 */
module Paging {
  import opened Common
  import opened Division
  import opened PageEntry
  import opened PageTree
  import opened TableCount

  const BUFFER_REFILL: nat := 16   // PTAAB_REFILL
  const MAX_ALLOC: nat := 4096

  /** Mapping either completes or stops the kernel with one of its panics. */
  datatype MapResult = Mapped | AlreadyMapped | OutOfTables | OutOfMemory

  /** Pages that belong to no table: the blanked buffer, and what physalloc will hand out. */
  ghost predicate Spare(mem: Memory, role: map<nat, seq<nat>>, buffer: seq<nat>, supply: seq<nat>) {
    && Distinct(buffer + supply)
    && (forall x :: x in buffer + supply ==> Aligned(x) && x !in role)
    && forall x :: x in buffer ==> x in mem && mem[x] == Blank()
  }

  /** A link to a table lets everything through, except those of the root for the kernel alone. */
  ghost predicate LinkOk(e: nat, kernel: bool) {
    e < ADDRESS_LIMIT && (e % PAGE == PRESENT_ENTRY + PL_US + PL_RW || (kernel && e % PAGE == PRESENT_ENTRY + PL_RW))
  }

  ghost predicate Links(mem: Memory, role: map<nat, seq<nat>>, kernel: set<nat>) {
    forall t, i {:trigger mem[t][i]} :: t in role && |role[t]| < 3 && t in mem && 0 <= i < |mem[t]| && Present(mem[t][i]) ==>
      LinkOk(mem[t][i], role[t] == [] && i in kernel)
  }

  ghost function PageSet(s: seq<nat>): set<nat> {
    set x | x in s
  }

  /** Nothing changed for any walk, except that the one along p may have found a new table. */
  ghost predicate Grown(mem: Memory, mem': Memory, root: nat, p: seq<nat>) {
    forall q :: Indices(q) && (q != p || TableAt(mem, root, q).Some?) ==> TableAt(mem', root, q) == TableAt(mem, root, q)
  }

  /** Every existing table stays where it is. */
  ghost predicate Keeps(mem: Memory, mem': Memory, root: nat) {
    forall q :: Indices(q) && TableAt(mem, root, q).Some? ==> TableAt(mem', root, q) == TableAt(mem, root, q)
  }

  ghost predicate SameView(mem: Memory, mem': Memory, root: nat) {
    forall v: nat :: v < PAGES ==> Lookup(mem', root, v) == Lookup(mem, root, v)
  }

  /** The place of page w in a run of pages that starts at page number x. */
  function Slot(x: nat, w: nat): nat
    requires w < PAGES
  {
    (w + (PAGES - x % PAGES)) % PAGES
  }

  lemma SlotIs(x: nat, w: nat, k: nat)
    requires w < PAGES && k < PAGES
    ensures Slot(x, w) == k <==> w == (x + k) % PAGES
  {
    var a := x % PAGES;
    assert x == PAGES * (x / PAGES) + a;
    if a + k < PAGES {
      Unique(x + k, PAGES, x / PAGES, a + k);
    } else {
      Unique(x + k, PAGES, x / PAGES + 1, a + k - PAGES);
    }
  }

  /** The flat view where the n pages from x map the n frames from phys, and nothing else moved. */
  ghost predicate MappedRun(mem: Memory, mem': Memory, root: nat, x: nat, n: nat, phys: nat, flags: nat) {
    forall w: nat :: w < PAGES ==>
      Lookup(mem', root, w) ==
      if Slot(x, w) < n then CreateEntry(phys + PAGE * Slot(x, w), flags) else Lookup(mem, root, w)
  }

  /** The flat view where the n pages from x are unmapped, and nothing else moved. */
  ghost predicate UnmappedRun(mem: Memory, mem': Memory, root: nat, x: nat, n: nat) {
    forall w: nat :: w < PAGES ==>
      Lookup(mem', root, w) == if Slot(x, w) < n then 0 else Lookup(mem, root, w)
  }

  /** The flat view where page x + i maps frames[i], and nothing else moved. */
  ghost predicate MappedTo(mem: Memory, mem': Memory, root: nat, x: nat, frames: seq<nat>, flags: nat) {
    forall w: nat :: w < PAGES ==>
      Lookup(mem', root, w) ==
      if Slot(x, w) < |frames| then CreateEntry(frames[Slot(x, w)], flags) else Lookup(mem, root, w)
  }

  /** get_phys_addr over the flat view. */
  ghost function Translate(mem: Memory, root: nat, addr: nat): nat {
    var e := Lookup(mem, root, Vpn(addr));
    if Present(e) then ExtractPointer(e) + addr % PAGE else 0
  }

  /** Where the last batch of map_pages begins. */
  function LastBatch(count: nat): nat { if count == 0 then 0 else (count - 1) / 64 * 64 }

  class PageTables {
    const pml4: nat
    var mem: Memory
    ghost const kernel: set<nat>
    ghost var role: map<nat, seq<nat>>
    var buffer: seq<nat>
    var supply: seq<nat>

    ghost predicate Valid()
      reads this
    {
      && Tree(mem, pml4, role)
      && Spare(mem, role, buffer, supply)
      && Links(mem, role, kernel)
      && |buffer| <= BUFFER_SIZE
    }

    constructor (root: nat, pages: seq<nat>)
      requires Distinct(pages) && root !in pages && forall x :: x in pages ==> Aligned(x)
      ensures Valid() && pml4 == root && supply == pages
      ensures forall v: nat :: v < PAGES ==> Lookup(mem, pml4, v) == 0
      ensures Reached(mem, pml4) == EMPTY && buffer == [] && kernel == {}
    {
      pml4, mem, role, buffer, supply, kernel := root, map[root := Blank()], map[root := []], [], pages, {};
      new;
      assert [] + pages == pages && !Present(0);
      forall v: nat | v < PAGES ensures Lookup(mem, pml4, v) == 0 {
        assert Path(v)[..1][..0] == [] && TableAt(mem, pml4, Path(v)[..1]).None?;
        NoTable(mem, pml4, Path(v), 1);
      }
      forall q | q != [] ensures TableAt(mem, pml4, q).None? {
        assert q[..1][..0] == [] && TableAt(mem, pml4, q[..1]).None?;
        NoTable(mem, pml4, q, 1);
      }
    }

    /** Every page that is a table of the tree, buffered, or still to be handed out. */
    ghost function Pool(): set<nat>
      reads this
    {
      role.Keys + PageSet(buffer + supply)
    }

    /** get_entry_or_allocate: the entry, or a fresh blank table linked in its place. */
    method GetEntryOrAllocate(table: nat, index: nat, ghost path: seq<nat>) returns (ok: bool, entry: nat)
      requires Valid() && Indices(path + [index]) && TableAt(mem, pml4, path) == Some(table)
      modifies this`mem, this`role, this`buffer
      ensures Valid()
      ensures ok <==> old(TableAt(mem, pml4, path + [index])).Some? || old(buffer) != []
      ensures ok ==> TableAt(mem, pml4, path + [index]) == Some(ExtractPointer(entry))
      ensures |buffer| == |old(buffer)| - if ok && old(TableAt(mem, pml4, path + [index])).None? then 1 else 0
      ensures ok ==> table in mem && index < |mem[table]| && mem[table][index] == entry
      ensures ok && old(TableAt(mem, pml4, path + [index])).None? ==>
                EntryIs(entry, old(buffer)[|buffer|], PRESENT_ENTRY + PL_US + PL_RW)
      ensures SameView(old(mem), mem, pml4) && Grown(old(mem), mem, pml4, path + [index])
      ensures Pool() == old(Pool())
    {
      hide Tree, Spare, Links, TableAt, Lookup, SameView, Grown, Indices, PageSet, CreateEntry, EntryIs, ExtractPointer;
      WalkStep(mem, pml4, role, path, index, table);
      Unchanged(mem, pml4);
      entry := mem[table][index];
      if Present(entry) {
        return true, entry;
      }
      if buffer == [] {
        return false, entry;
      }
      var page := buffer[|buffer| - 1];
      var e := CreateEntry(page, PRESENT_ENTRY + PL_US + PL_RW);
      LastBuffered(mem, role, buffer, supply);
      NewLink(page);
      Link(mem, pml4, role, table, index, page, e, path);
      SpareAfterLink(mem, role, buffer, supply, table, index, e);
      LinksLinked(mem, role, kernel, table, index, page, e);
      buffer := buffer[..|buffer| - 1];
      mem := Put(mem, table, index, e);
      role := role[page := role[table] + [index]];
      return true, e;
    }

    /** The last-level table of a page, allocating every level that is missing. */
    method TableFor(virt: nat) returns (ok: bool, pt: nat)
      requires Valid()
      modifies this`mem, this`role, this`buffer
      ensures Valid()
      ensures ok <==> |old(buffer)| >= Missing(old(mem), pml4, Vpn(virt))
      ensures ok ==> |buffer| == |old(buffer)| - Missing(old(mem), pml4, Vpn(virt))
      ensures ok ==> TableAt(mem, pml4, Path(Vpn(virt))) == Some(pt)
      ensures ok ==> Reached(mem, pml4) == WithPage(Reached(old(mem), pml4), Vpn(virt))
      ensures SameView(old(mem), mem, pml4) && Keeps(old(mem), mem, pml4)
      ensures Pool() == old(Pool())
    {
      hide Tree, Spare, Links, TableAt, Lookup, SameView, Keeps, Grown, PageSet, Reached;
      ghost var v, m0 := Vpn(virt), mem;
      OffsetsArePath(virt);
      var i4, i3, i2 := Pml4Offset(virt), PdptOffset(virt), PdOffset(virt);
      ghost var p := Path(v);
      assert p[..1] == [] + [i4] && p[..2] == p[..1] + [i3] && p == p[..2] + [i2];
      PathIndices(v);
      pt := 0;
      RootWalk(mem, pml4);
      var entry;
      ok, entry := GetEntryOrAllocate(pml4, i4, []);
      ghost var m1 := mem;
      GrownKeeps(m0, m1, pml4, p[..1]);
      AfterFirst(m0, m1, pml4, p);
      if !ok {
        return;
      }
      GrownReached(m0, m1, pml4, p[..1]);
      ok, entry := GetEntryOrAllocate(ExtractPointer(entry), i3, p[..1]);
      ghost var m2 := mem;
      GrownKeeps(m1, m2, pml4, p[..2]);
      KeepsTrans(m0, m1, m2, pml4);
      AfterSecond(m1, m2, pml4, p);
      if !ok {
        return;
      }
      GrownReached(m1, m2, pml4, p[..2]);
      ok, entry := GetEntryOrAllocate(ExtractPointer(entry), i2, p[..2]);
      GrownKeeps(m2, mem, pml4, p);
      KeepsTrans(m0, m2, mem, pml4);
      pt := ExtractPointer(entry);
      if ok {
        GrownReached(m2, mem, pml4, p);
      }
    }

    /** The inner loop of internal_map_pages: one last-level table, from the page at hand on. */
    method FillTable(pt: nat, phys0: nat, virt0: nat, count0: nat, flags: nat,
                     ghost m0: Memory, ghost base: nat, ghost x: nat, ghost k0: nat, ghost total: nat)
      returns (r: MapResult, count: nat, phys: nat, virt: nat, ghost k: nat)
      requires Valid() && Keeps(m0, mem, pml4) && 0 < count0 == total - k0 && total <= PAGES && phys0 == base + PAGE * k0
      requires PtOffset(virt0) == PageOf(x, k0) % 512 && TableAt(mem, pml4, Path(PageOf(x, k0))) == Some(pt)
      requires MappedRun(m0, mem, pml4, x, k0, base, flags)
      modifies this`mem
      ensures Valid() && Keeps(m0, mem, pml4) && k0 <= k <= total
      ensures r == Mapped || (r == AlreadyMapped && k < total && Present(Lookup(m0, pml4, PageOf(x, k))))
      ensures count == total - k && virt == virt0 + PAGE * (k - k0) && phys == base + PAGE * k
      ensures MappedRun(m0, mem, pml4, x, k, base, flags)
      ensures forall j: nat :: k0 <= j < k ==> !Present(Lookup(m0, pml4, PageOf(x, j)))
      ensures r == Mapped ==> k > k0 && forall j: nat :: k0 <= j < k ==> TableAt(mem, pml4, Path(PageOf(x, j))) == Some(pt)
      ensures Reached(mem, pml4) == Reached(old(mem), pml4)
    {
      hide Tree, Spare, Links, TableAt, Lookup, Keeps, MappedRun, Path, CreateEntry, PageOf, PtOffset, Reached;
      r, phys, virt, count, k := Mapped, phys0, virt0, count0, k0;
      var pti := PtOffset(virt);
      while count > 0 && pti < 512
        invariant Valid() && Keeps(m0, mem, pml4) && k0 <= k <= total
        invariant count == total - k && virt == virt0 + PAGE * (k - k0) && phys == base + PAGE * k
        invariant MappedRun(m0, mem, pml4, x, k, base, flags)
        invariant forall j: nat :: k0 <= j < k ==> !Present(Lookup(m0, pml4, PageOf(x, j)))
        invariant pti <= 512 && (k == k0 ==> pti < 512)
        invariant forall j: nat :: k0 <= j < k ==> TableAt(mem, pml4, Path(PageOf(x, j))) == Some(pt)
        invariant Reached(mem, pml4) == Reached(old(mem), pml4)
        invariant pti < 512 ==> pti == PageOf(x, k) % 512 && TableAt(mem, pml4, Path(PageOf(x, k))) == Some(pt)
      {
        RunAhead(m0, mem, pml4, x, k, base, flags);
        LeafEntry(mem, pml4, role, PageOf(x, k), pt);
        if Present(mem[pt][pti]) {
          return AlreadyMapped, count, phys, virt, k;
        }
        var e := CreateEntry(phys, flags);
        SetLeaf(mem, pml4, role, buffer, supply, PageOf(x, k), pt, e);
        LinksLeaf(mem, pml4, role, kernel, PageOf(x, k), pt, e);
        RunStep(m0, mem, Put(mem, pt, pti, e), pml4, x, k, base, flags);
        KeepsChain(m0, mem, Put(mem, pt, pti, e), pml4);
        PageStep(x, k);
        mem := Put(mem, pt, pti, e);
        pti := pti + 1;
        count := count - 1;
        phys := phys + PAGE;
        virt := virt + PAGE;
        k := k + 1;
      }
    }

    /** internal_map_pages: fills each last-level table in turn. */
    method InternalMapPages(phys0: nat, virt0: nat, count0: nat, flags: nat) returns (r: MapResult)
      requires Valid() && count0 <= PAGES
      modifies this`mem, this`role, this`buffer
      ensures Valid() && r != OutOfMemory && Keeps(old(mem), mem, pml4)
      ensures r == Mapped ==> MappedRun(old(mem), mem, pml4, virt0 / PAGE, count0, phys0, flags)
      ensures r == Mapped ==> forall k: nat :: k < count0 ==> !Present(Lookup(old(mem), pml4, PageOf(virt0 / PAGE, k)))
      ensures r == AlreadyMapped ==>
                exists k: nat :: k < count0 && Present(Lookup(old(mem), pml4, PageOf(virt0 / PAGE, k)))
      ensures var need := Needed(Reached(old(mem), pml4), virt0 / PAGE, count0);
              && (r == OutOfTables ==> |old(buffer)| < need)
              && (r == Mapped ==> |buffer| == |old(buffer)| - need)
      ensures r == Mapped ==> Reached(mem, pml4) == WithRun(Reached(old(mem), pml4), virt0 / PAGE, count0)
      ensures Pool() == old(Pool())
    {
      hide PageSet, Tree, Spare, Links, TableAt, Lookup, SameView, Keeps, MappedRun, Missing, Path, CreateEntry, PageOf;
      hide Reached, WithRun, WithPage, NewFor, Needed;
      var phys, virt, count := phys0, virt0, count0;
      ghost var x, m0 := virt0 / PAGE, mem;
      ghost var open := Reached(mem, pml4);
      Nothing(mem, pml4, x, phys0, flags);
      RunStart(open, x);
      ghost var k: nat := 0;
      while count > 0
        invariant Valid() && Keeps(m0, mem, pml4) && Pool() == old(Pool())
        invariant count == count0 - k && virt == virt0 + PAGE * k && phys == phys0 + PAGE * k
        invariant MappedRun(m0, mem, pml4, x, k, phys0, flags)
        invariant forall j: nat :: j < k ==> !Present(Lookup(m0, pml4, PageOf(x, j)))
        invariant Reached(mem, pml4) == WithRun(open, x, k) && |buffer| == |old(buffer)| - Needed(open, x, k)
      {
        PageArith(virt0, k);
        MissingIsNew(mem, pml4, Vpn(virt));
        OneMore(open, x, k);
        NeededMonotone(open, x, k + 1, count0);
        ghost var m1, k1 := mem, k;
        var ok, pt := TableFor(virt);
        KeepsChain(m0, m1, mem, pml4);
        if !ok {
          return OutOfTables;
        }
        RunSameView(m0, m1, mem, pml4, x, k, phys0, flags);
        ghost var n: nat;
        r, count, phys, virt, n := FillTable(pt, phys, virt, count, flags, m0, phys0, x, k, count0);
        if r == AlreadyMapped {
          return;
        }
        k := n;
        TableServes(mem, pml4, open, x, k1, k, pt);
      }
      return Mapped;
    }

    /** fill_page_table_allocator_buffer: top the buffer up to n blanked pages. */
    method FillBuffer(n: nat) returns (ok: bool)
      requires Valid() && n <= BUFFER_SIZE
      modifies this`mem, this`buffer, this`supply
      ensures Valid() && SameView(old(mem), mem, pml4) && Keeps(old(mem), mem, pml4)
      ensures ok <==> |old(buffer)| + |old(supply)| >= n
      ensures ok ==> |buffer| == (if |old(buffer)| >= n then |old(buffer)| else n)
      ensures |buffer| + |supply| == |old(buffer)| + |old(supply)| && Reached(mem, pml4) == Reached(old(mem), pml4)
      ensures Pool() == old(Pool())
    {
      Unchanged(mem, pml4);
      if |buffer| + |supply| < n {
        return false;
      }
      while |buffer| < n
        invariant Valid() && Pool() == old(Pool()) && |buffer| + |supply| == |old(buffer)| + |old(supply)|
        invariant SameView(old(mem), mem, pml4) && Keeps(old(mem), mem, pml4) && Reached(mem, pml4) == Reached(old(mem), pml4)
        invariant |buffer| == |old(buffer)| || |buffer| <= n
        decreases |supply|
      {
        hide Tree, Spare, Links, TableAt, Lookup, SameView, Keeps, Reached;
        ghost var m := mem;
        var page := supply[0];
        TakePage(mem, pml4, role, buffer, supply);
        LinksTake(mem, role, kernel, buffer, supply);
        assert buffer + [page] + supply[1..] == buffer + supply;
        mem := mem[page := Blank()];
        buffer := buffer + [page];
        supply := supply[1..];
        KeepsTrans(old(mem), m, mem, pml4);
      }
      ok := true;
    }

    /** map_pages: batches of 64 pages, the buffer topped up before each. The "out of buffered
        pages" panic is never reached; memory runs out exactly when 64 pages are not left for
        the buffer at the start of the last batch. */
    method MapPages(phys0: nat, virt0: nat, count0: nat, flags: nat) returns (r: MapResult)
      requires Valid() && count0 <= PAGES
      modifies this`mem, this`role, this`buffer, this`supply
      ensures Valid() && r != OutOfTables
      ensures r == Mapped ==> MappedRun(old(mem), mem, pml4, virt0 / PAGE, count0, phys0, flags)
      ensures r == Mapped && FlagsOk(flags) && phys0 % PAGE == 0 && phys0 + PAGE * count0 <= ADDRESS_LIMIT ==>
                forall k: nat :: k < count0 ==> EntryIs(Lookup(mem, pml4, PageOf(virt0 / PAGE, k)), phys0 + PAGE * k, flags)
      ensures r == Mapped ==> forall k: nat :: k < count0 ==> !Present(Lookup(old(mem), pml4, PageOf(virt0 / PAGE, k)))
      ensures r == AlreadyMapped ==>
                exists k: nat :: k < count0 && Present(Lookup(old(mem), pml4, PageOf(virt0 / PAGE, k)))
      ensures var need := BUFFER_SIZE + Needed(Reached(old(mem), pml4), virt0 / PAGE, LastBatch(count0));
              && (r == OutOfMemory ==> |old(buffer)| + |old(supply)| < need)
              && (r == Mapped ==> |old(buffer)| + |old(supply)| >= need)
    {
      hide Tree, Spare, Links, TableAt, Lookup, SameView, Keeps, MappedRun, Missing, Crossings, Path, CreateEntry, PageOf;
      hide Reached, WithRun, WithPage, NewFor, Needed;
      var phys, virt, count := phys0, virt0, count0;
      ghost var m0, x, k: nat := mem, virt0 / PAGE, 0;
      ghost var open, pages := Reached(mem, pml4), |buffer| + |supply|;
      Nothing(mem, pml4, x, phys0, flags);
      RunStart(open, x);
      while true
        invariant Valid() && 0 <= k <= LastBatch(count0) && (k < count0 || count0 == 0) && k % 64 == 0
        invariant count == count0 - k && virt == virt0 + PAGE * k && phys == phys0 + PAGE * k
        invariant MappedRun(m0, mem, pml4, x, k, phys0, flags)
        invariant forall j: nat :: j < k ==> !Present(Lookup(m0, pml4, PageOf(x, j)))
        invariant Reached(mem, pml4) == WithRun(open, x, k) && |buffer| + |supply| == pages - Needed(open, x, k)
        decreases count
      {
        ghost var m1 := mem;
        NeededMonotone(open, x, k, LastBatch(count0));
        var ok := FillBuffer(BUFFER_SIZE);
        if !ok {
          return OutOfMemory;
        }
        RunSameView(m0, m1, mem, pml4, x, k, phys0, flags);
        var size := if count > BUFFER_SIZE then 64 else count;
        ghost var m2 := mem;
        assert virt / PAGE == x + k;
        RunBound(Reached(mem, pml4), x + k, size);
        NeededSplit(open, x, k, size);
        r := InternalMapPages(phys, virt, size, flags);
        BatchFresh(m0, m2, pml4, x, k, phys0, flags, size);
        if r != Mapped {
          return;
        }
        RunJoin(m0, m2, mem, pml4, x, k, size, phys0, flags);
        if count <= BUFFER_SIZE {
          assert k == LastBatch(count0);
          if FlagsOk(flags) && phys0 % PAGE == 0 && phys0 + PAGE * count0 <= ADDRESS_LIMIT {
            RunEntries(m0, mem, pml4, x, count0, phys0, flags);
          }
          return;
        }
        k := k + size;
        count := count - size;
        phys := phys + PAGE * size;
        virt := virt + PAGE * size;
      }
    }

    /** One bulk of alloc_pages: physalloc hands out one page at a time and the callback maps it. */
    method AllocBulk(virt: nat, size: nat, flags: nat) returns (r: MapResult, frames: seq<nat>)
      requires Valid() && size <= MAX_ALLOC && |supply| >= size && |buffer| >= BUFFER_REFILL
      modifies this`mem, this`role, this`buffer, this`supply
      ensures Valid() && (r == Mapped || r == AlreadyMapped)
      ensures r == Mapped ==> MappedTo(old(mem), mem, pml4, virt / PAGE, frames, flags)
      ensures |frames| <= size && (r == Mapped ==> |frames| == size) && AllAligned(frames)
      ensures r == Mapped ==> forall k: nat :: k < size ==> !Present(Lookup(old(mem), pml4, PageOf(virt / PAGE, k)))
      ensures r == AlreadyMapped ==>
                exists k: nat :: k < size && Present(Lookup(old(mem), pml4, PageOf(virt / PAGE, k)))
      ensures Pool() == old(Pool()) - PageSet(frames) && Distinct(frames) && PageSet(frames) <= old(Pool())
      ensures r == Mapped ==>
                && Reached(mem, pml4) == WithRun(Reached(old(mem), pml4), virt / PAGE, size)
                && |buffer| == |old(buffer)| - Needed(Reached(old(mem), pml4), virt / PAGE, size) && |supply| == |old(supply)| - size
    {
      hide Tree, Spare, Links, TableAt, Lookup, SameView, Keeps, MappedRun, MappedTo, Missing, Crossings, Path, CreateEntry, PageOf;
      hide Reached, WithRun, WithPage, NewFor, Needed, Distinct;
      frames := [];
      ghost var m0, x, open := mem, virt / PAGE, Reached(mem, pml4);
      NoFrames(mem, pml4, x, flags);
      RunStart(open, x);
      var i: nat := 0;
      while i < size
        invariant Valid() && i <= size
        invariant |frames| == i && |supply| == |old(supply)| - i && AllAligned(frames)
        invariant forall k: nat :: k < i ==> !Present(Lookup(m0, pml4, PageOf(x, k)))
        invariant Pool() == old(Pool()) - PageSet(frames) && Distinct(frames) && PageSet(frames) <= old(Pool())
        invariant MappedTo(m0, mem, pml4, x, frames, flags)
        invariant Reached(mem, pml4) == WithRun(open, x, i) && |buffer| == |old(buffer)| - Needed(open, x, i)
      {
        PageArith(virt, i);
        RunBound(open, x, i + 1);
        NeededSplit(open, x, i, 1);
        ghost var m1 := mem;
        var v := virt + PAGE * i;
        assert v / PAGE == x + i;
        assert Vpn(v) == PageOf(x, i);
        assert PageOf(x + i, 0) == PageOf(x, i) by { PageArith(v, 0); }
        ToAhead(m0, mem, pml4, x, frames, flags, 1);
        assert Lookup(mem, pml4, PageOf(x + i, 0)) == Lookup(m0, pml4, PageOf(x, i));
        var frame := supply[0];
        r := InternalMapPages(frame, v, 1, flags);
        if r != Mapped {
          return AlreadyMapped, frames;
        }
        ToStep(m0, m1, mem, pml4, x, frames, frame, flags);
        DropPage(mem, role, buffer, supply);
        OneFrame(frames, frame);
        supply := supply[1..];
        frames := frames + [frame];
        i := i + 1;
      }
      return Mapped, frames;
    }

    /** alloc_pages: bulks of at most 4096 pages, each with at least 16 tables buffered. Memory
        runs out only when it does not hold the frames, the tables they need and the buffer. */
    method AllocPages(virt0: nat, count0: nat, flags: nat) returns (r: MapResult, frames: seq<nat>)
      requires Valid() && count0 <= PAGES
      modifies this`mem, this`role, this`buffer, this`supply
      ensures Valid() && r != OutOfTables
      ensures r == Mapped ==> |frames| == count0 && MappedTo(old(mem), mem, pml4, virt0 / PAGE, frames, flags)
      ensures r == Mapped && FlagsOk(flags) ==>
                forall k: nat :: k < count0 ==> EntryIs(Lookup(mem, pml4, PageOf(virt0 / PAGE, k)), frames[k], flags)
      ensures r == Mapped ==> forall k: nat :: k < count0 ==> !Present(Lookup(old(mem), pml4, PageOf(virt0 / PAGE, k)))
      ensures r == AlreadyMapped ==>
                exists k: nat :: k < count0 && Present(Lookup(old(mem), pml4, PageOf(virt0 / PAGE, k)))
      ensures Distinct(frames) && PageSet(frames) <= old(Pool()) && Pool() == old(Pool()) - PageSet(frames)
      ensures var need := count0 + Needed(Reached(old(mem), pml4), virt0 / PAGE, count0);
              var pages := |old(buffer)| + |old(supply)|;
              && (r == OutOfMemory ==> pages < need + Max(BUFFER_REFILL, |old(buffer)|))
              && (r == Mapped ==> |buffer| + |supply| == pages - need)
    {
      hide Tree, Spare, Links, TableAt, Lookup, SameView, Keeps, MappedTo, CreateEntry, PageOf;
      hide Reached, WithRun, WithPage, NewFor, Needed;
      frames := [];
      ghost var m0, x := mem, virt0 / PAGE;
      ghost var open, pages := Reached(mem, pml4), |buffer| + |supply|;
      NoFrames(mem, pml4, x, flags);
      RunStart(open, x);
      var virt, count := virt0, count0;
      while count > 0
        invariant Valid() && 0 <= count == count0 - |frames| && virt == virt0 + PAGE * |frames|
        invariant MappedTo(m0, mem, pml4, x, frames, flags) && AllAligned(frames)
        invariant Distinct(frames) && PageSet(frames) <= old(Pool()) && Pool() == old(Pool()) - PageSet(frames)
        invariant forall k: nat :: k < |frames| ==> !Present(Lookup(m0, pml4, PageOf(x, k)))
        invariant Reached(mem, pml4) == WithRun(open, x, |frames|) && |buffer| <= Max(BUFFER_REFILL, |old(buffer)|)
        invariant |buffer| + |supply| == pages - |frames| - Needed(open, x, |frames|)
        decreases count
      {
        ghost var m1 := mem;
        NeededMonotone(open, x, |frames|, count0);
        var ok := FillBuffer(BUFFER_REFILL);
        var size := if count > MAX_ALLOC then MAX_ALLOC else count;
        if !ok || |supply| < size {
          return OutOfMemory, frames;
        }
        ToSameView(m0, m1, mem, pml4, x, frames, flags);
        ghost var m2 := mem;
        assert virt / PAGE == x + |frames|;
        NeededSplit(open, x, |frames|, size);
        var more;
        r, more := AllocBulk(virt, size, flags);
        ToAhead(m0, m2, pml4, x, frames, flags, size);
        DistinctJoin(frames, more);
        if r != Mapped {
          ghost var j: nat :| j < size && Present(Lookup(m2, pml4, PageOf(x + |frames|, j)));
          assert Present(Lookup(m0, pml4, PageOf(x, |frames| + j)));
          return r, frames + more;
        }
        ToJoin(m0, m2, mem, pml4, x, frames, more, flags);
        frames := frames + more;
        count := count - size;
        virt := virt + PAGE * size;
      }
      if FlagsOk(flags) {
        ToEntries(m0, mem, pml4, x, frames, flags);
      }
      return Mapped, frames;
    }

    /** get_phys_addr: the four-level walk computes the flat view. */
    method GetPhysAddr(addr: nat) returns (paddr: nat)
      requires Valid()
      ensures paddr == Translate(mem, pml4, addr)
    {
      hide Path, Or, Lookup, Spare, Links, Tree, TableAt;
      OffsetsArePath(addr);
      var found, table := GetPageTable(addr);
      if !found {
        NoEntry(mem, pml4, Vpn(addr));
        return 0;
      }
      LeafEntry(mem, pml4, role, Vpn(addr), table);
      var entry := mem[table][PtOffset(addr)];
      if !Present(entry) {
        return 0;
      }
      OrSum(ExtractPointer(entry), addr % PAGE);
      return Or(ExtractPointer(entry), addr % PAGE);
    }

    /** unmap_pages: clears the entries of a run and, on request, frees the frames they held.
        It completes exactly when every page of the run was mapped. */
    method UnmapPages(virt0: nat, count0: nat, free: bool) returns (ok: bool, freed: seq<nat>)
      requires Valid() && count0 <= PAGES
      modifies this`mem
      ensures Valid() && Keeps(old(mem), mem, pml4)
      ensures ok <==> forall k: nat :: k < count0 ==> Present(Lookup(old(mem), pml4, PageOf(virt0 / PAGE, k)))
      ensures ok ==> UnmappedRun(old(mem), mem, pml4, virt0 / PAGE, count0)
      ensures ok && free ==> |freed| == count0 && forall k: nat :: k < count0 ==>
                freed[k] == ExtractPointer(Lookup(old(mem), pml4, PageOf(virt0 / PAGE, k)))
      ensures !free ==> freed == []
    {
      hide Tree, Spare, Links, TableAt, Lookup, Keeps, UnmappedRun, Path, PageOf, PtOffset, ExtractPointer;
      var virt, count := virt0, count0;
      freed := [];
      ghost var m0, x, k: nat := mem, virt0 / PAGE, 0;
      NoneUnmapped(mem, pml4, x);
      while count > 0
        invariant Valid() && Keeps(m0, mem, pml4)
        invariant count == count0 - k && virt == virt0 + PAGE * k
        invariant UnmappedRun(m0, mem, pml4, x, k)
        invariant forall j: nat :: j < k ==> Present(Lookup(m0, pml4, PageOf(x, j)))
        invariant if free then |freed| == k && forall j: nat :: j < k ==> freed[j] == ExtractPointer(Lookup(m0, pml4, PageOf(x, j)))
                  else freed == []
      {
        PageArith(virt0, k);
        var found, pt := GetPageTable(virt);
        UnmapAhead(m0, mem, pml4, x, k);
        if !found {
          NoEntry(mem, pml4, PageOf(x, k));
          return false, freed;
        }
        var pti := PtOffset(virt);
        ghost var k1 := k;
        while count > 0 && pti < 512
          invariant Valid() && Keeps(m0, mem, pml4) && k1 <= k
          invariant count == count0 - k && virt == virt0 + PAGE * k
          invariant UnmappedRun(m0, mem, pml4, x, k)
          invariant forall j: nat :: j < k ==> Present(Lookup(m0, pml4, PageOf(x, j)))
          invariant if free then |freed| == k && forall j: nat :: j < k ==> freed[j] == ExtractPointer(Lookup(m0, pml4, PageOf(x, j)))
                    else freed == []
          invariant pti <= 512 && (k == k1 ==> pti < 512)
          invariant pti < 512 ==> pti == PageOf(x, k) % 512 && TableAt(mem, pml4, Path(PageOf(x, k))) == Some(pt)
        {
          UnmapAhead(m0, mem, pml4, x, k);
          LeafEntry(mem, pml4, role, PageOf(x, k), pt);
          if !Present(mem[pt][pti]) {
            return false, freed;
          }
          if free {
            freed := freed + [ExtractPointer(mem[pt][pti])];
          }
          SetLeaf(mem, pml4, role, buffer, supply, PageOf(x, k), pt, 0);
          LinksLeaf(mem, pml4, role, kernel, PageOf(x, k), pt, 0);
          UnmapStep(m0, mem, Put(mem, pt, pti, 0), pml4, x, k);
          KeepsChain(m0, mem, Put(mem, pt, pti, 0), pml4);
          PageStep(x, k);
          mem := Put(mem, pt, pti, 0);
          pti := pti + 1;
          count := count - 1;
          virt := virt + PAGE;
          k := k + 1;
        }
      }
      return true, freed;
    }

    /** get_page_table_or_panic: the last-level table of an address, if the walk reaches one. */
    method GetPageTable(addr: nat) returns (found: bool, pt: nat)
      requires Valid()
      ensures found ==> TableAt(mem, pml4, Path(Vpn(addr))) == Some(pt)
      ensures !found ==> TableAt(mem, pml4, Path(Vpn(addr))).None?
    {
      hide Path, Spare, Links;
      OffsetsArePath(addr);
      ghost var p := Path(Vpn(addr));
      PathIndices(Vpn(addr));
      pt := pml4;
      var level := 0;
      var indices := [Pml4Offset(addr), PdptOffset(addr), PdOffset(addr)];
      assert p[..0] == [];
      while level < 3
        invariant 0 <= level <= 3 && TableAt(mem, pml4, p[..level]) == Some(pt)
      {
        assert Indices(p[..level]);
        WalkRole(mem, pml4, role, p[..level]);
        assert p[..level + 1][..level] == p[..level] && p[..level + 1][level] == indices[level];
        var entry := mem[pt][indices[level]];
        if !Present(entry) {
          NoTable(mem, pml4, p, level + 1);
          return false, 0;
        }
        pt := ExtractPointer(entry);
        level := level + 1;
      }
      assert p[..3] == p;
      return true, pt;
    }
  }

  ghost predicate AllAligned(frames: seq<nat>) {
    forall k :: 0 <= k < |frames| ==> Aligned(frames[k])
  }

  lemma NewLink(page: nat)
    requires Aligned(page)
    ensures
      var e := CreateEntry(page, PRESENT_ENTRY + PL_US + PL_RW);
      && EntryIs(e, page, PRESENT_ENTRY + PL_US + PL_RW) && LinkOk(e, false) && Present(e) && ExtractPointer(e) == page
  {
    hide CreateEntry;
    EntryRoundTrip(page, PRESENT_ENTRY + PL_US + PL_RW);
  }

  lemma LinksLinked(mem: Memory, role: map<nat, seq<nat>>, kernel: set<nat>, t: nat, i: nat, c: nat, e: nat)
    requires Links(mem, role, kernel) && t in role && t in mem && i < |mem[t]| && LinkOk(e, false)
    requires c !in role && c in mem && mem[c] == Blank()
    ensures Links(Put(mem, t, i, e), role[c := role[t] + [i]], kernel)
  {
    assert !Present(0);
  }

  /** Last-level entries are no links. */
  lemma LinksLeaf(mem: Memory, root: nat, role: map<nat, seq<nat>>, kernel: set<nat>, v: nat, t: nat, e: nat)
    requires Tree(mem, root, role) && Links(mem, role, kernel) && TableAt(mem, root, Path(v)) == Some(t)
    ensures t in mem && v % 512 < |mem[t]| && Links(Put(mem, t, v % 512, e), role, kernel)
  {
    PathIndices(v);
    WalkRole(mem, root, role, Path(v));
  }

  lemma LinksTake(mem: Memory, role: map<nat, seq<nat>>, kernel: set<nat>, buffer: seq<nat>, supply: seq<nat>)
    requires Links(mem, role, kernel) && Spare(mem, role, buffer, supply) && supply != []
    ensures Links(mem[supply[0] := Blank()], role, kernel)
  {
    assert supply[0] in buffer + supply;
  }

  lemma LinkAt(mem: Memory, role: map<nat, seq<nat>>, kernel: set<nat>, t: nat, i: nat)
    requires Links(mem, role, kernel) && t in role && |role[t]| < 3 && t in mem && i < |mem[t]| && Present(mem[t][i])
    ensures LinkOk(mem[t][i], role[t] == [] && i in kernel)
  {}

  /** Outside the kernel's part of the root no table on the way to a page restricts its rights. */
  lemma LeafDecides(mem: Memory, root: nat, role: map<nat, seq<nat>>, kernel: set<nat>, v: nat, k: nat)
    requires Tree(mem, root, role) && Links(mem, role, kernel) && TableAt(mem, root, Path(v)).Some? && k < 3
    requires k > 0 || Path(v)[0] !in kernel
    ensures TableAt(mem, root, Path(v)[..k]).Some?
    ensures
      var t := TableAt(mem, root, Path(v)[..k]).value;
      && t in mem && Path(v)[k] < |mem[t]| && mem[t][Path(v)[k]] % PAGE == PRESENT_ENTRY + PL_US + PL_RW
      && TableAt(mem, root, Path(v)[..k + 1]) == Some(ExtractPointer(mem[t][Path(v)[k]]))
  {
    hide Path, Tree, TableAt, Present, ExtractPointer;
    var p := Path(v);
    PathIndices(v);
    PrefixWalk(mem, root, p, k);
    if k < 2 {
      PrefixWalk(mem, root, p, k + 1);
    }
    assert p[..k] + [p[k]] == p[..k + 1] && p[..3] == p;
    var t := TableAt(mem, root, p[..k]).value;
    WalkStep(mem, root, role, p[..k], p[k], t);
    assert Present(mem[t][p[k]]) && |role[t]| == k;
    LinkAt(mem, role, kernel, t, p[k]);
  }

  lemma RunEntries(m0: Memory, m: Memory, root: nat, x: nat, n: nat, phys: nat, flags: nat)
    requires MappedRun(m0, m, root, x, n, phys, flags) && n <= PAGES
    requires FlagsOk(flags) && phys % PAGE == 0 && phys + PAGE * n <= ADDRESS_LIMIT
    ensures forall k: nat :: k < n ==> EntryIs(Lookup(m, root, PageOf(x, k)), phys + PAGE * k, flags)
  {
    hide Lookup, CreateEntry, EntryIs;
    forall k: nat | k < n ensures EntryIs(Lookup(m, root, PageOf(x, k)), phys + PAGE * k, flags) {
      SlotIs(x, PageOf(x, k), k);
      EntryRoundTrip(phys + PAGE * k, flags);
    }
  }

  lemma ToEntries(m0: Memory, m: Memory, root: nat, x: nat, frames: seq<nat>, flags: nat)
    requires MappedTo(m0, m, root, x, frames, flags) && |frames| <= PAGES && FlagsOk(flags) && AllAligned(frames)
    ensures forall k: nat :: k < |frames| ==> EntryIs(Lookup(m, root, PageOf(x, k)), frames[k], flags)
  {
    hide Lookup, CreateEntry, EntryIs;
    forall k: nat | k < |frames| ensures EntryIs(Lookup(m, root, PageOf(x, k)), frames[k], flags) {
      SlotIs(x, PageOf(x, k), k);
      EntryRoundTrip(frames[k], flags);
    }
  }

  lemma PageArith(virt: nat, k: nat)
    ensures PageOf(virt / PAGE, k) == Vpn(virt + PAGE * k)
    ensures PtOffset(virt + PAGE * k) == PageOf(virt / PAGE, k) % 512 < 512
    ensures PageOf(virt / PAGE, 0) == Vpn(virt)
  {
    assert (virt + PAGE * k) / PAGE == virt / PAGE + k;
    OffsetsArePath(virt + PAGE * k);
  }

  lemma PageStep(x: nat, k: nat)
    ensures PageOf(x, k + 1) == Next(PageOf(x, k))
    ensures PageOf(x, k) % 512 < 511 ==>
              PageOf(x, k + 1) % 512 == PageOf(x, k) % 512 + 1 && Path(PageOf(x, k + 1)) == Path(PageOf(x, k))
  {
    hide Path, PageOf, Next;
    PageNext(x, k);
    SamePath(PageOf(x, k));
    if PageOf(x, k) % 512 < 511 {
      NextInTable(PageOf(x, k));
    }
  }

  lemma NextInTable(v: nat)
    requires v < PAGES && v % 512 < 511
    ensures Next(v) % 512 == v % 512 + 1
  {
    Unique(v + 1, 512, v / 512, v % 512 + 1);
  }

  lemma Nothing(mem: Memory, root: nat, x: nat, phys: nat, flags: nat)
    ensures MappedRun(mem, mem, root, x, 0, phys, flags) && Keeps(mem, mem, root)
  {}

  lemma KeepsChain(a: Memory, b: Memory, c: Memory, root: nat)
    requires Keeps(a, b, root) && Keeps(b, c, root)
    ensures Keeps(a, c, root)
  {}

  lemma RunSameView(m0: Memory, m: Memory, m': Memory, root: nat, x: nat, k: nat, phys: nat, flags: nat)
    requires MappedRun(m0, m, root, x, k, phys, flags) && SameView(m, m', root)
    ensures MappedRun(m0, m', root, x, k, phys, flags)
  {}

  /** The page after a mapped run still has its original entry. */
  lemma RunAhead(m0: Memory, m: Memory, root: nat, x: nat, k: nat, phys: nat, flags: nat)
    requires MappedRun(m0, m, root, x, k, phys, flags) && k < PAGES
    ensures Lookup(m, root, PageOf(x, k)) == Lookup(m0, root, PageOf(x, k))
  {
    SlotIs(x, PageOf(x, k), k);
  }

  ghost predicate SameWalks(mem: Memory, mem': Memory, root: nat) {
    forall w: nat :: TableAt(mem', root, Path(w)) == TableAt(mem, root, Path(w))
  }

  ghost predicate PointUpdate(m: Memory, m': Memory, root: nat, v: nat, e: nat) {
    forall w: nat :: w < PAGES ==> Lookup(m', root, w) == if w == v then e else Lookup(m, root, w)
  }

  lemma RunStep(m0: Memory, m: Memory, m': Memory, root: nat, x: nat, k: nat, phys: nat, flags: nat)
    requires MappedRun(m0, m, root, x, k, phys, flags) && k < PAGES
    requires PointUpdate(m, m', root, PageOf(x, k), CreateEntry(phys + PAGE * k, flags))
    ensures MappedRun(m0, m', root, x, k + 1, phys, flags)
  {
    forall w: nat | w < PAGES
      ensures Lookup(m', root, w) ==
              if Slot(x, w) < k + 1 then CreateEntry(phys + PAGE * Slot(x, w), flags) else Lookup(m0, root, w)
    {
      SlotIs(x, w, k);
    }
  }

  lemma LeafEntry(mem: Memory, root: nat, role: map<nat, seq<nat>>, v: nat, t: nat)
    requires Tree(mem, root, role) && TableAt(mem, root, Path(v)) == Some(t)
    ensures t in mem && |mem[t]| == 512 && mem[t][v % 512] == Lookup(mem, root, v)
  {
    PathIndices(v);
    WalkRole(mem, root, role, Path(v));
  }

  lemma SetLeaf(mem: Memory, root: nat, role: map<nat, seq<nat>>, buffer: seq<nat>, supply: seq<nat>, v: nat, t: nat, e: nat)
    requires Tree(mem, root, role) && Spare(mem, role, buffer, supply) && v < PAGES
    requires TableAt(mem, root, Path(v)) == Some(t)
    ensures t in mem && |mem[t]| == 512
    ensures var mem' := Put(mem, t, v % 512, e);
            && Tree(mem', root, role) && Spare(mem', role, buffer, supply)
            && PointUpdate(mem, mem', root, v, e)
            && Keeps(mem, mem', root) && TableAt(mem', root, Path(v)) == Some(t)
            && Reached(mem', root) == Reached(mem, root) && SameWalks(mem, mem', root)
  {
    PathIndices(v);
    WalkRole(mem, root, role, Path(v));
    var mem' := Put(mem, t, v % 512, e);
    forall w: nat | w < PAGES ensures Lookup(mem', root, w) == if w == v then e else Lookup(mem, root, w) {
      LeafLookup(mem, root, role, v, t, e, w);
    }
    LeafLookup(mem, root, role, v, t, e, v);
    forall q | Indices(q) ensures TableAt(mem', root, q) == TableAt(mem, root, q) {
      LeafWalk(mem, root, role, t, v % 512, e, q);
    }
    forall w: nat ensures TableAt(mem', root, Path(w)) == TableAt(mem, root, Path(w)) {
      PathIndices(w);
    }
    forall y | y in buffer ensures y in mem' && mem'[y] == Blank() {
      assert y in buffer + supply;
    }
  }

  /**
   Over an empty tree the bulk of 4096 pages from the last page of a 512 GB region uses exactly
   13 buffered tables, and runs out of tables with fewer.
   */
  method WorstBulk(tables: PageTables, phys: nat, flags: nat) returns (r: MapResult)
    requires tables.Valid() && Reached(tables.mem, tables.pml4) == EMPTY
    requires forall v: nat :: v < PAGES ==> Lookup(tables.mem, tables.pml4, v) == 0
    modifies tables
    ensures r == if |old(tables.buffer)| >= 13 then Mapped else OutOfTables
    ensures r == Mapped ==> |tables.buffer| == |old(tables.buffer)| - 13
  {
    ThirteenNeeded();
    hide Needed, Reached, WithRun, Lookup;
    r := tables.InternalMapPages(phys, 0x7ff_ffff * PAGE, 4096, flags);
  }

  lemma RunStart(open: iset<seq<nat>>, x: nat)
    ensures WithRun(open, x, 0) == open && Needed(open, x, 0) == 0
  {}

  lemma OneMore(open: iset<seq<nat>>, x: nat, k: nat)
    ensures WithRun(open, x, k + 1) == WithPage(WithRun(open, x, k), PageOf(x, k))
    ensures Needed(open, x, k + 1) == Needed(open, x, k) + NewFor(WithRun(open, x, k), PageOf(x, k))
  {}

  /** The pages after the first that share its last-level table cost nothing. */
  lemma TableServes(mem: Memory, root: nat, open: iset<seq<nat>>, x: nat, k0: nat, k: nat, pt: nat)
    requires k0 < k && Reached(mem, root) == WithRun(open, x, k0 + 1)
    requires forall j: nat :: k0 <= j < k ==> TableAt(mem, root, Path(PageOf(x, j))) == Some(pt)
    ensures WithRun(open, x, k) == WithRun(open, x, k0 + 1) && Needed(open, x, k) == Needed(open, x, k0 + 1)
  {
    hide Path, PageOf, TableAt, Reached, WithRun, Needed, Covers;
    forall j: nat | k0 + 1 <= j < k ensures Covers(WithRun(open, x, k0 + 1), PageOf(x, j)) {
      ReachedCovers(mem, root, PageOf(x, j));
    }
    CoveredTail(open, x, k0 + 1, k);
  }

  lemma NoFrames(mem: Memory, root: nat, x: nat, flags: nat)
    ensures MappedTo(mem, mem, root, x, [], flags) && Distinct<nat>([])
  {}

  lemma OneFrame(frames: seq<nat>, frame: nat)
    requires Distinct(frames) && frame !in PageSet(frames)
    ensures Distinct(frames + [frame]) && PageSet(frames + [frame]) == PageSet(frames) + {frame}
  {}

  lemma ToStep(m0: Memory, m1: Memory, m2: Memory, root: nat, x: nat, frames: seq<nat>, frame: nat, flags: nat)
    requires |frames| < PAGES && MappedTo(m0, m1, root, x, frames, flags)
    requires MappedRun(m1, m2, root, x + |frames|, 1, frame, flags)
    ensures MappedTo(m0, m2, root, x, frames + [frame], flags)
  {
    hide Slot, CreateEntry, Lookup;
    forall w: nat | w < PAGES
      ensures Lookup(m2, root, w) ==
              if Slot(x, w) < |frames| + 1 then CreateEntry((frames + [frame])[Slot(x, w)], flags) else Lookup(m0, root, w)
    {
      SlotShift(x, |frames|, w);
    }
  }

  /** Pages after the mapped ones still have their original entries. */
  lemma ToAhead(m0: Memory, m: Memory, root: nat, x: nat, frames: seq<nat>, flags: nat, n: nat)
    requires MappedTo(m0, m, root, x, frames, flags) && |frames| + n <= PAGES
    ensures forall j: nat {:trigger PageOf(x + |frames|, j)} :: j < n ==>
              Lookup(m, root, PageOf(x + |frames|, j)) == Lookup(m0, root, PageOf(x, |frames| + j))
    ensures forall j: nat :: |frames| <= j < |frames| + n ==> PageOf(x, j) == PageOf(x + |frames|, j - |frames|)
  {
    forall j: nat {:trigger PageOf(x + |frames|, j)} | j < n
      ensures Lookup(m, root, PageOf(x + |frames|, j)) == Lookup(m0, root, PageOf(x, |frames| + j))
    {
      SlotIs(x, PageOf(x, |frames| + j), |frames| + j);
    }
  }

  lemma ToSameView(m0: Memory, m: Memory, m': Memory, root: nat, x: nat, frames: seq<nat>, flags: nat)
    requires MappedTo(m0, m, root, x, frames, flags) && SameView(m, m', root)
    ensures MappedTo(m0, m', root, x, frames, flags)
  {}

  lemma ToJoin(m0: Memory, m1: Memory, m2: Memory, root: nat, x: nat, frames: seq<nat>, more: seq<nat>, flags: nat)
    requires |frames| + |more| <= PAGES
    requires MappedTo(m0, m1, root, x, frames, flags) && MappedTo(m1, m2, root, x + |frames|, more, flags)
    ensures MappedTo(m0, m2, root, x, frames + more, flags)
  {
    hide Slot, CreateEntry, Lookup;
    var all := frames + more;
    forall w: nat | w < PAGES
      ensures Lookup(m2, root, w) ==
              if Slot(x, w) < |all| then CreateEntry(all[Slot(x, w)], flags) else Lookup(m0, root, w)
    {
      SlotShift(x, |frames|, w);
    }
  }

  lemma DropPage(mem: Memory, role: map<nat, seq<nat>>, buffer: seq<nat>, supply: seq<nat>)
    requires Spare(mem, role, buffer, supply) && supply != []
    ensures Spare(mem, role, buffer, supply[1..])
    ensures PageSet(buffer + supply[1..]) == PageSet(buffer + supply) - {supply[0]} && supply[0] !in role
    ensures supply[0] in PageSet(buffer + supply) && Aligned(supply[0])
  {
    var s, t, n := buffer + supply, buffer + supply[1..], |buffer|;
    assert s[n] == supply[0];
    forall k | 0 <= k < |t| ensures t[k] == s[if k < n then k else k + 1] {}
    forall x ensures x in t <==> x in s && x != s[n] {
      if x in t {
        var k :| 0 <= k < |t| && t[k] == x;
      }
      if x in s && x != s[n] {
        var k :| 0 <= k < |s| && s[k] == x;
        assert t[if k < n then k else k - 1] == x;
      }
    }
  }

  lemma DistinctJoin(a: seq<nat>, b: seq<nat>)
    requires Distinct(a) && Distinct(b) && PageSet(a) !! PageSet(b)
    ensures Distinct(a + b) && PageSet(a + b) == PageSet(a) + PageSet(b)
  {
    forall i, j | 0 <= i < j < |a + b| ensures (a + b)[i] != (a + b)[j] {
      if i < |a| <= j {
        assert a[i] in PageSet(a) && b[j - |a|] in PageSet(b);
      }
    }
  }

  lemma NoTable(mem: Memory, root: nat, p: seq<nat>, n: nat)
    requires n <= |p| && TableAt(mem, root, p[..n]).None?
    ensures TableAt(mem, root, p).None?
  {
    if TableAt(mem, root, p).Some? {
      PrefixWalk(mem, root, p, n);
    }
  }

  lemma NoEntry(mem: Memory, root: nat, v: nat)
    requires TableAt(mem, root, Path(v)).None?
    ensures Lookup(mem, root, v) == 0 && !Present(Lookup(mem, root, v))
  {}

  lemma OrSum(a: nat, b: nat)
    requires a % PAGE == 0 && b < PAGE
    ensures Or(a, b) == a + b
  {
    OrBelow(b, a);
    OrCommutes(a, b);
  }

  lemma {:induction false} OrCommutes(a: nat, b: nat)
    ensures Or(a, b) == Or(b, a)
  {
    if a != 0 || b != 0 {
      OrCommutes(a / 2, b / 2);
    }
  }

  lemma NoneUnmapped(mem: Memory, root: nat, x: nat)
    ensures UnmappedRun(mem, mem, root, x, 0) && Keeps(mem, mem, root)
  {}

  lemma UnmapAhead(m0: Memory, m: Memory, root: nat, x: nat, k: nat)
    requires UnmappedRun(m0, m, root, x, k) && k < PAGES
    ensures Lookup(m, root, PageOf(x, k)) == Lookup(m0, root, PageOf(x, k))
  {
    SlotIs(x, PageOf(x, k), k);
  }

  lemma UnmapStep(m0: Memory, m: Memory, m': Memory, root: nat, x: nat, k: nat)
    requires UnmappedRun(m0, m, root, x, k) && k < PAGES && PointUpdate(m, m', root, PageOf(x, k), 0)
    ensures UnmappedRun(m0, m', root, x, k + 1)
  {
    forall w: nat | w < PAGES
      ensures Lookup(m', root, w) == if Slot(x, w) < k + 1 then 0 else Lookup(m0, root, w)
    {
      SlotIs(x, w, k);
    }
  }

  /** Translation after mapping n frames from phys at virt: inside the range an address is moved
      by exactly phys - virt, and every other address translates as before. */
  lemma TranslateAfterMap(m0: Memory, m1: Memory, root: nat, virt: nat, n: nat, phys: nat, flags: nat, addr: nat)
    requires MappedRun(m0, m1, root, virt / PAGE, n, phys, flags)
    requires virt % PAGE == 0 && n <= PAGES
    requires FlagsOk(flags) && Present(flags) && phys % PAGE == 0 && phys + PAGE * n <= ADDRESS_LIMIT
    ensures virt <= addr < virt + PAGE * n ==> Translate(m1, root, addr) == phys + (addr - virt)
    ensures Slot(virt / PAGE, Vpn(addr)) >= n ==> Translate(m1, root, addr) == Translate(m0, root, addr)
  {
    var x, s := virt / PAGE, Slot(virt / PAGE, Vpn(addr));
    if s < n {
      EntryRoundTrip(phys + PAGE * s, flags);
    }
    if virt <= addr < virt + PAGE * n {
      var d := addr / PAGE - x;
      assert 0 <= d < n;
      SlotIs(x, Vpn(addr), d);
    }
  }

  /** Translation after unmapping: 0 inside the range, as before elsewhere. */
  lemma TranslateAfterUnmap(m0: Memory, m1: Memory, root: nat, virt: nat, n: nat, addr: nat)
    requires UnmappedRun(m0, m1, root, virt / PAGE, n)
    ensures Translate(m1, root, addr) == if Slot(virt / PAGE, Vpn(addr)) < n then 0 else Translate(m0, root, addr)
  {}

  lemma Unchanged(mem: Memory, root: nat)
    ensures SameView(mem, mem, root) && Keeps(mem, mem, root) && forall p :: Grown(mem, mem, root, p)
  {}

  lemma LastBuffered(mem: Memory, role: map<nat, seq<nat>>, buffer: seq<nat>, supply: seq<nat>)
    requires Spare(mem, role, buffer, supply) && buffer != []
    ensures var c := buffer[|buffer| - 1]; Aligned(c) && c !in role && c in mem && mem[c] == Blank()
  {
    assert (buffer + supply)[|buffer| - 1] == buffer[|buffer| - 1];
  }

  /** One step of a walk. */
  lemma WalkStep(mem: Memory, root: nat, role: map<nat, seq<nat>>, path: seq<nat>, i: nat, t: nat)
    requires Tree(mem, root, role) && Indices(path + [i]) && TableAt(mem, root, path) == Some(t)
    ensures i < 512 && Indices(path) && t in role && role[t] == path && t in mem && |mem[t]| == 512
    ensures TableAt(mem, root, path + [i]) == if Present(mem[t][i]) then Some(ExtractPointer(mem[t][i])) else None
  {
    hide Tree, TableAt, Present, ExtractPointer;
    assert forall k :: 0 <= k < |path| ==> path[k] == (path + [i])[k];
    assert (path + [i])[|path|] == i;
    WalkRole(mem, root, role, path);
    TreeTable(mem, root, role, t);
    TableStep(mem, root, path, i);
  }

  /** Blanking a page outside the tree changes no walk. */
  lemma {:induction false} OutsideWalk(mem: Memory, root: nat, role: map<nat, seq<nat>>, c: nat, path: seq<nat>)
    requires Tree(mem, root, role) && c !in role && Indices(path)
    ensures TableAt(mem[c := Blank()], root, path) == TableAt(mem, root, path)
  {
    if path != [] {
      OutsideWalk(mem, root, role, c, path[..|path| - 1]);
      if TableAt(mem, root, path[..|path| - 1]).Some? {
        WalkRole(mem, root, role, path[..|path| - 1]);
      }
    }
  }

  lemma TakePage(mem: Memory, root: nat, role: map<nat, seq<nat>>, buffer: seq<nat>, supply: seq<nat>)
    requires Tree(mem, root, role) && Spare(mem, role, buffer, supply) && supply != []
    ensures var mem' := mem[supply[0] := Blank()];
            && Tree(mem', root, role) && Spare(mem', role, buffer + [supply[0]], supply[1..])
            && SameView(mem, mem', root) && Keeps(mem, mem', root) && Reached(mem', root) == Reached(mem, root)
  {
    var c, mem' := supply[0], mem[supply[0] := Blank()];
    assert buffer + [c] + supply[1..] == buffer + supply;
    assert c in buffer + supply;
    forall v: nat | v < PAGES ensures Lookup(mem', root, v) == Lookup(mem, root, v) {
      PathIndices(v);
      OutsideWalk(mem, root, role, c, Path(v));
      if TableAt(mem, root, Path(v)).Some? {
        WalkRole(mem, root, role, Path(v));
      }
    }
    forall q | Indices(q) ensures TableAt(mem', root, q) == TableAt(mem, root, q) {
      OutsideWalk(mem, root, role, c, q);
    }
    forall y | y in buffer + [c] ensures y in mem' && mem'[y] == Blank() {}
  }

  /** Places in a run that starts k pages later. */
  lemma SlotShift(x: nat, k: nat, w: nat)
    requires w < PAGES && k <= PAGES
    ensures Slot(x + k, w) == if Slot(x, w) >= k then Slot(x, w) - k else Slot(x, w) - k + PAGES
  {
    var s, t := Slot(x, w), Slot(x + k, w);
    SlotIs(x, w, s);
    SlotIs(x + k, w, t);
    if s >= k {
      SlotIs(x + k, w, s - k);
    } else {
      assert (x + k + (s - k + PAGES)) % PAGES == (x + s) % PAGES by {
        Unique(x + s + PAGES, PAGES, (x + s) / PAGES + 1, (x + s) % PAGES);
      }
      SlotIs(x + k, w, s - k + PAGES);
    }
  }

  lemma RunJoin(m0: Memory, m1: Memory, m2: Memory, root: nat, x: nat, k: nat, n: nat, phys: nat, flags: nat)
    requires k + n <= PAGES
    requires MappedRun(m0, m1, root, x, k, phys, flags)
    requires MappedRun(m1, m2, root, x + k, n, phys + PAGE * k, flags)
    ensures MappedRun(m0, m2, root, x, k + n, phys, flags)
  {
    hide Slot, CreateEntry, Lookup;
    forall w: nat | w < PAGES
      ensures Lookup(m2, root, w) ==
              if Slot(x, w) < k + n then CreateEntry(phys + PAGE * Slot(x, w), flags) else Lookup(m0, root, w)
    {
      SlotShift(x, k, w);
    }
  }

  /** Pages after a mapped run still have their original entries. */
  lemma BatchFresh(m0: Memory, m: Memory, root: nat, x: nat, k: nat, phys: nat, flags: nat, n: nat)
    requires MappedRun(m0, m, root, x, k, phys, flags) && k + n <= PAGES
    ensures forall j: nat {:trigger PageOf(x + k, j)} :: j < n ==> Lookup(m, root, PageOf(x + k, j)) == Lookup(m0, root, PageOf(x, k + j))
    ensures forall j: nat :: k <= j < k + n ==> PageOf(x, j) == PageOf(x + k, j - k)
  {
    forall j: nat {:trigger PageOf(x + k, j)} | j < n ensures Lookup(m, root, PageOf(x + k, j)) == Lookup(m0, root, PageOf(x, k + j)) {
      SlotIs(x, PageOf(x, k + j), k + j);
    }
  }

  lemma RootWalk(mem: Memory, root: nat)
    ensures TableAt(mem, root, []) == Some(root)
  {}

  /** A linked table adds exactly the walk that leads to it. */
  lemma GrownReached(mem: Memory, mem': Memory, root: nat, p: seq<nat>)
    requires Grown(mem, mem', root, p) && Indices(p) && TableAt(mem', root, p).Some?
    ensures Reached(mem', root) == Reached(mem, root) + iset{p}
  {}

  lemma GrownKeeps(mem: Memory, mem': Memory, root: nat, p: seq<nat>)
    requires Grown(mem, mem', root, p)
    ensures Keeps(mem, mem', root) && SameView(mem, mem, root)
  {}

  lemma KeepsTrans(a: Memory, b: Memory, c: Memory, root: nat)
    requires Keeps(a, b, root) && Keeps(b, c, root) && SameView(a, b, root) && SameView(b, c, root)
    ensures Keeps(a, c, root) && SameView(a, c, root)
  {}

  lemma AfterFirst(m0: Memory, m1: Memory, root: nat, p: seq<nat>)
    requires |p| == 3 && Indices(p) && Grown(m0, m1, root, p[..1])
    ensures TableAt(m1, root, p[..2]) == TableAt(m0, root, p[..2]) && TableAt(m1, root, p) == TableAt(m0, root, p)
    ensures TableAt(m0, root, p[..1]).None? ==> TableAt(m0, root, p[..2]).None? && TableAt(m0, root, p).None?
  {
    assert Indices(p[..2]) && |p[..1]| != |p[..2]|;
    if TableAt(m0, root, p[..2]).Some? {
      PrefixWalk(m0, root, p[..2], 1);
      assert p[..2][..1] == p[..1];
    }
    if TableAt(m0, root, p).Some? {
      PrefixWalk(m0, root, p, 1);
    }
  }

  lemma AfterSecond(m1: Memory, m2: Memory, root: nat, p: seq<nat>)
    requires |p| == 3 && Indices(p) && Grown(m1, m2, root, p[..2])
    ensures TableAt(m2, root, p) == TableAt(m1, root, p)
    ensures TableAt(m1, root, p[..2]).None? ==> TableAt(m1, root, p).None?
  {
    assert |p[..2]| != |p|;
    if TableAt(m1, root, p).Some? {
      PrefixWalk(m1, root, p, 2);
    }
  }

  lemma Link(mem: Memory, root: nat, role: map<nat, seq<nat>>, t: nat, i: nat, c: nat, e: nat, path: seq<nat>)
    requires Tree(mem, root, role) && Indices(path + [i]) && Indices(path)
    requires TableAt(mem, root, path) == Some(t) && i < 512 && t in role && role[t] == path && !Present(mem[t][i])
    requires c !in role && c in mem && mem[c] == Blank() && Present(e) && ExtractPointer(e) == c
    ensures var mem' := Put(mem, t, i, e);
            && Tree(mem', root, role[c := role[t] + [i]])
            && SameView(mem, mem', root) && Grown(mem, mem', root, path + [i])
            && TableAt(mem, root, path + [i]).None? && TableAt(mem', root, path + [i]) == Some(c)
  {
    var mem' := Put(mem, t, i, e);
    LinkTree(mem, root, role, t, i, c, e);
    forall v: nat | v < PAGES ensures Lookup(mem', root, v) == Lookup(mem, root, v) {
      LinkLookup(mem, root, role, t, i, c, e, v);
    }
    forall q | Indices(q) && (q != path + [i] || TableAt(mem, root, q).Some?)
      ensures TableAt(mem', root, q) == TableAt(mem, root, q)
    {
      LinkWalk(mem, root, role, t, i, c, e, q);
    }
    assert (path + [i])[..|path|] == path;
    LinkWalk(mem, root, role, t, i, c, e, path + [i]);
  }

  lemma SpareAfterLink(mem: Memory, role: map<nat, seq<nat>>, buffer: seq<nat>, supply: seq<nat>, t: nat, i: nat, e: nat)
    requires Spare(mem, role, buffer, supply) && buffer != [] && t in role && t in mem && |mem[t]| == 512 && i < 512
    ensures var c := buffer[|buffer| - 1];
            && Spare(Put(mem, t, i, e), role[c := role[t] + [i]], buffer[..|buffer| - 1], supply)
            && PageSet(buffer + supply) == PageSet(buffer[..|buffer| - 1] + supply) + {c}
  {
    var n, c := |buffer| - 1, buffer[|buffer| - 1];
    var s, s' := buffer + supply, buffer[..n] + supply;
    assert s[n] == c;
    forall k | 0 <= k < |s'| ensures s'[k] == s[if k < n then k else k + 1] {}
    forall x | x in s' ensures x in s && x != c {
      var k :| 0 <= k < |s'| && s'[k] == x;
    }
    forall x | x in buffer[..n] ensures x in buffer && x in s && x != t {
    }
    forall x | x in s && x != c ensures x in s' {
      var k :| 0 <= k < |s| && s[k] == x;
      assert s'[if k < n then k else k - 1] == x;
    }
  }
}
