/**
 The page cache in front of a block device, for one client.

 A page is `spp` sectors: sector x is in page Quot(x, spp), at place Rem(x, spp). Reads go
 through a list of outstanding page fetches that is drained by a device sync; writes go to
 the cached page and then through to the device.
 */
module BlockCache {
  import opened Common
  import opened Division
  import opened PageRange

  type Sector = nat
  type Disk = nat -> Sector

  const MAX_PAGE_FETCHES := 256

  /** Pages under one entry of the top page table: 512 GB. */
  const ENTRY_PAGES := 0x800_0000

  /** Sectors [lba, lba + count) of a disk. */
  function Sectors(disk: Disk, lba: nat, count: nat): (s: seq<Sector>)
    ensures |s| == count && forall i :: 0 <= i < count ==> s[i] == disk(lba + i)
  {
    seq(count, i requires 0 <= i => disk(lba + i))
  }

  function Written(disk: Disk, lba: nat, buf: seq<Sector>): Disk {
    (x: nat) => if lba <= x < lba + |buf| then buf[x - lba] else disk(x)
  }

  lemma SectorsSlice(disk: Disk, lba: nat, count: nat, i: nat, j: nat)
    requires i <= j <= count
    ensures Sectors(disk, lba, count)[i..j] == Sectors(disk, lba + i, j - i)
  {}

  lemma SectorsJoin(disk: Disk, lba: nat, a: nat, b: nat)
    ensures Sectors(disk, lba, a) + Sectors(disk, lba + a, b) == Sectors(disk, lba, a + b)
  {}

  /** Sectors outside a write are untouched; sectors inside are the written ones. */
  lemma SectorsWritten(disk: Disk, lba: nat, buf: seq<Sector>, at: nat, count: nat)
    ensures at + count <= lba || lba + |buf| <= at ==> Sectors(Written(disk, lba, buf), at, count) == Sectors(disk, at, count)
    ensures lba <= at && at + count <= lba + |buf| ==> Sectors(Written(disk, lba, buf), at, count) == buf[at - lba..at - lba + count]
  {}

  /** How many sectors one turn of the loops handles: up to the end of the page. */
  function InIteration(lba: nat, count: nat, spp: nat): (n: nat)
    requires spp > 0
    ensures n <= count && Rem(lba, spp) + n <= spp && (count > 0 ==> n > 0)
    ensures n < count ==> Rem(lba, spp) + n == spp
  {
    var offset := Rem(lba, spp);
    if count > spp - offset then spp - offset else count
  }

  /** The write needs more than one page and does not end on a page boundary after the first. */
  predicate RaggedTail(lba: nat, count: nat, spp: nat)
    requires spp > 0
  {
    Rem(count - InIteration(lba, count, spp), spp) != 0
  }

  /** Moving on by one turn stays in the page or reaches the start of the next. */
  lemma Advance(lba: nat, n: nat, spp: nat)
    requires spp > 0 && Rem(lba, spp) + n == spp
    ensures Rem(lba + n, spp) == 0 && Quot(lba + n, spp) == Quot(lba, spp) + 1
  {
    QuotRem(lba, spp);
    assert lba + n == spp * (Quot(lba, spp) + 1) + 0;
    Unique(lba + n, spp, Quot(lba, spp) + 1, 0);
  }

  /** A ragged tail, as a caller sees it: two pages or more, ending inside a page. */
  lemma RaggedTailIff(lba: nat, count: nat, spp: nat)
    requires spp > 0 && count > 0
    ensures RaggedTail(lba, count, spp) <==> Quot(lba, spp) != Quot(lba + count - 1, spp) && Rem(lba + count, spp) != 0
  {
    var n := InIteration(lba, count, spp);
    var rest, q := count - n, Quot(lba, spp);
    QuotRem(lba, spp);
    Unique(0, spp, 0, 0);
    if rest == 0 {
      Unique(lba + count - 1, spp, q, Rem(lba, spp) + count - 1);
    } else {
      QuotRem(rest, spp);
      QuotRem(rest - 1, spp);
      var more, off := Quot(rest - 1, spp), Rem(rest - 1, spp);
      assert lba + count - 1 == spp * (q + 1 + more) + off;
      Unique(lba + count - 1, spp, q + 1 + more, off);
      assert lba + count == spp * (q + 1 + Quot(rest, spp)) + Rem(rest, spp);
      Unique(lba + count, spp, q + 1 + Quot(rest, spp), Rem(rest, spp));
    }
  }

  /** Four sectors from sector 6, with eight sectors a page. */
  lemma RaggedExample()
    ensures RaggedTail(6, 4, 8)
  {}

  lemma SubtractPage(a: nat, spp: nat)
    requires spp > 0 && a >= spp
    ensures (a - spp) % spp == a % spp
  {
    QuotRem(a, spp);
    assert a - spp == spp * (a / spp - 1) + a % spp;
    assert a / spp >= 1;
    Unique(a - spp, spp, a / spp - 1, a % spp);
  }

  ghost predicate Agrees(disk: Disk, spp: nat, pages: map<nat, seq<Sector>>) {
    forall p :: p in pages ==> pages[p] == Sectors(disk, Base(p, spp), spp)
  }

  // ---- one turn of a write ----------------------------------------------------------------

  /** What the disk will be once the first k sectors of the buffer are through. */
  ghost function Partial(disk: Disk, lba: nat, buf: seq<Sector>, k: nat): Disk
    requires k <= |buf|
  {
    Written(disk, lba, buf[..k])
  }

  lemma PartialStep(disk: Disk, lba: nat, buf: seq<Sector>, k: nat, n: nat, at: nat, count: nat)
    requires k + n <= |buf| && (at + count <= lba + k || lba + k + n <= at)
    ensures Sectors(Partial(disk, lba, buf, k + n), at, count) == Sectors(Partial(disk, lba, buf, k), at, count)
  {}

  lemma PartialChunk(disk: Disk, lba: nat, buf: seq<Sector>, k: nat, n: nat)
    requires k + n <= |buf|
    ensures Sectors(Partial(disk, lba, buf, k + n), lba + k, n) == buf[k..k + n]
  {}

  /** A page that starts past the written part, or before anything is written, is the disk's. */
  lemma UntouchedPage(disk: Disk, lba: nat, buf: seq<Sector>, k: nat, at: nat, count: nat)
    requires k <= |buf| && (k == 0 || lba + k <= at)
    ensures Sectors(Partial(disk, lba, buf, k), at, count) == Sectors(disk, at, count)
  {}

  /** Overlaying the chunk onto the page gives the page of the disk-to-be. */
  lemma OverlayPage(disk: Disk, lba: nat, buf: seq<Sector>, k: nat, n: nat, base: nat, offset: nat, spp: nat, page: seq<Sector>)
    requires k + n <= |buf| && lba + k == base + offset && offset + n <= spp && |page| == spp
    requires n < spp ==> page == Sectors(Partial(disk, lba, buf, k), base, spp)
    ensures Overlay(page, offset, buf[k..k + n]) == Sectors(Partial(disk, lba, buf, k + n), base, spp)
  {
    hide Quot, Rem, Base, Sectors, Partial;
    var after, rest := Partial(disk, lba, buf, k + n), spp - offset - n;
    PartialChunk(disk, lba, buf, k, n);
    SectorsJoin(after, base, offset, n);
    SectorsJoin(after, base, offset + n, rest);
    assert page[..offset] == Sectors(after, base, offset) && page[offset + n..] == Sectors(after, base + offset + n, rest) by {
      if n < spp {
        var before := Partial(disk, lba, buf, k);
        PartialStep(disk, lba, buf, k, n, base, offset);
        PartialStep(disk, lba, buf, k, n, base + offset + n, rest);
        SectorsSlice(before, base, spp, 0, offset);
        SectorsSlice(before, base, spp, offset + n, spp);
        assert page[..offset] == page[0..offset] && page[offset + n..] == page[offset + n..spp];
      }
    }
  }

  /** Pages other than the one written keep agreeing. */
  lemma OtherPages(disk: Disk, lba: nat, buf: seq<Sector>, k: nat, n: nat, spp: nat, pages: map<nat, seq<Sector>>, page: nat, data: seq<Sector>)
    requires spp > 0 && k + n <= |buf| && page == Quot(lba + k, spp) && Rem(lba + k, spp) + n <= spp
    requires Agrees(Partial(disk, lba, buf, k), spp, pages)
    requires data == Sectors(Partial(disk, lba, buf, k + n), Base(page, spp), spp)
    ensures Agrees(Partial(disk, lba, buf, k + n), spp, pages[page := data])
  {
    QuotRem(lba + k, spp);
    forall p | p in pages && p != page
      ensures pages[p] == Sectors(Partial(disk, lba, buf, k + n), Base(p, spp), spp)
    {
      PagesApart(p, page, spp);
      PartialStep(disk, lba, buf, k, n, Base(p, spp), spp);
    }
  }

  lemma PagesApart(p: nat, q: nat, spp: nat)
    requires p != q
    ensures Base(p, spp) + spp <= Base(q, spp) || Base(q, spp) + spp <= Base(p, spp)
  {
    Grow(spp, p - q);
    assert spp * (p - q) == Base(p, spp) - Base(q, spp);
  }

  datatype Fetch = Fetch(page: nat, data: seq<Sector>)

  /** The pages of a range of sectors. */
  ghost function PagesIn(lba: nat, count: nat, spp: nat): set<nat>
    requires spp > 0
  {
    set x | lba <= x < lba + count :: Quot(x, spp)
  }

  /** Exactly the pages of the range were added. */
  ghost predicate KeysAre(was: map<nat, seq<Sector>>, now: map<nat, seq<Sector>>, lba: nat, count: nat, spp: nat)
    requires spp > 0
  {
    now.Keys == was.Keys + PagesIn(lba, count, spp)
  }

  ghost predicate OneKey(was: map<nat, seq<Sector>>, now: map<nat, seq<Sector>>, page: nat) {
    now.Keys == was.Keys + {page}
  }

  lemma KeysStart(pages: map<nat, seq<Sector>>, lba: nat, spp: nat)
    requires spp > 0
    ensures KeysAre(pages, pages, lba, 0, spp)
  {
    NoPages(lba, spp);
  }

  lemma KeysStep(m0: map<nat, seq<Sector>>, m1: map<nat, seq<Sector>>, m2: map<nat, seq<Sector>>, lba: nat, count: nat, n: nat, spp: nat)
    requires spp > 0 && n > 0 && Rem(lba + count, spp) + n <= spp
    requires KeysAre(m0, m1, lba, count, spp) && OneKey(m1, m2, Quot(lba + count, spp))
    ensures KeysAre(m0, m2, lba, count + n, spp)
  {
    hide Quot, Rem, PagesIn;
    PageStep(lba, count, n, spp);
  }

  lemma NoPages(lba: nat, spp: nat)
    requires spp > 0
    ensures PagesIn(lba, 0, spp) == {}
  {}

  lemma InPages(lba: nat, count: nat, at: nat, spp: nat)
    requires spp > 0 && lba <= at < lba + count
    ensures Quot(at, spp) in PagesIn(lba, count, spp)
  {}

  /** Further sectors of one page add that page. */
  lemma PagesStep(lba: nat, count: nat, n: nat, spp: nat)
    requires spp > 0 && n > 0
    requires forall x :: lba + count <= x < lba + count + n ==> Quot(x, spp) == Quot(lba + count, spp)
    ensures PagesIn(lba, count + n, spp) == PagesIn(lba, count, spp) + {Quot(lba + count, spp)}
  {
    hide Quot;
    forall p ensures p in PagesIn(lba, count + n, spp) <==> p in PagesIn(lba, count, spp) || p == Quot(lba + count, spp) {
      if p == Quot(lba + count, spp) {
        InPages(lba, count + n, lba + count, spp);
      }
    }
  }

  class Cache {
    const spp: nat
    /** Whether assertions are compiled in. */
    const debug: bool
    /** The entries of the top page table that the cache's address range takes. */
    const first: nat
    const regions: nat
    var disk: Disk
    var mapped: map<nat, seq<Sector>>
    var fetches: seq<Fetch>
    var usedPages: nat
    var locked: bool

    ghost function PageOf(p: nat): (s: seq<Sector>)
      reads this`disk
      ensures |s| == spp
    {
      Sectors(disk, Base(p, spp), spp)
    }

    /** Every page is the disk's. */
    ghost predicate Coherent(pages: map<nat, seq<Sector>>)
      reads this`disk
    {
      Agrees(disk, spp, pages)
    }

    /** The pages of the cache's address range. */
    function Limit(): nat { regions * ENTRY_PAGES }

    /** No page lies beyond the address range, as the source asserts on every access. */
    ghost predicate Bounded(pages: map<nat, seq<Sector>>) { forall p :: p in pages ==> p < Limit() }

    /** Outstanding fetches are of distinct pages that are not mapped yet. */
    ghost predicate Fetching()
      reads this`disk, this`mapped, this`fetches
    {
      && |fetches| <= MAX_PAGE_FETCHES && Bounded(mapped)
      && (forall j :: 0 <= j < |fetches| ==> fetches[j].page < Limit())
      && (forall j :: 0 <= j < |fetches| ==> fetches[j].page !in mapped && fetches[j].data == PageOf(fetches[j].page))
      && (forall j, k :: 0 <= j < k < |fetches| ==> fetches[j].page != fetches[k].page)
    }

    /** Mapped, or about to be. */
    ghost predicate Coming(p: nat)
      reads this`mapped, this`fetches
    {
      p in mapped || exists j :: 0 <= j < |fetches| && fetches[j].page == p
    }

    ghost predicate Valid()
      reads this
    {
      spp > 0 && Coherent(mapped) && Bounded(mapped) && fetches == [] && usedPages == |mapped|
    }

    constructor (spp: nat, debug: bool, disk: Disk, first: nat, regions: nat)
      requires spp > 0
      ensures Valid() && this.disk == disk && this.spp == spp && !locked && mapped == map[]
      ensures this.first == first && this.regions == regions
    {
      this.spp, this.debug, this.disk, this.first, this.regions := spp, debug, disk, first, regions;
      mapped, fetches, usedPages, locked := map[], [], 0, false;
    }

    method IsFetching(page: nat) returns (found: bool)
      ensures found <==> exists j :: 0 <= j < |fetches| && fetches[j].page == page
    {
      for i := 0 to |fetches|
        invariant forall j :: 0 <= j < i ==> fetches[j].page != page
      {
        if fetches[i].page == page {
          return true;
        }
      }
      return false;
    }

    /** Waits for the device, then maps every fetched page; all fetches carry the same id. */
    method TargetSync()
      requires Fetching() && usedPages == |mapped| && !locked
      modifies this`mapped, this`fetches, this`usedPages, this`locked
      ensures fetches == [] && usedPages == |mapped| && !locked && Bounded(mapped)
      ensures Grown(old(mapped), mapped) && forall p :: p in mapped <==> old(Coming(p))
    {
      var n := |fetches|;
      for j := 0 to n
        invariant fetches == old(fetches) && usedPages == |mapped| && !locked && Bounded(mapped)
        invariant forall p :: p in mapped <==> p in old(mapped) || exists k :: 0 <= k < j && fetches[k].page == p
        invariant forall p :: p in mapped ==> mapped[p] == if p in old(mapped) then old(mapped[p]) else PageOf(p)
      {
        assert fetches[j].page !in mapped;
        MapPage(fetches[j].page, fetches[j].data);
      }
      fetches := [];
    }

    /** map_pages for one page of the cache, which must not be mapped already. */
    method MapPage(page: nat, data: seq<Sector>)
      requires page !in mapped && usedPages == |mapped|
      modifies this`mapped, this`usedPages
      ensures mapped == old(mapped)[page := data] && usedPages == |mapped|
    {
      mapped := mapped[page := data];
      usedPages := usedPages + 1;
    }

    /** The pages of `was` are as they were, and any other page of `now` is the disk's. */
    ghost predicate Grown(was: map<nat, seq<Sector>>, now: map<nat, seq<Sector>>)
      reads this`disk
    {
      && (forall p :: p in was ==> p in now)
      && (forall p :: p in now ==> now[p] == if p in was then was[p] else PageOf(p))
    }

    lemma GrownTwice(a: map<nat, seq<Sector>>, b: map<nat, seq<Sector>>, c: map<nat, seq<Sector>>)
      requires Grown(a, b) && Grown(b, c)
      ensures Grown(a, c)
    {}

    /** Drains the fetch list while it is full, giving up the lock meanwhile. */
    method MakeRoom()
      requires Fetching() && usedPages == |mapped| && locked
      modifies this`mapped, this`fetches, this`usedPages, this`locked
      ensures Fetching() && usedPages == |mapped| && locked && Grown(old(mapped), mapped) && |fetches| < MAX_PAGE_FETCHES
      ensures forall p :: Coming(p) <==> old(Coming(p))
      ensures |old(fetches)| < MAX_PAGE_FETCHES ==> mapped == old(mapped) && fetches == old(fetches)
    {
      while |fetches| >= MAX_PAGE_FETCHES
        invariant Fetching() && usedPages == |mapped| && locked && Grown(old(mapped), mapped)
        invariant forall p :: Coming(p) <==> old(Coming(p))
        invariant (fetches == old(fetches) && mapped == old(mapped)) || (fetches == [] && |old(fetches)| >= MAX_PAGE_FETCHES)
        decreases |fetches|
      {
        locked := false;
        TargetSync();
        locked := true;
      }
    }

    method FetchPage(lba: nat)
      requires spp > 0 && Fetching() && usedPages == |mapped| && locked && Quot(lba, spp) !in mapped && Quot(lba, spp) < Limit()
      modifies this`mapped, this`fetches, this`usedPages, this`locked
      ensures Fetching() && usedPages == |mapped| && locked && Grown(old(mapped), mapped) && Quot(lba, spp) !in mapped
      ensures forall p :: Coming(p) <==> old(Coming(p)) || p == Quot(lba, spp)
      ensures old(fetches) == [] ==> mapped == old(mapped) && fetches == [Fetch(Quot(lba, spp), PageOf(Quot(lba, spp)))]
    {
      hide Quot, Rem, Base, Coming, Fetching, Grown, PageOf;
      var page := Quot(lba, spp);
      var already := IsFetching(page);
      if already {
        AlreadyComing(page);
        return;
      }
      NotComing(page);
      MakeRoom();
      StartRead(page);
    }

    lemma AlreadyComing(page: nat)
      requires exists j :: 0 <= j < |fetches| && fetches[j].page == page
      ensures Coming(page) && Grown(mapped, mapped) && fetches != []
    {}

    lemma NotComing(page: nat)
      requires page !in mapped && !exists j :: 0 <= j < |fetches| && fetches[j].page == page
      ensures !Coming(page)
    {}

    /**
     The device's asynchronous read of a page. The disk does not change before the read is
     drained, so its data is the disk's at this point.
     */
    method StartRead(page: nat)
      requires Fetching() && !Coming(page) && |fetches| < MAX_PAGE_FETCHES && page < Limit()
      modifies this`fetches
      ensures Fetching() && page !in mapped && fetches == old(fetches) + [Fetch(page, PageOf(page))]
      ensures forall p :: Coming(p) <==> old(Coming(p)) || p == page
    {
      ghost var before := fetches;
      fetches := fetches + [Fetch(page, Sectors(disk, Base(page, spp), spp))];
      hide Quot, Rem, Base, PageOf;
      assert fetches[|fetches| - 1].page == page;
      assert forall j :: 0 <= j < |before| ==> fetches[j] == before[j];
    }

    /** Brings the page of `lba` into the cache if it is not there. */
    method BlockingReadCache(lba: nat)
      requires spp > 0 && fetches == [] && usedPages == |mapped| && (debug ==> locked) && Bounded(mapped) && Quot(lba, spp) < Limit()
      modifies this`mapped, this`fetches, this`usedPages, this`locked
      ensures fetches == [] && usedPages == |mapped| && (old(locked) ==> locked) && Bounded(mapped)
      ensures mapped == if Quot(lba, spp) in old(mapped) then old(mapped) else old(mapped)[Quot(lba, spp) := PageOf(Quot(lba, spp))]
    {
      hide Quot, Rem, Base, Sectors, PageOf, Coming, Fetching, Grown, Bounded;
      if Quot(lba, spp) !in mapped {
        ghost var was, page := mapped, Quot(lba, spp);
        NoneFetching();
        // Without the lock this point is only reached with assertions off; nothing below looks at it.
        locked := true;
        FetchPage(lba);
        OneComing(page);
        locked := false;
        TargetSync();
        locked := true;
        GrownByOne(was, mapped, page);
      }
    }

    lemma NoneFetching()
      requires fetches == [] && Bounded(mapped)
      ensures Fetching()
    {}

    lemma OneComing(page: nat)
      requires |fetches| == 1 && fetches[0].page == page
      ensures forall p :: Coming(p) <==> p in mapped || p == page
    {}

    lemma GrownByOne(was: map<nat, seq<Sector>>, now: map<nat, seq<Sector>>, page: nat)
      requires page !in was && Grown(was, now) && forall p :: p in now <==> p in was || p == page
      ensures now == was[page := PageOf(page)]
    {
      hide PageOf;
    }

    /** Every page of the range becomes present. */
    method Prefetch(lba: nat, count: nat)
      requires Valid() && !locked && lba + count <= Base(Limit(), spp)
      modifies this`mapped, this`fetches, this`usedPages, this`locked
      ensures Valid() && !locked && Grown(old(mapped), mapped)
      ensures KeysAre(old(mapped), mapped, lba, count, spp)
    {
      hide Quot, Rem, Base, Coming, Fetching, Grown, Coherent, PagesIn, InIteration;
      ghost var was := mapped;
      var at: nat, left: nat := lba, count;
      NothingFetched();
      NoPages(lba, spp);
      while left > 0
        invariant at + left == lba + count && lba <= at && !locked
        invariant Fetching() && usedPages == |mapped| && Grown(was, mapped)
        invariant forall p :: Coming(p) <==> p in was || p in PagesIn(lba, at - lba, spp)
      {
        locked := true;
        ghost var now := mapped;
        InLimit(at, spp, Limit());
        if Quot(at, spp) !in mapped {
          FetchPage(at);
          GrownTwice(was, now, mapped);
        } else {
          Present(Quot(at, spp));
        }
        locked := false;
        var n := InIteration(at, left, spp);
        PageStep(lba, at - lba, n, spp);
        at, left := at + n, left - n;
      }
      ghost var now := mapped;
      TargetSync();
      GrownTwice(was, now, mapped);
      GrownCoherent(was);
    }

    lemma NothingFetched()
      requires fetches == [] && Bounded(mapped)
      ensures Fetching() && Grown(mapped, mapped) && forall p :: Coming(p) <==> p in mapped
    {}

    lemma Present(p: nat)
      requires p in mapped
      ensures Coming(p)
    {}

    lemma GrownCoherent(was: map<nat, seq<Sector>>)
      requires Grown(was, mapped) && Coherent(was)
      ensures Coherent(mapped)
    {}

    lemma StillCoherent(p: nat)
      ensures Coherent(mapped) ==> Coherent(mapped[p := PageOf(p)])
    {}

    method Copy(lba: nat, n: nat) returns (chunk: seq<Sector>)
      requires spp > 0 && Coherent(mapped) && Quot(lba, spp) in mapped && Rem(lba, spp) + n <= spp
      ensures chunk == Sectors(disk, lba, n)
    {
      var offset := Rem(lba, spp);
      PageSlice(disk, lba, n, spp);
      chunk := mapped[Quot(lba, spp)][offset..offset + n];
    }

    /** The client gets exactly the disk's sectors. */
    method Read(lba: nat, count: nat) returns (buf: seq<Sector>)
      requires Valid() && !locked && lba + count <= Base(Limit(), spp)
      modifies this`mapped, this`fetches, this`usedPages, this`locked
      ensures Valid() && !locked && buf == Sectors(disk, lba, count)
      ensures Grown(old(mapped), mapped) && KeysAre(old(mapped), mapped, lba, count, spp)
    {
      hide Quot, Rem, Base, Sectors, InIteration, Coherent, PageOf, Bounded, Limit, PagesIn, Grown;
      Prefetch(lba, count);
      ghost var fetched := mapped;
      locked := true;
      var at: nat, left: nat := lba, count;
      buf := [];
      while left > 0
        invariant at + left == lba + count && lba <= at && locked && Valid() && mapped == fetched
        invariant buf == Sectors(disk, lba, at - lba)
      {
        ghost var was := mapped;
        StillCoherent(Quot(at, spp));
        InLimit(at, spp, Limit());
        InPages(lba, count, at, spp);
        BlockingReadCache(at);
        var n := InIteration(at, left, spp);
        var chunk := Copy(at, n);
        SectorsJoin(disk, lba, at - lba, n);
        buf := buf + chunk;
        at, left := at + n, left - n;
      }
      locked := false;
    }

    /**
     Writes the buffer into the cached pages. The lock is released at the end of the first
     turn, so with assertions on a later turn that must read its page stops the kernel; and
     nothing releases it when there is no turn at all.
     */
    method WriteCache(lba: nat, buf: seq<Sector>) returns (ok: bool)
      requires Valid() && !locked && lba + |buf| <= Base(Limit(), spp)
      modifies this`mapped, this`fetches, this`usedPages, this`locked
      ensures ok <==> !(debug && RaggedTail(lba, |buf|, spp))
      ensures ok ==> fetches == [] && usedPages == |mapped| && locked == (buf == []) && Bounded(mapped)
      ensures ok ==> Agrees(Written(disk, lba, buf), spp, mapped)
      ensures ok ==> KeysAre(old(mapped), mapped, lba, |buf|, spp)
    {
      hide Quot, Rem, Base, Sectors, InIteration, RaggedTail, Agrees, PageOf, Partial, Written, Bounded, Limit, KeysAre, AtTurn;
      KeysStart(mapped, lba, spp);
      FirstTurn(lba, |buf|, spp, debug);
      locked := true;
      var done: nat, left: nat := 0, |buf|;
      StartPartial(disk, lba, buf, spp, mapped);
      while left > 0
        invariant done + left == |buf| && fetches == [] && usedPages == |mapped| && Bounded(mapped)
        invariant locked == (done == 0)
        invariant AtTurn(lba, |buf|, done, spp, debug)
        invariant Agrees(Partial(disk, lba, buf, done), spp, mapped)
        invariant KeysAre(old(mapped), mapped, lba, done, spp)
      {
        var at := lba + done;
        var n := InIteration(at, left, spp);
        TurnStarts(lba, |buf|, done, spp, debug);
        if n < spp && debug && !locked {
          return false;
        }
        InLimit(at, spp, Limit());
        WritePart(lba, buf, done, n, old(mapped));
        TurnEnds(lba, |buf|, done, n, spp, debug);
        done, left := done + n, left - n;
        locked := false;
      }
      EndPartial(disk, lba, buf);
      LastTurn(lba, |buf|, spp, debug);
      ok := true;
    }

    /** One turn, counted among the pages that were there at the start. */
    method WritePart(lba: nat, buf: seq<Sector>, k: nat, n: nat, ghost start: map<nat, seq<Sector>>)
      requires spp > 0 && fetches == [] && usedPages == |mapped| && k + n <= |buf| && Rem(lba + k, spp) + n <= spp && n > 0
      requires Bounded(mapped) && Quot(lba + k, spp) < Limit()
      requires k > 0 ==> Rem(lba + k, spp) == 0
      requires n < spp && debug ==> locked
      requires Agrees(Partial(disk, lba, buf, k), spp, mapped) && KeysAre(start, mapped, lba, k, spp)
      modifies this`mapped, this`fetches, this`usedPages, this`locked
      ensures fetches == [] && usedPages == |mapped| && Bounded(mapped)
      ensures Agrees(Partial(disk, lba, buf, k + n), spp, mapped) && KeysAre(start, mapped, lba, k + n, spp)
    {
      hide Quot, Rem, Base, Sectors, Partial, Agrees, KeysAre, OneKey, Bounded;
      ghost var was := mapped;
      WritePage(lba, buf, k, n);
      KeysStep(start, was, mapped, lba, k, n, spp);
    }

    /** One turn: the page is read first unless all of it is overwritten. */
    method WritePage(lba: nat, buf: seq<Sector>, k: nat, n: nat)
      requires spp > 0 && fetches == [] && usedPages == |mapped| && k + n <= |buf| && Rem(lba + k, spp) + n <= spp
      requires Bounded(mapped) && Quot(lba + k, spp) < Limit()
      requires k > 0 ==> Rem(lba + k, spp) == 0
      requires n < spp && debug ==> locked
      requires Agrees(Partial(disk, lba, buf, k), spp, mapped)
      modifies this`mapped, this`fetches, this`usedPages, this`locked
      ensures fetches == [] && usedPages == |mapped| && Bounded(mapped)
      ensures Agrees(Partial(disk, lba, buf, k + n), spp, mapped)
      ensures OneKey(old(mapped), mapped, Quot(lba + k, spp))
    {
      hide Quot, Rem, Base, Sectors, Partial, Agrees, Overlay;
      ghost var was := mapped;
      PreparePage(lba, buf, k, n);
      label Prepared:
      var page, offset := Quot(lba + k, spp), Rem(lba + k, spp);
      WriteAgrees(disk, lba, buf, k, n, spp, was, mapped[page]);
      mapped := mapped[page := Overlay(mapped[page], offset, buf[k..k + n])];
      SameUpdate(was, old@Prepared(mapped), page, mapped[page]);
    }

    /** The page is present and, if part of it survives, holds what the disk will hold. */
    method PreparePage(lba: nat, buf: seq<Sector>, k: nat, n: nat)
      requires spp > 0 && fetches == [] && usedPages == |mapped| && k + n <= |buf|
      requires Bounded(mapped) && Quot(lba + k, spp) < Limit()
      requires k > 0 ==> Rem(lba + k, spp) == 0
      requires n < spp && debug ==> locked
      requires Agrees(Partial(disk, lba, buf, k), spp, mapped)
      modifies this`mapped, this`fetches, this`usedPages, this`locked
      ensures fetches == [] && usedPages == |mapped|
      ensures Quot(lba + k, spp) in mapped && |mapped[Quot(lba + k, spp)]| == spp
      ensures mapped == old(mapped)[Quot(lba + k, spp) := mapped[Quot(lba + k, spp)]]
      ensures n < spp ==> mapped[Quot(lba + k, spp)] == Sectors(Partial(disk, lba, buf, k), Base(Quot(lba + k, spp), spp), spp)
    {
      hide Quot, Rem, Base, Sectors, Partial, Agrees;
      PageReady(disk, lba, buf, k, n, spp, mapped);
      if n < spp {
        BlockingReadCache(lba + k);
      } else if Quot(lba + k, spp) !in mapped {
        MapPage(Quot(lba + k, spp), seq(spp, _ => 0));
      }
    }

    /** Write-through: the cache first, then the device. */
    method Write(lba: nat, buf: seq<Sector>) returns (ok: bool)
      requires Valid() && !locked && lba + |buf| <= Base(Limit(), spp)
      modifies this
      ensures ok <==> !(debug && RaggedTail(lba, |buf|, spp))
      ensures ok ==> Valid() && locked == (buf == []) && disk == Written(old(disk), lba, buf)
      ensures ok ==> KeysAre(old(mapped), mapped, lba, |buf|, spp)
    {
      ok := WriteCache(lba, buf);
      if ok {
        disk := Written(disk, lba, buf);
      }
    }

    /** The entries under which the cache has a page mapped. */
    function OwnEntries(): set<nat>
      reads this`mapped
    {
      set p | p in mapped :: first + p / ENTRY_PAGES
    }

    /**
     Flushes the cache; nothing needs writing back. `others` are the present entries of the top
     table that are not the cache's. The cache's own pages all go; for every entry of the
     cache that has no page one foreign entry goes too; and the kernel hangs when there are not
     enough entries left.
     */
    method Flush(others: set<nat>) returns (done: bool, freed: set<nat>)
      requires Valid() && !locked && 0 < regions && first + regions <= ENTRIES
      requires forall x :: x in others ==> x < ENTRIES && !(first <= x < first + regions)
      modifies this`mapped, this`usedPages
      ensures done <==> |others + old(OwnEntries())| >= regions
      ensures done ==> Valid() && mapped == map[] && freed - others == old(OwnEntries())
      ensures done ==> (freed * others == {} <==> old(OwnEntries()) == Entries(first, regions))
      ensures done ==> |freed * others| == regions - |old(OwnEntries())|
      ensures done ==> exists n: nat :: freed == Within(others + old(OwnEntries()), first, n)
    {
      hide Coherent, Within, Bounded, Entries, OwnEntries, Unfreed;
      EntriesInRange();
      var own := OwnEntries();
      done, freed := FreePageRange(others + own, first, regions);
      if done {
        FreedSplit(others, own, first, regions, freed);
        AllFreed(freed);
        mapped := Unfreed(freed);
        NothingMapped();
        usedPages := 0;
      }
    }

    /** The pages that are still mapped once the entries in `freed` are cleared. */
    function Unfreed(freed: set<nat>): map<nat, seq<Sector>>
      reads this`mapped
    {
      map p | p in mapped && first + p / ENTRY_PAGES !in freed :: mapped[p]
    }

    lemma AllFreed(freed: set<nat>)
      requires OwnEntries() <= freed
      ensures Unfreed(freed) == map[]
    {
      assert forall p :: p in mapped ==> first + p / ENTRY_PAGES in OwnEntries();
    }

    lemma EntriesInRange()
      requires Bounded(mapped)
      ensures OwnEntries() <= Entries(first, regions)
    {}

    lemma NothingMapped()
      requires mapped == map[]
      ensures Coherent(mapped) && Bounded(mapped) && |mapped| == 0
    {
    }
  }

  lemma FreedSplit(others: set<nat>, own: set<nat>, first: nat, regions: nat, freed: set<nat>)
    requires 0 < regions && first + regions <= ENTRIES && own <= Entries(first, regions)
    requires forall x :: x in others ==> x < ENTRIES && x !in Entries(first, regions)
    requires |freed| == regions && exists n: nat :: freed == Within(others + own, first, n)
    ensures freed - others == own && own <= freed
    ensures freed * others == {} <==> own == Entries(first, regions)
    ensures |freed * others| == regions - |own|
  {
    hide Entries, Within;
    var n: nat :| freed == Within(others + own, first, n);
    var range, present := Entries(first, regions), others + own;
    OwnAndForeign(present, first, regions, freed, n);
    WithinSubset(present, first, n);
    FreedSets(others, own, range, freed);
    RestSize(own, range);
  }

  lemma RestSize(own: set<nat>, range: set<nat>)
    requires own <= range
    ensures |range - own| == |range| - |own|
  {
    assert range == own + (range - own);
  }

  lemma FreedSets(others: set<nat>, own: set<nat>, range: set<nat>, freed: set<nat>)
    requires own <= range && others !! range && freed <= others + own && (others + own) * range <= freed
    ensures freed - others == own && own <= freed && freed - range == freed * others
    ensures range - (others + own) == range - own && (range <= others + own <==> own == range)
    ensures freed <= range <==> freed * others == {}
  {
    assert (others + own) * range == own;
    assert freed * others == {} ==> freed - range == {};
    assert forall x :: x in freed && x !in range ==> x in freed * others;
    assert freed <= range ==> forall x :: x in freed ==> x !in others;
  }

  /**
   Flushing twice: the second flush finds the cache's only entry absent, goes on to the next
   present entry of the table, and frees that region of the kernel instead.
   */
  method TwoFlushes(disk: Disk) returns (once: set<nat>, twice: set<nat>)
    ensures once == {300} && twice == {511}
  {
    hide Within;
    var cache := new Cache(8, true, disk, 300, 1);
    FirstSector();
    var sectors := cache.Read(0, 1);
    OnePage(cache);
    once := OneFlush(cache);
    assert cache.OwnEntries() == {} && {256, 511} + cache.OwnEntries() == {256, 511};
    var again;
    again, twice := cache.Flush({256, 511});
    OneOfTwo(twice);
  }

  method OneFlush(cache: Cache) returns (freed: set<nat>)
    requires cache.Valid() && !cache.locked && cache.first == 300 && cache.regions == 1 && cache.OwnEntries() == {300}
    modifies cache
    ensures freed == {300} && cache.Valid() && cache.mapped == map[] && !cache.locked
  {
    hide Within;
    assert Entries(300, 1) == {300};
    assert 300 in {256, 511} + cache.OwnEntries();
    var done;
    done, freed := cache.Flush({256, 511});
    assert freed == (freed - {256, 511}) + (freed * {256, 511});
  }

  lemma FirstSector()
    ensures Quot(0, 8) == 0 && 1 <= Base(ENTRY_PAGES, 8)
  {}

  lemma OnePage(cache: Cache)
    requires cache.first == 300 && cache.regions == 1 && cache.Bounded(cache.mapped) && 0 in cache.mapped
    ensures cache.OwnEntries() == {300}
  {
    cache.EntriesInRange();
    assert Entries(300, 1) == {300};
    assert 300 + 0 / ENTRY_PAGES in cache.OwnEntries();
  }

  /** From entry 300 on, 511 comes before 256. */
  lemma OneOfTwo(freed: set<nat>)
    requires |freed| == 1 && exists n: nat :: freed == Within({256, 511}, 300, n)
    ensures freed == {511}
  {
    var n: nat :| freed == Within({256, 511}, 300, n);
    assert Behind(300, 511) == 211 && Behind(300, 256) == 468;
    var x :| x in freed;
    assert freed == {x} by { SubsetSize({x}, freed); }
    assert 256 in freed ==> 511 in freed;
  }

  /** A page read from the disk in mid-write is the page of the disk-to-be. */
  lemma PageReady(disk: Disk, lba: nat, buf: seq<Sector>, k: nat, n: nat, spp: nat, pages: map<nat, seq<Sector>>)
    requires spp > 0 && k <= |buf| && (k > 0 ==> Rem(lba + k, spp) == 0) && Agrees(Partial(disk, lba, buf, k), spp, pages)
    ensures
      var page := Quot(lba + k, spp);
      && Sectors(disk, Base(page, spp), spp) == Sectors(Partial(disk, lba, buf, k), Base(page, spp), spp)
      && (page in pages ==> pages[page] == Sectors(disk, Base(page, spp), spp))
  {
    var page := Quot(lba + k, spp);
    QuotRem(lba + k, spp);
    UntouchedPage(disk, lba, buf, k, Base(page, spp), spp);
  }

  lemma WriteAgrees(disk: Disk, lba: nat, buf: seq<Sector>, k: nat, n: nat, spp: nat, was: map<nat, seq<Sector>>, page: seq<Sector>)
    requires spp > 0 && k + n <= |buf| && Rem(lba + k, spp) + n <= spp && |page| == spp
    requires Agrees(Partial(disk, lba, buf, k), spp, was)
    requires n < spp ==> page == Sectors(Partial(disk, lba, buf, k), Base(Quot(lba + k, spp), spp), spp)
    ensures Agrees(Partial(disk, lba, buf, k + n), spp, was[Quot(lba + k, spp) := Overlay(page, Rem(lba + k, spp), buf[k..k + n])])
  {
    hide Quot, Rem, Base, Sectors, Partial, Agrees, Overlay;
    QuotRem(lba + k, spp);
    OverlayPage(disk, lba, buf, k, n, Base(Quot(lba + k, spp), spp), Rem(lba + k, spp), spp, page);
    OtherPages(disk, lba, buf, k, n, spp, was, Quot(lba + k, spp), Overlay(page, Rem(lba + k, spp), buf[k..k + n]));
  }

  lemma InLimit(at: nat, spp: nat, limit: nat)
    requires spp > 0 && at < Base(limit, spp)
    ensures Quot(at, spp) < limit
  {
    QuotRem(at, spp);
    Grow(spp, Quot(at, spp) - limit);
    assert spp * (Quot(at, spp) - limit) == Base(Quot(at, spp), spp) - Base(limit, spp);
  }

  lemma NoTail(lba: nat, count: nat, spp: nat)
    requires spp > 0
    ensures Rem(0, spp) == 0 && (count == 0 ==> !RaggedTail(lba, count, spp))
  {
    Unique(0, spp, 0, 0);
  }

  lemma SmallTail(lba: nat, left: nat, spp: nat)
    requires spp > 0 && left > 0 && Rem(lba, spp) == 0 && InIteration(lba, left, spp) < spp
    ensures Rem(left, spp) != 0
  {
    Unique(left, spp, 0, left);
  }

  lemma SameUpdate(was: map<nat, seq<Sector>>, now: map<nat, seq<Sector>>, page: nat, data: seq<Sector>)
    requires page in now && now == was[page := now[page]]
    ensures now[page := data] == was[page := data] && |now[page := data]| == |now|
  {
    assert now[page := data].Keys == now.Keys;
  }

  lemma StartPartial(disk: Disk, lba: nat, buf: seq<Sector>, spp: nat, pages: map<nat, seq<Sector>>)
    requires Agrees(disk, spp, pages)
    ensures Agrees(Partial(disk, lba, buf, 0), spp, pages)
  {
    forall p | p in pages ensures pages[p] == Sectors(Partial(disk, lba, buf, 0), Base(p, spp), spp) {
      UntouchedPage(disk, lba, buf, 0, Base(p, spp), spp);
    }
  }

  lemma EndPartial(disk: Disk, lba: nat, buf: seq<Sector>)
    ensures Partial(disk, lba, buf, |buf|) == Written(disk, lba, buf)
  {
    assert buf[..|buf|] == buf;
  }

  /** Between turns the write is over or at the start of a page, and its end decides what is ragged. */
  ghost predicate AtTurn(lba: nat, count: nat, done: nat, spp: nat, debug: bool)
    requires spp > 0
  {
    && done <= count && (done > 0 ==> done == count || Rem(lba + done, spp) == 0)
    && (debug && done > 0 ==> (Rem(count - done, spp) != 0 <==> RaggedTail(lba, count, spp)))
  }

  lemma FirstTurn(lba: nat, count: nat, spp: nat, debug: bool)
    requires spp > 0
    ensures AtTurn(lba, count, 0, spp, debug)
  {}

  lemma LastTurn(lba: nat, count: nat, spp: nat, debug: bool)
    requires spp > 0 && AtTurn(lba, count, count, spp, debug)
    ensures debug ==> !RaggedTail(lba, count, spp)
  {
    NoTail(lba, count, spp);
  }

  /** A later turn that does not fill its page means a ragged tail. */
  lemma TurnStarts(lba: nat, count: nat, done: nat, spp: nat, debug: bool)
    requires spp > 0 && AtTurn(lba, count, done, spp, debug) && done < count
    ensures done > 0 ==> Rem(lba + done, spp) == 0
    ensures done > 0 && debug && InIteration(lba + done, count - done, spp) < spp ==> RaggedTail(lba, count, spp)
  {
    hide Rem, RaggedTail, InIteration;
    if done > 0 && InIteration(lba + done, count - done, spp) < spp {
      SmallTail(lba + done, count - done, spp);
    }
  }

  lemma TurnEnds(lba: nat, count: nat, done: nat, n: nat, spp: nat, debug: bool)
    requires spp > 0 && AtTurn(lba, count, done, spp, debug) && done < count && n == InIteration(lba + done, count - done, spp)
    requires done > 0 && debug ==> n == spp
    ensures AtTurn(lba, count, done + n, spp, debug)
  {
    hide Rem, RaggedTail, InIteration;
    TurnArith(lba, count, done, n, spp);
  }

  /** After a turn the write is over, or at the start of a page. */
  lemma TurnArith(lba: nat, count: nat, done: nat, n: nat, spp: nat)
    requires spp > 0 && done < count && n == InIteration(lba + done, count - done, spp)
    requires done > 0 ==> Rem(lba + done, spp) == 0
    ensures done + n < count ==> Rem(lba + done + n, spp) == 0
    ensures done == 0 ==> (Rem(count - n, spp) != 0 <==> RaggedTail(lba, count, spp))
    ensures done > 0 && n == spp ==> Rem(count - done - n, spp) == Rem(count - done, spp)
  {
    if done + n < count {
      Advance(lba + done, n, spp);
    }
    if n == spp {
      SubtractPage(count - done, spp);
    }
  }

  lemma SamePage(lba: nat, n: nat, spp: nat)
    requires spp > 0 && Rem(lba, spp) + n <= spp
    ensures forall x :: lba <= x < lba + n ==> Quot(x, spp) == Quot(lba, spp)
  {
    forall x | lba <= x < lba + n ensures Quot(x, spp) == Quot(lba, spp) {
      QuotRem(lba, spp);
      Unique(x, spp, Quot(lba, spp), Rem(lba, spp) + (x - lba));
    }
  }

  lemma PageStep(lba: nat, count: nat, n: nat, spp: nat)
    requires spp > 0 && n > 0 && Rem(lba + count, spp) + n <= spp
    ensures PagesIn(lba, count + n, spp) == PagesIn(lba, count, spp) + {Quot(lba + count, spp)}
  {
    hide Quot, Rem, PagesIn;
    SamePage(lba + count, n, spp);
    PagesStep(lba, count, n, spp);
  }

  lemma PageSlice(disk: Disk, lba: nat, n: nat, spp: nat)
    requires spp > 0 && Rem(lba, spp) + n <= spp
    ensures Sectors(disk, Base(Quot(lba, spp), spp), spp)[Rem(lba, spp)..Rem(lba, spp) + n] == Sectors(disk, lba, n)
  {
    QuotRem(lba, spp);
    SectorsSlice(disk, Base(Quot(lba, spp), spp), spp, Rem(lba, spp), Rem(lba, spp) + n);
  }
}
