/**
 The kernel heap over raw memory: malloc, free, realloc and defragment walk and rewrite the
 linked segment headers, and are proved to do to the segment list what HeapSegments says.
 */
module Heap {
  import opened Common
  import opened HeapSegments
  import opened HeapMemory

  class KernelHeap {
    const base: nat          // heap_begin
    var mem: seq<byte>       // the heap's bytes; heap_size is its length
    var current: nat         // current_segment
    var nAllocations: int
    var frees: nat           // the counter that schedules defragmentation
    ghost var segs: seq<Seg>

    ghost predicate Valid()
      reads this
    {
      && base % 8 == 0 && 0 < base && base + WORD32 <= WORD64
      && |mem| <= WORD32 && |mem| % 8 == 0
      && Tiles(segs, |mem|) && AllOk(segs)
      && Linked(mem, base, segs) && current == AddressOf(base, segs, 0)
      && nAllocations == CountLive(segs)
    }

    /** An empty heap, before heap_init expands it. */
    constructor (begin: nat)
      requires begin % 8 == 0 && 0 < begin && begin + WORD32 <= WORD64
      ensures Valid() && base == begin && mem == [] && segs == []
    {
      base, mem, current, nAllocations, frees, segs := begin, [], 0, 0, 0, [];
    }

    /** expand_heap: one free segment over the new bytes, whatever those contain. */
    method ExpandHeap(size: nat, junk: seq<byte>)
      requires Valid() && |junk| == size && size % 8 == 0 && size >= HEADER + MIN_SEGMENT_SIZE && |mem| + size <= WORD32
      modifies this`mem, this`current, this`segs
      ensures Valid() && segs == Expanded(old(segs), |old(mem)|, size)
      ensures |mem| == |old(mem)| + size && BytesKept(old(mem), mem, Live(old(segs)))
    {
      hide Tiles, Live, CountLive, ReadHeader, WriteHeader, BytesKept, AllOk;
      var n := |mem|;
      ghost var l := Expanded(segs, n, size);
      ExpandKeeps(segs, n, size);
      GrowHeaders(mem, junk, segs, Wanted(base, segs));
      var grown := mem + junk;
      ghost var want := Found(grown, l);
      assert l[1..] == segs;
      FoundTail(grown, l, segs, want, Wanted(base, segs));
      var h := Header(current, (size - HEADER) % WORD32, 1);
      CurrentBound(base, segs, n);
      WriteOne(grown, l, want, 0, h);
      WantedTop(base, segs, l, want, h);
      BytesKeptTrans(mem, grown, WriteHeader(grown, n, h), Live(segs));
      current := base + n;
      mem := WriteHeader(grown, n, h);
      segs := l;
    }

    /** malloc's search: the first segment that fits, and the one before it in the list. */
    method FindSegment(need: nat) returns (pred: nat, seg: nat, ghost i: nat)
      requires Valid()
      ensures i == FirstFit(segs, need) && seg == AddressOf(base, segs, FirstFit(segs, need))
      ensures pred == if FirstFit(segs, need) == 0 then 0 else AddressOf(base, segs, FirstFit(segs, need) - 1)
    {
      hide Tiles, Live, CountLive, ReadHeader, AllOk, FirstFit, Headers;
      pred, seg, i := 0, current, 0;
      while seg != 0
        invariant i <= |segs| && seg == AddressOf(base, segs, i)
        invariant pred == if i == 0 then 0 else AddressOf(base, segs, i - 1)
        invariant forall j :: 0 <= j < i ==> !Fits(segs[j], need)
        decreases |segs| - i
      {
        HeaderAt(mem, segs, Wanted(base, segs), i);
        var h := ReadHeader(mem, seg - base);
        assert h == Expected(base, segs, i);
        if h.free == 1 && h.size >= need {
          break;
        }
        pred, seg, i := seg, h.next, i + 1;
      }
      FirstFitIs(segs, need, i);
    }

    /** malloc's commit: split off the tail when it can stand on its own, then mark the segment. */
    method TakeSegment(pred: nat, seg: nat, need: nat, ghost i: nat)
      requires Valid() && i < |segs| && Fits(segs[i], need) && need % 8 == 0 && need >= MIN_SEGMENT_SIZE
      requires seg == AddressOf(base, segs, i) && pred == if i == 0 then 0 else AddressOf(base, segs, i - 1)
      modifies this`mem, this`current, this`segs, this`nAllocations
      ensures Valid() && segs == Carve(old(segs), i, need) && nAllocations == old(nAllocations) + 1
      ensures |mem| == |old(mem)| && BytesKept(old(mem), mem, Live(old(segs)))
    {
      hide Tiles, Live, CountLive, ReadHeader, WriteHeader, BytesKept, AllOk, Carve, Expected, Headers;
      var off := seg - base;
      ghost var l, m0 := Carve(segs, i, need), mem;
      CarveKeeps(segs, |mem|, i, need);
      CurrentBound(base, segs, |mem|);
      CurrentBound(base, l, |mem|);
      ghost var want := Found(mem, l);
      SameBytes(mem, Live(l));
      HeaderAt(mem, segs, Wanted(base, segs), i);
      SizeOf(base, segs, i);
      var h := ReadHeader(mem, off);
      ghost var k := i;
      if h.size >= need + HEADER + MIN_SEGMENT_SIZE {
        SplitFound(mem, base, segs, i, need, want);
        SplitPlaces(segs, i, need);
        var rest;
        rest, want := SplitSegment(pred, seg, need, l, i, want, m0);
        if pred == 0 {
          current := rest;
        } else {
          HeaderAt(mem, l, want, i - 1);
          want := SetHeader(pred - base, ReadHeader(mem, pred - base).(next := rest), l, i - 1, want, m0);
        }
        k := i + 1;
      } else {
        WholeFound(mem, base, segs, i, need, want);
      }
      HeaderAt(mem, l, want, k);
      want := SetHeader(off, ReadHeader(mem, off).(free := 0), l, k, want, m0);
      assert want == Wanted(base, l);
      KeptLess(m0, mem, Live(l), Live(segs));
      nAllocations := nAllocations + 1;
      segs := l;
    }

    /** split_segment: a new free segment between `tosplit` and `pred`. l is the list the commit
        is heading for, where the new segment sits at place i and `tosplit` at i + 1. */
    method SplitSegment(pred: nat, tosplit: nat, size: nat, ghost l: seq<Seg>, ghost i: nat, ghost want0: seq<Header>, ghost m0: seq<byte>)
      returns (rest: nat, ghost want: seq<Header>)
      requires Tiles(l, |mem|) && Headers(mem, l, want0) && i + 1 < |l| && |mem| <= WORD32 && base + WORD32 <= WORD64 && base > 0
      requires tosplit == base + l[i + 1].off && pred == (if i == 0 then 0 else base + l[i - 1].off)
      requires l[i].off == l[i + 1].off + HEADER + size && l[i].free && size + HEADER <= want0[i + 1].size < WORD32
      requires l[i].size == want0[i + 1].size - size - HEADER && HeaderOk(want0[i + 1])
      requires i > 0 ==> HeaderOk(want0[i - 1])
      requires BytesKept(m0, mem, Live(l))
      modifies this`mem
      ensures |mem| == |old(mem)| && Headers(mem, l, want) && BytesKept(m0, mem, Live(l)) && rest == base + l[i].off
      ensures |want| == |want0| && want[i] == Expected(base, l, i) && want[i + 1] == want0[i + 1].(size := size)
      ensures i > 0 ==> want[i - 1] == want0[i - 1].(next := rest)
      ensures forall j: nat :: j < |want| && j != i && j != i + 1 && j + 1 != i ==> want[j] == want0[j]
    {
      hide Tiles, Live, ReadHeader, WriteHeader, BytesKept, Headers;
      want := want0;
      rest := tosplit + HEADER + size;
      CurrentBound(base, l, |mem|);
      HeaderAt(mem, l, want, i + 1);
      var whole := ReadHeader(mem, tosplit - base).size;
      if pred != 0 {
        HeaderAt(mem, l, want, i - 1);
        want := SetHeader(pred - base, ReadHeader(mem, pred - base).(next := rest), l, i - 1, want, m0);
      }
      want := SetHeader(rest - base, Header(tosplit, whole - size - HEADER, 1), l, i, want, m0);
      HeaderAt(mem, l, want, i + 1);
      want := SetHeader(tosplit - base, ReadHeader(mem, tosplit - base).(size := size), l, i + 1, want, m0);
    }

    /** malloc. When no free segment fits, the heap grows once and the retry takes the new top
        segment; either way the result is the first fit of the resulting list. */
    method Malloc(request: nat, junk: seq<byte>) returns (ptr: nat, ghost block: Seg)
      requires Valid()
      requires FirstFit(segs, Need(request)) < |segs| ||
               (|junk| == ExpandSize(Need(request)) && |mem| + ExpandSize(Need(request)) <= WORD32)
      modifies this`mem, this`current, this`segs, this`nAllocations
      ensures Valid()
      ensures var need := Need(request);
              var l := if FirstFit(old(segs), need) < |old(segs)| then old(segs)
                       else Expanded(old(segs), |old(mem)|, ExpandSize(need));
              var i := FirstFit(l, need);
              i < |l| && segs == Carve(l, i, need) && block == Taken(l[i], need)
      ensures Live(segs) == old(Live(segs)) + {block} && block !in old(Live(segs)) && block.size >= request
      ensures block.size < Need(request) + HEADER + MIN_SEGMENT_SIZE
      ensures ptr == base + block.Payload() && ptr % 8 == 0 && nAllocations == old(nAllocations) + 1
      ensures |mem| == |old(mem)| + if FirstFit(old(segs), Need(request)) < |old(segs)| then 0 else ExpandSize(Need(request))
      ensures BytesKept(old(mem), mem, old(Live(segs)))
      decreases if FirstFit(segs, Need(request)) < |segs| then 0 else 1
    {
      hide Tiles, Live, CountLive, AllOk, FirstFit, Linked, BytesKept, Carve, Expanded;
      var need := Need(request);
      var pred, seg;
      ghost var i;
      pred, seg, i := FindSegment(need);
      FirstFitBound(segs, need);
      ghost var m0, live := mem, Live(segs);
      if seg != 0 {
        CarveKeeps(segs, |mem|, i, need);
        assert SegOk(segs[i]) by { OkAt(segs, i); }
        block := Taken(segs[i], need);
        TakeSegment(pred, seg, need, i);
        return seg + HEADER, block;
      }
      NeedStable(request);
      ghost var s0, n := segs, |mem|;
      ExpandKeeps(segs, n, ExpandSize(need));
      RetryFits(segs, n, need);
      ExpandHeap(ExpandSize(need), junk);
      ghost var m1 := mem;
      FirstFitBound(segs, need);
      ExpandedHead(s0, n, need);
      assert FirstFit(segs, need) == 0 < |segs|;
      ptr, block := Malloc(need, junk);
      BytesKeptTrans(m0, m1, mem, live);
    }

    /** free: mark the segment, and defragment on every 32nd call. Exactly the given block leaves
        the live set and no byte of another block changes. */
    method Free(ptr: nat, ghost b: Seg)
      requires Valid() && b in Live(segs) && ptr == base + b.Payload()
      modifies this`mem, this`current, this`segs, this`nAllocations, this`frees
      ensures Valid() && |mem| == |old(mem)| && nAllocations == old(nAllocations) - 1 && frees == old(frees) + 1
      ensures Live(segs) == old(Live(segs)) - {b}
      ensures BytesKept(old(mem), mem, Live(segs))
      ensures old(frees) % 32 == 0 ==> NoAdjacentFree(segs)
    {
      hide Tiles, CountLive, AllOk, Linked, BytesKept, ReadHeader, WriteHeader, NoAdjacentFree, Merged;
      ghost var i: nat :| i < |segs| && segs[i] == b && !segs[i].free;
      hide Live;
      var off := ptr - HEADER - base;
      ghost var l, m0 := segs[i := b.(free := true)], mem;
      ReleaseKeeps(segs, |mem|, i);
      CurrentBound(base, segs, |mem|);
      CurrentBound(base, l, |mem|);
      ghost var want := Found(mem, l);
      ReleaseFound(mem, base, segs, i, want);
      SameBytes(mem, Live(l));
      HeadLinks(mem, base, segs, i);
      want := SetHeader(off, ReadHeader(mem, off).(free := 1), l, i, want, m0);
      assert want == Wanted(base, l);
      LinkedIs(mem, base, l);
      segs := l;
      nAllocations := nAllocations - 1;
      ghost var m1 := mem;
      if frees % 32 == 0 {
        Defragment();
        BytesKeptTrans(m0, m1, mem, Live(l));
      }
      frees := frees + 1;
    }

    /** realloc. NULL allocates and size 0 frees. Otherwise the block stays, or a new block takes
        over its first min(old size, new size) bytes and the old one is released. */
    method Realloc(ptr: nat, size: nat, junk: seq<byte>, ghost b: Seg) returns (p: nat, ghost c: Seg)
      requires Valid() && (ptr == 0 || (b in Live(segs) && ptr == base + b.Payload()))
      requires ptr == 0 || (size > 0 && !Stays(size, b.size)) ==>
               FirstFit(segs, Need(size)) < |segs| ||
               (|junk| == ExpandSize(Need(size)) && |mem| + ExpandSize(Need(size)) <= WORD32)
      modifies this`mem, this`current, this`segs, this`nAllocations, this`frees
      ensures Valid()
      ensures ptr == 0 ==> Live(segs) == old(Live(segs)) + {c} && c !in old(Live(segs)) && BytesKept(old(mem), mem, old(Live(segs)))
      ensures ptr != 0 && size == 0 ==> p == 0 && Live(segs) == old(Live(segs)) - {b} && BytesKept(old(mem), mem, Live(segs))
      ensures ptr == 0 || size > 0 ==> c in Live(segs) && p == base + c.Payload() && c.size >= size
      ensures ptr != 0 && size > 0 ==>
                && Live(segs) == old(Live(segs)) - {b} + {c}
                && (if Stays(size, b.size) then c == b && mem == old(mem) && segs == old(segs) else c !in old(Live(segs)))
                && BytesKept(old(mem), mem, old(Live(segs)) - {b})
                && b.End() <= |old(mem)| && c.End() <= |mem|
                && mem[c.Payload()..c.Payload() + Min(size, b.size)] == old(mem)[b.Payload()..b.Payload() + Min(size, b.size)]
    {
      hide Tiles, CountLive, AllOk, Linked, ReadHeader, WriteHeader, NoAdjacentFree, Merged, FirstFit, Carve, Expanded, BytesKept;
      if ptr == 0 {
        p, c := Malloc(size, junk);
        return;
      }
      if size == 0 {
        Free(ptr, b);
        return 0, b;
      }
      ghost var i: nat :| i < |segs| && segs[i] == b && !segs[i].free;
      hide Live;
      ghost var live, m0 := Live(segs), mem;
      LiveInside(segs, |mem|, b);
      HeadLinks(mem, base, segs, i);
      var size0 := ReadHeader(mem, ptr - HEADER - base).size;
      if Stays(size, size0) {
        SameBytes(mem, live - {b});
        return ptr, b;
      }
      p, c := Relocate(ptr, size, junk, b, size0);
    }

    method Relocate(ptr: nat, size: nat, junk: seq<byte>, ghost b: Seg, size0: nat) returns (p: nat, ghost c: Seg)
      requires Valid() && b in Live(segs) && ptr == base + b.Payload() && size > 0 && size0 == b.size
      requires FirstFit(segs, Need(size)) < |segs| ||
               (|junk| == ExpandSize(Need(size)) && |mem| + ExpandSize(Need(size)) <= WORD32)
      modifies this`mem, this`current, this`segs, this`nAllocations, this`frees
      ensures Valid() && nAllocations == old(nAllocations)
      ensures c in Live(segs) && p == base + c.Payload() && c.size >= size
      ensures Live(segs) == old(Live(segs)) - {b} + {c} && c !in old(Live(segs))
      ensures b.End() <= |old(mem)| && c.End() <= |mem|
      ensures mem[c.Payload()..c.Payload() + Min(size, b.size)] == old(mem)[b.Payload()..b.Payload() + Min(size, b.size)]
      ensures BytesKept(old(mem), mem, old(Live(segs)) - {b})
    {
      hide Tiles, CountLive, AllOk, Linked, NoAdjacentFree, FirstFit, Carve, Expanded, BytesKept, Live, Copy;
      ghost var live, m0 := Live(segs), mem;
      LiveInside(segs, |mem|, b);
      var copied := Min(size, size0);
      p, c := Malloc(size, junk);
      ghost var m1 := mem;
      LiveInside(segs, |mem|, b);
      LiveInside(segs, |mem|, c);
      CopyKeeps(mem, base, segs, c, ptr - base, copied);
      mem := Copy(mem, p - base, ptr - base, copied);
      ghost var m2 := mem;
      assert Live(segs) - {c} == live;
      Free(ptr, b);
      assert Live(segs) == live - {b} + {c};
      LiveInside(segs, |mem|, c);
      Survive(m0, m1, m2, mem, b, c, live, copied);
    }

    /** defragment: one pass from the top of the heap, folding each free segment into a free
        neighbour below it. */
    method Defragment()
      requires Valid() && segs != []
      modifies this`mem, this`current, this`segs
      ensures Valid() && segs == Merged(old(segs)) && |mem| == |old(mem)|
      ensures Live(segs) == old(Live(segs)) && NoAdjacentFree(segs)
      ensures BytesKept(old(mem), mem, old(Live(segs)))
    {
      hide Tiles, Live, CountLive, AllOk, Linked, BytesKept, Merged, ReadHeader, WriteHeader, NoAdjacentFree;
      MergedKeeps(segs, |mem|);
      SameBytes(mem, Live(segs));
      ghost var s0, m0 := segs, mem;
      ghost var done: seq<Seg>, p, rest := [], segs[0], segs[1..];
      assert segs == done + [p] + rest && [p] + rest == segs && [] + Merged(segs) == Merged(segs);
      var pred2, pred := 0, current;
      HeadLinks(mem, base, segs, 0);
      var seg := ReadHeader(mem, current - base).next;
      while seg != 0
        invariant Valid() && segs == done + [p] + rest && |mem| == |m0|
        invariant Merged(s0) == done + Merged([p] + rest)
        invariant Live(segs) == Live(s0) && BytesKept(m0, mem, Live(s0))
        invariant pred == base + p.off && seg == AddressOf(base, rest, 0)
        invariant pred2 == if done == [] then 0 else base + done[|done| - 1].off
        decreases |rest|
      {
        ghost var k := |done|;
        SegAt(done, p, rest);
        HeadLinks(mem, base, segs, k);
        HeadLinks(mem, base, segs, k + 1);
        MergedStep(p, rest);
        var hs, hp := ReadHeader(mem, seg - base), ReadHeader(mem, pred - base);
        ghost var next := rest[0];
        if hs.free == 1 && hp.free == 1 {
          FoldSegment(pred2, pred, seg, done, p, rest);
          p := Seg(next.off, next.size + HEADER + p.size, true);
        } else {
          AssocSegs(done, p, rest, Merged(rest));
          done := done + [p];
          p := next;
          pred2 := pred;
        }
        rest := rest[1..];
        pred := seg;
        seg := hs.next;
      }
      assert rest == [] && [p] + rest == [p];
      MergedOne(p);
    }

    /** The merge of defragment: `seg` absorbs `pred`, the segment right above it. */
    method FoldSegment(pred2: nat, pred: nat, seg: nat, ghost done: seq<Seg>, ghost p: Seg, ghost rest: seq<Seg>)
      requires Valid() && rest != [] && segs == done + [p] + rest && p.free && rest[0].free
      requires pred == base + p.off && seg == base + rest[0].off
      requires pred2 == if done == [] then 0 else base + done[|done| - 1].off
      modifies this`mem, this`current, this`segs
      ensures Valid() && |mem| == |old(mem)|
      ensures segs == done + [Seg(rest[0].off, rest[0].size + HEADER + p.size, true)] + rest[1..]
      ensures Live(segs) == old(Live(segs))
      ensures forall m :: BytesKept(m, old(mem), old(Live(segs))) ==> BytesKept(m, mem, old(Live(segs)))
    {
      hide Tiles, Live, CountLive, AllOk, Linked, BytesKept, ReadHeader, WriteHeader, Expected, Headers;
      ghost var k, z, m0, live := |done|, Seg(rest[0].off, rest[0].size + HEADER + p.size, true), mem, Live(segs);
      ghost var l := done + [z] + rest[1..];
      FoldKeeps(done, p, rest, |mem|);
      CurrentBound(base, segs, |mem|);
      CurrentBound(base, l, |mem|);
      SameBytes(mem, Live(l));
      ghost var want := Found(mem, l);
      FoldFound(mem, base, done, p, rest, z, want);
      HeadLinks(mem, base, segs, k);
      HeadLinks(mem, base, segs, k + 1);
      var above := ReadHeader(mem, pred - base).size;
      if pred2 == 0 {
        current := seg;
      } else {
        HeaderAt(mem, l, want, k - 1);
        want := SetHeader(pred2 - base, ReadHeader(mem, pred2 - base).(next := seg), l, k - 1, want, m0);
      }
      HeaderAt(mem, l, want, k);
      var h := ReadHeader(mem, seg - base);
      want := SetHeader(seg - base, h.(size := (h.size + HEADER + above) % WORD32), l, k, want, m0);
      assert want == Wanted(base, l);
      LinkedIs(mem, base, l);
      forall m | BytesKept(m, m0, live) ensures BytesKept(m, mem, live) {
        BytesKeptTrans(m, m0, mem, live);
      }
      segs := l;
    }

    /** One header store, inside a change of the list from the current one to l. */
    method SetHeader(off: nat, h: Header, ghost l: seq<Seg>, ghost k: nat, ghost want: seq<Header>, ghost m0: seq<byte>)
      returns (ghost want': seq<Header>)
      requires Tiles(l, |mem|) && Headers(mem, l, want) && k < |l| && off == l[k].off && HeaderOk(h)
      requires BytesKept(m0, mem, Live(l))
      modifies this`mem
      ensures |mem| == |old(mem)| && Headers(mem, l, want') && |want| == |l| && want' == want[k := h]
      ensures BytesKept(m0, mem, Live(l))
    {
      hide Tiles, Live, ReadHeader, WriteHeader, BytesKept;
      WriteOne(mem, l, want, k, h);
      BytesKeptTrans(m0, mem, WriteHeader(mem, off, h), Live(l));
      mem := WriteHeader(mem, off, h);
      want' := want[k := h];
    }
  }

  lemma FirstFitIs(segs: seq<Seg>, need: nat, i: nat)
    requires i <= |segs| && (forall j :: 0 <= j < i ==> !Fits(segs[j], need)) && (i < |segs| ==> Fits(segs[i], need))
    ensures i == FirstFit(segs, need)
  {}

  lemma SameBytes(mem: seq<byte>, s: set<Seg>)
    ensures BytesKept(mem, mem, s)
  {}

  lemma KeptLess(m: seq<byte>, m': seq<byte>, s: set<Seg>, t: set<Seg>)
    requires BytesKept(m, m', s) && t <= s
    ensures BytesKept(m, m', t)
  {}

  lemma FirstFitBound(segs: seq<Seg>, need: nat)
    ensures FirstFit(segs, need) <= |segs|
    ensures FirstFit(segs, need) < |segs| ==> Fits(segs[FirstFit(segs, need)], need)
  {}

  lemma ExpandedHead(segs: seq<Seg>, n: nat, need: nat)
    ensures Expanded(segs, n, ExpandSize(need)) != []
  {}

  lemma OkAt(segs: seq<Seg>, i: nat)
    requires AllOk(segs) && i < |segs|
    ensures SegOk(segs[i])
  {}

  lemma NeedStable(request: nat)
    ensures Need(Need(request)) == Need(request)
    ensures ExpandSize(Need(request)) % 8 == 0 && ExpandSize(Need(request)) >= HEADER + MIN_SEGMENT_SIZE
  {}

  /** realloc leaves a block in place when it shrinks, but not by much. */
  predicate Stays(size: nat, size0: nat) {
    size < size0 && (size > size0 / 2 || size0 - size < MIN_SEGMENT_SIZE * 2)
  }

  /** memcpy of n bytes inside the heap. */
  function Copy(mem: seq<byte>, dst: nat, src: nat, n: nat): (mem': seq<byte>)
    requires dst + n <= |mem| && src + n <= |mem|
    ensures |mem'| == |mem|
    ensures mem'[dst..dst + n] == mem[src..src + n]
    ensures forall a :: 0 <= a < dst || dst + n <= a < |mem| ==> mem'[a] == mem[a]
  {
    mem[..dst] + mem[src..src + n] + mem[dst + n..]
  }

  lemma ReadSame(mem: seq<byte>, m: seq<byte>, o: nat)
    requires o + HEADER <= |mem| && o + HEADER <= |m| && forall a :: o <= a < o + HEADER ==> m[a] == mem[a]
    ensures ReadHeader(m, o) == ReadHeader(mem, o)
  {
    hide Decode;
    assert m[o..o + 8] == mem[o..o + 8];
    assert m[o + 8..o + 12] == mem[o + 8..o + 12];
    assert m[o + 12..o + 16] == mem[o + 12..o + 16];
  }

  /** Copying into the payload of a live block disturbs no header and no other block. */
  lemma CopyKeeps(mem: seq<byte>, base: nat, segs: seq<Seg>, c: Seg, src: nat, n: nat)
    requires Tiles(segs, |mem|) && Linked(mem, base, segs) && c in Live(segs) && n <= c.size && src + n <= |mem|
    ensures c.Payload() + n <= |mem|
    ensures var m := Copy(mem, c.Payload(), src, n); Linked(m, base, segs) && BytesKept(mem, m, Live(segs) - {c})
  {
    hide ReadHeader, Copy, Tiles;
    var k: nat :| k < |segs| && segs[k] == c;
    TilesBound(segs, |mem|, k);
    var m := Copy(mem, c.Payload(), src, n);
    forall j: nat | j < |segs| ensures ReadHeader(m, segs[j].off) == ReadHeader(mem, segs[j].off) {
      if j < k {
        TilesOrder(segs, |mem|, j, k);
      } else if k < j {
        TilesOrder(segs, |mem|, k, j);
      }
      ReadSame(mem, m, segs[j].off);
    }
    forall b | b in Live(segs) - {c} ensures b.End() <= c.off || c.End() <= b.off {
      LiveDisjoint(segs, |mem|, b, c);
    }
  }

  /** The bytes of a reallocation: the copied ones reach the new block, the others stay. */
  lemma Survive(m0: seq<byte>, m1: seq<byte>, m2: seq<byte>, m3: seq<byte>, b: Seg, c: Seg, live: set<Seg>, n: nat)
    requires b in live && n <= b.size && n <= c.size && b.End() <= |m0| && c.End() <= |m1| && b.End() <= |m1|
    requires BytesKept(m0, m1, live) && BytesKept(m1, m2, live) && BytesKept(m2, m3, live - {b} + {c})
    requires m2 == Copy(m1, c.Payload(), b.Payload(), n)
    ensures BytesKept(m0, m3, live - {b})
    ensures c.End() <= |m3| && m3[c.Payload()..c.Payload() + n] == m0[b.Payload()..b.Payload() + n]
  {
    hide Copy;
    KeptLess(m0, m1, live, live - {b});
    KeptLess(m1, m2, live, live - {b});
    KeptLess(m2, m3, live - {b} + {c}, live - {b});
    BytesKeptTrans(m0, m1, m2, live - {b});
    BytesKeptTrans(m0, m2, m3, live - {b});
    KeptSlice(m0, m1, live, b, n);
    KeptSlice(m2, m3, live - {b} + {c}, c, n);
  }

  lemma KeptSlice(m: seq<byte>, m': seq<byte>, s: set<Seg>, b: Seg, n: nat)
    requires BytesKept(m, m', s) && b in s && b.End() <= |m| && n <= b.size
    ensures |m| <= |m'| && m'[b.Payload()..b.Payload() + n] == m[b.Payload()..b.Payload() + n]
  {}

  /** Before a release only the free field of segment i differs. */
  lemma ReleaseFound(mem: seq<byte>, base: nat, segs: seq<Seg>, i: nat, want: seq<Header>)
    requires Linked(mem, base, segs) && i < |segs| && Headers(mem, segs[i := segs[i].(free := true)], want)
    ensures var l := segs[i := segs[i].(free := true)];
            && |want| == |l| && want[i] == Expected(base, segs, i) && want[i].(free := 1) == Expected(base, l, i)
            && AddressOf(base, l, 0) == AddressOf(base, segs, 0)
            && forall j: nat :: j < |l| && j != i ==> want[j] == Expected(base, l, j)
  {
    hide ReadHeader;
    var l := segs[i := segs[i].(free := true)];
    forall j: nat | j < |l| ensures want[j] == Expected(base, segs, j) {
      assert ReadHeader(mem, l[j].off) == want[j];
    }
  }

  lemma LinkedIs(mem: seq<byte>, base: nat, segs: seq<Seg>)
    requires Headers(mem, segs, Wanted(base, segs))
    ensures Linked(mem, base, segs)
  {}

  /** What a linked list shows at place k. */
  lemma HeadLinks(mem: seq<byte>, base: nat, segs: seq<Seg>, k: nat)
    requires Linked(mem, base, segs) && k < |segs|
    ensures segs[k].off + HEADER <= |mem|
    ensures var h := ReadHeader(mem, segs[k].off);
            && h == Expected(base, segs, k) && h.next == AddressOf(base, segs, k + 1)
            && h.size == segs[k].size && (h.free == 1 <==> segs[k].free)
  {}

  lemma {:induction false} MergedStep(p: Seg, rest: seq<Seg>)
    requires rest != []
    ensures Merged([p] + rest) ==
            if p.free && rest[0].free then Merged([Seg(rest[0].off, rest[0].size + HEADER + p.size, true)] + rest[1..])
            else [p] + Merged(rest)
  {
    hide Merged;
    var l := [p] + rest;
    MergedUnfold(l);
    assert l[0] == p && l[1] == rest[0] && l[1..] == rest && l[2..] == rest[1..];
  }

  lemma {:induction false} MergedUnfold(l: seq<Seg>)
    requires |l| >= 2
    ensures Merged(l) ==
            if l[0].free && l[1].free then Merged([Seg(l[1].off, l[1].size + HEADER + l[0].size, true)] + l[2..])
            else [l[0]] + Merged(l[1..])
  {}

  lemma MergedOne(p: Seg)
    ensures Merged([p]) == [p]
  {}

  lemma AssocSegs(done: seq<Seg>, p: Seg, rest: seq<Seg>, merged: seq<Seg>)
    requires rest != []
    ensures done + [p] + rest == (done + [p]) + [rest[0]] + rest[1..]
    ensures done + ([p] + merged) == done + [p] + merged
  {}

  lemma SegAt(done: seq<Seg>, p: Seg, rest: seq<Seg>)
    requires rest != []
    ensures (done + [p] + rest)[|done|] == p && (done + [p] + rest)[|done| + 1] == rest[0]
    ensures |done + [p] + rest| > |done| + 1 && rest == [rest[0]] + rest[1..]
    ensures forall base: nat :: AddressOf(base, done + [p] + rest, |done| + 2) == AddressOf(base, rest[1..], 0)
  {}

  /** One merge in the middle of the list. */
  lemma FoldKeeps(done: seq<Seg>, p: Seg, rest: seq<Seg>, n: nat)
    requires rest != [] && p.free && rest[0].free && Tiles(done + [p] + rest, n) && AllOk(done + [p] + rest)
    ensures var l := done + [Seg(rest[0].off, rest[0].size + HEADER + p.size, true)] + rest[1..];
            && Tiles(l, n) && AllOk(l) && Live(l) == Live(done + [p] + rest) && CountLive(l) == CountLive(done + [p] + rest)
  {
    var y, t := rest[0], rest[1..];
    var z, s := Seg(y.off, y.size + HEADER + p.size, true), done + [p] + rest;
    assert s == done + [p, y] + t && s[|done|] == p && s[|done| + 1] == y;
    assert SegOk(p) && SegOk(y);
    assert [p, y][1..] == [y] && [y][1..] == [] && [z][1..] == [];
    Exchange(done, [p, y], [z], t, n);
    ThreeParts(done, [p, y], t);
    ThreeParts(done, [z], t);
    FreeAlone(z);
    assert Live([p, y]) == {} && CountLive([y]) == 0;
    var l := done + [z] + t;
    forall j | 0 <= j < |l| ensures SegOk(l[j]) {
      assert j != |done| ==> l[j] == s[if j < |done| then j else j + 1];
    }
  }

  /** The list after a merge, place by place. */
  lemma FoldPlaces(done: seq<Seg>, p: Seg, rest: seq<Seg>, z: Seg)
    requires rest != []
    ensures var s, l, k := done + [p] + rest, done + [z] + rest[1..], |done|;
            && |s| == |l| + 1 && l[k] == z && s[k] == p && s[k + 1] == rest[0]
            && (forall j: nat :: j < k ==> l[j] == s[j] == done[j])
            && (forall j: nat :: k < j < |l| ==> l[j] == s[j + 1])
  {}

  lemma FoldExpected(base: nat, done: seq<Seg>, p: Seg, rest: seq<Seg>, z: Seg)
    requires rest != [] && z.off == rest[0].off && z.free && rest[0].free
    ensures var s, l, k := done + [p] + rest, done + [z] + rest[1..], |done|;
            && |s| == |l| + 1 && Expected(base, s, k + 1).(size := z.size) == Expected(base, l, k)
            && Expected(base, s, k + 1).size == rest[0].size
            && (k > 0 ==> Expected(base, s, k - 1).(next := base + z.off) == Expected(base, l, k - 1))
            && (forall j: nat :: j < |l| && j != k && j + 1 != k ==>
                 Expected(base, l, j) == Expected(base, s, if j < k then j else j + 1))
            && (k > 0 ==> AddressOf(base, l, 0) == AddressOf(base, s, 0))
  {
    var s, l, k := done + [p] + rest, done + [z] + rest[1..], |done|;
    FoldPlaces(done, p, rest, z);
  }

  /** How far the headers in memory are from those of the list after a merge. */
  lemma FoldFound(mem: seq<byte>, base: nat, done: seq<Seg>, p: Seg, rest: seq<Seg>, z: Seg, want: seq<Header>)
    requires rest != [] && Linked(mem, base, done + [p] + rest) && z.off == rest[0].off && z.free && rest[0].free
    requires Headers(mem, done + [z] + rest[1..], want)
    ensures var l, k := done + [z] + rest[1..], |done|;
            && |want| == |l| && k < |l| && l[k] == z && (k > 0 ==> l[k - 1] == done[k - 1])
            && want[k].size == rest[0].size && want[k].(size := z.size) == Expected(base, l, k)
            && (k > 0 ==> want[k - 1].(next := base + z.off) == Expected(base, l, k - 1))
            && (k > 0 ==> AddressOf(base, l, 0) == AddressOf(base, done + [p] + rest, 0))
            && forall j: nat :: j < |l| && j != k && j + 1 != k ==> want[j] == Expected(base, l, j)
  {
    hide ReadHeader, Expected;
    var s, l, k := done + [p] + rest, done + [z] + rest[1..], |done|;
    FoldPlaces(done, p, rest, z);
    FoldExpected(base, done, p, rest, z);
    forall j: nat | j < |l| ensures want[j] == Expected(base, s, if j < k then j else j + 1) {
      assert ReadHeader(mem, l[j].off) == want[j];
    }
  }

  lemma SizeOf(base: nat, segs: seq<Seg>, i: nat)
    requires i < |segs|
    ensures Expected(base, segs, i).size == segs[i].size
  {}

  lemma HeaderAt(mem: seq<byte>, segs: seq<Seg>, want: seq<Header>, k: nat)
    requires Headers(mem, segs, want) && k < |segs|
    ensures segs[k].off + HEADER <= |mem| && k < |want| && ReadHeader(mem, segs[k].off) == want[k]
  {}

  /** The list after a split, place by place. */
  lemma SplitPlaces(segs: seq<Seg>, i: nat, need: nat)
    requires i < |segs| && segs[i].size >= need + HEADER + MIN_SEGMENT_SIZE
    ensures var l := Carve(segs, i, need);
            && |l| == |segs| + 1
            && (forall j: nat :: j < i ==> l[j] == segs[j])
            && l[i] == Seg(segs[i].off + HEADER + need, segs[i].size - need - HEADER, true)
            && l[i + 1] == Seg(segs[i].off, need, false)
            && (forall j: nat :: i + 1 < j < |l| ==> l[j] == segs[j - 1])
  {}

  /** The headers the list wants after a split, in terms of those before. */
  lemma SplitExpected(base: nat, segs: seq<Seg>, i: nat, need: nat)
    requires i < |segs| && segs[i].size >= need + HEADER + MIN_SEGMENT_SIZE
    ensures var l := Carve(segs, i, need);
            && |l| == |segs| + 1
            && Expected(base, segs, i).(size := need, free := 0) == Expected(base, l, i + 1)
            && (i > 0 ==> Expected(base, segs, i - 1).(next := base + l[i].off) == Expected(base, l, i - 1))
            && forall j: nat :: j < |l| && j != i && j != i + 1 && j + 1 != i ==>
                 Expected(base, l, j) == Expected(base, segs, if j < i then j else j - 1)
  {
    hide Carve;
    SplitPlaces(segs, i, need);
  }

  /** How far the headers in memory are from those of the list after a split. */
  lemma SplitFound(mem: seq<byte>, base: nat, segs: seq<Seg>, i: nat, need: nat, want: seq<Header>)
    requires Linked(mem, base, segs) && i < |segs| && segs[i].size >= need + HEADER + MIN_SEGMENT_SIZE
    requires Headers(mem, Carve(segs, i, need), want)
    ensures var l := Carve(segs, i, need);
            && |want| == |l| == |segs| + 1 && want[i + 1] == Expected(base, segs, i)
            && want[i + 1].(size := need, free := 0) == Expected(base, l, i + 1)
            && (i > 0 ==> want[i - 1] == Expected(base, segs, i - 1))
            && (i > 0 ==> want[i - 1].(next := base + l[i].off) == Expected(base, l, i - 1))
            && forall j: nat :: j < |l| && j != i && j != i + 1 && j + 1 != i ==> want[j] == Expected(base, l, j)
  {
    hide ReadHeader, Carve, Expected;
    SplitPlaces(segs, i, need);
    SplitExpected(base, segs, i, need);
    var l := Carve(segs, i, need);
    forall j: nat | j < |l| && j != i ensures want[j] == Expected(base, segs, if j < i then j else j - 1) {
      assert ReadHeader(mem, l[j].off) == want[j];
    }
  }

  /** How far they are when the segment is taken whole. */
  lemma WholeFound(mem: seq<byte>, base: nat, segs: seq<Seg>, i: nat, need: nat, want: seq<Header>)
    requires Linked(mem, base, segs) && i < |segs| && need <= segs[i].size < need + HEADER + MIN_SEGMENT_SIZE
    requires Headers(mem, Carve(segs, i, need), want)
    ensures var l := Carve(segs, i, need);
            && |want| == |l| == |segs| && l[i].off == segs[i].off && want[i] == Expected(base, segs, i)
            && want[i].(free := 0) == Expected(base, l, i) && AddressOf(base, l, 0) == AddressOf(base, segs, 0)
            && forall j: nat :: j < |l| && j != i ==> want[j] == Expected(base, l, j)
  {
    hide ReadHeader;
    var l := Carve(segs, i, need);
    forall j: nat | j < |l| ensures want[j] == Expected(base, segs, j) {
      assert ReadHeader(mem, l[j].off) == want[j];
    }
  }

  lemma CurrentBound(base: nat, segs: seq<Seg>, n: nat)
    requires Tiles(segs, n) && n <= WORD32 && base + WORD32 <= WORD64
    ensures forall i: nat :: i < |segs| ==> segs[i].off + HEADER <= n
    ensures forall i: nat :: AddressOf(base, segs, i) < WORD64
    ensures forall i: nat :: i < |segs| ==> HeaderOk(Expected(base, segs, i))
  {
    forall i: nat | i < |segs| ensures segs[i].off + HEADER + segs[i].size <= n {
      TilesBound(segs, n, i);
    }
  }

  /** Wanted headers of a list with one more segment at the head. */
  lemma WantedTop(base: nat, segs: seq<Seg>, l: seq<Seg>, want: seq<Header>, h: Header)
    requires l != [] && l[1..] == segs && |want| == |l| && want[1..] == Wanted(base, segs) && h == Expected(base, l, 0)
    ensures want[0 := h] == Wanted(base, l)
  {
    forall i: nat | i < |l| ensures want[0 := h][i] == Wanted(base, l)[i] {
      if i > 0 {
        assert want[i] == want[1..][i - 1] && l[i] == segs[i - 1];
        assert Expected(base, l, i) == Expected(base, segs, i - 1);
      }
    }
  }

  lemma GrowHeaders(mem: seq<byte>, junk: seq<byte>, segs: seq<Seg>, want: seq<Header>)
    requires Headers(mem, segs, want) && Tiles(segs, |mem|)
    ensures Headers(mem + junk, segs, want) && BytesKept(mem, mem + junk, Live(segs))
  {
    hide Decode, ReadHeader, Live;
    var m := mem + junk;
    forall j: nat | j < |segs| ensures ReadHeader(m, segs[j].off) == want[j] {
      ReadSame(mem, m, segs[j].off);
    }
  }

  lemma FoundTail(mem: seq<byte>, l: seq<Seg>, segs: seq<Seg>, want: seq<Header>, tail: seq<Header>)
    requires Headers(mem, l, want) && Headers(mem, segs, tail) && l != [] && l[1..] == segs
    ensures want[1..] == tail
  {
    forall j: nat | j < |segs| ensures want[1..][j] == tail[j] {
      assert l[1..][j] == l[j + 1];
    }
  }
}
