/**
 The kernel heap as a list of segments, highest address first: what allocation, release and
 defragmentation do to that list, and what they keep.
 */
module HeapSegments {

  const HEADER: nat := 16            // sizeof(seg_header)
  const MIN_SEGMENT_SIZE: nat := 32
  const MIN_EXPAND_SIZE: nat := 1024

  /** A segment: its header at offset `off` from the heap base, `size` payload bytes after it. */
  datatype Seg = Seg(off: nat, size: nat, free: bool) {
    function Payload(): nat { off + HEADER }
    function End(): nat { off + HEADER + size }
  }

  /** The list covers [0, n) exactly, each segment ending where its predecessor begins. */
  ghost predicate Tiles(segs: seq<Seg>, n: nat) {
    if segs == [] then n == 0
    else segs[0].End() == n && Tiles(segs[1..], segs[0].off)
  }

  predicate SegOk(s: Seg) {
    s.off % 8 == 0 && s.size % 8 == 0 && s.size >= MIN_SEGMENT_SIZE
  }

  ghost predicate AllOk(segs: seq<Seg>) {
    forall i :: 0 <= i < |segs| ==> SegOk(segs[i])
  }

  /** The blocks in use, by offset of their header and size. */
  ghost function Live(segs: seq<Seg>): set<Seg> {
    set i | 0 <= i < |segs| && !segs[i].free :: segs[i]
  }

  ghost function CountLive(segs: seq<Seg>): nat {
    if segs == [] then 0 else (if segs[0].free then 0 else 1) + CountLive(segs[1..])
  }

  ghost predicate NoAdjacentFree(segs: seq<Seg>) {
    forall i :: 0 <= i < |segs| - 1 ==> !(segs[i].free && segs[i + 1].free)
  }

  /** The size malloc works with: rounded up to 8, at least one minimal segment. */
  function Need(size: nat): (n: nat)
    ensures n >= size && n >= MIN_SEGMENT_SIZE && n % 8 == 0 && (n < size + 8 || n == MIN_SEGMENT_SIZE)
  {
    var a := (size + 7) / 8 * 8;
    if a < MIN_SEGMENT_SIZE then MIN_SEGMENT_SIZE else a
  }

  predicate Fits(s: Seg, need: nat) { s.free && s.size >= need }

  /** Index of the first free segment that is large enough, |segs| if there is none. */
  ghost function FirstFit(segs: seq<Seg>, need: nat): (i: nat)
    ensures i <= |segs|
    ensures forall j :: 0 <= j < i ==> !Fits(segs[j], need)
    ensures i < |segs| ==> Fits(segs[i], need)
  {
    if segs == [] then 0 else if Fits(segs[0], need) then 0 else 1 + FirstFit(segs[1..], need)
  }

  /** Taking segment i: its tail becomes a free segment when it can stand on its own. */
  ghost function Carve(segs: seq<Seg>, i: nat, need: nat): seq<Seg>
    requires i < |segs| && segs[i].size >= need
  {
    var s := segs[i];
    if s.size >= need + HEADER + MIN_SEGMENT_SIZE then
      segs[..i] + [Seg(s.off + HEADER + need, s.size - need - HEADER, true), Seg(s.off, need, false)] + segs[i + 1..]
    else segs[i := s.(free := false)]
  }

  /** The block that taking segment i hands out. */
  function Taken(s: Seg, need: nat): Seg {
    if s.size >= need + HEADER + MIN_SEGMENT_SIZE then Seg(s.off, need, false) else s.(free := false)
  }

  function ExpandSize(need: nat): (n: nat)
    ensures n >= need + HEADER && n >= MIN_EXPAND_SIZE && (n == need + HEADER || n == MIN_EXPAND_SIZE)
  {
    if need + HEADER >= MIN_EXPAND_SIZE then need + HEADER else MIN_EXPAND_SIZE
  }

  /** The list after expand_heap. */
  function Expanded(segs: seq<Seg>, n: nat, size: nat): seq<Seg>
    requires size >= HEADER
  {
    [Seg(n, size - HEADER, true)] + segs
  }

  /** defragment: adjacent free segments are merged downwards, from the top of the heap. */
  ghost function Merged(segs: seq<Seg>): seq<Seg>
    decreases |segs|
  {
    if |segs| < 2 then segs
    else if segs[0].free && segs[1].free then
      Merged([Seg(segs[1].off, segs[1].size + HEADER + segs[0].size, true)] + segs[2..])
    else [segs[0]] + Merged(segs[1..])
  }

  // ---- order ------------------------------------------------------------------------

  /** Segments further down the list lie entirely below, and all lie inside the heap. */
  lemma {:induction false} TilesOrder(segs: seq<Seg>, n: nat, i: nat, j: nat)
    requires Tiles(segs, n) && i < j < |segs|
    ensures segs[j].End() <= segs[i].off && segs[i].End() <= n
  {
    if i == 0 {
      TilesBound(segs[1..], segs[0].off, j - 1);
    } else {
      TilesOrder(segs[1..], segs[0].off, i - 1, j - 1);
    }
  }

  lemma {:induction false} TilesBound(segs: seq<Seg>, n: nat, j: nat)
    requires Tiles(segs, n) && j < |segs|
    ensures segs[j].End() <= n
  {
    if j > 0 {
      TilesBound(segs[1..], segs[0].off, j - 1);
    }
  }

  /** Tiling is a property of the pieces: replacing a middle run by another that covers the same
      span keeps it. */
  lemma {:induction false} TilesSplit(a: seq<Seg>, b: seq<Seg>, n: nat)
    ensures Tiles(a + b, n) <==> (exists m :: 0 <= m <= n && TilesTo(a, n, m) && Tiles(b, m))
  {
    if a == [] {
      assert a + b == b;
      if Tiles(b, n) {
        assert TilesTo(a, n, n);
      }
    } else {
      assert (a + b)[1..] == a[1..] + b;
      TilesSplit(a[1..], b, a[0].off);
      if Tiles(a + b, n) {
        var m :| 0 <= m <= a[0].off && TilesTo(a[1..], a[0].off, m) && Tiles(b, m);
        assert TilesTo(a, n, m);
      }
      if m :| 0 <= m <= n && TilesTo(a, n, m) && Tiles(b, m) {
        TilesToBound(a[1..], a[0].off, m);
      }
    }
  }

  /** The run covers [m, n). */
  ghost predicate TilesTo(segs: seq<Seg>, n: nat, m: nat) {
    if segs == [] then n == m
    else segs[0].End() == n && TilesTo(segs[1..], segs[0].off, m)
  }

  lemma {:induction false} TilesToBound(segs: seq<Seg>, n: nat, m: nat)
    requires TilesTo(segs, n, m)
    ensures m <= n
  {
    if segs != [] {
      TilesToBound(segs[1..], segs[0].off, m);
    }
  }

  /** Exchanging one run for another that covers the same span. */
  lemma Exchange(a: seq<Seg>, b: seq<Seg>, b': seq<Seg>, c: seq<Seg>, n: nat)
    requires Tiles(a + b + c, n)
    requires forall k, m :: TilesTo(b, k, m) ==> TilesTo(b', k, m)
    ensures Tiles(a + b' + c, n)
  {
    assert a + b + c == a + (b + c) && a + b' + c == a + (b' + c);
    TilesSplit(a, b + c, n);
    var k :| 0 <= k <= n && TilesTo(a, n, k) && Tiles(b + c, k);
    TilesSplit(b, c, k);
    var m :| 0 <= m <= k && TilesTo(b, k, m) && Tiles(c, m);
    TilesSplit(b', c, k);
    TilesSplit(a, b' + c, n);
  }

  // ---- counting and live sets --------------------------------------------------------

  lemma {:induction false} CountAppend(a: seq<Seg>, b: seq<Seg>)
    ensures CountLive(a + b) == CountLive(a) + CountLive(b)
  {
    if a == [] {
      assert a + b == b;
    } else {
      assert (a + b)[1..] == a[1..] + b;
      CountAppend(a[1..], b);
    }
  }

  lemma LiveAppend(a: seq<Seg>, b: seq<Seg>)
    ensures Live(a + b) == Live(a) + Live(b)
  {
    var c := a + b;
    assert forall i :: 0 <= i < |a| ==> c[i] == a[i];
    assert forall i :: 0 <= i < |b| ==> c[|a| + i] == b[i];
    forall x | x in Live(a) + Live(b) ensures x in Live(c) {
      if x in Live(a) {
        var i :| 0 <= i < |a| && !a[i].free && a[i] == x;
        assert c[i] == x;
      } else {
        var i :| 0 <= i < |b| && !b[i].free && b[i] == x;
        assert c[|a| + i] == x;
      }
    }
  }

  lemma ThreeParts(a: seq<Seg>, b: seq<Seg>, c: seq<Seg>)
    ensures Live(a + b + c) == Live(a) + Live(b) + Live(c)
    ensures CountLive(a + b + c) == CountLive(a) + CountLive(b) + CountLive(c)
  {
    LiveAppend(a + b, c);
    LiveAppend(a, b);
    CountAppend(a + b, c);
    CountAppend(a, b);
  }

  /** No other block starts where segment i does. */
  lemma Elsewhere(segs: seq<Seg>, n: nat, i: nat)
    requires Tiles(segs, n) && i < |segs|
    ensures forall x :: x in Live(segs[..i]) + Live(segs[i + 1..]) ==> x.off != segs[i].off
  {
    forall j | 0 <= j < |segs| && j != i ensures segs[j].off != segs[i].off {
      if j < i {
        TilesOrder(segs, n, j, i);
      } else {
        TilesOrder(segs, n, i, j);
      }
    }
  }

  // ---- allocation --------------------------------------------------------------------

  lemma CarvePieces(segs: seq<Seg>, i: nat, need: nat)
    requires i < |segs| && segs[i].size >= need
    ensures segs == segs[..i] + [segs[i]] + segs[i + 1..]
    ensures Carve(segs, i, need) == segs[..i] + CarveOne(segs[i], need) + segs[i + 1..]
  {}

  ghost function CarveOne(s: Seg, need: nat): seq<Seg>
    requires s.size >= need
  {
    if s.size >= need + HEADER + MIN_SEGMENT_SIZE then
      [Seg(s.off + HEADER + need, s.size - need - HEADER, true), Seg(s.off, need, false)]
    else [s.(free := false)]
  }

  /** Taking a free segment keeps the tiling and the alignment, adds exactly the block taken to
      the live set, and counts it once. */
  lemma CarveKeeps(segs: seq<Seg>, n: nat, i: nat, need: nat)
    requires Tiles(segs, n) && AllOk(segs) && i < |segs| && Fits(segs[i], need) && need % 8 == 0 && need >= MIN_SEGMENT_SIZE
    ensures Tiles(Carve(segs, i, need), n) && AllOk(Carve(segs, i, need))
    ensures Live(Carve(segs, i, need)) == Live(segs) + {Taken(segs[i], need)}
    ensures CountLive(Carve(segs, i, need)) == CountLive(segs) + 1
    ensures forall s :: s in Live(segs) ==> s.off != segs[i].off
  {
    var a, s, c := segs[..i], segs[i], segs[i + 1..];
    var one := CarveOne(s, need);
    CarvePieces(segs, i, need);
    hide Carve, CarveOne, Tiles, TilesTo, Live, CountLive;
    assert SegOk(s);
    CarveSpan(s, need);
    Exchange(a, [s], one, c, n);
    ThreeParts(a, [s], c);
    ThreeParts(a, one, c);
    Elsewhere(segs, n, i);
    LiveOne(s, need);
    FreeAlone(s);
    CarveOk(s, need);
  }

  lemma FreeAlone(s: Seg)
    requires s.free
    ensures Live([s]) == {} && CountLive([s]) == 0
  {}

  lemma CarveOk(s: Seg, need: nat)
    requires SegOk(s) && s.size >= need && need % 8 == 0 && need >= MIN_SEGMENT_SIZE
    ensures AllOk(CarveOne(s, need))
  {}

  /** The pieces cover what the whole covered. */
  lemma CarveSpan(s: Seg, need: nat)
    requires s.size >= need
    ensures forall k, m :: TilesTo([s], k, m) ==> TilesTo(CarveOne(s, need), k, m)
  {
    var one := CarveOne(s, need);
    assert one[1..] == (if |one| == 2 then [one[1]] else []);
    if |one| == 2 {
      assert one[1..][1..] == [];
    }
    assert [s][1..] == [];
  }

  lemma LiveOne(s: Seg, need: nat)
    requires s.size >= need
    ensures Live(CarveOne(s, need)) == {Taken(s, need)} && CountLive(CarveOne(s, need)) == 1
  {
    var one := CarveOne(s, need);
    assert one[|one| - 1] == Taken(s, need);
    assert CountLive([Taken(s, need)]) == 1;
    assert one[1..] == (if |one| == 2 then [Taken(s, need)] else []);
  }

  lemma ExpandKeeps(segs: seq<Seg>, n: nat, size: nat)
    requires Tiles(segs, n) && AllOk(segs) && n % 8 == 0 && size % 8 == 0 && size >= HEADER + MIN_SEGMENT_SIZE
    ensures Tiles(Expanded(segs, n, size), n + size) && AllOk(Expanded(segs, n, size))
    ensures Live(Expanded(segs, n, size)) == Live(segs) && CountLive(Expanded(segs, n, size)) == CountLive(segs)
  {
    var top := Seg(n, size - HEADER, true);
    assert ([top] + segs)[1..] == segs;
    LiveAppend([top], segs);
    assert Live([top]) == {};
  }

  /** After one expansion the head of the list fits: the retry cannot expand again. */
  lemma RetryFits(segs: seq<Seg>, n: nat, need: nat)
    ensures FirstFit(Expanded(segs, n, ExpandSize(need)), need) == 0
  {}

  // ---- release -----------------------------------------------------------------------

  lemma ReleaseKeeps(segs: seq<Seg>, n: nat, i: nat)
    requires Tiles(segs, n) && AllOk(segs) && i < |segs| && !segs[i].free
    ensures var r := segs[i := segs[i].(free := true)];
            && Tiles(r, n) && AllOk(r) && Live(r) == Live(segs) - {segs[i]} && CountLive(r) == CountLive(segs) - 1
  {
    var a, s, f, c := segs[..i], segs[i], segs[i].(free := true), segs[i + 1..];
    assert segs == a + [s] + c && segs[i := f] == a + [f] + c;
    assert [s][1..] == [] && [f][1..] == [];
    Exchange(a, [s], [f], c, n);
    ThreeParts(a, [s], c);
    ThreeParts(a, [f], c);
    Elsewhere(segs, n, i);
    assert Live([f]) == {};
    assert [s][0] in Live([s]);
    assert Live([s]) == {s};
  }

  // ---- defragmentation ---------------------------------------------------------------

  /** One merge: two adjacent free segments become one that spans both. */
  lemma MergePairKeeps(x: Seg, y: Seg, rest: seq<Seg>, n: nat)
    requires Tiles([x, y] + rest, n) && AllOk([x, y] + rest) && x.free && y.free
    ensures var m := [Seg(y.off, y.size + HEADER + x.size, true)] + rest;
            && Tiles(m, n) && AllOk(m) && Live(m) == Live([x, y] + rest) && CountLive(m) == CountLive([x, y] + rest)
  {
    var s, z := [x, y] + rest, Seg(y.off, y.size + HEADER + x.size, true);
    assert s[1..][1..] == rest && ([z] + rest)[1..] == rest && s[1..][0] == y && s[0] == x;
    assert SegOk(s[0]) && SegOk(s[1]);
    assert forall i :: 1 <= i < |rest| + 1 ==> ([z] + rest)[i] == s[i + 1];
    LiveAppend([x, y], rest);
    LiveAppend([z], rest);
    assert Live([z]) == {} && Live([x, y]) == {};
    CountAppend([z], rest);
    CountAppend([x, y], rest);
    assert [x, y][1..] == [y];
  }

  /** Defragmenting keeps the tiling, moves no live block, and leaves no two free neighbours. */
  lemma {:induction false} MergedKeeps(segs: seq<Seg>, n: nat)
    requires Tiles(segs, n) && AllOk(segs)
    ensures Tiles(Merged(segs), n) && AllOk(Merged(segs))
    ensures Live(Merged(segs)) == Live(segs) && CountLive(Merged(segs)) == CountLive(segs)
    ensures NoAdjacentFree(Merged(segs))
    ensures segs != [] ==> Merged(segs) != [] && Merged(segs)[0].free == segs[0].free
    decreases |segs|
  {
    if |segs| >= 2 {
      if segs[0].free && segs[1].free {
        assert segs == [segs[0], segs[1]] + segs[2..];
        MergePairKeeps(segs[0], segs[1], segs[2..], n);
        MergedKeeps([Seg(segs[1].off, segs[1].size + HEADER + segs[0].size, true)] + segs[2..], n);
      } else {
        var h, t := segs[0], segs[1..];
        assert AllOk(t) && segs == [h] + t;
        MergedKeeps(t, h.off);
        var m := Merged(t);
        assert ([h] + m)[1..] == m;
        LiveAppend([h], t);
        LiveAppend([h], m);
        CountAppend([h], t);
        CountAppend([h], m);
        forall i | 0 <= i < |[h] + m| - 1 ensures !(([h] + m)[i].free && ([h] + m)[i + 1].free) {
          if i > 0 {
            assert !(m[i - 1].free && m[i].free);
          }
        }
      }
    }
  }

  /** Live blocks never overlap: two of them are the same block or lie apart. */
  lemma LiveDisjoint(segs: seq<Seg>, n: nat, s: Seg, t: Seg)
    requires Tiles(segs, n) && s in Live(segs) && t in Live(segs) && s != t
    ensures s.End() <= t.off || t.End() <= s.off
  {
    var i :| 0 <= i < |segs| && segs[i] == s;
    var j :| 0 <= j < |segs| && segs[j] == t;
    if i < j {
      TilesOrder(segs, n, i, j);
    } else {
      TilesOrder(segs, n, j, i);
    }
  }

  lemma LiveInside(segs: seq<Seg>, n: nat, s: Seg)
    requires Tiles(segs, n) && AllOk(segs) && s in Live(segs)
    ensures SegOk(s) && s.End() <= n
  {
    var i :| 0 <= i < |segs| && segs[i] == s;
    TilesBound(segs, n, i);
  }
}
