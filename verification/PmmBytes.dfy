/**
 The range header as the kernel stores it: four byte arrays updated in place with masks,
 and four 32-bit counters. Each in-place operation is proved to be the corresponding
 operation of PmmHeader on the bits those bytes hold.
 */
module PmmBytes {
  import opened Common
  import opened PmmHeader

  /** Decrement and increment of a 32-bit counter. */
  function Dec(x: int): int { (x - 1) % WORD32 }
  function Inc(x: int): int { (x + 1) % WORD32 }

  lemma NoWrap()
    ensures forall x {:trigger Dec(x)} :: 1 <= x <= MAX_SIZE ==> Dec(x) == x - 1
    ensures forall x {:trigger Inc(x)} :: 0 <= x <= MAX_SIZE ==> Inc(x) == x + 1
  {}

  predicate Bit(b: bv8, i: nat)
    requires i < 8
  {
    b & (1 << i) != 0
  }

  /** The bits of a byte bitmap: bit i lives in byte i/8 under mask 1 << i%8. */
  ghost function Unpacked(bytes: seq<bv8>): (s: seq<bool>)
    ensures |s| == 8 * |bytes|
  {
    seq(8 * |bytes|, i requires 0 <= i < 8 * |bytes| => Bit(bytes[i / 8], i % 8))
  }

  lemma UnpackedAt(bytes: seq<bv8>, i: nat)
    requires i < 8 * |bytes|
    ensures Unpacked(bytes)[i] == Bit(bytes[i / 8], i % 8)
  {}

  function WithBit(b: bv8, i: nat): bv8
    requires i < 8
  {
    b | (1 << i)
  }

  function WithoutBit(b: bv8, i: nat): bv8
    requires i < 8
  {
    b & !(1 << i)
  }

  /** Some bit of nibble j is set: the test against 0xf << 4*j. */
  predicate InNibble(b: bv8, j: nat)
    requires j < 2
  {
    b & (0xf << (4 * j)) != 0
  }

  /** Some bit of pair j is set: the test against 0x3 << 2*j. */
  predicate InPair(b: bv8, j: nat)
    requires j < 4
  {
    b & (0x3 << (2 * j)) != 0
  }

  lemma SetMask(b: bv8, i: nat, j: nat)
    requires i < 8 && j < 8
    ensures Bit(WithBit(b, i), j) <==> i == j || Bit(b, j)
  {
    if i < 4 {
      if i == 0 {} else if i == 1 {} else if i == 2 {} else {}
    } else {
      if i == 4 {} else if i == 5 {} else if i == 6 {} else {}
    }
  }

  lemma ClearMask(b: bv8, i: nat, j: nat)
    requires i < 8 && j < 8
    ensures Bit(WithoutBit(b, i), j) <==> i != j && Bit(b, j)
  {
    if i < 4 {
      if i == 0 {} else if i == 1 {} else if i == 2 {} else {}
    } else {
      if i == 4 {} else if i == 5 {} else if i == 6 {} else {}
    }
  }

  lemma NibbleMask(b: bv8, j: nat)
    requires j < 2
    ensures InNibble(b, j) <==>
            Bit(b, 4 * j) || Bit(b, 4 * j + 1) || Bit(b, 4 * j + 2) || Bit(b, 4 * j + 3)
  {
    if j == 0 {
    } else {
      assert j == 1;
    }
  }

  lemma PairMask(b: bv8, j: nat)
    requires j < 4
    ensures InPair(b, j) <==> Bit(b, 2 * j) || Bit(b, 2 * j + 1)
  {
    if j == 0 {
    } else if j == 1 {
    } else if j == 2 {
    } else {
      assert j == 3;
    }
  }

  /** Or-ing a mask into one byte sets exactly one bit of the bitmap; and-not clears it. */
  lemma UpdateByte(bytes: seq<bv8>, n: nat)
    requires n / 8 < |bytes|
    ensures Unpacked(bytes[n / 8 := WithBit(bytes[n / 8], n % 8)]) == Unpacked(bytes)[n := true]
    ensures Unpacked(bytes[n / 8 := WithoutBit(bytes[n / 8], n % 8)]) == Unpacked(bytes)[n := false]
  {
    hide Bit, WithBit, WithoutBit;
    forall j: nat | j < 8
      ensures Bit(WithBit(bytes[n / 8], n % 8), j) <==> n % 8 == j || Bit(bytes[n / 8], j)
      ensures Bit(WithoutBit(bytes[n / 8], n % 8), j) <==> n % 8 != j && Bit(bytes[n / 8], j)
    {
      SetMask(bytes[n / 8], n % 8, j);
      ClearMask(bytes[n / 8], n % 8, j);
    }
  }

  /** The nibble mask tests exactly the four pages of one level-1 block. */
  lemma QuadTest(bytes: seq<bv8>, i: nat, j: nat)
    requires i < |bytes| && j < 2
    ensures InNibble(bytes[i], j) <==> Quad(Unpacked(bytes), 2 * i + j)
  {
    hide Bit, InNibble, Unpacked;
    NibbleMask(bytes[i], j);
    UnpackedAt(bytes, 8 * i + 4 * j);
    UnpackedAt(bytes, 8 * i + 4 * j + 1);
    UnpackedAt(bytes, 8 * i + 4 * j + 2);
    UnpackedAt(bytes, 8 * i + 4 * j + 3);
  }

  /** The pair mask tests exactly the two blocks below one block of the next level. */
  lemma PairTest(bytes: seq<bv8>, i: nat, j: nat)
    requires i < |bytes| && j < 4
    ensures InPair(bytes[i], j) <==> Pair(Unpacked(bytes), 4 * i + j)
  {
    hide Bit, InPair, Unpacked;
    PairMask(bytes[i], j);
    UnpackedAt(bytes, 8 * i + 2 * j);
    UnpackedAt(bytes, 8 * i + 2 * j + 1);
  }

  class RangeHeader {
    const length: nat
    const available: array<int>
    const level0: array<bv8>
    const level1: array<bv8>
    const level2: array<bv8>
    const level3: array<bv8>

    ghost predicate Shaped() {
      && available.Length == 4
      && level0.Length == 2048 && level1.Length == 512 && level2.Length == 256 && level3.Length == 128
      && available as object !in {level0, level1, level2, level3}
      && level0 != level1 && level0 != level2 && level0 != level3
      && level1 != level2 && level1 != level3 && level2 != level3
    }

    /** The header these bytes stand for. */
    ghost function Abstract(): (h: Header)
      requires Shaped()
      reads available, level0, level1, level2, level3
      ensures Shape(h)
    {
      Header(available[..], [Unpacked(level0[..]), Unpacked(level1[..]), Unpacked(level2[..]), Unpacked(level3[..])])
    }

    ghost predicate Valid()
      reads available, level0, level1, level2, level3
    {
      Shaped() && Inv(Abstract(), length)
    }

    constructor (pages: nat)
      requires pages <= MAX_SIZE
      ensures length == pages && Valid() && Abstract() == Fresh(pages)
      ensures fresh(available) && fresh(level0) && fresh(level1) && fresh(level2) && fresh(level3)
    {
      length := pages;
      available := new int[4](k => if k == 0 then pages else if k == 1 then (pages + 3) / 4
                                   else if k == 2 then (pages + 7) / 8 else (pages + 15) / 16);
      level0 := new bv8[2048](_ => 0);
      level1 := new bv8[512](_ => 0);
      level2 := new bv8[256](_ => 0);
      level3 := new bv8[128](_ => 0);
      new;
      FreshInv(pages);
      ZeroBytes(level0[..]);
      ZeroBytes(level1[..]);
      ZeroBytes(level2[..]);
      ZeroBytes(level3[..]);
      assert Unpacked(level0[..]) == Fresh(pages).bits[0];
      assert Unpacked(level1[..]) == Fresh(pages).bits[1];
      assert Unpacked(level2[..]) == Fresh(pages).bits[2];
      assert Unpacked(level3[..]) == Fresh(pages).bits[3];
      assert available[..] == Fresh(pages).avail;
    }

    /** alloc_page_bitmaps: the counters first, then the four masks. No counter wraps. */
    method AllocPageBitmaps(page: nat)
      requires Valid() && page < length && !Abstract().bits[0][page]
      modifies available, level0, level1, level2, level3
      ensures Valid() && Abstract() == AllocPage(old(Abstract()), page)
      ensures forall k :: 0 <= k < 4 ==> 0 <= available[k] < WORD32 - 1
    {
      hide Inv, Unpacked;
      ghost var h := Abstract();
      AllocInv(h, length, page);
      AvailRange(h, length);
      AvailRange(AllocPage(h, page), length);
      AllocCounters(page);
      SetBit(level0, page);
      SetBit(level1, page / 4);
      SetBit(level2, page / 8);
      SetBit(level3, page / 16);
    }

    /** Sets bit n of one bitmap. */
    method SetBit(level: array<bv8>, n: nat)
      requires n / 8 < level.Length
      modifies level
      ensures Unpacked(level[..]) == old(Unpacked(level[..]))[n := true]
    {
      hide WithBit, Unpacked;
      UpdateByte(level[..], n);
      level[n / 8] := WithBit(level[n / 8], n % 8);
      assert level[..] == old(level[..])[n / 8 := WithBit(old(level[..])[n / 8], n % 8)];
    }

    method AllocCounters(page: nat)
      requires Shaped() && page < length <= MAX_SIZE
      requires forall k :: 0 <= k < 4 ==> 0 <= Abstract().avail[k] <= MAX_SIZE
      requires forall k :: 0 <= k < 4 ==> 0 <= AllocPage(Abstract(), page).avail[k]
      modifies available
      ensures available[..] == old(AllocPage(Abstract(), page).avail)
    {
      hide Unpacked, Dec;
      NoWrap();
      ghost var h, a := Abstract(), AllocPage(Abstract(), page).avail;
      assert a[0] >= 0 && a[1] >= 0 && a[2] >= 0 && a[3] >= 0;
      assert h.avail[0] >= 0 && h.avail[1] >= 0 && h.avail[2] >= 0 && h.avail[3] >= 0;
      available[0] := Dec(available[0]);
      CountBlock(level1, page / 4, 1);
      CountBlock(level2, page / 8, 2);
      CountBlock(level3, page / 16, 3);
    }

    /** One counter drops when block n of its level was entirely free. */
    method CountBlock(level: array<bv8>, n: nat, k: nat)
      requires k < 4 == available.Length && n / 8 < level.Length && level as object != available
      requires 0 <= available[k] <= MAX_SIZE && (!Unpacked(level[..])[n] ==> available[k] > 0)
      modifies available
      ensures available[..] == old(available[..])[k := old(available[k]) - if Unpacked(level[..])[n] then 0 else 1]
    {
      hide Bit, Unpacked, Dec;
      NoWrap();
      UnpackedAt(level[..], n);
      if !Bit(level[n / 8], n % 8) {
        available[k] := Dec(available[k]);
      }
    }

    /** Clears bit n of one bitmap and counts the block it stands for as free. */
    method Release(level: array<bv8>, n: nat, k: nat)
      requires k < 4 == available.Length && n / 8 < level.Length && level as object != available
      requires 0 <= available[k] <= MAX_SIZE
      modifies level, available
      ensures Unpacked(level[..]) == old(Unpacked(level[..]))[n := false]
      ensures available[..] == old(available[..])[k := old(available[k]) + 1]
    {
      hide WithoutBit, Unpacked, Inc;
      NoWrap();
      UpdateByte(level[..], n);
      level[n / 8] := WithoutBit(level[n / 8], n % 8);
      available[k] := Inc(available[k]);
      assert level[..] == old(level[..])[n / 8 := WithoutBit(old(level[..])[n / 8], n % 8)];
    }

    /** Releases level-1 block n once none of its four pages is used. */
    method ReleaseIfNoPage(n: nat)
      requires Shaped() && n < 4096 && 0 <= available[1] <= MAX_SIZE
      modifies level1, available
      ensures var used := Quad(Unpacked(level0[..]), n);
              && Unpacked(level1[..]) == (if used then old(Unpacked(level1[..])) else old(Unpacked(level1[..]))[n := false])
              && available[..] == if used then old(available[..]) else old(available[..])[1 := old(available[1]) + 1]
    {
      hide InNibble, Unpacked;
      QuadTest(level0[..], n / 2, n % 2);
      if !InNibble(level0[n / 2], n % 2) {
        Release(level1, n, 1);
      }
    }

    /** Releases block n of a level once neither of the two blocks below it is used. */
    method ReleaseIfNoBlock(lower: array<bv8>, upper: array<bv8>, n: nat, k: nat)
      requires k < 4 == available.Length && upper as object != available && lower != upper && lower as object != available
      requires n / 4 < lower.Length && n / 8 < upper.Length && 0 <= available[k] <= MAX_SIZE
      modifies upper, available
      ensures var used := Pair(Unpacked(lower[..]), n);
              && Unpacked(upper[..]) == (if used then old(Unpacked(upper[..])) else old(Unpacked(upper[..]))[n := false])
              && available[..] == if used then old(available[..]) else old(available[..])[k := old(available[k]) + 1]
    {
      hide InPair, Unpacked;
      PairTest(lower[..], n / 4, n % 4);
      if !InPair(lower[n / 4], n % 4) {
        Release(upper, n, k);
      }
    }

    /** free_page_bitmaps: each level is cleared only when its whole block became free. */
    method FreePageBitmaps(page: nat)
      requires Valid() && page < length && Abstract().bits[0][page]
      modifies available, level0, level1, level2, level3
      ensures Valid() && Abstract() == FreePage(old(Abstract()), page)
    {
      hide Inv, Unpacked;
      ghost var h := Abstract();
      FreeInv(h, length, page);
      AvailRange(h, length);
      Release(level0, page, 0);
      ReleaseIfNoPage(page / 4);
      ReleaseIfNoBlock(level1, level2, page / 8, 2);
      ReleaseIfNoBlock(level2, level3, page / 16, 3);
      assert available[..] == FreePage(h, page).avail;
    }
  }

  lemma ZeroBytes(bytes: seq<bv8>)
    requires forall i :: 0 <= i < |bytes| ==> bytes[i] == 0
    ensures forall i :: 0 <= i < 8 * |bytes| ==> !Unpacked(bytes)[i]
  {}

  lemma AvailRange(h: Header, length: nat)
    requires Inv(h, length)
    ensures forall k :: 0 <= k < 4 ==> 0 <= h.avail[k] <= MAX_SIZE
  {
    forall k: Level ensures 0 <= h.avail[k] <= MAX_SIZE {
      assert h.avail[k] == Clear(h.bits[k], Blocks(k, length));
    }
  }
}
