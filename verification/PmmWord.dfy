/**
 The 64-bit words through which physalloc scans a bitmap. One load takes 64 bits of the byte
 bitmap; complementing it, testing it for zero and clearing one of its bits are what the scan
 of module Pmm does to a sequence of bits.
 */
module PmmWord {
  import opened PmmBytes
  import Pmm

  function Low(w: bv64): bv8 { (w & 0xff) as bv8 }

  /** Byte j of a word, counted from the low end. */
  function Byte(w: bv64, j: nat): bv8
    requires j < 8
  {
    if j == 0 then Low(w) else if j == 1 then Low(w >> 8) else if j == 2 then Low(w >> 16) else if j == 3 then Low(w >> 24)
    else if j == 4 then Low(w >> 32) else if j == 5 then Low(w >> 40) else if j == 6 then Low(w >> 48) else Low(w >> 56)
  }

  ghost function Bytes(w: bv64): (b: seq<bv8>)
    ensures |b| == 8 && forall j :: 0 <= j < 8 ==> b[j] == Byte(w, j)
  {
    seq(8, j requires 0 <= j < 8 => Byte(w, j))
  }

  /** The bits of a word, lowest first. */
  ghost function WordBits(w: bv64): (s: seq<bool>)
    ensures |s| == 64
  {
    Unpacked(Bytes(w))
  }

  // ---- loading ----------------------------------------------------------------------------

  /** A little-endian load of eight bytes. */
  function Join(b: seq<bv8>): bv64
    requires |b| == 8
  {
    (b[0] as bv64) | (b[1] as bv64 << 8) | (b[2] as bv64 << 16) | (b[3] as bv64 << 24) |
    (b[4] as bv64 << 32) | (b[5] as bv64 << 40) | (b[6] as bv64 << 48) | (b[7] as bv64 << 56)
  }

  lemma LowJoin(b: seq<bv8>)
    requires |b| == 8
    ensures Low(Join(b)) == b[0] && Low(Join(b) >> 8) == b[1]
    ensures Low(Join(b) >> 16) == b[2] && Low(Join(b) >> 24) == b[3]
    ensures Low(Join(b) >> 32) == b[4] && Low(Join(b) >> 40) == b[5]
    ensures Low(Join(b) >> 48) == b[6] && Low(Join(b) >> 56) == b[7]
  {}

  lemma JoinBytes(b: seq<bv8>)
    requires |b| == 8
    ensures Bytes(Join(b)) == b
  {
    hide Low, Join;
    LowJoin(b);
  }

  lemma UnpackedSlice(bytes: seq<bv8>, at: nat, i: nat)
    requires at + 8 <= |bytes| && i < 64
    ensures Unpacked(bytes[at..at + 8])[i] == Unpacked(bytes)[8 * at + i]
  {
    hide Bit, Unpacked;
    UnpackedAt(bytes[at..at + 8], i);
    UnpackedAt(bytes, 8 * at + i);
    assert (8 * at + i) / 8 == at + i / 8 && (8 * at + i) % 8 == i % 8;
  }

  /** A word loaded from a byte bitmap is 64 bits of that bitmap. */
  lemma LoadIsSlice(bytes: seq<bv8>, at: nat)
    requires at + 8 <= |bytes|
    ensures WordBits(Join(bytes[at..at + 8])) == Unpacked(bytes)[8 * at..8 * at + 64]
  {
    hide Join, Bit, Unpacked, Bytes;
    JoinBytes(bytes[at..at + 8]);
    var word, slice := WordBits(Join(bytes[at..at + 8])), Unpacked(bytes)[8 * at..8 * at + 64];
    forall i: nat | i < 64 ensures word[i] == slice[i] {
      UnpackedSlice(bytes, at, i);
    }
    assert word == slice;
  }

  // ---- complementing and testing ----------------------------------------------------------

  lemma LowNot(w: bv64)
    ensures Low(!w) == !Low(w) && Low(!w >> 8) == !Low(w >> 8)
    ensures Low(!w >> 16) == !Low(w >> 16) && Low(!w >> 24) == !Low(w >> 24)
    ensures Low(!w >> 32) == !Low(w >> 32) && Low(!w >> 40) == !Low(w >> 40)
    ensures Low(!w >> 48) == !Low(w >> 48) && Low(!w >> 56) == !Low(w >> 56)
  {}

  lemma NotByte(w: bv64, j: nat)
    requires j < 8
    ensures Byte(!w, j) == !Byte(w, j)
  {
    hide Low;
    LowNot(w);
  }

  lemma NotBit(b: bv8, k: nat)
    requires k < 8
    ensures Bit(!b, k) == !Bit(b, k)
  {
    if k < 4 {
      if k == 0 {} else if k == 1 {} else if k == 2 {} else {}
    } else {
      if k == 4 {} else if k == 5 {} else if k == 6 {} else {}
    }
  }

  /** The complement has exactly the other bits. */
  lemma NotBits(w: bv64)
    ensures forall i :: 0 <= i < 64 ==> WordBits(!w)[i] == !WordBits(w)[i]
  {
    hide Bytes, Byte, Bit, Unpacked;
    forall i: nat | i < 64 ensures WordBits(!w)[i] == !WordBits(w)[i] {
      UnpackedAt(Bytes(w), i);
      UnpackedAt(Bytes(!w), i);
      NotByte(w, i / 8);
      NotBit(Byte(w, i / 8), i % 8);
    }
  }

  lemma ZeroByte(b: bv8)
    ensures b == 0 <==> forall k :: 0 <= k < 8 ==> !Bit(b, k)
  {
    assert b == 0 || Bit(b, 0) || Bit(b, 1) || Bit(b, 2) || Bit(b, 3) || Bit(b, 4) || Bit(b, 5) || Bit(b, 6) || Bit(b, 7);
  }

  lemma LowZero(w: bv64)
    ensures w == 0 <==>
      && Low(w) == 0 && Low(w >> 8) == 0 && Low(w >> 16) == 0 && Low(w >> 24) == 0
      && Low(w >> 32) == 0 && Low(w >> 40) == 0 && Low(w >> 48) == 0 && Low(w >> 56) == 0
  {}

  lemma ZeroBytes8(w: bv64)
    ensures w == 0 <==> forall j :: 0 <= j < 8 ==> Bytes(w)[j] == 0
  {
    hide Low;
    LowZero(w);
    var b := Bytes(w);
    assert b[0] == Low(w) && b[1] == Low(w >> 8) && b[2] == Low(w >> 16) && b[3] == Low(w >> 24);
    assert b[4] == Low(w >> 32) && b[5] == Low(w >> 40) && b[6] == Low(w >> 48) && b[7] == Low(w >> 56);
  }

  /** A word is zero iff none of its bits is set. */
  lemma ZeroIff(w: bv64)
    ensures w == 0 <==> forall i :: 0 <= i < 64 ==> !WordBits(w)[i]
  {
    ZeroBytes8(w);
    hide Bytes, Bit;
    var b := Bytes(w);
    forall j | 0 <= j < 8 ensures b[j] == 0 <==> forall k :: 0 <= k < 8 ==> !Bit(b[j], k) {
      ZeroByte(b[j]);
    }
    if forall i :: 0 <= i < 64 ==> !WordBits(w)[i] {
      forall j, k | 0 <= j < 8 && 0 <= k < 8 ensures !Bit(b[j], k) {
        assert !WordBits(w)[8 * j + k];
      }
    }
  }

  // ---- clearing one bit -------------------------------------------------------------------

  function Clear(b: bv8, m: bv8): bv8 { b & !m }

  predicate Masked(w: bv64, x: bv64, y: bv64) { y == w & !x }

  lemma LowAndNot(w: bv64, x: bv64, y: bv64)
    requires Masked(w, x, y)
    ensures Low(y) == Clear(Low(w), Low(x)) && Low(y >> 8) == Clear(Low(w >> 8), Low(x >> 8))
    ensures Low(y >> 16) == Clear(Low(w >> 16), Low(x >> 16)) && Low(y >> 24) == Clear(Low(w >> 24), Low(x >> 24))
    ensures Low(y >> 32) == Clear(Low(w >> 32), Low(x >> 32)) && Low(y >> 40) == Clear(Low(w >> 40), Low(x >> 40))
    ensures Low(y >> 48) == Clear(Low(w >> 48), Low(x >> 48)) && Low(y >> 56) == Clear(Low(w >> 56), Low(x >> 56))
  {}

  lemma AndNotByte(w: bv64, x: bv64, y: bv64, j: nat)
    requires j < 8 && Masked(w, x, y)
    ensures Byte(y, j) == Clear(Byte(w, j), Byte(x, j))
  {
    hide Low, Clear, Masked;
    LowAndNot(w, x, y);
  }

  /** The mask of bit i, 1 << i: bit i % 8 of byte i / 8. */
  function Mask(i: nat): bv64
    requires i < 64
  {
    Join(Alone(WithBit(0, i % 8), i / 8))
  }

  function Alone(m: bv8, j: nat): (b: seq<bv8>)
    requires j < 8
    ensures |b| == 8
  {
    [0, 0, 0, 0, 0, 0, 0, 0][j := m]
  }

  lemma ClearByte(b: bv8, k: nat)
    requires k < 8
    ensures Clear(b, WithBit(0, k)) == WithoutBit(b, k) && Clear(b, 0) == b
  {}

  lemma ClearBytes(w: bv64, i: nat, y: bv64)
    requires i < 64 && Masked(w, Mask(i), y)
    ensures Bytes(y) == Bytes(w)[i / 8 := WithoutBit(Bytes(w)[i / 8], i % 8)]
  {
    hide Byte, Join, WithBit, WithoutBit, Clear, Masked;
    var b := Alone(WithBit(0, i % 8), i / 8);
    JoinBytes(b);
    var x := Mask(i);
    forall j: nat | j < 8 ensures Bytes(y)[j] == Clear(Bytes(w)[j], b[j]) {
      AndNotByte(w, x, y, j);
      assert Bytes(x)[j] == b[j];
    }
    ClearOne(Bytes(w), b, Bytes(y), i / 8, i % 8);
  }

  lemma ClearOne(was: seq<bv8>, b: seq<bv8>, now: seq<bv8>, j: nat, k: nat)
    requires j < 8 && k < 8 && |was| == |now| == 8 && b == Alone(WithBit(0, k), j)
    requires forall i :: 0 <= i < 8 ==> now[i] == Clear(was[i], b[i])
    ensures now == was[j := WithoutBit(was[j], k)]
  {
    hide Clear, WithBit, WithoutBit;
    ClearByte(was[j], k);
    forall i: nat | i < 8 && i != j ensures now[i] == was[i] {
      assert b[i] == 0;
      ClearByte(was[i], 0);
    }
  }

  /** Masking out bit i clears exactly that bit. */
  lemma ClearBit(w: bv64, i: nat)
    requires i < 64
    ensures WordBits(w & !Mask(i)) == WordBits(w)[i := false]
  {
    hide Bytes, WithBit, WithoutBit, Unpacked, Mask;
    ClearBytes(w, i, w & !Mask(i));
    UpdateByte(Bytes(w), i);
  }

  // ---- what the scan sees -----------------------------------------------------------------

  /** One turn's view of a bitmap: the blocks of 64 that are free, straight from the bytes. */
  method FreeBlocks(level: array<bv8>, block: nat) returns (free: bv64)
    requires block % 64 == 0 && block + 64 <= 8 * level.Length
    ensures forall i :: 0 <= i < 64 ==> WordBits(free)[i] == !Unpacked(level[..])[block + i]
    ensures free == 0 <==> forall b :: block <= b < block + 64 ==> Unpacked(level[..])[b]
  {
    hide Unpacked, Join, WordBits;
    var at := block / 8;
    var word := Join(level[at..at + 8]);
    assert level[..][at..at + 8] == level[at..at + 8];
    free := !word;
    LoadedFree(level[..], block, word, free);
  }

  lemma LoadedFree(bytes: seq<bv8>, block: nat, word: bv64, free: bv64)
    requires block % 64 == 0 && block + 64 <= 8 * |bytes|
    requires word == Join(bytes[block / 8..block / 8 + 8]) && free == !word
    ensures forall i :: 0 <= i < 64 ==> WordBits(free)[i] == !Unpacked(bytes)[block + i]
    ensures free == 0 <==> forall b :: block <= b < block + 64 ==> Unpacked(bytes)[b]
  {
    hide Unpacked, Join, WordBits;
    LoadIsSlice(bytes, block / 8);
    NotBits(word);
    ZeroIff(free);
    Complemented(WordBits(word), WordBits(free), Unpacked(bytes), block);
  }

  lemma Complemented(word: seq<bool>, free: seq<bool>, bits: seq<bool>, block: nat)
    requires |word| == |free| == 64 && block + 64 <= |bits| && word == bits[block..block + 64]
    requires forall i :: 0 <= i < 64 ==> free[i] == !word[i]
    ensures forall i :: 0 <= i < 64 ==> free[i] == !bits[block + i]
    ensures (forall i :: 0 <= i < 64 ==> !free[i]) <==> forall b :: block <= b < block + 64 ==> bits[b]
  {
    forall i | 0 <= i < 64 ensures free[i] == !bits[block + i] {
      assert word[i] == bits[block + i];
    }
    if forall i :: 0 <= i < 64 ==> !free[i] {
      forall b | block <= b < block + 64 ensures bits[b] {
        assert !free[b - block] && bits[block + (b - block)];
      }
    }
  }

  lemma BitAt(w: bv64, i: nat)
    requires i < 64
    ensures WordBits(w)[i] == Bit(Byte(w, i / 8), i % 8)
  {
    hide Unpacked, Bit, Byte;
    UnpackedAt(Bytes(w), i);
  }

  /** __builtin_ffsll. */
  method FindFirst(w: bv64) returns (r: nat)
    ensures r == Pmm.FindFirstSet(WordBits(w)) && (r == 0 <==> w == 0)
  {
    hide Bit, Byte, WordBits;
    ZeroIff(w);
    var i: nat := 0;
    while i < 64
      invariant i <= 64 && forall k :: 0 <= k < i ==> !WordBits(w)[k]
    {
      BitAt(w, i);
      if Bit(Byte(w, i / 8), i % 8) {
        return i + 1;
      }
      i := i + 1;
    }
    return 0;
  }
}
