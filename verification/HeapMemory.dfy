/**
 Segment headers in raw memory: 16 little-endian bytes (next, size, free) at the start of
 each segment, and what writing one header does to every other byte and header.
 */
module HeapMemory {
  import opened Common
  import opened HeapSegments

  type byte = x: nat | x < 256

  /** The k low bytes of n, least significant first. */
  function Encode(n: nat, k: nat): (s: seq<byte>)
    ensures |s| == k
  {
    if k == 0 then [] else [n % 256] + Encode(n / 256, k - 1)
  }

  function Decode(s: seq<byte>): nat {
    if s == [] then 0 else s[0] + 256 * Decode(s[1..])
  }

  function Pow256(k: nat): nat {
    if k == 0 then 1 else 256 * Pow256(k - 1)
  }

  lemma {:induction false} EncodeRoundTrip(n: nat, k: nat)
    requires n < Pow256(k)
    ensures Decode(Encode(n, k)) == n
  {
    if k > 0 {
      EncodeRoundTrip(n / 256, k - 1);
      assert Encode(n, k)[1..] == Encode(n / 256, k - 1);
    }
  }

  lemma Widths()
    ensures Pow256(4) == WORD32 && Pow256(8) == WORD64
  {
    assert Pow256(2) == 0x1_0000;
    assert Pow256(4) == 0x1_0000_0000;
    assert Pow256(6) == 0x1_0000_0000_0000;
  }

  /** struct seg_header. */
  datatype Header = Header(next: nat, size: nat, free: nat)

  function ReadHeader(mem: seq<byte>, off: nat): Header
    requires off + HEADER <= |mem|
  {
    Header(Decode(mem[off..off + 8]), Decode(mem[off + 8..off + 12]), Decode(mem[off + 12..off + 16]))
  }

  /** Stores truncate to the field widths. */
  function WriteHeader(mem: seq<byte>, off: nat, h: Header): (mem': seq<byte>)
    requires off + HEADER <= |mem|
    ensures |mem'| == |mem|
  {
    mem[..off] + Encode(h.next, 8) + Encode(h.size, 4) + Encode(h.free, 4) + mem[off + HEADER..]
  }

  predicate HeaderOk(h: Header) {
    h.next < WORD64 && h.size < WORD32 && h.free < WORD32
  }

  lemma WriteRead(mem: seq<byte>, off: nat, h: Header)
    requires off + HEADER <= |mem| && HeaderOk(h)
    ensures ReadHeader(WriteHeader(mem, off, h), off) == h
  {
    hide Encode, Decode;
    var m := WriteHeader(mem, off, h);
    assert m[off..off + 8] == Encode(h.next, 8);
    assert m[off + 8..off + 12] == Encode(h.size, 4);
    assert m[off + 12..off + 16] == Encode(h.free, 4);
    Widths();
    EncodeRoundTrip(h.next, 8);
    EncodeRoundTrip(h.size, 4);
    EncodeRoundTrip(h.free, 4);
  }

  /** A header write changes the 16 bytes it covers and no other. */
  lemma WriteFrame(mem: seq<byte>, off: nat, h: Header)
    requires off + HEADER <= |mem|
    ensures forall a :: 0 <= a < off || off + HEADER <= a < |mem| ==> WriteHeader(mem, off, h)[a] == mem[a]
  {
    hide Encode;
  }

  /** Headers apart from the written bytes are unchanged. */
  lemma ReadElsewhere(mem: seq<byte>, off: nat, h: Header, at: nat)
    requires off + HEADER <= |mem| && at + HEADER <= |mem| && (at + HEADER <= off || off + HEADER <= at)
    ensures ReadHeader(WriteHeader(mem, off, h), at) == ReadHeader(mem, at)
  {
    hide Encode, Decode;
    WriteFrame(mem, off, h);
    var m := WriteHeader(mem, off, h);
    assert m[at..at + 8] == mem[at..at + 8];
    assert m[at + 8..at + 12] == mem[at + 8..at + 12];
    assert m[at + 12..at + 16] == mem[at + 12..at + 16];
  }

  /** The header that segment i of the list must have in memory. */
  function Expected(base: nat, segs: seq<Seg>, i: nat): Header
    requires i < |segs|
  {
    Header(if i + 1 < |segs| then base + segs[i + 1].off else 0, segs[i].size, if segs[i].free then 1 else 0)
  }

  ghost function Wanted(base: nat, segs: seq<Seg>): (want: seq<Header>)
    ensures |want| == |segs| && forall i: nat :: i < |segs| ==> want[i] == Expected(base, segs, i)
  {
    seq(|segs|, i requires 0 <= i < |segs| => Expected(base, segs, i))
  }

  /** Memory holds exactly the headers of the list, linked in order. */
  ghost predicate Linked(mem: seq<byte>, base: nat, segs: seq<Seg>) {
    Headers(mem, segs, Wanted(base, segs))
  }

  /** The address a next pointer or the list head holds for position i: NULL past the end. */
  function AddressOf(base: nat, segs: seq<Seg>, i: nat): nat {
    if i < |segs| then base + segs[i].off else 0
  }

  /** The payload bytes of the blocks in s are the same in both memories. */
  ghost predicate BytesKept(mem: seq<byte>, mem': seq<byte>, s: set<Seg>) {
    && |mem| <= |mem'|
    && forall b, a :: b in s && b.Payload() <= a < b.End() && a < |mem| ==> mem'[a] == mem[a]
  }

  lemma BytesKeptTrans(m1: seq<byte>, m2: seq<byte>, m3: seq<byte>, s: set<Seg>)
    requires BytesKept(m1, m2, s) && BytesKept(m2, m3, s)
    ensures BytesKept(m1, m3, s)
  {}

  /** A header write outside every live payload keeps all live bytes. */
  lemma WriteKeepsBytes(mem: seq<byte>, off: nat, h: Header, s: set<Seg>)
    requires off + HEADER <= |mem|
    requires forall b :: b in s ==> b.End() <= off || off + HEADER <= b.Payload()
    ensures BytesKept(mem, WriteHeader(mem, off, h), s)
  {
    WriteFrame(mem, off, h);
  }

  /** Writing at the header of segment i is outside every live payload. */
  lemma HeaderClear(segs: seq<Seg>, n: nat, i: nat)
    requires Tiles(segs, n) && i < |segs|
    ensures forall b :: b in Live(segs) ==> b.End() <= segs[i].off || segs[i].off + HEADER <= b.Payload()
    ensures segs[i].off + HEADER <= segs[i].End() <= n
  {
    TilesBound(segs, n, i);
    forall b | b in Live(segs) ensures b.End() <= segs[i].off || segs[i].off + HEADER <= b.Payload() {
      var j: nat :| j < |segs| && segs[j] == b;
      if j < i {
        TilesOrder(segs, n, j, i);
      } else if i < j {
        TilesOrder(segs, n, i, j);
      }
    }
  }

  /** Memory holds header want[j] at segment j of the list, for every j. */
  ghost predicate Headers(mem: seq<byte>, segs: seq<Seg>, want: seq<Header>) {
    && |want| == |segs|
    && forall j: nat :: j < |segs| ==> segs[j].off + HEADER <= |mem| && ReadHeader(mem, segs[j].off) == want[j]
  }

  /** The headers memory happens to hold at the segments of a list. */
  ghost function Found(mem: seq<byte>, segs: seq<Seg>): (want: seq<Header>)
    requires Tiles(segs, |mem|)
    ensures Headers(mem, segs, want)
  {
    assert forall j: nat :: j < |segs| ==> segs[j].off + HEADER <= |mem| by {
      forall j: nat | j < |segs| ensures segs[j].off + HEADER <= |mem| { TilesBound(segs, |mem|, j); }
    }
    seq(|segs|, j requires 0 <= j < |segs| => ReadHeader(mem, segs[j].off))
  }

  /** Writing the header of segment k changes that header only, and no live byte. */
  lemma WriteOne(mem: seq<byte>, segs: seq<Seg>, want: seq<Header>, k: nat, h: Header)
    requires Tiles(segs, |mem|) && Headers(mem, segs, want) && k < |segs| && HeaderOk(h)
    ensures segs[k].off + HEADER <= |mem|
    ensures Headers(WriteHeader(mem, segs[k].off, h), segs, want[k := h])
    ensures BytesKept(mem, WriteHeader(mem, segs[k].off, h), Live(segs))
  {
    HeaderClear(segs, |mem|, k);
    WriteKeepsBytes(mem, segs[k].off, h, Live(segs));
    WriteRead(mem, segs[k].off, h);
    forall j: nat | j < |segs| && j != k
      ensures ReadHeader(WriteHeader(mem, segs[k].off, h), segs[j].off) == ReadHeader(mem, segs[j].off)
    {
      if j < k {
        TilesOrder(segs, |mem|, j, k);
      } else {
        TilesOrder(segs, |mem|, k, j);
      }
      ReadElsewhere(mem, segs[k].off, h, segs[j].off);
    }
  }
}
