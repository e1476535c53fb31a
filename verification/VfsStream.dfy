/**
 Byte streams over a file system that reads and writes whole sectors of `g` bytes.

 One open handle keeps a cursor and one buffered sector. The file system behind it is an
 array of bytes made of whole sectors, of which the first `size` belong to the file.
 */
module VfsStream {
  import opened Common
  import opened Division

  type Byte = nat

  datatype Result = Failed | Done(bytes: seq<Byte>)
  datatype Whence = Set | Current | End | Other
  datatype Flags = Flags(read: bool, write: bool, append: bool, seekable: bool)

  function CeilDiv(a: nat, g: nat): nat
    requires g > 0
  {
    (a + g - 1) / g
  }

  lemma NextSector(sector: nat, g: nat)
    ensures Base(sector + 1, g) == Base(sector, g) + g
  {}

  lemma CeilDivIs(must: nat, g: nat, q: nat, r: nat)
    requires g > 0 && must == Base(q, g) + r && r < g
    ensures CeilDiv(must, g) == if r == 0 then q else q + 1
  {
    if r == 0 {
      Unique(must + g - 1, g, q, g - 1);
    } else {
      NextSector(q, g);
      Unique(must + g - 1, g, q + 1, r - 1);
    }
  }

  /** Whole sectors that cover `must` bytes, and where the last one is left. */
  lemma Cover(must: nat, g: nat)
    requires g > 0 && must > 0
    ensures CeilDiv(must, g) > 0
    ensures
      var blocks, end := CeilDiv(must, g), Rem(must, g);
      && (end == 0 ==> Base(blocks, g) == must)
      && (end != 0 ==> Base(blocks - 1, g) + end == must)
      && Base(blocks, g) == Base(blocks - 1, g) + g
  {
    var q, r := Quot(must, g), Rem(must, g);
    QuotRem(must, g);
    CeilDivIs(must, g, q, r);
    NextSector(CeilDiv(must, g) - 1, g);
  }

  lemma BaseAdd(a: nat, b: nat, g: nat)
    ensures Base(a + b, g) == Base(a, g) + Base(b, g)
  {}

  /** A sector that begins inside an array of whole sectors is whole. */
  lemma SectorInside(sector: nat, g: nat, sectors: nat)
    requires Base(sector, g) < Base(sectors, g)
    ensures Base(sector, g) + g <= Base(sectors, g)
  {
    var d := sectors - sector;
    assert g * d == sectors * g - sector * g;
    Grow(g, d);
  }

  lemma CursorAt(off: nat, sector: nat, rest: nat, g: nat)
    requires g > 0 && off == Base(sector, g) + rest && rest < g
    ensures Quot(off, g) == sector && Rem(off, g) == rest
  {
    Unique(off, g, sector, rest);
  }

  /** The sectors that cover [offset, offset + want), and the cursor behind it. */
  lemma Plan(sectorCount: nat, sectorOffset: nat, want: nat, g: nat)
    requires g > 0 && sectorOffset < g && want > 0
    ensures
      var must := sectorOffset + want;
      var blocks, end, at := CeilDiv(must, g), Rem(must, g), Base(sectorCount, g) + must;
      && blocks > 0 && must <= Base(blocks, g)
      && Base(sectorCount + blocks, g) == Base(sectorCount, g) + Base(blocks, g)
      && Base(sectorCount + blocks - 1, g) == Base(sectorCount, g) + Base(blocks, g) - g < at
      && Rem(at, g) == end
      && Quot(at, g) == (if end == 0 then sectorCount + blocks else sectorCount + blocks - 1)
      && (end == 0 ==> must == Base(blocks, g))
      && (end != 0 ==> must == Base(blocks, g) - g + end)
      && (blocks == 1 <==> must <= g)
      && (if blocks == 1 then Base(blocks, g) == g else Base(blocks, g) >= 2 * g)
  {
    var must := sectorOffset + want;
    var blocks, end := CeilDiv(must, g), Rem(must, g);
    Cover(must, g);
    BaseAdd(sectorCount, blocks, g);
    BaseAdd(sectorCount, blocks - 1, g);
    CursorAt(Base(sectorCount, g) + must, if end == 0 then sectorCount + blocks else sectorCount + blocks - 1, end, g);
    Grow(g, blocks - 1);
    assert Base(blocks - 1, g) == g * (blocks - 1);
  }

  lemma Slices(s: seq<Byte>, a: nat, b: nat, c: nat, d: nat)
    requires a <= b <= |s| && c <= d <= b - a
    ensures s[a..b][c..d] == s[a + c..a + d]
    ensures s[a..b][c..] == s[a + c..b]
  {
    assert forall k :: 0 <= k < d - c ==> s[a..b][c..d][k] == s[a + c + k];
  }

  /** The buffer is the sector at `base`, at least from byte `from` on. */
  ghost predicate Holds(buffer: seq<Byte>, data: seq<Byte>, base: nat, from: nat, g: nat) {
    |buffer| == g && from <= g && base + g <= |data| && buffer[from..] == data[base + from..base + g]
  }

  lemma HoldsLater(buffer: seq<Byte>, data: seq<Byte>, base: nat, from: nat, later: nat, g: nat)
    requires Holds(buffer, data, base, from, g) && from <= later <= g
    ensures Holds(buffer, data, base, later, g)
  {
    assert buffer[later..] == buffer[from..][later - from..];
  }

  lemma LastRead(data: seq<Byte>, base: nat, length: nat, g: nat)
    requires g <= length && base + length <= |data|
    ensures Holds(data[base..base + length][length - g..], data, base + length - g, 0, g)
  {
    Slices(data, base, base + length, length - g, length);
    assert data[base + length - g..base + length][0..] == data[base + length - g..base + length];
  }

  /** After a write the buffer can be trusted: it was right before, or it is read again. */
  predicate Renewed(ok: bool, sectorOffset: nat, blocks: nat, end: nat) {
    ok || (blocks > 1 && (sectorOffset != 0 || end != 0))
  }

  class Stream {
    const g: nat
    const cacheable: bool
    const canRead: bool
    const canWrite: bool
    const append: bool
    const seekable: bool

    // the file
    var data: seq<Byte>
    var size: nat
    ghost var sectors: nat

    // the handle
    var offset: nat
    var sectorOffset: nat
    var sectorCount: nat
    var bufferValid: bool
    var buffer: seq<Byte>

    ghost predicate Stored()
      reads this
    {
      g > 0 && |data| == Base(sectors, g) && size <= |data|
    }

    /** sector_count = offset / g and sector_offset = offset mod g. */
    ghost predicate CursorOk()
      reads this
    {
      g > 0 && sectorOffset < g && offset == Base(sectorCount, g) + sectorOffset
    }

    /** The handle invariant of every run; it says nothing of what the buffer holds. */
    ghost predicate Valid()
      reads this
    {
      Stored() && CursorOk() && |buffer| == g
    }

    /** The buffered sector is used instead of the file system's. */
    predicate UsesBuffer()
      reads this
    {
      bufferValid && cacheable
    }

    /** A used buffer holds the current sector from the cursor on. */
    ghost predicate BufferOk()
      reads this
    {
      UsesBuffer() ==>
        0 < sectorOffset < g && Base(sectorCount, g) < size && Holds(buffer, data, Base(sectorCount, g), sectorOffset, g)
    }

    /** A used buffer holds the whole of the current sector, and the cursor is inside the file. */
    ghost predicate Whole()
      reads this
    {
      BufferOk() && (UsesBuffer() ==> offset <= size && Holds(buffer, data, Base(sectorCount, g), 0, g))
    }

    ghost function Before(): View
      reads this
    {
      View(data, size, Base(sectorCount, g), sectorOffset, UsesBuffer(), buffer)
    }

    constructor (g: nat, cacheable: bool, flags: Flags, data: seq<Byte>, size: nat, ghost sectors: nat)
      requires g > 0 && |data| == Base(sectors, g) && size <= |data|
      ensures Valid() && Whole() && offset == 0 && !bufferValid
      ensures this.g == g && this.data == data && this.size == size && this.cacheable == cacheable
      ensures canRead == flags.read && canWrite == flags.write && append == flags.append && seekable == flags.seekable
    {
      this.g, this.cacheable, this.data, this.size, this.sectors := g, cacheable, data, size, sectors;
      canRead, canWrite, append, seekable := flags.read, flags.write, flags.append, flags.seekable;
      offset, sectorOffset, sectorCount, bufferValid := 0, 0, 0, false;
      buffer := seq(g, _ => 0);
    }

    /** set_stream_offset */
    method SetOffset(absolute: nat)
      requires Stored() && |buffer| == g
      modifies this`offset, this`sectorOffset, this`sectorCount, this`bufferValid
      ensures Valid() && Whole() && offset == absolute && !bufferValid
    {
      offset := absolute;
      QuotRem(absolute, g);
      sectorOffset := Rem(absolute, g);
      sectorCount := Quot(absolute, g);
      bufferValid := false;
    }

    /** The new offset, or nothing when the handle cannot seek or `whence` is unknown. */
    method Seek(amount: nat, whence: Whence) returns (r: int)
      requires Valid() && amount < WORD64
      modifies this`offset, this`sectorOffset, this`sectorCount, this`bufferValid
      ensures Valid() && (old(BufferOk()) ==> BufferOk()) && (old(Whole()) ==> Whole())
      ensures !seekable || whence == Other ==> r == -1 && unchanged(this)
      ensures seekable && whence != Other ==> r == offset && Whole()
      ensures seekable && whence == Set ==> offset == amount
      ensures seekable && whence == Current ==> offset == (amount + old(offset)) % WORD64
      ensures seekable && whence == End ==> offset == (amount + size) % WORD64
    {
      if !seekable {
        return -1;
      }
      var absolute := amount;
      match whence {
        case Current => absolute := (absolute + offset) % WORD64;
        case End => absolute := (absolute + size) % WORD64;
        case Set =>
        case Other => return -1;
      }
      SetOffset(absolute);
      return absolute;
    }

    /** What is left of the buffered sector, whatever that holds. */
    method FromBuffer(want: nat) returns (out: seq<Byte>)
      requires Valid() && UsesBuffer() && 0 < want && offset + want <= size
      modifies this`offset, this`sectorOffset, this`sectorCount, this`bufferValid
      ensures Valid() && out == buffer[old(sectorOffset)..old(sectorOffset) + Min(g - old(sectorOffset), want)]
      ensures offset == old(offset) + |out| && (old(BufferOk()) ==> BufferOk()) && (old(Whole()) ==> Whole())
      ensures |out| < want ==> !bufferValid && sectorOffset == 0
      ensures if g <= old(sectorOffset) + want then !bufferValid && Whole() else bufferValid
    {
      hide Base, Holds;
      var unaligned := Min(g - sectorOffset, want);
      out := buffer[sectorOffset..sectorOffset + unaligned];
      sectorOffset := sectorOffset + unaligned;
      offset := offset + unaligned;
      if sectorOffset == g {
        sectorOffset := 0;
        bufferValid := false;
        NextSector(sectorCount, g);
        sectorCount := sectorCount + 1;
      } else if Holds(buffer, data, Base(sectorCount, g), old(sectorOffset), g) {
        HoldsLater(buffer, data, Base(sectorCount, g), old(sectorOffset), sectorOffset, g);
      }
    }

    /** Reads whole sectors, and buffers the last one when it is not used up. */
    method ReadSectors(want: nat, blocks: nat, end: nat) returns (out: seq<Byte>)
      requires |buffer| == g && Base(sectorCount, g) + Base(blocks, g) <= |data| && g <= Base(blocks, g)
      requires offset == Base(sectorCount, g) + sectorOffset && sectorOffset + want <= Base(blocks, g)
      requires sectorOffset == 0 && end == 0 ==> want == Base(blocks, g)
      modifies this`bufferValid, this`buffer
      ensures out == data[offset..offset + want]
      ensures cacheable && end != 0 ==> bufferValid && Holds(buffer, data, Base(sectorCount, g) + Base(blocks, g) - g, 0, g)
      ensures !(cacheable && end != 0) ==> bufferValid == old(bufferValid) && buffer == old(buffer)
    {
      hide Base, Holds;
      var base, length := Base(sectorCount, g), Base(blocks, g);
      var sectorsRead := data[base..base + length];
      if sectorOffset == 0 && end == 0 {
        out := sectorsRead;
      } else {
        if cacheable && end != 0 {
          LastRead(data, base, length, g);
          buffer := sectorsRead[length - g..];
          bufferValid := true;
        }
        Slices(data, base, base + length, sectorOffset, sectorOffset + want);
        out := sectorsRead[sectorOffset..sectorOffset + want];
      }
    }

    method FromSectors(want: nat) returns (out: seq<Byte>)
      requires Valid() && !UsesBuffer() && 0 < want && offset + want <= size
      modifies this`offset, this`sectorOffset, this`sectorCount, this`bufferValid, this`buffer
      ensures Valid() && Whole() && offset == old(offset) + want && out == data[old(offset)..offset]
      ensures cacheable && sectorOffset != 0 ==> bufferValid && Holds(buffer, data, Base(sectorCount, g), 0, g)
    {
      hide Base, CeilDiv, Rem, Quot, Holds;
      var must := sectorOffset + want;
      var blocks, end := CeilDiv(must, g), Rem(must, g);
      Plan(sectorCount, sectorOffset, want, g);
      SectorInside(sectorCount + blocks - 1, g, sectors);
      out := ReadSectors(want, blocks, end);
      if cacheable && end != 0 {
        HoldsLater(buffer, data, Base(sectorCount, g) + Base(blocks, g) - g, 0, end, g);
      }
      sectorOffset := end;
      offset := offset + want;
      sectorCount := Quot(offset, g);
    }

    /**
     vfs_read_file: as many bytes from the cursor on as asked and as there are. They are the
     file's exactly when the buffer is unused or agrees with the file on the bytes it gives.
     */
    method Read(count: nat) returns (r: Result)
      requires Valid() && count + g < WORD32
      modifies this`offset, this`sectorOffset, this`sectorCount, this`bufferValid, this`buffer
      ensures Valid() && (old(BufferOk()) ==> BufferOk()) && (old(Whole()) ==> Whole())
      ensures !canRead ==> r == Failed && unchanged(this)
      ensures canRead && size <= old(offset) ==> r == Done([]) && unchanged(this)
      ensures canRead && old(offset) < size ==>
        var want := Min(count, size - old(offset));
        && offset == old(offset) + want && r == Done(ReadResult(old(Before()), want))
        && (r.bytes == data[old(offset)..offset] <==> ReadFresh(old(Before()), want))
      ensures canRead && old(BufferOk()) && old(offset) < size ==> r == Done(data[old(offset)..offset])
      ensures old(offset) < offset ==> if !old(UsesBuffer()) || g <= old(sectorOffset) + (offset - old(offset)) then Whole()
                                       else UsesBuffer() && buffer == old(buffer)
      ensures canRead && old(offset) < offset && cacheable && sectorOffset != 0 && !old(bufferValid) ==>
        bufferValid && Holds(buffer, data, Base(sectorCount, g), 0, g)
    {
      hide Base, Holds, ReadResult, ReadFresh, BufferOk, Whole;
      if !canRead {
        return Failed;
      }
      if size <= offset {
        return Done([]);
      }
      var want := Min(count, size - offset);
      ReadRightIff(Before(), want);
      if BufferOk() {
        RightFromHere(want);
      }
      if want == 0 {
        NothingRead(Before());
        return Done([]);
      }
      var bytes := Take(want);
      return Done(bytes);
    }

    lemma RightFromHere(want: nat)
      requires Valid() && BufferOk() && offset + want <= size
      ensures sectorOffset <= |buffer| && ReadFresh(Before(), want)
    {
      BufferFresh(Before(), want);
    }

    /** First what the buffer gives, then whole sectors. */
    method Take(want: nat) returns (bytes: seq<Byte>)
      requires Valid() && 0 < want && offset + want <= size
      modifies this`offset, this`sectorOffset, this`sectorCount, this`bufferValid, this`buffer
      ensures Valid() && (old(BufferOk()) ==> BufferOk()) && (old(Whole()) ==> Whole()) && offset == old(offset) + want
      ensures bytes == ReadResult(old(Before()), want)
      ensures !old(UsesBuffer()) || g <= old(sectorOffset) + want ==> Whole()
      ensures old(UsesBuffer()) && old(sectorOffset) + want < g ==> UsesBuffer() && buffer == old(buffer)
      ensures cacheable && sectorOffset != 0 && !old(bufferValid) ==> bufferValid && Holds(buffer, data, Base(sectorCount, g), 0, g)
    {
      hide Base, Holds, ReadResult;
      ghost var v := Before();
      bytes := [];
      if UsesBuffer() {
        bytes := FromBuffer(want);
        if |bytes| == want {
          ReadParts(v, want, bytes, []);
          return;
        }
      }
      var tail := FromSectors(want - |bytes|);
      ReadParts(v, want, bytes, tail);
      bytes := bytes + tail;
    }

    // ---- writing --------------------------------------------------------------------------

    /** The file system stores whole sectors, growing the array with whatever it holds. */
    method PutSectors(bytes: seq<Byte>, blocks: nat, fill: nat -> Byte)
      requires Stored() && |bytes| == Base(blocks, g)
      modifies this`data, this`sectors
      ensures Stored() && Spliced(old(data), data, Base(sectorCount, g), bytes)
    {
      ghost var needed := sectorCount + blocks;
      var base := Base(sectorCount, g);
      BaseAdd(sectorCount, blocks, g);
      hide Base;
      data := Put(data, base, bytes, fill);
      sectors := if base + |bytes| <= |old(data)| then sectors else needed;
    }

    /** The current sector around the written part, from the buffer when it is valid. */
    method FirstSector(count: nat, junk: seq<Byte>) returns (first: seq<Byte>)
      requires Valid() && |junk| == g && Base(sectorCount, g) + g <= |data|
      ensures |first| == g
      ensures forall i :: 0 <= i < g && (i < sectorOffset || sectorOffset + count <= i) ==>
        first[i] == if UsesBuffer() then buffer[i] else data[Base(sectorCount, g) + i]
    {
      hide Base;
      var base, whole := Base(sectorCount, g), sectorOffset + count;
      if !bufferValid || !cacheable {
        first := data[base..base + g];
      } else {
        first := buffer[..sectorOffset] + junk[sectorOffset..];
        if whole < g {
          first := first[..whole] + buffer[whole..];
        }
      }
    }

    /** The first sector is read back if the write leaves part of it that is in the file. */
    method LoadFirst(count: nat, junk: seq<Byte>) returns (bytes: seq<Byte>)
      requires Valid() && 0 < count && g <= |junk|
      ensures |bytes| == |junk| && bytes[g..] == junk[g..]
      ensures Loaded(Before(), count, bytes[..g])
      ensures BufferOk() && UsesBuffer() && sectorOffset + count <= g ==> TailIn(buffer, bytes[..g], sectorOffset + count)
    {
      hide Base, Holds;
      bytes := junk;
      if (sectorOffset != 0 && offset - sectorOffset < size) || (sectorOffset + count < g && offset + count < size) {
        SectorInside(sectorCount, g, sectors);
        var first := FirstSector(count, junk[..g]);
        bytes := first + junk[g..];
      }
    }

    /**
     The last sector, when it is not the first: read back if the write ends inside it and
     inside the file, and then also kept in the buffer, without the bytes to be written.
     */
    method LoadLast(count: nat, blocks: nat, end: nat, loaded: seq<Byte>) returns (bytes: seq<Byte>)
      requires Valid() && 0 < count && blocks == CeilDiv(sectorOffset + count, g) && end == Rem(sectorOffset + count, g)
      requires |loaded| == Base(blocks, g) && g <= |loaded|
      modifies this`bufferValid, this`buffer
      ensures |bytes| == |loaded| && bytes[..|bytes| - g] == loaded[..|bytes| - g] && |buffer| == g
      ensures blocks == 1 ==> bytes == loaded && bufferValid == old(bufferValid) && buffer == old(buffer)
      ensures blocks > 1 ==> TailLoaded(old(Before()), count, bytes)
      ensures blocks > 1 ==> (UsesBuffer() <==> cacheable && end != 0 && offset + count < size)
      ensures blocks > 1 && UsesBuffer() ==> TailIn(buffer, bytes, sectorOffset + count)
      ensures blocks > 1 && UsesBuffer() ==> Holds(buffer, data, Base(sectorCount, g) + |bytes| - g, 0, g)
    {
      hide Base, CeilDiv, Rem, Quot, Holds, TailLoaded, TailIn;
      bytes := loaded;
      var base, length := Base(sectorCount, g), Base(blocks, g);
      Plan(sectorCount, sectorOffset, count, g);
      if blocks != 1 {
        if cacheable {
          bufferValid := false;
        }
        if end != 0 && offset + count < size {
          SectorInside(sectorCount + blocks - 1, g, sectors);
          LastLoaded(old(Before()), count, loaded);
          var last := data[base + length - g..base + length];
          bytes := loaded[..length - g] + last;
          if cacheable {
            bufferValid := true;
            buffer := last;
          }
        } else {
          NothingBehind(old(Before()), count, bytes);
        }
      }
    }

    /** All the bytes of the sectors to write, when the write is not aligned. */
    method Compose(ptr: seq<Byte>, blocks: nat, end: nat, junk: nat -> Byte) returns (bytes: seq<Byte>)
      requires Valid() && ptr != [] && blocks == CeilDiv(sectorOffset + |ptr|, g) && end == Rem(sectorOffset + |ptr|, g)
      modifies this`bufferValid, this`buffer
      ensures |bytes| == Base(blocks, g) && Composed(old(Before()), ptr, bytes) && |buffer| == g
      ensures blocks == 1 ==> bufferValid == old(bufferValid) && buffer == old(buffer)
      ensures blocks > 1 ==> (UsesBuffer() <==> cacheable && end != 0 && offset + |ptr| < size)
      ensures blocks > 1 && UsesBuffer() ==> Holds(buffer, data, Base(sectorCount, g) + |bytes| - g, 0, g)
      ensures (old(BufferOk()) || blocks > 1) && UsesBuffer() ==> TailIn(buffer, bytes, sectorOffset + |ptr|)
    {
      hide Base, CeilDiv, Rem, Quot, Holds, Loaded, TailLoaded, Composed, TailIn, Overlay;
      Plan(sectorCount, sectorOffset, |ptr|, g);
      ghost var v := Before();
      var first := LoadFirst(|ptr|, seq(Base(blocks, g), (i: nat) => junk(i)));
      var loaded := LoadLast(|ptr|, blocks, end, first);
      if blocks == 1 {
        assert first[..g] == loaded;
      }
      Overlaid(v, ptr, first, loaded, g);
      bytes := Overlay(loaded, sectorOffset, ptr);
      if (old(BufferOk()) || blocks > 1) && UsesBuffer() {
        TailKept(buffer, loaded, bytes, sectorOffset + |ptr|);
      }
    }

    /** Where the sectors to write come from. */
    method Assemble(ptr: seq<Byte>, blocks: nat, end: nat, junk: nat -> Byte) returns (bytes: seq<Byte>)
      requires Valid() && ptr != [] && blocks == CeilDiv(sectorOffset + |ptr|, g) && end == Rem(sectorOffset + |ptr|, g)
      modifies this`bufferValid, this`buffer
      ensures |bytes| == Base(blocks, g) && Composed(old(Before()), ptr, bytes) && |buffer| == g
      ensures blocks == 1 ==> bufferValid == old(bufferValid) && buffer == old(buffer)
      ensures sectorOffset == 0 && end == 0 ==> bufferValid == old(bufferValid) && buffer == old(buffer)
      ensures Renewed(old(BufferOk()), sectorOffset, blocks, end) && blocks > 1 ==>
        (UsesBuffer() <==> cacheable && end != 0 && offset + |ptr| < size)
      ensures Renewed(old(BufferOk()), sectorOffset, blocks, end) && blocks > 1 && UsesBuffer() ==>
        Holds(buffer, data, Base(sectorCount, g) + |bytes| - g, 0, g)
      ensures Renewed(old(BufferOk()), sectorOffset, blocks, end) && UsesBuffer() ==> TailIn(buffer, bytes, sectorOffset + |ptr|)
    {
      hide Base, CeilDiv, Rem, Quot, Holds, Composed, TailIn;
      if sectorOffset == 0 && end == 0 {
        Plan(sectorCount, sectorOffset, |ptr|, g);
        Aligned(Before(), ptr);
        bytes := ptr;
      } else {
        bytes := Compose(ptr, blocks, end, junk);
      }
    }

    /** Whole sectors go out; the cursor is still before the written bytes. */
    method PutBytes(ptr: seq<Byte>, blocks: nat, end: nat, junk: nat -> Byte, fill: nat -> Byte)
      requires Valid() && ptr != [] && blocks == CeilDiv(sectorOffset + |ptr|, g) && end == Rem(sectorOffset + |ptr|, g)
      modifies this`data, this`sectors, this`bufferValid, this`buffer
      ensures Stored() && |buffer| == g && |old(data)| <= |data| && offset + |ptr| <= |data| && data[offset..offset + |ptr|] == ptr
      ensures Base(sectorCount, g) + Base(blocks, g) <= |data| && g <= Base(blocks, g)
      ensures forall x :: 0 <= x < size ==> data[x] == ByteAfter(old(Before()), ptr, x)
      ensures blocks == 1 ==> bufferValid == old(bufferValid) && buffer == old(buffer)
      ensures sectorOffset == 0 && end == 0 ==> bufferValid == old(bufferValid) && buffer == old(buffer)
      ensures Renewed(old(BufferOk()), sectorOffset, blocks, end) && blocks > 1 ==>
        (UsesBuffer() <==> cacheable && end != 0 && offset + |ptr| < size)
      ensures Renewed(old(BufferOk()), sectorOffset, blocks, end) && UsesBuffer() ==>
        var last: int := Base(blocks, g) - g;
        && 0 <= last <= sectorOffset + |ptr|
        && Holds(buffer, data, Base(sectorCount, g) + last, sectorOffset + |ptr| - last, g)
        && (blocks > 1 ==> Holds(buffer, old(data), Base(sectorCount, g) + last, 0, g))
    {
      hide Base, CeilDiv, Rem, Quot, Holds, Composed, TailIn, ByteAfter, Spliced;
      ghost var v, good, must := Before(), Renewed(BufferOk(), sectorOffset, blocks, end), sectorOffset + |ptr|;
      Plan(sectorCount, sectorOffset, |ptr|, g);
      var bytes := Assemble(ptr, blocks, end, junk);
      PutSectors(bytes, blocks, fill);
      AllStored(v, ptr, bytes, data);
      if good && UsesBuffer() {
        BufferAfter(v.data, buffer, bytes, data, Base(sectorCount, g), must, g);
      }
    }

    /** The write proper: whole sectors go out, then the cursor and the size move on. */
    method Store(ptr: seq<Byte>, junk: nat -> Byte, fill: nat -> Byte)
      requires Valid() && ptr != []
      modifies this
      ensures Valid() && offset == old(offset) + |ptr|
      ensures size == (if old(size) < offset then offset else old(size))
      ensures |old(data)| <= |data| && data[old(offset)..offset] == ptr
      ensures forall x :: 0 <= x < old(size) ==> data[x] == ByteAfter(old(Before()), ptr, x)
      ensures old(BufferOk()) ==> (BufferOk() <==> !(old(UsesBuffer()) && old(sectorOffset) + |ptr| == g))
      ensures old(sectorOffset) + |ptr| <= g ==> bufferValid == old(bufferValid) && buffer == old(buffer)
      ensures old(sectorOffset) + |ptr| > g && (old(sectorOffset) != 0 || Rem(|ptr|, g) != 0) ==> BufferOk()
      ensures old(sectorOffset) == 0 && Rem(|ptr|, g) == 0 ==> bufferValid == old(bufferValid) && buffer == old(buffer)
      ensures old(BufferOk()) && old(sectorOffset) + |ptr| > g ==>
        (UsesBuffer() <==> cacheable && Rem(old(sectorOffset) + |ptr|, g) != 0 && offset < old(size))
      ensures old(BufferOk()) && old(sectorOffset) + |ptr| > g && UsesBuffer() ==>
        Holds(buffer, old(data), Base(sectorCount, g), 0, g)
    {
      hide Base, CeilDiv, Rem, Quot, Holds, ByteAfter;
      var blocks, end := CeilDiv(sectorOffset + |ptr|, g), Rem(sectorOffset + |ptr|, g);
      ghost var good := Renewed(BufferOk(), sectorOffset, blocks, end);
      Plan(sectorCount, sectorOffset, |ptr|, g);
      PutBytes(ptr, blocks, end, junk, fill);
      MoveOn(|ptr|, blocks, end, good, Base(blocks, g) - g);
    }

    /** The cursor moves behind the written bytes, and the size follows it. */
    method MoveOn(count: nat, blocks: nat, end: nat, ghost good: bool, ghost last: nat)
      requires Stored() && CursorOk() && 0 < count && |buffer| == g
      requires blocks == CeilDiv(sectorOffset + count, g) && end == Rem(sectorOffset + count, g)
      requires Base(blocks, g) == last + g && Base(sectorCount, g) + last + g <= |data|
      requires good && UsesBuffer() ==> (blocks == 1 && Base(sectorCount, g) < size) || (end != 0 && offset + count < size)
      requires good && UsesBuffer() ==> last <= sectorOffset + count
      requires good && UsesBuffer() ==> Holds(buffer, data, Base(sectorCount, g) + last, sectorOffset + count - last, g)
      modifies this`offset, this`sectorOffset, this`sectorCount, this`size
      ensures Stored() && CursorOk() && sectorCount == Quot(offset, g) && offset == old(offset) + count && size == (if old(size) < offset then offset else old(size))
      ensures good ==> (BufferOk() <==> !(UsesBuffer() && end == 0))
    {
      hide Base, CeilDiv, Rem, Quot, Holds;
      Plan(sectorCount, sectorOffset, count, g);
      sectorOffset := end;
      offset := offset + count;
      sectorCount := Quot(offset, g);
      if size < offset {
        size := offset;
      }
    }

    /** A write through a handle whose buffer is whole, and when the buffer stays so. */
    method Splice(ptr: seq<Byte>, junk: nat -> Byte, fill: nat -> Byte)
      requires Valid() && ptr != []
      modifies this
      ensures Valid() && offset == old(offset) + |ptr|
      ensures size == (if old(size) < offset then offset else old(size))
      ensures |old(data)| <= |data| && data[old(offset)..offset] == ptr
      ensures forall x :: 0 <= x < old(size) ==> data[x] == ByteAfter(old(Before()), ptr, x)
      ensures Unharmed(old(Before()), old(offset), ptr, data) <==> !old(UsesBuffer()) || SectorFresh(old(Before()), |ptr|)
      ensures old(BufferOk()) ==> (BufferOk() <==> !(old(UsesBuffer()) && old(sectorOffset) + |ptr| == g))
      ensures old(sectorOffset) + |ptr| <= g ==> bufferValid == old(bufferValid) && buffer == old(buffer)
      ensures old(sectorOffset) + |ptr| > g && (old(sectorOffset) != 0 || Rem(|ptr|, g) != 0) ==> BufferOk()
      ensures old(sectorOffset) == 0 && Rem(|ptr|, g) == 0 ==> bufferValid == old(bufferValid) && buffer == old(buffer)
      ensures old(Whole()) ==> Unharmed(old(Before()), old(offset), ptr, data)
      ensures old(BufferOk()) && old(offset) <= old(size) ==> (Unharmed(old(Before()), old(offset), ptr, data) <==> old(Whole()))
      ensures old(Whole()) ==> (Whole() <==> KeepsWhole(old(Before()), cacheable, ptr))
    {
      hide Base, CeilDiv, Rem, Quot, Holds, ByteAfter, SectorFresh, Unharmed, Rewrites;
      ghost var v, whole := Before(), Whole();
      if BufferOk() && v.buffered && offset <= size {
        WholeIffFresh(v, |ptr|);
      }
      Plan(sectorCount, sectorOffset, |ptr|, g);
      Store(ptr, junk, fill);
      UnharmedIff(v, ptr, data);
      if whole {
        if v.buffered {
          WholeFresh(v, |ptr|);
        }
        if UsesBuffer() && sectorOffset != 0 {
          CursorAt(offset, sectorCount, sectorOffset, g);
          RewritesIff(v, ptr, buffer, data, Base(sectorCount, g), sectorOffset);
        }
      }
    }

    /** vfs_write_file */
    method Write(ptr: seq<Byte>, junk: nat -> Byte, fill: nat -> Byte) returns (r: int)
      requires Valid() && |ptr| + g < WORD32
      modifies this
      ensures !canWrite ==> r == -1
      ensures canWrite ==> r == |ptr|
      ensures !canWrite || ptr == [] ==> Valid() && unchanged(this)
      ensures canWrite && ptr != [] ==>
        var start := if append then old(size) else old(offset);
        var v := old(Before());
        var buffered := v.buffered && !append;
        && Valid() && offset == start + |ptr|
        && size == (if old(size) < offset then offset else old(size))
        && |v.data| <= |data| && data[start..offset] == ptr
        && (Unharmed(v, start, ptr, data) <==> !buffered || SectorFresh(v, |ptr|))
        && (append || old(BufferOk()) ==> (BufferOk() <==> !(buffered && v.offset + |ptr| == g)))
      ensures canWrite && ptr != [] && !append ==> forall x :: 0 <= x < old(size) ==> data[x] == ByteAfter(old(Before()), ptr, x)
      ensures canWrite && ptr != [] && !append && old(sectorOffset) + |ptr| <= g ==> bufferValid == old(bufferValid) && buffer == old(buffer)
      ensures canWrite && ptr != [] && !append && old(sectorOffset) + |ptr| > g && (old(sectorOffset) != 0 || Rem(|ptr|, g) != 0) ==>
        BufferOk()
      ensures canWrite && ptr != [] && !append && old(sectorOffset) == 0 && Rem(|ptr|, g) == 0 ==>
        bufferValid == old(bufferValid) && buffer == old(buffer)
      ensures canWrite && ptr != [] && old(Whole()) ==>
        && Unharmed(old(Before()), if append then old(size) else old(offset), ptr, data)
        && (Whole() <==> append || KeepsWhole(old(Before()), cacheable, ptr))
      ensures canWrite && ptr != [] && !append && old(BufferOk()) && old(offset) <= old(size) ==>
        (Unharmed(old(Before()), old(offset), ptr, data) <==> old(Whole()))
      ensures !canWrite || ptr == [] ==> old(Whole()) ==> Whole()
    {
      if !canWrite {
        return -1;
      }
      if |ptr| == 0 {
        return 0;
      }
      hide Base, ByteAfter, Holds, SectorFresh, Unharmed, Rewrites, Rem;
      if append {
        SetOffset(size);
      }
      Splice(ptr, junk, fill);
      r := |ptr|;
    }
  }

  /** Whole sectors were stored at `base`, and no other byte changed. */
  ghost predicate Spliced(was: seq<Byte>, now: seq<Byte>, base: nat, bytes: seq<Byte>) {
    && |was| <= |now| && base + |bytes| <= |now| && now[base..base + |bytes|] == bytes
    && forall x :: 0 <= x < |was| && !(base <= x < base + |bytes|) ==> now[x] == was[x]
  }

  lemma AllStored(v: View, ptr: seq<Byte>, bytes: seq<Byte>, data: seq<Byte>)
    requires Composed(v, ptr, bytes) && Spliced(v.data, data, v.base, bytes)
    ensures v.size <= |v.data| <= |data| && v.offset <= |v.buffer| && v.base + v.offset + |ptr| <= |data|
    ensures v.base + |bytes| <= |data|
    ensures forall x :: 0 <= x < v.size ==> data[x] == ByteAfter(v, ptr, x)
    ensures data[v.base + v.offset..v.base + v.offset + |ptr|] == ptr
  {
    StoredBytes(v, ptr, bytes, data, 0);
    forall x: nat | x < v.size ensures data[x] == ByteAfter(v, ptr, x) {
      StoredBytes(v, ptr, bytes, data, x);
    }
  }

  lemma BufferAfter(was: seq<Byte>, buffer: seq<Byte>, bytes: seq<Byte>, data: seq<Byte>, base: nat, must: nat, g: nat)
    requires TailIn(buffer, bytes, must) && |buffer| == g && Spliced(was, data, base, bytes)
    ensures g <= |bytes| && |bytes| - g <= must && Holds(buffer, data, base + |bytes| - g, must - (|bytes| - g), g)
  {
    Slices(data, base, base + |bytes|, must, |bytes|);
  }

  /** No byte of the old file changed but those from `start` on that were written. */
  ghost predicate Unharmed(v: View, start: nat, ptr: seq<Byte>, data: seq<Byte>) {
    v.size <= |v.data| && v.size <= |data| && forall x :: 0 <= x < v.size && !(start <= x < start + |ptr|) ==> data[x] == v.data[x]
  }

  /** The buffer is used after a write of `count` bytes. */
  ghost predicate BuffersAfter(v: View, cacheable: bool, count: nat)
    requires v.buffer != []
  {
    var must := v.offset + count;
    if must <= |v.buffer| then v.buffered else cacheable && Rem(must, |v.buffer|) != 0 && v.base + must < v.size
  }

  /** The last `end` of the bytes written from `start` on, or all of them, are those already there. */
  ghost predicate Rewrites(data: seq<Byte>, ptr: seq<Byte>, start: nat, end: nat) {
    forall x: nat :: start <= x < start + |ptr| <= x + end ==> ByteThere(data, ptr, start, x)
  }

  ghost predicate ByteThere(data: seq<Byte>, ptr: seq<Byte>, start: nat, x: nat) {
    start <= x < |data| && x < start + |ptr| && data[x] == ptr[x - start]
  }

  /** After a write the buffer is unused, or it ends inside a sector and changed nothing there. */
  ghost predicate KeepsWhole(v: View, cacheable: bool, ptr: seq<Byte>)
    requires v.buffer != []
  {
    var end := Rem(v.offset + |ptr|, |v.buffer|);
    BuffersAfter(v, cacheable, |ptr|) ==> end != 0 && Rewrites(v.data, ptr, v.base + v.offset, end)
  }

  /** So inside one sector a buffered write keeps the buffer whole iff it rewrites what is there. */
  lemma KeptInside(v: View, cacheable: bool, ptr: seq<Byte>)
    requires v.offset + |ptr| < |v.buffer| && v.buffered && ptr != []
    ensures KeepsWhole(v, cacheable, ptr) <==>
      v.base + v.offset + |ptr| <= |v.data| && v.data[v.base + v.offset..v.base + v.offset + |ptr|] == ptr
  {
    CursorAt(v.offset + |ptr|, 0, v.offset + |ptr|, |v.buffer|);
    RewritesAll(v.data, ptr, v.base + v.offset, v.offset + |ptr|);
  }

  lemma RewritesAll(data: seq<Byte>, ptr: seq<Byte>, start: nat, end: nat)
    requires |ptr| <= end && ptr != []
    ensures Rewrites(data, ptr, start, end) <==> start + |ptr| <= |data| && data[start..start + |ptr|] == ptr
  {
    if Rewrites(data, ptr, start, end) {
      var last := start + |ptr| - 1;
      assert last + end >= start + |ptr|;
      assert ByteThere(data, ptr, start, last);
      forall i | 0 <= i < |ptr| ensures data[start + i] == ptr[i] {
        assert ByteThere(data, ptr, start, start + i);
      }
    }
    if start + |ptr| <= |data| && data[start..start + |ptr|] == ptr {
      forall x: nat | start <= x < start + |ptr| ensures ByteThere(data, ptr, start, x) {
        assert data[start..start + |ptr|][x - start] == data[x];
      }
    }
  }

  /** A buffer that is right from the cursor on is right around any write iff it is whole. */
  lemma WholeIffFresh(v: View, count: nat)
    requires Holds(v.buffer, v.data, v.base, v.offset, |v.buffer|) && v.base + v.offset <= v.size <= |v.data|
    ensures SectorFresh(v, count) <==> Holds(v.buffer, v.data, v.base, 0, |v.buffer|)
  {
    HoldsAt(v.buffer, v.data, v.base, v.offset, |v.buffer|);
    if SectorFresh(v, count) {
      assert v.buffer[0..] == v.data[v.base + 0..v.base + |v.buffer|];
    } else if Holds(v.buffer, v.data, v.base, 0, |v.buffer|) {
      WholeFresh(v, count);
    }
  }

  lemma WholeFresh(v: View, count: nat)
    requires v.size <= |v.data| && Holds(v.buffer, v.data, v.base, 0, |v.buffer|)
    ensures SectorFresh(v, count)
  {
    HoldsAt(v.buffer, v.data, v.base, 0, |v.buffer|);
  }

  /** The buffer has the last sector as it was before the write; is it the sector as it is now? */
  lemma RewritesIff(v: View, ptr: seq<Byte>, buffer: seq<Byte>, data: seq<Byte>, base: nat, end: nat)
    requires v.buffer != [] && base + end == v.base + v.offset + |ptr|
    requires Holds(buffer, v.data, base, 0, |v.buffer|) && Holds(buffer, data, base, end, |v.buffer|)
    requires v.base + v.offset + |ptr| <= |data| && data[v.base + v.offset..v.base + v.offset + |ptr|] == ptr
    requires base < v.base + v.offset ==> v.base + v.offset <= v.size <= |v.data|
    requires Unharmed(v, v.base + v.offset, ptr, data)
    ensures Holds(buffer, data, base, 0, |v.buffer|) <==> Rewrites(v.data, ptr, v.base + v.offset, end)
  {
    var start, g := v.base + v.offset, |v.buffer|;
    HoldsAt(buffer, v.data, base, 0, g);
    HoldsAt(buffer, data, base, end, g);
    forall x | start <= x < start + |ptr| ensures data[x] == ptr[x - start] {
      assert data[start..start + |ptr|][x - start] == data[x];
    }
    if Rewrites(v.data, ptr, start, end) {
      forall i | 0 <= i < g ensures buffer[i] == data[base + i] {
        if start <= base + i && i < end {
          assert ByteThere(v.data, ptr, start, base + i);
        }
      }
      assert buffer[0..] == data[base + 0..base + g];
    }
    if Holds(buffer, data, base, 0, g) {
      HoldsAt(buffer, data, base, 0, g);
      forall x: nat | start <= x < start + |ptr| <= x + end ensures ByteThere(v.data, ptr, start, x) {
        var i := x - base;
        assert buffer[i] == v.data[base + i] && buffer[i] == data[base + i];
      }
    }
  }

  /** The last sector, read back behind the others. */
  lemma LastLoaded(v: View, count: nat, loaded: seq<Byte>)
    requires 0 < |v.buffer| <= |loaded| && v.base + |loaded| <= |v.data| && v.size <= |v.data|
    requires |loaded| - |v.buffer| < v.offset + count <= |loaded|
    ensures
      var at, g := |loaded| - |v.buffer|, |v.buffer|;
      var last := v.data[v.base + at..v.base + at + g];
      var bytes := loaded[..at] + last;
      && |bytes| == |loaded| && bytes[..at] == loaded[..at]
      && TailLoaded(v, count, bytes) && TailIn(last, bytes, v.offset + count) && Holds(last, v.data, v.base + at, 0, g)
  {
    var at := |loaded| - |v.buffer|;
    var last := v.data[v.base + at..v.base + at + |v.buffer|];
    assert last[0..] == last;
  }

  lemma NothingBehind(v: View, count: nat, bytes: seq<Byte>)
    requires v.size <= |v.data| && (v.offset + count == |bytes| || v.size <= v.base + v.offset + count)
    ensures TailLoaded(v, count, bytes)
  {}

  /** What follows byte `must` of the sectors is the end of the buffer. */
  ghost predicate TailIn(buffer: seq<Byte>, bytes: seq<Byte>, must: nat) {
    |buffer| <= |bytes| && |bytes| - |buffer| <= must <= |bytes| && buffer[must - (|bytes| - |buffer|)..] == bytes[must..]
  }

  lemma TailKept(buffer: seq<Byte>, a: seq<Byte>, b: seq<Byte>, must: nat)
    requires TailIn(buffer, a, must) && |a| == |b| && a[must..] == b[must..]
    ensures TailIn(buffer, b, must)
  {}

  // ---- what a write leaves -----------------------------------------------------------------

  /** The sectors a write stores, given what it found. */
  ghost predicate Composed(v: View, ptr: seq<Byte>, bytes: seq<Byte>) {
    && |v.buffer| <= |bytes| && v.offset + |ptr| <= |bytes| && bytes[v.offset..v.offset + |ptr|] == ptr
    && Loaded(v, |ptr|, bytes)
  }

  lemma Overlaid(v: View, ptr: seq<Byte>, first: seq<Byte>, loaded: seq<Byte>, g: nat)
    requires v.offset < g == |v.buffer| <= |first| == |loaded| && v.offset + |ptr| <= |loaded|
    requires loaded[..|loaded| - g] == first[..|loaded| - g] && (|loaded| == g ==> loaded == first)
    requires |loaded| == g || (|loaded| >= 2 * g && |loaded| - g < v.offset + |ptr|)
    requires Loaded(v, |ptr|, first[..g])
    requires |loaded| > g ==> TailLoaded(v, |ptr|, loaded)
    ensures
      var bytes := Overlay(loaded, v.offset, ptr);
      |bytes| == |loaded| && Composed(v, ptr, bytes) && bytes[v.offset + |ptr|..] == loaded[v.offset + |ptr|..]
  {
    OverlayAt(loaded, v.offset, ptr);
    hide Overlay;
    var bytes := Overlay(loaded, v.offset, ptr);
    forall i | 0 <= i < |bytes| && (i < v.offset || v.offset + |ptr| <= i) && v.base + i < v.size ensures bytes[i] == KeptByte(v, i) {
      if i < g {
        assert |loaded| > g ==> loaded[..|loaded| - g][i] == first[..|loaded| - g][i];
        assert first[..g][i] == bytes[i];
      }
    }
  }

  lemma OverlayAt(bytes: seq<Byte>, at: nat, ptr: seq<Byte>)
    requires at + |ptr| <= |bytes|
    ensures
      var r := Overlay(bytes, at, ptr);
      && |r| == |bytes| && r[at..at + |ptr|] == ptr && r[at + |ptr|..] == bytes[at + |ptr|..]
      && (forall i :: 0 <= i < at ==> r[i] == bytes[i])
      && (forall i :: at + |ptr| <= i < |r| ==> r[i] == bytes[i])
  {}

  /** An aligned write needs nothing from the file. */
  lemma Aligned(v: View, ptr: seq<Byte>)
    requires v.offset == 0 && |v.buffer| <= |ptr| && v.size <= |v.data|
    ensures Composed(v, ptr, ptr)
  {}

  /** Byte x of the old file after the write. */
  ghost function ByteAfter(v: View, ptr: seq<Byte>, x: nat): Byte
    requires x < v.size <= |v.data| && v.offset <= |v.buffer|
  {
    var start := v.base + v.offset;
    if start <= x < start + |ptr| then ptr[x - start]
    else if v.base <= x then KeptByte(v, x - v.base)
    else v.data[x]
  }

  lemma StoredBytes(v: View, ptr: seq<Byte>, bytes: seq<Byte>, data: seq<Byte>, x: nat)
    requires Composed(v, ptr, bytes) && Spliced(v.data, data, v.base, bytes)
    ensures x < v.size ==> data[x] == ByteAfter(v, ptr, x)
    ensures data[v.base + v.offset..v.base + v.offset + |ptr|] == ptr
  {
    Slices(data, v.base, v.base + |bytes|, v.offset, v.offset + |ptr|);
    if v.base <= x < v.base + |bytes| {
      assert data[x] == bytes[x - v.base];
    }
  }

  /** The buffer agrees with the file on the parts of its sector that a write of `count` keeps. */
  ghost predicate SectorFresh(v: View, count: nat)
    requires v.size <= |v.data|
  {
    forall i :: 0 <= i < |v.buffer| && (i < v.offset || v.offset + count <= i) && v.base + i < v.size ==>
      v.buffer[i] == v.data[v.base + i]
  }

  /** A write splices exactly iff the buffer, when it is used, is right around the written bytes. */
  lemma UnharmedIff(v: View, ptr: seq<Byte>, data: seq<Byte>)
    requires v.offset <= |v.buffer| && v.size <= |v.data| <= |data| && v.base + v.offset + |ptr| <= |data|
    requires data[v.base + v.offset..v.base + v.offset + |ptr|] == ptr
    requires forall x :: 0 <= x < v.size ==> data[x] == ByteAfter(v, ptr, x)
    ensures Unharmed(v, v.base + v.offset, ptr, data) <==> !v.buffered || SectorFresh(v, |ptr|)
  {
    if v.buffered && Unharmed(v, v.base + v.offset, ptr, data) {
      forall i | 0 <= i < |v.buffer| && (i < v.offset || v.offset + |ptr| <= i) && v.base + i < v.size
        ensures v.buffer[i] == v.data[v.base + i]
      {
        assert data[v.base + i] == v.data[v.base + i];
      }
    }
  }

  lemma HoldsAt(buffer: seq<Byte>, data: seq<Byte>, base: nat, from: nat, g: nat)
    requires Holds(buffer, data, base, from, g)
    ensures forall i :: from <= i < g ==> buffer[i] == data[base + i]
  {
    forall i | from <= i < g ensures buffer[i] == data[base + i] {
      assert buffer[from..][i - from] == buffer[i] && data[base + from..base + g][i - from] == data[base + i];
    }
  }

  /** The file and the handle as a write finds them. */
  datatype View = View(data: seq<Byte>, size: nat, base: nat, offset: nat, buffered: bool, buffer: seq<Byte>)

  /** Byte i of the sectors from `base` on, as a write keeps it: the buffer's in its sector. */
  ghost function KeptByte(v: View, i: nat): Byte
    requires v.base + i < v.size <= |v.data|
  {
    if v.buffered && i < |v.buffer| then v.buffer[i] else v.data[v.base + i]
  }

  /** Around the bytes to be written the sectors hold what the write keeps of the file. */
  ghost predicate Loaded(v: View, count: nat, bytes: seq<Byte>) {
    && v.offset <= |v.buffer| && v.size <= |v.data|
    && forall i :: 0 <= i < |bytes| && (i < v.offset || v.offset + count <= i) && v.base + i < v.size ==> bytes[i] == KeptByte(v, i)
  }

  /** What follows the write in its last sector is the file's. */
  ghost predicate TailLoaded(v: View, count: nat, bytes: seq<Byte>) {
    v.size <= |v.data| && forall i :: v.offset + count <= i < |bytes| && v.base + i < v.size ==> bytes[i] == v.data[v.base + i]
  }

  // ---- what a read gives -------------------------------------------------------------------

  /** How many of `want` bytes come from the buffer. */
  ghost function FromBufferCount(v: View, want: nat): nat
    requires v.offset <= |v.buffer|
  {
    if v.buffered then Min(|v.buffer| - v.offset, want) else 0
  }

  ghost function ReadResult(v: View, want: nat): seq<Byte>
    requires v.offset <= |v.buffer| && v.base + v.offset + want <= |v.data|
  {
    var k, start := FromBufferCount(v, want), v.base + v.offset;
    v.buffer[v.offset..v.offset + k] + v.data[start + k..start + want]
  }

  /** The buffer, when it is used, agrees with the file on the bytes it gives. */
  ghost predicate ReadFresh(v: View, want: nat)
    requires v.offset <= |v.buffer| && v.base + v.offset + want <= |v.data|
  {
    Agree(v.buffer, v.offset, v.data, v.base, FromBufferCount(v, want))
  }

  ghost predicate Agree(buffer: seq<Byte>, at: nat, data: seq<Byte>, base: nat, k: nat)
    requires at + k <= |buffer| && base + at + k <= |data|
  {
    forall i :: at <= i < at + k ==> buffer[i] == data[base + i]
  }

  /** Two slices of the same length are equal iff their elements are. */
  lemma SameSlices(a: seq<Byte>, i: nat, b: seq<Byte>, j: nat, k: nat)
    requires i + k <= |a| && j + i + k <= |b|
    ensures a[i..i + k] == b[j + i..j + i + k] <==> forall x :: i <= x < i + k ==> a[x] == b[j + x]
  {
    if a[i..i + k] == b[j + i..j + i + k] {
      forall x | i <= x < i + k ensures a[x] == b[j + x] {
        assert a[i..i + k][x - i] == b[j + i..j + i + k][x - i];
      }
    }
  }

  lemma SameHead(a: seq<Byte>, b: seq<Byte>, rest: seq<Byte>)
    requires |a| == |b|
    ensures a + rest == b + rest <==> a == b
  {
    if a + rest == b + rest {
      assert a == (a + rest)[..|a|] == (b + rest)[..|a|] == b;
    }
  }

  lemma ReadRightIff(v: View, want: nat)
    requires v.offset <= |v.buffer| && v.base + v.offset + want <= |v.data|
    ensures |ReadResult(v, want)| == want
    ensures ReadResult(v, want) == v.data[v.base + v.offset..v.base + v.offset + want] <==> ReadFresh(v, want)
  {
    hide Agree;
    FreshPart(v.buffer, v.offset, v.data, v.base, FromBufferCount(v, want), want);
  }

  lemma FreshPart(buffer: seq<Byte>, at: nat, data: seq<Byte>, base: nat, k: nat, want: nat)
    requires at + k <= |buffer| && k <= want && base + at + want <= |data|
    ensures buffer[at..at + k] + data[base + at + k..base + at + want] == data[base + at..base + at + want] <==>
      Agree(buffer, at, data, base, k)
  {
    var start := base + at;
    HeadAndRest(data, start, k, want);
    SameHead(buffer[at..at + k], data[start..start + k], data[start + k..start + want]);
    SameSlices(buffer, at, data, base, k);
  }

  lemma HeadAndRest(s: seq<Byte>, start: nat, k: nat, want: nat)
    requires k <= want && start + want <= |s|
    ensures s[start..start + want] == s[start..start + k] + s[start + k..start + want]
  {}

  lemma NothingRead(v: View)
    requires v.offset <= |v.buffer| && v.base + v.offset <= |v.data|
    ensures ReadResult(v, 0) == []
  {}

  lemma ReadParts(v: View, want: nat, head: seq<Byte>, tail: seq<Byte>)
    requires v.offset <= |v.buffer| && v.base + v.offset + want <= |v.data|
    requires v.buffered ==> head == v.buffer[v.offset..v.offset + Min(|v.buffer| - v.offset, want)]
    requires !v.buffered ==> head == []
    requires tail == v.data[v.base + v.offset + |head|..v.base + v.offset + want]
    ensures head + tail == ReadResult(v, want)
  {}

  /** A buffer that holds the sector from the cursor on gives the file's bytes. */
  lemma BufferFresh(v: View, want: nat)
    requires v.offset <= |v.buffer| && v.base + v.offset + want <= |v.data|
    requires v.buffered ==> Holds(v.buffer, v.data, v.base, v.offset, |v.buffer|)
    ensures ReadFresh(v, want)
  {
    if v.buffered {
      HoldsAt(v.buffer, v.data, v.base, v.offset, |v.buffer|);
    }
  }

  /** The file after whole sectors are stored at `base`. */
  function Put(data: seq<Byte>, base: nat, bytes: seq<Byte>, fill: nat -> Byte): (r: seq<Byte>)
    ensures |r| == (if base + |bytes| <= |data| then |data| else base + |bytes|)
    ensures r[base..base + |bytes|] == bytes
    ensures forall x :: 0 <= x < |data| && !(base <= x < base + |bytes|) ==> r[x] == data[x]
  {
    var length := if base + |bytes| <= |data| then |data| else base + |bytes|;
    seq(length, x requires 0 <= x < length =>
      if base <= x < base + |bytes| then bytes[x - base] else if x < |data| then data[x] else fill(x))
  }

  // ---- runs that go wrong ------------------------------------------------------------------

  const ALL_FLAGS := Flags(true, true, false, true)

  /** A handle on 1 2 3 4 5 6 7 8, in sectors of four, after reading one byte. */
  method OpenAndRead() returns (s: Stream)
    ensures fresh(s) && Example(s, 1, 0, [1, 2, 3, 4]) && s.data == [1, 2, 3, 4, 5, 6, 7, 8]
  {
    s := new Stream(4, true, ALL_FLAGS, [1, 2, 3, 4, 5, 6, 7, 8], 8, 2);
    var r := s.Read(1);
    CursorAt(1, 0, 1, 4);
    CursorAt(1, s.sectorCount, s.sectorOffset, 4);
    HoldsAt(s.buffer, s.data, 0, 0, 4);
    assert s.buffer == [1, 2, 3, 4];
  }

  ghost predicate Example(s: Stream, at: nat, sector: nat, buffer: seq<Byte>)
    reads s
  {
    && s.Valid() && s.g == 4 && s.size == 8 && s.cacheable && s.canRead && s.canWrite && !s.append
    && s.sectorCount == sector && s.sectorOffset == at && s.bufferValid && s.buffer == buffer
  }

  /** A write inside one sector through a buffered handle, and the cursor behind it. */
  method WriteInside(s: Stream, at: nat, sector: nat, ptr: seq<Byte>, junk: nat -> Byte, fill: nat -> Byte)
    requires Example(s, at, sector, s.buffer) && ptr != [] && at + |ptr| <= 4 && sector < 2
    modifies s
    ensures Example(s, if at + |ptr| == 4 then 0 else at + |ptr|, if at + |ptr| == 4 then sector + 1 else sector, old(s.buffer))
    ensures forall x :: 0 <= x < 8 ==> s.data[x] == ByteAfter(old(s.Before()), ptr, x)
  {
    var w := s.Write(ptr, junk, fill);
    var end := at + |ptr|;
    CursorAt(4 * sector + end, if end == 4 then sector + 1 else sector, if end == 4 then 0 else end, 4);
    CursorAt(4 * sector + end, s.sectorCount, s.sectorOffset, 4);
  }

  /**
   Writing 9 and then 8 behind the first byte leaves 1 2 8 4: the second write takes the byte
   before it from the buffer, which the first did not refresh.
   */
  method FirstWriteLost(junk: nat -> Byte, fill: nat -> Byte) returns (first: seq<Byte>, second: seq<Byte>)
    ensures first == [1, 9, 3, 4] && second == [1, 2, 8, 4]
  {
    var s := OpenAndRead();
    WriteInside(s, 1, 0, [9], junk, fill);
    first := s.data[..4];
    assert first == [1, 9, 3, 4];
    WriteInside(s, 2, 0, [8], junk, fill);
    second := s.data[..4];
  }

  /** Filling the sector leaves the buffer valid for the next one: reading gives 1, the file has 5. */
  method WrongRead(junk: nat -> Byte, fill: nat -> Byte) returns (r: Result, file: seq<Byte>)
    ensures r == Done([1]) && file == [1, 9, 9, 9, 5, 6, 7, 8]
  {
    var s := OpenAndRead();
    WriteInside(s, 1, 0, [9, 9, 9], junk, fill);
    file := s.data[..8];
    ghost var v := s.Before();
    r := s.Read(1);
    assert ReadResult(v, 1) == [1];
  }

  /** And writing one byte there replaces the rest of that sector by the buffer's. */
  method BytesBehindLost(junk: nat -> Byte, fill: nat -> Byte) returns (file: seq<Byte>)
    ensures file == [1, 9, 9, 9, 7, 2, 3, 4]
  {
    var s := OpenAndRead();
    WriteInside(s, 1, 0, [9, 9, 9], junk, fill);
    WriteInside(s, 0, 1, [7], junk, fill);
    file := s.data[..8];
  }
}
