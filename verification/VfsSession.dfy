/**
 Whole sessions with one handle, against a plain file: bytes and an offset, no sectors and no
 buffer.
 */
module VfsSession {
  import opened Common
  import opened Division
  import opened VfsStream

  datatype Op = Read(count: nat) | Write(bytes: seq<Byte>) | Seek(amount: nat, whence: Whence)
  datatype Answer = Bytes(result: Result) | Code(value: int)
  datatype File = File(bytes: seq<Byte>, offset: nat)

  ghost function Plain(s: Stream): File
    requires s.size <= |s.data|
    reads s
  {
    File(s.data[..s.size], s.offset)
  }

  /** What each call answers and leaves, on a plain file. */
  ghost predicate Serves(flags: Flags, f: File, op: Op, a: Answer, f': File) {
    match op
    case Read(count) => ServesRead(flags, f, count, a, f')
    case Write(bytes) => ServesWrite(flags, f, bytes, a, f')
    case Seek(amount, whence) =>
      if !flags.seekable || whence == Other then f' == f && a == Code(-1)
      else
        f' == f.(offset := Target(f, amount, whence)) && a == Code(f'.offset)
  }

  ghost function Target(f: File, amount: nat, whence: Whence): nat {
    match whence
    case Current => (amount + f.offset) % WORD64
    case End => (amount + |f.bytes|) % WORD64
    case _ => amount
  }

  ghost predicate ServesRead(flags: Flags, f: File, count: nat, a: Answer, f': File) {
    if !flags.read then f' == f && a == Bytes(Failed)
    else if |f.bytes| <= f.offset then f' == f && a == Bytes(Done([]))
    else
      var k := Min(count, |f.bytes| - f.offset);
      f' == f.(offset := f.offset + k) && a == Bytes(Done(f.bytes[f.offset..f.offset + k]))
  }

  /** Bytes between the old end and a cursor beyond it are whatever the file system holds there. */
  ghost predicate ServesWrite(flags: Flags, f: File, bytes: seq<Byte>, a: Answer, f': File) {
    if !flags.write then f' == f && a == Code(-1)
    else if bytes == [] then f' == f && a == Code(0)
    else
      var start := if flags.append then |f.bytes| else f.offset;
      && a == Code(|bytes|) && f'.offset == start + |bytes| && |f'.bytes| == Max(|f.bytes|, start + |bytes|)
      && f'.bytes[start..start + |bytes|] == bytes
      && forall x :: 0 <= x < |f.bytes| && !(start <= x < start + |bytes|) ==> f'.bytes[x] == f.bytes[x]
  }

  ghost predicate Small(op: Op, g: nat) {
    match op
    case Read(count) => count + g < WORD32
    case Write(bytes) => |bytes| + g < WORD32
    case Seek(amount, _) => amount < WORD64
  }

  predicate Rewinds(op: Op) { op.Seek? && op.whence != Other }

  /** After a write the handle is positioned again before anything else. */
  ghost predicate Careful(ops: seq<Op>) {
    forall i :: 0 <= i < |ops| - 1 && ops[i].Write? ==> Rewinds(ops[i + 1])
  }

  ghost function FlagsOf(s: Stream): Flags
  {
    Flags(s.canRead, s.canWrite, s.append, s.seekable)
  }

  method CallRead(s: Stream, count: nat) returns (a: Answer)
    requires s.Valid() && s.Whole() && count + s.g < WORD32
    modifies s
    ensures s.Valid() && s.Whole() && ServesRead(FlagsOf(s), old(Plain(s)), count, a, Plain(s))
  {
    hide Base, Holds, ReadResult, ReadFresh;
    var r := s.Read(count);
    a := Bytes(r);
    assert s.data[..s.size] == old(s.data[..s.size]);
  }

  method CallWrite(s: Stream, bytes: seq<Byte>, junk: nat -> Byte, fill: nat -> Byte) returns (a: Answer)
    requires s.Valid() && s.Whole() && |bytes| + s.g < WORD32
    modifies s
    ensures s.Valid() && ServesWrite(FlagsOf(s), old(Plain(s)), bytes, a, Plain(s))
    ensures !s.cacheable || s.append ==> s.Whole()
  {
    hide Base, Holds, ByteAfter, SectorFresh, Rewrites, ServesWrite, Unharmed;
    ghost var v, offset := s.Before(), s.offset;
    var r := s.Write(bytes, junk, fill);
    a := Code(r);
    if s.canWrite && bytes != [] {
      Written(FlagsOf(s), v, offset, bytes, s.data, s.size);
    } else {
      NotWritten(FlagsOf(s), Plain(s), bytes);
    }
  }

  lemma Written(flags: Flags, v: View, offset: nat, bytes: seq<Byte>, data: seq<Byte>, size: nat)
    requires flags.write && bytes != [] && v.size <= |v.data|
    requires
      var start := if flags.append then v.size else offset;
      && size == Max(v.size, start + |bytes|) <= |data| && data[start..start + |bytes|] == bytes
      && Unharmed(v, start, bytes, data)
    ensures
      var start := if flags.append then v.size else offset;
      ServesWrite(flags, File(v.data[..v.size], offset), bytes, Code(|bytes|), File(data[..size], start + |bytes|))
  {
    var start := if flags.append then v.size else offset;
    Slices(data, 0, size, start, start + |bytes|);
    assert data[0..size] == data[..size];
  }

  lemma NotWritten(flags: Flags, f: File, bytes: seq<Byte>)
    requires !flags.write || bytes == []
    ensures ServesWrite(flags, f, bytes, Code(if flags.write then 0 else -1), f)
  {}

  /** One call, through a whole buffer unless it positions the handle. */
  method Call(s: Stream, op: Op, junk: nat -> Byte, fill: nat -> Byte) returns (a: Answer)
    requires s.Valid() && Small(op, s.g) && (s.Whole() || (s.seekable && Rewinds(op)))
    modifies s
    ensures s.Valid() && Serves(FlagsOf(s), old(Plain(s)), op, a, Plain(s))
    ensures !op.Write? || !s.cacheable || s.append ==> s.Whole()
  {
    match op
    case Read(count) =>
      a := CallRead(s, count);
    case Write(bytes) =>
      a := CallWrite(s, bytes, junk, fill);
    case Seek(amount, whence) =>
      var r := s.Seek(amount, whence);
      a := Code(r);
  }

  /**
   Over every session that begins with a whole buffer, every call answers as a plain file does,
   if the handle has no buffer, or appends, or is positioned again after each write.
   */
  method Session(s: Stream, ops: seq<Op>, junk: nat -> Byte, fill: nat -> Byte)
    returns (answers: seq<Answer>, ghost files: seq<File>)
    requires s.Valid() && s.Whole() && forall i :: 0 <= i < |ops| ==> Small(ops[i], s.g)
    requires !s.cacheable || s.append || (s.seekable && Careful(ops))
    modifies s
    ensures s.Valid() && |answers| == |ops| && |files| == |ops| + 1 && files[0] == old(Plain(s)) && files[|ops|] == Plain(s)
    ensures forall i :: 0 <= i < |ops| ==> Serves(FlagsOf(s), files[i], ops[i], answers[i], files[i + 1])
  {
    hide Serves;
    answers, files := [], [Plain(s)];
    var i: nat := 0;
    while i < |ops|
      invariant i <= |ops| && |answers| == i && |files| == i + 1
      invariant s.Valid() && files[0] == old(Plain(s)) && files[i] == Plain(s)
      invariant s.Whole() || (s.seekable && (i < |ops| ==> Rewinds(ops[i])))
      invariant forall k :: 0 <= k < i ==> Serves(FlagsOf(s), files[k], ops[k], answers[k], files[k + 1])
    {
      var a := Call(s, ops[i], junk, fill);
      answers, files := answers + [a], files + [Plain(s)];
      i := i + 1;
    }
  }

  /**
   Two writes in a row through a whole buffer: the first is exact, and the second is exact iff
   the first left the buffer whole, that is, unused or with nothing new in its last sector. The
   first may not fill a buffered sector to its end.
   */
  method TwoWrites(s: Stream, p: seq<Byte>, q: seq<Byte>, junk: nat -> Byte, fill: nat -> Byte)
    returns (ghost first: View, ghost second: View)
    requires s.Valid() && s.Whole() && s.canWrite && !s.append && p != [] && q != []
    requires |p| + s.g < WORD32 && |q| + s.g < WORD32
    requires !(s.UsesBuffer() && s.sectorOffset + |p| == s.g)
    modifies s
    ensures s.Valid() && first == old(s.Before()) && first.buffer != []
    ensures Unharmed(first, old(s.offset), p, second.data)
    ensures second.base + second.offset == old(s.offset) + |p|
    ensures Unharmed(second, old(s.offset) + |p|, q, s.data) <==> KeepsWhole(first, s.cacheable, p)
  {
    hide Unharmed, KeepsWhole;
    first := s.Before();
    var r := s.Write(p, junk, fill);
    second := s.Before();
    r := s.Write(q, junk, fill);
  }
}
