/** What single reads and writes return and store, byte by byte, and which blocks the calls take and give back. */
module FsCalls {
  import opened FsSpec
  import opened FsInvariant
  import opened FsTheorems

  function Min(a: int, b: int): int {
    if a < b then a else b
  }

  /**
   A read returns what was asked for or what is left, whichever is less, unless the size is a block multiple that lies
   past the offset and before the end of the file: then it stops where the offset reaches the size.
   */
  lemma ReadAnswer(s: Fs, t: nat, fd: int, size: nat)
    requires Inv(s) && Readable(s, t, fd) && size <= MAX_TRANSFER
    ensures var e := RowOf(s, t, fd);
            var o := s.fdt[e];
            var bytes := s.dir[o.file].bytes;
            var (s', r) := ReadFd(s, t, fd, size);
            && r.Data?
            && |r.bytes| == (if size % BLOCK_SIZE == 0 && 0 < o.offset < size < |bytes| then size - o.offset
                             else Min(size, |bytes| - o.offset))
            && r.bytes == bytes[o.offset..o.offset + |r.bytes|]
            && s' == s.(fdt := s.fdt[e := o.(offset := o.offset + |r.bytes|)])
  {
    hide BlocksOk, SizesOk, NamesOk, RefsOk;
  }

  ghost predicate Writable(s: Fs, t: nat, fd: int) {
    && HasFd(s, t, fd)
    && 0 <= RowOf(s, t, fd) < |s.fdt|
    && var o := s.fdt[RowOf(s, t, fd)];
       && o.refs > 0 && o.mode != O_RDONLY && o.file < |s.dir| && s.dir[o.file].kind.Regular?
       && o.offset <= |s.dir[o.file].bytes|
  }

  /** Bytes of a write that find a place: all, or as many as there are up to the end of the last free block. */
  function Placed(s: Fs, e: nat, size: nat): int
    requires e < |s.fdt| && s.fdt[e].file < |s.dir|
  {
    Min(size, (|s.dir[s.fdt[e].file].chain| + |s.free|) * BLOCK_SIZE - s.fdt[e].offset)
  }

  /** Byte i of the buffer is at offset + i of the file for those that find a place, and every other byte is kept. */
  lemma WriteBytes(s: Fs, t: nat, fd: int, size: nat, buffer: seq<Byte>)
    requires Inv(s) && Writable(s, t, fd) && size <= MAX_TRANSFER && size <= |buffer|
    ensures var e := RowOf(s, t, fd);
            var o := s.fdt[e];
            var bytes := s.dir[o.file].bytes;
            var n := Placed(s, e, size);
            var (s', r) := WriteFd(s, t, fd, size, buffer);
            && 0 <= n <= size && r == Code(if n == size then size else -ENOSPC)
            && |s'.dir| == |s.dir|
            && var bytes' := s'.dir[o.file].bytes;
               && |bytes'| == (if o.offset + n <= |bytes| then |bytes| else o.offset + n)
               && (forall i :: o.offset <= i < o.offset + n ==> bytes'[i] == buffer[i - o.offset])
               && (forall i :: 0 <= i < |bytes| && !(o.offset <= i < o.offset + n) ==> bytes'[i] == bytes[i])
               && s'.procs == s.procs && s'.fdt == s.fdt[e := o.(offset := o.offset + n)]
  {
    hide Inv, Room, WriteFd, Stored, Blocks;
    var e := RowOf(s, t, fd);
    WriteIs(s, t, fd, size, buffer);
    StoredBytes(s, e, buffer[..Placed(s, e, size)]);
  }

  lemma WriteIs(s: Fs, t: nat, fd: int, size: nat, buffer: seq<Byte>)
    requires Inv(s) && Writable(s, t, fd) && size <= MAX_TRANSFER && size <= |buffer|
    ensures var e := RowOf(s, t, fd);
            var n := Placed(s, e, size);
            && |s.dir[s.fdt[e].file].chain| == Blocks(|s.dir[s.fdt[e].file].bytes|)
            && 0 <= n <= size && n <= Room(s, e)
            && WriteFd(s, t, fd, size, buffer) == (Stored(s, e, buffer[..n]), Code(if n == size then size else -ENOSPC))
  {
    hide BlocksOk, NamesOk, RefsOk, SizesOk, Stored, Blocks;
    var e := RowOf(s, t, fd);
    SlotFits(s, s.fdt[e].file);
    RoomIsLeft(s, e);
    assert buffer[..size][..Placed(s, e, size)] == buffer[..Placed(s, e, size)];
  }

  lemma StoredBytes(s: Fs, e: nat, data: seq<Byte>)
    requires e < |s.fdt| && s.fdt[e].file < |s.dir| && s.fdt[e].offset <= |s.dir[s.fdt[e].file].bytes|
    requires |s.dir[s.fdt[e].file].chain| == Blocks(|s.dir[s.fdt[e].file].bytes|) && |data| <= Room(s, e)
    ensures var o := s.fdt[e];
            var bytes := s.dir[o.file].bytes;
            var s' := Stored(s, e, data);
            && |s'.dir| == |s.dir|
            && var bytes' := s'.dir[o.file].bytes;
               && |bytes'| == (if o.offset + |data| <= |bytes| then |bytes| else o.offset + |data|)
               && (forall i :: o.offset <= i < o.offset + |data| ==> bytes'[i] == data[i - o.offset])
               && (forall i :: 0 <= i < |bytes| && !(o.offset <= i < o.offset + |data|) ==> bytes'[i] == bytes[i])
               && s'.procs == s.procs && s'.fdt == s.fdt[e := o.(offset := o.offset + |data|)]
  {
    hide Blocks, Room;
  }

  /**
   Reads of any positive sizes that start where the write did return the written bytes first; as many reads as there
   are written bytes return all of them.
   */
  lemma WriteReadBack(s: Fs, t: nat, fd: int, size: nat, buffer: seq<Byte>, u: nat, other: int, sizes: seq<nat>)
    requires Inv(s) && Writable(s, t, fd) && size <= MAX_TRANSFER && size <= |buffer|
    requires forall k :: 0 <= k < |sizes| ==> 0 < sizes[k] <= MAX_TRANSFER
    requires var s' := WriteFd(s, t, fd, size, buffer).0;
             && Readable(s', u, other)
             && s'.fdt[RowOf(s', u, other)].file == s.fdt[RowOf(s, t, fd)].file
             && s'.fdt[RowOf(s', u, other)].offset == s.fdt[RowOf(s, t, fd)].offset
    ensures var s' := WriteFd(s, t, fd, size, buffer).0;
            var n := Placed(s, RowOf(s, t, fd), size);
            && Inv(s') && 0 <= n <= size
            && var data := ReadMany(s', u, other, sizes).1;
               && data[..Min(n, |data|)] == buffer[..Min(n, |data|)]
               && (|sizes| >= n ==> |data| >= n)
  {
    hide Inv, WriteFd, ReadMany, Placed, Readable;
    var n := Placed(s, RowOf(s, t, fd), size);
    WriteHolds(s, t, fd, size, buffer);
    ReadsReturn(WriteFd(s, t, fd, size, buffer).0, u, other, sizes, buffer[..n]);
  }

  /** The bytes of file i from `offset` on are `data`. */
  ghost predicate Holds(s: Fs, i: nat, offset: nat, data: seq<Byte>) {
    && i < |s.dir| && offset + |data| <= |s.dir[i].bytes|
    && s.dir[i].bytes[offset..offset + |data|] == data
  }

  lemma WriteHolds(s: Fs, t: nat, fd: int, size: nat, buffer: seq<Byte>)
    requires Inv(s) && Writable(s, t, fd) && size <= MAX_TRANSFER && size <= |buffer|
    ensures var o := s.fdt[RowOf(s, t, fd)];
            var n := Placed(s, RowOf(s, t, fd), size);
            var s' := WriteFd(s, t, fd, size, buffer).0;
            Inv(s') && 0 <= n <= size && Holds(s', o.file, o.offset, buffer[..n])
  {
    hide Inv, WriteFd, Placed;
    WriteBytes(s, t, fd, size, buffer);
    WriteInv(s, t, fd, size, buffer);
  }

  /** Reads from where the file holds `data` return it, as far as they get. */
  lemma ReadsReturn(s: Fs, t: nat, fd: int, sizes: seq<nat>, data: seq<Byte>)
    requires Inv(s) && Readable(s, t, fd) && (forall k :: 0 <= k < |sizes| ==> 0 < sizes[k] <= MAX_TRANSFER)
    requires var o := s.fdt[RowOf(s, t, fd)]; Holds(s, o.file, o.offset, data)
    ensures var got := ReadMany(s, t, fd, sizes).1;
            && got[..Min(|data|, |got|)] == data[..Min(|data|, |got|)]
            && (|sizes| >= |data| ==> |got| >= |data|)
  {
    hide Inv, ReadMany;
    ReadsConcatenate(s, t, fd, sizes);
    var o := s.fdt[RowOf(s, t, fd)];
    SameBytes(s.dir[o.file].bytes, o.offset, ReadMany(s, t, fd, sizes).1, data);
  }

  lemma SameBytes(bytes: seq<Byte>, offset: nat, got: seq<Byte>, data: seq<Byte>)
    requires offset + |got| <= |bytes| && offset + |data| <= |bytes|
    requires got == bytes[offset..offset + |got|] && data == bytes[offset..offset + |data|]
    ensures got[..Min(|data|, |got|)] == data[..Min(|data|, |got|)]
  {
  }

  /** The same read in one call: all the written bytes, if the size of the write is no block multiple. */
  lemma WriteThenRead(s: Fs, t: nat, fd: int, size: nat, buffer: seq<Byte>, u: nat, other: int)
    requires Inv(s) && Writable(s, t, fd) && size <= MAX_TRANSFER && size <= |buffer|
    requires var (s', r) := WriteFd(s, t, fd, size, buffer);
             && r == Code(size)
             && Readable(s', u, other)
             && s'.fdt[RowOf(s', u, other)].file == s.fdt[RowOf(s, t, fd)].file
             && s'.fdt[RowOf(s', u, other)].offset == s.fdt[RowOf(s, t, fd)].offset
    ensures var s' := WriteFd(s, t, fd, size, buffer).0;
            var o := s.fdt[RowOf(s, t, fd)];
            && Inv(s') && o.file < |s'.dir|
            && ReadFd(s', u, other, size).1
               == Data(buffer[..if size % BLOCK_SIZE == 0 && 0 < o.offset < size < |s'.dir[o.file].bytes|
                                then size - o.offset else size])
  {
    hide Inv, WriteFd, ReadFd, Placed;
    WriteBytes(s, t, fd, size, buffer);
    WriteHolds(s, t, fd, size, buffer);
    ReadAnswer(WriteFd(s, t, fd, size, buffer).0, u, other, size);
  }

  // ---------------------------------------------------------------- blocks

  /** A new file takes the block that was freed longest ago. */
  lemma CreateTakesTheOldest(s: Fs, t: nat, path: Name, flags: int)
    requires t < |s.procs| && Lookup(s.dir, path) == |s.dir| && OpenFile(s, t, path, flags).0 != s
    ensures var (s', r) := OpenFile(s, t, path, flags);
            exists i :: 0 <= i < |s.dir| == |s'.dir| && s.dir[i].nRefs == -1 && s'.dir[i].name == path
                        && |s'.dir[i].chain| == 1 && s'.dir[i].chain + s'.free == s.free
                        && forall j :: 0 <= j < |s.dir| && j != i ==> s'.dir[j] == s.dir[j]
  {
    hide First;
    var s' := OpenFile(s, t, path, flags).0;
    var i := FreeSlot(s.dir);
    assert s'.dir[i].chain + s'.free == s.free;
  }

  /** Blocks of an unlinked file are taken again only after all that were free before; its slot keeps its access. */
  lemma UnlinkedBlocksComeLast(s: Fs, path: Name)
    requires UnlinkFile(s, path).1 == Code(0)
    ensures var i := Lookup(s.dir, path);
            var s' := UnlinkFile(s, path).0;
            && i < |s.dir| && s'.free[..|s.free|] == s.free && s'.free[|s.free|..] == s.dir[i].chain
            && |s'.free| == |s.free| + |s.dir[i].chain|
            && s'.dir[i].allow == s.dir[i].allow && s'.fdt == s.fdt && s'.procs == s.procs && |s'.dir| == |s.dir|
            && forall j :: 0 <= j < |s.dir| && j != i ==> s'.dir[j] == s.dir[j]
  {
  }
}
