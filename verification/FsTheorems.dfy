/** The boot state, and what single reads and writes achieve. */
module FsTheorems {
  import opened Counting
  import opened Division
  import opened FsSpec
  import opened FsInvariant

  // ---------------------------------------------------------------- boot

  /** init_filesystem and init_task0: two device files, three descriptors in task 0 over two rows. */
  function Boot(blocks: nat, files: nat, rows: nat, tasks: nat, fds: nat): Fs
    requires files >= 2 && rows >= 2 && tasks >= 1 && fds >= 3
  {
    Fs(blocks, seq(blocks, (b: nat) => b as int),
       [File(KEYBOARD_NAME, Keyboard, O_RDONLY, 1, [], []), File(DISPLAY_NAME, Display, O_WRONLY, 1, [], [])]
       + seq(files - 2, _ => File(NO_NAME, Unused, 0, -1, [], [])),
       [Row(1, O_RDONLY, 0, 0), Row(1, O_WRONLY, 0, 1)] + seq(rows - 2, _ => Row(0, 0, 0, 0)),
       [[0, 1, 1] + seq(fds - 3, _ => -1)] + seq(tasks - 1, _ => []))
  }

  lemma {:induction false} RefSumPad(fdt: seq<Row>, pad: seq<Row>, i: nat)
    requires forall e :: 0 <= e < |pad| ==> pad[e].refs == 0
    ensures RefSum(fdt + pad, i) == RefSum(fdt, i)
  {
    if pad == [] {
      assert fdt + pad == fdt;
    } else {
      var n := |pad| - 1;
      assert (fdt + pad)[..|fdt| + n] == fdt + pad[..n];
      RefSumPad(fdt, pad[..n], i);
    }
  }

  lemma {:induction false} NamedPad(procs: seq<seq<int>>, pad: seq<seq<int>>, e: int)
    requires forall t :: 0 <= t < |pad| ==> pad[t] == []
    ensures Named(procs + pad, e) == Named(procs, e)
  {
    if pad == [] {
      assert procs + pad == procs;
    } else {
      var n := |pad| - 1;
      assert (procs + pad)[..|procs| + n] == procs + pad[..n];
      NamedPad(procs, pad[..n], e);
    }
  }

  lemma BootRefs(pad: seq<Row>, i: nat)
    requires forall e :: 0 <= e < |pad| ==> pad[e].refs == 0
    ensures RefSum([Row(1, O_RDONLY, 0, 0), Row(1, O_WRONLY, 0, 1)] + pad, i) == if i < 2 then 1 else 0
  {
    var r0, r1 := Row(1, O_RDONLY, 0, 0), Row(1, O_WRONLY, 0, 1);
    RefSumPad([r0, r1], pad, i);
    assert [r0, r1][..1] == [r0] && [r0][..0] == [];
    assert RefSum([r0], i) == if i == 0 then 1 else 0;
  }

  lemma BootNamed(pad: seq<int>, others: seq<seq<int>>, e: nat)
    requires forall k :: 0 <= k < |pad| ==> pad[k] == -1
    requires forall t :: 0 <= t < |others| ==> others[t] == []
    ensures Named([[0, 1, 1] + pad] + others, e) == if e == 0 then 1 else if e == 1 then 2 else 0
  {
    var mine: seq<int> := [0, 1, 1] + pad;
    NamedPad([mine], others, e);
    assert [mine][..0] == [];
    CountAppend([0, 1, 1], pad, e);
    CountIn(pad, e);
    assert [0, 1, 1][..2] == [0, 1] && [0, 1][..1] == [0] && [0][..0] == [];
    assert Count([0], e) == (if e == 0 then 1 else 0) ;
    assert Count([0, 1], e) == Count([0], e) + if e == 1 then 1 else 0;
    assert Total([mine], e) == Total([mine][..0], e) + Count(mine, e);
  }

  lemma BootInv(blocks: nat, files: nat, rows: nat, tasks: nat, fds: nat)
    requires files >= 2 && rows >= 2 && tasks >= 1 && fds >= 3
    ensures Inv(Boot(blocks, files, rows, tasks, fds))
  {
    var s := Boot(blocks, files, rows, tasks, fds);
    assert BlocksOk(s.blocks, s.free, s.dir) by {
      forall b | 0 <= b < blocks ensures b in s.free {
        assert s.free[b] == b;
      }
    }
    hide BlocksOk;
    forall i ensures RefSum(s.fdt, i) == if i < 2 then 1 else 0 {
      BootRefs(s.fdt[2..], i);
      assert s.fdt == [s.fdt[0], s.fdt[1]] + s.fdt[2..];
    }
    forall e: nat ensures Named(s.procs, e) == if e == 0 then 1 else if e == 1 then 2 else 0 {
      BootNamed(s.procs[0][3..], s.procs[1..], e);
      assert s.procs[0] == [0, 1, 1] + s.procs[0][3..] && s.procs == [s.procs[0]] + s.procs[1..];
    }
    hide RefSum, Named;
    assert s.dir[0].name.text[0] == 'K' && s.dir[1].name.text[0] == 'D';
    assert NamesOk(s.dir);
    assert RefsOk(s.dir, s.fdt, s.procs);
  }

  /**
   Row 1 of the boot table counts one reference for two descriptors: task 0 closes descriptor 1 and the next open
   call takes the row that descriptor 2 still names.
   */
  lemma BootRowIsReused(blocks: nat, files: nat, rows: nat, tasks: nat, fds: nat)
    requires files >= 2 && rows >= 2 && tasks >= 1 && fds >= 3
    ensures var s := Boot(blocks, files, rows, tasks, fds);
            && Inv(s) && HasFd(s, 0, 1) && !CloseIsSafe(s, RowOf(s, 0, 1)) && RowsInRange(s.fdt, |s.dir|)
            && var s' := CloseFd(s, 0, 1).0; FreeRow(s'.fdt) == 1 && HasFd(s', 0, 2) && RowOf(s', 0, 2) == 1
  {
    var s := Boot(blocks, files, rows, tasks, fds);
    BootInv(blocks, files, rows, tasks, fds);
    BootShape(blocks, files, rows, tasks, fds);
    BootNamed(s.procs[0][3..], s.procs[1..], 1);
    assert s.procs[0] == [0, 1, 1] + s.procs[0][3..] && s.procs == [s.procs[0]] + s.procs[1..];
    RowsAreInRange(s);
    assert FdsOk(s.procs[0], rows);
    hide Inv, Boot, Total;
    var s' := CloseFd(s, 0, 1).0;
    assert s'.fdt[0].refs == 1 && s'.fdt[1].refs == 0;
    assert s'.procs[0] == s.procs[0][1 := -1];
  }

  /** The boot tables, entry by entry. */
  lemma BootShape(blocks: nat, files: nat, rows: nat, tasks: nat, fds: nat)
    requires files >= 2 && rows >= 2 && tasks >= 1 && fds >= 3
    ensures var s := Boot(blocks, files, rows, tasks, fds);
            && s.blocks == blocks && |s.free| == blocks && (forall b :: 0 <= b < blocks ==> s.free[b] == b)
            && |s.dir| == files && s.dir[0] == File(KEYBOARD_NAME, Keyboard, O_RDONLY, 1, [], [])
            && s.dir[1] == File(DISPLAY_NAME, Display, O_WRONLY, 1, [], [])
            && (forall i :: 2 <= i < files ==> s.dir[i] == File(NO_NAME, Unused, 0, -1, [], []))
            && |s.fdt| == rows && s.fdt[0] == Row(1, O_RDONLY, 0, 0) && s.fdt[1] == Row(1, O_WRONLY, 0, 1)
            && (forall e :: 2 <= e < rows ==> s.fdt[e] == Row(0, 0, 0, 0))
            && |s.procs| == tasks && |s.procs[0]| == fds && s.procs[0][0] == 0 && s.procs[0][1] == 1
            && s.procs[0][2] == 1
            && (forall fd :: 3 <= fd < fds ==> s.procs[0][fd] == -1)
            && (forall t :: 1 <= t < tasks ==> s.procs[t] == [])
  {
  }

  /** It happens from boot: the access field of an unused slot is zero, and so are the flags of such a call. */
  lemma BlankOpenAtBoot(blocks: nat, files: nat, rows: nat, tasks: nat, fds: nat)
    requires files >= 3 && rows >= 3 && tasks >= 1 && fds >= 4
    ensures var s := Boot(blocks, files, rows, tasks, fds);
            OpensBlank(s, 0, 0) && Inv(s) && !Inv(OpenFile(s, 0, NO_NAME, 0).0)
  {
    var s := Boot(blocks, files, rows, tasks, fds);
    BootInv(blocks, files, rows, tasks, fds);
    BootShape(blocks, files, rows, tasks, fds);
    hide Inv, Boot;
    assert s.fdt[2].refs == 0 && s.procs[0][3] == -1;
    assert s.dir[2].name == NO_NAME && s.dir[0].name.text[0] == 'K' && s.dir[1].name.text[0] == 'D';
    assert Lookup(s.dir, NO_NAME) == 2;
    BlankOpen(s, 0, 0);
  }

  // ---------------------------------------------------------------- reads

  /** The descriptor after reads of the given sizes, and all the bytes they returned. */
  ghost function ReadMany(s: Fs, t: nat, fd: int, sizes: seq<nat>): (r: (Fs, seq<Byte>))
    requires Inv(s)
    decreases |sizes|
  {
    if sizes == [] then (s, [])
    else
      ReadInv(s, t, fd, sizes[0]);
      var (s1, r) := ReadFd(s, t, fd, sizes[0]);
      var (s2, rest) := ReadMany(s1, t, fd, sizes[1..]);
      (s2, (if r.Data? then r.bytes else []) + rest)
  }

  ghost predicate Readable(s: Fs, t: nat, fd: int) {
    && HasFd(s, t, fd)
    && 0 <= RowOf(s, t, fd) < |s.fdt|
    && var o := s.fdt[RowOf(s, t, fd)];
       && o.refs > 0 && o.mode != O_WRONLY && o.file < |s.dir| && s.dir[o.file].kind.Regular?
       && o.offset <= |s.dir[o.file].bytes|
  }

  /** `data` is the next stretch of the file, the offset moved past it, and `n` reads made progress or met the end. */
  ghost predicate Delivered(s: Fs, e: nat, n: nat, s': Fs, data: seq<Byte>)
    requires e < |s.fdt| && s.fdt[e].file < |s.dir|
  {
    var o := s.fdt[e];
    var bytes := s.dir[o.file].bytes;
    && o.offset + |data| <= |bytes|
    && data == bytes[o.offset..o.offset + |data|]
    && s' == s.(fdt := s.fdt[e := o.(offset := o.offset + |data|)])
    && (|data| >= n || o.offset + |data| == |bytes|)
  }

  lemma ReadOnce(s: Fs, t: nat, fd: int, size: nat)
    requires Inv(s) && Readable(s, t, fd) && 0 < size <= MAX_TRANSFER
    ensures var (s', r) := ReadFd(s, t, fd, size);
            && r.Data? && |r.bytes| <= size && Inv(s') && Readable(s', t, fd)
            && Delivered(s, RowOf(s, t, fd), 1, s', r.bytes)
  {
    ReadInv(s, t, fd, size);
    hide BlocksOk, SizesOk, NamesOk, RefsOk;
  }

  lemma DeliveredTwice(s: Fs, e: nat, n1: nat, s1: Fs, d1: seq<Byte>, n2: nat, s2: Fs, d2: seq<Byte>)
    requires e < |s.fdt| && s.fdt[e].file < |s.dir| && Delivered(s, e, n1, s1, d1) && Delivered(s1, e, n2, s2, d2)
    ensures Delivered(s, e, n1 + n2, s2, d1 + d2)
  {
    var o := s.fdt[e];
    var bytes := s.dir[o.file].bytes;
    assert d1 + d2 == bytes[o.offset..o.offset + |d1 + d2|];
    assert s1.fdt[e := s2.fdt[e]] == s.fdt[e := s2.fdt[e]];
  }

  /**
   Reads of any positive sizes return the file's bytes in order, without gap or repetition, and as many
   reads as there are bytes left return all of them.
   */
  lemma {:induction false} ReadsConcatenate(s: Fs, t: nat, fd: int, sizes: seq<nat>)
    requires Inv(s) && Readable(s, t, fd)
    requires forall k :: 0 <= k < |sizes| ==> 0 < sizes[k] <= MAX_TRANSFER
    ensures var (s', data) := ReadMany(s, t, fd, sizes);
            Delivered(s, RowOf(s, t, fd), |sizes|, s', data)
    decreases |sizes|
  {
    hide Inv, ReadFd, Delivered;
    var e := RowOf(s, t, fd);
    if sizes == [] {
      NothingDelivered(s, e);
    } else {
      ReadOnce(s, t, fd, sizes[0]);
      var (s1, r) := ReadFd(s, t, fd, sizes[0]);
      ReadsConcatenate(s1, t, fd, sizes[1..]);
      var (s2, rest) := ReadMany(s1, t, fd, sizes[1..]);
      SameDescriptors(s, t, fd, sizes[0]);
      DeliveredTwice(s, e, 1, s1, r.bytes, |sizes| - 1, s2, rest);
    }
  }

  lemma NothingDelivered(s: Fs, e: nat)
    requires e < |s.fdt| && s.fdt[e].file < |s.dir| && s.fdt[e].offset <= |s.dir[s.fdt[e].file].bytes|
    ensures Delivered(s, e, 0, s, [])
  {
    assert s.fdt[e := s.fdt[e]] == s.fdt;
  }

  lemma SameDescriptors(s: Fs, t: nat, fd: int, size: int)
    requires Inv(s)
    ensures ReadFd(s, t, fd, size).0.procs == s.procs
  {
    hide Inv;
  }

  // ---------------------------------------------------------------- writes

  /**
   A write stores the longest prefix that fits in the file's blocks and the free ones. It fails exactly when
   that is not all of the data, and then the disk is full to the last byte.
   */
  lemma WriteOutcome(s: Fs, t: nat, fd: int, data: seq<Byte>)
    requires Inv(s) && HasFd(s, t, fd) && 0 <= RowOf(s, t, fd) < |s.fdt| && |data| <= MAX_TRANSFER
    requires var o := s.fdt[RowOf(s, t, fd)];
             && o.refs > 0 && o.mode != O_RDONLY && o.file < |s.dir| && s.dir[o.file].kind.Regular?
             && o.offset <= |s.dir[o.file].bytes|
    ensures var o := s.fdt[RowOf(s, t, fd)];
            var f := s.dir[o.file];
            var capacity := (|f.chain| + |s.free|) * BLOCK_SIZE;
            var (s', r) := WriteFd(s, t, fd, |data|, data);
            var f' := s'.dir[o.file];
            && (r == Code(|data|) <==> o.offset + |data| <= capacity)
            && (r != Code(|data|) ==>
                  r == Code(-ENOSPC) && s'.free == [] && |f'.bytes| == capacity == |f'.chain| * BLOCK_SIZE)
            && f'.bytes == Splice(f.bytes, o.offset,
               data[..if o.offset + |data| <= capacity then |data| else capacity - o.offset])
            && f'.chain + s'.free == f.chain + s.free
            && (forall i :: 0 <= i < |s.dir| && i != o.file ==> s'.dir[i] == s.dir[i])
  {
    hide BlocksOk, NamesOk, RefsOk, SizesOk;
    var e := RowOf(s, t, fd);
    var f := s.dir[s.fdt[e].file];
    SlotFits(s, s.fdt[e].file);
    hide Blocks, Splice, Stored;
    RoomIsLeft(s, e);
    assert data[..|data|] == data;
    if |data| <= Room(s, e) {
      TakesBlocks(s, e, data);
    } else {
      TakesBlocks(s, e, data[..Room(s, e)]);
    }
  }

  lemma SlotFits(s: Fs, i: nat)
    requires Inv(s) && i < |s.dir| && s.dir[i].kind.Regular?
    ensures |s.dir[i].chain| == Blocks(|s.dir[i].bytes|)
  {
    hide BlocksOk, NamesOk, RefsOk;
  }

  /** A write of as many bytes as there is room for ends with the last byte of the last free block. */
  lemma FillsDisk(size: nat, offset: nat, n: nat, free: nat)
    requires offset <= size && offset + n == (Blocks(size) + free) * BLOCK_SIZE
    ensures size <= offset + n && Blocks(offset + n) == Blocks(size) + free
  {
    BlocksBound(size);
    hide Blocks, BlockOf;
    var all := Blocks(size) + free;
    Grows(BLOCK_SIZE, Blocks(size), all);
    Grows(BLOCK_SIZE, all - 1, all);
    BlocksIs(offset + n, all);
  }

  /** A write that fits takes some blocks off the free list, and all of them if it fills the disk. */
  lemma TakesBlocks(s: Fs, e: nat, data: seq<Byte>)
    requires e < |s.fdt| && s.fdt[e].file < |s.dir| && s.fdt[e].offset <= |s.dir[s.fdt[e].file].bytes|
    requires |s.dir[s.fdt[e].file].chain| == Blocks(|s.dir[s.fdt[e].file].bytes|) && |data| <= Room(s, e)
    ensures var f := s.dir[s.fdt[e].file];
            var s' := Stored(s, e, data);
            var f' := s'.dir[s.fdt[e].file];
            && f'.bytes == Splice(f.bytes, s.fdt[e].offset, data) && f'.chain + s'.free == f.chain + s.free
            && (forall i :: 0 <= i < |s.dir| && i != s.fdt[e].file ==> s'.dir[i] == s.dir[i])
            && (|data| == Room(s, e) ==>
                  s'.free == [] && |f'.bytes| == (|f.chain| + |s.free|) * BLOCK_SIZE
                    && |f'.chain| == |f.chain| + |s.free|)
  {
    var f := s.dir[s.fdt[e].file];
    var bytes := Splice(f.bytes, s.fdt[e].offset, data);
    var all := |f.chain| + |s.free|;
    hide Blocks, Splice;
    StoredFits(|f.bytes|, s.fdt[e].offset, |data|, |s.free|);
    if |data| == Room(s, e) {
      FillsDisk(|f.bytes|, s.fdt[e].offset, |data|, |s.free|);
    }
    hide Room;
    var more := Blocks(|bytes|) - |f.chain|;
    assert s.free == s.free[..more] + s.free[more..];
    assert (f.chain + s.free[..more]) + s.free[more..] == f.chain + s.free;
  }

  // ---------------------------------------------------------------- where a write starts

  /** The loop state of sys_write_file: the chain index and byte where it will store, and the sizes it keeps. */
  datatype Cursor = Cursor(size: nat, offset: nat, index: nat, byte: nat, nBlocks: nat)

  function Start(size: nat, offset: nat): Cursor {
    Cursor(size, offset, Blocks(size) - 1, ByteOf(offset), Blocks(size))
  }

  /** A new block is taken whenever the size is a positive multiple of the block size. */
  function Grow(c: Cursor): Cursor {
    if ByteOf(c.size) == 0 && c.size != 0 then c.(index := c.nBlocks, byte := 0, nBlocks := c.nBlocks + 1) else c
  }

  function StoreOne(c: Cursor): Cursor {
    var g := Grow(c);
    g.(offset := g.offset + 1, size := if g.size < g.offset + 1 then g.size + 1 else g.size, byte := g.byte + 1)
  }

  function Cursors(size: nat, offset: nat, i: nat): Cursor {
    if i == 0 then Start(size, offset) else StoreOne(Cursors(size, offset, i - 1))
  }

  /** The block of the chain and the byte in it that receive the i-th byte of a write. */
  function Place(size: nat, offset: nat, i: nat): (nat, nat) {
    var g := Grow(Cursors(size, offset, i));
    (g.index, g.byte)
  }

  ghost predicate InContract(c: Cursor) {
    && c.offset <= c.size && InLastBlock(c.offset, c.size)
    && c.nBlocks == Blocks(c.size) && c.index == c.nBlocks - 1
    && (c.size == 0 || ByteOf(c.size) != 0 ==> c.byte == ByteOf(c.offset))
  }

  /** Block arithmetic of one byte stored at an offset in the last block. */
  lemma OneMore(size: nat, offset: nat)
    requires offset <= size && InLastBlock(offset, size)
    ensures var size' := if offset < size then size else size + 1;
            && (if ByteOf(size) == 0 && size != 0 then
                  offset == size && Blocks(size') == Blocks(size) + 1 && BlockOf(offset) == Blocks(size)
                else Blocks(size') == Blocks(size) && BlockOf(offset) == Blocks(size) - 1)
            && InLastBlock(offset + 1, size')
            && (ByteOf(size') != 0 ==> ByteOf(offset + 1) == ByteOf(offset) + 1)
  {
    hide Blocks, BlockOf, ByteOf;
    Position(size);
    Position(offset);
    BlocksAt(BlockOf(size), ByteOf(size));
    NextPosition(offset);
  }

  lemma StoreOneInContract(c: Cursor)
    requires InContract(c)
    ensures InContract(StoreOne(c))
  {
    hide Blocks, BlockOf, ByteOf;
    OneMore(c.size, c.offset);
    NextPosition(c.offset);
  }

  lemma {:induction false} CursorInContract(size: nat, offset: nat, i: nat)
    requires offset <= size && InLastBlock(offset, size)
    ensures InContract(Cursors(size, offset, i)) && Cursors(size, offset, i).offset == offset + i
  {
    if i > 0 {
      CursorInContract(size, offset, i - 1);
      StoreOneInContract(Cursors(size, offset, i - 1));
    }
  }

  /** A write of at least one byte goes where it should exactly when the offset is in the block of the file's end. */
  lemma WriteInPlaceIff(size: nat, offset: nat, n: nat)
    requires offset <= size && n > 0
    ensures (forall i :: 0 <= i < n ==> Place(size, offset, i) == (BlockOf(offset + i), ByteOf(offset + i)))
            <==> InLastBlock(offset, size)
  {
    hide Blocks, BlockOf, ByteOf;
    if InLastBlock(offset, size) {
      forall i | 0 <= i < n ensures Place(size, offset, i) == (BlockOf(offset + i), ByteOf(offset + i)) {
        CursorInContract(size, offset, i);
        PlaceInContract(Cursors(size, offset, i));
      }
    } else {
      FirstPlace(size, offset);
    }
  }

  lemma PlaceInContract(c: Cursor)
    requires InContract(c)
    ensures Grow(c).index == BlockOf(c.offset) && Grow(c).byte == ByteOf(c.offset)
  {
    hide Blocks, BlockOf, ByteOf;
    Position(c.size);
    Position(c.offset);
    BlocksAt(BlockOf(c.size), ByteOf(c.size));
  }

  /** The first byte always goes to the block of the file's end. */
  lemma FirstPlace(size: nat, offset: nat)
    ensures Place(size, offset, 0).0 == BlockOf(size)
  {
    hide Blocks, BlockOf, ByteOf;
    Position(size);
    BlocksAt(BlockOf(size), ByteOf(size));
  }

  lemma {:induction false} CursorOutOfContract(size: nat, offset: nat, i: nat)
    requires ByteOf(size) != 0 && offset + i <= size
    ensures Cursors(size, offset, i) == Cursor(size, offset + i, Blocks(size) - 1, ByteOf(offset) + i, Blocks(size))
  {
    hide Blocks, BlockOf, ByteOf;
    if i > 0 {
      CursorOutOfContract(size, offset, i - 1);
    }
  }

  /** Any other write that is long enough leaves its block: byte BLOCK_SIZE of a block belongs to its neighbour. */
  lemma MisplacedWriteLeavesItsBlock(size: nat, offset: nat)
    requires offset <= size && !InLastBlock(offset, size) && ByteOf(size) != 0
    ensures Place(size, offset, BLOCK_SIZE - ByteOf(offset)) == (BlockOf(size), BLOCK_SIZE)
  {
    hide Blocks, BlockOf, ByteOf;
    Position(size);
    Position(offset);
    if BlockOf(offset) > BlockOf(size) {
      Grows(BLOCK_SIZE, BlockOf(size), BlockOf(offset));
    } else {
      Grows(BLOCK_SIZE, BlockOf(offset), BlockOf(size));
    }
    BlocksAt(BlockOf(size), ByteOf(size));
    CursorOutOfContract(size, offset, BLOCK_SIZE - ByteOf(offset));
  }

  lemma {:induction false} CursorAtBoundary(size: nat, offset: nat, i: nat)
    requires size > 0 && ByteOf(size) == 0 && offset + i <= size
    ensures var c := Cursors(size, offset, i); c.size == size && c.offset == offset + i && c.nBlocks == Blocks(size) + i
  {
    hide Blocks, BlockOf, ByteOf;
    if i > 0 {
      CursorAtBoundary(size, offset, i - 1);
    }
  }

  /** If the file ends with a full block, each byte up to the file's end goes to the start of a new block of its own. */
  lemma MisplacedWriteTakesABlockPerByte(size: nat, offset: nat, i: nat)
    requires offset + i < size && !InLastBlock(offset, size) && ByteOf(size) == 0
    ensures Place(size, offset, i) == (Blocks(size) + i, 0)
  {
    hide Blocks, BlockOf, ByteOf;
    CursorAtBoundary(size, offset, i);
  }
}
