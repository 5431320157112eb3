/**
 The file system calls as a state machine (zeos/sys.c, zeos/filesystem.c, zeos/devices.c).

 A state holds what the tables mean: the free list, for each directory slot the chain of blocks and
 the bytes stored in it, the table of open files, and for each task the rows its descriptors name.
 The imperative code of FileSystem.dfy is proved to compute exactly these steps.
 */
module FsSpec {
  import opened Counting
  import opened Division

  /** Any positive size will do; the kernel is built with 256. */
  const BLOCK_SIZE: Size
  const MAX_NAME_LENGTH: nat := 10
  const MAX_TRANSFER: nat := 20 * 0x1000 - 1024

  const O_RDONLY: int := 1
  const O_WRONLY: int := 2
  const O_RDWR: int := 3
  const O_CREAT: int := 4
  const O_EXCL: int := 8

  const ENOENT: int := 2
  const EBADF: int := 9
  const EACCES: int := 13
  const EBUSY: int := 16
  const EEXIST: int := 17
  const EINVAL: int := 22
  const ENFILE: int := 23
  const EMFILE: int := 24
  const EFBIG: int := 27
  const ENOSPC: int := 28
  const ENAMETOOLONG: int := 36
  const ENOSYS: int := 38

  type Byte = bv8

  /** A C string used as a path or stored in a directory slot. */
  datatype Name = Name(text: string)

  const NO_NAME := Name("")
  const KEYBOARD_NAME := Name("KEYBOARD")
  const DISPLAY_NAME := Name("DISPLAY")

  /** Which routines a directory slot's operations table holds. */
  datatype Kind = Unused | Keyboard | Display | Regular

  /** A directory slot; `nRefs == -1` marks it free. */
  datatype File = File(name: Name, kind: Kind, allow: int, nRefs: int, chain: seq<int>, bytes: seq<Byte>)

  /** A row of the table of open files. */
  datatype Row = Row(refs: int, mode: int, offset: nat, file: nat)

  /** `procs[t][fd]` is the row named by descriptor `fd` of task `t`, or -1; a dead task has no descriptors. */
  datatype Fs = Fs(blocks: nat, free: seq<int>, dir: seq<File>, fdt: seq<Row>, procs: seq<seq<int>>)

  /** What a call returns: a code, the bytes read, or whatever the device driver says. */
  datatype Reply = Code(code: int) | Data(bytes: seq<Byte>) | Driver

  datatype Op =
    | Open(t: nat, path: Name, flags: int)
    | Dup(t: nat, fd: int)
    | Close(t: nat, fd: int)
    | Fork(t: nat, child: nat)
    | Exit(t: nat)
    | Unlink(path: Name)
    | Read(t: nat, fd: int, size: int)
    | Write(t: nat, fd: int, size: int, buffer: seq<Byte>)

  // ---------------------------------------------------------------- table scans

  /** The index of the first element that satisfies p, or the length: every table scan of the kernel. */
  function First<T>(s: seq<T>, p: T -> bool): (i: nat)
    ensures i <= |s|
    ensures forall j :: 0 <= j < i ==> !p(s[j])
    ensures i < |s| ==> p(s[i])
  {
    if s == [] then 0
    else if p(s[0]) then 0
    else
      assert forall j :: 1 <= j < |s| ==> s[j] == s[1..][j - 1];
      1 + First(s[1..], p)
  }

  function Lookup(dir: seq<File>, path: Name): (i: nat)
    ensures i <= |dir|
    ensures forall j :: 0 <= j < i ==> dir[j].name != path
    ensures i < |dir| ==> dir[i].name == path
  {
    First(dir, (f: File) => f.name == path)
  }

  function FreeSlot(dir: seq<File>): (i: nat)
    ensures i <= |dir|
    ensures forall j :: 0 <= j < i ==> dir[j].nRefs != -1
    ensures i < |dir| ==> dir[i].nRefs == -1
  {
    First(dir, (f: File) => f.nRefs == -1)
  }

  function FreeRow(fdt: seq<Row>): (e: nat)
    ensures e <= |fdt|
    ensures forall j :: 0 <= j < e ==> fdt[j].refs > 0
    ensures e < |fdt| ==> fdt[e].refs <= 0
  {
    First(fdt, (o: Row) => o.refs <= 0)
  }

  function FreeFd(fds: seq<int>): (fd: nat)
    ensures fd <= |fds|
    ensures forall j :: 0 <= j < fd ==> fds[j] != -1
    ensures fd < |fds| ==> fds[fd] == -1
  {
    First(fds, (e: int) => e == -1)
  }

  // ---------------------------------------------------------------- the invariant

  /** The block of a file that holds position `pos`, counted from 0, and the byte of that block. */
  function BlockOf(pos: nat): nat {
    pos / BLOCK_SIZE
  }

  function ByteOf(pos: nat): (byte: nat)
    ensures byte < BLOCK_SIZE
  {
    pos % BLOCK_SIZE
  }

  lemma Position(pos: nat)
    ensures pos == BLOCK_SIZE * BlockOf(pos) + ByteOf(pos)
  {
  }

  lemma PositionIs(pos: nat, q: nat, r: nat)
    requires pos == BLOCK_SIZE * q + r && r < BLOCK_SIZE
    ensures BlockOf(pos) == q && ByteOf(pos) == r
  {
    Unique(BLOCK_SIZE, pos, q, r);
  }

  lemma NextPosition(pos: nat)
    ensures if ByteOf(pos) + 1 < BLOCK_SIZE then BlockOf(pos + 1) == BlockOf(pos) && ByteOf(pos + 1) == ByteOf(pos) + 1
            else BlockOf(pos + 1) == BlockOf(pos) + 1 && ByteOf(pos + 1) == 0
  {
    Successor(BLOCK_SIZE, pos);
  }

  /** Blocks that hold a file of this size: one even for the empty file. */
  function Blocks(size: nat): nat {
    if size == 0 then 1 else BlockOf(size + BLOCK_SIZE - 1)
  }

  /** So many blocks hold the file, and one less do not. */
  lemma BlocksBound(size: nat)
    ensures Blocks(size) >= 1 && size <= BLOCK_SIZE * Blocks(size)
    ensures if size == 0 then Blocks(size) == 1 else BLOCK_SIZE * (Blocks(size) - 1) < size
  {
    hide BlockOf, ByteOf;
    if size > 0 {
      var q := BlockOf(size + BLOCK_SIZE - 1);
      Position(size + BLOCK_SIZE - 1);
      Distribute(BLOCK_SIZE, q, 1);
    }
  }

  /** That determines the number of blocks. */
  lemma BlocksIs(size: nat, k: nat)
    requires k > 0 && size <= BLOCK_SIZE * k && (BLOCK_SIZE * (k - 1) < size || k == 1)
    ensures Blocks(size) == k
  {
    hide BlockOf, ByteOf;
    if size > 0 {
      Distribute(BLOCK_SIZE, k, 1);
      PositionIs(size + BLOCK_SIZE - 1, k, size + BLOCK_SIZE - 1 - BLOCK_SIZE * k);
    }
  }

  lemma BlocksFit(size: nat, k: nat)
    requires k > 0 && size <= BLOCK_SIZE * k
    ensures 0 < Blocks(size) <= k
  {
    BlocksBound(size);
    hide Blocks;
    if Blocks(size) > k {
      Grows(BLOCK_SIZE, k, Blocks(size) - 1);
    }
  }

  lemma BlocksGrow(a: nat, b: nat)
    requires a <= b
    ensures Blocks(a) <= Blocks(b)
  {
    BlocksBound(b);
    BlocksFit(a, Blocks(b));
  }

  /** A size of q full blocks and r more bytes. */
  lemma BlocksAt(q: nat, r: nat)
    requires r < BLOCK_SIZE
    ensures BlockOf(BLOCK_SIZE * q + r) == q && ByteOf(BLOCK_SIZE * q + r) == r
    ensures Blocks(BLOCK_SIZE * q + r) == if r == 0 && q > 0 then q else q + 1
    ensures Blocks(BLOCK_SIZE * q + r + 1) == q + 1
  {
    hide Blocks, BlockOf, ByteOf;
    PositionIs(BLOCK_SIZE * q + r, q, r);
    var full := BLOCK_SIZE * q;
    assert BLOCK_SIZE * (q + 1) == full + BLOCK_SIZE by { Distribute(BLOCK_SIZE, q, -1); }
    BlocksIs(full + r + 1, q + 1);
    if r > 0 || q == 0 {
      BlocksIs(full + r, q + 1);
    } else {
      assert BLOCK_SIZE * (q - 1) == full - BLOCK_SIZE by { Distribute(BLOCK_SIZE, q, 1); }
      BlocksIs(full, q);
    }
  }

  ghost predicate ChainOk(blocks: nat, c: seq<int>) {
    && (forall b :: b in c ==> 0 <= b < blocks)
    && (forall i, j :: 0 <= i < j < |c| ==> c[i] != c[j])
  }

  /** The free list and the files' chains partition the disk, and each file has exactly the blocks it needs. */
  ghost predicate BlocksOk(blocks: nat, free: seq<int>, dir: seq<File>) {
    && ChainOk(blocks, free)
    && (forall i :: 0 <= i < |dir| ==> ChainOk(blocks, dir[i].chain))
    && (forall i, b :: 0 <= i < |dir| && b in dir[i].chain ==> b !in free)
    && (forall i, j, b :: 0 <= i < |dir| && 0 <= j < |dir| && i != j && b in dir[i].chain ==> b !in dir[j].chain)
    && (forall b :: 0 <= b < blocks ==> b in free || exists i :: 0 <= i < |dir| && b in dir[i].chain)
  }

  ghost predicate SizesOk(dir: seq<File>) {
    forall i :: 0 <= i < |dir| ==>
      if dir[i].kind.Regular? then |dir[i].chain| == Blocks(|dir[i].bytes|)
      else dir[i].chain == [] && dir[i].bytes == []
  }

  /**
   Live names are non-empty and pairwise distinct; exactly the unused slots are marked free; files are read and
   written.
  */
  ghost predicate NamesOk(dir: seq<File>) {
    && (forall i :: 0 <= i < |dir| && dir[i].kind.Regular? ==> dir[i].allow == O_RDWR)
    && (forall i :: 0 <= i < |dir| ==> dir[i].nRefs >= -1)
    && (forall i :: 0 <= i < |dir| ==> (dir[i].kind.Unused? <==> dir[i].nRefs == -1))
    && (forall i :: 0 <= i < |dir| ==> (dir[i].kind.Unused? <==> dir[i].name == NO_NAME))
    && (forall i, j :: 0 <= i < j < |dir| && dir[i].name != NO_NAME ==> dir[i].name != dir[j].name)
  }

  /** The references that open rows hold on directory slot i. */
  ghost function RefSum(fdt: seq<Row>, i: nat): int {
    if fdt == [] then 0
    else RefSum(fdt[..|fdt| - 1], i) + if fdt[|fdt| - 1].file == i then fdt[|fdt| - 1].refs else 0
  }

  /** How many descriptors of live tasks name row e. */
  ghost function Named(procs: seq<seq<int>>, e: int): nat {
    Total(procs, e)
  }

  ghost predicate RowOk(dir: seq<File>, o: Row) {
    && o.refs >= 0
    && o.file < |dir|
    && (o.refs > 0 ==> !dir[o.file].kind.Unused?)
    && (o.refs > 0 && dir[o.file].kind.Regular? ==> o.offset <= |dir[o.file].bytes|)
  }

  /** Two boot descriptors share row 1 although it counts one reference. */
  function Uncounted(e: int): nat {
    if e == 1 then 1 else 0
  }

  /** A row in use is never seen as free, and it counts every descriptor but the uncounted one. */
  ghost predicate NamedOk(fdt: seq<Row>, procs: seq<seq<int>>) {
    && (forall e :: 0 <= e < |fdt| && Named(procs, e) > 0 ==> fdt[e].refs > 0)
    && (forall e :: 0 <= e < |fdt| ==> Named(procs, e) <= fdt[e].refs + Uncounted(e))
  }

  ghost predicate FdsOk(fds: seq<int>, rows: nat) {
    forall fd :: 0 <= fd < |fds| ==> -1 <= fds[fd] < rows
  }

  ghost predicate RowsOk(dir: seq<File>, fdt: seq<Row>) {
    forall e :: 0 <= e < |fdt| ==> RowOk(dir, fdt[e])
  }

  /** A live slot counts exactly the references of the rows over it. */
  ghost predicate SumsOk(dir: seq<File>, fdt: seq<Row>) {
    forall i :: 0 <= i < |dir| ==> RefSum(fdt, i) == if dir[i].kind.Unused? then 0 else dir[i].nRefs
  }

  ghost predicate RefsOk(dir: seq<File>, fdt: seq<Row>, procs: seq<seq<int>>) {
    && RowsOk(dir, fdt)
    && SumsOk(dir, fdt)
    && (forall t :: 0 <= t < |procs| ==> FdsOk(procs[t], |fdt|))
    && NamedOk(fdt, procs)
  }

  ghost predicate Inv(s: Fs) {
    && BlocksOk(s.blocks, s.free, s.dir)
    && SizesOk(s.dir)
    && NamesOk(s.dir)
    && RefsOk(s.dir, s.fdt, s.procs)
  }

  // ---------------------------------------------------------------- the calls

  predicate Live(s: Fs, t: nat) {
    t < |s.procs| && s.procs[t] != []
  }

  predicate HasFd(s: Fs, t: nat, fd: int) {
    t < |s.procs| && 0 <= fd < |s.procs[t]| && s.procs[t][fd] != -1
  }

  /** The row behind a descriptor. */
  function RowOf(s: Fs, t: nat, fd: int): int
    requires HasFd(s, t, fd)
  {
    s.procs[t][fd]
  }

  predicate RowsInRange(fdt: seq<Row>, slots: nat) {
    forall e :: 0 <= e < |fdt| ==> fdt[e].file < slots
  }

  function AddRef(s: Fs, e: nat, d: int): (s': Fs)
    requires e < |s.fdt| && s.fdt[e].file < |s.dir|
  {
    var i := s.fdt[e].file;
    s.(fdt := s.fdt[e := s.fdt[e].(refs := s.fdt[e].refs + d)],
       dir := s.dir[i := s.dir[i].(nRefs := s.dir[i].nRefs + d)])
  }

  /** sys_open's last part: a fresh row for slot i becomes descriptor fd of task t. */
  function Attach(s: Fs, t: nat, fd: nat, row: nat, i: nat, mode: int): Fs
    requires t < |s.procs| && fd < |s.procs[t]| && row < |s.fdt| && i < |s.dir|
  {
    s.(fdt := s.fdt[row := Row(1, mode, 0, i)],
       dir := s.dir[i := s.dir[i].(nRefs := s.dir[i].nRefs + 1)],
       procs := s.procs[t := s.procs[t][fd := row]])
  }

  datatype Created = Refused(code: int) | Created(s: Fs, slot: nat)

  function CreateFile(s: Fs, path: Name): Created {
    var i := FreeSlot(s.dir);
    if i == |s.dir| then Refused(-ENFILE)
    else if |path.text| > MAX_NAME_LENGTH - 1 then Refused(-ENAMETOOLONG)
    else if s.free == [] then Refused(-ENOSPC)
    else Created(s.(free := s.free[1..],
                    dir := s.dir[i := File(path, Regular, O_RDWR, 0, s.free[..1], [])]), i)
  }

  function OpenFile(s: Fs, t: nat, path: Name, flags: int): (Fs, Reply)
    requires t < |s.procs|
  {
    var row := FreeRow(s.fdt);
    var fd := FreeFd(s.procs[t]);
    var i := Lookup(s.dir, path);
    if |path.text| > MAX_NAME_LENGTH then (s, Code(-ENAMETOOLONG))
    else if row == |s.fdt| then (s, Code(-ENFILE))
    else if fd == |s.procs[t]| then (s, Code(-EMFILE))
    else if flags < 0 || flags > 15 then (s, Code(-EINVAL))
    else if i == |s.dir| then
      if flags < O_CREAT then (s, Code(-ENOENT))
      else match CreateFile(s, path)
        case Refused(code) => (s, Code(code))
        case Created(s1, j) =>
          var mode := (if flags >= O_EXCL then flags - O_EXCL else flags) - O_CREAT;
          (Attach(s1, t, fd, row, j, mode), Code(fd))
    else if flags >= O_EXCL + O_CREAT then (s, Code(-EEXIST))
    else
      var mode := if flags >= O_CREAT then flags - O_CREAT else flags;
      if s.dir[i].allow != O_RDWR && mode != s.dir[i].allow then (s, Code(-EACCES))
      else (Attach(s, t, fd, row, i, mode), Code(fd))
  }

  function DupFd(s: Fs, t: nat, fd: int): (Fs, Reply)
    requires t < |s.procs| && FdsOk(s.procs[t], |s.fdt|) && RowsInRange(s.fdt, |s.dir|)
  {
    if !HasFd(s, t, fd) then (s, Code(-EBADF))
    else
      var e := RowOf(s, t, fd);
      var newFd := FreeFd(s.procs[t]);
      if newFd == |s.procs[t]| then (s, Code(-EMFILE))
      else (AddRef(s, e, 1).(procs := s.procs[t := s.procs[t][newFd := e]]), Code(newFd))
  }

  function CloseFd(s: Fs, t: nat, fd: int): (Fs, Reply)
    requires t < |s.procs| && FdsOk(s.procs[t], |s.fdt|) && RowsInRange(s.fdt, |s.dir|)
  {
    if !HasFd(s, t, fd) then (s, Code(-EBADF))
    else (AddRef(s, RowOf(s, t, fd), -1).(procs := s.procs[t := s.procs[t][fd := -1]]), Code(0))
  }

  /** sys_fork's loop: one more reference for each of the first k descriptors. */
  function Share(s: Fs, fds: seq<int>, k: nat): (s': Fs)
    requires k <= |fds| && FdsOk(fds, |s.fdt|) && RowsInRange(s.fdt, |s.dir|)
    ensures |s'.fdt| == |s.fdt| && |s'.dir| == |s.dir| && s'.procs == s.procs
    ensures forall e :: 0 <= e < |s.fdt| ==> s'.fdt[e].file == s.fdt[e].file
  {
    if k == 0 then s
    else
      var s1 := Share(s, fds, k - 1);
      if fds[k - 1] == -1 then s1 else AddRef(s1, fds[k - 1], 1)
  }

  function ForkFds(s: Fs, t: nat, child: nat): Fs
    requires t < |s.procs| && child < |s.procs| && FdsOk(s.procs[t], |s.fdt|) && RowsInRange(s.fdt, |s.dir|)
  {
    Share(s, s.procs[t], |s.procs[t]|).(procs := s.procs[child := s.procs[t]])
  }

  function UnlinkFile(s: Fs, path: Name): (Fs, Reply) {
    var i := Lookup(s.dir, path);
    if |path.text| > MAX_NAME_LENGTH then (s, Code(-ENAMETOOLONG))
    else if i == |s.dir| then (s, Code(-ENOENT))
    else if s.dir[i].nRefs != 0 then (s, Code(-EBUSY))
    else (s.(free := s.free + s.dir[i].chain,
             dir := s.dir[i := File(NO_NAME, Unused, s.dir[i].allow, -1, [], [])]), Code(0))
  }

  /** How many bytes a read of `size` returns: it stops early at a block boundary that equals `size`. */
  function ReadLength(size: nat, offset: nat, total: nat): nat
    requires offset <= total
  {
    if ByteOf(size) == 0 && 0 < offset < size < total then size - offset
    else if size <= total - offset then size
    else total - offset
  }

  function ReadFd(s: Fs, t: nat, fd: int, size: int): (Fs, Reply)
    requires Inv(s)
  {
    if !HasFd(s, t, fd) then (s, Code(-EBADF))
    else if size < 0 then (s, Code(-EINVAL))
    else if size > MAX_TRANSFER then (s, Code(-EFBIG))
    else
      var e := RowOf(s, t, fd);
      TotalHas(s.procs, t, fd);
      var o := s.fdt[e];
      var f := s.dir[o.file];
      if o.mode == O_WRONLY then (s, Code(-EBADF))
      else if f.kind.Keyboard? then (s, Driver)
      else if !f.kind.Regular? then (s, Code(-ENOSYS))
      else
        var n := ReadLength(size, o.offset, |f.bytes|);
        (s.(fdt := s.fdt[e := o.(offset := o.offset + n)]), Data(f.bytes[o.offset..o.offset + n]))
  }

  /** `data` written over `bytes` from `offset` on. */
  function Splice(bytes: seq<Byte>, offset: nat, data: seq<Byte>): (r: seq<Byte>)
    requires offset <= |bytes|
    ensures |r| == if offset + |data| <= |bytes| then |bytes| else offset + |data|
  {
    bytes[..offset] + data + if offset + |data| <= |bytes| then bytes[offset + |data|..] else []
  }

  /** A file that grows to the end of a write still fits in its blocks and the free ones. */
  lemma StoredFits(size: nat, offset: nat, n: nat, free: nat)
    requires offset <= size && offset + n <= (Blocks(size) + free) * BLOCK_SIZE
    ensures Blocks(size) <= Blocks(if offset + n <= size then size else offset + n) <= Blocks(size) + free
  {
    BlocksBound(size);
    hide Blocks;
    if offset + n > size {
      BlocksGrow(size, offset + n);
      BlocksFit(offset + n, Blocks(size) + free);
    }
  }

  /** Bytes that a write through row e can still store: to the end of the file's blocks and of the free list. */
  function Room(s: Fs, e: nat): int
    requires e < |s.fdt| && s.fdt[e].file < |s.dir|
  {
    (|s.dir[s.fdt[e].file].chain| + |s.free|) * BLOCK_SIZE - s.fdt[e].offset
  }

  /** The offset is within the file's blocks. */
  lemma RoomIsLeft(s: Fs, e: nat)
    requires e < |s.fdt| && s.fdt[e].file < |s.dir| && s.fdt[e].offset <= |s.dir[s.fdt[e].file].bytes|
    requires |s.dir[s.fdt[e].file].chain| == Blocks(|s.dir[s.fdt[e].file].bytes|)
    ensures Room(s, e) >= 0
  {
    var f := s.dir[s.fdt[e].file];
    BlocksBound(|f.bytes|);
    hide Blocks;
    Grows(BLOCK_SIZE, |f.chain|, |f.chain| + |s.free|);
  }

  /** The file behind row e holds `bytes` and `more` blocks of the free list; the offset is further by n. */
  function Grown(s: Fs, e: nat, bytes: seq<Byte>, more: nat, n: nat): Fs
    requires e < |s.fdt| && s.fdt[e].file < |s.dir| && more <= |s.free|
  {
    var o := s.fdt[e];
    var f := s.dir[o.file];
    s.(free := s.free[more..],
       dir := s.dir[o.file := f.(bytes := bytes, chain := f.chain + s.free[..more])],
       fdt := s.fdt[e := o.(offset := o.offset + n)])
  }

  /** The state after all of `data` is stored through row e, with blocks taken from the free list as needed. */
  function Stored(s: Fs, e: nat, data: seq<Byte>): Fs
    requires e < |s.fdt| && s.fdt[e].file < |s.dir|
    requires s.fdt[e].offset <= |s.dir[s.fdt[e].file].bytes|
    requires |s.dir[s.fdt[e].file].chain| == Blocks(|s.dir[s.fdt[e].file].bytes|)
    requires |data| <= Room(s, e)
  {
    var f := s.dir[s.fdt[e].file];
    var bytes := Splice(f.bytes, s.fdt[e].offset, data);
    StoredFits(|f.bytes|, s.fdt[e].offset, |data|, |s.free|);
    Grown(s, e, bytes, Blocks(|bytes|) - |f.chain|, |data|)
  }

  /** The caller's buffer has at least `size` bytes. */
  function WriteFd(s: Fs, t: nat, fd: int, size: int, buffer: seq<Byte>): (Fs, Reply)
    requires Inv(s) && size <= |buffer|
  {
    if !HasFd(s, t, fd) then (s, Code(-EBADF))
    else if size > MAX_TRANSFER then (s, Code(-EFBIG))
    else if size < 0 then (s, Code(-EINVAL))
    else
      var data := buffer[..size];
      var e := RowOf(s, t, fd);
      TotalHas(s.procs, t, fd);
      var o := s.fdt[e];
      var f := s.dir[o.file];
      if o.mode == O_RDONLY then (s, Code(-EBADF))
      else if f.kind.Display? then (s, Driver)
      else if !f.kind.Regular? then (s, Code(-EINVAL))
      else
        RoomIsLeft(s, e);
        if |data| <= Room(s, e) then (Stored(s, e, data), Code(|data|))
        else (Stored(s, e, data[..Room(s, e)]), Code(-ENOSPC))
  }

  // ---------------------------------------------------------------- runs

  /** sys_write_file always starts in the last block: it is a write at the offset when that is where the offset is. */
  predicate InLastBlock(offset: nat, size: nat) {
    BlockOf(offset) == BlockOf(size)
  }

  /** The calls that a live task can make, a fork into a free task slot, and a write in the block of the file's end. */
  ghost predicate Callable(s: Fs, op: Op)
    requires Inv(s)
  {
    match op
    case Fork(t, child) => Live(s, t) && child < |s.procs| && s.procs[child] == []
    case Unlink(_) => true
    case Write(t, fd, size, buffer) => Live(s, t) && size <= |buffer| && WriteEnabled(s, t, fd, size)
    case _ => Live(s, op.t)
  }

  /** The calls that keep the invariant: no open of a blank slot, no close that leaves a named row uncounted. */
  ghost predicate Enabled(s: Fs, op: Op)
    requires Inv(s)
  {
    && Callable(s, op)
    && match op
       case Open(t, path, flags) => path == NO_NAME ==> !OpensBlank(s, t, flags)
       case Close(t, fd) => HasFd(s, t, fd) ==> CloseIsSafe(s, RowOf(s, t, fd))
       case _ => true
  }

  /** The empty path is the name of the free slots: opening it would open one of them. */
  predicate OpensBlank(s: Fs, t: nat, flags: int)
    requires t < |s.procs|
  {
    var i := Lookup(s.dir, NO_NAME);
    var mode := if flags >= O_CREAT then flags - O_CREAT else flags;
    && FreeRow(s.fdt) < |s.fdt| && FreeFd(s.procs[t]) < |s.procs[t]| && i < |s.dir| && 0 <= flags < O_EXCL + O_CREAT
    && (s.dir[i].allow == O_RDWR || s.dir[i].allow == mode)
  }

  ghost predicate WriteEnabled(s: Fs, t: nat, fd: int, size: int) {
    HasFd(s, t, fd) && size > 0 && 0 <= RowOf(s, t, fd) < |s.fdt| ==>
      var o := s.fdt[RowOf(s, t, fd)];
      o.file < |s.dir| && s.dir[o.file].kind.Regular? ==> InLastBlock(o.offset, |s.dir[o.file].bytes|)
  }

  /** Closing a descriptor of row e leaves no other descriptor naming a row that looks free. */
  ghost predicate CloseIsSafe(s: Fs, e: int) {
    0 <= e < |s.fdt| && (s.fdt[e].refs >= 2 || Named(s.procs, e) == 1)
  }

  ghost function Step(s: Fs, op: Op): (Fs, Reply)
    requires Inv(s) && Callable(s, op)
  {
    match op
    case Open(t, path, flags) => OpenFile(s, t, path, flags)
    case Dup(t, fd) => DupFd(s, t, fd)
    case Close(t, fd) => CloseFd(s, t, fd)
    case Fork(t, child) => (ForkFds(s, t, child), Code(0))
    case Exit(t) => (s.(procs := s.procs[t := []]), Code(0))
    case Unlink(path) => UnlinkFile(s, path)
    case Read(t, fd, size) => ReadFd(s, t, fd, size)
    case Write(t, fd, size, buffer) => WriteFd(s, t, fd, size, buffer)
  }
}
