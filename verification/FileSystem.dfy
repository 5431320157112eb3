/** The imperative file system: the kernel's tables, and the calls that rewrite them in place. */
module FileSystemCode {
  import opened Chains
  import opened Division
  import opened FatTable
  import opened FsSpec
  import opened FsInvariant
  import opened FsTheorems
  import FsService

  /** A directory slot as the kernel stores it. */
  datatype Entry = Entry(name: Name, kind: Kind, allow: int, nRefs: int, firstBlock: int, nBlocks: int, size: nat)

  ghost predicate Describes(e: Entry, f: File) {
    && e.name == f.name && e.kind == f.kind && e.allow == f.allow && e.nRefs == f.nRefs
    && (f.kind.Regular? ==> e.firstBlock == At(f.chain, 0) && e.nBlocks == |f.chain| && e.size == |f.bytes|)
  }

  /** The blocks of chain `c` hold `bytes`, BLOCK_SIZE of them each. */
  ghost predicate Holds(disk: array2<Byte>, c: seq<int>, bytes: seq<Byte>)
    requires disk.Length1 == BLOCK_SIZE
    reads disk
  {
    forall k :: 0 <= k < |bytes| ==>
      BlockOf(k) < |c| && 0 <= c[BlockOf(k)] < disk.Length0 && disk[c[BlockOf(k)], ByteOf(k)] == bytes[k]
  }

  class FileSystem {
    const fat: Fat
    const disk: array2<Byte>
    const dir: array<Entry>
    const fdt: array<Row>
    const procs: array<seq<int>>
    ghost var view: Fs

    ghost function Repr(): set<object> {
      {this, fat, fat.table, disk, dir, fdt, procs}
    }

    ghost predicate TablesOk()
      reads this, dir, fdt, procs
    {
      && dir.Length == |view.dir| && (forall i :: 0 <= i < dir.Length ==> Describes(dir[i], view.dir[i]))
      && fdt[..] == view.fdt && procs[..] == view.procs
    }

    ghost predicate ChainsOk()
      reads this, fat
    {
      && fat.table.Length == view.blocks && fat.free == view.free
      && |fat.chains| == |view.dir| && forall i :: 0 <= i < |view.dir| ==> fat.chains[i] == view.dir[i].chain
    }

    ghost predicate DiskOk()
      reads this, disk
    {
      && disk.Length0 == view.blocks && disk.Length1 == BLOCK_SIZE
      && forall i :: 0 <= i < |view.dir| ==> Holds(disk, view.dir[i].chain, view.dir[i].bytes)
    }

    /** The tables, the chains and the disk represent `view`. */
    ghost predicate Represents()
      reads Repr()
    {
      fat.Valid() && TablesOk() && ChainsOk() && DiskOk()
    }

    /** They do, and it satisfies the invariant of every run. */
    ghost predicate Valid()
      reads Repr()
    {
      Inv(view) && Represents()
    }

    /** init_dir: two device slots, the others free. */
    static method InitDir(view: Fs) returns (dir: array<Entry>)
      requires |view.dir| >= 2
      requires view.dir[0] == File(KEYBOARD_NAME, Keyboard, O_RDONLY, 1, [], [])
      requires view.dir[1] == File(DISPLAY_NAME, Display, O_WRONLY, 1, [], [])
      requires forall i :: 2 <= i < |view.dir| ==> view.dir[i] == File(NO_NAME, Unused, 0, -1, [], [])
      ensures fresh(dir) && dir.Length == |view.dir|
      ensures forall i :: 0 <= i < dir.Length ==> Describes(dir[i], view.dir[i])
    {
      dir := new Entry[|view.dir|];
      for i := 0 to |view.dir|
        invariant forall k :: 0 <= k < i ==> dir[k] == Entry(NO_NAME, Unused, 0, -1, 0, 0, 0)
      {
        dir[i] := Entry(NO_NAME, Unused, 0, -1, 0, 0, 0);
      }
      dir[0] := Entry(KEYBOARD_NAME, Keyboard, O_RDONLY, 1, 0, 0, 0);
      dir[1] := Entry(DISPLAY_NAME, Display, O_WRONLY, 1, 0, 0, 0);
    }

    /** init_fdt, and the two rows that init_task0 opens. */
    static method InitFdt(rows: nat) returns (fdt: array<Row>)
      requires rows >= 2
      ensures fresh(fdt) && fdt.Length == rows && fdt[0] == Row(1, O_RDONLY, 0, 0) && fdt[1] == Row(1, O_WRONLY, 0, 1)
      ensures forall e :: 2 <= e < rows ==> fdt[e] == Row(0, 0, 0, 0)
    {
      fdt := new Row[rows];
      for i := 0 to rows
        invariant forall k :: 0 <= k < i ==> fdt[k] == Row(0, 0, 0, 0)
      {
        fdt[i] := Row(0, 0, 0, 0);
      }
      fdt[0] := Row(1, O_RDONLY, 0, 0);
      fdt[1] := Row(1, O_WRONLY, 0, 1);
    }

    /** The descriptors of task 0; no other task lives. */
    static method InitProcs(tasks: nat, fds: nat) returns (procs: array<seq<int>>)
      requires tasks >= 1 && fds >= 3
      ensures fresh(procs) && procs.Length == tasks && |procs[0]| == fds
      ensures procs[0][0] == 0 && procs[0][1] == 1 && procs[0][2] == 1
      ensures forall fd :: 3 <= fd < fds ==> procs[0][fd] == -1
      ensures forall t :: 1 <= t < tasks ==> procs[t] == []
    {
      procs := new seq<int>[tasks](_ => []);
      procs[0] := [0, 1, 1] + seq(fds - 3, _ => -1);
    }

    /** init_filesystem, and the descriptors that init_task0 opens. */
    constructor (blocks: nat, files: nat, rows: nat, tasks: nat, fds: nat)
      requires blocks > 0 && files >= 2 && rows >= 2 && tasks >= 1 && fds >= 3
      ensures Valid() && fresh(fat) && fresh(fat.table) && fresh(disk) && fresh(dir) && fresh(fdt) && fresh(procs)
      ensures view == Boot(blocks, files, rows, tasks, fds)
    {
      hide Inv, Fat.Valid, Boot, Describes, Holds;
      BootInv(blocks, files, rows, tasks, fds);
      BootShape(blocks, files, rows, tasks, fds);
      BootFilesEmpty(blocks, files, rows, tasks, fds);
      var v := Boot(blocks, files, rows, tasks, fds);
      var d := InitDir(v);
      var f := InitFdt(rows);
      assert f[..] == v.fdt;
      var p := InitProcs(tasks, fds);
      assert p[0] == v.procs[0];
      assert p[..] == v.procs;
      dir, fdt, procs, view := d, f, p, v;
      var t := new Fat(blocks, files);
      assert t.free == v.free;
      fat := t;
      var ramDisk := new Byte[blocks, BLOCK_SIZE]((_, _) => 0);
      NothingHeld(ramDisk);
      disk := ramDisk;
    }

    // -------------------------------------------------------------- scans

    method FindName(path: Name) returns (i: nat)
      requires Valid()
      ensures i == Lookup(view.dir, path)
    {
      hide Inv, Fat.Valid, DiskOk, ChainsOk;
      i := 0;
      while i < dir.Length && dir[i].name != path
        invariant i <= dir.Length && forall j :: 0 <= j < i ==> view.dir[j].name != path
      {
        i := i + 1;
      }
    }

    method FindSlot() returns (i: nat)
      requires Valid()
      ensures i == FreeSlot(view.dir)
    {
      hide Inv, Fat.Valid, DiskOk, ChainsOk;
      i := 0;
      while i < dir.Length && dir[i].nRefs != -1
        invariant i <= dir.Length && forall j :: 0 <= j < i ==> view.dir[j].nRefs != -1
      {
        i := i + 1;
      }
    }

    method FindRow() returns (e: nat)
      requires Valid()
      ensures e == FreeRow(view.fdt)
    {
      hide Inv, Fat.Valid, DiskOk, ChainsOk;
      e := 0;
      while e < fdt.Length && fdt[e].refs > 0
        invariant e <= fdt.Length && forall j :: 0 <= j < e ==> view.fdt[j].refs > 0
      {
        e := e + 1;
      }
    }

    method FindFd(t: nat) returns (fd: nat)
      requires Valid() && t < procs.Length
      ensures fd == FreeFd(view.procs[t])
    {
      hide Inv, Fat.Valid, DiskOk, ChainsOk;
      fd := 0;
      while fd < |procs[t]| && procs[t][fd] != -1
        invariant fd <= |procs[t]| && forall j :: 0 <= j < fd ==> view.procs[t][j] != -1
      {
        fd := fd + 1;
      }
    }

    // -------------------------------------------------------------- descriptors

    /** One reference more or less on row e and on its file. */
    method CountRow(e: nat, d: int)
      requires TablesOk() && e < |view.fdt| && view.fdt[e].file < |view.dir|
      modifies this`view, dir, fdt
      ensures TablesOk() && view == AddRef(old(view), e, d)
    {
      var i := fdt[e].file;
      fdt[e] := fdt[e].(refs := fdt[e].refs + d);
      dir[i] := dir[i].(nRefs := dir[i].nRefs + d);
      view := AddRef(view, e, d);
      assert fdt[..] == view.fdt;
    }

    method Bind(t: nat, fd: nat, e: int)
      requires TablesOk() && t < |view.procs| && fd < |view.procs[t]|
      modifies this`view, procs
      ensures TablesOk() && view == old(view).(procs := old(view).procs[t := old(view).procs[t][fd := e]])
    {
      procs[t] := procs[t][fd := e];
      view := view.(procs := view.procs[t := view.procs[t][fd := e]]);
      assert procs[..] == view.procs;
    }

    /** sys_dup */
    method Dup(t: nat, fd: int) returns (r: int)
      requires Valid() && Live(view, t)
      modifies this`view, dir, fdt, procs
      ensures Valid() && RowsInRange(old(view).fdt, |old(view).dir|)
      ensures (view, Code(r)) == DupFd(old(view), t, fd)
    {
      hide Inv, Fat.Valid, Describes, Holds;
      RowsOf(view);
      DupInv(view, t, fd);
      if fd < 0 || fd >= |procs[t]| || procs[t][fd] == -1 { return -EBADF; }
      var newFd := FindFd(t);
      if newFd == |procs[t]| { return -EMFILE; }
      var e := procs[t][fd];
      CountRow(e, 1);
      Bind(t, newFd, e);
      return newFd;
    }

    /** sys_close; the invariant survives exactly a safe close. */
    method Close(t: nat, fd: int) returns (r: int)
      requires Valid() && Live(view, t)
      modifies this`view, dir, fdt, procs
      ensures Represents() && RowsInRange(old(view).fdt, |old(view).dir|)
      ensures (view, Code(r)) == CloseFd(old(view), t, fd)
      ensures Inv(view) <==> (HasFd(old(view), t, fd) ==> CloseIsSafe(old(view), RowOf(old(view), t, fd)))
    {
      hide Inv, Fat.Valid, Describes, Holds, CloseIsSafe;
      RowsOf(view);
      if fd < 0 || fd >= |procs[t]| || procs[t][fd] == -1 { return -EBADF; }
      CloseInvIff(view, t, fd);
      var e := procs[t][fd];
      CountRow(e, -1);
      Bind(t, fd, -1);
      return 0;
    }

    /** The part of sys_fork that shares the descriptors of task t with its child. */
    method Fork(t: nat, child: nat)
      requires Valid() && Live(view, t) && child < |view.procs| && view.procs[child] == []
      modifies this`view, dir, fdt, procs
      ensures Valid() && RowsInRange(old(view).fdt, |old(view).dir|)
      ensures view == ForkFds(old(view), t, child)
    {
      hide Inv, Fat.Valid, ChainsOk, DiskOk;
      RowsOf(view);
      ForkInv(view, t, child);
      ghost var v := view;
      ShareKeepsFiles(v, v.procs[t], |v.procs[t]|);
      ShareTables(t, child);
      SameBlocks(v);
    }

    /** The loop over the descriptors. */
    method ShareTables(t: nat, child: nat)
      requires TablesOk() && RowsInRange(view.fdt, |view.dir|) && t < |view.procs| && child < |view.procs|
      requires FdsOk(view.procs[t], |view.fdt|)
      modifies this`view, dir, fdt, procs
      ensures TablesOk() && view == ForkFds(old(view), t, child)
    {
      hide Describes;
      ghost var v := view;
      procs[child] := procs[t];
      view := view.(procs := view.procs[child := view.procs[t]]);
      assert procs[..] == view.procs;
      for k := 0 to |procs[child]|
        invariant procs[child] == v.procs[t] && TablesOk()
        invariant view == Share(v, v.procs[t], k).(procs := v.procs[child := v.procs[t]])
        modifies this`view, dir, fdt
      {
        if procs[child][k] != -1 {
          CountRow(procs[child][k], 1);
        }
      }
    }

    /** Chains and disk represent every view with the same chains and bytes. */
    twostate lemma SameBlocks(v: Fs)
      requires old(view) == v && old(ChainsOk()) && old(DiskOk())
      requires unchanged(fat) && unchanged(disk)
      requires view.blocks == v.blocks && view.free == v.free && |view.dir| == |v.dir|
      requires forall i :: 0 <= i < |v.dir| ==>
                 view.dir[i].chain == v.dir[i].chain && view.dir[i].bytes == v.dir[i].bytes
      ensures ChainsOk() && DiskOk()
    {
      hide Holds;
      forall i | 0 <= i < |view.dir| ensures Holds(disk, view.dir[i].chain, view.dir[i].bytes) {
        assert old(Holds(disk, v.dir[i].chain, v.dir[i].bytes));
      }
    }

    /** The part of sys_exit that this machine sees: the descriptors of the task die with it, uncounted. */
    method Exit(t: nat)
      requires Valid() && Live(view, t)
      modifies this`view, procs
      ensures Valid() && view == old(view).(procs := old(view).procs[t := []])
    {
      hide Inv, Fat.Valid, Describes, Holds;
      ExitInv(view, t);
      procs[t] := [];
      view := view.(procs := view.procs[t := []]);
      assert procs[..] == view.procs;
    }

    // -------------------------------------------------------------- names

    /** sys_unlink, with sys_release_file: the whole chain goes back to the free list. */
    method Unlink(path: Name) returns (r: int)
      requires Valid()
      modifies this`view, fat, fat.table, dir
      ensures Valid() && (view, Code(r)) == UnlinkFile(old(view), path)
    {
      hide Inv, Fat.Valid, Holds, Lookup;
      if |path.text| > MAX_NAME_LENGTH { return -ENAMETOOLONG; }
      var i := FindName(path);
      if i == dir.Length { return -ENOENT; }
      if dir[i].nRefs != 0 { return -EBUSY; }
      UnlinkInv(view, path);
      SlotOf(view, i);
      ghost var v, c := view, fat.chains;
      if dir[i].kind.Regular? {
        HeadInRange(fat, i);
        var ok := fat.Freeb(dir[i].firstBlock, i);
      }
      dir[i] := Entry(NO_NAME, Unused, dir[i].allow, -1, dir[i].firstBlock, 0, 0);
      view := UnlinkFile(view, path).0;
      assert view == v.(free := v.free + v.dir[i].chain,
                        dir := v.dir[i := File(NO_NAME, Unused, v.dir[i].allow, -1, [], [])]);
      assert fat.chains == c[i := []];
      NothingHeld(disk);
      return 0;
    }

    /** create_file: an unused slot and one free block make an empty file. */
    method Create(path: Name) returns (r: int)
      requires Valid() && Lookup(view.dir, path) == |view.dir|
      modifies this`view, fat, fat.table, dir
      ensures Valid()
      ensures match CreateFile(old(view), path)
              case Refused(code) => r == code && code < 0 && view == old(view)
              case Created(v, slot) => r == slot && view == v
    {
      hide Inv, Fat.Valid, Holds, Lookup, FreeSlot;
      var i := FindSlot();
      if i == dir.Length { return -ENFILE; }
      FreeSlotIsBlank(view, path);
      if |path.text| > MAX_NAME_LENGTH - 1 { return -ENAMETOOLONG; }
      var fblock := fat.Balloc(1);
      if fblock < 0 { return -ENOSPC; }
      CreateInv(view, path);
      SlotOf(view, i);
      fat.Adopt(i, view.free[..1]);
      dir[i] := Entry(path, Regular, O_RDWR, 0, fblock, 1, 0);
      view := CreateFile(view, path).s;
      NothingHeld(disk);
      return i;
    }

    /** sys_open; the invariant survives every open but that of a blank slot. */
    method Open(t: nat, path: Name, flags: int) returns (r: int)
      requires Valid() && Live(view, t)
      modifies this`view, fat, fat.table, dir, fdt, procs
      ensures Represents() && (view, Code(r)) == OpenFile(old(view), t, path, flags)
      ensures Inv(view) <==> !(path == NO_NAME && OpensBlank(old(view), t, flags))
    {
      hide Inv, Fat.Valid, Holds, Lookup, FreeSlot, FreeRow, FreeFd, Describes, OpensBlank;
      OpenInvIff(view, t, path, flags);
      if |path.text| > MAX_NAME_LENGTH { return -ENAMETOOLONG; }
      var row := FindRow();
      if row == fdt.Length { return -ENFILE; }
      var fd := FindFd(t);
      if fd == |procs[t]| { return -EMFILE; }
      if flags < 0 || flags > 15 { return -EINVAL; }
      var i := FindName(path);
      var mode := flags;
      if i == dir.Length {
        if flags < O_CREAT { return -ENOENT; }
        var file := Create(path);
        if file < 0 { return file; }
        i := file;
        if mode >= O_EXCL { mode := mode - O_EXCL; }
        mode := mode - O_CREAT;
      } else {
        if flags >= O_EXCL + O_CREAT { return -EEXIST; }
        if mode >= O_CREAT { mode := mode - O_CREAT; }
        if Allow(i) != O_RDWR && mode != Allow(i) { return -EACCES; }
      }
      Install(t, fd, row, i, mode);
      return fd;
    }

    function Allow(i: nat): (mode: int)
      requires TablesOk() && i < dir.Length
      reads this, dir, fdt, procs
      ensures mode == view.dir[i].allow
    {
      dir[i].allow
    }

    /** The last lines of sys_open: a fresh row over slot i becomes descriptor fd. */
    method Install(t: nat, fd: nat, row: nat, i: nat, mode: int)
      requires TablesOk() && t < |view.procs| && fd < |view.procs[t]| && row < |view.fdt| && i < |view.dir|
      modifies this`view, dir, fdt, procs
      ensures TablesOk() && view == Attach(old(view), t, fd, row, i, mode)
    {
      fdt[row] := Row(1, mode, 0, i);
      dir[i] := dir[i].(nRefs := dir[i].nRefs + 1);
      procs[t] := procs[t][fd := row];
      view := Attach(view, t, fd, row, i, mode);
      assert fdt[..] == view.fdt;
      assert procs[..] == view.procs;
    }

    // -------------------------------------------------------------- transfers

    /** Row e is open over a regular file. */
    ghost predicate OpenOn(e: nat)
      reads this
    {
      && e < |view.fdt| && view.fdt[e].refs > 0 && view.fdt[e].file < |view.dir|
      && view.dir[view.fdt[e].file].kind.Regular?
      && view.fdt[e].offset <= |view.dir[view.fdt[e].file].bytes|
      && |view.dir[view.fdt[e].file].chain| == Blocks(|view.dir[view.fdt[e].file].bytes|)
    }

    /** The offset has not reached the file's size. */
    predicate HasMore(e: nat)
      requires TablesOk() && OpenOn(e)
      reads this, dir, fdt, procs
      ensures HasMore(e) <==> view.fdt[e].offset < |view.dir[view.fdt[e].file].bytes|
    {
      assert Describes(dir[fdt[e].file], view.dir[view.fdt[e].file]);
      fdt[e].offset < dir[fdt[e].file].size
    }

    /** sys_read_file */
    method ReadFile(e: nat, size: nat) returns (buffer: seq<Byte>)
      requires Valid() && OpenOn(e)
      modifies this`view, fdt
      ensures Valid()
      ensures var o := old(view.fdt[e]);
              var n := ReadLength(size, o.offset, |old(view).dir[o.file].bytes|);
              && buffer == old(view).dir[o.file].bytes[o.offset..o.offset + n]
              && view == MovedTo(old(view), e, o.offset + n)
    {
      hide Inv, Fat.Valid, ChainsOk, DiskOk, Describes, Where, BlockOf, ByteOf;
      ghost var v := view;
      ghost var start := view.fdt[e].offset;
      ghost var bytes := view.dir[view.fdt[e].file].bytes;
      var block: int, byte: nat := Seek(e);
      buffer := [];
      assert MovedTo(v, e, start) == v;
      while |buffer| < size && HasMore(e)
        invariant Valid() && OpenOn(e) && start + |buffer| <= |bytes| && view == MovedTo(v, e, start + |buffer|)
        invariant |buffer| <= ReadLength(size, start, |bytes|)
        invariant buffer == bytes[start..start + |buffer|]
        invariant Where(view.dir[view.fdt[e].file].chain, start + |buffer|, block, byte)
                  && (if buffer == [] then byte < BLOCK_SIZE else byte > 0)
        decreases size - |buffer|
        modifies this`view, fdt
      {
        StopsExactly(view.dir[view.fdt[e].file].chain, size, start, |buffer|, |bytes|, block, byte);
        var stop, x;
        stop, x, block, byte := ReadByte(e, block, byte, size);
        if stop { break; }
        MoveOn(e);
        MovedTwice(v, e, start + |buffer|, start + |buffer| + 1);
        NextByte(bytes, start, buffer, x);
        buffer := buffer + [x];
      }
    }

    /** The first loop of sys_read_file: the block of the offset, found by walking the chain. */
    method Seek(e: nat) returns (block: int, byte: nat)
      requires Valid() && OpenOn(e)
      ensures Where(view.dir[view.fdt[e].file].chain, view.fdt[e].offset, block, byte) && byte < BLOCK_SIZE
    {
      hide Inv, Fat.Valid, Holds, BlockOf, ByteOf;
      var file := fdt[e].file;
      ghost var c := view.dir[file].chain;
      LinksOf(fat, file);
      WhereInRange(c, |view.dir[file].bytes|, view.fdt[e].offset);
      assert Describes(dir[file], view.dir[file]);
      block := dir[file].firstBlock;
      byte := ByteOf(fdt[e].offset);
      for i := 0 to BlockOf(fdt[e].offset)
        invariant block == At(c, i)
      {
        block := fat.table[block];
      }
    }

    /** One round of the second loop: step to the next block if this one is used up, and fetch a byte. */
    method ReadByte(e: nat, block0: int, byte0: nat, size: nat) returns (stop: bool, x: Byte, block: int, byte: nat)
      requires Valid() && OpenOn(e) && view.fdt[e].offset < |view.dir[view.fdt[e].file].bytes|
      requires Where(view.dir[view.fdt[e].file].chain, view.fdt[e].offset, block0, byte0)
      ensures stop <==> byte0 == BLOCK_SIZE && view.fdt[e].offset == size
      ensures !stop ==> x == view.dir[view.fdt[e].file].bytes[view.fdt[e].offset] && byte > 0
      ensures !stop ==> Where(view.dir[view.fdt[e].file].chain, view.fdt[e].offset + 1, block, byte)
    {
      hide Inv, Fat.Valid, Describes, BlockOf, ByteOf;
      ghost var file, pos := view.fdt[e].file, view.fdt[e].offset;
      LinksOf(fat, file);
      WhereInRange(view.dir[file].chain, |view.dir[file].bytes|, pos);
      WhereIs(view.dir[file].chain, pos, block0, byte0);
      hide Where;
      block, byte, x := block0, byte0, 0;
      if ByteOf(byte) == 0 && byte != 0 {
        if fdt[e].offset == size || fat.table[block] == -1 { return true, x, block, byte; }
        block := fat.table[block];
        byte := 0;
      }
      assert Holds(disk, view.dir[file].chain, view.dir[file].bytes);
      assert block == view.dir[file].chain[BlockOf(pos)] && byte == ByteOf(pos);
      stop, x := false, disk[block, byte];
      byte := byte + 1;
    }

    /** The offset moves one byte on. */
    method MoveOn(e: nat)
      requires Valid() && OpenOn(e) && view.fdt[e].offset < |view.dir[view.fdt[e].file].bytes|
      modifies this`view, fdt
      ensures Valid() && OpenOn(e) && view == MovedTo(old(view), e, old(view).fdt[e].offset + 1)
    {
      hide Inv, Fat.Valid, Describes, Holds;
      OffsetInv(view, e, view.fdt[e].offset + 1);
      fdt[e] := fdt[e].(offset := fdt[e].offset + 1);
      view := MovedTo(view, e, view.fdt[e].offset + 1);
      assert fdt[..] == view.fdt;
    }

    /** balloc and add_block at the end of a file: `block` was its last one. */
    method Extend(file: nat, block: int) returns (newBlock: int)
      requires fat.Valid() && TablesOk() && ChainsOk() && DiskOk() && file < |view.dir| && view.dir[file].kind.Regular?
      requires view.dir[file].chain != [] && block == view.dir[file].chain[|view.dir[file].chain| - 1]
      modifies this`view, fat, fat.table, dir
      ensures fat.Valid() && TablesOk() && ChainsOk() && DiskOk()
      ensures newBlock == -1 <==> old(view).free == []
      ensures view == if newBlock == -1 then old(view) else Extended(old(view), file)
      ensures newBlock != -1 ==> newBlock == old(view).free[0]
    {
      hide Holds, Fat.Valid;
      newBlock := fat.Balloc(1);
      if newBlock == -1 { return; }
      SingleBlock(fat.table[..], newBlock, view.free);
      fat.AddBlock(block, newBlock, file);
      dir[file] := dir[file].(nBlocks := dir[file].nBlocks + 1);
      view := Extended(view, file);
      HoldsLonger(disk, old(view).dir[file].chain, [newBlock], old(view).dir[file].bytes);
    }

    /** Storing a byte at position `pos` of a file changes that byte of that file, and no other file. */
    method Poke(ghost file: nat, ghost pos: nat, block: int, byte: nat, x: Byte)
      requires fat.Valid() && ChainsOk() && DiskOk() && file < |view.dir| && pos <= |view.dir[file].bytes|
      requires byte == ByteOf(pos) && BlockOf(pos) < |view.dir[file].chain|
      requires block == view.dir[file].chain[BlockOf(pos)]
      modifies disk
      ensures Holds(disk, view.dir[file].chain, Put(view.dir[file].bytes, pos, x))
      ensures forall i :: 0 <= i < |view.dir| && i != file ==> Holds(disk, view.dir[i].chain, view.dir[i].bytes)
    {
      hide Fat.Valid, BlockOf, ByteOf;
      ApartOnDisk(fat, file);
      ghost var c, bytes := view.dir[file].chain, view.dir[file].bytes;
      assert fat.chains[file] == c && block in c;
      disk[block, byte] := x;
      forall i | 0 <= i < |view.dir| && i != file ensures Holds(disk, view.dir[i].chain, view.dir[i].bytes) {
        assert fat.chains[i] == view.dir[i].chain;
        assert old(Holds(disk, view.dir[i].chain, view.dir[i].bytes));
      }
      assert disk.Length1 == BLOCK_SIZE && old(Holds(disk, c, bytes));
      hide ChainsOk, DiskOk;
      forall k | 0 <= k < |Put(bytes, pos, x)|
        ensures BlockOf(k) < |c| && 0 <= c[BlockOf(k)] < disk.Length0
                && disk[c[BlockOf(k)], ByteOf(k)] == Put(bytes, pos, x)[k]
      {
        if k != pos && c[BlockOf(k)] == block {
          assert BlockOf(k) == BlockOf(pos);
          Position(k);
          Position(pos);
        }
      }
    }

    /** The byte goes to the disk, and the offset and perhaps the size move on. */
    method StoreByte(e: nat, block: int, byte: nat, x: Byte)
      requires fat.Valid() && TablesOk() && ChainsOk() && DiskOk()
      requires e < |view.fdt| && view.fdt[e].file < |view.dir| && view.dir[view.fdt[e].file].kind.Regular?
      requires view.fdt[e].offset <= |view.dir[view.fdt[e].file].bytes|
      requires byte == ByteOf(view.fdt[e].offset) && BlockOf(view.fdt[e].offset) < |view.dir[view.fdt[e].file].chain|
      requires block == view.dir[view.fdt[e].file].chain[BlockOf(view.fdt[e].offset)]
      modifies this`view, disk, dir, fdt
      ensures fat.Valid() && TablesOk() && ChainsOk() && DiskOk()
      ensures view == Overwritten(old(view), e, x)
    {
      hide Fat.Valid, Holds, BlockOf, ByteOf;
      var file := fdt[e].file;
      assert Describes(dir[file], view.dir[file]);
      Poke(file, view.fdt[e].offset, block, byte, x);
      fdt[e] := fdt[e].(offset := fdt[e].offset + 1);
      if dir[file].size < fdt[e].offset {
        dir[file] := dir[file].(size := dir[file].size + 1);
      }
      view := Overwritten(view, e, x);
      assert fdt[..] == view.fdt;
    }

    /**
     One round of the loop of sys_write_file, with a new block if the size is a multiple of the block size: the block,
       the
     byte, the offset and the sizes are those of the cursor, which moves on by StoreOne.
     */
    method WriteByte(e: nat, block0: int, byte0: nat, x: Byte, ghost c: Cursor)
      returns (ok: bool, block: int, byte: nat)
      requires Valid() && OpenOn(e) && CursorIs(view, e, c, block0, byte0) && InContract(c)
      modifies this`view, fat, fat.table, disk, dir, fdt
      ensures Valid()
      ensures ok <==> Room(old(view), e) > 0
      ensures !ok ==> view == old(view)
      ensures ok ==> view == Stored(old(view), e, [x]) && OpenOn(e) && CursorIs(view, e, StoreOne(c), block, byte)
    {
      hide Inv, Fat.Valid, Holds, DiskOk, ChainsOk, Stored, Splice, Blocks, BlockOf, ByteOf, Room, Put;
      var file := fdt[e].file;
      assert Describes(dir[file], view.dir[file]);
      ghost var v := view;
      RoomOf(v, e);
      PlaceInContract(c);
      block, byte := block0, byte0;
      if ByteOf(dir[file].size) == 0 && dir[file].size != 0 {
        var newBlock := Extend(file, block);
        if newBlock == -1 { return false, block, byte; }
        byte, block := 0, newBlock;
      }
      StoredOne(v, e, x);
      StoredInv(v, e, [x]);
      SpliceOne(v.dir[v.fdt[e].file].bytes, v.fdt[e].offset, x);
      StoreByte(e, block, byte, x);
      byte := byte + 1;
      ok := true;
    }

    /** sys_write_file, for an offset in the last block of the file. */
    method WriteFile(e: nat, data: seq<Byte>) returns (r: int)
      requires Valid() && OpenOn(e)
      requires data != [] ==> InLastBlock(view.fdt[e].offset, |view.dir[view.fdt[e].file].bytes|)
      modifies this`view, fat, fat.table, disk, dir, fdt
      ensures Valid()
      ensures if |data| <= Room(old(view), e) then view == Stored(old(view), e, data) && r == |data|
              else Room(old(view), e) >= 0 && view == Stored(old(view), e, data[..Room(old(view), e)]) && r == -ENOSPC
    {
      hide Inv, Fat.Valid, Holds, DiskOk, ChainsOk, Describes, Stored, BlockOf, ByteOf, Blocks;
      ghost var v := view;
      BlocksBound(|view.dir[view.fdt[e].file].bytes|);
      var block := LastBlock(fdt[e].file);
      var byte: nat := ByteOf(fdt[e].offset);
      ghost var size, offset := |view.dir[view.fdt[e].file].bytes|, view.fdt[e].offset;
      RoomOf(v, e);
      StoredNothing(v, e);
      for i := 0 to |data|
        invariant Valid() && OpenOn(e) && CursorIs(view, e, Cursors(size, offset, i), block, byte)
        invariant i <= Room(v, e) && view == Stored(v, e, data[..i])
      {
        var ok;
        RoomAfter(v, e, data[..i]);
        CursorInContract(size, offset, i);
        ok, block, byte := WriteByte(e, block, byte, data[i], Cursors(size, offset, i));
        if !ok { return -ENOSPC; }
        StoredThen(v, e, data[..i], data[i]);
        assert data[..i] + [data[i]] == data[..i + 1];
      }
      assert data[..|data|] == data;
      return |data|;
    }

    /** The walk to the last block of a file. */
    method LastBlock(file: nat) returns (block: int)
      requires Valid() && file < |view.dir| && view.dir[file].kind.Regular? && view.dir[file].chain != []
      ensures block == view.dir[file].chain[|view.dir[file].chain| - 1]
    {
      hide Inv, Fat.Valid, Holds, DiskOk;
      LinksOf(fat, file);
      assert Describes(dir[file], view.dir[file]);
      block := dir[file].firstBlock;
      ghost var k := 0;
      while fat.table[block] != -1
        invariant 0 <= k < |view.dir[file].chain| && block == view.dir[file].chain[k]
        decreases |view.dir[file].chain| - k
      {
        block := fat.table[block];
        k := k + 1;
      }
    }

    /** sys_read; a device answers for itself. */
    method Read(t: nat, fd: int, size: int) returns (r: Reply)
      requires Valid() && Live(view, t)
      modifies this`view, fdt
      ensures Valid() && (view, r) == ReadFd(old(view), t, fd, size)
    {
      hide Inv, Fat.Valid, Holds, DiskOk, ChainsOk, Describes;
      if fd < 0 || fd >= |procs[t]| || procs[t][fd] == -1 { return Code(-EBADF); }
      if size < 0 { return Code(-EINVAL); }
      if size > MAX_TRANSFER { return Code(-EFBIG); }
      DescriptorIsOpen(view, t, fd);
      var e := procs[t][fd];
      if fdt[e].mode == O_WRONLY { return Code(-EBADF); }
      var kind := KindOf(fdt[e].file);
      match kind
      case Keyboard => return Driver;
      case Regular =>
        SlotFits(view, view.fdt[e].file);
        var buffer := ReadFile(e, size);
        return Data(buffer);
      case _ => return Code(-ENOSYS);
    }

    /** sys_write */
    method Write(t: nat, fd: int, size: int, buffer: seq<Byte>) returns (r: Reply)
      requires Valid() && Live(view, t) && size <= |buffer| && WriteEnabled(view, t, fd, size)
      modifies this`view, fat, fat.table, disk, dir, fdt
      ensures Valid() && (view, r) == WriteFd(old(view), t, fd, size, buffer)
    {
      hide Inv, Fat.Valid, Holds, DiskOk, ChainsOk, Describes, Stored;
      if fd < 0 || fd >= |procs[t]| || procs[t][fd] == -1 { return Code(-EBADF); }
      if size > MAX_TRANSFER { return Code(-EFBIG); }
      if size < 0 { return Code(-EINVAL); }
      DescriptorIsOpen(view, t, fd);
      var e := procs[t][fd];
      if fdt[e].mode == O_RDONLY { return Code(-EBADF); }
      var kind := KindOf(fdt[e].file);
      match kind
      case Display => return Driver;
      case Regular =>
        SlotFits(view, view.fdt[e].file);
        var code := WriteFile(e, buffer[..size]);
        return Code(code);
      case _ => return Code(-EINVAL);
    }

    /** One system call: the dispatcher's view of this file. */
    method Call(op: Op) returns (r: Reply)
      requires Valid() && Callable(view, op)
      modifies Repr()
      ensures Represents() && (view, r) == Step(old(view), op)
      ensures Inv(view) <==> Enabled(old(view), op)
    {
      hide Inv, Fat.Valid, Holds, DiskOk, ChainsOk, TablesOk;
      StepInv(view, op);
      var code := 0;
      match op
      case Open(t, path, flags) => code := Open(t, path, flags); r := Code(code);
      case Dup(t, fd) => code := Dup(t, fd); r := Code(code);
      case Close(t, fd) => code := Close(t, fd); r := Code(code);
      case Fork(t, child) => Fork(t, child); r := Code(0);
      case Exit(t) => Exit(t); r := Code(0);
      case Unlink(path) => code := Unlink(path); r := Code(code);
      case Read(t, fd, size) => r := Read(t, fd, size);
      case Write(t, fd, size, buffer) => r := Write(t, fd, size, buffer);
    }

    /** Any sequence of calls, served by the tables in place, is a run over names and byte sequences. */
    method Serve(ops: seq<Op>) returns (rs: seq<Reply>)
      requires Valid() && FsService.AllEnabled(view, ops)
      modifies Repr()
      ensures Valid() && (view, rs) == FsService.Run(old(view), ops)
      ensures FsService.ServiceRun(FsService.Abs(old(view)), ops, rs, FsService.Abs(view))
      decreases |ops|
    {
      assert ops != [] ==> Callable(view, ops[0]);
      hide Inv, Fat.Valid, DiskOk, ChainsOk, TablesOk, Enabled, Step, FsService.ServiceRun, FsService.Abs;
      ghost var v := view;
      FsService.RunRefines(v, ops);
      if ops == [] { return []; }
      var r := Call(ops[0]);
      var rest := Serve(ops[1..]);
      rs := [r] + rest;
    }

    function KindOf(i: nat): (kind: Kind)
      requires TablesOk() && i < dir.Length
      reads this, dir, fdt, procs
      ensures kind == view.dir[i].kind
    {
      assert Describes(dir[i], view.dir[i]);
      dir[i].kind
    }
  }

  /** `block` and `byte`, the file's sizes and the offset of row e are those of the cursor of a write. */
  ghost predicate CursorIs(s: Fs, e: nat, c: Cursor, block: int, byte: nat)
    requires e < |s.fdt| && s.fdt[e].file < |s.dir|
  {
    var o := s.fdt[e];
    var f := s.dir[o.file];
    && c.size == |f.bytes| && c.offset == o.offset && c.nBlocks == |f.chain|
    && c.index < |f.chain| && block == f.chain[c.index] && byte == c.byte
  }

  ghost predicate OpenRow(s: Fs, e: nat) {
    && e < |s.fdt| && s.fdt[e].file < |s.dir|
    && s.fdt[e].offset <= |s.dir[s.fdt[e].file].bytes|
    && |s.dir[s.fdt[e].file].chain| == Blocks(|s.dir[s.fdt[e].file].bytes|)
  }

  /** There is room exactly when the last block is not full or there is a free one. */
  lemma RoomOf(s: Fs, e: nat)
    requires OpenRow(s, e)
    ensures Room(s, e) >= 0
    ensures InLastBlock(s.fdt[e].offset, |s.dir[s.fdt[e].file].bytes|) ==>
              var size := |s.dir[s.fdt[e].file].bytes|;
              Room(s, e) > 0 <==> s.free != [] || size == 0 || ByteOf(size) != 0
  {
    RoomIsLeft(s, e);
    var f := s.dir[s.fdt[e].file];
    SizeAt(|f.bytes|, s.fdt[e].offset);
    hide Blocks, BlockOf, ByteOf, InLastBlock;
    Grows(BLOCK_SIZE, |f.chain|, |f.chain| + |s.free|);
  }

  /** A file fills its blocks exactly if its size is a positive multiple of the block size. */
  lemma SizeAt(size: nat, offset: nat)
    requires offset <= size
    ensures size <= BLOCK_SIZE * Blocks(size)
    ensures size == BLOCK_SIZE * Blocks(size) <==> size != 0 && ByteOf(size) == 0
    ensures InLastBlock(offset, size) && ByteOf(size) == 0 ==> offset == size
  {
    hide Blocks, BlockOf, ByteOf;
    BlocksBound(size);
    Position(size);
    Position(offset);
    BlocksAt(BlockOf(size), ByteOf(size));
    Distribute(BLOCK_SIZE, BlockOf(size), -1);
  }

  lemma RoomAfter(s: Fs, e: nat, data: seq<Byte>)
    requires OpenRow(s, e) && |data| <= Room(s, e)
    ensures OpenRow(Stored(s, e, data), e) && Room(Stored(s, e, data), e) == Room(s, e) - |data|
  {
    var f := s.dir[s.fdt[e].file];
    StoredIs(s, e, data, Splice(f.bytes, s.fdt[e].offset, data));
    hide Blocks, Splice, Stored;
    assert |f.chain| + |s.free| == |Stored(s, e, data).dir[s.fdt[e].file].chain| + |Stored(s, e, data).free|;
  }

  lemma StoredNothing(s: Fs, e: nat)
    requires OpenRow(s, e) && Room(s, e) >= 0
    ensures Stored(s, e, []) == s
  {
    var o := s.fdt[e];
    var f := s.dir[o.file];
    assert Splice(f.bytes, o.offset, []) == f.bytes;
    assert f.chain + s.free[..0] == f.chain && s.free[0..] == s.free;
    assert s.dir[o.file := f] == s.dir && s.fdt[e := o] == s.fdt;
  }

  /** Storing one byte is an extension, if the last block is full, and one byte put at the offset. */
  lemma StoredOne(s: Fs, e: nat, x: Byte)
    requires OpenRow(s, e) && Room(s, e) > 0 && InLastBlock(s.fdt[e].offset, |s.dir[s.fdt[e].file].bytes|)
    ensures var o := s.fdt[e];
            var f := s.dir[o.file];
            if ByteOf(|f.bytes|) == 0 && |f.bytes| != 0 then
              s.free != [] && o.offset == |f.bytes| && BlockOf(o.offset) == |f.chain|
              && Stored(s, e, [x]) == Overwritten(Extended(s, o.file), e, x)
            else BlockOf(o.offset) == |f.chain| - 1 && Stored(s, e, [x]) == Overwritten(s, e, x)
    ensures var s' := Stored(s, e, [x]);
            && OpenRow(s', e) && InLastBlock(s'.fdt[e].offset, |s'.dir[s'.fdt[e].file].bytes|)
            && (ByteOf(|s'.dir[s'.fdt[e].file].bytes|) != 0 ==> ByteOf(s'.fdt[e].offset) == ByteOf(s.fdt[e].offset) + 1)
  {
    var o := s.fdt[e];
    var f := s.dir[o.file];
    hide Blocks, BlockOf, ByteOf, Splice, Put;
    SpliceOne(f.bytes, o.offset, x);
    RoomOf(s, e);
    OneMore(|f.bytes|, o.offset);
    StoredFits(|f.bytes|, o.offset, 1, |s.free|);
    hide Room;
    if ByteOf(|f.bytes|) == 0 && |f.bytes| != 0 {
      assert s.free[..1] == [s.free[0]];
    } else {
      assert f.chain + s.free[..0] == f.chain && s.free[0..] == s.free;
    }
  }

  lemma SpliceOne(bytes: seq<Byte>, offset: nat, x: Byte)
    requires offset <= |bytes|
    ensures Splice(bytes, offset, [x]) == Put(bytes, offset, x)
    ensures |Put(bytes, offset, x)| == if offset < |bytes| then |bytes| else |bytes| + 1
  {
    assert Splice(bytes, offset, [x]) == Put(bytes, offset, x);
  }

  lemma SpliceThen(bytes: seq<Byte>, offset: nat, data: seq<Byte>, x: Byte)
    requires offset <= |bytes|
    ensures Splice(Splice(bytes, offset, data), offset + |data|, [x]) == Splice(bytes, offset, data + [x])
    ensures Blocks(|Splice(bytes, offset, data)|) <= Blocks(|Splice(bytes, offset, data + [x])|)
  {
    hide Blocks;
    BlocksGrow(|Splice(bytes, offset, data)|, |Splice(bytes, offset, data + [x])|);
  }

  lemma GrownTwice(s: Fs, e: nat, bytes: seq<Byte>, more: nat, n: nat, bytes': seq<Byte>, more': nat, n': nat)
    requires e < |s.fdt| && s.fdt[e].file < |s.dir| && more + more' <= |s.free|
    ensures Grown(Grown(s, e, bytes, more, n), e, bytes', more', n') == Grown(s, e, bytes', more + more', n + n')
  {
    assert s.free[more..][..more'] == s.free[more..more + more'];
    assert s.free[..more] + s.free[more..more + more'] == s.free[..more + more'];
    assert s.free[more..][more'..] == s.free[more + more'..];
    var c := s.dir[s.fdt[e].file].chain;
    assert (c + s.free[..more]) + s.free[more..more + more'] == c + s.free[..more + more'];
    var a, b := Grown(Grown(s, e, bytes, more, n), e, bytes', more', n'), Grown(s, e, bytes', more + more', n + n');
    assert a.dir == b.dir && a.fdt == b.fdt;
  }

  /** Storing one more byte. */
  lemma StoredThen(s: Fs, e: nat, data: seq<Byte>, x: Byte)
    requires OpenRow(s, e) && |data| < Room(s, e)
    ensures OpenRow(Stored(s, e, data), e) && Room(Stored(s, e, data), e) > 0
    ensures Stored(Stored(s, e, data), e, [x]) == Stored(s, e, data + [x])
  {
    hide Splice, Blocks, Room, Stored;
    RoomAfter(s, e, data);
    var f := s.dir[s.fdt[e].file];
    var offset := s.fdt[e].offset;
    SpliceThen(f.bytes, offset, data, x);
    var bytes, bytes' := Splice(f.bytes, offset, data), Splice(f.bytes, offset, data + [x]);
    StoredIs(s, e, data, bytes);
    StoredIs(s, e, data + [x], bytes');
    var n, n' := Blocks(|bytes|) - |f.chain|, Blocks(|bytes'|) - Blocks(|bytes|);
    GrownTwice(s, e, bytes, n, |data|, bytes', n', 1);
    assert |data + [x]| == |data| + 1;
    StoredIs(Stored(s, e, data), e, [x], bytes');
  }

  lemma StoredIs(s: Fs, e: nat, data: seq<Byte>, bytes: seq<Byte>)
    requires OpenRow(s, e) && |data| <= Room(s, e) && bytes == Splice(s.dir[s.fdt[e].file].bytes, s.fdt[e].offset, data)
    ensures var n := Blocks(|bytes|) - |s.dir[s.fdt[e].file].chain|;
            0 <= n <= |s.free| && Stored(s, e, data) == Grown(s, e, bytes, n, |data|)
  {
    StoredFits(|s.dir[s.fdt[e].file].bytes|, s.fdt[e].offset, |data|, |s.free|);
    hide Blocks, Splice;
  }

  /** The last block appended to a file's chain is the first free one. */
  ghost function Extended(s: Fs, file: nat): Fs
    requires file < |s.dir| && s.free != []
  {
    s.(free := s.free[1..], dir := s.dir[file := s.dir[file].(chain := s.dir[file].chain + [s.free[0]])])
  }

  /** One byte at `pos`, inside the file or just past its end. */
  ghost function Put(bytes: seq<Byte>, pos: nat, x: Byte): seq<Byte>
    requires pos <= |bytes|
  {
    if pos < |bytes| then bytes[pos := x] else bytes + [x]
  }

  ghost function Overwritten(s: Fs, e: nat, x: Byte): Fs
    requires e < |s.fdt| && s.fdt[e].file < |s.dir| && s.fdt[e].offset <= |s.dir[s.fdt[e].file].bytes|
  {
    var o := s.fdt[e];
    var f := s.dir[o.file];
    s.(dir := s.dir[o.file := f.(bytes := Put(f.bytes, o.offset, x))],
       fdt := s.fdt[e := o.(offset := o.offset + 1)])
  }

  lemma SingleBlock(t: seq<int>, b: int, free: seq<int>)
    requires free != [] && IsChain(t, b, free[..1])
    ensures b == free[0] && 0 <= b < |t| && b in free[..1] && free[..1] == [b]
  {
    assert free[..1][0] == free[0];
  }

  lemma HoldsLonger(disk: array2<Byte>, c: seq<int>, d: seq<int>, bytes: seq<Byte>)
    requires disk.Length1 == BLOCK_SIZE && Holds(disk, c, bytes)
    ensures Holds(disk, c + d, bytes)
  {
    hide BlockOf, ByteOf;
    forall k | 0 <= k < |bytes| ensures (c + d)[BlockOf(k)] == c[BlockOf(k)] {
    }
  }

  /** No block of a file is used twice, in it or in another file. */
  lemma ApartOnDisk(fat: Fat, file: nat)
    requires fat.Valid() && file < |fat.chains|
    ensures Distinct(fat.chains[file])
    ensures forall b :: b in fat.chains[file] ==> 0 <= b < fat.table.Length
    ensures forall i, k :: 0 <= i < |fat.chains| && i != file && 0 <= k < |fat.chains[i]| ==>
              fat.chains[i][k] !in fat.chains[file]
  {
    ChainsAreAcyclic(fat.table[..], At(fat.chains[file], 0), fat.chains[file]);
  }

  /** The state with the offset of row e at `offset`. */
  ghost function MovedTo(s: Fs, e: nat, offset: nat): Fs
    requires e < |s.fdt|
  {
    s.(fdt := s.fdt[e := s.fdt[e].(offset := offset)])
  }

  lemma MovedTwice(s: Fs, e: nat, a: nat, b: nat)
    requires e < |s.fdt|
    ensures MovedTo(MovedTo(s, e, a), e, b) == MovedTo(s, e, b)
  {
    assert s.fdt[e := s.fdt[e].(offset := a)][e := s.fdt[e].(offset := b)] == s.fdt[e := s.fdt[e].(offset := b)];
  }

  lemma NextByte(bytes: seq<Byte>, start: nat, buffer: seq<Byte>, x: Byte)
    requires start + |buffer| < |bytes| && buffer == bytes[start..start + |buffer|] && x == bytes[start + |buffer|]
    ensures buffer + [x] == bytes[start..start + |buffer| + 1]
  {
  }

  /** `block` and `byte` are where position `pos` of a chain is, or the end of the block just before it. */
  ghost predicate Where(c: seq<int>, pos: nat, block: int, byte: nat) {
    || (byte < BLOCK_SIZE && byte == ByteOf(pos) && block == At(c, BlockOf(pos)))
    || (byte == BLOCK_SIZE && pos > 0 && ByteOf(pos) == 0 && block == At(c, BlockOf(pos) - 1))
  }

  /** At the early stop, and only there, the read has returned all that it will. */
  lemma StopsExactly(c: seq<int>, size: nat, start: nat, n: nat, total: nat, block: int, byte: nat)
    requires n < size && start + n < total && n <= ReadLength(size, start, total)
    requires Where(c, start + n, block, byte) && (if n == 0 then byte < BLOCK_SIZE else byte > 0)
    ensures byte == BLOCK_SIZE && start + n == size <==> n == ReadLength(size, start, total)
  {
  }

  lemma WhereInRange(c: seq<int>, size: nat, pos: nat)
    requires |c| == Blocks(size) && pos <= size
    ensures BlockOf(pos) <= |c| && (pos < size ==> BlockOf(pos) < |c|)
  {
    hide Blocks, BlockOf, ByteOf;
    Position(pos);
    BlocksAt(BlockOf(pos), ByteOf(pos));
    BlocksGrow(pos, size);
    if pos < size {
      BlocksGrow(pos + 1, size);
    }
  }

  /** What the code's test for a used-up block finds out, and where the byte at `pos` is. */
  lemma WhereIs(c: seq<int>, pos: nat, block: int, byte: nat)
    requires Where(c, pos, block, byte)
    ensures ByteOf(byte) == 0 && byte != 0 <==> byte == BLOCK_SIZE
    ensures byte == BLOCK_SIZE ==> BlockOf(pos) > 0 && ByteOf(pos) == 0 && block == At(c, BlockOf(pos) - 1)
    ensures byte != BLOCK_SIZE ==> byte == ByteOf(pos) && block == At(c, BlockOf(pos))
    ensures Where(c, pos + 1, At(c, BlockOf(pos)), ByteOf(pos) + 1)
  {
    if byte == BLOCK_SIZE {
      PositionIs(byte, 1, 0);
      Position(pos);
    } else {
      PositionIs(byte, 0, byte);
    }
    hide BlockOf, ByteOf;
    WhereNext(c, pos, At(c, BlockOf(pos)), ByteOf(pos));
  }

  lemma WhereNext(c: seq<int>, pos: nat, block: int, byte: nat)
    requires Where(c, pos, block, byte) && byte < BLOCK_SIZE
    ensures Where(c, pos + 1, block, byte + 1)
  {
    hide BlockOf, ByteOf;
    NextPosition(pos);
  }

  /** The table links the blocks of every chain. */
  lemma LinksOf(fat: Fat, i: nat)
    requires fat.Valid() && i < |fat.chains|
    ensures forall k :: 0 <= k < |fat.chains[i]| ==>
              0 <= fat.chains[i][k] < fat.table.Length && fat.table[fat.chains[i][k]] == At(fat.chains[i], k + 1)
  {
    assert IsChain(fat.table[..], At(fat.chains[i], 0), fat.chains[i]);
  }

  /** A free slot bears the empty name, so a path that matches no slot is not empty. */
  lemma FreeSlotIsBlank(s: Fs, path: Name)
    requires Inv(s) && FreeSlot(s.dir) < |s.dir| && Lookup(s.dir, path) == |s.dir|
    ensures path != NO_NAME
  {
    hide BlocksOk, SizesOk, RefsOk;
    assert s.dir[FreeSlot(s.dir)].name == NO_NAME;
  }

  lemma BootFilesEmpty(blocks: nat, files: nat, rows: nat, tasks: nat, fds: nat)
    requires files >= 2 && rows >= 2 && tasks >= 1 && fds >= 3
    ensures var s := Boot(blocks, files, rows, tasks, fds);
            forall i :: 0 <= i < |s.dir| ==> s.dir[i].chain == [] && s.dir[i].bytes == []
  {
    BootShape(blocks, files, rows, tasks, fds);
    hide Boot;
  }

  lemma NothingHeld(disk: array2<Byte>)
    requires disk.Length1 == BLOCK_SIZE
    ensures forall c :: Holds(disk, c, [])
  {
  }

  /** An unused slot has no blocks, a regular one has some. */
  lemma SlotOf(s: Fs, i: nat)
    requires Inv(s) && i < |s.dir|
    ensures s.dir[i].kind.Regular? <==> s.dir[i].chain != []
    ensures s.dir[i].kind.Unused? <==> s.dir[i].nRefs == -1
  {
    hide BlocksOk, RefsOk;
  }

  lemma HeadInRange(fat: Fat, i: nat)
    requires fat.Valid() && i < |fat.chains| && fat.chains[i] != []
    ensures 0 <= fat.chains[i][0] < fat.table.Length
  {
  }

  /** Sharing references changes no chain and no byte. */
  lemma {:induction false} ShareKeepsFiles(s: Fs, fds: seq<int>, k: nat)
    requires k <= |fds| && FdsOk(fds, |s.fdt|) && RowsInRange(s.fdt, |s.dir|)
    ensures var s' := Share(s, fds, k);
            s'.blocks == s.blocks && s'.free == s.free && |s'.dir| == |s.dir|
            && forall i :: 0 <= i < |s.dir| ==> s'.dir[i].chain == s.dir[i].chain && s'.dir[i].bytes == s.dir[i].bytes
  {
    if k > 0 {
      ShareKeepsFiles(s, fds, k - 1);
    }
  }
}
