/**
 What the file calls are for: names that map to byte sequences, and handles that remember a position.
 No slot, chain or reference count appears in `Next`, only how much room is left; every run of the kernel's calls is a
 run of it. A reply is an error exactly under the stated condition, and then nothing changes.
 */
module FsService {
  import opened Counting
  import opened FsSpec
  import opened FsInvariant
  import opened FsLost

  /** A handle is shared by the descriptors that were duplicated or inherited from one open call. */
  datatype Handle = Handle(name: Name, mode: int, offset: nat)

  /** What a name stands for: the bytes of a file, or a device and the access it allows. */
  datatype Object = Plain(bytes: seq<Byte>) | Device(kind: Kind, allow: int)

  /**
   `rows` bounds the handles, `slots` names can still be created, and `space` blocks are free. `lost` counts for each
   handle the descriptors that died with a task without being closed.
   */
  datatype Service = Service(files: map<Name, Object>, handles: map<int, Handle>, procs: seq<seq<int>>,
                             rows: nat, slots: nat, space: nat, lost: map<int, int>)

  ghost predicate Unnamed(procs: seq<seq<int>>, row: int) {
    forall t, fd :: 0 <= t < |procs| && 0 <= fd < |procs[t]| ==> procs[t][fd] != row
  }

  ghost predicate Bound(a: Service, t: nat, fd: int) {
    t < |a.procs| && 0 <= fd < |a.procs[t]| && a.procs[t][fd] in a.handles
  }

  ghost predicate HandlesLeft(a: Service) {
    exists row :: 0 <= row < a.rows && row !in a.handles
  }

  ghost predicate Busy(a: Service, path: Name) {
    exists e :: e in a.handles && a.handles[e].name == path
  }

  /** The handle on a file is at `offset` bytes; after `d` it is further by as much. */
  ghost function Advance(a: Service, row: int, d: nat): Service
    requires row in a.handles
  {
    a.(handles := a.handles[row := a.handles[row].(offset := a.handles[row].offset + d)])
  }

  /** The two low bits of the flags; O_EXCL without O_CREAT is the one case where the code does not mask. */
  function AccessMode(flags: int, known: bool): int {
    if O_EXCL <= flags < O_EXCL + O_CREAT then flags - O_CREAT - (if known then 0 else O_EXCL) else flags % 4
  }

  /** Why an existing name is not opened, or 0. */
  function KnownError(f: Object, flags: int): int {
    if flags >= O_EXCL + O_CREAT then -EEXIST
    else if f.Device? && f.allow != O_RDWR && f.allow != AccessMode(flags, true) then -EACCES
    else 0
  }

  /** Why a new name is not created, or 0. */
  function CreateError(a: Service, path: Name, flags: int): int {
    if flags < O_CREAT then -ENOENT
    else if a.slots == 0 then -ENFILE
    else if |path.text| > MAX_NAME_LENGTH - 1 then -ENAMETOOLONG
    else if a.space == 0 then -ENOSPC
    else 0
  }

  ghost function OpenError(a: Service, t: nat, path: Name, flags: int): int
    requires t < |a.procs|
  {
    if |path.text| > MAX_NAME_LENGTH then -ENAMETOOLONG
    else if !HandlesLeft(a) then -ENFILE
    else if FreeFd(a.procs[t]) == |a.procs[t]| then -EMFILE
    else if flags < 0 || flags > 15 then -EINVAL
    else if path in a.files then KnownError(a.files[path], flags)
    else CreateError(a, path, flags)
  }

  /** A new name stands for an empty file, which takes one block. */
  ghost function Created(a: Service, path: Name): Service
    requires path in a.files || (a.slots > 0 && a.space > 0)
  {
    if path in a.files then a
    else a.(files := a.files[path := Plain([])], slots := a.slots - 1, space := a.space - 1)
  }

  /** A new handle at position 0 for the lowest free descriptor, over an empty file if the name is new. */
  ghost predicate Opened(a: Service, t: nat, path: Name, flags: int, r: int, a': Service) {
    && t < |a.procs| && r == FreeFd(a.procs[t]) < |a.procs[t]|
    && (path in a.files || (a.slots > 0 && a.space > 0))
    && exists row ::
         && 0 <= row < a.rows && row !in a.handles && Unnamed(a.procs, row)
         && a' == Created(a, path).(handles := a.handles[row := Handle(path, AccessMode(flags, path in a.files), 0)],
                                    lost := a.lost[row := 0], procs := a.procs[t := a.procs[t][r := row]])
  }

  ghost predicate OpenNext(a: Service, t: nat, path: Name, flags: int, r: int, a': Service) {
    && t < |a.procs|
    && if path == NO_NAME then r < 0 && a' == a
       else if OpenError(a, t, path, flags) != 0 then r == OpenError(a, t, path, flags) && a' == a
       else Opened(a, t, path, flags, r, a')
  }

  /** Why a name is not unlinked, or 0. Free names are all empty, and busy. */
  ghost function UnlinkError(a: Service, path: Name): int {
    if |path.text| > MAX_NAME_LENGTH then -ENAMETOOLONG
    else if path == NO_NAME then if a.slots > 0 then -EBUSY else -ENOENT
    else if path !in a.files then -ENOENT
    else if Busy(a, path) then -EBUSY
    else 0
  }

  /** Unlinking removes just that name and gives its blocks back. */
  ghost predicate UnlinkNext(a: Service, path: Name, r: int, a': Service) {
    && r == UnlinkError(a, path)
    && a' == if r != 0 then a
             else a.(files := a.files - {path}, slots := a.slots + 1,
                     space := a.space + if a.files[path].Plain? then Blocks(|a.files[path].bytes|) else 0)
  }

  /** Why a read is not served by a file or a device, or 0. */
  ghost function ReadError(a: Service, t: nat, fd: int, size: int): int {
    if !Bound(a, t, fd) then -EBADF
    else if size < 0 then -EINVAL
    else if size > MAX_TRANSFER then -EFBIG
    else if a.handles[a.procs[t][fd]].mode == O_WRONLY then -EBADF
    else 0
  }

  /** A file answers with the bytes at the handle's position, which moves past them. */
  ghost predicate ReadNext(a: Service, t: nat, fd: int, size: int, r: Reply, a': Service) {
    if ReadError(a, t, fd, size) != 0 then r == Code(ReadError(a, t, fd, size)) && a' == a
    else
      var row := a.procs[t][fd];
      var h := a.handles[row];
      && h.name in a.files
      && match a.files[h.name]
         case Plain(bytes) =>
           && h.offset <= |bytes|
           && var n := ReadLength(size, h.offset, |bytes|);
              r == Data(bytes[h.offset..h.offset + n]) && a' == Advance(a, row, n)
         case Device(kind, _) => a' == a && r == if kind.Keyboard? then Driver else Code(-ENOSYS)
  }

  /** `data` is spliced into the file at the handle's position; blocks for the bytes past its end are taken. */
  ghost predicate Wrote(a: Service, row: int, data: seq<Byte>, a': Service)
    requires OnFile(a, row)
  {
    var h := a.handles[row];
    var before := a.files[h.name].bytes;
    && h.offset <= |before|
    && var bytes := Splice(before, h.offset, data);
       && 0 <= Blocks(|bytes|) - Blocks(|before|) <= a.space
       && a' == Advance(a, row, |data|).(files := a.files[h.name := Plain(bytes)],
                                         space := a.space - (Blocks(|bytes|) - Blocks(|before|)))
  }

  ghost predicate OnFile(a: Service, row: int) {
    row in a.handles && a.handles[row].name in a.files && a.files[a.handles[row].name].Plain?
  }

  ghost function WriteError(a: Service, t: nat, fd: int, size: int): int {
    if !Bound(a, t, fd) then -EBADF
    else if size > MAX_TRANSFER then -EFBIG
    else if size < 0 then -EINVAL
    else if a.handles[a.procs[t][fd]].mode == O_RDONLY then -EBADF
    else 0
  }

  /** Bytes that fit between the handle's position and the end of the file's blocks and the free ones. */
  ghost function Fits(a: Service, row: int): int
    requires OnFile(a, row)
  {
    (Blocks(|a.files[a.handles[row].name].bytes|) + a.space) * BLOCK_SIZE - a.handles[row].offset
  }

  /** A file takes all the data if it fits, or the longest prefix that does. */
  ghost predicate WriteNext(a: Service, t: nat, fd: int, size: int, buffer: seq<Byte>, r: Reply, a': Service)
    requires size <= |buffer|
  {
    if WriteError(a, t, fd, size) != 0 then r == Code(WriteError(a, t, fd, size)) && a' == a
    else
      var data := buffer[..size];
      var row := a.procs[t][fd];
      var h := a.handles[row];
      && h.name in a.files
      && match a.files[h.name]
         case Plain(_) =>
           if |data| <= Fits(a, row) then r == Code(|data|) && Wrote(a, row, data, a')
           else r == Code(-ENOSPC) && Fits(a, row) >= 0 && Wrote(a, row, data[..Fits(a, row)], a')
         case Device(kind, _) => a' == a && r == if kind.Display? then Driver else Code(-EINVAL)
  }

  ghost predicate DupNext(a: Service, t: nat, fd: int, r: int, a': Service) {
    if !Bound(a, t, fd) then r == -EBADF && a' == a
    else if FreeFd(a.procs[t]) == |a.procs[t]| then r == -EMFILE && a' == a
    else r == FreeFd(a.procs[t]) && a' == a.(procs := a.procs[t := a.procs[t][r := a.procs[t][fd]]])
  }

  /** Closing unbinds one descriptor; the handle goes exactly if that was its last one and it has lost none. */
  ghost predicate CloseNext(a: Service, t: nat, fd: int, r: int, a': Service) {
    if !Bound(a, t, fd) then r == -EBADF && a' == a
    else
      var row := a.procs[t][fd];
      var procs := a.procs[t := a.procs[t][fd := -1]];
      && r == 0 && row in a.lost
      && a' == if Unnamed(procs, row) && a.lost[row] == 0 then
                 a.(procs := procs, handles := a.handles - {row}, lost := a.lost - {row})
               else a.(procs := procs)
  }

  /** A task that exits leaves its handles with a descriptor less, which they have lost. */
  ghost function Exited(a: Service, t: nat): Service
    requires t < |a.procs|
  {
    a.(procs := a.procs[t := []], lost := map e | e in a.lost :: a.lost[e] + Count(a.procs[t], e))
  }

  ghost predicate Next(a: Service, op: Op, r: Reply, a': Service) {
    match op
    case Open(t, path, flags) => r.Code? && OpenNext(a, t, path, flags, r.code, a')
    case Dup(t, fd) => r.Code? && DupNext(a, t, fd, r.code, a')
    case Close(t, fd) => r.Code? && CloseNext(a, t, fd, r.code, a')
    case Fork(t, child) => t < |a.procs| && child < |a.procs| && r == Code(0)
      && a' == a.(procs := a.procs[child := a.procs[t]])
    case Exit(t) => t < |a.procs| && r == Code(0) && a' == Exited(a, t)
    case Unlink(path) => r.Code? && UnlinkNext(a, path, r.code, a')
    case Read(t, fd, size) => ReadNext(a, t, fd, size, r, a')
    case Write(t, fd, size, buffer) => size <= |buffer| && WriteNext(a, t, fd, size, buffer, r, a')
  }

  /**
   Whether a call fails, how, and what it returns is settled by the names, handles and room there are; so is what it
   does, but for which free handle an open takes. An error changes nothing, unless it is that of a write that stored a
   part.
   */
  lemma CallIsDetermined(a: Service, op: Op, r1: Reply, a1: Service, r2: Reply, a2: Service)
    requires Next(a, op, r1, a1) && Next(a, op, r2, a2) && !(op.Open? && op.path == NO_NAME)
    ensures r1 == r2
    ensures !op.Open? ==> a1 == a2
    ensures r1.Code? && r1.code < 0 && !(op.Write? && r1.code == -ENOSPC) ==> a1 == a2 == a
  {
    hide Advance, Created, Splice, ReadLength, Blocks, FreeFd, Unnamed;
  }

  // ---------------------------------------------------------------- the abstraction

  function Content(f: File): Object {
    if f.kind.Regular? then Plain(f.bytes) else Device(f.kind, f.allow)
  }

  ghost function Names(dir: seq<File>): set<Name> {
    set i | 0 <= i < |dir| && !dir[i].kind.Unused? :: dir[i].name
  }

  ghost function Files(dir: seq<File>): map<Name, Object> {
    map n | n in Names(dir) && Lookup(dir, n) < |dir| :: Content(dir[Lookup(dir, n)])
  }

  ghost function Handles(dir: seq<File>, fdt: seq<Row>): map<int, Handle> {
    map e | 0 <= e < |fdt| && fdt[e].refs > 0 && fdt[e].file < |dir| ::
      Handle(dir[fdt[e].file].name, fdt[e].mode, fdt[e].offset)
  }

  ghost function FreeSlots(dir: seq<File>): nat {
    if dir == [] then 0 else FreeSlots(dir[..|dir| - 1]) + if dir[|dir| - 1].kind.Unused? then 1 else 0
  }

  ghost function Abs(s: Fs): Service {
    Service(Files(s.dir), Handles(s.dir, s.fdt), s.procs, |s.fdt|, FreeSlots(s.dir), |s.free|, Losses(s))
  }

  predicate InUse(s: Fs, e: int) {
    0 <= e < |s.fdt| && s.fdt[e].refs > 0 && s.fdt[e].file < |s.dir|
  }

  ghost function Losses(s: Fs): map<int, int> {
    map e | 0 <= e < |s.fdt| && InUse(s, e) :: Lost(s, e)
  }

  lemma LossesFrame(s: Fs, s': Fs)
    requires SameLost(s, s') && forall e :: 0 <= e < |s.fdt| ==> (InUse(s', e) <==> InUse(s, e))
    ensures Losses(s') == Losses(s)
  {
    hide Lost, InUse;
  }

  lemma {:induction false} UnnamedIff(procs: seq<seq<int>>, e: int)
    ensures Unnamed(procs, e) <==> Named(procs, e) == 0
  {
    if procs != [] {
      var n := |procs| - 1;
      UnnamedIff(procs[..n], e);
      CountIn(procs[n], e);
      if Unnamed(procs[..n], e) && e !in procs[n] {
        assert forall t, fd :: 0 <= t < |procs| && 0 <= fd < |procs[t]| ==>
                 procs[t][fd] in (if t < n then procs[..n][t] else procs[n]);
      } else if e in procs[n] {
        var fd :| 0 <= fd < |procs[n]| && procs[n][fd] == e;
      } else {
        var t, fd :| 0 <= t < n && 0 <= fd < |procs[..n][t]| && procs[..n][t][fd] == e;
        assert procs[t][fd] == e;
      }
    }
  }

  lemma {:induction false} FreeSlotsUpdate(dir: seq<File>, i: nat, f: File)
    requires i < |dir|
    ensures FreeSlots(dir[i := f])
            == FreeSlots(dir) - (if dir[i].kind.Unused? then 1 else 0) + if f.kind.Unused? then 1 else 0
  {
    var n := |dir| - 1;
    if i < n {
      FreeSlotsUpdate(dir[..n], i, f);
      assert dir[i := f][..n] == dir[..n][i := f];
    } else {
      assert dir[i := f][..n] == dir[..n];
    }
  }

  lemma {:induction false} FreeSlotsFrame(dir: seq<File>, dir': seq<File>)
    requires |dir'| == |dir| && forall i :: 0 <= i < |dir| ==> dir'[i].kind == dir[i].kind
    ensures FreeSlots(dir') == FreeSlots(dir)
  {
    if dir != [] {
      FreeSlotsFrame(dir[..|dir| - 1], dir'[..|dir| - 1]);
    }
  }

  /** A free slot is counted, so the scan finds one exactly if some are left. */
  lemma {:induction false} SlotsLeft(dir: seq<File>)
    ensures FreeSlots(dir) > 0 <==> exists i :: 0 <= i < |dir| && dir[i].kind.Unused?
  {
    if dir != [] {
      var n := |dir| - 1;
      SlotsLeft(dir[..n]);
      if i :| 0 <= i < n && dir[i].kind.Unused? {
        assert dir[..n][i].kind.Unused?;
      }
    }
  }

  /** Looking a live name up finds the slot that has it. */
  lemma LookupFinds(dir: seq<File>, i: nat)
    requires NamesOk(dir) && i < |dir| && !dir[i].kind.Unused?
    ensures Lookup(dir, dir[i].name) == i
  {
    var j := Lookup(dir, dir[i].name);
    assert dir[i].name == dir[j].name;
    assert dir[i].name != NO_NAME;
  }

  /** The name of a live slot is mapped to its content. */
  lemma FileAt(dir: seq<File>, i: nat)
    requires NamesOk(dir) && i < |dir| && !dir[i].kind.Unused?
    ensures dir[i].name in Files(dir) && Files(dir)[dir[i].name] == Content(dir[i])
  {
    LookupFinds(dir, i);
    assert dir[i].name in Names(dir);
  }

  /** Nothing else is mapped. */
  lemma FileNamed(dir: seq<File>, n: Name) returns (k: nat)
    requires NamesOk(dir) && n in Files(dir)
    ensures k < |dir| && !dir[k].kind.Unused? && dir[k].name == n && Files(dir)[n] == Content(dir[k])
  {
    k :| k < |dir| && !dir[k].kind.Unused? && dir[k].name == n;
    LookupFinds(dir, k);
  }

  /** The directory and its abstraction agree on which names exist. */
  lemma KnownIff(s: Fs, path: Name)
    requires NamesOk(s.dir)
    ensures path in Files(s.dir) <==> path != NO_NAME && Lookup(s.dir, path) < |s.dir|
    ensures path in Files(s.dir) ==> Files(s.dir)[path] == Content(s.dir[Lookup(s.dir, path)])
  {
    var i := Lookup(s.dir, path);
    if path != NO_NAME && i < |s.dir| {
      FileAt(s.dir, i);
    }
  }

  /** The file map after slot i is replaced: its old name goes, its new one comes. */
  ghost function FilesWith(dir: seq<File>, i: nat, f: File): map<Name, Object>
    requires i < |dir|
  {
    (Files(dir) - (if dir[i].kind.Unused? then {} else {dir[i].name}))
    + (if f.kind.Unused? then map[] else map[f.name := Content(f)])
  }

  lemma FilesUpdateAt(dir: seq<File>, i: nat, f: File, n: Name)
    requires NamesOk(dir) && i < |dir| && NamesOk(dir[i := f])
    ensures n in Files(dir[i := f]) <==> n in FilesWith(dir, i, f)
    ensures n in FilesWith(dir, i, f) ==> n in Files(dir[i := f]) && Files(dir[i := f])[n] == FilesWith(dir, i, f)[n]
  {
    hide Files, Content;
    var dir' := dir[i := f];
    if n in Files(dir') {
      var k := FileNamed(dir', n);
      if k != i {
        assert dir'[k] == dir[k] && dir'[i] == f && n != f.name;
        FileAt(dir, k);
      }
    }
    if n == f.name && !f.kind.Unused? {
      FileAt(dir', i);
    } else if n in Files(dir) {
      var k := FileNamed(dir, n);
      if k != i {
        assert dir'[k] == dir[k];
        FileAt(dir', k);
      }
    }
  }

  lemma FilesUpdate(dir: seq<File>, i: nat, f: File)
    requires NamesOk(dir) && i < |dir| && NamesOk(dir[i := f])
    ensures Files(dir[i := f]) == FilesWith(dir, i, f)
  {
    hide Files, FilesWith, NamesOk;
    forall n
      ensures n in Files(dir[i := f]) <==> n in FilesWith(dir, i, f)
      ensures n in FilesWith(dir, i, f) ==> n in Files(dir[i := f]) && Files(dir[i := f])[n] == FilesWith(dir, i, f)[n]
    {
      FilesUpdateAt(dir, i, f, n);
    }
  }

  lemma HandlesUpdate(dir: seq<File>, fdt: seq<Row>, e: nat, o: Row)
    requires e < |fdt| && o.file < |dir|
    ensures Handles(dir, fdt[e := o]) ==
            if o.refs > 0 then Handles(dir, fdt)[e := Handle(dir[o.file].name, o.mode, o.offset)]
            else Handles(dir, fdt) - {e}
  {
  }

  lemma HandlesFrame(dir: seq<File>, dir': seq<File>, fdt: seq<Row>)
    requires |dir'| == |dir|
    requires forall e :: 0 <= e < |fdt| && fdt[e].refs > 0 && fdt[e].file < |dir| ==>
               dir'[fdt[e].file].name == dir[fdt[e].file].name
    ensures Handles(dir', fdt) == Handles(dir, fdt)
  {
  }

  // ---------------------------------------------------------------- frames

  /** Only reference counts differ, and no row came into use or went out of it. */
  ghost predicate SameButCounts(s: Fs, s': Fs) {
    && |s'.dir| == |s.dir| && |s'.fdt| == |s.fdt| && s'.free == s.free
    && (forall i :: 0 <= i < |s.dir| ==> s'.dir[i] == s.dir[i].(nRefs := s'.dir[i].nRefs))
    && (forall e :: 0 <= e < |s.fdt| ==>
          s'.fdt[e] == s.fdt[e].(refs := s'.fdt[e].refs)
          && (s'.fdt[e].refs > 0 <==> s.fdt[e].refs > 0))
  }

  lemma AbsFrame(s: Fs, s': Fs)
    requires NamesOk(s.dir) && NamesOk(s'.dir) && SameButCounts(s, s') && SameLost(s, s')
    ensures Abs(s') == Abs(s).(procs := s'.procs)
  {
    LossesFrame(s, s');
    DirFrame(s.dir, s'.dir);
    assert Handles(s'.dir, s'.fdt) == Handles(s.dir, s.fdt);
  }

  lemma DirFrame(dir: seq<File>, dir': seq<File>)
    requires NamesOk(dir) && NamesOk(dir') && |dir'| == |dir|
    requires forall i :: 0 <= i < |dir| ==> dir'[i] == dir[i].(nRefs := dir'[i].nRefs)
    ensures Files(dir') == Files(dir) && FreeSlots(dir') == FreeSlots(dir)
  {
    FreeSlotsFrame(dir, dir');
    hide Files;
    forall n | n in Files(dir) ensures n in Files(dir') && Files(dir')[n] == Files(dir)[n] {
      var k := FileNamed(dir, n);
      FileAt(dir', k);
    }
    forall n | n in Files(dir') ensures n in Files(dir) {
      var k := FileNamed(dir', n);
      FileAt(dir, k);
    }
  }

  /** A row that no descriptor could name is in use by nobody. */
  lemma NotInUse(s: Fs, row: int)
    requires Inv(s) && 0 <= row < |s.fdt| && s.fdt[row].refs <= 0
    ensures Unnamed(s.procs, row)
  {
    hide BlocksOk, SizesOk, NamesOk, SumsOk;
    forall t, fd | 0 <= t < |s.procs| && 0 <= fd < |s.procs[t]| ensures s.procs[t][fd] != row {
      TotalHas(s.procs, t, fd);
    }
  }

  lemma BoundIff(s: Fs, t: nat, fd: int)
    requires Inv(s) && t < |s.procs|
    ensures Bound(Abs(s), t, fd) <==> HasFd(s, t, fd)
    ensures HasFd(s, t, fd) ==> var e := RowOf(s, t, fd);
              0 <= e < |s.fdt| && s.fdt[e].refs > 0 && RowOk(s.dir, s.fdt[e]) && !s.dir[s.fdt[e].file].kind.Unused?
  {
    if HasFd(s, t, fd) {
      DescriptorIsOpen(s, t, fd);
    }
  }

  lemma NamesOf(s: Fs)
    requires Inv(s)
    ensures NamesOk(s.dir) && RowsOk(s.dir, s.fdt)
  {
  }

  // ---------------------------------------------------------------- each call

  lemma AttachRefines(s: Fs, t: nat, fd: nat, row: nat, i: nat, mode: int)
    requires Inv(s) && t < |s.procs| && fd < |s.procs[t]| && s.procs[t][fd] == -1
    requires row < |s.fdt| && s.fdt[row].refs <= 0 && i < |s.dir| && !s.dir[i].kind.Unused?
    ensures var a := Abs(s);
            Abs(Attach(s, t, fd, row, i, mode)) ==
            a.(handles := a.handles[row := Handle(s.dir[i].name, mode, 0)], lost := a.lost[row := 0],
               procs := a.procs[t := a.procs[t][fd := row]])
  {
    hide Inv, NamesOk, RowsOk, Files, Handles, FreeSlots, Lost;
    var s' := Attach(s, t, fd, row, i, mode);
    AttachLost(s, t, fd, row, i, mode);
    assert Losses(s') == Losses(s)[row := 0];
    hide Losses;
    AttachInv(s, t, fd, row, i, mode);
    NamesOf(s);
    NamesOf(s');
    DirFrame(s.dir, s'.dir);
    HandlesFrame(s.dir, s'.dir, s'.fdt);
    HandlesUpdate(s.dir, s.fdt, row, s'.fdt[row]);
  }

  lemma CreateRefines(s: Fs, path: Name)
    requires Inv(s) && path != NO_NAME && Lookup(s.dir, path) == |s.dir| && CreateFile(s, path).Created?
    ensures var a := Abs(s);
            path !in a.files && a.slots > 0 && a.space > 0 && Abs(CreateFile(s, path).s) == Created(a, path)
  {
    hide Inv, NamesOk, Files, Handles, Lookup, FreeSlot, Names, FreeSlots;
    CreateInv(s, path);
    var Created(s', i) := CreateFile(s, path);
    NamesOf(s);
    NamesOf(s');
    KnownIff(s, path);
    assert s'.dir == s.dir[i := s'.dir[i]] && s'.fdt == s.fdt && s'.procs == s.procs;
    FilesUpdate(s.dir, i, s'.dir[i]);
    FreeSlotsUpdate(s.dir, i, s'.dir[i]);
    SlotsLeft(s.dir);
    forall e | 0 <= e < |s.fdt| && s.fdt[e].refs > 0 ensures s.fdt[e].file != i {
      assert RowOk(s.dir, s.fdt[e]);
    }
    HandlesFrame(s.dir, s'.dir, s.fdt);
    LossesFrame(s, s');
  }

  lemma HandlesLeftIff(s: Fs)
    requires RowsOk(s.dir, s.fdt)
    ensures HandlesLeft(Abs(s)) <==> FreeRow(s.fdt) < |s.fdt|
    ensures FreeRow(s.fdt) !in Abs(s).handles
  {
    var a, row := Abs(s), FreeRow(s.fdt);
    if row < |s.fdt| {
      assert 0 <= row < a.rows && row !in a.handles;
    }
    assert forall e :: 0 <= e < |s.fdt| ==> RowOk(s.dir, s.fdt[e]);
  }

  /** The scan for an unused slot succeeds exactly if names can still be created. */
  lemma SlotsLeftIff(s: Fs)
    requires NamesOk(s.dir)
    ensures Abs(s).slots > 0 <==> FreeSlot(s.dir) < |s.dir|
    ensures Abs(s).slots > 0 <==> Lookup(s.dir, NO_NAME) < |s.dir|
  {
    SlotsLeft(s.dir);
    if FreeSlot(s.dir) < |s.dir| {
      assert s.dir[FreeSlot(s.dir)].kind.Unused?;
    }
    if Lookup(s.dir, NO_NAME) < |s.dir| {
      assert s.dir[Lookup(s.dir, NO_NAME)].kind.Unused?;
    }
    if i :| 0 <= i < |s.dir| && s.dir[i].kind.Unused? {
      assert s.dir[i].name == NO_NAME && s.dir[i].nRefs == -1;
    }
  }

  /** The code's checks, in its order, are the service's. */
  lemma OpenErrorIs(s: Fs, t: nat, path: Name, flags: int)
    requires Inv(s) && t < |s.procs| && path != NO_NAME
    ensures var (s', r) := OpenFile(s, t, path, flags);
            var error := OpenError(Abs(s), t, path, flags);
            if error != 0 then s' == s && r == Code(error)
            else r == Code(FreeFd(s.procs[t])) && FreeFd(s.procs[t]) < |s.procs[t]| && FreeRow(s.fdt) < |s.fdt|
                 && (if path in Abs(s).files then flags < O_EXCL + O_CREAT
                     else O_CREAT <= flags && CreateFile(s, path).Created?)
                 && 0 <= flags <= 15
  {
    hide Inv, NamesOk, RowsOk, Files, Handles, Lookup, FreeRow, FreeFd, FreeSlot, HandlesLeft, FreeSlots, Attach;
    NamesOf(s);
    HandlesLeftIff(s);
    SlotsLeftIff(s);
    KnownIff(s, path);
    if Lookup(s.dir, path) < |s.dir| {
      KnownAllow(s, path);
    }
  }

  /** Only devices restrict the access. */
  lemma KnownAllow(s: Fs, path: Name)
    requires NamesOk(s.dir) && path != NO_NAME && Lookup(s.dir, path) < |s.dir|
    ensures var f := s.dir[Lookup(s.dir, path)];
            !f.kind.Unused? && (f.kind.Regular? ==> f.allow == O_RDWR)
  {
  }

  lemma OpenWitness(a: Service, t: nat, path: Name, flags: int, r: nat, a': Service, row: int)
    requires t < |a.procs| && r == FreeFd(a.procs[t]) < |a.procs[t]|
    requires path in a.files || (a.slots > 0 && a.space > 0)
    requires 0 <= row < a.rows && row !in a.handles && Unnamed(a.procs, row)
    requires a' == Created(a, path).(handles := a.handles[row := Handle(path, AccessMode(flags, path in a.files), 0)],
                                     lost := a.lost[row := 0], procs := a.procs[t := a.procs[t][r := row]])
    ensures Opened(a, t, path, flags, r, a')
  {
  }

  lemma OpenRefines(s: Fs, t: nat, path: Name, flags: int)
    requires Inv(s) && t < |s.procs| && (path == NO_NAME ==> !OpensBlank(s, t, flags))
    ensures var (s', r) := OpenFile(s, t, path, flags);
            r.Code? && OpenNext(Abs(s), t, path, flags, r.code, Abs(s'))
  {
    if path == NO_NAME {
      BlankOpen(s, t, flags);
    } else {
      OpenErrorIs(s, t, path, flags);
      hide OpenFile, OpenError, Opened, Inv;
      if OpenError(Abs(s), t, path, flags) == 0 {
        NamedOpenRefines(s, t, path, flags);
      }
    }
  }

  /** sys_open, when no check fails: a fresh row over the slot of the name, which may have to be filled first. */
  lemma OpenFileIs(s: Fs, t: nat, path: Name, flags: int)
    requires Inv(s) && t < |s.procs| && path != NO_NAME && OpenError(Abs(s), t, path, flags) == 0
    ensures var row, fd, i := FreeRow(s.fdt), FreeFd(s.procs[t]), Lookup(s.dir, path);
            var mode := AccessMode(flags, i < |s.dir|);
            && fd < |s.procs[t]| && row < |s.fdt|
            && (path in Abs(s).files <==> i < |s.dir|)
            && if i < |s.dir| then
                 !s.dir[i].kind.Unused? && OpenFile(s, t, path, flags).0 == Attach(s, t, fd, row, i, mode)
               else match CreateFile(s, path)
                    case Refused(_) => false
                    case Created(s1, j) =>
                      && |s1.procs| == |s.procs| && |s1.fdt| == |s.fdt| && s1.procs == s.procs && s1.fdt == s.fdt
                      && j < |s1.dir| && s1.dir[j].name == path
                      && OpenFile(s, t, path, flags).0 == Attach(s1, t, fd, row, j, mode)
  {
    hide Inv, NamesOk, RowsOk, Files, Handles, Lookup, FreeRow, FreeFd, FreeSlot, Attach, OpenError, FreeSlots,
         HandlesLeft;
    NamesOf(s);
    OpenErrorIs(s, t, path, flags);
    KnownIff(s, path);
    if Lookup(s.dir, path) < |s.dir| {
      KnownAllow(s, path);
    }
  }

  lemma NamedOpenRefines(s: Fs, t: nat, path: Name, flags: int)
    requires Inv(s) && t < |s.procs| && path != NO_NAME && OpenError(Abs(s), t, path, flags) == 0
    ensures Opened(Abs(s), t, path, flags, FreeFd(s.procs[t]), Abs(OpenFile(s, t, path, flags).0))
  {
    hide Inv, Files, Handles, Lookup, FreeRow, FreeFd, Unnamed, Attach, OpenError, FreeSlots, Opened, OpenFile,
         CreateFile, AccessMode;
    OpenFileIs(s, t, path, flags);
    var row, fd, i := FreeRow(s.fdt), FreeFd(s.procs[t]), Lookup(s.dir, path);
    NamesOf(s);
    NotInUse(s, row);
    HandlesLeftIff(s);
    var mode := AccessMode(flags, i < |s.dir|);
    if i == |s.dir| {
      CreateInv(s, path);
      CreateRefines(s, path);
      var Created(s1, j) := CreateFile(s, path);
      AttachRefines(s1, t, fd, row, j, mode);
    } else {
      AttachRefines(s, t, fd, row, i, mode);
    }
    OpenWitness(Abs(s), t, path, flags, fd, Abs(OpenFile(s, t, path, flags).0), row);
  }

  lemma DupRefines(s: Fs, t: nat, fd: int)
    requires Inv(s) && t < |s.procs|
    ensures RowsInRange(s.fdt, |s.dir|)
    ensures var (s', r) := DupFd(s, t, fd); r.Code? && DupNext(Abs(s), t, fd, r.code, Abs(s'))
  {
    hide BlocksOk, SizesOk, SumsOk, NamedOk, NamesOk, Files, Handles, FreeSlots, FreeFd;
    DupInv(s, t, fd);
    DupLost(s, t, fd);
    BoundIff(s, t, fd);
    var (s', r) := DupFd(s, t, fd);
    if r.code >= 0 {
      AbsFrame(s, s');
    }
  }

  lemma CloseRefines(s: Fs, t: nat, fd: int)
    requires Inv(s) && t < |s.procs| && (HasFd(s, t, fd) ==> CloseIsSafe(s, RowOf(s, t, fd)))
    ensures RowsInRange(s.fdt, |s.dir|)
    ensures var (s', r) := CloseFd(s, t, fd); r.Code? && CloseNext(Abs(s), t, fd, r.code, Abs(s'))
  {
    hide BlocksOk, SizesOk, SumsOk, NamedOk, NamesOk, Files, Handles, FreeSlots, Unnamed, Named;
    CloseLost(s, t, fd);
    BoundIff(s, t, fd);
    var (s', r) := CloseFd(s, t, fd);
    if r.code >= 0 {
      CloseInvIff(s, t, fd);
      var e := RowOf(s, t, fd);
      UnnamedIff(s'.procs, e);
      assert Lost(s', e) == Lost(s, e);
      if s'.fdt[e].refs > 0 {
        AbsFrame(s, s');
      } else {
        NotInUse(s', e);
        DirFrame(s.dir, s'.dir);
        HandlesFrame(s.dir, s'.dir, s'.fdt);
        HandlesUpdate(s.dir, s.fdt, e, s'.fdt[e]);
        assert Losses(s') == Losses(s) - {e};
      }
    }
  }

  lemma {:induction false} ShareFrame(s: Fs, fds: seq<int>, k: nat)
    requires k <= |fds| && FdsOk(fds, |s.fdt|) && RowsInRange(s.fdt, |s.dir|)
    requires forall fd :: 0 <= fd < |fds| && fds[fd] != -1 ==> s.fdt[fds[fd]].refs > 0
    ensures SameButCounts(s, Share(s, fds, k))
    ensures forall e :: 0 <= e < |s.fdt| ==> Share(s, fds, k).fdt[e].refs >= s.fdt[e].refs
  {
    if k > 0 {
      ShareFrame(s, fds, k - 1);
    }
  }

  lemma ForkRefines(s: Fs, t: nat, child: nat)
    requires Inv(s) && t < |s.procs| && child < |s.procs| && s.procs[child] == []
    ensures RowsInRange(s.fdt, |s.dir|)
    ensures Abs(ForkFds(s, t, child)) == Abs(s).(procs := s.procs[child := s.procs[t]])
  {
    ForkInv(s, t, child);
    hide BlocksOk, SizesOk, SumsOk, NamedOk;
    forall fd | 0 <= fd < |s.procs[t]| && s.procs[t][fd] != -1 ensures s.fdt[s.procs[t][fd]].refs > 0 {
      DescriptorIsOpen(s, t, fd);
    }
    assert FdsOk(s.procs[t], |s.fdt|);
    ShareFrame(s, s.procs[t], |s.procs[t]|);
    ForkLost(s, t, child);
    AbsFrame(s, ForkFds(s, t, child));
  }

  /** A slot without handles counts no references. */
  lemma {:induction false} NoRowsNoRefs(fdt: seq<Row>, i: nat)
    requires forall e :: 0 <= e < |fdt| && fdt[e].file == i ==> fdt[e].refs == 0
    ensures RefSum(fdt, i) == 0
  {
    if fdt != [] {
      NoRowsNoRefs(fdt[..|fdt| - 1], i);
    }
  }

  lemma BusyIff(s: Fs, i: nat)
    requires Inv(s) && i < |s.dir| && !s.dir[i].kind.Unused?
    ensures s.dir[i].nRefs != 0 <==> Busy(Abs(s), s.dir[i].name)
  {
    hide BlocksOk, SizesOk, NamedOk, Files, FreeSlots;
    var hs := Handles(s.dir, s.fdt);
    assert forall e :: 0 <= e < |s.fdt| ==> RowOk(s.dir, s.fdt[e]);
    if s.dir[i].nRefs == 0 {
      forall e | e in hs ensures hs[e].name != s.dir[i].name {
        RefSumCovers(s.fdt, e, i);
        assert s.fdt[e].file != i;
      }
    } else if forall e :: e in hs ==> hs[e].name != s.dir[i].name {
      assert forall e :: 0 <= e < |s.fdt| && s.fdt[e].file == i ==> e !in hs;
      NoRowsNoRefs(s.fdt, i);
      assert false;
    }
  }

  lemma UnlinkRefines(s: Fs, path: Name)
    requires Inv(s)
    ensures var (s', r) := UnlinkFile(s, path); r.Code? && UnlinkNext(Abs(s), path, r.code, Abs(s'))
  {
    UnlinkErrorIs(s, path);
    hide UnlinkError;
    if UnlinkError(Abs(s), path) == 0 {
      UnlinkedRefines(s, path);
    }
  }

  lemma UnlinkErrorIs(s: Fs, path: Name)
    requires Inv(s)
    ensures var error := UnlinkError(Abs(s), path);
            UnlinkFile(s, path).1 == Code(error) && (error != 0 ==> UnlinkFile(s, path).0 == s)
    ensures UnlinkError(Abs(s), path) == 0 ==>
              var i := Lookup(s.dir, path);
              i < |s.dir| && !s.dir[i].kind.Unused? && s.dir[i].name == path && s.dir[i].nRefs == 0
  {
    hide Inv, NamesOk, RowsOk, Files, Handles, Lookup, FreeSlots, Busy;
    NamesOf(s);
    KnownIff(s, path);
    SlotsLeftIff(s);
    var i := Lookup(s.dir, path);
    if i < |s.dir| {
      if path == NO_NAME {
        BlankIsFree(s.dir, i);
      } else {
        KnownAllow(s, path);
        BusyIff(s, i);
      }
    }
  }

  lemma BlankIsFree(dir: seq<File>, i: nat)
    requires NamesOk(dir) && i < |dir| && dir[i].name == NO_NAME
    ensures dir[i].nRefs == -1
  {
  }

  lemma UnlinkedRefines(s: Fs, path: Name)
    requires Inv(s) && UnlinkError(Abs(s), path) == 0
    ensures UnlinkNext(Abs(s), path, 0, Abs(UnlinkFile(s, path).0))
  {
    hide Inv, NamesOk, RowsOk, Files, Handles, Lookup, FreeSlots, UnlinkError, Blocks;
    UnlinkErrorIs(s, path);
    UnlinkInv(s, path);
    var i, s' := Lookup(s.dir, path), UnlinkFile(s, path).0;
    assert s' == s.(free := s.free + s.dir[i].chain,
                    dir := s.dir[i := File(NO_NAME, Unused, s.dir[i].allow, -1, [], [])]);
    hide UnlinkFile;
    NamesOf(s);
    NamesOf(s');
    FileAt(s.dir, i);
    FilesUpdate(s.dir, i, s'.dir[i]);
    FreeSlotsUpdate(s.dir, i, s'.dir[i]);
    SizeOf(s, i);
    UnlinkKeepsHandles(s, i, s'.dir[i]);
    LossesFrame(s, s');
  }

  lemma UnlinkKeepsHandles(s: Fs, i: nat, f: File)
    requires Inv(s) && i < |s.dir| && s.dir[i].nRefs == 0
    ensures Handles(s.dir[i := f], s.fdt) == Handles(s.dir, s.fdt)
  {
    hide Inv, Handles;
    forall e | 0 <= e < |s.fdt| && s.fdt[e].refs > 0 ensures s.fdt[e].file != i {
      OpenRowIsCounted(s, e);
    }
    HandlesFrame(s.dir, s.dir[i := f], s.fdt);
  }

  /** A slot without references has no row in use. */
  lemma OpenRowIsCounted(s: Fs, e: nat)
    requires Inv(s) && e < |s.fdt| && s.fdt[e].refs > 0
    ensures s.fdt[e].file < |s.dir| && s.dir[s.fdt[e].file].nRefs > 0
  {
    hide BlocksOk, SizesOk, NamesOk, NamedOk;
    assert forall k :: 0 <= k < |s.fdt| ==> RowOk(s.dir, s.fdt[k]);
    RefSumCovers(s.fdt, e, s.fdt[e].file);
  }

  lemma SizeOf(s: Fs, i: nat)
    requires Inv(s) && i < |s.dir|
    ensures |s.dir[i].chain| == if s.dir[i].kind.Regular? then Blocks(|s.dir[i].bytes|) else 0
  {
    hide BlocksOk, NamesOk, RefsOk;
  }

  lemma ReadRefines(s: Fs, t: nat, fd: int, size: int)
    requires Inv(s) && t < |s.procs|
    ensures var (s', r) := ReadFd(s, t, fd, size); ReadNext(Abs(s), t, fd, size, r, Abs(s'))
  {
    hide Inv, NamesOk, Files, RowsOk, Lookup, Bound, FreeSlots, ReadLength;
    BoundIff(s, t, fd);
    var (s', r) := ReadFd(s, t, fd, size);
    if ReadError(Abs(s), t, fd, size) == 0 {
      var e := RowOf(s, t, fd);
      var o := s.fdt[e];
      NamesOf(s);
      FileAt(s.dir, o.file);
      assert Abs(s).handles[e] == Handle(s.dir[o.file].name, o.mode, o.offset);
      if r.Data? {
        ReadLost(s, t, fd, size);
        LossesFrame(s, s');
        HandlesUpdate(s.dir, s.fdt, e, s'.fdt[e]);
      }
    }
  }

  /** What the service sees of an open row over a regular file. */
  lemma OnFileIs(s: Fs, e: nat)
    requires Inv(s) && e < |s.fdt| && s.fdt[e].refs > 0 && RowOk(s.dir, s.fdt[e]) && s.dir[s.fdt[e].file].kind.Regular?
    ensures var a, o := Abs(s), s.fdt[e];
            && OnFile(a, e) && a.handles[e] == Handle(s.dir[o.file].name, o.mode, o.offset)
            && a.files[a.handles[e].name] == Plain(s.dir[o.file].bytes) && Fits(a, e) == Room(s, e)
            && |s.dir[o.file].chain| == Blocks(|s.dir[o.file].bytes|)
  {
    hide Inv, NamesOk, RowsOk, Files, FreeSlots, Blocks;
    NamesOf(s);
    FileAt(s.dir, s.fdt[e].file);
    SizeOf(s, s.fdt[e].file);
  }

  lemma StoredRefines(s: Fs, e: nat, data: seq<Byte>)
    requires Inv(s) && e < |s.fdt| && s.fdt[e].refs > 0 && RowOk(s.dir, s.fdt[e]) && s.dir[s.fdt[e].file].kind.Regular?
    requires |s.dir[s.fdt[e].file].chain| == Blocks(|s.dir[s.fdt[e].file].bytes|) && |data| <= Room(s, e)
    ensures OnFile(Abs(s), e) && Wrote(Abs(s), e, data, Abs(Stored(s, e, data)))
  {
    hide NamesOk, BlocksOk, RefsOk, Files, RowsOk, Splice, Lookup, Handles, Blocks, BlockOf, FreeSlots;
    StoredInv(s, e, data);
    var s' := Stored(s, e, data);
    var i := s.fdt[e].file;
    StoredFits(|s.dir[i].bytes|, s.fdt[e].offset, |data|, |s.free|);
    hide Room;
    NamesOf(s);
    NamesOf(s');
    assert s'.dir == s.dir[i := s'.dir[i]] && s'.fdt == s.fdt[e := s'.fdt[e]] && s'.procs == s.procs;
    assert s'.dir[i].name == s.dir[i].name && s'.dir[i].kind.Regular?
           && s'.fdt[e] == s.fdt[e].(offset := s.fdt[e].offset + |data|);
    assert s'.dir[i].bytes == Splice(s.dir[i].bytes, s.fdt[e].offset, data);
    assert |s'.free| == |s.free| - (Blocks(|s'.dir[i].bytes|) - Blocks(|s.dir[i].bytes|));
    hide Stored;
    LossesFrame(s, s');
    OnFileIs(s, e);
    hide Inv, Losses;
    FilesUpdate(s.dir, i, s'.dir[i]);
    FreeSlotsUpdate(s.dir, i, s'.dir[i]);
    HandlesFrame(s.dir, s'.dir, s'.fdt);
    HandlesUpdate(s.dir, s.fdt, e, s'.fdt[e]);
    assert Files(s'.dir) == Files(s.dir)[s.dir[i].name := Plain(s'.dir[i].bytes)];
  }

  lemma WriteRefines(s: Fs, t: nat, fd: int, size: int, buffer: seq<Byte>)
    requires Inv(s) && t < |s.procs| && size <= |buffer|
    ensures var (s', r) := WriteFd(s, t, fd, size, buffer); WriteNext(Abs(s), t, fd, size, buffer, r, Abs(s'))
  {
    hide Inv, NamesOk, RowsOk, Files, Lookup, FreeSlots, Bound, Wrote, Stored, Blocks, Room, Fits;
    BoundIff(s, t, fd);
    NamesOf(s);
    if WriteError(Abs(s), t, fd, size) == 0 {
      var data := buffer[..size];
      var e := RowOf(s, t, fd);
      FileAt(s.dir, s.fdt[e].file);
      if s.dir[s.fdt[e].file].kind.Regular? {
        OnFileIs(s, e);
        RoomIsLeft(s, e);
        StoredRefines(s, e, if |data| <= Room(s, e) then data else data[..Room(s, e)]);
      }
    }
  }

  // ---------------------------------------------------------------- whole runs

  /** Every call of the kernel is a call of the service, with the same reply. */
  lemma StepRefines(s: Fs, op: Op)
    requires Inv(s) && Enabled(s, op)
    ensures Next(Abs(s), op, Step(s, op).1, Abs(Step(s, op).0))
  {
    hide Inv, OpenNext, UnlinkNext, ReadNext, WriteNext, CloseNext, DupNext, Abs;
    match op
    case Open(t, path, flags) => OpenRefines(s, t, path, flags);
    case Dup(t, fd) => DupRefines(s, t, fd);
    case Close(t, fd) => CloseRefines(s, t, fd);
    case Fork(t, child) => ForkRefines(s, t, child); AbsProcs(s);
    case Exit(t) => ExitRefines(s, t);
    case Unlink(path) => UnlinkRefines(s, path);
    case Read(t, fd, size) => ReadRefines(s, t, fd, size);
    case Write(t, fd, size, buffer) => WriteRefines(s, t, fd, size, buffer);
  }

  lemma AbsProcs(s: Fs)
    ensures Abs(s).procs == s.procs
  {
  }

  lemma ExitRefines(s: Fs, t: nat)
    requires t < |s.procs|
    ensures Abs(s).procs == s.procs && Abs(s.(procs := s.procs[t := []])) == Exited(Abs(s), t)
  {
    var s' := s.(procs := s.procs[t := []]);
    forall e: nat | e < |s.fdt| ensures Lost(s', e) == Lost(s, e) + Count(s.procs[t], e) {
      ExitLost(s, t, e);
    }
    hide Lost;
    assert Losses(s') == Exited(Abs(s), t).lost;
  }

  /** All calls of the run meet their conditions when they are made. */
  ghost predicate AllEnabled(s: Fs, ops: seq<Op>)
    requires Inv(s)
    decreases |ops|
  {
    ops != [] ==> Enabled(s, ops[0]) && (StepInv(s, ops[0]); AllEnabled(Step(s, ops[0]).0, ops[1..]))
  }

  ghost function Run(s: Fs, ops: seq<Op>): (r: (Fs, seq<Reply>))
    requires Inv(s) && AllEnabled(s, ops)
    ensures Inv(r.0) && |r.1| == |ops|
    decreases |ops|
  {
    if ops == [] then (s, [])
    else
      StepInv(s, ops[0]);
      var (s1, r) := Step(s, ops[0]);
      var (s2, rs) := Run(s1, ops[1..]);
      (s2, [r] + rs)
  }

  ghost predicate ServiceRun(a: Service, ops: seq<Op>, rs: seq<Reply>, a': Service)
    requires |rs| == |ops|
    decreases |ops|
  {
    if ops == [] then a' == a
    else exists a1 :: Next(a, ops[0], rs[0], a1) && ServiceRun(a1, ops[1..], rs[1..], a')
  }

  /** Every run of the calls is, reply by reply, a run over names and byte sequences. */
  lemma {:induction false} RunRefines(s: Fs, ops: seq<Op>)
    requires Inv(s) && AllEnabled(s, ops)
    ensures ServiceRun(Abs(s), ops, Run(s, ops).1, Abs(Run(s, ops).0))
    decreases |ops|
  {
    assert ops != [] ==> Callable(s, ops[0]);
    hide Inv, Next, Abs, Step, Enabled;
    if ops != [] {
      StepInv(s, ops[0]);
      StepRefines(s, ops[0]);
      var s1 := Step(s, ops[0]).0;
      RunRefines(s1, ops[1..]);
      assert Run(s, ops).1[1..] == Run(s1, ops[1..]).1;
      assert Next(Abs(s), ops[0], Run(s, ops).1[0], Abs(s1));
    }
  }
}
