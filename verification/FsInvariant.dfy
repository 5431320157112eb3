/** Every call keeps the invariant of the file system, in every reachable state. */
module FsInvariant {
  import opened Counting
  import opened FsSpec

  // ---------------------------------------------------------------- sums over the tables

  /** The references of one row on slot i. */
  function Held(o: Row, i: nat): int {
    if o.file == i then o.refs else 0
  }

  lemma {:induction false} RefSumUpdate(fdt: seq<Row>, e: nat, o: Row, i: nat)
    requires e < |fdt|
    ensures RefSum(fdt[e := o], i) == RefSum(fdt, i) - Held(fdt[e], i) + Held(o, i)
  {
    var n := |fdt| - 1;
    if e < n {
      RefSumUpdate(fdt[..n], e, o, i);
      assert fdt[e := o][..n] == fdt[..n][e := o];
    } else {
      assert fdt[e := o][..n] == fdt[..n];
    }
  }

  /** With counts that are not negative, a slot holds at least the references of each of its rows. */
  lemma {:induction false} RefSumCovers(fdt: seq<Row>, e: nat, i: nat)
    requires forall k :: 0 <= k < |fdt| ==> fdt[k].refs >= 0
    requires e <= |fdt|
    ensures 0 <= RefSum(fdt, i)
    ensures e < |fdt| ==> Held(fdt[e], i) <= RefSum(fdt, i)
  {
    if fdt != [] {
      var n := |fdt| - 1;
      RefSumCovers(fdt[..n], if e < n then e else n, i);
    }
  }

  /** Binding descriptor fd of task t to row e moves one name from the old row to the new one. */
  lemma NamedBind(procs: seq<seq<int>>, t: nat, fd: nat, e: int)
    requires t < |procs| && fd < |procs[t]|
    ensures forall x :: Named(procs[t := procs[t][fd := e]], x)
                     == Named(procs, x) - (if procs[t][fd] == x then 1 else 0) + (if e == x then 1 else 0)
  {
    forall x ensures Named(procs[t := procs[t][fd := e]], x)
                  == Named(procs, x) - (if procs[t][fd] == x then 1 else 0) + (if e == x then 1 else 0)
    {
      TotalUpdate(procs, t, procs[t][fd := e], x);
      CountUpdate(procs[t], fd, e, x);
    }
  }

  // ---------------------------------------------------------------- blocks

  lemma BlocksFrame(blocks: nat, free: seq<int>, dir: seq<File>, dir': seq<File>)
    requires BlocksOk(blocks, free, dir) && |dir'| == |dir|
    requires forall i :: 0 <= i < |dir| ==> dir'[i].chain == dir[i].chain
    ensures BlocksOk(blocks, free, dir')
  {
    forall b | 0 <= b < blocks && b !in free ensures exists i :: 0 <= i < |dir'| && b in dir'[i].chain {
      var i :| 0 <= i < |dir| && b in dir[i].chain;
      assert b in dir'[i].chain;
    }
  }

  /** Moving the first `more` free blocks to the end of one chain. */
  lemma BlocksTake(blocks: nat, free: seq<int>, dir: seq<File>, k: nat, f: File, more: nat)
    requires BlocksOk(blocks, free, dir) && k < |dir| && more <= |free|
    requires f.chain == dir[k].chain + free[..more]
    ensures BlocksOk(blocks, free[more..], dir[k := f])
  {
    var rest, dir' := free[more..], dir[k := f];
    assert forall b :: b in free <==> b in free[..more] || b in rest by {
      assert free == free[..more] + rest;
    }
    assert forall b :: b in f.chain <==> b in dir[k].chain || b in free[..more];
    assert ChainOk(blocks, f.chain) by {
      assert forall x :: 0 <= x < |dir[k].chain| ==> dir[k].chain[x] in dir[k].chain;
      assert forall y :: 0 <= y < more ==> free[y] in free;
    }
    assert forall b :: b in free[..more] ==> b !in rest;
    assert forall i :: 0 <= i < |dir| && i != k ==> dir'[i] == dir[i];
    forall b | 0 <= b < blocks && b !in rest ensures exists i :: 0 <= i < |dir'| && b in dir'[i].chain {
      if b in free[..more] {
        assert b in dir'[k].chain;
      } else {
        var i :| 0 <= i < |dir| && b in dir[i].chain;
        assert b in dir'[i].chain;
      }
    }
  }

  /** Giving the whole chain of one slot back to the free list. */
  lemma BlocksGive(blocks: nat, free: seq<int>, dir: seq<File>, k: nat, f: File)
    requires BlocksOk(blocks, free, dir) && k < |dir| && f.chain == []
    ensures BlocksOk(blocks, free + dir[k].chain, dir[k := f])
  {
    var free', dir' := free + dir[k].chain, dir[k := f];
    assert forall b :: b in free' <==> b in free || b in dir[k].chain;
    assert ChainOk(blocks, dir[k].chain);
    assert ChainOk(blocks, free') by {
      assert forall x :: 0 <= x < |dir[k].chain| ==> dir[k].chain[x] in dir[k].chain;
      assert forall y :: 0 <= y < |free| ==> free[y] in free;
    }
    assert forall i :: 0 <= i < |dir| && i != k ==> dir'[i] == dir[i];
    forall b | 0 <= b < blocks && b !in free' ensures exists i :: 0 <= i < |dir'| && b in dir'[i].chain {
      var i :| 0 <= i < |dir| && b in dir[i].chain;
      assert b in dir'[i].chain;
    }
  }

  // ---------------------------------------------------------------- references

  /** The directory with another reference count in slot i. */
  function Counted(dir: seq<File>, i: nat, nRefs: int): seq<File>
    requires i < |dir|
  {
    dir[i := dir[i].(nRefs := nRefs)]
  }

  /** Replacing a row and the count of its slot by the same amount keeps the reference sums. */
  lemma RowChange(dir: seq<File>, fdt: seq<Row>, e: nat, o: Row, n: int)
    requires e < |fdt| && o.file < |dir| && !dir[o.file].kind.Unused?
    requires RowsOk(dir, fdt) && SumsOk(dir, fdt)
    requires o.file == fdt[e].file || fdt[e].refs == 0
    requires n == dir[o.file].nRefs + o.refs - (if o.file == fdt[e].file then fdt[e].refs else 0)
    requires o.refs >= 0 && (dir[o.file].kind.Regular? ==> o.offset <= |dir[o.file].bytes|)
    ensures RowsOk(Counted(dir, o.file, n), fdt[e := o]) && SumsOk(Counted(dir, o.file, n), fdt[e := o]) && n >= 0
  {
    var dir', fdt' := Counted(dir, o.file, n), fdt[e := o];
    forall i | 0 <= i < |dir| ensures RefSum(fdt', i) == if dir'[i].kind.Unused? then 0 else dir'[i].nRefs {
      RefSumUpdate(fdt, e, o, i);
    }
    forall k | 0 <= k < |fdt| ensures RowOk(dir', fdt'[k]) {
      assert RowOk(dir, fdt[k]);
    }
    RefSumCovers(fdt', |fdt'|, o.file);
  }

  lemma NamedChange(fdt: seq<Row>, procs: seq<seq<int>>, e: nat, o: Row, procs': seq<seq<int>>, d: int)
    requires NamedOk(fdt, procs) && e < |fdt|
    requires forall x :: x >= 0 ==> Named(procs', x) == Named(procs, x) + if x == e then d else 0
    requires Named(procs, e) + d > 0 ==> o.refs > 0
    requires Named(procs, e) + d <= o.refs + Uncounted(e)
    ensures NamedOk(fdt[e := o], procs')
  {
    hide Named;
    forall x | 0 <= x < |fdt|
      ensures Named(procs', x) > 0 ==> fdt[e := o][x].refs > 0
      ensures Named(procs', x) <= fdt[e := o][x].refs + Uncounted(x)
    {
      assert x != e ==> fdt[e := o][x] == fdt[x];
    }
  }

  lemma CountInv(s: Fs, i: nat, n: int)
    requires BlocksOk(s.blocks, s.free, s.dir) && SizesOk(s.dir) && NamesOk(s.dir)
    requires i < |s.dir| && !s.dir[i].kind.Unused? && n >= 0
    ensures var dir := Counted(s.dir, i, n); BlocksOk(s.blocks, s.free, dir) && SizesOk(dir) && NamesOk(dir)
  {
    BlocksFrame(s.blocks, s.free, s.dir, Counted(s.dir, i, n));
  }

  /** One reference more or less on row e, matched by one descriptor more or less. */
  lemma AddRefInv(s: Fs, e: nat, d: int, procs: seq<seq<int>>)
    requires Inv(s) && e < |s.fdt| && s.fdt[e].refs > 0
    requires d == 1 || (d == -1 && CloseIsSafe(s, e))
    requires forall t :: 0 <= t < |procs| ==> FdsOk(procs[t], |s.fdt|)
    requires forall x :: x >= 0 ==> Named(procs, x) == Named(s.procs, x) + if x == e then d else 0
    ensures s.fdt[e].file < |s.dir| && Inv(AddRef(s, e, d).(procs := procs))
  {
    hide BlocksOk, SizesOk, NamesOk, SumsOk, Named;
    assert RowOk(s.dir, s.fdt[e]);
    var o := s.fdt[e].(refs := s.fdt[e].refs + d);
    var n := s.dir[o.file].nRefs + d;
    RowChange(s.dir, s.fdt, e, o, n);
    CountInv(s, o.file, n);
    NamedChange(s.fdt, s.procs, e, o, procs, d);
    assert RefsOk(Counted(s.dir, o.file, n), s.fdt[e := o], procs);
    assert AddRef(s, e, d).(procs := procs) ==
           s.(fdt := s.fdt[e := o], dir := Counted(s.dir, o.file, n), procs := procs);
  }

  lemma AttachInv(s: Fs, t: nat, fd: nat, row: nat, i: nat, mode: int)
    requires Inv(s) && t < |s.procs| && fd < |s.procs[t]| && s.procs[t][fd] == -1
    requires row < |s.fdt| && s.fdt[row].refs <= 0 && i < |s.dir| && !s.dir[i].kind.Unused?
    ensures Inv(Attach(s, t, fd, row, i, mode))
  {
    hide BlocksOk, SizesOk, NamesOk, SumsOk, Named;
    var s' := Attach(s, t, fd, row, i, mode);
    assert RowOk(s.dir, s.fdt[row]);
    RowChange(s.dir, s.fdt, row, s'.fdt[row], s.dir[i].nRefs + 1);
    CountInv(s, i, s.dir[i].nRefs + 1);
    NamedBind(s.procs, t, fd, row);
    assert FdsOk(s.procs[t], |s.fdt|);
    NamedChange(s.fdt, s.procs, row, s'.fdt[row], s'.procs, 1);
    assert RefsOk(s'.dir, s'.fdt, s'.procs);
  }

  /** Filling an unused slot with an empty file. */
  lemma CreateInv(s: Fs, path: Name)
    requires Inv(s) && path != NO_NAME && Lookup(s.dir, path) == |s.dir| && CreateFile(s, path).Created?
    ensures var c := CreateFile(s, path);
            Inv(c.s) && c.slot < |s.dir| && s.dir[c.slot].kind.Unused? && !c.s.dir[c.slot].kind.Unused?
  {
    var Created(s', i) := CreateFile(s, path);
    assert s.dir[i].kind.Unused? && s.dir[i].chain == [];
    BlocksTake(s.blocks, s.free, s.dir, i, s'.dir[i], 1);
    forall k | 0 <= k < |s.fdt| ensures RowOk(s'.dir, s'.fdt[k]) {
      assert RowOk(s.dir, s.fdt[k]);
    }
  }

  /** The empty path opens a free slot or changes nothing; it never creates a file. */
  lemma BlankOpen(s: Fs, t: nat, flags: int)
    requires Inv(s) && t < |s.procs|
    ensures var (s', r) := OpenFile(s, t, NO_NAME, flags);
            if OpensBlank(s, t, flags) then !Inv(s') else s' == s && r.Code? && r.code < 0
  {
    hide BlocksOk, SizesOk, SumsOk, NamedOk;
    var row, i := FreeRow(s.fdt), Lookup(s.dir, NO_NAME);
    var s' := OpenFile(s, t, NO_NAME, flags).0;
    if i == |s.dir| {
      assert FreeSlot(s.dir) == |s.dir|;
    } else if OpensBlank(s, t, flags) {
      assert s'.fdt[row].file == i && s'.dir[i].kind.Unused?;
      assert !RowOk(s'.dir, s'.fdt[row]);
    }
  }

  /** Opening keeps the invariant for every path but an empty one that meets a free slot. */
  lemma OpenInvIff(s: Fs, t: nat, path: Name, flags: int)
    requires Inv(s) && t < |s.procs|
    ensures Inv(OpenFile(s, t, path, flags).0) <==> !(path == NO_NAME && OpensBlank(s, t, flags))
  {
    hide Inv, OpenFile, OpensBlank;
    if path == NO_NAME {
      BlankOpen(s, t, flags);
    } else {
      OpenInv(s, t, path, flags);
    }
  }

  lemma OpenInv(s: Fs, t: nat, path: Name, flags: int)
    requires Inv(s) && t < |s.procs| && path != NO_NAME
    ensures Inv(OpenFile(s, t, path, flags).0)
  {
    var row, fd, i := FreeRow(s.fdt), FreeFd(s.procs[t]), Lookup(s.dir, path);
    var (s', r) := OpenFile(s, t, path, flags);
    if s' != s {
      if i == |s.dir| {
        CreateInv(s, path);
        var Created(s1, j) := CreateFile(s, path);
        AttachInv(s1, t, fd, row, j, s'.fdt[row].mode);
      } else {
        AttachInv(s, t, fd, row, i, s'.fdt[row].mode);
      }
    }
  }

  lemma RowsAreInRange(s: Fs)
    requires RefsOk(s.dir, s.fdt, s.procs)
    ensures RowsInRange(s.fdt, |s.dir|)
  {
    forall e | 0 <= e < |s.fdt| ensures s.fdt[e].file < |s.dir| {
      assert RowOk(s.dir, s.fdt[e]);
    }
  }

  lemma RowsOf(s: Fs)
    requires Inv(s)
    ensures RowsInRange(s.fdt, |s.dir|)
    ensures forall t :: 0 <= t < |s.procs| ==> FdsOk(s.procs[t], |s.fdt|)
  {
    hide BlocksOk, SizesOk, NamesOk, SumsOk, NamedOk;
    RowsAreInRange(s);
  }

  /** A descriptor of a live task names a row in use, over a live directory slot. */
  lemma DescriptorIsOpen(s: Fs, t: nat, fd: int)
    requires Inv(s) && HasFd(s, t, fd)
    ensures var e := RowOf(s, t, fd);
            && 0 <= e < |s.fdt| && s.fdt[e].refs > 0 && Named(s.procs, e) > 0
            && RowOk(s.dir, s.fdt[e]) && !s.dir[s.fdt[e].file].kind.Unused?
  {
    hide BlocksOk;
    TotalHas(s.procs, t, fd);
    assert FdsOk(s.procs[t], |s.fdt|);
    assert RowOk(s.dir, s.fdt[RowOf(s, t, fd)]);
  }

  lemma DupInv(s: Fs, t: nat, fd: int)
    requires Inv(s) && t < |s.procs|
    ensures RowsInRange(s.fdt, |s.dir|) && Inv(DupFd(s, t, fd).0)
  {
    hide BlocksOk;
    RowsAreInRange(s);
    var (s', r) := DupFd(s, t, fd);
    if HasFd(s, t, fd) && FreeFd(s.procs[t]) < |s.procs[t]| {
      var e := RowOf(s, t, fd);
      DescriptorIsOpen(s, t, fd);
      NamedBind(s.procs, t, FreeFd(s.procs[t]), e);
      AddRefInv(s, e, 1, s'.procs);
    }
  }

  /**
   Closing keeps the invariant exactly when it is safe: the failing case is row 1, which counts one descriptor
   too few.
  */
  lemma CloseInvIff(s: Fs, t: nat, fd: int)
    requires Inv(s) && HasFd(s, t, fd)
    ensures RowsInRange(s.fdt, |s.dir|)
    ensures Inv(CloseFd(s, t, fd).0) <==> CloseIsSafe(s, RowOf(s, t, fd))
    ensures RowOf(s, t, fd) != 1 ==> CloseIsSafe(s, RowOf(s, t, fd))
  {
    hide BlocksOk;
    RowsAreInRange(s);
    var e := RowOf(s, t, fd);
    var s' := CloseFd(s, t, fd).0;
    DescriptorIsOpen(s, t, fd);
    NamedBind(s.procs, t, fd, -1);
    if CloseIsSafe(s, e) {
      AddRefInv(s, e, -1, s'.procs);
    } else {
      assert s'.fdt[e].refs == 0 && Named(s'.procs, e) > 0;
    }
  }

  lemma {:induction false} ShareInv(s: Fs, t: nat, child: nat, k: nat)
    requires Inv(s) && t < |s.procs| && child < |s.procs| && s.procs[child] == [] && k <= |s.procs[t]|
    requires RowsInRange(s.fdt, |s.dir|)
    ensures Inv(Share(s, s.procs[t], k).(procs := s.procs[child := s.procs[t][..k]]))
    ensures forall e :: 0 <= e < |s.fdt| ==> Share(s, s.procs[t], k).fdt[e].refs >= s.fdt[e].refs
  {
    hide BlocksOk, SizesOk, NamesOk, SumsOk, NamedOk, RowsOk;
    var fds := s.procs[t];
    if k == 0 {
      assert s.procs[child := fds[..0]] == s.procs;
    } else {
      ShareInv(s, t, child, k - 1);
      var s1 := Share(s, fds, k - 1);
      var before := s1.(procs := s.procs[child := fds[..k - 1]]);
      var procs := s.procs[child := fds[..k]];
      ShareNamed(s.procs, child, fds, k, before.procs, procs);
      if fds[k - 1] == -1 {
        NamedFrame(before.fdt, before.procs, procs);
      } else {
        DescriptorIsOpen(s, t, k - 1);
        AddRefInv(before, fds[k - 1], 1, procs);
      }
    }
  }

  /** One more descriptor shared with the child names its row once more. */
  lemma ShareNamed(procs: seq<seq<int>>, child: nat, fds: seq<int>, k: nat, before: seq<seq<int>>, after: seq<seq<int>>)
    requires child < |procs| && 0 < k <= |fds|
    requires before == procs[child := fds[..k - 1]] && after == procs[child := fds[..k]]
    ensures forall x :: Named(after, x) == Named(before, x) + if x == fds[k - 1] then 1 else 0
  {
    forall x ensures Named(after, x) == Named(before, x) + if x == fds[k - 1] then 1 else 0 {
      TotalUpdate(procs, child, fds[..k - 1], x);
      TotalUpdate(procs, child, fds[..k], x);
      assert fds[..k][..k - 1] == fds[..k - 1];
    }
  }

  lemma NamedFrame(fdt: seq<Row>, procs: seq<seq<int>>, procs': seq<seq<int>>)
    requires NamedOk(fdt, procs) && forall x :: x >= 0 ==> Named(procs', x) == Named(procs, x)
    ensures NamedOk(fdt, procs')
  {
    hide Named;
  }

  lemma ForkInv(s: Fs, t: nat, child: nat)
    requires Inv(s) && t < |s.procs| && child < |s.procs| && s.procs[child] == []
    ensures RowsInRange(s.fdt, |s.dir|) && Inv(ForkFds(s, t, child))
  {
    RowsAreInRange(s);
    ShareInv(s, t, child, |s.procs[t]|);
    assert s.procs[t][..|s.procs[t]|] == s.procs[t];
  }

  lemma ExitInv(s: Fs, t: nat)
    requires Inv(s) && t < |s.procs|
    ensures Inv(s.(procs := s.procs[t := []]))
  {
    hide BlocksOk;
    forall e ensures Named(s.procs[t := []], e) <= Named(s.procs, e) {
      TotalUpdate(s.procs, t, [], e);
    }
  }

  /** A file that any live task has open is never unlinked. */
  lemma OpenFilesAreNotUnlinked(s: Fs, t: nat, fd: int)
    requires Inv(s) && HasFd(s, t, fd)
    ensures var e := RowOf(s, t, fd);
            && 0 <= e < |s.fdt| && s.fdt[e].file < |s.dir|
            && s.dir[s.fdt[e].file].nRefs > 0
            && forall path :: UnlinkFile(s, path).0.dir[s.fdt[e].file] == s.dir[s.fdt[e].file]
  {
    hide BlocksOk;
    DescriptorIsOpen(s, t, fd);
    var e := RowOf(s, t, fd);
    assert forall k :: 0 <= k < |s.fdt| ==> RowOk(s.dir, s.fdt[k]);
    RefSumCovers(s.fdt, e, s.fdt[e].file);
  }

  lemma UnlinkInv(s: Fs, path: Name)
    requires Inv(s)
    ensures Inv(UnlinkFile(s, path).0)
  {
    var i := Lookup(s.dir, path);
    if |path.text| <= MAX_NAME_LENGTH && i < |s.dir| && s.dir[i].nRefs == 0 {
      var s' := UnlinkFile(s, path).0;
      BlocksGive(s.blocks, s.free, s.dir, i, s'.dir[i]);
      assert forall k :: 0 <= k < |s.fdt| ==> RowOk(s.dir, s.fdt[k]);
      forall k | 0 <= k < |s.fdt| ensures RowOk(s'.dir, s'.fdt[k]) {
        RefSumCovers(s.fdt, k, i);
      }
    }
  }

  /** Changing only the offset of a row, and only the bytes and the chain of its file. */
  lemma OffsetInv(s: Fs, e: nat, offset: nat)
    requires Inv(s) && e < |s.fdt| && s.fdt[e].refs > 0 && s.fdt[e].file < |s.dir|
    requires s.dir[s.fdt[e].file].kind.Regular? && offset <= |s.dir[s.fdt[e].file].bytes|
    ensures Inv(s.(fdt := s.fdt[e := s.fdt[e].(offset := offset)]))
  {
    hide BlocksOk;
    var s' := s.(fdt := s.fdt[e := s.fdt[e].(offset := offset)]);
    forall i | 0 <= i < |s.dir| ensures RefSum(s'.fdt, i) == RefSum(s.fdt, i) {
      RefSumUpdate(s.fdt, e, s'.fdt[e], i);
    }
    assert forall k :: 0 <= k < |s.fdt| ==> RowOk(s.dir, s.fdt[k]) && RowOk(s'.dir, s'.fdt[k]);
  }

  lemma ReadInv(s: Fs, t: nat, fd: int, size: int)
    requires Inv(s)
    ensures Inv(ReadFd(s, t, fd, size).0)
  {
    hide BlocksOk;
    if HasFd(s, t, fd) {
      DescriptorIsOpen(s, t, fd);
      var (s', r) := ReadFd(s, t, fd, size);
      if r.Data? {
        OffsetInv(s, RowOf(s, t, fd), s'.fdt[RowOf(s, t, fd)].offset);
      }
    }
  }

  lemma StoredInv(s: Fs, e: nat, data: seq<Byte>)
    requires Inv(s) && e < |s.fdt| && s.fdt[e].refs > 0 && s.fdt[e].file < |s.dir|
    requires s.dir[s.fdt[e].file].kind.Regular? && s.fdt[e].offset <= |s.dir[s.fdt[e].file].bytes|
    requires |data| <= Room(s, e)
    ensures Inv(Stored(s, e, data))
  {
    hide BlocksOk, Blocks, Splice;
    StoredFits(|s.dir[s.fdt[e].file].bytes|, s.fdt[e].offset, |data|, |s.free|);
    hide Room;
    var s' := Stored(s, e, data);
    var i := s.fdt[e].file;
    var s1 := s.(free := s'.free, dir := s'.dir);
    BlocksTake(s.blocks, s.free, s.dir, i, s'.dir[i], |s'.dir[i].chain| - |s.dir[i].chain|);
    forall k | 0 <= k < |s.fdt| ensures RowOk(s1.dir, s1.fdt[k]) {
      assert RowOk(s.dir, s.fdt[k]);
    }
    OffsetInv(s1, e, s.fdt[e].offset + |data|);
  }

  lemma WriteInv(s: Fs, t: nat, fd: int, size: int, buffer: seq<Byte>)
    requires Inv(s) && size <= |buffer|
    ensures Inv(WriteFd(s, t, fd, size, buffer).0)
  {
    hide BlocksOk, Blocks, Splice, Room;
    if HasFd(s, t, fd) && size >= 0 {
      DescriptorIsOpen(s, t, fd);
      var e := RowOf(s, t, fd);
      var f := s.dir[s.fdt[e].file];
      var data := buffer[..size];
      if f.kind.Regular? {
        RoomIsLeft(s, e);
        StoredInv(s, e, if |data| <= Room(s, e) then data else data[..Room(s, e)]);
      }
    }
  }

  /** A call keeps the invariant exactly if it is enabled. */
  lemma StepInv(s: Fs, op: Op)
    requires Inv(s) && Callable(s, op)
    ensures Inv(Step(s, op).0) <==> Enabled(s, op)
  {
    hide Inv;
    match op
    case Open(t, path, flags) => OpenInvIff(s, t, path, flags);
    case Dup(t, fd) => DupInv(s, t, fd);
    case Close(t, fd) => if HasFd(s, t, fd) { CloseInvIff(s, t, fd); }
    case Fork(t, child) => ForkInv(s, t, child);
    case Exit(t) => ExitInv(s, t);
    case Unlink(path) => UnlinkInv(s, path);
    case Read(t, fd, size) => ReadInv(s, t, fd, size);
    case Write(t, fd, size, buffer) => WriteInv(s, t, fd, size, buffer);
  }
}
