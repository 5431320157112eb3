/**
 References without a descriptor. sys_exit drops the descriptors of the task without counting them down, so a row of
 the table of open files can count more references than there are descriptors that name it.
 */
module FsLost {
  import opened Counting
  import opened FsSpec
  import opened FsInvariant

  /** References of row e beyond the descriptors that name it. */
  ghost function Lost(s: Fs, e: nat): int
    requires e < |s.fdt|
  {
    s.fdt[e].refs - Named(s.procs, e)
  }

  ghost predicate SameLost(s: Fs, s': Fs) {
    |s'.fdt| == |s.fdt| && forall e :: 0 <= e < |s.fdt| ==> Lost(s', e) == Lost(s, e)
  }

  /** The references that an exit of t leaves behind on row e. */
  ghost function Dropped(s: Fs, op: Op, e: nat): nat {
    if op.Exit? && op.t < |s.procs| then Count(s.procs[op.t], e) else 0
  }

  lemma AddRefLost(s: Fs, e: nat, d: int, procs: seq<seq<int>>)
    requires e < |s.fdt| && s.fdt[e].file < |s.dir|
    requires forall x :: x >= 0 ==> Named(procs, x) == Named(s.procs, x) + if x == e then d else 0
    ensures SameLost(s, AddRef(s, e, d).(procs := procs))
  {
    hide Named;
  }

  lemma DupLost(s: Fs, t: nat, fd: int)
    requires Inv(s) && t < |s.procs|
    ensures RowsInRange(s.fdt, |s.dir|) && SameLost(s, DupFd(s, t, fd).0)
  {
    hide BlocksOk, SizesOk, NamesOk, SumsOk, NamedOk, Named;
    RowsAreInRange(s);
    var s' := DupFd(s, t, fd).0;
    if HasFd(s, t, fd) && FreeFd(s.procs[t]) < |s.procs[t]| {
      DescriptorIsOpen(s, t, fd);
      NamedBind(s.procs, t, FreeFd(s.procs[t]), RowOf(s, t, fd));
      AddRefLost(s, RowOf(s, t, fd), 1, s'.procs);
    }
  }

  lemma CloseLost(s: Fs, t: nat, fd: int)
    requires Inv(s) && t < |s.procs|
    ensures RowsInRange(s.fdt, |s.dir|) && SameLost(s, CloseFd(s, t, fd).0)
  {
    hide BlocksOk, SizesOk, NamesOk, SumsOk, NamedOk, Named;
    RowsAreInRange(s);
    if HasFd(s, t, fd) {
      DescriptorIsOpen(s, t, fd);
      NamedBind(s.procs, t, fd, -1);
      AddRefLost(s, RowOf(s, t, fd), -1, CloseFd(s, t, fd).0.procs);
    }
  }

  lemma {:induction false} ShareLost(s: Fs, t: nat, child: nat, k: nat)
    requires t < |s.procs| && child < |s.procs| && s.procs[child] == [] && k <= |s.procs[t]|
    requires FdsOk(s.procs[t], |s.fdt|) && RowsInRange(s.fdt, |s.dir|)
    ensures SameLost(s, Share(s, s.procs[t], k).(procs := s.procs[child := s.procs[t][..k]]))
  {
    var fds := s.procs[t];
    if k == 0 {
      assert s.procs[child := fds[..0]] == s.procs;
    } else {
      ShareLost(s, t, child, k - 1);
      var before := Share(s, fds, k - 1).(procs := s.procs[child := fds[..k - 1]]);
      var procs := s.procs[child := fds[..k]];
      ShareNamed(s.procs, child, fds, k, before.procs, procs);
      if fds[k - 1] != -1 {
        AddRefLost(before, fds[k - 1], 1, procs);
      }
      hide Named;
    }
  }

  lemma ForkLost(s: Fs, t: nat, child: nat)
    requires Inv(s) && t < |s.procs| && child < |s.procs| && s.procs[child] == []
    ensures RowsInRange(s.fdt, |s.dir|) && SameLost(s, ForkFds(s, t, child))
  {
    hide BlocksOk, SizesOk, NamesOk, SumsOk, NamedOk;
    RowsAreInRange(s);
    ShareLost(s, t, child, |s.procs[t]|);
    assert s.procs[t][..|s.procs[t]|] == s.procs[t];
  }

  lemma ExitLost(s: Fs, t: nat, e: nat)
    requires t < |s.procs| && e < |s.fdt|
    ensures Lost(s.(procs := s.procs[t := []]), e) == Lost(s, e) + Count(s.procs[t], e)
  {
    TotalUpdate(s.procs, t, [], e);
  }

  lemma AttachLost(s: Fs, t: nat, fd: nat, row: nat, i: nat, mode: int)
    requires Inv(s) && t < |s.procs| && fd < |s.procs[t]| && s.procs[t][fd] == -1
    requires row < |s.fdt| && s.fdt[row].refs <= 0 && i < |s.dir|
    ensures SameLost(s, Attach(s, t, fd, row, i, mode)) && Lost(s, row) == 0
  {
    hide BlocksOk, SizesOk, NamesOk, SumsOk, Named;
    assert RowOk(s.dir, s.fdt[row]);
    NamedBind(s.procs, t, fd, row);
  }

  lemma OpenLost(s: Fs, t: nat, path: Name, flags: int)
    requires Inv(s) && t < |s.procs|
    ensures SameLost(s, OpenFile(s, t, path, flags).0)
  {
    hide BlocksOk, SizesOk, NamesOk, SumsOk, Named, Lookup, FreeSlot;
    var row, fd := FreeRow(s.fdt), FreeFd(s.procs[t]);
    if row < |s.fdt| && fd < |s.procs[t]| {
      assert RowOk(s.dir, s.fdt[row]);
      NamedBind(s.procs, t, fd, row);
    }
  }

  lemma ReadLost(s: Fs, t: nat, fd: int, size: int)
    requires Inv(s)
    ensures SameLost(s, ReadFd(s, t, fd, size).0)
  {
    hide Inv, Named, ReadLength;
    if HasFd(s, t, fd) {
      DescriptorIsOpen(s, t, fd);
    }
  }

  lemma WriteLost(s: Fs, t: nat, fd: int, size: int, buffer: seq<Byte>)
    requires Inv(s) && size <= |buffer|
    ensures SameLost(s, WriteFd(s, t, fd, size, buffer).0)
  {
    hide Inv, Named, Blocks, Splice, Room;
    if HasFd(s, t, fd) {
      DescriptorIsOpen(s, t, fd);
    }
  }

  /** Only an exit changes what is lost, by the descriptors that die with the task. */
  lemma StepLost(s: Fs, op: Op, e: nat)
    requires Inv(s) && Callable(s, op) && e < |s.fdt|
    ensures |Step(s, op).0.fdt| == |s.fdt| && Lost(Step(s, op).0, e) == Lost(s, e) + Dropped(s, op, e)
  {
    hide Inv, OpenFile, DupFd, CloseFd, ForkFds, ReadFd, WriteFd, Named;
    match op
    case Open(t, path, flags) => OpenLost(s, t, path, flags);
    case Dup(t, fd) => DupLost(s, t, fd);
    case Close(t, fd) => CloseLost(s, t, fd);
    case Fork(t, child) => ForkLost(s, t, child);
    case Exit(t) => ExitLost(s, t, e);
    case Unlink(path) =>
    case Read(t, fd, size) => ReadLost(s, t, fd, size);
    case Write(t, fd, size, buffer) => WriteLost(s, t, fd, size, buffer);
  }

  // ---------------------------------------------------------------- when the counts are exact

  /** But for the row that boot miscounts, the references of a row are the descriptors that name it. */
  ghost predicate Exact(s: Fs) {
    forall e :: 0 <= e < |s.fdt| && e != 1 ==> Lost(s, e) == 0
  }

  /** The task that exits has closed its descriptors of the other rows. */
  ghost predicate ExitsClean(s: Fs, op: Op) {
    op.Exit? && op.t < |s.procs| ==> forall fd :: 0 <= fd < |s.procs[op.t]| ==> s.procs[op.t][fd] in {-1, 1}
  }

  /** Counts stay exact after every call but the exit of a task with counted descriptors. */
  lemma ExactStepIff(s: Fs, op: Op)
    requires Inv(s) && Callable(s, op) && Exact(s)
    ensures Exact(Step(s, op).0) <==> ExitsClean(s, op)
  {
    DroppedNone(s, op);
    RowsStay(s, op);
    hide Inv, Step, Lost, Dropped, ExitsClean;
    forall e: nat | e < |s.fdt| ensures Lost(Step(s, op).0, e) == Lost(s, e) + Dropped(s, op, e) {
      StepLost(s, op, e);
    }
    var s' := Step(s, op).0;
    if Exact(s') {
      forall e | 0 <= e < |s.fdt| && e != 1 ensures Dropped(s, op, e) == 0 {
        assert Lost(s', e) == 0 && Lost(s, e) == 0;
      }
    }
    if ExitsClean(s, op) {
      forall e | 0 <= e < |s'.fdt| && e != 1 ensures Lost(s', e) == 0 {
        assert Lost(s, e) == 0 && Dropped(s, op, e) == 0;
      }
    }
  }

  lemma RowsStay(s: Fs, op: Op)
    requires Inv(s) && Callable(s, op)
    ensures |Step(s, op).0.fdt| == |s.fdt|
  {
    hide Inv, Lookup, FreeSlot, FreeRow, FreeFd, ReadLength, Splice, Blocks, Room;
    if (op.Dup? || op.Close? || op.Read? || op.Write?) && HasFd(s, op.t, op.fd) {
      DescriptorIsOpen(s, op.t, op.fd);
    }
  }

  lemma DroppedNone(s: Fs, op: Op)
    requires Inv(s) && Callable(s, op)
    ensures ExitsClean(s, op) <==> forall e :: 0 <= e < |s.fdt| && e != 1 ==> Dropped(s, op, e) == 0
  {
    if op.Exit? {
      var fds := s.procs[op.t];
      hide BlocksOk, SizesOk, NamesOk, SumsOk, NamedOk;
      assert FdsOk(fds, |s.fdt|);
      forall e: nat | e < |s.fdt| ensures Dropped(s, op, e) > 0 <==> e in fds {
        CountIn(fds, e);
      }
      if !ExitsClean(s, op) {
        var fd :| 0 <= fd < |fds| && fds[fd] !in {-1, 1};
        assert Dropped(s, op, fds[fd]) > 0;
      }
    }
  }

  /** Where the counts are exact, a row is free exactly if no descriptor names it. */
  lemma FreeIffUnnamed(s: Fs, e: nat)
    requires e < |s.fdt| && Lost(s, e) == 0
    ensures s.fdt[e].refs == 0 <==> Named(s.procs, e) == 0
  {
  }
}
