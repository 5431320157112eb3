/** What exits lose, over whole runs: handles that outlive their last descriptor, and files that no unlink removes. */
module FsLeaks {
  import opened Counting
  import opened FsSpec
  import opened FsInvariant
  import opened FsLost
  import opened FsTheorems
  import opened FsService

  // ---------------------------------------------------------------- the counts after a run

  /** The descriptors of row e that died in the exits of the run. */
  ghost function Died(s: Fs, ops: seq<Op>, e: nat): nat
    requires Inv(s) && AllEnabled(s, ops)
    decreases |ops|
  {
    if ops == [] then 0
    else StepInv(s, ops[0]); Dropped(s, ops[0], e) + Died(Step(s, ops[0]).0, ops[1..], e)
  }

  /** What a row has lost after a run is what it had lost before and the descriptors that died in its exits. */
  lemma {:induction false} RunLost(s: Fs, ops: seq<Op>, e: nat)
    requires Inv(s) && AllEnabled(s, ops) && e < |s.fdt|
    ensures |Run(s, ops).0.fdt| == |s.fdt| && Lost(Run(s, ops).0, e) == Lost(s, e) + Died(s, ops, e)
    decreases |ops|
  {
    assert ops != [] ==> Callable(s, ops[0]);
    hide Inv, Step, Enabled, Lost, Dropped;
    if ops != [] {
      StepInv(s, ops[0]);
      StepLost(s, ops[0], e);
      RunLost(Step(s, ops[0]).0, ops[1..], e);
    }
  }

  /**
   From boot, after every run, a row counts exactly the descriptors that name it and those that died with a task, one
   less for row 1.
   */
  lemma RefsAfterBoot(blocks: nat, files: nat, rows: nat, tasks: nat, fds: nat, ops: seq<Op>, e: nat)
    requires files >= 2 && rows >= 2 && tasks >= 1 && fds >= 3 && e < rows
    requires Inv(Boot(blocks, files, rows, tasks, fds)) && AllEnabled(Boot(blocks, files, rows, tasks, fds), ops)
    ensures var s0 := Boot(blocks, files, rows, tasks, fds);
            var s := Run(s0, ops).0;
            |s.fdt| == rows && s.fdt[e].refs == Named(s.procs, e) + Died(s0, ops, e) - Uncounted(e)
  {
    var s0 := Boot(blocks, files, rows, tasks, fds);
    BootShape(blocks, files, rows, tasks, fds);
    BootNamed(s0.procs[0][3..], s0.procs[1..], e);
    assert s0.procs[0] == [0, 1, 1] + s0.procs[0][3..] && s0.procs == [s0.procs[0]] + s0.procs[1..];
    hide Inv, Boot, Named;
    RunLost(s0, ops, e);
  }

  /** Every exit of the run is that of a task without counted descriptors. */
  ghost predicate AllClean(s: Fs, ops: seq<Op>)
    requires Inv(s) && AllEnabled(s, ops)
    decreases |ops|
  {
    ops != [] ==> ExitsClean(s, ops[0]) && (StepInv(s, ops[0]); AllClean(Step(s, ops[0]).0, ops[1..]))
  }

  /** The counts are exact after a run exactly if every exit in it was clean; nothing mends them later. */
  lemma {:induction false} ExactAfterRunIff(s: Fs, ops: seq<Op>)
    requires Inv(s) && AllEnabled(s, ops) && Exact(s)
    ensures Exact(Run(s, ops).0) <==> AllClean(s, ops)
    decreases |ops|
  {
    assert ops != [] ==> Callable(s, ops[0]);
    hide Inv, Step, Enabled, Lost, ExitsClean;
    if ops != [] {
      StepInv(s, ops[0]);
      ExactStepIff(s, ops[0]);
      RowsStay(s, ops[0]);
      var s' := Step(s, ops[0]).0;
      if ExitsClean(s, ops[0]) {
        ExactAfterRunIff(s', ops[1..]);
      } else {
        var e :| 0 <= e < |s'.fdt| && e != 1 && Lost(s', e) != 0;
        StepLost(s, ops[0], e);
        RunLost(s', ops[1..], e);
      }
    }
  }

  // ---------------------------------------------------------------- a lost handle

  ghost predicate Leaked(a: Service, e: int, name: Name) {
    e in a.handles && a.handles[e].name == name && e in a.lost && a.lost[e] > 0
  }

  /** No call frees a handle that has lost a descriptor, or gives it another name. */
  lemma LeakStays(a: Service, op: Op, r: Reply, a': Service, e: int, name: Name)
    requires Next(a, op, r, a') && Leaked(a, e, name)
    ensures Leaked(a', e, name)
  {
    hide Splice, ReadLength, Blocks, FreeFd, Unnamed;
  }

  lemma {:induction false} LeakedForGood(a: Service, ops: seq<Op>, rs: seq<Reply>, a': Service, e: int, name: Name)
    requires |rs| == |ops| && ServiceRun(a, ops, rs, a') && Leaked(a, e, name)
    ensures Leaked(a', e, name) && UnlinkError(a', name) != 0
    decreases |ops|
  {
    hide Next;
    if ops != [] {
      var a1 :| Next(a, ops[0], rs[0], a1) && ServiceRun(a1, ops[1..], rs[1..], a');
      LeakStays(a, ops[0], rs[0], a1, e, name);
      LeakedForGood(a1, ops[1..], rs[1..], a', e, name);
    }
  }

  /** A file with a lost reference stays: after every later run its name cannot be unlinked. */
  lemma LostFileStays(s: Fs, ops: seq<Op>, e: nat)
    requires Inv(s) && AllEnabled(s, ops) && InUse(s, e) && Lost(s, e) > 0
    ensures var name := s.dir[s.fdt[e].file].name;
            UnlinkFile(Run(s, ops).0, name)
            == (Run(s, ops).0, Code(if |name.text| > MAX_NAME_LENGTH then -ENAMETOOLONG else -EBUSY))
  {
    var name := s.dir[s.fdt[e].file].name;
    var s' := Run(s, ops).0;
    assert Leaked(Abs(s), e, name);
    RowIsNamed(s, e);
    RunRefines(s, ops);
    hide Abs, Inv, Lost, Run, AllEnabled;
    LeakedForGood(Abs(s), ops, Run(s, ops).1, Abs(s'), e, name);
    BusyName(s', e, name);
    UnlinkErrorIs(s', name);
  }

  /** A row in use is over a slot with a name. */
  lemma RowIsNamed(s: Fs, e: nat)
    requires Inv(s) && InUse(s, e)
    ensures s.dir[s.fdt[e].file].name != NO_NAME
  {
    hide BlocksOk, SizesOk, SumsOk, NamedOk;
    assert RowOk(s.dir, s.fdt[e]);
  }

  lemma BusyName(s: Fs, e: int, name: Name)
    requires Inv(s) && name != NO_NAME && Leaked(Abs(s), e, name)
    ensures UnlinkError(Abs(s), name) == if |name.text| > MAX_NAME_LENGTH then -ENAMETOOLONG else -EBUSY
  {
    hide BlocksOk, SizesOk, SumsOk, NamedOk, Files, Lost;
    assert RowOk(s.dir, s.fdt[e]);
    FileAt(s.dir, s.fdt[e].file);
  }

  // ---------------------------------------------------------------- how it happens

  lemma Cons(s: Fs, op: Op, ops: seq<Op>)
    requires Inv(s) && Callable(s, op) && Enabled(s, op) && Inv(Step(s, op).0) && AllEnabled(Step(s, op).0, ops)
    ensures AllEnabled(s, [op] + ops) && Run(s, [op] + ops).0 == Run(Step(s, op).0, ops).0
  {
    assert ([op] + ops)[1..] == ops;
    hide Inv, Step, Enabled;
  }

  /** A task shares a descriptor with a child that exits, and then closes it: the row keeps a reference. */
  lemma ForkExitCloseLoses(s: Fs, t: nat, child: nat, fd: nat)
    requires Inv(s) && HasFd(s, t, fd) && child < |s.procs| && s.procs[child] == []
    requires var e := RowOf(s, t, fd); 0 <= e < |s.fdt| && Named(s.procs, e) == 1 && Lost(s, e) == 0
    ensures var ops := [Fork(t, child), Exit(child), Close(t, fd)];
            var e := RowOf(s, t, fd);
            && AllEnabled(s, ops)
            && var s' := Run(s, ops).0;
               && |s'.fdt| == |s.fdt| && Lost(s', e) == 1 && Named(s'.procs, e) == 0
               && s'.fdt[e].file == s.fdt[e].file < |s.dir| == |s'.dir|
               && s'.dir[s.fdt[e].file].name == s.dir[s.fdt[e].file].name
  {
    hide Inv, AllEnabled, Run, Step, Enabled, Total, Count, Share;
    var e := RowOf(s, t, fd);
    DescriptorIsOpen(s, t, fd);
    RowsOf(s);
    OneName(s, t, fd);
    ForkInv(s, t, child);
    ForkLost(s, t, child);
    ForkKeepsRows(s, t, child);
    var s1 := ForkFds(s, t, child);
    TotalUpdate(s.procs, child, s.procs[t], e);
    ExitInv(s1, child);
    ExitLost(s1, child, e);
    var s2 := s1.(procs := s1.procs[child := []]);
    TotalUpdate(s1.procs, child, [], e);
    RowsOf(s2);
    CloseInvIff(s2, t, fd);
    CloseLost(s2, t, fd);
    var s3 := CloseFd(s2, t, fd).0;
    NamedBind(s2.procs, t, fd, -1);
    ThreeSteps(s, t, child, fd, s1, s2, s3);
  }

  lemma ForkKeepsRows(s: Fs, t: nat, child: nat)
    requires Inv(s) && t < |s.procs| && child < |s.procs| && s.procs[child] == []
    ensures RowsInRange(s.fdt, |s.dir|)
    ensures var s' := ForkFds(s, t, child);
            && |s'.fdt| == |s.fdt| && |s'.dir| == |s.dir|
            && (forall e :: 0 <= e < |s.fdt| ==> s'.fdt[e].file == s.fdt[e].file)
            && (forall i :: 0 <= i < |s.dir| ==> s'.dir[i].name == s.dir[i].name)
  {
    hide BlocksOk, SizesOk, SumsOk, NamedOk, NamesOk;
    RowsAreInRange(s);
    forall fd | 0 <= fd < |s.procs[t]| && s.procs[t][fd] != -1 ensures s.fdt[s.procs[t][fd]].refs > 0 {
      DescriptorIsOpen(s, t, fd);
    }
    ShareFrame(s, s.procs[t], |s.procs[t]|);
  }

  lemma OneName(s: Fs, t: nat, fd: nat)
    requires HasFd(s, t, fd) && Named(s.procs, RowOf(s, t, fd)) == 1
    ensures Count(s.procs[t], RowOf(s, t, fd)) == 1
  {
    CountHas(s.procs[t], fd);
    TotalUpdate(s.procs, t, [], RowOf(s, t, fd));
  }

  lemma ThreeSteps(s: Fs, t: nat, child: nat, fd: nat, s1: Fs, s2: Fs, s3: Fs)
    requires Inv(s) && Inv(s1) && Inv(s2) && Inv(s3) && Live(s, t) && child < |s.procs| && s.procs[child] == []
    requires RowsInRange(s.fdt, |s.dir|) && FdsOk(s.procs[t], |s.fdt|) && s1 == ForkFds(s, t, child)
    requires Live(s1, child) && s2 == s1.(procs := s1.procs[child := []])
    requires HasFd(s2, t, fd) && FdsOk(s2.procs[t], |s2.fdt|) && RowsInRange(s2.fdt, |s2.dir|)
    requires s3 == CloseFd(s2, t, fd).0 && CloseIsSafe(s2, RowOf(s2, t, fd))
    ensures var ops := [Fork(t, child), Exit(child), Close(t, fd)]; AllEnabled(s, ops) && Run(s, ops).0 == s3
  {
    hide Inv, ForkFds, CloseFd, CloseIsSafe;
    Cons(s2, Close(t, fd), []);
    Cons(s1, Exit(child), [Close(t, fd)]);
    Cons(s, Fork(t, child), [Exit(child), Close(t, fd)]);
    assert [Exit(child)] + [Close(t, fd)] == [Exit(child), Close(t, fd)];
    assert [Close(t, fd)] + [] == [Close(t, fd)];
    assert [Fork(t, child)] + [Exit(child), Close(t, fd)] == [Fork(t, child), Exit(child), Close(t, fd)];
  }

  /** From any state: a new file, a fork, the exit of the child and a close lose a reference to it for good. */
  lemma NewFileLeaks(s: Fs, t: nat, child: nat, path: Name, flags: int)
    requires Inv(s) && Live(s, t) && child < |s.procs| && s.procs[child] == [] && path != NO_NAME
    requires path !in Abs(s).files && OpenError(Abs(s), t, path, flags) == 0
    ensures FreeFd(s.procs[t]) < |s.procs[t]|
    ensures var fd := FreeFd(s.procs[t]);
            var ops := [Open(t, path, flags), Fork(t, child), Exit(child), Close(t, fd)];
            && AllEnabled(s, ops)
            && var s' := Run(s, ops).0;
               exists e: nat :: e < |s'.fdt| && LeakedFile(s', e, path)
  {
    hide Inv, AllEnabled, Run, Step, Enabled, Total, Count, OpenError, OpenFile, CreateFile, FreeRow, FreeFd, Lookup,
         Files, AccessMode;
    var fd, e := FreeFd(s.procs[t]), FreeRow(s.fdt);
    OpenFileIs(s, t, path, flags);
    OpenErrorIs(s, t, path, flags);
    OpenInvIff(s, t, path, flags);
    OpenLost(s, t, path, flags);
    FreeRowLost(s, e);
    var s1 := OpenFile(s, t, path, flags).0;
    NamedBind(s.procs, t, fd, e);
    ForkExitCloseLoses(s1, t, child, fd);
    var rest := [Fork(t, child), Exit(child), Close(t, fd)];
    OpenStep(s, t, path, flags);
    Cons(s, Open(t, path, flags), rest);
    assert [Open(t, path, flags)] + rest == [Open(t, path, flags), Fork(t, child), Exit(child), Close(t, fd)];
    assert LeakedFile(Run(s1, rest).0, e, path);
  }

  /** The row is in use over the file, and no descriptor names it. */
  ghost predicate LeakedFile(s: Fs, e: nat, path: Name) {
    && InUse(s, e) && Lost(s, e) > 0 && Named(s.procs, e) == 0
    && s.dir[s.fdt[e].file].name == path
  }

  lemma FreeRowLost(s: Fs, e: nat)
    requires Inv(s) && e < |s.fdt| && s.fdt[e].refs <= 0
    ensures Lost(s, e) == 0 && Named(s.procs, e) == 0
  {
    hide BlocksOk, SizesOk, NamesOk, SumsOk;
    assert RowOk(s.dir, s.fdt[e]);
  }

  lemma OpenStep(s: Fs, t: nat, path: Name, flags: int)
    requires Inv(s) && Live(s, t) && path != NO_NAME
    ensures Callable(s, Open(t, path, flags)) && Enabled(s, Open(t, path, flags))
    ensures Step(s, Open(t, path, flags)) == OpenFile(s, t, path, flags)
  {
    hide Inv, OpenFile;
  }

  /** It happens from boot, to any new name that fits a directory slot. */
  lemma LeakFromBoot(blocks: nat, files: nat, rows: nat, tasks: nat, fds: nat, path: Name)
    requires blocks >= 1 && files >= 3 && rows >= 3 && tasks >= 2 && fds >= 4
    requires path !in {NO_NAME, KEYBOARD_NAME, DISPLAY_NAME} && |path.text| < MAX_NAME_LENGTH
    ensures var s := Boot(blocks, files, rows, tasks, fds);
            var ops := [Open(0, path, O_CREAT + O_RDWR), Fork(0, 1), Exit(1), Close(0, 3)];
            && Inv(s) && AllEnabled(s, ops)
            && exists e: nat :: e < |Run(s, ops).0.fdt| && LeakedFile(Run(s, ops).0, e, path)
  {
    var s := Boot(blocks, files, rows, tasks, fds);
    BootInv(blocks, files, rows, tasks, fds);
    BootShape(blocks, files, rows, tasks, fds);
    hide Inv, Boot, AllEnabled, Run, LeakedFile;
    NamesOf(s);
    HandlesLeftIff(s);
    SlotsLeftIff(s);
    KnownIff(s, path);
    assert s.fdt[2].refs == 0 && s.procs[0][3] == -1;
    assert FreeRow(s.fdt) == 2 && FreeFd(s.procs[0]) == 3;
    assert s.dir[2].nRefs == -1;
    NewFileLeaks(s, 0, 1, path, O_CREAT + O_RDWR);
  }

  /** And from then on every unlink of the name answers EBUSY. */
  lemma LeakedFromBootForGood(blocks: nat, files: nat, rows: nat, tasks: nat, fds: nat, path: Name, later: seq<Op>)
    requires blocks >= 1 && files >= 3 && rows >= 3 && tasks >= 2 && fds >= 4
    requires path !in {NO_NAME, KEYBOARD_NAME, DISPLAY_NAME} && |path.text| < MAX_NAME_LENGTH
    requires var s := Boot(blocks, files, rows, tasks, fds);
             var ops := [Open(0, path, O_CREAT + O_RDWR), Fork(0, 1), Exit(1), Close(0, 3)];
             Inv(s) && AllEnabled(s, ops) && AllEnabled(Run(s, ops).0, later)
    ensures var s := Boot(blocks, files, rows, tasks, fds);
            var ops := [Open(0, path, O_CREAT + O_RDWR), Fork(0, 1), Exit(1), Close(0, 3)];
            var s' := Run(Run(s, ops).0, later).0;
            UnlinkFile(s', path) == (s', Code(-EBUSY))
  {
    LeakFromBoot(blocks, files, rows, tasks, fds, path);
    var s := Boot(blocks, files, rows, tasks, fds);
    var ops := [Open(0, path, O_CREAT + O_RDWR), Fork(0, 1), Exit(1), Close(0, 3)];
    hide Inv, Boot, AllEnabled, Run, UnlinkFile;
    var e: nat :| e < |Run(s, ops).0.fdt| && LeakedFile(Run(s, ops).0, e, path);
    LostFileStays(Run(s, ops).0, later, e);
  }
}
