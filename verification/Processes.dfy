/**
 The three parts of a process together: its task and queues, its page frames, and its descriptors. Fork and exit
 act on all three in one step, and every other call on one of them (zeos/sys.c).
 */
module Processes {
  import S = SchedSpec
  import SI = SchedInvariant
  import ST = SchedTheorems
  import SC = SchedCalls
  import SS = SchedSteps
  import M = Frames
  import F = FsSpec
  import FI = FsInvariant
  import FT = FsTheorems
  import Srv = FsService

  datatype Machine = Machine(kernel: S.Kernel, mem: M.Mem, fs: F.Fs)

  datatype Op = Fork | Exit | Sched(call: S.Op) | File(request: F.Op)

  /** The task slots are the same in the three tables: live, with frames and with descriptors, or none of these. */
  ghost predicate Agree(m: Machine) {
    && |m.kernel.tasks| == |m.mem.pages| == |m.fs.procs|
    && (forall t :: 0 <= t < |m.kernel.tasks| ==> (SI.Live(m.kernel.tasks, t) <==> m.mem.pages[t] != []))
    && (forall t :: 0 <= t < |m.kernel.tasks| ==> (SI.Live(m.kernel.tasks, t) <==> m.fs.procs[t] != []))
  }

  ghost predicate Inv(m: Machine) {
    && SI.Inv(m.kernel) && M.Inv(m.mem, M.CAPACITY) && F.Inv(m.fs)
    && |m.kernel.tasks| == M.NR_TASKS && Agree(m)
  }

  predicate FramesLeft(m: Machine) {
    M.FreeCount(m.mem.used, M.NUM_PAG_KERNEL) >= M.NUM_PAG_DATA
  }

  /** sys_fork: the first free slot gets a task, its frames and the parent's descriptors; or nothing changes. */
  ghost function ForkAll(m: Machine): (Machine, int)
    requires Inv(m)
  {
    var child := S.FreeTask(m.kernel.tasks);
    var (k, r) := S.ForkTask(m.kernel, FramesLeft(m));
    if child == |m.kernel.tasks| || !FramesLeft(m) then (m, r)
    else
      RunningTask(m);
      FreeEverywhere(m);
      FI.ForkInv(m.fs, m.kernel.cur, child);
      (Machine(k, M.Step(m.mem, M.Op.Fork(child)), F.ForkFds(m.fs, m.kernel.cur, child)), r)
  }

  /** sys_exit: the running task leaves the three tables; task 0 stays. */
  ghost function ExitAll(m: Machine): Machine
    requires Inv(m)
  {
    RunningTask(m);
    if S.Me(m.kernel).pid == 0 then m
    else
      var t := m.kernel.cur;
      Machine(S.ExitTask(m.kernel), M.Step(m.mem, M.Op.Exit(t)), m.fs.(procs := m.fs.procs[t := []]))
  }

  /** The running task makes the call, as a fork or an exit of all three parts or as a call on one of them. */
  ghost predicate Callable(m: Machine, op: Op)
    requires Inv(m)
  {
    match op
    case Sched(call) => !call.Fork? && !call.Exit?
    case File(request) =>
      && !request.Fork? && !request.Exit? && (request.Unlink? || request.t == m.kernel.cur)
      && F.Callable(m.fs, request)
    case _ => true
  }

  /** What keeps the three parts right: exits that do not strand the processor, and calls that the file tables bear. */
  ghost predicate Enabled(m: Machine, op: Op)
    requires Inv(m)
  {
    && Callable(m, op)
    && (op.Exit? ==> !SI.Strands(m.kernel))
    && (op.File? ==> F.Enabled(m.fs, op.request))
  }

  lemma RunningTask(m: Machine)
    requires Inv(m)
    ensures S.InRange(m.kernel) && F.Live(m.fs, m.kernel.cur) && SI.Live(m.kernel.tasks, m.kernel.cur)
    ensures m.kernel.nextPid > 0
  {
    SI.HeadOnly(m.kernel);
    hide SI.QueuesOk, SI.SemsOk, M.Inv, F.Inv;
  }

  lemma FreeEverywhere(m: Machine)
    requires Inv(m) && S.FreeTask(m.kernel.tasks) < |m.kernel.tasks|
    ensures var t := S.FreeTask(m.kernel.tasks); m.mem.pages[t] == [] && m.fs.procs[t] == []
  {
  }

  ghost function Step(m: Machine, op: Op): (Machine, F.Reply)
    requires Inv(m) && Callable(m, op)
  {
    RunningTask(m);
    match op
    case Fork => var (m', r) := ForkAll(m); (m', F.Code(r))
    case Exit => (ExitAll(m), F.Code(0))
    case Sched(call) => var (k, r) := S.Step(m.kernel, call); (m.(kernel := k), F.Code(r))
    case File(request) => var (fs, r) := F.Step(m.fs, request); (m.(fs := fs), r)
  }

  // ---------------------------------------------------------------- every step

  lemma ForkKeeps(m: Machine)
    requires Inv(m)
    ensures Inv(ForkAll(m).0)
  {
    hide SI.Inv, M.Inv, F.Inv, M.Marked, F.Share;
    var child := S.FreeTask(m.kernel.tasks);
    if child < |m.kernel.tasks| && FramesLeft(m) {
      RunningTask(m);
      FreeEverywhere(m);
      SI.ForkInv(m.kernel, true);
      FI.ForkInv(m.fs, m.kernel.cur, child);
      M.GrabbedIsTaken(m.mem.used, M.NUM_PAG_DATA);
      M.ForkInv(m.mem, M.CAPACITY, child, M.Grabbed(m.mem.used, M.NUM_PAG_DATA));
    }
  }

  lemma ExitKeepsIff(m: Machine)
    requires Inv(m)
    ensures Inv(ExitAll(m)) <==> !SI.Strands(m.kernel)
  {
    hide SI.Inv, M.Inv, F.Inv, S.ExitTask, M.Marked;
    RunningTask(m);
    if S.Me(m.kernel).pid != 0 {
      var t := m.kernel.cur;
      SI.ExitInvIff(m.kernel);
      if SI.Strands(m.kernel) { return; }
      ST.ExitPids(m.kernel);
      FI.ExitInv(m.fs, t);
      M.ExitInv(m.mem, M.CAPACITY, t);
    }
  }

  lemma SchedKeeps(m: Machine, call: S.Op)
    requires Inv(m) && !call.Fork? && !call.Exit?
    ensures S.InRange(m.kernel) && Inv(m.(kernel := S.Step(m.kernel, call).0))
  {
    hide SI.Inv, M.Inv, F.Inv, S.Step;
    RunningTask(m);
    SI.StepInv(m.kernel, call);
    ST.PidsStep(m.kernel, call);
  }

  /** Files and descriptors change hands, but no task gains its first or loses its last table of descriptors. */
  lemma FileTables(fs: F.Fs, request: F.Op)
    requires F.Inv(fs) && F.Callable(fs, request) && !request.Fork? && !request.Exit?
    ensures var fs' := F.Step(fs, request).0;
            |fs'.procs| == |fs.procs| && forall t :: 0 <= t < |fs.procs| ==> |fs'.procs[t]| == |fs.procs[t]|
  {
    hide F.Inv, F.Lookup, F.FreeSlot, F.FreeRow, F.FreeFd;
  }

  lemma FileKeepsIff(m: Machine, request: F.Op)
    requires Inv(m) && F.Callable(m.fs, request) && !request.Fork? && !request.Exit?
    ensures Inv(m.(fs := F.Step(m.fs, request).0)) <==> F.Enabled(m.fs, request)
  {
    hide SI.Inv, M.Inv, F.Inv, F.Step;
    FI.StepInv(m.fs, request);
    FileTables(m.fs, request);
  }

  /** A step keeps the three invariants and the agreement of the three tables exactly if it is enabled. */
  lemma StepInv(m: Machine, op: Op)
    requires Inv(m) && Callable(m, op)
    ensures Inv(Step(m, op).0) <==> Enabled(m, op)
  {
    hide Inv, ForkAll, ExitAll, F.Step, S.Step, F.Enabled;
    match op
    case Fork => ForkKeeps(m);
    case Exit => ExitKeepsIff(m);
    case Sched(call) => SchedKeeps(m, call);
    case File(request) => FileKeepsIff(m, request);
  }

  // ---------------------------------------------------------------- runs

  /** Wherever the parts agree, a fork fails exactly if every task slot is taken; lack of frames never is the reason. */
  lemma ForkFailsIffFull(m: Machine)
    requires Inv(m)
    ensures ForkAll(m).1 == -S.EAGAIN <==> forall t :: 0 <= t < M.NR_TASKS ==> SI.Live(m.kernel.tasks, t)
    ensures ForkAll(m).1 == -S.EAGAIN ==> ForkAll(m).0 == m
  {
    hide SI.Inv, M.Inv, F.Inv, M.Step, M.FreeCount, F.ForkFds;
    RunningTask(m);
    if S.FreeTask(m.kernel.tasks) < |m.kernel.tasks| {
      EnoughFrames(m);
      assert !SI.Live(m.kernel.tasks, S.FreeTask(m.kernel.tasks));
    }
  }

  lemma EnoughFrames(m: Machine)
    requires Inv(m) && S.FreeTask(m.kernel.tasks) < |m.kernel.tasks|
    ensures FramesLeft(m)
  {
    FreeEverywhere(m);
    M.FramesSuffice(m.mem);
  }

  /** What a child gets: a pid of its own, frames that were free, and the descriptors of the task that forked it. */
  ghost predicate Forked(m: Machine, child: int, m': Machine, r: int)
    requires S.InRange(m.kernel)
  {
    && SC.ForkedInto(m.kernel, child, m'.kernel, r)
    && |m'.mem.pages| == |m.mem.pages| == |m.kernel.tasks| && |m'.mem.used| == |m.mem.used|
    && |m'.mem.pages[child]| == M.NUM_PAG_DATA
    && (forall t :: 0 <= t < |m.mem.pages| && t != child ==> m'.mem.pages[t] == m.mem.pages[t])
    && (forall f :: f in m'.mem.pages[child] ==> 0 <= f < |m.mem.used| && !m.mem.used[f])
    && (forall f :: 0 <= f < |m.mem.used| ==> m'.mem.used[f] == (m.mem.used[f] || f in m'.mem.pages[child]))
    && |m'.fs.procs| == |m.fs.procs| == |m.kernel.tasks| && m'.fs.procs[child] == m.fs.procs[m.kernel.cur]
    && (forall t :: 0 <= t < |m.fs.procs| && t != child ==> m'.fs.procs[t] == m.fs.procs[t])
    && Srv.Abs(m'.fs) == Srv.Abs(m.fs).(procs := m'.fs.procs)
  }

  /** A fork answers with the new pid of the child, which gets all this; or every slot is taken and nothing changes. */
  lemma ForkGives(m: Machine)
    requires Inv(m) && ST.BooksOk(m.kernel)
    ensures var (m', r) := ForkAll(m);
            && S.InRange(m.kernel)
            && if forall t :: 0 <= t < |m.kernel.tasks| ==> SI.Live(m.kernel.tasks, t) then r == -S.EAGAIN && m' == m
               else exists child :: Forked(m, child, m', r)
  {
    hide SI.Inv, M.Inv, F.Inv, M.Step, M.FreeCount, F.Share, S.ForkTask, SC.ForkedInto, ST.PidsOk, Srv.Abs;
    RunningTask(m);
    ForkFailsIffFull(m);
    var child := S.FreeTask(m.kernel.tasks);
    if child < |m.kernel.tasks| {
      FreeEverywhere(m);
      EnoughFrames(m);
      SC.ForkAnswer(m.kernel, FramesLeft(m));
      M.ForkTakes(m.mem, child);
      Srv.ForkRefines(m.fs, m.kernel.cur, child);
      var (m', r) := ForkAll(m);
      assert !SI.Live(m.kernel.tasks, child);
      assert Forked(m, child, m', r);
    }
  }

  /** An exit takes the running task, its frames and its descriptors, and nothing of any other task. */
  lemma ExitTakes(m: Machine)
    requires Inv(m) && ST.BooksOk(m.kernel) && !SI.Strands(m.kernel)
    ensures var t := m.kernel.cur;
            var m' := ExitAll(m);
            && S.InRange(m.kernel)
            && if m.kernel.tasks[t].pid == 0 then m' == m
               else
                 && SS.AsTold(m.kernel, S.Exit, m'.kernel)
                 && |m'.mem.pages| == |m.mem.pages| == |m'.fs.procs| == |m.fs.procs| == |m.kernel.tasks|
                 && |m'.mem.used| == |m.mem.used| && m'.mem.pages[t] == [] && m'.fs.procs[t] == []
                 && (forall u :: 0 <= u < |m.kernel.tasks| && u != t ==>
                       m'.mem.pages[u] == m.mem.pages[u] && m'.fs.procs[u] == m.fs.procs[u])
                 && (forall f :: 0 <= f < |m.mem.used| ==> m'.mem.used[f] == (m.mem.used[f] && f !in m.mem.pages[t]))
                 && Srv.Abs(m'.fs) == Srv.Exited(Srv.Abs(m.fs), t)
  {
    hide SI.Inv, M.Inv, F.Inv, M.Step, S.ExitTask, SS.AsTold, ST.BooksOk, Srv.Abs, Srv.Exited;
    RunningTask(m);
    SS.StepTold(m.kernel, S.Exit);
    if S.Me(m.kernel).pid != 0 {
      M.ExitFrees(m.mem, m.kernel.cur);
      Srv.ExitRefines(m.fs, m.kernel.cur);
    }
  }

  ghost predicate AllEnabled(m: Machine, ops: seq<Op>)
    requires Inv(m)
    decreases |ops|
  {
    ops != [] ==> Enabled(m, ops[0]) && (StepInv(m, ops[0]); AllEnabled(Step(m, ops[0]).0, ops[1..]))
  }

  ghost function Run(m: Machine, ops: seq<Op>): (m': Machine)
    requires Inv(m) && AllEnabled(m, ops)
    ensures Inv(m')
    decreases |ops|
  {
    if ops == [] then m else StepInv(m, ops[0]); Run(Step(m, ops[0]).0, ops[1..])
  }

  // ---------------------------------------------------------------- boot

  /** init_sched, init_frames, init_filesystem and init_task0, which takes the first pages. */
  ghost predicate Booted(m: Machine, sems: nat, blocks: nat, files: nat, rows: nat, fds: nat)
    requires files >= 2 && rows >= 2 && fds >= 3
  {
    && m.kernel == SI.Boot(M.NR_TASKS, sems)
    && m.fs == FT.Boot(blocks, files, rows, M.NR_TASKS, fds)
    && exists used, pages :: BootMem(m.mem, used, pages)
  }

  ghost predicate BootMem(mem: M.Mem, used: seq<bool>, pages: seq<seq<int>>) {
    && M.BootMap(used) && |pages| == M.NR_TASKS && (forall t :: 0 <= t < |pages| ==> pages[t] == [])
    && mem == M.Step(M.Mem(used, pages), M.Op.Fork(0))
  }

  lemma BootInv(m: Machine, sems: nat, blocks: nat, files: nat, rows: nat, fds: nat)
    requires files >= 2 && rows >= 2 && fds >= 3 && Booted(m, sems, blocks, files, rows, fds)
    ensures Inv(m)
  {
    hide SI.Inv, M.Inv, F.Inv, FT.Boot, BootMem, M.Step;
    SI.BootInv(M.NR_TASKS, sems);
    FT.BootInv(blocks, files, rows, M.NR_TASKS, fds);
    FT.BootShape(blocks, files, rows, M.NR_TASKS, fds);
    var used, pages :| BootMem(m.mem, used, pages);
    BootMemInv(m.mem, used, pages);
  }

  lemma BootMemInv(mem: M.Mem, used: seq<bool>, pages: seq<seq<int>>)
    requires BootMem(mem, used, pages)
    ensures M.Inv(mem, M.CAPACITY) && |mem.pages| == M.NR_TASKS
    ensures forall t :: 0 <= t < |mem.pages| ==> (mem.pages[t] != [] <==> t == 0)
  {
    hide M.Inv, M.FreeCount;
    M.BootInv(used, pages);
    assert pages[0] == [];
    M.FramesSuffice(M.Mem(used, pages));
    M.GrabbedIsTaken(used, M.NUM_PAG_DATA);
    M.ForkInv(M.Mem(used, pages), M.CAPACITY, 0, M.Grabbed(used, M.NUM_PAG_DATA));
  }

  /** From boot on, after every run, a fork fails exactly if every task slot is taken. */
  lemma ForkFailsOnlyWhenFull(m: Machine, sems: nat, blocks: nat, files: nat, rows: nat, fds: nat, ops: seq<Op>)
    requires files >= 2 && rows >= 2 && fds >= 3 && Booted(m, sems, blocks, files, rows, fds)
    requires Inv(m) && AllEnabled(m, ops)
    ensures var m' := Run(m, ops);
            Inv(m') && (ForkAll(m').1 == -S.EAGAIN <==> forall t :: 0 <= t < M.NR_TASKS ==> SI.Live(m'.kernel.tasks, t))
  {
    ForkFailsIffFull(Run(m, ops));
  }

  lemma StepBooks(m: Machine, op: Op)
    requires Inv(m) && Callable(m, op) && Enabled(m, op) && ST.BooksOk(m.kernel)
    ensures ST.BooksOk(Step(m, op).0.kernel)
  {
    hide SI.Inv, M.Inv, F.Inv, F.Step, S.Step, S.ForkTask, S.ExitTask, ST.BooksOk, Agree;
    match op
    case Fork => ST.ForkBooks(m.kernel, FramesLeft(m));
    case Exit => RunningTask(m); ST.ExitBooks(m.kernel);
    case Sched(call) => RunningTask(m); ST.BooksStep(m.kernel, call);
    case File(_) =>
  }

  lemma {:induction false} RunBooks(m: Machine, ops: seq<Op>)
    requires Inv(m) && AllEnabled(m, ops) && ST.BooksOk(m.kernel)
    ensures ST.BooksOk(Run(m, ops).kernel)
    decreases |ops|
  {
    hide Inv, Step, ST.BooksOk;
    if ops != [] {
      StepInv(m, ops[0]);
      StepBooks(m, ops[0]);
      RunBooks(Step(m, ops[0]).0, ops[1..]);
    }
  }

  /** From boot on, after every run, a fork gives its child what it promises, or finds every slot taken. */
  lemma ForkGivesAfterBoot(m: Machine, sems: nat, blocks: nat, files: nat, rows: nat, fds: nat, ops: seq<Op>)
    requires files >= 2 && rows >= 2 && fds >= 3 && Booted(m, sems, blocks, files, rows, fds)
    requires Inv(m) && AllEnabled(m, ops)
    ensures var before := Run(m, ops);
            var (after, r) := ForkAll(before);
            && Inv(before) && S.InRange(before.kernel)
            && if forall t :: 0 <= t < M.NR_TASKS ==> SI.Live(before.kernel.tasks, t) then
                 r == -S.EAGAIN && after == before
               else exists child :: Forked(before, child, after, r)
  {
    hide SI.Inv, M.Inv, F.Inv, ForkAll, Forked, Agree;
    ST.BootBooks(M.NR_TASKS, sems);
    RunBooks(m, ops);
    ForkGives(Run(m, ops));
  }
}
