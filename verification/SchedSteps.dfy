/**
 What every step does to the tasks, the clock, the queues and the semaphores, one part at a time and by conditions on
 the state before it; and, over runs, what the counters of a task count.
 */
module SchedSteps {
  import opened Counting
  import opened SchedSpec
  import opened SchedInvariant
  import opened SchedTheorems
  import opened SemTheorems
  import opened SchedCalls

  // ---------------------------------------------------------------- tables

  /** The running task gives up the processor. */
  ghost predicate Switches(k: Kernel, op: Op)
    requires InRange(k)
  {
    match op
    case Tick => k.left == 1 && |k.runq| > 1
    case SemWait(n) => !Refused(k, op) && k.sems[n].count == 0
    case Exit => !Refused(k, op)
    case KbdBlock(_) => !Refused(k, op)
    case _ => false
  }

  /** Task t waits for a semaphore that the running task owns. */
  ghost predicate Orphan(k: Kernel, t: int, n: nat)
    requires InRange(k) && n <= |k.sems|
  {
    exists m :: 0 <= m < n && Me(k).owned[m] && t in k.sems[m].waiters
  }

  /** The value that task t will return: a step sets it when it releases the task, or blocks it on the keyboard. */
  ghost function ReturnAfter(k: Kernel, op: Op, t: int): int
    requires InRange(k) && 0 <= t < |k.tasks|
  {
    var eax := k.tasks[t].eax;
    if Refused(k, op) then eax
    else
      match op
      case SemSignal(n) => if k.sems[n].waiters != [] && t == k.sems[n].waiters[0] then 0 else eax
      case SemDestroy(n) => if t in k.sems[n].waiters then -1 else eax
      case Exit => if Orphan(k, t, |k.sems|) then -1 else eax
      case KbdBlock(size) => if t == k.cur then size else eax
      case _ => eax
  }

  ghost predicate OwnsAfter(k: Kernel, op: Op, t: int, n: nat)
    requires InRange(k) && 0 <= t < |k.tasks| && n < |k.sems|
  {
    if t != k.cur || Refused(k, op) then k.tasks[t].owned[n]
    else
      match op
      case SemInit(m, _) => k.tasks[t].owned[n] || n == m
      case SemDestroy(m) => k.tasks[t].owned[n] && n != m
      case Exit => false
      case _ => k.tasks[t].owned[n]
  }

  /** A task that is not new, after the step. */
  ghost predicate TaskSteps(k: Kernel, op: Op, k': Kernel, t: int)
    requires InRange(k) && 0 <= t < |k.tasks| == |k'.tasks|
  {
    var x, x' := k.tasks[t], k'.tasks[t];
    && x'.pid == (if op.Exit? && !Refused(k, op) && t == k.cur then -1 else x.pid)
    && x'.quantum == (if op.Nice? && !Refused(k, op) && t == k.cur then op.quantum else x.quantum)
    && x'.cpuTics == x.cpuTics + (if op.Tick? && t == k.cur then 1 else 0)
    && x'.transitions == x.transitions + (if t == k'.cur && t != k.cur then 1 else 0)
    && x'.remaining == (if t == k'.cur then k'.left else x.remaining - if op.Tick? && t == k.cur then 1 else 0)
    && x'.eax == ReturnAfter(k, op, t)
    && |x'.owned| == |k.sems| && (forall n :: 0 <= n < |k.sems| ==> x'.owned[n] == OwnsAfter(k, op, t, n))
  }

  ghost predicate TasksStep(k: Kernel, op: Op, k': Kernel)
    requires InRange(k) && |k'.tasks| == |k.tasks|
  {
    forall t :: 0 <= t < |k.tasks| && !(op.Fork? && t == FreeTask(k.tasks)) ==> TaskSteps(k, op, k', t)
  }

  /** Who runs, for how long, and how many pids were given out. */
  ghost predicate ClockSteps(k: Kernel, op: Op, k': Kernel)
    requires InRange(k) && |k'.tasks| == |k.tasks|
  {
    && (if Switches(k, op) then |k.runq| > 1 && k'.cur == k.runq[1] != k.cur else k'.cur == k.cur)
    && 0 <= k'.cur < |k.tasks|
    && k'.left == (if Switches(k, op) || (op.Tick? && k.left == 1) then k.tasks[k'.cur].quantum
                   else k.left - if op.Tick? then 1 else 0)
    && k'.nextPid == k.nextPid + (if op.Fork? && !Refused(k, op) then 1 else 0)
  }

  /** The waiters of the semaphores below n that the running task owns, in order. */
  function OrphanList(k: Kernel, n: nat): seq<int>
    requires InRange(k) && n <= |k.sems|
  {
    if n == 0 then [] else OrphanList(k, n - 1) + if Me(k).owned[n - 1] then k.sems[n - 1].waiters else []
  }

  /** The tasks that a step makes runnable, in the order in which they join the run queue. */
  ghost function Joins(k: Kernel, op: Op): seq<int>
    requires InRange(k)
  {
    if Refused(k, op) then []
    else
      match op
      case Tick => if Switches(k, op) then [k.cur] else []
      case Fork(_) => [FreeTask(k.tasks)]
      case SemSignal(n) => k.sems[n].waiters[..if k.sems[n].waiters == [] then 0 else 1]
      case SemDestroy(n) => k.sems[n].waiters
      case Exit => OrphanList(k, |k.sems|)
      case KbdWake => k.kbdq[..1]
      case _ => []
  }

  ghost predicate QueuesStep(k: Kernel, op: Op, k': Kernel)
    requires InRange(k) && k.runq != []
  {
    && k'.runq == (if Switches(k, op) then k.runq[1..] else k.runq) + Joins(k, op)
    && k'.kbdq == if Refused(k, op) then k.kbdq
                  else if op.KbdBlock? then k.kbdq + [k.cur]
                  else if op.KbdWake? then k.kbdq[1..]
                  else k.kbdq
  }

  ghost function SemAfter(k: Kernel, op: Op, n: nat): Sem
    requires InRange(k) && n < |k.sems|
  {
    var s := k.sems[n];
    if Refused(k, op) then s
    else
      match op
      case SemInit(m, value) => if n == m then Sem(value, true, []) else s
      case SemWait(m) =>
        if n != m then s
        else if s.count == 0 then s.(waiters := s.waiters + [k.cur])
        else s.(count := s.count - 1)
      case SemSignal(m) =>
        if n != m then s
        else if s.waiters == [] then s.(count := s.count + 1)
        else s.(waiters := s.waiters[1..])
      case SemDestroy(m) => if n == m then s.(init := false, waiters := []) else s
      case Exit => if Me(k).owned[n] then s.(init := false, waiters := []) else s
      case _ => s
  }

  ghost predicate SemsStep(k: Kernel, op: Op, k': Kernel)
    requires InRange(k)
  {
    |k'.sems| == |k.sems| && forall n :: 0 <= n < |k.sems| ==> k'.sems[n] == SemAfter(k, op, n)
  }

  /** All of it. */
  ghost predicate AsTold(k: Kernel, op: Op, k': Kernel)
    requires Inv(k)
  {
    && |k'.tasks| == |k.tasks|
    && ClockSteps(k, op, k') && QueuesStep(k, op, k') && SemsStep(k, op, k')
    && TasksStep(k, op, k')
  }

  // ---------------------------------------------------------------- one step

  /** Another task can run if the running one is not task 0. */
  lemma SomebodyElse(k: Kernel)
    requires Inv(k) && Me(k).pid != 0
    ensures |k.runq| > 1 && k.runq[1] != k.cur
  {
    HeadOnly(k);
    hide QueuesOk, SemsOk, Remove;
    assert k.runq == [k.cur] + k.runq[1..];
  }

  lemma RefusedTold(k: Kernel, op: Op)
    requires Inv(k) && BooksOk(k) && Refused(k, op)
    ensures AsTold(k, op, Step(k, op).0)
  {
    hide QueuesOk, SemsOk, TasksOk, Remove, Step;
    RefusedChangesNothing(k, op);
    HeadOnly(k);
    assert Joins(k, op) == [] && !Switches(k, op) && !op.Tick?;
    hide Refused, Joins, Switches;
  }

  lemma TickTold(k: Kernel)
    requires Inv(k) && BooksOk(k) && !Refused(k, Tick)
    ensures AsTold(k, Tick, Step(k, Tick).0)
  {
    hide QueuesOk, SemsOk, TasksOk, Remove;
    HeadOnly(k);
    var op, k' := Tick, Step(k, Tick).0;
    assert ClockSteps(k, op, k');
    assert QueuesStep(k, op, k');
    assert SemsStep(k, op, k');
    assert TasksStep(k, op, k');
  }

  lemma ForkTold(k: Kernel, frames: bool)
    requires Inv(k) && BooksOk(k) && !Refused(k, Fork(frames))
    ensures AsTold(k, Fork(frames), Step(k, Fork(frames)).0)
  {
    hide QueuesOk, SemsOk, TasksOk, Remove;
    HeadOnly(k);
    var op, k' := Fork(frames), Step(k, Fork(frames)).0;
    assert ClockSteps(k, op, k');
    assert QueuesStep(k, op, k');
    assert SemsStep(k, op, k');
    assert TasksStep(k, op, k');
  }

  lemma NiceTold(k: Kernel, quantum: int)
    requires Inv(k) && BooksOk(k) && !Refused(k, Nice(quantum))
    ensures AsTold(k, Nice(quantum), Step(k, Nice(quantum)).0)
  {
    hide QueuesOk, SemsOk, TasksOk, Remove;
    HeadOnly(k);
    var op, k' := Nice(quantum), Step(k, Nice(quantum)).0;
    assert ClockSteps(k, op, k');
    assert QueuesStep(k, op, k');
    assert SemsStep(k, op, k');
    assert TasksStep(k, op, k');
  }

  lemma InitTold(k: Kernel, n: int, value: nat)
    requires Inv(k) && BooksOk(k) && !Refused(k, SemInit(n, value))
    ensures AsTold(k, SemInit(n, value), Step(k, SemInit(n, value)).0)
  {
    hide QueuesOk, SemsOk, TasksOk, Remove;
    HeadOnly(k);
    var op, k' := SemInit(n, value), Step(k, SemInit(n, value)).0;
    assert ClockSteps(k, op, k');
    assert QueuesStep(k, op, k');
    assert SemsStep(k, op, k');
    assert TasksStep(k, op, k');
  }

  lemma SignalTold(k: Kernel, n: int)
    requires Inv(k) && BooksOk(k) && !Refused(k, SemSignal(n))
    ensures AsTold(k, SemSignal(n), Step(k, SemSignal(n)).0)
  {
    hide QueuesOk, SemsOk, TasksOk, Remove;
    HeadOnly(k);
    var op, k' := SemSignal(n), Step(k, SemSignal(n)).0;
    assert ClockSteps(k, op, k');
    assert QueuesStep(k, op, k');
    assert SemsStep(k, op, k');
    assert TasksStep(k, op, k');
  }

  lemma WakeTold(k: Kernel)
    requires Inv(k) && BooksOk(k) && !Refused(k, KbdWake)
    ensures AsTold(k, KbdWake, Step(k, KbdWake).0)
  {
    hide QueuesOk, SemsOk, TasksOk, Remove;
    HeadOnly(k);
    var op, k' := KbdWake, Step(k, KbdWake).0;
    assert ClockSteps(k, op, k');
    assert QueuesStep(k, op, k');
    assert SemsStep(k, op, k');
    assert TasksStep(k, op, k');
  }

  lemma WaitTold(k: Kernel, n: int)
    requires Inv(k) && BooksOk(k) && !Refused(k, SemWait(n))
    ensures AsTold(k, SemWait(n), Step(k, SemWait(n)).0)
  {
    hide QueuesOk, SemsOk, TasksOk, Remove;
    HeadOnly(k);
    SomebodyElse(k);
    var op, k' := SemWait(n), Step(k, SemWait(n)).0;
    assert ClockSteps(k, op, k');
    assert QueuesStep(k, op, k');
    assert SemsStep(k, op, k');
    assert TasksStep(k, op, k');
  }

  lemma BlockTold(k: Kernel, size: int)
    requires Inv(k) && BooksOk(k) && !Refused(k, KbdBlock(size))
    ensures AsTold(k, KbdBlock(size), Step(k, KbdBlock(size)).0)
  {
    hide QueuesOk, SemsOk, TasksOk, Remove;
    HeadOnly(k);
    SomebodyElse(k);
    var op, k' := KbdBlock(size), Step(k, KbdBlock(size)).0;
    assert ClockSteps(k, op, k');
    assert QueuesStep(k, op, k');
    assert SemsStep(k, op, k');
    assert TasksStep(k, op, k');
  }

  lemma DestroyTold(k: Kernel, n: int)
    requires Inv(k) && BooksOk(k) && !Refused(k, SemDestroy(n))
    ensures AsTold(k, SemDestroy(n), Step(k, SemDestroy(n)).0)
  {
    hide QueuesOk, SemsOk, TasksOk, Remove, Destroy;
    HeadOnly(k);
    DestroyShape(k, n);
    var op, k' := SemDestroy(n), Step(k, SemDestroy(n)).0;
    assert ClockSteps(k, op, k');
    assert QueuesStep(k, op, k');
    assert SemsStep(k, op, k');
    assert TasksStep(k, op, k');
  }

  // ---------------------------------------------------------------- exit

  /** After the rounds below n of the loop of sys_exit. */
  ghost predicate OrphansFreed(k: Kernel, d: Kernel, n: nat)
    requires InRange(k) && n <= |k.sems|
  {
    && d.cur == k.cur && d.left == k.left && d.nextPid == k.nextPid && d.kbdq == k.kbdq
    && d.runq == k.runq + OrphanList(k, n)
    && |d.tasks| == |k.tasks| && d.tasks[k.cur] == Me(k).(owned := d.tasks[k.cur].owned)
    && forall t :: 0 <= t < |k.tasks| && t != k.cur ==>
         d.tasks[t] == if Orphan(k, t, n) then k.tasks[t].(eax := -1) else k.tasks[t]
  }

  lemma {:induction false} ExitLoopTold(k: Kernel, n: nat)
    requires Inv(k) && n <= |k.sems|
    ensures OrphansFreed(k, DestroyOwned(k, n), n)
  {
    hide QueuesOk, SemsOk, TasksOk, RunOk, Destroy, InRange;
    if n == 0 {
      assert k.runq + [] == k.runq;
    } else {
      ExitLoopTold(k, n - 1);
      NotYetCleared(k, n - 1);
      RoundTold(k, DestroyOwned(k, n - 1), n - 1);
    }
  }

  lemma RoundTold(k: Kernel, d: Kernel, n: nat)
    requires InRange(k) && Inv(d) && n < |k.sems| == |d.sems| && OrphansFreed(k, d, n)
    requires d.sems[n] == k.sems[n] && Me(d).owned[n] == Me(k).owned[n]
    ensures OrphansFreed(k, if Me(d).owned[n] then Destroy(d, n).0 else d, n + 1)
  {
    hide QueuesOk, SemsOk, TasksOk, RunOk, Destroy, InRange, Orphan, OrphanList;
    HeadOnly(d);
    if Me(d).owned[n] {
      OwnedIsValid(d, n);
      DestroyShape(d, n);
    }
    OneMoreList(k, n);
    forall t | 0 <= t < |k.tasks| && t != k.cur
      ensures Orphan(k, t, n + 1) <==> Orphan(k, t, n) || (Me(k).owned[n] && t in k.sems[n].waiters)
    {
      OneMoreOrphan(k, t, n);
    }
    hide Inv;
  }

  lemma OneMoreList(k: Kernel, n: nat)
    requires InRange(k) && n < |k.sems|
    ensures k.runq + OrphanList(k, n + 1)
            == (k.runq + OrphanList(k, n)) + if Me(k).owned[n] then k.sems[n].waiters else []
  {
    hide InRange;
  }

  lemma OneMoreOrphan(k: Kernel, t: int, n: nat)
    requires InRange(k) && n < |k.sems|
    ensures Orphan(k, t, n + 1) <==> Orphan(k, t, n) || (Me(k).owned[n] && t in k.sems[n].waiters)
  {
    hide InRange;
  }

  /** The rest of an exit that leaves two tasks or more. */
  lemma LeaveTold(d: Kernel)
    requires Inv(d) && |d.runq| > 2
    ensures var next := d.runq[1];
            && 0 <= next < |d.tasks| && next != d.cur
            && Leave(d) == d.(tasks := d.tasks[d.cur := Me(d).(pid := -1)]
                                [next := d.tasks[next].(transitions := d.tasks[next].transitions + 1,
                                                        remaining := d.tasks[next].quantum)],
                              runq := d.runq[1..], cur := next, left := d.tasks[next].quantum)
  {
    hide QueuesOk, SemsOk, TasksOk, Remove;
    HeadOnly(d);
  }

  /** What is left of the running task when its semaphores are gone. */
  lemma LeaverTold(k: Kernel)
    requires Inv(k)
    ensures var d := DestroyOwned(k, |k.sems|);
            && Inv(d) && OrphansFreed(k, d, |k.sems|) && |d.runq| == |k.runq| + Orphans(k, |k.sems|)
            && |Me(d).owned| == |k.sems| == |d.sems| && (forall n :: 0 <= n < |k.sems| ==> !Me(d).owned[n])
            && forall n :: 0 <= n < |k.sems| ==>
                 d.sems[n] == if Me(k).owned[n] then k.sems[n].(waiters := [], init := false) else k.sems[n]
  {
    hide QueuesOk, SemsOk, TasksOk, RunOk, DestroyOwned, OrphansFreed, Orphans;
    ExitLoopTold(k, |k.sems|);
    DestroyOwnedInv(k, |k.sems|);
  }

  lemma ExitQueues(k: Kernel)
    requires Inv(k) && !Refused(k, Exit) && !Strands(k)
    ensures var k' := Step(k, Exit).0;
            |k'.tasks| == |k.tasks| && ClockSteps(k, Exit, k') && QueuesStep(k, Exit, k') && SemsStep(k, Exit, k')
  {
    hide QueuesOk, SemsOk, TasksOk, DestroyOwned, Leave, Orphan, OrphanList, Orphans;
    SomebodyElse(k);
    LeaverTold(k);
    LeaveTold(DestroyOwned(k, |k.sems|));
  }

  lemma ExitTasks(k: Kernel, t: int)
    requires Inv(k) && !Refused(k, Exit) && !Strands(k) && 0 <= t < |k.tasks|
    ensures var k' := Step(k, Exit).0;
            |k'.tasks| == |k.tasks| && TaskSteps(k, Exit, k', t)
  {
    hide QueuesOk, SemsOk, TasksOk, DestroyOwned, Leave, Orphan, OrphanList, Orphans;
    SomebodyElse(k);
    LeaverTold(k);
    LeaveTold(DestroyOwned(k, |k.sems|));
    NoOrphan(k);
  }

  lemma NoOrphan(k: Kernel)
    requires Inv(k)
    ensures !Orphan(k, k.cur, |k.sems|)
  {
    hide QueuesOk, SemsOk, TasksOk;
    HeadOnly(k);
  }

  lemma ExitTold(k: Kernel)
    requires Inv(k) && !Refused(k, Exit) && !Strands(k)
    ensures AsTold(k, Exit, Step(k, Exit).0)
  {
    hide QueuesOk, SemsOk, TasksOk, RunOk, Step, TaskSteps, ClockSteps, QueuesStep, SemsStep;
    ExitQueues(k);
    forall t | 0 <= t < |k.tasks| ensures TaskSteps(k, Exit, Step(k, Exit).0, t) {
      ExitTasks(k, t);
    }
  }

  /** Every step does what the tables tell, and nothing else. */
  lemma StepTold(k: Kernel, op: Op)
    requires Inv(k) && BooksOk(k) && Enabled(k, op)
    ensures AsTold(k, op, Step(k, op).0)
  {
    hide QueuesOk, SemsOk, TasksOk, RunOk, BooksOk, Step, AsTold, Refused;
    if Refused(k, op) {
      RefusedTold(k, op);
      return;
    }
    match op
    case Tick => TickTold(k);
    case Fork(frames) => ForkTold(k, frames);
    case Nice(quantum) => NiceTold(k, quantum);
    case SemInit(n, value) => InitTold(k, n, value);
    case SemWait(n) => WaitTold(k, n);
    case SemSignal(n) => SignalTold(k, n);
    case SemDestroy(n) => DestroyTold(k, n);
    case Exit => ExitTold(k);
    case KbdBlock(size) => BlockTold(k, size);
    case KbdWake => WakeTold(k);
  }

  // ---------------------------------------------------------------- what the counters of a task count

  /** Task t lives through the whole run. */
  ghost predicate Survives(k: Kernel, ops: seq<Op>, t: int)
    requires Inv(k) && AllEnabled(k, ops)
    decreases |ops|
  {
    Live(k.tasks, t) && (ops != [] ==> (StepInv(k, ops[0]); Survives(Step(k, ops[0]).0, ops[1..], t)))
  }

  /** The ticks of a run that find t running. */
  ghost function TicksOf(k: Kernel, ops: seq<Op>, t: int): nat
    requires Inv(k) && AllEnabled(k, ops)
    decreases |ops|
  {
    if ops == [] then 0
    else
      StepInv(k, ops[0]);
      (if ops[0].Tick? && k.cur == t then 1 else 0) + TicksOf(Step(k, ops[0]).0, ops[1..], t)
  }

  /** The times in a run that the processor goes from another task to t. */
  ghost function SwitchesTo(k: Kernel, ops: seq<Op>, t: int): nat
    requires Inv(k) && AllEnabled(k, ops)
    decreases |ops|
  {
    if ops == [] then 0
    else
      StepInv(k, ops[0]);
      var k' := Step(k, ops[0]).0;
      (if k.cur != t && k'.cur == t then 1 else 0) + SwitchesTo(k', ops[1..], t)
  }

  lemma CountersStep(k: Kernel, op: Op, t: int)
    requires Inv(k) && BooksOk(k) && Enabled(k, op) && Live(k.tasks, t) && t < |Step(k, op).0.tasks|
    ensures var k' := Step(k, op).0;
            && k'.tasks[t].cpuTics == k.tasks[t].cpuTics + (if op.Tick? && k.cur == t then 1 else 0)
            && k'.tasks[t].transitions == k.tasks[t].transitions + if k.cur != t && k'.cur == t then 1 else 0
  {
    hide QueuesOk, SemsOk, TasksOk, RunOk, BooksOk, Step, ClockSteps, QueuesStep, SemsStep, ReturnAfter, OwnsAfter;
    StepTold(k, op);
    assert TaskSteps(k, op, Step(k, op).0, t);
  }

  /** After every run, a task's counters have grown by the ticks it ran for and by its turns. */
  lemma {:induction false} CountersCount(k: Kernel, ops: seq<Op>, t: int)
    requires Inv(k) && BooksOk(k) && AllEnabled(k, ops) && Survives(k, ops, t)
    ensures var k' := Run(k, ops);
            && Live(k'.tasks, t)
            && k'.tasks[t].cpuTics == k.tasks[t].cpuTics + TicksOf(k, ops, t)
            && k'.tasks[t].transitions == k.tasks[t].transitions + SwitchesTo(k, ops, t)
    decreases |ops|
  {
    hide InRange, TasksOk, QueuesOk, SemsOk, RunOk, Step, Enabled, BooksOk, Live;
    if ops != [] {
      StepInv(k, ops[0]);
      BooksStep(k, ops[0]);
      var k' := Step(k, ops[0]).0;
      CountersCount(k', ops[1..], t);
      IsSlot(k, t);
      IsSlot(k', t);
      CountersStep(k, ops[0], t);
    }
  }

  /** Task 0 lives for ever. */
  lemma {:induction false} TaskZeroSurvives(k: Kernel, ops: seq<Op>)
    requires Inv(k) && AllEnabled(k, ops)
    ensures Survives(k, ops, 0)
    decreases |ops|
  {
    hide InRange, QueuesOk, SemsOk, RunOk, Step, Enabled;
    if ops != [] {
      StepInv(k, ops[0]);
      TaskZeroSurvives(Step(k, ops[0]).0, ops[1..]);
    }
  }

  /** From boot on: its first turn is counted too. */
  lemma TaskZeroCounts(tasks: nat, sems: nat, ops: seq<Op>)
    requires tasks > 0 && Inv(Boot(tasks, sems)) && AllEnabled(Boot(tasks, sems), ops)
    ensures var k := Run(Boot(tasks, sems), ops);
            && k.tasks != []
            && k.tasks[0].cpuTics == TicksOf(Boot(tasks, sems), ops, 0)
            && k.tasks[0].transitions == 1 + SwitchesTo(Boot(tasks, sems), ops, 0)
  {
    hide Inv;
    BootBooks(tasks, sems);
    TaskZeroSurvives(Boot(tasks, sems), ops);
    CountersCount(Boot(tasks, sems), ops, 0);
  }

  lemma IsSlot(k: Kernel, t: int)
    requires Live(k.tasks, t)
    ensures 0 <= t < |k.tasks|
  {
  }

  // ---------------------------------------------------------------- pids are never given out twice

  ghost predicate EverHad(k: Kernel, ops: seq<Op>, pid: int)
    requires Inv(k) && AllEnabled(k, ops)
    decreases |ops|
  {
    || (exists t :: 0 <= t < |k.tasks| && k.tasks[t].pid == pid)
    || (ops != [] && (StepInv(k, ops[0]); EverHad(Step(k, ops[0]).0, ops[1..], pid)))
  }

  lemma PidsAreBelow(k: Kernel, pid: int)
    requires BooksOk(k) && pid >= k.nextPid
    ensures !exists t :: 0 <= t < |k.tasks| && k.tasks[t].pid == pid
  {
  }

  lemma CounterGrows(k: Kernel, op: Op)
    requires Inv(k) && BooksOk(k) && Enabled(k, op)
    ensures Step(k, op).0.nextPid >= k.nextPid
  {
    hide QueuesOk, SemsOk, TasksOk, RunOk, BooksOk, Step, QueuesStep, SemsStep, TasksStep;
    StepTold(k, op);
  }

  /** The pid that the next fork gives out was that of no task in any state of the run. */
  lemma {:induction false} NextPidIsNew(k: Kernel, ops: seq<Op>, pid: int)
    requires Inv(k) && BooksOk(k) && AllEnabled(k, ops) && pid >= Run(k, ops).nextPid
    ensures !EverHad(k, ops, pid) && k.nextPid <= Run(k, ops).nextPid
    decreases |ops|
  {
    hide InRange, TasksOk, QueuesOk, SemsOk, RunOk, Step, Enabled, BooksOk;
    if ops != [] {
      StepInv(k, ops[0]);
      BooksStep(k, ops[0]);
      CounterGrows(k, ops[0]);
      NextPidIsNew(Step(k, ops[0]).0, ops[1..], pid);
    }
    PidsAreBelow(k, pid);
  }
}
