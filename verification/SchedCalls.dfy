/** What each call of the scheduler answers, by conditions that a caller can check, and what a fork makes. */
module SchedCalls {
  import opened Counting
  import opened SchedSpec
  import opened SchedInvariant
  import opened SchedTheorems
  import opened SemTheorems

  // ---------------------------------------------------------------- answers

  /** The call is refused: by whom it is made, or by its arguments. */
  ghost predicate Refused(k: Kernel, op: Op)
    requires InRange(k)
  {
    match op
    case Fork(frames) => !frames || forall t :: 0 <= t < |k.tasks| ==> k.tasks[t].pid >= 0
    case Nice(quantum) => quantum <= 0
    case SemInit(n, _) => n < 0 || n >= |k.sems| || k.sems[n].init
    case SemWait(n) => k.tasks[k.cur].pid == 0 || n < 0 || n >= |k.sems| || !k.sems[n].init
    case SemSignal(n) => n < 0 || n >= |k.sems| || !k.sems[n].init
    case SemDestroy(n) => n < 0 || n >= |k.sems| || !k.sems[n].init || !k.tasks[k.cur].owned[n]
    case Exit => k.tasks[k.cur].pid == 0
    case KbdBlock(_) => k.tasks[k.cur].pid == 0
    case KbdWake => k.kbdq == []
    case Tick => false
  }

  /** A refused call changes nothing. */
  lemma RefusedChangesNothing(k: Kernel, op: Op)
    requires InRange(k) && Refused(k, op)
    ensures Step(k, op).0 == k
  {
    hide InRange, Remove, Drain, Yield, Leave;
    if op.Fork? && FreeTask(k.tasks) < |k.tasks| {
      assert k.tasks[FreeTask(k.tasks)].pid < 0;
    }
  }

  lemma WaitAnswer(k: Kernel, n: int)
    requires InRange(k)
    ensures Wait(k, n).1 == if k.tasks[k.cur].pid == 0 then -EPERM
                            else if n < 0 || n >= |k.sems| || !k.sems[n].init then -EINVAL
                            else 0
  {
    hide Remove, Yield;
  }

  /** A wait that does not block takes exactly one unit. */
  lemma WaitTakesOne(k: Kernel, n: int)
    requires InRange(k) && !Refused(k, SemWait(n)) && k.sems[n].count > 0
    ensures Wait(k, n).0 == k.(sems := k.sems[n := k.sems[n].(count := k.sems[n].count - 1)])
  {
  }

  lemma InitAnswer(k: Kernel, n: int, value: nat)
    requires InRange(k)
    ensures Init(k, n, value).1 == if n < 0 || n >= |k.sems| then -EINVAL
                                   else if k.sems[n].init then -EBUSY
                                   else 0
  {
    hide InRange;
  }

  lemma SignalAnswer(k: Kernel, n: int)
    requires InRange(k)
    ensures Signal(k, n).1 == if n < 0 || n >= |k.sems| || !k.sems[n].init then -EINVAL else 0
  {
    hide Remove;
  }

  lemma DestroyAnswer(k: Kernel, n: int)
    requires InRange(k)
    ensures Destroy(k, n).1 == if n < 0 || n >= |k.sems| || !k.sems[n].init then -EINVAL
                               else if !k.tasks[k.cur].owned[n] then -EPERM
                               else 0
  {
    hide Drain;
  }

  lemma NiceAnswer(k: Kernel, quantum: int)
    requires InRange(k)
    ensures NiceTask(k, quantum).1 == if quantum <= 0 then -EINVAL else k.tasks[k.cur].quantum
  {
    hide Remove;
  }

  /** The answer of a read that blocks is replaced by the size when the task is woken; task 0 gets it as it is. */
  lemma KbdBlockAnswer(k: Kernel, size: int)
    requires InRange(k)
    ensures BlockOnKbd(k, size).1 == -EPERM
  {
    hide Yield;
  }

  /** The child: the first free slot. It gets a pid that no task had, no semaphore, and 0 to return. */
  lemma ForkAnswer(k: Kernel, frames: bool)
    requires Inv(k) && PidsOk(k.tasks, k.nextPid)
    ensures var (k', r) := ForkTask(k, frames);
            if Refused(k, Fork(frames)) then r == -EAGAIN && k' == k
            else ForkedInto(k, FreeTask(k.tasks), k', r)
  {
    HeadOnly(k);
    hide QueuesOk, SemsOk, TasksOk;
  }

  ghost predicate ForkedInto(k: Kernel, child: int, k': Kernel, r: int)
    requires InRange(k)
  {
    && 0 <= child < |k.tasks| == |k'.tasks|
    && k.tasks[child].pid < 0 && (forall t :: 0 <= t < child ==> k.tasks[t].pid >= 0)
    && r > 0 && k'.tasks[child].pid == r == k.nextPid && k'.nextPid == r + 1
    && (forall t :: 0 <= t < |k.tasks| ==> k.tasks[t].pid != r)
    && k'.tasks[child].quantum == k'.tasks[child].remaining == k.tasks[k.cur].quantum
    && k'.tasks[child].eax == k'.tasks[child].cpuTics == k'.tasks[child].transitions == 0
    && |k'.tasks[child].owned| == |k.sems| && (forall n :: 0 <= n < |k.sems| ==> !k'.tasks[child].owned[n])
    && (forall t :: 0 <= t < |k.tasks| && t != child ==> k'.tasks[t] == k.tasks[t])
    && k'.runq == k.runq + [child] && k'.sems == k.sems && k'.kbdq == k.kbdq && k'.cur == k.cur && k'.left == k.left
  }
}
