/** What a semaphore promises over its lifetime: conservation, order, and the return value of each waiter. */
module SemTheorems {
  import opened Counting
  import opened SchedSpec
  import opened SchedInvariant
  import opened SchedTheorems

  /** The history of a semaphore since it was last initialised. */
  datatype Life = Life(initial: nat, signals: nat, passed: nat, blocked: seq<int>, released: seq<int>)

  function LivesStep(k: Kernel, lives: seq<Life>, op: Op): (r: seq<Life>)
    requires InRange(k) && |lives| == |k.sems|
    ensures |r| == |lives|
  {
    match op
    case SemInit(n, value) =>
      if 0 <= n < |k.sems| && !k.sems[n].init then lives[n := Life(value, 0, 0, [], [])] else lives
    case SemWait(n) =>
      if Me(k).pid == 0 || !ValidSem(k, n) then lives
      else if k.sems[n].count == 0 then lives[n := lives[n].(blocked := lives[n].blocked + [k.cur])]
      else lives[n := lives[n].(passed := lives[n].passed + 1)]
    case SemSignal(n) =>
      if !ValidSem(k, n) then lives
      else
        var l := lives[n].(signals := lives[n].signals + 1);
        lives[n := if k.sems[n].waiters == [] then l else l.(released := l.released + [k.sems[n].waiters[0]])]
    case _ => lives
  }

  /**
   Every unit put in is still counted or was taken by a completed wait, and the tasks that blocked are the
   released ones followed by those still waiting: they are released in the order in which they came.
   */
  ghost predicate Balanced(s: Sem, l: Life) {
    l.initial + l.signals == s.count + l.passed + |l.released| && l.blocked == l.released + s.waiters
  }

  ghost predicate Conserved(k: Kernel, lives: seq<Life>) {
    |lives| == |k.sems| && forall n :: 0 <= n < |k.sems| && k.sems[n].init ==> Balanced(k.sems[n], lives[n])
  }

  /** The semaphores after a step, in terms of the semaphores before it. */
  lemma SemsAfter(k: Kernel, op: Op)
    requires Inv(k) && Enabled(k, op)
    ensures var k' := Step(k, op).0;
            && |k'.sems| == |k.sems|
            && match op
               case SemInit(_, _) => true
               case SemWait(_) => true
               case SemSignal(_) => true
               case SemDestroy(m) =>
                 forall n :: 0 <= n < |k.sems| ==> k'.sems[n] == k.sems[n] || (n == m && !k'.sems[n].init)
               case Exit =>
                 forall n :: 0 <= n < |k.sems| ==> k'.sems[n] == k.sems[n] || !k'.sems[n].init
               case _ => k'.sems == k.sems
  {
    hide QueuesOk, SemsOk, TasksOk, RunOk, Remove, DestroyOwned, Leave;
    match op
    case SemDestroy(m) => hide InRange;
    case Exit => ExitSems(k);
    case _ => hide Destroy;
  }

  lemma ExitSems(k: Kernel)
    requires Inv(k) && !Strands(k)
    ensures |ExitTask(k).sems| == |k.sems|
    ensures forall n :: 0 <= n < |k.sems| ==> ExitTask(k).sems[n] == k.sems[n] || !ExitTask(k).sems[n].init
  {
    hide QueuesOk, SemsOk, TasksOk, RunOk, DestroyOwned, Leave;
    if Me(k).pid != 0 {
      DestroyOwnedInv(k, |k.sems|);
      LeaveSems(DestroyOwned(k, |k.sems|));
    }
  }

  lemma LeaveSems(d: Kernel)
    requires InRange(d)
    ensures Leave(d).sems == d.sems
  {
    hide Remove;
  }

  lemma ConservedStep(k: Kernel, lives: seq<Life>, op: Op)
    requires Inv(k) && Enabled(k, op) && Conserved(k, lives)
    ensures Conserved(Step(k, op).0, LivesStep(k, lives, op))
  {
    SemsAfter(k, op);
    var k' := Step(k, op).0;
    hide QueuesOk, TasksOk, Remove, DestroyOwned, Balanced;
    match op
    case SemInit(n, value) =>
      if 0 <= n < |k.sems| && !k.sems[n].init {
        Fresh(value);
      }
    case SemWait(n) =>
      if Me(k).pid != 0 && ValidSem(k, n) {
        Waited(k.sems[n], lives[n], k.cur);
      }
    case SemSignal(n) =>
      if ValidSem(k, n) {
        Signalled(k.sems[n], lives[n]);
      }
    case _ =>
  }

  lemma Fresh(value: nat)
    ensures Balanced(Sem(value, true, []), Life(value, 0, 0, [], []))
  {
  }

  lemma Waited(s: Sem, l: Life, t: int)
    requires Balanced(s, l)
    ensures if s.count == 0 then Balanced(s.(waiters := s.waiters + [t]), l.(blocked := l.blocked + [t]))
            else Balanced(s.(count := s.count - 1), l.(passed := l.passed + 1))
  {
  }

  lemma Signalled(s: Sem, l: Life)
    requires Balanced(s, l)
    ensures var l' := l.(signals := l.signals + 1);
            if s.waiters == [] then Balanced(s.(count := s.count + 1), l')
            else Balanced(s.(waiters := s.waiters[1..]), l'.(released := l'.released + [s.waiters[0]]))
  {
    if s.waiters != [] {
      assert l.released + s.waiters == (l.released + [s.waiters[0]]) + s.waiters[1..];
    }
  }

  ghost function RunWith(k: Kernel, lives: seq<Life>, ops: seq<Op>): (Kernel, seq<Life>)
    requires Inv(k) && AllEnabled(k, ops) && |lives| == |k.sems|
    decreases |ops|
  {
    if ops == [] then (k, lives)
    else
      StepInv(k, ops[0]);
      SemsAfter(k, ops[0]);
      RunWith(Step(k, ops[0]).0, LivesStep(k, lives, ops[0]), ops[1..])
  }

  /** Conservation and order hold for every semaphore after every run. */
  lemma {:induction false} SemaphoresConserve(k: Kernel, lives: seq<Life>, ops: seq<Op>)
    requires Inv(k) && AllEnabled(k, ops) && Conserved(k, lives)
    ensures var (k', lives') := RunWith(k, lives, ops); Inv(k') && Conserved(k', lives')
    decreases |ops|
  {
    if ops != [] {
      StepInv(k, ops[0]);
      SemsAfter(k, ops[0]);
      ConservedStep(k, lives, ops[0]);
      hide Inv, Step, LivesStep, Enabled;
      SemaphoresConserve(Step(k, ops[0]).0, LivesStep(k, lives, ops[0]), ops[1..]);
    }
  }

  /** From boot no semaphore is initialised, so any history will do. */
  lemma BootConserves(tasks: nat, sems: nat, lives: seq<Life>, ops: seq<Op>)
    requires tasks > 0 && |lives| == sems
    requires Inv(Boot(tasks, sems)) && AllEnabled(Boot(tasks, sems), ops)
    ensures var (k, lives') := RunWith(Boot(tasks, sems), lives, ops); Inv(k) && Conserved(k, lives')
  {
    SemaphoresConserve(Boot(tasks, sems), lives, ops);
  }

  // ---------------------------------------------------------------- waiters

  /** A waiter is live and in no other queue. */
  lemma WaiterIsAlone(k: Kernel, n: nat, t: int)
    requires Inv(k) && n < |k.sems| && t in k.sems[n].waiters
    ensures Live(k.tasks, t) && t !in k.runq && t !in k.kbdq
    ensures forall m :: 0 <= m < |k.sems| && m != n ==> t !in k.sems[m].waiters
  {
    CountIn(k.runq, t);
    CountIn(k.kbdq, t);
    var w := Waits(k.sems);
    var i :| 0 <= i < |w[n]| && w[n][i] == t;
    TotalHas(w, n, i);
    assert Places(k, t) == if Live(k.tasks, t) then 1 else 0;
    forall m | 0 <= m < |k.sems| && m != n ensures t !in k.sems[m].waiters {
      if t in w[m] {
        var j :| 0 <= j < |w[m]| && w[m][j] == t;
        var w' := w[n := []];
        TotalUpdate(w, n, [], t);
        CountIn(w[n], t);
        assert w'[m][j] == t;
        TotalHas(w', m, j);
      }
    }
  }

  /** One round of the loop of sys_exit, seen by another task. */
  lemma OneRound(d: Kernel, n: nat, t: int)
    requires Inv(d) && n < |d.sems| && 0 <= t < |d.tasks| && t != d.cur
    ensures var d' := if Me(d).owned[n] then Destroy(d, n).0 else d;
            && |d'.tasks| == |d.tasks| && d'.cur == d.cur && (t in d.runq ==> t in d'.runq)
            && (Me(d).owned[n] && t in d.sems[n].waiters ==> t in d'.runq && d'.tasks[t].eax == -1)
            && (t !in d.sems[n].waiters ==> d'.tasks[t].eax == d.tasks[t].eax)
            && (d.tasks[t].eax == -1 ==> d'.tasks[t].eax == -1)
  {
    if Me(d).owned[n] {
      hide QueuesOk, SemsOk, TasksOk, Remove, Destroy;
      HeadOnly(d);
      OwnedIsValid(d, n);
      DestroyShape(d, n);
    }
  }

  /** The loop of sys_exit has not touched the semaphores it has not reached. */
  lemma NotYetCleared(k: Kernel, n: nat)
    requires Inv(k) && n < |k.sems|
    ensures var d := DestroyOwned(k, n);
            && Inv(d) && d.sems[n] == k.sems[n] && Me(d).owned[n] == Me(k).owned[n]
  {
    hide QueuesOk, SemsOk, TasksOk, RunOk, DestroyOwned;
    DestroyOwnedInv(k, n);
  }

  /** Waiters of every semaphore that the leaving task owned are runnable with -1 to return. */
  lemma {:induction false} OrphanReleased(k: Kernel, m: nat, t: int, n: nat)
    requires Inv(k) && m < n <= |k.sems| && Me(k).owned[m] && t in k.sems[m].waiters && 0 <= t < |k.tasks| && t != k.cur
    ensures var d := DestroyOwned(k, n); d.tasks[t].eax == -1 && t in d.runq
  {
    hide QueuesOk, SemsOk, TasksOk, RunOk, Destroy, InRange, Cleared;
    NotYetCleared(k, n - 1);
    if m < n - 1 {
      OrphanReleased(k, m, t, n - 1);
    }
    OneRound(DestroyOwned(k, n - 1), n - 1, t);
  }

  /**
   A task leaves a wait list only by a signal to that semaphore, which it leaves first and with 0 to return,
   or by the semaphore's end, with -1; either way it is runnable.
   */
  lemma WaiterReleased(k: Kernel, op: Op, n: nat, t: int)
    requires Inv(k) && Enabled(k, op) && n < |k.sems| && t in k.sems[n].waiters
    ensures var k' := Step(k, op).0;
            && |k'.sems| == |k.sems| && |k'.tasks| == |k.tasks| && Live(k.tasks, t)
            && (t !in k'.sems[n].waiters ==>
                  && t in k'.runq
                  && (op == SemSignal(n) || ((op == SemDestroy(n) || op.Exit?) && !k'.sems[n].init))
                  && (op == SemSignal(n) ==> t == k.sems[n].waiters[0])
                  && k'.tasks[t].eax == if op == SemSignal(n) then 0 else -1)
  {
    SemsAfter(k, op);
    WaiterIsAlone(k, n, t);
    HeadOnly(k);
    match op
    case SemInit(m, value) => UninitialisedIsEmpty(k, n);
    case SemDestroy(m) =>
      hide QueuesOk, SemsOk, TasksOk, Remove;
      if ValidSem(k, m) && Me(k).owned[m] {
        DestroyShape(k, m);
        hide Destroy;
      }
    case Exit =>
      hide QueuesOk, SemsOk, TasksOk, DestroyOwned, Leave;
      if Me(k).pid != 0 {
        ExitReleases(k, n, t);
        hide ExitTask;
      }
    case SemWait(m) => hide QueuesOk, SemsOk, TasksOk, Remove;
    case SemSignal(m) => hide QueuesOk, SemsOk, TasksOk, Remove;
    case _ => StaysAsleep(k, op, n);
  }

  lemma UninitialisedIsEmpty(k: Kernel, n: nat)
    requires Inv(k) && n < |k.sems|
    ensures !k.sems[n].init ==> k.sems[n].waiters == []
  {
    hide QueuesOk, Owners;
  }

  /** The other steps do not touch the semaphores. */
  lemma StaysAsleep(k: Kernel, op: Op, n: nat)
    requires Inv(k) && n < |k.sems| && (op.Tick? || op.Fork? || op.Nice? || op.KbdBlock? || op.KbdWake?)
    ensures |Step(k, op).0.tasks| == |k.tasks| && Step(k, op).0.sems == k.sems
  {
    hide QueuesOk, SemsOk, TasksOk, Remove;
  }

  lemma ExitReleases(k: Kernel, n: nat, t: int)
    requires Inv(k) && !Strands(k) && Me(k).pid != 0 && n < |k.sems| && t in k.sems[n].waiters && Live(k.tasks, t)
             && t != k.cur
    ensures var k' := ExitTask(k);
            && |k'.tasks| == |k.tasks| && |k'.sems| == |k.sems|
            && if Me(k).owned[n] then t in k'.runq && k'.tasks[t].eax == -1 && !k'.sems[n].init
               else k'.sems[n] == k.sems[n]
  {
    hide QueuesOk, SemsOk, TasksOk, RunOk, DestroyOwned, Leave;
    DestroyOwnedInv(k, |k.sems|);
    if Me(k).owned[n] {
      OrphanReleased(k, n, t, |k.sems|);
    }
    LeaveFrees(DestroyOwned(k, |k.sems|), t);
  }

  lemma LeaveFrees(d: Kernel, t: int)
    requires Inv(d) && |d.runq| > 2 && 0 <= t < |d.tasks| && t != d.cur
    ensures var k' := Leave(d);
            && |k'.tasks| == |d.tasks| && k'.sems == d.sems && k'.tasks[t].eax == d.tasks[t].eax
            && (t in d.runq ==> t in k'.runq)
  {
    hide QueuesOk, SemsOk, TasksOk, Remove;
    HeadOnly(d);
    assert d.runq == [d.cur] + d.runq[1..];
  }

  /** The return value is safe until the task runs: no step changes what a queued task will see. */
  lemma ReturnValueKept(k: Kernel, op: Op, t: int)
    requires Inv(k) && Enabled(k, op) && Waiting(k, t)
    ensures Live(k.tasks, t) && t < |Step(k, op).0.tasks| && Step(k, op).0.tasks[t].eax == k.tasks[t].eax
  {
    hide QueuesOk, SemsOk, TasksOk, RunOk, Remove, DestroyOwned, Destroy, Leave;
    QueuedIsLive(k, t);
    QueuedQuanta(k, t);
    QueuedIsAlone(k, t);
    HeadOnly(k);
    match op
    case Tick => TickKeeps(k, t); hide ClockTick;
    case SemDestroy(n) => SemDestroyKeeps(k, n, t);
    case Exit =>
      if Me(k).pid != 0 {
        DestroyOwnedInv(k, |k.sems|);
        DestroyKeeps(k, t, |k.sems|);
        LeaveKeeps(DestroyOwned(k, |k.sems|), t);
      }
    case _ =>
  }

  lemma SemDestroyKeeps(k: Kernel, n: int, t: int)
    requires InRange(k) && 0 <= t < |k.tasks| && forall n :: 0 <= n < |k.sems| ==> t !in k.sems[n].waiters
    ensures t < |Destroy(k, n).0.tasks| && Destroy(k, n).0.tasks[t].eax == k.tasks[t].eax
  {
  }

  lemma LeaveKeeps(k: Kernel, t: int)
    requires InRange(k) && 0 <= t < |k.tasks| && t != k.cur
    ensures t < |Leave(k).tasks| && Leave(k).tasks[t].eax == k.tasks[t].eax
  {
    hide Remove;
  }

  lemma TickKeeps(k: Kernel, t: int)
    requires InRange(k) && 0 <= t < |k.tasks| && t != k.cur
    ensures t < |ClockTick(k).tasks| && ClockTick(k).tasks[t].eax == k.tasks[t].eax
  {
    hide Remove;
  }

  lemma QueuedIsAlone(k: Kernel, t: int)
    requires Inv(k) && Waiting(k, t)
    ensures forall n :: 0 <= n < |k.sems| ==> t !in k.sems[n].waiters
  {
    forall n | 0 <= n < |k.sems| ensures t !in k.sems[n].waiters {
      if t in k.sems[n].waiters {
        assert t in k.runq by { assert k.runq == [k.runq[0]] + k.runq[1..]; }
        WaiterIsAlone(k, n, t);
        assert false;
      }
    }
  }

  lemma {:induction false} DestroyKeeps(k: Kernel, t: int, n: nat)
    requires Inv(k) && n <= |k.sems| && 0 <= t < |k.tasks| && t != k.cur
    requires forall m :: 0 <= m < |k.sems| ==> t !in k.sems[m].waiters
    ensures |DestroyOwned(k, n).tasks| == |k.tasks| && DestroyOwned(k, n).tasks[t].eax == k.tasks[t].eax
  {
    hide QueuesOk, SemsOk, TasksOk, RunOk, Destroy, Cleared;
    if n > 0 {
      DestroyKeeps(k, t, n - 1);
      NotYetCleared(k, n - 1);
      KeptRound(k, DestroyOwned(k, n - 1), n - 1, t);
    }
  }

  lemma KeptRound(k: Kernel, d: Kernel, n: nat, t: int)
    requires InRange(k) && Inv(d) && n < |k.sems| && |d.sems| == |k.sems| && d.sems[n] == k.sems[n]
             && t !in k.sems[n].waiters
    requires 0 <= t < |d.tasks| && t != d.cur
    ensures var d' := if Me(d).owned[n] then Destroy(d, n).0 else d;
            |d'.tasks| == |d.tasks| && d'.tasks[t].eax == d.tasks[t].eax
  {
    hide QueuesOk, SemsOk, TasksOk, RunOk, Destroy;
    OneRound(d, n, t);
  }

  // ---------------------------------------------------------------- from blocking to running again

  /** How a waiter of semaphore n left its wait list in a run. */
  datatype Release = NotYet | BySignal | ByEnd

  ghost function ReleaseOf(k: Kernel, ops: seq<Op>, n: nat, t: int): Release
    requires Inv(k) && AllEnabled(k, ops) && n < |k.sems|
    decreases |ops|
  {
    if ops == [] then NotYet
    else
      StepInv(k, ops[0]);
      SemsAfter(k, ops[0]);
      var k' := Step(k, ops[0]).0;
      if t in k'.sems[n].waiters then ReleaseOf(k', ops[1..], n, t)
      else if ops[0] == SemSignal(n) then BySignal
      else ByEnd
  }

  /** The run ends in the first state in which t is the running task. */
  ghost predicate FirstRuns(k: Kernel, ops: seq<Op>, t: int)
    requires Inv(k) && AllEnabled(k, ops)
    decreases |ops|
  {
    if ops == [] then k.cur == t
    else k.cur != t && (StepInv(k, ops[0]); FirstRuns(Step(k, ops[0]).0, ops[1..], t))
  }

  /** A queued task finds the return value that it was queued with. */
  lemma {:induction false} QueuedReturns(k: Kernel, ops: seq<Op>, t: int)
    requires Inv(k) && AllEnabled(k, ops) && FirstRuns(k, ops, t) && (k.cur == t || Waiting(k, t))
    ensures 0 <= t < |k.tasks| && t < |Run(k, ops).tasks| && Run(k, ops).tasks[t].eax == k.tasks[t].eax
    decreases |ops|
  {
    hide TasksOk, QueuesOk, SemsOk, Step, Enabled, Waiting, Rank;
    if ops != [] {
      StepInv(k, ops[0]);
      RankStep(k, ops[0], t);
      ReturnValueKept(k, ops[0], t);
      QueuedReturns(Step(k, ops[0]).0, ops[1..], t);
    }
  }

  /**
   A task that blocked on a semaphore sees, when it runs again, 0 exactly if a signal released it, and -1 if the
   semaphore was destroyed, by its owner's call or exit; it does not run before one of them happens.
   */
  lemma {:induction false} WaiterReturns(k: Kernel, ops: seq<Op>, n: nat, t: int)
    requires Inv(k) && AllEnabled(k, ops) && FirstRuns(k, ops, t) && n < |k.sems| && t in k.sems[n].waiters
    ensures ReleaseOf(k, ops, n, t) != NotYet && 0 <= t < |Run(k, ops).tasks|
    ensures Run(k, ops).tasks[t].eax == if ReleaseOf(k, ops, n, t) == BySignal then 0 else -1
    decreases |ops|
  {
    HeadOnly(k);
    hide TasksOk, QueuesOk, SemsOk, Step, Enabled;
    if ops != [] {
      StepInv(k, ops[0]);
      SemsAfter(k, ops[0]);
      WaiterReleased(k, ops[0], n, t);
      var k' := Step(k, ops[0]).0;
      if t in k'.sems[n].waiters {
        WaiterReturns(k', ops[1..], n, t);
      } else {
        assert k'.cur == t || Waiting(k', t) by { assert k'.runq == [k'.runq[0]] + k'.runq[1..]; }
        QueuedReturns(k', ops[1..], t);
      }
    }
  }
}
