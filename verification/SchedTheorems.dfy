/** Whole runs of the scheduler and the semaphores: no starvation, conservation, first come first served. */
module SchedTheorems {
  import opened Counting
  import opened SchedSpec
  import opened SchedInvariant

  // ---------------------------------------------------------------- runs

  ghost predicate AllEnabled(k: Kernel, ops: seq<Op>)
    requires Inv(k)
    decreases |ops|
  {
    ops != [] ==> Enabled(k, ops[0]) && (StepInv(k, ops[0]); AllEnabled(Step(k, ops[0]).0, ops[1..]))
  }

  /** At some moment of the run, t is the running task. */
  ghost predicate EverRuns(k: Kernel, ops: seq<Op>, t: int)
    requires Inv(k) && AllEnabled(k, ops)
    decreases |ops|
  {
    k.cur == t || (ops != [] && (StepInv(k, ops[0]); EverRuns(Step(k, ops[0]).0, ops[1..], t)))
  }

  function Ticks(ops: seq<Op>): nat {
    if ops == [] then 0 else (if ops[0].Tick? then 1 else 0) + Ticks(ops[1..])
  }

  // ---------------------------------------------------------------- the rank of a waiting task

  /** The quanta of the tasks of q that come before t. */
  function Ahead(tasks: seq<Task>, q: seq<int>, t: int): int
    requires forall i :: 0 <= i < |q| ==> 0 <= q[i] < |tasks|
  {
    if q == [] || q[0] == t then 0 else tasks[q[0]].quantum + Ahead(tasks, q[1..], t)
  }

  ghost predicate Waiting(k: Kernel, t: int) {
    k.runq != [] && t in k.runq[1..]
  }

  /** Ticks until t runs: the time left to the running task and the quanta of those between. */
  function Rank(k: Kernel, t: int): int
    requires InRange(k) && k.runq != []
  {
    k.left + Ahead(k.tasks, k.runq[1..], t)
  }

  lemma {:induction false} AheadAppend(tasks: seq<Task>, q: seq<int>, r: seq<int>, t: int)
    requires forall i :: 0 <= i < |q + r| ==> 0 <= (q + r)[i] < |tasks|
    requires t in q
    ensures forall i :: 0 <= i < |q| ==> 0 <= q[i] < |tasks|
    ensures Ahead(tasks, q + r, t) == Ahead(tasks, q, t)
  {
    assert forall i :: 0 <= i < |q| ==> (q + r)[i] == q[i];
    if q[0] != t {
      assert (q + r)[1..] == q[1..] + r;
      assert q == [q[0]] + q[1..];
      AheadAppend(tasks, q[1..], r, t);
    }
  }

  lemma {:induction false} AheadFrame(tasks: seq<Task>, tasks': seq<Task>, q: seq<int>, t: int)
    requires forall i :: 0 <= i < |q| ==> 0 <= q[i] < |tasks| && q[i] < |tasks'|
    requires forall i :: 0 <= i < |q| ==> tasks'[q[i]].quantum == tasks[q[i]].quantum
    ensures Ahead(tasks', q, t) == Ahead(tasks, q, t)
  {
    if q != [] && q[0] != t {
      AheadFrame(tasks, tasks', q[1..], t);
    }
  }

  lemma {:induction false} AheadPositive(tasks: seq<Task>, q: seq<int>, t: int)
    requires forall i :: 0 <= i < |q| ==> 0 <= q[i] < |tasks| && tasks[q[i]].quantum >= 1
    ensures Ahead(tasks, q, t) >= 0
    ensures q != [] && q[0] != t ==> Ahead(tasks, q, t) >= 1
  {
    if q != [] && q[0] != t {
      AheadPositive(tasks, q[1..], t);
    }
  }

  /** Steps that keep the running task and only append to the run queue keep every rank. */
  lemma RankStays(k: Kernel, k': Kernel, more: seq<int>, t: int)
    requires InRange(k) && InRange(k') && Waiting(k, t) && k'.runq == k.runq + more && k'.left == k.left
    requires forall x :: x in k.runq[1..] ==>
               0 <= x < |k'.tasks| && 0 <= x < |k.tasks| && k'.tasks[x].quantum == k.tasks[x].quantum
    ensures Waiting(k', t) && Rank(k', t) == Rank(k, t)
  {
    var q := k.runq[1..];
    assert k'.runq[1..] == q + more;
    AheadAppend(k'.tasks, q, more, t);
    AheadFrame(k.tasks, k'.tasks, q, t);
  }

  /** Steps that give the processor to the next task take the time left off every rank. */
  lemma RankDrops(k: Kernel, k': Kernel, more: seq<int>, t: int)
    requires InRange(k) && InRange(k') && Waiting(k, t) && k'.runq == k.runq[1..] + more
    requires k'.cur == k.runq[1] && k'.left == k.tasks[k.runq[1]].quantum
    requires forall x :: x in k.runq[1..] ==>
               0 <= x < |k'.tasks| && 0 <= x < |k.tasks| && k'.tasks[x].quantum == k.tasks[x].quantum
    ensures k'.cur == t ==> Rank(k, t) == k.left
    ensures k'.cur != t ==> Waiting(k', t) && Rank(k', t) == Rank(k, t) - k.left
  {
    var q := k.runq[1..];
    assert q[0] == k.runq[1];
    if q[0] != t {
      assert q == [q[0]] + q[1..];
      assert k'.runq[1..] == q[1..] + more;
      AheadAppend(k'.tasks, q[1..], more, t);
      AheadFrame(k.tasks, k'.tasks, q[1..], t);
    }
  }

  /** Queued tasks are live, so they have a quantum. */
  lemma QueuedQuanta(k: Kernel, t: int)
    requires Inv(k) && Waiting(k, t)
    ensures t != k.cur && forall x :: x in k.runq[1..] ==> 0 <= x < |k.tasks| && k.tasks[x].quantum >= 1 && x != k.cur
  {
    HeadOnly(k);
    forall x | x in k.runq[1..] ensures 0 <= x < |k.tasks| && k.tasks[x].quantum >= 1 {
      CountIn(k.runq, x);
      assert x in k.runq by { assert k.runq == [k.cur] + k.runq[1..]; }
      assert Places(k, x) == if Live(k.tasks, x) then 1 else 0;
    }
  }

  /** A tick that leaves time to the running task. */
  lemma TickStays(k: Kernel, t: int)
    requires Inv(k) && Waiting(k, t) && k.left > 1 && InRange(ClockTick(k))
    ensures var k' := ClockTick(k); k'.cur == k.cur && Waiting(k', t) && Rank(k', t) == Rank(k, t) - 1
  {
    hide QueuesOk, SemsOk, TasksOk, Remove;
    QueuedQuanta(k, t);
    assert k.runq + [] == k.runq;
    RankStays(k, ClockTick(k).(left := k.left), [], t);
  }

  /** A tick takes exactly one off the rank of every waiting task; it runs when its rank was one. */
  lemma TickRank(k: Kernel, t: int)
    requires Inv(k) && Waiting(k, t)
    ensures var k' := ClockTick(k);
            && Inv(k') && Rank(k, t) >= 1 && (k'.cur == t <==> Rank(k, t) == 1)
            && (k'.cur != t ==> Waiting(k', t) && Rank(k', t) == Rank(k, t) - 1)
  {
    hide QueuesOk, SemsOk, TasksOk, Remove;
    TickInv(k);
    QueuedQuanta(k, t);
    HeadOnly(k);
    AheadPositive(k.tasks, k.runq[1..], t);
    hide InRange;
    if k.left > 1 {
      TickStays(k, t);
    } else {
      RankDrops(k, ClockTick(k), [k.cur], t);
    }
  }

  /** The bound after a step: t runs, or it still waits and its rank has not grown. */
  ghost predicate NoFurther(k: Kernel, k': Kernel, t: int)
    requires InRange(k) && k.runq != [] && InRange(k')
  {
    k'.cur == t || (Waiting(k', t) && Rank(k', t) <= Rank(k, t))
  }

  lemma ExitRank(k: Kernel, t: int)
    requires Inv(k) && Waiting(k, t) && !Strands(k)
    ensures Inv(ExitTask(k)) && NoFurther(k, ExitTask(k), t)
  {
    hide QueuesOk, SemsOk, TasksOk, Remove, DestroyOwned, Leave;
    ExitInvIff(k);
    HeadOnly(k);
    if Me(k).pid != 0 {
      var d := DestroyOwned(k, |k.sems|);
      DestroyOwnedInv(k, |k.sems|);
      var more := d.runq[|k.runq|..];
      assert d.runq == k.runq + more;
      QueuedQuanta(k, t);
      RankStays(k, d, more, t);
      LeaveRank(d, t);
    }
  }

  lemma LeaveRank(k: Kernel, t: int)
    requires Inv(k) && Waiting(k, t) && |k.runq| > 2 && Inv(Leave(k))
    ensures NoFurther(k, Leave(k), t)
  {
    hide QueuesOk, SemsOk, TasksOk, Remove;
    HeadOnly(k);
    QueuedQuanta(k, t);
    assert k.runq[1..] + [] == k.runq[1..];
    RankDrops(k, Leave(k), [], t);
  }

  lemma YieldRank(k: Kernel, k1: Kernel, t: int)
    requires Inv(k) && Waiting(k, t) && InRange(k1) && k1.runq == k.runq && k1.cur == k.cur
    requires |k1.tasks| == |k.tasks| && forall x :: 0 <= x < |k.tasks| ==> k1.tasks[x].quantum == k.tasks[x].quantum
    requires InRange(Yield(k1))
    ensures NoFurther(k, Yield(k1), t)
  {
    hide QueuesOk, SemsOk, TasksOk, Remove;
    QueuedQuanta(k, t);
    HeadOnly(k);
    assert k.runq[1..] + [] == k.runq[1..];
    RankDrops(k, Yield(k1), [], t);
  }

  /** A step that keeps the running task and its time, and appends to the run queue. */
  lemma QuietRank(k: Kernel, k': Kernel, t: int)
    requires Inv(k) && Waiting(k, t) && InRange(k') && k'.left == k.left
    requires |k'.runq| >= |k.runq| && k'.runq[..|k.runq|] == k.runq && |k'.tasks| == |k.tasks|
    requires forall x :: 0 <= x < |k.tasks| && x != k.cur && k.tasks[x].quantum >= 1 && k.tasks[x].pid >= 0 ==>
               k'.tasks[x].quantum == k.tasks[x].quantum
    ensures NoFurther(k, k', t)
  {
    hide QueuesOk, SemsOk, TasksOk;
    QueuedQuanta(k, t);
    assert k'.runq == k.runq + k'.runq[|k.runq|..];
    forall x | x in k.runq[1..] ensures k.tasks[x].pid >= 0 {
      QueuedIsLive(k, x);
    }
    RankStays(k, k', k'.runq[|k.runq|..], t);
  }

  lemma QueuedIsLive(k: Kernel, x: int)
    requires Inv(k) && x in k.runq[1..]
    ensures Live(k.tasks, x)
  {
    assert x in k.runq by { assert k.runq == [k.runq[0]] + k.runq[1..]; }
    CountIn(k.runq, x);
    assert Places(k, x) == if Live(k.tasks, x) then 1 else 0;
  }

  lemma ForkRank(k: Kernel, frames: bool, t: int)
    requires Inv(k) && Waiting(k, t) && InRange(ForkTask(k, frames).0)
    ensures NoFurther(k, ForkTask(k, frames).0, t)
  {
    hide QueuesOk, SemsOk, TasksOk, NoFurther;
    QuietRank(k, ForkTask(k, frames).0, t);
  }

  lemma TickNoFurther(k: Kernel, t: int)
    requires Inv(k) && Waiting(k, t) && InRange(ClockTick(k))
    ensures NoFurther(k, ClockTick(k), t)
  {
    hide QueuesOk, SemsOk, TasksOk, ClockTick;
    TickRank(k, t);
  }

  lemma NiceRank(k: Kernel, quantum: int, t: int)
    requires Inv(k) && Waiting(k, t) && InRange(NiceTask(k, quantum).0)
    ensures NoFurther(k, NiceTask(k, quantum).0, t)
  {
    hide QueuesOk, SemsOk, TasksOk, NoFurther;
    QuietRank(k, NiceTask(k, quantum).0, t);
  }

  lemma InitRank(k: Kernel, n: int, value: nat, t: int)
    requires Inv(k) && Waiting(k, t) && InRange(Init(k, n, value).0)
    ensures NoFurther(k, Init(k, n, value).0, t)
  {
    hide QueuesOk, SemsOk, TasksOk, NoFurther;
    QuietRank(k, Init(k, n, value).0, t);
  }

  lemma WakeRank(k: Kernel, t: int)
    requires Inv(k) && Waiting(k, t) && InRange(WakeKbd(k))
    ensures NoFurther(k, WakeKbd(k), t)
  {
    hide QueuesOk, SemsOk, TasksOk, NoFurther;
    QuietRank(k, WakeKbd(k), t);
  }

  lemma SemRank(k: Kernel, n: int, t: int)
    requires Inv(k) && Waiting(k, t) && InRange(Signal(k, n).0) && InRange(Destroy(k, n).0)
    ensures NoFurther(k, Signal(k, n).0, t) && NoFurther(k, Destroy(k, n).0, t)
  {
    hide QueuesOk, SemsOk, TasksOk, NoFurther, Remove;
    QuietRank(k, Signal(k, n).0, t);
    if ValidSem(k, n) && Me(k).owned[n] {
      HeadOnly(k);
      DestroyShape(k, n);
      hide Drain;
    }
    QuietRank(k, Destroy(k, n).0, t);
  }

  lemma WaitRank(k: Kernel, n: int, t: int)
    requires Inv(k) && Waiting(k, t) && InRange(Wait(k, n).0)
    ensures NoFurther(k, Wait(k, n).0, t)
  {
    hide QueuesOk, SemsOk, TasksOk, NoFurther, Remove, Yield;
    if Me(k).pid != 0 && ValidSem(k, n) && k.sems[n].count == 0 {
      YieldRank(k, k.(sems := k.sems[n := k.sems[n].(waiters := k.sems[n].waiters + [k.cur])]), t);
    } else {
      QuietRank(k, Wait(k, n).0, t);
    }
  }

  lemma KbdRank(k: Kernel, size: int, t: int)
    requires Inv(k) && Waiting(k, t) && InRange(BlockOnKbd(k, size).0)
    ensures NoFurther(k, BlockOnKbd(k, size).0, t)
  {
    hide QueuesOk, SemsOk, TasksOk, NoFurther, Remove, Yield;
    if Me(k).pid != 0 {
      YieldRank(k, k.(kbdq := k.kbdq + [k.cur], tasks := k.tasks[k.cur := Me(k).(eax := size)]), t);
    } else {
      QuietRank(k, k, t);
    }
  }

  /** No step raises the rank of a waiting task, and a tick lowers it. */
  lemma RankStep(k: Kernel, op: Op, t: int)
    requires Inv(k) && Enabled(k, op) && Waiting(k, t)
    ensures var k' := Step(k, op).0;
            && Inv(k') && Rank(k, t) >= 1 && NoFurther(k, k', t)
            && (op.Tick? && k'.cur != t ==> Waiting(k', t) && Rank(k', t) == Rank(k, t) - 1)
  {
    hide QueuesOk, SemsOk, TasksOk, RunOk, ClockTick, ForkTask, NiceTask, Init, Wait, Signal, Destroy, ExitTask,
         BlockOnKbd, WakeKbd, NoFurther, Rank, InRange, Remove, Waiting;
    StepInv(k, op);
    TickRank(k, t);
    match op
    case Tick => TickNoFurther(k, t);
    case Fork(frames) => ForkRank(k, frames, t);
    case Nice(quantum) => NiceRank(k, quantum, t);
    case SemInit(n, value) => InitRank(k, n, value, t);
    case SemWait(n) => WaitRank(k, n, t);
    case SemSignal(n) => DestroyInv(k, n); SemRank(k, n, t);
    case SemDestroy(n) => SignalInv(k, n); SemRank(k, n, t);
    case Exit => ExitRank(k, t);
    case KbdBlock(size) => KbdRank(k, size, t);
    case KbdWake => WakeRank(k, t);
  }

  /** A runnable task runs before as many ticks have passed as its rank, whatever else happens meanwhile. */
  lemma {:induction false} NoStarvation(k: Kernel, ops: seq<Op>, t: int)
    requires Inv(k) && AllEnabled(k, ops) && Waiting(k, t) && Ticks(ops) >= Rank(k, t)
    ensures EverRuns(k, ops, t)
    decreases |ops|
  {
    if ops == [] {
      TickRank(k, t);
      assert false;
    } else {
      RankStep(k, ops[0], t);
      hide Inv, Step, Rank;
      var k' := Step(k, ops[0]).0;
      if k'.cur != t {
        NoStarvation(k', ops[1..], t);
      }
    }
  }

  ghost function Ticked(k: Kernel, n: nat): (k': Kernel)
    requires Inv(k)
    ensures Inv(k')
  {
    if n == 0 then k else var k1 := Ticked(k, n - 1); TickInv(k1); ClockTick(k1)
  }

  /** Without other steps the bound is exact: t first runs at the tick whose number is its rank. */
  lemma {:induction false} RankIsExact(k: Kernel, n: nat, t: int)
    requires Inv(k) && Waiting(k, t) && n <= Rank(k, t)
    ensures if n < Rank(k, t) then
              Waiting(Ticked(k, n), t) && Ticked(k, n).cur != t && Rank(Ticked(k, n), t) == Rank(k, t) - n
            else Ticked(k, n).cur == t
  {
    hide QueuesOk, SemsOk, TasksOk, RunOk, ClockTick;
    QueuedQuanta(k, t);
    if n > 0 {
      RankIsExact(k, n - 1, t);
      TickRank(Ticked(k, n - 1), t);
      if n < Rank(k, t) {
        QueuedQuanta(Ticked(k, n), t);
      }
    } else {
      TickRank(k, t);
    }
  }

  // ---------------------------------------------------------------- pids and the clock

  /** Live tasks have different pids, all below the counter, and the running task's own count of its time is right. */
  ghost predicate BooksOk(k: Kernel) {
    && PidsOk(k.tasks, k.nextPid)
    && 0 <= k.cur < |k.tasks| && k.tasks[k.cur].remaining == k.left
  }

  predicate PidsOk(tasks: seq<Task>, nextPid: int) {
    && (forall t :: 0 <= t < |tasks| ==> tasks[t].pid < nextPid)
    && (forall t, u :: 0 <= t < u < |tasks| && tasks[t].pid >= 0 ==> tasks[t].pid != tasks[u].pid)
  }

  lemma PidsFrame(tasks: seq<Task>, tasks': seq<Task>, nextPid: int)
    requires PidsOk(tasks, nextPid) && nextPid > 0 && |tasks'| == |tasks|
    requires forall t :: 0 <= t < |tasks| ==> tasks'[t].pid == tasks[t].pid || tasks'[t].pid == -1
    ensures PidsOk(tasks', nextPid)
  {
    forall t, u | 0 <= t < u < |tasks'| && tasks'[t].pid >= 0 ensures tasks'[t].pid != tasks'[u].pid {
      assert tasks[t].pid >= 0 && tasks[t].pid != tasks[u].pid;
    }
  }

  lemma ExitBooks(k: Kernel)
    requires Inv(k) && !Strands(k) && BooksOk(k)
    ensures BooksOk(ExitTask(k))
  {
    hide QueuesOk, SemsOk, TasksOk, DestroyOwned, Leave, PidsOk;
    if Me(k).pid != 0 {
      DestroyOwnedInv(k, |k.sems|);
      ExitKeepsCounter(k, |k.sems|);
      PidsFrame(k.tasks, DestroyOwned(k, |k.sems|).tasks, k.nextPid);
      LeaveBooks(DestroyOwned(k, |k.sems|));
    }
  }

  lemma {:induction false} ExitKeepsCounter(k: Kernel, n: nat)
    requires InRange(k) && n <= |k.sems|
    ensures DestroyOwned(k, n).nextPid == k.nextPid
  {
    if n > 0 {
      ExitKeepsCounter(k, n - 1);
      hide InRange;
    }
  }

  lemma LeaveBooks(d: Kernel)
    requires Inv(d) && |d.runq| > 2 && PidsOk(d.tasks, d.nextPid)
    ensures BooksOk(Leave(d))
  {
    hide QueuesOk, SemsOk, TasksOk, Remove, PidsOk;
    HeadOnly(d);
    PidsFrame(d.tasks, Leave(d).tasks, d.nextPid);
  }

  lemma ForkBooks(k: Kernel, frames: bool)
    requires Inv(k) && BooksOk(k)
    ensures BooksOk(ForkTask(k, frames).0)
  {
    hide QueuesOk, SemsOk, Remove, InRange;
    HeadOnly(k);
  }

  lemma TickBooks(k: Kernel)
    requires Inv(k) && BooksOk(k)
    ensures BooksOk(ClockTick(k))
  {
    hide QueuesOk, SemsOk, TasksOk, Remove, PidsOk;
    PidsFrame(k.tasks, ClockTick(k).tasks, k.nextPid);
  }

  /** Switching to another task after changes that touch no pid. */
  lemma YieldBooks(k: Kernel, k1: Kernel)
    requires Inv(k) && BooksOk(k) && k.cur != 0 && InRange(k1) && k1.runq == k.runq && k1.cur == k.cur
             && k1.nextPid == k.nextPid
    requires |k1.tasks| == |k.tasks| && forall t :: 0 <= t < |k.tasks| ==> k1.tasks[t].pid == k.tasks[t].pid
    ensures BooksOk(Yield(k1))
  {
    hide QueuesOk, SemsOk, TasksOk, Remove, PidsOk;
    HeadOnly(k);
    assert k.runq == [k.cur] + k.runq[1..];
    PidsFrame(k.tasks, Yield(k1).tasks, k.nextPid);
  }

  lemma WaitBooks(k: Kernel, n: int)
    requires Inv(k) && BooksOk(k)
    ensures BooksOk(Wait(k, n).0)
  {
    hide QueuesOk, SemsOk, TasksOk, Remove, PidsOk, Yield;
    HeadOnly(k);
    if Me(k).pid != 0 && ValidSem(k, n) && k.sems[n].count == 0 {
      YieldBooks(k, k.(sems := k.sems[n := k.sems[n].(waiters := k.sems[n].waiters + [k.cur])]));
    }
  }

  lemma KbdBooks(k: Kernel, size: int)
    requires Inv(k) && BooksOk(k)
    ensures BooksOk(BlockOnKbd(k, size).0)
  {
    hide QueuesOk, SemsOk, TasksOk, Remove, PidsOk, Yield;
    HeadOnly(k);
    if Me(k).pid != 0 {
      YieldBooks(k, k.(kbdq := k.kbdq + [k.cur], tasks := k.tasks[k.cur := Me(k).(eax := size)]));
    }
  }

  /** Calls that keep the running task and only touch return values, quanta or owners. */
  lemma QuietBooks(k: Kernel, k': Kernel)
    requires Inv(k) && BooksOk(k) && k'.cur == k.cur && k'.left == k.left && k'.nextPid == k.nextPid
             && |k'.tasks| == |k.tasks|
    requires forall t :: 0 <= t < |k.tasks| ==>
               k'.tasks[t].pid == k.tasks[t].pid && k'.tasks[t].remaining == k.tasks[t].remaining
    ensures BooksOk(k')
  {
    hide QueuesOk, SemsOk, TasksOk, PidsOk, InRange;
    PidsFrame(k.tasks, k'.tasks, k.nextPid);
  }

  lemma DestroyBooks(k: Kernel, n: int)
    requires Inv(k) && BooksOk(k)
    ensures BooksOk(Destroy(k, n).0)
  {
    if ValidSem(k, n) && Me(k).owned[n] {
      hide QueuesOk, SemsOk, TasksOk, Remove, BooksOk, Destroy;
      HeadOnly(k);
      DestroyShape(k, n);
      QuietBooks(k, Destroy(k, n).0);
    }
  }

  lemma SignalBooks(k: Kernel, n: int)
    requires Inv(k) && BooksOk(k)
    ensures BooksOk(Signal(k, n).0)
  {
    hide QueuesOk, SemsOk, TasksOk, BooksOk;
    QuietBooks(k, Signal(k, n).0);
  }

  /** The books are right after every step. */
  lemma BooksStep(k: Kernel, op: Op)
    requires Inv(k) && Enabled(k, op) && BooksOk(k)
    ensures BooksOk(Step(k, op).0)
  {
    hide QueuesOk, SemsOk, TasksOk, RunOk, BooksOk, ClockTick, ForkTask, Wait, Signal, Destroy, ExitTask, BlockOnKbd;
    match op
    case Tick => TickBooks(k);
    case Fork(frames) => ForkBooks(k, frames);
    case Nice(quantum) => QuietBooks(k, NiceTask(k, quantum).0);
    case SemInit(n, value) => QuietBooks(k, Init(k, n, value).0);
    case SemWait(n) => WaitBooks(k, n);
    case SemSignal(n) => SignalBooks(k, n);
    case SemDestroy(n) => DestroyBooks(k, n);
    case Exit => ExitBooks(k);
    case KbdBlock(size) => KbdBooks(k, size);
    case KbdWake => QuietBooks(k, WakeKbd(k));
  }

  ghost function Run(k: Kernel, ops: seq<Op>): (k': Kernel)
    requires Inv(k) && AllEnabled(k, ops)
    ensures Inv(k')
    decreases |ops|
  {
    if ops == [] then k else StepInv(k, ops[0]); Run(Step(k, ops[0]).0, ops[1..])
  }

  /** In every reachable state the invariant holds, pids are unique and the clock accounts are right. */
  lemma {:induction false} BooksAreKept(k: Kernel, ops: seq<Op>)
    requires Inv(k) && AllEnabled(k, ops) && BooksOk(k)
    ensures Inv(Run(k, ops)) && BooksOk(Run(k, ops))
    decreases |ops|
  {
    if ops != [] {
      StepInv(k, ops[0]);
      BooksStep(k, ops[0]);
      hide Inv, Step, Enabled, BooksOk;
      BooksAreKept(Step(k, ops[0]).0, ops[1..]);
    }
  }

  // ---------------------------------------------------------------- which slots are live

  ghost predicate SamePids(k: Kernel, k': Kernel) {
    |k'.tasks| == |k.tasks| && forall t :: 0 <= t < |k.tasks| ==> k'.tasks[t].pid == k.tasks[t].pid
  }

  lemma YieldPids(k: Kernel, k1: Kernel)
    requires Inv(k) && k.cur != 0 && InRange(k1) && k1.runq == k.runq && k1.cur == k.cur && SamePids(k, k1)
    ensures SamePids(k, Yield(k1))
  {
    hide QueuesOk, SemsOk, TasksOk, Remove;
  }

  lemma TickPids(k: Kernel)
    requires Inv(k)
    ensures SamePids(k, ClockTick(k))
  {
    hide QueuesOk, SemsOk, TasksOk, Remove;
  }

  lemma DestroyPids(k: Kernel, n: int)
    requires Inv(k)
    ensures SamePids(k, Destroy(k, n).0)
  {
    hide QueuesOk, SemsOk, TasksOk, Remove;
  }

  /** Only fork and exit change which task slots are live. */
  lemma PidsStep(k: Kernel, op: Op)
    requires Inv(k) && !op.Fork? && !op.Exit?
    ensures SamePids(k, Step(k, op).0)
  {
    hide QueuesOk, SemsOk, TasksOk, Remove, Yield, ClockTick, Destroy;
    HeadOnly(k);
    match op
    case Tick => TickPids(k);
    case SemWait(n) =>
      if Me(k).pid != 0 && ValidSem(k, n) && k.sems[n].count == 0 {
        YieldPids(k, k.(sems := k.sems[n := k.sems[n].(waiters := k.sems[n].waiters + [k.cur])]));
      }
    case SemDestroy(n) => DestroyPids(k, n);
    case KbdBlock(size) =>
      if Me(k).pid != 0 {
        YieldPids(k, k.(kbdq := k.kbdq + [k.cur], tasks := k.tasks[k.cur := Me(k).(eax := size)]));
      }
    case _ =>
  }

  /** An exit frees exactly the slot of the running task. */
  lemma ExitPids(k: Kernel)
    requires Inv(k) && !Strands(k) && Me(k).pid != 0
    ensures var k' := ExitTask(k);
            && |k'.tasks| == |k.tasks|
            && forall t :: 0 <= t < |k.tasks| ==> k'.tasks[t].pid == if t == k.cur then -1 else k.tasks[t].pid
  {
    hide QueuesOk, SemsOk, TasksOk, DestroyOwned, Leave;
    DestroyOwnedInv(k, |k.sems|);
    LeavePids(DestroyOwned(k, |k.sems|));
  }

  lemma LeavePids(d: Kernel)
    requires Inv(d) && |d.runq| > 2
    ensures var k' := Leave(d);
            && |k'.tasks| == |d.tasks|
            && forall t :: 0 <= t < |d.tasks| ==> k'.tasks[t].pid == if t == d.cur then -1 else d.tasks[t].pid
  {
    hide QueuesOk, SemsOk, TasksOk, Remove;
    HeadOnly(d);
  }

  lemma BootBooks(tasks: nat, sems: nat)
    requires tasks > 0
    ensures BooksOk(Boot(tasks, sems))
  {
  }

  /** Nice returns the old quantum, and giving it back undoes the call. */
  lemma NiceIsUndone(k: Kernel, quantum: int)
    requires Inv(k) && quantum > 0
    ensures var (k1, r) := NiceTask(k, quantum);
            && Me(k1).quantum == quantum && k1.left == k.left && r > 0 && NiceTask(k1, r) == (k, quantum)
  {
    HeadOnly(k);
    hide QueuesOk, SemsOk, Remove;
    var (k1, r) := NiceTask(k, quantum);
    assert k1.tasks[k.cur := Me(k)] == k.tasks;
  }

  // ---------------------------------------------------------------- where exit goes wrong

  /** After an exit that strands, the processor stays with the task that is gone. */
  lemma StrandedTaskKeepsRunning(k: Kernel)
    requires Inv(k) && Strands(k)
    ensures var k' := ExitTask(k);
            && k'.cur == k.cur && 0 <= k.cur < |k'.tasks| && k'.tasks[k.cur].pid == -1
            && k.cur !in k'.runq
  {
    hide QueuesOk, SemsOk, TasksOk, DestroyOwned, Remove;
    var d := DestroyOwned(k, |k.sems|);
    DestroyOwnedInv(k, |k.sems|);
    HeadOnly(d);
  }

  lemma {:induction false} TicksKeepLength(k: Kernel, n: nat)
    requires Inv(k)
    ensures |Ticked(k, n).runq| == |k.runq| && |Ticked(k, n).sems| == |k.sems|
  {
    hide Inv, ClockTick;
    if n > 0 {
      TicksKeepLength(k, n - 1);
      TickKeepsLength(Ticked(k, n - 1));
    }
  }

  lemma TickKeepsLength(k: Kernel)
    requires Inv(k)
    ensures |ClockTick(k).runq| == |k.runq| && |ClockTick(k).sems| == |k.sems|
  {
    hide QueuesOk, SemsOk, TasksOk, Remove;
    HeadOnly(k);
  }

  /** It happens: from boot, a child is forked, gets the processor after 60 ticks, and exits. */
  lemma ExitCanStrand()
    ensures var k0 := Boot(2, 0);
            && Inv(k0) && Inv(ForkTask(k0, true).0)
            && Ticked(ForkTask(k0, true).0, 60).cur == 1 && Strands(Ticked(ForkTask(k0, true).0, 60))
  {
    var k0 := Boot(2, 0);
    BootInv(2, 0);
    ForkInv(k0, true);
    var k := ForkTask(k0, true).0;
    assert FreeTask(k0.tasks) == 1 && k.runq == [0, 1] && k.left == 60 && k.tasks[1].quantum == 60;
    assert k.runq[1..] == [1];
    RankIsExact(k, 60, 1);
    TicksKeepLength(k, 60);
    HeadOnly(Ticked(k, 60));
    hide Inv;
  }
}
