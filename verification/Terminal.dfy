/**
 The keyboard ring and the scheduler together: the keyboard queue holds the tasks of the blocked readers in order, and a
 completed read makes its task runnable with the number of its characters to return (zeos/devices.c, zeos/interrupt.c).
 */
module Terminal {
  import S = SchedSpec
  import SI = SchedInvariant
  import ST = SchedTheorems
  import Sem = SemTheorems
  import K = Keyboard
  import opened Counting

  /** `typed` and `asked` are all keys typed and all reads asked for so far. */
  datatype Terminal = Terminal(kernel: S.Kernel, kbd: K.Kbd, typed: seq<char>, asked: seq<K.Request>)

  datatype Op = Key(c: char) | Read(n: nat) | Sched(call: S.Op)

  /** Each blocked reader is a task in the keyboard queue that will return as many characters as it asked for. */
  ghost predicate Agree(k: S.Kernel, kbd: K.Kbd) {
    && |kbd.readers| == |k.kbdq|
    && forall i :: 0 <= i < |k.kbdq| ==> Reads(k, k.kbdq[i], kbd.readers[i])
  }

  ghost predicate Reads(k: S.Kernel, t: int, r: K.Reader) {
    0 <= t < |k.tasks| && k.tasks[t].pid == r.pid && k.tasks[t].eax == r.wanted
  }

  ghost predicate Inv(m: Terminal) {
    SI.Inv(m.kernel) && K.Inv(m.kbd, m.typed, m.asked) && Agree(m.kernel, m.kbd)
  }

  /** What a call or a key does to the ring. */
  ghost function RingOp(m: Terminal, op: Op): K.Op
    requires S.InRange(m.kernel) && !op.Sched?
  {
    if op.Key? then K.Key(op.c) else K.Read(S.Me(m.kernel).pid, op.n)
  }

  /** What the scheduler does: a completed read wakes the first reader, a read that must wait blocks its caller. */
  ghost function SchedOps(m: Terminal, op: Op): (calls: seq<S.Op>)
    requires S.InRange(m.kernel) && K.Shape(m.kbd)
    ensures |calls| <= 1
  {
    if op.Sched? then [op.call]
    else
      var kbd := K.Step(m.kbd, RingOp(m, op));
      if |kbd.readers| < |m.kbd.readers| then [S.KbdWake]
      else if |kbd.readers| > |m.kbd.readers| && op.Read? then [S.KbdBlock(op.n)]
      else []
  }

  ghost function Step(m: Terminal, op: Op): Terminal
    requires S.InRange(m.kernel) && K.Shape(m.kbd)
  {
    var calls := SchedOps(m, op);
    var k := if calls == [] then m.kernel else S.Step(m.kernel, calls[0]).0;
    if op.Sched? then m.(kernel := k)
    else
      var ring := RingOp(m, op);
      Terminal(k, K.Step(m.kbd, ring), K.TypedAfter(m.typed, ring), K.AskedAfter(m.kbd, m.asked, ring))
  }

  /** The keyboard queue changes only by reads and keys. */
  ghost predicate Callable(op: Op) {
    op.Sched? ==> !op.call.KbdBlock? && !op.call.KbdWake?
  }

  ghost predicate Enabled(m: Terminal, op: Op)
    requires Inv(m)
  {
    && Callable(op)
    && if op.Sched? then SI.Enabled(m.kernel, op.call) else K.Enabled(m.kbd, RingOp(m, op))
  }

  lemma Ranges(m: Terminal)
    requires Inv(m)
    ensures S.InRange(m.kernel) && K.Shape(m.kbd)
  {
    hide SI.QueuesOk, SI.SemsOk;
  }

  // ---------------------------------------------------------------- a blocked reader is left alone

  /** A task in the keyboard queue is live, in it once and in no other queue. */
  lemma ReaderIsAlone(k: S.Kernel, t: int)
    requires SI.Inv(k) && t in k.kbdq
    ensures SI.Live(k.tasks, t) && t !in k.runq && t != k.cur
    ensures forall n :: 0 <= n < |k.sems| ==> t !in k.sems[n].waiters
  {
    CountIn(k.kbdq, t);
    CountIn(k.runq, t);
    assert SI.Places(k, t) == if SI.Live(k.tasks, t) then 1 else 0;
    forall n | 0 <= n < |k.sems| ensures t !in k.sems[n].waiters {
      if t in k.sems[n].waiters {
        Sem.WaiterIsAlone(k, n, t);
      }
    }
    SI.HeadOnly(k);
  }

  lemma FirstIsOnce(k: S.Kernel)
    requires SI.Inv(k) && k.kbdq != []
    ensures k.kbdq[0] !in k.kbdq[1..]
  {
    var t := k.kbdq[0];
    SI.CountPop(k.kbdq, t);
    CountIn(k.kbdq[1..], t);
    assert SI.Places(k, t) == if SI.Live(k.tasks, t) then 1 else 0;
  }

  /** The queue and, of each task in it, the pid and the value to return. */
  ghost predicate SameReaders(k: S.Kernel, k': S.Kernel) {
    && k'.kbdq == k.kbdq && |k'.tasks| == |k.tasks|
    && forall t :: t in k.kbdq && 0 <= t < |k.tasks| ==>
         k'.tasks[t].pid == k.tasks[t].pid && k'.tasks[t].eax == k.tasks[t].eax
  }

  lemma {:induction false} DestroyKeepsQueue(k: S.Kernel, n: nat)
    requires S.InRange(k) && n <= |k.sems|
    ensures S.DestroyOwned(k, n).kbdq == k.kbdq
  {
    hide S.InRange, S.Destroy;
    if n > 0 {
      DestroyKeepsQueue(k, n - 1);
      OneKeepsQueue(S.DestroyOwned(k, n - 1), n - 1);
    }
  }

  lemma OneKeepsQueue(k: S.Kernel, n: int)
    requires S.InRange(k)
    ensures S.Destroy(k, n).0.kbdq == k.kbdq
  {
    hide S.InRange;
  }

  lemma LeaveKeepsQueue(k: S.Kernel)
    requires S.InRange(k)
    ensures S.Leave(k).kbdq == k.kbdq
  {
    hide S.Remove;
  }

  lemma ExitKeepsReaders(k: S.Kernel)
    requires SI.Inv(k) && !SI.Strands(k)
    ensures SameReaders(k, S.ExitTask(k))
  {
    hide SI.QueuesOk, SI.SemsOk, SI.TasksOk, SI.RunOk, S.DestroyOwned, S.Leave;
    if S.Me(k).pid != 0 {
      ST.ExitPids(k);
      SI.DestroyOwnedInv(k, |k.sems|);
      var d := S.DestroyOwned(k, |k.sems|);
      DestroyKeepsQueue(k, |k.sems|);
      LeaveKeepsQueue(d);
      forall t | t in k.kbdq && 0 <= t < |k.tasks| ensures t != k.cur && S.Leave(d).tasks[t].eax == k.tasks[t].eax {
        ReaderIsAlone(k, t);
        Sem.DestroyKeeps(k, t, |k.sems|);
        Sem.LeaveKeeps(d, t);
      }
    }
  }

  lemma SwitchKeepsReaders(k: S.Kernel, k1: S.Kernel)
    requires SameReaders(k, k1) && S.InRange(k1)
    ensures SameReaders(k, S.Schedule(k1)) && SameReaders(k, S.Yield(k1))
  {
    hide S.Remove;
  }

  lemma DestroyKeepsReaders(k: S.Kernel, n: int)
    requires SI.Inv(k)
    ensures SameReaders(k, S.Destroy(k, n).0)
  {
    hide SI.QueuesOk, SI.SemsOk, SI.TasksOk, SI.RunOk, S.Remove;
    forall t | t in k.kbdq && 0 <= t < |k.tasks| ensures forall m :: 0 <= m < |k.sems| ==> t !in k.sems[m].waiters {
      ReaderIsAlone(k, t);
    }
  }

  /** No call of another task touches a blocked reader. */
  lemma ReadersStay(k: S.Kernel, call: S.Op)
    requires SI.Inv(k) && SI.Enabled(k, call) && !call.KbdBlock? && !call.KbdWake?
    ensures SameReaders(k, S.Step(k, call).0)
  {
    hide SI.QueuesOk, SI.SemsOk, SI.TasksOk, SI.RunOk, S.Remove, S.Yield, S.Schedule, S.Destroy, S.ExitTask;
    forall t | t in k.kbdq
      ensures SI.Live(k.tasks, t) && t != k.cur && forall n :: 0 <= n < |k.sems| ==> t !in k.sems[n].waiters
    {
      ReaderIsAlone(k, t);
    }
    match call
    case Tick => SwitchKeepsReaders(k, S.Charged(k));
    case SemWait(n) =>
      if S.Me(k).pid != 0 && S.ValidSem(k, n) && k.sems[n].count == 0 {
        SwitchKeepsReaders(k, k.(sems := k.sems[n := k.sems[n].(waiters := k.sems[n].waiters + [k.cur])]));
      }
    case SemDestroy(n) => DestroyKeepsReaders(k, n);
    case Exit => ExitKeepsReaders(k);
    case _ =>
  }

  // ---------------------------------------------------------------- every step

  lemma BlockAgrees(k: S.Kernel, kbd: K.Kbd, n: nat)
    requires SI.Inv(k) && K.Shape(kbd) && Agree(k, kbd)
    requires |K.ReadKeys(kbd, S.Me(k).pid, n).readers| > |kbd.readers|
    ensures Agree(S.BlockOnKbd(k, n).0, K.ReadKeys(kbd, S.Me(k).pid, n))
  {
    hide SI.QueuesOk, SI.SemsOk, SI.TasksOk, SI.RunOk, S.Remove, S.Yield, K.Copy;
    forall t | t in k.kbdq ensures t != k.cur {
      ReaderIsAlone(k, t);
    }
    var me := S.Me(k);
    var k1 := k.(kbdq := k.kbdq + [k.cur], tasks := k.tasks[k.cur := me.(eax := n)]);
    SwitchKeepsReaders(k1, k1);
    var k', kbd' := S.Yield(k1), K.ReadKeys(kbd, me.pid, n);
    forall i | 0 <= i < |k'.kbdq| ensures Reads(k', k'.kbdq[i], kbd'.readers[i]) {
      var t := k1.kbdq[i];
      assert k'.kbdq[i] == t && t in k1.kbdq;
      if i < |k.kbdq| {
        assert t == k.kbdq[i] && t in k.kbdq && Reads(k, t, kbd.readers[i]);
        assert k1.tasks[t] == k.tasks[t] && kbd'.readers[i] == kbd.readers[i];
      } else {
        assert t == k.cur && k1.tasks[t] == me.(eax := n);
      }
    }
  }

  lemma KeyAgrees(k: S.Kernel, kbd: K.Kbd, c: char)
    requires SI.Inv(k) && S.InRange(k) && K.Shape(kbd) && Agree(k, kbd)
    ensures var kbd' := K.PressKey(kbd, c);
            && |kbd.readers| - 1 <= |kbd'.readers| <= |kbd.readers|
            && Agree(if |kbd'.readers| < |kbd.readers| then S.WakeKbd(k) else k, kbd')
  {
    hide SI.Inv, K.Copy, K.Slot;
    var kbd' := K.PressKey(kbd, c);
    var k' := if |kbd'.readers| < |kbd.readers| then S.WakeKbd(k) else k;
    forall i | 0 <= i < |k'.kbdq| ensures Reads(k', k'.kbdq[i], kbd'.readers[i]) {
      var j := if |kbd'.readers| < |kbd.readers| then i + 1 else i;
      assert Reads(k, k.kbdq[j], kbd.readers[j]);
    }
  }

  /** Every step that can be called keeps the queue of readers right. */
  lemma StepAgrees(m: Terminal, op: Op)
    requires Inv(m) && Callable(op) && (op.Sched? ==> SI.Enabled(m.kernel, op.call))
    ensures S.InRange(m.kernel) && K.Shape(m.kbd) && Agree(Step(m, op).kernel, Step(m, op).kbd)
  {
    Ranges(m);
    hide SI.Inv, K.Inv;
    match op
    case Key(c) => KeyAgrees(m.kernel, m.kbd, c); hide K.PressKey, S.WakeKbd, Agree;
    case Read(n) =>
      ReadLengths(m.kbd, S.Me(m.kernel).pid, n);
      if |K.ReadKeys(m.kbd, S.Me(m.kernel).pid, n).readers| > |m.kbd.readers| {
        BlockAgrees(m.kernel, m.kbd, n);
      }
      hide K.ReadKeys, S.BlockOnKbd;
    case Sched(call) =>
      ReadersStay(m.kernel, call);
      hide S.Step;
      forall i | 0 <= i < |m.kernel.kbdq|
        ensures Reads(S.Step(m.kernel, call).0, m.kernel.kbdq[i], m.kbd.readers[i])
      {
        assert Reads(m.kernel, m.kernel.kbdq[i], m.kbd.readers[i]);
      }
  }

  lemma ReadLengths(kbd: K.Kbd, pid: int, n: nat)
    requires K.Shape(kbd)
    ensures var kbd' := K.ReadKeys(kbd, pid, n);
            kbd'.readers == kbd.readers || |kbd'.readers| == |kbd.readers| + 1
  {
    hide K.Copy, K.Slot;
  }

  /**
   A step keeps the scheduler's invariant, the account of characters and the queue of readers exactly if it is
   enabled.
  */
  lemma StepInv(m: Terminal, op: Op)
    requires Inv(m) && Callable(op)
    ensures S.InRange(m.kernel) && K.Shape(m.kbd)
    ensures Inv(Step(m, op)) <==> Enabled(m, op)
  {
    Ranges(m);
    if op.Sched? {
      SI.StepInv(m.kernel, op.call);
    } else {
      K.StepInvIff(m.kbd, m.typed, m.asked, RingOp(m, op));
      SI.StepInv(m.kernel, if op.Read? then S.KbdBlock(op.n) else S.KbdWake);
    }
    hide SI.Inv, K.Inv, S.Step, K.Step, K.Enabled;
    if op.Sched? ==> SI.Enabled(m.kernel, op.call) {
      StepAgrees(m, op);
    }
  }

  // ---------------------------------------------------------------- a read from start to end

  /** The key that completes a read makes the first reader runnable, to return as many characters as it was given. */
  lemma CompletedReaderWakes(m: Terminal, c: char)
    requires Inv(m) && Enabled(m, Key(c)) && |K.PressKey(m.kbd, c).readers| < |m.kbd.readers|
    ensures S.InRange(m.kernel) && m.kernel.kbdq != [] && K.PressKey(m.kbd, c).done != []
    ensures var m' := Step(m, Key(c));
            var t := m.kernel.kbdq[0];
            var d := m'.kbd.done[|m'.kbd.done| - 1];
            && t in m'.kernel.runq && t !in m'.kernel.kbdq && 0 <= t < |m'.kernel.tasks|
            && m'.kbd.done == m.kbd.done + [d] && d.pid == m'.kernel.tasks[t].pid
            && m'.kernel.tasks[t].eax == |d.data| == d.wanted == m.kbd.readers[0].wanted
  {
    Ranges(m);
    FirstIsOnce(m.kernel);
    K.KeyInv(m.kbd, m.typed, m.asked, c);
    assert Reads(m.kernel, m.kernel.kbdq[0], m.kbd.readers[0]);
    hide SI.Inv, K.Copy, K.Slot, K.RingOk, K.ReadersOk, K.Accounted;
  }

  ghost predicate AllEnabled(m: Terminal, ops: seq<Op>)
    requires Inv(m)
    decreases |ops|
  {
    ops != [] ==> Enabled(m, ops[0]) && (StepInv(m, ops[0]); AllEnabled(Step(m, ops[0]), ops[1..]))
  }

  ghost function Run(m: Terminal, ops: seq<Op>): (m': Terminal)
    requires Inv(m) && AllEnabled(m, ops)
    ensures Inv(m')
    decreases |ops|
  {
    if ops == [] then m else StepInv(m, ops[0]); Run(Step(m, ops[0]), ops[1..])
  }

  /** The run ends in the first state in which t is the running task. */
  ghost predicate FirstRuns(m: Terminal, ops: seq<Op>, t: int)
    requires Inv(m) && AllEnabled(m, ops)
    decreases |ops|
  {
    if ops == [] then m.kernel.cur == t
    else m.kernel.cur != t && (StepInv(m, ops[0]); FirstRuns(Step(m, ops[0]), ops[1..], t))
  }

  /** What the step does to the scheduler's part is a step of the scheduler, or nothing. */
  lemma KernelStep(m: Terminal, op: Op, t: int)
    requires Inv(m) && Enabled(m, op) && ST.Waiting(m.kernel, t)
    ensures S.InRange(m.kernel) && K.Shape(m.kbd)
    ensures var k' := Step(m, op).kernel;
            && 0 <= t < |m.kernel.tasks| && t < |k'.tasks| && k'.tasks[t].eax == m.kernel.tasks[t].eax
            && (k'.cur == t || ST.Waiting(k', t))
  {
    Ranges(m);
    ST.QueuedIsLive(m.kernel, t);
    var calls := SchedOps(m, op);
    if calls != [] {
      SI.StepInv(m.kernel, calls[0]);
      ST.RankStep(m.kernel, calls[0], t);
      Sem.ReturnValueKept(m.kernel, calls[0], t);
    }
    hide SI.Inv, K.Inv, S.Step, K.Step, ST.Rank, ST.Waiting, SchedOps;
  }

  /** A woken reader finds the return value that it was queued with. */
  lemma {:induction false} WokenReturns(m: Terminal, ops: seq<Op>, t: int)
    requires Inv(m) && AllEnabled(m, ops) && FirstRuns(m, ops, t) && (m.kernel.cur == t || ST.Waiting(m.kernel, t))
    ensures 0 <= t < |m.kernel.tasks| && t < |Run(m, ops).kernel.tasks|
    ensures Run(m, ops).kernel.tasks[t].eax == m.kernel.tasks[t].eax
    decreases |ops|
  {
    Ranges(m);
    hide SI.Inv, K.Inv, Agree, Step, Enabled, ST.Waiting;
    if ops != [] {
      StepInv(m, ops[0]);
      KernelStep(m, ops[0], t);
      WokenReturns(Step(m, ops[0]), ops[1..], t);
    }
  }

  /** Completed reads stay completed. */
  lemma {:induction false} DoneGrows(m: Terminal, ops: seq<Op>)
    requires Inv(m) && AllEnabled(m, ops)
    ensures m.kbd.done <= Run(m, ops).kbd.done
    decreases |ops|
  {
    Ranges(m);
    hide SI.Inv, K.Inv, Agree, Step, Enabled;
    if ops != [] {
      StepInv(m, ops[0]);
      DoneStep(m, ops[0]);
      DoneGrows(Step(m, ops[0]), ops[1..]);
    }
  }

  lemma DoneStep(m: Terminal, op: Op)
    requires S.InRange(m.kernel) && K.Shape(m.kbd)
    ensures m.kbd.done <= Step(m, op).kbd.done
  {
    hide S.Step, K.Copy, K.Slot, K.AskedAfter, K.TypedAfter;
  }

  /**
   The reader at place i of the queue: it waits on, one place further on if the first one is complete, or it is
   that.
  */
  lemma PlaceStep(m: Terminal, op: Op, i: nat)
    requires Inv(m) && Enabled(m, op) && i < |m.kernel.kbdq|
    ensures S.InRange(m.kernel) && K.Shape(m.kbd) && i < |m.kbd.readers|
    ensures var m' := Step(m, op);
            var r := m.kbd.readers[i];
            if i == 0 && |m'.kernel.kbdq| < |m.kernel.kbdq| then
              && |m'.kbd.done| == |m.kbd.done| + 1 && op.Key? && |K.PressKey(m.kbd, op.c).readers| < |m.kbd.readers|
            else
              var i' := if |m'.kernel.kbdq| < |m.kernel.kbdq| then i - 1 else i;
              && 0 <= i' < |m'.kernel.kbdq| && m'.kernel.kbdq[i'] == m.kernel.kbdq[i]
                 && |m'.kbd.done| + i' == |m.kbd.done| + i
              && i' < |m'.kbd.readers| && m'.kbd.readers[i'].pid == r.pid && m'.kbd.readers[i'].wanted == r.wanted
  {
    Ranges(m);
    match op
    case Key(c) => KeyPlaces(m.kernel, m.kbd, c); hide SI.Inv, K.Inv, K.PressKey;
    case Read(n) => ReadPlaces(m.kernel, m.kbd, n); hide SI.Inv, K.Inv, K.ReadKeys, S.BlockOnKbd;
    case Sched(call) => ReadersStay(m.kernel, call); hide SI.Inv, K.Inv, S.Step;
  }

  lemma KeyPlaces(k: S.Kernel, kbd: K.Kbd, c: char)
    requires K.Shape(kbd)
    ensures var kbd' := K.PressKey(kbd, c);
            if |kbd'.readers| < |kbd.readers| then
              |kbd'.done| == |kbd.done| + 1 && kbd.readers != [] && kbd'.readers == kbd.readers[1..]
            else
              && |kbd'.done| == |kbd.done| && |kbd'.readers| == |kbd.readers|
              && forall i :: 0 <= i < |kbd.readers| ==>
                   kbd'.readers[i].pid == kbd.readers[i].pid && kbd'.readers[i].wanted == kbd.readers[i].wanted
  {
    hide K.Copy, K.Slot;
  }

  lemma ReadPlaces(k: S.Kernel, kbd: K.Kbd, n: nat)
    requires S.InRange(k) && K.Shape(kbd)
    ensures var kbd' := K.ReadKeys(kbd, S.Me(k).pid, n);
            && kbd.readers <= kbd'.readers && (kbd.readers != [] ==> kbd'.done == kbd.done)
            && k.kbdq <= S.BlockOnKbd(k, n).0.kbdq
  {
    hide K.Copy, K.Slot, S.Remove;
  }

  /** Task t has the length of the j-th completed read to return, which is the one that reader r asked for. */
  ghost predicate Answered(m: Terminal, t: int, r: K.Reader, j: nat) {
    && 0 <= t < |m.kernel.tasks| && j < |m.kbd.done|
    && m.kbd.done[j].pid == r.pid && m.kbd.done[j].wanted == r.wanted
    && m.kernel.tasks[t].eax == |m.kbd.done[j].data| == r.wanted
  }

  /**
   A task that waits for the keyboard returns, when it runs again, the number of characters that it asked for; by then
   its read is complete with exactly as many, in its turn. This holds over every run, whatever else happens in it.
   */
  lemma {:induction false} ReaderReturns(m: Terminal, ops: seq<Op>, i: nat)
    requires Inv(m) && AllEnabled(m, ops) && i < |m.kernel.kbdq| && FirstRuns(m, ops, m.kernel.kbdq[i])
    ensures i < |m.kbd.readers|
    ensures Answered(Run(m, ops), m.kernel.kbdq[i], m.kbd.readers[i], |m.kbd.done| + i)
    decreases |ops|
  {
    hide SI.Inv, K.Inv, Agree, Step, Enabled, Answered, K.PressKey, Callable;
    Ranges(m);
    ReaderIsAlone(m.kernel, m.kernel.kbdq[i]);
    ReadersMatch(m);
    if ops != [] {
      EnabledIsCallable(m, ops[0]);
      StepInv(m, ops[0]);
      PlaceStep(m, ops[0], i);
      var m1 := Step(m, ops[0]);
      if i == 0 && |m1.kernel.kbdq| < |m.kernel.kbdq| {
        FirstReturns(m, ops);
      } else {
        var i' := if |m1.kernel.kbdq| < |m.kernel.kbdq| then i - 1 else i;
        ReaderReturns(m1, ops[1..], i');
        SameAnswer(Run(m, ops), m.kernel.kbdq[i], m.kbd.readers[i], m1.kbd.readers[i'], |m.kbd.done| + i);
      }
    }
  }

  lemma EnabledIsCallable(m: Terminal, op: Op)
    requires Inv(m) && Enabled(m, op)
    ensures Callable(op)
  {
  }

  lemma SameAnswer(m: Terminal, t: int, r: K.Reader, r1: K.Reader, j: nat)
    requires r1.pid == r.pid && r1.wanted == r.wanted && Answered(m, t, r1, j)
    ensures Answered(m, t, r, j)
  {
  }

  lemma ReadersMatch(m: Terminal)
    requires Inv(m)
    ensures |m.kbd.readers| == |m.kernel.kbdq|
  {
    hide SI.Inv, K.Inv;
  }

  lemma FirstReturns(m: Terminal, ops: seq<Op>)
    requires Inv(m) && AllEnabled(m, ops) && ops != [] && ops[0].Key? && m.kernel.kbdq != []
    requires K.Shape(m.kbd) && |K.PressKey(m.kbd, ops[0].c).readers| < |m.kbd.readers|
    requires FirstRuns(m, ops, m.kernel.kbdq[0])
    ensures m.kbd.readers != []
    ensures Answered(Run(m, ops), m.kernel.kbdq[0], m.kbd.readers[0], |m.kbd.done|)
  {
    Ranges(m);
    var m1, t := Step(m, ops[0]), m.kernel.kbdq[0];
    StepInv(m, ops[0]);
    CompletedReaderWakes(m, ops[0].c);
    assert Reads(m.kernel, t, m.kbd.readers[0]);
    KeepsPid(m, ops[0].c);
    assert m1.kernel.cur == t || ST.Waiting(m1.kernel, t) by {
      assert m1.kernel.runq == [m1.kernel.runq[0]] + m1.kernel.runq[1..];
    }
    hide SI.Inv, K.Inv, Step, Enabled, ST.Waiting;
    WokenReturns(m1, ops[1..], t);
    DoneGrows(m1, ops[1..]);
  }

  lemma KeepsPid(m: Terminal, c: char)
    requires S.InRange(m.kernel) && K.Shape(m.kbd)
    ensures Step(m, Key(c)).kernel.tasks == m.kernel.tasks
  {
    hide K.PressKey;
  }

  // ---------------------------------------------------------------- boot

  lemma BootInv(tasks: nat, sems: nat, circular: seq<char>)
    requires tasks > 0 && |circular| == K.CIRCULAR_SIZE
    ensures Inv(Terminal(SI.Boot(tasks, sems), K.Boot(circular), [], []))
  {
    SI.BootInv(tasks, sems);
    K.BootInv(circular);
    hide SI.Inv, K.Inv;
  }
}
