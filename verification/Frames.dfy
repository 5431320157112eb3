/** Physical frames: the byte map of zeos/mm.c and the pages that sys_fork and sys_exit move between tasks. */
module Frames {
  import opened Counting

  const TOTAL_PAGES: nat := 1024
  const NUM_PAG_KERNEL: nat := 256
  const NUM_PAG_CODE: nat := 8
  const NUM_PAG_DATA: nat := 20
  const NR_TASKS: nat := 10

  /** `used[f]` is USED_FRAME; `pages[t]` are the frames of task t, none if its slot is free. */
  datatype Mem = Mem(used: seq<bool>, pages: seq<seq<int>>)

  /** alloc_frame looks at every second frame from the first user frame on. */
  predicate Reachable(f: int, total: nat) {
    NUM_PAG_KERNEL <= f < total && (f - NUM_PAG_KERNEL) % 2 == 0
  }

  /** The first free frame among i, i + 2, i + 4, ... */
  function NextFree(used: seq<bool>, i: nat): (f: int)
    ensures f == -1 || (i <= f < |used| && (f - i) % 2 == 0 && !used[f])
    ensures forall g :: i <= g < |used| && (g - i) % 2 == 0 && (f == -1 || g < f) ==> used[g]
    decreases |used| - i
  {
    if i >= |used| then -1
    else if !used[i] then i
    else NextFree(used, i + 2)
  }

  /** The free frames among i, i + 2, i + 4, ... */
  function FreeCount(used: seq<bool>, i: nat): nat
    decreases |used| - i
  {
    if i >= |used| then 0 else FreeCount(used, i + 2) + if used[i] then 0 else 1
  }

  function Size(pages: seq<seq<int>>): nat {
    if pages == [] then 0 else Size(pages[..|pages| - 1]) + |pages[|pages| - 1]|
  }

  /**
   Every frame that a live task holds is marked used, lies where alloc_frame can find it again, and is held once;
   user code is nobody's; and free and held frames together are always as many as at boot.
   */
  ghost predicate Inv(m: Mem, capacity: nat) {
    && (forall f :: Total(m.pages, f) <= 1)
    && (forall f :: Total(m.pages, f) > 0 ==> Reachable(f, |m.used|) && m.used[f])
    && (forall f :: NUM_PAG_KERNEL <= f < NUM_PAG_KERNEL + NUM_PAG_CODE && f < |m.used| ==>
          m.used[f] && Total(m.pages, f) == 0)
    && (forall t :: 0 <= t < |m.pages| ==> m.pages[t] == [] || |m.pages[t]| == NUM_PAG_DATA)
    && FreeCount(m.used, NUM_PAG_KERNEL) + Size(m.pages) == capacity
  }

  // ---------------------------------------------------------------- counting

  lemma {:induction false} FreeCountUpdate(used: seq<bool>, i: nat, f: nat, b: bool)
    requires f < |used|
    ensures FreeCount(used[f := b], i) == FreeCount(used, i)
            + if i <= f && (f - i) % 2 == 0 then (if used[f] then 1 else 0) - (if b then 1 else 0) else 0
    decreases |used| - i
  {
    if i < |used| {
      FreeCountUpdate(used, i + 2, f, b);
    }
  }

  lemma {:induction false} FreeCountZero(used: seq<bool>, i: nat)
    ensures NextFree(used, i) == -1 <==> FreeCount(used, i) == 0
    decreases |used| - i
  {
    if i < |used| {
      FreeCountZero(used, i + 2);
    }
  }

  lemma {:induction false} SizeUpdate(pages: seq<seq<int>>, t: nat, p: seq<int>)
    requires t < |pages|
    ensures Size(pages[t := p]) == Size(pages) - |pages[t]| + |p|
  {
    var n := |pages| - 1;
    if t < n {
      SizeUpdate(pages[..n], t, p);
      assert pages[t := p][..n] == pages[..n][t := p];
    } else {
      assert pages[t := p][..n] == pages[..n];
    }
  }

  /** With a free slot, the others hold at most all the rest. */
  lemma {:induction false} SizeBound(pages: seq<seq<int>>)
    requires forall t :: 0 <= t < |pages| ==> |pages[t]| <= NUM_PAG_DATA
    ensures Size(pages) <= |pages| * NUM_PAG_DATA
    ensures (exists t :: 0 <= t < |pages| && pages[t] == []) ==> Size(pages) <= (|pages| - 1) * NUM_PAG_DATA
  {
    if pages != [] {
      var n := |pages| - 1;
      SizeBound(pages[..n]);
      if t :| 0 <= t < |pages| && pages[t] == [] {
        if t < n {
          assert pages[..n][t] == [];
        }
      }
    }
  }

  // ---------------------------------------------------------------- taking frames

  /** The byte map with the given frames marked. */
  function Marked(used: seq<bool>, fs: seq<int>, b: bool): (r: seq<bool>)
    ensures |r| == |used| && forall f :: 0 <= f < |used| ==> r[f] == if f in fs then b else used[f]
  {
    seq(|used|, f requires 0 <= f < |used| => if f in fs then b else used[f])
  }

  /** What the loop of sys_fork has taken after n rounds: frames that were free, each once. */
  ghost predicate Taken(used: seq<bool>, fs: seq<int>) {
    && (forall i :: 0 <= i < |fs| ==> Reachable(fs[i], |used|) && !used[fs[i]])
    && (forall i, j :: 0 <= i < j < |fs| ==> fs[i] != fs[j])
    && FreeCount(Marked(used, fs, true), NUM_PAG_KERNEL) == FreeCount(used, NUM_PAG_KERNEL) - |fs|
  }

  lemma TookNone(used: seq<bool>)
    ensures Marked(used, [], true) == used && Taken(used, [])
  {
    assert Marked(used, [], true) == used;
  }

  lemma TakeOne(used: seq<bool>, fs: seq<int>)
    requires Taken(used, fs)
    ensures var now := Marked(used, fs, true);
            var f := NextFree(now, NUM_PAG_KERNEL);
            && (f == -1 <==> FreeCount(used, NUM_PAG_KERNEL) == |fs|)
            && (f != -1 ==> Taken(used, fs + [f]) && Marked(used, fs + [f], true) == now[f := true])
  {
    var now := Marked(used, fs, true);
    var f := NextFree(now, NUM_PAG_KERNEL);
    FreeCountZero(now, NUM_PAG_KERNEL);
    if f != -1 {
      FreeCountUpdate(now, NUM_PAG_KERNEL, f, true);
      assert Marked(used, fs + [f], true) == now[f := true];
    }
  }

  /** Giving back what was taken restores the map. */
  lemma GiveBack(used: seq<bool>, fs: seq<int>)
    requires Taken(used, fs)
    ensures Marked(Marked(used, fs, true), fs, false) == used
  {
  }

  lemma {:induction false} CountDistinct(fs: seq<int>, f: int)
    requires forall i, j :: 0 <= i < j < |fs| ==> fs[i] != fs[j]
    ensures Count(fs, f) == if f in fs then 1 else 0
  {
    if fs != [] {
      var n := |fs| - 1;
      CountDistinct(fs[..n], f);
      assert fs == fs[..n] + [fs[n]];
    }
  }

  // ---------------------------------------------------------------- fork and exit

  lemma ForkInv(m: Mem, capacity: nat, child: nat, fs: seq<int>)
    requires Inv(m, capacity) && child < |m.pages| && m.pages[child] == [] && Taken(m.used, fs) && |fs| == NUM_PAG_DATA
    ensures Inv(Mem(Marked(m.used, fs, true), m.pages[child := fs]), capacity)
  {
    var m' := Mem(Marked(m.used, fs, true), m.pages[child := fs]);
    SizeUpdate(m.pages, child, fs);
    forall f ensures Total(m'.pages, f) == Total(m.pages, f) + if f in fs then 1 else 0 {
      TotalUpdate(m.pages, child, fs, f);
      CountDistinct(fs, f);
    }
    hide Total;
    forall f | f in fs ensures Total(m.pages, f) == 0 {
    }
  }

  /** Every frame of a task is freed; each was its own. */
  lemma {:induction false} FreeAll(used: seq<bool>, fs: seq<int>, n: nat)
    requires n <= |fs| && (forall i :: 0 <= i < |fs| ==> Reachable(fs[i], |used|) && used[fs[i]])
    requires forall i, j :: 0 <= i < j < |fs| ==> fs[i] != fs[j]
    ensures FreeCount(Marked(used, fs[..n], false), NUM_PAG_KERNEL) == FreeCount(used, NUM_PAG_KERNEL) + n
  {
    if n == 0 {
      assert Marked(used, fs[..0], false) == used;
    } else {
      FreeAll(used, fs, n - 1);
      var now := Marked(used, fs[..n - 1], false);
      FreeCountUpdate(now, NUM_PAG_KERNEL, fs[n - 1], false);
      assert fs[..n] == fs[..n - 1] + [fs[n - 1]];
      assert Marked(used, fs[..n], false) == now[fs[n - 1] := false];
    }
  }

  /** The frames of one task are pairwise different. */
  lemma PagesDistinct(m: Mem, capacity: nat, t: nat, i: nat, j: nat)
    requires Inv(m, capacity) && t < |m.pages| && i < j < |m.pages[t]|
    ensures m.pages[t][i] != m.pages[t][j]
  {
    var p := m.pages[t];
    if p[i] == p[j] {
      var p' := p[i := p[i] + 1];
      CountUpdate(p, i, p[i] + 1, p[j]);
      CountHas(p', j);
      TotalUpdate(m.pages, t, p', p[j]);
      TotalHas(m.pages[t := p'], t, j);
      assert false;
    }
  }

  lemma ExitInv(m: Mem, capacity: nat, t: nat)
    requires Inv(m, capacity) && t < |m.pages|
    ensures Inv(Mem(Marked(m.used, m.pages[t], false), m.pages[t := []]), capacity)
    ensures forall i :: 0 <= i < |m.pages[t]| ==> 0 <= m.pages[t][i] < |m.used|
  {
    var p := m.pages[t];
    var m' := Mem(Marked(m.used, p, false), m.pages[t := []]);
    SizeUpdate(m.pages, t, []);
    forall i | 0 <= i < |p| ensures Reachable(p[i], |m.used|) && m.used[p[i]] && Total(m.pages, p[i]) > 0 {
      TotalHas(m.pages, t, i);
    }
    forall i, j | 0 <= i < j < |p| ensures p[i] != p[j] {
      PagesDistinct(m, capacity, t, i, j);
    }
    FreeAll(m.used, p, |p|);
    assert p[..|p|] == p;
    forall f ensures Total(m'.pages, f) == Total(m.pages, f) - if f in p then 1 else 0 {
      TotalUpdate(m.pages, t, [], f);
      CountDistinct(p, f);
    }
    hide Total, FreeCount, Size;
  }

  /** Two live tasks never hold the same frame. */
  lemma TasksAreApart(m: Mem, capacity: nat, t: nat, u: nat, i: nat, j: nat)
    requires Inv(m, capacity) && t < |m.pages| && u < |m.pages| && t != u && i < |m.pages[t]| && j < |m.pages[u]|
    ensures m.pages[t][i] != m.pages[u][j]
  {
    if m.pages[t][i] == m.pages[u][j] {
      var f := m.pages[t][i];
      CountHas(m.pages[t], i);
      TotalUpdate(m.pages, t, [], f);
      TotalHas(m.pages[t := []], u, j);
      assert false;
    }
  }

  // ---------------------------------------------------------------- boot, with the shipped constants

  lemma {:induction false} AllFree(used: seq<bool>, i: nat)
    requires forall f :: i <= f < |used| ==> !used[f]
    ensures i <= |used| ==> FreeCount(used, i) == (|used| - i + 1) / 2
    decreases |used| - i
  {
    if i < |used| {
      AllFree(used, i + 2);
      if i + 2 > |used| {
        assert FreeCount(used, i + 2) == 0;
      }
    }
  }

  /** The capacity with the shipped constants: the even frames after the user code. */
  const CAPACITY: nat := (TOTAL_PAGES - NUM_PAG_KERNEL - NUM_PAG_CODE) / 2

  /** init_frames and initialize_P0_frames */
  predicate BootMap(used: seq<bool>) {
    && |used| == TOTAL_PAGES
    && (forall f :: 0 <= f < NUM_PAG_KERNEL + NUM_PAG_CODE ==> used[f])
    && (forall f :: NUM_PAG_KERNEL + NUM_PAG_CODE <= f < TOTAL_PAGES ==> !used[f])
  }

  lemma BootCount(used: seq<bool>)
    requires BootMap(used)
    ensures FreeCount(used, NUM_PAG_KERNEL) == CAPACITY
  {
    AllFree(used, NUM_PAG_KERNEL + NUM_PAG_CODE);
    assert FreeCount(used, NUM_PAG_KERNEL + 6) == CAPACITY;
    assert FreeCount(used, NUM_PAG_KERNEL + 4) == CAPACITY;
    assert FreeCount(used, NUM_PAG_KERNEL + 2) == CAPACITY;
  }

  lemma {:induction false} NothingHeld(pages: seq<seq<int>>, f: int)
    requires forall t :: 0 <= t < |pages| ==> pages[t] == []
    ensures Total(pages, f) == 0 && Size(pages) == 0
  {
    if pages != [] {
      NothingHeld(pages[..|pages| - 1], f);
    }
  }

  lemma BootInv(used: seq<bool>, pages: seq<seq<int>>)
    requires BootMap(used) && forall t :: 0 <= t < |pages| ==> pages[t] == []
    ensures Inv(Mem(used, pages), CAPACITY)
  {
    BootCount(used);
    forall f ensures Total(pages, f) == 0 && Size(pages) == 0 {
      NothingHeld(pages, f);
    }
  }

  /** With the shipped constants a free task slot always comes with enough frames. */
  lemma FramesSuffice(m: Mem)
    requires Inv(m, CAPACITY) && |m.pages| == NR_TASKS && exists t :: 0 <= t < |m.pages| && m.pages[t] == []
    ensures FreeCount(m.used, NUM_PAG_KERNEL) >= NUM_PAG_DATA
  {
    SizeBound(m.pages);
  }

  // ---------------------------------------------------------------- runs

  /** The first n free frames that alloc_frame finds, fewer if there are fewer. */
  function Grabbed(used: seq<bool>, n: nat): (fs: seq<int>)
    ensures |fs| <= n
  {
    if n == 0 then []
    else
      var fs := Grabbed(used, n - 1);
      var f := NextFree(Marked(used, fs, true), NUM_PAG_KERNEL);
      if f == -1 then fs else fs + [f]
  }

  lemma {:induction false} GrabbedIsTaken(used: seq<bool>, n: nat)
    ensures Taken(used, Grabbed(used, n))
    ensures |Grabbed(used, n)| == if n <= FreeCount(used, NUM_PAG_KERNEL) then n else FreeCount(used, NUM_PAG_KERNEL)
  {
    if n == 0 {
      assert Marked(used, [], true) == used;
    } else {
      GrabbedIsTaken(used, n - 1);
      TakeOne(used, Grabbed(used, n - 1));
    }
  }

  /** Once no frame is left, more rounds take no more. */
  lemma {:induction false} GrabbedStops(used: seq<bool>, n: nat, more: nat)
    requires FreeCount(used, NUM_PAG_KERNEL) == n && n <= more
    ensures Grabbed(used, more) == Grabbed(used, n)
  {
    if n < more {
      GrabbedStops(used, n, more - 1);
      GrabbedIsTaken(used, n);
      TakeOne(used, Grabbed(used, n));
    }
  }

  datatype Op = Fork(child: nat) | Exit(t: nat)

  predicate Enabled(m: Mem, op: Op) {
    match op
    case Fork(child) => child < |m.pages| && m.pages[child] == []
    case Exit(t) => t < |m.pages|
  }

  /** A fork without enough frames changes nothing. */
  function Step(m: Mem, op: Op): Mem
    requires Enabled(m, op)
  {
    match op
    case Fork(child) =>
      var fs := Grabbed(m.used, NUM_PAG_DATA);
      if |fs| < NUM_PAG_DATA then m else Mem(Marked(m.used, fs, true), m.pages[child := fs])
    case Exit(t) => Mem(Marked(m.used, m.pages[t], false), m.pages[t := []])
  }

  /** The frames ascend, and no free one that alloc_frame can find is passed over. */
  ghost predicate Leading(used: seq<bool>, fs: seq<int>) {
    && (forall i, j :: 0 <= i < j < |fs| ==> fs[i] < fs[j])
    && (fs != [] ==> forall f :: Reachable(f, |used|) && f < fs[|fs| - 1] ==> used[f] || f in fs)
  }

  lemma {:induction false} GrabbedAreTheFirst(used: seq<bool>, n: nat)
    ensures Leading(used, Grabbed(used, n))
  {
    hide Leading, FreeCount;
    if n == 0 {
      LeadingNone(used);
    } else {
      GrabbedAreTheFirst(used, n - 1);
      GrabbedIsTaken(used, n - 1);
      NextIsLeading(used, Grabbed(used, n - 1));
    }
  }

  lemma LeadingNone(used: seq<bool>)
    ensures Leading(used, [])
  {
  }

  lemma NextIsLeading(used: seq<bool>, fs: seq<int>)
    requires Taken(used, fs) && Leading(used, fs)
    ensures var next := NextFree(Marked(used, fs, true), NUM_PAG_KERNEL);
            next != -1 ==> Leading(used, fs + [next])
  {
    hide FreeCount;
    var next := NextFree(Marked(used, fs, true), NUM_PAG_KERNEL);
    assert next != -1 ==> Reachable(next, |used|);
  }

  /** A fork that finds its frames: they were free, and become the child's; nothing else changes hands. */
  lemma ForkTakes(m: Mem, child: nat)
    requires Enabled(m, Fork(child)) && FreeCount(m.used, NUM_PAG_KERNEL) >= NUM_PAG_DATA
    ensures var m' := Step(m, Fork(child));
            && |m'.pages| == |m.pages| && |m'.used| == |m.used| && |m'.pages[child]| == NUM_PAG_DATA
            && (forall t :: 0 <= t < |m.pages| && t != child ==> m'.pages[t] == m.pages[t])
            && (forall f :: f in m'.pages[child] ==> Reachable(f, |m.used|) && !m.used[f])
            && (forall f :: 0 <= f < |m.used| ==> m'.used[f] == (m.used[f] || f in m'.pages[child]))
  {
    hide FreeCount, Reachable;
    GrabbedIsTaken(m.used, NUM_PAG_DATA);
  }

  /** An exit frees the frames of its task and no others. */
  lemma ExitFrees(m: Mem, t: nat)
    requires Enabled(m, Exit(t))
    ensures var m' := Step(m, Exit(t));
            && |m'.pages| == |m.pages| && |m'.used| == |m.used| && m'.pages[t] == []
            && (forall u :: 0 <= u < |m.pages| && u != t ==> m'.pages[u] == m.pages[u])
            && (forall f :: 0 <= f < |m.used| ==> m'.used[f] == (m.used[f] && f !in m.pages[t]))
  {
  }

  predicate AllEnabled(m: Mem, ops: seq<Op>)
    decreases |ops|
  {
    ops != [] ==> Enabled(m, ops[0]) && AllEnabled(Step(m, ops[0]), ops[1..])
  }

  function Run(m: Mem, ops: seq<Op>): Mem
    requires AllEnabled(m, ops)
    decreases |ops|
  {
    if ops == [] then m else Run(Step(m, ops[0]), ops[1..])
  }

  /** After every run of forks and exits frames are owned once, marked, and none is lost. */
  lemma {:induction false} RunInv(m: Mem, capacity: nat, ops: seq<Op>)
    requires Inv(m, capacity) && AllEnabled(m, ops)
    ensures Inv(Run(m, ops), capacity) && |Run(m, ops).pages| == |m.pages|
    decreases |ops|
  {
    if ops != [] {
      match ops[0] {
        case Fork(child) =>
          GrabbedIsTaken(m.used, NUM_PAG_DATA);
          if |Grabbed(m.used, NUM_PAG_DATA)| == NUM_PAG_DATA {
            ForkInv(m, capacity, child, Grabbed(m.used, NUM_PAG_DATA));
          }
        case Exit(t) => ExitInv(m, capacity, t);
      }
      hide Inv;
      RunInv(Step(m, ops[0]), capacity, ops[1..]);
    }
  }

  /** From boot, in every reachable state, a fork into a free slot finds its frames. */
  lemma ForkAlwaysFindsFrames(used: seq<bool>, pages: seq<seq<int>>, ops: seq<Op>, child: nat)
    requires BootMap(used) && |pages| == NR_TASKS && (forall t :: 0 <= t < |pages| ==> pages[t] == [])
    requires AllEnabled(Mem(used, pages), ops) && Enabled(Run(Mem(used, pages), ops), Fork(child))
    ensures var m := Run(Mem(used, pages), ops);
            |Step(m, Fork(child)).pages[child]| == NUM_PAG_DATA && Inv(Step(m, Fork(child)), CAPACITY)
  {
    var m0 := Mem(used, pages);
    BootInv(used, pages);
    RunInv(m0, CAPACITY, ops);
    var m := Run(m0, ops);
    FramesSuffice(m);
    GrabbedIsTaken(m.used, NUM_PAG_DATA);
    ForkInv(m, CAPACITY, child, Grabbed(m.used, NUM_PAG_DATA));
  }

  // ---------------------------------------------------------------- the code

  class Memory {
    const physMem: array<bool>
    const pages: array<seq<int>>
    ghost const capacity: nat

    ghost function View(): Mem
      reads physMem, pages
    {
      Mem(physMem[..], pages[..])
    }

    ghost predicate Valid()
      reads physMem, pages
    {
      physMem.Length >= NUM_PAG_KERNEL + NUM_PAG_CODE && Inv(View(), capacity)
    }

    /** init_frames and initialize_P0_frames; task 0 takes its pages with Fork's loop afterwards. */
    constructor (tasks: nat)
      ensures Valid() && capacity == CAPACITY && pages.Length == tasks && fresh(physMem) && fresh(pages)
      ensures BootMap(physMem[..]) && forall t :: 0 <= t < tasks ==> pages[t] == []
    {
      physMem := new bool[TOTAL_PAGES];
      pages := new seq<int>[tasks](_ => []);
      capacity := CAPACITY;
      new;
      for i := 0 to TOTAL_PAGES
        invariant forall f :: 0 <= f < i ==> !physMem[f]
        modifies physMem
      {
        physMem[i] := false;
      }
      for i := 0 to NUM_PAG_KERNEL
        invariant forall f :: 0 <= f < TOTAL_PAGES ==> physMem[f] == (f < i)
        modifies physMem
      {
        physMem[i] := true;
      }
      for i := 0 to NUM_PAG_CODE
        invariant forall f :: 0 <= f < TOTAL_PAGES ==> physMem[f] == (f < NUM_PAG_KERNEL + i)
        modifies physMem
      {
        physMem[NUM_PAG_KERNEL + i] := true;
      }
      BootInv(physMem[..], pages[..]);
    }

    /** alloc_frame */
    method AllocFrame() returns (f: int)
      modifies physMem
      ensures f == NextFree(old(physMem[..]), NUM_PAG_KERNEL)
      ensures physMem[..] == if f == -1 then old(physMem[..]) else old(physMem[..])[f := true]
    {
      var i := NUM_PAG_KERNEL;
      while i < physMem.Length
        invariant physMem[..] == old(physMem[..]) && NextFree(physMem[..], NUM_PAG_KERNEL) == NextFree(physMem[..], i)
      {
        if !physMem[i] {
          physMem[i] := true;
          return i;
        }
        i := i + 2;
      }
      return -1;
    }

    /** free_frame */
    method FreeFrame(f: nat)
      requires f < physMem.Length
      modifies physMem
      ensures physMem[..] == old(physMem[..])[f := false]
    {
      physMem[f] := false;
    }

    /** The frame loop of sys_fork (and of init_task0): all pages or none. */
    method Grab() returns (ok: bool, frames: seq<int>)
      modifies physMem
      ensures ok <==> FreeCount(old(physMem[..]), NUM_PAG_KERNEL) >= NUM_PAG_DATA
      ensures frames == Grabbed(old(physMem[..]), NUM_PAG_DATA) && Taken(old(physMem[..]), frames)
      ensures ok ==> |frames| == NUM_PAG_DATA && physMem[..] == Marked(old(physMem[..]), frames, true)
      ensures !ok ==> physMem[..] == old(physMem[..])
    {
      hide NextFree, FreeCount, Marked;
      ghost var used := physMem[..];
      frames := [];
      TookNone(used);
      for i := 0 to NUM_PAG_DATA
        invariant |frames| == i && frames == Grabbed(used, i) && Taken(used, frames)
                  && physMem[..] == Marked(used, frames, true)
      {
        TakeOne(used, frames);
        var f := AllocFrame();
        if f == -1 {
          GrabbedIsTaken(used, i);
          GrabbedStops(used, i, NUM_PAG_DATA);
          Undo(frames, used);
          return false, frames;
        }
        frames := frames + [f];
      }
      ok := true;
    }

    /** The roll-back of sys_fork. */
    method Undo(frames: seq<int>, ghost used: seq<bool>)
      requires Taken(used, frames) && physMem[..] == Marked(used, frames, true)
      modifies physMem
      ensures physMem[..] == used
    {
      GiveBack(used, frames);
      var j := |frames|;
      while j > 0
        invariant 0 <= j <= |frames| && physMem[..] == Marked(Marked(used, frames, true), frames[j..], false)
      {
        j := j - 1;
        assert frames[j..] == [frames[j]] + frames[j + 1..];
        FreeFrame(frames[j]);
        assert physMem[..] == Marked(Marked(used, frames, true), frames[j..], false);
      }
      assert frames[0..] == frames;
    }

    /** The scan for a free task slot: one without frames. */
    method FreeSlot() returns (child: int)
      ensures child == -1 <==> forall t :: 0 <= t < pages.Length ==> pages[t] != []
      ensures child != -1 ==> 0 <= child < pages.Length && pages[child] == []
      ensures child != -1 ==> forall t :: 0 <= t < child ==> pages[t] != []
    {
      for i := 0 to pages.Length
        invariant forall t :: 0 <= t < i ==> pages[t] != []
      {
        if pages[i] == [] { return i; }
      }
      return -1;
    }

    /** sys_fork: the child's slot, or -1. With the shipped sizes it fails exactly if every task slot is taken. */
    method Fork() returns (child: int)
      requires Valid()
      modifies physMem, pages
      ensures Valid()
      ensures child != -1 <==>
                && (exists t :: 0 <= t < pages.Length && old(pages[t]) == [])
                && FreeCount(old(physMem[..]), NUM_PAG_KERNEL) >= NUM_PAG_DATA
      ensures capacity == CAPACITY && pages.Length == NR_TASKS ==>
                (child != -1 <==> exists t :: 0 <= t < NR_TASKS && old(pages[t]) == [])
      ensures child == -1 ==> View() == old(View())
      ensures child != -1 ==>
                && 0 <= child < pages.Length && old(pages[child]) == []
                && (forall t :: 0 <= t < child ==> old(pages[t]) != [])
                && View() == Step(old(View()), Op.Fork(child))
    {
      hide Inv, FreeCount;
      ghost var m := View();
      child := FreeSlot();
      if child == -1 { return; }
      if capacity == CAPACITY && pages.Length == NR_TASKS {
        assert m.pages[child] == [];
        FramesSuffice(m);
      }
      var ok, frames := Grab();
      if !ok { return -1; }
      ForkInv(m, capacity, child, frames);
      pages[child] := frames;
      assert pages[..] == m.pages[child := frames];
    }

    /** sys_exit frees the frames of the task. */
    method Exit(t: nat)
      requires Valid() && t < pages.Length
      modifies physMem, pages
      ensures Valid() && View() == Step(old(View()), Op.Exit(t))
    {
      ghost var m := View();
      ExitInv(m, capacity, t);
      hide Inv;
      assert Marked(m.used, [], false) == m.used;
      for i := 0 to |pages[t]|
        invariant physMem[..] == Marked(m.used, m.pages[t][..i], false)
        modifies physMem
      {
        FreeFrame(pages[t][i]);
        assert m.pages[t][..i + 1] == m.pages[t][..i] + [m.pages[t][i]];
        assert physMem[..] == Marked(m.used, m.pages[t][..i + 1], false);
      }
      assert m.pages[t][..|m.pages[t]|] == m.pages[t];
      pages[t] := [];
      assert pages[..] == m.pages[t := []];
    }
  }
}
