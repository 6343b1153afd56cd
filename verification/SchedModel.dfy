/** The cooperative scheduler as a state machine: task table, current task, CPU context, RAM and the
    heap the stacks come from. */
module SchedModel {
  import Heap
  import Word32
  import opened ContextSwitch

  const TASK_MAX := 16
  const STACK_MIN := 128
  const STACK_DEFAULT := 2048
  const IDLE_STACK := 256

  datatype TaskState = READY | RUNNING | BLOCKED | EXIT | ZOMBIE

  /** `base == 0` once the stack has been reclaimed. */
  datatype Task = Task(sp: nat, state: TaskState, base: nat, size: nat)

  /** `current == -1` until `task_start`. `last` is history, not kernel state: the context each task had
      when it was last switched out, or that of its entry if it has not run. */
  datatype Sys = Sys(tasks: seq<Task>, current: int, cpu: Context, mem: Memory,
                     heap: seq<Heap.Block>, last: seq<Context>)

  function Zeros(n: nat): seq<nat> { seq(n, _ => 0) }

  /** The context in which a task first runs: at its entry, sp at the top of its stack. */
  function EntryContext(entry: nat, base: nat, size: nat): Context {
    Context(entry, Zeros(SAVED), base + size)
  }

  /** Zero words from `a` up to `b`. */
  function Clear(mem: Memory, a: nat, b: nat): Memory
    decreases b - a
  {
    if a >= b then mem else Clear(mem[a := 0], a + 4, b)
  }

  /** `task_setup_stack`. */
  function SetupStack(mem: Memory, entry: nat, base: nat, size: nat): Memory
    requires size >= FRAME
  {
    Save(mem, base + size - FRAME, EntryContext(entry, base, size))
  }

  function NewTask(base: nat, size: nat): Task
    requires size >= FRAME
  {
    Task(base + size - FRAME, READY, base, size)
  }

  /** `task_init`: the idle task on its static stack. */
  function Init(idleEntry: nat, idleBase: nat, cpu: Context, mem: Memory, heap: seq<Heap.Block>): Sys {
    Sys([NewTask(idleBase, IDLE_STACK)], -1, cpu,
        SetupStack(Clear(mem, idleBase, idleBase + IDLE_STACK), idleEntry, idleBase, IDLE_STACK), heap,
        [EntryContext(idleEntry, idleBase, IDLE_STACK)])
  }

  function StackSize(request: nat): nat { if request < STACK_MIN then STACK_DEFAULT else request }

  /** `task_create`; -1 when the table or the heap is full. */
  function Create(sys: Sys, entry: nat, request: nat): (Sys, int) {
    var size := StackSize(request);
    var a := Heap.Alloc(sys.heap, size);
    if |sys.tasks| >= TASK_MAX || a.ptr == 0 then (sys, -1)
    else
      (sys.(tasks := sys.tasks + [NewTask(a.ptr, size)], heap := a.blocks,
            mem := SetupStack(Clear(sys.mem, a.ptr, a.ptr + size), entry, a.ptr, size),
            last := sys.last + [EntryContext(entry, a.ptr, size)]),
       |sys.tasks|)
  }

  function NextReady(tasks: seq<Task>, start: int, i: nat): (r: int)
    requires |tasks| > 0 && start >= -1 && 1 <= i
    ensures -1 <= r < |tasks|
    ensures r >= 0 ==> tasks[r].state == READY
    decreases |tasks| + 1 - i
  {
    if i > |tasks| then -1
    else if tasks[(start + i) % |tasks|].state == READY then (start + i) % |tasks|
    else NextReady(tasks, start, i + 1)
  }

  /** The switch itself: `prev`'s sp is stored, and `next` runs with what its frame holds. */
  function SwitchTo(sys: Sys, tasks: seq<Task>, prev: nat, next: nat): Sys
    requires prev < |tasks| == |sys.last| && next < |tasks| && |sys.cpu.s| == SAVED && sys.cpu.sp >= FRAME
  {
    var at := sys.cpu.sp - FRAME;
    var mem := Save(sys.mem, at, sys.cpu);
    var leaving := if prev == next then tasks[prev].(state := RUNNING) else tasks[prev];
    sys.(tasks := tasks[next := tasks[next].(state := RUNNING)][prev := leaving.(sp := at)],
         current := next, cpu := FrameAt(mem, tasks[next].sp), mem := mem, last := sys.last[prev := sys.cpu])
  }

  function Yield(sys: Sys): Sys
    requires sys.current < |sys.tasks| == |sys.last| && |sys.cpu.s| == SAVED && sys.cpu.sp >= FRAME
  {
    if sys.current < 0 || |sys.tasks| < 2 then sys
    else
      var tasks := sys.tasks[sys.current := sys.tasks[sys.current].(state := READY)];
      var next := NextReady(tasks, sys.current, 1);
      if next < 0 then sys.(tasks := tasks[sys.current := tasks[sys.current].(state := RUNNING)])
      else SwitchTo(sys, tasks, sys.current, next)
  }

  datatype Halting = Halt | Goes(sys: Sys)

  /** `task_exit`; `Halt` is one of its two endless waits. */
  function Exit(sys: Sys): Halting
    requires |sys.tasks| == |sys.last| && |sys.cpu.s| == SAVED && sys.cpu.sp >= FRAME
  {
    if sys.current < 0 || sys.current >= |sys.tasks| then Halt
    else
      var tasks := sys.tasks[sys.current := sys.tasks[sys.current].(state := ZOMBIE)];
      var next := NextReady(tasks, sys.current, 1);
      if next < 0 then Halt else Goes(SwitchTo(sys, tasks, sys.current, next))
  }

  /** The reclaiming sweep of the idle task, from slot `i` on. */
  function ReclaimFrom(tasks: seq<Task>, heap: seq<Heap.Block>, idleBase: nat, i: nat)
    : (r: (seq<Task>, seq<Heap.Block>))
    requires i <= |tasks|
    ensures |r.0| == |tasks|
    decreases |tasks| - i
  {
    if i == |tasks| then (tasks, heap)
    else if tasks[i].state == ZOMBIE then
      var frees := i != 0 && tasks[i].base != 0 && tasks[i].base != idleBase;
      ReclaimFrom(tasks[i := tasks[i].(base := 0, state := EXIT)],
                  if frees then Heap.Free(heap, tasks[i].base) else heap, idleBase, i + 1)
    else ReclaimFrom(tasks, heap, idleBase, i + 1)
  }

  function Reclaim(sys: Sys, idleBase: nat): Sys {
    var r := ReclaimFrom(sys.tasks, sys.heap, idleBase, 0);
    sys.(tasks := r.0, heap := r.1)
  }

  function FirstReady(tasks: seq<Task>, i: nat): (r: int)
    requires i <= |tasks|
    ensures r == -1 || (i <= r < |tasks| && tasks[r].state == READY)
    ensures forall k :: i <= k < (if r < 0 then |tasks| else r) ==> tasks[k].state != READY
    decreases |tasks| - i
  {
    if i == |tasks| then -1 else if tasks[i].state == READY then i else FirstReady(tasks, i + 1)
  }

  /** `task_start`: the caller's frame goes on its own stack and its sp is discarded. */
  function Start(sys: Sys): Sys
    requires |sys.cpu.s| == SAVED && sys.cpu.sp >= FRAME
  {
    if |sys.tasks| < 2 then sys
    else
      var next := FirstReady(sys.tasks, 1);
      if next < 0 then sys
      else
        var mem := Save(sys.mem, sys.cpu.sp - FRAME, sys.cpu);
        sys.(tasks := sys.tasks[next := sys.tasks[next].(state := RUNNING)], current := next,
             cpu := FrameAt(mem, sys.tasks[next].sp), mem := mem)
  }

  // ----- The invariant -----

  ghost predicate StackAt(heap: seq<Heap.Block>, idleBase: nat, i: nat, t: Task) {
    if i == 0 then t.base == idleBase && t.size == IDLE_STACK && t.state in {READY, RUNNING}
    else
      t.size >= STACK_MIN && (t.state == EXIT <==> t.base == 0) &&
      (t.base != 0 ==> Heap.HasBlock(heap, t.base, t.size))
  }

  ghost predicate Apart(t: Task, u: Task) {
    t.base == 0 || u.base == 0 || t.base + t.size <= u.base || u.base + u.size <= t.base
  }

  /** A waiting task's frame is on its own stack and restores the context it was last seen with. */
  ghost predicate Resumable(mem: Memory, t: Task, c: Context) {
    t.base <= t.sp && t.sp + FRAME <= t.base + t.size && FrameAt(mem, t.sp) == c
  }

  ghost predicate OnStack(cpu: Context, t: Task) {
    |cpu.s| == SAVED && t.base <= cpu.sp <= t.base + t.size
  }

  /** What the memory map fixes: the idle stack, and the heap's bounds above it. */
  datatype Layout = Layout(idleBase: nat, lo: nat, hi: nat)

  ghost predicate LayoutOk(l: Layout) {
    0 < l.idleBase && l.idleBase + IDLE_STACK <= l.lo
  }

  ghost predicate Tables(sys: Sys, l: Layout) {
    LayoutOk(l) && Heap.Canonical(sys.heap, l.lo, l.hi) &&
    1 <= |sys.tasks| <= TASK_MAX && |sys.last| == |sys.tasks| && -1 <= sys.current < |sys.tasks| &&
    (forall i :: 0 <= i < |sys.tasks| ==> StackAt(sys.heap, l.idleBase, i, sys.tasks[i])) &&
    (forall i, j :: 0 <= i < j < |sys.tasks| ==> Apart(sys.tasks[i], sys.tasks[j]))
  }

  /** Exactly the current task is RUNNING, and it runs on its own stack. */
  ghost predicate OneRuns(sys: Sys)
    requires -1 <= sys.current < |sys.tasks|
  {
    (forall i :: 0 <= i < |sys.tasks| ==> sys.tasks[i].state != BLOCKED) &&
    (forall i :: 0 <= i < |sys.tasks| ==> (sys.tasks[i].state == RUNNING <==> i == sys.current)) &&
    (sys.current >= 0 ==> OnStack(sys.cpu, sys.tasks[sys.current]))
  }

  ghost predicate AllResumable(sys: Sys)
    requires |sys.last| == |sys.tasks|
  {
    forall i :: 0 <= i < |sys.tasks| && sys.tasks[i].state == READY ==> Resumable(sys.mem, sys.tasks[i], sys.last[i])
  }

  ghost predicate Inv(sys: Sys, l: Layout) {
    Tables(sys, l) && OneRuns(sys) && AllResumable(sys)
  }

  // ----- Choosing the next task -----

  /** Steps from `a` round the table to `b`. */
  function Distance(a: int, b: int, n: nat): nat
    requires n > 0
  {
    (b - a - 1) % n + 1
  }

  lemma ModOne(x: int, n: int)
    requires n > 0
    ensures -n <= x < 0 ==> x % n == x + n
    ensures 0 <= x < n ==> x % n == x
    ensures n <= x < 2 * n ==> x % n == x - n
  {}

  lemma DistanceReaches(a: int, b: int, n: nat)
    requires n > 0 && -1 <= a < n && 0 <= b < n
    ensures 1 <= Distance(a, b, n) <= n && (a + Distance(a, b, n)) % n == b
    ensures Distance(a, b, n) == if b > a then b - a else b - a + n
  {
    if b > a {
      ModOne(b - a - 1, n);
      ModOne(b, n);
    } else {
      ModOne(b - a - 1, n);
      ModOne(b + n, n);
    }
  }

  /** A scan meets the READY task nearest round the table, and only fails when there is none. */
  lemma {:induction false} NextReadyNearest(tasks: seq<Task>, start: int, i: nat, j: nat)
    requires |tasks| > 0 && -1 <= start < |tasks| && 1 <= i && j < |tasks| && tasks[j].state == READY
    requires i <= Distance(start, j, |tasks|)
    ensures NextReady(tasks, start, i) >= 0
    ensures Distance(start, NextReady(tasks, start, i), |tasks|) <= Distance(start, j, |tasks|)
    decreases |tasks| + 1 - i
  {
    var n := |tasks|;
    DistanceReaches(start, j, n);
    var k := (start + i) % n;
    DistanceReaches(start, k, n);
    ModOne(start + i, n);
    if tasks[k].state != READY {
      NextReadyNearest(tasks, start, i + 1, j);
    }
  }

  // ----- Switching -----

  /** Saving the running task's context leaves every other stack's frame alone. */
  lemma SaveKeepsOthers(sys: Sys, t: Task, running: Task)
    requires |sys.cpu.s| == SAVED && OnStack(sys.cpu, running) && running.base + FRAME <= sys.cpu.sp
    requires t.base != 0 && running.base != 0 && Apart(t, running)
    requires t.base <= t.sp && t.sp + FRAME <= t.base + t.size
    ensures FrameAt(Save(sys.mem, sys.cpu.sp - FRAME, sys.cpu), t.sp) == FrameAt(sys.mem, t.sp)
  {
    FrameElsewhere(sys.mem, sys.cpu, t.sp);
  }

  /** Room left on the running task's stack for its frame: what calling into the scheduler takes. */
  ghost predicate CanCall(sys: Sys)
    requires 0 <= sys.current < |sys.tasks|
  {
    sys.tasks[sys.current].base + FRAME <= sys.cpu.sp
  }

  lemma ApartEither(sys: Sys, l: Layout, i: nat, j: nat)
    requires Tables(sys, l) && i < |sys.tasks| && j < |sys.tasks| && i != j
    ensures Apart(sys.tasks[i], sys.tasks[j])
  {}

  lemma BaseNonZero(sys: Sys, l: Layout, i: nat)
    requires Tables(sys, l) && i < |sys.tasks| && sys.tasks[i].state != EXIT
    ensures sys.tasks[i].base != 0
  {}

  /** The task switched to gets exactly the context it was last switched out with, and the invariant
      goes on to hold. `away` is the state in which the outgoing task is left. */
  lemma SwitchExact(sys: Sys, l: Layout, away: TaskState, next: nat)
    requires Inv(sys, l) && sys.current >= 0 && CanCall(sys) && next < |sys.tasks| && next != sys.current
    requires away == READY || (away == ZOMBIE && sys.current != 0)
    requires sys.tasks[next].state == READY
    ensures var prev := sys.current;
      var sys' := SwitchTo(sys, sys.tasks[prev := sys.tasks[prev].(state := away)], prev, next);
      Inv(sys', l) && sys'.current == next && sys'.cpu == sys.last[next] && sys'.last == sys.last[prev := sys.cpu]
  {
    hide Save, Heap.Canonical, Heap.HasBlock, LayoutOk;
    var prev := sys.current;
    var sys' := SwitchTo(sys, sys.tasks[prev := sys.tasks[prev].(state := away)], prev, next);
    SaveThenRestore(sys.mem, sys.cpu);
    WaitingFramesKept(sys, l);
    assert Resumable(sys.mem, sys.tasks[next], sys.last[next]);
    assert sys'.cpu == sys.last[next];
    BaseNonZero(sys, l, prev);
    assert forall i :: 0 <= i < |sys.tasks| && i != prev && i != next ==> sys'.tasks[i] == sys.tasks[i];
    assert StackAt(sys.heap, l.idleBase, 0, sys.tasks[0]);
    SwitchTables(sys, sys', l);
    forall i | 0 <= i < |sys'.tasks| && sys'.tasks[i].state == READY
      ensures Resumable(sys'.mem, sys'.tasks[i], sys'.last[i])
    {
      if i != prev { assert Resumable(sys.mem, sys.tasks[i], sys.last[i]); }
    }
  }

  /** The save that a switch begins with keeps the frame of every waiting task. */
  lemma WaitingFramesKept(sys: Sys, l: Layout)
    requires Inv(sys, l) && sys.current >= 0 && CanCall(sys)
    ensures forall i :: 0 <= i < |sys.tasks| && sys.tasks[i].state == READY ==>
      FrameAt(Save(sys.mem, sys.cpu.sp - FRAME, sys.cpu), sys.tasks[i].sp) == sys.last[i]
  {
    var prev := sys.current;
    BaseNonZero(sys, l, prev);
    forall i | 0 <= i < |sys.tasks| && sys.tasks[i].state == READY
      ensures FrameAt(Save(sys.mem, sys.cpu.sp - FRAME, sys.cpu), sys.tasks[i].sp) == sys.last[i]
    {
      assert Resumable(sys.mem, sys.tasks[i], sys.last[i]);
      BaseNonZero(sys, l, i);
      ApartEither(sys, l, i, prev);
      SaveKeepsOthers(sys, sys.tasks[i], sys.tasks[prev]);
    }
  }

  /** Stacks and heap as before, whatever happened to states and stack pointers. */
  lemma SwitchTables(sys: Sys, sys': Sys, l: Layout)
    requires Tables(sys, l) && |sys'.tasks| == |sys.tasks| == |sys'.last| && sys'.heap == sys.heap
    requires -1 <= sys'.current < |sys'.tasks|
    requires forall i :: 0 <= i < |sys.tasks| ==>
      sys'.tasks[i].base == sys.tasks[i].base && sys'.tasks[i].size == sys.tasks[i].size
    requires forall i :: 0 <= i < |sys.tasks| ==> (sys'.tasks[i].state == EXIT <==> sys.tasks[i].state == EXIT)
    requires sys'.tasks[0].state in {READY, RUNNING}
    ensures Tables(sys', l)
  {}

  /** Some other task is waiting. */
  ghost predicate OtherReady(sys: Sys) {
    exists j :: 0 <= j < |sys.tasks| && j != sys.current && sys.tasks[j].state == READY
  }

  lemma OthersBeforeSelf(tasks: seq<Task>, prev: nat, j: nat)
    requires prev < |tasks| && j < |tasks| && j != prev && tasks[j].state == READY
    ensures var n := NextReady(tasks, prev, 1);
      n >= 0 && n != prev && Distance(prev, n, |tasks|) <= Distance(prev, j, |tasks|)
  {
    DistanceReaches(prev, j, |tasks|);
    DistanceReaches(prev, prev, |tasks|);
    NextReadyNearest(tasks, prev, 1, j);
  }

  /** The CPU goes from the current task, left `away` with its frame on its stack, to the READY task nearest
      round the table; no other task's slot, no other memory and no block changes. */
  ghost predicate Handover(sys: Sys, away: TaskState, sys': Sys)
    requires 0 <= sys.current < |sys.tasks|
  {
    var p, n := sys.current, sys'.current;
    |sys'.tasks| == |sys.tasks| && sys'.heap == sys.heap && sys.cpu.sp >= 52 &&
    0 <= n < |sys.tasks| && n != p && sys.tasks[n].state == READY &&
    (forall j :: 0 <= j < |sys.tasks| && j != p && sys.tasks[j].state == READY ==>
      Distance(p, n, |sys.tasks|) <= Distance(p, j, |sys.tasks|)) &&
    (forall i :: 0 <= i < |sys.tasks| ==>
      sys'.tasks[i] == if i == p then sys.tasks[p].(state := away, sp := sys.cpu.sp - 52)
                       else if i == n then sys.tasks[n].(state := RUNNING) else sys.tasks[i]) &&
    FrameAt(sys'.mem, sys.cpu.sp - 52) == sys.cpu &&
    (forall x: nat :: x < sys.cpu.sp - 52 || sys.cpu.sp <= x ==> Load(sys'.mem, x) == Load(sys.mem, x))
  }

  lemma HandsOver(sys: Sys, away: TaskState, next: nat)
    requires 0 <= sys.current < |sys.tasks| == |sys.last| && |sys.cpu.s| == SAVED && sys.cpu.sp >= 52
    requires next < |sys.tasks| && next != sys.current && sys.tasks[next].state == READY
    requires forall j :: 0 <= j < |sys.tasks| && j != sys.current && sys.tasks[j].state == READY ==>
      Distance(sys.current, next, |sys.tasks|) <= Distance(sys.current, j, |sys.tasks|)
    ensures var p := sys.current;
      Handover(sys, away, SwitchTo(sys, sys.tasks[p := sys.tasks[p].(state := away)], p, next))
  {
    hide Save, Load, FrameAt, Distance;
    var p := sys.current;
    var sys' := SwitchTo(sys, sys.tasks[p := sys.tasks[p].(state := away)], p, next);
    SaveThenRestore(sys.mem, sys.cpu);
    forall x: nat | x < sys.cpu.sp - 52 || sys.cpu.sp <= x ensures Load(sys'.mem, x) == Load(sys.mem, x) {
      SaveElsewhere(sys.mem, sys.cpu.sp - 52, sys.cpu, x);
    }
  }

  /** A yield with another task waiting resumes one exactly where it left off. */
  lemma YieldExact(sys: Sys, l: Layout)
    requires Inv(sys, l) && sys.current >= 0 && CanCall(sys) && OtherReady(sys)
    ensures var sys' := Yield(sys);
      Inv(sys', l) && Handover(sys, READY, sys') &&
      sys'.cpu == sys.last[sys'.current] && sys'.last == sys.last[sys.current := sys.cpu]
  {
    hide SwitchTo, Tables, AllResumable, Distance, Handover;
    CallShape(sys, l);
    var prev := sys.current;
    var tasks := sys.tasks[prev := sys.tasks[prev].(state := READY)];
    var j :| 0 <= j < |sys.tasks| && j != prev && sys.tasks[j].state == READY;
    OthersBeforeSelf(tasks, prev, j);
    var next := NextReady(tasks, prev, 1);
    forall i | 0 <= i < |sys.tasks| && i != prev && sys.tasks[i].state == READY
      ensures Distance(prev, next, |sys.tasks|) <= Distance(prev, i, |sys.tasks|)
    {
      OthersBeforeSelf(tasks, prev, i);
    }
    SwitchExact(sys, l, READY, next);
    HandsOver(sys, READY, next);
  }

  lemma CallShape(sys: Sys, l: Layout)
    requires Inv(sys, l) && sys.current >= 0 && CanCall(sys)
    ensures sys.current < |sys.last| == |sys.tasks| && |sys.cpu.s| == SAVED && sys.cpu.sp >= 52
  {}

  /** Alone, a task that yields is handed its own stale frame: it goes on as it was exactly when it
      yields from the same stack depth as the time before. */
  lemma LoneYieldExactly(sys: Sys, l: Layout)
    requires Inv(sys, l) && sys.current >= 0 && CanCall(sys) && !OtherReady(sys) && |sys.tasks| >= 2
    ensures var p := sys.current;
      Yield(sys).current == p && Yield(sys).heap == sys.heap &&
      Yield(sys).tasks == sys.tasks[p := sys.tasks[p].(state := RUNNING, sp := sys.cpu.sp - 52)]
    ensures Yield(sys).cpu == sys.cpu <==> sys.tasks[sys.current].sp == sys.cpu.sp - FRAME
  {
    var prev := sys.current;
    var tasks := sys.tasks[prev := sys.tasks[prev].(state := READY)];
    DistanceReaches(prev, prev, |tasks|);
    NextReadyNearest(tasks, prev, 1, prev);
    SelfSwitchExactly(sys.mem, sys.cpu, sys.tasks[prev].sp);
  }

  /** Before `task_start`, and with the idle task alone, a yield does nothing. */
  lemma IdleYield(sys: Sys)
    requires sys.current < |sys.tasks| == |sys.last| && |sys.cpu.s| == SAVED && sys.cpu.sp >= FRAME
    requires sys.current < 0 || |sys.tasks| < 2
    ensures Yield(sys) == sys
  {}

  /** An exit ends in the endless wait exactly when nobody runs or nobody else is READY. */
  lemma ExitHaltsExactly(sys: Sys)
    requires sys.current < |sys.tasks| == |sys.last| && |sys.cpu.s| == SAVED && sys.cpu.sp >= FRAME
    ensures Exit(sys).Halt? <==> sys.current < 0 || !OtherReady(sys)
  {
    hide SwitchTo;
    if sys.current >= 0 {
      var tasks := sys.tasks[sys.current := sys.tasks[sys.current].(state := ZOMBIE)];
      if j :| 0 <= j < |sys.tasks| && j != sys.current && sys.tasks[j].state == READY {
        OthersBeforeSelf(tasks, sys.current, j);
      }
    }
  }

  /** Any task but idle can exit: it never gets stuck, and the next one resumes exactly. */
  lemma ExitExact(sys: Sys, l: Layout)
    requires Inv(sys, l) && sys.current > 0 && CanCall(sys)
    ensures var r := Exit(sys);
      r.Goes? && Inv(r.sys, l) && Handover(sys, ZOMBIE, r.sys) &&
      r.sys.cpu == sys.last[r.sys.current] && r.sys.last == sys.last[sys.current := sys.cpu]
  {
    hide SwitchTo, AllResumable, Distance, Handover, Heap.Canonical, Heap.HasBlock;
    var prev := sys.current;
    var tasks := sys.tasks[prev := sys.tasks[prev].(state := ZOMBIE)];
    assert StackAt(sys.heap, l.idleBase, 0, sys.tasks[0]);
    OthersBeforeSelf(tasks, prev, 0);
    var next := NextReady(tasks, prev, 1);
    forall i | 0 <= i < |sys.tasks| && i != prev && sys.tasks[i].state == READY
      ensures Distance(prev, next, |sys.tasks|) <= Distance(prev, i, |sys.tasks|)
    {
      OthersBeforeSelf(tasks, prev, i);
    }
    CallShape(sys, l);
    SwitchExact(sys, l, ZOMBIE, next);
    HandsOver(sys, ZOMBIE, next);
  }

  /** The kernel's own stack, on which it boots, is above the heap. */
  ghost predicate OnBootStack(sys: Sys, l: Layout) { |sys.cpu.s| == SAVED && l.hi + FRAME <= sys.cpu.sp }

  /** Every task's stack is below it. */
  lemma StackBelow(sys: Sys, l: Layout, i: nat)
    requires Tables(sys, l) && i < |sys.tasks| && sys.tasks[i].base != 0 && l.lo <= l.hi
    ensures sys.tasks[i].base + sys.tasks[i].size <= l.hi
  {
    assert StackAt(sys.heap, l.idleBase, i, sys.tasks[i]);
    if i > 0 { Heap.BlockInside(sys.heap, sys.tasks[i].base, sys.tasks[i].size, l.lo, l.hi); }
  }

  /** The first switch starts the lowest waiting task but idle at its entry; with none, nothing happens. */
  lemma StartExact(sys: Sys, l: Layout)
    requires Inv(sys, l) && sys.current == -1 && OnBootStack(sys, l)
    ensures var sys' := Start(sys);
      Inv(sys', l) && sys'.last == sys.last && sys'.heap == sys.heap &&
      if sys'.current < 0 then sys' == sys && forall i :: 1 <= i < |sys.tasks| ==> sys.tasks[i].state != READY
      else
        var n := sys'.current;
        1 <= n < |sys.tasks| && sys.tasks[n].state == READY && sys'.cpu == sys.last[n] &&
        (forall i :: 1 <= i < n ==> sys.tasks[i].state != READY) &&
        sys'.tasks == sys.tasks[n := sys.tasks[n].(state := RUNNING)]
  {
    hide Save, Heap.Canonical, Heap.HasBlock, LayoutOk;
    var sys' := Start(sys);
    if sys' != sys {
      var next := sys'.current;
      BootFramesKept(sys, l);
      assert Resumable(sys.mem, sys.tasks[next], sys.last[next]);
      assert StackAt(sys.heap, l.idleBase, 0, sys.tasks[0]);
      SwitchTables(sys, sys', l);
      forall i | 0 <= i < |sys'.tasks| && sys'.tasks[i].state == READY
        ensures Resumable(sys'.mem, sys'.tasks[i], sys'.last[i])
      {
        assert Resumable(sys.mem, sys.tasks[i], sys.last[i]);
      }
    }
  }

  /** The save that the first switch begins with keeps the frame of every waiting task. */
  lemma BootFramesKept(sys: Sys, l: Layout)
    requires Inv(sys, l) && sys.current == -1 && OnBootStack(sys, l)
    ensures forall i :: 0 <= i < |sys.tasks| && sys.tasks[i].state == READY ==>
      FrameAt(Save(sys.mem, sys.cpu.sp - FRAME, sys.cpu), sys.tasks[i].sp) == sys.last[i]
  {
    hide Save, FrameAt, Heap.Coalesced;
    Heap.TilesOrder(sys.heap, l.lo, l.hi);
    forall i | 0 <= i < |sys.tasks| && sys.tasks[i].state == READY
      ensures FrameAt(Save(sys.mem, sys.cpu.sp - FRAME, sys.cpu), sys.tasks[i].sp) == sys.last[i]
    {
      assert Resumable(sys.mem, sys.tasks[i], sys.last[i]);
      BaseNonZero(sys, l, i);
      StackBelow(sys, l, i);
      FrameElsewhere(sys.mem, sys.cpu, sys.tasks[i].sp);
    }
  }

  // ----- Running, creating, reclaiming -----

  /** A stretch of execution between calls of the scheduler, by the running task or, before `task_start`, by
      the kernel as it boots: any registers, any writes outside the other tasks' stacks. */
  ghost predicate Works(sys: Sys, cpu: Context, mem: Memory) {
    |cpu.s| == SAVED && (0 <= sys.current < |sys.tasks| ==> OnStack(cpu, sys.tasks[sys.current])) &&
    forall i :: 0 <= i < |sys.tasks| && i != sys.current && sys.tasks[i].base != 0 ==>
      SameStack(sys.mem, mem, sys.tasks[i])
  }

  ghost predicate SameStack(mem: Memory, mem': Memory, t: Task) {
    forall x: nat :: t.base <= x < t.base + t.size ==> Load(mem', x) == Load(mem, x)
  }

  lemma WorkKeeps(sys: Sys, l: Layout, cpu: Context, mem: Memory)
    requires Inv(sys, l) && Works(sys, cpu, mem)
    ensures Inv(sys.(cpu := cpu, mem := mem), l)
  {
    hide FrameAt, Load;
    forall i | 0 <= i < |sys.tasks| && sys.tasks[i].state == READY ensures Resumable(mem, sys.tasks[i], sys.last[i]) {
      assert Resumable(sys.mem, sys.tasks[i], sys.last[i]);
      BaseNonZero(sys, l, i);
      assert SameStack(sys.mem, mem, sys.tasks[i]);
      FrameUnchanged(sys.mem, mem, sys.tasks[i].sp);
    }
  }

  lemma {:induction false} ClearElsewhere(mem: Memory, a: nat, b: nat, x: nat)
    requires x < a || b <= x
    ensures Load(Clear(mem, a, b), x) == Load(mem, x)
    decreases b - a
  {
    if a < b { ClearElsewhere(mem[a := 0], a + 4, b, x); }
  }

  /** The block just allocated lies clear of every stack in use. */
  lemma FreshStackApart(sys: Sys, l: Layout, size: nat, i: nat)
    requires Tables(sys, l) && i < |sys.tasks| && size <= 0xFFFF_FFFC && Heap.Alloc(sys.heap, size).ptr != 0
    ensures var a := Heap.Alloc(sys.heap, size);
      Apart(sys.tasks[i], Task(0, READY, a.ptr, size)) && StackAt(a.blocks, l.idleBase, i, sys.tasks[i]) &&
      sys.tasks[i].base != a.ptr
  {
    hide Heap.Alloc, Heap.HasBlock;
    var a, t := Heap.Alloc(sys.heap, size), sys.tasks[i];
    FreshStack(sys.heap, size, l);
    Heap.AllocBlocks(sys.heap, size, l.lo, l.hi);
    Heap.BlockInside(a.blocks, a.ptr, size, l.lo, l.hi);
    assert StackAt(sys.heap, l.idleBase, i, t);
    if i > 0 && t.base != 0 { Heap.BlocksApart(a.blocks, t.base, t.size, a.ptr, size, l.lo, l.hi); }
  }

  lemma FreshStack(heap: seq<Heap.Block>, size: nat, l: Layout)
    requires Heap.Canonical(heap, l.lo, l.hi) && 0 < l.lo && size <= 0xFFFF_FFFC && Heap.Alloc(heap, size).ptr != 0
    ensures Heap.HasBlock(Heap.Alloc(heap, size).blocks, Heap.Alloc(heap, size).ptr, size)
    ensures Heap.Canonical(Heap.Alloc(heap, size).blocks, l.lo, l.hi)
  {
    Heap.AllocBlocks(heap, size, l.lo, l.hi);
    Heap.AllocEffect(heap, size, l.lo, l.hi);
    Heap.RoundUpCovers(size);
  }

  lemma CreateKeeps(sys: Sys, l: Layout, entry: nat, request: nat)
    requires Inv(sys, l) && request <= 0xFFFF_FFFC
    ensures Inv(Create(sys, entry, request).0, l)
    ensures var (sys', id) := Create(sys, entry, request);
      sys'.current == sys.current && sys'.cpu == sys.cpu &&
      (id >= 0 ==> id == |sys.tasks| && forall i :: 0 <= i < |sys.tasks| ==> sys.tasks[i].base != sys'.tasks[id].base)
  {
    hide Heap.Alloc, Heap.Canonical, Heap.HasBlock, StackAt, SetupStack, Resumable, EntryContext, OnStack;
    hide Heap.LivePointers;
    var size := StackSize(request);
    var a := Heap.Alloc(sys.heap, size);
    var (sys', id) := Create(sys, entry, request);
    if id >= 0 {
      var t := NewTask(a.ptr, size);
      FreshStack(sys.heap, size, l);
      forall i | 0 <= i < |sys.tasks|
        ensures StackAt(sys'.heap, l.idleBase, i, sys.tasks[i]) && Apart(sys.tasks[i], t) && sys.tasks[i].base != a.ptr
      {
        FreshStackApart(sys, l, size, i);
      }
      hide Apart;
      assert sys'.tasks == sys.tasks + [t];
      CreateTables(sys, sys', l, t);
      CreateFrames(sys, l, entry, a.ptr, size);
    }
  }

  lemma {:induction false} ClearZeros(mem: Memory, a: nat, b: nat, x: nat)
    requires a <= x < b && (x - a) % 4 == 0
    ensures Load(Clear(mem, a, b), x) == 0
    decreases b - a
  {
    if x == a { ClearElsewhere(mem[a := 0], a + 4, b, x); } else { ClearZeros(mem[a := 0], a + 4, b, x); }
  }

  /** A stack laid out for a first run: the frame at its top gives the entry, twelve zeros and the stack top;
      the words below it are clear, and nothing outside the stack has changed. */
  ghost predicate Laid(mem: Memory, mem': Memory, entry: nat, base: nat, size: nat)
    requires size >= 52
  {
    FrameAt(mem', base + size - 52) == Context(entry, [0, 0, 0, 0, 0, 0, 0, 0, 0, 0, 0, 0], base + size) &&
    (forall x: nat :: base <= x < base + size - 52 && (x - base) % 4 == 0 ==> Load(mem', x) == 0) &&
    (forall x: nat :: x < base || base + size <= x ==> Load(mem', x) == Load(mem, x))
  }

  lemma SetupLays(mem: Memory, entry: nat, base: nat, size: nat)
    requires size >= 52
    ensures Laid(mem, SetupStack(Clear(mem, base, base + size), entry, base, size), entry, base, size)
  {
    hide Save, Load, FrameAt, Clear;
    var cleared, c := Clear(mem, base, base + size), EntryContext(entry, base, size);
    SaveThenRestore(cleared, c);
    assert c.s == [0, 0, 0, 0, 0, 0, 0, 0, 0, 0, 0, 0];
    var mem' := SetupStack(cleared, entry, base, size);
    forall x: nat | x < base + size - 52 || base + size <= x ensures Load(mem', x) == Load(cleared, x) {
      SaveElsewhere(cleared, base + size - 52, c, x);
    }
    forall x: nat | base <= x < base + size - 52 && (x - base) % 4 == 0 ensures Load(mem', x) == 0 {
      ClearZeros(mem, base, base + size, x);
    }
    forall x: nat | x < base || base + size <= x ensures Load(mem', x) == Load(mem, x) {
      ClearElsewhere(mem, base, base + size, x);
    }
  }

  /** `task_init` leaves the idle task alone, READY on its 256 bytes. */
  lemma InitExact(idleEntry: nat, idleBase: nat, cpu: Context, mem: Memory, heap: seq<Heap.Block>)
    ensures var sys := Init(idleEntry, idleBase, cpu, mem, heap);
      sys.tasks == [Task(idleBase + 204, READY, idleBase, 256)] && sys.current == -1 && sys.cpu == cpu &&
      sys.heap == heap && Laid(mem, sys.mem, idleEntry, idleBase, 256)
  {
    SetupLays(mem, idleEntry, idleBase, 256);
  }

  /** A task is refused exactly when there are 16, or no room for its stack. Otherwise it gets the next slot,
      READY, on a stack of the size asked for, or of 2048 bytes when that was below 128. */
  lemma CreateExact(sys: Sys, l: Layout, entry: nat, request: nat)
    requires Heap.Canonical(sys.heap, l.lo, l.hi) && 0 < l.lo
    ensures var (sys', id), size := Create(sys, entry, request), if request < 128 then 2048 else request;
      var a := Heap.Alloc(sys.heap, size);
      (id == -1 <==> |sys.tasks| >= 16 || !exists x :: Heap.Room(sys.heap, l.lo, l.hi, x, Word32.RoundUp(size))) &&
      (id == -1 ==> sys' == sys) &&
      (id != -1 ==>
        id == |sys.tasks| && sys'.tasks == sys.tasks + [Task(a.ptr + size - 52, READY, a.ptr, size)] &&
        sys'.heap == a.blocks && sys'.current == sys.current && sys'.cpu == sys.cpu &&
        Laid(sys.mem, sys'.mem, entry, a.ptr, size))
  {
    hide Heap.Alloc, Heap.Canonical, Heap.Room, SetupStack, Clear, Laid, Word32.RoundUp;
    var size := StackSize(request);
    Heap.AllocFailsExactly(sys.heap, size, l.lo, l.hi);
    SetupLays(sys.mem, entry, Heap.Alloc(sys.heap, size).ptr, size);
  }

  lemma CreateFrames(sys: Sys, l: Layout, entry: nat, base: nat, size: nat)
    requires Inv(sys, l) && size >= FRAME && base != 0
    requires forall i :: 0 <= i < |sys.tasks| ==> Apart(sys.tasks[i], NewTask(base, size))
    ensures var mem := SetupStack(Clear(sys.mem, base, base + size), entry, base, size);
      (forall i :: 0 <= i < |sys.tasks| && sys.tasks[i].state == READY ==> Resumable(mem, sys.tasks[i], sys.last[i])) &&
      Resumable(mem, NewTask(base, size), EntryContext(entry, base, size))
  {
    var mem := SetupStack(Clear(sys.mem, base, base + size), entry, base, size);
    forall i | 0 <= i < |sys.tasks| && sys.tasks[i].state == READY ensures Resumable(mem, sys.tasks[i], sys.last[i]) {
      assert Resumable(sys.mem, sys.tasks[i], sys.last[i]);
      BaseNonZero(sys, l, i);
      CreateMemory(sys.mem, entry, base, size, sys.tasks[i].sp);
    }
    SaveThenRestore(Clear(sys.mem, base, base + size), EntryContext(entry, base, size));
  }

  /** Zeroing a new stack and laying its frame changes nothing outside it. */
  lemma CreateMemory(mem: Memory, entry: nat, base: nat, size: nat, at: nat)
    requires size >= FRAME && (at + FRAME <= base || base + size <= at)
    ensures FrameAt(SetupStack(Clear(mem, base, base + size), entry, base, size), at) == FrameAt(mem, at)
  {
    FrameElsewhere(Clear(mem, base, base + size), EntryContext(entry, base, size), at);
    forall x: nat | at <= x < at + FRAME ensures Load(Clear(mem, base, base + size), x) == Load(mem, x) {
      ClearElsewhere(mem, base, base + size, x);
    }
    FrameUnchanged(mem, Clear(mem, base, base + size), at);
  }

  lemma CreateTables(sys: Sys, sys': Sys, l: Layout, t: Task)
    requires Tables(sys, l) && |sys.tasks| < TASK_MAX && sys'.tasks == sys.tasks + [t]
    requires sys'.current == sys.current && |sys'.last| == |sys.last| + 1 && Heap.Canonical(sys'.heap, l.lo, l.hi)
    requires t.state == READY && t.base != 0 && t.size >= STACK_MIN && Heap.HasBlock(sys'.heap, t.base, t.size)
    requires forall i :: 0 <= i < |sys.tasks| ==>
      StackAt(sys'.heap, l.idleBase, i, sys.tasks[i]) && Apart(sys.tasks[i], t)
    ensures Tables(sys', l)
  {}
}
