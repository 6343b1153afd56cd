/** Whole runs of the scheduler: reclaiming, exact resumption, and bounded waiting. */
module SchedRuns {
  import Heap
  import Word32
  import opened ContextSwitch
  import opened SchedModel

  // ----- Reclaiming exited tasks -----

  /** The stacks the idle sweep releases, in order. */
  function ZombieStacks(tasks: seq<Task>, i: nat): seq<nat>
    requires i <= |tasks|
    decreases |tasks| - i
  {
    if i == |tasks| then []
    else (if tasks[i].state == ZOMBIE then [tasks[i].base] else []) + ZombieStacks(tasks, i + 1)
  }

  ghost predicate Distinct(ps: seq<nat>) {
    forall i, j :: 0 <= i < j < |ps| ==> ps[i] != ps[j]
  }

  function Buried(t: Task): Task {
    if t.state == ZOMBIE then t.(base := 0, state := EXIT) else t
  }

  lemma {:induction false} ZombieStacksAre(tasks: seq<Task>, i: nat)
    requires i <= |tasks|
    ensures forall p :: p in ZombieStacks(tasks, i) <==>
      exists k :: i <= k < |tasks| && tasks[k].state == ZOMBIE && tasks[k].base == p
    decreases |tasks| - i
  {
    if i < |tasks| {
      ZombieStacksAre(tasks, i + 1);
      forall p | p in ZombieStacks(tasks, i)
        ensures exists k :: i <= k < |tasks| && tasks[k].state == ZOMBIE && tasks[k].base == p
      {
        if p !in ZombieStacks(tasks, i + 1) {
          assert tasks[i].state == ZOMBIE && tasks[i].base == p;
        }
      }
    }
  }

  lemma {:induction false} ZombieStacksIgnore(tasks: seq<Task>, i: nat, k: nat, t: Task)
    requires k < i <= |tasks|
    ensures ZombieStacks(tasks[k := t], i) == ZombieStacks(tasks, i)
    decreases |tasks| - i
  {
    if i < |tasks| { ZombieStacksIgnore(tasks, i + 1, k, t); }
  }

  /** The sweep releases each waiting zombie's stack once and marks its slot. */
  lemma {:induction false} SweepEffect(tasks: seq<Task>, heap: seq<Heap.Block>, idleBase: nat, i: nat)
    requires i <= |tasks|
    requires forall k :: i <= k < |tasks| && tasks[k].state == ZOMBIE ==>
      k != 0 && tasks[k].base != 0 && tasks[k].base != idleBase
    ensures var r := ReclaimFrom(tasks, heap, idleBase, i);
      r.1 == Heap.FreeAll(heap, ZombieStacks(tasks, i)) &&
      forall k :: 0 <= k < |tasks| ==> r.0[k] == if k < i then tasks[k] else Buried(tasks[k])
    decreases |tasks| - i
  {
    hide Heap.Free, Heap.FreeAll, ReclaimFrom, ZombieStacks;
    SweepUnfolds(tasks, heap, idleBase, i);
    if i < |tasks| {
      if tasks[i].state == ZOMBIE {
        FreeAllCons(heap, tasks[i].base, ZombieStacks(tasks, i + 1));
        var tasks' := tasks[i := Buried(tasks[i])];
        SweepEffect(tasks', Heap.Free(heap, tasks[i].base), idleBase, i + 1);
        ZombieStacksIgnore(tasks, i + 1, i, tasks'[i]);
      } else {
        SweepEffect(tasks, heap, idleBase, i + 1);
      }
    } else {
      FreeAllNone(heap);
    }
  }

  lemma SweepUnfolds(tasks: seq<Task>, heap: seq<Heap.Block>, idleBase: nat, i: nat)
    requires i <= |tasks|
    requires i < |tasks| && tasks[i].state == ZOMBIE ==> i != 0 && tasks[i].base != 0 && tasks[i].base != idleBase
    ensures if i == |tasks| then ReclaimFrom(tasks, heap, idleBase, i) == (tasks, heap) && ZombieStacks(tasks, i) == []
            else if tasks[i].state == ZOMBIE then
              ReclaimFrom(tasks, heap, idleBase, i)
                == ReclaimFrom(tasks[i := Buried(tasks[i])], Heap.Free(heap, tasks[i].base), idleBase, i + 1) &&
              ZombieStacks(tasks, i) == [tasks[i].base] + ZombieStacks(tasks, i + 1)
            else
              ReclaimFrom(tasks, heap, idleBase, i) == ReclaimFrom(tasks, heap, idleBase, i + 1) &&
              ZombieStacks(tasks, i) == ZombieStacks(tasks, i + 1)
  {
    hide Heap.Free;
  }

  lemma FreeAllCons(heap: seq<Heap.Block>, p: nat, rest: seq<nat>)
    ensures Heap.FreeAll(heap, [p] + rest) == Heap.FreeAll(Heap.Free(heap, p), rest)
  {}

  lemma FreeAllNone(heap: seq<Heap.Block>)
    ensures Heap.FreeAll(heap, []) == heap
  {}

  lemma {:induction false} WithoutAllKeeps(live: seq<Heap.Block>, ptrs: set<nat>, b: Heap.Block)
    requires b in live && Heap.Payload(b) !in ptrs
    ensures b in Heap.WithoutAll(live, ptrs)
  {
    if b != live[0] { WithoutAllKeeps(live[1..], ptrs, b); }
  }

  lemma BlockSurvives(heap: seq<Heap.Block>, ptrs: seq<nat>, p: nat, n: nat, l: Layout)
    requires Heap.Canonical(heap, l.lo, l.hi) && 0 !in ptrs && p !in ptrs && Heap.HasBlock(heap, p, n)
    ensures Heap.HasBlock(Heap.FreeAll(heap, ptrs), p, n)
  {
    var b := Heap.BlockOf(heap, p, n);
    Heap.FreeAllEffect(heap, ptrs, l.lo, l.hi);
    WithoutAllKeeps(Heap.Live(heap), Heap.Elements(ptrs), b);
    Heap.IsBlock(Heap.FreeAll(heap, ptrs), b, n);
  }

  /** Every stack the sweep releases is live, is released once, and belongs to no task that can run. */
  lemma ReclaimSafe(sys: Sys, l: Layout)
    requires Inv(sys, l)
    ensures var ps := ZombieStacks(sys.tasks, 0);
      Reclaim(sys, l.idleBase).heap == Heap.FreeAll(sys.heap, ps) && 0 !in ps &&
      (forall p :: p in ps ==> Heap.IsLive(sys.heap, p)) &&
      Distinct(ps) &&
      forall i :: 0 <= i < |sys.tasks| && sys.tasks[i].state in {READY, RUNNING} ==> sys.tasks[i].base !in ps
  {
    ZombiesOwn(sys, l);
    SweepEffect(sys.tasks, sys.heap, l.idleBase, 0);
    ZombieStacksAre(sys.tasks, 0);
    forall p | p in ZombieStacks(sys.tasks, 0) ensures Heap.IsLive(sys.heap, p) {
      var k :| 0 <= k < |sys.tasks| && sys.tasks[k].state == ZOMBIE && sys.tasks[k].base == p;
      assert StackAt(sys.heap, l.idleBase, k, sys.tasks[k]);
    }
    ZombieStacksDistinct(sys, l, 0);
    forall i | 0 <= i < |sys.tasks| && sys.tasks[i].state in {READY, RUNNING}
      ensures sys.tasks[i].base !in ZombieStacks(sys.tasks, 0)
    {
      if sys.tasks[i].base in ZombieStacks(sys.tasks, 0) {
        var k :| 0 <= k < |sys.tasks| && sys.tasks[k].state == ZOMBIE && sys.tasks[k].base == sys.tasks[i].base;
        DistinctStacks(sys, l, i, k);
      }
    }
  }

  lemma DistinctStacks(sys: Sys, l: Layout, i: nat, j: nat)
    requires Inv(sys, l) && i < |sys.tasks| && j < |sys.tasks| && i != j && sys.tasks[i].state != EXIT
    ensures sys.tasks[i].base != sys.tasks[j].base
  {}

  lemma ZombiesOwn(sys: Sys, l: Layout)
    requires Inv(sys, l)
    ensures forall k :: 0 <= k < |sys.tasks| && sys.tasks[k].state == ZOMBIE ==>
      k != 0 && sys.tasks[k].base != 0 && sys.tasks[k].base != l.idleBase
  {
    assert StackAt(sys.heap, l.idleBase, 0, sys.tasks[0]);
    forall k | 0 <= k < |sys.tasks| && sys.tasks[k].state == ZOMBIE
      ensures k != 0 && sys.tasks[k].base != 0 && sys.tasks[k].base != l.idleBase
    {
      DistinctStacks(sys, l, 0, k);
      BaseNonZero(sys, l, k);
    }
  }

  lemma {:induction false} ZombieStacksDistinct(sys: Sys, l: Layout, i: nat)
    requires Inv(sys, l) && i <= |sys.tasks|
    ensures Distinct(ZombieStacks(sys.tasks, i))
    decreases |sys.tasks| - i
  {
    if i < |sys.tasks| {
      ZombieStacksDistinct(sys, l, i + 1);
      ZombieStacksAre(sys.tasks, i + 1);
      var rest := ZombieStacks(sys.tasks, i + 1);
      var p := sys.tasks[i].base;
      if sys.tasks[i].state == ZOMBIE {
        if p in rest {
          var k :| i + 1 <= k < |sys.tasks| && sys.tasks[k].state == ZOMBIE && sys.tasks[k].base == p;
          DistinctStacks(sys, l, i, k);
        }
        PrependDistinct(p, rest);
      } else {
        assert ZombieStacks(sys.tasks, i) == rest;
      }
    }
  }

  lemma PrependDistinct(p: nat, rest: seq<nat>)
    requires p !in rest && Distinct(rest)
    ensures Distinct([p] + rest)
  {}

  lemma {:induction false} NoZombies(tasks: seq<Task>, i: nat)
    requires i <= |tasks| && forall k :: i <= k < |tasks| ==> tasks[k].state != ZOMBIE
    ensures ZombieStacks(tasks, i) == []
    decreases |tasks| - i
  {
    if i < |tasks| { NoZombies(tasks, i + 1); }
  }

  lemma ReclaimStacks(sys: Sys, l: Layout)
    requires Inv(sys, l)
    ensures var heap := Heap.FreeAll(sys.heap, ZombieStacks(sys.tasks, 0));
      Heap.Canonical(heap, l.lo, l.hi) &&
      forall i :: 0 <= i < |sys.tasks| ==> StackAt(heap, l.idleBase, i, Buried(sys.tasks[i]))
  {
    hide Heap.Canonical, Heap.HasBlock, Heap.FreeAll, Resumable;
    var ps := ZombieStacks(sys.tasks, 0);
    ReclaimSafe(sys, l);
    Heap.FreeAllEffect(sys.heap, ps, l.lo, l.hi);
    forall i | 0 <= i < |sys.tasks| ensures StackAt(Heap.FreeAll(sys.heap, ps), l.idleBase, i, Buried(sys.tasks[i])) {
      assert StackAt(sys.heap, l.idleBase, i, sys.tasks[i]);
      if i > 0 && sys.tasks[i].state != ZOMBIE && sys.tasks[i].base != 0 {
        assert sys.tasks[i].state in {READY, RUNNING};
        BlockSurvives(sys.heap, ps, sys.tasks[i].base, sys.tasks[i].size, l);
      }
    }
  }

  lemma ReclaimKeeps(sys: Sys, l: Layout)
    requires Inv(sys, l)
    ensures var r := Reclaim(sys, l.idleBase);
      Inv(r, l) && r.cpu == sys.cpu && r.mem == sys.mem && r.current == sys.current && r.last == sys.last
    ensures forall i :: 0 <= i < |sys.tasks| ==> Reclaim(sys, l.idleBase).tasks[i] == Buried(sys.tasks[i])
    ensures ZombieStacks(Reclaim(sys, l.idleBase).tasks, 0) == []
  {
    hide ReclaimFrom, Heap.Canonical, Heap.HasBlock, Heap.FreeAll, Resumable, StackAt, Apart, OnStack;
    var sys' := Reclaim(sys, l.idleBase);
    ZombiesOwn(sys, l);
    SweepEffect(sys.tasks, sys.heap, l.idleBase, 0);
    ReclaimStacks(sys, l);
    forall i, j | 0 <= i < j < |sys'.tasks|
      ensures Apart(sys'.tasks[i], sys'.tasks[j])
    {
      BuriedApart(sys.tasks[i], sys.tasks[j]);
    }
    forall i | 0 <= i < |sys'.tasks| && sys'.tasks[i].state == READY
      ensures Resumable(sys'.mem, sys'.tasks[i], sys'.last[i])
    {
      assert sys'.tasks[i] == sys.tasks[i];
    }
    NoZombies(sys'.tasks, 0);
  }

  lemma BuriedApart(t: Task, u: Task)
    requires Apart(t, u)
    ensures Apart(Buried(t), Buried(u))
  {}

  // ----- Starting up -----

  lemma InitHolds(l: Layout, idleEntry: nat, cpu: Context, mem: Memory, heap: seq<Heap.Block>)
    requires LayoutOk(l) && Heap.Canonical(heap, l.lo, l.hi)
    ensures Inv(Init(idleEntry, l.idleBase, cpu, mem, heap), l)
  {
    SaveThenRestore(Clear(mem, l.idleBase, l.idleBase + IDLE_STACK), EntryContext(idleEntry, l.idleBase, IDLE_STACK));
  }

  // ----- Events -----

  datatype Event =
    | InitTasks(entry: nat)               // task_init
    | Work(cpu: Context, mem: Memory)     // the running task, or the kernel as it boots, computes
    | CreateTask(entry: nat, request: nat)
    | StartTasks
    | YieldNow
    | ExitNow
    | ReclaimNow                          // one pass of the idle loop
    | TakeBlock(request: nat)             // the rest of the kernel allocates
    | ReleaseBlock(ptr: nat)              // and releases what it allocated

  /** What the callers see to: the scheduler is set up once and started once from the boot stack, tasks stay on
      their stacks, only other tasks than idle exit, and nobody else releases a stack. */
  ghost predicate Enabled(sys: Sys, l: Layout, e: Event) {
    match e
    case InitTasks(_) => sys.tasks == []
    case Work(cpu, mem) => Works(sys, cpu, mem)
    case CreateTask(_, request) => sys.tasks != [] && request <= 0xFFFF_FFFC
    case StartTasks => sys.tasks != [] && sys.current == -1 && OnBootStack(sys, l)
    case YieldNow => 0 <= sys.current < |sys.tasks| && CanCall(sys) && OtherReady(sys)
    case ExitNow => 0 < sys.current < |sys.tasks| && CanCall(sys)
    case ReclaimNow => sys.current == 0
    case TakeBlock(_) => true
    case ReleaseBlock(ptr) =>
      Heap.IsLive(sys.heap, ptr) && forall i :: 0 <= i < |sys.tasks| ==> sys.tasks[i].base != ptr
  }

  predicate Shaped(sys: Sys) {
    sys.current < |sys.tasks| == |sys.last| && |sys.cpu.s| == SAVED && sys.cpu.sp >= FRAME
  }

  function Step(sys: Sys, l: Layout, e: Event): Sys {
    match e
    case InitTasks(entry) => Init(entry, l.idleBase, sys.cpu, sys.mem, sys.heap)
    case Work(cpu, mem) => sys.(cpu := cpu, mem := mem)
    case CreateTask(entry, request) => Create(sys, entry, request).0
    case StartTasks => if Shaped(sys) then Start(sys) else sys
    case YieldNow => if Shaped(sys) then Yield(sys) else sys
    case ExitNow => if Shaped(sys) && Exit(sys).Goes? then Exit(sys).sys else sys
    case ReclaimNow => Reclaim(sys, l.idleBase)
    case TakeBlock(request) => sys.(heap := Heap.Alloc(sys.heap, request).blocks)
    case ReleaseBlock(ptr) => sys.(heap := Heap.Free(sys.heap, ptr))
  }

  predicate Switches(e: Event) { e.YieldNow? || e.ExitNow? }

  /** Before `task_init` there is only the heap. */
  ghost predicate Blank(sys: Sys, l: Layout) {
    LayoutOk(l) && Heap.Canonical(sys.heap, l.lo, l.hi) && sys.tasks == [] && sys.last == [] && sys.current == -1 &&
    |sys.cpu.s| == SAVED
  }

  ghost predicate Safe(sys: Sys, l: Layout) { if sys.tasks == [] then Blank(sys, l) else Inv(sys, l) }

  /** What `mm_init` leaves. */
  ghost predicate Boots(sys: Sys, l: Layout) {
    LayoutOk(l) && l.lo + Heap.HEADER <= l.hi && (l.hi - l.lo) % 4 == 0 && sys.heap == Heap.Initial(l.lo, l.hi) &&
    sys.tasks == [] && sys.last == [] && sys.current == -1 && |sys.cpu.s| == SAVED
  }

  lemma BootsSafe(sys: Sys, l: Layout)
    requires Boots(sys, l)
    ensures Safe(sys, l)
  {
    assert sys.heap[1..] == [];
    assert Heap.Tiles(sys.heap, l.lo, l.hi);
    assert Heap.Canonical(sys.heap, l.lo, l.hi);
  }

  // ----- One step -----

  /** A task that gets the CPU gets the context remembered for it, and the one that gave it up is remembered;
      otherwise nothing remembered changes. */
  ghost predicate HandsOver(sys: Sys, sys': Sys) {
    if sys'.current == sys.current then |sys.last| <= |sys'.last| && sys'.last[..|sys.last|] == sys.last
    else
      0 <= sys'.current < |sys.last| && sys.current < |sys.last| && sys'.cpu == sys.last[sys'.current] &&
      sys'.last == if sys.current >= 0 then sys.last[sys.current := sys.cpu] else sys.last
  }

  /** The entries of waiting tasks change only by being given the CPU. */
  ghost predicate WaitersKept(sys: Sys, sys': Sys) {
    |sys.tasks| <= |sys'.tasks| &&
    forall i :: 0 <= i < |sys.tasks| && sys.tasks[i].state == READY && i != sys'.current ==>
      sys'.tasks[i] == sys.tasks[i]
  }

  ghost predicate Good(sys: Sys, l: Layout, e: Event, sys': Sys) {
    Safe(sys', l) && HandsOver(sys, sys') && WaitersKept(sys, sys') && (sys.current >= 0 ==> sys'.current >= 0) &&
    (Switches(e) ==> sys'.current != sys.current)
  }

  /** The rest of the kernel leaves the stacks' blocks alone. */
  ghost predicate StacksKept(sys: Sys, heap: seq<Heap.Block>) {
    forall i :: 1 <= i < |sys.tasks| && sys.tasks[i].base != 0 ==>
      Heap.HasBlock(heap, sys.tasks[i].base, sys.tasks[i].size)
  }

  lemma HeapKeeps(sys: Sys, l: Layout, heap: seq<Heap.Block>)
    requires Safe(sys, l) && Heap.Canonical(heap, l.lo, l.hi) && StacksKept(sys, heap)
    ensures Safe(sys.(heap := heap), l)
  {
    hide Heap.Canonical, Heap.HasBlock, Apart, Resumable;
    if sys.tasks != [] {
      forall i | 0 <= i < |sys.tasks| ensures StackAt(heap, l.idleBase, i, sys.tasks[i]) {
        assert StackAt(sys.heap, l.idleBase, i, sys.tasks[i]);
      }
    }
  }

  lemma CarriedStacks(sys: Sys, l: Layout, heap: seq<Heap.Block>, released: set<nat>)
    requires Safe(sys, l) && Heap.Carried(sys.heap, heap, released)
    requires forall i :: 1 <= i < |sys.tasks| && sys.tasks[i].base != 0 ==> sys.tasks[i].base !in released
    ensures StacksKept(sys, heap)
  {
    hide Heap.HasBlock;
    forall i | 1 <= i < |sys.tasks| && sys.tasks[i].base != 0
      ensures Heap.HasBlock(heap, sys.tasks[i].base, sys.tasks[i].size)
    {
      assert StackAt(sys.heap, l.idleBase, i, sys.tasks[i]);
    }
  }

  lemma SafeHeap(sys: Sys, l: Layout)
    requires Safe(sys, l)
    ensures Heap.Canonical(sys.heap, l.lo, l.hi) && 0 < l.lo
  {}

  lemma HeapEventGood(sys: Sys, l: Layout, e: Event)
    requires Safe(sys, l) && Enabled(sys, l, e) && (e.TakeBlock? || e.ReleaseBlock?)
    ensures Good(sys, l, e, Step(sys, l, e))
  {
    hide Inv, Blank, Heap.Alloc, Heap.Free, Heap.Canonical, StacksKept, Heap.Carried;
    SafeHeap(sys, l);
    var heap := Step(sys, l, e).heap;
    if e.TakeBlock? {
      Heap.AllocEffect(sys.heap, e.request, l.lo, l.hi);
      Heap.AllocBlocks(sys.heap, e.request, l.lo, l.hi);
      CarriedStacks(sys, l, heap, {});
    } else {
      Heap.FreeEffect(sys.heap, e.ptr, l.lo, l.hi);
      Heap.FreeBlocks(sys.heap, e.ptr, l.lo, l.hi);
      CarriedStacks(sys, l, heap, {e.ptr});
    }
    HeapKeeps(sys, l, heap);
  }

  lemma WorkGood(sys: Sys, l: Layout, e: Event)
    requires Safe(sys, l) && Enabled(sys, l, e) && e.Work?
    ensures Good(sys, l, e, Step(sys, l, e))
  {
    hide Inv, Works;
    if sys.tasks != [] { WorkKeeps(sys, l, e.cpu, e.mem); } else { BlankWorks(sys, l, e); }
  }

  lemma BlankWorks(sys: Sys, l: Layout, e: Event)
    requires Blank(sys, l) && e.Work? && Works(sys, e.cpu, e.mem)
    ensures Blank(sys.(cpu := e.cpu, mem := e.mem), l)
  {}

  lemma SwitchGood(sys: Sys, l: Layout, e: Event)
    requires Inv(sys, l) && Enabled(sys, l, e) && Switches(e)
    ensures Good(sys, l, e, Step(sys, l, e))
  {
    hide Tables, OneRuns, AllResumable, NextReady, Save, FrameAt;
    InvShape(sys, l);
    if e.YieldNow? { YieldExact(sys, l); } else { ExitExact(sys, l); }
    InvShape(Step(sys, l, e), l);
  }

  lemma InvShape(sys: Sys, l: Layout)
    requires Inv(sys, l)
    ensures 1 <= |sys.tasks| == |sys.last| && -1 <= sys.current < |sys.tasks|
    ensures sys.current >= 0 ==> |sys.cpu.s| == SAVED && sys.tasks[sys.current].state == RUNNING
    ensures sys.current > 0 && CanCall(sys) ==> sys.cpu.sp >= FRAME
    ensures sys.current == 0 && CanCall(sys) ==> sys.cpu.sp >= FRAME
  {}

  lemma StartGood(sys: Sys, l: Layout, e: Event)
    requires Inv(sys, l) && Enabled(sys, l, e) && e.StartTasks?
    ensures Good(sys, l, e, Step(sys, l, e))
  {
    hide Tables, OneRuns, AllResumable, Save, FrameAt;
    InvShape(sys, l);
    StartExact(sys, l);
    InvShape(Start(sys), l);
  }

  lemma ReclaimGood(sys: Sys, l: Layout, e: Event)
    requires Inv(sys, l) && Enabled(sys, l, e) && e.ReclaimNow?
    ensures Good(sys, l, e, Step(sys, l, e))
  {
    hide Inv, ReclaimFrom, ZombieStacks;
    InvShape(sys, l);
    ReclaimKeeps(sys, l);
  }

  lemma CreateGood(sys: Sys, l: Layout, e: Event)
    requires Inv(sys, l) && Enabled(sys, l, e) && e.CreateTask?
    ensures Good(sys, l, e, Step(sys, l, e))
  {
    hide Inv, Heap.Alloc, SetupStack, Clear;
    InvShape(sys, l);
    CreateKeeps(sys, l, e.entry, e.request);
  }

  lemma InitGood(sys: Sys, l: Layout, e: Event)
    requires Blank(sys, l) && e.InitTasks?
    ensures Good(sys, l, e, Step(sys, l, e))
  {
    hide Inv, SetupStack, Clear;
    InitHolds(l, e.entry, sys.cpu, sys.mem, sys.heap);
  }

  /** One step keeps the invariant and hands the CPU over exactly. */
  lemma StepSafe(sys: Sys, l: Layout, e: Event)
    requires Safe(sys, l) && Enabled(sys, l, e)
    ensures Good(sys, l, e, Step(sys, l, e))
  {
    hide Inv, Blank, Good, Step;
    match e {
      case InitTasks(_) => InitGood(sys, l, e);
      case Work(_, _) => WorkGood(sys, l, e);
      case CreateTask(_, _) => CreateGood(sys, l, e);
      case StartTasks => StartGood(sys, l, e);
      case YieldNow => SwitchGood(sys, l, e);
      case ExitNow => SwitchGood(sys, l, e);
      case ReclaimNow => BlankIdle(sys, l); ReclaimGood(sys, l, e);
      case TakeBlock(_) => HeapEventGood(sys, l, e);
      case ReleaseBlock(_) => HeapEventGood(sys, l, e);
    }
  }

  lemma BlankIdle(sys: Sys, l: Layout)
    requires Safe(sys, l) && sys.current >= 0
    ensures Inv(sys, l)
  {}

  // ----- Runs -----

  ghost predicate Moves(sys: Sys, l: Layout, e: Event, sys': Sys) { Enabled(sys, l, e) && sys' == Step(sys, l, e) }

  /** A run from `mm_init`. */
  ghost predicate Trace(states: seq<Sys>, events: seq<Event>, l: Layout) {
    |states| == |events| + 1 && Boots(states[0], l) &&
    forall k :: 0 <= k < |events| ==> Moves(states[k], l, events[k], states[k + 1])
  }

  /** Every state of every run is safe: once tasks exist, exactly the current one runs, on its own stack, every
      waiting one can be resumed where it left off, and idle is waiting or running. */
  lemma {:induction false} EveryStateSafe(states: seq<Sys>, events: seq<Event>, l: Layout, k: nat)
    requires Trace(states, events, l) && k <= |events|
    ensures Safe(states[k], l)
  {
    hide Safe, Enabled, Step, Boots;
    if k == 0 {
      BootsSafe(states[0], l);
    } else {
      EveryStateSafe(states, events, l, k - 1);
      assert Moves(states[k - 1], l, events[k - 1], states[k]);
      StepSafe(states[k - 1], l, events[k - 1]);
    }
  }

  lemma StepAt(states: seq<Sys>, events: seq<Event>, l: Layout, k: nat)
    requires Trace(states, events, l) && k < |events|
    ensures Safe(states[k], l) && Enabled(states[k], l, events[k]) && states[k + 1] == Step(states[k], l, events[k])
    ensures Good(states[k], l, events[k], states[k + 1])
  {
    hide Safe, Enabled, Step, Boots, Good;
    EveryStateSafe(states, events, l, k);
    assert Moves(states[k], l, events[k], states[k + 1]);
    StepSafe(states[k], l, events[k]);
  }

  /** Once a task runs, one always does. */
  lemma {:induction false} RunsOn(states: seq<Sys>, events: seq<Event>, l: Layout, m: nat, k: nat)
    requires Trace(states, events, l) && m <= k <= |events| && states[m].current >= 0
    ensures states[k].current >= 0
  {
    hide Trace, Safe, Enabled, Step;
    if m < k {
      RunsOn(states, events, l, m, k - 1);
      StepAt(states, events, l, k - 1);
    }
  }

  /** While task `j` is not the one switched out, what is remembered of it does not change. */
  lemma {:induction false} LastStays(states: seq<Sys>, events: seq<Event>, l: Layout, m: nat, k: nat, j: nat)
    requires Trace(states, events, l) && m <= k <= |events| && j < |states[m].last|
    requires forall q :: m <= q < k ==> states[q].current != j
    ensures j < |states[k].last| && states[k].last[j] == states[m].last[j]
  {
    hide Boots, Moves, Safe, Enabled, Step;
    if m < k {
      LastStays(states, events, l, m, k - 1, j);
      StepAt(states, events, l, k - 1);
      var sys, sys' := states[k - 1], states[k];
      if sys'.current == sys.current { assert sys'.last[j] == sys'.last[..|sys.last|][j]; }
    }
  }

  /** A task switched out at step `m` and next switched in at step `k` finds ra, s0..s11 and sp exactly
      as they were. */
  lemma ResumedAsLeft(states: seq<Sys>, events: seq<Event>, l: Layout, m: nat, k: nat, j: nat)
    requires Trace(states, events, l) && m < k < |events|
    requires states[m].current == j && states[m + 1].current != j
    requires forall q :: m < q <= k ==> states[q].current != j
    requires states[k + 1].current == j
    ensures states[k + 1].cpu == states[m].cpu
  {
    hide Trace, Safe, Enabled, Step;
    StepAt(states, events, l, m);
    LastStays(states, events, l, m + 1, k, j);
    StepAt(states, events, l, k);
  }

  /** Step `m` makes task `j`, to start at `entry`: `task_init` or `task_create`. */
  ghost predicate Made(states: seq<Sys>, events: seq<Event>, m: nat, j: nat, entry: nat)
    requires |states| == |events| + 1
  {
    m < |events| && |states[m].tasks| == j && |states[m + 1].tasks| == j + 1 &&
    (events[m].InitTasks? || events[m].CreateTask?) && events[m].entry == entry
  }

  /** A task that has never had the CPU waits to be started at its entry, at the top of its stack. */
  ghost predicate Waits(sys: Sys, j: nat, entry: nat) {
    j < |sys.tasks| == |sys.last| && sys.tasks[j].state == READY &&
    sys.last[j] == EntryContext(entry, sys.tasks[j].base, sys.tasks[j].size)
  }

  lemma Newcomer(sys: Sys, l: Layout, e: Event)
    requires Safe(sys, l) && Enabled(sys, l, e) && |Step(sys, l, e).tasks| > |sys.tasks|
    ensures (e.InitTasks? || e.CreateTask?) && |Step(sys, l, e).tasks| == |sys.tasks| + 1
    ensures Waits(Step(sys, l, e), |sys.tasks|, e.entry)
  {
    hide Heap.Alloc, Heap.Free, SetupStack, Clear, NextReady, FirstReady, Save, FrameAt, ReclaimFrom, Heap.Canonical;
    if sys.tasks != [] { InvShape(sys, l); }
  }

  lemma {:induction false} WaitsSinceMade(states: seq<Sys>, events: seq<Event>, l: Layout, k: nat, j: nat)
    returns (m: nat, entry: nat)
    requires Trace(states, events, l) && k <= |events| && j < |states[k].tasks|
    requires forall q :: 0 <= q <= k ==> states[q].current != j
    ensures m < k && Made(states, events, m, j, entry) && Waits(states[k], j, entry)
  {
    hide Boots, Moves, Enabled, Step, Safe, Good, Waits;
    NoTasksYet(states, events, l);
    var sys := states[k - 1];
    StepAt(states, events, l, k - 1);
    if j < |sys.tasks| {
      m, entry := WaitsSinceMade(states, events, l, k - 1, j);
      StillWaits(sys, l, events[k - 1], states[k], j, entry);
    } else {
      Newcomer(sys, l, events[k - 1]);
      m, entry := k - 1, events[k - 1].entry;
    }
  }

  lemma NoTasksYet(states: seq<Sys>, events: seq<Event>, l: Layout)
    requires Trace(states, events, l)
    ensures states[0].tasks == []
  {}

  lemma StillWaits(sys: Sys, l: Layout, e: Event, sys': Sys, j: nat, entry: nat)
    requires Waits(sys, j, entry) && Good(sys, l, e, sys') && sys'.current != j && sys.current != j
    ensures Waits(sys', j, entry)
  {
    hide Inv;
    if sys'.tasks != [] { SafeShape(sys', l); }
    if sys'.current == sys.current { assert sys'.last[j] == sys'.last[..|sys.last|][j]; }
  }

  lemma SafeShape(sys: Sys, l: Layout)
    requires Safe(sys, l)
    ensures |sys.tasks| == |sys.last|
  {}

  /** Every task, idle and those made before `task_start` included, first runs at its entry with sp at the top of
      its stack, whatever happened before. */
  lemma StartsAtEntry(states: seq<Sys>, events: seq<Event>, l: Layout, k: nat, j: nat) returns (m: nat, entry: nat)
    requires Trace(states, events, l) && k < |events|
    requires (forall q :: 0 <= q <= k ==> states[q].current != j) && states[k + 1].current == j
    ensures m < k && Made(states, events, m, j, entry) && j < |states[k].tasks|
    ensures states[k + 1].cpu == EntryContext(entry, states[k].tasks[j].base, states[k].tasks[j].size)
  {
    hide Boots, Moves, Enabled, Step, Inv;
    StepAt(states, events, l, k);
    SafeShape(states[k], l);
    m, entry := WaitsSinceMade(states, events, l, k, j);
  }

  // ----- Bounded waiting -----

  lemma DistanceShrinks(a: nat, b: nat, j: nat, n: nat)
    requires a < n && b < n && j < n && b != j && j != a && b != a && Distance(a, b, n) <= Distance(a, j, n)
    ensures Distance(b, j, n) < Distance(a, j, n)
  {
    DistanceReaches(a, b, n);
    DistanceReaches(a, j, n);
    DistanceReaches(b, j, n);
  }

  /** A switch either runs the waiting task `j` or brings the turn strictly closer to it. */
  lemma StepTowards(sys: Sys, l: Layout, e: Event, j: nat)
    requires Inv(sys, l) && sys.current >= 0 && Enabled(sys, l, e) && !e.CreateTask?
    requires j < |sys.tasks| && j != sys.current && sys.tasks[j].state == READY
    ensures Nearer(sys, e, Step(sys, l, e), j)
  {
    StepSafe(sys, l, e);
    InvShape(sys, l);
    if Switches(e) {
      SwitchNearer(sys, l, e, j);
    } else {
      OthersStay(sys, l, e);
    }
  }

  ghost predicate Nearer(sys: Sys, e: Event, sys': Sys, j: nat)
    requires j < |sys.tasks|
  {
    |sys'.tasks| == |sys.tasks| &&
    (sys'.current == j ||
     (sys'.tasks[j].state == READY &&
      if Switches(e) then Distance(sys'.current, j, |sys.tasks|) < Distance(sys.current, j, |sys.tasks|)
      else sys'.current == sys.current))
  }

  lemma SwitchNearer(sys: Sys, l: Layout, e: Event, j: nat)
    requires Inv(sys, l) && Enabled(sys, l, e) && Switches(e)
    requires j < |sys.tasks| && j != sys.current && sys.tasks[j].state == READY
    ensures Nearer(sys, e, Step(sys, l, e), j)
  {
    hide Tables, OneRuns, AllResumable, NextReady, Save, FrameAt, Distance;
    InvShape(sys, l);
    var prev := sys.current;
    var tasks := sys.tasks[prev := sys.tasks[prev].(state := if e.YieldNow? then READY else ZOMBIE)];
    OthersBeforeSelf(tasks, prev, j);
    var next := NextReady(tasks, prev, 1);
    if next != j { DistanceShrinks(prev, next, j, |tasks|); }
  }

  lemma OthersStay(sys: Sys, l: Layout, e: Event)
    requires Inv(sys, l) && sys.current >= 0 && Enabled(sys, l, e) && !e.CreateTask? && !Switches(e)
    ensures Step(sys, l, e).current == sys.current && |Step(sys, l, e).tasks| == |sys.tasks|
    ensures forall i :: 0 <= i < |sys.tasks| && sys.tasks[i].state == READY ==> Step(sys, l, e).tasks[i].state == READY
  {
    hide Tables, OneRuns, AllResumable, ReclaimFrom, Heap.Alloc, Heap.Free, Init, ZombieStacks;
    InvShape(sys, l);
    ReclaimKeeps(sys, l);
  }

  function SwitchCount(events: seq<Event>, m: nat, n: nat): nat
    requires m <= n <= |events|
    decreases n - m
  {
    if m == n then 0 else (if Switches(events[m]) then 1 else 0) + SwitchCount(events, m + 1, n)
  }

  /** With no task made meanwhile, a READY task runs after at most Distance, hence at most task_count - 1,
      switches. */
  lemma {:induction false} RunsInTurn(states: seq<Sys>, events: seq<Event>, l: Layout, m: nat, n: nat, j: nat)
    returns (q: nat)
    requires Trace(states, events, l) && m <= n <= |events| && forall k :: m <= k < n ==> !events[k].CreateTask?
    requires 0 <= states[m].current && j < |states[m].tasks| && j != states[m].current &&
      states[m].tasks[j].state == READY
    requires SwitchCount(events, m, n) >= Distance(states[m].current, j, |states[m].tasks|)
    ensures m < q <= n && states[q].current == j
    ensures Distance(states[m].current, j, |states[m].tasks|) <= |states[m].tasks| - 1
    decreases n - m
  {
    var sys := states[m];
    EveryStateSafe(states, events, l, m);
    BlankIdle(sys, l);
    InvShape(sys, l);
    DistanceReaches(sys.current, j, |sys.tasks|);
    StepAt(states, events, l, m);
    StepTowards(sys, l, events[m], j);
    hide Trace, Enabled, Step, Inv, Distance;
    if states[m + 1].current == j {
      q := m + 1;
    } else {
      q := RunsInTurn(states, events, l, m + 1, n, j);
    }
  }

  // ----- A task that is alone -----

  /** Idle is the only task left and about to yield, from another depth than its entry. */
  ghost predicate Alone(sys: Sys, l: Layout) {
    Inv(sys, l) && sys.current == 0 && |sys.tasks| == 2 && CanCall(sys) && !OtherReady(sys) &&
    sys.tasks[0].sp == l.idleBase + IDLE_STACK - FRAME && sys.cpu.sp == l.idleBase + IDLE_STACK - 64
  }

  lemma AloneGoesAstray(sys: Sys, l: Layout)
    requires Alone(sys, l)
    ensures Yield(sys).cpu != sys.cpu
  {
    hide Yield, Tables, AllResumable;
    LoneYieldExactly(sys, l);
  }

  lemma OneTaskMade(sys: Sys, l: Layout, idle: nat, entry: nat)
    requires Boots(sys, l) && l.lo + Heap.HEADER + 4096 <= l.hi
    ensures Init(idle, l.idleBase, sys.cpu, sys.mem, sys.heap).tasks != []
    ensures var s := Create(Init(idle, l.idleBase, sys.cpu, sys.mem, sys.heap), entry, 4096).0;
      s.current == -1 && s.cpu == sys.cpu && |s.tasks| == 2 && s.tasks[1].state == READY &&
      s.tasks[0] == NewTask(l.idleBase, IDLE_STACK) && s.last[1].sp == s.tasks[1].base + 4096
  {
    assert Heap.FirstFit(sys.heap, Word32.RoundUp(4096)) == 0;
    hide SetupStack, Clear;
  }

  lemma OnlyTaskStarts(sys: Sys, l: Layout)
    requires Inv(sys, l) && OnBootStack(sys, l) && sys.current == -1 && |sys.tasks| == 2 && sys.tasks[1].state == READY
    ensures var s := Start(sys);
      s.current == 1 && s.tasks[0] == sys.tasks[0] && s.tasks[1].base == sys.tasks[1].base && |s.tasks| == 2
  {
    hide Save, FrameAt, Inv;
    InvShape(sys, l);
    assert FirstReady(sys.tasks, 1) == 1;
  }

  lemma OnlyTaskExits(sys: Sys, l: Layout)
    requires Inv(sys, l) && sys.current == 1 && |sys.tasks| == 2 && CanCall(sys)
    ensures Exit(sys).Goes? && Exit(sys).sys.current == 0 && Exit(sys).sys.tasks[0].sp == sys.tasks[0].sp
    ensures |Exit(sys).sys.tasks| == 2 && Exit(sys).sys.tasks[1].state == ZOMBIE
  {
    hide Save, FrameAt, Tables, AllResumable;
    InvShape(sys, l);
    ExitExact(sys, l);
    InvShape(Exit(sys).sys, l);
  }

  lemma Extend(states: seq<Sys>, events: seq<Event>, l: Layout, e: Event)
    returns (states': seq<Sys>, events': seq<Event>)
    requires Trace(states, events, l) && Enabled(states[|events|], l, e)
    ensures Trace(states', events', l) && states'[0] == states[0] && |events'| == |events| + 1
    ensures states'[|events'|] == Step(states[|events|], l, e)
    ensures Safe(states[|events|], l) && Safe(states'[|events'|], l)
  {
    hide Step, Enabled, Boots, Safe;
    states', events' := states + [Step(states[|events|], l, e)], events + [e];
    forall k | 0 <= k < |events'| ensures Moves(states'[k], l, events'[k], states'[k + 1]) {
      if k < |events| { assert Moves(states[k], l, events[k], states[k + 1]); }
    }
    EveryStateSafe(states, events, l, |events|);
    EveryStateSafe(states', events', l, |events'|);
  }

  /** Up to the first task's run. */
  lemma OneTaskRuns(boot: Sys, l: Layout, idle: nat, entry: nat) returns (states: seq<Sys>, events: seq<Event>)
    requires Boots(boot, l) && OnBootStack(boot, l) && l.lo + Heap.HEADER + 4096 <= l.hi
    ensures Trace(states, events, l) && states[0] == boot && |events| == 3
    ensures var s := states[3];
      Inv(s, l) && s.current == 1 && |s.tasks| == 2 && CanCall(s) && s.tasks[0] == NewTask(l.idleBase, IDLE_STACK)
  {
    hide Inv, Init, Create, Start, Safe, Blank, Boots, OnStack, Works, Moves, OnBootStack;
    states, events := [boot], [];
    OneTaskMade(boot, l, idle, entry);
    BootTrace(boot, l);
    states, events := Extend(states, events, l, InitTasks(idle));
    states, events := Extend(states, events, l, CreateTask(entry, 4096));
    var made := states[2];
    ExistingSafe(made, l);
    BootStackKept(boot, made, l);
    OnlyTaskStarts(made, l);
    StartExact(made, l);
    StartShape(made, l);
    states, events := Extend(states, events, l, StartTasks);
    ExistingSafe(states[3], l);
  }

  lemma BootTrace(boot: Sys, l: Layout)
    requires Boots(boot, l)
    ensures Trace([boot], [], l) && boot.tasks == [] && |boot.cpu.s| == SAVED
  {}

  lemma ExistingSafe(sys: Sys, l: Layout)
    requires Safe(sys, l) && sys.tasks != []
    ensures Inv(sys, l)
  {}

  lemma BootStackKept(boot: Sys, sys: Sys, l: Layout)
    requires OnBootStack(boot, l) && sys.cpu == boot.cpu
    ensures OnBootStack(sys, l)
  {}

  lemma StartShape(sys: Sys, l: Layout)
    requires Inv(sys, l) && OnBootStack(sys, l)
    ensures Shaped(sys)
  {}

  /** From boot: one task is made and started, it exits, idle reclaims its stack and computes for a while. Then
      idle yields, and goes on with other registers than it had. */
  lemma LoneYieldGoesAstray(boot: Sys, l: Layout, idle: nat, entry: nat) returns (states: seq<Sys>, events: seq<Event>)
    requires Boots(boot, l) && OnBootStack(boot, l) && l.lo + Heap.HEADER + 4096 <= l.hi
    ensures Trace(states, events, l) && states[0] == boot && |events| == 6
    ensures Alone(states[6], l) && Yield(states[6]).cpu != states[6].cpu
  {
    hide Inv, Exit, Yield, Reclaim, Safe, Blank, Boots, Moves, Works, Alone;
    states, events := OneTaskRuns(boot, l, idle, entry);
    var first := states[3];
    OnlyTaskExits(first, l);
    ExitShape(first, l);
    states, events := Extend(states, events, l, ExitNow);
    var left := states[4];
    ExistingSafe(left, l);
    states, events := Extend(states, events, l, ReclaimNow);
    ReclaimKeeps(left, l);
    var clean := states[5];
    ReclaimShape(left, l);
    var cpu := clean.cpu.(sp := l.idleBase + IDLE_STACK - 64);
    IdleWorks(clean, l, cpu);
    states, events := Extend(states, events, l, Work(cpu, clean.mem));
    ExistingSafe(states[6], l);
    NowAlone(states[6], l);
    AloneGoesAstray(states[6], l);
  }

  lemma ExitShape(sys: Sys, l: Layout)
    requires Inv(sys, l) && sys.current > 0 && CanCall(sys)
    ensures Shaped(sys)
  {}

  lemma ReclaimShape(sys: Sys, l: Layout)
    requires Inv(sys, l)
    ensures var s := Reclaim(sys, l.idleBase);
      s.current == sys.current && |s.tasks| == |sys.tasks| && s.tasks[0] == sys.tasks[0] && s.cpu == sys.cpu &&
        |s.cpu.s| == |sys.cpu.s|
  {
    hide ReclaimFrom;
    ReclaimKeeps(sys, l);
    ZombiesOwn(sys, l);
  }

  lemma IdleWorks(sys: Sys, l: Layout, cpu: Context)
    requires Safe(sys, l) && sys.tasks != [] && sys.current == 0 && cpu == sys.cpu.(sp := l.idleBase + IDLE_STACK - 64)
    ensures Works(sys, cpu, sys.mem)
  {
    assert StackAt(sys.heap, l.idleBase, 0, sys.tasks[0]);
  }

  lemma NowAlone(sys: Sys, l: Layout)
    requires Inv(sys, l) && sys.current == 0 && |sys.tasks| == 2 && sys.tasks[1].state == EXIT
    requires sys.tasks[0].sp == l.idleBase + IDLE_STACK - FRAME && sys.cpu.sp == l.idleBase + IDLE_STACK - 64
    ensures Alone(sys, l)
  {
    assert StackAt(sys.heap, l.idleBase, 0, sys.tasks[0]);
  }
}
