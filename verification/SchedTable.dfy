/** The scheduler as the kernel runs it: a fixed task table and a current index changed in place, stacks
    from the kernel heap, and the CPU. Each method is tied to its description in SchedModel. */
module SchedTable {
  import Heap
  import opened ContextSwitch
  import opened SchedModel
  import SchedRuns

  class Scheduler {
    const tasks: array<Task>       // g_tasks
    var count: nat                 // g_task_count
    var current: int               // g_current
    const cpu: Cpu
    const heap: Heap.KernelHeap
    const idleBase: nat
    ghost var last: seq<Context>

    ghost function Map(): Layout { Layout(idleBase, heap.start, heap.limit) }

    ghost function View(): Sys
      reads this, tasks, cpu, cpu.s, heap
      requires count <= tasks.Length
    {
      Sys(tasks[..count], current, cpu.Registers(), cpu.mem, heap.blocks, last)
    }

    ghost predicate Valid()
      reads this, tasks, cpu, cpu.s, heap
    {
      tasks.Length == TASK_MAX && cpu.s.Length == SAVED && heap.Valid() &&
      count <= TASK_MAX && Inv(View(), Map())
    }

    /** `task_init`. */
    constructor (c: Cpu, h: Heap.KernelHeap, idleStack: nat, idleEntry: nat)
      requires h.Valid() && c.s.Length == SAVED && LayoutOk(Layout(idleStack, h.start, h.limit))
      modifies c
      ensures Valid() && cpu == c && heap == h && idleBase == idleStack && fresh(tasks)
      ensures View() == Init(idleEntry, idleStack, old(c.Registers()), old(c.mem), h.blocks)
    {
      tasks := new Task[TASK_MAX](_ => Task(0, EXIT, 0, 0));
      cpu, heap, idleBase := c, h, idleStack;
      count, current, last := 0, -1, [EntryContext(idleEntry, idleStack, IDLE_STACK)];
      new;
      SchedRuns.InitHolds(Map(), idleEntry, c.Registers(), c.mem, h.blocks);
      ClearStack(c, idleStack, idleStack + IDLE_STACK);
      var sp := LayFrame(c, idleEntry, idleStack, IDLE_STACK);
      tasks[0] := Task(sp, READY, idleStack, IDLE_STACK);
      count := 1;
      assert tasks[..1] == [NewTask(idleStack, IDLE_STACK)];
    }

    /** The zeroing loop. */
    static method ClearStack(c: Cpu, bottom: nat, top: nat)
      modifies c`mem
      ensures c.mem == Clear(old(c.mem), bottom, top)
    {
      var a: nat := bottom;
      while a < top
        invariant Clear(c.mem, a, top) == Clear(old(c.mem), bottom, top)
      {
        c.mem := c.mem[a := 0];
        a := a + 4;
      }
    }

    /** `task_setup_stack`. */
    static method LayFrame(c: Cpu, entry: nat, base: nat, size: nat) returns (sp: nat)
      requires size >= FRAME
      modifies c`mem
      ensures sp == base + size - FRAME && c.mem == SetupStack(old(c.mem), entry, base, size)
    {
      sp := base + size - FRAME;
      var i := 0;
      while i < 13
        invariant 0 <= i <= 13
        invariant forall x: nat :: x in c.mem <==> x in old(c.mem) || (InFrame(x, sp) && x < sp + 4 * i)
        invariant forall x: nat :: x in c.mem ==>
          c.mem[x] == if InFrame(x, sp) && x < sp + 4 * i then 0 else old(c.mem)[x]
      {
        c.mem := c.mem[sp + 4 * i := 0];
        i := i + 1;
      }
      SaveZeros(old(c.mem), c.mem, sp, EntryContext(entry, base, size));
      c.mem := c.mem[sp + 48 := entry];
    }

    method CreateTask(entry: nat, request: nat) returns (id: int)
      requires Valid() && request <= 0xFFFF_FFFC
      modifies this, tasks, cpu`mem, heap
      ensures Valid()
      ensures (View(), id) == Create(old(View()), entry, request)
    {
      hide Inv, SetupStack, Clear;
      ghost var sys := View();
      CreateKeeps(sys, Map(), entry, request);
      if count >= TASK_MAX { return -1; }
      var size := if request < STACK_MIN then STACK_DEFAULT else request;
      var stack := heap.Allocate(size);
      if stack == 0 { return -1; }
      ClearStack(cpu, stack, stack + size);
      var sp := LayFrame(cpu, entry, stack, size);
      tasks[count] := Task(sp, READY, stack, size);
      count := count + 1;
      last := last + [EntryContext(entry, stack, size)];
      assert tasks[..count] == sys.tasks + [NewTask(stack, size)];
      return count - 1;
    }

    /** `next_ready`. */
    method ScanReady() returns (r: int)
      requires 0 < count <= tasks.Length && -1 <= current
      ensures r == NextReady(tasks[..count], current, 1)
    {
      var i := 1;
      while i <= count
        invariant 1 <= i <= count + 1
        invariant NextReady(tasks[..count], current, 1) == NextReady(tasks[..count], current, i)
      {
        var idx := (current + i) % count;
        if tasks[idx].state == READY { return idx; }
        i := i + 1;
      }
      return -1;
    }

    /** `task_yield`. A lone task's yield can leave it on a stale stack, and the table then says nothing of it. */
    method YieldTask()
      requires Valid() && (current >= 0 ==> CanCall(View()))
      modifies this, tasks, cpu, cpu.s
      ensures count == old(count) && View() == if old(current) < 0 then old(View()) else Yield(old(View()))
      ensures old(current < 0 || count < 2 || SchedModel.OtherReady(View())) ==> Valid()
    {
      hide Inv, NextReady;
      ghost var sys := View();
      InvShape(sys, Map());
      if current < 0 { return; }
      RoomForFrame(sys, Map());
      if SchedModel.OtherReady(sys) { YieldExact(sys, Map()); }
      if count < 2 { return; }
      YieldFrom(current);
    }

    static lemma RoomForFrame(sys: Sys, l: Layout)
      requires Inv(sys, l) && sys.current >= 0 && CanCall(sys)
      ensures |sys.cpu.s| == SAVED && sys.cpu.sp >= FRAME
    {}

    method YieldFrom(prev: nat)
      requires prev == current < count <= tasks.Length == TASK_MAX && |last| == count >= 2
      requires cpu.s.Length == SAVED && cpu.sp >= FRAME
      modifies this, tasks, cpu, cpu.s
      ensures count == old(count) && View() == Yield(old(View()))
    {
      ghost var sys := View();
      tasks[prev] := tasks[prev].(state := READY);
      assert tasks[..count] == sys.tasks[prev := sys.tasks[prev].(state := READY)];
      var next := ScanReady();
      if next < 0 {
        tasks[prev] := tasks[prev].(state := RUNNING);
        assert tasks[..count] ==
          sys.tasks[prev := sys.tasks[prev].(state := READY)][prev := sys.tasks[prev].(state := RUNNING)];
        return;
      }
      current := next;
      tasks[next] := tasks[next].(state := RUNNING);
      SwitchStacks(prev, next);
    }

    /** The call of `ctx_switch`: the sp to load is read from the table before the old one is stored. */
    method SwitchStacks(prev: nat, next: nat)
      requires prev < count && next < count && count <= tasks.Length == TASK_MAX && cpu.s.Length == SAVED &&
        cpu.sp >= FRAME
      requires |last| == count
      modifies this`last, tasks, cpu, cpu.s
      ensures cpu.Registers() == FrameAt(cpu.mem, old(tasks[next].sp))
      ensures cpu.mem == Save(old(cpu.mem), old(cpu.sp) - FRAME, old(cpu.Registers()))
      ensures tasks[..count] == old(tasks[..count])[prev := old(tasks[prev]).(sp := old(cpu.sp) - FRAME)]
      ensures last == old(last)[prev := old(cpu.Registers())]
    {
      last := last[prev := cpu.Registers()];
      var saved := cpu.Switch(tasks[next].sp);
      tasks[prev] := tasks[prev].(sp := saved);
    }

    static lemma InvShape(sys: Sys, l: Layout)
      requires Inv(sys, l)
      ensures 1 <= |sys.tasks| <= TASK_MAX && |sys.last| == |sys.tasks| && -1 <= sys.current < |sys.tasks|
    {}

    /** `task_exit`. Its endless wait cannot be reached from any task but idle. */
    method ExitTask() returns (switched: bool)
      requires Valid() && current > 0 && CanCall(View())
      modifies this, tasks, cpu, cpu.s
      ensures Valid() && switched
      ensures Exit(old(View())) == Goes(View())
    {
      hide Inv, NextReady;
      InvShape(View(), Map());
      ExitExact(View(), Map());
      switched := ExitFrom(current);
    }

    /** Returns false where the kernel would wait for ever. */
    method ExitFrom(prev: nat) returns (switched: bool)
      requires prev == current < count <= tasks.Length == TASK_MAX && |last| == count
      requires cpu.s.Length == SAVED && cpu.sp >= FRAME
      modifies this, tasks, cpu, cpu.s
      ensures count == old(count)
      ensures switched == Exit(old(View())).Goes?
      ensures switched ==> Exit(old(View())) == Goes(View())
    {
      ghost var sys := View();
      tasks[prev] := tasks[prev].(state := ZOMBIE);
      assert tasks[..count] == sys.tasks[prev := sys.tasks[prev].(state := ZOMBIE)];
      var next := ScanReady();
      if next < 0 { return false; }
      current := next;
      tasks[next] := tasks[next].(state := RUNNING);
      SwitchStacks(prev, next);
      return true;
    }

    /** `task_start`. */
    method StartTasks()
      requires Valid() && current == -1 && OnBootStack(View(), Map())
      modifies this, tasks, cpu, cpu.s
      ensures Valid()
      ensures View() == Start(old(View()))
    {
      hide Inv;
      ghost var sys := View();
      InvShape(sys, Map());
      StartExact(sys, Map());
      if count < 2 { return; }
      var next := -1;
      var i := 1;
      while i < count
        invariant 1 <= i <= count && next == -1
        invariant FirstReady(tasks[..count], 1) == FirstReady(tasks[..count], i)
      {
        if tasks[i].state == READY {
          next := i;
          break;
        }
        i := i + 1;
      }
      assert next == FirstReady(tasks[..count], 1);
      if next < 0 { return; }
      current := next;
      tasks[next] := tasks[next].(state := RUNNING);
      assert tasks[..count] == sys.tasks[next := sys.tasks[next].(state := RUNNING)];
      var discard := cpu.Switch(tasks[next].sp);
    }

    /** One pass of the idle loop over the task table. */
    method ReclaimZombies()
      requires Valid()
      modifies tasks, heap
      ensures Valid()
      ensures View() == Reclaim(old(View()), idleBase)
    {
      hide Inv, ReclaimFrom;
      ghost var sys := View();
      SchedRuns.ReclaimKeeps(sys, Map());
      SweepStarts(sys, Map());
      var i := 0;
      while i < count
        invariant 0 <= i <= count && heap.Valid()
        invariant ReclaimFrom(sys.tasks, sys.heap, idleBase, 0) == ReclaimFrom(tasks[..count], heap.blocks, idleBase, i)
        invariant SweepReady(tasks[..count], heap.blocks, idleBase, i)
      {
        SweepOne(tasks[..count], heap.blocks, idleBase, i, Map());
        if tasks[i].state == ZOMBIE {
          if i != 0 && tasks[i].base != 0 && tasks[i].base != idleBase {
            heap.Release(tasks[i].base);
          }
          ghost var before := tasks[..count];
          tasks[i] := tasks[i].(base := 0, state := EXIT);
          assert tasks[..count] == before[i := before[i].(base := 0, state := EXIT)];
        }
        i := i + 1;
      }
      SweepDone(tasks[..count], heap.blocks, idleBase);
    }

    /** The zombies still to be swept hold distinct live blocks. */
    static ghost predicate SweepReady(ts: seq<Task>, heap: seq<Heap.Block>, idleBase: nat, i: nat)
      requires i <= |ts|
    {
      forall k :: i <= k < |ts| && ts[k].state == ZOMBIE ==> ZombieReady(ts, heap, idleBase, k)
    }

    static ghost predicate ZombieReady(ts: seq<Task>, heap: seq<Heap.Block>, idleBase: nat, k: nat)
      requires k < |ts|
    {
      k != 0 && ts[k].base != 0 && ts[k].base != idleBase && Heap.IsLive(heap, ts[k].base) &&
      forall j :: 0 <= j < |ts| && j != k ==> ts[j].base != ts[k].base
    }

    static lemma SweepStarts(sys: Sys, l: Layout)
      requires Inv(sys, l)
      ensures SweepReady(sys.tasks, sys.heap, l.idleBase, 0)
    {
      SchedRuns.ZombiesOwn(sys, l);
      forall k | 0 <= k < |sys.tasks| && sys.tasks[k].state == ZOMBIE
        ensures ZombieReady(sys.tasks, sys.heap, l.idleBase, k)
      {
        assert StackAt(sys.heap, l.idleBase, k, sys.tasks[k]);
        forall j | 0 <= j < |sys.tasks| && j != k ensures sys.tasks[j].base != sys.tasks[k].base {
          SchedRuns.DistinctStacks(sys, l, k, j);
        }
      }
    }

    static lemma SweepOne(ts: seq<Task>, heap: seq<Heap.Block>, idleBase: nat, i: nat, l: Layout)
      requires i < |ts| && SweepReady(ts, heap, idleBase, i) && Heap.Canonical(heap, l.lo, l.hi)
      ensures ts[i].state == ZOMBIE ==>
        i != 0 && ts[i].base != 0 && ts[i].base != idleBase && Heap.IsLive(heap, ts[i].base)
      ensures ts[i].state == ZOMBIE ==> var ts' := ts[i := ts[i].(base := 0, state := EXIT)];
        var heap' := Heap.Free(heap, ts[i].base);
        ReclaimFrom(ts, heap, idleBase, i) == ReclaimFrom(ts', heap', idleBase, i + 1) &&
          SweepReady(ts', heap', idleBase, i + 1)
      ensures ts[i].state != ZOMBIE ==>
        ReclaimFrom(ts, heap, idleBase, i) == ReclaimFrom(ts, heap, idleBase, i + 1) &&
          SweepReady(ts, heap, idleBase, i + 1)
    {
      hide Heap.Free, Heap.Canonical;
      if ts[i].state == ZOMBIE {
        assert ZombieReady(ts, heap, idleBase, i);
        var ts', heap' := ts[i := ts[i].(base := 0, state := EXIT)], Heap.Free(heap, ts[i].base);
        Heap.FreePointers(heap, ts[i].base, l.lo, l.hi);
        forall k | i + 1 <= k < |ts'| && ts'[k].state == ZOMBIE ensures ZombieReady(ts', heap', idleBase, k) {
          assert ZombieReady(ts, heap, idleBase, k);
          Heap.PointersOfLive(heap, ts[k].base);
          Heap.PointersOfLive(heap', ts[k].base);
        }
      }
    }

    static lemma SweepDone(ts: seq<Task>, heap: seq<Heap.Block>, idleBase: nat)
      ensures ReclaimFrom(ts, heap, idleBase, |ts|) == (ts, heap)
    {}
  }
}
