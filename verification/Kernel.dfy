/** Who owns the heap: files, task stacks and borrowed buffers, over every run of the kernel. */
module Kernel {
  import Heap
  import V = VfsModel
  import S = SchedModel
  import R = SchedRuns
  import I = VfsInit

  /** `loans` are the buffers other kernel code holds for a while, such as network packets. The heap is
      the scheduler's. */
  datatype KState = KState(sys: S.Sys, fs: V.Fs, store: V.Store, loans: set<nat>)

  function Files(k: KState): V.State { V.State(k.fs, k.sys.heap, k.store) }

  function Stacks(tasks: seq<S.Task>): set<nat> {
    set i | 1 <= i < |tasks| && tasks[i].base != 0 :: tasks[i].base
  }

  /** Every live block has exactly one owner, and every owner's block is live: file buffers, stacks and
      loans are disjoint and together are the live blocks. */
  ghost predicate Accounted(k: KState) {
    var files, stacks := V.Buffers(k.fs.nodes), Stacks(k.sys.tasks);
    files !! stacks && files !! k.loans && stacks !! k.loans &&
    Heap.LivePointers(k.sys.heap) == files + stacks + k.loans
  }

  ghost predicate Sound(k: KState, l: S.Layout) {
    R.Safe(k.sys, l) && V.Structure(k.fs) && V.Owned(Files(k)) && Accounted(k)
  }

  datatype Action =
    | FileOp(op: V.Op)
    | Sched(e: R.Event)
    | Borrow(request: nat)
    | GiveBack(ptr: nat)

  ghost predicate May(k: KState, l: S.Layout, a: Action) {
    match a
    case FileOp(op) => V.Sized(op)
    case Sched(e) => !OfHeap(e) && R.Enabled(k.sys, l, e)
    case Borrow(_) => true
    case GiveBack(ptr) => ptr in k.loans
  }

  /** Files and loans are where the rest of the kernel allocates. */
  predicate OfHeap(e: R.Event) { e.TakeBlock? || e.ReleaseBlock? }

  ghost function Do(k: KState, l: S.Layout, a: Action): KState {
    match a
    case FileOp(op) => if V.Structure(k.fs) then AfterFileOp(k, op) else k
    case Sched(e) => k.(sys := R.Step(k.sys, l, e))
    case Borrow(request) =>
      var r := Heap.Alloc(k.sys.heap, request);
      k.(sys := k.sys.(heap := r.blocks), loans := if r.ptr == 0 then k.loans else k.loans + {r.ptr})
    case GiveBack(ptr) =>
      k.(sys := k.sys.(heap := Heap.Free(k.sys.heap, ptr)), loans := k.loans - {ptr})
  }

  function AfterFileOp(k: KState, op: V.Op): KState
    requires V.Structure(k.fs)
  {
    var s := V.Step(Files(k), op).state;
    k.(fs := s.fs, store := s.store, sys := k.sys.(heap := s.heap))
  }

  // ----- What the rest of the kernel does to the stacks: nothing -----

  /** The stacks survive whatever releases none of them. */
  lemma StacksSurvive(sys: S.Sys, l: S.Layout, heap: seq<Heap.Block>, released: set<nat>)
    requires R.Safe(sys, l) && Heap.Canonical(heap, l.lo, l.hi)
    requires Heap.Carried(sys.heap, heap, released) && released !! Stacks(sys.tasks)
    ensures R.Safe(sys.(heap := heap), l)
  {
    hide R.Safe, Heap.Carried, Heap.Canonical;
    forall i | 1 <= i < |sys.tasks| && sys.tasks[i].base != 0 ensures sys.tasks[i].base !in released {
      assert sys.tasks[i].base in Stacks(sys.tasks);
    }
    R.CarriedStacks(sys, l, heap, released);
    R.HeapKeeps(sys, l, heap);
  }

  /** A file operation releases nothing but file buffers. */
  lemma FileOpCarries(s: V.State, op: V.Op, l: S.Layout)
    requires V.Structure(s.fs) && V.Owned(s) && Heap.Canonical(s.heap, l.lo, l.hi) && 0 < l.lo
    ensures Heap.Carried(s.heap, V.Step(s, op).state.heap, V.Buffers(s.fs.nodes) + {0})
  {
    hide V.Resolve, Heap.Alloc, Heap.Free, Heap.Canonical, Heap.HasBlock, V.HasChild, V.Create, V.Rename, V.Compact;
    match op {
      case Remove(path) =>
        var n := V.Resolve(s.fs, path);
        if n > 0 {
          Heap.FreeBlocks(s.heap, s.fs.nodes[n].data, l.lo, l.hi);
          assert s.fs.nodes[n].data in V.Buffers(s.fs.nodes) + {0};
        }
      case Save(path, data) =>
        var n := V.Resolve(s.fs, path);
        if n >= 0 {
          var a := Heap.Alloc(s.heap, |data| + 1);
          Heap.AllocEffect(s.heap, |data| + 1, l.lo, l.hi);
          Heap.AllocBlocks(s.heap, |data| + 1, l.lo, l.hi);
          Heap.FreeBlocks(a.blocks, s.fs.nodes[n].data, l.lo, l.hi);
          V.CarriedTwice(s.heap, a.blocks, Heap.Free(a.blocks, s.fs.nodes[n].data), {s.fs.nodes[n].data});
          assert s.fs.nodes[n].data in V.Buffers(s.fs.nodes) + {0};
        }
      case MkDir(path) => V.CreateKeepsOwned(s, path, true);
      case MkFile(path) => V.CreateKeepsOwned(s, path, false);
      case RenameTo(path, name) => RenameHeap(s, path, name);
      case ChangeDir(path) =>
    }
  }

  lemma RenameHeap(s: V.State, path: string, name: string)
    requires V.Structure(s.fs)
    ensures V.Rename(s, path, name).state.heap == s.heap
  {}

  // ----- Each kind of step -----

  lemma FileOpSound(k: KState, l: S.Layout, op: V.Op)
    requires Sound(k, l) && V.Sized(op)
    ensures Sound(AfterFileOp(k, op), l)
  {
    hide V.Step, V.OwnedFrom, Heap.LivePointers, R.Safe, Heap.Canonical, Heap.Carried;
    R.SafeHeap(k.sys, l);
    var s := Files(k);
    var s' := V.Step(s, op).state;
    V.StepKeepsStructure(s, op, l.lo, l.hi);
    FileOpCarries(s, op, l);
    NoStackAtZero(k.sys.tasks);
    StacksSurvive(k.sys, l, s'.heap, V.Buffers(s.fs.nodes) + {0});
    BuffersLive(s');
    assert Heap.LivePointers(s'.heap) - V.Buffers(s'.fs.nodes) == Stacks(k.sys.tasks) + k.loans;
  }

  lemma BuffersLive(s: V.State)
    requires V.Owned(s)
    ensures V.Buffers(s.fs.nodes) <= Heap.LivePointers(s.heap)
  {
    forall p | p in V.Buffers(s.fs.nodes) ensures p in Heap.LivePointers(s.heap) {
      var i :| 0 <= i < |s.fs.nodes| && s.fs.nodes[i].data != 0 && s.fs.nodes[i].data == p;
      V.BufferIsLive(s, i);
    }
  }

  lemma NoStackAtZero(tasks: seq<S.Task>)
    ensures 0 !in Stacks(tasks)
  {}

  /** Files need only their own blocks carried over. */
  lemma FilesStillOwned(k: KState, heap: seq<Heap.Block>, released: set<nat>)
    requires V.Owned(Files(k)) && Heap.Carried(k.sys.heap, heap, released) && released !! V.Buffers(k.fs.nodes)
    ensures V.Owned(V.State(k.fs, heap, k.store))
  {
    hide Heap.HasBlock;
    forall i | 0 <= i < |k.fs.nodes| && k.fs.nodes[i].data != 0 ensures V.Backed(heap, k.store, k.fs.nodes[i]) {
      assert V.Backed(k.sys.heap, k.store, k.fs.nodes[i]);
      assert k.fs.nodes[i].data in V.Buffers(k.fs.nodes);
    }
  }

  lemma BorrowSound(k: KState, l: S.Layout, request: nat)
    requires Sound(k, l)
    ensures Sound(Do(k, l, Borrow(request)), l)
  {
    hide V.OwnedFrom, Heap.LivePointers, R.Safe, Heap.Canonical, Heap.Alloc, Heap.IsLive, Heap.Carried;
    R.SafeHeap(k.sys, l);
    var a := Heap.Alloc(k.sys.heap, request);
    Heap.AllocEffect(k.sys.heap, request, l.lo, l.hi);
    Heap.AllocBlocks(k.sys.heap, request, l.lo, l.hi);
    Heap.PointersOfLive(k.sys.heap, a.ptr);
    StacksSurvive(k.sys, l, a.blocks, {});
    FilesStillOwned(k, a.blocks, {});
  }

  lemma GiveBackSound(k: KState, l: S.Layout, ptr: nat)
    requires Sound(k, l) && ptr in k.loans
    ensures Heap.IsLive(k.sys.heap, ptr)
    ensures Sound(Do(k, l, GiveBack(ptr)), l)
  {
    hide V.OwnedFrom, Heap.LivePointers, R.Safe, Heap.Canonical, Heap.Free, Heap.IsLive, Heap.Carried;
    R.SafeHeap(k.sys, l);
    var heap := Heap.Free(k.sys.heap, ptr);
    Heap.PointersOfLive(k.sys.heap, ptr);
    LivePointersPositive(k.sys.heap);
    Heap.FreePointers(k.sys.heap, ptr, l.lo, l.hi);
    Heap.FreeEffect(k.sys.heap, ptr, l.lo, l.hi);
    Heap.FreeBlocks(k.sys.heap, ptr, l.lo, l.hi);
    StacksSurvive(k.sys, l, heap, {ptr});
    FilesStillOwned(k, heap, {ptr});
  }

  lemma LivePointersPositive(heap: seq<Heap.Block>)
    ensures 0 !in Heap.LivePointers(heap)
  {}

  lemma StacksExchanged(live: set<nat>, stacks: set<nat>, files: set<nat>, loans: set<nat>,
                        live': set<nat>, stacks': set<nat>)
    requires files !! stacks && files !! loans && stacks !! loans && live == files + stacks + loans
    requires live' - stacks' == live - stacks && stacks' <= live'
    requires forall p :: p in stacks' && p !in stacks ==> p !in live
    ensures files !! stacks' && stacks' !! loans && live' == files + stacks' + loans
  {
    assert live - stacks == files + loans;
  }

  /** What an event of the scheduler does to the heap: it takes new tasks' stacks from what was free, gives exited
      tasks' stacks back, and carries every other block over. */
  ghost predicate StacksOnly(sys: S.Sys, sys': S.Sys) {
    var live, live' := Heap.LivePointers(sys.heap), Heap.LivePointers(sys'.heap);
    live' - Stacks(sys'.tasks) == live - Stacks(sys.tasks) && Stacks(sys'.tasks) <= live' &&
    (forall p :: p in Stacks(sys'.tasks) && p !in Stacks(sys.tasks) ==> p !in live) &&
    Heap.Carried(sys.heap, sys'.heap, Stacks(sys.tasks))
  }

  lemma SchedSound(k: KState, l: S.Layout, e: R.Event)
    requires Sound(k, l) && !OfHeap(e) && R.Enabled(k.sys, l, e)
    ensures Sound(Do(k, l, Sched(e)), l)
  {
    hide V.OwnedFrom, Heap.LivePointers, R.Step, R.Safe, R.Enabled, Heap.Canonical, Heap.Carried;
    R.StepSafe(k.sys, l, e);
    var sys' := R.Step(k.sys, l, e);
    SchedOwnership(k.sys, l, e);
    StacksExchanged(Heap.LivePointers(k.sys.heap), Stacks(k.sys.tasks), V.Buffers(k.fs.nodes), k.loans,
                    Heap.LivePointers(sys'.heap), Stacks(sys'.tasks));
    FilesStillOwned(k, sys'.heap, Stacks(k.sys.tasks));
  }

  lemma SchedOwnership(sys: S.Sys, l: S.Layout, e: R.Event)
    requires R.Safe(sys, l) && !OfHeap(e) && R.Enabled(sys, l, e)
    ensures StacksOnly(sys, R.Step(sys, l, e))
  {
    hide StacksOnly, R.Step, R.Safe, R.Enabled;
    match e {
      case CreateTask(entry, request) => CreateOwnership(sys, l, e);
      case ReclaimNow => ReclaimStep(sys, l); ReclaimOwnership(sys, l);
      case _ => SameOwnership(sys, l, e);
    }
  }

  lemma ReclaimStep(sys: S.Sys, l: S.Layout)
    requires R.Safe(sys, l) && R.Enabled(sys, l, R.ReclaimNow)
    ensures S.Inv(sys, l) && R.Step(sys, l, R.ReclaimNow) == S.Reclaim(sys, l.idleBase)
  {}

  lemma StacksLive(sys: S.Sys, l: S.Layout)
    requires R.Safe(sys, l)
    ensures Stacks(sys.tasks) <= Heap.LivePointers(sys.heap)
  {
    hide Heap.Canonical, S.Apart, S.Resumable;
    forall p | p in Stacks(sys.tasks) ensures p in Heap.LivePointers(sys.heap) {
      var i :| 1 <= i < |sys.tasks| && sys.tasks[i].base != 0 && sys.tasks[i].base == p;
      assert S.StackAt(sys.heap, l.idleBase, i, sys.tasks[i]);
      Heap.BlockIsLive(sys.heap, p, sys.tasks[i].size);
    }
  }

  lemma SameStacks(tasks: seq<S.Task>, tasks': seq<S.Task>)
    requires |tasks'| == |tasks| && forall i :: 0 <= i < |tasks| ==> tasks'[i].base == tasks[i].base
    ensures Stacks(tasks') == Stacks(tasks)
  {}

  lemma SameOwnership(sys: S.Sys, l: S.Layout, e: R.Event)
    requires R.Safe(sys, l) && !OfHeap(e) && R.Enabled(sys, l, e) && !e.CreateTask? && !e.ReclaimNow?
    ensures StacksOnly(sys, R.Step(sys, l, e))
  {
    SameHeap(sys, l, e);
    R.StepSafe(sys, l, e);
    hide R.Step, R.Safe, R.Enabled, Heap.HasBlock;
    StacksLive(R.Step(sys, l, e), l);
  }

  lemma SameHeap(sys: S.Sys, l: S.Layout, e: R.Event)
    requires R.Safe(sys, l) && !OfHeap(e) && R.Enabled(sys, l, e) && !e.CreateTask? && !e.ReclaimNow?
    ensures R.Step(sys, l, e).heap == sys.heap && Stacks(R.Step(sys, l, e).tasks) == Stacks(sys.tasks)
  {
    hide S.NextReady, S.FirstReady, S.Tables, S.AllResumable, S.SetupStack, S.Clear, S.Works;
    if sys.tasks != [] {
      R.InvShape(sys, l);
      if !e.InitTasks? { SameStacks(sys.tasks, R.Step(sys, l, e).tasks); }
    }
  }

  lemma CreateOwnership(sys: S.Sys, l: S.Layout, e: R.Event)
    requires R.Safe(sys, l) && R.Enabled(sys, l, e) && e.CreateTask?
    ensures StacksOnly(sys, R.Step(sys, l, e))
  {
    hide Heap.Alloc, Heap.LivePointers, Heap.HasBlock, Heap.IsLive, R.Safe, S.SetupStack, S.Clear, Heap.Canonical;
    R.StepSafe(sys, l, e);
    StacksLive(R.Step(sys, l, e), l);
    R.SafeHeap(sys, l);
    var size := S.StackSize(e.request);
    var a := Heap.Alloc(sys.heap, size);
    Heap.AllocEffect(sys.heap, size, l.lo, l.hi);
    Heap.AllocBlocks(sys.heap, size, l.lo, l.hi);
    Heap.PointersOfLive(sys.heap, a.ptr);
    if |sys.tasks| < S.TASK_MAX && a.ptr != 0 {
      StacksAppend(sys.tasks, S.NewTask(a.ptr, size));
    }
  }

  lemma StacksAppend(tasks: seq<S.Task>, t: S.Task)
    requires tasks != [] && t.base != 0
    ensures Stacks(tasks + [t]) == Stacks(tasks) + {t.base}
  {
    var r := tasks + [t];
    forall p ensures p in Stacks(r) <==> p in Stacks(tasks) || p == t.base {
      if p in Stacks(tasks) {
        var i :| 1 <= i < |tasks| && tasks[i].base != 0 && tasks[i].base == p;
        assert r[i].base == p;
      }
      if p == t.base { assert r[|tasks|].base == p; }
    }
  }

  lemma {:induction false} FreeAllPointers(heap: seq<Heap.Block>, ps: seq<nat>, l: S.Layout)
    requires Heap.Canonical(heap, l.lo, l.hi) && 0 !in ps
    ensures Heap.LivePointers(Heap.FreeAll(heap, ps)) == Heap.LivePointers(heap) - Heap.Elements(ps)
    decreases |ps|
  {
    if ps == [] {
      assert Heap.Elements(ps) == {};
    } else {
      Heap.FreeEffect(heap, ps[0], l.lo, l.hi);
      Heap.FreePointers(heap, ps[0], l.lo, l.hi);
      FreeAllPointers(Heap.Free(heap, ps[0]), ps[1..], l);
      assert Heap.Elements(ps) == {ps[0]} + Heap.Elements(ps[1..]) by { assert ps == [ps[0]] + ps[1..]; }
    }
  }

  lemma ReclaimOwnership(sys: S.Sys, l: S.Layout)
    requires S.Inv(sys, l)
    ensures StacksOnly(sys, S.Reclaim(sys, l.idleBase))
  {
    hide Heap.LivePointers, Heap.FreeAll, Heap.IsLive, Heap.HasBlock, S.ReclaimFrom, Heap.Canonical;
    R.ReclaimSafe(sys, l);
    R.ReclaimKeeps(sys, l);
    InvSafe(sys, l);
    InvSafe(S.Reclaim(sys, l.idleBase), l);
    R.SafeHeap(sys, l);
    StacksLive(S.Reclaim(sys, l.idleBase), l);
    var ps := R.ZombieStacks(sys.tasks, 0);
    FreeAllPointers(sys.heap, ps, l);
    ReclaimedStacks(sys, l);
    FreeAllCarries(sys.heap, ps, Stacks(sys.tasks), l);
  }

  lemma InvSafe(sys: S.Sys, l: S.Layout)
    requires S.Inv(sys, l)
    ensures R.Safe(sys, l)
  {}

  lemma FreeAllCarries(heap: seq<Heap.Block>, ps: seq<nat>, released: set<nat>, l: S.Layout)
    requires Heap.Canonical(heap, l.lo, l.hi) && 0 !in ps && Heap.Elements(ps) <= released
    ensures Heap.Carried(heap, Heap.FreeAll(heap, ps), released)
  {
    forall p, n: nat | Heap.HasBlock(heap, p, n) && p !in released ensures Heap.HasBlock(Heap.FreeAll(heap, ps), p, n) {
      R.BlockSurvives(heap, ps, p, n, l);
    }
  }

  lemma ReclaimedStacks(sys: S.Sys, l: S.Layout)
    requires S.Inv(sys, l)
    ensures Stacks(S.Reclaim(sys, l.idleBase).tasks) == Stacks(sys.tasks) - Heap.Elements(R.ZombieStacks(sys.tasks, 0))
    ensures Heap.Elements(R.ZombieStacks(sys.tasks, 0)) <= Stacks(sys.tasks)
  {
    hide S.ReclaimFrom, Heap.Canonical, S.Apart, Heap.HasBlock;
    R.ReclaimKeeps(sys, l);
    R.ZombiesOwn(sys, l);
    R.ZombieStacksAre(sys.tasks, 0);
    forall i, j | 0 <= i < |sys.tasks| && 0 <= j < |sys.tasks| && i != j && sys.tasks[j].state == S.ZOMBIE
      ensures sys.tasks[i].base != sys.tasks[j].base
    {
      R.DistinctStacks(sys, l, j, i);
    }
    BuriedStacks(sys.tasks, S.Reclaim(sys, l.idleBase).tasks, R.ZombieStacks(sys.tasks, 0));
  }

  lemma BuriedStacks(tasks: seq<S.Task>, tasks': seq<S.Task>, ps: seq<nat>)
    requires |tasks'| == |tasks| && forall i :: 0 <= i < |tasks| ==> tasks'[i] == R.Buried(tasks[i])
    requires forall p :: p in ps <==> exists k :: 0 <= k < |tasks| && tasks[k].state == S.ZOMBIE && tasks[k].base == p
    requires forall i, j :: 0 <= i < |tasks| && 0 <= j < |tasks| && i != j && tasks[j].state == S.ZOMBIE ==>
      tasks[i].base != tasks[j].base
    requires forall k :: 0 <= k < |tasks| && tasks[k].state == S.ZOMBIE ==> k != 0 && tasks[k].base != 0
    ensures Stacks(tasks') == Stacks(tasks) - Heap.Elements(ps)
    ensures Heap.Elements(ps) <= Stacks(tasks)
  {}

  // ----- Whole runs -----

  lemma StepSound(k: KState, l: S.Layout, a: Action)
    requires Sound(k, l) && May(k, l, a)
    ensures Sound(Do(k, l, a), l)
  {
    hide AfterFileOp, R.Step, R.Enabled, R.Safe, V.Structure, V.Owned, Accounted, Heap.Alloc, Heap.Free;
    match a {
      case FileOp(op) => FileOpSound(k, l, op);
      case Sched(e) => SchedSound(k, l, e);
      case Borrow(request) => BorrowSound(k, l, request);
      case GiveBack(ptr) => GiveBackSound(k, l, ptr);
    }
  }

  /** The kernel as `mm_init` leaves it, with the empty node table that `vfs_init` starts from. */
  ghost predicate Boots(k: KState, l: S.Layout) {
    R.Boots(k.sys, l) && k.fs == I.EMPTY_FS && k.store == map[] && k.loans == {}
  }

  lemma BootsSound(k: KState, l: S.Layout)
    requires Boots(k, l)
    ensures Sound(k, l)
  {
    R.BootsSafe(k.sys, l);
  }

  ghost predicate Advances(k: KState, l: S.Layout, a: Action, k': KState) { May(k, l, a) && k' == Do(k, l, a) }

  /** A run from `mm_init`: `vfs_init`, `task_init` and everything after them. */
  ghost predicate History(states: seq<KState>, actions: seq<Action>, l: S.Layout) {
    |states| == |actions| + 1 && Boots(states[0], l) &&
    forall n :: 0 <= n < |actions| ==> Advances(states[n], l, actions[n], states[n + 1])
  }

  /** In every state of every run, the live heap blocks are exactly the file buffers, the stacks not yet
      reclaimed and the loans, each counted once: nothing is leaked, shared or released twice. */
  lemma {:induction false} EveryStateAccounted(states: seq<KState>, actions: seq<Action>, l: S.Layout, n: nat)
    requires History(states, actions, l) && n <= |actions|
    ensures Sound(states[n], l)
  {
    hide Sound, May, Do, Boots;
    if n == 0 {
      BootsSound(states[0], l);
    } else {
      EveryStateAccounted(states, actions, l, n - 1);
      assert Advances(states[n - 1], l, actions[n - 1], states[n]);
      StepSound(states[n - 1], l, actions[n - 1]);
    }
  }

  /** No stack shares a byte with a file, or with the header of a file's block. */
  lemma StackApartFromFile(k: KState, l: S.Layout, i: nat, j: nat)
    requires Sound(k, l) && 1 <= i < |k.sys.tasks| && k.sys.tasks[i].base != 0
    requires j < |k.fs.nodes| && k.fs.nodes[j].data != 0
    ensures var t, f := k.sys.tasks[i], k.fs.nodes[j];
      t.base + t.size + Heap.HEADER <= f.data || f.data + f.size + 1 + Heap.HEADER <= t.base
  {
    hide Heap.Tiles, Heap.HasBlock, S.Apart, S.Resumable;
    var t, f := k.sys.tasks[i], k.fs.nodes[j];
    R.SafeHeap(k.sys, l);
    assert t.base in Stacks(k.sys.tasks) && f.data in V.Buffers(k.fs.nodes);
    assert S.StackAt(k.sys.heap, l.idleBase, i, t);
    assert V.Backed(k.sys.heap, k.store, f);
    Heap.BlocksApart(k.sys.heap, t.base, t.size, f.data, f.size + 1, l.lo, l.hi);
  }
}
