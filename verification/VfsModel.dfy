/** The RAM filesystem as a value: a flat node table whose parent indices encode the tree, and the
    effect of every operation on it. Nothing here restricts the paths and names a caller may pass. */
module VfsModel {
  import Heap
  import Word32

  const MAX_PATH := 128
  const MAX_NAME := 32
  const MAX_FILES := 128

  datatype Node = Node(name: string, isDir: bool, parent: nat, size: nat, data: nat)

  /** Heap buffers by pointer. BuffersApart is why a write to one leaves the others alone. */
  type Store = map<nat, string>

  datatype Fs = Fs(nodes: seq<Node>, cwd: nat)

  datatype State = State(fs: Fs, heap: seq<Heap.Block>, store: Store)

  datatype Code = Ok | NoEnt | Exist | NoMem | Inval | NoSpc | IsDir | NotDir | NotEmpty | Acces | Io

  datatype Outcome = Outcome(state: State, code: Code)

  // ----- The table -----

  /** Node 0 is the root; every other node comes after its parent, which is a directory. Only files
      have a buffer, and the cwd is a directory. */
  ghost predicate Table(nodes: seq<Node>) {
    1 <= |nodes| <= MAX_FILES &&
    nodes[0].parent == 0 && nodes[0].isDir &&
    (forall i :: 1 <= i < |nodes| ==> UnderDirectory(nodes, i)) &&
    (forall i :: 0 <= i < |nodes| && nodes[i].isDir ==> nodes[i].data == 0)
  }

  predicate UnderDirectory(nodes: seq<Node>, i: nat)
    requires i < |nodes|
  {
    nodes[i].parent < i && nodes[nodes[i].parent].isDir
  }

  lemma ParentInside(nodes: seq<Node>, i: nat)
    requires Table(nodes) && i < |nodes|
    ensures nodes[i].parent <= i && nodes[i].parent < |nodes| && nodes[nodes[i].parent].isDir
    ensures i > 0 ==> nodes[i].parent < i
  {
    if i > 0 { assert UnderDirectory(nodes, i); }
  }

  ghost predicate Structure(fs: Fs) {
    Table(fs.nodes) && fs.cwd < |fs.nodes| && fs.nodes[fs.cwd].isDir
  }

  /** Every file buffer is a live block with room for the file and its NUL, and no two files share one. */
  ghost predicate OwnedFrom(heap: seq<Heap.Block>, store: Store, nodes: seq<Node>) {
    (forall i :: 0 <= i < |nodes| && nodes[i].data != 0 ==> Backed(heap, store, nodes[i])) &&
    (forall i, j :: 0 <= i < j < |nodes| && nodes[i].data != 0 ==> nodes[i].data != nodes[j].data)
  }

  ghost predicate Backed(heap: seq<Heap.Block>, store: Store, n: Node) {
    Heap.HasBlock(heap, n.data, n.size + 1) && n.data in store && |store[n.data]| == n.size + 1
  }

  ghost predicate Owned(s: State) {
    OwnedFrom(s.heap, s.store, s.fs.nodes)
  }

  function Buffers(nodes: seq<Node>): set<nat> {
    set i | 0 <= i < |nodes| && nodes[i].data != 0 :: nodes[i].data
  }

  // ----- Paths -----

  /** Length of the component at the head of `path`: up to '/', the end, or 31 characters. */
  function ComponentLength(path: string, taken: nat := 0): (n: nat)
    ensures n <= |path|
    ensures forall j :: 0 <= j < n ==> path[j] != '/'
    ensures n < |path| && path[n] != '/' ==> taken + n >= MAX_NAME - 1
  {
    if path == "" || path[0] == '/' || taken >= MAX_NAME - 1 then 0 else 1 + ComponentLength(path[1..], taken + 1)
  }

  function Components(path: string): seq<string>
    decreases |path|
  {
    if path == "" then []
    else if path[0] == '/' then Components(path[1..])
    else
      var n := ComponentLength(path);
      [path[..n]] + Components(path[n..])
  }

  function FindChild(nodes: seq<Node>, parent: nat, name: string): (r: int)
    ensures -1 <= r < |nodes|
    ensures r >= 0 ==> nodes[r].parent == parent && nodes[r].name == name
    ensures forall j :: 0 <= j < (if r < 0 then |nodes| else r) ==>
      !(nodes[j].parent == parent && nodes[j].name == name)
  {
    FindChildFrom(nodes, parent, name, 0)
  }

  function FindChildFrom(nodes: seq<Node>, parent: nat, name: string, i: nat): (r: int)
    requires i <= |nodes|
    ensures r == -1 || i <= r < |nodes|
    ensures r >= 0 ==> nodes[r].parent == parent && nodes[r].name == name
    ensures forall j :: i <= j < (if r < 0 then |nodes| else r) ==>
      !(nodes[j].parent == parent && nodes[j].name == name)
    decreases |nodes| - i
  {
    if i == |nodes| then -1
    else if nodes[i].parent == parent && nodes[i].name == name then i
    else FindChildFrom(nodes, parent, name, i + 1)
  }

  function Walk(nodes: seq<Node>, cur: nat, comps: seq<string>): (r: int)
    requires Table(nodes) && cur < |nodes|
    ensures -1 <= r < |nodes|
    decreases |comps|
  {
    if comps == [] then cur
    else if comps[0] == "." then Walk(nodes, cur, comps[1..])
    else if comps[0] == ".." then
      ParentInside(nodes, cur);
      Walk(nodes, nodes[cur].parent, comps[1..])
    else
      var c := FindChild(nodes, cur, comps[0]);
      if c < 0 then -1 else Walk(nodes, c, comps[1..])
  }

  predicate Absolute(path: string) { path != "" && path[0] == '/' }

  function Resolve(fs: Fs, path: string): (r: int)
    requires Structure(fs)
    ensures -1 <= r < |fs.nodes|
  {
    Walk(fs.nodes, if Absolute(path) then 0 else fs.cwd, Components(path))
  }

  function LastSlash(path: string): (r: int)
    ensures -1 <= r < |path|
    ensures r >= 0 ==> path[r] == '/'
    ensures forall j :: r < j < |path| ==> path[j] != '/'
  {
    LastSlashBelow(path, |path|)
  }

  function LastSlashBelow(path: string, n: nat): (r: int)
    requires n <= |path|
    ensures -1 <= r < n
    ensures r >= 0 ==> path[r] == '/'
    ensures forall j :: r < j < n ==> path[j] != '/'
  {
    if n == 0 then -1 else if path[n - 1] == '/' then n - 1 else LastSlashBelow(path, n - 1)
  }

  /** The last component, before any truncation. */
  function LastPart(path: string): string { if '/' in path then LastPart(path[1..]) else path }

  lemma {:induction false} LastPartAfterSlash(path: string)
    ensures LastPart(path) == path[LastSlash(path) + 1..]
  {
    if '/' in path {
      var slash := LastSlash(path);
      assert path[1..][LastSlash(path[1..]) + 1..] == path[slash + 1..] by {
        if slash > 0 { assert path[1..][slash - 1] == '/'; }
        if LastSlash(path[1..]) >= 0 { assert path[LastSlash(path[1..]) + 1] == '/'; }
        assert forall j :: slash < j < |path| ==> path[j] == path[1..][j - 1] || j == 0;
      }
      LastPartAfterSlash(path[1..]);
    }
  }

  /** What `k_strncpy(.., VFS_MAX_NAME - 1)` keeps: at most 30 characters. */
  function Truncate(name: string): (r: string)
    ensures r <= name && |r| == if |name| < 30 then |name| else 30
  {
    if |name| <= MAX_NAME - 2 then name else name[..MAX_NAME - 2]
  }

  datatype Target = Target(code: Code, parent: nat, name: string)

  /** The node in which `path` would be created, or -1. */
  function ParentNode(fs: Fs, path: string): (r: int)
    requires Structure(fs)
    ensures -1 <= r < |fs.nodes|
  {
    var slash := LastSlash(path);
    if slash > 0 then Resolve(fs, path[..slash]) else if slash == 0 then 0 else fs.cwd
  }

  function Split(fs: Fs, path: string): (t: Target)
    requires Structure(fs)
    ensures t.code == Ok ==> t.parent < |fs.nodes| && fs.nodes[t.parent].isDir
  {
    var name := Truncate(LastPart(path));
    var parent := ParentNode(fs, path);
    if LastSlash(path) >= MAX_PATH then Target(Inval, 0, name)
    else if parent < 0 then Target(NoEnt, 0, name)
    else if !fs.nodes[parent].isDir then Target(NotDir, 0, name)
    else Target(Ok, parent, name)
  }

  // ----- Operations -----

  function Create(s: State, path: string, isDir: bool): (o: Outcome)
    requires Structure(s.fs)
    ensures Structure(o.state.fs)
  {
    if |s.fs.nodes| >= MAX_FILES then Outcome(s, NoSpc)
    else
      var t := Split(s.fs, path);
      if t.code != Ok then Outcome(s, t.code)
      else if t.name == "" then Outcome(s, Inval)
      else if FindChild(s.fs.nodes, t.parent, t.name) >= 0 then Outcome(s, Exist)
      else
        AppendKeepsTable(s.fs.nodes, Node(t.name, isDir, t.parent, 0, 0));
        Outcome(s.(fs := s.fs.(nodes := s.fs.nodes + [Node(t.name, isDir, t.parent, 0, 0)])), Ok)
  }

  function Rename(s: State, path: string, name: string): (o: Outcome)
    requires Structure(s.fs)
    ensures Structure(o.state.fs)
  {
    var n := Resolve(s.fs, path);
    if n <= 0 then Outcome(s, NoEnt)
    else if FindChild(s.fs.nodes, s.fs.nodes[n].parent, name) >= 0 then Outcome(s, Exist)
    else
      UpdateKeepsTable(s.fs.nodes, n, s.fs.nodes[n].(name := Truncate(name)));
      Outcome(s.(fs := s.fs.(nodes := s.fs.nodes[n := s.fs.nodes[n].(name := Truncate(name))])), Ok)
  }

  predicate HasChild(nodes: seq<Node>, n: nat) {
    exists i :: 0 <= i < |nodes| && nodes[i].parent == n && i != n
  }

  /** Parent fix-up after node `n` has gone, the reparenting branch included. */
  function FixParent(node: Node, i: nat, n: nat): Node {
    if node.parent > n then node.(parent := node.parent - 1)
    else if node.parent == n && i != 0 then node.(parent := 0)
    else node
  }

  function Compact(nodes: seq<Node>, n: nat): (r: seq<Node>)
    requires n < |nodes|
    ensures |r| == |nodes| - 1
  {
    seq(|nodes| - 1, i requires 0 <= i < |nodes| - 1 => FixParent(if i < n then nodes[i] else nodes[i + 1], i, n))
  }

  function FixCwd(cwd: nat, n: nat, count: nat): nat {
    var c := if cwd == n then 0 else if cwd > n then cwd - 1 else cwd;
    if c >= count then 0 else c
  }

  function Delete(s: State, path: string): (o: Outcome)
    requires Structure(s.fs)
    ensures Structure(o.state.fs)
  {
    var n := Resolve(s.fs, path);
    if n <= 0 then Outcome(s, NoEnt)
    else if s.fs.nodes[n].isDir && HasChild(s.fs.nodes, n) then Outcome(s, NotEmpty)
    else
      DeleteKeepsStructure(s.fs, n);
      Outcome(State(Fs(Compact(s.fs.nodes, n), FixCwd(s.fs.cwd, n, |s.fs.nodes| - 1)),
                    Heap.Free(s.heap, s.fs.nodes[n].data), s.store), Ok)
  }

  function Write(s: State, path: string, data: string): (o: Outcome)
    requires Structure(s.fs)
    ensures Structure(o.state.fs)
  {
    var n := Resolve(s.fs, path);
    if n < 0 then Outcome(s, NoEnt)
    else if s.fs.nodes[n].isDir then Outcome(s, IsDir)
    else
      var a := Heap.Alloc(s.heap, |data| + 1);
      if a.ptr == 0 then Outcome(s, NoMem)
      else
        var node := s.fs.nodes[n].(data := a.ptr, size := |data|);
        UpdateKeepsTable(s.fs.nodes, n, node);
        Outcome(State(s.fs.(nodes := s.fs.nodes[n := node]), Heap.Free(a.blocks, s.fs.nodes[n].data),
                      s.store[a.ptr := data + ['\0']]), Ok)
  }

  function Contents(n: Node, store: Store): string {
    if n.data == 0 || n.data !in store || n.size > |store[n.data]| then "" else store[n.data][..n.size]
  }

  datatype ReadResult = Bytes(bytes: string) | ReadError(code: Code)

  function Read(s: State, path: string, maxlen: nat): ReadResult
    requires Structure(s.fs)
  {
    var n := Resolve(s.fs, path);
    if n < 0 then ReadError(NoEnt)
    else if s.fs.nodes[n].isDir then ReadError(IsDir)
    else
      var bytes := Contents(s.fs.nodes[n], s.store);
      Bytes(if |bytes| <= maxlen then bytes else bytes[..maxlen])
  }

  function Chdir(s: State, path: string): (o: Outcome)
    requires Structure(s.fs)
    ensures Structure(o.state.fs)
  {
    var n := Resolve(s.fs, path);
    if n < 0 then Outcome(s, NoEnt)
    else if !s.fs.nodes[n].isDir then Outcome(s, NotDir)
    else Outcome(s.(fs := s.fs.(cwd := n)), Ok)
  }

  datatype Op =
    | MkDir(path: string)
    | MkFile(path: string)
    | RenameTo(path: string, name: string)
    | Remove(path: string)
    | Save(path: string, data: string)
    | ChangeDir(path: string)

  function Step(s: State, op: Op): (o: Outcome)
    requires Structure(s.fs)
    ensures Structure(o.state.fs)
  {
    match op
    case MkDir(path) => Create(s, path, true)
    case MkFile(path) => Create(s, path, false)
    case RenameTo(path, name) => Rename(s, path, name)
    case Remove(path) => Delete(s, path)
    case Save(path, data) => Write(s, path, data)
    case ChangeDir(path) => Chdir(s, path)
  }

  // ----- Showing a node's path -----

  function FullPath(nodes: seq<Node>, i: nat): string
    requires Table(nodes) && i < |nodes|
    decreases i
  {
    ParentInside(nodes, i);
    if i == 0 then "" else FullPath(nodes, nodes[i].parent) + "/" + nodes[i].name
  }

  function ShownPath(nodes: seq<Node>, i: nat, maxlen: nat): string
    requires Table(nodes) && i < |nodes|
  {
    if i == 0 then "/" else if |FullPath(nodes, i)| < maxlen then FullPath(nodes, i) else "/..."
  }

  /** `build_pwd` stays inside its 128-byte `tmp` and a buffer of `size` bytes. */
  predicate PwdFits(nodes: seq<Node>, i: nat, maxlen: nat, size: nat)
    requires Table(nodes) && i < |nodes|
  {
    if i == 0 then 2 <= size
    else if |FullPath(nodes, i)| < maxlen then |FullPath(nodes, i)| < MAX_PATH
    else 5 <= size
  }

  // ----- What holds for every path and name -----

  /** Why a creation is refused, and what it adds otherwise. */
  lemma CreateCodes(s: State, path: string, isDir: bool)
    requires Structure(s.fs)
    ensures var o, parent := Create(s, path, isDir), ParentNode(s.fs, path);
      var proper := |s.fs.nodes| < 128 && LastSlash(path) < 128;
      var inside := proper && parent >= 0 && s.fs.nodes[parent].isDir;
      var name := Truncate(LastPart(path));
      var taken := exists i :: 0 <= i < |s.fs.nodes| && s.fs.nodes[i].parent == parent && s.fs.nodes[i].name == name;
      (o.code == NoSpc <==> |s.fs.nodes| >= 128) &&
      (o.code == Inval <==> |s.fs.nodes| < 128 && (LastSlash(path) >= 128 || (inside && LastPart(path) == ""))) &&
      (o.code == NoEnt <==> proper && parent < 0) &&
      (o.code == NotDir <==> proper && parent >= 0 && !s.fs.nodes[parent].isDir) &&
      (o.code == Exist <==> inside && name != "" && taken) &&
      (o.code == Ok <==> inside && name != "" && !taken) &&
      o.state == if o.code == Ok then s.(fs := s.fs.(nodes := s.fs.nodes + [Node(name, isDir, parent, 0, 0)])) else s
  {
    hide Resolve, LastPart, ParentNode;
  }

  /** Why a rename is refused, and what it stores otherwise: the whole new name is compared, 30 characters kept. */
  lemma RenameCodes(s: State, path: string, name: string)
    requires Structure(s.fs)
    ensures var o, n, nodes := Rename(s, path, name), Resolve(s.fs, path), s.fs.nodes;
      var taken := n > 0 && exists i :: 0 <= i < |nodes| && nodes[i].parent == nodes[n].parent && nodes[i].name == name;
      (o.code == NoEnt <==> n <= 0) && (o.code == Exist <==> taken) && (o.code == Ok <==> n > 0 && !taken) &&
      o.state == if o.code != Ok then s else
        s.(fs := s.fs.(nodes := nodes[n := nodes[n].(name := if |name| <= 30 then name else name[..30])]))
  {
    hide Resolve;
  }

  /** The index a surviving node had before node `n` was taken out, and the one it has after. */
  function Old(i: nat, n: nat): nat { if i < n then i else i + 1 }

  function New(i: nat, n: nat): nat
    requires i != n
  {
    if i < n then i else i - 1
  }

  /** Nothing hangs below a node that `vfs_delete` goes on to remove. */
  lemma NoOrphans(nodes: seq<Node>, n: nat)
    requires Table(nodes) && 0 < n < |nodes| && !(nodes[n].isDir && HasChild(nodes, n))
    ensures forall i :: 0 <= i < |nodes| && i != n ==> nodes[i].parent != n
  {
    forall i | 0 <= i < |nodes| && i != n ensures nodes[i].parent != n {
      ParentInside(nodes, i);
    }
  }

  /** A surviving node keeps everything but its index and, with it, the number its parent goes by. */
  lemma Survivor(nodes: seq<Node>, n: nat, i: nat)
    requires Table(nodes) && 0 < n < |nodes| && !(nodes[n].isDir && HasChild(nodes, n))
    requires i < |nodes| && i != n
    ensures nodes[i].parent != n
    ensures Compact(nodes, n)[New(i, n)] == nodes[i].(parent := New(nodes[i].parent, n))
  {
    NoOrphans(nodes, n);
    ParentInside(nodes, i);
    var k := New(i, n);
    assert (if k < n then nodes[k] else nodes[k + 1]) == nodes[i];
    assert Compact(nodes, n)[k] == FixParent(nodes[i], k, n);
  }

  /** Deleting keeps the structure; the reparenting branch and the final cwd guard never fire. */
  lemma DeleteKeepsStructure(fs: Fs, n: nat)
    requires Structure(fs) && 0 < n < |fs.nodes| && !(fs.nodes[n].isDir && HasChild(fs.nodes, n))
    ensures forall i :: 0 <= i < |fs.nodes| && i != n ==> fs.nodes[i].parent != n
    ensures FixCwd(fs.cwd, n, |fs.nodes| - 1) == if fs.cwd == n then 0 else New(fs.cwd, n)
    ensures Structure(Fs(Compact(fs.nodes, n), FixCwd(fs.cwd, n, |fs.nodes| - 1)))
  {
    CompactKeepsTable(fs.nodes, n);
    NoOrphans(fs.nodes, n);
    Survivor(fs.nodes, n, 0);
    if fs.cwd != n { Survivor(fs.nodes, n, fs.cwd); }
  }

  lemma CompactKeepsTable(nodes: seq<Node>, n: nat)
    requires Table(nodes) && 0 < n < |nodes| && !(nodes[n].isDir && HasChild(nodes, n))
    ensures Table(Compact(nodes, n))
  {
    hide HasChild;
    var r := Compact(nodes, n);
    forall i | 1 <= i < |r| ensures UnderDirectory(r, i) { ParentSurvives(nodes, n, i); }
    forall i | 0 <= i < |r| && r[i].isDir ensures r[i].data == 0 {
      Survivor(nodes, n, Old(i, n));
    }
    Survivor(nodes, n, 0);
  }

  lemma ParentSurvives(nodes: seq<Node>, n: nat, i: nat)
    requires Table(nodes) && 0 < n < |nodes| && !(nodes[n].isDir && HasChild(nodes, n)) && 1 <= i < |nodes| - 1
    ensures UnderDirectory(Compact(nodes, n), i)
  {
    hide HasChild, Compact;
    Survivor(nodes, n, Old(i, n));
    ParentInside(nodes, Old(i, n));
    Survivor(nodes, n, nodes[Old(i, n)].parent);
  }

  /** The live heap blocks that no file owns are the same before and after: only file buffers are
      allocated or released, and none is lost. */
  ghost predicate OthersUntouched(s: State, s': State) {
    Heap.LivePointers(s'.heap) - Buffers(s'.fs.nodes) == Heap.LivePointers(s.heap) - Buffers(s.fs.nodes)
  }

  /** Lengths are `int`s. */
  predicate Sized(op: Op) { op.Save? ==> |op.data| < 0x7FFF_FFFF }

  /** No operation, whatever its arguments, breaks the structure or the ownership of buffers. */
  lemma StepKeepsStructure(s: State, op: Op, lo: nat, hi: nat)
    requires Structure(s.fs) && Owned(s) && Heap.Canonical(s.heap, lo, hi) && 0 < lo && Sized(op)
    ensures Structure(Step(s, op).state.fs) && Owned(Step(s, op).state)
    ensures Heap.Canonical(Step(s, op).state.heap, lo, hi) && OthersUntouched(s, Step(s, op).state)
  {
    var nodes := s.fs.nodes;
    var s' := Step(s, op).state;
    match op {
      case MkDir(path) => CreateKeepsOwned(s, path, true);
      case MkFile(path) => CreateKeepsOwned(s, path, false);
      case RenameTo(path, name) =>
        var n := Resolve(s.fs, path);
        if n > 0 { SameBuffers(s.heap, s.store, nodes, s'.fs.nodes); }
      case Remove(path) =>
        var n := Resolve(s.fs, path);
        if n > 0 && !(nodes[n].isDir && HasChild(nodes, n)) { DeleteKeepsOwned(s, path, n, lo, hi); }
      case Save(path, data) =>
        var n := Resolve(s.fs, path);
        if n >= 0 && !nodes[n].isDir { WriteKeepsOwned(s, path, data, n, lo, hi); }
      case ChangeDir(path) =>
    }
  }

  /** Every run keeps every file buffer a distinct live block, and leaves the blocks of others live. */
  lemma {:induction false} RunKeepsOwnership(s: State, ops: seq<Op>, lo: nat, hi: nat)
    requires Structure(s.fs) && Owned(s) && Heap.Canonical(s.heap, lo, hi) && 0 < lo
    requires forall op :: op in ops ==> Sized(op)
    ensures var s' := Run(s, ops);
      Structure(s'.fs) && Owned(s') && Heap.Canonical(s'.heap, lo, hi) && OthersUntouched(s, s')
    decreases |ops|
  {
    if ops != [] {
      StepKeepsStructure(s, ops[0], lo, hi);
      assert forall op :: op in ops[1..] ==> op in ops;
      RunKeepsOwnership(Step(s, ops[0]).state, ops[1..], lo, hi);
    }
  }

  lemma CreateKeepsOwned(s: State, path: string, isDir: bool)
    requires Structure(s.fs) && Owned(s)
    ensures var s' := Create(s, path, isDir).state; Owned(s') && s'.heap == s.heap && OthersUntouched(s, s')
  {
    hide Resolve, LastPart, Truncate, ParentNode, FindChild;
    var s' := Create(s, path, isDir).state;
    if s' != s {
      SameBuffers(s.heap, s.store, s.fs.nodes, s'.fs.nodes);
    }
  }

  /** Buffers and sizes unchanged, possibly with further nodes that have none. */
  lemma SameBuffers(heap: seq<Heap.Block>, store: Store, nodes: seq<Node>, nodes': seq<Node>)
    requires OwnedFrom(heap, store, nodes) && |nodes| <= |nodes'|
    requires forall i :: 0 <= i < |nodes'| ==>
      (if i < |nodes| then nodes'[i].data == nodes[i].data && nodes'[i].size == nodes[i].size else nodes'[i].data == 0)
    ensures OwnedFrom(heap, store, nodes') && Buffers(nodes') == Buffers(nodes)
  {}

  lemma CompactBuffers(heap: seq<Heap.Block>, heap': seq<Heap.Block>, store: Store, nodes: seq<Node>, n: nat)
    requires OwnedFrom(heap, store, nodes) && n < |nodes|
    requires Heap.Carried(heap, heap', {nodes[n].data})
    ensures OwnedFrom(heap', store, Compact(nodes, n))
    ensures Buffers(Compact(nodes, n)) == Buffers(nodes) - {nodes[n].data}
    ensures nodes[n].data != 0 ==> nodes[n].data in Buffers(nodes)
  {
    BuffersLessOne(heap, store, nodes, n);
    hide Buffers;
    CompactKeepsData(nodes, n);
    hide Compact;
    var nodes' := Compact(nodes, n);
    forall i | 0 <= i < |nodes'| && nodes'[i].data != 0 ensures Backed(heap', store, nodes'[i]) {
      assert Backed(heap, store, nodes[Old(i, n)]);
      DistinctBuffers(heap, store, nodes, Old(i, n), n);
    }
    forall i, j | 0 <= i < j < |nodes'| && nodes'[i].data != 0 ensures nodes'[i].data != nodes'[j].data {
      DistinctBuffers(heap, store, nodes, Old(i, n), Old(j, n));
    }
  }

  lemma CompactKeepsData(nodes: seq<Node>, n: nat)
    requires n < |nodes|
    ensures var r := Compact(nodes, n);
      forall i :: 0 <= i < |r| ==> r[i].data == nodes[Old(i, n)].data && r[i].size == nodes[Old(i, n)].size
  {
    var r := Compact(nodes, n);
    forall i | 0 <= i < |r| ensures r[i].data == nodes[Old(i, n)].data && r[i].size == nodes[Old(i, n)].size {
      assert r[i] == FixParent(if i < n then nodes[i] else nodes[i + 1], i, n);
    }
  }

  lemma BuffersLessOne(heap: seq<Heap.Block>, store: Store, nodes: seq<Node>, n: nat)
    requires OwnedFrom(heap, store, nodes) && n < |nodes|
    ensures Buffers(Compact(nodes, n)) == Buffers(nodes) - {nodes[n].data}
  {
    CompactKeepsData(nodes, n);
    hide Compact;
    var nodes' := Compact(nodes, n);
    forall p ensures p in Buffers(nodes') <==> p in Buffers(nodes) - {nodes[n].data} {
      if p in Buffers(nodes') {
        var i :| 0 <= i < |nodes'| && nodes'[i].data != 0 && nodes'[i].data == p;
        DistinctBuffers(heap, store, nodes, Old(i, n), n);
        assert nodes[Old(i, n)].data == p;
      }
      if p in Buffers(nodes) - {nodes[n].data} {
        var i :| 0 <= i < |nodes| && nodes[i].data != 0 && nodes[i].data == p;
        assert Old(New(i, n), n) == i && nodes'[New(i, n)].data == p;
      }
    }
  }

  lemma DistinctBuffers(heap: seq<Heap.Block>, store: Store, nodes: seq<Node>, i: nat, j: nat)
    requires OwnedFrom(heap, store, nodes) && i < |nodes| && j < |nodes| && i != j && nodes[i].data != 0
    ensures nodes[i].data != nodes[j].data
  {}

  /** The bytes of different files do not overlap each other or any header. */
  lemma BuffersApart(s: State, i: nat, j: nat, lo: nat, hi: nat)
    requires Owned(s) && Heap.Tiles(s.heap, lo, hi) && i < |s.fs.nodes| && j < |s.fs.nodes| && i != j
    requires s.fs.nodes[i].data != 0 && s.fs.nodes[j].data != 0
    ensures var m, n := s.fs.nodes[i], s.fs.nodes[j];
      m.data + m.size + 1 + Heap.HEADER <= n.data || n.data + n.size + 1 + Heap.HEADER <= m.data
    ensures lo + Heap.HEADER <= s.fs.nodes[i].data && s.fs.nodes[i].data + s.fs.nodes[i].size + 1 <= hi
  {
    var m, n := s.fs.nodes[i], s.fs.nodes[j];
    assert Backed(s.heap, s.store, m) && Backed(s.heap, s.store, n);
    DistinctBuffers(s.heap, s.store, s.fs.nodes, i, j);
    Heap.BlocksApart(s.heap, m.data, m.size + 1, n.data, n.size + 1, lo, hi);
    Heap.BlockInside(s.heap, m.data, m.size + 1, lo, hi);
  }

  lemma FreeKeepsOthers(bs: seq<Heap.Block>, ptr: nat, lo: nat, hi: nat)
    requires Heap.Canonical(bs, lo, hi)
    ensures Heap.Canonical(Heap.Free(bs, ptr), lo, hi)
    ensures Heap.LivePointers(Heap.Free(bs, ptr)) ==
      if ptr == 0 then Heap.LivePointers(bs) else Heap.LivePointers(bs) - {ptr}
  {
    Heap.FreeEffect(bs, ptr, lo, hi);
    if ptr != 0 { Heap.FreePointers(bs, ptr, lo, hi); }
  }

  lemma DeleteKeepsOwned(s: State, path: string, n: nat, lo: nat, hi: nat)
    requires Structure(s.fs) && Owned(s) && Heap.Canonical(s.heap, lo, hi)
    requires Resolve(s.fs, path) == n && n > 0 && !(s.fs.nodes[n].isDir && HasChild(s.fs.nodes, n))
    ensures var s' := Delete(s, path).state;
      Owned(s') && Heap.Canonical(s'.heap, lo, hi) && OthersUntouched(s, s')
  {
    hide Resolve, HasChild, Heap.Canonical, Heap.Free, Heap.LivePointers, OwnedFrom, Compact;
    var nodes := s.fs.nodes;
    var heap' := Heap.Free(s.heap, nodes[n].data);
    FreeKeepsOthers(s.heap, nodes[n].data, lo, hi);
    Heap.FreeBlocks(s.heap, nodes[n].data, lo, hi);
    CompactBuffers(s.heap, heap', s.store, nodes, n);
  }

  lemma WriteKeepsOwned(s: State, path: string, data: string, n: nat, lo: nat, hi: nat)
    requires Structure(s.fs) && Owned(s) && Heap.Canonical(s.heap, lo, hi) && 0 < lo && |data| < 0x7FFF_FFFF
    requires Resolve(s.fs, path) == n && !s.fs.nodes[n].isDir
    ensures var s' := Write(s, path, data).state;
      Owned(s') && Heap.Canonical(s'.heap, lo, hi) && OthersUntouched(s, s')
  {
    hide Resolve, Heap.Canonical, Heap.Alloc, Heap.Free, Heap.LivePointers, OwnedFrom, Heap.HasBlock;
    var node := s.fs.nodes[n];
    var a := Heap.Alloc(s.heap, |data| + 1);
    Heap.AllocEffect(s.heap, |data| + 1, lo, hi);
    Heap.AllocBlocks(s.heap, |data| + 1, lo, hi);
    Heap.RoundUpCovers(|data| + 1);
    if a.ptr != 0 {
      Heap.PointersOfLive(s.heap, a.ptr);
      var heap' := Heap.Free(a.blocks, node.data);
      FreeKeepsOthers(a.blocks, node.data, lo, hi);
      Heap.FreeBlocks(a.blocks, node.data, lo, hi);
      if node.data != 0 { BufferIsLive(s, n); }
      SmallerBlock(a.blocks, a.ptr, Word32.RoundUp(|data| + 1), |data| + 1);
      BlockStays(a.blocks, heap', {node.data}, a.ptr, |data| + 1);
      CarriedTwice(s.heap, a.blocks, heap', {node.data});
      NewBufferIsNew(s, a.ptr);
      ReplaceBuffer(s.heap, heap', s.store, s.fs.nodes, n, a.ptr, data + ['\0'], |data|);
    }
  }

  lemma BufferIsLive(s: State, n: nat)
    requires Owned(s) && n < |s.fs.nodes| && s.fs.nodes[n].data != 0
    ensures Heap.IsLive(s.heap, s.fs.nodes[n].data) && s.fs.nodes[n].data in Heap.LivePointers(s.heap)
  {
    assert Backed(s.heap, s.store, s.fs.nodes[n]);
    Heap.BlockIsLive(s.heap, s.fs.nodes[n].data, s.fs.nodes[n].size + 1);
  }

  lemma NewBufferIsNew(s: State, ptr: nat)
    requires Owned(s) && ptr !in Heap.LivePointers(s.heap) && ptr != 0
    ensures forall i :: 0 <= i < |s.fs.nodes| ==> s.fs.nodes[i].data != ptr
  {
    forall i | 0 <= i < |s.fs.nodes| ensures s.fs.nodes[i].data != ptr {
      if s.fs.nodes[i].data != 0 { BufferIsLive(s, i); }
    }
  }

  lemma SmallerBlock(heap: seq<Heap.Block>, p: nat, n: nat, m: nat)
    requires Heap.HasBlock(heap, p, n) && m <= n
    ensures Heap.HasBlock(heap, p, m)
  {}

  lemma BlockStays(heap: seq<Heap.Block>, heap': seq<Heap.Block>, released: set<nat>, p: nat, n: nat)
    requires Heap.Carried(heap, heap', released) && Heap.HasBlock(heap, p, n) && p !in released
    ensures Heap.HasBlock(heap', p, n)
  {}

  lemma CarriedTwice(a: seq<Heap.Block>, b: seq<Heap.Block>, c: seq<Heap.Block>, released: set<nat>)
    requires Heap.Carried(a, b, {}) && Heap.Carried(b, c, released)
    ensures Heap.Carried(a, c, released)
  {
    hide Heap.HasBlock;
  }

  lemma ReplaceBuffer(heap: seq<Heap.Block>, heap': seq<Heap.Block>, store: Store, nodes: seq<Node>, n: nat, ptr: nat,
                      bytes: string, size: nat)
    requires OwnedFrom(heap, store, nodes) && n < |nodes| && ptr != 0 && |bytes| == size + 1
    requires Heap.Carried(heap, heap', {nodes[n].data}) && Heap.HasBlock(heap', ptr, size + 1)
    requires forall i :: 0 <= i < |nodes| ==> nodes[i].data != ptr
    ensures var nodes' := nodes[n := nodes[n].(data := ptr, size := size)];
      OwnedFrom(heap', store[ptr := bytes], nodes') && Buffers(nodes') == Buffers(nodes) - {nodes[n].data} + {ptr}
    ensures nodes[n].data != 0 ==> nodes[n].data in Buffers(nodes)
  {
    hide Heap.HasBlock;
    var nodes' := nodes[n := nodes[n].(data := ptr, size := size)];
    forall i | 0 <= i < |nodes'| && nodes'[i].data != 0 ensures Backed(heap', store[ptr := bytes], nodes'[i]) {
      if i != n {
        assert Backed(heap, store, nodes[i]);
        DistinctBuffers(heap, store, nodes, i, n);
      }
    }
    forall i, j | 0 <= i < j < |nodes'| && nodes'[i].data != 0 ensures nodes'[i].data != nodes'[j].data {
      if i != n && j != n { DistinctBuffers(heap, store, nodes, i, j); }
    }
    BuffersReplaced(heap, store, nodes, n, ptr, size);
  }

  lemma BuffersReplaced(heap: seq<Heap.Block>, store: Store, nodes: seq<Node>, n: nat, ptr: nat, size: nat)
    requires OwnedFrom(heap, store, nodes) && n < |nodes| && ptr != 0
    ensures Buffers(nodes[n := nodes[n].(data := ptr, size := size)]) == Buffers(nodes) - {nodes[n].data} + {ptr}
  {
    var nodes' := nodes[n := nodes[n].(data := ptr, size := size)];
    forall p ensures p in Buffers(nodes') <==> p in Buffers(nodes) - {nodes[n].data} + {ptr} {
      if p in Buffers(nodes') {
        var i :| 0 <= i < |nodes'| && nodes'[i].data != 0 && nodes'[i].data == p;
        if i != n {
          assert nodes[i].data == p;
          DistinctBuffers(heap, store, nodes, i, n);
        }
      }
      if p in Buffers(nodes) - {nodes[n].data} {
        var i :| 0 <= i < |nodes| && nodes[i].data != 0 && nodes[i].data == p;
        assert nodes'[i].data == p;
      } else if p == ptr {
        assert nodes'[n].data == p;
      }
    }
  }

  function Run(s: State, ops: seq<Op>): (r: State)
    requires Structure(s.fs)
    ensures Structure(r.fs)
    decreases |ops|
  {
    if ops == [] then s else Run(Step(s, ops[0]).state, ops[1..])
  }

  lemma AppendKeepsTable(nodes: seq<Node>, node: Node)
    requires Table(nodes) && |nodes| < MAX_FILES
    requires node.parent < |nodes| && nodes[node.parent].isDir && node.data == 0
    ensures Table(nodes + [node])
  {
    var r := nodes + [node];
    forall i | 1 <= i < |r| ensures UnderDirectory(r, i) {
      if i < |nodes| { assert UnderDirectory(nodes, i); }
    }
  }

  /** Replacing a node by one of the same kind and parent. */
  lemma UpdateKeepsTable(nodes: seq<Node>, n: nat, node: Node)
    requires Table(nodes) && n < |nodes| && node.parent == nodes[n].parent && node.isDir == nodes[n].isDir
    requires node.isDir ==> node.data == 0
    ensures Table(nodes[n := node])
  {
    var r := nodes[n := node];
    forall i | 1 <= i < |r| ensures UnderDirectory(r, i) {
      assert UnderDirectory(nodes, i);
    }
  }
}
