/** The filesystem as its users see it, a map from paths to directories and file contents, and the
    proof that the node table refines it over every run. */
module VfsTree {
  import Heap
  import opened VfsModel

  type Path = seq<string>

  datatype Entry = Dir | File(bytes: string)

  datatype Tree = Tree(entries: map<Path, Entry>, cwd: Path)

  datatype Lookup = Missing | Found(path: Path)

  // ----- The abstract filesystem -----

  function Parent(p: Path): Path { if p == [] then [] else p[..|p| - 1] }

  function Follow(entries: map<Path, Entry>, cur: Path, comps: seq<string>): Lookup
    decreases |comps|
  {
    if comps == [] then Found(cur)
    else if comps[0] == "." then Follow(entries, cur, comps[1..])
    else if comps[0] == ".." then Follow(entries, Parent(cur), comps[1..])
    else if cur + [comps[0]] in entries then Follow(entries, cur + [comps[0]], comps[1..])
    else Missing
  }

  function Locate(t: Tree, path: string): Lookup {
    Follow(t.entries, if path != "" && path[0] == '/' then [] else t.cwd, Components(path))
  }

  /** The directory part of `path` names the place where a new entry would go. */
  function Place(t: Tree, path: string): Lookup {
    var slash := LastSlash(path);
    if slash > 0 then Locate(t, path[..slash]) else if slash == 0 then Found([]) else Found(t.cwd)
  }

  /** A name that `split_path`, `vfs_rename` and `resolve_path` all treat as one component. */
  predicate WellFormedName(name: string) {
    1 <= |name| <= 30 && '/' !in name && name != "." && name != ".."
  }

  predicate WellFormedOp(op: Op) {
    match op
    case MkDir(path) => LastPart(path) == "" || WellFormedName(LastPart(path))
    case MkFile(path) => LastPart(path) == "" || WellFormedName(LastPart(path))
    case RenameTo(_, name) => WellFormedName(name)
    case Remove(_) => true
    case Save(_, _) => Sized(op)
    case ChangeDir(_) => true
  }

  ghost predicate Creates(t: Tree, path: string, entry: Entry, t': Tree, code: Code) {
    if |t.entries| >= 128 then code == NoSpc && t' == t
    else if LastSlash(path) >= 128 then code == Inval && t' == t
    else match Place(t, path)
      case Missing => code == NoEnt && t' == t
      case Found(dir) =>
        if dir !in t.entries then false
        else if t.entries[dir] != Dir then code == NotDir && t' == t
        else if LastPart(path) == "" then code == Inval && t' == t
        else if dir + [LastPart(path)] in t.entries then code == Exist && t' == t
        else code == Ok && t' == t.(entries := t.entries[dir + [LastPart(path)] := entry])
  }

  /** Where `p` lives once the entry `from` has been given the name `name`. */
  function Rekey(p: Path, from: Path, name: string): Path
    requires from != []
  {
    if from <= p then from[..|from| - 1] + [name] + p[|from|..] else p
  }

  /** Renaming moves the entries at and below `from`, whole, and nothing else. */
  ghost predicate Rekeyed(t: Tree, from: Path, name: string, t': Tree)
    requires from != []
  {
    t'.cwd == Rekey(t.cwd, from, name) &&
    t'.entries.Keys == (set p | p in t.entries :: Rekey(p, from, name)) &&
    forall p :: p in t.entries ==> t'.entries[Rekey(p, from, name)] == t.entries[p]
  }

  ghost predicate Occupied(entries: map<Path, Entry>, p: Path) {
    exists name :: p + [name] in entries
  }

  /** What each operation does to the tree. `room` says whether the heap can hold the data to save. */
  ghost predicate TreeStep(t: Tree, op: Op, room: bool, t': Tree, code: Code) {
    match op
    case MkDir(path) => Creates(t, path, Dir, t', code)
    case MkFile(path) => Creates(t, path, File(""), t', code)
    case RenameTo(path, name) => (
      match Locate(t, path)
      case Missing => code == NoEnt && t' == t
      case Found(p) =>
        if p == [] then code == NoEnt && t' == t
        else if Parent(p) + [name] in t.entries then code == Exist && t' == t
        else code == Ok && Rekeyed(t, p, name, t'))
    case Remove(path) => (
      match Locate(t, path)
      case Missing => code == NoEnt && t' == t
      case Found(p) =>
        if p == [] then code == NoEnt && t' == t
        else if Occupied(t.entries, p) then code == NotEmpty && t' == t
        else code == Ok && t' == Tree(t.entries - {p}, if t.cwd == p then [] else t.cwd))
    case Save(path, data) => (
      match Locate(t, path)
      case Missing => code == NoEnt && t' == t
      case Found(p) =>
        if p !in t.entries then false
        else if t.entries[p] == Dir then code == IsDir && t' == t
        else if !room then code == NoMem && t' == t
        else code == Ok && t' == t.(entries := t.entries[p := File(data)]))
    case ChangeDir(path) => (
      match Locate(t, path)
      case Missing => code == NoEnt && t' == t
      case Found(p) =>
        if p !in t.entries then false
        else if t.entries[p] != Dir then code == NotDir && t' == t
        else code == Ok && t' == t.(cwd := p))
  }

  // ----- The tree a node table stands for -----

  function PathOf(nodes: seq<Node>, i: nat): Path
    requires Table(nodes) && i < |nodes|
    decreases i
  {
    ParentInside(nodes, i);
    if i == 0 then [] else PathOf(nodes, nodes[i].parent) + [nodes[i].name]
  }

  function EntryOf(n: Node, store: Store): Entry {
    if n.isDir then Dir else File(Contents(n, store))
  }

  /** Names are well formed and no directory has two entries of one name. */
  ghost predicate Named(nodes: seq<Node>) {
    (forall i :: 1 <= i < |nodes| ==> WellFormedName(nodes[i].name)) &&
    (forall i, j :: 1 <= i < j < |nodes| && nodes[i].parent == nodes[j].parent ==> nodes[i].name != nodes[j].name)
  }

  ghost function PathsBelow(nodes: seq<Node>, n: nat): set<Path>
    requires Table(nodes) && n <= |nodes|
  {
    set i | 0 <= i < n :: PathOf(nodes, i)
  }

  ghost function Paths(nodes: seq<Node>): set<Path>
    requires Table(nodes)
  {
    PathsBelow(nodes, |nodes|)
  }

  ghost predicate IsNodeAt(nodes: seq<Node>, p: Path, i: nat)
    requires Table(nodes)
  {
    i < |nodes| && PathOf(nodes, i) == p
  }

  ghost function NodeAt(nodes: seq<Node>, p: Path): (i: nat)
    requires Table(nodes) && p in Paths(nodes)
    ensures IsNodeAt(nodes, p, i)
  {
    var j :| 0 <= j < |nodes| && PathOf(nodes, j) == p;
    assert IsNodeAt(nodes, p, j);
    var i :| IsNodeAt(nodes, p, i);
    i
  }

  ghost function Entries(nodes: seq<Node>, store: Store): map<Path, Entry>
    requires Table(nodes)
  {
    map p | p in Paths(nodes) :: EntryOf(nodes[NodeAt(nodes, p)], store)
  }

  ghost function Abstract(s: State): Tree
    requires Structure(s.fs)
  {
    Tree(Entries(s.fs.nodes, s.store), PathOf(s.fs.nodes, s.fs.cwd))
  }

  // ----- Paths identify nodes -----

  lemma {:induction false} PathOfInjective(nodes: seq<Node>, i: nat, j: nat)
    requires Table(nodes) && Named(nodes) && i < |nodes| && j < |nodes| && PathOf(nodes, i) == PathOf(nodes, j)
    ensures i == j
    decreases i
  {
    ParentInside(nodes, i);
    ParentInside(nodes, j);
    if i != 0 && j != 0 {
      var p, q := PathOf(nodes, nodes[i].parent), PathOf(nodes, nodes[j].parent);
      assert (p + [nodes[i].name])[|p|] == (q + [nodes[j].name])[|q|];
      assert p == (p + [nodes[i].name])[..|p|] == (q + [nodes[j].name])[..|q|] == q;
      PathOfInjective(nodes, nodes[i].parent, nodes[j].parent);
    }
  }

  lemma EntryAt(nodes: seq<Node>, store: Store, i: nat)
    requires Table(nodes) && Named(nodes) && i < |nodes|
    ensures PathOf(nodes, i) in Entries(nodes, store)
    ensures Entries(nodes, store)[PathOf(nodes, i)] == EntryOf(nodes[i], store)
  {
    assert PathOf(nodes, i) in Paths(nodes);
    PathOfInjective(nodes, i, NodeAt(nodes, PathOf(nodes, i)));
  }

  /** `m` is the tree of the table as soon as it agrees with it node by node. */
  lemma EntriesAre(nodes: seq<Node>, store: Store, m: map<Path, Entry>)
    requires Table(nodes) && Named(nodes)
    requires forall i :: 0 <= i < |nodes| ==> PathOf(nodes, i) in m && m[PathOf(nodes, i)] == EntryOf(nodes[i], store)
    requires forall p :: p in m ==> p in Paths(nodes)
    ensures m == Entries(nodes, store)
  {}

  lemma ChildPath(nodes: seq<Node>, cur: nat, name: string)
    requires Table(nodes) && Named(nodes) && cur < |nodes| && '/' !in name
    requires nodes[0].name == "/"
    ensures var c := FindChild(nodes, cur, name);
      if c >= 0 then PathOf(nodes, c) == PathOf(nodes, cur) + [name] else PathOf(nodes, cur) + [name] !in Paths(nodes)
  {
    var c := FindChild(nodes, cur, name);
    if c >= 0 {
      assert c != 0 by { assert "/"[0] in "/"; }
    } else if PathOf(nodes, cur) + [name] in Paths(nodes) {
      var i := NodeAt(nodes, PathOf(nodes, cur) + [name]);
      ParentInside(nodes, i);
      LastOfPath(nodes, i, PathOf(nodes, cur), name);
      PathOfInjective(nodes, nodes[i].parent, cur);
      assert false;
    }
  }

  lemma LastOfPath(nodes: seq<Node>, i: nat, dir: Path, name: string)
    requires Table(nodes) && i < |nodes| && PathOf(nodes, i) == dir + [name]
    ensures i > 0 && nodes[i].name == name && nodes[i].parent < i && PathOf(nodes, nodes[i].parent) == dir
  {
    ParentInside(nodes, i);
    if i > 0 {
      var p := PathOf(nodes, nodes[i].parent);
      assert (p + [nodes[i].name])[|p|] == (dir + [name])[|dir|];
      assert p == (p + [nodes[i].name])[..|p|] == (dir + [name])[..|dir|] == dir;
    }
  }

  lemma {:induction false} ComponentsClean(path: string)
    ensures forall c :: c in Components(path) ==> '/' !in c && 1 <= |c| <= 31
    decreases |path|
  {
    if path == "" {
    } else if path[0] == '/' {
      ComponentsClean(path[1..]);
    } else {
      var n := ComponentLength(path);
      ComponentBound(path, 0);
      ComponentsClean(path[n..]);
    }
  }

  lemma {:induction false} ComponentBound(path: string, taken: nat)
    requires taken <= MAX_NAME - 1
    ensures taken + ComponentLength(path, taken) <= MAX_NAME - 1
  {
    if !(path == "" || path[0] == '/' || taken >= MAX_NAME - 1) { ComponentBound(path[1..], taken + 1); }
  }

  lemma {:induction false} WalkFollows(nodes: seq<Node>, store: Store, cur: nat, comps: seq<string>)
    requires Table(nodes) && Named(nodes) && cur < |nodes| && nodes[0].name == "/"
    requires forall c :: c in comps ==> '/' !in c
    ensures var r := Walk(nodes, cur, comps);
      Follow(Entries(nodes, store), PathOf(nodes, cur), comps) == if r < 0 then Missing else Found(PathOf(nodes, r))
    decreases |comps|
  {
    if comps != [] {
      assert forall c :: c in comps[1..] ==> c in comps;
      if comps[0] == "." {
        WalkFollows(nodes, store, cur, comps[1..]);
      } else if comps[0] == ".." {
        ParentInside(nodes, cur);
        assert Parent(PathOf(nodes, cur)) == PathOf(nodes, nodes[cur].parent);
        WalkFollows(nodes, store, nodes[cur].parent, comps[1..]);
      } else {
        ChildPath(nodes, cur, comps[0]);
        var c := FindChild(nodes, cur, comps[0]);
        if c >= 0 {
          EntryAt(nodes, store, c);
          WalkFollows(nodes, store, c, comps[1..]);
        }
      }
    }
  }

  // ----- The reachable states -----

  ghost predicate Reachable(s: State) {
    Structure(s.fs) && Named(s.fs.nodes) && Owned(s) && s.fs.nodes[0].name == "/"
  }

  lemma ResolveLocates(s: State, path: string)
    requires Reachable(s)
    ensures var r := Resolve(s.fs, path);
      Locate(Abstract(s), path) == (if r < 0 then Missing else Found(PathOf(s.fs.nodes, r))) &&
      (r >= 0 ==> PathOf(s.fs.nodes, r) in Abstract(s).entries &&
                  Abstract(s).entries[PathOf(s.fs.nodes, r)] == EntryOf(s.fs.nodes[r], s.store) &&
                  (PathOf(s.fs.nodes, r) == [] <==> r == 0))
  {
    ComponentsClean(path);
    WalkFollows(s.fs.nodes, s.store, if Absolute(path) then 0 else s.fs.cwd, Components(path));
    var r := Resolve(s.fs, path);
    if r >= 0 { EntryAt(s.fs.nodes, s.store, r); }
  }

  lemma {:induction false} PathCount(nodes: seq<Node>, n: nat)
    requires Table(nodes) && Named(nodes) && n <= |nodes|
    ensures |PathsBelow(nodes, n)| == n
  {
    if n == 0 {
      assert PathsBelow(nodes, n) == {};
    } else {
      PathCount(nodes, n - 1);
      var rest, last := PathsBelow(nodes, n - 1), PathOf(nodes, n - 1);
      if last in rest {
        var i :| 0 <= i < n - 1 && PathOf(nodes, i) == last;
        PathOfInjective(nodes, i, n - 1);
      }
      assert PathsBelow(nodes, n) == rest + {last};
    }
  }

  lemma EntryCount(s: State)
    requires Reachable(s)
    ensures |Abstract(s).entries| == |s.fs.nodes|
  {
    PathCount(s.fs.nodes, |s.fs.nodes|);
    assert Abstract(s).entries.Keys == Paths(s.fs.nodes);
  }

  // ----- Creating -----

  lemma {:induction false} PathOfAppend(nodes: seq<Node>, node: Node, i: nat)
    requires Table(nodes) && Table(nodes + [node]) && i < |nodes|
    ensures PathOf(nodes + [node], i) == PathOf(nodes, i)
    decreases i
  {
    ParentInside(nodes, i);
    if i > 0 { PathOfAppend(nodes, node, nodes[i].parent); }
  }

  lemma AppendNames(nodes: seq<Node>, node: Node)
    requires Table(nodes) && Named(nodes) && |nodes| < MAX_FILES
    requires node.parent < |nodes| && nodes[node.parent].isDir && node.data == 0
    requires WellFormedName(node.name) && FindChild(nodes, node.parent, node.name) < 0
    ensures Table(nodes + [node]) && Named(nodes + [node])
    ensures forall i :: 0 <= i < |nodes| ==> PathOf(nodes + [node], i) == PathOf(nodes, i)
    ensures PathOf(nodes + [node], |nodes|) == PathOf(nodes, node.parent) + [node.name]
  {
    AppendKeepsTable(nodes, node);
    forall i | 0 <= i < |nodes| ensures PathOf(nodes + [node], i) == PathOf(nodes, i) {
      PathOfAppend(nodes, node, i);
    }
  }

  lemma AppendEntry(nodes: seq<Node>, store: Store, node: Node)
    requires Table(nodes) && Named(nodes) && |nodes| < MAX_FILES
    requires node.parent < |nodes| && nodes[node.parent].isDir && node.data == 0
    requires WellFormedName(node.name) && FindChild(nodes, node.parent, node.name) < 0
    ensures Table(nodes + [node]) && Named(nodes + [node])
    ensures Entries(nodes + [node], store) ==
            Entries(nodes, store)[PathOf(nodes, node.parent) + [node.name] := EntryOf(node, store)]
    ensures forall i :: 0 <= i < |nodes| ==> PathOf(nodes + [node], i) == PathOf(nodes, i)
  {
    hide FindChild, WellFormedName, EntryOf, Named, Entries, PathOf;
    AppendNames(nodes, node);
    var r, p := nodes + [node], PathOf(nodes, node.parent) + [node.name];
    var m := Entries(nodes, store)[p := EntryOf(node, store)];
    forall i | 0 <= i < |r| ensures PathOf(r, i) in m && m[PathOf(r, i)] == EntryOf(r[i], store) {
      if i < |nodes| {
        EntryAt(nodes, store, i);
        if PathOf(r, i) == p { PathOfInjective(r, i, |nodes|); }
      }
    }
    EntriesKeys(nodes, store);
    forall q | q in m ensures q in Paths(r) {
      var i := if q == p then |nodes| else NodeAt(nodes, q);
      assert PathOf(r, i) == q;
    }
    EntriesAre(r, store, m);
  }

  lemma PlaceIsParent(s: State, path: string)
    requires Reachable(s)
    ensures var r := ParentNode(s.fs, path);
      Place(Abstract(s), path) == (if r < 0 then Missing else Found(PathOf(s.fs.nodes, r))) &&
      (r >= 0 ==> PathOf(s.fs.nodes, r) in Abstract(s).entries &&
                  Abstract(s).entries[PathOf(s.fs.nodes, r)] == EntryOf(s.fs.nodes[r], s.store))
  {
    var slash := LastSlash(path);
    if slash > 0 { ResolveLocates(s, path[..slash]); }
    EntryAt(s.fs.nodes, s.store, 0);
    EntryAt(s.fs.nodes, s.store, s.fs.cwd);
  }

  lemma CreateRefines(s: State, path: string, isDir: bool)
    requires Reachable(s) && (LastPart(path) == "" || WellFormedName(LastPart(path)))
    ensures var o := Create(s, path, isDir);
      Reachable(o.state) && Creates(Abstract(s), path, if isDir then Dir else File(""), Abstract(o.state), o.code)
  {
    hide Resolve, ParentNode, FindChild, LastPart, Entries, Place;
    EntryCount(s);
    PlaceIsParent(s, path);
    CreateKeepsOwned(s, path, isDir);
    var name := LastPart(path);
    var parent := ParentNode(s.fs, path);
    if |s.fs.nodes| < MAX_FILES && LastSlash(path) < MAX_PATH && parent >= 0 && s.fs.nodes[parent].isDir && name != "" {
      var node := Node(name, isDir, parent, 0, 0);
      CleanLastPart(path);
      ChildPath(s.fs.nodes, parent, name);
      assert PathOf(s.fs.nodes, parent) + [name] in Abstract(s).entries <==>
             FindChild(s.fs.nodes, parent, name) >= 0
      by {
        EntriesKeys(s.fs.nodes, s.store);
        var c := FindChild(s.fs.nodes, parent, name);
        if c >= 0 { EntryAt(s.fs.nodes, s.store, c); }
      }
      if FindChild(s.fs.nodes, parent, name) < 0 {
        AppendEntry(s.fs.nodes, s.store, node);
      }
    }
  }

  lemma EntriesKeys(nodes: seq<Node>, store: Store)
    requires Table(nodes)
    ensures Entries(nodes, store).Keys == Paths(nodes)
  {}

  lemma {:induction false} CleanLastPart(path: string)
    ensures '/' !in LastPart(path)
  {
    if '/' in path { CleanLastPart(path[1..]); }
  }

  // ----- Renaming -----

  lemma {:induction false} PathOfStable(nodes: seq<Node>, n: nat, node: Node, i: nat)
    requires Table(nodes) && n < |nodes| && i < n && Table(nodes[n := node])
    ensures PathOf(nodes[n := node], i) == PathOf(nodes, i)
    decreases i
  {
    ParentInside(nodes, i);
    if i > 0 { PathOfStable(nodes, n, node, nodes[i].parent); }
  }

  lemma RekeyBelow(dir: Path, leaf: string, from: Path, name: string)
    requires from != [] && from != dir + [leaf]
    ensures Rekey(dir + [leaf], from, name) == Rekey(dir, from, name) + [leaf]
  {}

  lemma RekeyItself(dir: Path, leaf: string, name: string)
    ensures Rekey(dir + [leaf], dir + [leaf], name) == dir + [name]
  {}

  /** After a rename, a node's path is its former path re-keyed. */
  lemma {:induction false} PathOfRenamed(nodes: seq<Node>, n: nat, name: string, i: nat)
    requires Table(nodes) && Named(nodes) && 0 < n < |nodes| && i < |nodes|
    requires Table(nodes[n := nodes[n].(name := name)])
    ensures PathOf(nodes, n) != []
    ensures PathOf(nodes[n := nodes[n].(name := name)], i) == Rekey(PathOf(nodes, i), PathOf(nodes, n), name)
    decreases i
  {
    hide Named, Rekey;
    var r := nodes[n := nodes[n].(name := name)];
    ParentInside(nodes, i);
    ParentInside(nodes, n);
    if i == n {
      PathOfStable(nodes, n, r[n], nodes[n].parent);
      RekeyItself(PathOf(nodes, nodes[n].parent), nodes[n].name, name);
    } else if i > 0 {
      PathOfRenamed(nodes, n, name, nodes[i].parent);
      if PathOf(nodes, i) == PathOf(nodes, n) { PathOfInjective(nodes, i, n); }
      RekeyBelow(PathOf(nodes, nodes[i].parent), nodes[i].name, PathOf(nodes, n), name);
    } else {
      RekeyRoot(PathOf(nodes, n), name);
    }
  }

  lemma RekeyRoot(from: Path, name: string)
    requires from != []
    ensures Rekey([], from, name) == []
  {}

  lemma RenamedNames(nodes: seq<Node>, n: nat, name: string)
    requires Table(nodes) && Named(nodes) && 0 < n < |nodes| && WellFormedName(name)
    requires FindChild(nodes, nodes[n].parent, name) < 0
    ensures Named(nodes[n := nodes[n].(name := name)])
  {}

  lemma RenameEntries(nodes: seq<Node>, store: Store, n: nat, name: string, cwd: nat)
    requires Table(nodes) && Named(nodes) && 0 < n < |nodes| && WellFormedName(name) && cwd < |nodes|
    requires FindChild(nodes, nodes[n].parent, name) < 0
    ensures var r := nodes[n := nodes[n].(name := name)];
      Table(r) && Named(r) && PathOf(nodes, n) != [] &&
      Rekeyed(Tree(Entries(nodes, store), PathOf(nodes, cwd)), PathOf(nodes, n), name,
        Tree(Entries(r, store), PathOf(r, cwd)))
  {
    var r := nodes[n := nodes[n].(name := name)];
    UpdateKeepsTable(nodes, n, r[n]);
    RenamedNames(nodes, n, name);
    PathOfRenamed(nodes, n, name, cwd);
    var e, e', from := Entries(nodes, store), Entries(r, store), PathOf(nodes, n);
    forall p | p in e ensures Rekey(p, from, name) in e' && e'[Rekey(p, from, name)] == e[p] {
      var i := NodeAt(nodes, p);
      PathOfRenamed(nodes, n, name, i);
      EntryAt(nodes, store, i);
      EntryAt(r, store, i);
    }
    forall q | q in e' ensures q in (set p | p in e :: Rekey(p, from, name)) {
      var i := NodeAt(r, q);
      PathOfRenamed(nodes, n, name, i);
      EntryAt(nodes, store, i);
      assert PathOf(nodes, i) in e;
    }
  }

  lemma RenameRefines(s: State, path: string, name: string)
    requires Reachable(s) && WellFormedName(name)
    ensures var o := Rename(s, path, name);
      Reachable(o.state) && TreeStep(Abstract(s), RenameTo(path, name), true, Abstract(o.state), o.code)
  {
    hide Resolve, Locate, FindChild, Entries, Rekeyed;
    ResolveLocates(s, path);
    var n := Resolve(s.fs, path);
    var nodes := s.fs.nodes;
    if n > 0 {
      ParentInside(nodes, n);
      ChildPath(nodes, nodes[n].parent, name);
      assert Parent(PathOf(nodes, n)) == PathOf(nodes, nodes[n].parent);
      EntriesKeys(nodes, s.store);
      var c := FindChild(nodes, nodes[n].parent, name);
      if c >= 0 { EntryAt(nodes, s.store, c); } else {
        RenameEntries(nodes, s.store, n, name, s.fs.cwd);
        SameBuffers(s.heap, s.store, nodes, nodes[n := nodes[n].(name := name)]);
      }
    }
  }

  // ----- Deleting -----

  /** Deleting a node leaves the absolute path of every other node unchanged. */
  lemma {:induction false} PathOfSurvivor(nodes: seq<Node>, n: nat, i: nat)
    requires Table(nodes) && 0 < n < |nodes| && !(nodes[n].isDir && HasChild(nodes, n))
    requires i < |nodes| && i != n && Table(Compact(nodes, n))
    ensures PathOf(Compact(nodes, n), New(i, n)) == PathOf(nodes, i)
    decreases i
  {
    Survivor(nodes, n, i);
    ParentInside(nodes, i);
    if i > 0 { PathOfSurvivor(nodes, n, nodes[i].parent); }
  }

  lemma SurvivorNames(nodes: seq<Node>, n: nat)
    requires Table(nodes) && Named(nodes) && 0 < n < |nodes| && !(nodes[n].isDir && HasChild(nodes, n))
    ensures Named(Compact(nodes, n))
  {
    hide Compact;
    var r := Compact(nodes, n);
    forall i | 1 <= i < |r| ensures WellFormedName(r[i].name) {
      Survivor(nodes, n, Old(i, n));
    }
    forall i, j | 1 <= i < j < |r| && r[i].parent == r[j].parent ensures r[i].name != r[j].name {
      Survivor(nodes, n, Old(i, n));
      Survivor(nodes, n, Old(j, n));
      assert nodes[Old(i, n)].parent == nodes[Old(j, n)].parent;
    }
  }

  /** Every other node keeps its type and contents too, and the tree loses exactly the one path. */
  lemma DeleteEntries(nodes: seq<Node>, store: Store, n: nat)
    requires Table(nodes) && Named(nodes) && 0 < n < |nodes| && !(nodes[n].isDir && HasChild(nodes, n))
    ensures Table(Compact(nodes, n)) && Named(Compact(nodes, n))
    ensures Entries(Compact(nodes, n), store) == Entries(nodes, store) - {PathOf(nodes, n)}
  {
    hide Compact, HasChild, Named, PathOf, Entries;
    EntriesKeys(nodes, store);
    CompactKeepsTable(nodes, n);
    SurvivorNames(nodes, n);
    var r, m := Compact(nodes, n), Entries(nodes, store) - {PathOf(nodes, n)};
    forall i | 0 <= i < |r| ensures PathOf(r, i) in m && m[PathOf(r, i)] == EntryOf(r[i], store) {
      var o := Old(i, n);
      Survivor(nodes, n, o);
      PathOfSurvivor(nodes, n, o);
      EntryAt(nodes, store, o);
      if PathOf(nodes, o) == PathOf(nodes, n) { PathOfInjective(nodes, o, n); }
    }
    forall p | p in m ensures p in Paths(r) {
      var i := NodeAt(nodes, p);
      PathOfSurvivor(nodes, n, i);
      assert PathOf(r, New(i, n)) == p;
    }
    EntriesAre(r, store, m);
  }

  lemma OccupiedMeansChild(nodes: seq<Node>, store: Store, n: nat)
    requires Table(nodes) && Named(nodes) && 0 < n < |nodes|
    ensures Occupied(Entries(nodes, store), PathOf(nodes, n)) <==> nodes[n].isDir && HasChild(nodes, n)
  {
    EntriesKeys(nodes, store);
    if Occupied(Entries(nodes, store), PathOf(nodes, n)) {
      var name :| PathOf(nodes, n) + [name] in Entries(nodes, store);
      var i := NodeAt(nodes, PathOf(nodes, n) + [name]);
      LastOfPath(nodes, i, PathOf(nodes, n), name);
      PathOfInjective(nodes, nodes[i].parent, n);
      ParentInside(nodes, i);
    }
    if HasChild(nodes, n) {
      var i :| 0 <= i < |nodes| && nodes[i].parent == n && i != n;
      EntryAt(nodes, store, i);
      assert PathOf(nodes, n) + [nodes[i].name] in Entries(nodes, store);
    }
  }

  lemma DeleteRefines(s: State, path: string, lo: nat, hi: nat)
    requires Reachable(s) && Heap.Canonical(s.heap, lo, hi) && 0 < lo
    ensures var o := Delete(s, path);
      Reachable(o.state) && TreeStep(Abstract(s), Remove(path), true, Abstract(o.state), o.code)
  {
    hide Resolve, Locate, Entries, HasChild, Occupied, Compact;
    hide Heap.Free, Heap.Canonical, OthersUntouched, Heap.LivePointers, OwnedFrom;
    ResolveLocates(s, path);
    StepKeepsStructure(s, Remove(path), lo, hi);
    var n := Resolve(s.fs, path);
    if n > 0 {
      var nodes := s.fs.nodes;
      OccupiedMeansChild(nodes, s.store, n);
      if !(nodes[n].isDir && HasChild(nodes, n)) {
        DeleteEntries(nodes, s.store, n);
        DeleteKeepsStructure(s.fs, n);
        Survivor(nodes, n, 0);
        if s.fs.cwd != n {
          PathOfSurvivor(nodes, n, s.fs.cwd);
          if PathOf(nodes, s.fs.cwd) == PathOf(nodes, n) { PathOfInjective(nodes, s.fs.cwd, n); }
        }
      }
    }
  }

  // ----- Writing -----

  lemma {:induction false} PathOfSameNames(nodes: seq<Node>, r: seq<Node>, i: nat)
    requires Table(nodes) && Table(r) && |r| == |nodes| && i < |nodes|
    requires forall k :: 0 <= k < |nodes| ==> r[k].parent == nodes[k].parent && r[k].name == nodes[k].name
    ensures PathOf(r, i) == PathOf(nodes, i)
    decreases i
  {
    ParentInside(nodes, i);
    if i > 0 { PathOfSameNames(nodes, r, nodes[i].parent); }
  }

  /** Filling a buffer that is no file's changes one file's contents and no other's. */
  lemma WriteEntries(nodes: seq<Node>, store: Store, n: nat, ptr: nat, data: string)
    requires Table(nodes) && Named(nodes) && n < |nodes| && !nodes[n].isDir && ptr != 0
    requires forall i :: 0 <= i < |nodes| ==> nodes[i].data != ptr
    ensures var r := nodes[n := nodes[n].(data := ptr, size := |data|)];
      Table(r) && Named(r) &&
      Entries(r, store[ptr := data + ['\0']]) == Entries(nodes, store)[PathOf(nodes, n) := File(data)] &&
      forall i :: 0 <= i < |nodes| ==> PathOf(r, i) == PathOf(nodes, i)
  {
    hide PathOf, Entries, WellFormedName;
    EntriesKeys(nodes, store);
    var r := nodes[n := nodes[n].(data := ptr, size := |data|)];
    var store' := store[ptr := data + ['\0']];
    UpdateKeepsTable(nodes, n, r[n]);
    forall i | 0 <= i < |nodes| ensures PathOf(r, i) == PathOf(nodes, i) { PathOfSameNames(nodes, r, i); }
    var m := Entries(nodes, store)[PathOf(nodes, n) := File(data)];
    forall i | 0 <= i < |r| ensures PathOf(r, i) in m && m[PathOf(r, i)] == EntryOf(r[i], store') {
      EntryAt(nodes, store, i);
      if i != n {
        if PathOf(nodes, i) == PathOf(nodes, n) { PathOfInjective(nodes, i, n); }
      } else {
        assert (data + ['\0'])[..|data|] == data;
      }
    }
    forall p | p in m ensures p in Paths(r) {
      var i := if p == PathOf(nodes, n) then n else NodeAt(nodes, p);
      assert PathOf(r, i) == p;
    }
    EntriesAre(r, store', m);
  }

  ghost predicate HasRoom(s: State, op: Op) {
    op.Save? ==> Heap.Alloc(s.heap, |op.data| + 1).ptr != 0
  }

  lemma WriteRefines(s: State, path: string, data: string, lo: nat, hi: nat)
    requires Reachable(s) && Heap.Canonical(s.heap, lo, hi) && 0 < lo && Sized(Save(path, data))
    ensures var o := Write(s, path, data);
      Reachable(o.state) &&
      TreeStep(Abstract(s), Save(path, data), HasRoom(s, Save(path, data)), Abstract(o.state), o.code)
  {
    hide Resolve, Locate, Entries;
    hide Heap.Alloc, Heap.Free, Heap.Canonical, OthersUntouched, Heap.LivePointers, OwnedFrom;
    ResolveLocates(s, path);
    StepKeepsStructure(s, Save(path, data), lo, hi);
    var n := Resolve(s.fs, path);
    if n >= 0 && !s.fs.nodes[n].isDir {
      var a := Heap.Alloc(s.heap, |data| + 1);
      Heap.AllocEffect(s.heap, |data| + 1, lo, hi);
      if a.ptr != 0 {
        Heap.PointersOfLive(s.heap, a.ptr);
        NewBufferIsNew(s, a.ptr);
        WriteEntries(s.fs.nodes, s.store, n, a.ptr, data);
      }
    }
  }

  /** Reading gives the bytes that the entry holds, cut to `maxlen`. */
  lemma ReadRefines(s: State, path: string, maxlen: nat)
    requires Reachable(s)
    ensures Read(s, path, maxlen) == TreeRead(Abstract(s), path, maxlen)
  {
    hide Resolve, Locate, Entries;
    ResolveLocates(s, path);
  }

  ghost function TreeRead(t: Tree, path: string, maxlen: nat): ReadResult {
    match Locate(t, path)
    case Missing => ReadError(NoEnt)
    case Found(p) =>
      if p !in t.entries || t.entries[p] == Dir then ReadError(IsDir)
      else if |t.entries[p].bytes| <= maxlen then Bytes(t.entries[p].bytes)
      else Bytes(t.entries[p].bytes[..maxlen])
  }

  lemma {:induction false} SameKeys(e: map<Path, Entry>, f: map<Path, Entry>, cur: Path, comps: seq<string>)
    requires e.Keys == f.Keys
    ensures Follow(e, cur, comps) == Follow(f, cur, comps)
    decreases |comps|
  {
    if comps != [] {
      SameKeys(e, f, Parent(cur), comps[1..]);
      SameKeys(e, f, cur, comps[1..]);
      SameKeys(e, f, cur + [comps[0]], comps[1..]);
      assert cur + [comps[0]] in e <==> cur + [comps[0]] in f.Keys;
    }
  }

  /** What was written is what is read, and reading any other file gives what it gave before. */
  lemma WriteThenRead(s: State, path: string, data: string, other: string, maxlen: nat, lo: nat, hi: nat)
    requires Reachable(s) && Heap.Canonical(s.heap, lo, hi) && 0 < lo && Sized(Save(path, data)) &&
      Write(s, path, data).code == Ok
    ensures var s' := Write(s, path, data).state;
      Reachable(s') &&
      Read(s', other, maxlen) ==
        if Locate(Abstract(s), other) == Locate(Abstract(s), path)
        then Bytes(if |data| <= maxlen then data else data[..maxlen]) else Read(s, other, maxlen)
  {
    hide Write, Read, Abstract, Follow, Named, Owned, Table, Heap.Canonical, HasRoom, Components;
    WriteRefines(s, path, data, lo, hi);
    var s' := Write(s, path, data).state;
    ReadRefines(s, other, maxlen);
    ReadRefines(s', other, maxlen);
    var t, t' := Abstract(s), Abstract(s');
    assert t'.entries.Keys == t.entries.Keys;
    SameKeys(t.entries, t'.entries, if Absolute(other) then [] else t.cwd, Components(other));
  }

  lemma ChdirRefines(s: State, path: string)
    requires Reachable(s)
    ensures var o := Chdir(s, path);
      Reachable(o.state) && TreeStep(Abstract(s), ChangeDir(path), true, Abstract(o.state), o.code)
  {
    hide Resolve, Locate, Entries;
    ResolveLocates(s, path);
  }

  // ----- The refinement -----

  /** Every operation does to the table what its description does to the tree, with the same code. */
  lemma StepRefines(s: State, op: Op, lo: nat, hi: nat)
    requires Reachable(s) && WellFormedOp(op) && Heap.Canonical(s.heap, lo, hi) && 0 < lo
    ensures var o := Step(s, op);
      Reachable(o.state) && Heap.Canonical(o.state.heap, lo, hi) &&
      TreeStep(Abstract(s), op, HasRoom(s, op), Abstract(o.state), o.code)
  {
    StepKeepsStructure(s, op, lo, hi);
    match op {
      case MkDir(path) => CreateRefines(s, path, true);
      case MkFile(path) => CreateRefines(s, path, false);
      case RenameTo(path, name) => RenameRefines(s, path, name);
      case Remove(path) => DeleteRefines(s, path, lo, hi);
      case Save(path, data) => WriteRefines(s, path, data, lo, hi);
      case ChangeDir(path) => ChdirRefines(s, path);
    }
  }

  // ----- Runs -----

  /** From `s` to `s'`, both reachable, `op` does to the map what its description says, with the code it
      returns and a save succeeding exactly when the heap of `s` has room. */
  ghost predicate Refined(s: State, op: Op, s': State) {
    Reachable(s) && Reachable(s') && s' == Step(s, op).state &&
    TreeStep(Abstract(s), op, HasRoom(s, op), Abstract(s'), Step(s, op).code)
  }

  lemma {:induction false} RunReachable(s: State, ops: seq<Op>, lo: nat, hi: nat)
    requires Reachable(s) && Heap.Canonical(s.heap, lo, hi) && 0 < lo
    requires forall op :: op in ops ==> WellFormedOp(op)
    ensures Reachable(Run(s, ops)) && Heap.Canonical(Run(s, ops).heap, lo, hi)
    decreases |ops|
  {
    hide TreeStep, Abstract, Heap.Canonical, WellFormedOp, HasRoom, Table, Named, Owned;
    if ops != [] {
      StepRefines(s, ops[0], lo, hi);
      hide Step;
      assert forall op :: op in ops[1..] ==> op in ops;
      RunReachable(Step(s, ops[0]).state, ops[1..], lo, hi);
    }
  }

  lemma {:induction false} RunSnoc(s: State, ops: seq<Op>, op: Op)
    requires Structure(s.fs)
    ensures Run(s, ops + [op]) == Step(Run(s, ops), op).state
    decreases |ops|
  {
    hide Step;
    if ops == [] {
      assert ops + [op] == [op] && [op][1..] == [];
      assert Run(Step(s, op).state, []) == Step(s, op).state;
    } else {
      assert (ops + [op])[0] == ops[0] && (ops + [op])[1..] == ops[1..] + [op];
      RunSnoc(Step(s, ops[0]).state, ops[1..], op);
    }
  }

  /** Every step of every run is the map's. */
  lemma RunRefines(s: State, ops: seq<Op>, k: nat, lo: nat, hi: nat)
    requires Reachable(s) && Heap.Canonical(s.heap, lo, hi) && 0 < lo && k < |ops|
    requires forall op :: op in ops ==> WellFormedOp(op)
    ensures Refined(Run(s, ops[..k]), ops[k], Run(s, ops[..k + 1]))
  {
    hide Step, TreeStep, Abstract, Heap.Canonical, WellFormedOp, HasRoom, Table, Named, Owned, Run;
    assert forall op :: op in ops[..k] ==> op in ops;
    assert ops[k] in ops;
    RunReachable(s, ops[..k], lo, hi);
    StepRefines(Run(s, ops[..k]), ops[k], lo, hi);
    assert ops[..k + 1] == ops[..k] + [ops[k]];
    RunSnoc(s, ops[..k], ops[k]);
  }
}
