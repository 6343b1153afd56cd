/** Paths out and back in: `build_pwd` against `resolve_path`, and which names survive the trip. */
module VfsPaths {
  import opened VfsModel
  import opened VfsTree

  // ----- Components of joined paths -----

  lemma {:induction false} ComponentLengthUpTo(p: string, tail: string, taken: nat)
    requires tail == "" || tail[0] == '/'
    ensures ComponentLength(p + tail, taken) == ComponentLength(p, taken)
  {
    if p == "" {
      assert p + tail == tail;
    } else if !(p[0] == '/' || taken >= MAX_NAME - 1) {
      assert (p + tail)[1..] == p[1..] + tail;
      ComponentLengthUpTo(p[1..], tail, taken + 1);
    }
  }

  lemma {:induction false} ComponentsJoin(p: string, x: string)
    ensures Components(p + "/" + x) == Components(p) + Components(x)
    decreases |p|
  {
    var all := p + "/" + x;
    if p == "" {
      assert all[1..] == x;
    } else if p[0] == '/' {
      assert all[1..] == p[1..] + "/" + x;
      ComponentsJoin(p[1..], x);
    } else {
      var n := ComponentLength(p);
      ComponentLengthUpTo(p, "/" + x, 0);
      assert all == p + ("/" + x);
      assert all[..n] == p[..n] && all[n..] == p[n..] + "/" + x;
      ComponentsJoin(p[n..], x);
    }
  }

  lemma {:induction false} ComponentLengthWhole(x: string, taken: nat)
    requires '/' !in x && taken <= MAX_NAME - 1
    ensures ComponentLength(x, taken) == if taken + |x| <= MAX_NAME - 1 then |x| else MAX_NAME - 1 - taken
  {
    if x != "" && taken < MAX_NAME - 1 {
      ComponentLengthWhole(x[1..], taken + 1);
    }
  }

  /** A name is one component as long as it has at most 31 characters; a longer one is cut up. */
  lemma NameComponents(x: string)
    requires '/' !in x && x != ""
    ensures |x| <= 31 ==> Components(x) == [x]
    ensures |x| > 31 ==> Components(x) == [x[..31]] + Components(x[31..])
  {
    ComponentLengthWhole(x, 0);
    if |x| <= MAX_NAME - 1 { assert x[..|x|] == x && x[|x|..] == ""; }
  }

  // ----- Walking -----

  lemma {:induction false} WalkJoin(nodes: seq<Node>, cur: nat, a: seq<string>, b: seq<string>)
    requires Table(nodes) && cur < |nodes|
    ensures Walk(nodes, cur, a + b) == var m := Walk(nodes, cur, a); if m < 0 then -1 else Walk(nodes, m, b)
    decreases |a|
  {
    if a == [] {
      assert a + b == b;
    } else {
      assert (a + b)[1..] == a[1..] + b;
      ParentInside(nodes, cur);
      if a[0] == "." {
        WalkJoin(nodes, cur, a[1..], b);
      } else if a[0] == ".." {
        WalkJoin(nodes, nodes[cur].parent, a[1..], b);
      } else {
        var c := FindChild(nodes, cur, a[0]);
        if c >= 0 { WalkJoin(nodes, c, a[1..], b); }
      }
    }
  }

  lemma WalkOne(nodes: seq<Node>, cur: nat, name: string)
    requires Table(nodes) && cur < |nodes|
    ensures name != "." && name != ".." ==> Walk(nodes, cur, [name]) == FindChild(nodes, cur, name)
    ensures name == "." ==> Walk(nodes, cur, [name]) == cur
    ensures name == ".." ==> Walk(nodes, cur, [name]) == nodes[cur].parent
  {}

  lemma FindNode(nodes: seq<Node>, i: nat)
    requires Table(nodes) && Named(nodes) && nodes[0].name == "/" && 0 < i < |nodes|
    ensures FindChild(nodes, nodes[i].parent, nodes[i].name) == i
  {}

  lemma {:induction false} WalkDown(nodes: seq<Node>, i: nat)
    requires Table(nodes) && Named(nodes) && nodes[0].name == "/" && i < |nodes|
    ensures Walk(nodes, 0, PathOf(nodes, i)) == i
    decreases i
  {
    ParentInside(nodes, i);
    if i > 0 {
      WalkDown(nodes, nodes[i].parent);
      WalkJoin(nodes, 0, PathOf(nodes, nodes[i].parent), [nodes[i].name]);
      WalkOne(nodes, nodes[i].parent, nodes[i].name);
      FindNode(nodes, i);
    }
  }

  // ----- build_pwd and resolve_path -----

  lemma {:induction false} FullPathComponents(nodes: seq<Node>, i: nat)
    requires Table(nodes) && Named(nodes) && i < |nodes|
    ensures Components(FullPath(nodes, i)) == PathOf(nodes, i)
    ensures i > 0 ==> Absolute(FullPath(nodes, i))
    decreases i
  {
    ParentInside(nodes, i);
    if i > 0 {
      FullPathComponents(nodes, nodes[i].parent);
      ComponentsJoin(FullPath(nodes, nodes[i].parent), nodes[i].name);
      NameComponents(nodes[i].name);
    }
  }

  /** A path as it is written: each name after a slash. */
  function Spell(p: Path): string { if p == [] then "" else Spell(Parent(p)) + "/" + p[|p| - 1] }

  lemma {:induction false} FullPathSpells(nodes: seq<Node>, i: nat)
    requires Table(nodes) && i < |nodes|
    ensures FullPath(nodes, i) == Spell(PathOf(nodes, i))
    decreases i
  {
    ParentInside(nodes, i);
    if i > 0 {
      FullPathSpells(nodes, nodes[i].parent);
      assert Parent(PathOf(nodes, i)) == PathOf(nodes, nodes[i].parent);
    }
  }

  lemma ResolveFullPath(nodes: seq<Node>, cwd: nat, i: nat)
    requires Structure(Fs(nodes, cwd)) && Named(nodes) && nodes[0].name == "/" && 0 < i < |nodes|
    ensures Resolve(Fs(nodes, cwd), FullPath(nodes, i)) == i
  {
    FullPathComponents(nodes, i);
    WalkDown(nodes, i);
  }

  lemma DotsComponents()
    ensures Absolute("/...") && Components("/...") == ["..."]
  {
    var p := "/...";
    assert p[1..] == "...";
    NameComponents("...");
  }

  /** Into a buffer of `maxlen` bytes, at most 128 and at least 5, every path can be built. */
  lemma PwdFitsInside(nodes: seq<Node>, i: nat, maxlen: nat)
    requires Table(nodes) && i < |nodes| && 5 <= maxlen <= 128
    ensures PwdFits(nodes, i, maxlen, maxlen)
  {}

  /** The path shown for a node can be built and leads back to it, from any cwd, exactly when it has fewer
      than `maxlen` characters and fewer than 128. (The one path that "/..." itself denotes is the exception
      that a buffer shorter than 5 characters allows.) */
  lemma PathRoundTrip(nodes: seq<Node>, cwd: nat, i: nat, maxlen: nat, size: nat)
    requires Structure(Fs(nodes, cwd)) && Named(nodes) && nodes[0].name == "/" && i < |nodes| && 2 <= maxlen <= size
    ensures PwdFits(nodes, i, maxlen, size) && Resolve(Fs(nodes, cwd), ShownPath(nodes, i, maxlen)) == i <==>
      i == 0 || |FullPath(nodes, i)| < Min(maxlen, 128) || (maxlen < 5 <= size && FullPath(nodes, i) == "/...")
  {
    hide Resolve, FullPath;
    if i == 0 {
      RootResolves(nodes, cwd);
    } else if |FullPath(nodes, i)| < maxlen {
      ResolveFullPath(nodes, cwd, i);
    } else {
      DotsResolve(nodes, cwd, i);
      if FullPath(nodes, i) == "/..." { ResolveFullPath(nodes, cwd, i); }
    }
  }

  function Min(a: nat, b: nat): nat { if a < b then a else b }

  lemma RootResolves(nodes: seq<Node>, cwd: nat)
    requires Structure(Fs(nodes, cwd))
    ensures Resolve(Fs(nodes, cwd), "/") == 0
  {
    assert "/"[1..] == "";
  }

  /** "/..." is at most one node's path. */
  lemma DotsResolve(nodes: seq<Node>, cwd: nat, i: nat)
    requires Structure(Fs(nodes, cwd)) && Named(nodes) && nodes[0].name == "/" && 0 < i < |nodes|
    ensures Resolve(Fs(nodes, cwd), "/...") == i ==> FullPath(nodes, i) == "/..."
  {
    DotsComponents();
    WalkOne(nodes, 0, "...");
    ParentInside(nodes, i);
    if Resolve(Fs(nodes, cwd), "/...") == i {
      assert nodes[i].parent == 0 && nodes[i].name == "...";
      assert FullPath(nodes, i) == FullPath(nodes, 0) + "/" + "...";
    }
  }

  // ----- Which created paths can be found again -----

  lemma {:induction false} WalkStable(nodes: seq<Node>, node: Node, cur: nat, comps: seq<string>)
    requires Table(nodes) && Table(nodes + [node]) && cur < |nodes| && Walk(nodes, cur, comps) >= 0
    ensures Walk(nodes + [node], cur, comps) == Walk(nodes, cur, comps)
    decreases |comps|
  {
    if comps != [] {
      ParentInside(nodes, cur);
      if comps[0] == "." {
        WalkStable(nodes, node, cur, comps[1..]);
      } else if comps[0] == ".." {
        WalkStable(nodes, node, nodes[cur].parent, comps[1..]);
      } else {
        var c := FindChild(nodes, cur, comps[0]);
        FindStable(nodes, node, cur, comps[0]);
        WalkStable(nodes, node, c, comps[1..]);
      }
    }
  }

  lemma FindStable(nodes: seq<Node>, node: Node, parent: nat, name: string)
    ensures FindChild(nodes, parent, name) >= 0 ==>
      FindChild(nodes + [node], parent, name) == FindChild(nodes, parent, name)
    ensures FindChild(nodes, parent, name) < 0 && node.parent == parent && node.name == name ==>
            FindChild(nodes + [node], parent, name) == |nodes|
  {
    var r := nodes + [node];
    assert forall i :: 0 <= i < |nodes| ==> r[i] == nodes[i];
    var c, c' := FindChild(nodes, parent, name), FindChild(r, parent, name);
    if c >= 0 {
      assert r[c].parent == parent && r[c].name == name;
    } else if node.parent == parent && node.name == name {
      assert r[|nodes|] == node;
    }
  }

  lemma PathAroundSlash(path: string, slash: nat)
    requires slash < |path| && path[slash] == '/'
    ensures path == path[..slash] + "/" + path[slash + 1..]
    ensures Components(path) == Components(path[..slash]) + Components(path[slash + 1..])
  {
    hide Components;
    ComponentsJoin(path[..slash], path[slash + 1..]);
    assert path == path[..slash] + "/" + path[slash + 1..];
  }

  lemma ResolveBelow(nodes: seq<Node>, cwd: nat, path: string, slash: nat)
    requires Structure(Fs(nodes, cwd)) && slash < |path| && path[slash] == '/'
    ensures var dir := if slash == 0 then 0 else Resolve(Fs(nodes, cwd), path[..slash]);
      Resolve(Fs(nodes, cwd), path) == if dir < 0 then -1 else Walk(nodes, dir, Components(path[slash + 1..]))
  {
    hide Walk, Components, Table;
    PathAroundSlash(path, slash);
    WalkJoin(nodes, if Absolute(path) then 0 else cwd, Components(path[..slash]), Components(path[slash + 1..]));
    if slash == 0 {
      NoComponents();
      WalkNothing(nodes);
      assert path[..slash] == "";
    } else {
      assert Absolute(path) == Absolute(path[..slash]);
    }
  }

  ghost predicate Splits(nodes: seq<Node>, cwd: nat, path: string, dir: nat, name: string)
    requires Structure(Fs(nodes, cwd))
  {
    dir < |nodes| && Resolve(Fs(nodes, cwd), path) == Walk(nodes, dir, Components(name))
  }

  lemma SplitsBelow(nodes: seq<Node>, cwd: nat, path: string, dir: nat)
    requires Structure(Fs(nodes, cwd)) && ParentNode(Fs(nodes, cwd), path) == dir && LastSlash(path) >= 0
    ensures Splits(nodes, cwd, path, dir, LastPart(path))
  {
    hide Walk, Components, LastSlash, LastPart, Table, Resolve;
    LastPartAfterSlash(path);
    ResolveBelow(nodes, cwd, path, LastSlash(path));
  }

  lemma SplitsBare(nodes: seq<Node>, cwd: nat, path: string, dir: nat)
    requires Structure(Fs(nodes, cwd)) && ParentNode(Fs(nodes, cwd), path) == dir && LastSlash(path) < 0
    ensures Splits(nodes, cwd, path, dir, LastPart(path))
  {}

  /** Resolving `path` is finding its directory part and then walking the rest from there. */
  lemma ResolveSplits(nodes: seq<Node>, cwd: nat, path: string, dir: nat)
    requires Structure(Fs(nodes, cwd)) && ParentNode(Fs(nodes, cwd), path) == dir
    ensures Splits(nodes, cwd, path, dir, LastPart(path))
  {
    hide Splits, ParentNode, LastPart, LastSlash, Structure;
    if LastSlash(path) >= 0 { SplitsBelow(nodes, cwd, path, dir); } else { SplitsBare(nodes, cwd, path, dir); }
  }

  lemma WalkNothing(nodes: seq<Node>)
    requires Table(nodes)
    ensures Walk(nodes, 0, []) == 0
  {}

  lemma NoComponents()
    ensures Components("") == []
  {}

  lemma ParentNodeStable(nodes: seq<Node>, node: Node, cwd: nat, path: string)
    requires Structure(Fs(nodes, cwd)) && Structure(Fs(nodes + [node], cwd))
    requires ParentNode(Fs(nodes, cwd), path) >= 0
    ensures ParentNode(Fs(nodes + [node], cwd), path) == ParentNode(Fs(nodes, cwd), path)
  {
    var slash := LastSlash(path);
    if slash > 0 {
      WalkStable(nodes, node, if Absolute(path[..slash]) then 0 else cwd, Components(path[..slash]));
    }
  }

  /** What `mkdir` or `mkfile` made can be found under the path it was made with exactly when the name
      has at most 30 characters and is not "." or "..". */
  lemma CreatedIsFoundExactly(s: State, path: string, isDir: bool)
    requires Reachable(s) && Create(s, path, isDir).code == Ok
    ensures Resolve(Create(s, path, isDir).state.fs, path) == |s.fs.nodes| <==> WellFormedName(LastPart(path))
  {
    hide Resolve, ParentNode, FindChild, LastPart, Structure;
    var dir, name := ParentNode(s.fs, path), LastPart(path);
    var nodes, cwd := s.fs.nodes, s.fs.cwd;
    var node := Node(Truncate(name), isDir, dir, 0, 0);
    CleanLastPart(path);
    assert Create(s, path, isDir).state.fs == Fs(nodes + [node], cwd);
    ParentNodeStable(nodes, node, cwd, path);
    ResolveSplits(nodes + [node], cwd, path, dir);
    LookupCreated(nodes, cwd, node, name);
  }

  lemma LookupCreated(nodes: seq<Node>, cwd: nat, node: Node, name: string)
    requires Structure(Fs(nodes, cwd)) && Structure(Fs(nodes + [node], cwd)) && Named(nodes) && node.parent < |nodes|
    requires name != "" && '/' !in name && node.name == Truncate(name)
    requires nodes[0].name == "/" && FindChild(nodes, node.parent, node.name) < 0
    ensures Walk(nodes + [node], node.parent, Components(name)) == |nodes| <==> WellFormedName(name)
  {
    hide Components;
    var r := nodes + [node];
    NameComponents(name);
    assert r[node.parent] == nodes[node.parent];
    ParentInside(nodes, node.parent);
    if |name| <= MAX_NAME - 1 {
      WalkOne(r, node.parent, name);
      FindStable(nodes, node, node.parent, name);
      if |name| == MAX_NAME - 1 { TooLong(nodes, node, name); }
    } else {
      TooLong(nodes, node, name[..MAX_NAME - 1]);
      WalkOne(r, node.parent, name[..MAX_NAME - 1]);
      WalkJoin(r, node.parent, [name[..MAX_NAME - 1]], Components(name[MAX_NAME - 1..]));
    }
  }

  lemma TooLong(nodes: seq<Node>, node: Node, name: string)
    requires Named(nodes) && nodes != [] && nodes[0].name == "/" && |node.name| <= MAX_NAME - 2 < |name|
    ensures FindChild(nodes + [node], node.parent, name) < 0
  {}

  // ----- Creating at a path -----

  lemma LocateSpelled(s: State, p: Path)
    requires Reachable(s) && p in Abstract(s).entries && p != []
    ensures Locate(Abstract(s), Spell(p)) == Found(p) && Spell(p) != ""
  {
    hide Resolve, Locate, FullPath;
    var nodes := s.fs.nodes;
    EntriesKeys(nodes, s.store);
    var i := NodeAt(nodes, p);
    FullPathSpells(nodes, i);
    ResolveFullPath(nodes, s.fs.cwd, i);
    ResolveLocates(s, Spell(p));
  }

  lemma SlashBefore(dir: string, name: string)
    requires '/' !in name
    ensures var path := dir + "/" + name; LastPart(path) == name && LastSlash(path) == |dir| && path[..|dir|] == dir
  {
    hide LastSlash, LastPart;
    LastPartJoin(dir, name);
    LastPartAfterSlash(dir + "/" + name);
  }

  /** A well-formed name that is new in an existing directory can always be created there, as long as the
      directory's path has fewer than 128 characters and the table a slot to spare; the map gains that entry
      and nothing else changes. */
  lemma CreateAt(s: State, dir: Path, name: string, isDir: bool)
    requires Reachable(s) && dir in Abstract(s).entries && Abstract(s).entries[dir] == Dir && WellFormedName(name)
    requires |Abstract(s).entries| < 128 && |Spell(dir)| < 128 && dir + [name] !in Abstract(s).entries
    ensures var o, t := Create(s, Spell(dir) + "/" + name, isDir), Abstract(s);
      o.code == Ok && Reachable(o.state) && o.state.heap == s.heap &&
      Abstract(o.state) == t.(entries := t.entries[dir + [name] := if isDir then Dir else File("")])
  {
    hide Create, Abstract, LastPart, LastSlash, WellFormedName, Named, Owned, Table, Locate, OthersUntouched;
    var path := Spell(dir) + "/" + name;
    CleanName(name);
    SlashBefore(Spell(dir), name);
    if dir != [] { LocateSpelled(s, dir); }
    CreateRefines(s, path, isDir);
    CreateKeepsOwned(s, path, isDir);
  }

  lemma CleanName(name: string)
    requires WellFormedName(name)
    ensures '/' !in name && name != ""
  {}

  // ----- When renaming keeps names unique -----

  ghost predicate SiblingsDistinct(nodes: seq<Node>) {
    forall i, j :: 1 <= i < j < |nodes| && nodes[i].parent == nodes[j].parent ==> nodes[i].name != nodes[j].name
  }

  /** `vfs_rename` compares the whole new name and then stores 30 characters of it. Siblings stay
      distinct exactly when the stored name is free, or is the name the node already has. */
  lemma RenameKeepsSiblingsExactly(s: State, path: string, name: string)
    requires Reachable(s) && Rename(s, path, name).code == Ok
    ensures var n := Resolve(s.fs, path);
      SiblingsDistinct(Rename(s, path, name).state.fs.nodes) <==>
      FindChild(s.fs.nodes, s.fs.nodes[n].parent, Truncate(name)) in {-1, n}
  {
    hide Resolve;
    var n, nodes := Resolve(s.fs, path), s.fs.nodes;
    var stored := Truncate(name);
    var r := nodes[n := nodes[n].(name := stored)];
    var c := FindChild(nodes, nodes[n].parent, stored);
    if c > 0 && c != n {
      assert r[c].name == r[n].name && r[c].parent == r[n].parent;
      assert !SiblingsDistinct(r) by { if c < n {} else {} }
    } else {
      forall i, j | 1 <= i < j < |r| && r[i].parent == r[j].parent ensures r[i].name != r[j].name {
        if i == n { OtherName(nodes, n, j, stored); }
        if j == n { OtherName(nodes, n, i, stored); }
      }
    }
  }

  lemma OtherName(nodes: seq<Node>, n: nat, k: nat, name: string)
    requires Named(nodes) && nodes != [] && nodes[0].name == "/" && 0 < n < |nodes| && 0 < k < |nodes| && k != n
    requires nodes[k].parent == nodes[n].parent &&
      (FindChild(nodes, nodes[n].parent, name) <= 0 || FindChild(nodes, nodes[n].parent, name) == n)
    ensures nodes[k].name != name
  {}

  /** The collision happens: a 31-character name is not found, and is stored as a sibling's name. */
  lemma RenameCollides(a: string, s: State)
    requires |a| == MAX_NAME - 2 && WellFormedName(a)
    requires s.fs == Fs([Node("/", true, 0, 0, 0), Node(a, false, 0, 0, 0), Node("b", false, 0, 0, 0)], 0)
    requires a != "b"
    ensures Structure(s.fs) && Named(s.fs.nodes)
    ensures Rename(s, "b", a + "x").code == Ok
    ensures var r := Rename(s, "b", a + "x").state.fs.nodes; r[1].name == r[2].name == a && r[1].parent == r[2].parent
  {
    var nodes := s.fs.nodes;
    assert UnderDirectory(nodes, 1) && UnderDirectory(nodes, 2);
    NameComponents("b");
    WalkOne(nodes, 0, "b");
    assert FindChild(nodes, 0, "b") == 2;
    assert Resolve(s.fs, "b") == 2;
    assert (a + "x")[..MAX_NAME - 2] == a;
    assert FindChild(nodes, 0, a + "x") < 0 by {
      assert forall i :: 0 <= i < 3 ==> |nodes[i].name| < |a + "x"|;
    }
  }

  // ----- Which renamed nodes can be found again -----

  lemma {:induction false} WalkDownRenamed(nodes: seq<Node>, n: nat, r: seq<Node>, name: string, i: nat)
    requires Table(nodes) && Named(nodes) && nodes[0].name == "/" && 0 < n < |nodes| && i <= nodes[n].parent < |nodes|
    requires r == nodes[n := nodes[n].(name := name)] && Table(r)
    ensures Walk(r, 0, PathOf(nodes, i)) == i
    decreases i
  {
    ParentInside(nodes, i);
    ParentInside(nodes, n);
    if i > 0 {
      WalkDownRenamed(nodes, n, r, name, nodes[i].parent);
      WalkJoin(r, 0, PathOf(nodes, nodes[i].parent), [nodes[i].name]);
      WalkOne(r, nodes[i].parent, nodes[i].name);
      FindAncestor(nodes, n, r, name, i);
    }
  }

  lemma FindAncestor(nodes: seq<Node>, n: nat, r: seq<Node>, name: string, i: nat)
    requires Table(nodes) && Named(nodes) && nodes[0].name == "/" && 0 < n < |nodes| &&
      0 < i <= nodes[n].parent < |nodes|
    requires r == nodes[n := nodes[n].(name := name)]
    ensures FindChild(r, nodes[i].parent, nodes[i].name) == i
  {
    ParentInside(nodes, i);
    ParentInside(nodes, n);
    var c := FindChild(r, nodes[i].parent, nodes[i].name);
    assert r[i].parent == nodes[i].parent && r[i].name == nodes[i].name;
    assert c != n;
    assert nodes[c].parent == nodes[i].parent && nodes[c].name == nodes[i].name;
  }

  /** The renamed node among its siblings: the new name finds it exactly when it is stored whole and is no
      "." or "..". */
  lemma LookupRenamed(nodes: seq<Node>, n: nat, r: seq<Node>, name: string)
    requires Table(nodes) && Named(nodes) && nodes[0].name == "/" && 0 < n < |nodes| && '/' !in name
    requires r == nodes[n := nodes[n].(name := Truncate(name))] && Table(r) && nodes[n].parent < |nodes|
    requires FindChild(nodes, nodes[n].parent, name) < 0
    ensures Walk(r, nodes[n].parent, Components(name)) == n <==> WellFormedName(name)
  {
    hide Components;
    var p := nodes[n].parent;
    ParentInside(nodes, n);
    ParentInside(nodes, p);
    if name == "" {
      NoComponents();
    } else {
      NameComponents(name);
      if |name| <= MAX_NAME - 1 {
        WalkOne(r, p, name);
        if |name| == MAX_NAME - 1 { NoLongName(nodes, n, r, name, p); } else { FindRenamed(nodes, n, r, name); }
      } else {
        NoLongName(nodes, n, r, name[..MAX_NAME - 1], p);
        WalkOne(r, p, name[..MAX_NAME - 1]);
        WalkJoin(r, p, [name[..MAX_NAME - 1]], Components(name[MAX_NAME - 1..]));
      }
    }
  }

  lemma FindRenamed(nodes: seq<Node>, n: nat, r: seq<Node>, name: string)
    requires 0 < n < |nodes| && |name| <= MAX_NAME - 2 && r == nodes[n := nodes[n].(name := Truncate(name))]
    requires FindChild(nodes, nodes[n].parent, name) < 0
    ensures FindChild(r, nodes[n].parent, name) == n
  {
    var c := FindChild(r, nodes[n].parent, name);
    assert r[n].name == name && r[n].parent == nodes[n].parent;
  }

  lemma NoLongName(nodes: seq<Node>, n: nat, r: seq<Node>, name: string, p: nat)
    requires Named(nodes) && nodes != [] && nodes[0].name == "/" && 0 < n < |nodes| && |name| == MAX_NAME - 1
    requires exists stored :: |stored| <= MAX_NAME - 2 && r == nodes[n := nodes[n].(name := stored)]
    ensures FindChild(r, p, name) < 0
  {
    forall k | 0 <= k < |r| ensures |r[k].name| <= MAX_NAME - 2 {
      if k > 0 && k != n { assert WellFormedName(nodes[k].name); }
    }
  }

  /** A node renamed to a name without '/' is found under its new path exactly when the name is well formed. */
  lemma RenamedIsFoundExactly(s: State, path: string, name: string)
    requires Reachable(s) && Rename(s, path, name).code == Ok && '/' !in name
    ensures var n, nodes := Resolve(s.fs, path), s.fs.nodes;
      n > 0 && nodes[n].parent < |nodes| &&
      (Resolve(Rename(s, path, name).state.fs, FullPath(nodes, nodes[n].parent) + "/" + name) == n <==>
        WellFormedName(name))
  {
    hide Components, FullPath, Walk, FindChild, PathOf;
    var n, nodes := Resolve(s.fs, path), s.fs.nodes;
    ParentInside(nodes, n);
    var p := nodes[n].parent;
    var r := Rename(s, path, name).state.fs.nodes;
    var dir := FullPath(nodes, p);
    ComponentsJoin(dir, name);
    FullPathComponents(nodes, p);
    if p == 0 { RootPath(nodes); }
    assert Absolute(dir + "/" + name) by { if dir != "" { assert (dir + "/" + name)[0] == dir[0]; } }
    WalkDownRenamed(nodes, n, r, Truncate(name), p);
    WalkJoin(r, 0, PathOf(nodes, p), Components(name));
    LookupRenamed(nodes, n, r, name);
  }

  lemma RootPath(nodes: seq<Node>)
    requires Table(nodes)
    ensures FullPath(nodes, 0) == ""
  {}

  // ----- Names in paths -----

  lemma {:induction false} LastPartJoin(p: string, x: string)
    requires '/' !in x
    ensures LastPart(p + "/" + x) == x
  {
    var all := p + "/" + x;
    assert all[|p|] == '/';
    if p == "" {
      assert all[1..] == x;
    } else {
      assert all[1..] == p[1..] + "/" + x;
      LastPartJoin(p[1..], x);
    }
  }
}
