/** The filesystem as the kernel runs it: one array of nodes, a count and a cwd, changed in place, with
    file buffers on the kernel heap. Each method is tied to its description in VfsModel. */
module VfsTable {
  import Heap
  import opened KMemory
  import opened VfsModel

  class FileSystem {
    const nodes: array<Node>       // g_nodes
    var count: nat                 // g_node_count
    var cwd: nat                   // g_cwd
    const heap: Heap.KernelHeap
    var store: Store               // what the file buffers hold

    ghost function Table(): seq<Node>
      reads this, nodes
      requires count <= nodes.Length
    {
      nodes[..count]
    }

    ghost predicate Shape()
      reads this, nodes
    {
      nodes.Length == MAX_FILES && count <= nodes.Length && Structure(Fs(nodes[..count], cwd))
    }

    ghost function View(): State
      reads this, nodes, heap
      requires count <= nodes.Length
    {
      State(Fs(nodes[..count], cwd), heap.blocks, store)
    }

    ghost predicate Valid()
      reads this, nodes, heap
    {
      Shape() && heap.Valid() && Owned(View())
    }

    /** `vfs_init` up to its first `vfs_mkdir`. */
    constructor (h: Heap.KernelHeap)
      requires h.Valid()
      ensures Valid() && heap == h && fresh(nodes)
      ensures View() == State(Fs([Node("/", true, 0, 0, 0)], 0), h.blocks, map[])
    {
      nodes := new Node[MAX_FILES](_ => Node("", false, 0, 0, 0));
      heap := h;
      count, cwd, store := 1, 0, map[];
      new;
      nodes[0] := Node("/", true, 0, 0, 0);
      assert nodes[..1] == [Node("/", true, 0, 0, 0)];
    }

    method FindNamed(parent: nat, name: string) returns (r: int)
      requires Shape()
      ensures r == FindChild(nodes[..count], parent, name)
    {
      var i := 0;
      while i < count
        invariant 0 <= i <= count
        invariant FindChild(nodes[..count], parent, name) == FindChildFrom(nodes[..count], parent, name, i)
      {
        if nodes[i].parent == parent && nodes[i].name == name { return i; }
        i := i + 1;
      }
      return -1;
    }

    /** The inner loop of `resolve_path`: the length of the component at `i`. */
    method ScanComponent(path: string, i: nat) returns (len: nat)
      requires i < |path| && path[i] != '/'
      ensures len == ComponentLength(path[i..]) && 0 < len <= |path| - i
    {
      len := 0;
      while i + len < |path| && path[i + len] != '/' && len < MAX_NAME - 1
        invariant len <= |path| - i && len <= MAX_NAME - 1
        invariant ComponentLength(path[i..]) == len + ComponentLength(path[i + len..], len)
      {
        assert path[i + len..][0] == path[i + len] && path[i + len..][1..] == path[i + len + 1..];
        len := len + 1;
      }
      assert i + len < |path| ==> path[i + len..][0] == path[i + len];
      assert path[i..][0] == path[i];
    }

    static lemma NextComponent(path: string, i: nat)
      requires i < |path|
      ensures path[i] == '/' ==> Components(path[i..]) == Components(path[i + 1..])
      ensures path[i] != '/' ==> var len := ComponentLength(path[i..]);
        len <= |path| - i && Components(path[i..]) == [path[i..i + len]] + Components(path[i + len..])
    {
      assert path[i..][0] == path[i] && path[i..][1..] == path[i + 1..];
      var len := ComponentLength(path[i..]);
      assert path[i..][..len] == path[i..i + len] && path[i..][len..] == path[i + len..];
    }

    /** `resolve_path`: -1 when some component is missing. */
    method ResolvePath(path: string) returns (r: int)
      requires Shape()
      ensures r == Resolve(Fs(nodes[..count], cwd), path)
    {
      hide Components, ComponentLength, Walk, FindChild;
      ghost var table := nodes[..count];
      var cur: nat := if path != "" && path[0] == '/' then 0 else cwd;
      var i := 0;
      assert path[0..] == path;
      while i < |path|
        invariant 0 <= i <= |path| && cur < count
        invariant Walk(table, cur, Components(path[i..])) == Resolve(Fs(table, cwd), path)
      {
        NextComponent(path, i);
        if path[i] == '/' {
          i := i + 1;
          continue;
        }
        var len := ScanComponent(path, i);
        var comp := path[i..i + len];
        StepWalk(table, cur, comp, Components(path[i + len..]));
        i := i + len;
        if comp == "." { continue; }
        if comp == ".." {
          cur := nodes[cur].parent;
          continue;
        }
        var c := FindNamed(cur, comp);
        if c < 0 { return -1; }
        cur := c;
      }
      assert path[i..] == "";
      WalkEnd(table, cur);
      return cur;
    }

    static lemma WalkEnd(table: seq<Node>, cur: nat)
      requires VfsModel.Table(table) && cur < |table|
      ensures Walk(table, cur, Components("")) == cur
    {}

    static lemma StepWalk(table: seq<Node>, cur: nat, comp: string, rest: seq<string>)
      requires VfsModel.Table(table) && cur < |table|
      ensures table[cur].parent < |table|
      ensures var w := Walk(table, cur, [comp] + rest);
        if comp == "." then w == Walk(table, cur, rest)
        else if comp == ".." then w == Walk(table, table[cur].parent, rest)
        else w == var c := FindChild(table, cur, comp); if c < 0 then -1 else Walk(table, c, rest)
    {
      ParentInside(table, cur);
      assert ([comp] + rest)[1..] == rest;
    }

    method ScanSlash(path: string) returns (slash: int)
      ensures slash == LastSlash(path)
    {
      slash := -1;
      var i := 0;
      while i < |path|
        invariant 0 <= i <= |path|
        invariant slash == LastSlashBelow(path, i)
      {
        if path[i] == '/' { slash := i; }
        i := i + 1;
      }
    }

    method FindParent(path: string, slash: int) returns (p: int)
      requires Shape() && slash == LastSlash(path)
      ensures p == ParentNode(Fs(nodes[..count], cwd), path)
    {
      hide Resolve, LastSlash, VfsModel.Table;
      if slash <= 0 {
        p := if slash == 0 then 0 else cwd;
      } else {
        p := ResolvePath(path[..slash]);
      }
    }

    method SplitPath(path: string) returns (code: Code, parent: nat, name: string)
      requires Shape()
      ensures Target(code, parent, name) == Split(Fs(nodes[..count], cwd), path)
    {
      hide ParentNode, LastSlash, LastPart, Truncate, VfsModel.Table;
      LastPartAfterSlash(path);
      var slash := ScanSlash(path);
      name := Truncate(path[slash + 1..]);
      if slash > 0 && slash >= MAX_PATH { return Inval, 0, name; }
      var p := FindParent(path, slash);
      if p < 0 { return NoEnt, 0, name; }
      if !nodes[p].isDir { return NotDir, 0, name; }
      return Ok, p, name;
    }

    method CreateNode(path: string, isDir: bool) returns (code: Code)
      requires Valid()
      modifies this, nodes
      ensures Valid()
      ensures Outcome(View(), code) == Create(old(View()), path, isDir)
    {
      hide FindChild, Split;
      ghost var s := View();
      if count >= MAX_FILES { return NoSpc; }
      var err, parent, name := SplitPath(path);
      if err != Ok { return err; }
      if name == "" { return Inval; }
      var c := FindNamed(parent, name);
      if c >= 0 { return Exist; }
      CreateKeepsOwned(s, path, isDir);
      nodes[count] := Node(name, isDir, parent, 0, 0);
      count := count + 1;
      assert nodes[..count] == s.fs.nodes + [Node(name, isDir, parent, 0, 0)];
      return Ok;
    }

    method RenameNode(path: string, name: string) returns (code: Code)
      requires Valid()
      modifies nodes
      ensures Valid()
      ensures Outcome(View(), code) == Rename(old(View()), path, name)
    {
      hide FindChild, Resolve;
      ghost var s := View();
      StepKeepsStructure(s, RenameTo(path, name), heap.start, heap.limit);
      var n := ResolvePath(path);
      if n <= 0 { return NoEnt; }
      var c := FindNamed(nodes[n].parent, name);
      if c >= 0 { return Exist; }
      nodes[n] := nodes[n].(name := Truncate(name));
      assert nodes[..count] == s.fs.nodes[n := s.fs.nodes[n].(name := Truncate(name))];
      return Ok;
    }

    /** The emptiness scan of `vfs_delete`. */
    method AnyChild(n: nat) returns (found: bool)
      requires Shape()
      ensures found <==> HasChild(nodes[..count], n)
    {
      var i := 0;
      while i < count
        invariant 0 <= i <= count
        invariant forall k :: 0 <= k < i ==> nodes[k].parent != n || k == n
      {
        if nodes[i].parent == n && i != n {
          assert nodes[..count][i].parent == n;
          return true;
        }
        i := i + 1;
      }
      return false;
    }

    /** Closes the gap that node `n` leaves. */
    method ShiftDown(n: nat)
      requires n < count <= nodes.Length
      modifies nodes
      ensures forall k :: 0 <= k < count - 1 ==> nodes[k] == old(nodes[if k < n then k else k + 1])
    {
      var i := n;
      while i < count - 1
        invariant n <= i <= count - 1
        invariant forall k :: 0 <= k < i ==> nodes[k] == old(nodes[if k < n then k else k + 1])
        invariant forall k :: i <= k < count ==> nodes[k] == old(nodes[k])
      {
        nodes[i] := nodes[i + 1];
        i := i + 1;
      }
    }

    /** Renumbers the parents after node `n` has gone. */
    method FixParents(n: nat)
      requires count <= nodes.Length
      modifies nodes
      ensures forall k :: 0 <= k < count ==> nodes[k] == FixParent(old(nodes[k]), k, n)
    {
      var i := 0;
      while i < count
        invariant 0 <= i <= count
        invariant forall k :: i <= k < count ==> nodes[k] == old(nodes[k])
        invariant forall k :: 0 <= k < i ==> nodes[k] == FixParent(old(nodes[k]), k, n)
      {
        if nodes[i].parent > n {
          nodes[i] := nodes[i].(parent := nodes[i].parent - 1);
        } else if nodes[i].parent == n && i != 0 {
          nodes[i] := nodes[i].(parent := 0);
        }
        i := i + 1;
      }
    }

    method CompactTable(n: nat)
      requires n < count <= nodes.Length
      modifies `count, nodes
      ensures count == old(count) - 1
      ensures nodes[..count] == Compact(old(nodes[..count]), n)
    {
      ShiftDown(n);
      count := count - 1;
      FixParents(n);
    }

    method DeleteNode(path: string) returns (code: Code)
      requires Valid()
      modifies this, nodes, heap
      ensures Valid()
      ensures Outcome(View(), code) == Delete(old(View()), path)
    {
      hide Resolve, HasChild, Compact;
      ghost var s := View();
      StepKeepsStructure(s, Remove(path), heap.start, heap.limit);
      var n := ResolvePath(path);
      if n <= 0 { return NoEnt; }
      if nodes[n].isDir {
        var any := AnyChild(n);
        if any { return NotEmpty; }
      }
      BufferLive(s, n);
      heap.Release(nodes[n].data);
      CompactTable(n);
      cwd := FixCwd(cwd, n, count);
      return Ok;
    }

    static lemma BufferLive(s: State, n: nat)
      requires Owned(s) && n < |s.fs.nodes|
      ensures s.fs.nodes[n].data == 0 || Heap.IsLive(s.heap, s.fs.nodes[n].data)
    {
      if s.fs.nodes[n].data != 0 {
        BufferIsLive(s, n);
      }
    }

    method WriteFile(path: string, data: string) returns (code: Code)
      requires Valid() && |data| < 0x7FFF_FFFF
      modifies this, nodes, heap
      ensures Valid()
      ensures Outcome(View(), code) == Write(old(View()), path, data)
    {
      hide Resolve, Heap.Alloc, Heap.Free, Heap.LivePointers, Heap.IsLive, OthersUntouched, OwnedFrom;
      ghost var s := View();
      StepKeepsStructure(s, Save(path, data), heap.start, heap.limit);
      var n := ResolvePath(path);
      if n < 0 { return NoEnt; }
      if nodes[n].isDir { return IsDir; }
      Heap.AllocEffect(s.heap, |data| + 1, heap.start, heap.limit);
      var buf := heap.Allocate(|data| + 1);
      if buf == 0 { return NoMem; }
      StillLive(s, n, heap.blocks, buf);
      heap.Release(nodes[n].data);
      store := store[buf := data + ['\0']];
      nodes[n] := nodes[n].(data := buf, size := |data|);
      assert nodes[..count] == s.fs.nodes[n := s.fs.nodes[n].(data := buf, size := |data|)];
      return Ok;
    }

    static lemma StillLive(s: State, n: nat, blocks: seq<Heap.Block>, buf: nat)
      requires Owned(s) && n < |s.fs.nodes| && Heap.LivePointers(blocks) == Heap.LivePointers(s.heap) + {buf}
      ensures s.fs.nodes[n].data == 0 || Heap.IsLive(blocks, s.fs.nodes[n].data)
    {
      if s.fs.nodes[n].data != 0 {
        BufferIsLive(s, n);
        Heap.PointersOfLive(blocks, s.fs.nodes[n].data);
      }
    }

    method ReadFile(path: string, maxlen: nat) returns (r: ReadResult)
      requires Valid()
      ensures r == Read(View(), path, maxlen)
    {
      hide Resolve;
      var n := ResolvePath(path);
      if n < 0 { return ReadError(NoEnt); }
      if nodes[n].isDir { return ReadError(IsDir); }
      assert nodes[n] == nodes[..count][n];
      var copylen := nodes[n].size;
      if copylen > maxlen { copylen := maxlen; }
      BufferHolds(View(), n);
      if nodes[n].data == 0 { return Bytes(""); }
      return Bytes(store[nodes[n].data][..copylen]);
    }

    static lemma BufferHolds(s: State, n: nat)
      requires Owned(s) && n < |s.fs.nodes|
      ensures var node := s.fs.nodes[n]; node.data != 0 ==> node.data in s.store && node.size <= |s.store[node.data]|
    {
      var node := s.fs.nodes[n];
      if node.data != 0 { assert Backed(s.heap, s.store, node); }
    }

    method ChangeDirectory(path: string) returns (code: Code)
      requires Valid()
      modifies `cwd
      ensures Valid()
      ensures Outcome(View(), code) == Chdir(old(View()), path)
    {
      hide Resolve;
      var n := ResolvePath(path);
      if n < 0 { return NoEnt; }
      if !nodes[n].isDir { return NotDir; }
      cwd := n;
      return Ok;
    }

    /** `build_pwd`: the path is written backwards from the end of `buf` and then moved to its front, through
        `tmp`. The shown path is followed by a NUL. */
    method BuildPath(node: nat, buf: array<char>, maxlen: nat)
      requires Shape() && node < count && 2 <= maxlen <= buf.Length && PwdFits(nodes[..count], node, maxlen, buf.Length)
      modifies buf
      ensures var shown := ShownPath(nodes[..count], node, maxlen);
        |shown| < buf.Length && buf[..|shown|] == shown && buf[|shown|] == '\0'
    {
      hide FullPath;
      if node == 0 {
        buf[0], buf[1] := '/', '\0';
        return;
      }
      var pos := Climb(node, buf, maxlen);
      if pos < 0 { ShowDots(buf); } else { MoveToFront(buf, pos, maxlen); }
    }

    /** `vfs_path_of`. */
    method PathOfIndex(idx: int, buf: array<char>, maxlen: nat)
      requires Shape() && maxlen <= buf.Length
      requires 0 <= idx < count && 2 <= maxlen ==> PwdFits(nodes[..count], idx, maxlen, buf.Length)
      modifies buf
      ensures if 0 <= idx < count && 2 <= maxlen then
                var shown := ShownPath(nodes[..count], idx, maxlen);
                |shown| < buf.Length && buf[..|shown|] == shown && buf[|shown|] == '\0'
              else maxlen > 0 ==> buf[0] == '\0'
    {
      hide FullPath;
      if idx < 0 || idx >= count || maxlen < 2 {
        if maxlen > 0 { buf[0] := '\0'; }
        return;
      }
      BuildPath(idx, buf, maxlen);
    }

    /** The parent walk: each name goes in front of what is there, until the root, or -1 when one does not
        fit. */
    method Climb(node: nat, buf: array<char>, maxlen: nat) returns (pos: int)
      requires Shape() && node < count && 2 <= maxlen <= buf.Length
      modifies buf
      ensures var path := FullPath(nodes[..count], node);
        if pos < 0 then |path| >= maxlen
        else pos < maxlen && buf[pos..maxlen - 1] == path && buf[maxlen - 1] == '\0'
    {
      hide FullPath;
      ghost var table := nodes[..count];
      FullPathUp(table, 0);
      buf[maxlen - 1] := '\0';
      pos := maxlen - 1;
      var cur: nat := node;
      while cur != 0
        invariant 0 <= pos < maxlen && cur < count
        invariant FullPath(table, node) == FullPath(table, cur) + buf[pos..maxlen - 1]
        invariant buf[maxlen - 1] == '\0'
        decreases cur
      {
        ParentInside(table, cur);
        FullPathUp(table, cur);
        var name := nodes[cur].name;
        if pos - |name| < 1 { return -1; }
        pos := pos - |name| - 1;
        Prepend(buf, pos, name, maxlen - 1, FullPath(table, cur), FullPath(table, table[cur].parent));
        cur := nodes[cur].parent;
      }
    }

    static lemma FullPathUp(table: seq<Node>, i: nat)
      requires VfsModel.Table(table) && i < |table|
      ensures FullPath(table, 0) == ""
      ensures i > 0 ==>
        table[i].parent < |table| && FullPath(table, i) == FullPath(table, table[i].parent) + "/" + table[i].name
    {
      ParentInside(table, i);
    }

    method ShowDots(buf: array<char>)
      requires 5 <= buf.Length
      modifies buf
      ensures buf[..4] == "/..." && buf[4] == '\0'
    {
      Copy(buf, 0, ['/', '.', '.', '.', '\0']);
      assert buf[..5] == ['/', '.', '.', '.', '\0'];
      assert buf[..4] == buf[..5][..4];
    }

    /** The two copies through `tmp`. */
    method MoveToFront(buf: array<char>, pos: nat, end: nat)
      requires pos < end <= buf.Length && end - pos <= MAX_PATH
      modifies buf
      ensures buf[..end - 1 - pos] == old(buf[pos..end - 1]) && buf[end - 1 - pos] == old(buf[end - 1])
    {
      var tmp := new char[MAX_PATH];
      var n := end - pos;
      Copy(tmp, 0, buf[pos..end]);
      Copy(buf, 0, tmp[..n]);
      assert tmp[..n] == old(buf[pos..end]) && buf[..n] == tmp[..n];
      assert buf[..n - 1] == buf[..n][..n - 1];
    }

    /** Writes '/' and `name` in front of what is already there. */
    method Prepend(buf: array<char>, pos: nat, name: string, end: nat, ghost path: string, ghost dir: string)
      requires pos + 1 + |name| <= end < buf.Length && path == dir + "/" + name
      modifies buf
      ensures buf[end] == old(buf[end])
      ensures dir + buf[pos..end] == path + old(buf[pos + 1 + |name|..end])
    {
      ghost var rest := buf[pos + 1 + |name|..end];
      Copy(buf, pos + 1, name);
      buf[pos] := '/';
      assert buf[pos..end] == "/" + name + rest;
    }
  }
}
