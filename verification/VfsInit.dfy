/** The filesystem that `vfs_init` leaves, and runs from it. */
module VfsInit {
  import Heap
  import Word32
  import opened VfsModel
  import opened VfsTree
  import opened VfsPaths

  const EMPTY_FS := Fs([Node("/", true, 0, 0, 0)], 0)

  /** The root alone, over the heap that `mm_init` makes. */
  function Fresh(lo: nat, hi: nat): State
    requires lo + Heap.HEADER <= hi
  {
    State(EMPTY_FS, Heap.Initial(lo, hi), map[])
  }

  function TopDirs(): seq<string> { ["/system", "/user"] }

  function UserDirs(): seq<string> { ["/user/root", "/user/root/desktop", "/user/root/download"] }

  function OtherDirs(): seq<string> { ["/app", "/virtual", "/drivers", "/cache"] }

  function InitDirs(): seq<string> { TopDirs() + UserDirs() + OtherDirs() }

  function MkDirs(paths: seq<string>): seq<Op> { if paths == [] then [] else [MkDir(paths[0])] + MkDirs(paths[1..]) }

  /** What `vfs_init` does to the root alone. */
  function InitOps(): seq<Op> {
    MkDirs(InitDirs()) + [MkFile("/system/passwd"), Save("/system/passwd", "root:root\n")]
  }

  lemma FreshReachable(lo: nat, hi: nat)
    requires 0 < lo && lo + Heap.HEADER <= hi && (hi - lo) % 4 == 0
    ensures Reachable(Fresh(lo, hi)) && Heap.Canonical(Fresh(lo, hi).heap, lo, hi)
    ensures Abstract(Fresh(lo, hi)) == Tree(map[[] := Dir], [])
  {
    var s := Fresh(lo, hi);
    EmptyTree(s);
    assert s.heap[1..] == [];
    assert Heap.Tiles(s.heap, lo, hi);
  }

  lemma EmptyTree(s: State)
    requires s.fs == EMPTY_FS
    ensures Reachable(s) && Abstract(s) == Tree(map[[] := Dir], [])
  {}

  // ----- The directories -----

  predicate IsInitDir(path: string) { WellFormedName(LastPart(path)) }

  lemma NewName(dir: string, name: string, path: string)
    requires path == dir + "/" + name && WellFormedName(name)
    ensures IsInitDir(path)
  {
    LastPartJoin(dir, name);
  }

  lemma TopDirsProper()
    ensures forall p :: p in TopDirs() ==> IsInitDir(p)
  {
    hide IsInitDir;
    NewName("", "system", "/system");
    NewName("", "user", "/user");
  }

  lemma UserDirsProper()
    ensures forall p :: p in UserDirs() ==> IsInitDir(p)
  {
    hide IsInitDir;
    NewName("/user", "root", "/user/root");
    NewName("/user/root", "desktop", "/user/root/desktop");
    NewName("/user/root", "download", "/user/root/download");
  }

  lemma OtherDirsProper()
    ensures forall p :: p in OtherDirs() ==> IsInitDir(p)
  {
    hide IsInitDir;
    NewName("", "app", "/app");
    NewName("", "virtual", "/virtual");
    NewName("", "drivers", "/drivers");
    NewName("", "cache", "/cache");
  }

  lemma InitDirsProper()
    ensures forall p :: p in InitDirs() ==> IsInitDir(p)
  {
    hide IsInitDir, TopDirs, UserDirs, OtherDirs;
    TopDirsProper();
    UserDirsProper();
    OtherDirsProper();
  }

  /** Nothing has been allocated, and the map is `entries`. */
  ghost predicate Holding(s: State, entries: map<Path, Entry>, lo: nat, hi: nat)
    requires lo + Heap.HEADER <= hi
  {
    Reachable(s) && s.heap == Heap.Initial(lo, hi) && Abstract(s) == Tree(entries, [])
  }

  ghost function TopEntries(): map<Path, Entry> { map[[] := Dir, ["system"] := Dir, ["user"] := Dir] }

  ghost function UserEntries(): map<Path, Entry> {
    TopEntries()[["user", "root"] := Dir][["user", "root", "desktop"] := Dir][["user", "root", "download"] := Dir]
  }

  ghost function DirEntries(): map<Path, Entry> {
    UserEntries()[["app"] := Dir][["virtual"] := Dir][["drivers"] := Dir][["cache"] := Dir]
  }

  /** No path ends in `name`. */
  ghost predicate Unused(entries: map<Path, Entry>, name: string) {
    forall p :: p in entries && p != [] ==> p[|p| - 1] != name
  }

  lemma MakeNew(s: State, entries: map<Path, Entry>, dir: Path, name: string, path: string, lo: nat, hi: nat)
    requires lo + Heap.HEADER <= hi && Holding(s, entries, lo, hi) && Unused(entries, name) && WellFormedName(name)
    requires dir in entries && entries[dir] == Dir && |entries| < 128
    requires path == Spell(dir) + "/" + name && |Spell(dir)| < 128
    ensures Holding(Step(s, MkDir(path)).state, entries[dir + [name] := Dir], lo, hi)
    ensures Holding(Step(s, MkFile(path)).state, entries[dir + [name] := File("")], lo, hi)
    ensures |entries[dir + [name] := Dir]| == |entries| + 1
  {
    hide Create, Abstract, Named, Owned, Table, WellFormedName, Spell;
    assert (dir + [name])[|dir|] == name;
    CreateAt(s, dir, name, true);
    CreateAt(s, dir, name, false);
    assert entries[dir + [name] := Dir].Keys == entries.Keys + {dir + [name]};
  }

  lemma TopPaths()
    ensures "/system" == Spell([]) + "/" + "system" && "/user" == Spell([]) + "/" + "user"
    ensures "/app" == Spell([]) + "/" + "app" && "/virtual" == Spell([]) + "/" + "virtual"
    ensures "/drivers" == Spell([]) + "/" + "drivers" && "/cache" == Spell([]) + "/" + "cache"
    ensures |Spell([])| < 128
  {}

  lemma UserPath()
    ensures Spell(["user"]) == "/user" && |Spell(["user"])| < 128
    ensures "/user/root" == Spell(["user"]) + "/" + "root"
  {
    assert Parent(["user"]) == [];
    assert Spell(["user"]) == Spell([]) + "/" + "user";
    hide Spell;
    TopPaths();
  }

  lemma HomePath()
    ensures Spell(["user", "root"]) == "/user/root" && |Spell(["user", "root"])| < 128
    ensures "/user/root/desktop" == Spell(["user", "root"]) + "/" + "desktop"
    ensures "/user/root/download" == Spell(["user", "root"]) + "/" + "download"
  {
    assert Parent(["user", "root"]) == ["user"];
    assert Spell(["user", "root"]) == Spell(["user"]) + "/" + "root";
    hide Spell;
    UserPath();
  }

  lemma PasswdSpelled()
    ensures Spell(["system"]) == "/system" && |Spell(["system"])| < 128
    ensures "/system/passwd" == Spell(["system"]) + "/" + "passwd"
  {
    assert Parent(["system"]) == [];
    assert Spell(["system"]) == Spell([]) + "/" + "system";
    hide Spell;
    TopPaths();
  }

  lemma PasswdLocated(s: State)
    requires Reachable(s) && ["system", "passwd"] in Abstract(s).entries
    ensures Locate(Abstract(s), "/system/passwd") == Found(["system", "passwd"])
  {
    hide Locate, Abstract, Reachable;
    var p := ["system", "passwd"];
    assert Parent(p) == ["system"];
    assert Spell(p) == Spell(["system"]) + "/" + "passwd";
    PasswdSpelled();
    LocateSpelled(s, p);
  }

  lemma NextMkDir(s: State, paths: seq<string>)
    requires Structure(s.fs) && paths != []
    ensures Run(s, MkDirs(paths)) == Run(Step(s, MkDir(paths[0])).state, MkDirs(paths[1..]))
  {
    hide Step;
    assert MkDirs(paths)[1..] == MkDirs(paths[1..]);
  }

  lemma NamesProper()
    ensures WellFormedName("system") && WellFormedName("user") && WellFormedName("root") && WellFormedName("desktop")
    ensures WellFormedName("download") && WellFormedName("app") && WellFormedName("virtual")
    ensures WellFormedName("drivers") && WellFormedName("cache") && WellFormedName("passwd")
  {}

  lemma TwoMkDirs(s: State, a: string, b: string)
    requires Structure(s.fs)
    ensures Run(s, MkDirs([a, b])) == Step(Step(s, MkDir(a)).state, MkDir(b)).state
  {
    hide Step;
    NextMkDir(s, [a, b]);
    NextMkDir(Step(s, MkDir(a)).state, [b]);
    assert [a, b][1..] == [b] && [b][1..] == [];
  }

  lemma ThreeMkDirs(s: State, a: string, b: string, c: string)
    requires Structure(s.fs)
    ensures Run(s, MkDirs([a, b, c])) == Step(Step(Step(s, MkDir(a)).state, MkDir(b)).state, MkDir(c)).state
  {
    hide Step, Run, MkDirs;
    NextMkDir(s, [a, b, c]);
    TwoMkDirs(Step(s, MkDir(a)).state, b, c);
    assert [a, b, c][1..] == [b, c];
  }

  lemma FourMkDirs(s: State, a: string, b: string, c: string, d: string)
    requires Structure(s.fs)
    ensures Run(s, MkDirs([a, b, c, d])) ==
      Step(Step(Step(Step(s, MkDir(a)).state, MkDir(b)).state, MkDir(c)).state, MkDir(d)).state
  {
    hide Step, Run, MkDirs;
    NextMkDir(s, [a, b, c, d]);
    ThreeMkDirs(Step(s, MkDir(a)).state, b, c, d);
    assert [a, b, c, d][1..] == [b, c, d];
  }

  lemma HoldingShape(s: State, entries: map<Path, Entry>, lo: nat, hi: nat)
    requires lo + Heap.HEADER <= hi && Holding(s, entries, lo, hi)
    ensures Structure(s.fs)
  {}

  lemma MapsGrow(entries: map<Path, Entry>)
    requires entries == map[[] := Dir]
    ensures |entries| == 1 && Unused(entries, "system") && Unused(entries[["system"] := Dir], "user")
    ensures entries[["system"] := Dir][["user"] := Dir] == TopEntries()
  {}

  lemma TopMade(s: State, lo: nat, hi: nat)
    requires lo + Heap.HEADER <= hi && Holding(s, map[[] := Dir], lo, hi)
    ensures Structure(s.fs) && Holding(Run(s, MkDirs(TopDirs())), TopEntries(), lo, hi)
    ensures |TopEntries()| == 3
  {
    hide *;
    var e: map<Path, Entry> := map[[] := Dir];
    NamesProper();
    TopPaths();
    MapsGrow(e);
    HoldingShape(s, e, lo, hi);
    assert [] + ["system"] == ["system"] && [] + ["user"] == ["user"];
    MakeNew(s, e, [], "system", "/system", lo, hi);
    var s1 := Step(s, MkDir("/system")).state;
    MakeNew(s1, e[["system"] := Dir], [], "user", "/user", lo, hi);
    TopSteps(s);
  }

  lemma TopSteps(s: State)
    requires Structure(s.fs)
    ensures Run(s, MkDirs(TopDirs())) == Step(Step(s, MkDir("/system")).state, MkDir("/user")).state
  {
    hide Step, Run, MkDirs;
    TwoMkDirs(s, "/system", "/user");
  }

  lemma DifferentNames()
    ensures "user" != "root" && "desktop" != "virtual" && "desktop" != "drivers" && "virtual" != "drivers"
    ensures "system" != "passwd"
  {
    assert "user"[0] == 'u' && "root"[0] == 'r' && "desktop"[1] == 'e' && "drivers"[1] == 'r';
    assert "virtual"[0] == 'v' && "system"[0] == 's' && "passwd"[0] == 'p' && "drivers"[0] == 'd';
  }

  lemma UnusedStill(entries: map<Path, Entry>, dir: Path, name: string, other: string)
    requires Unused(entries, other) && name != other
    ensures Unused(entries[dir + [name] := Dir], other)
  {}

  lemma UserNamesUnused(entries: map<Path, Entry>)
    requires entries == TopEntries()
    ensures Unused(entries, "root") && Unused(entries[["user"] + ["root"] := Dir], "desktop")
    ensures Unused(entries[["user"] + ["root"] := Dir][["user", "root"] + ["desktop"] := Dir], "download")
  {
    UserNamesFree();
    DifferentNames();
    hide *;
    UnusedStill(entries, ["user"], "root", "desktop");
    UnusedStill(entries, ["user"], "root", "download");
    UnusedStill(entries[["user"] + ["root"] := Dir], ["user", "root"], "desktop", "download");
  }

  lemma UserNamesFree()
    ensures Unused(TopEntries(), "root") && Unused(TopEntries(), "desktop") && Unused(TopEntries(), "download")
  {
    DifferentNames();
  }

  lemma UserDirsThere(entries: map<Path, Entry>)
    requires entries == TopEntries()
    ensures ["user"] in entries && entries[["user"]] == Dir
    ensures var e := entries[["user", "root"] := Dir];
      ["user", "root"] in e && e[["user", "root"]] == Dir &&
      ["user", "root"] in e[["user", "root", "desktop"] := Dir] &&
      e[["user", "root", "desktop"] := Dir][["user", "root"]] == Dir &&
      e[["user", "root", "desktop"] := Dir][["user", "root", "download"] := Dir] == UserEntries()
  {}

  lemma UserMade(s: State, lo: nat, hi: nat)
    requires lo + Heap.HEADER <= hi && Holding(s, TopEntries(), lo, hi) && |TopEntries()| == 3
    ensures Structure(s.fs) && Holding(Run(s, MkDirs(UserDirs())), UserEntries(), lo, hi)
    ensures |UserEntries()| == 6
  {
    hide *;
    var e := TopEntries();
    NamesProper();
    UserPath();
    HomePath();
    UserNamesUnused(e);
    UserDirsThere(e);
    HoldingShape(s, e, lo, hi);
    assert ["user"] + ["root"] == ["user", "root"];
    assert ["user", "root"] + ["desktop"] == ["user", "root", "desktop"];
    assert ["user", "root"] + ["download"] == ["user", "root", "download"];
    MakeNew(s, e, ["user"], "root", "/user/root", lo, hi);
    var s1, e1 := Step(s, MkDir("/user/root")).state, e[["user", "root"] := Dir];
    MakeNew(s1, e1, ["user", "root"], "desktop", "/user/root/desktop", lo, hi);
    var s2, e2 := Step(s1, MkDir("/user/root/desktop")).state, e1[["user", "root", "desktop"] := Dir];
    MakeNew(s2, e2, ["user", "root"], "download", "/user/root/download", lo, hi);
    UserSteps(s);
  }

  lemma UserSteps(s: State)
    requires Structure(s.fs)
    ensures var s2 := Step(Step(s, MkDir("/user/root")).state, MkDir("/user/root/desktop")).state;
      Run(s, MkDirs(UserDirs())) == Step(s2, MkDir("/user/root/download")).state
  {
    hide Step, Run, MkDirs;
    ThreeMkDirs(s, "/user/root", "/user/root/desktop", "/user/root/download");
  }

  lemma LaterNameUnused(name: string)
    requires name != "system" && name != "user" && name != "root" && name != "desktop" && name != "download"
    ensures Unused(UserEntries(), name)
  {}

  lemma LaterNamesUnused()
    ensures var e := UserEntries(); Unused(e, "app") && Unused(e, "virtual") && Unused(e, "drivers")
    ensures var e := UserEntries(); Unused(e, "cache") && Unused(e, "passwd")
  {
    hide *;
    DifferentNames();
    LaterNameUnused("app");
    LaterNameUnused("virtual");
    LaterNameUnused("drivers");
    LaterNameUnused("cache");
    LaterNameUnused("passwd");
  }

  lemma OtherNamesUnused(entries: map<Path, Entry>)
    requires entries == UserEntries()
    ensures Unused(entries, "app") && Unused(entries[["app"] := Dir], "virtual")
    ensures Unused(entries[["app"] := Dir][["virtual"] := Dir], "drivers")
    ensures Unused(entries[["app"] := Dir][["virtual"] := Dir][["drivers"] := Dir], "cache")
    ensures Unused(entries[["app"] := Dir][["virtual"] := Dir][["drivers"] := Dir][["cache"] := Dir], "passwd")
  {
    LaterNamesUnused();
    DifferentNames();
    hide *;
    assert forall name: string :: [] + [name] == [name];
    var e1 := entries[["app"] := Dir];
    UnusedStill(entries, [], "app", "virtual");
    UnusedStill(entries, [], "app", "drivers");
    UnusedStill(entries, [], "app", "cache");
    UnusedStill(entries, [], "app", "passwd");
    var e2 := e1[["virtual"] := Dir];
    UnusedStill(e1, [], "virtual", "drivers");
    UnusedStill(e1, [], "virtual", "cache");
    UnusedStill(e1, [], "virtual", "passwd");
    var e3 := e2[["drivers"] := Dir];
    UnusedStill(e2, [], "drivers", "cache");
    UnusedStill(e2, [], "drivers", "passwd");
    UnusedStill(e3, [], "cache", "passwd");
  }

  lemma RootStaysDir(entries: map<Path, Entry>, name: string)
    requires [] in entries && entries[[]] == Dir
    ensures var e := entries[[name] := Dir]; [] in e && e[[]] == Dir && [] + [name] == [name]
  {}

  lemma UserEntriesRoot()
    ensures [] in UserEntries() && UserEntries()[[]] == Dir
    ensures UserEntries()[["app"] := Dir][["virtual"] := Dir][["drivers"] := Dir][["cache"] := Dir] == DirEntries()
  {}

  lemma OtherMade(s: State, lo: nat, hi: nat)
    requires lo + Heap.HEADER <= hi && Holding(s, UserEntries(), lo, hi) && |UserEntries()| == 6
    ensures Structure(s.fs) && Holding(Run(s, MkDirs(OtherDirs())), DirEntries(), lo, hi)
    ensures |DirEntries()| == 10
  {
    hide *;
    var e := UserEntries();
    NamesProper();
    TopPaths();
    OtherNamesUnused(e);
    UserEntriesRoot();
    HoldingShape(s, e, lo, hi);
    RootStaysDir(e, "app");
    MakeNew(s, e, [], "app", "/app", lo, hi);
    var s1, e1 := Step(s, MkDir("/app")).state, e[["app"] := Dir];
    RootStaysDir(e1, "virtual");
    MakeNew(s1, e1, [], "virtual", "/virtual", lo, hi);
    var s2, e2 := Step(s1, MkDir("/virtual")).state, e1[["virtual"] := Dir];
    RootStaysDir(e2, "drivers");
    MakeNew(s2, e2, [], "drivers", "/drivers", lo, hi);
    var s3, e3 := Step(s2, MkDir("/drivers")).state, e2[["drivers"] := Dir];
    RootStaysDir(e3, "cache");
    MakeNew(s3, e3, [], "cache", "/cache", lo, hi);
    OtherSteps(s);
  }

  lemma OtherSteps(s: State)
    requires Structure(s.fs)
    ensures var s3 := Step(Step(Step(s, MkDir("/app")).state, MkDir("/virtual")).state, MkDir("/drivers")).state;
      Run(s, MkDirs(OtherDirs())) == Step(s3, MkDir("/cache")).state
  {
    hide Step, Run, MkDirs;
    FourMkDirs(s, "/app", "/virtual", "/drivers", "/cache");
  }

  /** The directories made, the file of the list made empty. */
  ghost function FileMade(): map<Path, Entry> { DirEntries()[["system", "passwd"] := File("")] }

  lemma {:induction false} MkDirsJoin(a: seq<string>, b: seq<string>)
    ensures MkDirs(a + b) == MkDirs(a) + MkDirs(b)
  {
    if a == [] {
      assert a + b == b;
    } else {
      assert (a + b)[0] == a[0] && (a + b)[1..] == a[1..] + b;
      MkDirsJoin(a[1..], b);
    }
  }

  lemma InitRun(s: State)
    requires Structure(s.fs)
    ensures var s3 := Run(Run(Run(s, MkDirs(TopDirs())), MkDirs(UserDirs())), MkDirs(OtherDirs()));
      Run(s, InitOps()) ==
        Step(Step(s3, MkFile("/system/passwd")).state, Save("/system/passwd", "root:root\n")).state
  {
    hide Run, Step, MkDirs, TopDirs, UserDirs, OtherDirs;
    var a, b, c := MkDirs(TopDirs()), MkDirs(UserDirs()), MkDirs(OtherDirs());
    MkDirsJoin(TopDirs() + UserDirs(), OtherDirs());
    MkDirsJoin(TopDirs(), UserDirs());
    var last := [MkFile("/system/passwd"), Save("/system/passwd", "root:root\n")];
    RunJoin(s, a + b + c, last);
    RunJoin(s, a + b, c);
    RunJoin(s, a, b);
    RunTwo(Run(s, a + b + c), last[0], last[1]);
  }

  lemma SystemThere()
    ensures ["system"] in DirEntries() && DirEntries()[["system"]] == Dir
    ensures ["system"] + ["passwd"] == ["system", "passwd"]
    ensures Unused(DirEntries(), "passwd")
  {
    hide Unused;
    UserEntriesRoot();
    OtherNamesUnused(UserEntries());
  }

  lemma FileIsMade(s: State, lo: nat, hi: nat)
    requires lo + Heap.HEADER <= hi && Holding(s, map[[] := Dir], lo, hi)
    ensures var s3 := Run(Run(Run(s, MkDirs(TopDirs())), MkDirs(UserDirs())), MkDirs(OtherDirs()));
      Holding(Step(s3, MkFile("/system/passwd")).state, FileMade(), lo, hi)
  {
    hide *;
    TopMade(s, lo, hi);
    var s1 := Run(s, MkDirs(TopDirs()));
    UserMade(s1, lo, hi);
    var s2 := Run(s1, MkDirs(UserDirs()));
    OtherMade(s2, lo, hi);
    var s3 := Run(s2, MkDirs(OtherDirs()));
    HoldingShape(s3, DirEntries(), lo, hi);
    SystemThere();
    NamesProper();
    PasswdSpelled();
    MakeNew(s3, DirEntries(), ["system"], "passwd", "/system/passwd", lo, hi);
    FileMadeIs();
  }

  lemma FileMadeIs()
    ensures FileMade() == DirEntries()[["system", "passwd"] := File("")]
  {}

  lemma FreshHolds(lo: nat, hi: nat)
    requires 0 < lo && lo + Heap.HEADER <= hi && (hi - lo) % 4 == 0
    ensures Holding(Fresh(lo, hi), map[[] := Dir], lo, hi)
  {
    hide Abstract, Reachable;
    FreshReachable(lo, hi);
  }

  /** In a heap that nothing has been taken from, any request that fits is met from the start. */
  lemma FirstAllocation(lo: nat, hi: nat, request: nat)
    requires lo + Heap.HEADER + Word32.RoundUp(request) <= hi
    ensures var a := Heap.Alloc(Heap.Initial(lo, hi), request);
      a.ptr == lo + Heap.HEADER && a.blocks == Heap.Carve(Heap.Initial(lo, hi), 0, Word32.RoundUp(request))
  {
    assert Heap.FirstFit(Heap.Initial(lo, hi), Word32.RoundUp(request)) == 0;
  }

  lemma NoBuffersYet(s: State, lo: nat, hi: nat)
    requires lo + Heap.HEADER <= hi && Owned(s) && s.heap == Heap.Initial(lo, hi)
    ensures forall i :: 0 <= i < |s.fs.nodes| ==> s.fs.nodes[i].data == 0
  {}

  lemma NoRoomYet(lo: nat, hi: nat)
    requires lo + Heap.HEADER <= hi
    ensures var a := Heap.Alloc(Heap.Initial(lo, hi), 11);
      (a.ptr != 0 <==> lo + 12 + 12 <= hi) && (a.ptr == 0 ==> a.blocks == Heap.Initial(lo, hi))
  {}

  lemma SavePasswd(s: State, lo: nat, hi: nat)
    requires 0 < lo && lo + Heap.HEADER <= hi && Heap.Canonical(Heap.Initial(lo, hi), lo, hi)
    requires Holding(s, FileMade(), lo, hi)
    ensures var s' := Step(s, Save("/system/passwd", "root:root\n")).state;
      Reachable(s') && s'.heap == Heap.Alloc(s.heap, 11).blocks &&
      Abstract(s') == Tree(InitEntries(if lo + 12 + 12 <= hi then "root:root\n" else ""), [])
  {
    hide Resolve, Follow, Components, Abstract, Named, Table, Heap.Canonical, Heap.Alloc, FileMade, InitEntries;
    WriteRefines(s, "/system/passwd", "root:root\n", lo, hi);
    InitEntriesAre("root:root\n");
    InitHasPasswd("");
    PasswdLocated(s);
    NoRoomYet(lo, hi);
    NoBuffersYet(s, lo, hi);
    assert s.fs.nodes[Resolve(s.fs, "/system/passwd")].data == 0;
  }

  lemma InitHasPasswd(text: string)
    ensures var e := InitEntries(text); ["system", "passwd"] in e && e[["system", "passwd"]] == File(text)
  {}

  lemma {:induction false} RunJoin(s: State, a: seq<Op>, b: seq<Op>)
    requires Structure(s.fs)
    ensures Run(s, a + b) == Run(Run(s, a), b)
    decreases |a|
  {
    hide Step;
    if a == [] {
      assert a + b == b;
    } else {
      assert (a + b)[0] == a[0] && (a + b)[1..] == a[1..] + b;
      RunJoin(Step(s, a[0]).state, a[1..], b);
    }
  }

  lemma RunTwo(s: State, a: Op, b: Op)
    requires Structure(s.fs)
    ensures Run(s, [a, b]) == Step(Step(s, a).state, b).state
  {
    hide Step;
    assert [a, b][1..] == [b] && [b][1..] == [];
    var s' := Step(s, a).state;
    assert Run(s', [b]) == Run(Step(s', b).state, []);
  }

  /** `s` is what `vfs_init` leaves. */
  ghost predicate Initialized(s: State, lo: nat, hi: nat)
    requires lo + Heap.HEADER <= hi
  {
    s == Run(Fresh(lo, hi), InitOps())
  }

  /** The tree of `vfs_init`. */
  ghost function InitEntries(passwd: string): map<Path, Entry> {
    map[[] := Dir,
        ["system"] := Dir,
        ["user"] := Dir,
        ["user", "root"] := Dir,
        ["user", "root", "desktop"] := Dir,
        ["user", "root", "download"] := Dir,
        ["app"] := Dir,
        ["virtual"] := Dir,
        ["drivers"] := Dir,
        ["cache"] := Dir,
        ["system", "passwd"] := File(passwd)]
  }

  lemma InitEntriesAre(text: string)
    ensures FileMade() == InitEntries("") && FileMade()[["system", "passwd"] := File(text)] == InitEntries(text)
  {
    assert DirEntries()[["system", "passwd"] := File(text)] == InitEntries(text);
  }

  /** `vfs_init` leaves exactly these eleven entries, the cwd at the root and, in the heap, the one allocation
      for the 11 bytes it saves; the file is left empty exactly when the heap has no room for them. */
  lemma InitLeaves(s: State, lo: nat, hi: nat)
    requires 0 < lo && lo + Heap.HEADER <= hi && (hi - lo) % 4 == 0 && Initialized(s, lo, hi)
    ensures Reachable(s) && Heap.Canonical(s.heap, lo, hi)
    ensures Abstract(s) == Tree(InitEntries(if lo + 12 + 12 <= hi then "root:root\n" else ""), [])
    ensures s.heap == Heap.Alloc(Heap.Initial(lo, hi), 11).blocks
  {
    hide Run, Step, Reachable, Abstract, Heap.Canonical, Heap.Alloc, InitOps, FileMade, InitEntries, MkDirs;
    var start := Fresh(lo, hi);
    FreshReachable(lo, hi);
    FreshHolds(lo, hi);
    FileIsMade(start, lo, hi);
    InitRun(start);
    var s3 := Run(Run(Run(start, MkDirs(TopDirs())), MkDirs(UserDirs())), MkDirs(OtherDirs()));
    SavePasswd(Step(s3, MkFile("/system/passwd")).state, lo, hi);
    Heap.AllocEffect(Heap.Initial(lo, hi), 11, lo, hi);
  }

  /** Every step of every run from `vfs_init`'s empty table, its own operations included, is the map's. */
  lemma EveryRunRefines(lo: nat, hi: nat, ops: seq<Op>, k: nat)
    requires 0 < lo && lo + Heap.HEADER <= hi && (hi - lo) % 4 == 0 && k < |ops|
    requires forall op :: op in ops ==> WellFormedOp(op)
    ensures Refined(Run(Fresh(lo, hi), ops[..k]), ops[k], Run(Fresh(lo, hi), ops[..k + 1]))
  {
    FreshReachable(lo, hi);
    hide Refined, Fresh, Reachable, Heap.Canonical, WellFormedOp;
    RunRefines(Fresh(lo, hi), ops, k, lo, hi);
  }

  lemma {:induction false} MkDirsWellFormed(paths: seq<string>)
    requires forall p :: p in paths ==> IsInitDir(p)
    ensures forall op :: op in MkDirs(paths) ==> WellFormedOp(op)
  {
    hide LastPart;
    if paths != [] {
      assert forall p :: p in paths[1..] ==> p in paths;
      MkDirsWellFormed(paths[1..]);
      assert IsInitDir(paths[0]);
    }
  }

  /** The operations of `vfs_init` are among those. */
  lemma InitOpsWellFormed()
    ensures forall op :: op in InitOps() ==> WellFormedOp(op)
  {
    hide WellFormedOp, InitDirs, IsInitDir, MkDirs;
    InitDirsProper();
    MkDirsWellFormed(InitDirs());
    PasswdOpsWellFormed();
  }

  lemma PasswdOpsWellFormed()
    ensures WellFormedOp(MkFile("/system/passwd")) && WellFormedOp(Save("/system/passwd", "root:root\n"))
  {
    hide LastPart;
    NamesProper();
    NewName("/system", "passwd", "/system/passwd");
  }

  // ----- Names that are lost -----

  lemma BareName(name: string)
    requires '/' !in name
    ensures LastSlash(name) == -1 && LastPart(name) == name && !Absolute(name)
  {}

  /** `mkdir("..")`, or a 31-character name, in the empty table: created, and not found again. */
  lemma CreatedAndLost(s: State, name: string)
    requires s.fs == EMPTY_FS && '/' !in name && (name == ".." || |name| == MAX_NAME - 1)
    ensures Create(s, name, true).code == Ok
    ensures Resolve(Create(s, name, true).state.fs, name) != 1
  {
    BareName(name);
    EmptyTree(s);
    NoChild(Truncate(name));
    CreatedIsFoundExactly(s, name, true);
  }

  lemma NoChild(name: string)
    requires name != "/"
    ensures FindChild(EMPTY_FS.nodes, 0, name) == -1
  {}

  // ----- A path that does not fit -----

  /** A table that is one chain of directories of the same name. */
  function Chain(a: string, d: nat): seq<Node> {
    seq(d + 1, i requires i >= 0 => if i == 0 then Node("/", true, 0, 0, 0) else Node(a, true, i - 1, 0, 0))
  }

  function Dig(a: string, d: nat): seq<Op> { if d == 0 then [] else Dig(a, d - 1) + [MkDir(a), ChangeDir(a)] }

  lemma ChainShape(a: string, d: nat)
    requires d < MAX_FILES
    ensures Table(Chain(a, d)) && Structure(Fs(Chain(a, d), d))
  {
    forall i | 1 <= i < |Chain(a, d)| ensures UnderDirectory(Chain(a, d), i) {}
  }

  lemma {:induction false} ChainPath(a: string, d: nat, i: nat)
    requires i <= d < MAX_FILES && Table(Chain(a, d))
    ensures |FullPath(Chain(a, d), i)| == i * (|a| + 1)
  {
    if i > 0 { ChainPath(a, d, i - 1); }
  }

  lemma DigStep(s: State, a: string, d: nat)
    requires d + 1 < MAX_FILES && WellFormedName(a) && s.fs == Fs(Chain(a, d), d) && Structure(s.fs)
    ensures Step(s, MkDir(a)).state == s.(fs := Fs(Chain(a, d + 1), d))
    ensures Step(Step(s, MkDir(a)).state, ChangeDir(a)).state == s.(fs := Fs(Chain(a, d + 1), d + 1))
  {
    hide LastPart, LastSlash, Components;
    BareName(a);
    assert FindChild(Chain(a, d), d, a) < 0;
    assert Chain(a, d + 1) == Chain(a, d) + [Node(a, true, d, 0, 0)];
    NameComponents(a);
    WalkOne(Chain(a, d + 1), d, a);
    FindStable(Chain(a, d), Node(a, true, d, 0, 0), d, a);
  }

  lemma {:induction false} DigRuns(lo: nat, hi: nat, a: string, d: nat)
    requires lo + Heap.HEADER <= hi && d < MAX_FILES && WellFormedName(a)
    ensures Run(Fresh(lo, hi), Dig(a, d)) == Fresh(lo, hi).(fs := Fs(Chain(a, d), d))
  {
    hide Step;
    ChainShape(a, d);
    if d == 0 {
      assert Chain(a, 0) == EMPTY_FS.nodes;
    } else {
      DigRuns(lo, hi, a, d - 1);
      RunJoin(Fresh(lo, hi), Dig(a, d - 1), [MkDir(a), ChangeDir(a)]);
      RunTwo(Run(Fresh(lo, hi), Dig(a, d - 1)), MkDir(a), ChangeDir(a));
      DigStep(Run(Fresh(lo, hi), Dig(a, d - 1)), a, d - 1);
    }
  }

  /** Five nested directories with 30-character names: a state reached by ten operations in which a path of
      155 characters does not fit through `tmp`, whatever larger buffer it is asked for. */
  lemma PathOverrunsTmp(lo: nat, hi: nat, a: string, maxlen: nat, size: nat)
    requires lo + Heap.HEADER <= hi && WellFormedName(a) && |a| == MAX_NAME - 2 && 155 < maxlen <= size
    ensures var s := Run(Fresh(lo, hi), Dig(a, 5));
      5 < |s.fs.nodes| && Table(s.fs.nodes) && |FullPath(s.fs.nodes, 5)| == 155 && !PwdFits(s.fs.nodes, 5, maxlen, size)
  {
    hide Run, Dig, Step;
    DigRuns(lo, hi, a, 5);
    ChainShape(a, 5);
    ChainPath(a, 5, 5);
  }
}
