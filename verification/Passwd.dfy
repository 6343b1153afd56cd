/** The `user` and `su` commands: the user list in /system/passwd over the RAM filesystem. */
module Passwd {
  import Heap
  import opened VfsModel
  import T = VfsTree
  import I = VfsInit
  import opened PasswdText

  const PASSWD := "/system/passwd"
  const NAME_KEPT := 30      // what k_strncpy leaves of a name in g_username

  /** The filesystem and who is logged in. */
  datatype Session = Session(disk: State, username: string, root: bool)

  datatype Change = Change(session: Session, code: Code)

  function Load(s: State): ReadResult
    requires Structure(s.fs)
  {
    Read(s, PASSWD, BUFFER - 1)
  }

  function Store(x: Session, text: string): (c: Change)
    requires Structure(x.disk.fs)
    ensures Structure(c.session.disk.fs)
  {
    var o := Write(x.disk, PASSWD, text);
    Change(x.(disk := o.state), o.code)
  }

  function Append(x: Session, name: string, level: string): (c: Change)
    requires Structure(x.disk.fs)
    ensures Structure(c.session.disk.fs)
  {
    var read := Load(x.disk);
    var text := if read.Bytes? then read.bytes else "";
    if RoomToAppend(text, name, level) then Store(x, Appended(text, name, level)) else Change(x, NoSpc)
  }

  /** What a failed write leaves behind is not looked at. */
  function Delete(x: Session, name: string): (c: Change)
    requires Structure(x.disk.fs)
    ensures Structure(c.session.disk.fs)
  {
    var read := Load(x.disk);
    if name == "root" then Change(x, Acces)
    else if read.ReadError? then Change(x, Io)
    else Store(x, Rewrite(read.bytes, name, "")).(code := Ok)
  }

  function SetPermission(x: Session, name: string, root: bool): (c: Change)
    requires Structure(x.disk.fs)
    ensures Structure(c.session.disk.fs)
  {
    var read := Load(x.disk);
    if read.ReadError? then Change(x, Io)
    else if !Listed(read.bytes, name) then Change(x, NoEnt)
    else Store(x, Rewrite(read.bytes, name, Line(User(name, root)))).(code := Ok)
  }

  function Switch(x: Session, name: string): (c: Change)
    requires Structure(x.disk.fs)
    ensures Structure(c.session.disk.fs)
  {
    var read := Load(x.disk);
    if read.ReadError? then Change(x, Io)
    else if !Listed(read.bytes, name) then Change(x, NoEnt)
    else Change(Session(x.disk, ShortName(name), SaysRoot(LevelAt(read.bytes, name))), Ok)
  }

  function ShortName(name: string): (r: string)
    ensures r <= name && |r| == if |name| < 30 then |name| else 30
  {
    if |name| <= NAME_KEPT then name else name[..NAME_KEPT]
  }

  datatype Request =
    | Add(name: string, root: bool)
    | Drop(name: string)
    | Grant(name: string, root: bool)
    | Login(name: string)

  function Serve(x: Session, req: Request): (c: Change)
    requires Structure(x.disk.fs)
    ensures Structure(c.session.disk.fs)
  {
    match req
    case Add(name, root) => Append(x, name, LevelName(root))
    case Drop(name) => Delete(x, name)
    case Grant(name, root) => SetPermission(x, name, root)
    case Login(name) => Switch(x, name)
  }

  // ----- The same on the user list -----

  predicate ProperRequest(req: Request) { req.Add? ==> ProperName(req.name) }

  /** The list a request asks for. */
  function Wanted(us: seq<User>, req: Request): seq<User> {
    match req
    case Add(name, root) => us + [User(name, root)]
    case Drop(name) => Without(us, name)
    case Grant(name, root) => WithLevel(us, name, root)
    case Login(_) => us
  }

  /** The code of a request. `room` says whether the heap can hold the new file: only `Add` reports that
      it cannot. */
  function Answer(us: seq<User>, req: Request, room: bool): Code {
    match req
    case Add(name, root) =>
      if |Text(us)| + |name| + |LevelName(root)| + 3 > 256 then NoSpc else if room then Ok else NoMem
    case Drop(name) => if name == "root" then Acces else Ok
    case Grant(name, _) => if Has(us, name) then Ok else NoEnt
    case Login(name) => if Has(us, name) then Ok else NoEnt
  }

  function Next(us: seq<User>, req: Request, room: bool): seq<User> {
    if Answer(us, req, room) == Ok && room then Wanted(us, req) else us
  }

  ghost predicate Room(s: State, us: seq<User>, req: Request) {
    T.HasRoom(s, Save(PASSWD, Text(Wanted(us, req))))
  }

  /** The file of the user list exists and holds exactly the list. */
  ghost predicate Keeps(x: Session, us: seq<User>) {
    Structure(x.disk.fs) && T.Reachable(x.disk) && Proper(us) && |Text(us)| < 256 &&
      Holds(T.Abstract(x.disk), Text(us))
  }

  ghost predicate Holds(t: T.Tree, text: string) {
    T.Locate(t, PASSWD).Found? && T.Locate(t, PASSWD).path in t.entries &&
    t.entries[T.Locate(t, PASSWD).path] == T.File(text)
  }

  /** The tree with only the user list's file changed. */
  ghost function Rewritten(t: T.Tree, text: string): T.Tree
    requires T.Locate(t, PASSWD).Found?
  {
    t.(entries := t.entries[T.Locate(t, PASSWD).path := T.File(text)])
  }

  ghost predicate LoggedIn(us: seq<User>, req: Request, x: Session, x': Session) {
    if req.Login? && Has(us, req.name) then
      x'.username == (if |req.name| <= 30 then req.name else req.name[..30]) && x'.root == LevelOf(us, req.name)
    else x'.username == x.username && x'.root == x.root
  }

  ghost predicate OnlyFileChanged(s: State, s': State, text: string) {
    Structure(s.fs) && Structure(s'.fs) && T.Locate(T.Abstract(s), PASSWD).Found? &&
    T.Abstract(s') == Rewritten(T.Abstract(s), text)
  }

  /** Serving a request does to the file what the request does to the list, answers accordingly, and
      touches no other file. */
  ghost predicate Served(x: Session, us: seq<User>, req: Request, c: Change, room: bool) {
    Keeps(c.session, Next(us, req, room)) && c.code == Answer(us, req, room) && LoggedIn(us, req, x, c.session) &&
    OnlyFileChanged(x.disk, c.session.disk, Text(Next(us, req, room)))
  }

  // ----- Reading and writing the file -----

  lemma LoadsText(x: Session, us: seq<User>)
    requires Keeps(x, us)
    ensures Load(x.disk) == Bytes(Text(us))
  {
    hide Resolve, T.Locate, T.Abstract, T.Entries, Owned, T.Named, Text, Proper;
    T.ResolveLocates(x.disk, PASSWD);
  }

  lemma RewrittenHolds(t: T.Tree, before: string, text: string)
    requires Holds(t, before)
    ensures Holds(Rewritten(t, text), text) && Rewritten(t, before) == t
  {
    hide T.Follow, Components;
    var p := T.Locate(t, PASSWD).path;
    assert t.entries[p := T.File(text)].Keys == t.entries.Keys;
    T.SameKeys(t.entries, t.entries[p := T.File(text)], if Absolute(PASSWD) then [] else t.cwd, Components(PASSWD));
    assert t.entries[p := T.File(before)] == t.entries;
  }

  lemma StoreExact(x: Session, us: seq<User>, vs: seq<User>, lo: nat, hi: nat)
    requires Keeps(x, us) && Proper(vs) && |Text(vs)| < BUFFER && Heap.Canonical(x.disk.heap, lo, hi) && 0 < lo
    ensures var c, room := Store(x, Text(vs)), T.HasRoom(x.disk, Save(PASSWD, Text(vs)));
      var us' := if room then vs else us;
      Keeps(c.session, us') && c.code == (if room then Ok else NoMem) &&
      OnlyFileChanged(x.disk, c.session.disk, Text(us'))
    ensures Heap.Canonical(Store(x, Text(vs)).session.disk.heap, lo, hi)
  {
    hide T.Abstract, T.Locate, Text, Proper, Heap.Canonical, T.HasRoom, Write, T.Reachable, Structure;
    T.StepRefines(x.disk, Save(PASSWD, Text(vs)), lo, hi);
    StoreIsStep(x, Text(vs));
    RewrittenHolds(T.Abstract(x.disk), Text(us), Text(vs));
    RewrittenHolds(T.Abstract(x.disk), Text(us), Text(us));
  }

  lemma StoreIsStep(x: Session, text: string)
    requires Structure(x.disk.fs)
    ensures Store(x, text).session.disk == Step(x.disk, Save(PASSWD, text)).state
  {
    hide Write;
  }

  lemma Unchanged(x: Session, us: seq<User>)
    requires Keeps(x, us)
    ensures OnlyFileChanged(x.disk, x.disk, Text(us))
  {
    hide T.Abstract, T.Locate, T.Reachable, Structure;
    RewrittenHolds(T.Abstract(x.disk), Text(us), Text(us));
  }

  // ----- Each request -----

  lemma AddServed(x: Session, us: seq<User>, name: string, root: bool, lo: nat, hi: nat)
    requires Keeps(x, us) && Heap.Canonical(x.disk.heap, lo, hi) && 0 < lo && ProperName(name)
    ensures var req := Add(name, root); var c := Serve(x, req);
      Served(x, us, req, c, Room(x.disk, us, req)) && Heap.Canonical(c.session.disk.heap, lo, hi)
  {
    hide T.Abstract, T.Locate, Text, Proper, Heap.Canonical, T.HasRoom, T.Reachable, Structure, Load, Write;
    hide OnlyFileChanged, Holds;
    LoadsText(x, us);
    AppendEdits(us, name, root);
    Unchanged(x, us);
    if RoomToAppend(Text(us), name, LevelName(root)) { StoreExact(x, us, us + [User(name, root)], lo, hi); }
  }

  lemma DropServed(x: Session, us: seq<User>, name: string, lo: nat, hi: nat)
    requires Keeps(x, us) && Heap.Canonical(x.disk.heap, lo, hi) && 0 < lo
    ensures var req := Drop(name); var c := Serve(x, req);
      Served(x, us, req, c, Room(x.disk, us, req)) && Heap.Canonical(c.session.disk.heap, lo, hi)
  {
    hide T.Abstract, T.Locate, Text, Proper, Heap.Canonical, T.HasRoom, T.Reachable, Structure, Load, Write;
    hide OnlyFileChanged, Holds, Rewrite, Without;
    LoadsText(x, us);
    DeleteEdits(us, name);
    Unchanged(x, us);
    if name != "root" { StoreExact(x, us, Without(us, name), lo, hi); }
  }

  lemma GrantServed(x: Session, us: seq<User>, name: string, root: bool, lo: nat, hi: nat)
    requires Keeps(x, us) && Heap.Canonical(x.disk.heap, lo, hi) && 0 < lo
    ensures var req := Grant(name, root); var c := Serve(x, req);
      Served(x, us, req, c, Room(x.disk, us, req)) && Heap.Canonical(c.session.disk.heap, lo, hi)
  {
    hide T.Abstract, T.Locate, Text, Proper, Heap.Canonical, T.HasRoom, T.Reachable, Structure, Load, Write;
    hide OnlyFileChanged, Holds, Rewrite, WithLevel, Has;
    LoadsText(x, us);
    PermissionEdits(us, name, root);
    ListedMeansHas(us, name);
    Unchanged(x, us);
    if Has(us, name) { StoreExact(x, us, WithLevel(us, name, root), lo, hi); }
  }

  lemma LoginServed(x: Session, us: seq<User>, name: string)
    requires Keeps(x, us)
    ensures var req := Login(name); Served(x, us, req, Serve(x, req), Room(x.disk, us, req))
    ensures Serve(x, Login(name)).session.disk == x.disk
  {
    hide T.Abstract, T.Locate, Text, Proper, T.HasRoom, T.Reachable, Structure, Load, OnlyFileChanged, Holds, Has;
    hide LevelAt, LevelOf;
    LoadsText(x, us);
    ListedMeansHas(us, name);
    Unchanged(x, us);
    if Has(us, name) { LevelRead(us, name); }
  }

  /** Every request is served as the list prescribes. */
  lemma ServeExact(x: Session, us: seq<User>, req: Request, lo: nat, hi: nat)
    requires Keeps(x, us) && Heap.Canonical(x.disk.heap, lo, hi) && 0 < lo && ProperRequest(req)
    ensures Served(x, us, req, Serve(x, req), Room(x.disk, us, req))
    ensures Heap.Canonical(Serve(x, req).session.disk.heap, lo, hi)
  {
    hide Served, Serve, Room, Keeps, Heap.Canonical, Structure;
    KeepsStructure(x, us);
    match req {
      case Add(name, root) => AddServed(x, us, name, root, lo, hi);
      case Drop(name) => DropServed(x, us, name, lo, hi);
      case Grant(name, root) => GrantServed(x, us, name, root, lo, hi);
      case Login(name) => LoginServed(x, us, name); SameDisk(x, name, lo, hi);
    }
  }

  lemma SameDisk(x: Session, name: string, lo: nat, hi: nat)
    requires Structure(x.disk.fs) && Heap.Canonical(x.disk.heap, lo, hi)
    ensures Heap.Canonical(Serve(x, Login(name)).session.disk.heap, lo, hi)
  {}

  lemma KeepsStructure(x: Session, us: seq<User>)
    requires Keeps(x, us)
    ensures Structure(x.disk.fs)
  {}

  /** With the file gone, appending fails with the code of the write, unless the line would not fit anyway, and
      the other requests with an I/O error, but for root's own protection; nothing changes. */
  lemma NoList(x: Session, name: string, root: bool)
    requires Structure(x.disk.fs) && Resolve(x.disk.fs, "/system/passwd") < 0
    ensures Serve(x, Add(name, root)) == Change(x, if |name| > 249 then NoSpc else NoEnt)
    ensures Serve(x, Drop(name)) == Change(x, if name == "root" then Acces else Io)
    ensures Serve(x, Grant(name, root)) == Serve(x, Login(name)) == Change(x, Io)
  {
    hide Resolve;
  }

  // ----- Every run -----

  function ServeAll(x: Session, reqs: seq<Request>): (y: Session)
    requires Structure(x.disk.fs)
    ensures Structure(y.disk.fs)
    decreases |reqs|
  {
    if reqs == [] then x else ServeAll(Serve(x, reqs[0]).session, reqs[1..])
  }

  /** The list after the same requests, each carried out when the heap then has room. */
  ghost function Book(x: Session, us: seq<User>, reqs: seq<Request>): seq<User>
    requires Structure(x.disk.fs)
    decreases |reqs|
  {
    if reqs == [] then us
    else Book(Serve(x, reqs[0]).session, Next(us, reqs[0], Room(x.disk, us, reqs[0])), reqs[1..])
  }

  lemma {:induction false} RunSnoc(x: Session, us: seq<User>, reqs: seq<Request>, req: Request)
    requires Structure(x.disk.fs)
    ensures var y, vs := ServeAll(x, reqs), Book(x, us, reqs);
      ServeAll(x, reqs + [req]) == Serve(y, req).session &&
        Book(x, us, reqs + [req]) == Next(vs, req, Room(y.disk, vs, req))
    decreases |reqs|
  {
    hide Serve, Next, Room, Structure;
    if reqs == [] {
      assert reqs + [req] == [req] && [req][1..] == [];
      var y := Serve(x, req).session;
      assert ServeAll(y, []) == y && forall vs :: Book(y, vs, []) == vs;
    } else {
      assert (reqs + [req])[0] == reqs[0] && (reqs + [req])[1..] == reqs[1..] + [req];
      RunSnoc(Serve(x, reqs[0]).session, Next(us, reqs[0], Room(x.disk, us, reqs[0])), reqs[1..], req);
    }
  }

  lemma {:induction false} RunKeeps(x: Session, us: seq<User>, reqs: seq<Request>, lo: nat, hi: nat)
    requires Keeps(x, us) && Heap.Canonical(x.disk.heap, lo, hi) && 0 < lo
    requires forall req :: req in reqs ==> ProperRequest(req)
    ensures Keeps(ServeAll(x, reqs), Book(x, us, reqs)) && Heap.Canonical(ServeAll(x, reqs).disk.heap, lo, hi)
    ensures Has(us, "root") ==> Has(Book(x, us, reqs), "root")
    decreases |reqs|
  {
    hide Heap.Canonical, Next, Serve, Has, Room, Answer, LoggedIn, OnlyFileChanged, Structure, ProperRequest;
    hide T.Reachable, Proper, Holds, Text;
    if reqs != [] {
      var room := Room(x.disk, us, reqs[0]);
      ServeExact(x, us, reqs[0], lo, hi);
      if Has(us, "root") { RootStays(us, reqs[0], room); }
      assert forall req :: req in reqs[1..] ==> req in reqs;
      RunKeeps(Serve(x, reqs[0]).session, Next(us, reqs[0], room), reqs[1..], lo, hi);
    }
  }

  /** Over every run each request is served as the list prescribes, given the room there is at that moment; the file
      stays the file of the list, and root stays listed. */
  lemma EveryRunKeeps(x: Session, us: seq<User>, reqs: seq<Request>, k: nat, lo: nat, hi: nat)
    requires Keeps(x, us) && Heap.Canonical(x.disk.heap, lo, hi) && 0 < lo && k < |reqs|
    requires forall req :: req in reqs ==> ProperRequest(req)
    ensures ServedAt(x, us, reqs, k)
    ensures Has(us, "root") ==> Has(Book(x, us, reqs[..k + 1]), "root")
  {
    hide Heap.Canonical, Next, Serve, Has, Room, Served, Structure, ProperRequest, ServeAll, Book, Keeps;
    KeepsStructure(x, us);
    assert forall req :: req in reqs[..k] ==> req in reqs;
    assert forall req :: req in reqs[..k + 1] ==> req in reqs;
    assert reqs[k] in reqs;
    RunKeeps(x, us, reqs[..k], lo, hi);
    RunKeeps(x, us, reqs[..k + 1], lo, hi);
    ServeExact(ServeAll(x, reqs[..k]), Book(x, us, reqs[..k]), reqs[k], lo, hi);
    assert reqs[..k + 1] == reqs[..k] + [reqs[k]];
    RunSnoc(x, us, reqs[..k], reqs[k]);
  }

  ghost predicate ServedAt(x: Session, us: seq<User>, reqs: seq<Request>, k: nat)
    requires Structure(x.disk.fs) && k < |reqs|
  {
    var y, vs := ServeAll(x, reqs[..k]), Book(x, us, reqs[..k]);
    Keeps(y, vs) && Served(y, vs, reqs[k], Serve(y, reqs[k]), Room(y.disk, vs, reqs[k])) &&
    ServeAll(x, reqs[..k + 1]) == Serve(y, reqs[k]).session &&
    Book(x, us, reqs[..k + 1]) == Next(vs, reqs[k], Room(y.disk, vs, reqs[k]))
  }

  /** No request takes root off the list. */
  lemma RootStays(us: seq<User>, req: Request, room: bool)
    requires Has(us, "root")
    ensures Has(Next(us, req, room), "root")
  {
    match req {
      case Add(name, root) => LevelAfterAppend(us, name, root, "root");
      case Drop(name) => LevelAfterDelete(us, name, "root");
      case Grant(name, root) => LevelSet(us, name, root, "root");
      case Login(_) =>
    }
  }

  // ----- From vfs_init -----

  /** `vfs_init` leaves the list of one user, root. */
  lemma InitKeeps(x: Session, lo: nat, hi: nat)
    requires 0 < lo && lo + Heap.HEADER + 12 <= hi && (hi - lo) % 4 == 0 && I.Initialized(x.disk, lo, hi)
    ensures Keeps(x, [User("root", true)]) && Heap.Canonical(x.disk.heap, lo, hi)
    ensures x.disk.heap == Heap.Alloc(Heap.Initial(lo, hi), 11).blocks
  {
    hide I.Initialized, I.InitEntries, T.Locate, T.Abstract, T.Reachable, Heap.Canonical, Heap.Alloc;
    I.InitLeaves(x.disk, lo, hi);
    I.InitHasPasswd("root:root\n");
    RootText();
    I.PasswdLocated(x.disk);
    ReachableStructure(x.disk);
  }

  lemma ReachableStructure(s: State)
    requires T.Reachable(s)
    ensures Structure(s.fs)
  {}

  lemma RootText()
    ensures Text([User("root", true)]) == "root:root\n" && Proper([User("root", true)])
  {
    var u := User("root", true);
    assert Text([u]) == Line(u) + Text([]);
  }

  lemma FullHeap(lo: nat, request: nat)
    requires lo > 0
    ensures Heap.Alloc(Heap.Alloc(Heap.Initial(lo, lo + Heap.HEADER + 12), 11).blocks, request).ptr == 0
  {
    var bs := Heap.Initial(lo, lo + Heap.HEADER + 12);
    I.FirstAllocation(lo, lo + Heap.HEADER + 12, 11);
    assert Heap.Carve(bs, 0, 12) == [bs[0].(free := false)];
  }

  /** After `vfs_init` in a heap that its one file fills, `user_set_perm` of root to user level answers E_OK and
      changes nothing. */
  lemma SilentFailure(x: Session, lo: nat)
    requires 0 < lo && I.Initialized(x.disk, lo, lo + Heap.HEADER + 12)
    ensures Structure(x.disk.fs) && Serve(x, Grant("root", false)).code == Ok
    ensures Keeps(Serve(x, Grant("root", false)).session, [User("root", true)])
  {
    hide I.Initialized, Heap.Canonical, Keeps, Serve, Served, Heap.Alloc, Text, Heap.Initial, Wanted, Structure;
    var us, req := [User("root", true)], Grant("root", false);
    InitKeeps(x, lo, lo + Heap.HEADER + 12);
    KeepsStructure(x, us);
    FullHeap(lo, |Text(Wanted(us, req))| + 1);
    ServeExact(x, us, req, lo, lo + Heap.HEADER + 12);
    GrantedWithoutRoom(x, us, "root", false, Serve(x, req));
  }

  lemma GrantedWithoutRoom(x: Session, us: seq<User>, name: string, root: bool, c: Change)
    requires us != [] && us[0].name == name && Served(x, us, Grant(name, root), c, false)
    ensures c.code == Ok && Keeps(c.session, us)
  {
    hide Keeps, LoggedIn, OnlyFileChanged;
  }
}
