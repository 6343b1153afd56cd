/** The passwd functions as the kernel runs them: fixed buffers, a line cursor, and the session globals. */
module PasswdEditor {
  import opened KMemory
  import opened VfsModel
  import opened PasswdText
  import Passwd

  /** The end of the line that starts at `line`, in a text that a NUL ends at `len`. */
  method EndOfLine(buf: array<char>, line: nat, len: nat) returns (nl: nat)
    requires line <= len < buf.Length && buf[len] == NUL
    ensures line <= nl <= len && nl - line == LineLength(buf[line..len])
  {
    nl := line;
    while buf[nl] != NUL && buf[nl] != '\n'
      invariant line <= nl <= len
      invariant LineLength(buf[line..len]) == nl - line + LineLength(buf[nl..len])
      decreases len - nl
    {
      assert buf[nl..len][1..] == buf[nl + 1..len];
      nl := nl + 1;
    }
  }

  /** Whether the line is one of `name`, as the length test, the colon test and `k_strncmp` decide it. */
  method LineIsOf(buf: array<char>, line: nat, nl: nat, name: string) returns (b: bool)
    requires line <= nl <= buf.Length
    ensures b == IsLineOf(buf[line..nl], name)
  {
    if nl - line <= |name| || buf[line + |name|] != ':' { return false; }
    var i := 0;
    while i < |name|
      invariant i <= |name| && buf[line..nl][..i] == name[..i]
    {
      if buf[line + i] != name[i] {
        assert buf[line..nl][..|name|][i] == buf[line + i];
        return false;
      }
      i := i + 1;
    }
    return true;
  }

  /** Where the line after the one that ends at `nl` starts. */
  method StepLine(buf: array<char>, line: nat, nl: nat, len: nat) returns (next: nat)
    requires line <= nl <= len < buf.Length && buf[len] == NUL && !AtEnd(buf[line..len])
    requires nl - line == LineLength(buf[line..len])
    ensures line < next <= len && buf[next..len] == NextLine(buf[line..len])
  {
    hide LineLength;
    next := if buf[nl] != NUL then nl + 1 else nl;
    NextStarts(buf[line..len], nl - line);
    if nl < len {
      assert buf[line..len][nl - line] == buf[nl];
      assert buf[line..len][nl - line + 1..] == buf[nl + 1..len];
    }
    assert buf[line..len][nl - line..] == buf[nl..len];
  }

  lemma NextStarts(s: string, n: nat)
    requires !AtEnd(s) && n == LineLength(s)
    ensures NextLine(s) == if n < |s| && s[n] == '\n' then s[n + 1..] else s[n..]
    ensures n < |s| ==> s[n] == '\n' || s[n] == NUL
    ensures n == 0 ==> s[0] == '\n'
  {}

  /** The loop of `user_switch`: where the level of the first line of `name` starts. */
  method FindLevel(buf: array<char>, len: nat, name: string) returns (found: bool, perm: nat)
    requires len < buf.Length && buf[len] == NUL
    ensures found == Listed(buf[..len], name)
    ensures found ==> perm <= len && LevelAt(buf[..len], name) == buf[perm..len]
  {
    hide IsLineOf, LineLength, NextLine, Listed, LevelAt;
    var line := 0;
    assert buf[0..len] == buf[..len];
    while buf[line] != NUL
      invariant line <= len
      invariant Listed(buf[line..len], name) == Listed(buf[..len], name)
      invariant Listed(buf[..len], name) ==> LevelAt(buf[line..len], name) == LevelAt(buf[..len], name)
      decreases len - line
    {
      var nl := EndOfLine(buf, line, len);
      assert buf[line..len][..nl - line] == buf[line..nl];
      LevelTurns(buf[line..len], name);
      var mine := LineIsOf(buf, line, nl, name);
      if mine {
        LineHasLevel(buf[line..nl], name);
        assert buf[line..len][|name| + 1..] == buf[line + |name| + 1..len];
        return true, line + |name| + 1;
      }
      line := StepLine(buf, line, nl, len);
    }
    NothingLeft(buf[line..len], name, "");
    return false, 0;
  }

  /** What one turn of the loop writes. */
  function Turned(line: string, name: string, with: string): string {
    if IsLineOf(line, name) then with else if line != "" then line + "\n" else ""
  }

  lemma RewriteTurns(s: string, name: string, with: string)
    requires !AtEnd(s)
    ensures Rewrite(s, name, with) == Turned(s[..LineLength(s)], name, with) + Rewrite(NextLine(s), name, with)
    ensures Listed(s, name) == (IsLineOf(s[..LineLength(s)], name) || Listed(NextLine(s), name))
  {}

  /** Copies one line, or its replacement, to the end of the new text. */
  method PutLine(buf: array<char>, line: nat, nl: nat, name: string, with: string, newbuf: array<char>, npos: nat)
    returns (mine: bool, npos': nat)
    requires buf != newbuf && line <= nl <= buf.Length
    requires npos + |Turned(buf[line..nl], name, with)| <= newbuf.Length
    modifies newbuf
    ensures mine == IsLineOf(buf[line..nl], name)
    ensures npos' == npos + |Turned(buf[line..nl], name, with)|
    ensures newbuf[..npos'] == old(newbuf[..npos]) + Turned(buf[line..nl], name, with)
  {
    mine := LineIsOf(buf, line, nl, name);
    npos' := npos;
    if mine {
      Copy(newbuf, npos, with);
      npos' := npos + |with|;
    } else if nl > line {
      Copy(newbuf, npos, buf[line..nl]);
      newbuf[npos + (nl - line)] := '\n';
      npos' := npos + (nl - line) + 1;
    }
  }

  /** The loop that `user_del` and `user_set_perm` share. */
  method RewriteLines(buf: array<char>, len: nat, name: string, with: string, newbuf: array<char>)
    returns (npos: nat, found: bool)
    requires buf != newbuf && len < buf.Length && buf[len] == NUL
    requires |Rewrite(buf[..len], name, with)| < newbuf.Length
    modifies newbuf
    ensures npos < newbuf.Length && newbuf[..npos] == Rewrite(buf[..len], name, with)
    ensures found == Listed(buf[..len], name)
  {
    hide Rewrite, Listed, LineLength, NextLine, IsLineOf, Turned;
    var line := 0;
    npos, found := 0, false;
    assert buf[0..len] == buf[..len];
    ghost var whole := Rewrite(buf[..len], name, with);
    while buf[line] != NUL
      invariant line <= len && npos <= newbuf.Length
      invariant newbuf[..npos] + Rewrite(buf[line..len], name, with) == whole
      invariant (found || Listed(buf[line..len], name)) == Listed(buf[..len], name)
      decreases len - line
    {
      var nl := EndOfLine(buf, line, len);
      assert buf[line..len][..nl - line] == buf[line..nl];
      RewriteTurns(buf[line..len], name, with);
      var mine;
      mine, npos := PutLine(buf, line, nl, name, with, newbuf, npos);
      found := found || mine;
      line := StepLine(buf, line, nl, len);
    }
    NothingLeft(buf[line..len], name, with);
  }

  lemma NothingLeft(s: string, name: string, with: string)
    requires AtEnd(s)
    ensures Rewrite(s, name, with) == "" && !Listed(s, name)
  {}

  lemma LoadBound(s: State)
    requires Structure(s.fs)
    ensures Passwd.Load(s).Bytes? ==> |Passwd.Load(s).bytes| < BUFFER
  {}

  class Accounts {
    var disk: State
    var username: string
    var root: bool

    constructor (disk: State, username: string, root: bool)
      ensures Session() == Passwd.Session(disk, username, root)
    {
      this.disk := disk;
      this.username := username;
      this.root := root;
    }

    function Session(): Passwd.Session
      reads this
    {
      Passwd.Session(disk, username, root)
    }

    /** Reads the file into a buffer and ends it with a NUL. */
    method Fetch(buf: array<char>) returns (len: int)
      requires Structure(disk.fs) && buf.Length == BUFFER
      modifies buf
      ensures var read := Passwd.Load(disk);
        if read.ReadError? then len < 0
        else 0 <= len == |read.bytes| < BUFFER && buf[..len] == read.bytes && buf[len] == NUL
    {
      hide Read, Structure;
      LoadBound(disk);
      var read := Read(disk, Passwd.PASSWD, BUFFER - 1);
      if read.ReadError? { return -1; }
      Copy(buf, 0, read.bytes);
      len := |read.bytes|;
      buf[len] := NUL;
    }

    method Put(text: string) returns (code: Code)
      requires Structure(disk.fs)
      modifies this`disk
      ensures Passwd.Change(Session(), code) == Passwd.Store(old(Session()), text)
    {
      var o := Write(disk, Passwd.PASSWD, text);
      disk, code := o.state, o.code;
    }

    method Append(name: string, level: string) returns (code: Code)
      requires Structure(disk.fs)
      modifies this`disk
      ensures Passwd.Change(Session(), code) == Passwd.Append(old(Session()), name, level)
    {
      var buf := new char[BUFFER];
      var len := Fetch(buf);
      if len < 0 { len := 0; }
      ghost var text := buf[..len];
      if len + |name| + |level| + 3 > BUFFER { return NoSpc; }
      var end := AppendLine(buf, len, name, level);
      code := Put(buf[..end]);
    }

    static method AppendLine(buf: array<char>, len: nat, name: string, level: string) returns (end: nat)
      requires len + |name| + |level| + 3 <= buf.Length
      modifies buf
      ensures end <= buf.Length && buf[..end] == Appended(old(buf[..len]), name, level)
    {
      Copy(buf, len, name);
      buf[len + |name|] := ':';
      Copy(buf, len + |name| + 1, level);
      end := len + |name| + |level| + 2;
      buf[end - 1] := '\n';
    }

    /** `newbuf` must hold the new text; for the file of a user list it does. */
    method Delete(name: string) returns (code: Code)
      requires Structure(disk.fs)
      requires var read := Passwd.Load(disk); read.Bytes? ==> |Rewrite(read.bytes, name, "")| < BUFFER
      modifies this`disk
      ensures Passwd.Change(Session(), code) == Passwd.Delete(old(Session()), name)
    {
      if name == "root" { return Acces; }
      var buf := new char[BUFFER];
      var len := Fetch(buf);
      if len < 0 { return Io; }
      var newbuf := new char[BUFFER];
      var npos, found := RewriteLines(buf, len, name, "", newbuf);
      var ignored := Put(newbuf[..npos]);
      return Ok;
    }

    method SetPermission(name: string, toRoot: bool) returns (code: Code)
      requires Structure(disk.fs)
      requires var read := Passwd.Load(disk);
        read.Bytes? ==> |Rewrite(read.bytes, name, Line(User(name, toRoot)))| < BUFFER
      modifies this`disk
      ensures Passwd.Change(Session(), code) == Passwd.SetPermission(old(Session()), name, toRoot)
    {
      var level := if toRoot then "root" else "user";
      var buf := new char[BUFFER];
      var len := Fetch(buf);
      if len < 0 { return Io; }
      var newbuf := new char[BUFFER];
      var npos, found := RewriteLines(buf, len, name, name + ":" + level + "\n", newbuf);
      if !found { return NoEnt; }
      var ignored := Put(newbuf[..npos]);
      return Ok;
    }

    method Switch(name: string) returns (code: Code)
      requires Structure(disk.fs)
      modifies this`username, this`root
      ensures Passwd.Change(Session(), code) == Passwd.Switch(old(Session()), name)
    {
      hide Listed, LevelAt, SaysRoot, Passwd.ShortName, Read, Structure;
      var buf := new char[BUFFER];
      var len := Fetch(buf);
      if len < 0 { return Io; }
      var found, perm := FindLevel(buf, len, name);
      if !found { return NoEnt; }
      username := Passwd.ShortName(name);
      root := PermissionIsRoot(buf, perm, len);
      return Ok;
    }

    /** `k_strncmp` with "root" at the level's place. */
    static method PermissionIsRoot(buf: array<char>, perm: nat, len: nat) returns (b: bool)
      requires perm <= len < buf.Length
      ensures b == SaysRoot(buf[perm..len])
    {
      b := perm + 4 <= len && buf[perm..perm + 4] == "root";
      if perm + 4 <= len { assert buf[perm..len][..4] == buf[perm..perm + 4]; }
    }
  }

  lemma LevelTurns(s: string, name: string)
    requires !AtEnd(s)
    ensures Listed(s, name) == (IsLineOf(s[..LineLength(s)], name) || Listed(NextLine(s), name))
    ensures IsLineOf(s[..LineLength(s)], name) ==> |name| + 1 <= |s| && LevelAt(s, name) == s[|name| + 1..]
    ensures !IsLineOf(s[..LineLength(s)], name) && Listed(s, name) ==> LevelAt(s, name) == LevelAt(NextLine(s), name)
  {}

  lemma LineHasLevel(line: string, name: string)
    requires IsLineOf(line, name)
    ensures |name| + 1 <= |line|
  {}

  /** The buffers are large enough for every edit of a user list's file. */
  lemma EditsFit(x: Passwd.Session, us: seq<User>, name: string, root: bool)
    requires Passwd.Keeps(x, us)
    ensures Passwd.Load(x.disk) == Bytes(Text(us))
    ensures |Rewrite(Text(us), name, "")| < BUFFER && |Rewrite(Text(us), name, Line(User(name, root)))| < BUFFER
  {
    Passwd.LoadsText(x, us);
    DeleteEdits(us, name);
    PermissionEdits(us, name, root);
  }
}
