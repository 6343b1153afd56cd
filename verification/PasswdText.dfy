/** The user list kept as text in /system/passwd: one line `name:level` a user. */
module PasswdText {

  const NUL := '\0'
  const BUFFER := 256        // sizeof(buf)

  // ----- The text, as the editing loops see it -----

  /** Where the line that starts a text ends: a newline, a NUL or the end of the text. */
  function LineLength(s: string): (n: nat)
    ensures n <= |s| && (n < |s| ==> s[n] == '\n' || s[n] == NUL)
    ensures '\n' !in s[..n] && NUL !in s[..n]
  {
    if s == "" || s[0] == NUL || s[0] == '\n' then 0
    else
      var n := LineLength(s[1..]);
      assert s[..n + 1] == [s[0]] + s[1..][..n];
      n + 1
  }

  predicate AtEnd(s: string) { s == "" || s[0] == NUL }

  /** The text after the first line. */
  function NextLine(s: string): (r: string)
    requires !AtEnd(s)
    ensures |r| < |s|
  {
    var n := LineLength(s);
    if n < |s| && s[n] == '\n' then s[n + 1..] else s[n..]
  }

  /** The line starts with `name:`. */
  predicate IsLineOf(line: string, name: string) { |line| > |name| && line[|name|] == ':' && line[..|name|] == name }

  /** The text with each line of `name` replaced. */
  function Rewrite(s: string, name: string, with: string): string
    decreases |s|
  {
    if AtEnd(s) then ""
    else
      var line := s[..LineLength(s)];
      (if IsLineOf(line, name) then with else if line != "" then line + "\n" else "") + Rewrite(NextLine(s), name, with)
  }

  predicate Listed(s: string, name: string)
    decreases |s|
  {
    !AtEnd(s) && (IsLineOf(s[..LineLength(s)], name) || Listed(NextLine(s), name))
  }

  /** The text from the level of the first line of `name` on. */
  function LevelAt(s: string, name: string): string
    requires Listed(s, name)
    decreases |s|
  {
    if IsLineOf(s[..LineLength(s)], name) then s[|name| + 1..] else LevelAt(NextLine(s), name)
  }

  predicate SaysRoot(level: string) { "root" <= level }

  function LevelName(root: bool): string { if root then "root" else "user" }

  /** The text with a line added, unless the buffer could not hold it. */
  function Appended(s: string, name: string, level: string): string { s + name + ":" + level + "\n" }

  predicate RoomToAppend(s: string, name: string, level: string) { |s| + |name| + |level| + 3 <= BUFFER }

  // ----- The user list -----

  datatype User = User(name: string, root: bool)

  predicate ProperName(name: string) { ':' !in name && '\n' !in name && NUL !in name }

  ghost predicate Proper(us: seq<User>) { forall u :: u in us ==> ProperName(u.name) }

  function Line(u: User): string { u.name + ":" + LevelName(u.root) + "\n" }

  /** The file of a user list. */
  function Text(us: seq<User>): string { if us == [] then "" else Line(us[0]) + Text(us[1..]) }

  function Without(us: seq<User>, name: string): (r: seq<User>)
    ensures forall u :: u in r <==> u in us && u.name != name
  {
    if us == [] then [] else (if us[0].name == name then [] else [us[0]]) + Without(us[1..], name)
  }

  function WithLevel(us: seq<User>, name: string, root: bool): (r: seq<User>)
    ensures |r| == |us|
    ensures forall i :: 0 <= i < |us| ==> r[i] == if us[i].name == name then User(name, root) else us[i]
  {
    seq(|us|, i requires 0 <= i < |us| => if us[i].name == name then User(name, root) else us[i])
  }

  predicate Has(us: seq<User>, name: string) { exists i :: 0 <= i < |us| && us[i].name == name }

  /** The level of the first user of that name. */
  function LevelOf(us: seq<User>, name: string): bool
    requires Has(us, name)
    decreases |us|
  {
    if us[0].name == name then us[0].root else LevelOf(us[1..], name)
  }

  // ----- One line -----

  lemma {:induction false} FirstLine(line: string, rest: string)
    requires '\n' !in line && NUL !in line
    ensures LineLength(line + "\n" + rest) == |line|
  {
    if line == "" {
      assert (line + "\n" + rest)[0] == '\n';
    } else {
      assert (line + "\n" + rest)[1..] == line[1..] + "\n" + rest;
      assert line[0] in line;
      FirstLine(line[1..], rest);
    }
  }

  /** The lines of a file are its users' lines. */
  lemma ReadsLine(us: seq<User>)
    requires us != [] && Proper(us)
    ensures var s, line := Text(us), us[0].name + ":" + LevelName(us[0].root);
      !AtEnd(s) && s[..LineLength(s)] == line && Line(us[0]) == line + "\n" && NextLine(s) == Text(us[1..]) &&
      s == line + "\n" + Text(us[1..])
  {
    hide LineLength, LevelName;
    var line := us[0].name + ":" + LevelName(us[0].root);
    assert us[0] in us;
    LineClean(us[0]);
    FirstLine(line, Text(us[1..]));
    assert Text(us) == line + "\n" + Text(us[1..]);
    assert Text(us)[0] == line[0] && line[0] in line;
  }

  lemma LineClean(u: User)
    requires ProperName(u.name)
    ensures '\n' !in u.name + ":" + LevelName(u.root) && NUL !in u.name + ":" + LevelName(u.root)
  {}

  lemma OneColon(name: string, level: string)
    requires ':' !in name && ':' !in level
    ensures var line := name + ":" + level; forall i :: 0 <= i < |line| ==> (line[i] == ':' <==> i == |name|)
  {}

  /** A proper line belongs to exactly the user it names, whatever name is looked for. */
  lemma LineOfUser(u: User, name: string)
    requires ProperName(u.name)
    ensures IsLineOf(u.name + ":" + LevelName(u.root), name) <==> u.name == name
  {}

  /** A file is the file of one user list only. */
  lemma {:induction false} TextDetermines(us: seq<User>, vs: seq<User>)
    requires Proper(us) && Proper(vs) && Text(us) == Text(vs)
    ensures us == vs
  {
    if us != [] && vs != [] {
      ReadsLine(us);
      ReadsLine(vs);
      LineDetermines(us[0], vs[0]);
      ProperRest(us);
      ProperRest(vs);
      TextDetermines(us[1..], vs[1..]);
      assert us == [us[0]] + us[1..] && vs == [vs[0]] + vs[1..];
    } else if us != [] {
      ReadsLine(us);
    } else if vs != [] {
      ReadsLine(vs);
    }
  }

  lemma LineDetermines(u: User, v: User)
    requires ProperName(u.name) && ProperName(v.name)
    requires u.name + ":" + LevelName(u.root) == v.name + ":" + LevelName(v.root)
    ensures u == v
  {
    var line := u.name + ":" + LevelName(u.root);
    assert ':' !in LevelName(u.root) && ':' !in LevelName(v.root);
    OneColon(u.name, LevelName(u.root));
    OneColon(v.name, LevelName(v.root));
    assert line[|u.name|] == ':';
    assert line[..|u.name|] == u.name && line[..|v.name|] == v.name;
    assert line[|u.name| + 1..] == LevelName(u.root) && line[|v.name| + 1..] == LevelName(v.root);
  }

  // ----- Editing the text edits the list -----

  lemma ProperRest(us: seq<User>)
    requires us != [] && Proper(us)
    ensures Proper(us[1..])
  {}

  /** Deleting removes the user's lines and nothing else. */
  lemma {:induction false} DeleteEdits(us: seq<User>, name: string)
    requires Proper(us)
    ensures Rewrite(Text(us), name, "") == Text(Without(us, name))
    ensures Proper(Without(us, name)) && |Text(Without(us, name))| <= |Text(us)|
    decreases |us|
  {
    hide LineLength, NextLine, IsLineOf;
    if us != [] {
      ReadsLine(us);
      LineOfUser(us[0], name);
      ProperRest(us);
      DeleteEdits(us[1..], name);
      if us[0].name == name {
        assert Without(us, name) == Without(us[1..], name);
      } else {
        assert Without(us, name)[1..] == Without(us[1..], name);
      }
    }
  }

  /** Setting a level rewrites the user's lines in place and nothing else. */
  lemma {:induction false} PermissionEdits(us: seq<User>, name: string, root: bool)
    requires Proper(us)
    ensures Rewrite(Text(us), name, Line(User(name, root))) == Text(WithLevel(us, name, root))
    ensures Proper(WithLevel(us, name, root)) && |Text(WithLevel(us, name, root))| == |Text(us)|
    decreases |us|
  {
    hide LineLength, NextLine, IsLineOf;
    if us != [] {
      ReadsLine(us);
      LineOfUser(us[0], name);
      ProperRest(us);
      PermissionEdits(us[1..], name, root);
      assert WithLevel(us, name, root)[1..] == WithLevel(us[1..], name, root);
    }
  }

  lemma {:induction false} ListedMeansHas(us: seq<User>, name: string)
    requires Proper(us)
    ensures Listed(Text(us), name) <==> Has(us, name)
    decreases |us|
  {
    hide LineLength, NextLine, IsLineOf;
    if us != [] {
      ReadsLine(us);
      LineOfUser(us[0], name);
      ProperRest(us);
      ListedMeansHas(us[1..], name);
      HasSplits(us, name);
    }
  }

  lemma HasSplits(us: seq<User>, name: string)
    requires us != []
    ensures Has(us, name) <==> us[0].name == name || Has(us[1..], name)
  {}

  /** Logging in reads the level of the first user of the name. */
  lemma {:induction false} LevelRead(us: seq<User>, name: string)
    requires Proper(us) && Has(us, name)
    ensures Listed(Text(us), name) && (SaysRoot(LevelAt(Text(us), name)) <==> LevelOf(us, name))
    decreases |us|
  {
    hide LineLength, NextLine, IsLineOf;
    ListedMeansHas(us, name);
    ReadsLine(us);
    LineOfUser(us[0], name);
    if us[0].name == name {
      var s, level := Text(us), LevelName(us[0].root);
      assert s[|name| + 1..] == level + ("\n" + Text(us[1..]));
      assert (level + ("\n" + Text(us[1..])))[..4] == level;
    } else {
      HasSplits(us, name);
      ProperRest(us);
      LevelRead(us[1..], name);
    }
  }

  /** The file has one line more for one user more: the name, a colon and "root" or "user". */
  lemma TextGrows(us: seq<User>, u: User)
    ensures Text([]) == "" && Text(us + [u]) == Text(us) + u.name + (if u.root then ":root\n" else ":user\n")
  {
    hide Text;
    TextSnoc(us, u);
    NoText();
    assert Line(u) == u.name + (":" + LevelName(u.root) + "\n");
  }

  lemma NoText()
    ensures Text([]) == ""
  {}

  lemma {:induction false} TextSnoc(us: seq<User>, u: User)
    ensures Text(us + [u]) == Text(us) + Line(u)
    decreases |us|
  {
    hide Line;
    if us == [] {
      assert [u][1..] == [] && us + [u] == [u];
    } else {
      TextSnoc(us[1..], u);
      assert (us + [u])[1..] == us[1..] + [u];
    }
  }

  lemma AppendEdits(us: seq<User>, name: string, root: bool)
    requires Proper(us) && ProperName(name)
    ensures Appended(Text(us), name, LevelName(root)) == Text(us + [User(name, root)])
    ensures Proper(us + [User(name, root)])
  {
    hide Text, LevelName;
    TextSnoc(us, User(name, root));
  }

  // ----- What a user sees -----

  /** After a level has been set, logging in gets that level; other users keep theirs. */
  lemma {:induction false} LevelSet(us: seq<User>, name: string, root: bool, other: string)
    requires Has(us, other)
    ensures Has(WithLevel(us, name, root), other)
    ensures LevelOf(WithLevel(us, name, root), other) == if other == name then root else LevelOf(us, other)
    decreases |us|
  {
    var r := WithLevel(us, name, root);
    var i :| 0 <= i < |us| && us[i].name == other;
    assert r[i].name == other;
    if us[0].name != other {
      HasSplits(us, other);
      LevelSet(us[1..], name, root, other);
      assert r[1..] == WithLevel(us[1..], name, root);
    }
  }

  /** A deleted user cannot log in; other users keep their level. */
  lemma {:induction false} LevelAfterDelete(us: seq<User>, name: string, other: string)
    ensures Has(Without(us, name), other) <==> other != name && Has(us, other)
    ensures Has(Without(us, name), other) ==> LevelOf(Without(us, name), other) == LevelOf(us, other)
    decreases |us|
  {
    if us != [] {
      var r, rest := Without(us, name), Without(us[1..], name);
      LevelAfterDelete(us[1..], name, other);
      HasSplits(us, other);
      if us[0].name == name {
        assert r == rest;
      } else {
        assert r[1..] == rest;
        HasSplits(r, other);
      }
    }
  }

  /** A new user gets the level given, unless an earlier line has the name. */
  lemma {:induction false} LevelAfterAppend(us: seq<User>, name: string, root: bool, other: string)
    ensures Has(us + [User(name, root)], other) <==> other == name || Has(us, other)
    ensures Has(us + [User(name, root)], other) ==>
      LevelOf(us + [User(name, root)], other) == if Has(us, other) then LevelOf(us, other) else root
    decreases |us|
  {
    var u := User(name, root);
    if us == [] {
      assert us + [u] == [u] && [u][0].name == name;
    } else {
      assert (us + [u])[1..] == us[1..] + [u];
      HasSplits(us + [u], other);
      HasSplits(us, other);
      LevelAfterAppend(us[1..], name, root, other);
    }
  }
}
