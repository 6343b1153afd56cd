/** `ctx_switch`: thirteen callee-saved words stored below the stack pointer, thirteen loaded from
    another stack. */
module ContextSwitch {

  const FRAME := 52        // 13 words
  const SAVED := 12        // s0 .. s11

  /** What a task sees of the CPU across a call: ra, s0..s11 and sp. */
  datatype Context = Context(ra: nat, s: seq<nat>, sp: nat)

  /** RAM as words at word-aligned addresses. */
  type Memory = map<nat, nat>

  function Load(mem: Memory, a: nat): nat { if a in mem then mem[a] else 0 }

  /** The context that a frame at `a` restores: ra at a+48, s0 at a+44, down to s11 at a. */
  function FrameAt(mem: Memory, a: nat): Context {
    Context(Load(mem, a + 48), seq(SAVED, i requires 0 <= i < SAVED => Load(mem, a + 44 - 4 * i)), a + FRAME)
  }

  function SaveFrom(mem: Memory, a: nat, s: seq<nat>, i: nat): Memory
    requires i <= |s| == SAVED
    decreases |s| - i
  {
    if i == |s| then mem else SaveFrom(mem[a + 44 - 4 * i := s[i]], a, s, i + 1)
  }

  function Save(mem: Memory, a: nat, c: Context): Memory
    requires |c.s| == SAVED
  {
    SaveFrom(mem[a + 48 := c.ra], a, c.s, 0)
  }

  lemma {:induction false} SaveFromEffect(mem: Memory, a: nat, s: seq<nat>, i: nat)
    requires i <= |s| == SAVED
    ensures forall k :: i <= k < SAVED ==> Load(SaveFrom(mem, a, s, i), a + 44 - 4 * k) == s[k]
    ensures forall x: nat :: (forall k :: i <= k < SAVED ==> x != a + 44 - 4 * k) ==>
      Load(SaveFrom(mem, a, s, i), x) == Load(mem, x)
    decreases |s| - i
  {
    if i < |s| {
      var mem' := mem[a + 44 - 4 * i := s[i]];
      SaveFromEffect(mem', a, s, i + 1);
      assert Load(SaveFrom(mem', a, s, i + 1), a + 44 - 4 * i) == Load(mem', a + 44 - 4 * i);
      forall x: nat | forall k :: i <= k < SAVED ==> x != a + 44 - 4 * k
        ensures Load(SaveFrom(mem, a, s, i), x) == Load(mem, x)
      {
        assert x != a + 44 - 4 * i;
        assert Load(SaveFrom(mem', a, s, i + 1), x) == Load(mem', x);
      }
    }
  }

  /** Saving writes the 52 bytes of the frame and no others. */
  lemma SaveElsewhere(mem: Memory, a: nat, c: Context, x: nat)
    requires |c.s| == SAVED && (x < a || a + 52 <= x)
    ensures Load(Save(mem, a, c), x) == Load(mem, x)
  {
    SaveFromEffect(mem[a + 48 := c.ra], a, c.s, 0);
    assert forall k :: 0 <= k < SAVED ==> x != a + 44 - 4 * k;
  }

  ghost predicate InFrame(x: nat, a: nat) { a <= x < a + FRAME && (x - a) % 4 == 0 }

  lemma {:induction false} SaveFromKeys(mem: Memory, a: nat, s: seq<nat>, i: nat)
    requires i <= |s| == SAVED
    ensures var m := SaveFrom(mem, a, s, i);
      (forall x: nat :: x in m <==> x in mem || (InFrame(x, a) && x <= a + 44 - 4 * i)) &&
      (forall x: nat :: x in mem && !(InFrame(x, a) && x <= a + 44 - 4 * i) ==> m[x] == mem[x])
    decreases |s| - i
  {
    if i < |s| {
      SaveFromKeys(mem[a + 44 - 4 * i := s[i]], a, s, i + 1);
      forall x: nat | InFrame(x, a) ensures x <= a + 44 - 4 * i <==> x == a + 44 - 4 * i || x <= a + 44 - 4 * (i + 1) {
        var q := (x - a) / 4;
        assert x == a + 4 * q;
      }
      assert InFrame(a + 44 - 4 * i, a) by { assert (a + 44 - 4 * i) - a == 4 * (11 - i); }
    }
  }

  /** Saving zeros with `ra` is zeroing the frame and then storing `ra` in its last word. */
  lemma SaveZeros(mem: Memory, zeroed: Memory, a: nat, c: Context)
    requires c.s == seq(SAVED, _ => 0)
    requires forall x: nat :: x in zeroed <==> x in mem || InFrame(x, a)
    requires forall x: nat :: x in zeroed ==> zeroed[x] == if InFrame(x, a) then 0 else mem[x]
    ensures zeroed[a + 48 := c.ra] == Save(mem, a, c)
  {
    var m, r := Save(mem, a, c), zeroed[a + 48 := c.ra];
    SaveFromKeys(mem[a + 48 := c.ra], a, c.s, 0);
    SaveFromEffect(mem[a + 48 := c.ra], a, c.s, 0);
    assert forall k :: 0 <= k < SAVED ==> a + 48 != a + 44 - 4 * k;
    forall x: nat | x in r ensures x in m && m[x] == r[x] {
      if InFrame(x, a) && x != a + 48 {
        var k := (a + 44 - x) / 4;
        assert x == a + 44 - 4 * k;
        assert Load(m, a + 44 - 4 * k) == c.s[k] == 0;
      } else if x == a + 48 {
        assert Load(m, x) == Load(mem[a + 48 := c.ra], x);
      }
    }
  }

  /** Where the thirteen words lie: ra at the top, s11 at the bottom, both ways. */
  lemma FrameLayout(mem: Memory, a: nat, c: Context)
    requires |c.s| == 12
    ensures var m := Save(mem, a, c);
      Load(m, a + 48) == c.ra && forall k :: 0 <= k < 12 ==> Load(m, a + 44 - 4 * k) == c.s[k]
    ensures var f := FrameAt(mem, a);
      f.ra == Load(mem, a + 48) && f.sp == a + 52 && |f.s| == 12 &&
      forall k :: 0 <= k < 12 ==> f.s[k] == Load(mem, a + 44 - 4 * k)
  {
    SaveFromEffect(mem[a + 48 := c.ra], a, c.s, 0);
    assert forall k :: 0 <= k < SAVED ==> a + 48 != a + 44 - 4 * k;
  }

  /** What a frame saved restores is what was saved. */
  lemma SaveThenRestore(mem: Memory, c: Context)
    requires |c.s| == SAVED && c.sp >= FRAME
    ensures FrameAt(Save(mem, c.sp - FRAME, c), c.sp - FRAME) == c
  {
    var a := c.sp - FRAME;
    var mem0 := mem[a + 48 := c.ra];
    SaveFromEffect(mem0, a, c.s, 0);
    assert forall k :: 0 <= k < SAVED ==> a + 48 != a + 44 - 4 * k;
    assert FrameAt(Save(mem, a, c), a).s == c.s;
  }

  /** A frame depends only on its own 52 bytes. */
  lemma FrameUnchanged(mem: Memory, mem': Memory, a: nat)
    requires forall x: nat :: a <= x < a + FRAME ==> Load(mem', x) == Load(mem, x)
    ensures FrameAt(mem', a) == FrameAt(mem, a)
  {}

  lemma FrameElsewhere(mem: Memory, c: Context, a: nat)
    requires |c.s| == SAVED && c.sp >= FRAME && (a + FRAME <= c.sp - FRAME || c.sp <= a)
    ensures FrameAt(Save(mem, c.sp - FRAME, c), a) == FrameAt(mem, a)
  {
    forall x: nat | a <= x < a + FRAME ensures Load(Save(mem, c.sp - FRAME, c), x) == Load(mem, x) {
      SaveElsewhere(mem, c.sp - FRAME, c, x);
    }
    FrameUnchanged(mem, Save(mem, c.sp - FRAME, c), a);
  }

  /** A task that switches to itself passes its stack pointer as it stood before this switch. It goes on
      as it was exactly when that already is where its frame is about to be saved. */
  lemma SelfSwitchExactly(mem: Memory, c: Context, stale: nat)
    requires |c.s| == SAVED && c.sp >= FRAME
    ensures FrameAt(Save(mem, c.sp - FRAME, c), stale) == c <==> stale == c.sp - FRAME
  {
    SaveThenRestore(mem, c);
  }

  /** The registers and RAM that `ctx_switch` works on. */
  class Cpu {
    var ra: nat
    const s: array<nat>
    var sp: nat
    var mem: Memory

    constructor ()
      ensures s.Length == SAVED && fresh(s) && sp == 0 && mem == map[]
    {
      ra, sp, mem := 0, 0, map[];
      s := new nat[SAVED](_ => 0);
    }

    function Registers(): Context
      reads this, s
    {
      Context(ra, s[..], sp)
    }

    /** Returns what is stored through `save_sp`. */
    method Switch(loadSp: nat) returns (savedSp: nat)
      requires s.Length == SAVED && sp >= FRAME
      modifies this, s
      ensures savedSp == old(sp) - FRAME
      ensures mem == Save(old(mem), old(sp) - FRAME, old(Registers()))
      ensures Registers() == FrameAt(mem, loadSp)
    {
      ghost var c := Registers();
      sp := sp - FRAME;
      mem := mem[sp + 48 := ra];
      var i := 0;
      while i < SAVED
        invariant 0 <= i <= SAVED && s[..] == c.s && sp == c.sp - FRAME
        invariant SaveFrom(mem, sp, c.s, i) == Save(old(mem), sp, c)
      {
        mem := mem[sp + 44 - 4 * i := s[i]];
        i := i + 1;
      }
      savedSp := sp;
      sp := loadSp;
      ra := Load(mem, sp + 48);
      ghost var frame := FrameAt(mem, sp);
      i := 0;
      while i < SAVED
        invariant 0 <= i <= SAVED && sp == loadSp && ra == frame.ra
        invariant mem == Save(old(mem), c.sp - FRAME, c) && frame == FrameAt(mem, sp)
        invariant s[..i] == frame.s[..i]
      {
        s[i] := Load(mem, sp + 44 - 4 * i);
        i := i + 1;
      }
      assert s[..] == s[..i] == frame.s;
      sp := sp + FRAME;
    }
  }
}
