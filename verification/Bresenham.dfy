/** `draw_line`: Bresenham's algorithm in 16-bit arithmetic, drawn into a clipped frame buffer. */
module Bresenham {

  const REACH := 10923      // largest coordinate difference for which no line has an intermediate of over 16 bits

  datatype Point = Point(x: int, y: int)

  /** Truncation to `int16_t`. */
  function I16(v: int): (r: int)
    ensures -0x8000 <= v < 0x8000 ==> r == v
  {
    (v + 0x8000) % 0x1_0000 - 0x8000
  }

  function U16(v: int): nat { v % 0x1_0000 }

  predicate IsI16(v: int) { -0x8000 <= v < 0x8000 }

  function Abs(v: int): nat { if v < 0 then -v else v }

  function Max(a: int, b: int): int { if a < b then b else a }

  function Sign(a: int, b: int): int { if a < b then 1 else -1 }

  // ----- The line as geometry -----

  /** Steps along the minor axis after `k` of `major` steps: k * minor / major rounded to the nearest
      integer, halves downwards. */
  function Minor(k: nat, minor: nat, major: nat): int {
    if major == 0 then 0 else (2 * (k * minor) + major - 1) / (2 * major)
  }

  /** The `k`-th point from `a` towards `b`. */
  function LinePoint(a: Point, b: Point, k: nat): Point {
    var dx, dy := Abs(b.x - a.x), Abs(b.y - a.y);
    var sx, sy := Sign(a.x, b.x), Sign(a.y, b.y);
    if dx >= dy then Point(a.x + sx * k, a.y + sy * Minor(k, dy, dx))
    else Point(a.x + sx * Minor(k, dx, dy), a.y + sy * k)
  }

  function Length(a: Point, b: Point): nat { Max(Abs(b.x - a.x), Abs(b.y - a.y)) }

  function Line(a: Point, b: Point): seq<Point> { seq(Length(a, b) + 1, k requires k >= 0 => LinePoint(a, b, k)) }

  /** Twice `major` times the error of taking `m` steps along the minor axis. */
  function Error(k: nat, minor: nat, major: nat, m: int): int { 2 * (major * m) - 2 * (k * minor) }

  predicate Nearest(k: nat, minor: nat, major: nat, m: int) {
    -(major as int) <= Error(k, minor, major, m) < major
  }

  lemma MinorNearest(k: nat, minor: nat, major: nat)
    requires major > 0
    ensures Nearest(k, minor, major, Minor(k, minor, major))
  {}

  lemma {:induction false} Increasing(major: int, m: int, q: int)
    requires major > 0 && m > q
    ensures major * m >= major * q + major
    decreases m - q
  {
    assert major * m == major * (m - 1) + major;
    if m - 1 > q { Increasing(major, m - 1, q); }
  }

  /** No other integer is as near: of two equally near ones the lower is taken. */
  lemma MinorUnique(k: nat, minor: nat, major: nat, m: int)
    requires major > 0 && Nearest(k, minor, major, m)
    ensures m == Minor(k, minor, major)
  {
    hide Minor;
    MinorNearest(k, minor, major);
    var q := Minor(k, minor, major);
    if m > q { Increasing(major, m, q); }
    if m < q { Increasing(major, q, m); }
  }

  /** The line starts at `a` and ends at `b`. */
  lemma Ends(a: Point, b: Point)
    ensures LinePoint(a, b, 0) == a && LinePoint(a, b, Length(a, b)) == b
  {
    var dx, dy := Abs(b.x - a.x), Abs(b.y - a.y);
    if dx >= dy && dx > 0 {
      MinorUnique(0, dy, dx, 0);
      MinorUnique(dx, dy, dx, dy);
    } else if dy > dx {
      MinorUnique(0, dx, dy, 0);
      MinorUnique(dy, dx, dy, dx);
    }
  }

  /** Distance, along the minor axis and times 2 * major, from the ideal line: at `k` major steps and `m`
      minor ones, with differences `d` and `e`. */
  function Deviation(m: int, k: int, d: int, e: int): nat { Abs(m * d - k * e) }

  /** Each point is within half a pixel, along the minor axis, of the ideal line through `a` and `b`. */
  lemma WithinHalfPixel(a: Point, b: Point, k: nat)
    requires k <= Length(a, b)
    ensures var p, dx, dy := LinePoint(a, b, k), b.x - a.x, b.y - a.y;
      if Abs(dx) >= Abs(dy) then 2 * Deviation(p.y - a.y, p.x - a.x, dx, dy) <= Abs(dx)
      else 2 * Deviation(p.x - a.x, p.y - a.y, dy, dx) <= Abs(dy)
  {
    hide Deviation, Minor;
    var dx, dy := b.x - a.x, b.y - a.y;
    var ax, ay := Abs(dx), Abs(dy);
    if ax >= ay && ax > 0 {
      HalfPixel(k, ax, ay, Sign(a.x, b.x), Sign(a.y, b.y), dx, dy);
    } else if ay > ax {
      HalfPixel(k, ay, ax, Sign(a.y, b.y), Sign(a.x, b.x), dy, dx);
    } else {
      NoDeviation(LinePoint(a, b, k).y - a.y, LinePoint(a, b, k).x - a.x);
    }
  }

  lemma NoDeviation(m: int, k: int)
    ensures Deviation(m, k, 0, 0) == 0
  {}

  lemma HalfPixel(k: nat, major: nat, minor: nat, s: int, t: int, d: int, e: int)
    requires major > 0 && (s == 1 || s == -1) && (t == 1 || t == -1) && d == s * major && e == t * minor
    ensures 2 * Deviation(t * Minor(k, minor, major), s * k, d, e) <= major
  {
    hide Minor;
    MinorNearest(k, minor, major);
    Oriented(s, t, k, Minor(k, minor, major), major, minor, d, e);
  }

  /** Signs do not change the distance. */
  lemma Oriented(s: int, t: int, k: nat, m: int, major: nat, minor: nat, d: int, e: int)
    requires s == 1 || s == -1
    requires t == 1 || t == -1
    requires d == s * major && (e == t * minor)
    ensures Deviation(t * m, s * k, d, e) == Abs(major * m - k * minor)
  {}

  // ----- The loop -----

  datatype Screen = Screen(width: nat, height: nat)

  /** `pset`: coordinates are taken as unsigned and clipped. */
  predicate Visible(s: Screen, p: Point) { U16(p.x) < s.width && U16(p.y) < s.height }

  function Offset(s: Screen, p: Point): nat { U16(p.y) * s.width + U16(p.x) }

  /** The buffer after plotting some points. */
  function Plot(back: seq<nat>, s: Screen, ps: seq<Point>, color: nat): seq<nat>
    requires |back| == s.width * s.height
    ensures |Plot(back, s, ps, color)| == |back|
  {
    if ps == [] then back
    else
      var done := Plot(back, s, ps[..|ps| - 1], color);
      var p := ps[|ps| - 1];
      if Visible(s, p) then
        OffsetInside(s, p);
        done[Offset(s, p) := color]
      else done
  }

  lemma OffsetInside(s: Screen, p: Point)
    requires Visible(s, p)
    ensures Offset(s, p) < s.width * s.height
  {
    var y := U16(p.y);
    RowBelow(s.width, y, s.height);
  }

  lemma {:induction false} RowBelow(width: nat, y: nat, height: nat)
    requires y < height
    ensures y * width + width <= height * width
    decreases height
  {
    if y < height - 1 { RowBelow(width, y, height - 1); }
    assert height * width == (height - 1) * width + width;
  }

  /** A pixel keeps its color unless a plotted point falls on it. */
  lemma {:induction false} PlotElsewhere(back: seq<nat>, s: Screen, ps: seq<Point>, color: nat, i: nat)
    requires |back| == s.width * s.height && i < |back|
    requires forall p :: p in ps && Visible(s, p) ==> Offset(s, p) != i
    ensures Plot(back, s, ps, color)[i] == back[i]
  {
    if ps != [] {
      var rest := ps[..|ps| - 1];
      assert forall p :: p in rest ==> p in ps;
      PlotElsewhere(back, s, rest, color, i);
      assert ps[|ps| - 1] in ps;
    }
  }

  /** And has the line's color where one does. */
  lemma {:induction false} PlotThere(back: seq<nat>, s: Screen, ps: seq<Point>, color: nat, p: Point)
    requires |back| == s.width * s.height && p in ps && Visible(s, p)
    ensures Offset(s, p) < |back| && Plot(back, s, ps, color)[Offset(s, p)] == color
  {
    OffsetInside(s, p);
    var rest := ps[..|ps| - 1];
    if p != ps[|ps| - 1] {
      assert p in rest by { assert ps == rest + [ps[|ps| - 1]]; }
      PlotThere(back, s, rest, color, p);
    }
  }

  lemma OnScreenVisible(s: Screen, p: Point)
    requires s.width <= 0x8000 && s.height <= 0x8000 && IsI16(p.x) && IsI16(p.y)
    ensures Visible(s, p) <==> 0 <= p.x < s.width && 0 <= p.y < s.height
    ensures Visible(s, p) ==> Offset(s, p) == p.y * s.width + p.x
  {}

  lemma RowsApart(width: nat, x: nat, y: nat, u: nat, v: nat)
    requires x < width && u < width && y * width + x == v * width + u
    ensures x == u && y == v
  {
    if y < v { RowBelow(width, y, v); }
    if v < y { RowBelow(width, v, y); }
  }

  /** The pixel of column x and row y, the x-th of the y-th row of the buffer, has the color afterwards exactly
      when (x, y) was plotted, and keeps the one it had otherwise; coordinates off the screen, negative ones
      included, reach no pixel. */
  lemma PixelExactly(back: seq<nat>, s: Screen, ps: seq<Point>, color: nat, x: nat, y: nat)
    requires |back| == s.width * s.height && s.width <= 0x8000 && s.height <= 0x8000 && x < s.width && y < s.height
    requires forall p :: p in ps ==> IsI16(p.x) && IsI16(p.y)
    ensures y * s.width + x < |back|
    ensures Plot(back, s, ps, color)[y * s.width + x] == if Point(x, y) in ps then color else back[y * s.width + x]
  {
    hide Plot;
    RowBelow(s.width, y, s.height);
    OnScreenVisible(s, Point(x, y));
    if Point(x, y) in ps {
      PlotThere(back, s, ps, color, Point(x, y));
    } else {
      forall p | p in ps && Visible(s, p) ensures Offset(s, p) != y * s.width + x {
        OnScreenVisible(s, p);
        if p.y * s.width + p.x == y * s.width + x { RowsApart(s.width, p.x, p.y, x, y); }
      }
      PlotElsewhere(back, s, ps, color, y * s.width + x);
    }
  }

  /** Where the decision variable stands after `k` points: `m` minor steps taken, major axis first. */
  ghost predicate Tracks(k: nat, m: int, major: nat, minor: nat, err2: int) {
    Nearest(k, minor, major, m) && err2 == Error(k, minor, major, m) + 2 * major - 2 * minor
  }

  /** One turn of the loop always steps along the major axis, and along the minor one exactly when that
      is nearer; nothing leaves 16 bits. `err2` is twice the decision variable, major axis counted
      positive. */
  lemma Turn(k: nat, m: int, major: nat, minor: nat, err2: int)
    requires minor <= major && k < major && Tracks(k, m, major, minor, err2)
    ensures 0 < err2 + minor
    ensures if err2 < major then Tracks(k + 1, m + 1, major, minor, err2 - 2 * minor + 2 * major)
            else Tracks(k + 1, m, major, minor, err2 - 2 * minor)
  {
    assert (k + 1) * minor == k * minor + minor;
    assert major * (m + 1) == major * m + major;
    if minor == major { SameAxes(k, m, major); }
  }

  lemma SameAxes(k: nat, m: int, major: nat)
    requires major > 0 && Nearest(k, major, major, m)
    ensures m == k
  {
    assert Error(k, major, major, m) == 2 * (major * (m - k));
    EqualAxes(major, m - k);
  }

  /** How far the decision variable gets. */
  lemma TurnBound(k: nat, m: int, major: nat, minor: nat, err2: int)
    requires 0 < major && minor <= major && Tracks(k, m, major, minor, err2)
    ensures err2 < 3 * major - 2 * minor && (minor == 0 ==> err2 == 2 * major)
  {
    if minor == 0 {
      assert k * minor == 0;
      EqualAxes(major, m);
    }
  }

  lemma EqualAxes(major: int, n: int)
    requires major > 0 && -major <= 2 * (major * n) < major
    ensures n == 0
  {}

  /** The loop's variables after `k` turns, on the way from `a` to `b`. */
  ghost predicate At(a: Point, b: Point, k: nat, m: int, p: Point, err: int) {
    var dx, dy := Abs(b.x - a.x), Abs(b.y - a.y);
    var sx, sy := Sign(a.x, b.x), Sign(a.y, b.y);
    if dx >= dy then
      k <= dx && p == Point(a.x + sx * k, a.y + sy * m) &&
      if dx > 0 then Tracks(k, m, dx, dy, 2 * err) else m == 0
    else
      k <= dy && p == Point(a.x + sx * m, a.y + sy * k) && Tracks(k, m, dy, dx, -2 * err)
  }

  lemma AtIsLinePoint(a: Point, b: Point, k: nat, m: int, p: Point, err: int)
    requires At(a, b, k, m, p, err)
    ensures k == Length(a, b) ==> p == b
    ensures k < Length(a, b) ==> p != b
    ensures Length(a, b) > 0 ==> p == LinePoint(a, b, k)
    ensures Length(a, b) == 0 ==> k == 0 && p == a == b == LinePoint(a, b, 0)
  {
    hide Minor;
    var dx, dy := Abs(b.x - a.x), Abs(b.y - a.y);
    if dx >= dy && dx > 0 {
      MinorUnique(k, dy, dx, m);
      Ends(a, b);
    } else if dy > dx {
      MinorUnique(k, dx, dy, m);
      Ends(a, b);
    } else {
      Ends(a, b);
    }
  }

  predicate InReach(a: Point, b: Point) {
    IsI16(a.x) && IsI16(a.y) && IsI16(b.x) && IsI16(b.y) &&
    Abs(b.x - a.x) <= REACH && Abs(b.y - a.y) <= REACH
  }

  /** What one turn does, in exact arithmetic. */
  function Next(a: Point, b: Point, p: Point, err: int): (Point, int) {
    var dx, dy := Abs(b.x - a.x), Abs(b.y - a.y);
    var right, down := 2 * err > -(dy as int), 2 * err < dx;
    (Point(if right then p.x + Sign(a.x, b.x) else p.x, if down then p.y + Sign(a.y, b.y) else p.y),
     err - (if right then dy else 0) + (if down then dx else 0))
  }

  lemma AdvanceAcross(a: Point, b: Point, k: nat, m: int, p: Point, err: int) returns (m': int)
    requires At(a, b, k, m, p, err) && Abs(b.x - a.x) >= Abs(b.y - a.y) && k < Abs(b.x - a.x)
    ensures At(a, b, k + 1, m', Next(a, b, p, err).0, Next(a, b, p, err).1)
  {
    hide Tracks;
    var dx, dy := Abs(b.x - a.x), Abs(b.y - a.y);
    var sx, sy := Sign(a.x, b.x), Sign(a.y, b.y);
    Turn(k, m, dx, dy, 2 * err);
    m' := if 2 * err < dx then m + 1 else m;
    assert sx * (k + 1) == sx * k + sx && sy * (m + 1) == sy * m + sy;
  }

  lemma AdvanceDown(a: Point, b: Point, k: nat, m: int, p: Point, err: int) returns (m': int)
    requires At(a, b, k, m, p, err) && Abs(b.x - a.x) < Abs(b.y - a.y) && k < Abs(b.y - a.y)
    ensures At(a, b, k + 1, m', Next(a, b, p, err).0, Next(a, b, p, err).1)
  {
    hide Tracks;
    var dx, dy := Abs(b.x - a.x), Abs(b.y - a.y);
    var sx, sy := Sign(a.x, b.x), Sign(a.y, b.y);
    Turn(k, m, dy, dx, -2 * err);
    m' := if -2 * err < dy then m + 1 else m;
    assert sy * (k + 1) == sy * k + sy && sx * (m + 1) == sx * m + sx;
  }

  /** No intermediate of one turn leaves 16 bits. */
  predicate Fits(a: Point, b: Point, p: Point, err: int) {
    IsI16(2 * err) && IsI16(err - Abs(b.y - a.y)) && IsI16(err + Abs(b.x - a.x)) && IsI16(Next(a, b, p, err).1)
  }

  lemma TurnFits(a: Point, b: Point, k: nat, m: int, p: Point, err: int)
    requires InReach(a, b) && At(a, b, k, m, p, err) && k < Length(a, b)
    ensures Fits(a, b, p, err)
  {
    hide Tracks;
    var dx, dy := Abs(b.x - a.x), Abs(b.y - a.y);
    if dx >= dy {
      Turn(k, m, dx, dy, 2 * err);
      TurnBound(k, m, dx, dy, 2 * err);
    } else {
      Turn(k, m, dy, dx, -2 * err);
      TurnBound(k, m, dy, dx, -2 * err);
    }
  }

  lemma TurnAdvances(a: Point, b: Point, k: nat, m: int, p: Point, err: int) returns (m': int)
    requires InReach(a, b) && At(a, b, k, m, p, err) && k < Length(a, b)
    ensures At(a, b, k + 1, m', Next(a, b, p, err).0, Next(a, b, p, err).1)
    ensures Fits(a, b, p, err)
    ensures IsI16(Next(a, b, p, err).0.x) && IsI16(Next(a, b, p, err).0.y)
  {
    hide At, Next, Fits;
    if Abs(b.x - a.x) >= Abs(b.y - a.y) {
      m' := AdvanceAcross(a, b, k, m, p, err);
    } else {
      m' := AdvanceDown(a, b, k, m, p, err);
    }
    TurnFits(a, b, k, m, p, err);
    NextInRange(a, b, k + 1, m', Next(a, b, p, err).0, Next(a, b, p, err).1);
  }

  /** The loop's variables after `k` turns in exact arithmetic. */
  function After(a: Point, b: Point, k: nat): (Point, int) {
    if k == 0 then (a, Abs(b.x - a.x) - Abs(b.y - a.y))
    else Next(a, b, After(a, b, k - 1).0, After(a, b, k - 1).1)
  }

  lemma {:induction false} AfterTracks(a: Point, b: Point, k: nat) returns (m: int)
    requires k <= Length(a, b)
    ensures At(a, b, k, m, After(a, b, k).0, After(a, b, k).1)
  {
    hide At, Next;
    if k == 0 {
      m := 0;
      StartsAt(a, b);
    } else {
      m := AfterTracks(a, b, k - 1);
      var (p, err) := After(a, b, k - 1);
      if Abs(b.x - a.x) >= Abs(b.y - a.y) {
        m := AdvanceAcross(a, b, k - 1, m, p, err);
      } else {
        m := AdvanceDown(a, b, k - 1, m, p, err);
      }
    }
  }

  /** The bound is tight: on the line from (0, 0) to (10924, 1), `2 * err` is 32768 after 5463 turns. */
  lemma ReachIsTight()
    ensures After(Point(0, 0), Point(REACH + 1, 1), 5463) == (Point(5463, 1), 16384) && !IsI16(2 * 16384)
  {
    hide After;
    var m := AfterTracks(Point(0, 0), Point(REACH + 1, 1), 5463);
    if m != 1 { OnlyOne(m); }
  }

  lemma OnlyOne(m: int)
    requires Nearest(5463, 1, REACH + 1, m)
    ensures m == 1
  {}

  /** Every point of the line lies between its ends, so its coordinates have 16 bits too. */
  lemma {:induction false} PointInRange(a: Point, b: Point, k: nat)
    requires InReach(a, b) && k <= Length(a, b)
    ensures IsI16(LinePoint(a, b, k).x) && IsI16(LinePoint(a, b, k).y)
  {
    hide Minor;
    var dx, dy := Abs(b.x - a.x), Abs(b.y - a.y);
    if dx >= dy && dx > 0 { MinorBetween(k, dy, dx); } else if dy > dx { MinorBetween(k, dx, dy); } else { Ends(a, b); }
  }

  lemma MinorBetween(k: nat, minor: nat, major: nat)
    requires 0 < major && minor <= major && k <= major
    ensures 0 <= Minor(k, minor, major) <= minor
  {
    hide Minor;
    MinorNearest(k, minor, major);
    var q := Minor(k, minor, major);
    if q < 0 { Increasing(major, 0, q); }
    if q > minor {
      Increasing(major, q, minor);
      KTimes(k, major, minor);
    }
  }

  lemma {:induction false} KTimes(k: nat, major: nat, minor: nat)
    requires k <= major
    ensures 0 <= k * minor <= major * minor
  {}

  lemma PlotNext(back: seq<nat>, s: Screen, a: Point, b: Point, k: nat, color: nat)
    requires |back| == s.width * s.height && k <= Length(a, b)
    ensures var p, done := LinePoint(a, b, k), Plot(back, s, Line(a, b)[..k], color);
      Plot(back, s, Line(a, b)[..k + 1], color) ==
        if Visible(s, p) && Offset(s, p) < |done| then done[Offset(s, p) := color] else done
  {
    hide LinePoint, Visible, Offset;
    var ps := Line(a, b)[..k + 1];
    assert ps[..|ps| - 1] == Line(a, b)[..k] && ps[|ps| - 1] == LinePoint(a, b, k);
    if Visible(s, LinePoint(a, b, k)) { OffsetInside(s, LinePoint(a, b, k)); }
  }

  /** The two decisions of one turn, in 16-bit arithmetic. */
  method Advance(x1: int, y1: int, x2: int, y2: int, x: int, y: int, err: int, dx: int, dy: int, sx: int, sy: int)
    returns (x': int, y': int, err': int)
    requires Fits(Point(x1, y1), Point(x2, y2), Point(x, y), err)
    requires dx == Abs(x2 - x1) && dy == Abs(y2 - y1) && sx == Sign(x1, x2) && sy == Sign(y1, y2)
    requires var p := Next(Point(x1, y1), Point(x2, y2), Point(x, y), err).0; IsI16(p.x) && IsI16(p.y)
    ensures (Point(x', y'), err') == Next(Point(x1, y1), Point(x2, y2), Point(x, y), err)
  {
    x', y', err' := x, y, err;
    var e2 := I16(2 * err);
    if e2 > -dy {
      err' := I16(err' - dy);
      x' := I16(x + sx);
    }
    if e2 < dx {
      err' := I16(err' + dx);
      y' := I16(y + sy);
    }
  }

  /** Draws exactly the points of the line, each clipped, and stops after the last one: `drawn` lists the points in
      the order of the calls of `pset`. */
  method DrawLine(back: array<nat>, screen: Screen, x1: int, y1: int, x2: int, y2: int, color: nat)
    returns (ghost drawn: seq<Point>)
    requires InReach(Point(x1, y1), Point(x2, y2)) && back.Length == screen.width * screen.height
    modifies back
    ensures drawn == Line(Point(x1, y1), Point(x2, y2)) && |drawn| == Max(Abs(x2 - x1), Abs(y2 - y1)) + 1
    ensures back[..] == Plot(old(back[..]), screen, drawn, color)
  {
    hide At, LinePoint, Next, Fits, Plot, Visible, Offset;
    ghost var a, b := Point(x1, y1), Point(x2, y2);
    var dx := I16(if x2 > x1 then x2 - x1 else x1 - x2);
    var dy := I16(if y2 > y1 then y2 - y1 else y1 - y2);
    var sx := if x1 < x2 then 1 else -1;
    var sy := if y1 < y2 then 1 else -1;
    var err := I16(dx - dy);
    var x, y := x1, y1;
    ghost var k, m := 0, 0;
    StartsAt(a, b);
    ghost var before := back[..];
    PlotNone(before, screen, color);
    drawn := [];
    while true
      invariant At(a, b, k, m, Point(x, y), err) && k <= Length(a, b)
      invariant drawn == Line(a, b)[..k] && back[..] == Plot(before, screen, drawn, color)
      decreases Length(a, b) - k
    {
      AtIsLinePoint(a, b, k, m, Point(x, y), err);
      PlotNext(before, screen, a, b, k, color);
      SetPixel(back, screen, x, y, color);
      drawn := drawn + [Point(x, y)];
      assert drawn == Line(a, b)[..k + 1];
      if x == x2 && y == y2 { break; }
      ghost var m' := TurnAdvances(a, b, k, m, Point(x, y), err);
      x, y, err := Advance(x1, y1, x2, y2, x, y, err, dx, dy, sx, sy);
      k, m := k + 1, m';
    }
    assert Line(a, b)[..k + 1] == Line(a, b);
  }

  /** What `draw_line` leaves on a screen: the color on the line's pixels, and the other pixels as they were. */
  lemma LinePixels(back: seq<nat>, s: Screen, a: Point, b: Point, color: nat, x: nat, y: nat)
    requires |back| == s.width * s.height && s.width <= 0x8000 && s.height <= 0x8000 && x < s.width && y < s.height
    requires InReach(a, b)
    ensures y * s.width + x < |back|
    ensures Plot(back, s, Line(a, b), color)[y * s.width + x] ==
      if exists k :: 0 <= k <= Length(a, b) && LinePoint(a, b, k) == Point(x, y) then color else back[y * s.width + x]
  {
    hide Plot, LinePoint;
    forall p | p in Line(a, b) ensures IsI16(p.x) && IsI16(p.y) {
      var k :| 0 <= k < |Line(a, b)| && Line(a, b)[k] == p;
      PointInRange(a, b, k);
    }
    PixelExactly(back, s, Line(a, b), color, x, y);
    if k :| 0 <= k <= Length(a, b) && LinePoint(a, b, k) == Point(x, y) {
      assert Line(a, b)[k] == Point(x, y);
    }
  }

  lemma PlotNone(back: seq<nat>, s: Screen, color: nat)
    requires |back| == s.width * s.height
    ensures Plot(back, s, [], color) == back
  {}

  lemma StartsAt(a: Point, b: Point)
    ensures At(a, b, 0, 0, a, Abs(b.x - a.x) - Abs(b.y - a.y))
  {}

  lemma NextInRange(a: Point, b: Point, k: nat, m: int, p: Point, err: int)
    requires InReach(a, b) && At(a, b, k, m, p, err) && k <= Length(a, b)
    ensures IsI16(p.x) && IsI16(p.y)
  {
    AtIsLinePoint(a, b, k, m, p, err);
    PointInRange(a, b, k);
  }

  method SetPixel(back: array<nat>, screen: Screen, x: int, y: int, color: nat)
    requires back.Length == screen.width * screen.height
    modifies back
    ensures back[..] == if Visible(screen, Point(x, y)) && Offset(screen, Point(x, y)) < back.Length
                        then old(back[..])[Offset(screen, Point(x, y)) := color] else old(back[..])
  {
    var ux, uy := U16(x), U16(y);
    if ux >= screen.width || uy >= screen.height { return; }
    OffsetInside(screen, Point(x, y));
    back[uy * screen.width + ux] := color;
  }
}
