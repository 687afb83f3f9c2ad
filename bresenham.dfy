/**
 * `plot_line` of aoc/src/lib.rs: Bresenham's line from `a` to `b` in all
 * octants. The loop carries the current point `(x0, y0)` and the integer
 * error `err`; it steps in x when `2 * err >= dy` and in y when
 * `2 * err <= dx`, where `dx = |b.x - a.x|` and `dy = -|b.y - a.y|`.
 */
module Bresenham {
  import opened Geometry

  /** `dx`: the horizontal distance. */
  function Dx(a: Point, b: Point): nat { Abs(b.x - a.x) }

  /** `-dy`: the vertical distance (the code keeps `dy` negative). */
  function Dy(a: Point, b: Point): nat { Abs(b.y - a.y) }

  /** The loop state: `x0`, `y0` and `err`. */
  datatype Cursor = Cursor(x: int, y: int, err: int)

  function Start(a: Point, b: Point): Cursor {
    Cursor(a.x, a.y, Dx(a, b) - Dy(a, b))
  }

  function Pos(c: Cursor): Point { Point(c.x, c.y) }

  /** The sign of the x step and of the y step. */
  function Sx(a: Point, b: Point): int { if a.x < b.x then 1 else -1 }
  function Sy(a: Point, b: Point): int { if a.y < b.y then 1 else -1 }

  /** The loop body on the code's own variables: step in x, then in y, as `2 * err` allows. */
  function Move(dx: int, dy: int, sx: int, sy: int, c: Cursor): Cursor {
    var e2 := 2 * c.err;
    var c1 := if e2 >= dy then Cursor(c.x + sx, c.y, c.err + dy) else c;
    if e2 <= dx then Cursor(c1.x, c1.y + sy, c1.err + dx) else c1
  }

  /** One turn of the loop after the point is pushed and `b` is not reached. */
  function Advance(a: Point, b: Point, c: Cursor): Cursor {
    Move(Dx(a, b), -(Dy(a, b) as int), Sx(a, b), Sy(a, b), c)
  }

  /** The point reached after i steps in x and j steps in y, each toward `b`. */
  function At(a: Point, b: Point, i: int, j: int): Point {
    Point(if a.x < b.x then a.x + i else a.x - i, if a.y < b.y then a.y + j else a.y - j)
  }

  /** The error the loop carries after i steps in x and j in y: dx * (1 + j) - |dy| * (1 + i). */
  function Err(a: Point, b: Point, i: nat, j: nat): int {
    Times(Dx(a, b), 1 + j) - Times(Dy(a, b), 1 + i)
  }

  /**
   * n * m as repeated addition. Being recursive, it is unfolded only on
   * demand, which keeps the loop's own reasoning linear.
   */
  function Times(n: nat, m: nat): nat {
    if m == 0 then 0 else Times(n, m - 1) + n
  }

  lemma {:induction false} TimesIsProduct(n: nat, m: nat)
    ensures Times(n, m) == n * m
  {
    if m > 0 {
      TimesIsProduct(n, m - 1);
    }
  }

  /**
   * The loop invariant: the cursor is i = |x0 - a.x| steps along x and
   * j = |y0 - a.y| steps along y, neither past `b`, and `err` is the error for
   * those counts.
   */
  predicate OnTrack(a: Point, b: Point, c: Cursor) {
    var i, j := Abs(c.x - a.x), Abs(c.y - a.y);
    i <= Dx(a, b) && j <= Dy(a, b) && Pos(c) == At(a, b, i, j) && c.err == Err(a, b, i, j)
  }

  /** The number of unit moves left to reach `b`. */
  function Remaining(b: Point, c: Cursor): nat {
    Abs(b.x - c.x) + Abs(b.y - c.y)
  }

  /** The points the loop pushes from cursor `c` on, `b` included. */
  function Trace(a: Point, b: Point, c: Cursor): (r: seq<Point>)
    requires OnTrack(a, b, c)
    ensures |r| >= 1 && r[0] == Pos(c) && r[|r| - 1] == b
    decreases Remaining(b, c)
  {
    if Pos(c) == b then [b]
    else
      AdvanceOnTrack(a, b, c);
      AdvanceShrinks(a, b, c);
      [Pos(c)] + Trace(a, b, Advance(a, b, c))
  }

  /** The loop starts on track. */
  lemma StartOnTrack(a: Point, b: Point)
    ensures OnTrack(a, b, Start(a, b))
  {
    assert Times(Dx(a, b), 0) == 0 && Times(Dy(a, b), 0) == 0;
  }

  /** `plot_line(a, b)`. */
  function Line(a: Point, b: Point): (r: seq<Point>)
    ensures |r| >= 1 && r[0] == a && r[|r| - 1] == b
  {
    StartOnTrack(a, b);
    Trace(a, b, Start(a, b))
  }

  /**
   * The step conditions never carry a coordinate past `b`'s, and at least one
   * of them holds while `b` is not reached.
   */
  lemma NoOvershoot(dx: int, dy: int, i: int, j: int)
    requires 0 <= i <= dx && 0 <= j <= dy && !(i == dx && j == dy)
    ensures var e2 := 2 * (dx * (1 + j) - dy * (1 + i));
      (e2 >= -dy || e2 <= dx) &&
      (i == dx ==> e2 < -dy) &&
      (j == dy ==> e2 > dx)
  {
    var p, q := dx * (1 + j), dy * (1 + i);
    if i == dx {
      MulMonotone(dx, 1 + j, dy);
      assert q == dy + dx * dy by { MulSplit(dy, dx); }
    }
    if j == dy {
      MulMonotone(dy, 1 + i, dx);
      assert p == dx + dx * dy by { MulSplit(dx, dy); }
    }
  }

  lemma MulSplit(a: int, b: int)
    ensures a * (1 + b) == a + b * a
  {
  }

  lemma MulMonotone(a: int, b: int, c: int)
    requires 0 <= a && b <= c
    ensures a * b <= a * c
  {
  }

  /** One turn of the loop keeps the invariant. */
  lemma AdvanceOnTrack(a: Point, b: Point, c: Cursor)
    requires OnTrack(a, b, c) && Pos(c) != b
    ensures OnTrack(a, b, Advance(a, b, c))
  {
    var e2 := 2 * c.err;
    if e2 >= -(Dy(a, b) as int) && e2 <= Dx(a, b) {
      DiagonalOnTrack(a, b, c);
    } else if e2 >= -(Dy(a, b) as int) {
      HorizontalOnTrack(a, b, c);
    } else {
      VerticalOnTrack(a, b, c);
    }
  }

  /** The turn that steps in both x and y. */
  lemma DiagonalOnTrack(a: Point, b: Point, c: Cursor)
    requires OnTrack(a, b, c) && Pos(c) != b
    requires -(Dy(a, b) as int) <= 2 * c.err <= Dx(a, b)
    ensures OnTrack(a, b, Advance(a, b, c))
  {
    var i, j := Abs(c.x - a.x), Abs(c.y - a.y);
    ErrSteps(a, b, i, j);
    StepBounds(a, b, i, j);
    var n := Advance(a, b, c);
    assert Pos(n) == At(a, b, i + 1, j + 1) && n.err == Err(a, b, i + 1, j + 1);
    assert Abs(n.x - a.x) == i + 1 && Abs(n.y - a.y) == j + 1;
  }

  /** The turn that steps in x only. */
  lemma HorizontalOnTrack(a: Point, b: Point, c: Cursor)
    requires OnTrack(a, b, c) && Pos(c) != b
    requires -(Dy(a, b) as int) <= 2 * c.err && 2 * c.err > Dx(a, b)
    ensures OnTrack(a, b, Advance(a, b, c))
  {
    var i, j := Abs(c.x - a.x), Abs(c.y - a.y);
    ErrSteps(a, b, i, j);
    StepBounds(a, b, i, j);
    var n := Advance(a, b, c);
    assert Pos(n) == At(a, b, i + 1, j) && n.err == Err(a, b, i + 1, j);
    assert Abs(n.x - a.x) == i + 1 && Abs(n.y - a.y) == j;
  }

  /** The turn that steps in y only. */
  lemma VerticalOnTrack(a: Point, b: Point, c: Cursor)
    requires OnTrack(a, b, c) && Pos(c) != b
    requires 2 * c.err < -(Dy(a, b) as int)
    ensures OnTrack(a, b, Advance(a, b, c))
  {
    var i, j := Abs(c.x - a.x), Abs(c.y - a.y);
    ErrSteps(a, b, i, j);
    StepBounds(a, b, i, j);
    var n := Advance(a, b, c);
    assert Pos(n) == At(a, b, i, j + 1) && n.err == Err(a, b, i, j + 1);
    assert Abs(n.x - a.x) == i && Abs(n.y - a.y) == j + 1;
  }

  /** A step in x lowers the error by |dy|, a step in y raises it by dx. */
  lemma ErrSteps(a: Point, b: Point, i: nat, j: nat)
    ensures Err(a, b, i + 1, j) == Err(a, b, i, j) - Dy(a, b)
    ensures Err(a, b, i, j + 1) == Err(a, b, i, j) + Dx(a, b)
    ensures Err(a, b, i + 1, j + 1) == Err(a, b, i, j) - Dy(a, b) + Dx(a, b)
  {
  }

  /** NoOvershoot, stated on the error the loop carries. */
  lemma StepBounds(a: Point, b: Point, i: nat, j: nat)
    requires i <= Dx(a, b) && j <= Dy(a, b) && !(i == Dx(a, b) && j == Dy(a, b))
    ensures var e2 := 2 * Err(a, b, i, j);
      (e2 >= -(Dy(a, b) as int) || e2 <= Dx(a, b)) &&
      (i == Dx(a, b) ==> e2 < -(Dy(a, b) as int)) &&
      (j == Dy(a, b) ==> e2 > Dx(a, b))
  {
    TimesIsProduct(Dx(a, b), 1 + j);
    TimesIsProduct(Dy(a, b), 1 + i);
    NoOvershoot(Dx(a, b), Dy(a, b), i, j);
  }

  /**
   * One turn of the loop moves by at most one on each axis, at least one on
   * some axis, and toward `b` on both.
   */
  lemma AdvanceMoves(a: Point, b: Point, c: Cursor)
    requires OnTrack(a, b, c) && Pos(c) != b
    ensures var n := Advance(a, b, c);
      Abs(n.x - c.x) <= 1 && Abs(n.y - c.y) <= 1 &&
      Abs(b.x - n.x) <= Abs(b.x - c.x) && Abs(b.x - c.x) - 1 <= Abs(b.x - n.x) &&
      Abs(b.y - n.y) <= Abs(b.y - c.y) && Abs(b.y - c.y) - 1 <= Abs(b.y - n.y) &&
      Remaining(b, n) < Remaining(b, c)
  {
    var i, j := Abs(c.x - a.x), Abs(c.y - a.y);
    ErrSteps(a, b, i, j);
    StepBounds(a, b, i, j);
  }

  /** One turn of the loop leaves fewer moves to make. */
  lemma AdvanceShrinks(a: Point, b: Point, c: Cursor)
    requires OnTrack(a, b, c) && Pos(c) != b
    ensures Remaining(b, Advance(a, b, c)) < Remaining(b, c)
  {
    AdvanceMoves(a, b, c);
  }

  /** The walk from `c` is `c`'s point followed by the walk from the next cursor. */
  lemma TraceUnfold(a: Point, b: Point, c: Cursor)
    requires OnTrack(a, b, c) && Pos(c) != b
    ensures OnTrack(a, b, Advance(a, b, c))
    ensures Trace(a, b, c) == [Pos(c)] + Trace(a, b, Advance(a, b, c))
  {
    AdvanceOnTrack(a, b, c);
  }

  /** Two consecutive points of a line are distinct and at most one apart on each axis. */
  predicate Adjacent(p: Point, q: Point) {
    p != q && -1 <= q.x - p.x <= 1 && -1 <= q.y - p.y <= 1
  }

  /** `p` lies in the box spanned by `a` and `b`. */
  predicate Between(a: Point, b: Point, p: Point) {
    Min(a.x, b.x) <= p.x <= Max(a.x, b.x) && Min(a.y, b.y) <= p.y <= Max(a.y, b.y)
  }

  /** Every point of `r` is a neighbour of the one before it. */
  predicate Steps(r: seq<Point>) {
    forall k :: 0 <= k < |r| - 1 ==> Adjacent(r[k], r[k + 1])
  }

  /** Every point of `r` lies in the box spanned by `a` and `b`. */
  predicate Within(a: Point, b: Point, r: seq<Point>) {
    forall k :: 0 <= k < |r| ==> Between(a, b, r[k])
  }

  /** A neighbour of the first point, put in front, keeps a walk a walk. */
  lemma StepsCons(p: Point, r: seq<Point>)
    requires r != [] && Adjacent(p, r[0]) && Steps(r)
    ensures Steps([p] + r)
  {
    var r' := [p] + r;
    forall k | 0 <= k < |r'| - 1 ensures Adjacent(r'[k], r'[k + 1]) {
      if k > 0 {
        assert r'[k] == r[k - 1] && r'[k + 1] == r[k];
      }
    }
  }

  /** A point between the endpoints, put in front, keeps a walk between them. */
  lemma WithinCons(a: Point, b: Point, p: Point, r: seq<Point>)
    requires Between(a, b, p) && Within(a, b, r)
    ensures Within(a, b, [p] + r)
  {
    var r' := [p] + r;
    forall k | 0 <= k < |r'| ensures Between(a, b, r'[k]) {
      if k > 0 {
        assert r'[k] == r[k - 1];
      }
    }
  }

  /** One turn of the loop moves to one of the eight neighbours. */
  lemma AdvanceAdjacent(a: Point, b: Point, c: Cursor)
    requires OnTrack(a, b, c) && Pos(c) != b
    ensures Adjacent(Pos(c), Pos(Advance(a, b, c)))
  {
    AdvanceMoves(a, b, c);
  }

  /** A cursor on track lies between the endpoints. */
  lemma OnTrackBetween(a: Point, b: Point, c: Cursor)
    requires OnTrack(a, b, c)
    ensures Between(a, b, Pos(c))
  {
  }

  /** Each step of the walk moves to one of the eight neighbours. */
  lemma {:induction false} TraceSteps(a: Point, b: Point, c: Cursor)
    requires OnTrack(a, b, c)
    ensures Steps(Trace(a, b, c))
    decreases Remaining(b, c)
  {
    if Pos(c) != b {
      TraceUnfold(a, b, c);
      AdvanceAdjacent(a, b, c);
      var n := Advance(a, b, c);
      AdvanceShrinks(a, b, c);
      TraceSteps(a, b, n);
      StepsCons(Pos(c), Trace(a, b, n));
    }
  }

  /** The walk stays between the endpoints. */
  lemma {:induction false} TraceWithin(a: Point, b: Point, c: Cursor)
    requires OnTrack(a, b, c)
    ensures Within(a, b, Trace(a, b, c))
    decreases Remaining(b, c)
  {
    OnTrackBetween(a, b, c);
    if Pos(c) != b {
      TraceUnfold(a, b, c);
      var n := Advance(a, b, c);
      AdvanceShrinks(a, b, c);
      TraceWithin(a, b, n);
      WithinCons(a, b, Pos(c), Trace(a, b, n));
    }
  }

  /** From cursor c the walk pushes at least max(|b.x - x0|, |b.y - y0|) + 1 and at most |b.x - x0| + |b.y - y0| + 1 points. */
  lemma {:induction false} TraceLength(a: Point, b: Point, c: Cursor)
    requires OnTrack(a, b, c)
    ensures Max(Abs(b.x - c.x), Abs(b.y - c.y)) + 1 <= |Trace(a, b, c)| <= Remaining(b, c) + 1
    decreases Remaining(b, c)
  {
    if Pos(c) != b {
      AdvanceOnTrack(a, b, c);
      AdvanceMoves(a, b, c);
      TraceLength(a, b, Advance(a, b, c));
    }
  }

  /** `plot_line(a, b)` starts at `a`, ends at `b`, moves between neighbours and never leaves the box spanned by a and b. */
  lemma LineProperties(a: Point, b: Point)
    ensures var r := Line(a, b);
      |r| >= 1 && r[0] == a && r[|r| - 1] == b && Steps(r) && Within(a, b, r) &&
      Max(Dx(a, b), Dy(a, b)) + 1 <= |r| <= Dx(a, b) + Dy(a, b) + 1
  {
    StartOnTrack(a, b);
    TraceSteps(a, b, Start(a, b));
    TraceWithin(a, b, Start(a, b));
    TraceLength(a, b, Start(a, b));
  }

  /** From (0, 0) to (2, 1) the line has three points, the middle one (1, 1). */
  lemma LineForward(a: Point, b: Point)
    requires a.x == 0 && a.y == 0 && b.x == 2 && b.y == 1
    ensures |Line(a, b)| == 3 && Line(a, b)[1] == Point(1, 1)
  {
  }

  /**
   * From (2, 1) back to (0, 0) the line has three points, the middle one
   * (1, 0): the line drawn backward is not the forward line reversed.
   */
  lemma LineBackward(a: Point, b: Point)
    requires a.x == 2 && a.y == 1 && b.x == 0 && b.y == 0
    ensures |Line(a, b)| == 3 && Line(a, b)[1] == Point(1, 0)
  {
  }

  lemma AppendAssoc<T>(r: seq<T>, s: seq<T>, t: seq<T>)
    ensures (r + s) + t == r + (s + t)
  {
  }

  /**
   * The body of the loop of `plot_line` once the point is pushed and `b` is
   * not reached: step in x when `2 * err >= dy`, in y when `2 * err <= dx`.
   */
  method Step(ghost a: Point, ghost b: Point, dx: int, dy: int, sx: int, sy: int, x: int, y: int, e: int)
    returns (x0: int, y0: int, err: int)
    requires dx == Dx(a, b) && dy == -(Dy(a, b) as int) && sx == Sx(a, b) && sy == Sy(a, b)
    ensures Cursor(x0, y0, err) == Advance(a, b, Cursor(x, y, e))
  {
    x0, y0, err := x, y, e;
    var e2 := 2 * err;
    if e2 >= dy {
      err := err + dy;
      x0 := x0 + sx;
    }
    if e2 <= dx {
      err := err + dx;
      y0 := y0 + sy;
    }
  }

  /**
   * The loop of `plot_line`: push the current point, stop at `b`, otherwise
   * step in x when `2 * err >= dy` and in y when `2 * err <= dx`.
   */
  method PlotLine(a: Point, b: Point) returns (out: seq<Point>)
    ensures out == Line(a, b)
  {
    var x0, y0 := a.x, a.y;
    var x1, y1 := b.x, b.y;
    var dx := Abs(x1 - x0);
    var sx := if x0 < x1 then 1 else -1;
    var dy: int := 0 - Abs(y1 - y0);
    var sy := if y0 < y1 then 1 else -1;
    var err := dx + dy;
    out := [];
    ghost var cur := Start(a, b);
    StartOnTrack(a, b);
    while true
      invariant dx == Dx(a, b) && dy == -(Dy(a, b) as int) && sx == Sx(a, b) && sy == Sy(a, b)
      invariant cur == Cursor(x0, y0, err)
      invariant OnTrack(a, b, cur)
      invariant out + Trace(a, b, cur) == Line(a, b)
      decreases Remaining(b, cur)
    {
      ghost var before := out;
      out := out + [Point(x0, y0)];
      if x0 == x1 && y0 == y1 {
        break;
      }
      ghost var next := Advance(a, b, cur);
      TraceUnfold(a, b, cur);
      AdvanceMoves(a, b, cur);
      AppendAssoc(before, [Pos(cur)], Trace(a, b, next));
      x0, y0, err := Step(a, b, dx, dy, sx, sy, x0, y0, err);
      cur := next;
    }
  }
}
