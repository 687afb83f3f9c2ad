/**
 * A grid that its methods update in place: the `&mut self` operations of the
 * `Grid` trait of aoc/src/lib.rs, over either backend, together with the
 * iterators `points()` and `transpositions()` hand out.
 */
module Grids {
  import opened Wrappers
  import opened Geometry
  import opened GridStore
  import opened Rekeying
  import opened Transforms
  import opened DenseLoops
  import opened FloodFill
  import opened Painting
  import opened RowMajor
  import Bresenham

  class Grid<T(==)> {
    var store: Store<T>
    /** `Default::default()` for the cell type, which `transpose` fills new rows with. */
    const default: T

    constructor (s: Store<T>, d: T)
      ensures store == s && default == d
    {
      store := s;
      default := d;
    }

    /** `set_value`. */
    method Set(p: Point, v: T)
      modifies this
      ensures store == SetValue(old(store), p, v)
    {
      store := SetValue(store, p, v);
    }

    /** `points()`: a fresh iterator over the current extents, row by row. */
    method Points() returns (it: PointIterator)
      ensures fresh(it)
      ensures it.Remaining() == Walk(Extents(store).0, Extents(store).1, Extents(store).0)
    {
      it := new PointIterator(Extents(store));
    }

    /** `flip_horizontal`: the map is re-keyed to mirrored columns, the rows are mirrored within the first-row width. */
    method FlipHorizontal()
      requires Transformable(store)
      modifies this
      ensures store == FlippedHorizontal(old(store))
    {
      var (lo, hi) := Extents(store);
      match store
      case Sparse(m) =>
        var f := (p: Point) => MirrorX(p, lo, hi);
        forall a, b | f(a) == f(b) ensures a == b {
          MirrorFacts(a, lo, hi);
        }
        var r := Rekeyed(m, f);
        store := Sparse(r);
      case Dense(rows) =>
        var r := FlipRowsHorizontal(rows);
        store := Dense(r);
    }

    /** `flip_vertical`: the map is re-keyed to mirrored rows, the rows are reordered within the first-row width. */
    method FlipVertical()
      requires Transformable(store)
      modifies this
      ensures store == FlippedVertical(old(store))
    {
      var (lo, hi) := Extents(store);
      match store
      case Sparse(m) =>
        var f := (p: Point) => MirrorY(p, lo, hi);
        forall a, b | f(a) == f(b) ensures a == b {
          MirrorFacts(a, lo, hi);
        }
        var r := Rekeyed(m, f);
        store := Sparse(r);
      case Dense(rows) =>
        var r := FlipRowsVertical(rows);
        store := Dense(r);
    }

    /** `transpose`: the map is re-keyed to swapped points, the rows are rebuilt with the dimensions swapped. */
    method Transpose()
      requires Transformable(store)
      modifies this
      ensures store == Transposed(old(store))
    {
      match store
      case Sparse(m) =>
        forall a, b | Swap(a) == Swap(b) ensures a == b {
        }
        var r := Rekeyed(m, Swap);
        store := Sparse(r);
      case Dense(rows) =>
        var r := TransposeRows(rows, default);
        store := Dense(r);
    }

    /** `rotate_90_cw`. */
    method Rotate90Cw()
      requires Transformable(store)
      modifies this
      ensures store == Rotated90(old(store))
    {
      Transpose();
      FlipHorizontal();
    }

    /** `rotate_180_cw`. */
    method Rotate180Cw()
      requires Transformable(store)
      modifies this
      ensures store == Rotated180(old(store))
    {
      FlipVertical();
      FlipHorizontal();
    }

    /** `rotate_270_cw`. */
    method Rotate270Cw()
      requires Transformable(store)
      modifies this
      ensures store == Rotated270(old(store))
    {
      Transpose();
      FlipVertical();
    }

    /**
     * `fill`: nothing happens when `pos` holds no value or already holds
     * `value`; otherwise exactly the cells of the region of the old value
     * reachable from `pos` (the ghost `region`) are set to `value`.
     */
    method Fill(pos: Point, value: T) returns (ghost region: set<Point>)
      modifies this
      ensures GetValue(old(store), pos).None? || GetValue(old(store), pos) == Some(value) ==>
        store == old(store) && region == {}
      ensures GetValue(old(store), pos).Some? && GetValue(old(store), pos) != Some(value) ==>
        Component(region, pos, Matching(old(store), GetValue(old(store), pos).value),
                  Extents(old(store)).0, Extents(old(store)).1)
      ensures SameShape(store, old(store))
      ensures forall p :: GetValue(store, p) == if p in region then Some(value) else GetValue(old(store), p)
    {
      var (lo, hi) := Extents(store);
      region := {};
      var start := GetValue(store, pos);
      if start.None? || start.value == value {
        return;
      }
      region := Flood(pos, start.value, value, lo, hi);
    }

    /** The `todo` loop of `fill`, started from `pos`, which holds `prev`. */
    method Flood(pos: Point, prev: T, value: T, lo: Point, hi: Point) returns (ghost region: set<Point>)
      requires GetValue(store, pos) == Some(prev) && prev != value
      modifies this
      ensures Component(region, pos, Matching(old(store), prev), lo, hi)
      ensures SameShape(store, old(store))
      ensures forall p :: GetValue(store, p) == if p in region then Some(value) else GetValue(old(store), p)
    {
      region := {};
      ghost var s0 := store;
      ghost var m := Matching(s0, prev);
      ghost var parent: map<Point, Point> := map[];
      ghost var rank: map<Point, nat> := map[];
      var todo := [pos];
      ghost var pushers := [pos];
      while todo != []
        invariant region <= m && PaintedOver(store, s0, region, value)
        invariant SameShape(store, s0)
        invariant Frontier(region, todo, pushers, pos, m, lo, hi)
        invariant Rooted(region, pos, parent, rank, lo, hi)
        decreases |m - region|, |todo|
      {
        ghost var stack, stackers, before := todo, pushers, store;
        var p := todo[|todo| - 1];
        todo := todo[..|todo| - 1];
        pushers := pushers[..|pushers| - 1];
        var painted, pushed := Visit(p, prev, value, lo, hi);
        SameShapeTrans(store, before, s0);
        if painted {
          todo := todo + pushed;
          assert p in m - region;
          PaintCell(before, s0, region, value, p);
          PaintFrontier(region, stack, stackers, pos, m, lo, hi);
          parent, rank := PaintRooted(region, stack, stackers, pos, m, lo, hi, parent, rank);
          region := region + {p};
          pushers := pushers + seq(|pushed|, _ => p);
        } else {
          SkipStep(region, stack, stackers, pos, m, lo, hi);
        }
      }
      FrontierDone(region, pushers, pos, m, lo, hi);
      RootedComponent(region, pos, parent, rank, m, lo, hi);
    }

    /** The body of the `todo` loop of `fill` for popped point `p`: paint it and push its neighbours if it holds `prev`. */
    method Visit(p: Point, prev: T, value: T, lo: Point, hi: Point) returns (painted: bool, pushed: seq<Point>)
      modifies this
      ensures painted == (GetValue(old(store), p) == Some(prev))
      ensures store == if painted then SetValue(old(store), p, value) else old(store)
      ensures SameShape(store, old(store))
      ensures pushed == if painted then Neighbours(p, lo, hi) else []
    {
      var curr := GetValue(store, p);
      painted := curr.Some? && curr.value == prev;
      pushed := [];
      if painted {
        store := SetValue(store, p, value);
        pushed := Pushes(p, lo, hi);
      }
    }

    /** `line`: every point `plot_line(a, b)` yields is set to `value`, in order. */
    method Line(a: Point, b: Point, value: T)
      modifies this
      ensures store == SetAll(old(store), Bresenham.Line(a, b), value)
    {
      var line := Bresenham.PlotLine(a, b);
      var i := 0;
      while i < |line|
        invariant 0 <= i <= |line|
        invariant store == SetAll(old(store), line[..i], value)
      {
        assert line[..i + 1][..i] == line[..i];
        store := SetValue(store, line[i], value);
        i := i + 1;
      }
      assert line[..|line|] == line;
    }

    /**
     * `blit_rect_convert`: the cells of `g` inside both its extents and
     * `[start, end]` are copied row by row, through `convert`, to the same
     * offsets from `pos`; absent source cells leave their destination alone.
     */
    method BlitRectConvert<U>(pos: Point, g: Store<U>, start: Point, end: Point, convert: U -> T)
      modifies this
      ensures SameShape(store, old(store))
      ensures forall q :: GetValue(store, q) ==
                          Copied(old(store), pos, g, Clip(Extents(g), start, end).0, Clip(Extents(g), start, end).1,
                                 convert, Done(Clip(Extents(g), start, end).0, Clip(Extents(g), start, end).1), q)
    {
      var (lo, hi) := Clip(Extents(g), start, end);
      ghost var s0 := store;
      var yy := lo.y;
      while yy <= hi.y
        invariant lo.y <= yy && (yy <= hi.y + 1 || yy == lo.y)
        invariant SameShape(store, s0)
        invariant forall q :: GetValue(store, q) == Copied(s0, pos, g, lo, hi, convert, Point(lo.x, yy), q)
      {
        CopyRow(s0, pos, g, lo, hi, convert, yy);
        yy := yy + 1;
      }
      CopiedEnd(s0, pos, g, lo, hi, convert, yy);
    }

    /** One row of `blit_rect_convert`: the cells of row `yy` from column `lo.x` to `hi.x`. */
    method CopyRow<U>(ghost s0: Store<T>, pos: Point, g: Store<U>, lo: Point, hi: Point, convert: U -> T, yy: int)
      requires lo.y <= yy <= hi.y
      requires SameShape(store, s0)
      requires forall q :: GetValue(store, q) == Copied(s0, pos, g, lo, hi, convert, Point(lo.x, yy), q)
      modifies this
      ensures SameShape(store, s0)
      ensures forall q :: GetValue(store, q) == Copied(s0, pos, g, lo, hi, convert, Point(lo.x, yy + 1), q)
    {
      var xx := lo.x;
      while xx <= hi.x
        invariant lo.x <= xx && (xx <= hi.x + 1 || xx == lo.x)
        invariant SameShape(store, s0)
        invariant forall q :: GetValue(store, q) == Copied(s0, pos, g, lo, hi, convert, Point(xx, yy), q)
      {
        var dst := PointAdd(pos, Point(xx - lo.x, yy - lo.y));
        var v := GetValue(g, Point(xx, yy));
        ghost var t := store;
        if v.Some? {
          store := SetValue(store, dst, convert(v.value));
        }
        CopiedStep(s0, t, store, pos, g, lo, hi, convert, xx, yy, v);
        xx := xx + 1;
      }
      CopiedRowEnd(s0, pos, g, lo, hi, convert, xx, yy);
    }

    /** `blit_rect`: `blit_rect_convert` without a conversion. */
    method BlitRect(pos: Point, g: Store<T>, start: Point, end: Point)
      modifies this
      ensures SameShape(store, old(store))
      ensures forall q :: GetValue(store, q) ==
                          Copied(old(store), pos, g, Clip(Extents(g), start, end).0, Clip(Extents(g), start, end).1,
                                 x => x, Done(Clip(Extents(g), start, end).0, Clip(Extents(g), start, end).1), q)
    {
      BlitRectConvert(pos, g, start, end, x => x);
    }

    /** `blit`: `blit_rect` over the whole extents of `g`. */
    method Blit(pos: Point, g: Store<T>)
      modifies this
      ensures SameShape(store, old(store))
      ensures forall q :: GetValue(store, q) ==
                          Copied(old(store), pos, g, Extents(g).0, Extents(g).1, x => x, Done(Extents(g).0, Extents(g).1), q)
    {
      var (start, end) := Extents(g);
      BlitRect(pos, g, start, end);
      assert Clip(Extents(g), start, end) == Extents(g);
    }
  }

  /** The pushes `fill` makes after painting `p`: each neighbour whose side of the box `p` is not on. */
  method Pushes(p: Point, lo: Point, hi: Point) returns (pushed: seq<Point>)
    ensures pushed == Neighbours(p, lo, hi)
  {
    pushed := [];
    if p.x > lo.x {
      pushed := pushed + [Point(p.x - 1, p.y)];
    }
    if p.x < hi.x {
      pushed := pushed + [Point(p.x + 1, p.y)];
    }
    if p.y > lo.y {
      pushed := pushed + [Point(p.x, p.y - 1)];
    }
    if p.y < hi.y {
      pushed := pushed + [Point(p.x, p.y + 1)];
    }
  }

  /** One cell of the copy: the destination of source cell (xx, yy) takes its value, if it has one. */
  lemma CopiedStep<T, U>(s0: Store<T>, t: Store<T>, t': Store<T>, pos: Point, g: Store<U>, lo: Point, hi: Point,
                         convert: U -> T, xx: int, yy: int, v: Option<U>)
    requires InBox(Point(xx, yy), lo, hi)
    requires v == GetValue(g, Point(xx, yy))
    requires t' == if v.Some? then SetValue(t, PointAdd(pos, Point(xx - lo.x, yy - lo.y)), convert(v.value)) else t
    requires SameShape(t, s0)
    requires forall q :: GetValue(t, q) == Copied(s0, pos, g, lo, hi, convert, Point(xx, yy), q)
    ensures SameShape(t', s0)
    ensures forall q :: GetValue(t', q) == Copied(s0, pos, g, lo, hi, convert, Point(xx + 1, yy), q)
  {
    var dst := PointAdd(pos, Point(xx - lo.x, yy - lo.y));
    forall q ensures GetValue(t', q) == Copied(s0, pos, g, lo, hi, convert, Point(xx + 1, yy), q) {
      WritableKept(t, s0, q);
      assert GetValue(t, q) == Copied(s0, pos, g, lo, hi, convert, Point(xx, yy), q);
      if q == dst {
        assert Source(pos, lo, q) == Point(xx, yy);
      }
    }
  }

  /** The end of a row is the start of the next. */
  lemma CopiedRowEnd<T, U>(s0: Store<T>, pos: Point, g: Store<U>, lo: Point, hi: Point, convert: U -> T, xx: int, yy: int)
    requires lo.x <= xx && (xx <= hi.x + 1 || xx == lo.x) && xx > hi.x
    ensures forall q :: Copied(s0, pos, g, lo, hi, convert, Point(xx, yy), q) ==
                        Copied(s0, pos, g, lo, hi, convert, Point(lo.x, yy + 1), q)
  {
  }

  /** Past the last row the copy is complete. */
  lemma CopiedEnd<T, U>(s0: Store<T>, pos: Point, g: Store<U>, lo: Point, hi: Point, convert: U -> T, yy: int)
    requires lo.y <= yy && (yy <= hi.y + 1 || yy == lo.y) && yy > hi.y
    ensures forall q :: Copied(s0, pos, g, lo, hi, convert, Point(lo.x, yy), q) ==
                        Copied(s0, pos, g, lo, hi, convert, Done(lo, hi), q)
  {
  }
}
