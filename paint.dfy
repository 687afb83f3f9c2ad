/**
 * The `Grid` operations of aoc/src/lib.rs that write a batch of cells through
 * `set_value`: `line` writes one value along a list of points, and
 * `blit_rect_convert` (with `blit_rect` and `blit` on top of it) copies a
 * clipped rectangle of another grid, row by row, skipping absent source cells.
 */
module Painting {
  import opened Wrappers
  import opened Geometry
  import opened GridStore
  import RowMajor

  /** `set_value(p, v)` for each `p` of `ps`, in order. */
  function SetAll<T>(s: Store<T>, ps: seq<Point>, v: T): (r: Store<T>)
    ensures SameShape(r, s)
    decreases |ps|
  {
    if ps == [] then s else SetValue(SetAll(s, ps[..|ps| - 1], v), ps[|ps| - 1], v)
  }

  /** After the writes, exactly the writable listed cells hold `v`; every other cell is unchanged. */
  lemma {:induction false} SetAllCell<T>(s: Store<T>, ps: seq<Point>, v: T, q: Point)
    ensures GetValue(SetAll(s, ps, v), q) == if q in ps && Writable(s, q) then Some(v) else GetValue(s, q)
    decreases |ps|
  {
    if ps != [] {
      var init := ps[..|ps| - 1];
      SetAllCell(s, init, v, q);
      assert q in ps <==> q in init || q == ps[|ps| - 1];
      WritableKept(SetAll(s, init, v), s, q);
    }
  }

  /** Two stores of the same shape accept writes at the same cells once those cells agree on presence. */
  lemma WritableKept<T>(a: Store<T>, b: Store<T>, q: Point)
    requires SameShape(a, b)
    ensures Writable(a, q) == Writable(b, q)
  {
  }

  /** The source rectangle `blit_rect` copies: the source extents clipped to `[start, end]`. */
  function Clip(e: (Point, Point), start: Point, end: Point): (r: (Point, Point))
    ensures forall p :: InBox(p, r.0, r.1) <==> InBox(p, e.0, e.1) && InBox(p, start, end)
  {
    (Point(Max(e.0.x, start.x), Max(e.0.y, start.y)), Point(Min(e.1.x, end.x), Min(e.1.y, end.y)))
  }

  /** The source cell whose value goes to `q` when rectangle `[lo, ..]` is copied to `pos`. */
  function Source(pos: Point, lo: Point, q: Point): (r: Point)
    ensures PointAdd(pos, PointSub(r, lo)) == q
  {
    Point(lo.x + (q.x - pos.x), lo.y + (q.y - pos.y))
  }

  /**
   * The destination cell `q` once the copy of `[lo, hi]` of `g` to `pos` has
   * handled every source cell before `next` in row-major order: converted
   * source value where one was present and the write takes effect, the old
   * value otherwise.
   */
  function Copied<T, U>(s: Store<T>, pos: Point, g: Store<U>, lo: Point, hi: Point, convert: U -> T,
                        next: Point, q: Point): (r: Option<T>)
    ensures r != GetValue(s, q) ==> Writable(s, q) && InBox(Source(pos, lo, q), lo, hi)
  {
    var src := Source(pos, lo, q);
    if InBox(src, lo, hi) && RowMajor.Before(src, next) && Writable(s, q) && GetValue(g, src).Some?
    then Some(convert(GetValue(g, src).value))
    else GetValue(s, q)
  }

  /** The first source cell after the whole rectangle `[lo, hi]`: the copy is complete. */
  function Done(lo: Point, hi: Point): Point { Point(lo.x, hi.y + 1) }

  /** Copying `[lo, hi]` of `g` in full onto an empty map at `lo` gives every cell of `g` that lies in the rectangle. */
  lemma CopiedOntoEmpty<T>(g: Store<T>, lo: Point, hi: Point, q: Point)
    requires GetValue(g, q).Some? ==> InBox(q, lo, hi)
    ensures Copied(Sparse(map[]), lo, g, lo, hi, x => x, Done(lo, hi), q) == GetValue(g, q)
  {
    var empty: Store<T> := Sparse(map[]);
    assert Source(lo, lo, q) == q && Writable(empty, q);
    if GetValue(g, q).Some? {
      assert RowMajor.Before(q, Done(lo, hi));
    } else {
      assert GetValue(empty, q) == None;
    }
  }

  /**
   * `blit` of a grid at its own low corner onto an empty map reproduces every
   * cell of a sparse source and of a rectangular dense one.
   */
  lemma BlitOntoEmptyCopies<T>(g: Store<T>, q: Point)
    requires g.Sparse? || Rectangular(g.rows)
    ensures Copied(Sparse(map[]), Extents(g).0, g, Extents(g).0, Extents(g).1, x => x, Done(Extents(g).0, Extents(g).1), q)
         == GetValue(g, q)
  {
    if GetValue(g, q).Some? {
      CellsInsideExtents(g, q);
    }
    CopiedOntoEmpty(g, Extents(g).0, Extents(g).1, q);
  }
}
