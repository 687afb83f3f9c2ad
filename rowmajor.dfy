/**
 * `Grid::points` and `GridIteratorHelper` of aoc/src/lib.rs: an iterator over
 * the inclusive box `extents`, starting at its low corner and moving along x
 * first, then to the start of the next row, until the high corner is yielded.
 */
module RowMajor {
  import opened Wrappers
  import opened Geometry
  import opened GridStore

  /** Row-major order: an earlier row, or the same row further left. */
  predicate Before(p: Point, q: Point) {
    p.y < q.y || (p.y == q.y && p.x < q.x)
  }

  /** `GridIteratorHelper::next`'s new `curr`, from the current point. */
  function Successor(lo: Point, hi: Point, p: Point): (r: Option<Point>)
    ensures InBox(p, lo, hi) && r.Some? ==> InBox(r.value, lo, hi) && Before(p, r.value)
    ensures InBox(p, lo, hi) ==> (r.None? <==> p == hi)
  {
    if p.x < hi.x then Some(Point(p.x + 1, p.y))
    else if p.y < hi.y then Some(Point(lo.x, p.y + 1))
    else None
  }

  /** The points the iterator yields from current point `p` on. */
  function Walk(lo: Point, hi: Point, p: Point): seq<Point>
    decreases hi.y - p.y, hi.x - p.x
  {
    match Successor(lo, hi, p)
    case None => [p]
    case Some(q) => [p] + Walk(lo, hi, q)
  }

  /** Row y from column x to column hi.x. */
  function Row(x: int, hiX: int, y: int): (r: seq<Point>)
    ensures |r| == if x <= hiX then hiX - x + 1 else 0
    decreases hiX - x
  {
    if x > hiX then [] else [Point(x, y)] + Row(x + 1, hiX, y)
  }

  /** Rows y to hi.y of the box, each from lo.x to hi.x: the reference enumeration. */
  function Rows(lo: Point, hi: Point, y: int): seq<Point>
    decreases hi.y - y
  {
    if y > hi.y then [] else Row(lo.x, hi.x, y) + Rows(lo, hi, y + 1)
  }

  /** Every point of the box, row by row. */
  function BoxPoints(lo: Point, hi: Point): seq<Point> {
    Rows(lo, hi, lo.y)
  }

  /** The iterator's walk from a point of the box is the rest of its row, then the later rows. */
  lemma {:induction false} WalkIsRows(lo: Point, hi: Point, p: Point)
    requires InBox(p, lo, hi)
    ensures Walk(lo, hi, p) == Row(p.x, hi.x, p.y) + Rows(lo, hi, p.y + 1)
    decreases hi.y - p.y, hi.x - p.x
  {
    if p.x < hi.x {
      var q := Point(p.x + 1, p.y);
      WalkIsRows(lo, hi, q);
      var row, rest := Row(q.x, hi.x, p.y), Rows(lo, hi, p.y + 1);
      assert Row(p.x, hi.x, p.y) == [p] + row;
      assert Walk(lo, hi, p) == [p] + (row + rest);
      assert [p] + (row + rest) == ([p] + row) + rest;
    } else if p.y < hi.y {
      var q := Point(lo.x, p.y + 1);
      WalkIsRows(lo, hi, q);
      assert Row(p.x, hi.x, p.y) == [p];
      assert Rows(lo, hi, p.y + 1) == Row(lo.x, hi.x, p.y + 1) + Rows(lo, hi, p.y + 2);
      assert Walk(lo, hi, p) == [p] + Walk(lo, hi, q);
      assert Walk(lo, hi, q) == Rows(lo, hi, p.y + 1);
    } else {
      assert Row(p.x, hi.x, p.y) == [p];
      assert Rows(lo, hi, p.y + 1) == [];
    }
  }

  /** Started at the low corner, the iterator yields exactly the box, row by row. */
  lemma WalkFromLow(lo: Point, hi: Point)
    requires lo.x <= hi.x && lo.y <= hi.y
    ensures Walk(lo, hi, lo) == BoxPoints(lo, hi)
  {
    WalkIsRows(lo, hi, lo);
  }

  /** A point is in row y from column x exactly when it lies in that stretch of the row. */
  lemma {:induction false} RowMembers(x: int, hiX: int, y: int, q: Point)
    ensures q in Row(x, hiX, y) <==> q.y == y && x <= q.x <= hiX
    decreases hiX - x
  {
    if x <= hiX {
      RowMembers(x + 1, hiX, y, q);
    }
  }

  /** A point is in rows y.. exactly when it lies in the box at or below row y. */
  lemma {:induction false} RowsMembers(lo: Point, hi: Point, y: int, q: Point)
    ensures q in Rows(lo, hi, y) <==> lo.x <= q.x <= hi.x && y <= q.y <= hi.y
    decreases hi.y - y
  {
    if y <= hi.y {
      RowMembers(lo.x, hi.x, y, q);
      RowsMembers(lo, hi, y + 1, q);
    }
  }

  /** `BoxPoints` holds every point of the box and nothing else. */
  lemma BoxPointsMembers(lo: Point, hi: Point, q: Point)
    ensures q in BoxPoints(lo, hi) <==> InBox(q, lo, hi)
  {
    RowsMembers(lo, hi, lo.y, q);
  }

  /** Each point comes strictly after the ones before it. */
  predicate Increasing(s: seq<Point>) {
    forall i, j :: 0 <= i < j < |s| ==> Before(s[i], s[j])
  }

  lemma {:induction false} RowIncreasing(x: int, hiX: int, y: int)
    ensures Increasing(Row(x, hiX, y))
    ensures forall k :: 0 <= k < |Row(x, hiX, y)| ==> Row(x, hiX, y)[k] == Point(x + k, y)
    decreases hiX - x
  {
    if x <= hiX {
      RowIncreasing(x + 1, hiX, y);
    }
  }

  lemma {:induction false} RowsIncreasing(lo: Point, hi: Point, y: int)
    ensures Increasing(Rows(lo, hi, y))
    ensures forall k :: 0 <= k < |Rows(lo, hi, y)| ==> Rows(lo, hi, y)[k].y >= y
    decreases hi.y - y
  {
    if y <= hi.y {
      var r, rest := Row(lo.x, hi.x, y), Rows(lo, hi, y + 1);
      RowIncreasing(lo.x, hi.x, y);
      RowsIncreasing(lo, hi, y + 1);
      var s := r + rest;
      forall i, j | 0 <= i < j < |s| ensures Before(s[i], s[j]) {
        if j < |r| {
          assert s[i] == r[i] && s[j] == r[j];
        } else if i < |r| {
          assert s[i] == r[i] && s[j] == rest[j - |r|];
        } else {
          assert s[i] == rest[i - |r|] && s[j] == rest[j - |r|];
        }
      }
      forall k | 0 <= k < |s| ensures s[k].y >= y {
        if k >= |r| {
          assert s[k] == rest[k - |r|];
        }
      }
    }
  }

  /** An increasing sequence repeats no point. */
  lemma IncreasingDistinct(s: seq<Point>, i: int, j: int)
    requires Increasing(s) && 0 <= i < |s| && 0 <= j < |s| && i != j
    ensures s[i] != s[j]
  {
    if i < j {
      assert Before(s[i], s[j]);
    } else {
      assert Before(s[j], s[i]);
    }
  }

  /** The box has (width) * (height) points, so each is visited exactly once. */
  lemma {:induction false} RowsLength(lo: Point, hi: Point, y: int)
    requires lo.x <= hi.x && y <= hi.y + 1
    ensures |Rows(lo, hi, y)| == (hi.x - lo.x + 1) * (hi.y - y + 1)
    decreases hi.y - y
  {
    if y <= hi.y {
      RowsLength(lo, hi, y + 1);
      var w := hi.x - lo.x + 1;
      assert w * (hi.y - y + 1) == w + w * (hi.y - y);
    }
  }

  /** `points()` over the box: row-major order, no repeats, every point of the box and nothing else. */
  lemma BoxPointsProperties(lo: Point, hi: Point)
    requires lo.x <= hi.x && lo.y <= hi.y
    ensures Increasing(BoxPoints(lo, hi))
    ensures |BoxPoints(lo, hi)| == (hi.x - lo.x + 1) * (hi.y - lo.y + 1)
    ensures forall q :: q in BoxPoints(lo, hi) <==> InBox(q, lo, hi)
  {
    RowsIncreasing(lo, hi, lo.y);
    RowsLength(lo, hi, lo.y);
    forall q ensures q in BoxPoints(lo, hi) <==> InBox(q, lo, hi) {
      BoxPointsMembers(lo, hi, q);
    }
  }

  /** The extents of any grid have the low corner below and left of the high one. */
  lemma ExtentsOrdered<T>(s: Store<T>)
    ensures Extents(s).0.x <= Extents(s).1.x && Extents(s).0.y <= Extents(s).1.y
  {
    if s.Sparse? && s.cells != map[] {
      NonEmptyMapHasKey(s.cells);
      var p :| p in s.cells;
      assert InBox(p, Extents(s).0, Extents(s).1);
    }
  }

  /**
   * `points()` visits every stored cell of a sparse grid and of a rectangular
   * dense one.
   */
  lemma PointsVisitCells<T>(s: Store<T>, p: Point)
    requires s.Sparse? || Rectangular(s.rows)
    requires GetValue(s, p).Some?
    ensures p in Walk(Extents(s).0, Extents(s).1, Extents(s).0)
  {
    ExtentsOrdered(s);
    WalkFromLow(Extents(s).0, Extents(s).1);
    CellsInsideExtents(s, p);
    BoxPointsMembers(Extents(s).0, Extents(s).1, p);
  }

  /** `GridIteratorHelper`: the box and the point to yield next, if any. */
  class PointIterator {
    var extents: (Point, Point)
    var curr: Option<Point>

    /** `points()`: an iterator over `e` that starts at its low corner. */
    constructor (e: (Point, Point))
      ensures extents == e && curr == Some(e.0)
      ensures Remaining() == Walk(e.0, e.1, e.0)
    {
      extents := e;
      curr := Some(e.0);
    }

    /** The points still to be yielded. */
    ghost function Remaining(): seq<Point>
      reads this
    {
      if curr.None? then [] else Walk(extents.0, extents.1, curr.value)
    }

    /** `next`: yield the current point and move to its successor. */
    method Next() returns (r: Option<Point>)
      modifies this
      ensures r == old(curr) && extents == old(extents)
      ensures curr == if old(curr).None? then None else Successor(extents.0, extents.1, old(curr).value)
      ensures r.None? <==> old(Remaining()) == []
      ensures r.Some? ==> r.value == old(Remaining())[0] && Remaining() == old(Remaining())[1..]
    {
      r := curr;
      if curr.Some? {
        var p := curr.value;
        var c := if p.x < extents.1.x then Some(Point(p.x + 1, p.y))
          else if p.y < extents.1.y then Some(Point(extents.0.x, p.y + 1))
          else None;
        curr := c;
      }
    }
  }
}
