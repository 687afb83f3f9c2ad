/**
 * What `flip_horizontal`, `flip_vertical` and `transpose` compute for the two
 * grid backends of aoc/src/lib.rs, and the rotations the `Grid` trait derives
 * from them. Each is stated cell by cell against the extents taken before the
 * operation, and the lemmas below compose them.
 */
module Transforms {
  import opened Wrappers
  import opened Geometry
  import opened Bounds
  import opened GridStore
  import opened Rekeying

  /**
   * The grids these operations accept: any map, and rows the dense loops can
   * index without panicking (they read `self[y][x]` over the whole extents,
   * which are computed from the first row).
   */
  predicate Transformable<T>(s: Store<T>) {
    s.Sparse? || DenseShaped(s.rows)
  }

  /** The grids on which every cell lies inside the extents. */
  predicate Boxed<T>(s: Store<T>) {
    s.Sparse? || Rectangular(s.rows)
  }

  /** `max_x - (x - min_x)`: the column mirrored inside the box. */
  function MirrorX(p: Point, lo: Point, hi: Point): (r: Point)
    ensures r.x == lo.x + hi.x - p.x && r.y == p.y
  {
    Point(hi.x - (p.x - lo.x), p.y)
  }

  /** `max_y - (y - min_y)`: the row mirrored inside the box. */
  function MirrorY(p: Point, lo: Point, hi: Point): (r: Point)
    ensures r.x == p.x && r.y == lo.y + hi.y - p.y
  {
    Point(p.x, hi.y - (p.y - lo.y))
  }

  function Swap(p: Point): Point { Point(p.y, p.x) }

  /** The dense `flip_horizontal`: within the first-row width each row is reversed; longer rows keep their tails. */
  function DenseFlipH<T>(rows: seq<seq<T>>): (r: seq<seq<T>>)
    requires DenseShaped(rows)
  {
    var w := |rows[0]|;
    seq(|rows|, y requires 0 <= y < |rows| =>
      seq(|rows[y]|, x requires 0 <= x < |rows[y]| => if x < w then rows[y][w - 1 - x] else rows[y][x]))
  }

  /** The dense `flip_vertical`: within the first-row width row y takes the cells of row (height - 1 - y). */
  function DenseFlipV<T>(rows: seq<seq<T>>): (r: seq<seq<T>>)
    requires DenseShaped(rows)
  {
    var w, h := |rows[0]|, |rows|;
    seq(h, y requires 0 <= y < h =>
      seq(|rows[y]|, x requires 0 <= x < |rows[y]| => if x < w then rows[h - 1 - y][x] else rows[y][x]))
  }

  /** The dense `transpose`: width rows of height cells, cell (x, y) taken from (y, x). */
  function DenseTranspose<T>(rows: seq<seq<T>>): (r: seq<seq<T>>)
    requires DenseShaped(rows)
  {
    var w, h := |rows[0]|, |rows|;
    seq(w, x requires 0 <= x < w => seq(h, y requires 0 <= y < h => rows[y][x]))
  }

  /** The sparse `flip_horizontal`: every entry moved to its mirrored column. */
  function MirroredX<T>(m: map<Point, T>, lo: Point, hi: Point): (r: map<Point, T>)
    ensures r.Keys == set k | k in m :: MirrorX(k, lo, hi)
    ensures forall k :: k in m ==> r[MirrorX(k, lo, hi)] == m[k]
  {
    Rekey(m, p => MirrorX(p, lo, hi))
  }

  /** The sparse `flip_vertical`: every entry moved to its mirrored row. */
  function MirroredY<T>(m: map<Point, T>, lo: Point, hi: Point): (r: map<Point, T>)
    ensures r.Keys == set k | k in m :: MirrorY(k, lo, hi)
    ensures forall k :: k in m ==> r[MirrorY(k, lo, hi)] == m[k]
  {
    Rekey(m, p => MirrorY(p, lo, hi))
  }

  /** The sparse `transpose`: every entry moved from (x, y) to (y, x). */
  function Swapped<T>(m: map<Point, T>): (r: map<Point, T>)
    ensures r.Keys == set k | k in m :: Swap(k)
    ensures forall k :: k in m ==> r[Swap(k)] == m[k]
  {
    Rekey(m, Swap)
  }

  function FlippedHorizontal<T>(s: Store<T>): (r: Store<T>)
    requires Transformable(s)
    ensures SameShape(r, s) && Transformable(r) && (Boxed(s) ==> Boxed(r))
  {
    var (lo, hi) := Extents(s);
    match s
    case Sparse(m) => Sparse(MirroredX(m, lo, hi))
    case Dense(rows) => Dense(DenseFlipH(rows))
  }

  function FlippedVertical<T>(s: Store<T>): (r: Store<T>)
    requires Transformable(s)
    ensures SameShape(r, s) && Transformable(r) && (Boxed(s) ==> Boxed(r))
  {
    var (lo, hi) := Extents(s);
    match s
    case Sparse(m) => Sparse(MirroredY(m, lo, hi))
    case Dense(rows) => Dense(DenseFlipV(rows))
  }

  function Transposed<T>(s: Store<T>): (r: Store<T>)
    requires Transformable(s)
    ensures r.Sparse? == s.Sparse? && Transformable(r) && Boxed(r)
    ensures s.Dense? ==> |r.rows| == |s.rows[0]| && |r.rows[0]| == |s.rows|
  {
    match s
    case Sparse(m) => Sparse(Swapped(m))
    case Dense(rows) => Dense(DenseTranspose(rows))
  }

  /** `rotate_90_cw`: transpose, then flip horizontally. */
  function Rotated90<T>(s: Store<T>): (r: Store<T>)
    requires Transformable(s)
    ensures r.Sparse? == s.Sparse? && Transformable(r) && Boxed(r)
    ensures s.Dense? ==> |r.rows| == |s.rows[0]| && |r.rows[0]| == |s.rows|
    ensures Extents(r) == (Swap(Extents(s).0), Swap(Extents(s).1))
  {
    TransposeExtents(s);
    FlipHorizontalExtents(Transposed(s));
    FlippedHorizontal(Transposed(s))
  }

  /** `rotate_180_cw`: flip vertically, then horizontally. */
  function Rotated180<T>(s: Store<T>): (r: Store<T>)
    requires Transformable(s)
    ensures SameShape(r, s) && Transformable(r) && (Boxed(s) ==> Boxed(r))
    ensures Extents(r) == Extents(s)
  {
    FlipVerticalExtents(s);
    FlipHorizontalExtents(FlippedVertical(s));
    FlippedHorizontal(FlippedVertical(s))
  }

  /** `rotate_270_cw`: transpose, then flip vertically. */
  function Rotated270<T>(s: Store<T>): (r: Store<T>)
    requires Transformable(s)
    ensures r.Sparse? == s.Sparse? && Transformable(r) && Boxed(r)
    ensures s.Dense? ==> |r.rows| == |s.rows[0]| && |r.rows[0]| == |s.rows|
    ensures Extents(r) == (Swap(Extents(s).0), Swap(Extents(s).1))
  {
    TransposeExtents(s);
    FlipVerticalExtents(Transposed(s));
    FlippedVertical(Transposed(s))
  }

  // ---------------------------------------------------------------------------
  // Cell by cell

  /** `flip_horizontal` sends the cell at `max_x - (x - min_x)` to x inside the extents and leaves every other cell alone. */
  lemma FlipHorizontalCell<T>(s: Store<T>, p: Point)
    requires Transformable(s)
    ensures GetValue(FlippedHorizontal(s), p) ==
      if InBox(p, Extents(s).0, Extents(s).1) then GetValue(s, MirrorX(p, Extents(s).0, Extents(s).1))
      else GetValue(s, p)
  {
    var (lo, hi) := Extents(s);
    match s
    case Sparse(m) =>
      if m != map[] {
        TightBoxTouches(m, lo, hi);
      }
      SparseHorizontalCell(m, lo, hi, p);
    case Dense(rows) =>
      var f := DenseFlipH(rows);
      if 0 <= p.y < |rows| && 0 <= p.x < |rows[p.y]| {
        assert f[p.y][p.x] == if p.x < |rows[0]| then rows[p.y][|rows[0]| - 1 - p.x] else rows[p.y][p.x];
      }
  }

  lemma SparseHorizontalCell<T>(m: map<Point, T>, lo: Point, hi: Point, p: Point)
    requires m != map[] ==> TouchesBox(m, lo, hi)
    ensures GetValue(Sparse(MirroredX(m, lo, hi)), p) ==
      if InBox(p, lo, hi) then GetValue(Sparse(m), MirrorX(p, lo, hi)) else GetValue(Sparse(m), p)
  {
    var r := MirroredX(m, lo, hi);
    MirrorFacts(p, lo, hi);
    if p in r {
      var k :| k in m && MirrorX(k, lo, hi) == p;
      MirrorFacts(k, lo, hi);
    } else if InBox(p, lo, hi) {
      assert MirrorX(MirrorX(p, lo, hi), lo, hi) == p;
    }
  }

  /** `flip_vertical` sends the cell at `max_y - (y - min_y)` to y inside the extents and leaves every other cell alone. */
  lemma FlipVerticalCell<T>(s: Store<T>, p: Point)
    requires Transformable(s)
    ensures GetValue(FlippedVertical(s), p) ==
      if InBox(p, Extents(s).0, Extents(s).1) then GetValue(s, MirrorY(p, Extents(s).0, Extents(s).1))
      else GetValue(s, p)
  {
    var (lo, hi) := Extents(s);
    match s
    case Sparse(m) =>
      if m != map[] {
        TightBoxTouches(m, lo, hi);
      }
      SparseVerticalCell(m, lo, hi, p);
    case Dense(rows) =>
      var f := DenseFlipV(rows);
      if 0 <= p.y < |rows| && 0 <= p.x < |rows[p.y]| {
        assert f[p.y][p.x] == if p.x < |rows[0]| then rows[|rows| - 1 - p.y][p.x] else rows[p.y][p.x];
      }
  }

  lemma SparseVerticalCell<T>(m: map<Point, T>, lo: Point, hi: Point, p: Point)
    requires m != map[] ==> TouchesBox(m, lo, hi)
    ensures GetValue(Sparse(MirroredY(m, lo, hi)), p) ==
      if InBox(p, lo, hi) then GetValue(Sparse(m), MirrorY(p, lo, hi)) else GetValue(Sparse(m), p)
  {
    var r := MirroredY(m, lo, hi);
    MirrorFacts(p, lo, hi);
    if p in r {
      var k :| k in m && MirrorY(k, lo, hi) == p;
      MirrorFacts(k, lo, hi);
    } else if InBox(p, lo, hi) {
      assert MirrorY(MirrorY(p, lo, hi), lo, hi) == p;
    }
  }

  /** `transpose` reads cell (y, x) into (x, y) inside the swapped extents; outside them nothing is stored. */
  lemma TransposeCell<T>(s: Store<T>, p: Point)
    requires Transformable(s)
    ensures GetValue(Transposed(s), p) ==
      if InBox(p, Swap(Extents(s).0), Swap(Extents(s).1)) then GetValue(s, Swap(p)) else None
  {
    var (lo, hi) := Extents(s);
    if s.Sparse? {
      var m := s.cells;
      var r := Swapped(m);
      if p in r {
        var k :| k in m && Swap(k) == p;
      } else if InBox(p, Swap(lo), Swap(hi)) {
        assert Swap(Swap(p)) == p;
      }
    }
  }

  // ---------------------------------------------------------------------------
  // Extents

  /** The flips keep the extents. */
  lemma FlipHorizontalExtents<T>(s: Store<T>)
    requires Transformable(s)
    ensures Extents(FlippedHorizontal(s)) == Extents(s)
  {
    if s.Sparse? && s.cells != map[] {
      var (lo, hi) := Extents(s);
      MirroredXExtents(s.cells, lo, hi);
    } else if s.Sparse? {
      assert FlippedHorizontal(s).cells == map[];
    } else {
      FlipHorizontalDenseExtents(s);
    }
  }

  lemma FlipHorizontalDenseExtents<T>(s: Store<T>)
    requires Transformable(s) && s.Dense?
    ensures Extents(FlippedHorizontal(s)) == Extents(s)
  {
    var r := FlippedHorizontal(s);
    assert |r.rows| == |s.rows|;
    if |s.rows| > 0 {
      assert |r.rows[0]| == |s.rows[0]|;
    }
  }

  /** Mirroring the columns of a non-empty map inside its tight box keeps that box tight. */
  lemma MirroredXExtents<T>(m: map<Point, T>, lo: Point, hi: Point)
    requires m != map[] && TightBox(m, lo, hi)
    ensures Extents(Sparse(MirroredX(m, lo, hi))) == (lo, hi)
  {
    TightBoxTouches(m, lo, hi);
    MirrorXKeepsBox(m, lo, hi);
    var r := MirroredX(m, lo, hi);
    var e := Extents(Sparse(r));
    SameTightBox(r, lo, hi, e.0, e.1);
  }

  lemma FlipVerticalExtents<T>(s: Store<T>)
    requires Transformable(s)
    ensures Extents(FlippedVertical(s)) == Extents(s)
  {
    if s.Sparse? && s.cells != map[] {
      var (lo, hi) := Extents(s);
      MirroredYExtents(s.cells, lo, hi);
    } else if s.Sparse? {
      assert FlippedVertical(s).cells == map[];
    } else {
      FlipVerticalDenseExtents(s);
    }
  }

  lemma FlipVerticalDenseExtents<T>(s: Store<T>)
    requires Transformable(s) && s.Dense?
    ensures Extents(FlippedVertical(s)) == Extents(s)
  {
    var r := FlippedVertical(s);
    assert |r.rows| == |s.rows|;
    if |s.rows| > 0 {
      assert |r.rows[0]| == |s.rows[0]|;
    }
  }

  /** Mirroring the rows of a non-empty map inside its tight box keeps that box tight. */
  lemma MirroredYExtents<T>(m: map<Point, T>, lo: Point, hi: Point)
    requires m != map[] && TightBox(m, lo, hi)
    ensures Extents(Sparse(MirroredY(m, lo, hi))) == (lo, hi)
  {
    TightBoxTouches(m, lo, hi);
    MirrorYKeepsBox(m, lo, hi);
    var r := MirroredY(m, lo, hi);
    var e := Extents(Sparse(r));
    SameTightBox(r, lo, hi, e.0, e.1);
  }

  /** `transpose` swaps the extents. */
  lemma TransposeExtents<T>(s: Store<T>)
    requires Transformable(s)
    ensures Extents(Transposed(s)) == (Swap(Extents(s).0), Swap(Extents(s).1))
  {
    if s.Sparse? && s.cells != map[] {
      var (lo, hi) := Extents(s);
      TightBoxTouches(s.cells, lo, hi);
      SwapSwapsBox(s.cells, lo, hi);
      var e := Extents(Transposed(s));
      SameTightBox(Transposed(s).cells, Swap(lo), Swap(hi), e.0, e.1);
    }
  }

  /** A tight box is reached on all four sides. */
  lemma TightBoxTouches<T>(m: map<Point, T>, lo: Point, hi: Point)
    requires TightBox(m, lo, hi)
    ensures TouchesBox(m, lo, hi)
  {
    forall q | q in m ensures InBox(q, lo, hi) {
      assert q.x in Xs(m) && q.y in Ys(m);
    }
  }

  /** Mirroring sends each side of the box to the opposite one. */
  lemma MirrorSides(a: Point, b: Point, lo: Point, hi: Point)
    ensures a.x == hi.x ==> MirrorX(a, lo, hi).x == lo.x
    ensures b.x == lo.x ==> MirrorX(b, lo, hi).x == hi.x
    ensures a.y == hi.y ==> MirrorY(a, lo, hi).y == lo.y
    ensures b.y == lo.y ==> MirrorY(b, lo, hi).y == hi.y
  {
  }

  /** Mirroring the columns of a map inside a box it touches on all sides keeps that so. */
  lemma MirrorXKeepsBox<T>(m: map<Point, T>, lo: Point, hi: Point)
    requires TouchesBox(m, lo, hi)
    ensures TouchesBox(MirroredX(m, lo, hi), lo, hi)
  {
    var r := MirroredX(m, lo, hi);
    var a :| a in m && a.x == hi.x;
    var b :| b in m && b.x == lo.x;
    var c :| c in m && c.y == lo.y;
    var d :| d in m && d.y == hi.y;
    var a', b', c', d' := MirrorX(a, lo, hi), MirrorX(b, lo, hi), MirrorX(c, lo, hi), MirrorX(d, lo, hi);
    assert a' in r && b' in r && c' in r && d' in r;
    MirrorSides(a, b, lo, hi);
    forall q | q in r ensures InBox(q, lo, hi) {
      var k :| k in m && MirrorX(k, lo, hi) == q;
    }
  }

  /** Mirroring the rows of a map inside a box it touches on all sides keeps that so. */
  lemma MirrorYKeepsBox<T>(m: map<Point, T>, lo: Point, hi: Point)
    requires TouchesBox(m, lo, hi)
    ensures TouchesBox(MirroredY(m, lo, hi), lo, hi)
  {
    var r := MirroredY(m, lo, hi);
    var a :| a in m && a.x == hi.x;
    var b :| b in m && b.x == lo.x;
    var c :| c in m && c.y == lo.y;
    var d :| d in m && d.y == hi.y;
    var a', b', c', d' := MirrorY(a, lo, hi), MirrorY(b, lo, hi), MirrorY(c, lo, hi), MirrorY(d, lo, hi);
    assert a' in r && b' in r && c' in r && d' in r;
    MirrorSides(d, c, lo, hi);
    forall q | q in r ensures InBox(q, lo, hi) {
      var k :| k in m && MirrorY(k, lo, hi) == q;
    }
  }

  /** Swapping the coordinates of a map swaps the box it touches on all sides. */
  lemma SwapSwapsBox<T>(m: map<Point, T>, lo: Point, hi: Point)
    requires TouchesBox(m, lo, hi)
    ensures TouchesBox(Swapped(m), Swap(lo), Swap(hi))
  {
    var r := Swapped(m);
    var a :| a in m && a.x == hi.x;
    var b :| b in m && b.x == lo.x;
    var c :| c in m && c.y == lo.y;
    var d :| d in m && d.y == hi.y;
    var a', b', c', d' := Swap(a), Swap(b), Swap(c), Swap(d);
    assert a' in r && b' in r && c' in r && d' in r;

    forall q | q in r ensures InBox(q, Swap(lo), Swap(hi)) {
      var k :| k in m && Swap(k) == q;
    }
  }

  /** Every key lies in the box and each of its four sides is reached by some key. */
  predicate TouchesBox<T>(m: map<Point, T>, lo: Point, hi: Point) {
    (forall q :: q in m ==> InBox(q, lo, hi)) &&
    (exists q :: q in m && q.x == lo.x) && (exists q :: q in m && q.x == hi.x) &&
    (exists q :: q in m && q.y == lo.y) && (exists q :: q in m && q.y == hi.y)
  }

  /** The extents of a non-empty map are its only tight box. */
  lemma SameTightBox<T>(m: map<Point, T>, lo: Point, hi: Point, lo': Point, hi': Point)
    requires TouchesBox(m, lo, hi)
    requires TightBox(m, lo', hi')
    ensures lo == lo' && hi == hi'
  {
    var a :| a in m && a.x == lo.x;
    var b :| b in m && b.x == hi.x;
    var c :| c in m && c.y == lo.y;
    var d :| d in m && d.y == hi.y;
    assert a.x in Xs(m) && b.x in Xs(m) && c.y in Ys(m) && d.y in Ys(m);
    assert forall v :: v in Xs(m) ==> lo.x <= v <= hi.x;
    assert forall v :: v in Ys(m) ==> lo.y <= v <= hi.y;
  }

  // ---------------------------------------------------------------------------
  // Composition

  /** Mirroring twice is the identity, and a mirrored point stays in its box. */
  lemma MirrorFacts(p: Point, lo: Point, hi: Point)
    ensures MirrorX(MirrorX(p, lo, hi), lo, hi) == p && MirrorY(MirrorY(p, lo, hi), lo, hi) == p
    ensures InBox(p, lo, hi) ==> InBox(MirrorX(p, lo, hi), lo, hi) && InBox(MirrorY(p, lo, hi), lo, hi)
  {
  }

  /** `flip_horizontal` undoes itself. */
  lemma FlipHorizontalInvolution<T>(s: Store<T>)
    requires Transformable(s)
    ensures FlippedHorizontal(FlippedHorizontal(s)) == s
  {
    var f := FlippedHorizontal(s);
    FlipHorizontalExtents(s);
    var (lo, hi) := Extents(s);
    forall p ensures GetValue(FlippedHorizontal(f), p) == GetValue(s, p) {
      FlipHorizontalCell(f, p);
      FlipHorizontalCell(s, p);
      MirrorFacts(p, lo, hi);
      FlipHorizontalCell(s, MirrorX(p, lo, hi));
    }
    StoreExtensionality(FlippedHorizontal(f), s);
  }

  /** `flip_vertical` undoes itself. */
  lemma FlipVerticalInvolution<T>(s: Store<T>)
    requires Transformable(s)
    ensures FlippedVertical(FlippedVertical(s)) == s
  {
    var f := FlippedVertical(s);
    FlipVerticalExtents(s);
    var (lo, hi) := Extents(s);
    forall p ensures GetValue(FlippedVertical(f), p) == GetValue(s, p) {
      FlipVerticalCell(f, p);
      FlipVerticalCell(s, p);
      MirrorFacts(p, lo, hi);
      FlipVerticalCell(s, MirrorY(p, lo, hi));
    }
    StoreExtensionality(FlippedVertical(f), s);
  }

  /** Outside the extents of a map or of rectangular rows nothing is stored. */
  lemma EmptyOutsideExtents<T>(s: Store<T>, p: Point)
    requires Boxed(s)
    requires !InBox(p, Extents(s).0, Extents(s).1)
    ensures GetValue(s, p) == None
  {
    if GetValue(s, p).Some? {
      CellsInsideExtents(s, p);
    }
  }

  /** `transpose` undoes itself on a map and on rectangular rows. */
  lemma TransposeInvolution<T>(s: Store<T>)
    requires Transformable(s) && Boxed(s)
    ensures Transposed(Transposed(s)) == s
  {
    var t := Transposed(s);
    TransposeExtents(s);
    var (lo, hi) := Extents(s);
    forall p ensures GetValue(Transposed(t), p) == GetValue(s, p) {
      TransposeCell(t, p);
      TransposeCell(s, Swap(p));
      if !InBox(p, lo, hi) {
        EmptyOutsideExtents(s, p);
      }
    }
    StoreExtensionality(Transposed(t), s);
  }

  /** Where `rotate_90_cw` reads the cell it puts at p: from (p.y, min_y + max_y - p.x). */
  function Turn(p: Point, lo: Point, hi: Point): Point { Point(p.y, lo.y + hi.y - p.x) }

  /** Where `rotate_180_cw` reads the cell it puts at p: the point mirrored on both axes. */
  function Reflect(p: Point, lo: Point, hi: Point): Point { Point(lo.x + hi.x - p.x, lo.y + hi.y - p.y) }

  /** Where `rotate_270_cw` reads the cell it puts at p: from (min_x + max_x - p.y, p.x). */
  function TurnBack(p: Point, lo: Point, hi: Point): Point { Point(lo.x + hi.x - p.y, p.x) }

  lemma TurnFacts(p: Point, lo: Point, hi: Point)
    ensures Swap(MirrorX(p, Swap(lo), Swap(hi))) == Turn(p, lo, hi)
    ensures Swap(MirrorY(p, Swap(lo), Swap(hi))) == TurnBack(p, lo, hi)
    ensures MirrorY(MirrorX(p, lo, hi), lo, hi) == Reflect(p, lo, hi)
    ensures InBox(p, Swap(lo), Swap(hi)) ==> InBox(MirrorX(p, Swap(lo), Swap(hi)), Swap(lo), Swap(hi))
    ensures InBox(p, Swap(lo), Swap(hi)) ==> InBox(MirrorY(p, Swap(lo), Swap(hi)), Swap(lo), Swap(hi))
    ensures InBox(p, Swap(lo), Swap(hi)) ==> InBox(Turn(p, lo, hi), lo, hi)
    ensures InBox(p, lo, hi) ==> InBox(Turn(p, Swap(lo), Swap(hi)), Swap(lo), Swap(hi))
    ensures InBox(p, lo, hi) ==> InBox(MirrorX(p, lo, hi), lo, hi)
    ensures Turn(Turn(p, Swap(lo), Swap(hi)), lo, hi) == Reflect(p, lo, hi)
    ensures Reflect(Turn(p, lo, hi), lo, hi) == TurnBack(p, lo, hi)
    ensures InBox(p, lo, hi) ==> InBox(Reflect(p, lo, hi), lo, hi)
    ensures Reflect(Reflect(p, lo, hi), lo, hi) == p
  {
  }

  /** `rotate_90_cw` puts at p the cell at `Turn(p)`, inside the swapped extents, and nothing outside them. */
  lemma Rotate90Cell<T>(s: Store<T>, p: Point)
    requires Transformable(s)
    ensures GetValue(Rotated90(s), p) ==
      if InBox(p, Swap(Extents(s).0), Swap(Extents(s).1)) then GetValue(s, Turn(p, Extents(s).0, Extents(s).1)) else None
  {
    var (lo, hi) := Extents(s);
    TransposeExtents(s);
    var t := Transposed(s);
    FlipHorizontalCell(t, p);
    TurnFacts(p, lo, hi);
    TransposeCell(s, p);
    TransposeCell(s, MirrorX(p, Swap(lo), Swap(hi)));
  }

  /** `rotate_180_cw` puts at p the cell mirrored on both axes, and leaves every other cell of a map or of rectangular rows empty. */
  lemma Rotate180Cell<T>(s: Store<T>, p: Point)
    requires Transformable(s) && Boxed(s)
    ensures GetValue(Rotated180(s), p) ==
      if InBox(p, Extents(s).0, Extents(s).1) then GetValue(s, Reflect(p, Extents(s).0, Extents(s).1)) else None
  {
    var (lo, hi) := Extents(s);
    FlipVerticalExtents(s);
    FlipHorizontalCell(FlippedVertical(s), p);
    TurnFacts(p, lo, hi);
    FlipVerticalCell(s, MirrorX(p, lo, hi));
    FlipVerticalCell(s, p);
    if !InBox(p, lo, hi) {
      EmptyOutsideExtents(s, p);
    }
  }

  /** `rotate_270_cw` puts at p the cell at `TurnBack(p)`, inside the swapped extents, and nothing outside them. */
  lemma Rotate270Cell<T>(s: Store<T>, p: Point)
    requires Transformable(s)
    ensures GetValue(Rotated270(s), p) ==
      if InBox(p, Swap(Extents(s).0), Swap(Extents(s).1)) then GetValue(s, TurnBack(p, Extents(s).0, Extents(s).1)) else None
  {
    var (lo, hi) := Extents(s);
    TransposeExtents(s);
    var t := Transposed(s);
    FlipVerticalCell(t, p);
    TurnFacts(p, lo, hi);
    TransposeCell(s, p);
    TransposeCell(s, MirrorY(p, Swap(lo), Swap(hi)));
  }

  /** Two quarter turns: the cell mirrored on both axes, inside the unchanged extents. */
  lemma Rotate90TwiceCell<T>(s: Store<T>, p: Point)
    requires Transformable(s)
    ensures GetValue(Rotated90(Rotated90(s)), p) ==
      if InBox(p, Extents(s).0, Extents(s).1) then GetValue(s, Reflect(p, Extents(s).0, Extents(s).1)) else None
  {
    var (lo, hi) := Extents(s);
    var r := Rotated90(s);
    Rotate90Cell(r, p);
    TurnFacts(p, lo, hi);
    Rotate90Cell(s, Turn(p, Swap(lo), Swap(hi)));
  }

  /** Rotating a map or rectangular rows twice keeps the shape. */
  lemma Rotate90TwiceShape<T>(s: Store<T>)
    requires Transformable(s) && Boxed(s)
    ensures SameShape(Rotated90(Rotated90(s)), s)
  {
  }

  /** `rotate_180_cw` is two quarter turns. */
  lemma Rotate180IsTwice90<T>(s: Store<T>)
    requires Transformable(s) && Boxed(s)
    ensures Rotated180(s) == Rotated90(Rotated90(s))
  {
    var rr := Rotated90(Rotated90(s));
    forall p ensures GetValue(Rotated180(s), p) == GetValue(rr, p) {
      Rotate180Cell(s, p);
      Rotate90TwiceCell(s, p);
    }
    Rotate90TwiceShape(s);
    StoreExtensionality(Rotated180(s), rr);
  }

  /** `rotate_270_cw` is three quarter turns. */
  lemma Rotate270IsThrice90<T>(s: Store<T>)
    requires Transformable(s) && Boxed(s)
    ensures Rotated270(s) == Rotated90(Rotated90(Rotated90(s)))
  {
    var (lo, hi) := Extents(s);
    var rr := Rotated90(Rotated90(s));
    var rrr := Rotated90(rr);
    forall p ensures GetValue(Rotated270(s), p) == GetValue(rrr, p) {
      Rotate270Cell(s, p);
      Rotate90TwiceCell(s, Turn(p, lo, hi));
      Rotate90Cell(rr, p);
      TurnFacts(p, lo, hi);
    }
    Rotate90TwiceShape(s);
    StoreExtensionality(Rotated270(s), rrr);
  }

  /** Four quarter turns restore a map or rectangular rows. */
  lemma Rotate90FourTimes<T>(s: Store<T>)
    requires Transformable(s) && Boxed(s)
    ensures Rotated90(Rotated90(Rotated90(Rotated90(s)))) == s
  {
    var (lo, hi) := Extents(s);
    var rr := Rotated90(Rotated90(s));
    Rotate90TwiceShape(s);
    Rotate90TwiceShape(rr);
    var rrrr := Rotated90(Rotated90(rr));
    forall p ensures GetValue(rrrr, p) == GetValue(s, p) {
      Rotate90TwiceCell(s, p);
      Rotate90TwiceCell(rr, p);
      TurnFacts(p, lo, hi);
      Rotate90TwiceCell(s, Reflect(p, lo, hi));
      if !InBox(p, lo, hi) {
        EmptyOutsideExtents(s, p);
      }
    }
    StoreExtensionality(rrrr, s);
  }

  // ---------------------------------------------------------------------------
  // The flip test of aoc/src/lib.rs

  const Rows: seq<seq<char>> := ["####", "#   "]

  lemma DenseFlipVerticalExample()
    ensures FlippedVertical(Dense(Rows)) == Dense(["#   ", "####"])
  {
    var f := DenseFlipV(Rows);
    assert f[0] == "#   " by {
      assert forall x :: 0 <= x < 4 ==> f[0][x] == Rows[1][x];
    }
    assert f[1] == "####" by {
      assert forall x :: 0 <= x < 4 ==> f[1][x] == Rows[0][x];
    }
  }

  lemma DenseFlipHorizontalExample()
    ensures FlippedHorizontal(Dense(Rows)) == Dense(["####", "   #"])
  {
    var f := DenseFlipH(Rows);
    assert f[0] == "####" by {
      assert forall x :: 0 <= x < 4 ==> f[0][x] == Rows[0][3 - x];
    }
    assert f[1] == "   #" by {
      assert forall x :: 0 <= x < 4 ==> f[1][x] == Rows[1][3 - x];
    }
  }

  const Cells: map<Point, char> :=
    map[Point(-1, 0) := '#', Point(0, 0) := '#', Point(1, 0) := '#', Point(2, 0) := '#', Point(-1, 1) := '#']

  /** The map of the test spans columns -1 to 2 and rows 0 to 1. */
  lemma SparseExampleExtents()
    ensures Extents(Sparse(Cells)) == (Point(-1, 0), Point(2, 1))
  {
    var lo, hi := Point(-1, 0), Point(2, 1);
    assert Cells.Keys == {Point(-1, 0), Point(0, 0), Point(1, 0), Point(2, 0), Point(-1, 1)};
    assert Point(-1, 0) in Cells && Point(2, 0) in Cells && Point(-1, 1) in Cells;
    var e := Extents(Sparse(Cells));
    SameTightBox(Cells, lo, hi, e.0, e.1);
  }

  const FlippedVerticalCells: map<Point, char> :=
    map[Point(-1, 1) := '#', Point(0, 1) := '#', Point(1, 1) := '#', Point(2, 1) := '#', Point(-1, 0) := '#']

  const FlippedHorizontalCells: map<Point, char> :=
    map[Point(-1, 0) := '#', Point(0, 0) := '#', Point(1, 0) := '#', Point(2, 0) := '#', Point(2, 1) := '#']

  /** Every entry of the test map and of both expected maps is `'#'`. */
  lemma ExampleValues()
    ensures forall k :: k in Cells ==> Cells[k] == '#'
    ensures forall k :: k in FlippedVerticalCells ==> FlippedVerticalCells[k] == '#'
    ensures forall k :: k in FlippedHorizontalCells ==> FlippedHorizontalCells[k] == '#'
  {
  }

  /** Outside the extents of the test map nothing is stored, before or after either flip. */
  lemma OutsideExample(p: Point)
    requires !InBox(p, Point(-1, 0), Point(2, 1))
    ensures p !in Cells && p !in FlippedVerticalCells && p !in FlippedHorizontalCells
  {
  }

  /** `flip_vertical` on the map of the test: rows 0 and 1 trade places. */
  lemma SparseFlipVerticalExample()
    ensures FlippedVertical(Sparse(Cells)) == Sparse(FlippedVerticalCells)
  {
    SparseExampleExtents();
    ExampleValues();
    forall p ensures GetValue(FlippedVertical(Sparse(Cells)), p) == GetValue(Sparse(FlippedVerticalCells), p) {
      FlipVerticalCell(Sparse(Cells), p);
      if InBox(p, Point(-1, 0), Point(2, 1)) {
        VerticalExampleKey(p);
      } else {
        OutsideExample(p);
      }
    }
    StoreExtensionality(FlippedVertical(Sparse(Cells)), Sparse(FlippedVerticalCells));
  }

  /** Inside the extents, the row-mirrored cell is in the test map exactly when the cell is in the expected map. */
  lemma VerticalExampleKey(p: Point)
    requires InBox(p, Point(-1, 0), Point(2, 1))
    ensures MirrorY(p, Point(-1, 0), Point(2, 1)) in Cells <==> p in FlippedVerticalCells
  {
    assert MirrorY(p, Point(-1, 0), Point(2, 1)) == Point(p.x, 1 - p.y);
  }

  /** `flip_horizontal` on the map of the test: columns -1 and 2 trade places, and so do 0 and 1. */
  lemma SparseFlipHorizontalExample()
    ensures FlippedHorizontal(Sparse(Cells)) == Sparse(FlippedHorizontalCells)
  {
    SparseExampleExtents();
    ExampleValues();
    forall p ensures GetValue(FlippedHorizontal(Sparse(Cells)), p) == GetValue(Sparse(FlippedHorizontalCells), p) {
      FlipHorizontalCell(Sparse(Cells), p);
      if InBox(p, Point(-1, 0), Point(2, 1)) {
        HorizontalExampleKey(p);
      } else {
        OutsideExample(p);
      }
    }
    StoreExtensionality(FlippedHorizontal(Sparse(Cells)), Sparse(FlippedHorizontalCells));
  }

  /** Inside the extents, the column-mirrored cell is in the test map exactly when the cell is in the expected map. */
  lemma HorizontalExampleKey(p: Point)
    requires InBox(p, Point(-1, 0), Point(2, 1))
    ensures MirrorX(p, Point(-1, 0), Point(2, 1)) in Cells <==> p in FlippedHorizontalCells
  {
    assert MirrorX(p, Point(-1, 0), Point(2, 1)) == Point(1 - p.x, p.y);
  }
}
