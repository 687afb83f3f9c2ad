/**
 * The `Grid<T>` contract of aoc/src/lib.rs (`get_value`, `set_value`,
 * `extents`) and its two modelled backends: a sparse `HashMap<Point, T>` and a
 * dense `Vec<Vec<T>>` of rows. A dense read or write at a negative coordinate
 * goes through `as usize`, which turns it into an index past any real vector,
 * so it reads as absent and a write is dropped.
 */
module GridStore {
  import opened Wrappers
  import opened Geometry
  import opened Bounds

  datatype Store<T> = Sparse(cells: map<Point, T>) | Dense(rows: seq<seq<T>>)

  /** `get_value`: the stored value, or None where nothing is stored. */
  function GetValue<T>(s: Store<T>, p: Point): (r: Option<T>)
    ensures s.Sparse? ==> (r.Some? <==> p in s.cells)
    ensures s.Dense? && (p.x < 0 || p.y < 0) ==> r.None?
    ensures s.Dense? && r.Some? ==> p.y < |s.rows| && p.x < |s.rows[p.y]|
  {
    match s
    case Sparse(m) => if p in m then Some(m[p]) else None
    case Dense(rows) =>
      if 0 <= p.y < |rows| && 0 <= p.x < |rows[p.y]| then Some(rows[p.y][p.x]) else None
  }

  /** A write to `p` takes effect: always for the sparse map, only on an existing cell for the dense rows. */
  predicate Writable<T>(s: Store<T>, p: Point) {
    s.Sparse? || GetValue(s, p).Some?
  }

  /** `set_value`: `entry(pos).or_insert(value) = value` for the map; a checked `get_mut` for the rows. */
  function SetValue<T>(s: Store<T>, p: Point, v: T): (r: Store<T>)
    ensures r.Sparse? == s.Sparse?
    ensures forall q :: GetValue(r, q) == if q == p && Writable(s, p) then Some(v) else GetValue(s, q)
    ensures SameShape(r, s)
  {
    match s
    case Sparse(m) => Sparse(m[p := v])
    case Dense(rows) =>
      if 0 <= p.y < |rows| && 0 <= p.x < |rows[p.y]| then Dense(rows[p.y := rows[p.y][p.x := v]])
      else s
  }

  /** Two dense stores have rows of the same lengths; sparse stores always agree. */
  predicate SameShape<T, U>(a: Store<T>, b: Store<U>) {
    a.Sparse? == b.Sparse? &&
    (a.Dense? ==> |a.rows| == |b.rows| && forall y :: 0 <= y < |a.rows| ==> |a.rows[y]| == |b.rows[y]|)
  }

  /** Having the same shape is transitive. */
  lemma SameShapeTrans<T>(a: Store<T>, b: Store<T>, c: Store<T>)
    requires SameShape(a, b) && SameShape(b, c)
    ensures SameShape(a, c)
  {
  }

  /** The x and the y coordinates of the occupied cells of a sparse grid. */
  function Xs<T>(m: map<Point, T>): set<int> { set p | p in m :: p.x }
  function Ys<T>(m: map<Point, T>): set<int> { set p | p in m :: p.y }

  /** `lo` and `hi` are the least and greatest coordinates of the occupied cells. */
  ghost predicate TightBox<T>(m: map<Point, T>, lo: Point, hi: Point) {
    IsLeast(lo.x, Xs(m)) && IsLeast(lo.y, Ys(m)) && IsGreatest(hi.x, Xs(m)) && IsGreatest(hi.y, Ys(m))
  }

  /** A dense grid with at least one row, a non-empty first row and no row shorter than it. */
  predicate DenseShaped<T>(rows: seq<seq<T>>) {
    |rows| > 0 && |rows[0]| > 0 && forall y :: 0 <= y < |rows| ==> |rows[y]| >= |rows[0]|
  }

  /** A dense grid whose rows all have the length of the first. */
  predicate Rectangular<T>(rows: seq<seq<T>>) {
    |rows| > 0 && |rows[0]| > 0 && forall y :: 0 <= y < |rows| ==> |rows[y]| == |rows[0]|
  }

  lemma NonEmptyMapHasKey<T>(m: map<Point, T>)
    requires m != map[]
    ensures exists p :: p in m
  {
    if forall p :: p !in m {
      assert false;
    }
  }

  /**
   * `extents`: the inclusive bounding box. For the map, the least and greatest
   * coordinates over the keys, or the origin twice when it is empty; for the
   * rows, the origin and (first row length - 1, row count - 1), or the origin
   * twice when there is no row or the first row is empty.
   */
  function Extents<T>(s: Store<T>): (e: (Point, Point))
    ensures s.Sparse? && s.cells != map[] ==> TightBox(s.cells, e.0, e.1)
    ensures s.Sparse? && s.cells != map[] ==> forall p :: p in s.cells ==> InBox(p, e.0, e.1)
    ensures s.Sparse? && s.cells == map[] ==> e == (Point(0, 0), Point(0, 0))
    ensures s.Dense? ==> e.0 == Point(0, 0)
    ensures s.Dense? && |s.rows| > 0 && |s.rows[0]| > 0 ==> e.1 == Point(|s.rows[0]| - 1, |s.rows| - 1)
    ensures s.Dense? && !(|s.rows| > 0 && |s.rows[0]| > 0) ==> e.1 == Point(0, 0)
  {
    match s
    case Sparse(m) =>
      if m == map[] then (Point(0, 0), Point(0, 0))
      else
        NonEmptyMapHasKey(m);
        var p :| p in m;
        assert p.x in Xs(m) && p.y in Ys(m);
        var lo := Point(MinOf(Xs(m)), MinOf(Ys(m)));
        var hi := Point(MaxOf(Xs(m)), MaxOf(Ys(m)));
        assert forall q :: q in m ==> q.x in Xs(m) && q.y in Ys(m);
        (lo, hi)
    case Dense(rows) =>
      if |rows| > 0 && |rows[0]| > 0 then (Point(0, 0), Point(|rows[0]| - 1, |rows| - 1))
      else (Point(0, 0), Point(0, 0))
  }

  /** Every stored cell of a sparse grid, and of a rectangular dense one, lies inside the extents. */
  lemma CellsInsideExtents<T>(s: Store<T>, p: Point)
    requires s.Sparse? || Rectangular(s.rows)
    requires GetValue(s, p).Some?
    ensures InBox(p, Extents(s).0, Extents(s).1)
  {
  }

  /** Two stores of the same backend and shape that agree on every cell are equal. */
  lemma StoreExtensionality<T>(a: Store<T>, b: Store<T>)
    requires SameShape(a, b)
    requires forall p :: GetValue(a, p) == GetValue(b, p)
    ensures a == b
  {
    match a
    case Sparse(ma) =>
      forall p | p in ma ensures p in b.cells && ma[p] == b.cells[p] {
        assert GetValue(a, p) == GetValue(b, p);
      }
      forall p | p in b.cells ensures p in ma {
        assert GetValue(a, p) == GetValue(b, p);
      }
      assert ma == b.cells;
    case Dense(ra) =>
      forall y | 0 <= y < |ra| ensures ra[y] == b.rows[y] {
        forall x | 0 <= x < |ra[y]| ensures ra[y][x] == b.rows[y][x] {
          assert GetValue(a, Point(x, y)) == GetValue(b, Point(x, y));
        }
      }
      assert ra == b.rows;
  }
}
