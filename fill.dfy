/**
 * What `Grid::fill` of aoc/src/lib.rs computes: a flood fill from `pos` over
 * the cells that hold the value found at `pos`, moving one step left, right,
 * up or down, but only while the step stays inside the extents taken before
 * the fill starts. The filled region is the least set of such cells that
 * contains `pos` and is closed under those steps.
 */
module FloodFill {
  import opened Wrappers
  import opened Geometry
  import opened GridStore

  /** The cells a grid stores. */
  function Cells<T>(s: Store<T>): (r: set<Point>)
    ensures forall p :: p in r <==> GetValue(s, p).Some?
  {
    match s
    case Sparse(m) => m.Keys
    case Dense(rows) => set y, x | 0 <= y < |rows| && 0 <= x < |rows[y]| :: Point(x, y)
  }

  /** The cells holding `v`. */
  function Matching<T(==)>(s: Store<T>, v: T): (r: set<Point>)
    ensures forall p :: p in r <==> GetValue(s, p) == Some(v)
  {
    set p | p in Cells(s) && GetValue(s, p) == Some(v)
  }

  /**
   * The points `fill` pushes after painting `p`, in push order: left, right,
   * up and down, each only when `p` is not already on that side of the box.
   */
  function Neighbours(p: Point, lo: Point, hi: Point): seq<Point> {
    (if p.x > lo.x then [Point(p.x - 1, p.y)] else []) +
    (if p.x < hi.x then [Point(p.x + 1, p.y)] else []) +
    (if p.y > lo.y then [Point(p.x, p.y - 1)] else []) +
    (if p.y < hi.y then [Point(p.x, p.y + 1)] else [])
  }

  /**
   * Each step goes to one of the four adjacent points, and from a point of the
   * box it stays in the box: the filled region is 4-connected and never leaves
   * the extents it started in.
   */
  lemma NeighboursAdjacent(p: Point, lo: Point, hi: Point, q: Point)
    requires q in Neighbours(p, lo, hi)
    ensures Abs(q.x - p.x) + Abs(q.y - p.y) == 1
    ensures InBox(p, lo, hi) ==> InBox(q, lo, hi)
  {
  }

  /** No step from `r` to a cell of `m` leaves `r`. */
  ghost predicate Closed(r: set<Point>, m: set<Point>, lo: Point, hi: Point) {
    forall p, q :: p in r && q in Neighbours(p, lo, hi) && q in m ==> q in r
  }

  /** `r` is the region of `m` reachable from `pos`: it holds `pos`, is closed, and lies inside every closed set holding `pos`. */
  ghost predicate Component(r: set<Point>, pos: Point, m: set<Point>, lo: Point, hi: Point) {
    pos in r && r <= m && Closed(r, m, lo, hi) &&
    forall s :: pos in s && Closed(s, m, lo, hi) ==> r <= s
  }

  /**
   * Every point of `r` other than `pos` was reached by a step from a parent in
   * `r` of smaller rank: a search tree rooted at `pos`.
   */
  ghost predicate Rooted(r: set<Point>, pos: Point, parent: map<Point, Point>, rank: map<Point, nat>, lo: Point, hi: Point) {
    forall p :: p in r ==>
      && p in rank
      && (p == pos || (p in parent && parent[p] in r && parent[p] in rank &&
                       p in Neighbours(parent[p], lo, hi) && rank[parent[p]] < rank[p]))
  }

  /** A point of a search tree lies in every closed set that holds the root. */
  lemma {:induction false} RootedMember(r: set<Point>, pos: Point, parent: map<Point, Point>, rank: map<Point, nat>,
                                        m: set<Point>, lo: Point, hi: Point, s: set<Point>, p: Point)
    requires Rooted(r, pos, parent, rank, lo, hi) && r <= m
    requires pos in s && Closed(s, m, lo, hi)
    requires p in r
    ensures p in s
    decreases rank[p]
  {
    if p != pos {
      var q := parent[p];
      RootedMember(r, pos, parent, rank, m, lo, hi, s, q);
    }
  }

  /** A closed search tree rooted at `pos` is the region reachable from `pos`. */
  lemma RootedComponent(r: set<Point>, pos: Point, parent: map<Point, Point>, rank: map<Point, nat>,
                        m: set<Point>, lo: Point, hi: Point)
    requires Rooted(r, pos, parent, rank, lo, hi)
    requires pos in r && r <= m && Closed(r, m, lo, hi)
    ensures Component(r, pos, m, lo, hi)
  {
    forall s | pos in s && Closed(s, m, lo, hi) ensures r <= s {
      forall p | p in r ensures p in s {
        RootedMember(r, pos, parent, rank, m, lo, hi, s, p);
      }
    }
  }

  /** The region is determined: two sets that are both the region reachable from `pos` are equal. */
  lemma ComponentUnique(r1: set<Point>, r2: set<Point>, pos: Point, m: set<Point>, lo: Point, hi: Point)
    requires Component(r1, pos, m, lo, hi) && Component(r2, pos, m, lo, hi)
    ensures r1 == r2
  {
    assert r1 <= r2 && r2 <= r1;
  }

  /**
   * The state of the `fill` loop: `todo` is its stack and `pushers[i]` the
   * painted point that pushed `todo[i]` (`pos` itself was pushed first). Every
   * step out of the painted region to a matching cell is still on the stack.
   */
  ghost predicate Frontier(region: set<Point>, todo: seq<Point>, pushers: seq<Point>, pos: Point,
                           m: set<Point>, lo: Point, hi: Point) {
    && |pushers| == |todo|
    && (pos in region || pos in todo)
    && (forall i :: 0 <= i < |todo| ==>
          todo[i] == pos || (pushers[i] in region && todo[i] in Neighbours(pushers[i], lo, hi)))
    && (forall p, q :: p in region && q in Neighbours(p, lo, hi) && q in m ==> q in region || q in todo)
  }

  /** Popping a point that is painted already or does not match leaves the frontier intact. */
  lemma SkipStep(region: set<Point>, todo: seq<Point>, pushers: seq<Point>, pos: Point, m: set<Point>, lo: Point, hi: Point)
    requires Frontier(region, todo, pushers, pos, m, lo, hi) && todo != []
    requires todo[|todo| - 1] in region || todo[|todo| - 1] !in m
    requires pos in m
    ensures Frontier(region, todo[..|todo| - 1], pushers[..|pushers| - 1], pos, m, lo, hi)
  {
    var n := |todo| - 1;
    var top, rest := todo[n], todo[..n];
    assert todo == rest + [top];
    forall p, q | p in region && q in Neighbours(p, lo, hi) && q in m ensures q in region || q in rest {
      if q !in region {
        assert q in todo;
        assert q != top;
      }
    }
  }

  /** Painting a popped matching point and pushing its neighbours keeps the frontier. */
  lemma PaintFrontier(region: set<Point>, todo: seq<Point>, pushers: seq<Point>, pos: Point, m: set<Point>, lo: Point, hi: Point)
    requires Frontier(region, todo, pushers, pos, m, lo, hi) && todo != []
    ensures var n, p := |todo| - 1, todo[|todo| - 1];
      Frontier(region + {p}, todo[..n] + Neighbours(p, lo, hi),
               pushers[..n] + seq(|Neighbours(p, lo, hi)|, _ => p), pos, m, lo, hi)
  {
    var n, p := |todo| - 1, todo[|todo| - 1];
    var ns := Neighbours(p, lo, hi);
    var region', todo', pushers' := region + {p}, todo[..n] + ns, pushers[..n] + seq(|ns|, _ => p);
    assert todo == todo[..n] + [p];
    forall i | 0 <= i < |todo'|
      ensures todo'[i] == pos || (pushers'[i] in region' && todo'[i] in Neighbours(pushers'[i], lo, hi))
    {
      if i >= n {
        assert todo'[i] == ns[i - n] && pushers'[i] == p;
      } else {
        assert todo'[i] == todo[i] && pushers'[i] == pushers[i];
      }
    }
    forall a, q | a in region' && q in Neighbours(a, lo, hi) && q in m ensures q in region' || q in todo' {
      if a == p {
        assert q in ns;
      } else if q !in region' {
        assert q in todo && q != p;
      }
    }
    assert pos in region' || pos in todo';
  }

  /**
   * Painting a popped matching point grows the search tree by that point, with
   * the point that pushed it as parent, and leaves one matching cell fewer
   * to paint.
   */
  lemma PaintRooted(region: set<Point>, todo: seq<Point>, pushers: seq<Point>, pos: Point, m: set<Point>, lo: Point, hi: Point,
                    parent: map<Point, Point>, rank: map<Point, nat>)
    returns (parent': map<Point, Point>, rank': map<Point, nat>)
    requires Frontier(region, todo, pushers, pos, m, lo, hi) && todo != []
    requires Rooted(region, pos, parent, rank, lo, hi)
    requires todo[|todo| - 1] !in region && todo[|todo| - 1] in m
    ensures Rooted(region + {todo[|todo| - 1]}, pos, parent', rank', lo, hi)
    ensures |m - (region + {todo[|todo| - 1]})| < |m - region|
  {
    var n, p := |todo| - 1, todo[|todo| - 1];
    if p == pos {
      parent', rank' := parent, rank[p := 0];
    } else {
      parent', rank' := parent[p := pushers[n]], rank[p := rank[pushers[n]] + 1];
    }
    assert m - (region + {p}) == (m - region) - {p};
    assert p in m - region;
  }

  /** Once the stack is empty, the painted region holds `pos` and is closed. */
  lemma FrontierDone(region: set<Point>, pushers: seq<Point>, pos: Point, m: set<Point>, lo: Point, hi: Point)
    requires Frontier(region, [], pushers, pos, m, lo, hi)
    ensures pos in region && Closed(region, m, lo, hi)
  {
  }

  /** `t` is `s0` with the cells of `region` set to `value`. */
  ghost predicate PaintedOver<T>(t: Store<T>, s0: Store<T>, region: set<Point>, value: T) {
    t.Sparse? == s0.Sparse? && forall q :: GetValue(t, q) == if q in region then Some(value) else GetValue(s0, q)
  }

  /** Setting a stored cell adds it to the painted region. */
  lemma PaintCell<T>(t: Store<T>, s0: Store<T>, region: set<Point>, value: T, p: Point)
    requires PaintedOver(t, s0, region, value) && GetValue(t, p).Some?
    ensures PaintedOver(SetValue(t, p, value), s0, region + {p}, value)
  {
  }
}
