/**
 * `grid_to_graph` of aoc/src/lib.rs: an undirected weighted graph built from
 * a grid. Every cell inside the extents whose value `is_node` accepts becomes
 * a node; from each such node, each step in the chosen directions that stays
 * inside the extents and reaches another accepted cell gets the weight
 * `get_edge` returns for it, if any. The graph is a set of nodes and a map
 * from unordered pairs of points to weights; adding an edge that is already
 * there replaces its weight, as `UnGraphMap::add_edge` does.
 */
module GraphBridge {
  import opened Wrappers
  import opened Geometry
  import opened GridStore
  import RowMajor

  datatype Graph = Graph(nodes: set<Point>, edges: map<set<Point>, int>)

  /** The grid and the arguments of one `grid_to_graph` call, with the extents it takes at the start. */
  datatype Setup<!T> = Setup(s: Store<T>, lo: Point, hi: Point, isNode: (Point, T) -> bool,
                            getEdge: (Point, T, Point, T) -> Option<int>, ds: seq<Point>)

  /** The `directions` argument: 4 or 8 neighbours; any other value panics. */
  function DirectionsFor(directions: nat): (r: Option<seq<Point>>)
    ensures r.Some? <==> directions == 4 || directions == 8
    ensures r.Some? ==> |r.value| == directions
  {
    if directions == 4 then Some(Directions)
    else if directions == 8 then Some(DirectionsInclDiagonals)
    else None
  }

  /** `p` holds a value that `is_node` accepts. */
  predicate IsNode<T>(st: Setup<T>, p: Point) {
    GetValue(st.s, p).Some? && st.isNode(p, GetValue(st.s, p).value)
  }

  /** The weight of the edge from node `p` to `q`: `get_edge` of both cells, when `q` is inside the extents and a node. */
  function Weight<T>(st: Setup<T>, p: Point, q: Point): (r: Option<int>)
    ensures r.Some? ==> IsNode(st, p) && IsNode(st, q) && InBox(q, st.lo, st.hi)
  {
    if IsNode(st, p) && InBox(q, st.lo, st.hi) && IsNode(st, q)
    then st.getEdge(p, GetValue(st.s, p).value, q, GetValue(st.s, q).value)
    else None
  }

  /** One direction from `p`: `add_node(np)` and `add_edge(p, np, w)` when there is a weight. */
  function Step<T>(st: Setup<T>, g: Graph, p: Point, d: Point): Graph {
    var q := PointAdd(p, d);
    match Weight(st, p, q)
    case None => g
    case Some(w) => Graph(g.nodes + {q}, g.edges[{p, q} := w])
  }

  /** The first `n` directions from `p`, in order. */
  function Steps<T>(st: Setup<T>, g: Graph, p: Point, n: nat): Graph
    requires n <= |st.ds|
  {
    if n == 0 then g else Step(st, Steps(st, g, p, n - 1), p, st.ds[n - 1])
  }

  /** The body of the loops for one point: a node and its edges, or nothing. */
  function Visit<T>(st: Setup<T>, g: Graph, p: Point): Graph {
    if IsNode(st, p) then Steps(st, Graph(g.nodes + {p}, g.edges), p, |st.ds|) else g
  }

  /** Row `y` visited from `lo.x` up to, not including, column `x`. */
  function RowPrefix<T>(st: Setup<T>, g: Graph, y: int, x: int): Graph
    decreases x - st.lo.x
  {
    if x <= st.lo.x then g else Visit(st, RowPrefix(st, g, y, x - 1), Point(x - 1, y))
  }

  /** The rows from `lo.y` up to, not including, row `y`, each visited in full. */
  function RowsPrefix<T>(st: Setup<T>, y: int): Graph
    decreases y - st.lo.y
  {
    if y <= st.lo.y then Graph({}, map[]) else RowPrefix(st, RowsPrefix(st, y - 1), y - 1, st.hi.x + 1)
  }

  /** The graph `grid_to_graph` returns. */
  function Built<T>(st: Setup<T>): Graph {
    RowsPrefix(st, st.hi.y + 1)
  }

  /** The edge `k` joins a point inside the extents to a neighbour in one of the directions, with the weight `get_edge` gave for that step. */
  ghost predicate Supported<T>(st: Setup<T>, k: set<Point>, w: int) {
    exists p, q :: InBox(p, st.lo, st.hi) && PointSub(q, p) in st.ds && Weight(st, p, q) == Some(w) && k == {p, q}
  }

  /** Every node is an accepted cell inside the extents, and every edge is supported. */
  ghost predicate Sound<T>(st: Setup<T>, g: Graph) {
    && (forall n :: n in g.nodes ==> InBox(n, st.lo, st.hi) && IsNode(st, n))
    && (forall k :: k in g.edges ==> Supported(st, k, g.edges[k]))
  }

  /** `g'` holds every node and edge of `g` (weights may change). */
  ghost predicate Grows(g: Graph, g': Graph) {
    g.nodes <= g'.nodes && g.edges.Keys <= g'.edges.Keys
  }

  /** `p` is a node of `g` if it is accepted, and every step with a weight from `p` is an edge of `g`. */
  ghost predicate Covered<T>(st: Setup<T>, g: Graph, p: Point) {
    && (IsNode(st, p) ==> p in g.nodes)
    && (forall d :: d in st.ds && Weight(st, p, PointAdd(p, d)).Some? ==> {p, PointAdd(p, d)} in g.edges)
  }

  lemma CoveredGrows<T>(st: Setup<T>, g: Graph, g': Graph, p: Point)
    requires Covered(st, g, p) && Grows(g, g')
    ensures Covered(st, g', p)
  {
  }

  /** One step keeps the graph sound, only grows it, and adds the edge it has a weight for. */
  lemma StepFacts<T>(st: Setup<T>, g: Graph, p: Point, d: Point)
    requires Sound(st, g) && InBox(p, st.lo, st.hi) && d in st.ds
    ensures Sound(st, Step(st, g, p, d)) && Grows(g, Step(st, g, p, d))
    ensures Weight(st, p, PointAdd(p, d)).Some? ==> {p, PointAdd(p, d)} in Step(st, g, p, d).edges
  {
    var q := PointAdd(p, d);
    if Weight(st, p, q).Some? {
      var w := Weight(st, p, q).value;
      var g' := Step(st, g, p, d);
      assert PointSub(q, p) == d;
      forall k | k in g'.edges ensures Supported(st, k, g'.edges[k]) {
        if k == {p, q} {
          assert InBox(p, st.lo, st.hi) && PointSub(q, p) in st.ds && Weight(st, p, q) == Some(w);
        } else {
          assert k in g.edges;
        }
      }
    }
  }

  /** The directions from `p` keep the graph sound, only grow it, and add every edge with a weight. */
  lemma {:induction false} StepsFacts<T>(st: Setup<T>, g: Graph, p: Point, n: nat)
    requires n <= |st.ds| && Sound(st, g) && InBox(p, st.lo, st.hi)
    ensures Sound(st, Steps(st, g, p, n)) && Grows(g, Steps(st, g, p, n))
    ensures forall i :: 0 <= i < n && Weight(st, p, PointAdd(p, st.ds[i])).Some? ==>
                          {p, PointAdd(p, st.ds[i])} in Steps(st, g, p, n).edges
  {
    if n > 0 {
      var g' := Steps(st, g, p, n - 1);
      StepsFacts(st, g, p, n - 1);
      StepFacts(st, g', p, st.ds[n - 1]);
    }
  }

  /** Visiting a point inside the extents keeps the graph sound, only grows it, and covers the point. */
  lemma VisitFacts<T>(st: Setup<T>, g: Graph, p: Point)
    requires Sound(st, g) && InBox(p, st.lo, st.hi)
    ensures Sound(st, Visit(st, g, p)) && Grows(g, Visit(st, g, p)) && Covered(st, Visit(st, g, p), p)
  {
    if IsNode(st, p) {
      var g0 := Graph(g.nodes + {p}, g.edges);
      StepsFacts(st, g0, p, |st.ds|);
      var r := Visit(st, g, p);
      forall d | d in st.ds && Weight(st, p, PointAdd(p, d)).Some? ensures {p, PointAdd(p, d)} in r.edges {
        var i :| 0 <= i < |st.ds| && st.ds[i] == d;
      }
    }
  }

  /** A row prefix keeps the graph sound, only grows it, and covers each point it visited. */
  lemma {:induction false} RowPrefixFacts<T>(st: Setup<T>, g: Graph, y: int, x: int)
    requires Sound(st, g) && st.lo.y <= y <= st.hi.y && x <= st.hi.x + 1
    ensures Sound(st, RowPrefix(st, g, y, x)) && Grows(g, RowPrefix(st, g, y, x))
    ensures forall c :: st.lo.x <= c < x ==> Covered(st, RowPrefix(st, g, y, x), Point(c, y))
    decreases x - st.lo.x
  {
    if x > st.lo.x {
      var g' := RowPrefix(st, g, y, x - 1);
      RowPrefixFacts(st, g, y, x - 1);
      VisitFacts(st, g', Point(x - 1, y));
      var r := RowPrefix(st, g, y, x);
      forall c | st.lo.x <= c < x - 1 ensures Covered(st, r, Point(c, y)) {
        CoveredGrows(st, g', r, Point(c, y));
      }
    }
  }

  /** The full rows before `y` give a sound graph that covers every point of the extents above row `y`. */
  lemma {:induction false} RowsPrefixFacts<T>(st: Setup<T>, y: int)
    requires y <= st.hi.y + 1
    ensures Sound(st, RowsPrefix(st, y))
    ensures forall p :: InBox(p, st.lo, st.hi) && p.y < y ==> Covered(st, RowsPrefix(st, y), p)
    decreases y - st.lo.y
  {
    if y > st.lo.y {
      var g' := RowsPrefix(st, y - 1);
      RowsPrefixFacts(st, y - 1);
      RowPrefixFacts(st, g', y - 1, st.hi.x + 1);
      var r := RowsPrefix(st, y);
      forall p | InBox(p, st.lo, st.hi) && p.y < y ensures Covered(st, r, p) {
        if p.y < y - 1 {
          CoveredGrows(st, g', r, p);
        } else {
          assert p == Point(p.x, y - 1);
        }
      }
    }
  }

  /**
   * The nodes are exactly the accepted cells inside the extents; every step
   * from a node to an accepted cell inside the extents that `get_edge` gives
   * a weight is an edge; and every edge is such a step, carrying the weight
   * `get_edge` gave for it in one of its two orientations.
   */
  lemma BuiltGraph<T>(st: Setup<T>)
    ensures forall p :: p in Built(st).nodes <==> InBox(p, st.lo, st.hi) && IsNode(st, p)
    ensures forall p, d :: InBox(p, st.lo, st.hi) && d in st.ds && Weight(st, p, PointAdd(p, d)).Some? ==>
                             {p, PointAdd(p, d)} in Built(st).edges
    ensures forall k :: k in Built(st).edges ==> Supported(st, k, Built(st).edges[k])
  {
    RowsPrefixFacts(st, st.hi.y + 1);
  }

  /** `add_edge` on an existing pair replaces the weight: with two different weights for the two orientations, the later step wins. */
  lemma LaterWeightWins<T>(st: Setup<T>, g: Graph, p: Point, q: Point, w1: int, w2: int)
    requires Weight(st, p, q) == Some(w1) && Weight(st, q, p) == Some(w2)
    ensures Step(st, Step(st, g, p, PointSub(q, p)), q, PointSub(p, q)).edges[{p, q}] == w2
  {
    assert PointAdd(p, PointSub(q, p)) == q && PointAdd(q, PointSub(p, q)) == p;
    assert {q, p} == {p, q};
  }

  /** The loop over the directions from one node `p`. */
  method AddSteps<T>(st: Setup<T>, g: Graph, p: Point) returns (r: Graph)
    requires IsNode(st, p)
    ensures r == Steps(st, g, p, |st.ds|)
  {
    r := g;
    var c := GetValue(st.s, p).value;
    var i := 0;
    while i < |st.ds|
      invariant 0 <= i <= |st.ds| && r == Steps(st, g, p, i)
    {
      var np := PointAdd(p, st.ds[i]);
      if np.x >= st.lo.x && np.x <= st.hi.x && np.y >= st.lo.y && np.y <= st.hi.y {
        var v := GetValue(st.s, np);
        if v.Some? && st.isNode(np, v.value) {
          var e := st.getEdge(p, c, np, v.value);
          if e.Some? {
            r := Graph(r.nodes + {np}, r.edges[{p, np} := e.value]);
          }
        }
      }
      i := i + 1;
    }
  }

  /** The inner `for x` loop over row `y`. */
  method AddRow<T>(st: Setup<T>, g: Graph, y: int) returns (r: Graph)
    requires st.lo.x <= st.hi.x + 1
    ensures r == RowPrefix(st, g, y, st.hi.x + 1)
  {
    r := g;
    var x := st.lo.x;
    while x <= st.hi.x
      invariant st.lo.x <= x <= st.hi.x + 1 && r == RowPrefix(st, g, y, x)
    {
      var p := Point(x, y);
      var v := GetValue(st.s, p);
      if v.Some? && st.isNode(p, v.value) {
        r := Graph(r.nodes + {p}, r.edges);
        r := AddSteps(st, r, p);
      }
      x := x + 1;
    }
  }

  /** `grid_to_graph`: None where the source panics on a `directions` other than 4 or 8. */
  method GridToGraph<T>(s: Store<T>, isNode: (Point, T) -> bool, getEdge: (Point, T, Point, T) -> Option<int>,
                        directions: nat)
    returns (r: Option<Graph>)
    ensures r.None? <==> directions != 4 && directions != 8
    ensures r.Some? ==> r.value == Built(Setup(s, Extents(s).0, Extents(s).1, isNode, getEdge, DirectionsFor(directions).value))
  {
    var ds := DirectionsFor(directions);
    if ds.None? {
      return None;
    }
    var (lo, hi) := Extents(s);
    var st := Setup(s, lo, hi, isNode, getEdge, ds.value);
    RowMajor.ExtentsOrdered(s);
    var g := Graph({}, map[]);
    var y := lo.y;
    while y <= hi.y
      invariant lo.y <= y <= hi.y + 1 && g == RowsPrefix(st, y)
    {
      g := AddRow(st, g, y);
      y := y + 1;
    }
    r := Some(g);
  }
}
