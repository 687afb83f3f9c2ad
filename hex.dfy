/**
 * The hexagonal grid of aoc/src/lib.rs: cells addressed by cube coordinates
 * (x + y + z == 0), converted to and from axial (q, r) and "odd-r" offset
 * (column, row) coordinates, stored in a map from cube coordinates to values.
 * The two offset flips mirror the odd-r column or row inside the odd-r
 * extents; the axis flips and the rotations permute (and negate) the cube
 * coordinates relative to a pivot computed from the odd-r extents.
 */
module Hex {
  import opened Wrappers
  import opened Geometry
  import opened GridStore
  import opened Rekeying
  import opened Transforms
  import RowMajor

  predicate IsCube(c: Vec3) { c.x + c.y + c.z == 0 }

  ghost predicate AllCubes<T>(m: map<Vec3, T>) { forall c :: c in m ==> IsCube(c) }

  const HexE := Vec3(1, -1, 0)
  const HexW := Vec3(-1, 1, 0)
  const HexSE := Vec3(0, -1, 1)
  const HexSW := Vec3(-1, 0, 1)
  const HexNW := Vec3(0, 1, -1)
  const HexNE := Vec3(1, 0, -1)

  /** `HEX_DIRECTIONS`, in the source's order. */
  const HexDirections: seq<Vec3> := [HexE, HexW, HexSW, HexSE, HexNW, HexNE]

  /** `axial_to_cube`: q becomes x, r becomes z, and y makes the sum zero. */
  function AxialToCube(a: Point): (r: Vec3)
    ensures IsCube(r)
  {
    Vec3(a.x, -a.x - a.y, a.y)
  }

  /** `cube_to_axial`: x and z, which is all a cube point needs to be rebuilt. */
  function CubeToAxial(c: Vec3): (r: Point)
    ensures IsCube(c) ==> AxialToCube(r) == c
  {
    Point(c.x, c.z)
  }

  /** `cube_to_oddr`: the row is z; odd rows sit half a cell to the right. */
  function CubeToOddr(c: Vec3): (r: Point)
    ensures r.y == c.z
  {
    Point(c.x + TruncDiv(c.z - RemEuclid(c.z, 2), 2), c.z)
  }

  /** `oddr_to_cube`. */
  function OddrToCube(o: Point): (r: Vec3)
    ensures IsCube(r) && r.z == o.y
  {
    var x := o.x - TruncDiv(o.y - RemEuclid(o.y, 2), 2);
    Vec3(x, -x - o.y, o.y)
  }

  /**
   * The column shift of row `z` is half of `z` rounded down, for negative
   * rows too: `rem_euclid` leaves an even dividend, so the truncating
   * division is exact.
   */
  lemma RowShift(z: int)
    ensures 2 * TruncDiv(z - RemEuclid(z, 2), 2) == z - RemEuclid(z, 2)
    ensures TruncDiv(z - RemEuclid(z, 2), 2) == z / 2
  {
    var k := z / 2;
    assert z - RemEuclid(z, 2) == 2 * k;
    if k < 0 {
      assert Abs(2 * k) == 2 * -k;
    }
  }

  /** Offset to cube and back is the identity on every offset point. */
  lemma OddrRoundTrip(o: Point)
    ensures CubeToOddr(OddrToCube(o)) == o
  {
    RowShift(o.y);
  }

  /** Cube to offset and back is the identity on every cube point. */
  lemma CubeOddrRoundTrip(c: Vec3)
    requires IsCube(c)
    ensures OddrToCube(CubeToOddr(c)) == c
  {
    RowShift(c.z);
  }

  /** Axial to cube and back, and cube to axial and back on cube points, are identities. */
  lemma AxialRoundTrip(a: Point, c: Vec3)
    ensures CubeToAxial(AxialToCube(a)) == a
    ensures IsCube(c) ==> AxialToCube(CubeToAxial(c)) == c
  {
  }

  /**
   * On the row above the origin, which is odd, the north-east neighbour of
   * the origin sits in column 0: `rem_euclid` (not `%`) gives the right shift.
   */
  lemma NegativeRowExample()
    ensures OddrToCube(Point(0, -1)) == HexNE
  {
    var o := Point(0, -1);
    assert RemEuclid(o.y, 2) == 1;
    assert o.y - RemEuclid(o.y, 2) == -2;
    assert TruncDiv(-2, 2) == -1;
    assert OddrToCube(o).x == 1;
  }

  /** ...and the north-west neighbour of the origin is in column -1 of that row. */
  lemma NegativeRowWestExample()
    ensures CubeToOddr(HexNW) == Point(-1, -1)
  {
    var c := HexNW;
    assert RemEuclid(c.z, 2) == 1;
    assert c.z - RemEuclid(c.z, 2) == -2;
    assert TruncDiv(-2, 2) == -1;
    assert CubeToOddr(c).x == -1;
  }

  /** The cells of a set of points, each holding nothing: only its occupied positions matter. */
  function Footprint(ps: set<Point>): map<Point, ()> {
    map p | p in ps :: ()
  }

  function AxialPoints<T>(m: map<Vec3, T>): set<Point> { set c | c in m :: CubeToAxial(c) }
  function OddrPoints<T>(m: map<Vec3, T>): set<Point> { set c | c in m :: CubeToOddr(c) }

  /**
   * `axial_extents`: least and greatest q and r over the cells, (0, 0) for
   * both corners of an empty grid; the same minima and maxima as the sparse
   * square grid's extents.
   */
  function AxialBox<T>(m: map<Vec3, T>): (e: (Point, Point))
    ensures forall c :: c in m ==> InBox(CubeToAxial(c), e.0, e.1)
    ensures m != map[] ==> TightBox(Footprint(AxialPoints(m)), e.0, e.1)
    ensures m == map[] ==> e == (Point(0, 0), Point(0, 0))
  {
    var f := Footprint(AxialPoints(m));
    assert forall c :: c in m ==> CubeToAxial(c) in f;
    NonEmptyMapHasVec(m);
    Extents(Sparse(f))
  }

  /** `oddr_extents`: least and greatest column and row over the cells. */
  function OddrBox<T>(m: map<Vec3, T>): (e: (Point, Point))
    ensures forall c :: c in m ==> InBox(CubeToOddr(c), e.0, e.1)
    ensures m != map[] ==> TightBox(Footprint(OddrPoints(m)), e.0, e.1)
    ensures m == map[] ==> e == (Point(0, 0), Point(0, 0))
  {
    var f := Footprint(OddrPoints(m));
    assert forall c :: c in m ==> CubeToOddr(c) in f;
    NonEmptyMapHasVec(m);
    Extents(Sparse(f))
  }

  lemma NonEmptyMapHasVec<T>(m: map<Vec3, T>)
    ensures m != map[] ==> exists c :: c in m
  {
    if m != map[] && forall c :: c !in m {
      assert false;
    }
  }

  /** The re-keying of `flip_horizontal`: the odd-r column mirrored inside the odd-r extents. */
  function FlipHKey(e: (Point, Point), c: Vec3): Vec3 {
    OddrToCube(MirrorX(CubeToOddr(c), e.0, e.1))
  }

  /** The re-keying of `flip_vertical`: the odd-r row mirrored inside the odd-r extents. */
  function FlipVKey(e: (Point, Point), c: Vec3): Vec3 {
    OddrToCube(MirrorY(CubeToOddr(c), e.0, e.1))
  }

  /**
   * A column flip moves a cube cell to the cell whose odd-r column is
   * `max_x - (x - min_x)` and keeps its odd-r row; done twice with the same
   * extents it returns the cell.
   */
  lemma FlipHFacts(e: (Point, Point), c: Vec3)
    requires IsCube(c)
    ensures CubeToOddr(FlipHKey(e, c)) == MirrorX(CubeToOddr(c), e.0, e.1)
    ensures FlipHKey(e, FlipHKey(e, c)) == c
  {
    var o := CubeToOddr(c);
    OddrRoundTrip(MirrorX(o, e.0, e.1));
    MirrorFacts(o, e.0, e.1);
    CubeOddrRoundTrip(c);
  }

  /** A row flip moves a cube cell to odd-r row `max_y - (y - min_y)`, keeping its column; twice, it returns the cell. */
  lemma FlipVFacts(e: (Point, Point), c: Vec3)
    requires IsCube(c)
    ensures CubeToOddr(FlipVKey(e, c)) == MirrorY(CubeToOddr(c), e.0, e.1)
    ensures FlipVKey(e, FlipVKey(e, c)) == c
  {
    var o := CubeToOddr(c);
    OddrRoundTrip(MirrorY(o, e.0, e.1));
    MirrorFacts(o, e.0, e.1);
    CubeOddrRoundTrip(c);
  }

  /** On cube points the column flip is injective. */
  lemma FlipHInjective<T>(m: map<Vec3, T>, e: (Point, Point))
    requires AllCubes(m)
    ensures InjectiveOn(m.Keys, c => FlipHKey(e, c))
  {
    forall a, b | a in m && b in m && FlipHKey(e, a) == FlipHKey(e, b) ensures a == b {
      FlipHFacts(e, a);
      FlipHFacts(e, b);
    }
  }

  /** On cube points the row flip is injective. */
  lemma FlipVInjective<T>(m: map<Vec3, T>, e: (Point, Point))
    requires AllCubes(m)
    ensures InjectiveOn(m.Keys, c => FlipVKey(e, c))
  {
    forall a, b | a in m && b in m && FlipVKey(e, a) == FlipVKey(e, b) ensures a == b {
      FlipVFacts(e, a);
      FlipVFacts(e, b);
    }
  }

  /** What `flip_horizontal` leaves in the map: every cell moved by `FlipHKey` of the odd-r extents. */
  function HexFlippedHorizontal<T(==)>(m: map<Vec3, T>): (r: map<Vec3, T>)
    requires AllCubes(m)
    ensures AllCubes(r) && |r| == |m| && r.Values == m.Values
  {
    var e := OddrBox(m);
    var f := c => FlipHKey(e, c);
    FlipHInjective(m, OddrBox(m));
    RekeySize(m, f);
    RekeyValues(m, f);
    Rekey(m, f)
  }

  /** What `flip_vertical` leaves in the map: every cell moved by `FlipVKey` of the odd-r extents. */
  function HexFlippedVertical<T(==)>(m: map<Vec3, T>): (r: map<Vec3, T>)
    requires AllCubes(m)
    ensures AllCubes(r) && |r| == |m| && r.Values == m.Values
  {
    var e := OddrBox(m);
    var f := c => FlipVKey(e, c);
    FlipVInjective(m, OddrBox(m));
    RekeySize(m, f);
    RekeyValues(m, f);
    Rekey(m, f)
  }

  /** Mirrored positions, as a set. */
  function MirrorXSet(ps: set<Point>, lo: Point, hi: Point): set<Point> { set q | q in ps :: MirrorX(q, lo, hi) }
  function MirrorYSet(ps: set<Point>, lo: Point, hi: Point): set<Point> { set q | q in ps :: MirrorY(q, lo, hi) }

  /** The footprint of column-mirrored positions is the column-mirrored footprint. */
  lemma FootprintMirrorX(ps: set<Point>, lo: Point, hi: Point)
    ensures Footprint(MirrorXSet(ps, lo, hi)) == MirroredX(Footprint(ps), lo, hi)
  {
    var a, b := Footprint(MirrorXSet(ps, lo, hi)), MirroredX(Footprint(ps), lo, hi);
    assert Footprint(ps).Keys == ps;
    assert a.Keys == b.Keys;
    forall k | k in a ensures a[k] == b[k] {
    }
  }

  /** The footprint of row-mirrored positions is the row-mirrored footprint. */
  lemma FootprintMirrorY(ps: set<Point>, lo: Point, hi: Point)
    ensures Footprint(MirrorYSet(ps, lo, hi)) == MirroredY(Footprint(ps), lo, hi)
  {
    var a, b := Footprint(MirrorYSet(ps, lo, hi)), MirroredY(Footprint(ps), lo, hi);
    assert Footprint(ps).Keys == ps;
    assert a.Keys == b.Keys;
    forall k | k in a ensures a[k] == b[k] {
    }
  }

  /** The odd-r positions after `flip_horizontal` are the old ones mirrored inside the old extents. */
  lemma FlipHorizontalPoints<T>(m: map<Vec3, T>)
    requires AllCubes(m)
    ensures OddrPoints(HexFlippedHorizontal(m)) == MirrorXSet(OddrPoints(m), OddrBox(m).0, OddrBox(m).1)
  {
    FlipHPointsAt(m, OddrBox(m));
  }

  /** The odd-r positions after moving every cell by `FlipHKey` with extents `e` are the old ones mirrored inside `e`. */
  lemma FlipHPointsAt<T>(m: map<Vec3, T>, e: (Point, Point))
    requires AllCubes(m)
    ensures InjectiveOn(m.Keys, c => FlipHKey(e, c))
    ensures OddrPoints(Rekey(m, c => FlipHKey(e, c))) == MirrorXSet(OddrPoints(m), e.0, e.1)
  {
    FlipHInjective(m, e);
    var r := Rekey(m, c => FlipHKey(e, c));
    forall p | p in OddrPoints(r) ensures p in MirrorXSet(OddrPoints(m), e.0, e.1) {
      var c' :| c' in r && CubeToOddr(c') == p;
      var c :| c in m && FlipHKey(e, c) == c';
      FlipHFacts(e, c);
      assert CubeToOddr(c) in OddrPoints(m);
    }
    forall p | p in MirrorXSet(OddrPoints(m), e.0, e.1) ensures p in OddrPoints(r) {
      var q :| q in OddrPoints(m) && MirrorX(q, e.0, e.1) == p;
      var c :| c in m && CubeToOddr(c) == q;
      FlipHFacts(e, c);
      assert FlipHKey(e, c) in r;
    }
  }

  /** The odd-r positions after `flip_vertical` are the old ones mirrored inside the old extents. */
  lemma FlipVerticalPoints<T>(m: map<Vec3, T>)
    requires AllCubes(m)
    ensures OddrPoints(HexFlippedVertical(m)) == MirrorYSet(OddrPoints(m), OddrBox(m).0, OddrBox(m).1)
  {
    FlipVPointsAt(m, OddrBox(m));
  }

  /** The odd-r positions after moving every cell by `FlipVKey` with extents `e` are the old ones mirrored inside `e`. */
  lemma FlipVPointsAt<T>(m: map<Vec3, T>, e: (Point, Point))
    requires AllCubes(m)
    ensures InjectiveOn(m.Keys, c => FlipVKey(e, c))
    ensures OddrPoints(Rekey(m, c => FlipVKey(e, c))) == MirrorYSet(OddrPoints(m), e.0, e.1)
  {
    FlipVInjective(m, e);
    var r := Rekey(m, c => FlipVKey(e, c));
    forall p | p in OddrPoints(r) ensures p in MirrorYSet(OddrPoints(m), e.0, e.1) {
      var c' :| c' in r && CubeToOddr(c') == p;
      var c :| c in m && FlipVKey(e, c) == c';
      FlipVFacts(e, c);
      assert CubeToOddr(c) in OddrPoints(m);
    }
    forall p | p in MirrorYSet(OddrPoints(m), e.0, e.1) ensures p in OddrPoints(r) {
      var q :| q in OddrPoints(m) && MirrorY(q, e.0, e.1) == p;
      var c :| c in m && CubeToOddr(c) == q;
      FlipVFacts(e, c);
      assert FlipVKey(e, c) in r;
    }
  }

  /** The offset flips keep the odd-r extents. */
  lemma OffsetFlipExtents<T>(m: map<Vec3, T>)
    requires AllCubes(m)
    ensures OddrBox(HexFlippedHorizontal(m)) == OddrBox(m)
    ensures OddrBox(HexFlippedVertical(m)) == OddrBox(m)
  {
    var e := OddrBox(m);
    var f := Sparse(Footprint(OddrPoints(m)));
    FlipHorizontalPoints(m);
    FlipVerticalPoints(m);
    FootprintMirrorX(OddrPoints(m), e.0, e.1);
    FootprintMirrorY(OddrPoints(m), e.0, e.1);
    FlipHorizontalExtents(f);
    FlipVerticalExtents(f);
  }

  /** Re-keying twice by a map that undoes itself on the keys gives the map back. */
  lemma RekeyTwice<T>(m: map<Vec3, T>, f: Vec3 -> Vec3)
    requires InjectiveOn(m.Keys, f)
    requires forall c :: c in m ==> f(f(c)) == c
    requires InjectiveOn(Rekey(m, f).Keys, f)
    ensures Rekey(Rekey(m, f), f) == m
  {
    var r := Rekey(m, f);
    var t := Rekey(r, f);
    forall c | c in t ensures c in m {
      var c' :| c' in r && f(c') == c;
      var k :| k in m && f(k) == c';
    }
    forall c | c in m ensures c in t && t[c] == m[c] {
      assert f(c) in r && f(f(c)) == c;
    }
  }

  /** Re-keying cube cells twice by the same column flip gives them back. */
  lemma FlipHRekeyTwice<T>(m: map<Vec3, T>, e: (Point, Point))
    requires AllCubes(m)
    ensures InjectiveOn(m.Keys, c => FlipHKey(e, c))
    ensures InjectiveOn(Rekey(m, c => FlipHKey(e, c)).Keys, c => FlipHKey(e, c))
    ensures Rekey(Rekey(m, c => FlipHKey(e, c)), c => FlipHKey(e, c)) == m
  {
    var f := c => FlipHKey(e, c);
    FlipHInjective(m, e);
    forall c | c in m ensures f(f(c)) == c {
      FlipHFacts(e, c);
    }
    var r := Rekey(m, f);
    forall c | c in r ensures IsCube(c) {
      var k :| k in m && f(k) == c;
    }
    FlipHInjective(r, e);
    RekeyTwice(m, f);
  }

  /** Re-keying cube cells twice by the same row flip gives them back. */
  lemma FlipVRekeyTwice<T>(m: map<Vec3, T>, e: (Point, Point))
    requires AllCubes(m)
    ensures InjectiveOn(m.Keys, c => FlipVKey(e, c))
    ensures InjectiveOn(Rekey(m, c => FlipVKey(e, c)).Keys, c => FlipVKey(e, c))
    ensures Rekey(Rekey(m, c => FlipVKey(e, c)), c => FlipVKey(e, c)) == m
  {
    var f := c => FlipVKey(e, c);
    FlipVInjective(m, e);
    forall c | c in m ensures f(f(c)) == c {
      FlipVFacts(e, c);
    }
    var r := Rekey(m, f);
    forall c | c in r ensures IsCube(c) {
      var k :| k in m && f(k) == c;
    }
    FlipVInjective(r, e);
    RekeyTwice(m, f);
  }

  /** `flip_horizontal` twice leaves a grid of cube cells as it was. */
  lemma HexFlipHorizontalTwice<T>(m: map<Vec3, T>)
    requires AllCubes(m)
    ensures HexFlippedHorizontal(HexFlippedHorizontal(m)) == m
  {
    OffsetFlipExtents(m);
    FlipHRekeyTwice(m, OddrBox(m));
  }

  /** `flip_vertical` twice leaves a grid of cube cells as it was. */
  lemma HexFlipVerticalTwice<T>(m: map<Vec3, T>)
    requires AllCubes(m)
    ensures HexFlippedVertical(HexFlippedVertical(m)) == m
  {
    OffsetFlipExtents(m);
    FlipVRekeyTwice(m, OddrBox(m));
  }

  /** The coordinate permutations of the axis flips and the rotations. */
  datatype Turn = SwapYZ | SwapXZ | SwapXY | Rot60 | Rot120 | Rot180 | Rot240 | Rot300

  /** The offset from the pivot after the move: `flip_x` swaps y and z, `rotate_60_cw` is `[-z, -x, -y]`, and so on. */
  function Rearranged(t: Turn, d: Vec3): Vec3 {
    match t
    case SwapYZ => Vec3(d.x, d.z, d.y)
    case SwapXZ => Vec3(d.z, d.y, d.x)
    case SwapXY => Vec3(d.y, d.x, d.z)
    case Rot60 => Vec3(-d.z, -d.x, -d.y)
    case Rot120 => Vec3(d.y, d.z, d.x)
    case Rot180 => Vec3(-d.x, -d.y, -d.z)
    case Rot240 => Vec3(d.z, d.x, d.y)
    case Rot300 => Vec3(-d.y, -d.z, -d.x)
  }

  /** The move that undoes `t`: each flip undoes itself, a rotation is undone by the one that completes a full turn. */
  function Inverse(t: Turn): Turn {
    match t
    case Rot60 => Rot300
    case Rot120 => Rot240
    case Rot240 => Rot120
    case Rot300 => Rot60
    case _ => t
  }

  /** The sum of the absolute coordinates: twice the hex distance from the origin. */
  function Norm(d: Vec3): nat { Abs(d.x) + Abs(d.y) + Abs(d.z) }

  /** Each rearrangement keeps cube points cube points and is undone by its inverse. */
  lemma RearrangedFacts(t: Turn, d: Vec3)
    ensures IsCube(d) ==> IsCube(Rearranged(t, d))
    ensures Rearranged(Inverse(t), Rearranged(t, d)) == d
  {
    match t
    case SwapYZ =>
    case SwapXZ =>
    case SwapXY =>
    case Rot60 =>
    case Rot120 =>
    case Rot180 =>
    case Rot240 =>
    case Rot300 =>
  }

  /** Each rearrangement keeps the norm. */
  lemma RearrangedNorm(t: Turn, d: Vec3)
    ensures Norm(Rearranged(t, d)) == Norm(d)
  {
    match t
    case SwapYZ =>
    case SwapXZ =>
    case SwapXY =>
    case Rot60 =>
    case Rot120 =>
    case Rot180 =>
    case Rot240 =>
    case Rot300 =>
  }

  /** Each rearrangement commutes with subtraction. */
  lemma RearrangedLinear(t: Turn, a: Vec3, b: Vec3)
    ensures Rearranged(t, VecSub(a, b)) == VecSub(Rearranged(t, a), Rearranged(t, b))
  {
    match t
    case SwapYZ =>
    case SwapXZ =>
    case SwapXY =>
    case Rot60 =>
    case Rot120 =>
    case Rot180 =>
    case Rot240 =>
    case Rot300 =>
  }

  /** `rotate_60_cw` applied 2, 3, 4, 5 and 6 times is the 120, 180, 240 and 300 degree rotation and then the identity. */
  lemma Rot60Powers(d: Vec3)
    ensures Rearranged(Rot60, Rearranged(Rot60, d)) == Rearranged(Rot120, d)
    ensures Rearranged(Rot60, Rearranged(Rot120, d)) == Rearranged(Rot180, d)
    ensures Rearranged(Rot60, Rearranged(Rot180, d)) == Rearranged(Rot240, d)
    ensures Rearranged(Rot60, Rearranged(Rot240, d)) == Rearranged(Rot300, d)
    ensures Rearranged(Rot60, Rearranged(Rot300, d)) == d
  {
  }

  /** `rotate_60_cw` turns east to south-east, south-east to south-west and south-west to west. */
  lemma Rot60DirectionsSouth()
    ensures Rearranged(Rot60, HexE) == HexSE && Rearranged(Rot60, HexSE) == HexSW && Rearranged(Rot60, HexSW) == HexW
  {
  }

  /** `rotate_60_cw` turns west to north-west, north-west to north-east and north-east to east. */
  lemma Rot60DirectionsNorth()
    ensures Rearranged(Rot60, HexW) == HexNW && Rearranged(Rot60, HexNW) == HexNE && Rearranged(Rot60, HexNE) == HexE
  {
  }

  /** The hex distance between two cube points. */
  function CubeDistance(a: Vec3, b: Vec3): nat {
    Norm(VecSub(a, b)) / 2
  }

  /** `pivot = oddr_to_cube([(max_x - min_x + 1) / 2, (max_y - min_y + 1) / 2])`, from the current odd-r extents. */
  function Pivot(e: (Point, Point)): (r: Vec3)
    ensures IsCube(r)
  {
    OddrToCube(Point(TruncDiv(e.1.x - e.0.x + 1, 2), TruncDiv(e.1.y - e.0.y + 1, 2)))
  }

  /** The re-keying of an axis flip or rotation: `vec_add(rearranged(vec_sub(c, pivot)), pivot)`. */
  function TurnKey(t: Turn, pivot: Vec3, c: Vec3): Vec3 {
    VecAdd(Rearranged(t, VecSub(c, pivot)), pivot)
  }

  /**
   * An axis flip or rotation about a cube pivot keeps cube points cube
   * points, keeps the hex distance between any two points, and is undone by
   * the inverse move about the same pivot.
   */
  lemma TurnKeyFacts(t: Turn, pivot: Vec3, a: Vec3, b: Vec3)
    requires IsCube(pivot)
    ensures IsCube(a) ==> IsCube(TurnKey(t, pivot, a))
    ensures CubeDistance(TurnKey(t, pivot, a), TurnKey(t, pivot, b)) == CubeDistance(a, b)
    ensures TurnKey(Inverse(t), pivot, TurnKey(t, pivot, a)) == a
  {
    var da, db := VecSub(a, pivot), VecSub(b, pivot);
    RearrangedFacts(t, da);
    RearrangedNorm(t, VecSub(a, b));
    RearrangedLinear(t, da, db);
    assert VecSub(da, db) == VecSub(a, b);
    assert VecSub(TurnKey(t, pivot, a), pivot) == Rearranged(t, da);
    assert VecSub(TurnKey(t, pivot, a), TurnKey(t, pivot, b)) == VecSub(Rearranged(t, da), Rearranged(t, db));
  }

  /** Any set of keys, cube points or not, is re-keyed injectively. */
  lemma TurnKeyInjective<T>(m: map<Vec3, T>, t: Turn, pivot: Vec3)
    ensures InjectiveOn(m.Keys, c => TurnKey(t, pivot, c))
  {
    forall a, b | a in m && b in m && TurnKey(t, pivot, a) == TurnKey(t, pivot, b) ensures a == b {
      RearrangedFacts(t, VecSub(a, pivot));
      RearrangedFacts(t, VecSub(b, pivot));
    }
  }

  /** What an axis flip or rotation leaves in the map: every cell moved by `TurnKey` about the pivot of the odd-r extents. */
  function Turned<T(==)>(m: map<Vec3, T>, t: Turn): (r: map<Vec3, T>)
    ensures |r| == |m| && r.Values == m.Values
    ensures AllCubes(m) ==> AllCubes(r)
  {
    var pivot := Pivot(OddrBox(m));
    TurnRekeyFacts(m, t, pivot);
    Rekey(m, c => TurnKey(t, pivot, c))
  }

  /** Moving every cell about a cube pivot keeps the number of cells, the values, and cube keys. */
  lemma TurnRekeyFacts<T>(m: map<Vec3, T>, t: Turn, pivot: Vec3)
    requires IsCube(pivot)
    ensures InjectiveOn(m.Keys, c => TurnKey(t, pivot, c))
    ensures |Rekey(m, c => TurnKey(t, pivot, c))| == |m|
    ensures Rekey(m, c => TurnKey(t, pivot, c)).Values == m.Values
    ensures AllCubes(m) ==> AllCubes(Rekey(m, c => TurnKey(t, pivot, c)))
  {
    var f := c => TurnKey(t, pivot, c);
    TurnKeyInjective(m, t, pivot);
    RekeySize(m, f);
    RekeyValues(m, f);
    if AllCubes(m) {
      forall c | c in m ensures IsCube(f(c)) {
        TurnKeyFacts(t, pivot, c, c);
      }
    }
  }

  /** The cube points of a sequence of axial points, in order. */
  function Cubes(ps: seq<Point>): (r: seq<Vec3>)
    ensures |r| == |ps|
  {
    if ps == [] then [] else [AxialToCube(ps[0])] + Cubes(ps[1..])
  }

  /** Every axial point of the sequence appears as its cube point. */
  lemma {:induction false} CubesMember(ps: seq<Point>, p: Point)
    requires p in ps
    ensures AxialToCube(p) in Cubes(ps)
  {
    if ps[0] != p {
      CubesMember(ps[1..], p);
    }
  }

  /** `points()` reaches every cube cell of the grid: its axial point lies in the axial extents. */
  lemma HexPointsVisitCells<T>(m: map<Vec3, T>, c: Vec3)
    requires c in m && IsCube(c)
    ensures c in Cubes(RowMajor.Walk(AxialBox(m).0, AxialBox(m).1, AxialBox(m).0))
  {
    var (lo, hi) := AxialBox(m);
    var a := CubeToAxial(c);
    RowMajor.WalkFromLow(lo, hi);
    RowMajor.BoxPointsMembers(lo, hi, a);
    CubesMember(RowMajor.Walk(lo, hi, lo), a);
    AxialRoundTrip(a, c);
  }

  /** `HexGridIteratorHelper`: the axial extents and the next axial point to yield. */
  class HexPointIterator {
    var extents: (Point, Point)
    var curr: Option<Point>

    /** `points()`: an iterator over `e` that starts at its low corner. */
    constructor (e: (Point, Point))
      ensures extents == e && curr == Some(e.0)
      ensures Remaining() == Cubes(RowMajor.Walk(e.0, e.1, e.0))
    {
      extents := e;
      curr := Some(e.0);
    }

    /** The cube points still to be yielded. */
    ghost function Remaining(): seq<Vec3>
      reads this
    {
      if curr.None? then [] else Cubes(RowMajor.Walk(extents.0, extents.1, curr.value))
    }

    /** `next`: yield the current axial point as a cube point and move to its row-major successor. */
    method Next() returns (r: Option<Vec3>)
      modifies this
      ensures extents == old(extents)
      ensures curr == if old(curr).None? then None else RowMajor.Successor(extents.0, extents.1, old(curr).value)
      ensures r.None? <==> old(Remaining()) == []
      ensures r.Some? ==> r.value == old(Remaining())[0] && Remaining() == old(Remaining())[1..]
    {
      if curr.Some? {
        var p := curr.value;
        var c := if p.x < extents.1.x then Some(Point(p.x + 1, p.y))
          else if p.y < extents.1.y then Some(Point(extents.0.x, p.y + 1))
          else None;
        curr := c;
        r := Some(AxialToCube(p));
        var w := RowMajor.Walk(extents.0, extents.1, p);
        assert w[1..] == if c.None? then [] else RowMajor.Walk(extents.0, extents.1, c.value);
      } else {
        r := None;
      }
    }
  }

  /** `HexGrid` for `HashMap<Vec3, T>`: the cells of a hex grid by cube coordinate. */
  class HexGrid<T(==)> {
    var cells: map<Vec3, T>

    constructor (m: map<Vec3, T>)
      ensures cells == m
    {
      cells := m;
    }

    /** `get_value`: the value stored at `pos`, and None exactly for positions not in the map. */
    function GetValue(pos: Vec3): (r: Option<T>)
      reads this
      ensures r.Some? <==> pos in cells
      ensures r.Some? ==> r.value == cells[pos]
    {
      if pos in cells then Some(cells[pos]) else None
    }

    /** `set_value`: inserts or overwrites the cell at `pos` and leaves every other cell alone. */
    method SetValue(pos: Vec3, value: T)
      modifies this
      ensures GetValue(pos) == Some(value)
      ensures forall q :: q != pos ==> GetValue(q) == old(GetValue(q))
      ensures cells.Keys == old(cells.Keys) + {pos}
    {
      cells := cells[pos := value];
    }

    /** `points()`: iterates the axial extents. */
    method Points() returns (it: HexPointIterator)
      ensures fresh(it) && it.extents == AxialBox(cells) && it.Remaining() == Cubes(RowMajor.Walk(it.extents.0, it.extents.1, it.extents.0))
    {
      it := new HexPointIterator(AxialBox(cells));
    }

    /** `flip_horizontal`: mirrors every odd-r column inside the odd-r extents. */
    method FlipHorizontal()
      requires AllCubes(cells)
      modifies this
      ensures cells == HexFlippedHorizontal(old(cells))
    {
      var e := OddrBox(cells);
      FlipHInjective(cells, e);
      var r := Rekeyed(cells, c => FlipHKey(e, c));
      cells := r;
    }

    /** `flip_vertical`: mirrors every odd-r row inside the odd-r extents. */
    method FlipVertical()
      requires AllCubes(cells)
      modifies this
      ensures cells == HexFlippedVertical(old(cells))
    {
      var e := OddrBox(cells);
      FlipVInjective(cells, e);
      var r := Rekeyed(cells, c => FlipVKey(e, c));
      cells := r;
    }

    /** The loop the axis flips and rotations share: move every cell by `t` about the pivot. */
    method MoveAboutPivot(t: Turn)
      modifies this
      ensures cells == Turned(old(cells), t)
    {
      var pivot := Pivot(OddrBox(cells));
      TurnKeyInjective(cells, t, pivot);
      var r := Rekeyed(cells, c => TurnKey(t, pivot, c));
      cells := r;
    }

    /** `flip_x`: swaps the y and z offsets from the pivot. */
    method FlipX()
      modifies this
      ensures cells == Turned(old(cells), SwapYZ)
    {
      MoveAboutPivot(SwapYZ);
    }

    /** `flip_y`: swaps the x and z offsets from the pivot. */
    method FlipY()
      modifies this
      ensures cells == Turned(old(cells), SwapXZ)
    {
      MoveAboutPivot(SwapXZ);
    }

    /** `flip_z`: swaps the x and y offsets from the pivot. */
    method FlipZ()
      modifies this
      ensures cells == Turned(old(cells), SwapXY)
    {
      MoveAboutPivot(SwapXY);
    }

    method Rotate60Cw()
      modifies this
      ensures cells == Turned(old(cells), Rot60)
    {
      MoveAboutPivot(Rot60);
    }

    method Rotate120Cw()
      modifies this
      ensures cells == Turned(old(cells), Rot120)
    {
      MoveAboutPivot(Rot120);
    }

    method Rotate180Cw()
      modifies this
      ensures cells == Turned(old(cells), Rot180)
    {
      MoveAboutPivot(Rot180);
    }

    method Rotate240Cw()
      modifies this
      ensures cells == Turned(old(cells), Rot240)
    {
      MoveAboutPivot(Rot240);
    }

    method Rotate300Cw()
      modifies this
      ensures cells == Turned(old(cells), Rot300)
    {
      MoveAboutPivot(Rot300);
    }
  }
}
