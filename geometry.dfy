/**
 * Integer coordinates (`Point` = `[i64; 2]`, `Vec3` = `[i64; 3]` in aoc/src/lib.rs),
 * the compass constants and Rust's integer division. Integers are unbounded:
 * i64 overflow is not modelled.
 */
module Geometry {

  datatype Point = Point(x: int, y: int)

  /** A cube coordinate of a hex cell; a valid cell has x + y + z == 0. */
  datatype Vec3 = Vec3(x: int, y: int, z: int)

  function PointAdd(a: Point, b: Point): Point { Point(a.x + b.x, a.y + b.y) }
  function PointSub(a: Point, b: Point): Point { Point(a.x - b.x, a.y - b.y) }
  function VecAdd(a: Vec3, b: Vec3): Vec3 { Vec3(a.x + b.x, a.y + b.y, a.z + b.z) }
  function VecSub(a: Vec3, b: Vec3): Vec3 { Vec3(a.x - b.x, a.y - b.y, a.z - b.z) }

  const North := Point(0, -1)
  const NorthEast := Point(1, -1)
  const East := Point(1, 0)
  const SouthEast := Point(1, 1)
  const South := Point(0, 1)
  const SouthWest := Point(-1, 1)
  const West := Point(-1, 0)
  const NorthWest := Point(-1, -1)

  /** `DIRECTIONS`: the four orthogonal neighbours, in the source's order. */
  const Directions: seq<Point> := [North, East, South, West]
  /** `DIRECTIONS_INCL_DIAGONALS`: all eight neighbours, clockwise from north. */
  const DirectionsInclDiagonals: seq<Point> :=
    [North, NorthEast, East, SouthEast, South, SouthWest, West, NorthWest]

  /** Inclusive bounding-box membership: lo <= p <= hi on both axes. */
  predicate InBox(p: Point, lo: Point, hi: Point) {
    lo.x <= p.x <= hi.x && lo.y <= p.y <= hi.y
  }

  function Abs(n: int): nat { if n < 0 then -n else n }
  function Min(a: int, b: int): int { if a <= b then a else b }
  function Max(a: int, b: int): int { if a >= b then a else b }

  /** Rust's `/` on signed integers: the quotient rounded toward zero. */
  function TruncDiv(a: int, b: int): int
    requires b != 0
  {
    var q := Abs(a) / Abs(b);
    if (a < 0) == (b < 0) then q else -q
  }

  /** Rust's `%` on signed integers: the remainder takes the dividend's sign. */
  function TruncRem(a: int, b: int): int
    requires b != 0
  {
    if a < 0 then -((-a) % Abs(b)) else a % Abs(b)
  }

  /** Rust's `rem_euclid`: the remainder in [0, |b|), which is Dafny's own `%`. */
  function RemEuclid(a: int, b: int): int
    requires b != 0
  {
    a % b
  }

  /** Truncating division and remainder recombine to the dividend, and the remainder is smaller than the divisor. */
  lemma TruncDivRem(a: int, b: int)
    requires b != 0
    ensures a == b * TruncDiv(a, b) + TruncRem(a, b)
    ensures Abs(TruncRem(a, b)) < Abs(b)
    ensures a >= 0 ==> TruncRem(a, b) >= 0
    ensures a < 0 ==> TruncRem(a, b) <= 0
  {
    SignedDivision(a, b, Abs(a) / Abs(b), Abs(a) % Abs(b));
  }

  /** Division of magnitudes carries over to signed operands when the signs are put back. */
  lemma SignedDivision(a: int, b: int, q: int, r: int)
    requires b != 0
    requires Abs(a) == Abs(b) * q + r
    ensures a == b * (if (a < 0) == (b < 0) then q else -q) + (if a < 0 then -r else r)
  {
    if a < 0 && b < 0 {
      assert a == b * q - r;
    } else if a < 0 {
      assert a == b * -q - r;
    } else if b < 0 {
      assert a == b * -q + r;
    }
  }
}
