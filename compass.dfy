/**
 * `DIRECTION_MAP` of aoc/src/lib.rs: the one- and two-letter compass names
 * (and the U/D/R/L keys of the arrow puzzles) mapped to unit steps on the
 * grid, y growing downwards. The twelve string keys are modelled by a
 * datatype with one constructor per key and `Name` giving its string. The
 * table as written sends "NE" to the north-west step; `Direction` is the
 * table with that entry corrected.
 */
module Compass {
  import opened Geometry

  datatype Key = U | D | R | L | N | S | E | W | NW | SW | NE | SE

  /** The string the source uses as the key. */
  function Name(k: Key): string {
    match k
    case U => "U"
    case D => "D"
    case R => "R"
    case L => "L"
    case N => "N"
    case S => "S"
    case E => "E"
    case W => "W"
    case NW => "NW"
    case SW => "SW"
    case NE => "NE"
    case SE => "SE"
  }

  /** The step of one letter: U and N go north, D and S south, R and E east, L and W west. */
  function LetterStep(c: char): Point {
    match c
    case 'U' => North
    case 'N' => North
    case 'D' => South
    case 'S' => South
    case 'R' => East
    case 'E' => East
    case 'L' => West
    case 'W' => West
    case _ => Point(0, 0)
  }

  /** The step a name of one or two letters spells out: the sum of the steps of its letters. */
  function Spelled(name: string): Point {
    if |name| == 1 then LetterStep(name[0])
    else if |name| == 2 then PointAdd(LetterStep(name[0]), LetterStep(name[1]))
    else Point(0, 0)
  }

  /** The table as the source builds it, with "NE" inserted as the north-west step. */
  function DirectionAsWritten(k: Key): (r: Point)
    ensures -1 <= r.x <= 1 && -1 <= r.y <= 1 && r != Point(0, 0)
  {
    match k
    case U => North
    case D => South
    case R => East
    case L => West
    case N => North
    case S => South
    case E => East
    case W => West
    case NW => NorthWest
    case SW => SouthWest
    case NE => NorthWest
    case SE => SouthEast
  }

  /** The table as written gives "NE" the step of "NW", which is not the step "NE" spells. */
  lemma NorthEastMisplaced()
    ensures DirectionAsWritten(NE) != Spelled(Name(NE))
    ensures DirectionAsWritten(NE) == DirectionAsWritten(NW)
  {
    assert Name(NE) == "NE";
    assert Spelled("NE") == NorthEast;
  }

  /** No key of the table as written reaches the north-east neighbour. */
  lemma NorthEastUnreached(k: Key)
    ensures DirectionAsWritten(k) != NorthEast
  {
  }

  /** The table with "NE" sent to the north-east step: every entry is the step its name spells. */
  function Direction(k: Key): (r: Point)
    ensures -1 <= r.x <= 1 && -1 <= r.y <= 1 && r != Point(0, 0)
  {
    match k
    case U => North
    case D => South
    case R => East
    case L => West
    case N => North
    case S => South
    case E => East
    case W => West
    case NW => NorthWest
    case SW => SouthWest
    case NE => NorthEast
    case SE => SouthEast
  }

  /** Every entry of the corrected table is the step its name spells. */
  lemma DirectionSpelled(k: Key)
    ensures Direction(k) == Spelled(Name(k))
  {
    if k.NW? || k.SW? || k.NE? || k.SE? {
      DiagonalSpelled(k);
    } else {
      StraightSpelled(k);
    }
  }

  /** The one-letter keys name the step of their letter. */
  lemma StraightSpelled(k: Key)
    requires !(k.NW? || k.SW? || k.NE? || k.SE?)
    ensures Direction(k) == Spelled(Name(k))
  {
    match k
    case U => assert Spelled("U") == North;
    case D => assert Spelled("D") == South;
    case R => assert Spelled("R") == East;
    case L => assert Spelled("L") == West;
    case N => assert Spelled("N") == North;
    case S => assert Spelled("S") == South;
    case E => assert Spelled("E") == East;
    case W => assert Spelled("W") == West;
  }

  /** The two-letter keys name the sum of their letters' steps. */
  lemma DiagonalSpelled(k: Key)
    requires k.NW? || k.SW? || k.NE? || k.SE?
    ensures Direction(k) == Spelled(Name(k))
  {
    match k
    case NW => assert Spelled("NW") == NorthWest;
    case SW => assert Spelled("SW") == SouthWest;
    case NE => assert Spelled("NE") == NorthEast;
    case SE => assert Spelled("SE") == SouthEast;
  }

  /** The table as written agrees with the corrected one on every key but "NE". */
  lemma AsWrittenAgreesElsewhere(k: Key)
    requires k != NE
    ensures DirectionAsWritten(k) == Direction(k)
  {
  }

  /** The corrected compass names N, NE, E, SE, S, SW, W, NW reach the eight neighbours in `DIRECTIONS_INCL_DIAGONALS` order. */
  lemma DirectionCoversNeighbours()
    ensures [Direction(N), Direction(NE), Direction(E), Direction(SE),
             Direction(S), Direction(SW), Direction(W), Direction(NW)] == DirectionsInclDiagonals
  {
  }
}
