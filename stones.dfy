/** Values shared by the board, the judge and the form: colours, moves, axes, verdicts. */
module Stones {

  /** Side length of the square board. */
  const BoardSize: int := 15

  /** Cell and stone colours. Black moves first; Empty is distinct from both colours. */
  const Black: int := 1
  const White: int := 0
  const Empty: int := -1

  predicate OnBoard(x: int, y: int) {
    0 <= x < BoardSize && 0 <= y < BoardSize
  }

  /** One entry of the move list: the cell played and the colour stamped on it. */
  datatype Move = Move(x: int, y: int, color: int)

  /** Colour of the mover when the stone counter reads `stoneCount`:
      1 (Black) for an odd count, 0 (White) for an even one. */
  function ColourOf(stoneCount: nat): (c: int)
    ensures c == Black || c == White
    ensures c == Black <==> stoneCount % 2 == 1
  {
    stoneCount % 2
  }

  /** The fouls the rule engine can name. Only `over5` is ever raised. */
  datatype FoulType = double3 | double4 | over5

  /** What judging the last move yields: the game goes on, the mover has won,
      or the move is a foul under professional rules. */
  datatype Judgement = Continue | Win | Foul(kind: FoulType)

  /** The four lines through a point. */
  datatype Axis = Horizontal | Vertical | Slash | BackSlash

  /** A unit step along one of the eight compass directions. */
  predicate Unit(dx: int, dy: int) {
    -1 <= dx <= 1 && -1 <= dy <= 1 && (dx != 0 || dy != 0)
  }

  /** The step each scanner takes first (its "negative" direction);
      the second half of the scan walks the opposite step. Every scanner
      first walks toward smaller x, or toward smaller y when x stays put. */
  function FirstStep(a: Axis): (d: (int, int))
    ensures Unit(d.0, d.1) && Unit(-d.0, -d.1)
    ensures d.0 == -1 || (d.0 == 0 && d.1 == -1)
  {
    match a
    case Horizontal => (-1, 0)
    case Vertical => (0, -1)
    case Slash => (-1, 1)
    case BackSlash => (-1, -1)
  }

  /** Number of on-board cells met when walking from (px, py) in direction
      (dx, dy), provided (px, py) is no further than one step off the board. */
  function Room(px: int, py: int, dx: int, dy: int): int {
    if dx == 1 then BoardSize - px
    else if dx == -1 then px + 1
    else if dy == 1 then BoardSize - py
    else py + 1
  }

  /** Largest of the four axis counts (`result.Max()` over a four-element array). */
  function Max4(a: int, b: int, c: int, d: int): (m: int)
    ensures m >= a && m >= b && m >= c && m >= d
    ensures m == a || m == b || m == c || m == d
  {
    var ab := if a >= b then a else b;
    var cd := if c >= d then c else d;
    if ab >= cd then ab else cd
  }
}
