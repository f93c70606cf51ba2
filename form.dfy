/** The window's game logic: mapping a click's pixel coordinate to a board
    line, and the gating of placing, judging and retracting stones around
    the board. Drawing and dialogs are not modelled. */
module Form {
  import opened Stones
  import opened Cells
  import opened Judging
  import opened GameBoard

  // Pixel geometry. Lines are 60 pixels apart (twice the radius of 30 the
  // form reserves per cell); a click selects a line when it lands within the
  // sensing radius of 20 of that line's stone centre, so between 10 and 50
  // pixels into the line's 60-pixel band. The numbers are written out so that
  // all arithmetic stays linear.

  /** Integer division as the form's language performs it: truncated toward zero. */
  function TruncDiv(a: int, b: int): (q: int)
    requires b > 0
    ensures a >= 0 ==> q == a / b
    ensures a < 0 ==> q <= 0
  {
    if a >= 0 then a / b else -((-a) / b)
  }

  /** Pixel at which the stone of line i is drawn. The stone of every line
      of the board, with its drawing radius of 25, lies inside the
      900-pixel board square. */
  function StoneCentre(i: int): (p: int)
    ensures 0 <= i < BoardSize ==> 0 <= p - 25 && p + 25 < 900
  {
    30 + i * 60
  }

  /** Line selected by a click at pixel coordinate p, or -1 when p lies
      outside every line's sensing range. */
  function CalculateAxis(p: int): (i: int)
    ensures i == -1 || (0 <= i && i == p / 60)
    ensures i != -1 ==> StoneCentre(i) - 20 <= p <= StoneCentre(i) + 20
  {
    var i := TruncDiv(p, 60);
    if i * 60 + 30 - 20 <= p && p <= i * 60 + 30 + 20 then i else -1
  }

  /** A click selects line i exactly when it is within the sensing radius of
      the pixel where line i's stone is drawn. */
  lemma AxisWithinSensingRadius(p: int, i: int)
    requires i >= 0
    ensures CalculateAxis(p) == i <==> StoneCentre(i) - 20 <= p <= StoneCentre(i) + 20
  {
    if StoneCentre(i) - 20 <= p <= StoneCentre(i) + 20 {
      assert 60 * i <= p < 60 * (i + 1);
      assert p / 60 == i;
    }
  }

  /** The centre of a drawn stone maps back to its line. */
  lemma AxisOfStoneCentre(i: int)
    requires i >= 0
    ensures CalculateAxis(StoneCentre(i)) == i
  {
    AxisWithinSensingRadius(StoneCentre(i), i);
  }

  /** Negative pixels and pixels in the gaps between sensing ranges select no line. */
  lemma AxisMissesGaps(p: int)
    requires p < 0 || p % 60 < 10 || p % 60 > 50
    ensures CalculateAxis(p) == -1
  {
  }

  /** On the 900-pixel board square a click selects a line from 0 to 14 or none. */
  lemma AxisOnBoardSquare(p: int)
    requires 0 <= p < 900
    ensures -1 <= CalculateAxis(p) < BoardSize
  {
  }

  /** Past the board square, pixels 910 to 950 select line 15, which has no cells. */
  lemma AxisPastBoardSquare(p: int)
    requires 910 <= p <= 950
    ensures CalculateAxis(p) == BoardSize
  {
    AxisWithinSensingRadius(p, BoardSize);
  }

  /** The left-click test as the form writes it: the game is not over and
      both selected lines are positive. */
  predicate LeftClickAccepted(gameOver: bool, x: int, y: int): (ok: bool)
    ensures ok ==> !gameOver && x != -1 && y != -1
    ensures x == 0 || y == 0 ==> !ok
  {
    !gameOver && x > 0 && y > 0
  }

  /** The test evidently intended: the game is not over and both coordinates
      name a line of the board (-1 meaning none). */
  predicate IntendedLeftClickAccepted(gameOver: bool, x: int, y: int) {
    !gameOver && OnBoard(x, y)
  }

  /** As written, a click on any cell of column 0 or row 0 — even on the
      centre of its drawn stone — is refused. */
  lemma EdgeLinesRefused(py: int, gameOver: bool)
    ensures !LeftClickAccepted(gameOver, CalculateAxis(StoneCentre(0)), CalculateAxis(py))
    ensures !LeftClickAccepted(gameOver, CalculateAxis(py), CalculateAxis(StoneCentre(0)))
  {
    AxisOfStoneCentre(0);
  }

  /** On the lines a click inside the board square can select (-1 to 14),
      the written test accepts exactly what the intended test accepts off
      row 0 and column 0. */
  lemma WrittenGateMissesEdgeLines(gameOver: bool, x: int, y: int)
    requires -1 <= x < BoardSize && -1 <= y < BoardSize
    ensures LeftClickAccepted(gameOver, x, y) <==> IntendedLeftClickAccepted(gameOver, x, y) && x != 0 && y != 0
  {
  }

  /** With the intended test every cell is reachable by clicking the centre
      of its stone, and an accepted click always names a cell of the board. */
  lemma IntendedClickReachesEveryCell(i: int, j: int, px: int, py: int)
    requires OnBoard(i, j)
    ensures IntendedLeftClickAccepted(false, CalculateAxis(StoneCentre(i)), CalculateAxis(StoneCentre(j)))
    ensures IntendedLeftClickAccepted(false, CalculateAxis(px), CalculateAxis(py)) ==>
              OnBoard(CalculateAxis(px), CalculateAxis(py))
  {
    AxisOfStoneCentre(i);
    AxisOfStoneCentre(j);
  }

  datatype Button = Left | Right | Middle

  /** What a mouse release did. Placed carries the judge's verdict on the new
      stone; Occupied is a left click on a cell already played. OutOfRange is
      a left click that passed the test on a line past the board's last one:
      Drop then indexes outside the grid and raises an exception that the
      handler does not catch, before anything has changed. */
  datatype ClickOutcome = Ignored | Occupied | Placed(verdict: Judgement) | Retracted | OutOfRange

  /** Placing the mover's stone on cell (x, y) and judging it, given the
      moves and game-over flag before it and the moves and flag after it: a
      played cell gives Occupied; otherwise the stone is appended, judged,
      and a win ends the game. */
  ghost predicate PlaceEffect(before: seq<Move>, overBefore: bool, x: int, y: int,
                              outcome: ClickOutcome, after: seq<Move>, pro: bool, overAfter: bool)
  {
    if Played(before, x, y) then
      outcome == Occupied && after == before && overAfter == overBefore
    else
      after == before + [Move(x, y, ColourOf(|before| + 1))] &&
      outcome == Placed(Verdict(after, pro)) && overAfter == (Verdict(after, pro) == Win)
  }

  /** What a left click on lines (x, y) does when the click test gave
      `accepted`: nothing when refused; OutOfRange, with nothing changed, when
      accepted on lines that name no cell; otherwise the placing of a stone. */
  ghost predicate LeftClickEffect(accepted: bool, before: seq<Move>, overBefore: bool, x: int, y: int,
                                  outcome: ClickOutcome, after: seq<Move>, pro: bool, overAfter: bool)
  {
    if !accepted then
      outcome == Ignored && after == before && overAfter == overBefore
    else if !OnBoard(x, y) then
      outcome == OutOfRange && after == before && overAfter == overBefore
    else
      PlaceEffect(before, overBefore, x, y, outcome, after, pro, overAfter)
  }

  /** What a right click on lines (x, y) does: the last move is retracted
      exactly when it was played on (x, y). */
  ghost predicate RightClickEffect(before: seq<Move>, x: int, y: int, outcome: ClickOutcome, after: seq<Move>)
  {
    if |before| > 0 && before[|before| - 1].x == x && before[|before| - 1].y == y then
      outcome == Retracted && after == before[..|before| - 1]
    else
      outcome == Ignored && after == before
  }

  class GameForm {
    var game: Board

    ghost predicate Valid()
      reads this, game, game.board
    {
      game.Valid()
    }

    constructor ()
      ensures Valid() && fresh(game) && fresh(game.board)
      ensures game.Moves == [] && !game.IsGameOver && !game.IsProGame
    {
      game := new Board();
    }

    /** Mouse release. Left: place a stone on the selected cell when the game
        is not over and both selected lines are positive, then judge it; a win
        ends the game, a foul leaves the stone and play goes on. A click within
        the sensing radius of line 0 is refused. Right: retract the last move
        when the click selects its cell, even after the game is over. */
    method MouseUp(button: Button, px: int, py: int) returns (outcome: ClickOutcome)
      requires Valid()
      modifies game, game.board
      ensures Valid() && game.board == old(game.board)
      ensures game.IsProGame == old(game.IsProGame)
      ensures old(game.IsGameOver) ==> game.IsGameOver
      ensures button == Left ==>
                LeftClickEffect(LeftClickAccepted(old(game.IsGameOver), CalculateAxis(px), CalculateAxis(py)),
                                old(game.Moves), old(game.IsGameOver), CalculateAxis(px), CalculateAxis(py),
                                outcome, game.Moves, game.IsProGame, game.IsGameOver)
      ensures button == Left && (10 <= px <= 50 || 10 <= py <= 50) ==>
                outcome == Ignored && game.Moves == old(game.Moves)
      ensures button == Right ==> RightClickEffect(old(game.Moves), CalculateAxis(px), CalculateAxis(py), outcome, game.Moves)
      ensures button == Right || button == Middle ==> game.IsGameOver == old(game.IsGameOver)
      ensures button == Middle ==> outcome == Ignored && game.Moves == old(game.Moves)
    {
      var x := CalculateAxis(px);
      var y := CalculateAxis(py);
      if button == Left {
        AxisWithinSensingRadius(px, 0);
        AxisWithinSensingRadius(py, 0);
        outcome := LeftClick(x, y);
      } else if button == Right {
        outcome := RightClick(x, y);
      } else {
        outcome := Ignored;
      }
    }

    /** The left-button half of a mouse release, on the selected lines x and
        y, with the click test as written: row 0 and column 0 are refused, and
        a line past the board's last one passes the test. */
    method LeftClick(x: int, y: int) returns (outcome: ClickOutcome)
      requires Valid()
      modifies game, game.board
      ensures Valid() && game.board == old(game.board)
      ensures game.IsProGame == old(game.IsProGame)
      ensures old(game.IsGameOver) ==> game.IsGameOver
      ensures LeftClickEffect(LeftClickAccepted(old(game.IsGameOver), x, y), old(game.Moves), old(game.IsGameOver),
                              x, y, outcome, game.Moves, game.IsProGame, game.IsGameOver)
      ensures x == 0 || y == 0 ==> outcome == Ignored && game.Moves == old(game.Moves)
    {
      outcome := Ignored;
      if LeftClickAccepted(game.IsGameOver, x, y) {
        if OnBoard(x, y) {
          outcome := PlaceAndJudge(x, y);
        } else {
          outcome := OutOfRange;
        }
      }
    }

    /** The left-button half with the evidently intended click test: every
        cell of the board can be played, and no click reaches past the grid. */
    method IntendedLeftClick(x: int, y: int) returns (outcome: ClickOutcome)
      requires Valid()
      modifies game, game.board
      ensures Valid() && game.board == old(game.board)
      ensures game.IsProGame == old(game.IsProGame)
      ensures old(game.IsGameOver) ==> game.IsGameOver
      ensures LeftClickEffect(IntendedLeftClickAccepted(old(game.IsGameOver), x, y), old(game.Moves), old(game.IsGameOver),
                              x, y, outcome, game.Moves, game.IsProGame, game.IsGameOver)
      ensures outcome != OutOfRange
    {
      outcome := Ignored;
      if IntendedLeftClickAccepted(game.IsGameOver, x, y) {
        outcome := PlaceAndJudge(x, y);
      }
    }

    /** Drop the mover's stone on (x, y) of a game still going on and judge
        it; a win ends the game. */
    method PlaceAndJudge(x: int, y: int) returns (outcome: ClickOutcome)
      requires Valid() && OnBoard(x, y) && !game.IsGameOver
      modifies game, game.board
      ensures Valid() && game.board == old(game.board)
      ensures game.IsProGame == old(game.IsProGame)
      ensures outcome != OutOfRange
      ensures PlaceEffect(old(game.Moves), old(game.IsGameOver), x, y, outcome, game.Moves, game.IsProGame, game.IsGameOver)
    {
      var dropped := game.Drop(x, y);
      if dropped {
        var verdict := game.Judge();
        if verdict == Win {
          game.SetIsGameOver(true);
        }
        outcome := Placed(verdict);
      } else {
        outcome := Occupied;
      }
    }

    /** The right-button half of a mouse release: retract the last move when
        (x, y) is its cell. The game-over flag is left as it is. */
    method RightClick(x: int, y: int) returns (outcome: ClickOutcome)
      requires Valid()
      modifies game, game.board
      ensures Valid() && game.board == old(game.board)
      ensures game.IsProGame == old(game.IsProGame) && game.IsGameOver == old(game.IsGameOver)
      ensures RightClickEffect(old(game.Moves), x, y, outcome, game.Moves)
    {
      outcome := Ignored;
      if |game.Moves| > 0 {
        var lastMove := game.Moves[|game.Moves| - 1];
        if x == lastMove.x && y == lastMove.y && game.CurrentMoveColor() == lastMove.color {
          game.RemoveLastMove();
          outcome := Retracted;
        }
      }
    }

    /** Retract the last move from the menu or hot key: only while the game
        is not over and some stone is on the board; otherwise nothing changes. */
    method Regret()
      requires Valid()
      modifies game, game.board
      ensures Valid() && game.board == old(game.board)
      ensures game.IsGameOver == old(game.IsGameOver) && game.IsProGame == old(game.IsProGame)
      ensures if !old(game.IsGameOver) && old(game.StoneCount) > 0
              then game.Moves == old(game.Moves)[..old(game.StoneCount) - 1]
              else game.Moves == old(game.Moves)
    {
      if !game.IsGameOver && game.StoneCount > 0 {
        game.RemoveLastMove();
      }
    }
  }
}
