/** The game board: a 15 × 15 grid of cell colours, the list of moves played,
    the stone counter and the two game flags, updated in place by placing and
    retracting stones, and the line scanners and judge that read them. */
module GameBoard {
  import opened Stones
  import opened Cells
  import opened Scan
  import opened Judging

  class Board {
    /** Cell colours, indexed [x, y]. */
    var board: array2<int>
    /** Number of stones on the board. */
    var StoneCount: nat
    var IsGameOver: bool
    /** Professional rules: fouls apply to Black. */
    var IsProGame: bool
    /** Moves in play order; each records its cell and the colour stamped on it. */
    var Moves: seq<Move>

    /** The counter matches the move list, the move list is well formed and
        the grid shows exactly the cells the move list determines. */
    ghost predicate Valid()
      reads this, board
    {
      && GridShowsMoves()
      && StoneCount == |Moves|
      && WellFormed(Moves)
    }

    /** The grid holds, on every cell, the colour the move list determines. */
    ghost predicate GridShowsMoves()
      reads this, board
    {
      && board.Length0 == BoardSize && board.Length1 == BoardSize
      && forall i, j :: 0 <= i < BoardSize && 0 <= j < BoardSize ==> board[i, j] == Cell(Moves, i, j)
    }

    /** A new board: every cell empty, no moves, casual rules. */
    constructor ()
      ensures Valid() && fresh(board)
      ensures Moves == [] && StoneCount == 0 && !IsGameOver && !IsProGame
    {
      var grid := new int[BoardSize, BoardSize];
      var i := 0;
      while i < BoardSize
        invariant 0 <= i <= BoardSize
        invariant forall p, q :: 0 <= p < i && 0 <= q < BoardSize ==> grid[p, q] == Empty
      {
        var j := 0;
        while j < BoardSize
          invariant 0 <= j <= BoardSize
          invariant forall p, q :: 0 <= p < i && 0 <= q < BoardSize ==> grid[p, q] == Empty
          invariant forall q :: 0 <= q < j ==> grid[i, q] == Empty
        {
          grid[i, j] := Empty;
          j := j + 1;
        }
        i := i + 1;
      }
      board := grid;
      StoneCount := 0;
      IsProGame := false;
      IsGameOver := false;
      Moves := [];
    }

    /** Colour of the mover by the stone counter: Black (1) after an odd
        number of stones, White (0) after an even one. After a placement this
        is the colour of the stone just played. */
    function CurrentMoveColor(): (c: int)
      reads this, board
      ensures c == Black || c == White
      ensures Valid() && StoneCount > 0 ==> c == Moves[StoneCount - 1].color
    {
      ColourOf(StoneCount)
    }

    /** Setter of the game-over flag; nothing else changes. */
    method SetIsGameOver(value: bool)
      requires Valid()
      modifies this
      ensures Valid() && IsGameOver == value && board == old(board)
      ensures Moves == old(Moves) && StoneCount == old(StoneCount) && IsProGame == old(IsProGame)
    {
      IsGameOver := value;
    }

    /** Places the mover's stone on (x, y) when that cell is empty; otherwise
        changes nothing. The stone gets the colour of the incremented counter. */
    method Drop(x: int, y: int) returns (dropped: bool)
      requires Valid() && OnBoard(x, y)
      modifies this, board
      ensures Valid() && board == old(board)
      ensures IsGameOver == old(IsGameOver) && IsProGame == old(IsProGame)
      ensures dropped <==> !old(Played(Moves, x, y))
      ensures dropped ==> Moves == old(Moves) + [Move(x, y, ColourOf(old(StoneCount) + 1))]
      ensures !dropped ==> Moves == old(Moves)
      ensures forall i, j :: 0 <= i < BoardSize && 0 <= j < BoardSize ==>
                board[i, j] == if dropped && i == x && j == y then ColourOf(old(StoneCount) + 1) else old(board[i, j])
    {
      CellEmptyIff(Moves, x, y);
      if board[x, y] == Empty {
        InsertMove(x, y);
        return true;
      }
      return false;
    }

    /** Counts the stone, then records and paints it in the new mover's colour. */
    method InsertMove(x: int, y: int)
      requires Valid() && OnBoard(x, y) && board[x, y] == Empty
      modifies this, board
      ensures Valid() && board == old(board)
      ensures IsGameOver == old(IsGameOver) && IsProGame == old(IsProGame)
      ensures StoneCount == old(StoneCount) + 1
      ensures Moves == old(Moves) + [Move(x, y, ColourOf(StoneCount))]
      ensures forall i, j :: 0 <= i < BoardSize && 0 <= j < BoardSize ==>
                board[i, j] == if i == x && j == y then ColourOf(StoneCount) else old(board[i, j])
    {
      ghost var before := Moves;
      CellEmptyIff(before, x, y);
      StoneCount := StoneCount + 1;
      var data := Move(x, y, CurrentMoveColor());
      Moves := Moves + [data];
      board[x, y] := CurrentMoveColor();
      assert Moves[..|Moves| - 1] == before;
      assert DistinctCells(Moves) by {
        forall k | 0 <= k < |before| ensures before[k].x != x || before[k].y != y {
          assert !(before[k].x == x && before[k].y == y);
        }
      }
    }

    /** Retracts the last move: its cell becomes empty, it leaves the list and
        the counter goes down by one. */
    method RemoveLastMove()
      requires Valid() && StoneCount > 0
      modifies this, board
      ensures Valid() && board == old(board)
      ensures IsGameOver == old(IsGameOver) && IsProGame == old(IsProGame)
      ensures StoneCount == old(StoneCount) - 1
      ensures Moves == old(Moves)[..old(StoneCount) - 1]
      ensures var last := old(Moves)[old(StoneCount) - 1];
              forall i, j :: 0 <= i < BoardSize && 0 <= j < BoardSize ==>
                board[i, j] == if i == last.x && j == last.y then Empty else old(board[i, j])
    {
      var last := Moves[StoneCount - 1];
      ghost var before := Moves;
      board[last.x, last.y] := Empty;
      Moves := Moves[..StoneCount - 1];
      StoneCount := StoneCount - 1;
      PrefixWellFormed(before, |Moves|);
      assert !Played(Moves, last.x, last.y) by {
        forall k | 0 <= k < |Moves| ensures Moves[k].x != last.x || Moves[k].y != last.y {
          assert Moves[k] == before[k];
        }
      }
      CellEmptyIff(Moves, last.x, last.y);
    }

    /** One half of a scan: steps from (x, y) in direction (dx, dy), counting
        stones of the mover's colour and stepping over empty cells while the
        break counter is below the limit; stops at the edge, at the other
        colour, or at an empty cell once the budget is spent. */
    method WalkRay(x: int, y: int, dx: int, dy: int, countBreak: int, countBreakLimit: int)
      returns (count: nat, breaks: int)
      requires GridShowsMoves() && Unit(dx, dy)
      ensures Walked(count, breaks) == Walk(HalfLine(Moves, x, y, dx, dy), CurrentMoveColor(), countBreak, countBreakLimit)
    {
      ghost var c := CurrentMoveColor();
      ghost var whole := HalfLine(Moves, x, y, dx, dy);
      var tempX, tempY := x, y;
      count, breaks := 0, countBreak;
      while true
        invariant var rest := Walk(HalfLine(Moves, tempX, tempY, dx, dy), c, breaks, countBreakLimit);
                  Walk(whole, c, countBreak, countBreakLimit) == Walked(count + rest.count, rest.breaks)
        decreases if OnBoard(tempX + dx, tempY + dy) then Room(tempX + dx, tempY + dy, dx, dy) else 0
      {
        WalkOneStep(Moves, tempX, tempY, dx, dy, c, breaks, countBreakLimit);
        tempX, tempY := tempX + dx, tempY + dy;
        if !OnBoard(tempX, tempY) {
          break;
        }
        assert board[tempX, tempY] == Cell(Moves, tempX, tempY);
        if board[tempX, tempY] == CurrentMoveColor() {
          count := count + 1;
        } else if board[tempX, tempY] == Empty {
          if breaks < countBreakLimit {
            breaks := breaks + 1;
          } else {
            break;
          }
        } else {
          break;
        }
      }
    }

    /** A full scan through (x, y): the anchor, the walk in direction
        (dx, dy), then the walk back the other way continuing with the break
        counter the first walk left. */
    method CountAxis(dx: int, dy: int, x: int, y: int, countBreak: int, countBreakLimit: int) returns (count: int)
      requires Valid() && Unit(dx, dy)
      ensures count == BothWays(HalfLine(Moves, x, y, dx, dy), HalfLine(Moves, x, y, -dx, -dy),
                                CurrentMoveColor(), countBreak, countBreakLimit)
    {
      count := 1;
      var first, breaks := WalkRay(x, y, dx, dy, countBreak, countBreakLimit);
      count := count + first;
      var second, _ := WalkRay(x, y, -dx, -dy, breaks, countBreakLimit);
      count := count + second;
    }

    /** Run of the mover's colour through (x, y) along the row (x varies). */
    method CountHorizontalWithBreaks(x: int, y: int, countBreak: int, countBreakLimit: int) returns (count: int)
      requires Valid() && OnBoard(x, y)
      ensures count == Run(Moves, Horizontal, x, y, CurrentMoveColor(), countBreak, countBreakLimit)
      ensures 1 <= count <= BoardSize
    {
      var d := FirstStep(Horizontal);
      count := CountAxis(d.0, d.1, x, y, countBreak, countBreakLimit);
      RunBounds(Moves, Horizontal, x, y, CurrentMoveColor(), countBreak, countBreakLimit);
    }

    /** Run of the mover's colour through (x, y) along the column (y varies). */
    method CountVerticalWithBreaks(x: int, y: int, countBreak: int, countBreakLimit: int) returns (count: int)
      requires Valid() && OnBoard(x, y)
      ensures count == Run(Moves, Vertical, x, y, CurrentMoveColor(), countBreak, countBreakLimit)
      ensures 1 <= count <= BoardSize
    {
      var d := FirstStep(Vertical);
      count := CountAxis(d.0, d.1, x, y, countBreak, countBreakLimit);
      RunBounds(Moves, Vertical, x, y, CurrentMoveColor(), countBreak, countBreakLimit);
    }

    /** Run of the mover's colour through (x, y) along the diagonal on which x + y is fixed. */
    method CountSlashWithBreaks(x: int, y: int, countBreak: int, countBreakLimit: int) returns (count: int)
      requires Valid() && OnBoard(x, y)
      ensures count == Run(Moves, Slash, x, y, CurrentMoveColor(), countBreak, countBreakLimit)
      ensures 1 <= count <= BoardSize
    {
      var d := FirstStep(Slash);
      count := CountAxis(d.0, d.1, x, y, countBreak, countBreakLimit);
      RunBounds(Moves, Slash, x, y, CurrentMoveColor(), countBreak, countBreakLimit);
    }

    /** Run of the mover's colour through (x, y) along the diagonal on which x - y is fixed. */
    method CountBackSlashWithBreaks(x: int, y: int, countBreak: int, countBreakLimit: int) returns (count: int)
      requires Valid() && OnBoard(x, y)
      ensures count == Run(Moves, BackSlash, x, y, CurrentMoveColor(), countBreak, countBreakLimit)
      ensures 1 <= count <= BoardSize
    {
      var d := FirstStep(BackSlash);
      count := CountAxis(d.0, d.1, x, y, countBreak, countBreakLimit);
      RunBounds(Moves, BackSlash, x, y, CurrentMoveColor(), countBreak, countBreakLimit);
    }

    /** The plain row scan: no empty cell may be stepped over. */
    method CountHorizontal(x: int, y: int) returns (count: int)
      requires Valid() && OnBoard(x, y)
      ensures count == Run(Moves, Horizontal, x, y, CurrentMoveColor(), 0, 0)
      ensures 1 <= count <= BoardSize
    {
      count := CountHorizontalWithBreaks(x, y, 0, 0);
    }

    /** The plain column scan. */
    method CountVertical(x: int, y: int) returns (count: int)
      requires Valid() && OnBoard(x, y)
      ensures count == Run(Moves, Vertical, x, y, CurrentMoveColor(), 0, 0)
      ensures 1 <= count <= BoardSize
    {
      count := CountVerticalWithBreaks(x, y, 0, 0);
    }

    /** The plain scan of the x + y diagonal. */
    method CountSlash(x: int, y: int) returns (count: int)
      requires Valid() && OnBoard(x, y)
      ensures count == Run(Moves, Slash, x, y, CurrentMoveColor(), 0, 0)
      ensures 1 <= count <= BoardSize
    {
      count := CountSlashWithBreaks(x, y, 0, 0);
    }

    /** The plain scan of the x - y diagonal. */
    method CountBackSlash(x: int, y: int) returns (count: int)
      requires Valid() && OnBoard(x, y)
      ensures count == Run(Moves, BackSlash, x, y, CurrentMoveColor(), 0, 0)
      ensures 1 <= count <= BoardSize
    {
      count := CountBackSlashWithBreaks(x, y, 0, 0);
    }

    /** Judges the last move without changing anything: Continue before the
        ninth move, otherwise the scan verdict in the last mover's colour;
        the early exit agrees with what a full scan would say. */
    method Judge() returns (verdict: Judgement)
      requires Valid()
      ensures verdict == Verdict(Moves, IsProGame)
      ensures |Moves| > 0 ==> verdict == ScanVerdict(Moves, IsProGame)
    {
      if |Moves| < MinMovesToJudge {
        if |Moves| > 0 {
          EarlyExitHidesNothing(Moves, IsProGame);
        }
        return Continue;
      }
      var last := Moves[|Moves| - 1];
      var x, y := last.x, last.y;
      var colour := CurrentMoveColor();
      assert colour == ColourOf(|Moves|);
      var horizontal := CountHorizontal(x, y);
      var vertical := CountVertical(x, y);
      var slash := CountSlash(x, y);
      var backSlash := CountBackSlash(x, y);
      VerdictOfRuns(Moves, IsProGame, x, y, colour, horizontal, vertical, slash, backSlash);
      var result := new int[4];
      result[0], result[1], result[2], result[3] := horizontal, vertical, slash, backSlash;
      var longest := Max4(result[0], result[1], result[2], result[3]);
      assert longest == Max4(horizontal, vertical, slash, backSlash);
      if IsProGame && colour == Black {
        if longest > 5 {
          return Foul(over5);
        }
        // an exact five falls through to Continue
      } else {
        return if longest >= 5 then Win else Continue;
      }
      return Continue;
    }
  }

  /** Placing a stone on an empty cell and retracting it restores the board,
      the move list and the counter exactly. */
  method DropUndoRoundTrip(b: Board, x: int, y: int) returns (dropped: bool)
    requires b.Valid() && OnBoard(x, y)
    modifies b, b.board
    ensures b.Valid() && b.board == old(b.board)
    ensures b.Moves == old(b.Moves) && b.StoneCount == old(b.StoneCount)
    ensures forall i, j :: 0 <= i < BoardSize && 0 <= j < BoardSize ==> b.board[i, j] == old(b.board[i, j])
  {
    dropped := b.Drop(x, y);
    if dropped {
      b.RemoveLastMove();
    }
  }
}
