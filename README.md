# FiveInRow rule engine in Dafny

This project models the game core of FiveInRow, a two-player Gomoku program
on a 15 × 15 board. Black moves first and the players alternate. Five or
more stones in a row along one of four axes wins. Under professional rules a
Black move that makes six or more in a row is an overline foul.

The model covers three things:

- **The `Board` class.** It keeps a grid of cell colours, the list of moves
  played, a stone counter, and two flags: game over and professional rules.
  `Drop` places the mover's stone on an empty cell. `RemoveLastMove`
  retracts the last move. Four line scanners count the mover's run through a
  point; each walks one way, then the other, and may step over a shared
  budget of empty cells. `Judge` classifies the last move.
- **The form's pixel mapping.** A click at a pixel selects a board line, or
  none.
- **The form's gating of clicks.** This covers the left click that places
  and judges a stone, the right click that retracts it, and the Regret
  command.

The model is written in Dafny and proved by its verifier.

Modules:

- `Stones`: board size and colours (Black = 1, White = 0, Empty = -1), the
  turn colour `ColourOf`, the move record, the four axes, and the verdict
  datatype `Judgement = Continue | Win | Foul(kind)`.
- `Cells`: the board as a function of the move list. `Cell(moves, i, j)` is
  the colour of the latest move on (i, j). The module also defines what a
  well-formed move list is: colours alternate, all moves are on the board,
  and no cell is played twice.
- `Scan`: the scanners as specification functions. `Line` is the cells met
  walking to the edge. `Walk` is one directional walk with the break budget.
  `HalfLine` is the line starting next to the anchor. `Run` is the anchor
  plus the walks over both half-lines of an axis, sharing the budget. The
  module holds the lemmas about them.
- `Judging`: the verdict `Verdict(moves, pro)` and its characterisations.
  The module `JudgingExample` checks them on a concrete nine-move game.
- `GameBoard`: the `Board` class over an `array2<int>`. Its invariant
  `Valid()` says the counter equals the length of the move list, the move
  list is well formed, and every cell of the grid equals `Cell(Moves, i, j)`.
  Each scanner is a `while` loop proved equal to `Walk` over a half-line.
  `Judge` is proved equal to `Verdict`.
- `Form`: `CalculateAxis` and the form class `GameForm`, which holds the
  board and the mouse and Regret handlers. `MouseUp` applies the left-click
  test as written. `IntendedLeftClick` is the handler with the corrected
  test of Findings below.

The professional rules the code implements differ from Renju-style rules,
which let Black win with an exact five and add a double-four foul. The model
follows the code:

- **Exact five under professional rules.** In the code, the empty
  `else` at FiveInRow/Board.cs:149-152 falls through to `return false`. So
  Black never wins a professional game. `Judging.WinIff` and
  `JudgingExample.ExactFiveVerdicts` state this.
- **Double-four foul.** The code declares `double3` and `double4` (FiveInRow/Board.cs:511-516) but
  never produces them. `Judging.FoulIff` proves that the only foul produced
  is `over5`.

## Model

| member | source | states |
|---|---|---|
| Stones.ColourOf | FiveInRow/Board.cs:28-33 | The turn colour derived from the counter is Black or White. It is Black exactly when the counter is odd. |
| Stones.FirstStep | FiveInRow/Board.cs:176-178 | Each scanner's first step is a unit step whose opposite is one too. It goes toward smaller x, or toward smaller y when x stays put, as the first loops of the four scanners do (Board.cs:176-178, 258-260, 337-340, 419-422). |
| Stones.Max4 | FiveInRow/Board.cs:145 | The largest of the four axis counts (`result.Max()`) is at least each count and equal to one of them. |
| Cells.CellEmptyIff | FiveInRow/Board.cs:71-80 | For alternating moves, a cell reads Empty exactly when no move was played on it. This makes Drop's emptiness test the same as "not yet played". |
| Cells.CellOfMove | FiveInRow/Board.cs:87-103 | When no cell is played twice, every played cell holds the colour recorded for its move. |
| Cells.ColourCountAlternating | FiveInRow/Board.cs:30-33 | With alternating colours, Black has played (n + 1) / 2 of n moves and White n / 2. |
| Cells.CellsOfColourBounded | FiveInRow/Board.cs:87-103 | Any set of cells that all hold colour c has no more members than there are moves of colour c. |
| Scan.Line | FiveInRow/Board.cs:176-207 | A walk to the edge from a cell on the board meets at most the cells left before the edge. From off the board it meets none. |
| Scan.Walk | FiveInRow/Board.cs:176-207 | A walk counts at most the cells it sees. The break counter never goes down. It never passes the limit when it started below it, and it stays put when it started at or above it. |
| Scan.BothWays | FiveInRow/Board.cs:170-247 | A scan counts the anchor and at most every cell its two walks see, so it is at least 1 and at most 1 plus the lengths of both half-lines. |
| Scan.BudgetShared | FiveInRow/Board.cs:186-231 | The break counter is shared by the two walks of a scan. Each walk stays within its half-line, and together the walks step over at most limit − countBreak empty cells. |
| Scan.Run | FiveInRow/Board.cs:170-489 | The scan of an axis counts the anchor and at most every cell of the axis's two half-lines. |
| Scan.WalkPlain | FiveInRow/Board.cs:176-207 | With the break budget spent, a walk counts exactly the leading run of the colour. It stops at the first other cell and leaves the break counter unchanged. |
| Scan.WalkAccounting | FiveInRow/Board.cs:186-205 | A walk visits count + (breaks − brk) cells. Each visited cell holds the colour or is empty. The colour appears `count` times and Empty appears `breaks − brk` times, so skipped empties add nothing to the count. The walk stops only at the edge, at a cell of the other colour, or at an empty cell once the budget is spent. |
| Scan.WalkAtLeastPlain | FiveInRow/Board.cs:170-247 | A walk with a break budget counts at least as many stones as the walk without one. |
| Scan.HalfLinesFit | FiveInRow/Board.cs:178-220 | From a cell on the board, the two half-lines of any axis hold at most 14 cells together. |
| Scan.RunBounds | FiveInRow/Board.cs:166-489 | Every scan from a cell on the board returns a count from 1 to 15. |
| Scan.RunAtLeastPlain | FiveInRow/Board.cs:170-489 | A scan with a break budget never reports less than the scan with limit 0. |
| Scan.WalkCountsStretch | FiveInRow/Board.cs:176-207 | The plain walk counts n exactly when n consecutive stones of the colour lie next to the anchor in its direction and the cell after them is off the board or not of the colour. The two directions of this equivalence are stated as one if-and-only-if. |
| Scan.RunPlainIsStretches | FiveInRow/Board.cs:166-247 | With limit 0, a scan returns 1 plus the consecutive stones of the colour on each side of the anchor along its axis. |
| Scan.RunWithinStones | FiveInRow/Board.cs:124-127 | A plain scan through a stone of colour c never counts more than the number of stones of colour c on the board. |
| Judging.ScanVerdict | FiveInRow/Board.cs:133-159 | The full scan gives a foul only under professional rules on a Black move, and the foul is always `over5`. It never gives Win for such a move. |
| Judging.Verdict | FiveInRow/Board.cs:121-160 | Before the ninth move the verdict is Continue. A foul is always `over5`, in a professional game, on a Black (odd-numbered) move. Black never wins a professional game. |
| Judging.EarlyExitHidesNothing | FiveInRow/Board.cs:124-127 | Judge's early `Continue` before the ninth move agrees with the full scan. The mover has at most four stones then, so no axis reaches five. |
| Judging.MaxRunReaches | FiveInRow/Board.cs:133-145 | The largest of the four scans reaches a length exactly when some axis does. |
| Judging.WinIff | FiveInRow/Board.cs:121-160 | Judge says Win exactly when all three hold: there are at least nine moves; the game is casual or the move is White's; some axis through the last stone reaches five. |
| Judging.FoulIff | FiveInRow/Board.cs:141-148 | Judge says Foul exactly when all four hold: there are at least nine moves; the game is professional; the move is Black's; some axis reaches six. The foul is always `over5`. |
| JudgingExample.NinthMoveFive | FiveInRow/Board.cs:141-157 | On the ninth move of a well-formed game, a five through the last stone wins the casual game. Under professional rules it gives Continue, because Black has only five stones and no scan can reach six. |
| JudgingExample.ExactFiveVerdicts | FiveInRow/Board.cs:141-157 | Black's exact horizontal five on the ninth move wins a casual game. Under professional rules the same five is only Continue. |
| GameBoard.Board.constructor | FiveInRow/Board.cs:49-63 | A new board satisfies the invariant. All cells are empty, there are no moves, and both flags are off. |
| GameBoard.Board.CurrentMoveColor | FiveInRow/Board.cs:30-33 | The turn colour is Black or White. On a valid board with stones, it is the colour of the last move. |
| GameBoard.Board.SetIsGameOver | FiveInRow/Board.cs:37 | Setting the game-over flag changes nothing else and keeps the invariant. |
| GameBoard.Board.Drop | FiveInRow/Board.cs:71-80 | Drop succeeds exactly when the cell was not played. On success it appends (x, y, ColourOf(count + 1)) and paints only that cell. Otherwise nothing changes. The invariant is kept. |
| GameBoard.Board.InsertMove | FiveInRow/Board.cs:87-103 | The counter goes up by one. The move (x, y, new turn colour) is appended and only cell (x, y) is painted. The invariant is kept. |
| GameBoard.Board.RemoveLastMove | FiveInRow/Board.cs:108-114 | The last move is removed and the counter goes down by one. Only that move's cell becomes Empty. The invariant is kept. |
| GameBoard.Board.WalkRay | FiveInRow/Board.cs:176-207 | The walking loop returns exactly `Walk` over the cells from the next cell to the edge, in the turn colour. |
| GameBoard.Board.CountAxis | FiveInRow/Board.cs:170-247 | One scan that walks in direction (dx, dy) and then back the opposite way equals the anchor plus `Walk` over both half-lines, in the turn colour, with the break counter carried from the first walk to the second. |
| GameBoard.Board.CountHorizontalWithBreaks | FiveInRow/Board.cs:170-247 | The horizontal scan with a break budget equals `Run` on the horizontal axis and lies in 1..15. |
| GameBoard.Board.CountVerticalWithBreaks | FiveInRow/Board.cs:253-325 | The vertical scan with a break budget equals `Run` on the vertical axis and lies in 1..15. |
| GameBoard.Board.CountSlashWithBreaks | FiveInRow/Board.cs:331-407 | The slash-diagonal scan with a break budget equals `Run` on that axis and lies in 1..15. |
| GameBoard.Board.CountBackSlashWithBreaks | FiveInRow/Board.cs:413-489 | The backslash-diagonal scan with a break budget equals `Run` on that axis and lies in 1..15. |
| GameBoard.Board.CountHorizontal | FiveInRow/Board.cs:166-169 | The plain horizontal scan is `Run` with limit 0. |
| GameBoard.Board.CountVertical | FiveInRow/Board.cs:249-252 | The plain vertical scan is `Run` with limit 0. |
| GameBoard.Board.CountSlash | FiveInRow/Board.cs:327-330 | The plain slash scan is `Run` with limit 0. |
| GameBoard.Board.CountBackSlash | FiveInRow/Board.cs:409-412 | The plain backslash scan is `Run` with limit 0. |
| GameBoard.Board.Judge | FiveInRow/Board.cs:121-160 | Judge changes nothing. Its result is `Verdict(Moves, IsProGame)`, and with any moves it equals the full scan. |
| GameBoard.DropUndoRoundTrip | FiveInRow/Board.cs:71-114 | Drop followed by RemoveLastMove, when the drop succeeded, restores the moves, the counter and every cell. |
| Form.TruncDiv | FiveInRow/Form1.cs:59 | Division truncating toward zero agrees with floor division for non-negative dividends and is never positive for negative ones. |
| Form.CalculateAxis | FiveInRow/Form1.cs:57-69 | The result is -1, or it is line i = p / 60 with p within 20 pixels of that line's stone centre. |
| Form.StoneCentre | FiveInRow/Form1.cs:128-134 | The stone of every board line is drawn, with its radius of 25, inside the 900-pixel board square. |
| Form.AxisWithinSensingRadius | FiveInRow/Form1.cs:57-69 | For i ≥ 0, a click selects line i exactly when it lies within 20 pixels of the centre where line i's stone is drawn. |
| Form.AxisOfStoneCentre | FiveInRow/Form1.cs:130 | The centre where the stone of line i is drawn maps back to line i. |
| Form.AxisMissesGaps | FiveInRow/Form1.cs:57-69 | Negative pixels select no line. So do pixels less than 10 or more than 50 into a 60-pixel band. |
| Form.AxisOnBoardSquare | FiveInRow/Form1.cs:57-69 | On the 900-pixel board square, a click selects a line from 0 to 14 or none. |
| Form.AxisPastBoardSquare | FiveInRow/Form1.cs:57-69 | Pixels 910 to 950 select line 15, which has no cells. |
| Form.LeftClickAccepted | FiveInRow/Form1.cs:155 | The left-click test as written accepts only when the game is not over and both coordinates selected a line. It refuses every click that selects line 0. |
| Form.EdgeLinesRefused | FiveInRow/Form1.cs:155 | As written, the left-click test refuses every cell of row 0 and column 0, even a click on its stone centre. |
| Form.WrittenGateMissesEdgeLines | FiveInRow/Form1.cs:155 | On lines -1..14, the written test accepts exactly what the intended test accepts, minus row 0 and column 0. |
| Form.IntendedClickReachesEveryCell | FiveInRow/Form1.cs:155 | With the intended test, every cell can be played by clicking its stone centre. Every accepted click names a cell on the board. |
| Form.GameForm.constructor | FiveInRow/Form1.cs:46-50 | A new form holds a fresh empty board with both flags off. |
| Form.GameForm.MouseUp | FiveInRow/Form1.cs:143-198 | A left click goes through the test as written, with the effect described for LeftClick. A left click 10 to 50 pixels from the left or top edge changes nothing. A right click retracts the last move exactly when the click selects its cell. Any other button changes nothing. The game-over flag, once set, stays set. |
| Form.GameForm.LeftClick | FiveInRow/Form1.cs:146-177 | Nothing happens unless the game is going on and both lines are positive, so row 0 and column 0 are never played. Positive lines past the board give OutOfRange with nothing changed. A played cell gives Occupied. Otherwise the mover's stone is appended and judged: Win sets game over, and a foul leaves the stone with the game going on. |
| Form.GameForm.PlaceAndJudge | FiveInRow/Form1.cs:157-175 | On a cell of a game still going on: a played cell gives Occupied and changes nothing. Otherwise the mover's stone is appended and the verdict on the new move list is returned. Game over is set exactly on Win. |
| Form.GameForm.IntendedLeftClick | FiveInRow/Form1.cs:155 | With the corrected test, a click is acted on exactly when the game is going on and both lines name a cell of the board. It never gives OutOfRange. |
| Form.GameForm.RightClick | FiveInRow/Form1.cs:180-197 | The last move is removed exactly when there is one and the click selects its cell. The game-over flag is left unchanged, so a winning stone can be retracted while the game stays over. |
| Form.GameForm.Regret | FiveInRow/Form1.cs:277-284 | The last move is removed only when the game is not over and some stone is on the board. Otherwise nothing changes. |

## Left out

- Drawing, the caption text, message boxes and the yes/no dialog: these are
  user-interface output with no game logic (FiveInRow/Form1.cs:74-134).
  StartNewGame, Exit, the hot keys and the professional-game menu item are
  left out for the same reason. `IsProGame` is treated as an input flag.
- FiveInRow/Stone.cs: an unused property bag with nothing to state.
  FiveInRow/Form1.Designer.cs: generated layout. Its sizes are used only to
  reason about which pixels can be clicked.
- The public setter of `StoneCount`: outside code never uses it. The model
  changes the counter only through Drop and RemoveLastMove, which keeps
  `StoneCount == |Moves|`.
- The `FoulException`: modelled as the `Foul(over5)` verdict value, not as
  a thrown exception. The `result.Max()` of the four scans is `Max4`.
- The value of `StoneColor.EMPTY`: it is not in the shown files. The model
  uses -1; any value other than 0 and 1 behaves the same.
- The four duplicated pairs of `while (true)` loops: the model shares one
  walking loop (`WalkRay`) between all four scanners. Each scanner calls it
  once per direction with the scanner's steps. The source tests single
  coordinates against the edge (`tempX < 0`, `tempY > 14`). The model tests
  whether the next cell is on the board, which is the same for an anchor on
  the board.
- Move records: modelled as `Move(x, y, color)` values, not as
  three-element `int` arrays.
- C# integer width: all values stay within a few thousand, so 32-bit
  overflow cannot occur and is not modelled.
- The exception after a left click on line 15 or beyond: pixels 910 to 950
  select line 15 (`Form.AxisPastBoardSquare`), which passes the written
  test, so `Drop` indexes outside the grid. The model stops there with the
  `OutOfRange` outcome and nothing changed. What the application does with
  the uncaught exception is not modelled.

## Findings

| source | as written | input that shows it | evidently intended | confidence | as-written member | corrected member |
|---|---|---|---|---|---|---|
| FiveInRow/Form1.cs:155 | A left click is accepted only when both selected lines are greater than 0. | A left click at pixel (30, 90), the centre of cell (0, 1), selects x = 0 and is refused. No stone can ever be placed in row 0 or column 0. | Accept every selected cell of the board: -1 alone marks a click between lines, so lines 0..14 should all pass. | high, not executed | Form.EdgeLinesRefused | Form.IntendedClickReachesEveryCell |
