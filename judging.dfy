/** The rule engine's verdict on the last move, as a function of the move
    list and the professional-rules flag. */
module Judging {
  import opened Stones
  import opened Cells
  import opened Scan

  /** Minimum number of moves before the board is scanned at all. */
  const MinMovesToJudge: int := 9

  /** Longest plain run through (x, y) over the four axes, in colour c. */
  function MaxRun(moves: seq<Move>, x: int, y: int, c: int): int
  {
    Max4(Run(moves, Horizontal, x, y, c, 0, 0), Run(moves, Vertical, x, y, c, 0, 0),
         Run(moves, Slash, x, y, c, 0, 0), Run(moves, BackSlash, x, y, c, 0, 0))
  }

  /** The verdict reached by scanning around the last move in the colour of
      the mover (the colour the stone counter gives). Black under professional
      rules can only foul by an overline; everyone else wins with five or more. */
  function ScanVerdict(moves: seq<Move>, pro: bool): (j: Judgement)
    requires |moves| > 0
    ensures j.Foul? ==> j.kind == over5 && pro && ColourOf(|moves|) == Black
    ensures j == Win ==> !(pro && ColourOf(|moves|) == Black)
  {
    var last := moves[|moves| - 1];
    var c := ColourOf(|moves|);
    var longest := MaxRun(moves, last.x, last.y, c);
    if pro && c == Black then
      if longest > 5 then Foul(over5) else Continue
    else if longest >= 5 then Win else Continue
  }

  /** The verdict of the rule engine: no scan before the ninth move. */
  function Verdict(moves: seq<Move>, pro: bool): (j: Judgement)
    ensures |moves| < MinMovesToJudge ==> j == Continue
    ensures j.Foul? ==> j.kind == over5 && pro && |moves| % 2 == 1
    ensures j == Win ==> !(pro && |moves| % 2 == 1)
  {
    if |moves| < MinMovesToJudge then Continue else ScanVerdict(moves, pro)
  }

  /** The verdict once the four axis counts through the last move are known. */
  lemma VerdictOfRuns(moves: seq<Move>, pro: bool, x: int, y: int, c: int, h: int, v: int, s: int, b: int)
    requires |moves| >= MinMovesToJudge
    requires x == moves[|moves| - 1].x && y == moves[|moves| - 1].y && c == ColourOf(|moves|)
    requires h == Run(moves, Horizontal, x, y, c, 0, 0) && v == Run(moves, Vertical, x, y, c, 0, 0)
    requires s == Run(moves, Slash, x, y, c, 0, 0) && b == Run(moves, BackSlash, x, y, c, 0, 0)
    ensures var longest := Max4(h, v, s, b);
            Verdict(moves, pro) ==
              if pro && c == Black then (if longest > 5 then Foul(over5) else Continue)
              else if longest >= 5 then Win else Continue
  {
  }

  /** The early exit before the ninth move never hides a decision: before
      then the mover has at most four stones, so no axis reaches five and the
      full scan would also say Continue. */
  lemma EarlyExitHidesNothing(moves: seq<Move>, pro: bool)
    requires WellFormed(moves) && |moves| > 0
    ensures Verdict(moves, pro) == ScanVerdict(moves, pro)
  {
    var n := |moves|;
    if n < MinMovesToJudge {
      var last := moves[n - 1];
      var c := ColourOf(n);
      assert last.color == c;
      assert Cell(moves, last.x, last.y) == c;
      ColourCountAlternating(moves);
      assert ColourCount(moves, c) <= 4;
      RunWithinStones(moves, Horizontal, last.x, last.y, c);
      RunWithinStones(moves, Vertical, last.x, last.y, c);
      RunWithinStones(moves, Slash, last.x, last.y, c);
      RunWithinStones(moves, BackSlash, last.x, last.y, c);
    }
  }

  /** Some axis through the last move reaches length `len` in the mover's colour. */
  predicate SomeAxisReaches(moves: seq<Move>, len: int)
    requires |moves| > 0
  {
    var last := moves[|moves| - 1];
    exists a: Axis :: Run(moves, a, last.x, last.y, ColourOf(|moves|), 0, 0) >= len
  }

  lemma MaxRunReaches(moves: seq<Move>, len: int)
    requires |moves| > 0
    ensures var last := moves[|moves| - 1];
            MaxRun(moves, last.x, last.y, ColourOf(|moves|)) >= len <==> SomeAxisReaches(moves, len)
  {
    var last := moves[|moves| - 1];
    var c := ColourOf(|moves|);
    var m := MaxRun(moves, last.x, last.y, c);
    if m >= len {
      if m == Run(moves, Horizontal, last.x, last.y, c, 0, 0) {
        assert Run(moves, Horizontal, last.x, last.y, c, 0, 0) >= len;
      } else if m == Run(moves, Vertical, last.x, last.y, c, 0, 0) {
        assert Run(moves, Vertical, last.x, last.y, c, 0, 0) >= len;
      } else if m == Run(moves, Slash, last.x, last.y, c, 0, 0) {
        assert Run(moves, Slash, last.x, last.y, c, 0, 0) >= len;
      } else {
        assert Run(moves, BackSlash, last.x, last.y, c, 0, 0) >= len;
      }
    }
  }

  /** When the engine declares a win: from the ninth move on, for a casual
      game or a White move, when some axis through the last stone has five
      or more. Black never wins a professional game. */
  lemma WinIff(moves: seq<Move>, pro: bool)
    ensures Verdict(moves, pro) == Win <==>
              |moves| >= MinMovesToJudge && !(pro && |moves| % 2 == 1) && SomeAxisReaches(moves, 5)
  {
    if |moves| >= MinMovesToJudge {
      MaxRunReaches(moves, 5);
    }
  }

  /** When the engine declares a foul: only for a Black move in a professional
      game, from the ninth move on, when some axis has six or more; the only
      foul ever produced is the overline. */
  lemma FoulIff(moves: seq<Move>, pro: bool)
    ensures Verdict(moves, pro).Foul? <==>
              |moves| >= MinMovesToJudge && pro && |moves| % 2 == 1 && SomeAxisReaches(moves, 6)
    ensures Verdict(moves, pro).Foul? ==> Verdict(moves, pro).kind == over5
  {
    if |moves| >= MinMovesToJudge {
      MaxRunReaches(moves, 6);
    }
  }
}

/** A concrete game: Black plays (5,5) … (9,5) while White answers along
    row 6. The ninth move completes an exact horizontal five. */
module JudgingExample {
  import opened Stones
  import opened Cells
  import opened Scan
  import opened Judging

  function ExactFiveGame(): seq<Move> {
    [Move(5, 5, Black), Move(5, 6, White), Move(6, 5, Black), Move(6, 6, White), Move(7, 5, Black),
     Move(7, 6, White), Move(8, 5, Black), Move(8, 6, White), Move(9, 5, Black)]
  }

  lemma ExactFiveWellFormed()
    ensures WellFormed(ExactFiveGame())
  {
  }

  /** Row 5 of the example is empty outside columns 5 to 9. */
  lemma ExactFiveEmptyAt(x: int)
    requires x < 5 || x > 9
    ensures Cell(ExactFiveGame(), x, 5) == Empty
  {
    ExactFiveWellFormed();
    CellEmptyIff(ExactFiveGame(), x, 5);
  }

  /** Black's first four stones sit at (5,5) … (8,5). */
  lemma ExactFiveBlackAt(i: int)
    requires 5 <= i <= 8
    ensures Cell(ExactFiveGame(), i, 5) == Black
  {
    var g := ExactFiveGame();
    ExactFiveWellFormed();
    CellOfMove(g, 2 * (i - 5));
    assert g[2 * (i - 5)] == Move(i, 5, Black);
  }

  /** Four c-stones at (5,5) … (8,5) with (4,5) and (10,5) empty: the
      horizontal scan through (9,5) counts exactly five. */
  lemma RowOfFive(moves: seq<Move>, c: int)
    requires c != Empty
    requires Cell(moves, 5, 5) == c && Cell(moves, 6, 5) == c && Cell(moves, 7, 5) == c && Cell(moves, 8, 5) == c
    requires Cell(moves, 4, 5) == Empty && Cell(moves, 10, 5) == Empty
    ensures Run(moves, Horizontal, 9, 5, c, 0, 0) == 5
  {
    var l4 := Line(moves, 4, 5, -1, 0);
    var l5 := Line(moves, 5, 5, -1, 0);
    var l6 := Line(moves, 6, 5, -1, 0);
    var l7 := Line(moves, 7, 5, -1, 0);
    var l8 := Line(moves, 8, 5, -1, 0);
    var r10 := Line(moves, 10, 5, 1, 0);
    assert Walk(l4, c, 0, 0) == Walked(0, 0);
    assert Walk(l5, c, 0, 0) == Walked(1, 0);
    assert Walk(l6, c, 0, 0) == Walked(2, 0);
    assert Walk(l7, c, 0, 0) == Walked(3, 0);
    assert Walk(l8, c, 0, 0) == Walked(4, 0);
    assert Walk(r10, c, 0, 0) == Walked(0, 0);
  }

  /** The horizontal scan through the ninth stone counts exactly five. */
  lemma ExactFiveRun()
    ensures Run(ExactFiveGame(), Horizontal, 9, 5, Black, 0, 0) == 5
  {
    ExactFiveBlackAt(8);
    ExactFiveBlackAt(7);
    ExactFiveBlackAt(6);
    ExactFiveBlackAt(5);
    ExactFiveEmptyAt(4);
    ExactFiveEmptyAt(10);
    RowOfFive(ExactFiveGame(), Black);
  }

  /** On the ninth move the mover is Black with five stones on the board:
      a five through the last stone wins the casual game, and under
      professional rules it cannot be an overline, so play continues. */
  lemma NinthMoveFive(moves: seq<Move>, a: Axis)
    requires WellFormed(moves) && |moves| == MinMovesToJudge
    requires Run(moves, a, moves[8].x, moves[8].y, Black, 0, 0) == 5
    ensures Verdict(moves, false) == Win
    ensures Verdict(moves, true) == Continue
  {
    var last := moves[8];
    assert last.color == ColourOf(9);
    CellOfMove(moves, 8);
    ColourCountAlternating(moves);
    RunWithinStones(moves, Horizontal, last.x, last.y, Black);
    RunWithinStones(moves, Vertical, last.x, last.y, Black);
    RunWithinStones(moves, Slash, last.x, last.y, Black);
    RunWithinStones(moves, BackSlash, last.x, last.y, Black);
    assert SomeAxisReaches(moves, 5);
    WinIff(moves, false);
  }

  /** The exact five wins the casual game, but under professional rules it
      is neither a win nor a foul for Black: play simply continues. */
  lemma ExactFiveVerdicts()
    ensures Verdict(ExactFiveGame(), false) == Win
    ensures Verdict(ExactFiveGame(), true) == Continue
  {
    ExactFiveWellFormed();
    ExactFiveRun();
    NinthMoveFive(ExactFiveGame(), Horizontal);
  }
}
