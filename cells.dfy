/** The move list and the board it determines. The board array of the game
    is specified as a function of the list of moves played so far. */
module Cells {
  import opened Stones

  /** Colour of cell (i, j) after the moves have been played in order:
      the colour of the latest move on that cell, Empty when none. */
  function Cell(moves: seq<Move>, i: int, j: int): int
  {
    if moves == [] then Empty
    else
      var last := moves[|moves| - 1];
      if last.x == i && last.y == j then last.color else Cell(moves[..|moves| - 1], i, j)
  }

  /** The k-th move (1-based) carries colour k % 2: Black first, then alternating. */
  predicate Alternating(moves: seq<Move>) {
    forall k :: 0 <= k < |moves| ==> moves[k].color == ColourOf(k + 1)
  }

  predicate AllOnBoard(moves: seq<Move>) {
    forall k :: 0 <= k < |moves| ==> OnBoard(moves[k].x, moves[k].y)
  }

  /** No cell is played twice. */
  predicate DistinctCells(moves: seq<Move>) {
    forall k, l :: 0 <= k < l < |moves| ==> moves[k].x != moves[l].x || moves[k].y != moves[l].y
  }

  /** What every move list built by the board satisfies. */
  predicate WellFormed(moves: seq<Move>) {
    Alternating(moves) && AllOnBoard(moves) && DistinctCells(moves)
  }

  /** Some move of the list was played on (i, j). */
  predicate Played(moves: seq<Move>, i: int, j: int) {
    exists k :: 0 <= k < |moves| && moves[k].x == i && moves[k].y == j
  }

  /** Number of moves of colour c. */
  function ColourCount(moves: seq<Move>, c: int): nat
  {
    if moves == [] then 0
    else ColourCount(moves[..|moves| - 1], c) + (if moves[|moves| - 1].color == c then 1 else 0)
  }

  /** The cells played with colour c. */
  function ColouredCells(moves: seq<Move>, c: int): (cells: set<(int, int)>)
    ensures |cells| <= ColourCount(moves, c)
  {
    if moves == [] then {}
    else
      var last := moves[|moves| - 1];
      ColouredCells(moves[..|moves| - 1], c) + (if last.color == c then {(last.x, last.y)} else {})
  }

  lemma PrefixWellFormed(moves: seq<Move>, n: nat)
    requires WellFormed(moves) && n <= |moves|
    ensures WellFormed(moves[..n])
  {
  }

  /** A cell is Empty exactly when no move was played on it. */
  lemma {:induction false} CellEmptyIff(moves: seq<Move>, i: int, j: int)
    requires Alternating(moves)
    ensures Cell(moves, i, j) == Empty <==> !Played(moves, i, j)
  {
    if moves != [] {
      var n := |moves| - 1;
      var pre := moves[..n];
      assert Alternating(pre) by {
        forall k | 0 <= k < |pre| ensures pre[k].color == ColourOf(k + 1) {
          assert pre[k] == moves[k];
        }
      }
      CellEmptyIff(pre, i, j);
      if moves[n].x == i && moves[n].y == j {
        assert moves[n].color == ColourOf(n + 1);
      } else {
        if Played(moves, i, j) {
          var k :| 0 <= k < |moves| && moves[k].x == i && moves[k].y == j;
          assert pre[k] == moves[k];
        }
        if Played(pre, i, j) {
          var k :| 0 <= k < |pre| && pre[k].x == i && pre[k].y == j;
          assert moves[k] == pre[k];
        }
      }
    }
  }

  /** Every played cell holds the colour recorded for its move. */
  lemma {:induction false} CellOfMove(moves: seq<Move>, k: nat)
    requires DistinctCells(moves) && k < |moves|
    ensures Cell(moves, moves[k].x, moves[k].y) == moves[k].color
  {
    var n := |moves| - 1;
    if k < n {
      var pre := moves[..n];
      assert moves[k].x != moves[n].x || moves[k].y != moves[n].y;
      assert pre[k] == moves[k];
      CellOfMove(pre, k);
    }
  }

  /** A cell of colour c (not Empty) is one of the cells played with colour c. */
  lemma {:induction false} CellInColouredCells(moves: seq<Move>, i: int, j: int, c: int)
    requires c != Empty && Cell(moves, i, j) == c
    ensures (i, j) in ColouredCells(moves, c)
  {
    if moves != [] {
      var n := |moves| - 1;
      if moves[n].x != i || moves[n].y != j {
        CellInColouredCells(moves[..n], i, j, c);
      }
    }
  }

  /** Any set of cells all of colour c has at most as many members as there
      are moves of colour c. */
  lemma CellsOfColourBounded(moves: seq<Move>, cells: set<(int, int)>, c: int)
    requires c != Empty
    requires forall p :: p in cells ==> Cell(moves, p.0, p.1) == c
    ensures |cells| <= ColourCount(moves, c)
  {
    forall p | p in cells ensures p in ColouredCells(moves, c) {
      CellInColouredCells(moves, p.0, p.1, c);
    }
    var all := ColouredCells(moves, c);
    assert all == cells + (all - cells);
  }

  /** With alternating colours Black has played (n + 1) / 2 of n moves and White n / 2. */
  lemma {:induction false} ColourCountAlternating(moves: seq<Move>)
    requires Alternating(moves)
    ensures ColourCount(moves, Black) == (|moves| + 1) / 2
    ensures ColourCount(moves, White) == |moves| / 2
  {
    if moves != [] {
      var n := |moves| - 1;
      var pre := moves[..n];
      assert Alternating(pre) by {
        forall k | 0 <= k < |pre| ensures pre[k].color == ColourOf(k + 1) {
          assert pre[k] == moves[k];
        }
      }
      ColourCountAlternating(pre);
      assert moves[n].color == ColourOf(n + 1);
    }
  }
}
