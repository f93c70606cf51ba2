/** The line scanners as specification functions. A scan of one axis walks
    away from the anchor in the axis's first direction, then in the opposite
    one, counting stones of the scanned colour and optionally stepping over a
    shared budget of empty cells. */
module Scan {
  import opened Stones
  import opened Cells

  /** The cells met walking from (px, py) in direction (dx, dy) until the edge. */
  function Line(moves: seq<Move>, px: int, py: int, dx: int, dy: int): (s: seq<int>)
    requires Unit(dx, dy)
    ensures OnBoard(px, py) ==> |s| <= Room(px, py, dx, dy)
    ensures !OnBoard(px, py) ==> s == []
    decreases if OnBoard(px, py) then Room(px, py, dx, dy) else 0
  {
    if !OnBoard(px, py) then []
    else [Cell(moves, px, py)] + Line(moves, px + dx, py + dy, dx, dy)
  }

  /** Result of one directional walk: stones counted and the break counter after it. */
  datatype Walked = Walked(count: nat, breaks: int)

  /** One directional walk over the cells `s`: a stone of colour c adds one;
      an empty cell is stepped over while `brk < limit`, raising `brk`;
      anything else, or the end of the line, stops the walk. */
  function Walk(s: seq<int>, c: int, brk: int, limit: int): (w: Walked)
    ensures w.count <= |s|
    ensures brk <= w.breaks <= (if brk < limit then limit else brk)
  {
    if s == [] then Walked(0, brk)
    else if s[0] == c then
      var rest := Walk(s[1..], c, brk, limit);
      Walked(rest.count + 1, rest.breaks)
    else if s[0] == Empty && brk < limit then Walk(s[1..], c, brk + 1, limit)
    else Walked(0, brk)
  }

  /** The count one scanner returns for anchor (x, y), colour c, initial break
      counter `brk` and break limit `limit`: the anchor itself, plus the walk in
      the first direction, plus the walk in the opposite direction that
      continues with the break counter the first walk left. */
  function Run(moves: seq<Move>, a: Axis, x: int, y: int, c: int, brk: int, limit: int): (r: int)
    ensures var d := FirstStep(a);
            1 <= r <= 1 + |HalfLine(moves, x, y, d.0, d.1)| + |HalfLine(moves, x, y, -d.0, -d.1)|
  {
    var d := FirstStep(a);
    BothWays(HalfLine(moves, x, y, d.0, d.1), HalfLine(moves, x, y, -d.0, -d.1), c, brk, limit)
  }

  /** The cells met walking away from (x, y) in direction (dx, dy), without (x, y) itself. */
  function HalfLine(moves: seq<Move>, x: int, y: int, dx: int, dy: int): seq<int>
    requires Unit(dx, dy)
  {
    Line(moves, x + dx, y + dy, dx, dy)
  }

  /** One step along a half-line: it starts with the neighbouring cell when
      that cell is on the board, and is empty otherwise. */
  lemma HalfLineStep(moves: seq<Move>, x: int, y: int, dx: int, dy: int)
    requires Unit(dx, dy)
    ensures OnBoard(x + dx, y + dy) ==>
              HalfLine(moves, x, y, dx, dy) == [Cell(moves, x + dx, y + dy)] + HalfLine(moves, x + dx, y + dy, dx, dy)
    ensures !OnBoard(x + dx, y + dy) ==> HalfLine(moves, x, y, dx, dy) == []
  {
  }

  /** One step of a walk along the half-line beside (x, y): off the board it
      stops; a stone of colour c is counted and the walk goes on from the
      next cell; an empty cell within budget is stepped over; anything else
      stops it. */
  lemma WalkOneStep(moves: seq<Move>, x: int, y: int, dx: int, dy: int, c: int, brk: int, limit: int)
    requires Unit(dx, dy)
    ensures var here := Walk(HalfLine(moves, x, y, dx, dy), c, brk, limit);
            var next := HalfLine(moves, x + dx, y + dy, dx, dy);
            var v := Cell(moves, x + dx, y + dy);
            if !OnBoard(x + dx, y + dy) then here == Walked(0, brk)
            else if v == c then here == Walked(Walk(next, c, brk, limit).count + 1, Walk(next, c, brk, limit).breaks)
            else if v == Empty && brk < limit then here == Walk(next, c, brk + 1, limit)
            else here == Walked(0, brk)
  {
    HalfLineStep(moves, x, y, dx, dy);
    if OnBoard(x + dx, y + dy) {
      var s := HalfLine(moves, x, y, dx, dy);
      assert s[1..] == HalfLine(moves, x + dx, y + dy, dx, dy);
    }
  }

  /** The anchor plus a walk over `ahead`, then a walk over `behind` that
      continues with the break counter the first walk left. */
  function BothWays(ahead: seq<int>, behind: seq<int>, c: int, brk: int, limit: int): (r: int)
    ensures 1 <= r <= 1 + |ahead| + |behind|
  {
    var first := Walk(ahead, c, brk, limit);
    var second := Walk(behind, c, first.breaks, limit);
    1 + first.count + second.count
  }

  /** The break budget is shared by the two walks of a scan: the second walk
      starts from the counter the first one left, so together they step
      over at most limit - brk empty cells, and each walk stays within its
      own half-line. */
  lemma BudgetShared(ahead: seq<int>, behind: seq<int>, c: int, brk: int, limit: int)
    requires c != Empty && brk <= limit
    ensures var first := Walk(ahead, c, brk, limit);
            var second := Walk(behind, c, first.breaks, limit);
            var m1 := first.count + (first.breaks - brk);
            var m2 := second.count + (second.breaks - first.breaks);
            && BothWays(ahead, behind, c, brk, limit) == 1 + first.count + second.count
            && m1 <= |ahead| && m2 <= |behind|
            && CountOf(ahead[..m1], Empty) + CountOf(behind[..m2], Empty) <= limit - brk
  {
    WalkAccounting(ahead, c, brk, limit);
    WalkAccounting(behind, c, Walk(ahead, c, brk, limit).breaks, limit);
  }

  /** Number of cells of colour v in s. */
  function CountOf(s: seq<int>, v: int): nat
  {
    if s == [] then 0 else (if s[0] == v then 1 else 0) + CountOf(s[1..], v)
  }

  /** The coordinate k steps from x with step dx (one of -1, 0, 1). */
  function Along(x: int, dx: int, k: int): int {
    if dx > 0 then x + k else if dx < 0 then x - k else x
  }

  /** The cell k steps from (x, y) in direction (dx, dy) is on the board. */
  predicate OnBoardAlong(x: int, y: int, dx: int, dy: int, k: int) {
    OnBoard(Along(x, dx, k), Along(y, dy, k))
  }

  /** Colour of the cell k steps from (x, y) in direction (dx, dy). */
  function CellAlong(moves: seq<Move>, x: int, y: int, dx: int, dy: int, k: int): int {
    Cell(moves, Along(x, dx, k), Along(y, dy, k))
  }

  /** Exactly n consecutive stones of colour c lie next to (x, y) in direction
      (dx, dy): the cells 1..n steps away are on the board and of colour c,
      and the cell n + 1 steps away is off the board or not of colour c. */
  predicate Stretch(moves: seq<Move>, x: int, y: int, dx: int, dy: int, c: int, n: nat) {
    && (forall k {:trigger CellAlong(moves, x, y, dx, dy, k)} :: 1 <= k <= n ==> OnBoardAlong(x, y, dx, dy, k) && CellAlong(moves, x, y, dx, dy, k) == c)
    && !(OnBoardAlong(x, y, dx, dy, n + 1) && CellAlong(moves, x, y, dx, dy, n + 1) == c)
  }

  lemma AlongStep(x: int, dx: int, k: int)
    requires -1 <= dx <= 1
    ensures Along(x + dx, dx, k) == Along(x, dx, k + 1)
  {
  }

  /** The k-th entry of a line is the cell k steps along it, which is on the
      board; the cell just past the line's end is off the board. */
  lemma {:induction false} LineAt(moves: seq<Move>, px: int, py: int, dx: int, dy: int, k: nat)
    requires Unit(dx, dy)
    ensures k < |Line(moves, px, py, dx, dy)| ==>
              OnBoardAlong(px, py, dx, dy, k) && Line(moves, px, py, dx, dy)[k] == CellAlong(moves, px, py, dx, dy, k)
    ensures k == |Line(moves, px, py, dx, dy)| ==> !OnBoardAlong(px, py, dx, dy, k)
    decreases k
  {
    if k > 0 && OnBoard(px, py) {
      LineAt(moves, px + dx, py + dy, dx, dy, k - 1);
      AlongStep(px, dx, k - 1);
      AlongStep(py, dy, k - 1);
    }
  }

  /** Without budget a walk counts exactly the stones of colour c at the head
      of the line: they are all of colour c, and the next cell is not. */
  lemma {:induction false} WalkPlain(s: seq<int>, c: int, brk: int, limit: int)
    requires brk >= limit
    ensures var n := Walk(s, c, brk, limit).count;
            (forall k :: 0 <= k < n ==> s[k] == c) && (n < |s| ==> s[n] != c)
    ensures Walk(s, c, brk, limit).breaks == brk
  {
    if s != [] && s[0] == c {
      WalkPlain(s[1..], c, brk, limit);
    }
  }

  /** Budget accounting of a walk: it visits count + (breaks - brk) cells,
      each of colour c or empty; exactly `count` of them are stones and the
      rest are the empties it stepped over; and it stopped at the end of the
      line, at a cell of another colour, or at an empty cell once the budget
      was spent. */
  lemma WalkAccounting(s: seq<int>, c: int, brk: int, limit: int)
    requires c != Empty
    ensures var w := Walk(s, c, brk, limit);
            var m := w.count + (w.breaks - brk);
            && m <= |s|
            && (forall k :: 0 <= k < m ==> s[k] == c || s[k] == Empty)
            && CountOf(s[..m], c) == w.count
            && CountOf(s[..m], Empty) == w.breaks - brk
            && (m == |s| || (s[m] != c && (s[m] != Empty || w.breaks >= limit)))
  {
    WalkVisits(s, c, brk, limit);
    WalkTallies(s, c, brk, limit);
  }

  /** The cells a walk visits are stones of colour c or empty, and the cell
      after them ends the walk. */
  lemma {:induction false} WalkVisits(s: seq<int>, c: int, brk: int, limit: int)
    ensures var w := Walk(s, c, brk, limit);
            var m := w.count + (w.breaks - brk);
            && m <= |s|
            && (forall k :: 0 <= k < m ==> s[k] == c || s[k] == Empty)
            && (m == |s| || (s[m] != c && (s[m] != Empty || w.breaks >= limit)))
  {
    if s != [] {
      if s[0] == c {
        WalkVisits(s[1..], c, brk, limit);
      } else if s[0] == Empty && brk < limit {
        WalkVisits(s[1..], c, brk + 1, limit);
      }
    }
  }

  /** Among the cells a walk visits, colour c appears `count` times and Empty
      appears once per break taken. */
  lemma {:induction false} WalkTallies(s: seq<int>, c: int, brk: int, limit: int)
    requires c != Empty
    ensures var w := Walk(s, c, brk, limit);
            var m := w.count + (w.breaks - brk);
            && m <= |s|
            && CountOf(s[..m], c) == w.count
            && CountOf(s[..m], Empty) == w.breaks - brk
  {
    if s != [] {
      var w := Walk(s, c, brk, limit);
      var m := w.count + (w.breaks - brk);
      if s[0] == c {
        WalkTallies(s[1..], c, brk, limit);
        assert s[..m][1..] == s[1..][..m - 1];
      } else if s[0] == Empty && brk < limit {
        WalkTallies(s[1..], c, brk + 1, limit);
        assert s[..m][1..] == s[1..][..m - 1];
      }
    }
  }

  /** A walk with a break budget counts at least as many stones as one without. */
  lemma {:induction false} WalkAtLeastPlain(s: seq<int>, c: int, brk: int, limit: int)
    ensures Walk(s, c, brk, limit).count >= Walk(s, c, 0, 0).count
  {
    if s != [] && s[0] == c {
      WalkAtLeastPlain(s[1..], c, brk, limit);
    }
  }

  /** On an anchor on the board the two half-lines of an axis hold at most 14 cells. */
  lemma HalfLinesFit(moves: seq<Move>, a: Axis, x: int, y: int)
    requires OnBoard(x, y)
    ensures var d := FirstStep(a);
            |HalfLine(moves, x, y, d.0, d.1)| + |HalfLine(moves, x, y, -d.0, -d.1)| <= BoardSize - 1
  {
  }

  /** Every scan from an anchor on the board returns a count from 1 to 15. */
  lemma RunBounds(moves: seq<Move>, a: Axis, x: int, y: int, c: int, brk: int, limit: int)
    requires OnBoard(x, y)
    ensures 1 <= Run(moves, a, x, y, c, brk, limit) <= BoardSize
  {
    HalfLinesFit(moves, a, x, y);
  }

  /** A scan with a break budget never reports less than the plain scan. */
  lemma RunAtLeastPlain(moves: seq<Move>, a: Axis, x: int, y: int, c: int, brk: int, limit: int)
    ensures Run(moves, a, x, y, c, brk, limit) >= Run(moves, a, x, y, c, 0, 0)
  {
    var d := FirstStep(a);
    BothWaysAtLeastPlain(HalfLine(moves, x, y, d.0, d.1), HalfLine(moves, x, y, -d.0, -d.1), c, brk, limit);
  }

  lemma BothWaysAtLeastPlain(ahead: seq<int>, behind: seq<int>, c: int, brk: int, limit: int)
    ensures BothWays(ahead, behind, c, brk, limit) >= BothWays(ahead, behind, c, 0, 0)
  {
    WalkAtLeastPlain(ahead, c, brk, limit);
    WalkAtLeastPlain(behind, c, Walk(ahead, c, brk, limit).breaks, limit);
  }

  /** The plain walk along a line counts exactly the stretch of c-stones next
      to the point the line starts beside: the stretch has length n exactly
      when the walk counts n. */
  lemma WalkCountsStretch(moves: seq<Move>, x: int, y: int, dx: int, dy: int, c: int, n: nat)
    requires Unit(dx, dy)
    ensures Stretch(moves, x, y, dx, dy, c, n) <==> Walk(HalfLine(moves, x, y, dx, dy), c, 0, 0).count == n
  {
    var s := HalfLine(moves, x, y, dx, dy);
    var m := Walk(s, c, 0, 0).count;
    assert (forall k :: 0 <= k < m ==> s[k] == c) && (m < |s| ==> s[m] != c) by {
      WalkPlain(s, c, 0, 0);
    }
    forall k | 1 <= k <= m
      ensures OnBoardAlong(x, y, dx, dy, k) && CellAlong(moves, x, y, dx, dy, k) == c
    {
      HalfLineAt(moves, x, y, dx, dy, k - 1);
    }
    HalfLineAt(moves, x, y, dx, dy, m);
    assert Stretch(moves, x, y, dx, dy, c, m);
    if Stretch(moves, x, y, dx, dy, c, n) {
      // The cells just past both stretches, named so that each Stretch's
      // quantifier applies to them and rules out n < m and m < n.
      var past := CellAlong(moves, x, y, dx, dy, n + 1);
      var next := CellAlong(moves, x, y, dx, dy, m + 1);
    }
  }

  /** The k-th entry of the half-line beside (x, y) is the cell k + 1 steps
      away, which is on the board; the cell just past its end is off the board. */
  lemma HalfLineAt(moves: seq<Move>, x: int, y: int, dx: int, dy: int, k: nat)
    requires Unit(dx, dy)
    ensures k < |HalfLine(moves, x, y, dx, dy)| ==>
              OnBoardAlong(x, y, dx, dy, k + 1) && HalfLine(moves, x, y, dx, dy)[k] == CellAlong(moves, x, y, dx, dy, k + 1)
    ensures k == |HalfLine(moves, x, y, dx, dy)| ==> !OnBoardAlong(x, y, dx, dy, k + 1)
  {
    assert HalfLine(moves, x, y, dx, dy) == Line(moves, x + dx, y + dy, dx, dy);
    LineAt(moves, x + dx, y + dy, dx, dy, k);
    AlongStep(x, dx, k);
    AlongStep(y, dy, k);
  }

  /** With no break budget a scan counts the anchor plus the stretches of
      c-stones on both sides of it along the axis. */
  lemma RunPlainIsStretches(moves: seq<Move>, a: Axis, x: int, y: int, c: int, n1: nat, n2: nat)
    requires Stretch(moves, x, y, FirstStep(a).0, FirstStep(a).1, c, n1)
    requires Stretch(moves, x, y, -FirstStep(a).0, -FirstStep(a).1, c, n2)
    ensures Run(moves, a, x, y, c, 0, 0) == 1 + n1 + n2
  {
    var d := FirstStep(a);
    StretchesBothWays(moves, x, y, d.0, d.1, c, n1, n2);
  }

  /** The plain walks on both sides of (x, y) count the two stretches. */
  lemma StretchesBothWays(moves: seq<Move>, x: int, y: int, dx: int, dy: int, c: int, n1: nat, n2: nat)
    requires Unit(dx, dy)
    requires Stretch(moves, x, y, dx, dy, c, n1) && Stretch(moves, x, y, -dx, -dy, c, n2)
    ensures BothWays(HalfLine(moves, x, y, dx, dy), HalfLine(moves, x, y, -dx, -dy), c, 0, 0) == 1 + n1 + n2
  {
    WalkCountsStretch(moves, x, y, dx, dy, c, n1);
    WalkCountsStretch(moves, x, y, -dx, -dy, c, n2);
    BothWaysPlain(HalfLine(moves, x, y, dx, dy), HalfLine(moves, x, y, -dx, -dy), c, n1, n2);
  }

  /** Without a break budget the two walks count independently. */
  lemma BothWaysPlain(ahead: seq<int>, behind: seq<int>, c: int, n1: nat, n2: nat)
    requires Walk(ahead, c, 0, 0).count == n1 && Walk(behind, c, 0, 0).count == n2
    ensures BothWays(ahead, behind, c, 0, 0) == 1 + n1 + n2
  {
    WalkPlain(ahead, c, 0, 0);
  }

  /** Position of a cell along direction (dx, dy): one more with every step in it. */
  function Key(dx: int, dy: int, p: (int, int)): int {
    if dx == 1 then p.0 else if dx == -1 then -p.0 else if dy == 1 then p.1 else -p.1
  }

  /** The n cells from (px, py) on, in direction (dx, dy). */
  function Span(px: int, py: int, dx: int, dy: int, n: nat): set<(int, int)>
    decreases n
  {
    if n == 0 then {} else {(px, py)} + Span(px + dx, py + dy, dx, dy, n - 1)
  }

  lemma KeyStep(dx: int, dy: int, px: int, py: int)
    requires Unit(dx, dy)
    ensures Key(dx, dy, (px + dx, py + dy)) == Key(dx, dy, (px, py)) + 1
  {
  }

  lemma KeyFlip(dx: int, dy: int, q: (int, int))
    requires Unit(dx, dy)
    ensures Key(-dx, -dy, q) == -Key(dx, dy, q)
  {
  }

  /** No cell of a span lies behind its first cell. */
  lemma {:induction false} SpanAhead(px: int, py: int, dx: int, dy: int, n: nat, q: (int, int))
    requires Unit(dx, dy) && q in Span(px, py, dx, dy, n)
    ensures Key(dx, dy, q) >= Key(dx, dy, (px, py))
    decreases n
  {
    if q != (px, py) {
      SpanAhead(px + dx, py + dy, dx, dy, n - 1, q);
      KeyStep(dx, dy, px, py);
    }
  }

  /** A span starting beside (px, py) does not contain (px, py). */
  lemma SpanStartFresh(px: int, py: int, dx: int, dy: int, n: nat)
    requires Unit(dx, dy)
    ensures (px, py) !in Span(px + dx, py + dy, dx, dy, n)
  {
    if (px, py) in Span(px + dx, py + dy, dx, dy, n) {
      SpanAhead(px + dx, py + dy, dx, dy, n, (px, py));
      KeyStep(dx, dy, px, py);
    }
  }

  /** A span of n cells has n distinct members. */
  lemma {:induction false} SpanSize(px: int, py: int, dx: int, dy: int, n: nat)
    requires Unit(dx, dy)
    ensures |Span(px, py, dx, dy, n)| == n
    decreases n
  {
    if n > 0 {
      var rest := Span(px + dx, py + dy, dx, dy, n - 1);
      SpanSize(px + dx, py + dy, dx, dy, n - 1);
      SpanStartFresh(px, py, dx, dy, n - 1);
      assert Span(px, py, dx, dy, n) == {(px, py)} + rest;
    }
  }

  /** Every cell of a span is some number of steps along it, fewer than its length. */
  lemma {:induction false} SpanIndex(px: int, py: int, dx: int, dy: int, n: nat, q: (int, int)) returns (k: nat)
    requires Unit(dx, dy) && q in Span(px, py, dx, dy, n)
    ensures k < n && q == (Along(px, dx, k), Along(py, dy, k))
    decreases n
  {
    if q == (px, py) {
      k := 0;
    } else {
      var j := SpanIndex(px + dx, py + dy, dx, dy, n - 1, q);
      AlongStep(px, dx, j);
      AlongStep(py, dy, j);
      k := j + 1;
    }
  }

  /** Each cell of the span a plain walk along a line counts holds colour c. */
  lemma SpanColoured(moves: seq<Move>, px: int, py: int, dx: int, dy: int, c: int, q: (int, int))
    requires Unit(dx, dy)
    requires q in Span(px, py, dx, dy, Walk(Line(moves, px, py, dx, dy), c, 0, 0).count)
    ensures Cell(moves, q.0, q.1) == c
  {
    var s := Line(moves, px, py, dx, dy);
    var k := SpanIndex(px, py, dx, dy, Walk(s, c, 0, 0).count, q);
    WalkPlain(s, c, 0, 0);
    LineAt(moves, px, py, dx, dy, k);
  }

  /** The cells a plain walk beside (x, y) counts: as many as it counts, all
      of colour c, all strictly ahead of (x, y) in the walk's direction. */
  lemma SideCells(moves: seq<Move>, x: int, y: int, dx: int, dy: int, c: int) returns (side: set<(int, int)>)
    requires Unit(dx, dy)
    ensures |side| == Walk(HalfLine(moves, x, y, dx, dy), c, 0, 0).count
    ensures forall q :: q in side ==> Cell(moves, q.0, q.1) == c
    ensures forall q :: q in side ==> Key(dx, dy, q) > Key(dx, dy, (x, y))
  {
    var n := Walk(HalfLine(moves, x, y, dx, dy), c, 0, 0).count;
    side := Span(x + dx, y + dy, dx, dy, n);
    SpanSize(x + dx, y + dy, dx, dy, n);
    WalkSpanColoured(moves, x, y, dx, dy, c);
    SpanBeyond(x, y, dx, dy, n);
  }

  /** The cells a plain walk beside (x, y) counts are all of colour c. */
  lemma WalkSpanColoured(moves: seq<Move>, x: int, y: int, dx: int, dy: int, c: int)
    requires Unit(dx, dy)
    ensures var n := Walk(HalfLine(moves, x, y, dx, dy), c, 0, 0).count;
            forall q :: q in Span(x + dx, y + dy, dx, dy, n) ==> Cell(moves, q.0, q.1) == c
  {
    var n := Walk(HalfLine(moves, x, y, dx, dy), c, 0, 0).count;
    assert HalfLine(moves, x, y, dx, dy) == Line(moves, x + dx, y + dy, dx, dy);
    forall q | q in Span(x + dx, y + dy, dx, dy, n) ensures Cell(moves, q.0, q.1) == c {
      SpanColoured(moves, x + dx, y + dy, dx, dy, c, q);
    }
  }

  /** Every cell of the span starting beside (x, y) lies ahead of (x, y). */
  lemma SpanBeyond(x: int, y: int, dx: int, dy: int, n: nat)
    requires Unit(dx, dy)
    ensures forall q :: q in Span(x + dx, y + dy, dx, dy, n) ==> Key(dx, dy, q) > Key(dx, dy, (x, y))
  {
    KeyStep(dx, dy, x, y);
    forall q | q in Span(x + dx, y + dy, dx, dy, n) ensures Key(dx, dy, q) > Key(dx, dy, (x, y)) {
      SpanAhead(x + dx, y + dy, dx, dy, n, q);
    }
  }

  /** Cells strictly ahead of p and cells strictly behind it (each side
      seen in its own direction) are disjoint and miss p. */
  lemma ApartSides(dx: int, dy: int, p: (int, int), side1: set<(int, int)>, side2: set<(int, int)>)
    requires Unit(dx, dy)
    requires forall q :: q in side1 ==> Key(dx, dy, q) > Key(dx, dy, p)
    requires forall q :: q in side2 ==> Key(-dx, -dy, q) > Key(-dx, -dy, p)
    ensures |side1 + side2 + {p}| == 1 + |side1| + |side2|
  {
    KeyFlip(dx, dy, p);
    forall q | q in side2 ensures Key(dx, dy, q) < Key(dx, dy, p) {
      KeyFlip(dx, dy, q);
    }
    assert side1 * side2 == {};
    assert |side1 + side2| == |side1| + |side2|;
    assert p !in side1 + side2;
  }

  /** A plain scan through a stone of colour c counts distinct cells of
      colour c, so it never exceeds the number of moves of that colour. */
  lemma RunWithinStones(moves: seq<Move>, a: Axis, x: int, y: int, c: int)
    requires c != Empty && Cell(moves, x, y) == c
    ensures Run(moves, a, x, y, c, 0, 0) <= ColourCount(moves, c)
  {
    var d := FirstStep(a);
    BothWaysWithinStones(moves, x, y, d.0, d.1, c);
  }

  /** The anchor and the two stretches beside it are distinct cells of colour c. */
  lemma BothWaysWithinStones(moves: seq<Move>, x: int, y: int, dx: int, dy: int, c: int)
    requires Unit(dx, dy) && c != Empty && Cell(moves, x, y) == c
    ensures BothWays(HalfLine(moves, x, y, dx, dy), HalfLine(moves, x, y, -dx, -dy), c, 0, 0) <= ColourCount(moves, c)
  {
    var side1 := SideCells(moves, x, y, dx, dy, c);
    var side2 := SideCells(moves, x, y, -dx, -dy, c);
    BothWaysPlain(HalfLine(moves, x, y, dx, dy), HalfLine(moves, x, y, -dx, -dy), c, |side1|, |side2|);
    ApartSides(dx, dy, (x, y), side1, side2);
    CellsOfColourBounded(moves, side1 + side2 + {(x, y)}, c);
  }
}
