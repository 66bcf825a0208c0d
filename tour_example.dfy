/**
 * A closed knight's tour of the 8x8 board from the corner (0, 0), and what
 * it shows about the search: started from the corner, open or closed, the
 * search succeeds, and rotating the tour gives a closed tour from every
 * cell, so the search succeeds from every start.
 */
module KnightTourExample {
  import opened KnightBoard
  import opened KnightTour

  /** Cell i of the tour. */
  function TourCell(i: int): Cell {
    if i < 32 then
      if i < 16 then
        if i < 8 then
          if i < 4 then
            if i < 2 then
              if i < 1 then Cell(0, 0) else Cell(2, 1)
            else
              if i < 3 then Cell(0, 2) else Cell(1, 0)
          else
            if i < 6 then
              if i < 5 then Cell(3, 1) else Cell(5, 0)
            else
              if i < 7 then Cell(7, 1) else Cell(6, 3)
        else
          if i < 12 then
            if i < 10 then
              if i < 9 then Cell(7, 5) else Cell(6, 7)
            else
              if i < 11 then Cell(4, 6) else Cell(2, 7)
          else
            if i < 14 then
              if i < 13 then Cell(0, 6) else Cell(1, 4)
            else
              if i < 15 then Cell(2, 6) else Cell(0, 7)
      else
        if i < 24 then
          if i < 20 then
            if i < 18 then
              if i < 17 then Cell(1, 5) else Cell(0, 3)
            else
              if i < 19 then Cell(1, 1) else Cell(3, 0)
          else
            if i < 22 then
              if i < 21 then Cell(5, 1) else Cell(7, 0)
            else
              if i < 23 then Cell(6, 2) else Cell(7, 4)
        else
          if i < 28 then
            if i < 26 then
              if i < 25 then Cell(6, 6) else Cell(4, 7)
            else
              if i < 27 then Cell(5, 5) else Cell(7, 6)
          else
            if i < 30 then
              if i < 29 then Cell(5, 7) else Cell(3, 6)
            else
              if i < 31 then Cell(1, 7) else Cell(0, 5)
    else
      if i < 48 then
        if i < 40 then
          if i < 36 then
            if i < 34 then
              if i < 33 then Cell(1, 3) else Cell(0, 1)
            else
              if i < 35 then Cell(2, 2) else Cell(3, 4)
          else
            if i < 38 then
              if i < 37 then Cell(4, 2) else Cell(5, 4)
            else
              if i < 39 then Cell(7, 3) else Cell(6, 1)
        else
          if i < 44 then
            if i < 42 then
              if i < 41 then Cell(4, 0) else Cell(5, 2)
            else
              if i < 43 then Cell(6, 0) else Cell(7, 2)
          else
            if i < 46 then
              if i < 45 then Cell(6, 4) else Cell(4, 3)
            else
              if i < 47 then Cell(3, 5) else Cell(2, 3)
      else
        if i < 56 then
          if i < 52 then
            if i < 50 then
              if i < 49 then Cell(0, 4) else Cell(1, 6)
            else
              if i < 51 then Cell(3, 7) else Cell(2, 5)
          else
            if i < 54 then
              if i < 53 then Cell(3, 3) else Cell(4, 5)
            else
              if i < 55 then Cell(2, 4) else Cell(3, 2)
        else
          if i < 60 then
            if i < 58 then
              if i < 57 then Cell(4, 4) else Cell(5, 6)
            else
              if i < 59 then Cell(7, 7) else Cell(6, 5)
          else
            if i < 62 then
              if i < 61 then Cell(5, 3) else Cell(4, 1)
            else
              if i < 63 then Cell(2, 0) else Cell(1, 2)
  }

  /** The position in the tour of the cell with board entry e. */
  function TourPos(e: int): int {
    if e < 32 then
      if e < 16 then
        if e < 8 then
          if e < 4 then
            if e < 2 then
              if e < 1 then 0 else 3
            else
              if e < 3 then 62 else 19
          else
            if e < 6 then
              if e < 5 then 40 else 5
            else
              if e < 7 then 42 else 21
        else
          if e < 12 then
            if e < 10 then
              if e < 9 then 33 else 18
            else
              if e < 11 then 1 else 4
          else
            if e < 14 then
              if e < 13 then 61 else 20
            else
              if e < 15 then 39 else 6
      else
        if e < 24 then
          if e < 20 then
            if e < 18 then
              if e < 17 then 2 else 63
            else
              if e < 19 then 34 else 55
          else
            if e < 22 then
              if e < 21 then 36 else 41
            else
              if e < 23 then 22 else 43
        else
          if e < 28 then
            if e < 26 then
              if e < 25 then 17 else 32
            else
              if e < 27 then 47 else 52
          else
            if e < 30 then
              if e < 29 then 45 else 60
            else
              if e < 31 then 7 else 38
    else
      if e < 48 then
        if e < 40 then
          if e < 36 then
            if e < 34 then
              if e < 33 then 48 else 13
            else
              if e < 35 then 54 else 35
          else
            if e < 38 then
              if e < 37 then 56 else 37
            else
              if e < 39 then 44 else 23
        else
          if e < 44 then
            if e < 42 then
              if e < 41 then 31 else 16
            else
              if e < 43 then 51 else 46
          else
            if e < 46 then
              if e < 45 then 53 else 26
            else
              if e < 47 then 59 else 8
      else
        if e < 56 then
          if e < 52 then
            if e < 50 then
              if e < 49 then 12 else 49
            else
              if e < 51 then 14 else 29
          else
            if e < 54 then
              if e < 53 then 10 else 57
            else
              if e < 55 then 24 else 27
        else
          if e < 60 then
            if e < 58 then
              if e < 57 then 15 else 30
            else
              if e < 59 then 11 else 50
          else
            if e < 62 then
              if e < 61 then 25 else 28
            else
              if e < 63 then 9 else 58
  }

  /** The tour as a path. */
  ghost function CornerTour(): (p: seq<Cell>)
    ensures |p| == LastMove
    ensures forall i :: 0 <= i < |p| ==> p[i] == TourCell(i)
  {
    seq(LastMove, i => TourCell(i))
  }

  /** A step of one or two columns and two or one rows is a knight move. */
  lemma KnightStep(a: Cell, b: Cell)
    requires var dx, dy := b.x - a.x, b.y - a.y;
      ((dx == 1 || dx == -1) && (dy == 2 || dy == -2)) || ((dx == 2 || dx == -2) && (dy == 1 || dy == -1))
    ensures KnightMove(a, b)
  {
    var dx, dy := b.x - a.x, b.y - a.y;
    var i := if (dx, dy) == Moves[0] then 0 else if (dx, dy) == Moves[1] then 1
      else if (dx, dy) == Moves[2] then 2 else if (dx, dy) == Moves[3] then 3
      else if (dx, dy) == Moves[4] then 4 else if (dx, dy) == Moves[5] then 5
      else if (dx, dy) == Moves[6] then 6 else 7;
    assert Target(a.x, a.y, i) == b;
  }

  /** Each cell of the tour is on the board, and TourPos finds it. */
  lemma TourCellsPlaced(i: int)
    requires 0 <= i < LastMove
    ensures InBounds(TourCell(i).x, TourCell(i).y)
    ensures TourPos(Index(TourCell(i).x, TourCell(i).y)) == i
  {
  }

  /** Each cell of the tour is a knight step from the one before it, and the last from the first. */
  lemma TourSteps(i: int)
    requires 0 <= i < LastMove
    ensures var a, b := TourCell(i), TourCell(if i + 1 < LastMove then i + 1 else 0);
      var dx, dy := b.x - a.x, b.y - a.y;
      ((dx == 1 || dx == -1) && (dy == 2 || dy == -2)) || ((dx == 2 || dx == -2) && (dy == 1 || dy == -1))
  {
  }

  /** CornerTour is a closed knight's tour from (0, 0). */
  lemma CornerTourIsTour()
    ensures IsTour(CornerTour(), Cell(0, 0), true)
  {
    var p := CornerTour();
    forall i | 0 <= i < |p|
      ensures InBounds(p[i].x, p[i].y)
    {
      TourCellsPlaced(i);
    }
    forall i, j | 0 <= i < j < |p|
      ensures p[i] != p[j]
    {
      TourCellsPlaced(i);
      TourCellsPlaced(j);
    }
    forall i | 0 <= i < |p|
      ensures KnightMove(p[i], p[if i + 1 < |p| then i + 1 else 0])
    {
      TourSteps(i);
      KnightStep(p[i], p[if i + 1 < |p| then i + 1 else 0]);
    }
    assert KnightMove(p[|p| - 1], p[0]);
  }

  /** From the corner (0, 0) the search succeeds, for an open and for a closed tour. */
  lemma CornerTourFound()
    ensures Search(EmptyBoard(), 0, 0, 1, false, Cell(0, 0)).Some?
    ensures Search(EmptyBoard(), 0, 0, 1, true, Cell(0, 0)).Some?
  {
    CornerTourIsTour();
    TourComplete(Cell(0, 0), false, CornerTour());
    TourComplete(Cell(0, 0), true, CornerTour());
  }

  /** Starting a closed tour at its r-th cell gives a closed tour from that cell. */
  lemma RotatedTour(p: seq<Cell>, r: int)
    requires |p| > 0 && IsTour(p, p[0], true) && 0 <= r < |p|
    ensures IsTour(p[r..] + p[..r], p[r], true)
  {
    var q := p[r..] + p[..r];
    var n := |p|;
    assert forall i :: 0 <= i < n ==> q[i] == p[if i < n - r then i + r else i + r - n];
    forall i | 0 <= i < n - 1
      ensures KnightMove(q[i], q[i + 1])
    {
      if i == n - r - 1 {
        assert q[i] == p[n - 1] && q[i + 1] == p[0];
      }
    }
    if r > 0 {
      assert q[n - 1] == p[r - 1];
    }
  }

  /**
   * On the 8x8 board the search succeeds from every start, open or closed:
   * the corner tour, started at the start cell, is a closed tour from it.
   */
  lemma EveryStartFound(start: Cell, closed: bool)
    requires InBounds(start.x, start.y)
    ensures Search(EmptyBoard(), start.x, start.y, 1, closed, start).Some?
  {
    var p := CornerTour();
    CornerTourIsTour();
    TourCoversBoard(p, Cell(0, 0), true);
    var r :| 0 <= r < |p| && p[r] == start;
    RotatedTour(p, r);
    TourComplete(start, closed, p[r..] + p[..r]);
  }
}
