/**
 * The Warnsdorff knight's-tour search: depth-first over the 8x8 board,
 * marking each visited cell with its 1-based order and pushing it on the
 * path, trying the free targets in ascending degree and undoing the mark and
 * the push when no continuation completes the tour.
 *
 * `Search` is the reference definition of the whole search on board values;
 * `SolveWarnsdorff` is the in-place search on the `visited` array, proved to
 * compute exactly `Search`. The lemmas then show what a successful search
 * produces: a knight tour of the whole board in the order the board records.
 */
module KnightTour {
  import opened KnightBoard
  import opened CandidateOrder

  /** The last visit order: the tour is complete when cell 64 is marked. */
  const LastMove: int := BoardSize * BoardSize

  datatype Option<T> = None | Some(value: T)

  /** What a successful search leaves: the final board and the cells it appended to the path. */
  datatype Outcome = Outcome(board: Board, path: seq<Cell>)

  ghost predicate OnBoard(p: seq<Cell>) {
    forall i :: 0 <= i < |p| ==> InBounds(p[i].x, p[i].y)
  }

  ghost predicate Distinct(p: seq<Cell>) {
    forall i, j :: 0 <= i < j < |p| ==> p[i] != p[j]
  }

  /** Each cell of p is one knight move from the one before it. */
  ghost predicate KnightPath(p: seq<Cell>) {
    forall i :: 0 <= i < |p| - 1 ==> KnightMove(p[i], p[i + 1])
  }

  /** Every cell of p was unvisited on board b. */
  ghost predicate AllFree(b: Board, p: seq<Cell>)
    requires WellFormed(b)
  {
    forall i :: 0 <= i < |p| ==> Free(b, p[i].x, p[i].y)
  }

  /** b2 is b with the i-th cell of p marked k + i, and every other cell as it was. */
  ghost predicate Marks(b: Board, b2: Board, p: seq<Cell>, k: int)
    requires WellFormed(b) && OnBoard(p)
  {
    && WellFormed(b2)
    && (forall i :: 0 <= i < |p| ==> At(b2, p[i].x, p[i].y) == k + i)
    && (forall y, x :: InBounds(x, y) && Cell(x, y) !in p ==> At(b2, x, y) == At(b, x, y))
  }

  /** A full knight's tour from start; a closed one also returns to start. */
  ghost predicate IsTour(p: seq<Cell>, start: Cell, closed: bool) {
    && |p| == LastMove
    && p[0] == start
    && OnBoard(p)
    && Distinct(p)
    && KnightPath(p)
    && (closed ==> KnightMove(p[|p| - 1], start))
  }

  // ------------------------------------------------------------------
  // The reference definition of the search.

  /**
   * nextMoves as the search tries them: the candidates of (x, y) on b in
   * ascending degree, ties in offset order.
   */
  ghost function NextCandidates(b: Board, x: int, y: int): (r: seq<Candidate>)
    requires WellFormed(b)
    ensures OnBoardFrom(r, 0)
  {
    SortedCandidatesFree(b, x, y);
    SortByDegree(Candidates(b, x, y))
  }

  /** The sorted candidates of (x, y) are free knight targets of it on b. */
  lemma SortedCandidatesFree(b: Board, x: int, y: int)
    requires WellFormed(b)
    ensures FreeFrom(b, SortByDegree(Candidates(b, x, y)), 0)
    ensures forall j :: 0 <= j < |SortByDegree(Candidates(b, x, y))| ==>
      KnightMove(Cell(x, y), Cell(SortByDegree(Candidates(b, x, y))[j].x, SortByDegree(Candidates(b, x, y))[j].y))
  {
    var s := Candidates(b, x, y);
    forall j | 0 <= j < |SortByDegree(s)|
      ensures Free(b, SortByDegree(s)[j].x, SortByDegree(s)[j].y)
      ensures KnightMove(Cell(x, y), Cell(SortByDegree(s)[j].x, SortByDegree(s)[j].y))
    {
      var c := SortByDegree(s)[j];
      SortPermutes(s);
      assert c in multiset(SortByDegree(s));
      assert c in s;
      CandidateIsKnightMove(b, x, y, c);
    }
  }

  /**
   * solveWarnsdorff(x, y, k) on board b: mark (x, y) with k; at k == 64
   * succeed, unless the tour must be closed and (x, y) is not a knight move
   * from start; otherwise try the sorted candidates in turn.
   */
  ghost function Search(b: Board, x: int, y: int, k: int, closed: bool, start: Cell): (r: Option<Outcome>)
    requires WellFormed(b) && InBounds(x, y) && 1 <= k <= LastMove
    decreases LastMove - k, 1, 0
  {
    var b1 := Set(b, x, y, k);
    if k == LastMove then
      if !closed || KnightMove(Cell(x, y), start) then Some(Outcome(b1, [Cell(x, y)])) else None
    else
      match TryAll(b1, NextCandidates(b1, x, y), 0, k, closed, start)
      case Some(o) => Some(Outcome(o.board, [Cell(x, y)] + o.path))
      case None => None
  }

  /** Every candidate from index i on lies on the board. */
  ghost predicate OnBoardFrom(cands: seq<Candidate>, i: int) {
    forall j :: 0 <= i <= j < |cands| ==> InBounds(cands[j].x, cands[j].y)
  }

  /** Every candidate from index i on is a free cell of b. */
  ghost predicate FreeFrom(b: Board, cands: seq<Candidate>, i: int)
    requires WellFormed(b)
  {
    forall j :: 0 <= i <= j < |cands| ==> Free(b, cands[j].x, cands[j].y)
  }

  /**
   * The loop over nextMoves from index i: the first candidate whose search
   * succeeds wins; a failed search leaves the board with its cell reset to -1.
   */
  ghost function TryAll(b: Board, cands: seq<Candidate>, i: int, k: int, closed: bool, start: Cell): Option<Outcome>
    requires WellFormed(b) && 1 <= k < LastMove && 0 <= i <= |cands|
    requires OnBoardFrom(cands, i)
    decreases LastMove - k, 0, |cands| - i
  {
    if i == |cands| then None
    else
      var c := cands[i];
      match Search(b, c.x, c.y, k + 1, closed, start)
      case Some(o) => Some(o)
      case None => TryAll(Set(b, c.x, c.y, Unvisited), cands, i + 1, k, closed, start)
  }

  /** The last cell: an open search succeeds there, a closed one exactly when it is a knight move from start. */
  lemma LastCellRule(b: Board, x: int, y: int, closed: bool, start: Cell)
    requires WellFormed(b) && InBounds(x, y)
    ensures !closed ==> Search(b, x, y, LastMove, closed, start).Some?
    ensures closed ==> (Search(b, x, y, LastMove, closed, start).Some? <==> KnightMove(Cell(x, y), start))
    ensures Search(b, x, y, LastMove, closed, start).Some? ==>
      Search(b, x, y, LastMove, closed, start).value == Outcome(Set(b, x, y, LastMove), [Cell(x, y)])
  {
  }

  /** After marking (x, y) with k < 64, the search is the loop over its sorted candidates. */
  lemma SearchStep(b: Board, x: int, y: int, k: int, closed: bool, start: Cell)
    requires WellFormed(b) && InBounds(x, y) && 1 <= k < LastMove
    ensures var b1 := Set(b, x, y, k);
      var t := TryAll(b1, NextCandidates(b1, x, y), 0, k, closed, start);
      && (t.Some? ==> Search(b, x, y, k, closed, start) == Some(Outcome(t.value.board, [Cell(x, y)] + t.value.path)))
      && (t.None? ==> Search(b, x, y, k, closed, start).None?)
  {
  }

  /** One turn of the loop over the candidates: the first wins if its search succeeds, else the rest are tried on the same board. */
  lemma TryAllStep(b: Board, cands: seq<Candidate>, i: int, k: int, closed: bool, start: Cell)
    requires WellFormed(b) && 1 <= k < LastMove && 0 <= i < |cands|
    requires FreeFrom(b, cands, i)
    ensures var r := Search(b, cands[i].x, cands[i].y, k + 1, closed, start);
      && (r.Some? ==> TryAll(b, cands, i, k, closed, start) == r)
      && (r.None? ==> TryAll(b, cands, i, k, closed, start) == TryAll(b, cands, i + 1, k, closed, start))
  {
    SetSame(b, cands[i].x, cands[i].y);
  }

  /** A successful TryAll is the successful search of one of its candidates. */
  lemma {:induction false} TryAllPicks(b: Board, cands: seq<Candidate>, i: int, k: int, closed: bool, start: Cell)
    returns (j: int)
    requires WellFormed(b) && 1 <= k < LastMove && 0 <= i <= |cands|
    requires FreeFrom(b, cands, i)
    requires TryAll(b, cands, i, k, closed, start).Some?
    ensures i <= j < |cands|
    ensures Search(b, cands[j].x, cands[j].y, k + 1, closed, start) == TryAll(b, cands, i, k, closed, start)
    decreases |cands| - i
  {
    TryAllStep(b, cands, i, k, closed, start);
    if Search(b, cands[i].x, cands[i].y, k + 1, closed, start).Some? {
      j := i;
    } else {
      j := TryAllPicks(b, cands, i + 1, k, closed, start);
    }
  }

  /** The facts a successful search from (x, y) with visit order k establishes about its outcome o on board b. */
  ghost predicate SoundOutcome(b: Board, x: int, y: int, k: int, closed: bool, start: Cell, o: Outcome)
    requires WellFormed(b)
  {
    && |o.path| == LastMove + 1 - k
    && |o.path| > 0
    && o.path[0] == Cell(x, y)
    && OnBoard(o.path)
    && Distinct(o.path)
    && KnightPath(o.path)
    && AllFree(b, o.path)
    && Marks(b, o.board, o.path, k)
    && (closed ==> KnightMove(o.path[|o.path| - 1], start))
  }

  /** Prepending a cell that p avoids keeps the cells distinct. */
  lemma PrependDistinct(c: Cell, p: seq<Cell>)
    requires Distinct(p) && c !in p
    ensures Distinct([c] + p)
  {
    var q := [c] + p;
    forall i, j | 0 <= i < j < |q|
      ensures q[i] != q[j]
    {
      if i > 0 {
        assert q[i] == p[i - 1] && q[j] == p[j - 1];
      } else {
        assert q[j] == p[j - 1];
      }
    }
  }

  /** Prepending a cell a knight move before p's first keeps a knight path. */
  lemma PrependKnightPath(c: Cell, p: seq<Cell>)
    requires KnightPath(p) && |p| > 0 && KnightMove(c, p[0])
    ensures KnightPath([c] + p)
  {
    var q := [c] + p;
    forall i | 0 <= i < |q| - 1
      ensures KnightMove(q[i], q[i + 1])
    {
      if i > 0 {
        assert q[i] == p[i - 1] && q[i + 1] == p[i];
      }
    }
  }

  /** The cells free once (x, y) is marked, together with (x, y), were free before. */
  lemma PrependAllFree(b: Board, x: int, y: int, k: int, p: seq<Cell>)
    requires WellFormed(b) && Free(b, x, y) && 1 <= k
    requires AllFree(Set(b, x, y, k), p)
    ensures AllFree(b, [Cell(x, y)] + p)
  {
    var q := [Cell(x, y)] + p;
    forall i | 0 <= i < |q|
      ensures Free(b, q[i].x, q[i].y)
    {
      if i > 0 {
        assert q[i] == p[i - 1];
        assert Free(Set(b, x, y, k), p[i - 1].x, p[i - 1].y);
        SetAt(b, x, y, k, p[i - 1].x, p[i - 1].y);
      }
    }
  }

  /** Marking (x, y) with k and then the cells of p from k + 1 marks [(x, y)] + p from k. */
  lemma PrependMarks(b: Board, x: int, y: int, k: int, p: seq<Cell>, b2: Board)
    requires WellFormed(b) && InBounds(x, y) && OnBoard(p) && Cell(x, y) !in p
    requires Marks(Set(b, x, y, k), b2, p, k + 1)
    ensures OnBoard([Cell(x, y)] + p)
    ensures Marks(b, b2, [Cell(x, y)] + p, k)
  {
    var b1 := Set(b, x, y, k);
    var q := [Cell(x, y)] + p;
    assert At(b2, x, y) == k by {
      SetAt(b, x, y, k, x, y);
    }
    forall i | 0 <= i < |q|
      ensures InBounds(q[i].x, q[i].y)
      ensures At(b2, q[i].x, q[i].y) == k + i
    {
      if i > 0 {
        assert q[i] == p[i - 1];
      }
    }
    forall y', x' | InBounds(x', y') && Cell(x', y') !in q
      ensures At(b2, x', y') == At(b, x', y')
    {
      assert Cell(x', y') !in p;
      SetAt(b, x, y, k, x', y');
    }
  }

  /** Prepending the marked cell (x, y) to a sound outcome from a knight target of it gives a sound outcome. */
  lemma ExtendSound(b: Board, x: int, y: int, k: int, c: Cell, closed: bool, start: Cell, o: Outcome)
    requires WellFormed(b) && Free(b, x, y) && 1 <= k < LastMove
    requires KnightMove(Cell(x, y), c)
    requires SoundOutcome(Set(b, x, y, k), c.x, c.y, k + 1, closed, start, o)
    ensures SoundOutcome(b, x, y, k, closed, start, Outcome(o.board, [Cell(x, y)] + o.path))
  {
    assert Cell(x, y) !in o.path by {
      SetAt(b, x, y, k, x, y);
      assert !Free(Set(b, x, y, k), x, y);
      forall i | 0 <= i < |o.path|
        ensures o.path[i] != Cell(x, y)
      {
        assert Free(Set(b, x, y, k), o.path[i].x, o.path[i].y);
      }
    }
    PrependDistinct(Cell(x, y), o.path);
    PrependKnightPath(Cell(x, y), o.path);
    PrependAllFree(b, x, y, k, o.path);
    PrependMarks(b, x, y, k, o.path, o.board);
    var p := [Cell(x, y)] + o.path;
    assert p[|p| - 1] == o.path[|o.path| - 1];
  }

  /**
   * What a successful search from a free cell (x, y) with visit order k
   * appends: the 65 - k cells from (x, y) onwards, distinct, unvisited
   * before, each a knight move from the previous one, with the i-th marked
   * k + i on the final board and nothing else changed; a closed search ends
   * a knight move from start.
   */
  lemma {:induction false} SearchSound(b: Board, x: int, y: int, k: int, closed: bool, start: Cell)
    requires WellFormed(b) && Free(b, x, y) && 1 <= k <= LastMove
    requires Search(b, x, y, k, closed, start).Some?
    ensures SoundOutcome(b, x, y, k, closed, start, Search(b, x, y, k, closed, start).value)
    decreases LastMove - k
  {
    var b1 := Set(b, x, y, k);
    if k < LastMove {
      var cands := NextCandidates(b1, x, y);
      SortedCandidatesFree(b1, x, y);
      var j := TryAllPicks(b1, cands, 0, k, closed, start);
      var c := cands[j];
      var o := TryAll(b1, cands, 0, k, closed, start).value;
      assert SoundOutcome(b1, c.x, c.y, k + 1, closed, start, o) by {
        SearchSound(b1, c.x, c.y, k + 1, closed, start);
      }
      ExtendSound(b, x, y, k, Cell(c.x, c.y), closed, start, o);
      SearchStep(b, x, y, k, closed, start);
    } else {
      LastSound(b, x, y, closed, start);
    }
  }

  lemma LastSound(b: Board, x: int, y: int, closed: bool, start: Cell)
    requires WellFormed(b) && Free(b, x, y)
    requires Search(b, x, y, LastMove, closed, start).Some?
    ensures SoundOutcome(b, x, y, LastMove, closed, start, Search(b, x, y, LastMove, closed, start).value)
  {
    var o := Search(b, x, y, LastMove, closed, start).value;
    assert o == Outcome(Set(b, x, y, LastMove), [Cell(x, y)]);
  }

  /**
   * A top-level search (empty board, order 1, from start) that succeeds
   * yields a full knight's tour from start, closed when asked for, and its
   * final board records the tour: cell i of the path holds i + 1.
   */
  lemma TourFromSearch(start: Cell, closed: bool)
    requires InBounds(start.x, start.y)
    requires Search(EmptyBoard(), start.x, start.y, 1, closed, start).Some?
    ensures var o := Search(EmptyBoard(), start.x, start.y, 1, closed, start).value;
      && IsTour(o.path, start, closed)
      && WellFormed(o.board)
      && forall i :: 0 <= i < |o.path| ==> At(o.board, o.path[i].x, o.path[i].y) == i + 1
  {
    SearchSound(EmptyBoard(), start.x, start.y, 1, closed, start);
  }

  // ------------------------------------------------------------------
  // Completeness: a search fails only when no tour from its cell exists.

  /** If the search of the j-th candidate succeeds, the loop from any i <= j succeeds. */
  lemma {:induction false} TryAllReaches(b: Board, cands: seq<Candidate>, i: int, j: int, k: int, closed: bool, start: Cell)
    requires WellFormed(b) && 1 <= k < LastMove && 0 <= i <= j < |cands|
    requires FreeFrom(b, cands, i)
    requires Search(b, cands[j].x, cands[j].y, k + 1, closed, start).Some?
    ensures TryAll(b, cands, i, k, closed, start).Some?
    decreases j - i
  {
    TryAllStep(b, cands, i, k, closed, start);
    if i < j && Search(b, cands[i].x, cands[i].y, k + 1, closed, start).None? {
      TryAllReaches(b, cands, i + 1, j, k, closed, start);
    }
  }

  /** A free knight target of (x, y) on b is among the sorted candidates of (x, y). */
  lemma TargetIsCandidate(b: Board, x: int, y: int, c: Cell) returns (j: int)
    requires WellFormed(b) && KnightMove(Cell(x, y), c) && Free(b, c.x, c.y)
    ensures 0 <= j < |NextCandidates(b, x, y)|
    ensures NextCandidates(b, x, y)[j].x == c.x && NextCandidates(b, x, y)[j].y == c.y
  {
    var i :| 0 <= i < |Moves| && Target(x, y, i) == c;
    var e := CandidateAt(b, x, y, i);
    CandidatesExact(b, x, y, e);
    SortPermutes(Candidates(b, x, y));
    assert e in multiset(NextCandidates(b, x, y));
    j :| 0 <= j < |NextCandidates(b, x, y)| && NextCandidates(b, x, y)[j] == e;
  }

  /** The cells after the first of a path free on b are free once its first cell is marked. */
  lemma RestFree(b: Board, k: int, p: seq<Cell>)
    requires WellFormed(b) && |p| > 0 && OnBoard(p) && Distinct(p) && AllFree(b, p)
    ensures AllFree(Set(b, p[0].x, p[0].y, k), p[1..])
  {
    var q := p[1..];
    forall i | 0 <= i < |q|
      ensures Free(Set(b, p[0].x, p[0].y, k), q[i].x, q[i].y)
    {
      assert q[i] == p[i + 1];
      SetAt(b, p[0].x, p[0].y, k, q[i].x, q[i].y);
    }
  }

  /**
   * The search from (x, y) with visit order k succeeds whenever some path
   * could complete it: 65 - k distinct free cells from (x, y), each a knight
   * move from the one before, ending a knight move from start when closed.
   */
  lemma {:induction false} SearchComplete(b: Board, x: int, y: int, k: int, closed: bool, start: Cell, p: seq<Cell>)
    requires WellFormed(b) && 1 <= k <= LastMove
    requires |p| == LastMove + 1 - k && p[0] == Cell(x, y)
    requires OnBoard(p) && Distinct(p) && KnightPath(p) && AllFree(b, p)
    requires closed ==> KnightMove(p[|p| - 1], start)
    ensures Search(b, x, y, k, closed, start).Some?
    decreases LastMove - k
  {
    if k == LastMove {
      LastCellRule(b, x, y, closed, start);
    } else {
      var b1 := Set(b, x, y, k);
      var q := p[1..];
      RestFree(b, k, p);
      assert KnightPath(q) && OnBoard(q) && Distinct(q);
      assert KnightMove(Cell(x, y), q[0]);
      var j := TargetIsCandidate(b1, x, y, q[0]);
      var cands := NextCandidates(b1, x, y);
      SearchComplete(b1, q[0].x, q[0].y, k + 1, closed, start, q);
      SortedCandidatesFree(b1, x, y);
      TryAllReaches(b1, cands, 0, j, k, closed, start);
      SearchStep(b, x, y, k, closed, start);
    }
  }

  /** The top-level search succeeds whenever a tour from start exists. */
  lemma TourComplete(start: Cell, closed: bool, p: seq<Cell>)
    requires IsTour(p, start, closed)
    ensures Search(EmptyBoard(), start.x, start.y, 1, closed, start).Some?
  {
    SearchComplete(EmptyBoard(), start.x, start.y, 1, closed, start, p);
  }

  /** The board entries of the cells of p. */
  ghost function Indices(p: seq<Cell>): set<int>
    requires OnBoard(p)
  {
    set i | 0 <= i < |p| :: Index(p[i].x, p[i].y)
  }

  /** Distinct cells of the board have as many distinct entries. */
  lemma {:induction false} IndicesCount(p: seq<Cell>)
    requires OnBoard(p) && Distinct(p)
    ensures |Indices(p)| == |p|
  {
    if p != [] {
      var q, c := p[..|p| - 1], p[|p| - 1];
      IndicesCount(q);
      var e := Index(c.x, c.y);
      assert e !in Indices(q) by {
        forall i | 0 <= i < |q|
          ensures Index(q[i].x, q[i].y) != e
        {
          IndexInjective(q[i].x, q[i].y, c.x, c.y);
          assert q[i] == p[i];
        }
      }
      assert Indices(p) == Indices(q) + {e} by {
        forall i | 0 <= i < |p|
          ensures Index(p[i].x, p[i].y) in Indices(q) + {e}
        {
          if i < |q| {
            assert p[i] == q[i];
          }
        }
      }
    }
  }

  /** The entries 0 .. n - 1. */
  ghost function Range(n: nat): (r: set<int>)
    ensures forall e :: e in r <==> 0 <= e < n
    ensures |r| == n
  {
    if n == 0 then {} else Range(n - 1) + {n - 1}
  }

  /** A tour of 64 distinct cells covers the board: every cell is on it. */
  lemma TourCoversBoard(p: seq<Cell>, start: Cell, closed: bool)
    requires IsTour(p, start, closed)
    ensures forall y, x :: InBounds(x, y) ==> Cell(x, y) in p
  {
    var all := Range(BoardSize * BoardSize);
    var s := Indices(p);
    IndicesCount(p);
    assert s <= all by {
      forall e | e in s
        ensures e in all
      {
        var i :| 0 <= i < |p| && e == Index(p[i].x, p[i].y);
        IndexInjective(p[i].x, p[i].y, 0, 0);
      }
    }
    assert |all - s| == 0;
    forall y, x | InBounds(x, y)
      ensures Cell(x, y) in p
    {
      IndexInjective(x, y, x, y);
      assert Index(x, y) in all;
      assert Index(x, y) !in all - s;
      var i :| 0 <= i < |p| && Index(x, y) == Index(p[i].x, p[i].y);
      IndexInjective(x, y, p[i].x, p[i].y);
    }
  }

  // ------------------------------------------------------------------
  // The search on the visited array.

  /** The closed-tour check: some offset leads from (x, y) back to start. */
  method ConnectsToStart(x: int, y: int, start: Cell) returns (closes: bool)
    ensures closes <==> KnightMove(Cell(x, y), start)
  {
    for i := 0 to |Moves|
      invariant forall j :: 0 <= j < i ==> Target(x, y, j) != start
    {
      var nx, ny := x + Moves[i].0, y + Moves[i].1;
      if nx == start.x && ny == start.y {
        assert Target(x, y, i) == start;
        return true;
      }
    }
    return false;
  }

  /**
   * nextMoves: every valid target of (x, y) with its degree, all degrees
   * taken on the same board, sorted by ascending degree (stable).
   */
  method NextMoves(x: int, y: int, visited: array2<int>, ghost b: Board) returns (nextMoves: seq<Candidate>)
    requires Holds(visited, b)
    ensures nextMoves == NextCandidates(b, x, y)
  {
    HoldsSnapshot(visited, b);
    nextMoves := [];
    for i := 0 to |Moves|
      invariant nextMoves == CandidatesUpTo(b, x, y, i)
    {
      var nx, ny := x + Moves[i].0, y + Moves[i].1;
      assert Cell(nx, ny) == Target(x, y, i);
      var valid := IsValid(nx, ny, visited);
      if valid {
        var degree := GetDegree(nx, ny, visited);
        nextMoves := nextMoves + [Candidate(nx, ny, degree)];
      }
    }
    nextMoves := SortByDegree(nextMoves);
  }

  /** visited[y][x] = v, on the board value b that visited holds. */
  method Mark(visited: array2<int>, x: int, y: int, v: int, ghost b: Board)
    requires Holds(visited, b) && InBounds(x, y)
    modifies visited
    ensures Holds(visited, Set(b, x, y, v))
  {
    visited[y, x] := v;
    forall y', x' | InBounds(x', y')
      ensures visited[y', x'] == Set(b, x, y, v)[Index(x', y')]
    {
      SetAt(b, x, y, v, x', y');
    }
  }

  /**
   * solveWarnsdorff: marks (x, y) with moveCount and pushes it on the path,
   * then completes or recurses. On the board b that `visited` holds it
   * computes exactly Search; on failure the path is as on entry and (x, y)
   * is -1 again.
   */
  method SolveWarnsdorff(x: int, y: int, moveCount: int, visited: array2<int>, path: seq<Cell>,
                         closed: bool, start: Cell, ghost b: Board)
    returns (found: bool, path': seq<Cell>)
    requires Holds(visited, b)
    requires InBounds(x, y) && 1 <= moveCount <= LastMove
    modifies visited
    ensures found == Search(b, x, y, moveCount, closed, start).Some?
    ensures found ==> path' == path + Search(b, x, y, moveCount, closed, start).value.path
    ensures found ==> Holds(visited, Search(b, x, y, moveCount, closed, start).value.board)
    ensures !found ==> path' == path && Holds(visited, Set(b, x, y, Unvisited))
    ensures !found && At(b, x, y) == Unvisited ==> Holds(visited, b)
    decreases LastMove - moveCount, 1
  {
    Mark(visited, x, y, moveCount, b);
    path' := path + [Cell(x, y)];
    ghost var b1 := Set(b, x, y, moveCount);

    if moveCount == LastMove {
      LastCellRule(b, x, y, closed, start);
      if closed {
        var closes := ConnectsToStart(x, y, start);
        if closes {
          return true, path';
        }
      } else {
        return true, path';
      }
    } else {
      var nextMoves := NextMoves(x, y, visited, b1);
      SortedCandidatesFree(b1, x, y);
      SearchStep(b, x, y, moveCount, closed, start);
      ghost var t := TryAll(b1, nextMoves, 0, moveCount, closed, start);
      var ok, p := TryMoves(moveCount, visited, path', nextMoves, closed, start, b1);
      if ok {
        assert p == path + ([Cell(x, y)] + t.value.path);
        return true, p;
      }
    }

    // Backtrack
    Mark(visited, x, y, Unvisited, b1);
    assert Set(b1, x, y, Unvisited) == Set(b, x, y, Unvisited);
    path' := path'[..|path'| - 1];
    assert path' == path;
    SetSame(b, x, y);
    found := false;
  }

  /**
   * The loop over nextMoves: searches from each candidate in turn, with
   * visit order moveCount + 1, until one succeeds. A failed candidate leaves
   * board and path as they were, so every candidate starts from the same
   * state.
   */
  method TryMoves(moveCount: int, visited: array2<int>, path: seq<Cell>,
                  nextMoves: seq<Candidate>, closed: bool, start: Cell, ghost b: Board)
    returns (found: bool, path': seq<Cell>)
    requires Holds(visited, b)
    requires 1 <= moveCount < LastMove
    requires FreeFrom(b, nextMoves, 0)
    modifies visited
    ensures found == TryAll(b, nextMoves, 0, moveCount, closed, start).Some?
    ensures found ==> path' == path + TryAll(b, nextMoves, 0, moveCount, closed, start).value.path
    ensures found ==> Holds(visited, TryAll(b, nextMoves, 0, moveCount, closed, start).value.board)
    ensures !found ==> path' == path && Holds(visited, b)
    decreases LastMove - moveCount, 0
  {
    ghost var r := TryAll(b, nextMoves, 0, moveCount, closed, start);
    for i := 0 to |nextMoves|
      invariant Holds(visited, b)
      invariant TryAll(b, nextMoves, i, moveCount, closed, start) == r
    {
      var move := nextMoves[i];
      TryAllStep(b, nextMoves, i, moveCount, closed, start);
      var ok, p := SolveWarnsdorff(move.x, move.y, moveCount + 1, visited, path, closed, start, b);
      if ok {
        return true, p;
      }
    }
    return false, path;
  }

  /**
   * startKnightTour's search: a fresh all -1 board, an empty path and visit
   * order 1 at start. On success the path is a full knight's tour from start
   * (closed when asked for) and the board holds i + 1 at the i-th cell.
   */
  method SolveTour(start: Cell, closed: bool) returns (found: bool, path: seq<Cell>, visited: array2<int>)
    requires InBounds(start.x, start.y)
    ensures visited.Length0 == BoardSize && visited.Length1 == BoardSize
    ensures found == Search(EmptyBoard(), start.x, start.y, 1, closed, start).Some?
    ensures found ==> path == Search(EmptyBoard(), start.x, start.y, 1, closed, start).value.path
    ensures found ==> IsTour(path, start, closed)
    ensures found ==> forall y, x :: InBounds(x, y) ==> Cell(x, y) in path
    ensures found ==> forall i :: 0 <= i < |path| ==> visited[path[i].y, path[i].x] == i + 1
    ensures !found ==> path == [] && forall y, x :: InBounds(x, y) ==> visited[y, x] == Unvisited
    ensures (exists p :: IsTour(p, start, closed)) ==> found
  {
    visited := new int[BoardSize, BoardSize]((_, _) => Unvisited);
    assert Holds(visited, EmptyBoard());
    found, path := SolveWarnsdorff(start.x, start.y, 1, visited, [], closed, start, EmptyBoard());
    if found {
      TourFromSearch(start, closed);
      TourCoversBoard(path, start, closed);
    } else if p :| IsTour(p, start, closed) {
      TourComplete(start, closed, p);
    }
  }
}
