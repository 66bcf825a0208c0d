/**
 * The 8x8 board of the knight's tour: cells, the eight knight offsets, the
 * `visited` array (-1 for an unvisited cell, k for the k-th cell of the
 * tour) and its value view, and the two queries the search asks of a cell:
 * is it a legal target, and how many legal targets does it have onwards.
 */
module KnightBoard {

  const BoardSize: int := 8

  /** A board position: column `x`, row `y`. */
  datatype Cell = Cell(x: int, y: int)

  /** The eight (dx, dy) knight offsets, in the order the search tries them. */
  const Moves: seq<(int, int)> := [
    (2, 1), (1, 2), (-1, 2), (-2, 1),
    (-2, -1), (-1, -2), (1, -2), (2, -1)
  ]

  /** Marker of an unvisited cell. */
  const Unvisited: int := -1

  predicate InBounds(x: int, y: int) {
    0 <= x < BoardSize && 0 <= y < BoardSize
  }

  /** The cell reached from (x, y) by offset number i. */
  function Target(x: int, y: int, i: int): (c: Cell)
    requires 0 <= i < |Moves|
  {
    Cell(x + Moves[i].0, y + Moves[i].1)
  }

  /** `b` is one knight move away from `a`. */
  predicate KnightMove(a: Cell, b: Cell) {
    exists i :: 0 <= i < |Moves| && Target(a.x, a.y, i) == b
  }

  // ------------------------------------------------------------------
  // The board as a value: the 64 cells row by row, so that visited[y][x]
  // is entry Index(x, y).

  type Board = seq<int>

  function Index(x: int, y: int): int {
    y * BoardSize + x
  }

  ghost predicate WellFormed(b: Board) {
    |b| == BoardSize * BoardSize
  }

  /** The value of cell (x, y). */
  ghost function At(b: Board, x: int, y: int): int
    requires WellFormed(b) && InBounds(x, y)
  {
    b[Index(x, y)]
  }

  /** Distinct cells have distinct entries. */
  lemma IndexInjective(x: int, y: int, x': int, y': int)
    requires InBounds(x, y) && InBounds(x', y')
    ensures 0 <= Index(x, y) < BoardSize * BoardSize
    ensures Index(x, y) == Index(x', y') <==> x == x' && y == y'
  {
  }

  /** (x, y) is on the board and not yet visited. */
  ghost predicate Free(b: Board, x: int, y: int)
    requires WellFormed(b)
  {
    InBounds(x, y) && At(b, x, y) == Unvisited
  }

  /** The board with cell (x, y) set to v. */
  ghost function Set(b: Board, x: int, y: int, v: int): (r: Board)
    requires WellFormed(b) && InBounds(x, y)
    ensures WellFormed(r)
  {
    b[Index(x, y) := v]
  }

  /** Set changes cell (x, y) and no other. */
  lemma SetAt(b: Board, x: int, y: int, v: int, x': int, y': int)
    requires WellFormed(b) && InBounds(x, y) && InBounds(x', y')
    ensures At(Set(b, x, y, v), x', y') == if x == x' && y == y' then v else At(b, x', y')
  {
    IndexInjective(x, y, x', y');
  }

  /** The board where no cell has been visited. */
  ghost function EmptyBoard(): (b: Board)
    ensures WellFormed(b)
    ensures forall i :: 0 <= i < |b| ==> b[i] == Unvisited
  {
    seq(BoardSize * BoardSize, _ => Unvisited)
  }

  /** Writing back the value a cell already holds changes nothing. */
  lemma SetSame(b: Board, x: int, y: int)
    requires WellFormed(b) && InBounds(x, y)
    ensures Set(b, x, y, At(b, x, y)) == b
  {
  }

  /** The array a holds the board value b. */
  ghost predicate Holds(a: array2<int>, b: Board)
    reads a
  {
    && a.Length0 == BoardSize && a.Length1 == BoardSize
    && WellFormed(b)
    && forall y, x :: InBounds(x, y) ==> a[y, x] == b[Index(x, y)]
  }

  /** The value of the `visited` array. */
  ghost function Snapshot(a: array2<int>): (b: Board)
    reads a
    requires a.Length0 == BoardSize && a.Length1 == BoardSize
    ensures Holds(a, b)
  {
    var b := seq(BoardSize * BoardSize, i requires 0 <= i < BoardSize * BoardSize reads a =>
      a[i / BoardSize, i % BoardSize]);
    assert forall y, x :: InBounds(x, y) ==> a[y, x] == b[Index(x, y)] by {
      forall y, x | InBounds(x, y)
        ensures a[y, x] == b[Index(x, y)]
      {
        var i := Index(x, y);
        assert i / BoardSize == y && i % BoardSize == x;
      }
    }
    b
  }

  /** An array holds exactly one board value. */
  lemma HoldsSnapshot(a: array2<int>, b: Board)
    requires Holds(a, b)
    ensures Snapshot(a) == b
  {
    var s := Snapshot(a);
    forall i | 0 <= i < |b|
      ensures s[i] == b[i]
    {
      var y, x := i / BoardSize, i % BoardSize;
      assert i == Index(x, y);
    }
  }

  // ------------------------------------------------------------------
  // Degree: the number of offsets leading to a free cell.

  /** The offsets below n that lead from (x, y) to a free cell. */
  ghost function FreeOffsets(b: Board, x: int, y: int, n: int): set<int>
    requires WellFormed(b) && 0 <= n <= |Moves|
  {
    set i | 0 <= i < n && Free(b, Target(x, y, i).x, Target(x, y, i).y)
  }

  /** Warnsdorff's degree of (x, y): how many of its knight targets are free. */
  ghost function Degree(b: Board, x: int, y: int): int
    requires WellFormed(b)
  {
    |FreeOffsets(b, x, y, |Moves|)|
  }

  /** Counting one more offset adds one exactly when it leads to a free cell. */
  lemma FreeOffsetsStep(b: Board, x: int, y: int, n: int)
    requires WellFormed(b) && 0 <= n < |Moves|
    ensures |FreeOffsets(b, x, y, n + 1)| ==
      |FreeOffsets(b, x, y, n)| + if Free(b, Target(x, y, n).x, Target(x, y, n).y) then 1 else 0
  {
    var t := Target(x, y, n);
    var s, s' := FreeOffsets(b, x, y, n), FreeOffsets(b, x, y, n + 1);
    assert n !in s;
    assert s' == s + if Free(b, t.x, t.y) then {n} else {};
  }

  lemma {:induction false} FreeOffsetsBound(b: Board, x: int, y: int, n: int)
    requires WellFormed(b) && 0 <= n <= |Moves|
    ensures |FreeOffsets(b, x, y, n)| <= n
  {
    if n > 0 {
      FreeOffsetsBound(b, x, y, n - 1);
      FreeOffsetsStep(b, x, y, n - 1);
    } else {
      assert FreeOffsets(b, x, y, n) == {};
    }
  }

  /** A degree is a count of knight targets, so it lies in 0..8. */
  lemma DegreeBound(b: Board, x: int, y: int)
    requires WellFormed(b)
    ensures 0 <= Degree(b, x, y) <= |Moves|
  {
    FreeOffsetsBound(b, x, y, |Moves|);
  }

  // ------------------------------------------------------------------
  // The operations on the array.

  /** isValid: (x, y) is on the board and visited[y][x] is -1. */
  predicate IsValid(x: int, y: int, visited: array2<int>)
    reads visited
    requires visited.Length0 == BoardSize && visited.Length1 == BoardSize
    ensures IsValid(x, y, visited) <==> Free(Snapshot(visited), x, y)
  {
    InBounds(x, y) && visited[y, x] == Unvisited
  }

  /** getDegree: counts the offsets from (x, y) that land on a valid cell. */
  method GetDegree(x: int, y: int, visited: array2<int>) returns (count: int)
    requires visited.Length0 == BoardSize && visited.Length1 == BoardSize
    ensures count == Degree(Snapshot(visited), x, y)
    ensures 0 <= count <= |Moves|
  {
    ghost var b := Snapshot(visited);
    count := 0;
    for i := 0 to |Moves|
      invariant count == |FreeOffsets(b, x, y, i)|
      invariant count <= i
    {
      FreeOffsetsStep(b, x, y, i);
      var nx, ny := x + Moves[i].0, y + Moves[i].1;
      assert Cell(nx, ny) == Target(x, y, i);
      var valid := IsValid(nx, ny, visited);
      assert valid == Free(b, nx, ny);
      if valid {
        count := count + 1;
      }
    }
  }
}
