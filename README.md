# Knight's tour and longest increasing subsequence, in Dafny

A model of the two searches at the core of KnightsTour-LMIS (`script.js`):

- **The Warnsdorff knight's tour.** `solveWarnsdorff` runs a depth-first
  search over an 8x8 board. The board is the `visited` array: -1 marks an
  unvisited cell, and k marks the k-th cell of the tour. At each step the
  search marks the current cell and pushes it on the path. At move 64 it
  succeeds; a closed tour also needs the last cell to be a knight move from
  the start. Otherwise it collects the free knight targets (`isValid`), each
  with its degree (`getDegree`: how many free targets it has). It sorts them
  by ascending degree and tries them in turn. When none completes the tour it
  unmarks the cell and pops the path.
- **The longest strictly increasing subsequence (LMIS).**
  `findLMISRecursive` explores an include/exclude tree over the input. Each
  leaf replaces the global best when it is strictly longer. A greedy scan in
  `visualizeLMIS` then recovers the positions of the result's values in the
  input.

Files and modules:

- `knight_board.dfy` (`KnightBoard`): the offsets, the board, `IsValid` and
  `GetDegree`. The `visited` array is an `array2<int>` indexed `[y, x]`, as in
  the source. `Board` is its value: the 64 entries row by row.
- `candidate_order.dfy` (`CandidateOrder`): the candidate list and its stable
  sort by degree.
- `knight_tour.dfy` (`KnightTour`): the reference search `Search`/`TryAll`
  on board values, and the in-place `SolveWarnsdorff` on the array, proved
  equal to it. It also holds the lemmas on what a successful search yields.
- `tour_example.dfy` (`KnightTourExample`): a closed tour from the corner
  (0, 0), and the consequence that the search succeeds from every start.
  The failure branch of `startKnightTour` (lines 156-157) is therefore never
  taken on the 8x8 board.
- `lmis.dfy` (`Lmis`): the search on values `Explore`, the class
  `LmisSearch` that keeps the best in a field (the global `lmisBestPath`),
  the matching loop `MatchIndices` and the driver `StartLmis`.

`tourType` and `startPos` are globals in the source. Here they are the
parameters `closed` and `start`.

`findLMISRecursive` explores the exclude branch first (line 333) and the
include branch second (lines 336-339). This order decides which of several
longest subsequences is kept: `[50, 40, 30]` gives `[30]`. The result is
always the first longest leaf in that order.

## Model

| member | source | states |
|---|---|---|
| KnightBoard.IsValid | script.js:113-115 | holds exactly when (x, y) is on the board and its entry is -1 (`Free` on the board value) |
| KnightBoard.GetDegree | script.js:118-124 | returns the number of the eight offsets that land on a free cell, in 0..8 |
| KnightBoard.DegreeBound | script.js:118-124 | every degree lies between 0 and 8 |
| CandidateOrder.CandidatesUpTo | script.js:184-191 | the loop over the first n offsets, collecting each valid target with its degree; a reference definition with no ensures, specified by `CandidatesUpToExact` and `CandidatesExact` |
| CandidateOrder.Candidates | script.js:184-191 | nextMoves before sorting; a reference definition with no ensures, specified by `CandidatesExact` |
| CandidateOrder.CandidatesExact | script.js:184-191 | a candidate is in the list iff some offset leads to a free cell carrying it, with that cell's degree |
| CandidateOrder.CandidateIsKnightMove | script.js:184-191 | each candidate is a free cell one knight move away, with its degree on the same board |
| CandidateOrder.Insert | script.js:194 | one insertion step of the stable sort; its ensures states only the length; order and permutation are `InsertSorted` and `InsertPermutes` |
| CandidateOrder.SortByDegree | script.js:194 | the sort by ascending degree; its ensures states only the length; what it computes is stated by `SortPermutes`, `SortSorted`, `SortStable` and `SortUnique` |
| CandidateOrder.SortPermutes | script.js:194 | the sort is a permutation of the candidates |
| CandidateOrder.SortSorted | script.js:194 | the sorted candidates have ascending degrees |
| CandidateOrder.SortStable | script.js:194 | candidates of equal degree keep their order, so ties go in offset order |
| CandidateOrder.SortUnique | script.js:194 | any permutation of the candidates in ascending degree that keeps the order within each degree equals this sort, so every stable sort by degree tries the moves in the model's order |
| KnightTour.NextCandidates | script.js:184-194 | the sorted candidates as the search tries them; its ensures states that they all lie on the board |
| KnightTour.Search | script.js:163-204 | the reference definition of the whole search on board values, with no ensures; `SolveWarnsdorff` is proved equal to it and `SearchSound`, `SearchComplete` state what it yields |
| KnightTour.TryAll | script.js:196-198 | the loop over the sorted candidates on board values, with no ensures: the first successful search wins, and a failed one resets its cell to -1 |
| KnightTour.NextMoves | script.js:184-194 | the valid targets, each with its degree taken on the current board, sorted stably by degree |
| KnightTour.ConnectsToStart | script.js:169-174 | true exactly when start is one knight move from (x, y) |
| KnightTour.LastCellRule | script.js:167-181 | at move 64 an open tour always succeeds; a closed one succeeds iff the cell is a knight move from start |
| KnightTour.Mark | script.js:164 | the array then holds the board with only (x, y) changed to v |
| KnightTour.SolveWarnsdorff | script.js:163-204 | computes exactly the reference search; on success the tour cells are appended to the path; on failure the path is as on entry and the cell is -1 again, so a free cell leaves the whole board as on entry |
| KnightTour.TryMoves | script.js:196-198 | tries the candidates in order and stops at the first that succeeds; a failed candidate leaves board and path unchanged |
| KnightTour.SearchSound | script.js:163-204 | a successful search from a free cell with move k appends 65 - k distinct, previously free cells, each a knight move from the one before; the i-th is marked k + i and nothing else changes; a closed search ends a knight move from start |
| KnightTour.TourFromSearch | script.js:163-204 | a top-level success is a tour of 64 distinct cells from start, closed when asked, with cell i of the path marked i + 1 |
| KnightTour.TryAllReaches | script.js:196-198 | if the search of some candidate succeeds, the loop over the candidates succeeds |
| KnightTour.SearchComplete | script.js:163-204 | the search from (x, y) at move k succeeds whenever 65 - k distinct free cells from (x, y), each a knight move from the one before, could complete it (ending a knight move from start when closed) |
| KnightTour.TourComplete | script.js:141-146 | the top-level search succeeds whenever a tour from start exists, so a failure means no tour exists |
| KnightTourExample.CornerTourIsTour | script.js:141-146 | a concrete 64-cell path from (0, 0) is a closed knight's tour |
| KnightTourExample.CornerTourFound | script.js:141-146 | from the corner (0, 0) the search succeeds, for an open and for a closed tour |
| KnightTourExample.RotatedTour | script.js:141-146 | starting a closed tour at any of its cells gives a closed tour from that cell |
| KnightTourExample.EveryStartFound | script.js:141-157 | from every start, open or closed, the search succeeds, so the failure message is never reached |
| KnightTour.IndicesCount | script.js:163-165 | distinct board cells occupy as many distinct entries of the board |
| KnightTour.TourCoversBoard | script.js:163-165 | a tour of 64 distinct cells visits every cell of the board |
| KnightTour.SolveTour | script.js:141-146 | the fresh all -1 board, an empty path and move 1 at start; on success the path is exactly the tour the reference search `Search` finds (so the same start and tour type always give the same path), a full tour covering the board, and the array records its order; on failure the path is empty and the board all -1; it fails only when no tour from start exists |
| Lmis.Explore | script.js:323-340 | the search on values: the best after the subtree at curr, exclude branch first; a reference definition with no ensures, specified by the lemmas below |
| Lmis.ExploreGrows | script.js:325-328 | the search never replaces the best with a shorter path |
| Lmis.IncludeState | script.js:336-338 | including a value larger than the previous one keeps the path a strictly increasing subsequence |
| Lmis.ExploreSound | script.js:323-340 | the result is a strictly increasing subsequence of the input |
| Lmis.ExploreOptimal | script.js:323-340 | every strictly increasing extension of the current path is a leaf, so the result is at least as long |
| Lmis.ExploreLongest | script.js:323-340 | from the root, the result is a longest strictly increasing subsequence |
| Lmis.ExploreNonEmpty | script.js:323-340 | for a non-empty input the result has length at least one |
| Lmis.FirstLongestAppend | script.js:326-327 | keeping the strictly longer leaf over two runs of leaves keeps the first longest of both |
| Lmis.ExploreFirstLongest | script.js:326-338 | ties: the result is the first leaf of greatest length in exclude-before-include order, or the old best when no leaf is longer |
| Lmis.TieGoesToFirstLeaf | script.js:326-338 | `[50, 40, 30]` gives `[30]` although `[50]` and `[40]` are as long |
| Lmis.ExampleResult | script.js:323-340 | the search on `[3, 10, 2, 1, 20]` returns `[3, 10, 20]` |
| Lmis.LongestExample | script.js:323-340 | the search on `[3, 10, 2, 1, 20]` returns `[3, 10, 20]`, and that is a longest strictly increasing subsequence |
| Lmis.ExampleIndices | script.js:350-357 | for `[3, 10, 2, 1, 20]` the greedy scan matches `[3, 10, 20]` at positions `[0, 1, 4]` |
| Lmis.LmisSearch.constructor | script.js:311 | the best starts empty |
| Lmis.LmisSearch.FindLMISRecursive | script.js:323-340 | the best after the call is exactly what the search on values computes from the old best |
| Lmis.ScanStep | script.js:352-356 | if the rest of the result can still be matched, it still can after one more scanned position |
| Lmis.ScannedStep | script.js:352-356 | one more scanned position keeps the matches greedy |
| Lmis.MatchIndices | script.js:350-357 | the matches are strictly increasing positions holding the result's values in order, each the first possible one; all are matched iff the result is a subsequence of the input |
| Lmis.StartLmis | script.js:288-318 | an empty input is refused; otherwise the result is the first longest strictly increasing subsequence, of length at least one, and all its values are matched |

## Left out

- The DOM: `createBoard`, `selectStart`, `switchTab`, `setTourType`,
  `updateStatus`, `resetKnightBoard`, the highlighting and result box of
  `visualizeLMIS`, and the visual nodes of `startLMIS`. These are display
  side effects with no logic to state.
- `animateTour`: an asynchronous replay with timers, cancellation and
  floating-point SVG coordinates.
- The parsing of the LMIS input (line 292). It rests on JavaScript's
  `parseInt` and `isNaN`. The input is a given `seq<int>`; only the
  refusal of an empty list (line 293) is modelled.
- `startKnightTour` beyond setting up the search: the `isRunning` flag, the
  abort controller and the status messages.
- The path of the tour is a value passed in and returned (`path'`), not one
  JavaScript array shared by every call. Each push and pop is modelled at
  its place. Only one path is ever live, so no aliasing is lost.
- The JavaScript sort is modelled as a stable insertion sort by degree
  (`CandidateOrder.SortByDegree`). The standard requires
  `Array.prototype.sort` to be stable. Permutation, order and stability are
  proved of it, and that any sort with these three properties gives the
  same order (`CandidateOrder.SortUnique`).
- JavaScript numbers are doubles; the model uses unbounded integers. Board
  entries (up to 64) and degrees (up to 8) are small whole numbers. The LMIS
  input values come from `parseInt` (line 292), which yields whole-number
  doubles; a long digit string may round past 2^53 or give Infinity, but
  the search compares values with `>` and the matching scan (line 353)
  with `===`; both are exact on those doubles, so they order and equate
  them as integers would. The rounding of a parsed
  value and the infinities are not modelled.
- Running time: both searches are exponential in the worst case. Only
  termination is proved: by the moves left for the tour and by
  `|input| - currIndex` for the LMIS search.
