# Numberlink solvers, modelled in Dafny

The repository solves a grid puzzle. Characters stand on a square grid, each
character twice. Every pair must be joined by an orthogonal path. Paths do not
share cells, and no path may fill all four cells of a 2x2 block. The
repository holds three solvers for it, and this project models all three:

- **The object-oriented solver** (`Point`, `Cell`, `Symbol`, `Line`, `Board`
  and `Solver`):
  - A `Board` keeps a cell matrix, a symbol list and the committed lines. The
    symbol list is regrouped by character on every placement.
  - `addLine` and `removeLine` commit and undo one line.
  - `Solver` finds each line by breadth-first search through empty cells.
    It refuses lines that fill a 2x2 block, and it recurses symbol by
    symbol, removing the last line when the rest cannot be finished.
- **The compact `PuzzleSolver`** (PuzzleSolver.cpp, and its identical copy
  in Course-work/Puzzle-solver.cpp, where each line sits 69 lines further
  down):
  - It keeps a character grid, a `used` matrix and a map from each
    character to its positions.
  - It runs a breadth-first search with a four-point-window 2x2 test.
  - Its greedy `solve` takes the characters in ascending order.
- **`NumberlinkSolver`** (Numberlink.cpp):
  - It numbers the characters in ascending order.
  - Its breadth-first search asks `wouldCreate2x2` before every step.
    `wouldCreate2x2` marks two cells, counts, and restores them.
  - It writes the pair's number along the path it finds.

Value types (`Point`, `Cell`, `Symbol`, `Line`) are datatypes. Their setters
are functions that return the updated value, because the C++ code stores them
by copy. `Board`, `Solver`, `PuzzleSolver` and `NumberlinkSolver` are classes
whose methods reassign `seq` and `map` fields. A `vector<vector<T>>` is a
`seq<seq<T>>`, and `std::pair<int, int>` coordinates are `Points.Point`. A
`std::map<char, ...>` is iterated in ascending character order
(`CharOrder.SortedKeys`).

The three breadth-first searches share one proof, in module `Search`. It is
parameterised by the step relation each solver allows. Each solver's own
loop carries the same invariants:

- every discovered cell has a recorded distance;
- every cell other than the source has a parent one step closer;
- the queue is ordered by distance;
- every cell already expanded has had its successors discovered.

From these, a found path is a shortest route and contains no repeated
cell, and an exhausted queue means that no route exists. The same loops are
at PuzzleSolver/Solver.cpp:115-190, PuzzleSolver/PuzzleSolver.cpp:42-90 and
PuzzleSolver/Numberlink.cpp:318-375. The table cites the first one.

## Model

| member | source | states |
|---|---|---|
| Points.DefaultPointIsOrigin | PuzzleSolver/Point.h:8 | the default point is (0, 0) and a missing `y` defaults to 0 |
| Points.EqualIsIdentity | PuzzleSolver/Point.h:11-13 | `operator==` holds exactly when both coordinates match |
| Points.LessIsLexicographic | PuzzleSolver/Point.h:16-19 | `operator<` compares `x` first and `y` only when the `x` values are equal |
| Points.LessIsStrictOrder | PuzzleSolver/Point.h:16-19 | `<` is irreflexive and transitive |
| Points.LessTrichotomy | Course-work/Puzzle-solver.cpp:9-16 | exactly one of `a < b`, `b < a` and `a == b` holds, so `Point` is a valid map key |
| Cells.Cell.SetContent | PuzzleSolver/Cell.cpp:20-22 | only the content changes |
| Cells.Cell.SetState | PuzzleSolver/Cell.cpp:28-30 | only the state changes |
| Cells.Cell.DisplayChar | PuzzleSolver/Cell.cpp:44-56 | symbol and line cells show their content; every other cell shows a blank |
| Cells.Cell.Clear | PuzzleSolver/Cell.cpp:58-62 | a cleared cell equals the default cell: empty, with no symbol and not part of a line |
| Cells.DefaultCellIsEmpty | PuzzleSolver/Cell.cpp:8-10 | the default cell is empty, has no symbol, and shows a blank |
| Cells.CellPredicates | PuzzleSolver/Cell.cpp:32-42 | `isEmpty` depends on the state only; `hasSymbol` needs ENDPOINT and a non-blank content; `isPartOfLine` means OCCUPIED |
| Cells.AtMostOneRole | PuzzleSolver/Constants.h:39-41 | the state codes are distinct, so at most one of the three predicates holds |
| Cells.ClearIsIdempotent | PuzzleSolver/Cell.cpp:58-62 | clearing twice is the same as clearing once |
| Symbols.Symbol.SetIsConnected | PuzzleSolver/Symbol.cpp:34-36 | only the flag changes; value, row and column are kept |
| Symbols.Symbol.ManhattanDistance | PuzzleSolver/Symbol.cpp:43-47 | non-negative; zero exactly at the same position; at least the row gap and at least the column gap |
| Symbols.NewSymbol | PuzzleSolver/Symbol.cpp:13-16 | a new symbol has the given value and position and is not connected |
| Symbols.DefaultSymbol | PuzzleSolver/Symbol.cpp:9-11 | the default symbol is not connected |
| Symbols.SameValueIsEquivalence | PuzzleSolver/Symbol.cpp:38-41 | `isSameValue` is an equivalence and ignores the connected flag |
| Symbols.ManhattanIsSymmetric | PuzzleSolver/Symbol.cpp:43-47 | the distance is symmetric and zero from a symbol to itself |
| Symbols.InLineIsReflexiveAndSymmetric | PuzzleSolver/Symbol.cpp:49-52 | `isInLine` is reflexive and symmetric |
| Symbols.WalkIsAtLeastManhattan | PuzzleSolver/Symbol.cpp:43-47 | every orthogonal walk between two symbols takes at least their Manhattan distance in steps |
| Lines.Line.SetPath | PuzzleSolver/Line.cpp:43-45 | only the path changes |
| Lines.Line.SetIsValid | PuzzleSolver/Line.cpp:47-49 | only the flag changes |
| Lines.Line.AddPoint | PuzzleSolver/Line.cpp:51-59 | exactly one point is appended; the line becomes valid when that point is the end symbol, and is otherwise left as it was |
| Lines.Line.RemoveLastPoint | PuzzleSolver/Line.cpp:61-72 | a no-op on an empty path; otherwise exactly the last point goes, and the line is invalidated if that point was the end |
| Lines.Line.ClearPath | PuzzleSolver/Line.cpp:74-79 | the path is just the start position and the line is invalid |
| Lines.Line.Crosses2x2Area | PuzzleSolver/Line.cpp:86-110 | false below four points; otherwise true exactly when some point other than the last is the top-left of a 2x2 block all on the path |
| Lines.CornerScan | PuzzleSolver/Line.cpp:95-110 | the scan finds a block exactly when some point other than the last is the top-left of a block all on the path |
| Lines.DefaultLine | PuzzleSolver/Line.cpp:9-11 | the default line is invalid with an empty path |
| Lines.NewLine | PuzzleSolver/Line.cpp:13-25 | a new line is never valid; its path is [start] for equal values and empty otherwise |
| Lines.BlockOnPathIsCover | PuzzleSolver/Line.cpp:100-105 | the four `containsPoint` tests say the 2x2 block is covered by the path's points |
| Lines.AddThenRemoveRestoresPath | PuzzleSolver/Line.cpp:51-72 | `addPoint` then `removeLastPoint` restores the path, and restores the whole line unless the point was the end |
| Lines.ClearPathIsIdempotent | PuzzleSolver/Line.cpp:74-79 | clearing the path twice is the same as once |
| Lines.CrossesMissesLastCorner | PuzzleSolver/Line.cpp:95 | a U-shaped path that fills the block at its last point is not reported by `crosses2x2Area` |
| Grid.DistinctWindowCoversBlock | PuzzleSolver/PuzzleSolver.cpp:29-34 | four distinct points within a span of one row and one column are exactly the cells of a 2x2 block |
| Grid.Filled | PuzzleSolver/PuzzleSolver.cpp:9-10 | `resize(rows, vector(cols, v))` gives a rows x cols matrix holding `v` everywhere |
| Grid.Reversed | PuzzleSolver/PuzzleSolver.cpp:67 | `std::reverse`: same length, element k is element n-1-k of the input |
| Grid.AdjacentIsNeighbour | PuzzleSolver/Solver.cpp:134-135 | the four direction offsets reach every orthogonally adjacent cell |
| Grid.ClosedSetContainsWalk | PuzzleSolver/Solver.cpp:138-189 | a walk made of allowed steps stays inside any set closed under those steps |
| Grid.LayeredWalkBound | PuzzleSolver/Solver.cpp:138-185 | the layering argument of breadth-first search: a walk ends at a discovered cell no farther than its length, or is longer than the distance of the queue's head |
| CharOrder.Least | PuzzleSolver/PuzzleSolver.cpp:105 | the first key a `std::map` visits is a key no greater than any other |
| CharOrder.SortedKeys | PuzzleSolver/PuzzleSolver.cpp:105 | the keys in map iteration order: each key once, strictly ascending |
| SymbolGroups.Filter | PuzzleSolver/Board.cpp:95-97 | a group holds only symbols of its value |
| SymbolGroups.GroupedIsStable | PuzzleSolver/Board.cpp:90-108 | after regrouping, the symbols of each value keep their original order |
| SymbolGroups.GroupedIsPermutation | PuzzleSolver/Board.cpp:90-108 | regrouping is a permutation of the symbol list |
| SymbolGroups.GroupedIsSorted | PuzzleSolver/Board.cpp:103-107 | the regrouped list is in ascending character order |
| SymbolGroups.FilterGroupFrom | PuzzleSolver/Board.cpp:103-107 | writing the groups of increasing keys gives, per value, that value's group or nothing |
| Boards.ClampSize | PuzzleSolver/Board.cpp:19-23 | the size is clamped to [2, 20]: in range it is kept, below it becomes 2, above it becomes 20 |
| Boards.Paint | PuzzleSolver/Board.cpp:130-151 | every path cell other than the line's two ends gets the new cell; every other cell is kept |
| Boards.MarkEnds | PuzzleSolver/Board.cpp:154-159 | exactly the symbols standing on the line's start or end get the flag; the rest are kept |
| Boards.MarkEndsKeepsPlacement | PuzzleSolver/Board.cpp:189-194 | setting or clearing flags never moves or renames a symbol |
| Boards.RemoveUndoesAdd | PuzzleSolver/Board.cpp:164-186 | `removeLine` restores the cells `addLine` painted, when the line ran through default cells |
| Boards.UnmarkUndoesMark | PuzzleSolver/Board.cpp:188-194 | clearing the flags restores the symbols `addLine` marked, when they were not connected before |
| Boards.PairIndex | PuzzleSolver/Board.cpp:237-244 | the first index from `i` holding the same value at another position, or -1 exactly when none does |
| Boards.ConnectedFrom | PuzzleSolver/Board.cpp:249-255 | the scan succeeds exactly when every symbol from `i` on is connected |
| Boards.AvailableFrom | PuzzleSolver/Board.cpp:212-232 | the scan succeeds exactly when every point from `i` on is on the board and is a symbol cell or an empty cell |
| Boards.PermutationKeepsBounds | PuzzleSolver/Board.cpp:100-107 | a reordering of symbols that are all on the board leaves them all on the board |
| Boards.GroupByValue | PuzzleSolver/Board.cpp:95-97 | the map sends each value present to its symbols, in list order |
| Boards.GroupsGrow | PuzzleSolver/Board.cpp:96 | one `push_back` keeps the map in step with one more symbol read |
| Boards.AppendAll | PuzzleSolver/Board.cpp:104-106 | the inner loop appends the group, in order |
| Boards.ConcatenateGroups | PuzzleSolver/Board.cpp:103-107 | the groups of the keys, one after the other |
| Boards.Regroup | PuzzleSolver/Board.cpp:90-108 | the whole regrouping yields the list grouped by value in ascending order |
| Boards.PaintLine | PuzzleSolver/Board.cpp:130-151 | the cell loop of `addLine`/`removeLine` paints exactly the non-end cells of the path |
| Boards.MarkLineEnds | PuzzleSolver/Board.cpp:154-159 | the symbol loop sets the flag of exactly the symbols at the line's ends |
| Boards.Board.constructor | PuzzleSolver/Board.cpp:17-27 | the size is clamped; every cell is empty; no symbols and no lines |
| Boards.Board.Default | PuzzleSolver/Board.cpp:12-15 | a board of size 13 with every cell empty |
| Boards.Board.InitializeEmptyBoard | PuzzleSolver/Board.cpp:29-39 | a size x size matrix of default cells |
| Boards.Board.GetCell | PuzzleSolver/Board.cpp:45-53 | the cell at (row, col); off the board, the top-left cell |
| Boards.Board.SetSymbol | PuzzleSolver/Board.cpp:73-88 | off the board nothing changes; on it the cell becomes an ENDPOINT showing the symbol, and the symbol list grows by that symbol and is regrouped |
| Boards.Board.FindSymbolPairs | PuzzleSolver/Board.cpp:90-108 | the symbol list is regrouped and stays a permutation of itself; nothing else changes |
| Boards.Board.AddLine | PuzzleSolver/Board.cpp:110-162 | succeeds exactly when the line is valid, its cells are available and it fills no 2x2 block. On failure nothing changes. On success the line is appended, its non-end cells become `'-'` OCCUPIED cells and the symbols at its ends become connected |
| Boards.Board.RemoveLine | PuzzleSolver/Board.cpp:164-198 | an index past the end changes nothing; otherwise that line's non-end cells are cleared, the symbols at its ends lose the flag, and only that line is erased |
| Boards.Board.AreCellsAvailable | PuzzleSolver/Board.cpp:210-233 | true exactly when every point is on the board and is a symbol cell or an empty cell |
| Boards.Board.FindPairForSymbol | PuzzleSolver/Board.cpp:235-245 | the smallest index with the same value at a different position, or -1 exactly when there is none |
| Boards.Board.AreAllSymbolsConnected | PuzzleSolver/Board.cpp:247-256 | true exactly when every symbol is connected, including when there are none |
| Boards.Board.Clear | PuzzleSolver/Board.cpp:325-333 | no symbols, no lines, every cell empty, same size |
| Search.RouteIsValidPath | PuzzleSolver/Solver.cpp:160-185 | a route of allowed steps is an in-bounds orthogonal path from start to end |
| Search.SearchStarts | PuzzleSolver/Solver.cpp:129-131 | the start cell, visited and queued, satisfies the search invariant |
| Search.SearchPops | PuzzleSolver/Solver.cpp:138-141 | taking the head off the queue keeps the invariant for expanding it |
| Search.ExpandSkips | PuzzleSolver/Solver.cpp:165-179 | a neighbour off the grid, already visited or not allowed is passed over and the invariant holds |
| Search.ExpandPushes | PuzzleSolver/Solver.cpp:181-184 | marking, parenting and queueing a new neighbour at distance + 1 keeps the invariant |
| Search.ExpandDone | PuzzleSolver/Solver.cpp:161-185 | after all four directions the cell counts as expanded and the search invariant holds again |
| Search.ShortestAtHead | PuzzleSolver/Solver.cpp:140-144 | when the target is at the head of the queue, no route to it is shorter than its distance |
| Search.SearchExhausted | PuzzleSolver/Solver.cpp:186-189 | an empty queue without the target means no route to it exists |
| Search.TraceStep | PuzzleSolver/Solver.cpp:149-152 | one step back along the parents reaches a discovered cell one closer to the start |
| Search.BackChainReversed | PuzzleSolver/Solver.cpp:149-155 | the reversed parent chain is a route without repeats, one longer than the target's distance |
| Solvers.MovesStayOnBoard | PuzzleSolver/Solver.cpp:161-179 | the steps `findShortestPath` allows stay on the board and are orthogonal |
| Solvers.TraceBack | PuzzleSolver/Solver.cpp:144-157 | the reconstructed path is a route without repeats, of length distance + 1 |
| Solvers.ExpandNeighbours | PuzzleSolver/Solver.cpp:160-185 | the neighbour loop keeps the search invariant |
| Solvers.BlockInRow | PuzzleSolver/Solver.cpp:205-215 | the inner loop finds a block exactly when some block of that row is covered |
| Solvers.LineCrossesImpliesPathCrosses | PuzzleSolver/Solver.cpp:192-219 | a line refused by `Line::crosses2x2Area` is refused by `pathCrosses2x2Area` too |
| Solvers.RouteInteriorIsBlank | PuzzleSolver/Solver.cpp:99-107 | the cells between a found route's ends are default cells, so `removeLine` can restore them |
| Solvers.Solver.constructor | PuzzleSolver/Solver.cpp:14-16 | bound to the board, not solved |
| Solvers.Solver.FindShortestPath | PuzzleSolver/Solver.cpp:115-190 | a non-empty result is a shortest repeat-free route through empty cells or the end; an empty result means no route exists |
| Solvers.Solver.PathCrosses2x2Area | PuzzleSolver/Solver.cpp:192-219 | true exactly when the path has four or more points and covers some 2x2 block of the board |
| Solvers.Solver.SolvePuzzle | PuzzleSolver/Solver.cpp:46-113 | true only when every symbol is connected; on false, the cells and lines are as they were; placements are always kept |
| Solvers.Solver.TryLine | PuzzleSolver/Solver.cpp:99-112 | add, recurse, and on failure remove the line again, with the same promises as `solvePuzzle` |
| Solvers.Solver.Solve | PuzzleSolver/Solver.cpp:18-40 | no symbols gives false; true means every symbol is connected; `isSolved` is set only on success |
| PuzzleSolvers.MovesStayOnGrid | PuzzleSolver/PuzzleSolver.cpp:77-81 | the steps `findPath` allows stay on the grid and are orthogonal |
| PuzzleSolvers.TightWindowFillsBlock | PuzzleSolver/PuzzleSolver.cpp:26-40 | on a repeat-free path, a window the rule refuses fills a whole 2x2 block |
| PuzzleSolvers.RouteEntersEnd | PuzzleSolver/PuzzleSolver.cpp:81 | every route to a different end enters it, so the end must be unused |
| PuzzleSolvers.TraceBack | PuzzleSolver/PuzzleSolver.cpp:60-67 | the reconstructed path is a repeat-free route, of length distance + 1 |
| PuzzleSolvers.ExpandNeighbours | PuzzleSolver/PuzzleSolver.cpp:77-86 | the neighbour loop keeps the search invariant |
| PuzzleSolvers.ShortestRoute | PuzzleSolver/PuzzleSolver.cpp:44-89 | the search returns a shortest repeat-free route through unused cells, or empty when there is none |
| PuzzleSolvers.MarkPoints | PuzzleSolver/PuzzleSolver.cpp:99-101 | a cell is used afterwards exactly when it was used before or is one of the points |
| PuzzleSolvers.MarkPositions | PuzzleSolver/PuzzleSolver.cpp:98-102 | the recorded positions of the given characters become used, and nothing else changes |
| PuzzleSolvers.MarkInterior | PuzzleSolver/PuzzleSolver.cpp:127-129 | exactly the path's interior points (indices 1 to size-2) are added to `used` |
| PuzzleSolvers.MarkedAreEndpoints | PuzzleSolver/PuzzleSolver.cpp:94-102 | after the reset, a cell is used exactly when it is a recorded position |
| PuzzleSolvers.NoPairLeft | Course-work/Puzzle-solver.cpp:174-178 | when the loop passes every character without a pair, no character is recorded exactly twice |
| PuzzleSolvers.PairEndsUsed | Course-work/Puzzle-solver.cpp:166-171 | once every recorded position is used, the second cell of each pair is not free |
| PuzzleSolvers.PuzzleSolver.constructor | PuzzleSolver/PuzzleSolver.cpp:8-11 | a blank rows x cols grid, nothing used, no positions, no paths |
| PuzzleSolvers.PuzzleSolver.IsValidPoint | PuzzleSolver/PuzzleSolver.cpp:13-15 | true exactly for the grid's cells |
| PuzzleSolvers.PuzzleSolver.SetSymbol | PuzzleSolver/PuzzleSolver.cpp:17-24 | off the grid nothing changes; on it the character is written, and its position is appended unless it is a blank |
| PuzzleSolvers.PuzzleSolver.Violates2x2Rule | PuzzleSolver/PuzzleSolver.cpp:26-40 | true exactly when some four consecutive points span at most one row and one column |
| PuzzleSolvers.PuzzleSolver.FindPath | PuzzleSolver/PuzzleSolver.cpp:42-90 | a non-empty result is a shortest repeat-free route through unused cells that passes the 2x2 rule; empty means no route, or the shortest one breaks the rule; a used end always gives empty |
| PuzzleSolvers.PuzzleSolver.CommitPath | PuzzleSolver/PuzzleSolver.cpp:121-129 | the path is appended with its character, and exactly its interior points become used |
| PuzzleSolvers.PuzzleSolver.JoinPair | PuzzleSolver/PuzzleSolver.cpp:109-129 | with the end used, the pair is not joined and nothing changes |
| PuzzleSolvers.PuzzleSolver.ResetForSolve | PuzzleSolver/PuzzleSolver.cpp:93-102 | no paths, and a cell is used exactly when it is a recorded position |
| PuzzleSolvers.PuzzleSolver.JoinPairs | PuzzleSolver/PuzzleSolver.cpp:104-132 | true exactly when no character is recorded exactly twice; nothing changes |
| PuzzleSolvers.PuzzleSolver.Solve | Course-work/Puzzle-solver.cpp:161-202 | paths cleared and exactly the recorded positions used; true exactly when no character is recorded twice, so any pair makes it fail |
| Numberlink.SetValue | PuzzleSolver/Numberlink.cpp:386-387 | only the number of cell `p` changes |
| Numberlink.BlocksThrough | PuzzleSolver/Numberlink.cpp:392-394 | the blocks containing a cell are those with corner offsets -1..0 in each direction |
| Numberlink.CountInBlock | PuzzleSolver/Numberlink.cpp:396-408 | the count is 0..4, and 4 exactly when all four cells of the block are on the grid and hold the number |
| Numberlink.FullBlockThroughCorners | PuzzleSolver/Numberlink.cpp:392-414 | some block through the cell is full exactly when one of the four tried blocks is |
| Numberlink.BlocksAround | PuzzleSolver/Numberlink.cpp:389-414 | true exactly when some 2x2 block containing (r1, c1) is full |
| Numberlink.MarksRestored | PuzzleSolver/Numberlink.cpp:416-418 | writing back the saved numbers restores the grid exactly |
| Numberlink.MovesStayOnGrid | PuzzleSolver/Numberlink.cpp:346-352 | the steps `findPath` allows stay on the grid and are orthogonal |
| Numberlink.RouteSparesNumberedCells | PuzzleSolver/Numberlink.cpp:351-352 | every cell a route enters held no number or is the end, so other characters' cells are never crossed |
| Numberlink.PaintedGrows | PuzzleSolver/Numberlink.cpp:372 | numbering one more cell extends the numbered set by that cell |
| Numberlink.RoutePoints | PuzzleSolver/Numberlink.cpp:369-374 | the cells the reconstruction numbers are the route's cells other than `start` |
| Numberlink.PaintedCells | PuzzleSolver/Numberlink.cpp:372 | numbering changes numbers only, each to the path's number; cells outside the set are untouched |
| Numberlink.PaintChain | PuzzleSolver/Numberlink.cpp:369-374 | the loop numbers exactly the cells of the parent chain from the end, stopping short of `start` |
| Numberlink.PaintRoute | PuzzleSolver/Numberlink.cpp:366-375 | the parent chain from the end is a repeat-free route of length distance + 1; exactly its cells other than `start` get the number, characters are kept, `start` is untouched and `end` gets the number |
| Numberlink.Owner | PuzzleSolver/Numberlink.cpp:305-315 | the last of the first n characters whose positions include the cell, or -1 exactly when none does |
| Numberlink.WriteValue | PuzzleSolver/Numberlink.cpp:311-314 | the number is written to exactly the given positions |
| Numberlink.SortedKeysListed | PuzzleSolver/Numberlink.cpp:305 | the map iteration visits each character once, in ascending order |
| Numberlink.RankedGrows | PuzzleSolver/Numberlink.cpp:307-308 | numbering the next character keeps the earlier numbers |
| Numberlink.RanksComplete | PuzzleSolver/Numberlink.cpp:304-316 | after the loop exactly the recorded characters are numbered, each by its rank |
| Numberlink.RanksFollowOrder | PuzzleSolver/Numberlink.cpp:304-308 | the numbers lie in 1..n and follow the character order in both directions |
| Numberlink.NumberedStep | PuzzleSolver/Numberlink.cpp:305-315 | one pass of the loop numbers one more character's positions, the last write winning |
| Numberlink.SameSymbolsTrans | PuzzleSolver/Numberlink.cpp:152-170 | keeping the characters composes across the steps of `solve` |
| Numberlink.NumberedAfterAssign | PuzzleSolver/Numberlink.cpp:302-316 | after `assignValues` every recorded position holds a positive number and the characters are kept |
| Numberlink.PairDrawn | PuzzleSolver/Numberlink.cpp:163-169 | drawing the path of a character recorded twice keeps every cell either as numbered or holding such a character's number |
| Numberlink.PaintKeeps | PuzzleSolver/Numberlink.cpp:366-375 | drawing a path with a positive number keeps the characters and the positive numbers of recorded positions |
| Numberlink.NumberCharacters | PuzzleSolver/Numberlink.cpp:304-315 | the k-th character in ascending order gets k, and its positions are numbered, the last write winning |
| Numberlink.NumberlinkSolver.constructor | PuzzleSolver/Numberlink.cpp:20-37 | a size x size grid of blank cells numbered 0, with no positions and no numbers |
| Numberlink.NumberlinkSolver.IsValid | PuzzleSolver/Numberlink.cpp:290-293 | true exactly for the grid's cells |
| Numberlink.NumberlinkSolver.IsConnected | PuzzleSolver/Numberlink.cpp:295-300 | true exactly when both cells are on the grid and hold the same positive number |
| Numberlink.NumberlinkSolver.ConnectedSymmetric | PuzzleSolver/Numberlink.cpp:295-300 | `isConnected` is symmetric |
| Numberlink.NumberlinkSolver.SetSymbol | PuzzleSolver/Numberlink.cpp:40-52 | 1-based; on the grid the cell shows the character and is appended to its positions; otherwise nothing changes |
| Numberlink.NumberlinkSolver.WouldCreate2x2 | PuzzleSolver/Numberlink.cpp:378-421 | true exactly when, with both cells marked, some 2x2 block through the first cell is on the grid and full; the grid is left unchanged |
| Numberlink.NumberlinkSolver.TryNeighbour | PuzzleSolver/Numberlink.cpp:348-361 | one direction of the neighbour loop keeps the search invariant and leaves the grid unchanged |
| Numberlink.NumberlinkSolver.ExpandNeighbours | PuzzleSolver/Numberlink.cpp:346-363 | the neighbour loop keeps the search invariant and leaves the grid unchanged |
| Numberlink.NumberlinkSolver.SearchPair | PuzzleSolver/Numberlink.cpp:321-364 | found means the end was reached at its shortest distance; not found means no route exists |
| Numberlink.NumberlinkSolver.FindPath | PuzzleSolver/Numberlink.cpp:318-376 | found exactly when a route exists; then a shortest repeat-free route gets the number on every cell but `start`; otherwise the grid is unchanged |
| Numberlink.NumberlinkSolver.AssignValues | PuzzleSolver/Numberlink.cpp:302-316 | characters numbered by ascending rank, and their positions numbered, the last write winning |
| Numberlink.NumberlinkSolver.Solve | PuzzleSolver/Numberlink.cpp:152-173 | characters and positions kept, numbers by rank, and every recorded position ends with a positive number; every cell is as `assignValues` numbered it or holds the number of a character recorded exactly twice, so characters with another count are skipped |

## Left out

- Console menus, input and output are not part of this model: UserInterface, ConsoleUI, Game, `main`, and the menu section of Course-work/Puzzle-solver.cpp. The same goes for rendering: `Board::display`, `PuzzleSolver::displayResult`, `printGrid`, `drawSolution` and `drawPathChar`.
- `Solver::displayIntermediateStep` prints and sleeps. It is a no-op inside `solvePuzzle`.
- `Solver::getHint` only formats a message. `Solver::backtrack` is declared but never defined.
- `Board::loadFromFile` is file input. `Board::loadDefaultBoard` is fixed data, and it re-sizes through a `resize` that keeps the old row lengths. Only freshly built boards are modelled.
- Getters (`getContent`, `getSize`, `getSymbols` and the rest) are field reads.
- `Board::canDrawLineThroughCell` is the predicate `Board.CanDrawLineThroughCell`, used inside `Solvers.Open`. It has no contract of its own.
- `Line::containsPoint` is the predicate `Line.ContainsPoint`.
- The unused `visited` field of Numberlink's `Cell` is carried but never read. Numberlink's warning message for characters without exactly two positions is not modelled.
- Integers are unbounded. The model has no `int` overflow. Characters are ordered by code point, not by C++ signed `char` (bytes 0x80 and above would sort first there).
- Boards.Board.InitializeEmptyBoard: requires an empty matrix, so only the fresh-board path of `resize` is modelled.
- Solvers.Solver.SolvePuzzle: on failure, promises that the cells and lines are restored and the placements kept, not the connected flags. `removeLine` clears the flag of every symbol at the line's ends, even one that another line also ends at.
- PuzzleSolvers.PuzzleSolver.Violates2x2Rule: requires three or more points. For shorter paths `path.size() - 3` wraps around and the loop reads past the end.
- PuzzleSolvers.PuzzleSolver.FindPath: requires `start != end`, and an end that is used or not adjacent, so the reconstructed path has three or more points when it reaches `violates2x2Rule`.
- PuzzleSolvers.PuzzleSolver.Solve: requires the two positions of each pair to differ. Otherwise `findPath` returns a one-point path to `violates2x2Rule`, which wraps around.
- PuzzleSolvers.PuzzleSolver.JoinPair: covers only the case `solve` reaches, a used end. The commit code behind it is `PuzzleSolvers.PuzzleSolver.CommitPath`.
- PuzzleSolvers.PuzzleSolver.constructor: requires non-negative sizes. A negative size makes `resize` throw, and the console passes sizes read from input unchecked.
- Numberlink.NumberlinkSolver.constructor: requires a non-negative size. A negative size makes `resize` fail.
- Numberlink.NumberlinkSolver.Solve: does not say which of the characters recorded twice get a path. That depends on the order of earlier paths, and `FindPath` states it per pair.
- Numberlink.NumberlinkSolver.FindPath: the route is a ghost out-parameter. The source keeps only the numbers it writes.
