/** The backtracking solver of the object-oriented program (Solver.cpp):
    symbols are visited in list order, each unconnected one is joined to
    its pair by a breadth-first shortest path, and the line is undone when
    the rest of the puzzle cannot be finished. */
module Solvers {
  import opened Points
  import opened Grid
  import opened Cells
  import opened Symbols
  import opened Lines
  import opened Boards
  import opened Search

  /** A cell the search may enter on its way to `target`: on the board and
      empty (`canDrawLineThroughCell`), or the target itself. */
  predicate Open(cells: seq<seq<Cell>>, target: Point, p: Point)
  {
    0 <= p.x < |cells| && 0 <= p.y < |cells[p.x]| &&
    (cells[p.x][p.y].IsEmpty() || p == target)
  }

  predicate Step(cells: seq<seq<Cell>>, target: Point, a: Point, b: Point)
  {
    OrthAdjacent(a, b) && Open(cells, target, b)
  }

  /** The step relation of `findShortestPath`. */
  function Moves(cells: seq<seq<Cell>>, target: Point): (Point, Point) -> bool
  {
    (a: Point, b: Point) => Step(cells, target, a, b)
  }

  lemma MovesStayOnBoard(cells: seq<seq<Cell>>, n: int, target: Point)
    requires IsMatrix(cells, n, n)
    ensures GridStep(Moves(cells, target), n, n)
  {
  }

  /** The path reconstruction of `findShortestPath`: follow the parents from
      the target until the (-1, -1) mark, then reverse. */
  method TraceBack(parent: seq<seq<Point>>, ghost n: int, s: Point, e: Point, ghost step: (Point, Point) -> bool,
                   ghost V: set<Point>, ghost dist: map<Point, nat>) returns (path: seq<Point>)
    requires Discovered(n, n, step, s, V, dist, parent) && e in V
    ensures IsRoute(step, path, s, e) && Distinct(path) && |path| == dist[e] + 1
  {
    var back: seq<Point> := [];
    var b := e;
    while b.x != -1 && b.y != -1
      invariant b == NoParent || b in V
      invariant BackChain(step, V, dist, e, back)
      invariant back == [] ==> b == e
      invariant b in V ==> dist[b] + |back| == dist[e]
      invariant b in V && back != [] ==> step(b, back[|back| - 1])
      invariant b !in V ==> back != [] && back[|back| - 1] == s
      decreases if b in V then dist[b] + 1 else 0
    {
      assert b == Point(b.x, b.y);
      back := back + [b];
      b := parent[b.x][b.y];
    }
    BackChainReversed(n, n, step, s, V, dist, parent, e, back);
    path := Reversed(back);
  }

  /** Some 2x2 block of an n x n board has all four cells on `path`. */
  predicate CoversSomeBlock(n: int, path: seq<Point>)
  {
    exists x, y :: 0 <= x < n - 1 && 0 <= y < n - 1 && Block2x2Covered(PointSet(path), Point(x, y))
  }

  /** A line `Line::crosses2x2Area` refuses is refused by
      `pathCrosses2x2Area` too, on a board that holds its path. */
  lemma LineCrossesImpliesPathCrosses(line: Line, n: int)
    requires AllInBounds(n, n, line.path)
    ensures line.Crosses2x2Area() ==> |line.path| >= 4 && CoversSomeBlock(n, line.path)
  {
    if line.Crosses2x2Area() {
      var path := line.path;
      var k :| 0 <= k < |path| - 1 && BlockOnPath(path, path[k]);
      var p := path[k];
      BlockOnPathIsCover(path, p);
      assert Point(p.x + 1, p.y + 1) in path;
      assert p == Point(p.x, p.y);
    }
  }

  /** The inner loop of `findShortestPath`: each neighbour of `current`, in
      the search's order, that is on the board, not yet visited and empty or
      the target is queued, marked visited and given `current` as parent. */
  method ExpandNeighbours(board: Board, e: Point, current: Point,
                          visited: seq<seq<bool>>, parent: seq<seq<Point>>, queue: seq<Point>,
                          n: int, ghost s: Point,
                          ghost V: set<Point>, ghost P: set<Point>, ghost dist: map<Point, nat>, ghost D: nat)
    returns (visited': seq<seq<bool>>, parent': seq<seq<Point>>, queue': seq<Point>,
             ghost V': set<Point>, ghost dist': map<Point, nat>)
    requires IsMatrix(board.cells, n, n) && n == board.size
    requires ExpandInv(n, n, Moves(board.cells, e), e, s, V, P, dist, parent, visited, queue, current, D, 0)
    ensures ExpandInv(n, n, Moves(board.cells, e), e, s, V', P, dist', parent', visited', queue', current, D, 4)
  {
    ghost var step := Moves(board.cells, e);
    visited', parent', queue', V', dist' := visited, parent, queue, V, dist;
    var i := 0;
    while i < 4
      invariant ExpandInv(n, n, step, e, s, V', P, dist', parent', visited', queue', current, D, i)
    {
      var nb := Point(current.x + RowStep[i], current.y + ColStep[i]);
      assert nb == Neighbour(current, i) && OrthAdjacent(current, nb);
      if 0 <= nb.x < n && 0 <= nb.y < n && !visited'[nb.x][nb.y] &&
         (board.CanDrawLineThroughCell(nb.x, nb.y) || nb == e) {
        assert step(current, nb);
        ExpandPushes(n, n, step, e, s, V', P, dist', parent', visited', queue', current, D, i);
        queue' := queue' + [nb];
        visited' := Put(visited', nb, true);
        parent' := Put(parent', nb, current);
        V' := V' + {nb};
        dist' := dist'[nb := D + 1];
      } else {
        ExpandSkips(n, n, step, e, s, V', P, dist', parent', visited', queue', current, D, i);
      }
      i := i + 1;
    }
  }

  /** The inner loop of `pathCrosses2x2Area`: whether some 2x2 block whose
      top-left cell is in `row` has all four cells in `pathSet`. */
  method BlockInRow(pathSet: set<Point>, row: int, n: int) returns (found: bool)
    ensures found == exists y :: 0 <= y < n - 1 && Block2x2Covered(pathSet, Point(row, y))
  {
    var col := 0;
    while col < n - 1
      invariant col <= n - 1 || col == 0
      invariant forall y :: 0 <= y < col ==> !Block2x2Covered(pathSet, Point(row, y))
    {
      var topLeft := Point(row, col) in pathSet;
      var topRight := Point(row, col + 1) in pathSet;
      var bottomLeft := Point(row + 1, col) in pathSet;
      var bottomRight := Point(row + 1, col + 1) in pathSet;
      if topLeft && topRight && bottomLeft && bottomRight {
        assert Block2x2Covered(pathSet, Point(row, col));
        return true;
      }
      col := col + 1;
    }
    return false;
  }

  class Solver {
    var board: Board
    var isSolved: bool

    /** `Solver(Board&)`: bound to a board, not solved yet. */
    constructor (b: Board)
      ensures board == b && !isSolved
    {
      board := b;
      isSolved := false;
    }

    /** `findShortestPath`: breadth-first search from `start` through empty
        cells to `end`. A non-empty result is a route from `start` to `end`
        without repeated cells and no route is shorter; an empty result
        means there is no route at all. */
    method FindShortestPath(start: Symbol, end: Symbol) returns (path: seq<Point>)
      requires board.Valid()
      requires InBounds(board.size, board.size, start.Position())
      ensures path != [] ==> IsRoute(Moves(board.cells, end.Position()), path, start.Position(), end.Position()) && Distinct(path)
      ensures path != [] ==> forall w :: IsRoute(Moves(board.cells, end.Position()), w, start.Position(), end.Position()) ==> |path| <= |w|
      ensures path == [] ==> forall w :: !IsRoute(Moves(board.cells, end.Position()), w, start.Position(), end.Position())
    {
      var n := board.size;
      var s, e := start.Position(), end.Position();
      ghost var step := Moves(board.cells, e);
      var visited := Filled(n, n, false);
      var parent := Filled(n, n, NoParent);
      var queue := [s];
      visited := Put(visited, s, true);
      ghost var V := {s};
      ghost var P: set<Point> := {};
      ghost var dist: map<Point, nat> := map[s := 0];
      MovesStayOnBoard(board.cells, n, e);
      SearchStarts(n, n, step, e, s);
      while queue != []
        invariant SearchInv(n, n, step, e, s, V, P, dist, parent, visited, queue)
        decreases AllCells(n, n) - P
      {
        var current := queue[0];
        if current == e {
          ShortestAtHead(n, n, step, e, s, V, P, dist, parent, visited, queue);
          path := TraceBack(parent, n, s, e, step, V, dist);
          return;
        }
        ghost var D := dist[current];
        SearchPops(n, n, step, e, s, V, P, dist, parent, visited, queue);
        queue := queue[1..];
        visited, parent, queue, V, dist :=
          ExpandNeighbours(board, e, current, visited, parent, queue, n, s, V, P, dist, D);
        ExpandDone(n, n, step, e, s, V, P, dist, parent, visited, queue, current, D);
        P := P + {current};
      }
      SearchExhausted(n, n, step, e, s, V, P, dist, parent, visited);
      path := [];
    }

    /** `pathCrosses2x2Area`: a path of four or more points that holds all
        four cells of some 2x2 block of the board. */
    method PathCrosses2x2Area(path: seq<Point>) returns (r: bool)
      ensures r == (|path| >= 4 && CoversSomeBlock(board.size, path))
    {
      if |path| < 4 {
        return false;
      }
      var pathSet := PointSet(path);
      var n := board.size;
      var row := 0;
      while row < n - 1
        invariant row <= n - 1 || row == 0
        invariant forall x, y :: 0 <= x < row && 0 <= y < n - 1 ==> !Block2x2Covered(pathSet, Point(x, y))
      {
        var found := BlockInRow(pathSet, row, n);
        if found {
          var y :| 0 <= y < n - 1 && Block2x2Covered(pathSet, Point(row, y));
          return true;
        }
        row := row + 1;
      }
      return false;
    }

    /** `solvePuzzle`: true only when every symbol ends up connected. The
        symbols keep their values and places; a failed attempt leaves the
        cells and the lines as it found them. */
    method SolvePuzzle(symbolIndex: nat) returns (r: bool)
      requires board.Valid()
      modifies board
      ensures board.Valid()
      ensures r ==> board.AreAllSymbolsConnected()
      ensures board.size == old(board.size)
      ensures Placement(board.symbols) == Placement(old(board.symbols))
      ensures !r ==> board.cells == old(board.cells) && board.lines == old(board.lines)
      decreases |board.symbols| - symbolIndex, 1
    {
      if board.AreAllSymbolsConnected() {
        return true;
      }
      if symbolIndex >= |board.symbols| {
        return false;
      }
      var current := board.symbols[symbolIndex];
      if current.isConnected {
        r := SolvePuzzle(symbolIndex + 1);
        return;
      }
      var pairIndex := board.FindPairForSymbol(current);
      if pairIndex == -1 {
        r := SolvePuzzle(symbolIndex + 1);
        return;
      }
      var pair := board.symbols[pairIndex];
      var shortest := FindShortestPath(current, pair);
      if shortest == [] {
        r := SolvePuzzle(symbolIndex + 1);
        return;
      }
      var line := NewLine(current, pair).SetPath(shortest).SetIsValid(true);
      var crosses := PathCrosses2x2Area(shortest);
      if crosses {
        r := SolvePuzzle(symbolIndex + 1);
        return;
      }
      r := TryLine(symbolIndex, line);
    }

    /** The end of `solvePuzzle` once a line is chosen: the line is added,
        the search goes on with the next symbol, and when that fails the
        line is removed again. */
    method TryLine(symbolIndex: nat, line: Line) returns (r: bool)
      requires board.Valid() && symbolIndex < |board.symbols|
      requires IsRoute(Moves(board.cells, line.EndPos()), line.path, line.StartPos(), line.EndPos())
      modifies board
      ensures board.Valid()
      ensures r ==> board.AreAllSymbolsConnected()
      ensures board.size == old(board.size)
      ensures Placement(board.symbols) == Placement(old(board.symbols))
      ensures !r ==> board.cells == old(board.cells) && board.lines == old(board.lines)
      decreases |board.symbols| - symbolIndex, 0
    {
      ghost var cells0, lines0, symbols0 := board.cells, board.lines, board.symbols;
      RouteInteriorIsBlank(cells0, board.size, line);
      var added := board.AddLine(line);
      if added {
        MarkEndsKeepsPlacement(symbols0, line, true);
        var solved := SolvePuzzle(symbolIndex + 1);
        if solved {
          return true;
        }
        ghost var symbols2 := board.symbols;
        assert board.lines == lines0 + [line];
        board.RemoveLine(|board.lines| - 1);
        RemoveUndoesAdd(cells0, board.size, line);
        MarkEndsKeepsPlacement(symbols2, line, false);
      }
      return false;
    }

    /** `solve`: a board without symbols is refused; otherwise the search
        starts at the first symbol and its outcome is recorded. */
    method Solve() returns (r: bool)
      requires board.Valid()
      modifies this, board
      ensures board == old(board) && board.Valid()
      ensures old(board.symbols) == [] ==> !r
      ensures r ==> board.AreAllSymbolsConnected()
      ensures isSolved == (old(isSolved) || r)
      ensures Placement(board.symbols) == Placement(old(board.symbols))
      ensures !r ==> board.cells == old(board.cells) && board.lines == old(board.lines)
    {
      if board.symbols == [] {
        return false;
      }
      r := SolvePuzzle(0);
      if r {
        isSolved := true;
      }
    }
  }

  /** The cells a route passes between its two ends are empty, hence blank,
      on a valid board: what lets `removeLine` give them back. */
  lemma RouteInteriorIsBlank(cells: seq<seq<Cell>>, n: int, line: Line)
    requires IsMatrix(cells, n, n)
    requires forall i, j :: 0 <= i < n && 0 <= j < n && cells[i][j].state == EmptyState ==> cells[i][j].content == Blank
    requires IsRoute(Moves(cells, line.EndPos()), line.path, line.StartPos(), line.EndPos())
    ensures forall p :: p in line.path && !IsEndOf(line, p) && InBounds(n, n, p) ==> At(cells, p) == DefaultCell()
  {
    forall p | p in line.path && !IsEndOf(line, p) && InBounds(n, n, p)
      ensures At(cells, p) == DefaultCell()
    {
      var k :| 0 <= k < |line.path| && line.path[k] == p;
      assert k > 0;
      assert Moves(cells, line.EndPos())(line.path[k - 1], p);
    }
  }
}
