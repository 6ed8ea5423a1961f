/** The compact solver of PuzzleSolver.cpp (the same code is embedded in
    Course-work/Puzzle-solver.cpp): a character grid, a matrix of used
    cells, the positions recorded for each character, and a greedy pass
    that joins the two positions of each character by one breadth-first
    path. */
module PuzzleSolvers {
  import opened Points
  import opened Grid
  import opened Search
  import CharOrder

  /** `struct Path`: the points of a found path and its character. */
  datatype Path = Path(points: seq<Point>, symbol: char)

  /** `p` is a recorded position of some character. */
  ghost predicate IsEndpoint(m: map<char, seq<Point>>, p: Point)
  {
    exists c :: c in m && p in m[c]
  }

  /** A cell `findPath` may enter: inside the `used` matrix and not used. */
  predicate Free(used: seq<seq<bool>>, p: Point)
  {
    0 <= p.x < |used| && 0 <= p.y < |used[p.x]| && !used[p.x][p.y]
  }

  /** The step relation of `findPath`. */
  function Moves(used: seq<seq<bool>>): (Point, Point) -> bool
  {
    (a: Point, b: Point) => OrthAdjacent(a, b) && Free(used, b)
  }

  lemma MovesStayOnGrid(used: seq<seq<bool>>, rows: int, cols: int)
    requires IsMatrix(used, rows, cols)
    ensures GridStep(Moves(used), rows, cols)
  {
  }

  /** The four points of `path` from index `i` fit in a 2x2 box. */
  predicate TightAt(path: seq<Point>, i: int)
    requires 0 <= i && i + 3 < |path|
  {
    Window2x2(path[i], path[i + 1], path[i + 2], path[i + 3])
  }

  /** Some four consecutive points of `path` fit in a 2x2 box: what
      `violates2x2Rule` looks for. */
  predicate HasTightWindow(path: seq<Point>)
  {
    exists i :: 0 <= i && i + 3 < |path| && TightAt(path, i)
  }

  /** On a path without repeated points, a window the rule refuses is a
      2x2 block all of whose cells the path fills. */
  lemma TightWindowFillsBlock(path: seq<Point>)
    requires Distinct(path) && HasTightWindow(path)
    ensures exists q :: Block2x2Covered(PointSet(path), q)
  {
    var i :| 0 <= i && i + 3 < |path| && TightAt(path, i);
    var a, b, c, d := path[i], path[i + 1], path[i + 2], path[i + 3];
    DistinctWindowCoversBlock(a, b, c, d);
    var q := Point(Min4(a.x, b.x, c.x, d.x), Min4(a.y, b.y, c.y, d.y));
    assert a in PointSet(path) && b in PointSet(path) && c in PointSet(path) && d in PointSet(path);
    assert Block2x2Covered(PointSet(path), q);
  }

  /** The last step of a route enters its target, so `findPath` reaches a
      target other than its start only when the target is free. */
  lemma RouteEntersEnd(used: seq<seq<bool>>, start: Point, end: Point)
    requires start != end
    ensures forall w :: IsRoute(Moves(used), w, start, end) ==> Free(used, end)
  {
    forall w | IsRoute(Moves(used), w, start, end)
      ensures Free(used, end)
    {
      assert Moves(used)(w[|w| - 2], w[|w| - 1]);
    }
  }

  /** The cells strictly between the two ends of a path. */
  function Interior(path: seq<Point>): set<Point>
  {
    set q | 0 < q < |path| - 1 :: path[q]
  }

  /** The reconstruction loop of `findPath`: follow the parents from `end`
      until `start`, add `start`, then reverse. */
  method TraceBack(parent: seq<seq<Point>>, ghost rows: int, ghost cols: int, start: Point, end: Point,
                   ghost step: (Point, Point) -> bool, ghost V: set<Point>, ghost dist: map<Point, nat>)
    returns (path: seq<Point>)
    requires Discovered(rows, cols, step, start, V, dist, parent) && end in V
    ensures IsRoute(step, path, start, end) && Distinct(path) && |path| == dist[end] + 1
  {
    var back: seq<Point> := [];
    var p := end;
    while p != start
      invariant p in V
      invariant BackChain(step, V, dist, end, back)
      invariant back == [] ==> p == end
      invariant dist[p] + |back| == dist[end]
      invariant back != [] ==> step(p, back[|back| - 1])
      decreases dist[p]
    {
      assert p == Point(p.x, p.y);
      back := back + [p];
      p := parent[p.x][p.y];
    }
    back := back + [start];
    BackChainReversed(rows, cols, step, start, V, dist, parent, end, back);
    path := Reversed(back);
  }

  /** The neighbour loop of `findPath`: each neighbour of `current`, in the
      order up, right, down, left, that is on the grid, not visited and not
      used is marked visited, given `current` as parent and queued. */
  method ExpandNeighbours(used: seq<seq<bool>>, rows: int, cols: int, e: Point, current: Point,
                          visited: seq<seq<bool>>, parent: seq<seq<Point>>, queue: seq<Point>,
                          ghost s: Point, ghost V: set<Point>, ghost P: set<Point>,
                          ghost dist: map<Point, nat>, ghost D: nat)
    returns (visited': seq<seq<bool>>, parent': seq<seq<Point>>, queue': seq<Point>,
             ghost V': set<Point>, ghost dist': map<Point, nat>)
    requires IsMatrix(used, rows, cols)
    requires ExpandInv(rows, cols, Moves(used), e, s, V, P, dist, parent, visited, queue, current, D, 0)
    ensures ExpandInv(rows, cols, Moves(used), e, s, V', P, dist', parent', visited', queue', current, D, 4)
  {
    ghost var step := Moves(used);
    visited', parent', queue', V', dist' := visited, parent, queue, V, dist;
    var i := 0;
    while i < 4
      invariant ExpandInv(rows, cols, step, e, s, V', P, dist', parent', visited', queue', current, D, i)
    {
      var nb := Point(current.x + RowStep[i], current.y + ColStep[i]);
      assert nb == Neighbour(current, i) && OrthAdjacent(current, nb);
      if 0 <= nb.x < rows && 0 <= nb.y < cols && !visited'[nb.x][nb.y] && !used[nb.x][nb.y] {
        assert step(current, nb);
        ExpandPushes(rows, cols, step, e, s, V', P, dist', parent', visited', queue', current, D, i);
        visited' := Put(visited', nb, true);
        parent' := Put(parent', nb, current);
        queue' := queue' + [nb];
        V' := V' + {nb};
        dist' := dist'[nb := D + 1];
      } else {
        ExpandSkips(rows, cols, step, e, s, V', P, dist', parent', visited', queue', current, D, i);
      }
      i := i + 1;
    }
  }

  /** Marks every point of `pts` in a matrix held by value. */
  method MarkPoints(used: seq<seq<bool>>, rows: int, cols: int, pts: seq<Point>) returns (r: seq<seq<bool>>)
    requires IsMatrix(used, rows, cols) && AllInBounds(rows, cols, pts)
    ensures IsMatrix(r, rows, cols)
    ensures forall i, j :: 0 <= i < rows && 0 <= j < cols ==> (r[i][j] <==> used[i][j] || Point(i, j) in pts)
  {
    r := used;
    var k := 0;
    while k < |pts|
      invariant 0 <= k <= |pts|
      invariant IsMatrix(r, rows, cols)
      invariant forall i, j :: 0 <= i < rows && 0 <= j < cols ==> (r[i][j] <==> used[i][j] || Point(i, j) in pts[..k])
    {
      assert pts[..k + 1] == pts[..k] + [pts[k]];
      r := Put(r, pts[k], true);
      k := k + 1;
    }
    assert pts[..k] == pts;
  }

  /** The marking loops at the start of `solve`: every recorded position of
      the characters `keys` becomes used. */
  method MarkPositions(used: seq<seq<bool>>, rows: int, cols: int, m: map<char, seq<Point>>, keys: seq<char>)
    returns (r: seq<seq<bool>>)
    requires IsMatrix(used, rows, cols)
    requires forall c :: c in keys ==> c in m && AllInBounds(rows, cols, m[c])
    ensures IsMatrix(r, rows, cols)
    ensures forall i, j :: 0 <= i < rows && 0 <= j < cols ==>
      (r[i][j] <==> used[i][j] || exists c :: c in keys && Point(i, j) in m[c])
  {
    r := used;
    var k := 0;
    while k < |keys|
      invariant 0 <= k <= |keys|
      invariant IsMatrix(r, rows, cols)
      invariant forall i, j :: 0 <= i < rows && 0 <= j < cols ==>
        (r[i][j] <==> used[i][j] || exists c :: c in keys[..k] && Point(i, j) in m[c])
    {
      assert keys[..k + 1] == keys[..k] + [keys[k]];
      r := MarkPoints(r, rows, cols, m[keys[k]]);
      k := k + 1;
    }
    assert keys[..k] == keys;
  }

  /** The interior loop of `solve` (`for i = 1; i < size - 1`): the points
      strictly between the ends of `path` become used. */
  method MarkInterior(used: seq<seq<bool>>, rows: int, cols: int, path: seq<Point>) returns (r: seq<seq<bool>>)
    requires IsMatrix(used, rows, cols) && AllInBounds(rows, cols, path) && |path| >= 1
    ensures IsMatrix(r, rows, cols)
    ensures forall i, j :: 0 <= i < rows && 0 <= j < cols ==> (r[i][j] <==> used[i][j] || Point(i, j) in Interior(path))
  {
    r := used;
    var k := 1;
    while k < |path| - 1
      invariant 1 <= k && (k <= |path| - 1 || k == 1)
      invariant IsMatrix(r, rows, cols)
      invariant forall i, j :: 0 <= i < rows && 0 <= j < cols ==>
        (r[i][j] <==> used[i][j] || exists q :: 0 < q < k && q < |path| - 1 && path[q] == Point(i, j))
    {
      r := Put(r, path[k], true);
      k := k + 1;
    }
  }

  /** The search of `findPath` up to the reconstructed path: breadth-first
      from `start` through cells that are not used. A non-empty result is a
      route to `end` without repeated cells that no route beats; an empty
      one means no route exists. */
  method ShortestRoute(used: seq<seq<bool>>, rows: int, cols: int, start: Point, end: Point)
    returns (path: seq<Point>)
    requires IsMatrix(used, rows, cols) && InBounds(rows, cols, start)
    ensures path != [] ==> IsRoute(Moves(used), path, start, end) && Distinct(path)
    ensures path != [] ==> forall w :: IsRoute(Moves(used), w, start, end) ==> |path| <= |w|
    ensures path == [] ==> forall w :: !IsRoute(Moves(used), w, start, end)
  {
    ghost var step := Moves(used);
    var parent := Filled(rows, cols, NoParent);
    var visited := Filled(rows, cols, false);
    var queue := [start];
    visited := Put(visited, start, true);
    ghost var V := {start};
    ghost var P: set<Point> := {};
    ghost var dist: map<Point, nat> := map[start := 0];
    MovesStayOnGrid(used, rows, cols);
    SearchStarts(rows, cols, step, end, start);
    while queue != []
      invariant SearchInv(rows, cols, step, end, start, V, P, dist, parent, visited, queue)
      decreases AllCells(rows, cols) - P
    {
      var current := queue[0];
      if current == end {
        ShortestAtHead(rows, cols, step, end, start, V, P, dist, parent, visited, queue);
        path := TraceBack(parent, rows, cols, start, end, step, V, dist);
        return;
      }
      ghost var D := dist[current];
      SearchPops(rows, cols, step, end, start, V, P, dist, parent, visited, queue);
      queue := queue[1..];
      visited, parent, queue, V, dist :=
        ExpandNeighbours(used, rows, cols, end, current, visited, parent, queue, start, V, P, dist, D);
      ExpandDone(rows, cols, step, end, start, V, P, dist, parent, visited, queue, current, D);
      P := P + {current};
    }
    SearchExhausted(rows, cols, step, end, start, V, P, dist, parent, visited);
    path := [];
  }

  /** After the marking loops of `solve` on a cleared matrix, the used cells
      are exactly the recorded positions. */
  lemma MarkedAreEndpoints(r: seq<seq<bool>>, rows: int, cols: int, m: map<char, seq<Point>>, keys: seq<char>)
    requires rows >= 0 && cols >= 0 && IsMatrix(r, rows, cols)
    requires forall c :: c in keys <==> c in m
    requires forall i, j :: 0 <= i < rows && 0 <= j < cols ==>
      (r[i][j] <==> Filled(rows, cols, false)[i][j] || exists c :: c in keys && Point(i, j) in m[c])
    ensures forall i, j :: 0 <= i < rows && 0 <= j < cols ==> (r[i][j] <==> IsEndpoint(m, Point(i, j)))
  {
  }

  /** Every character was visited, so none has exactly two positions. */
  lemma NoPairLeft(m: map<char, seq<Point>>, keys: seq<char>)
    requires forall c :: c in keys <==> c in m
    requires forall t :: 0 <= t < |keys| ==> |m[keys[t]]| != 2
    ensures forall c :: c in m ==> |m[c]| != 2
  {
    forall c | c in m
      ensures |m[c]| != 2
    {
      var t :| 0 <= t < |keys| && keys[t] == c;
    }
  }

  /** Once every recorded position is used, the second position of each
      pair is not free. */
  lemma PairEndsUsed(used: seq<seq<bool>>, rows: int, cols: int, m: map<char, seq<Point>>)
    requires IsMatrix(used, rows, cols)
    requires forall c :: c in m ==> AllInBounds(rows, cols, m[c])
    requires forall i, j :: 0 <= i < rows && 0 <= j < cols ==> (used[i][j] <==> IsEndpoint(m, Point(i, j)))
    ensures forall c :: c in m && |m[c]| == 2 ==> !Free(used, m[c][1])
  {
    forall c | c in m && |m[c]| == 2
      ensures !Free(used, m[c][1])
    {
      var p := m[c][1];
      assert p == Point(p.x, p.y) && InBounds(rows, cols, p) && p in m[c];
    }
  }

  class PuzzleSolver {
    var rows: int
    var cols: int
    var grid: seq<seq<char>>
    var used: seq<seq<bool>>
    var symbolPositions: map<char, seq<Point>>
    var paths: seq<Path>

    /** Both matrices have the declared shape and every recorded position
        lies on the grid. */
    ghost predicate Valid()
      reads this
    {
      0 <= rows && 0 <= cols &&
      IsMatrix(grid, rows, cols) && IsMatrix(used, rows, cols) &&
      forall c :: c in symbolPositions ==> AllInBounds(rows, cols, symbolPositions[c])
    }

    /** `PuzzleSolver(rows, cols)`: a blank grid, nothing used, no
        positions, no paths. */
    constructor (r: int, c: int)
      requires r >= 0 && c >= 0
      ensures Valid()
      ensures rows == r && cols == c
      ensures grid == Filled(r, c, ' ') && used == Filled(r, c, false)
      ensures symbolPositions == map[] && paths == []
    {
      rows, cols := r, c;
      grid := Filled(r, c, ' ');
      used := Filled(r, c, false);
      symbolPositions := map[];
      paths := [];
    }

    /** `isValidPoint`: (x, y) is one of the grid's cells. */
    function IsValidPoint(x: int, y: int): (ok: bool)
      reads this
      ensures ok <==> Point(x, y) in AllCells(rows, cols)
    {
      0 <= x < rows && 0 <= y < cols
    }

    /** `setSymbol`: a cell off the grid is ignored; otherwise the character
        is written, and recorded among its positions unless it is blank. */
    method SetSymbol(x: int, y: int, symbol: char)
      requires Valid()
      modifies this
      ensures Valid()
      ensures rows == old(rows) && cols == old(cols) && used == old(used) && paths == old(paths)
      ensures !IsValidPoint(x, y) ==> grid == old(grid) && symbolPositions == old(symbolPositions)
      ensures IsValidPoint(x, y) ==> grid == Put(old(grid), Point(x, y), symbol)
      ensures symbol == ' ' ==> symbolPositions == old(symbolPositions)
      ensures IsValidPoint(x, y) && symbol != ' ' ==>
        symbolPositions == old(symbolPositions)[symbol := CharOrder.PositionsOf(old(symbolPositions), symbol) + [Point(x, y)]]
    {
      if IsValidPoint(x, y) {
        grid := Put(grid, Point(x, y), symbol);
        if symbol != ' ' {
          symbolPositions := symbolPositions[symbol := CharOrder.PositionsOf(symbolPositions, symbol) + [Point(x, y)]];
        }
      }
    }

    /** `violates2x2Rule`: some four consecutive points span at most one row
        and one column. The loop bound `path.size() - 3` is unsigned, so the
        path must have at least three points. */
    method Violates2x2Rule(path: seq<Point>) returns (r: bool)
      requires |path| >= 3
      ensures r == HasTightWindow(path)
    {
      var i := 0;
      while i < |path| - 3
        invariant 0 <= i <= |path| - 3
        invariant forall k :: 0 <= k < i ==> !TightAt(path, k)
      {
        var minX := Min4(path[i].x, path[i + 1].x, path[i + 2].x, path[i + 3].x);
        var maxX := Max4(path[i].x, path[i + 1].x, path[i + 2].x, path[i + 3].x);
        var minY := Min4(path[i].y, path[i + 1].y, path[i + 2].y, path[i + 3].y);
        var maxY := Max4(path[i].y, path[i + 1].y, path[i + 2].y, path[i + 3].y);
        if maxX - minX <= 1 && maxY - minY <= 1 {
          assert TightAt(path, i);
          return true;
        }
        i := i + 1;
      }
      return false;
    }

    /** `findPath`: breadth-first search from `start` through cells that are
        not used. A non-empty result is a shortest route to `end` without
        repeated cells and without a window the 2x2 rule refuses. An empty
        result means there is no route, or the one shortest route the
        search found breaks the rule. As `end` must itself be unused to be
        entered, a used `end` always gives the empty result. The caller
        keeps the reconstructed path at three points or more. */
    method FindPath(start: Point, end: Point) returns (path: seq<Point>)
      requires Valid() && InBounds(rows, cols, start)
      requires start != end && (!OrthAdjacent(start, end) || !Free(used, end))
      ensures path != [] ==> IsRoute(Moves(used), path, start, end) && Distinct(path) && !HasTightWindow(path)
      ensures path != [] ==> forall w :: IsRoute(Moves(used), w, start, end) ==> |path| <= |w|
      ensures path == [] ==>
        (forall w :: !IsRoute(Moves(used), w, start, end)) ||
        exists w :: IsRoute(Moves(used), w, start, end) && HasTightWindow(w) &&
          forall v :: IsRoute(Moves(used), v, start, end) ==> |w| <= |v|
      ensures !Free(used, end) ==> path == []
    {
      path := ShortestRoute(used, rows, cols, start, end);
      if path == [] {
        return;
      }
      RouteEntersEnd(used, start, end);
      var bad := Violates2x2Rule(path);
      if bad {
        path := [];
      }
    }

    /** Lines 121-129 of `solve`: the path is appended, tagged with its
        character, and its interior points become used. */
    method CommitPath(symbol: char, path: seq<Point>)
      requires Valid() && |path| >= 1 && AllInBounds(rows, cols, path)
      modifies this
      ensures Valid()
      ensures rows == old(rows) && cols == old(cols) && grid == old(grid)
      ensures symbolPositions == old(symbolPositions)
      ensures paths == old(paths) + [Path(path, symbol)]
      ensures forall i, j :: 0 <= i < rows && 0 <= j < cols ==>
        (used[i][j] <==> old(used)[i][j] || Point(i, j) in Interior(path))
    {
      paths := paths + [Path(path, symbol)];
      used := MarkInterior(used, rows, cols, path);
    }

    /** One pass of the second loop of `solve` for a character recorded
        twice: `findPath` between its positions, then, if a path was found,
        the commit. With `end` used, no path is found and nothing changes. */
    method JoinPair(symbol: char, start: Point, end: Point) returns (joined: bool)
      requires Valid() && InBounds(rows, cols, start) && start != end
      requires !Free(used, end)
      modifies this
      ensures !joined
      ensures unchanged(this)
    {
      var path := FindPath(start, end);
      if path == [] {
        return false;
      }
      // `end` is used, so `findPath` found nothing: the commit (lines
      // 121-129, `CommitPath`) is never reached.
      assert false;
      joined := true;
    }

    /** Lines 93-102 of `solve`: no paths, and exactly the recorded
        positions used. */
    method ResetForSolve()
      requires Valid()
      modifies this
      ensures Valid()
      ensures rows == old(rows) && cols == old(cols) && grid == old(grid)
      ensures symbolPositions == old(symbolPositions)
      ensures paths == []
      ensures forall i, j :: 0 <= i < rows && 0 <= j < cols ==>
        (used[i][j] <==> IsEndpoint(symbolPositions, Point(i, j)))
    {
      paths := [];
      used := Filled(rows, cols, false);
      var keys := CharOrder.SortedKeys(symbolPositions.Keys);
      used := MarkPositions(used, rows, cols, symbolPositions, keys);
      MarkedAreEndpoints(used, rows, cols, symbolPositions, keys);
    }

    /** Lines 104-132 of `solve`: the characters in ascending order; those
        not recorded exactly twice are skipped, and the first pair without a
        path ends the pass with false. With every position used, no pair
        gets a path, so the pass succeeds exactly when no character is
        recorded exactly twice, and changes nothing. */
    method JoinPairs() returns (r: bool)
      requires Valid()
      requires forall c :: c in symbolPositions && |symbolPositions[c]| == 2 ==>
        symbolPositions[c][0] != symbolPositions[c][1]
      requires forall c :: c in symbolPositions && |symbolPositions[c]| == 2 ==> !Free(used, symbolPositions[c][1])
      modifies this
      ensures unchanged(this)
      ensures r <==> forall c :: c in symbolPositions ==> |symbolPositions[c]| != 2
    {
      var keys := CharOrder.SortedKeys(symbolPositions.Keys);
      var k := 0;
      while k < |keys|
        invariant 0 <= k <= |keys|
        invariant unchanged(this)
        invariant forall t :: 0 <= t < k ==> |symbolPositions[keys[t]]| != 2
      {
        var symbol := keys[k];
        var positions := symbolPositions[symbol];
        if |positions| == 2 {
          var start, end := positions[0], positions[1];
          var joined := JoinPair(symbol, start, end);
          if !joined {
            assert symbol in symbolPositions && |symbolPositions[symbol]| == 2;
            return false;
          }
        }
        k := k + 1;
      }
      NoPairLeft(symbolPositions, keys);
      return true;
    }

    /** `solve`: the paths are cleared, every recorded position is marked
        used, and the characters recorded exactly twice are joined in
        ascending order. Every end being used, `findPath` finds no path
        between two distinct positions: the pass succeeds exactly when no
        character is recorded exactly twice, and nothing is committed. */
    method Solve() returns (r: bool)
      requires Valid()
      requires forall c :: c in symbolPositions && |symbolPositions[c]| == 2 ==>
        symbolPositions[c][0] != symbolPositions[c][1]
      modifies this
      ensures Valid()
      ensures rows == old(rows) && cols == old(cols) && grid == old(grid)
      ensures symbolPositions == old(symbolPositions)
      ensures paths == []
      ensures forall i, j :: 0 <= i < rows && 0 <= j < cols ==>
        (used[i][j] <==> IsEndpoint(symbolPositions, Point(i, j)))
      ensures r <==> forall c :: c in symbolPositions ==> |symbolPositions[c]| != 2
    {
      ResetForSolve();
      PairEndsUsed(used, rows, cols, symbolPositions);
      r := JoinPairs();
    }
  }
}
