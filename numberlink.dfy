/** The standalone solver of Numberlink.cpp: a square grid of cells that
    hold a character and a number, the positions recorded for each
    character, the number given to each character, and a greedy pass that
    joins every pair by one breadth-first path, refusing a step after which
    a 2x2 block would hold the pair's number in all four cells. */
module Numberlink {
  import opened Points
  import opened Grid
  import opened Search
  import CharOrder

  /** `struct Cell`: the character shown, the number of the path through
      the cell (0 for none), and a flag nothing reads. */
  datatype Cell = Cell(symbol: char, value: int, visited: bool)

  /** A cell as the constructor leaves it. */
  const Blank: Cell := Cell(' ', 0, false)

  /** The number held at `p`; 0 off the matrix. */
  function ValueAt(grid: seq<seq<Cell>>, p: Point): int
  {
    if 0 <= p.x < |grid| && 0 <= p.y < |grid[p.x]| then grid[p.x][p.y].value else 0
  }

  /** `grid[p.x][p.y].value = v`; off the matrix nothing changes. */
  function SetValue(grid: seq<seq<Cell>>, p: Point, v: int): (g: seq<seq<Cell>>)
    ensures |g| == |grid| && forall i :: 0 <= i < |grid| ==> |g[i]| == |grid[i]|
    ensures forall i, j :: 0 <= i < |grid| && 0 <= j < |grid[i]| ==>
      g[i][j] == if Point(i, j) == p then grid[i][j].(value := v) else grid[i][j]
  {
    if 0 <= p.x < |grid| && 0 <= p.y < |grid[p.x]| then Put(grid, p, grid[p.x][p.y].(value := v)) else grid
  }

  // ---- the 2x2 check of `wouldCreate2x2` ----

  /** Cell `p` is on the grid and holds `value`: what the innermost test
      of `wouldCreate2x2` counts. */
  predicate Holds(g: seq<seq<Cell>>, rows: int, cols: int, p: Point, value: int)
  {
    InBounds(rows, cols, p) && ValueAt(g, p) == value
  }

  /** The cells of the 2x2 block at `q` in the order they are counted:
      (0,0), (0,1), (1,0), (1,1). */
  function BlockCell(q: Point, k: int): Point
    requires 0 <= k < 4
  {
    Point(q.x + k / 2, q.y + k % 2)
  }

  /** The first `n` cells of the block at `q` hold `value`. */
  predicate HoldsUpTo(g: seq<seq<Cell>>, rows: int, cols: int, q: Point, value: int, n: int)
    requires 0 <= n <= 4
  {
    forall k :: 0 <= k < n ==> Holds(g, rows, cols, BlockCell(q, k), value)
  }

  /** All four cells of the block at `q` are on the grid and hold `value`. */
  predicate BlockHolds(g: seq<seq<Cell>>, rows: int, cols: int, q: Point, value: int)
  {
    HoldsUpTo(g, rows, cols, q, value, 4)
  }

  /** The grid `wouldCreate2x2(a, b, value)` inspects: `a` and `b`
      temporarily marked with `value`. */
  function Marked(grid: seq<seq<Cell>>, a: Point, b: Point, value: int): seq<seq<Cell>>
  {
    SetValue(SetValue(grid, a, value), b, value)
  }

  /** What `wouldCreate2x2(a, b, value)` reports: once `a` and `b` are
      marked, some 2x2 block containing `a` holds `value` in all four cells,
      all of them on the grid. */
  ghost predicate Creates2x2(grid: seq<seq<Cell>>, rows: int, cols: int, a: Point, b: Point, value: int)
  {
    exists q :: a in Block(q) && BlockHolds(Marked(grid, a, b, value), rows, cols, q, value)
  }

  /** The 2x2 blocks containing `a` are those whose top-left corner is `a`
      moved up by 0 or 1 and left by 0 or 1: the blocks `wouldCreate2x2`
      tries with `dr` and `dc` in -1..0. */
  lemma BlocksThrough(a: Point, q: Point)
    ensures a in Block(q) <==> (q.x == a.x - 1 || q.x == a.x) && (q.y == a.y - 1 || q.y == a.y)
  {
  }

  /** The two innermost loops of `wouldCreate2x2`: how many cells of the
      block at (r, c) are on the grid and hold `value`. */
  method CountInBlock(g: seq<seq<Cell>>, rows: int, cols: int, r: int, c: int, value: int)
    returns (count: int)
    requires IsMatrix(g, rows, cols)
    ensures 0 <= count <= 4
    ensures count == 4 <==> BlockHolds(g, rows, cols, Point(r, c), value)
  {
    count := 0;
    var i := 0;
    while i < 2
      invariant 0 <= i <= 2
      invariant 0 <= count <= 2 * i
      invariant count == 2 * i <==> HoldsUpTo(g, rows, cols, Point(r, c), value, 2 * i)
    {
      var j := 0;
      while j < 2
        invariant 0 <= j <= 2
        invariant 0 <= count <= 2 * i + j
        invariant count == 2 * i + j <==> HoldsUpTo(g, rows, cols, Point(r, c), value, 2 * i + j)
      {
        var p := Point(r + i, c + j);
        assert p == BlockCell(Point(r, c), 2 * i + j);
        if InBounds(rows, cols, p) && g[p.x][p.y].value == value {
          count := count + 1;
        }
        j := j + 1;
      }
      i := i + 1;
    }
  }

  /** One of the four blocks `wouldCreate2x2` tries around `a` is full. */
  predicate CornerBlockFull(g: seq<seq<Cell>>, rows: int, cols: int, a: Point, value: int)
  {
    BlockHolds(g, rows, cols, Point(a.x - 1, a.y - 1), value) || BlockHolds(g, rows, cols, Point(a.x - 1, a.y), value) ||
    BlockHolds(g, rows, cols, Point(a.x, a.y - 1), value) || BlockHolds(g, rows, cols, a, value)
  }

  /** Some 2x2 block containing `a` is full exactly when one of the four
      blocks `wouldCreate2x2` tries is. */
  lemma FullBlockThroughCorners(g: seq<seq<Cell>>, rows: int, cols: int, a: Point, value: int)
    ensures (exists q :: a in Block(q) && BlockHolds(g, rows, cols, q, value)) <==> CornerBlockFull(g, rows, cols, a, value)
  {
    if exists q :: a in Block(q) && BlockHolds(g, rows, cols, q, value) {
      var q :| a in Block(q) && BlockHolds(g, rows, cols, q, value);
      BlocksThrough(a, q);
    }
    BlocksThrough(a, Point(a.x - 1, a.y - 1));
    BlocksThrough(a, Point(a.x - 1, a.y));
    BlocksThrough(a, Point(a.x, a.y - 1));
    BlocksThrough(a, a);
  }

  /** The two outer loops of `wouldCreate2x2`: the blocks with top-left
      corner (r1 + dr, c1 + dc), `dr` and `dc` in -1..0, until one is full. */
  method BlocksAround(g: seq<seq<Cell>>, rows: int, cols: int, r1: int, c1: int, value: int)
    returns (creates: bool)
    requires IsMatrix(g, rows, cols)
    ensures creates <==> exists q :: Point(r1, c1) in Block(q) && BlockHolds(g, rows, cols, q, value)
  {
    creates := false;
    var dr := -1;
    while dr <= 0 && !creates
      invariant -1 <= dr <= 1
      invariant creates ==> CornerBlockFull(g, rows, cols, Point(r1, c1), value)
      invariant !creates && dr >= 0 ==>
        !BlockHolds(g, rows, cols, Point(r1 - 1, c1 - 1), value) && !BlockHolds(g, rows, cols, Point(r1 - 1, c1), value)
      invariant !creates && dr >= 1 ==>
        !BlockHolds(g, rows, cols, Point(r1, c1 - 1), value) && !BlockHolds(g, rows, cols, Point(r1, c1), value)
    {
      var dc := -1;
      while dc <= 0 && !creates
        invariant -1 <= dc <= 1
        invariant creates ==> CornerBlockFull(g, rows, cols, Point(r1, c1), value)
        invariant !creates && dc >= 0 ==> !BlockHolds(g, rows, cols, Point(r1 + dr, c1 - 1), value)
        invariant !creates && dc >= 1 ==> !BlockHolds(g, rows, cols, Point(r1 + dr, c1), value)
      {
        var count := CountInBlock(g, rows, cols, r1 + dr, c1 + dc, value);
        if count == 4 {
          creates := true;
        }
        dc := dc + 1;
      }
      dr := dr + 1;
    }
    FullBlockThroughCorners(g, rows, cols, Point(r1, c1), value);
  }

  /** Writing back the numbers read before marking restores the grid. */
  lemma MarksRestored(grid: seq<seq<Cell>>, rows: int, cols: int, a: Point, b: Point, value: int)
    requires IsMatrix(grid, rows, cols) && InBounds(rows, cols, a) && InBounds(rows, cols, b)
    ensures SetValue(SetValue(Marked(grid, a, b, value), a, grid[a.x][a.y].value), b, grid[b.x][b.y].value) == grid
  {
    var g := SetValue(SetValue(Marked(grid, a, b, value), a, grid[a.x][a.y].value), b, grid[b.x][b.y].value);
    MatrixEquality(g, grid, rows, cols);
  }

  // ---- the search of `findPath` ----

  /** The step relation of `findPath` for the pair ending at `end` with
      number `value`: to an orthogonal neighbour on the grid that holds no
      number or is `end`, unless the 2x2 check refuses the step. */
  ghost function Moves(grid: seq<seq<Cell>>, rows: int, cols: int, end: Point, value: int): (Point, Point) -> bool
  {
    (a: Point, b: Point) => OrthAdjacent(a, b) && InBounds(rows, cols, b) &&
      (ValueAt(grid, b) == 0 || b == end) && !Creates2x2(grid, rows, cols, a, b, value)
  }

  lemma MovesStayOnGrid(grid: seq<seq<Cell>>, rows: int, cols: int, end: Point, value: int)
    ensures GridStep(Moves(grid, rows, cols, end, value), rows, cols)
  {
  }

  /** Every cell a route enters held no number, or is `end`: a path never
      runs through another character's cells. */
  lemma RouteSparesNumberedCells(grid: seq<seq<Cell>>, rows: int, cols: int, start: Point, end: Point,
                                 value: int, w: seq<Point>)
    requires IsRoute(Moves(grid, rows, cols, end, value), w, start, end)
    ensures forall k :: 0 < k < |w| ==> ValueAt(grid, w[k]) == 0 || w[k] == end
  {
    forall k | 0 < k < |w|
      ensures ValueAt(grid, w[k]) == 0 || w[k] == end
    {
      assert Moves(grid, rows, cols, end, value)(w[k - 1], w[k]);
    }
  }

  /** `g` is `g0` with the number of every cell of `S` set to `value`. */
  ghost predicate Painted(g0: seq<seq<Cell>>, g: seq<seq<Cell>>, rows: int, cols: int, S: set<Point>, value: int)
  {
    IsMatrix(g0, rows, cols) && IsMatrix(g, rows, cols) &&
    forall i, j :: 0 <= i < rows && 0 <= j < cols ==>
      g[i][j] == if Point(i, j) in S then g0[i][j].(value := value) else g0[i][j]
  }

  /** Painting changes numbers only, each to `value`: the characters stay,
      a cell outside `S` is untouched, and a cell of `S` holds `value`. */
  lemma PaintedCells(g0: seq<seq<Cell>>, g: seq<seq<Cell>>, rows: int, cols: int, S: set<Point>, value: int)
    requires Painted(g0, g, rows, cols, S, value)
    ensures forall i, j :: 0 <= i < rows && 0 <= j < cols ==>
      g[i][j].symbol == g0[i][j].symbol && (g[i][j] == g0[i][j] || g[i][j].value == value)
    ensures forall p :: InBounds(rows, cols, p) && p !in S ==> g[p.x][p.y] == g0[p.x][p.y]
    ensures forall p :: InBounds(rows, cols, p) && p in S ==> g[p.x][p.y].value == value
  {
    forall p | InBounds(rows, cols, p)
      ensures g[p.x][p.y] == if p in S then g0[p.x][p.y].(value := value) else g0[p.x][p.y]
    {
      assert p == Point(p.x, p.y);
    }
  }

  /** Painting one more cell extends the painted set by that cell. */
  lemma PaintedGrows(g0: seq<seq<Cell>>, g: seq<seq<Cell>>, rows: int, cols: int, back: seq<Point>, value: int, p: Point)
    requires Painted(g0, g, rows, cols, PointSet(back), value) && InBounds(rows, cols, p)
    ensures Painted(g0, SetValue(g, p, value), rows, cols, PointSet(back + [p]), value)
  {
    assert PointSet(back + [p]) == PointSet(back) + {p};
  }

  /** The route read off a back chain closed by `start`: its points but
      `start` are those of the chain before `start`. */
  lemma RoutePoints(back: seq<Point>, start: Point)
    requires start !in back
    ensures PointSet(Reversed(back + [start])) - {start} == PointSet(back)
  {
    var chain := back + [start];
    var route := Reversed(chain);
    forall p
      ensures p in PointSet(route) - {start} <==> p in PointSet(back)
    {
      if p in route {
        var k :| 0 <= k < |route| && route[k] == p;
        assert chain[|chain| - 1 - k] == p;
      }
      if p in back {
        var k :| 0 <= k < |back| && back[k] == p;
        assert route[|chain| - 1 - k] == chain[k] == p;
      }
    }
  }

  /** The reconstruction loop of `findPath`: from `end`, following the
      parents until `start`, every cell passed gets `value`. The cells passed
      form a back chain from `end` that stops just short of `start`. */
  method PaintChain(grid: seq<seq<Cell>>, rows: int, cols: int, parent: seq<seq<Point>>,
                    start: Point, end: Point, value: int,
                    ghost step: (Point, Point) -> bool, ghost V: set<Point>, ghost dist: map<Point, nat>)
    returns (g: seq<seq<Cell>>, ghost back: seq<Point>)
    requires IsMatrix(grid, rows, cols)
    requires Discovered(rows, cols, step, start, V, dist, parent) && end in V
    ensures TraceInv(step, V, dist, start, end, back, start)
    ensures Painted(grid, g, rows, cols, PointSet(back), value)
  {
    g := grid;
    back := [];
    var curr := end;
    while curr != start
      invariant TraceInv(step, V, dist, start, end, back, curr)
      invariant Painted(grid, g, rows, cols, PointSet(back), value)
      decreases dist[curr]
    {
      TraceStep(rows, cols, step, start, V, dist, parent, end, back, curr);
      PaintedGrows(grid, g, rows, cols, back, value, curr);
      g := SetValue(g, curr, value);
      back := back + [curr];
      curr := parent[curr.x][curr.y];
    }
  }

  /** The reconstruction of `findPath` as a whole: the cells numbered are
      those of a shortest route from `start` to `end` without repeats, all
      but `start`; only numbers change. */
  method PaintRoute(grid: seq<seq<Cell>>, rows: int, cols: int, parent: seq<seq<Point>>,
                    start: Point, end: Point, value: int,
                    ghost step: (Point, Point) -> bool, ghost V: set<Point>, ghost dist: map<Point, nat>)
    returns (g: seq<seq<Cell>>, ghost route: seq<Point>)
    requires IsMatrix(grid, rows, cols)
    requires Discovered(rows, cols, step, start, V, dist, parent) && end in V
    ensures IsRoute(step, route, start, end) && Distinct(route) && |route| == dist[end] + 1
    ensures Painted(grid, g, rows, cols, PointSet(route) - {start}, value)
    ensures IsMatrix(g, rows, cols)
    ensures forall i, j :: 0 <= i < rows && 0 <= j < cols ==>
      g[i][j].symbol == grid[i][j].symbol && (g[i][j] == grid[i][j] || g[i][j].value == value)
    ensures g[start.x][start.y] == grid[start.x][start.y]
    ensures end != start ==> g[end.x][end.y].value == value
  {
    ghost var back;
    g, back := PaintChain(grid, rows, cols, parent, start, end, value, step, V, dist);
    BackChainReversed(rows, cols, step, start, V, dist, parent, end, back + [start]);
    RoutePoints(back, start);
    route := Reversed(back + [start]);
    PaintedCells(grid, g, rows, cols, PointSet(route) - {start}, value);
    assert route[|route| - 1] == end;
  }

  // ---- assignValues and solve ----

  /** The owner of `p` among the first `n` characters of `keys`: the index
      of the last one whose positions include `p`, or -1. The inner loop of
      `assignValues` writes the characters in turn, so the last write wins. */
  ghost function Owner(m: map<char, seq<Point>>, keys: seq<char>, n: int, p: Point): (t: int)
    requires 0 <= n <= |keys| && forall k :: 0 <= k < n ==> keys[k] in m
    ensures -1 <= t < n
    ensures t >= 0 ==> p in m[keys[t]] && forall u :: t < u < n ==> p !in m[keys[u]]
    ensures t == -1 <==> forall u :: 0 <= u < n ==> p !in m[keys[u]]
  {
    if n == 0 then -1
    else if p in m[keys[n - 1]] then n - 1
    else Owner(m, keys, n - 1, p)
  }

  /** The inner loop of `assignValues`: `value` is written to the number of
      every cell of `pts`. */
  method WriteValue(grid: seq<seq<Cell>>, rows: int, cols: int, pts: seq<Point>, value: int)
    returns (g: seq<seq<Cell>>)
    requires IsMatrix(grid, rows, cols) && AllInBounds(rows, cols, pts)
    ensures Painted(grid, g, rows, cols, PointSet(pts), value)
  {
    g := grid;
    var k := 0;
    while k < |pts|
      invariant 0 <= k <= |pts|
      invariant Painted(grid, g, rows, cols, PointSet(pts[..k]), value)
    {
      assert PointSet(pts[..k + 1]) == PointSet(pts[..k]) + {pts[k]} by {
        assert pts[..k + 1] == pts[..k] + [pts[k]];
      }
      g := SetValue(g, pts[k], value);
      k := k + 1;
    }
    assert pts[..k] == pts;
  }

  /** `keys` lists the characters of `m` once each, in ascending order:
      the order a `std::map` visits them. */
  predicate SortedKeysOf(m: map<char, seq<Point>>, keys: seq<char>)
  {
    |keys| == |m| && (forall c :: c in keys <==> c in m) &&
    forall i, j :: 0 <= i < j < |keys| ==> keys[i] < keys[j]
  }

  lemma SortedKeysListed(m: map<char, seq<Point>>)
    ensures SortedKeysOf(m, CharOrder.SortedKeys(m.Keys))
  {
  }

  /** `values` numbers exactly the characters of `m`, the t-th of `keys`
      with t + 1. */
  ghost predicate RanksAssigned(m: map<char, seq<Point>>, values: map<char, int>, keys: seq<char>)
  {
    values.Keys == m.Keys && forall t :: 0 <= t < |keys| ==> keys[t] in values && values[keys[t]] == t + 1
  }

  /** The first `n` characters of `keys` are numbered by their rank. */
  ghost predicate RankedUpTo(values: map<char, int>, keys: seq<char>, n: int)
  {
    forall t :: 0 <= t < n && t < |keys| ==> keys[t] in values && values[keys[t]] == t + 1
  }

  /** Numbering the next character keeps the earlier numbers: the keys are
      distinct. */
  lemma RankedGrows(m: map<char, seq<Point>>, values: map<char, int>, keys: seq<char>, n: int)
    requires SortedKeysOf(m, keys) && 0 <= n < |keys| && RankedUpTo(values, keys, n)
    ensures RankedUpTo(values[keys[n] := n + 1], keys, n + 1)
  {
    forall t | 0 <= t < n
      ensures keys[t] != keys[n]
    {
      assert keys[t] < keys[n];
    }
  }

  /** Numbering every listed character numbers exactly the characters of `m`. */
  lemma RanksComplete(m: map<char, seq<Point>>, values: map<char, int>, keys: seq<char>)
    requires SortedKeysOf(m, keys) && values.Keys <= m.Keys && RankedUpTo(values, keys, |keys|)
    ensures RanksAssigned(m, values, keys)
  {
    forall c | c in m
      ensures c in values
    {
      var t :| 0 <= t < |keys| && keys[t] == c;
    }
  }

  /** The numbers `assignValues` gives follow the character order: a
      smaller character has a smaller number, and the numbers run over
      1..|m|. */
  lemma RanksFollowOrder(m: map<char, seq<Point>>, values: map<char, int>, keys: seq<char>)
    requires SortedKeysOf(m, keys) && RanksAssigned(m, values, keys)
    ensures forall c :: c in m ==> 1 <= values[c] <= |m|
    ensures forall c, d :: c in m && d in m ==> (c < d <==> values[c] < values[d])
  {
    forall c | c in m
      ensures 1 <= values[c] <= |m|
    {
      var t :| 0 <= t < |keys| && keys[t] == c;
    }
    forall c, d | c in m && d in m
      ensures c < d <==> values[c] < values[d]
    {
      var t :| 0 <= t < |keys| && keys[t] == c;
      var u :| 0 <= u < |keys| && keys[u] == d;
      if t < u {
        assert keys[t] < keys[u];
      } else if u < t {
        assert keys[u] < keys[t];
      }
    }
  }

  /** `g` is `g0` once the first `n` characters of `keys` have had their
      numbers written to their positions, in turn. */
  ghost predicate NumberedBy(g0: seq<seq<Cell>>, g: seq<seq<Cell>>, rows: int, cols: int,
                             m: map<char, seq<Point>>, keys: seq<char>, n: int)
    requires 0 <= n <= |keys| && forall k :: 0 <= k < n ==> keys[k] in m
  {
    IsMatrix(g0, rows, cols) && IsMatrix(g, rows, cols) &&
    forall i, j :: 0 <= i < rows && 0 <= j < cols ==>
      g[i][j] == (var t := Owner(m, keys, n, Point(i, j)); if t >= 0 then g0[i][j].(value := t + 1) else g0[i][j])
  }

  /** One pass of the loop of `assignValues`. */
  lemma NumberedStep(g0: seq<seq<Cell>>, g: seq<seq<Cell>>, g': seq<seq<Cell>>, rows: int, cols: int,
                     m: map<char, seq<Point>>, keys: seq<char>, n: int)
    requires 0 <= n < |keys| && forall k :: 0 <= k < |keys| ==> keys[k] in m
    requires NumberedBy(g0, g, rows, cols, m, keys, n)
    requires Painted(g, g', rows, cols, PointSet(m[keys[n]]), n + 1)
    ensures NumberedBy(g0, g', rows, cols, m, keys, n + 1)
  {
    forall i, j | 0 <= i < rows && 0 <= j < cols
      ensures g'[i][j] == (var t := Owner(m, keys, n + 1, Point(i, j)); if t >= 0 then g0[i][j].(value := t + 1) else g0[i][j])
    {
      assert Point(i, j) in PointSet(m[keys[n]]) <==> Point(i, j) in m[keys[n]];
    }
  }

  /** Every recorded position holds a positive number. */
  ghost predicate PositionsNumbered(g: seq<seq<Cell>>, m: map<char, seq<Point>>)
  {
    forall c, n :: c in m && 0 <= n < |m[c]| ==> ValueAt(g, m[c][n]) > 0
  }

  /** The two grids show the same characters. */
  ghost predicate SameSymbols(g0: seq<seq<Cell>>, g: seq<seq<Cell>>, rows: int, cols: int)
  {
    IsMatrix(g0, rows, cols) && IsMatrix(g, rows, cols) &&
    forall i, j :: 0 <= i < rows && 0 <= j < cols ==> g[i][j].symbol == g0[i][j].symbol
  }

  lemma SameSymbolsTrans(g0: seq<seq<Cell>>, g1: seq<seq<Cell>>, g2: seq<seq<Cell>>, rows: int, cols: int)
    requires SameSymbols(g0, g1, rows, cols) && SameSymbols(g1, g2, rows, cols)
    ensures SameSymbols(g0, g2, rows, cols)
  {
  }

  /** After `assignValues`, every recorded position holds a positive
      number, and the grid shows the same characters. */
  lemma NumberedAfterAssign(g0: seq<seq<Cell>>, g: seq<seq<Cell>>, rows: int, cols: int,
                            m: map<char, seq<Point>>, keys: seq<char>)
    requires SortedKeysOf(m, keys) && forall c :: c in m ==> AllInBounds(rows, cols, m[c])
    requires NumberedBy(g0, g, rows, cols, m, keys, |keys|)
    ensures PositionsNumbered(g, m) && SameSymbols(g0, g, rows, cols)
  {
    forall c, n | c in m && 0 <= n < |m[c]|
      ensures ValueAt(g, m[c][n]) > 0
    {
      var p := m[c][n];
      var t :| 0 <= t < |keys| && keys[t] == c;
      assert p == Point(p.x, p.y) && InBounds(rows, cols, p);
      assert Owner(m, keys, |keys|, p) >= 0;
    }
  }

  /** A path drawn with a positive number keeps the characters and the
      positive numbers of the recorded positions. */
  /** `v` is the number of a character recorded exactly twice. */
  ghost predicate PairNumber(m: map<char, seq<Point>>, values: map<char, int>, v: int)
  {
    exists c :: c in m && |m[c]| == 2 && c in values && values[c] == v
  }

  /** Every cell of `g` is as in `gA` or holds the number of a character
      recorded exactly twice: only the paths of such characters are drawn. */
  ghost predicate OnlyPairsDrawn(gA: seq<seq<Cell>>, g: seq<seq<Cell>>, rows: int, cols: int,
                                 m: map<char, seq<Point>>, values: map<char, int>)
  {
    IsMatrix(gA, rows, cols) && IsMatrix(g, rows, cols) &&
    forall i, j :: 0 <= i < rows && 0 <= j < cols ==>
      g[i][j] == gA[i][j] || PairNumber(m, values, g[i][j].value)
  }

  /** Drawing one more path of a character recorded twice keeps
      `OnlyPairsDrawn`. */
  lemma PairDrawn(gA: seq<seq<Cell>>, g0: seq<seq<Cell>>, g: seq<seq<Cell>>, rows: int, cols: int,
                  S: set<Point>, value: int, m: map<char, seq<Point>>, values: map<char, int>)
    requires OnlyPairsDrawn(gA, g0, rows, cols, m, values) && Painted(g0, g, rows, cols, S, value)
    requires PairNumber(m, values, value)
    ensures OnlyPairsDrawn(gA, g, rows, cols, m, values)
  {
    PaintedCells(g0, g, rows, cols, S, value);
  }

  lemma PaintKeeps(g0: seq<seq<Cell>>, g: seq<seq<Cell>>, rows: int, cols: int, S: set<Point>, value: int,
                   m: map<char, seq<Point>>)
    requires Painted(g0, g, rows, cols, S, value) && value > 0
    requires forall c :: c in m ==> AllInBounds(rows, cols, m[c])
    requires PositionsNumbered(g0, m)
    ensures PositionsNumbered(g, m) && SameSymbols(g0, g, rows, cols)
  {
    forall c, n | c in m && 0 <= n < |m[c]|
      ensures ValueAt(g, m[c][n]) > 0
    {
      var p := m[c][n];
      assert p == Point(p.x, p.y) && InBounds(rows, cols, p);
    }
  }

  /** The loop of `assignValues` on the grid and the numbers held by
      value: the t-th character of `keys` gets t + 1, written to each of its
      positions. */
  method NumberCharacters(grid: seq<seq<Cell>>, rows: int, cols: int, m: map<char, seq<Point>>,
                          keys: seq<char>, values: map<char, int>)
    returns (g: seq<seq<Cell>>, values': map<char, int>)
    requires IsMatrix(grid, rows, cols) && SortedKeysOf(m, keys) && values.Keys <= m.Keys
    requires forall c :: c in m ==> AllInBounds(rows, cols, m[c])
    ensures RanksAssigned(m, values', keys) && NumberedBy(grid, g, rows, cols, m, keys, |keys|)
  {
    g, values' := grid, values;
    var nextValue := 1;
    var k := 0;
    while k < |keys|
      invariant 0 <= k <= |keys| && nextValue == k + 1
      invariant values'.Keys <= m.Keys
      invariant RankedUpTo(values', keys, k)
      invariant NumberedBy(grid, g, rows, cols, m, keys, k)
    {
      var symbol := keys[k];
      RankedGrows(m, values', keys, k);
      values' := values'[symbol := nextValue];
      nextValue := nextValue + 1;
      var g' := WriteValue(g, rows, cols, m[symbol], values'[symbol]);
      NumberedStep(grid, g, g', rows, cols, m, keys, k);
      g := g';
      k := k + 1;
    }
    RanksComplete(m, values', keys);
  }

  class NumberlinkSolver {
    var rows: int
    var cols: int
    var grid: seq<seq<Cell>>
    var symbolPositions: map<char, seq<Point>>
    var symbolValues: map<char, int>

    /** A square grid of the declared size, every recorded position on it,
        and numbers only for recorded characters. */
    ghost predicate Valid()
      reads this
    {
      0 <= rows && rows == cols && IsMatrix(grid, rows, cols) &&
      (forall c :: c in symbolPositions ==> AllInBounds(rows, cols, symbolPositions[c])) &&
      symbolValues.Keys <= symbolPositions.Keys
    }

    /** `NumberlinkSolver(size)`: a size x size grid of blank cells, no
        positions, no numbers. */
    constructor (size: int)
      requires size >= 0
      ensures Valid()
      ensures rows == size && cols == size && grid == Filled(size, size, Blank)
      ensures symbolPositions == map[] && symbolValues == map[]
    {
      rows := size;
      cols := size;
      grid := Filled(size, size, Blank);
      symbolPositions := map[];
      symbolValues := map[];
    }

    /** `isValid(r, c)`: (r, c) is a cell of the grid. */
    function IsValid(r: int, c: int): (ok: bool)
      reads this
      ensures ok <==> Point(r, c) in AllCells(rows, cols)
    {
      r >= 0 && r < rows && c >= 0 && c < cols
    }

    /** `isConnected`: both cells are on the grid and hold the same
        positive number, so the first cell's number being positive makes
        the second's positive too. */
    function IsConnected(r1: int, c1: int, r2: int, c2: int): (ok: bool)
      reads this
      requires Valid()
      ensures ok <==> Point(r1, c1) in AllCells(rows, cols) && Point(r2, c2) in AllCells(rows, cols) &&
                      ValueAt(grid, Point(r1, c1)) > 0 && ValueAt(grid, Point(r1, c1)) == ValueAt(grid, Point(r2, c2))
      ensures ok ==> ValueAt(grid, Point(r2, c2)) > 0
    {
      IsValid(r1, c1) && IsValid(r2, c2) && grid[r1][c1].value > 0 && grid[r1][c1].value == grid[r2][c2].value
    }

    /** The relation `isConnected` draws is symmetric. */
    lemma ConnectedSymmetric(r1: int, c1: int, r2: int, c2: int)
      requires Valid()
      ensures IsConnected(r1, c1, r2, c2) <==> IsConnected(r2, c2, r1, c1)
    {
    }

    /** `setSymbol(row, col, sym)` with 1-based coordinates: on the grid,
        the cell shows `sym` and is appended to the positions of `sym`;
        otherwise nothing changes. */
    method SetSymbol(row: int, col: int, sym: char)
      requires Valid()
      modifies this
      ensures Valid()
      ensures rows == old(rows) && cols == old(cols) && symbolValues == old(symbolValues)
      ensures var p := Point(row - 1, col - 1);
        if InBounds(rows, cols, p) then
          grid == Put(old(grid), p, old(grid)[p.x][p.y].(symbol := sym)) &&
          symbolPositions == old(symbolPositions)[sym := CharOrder.PositionsOf(old(symbolPositions), sym) + [p]]
        else
          grid == old(grid) && symbolPositions == old(symbolPositions)
    {
      var r := row - 1;
      var c := col - 1;
      if r >= 0 && r < rows && c >= 0 && c < cols {
        grid := Put(grid, Point(r, c), grid[r][c].(symbol := sym));
        symbolPositions := symbolPositions[sym := CharOrder.PositionsOf(symbolPositions, sym) + [Point(r, c)]];
      }
    }

    /** `wouldCreate2x2(r1, c1, r2, c2, value)`: marks both cells with
        `value`, looks for a full 2x2 block through (r1, c1), and writes the
        old numbers back, so the grid is left as it was. */
    method WouldCreate2x2(r1: int, c1: int, r2: int, c2: int, value: int) returns (creates: bool)
      requires Valid() && InBounds(rows, cols, Point(r1, c1)) && InBounds(rows, cols, Point(r2, c2))
      modifies this
      ensures unchanged(this)
      ensures creates == Creates2x2(grid, rows, cols, Point(r1, c1), Point(r2, c2), value)
    {
      var a, b := Point(r1, c1), Point(r2, c2);
      var origValue1 := grid[r1][c1].value;
      var origValue2 := grid[r2][c2].value;
      grid := SetValue(grid, a, value);
      grid := SetValue(grid, b, value);
      creates := BlocksAround(grid, rows, cols, r1, c1, value);
      MarksRestored(old(grid), rows, cols, a, b, value);
      grid := SetValue(grid, a, origValue1);
      grid := SetValue(grid, b, origValue2);
    }

    /** One pass of the neighbour loop of `findPath`, direction `i`: the
        neighbour is marked visited, given `current` as parent and queued
        when it is on the grid, not visited, without a number or the end,
        and the 2x2 check lets the step through. */
    method TryNeighbour(end: Point, value: int, current: Point, i: int,
                        visited: seq<seq<bool>>, parent: seq<seq<Point>>, queue: seq<Point>,
                        ghost s: Point, ghost V: set<Point>, ghost P: set<Point>,
                        ghost dist: map<Point, nat>, ghost D: nat)
      returns (visited': seq<seq<bool>>, parent': seq<seq<Point>>, queue': seq<Point>,
               ghost V': set<Point>, ghost dist': map<Point, nat>)
      requires Valid() && 0 <= i < 4
      requires ExpandInv(rows, cols, Moves(grid, rows, cols, end, value), end, s, V, P, dist, parent, visited, queue, current, D, i)
      modifies this
      ensures unchanged(this)
      ensures ExpandInv(rows, cols, Moves(grid, rows, cols, end, value), end, s, V', P, dist', parent', visited', queue', current, D, i + 1)
    {
      ghost var step := Moves(grid, rows, cols, end, value);
      visited', parent', queue', V', dist' := visited, parent, queue, V, dist;
      var nb := Point(current.x + RowStep[i], current.y + ColStep[i]);
      assert nb == Neighbour(current, i) && OrthAdjacent(current, nb);
      if IsValid(nb.x, nb.y) && !visited[nb.x][nb.y] && (grid[nb.x][nb.y].value == 0 || nb == end) {
        var creates := WouldCreate2x2(current.x, current.y, nb.x, nb.y, value);
        if !creates {
          assert step(current, nb);
          ExpandPushes(rows, cols, step, end, s, V, P, dist, parent, visited, queue, current, D, i);
          visited' := Put(visited, nb, true);
          parent' := Put(parent, nb, current);
          queue' := queue + [nb];
          V' := V + {nb};
          dist' := dist[nb := D + 1];
        } else {
          ExpandSkips(rows, cols, step, end, s, V, P, dist, parent, visited, queue, current, D, i);
        }
      } else {
        ExpandSkips(rows, cols, step, end, s, V, P, dist, parent, visited, queue, current, D, i);
      }
    }

    /** The neighbour loop of `findPath`: the four directions in the order
        up, right, down, left. */
    method ExpandNeighbours(end: Point, value: int, current: Point,
                            visited: seq<seq<bool>>, parent: seq<seq<Point>>, queue: seq<Point>,
                            ghost s: Point, ghost V: set<Point>, ghost P: set<Point>,
                            ghost dist: map<Point, nat>, ghost D: nat)
      returns (visited': seq<seq<bool>>, parent': seq<seq<Point>>, queue': seq<Point>,
               ghost V': set<Point>, ghost dist': map<Point, nat>)
      requires Valid()
      requires ExpandInv(rows, cols, Moves(grid, rows, cols, end, value), end, s, V, P, dist, parent, visited, queue, current, D, 0)
      modifies this
      ensures unchanged(this)
      ensures ExpandInv(rows, cols, Moves(grid, rows, cols, end, value), end, s, V', P, dist', parent', visited', queue', current, D, 4)
    {
      visited', parent', queue', V', dist' := visited, parent, queue, V, dist;
      var i := 0;
      while i < 4
        invariant 0 <= i <= 4 && unchanged(this)
        invariant ExpandInv(rows, cols, Moves(grid, rows, cols, end, value), end, s, V', P, dist', parent', visited', queue', current, D, i)
      {
        visited', parent', queue', V', dist' :=
          TryNeighbour(end, value, current, i, visited', parent', queue', s, V', P, dist', D);
        i := i + 1;
      }
    }

    /** The search loop of `findPath`: breadth-first from `start` until
        `end` is taken off the queue or the queue runs out. `end` is found
        exactly when a route to it exists, and then no route is shorter
        than the one the parents record. The grid is left as it was. */
    method SearchPair(start: Point, end: Point, value: int)
      returns (found: bool, parent: seq<seq<Point>>, ghost V: set<Point>, ghost dist: map<Point, nat>)
      requires Valid() && InBounds(rows, cols, start)
      modifies this
      ensures unchanged(this)
      ensures found ==> Discovered(rows, cols, Moves(grid, rows, cols, end, value), start, V, dist, parent) && end in V
      ensures found ==> forall w :: IsRoute(Moves(grid, rows, cols, end, value), w, start, end) ==> dist[end] + 1 <= |w|
      ensures !found ==> forall w :: !IsRoute(Moves(grid, rows, cols, end, value), w, start, end)
    {
      ghost var step := Moves(grid, rows, cols, end, value);
      var visited := Filled(rows, cols, false);
      parent := Filled(rows, cols, NoParent);
      var queue := [start];
      visited := Put(visited, start, true);
      V := {start};
      ghost var P: set<Point> := {};
      dist := map[start := 0];
      MovesStayOnGrid(grid, rows, cols, end, value);
      SearchStarts(rows, cols, step, end, start);
      found := false;
      while queue != [] && !found
        invariant unchanged(this) && !found
        invariant SearchInv(rows, cols, step, end, start, V, P, dist, parent, visited, queue)
        decreases AllCells(rows, cols) - P
      {
        var current := queue[0];
        if current == end {
          ShortestAtHead(rows, cols, step, end, start, V, P, dist, parent, visited, queue);
          queue := queue[1..];
          found := true;
          break;
        }
        ghost var D := dist[current];
        SearchPops(rows, cols, step, end, start, V, P, dist, parent, visited, queue);
        queue := queue[1..];
        visited, parent, queue, V, dist :=
          ExpandNeighbours(end, value, current, visited, parent, queue, start, V, P, dist, D);
        ExpandDone(rows, cols, step, end, start, V, P, dist, parent, visited, queue, current, D);
        P := P + {current};
      }
      if !found {
        SearchExhausted(rows, cols, step, end, start, V, P, dist, parent, visited);
      }
    }

    /** `findPath(start, end, value)`: when some route from `start` to
        `end` exists, a shortest one is drawn, every cell but `start`
        getting `value`; otherwise the grid is unchanged. */
    method FindPath(start: Point, end: Point, value: int) returns (found: bool, ghost route: seq<Point>)
      requires Valid() && InBounds(rows, cols, start)
      modifies this
      ensures Valid()
      ensures rows == old(rows) && cols == old(cols)
      ensures symbolPositions == old(symbolPositions) && symbolValues == old(symbolValues)
      ensures found <==> exists w :: IsRoute(Moves(old(grid), rows, cols, end, value), w, start, end)
      ensures found ==> IsRoute(Moves(old(grid), rows, cols, end, value), route, start, end) && Distinct(route)
      ensures found ==> forall w :: IsRoute(Moves(old(grid), rows, cols, end, value), w, start, end) ==> |route| <= |w|
      ensures found ==> Painted(old(grid), grid, rows, cols, PointSet(route) - {start}, value)
      ensures !found ==> grid == old(grid)
    {
      ghost var step := Moves(grid, rows, cols, end, value);
      var parent;
      ghost var V, dist;
      found, parent, V, dist := SearchPair(start, end, value);
      route := [];
      if found {
        grid, route := PaintRoute(grid, rows, cols, parent, start, end, value, step, V, dist);
      }
    }

    /** The loop of `assignValues`: the k-th character in ascending order
        gets the number k + 1, written to every one of its positions; a
        cell recorded for several characters keeps the number of the last. */
    method AssignValues()
      requires Valid()
      modifies this
      ensures Valid()
      ensures rows == old(rows) && cols == old(cols) && symbolPositions == old(symbolPositions)
      ensures var keys := CharOrder.SortedKeys(symbolPositions.Keys);
        RanksAssigned(symbolPositions, symbolValues, keys) &&
        NumberedBy(old(grid), grid, rows, cols, symbolPositions, keys, |keys|)
    {
      var keys := CharOrder.SortedKeys(symbolPositions.Keys);
      SortedKeysListed(symbolPositions);
      grid, symbolValues := NumberCharacters(grid, rows, cols, symbolPositions, keys, symbolValues);
    }

    /** `solve`: numbers are assigned, then, in ascending character order,
        every character recorded exactly twice is joined by `findPath`;
        the others are skipped. Characters and positions stay as they were,
        the numbers as assigned, and every recorded position keeps a
        positive number. */
    method Solve()
      requires Valid()
      modifies this
      ensures Valid()
      ensures rows == old(rows) && cols == old(cols) && symbolPositions == old(symbolPositions)
      ensures SameSymbols(old(grid), grid, rows, cols)
      ensures RanksAssigned(symbolPositions, symbolValues, CharOrder.SortedKeys(symbolPositions.Keys))
      ensures PositionsNumbered(grid, symbolPositions)
      ensures var keys := CharOrder.SortedKeys(symbolPositions.Keys);
        RanksAssigned(symbolPositions, symbolValues, keys) &&
        exists gA :: NumberedBy(old(grid), gA, rows, cols, symbolPositions, keys, |keys|) &&
          OnlyPairsDrawn(gA, grid, rows, cols, symbolPositions, symbolValues)
    {
      AssignValues();
      ghost var gA := grid;
      var keys := CharOrder.SortedKeys(symbolPositions.Keys);
      SortedKeysListed(symbolPositions);
      NumberedAfterAssign(old(grid), grid, rows, cols, symbolPositions, keys);
      var k := 0;
      while k < |keys|
        invariant 0 <= k <= |keys|
        invariant Valid()
        invariant rows == old(rows) && cols == old(cols) && symbolPositions == old(symbolPositions)
        invariant RanksAssigned(symbolPositions, symbolValues, keys)
        invariant SameSymbols(old(grid), grid, rows, cols) && PositionsNumbered(grid, symbolPositions)
        invariant NumberedBy(old(grid), gA, rows, cols, symbolPositions, keys, |keys|)
        invariant OnlyPairsDrawn(gA, grid, rows, cols, symbolPositions, symbolValues)
      {
        var symbol := keys[k];
        var positions := symbolPositions[symbol];
        if |positions| == 2 {
          ghost var g0 := grid;
          var found, route := FindPath(positions[0], positions[1], symbolValues[symbol]);
          if found {
            PaintKeeps(g0, grid, rows, cols, PointSet(route) - {positions[0]}, symbolValues[symbol], symbolPositions);
            SameSymbolsTrans(old(grid), g0, grid, rows, cols);
            assert PairNumber(symbolPositions, symbolValues, symbolValues[symbol]);
            PairDrawn(gA, g0, grid, rows, cols, PointSet(route) - {positions[0]}, symbolValues[symbol],
                      symbolPositions, symbolValues);
          }
        }
        k := k + 1;
      }
    }
  }
}
