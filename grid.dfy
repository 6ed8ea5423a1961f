/** Shared vocabulary of the three solvers: bounds, orthogonal adjacency,
    paths, 2x2 blocks, matrices stored as `seq<seq<T>>`, and reversal. */
module Grid {
  import opened Points

  predicate InBounds(rows: int, cols: int, p: Point)
  {
    0 <= p.x < rows && 0 <= p.y < cols
  }

  predicate OrthAdjacent(a: Point, b: Point)
  {
    (a.x == b.x && (a.y - b.y == 1 || b.y - a.y == 1)) ||
    (a.y == b.y && (a.x - b.x == 1 || b.x - a.x == 1))
  }

  /** Every step of `path` is an orthogonal unit step. */
  predicate IsWalk(path: seq<Point>)
  {
    forall k :: 0 <= k < |path| - 1 ==> OrthAdjacent(path[k], path[k + 1])
  }

  predicate AllInBounds(rows: int, cols: int, path: seq<Point>)
  {
    forall k :: 0 <= k < |path| ==> InBounds(rows, cols, path[k])
  }

  /** A non-empty in-bounds orthogonal walk from `start` to `end`. */
  predicate ValidPath(rows: int, cols: int, path: seq<Point>, start: Point, end: Point)
  {
    |path| > 0 && path[0] == start && path[|path| - 1] == end &&
    IsWalk(path) && AllInBounds(rows, cols, path)
  }

  /** The points of a path as a set (`std::set` built from the path). */
  function PointSet(path: seq<Point>): set<Point>
  {
    set p | p in path
  }

  predicate Distinct(path: seq<Point>)
  {
    forall i, j :: 0 <= i < j < |path| ==> path[i] != path[j]
  }

  /** The four cells of the 2x2 block whose top-left corner is `p`. */
  function Block(p: Point): set<Point>
  {
    {p, Point(p.x, p.y + 1), Point(p.x + 1, p.y), Point(p.x + 1, p.y + 1)}
  }

  /** All four cells of the block at `topLeft` are in `cells`. */
  predicate Block2x2Covered(cells: set<Point>, topLeft: Point)
  {
    topLeft in cells && Point(topLeft.x, topLeft.y + 1) in cells &&
    Point(topLeft.x + 1, topLeft.y) in cells && Point(topLeft.x + 1, topLeft.y + 1) in cells
  }

  function Min4(a: int, b: int, c: int, d: int): int
  {
    var ab := if a < b then a else b;
    var cd := if c < d then c else d;
    if ab < cd then ab else cd
  }

  function Max4(a: int, b: int, c: int, d: int): int
  {
    var ab := if a > b then a else b;
    var cd := if c > d then c else d;
    if ab > cd then ab else cd
  }

  /** Four points whose bounding box spans at most one row and one column. */
  predicate Window2x2(a: Point, b: Point, c: Point, d: Point)
  {
    Max4(a.x, b.x, c.x, d.x) - Min4(a.x, b.x, c.x, d.x) <= 1 &&
    Max4(a.y, b.y, c.y, d.y) - Min4(a.y, b.y, c.y, d.y) <= 1
  }

  /** Four distinct points inside one 2x2 bounding box are exactly the cells
      of that block. */
  lemma DistinctWindowCoversBlock(a: Point, b: Point, c: Point, d: Point)
    requires Window2x2(a, b, c, d)
    requires a != b && a != c && a != d && b != c && b != d && c != d
    ensures Block2x2Covered({a, b, c, d}, Point(Min4(a.x, b.x, c.x, d.x), Min4(a.y, b.y, c.y, d.y)))
  {
    var m := Point(Min4(a.x, b.x, c.x, d.x), Min4(a.y, b.y, c.y, d.y));
    assert forall p :: p in {a, b, c, d} ==> p in Block(m);
  }

  // ---- matrices stored row by row ----

  predicate IsMatrix<T>(m: seq<seq<T>>, rows: int, cols: int)
  {
    |m| == rows && forall i :: 0 <= i < |m| ==> |m[i]| == cols
  }

  function Filled<T>(rows: nat, cols: nat, v: T): (m: seq<seq<T>>)
    ensures IsMatrix(m, rows, cols)
    ensures forall i, j :: 0 <= i < rows && 0 <= j < cols ==> m[i][j] == v
  {
    seq(rows, _ => seq(cols, _ => v))
  }

  /** Two matrices of the same shape that agree everywhere are equal. */
  lemma MatrixEquality<T>(a: seq<seq<T>>, b: seq<seq<T>>, rows: int, cols: int)
    requires IsMatrix(a, rows, cols) && IsMatrix(b, rows, cols)
    requires forall i, j :: 0 <= i < rows && 0 <= j < cols ==> a[i][j] == b[i][j]
    ensures a == b
  {
    forall i | 0 <= i < rows
      ensures a[i] == b[i]
    {
      assert forall j :: 0 <= j < cols ==> a[i][j] == b[i][j];
    }
  }

  function At<T>(m: seq<seq<T>>, p: Point): T
    requires 0 <= p.x < |m| && 0 <= p.y < |m[p.x]|
  {
    m[p.x][p.y]
  }

  /** `m[p.x][p.y] = v` on a matrix held by value. */
  function Put<T>(m: seq<seq<T>>, p: Point, v: T): (m': seq<seq<T>>)
    requires 0 <= p.x < |m| && 0 <= p.y < |m[p.x]|
    ensures |m'| == |m| && forall i :: 0 <= i < |m| ==> |m'[i]| == |m[i]|
    ensures forall i, j :: 0 <= i < |m| && 0 <= j < |m[i]| ==>
      m'[i][j] == if i == p.x && j == p.y then v else m[i][j]
  {
    m[p.x := m[p.x][p.y := v]]
  }

  /** A second write to the same cell overrides the first. */
  lemma PutTwice<T>(m: seq<seq<T>>, p: Point, u: T, v: T)
    requires 0 <= p.x < |m| && 0 <= p.y < |m[p.x]|
    ensures Put(Put(m, p, u), p, v) == Put(m, p, v)
  {
    assert Put(m, p, u)[p.x][p.y := v] == m[p.x][p.y := v];
  }

  // ---- std::reverse ----

  function Reversed<T>(s: seq<T>): (r: seq<T>)
    ensures |r| == |s|
    ensures forall k :: 0 <= k < |s| ==> r[k] == s[|s| - 1 - k]
  {
    if s == [] then [] else Reversed(s[1..]) + [s[0]]
  }

  // ---- reachability ----

  /** `V` contains every successor, under `step`, of each of its members. */
  ghost predicate ClosedUnder(V: set<Point>, step: (Point, Point) -> bool)
  {
    forall a, b :: a in V && step(a, b) ==> b in V
  }

  /** A walk whose every step is allowed by `step` never leaves a set closed
      under `step`: breadth-first search is complete once its frontier is
      exhausted. */
  lemma {:induction false} ClosedSetContainsWalk(V: set<Point>, step: (Point, Point) -> bool, path: seq<Point>)
    requires ClosedUnder(V, step)
    requires |path| > 0 && path[0] in V
    requires forall k :: 0 <= k < |path| - 1 ==> step(path[k], path[k + 1])
    ensures forall k :: 0 <= k < |path| ==> path[k] in V
  {
    if |path| > 1 {
      var prefix := path[..|path| - 1];
      ClosedSetContainsWalk(V, step, prefix);
      assert path[|path| - 2] == prefix[|path| - 2];
      assert step(path[|path| - 2], path[|path| - 1]);
    }
  }

  /** The four orthogonal neighbours of `a` are the only cells adjacent to it. */
  lemma AdjacentIsNeighbour(a: Point, b: Point)
    requires OrthAdjacent(a, b)
    ensures b == Point(a.x - 1, a.y) || b == Point(a.x, a.y + 1) ||
            b == Point(a.x + 1, a.y) || b == Point(a.x, a.y - 1)
  {
  }

  /** The layering argument of breadth-first search. `V` holds the cells
      discovered so far with their distances `dist`, `P` the ones already
      expanded and `q` the queue, in order of distance. Every walk from `s`
      under `step` either ends at a discovered cell no farther than the walk
      is long, or is longer than the distance of the head of the queue. */
  lemma {:induction false} LayeredWalkBound(step: (Point, Point) -> bool, s: Point,
                                            V: set<Point>, P: set<Point>, q: seq<Point>,
                                            dist: map<Point, nat>, w: seq<Point>)
    requires s in V && V <= dist.Keys && dist[s] == 0
    requires P <= V && forall p :: p in V ==> p in P || p in q
    requires forall a, b :: a in P && step(a, b) ==> b in V && dist[b] <= dist[a] + 1
    requires forall k :: 0 <= k < |q| ==> q[k] in V
    requires forall k :: 0 <= k < |q| ==> dist[q[0]] <= dist[q[k]]
    requires |w| > 0 && w[0] == s
    requires forall k :: 0 <= k < |w| - 1 ==> step(w[k], w[k + 1])
    ensures (w[|w| - 1] in V && dist[w[|w| - 1]] <= |w| - 1) || (|q| > 0 && |w| - 1 >= dist[q[0]] + 1)
    decreases |w|
  {
    if |w| > 1 {
      var prefix := w[..|w| - 1];
      LayeredWalkBound(step, s, V, P, q, dist, prefix);
      var a, b := w[|w| - 2], w[|w| - 1];
      assert prefix[|prefix| - 1] == a;
      assert step(a, b);
      if a in V && dist[a] <= |w| - 2 && a !in P {
        assert a in q;
        var k :| 0 <= k < |q| && q[k] == a;
      }
    }
  }
}
