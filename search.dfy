/** Breadth-first search on a grid as all three solvers run it: a queue of
    cells, a visited matrix and a parent matrix filled with (-1, -1), the
    neighbours of a cell tried up, right, down, left. Which neighbour may be
    entered from which cell is the parameter `step`. */
module Search {
  import opened Points
  import opened Grid

  /** The parent of the first cell of the search. */
  const NoParent: Point := Point(-1, -1)

  /** Row and column offsets, in the order the search tries them. */
  const RowStep: seq<int> := [-1, 0, 1, 0]
  const ColStep: seq<int> := [0, 1, 0, -1]

  function Neighbour(p: Point, i: int): Point
    requires 0 <= i < 4
  {
    Point(p.x + RowStep[i], p.y + ColStep[i])
  }

  /** `step` only moves to an orthogonal neighbour on the rows x cols grid. */
  ghost predicate GridStep(step: (Point, Point) -> bool, rows: int, cols: int)
  {
    forall a, b :: step(a, b) ==> OrthAdjacent(a, b) && InBounds(rows, cols, b)
  }

  /** A walk from `source` to `target` made of `step`s. */
  ghost predicate IsRoute(step: (Point, Point) -> bool, w: seq<Point>, source: Point, target: Point)
  {
    |w| > 0 && w[0] == source && w[|w| - 1] == target &&
    forall k :: 0 <= k < |w| - 1 ==> step(w[k], w[k + 1])
  }

  /** A route from a cell of the grid is a path on the grid. */
  lemma RouteIsValidPath(step: (Point, Point) -> bool, rows: int, cols: int, w: seq<Point>, s: Point, t: Point)
    requires GridStep(step, rows, cols) && InBounds(rows, cols, s) && IsRoute(step, w, s, t)
    ensures ValidPath(rows, cols, w, s, t)
  {
    forall k | 0 <= k < |w|
      ensures InBounds(rows, cols, w[k])
    {
      if k > 0 {
        assert step(w[k - 1], w[k]);
      }
    }
  }

  function AllCells(rows: int, cols: int): set<Point>
  {
    set i, j | 0 <= i < rows && 0 <= j < cols :: Point(i, j)
  }

  predicate VisitedIs(visited: seq<seq<bool>>, rows: int, cols: int, V: set<Point>)
  {
    IsMatrix(visited, rows, cols) &&
    forall i, j :: 0 <= i < rows && 0 <= j < cols ==> (visited[i][j] <==> Point(i, j) in V)
  }

  /** What the search has recorded about the cells `V` it has discovered:
      each lies on the grid, `dist` gives its distance from `s`, and each
      but `s` has a discovered parent one step closer. */
  ghost predicate Discovered(rows: int, cols: int, step: (Point, Point) -> bool, s: Point,
                             V: set<Point>, dist: map<Point, nat>, parent: seq<seq<Point>>)
  {
    IsMatrix(parent, rows, cols) &&
    (forall p :: p in V ==> InBounds(rows, cols, p)) &&
    s in V && dist.Keys == V && dist[s] == 0 && parent[s.x][s.y] == NoParent &&
    forall i, j {:trigger parent[i][j]} :: 0 <= i < rows && 0 <= j < cols && Point(i, j) in V && Point(i, j) != s ==>
      parent[i][j] in V && step(parent[i][j], Point(i, j)) && dist[parent[i][j]] + 1 == dist[Point(i, j)]
  }

  /** The invariant of the search loop: the discovered cells `V` are the
      expanded ones `P` and the queued ones; the queue holds each cell
      once, in order of distance, spanning at most two distances, none
      below an expanded cell's; every step out of an expanded cell reaches
      a discovered cell at most one farther; the target, once discovered,
      waits in the queue. */
  ghost predicate SearchInv(rows: int, cols: int, step: (Point, Point) -> bool, e: Point, s: Point,
                            V: set<Point>, P: set<Point>, dist: map<Point, nat>,
                            parent: seq<seq<Point>>, visited: seq<seq<bool>>, queue: seq<Point>)
  {
    GridStep(step, rows, cols) &&
    Discovered(rows, cols, step, s, V, dist, parent) && VisitedIs(visited, rows, cols, V) &&
    (forall k :: 0 <= k < |queue| ==> queue[k] in V && queue[k] !in P) &&
    Distinct(queue) &&
    P <= V && (forall p :: p in V ==> p in P || p in queue) &&
    (forall a, b :: a in P && step(a, b) ==> b in V && dist[b] <= dist[a] + 1) &&
    (forall i, j :: 0 <= i <= j < |queue| ==> dist[queue[i]] <= dist[queue[j]] <= dist[queue[i]] + 1) &&
    (queue != [] ==> forall a :: a in P ==> dist[a] <= dist[queue[0]]) &&
    (e in V ==> e in queue)
  }

  /** The invariant while the neighbours of `current`, at distance `D`, are
      examined: the first `i` directions are done. */
  ghost predicate ExpandInv(rows: int, cols: int, step: (Point, Point) -> bool, e: Point, s: Point,
                            V: set<Point>, P: set<Point>, dist: map<Point, nat>,
                            parent: seq<seq<Point>>, visited: seq<seq<bool>>, queue: seq<Point>,
                            current: Point, D: nat, i: int)
  {
    0 <= i <= 4 && GridStep(step, rows, cols) &&
    Discovered(rows, cols, step, s, V, dist, parent) && VisitedIs(visited, rows, cols, V) &&
    current in V && current !in P && dist[current] == D && current != e &&
    (forall k :: 0 <= k < |queue| ==> queue[k] in V && queue[k] !in P && queue[k] != current) &&
    Distinct(queue) &&
    P <= V && (forall p :: p in V ==> p in P || p in queue || p == current) &&
    (forall a, b :: a in P && step(a, b) ==> b in V && dist[b] <= dist[a] + 1) &&
    (forall k :: 0 <= k < |queue| ==> D <= dist[queue[k]] <= D + 1) &&
    (forall k, l :: 0 <= k <= l < |queue| ==> dist[queue[k]] <= dist[queue[l]]) &&
    (forall a :: a in P ==> dist[a] <= D) &&
    (e in V ==> e in queue) &&
    forall k :: 0 <= k < i && step(current, Neighbour(current, k)) ==>
      Neighbour(current, k) in V && dist[Neighbour(current, k)] <= D + 1
  }

  /** The state after `visited[s] = true` and `q.push(s)`. */
  lemma SearchStarts(rows: int, cols: int, step: (Point, Point) -> bool, e: Point, s: Point)
    requires GridStep(step, rows, cols) && InBounds(rows, cols, s)
    ensures SearchInv(rows, cols, step, e, s, {s}, {}, map[s := 0], Filled(rows, cols, NoParent),
                      Put(Filled(rows, cols, false), s, true), [s])
  {
    var parent := Filled(rows, cols, NoParent);
    assert Discovered(rows, cols, step, s, {s}, map[s := 0], parent) by {
      forall i, j | 0 <= i < rows && 0 <= j < cols && Point(i, j) in {s} && Point(i, j) != s
        ensures false
      {
      }
    }
  }

  /** Taking the head off the queue, when it is not the target. */
  lemma SearchPops(rows: int, cols: int, step: (Point, Point) -> bool, e: Point, s: Point,
                   V: set<Point>, P: set<Point>, dist: map<Point, nat>,
                   parent: seq<seq<Point>>, visited: seq<seq<bool>>, queue: seq<Point>)
    requires SearchInv(rows, cols, step, e, s, V, P, dist, parent, visited, queue)
    requires queue != [] && queue[0] != e
    ensures ExpandInv(rows, cols, step, e, s, V, P, dist, parent, visited, queue[1..], queue[0], dist[queue[0]], 0)
  {
    QueueTail(V, P, queue);
    QueueTailCovers(V, P, queue);
    QueueTailDistances(dist, queue);
  }

  lemma QueueTail(V: set<Point>, P: set<Point>, queue: seq<Point>)
    requires queue != [] && Distinct(queue)
    requires forall k :: 0 <= k < |queue| ==> queue[k] in V && queue[k] !in P
    requires forall p :: p in V ==> p in P || p in queue
    ensures Distinct(queue[1..])
    ensures forall k :: 0 <= k < |queue[1..]| ==> queue[1..][k] in V && queue[1..][k] !in P && queue[1..][k] != queue[0]
  {
    var q := queue[1..];
    forall k | 0 <= k < |q|
      ensures q[k] in V && q[k] !in P && q[k] != queue[0]
    {
      assert q[k] == queue[k + 1];
    }
  }

  lemma QueueTailCovers(V: set<Point>, P: set<Point>, queue: seq<Point>)
    requires queue != []
    requires forall p :: p in V ==> p in P || p in queue
    ensures forall p :: p in V ==> p in P || p in queue[1..] || p == queue[0]
  {
    var q := queue[1..];
    forall p | p in V
      ensures p in P || p in q || p == queue[0]
    {
      if p in queue && p != queue[0] {
        var k :| 0 <= k < |queue| && queue[k] == p;
        assert q[k - 1] == p;
      }
    }
  }

  lemma QueueTailDistances(dist: map<Point, nat>, queue: seq<Point>)
    requires queue != [] && forall k :: 0 <= k < |queue| ==> queue[k] in dist
    requires forall i, j :: 0 <= i <= j < |queue| ==> dist[queue[i]] <= dist[queue[j]] <= dist[queue[i]] + 1
    ensures forall k :: 0 <= k < |queue[1..]| ==> dist[queue[0]] <= dist[queue[1..][k]] <= dist[queue[0]] + 1
    ensures forall k, l :: 0 <= k <= l < |queue[1..]| ==> dist[queue[1..][k]] <= dist[queue[1..][l]]
  {
    var q := queue[1..];
    forall k | 0 <= k < |q|
      ensures dist[queue[0]] <= dist[q[k]] <= dist[queue[0]] + 1
    {
      assert q[k] == queue[k + 1];
    }
    forall k, l | 0 <= k <= l < |q|
      ensures dist[q[k]] <= dist[q[l]]
    {
      assert q[k] == queue[k + 1] && q[l] == queue[l + 1];
    }
  }

  /** A neighbour that is off the grid, already visited or not a step is
      passed over. */
  lemma ExpandSkips(rows: int, cols: int, step: (Point, Point) -> bool, e: Point, s: Point,
                    V: set<Point>, P: set<Point>, dist: map<Point, nat>,
                    parent: seq<seq<Point>>, visited: seq<seq<bool>>, queue: seq<Point>,
                    current: Point, D: nat, i: int)
    requires ExpandInv(rows, cols, step, e, s, V, P, dist, parent, visited, queue, current, D, i) && i < 4
    requires var nb := Neighbour(current, i);
      !(InBounds(rows, cols, nb) && !visited[nb.x][nb.y] && step(current, nb))
    ensures ExpandInv(rows, cols, step, e, s, V, P, dist, parent, visited, queue, current, D, i + 1)
  {
    var nb := Neighbour(current, i);
    if step(current, nb) {
      assert InBounds(rows, cols, nb) && visited[nb.x][nb.y];
      assert nb == Point(nb.x, nb.y) && nb in V;
      assert nb != current;
      if nb !in P {
        var k :| 0 <= k < |queue| && queue[k] == nb;
      }
    }
  }

  /** A neighbour that is on the grid, not yet visited and a step is
      marked visited, given `current` as parent and queued. */
  lemma ExpandPushes(rows: int, cols: int, step: (Point, Point) -> bool, e: Point, s: Point,
                     V: set<Point>, P: set<Point>, dist: map<Point, nat>,
                     parent: seq<seq<Point>>, visited: seq<seq<bool>>, queue: seq<Point>,
                     current: Point, D: nat, i: int)
    requires ExpandInv(rows, cols, step, e, s, V, P, dist, parent, visited, queue, current, D, i) && i < 4
    requires var nb := Neighbour(current, i);
      InBounds(rows, cols, nb) && !visited[nb.x][nb.y] && step(current, nb)
    ensures var nb := Neighbour(current, i);
      ExpandInv(rows, cols, step, e, s, V + {nb}, P, dist[nb := D + 1], Put(parent, nb, current),
                Put(visited, nb, true), queue + [nb], current, D, i + 1)
  {
    var nb := Neighbour(current, i);
    assert nb == Point(nb.x, nb.y) && nb !in V;
    DiscoveredGrows(rows, cols, step, s, V, dist, parent, current, nb);
    QueueGrows(V, P, dist, queue, current, D, nb);
    VisitedGrows(visited, rows, cols, V, nb);
    DistancesGrow(step, V, P, dist, current, D, i, nb);
  }

  lemma VisitedGrows(visited: seq<seq<bool>>, rows: int, cols: int, V: set<Point>, nb: Point)
    requires VisitedIs(visited, rows, cols, V) && InBounds(rows, cols, nb)
    ensures VisitedIs(Put(visited, nb, true), rows, cols, V + {nb})
  {
  }

  /** Giving the new cell `nb` distance `D + 1` changes no distance already
      recorded, and covers the step from `current` in direction `i`. */
  lemma DistancesGrow(step: (Point, Point) -> bool, V: set<Point>, P: set<Point>, dist: map<Point, nat>,
                      current: Point, D: nat, i: int, nb: Point)
    requires 0 <= i < 4 && nb == Neighbour(current, i) && nb !in V && P <= V && dist.Keys == V
    requires forall a, b :: a in P && step(a, b) ==> b in V && dist[b] <= dist[a] + 1
    requires forall a :: a in P ==> dist[a] <= D
    requires forall k :: 0 <= k < i && step(current, Neighbour(current, k)) ==>
      Neighbour(current, k) in V && dist[Neighbour(current, k)] <= D + 1
    ensures var V', dist' := V + {nb}, dist[nb := D + 1];
      (forall a, b :: a in P && step(a, b) ==> b in V' && dist'[b] <= dist'[a] + 1) &&
      (forall a :: a in P ==> dist'[a] <= D) &&
      forall k :: 0 <= k < i + 1 && step(current, Neighbour(current, k)) ==>
        Neighbour(current, k) in V' && dist'[Neighbour(current, k)] <= D + 1
  {
  }

  /** Queueing a newly discovered `nb` at distance `D + 1` keeps the queue's
      own invariants. */
  lemma QueueGrows(V: set<Point>, P: set<Point>, dist: map<Point, nat>, queue: seq<Point>,
                   current: Point, D: nat, nb: Point)
    requires nb !in V && current in V && P <= V && V <= dist.Keys && Distinct(queue)
    requires forall k :: 0 <= k < |queue| ==> queue[k] in V && queue[k] !in P && queue[k] != current
    requires forall k :: 0 <= k < |queue| ==> D <= dist[queue[k]] <= D + 1
    requires forall k, l :: 0 <= k <= l < |queue| ==> dist[queue[k]] <= dist[queue[l]]
    requires forall p :: p in V ==> p in P || p in queue || p == current
    ensures var q, V', dist' := queue + [nb], V + {nb}, dist[nb := D + 1];
      Distinct(q) &&
      (forall k :: 0 <= k < |q| ==> q[k] in V' && q[k] !in P && q[k] != current) &&
      (forall k :: 0 <= k < |q| ==> D <= dist'[q[k]] <= D + 1) &&
      (forall k, l :: 0 <= k <= l < |q| ==> dist'[q[k]] <= dist'[q[l]]) &&
      (forall p :: p in V' ==> p in P || p in q || p == current)
  {
    var q := queue + [nb];
    assert forall k :: 0 <= k < |queue| ==> q[k] == queue[k];
    assert q[|queue|] == nb;
  }

  /** Discovering `nb` by a step from the discovered cell `current` keeps
      the record consistent. */
  lemma DiscoveredGrows(rows: int, cols: int, step: (Point, Point) -> bool, s: Point,
                        V: set<Point>, dist: map<Point, nat>, parent: seq<seq<Point>>,
                        current: Point, nb: Point)
    requires Discovered(rows, cols, step, s, V, dist, parent)
    requires current in V && nb !in V && InBounds(rows, cols, nb) && step(current, nb)
    ensures Discovered(rows, cols, step, s, V + {nb}, dist[nb := dist[current] + 1], Put(parent, nb, current))
  {
    var V', dist', parent' := V + {nb}, dist[nb := dist[current] + 1], Put(parent, nb, current);
    forall a, b | 0 <= a < rows && 0 <= b < cols && Point(a, b) in V' && Point(a, b) != s
      ensures parent'[a][b] in V' && step(parent'[a][b], Point(a, b)) &&
              dist'[parent'[a][b]] + 1 == dist'[Point(a, b)]
    {
      if Point(a, b) != nb {
        assert parent'[a][b] == parent[a][b];
        assert parent[a][b] in V;
      }
    }
  }

  /** Once all four directions are done, `current` counts as expanded. */
  lemma ExpandDone(rows: int, cols: int, step: (Point, Point) -> bool, e: Point, s: Point,
                   V: set<Point>, P: set<Point>, dist: map<Point, nat>,
                   parent: seq<seq<Point>>, visited: seq<seq<bool>>, queue: seq<Point>,
                   current: Point, D: nat)
    requires ExpandInv(rows, cols, step, e, s, V, P, dist, parent, visited, queue, current, D, 4)
    ensures SearchInv(rows, cols, step, e, s, V, P + {current}, dist, parent, visited, queue)
    ensures AllCells(rows, cols) - (P + {current}) < AllCells(rows, cols) - P
  {
    forall b | step(current, b)
      ensures b in V && dist[b] <= D + 1
    {
      AdjacentIsNeighbour(current, b);
      assert Neighbour(current, 0) == Point(current.x - 1, current.y);
      assert Neighbour(current, 1) == Point(current.x, current.y + 1);
      assert Neighbour(current, 2) == Point(current.x + 1, current.y);
      assert Neighbour(current, 3) == Point(current.x, current.y - 1);
    }
    assert InBounds(rows, cols, current) && current == Point(current.x, current.y);
    assert current in AllCells(rows, cols);
  }

  /** When the target reaches the head of the queue, no route to it is
      shorter than its distance. */
  lemma ShortestAtHead(rows: int, cols: int, step: (Point, Point) -> bool, e: Point, s: Point,
                       V: set<Point>, P: set<Point>, dist: map<Point, nat>,
                       parent: seq<seq<Point>>, visited: seq<seq<bool>>, queue: seq<Point>)
    requires SearchInv(rows, cols, step, e, s, V, P, dist, parent, visited, queue)
    requires queue != [] && queue[0] == e
    ensures e in V && forall w :: IsRoute(step, w, s, e) ==> |w| >= dist[e] + 1
  {
    forall w | IsRoute(step, w, s, e)
      ensures |w| >= dist[e] + 1
    {
      LayeredWalkBound(step, s, V, P, queue, dist, w);
    }
  }

  /** When the queue runs dry without meeting the target, no route leads to
      it. */
  lemma SearchExhausted(rows: int, cols: int, step: (Point, Point) -> bool, e: Point, s: Point,
                        V: set<Point>, P: set<Point>, dist: map<Point, nat>,
                        parent: seq<seq<Point>>, visited: seq<seq<bool>>)
    requires SearchInv(rows, cols, step, e, s, V, P, dist, parent, visited, [])
    ensures forall w :: !IsRoute(step, w, s, e)
  {
    forall w | IsRoute(step, w, s, e)
      ensures w[|w| - 1] in V
    {
      LayeredWalkBound(step, s, V, P, [], dist, w);
    }
  }

  /** The chain of parents from a discovered cell back to `s`, `e` first:
      what the three reconstruction loops walk. */
  ghost predicate BackChain(step: (Point, Point) -> bool, V: set<Point>, dist: map<Point, nat>,
                            e: Point, back: seq<Point>)
    requires V <= dist.Keys
  {
    e in V && (back != [] ==> back[0] == e) &&
    (forall k :: 0 <= k < |back| ==> back[k] in V && dist[back[k]] + k == dist[e]) &&
    (forall k :: 0 <= k < |back| - 1 ==> step(back[k + 1], back[k]))
  }

  /** The invariant of a reconstruction loop standing at `curr`, with the
      cells already passed in `back`. */
  ghost predicate TraceInv(step: (Point, Point) -> bool, V: set<Point>, dist: map<Point, nat>,
                           s: Point, e: Point, back: seq<Point>, curr: Point)
    requires V <= dist.Keys
  {
    curr in V && BackChain(step, V, dist, e, back) &&
    (back == [] ==> curr == e) &&
    dist[curr] + |back| == dist[e] &&
    (back != [] ==> step(curr, back[|back| - 1])) &&
    s !in back
  }

  /** One step of a reconstruction loop: `curr` is passed and its parent
      becomes current, one closer to `s`. */
  lemma TraceStep(rows: int, cols: int, step: (Point, Point) -> bool, s: Point,
                  V: set<Point>, dist: map<Point, nat>, parent: seq<seq<Point>>,
                  e: Point, back: seq<Point>, curr: Point)
    requires Discovered(rows, cols, step, s, V, dist, parent)
    requires TraceInv(step, V, dist, s, e, back, curr) && curr != s
    ensures InBounds(rows, cols, curr)
    ensures TraceInv(step, V, dist, s, e, back + [curr], parent[curr.x][curr.y])
    ensures dist[parent[curr.x][curr.y]] < dist[curr]
  {
    assert curr == Point(curr.x, curr.y);
  }

  /** Reversing a complete back chain gives a route without repeats whose
      length is one more than the target's distance. */
  lemma BackChainReversed(rows: int, cols: int, step: (Point, Point) -> bool, s: Point,
                          V: set<Point>, dist: map<Point, nat>, parent: seq<seq<Point>>,
                          e: Point, back: seq<Point>)
    requires Discovered(rows, cols, step, s, V, dist, parent) && e in V
    requires BackChain(step, V, dist, e, back) && back != [] && back[|back| - 1] == s
    ensures IsRoute(step, Reversed(back), s, e) && Distinct(Reversed(back))
    ensures |Reversed(back)| == dist[e] + 1
  {
    var path := Reversed(back);
    var m := |back|;
    forall k | 0 <= k < m - 1
      ensures step(path[k], path[k + 1])
    {
      assert path[k] == back[m - 1 - k] && path[k + 1] == back[m - 2 - k];
    }
    forall i, j | 0 <= i < j < m
      ensures path[i] != path[j]
    {
      assert dist[path[i]] != dist[path[j]];
    }
  }
}
