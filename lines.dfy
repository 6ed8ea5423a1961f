/** A line between two symbols (Line.cpp): the symbols at its ends, the path
    of (row, column) points and the validity flag. A C++ value copied into
    the board's vector, so each mutator returns the updated line. */
module Lines {
  import opened Points
  import opened Grid
  import opened Symbols

  datatype Line = Line(start: Symbol, end: Symbol, path: seq<Point>, isValid: bool) {

    function StartPos(): Point
    {
      start.Position()
    }

    function EndPos(): Point
    {
      end.Position()
    }

    function SetPath(p: seq<Point>): (l: Line)
      ensures l.path == p && l.start == start && l.end == end && l.isValid == isValid
    {
      this.(path := p)
    }

    function SetIsValid(valid: bool): (l: Line)
      ensures l.isValid == valid && l.start == start && l.end == end && l.path == path
    {
      this.(isValid := valid)
    }

    /** `addPoint` appends exactly one point; reaching the end symbol makes
        the line valid, any other point leaves the flag as it was. */
    function AddPoint(row: int, col: int): (l: Line)
      ensures l.path == path + [Point(row, col)]
      ensures l.isValid == (isValid || Point(row, col) == EndPos())
      ensures l.start == start && l.end == end
    {
      Line(start, end, path + [Point(row, col)],
           if row == end.row && col == end.col then true else isValid)
    }

    /** `removeLastPoint` does nothing on an empty path, otherwise drops the
        last point and invalidates the line if that point was the end. */
    function RemoveLastPoint(): (l: Line)
      ensures path == [] ==> l == this
      ensures path != [] ==> l.path == path[..|path| - 1]
      ensures path != [] ==> l.isValid == (isValid && path[|path| - 1] != EndPos())
      ensures l.start == start && l.end == end
    {
      if path == [] then this
      else
        var last := path[|path| - 1];
        Line(start, end, path[..|path| - 1],
             if last.x == end.row && last.y == end.col then false else isValid)
    }

    /** `clearPath` keeps only the start point and invalidates the line. */
    function ClearPath(): (l: Line)
      ensures l.path == [StartPos()] && !l.isValid
      ensures l.start == start && l.end == end
    {
      Line(start, end, [Point(start.row, start.col)], false)
    }

    /** `containsPoint`: `std::find` over the path. */
    predicate ContainsPoint(row: int, col: int)
    {
      Point(row, col) in path
    }

    /** `crosses2x2Area`: paths of fewer than four points never cross;
        otherwise some point other than the last is the top-left corner of a
        2x2 block whose four cells all lie on the path. */
    predicate Crosses2x2Area(): (r: bool)
      ensures r <==> |path| >= 4 && exists k :: 0 <= k < |path| - 1 && BlockOnPath(path, path[k])
    {
      |path| >= 4 && CornerScan(path, 0)
    }
  }

  /** The four `containsPoint` tests of `crosses2x2Area` for corner `p`. */
  predicate BlockOnPath(path: seq<Point>, p: Point)
  {
    p in path && Point(p.x, p.y + 1) in path &&
    Point(p.x + 1, p.y) in path && Point(p.x + 1, p.y + 1) in path
  }

  /** The loop of `crosses2x2Area` from index `i`: it stops before the last
      point (`i < path.size() - 1`). */
  predicate CornerScan(path: seq<Point>, i: nat)
    ensures CornerScan(path, i) <==> exists k :: i <= k < |path| - 1 && BlockOnPath(path, path[k])
    decreases |path| - i
  {
    if i + 1 >= |path| then false
    else BlockOnPath(path, path[i]) || CornerScan(path, i + 1)
  }

  /** The default constructor `Line()`. */
  function DefaultLine(): (l: Line)
    ensures !l.isValid && l.path == []
  {
    Line(DefaultSymbol(), DefaultSymbol(), [], false)
  }

  /** The constructor `Line(start, end)`: never valid; the path holds the
      start point only when both symbols have the same value. */
  function NewLine(start: Symbol, end: Symbol): (l: Line)
    ensures !l.isValid && l.start == start && l.end == end
    ensures start.IsSameValue(end) ==> l.path == [start.Position()]
    ensures !start.IsSameValue(end) ==> l.path == []
  {
    if !start.IsSameValue(end) then Line(start, end, [], false)
    else Line(start, end, [Point(start.row, start.col)], false)
  }

  lemma BlockOnPathIsCover(path: seq<Point>, p: Point)
    ensures BlockOnPath(path, p) <==> Block2x2Covered(PointSet(path), p)
  {
  }

  /** `addPoint` then `removeLastPoint` gives back the path exactly; the flag
      comes back too unless the added point was the end. */
  lemma AddThenRemoveRestoresPath(l: Line, row: int, col: int)
    ensures l.AddPoint(row, col).RemoveLastPoint().path == l.path
    ensures Point(row, col) != l.EndPos() ==> l.AddPoint(row, col).RemoveLastPoint() == l
    ensures Point(row, col) == l.EndPos() ==> !l.AddPoint(row, col).RemoveLastPoint().isValid
  {
    assert (l.path + [Point(row, col)])[..|l.path|] == l.path;
  }

  lemma ClearPathIsIdempotent(l: Line)
    ensures l.ClearPath().ClearPath() == l.ClearPath()
  {
  }

  /** The scan never tries the last point as a corner: the U-shaped path
      (0,1) (1,1) (1,0) (0,0) fills the block at (0,0), whose corner is only
      the last point, and is not reported. */
  lemma CrossesMissesLastCorner()
    ensures var l := NewLine(NewSymbol('A', 0, 1), NewSymbol('A', 0, 0))
                       .SetPath([Point(0, 1), Point(1, 1), Point(1, 0), Point(0, 0)]);
            BlockOnPath(l.path, Point(0, 0)) && !l.Crosses2x2Area()
  {
    var path := [Point(0, 1), Point(1, 1), Point(1, 0), Point(0, 0)];
    assert !BlockOnPath(path, path[0]) by { assert Point(0, 2) !in path; }
    assert !BlockOnPath(path, path[1]) by { assert Point(2, 1) !in path; }
    assert !BlockOnPath(path, path[2]) by { assert Point(2, 0) !in path; }
  }
}
