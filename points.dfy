/** Grid coordinates.

    `Point` is the struct of PuzzleSolver/Point.h (x = row, y = column). The
    `std::pair<int, int>` (row, column) coordinates used by Board, Line, Solver
    and Numberlink are represented by the same datatype: a pair's `==` and `<`
    are the same componentwise and lexicographic comparisons. */
module Points {

  datatype Point = Point(x: int, y: int)

  /** The constructor `Point(int _x = 0, int _y = 0)`. */
  function NewPoint(x: int := 0, y: int := 0): Point
  {
    Point(x, y)
  }

  /** `operator==`: both coordinates match. */
  predicate Equal(a: Point, b: Point)
  {
    a.x == b.x && a.y == b.y
  }

  /** `operator<`: `x` decides unless the `x` values are equal, then `y`. */
  predicate Less(a: Point, b: Point)
  {
    if a.x != b.x then a.x < b.x else a.y < b.y
  }

  lemma DefaultPointIsOrigin()
    ensures NewPoint() == Point(0, 0)
    ensures NewPoint(7) == Point(7, 0)
  {
  }

  lemma EqualIsIdentity(a: Point, b: Point)
    ensures Equal(a, b) <==> a == b
  {
  }

  lemma LessIsLexicographic(a: Point, b: Point)
    ensures Less(a, b) <==> a.x < b.x || (a.x == b.x && a.y < b.y)
  {
  }

  lemma LessIsStrictOrder(a: Point, b: Point, c: Point)
    ensures !Less(a, a)
    ensures Less(a, b) && Less(b, c) ==> Less(a, c)
  {
  }

  /** Exactly one of `a < b`, `b < a`, `a == b`: a strict total order, as a
      `std::map` key needs. */
  lemma LessTrichotomy(a: Point, b: Point)
    ensures Less(a, b) || Less(b, a) || Equal(a, b)
    ensures !(Less(a, b) && Less(b, a))
    ensures Equal(a, b) ==> !Less(a, b) && !Less(b, a)
  {
  }
}
