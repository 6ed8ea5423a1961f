/** A symbol occurrence on the board (Symbol.cpp). Like `Cell`, a C++ value
    copied into the board's vector, so `setIsConnected` returns the updated
    value. */
module Symbols {
  import opened Points
  import opened Grid

  datatype Symbol = Symbol(value: char, row: int, col: int, isConnected: bool) {

    function Position(): Point
    {
      Point(row, col)
    }

    /** `setIsConnected` changes the flag and nothing else. */
    function SetIsConnected(connected: bool): (s: Symbol)
      ensures s.isConnected == connected
      ensures s.value == value && s.row == row && s.col == col
    {
      this.(isConnected := connected)
    }

    /** `isSameValue` compares the characters only. */
    predicate IsSameValue(other: Symbol)
    {
      value == other.value
    }

    function ManhattanDistance(other: Symbol): (d: int)
      ensures d >= 0
      ensures d == 0 <==> row == other.row && col == other.col
      ensures d >= row - other.row && d >= other.row - row
      ensures d >= col - other.col && d >= other.col - col
    {
      Abs(row - other.row) + Abs(col - other.col)
    }

    /** Same row or same column. */
    predicate IsInLine(other: Symbol)
    {
      row == other.row || col == other.col
    }
  }

  function Abs(n: int): int
  {
    if n < 0 then -n else n
  }

  /** The constructor `Symbol(value, row, col)`: a new symbol is not
      connected. */
  function NewSymbol(value: char, row: int, col: int): (s: Symbol)
    ensures s.value == value && s.Position() == Point(row, col)
    ensures !s.isConnected
  {
    Symbol(value, row, col, false)
  }

  /** The default constructor `Symbol()`. */
  function DefaultSymbol(): (s: Symbol)
    ensures !s.isConnected
  {
    Symbol(' ', 0, 0, false)
  }

  lemma SameValueIsEquivalence(a: Symbol, b: Symbol, c: Symbol)
    ensures a.IsSameValue(a)
    ensures a.IsSameValue(b) <==> b.IsSameValue(a)
    ensures a.IsSameValue(b) && b.IsSameValue(c) ==> a.IsSameValue(c)
    ensures a.IsSameValue(b) <==> a.SetIsConnected(!a.isConnected).IsSameValue(b)
  {
  }

  lemma ManhattanIsSymmetric(a: Symbol, b: Symbol)
    ensures a.ManhattanDistance(b) == b.ManhattanDistance(a)
    ensures a.ManhattanDistance(a) == 0
  {
  }

  lemma InLineIsReflexiveAndSymmetric(a: Symbol, b: Symbol)
    ensures a.IsInLine(a)
    ensures a.IsInLine(b) <==> b.IsInLine(a)
  {
  }

  /** Any orthogonal walk between two symbols has at least one step per unit
      of their Manhattan distance. */
  lemma {:induction false} WalkIsAtLeastManhattan(a: Symbol, b: Symbol, path: seq<Point>)
    requires |path| > 0 && path[0] == a.Position() && path[|path| - 1] == b.Position()
    requires IsWalk(path)
    ensures |path| - 1 >= a.ManhattanDistance(b)
    decreases |path|
  {
    if |path| > 1 {
      var last := path[|path| - 2];
      var mid := Symbol(b.value, last.x, last.y, false);
      WalkIsAtLeastManhattan(a, mid, path[..|path| - 1]);
      assert OrthAdjacent(path[|path| - 2], path[|path| - 1]);
    }
  }
}
