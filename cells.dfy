/** One board cell of the object-oriented solver (Cell.cpp), with the
    constants of Constants.h it uses. A `Cell` is a C++ value stored by copy
    in the board's matrix, so each setter is a function returning the
    updated cell. */
module Cells {

  /** ConsoleSymbols::EMPTY, HORIZONTAL_LINE and VERTICAL_LINE. */
  const Blank: char := ' '
  const HorizontalLine: char := '-'
  const VerticalLine: char := '|'

  /** CellState::EMPTY, OCCUPIED and ENDPOINT. */
  const EmptyState: int := 0
  const Occupied: int := 1
  const Endpoint: int := 2

  datatype Cell = Cell(content: char, state: int) {

    /** `setContent` changes the content and nothing else. */
    function SetContent(c: char): (r: Cell)
      ensures r.content == c && r.state == state
    {
      this.(content := c)
    }

    /** `setState` changes the state and nothing else. */
    function SetState(s: int): (r: Cell)
      ensures r.state == s && r.content == content
    {
      this.(state := s)
    }

    predicate IsEmpty()
    {
      state == EmptyState
    }

    predicate HasSymbol()
    {
      state == Endpoint && content != Blank
    }

    predicate IsPartOfLine()
    {
      state == Occupied
    }

    /** What the console shows: the content of a symbol or line cell, a blank
        otherwise. */
    function DisplayChar(): (c: char)
      ensures HasSymbol() || IsPartOfLine() ==> c == content
      ensures !HasSymbol() && !IsPartOfLine() ==> c == Blank
    {
      if HasSymbol() then content
      else if IsPartOfLine() then content
      else Blank
    }

    /** `clear`: back to a blank, empty cell. */
    function Clear(): (r: Cell)
      ensures r == DefaultCell()
      ensures r.IsEmpty() && !r.HasSymbol() && !r.IsPartOfLine()
    {
      Cell(Blank, EmptyState)
    }
  }

  /** The default constructor `Cell()`. */
  function DefaultCell(): Cell
  {
    Cell(Blank, EmptyState)
  }

  lemma DefaultCellIsEmpty()
    ensures DefaultCell().IsEmpty() && !DefaultCell().HasSymbol()
    ensures DefaultCell().DisplayChar() == Blank
  {
  }

  /** `isEmpty` looks at the state only; `hasSymbol` needs an endpoint state
      and a non-blank content. */
  lemma CellPredicates(c: Cell)
    ensures c.IsEmpty() <==> c.state == EmptyState
    ensures c.HasSymbol() <==> c.state == Endpoint && c.content != Blank
    ensures c.IsPartOfLine() <==> c.state == Occupied
  {
  }

  /** The state constants are distinct, so a cell plays at most one role. */
  lemma AtMostOneRole(c: Cell)
    ensures !(c.IsEmpty() && c.IsPartOfLine())
    ensures !(c.IsEmpty() && c.HasSymbol())
    ensures !(c.IsPartOfLine() && c.HasSymbol())
  {
  }

  lemma ClearIsIdempotent(c: Cell)
    ensures c.Clear().Clear() == c.Clear()
  {
  }
}
