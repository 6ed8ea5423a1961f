/** The board of the object-oriented solver (Board.cpp): a square matrix of
    cells, the symbols placed on it (regrouped by value after every
    placement) and the committed lines. */
module Boards {
  import opened Points
  import opened Grid
  import opened Cells
  import opened Symbols
  import opened Lines
  import opened SymbolGroups
  import CharOrder

  /** BoardDimensions of Constants.h. */
  const MinSize: int := 2
  const MaxSize: int := 20
  const DefaultSize: int := 13

  /** The size `Board(int)` keeps: clamped to [MinSize, MaxSize]. */
  function ClampSize(n: int): (s: int)
    ensures MinSize <= s <= MaxSize
    ensures MinSize <= n <= MaxSize ==> s == n
    ensures n < MinSize ==> s == MinSize
    ensures n > MaxSize ==> s == MaxSize
  {
    if n < MinSize then MinSize else if n > MaxSize then MaxSize else n
  }

  function EmptyCells(n: nat): seq<seq<Cell>>
  {
    Filled(n, n, DefaultCell())
  }

  /** The content and state `addLine` gives a cell the line passes through:
      the condition at Board.cpp line 144 compares a point with itself, so
      the vertical-line branch is never taken. */
  function LineCell(): Cell
  {
    Cell(HorizontalLine, Occupied)
  }

  predicate IsEndOf(line: Line, p: Point)
  {
    p == line.StartPos() || p == line.EndPos()
  }

  /** Every cell of `pts` that is not one of the line's two ends becomes `c`. */
  function Paint(cells: seq<seq<Cell>>, line: Line, pts: seq<Point>, c: Cell): (r: seq<seq<Cell>>)
    ensures |r| == |cells| && forall i :: 0 <= i < |cells| ==> |r[i]| == |cells[i]|
    ensures forall i, j :: 0 <= i < |cells| && 0 <= j < |cells[i]| ==>
      r[i][j] == if Point(i, j) in pts && !IsEndOf(line, Point(i, j)) then c else cells[i][j]
  {
    seq(|cells|, i requires 0 <= i < |cells| =>
      seq(|cells[i]|, j requires 0 <= j < |cells[i]| =>
        if Point(i, j) in pts && !IsEndOf(line, Point(i, j)) then c else cells[i][j]))
  }

  /** The cells after `addLine` commits `line`. */
  function CellsAfterAdd(cells: seq<seq<Cell>>, line: Line): seq<seq<Cell>>
  {
    Paint(cells, line, line.path, LineCell())
  }

  /** The cells after `removeLine` undoes `line`. */
  function CellsAfterRemove(cells: seq<seq<Cell>>, line: Line): seq<seq<Cell>>
  {
    Paint(cells, line, line.path, DefaultCell())
  }

  /** Every symbol standing on one of the line's ends gets the flag. */
  function MarkEnds(symbols: seq<Symbol>, line: Line, connected: bool): (r: seq<Symbol>)
    ensures |r| == |symbols|
    ensures forall k :: 0 <= k < |symbols| ==>
      r[k] == if IsEndOf(line, symbols[k].Position()) then symbols[k].SetIsConnected(connected) else symbols[k]
  {
    seq(|symbols|, k requires 0 <= k < |symbols| =>
      if IsEndOf(line, symbols[k].Position()) then symbols[k].SetIsConnected(connected) else symbols[k])
  }

  /** The symbols with their connected flags ignored. */
  function Placement(symbols: seq<Symbol>): (r: seq<Symbol>)
    ensures |r| == |symbols|
  {
    seq(|symbols|, k requires 0 <= k < |symbols| => symbols[k].SetIsConnected(false))
  }

  lemma MarkEndsKeepsPlacement(symbols: seq<Symbol>, line: Line, connected: bool)
    ensures Placement(MarkEnds(symbols, line, connected)) == Placement(symbols)
  {
  }

  /** Undo after commit: `removeLine` gives back the cells `addLine` changed,
      provided the line ran through blank, empty cells only. */
  lemma RemoveUndoesAdd(cells: seq<seq<Cell>>, n: int, line: Line)
    requires IsMatrix(cells, n, n)
    requires forall p :: p in line.path && !IsEndOf(line, p) && InBounds(n, n, p) ==> At(cells, p) == DefaultCell()
    ensures CellsAfterRemove(CellsAfterAdd(cells, line), line) == cells
  {
    var r := CellsAfterRemove(CellsAfterAdd(cells, line), line);
    forall i, j | 0 <= i < n && 0 <= j < n
      ensures r[i][j] == cells[i][j]
    {
      var p := Point(i, j);
      if p in line.path && !IsEndOf(line, p) {
        assert At(cells, p) == DefaultCell();
      }
    }
    MatrixEquality(r, cells, n, n);
  }

  /** Undo after commit for the flags: the end symbols lose the flag they
      gained, which restores the list when they were not connected before. */
  lemma UnmarkUndoesMark(symbols: seq<Symbol>, line: Line)
    requires forall k :: 0 <= k < |symbols| && IsEndOf(line, symbols[k].Position()) ==> !symbols[k].isConnected
    ensures MarkEnds(MarkEnds(symbols, line, true), line, false) == symbols
  {
    var r := MarkEnds(MarkEnds(symbols, line, true), line, false);
    assert forall k :: 0 <= k < |symbols| ==> r[k] == symbols[k];
  }

  /** `Symbol::isSameValue` at a different position: what
      `findPairForSymbol` looks for. */
  predicate IsPairOf(t: Symbol, s: Symbol)
  {
    t.value == s.value && (t.row != s.row || t.col != s.col)
  }

  /** The loop of `findPairForSymbol` from index `i`. */
  function PairIndex(symbols: seq<Symbol>, s: Symbol, i: nat): (r: int)
    ensures r == -1 || (i <= r < |symbols| && IsPairOf(symbols[r], s))
    ensures r != -1 ==> forall k :: i <= k < r ==> !IsPairOf(symbols[k], s)
    ensures r == -1 <==> forall k :: i <= k < |symbols| ==> !IsPairOf(symbols[k], s)
    decreases |symbols| - i
  {
    if i >= |symbols| then -1
    else if IsPairOf(symbols[i], s) then i
    else PairIndex(symbols, s, i + 1)
  }

  /** The loop of `areAllSymbolsConnected` from index `i`. */
  predicate ConnectedFrom(symbols: seq<Symbol>, i: nat)
    ensures ConnectedFrom(symbols, i) <==> forall k :: i <= k < |symbols| ==> symbols[k].isConnected
    decreases |symbols| - i
  {
    i >= |symbols| || (symbols[i].isConnected && ConnectedFrom(symbols, i + 1))
  }

  /** The loop of `areCellsAvailable` from index `i`: every point is on the
      board and is either a symbol cell or an empty cell. */
  predicate AvailableFrom(cells: seq<seq<Cell>>, n: int, path: seq<Point>, i: nat)
    requires IsMatrix(cells, n, n)
    ensures AvailableFrom(cells, n, path, i) <==>
      forall k :: i <= k < |path| ==>
        InBounds(n, n, path[k]) && (At(cells, path[k]).HasSymbol() || At(cells, path[k]).IsEmpty())
    decreases |path| - i
  {
    if i >= |path| then true
    else if !InBounds(n, n, path[i]) then false
    else if At(cells, path[i]).HasSymbol() then AvailableFrom(cells, n, path, i + 1)
    else if !At(cells, path[i]).IsEmpty() then false
    else AvailableFrom(cells, n, path, i + 1)
  }

  /** A reordering of symbols that all stand on an n x n board stands on it. */
  lemma PermutationKeepsBounds(a: seq<Symbol>, b: seq<Symbol>, n: int)
    requires multiset(a) == multiset(b)
    requires forall k :: 0 <= k < |a| ==> InBounds(n, n, a[k].Position())
    ensures forall k :: 0 <= k < |b| ==> InBounds(n, n, b[k].Position())
  {
    forall k | 0 <= k < |b|
      ensures InBounds(n, n, b[k].Position())
    {
      assert b[k] in multiset(a);
      var t :| 0 <= t < |a| && a[t] == b[k];
    }
  }

  /** The first loop of `findSymbolPairs`: the map from each value to its
      symbols, in list order. */
  method GroupByValue(all: seq<Symbol>) returns (groups: map<char, seq<Symbol>>)
    ensures GroupsOf(groups, all)
  {
    groups := map[];
    var i := 0;
    while i < |all|
      invariant 0 <= i <= |all|
      invariant GroupsOf(groups, all[..i])
    {
      var s := all[i];
      GroupsGrow(groups, all[..i], s);
      groups := groups[s.value := (if s.value in groups then groups[s.value] else []) + [s]];
      assert all[..i + 1] == all[..i] + [s];
      i := i + 1;
    }
    assert all[..i] == all;
  }

  /** `groups` maps each value of `s` to its symbols, in list order. */
  predicate GroupsOf(groups: map<char, seq<Symbol>>, s: seq<Symbol>)
  {
    groups.Keys == Values(s) && forall v :: v in groups ==> groups[v] == Filter(s, v)
  }

  /** `symbolGroups[value].push_back(symbol)` keeps the map in step with
      the prefix of the list it has read. */
  lemma GroupsGrow(groups: map<char, seq<Symbol>>, s: seq<Symbol>, x: Symbol)
    requires GroupsOf(groups, s)
    ensures GroupsOf(groups[x.value := (if x.value in groups then groups[x.value] else []) + [x]], s + [x])
  {
    ValuesSnoc(s, x);
    if x.value !in groups {
      FilterAbsent(s, x.value);
    }
  }

  /** The inner loop of the second loop of `findSymbolPairs`: the symbols
      of one group pushed one by one. */
  method AppendAll(grouped: seq<Symbol>, group: seq<Symbol>) returns (r: seq<Symbol>)
    ensures r == grouped + group
  {
    r := grouped;
    var j := 0;
    while j < |group|
      invariant 0 <= j <= |group|
      invariant r == grouped + group[..j]
    {
      r := r + [group[j]];
      assert group[..j + 1] == group[..j] + [group[j]];
      j := j + 1;
    }
    assert group[..j] == group;
  }

  /** The second loop of `findSymbolPairs`: the groups of `keys` written
      one after the other. */
  method ConcatenateGroups(ghost all: seq<Symbol>, groups: map<char, seq<Symbol>>, keys: seq<char>)
    returns (grouped: seq<Symbol>)
    requires forall c :: c in keys ==> c in groups
    requires GroupsOf(groups, all)
    ensures grouped == GroupFrom(all, keys)
  {
    grouped := [];
    var k := 0;
    while k < |keys|
      invariant 0 <= k <= |keys|
      invariant grouped == GroupFrom(all, keys[..k])
    {
      ghost var before := grouped;
      grouped := AppendAll(grouped, groups[keys[k]]);
      assert keys[..k + 1][..k] == keys[..k];
      assert GroupFrom(all, keys[..k + 1]) == before + Filter(all, keys[k]);
      k := k + 1;
    }
    assert keys[..k] == keys;
  }

  /** The body of `findSymbolPairs` on the list it reads: group by value,
      then write the groups back in the map's key order. */
  method Regroup(all: seq<Symbol>) returns (grouped: seq<Symbol>)
    ensures grouped == Grouped(all)
  {
    var groups := GroupByValue(all);
    var keys := CharOrder.SortedKeys(groups.Keys);
    grouped := ConcatenateGroups(all, groups, keys);
  }

  /** The cell loop of `addLine` and `removeLine`: every point of the path
      that is not one of the line's ends gets the cell `c` (`addLine` sets
      the state to occupied and the content to a horizontal line, both
      whole-field writes; `removeLine` calls `Cell::clear`). */
  method PaintLine(cells: seq<seq<Cell>>, n: int, line: Line, c: Cell) returns (r: seq<seq<Cell>>)
    requires IsMatrix(cells, n, n) && AllInBounds(n, n, line.path)
    ensures r == Paint(cells, line, line.path, c)
  {
    r := cells;
    var k := 0;
    while k < |line.path|
      invariant 0 <= k <= |line.path|
      invariant IsMatrix(r, n, n)
      invariant forall i, j :: 0 <= i < n && 0 <= j < n ==>
        r[i][j] == if Point(i, j) in line.path[..k] && !IsEndOf(line, Point(i, j)) then c else cells[i][j]
    {
      var p := line.path[k];
      assert line.path[..k + 1] == line.path[..k] + [p];
      if !IsEndOf(line, p) {
        r := Put(r, p, c);
      }
      k := k + 1;
    }
    assert line.path[..k] == line.path;
    MatrixEquality(r, Paint(cells, line, line.path, c), n, n);
  }

  /** The symbol loop of `addLine` and `removeLine`: the symbols standing
      on the line's ends get the connected flag. */
  method MarkLineEnds(symbols: seq<Symbol>, line: Line, connected: bool) returns (r: seq<Symbol>)
    ensures r == MarkEnds(symbols, line, connected)
  {
    r := symbols;
    var s := 0;
    while s < |r|
      invariant 0 <= s <= |r| == |symbols|
      invariant forall t :: 0 <= t < |r| ==>
        r[t] == if t < s && IsEndOf(line, symbols[t].Position()) then symbols[t].SetIsConnected(connected) else symbols[t]
    {
      if IsEndOf(line, r[s].Position()) {
        r := r[s := r[s].SetIsConnected(connected)];
      }
      s := s + 1;
    }
  }

  class Board {
    var size: int
    var cells: seq<seq<Cell>>
    var symbols: seq<Symbol>
    var lines: seq<Line>

    /** The board's invariant: the size is within bounds, `cells` is
        size x size, an empty cell is blank (only `clear` empties a cell),
        every symbol stands on the board and every committed line runs on
        it. */
    ghost predicate Valid()
      reads this
    {
      MinSize <= size <= MaxSize &&
      IsMatrix(cells, size, size) &&
      (forall i, j :: 0 <= i < size && 0 <= j < size && cells[i][j].state == EmptyState ==>
         cells[i][j].content == Blank) &&
      (forall k :: 0 <= k < |symbols| ==> InBounds(size, size, symbols[k].Position())) &&
      (forall k :: 0 <= k < |lines| ==> AllInBounds(size, size, lines[k].path))
    }

    /** `Board(int size)`: the size is clamped and every cell is empty. */
    constructor (n: int)
      ensures Valid()
      ensures size == ClampSize(n)
      ensures cells == EmptyCells(size) && symbols == [] && lines == []
    {
      var s := n;
      if s < MinSize {
        s := MinSize;
      } else if s > MaxSize {
        s := MaxSize;
      }
      size := s;
      cells, symbols, lines := [], [], [];
      new;
      InitializeEmptyBoard();
    }

    /** `Board()`: a board of the default size. */
    constructor Default()
      ensures Valid()
      ensures size == DefaultSize
      ensures cells == EmptyCells(size) && symbols == [] && lines == []
    {
      size := DefaultSize;
      cells, symbols, lines := [], [], [];
      new;
      InitializeEmptyBoard();
    }

    /** `initializeEmptyBoard` on a board whose cell matrix is empty (a new
        or cleared board): the matrix grows to size x size and every cell is
        reset to `Cell()`. */
    method InitializeEmptyBoard()
      requires MinSize <= size <= MaxSize && cells == [] && symbols == [] && lines == []
      modifies this
      ensures Valid()
      ensures cells == EmptyCells(size)
      ensures size == old(size) && symbols == old(symbols) && lines == old(lines)
    {
      var n := size;
      cells := Filled(n, n, DefaultCell());
      var i := 0;
      while i < n
        invariant 0 <= i <= n
        invariant size == n && symbols == old(symbols) && lines == old(lines)
        invariant IsMatrix(cells, n, n)
        invariant forall a, b :: 0 <= a < n && 0 <= b < n ==> cells[a][b] == DefaultCell()
      {
        var j := 0;
        while j < n
          invariant 0 <= j <= n
          invariant size == n && symbols == old(symbols) && lines == old(lines)
          invariant IsMatrix(cells, n, n)
          invariant forall a, b :: 0 <= a < n && 0 <= b < n ==> cells[a][b] == DefaultCell()
        {
          cells := Put(cells, Point(i, j), DefaultCell());
          j := j + 1;
        }
        i := i + 1;
      }
      MatrixEquality(cells, EmptyCells(n), n, n);
    }

    /** `getCell`: out-of-range coordinates give the top-left cell. */
    function GetCell(row: int, col: int): (c: Cell)
      reads this
      requires Valid()
      ensures InBounds(size, size, Point(row, col)) ==> c == cells[row][col]
      ensures !InBounds(size, size, Point(row, col)) ==> c == cells[0][0]
    {
      if row < 0 || row >= size || col < 0 || col >= size then cells[0][0]
      else cells[row][col]
    }

    /** `setSymbol`: out-of-range coordinates change nothing; otherwise the
        cell becomes an endpoint holding the symbol and the symbol list,
        grown by one, is regrouped. */
    method SetSymbol(row: int, col: int, symbol: char)
      requires Valid()
      modifies this
      ensures Valid()
      ensures size == old(size) && lines == old(lines)
      ensures !InBounds(size, size, Point(row, col)) ==> cells == old(cells) && symbols == old(symbols)
      ensures InBounds(size, size, Point(row, col)) ==>
        cells == Put(old(cells), Point(row, col), Cell(symbol, Endpoint)) &&
        symbols == Grouped(old(symbols) + [NewSymbol(symbol, row, col)])
    {
      if row < 0 || row >= size || col < 0 || col >= size {
        return;
      }
      var p := Point(row, col);
      cells := Put(cells, p, At(cells, p).SetContent(symbol));
      cells := Put(cells, p, At(cells, p).SetState(Endpoint));
      PutTwice(old(cells), p, At(old(cells), p).SetContent(symbol), Cell(symbol, Endpoint));
      symbols := symbols + [NewSymbol(symbol, row, col)];
      FindSymbolPairs();
    }

    /** `findSymbolPairs`: regroups the symbol list by value, in ascending
        character order, keeping insertion order within a value; the list
        keeps the same symbols. */
    method FindSymbolPairs()
      requires Valid()
      modifies this
      ensures Valid()
      ensures symbols == Grouped(old(symbols))
      ensures multiset(symbols) == multiset(old(symbols))
      ensures size == old(size) && cells == old(cells) && lines == old(lines)
    {
      var all := symbols;
      var grouped := Regroup(all);
      GroupedIsPermutation(all);
      symbols := grouped;
      PermutationKeepsBounds(all, grouped, size);
    }

    /** `addLine`: an invalid line, a line leaving the board or crossing a
        cell that is neither empty nor a symbol, and a line covering a 2x2
        block are refused and change nothing. Otherwise the line is
        appended, the cells it runs through (its two ends excepted) become
        line cells and the symbols at its ends become connected. */
    method AddLine(line: Line) returns (ok: bool)
      requires Valid()
      modifies this
      ensures Valid()
      ensures ok == (line.isValid && AvailableFrom(old(cells), old(size), line.path, 0) && !line.Crosses2x2Area())
      ensures size == old(size)
      ensures !ok ==> cells == old(cells) && symbols == old(symbols) && lines == old(lines)
      ensures ok ==> lines == old(lines) + [line]
      ensures ok ==> cells == CellsAfterAdd(old(cells), line)
      ensures ok ==> symbols == MarkEnds(old(symbols), line, true)
    {
      if !line.isValid {
        return false;
      }
      if !AreCellsAvailable(line.path) {
        return false;
      }
      if line.Crosses2x2Area() {
        return false;
      }
      lines := lines + [line];
      cells := PaintLine(cells, size, line, LineCell());
      symbols := MarkLineEnds(symbols, line, true);
      ok := true;
    }

    /** `removeLine`: an index past the end changes nothing. Otherwise the
        cells of that line (its ends excepted) are cleared, the symbols at
        its ends are no longer connected, and only that line is erased. */
    method RemoveLine(index: nat)
      requires Valid()
      modifies this
      ensures Valid()
      ensures size == old(size)
      ensures index >= |old(lines)| ==> cells == old(cells) && symbols == old(symbols) && lines == old(lines)
      ensures index < |old(lines)| ==> lines == old(lines)[..index] + old(lines)[index + 1..]
      ensures index < |old(lines)| ==> cells == CellsAfterRemove(old(cells), old(lines)[index])
      ensures index < |old(lines)| ==> symbols == MarkEnds(old(symbols), old(lines)[index], false)
    {
      if index >= |lines| {
        return;
      }
      var line := lines[index];
      assert AllInBounds(size, size, line.path);
      cells := PaintLine(cells, size, line, DefaultCell());
      symbols := MarkLineEnds(symbols, line, false);
      lines := lines[..index] + lines[index + 1..];
    }

    /** `canDrawLineThroughCell`: on the board and empty. */
    predicate CanDrawLineThroughCell(row: int, col: int)
      reads this
      requires IsMatrix(cells, size, size)
    {
      0 <= row < size && 0 <= col < size && cells[row][col].IsEmpty()
    }

    /** `areCellsAvailable`: every point is on the board and is a symbol cell
        or an empty cell. */
    function AreCellsAvailable(path: seq<Point>): (ok: bool)
      reads this
      requires Valid()
      ensures ok <==> forall k :: 0 <= k < |path| ==>
        InBounds(size, size, path[k]) && (cells[path[k].x][path[k].y].HasSymbol() || cells[path[k].x][path[k].y].IsEmpty())
    {
      AvailableFrom(cells, size, path, 0)
    }

    /** `findPairForSymbol`: the first index holding the same value at a
        different position, or -1. */
    function FindPairForSymbol(s: Symbol): (r: int)
      reads this
      ensures r == -1 <==> forall k :: 0 <= k < |symbols| ==> !IsPairOf(symbols[k], s)
      ensures r != -1 ==> 0 <= r < |symbols| && IsPairOf(symbols[r], s) &&
                          forall k :: 0 <= k < r ==> !IsPairOf(symbols[k], s)
    {
      PairIndex(symbols, s, 0)
    }

    /** `areAllSymbolsConnected`: true when every symbol is connected, so in
        particular on a board without symbols. */
    predicate AreAllSymbolsConnected()
      reads this
      ensures AreAllSymbolsConnected() <==> forall k :: 0 <= k < |symbols| ==> symbols[k].isConnected
    {
      ConnectedFrom(symbols, 0)
    }

    /** `clear`: no symbols, no lines, every cell empty. */
    method Clear()
      requires Valid()
      modifies this
      ensures Valid()
      ensures size == old(size) && cells == EmptyCells(size) && symbols == [] && lines == []
    {
      cells := [];
      symbols := [];
      lines := [];
      InitializeEmptyBoard();
    }
  }
}
