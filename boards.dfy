/** The board: a list of tiles in row-major order (index 9 * row + col),
    and the legality queries the solver asks of it. */
module Boards {
  import opened Tiles

  /** A column, a row or a zone, selected by its number. */
  datatype Unit = Column(c: int) | Row(r: int) | Zone(z: int)

  predicate InUnit(t: Tile, u: Unit) {
    match u
    case Column(c) => t.col == c
    case Row(r) => t.row == r
    case Zone(z) => t.zone == z
  }

  /** Two tiles constrain each other: same column, same row or same zone. */
  predicate SameUnit(t: Tile, s: Tile) {
    t.col == s.col || t.row == s.row || t.zone == s.zone
  }

  predicate AllWellFormed(ts: seq<Tile>) {
    forall i :: 0 <= i < |ts| ==> WellFormed(ts[i])
  }

  /** The legality invariant: no two distinct filled tiles that share a
      column, a row or a zone hold the same value. */
  predicate Legal(ts: seq<Tile>) {
    forall i, j ::
      0 <= i < |ts| && 0 <= j < |ts| && i != j && Filled(ts[i]) && Filled(ts[j]) && SameUnit(ts[i], ts[j])
      ==> ts[i].value != ts[j].value
  }

  /** The values of the filled tiles of a unit, in board order. */
  function Occupants(ts: seq<Tile>, u: Unit): (vs: seq<int>)
    ensures forall v :: v in vs <==> exists t :: t in ts && InUnit(t, u) && Filled(t) && t.value == v
  {
    if ts == [] then []
    else
      assert forall t :: t in ts <==> t == ts[0] || t in ts[1..];
      (if InUnit(ts[0], u) && Filled(ts[0]) then [ts[0].value] else []) + Occupants(ts[1..], u)
  }

  /** Board.check_col: no filled tile of the column holds the value. */
  function CheckCol(ts: seq<Tile>, column: int, value: int): (ok: bool)
    ensures ok <==> forall t :: t in ts && t.col == column && Filled(t) ==> t.value != value
  {
    value !in Occupants(ts, Column(column))
  }

  /** Board.check_row: no filled tile of the row holds the value. */
  function CheckRow(ts: seq<Tile>, row: int, value: int): (ok: bool)
    ensures ok <==> forall t :: t in ts && t.row == row && Filled(t) ==> t.value != value
  {
    value !in Occupants(ts, Row(row))
  }

  /** Board.check_zone: no filled tile of the zone holds the value. */
  function CheckZone(ts: seq<Tile>, zone: int, value: int): (ok: bool)
    ensures ok <==> forall t :: t in ts && t.zone == zone && Filled(t) ==> t.value != value
  {
    value !in Occupants(ts, Zone(zone))
  }

  /** The value may go at the index: no filled tile sharing that tile's
      column, row or zone (the tile itself included) holds it. */
  predicate Allowed(ts: seq<Tile>, index: int, value: int)
    requires 0 <= index < |ts|
  {
    forall j :: 0 <= j < |ts| && Filled(ts[j]) && SameUnit(ts[j], ts[index]) ==> ts[j].value != value
  }

  /** Board.check_valid: asks the column, the row and the zone of the tile
      at the index in turn; it accepts exactly the allowed values. It
      changes nothing. */
  function CheckValid(ts: seq<Tile>, index: int, value: int): (ok: bool)
    requires 0 <= index < |ts|
    ensures ok == Allowed(ts, index, value)
  {
    var tile := ts[index];
    CheckCol(ts, tile.col, value) && CheckRow(ts, tile.row, value) && CheckZone(ts, tile.zone, value)
  }

  /** The board with the value put into the tile at the index. */
  function Place(ts: seq<Tile>, index: int, value: int): seq<Tile>
    requires 0 <= index < |ts|
  {
    ts[index := ts[index].(value := value)]
  }

  /** A legal placement keeps the legality invariant. */
  lemma PlaceKeepsLegal(ts: seq<Tile>, index: int, value: int)
    requires 0 <= index < |ts| && Legal(ts) && Allowed(ts, index, value)
    ensures Legal(Place(ts, index, value))
  {
    var next := Place(ts, index, value);
    forall i, j |
      0 <= i < |next| && 0 <= j < |next| && i != j && Filled(next[i]) && Filled(next[j]) && SameUnit(next[i], next[j])
      ensures next[i].value != next[j].value
    {
      if i == index {
        assert SameUnit(ts[j], ts[index]);
      } else if j == index {
        assert SameUnit(ts[i], ts[index]);
      }
    }
  }

  /** The indices of the blank tiles. */
  function EmptyCells(ts: seq<Tile>): set<int> {
    set i | 0 <= i < |ts| && !Filled(ts[i])
  }

  /** Filling a blank tile removes exactly that tile from the blank ones. */
  lemma PlaceFillsOne(ts: seq<Tile>, index: int, value: int)
    requires 0 <= index < |ts| && !Filled(ts[index]) && value != Blank
    ensures EmptyCells(Place(ts, index, value)) == EmptyCells(ts) - {index}
    ensures EmptyCells(Place(ts, index, value)) < EmptyCells(ts)
    ensures |EmptyCells(Place(ts, index, value))| == |EmptyCells(ts)| - 1
  {
    assert index in EmptyCells(ts);
  }

  /** Every tile holds a value. */
  predicate Full(ts: seq<Tile>) {
    forall i :: 0 <= i < |ts| ==> Filled(ts[i])
  }

  /** The index of the lowest blank tile. */
  function LowestEmpty(ts: seq<Tile>): (k: int)
    requires !Full(ts)
    ensures 0 <= k < |ts| && !Filled(ts[k])
    ensures forall j :: 0 <= j < k ==> Filled(ts[j])
  {
    if !Filled(ts[0]) then 0
    else
      assert !Full(ts[1..]) by {
        var i :| 0 <= i < |ts| && !Filled(ts[i]);
        assert ts[1..][i - 1] == ts[i];
      }
      1 + LowestEmpty(ts[1..])
  }

  /** The value a digit character stands for ('0' gives 0, which is blank). */
  function DigitValue(c: char): int
    requires '0' <= c <= '9'
  {
    c as int - '0' as int
  }

  /** The characters Board.fill_board reads from its input: the positions the
      zip of board and text reaches must each hold '.' or a digit. */
  predicate FillableText(ts: seq<Tile>, s: string) {
    forall i :: 0 <= i < |ts| && 0 <= i < |s| ==> s[i] == '.' || '0' <= s[i] <= '9'
  }

  /** The board after Board.fill_board: a '.' leaves the tile as it was, a
      digit sets its value; positions past the end of the shorter of board
      and text are untouched. */
  function Populate(ts: seq<Tile>, s: string): (r: seq<Tile>)
    requires FillableText(ts, s)
  {
    seq(|ts|, i requires 0 <= i < |ts| =>
      if i < |s| && s[i] != '.' then ts[i].(value := DigitValue(s[i])) else ts[i])
  }

  /** The 81 blank tiles Board.initialize appends, row by row. */
  function BlankGrid(): (g: seq<Tile>)
    ensures |g| == 81 && AllWellFormed(g) && !Full(g)
    ensures forall i :: 0 <= i < |g| ==> !Filled(g[i])
  {
    var g := seq(81, i requires 0 <= i < 81 => NewTile(i % 9, i / 9, Blank));
    assert !Filled(g[0]);
    g
  }

  /** The tile at index 9 * row + col of the blank grid sits at that column
      and that row: the layout the coordinate lookup relies on. */
  lemma BlankGridAt(col: int, row: int)
    requires 0 <= col < 9 && 0 <= row < 9
    ensures 0 <= 9 * row + col < 81
    ensures BlankGrid()[9 * row + col] == NewTile(col, row, Blank)
  {
    var k := 9 * row + col;
    assert k / 9 == row && k % 9 == col;
  }

  /** The blank grid up to index 9 * row + col, one tile longer. */
  lemma BlankGridStep(col: int, row: int)
    requires 0 <= col < 9 && 0 <= row < 9
    ensures BlankGrid()[..9 * row + col + 1] == BlankGrid()[..9 * row + col] + [NewTile(col, row, Blank)]
  {
    var grid := BlankGrid();
    BlankGridAt(col, row);
    assert grid[..9 * row + col + 1] == grid[..9 * row + col] + [grid[9 * row + col]];
  }

  /** The nine indices of a row of the grid, left to right. */
  function RowCells(row: int): (cells: seq<int>)
    requires 0 <= row < 9
    ensures |cells| == 9
    ensures forall k :: 0 <= k < 9 ==> 0 <= cells[k] < 81 && BlankGrid()[cells[k]].row == row
    ensures forall k, l :: 0 <= k < l < 9 ==> cells[k] != cells[l]
    ensures forall i :: 0 <= i < 81 && BlankGrid()[i].row == row ==> i in cells
  {
    var cells := seq(9, col requires 0 <= col < 9 => 9 * row + col);
    assert forall k :: 0 <= k < 9 ==> BlankGrid()[cells[k]].row == row by {
      forall k | 0 <= k < 9 ensures BlankGrid()[cells[k]].row == row {
        BlankGridAt(k, row);
      }
    }
    forall i | 0 <= i < 81 && BlankGrid()[i].row == row ensures i in cells {
      BlankGridAt(i % 9, i / 9);
      assert i == 9 * (i / 9) + i % 9;
      assert cells[i % 9] == i;
    }
    cells
  }

  /** The nine indices of a column of the grid, top to bottom. */
  function ColumnCells(col: int): (cells: seq<int>)
    requires 0 <= col < 9
    ensures |cells| == 9
    ensures forall k :: 0 <= k < 9 ==> 0 <= cells[k] < 81 && BlankGrid()[cells[k]].col == col
    ensures forall k, l :: 0 <= k < l < 9 ==> cells[k] != cells[l]
    ensures forall i :: 0 <= i < 81 && BlankGrid()[i].col == col ==> i in cells
  {
    var cells := seq(9, row requires 0 <= row < 9 => 9 * row + col);
    assert forall k :: 0 <= k < 9 ==> BlankGrid()[cells[k]].col == col by {
      forall k | 0 <= k < 9 ensures BlankGrid()[cells[k]].col == col {
        BlankGridAt(col, k);
      }
    }
    forall i | 0 <= i < 81 && BlankGrid()[i].col == col ensures i in cells {
      BlankGridAt(i % 9, i / 9);
      assert i == 9 * (i / 9) + i % 9;
      assert cells[i / 9] == i;
    }
    cells
  }

  /** The zone number of box number 0..8: that of the box's top-left tile. */
  function BoxZone(box: int): int
    requires 0 <= box < 9
  {
    FindZone(3 * (box % 3), 3 * (box / 3))
  }

  /** The index of the k-th tile (row by row) of box number 0..8. */
  function BoxCell(box: int, k: int): int {
    9 * (3 * (box / 3) + k / 3) + 3 * (box % 3) + k % 3
  }

  lemma BoxCellAt(box: int, k: int)
    requires 0 <= box < 9 && 0 <= k < 9
    ensures 0 <= BoxCell(box, k) < 81
    ensures BlankGrid()[BoxCell(box, k)] == NewTile(3 * (box % 3) + k % 3, 3 * (box / 3) + k / 3, Blank)
    ensures BlankGrid()[BoxCell(box, k)].zone == BoxZone(box)
  {
    var col, row := 3 * (box % 3) + k % 3, 3 * (box / 3) + k / 3;
    assert BoxCell(box, k) == 9 * row + col;
    assert col / 3 == box % 3 && row / 3 == box / 3;
    BlankGridAt(col, row);
    ZoneIdentifiesBox(col, row, 3 * (box % 3), 3 * (box / 3));
  }

  lemma BoxCellsDistinct(box: int, k: int, l: int)
    requires 0 <= box < 9 && 0 <= k < l < 9
    ensures BoxCell(box, k) != BoxCell(box, l)
  {
    BoxCellAt(box, k);
    BoxCellAt(box, l);
    if k / 3 == l / 3 {
      assert k % 3 != l % 3;
    }
  }

  /** Every grid index in the zone of a box is one of that box's cells. */
  lemma BoxCellOf(box: int, i: int)
    requires 0 <= box < 9 && 0 <= i < 81
    requires BlankGrid()[i].zone == BoxZone(box)
    ensures 0 <= 3 * (i / 9 % 3) + i % 9 % 3 < 9
    ensures BoxCell(box, 3 * (i / 9 % 3) + i % 9 % 3) == i
  {
    var col, row := i % 9, i / 9;
    BlankGridAt(col, row);
    ZoneIdentifiesBox(col, row, 3 * (box % 3), 3 * (box / 3));
    BoxCellArith(box, col, row);
  }

  lemma BoxCellArith(box: int, col: int, row: int)
    requires 0 <= box < 9 && 0 <= col < 9 && 0 <= row < 9
    requires col / 3 == box % 3 && row / 3 == box / 3
    ensures BoxCell(box, 3 * (row % 3) + col % 3) == 9 * row + col
  {
    var k := 3 * (row % 3) + col % 3;
    assert k / 3 == row % 3 && k % 3 == col % 3;
    assert 3 * (box / 3) + k / 3 == row;
    assert 3 * (box % 3) + k % 3 == col;
  }

  /** The nine indices of box number 0..8 (counted row-major over the boxes),
      row by row within the box. */
  function BoxCells(box: int): (cells: seq<int>)
    requires 0 <= box < 9
    ensures |cells| == 9
    ensures forall k :: 0 <= k < 9 ==> 0 <= cells[k] < 81 && BlankGrid()[cells[k]].zone == BoxZone(box)
    ensures forall k, l :: 0 <= k < l < 9 ==> cells[k] != cells[l]
    ensures forall i :: 0 <= i < 81 && BlankGrid()[i].zone == BoxZone(box) ==> i in cells
  {
    var cells := seq(9, k requires 0 <= k < 9 => BoxCell(box, k));
    forall i | 0 <= i < 81 && BlankGrid()[i].zone == BoxZone(box) ensures i in cells {
      BoxCellOf(box, i);
      assert cells[3 * (i / 9 % 3) + i % 9 % 3] == i;
    }
    forall k | 0 <= k < 9
      ensures 0 <= cells[k] < 81 && BlankGrid()[cells[k]].zone == BoxZone(box)
    {
      BoxCellAt(box, k);
    }
    forall k, l | 0 <= k < l < 9 ensures cells[k] != cells[l] {
      BoxCellsDistinct(box, k, l);
    }
    cells
  }

  /** The values a board holds at the given indices. */
  function ValuesAt(ts: seq<Tile>, cells: seq<int>): (vs: seq<int>)
    requires forall k :: 0 <= k < |cells| ==> 0 <= cells[k] < |ts|
    ensures |vs| == |cells|
  {
    seq(|cells|, k requires 0 <= k < |cells| => ts[cells[k]].value)
  }

  /** Each of 1..9 occurs exactly once among the values at the indices. */
  predicate EveryDigitOnce(ts: seq<Tile>, cells: seq<int>)
    requires forall k :: 0 <= k < |cells| ==> 0 <= cells[k] < |ts|
  {
    var vs := ValuesAt(ts, cells);
    (forall v :: 1 <= v <= 9 ==> v in vs) &&
    (forall k, l :: 0 <= k < l < |vs| ==> vs[k] != vs[l])
  }

  lemma {:induction false} DistinctCount(vs: seq<int>)
    requires forall k, l :: 0 <= k < l < |vs| ==> vs[k] != vs[l]
    ensures |set x | x in vs| == |vs|
  {
    if vs != [] {
      var init := vs[..|vs| - 1];
      DistinctCount(init);
      assert (set x | x in vs) == (set x | x in init) + {vs[|vs| - 1]};
    }
  }

  /** Pigeonhole: nine distinct values drawn from 1..9 are all of 1..9. */
  lemma DistinctDigitsCoverAll(vs: seq<int>)
    requires |vs| == 9
    requires forall k :: 0 <= k < 9 ==> 1 <= vs[k] <= 9
    requires forall k, l :: 0 <= k < l < 9 ==> vs[k] != vs[l]
    ensures forall v :: 1 <= v <= 9 ==> v in vs
  {
    var seen := set x | x in vs;
    var digits := {1, 2, 3, 4, 5, 6, 7, 8, 9};
    DistinctCount(vs);
    assert seen <= digits;
    assert |digits - seen| == 0;
    forall v | 1 <= v <= 9 ensures v in vs {
      assert v in digits;
    }
  }

  /** Nine distinct tiles of a full, legal board holding only 1..9 that
      pairwise share a column, a row or a zone hold each of 1..9 once. */
  lemma UnitHoldsEveryDigitOnce(ts: seq<Tile>, cells: seq<int>)
    requires Full(ts) && Legal(ts) && forall i :: 0 <= i < |ts| ==> 1 <= ts[i].value <= 9
    requires |cells| == 9 && forall k :: 0 <= k < 9 ==> 0 <= cells[k] < |ts|
    requires forall k, l :: 0 <= k < l < 9 ==> cells[k] != cells[l] && SameUnit(ts[cells[k]], ts[cells[l]])
    ensures EveryDigitOnce(ts, cells)
  {
    var vs := ValuesAt(ts, cells);
    forall k, l | 0 <= k < l < 9 ensures vs[k] != vs[l] {
      assert SameUnit(ts[cells[k]], ts[cells[l]]);
    }
    DistinctDigitsCoverAll(vs);
  }

  /** The text a board reads as: '.' for a blank tile, the digit otherwise. */
  function Render(ts: seq<Tile>): (s: string)
    requires forall i :: 0 <= i < |ts| ==> 0 <= ts[i].value <= 9
  {
    seq(|ts|, i requires 0 <= i < |ts| => if Filled(ts[i]) then ('0' as int + ts[i].value) as char else '.')
  }

  /** A puzzle text over '.' and '1'..'9' of the board's length, filled into
      a blank board, reads back as that same text. */
  lemma RenderPopulate(ts: seq<Tile>, s: string)
    requires |s| == |ts| && forall i :: 0 <= i < |ts| ==> !Filled(ts[i])
    requires forall i :: 0 <= i < |s| ==> s[i] == '.' || '1' <= s[i] <= '9'
    ensures FillableText(ts, s)
    ensures forall i :: 0 <= i < |ts| ==> 0 <= Populate(ts, s)[i].value <= 9
    ensures Render(Populate(ts, s)) == s
  {
    var r := Populate(ts, s);
    forall i | 0 <= i < |s| ensures Render(r)[i] == s[i] {
    }
  }

  /** Conversely, a board laid out as the blank grid with values 0..9 is
      rebuilt by filling its own text into the blank grid. */
  lemma PopulateRender(ts: seq<Tile>)
    requires |ts| == 81
    requires forall i :: 0 <= i < 81 ==> ts[i] == BlankGrid()[i].(value := ts[i].value) && 0 <= ts[i].value <= 9
    ensures FillableText(BlankGrid(), Render(ts))
    ensures Populate(BlankGrid(), Render(ts)) == ts
  {
    var s := Render(ts);
    var r := Populate(BlankGrid(), s);
    forall i | 0 <= i < 81 ensures r[i] == ts[i] {
    }
  }

  class Board {
    /** The tiles, row-major. */
    var board: seq<Tile>

    ghost predicate Valid()
      reads this
    {
      AllWellFormed(board)
    }

    /** Board.__init__: the new board holds a duplicate of every given tile. */
    constructor (boardIn: seq<Tile>)
      requires forall i :: 0 <= i < |boardIn| ==> InRange(boardIn[i])
      ensures Valid() && |board| == |boardIn|
      ensures forall i :: 0 <= i < |board| ==>
        board[i].col == boardIn[i].col && board[i].row == boardIn[i].row && board[i].value == boardIn[i].value
      ensures AllWellFormed(boardIn) ==> board == boardIn
    {
      board := seq(|boardIn|, i requires 0 <= i < |boardIn| => Duplicate(boardIn[i]));
    }

    /** Board.initialize: appends the 81 blank tiles, row after row and
        within a row column after column. */
    method Initialize()
      modifies this
      ensures board == old(board) + BlankGrid()
      ensures old(Valid()) ==> Valid()
    {
      ghost var grid := BlankGrid();
      for row := 0 to 9
        invariant board == old(board) + grid[..9 * row]
      {
        for col := 0 to 9
          invariant board == old(board) + grid[..9 * row + col]
        {
          BlankGridStep(col, row);
          board := board + [NewTile(col, row, Blank)];
        }
      }
      assert grid[..81] == grid;
    }

    /** Board.fill_board: walks board and text together, leaving a tile
        alone on '.' and otherwise setting its value to the digit. */
    method FillBoard(input: string)
      requires FillableText(board, input)
      modifies this
      ensures board == Populate(old(board), input)
    {
      ghost var start := board;
      var n := if |board| < |input| then |board| else |input|;
      for i := 0 to n
        invariant |board| == |start|
        invariant forall j :: 0 <= j < i ==> board[j] == Populate(start, input)[j]
        invariant forall j :: i <= j < |board| ==> board[j] == start[j]
      {
        if input[i] == '.' {
          continue;
        }
        board := board[i := board[i].(value := DigitValue(input[i]))];
      }
    }

    /** Board.place_tile: a new board, a copy of this one with the value
        put at the index. This board is not modified. */
    method PlaceTile(index: int, value: int) returns (newBoard: Board)
      requires Valid() && 0 <= index < |board|
      ensures fresh(newBoard) && newBoard.Valid()
      ensures newBoard.board == Place(board, index, value)
    {
      newBoard := new Board(board);
      newBoard.board := newBoard.board[index := newBoard.board[index].(value := value)];
    }

    /** Board.is_full: stops at the first blank tile. */
    method IsFull() returns (full: bool)
      ensures full == Full(board)
    {
      for i := 0 to |board|
        invariant forall j :: 0 <= j < i ==> Filled(board[j])
      {
        if !Filled(board[i]) {
          return false;
        }
      }
      return true;
    }

    /** Board.first_empty: counts up from 0 past the filled tiles. */
    method FirstEmpty() returns (lowestEmpty: int)
      requires !Full(board)
      ensures lowestEmpty == LowestEmpty(board)
    {
      lowestEmpty := 0;
      while Filled(board[lowestEmpty])
        invariant 0 <= lowestEmpty <= LowestEmpty(board)
        decreases LowestEmpty(board) - lowestEmpty
      {
        lowestEmpty := lowestEmpty + 1;
      }
    }
  }
}
