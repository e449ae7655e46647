/** The backtracking search: fill the lowest blank tile with the first of
    1..9 that is legal there and whose continuation succeeds. */
module Solving {
  import opened Tiles
  import opened Boards

  datatype Option<T> = None | Some(value: T)

  /** What Solve.solve returns for a board, as a function of its tiles:
      the board itself when it is full, and otherwise the outcome of trying
      the candidates 1..9 at its lowest blank tile. */
  function Search(ts: seq<Tile>): (r: Option<seq<Tile>>)
    ensures r.Some? ==> Full(r.value) && |r.value| == |ts|
    decreases EmptyCells(ts), 10
  {
    if Full(ts) then Some(ts)
    else Try(ts, LowestEmpty(ts), 1)
  }

  /** The loop of Solve.solve from candidate value onwards: a legal
      candidate is placed and the search goes on with the new board; its
      result is kept when it is a full board, otherwise the next candidate
      is tried. After 9 the loop falls off the end with nothing. */
  function Try(ts: seq<Tile>, index: int, value: int): (r: Option<seq<Tile>>)
    requires 0 <= index < |ts| && !Filled(ts[index]) && 1 <= value <= 10
    ensures r.Some? ==> Full(r.value) && |r.value| == |ts|
    decreases EmptyCells(ts), 10 - value
  {
    if value == 10 then None
    else if Allowed(ts, index, value) then
      PlaceFillsOne(ts, index, value);
      var returned := Search(Place(ts, index, value));
      if returned.Some? && Full(returned.value) then returned
      else Try(ts, index, value + 1)
    else Try(ts, index, value + 1)
  }

  /** The result keeps the layout and every filled value of the board, and
      fills its blanks only with 1..9 (or leaves them blank). */
  predicate Extends(ts: seq<Tile>, r: seq<Tile>) {
    |r| == |ts| &&
    forall i :: 0 <= i < |ts| ==>
      r[i].col == ts[i].col && r[i].row == ts[i].row && r[i].zone == ts[i].zone &&
      if Filled(ts[i]) then r[i].value == ts[i].value else !Filled(r[i]) || 1 <= r[i].value <= 9
  }

  /** A solution of the board: full, extending it, and legal. */
  predicate SolutionOf(ts: seq<Tile>, s: seq<Tile>) {
    Full(s) && Extends(ts, s) && Legal(s)
  }

  /** r comes no later than s in the order the search visits boards:
      row-major lexicographic order on the values. */
  predicate NoLaterThan(r: seq<Tile>, s: seq<Tile>) {
    |r| == |s| &&
    exists k :: 0 <= k <= |r| && AgreeBelow(r, s, k) && (k < |r| ==> r[k].value < s[k].value)
  }

  /** The two boards hold the same values at every index below k. */
  predicate AgreeBelow(r: seq<Tile>, s: seq<Tile>, k: int)
    requires 0 <= k <= |r| && 0 <= k <= |s|
  {
    forall j :: 0 <= j < k ==> r[j].value == s[j].value
  }

  /** Soundness: a board the search returns is full, keeps the givens and
      the layout, and is legal whenever the board it started from was. */
  lemma {:induction false} SearchSound(ts: seq<Tile>)
    requires Search(ts).Some?
    ensures Extends(ts, Search(ts).value)
    ensures Legal(ts) ==> Legal(Search(ts).value)
    decreases EmptyCells(ts), 10
  {
    if !Full(ts) {
      TrySound(ts, LowestEmpty(ts), 1);
    }
  }

  lemma {:induction false} TrySound(ts: seq<Tile>, index: int, value: int)
    requires 0 <= index < |ts| && !Filled(ts[index]) && 1 <= value <= 10
    requires Try(ts, index, value).Some?
    ensures Extends(ts, Try(ts, index, value).value)
    ensures Legal(ts) ==> Legal(Try(ts, index, value).value)
    decreases EmptyCells(ts), 10 - value
  {
    TryStep(ts, index, value);
    var next := Place(ts, index, value);
    if Allowed(ts, index, value) && Search(next).Some? {
      PlaceExtends(ts, index, value);
      SearchSound(next);
      ExtendsTrans(ts, next, Search(next).value);
      if Legal(ts) {
        PlaceKeepsLegal(ts, index, value);
      }
    } else {
      TrySound(ts, index, value + 1);
    }
  }

  /** Filling a blank tile with one of 1..9 extends the board. */
  lemma PlaceExtends(ts: seq<Tile>, index: int, value: int)
    requires 0 <= index < |ts| && !Filled(ts[index]) && 1 <= value <= 9
    ensures Extends(ts, Place(ts, index, value))
  {
  }

  lemma ExtendsTrans(a: seq<Tile>, b: seq<Tile>, c: seq<Tile>)
    requires Extends(a, b) && Extends(b, c)
    ensures Extends(a, c)
  {
    forall i | 0 <= i < |a|
      ensures c[i].col == a[i].col && c[i].row == a[i].row && c[i].zone == a[i].zone
      ensures if Filled(a[i]) then c[i].value == a[i].value else !Filled(c[i]) || 1 <= c[i].value <= 9
    {
    }
  }

  /** A solution s of a board is legal at the board's lowest blank tile:
      the value s puts there is accepted by the legality query. */
  lemma SolutionValueIsValid(ts: seq<Tile>, s: seq<Tile>, index: int)
    requires SolutionOf(ts, s) && 0 <= index < |ts| && !Filled(ts[index])
    ensures 1 <= s[index].value <= 9
    ensures Allowed(ts, index, s[index].value)
    ensures SolutionOf(Place(ts, index, s[index].value), s)
  {
    var v := s[index].value;
    forall j | 0 <= j < |ts| && Filled(ts[j]) && SameUnit(ts[j], ts[index])
      ensures ts[j].value != v
    {
      assert j != index;
      assert SameUnit(s[j], s[index]);
    }
  }

  /** Completeness and order: when the board has a solution, the search
      finds one, and what it finds comes no later in row-major
      lexicographic order than any solution. */
  lemma {:induction false} SearchFindsFirst(ts: seq<Tile>, s: seq<Tile>)
    requires SolutionOf(ts, s)
    ensures Search(ts).Some?
    ensures NoLaterThan(Search(ts).value, s)
    decreases EmptyCells(ts), 10
  {
    if Full(ts) {
      assert ts == s by {
        forall i | 0 <= i < |ts| ensures ts[i] == s[i] { }
      }
      LaterAt(ts, s, |ts|);
    } else {
      var index := LowestEmpty(ts);
      SolutionValueIsValid(ts, s, index);
      TryFindsFirst(ts, index, 1, s);
    }
  }

  lemma {:induction false} TryFindsFirst(ts: seq<Tile>, index: int, value: int, s: seq<Tile>)
    requires !Full(ts) && index == LowestEmpty(ts)
    requires SolutionOf(ts, s) && 1 <= value <= s[index].value
    ensures Try(ts, index, value).Some?
    ensures NoLaterThan(Try(ts, index, value).value, s)
    decreases EmptyCells(ts), 10 - value
  {
    SolutionValueIsValid(ts, s, index);
    TryStep(ts, index, value);
    if value == s[index].value {
      PlaceFillsOne(ts, index, value);
      SearchFindsFirst(Place(ts, index, value), s);
    } else if Allowed(ts, index, value) && Search(Place(ts, index, value)).Some? {
      var r := Search(Place(ts, index, value)).value;
      PlaceFillsOne(ts, index, value);
      SearchSound(Place(ts, index, value));
      SmallerCandidateFirst(ts, index, value, r, s);
    } else {
      TryFindsFirst(ts, index, value + 1, s);
    }
  }

  /** Two boards that agree below k and differ in order at k (or k is
      their length) are ordered. */
  lemma LaterAt(r: seq<Tile>, s: seq<Tile>, k: int)
    requires |r| == |s| && 0 <= k <= |r|
    requires forall j :: 0 <= j < k ==> r[j].value == s[j].value
    requires k < |r| ==> r[k].value < s[k].value
    ensures NoLaterThan(r, s)
  {
    assert AgreeBelow(r, s, k);
  }

  /** A result found through a smaller candidate at the lowest blank tile
      comes before a solution that holds a larger value there. */
  lemma SmallerCandidateFirst(ts: seq<Tile>, index: int, value: int, r: seq<Tile>, s: seq<Tile>)
    requires !Full(ts) && index == LowestEmpty(ts)
    requires SolutionOf(ts, s) && 1 <= value < s[index].value
    requires Extends(Place(ts, index, value), r)
    ensures NoLaterThan(r, s)
  {
    var next := Place(ts, index, value);
    forall j | 0 <= j < index ensures r[j].value == s[j].value {
      assert next[j] == ts[j];
    }
    assert r[index].value == value;
    LaterAt(r, s, index);
  }

  /** A board the search returns for a legal board is one of its solutions. */
  lemma SearchSolves(ts: seq<Tile>)
    requires Legal(ts) && Search(ts).Some?
    ensures SolutionOf(ts, Search(ts).value)
  {
    SearchSound(ts);
  }

  /** A solution of the blank grid (a solved 9x9 Sudoku) holds each of
      1..9 exactly once in every row, every column and every box. */
  lemma SolvedGridHasEveryDigitOnce(ts: seq<Tile>, n: int)
    requires SolutionOf(BlankGrid(), ts) && 0 <= n < 9
    ensures EveryDigitOnce(ts, RowCells(n))
    ensures EveryDigitOnce(ts, ColumnCells(n))
    ensures EveryDigitOnce(ts, BoxCells(n))
  {
    SolvedUnitHoldsEveryDigitOnce(ts, RowCells(n));
    SolvedUnitHoldsEveryDigitOnce(ts, ColumnCells(n));
    SolvedUnitHoldsEveryDigitOnce(ts, BoxCells(n));
  }

  /** Nine distinct grid cells that pairwise share a column, row or zone
      hold each digit once in a solution of the blank grid. */
  lemma SolvedUnitHoldsEveryDigitOnce(ts: seq<Tile>, cells: seq<int>)
    requires SolutionOf(BlankGrid(), ts)
    requires |cells| == 9 && forall k :: 0 <= k < 9 ==> 0 <= cells[k] < 81
    requires forall k, l :: 0 <= k < l < 9 ==>
      cells[k] != cells[l] && SameUnit(BlankGrid()[cells[k]], BlankGrid()[cells[l]])
    ensures EveryDigitOnce(ts, cells)
  {
    var g := BlankGrid();
    assert forall i :: 0 <= i < |ts| ==> 1 <= ts[i].value <= 9;
    forall k, l | 0 <= k < l < 9 ensures SameUnit(ts[cells[k]], ts[cells[l]]) {
      assert SameUnit(g[cells[k]], g[cells[l]]);
    }
    UnitHoldsEveryDigitOnce(ts, cells);
  }

  /** End to end: a legal puzzle filled into the blank grid, when the search
      returns a board, gets back a solved Sudoku that keeps its givens. */
  lemma SearchSolvesPuzzle(puzzle: seq<Tile>, n: int)
    requires Extends(BlankGrid(), puzzle) && Legal(puzzle) && Search(puzzle).Some? && 0 <= n < 9
    ensures SolutionOf(puzzle, Search(puzzle).value)
    ensures EveryDigitOnce(Search(puzzle).value, RowCells(n))
    ensures EveryDigitOnce(Search(puzzle).value, ColumnCells(n))
    ensures EveryDigitOnce(Search(puzzle).value, BoxCells(n))
  {
    var r := Search(puzzle).value;
    SearchSolves(puzzle);
    ExtendsTrans(BlankGrid(), puzzle, r);
    SolvedGridHasEveryDigitOnce(r, n);
  }

  /** A puzzle text of 81 characters over '.' and '1'..'9' filled into the
      blank grid gives a board the search can start from: the grid's layout
      with the digits as givens and '.' left blank. */
  lemma PopulatedPuzzle(s: string)
    requires |s| == 81 && forall i :: 0 <= i < 81 ==> s[i] == '.' || '1' <= s[i] <= '9'
    ensures FillableText(BlankGrid(), s)
    ensures Extends(BlankGrid(), Populate(BlankGrid(), s))
    ensures AllWellFormed(Populate(BlankGrid(), s))
    ensures forall i :: 0 <= i < 81 ==> (Filled(Populate(BlankGrid(), s)[i]) <==> s[i] != '.')
  {
    var g := BlankGrid();
    var p := Populate(g, s);
    forall i | 0 <= i < 81 ensures WellFormed(p[i]) && (1 <= p[i].value <= 9 || !Filled(p[i])) {
      assert WellFormed(g[i]);
    }
  }

  /** The search reports failure exactly when the board has no solution;
      this covers both ways `Solve.solve` returns `None`: no candidate is
      legal at the lowest blank tile, or every legal one fails. */
  lemma SearchFailsIffUnsolvable(ts: seq<Tile>)
    requires Legal(ts)
    ensures Search(ts).None? <==> forall s :: !SolutionOf(ts, s)
  {
    if Search(ts).Some? {
      SearchSolves(ts);
    } else {
      forall s ensures !SolutionOf(ts, s) {
        if SolutionOf(ts, s) {
          SearchFindsFirst(ts, s);
        }
      }
    }
  }

  /** When no value 1..9 is legal at the lowest blank tile, the search
      reports failure. */
  lemma {:induction false} NoCandidateFails(ts: seq<Tile>)
    requires !Full(ts)
    requires forall v :: 1 <= v <= 9 ==> !CheckValid(ts, LowestEmpty(ts), v)
    ensures Search(ts).None?
  {
    var index := LowestEmpty(ts);
    forall v | 1 <= v <= 9 ensures !Allowed(ts, index, v) {
      assert !CheckValid(ts, index, v);
    }
    NoCandidateFrom(ts, index, 1);
  }

  lemma {:induction false} NoCandidateFrom(ts: seq<Tile>, index: int, value: int)
    requires 0 <= index < |ts| && !Filled(ts[index]) && 1 <= value <= 10
    requires forall v :: value <= v <= 9 ==> !Allowed(ts, index, v)
    ensures Try(ts, index, value).None?
    decreases 10 - value
  {
    if value < 10 {
      NoCandidateFrom(ts, index, value + 1);
      assert !Allowed(ts, index, value);
    }
  }

  /** A full board is returned as it is. */
  lemma FullIsReturned(ts: seq<Tile>)
    requires Full(ts)
    ensures Search(ts) == Some(ts)
  {
  }

  /** Givens are not checked: a full board whose first row repeats a digit
      is returned as a solution although it breaks the legality invariant. */
  lemma GivensAreNotChecked()
    ensures var ones := seq(81, i requires 0 <= i < 81 => BlankGrid()[i].(value := 1));
      !Legal(ones) && Search(ones) == Some(ones)
  {
    var ones := seq(81, i requires 0 <= i < 81 => BlankGrid()[i].(value := 1));
    BlankGridAt(0, 0);
    BlankGridAt(1, 0);
    assert SameUnit(ones[0], ones[1]);
  }

  /** One round of the candidate loop: a legal candidate whose continuation
      returns a board decides the outcome; otherwise the loop moves on. */
  lemma TryStep(ts: seq<Tile>, index: int, value: int)
    requires 0 <= index < |ts| && !Filled(ts[index]) && 1 <= value <= 9
    ensures Allowed(ts, index, value) ==> EmptyCells(Place(ts, index, value)) < EmptyCells(ts)
    ensures Try(ts, index, value) ==
      if Allowed(ts, index, value) && Search(Place(ts, index, value)).Some?
      then Search(Place(ts, index, value))
      else Try(ts, index, value + 1)
  {
    PlaceFillsOne(ts, index, value);
  }

  class Solver {
    var board: Board
    var solution: Board?

    /** Solve.__init__: keeps the board and solves it at once. */
    constructor (board: Board)
      requires board.Valid()
      ensures this.board == board
      ensures solution == null <==> Search(board.board).None?
      ensures solution != null ==> Search(board.board) == Some(solution.board)
    {
      this.board := board;
      new;
      solution := Solve(board);
    }

    /** Solve.solve: the board itself when it is full; otherwise each
        candidate 1..9 that is legal at the lowest blank tile is placed on a
        copy and the copy is solved, the first full result being returned.
        No board passed in is modified. */
    method Solve(thisBoard: Board) returns (r: Board?)
      requires thisBoard.Valid()
      ensures r == null <==> Search(thisBoard.board).None?
      ensures r != null ==> Search(thisBoard.board) == Some(r.board)
      ensures Full(thisBoard.board) ==> r == thisBoard
      decreases EmptyCells(thisBoard.board)
    {
      var full := thisBoard.IsFull();
      if full {
        return thisBoard;
      }
      var firstEmpty := thisBoard.FirstEmpty();
      ghost var ts := thisBoard.board;
      for i := 1 to 10
        invariant thisBoard.board == ts
        invariant Search(ts) == Try(ts, firstEmpty, i)
      {
        TryStep(ts, firstEmpty, i);
        if CheckValid(thisBoard.board, firstEmpty, i) {
          var nextBoard := thisBoard.PlaceTile(firstEmpty, i);
          var returnedBoard := Solve(nextBoard);
          if returnedBoard == null {
            continue;
          }
          var returnedFull := returnedBoard.IsFull();
          if returnedFull {
            return returnedBoard;
          }
        }
      }
      return null;
    }
  }
}
