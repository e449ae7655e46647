# Sudoku solver: a Dafny model

This project models a naive backtracking Sudoku solver written in Python
(`solver.py`). The solver has three classes:

- **Tile** is one square of the board. It knows its column, its row and its value. From its
  position it derives a zone number: 1, 2 or 3 for the column third plus 10, 20 or 30 for
  the row third.
- **Board** holds 81 tiles in row-major order, so the tile at index `9 * row + col` sits at
  that column and row. It can append the 81 blank tiles, fill givens from an 81-character
  text, answer whether a value may go into a tile, and place a value on a copy of itself.
  It can also say whether it is full and find its lowest blank tile.
- **Solve** runs the recursive search. A full board is returned as it is. Otherwise the
  solver takes the lowest blank tile and tries 1..9 there in order. Each legal value is
  placed on a copy of the board, and the copy is solved. The first full board returned
  wins. When every candidate fails, the result is `None`.

The three Dafny modules follow those classes:

- `Tiles` in `tiles.dfy`.
- `Boards` in `boards.dfy`. It holds the `Board` class and the legality queries.
- `Solving` in `solving.dfy`. It holds the `Solver` class and `Search`, the search as a
  pure function.

The model makes these choices:

- A tile is a datatype value. A tile's value field, which Python changes in place, is
  modelled by replacing the element of the board's `board: seq<Tile>` field. Every board
  owns its tiles exclusively, because the Python constructor duplicates them, so no tile is
  ever shared.
- A tile's value is an `int`, and `Blank` (0) stands for Python's `None`. The code only
  tests a value for truthiness, and `int('0')` is falsy too.
- The column, row, zone and legality queries are comprehensions over the board's tile
  list. They are modelled as functions of that list (`CheckCol(board, …)`), so the pure
  search specification can use them.
- `Solver.Solve` is a recursive method over `Board` objects with the candidate loop. It is
  proved to return exactly what `Search` gives for the board's tiles. The properties of the
  search are lemmas about `Search`.

## Notes on the code's behaviour

- **Zone numbers.** Zones are numbered 11..33. `Tiles.ZoneIdentifiesBox` proves that they
  pick out the same 3x3 boxes as `col / 3 + 3 * (row / 3)`.
- **Input length.** Filling the board walks board and text together and stops at the
  shorter one, so the text need not have 81 characters.
- **Digit `0`.** A `'0'` character sets the value to 0, which reads as blank.
- **The tile itself.** The legality query also looks at the tile being filled. This makes
  no difference for a blank tile.
- **Givens are not validated.** The search does not reject a puzzle whose givens already
  repeat a digit in a row. A full board with such duplicates is returned as a solution
  (`Solving.GivensAreNotChecked`). The solver's guarantees of legality therefore assume a
  legal starting board.

## Model

| member | source | states |
|---|---|---|
| `Tiles.FindZone` | solver.py:68-82 | the zone is one of 11,12,13,21,22,23,31,32,33; its last digit is `col / 3 + 1` and its first digit is `row / 3 + 1` |
| `Tiles.ZoneIdentifiesBox` | solver.py:68-82 | two positions have the same zone exactly when `col / 3` and `row / 3` agree, and exactly when their 0..8 box numbers agree |
| `Tiles.NewTile` | solver.py:56-60 | a new tile has the given column, row and value, and its zone is computed from its position |
| `Tiles.Duplicate` | solver.py:84-85 | the copy has the same position and value; a copy of a well-formed tile equals it |
| `Boards.Occupants` | solver.py:128 | the values listed for a unit are exactly the values of the filled tiles in that unit |
| `Boards.CheckCol` | solver.py:126-131 | true iff no filled tile in the column holds the value |
| `Boards.CheckRow` | solver.py:133-138 | true iff no filled tile in the row holds the value |
| `Boards.CheckZone` | solver.py:140-145 | true iff no filled tile in the zone holds the value |
| `Boards.CheckValid` | solver.py:110-118 | true iff no filled tile that shares the indexed tile's column, row or zone holds the value; it is a function and changes nothing |
| `Boards.PlaceKeepsLegal` | solver.py:110-124 | placing a value that the legality query allows (no filled tile sharing the tile's column, row or zone holds it) keeps the no-duplicate invariant of rows, columns and zones |
| `Boards.PlaceFillsOne` | solver.py:120-124 | filling a blank tile removes exactly that index from the set of blank tiles, so that set shrinks by one |
| `Boards.LowestEmpty` | solver.py:154-159 | on a board that is not full, the index is in range, its tile is blank, and every lower tile is filled |
| `Boards.BlankGrid` | solver.py:97-101 | the grid has 81 blank, well-formed tiles |
| `Boards.BlankGridAt` | solver.py:172 | the blank-grid tile at index `9 * row + col` has that column and that row |
| `Boards.RowCells` | solver.py:133-138 | nine distinct indices whose tiles all lie in the given row, and every grid index in that row is among them |
| `Boards.ColumnCells` | solver.py:126-131 | nine distinct indices whose tiles all lie in the given column, and every grid index in that column is among them |
| `Boards.BoxCells` | solver.py:140-145 | nine distinct indices whose tiles all lie in the box's zone, and every grid index in that zone is among them |
| `Boards.UnitHoldsEveryDigitOnce` | solver.py:126-145 | on a full legal board holding only 1..9, nine tiles that pairwise share a column, row or zone hold each digit exactly once |
| `Boards.RenderPopulate` | solver.py:103-108 | a text over `.` and `1`..`9` filled into a blank board of equal length reads back as that text |
| `Boards.PopulateRender` | solver.py:103-108 | a board laid out as the blank grid with values 0..9 is rebuilt by filling its own text into the blank grid |
| `Boards.Board.constructor` | solver.py:94-95 | the new board holds a copy of every given tile (same position and value); it equals the given list when those tiles are well formed |
| `Boards.Board.Initialize` | solver.py:97-101 | the board afterwards is its old tiles followed by the 81 blank tiles in row-major order |
| `Boards.Board.FillBoard` | solver.py:103-108 | the board afterwards is `Populate` of the old board: `.` leaves a tile alone, a digit sets its value, and positions past the shorter of board and text are untouched |
| `Boards.Board.PlaceTile` | solver.py:120-124 | returns a fresh board equal to this one except that the indexed tile holds the value; this board is not in the modifies frame, so it is unchanged |
| `Boards.Board.IsFull` | solver.py:147-152 | true iff every tile is filled |
| `Boards.Board.FirstEmpty` | solver.py:154-159 | on a board that is not full, returns the lowest index of a blank tile |
| `Solving.Search` | solver.py:188-200 | any returned board is full and has the input's length |
| `Solving.Try` | solver.py:192-200 | the candidate loop from a given value: any returned board is full and has the input's length |
| `Solving.SearchSound` | solver.py:188-200 | a returned board keeps every tile's position and every given value, fills blanks only with 1..9, and is legal when the input was legal |
| `Solving.TrySound` | solver.py:192-200 | the same soundness for the candidate loop from any starting value |
| `Solving.SearchFindsFirst` | solver.py:188-200 | when the board has a solution, the search returns a board, and that board comes no later in row-major lexicographic order than any solution |
| `Solving.TryFindsFirst` | solver.py:192-200 | the candidate loop at the lowest blank tile finds the first solution whose value there is not below the starting candidate |
| `Solving.SolutionValueIsValid` | solver.py:193 | the value any solution puts in a blank tile passes the legality query and extends the board by one placement |
| `Solving.SearchSolves` | solver.py:188-200 | on a legal board, a returned board is a solution: full, legal, and keeping the givens |
| `Solving.SolvedGridHasEveryDigitOnce` | solver.py:126-145 | a solution of the blank grid holds each of 1..9 exactly once in every row, column and box |
| `Solving.SearchSolvesPuzzle` | solver.py:188-200 | for a legal puzzle on the 81-tile grid, a returned board keeps the givens and holds each digit once per row, column and box |
| `Solving.PopulatedPuzzle` | solver.py:103-108 | an 81-character text over `.` and `1`..`9` filled into the blank grid keeps the grid layout, with a filled tile exactly where the text has a digit |
| `Solving.SearchFailsIffUnsolvable` | solver.py:192-200 | on a legal board the search returns nothing exactly when the board has no solution |
| `Solving.NoCandidateFails` | solver.py:192-200 | when no value 1..9 is legal at the lowest blank tile, the search returns nothing |
| `Solving.FullIsReturned` | solver.py:189-190 | a full board is returned unchanged |
| `Solving.GivensAreNotChecked` | solver.py:189-190 | a full board whose first row repeats a digit breaks the legality invariant, yet it is returned as the result |
| `Solving.Solver.constructor` | solver.py:184-186 | keeps the board and sets the solution to the search result: null exactly when the search fails, and otherwise a board holding the result's tiles |
| `Solving.Solver.Solve` | solver.py:188-200 | returns null exactly when `Search` fails, and otherwise a board whose tiles are `Search`'s result; a full input board is returned as the same object |

Termination of the search is proved by the `decreases` clauses of `Search`, `Try` and
`Solver.Solve`. Each recursive call is on a board whose set of blank tiles is a proper
subset, one element smaller (`Boards.PlaceFillsOne`). The search is deterministic because
`Search` is a function.

## Left out

- Console output is not modelled: `print_board`, `Tile.__repr__`, `pprint_zone`, and the
  print inside `tile_by_x_y`. For tiles that are blank or hold 1..9, `Boards.Render` gives
  the text `get_value` would show, to state the round trip with filling. A tile filled
  from `'0'` shows `0` in Python but renders as `.`.
- The `print_board` call on every attempted board inside `solve` is dropped. It has no
  effect on the result.
- The demo script at the end of `solver.py` and the commented sample puzzle are not
  modelled. Solving a concrete 81-cell puzzle inside the verifier is too expensive.
- `Boards.Board.FillBoard` requires every character it reads to be `.` or an ASCII digit.
  Non-ASCII decimal digits, which Python's `int` also accepts, are excluded as well. Any
  other character makes `int` raise. Neither path is modelled.
- `Tiles.FindZone`, `Tiles.NewTile` and `Tiles.Duplicate` require column and row in 0..8.
  Outside that range `find_zone` raises `UnboundLocalError` (solver.py:70-82). The solver
  itself only builds tiles in range, so that error path is not modelled.
- `Boards.Board.FirstEmpty` requires a board that is not full. On a full board
  `first_empty` raises `IndexError` (solver.py:157). `solve` only calls it after `is_full`
  has answered false, so that error path is not modelled.
- `Boards.CheckValid` and `Boards.Board.PlaceTile` require an index in range. Python
  indexes the tile list directly (solver.py:112, solver.py:123), so a negative index wraps
  to the end: `check_valid(-1, v)` checks the last tile's column, row and zone, and
  `place_tile(-1, v)` fills the last tile of the copy. An index at or past the length raises
  `IndexError`. `solve` only passes the in-range result of `first_empty`, so neither path is
  modelled.
- Tile object identity is not modelled. Tiles are values, which matches the code because
  every board owns its tiles exclusively.
- The Python default argument `board_in = []` is modelled by passing `[]` explicitly.
