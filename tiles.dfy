/** One square of the 9x9 board: its column, its row, its value and the
    number of the 3x3 "zone" it lies in. */
module Tiles {

  /** The value of a tile that holds nothing. The solver only ever tests a
      value for truthiness, so the absent value and 0 behave alike; 0 stands
      for both. */
  const Blank := 0

  /** The nine zone numbers: a column part 1, 2 or 3 plus a row part 10, 20 or 30. */
  const ZoneIds: set<int> := {11, 12, 13, 21, 22, 23, 31, 32, 33}

  datatype Tile = Tile(col: int, row: int, value: int, zone: int)

  /** Coordinates for which a zone can be computed. */
  predicate InRange(t: Tile) {
    0 <= t.col < 9 && 0 <= t.row < 9
  }

  /** A tile whose stored zone is the one computed from its coordinates,
      as every tile built by the constructor is. */
  predicate WellFormed(t: Tile) {
    InRange(t) && t.zone == FindZone(t.col, t.row)
  }

  predicate Filled(t: Tile) {
    t.value != Blank
  }

  /** The zone number of a position: 1, 2 or 3 for the column third plus
      10, 20 or 30 for the row third. Columns or rows outside 0..8 leave
      `x_zone` or `y_zone` of `find_zone` unbound, so they are excluded. */
  function FindZone(col: int, row: int): (zone: int)
    requires 0 <= col < 9 && 0 <= row < 9
    ensures zone in ZoneIds
    ensures zone % 10 == col / 3 + 1 && zone / 10 == row / 3 + 1
  {
    var xZone := if col in {0, 1, 2} then 1 else if col in {3, 4, 5} then 2 else 3;
    var yZone := if row in {0, 1, 2} then 10 else if row in {3, 4, 5} then 20 else 30;
    xZone + yZone
  }

  /** The box number 0..8 of a position, counted row-major over the nine boxes. */
  function BoxId(col: int, row: int): int {
    col / 3 + 3 * (row / 3)
  }

  /** The zone encoding is the pair (col / 3, row / 3) written in two
      decimal digits: two positions share a zone exactly when they share
      that pair, and exactly when they share a box number. */
  lemma ZoneIdentifiesBox(c1: int, r1: int, c2: int, r2: int)
    requires 0 <= c1 < 9 && 0 <= r1 < 9 && 0 <= c2 < 9 && 0 <= r2 < 9
    ensures FindZone(c1, r1) == FindZone(c2, r2) <==> c1 / 3 == c2 / 3 && r1 / 3 == r2 / 3
    ensures FindZone(c1, r1) == FindZone(c2, r2) <==> BoxId(c1, r1) == BoxId(c2, r2)
  {
    var z1, z2 := FindZone(c1, r1), FindZone(c2, r2);
    if z1 == z2 {
      assert z1 % 10 == z2 % 10 && z1 / 10 == z2 / 10;
    }
  }

  /** Tile.__init__: a tile at a position with a value; its zone is
      computed once, here. */
  function NewTile(col: int, row: int, value: int): (t: Tile)
    requires 0 <= col < 9 && 0 <= row < 9
    ensures WellFormed(t)
    ensures t.col == col && t.row == row && t.value == value
  {
    Tile(col, row, value, FindZone(col, row))
  }

  /** Tile.duplicate: a new tile with the same position and value. Since the
      zone is recomputed, the copy of a well-formed tile is that tile. */
  function Duplicate(t: Tile): (d: Tile)
    requires InRange(t)
    ensures WellFormed(d) && d.col == t.col && d.row == t.row && d.value == t.value
    ensures WellFormed(t) ==> d == t
  {
    NewTile(t.col, t.row, t.value)
  }
}
