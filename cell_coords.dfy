/** `coordFromCell`: the Source engine's cell encoding of world coordinates. */
module CellCoords {

  /** `CELL_BITS`. */
  const CellBits: nat := 5
  /** `1 << CELL_BITS`, the width of a cell in world units. */
  const CellWidth: int := Pow2(CellBits)
  /** `MAX_COORD_INTEGER`. */
  const MaxCoordInteger: int := 16384
  /** The number of cells along an axis: the cells cover -MaxCoordInteger up to MaxCoordInteger. */
  const CellCount: int := 2 * MaxCoordInteger / CellWidth

  /** `1 << n`. */
  function Pow2(n: nat): nat
  {
    if n == 0 then 1 else 2 * Pow2(n - 1)
  }

  /** A world-space coordinate from a cell number and the offset inside that cell. */
  function CoordFromCell(cell: int, f: real): real
  {
    (cell * CellWidth - MaxCoordInteger) as real + f
  }

  /** The cell a world coordinate lies in and its offset inside that cell: the inverse of
      `CoordFromCell` on offsets in [0, CellWidth). */
  function CellOf(coord: real): (r: (int, real))
    ensures 0.0 <= r.1 < CellWidth as real
    ensures CoordFromCell(r.0, r.1) == coord
  {
    var cell := ((coord + MaxCoordInteger as real) / CellWidth as real).Floor;
    (cell, coord + MaxCoordInteger as real - (cell * CellWidth) as real)
  }

  /** Distinct (cell, offset) pairs with offsets inside a cell give distinct coordinates. */
  lemma CellOfCoordFromCell(cell: int, f: real)
    requires 0.0 <= f < CellWidth as real
    ensures CellOf(CoordFromCell(cell, f)) == (cell, f)
  {
    var q := (CoordFromCell(cell, f) + MaxCoordInteger as real) / CellWidth as real;
    assert q == cell as real + f / CellWidth as real;
    assert cell as real <= q < cell as real + 1.0;
  }

  /** One cell further along is CellWidth units further along. */
  lemma CoordFromCellStep(cell: int, f: real)
    ensures CoordFromCell(cell + 1, f) == CoordFromCell(cell, f) + CellWidth as real
  {
  }

  /** The world origin is the start of the middle cell. */
  lemma CoordFromCellOrigin()
    ensures CoordFromCell(CellCount / 2, 0.0) == 0.0
    ensures CellCount / 2 == 512
  {
  }

  /** Cells 0 .. CellCount - 1 with offsets inside the cell cover exactly the coordinates in
      [-MaxCoordInteger, MaxCoordInteger). */
  lemma CoordFromCellRange(cell: int, f: real)
    requires 0.0 <= f < CellWidth as real
    ensures 0 <= cell < CellCount <==>
              -MaxCoordInteger as real <= CoordFromCell(cell, f) < MaxCoordInteger as real
  {
  }
}
