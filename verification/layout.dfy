/** The layout constants and the cell record of a tactical map
    (src/interfaces/Map.ts). */
module Layout {

  /** Size of the rendered surface, in pixels. */
  const WIDTH: real := 1300.0
  const HEIGHT: real := 975.0

  /** Number of cells per map row. */
  const MAP_WIDTH: int := 14

  /** Geometry of one cell. The half and double sizes are derived exactly as
      the constants enum derives them, so the half height is 21.5. */
  const CELL_WIDTH: real := 86.0
  const CELL_HALF_WIDTH: real := CELL_WIDTH / 2.0
  const CELL_HEIGHT: real := 43.0
  const CELL_HALF_HEIGHT: real := CELL_HEIGHT / 2.0
  const CELL_DOUBLE_HEIGHT: real := CELL_HEIGHT * 2.0

  /** Vertical displacement of the tall overlay sprites from the cell origin. */
  const CELL_OFFSET: real := -16.5

  /** The fields of a map cell that the renderer reads. `cellNumber` is the
      cell's identity; the gameplay metadata the renderer ignores (speed,
      linkedZone, arrow, ...) is not carried. */
  datatype Cell = Cell(
    cellNumber: int,
    mov: bool,
    los: bool,
    nonWalkableDuringFight: bool,
    red: bool,
    blue: bool,
    pnj: bool
  )

  /** The derived constants have the values the compiled declarations list,
      the half height is not a whole pixel, and the widest tile (column 13 of
      an odd row) ends inside the surface. */
  lemma LayoutConstants()
    ensures CELL_HALF_WIDTH == 43.0 && CELL_HALF_WIDTH * 2.0 == CELL_WIDTH
    ensures CELL_HALF_HEIGHT == 21.5 && CELL_HALF_HEIGHT.Floor as real != CELL_HALF_HEIGHT
    ensures CELL_DOUBLE_HEIGHT == CELL_WIDTH
    ensures MAP_WIDTH > 0
    ensures (MAP_WIDTH - 1) as real * CELL_WIDTH + CELL_HALF_WIDTH + CELL_WIDTH == 1247.0 <= WIDTH
    ensures CELL_OFFSET + CELL_DOUBLE_HEIGHT == 69.5
  {
  }
}
