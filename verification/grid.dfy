/** The grid projector: cell number to pixel origin, and the inverse hit test
    from a surface-relative point back to a cell number
    (src/index.ts `render`, `handleMouseMove`, `handleClick`; dist/index.js
    `render`). */
module Grid {
  import opened Wrappers
  import opened Layout

  /** A point on the drawing surface, in (possibly fractional) pixels. */
  datatype Point = Point(x: real, y: real)

  /** JavaScript's `%` on integers: the remainder takes the sign of the
      dividend, unlike Dafny's Euclidean `%`. */
  function TruncRem(a: int, d: int): (r: int)
    requires d > 0
    ensures -d < r < d
    ensures a >= 0 ==> 0 <= r && r == a % d
    ensures a < 0 ==> r <= 0
  {
    if a >= 0 then a % d else -((-a) % d)
  }

  /** `Math.floor(id / MAP_WIDTH)`. With a positive divisor Dafny's integer
      division already rounds down. */
  function Row(id: int): int {
    id / MAP_WIDTH
  }

  /** `id % MAP_WIDTH`, with the source's truncating remainder. */
  function Col(id: int): int {
    TruncRem(id, MAP_WIDTH)
  }

  /** Horizontal shift of a row: odd rows move right by half a cell. */
  function Shift(row: int): real {
    TruncRem(row, 2) as real * CELL_HALF_WIDTH
  }

  /** Top-left origin of a cell's drawing rectangle (the brick layout). */
  function Origin(id: int): (p: Point)
    ensures id >= 0 ==> 0.0 <= p.x && p.x + CELL_WIDTH <= WIDTH && 0.0 <= p.y
    ensures id >= 0 && Row(id) % 2 == 0 ==> p.x == Col(id) as real * CELL_WIDTH
    ensures id >= 0 && Row(id) % 2 == 1 ==> p.x == Col(id) as real * CELL_WIDTH + CELL_HALF_WIDTH
    ensures p.y == Row(id) as real * CELL_HALF_HEIGHT
  {
    Point(Col(id) as real * CELL_WIDTH + Shift(Row(id)), Row(id) as real * CELL_HALF_HEIGHT)
  }

  /** Every non-negative cell number splits into a non-negative row and a
      column in [0, MAP_WIDTH) that recompose to it. */
  lemma RowColOfIndex(id: int)
    requires id >= 0
    ensures 0 <= Col(id) < MAP_WIDTH && 0 <= Row(id)
    ensures Row(id) * MAP_WIDTH + Col(id) == id
  {
  }

  /** Row and column recovered from a composed index. */
  lemma RowColOfComposed(row: int, col: int)
    requires 0 <= row && 0 <= col < MAP_WIDTH
    ensures Row(row * MAP_WIDTH + col) == row && Col(row * MAP_WIDTH + col) == col
  {
  }

  /** The hit box of a cell: its full width, and the top half-height band,
      since consecutive rows are only half a cell height apart. */
  predicate InCell(id: int, p: Point) {
    var o := Origin(id);
    o.x <= p.x < o.x + CELL_WIDTH && o.y <= p.y < o.y + CELL_HALF_HEIGHT
  }

  /** The hit test of the pointer handlers: `None` stands for `null`. No upper
      bound on the row is applied. */
  function HitTest(p: Point): (r: Option<int>)
    ensures r.Some? ==> r.value >= 0 && InCell(r.value, p)
  {
    var row := (p.y / CELL_HALF_HEIGHT).Floor;
    var col := ((p.x - Shift(row)) / CELL_WIDTH).Floor;
    if col >= 0 && col < MAP_WIDTH && row >= 0 then
      RowColOfComposed(row, col);
      Some(row * MAP_WIDTH + col)
    else
      None
  }

  /** Conversely, a point inside the hit box of a cell is reported as that cell. */
  lemma HitTestComplete(id: int, p: Point)
    requires id >= 0 && InCell(id, p)
    ensures HitTest(p) == Some(id)
  {
    RowColOfIndex(id);
    var row := (p.y / CELL_HALF_HEIGHT).Floor;
    assert row == Row(id);
    var col := ((p.x - Shift(row)) / CELL_WIDTH).Floor;
    assert col == Col(id);
  }

  /** Together: the hit test reports exactly the one cell whose hit box holds
      the point, and `None` when no cell's box holds it. */
  lemma HitTestCharacterised(p: Point, id: int)
    ensures HitTest(p) == Some(id) <==> id >= 0 && InCell(id, p)
  {
    if id >= 0 && InCell(id, p) {
      HitTestComplete(id, p);
    }
  }

  /** Round trip: every point in the top half of a projected cell's tile
      (the hit box) hits that cell. */
  lemma HitTestRoundTrip(id: int, dx: real, dy: real)
    requires id >= 0
    requires 0.0 <= dx < CELL_WIDTH && 0.0 <= dy < CELL_HALF_HEIGHT
    ensures HitTest(Point(Origin(id).x + dx, Origin(id).y + dy)) == Some(id)
  {
    HitTestComplete(id, Point(Origin(id).x + dx, Origin(id).y + dy));
  }

  /** The hit box is the top half-height band of the tile, not its diamond:
      the tile's centre, where the label is printed and the hover diamond is
      centred, never hits the cell itself. Whatever it hits lies one row
      further down. */
  lemma CentreHitsOtherCell(k: int)
    requires k >= 0
    ensures var p := Point(Origin(k).x + CELL_HALF_WIDTH, Origin(k).y + CELL_HALF_HEIGHT);
      && HitTest(p) != Some(k)
      && (HitTest(p).Some? ==> Row(HitTest(p).value) == Row(k) + 1)
  {
    var p := Point(Origin(k).x + CELL_HALF_WIDTH, Origin(k).y + CELL_HALF_HEIGHT);
    if HitTest(p).Some? {
      var v := HitTest(p).value;
      assert Row(v) as real * CELL_HALF_HEIGHT <= (Row(k) + 1) as real * CELL_HALF_HEIGHT;
      assert (Row(k) + 1) as real * CELL_HALF_HEIGHT < (Row(v) + 1) as real * CELL_HALF_HEIGHT;
    }
  }

  /** The centre of cell 0 (row 0) hits cell 14, the first cell of row 1. */
  lemma CentreOfFirstCell()
    ensures HitTest(Point(Origin(0).x + CELL_HALF_WIDTH, Origin(0).y + CELL_HALF_HEIGHT)) == Some(14)
  {
    assert Origin(0) == Point(0.0, 0.0);
    HitTestComplete(14, Point(43.0, 21.5));
  }

  /** The centre of cell 14 (row 1, shifted) hits cell 29 in row 2. */
  lemma CentreOfShiftedCell()
    ensures HitTest(Point(Origin(14).x + CELL_HALF_WIDTH, Origin(14).y + CELL_HALF_HEIGHT)) == Some(29)
  {
    assert Row(14) == 1 && Col(14) == 0;
    assert Origin(14) == Point(43.0, 21.5);
    HitTestComplete(29, Point(86.0, 43.0));
  }

  /** The centre of cell 27, the last of row 1, lies past the last column of
      row 2 and hits nothing. */
  lemma CentreOfRowEndMisses()
    ensures HitTest(Point(Origin(27).x + CELL_HALF_WIDTH, Origin(27).y + CELL_HALF_HEIGHT)).None?
  {
    assert Row(27) == 1 && Col(27) == 13;
    assert Origin(27) == Point(1161.0, 21.5);
    assert (43.0 / CELL_HALF_HEIGHT).Floor == 2;
    assert Shift(2) == 0.0;
    assert (1204.0 / CELL_WIDTH).Floor == 14;
  }

  /** A point above the surface never hits a cell. */
  lemma AboveGridMisses(p: Point)
    requires p.y < 0.0
    ensures HitTest(p).None?
  {
  }
}
