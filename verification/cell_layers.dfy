/** The per-cell drawing steps both compositors share: which cells are
    walkable or show the high-ground sprite, the tile colour of a row, and
    the single-command pieces a cell's output is assembled from. */
module CellLayers {
  import opened Layout
  import opened Grid
  import opened Draw

  /** `mov && !nonWalkableDuringFight`: the cell gets a floor tile. */
  predicate Walkable(c: Cell) {
    c.mov && !c.nonWalkableDuringFight
  }

  /** `!los && !nonWalkableDuringFight`: the cell gets the high-ground sprite. */
  predicate ShowsHigh(c: Cell) {
    !c.los && !c.nonWalkableDuringFight
  }

  /** Gray tiles on rows whose `row % 2` is zero, purple ones elsewhere. */
  function TileLayer(id: int): (l: Layer)
    ensures l == GrayTile <==> Row(id) % 2 == 0
    ensures l == GrayTile || l == PurpleTile
  {
    if TruncRem(Row(id), 2) == 0 then GrayTile else PurpleTile
  }

  /** A sprite on the tile rectangle of cell `id`. */
  function TileSprite(l: Layer, id: int): Cmd {
    Sprite(l, TileRect(Origin(id)), OPAQUE)
  }

  /** A sprite on the overlay rectangle of cell `id`. */
  function OverlaySprite(l: Layer, id: int): Cmd {
    Sprite(l, OverlayRect(Origin(id)), OPAQUE)
  }

  /** The number label of cell `id`. */
  function CellLabel(id: int): Cmd {
    Label(id, LabelCenter(Origin(id)))
  }
}
