/** The interactive renderer's compositor (`render` in src/index.ts): like the
    static one, plus the hover diamond and the NPC marker, and with the
    watermark drawn from inside the cell loop. */
module InteractiveRenderer {
  import opened Wrappers
  import opened Layout
  import opened Grid
  import opened Config
  import opened Assets
  import opened Draw
  import opened CellLayers

  /** Side of the interactive watermark. */
  const WATERMARK_SIZE: real := 40.0

  /** The watermark is drawn at reduced opacity. */
  const WATERMARK_ALPHA: real := 0.3

  /** The watermark command: a 40-pixel square, 10 pixels in from the
      bottom-right corner, at 30% opacity. */
  function WatermarkSprite(): (w: Cmd)
    ensures w.Sprite? && w.layer == Logo && 0.0 < w.alpha < OPAQUE
    ensures w.at.w == WATERMARK_SIZE && w.at.h == WATERMARK_SIZE
    ensures 0.0 <= w.at.x && w.at.x + w.at.w + WATERMARK_MARGIN == WIDTH
    ensures 0.0 <= w.at.y && w.at.y + w.at.h + WATERMARK_MARGIN == HEIGHT
  {
    Sprite(Logo,
      Rect(WIDTH - WATERMARK_SIZE - WATERMARK_MARGIN, HEIGHT - WATERMARK_SIZE - WATERMARK_MARGIN,
           WATERMARK_SIZE, WATERMARK_SIZE),
      WATERMARK_ALPHA)
  }

  /** The cell is the hovered one and carries no faction or NPC flag. */
  predicate HoveredNeutral(c: Cell, hover: Option<int>) {
    hover == Some(c.cellNumber) && !c.blue && !c.red && !c.pnj
  }

  /** The candidate commands of one cell in the order the cell loop tries
      them. The first candidate is the diamond for the hovered neutral cell
      and the floor tile otherwise, so the two never both appear. */
  function CellSteps(c: Cell, opts: InteractiveOptions, a: AssetSet, hover: Option<int>): seq<Step> {
    var id := c.cellNumber;
    var hovered := HoveredNeutral(c, hover);
    var showAlly := c.blue && a.ally.Some? && opts.base.displayStartCells;
    var showEnemy := c.red && a.enemy.Some? && opts.base.displayStartCells;
    var showPnj := c.pnj && a.pnj.Some? && opts.displayPnj;
    var drawn := hovered || Walkable(c) || showAlly || showEnemy || showPnj;
    [ Step(hovered || Walkable(c),
           if hovered then TileSprite(HoverDiamond, id) else TileSprite(TileLayer(id), id)),
      Step(ShowsHigh(c), OverlaySprite(High, id)),
      Step(showAlly, OverlaySprite(Ally, id)),
      Step(showEnemy, OverlaySprite(Enemy, id)),
      Step(showPnj, OverlaySprite(Pnj, id)),
      Step(a.logo.Some?, WatermarkSprite()),
      Step(opts.base.displayCellId && drawn, CellLabel(id)) ]
  }

  /** Every layer can appear in an interactive cell. */
  const CELL_LAYERS: set<Layer> := {HoverDiamond, GrayTile, PurpleTile, High, Ally, Enemy, Pnj, Logo}

  /** The candidates are in z-order and each fits the cell. */
  lemma CellStepsWellFormed(c: Cell, opts: InteractiveOptions, a: AssetSet, hover: Option<int>)
    ensures StepsInZOrder(CellSteps(c, opts, a, hover))
    ensures CandidatesFor(CellSteps(c, opts, a, hover), c.cellNumber, CELL_LAYERS)
  {
  }

  /** The commands the cell loop issues for one cell: the floor layer
      (diamond or tile) here, the overlays in `CellOverlays`. */
  function CellCommands(c: Cell, opts: InteractiveOptions, a: AssetSet, hover: Option<int>): (cmds: seq<Cmd>)
    ensures InZOrder(cmds)
    ensures forall cmd :: cmd in cmds ==> FitsCell(cmd, c.cellNumber, CELL_LAYERS)
    ensures TileSprite(HoverDiamond, c.cellNumber) in cmds <==>
      hover == Some(c.cellNumber) && !c.blue && !c.red && !c.pnj
    ensures forall cmd :: cmd in cmds && cmd.Sprite? && cmd.layer == HoverDiamond ==>
      hover == Some(c.cellNumber) && cmd == TileSprite(HoverDiamond, c.cellNumber)
    ensures TileSprite(GrayTile, c.cellNumber) in cmds <==>
      !HoveredNeutral(c, hover) && c.mov && !c.nonWalkableDuringFight && Row(c.cellNumber) % 2 == 0
    ensures TileSprite(PurpleTile, c.cellNumber) in cmds <==>
      !HoveredNeutral(c, hover) && c.mov && !c.nonWalkableDuringFight && Row(c.cellNumber) % 2 != 0
  {
    var id := c.cellNumber;
    var steps := CellSteps(c, opts, a, hover);
    CellStepsWellFormed(c, opts, a, hover);
    EmitZOrder(steps);
    EmitFits(steps, id, CELL_LAYERS);
    EmitShows(steps, 0);
    EmitRank(steps, 0);
    Emit(steps)
  }

  /** The overlays of one cell: the high-ground sprite exactly when the cell
      has no line of sight and is not blocked in fight, each marker exactly
      when its flag, its asset and its option are all present, the
      watermark once per cell whenever the logo was loaded, and the label
      exactly when the option is on and a `drawn`-setting sprite was issued
      (the high-ground sprite and the watermark do not count). */
  lemma CellOverlays(c: Cell, opts: InteractiveOptions, a: AssetSet, hover: Option<int>)
    ensures var cmds := CellCommands(c, opts, a, hover);
      && (OverlaySprite(High, c.cellNumber) in cmds <==> !c.los && !c.nonWalkableDuringFight)
      && (OverlaySprite(Ally, c.cellNumber) in cmds <==> c.blue && a.ally.Some? && opts.base.displayStartCells)
      && (OverlaySprite(Enemy, c.cellNumber) in cmds <==> c.red && a.enemy.Some? && opts.base.displayStartCells)
      && (OverlaySprite(Pnj, c.cellNumber) in cmds <==> c.pnj && a.pnj.Some? && opts.displayPnj)
      && (CellLabel(c.cellNumber) in cmds <==>
          && opts.base.displayCellId
          && (|| TileSprite(HoverDiamond, c.cellNumber) in cmds
              || TileSprite(GrayTile, c.cellNumber) in cmds
              || TileSprite(PurpleTile, c.cellNumber) in cmds
              || OverlaySprite(Ally, c.cellNumber) in cmds
              || OverlaySprite(Enemy, c.cellNumber) in cmds
              || OverlaySprite(Pnj, c.cellNumber) in cmds))
  {
    var steps := CellSteps(c, opts, a, hover);
    CellStepsWellFormed(c, opts, a, hover);
    EmitShows(steps, 1); EmitShows(steps, 2); EmitShows(steps, 3);
    EmitShows(steps, 4); EmitShows(steps, 6);
  }

  /** The watermark is issued once per cell when the logo was loaded, always
      at the same place. */
  lemma CellWatermark(c: Cell, opts: InteractiveOptions, a: AssetSet, hover: Option<int>)
    ensures var cmds := CellCommands(c, opts, a, hover);
      && Count(cmds, Logo) == (if a.logo.Some? then 1 else 0)
      && forall cmd :: cmd in cmds && cmd.Sprite? && cmd.layer == Logo ==> cmd == WatermarkSprite()
  {
    var steps := CellSteps(c, opts, a, hover);
    CellStepsWellFormed(c, opts, a, hover);
    EmitZOrder(steps);
    EmitShows(steps, 5);
    EmitRank(steps, 5);
    CountInZOrder(Emit(steps), Logo);
    CountZero(Emit(steps), Logo);
  }

  /** On the hovered neutral cell the diamond replaces the floor tile: the
      two are never issued together. */
  lemma HoverExcludesTile(c: Cell, opts: InteractiveOptions, a: AssetSet, hover: Option<int>)
    ensures var cmds := CellCommands(c, opts, a, hover);
      TileSprite(HoverDiamond, c.cellNumber) in cmds ==>
        forall cmd :: cmd in cmds && cmd.Sprite? ==> cmd.layer != GrayTile && cmd.layer != PurpleTile
  {
  }

  /** The cell loop: every cell's commands, in list order. */
  function CellsCommands(cells: seq<Cell>, opts: InteractiveOptions, a: AssetSet, hover: Option<int>): (cmds: seq<Cmd>)
    ensures forall cmd :: cmd in cmds ==> cmd.Sprite? || cmd.Label?
  {
    if |cells| == 0 then
      []
    else
      CellCommands(cells[0], opts, a, hover) + CellsCommands(cells[1..], opts, a, hover)
  }

  /** The loop visits the cells in list order: one more cell at the end of
      the list appends that cell's commands at the end of the loop's output. */
  lemma {:induction false} LoopAppend(cells: seq<Cell>, c: Cell, opts: InteractiveOptions, a: AssetSet, hover: Option<int>)
    ensures CellsCommands(cells + [c], opts, a, hover) == CellsCommands(cells, opts, a, hover) + CellCommands(c, opts, a, hover)
    decreases |cells|
  {
    if |cells| == 0 {
      assert [c][1..] == [];
    } else {
      assert (cells + [c])[1..] == cells[1..] + [c];
      LoopAppend(cells[1..], c, opts, a, hover);
    }
  }

  /** A command is issued by the loop exactly when it is issued for one of
      the cells. */
  lemma {:induction false} LoopIssuesEachCell(cells: seq<Cell>, opts: InteractiveOptions, a: AssetSet, hover: Option<int>)
    ensures forall x :: x in CellsCommands(cells, opts, a, hover) <==>
      exists k :: 0 <= k < |cells| && x in CellCommands(cells[k], opts, a, hover)
    decreases |cells|
  {
    if |cells| > 0 {
      var rest := cells[1..];
      LoopIssuesEachCell(rest, opts, a, hover);
      forall x | exists k :: 0 <= k < |cells| && x in CellCommands(cells[k], opts, a, hover)
        ensures x in CellsCommands(cells, opts, a, hover)
      {
        var k :| 0 <= k < |cells| && x in CellCommands(cells[k], opts, a, hover);
        if k > 0 {
          assert rest[k - 1] == cells[k];
        }
      }
      forall x | x in CellsCommands(cells, opts, a, hover)
        ensures exists k :: 0 <= k < |cells| && x in CellCommands(cells[k], opts, a, hover)
      {
        if x !in CellCommands(cells[0], opts, a, hover) {
          assert x in CellsCommands(rest, opts, a, hover);
          var k :| 0 <= k < |rest| && x in CellCommands(rest[k], opts, a, hover);
          assert cells[k + 1] == rest[k];
        }
      }
    }
  }

  /** The hovered neutral cell's diamond reaches the frame. */
  lemma DiamondReachesFrame(cells: seq<Cell>, k: int, opts: InteractiveOptions, a: AssetSet, hover: Option<int>)
    requires 0 <= k < |cells| && HoveredNeutral(cells[k], hover)
    ensures TileSprite(HoverDiamond, cells[k].cellNumber) in Frame(cells, opts, a, hover)
  {
    LoopIssuesEachCell(cells, opts, a, hover);
    var x := TileSprite(HoverDiamond, cells[k].cellNumber);
    assert x in CellCommands(cells[k], opts, a, hover);
    assert x in CellsCommands(cells, opts, a, hover);
  }

  /** The watermark is issued once per cell, so a frame repeats it as many
      times as there are cells. */
  lemma {:induction false} WatermarkPerCell(cells: seq<Cell>, opts: InteractiveOptions, a: AssetSet, hover: Option<int>)
    ensures Count(CellsCommands(cells, opts, a, hover), Logo) == if a.logo.Some? then |cells| else 0
  {
    if |cells| > 0 {
      WatermarkPerCell(cells[1..], opts, a, hover);
      CellWatermark(cells[0], opts, a, hover);
      CountAppend(CellCommands(cells[0], opts, a, hover), CellsCommands(cells[1..], opts, a, hover), Logo);
    }
  }

  /** A hover diamond in a frame is always the diamond of the hovered cell;
      without a hovered cell there is none. */
  lemma {:induction false} DiamondOnlyAtHover(cells: seq<Cell>, opts: InteractiveOptions, a: AssetSet, hover: Option<int>)
    ensures forall cmd :: cmd in CellsCommands(cells, opts, a, hover) && cmd.Sprite? && cmd.layer == HoverDiamond ==>
      hover.Some? && cmd == TileSprite(HoverDiamond, hover.value)
  {
    if |cells| > 0 {
      DiamondOnlyAtHover(cells[1..], opts, a, hover);
    }
  }

  /** One whole frame: the surface cleared and filled black, then the cell loop. */
  function Frame(cells: seq<Cell>, opts: InteractiveOptions, a: AssetSet, hover: Option<int>): (f: seq<Cmd>)
    ensures |f| >= 2 && f[0] == Clear(Canvas) && f[1] == FillBlack(Canvas)
    ensures forall i :: 2 <= i < |f| ==> f[i].Sprite? || f[i].Label?
    ensures Count(f, Logo) == if a.logo.Some? then |cells| else 0
    ensures hover.None? ==> forall cmd :: cmd in f && cmd.Sprite? ==> cmd.layer != HoverDiamond
    ensures f[2..] == CellsCommands(cells, opts, a, hover)
  {
    var body := CellsCommands(cells, opts, a, hover);
    WatermarkPerCell(cells, opts, a, hover);
    DiamondOnlyAtHover(cells, opts, a, hover);
    CountAppend([Clear(Canvas), FillBlack(Canvas)], body, Logo);
    [Clear(Canvas), FillBlack(Canvas)] + body
  }

  /** Every asset the interactive renderer loads from the store resolves. */
  predicate InteractiveResolvable(opts: InteractiveOptions, store: Store) {
    && AssetPath(opts.base.assetPath, HighKey) in store
    && AssetPath(opts.base.assetPath, GrayKey) in store
    && AssetPath(opts.base.assetPath, PurpleKey) in store
    && (opts.base.addWatermark ==> AssetPath(opts.base.assetPath, LogoKey) in store)
  }

  /** `render`: load the assets, then compose the frame; a failed load
      rejects before anything is drawn. */
  function Render(cells: seq<Cell>, opts: InteractiveOptions, store: Store, hover: Option<int>): (r: Result<seq<Cmd>, string>)
    ensures r.Success? <==> InteractiveResolvable(opts, store)
    ensures r.Failure? ==> r.error !in store
    ensures r.Failure? ==> LoadInteractive(opts, store).Failure? && r.error == LoadInteractive(opts, store).error
    ensures r.Success? ==> |r.value| >= 2 && r.value[0] == Clear(Canvas) && r.value[1] == FillBlack(Canvas)
    ensures r.Success? ==> LoadInteractive(opts, store).Success? && r.value == Frame(cells, opts, LoadInteractive(opts, store).value, hover)
  {
    match LoadInteractive(opts, store)
    case Failure(path) => Failure(path)
    case Success(a) => Success(Frame(cells, opts, a, hover))
  }
}
