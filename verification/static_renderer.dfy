/** The static renderer (dist/index.js): composes a whole map into an image
    buffer, with the watermark drawn once after the cells. */
module StaticRenderer {
  import opened Wrappers
  import opened Layout
  import opened Grid
  import opened Config
  import opened Assets
  import opened Draw
  import opened CellLayers

  /** Largest watermark side. */
  const WATERMARK_MAX: real := 100.0

  function Width(img: Image): real {
    match img
    case Bitmap(_, w, _) => w as real
    case Circle(_, d) => d
  }

  function Height(img: Image): real {
    match img
    case Bitmap(_, _, h) => h as real
    case Circle(_, d) => d
  }

  function Min(a: real, b: real): real {
    if a < b then a else b
  }

  /** `addWatermark`'s placement: the logo scaled down to at most 100 pixels
      a side, in the bottom-right corner with a 10-pixel margin. */
  function WatermarkRect(img: Image): (r: Rect)
    ensures Width(img) >= 0.0 ==> r.w >= 0.0
    ensures Height(img) >= 0.0 ==> r.h >= 0.0
    ensures r.w <= WATERMARK_MAX && r.w <= Width(img) && (r.w == WATERMARK_MAX || r.w == Width(img))
    ensures r.h <= WATERMARK_MAX && r.h <= Height(img) && (r.h == WATERMARK_MAX || r.h == Height(img))
    ensures 0.0 <= r.x && r.x + r.w + WATERMARK_MARGIN == WIDTH
    ensures 0.0 <= r.y && r.y + r.h + WATERMARK_MARGIN == HEIGHT
  {
    var w := Min(WATERMARK_MAX, Width(img));
    var h := Min(WATERMARK_MAX, Height(img));
    Rect(WIDTH - w - WATERMARK_MARGIN, HEIGHT - h - WATERMARK_MARGIN, w, h)
  }

  /** The candidate commands of one cell in the order the cell loop tries
      them: floor tile, high ground, ally marker, enemy marker, label. Only
      the tile and the markers set `cellNeedToBeDraw`. */
  function CellSteps(c: Cell, opts: Options, a: AssetSet): seq<Step> {
    var id := c.cellNumber;
    var showAlly := c.blue && a.ally.Some? && opts.displayStartCells;
    var showEnemy := c.red && a.enemy.Some? && opts.displayStartCells;
    var cellNeedToBeDraw := Walkable(c) || showAlly || showEnemy;
    [ Step(Walkable(c), TileSprite(TileLayer(id), id)),
      Step(ShowsHigh(c), OverlaySprite(High, id)),
      Step(showAlly, OverlaySprite(Ally, id)),
      Step(showEnemy, OverlaySprite(Enemy, id)),
      Step(opts.displayCellId && cellNeedToBeDraw, CellLabel(id)) ]
  }

  /** Layers the static renderer draws inside a cell. */
  const CELL_LAYERS: set<Layer> := {GrayTile, PurpleTile, High, Ally, Enemy}

  /** The candidates are in z-order and each fits the cell. */
  lemma CellStepsWellFormed(c: Cell, opts: Options, a: AssetSet)
    ensures StepsInZOrder(CellSteps(c, opts, a))
    ensures CandidatesFor(CellSteps(c, opts, a), c.cellNumber, CELL_LAYERS)
  {
  }

  /** The commands the cell loop issues for one cell. */
  function CellCommands(c: Cell, opts: Options, a: AssetSet): (cmds: seq<Cmd>)
    ensures InZOrder(cmds)
    ensures forall cmd :: cmd in cmds ==> FitsCell(cmd, c.cellNumber, CELL_LAYERS)
    ensures TileSprite(GrayTile, c.cellNumber) in cmds <==>
      c.mov && !c.nonWalkableDuringFight && Row(c.cellNumber) % 2 == 0
    ensures TileSprite(PurpleTile, c.cellNumber) in cmds <==>
      c.mov && !c.nonWalkableDuringFight && Row(c.cellNumber) % 2 != 0
    ensures OverlaySprite(High, c.cellNumber) in cmds <==> !c.los && !c.nonWalkableDuringFight
    ensures OverlaySprite(Ally, c.cellNumber) in cmds <==> c.blue && a.ally.Some? && opts.displayStartCells
    ensures OverlaySprite(Enemy, c.cellNumber) in cmds <==> c.red && a.enemy.Some? && opts.displayStartCells
    ensures CellLabel(c.cellNumber) in cmds <==>
      && opts.displayCellId
      && (|| TileSprite(GrayTile, c.cellNumber) in cmds
          || TileSprite(PurpleTile, c.cellNumber) in cmds
          || OverlaySprite(Ally, c.cellNumber) in cmds
          || OverlaySprite(Enemy, c.cellNumber) in cmds)
  {
    var id := c.cellNumber;
    var steps := CellSteps(c, opts, a);
    CellStepsWellFormed(c, opts, a);
    EmitZOrder(steps);
    EmitFits(steps, id, CELL_LAYERS);
    EmitShows(steps, 0); EmitShows(steps, 1); EmitShows(steps, 2); EmitShows(steps, 3); EmitShows(steps, 4);
    EmitRank(steps, 0);
    Emit(steps)
  }

  /** The cell loop: every cell's commands, in list order. */
  function CellsCommands(cells: seq<Cell>, opts: Options, a: AssetSet): (cmds: seq<Cmd>)
    ensures forall cmd :: cmd in cmds ==> cmd.Label? || (cmd.Sprite? && cmd.layer in CELL_LAYERS)
  {
    if |cells| == 0 then
      []
    else
      var head := CellCommands(cells[0], opts, a);
      var tail := CellsCommands(cells[1..], opts, a);
      head + tail
  }

  /** The loop visits the cells in list order: one more cell at the end of
      the list appends that cell's commands at the end of the loop's output. */
  lemma {:induction false} LoopAppend(cells: seq<Cell>, c: Cell, opts: Options, a: AssetSet)
    ensures CellsCommands(cells + [c], opts, a) == CellsCommands(cells, opts, a) + CellCommands(c, opts, a)
    decreases |cells|
  {
    if |cells| == 0 {
      assert [c][1..] == [];
    } else {
      assert (cells + [c])[1..] == cells[1..] + [c];
      LoopAppend(cells[1..], c, opts, a);
    }
  }

  /** A command is issued by the loop exactly when it is issued for one of
      the cells. */
  lemma {:induction false} LoopIssuesEachCell(cells: seq<Cell>, opts: Options, a: AssetSet)
    ensures forall x :: x in CellsCommands(cells, opts, a) <==>
      exists k :: 0 <= k < |cells| && x in CellCommands(cells[k], opts, a)
    decreases |cells|
  {
    if |cells| > 0 {
      var rest := cells[1..];
      LoopIssuesEachCell(rest, opts, a);
      forall x | exists k :: 0 <= k < |cells| && x in CellCommands(cells[k], opts, a)
        ensures x in CellsCommands(cells, opts, a)
      {
        var k :| 0 <= k < |cells| && x in CellCommands(cells[k], opts, a);
        if k > 0 {
          assert rest[k - 1] == cells[k];
        }
      }
      forall x | x in CellsCommands(cells, opts, a)
        ensures exists k :: 0 <= k < |cells| && x in CellCommands(cells[k], opts, a)
      {
        if x !in CellCommands(cells[0], opts, a) {
          assert x in CellsCommands(rest, opts, a);
          var k :| 0 <= k < |rest| && x in CellCommands(rest[k], opts, a);
          assert cells[k + 1] == rest[k];
        }
      }
    }
  }

  /** A walkable cell's floor tile reaches the frame. */
  lemma TileReachesFrame(cells: seq<Cell>, k: int, opts: Options, a: AssetSet)
    requires 0 <= k < |cells| && Walkable(cells[k])
    ensures TileSprite(TileLayer(cells[k].cellNumber), cells[k].cellNumber) in Frame(cells, opts, a)
  {
    LoopIssuesEachCell(cells, opts, a);
    var x := TileSprite(TileLayer(cells[k].cellNumber), cells[k].cellNumber);
    assert x in CellCommands(cells[k], opts, a);
    assert x in CellsCommands(cells, opts, a);
  }

  /** The watermark command for a loaded logo. */
  function WatermarkSprite(logo: Image): Cmd {
    Sprite(Logo, WatermarkRect(logo), OPAQUE)
  }

  /** One whole frame: black background, the cell loop, then the watermark
      once, when it is enabled and its logo was loaded. */
  function Frame(cells: seq<Cell>, opts: Options, a: AssetSet): (f: seq<Cmd>)
    ensures |f| >= 1 && f[0] == FillBlack(Canvas)
    ensures forall i :: 1 <= i < |f| ==> f[i].Sprite? || f[i].Label?
    ensures Count(f, Logo) == if opts.addWatermark && a.logo.Some? then 1 else 0
    ensures opts.addWatermark && a.logo.Some? ==> f[|f| - 1] == WatermarkSprite(a.logo.value)
    ensures |f| == 1 + |CellsCommands(cells, opts, a)| + Count(f, Logo)
    ensures f[1..1 + |CellsCommands(cells, opts, a)|] == CellsCommands(cells, opts, a)
  {
    var body := CellsCommands(cells, opts, a);
    var mark := if opts.addWatermark && a.logo.Some? then [WatermarkSprite(a.logo.value)] else [];
    CountZero(body, Logo);
    CountAppend([FillBlack(Canvas)], body, Logo);
    CountAppend([FillBlack(Canvas)] + body, mark, Logo);
    [FillBlack(Canvas)] + body + mark
  }

  /** `render`: resolve the assets, then compose the frame; a failed load
      rejects with the path that failed and no frame. */
  function Render(cells: seq<Cell>, opts: Options, store: Store): (r: Result<seq<Cmd>, string>)
    ensures r.Success? <==> StaticResolvable(opts, store)
    ensures r.Failure? ==> r.error !in store
    ensures r.Failure? ==> LoadStatic(opts, store).Failure? && r.error == LoadStatic(opts, store).error
    ensures r.Success? ==> |r.value| >= 1 && r.value[0] == FillBlack(Canvas)
    ensures r.Success? ==> LoadStatic(opts, store).Success? && r.value == Frame(cells, opts, LoadStatic(opts, store).value)
  {
    match LoadStatic(opts, store)
    case Failure(path) => Failure(path)
    case Success(a) => Success(Frame(cells, opts, a))
  }
}
