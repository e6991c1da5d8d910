/** How the two compositors relate: on a cell that is not the hovered
    neutral cell, and without NPC markers or a logo, the interactive cell
    loop issues exactly the commands the static one does. */
module Variants {
  import opened Wrappers
  import opened Layout
  import opened Config
  import opened Assets
  import opened Draw
  import StaticRenderer
  import InteractiveRenderer

  lemma InteractiveMatchesStatic(c: Cell, opts: InteractiveOptions, a: AssetSet, hover: Option<int>)
    requires a.pnj.None? && a.logo.None?
    requires !InteractiveRenderer.HoveredNeutral(c, hover)
    ensures InteractiveRenderer.CellCommands(c, opts, a, hover) == StaticRenderer.CellCommands(c, opts.base, a)
  {
    var i := InteractiveRenderer.CellCommands(c, opts, a, hover);
    var s := StaticRenderer.CellCommands(c, opts.base, a);
    InteractiveInStatic(c, opts, a, hover);
    StaticInInteractive(c, opts, a, hover);
    InZOrderUnique(i, s);
  }

  lemma InteractiveInStatic(c: Cell, opts: InteractiveOptions, a: AssetSet, hover: Option<int>)
    requires a.pnj.None? && a.logo.None?
    requires !InteractiveRenderer.HoveredNeutral(c, hover)
    ensures forall x :: x in InteractiveRenderer.CellCommands(c, opts, a, hover) ==>
      x in StaticRenderer.CellCommands(c, opts.base, a)
  {
    var id := c.cellNumber;
    var i := InteractiveRenderer.CellCommands(c, opts, a, hover);
    InteractiveRenderer.CellOverlays(c, opts, a, hover);
    InteractiveRenderer.CellWatermark(c, opts, a, hover);
    CountZero(i, Logo);
    forall x | x in i
      ensures x in StaticRenderer.CellCommands(c, opts.base, a)
    {
      assert FitsCell(x, id, InteractiveRenderer.CELL_LAYERS);
    }
  }

  lemma StaticInInteractive(c: Cell, opts: InteractiveOptions, a: AssetSet, hover: Option<int>)
    requires a.pnj.None? && a.logo.None?
    requires !InteractiveRenderer.HoveredNeutral(c, hover)
    ensures forall x :: x in StaticRenderer.CellCommands(c, opts.base, a) ==>
      x in InteractiveRenderer.CellCommands(c, opts, a, hover)
  {
    var id := c.cellNumber;
    var s := StaticRenderer.CellCommands(c, opts.base, a);
    InteractiveRenderer.CellOverlays(c, opts, a, hover);
    forall x | x in s
      ensures x in InteractiveRenderer.CellCommands(c, opts, a, hover)
    {
      assert FitsCell(x, id, StaticRenderer.CELL_LAYERS);
    }
  }
}
