/** Render options (dist/interfaces/Options.d.ts and the `InteractiveOptions`
    interface of src/index.ts). The canvas element itself is not modelled;
    the two optional callbacks are reduced to whether they are supplied. */
module Config {

  /** Options shared by both renderers. */
  datatype Options = Options(
    displayStartCells: bool,
    addWatermark: bool,
    assetPath: string,
    displayCellId: bool
  )

  /** Options of the interactive renderer: the shared ones plus the NPC
      switch and the presence of the hover and click callbacks. */
  datatype InteractiveOptions = InteractiveOptions(
    base: Options,
    displayPnj: bool,
    hasHoverCallback: bool,
    hasClickCallback: bool
  )
}
