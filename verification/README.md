# Tactical map renderer — Dafny model

This project models the core of a TypeScript renderer for tactical game maps.
A map is a list of cells laid out in a staggered "brick" grid of 14 columns.
Each cell carries gameplay flags: `mov`, `los`, `nonWalkableDuringFight`,
`red`, `blue` and `pnj`. The renderer paints one sprite layer after another
onto a 1300×975 surface. It has two variants:

- a **static** renderer (`dist/index.js`) that composes an image buffer and
  draws the watermark once, after the cells;
- an **interactive** renderer (`src/index.ts`) that paints a live canvas. It
  adds an orange hover diamond and an NPC (`pnj`) marker, draws the watermark
  inside the cell loop, and tracks the hovered cell from mouse events.

The model covers:

- the **grid projector**: cell number → pixel origin, and its inverse hit
  test from a canvas-relative point → cell number or nothing;
- the **layer compositors** of both variants. A frame is a list of abstract
  draw commands (clear, black fill, sprite with layer, rectangle and opacity,
  number label), not pixels;
- **asset resolution**, meaning which assets each variant requests under
  which options. It is modelled against a store that maps asset paths to
  decoded images;
- the **hover/click controller**. Its state is `lastHoverId`. Each pointer
  event yields the next state and an effect trace of redraws and callbacks.

Coordinates are exact Dafny `real`s, so the half cell height 21.5 and the
offset -16.5 are represented exactly. JavaScript's truncating `%` is written
out (`Grid.TruncRem`). `Math.floor` of an integer quotient is Dafny's
division by a positive constant. `Math.floor` of a real is `.Floor`.

Modules: `Layout` (constants and cell record), `Grid` (projection and hit
test), `Config` (options), `Assets` (asset requests and loading), `Draw`
(draw commands and z-order), `CellLayers` (per-cell steps both variants
share), `StaticRenderer`, `InteractiveRenderer`, `Variants` (how the two
compositors agree), `Controller` (pointer events), `Wrappers`
(`Option`/`Result`).

Each cell's output is built as a list of candidate commands in z-order,
each paired with the condition under which the source issues it
(`Draw.Step`, `Draw.Emit`). The general lemmas about `Emit` carry the
per-cell proofs.

Four behaviours of the code that are easy to misread, all modelled as
written:

- The high-ground sprite is drawn when `los` is **false**.
- The static renderer draws the watermark at full opacity, scaled to at most
  100 pixels a side. The interactive renderer draws a 40-pixel square at 30%
  opacity, once per cell.
- The static renderer only fills the surface black; it does not clear it
  first. The interactive renderer does both.
- The label is gated by the `drawn` flag. The hover diamond, the tile and the
  markers set that flag. The high-ground sprite and the watermark do not.

## Model

| member | source | states |
|---|---|---|
| Layout.LayoutConstants | src/interfaces/Map.ts:40-50 | The half width is 43 and the half height 21.5, which is not a whole pixel. The double height is 86 and MAP_WIDTH is positive. The widest tile (column 13 of an odd row) ends at 1247, inside the 1300-pixel surface. Overlays span from 16.5 above the origin to 69.5 below it. |
| Grid.Origin | src/index.ts:126-130 | For every cell number ≥ 0: `0 ≤ x`, `x + 86 ≤ 1300` and `0 ≤ y`, so the tile fits the surface's width. `y` has no upper bound, so rows past 45 (from cell 644 on) lie below the 975-pixel surface. Even rows start at `col*86`, odd rows at `col*86 + 43`, and `y = row*21.5`. |
| Grid.RowColOfIndex | src/index.ts:127-128 | Every cell number ≥ 0 splits into row ≥ 0 and column in [0,14), and `row*14 + col` recomposes it. |
| Grid.RowColOfComposed | src/index.ts:199-200 | The index the hit test builds from a row ≥ 0 and a column in [0,14) gives that row and column back. |
| Grid.HitTest | src/index.ts:197-201 | A reported cell number is ≥ 0, and the point lies inside that cell's hit box. The hit box is the full cell width by half the cell height at the cell's origin. |
| Grid.HitTestComplete | src/index.ts:197-201 | A point inside the hit box of any cell number ≥ 0 is reported as that cell. No upper bound is put on the row. |
| Grid.HitTestCharacterised | src/index.ts:232-236 | The hit test returns `id` exactly when `id ≥ 0` and the point is in `id`'s hit box. It returns nothing exactly when no cell number ≥ 0 has a box containing the point. |
| Grid.HitTestRoundTrip | src/index.ts:127-130 | Every point in the top half of cell `id`'s tile, `(x+dx, y+dy)` with `0 ≤ dx < 86` and `0 ≤ dy < 21.5`, hit-tests to that cell. |
| Grid.CentreHitsOtherCell | src/index.ts:197-201 | The hit box is a band, not the tile's diamond: the centre of cell `k`'s tile, where its label and hover diamond sit, never hits `k`. Whatever it hits is in the next row. |
| Grid.CentreOfFirstCell | src/index.ts:197-201 | The centre of cell 0's tile hits cell 14, the first cell of the next row. |
| Grid.CentreOfShiftedCell | src/index.ts:197-201 | The centre of cell 14's tile (an odd, shifted row) hits cell 29. |
| Grid.CentreOfRowEndMisses | src/index.ts:197-201 | The centre of cell 27's tile, the last of row 1, falls past the last column of row 2 and hits no cell. |
| Grid.AboveGridMisses | src/index.ts:199 | A point above the surface (negative y) hits no cell. |
| Assets.RequestedKeys | dist/index.js:32-43 | The three base tiles are always requested, first. Ally and enemy are requested iff `displayStartCells`, the logo iff `addWatermark`, and no key twice. |
| Assets.LoadKeys | dist/index.js:44-55 | Loading succeeds iff every requested path resolves, and then maps each key to the image its path resolves to. Otherwise it fails with the first path, in request order, that does not resolve. |
| Assets.LoadStatic | dist/index.js:30-65 | Succeeds iff every requested path resolves. Otherwise it fails with the first requested path, in request order, that does not resolve. The asset set has ally/enemy iff `displayStartCells`, a logo iff `addWatermark`, and never an NPC marker. Each present asset is the store's image for its path. |
| Assets.LoadInteractive | src/index.ts:64-107 | Succeeds iff the three base tiles resolve, and the logo too when `addWatermark` is on. Otherwise it fails with the first of those paths, in request order, that does not resolve: a base tile, or the logo only when `addWatermark` is on. The green/red circles exist iff `displayStartCells` and the purple one iff `displayPnj`, each one cell wide. The logo is present iff `addWatermark`. |
| Draw.OverlayRect | src/index.ts:157-168 | Overlay sprites start 16.5 pixels above the cell origin, are one cell wide and reach 69.5 pixels below the origin. |
| CellLayers.TileLayer | src/index.ts:149 | The tile is gray iff the row is even, purple otherwise, using JavaScript's `row % 2 === 0`. |
| StaticRenderer.WatermarkRect | dist/index.js:66-73 | The watermark side is min(100, image side). It ends 10 pixels from the right and bottom edges, inside the surface. |
| StaticRenderer.CellCommands | dist/index.js:89-112 | The cell's commands are in z-order and placed at the cell: tile on the tile rectangle, overlays on the overlay rectangle, label at the centre. The gray/purple tile appears iff `mov && !nonWalkableDuringFight`, by row parity. High appears iff `!los && !nonWalkableDuringFight`. Ally needs `blue`, the asset and the option; enemy needs `red`, the asset and the option. The label appears iff `displayCellId` and a tile or marker was drawn. |
| StaticRenderer.CellsCommands | dist/index.js:81-113 | The cell loop issues only sprites of the five static layers and labels: no logo, no hover diamond, no NPC marker. |
| StaticRenderer.LoopAppend | dist/index.js:81-113 | The loop visits cells in list order: appending a cell to the list appends that cell's commands to the loop's output. |
| StaticRenderer.LoopIssuesEachCell | dist/index.js:81-113 | The loop issues a command iff that command is among the commands of some cell in the list. |
| StaticRenderer.TileReachesFrame | dist/index.js:90-94 | The gray or purple tile of every walkable cell in the list is in the frame. |
| StaticRenderer.Frame | dist/index.js:79-116 | A frame starts with a full black fill, followed by exactly the cell loop's commands and nothing else but the optional final watermark. The logo appears once iff `addWatermark` and the logo is loaded, and then as the last command. |
| StaticRenderer.Render | dist/index.js:74-118 | Rendering succeeds iff every requested asset resolves. A success is the frame composed from the loaded assets, starting with the black fill. A failure carries the path the asset load failed with, and no frame. |
| InteractiveRenderer.WatermarkSprite | src/index.ts:171-176 | The interactive watermark is a 40×40 logo sprite at an opacity strictly between 0 and 1. It sits 10 pixels in from the bottom-right corner, inside the surface. |
| InteractiveRenderer.CellCommands | src/index.ts:132-153 | The cell's commands are in z-order and placed at the cell. The orange diamond appears iff the cell is the hovered one and is not blue, red or pnj, and any diamond is that cell's. Otherwise the gray/purple tile appears iff `mov && !nonWalkableDuringFight`, by row parity. |
| InteractiveRenderer.CellOverlays | src/index.ts:155-187 | High appears iff `!los && !nonWalkableDuringFight`, whatever the hover state. Ally, enemy and pnj each need their flag, asset and option. The label appears iff `displayCellId` and the diamond, a tile or a marker was drawn. |
| InteractiveRenderer.CellWatermark | src/index.ts:171-176 | Each cell issues the watermark exactly once when the logo is loaded, and never otherwise, always at the fixed watermark rectangle. |
| InteractiveRenderer.HoverExcludesTile | src/index.ts:135-153 | When a cell has the hover diamond it has no gray or purple tile. |
| InteractiveRenderer.CellsCommands | src/index.ts:125-188 | The cell loop issues only sprites and labels, never another clear or fill. |
| InteractiveRenderer.LoopAppend | src/index.ts:125-188 | The loop visits cells in list order: appending a cell to the list appends that cell's commands to the loop's output. |
| InteractiveRenderer.LoopIssuesEachCell | src/index.ts:125-188 | The loop issues a command iff that command is among the commands of some cell in the list. |
| InteractiveRenderer.DiamondReachesFrame | src/index.ts:134-145 | When the hovered cell is in the list and has no blue, red or pnj flag, its orange diamond is in the frame. |
| InteractiveRenderer.WatermarkPerCell | src/index.ts:171-176 | Because the watermark is drawn inside the loop, a frame repeats it once per cell. |
| InteractiveRenderer.DiamondOnlyAtHover | src/index.ts:134-145 | Every hover diamond in the cell loop is the hovered cell's. With no hovered cell there is none. |
| InteractiveRenderer.Frame | src/index.ts:120-188 | A frame starts with a full clear and a black fill, followed by exactly the cell loop's commands, all sprites and labels. It holds one watermark per cell when the logo is loaded. It has no diamond when nothing is hovered. |
| InteractiveRenderer.Render | src/index.ts:109-124 | Rendering succeeds iff the base tiles (and, with `addWatermark`, the logo) resolve. A success is the frame composed from the loaded assets, starting with clear and black fill. A failure carries the path the asset load failed with. |
| Variants.InteractiveMatchesStatic | src/index.ts:132-187 | On a cell that is not the hovered neutral cell, with no NPC asset and no logo, the interactive cell commands equal the static ones. |
| Controller.InsertAll | src/index.ts:54-56 | Building the cell map inserts cells in list order: the last cell with a number is the one stored, numbers no cell has keep their old entry, and no other key appears. |
| Controller.LookupLastWins | src/index.ts:54-56 | `cellMap.get(id)` finds nothing iff no cell has number `id`, and otherwise returns the last cell in the list with that number. |
| Controller.OnMove | src/index.ts:191-218 | After a move the hover state is the cell whose hit box contains the canvas-relative pointer, or nothing. An unchanged state has no effects. A changed one redraws once, with the new state, then calls the hover callback once, if supplied, with the cell under that number and the raw client position. |
| Controller.OnLeave | src/index.ts:220-224 | Leaving always clears the hover state and redraws a frame with no hover diamond. It then calls the hover callback, if supplied, with nothing. |
| Controller.OnClick | src/index.ts:226-238 | A click never changes the hover state and never redraws. It calls the click callback only when one is supplied and the pointer hits a cell, and then with the number of the cell whose hit box contains the pointer. |
| Controller.RunKeepsHoverValid | src/index.ts:199-208 | Over any event sequence the hover state stays either nothing or a cell number ≥ 0. |
| Controller.ClicksKeepHover | src/index.ts:226-238 | A sequence of clicks leaves the hover state unchanged and produces only click callbacks. |
| Controller.StepRedrawsAtMostOnce | src/index.ts:203-224 | One event redraws at most once, and a click never does. |
| Controller.AtMostOneRedrawPerEvent | src/index.ts:203-224 | A sequence of events redraws at most as many times as it has events. |
| Controller.HoverRoundTrip | src/index.ts:197-224 | Moving to a point in the top half of cell `k`'s tile (`0 ≤ dy < 21.5`) makes `k` the hover state. A following leave clears the state and redraws a frame without a hover diamond. |

## Left out

- Canvas drawing primitives (`drawImage`, paths, `fillText`, fonts, colours, `globalAlpha` as mutable context state, `makeCircleAsset`'s arc) are foreign API calls. They become abstract draw commands; the label's white 12px centred style is implied by the `Label` command.
- Image decoding and the process-wide asset cache (`loadImage`, `assetsCache`, `canvas.loadImage`) are replaced by a store from path to image. Loading the same path twice therefore always yields the same image, so the cache cannot be observed.
- Assets.LoadInteractive: it reports the first unresolvable path in request order. The source's `Promise.all` rejects with whichever load fails first in time, which the model cannot see.
- `render` is asynchronous, and the event handlers do not await it. The model treats each redraw as atomic, using the hover state the handler has just set. Interleavings where a later event changes `lastHoverId` before an earlier render reads it are not modelled. The effect order `Redraw` then `HoverCallback` is the order of the calls, not of the painting. `render` suspends at its `await` on the asset load before drawing, so the frame is painted after `onCellHover` returns, and a callback that reads the canvas sees the previous frame.
- A redraw in the interactive variant calls `loadAssets` again. The model composes that redraw from the same store, and a failed load surfaces as a `Redraw` effect carrying the failure rather than as an unhandled rejection.
- Event wiring (`addEventListener`) and `getBoundingClientRect` are outside the model. An event carries its client position and the canvas origin, and both are inputs.
- Controller.OnMove: `null` (no hit) and `undefined` (a hit with no cell under that number) both appear as `None` in the hover callback's cell argument.
- Grid.HitTest: the hit box of a cell is the top half-height band of its 86×43 tile, as the code computes it, not the diamond drawn there. The lower half of a tile, its centre included, hovers and clicks a cell of the next row, or none (`Grid.CentreHitsOtherCell`, `Grid.CentreOfRowEndMisses`). The model keeps this behaviour and promises no diamond-shaped round trip.
- Cell numbers are integers. Fractional or non-finite `cellNumber` values that JSON could carry are not modelled, and neither is IEEE double rounding.
- Gameplay fields the renderer never reads (`speed`, `linkedZone`, `arrow`, …) and the map document's other fields are not carried.
- The CLI (`src/cli.ts`, `dist/cli.js`) is file I/O, JSON parsing and process exit; its non-empty `cellsData` check is not part of the renderer.
- The interactive constructor throws when the canvas gives no 2D context; that failure comes from a foreign API and is not modelled.
