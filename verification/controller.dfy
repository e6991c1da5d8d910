/** The hover/click controller of the interactive renderer
    (`handleMouseMove`, `handleMouseLeave`, `handleClick` and `cellMap` in
    src/index.ts). Its state is `lastHoverId`; each event yields the next
    state and the observable effects it causes, in order: redraws and
    callback invocations. */
module Controller {
  import opened Wrappers
  import opened Layout
  import opened Grid
  import opened Config
  import opened Assets
  import opened Draw
  import InteractiveRenderer

  /** Pointer events. Positions are client coordinates together with the
      origin of the canvas's bounding rectangle at the time of the event. */
  datatype Event =
    | Move(client: Point, canvasOrigin: Point)
    | Leave
    | Click(client: Point, canvasOrigin: Point)

  /** What an event makes observable. A redraw carries the frame the render
      composes, or the path whose load rejected it. */
  datatype Effect =
    | Redraw(frame: Result<seq<Cmd>, string>)
    | HoverCallback(cell: Option<Cell>, client: Option<Point>)
    | ClickCallback(cellId: int)

  /** The renderer instance: its cells, its options and the asset store. */
  datatype Renderer = Renderer(cells: seq<Cell>, opts: InteractiveOptions, store: Store)

  /** The state after an event, and the effects the event caused. */
  datatype Reaction = Reaction(hover: Option<int>, effects: seq<Effect>)

  /** The pointer position relative to the canvas. */
  function Relative(client: Point, canvasOrigin: Point): Point {
    Point(client.x - canvasOrigin.x, client.y - canvasOrigin.y)
  }

  /** `cells[i]` is the last cell in the list with its number. */
  predicate LastOfNumber(cells: seq<Cell>, i: int) {
    0 <= i < |cells| && forall j :: i < j < |cells| ==> cells[j].cellNumber != cells[i].cellNumber
  }

  /** No cell in the list has number `k`. */
  predicate NoneNumbered(cells: seq<Cell>, k: int) {
    forall i :: 0 <= i < |cells| ==> cells[i].cellNumber != k
  }

  /** Inserts the cells into `m` one after the other, as the map constructor
      does with its entries: a later cell with the same number replaces an
      earlier one. */
  function InsertAll(m: map<int, Cell>, cells: seq<Cell>): (r: map<int, Cell>)
    ensures forall i :: LastOfNumber(cells, i) ==> cells[i].cellNumber in r && r[cells[i].cellNumber] == cells[i]
    ensures forall k :: k in m && NoneNumbered(cells, k) ==> k in r && r[k] == m[k]
    ensures forall k :: k in r ==> k in m || !NoneNumbered(cells, k)
    decreases |cells|
  {
    if |cells| == 0 then
      m
    else
      var rest := cells[1..];
      assert forall i :: LastOfNumber(cells, i) && i > 0 ==> LastOfNumber(rest, i - 1);
      assert forall k :: NoneNumbered(cells, k) ==> NoneNumbered(rest, k);
      assert forall k :: !NoneNumbered(rest, k) ==> !NoneNumbered(cells, k);
      InsertAll(m[cells[0].cellNumber := cells[0]], rest)
  }

  /** `cellMap`: cell number to cell, last write wins. */
  function CellMap(cells: seq<Cell>): map<int, Cell> {
    InsertAll(map[], cells)
  }

  /** `cellMap.get(id)`; `None` stands for `undefined`. */
  function Lookup(cells: seq<Cell>, id: int): Option<Cell> {
    var m := CellMap(cells);
    if id in m then Some(m[id]) else None
  }

  /** The lookup finds the last cell with the number, and nothing when no
      cell has it. */
  lemma LookupLastWins(cells: seq<Cell>, id: int)
    ensures Lookup(cells, id).None? <==> NoneNumbered(cells, id)
    ensures forall i :: LastOfNumber(cells, i) && cells[i].cellNumber == id ==> Lookup(cells, id) == Some(cells[i])
  {
    if !NoneNumbered(cells, id) {
      var i :| 0 <= i < |cells| && cells[i].cellNumber == id;
      var last := LastIndexOf(cells, id, i);
    }
  }

  /** The last index carrying number `id`, searching from a known one. */
  lemma {:induction false} LastIndexOf(cells: seq<Cell>, id: int, i: int) returns (last: int)
    requires 0 <= i < |cells| && cells[i].cellNumber == id
    ensures LastOfNumber(cells, last) && cells[last].cellNumber == id
    decreases |cells| - i
  {
    if exists j :: i < j < |cells| && cells[j].cellNumber == id {
      var j :| i < j < |cells| && cells[j].cellNumber == id;
      last := LastIndexOf(cells, id, j);
    } else {
      last := i;
    }
  }

  /** The frame a redraw with the given hover state composes. */
  function Redrawn(r: Renderer, hover: Option<int>): Effect {
    Redraw(InteractiveRenderer.Render(r.cells, r.opts, r.store, hover))
  }

  /** `handleMouseMove`: hit-test the pointer; if the hit differs from the
      current hover state, adopt it, redraw, then call the hover callback
      with the cell found under that number (if any); otherwise do nothing. */
  function OnMove(r: Renderer, hover: Option<int>, client: Point, canvasOrigin: Point): (out: Reaction)
    ensures forall id :: out.hover == Some(id) <==> id >= 0 && InCell(id, Relative(client, canvasOrigin))
    ensures out.hover == hover <==> out.effects == []
    ensures out.hover != hover ==> 1 <= |out.effects| && out.effects[0] == Redrawn(r, out.hover)
    ensures |out.effects| == 2 <==> out.hover != hover && r.opts.hasHoverCallback
    ensures |out.effects| == 2 ==> out.effects[1] == HoverCallback(
      if out.hover.Some? then Lookup(r.cells, out.hover.value) else None, Some(client))
    ensures |out.effects| <= 2
  {
    var p := Relative(client, canvasOrigin);
    var newId := HitTest(p);
    forall id ensures newId == Some(id) <==> id >= 0 && InCell(id, p) {
      HitTestCharacterised(p, id);
    }
    if newId == hover then
      Reaction(hover, [])
    else
      var cell := if newId.Some? then Lookup(r.cells, newId.value) else None;
      Reaction(newId,
        [Redrawn(r, newId)]
        + (if r.opts.hasHoverCallback then [HoverCallback(cell, Some(client))] else []))
  }

  /** `handleMouseLeave`: clear the hover state, redraw, call the hover
      callback with nothing. */
  function OnLeave(r: Renderer, hover: Option<int>): (out: Reaction)
    ensures out.hover.None?
    ensures |out.effects| >= 1 && out.effects[0] == Redrawn(r, None)
    ensures out.effects[1..] == if r.opts.hasHoverCallback then [HoverCallback(None, None)] else []
    ensures out.effects[0].frame.Success? ==>
      forall cmd :: cmd in out.effects[0].frame.value && cmd.Sprite? ==> cmd.layer != HoverDiamond
  {
    Reaction(None, [Redrawn(r, None)] + (if r.opts.hasHoverCallback then [HoverCallback(None, None)] else []))
  }

  /** `handleClick`: report the cell under the pointer to the click callback;
      the hover state is untouched and nothing is redrawn. */
  function OnClick(r: Renderer, hover: Option<int>, client: Point, canvasOrigin: Point): (out: Reaction)
    ensures out.hover == hover
    ensures |out.effects| <= 1
    ensures forall e :: e in out.effects ==>
      e.ClickCallback? && e.cellId >= 0 && InCell(e.cellId, Relative(client, canvasOrigin))
    ensures out.effects == [] <==> !r.opts.hasClickCallback || HitTest(Relative(client, canvasOrigin)).None?
  {
    var hit := HitTest(Relative(client, canvasOrigin));
    if hit.None? || !r.opts.hasClickCallback then
      Reaction(hover, [])
    else
      Reaction(hover, [ClickCallback(hit.value)])
  }

  /** Dispatches one event. */
  function Dispatch(r: Renderer, hover: Option<int>, e: Event): Reaction {
    match e
    case Move(client, origin) => OnMove(r, hover, client, origin)
    case Leave => OnLeave(r, hover)
    case Click(client, origin) => OnClick(r, hover, client, origin)
  }

  /** Handles the events in order, each to completion before the next,
      collecting their effects. */
  function Run(r: Renderer, hover: Option<int>, events: seq<Event>): Reaction
    decreases |events|
  {
    if |events| == 0 then
      Reaction(hover, [])
    else
      var first := Dispatch(r, hover, events[0]);
      var rest := Run(r, first.hover, events[1..]);
      Reaction(rest.hover, first.effects + rest.effects)
  }

  /** A hover state names a cell number the hit test can produce, or nothing. */
  predicate ValidHover(hover: Option<int>) {
    hover.Some? ==> hover.value >= 0
  }

  /** Any sequence of events keeps the hover state valid. */
  lemma {:induction false} RunKeepsHoverValid(r: Renderer, hover: Option<int>, events: seq<Event>)
    requires ValidHover(hover)
    ensures ValidHover(Run(r, hover, events).hover)
    decreases |events|
  {
    if |events| > 0 {
      var first := Dispatch(r, hover, events[0]);
      RunKeepsHoverValid(r, first.hover, events[1..]);
    }
  }

  /** Clicks alone never change the hover state and never redraw. */
  lemma {:induction false} ClicksKeepHover(r: Renderer, hover: Option<int>, events: seq<Event>)
    requires forall i :: 0 <= i < |events| ==> events[i].Click?
    ensures Run(r, hover, events).hover == hover
    ensures forall e :: e in Run(r, hover, events).effects ==> e.ClickCallback?
    decreases |events|
  {
    if |events| > 0 {
      ClicksKeepHover(r, hover, events[1..]);
    }
  }

  /** Number of redraws among some effects. */
  function Redraws(effects: seq<Effect>): nat {
    if |effects| == 0 then 0
    else (if effects[0].Redraw? then 1 else 0) + Redraws(effects[1..])
  }

  lemma {:induction false} RedrawsAppend(a: seq<Effect>, b: seq<Effect>)
    ensures Redraws(a + b) == Redraws(a) + Redraws(b)
  {
    if |a| == 0 {
      assert a + b == b;
    } else {
      assert (a + b)[1..] == a[1..] + b;
      RedrawsAppend(a[1..], b);
    }
  }

  /** A single event redraws at most once; a click never does. */
  lemma StepRedrawsAtMostOnce(r: Renderer, hover: Option<int>, e: Event)
    ensures Redraws(Dispatch(r, hover, e).effects) <= (if e.Click? then 0 else 1)
  {
    var fx := Dispatch(r, hover, e).effects;
    if |fx| == 2 {
      assert fx[1].HoverCallback?;
      assert fx[1..] == [fx[1]];
      assert Redraws(fx[1..]) == 0;
    } else if |fx| == 1 {
      assert fx[1..] == [];
    }
  }

  /** Every event redraws at most once, so a run redraws at most once per event. */
  lemma {:induction false} AtMostOneRedrawPerEvent(r: Renderer, hover: Option<int>, events: seq<Event>)
    ensures Redraws(Run(r, hover, events).effects) <= |events|
    decreases |events|
  {
    if |events| > 0 {
      var first := Dispatch(r, hover, events[0]);
      AtMostOneRedrawPerEvent(r, first.hover, events[1..]);
      RedrawsAppend(first.effects, Run(r, first.hover, events[1..]).effects);
      StepRedrawsAtMostOnce(r, hover, events[0]);
    }
  }

  /** Hover round trip: moving into the top half of cell `id`'s tile makes it
      the hover state; leaving then clears the state and redraws a frame
      with no hover diamond. */
  lemma HoverRoundTrip(r: Renderer, hover: Option<int>, id: int, dx: real, dy: real, canvasOrigin: Point)
    requires id >= 0
    requires 0.0 <= dx < CELL_WIDTH && 0.0 <= dy < CELL_HALF_HEIGHT
    ensures var client := Point(canvasOrigin.x + Origin(id).x + dx, canvasOrigin.y + Origin(id).y + dy);
      var moved := Dispatch(r, hover, Move(client, canvasOrigin));
      var left := Dispatch(r, moved.hover, Leave);
      && moved.hover == Some(id)
      && left.hover.None?
      && left.effects[0] == Redrawn(r, None)
      && (left.effects[0].frame.Success? ==>
          forall cmd :: cmd in left.effects[0].frame.value && cmd.Sprite? ==> cmd.layer != HoverDiamond)
  {
    var client := Point(canvasOrigin.x + Origin(id).x + dx, canvasOrigin.y + Origin(id).y + dy);
    assert Relative(client, canvasOrigin) == Point(Origin(id).x + dx, Origin(id).y + dy);
    HitTestRoundTrip(id, dx, dy);
  }
}
