/** Abstract draw commands: a frame is the list of commands a render issues
    on the 2D context, in order, instead of the pixels they produce. */
module Draw {
  import opened Layout
  import opened Grid

  datatype Rect = Rect(x: real, y: real, w: real, h: real)

  /** The sprites the compositors place. `HoverDiamond` is the orange diamond
      path filled inside a cell's tile rectangle. */
  datatype Layer = HoverDiamond | GrayTile | PurpleTile | High | Ally | Enemy | Pnj | Logo

  datatype Cmd =
    | Clear(area: Rect)                               // clearRect
    | FillBlack(area: Rect)                           // black fillRect
    | Sprite(layer: Layer, at: Rect, alpha: real)     // drawImage, or the diamond path
    | Label(cellId: int, center: Point)               // white 12px centred fillText

  /** The whole drawing surface. */
  const Canvas: Rect := Rect(0.0, 0.0, WIDTH, HEIGHT)

  /** The default `globalAlpha`. */
  const OPAQUE: real := 1.0

  /** Distance between either variant's watermark and the right and bottom
      edges of the surface. */
  const WATERMARK_MARGIN: real := 10.0

  /** Rectangle of a cell's floor tile and of its hover diamond. */
  function TileRect(o: Point): Rect {
    Rect(o.x, o.y, CELL_WIDTH, CELL_HEIGHT)
  }

  /** Rectangle shared by the tall overlays (high ground and the markers):
      shifted up by the cell offset, a full cell width wide and twice the
      cell height tall, so it starts above the cell origin and overlaps the
      rows above. */
  function OverlayRect(o: Point): (r: Rect)
    ensures r.x == o.x && r.w == CELL_WIDTH
    ensures r.y < o.y && r.y == o.y - 16.5
    ensures r.y + r.h == o.y + 69.5
  {
    Rect(o.x, o.y + CELL_OFFSET, CELL_WIDTH, CELL_DOUBLE_HEIGHT)
  }

  /** Centre of a cell's tile rectangle, where its number is printed. */
  function LabelCenter(o: Point): Point {
    Point(o.x + CELL_WIDTH / 2.0, o.y + CELL_HEIGHT / 2.0)
  }

  /** Layers whose drawing sets the compositor's `drawn` flag, which gates
      the cell-number label. The high-ground sprite and the logo do not. */
  predicate SetsDrawn(l: Layer) {
    l != High && l != Logo
  }

  /** Per-cell z-order: later ranks are drawn over earlier ones. The hover
      diamond and the two tiles share a rank, so a cell has at most one of them. */
  function Rank(c: Cmd): int {
    match c
    case Clear(_) => 0
    case FillBlack(_) => 1
    case Sprite(l, _, _) => LayerRank(l)
    case Label(_, _) => 8
  }

  function LayerRank(l: Layer): int {
    match l
    case HoverDiamond => 2
    case GrayTile => 2
    case PurpleTile => 2
    case High => 3
    case Ally => 4
    case Enemy => 5
    case Pnj => 6
    case Logo => 7
  }

  /** Commands in strictly increasing rank: fixed z-order, each rank at most once. */
  predicate InZOrder(cmds: seq<Cmd>) {
    forall i, j :: 0 <= i < j < |cmds| ==> Rank(cmds[i]) < Rank(cmds[j])
  }

  /** A cell command sits where its layer belongs for the cell at `o`: tiles
      and the diamond on the tile rectangle, overlays on the overlay
      rectangle, all opaque, and the label at the tile centre. The logo is
      placed by the frame, not by the cell. */
  predicate PlacedAt(c: Cmd, id: int) {
    var o := Origin(id);
    match c
    case Clear(_) => false
    case FillBlack(_) => false
    case Sprite(l, at, alpha) =>
      l == Logo || (alpha == OPAQUE &&
        if l in {HoverDiamond, GrayTile, PurpleTile} then at == TileRect(o) else at == OverlayRect(o))
    case Label(n, p) => n == id && p == LabelCenter(o)
  }

  /** Number of sprites of layer `l` in a command list. */
  function Count(cmds: seq<Cmd>, l: Layer): nat {
    if |cmds| == 0 then 0
    else (if cmds[0].Sprite? && cmds[0].layer == l then 1 else 0) + Count(cmds[1..], l)
  }

  /** Counting distributes over concatenation. */
  lemma {:induction false} CountAppend(a: seq<Cmd>, b: seq<Cmd>, l: Layer)
    ensures Count(a + b, l) == Count(a, l) + Count(b, l)
  {
    if |a| == 0 {
      assert a + b == b;
    } else {
      assert (a + b)[1..] == a[1..] + b;
      CountAppend(a[1..], b, l);
    }
  }

  /** A layer is counted exactly when one of its sprites is present. */
  lemma {:induction false} CountZero(cmds: seq<Cmd>, l: Layer)
    ensures Count(cmds, l) == 0 <==> forall c :: c in cmds ==> !(c.Sprite? && c.layer == l)
  {
    if |cmds| > 0 {
      CountZero(cmds[1..], l);
      assert forall c :: c in cmds <==> c == cmds[0] || c in cmds[1..];
    }
  }

  /** In a z-ordered list every layer occurs at most once. */
  lemma {:induction false} CountInZOrder(cmds: seq<Cmd>, l: Layer)
    requires InZOrder(cmds)
    ensures Count(cmds, l) <= 1
  {
    if |cmds| > 0 {
      CountInZOrder(cmds[1..], l);
      if cmds[0].Sprite? && cmds[0].layer == l {
        CountZero(cmds[1..], l);
        forall c | c in cmds[1..]
          ensures !(c.Sprite? && c.layer == l)
        {
          var j :| 0 <= j < |cmds[1..]| && cmds[1..][j] == c;
          assert Rank(cmds[0]) < Rank(cmds[j + 1]);
        }
      }
    }
  }

  /** A candidate command of a cell together with the condition under which
      the compositor issues it. */
  datatype Step = Step(show: bool, cmd: Cmd)

  /** The commands of the steps whose condition holds, in step order. */
  function Emit(steps: seq<Step>): seq<Cmd> {
    if |steps| == 0 then []
    else (if steps[0].show then [steps[0].cmd] else []) + Emit(steps[1..])
  }

  /** Candidate commands listed in strictly increasing rank. */
  predicate StepsInZOrder(steps: seq<Step>) {
    forall i, j :: 0 <= i < j < |steps| ==> Rank(steps[i].cmd) < Rank(steps[j].cmd)
  }

  /** Everything emitted is an enabled candidate, of rank at least the first
      candidate's. */
  lemma {:induction false} EmitOnly(steps: seq<Step>, x: Cmd)
    requires x in Emit(steps)
    ensures exists i :: 0 <= i < |steps| && steps[i].show && steps[i].cmd == x
  {
    if steps[0].show && x == steps[0].cmd {
      assert steps[0].show && steps[0].cmd == x;
    } else {
      EmitOnly(steps[1..], x);
      var i :| 0 <= i < |steps[1..]| && steps[1..][i].show && steps[1..][i].cmd == x;
      assert steps[i + 1].show && steps[i + 1].cmd == x;
    }
  }

  /** Filtering candidates that are in z-order keeps them in z-order. */
  lemma {:induction false} EmitZOrder(steps: seq<Step>)
    requires StepsInZOrder(steps)
    ensures InZOrder(Emit(steps))
  {
    if |steps| > 0 {
      var tail := steps[1..];
      assert StepsInZOrder(tail) by {
        forall i, j | 0 <= i < j < |tail|
          ensures Rank(tail[i].cmd) < Rank(tail[j].cmd)
        {
          assert tail[i] == steps[i + 1] && tail[j] == steps[j + 1];
        }
      }
      EmitZOrder(tail);
      var rest := Emit(tail);
      if steps[0].show {
        var all := [steps[0].cmd] + rest;
        forall i, j | 0 <= i < j < |all|
          ensures Rank(all[i]) < Rank(all[j])
        {
          if i == 0 {
            assert all[j] in rest;
            EmitOnly(tail, all[j]);
            var k :| 0 <= k < |tail| && tail[k].show && tail[k].cmd == all[j];
            assert tail[k] == steps[k + 1];
          } else {
            assert all[i] == rest[i - 1] && all[j] == rest[j - 1];
          }
        }
      } else {
        assert Emit(steps) == rest;
      }
    }
  }

  /** With candidates in z-order, a candidate appears in the output exactly
      when its condition holds. */
  lemma EmitShows(steps: seq<Step>, k: int)
    requires StepsInZOrder(steps)
    requires 0 <= k < |steps|
    ensures steps[k].cmd in Emit(steps) <==> steps[k].show
  {
    if steps[k].cmd in Emit(steps) {
      EmitOnly(steps, steps[k].cmd);
      var i :| 0 <= i < |steps| && steps[i].show && steps[i].cmd == steps[k].cmd;
      assert i == k;
    }
    if steps[k].show {
      EmitKeeps(steps, k);
    }
  }

  /** An enabled candidate is emitted. */
  lemma {:induction false} EmitKeeps(steps: seq<Step>, k: int)
    requires 0 <= k < |steps| && steps[k].show
    ensures steps[k].cmd in Emit(steps)
  {
    if k > 0 {
      EmitKeeps(steps[1..], k - 1);
    }
  }

  /** With candidates in z-order, an emitted command of the same rank as
      candidate `k` is that candidate. */
  lemma EmitRank(steps: seq<Step>, k: int)
    requires StepsInZOrder(steps)
    requires 0 <= k < |steps|
    ensures forall x :: x in Emit(steps) && Rank(x) == Rank(steps[k].cmd) ==> x == steps[k].cmd && steps[k].show
  {
    forall x | x in Emit(steps) && Rank(x) == Rank(steps[k].cmd)
      ensures x == steps[k].cmd && steps[k].show
    {
      EmitOnly(steps, x);
      var i :| 0 <= i < |steps| && steps[i].show && steps[i].cmd == x;
      assert i == k;
    }
  }

  /** The tail of a z-ordered list is the list without its first element,
      as a set of members too: the first element occurs only once. */
  lemma InZOrderTail(s: seq<Cmd>, x: Cmd)
    requires InZOrder(s) && |s| > 0
    ensures x in s[1..] <==> x in s && x != s[0]
  {
    if x in s[1..] {
      var k :| 0 <= k < |s[1..]| && s[1..][k] == x;
      assert Rank(s[0]) < Rank(s[k + 1]);
    }
    if x in s && x != s[0] {
      var k :| 0 <= k < |s| && s[k] == x;
      assert s[1..][k - 1] == x;
    }
  }

  /** Two z-ordered lists with the same members are equal. */
  lemma {:induction false} InZOrderUnique(a: seq<Cmd>, b: seq<Cmd>)
    requires InZOrder(a) && InZOrder(b)
    requires forall x :: x in a <==> x in b
    ensures a == b
  {
    if |a| > 0 {
      assert a[0] in b;
    }
    if |b| > 0 {
      assert b[0] in a;
    }
    if |a| > 0 {
      // Each first element is the other list's member of least rank.
      var i :| 0 <= i < |b| && b[i] == a[0];
      var j :| 0 <= j < |a| && a[j] == b[0];
      assert i == 0;
      forall x
        ensures x in a[1..] <==> x in b[1..]
      {
        InZOrderTail(a, x);
        InZOrderTail(b, x);
      }
      InZOrderUnique(a[1..], b[1..]);
      assert a == [a[0]] + a[1..];
      assert b == [b[0]] + b[1..];
    }
  }

  /** Every candidate is placed for cell `id` and drawn from the layers `ls`. */
  predicate CandidatesFor(steps: seq<Step>, id: int, ls: set<Layer>) {
    forall i :: 0 <= i < |steps| ==> FitsCell(steps[i].cmd, id, ls)
  }

  predicate FitsCell(c: Cmd, id: int, ls: set<Layer>) {
    PlacedAt(c, id) && (c.Sprite? ==> c.layer in ls)
  }

  /** Whatever is emitted is one of the candidates, so it fits the cell too. */
  lemma EmitFits(steps: seq<Step>, id: int, ls: set<Layer>)
    requires CandidatesFor(steps, id, ls)
    ensures forall x :: x in Emit(steps) ==> FitsCell(x, id, ls)
  {
    forall x | x in Emit(steps)
      ensures FitsCell(x, id, ls)
    {
      EmitOnly(steps, x);
    }
  }
}
