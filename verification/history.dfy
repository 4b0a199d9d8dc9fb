/** The editor's state and its event handlers, each one a separate transition:
    resolution change, undo, redo, stroke start, brush/eraser move, stroke
    end, and a flood-fill click. History entries are full grid snapshots. */
module History {
  import opened GridStore
  import opened Paint
  import opened FloodFill

  /** grid is the canvas; undo and redo are snapshot stacks whose top is the
      last element; drawing is the stroke-in-progress flag and lastDrawn the
      snapshot taken when the stroke began. */
  datatype Editor = Editor(
    res: Resolution,
    grid: Grid,
    undo: seq<Grid>,
    redo: seq<Grid>,
    drawing: bool,
    lastDrawn: Grid)

  /** Every grid the editor holds or can restore fits the current resolution. */
  predicate Valid(e: Editor) {
    && Positive(e.res)
    && |e.grid| == Size(e.res)
    && (forall k :: 0 <= k < |e.undo| ==> |e.undo[k]| == Size(e.res))
    && (forall k :: 0 <= k < |e.redo| ==> |e.redo[k]| == Size(e.res))
    && (e.drawing ==> |e.lastDrawn| == Size(e.res))
  }

  /** The state on mount: the default resolution, a blank canvas, no history,
      no stroke, and an empty stroke snapshot. */
  function Mount(): (e: Editor)
    ensures Valid(e)
    ensures e.res == DefaultResolution && e.res.width == 32 && e.res.height == 32
    ensures |e.grid| == Size(DefaultResolution)
    ensures forall i :: 0 <= i < |e.grid| ==> e.grid[i] == Background
    ensures e.undo == [] && e.redo == [] && !e.drawing
  {
    Editor(DefaultResolution, Blank(DefaultResolution), [], [], false, [])
  }

  /** Switching resolution discards the canvas and all history. */
  function ChangeResolution(e: Editor, newRes: Resolution): (r: Editor)
    requires newRes in Resolutions
    ensures r.res == newRes
    ensures |r.grid| == newRes.width * newRes.height
    ensures forall i :: 0 <= i < |r.grid| ==> r.grid[i] == Background
    ensures r.undo == [] && r.redo == []
    ensures r.drawing == e.drawing && r.lastDrawn == e.lastDrawn
    ensures !e.drawing ==> Valid(r)
  {
    e.(res := newRes, grid := Blank(newRes), undo := [], redo := [])
  }

  /** A resolution change in the middle of a stroke keeps the old-size stroke
      snapshot, so ending the stroke records it and an undo then installs a
      grid that does not fit the new resolution. */
  lemma MidStrokeResolutionChangeBreaksUndo(e: Editor, newRes: Resolution)
    requires Valid(e) && e.drawing && newRes in Resolutions && Size(newRes) != Size(e.res)
    ensures var s := Undo(EndStroke(ChangeResolution(e, newRes)));
            s.res == newRes && |s.grid| != Size(s.res) && !Valid(s)
  {
    var c := ChangeResolution(e, newRes);
    assert |c.lastDrawn| != |c.grid|;
  }

  /** The resolution change with the stroke snapshot reset to the new blank
      canvas, so that every snapshot the editor holds fits the new size. */
  function ChangeResolutionResettingStroke(e: Editor, newRes: Resolution): (r: Editor)
    requires newRes in Resolutions
    ensures r.res == newRes
    ensures |r.grid| == newRes.width * newRes.height
    ensures forall i :: 0 <= i < |r.grid| ==> r.grid[i] == Background
    ensures r.undo == [] && r.redo == [] && r.drawing == e.drawing
    ensures Valid(r)
  {
    e.(res := newRes, grid := Blank(newRes), undo := [], redo := [], lastDrawn := Blank(newRes))
  }

  /** With the reset snapshot, ending a stroke begun before the change and then
      undoing keeps every grid at the new size. */
  lemma MidStrokeResolutionChangeKeepsValid(e: Editor, newRes: Resolution)
    requires e.drawing && newRes in Resolutions
    ensures var s := Undo(EndStroke(ChangeResolutionResettingStroke(e, newRes)));
            s.res == newRes && Valid(s)
  {
    var c := ChangeResolutionResettingStroke(e, newRes);
    assert Valid(EndStroke(c));
  }

  /** Steps back to the most recent snapshot, saving the current grid for redo. */
  function Undo(e: Editor): (r: Editor)
    ensures |e.undo| == 0 ==> r == e
    ensures |e.undo| > 0 ==>
              && r.grid == e.undo[|e.undo| - 1]
              && r.undo + [e.undo[|e.undo| - 1]] == e.undo
              && r.redo == e.redo + [e.grid]
    ensures |r.undo| + |r.redo| == |e.undo| + |e.redo|
    ensures r.res == e.res && r.drawing == e.drawing && r.lastDrawn == e.lastDrawn
    ensures Valid(e) ==> Valid(r)
  {
    if |e.undo| == 0 then e
    else
      var n := |e.undo| - 1;
      assert e.undo[..n] + [e.undo[n]] == e.undo;
      e.(grid := e.undo[n], undo := e.undo[..n], redo := e.redo + [e.grid])
  }

  /** Steps forward to the most recently undone snapshot, saving the current
      grid for undo. */
  function Redo(e: Editor): (r: Editor)
    ensures |e.redo| == 0 ==> r == e
    ensures |e.redo| > 0 ==>
              && r.grid == e.redo[|e.redo| - 1]
              && r.redo + [e.redo[|e.redo| - 1]] == e.redo
              && r.undo == e.undo + [e.grid]
    ensures |r.undo| + |r.redo| == |e.undo| + |e.redo|
    ensures r.res == e.res && r.drawing == e.drawing && r.lastDrawn == e.lastDrawn
    ensures Valid(e) ==> Valid(r)
  {
    if |e.redo| == 0 then e
    else
      var n := |e.redo| - 1;
      assert e.redo[..n] + [e.redo[n]] == e.redo;
      e.(grid := e.redo[n], redo := e.redo[..n], undo := e.undo + [e.grid])
  }

  /** Undo then redo puts the grid and both stacks back exactly. */
  lemma UndoThenRedo(e: Editor)
    requires |e.undo| > 0
    ensures Redo(Undo(e)) == e
  {
    var u := Undo(e);
    assert u.redo[..|u.redo| - 1] == e.redo;
  }

  /** Redo then undo puts the grid and both stacks back exactly. */
  lemma RedoThenUndo(e: Editor)
    requires |e.redo| > 0
    ensures Undo(Redo(e)) == e
  {
    var r := Redo(e);
    assert r.undo[..|r.undo| - 1] == e.undo;
  }

  /** Mouse down with the brush or eraser: a stroke begins and the grid as it
      stands is kept to compare against when the stroke ends. */
  function BeginStroke(e: Editor): (r: Editor)
    ensures r.drawing && r.lastDrawn == e.grid
    ensures r.grid == e.grid && r.undo == e.undo && r.redo == e.redo && r.res == e.res
    ensures Valid(e) ==> Valid(r)
  {
    e.(drawing := true, lastDrawn := e.grid)
  }

  /** Mouse move: paints cell (x, y) while a stroke is in progress; history is
      not touched until the stroke ends. */
  function Draw(e: Editor, x: int, y: int, tool: Tool, color: Color): (r: Editor)
    requires |e.grid| == Size(e.res)
    ensures !e.drawing ==> r == e
    ensures e.drawing ==> r == e.(grid := PaintAt(e.grid, e.res, x, y, tool, color))
    ensures Valid(e) ==> Valid(r)
  {
    if !e.drawing then e
    else e.(grid := PaintAt(e.grid, e.res, x, y, tool, color))
  }

  /** Mouse up or leave: ends the stroke and records the pre-stroke snapshot
      only when the stroke changed some cell; a recorded stroke clears redo. */
  function EndStroke(e: Editor): (r: Editor)
    ensures !e.drawing ==> r == e
    ensures e.drawing ==> !r.drawing && r.grid == e.grid && r.res == e.res
    ensures e.drawing && e.lastDrawn != e.grid ==> r.undo == e.undo + [e.lastDrawn] && r.redo == []
    ensures e.drawing && e.lastDrawn == e.grid ==> r.undo == e.undo && r.redo == e.redo
    ensures Valid(e) ==> Valid(r)
  {
    if !e.drawing then e
    else if e.lastDrawn != e.grid then e.(drawing := false, undo := e.undo + [e.lastDrawn], redo := [])
    else e.(drawing := false)
  }

  /** A stroke that paints one cell a new colour is recorded as one undo entry;
      undo then restores the pre-stroke grid and redo replays the stroke. */
  lemma StrokeUndoRedo(e: Editor, x: int, y: int, tool: Tool, color: Color)
    requires Valid(e) && InBounds(e.res, x, y)
    requires 0 <= IndexOf(e.res, x, y) < |e.grid| && e.grid[IndexOf(e.res, x, y)] != Ink(tool, color)
    ensures var s := EndStroke(Draw(BeginStroke(e), x, y, tool, color));
            && s.undo == e.undo + [e.grid]
            && s.redo == []
            && s.grid[IndexOf(e.res, x, y)] == Ink(tool, color)
            && Undo(s).grid == e.grid
            && Redo(Undo(s)) == s
  {
    var d := Draw(BeginStroke(e), x, y, tool, color);
    assert d.grid[IndexOf(e.res, x, y)] != e.grid[IndexOf(e.res, x, y)];
    var s := EndStroke(d);
    UndoThenRedo(s);
  }

  /** A stroke whose only move is off the canvas ends without a history entry. */
  lemma OffCanvasStrokeRecordsNothing(e: Editor, x: int, y: int, tool: Tool, color: Color)
    requires Valid(e) && !InBounds(e.res, x, y)
    ensures var s := EndStroke(Draw(BeginStroke(e), x, y, tool, color));
            s.grid == e.grid && s.undo == e.undo && s.redo == e.redo && !s.drawing
  {
  }

  /** A click with the fill tool at cell (x, y): off the canvas nothing
      happens; a click whose colour already matches nothing happens either;
      otherwise the clicked cell's region takes the colour, the pre-fill grid
      is pushed for undo and redo is cleared. */
  method FillAt(e: Editor, x: int, y: int, color: Color) returns (r: Editor)
    requires Valid(e)
    ensures !InBounds(e.res, x, y) ==> r == e
    ensures InBounds(e.res, x, y) ==>
              var i := IndexOf(e.res, x, y);
              && 0 <= i < |e.grid| == |r.grid|
              && r.grid[i] == color
              && (e.grid[i] == color ==> r == e)
              && (e.grid[i] != color ==>
                    r == e.(grid := FillResult(e.grid, e.res, i, color), undo := e.undo + [e.grid], redo := []))
    ensures Valid(r)
  {
    if !InBounds(e.res, x, y) {
      return e;
    }
    var index := IndexOf(e.res, x, y);
    IndexInRange(e.res, x, y);
    var target := e.grid[index];
    if target == color {
      return e;
    }
    var filled := FillRegion(e.grid, e.res, index, target, color);
    assert filled == FillResult(e.grid, e.res, index, color);
    r := e.(grid := filled, undo := e.undo + [e.grid], redo := []);
  }
}
