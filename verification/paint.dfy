/** The brush and the eraser: a single cell painted at an integer coordinate. */
module Paint {
  import opened GridStore

  datatype Tool = Brush | Eraser | Fill

  /** The colour a stroke lays down: the eraser always restores the
      background, every other tool uses the current colour. */
  function Ink(tool: Tool, color: Color): Color {
    if tool == Eraser then Background else color
  }

  /** Paints cell (x, y). A coordinate off the canvas is ignored; otherwise
      exactly the cell at y * width + x takes the tool's ink. */
  function PaintAt(g: Grid, res: Resolution, x: int, y: int, tool: Tool, color: Color): (r: Grid)
    requires |g| == Size(res)
    ensures |r| == |g|
    ensures !InBounds(res, x, y) ==> r == g
    ensures InBounds(res, x, y) ==>
              && 0 <= IndexOf(res, x, y) < |g|
              && r[IndexOf(res, x, y)] == Ink(tool, color)
              && forall i :: 0 <= i < |g| && i != IndexOf(res, x, y) ==> r[i] == g[i]
  {
    if !InBounds(res, x, y) then g
    else
      IndexInRange(res, x, y);
      g[IndexOf(res, x, y) := Ink(tool, color)]
  }

  /** Seen through coordinates: painting (x, y) recolours that cell and leaves
      every other in-bounds coordinate as it was. */
  lemma PaintOnlyThatCell(g: Grid, res: Resolution, x: int, y: int, tool: Tool, color: Color, x2: int, y2: int)
    requires |g| == Size(res)
    requires InBounds(res, x, y) && InBounds(res, x2, y2)
    ensures 0 <= IndexOf(res, x2, y2) < |g|
    ensures PaintAt(g, res, x, y, tool, color)[IndexOf(res, x2, y2)]
            == if x2 == x && y2 == y then Ink(tool, color) else g[IndexOf(res, x2, y2)]
  {
    IndexInRange(res, x2, y2);
    if IndexOf(res, x2, y2) == IndexOf(res, x, y) {
      IndexInjective(res, x, y, x2, y2);
    }
  }
}
