# Pixel editor core, modelled in Dafny

This project models the editing logic of a browser pixel-art editor. The
whole editor is one React component, `Home` in `app/page.tsx`. The model
keeps the parts of that component that are sequential logic over the grid:

- **Grid store** (`grid.dfy`, module `GridStore`). The canvas is a flat
  sequence of colours of length `width * height`. Cell (x, y) lives at index
  `y * width + x`, and index i is the cell `(i % width, i / width)`. Colours
  are the CSS hex strings of the colour picker and are only compared for
  equality. `#1a1a1a` is the background.
- **Painting** (`paint.dfy`, module `Paint`). The brush and eraser paint one
  cell at an integer coordinate. An off-canvas coordinate is ignored.
- **Flood fill** (`floodfill.dfy`, module `FloodFill`). A 4-connected fill
  driven by an explicit stack, as an imperative method with loop invariants.
  Its result is proved to be exactly the region of target-coloured cells
  reachable from the start cell.
- **History** (`history.dfy`, module `History`). The editor state is the
  resolution, the grid, the undo and redo stacks of full snapshots, the
  stroke-in-progress flag and the pre-stroke snapshot. Each event handler is
  a separate transition: resolution change, undo, redo, stroke start,
  brush/eraser move, stroke end, and a fill click.
- **Export** (`export.dfy`, module `Export`). The crop box of the PNG export
  and the image size in pixels.

`History.Valid` is the state invariant: the resolution is positive, and the
grid and every snapshot the editor can restore fit it. `Mount` establishes
it. Undo, redo, stroke start, move, stroke end and fill preserve it.
A resolution change re-establishes it when no stroke is in progress. The
stroke snapshot is not reset on a resolution change, so a change in the
middle of a stroke would leave a snapshot of the old size. "## Findings"
shows the consequence and proves the corrected change, which also resets
the snapshot, keeps the invariant.

The flood fill keeps ghost provenance next to its stack. Each stacked
index remembers the recoloured cell that pushed it, and each recoloured
cell has a walk from the start cell. These witnesses prove that every
recoloured cell is reachable. The frontier invariant proves the converse:
a target-coloured cell next to a recoloured one is still on the stack.
The loop terminates by the lexicographic measure (number of target-coloured
cells, stack length).

A fill records history only when it changes something. When the clicked
cell already has the chosen colour, the fill returns before taking a
snapshot: app/page.tsx:89 returns before lines 109-112 push one.

## Model

| member | source | states |
|---|---|---|
| GridStore.Blank | app/page.tsx:31 | a new canvas has exactly width * height cells, all of them background |
| GridStore.IndexInRange | app/page.tsx:80-82 | an in-bounds coordinate's index y * width + x lies in [0, width * height) |
| GridStore.CoordRoundTrip | app/page.tsx:100-101 | decoding the index of an in-bounds (x, y) with % and floor division gives back x and y |
| GridStore.IndexRoundTrip | app/page.tsx:138-141 | every cell index decodes to an in-bounds coordinate whose index is that cell |
| GridStore.IndexInjective | app/page.tsx:82 | distinct in-bounds coordinates address distinct cells |
| GridStore.Neighbours | app/page.tsx:100-106 | the indices pushed after recolouring cell i, in the source's order left, right, up, down, each behind the same column or row check; what they are is stated by GridStore.NeighboursAdjacent and GridStore.NeighboursExact |
| GridStore.NeighboursAdjacent | app/page.tsx:103-106 | every index pushed after recolouring a cell is a 4-neighbour of it inside the grid, so no push wraps round a row edge |
| GridStore.NeighboursExact | app/page.tsx:100-106 | the column and row checks push exactly the in-bounds 4-neighbours of the cell, no more and no fewer |
| GridStore.CountOfRecolour | app/page.tsx:96-98 | recolouring one target-coloured cell lowers the number of target-coloured cells by exactly one, which bounds the fill loop |
| Paint.PaintAt | app/page.tsx:80-85 | off the canvas the grid is unchanged; otherwise the length is kept, the addressed cell takes background for the eraser or the current colour, and every other cell is unchanged |
| Paint.PaintOnlyThatCell | app/page.tsx:82-84 | seen through coordinates, painting (x, y) changes that coordinate only and no other in-bounds coordinate |
| FloodFill.FillRegion | app/page.tsx:88-107 | the length is kept; equal target and replacement leaves the grid unchanged; each cell keeps its colour or went from target to replacement; the start cell ends as the replacement; no recoloured cell has a target-coloured 4-neighbour left; a cell is recoloured exactly when it is 4-connected to the start through target-coloured cells |
| FloodFill.SkipStep | app/page.tsx:95-96 | popping an index whose cell no longer has the target colour keeps every loop invariant |
| FloodFill.RecolourStep | app/page.tsx:95-106 | recolouring a popped target cell and pushing its neighbours keeps every loop invariant, with every pushed index inside the grid |
| FloodFill.PathRecoloured | app/page.tsx:98-106 | if the fill recoloured the start of a target-coloured walk and leaves no target cell beside a recoloured one, it recoloured the whole walk |
| FloodFill.FillDone | app/page.tsx:94-107 | when the stack is empty the recoloured cells are exactly the start cell's region |
| FloodFill.FillIdempotent | app/page.tsx:88-89 | after a fill the clicked cell has the replacement colour, so a second fill there with the same colour changes nothing |
| FloodFill.FillUniform | app/page.tsx:94-106 | filling a single-colour canvas from any cell recolours every cell |
| History.Mount | app/page.tsx:18-26 | the editor starts valid at the 32x32 default resolution, with every cell background, empty undo and redo stacks and no stroke in progress |
| History.ChangeResolution | app/page.tsx:29-34 | a resolution change yields width * height background cells and two empty stacks whatever the prior state |
| History.MidStrokeResolutionChangeBreaksUndo | app/page.tsx:29-34 | from a valid state in mid-stroke, changing to a resolution of another size, ending the stroke and undoing leaves a grid whose length does not fit the resolution |
| History.ChangeResolutionResettingStroke | app/page.tsx:29-34 | the resolution change with the stroke snapshot also reset to the new blank canvas yields a valid editor from any prior state |
| History.MidStrokeResolutionChangeKeepsValid | app/page.tsx:29-69 | with the reset snapshot, a change in mid-stroke followed by stroke end and undo keeps every grid at the new size |
| History.Undo | app/page.tsx:36-42 | with no undo entry nothing changes; otherwise the grid becomes the popped top and the old grid goes on the redo stack; the total number of entries is kept |
| History.Redo | app/page.tsx:44-50 | with no redo entry nothing changes; otherwise the grid becomes the popped top and the old grid goes on the undo stack; the total number of entries is kept |
| History.UndoThenRedo | app/page.tsx:36-50 | undo followed by redo restores the grid and both stacks exactly |
| History.RedoThenUndo | app/page.tsx:36-50 | redo followed by undo restores the grid and both stacks exactly |
| History.BeginStroke | app/page.tsx:53-54 | starting a stroke snapshots the current grid and leaves grid and history alone |
| History.Draw | app/page.tsx:71-85 | a move outside a stroke does nothing; inside a stroke it paints one cell and leaves history alone |
| History.EndStroke | app/page.tsx:62-69 | outside a stroke nothing changes; a stroke that changed the grid pushes the pre-stroke snapshot and clears redo; an unchanged grid leaves both stacks alone |
| History.StrokeUndoRedo | app/page.tsx:52-69 | a stroke that changes one cell adds one undo entry and clears redo; undo restores the pre-stroke grid and redo replays the stroke exactly |
| History.OffCanvasStrokeRecordsNothing | app/page.tsx:62-84 | a stroke whose move lies off the canvas changes neither the grid nor the stacks |
| History.FillAt | app/page.tsx:109-128 | off the canvas, or when the clicked cell already has the colour, nothing changes; otherwise the clicked cell's region takes the colour, the pre-fill grid is pushed for undo and redo is cleared |
| Export.PaintedStep | app/page.tsx:138-147 | widening the box around a painted cell keeps it enclosing every painted cell seen so far, each side touching one of them |
| Export.ScanDone | app/page.tsx:149-154 | after the pass the box is still inverted exactly when every cell is background; otherwise it lies in the canvas, encloses every painted cell and each side touches one |
| Export.BoundingBox | app/page.tsx:136-154 | with some painted cell the box contains every painted cell and each bound is reached by one; with none it is the whole canvas; either way 0 <= minX <= maxX < width and 0 <= minY <= maxY < height |
| Export.ExportSize | app/page.tsx:136-161 | the image is (maxX - minX + 1) * 10 by (maxY - minY + 1) * 10 pixels, at least one cell and at most the whole canvas in each direction |

## Findings

| source | as written | input that shows it | evidently intended | confidence | as-written member | corrected member |
|---|---|---|---|---|---|---|
| app/page.tsx:29-34 | a resolution change resets the grid and both stacks but not the stroke snapshot `lastDrawnGrid` | hold the mouse on the 32x32 canvas, change the resolution selector to 16x16 from the keyboard, release the mouse, then undo: the undo stack holds the 1024-cell snapshot and undo installs it under a 16x16 resolution | the snapshot is reset with the grid, so every grid the editor holds fits the resolution | low, not executed; needs the selector changed while the mouse button is held on the canvas | History.MidStrokeResolutionChangeBreaksUndo | History.ChangeResolutionResettingStroke |

## Left out

- Mouse-to-cell conversion (app/page.tsx:74-78 and 117-122) uses floating-point scaling of DOM coordinates; painting and filling take integer cell coordinates instead.
- Canvas side effects are left out: the rendering effect (app/page.tsx:188-203), drawing the crop into a temporary canvas, `toDataURL` and the download link (app/page.tsx:156-185). Only the crop-box and size arithmetic is modelled.
- The file name built from a timestamp (app/page.tsx:180-181) is left out: it reads the clock and has no logic worth stating.
- The toolbar, colour picker, tooltips and cursor styles (app/page.tsx:205-325) are UI only. The tool and colour are parameters of the transitions.
- React state timing is not modelled. Each handler is one state transition, with all of its updates applied at once. `handleDrawStart` reads a stale `isDrawing`, so its first brush paint at line 58 does nothing. A fill started from mouse-down can also record a second undo entry in `handleDrawEnd`. Neither effect is claimed or excluded: `BeginStroke` covers lines 53-54 only, and the fill branch is `FillAt`.
- `History.FillAt`: the source reaches the fill only from mouse-down with the fill tool (lines 55-56 and 127). The model takes that branch as given and does not re-check the tool.
- The `JSON.stringify` comparison at app/page.tsx:65 is modelled as sequence equality. For arrays of strings the two agree.
- `History.ChangeResolution`: requires a resolution from the offered list, which is all the selector at app/page.tsx:229-230 can pass. It is proved to keep `Valid` only when no stroke is in progress, because the stroke snapshot survives the change.
- `Export.ExportSize`: the cell size is the constant 10 from app/page.tsx:19. `setPixelSize` is never called, so the cell size never changes.
