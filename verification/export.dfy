/** The arithmetic of the PNG export: the tight box around the painted
    (non-background) cells, and the size of the image cut from it. */
module Export {
  import opened GridStore

  /** Every cell is drawn this many pixels wide and high. */
  const PixelSize: int := 10

  /** Inclusive cell-coordinate bounds. */
  datatype Box = Box(minX: int, minY: int, maxX: int, maxY: int)

  predicate Painted(g: Grid, i: int)
    requires 0 <= i < |g|
  {
    g[i] != Background
  }

  predicate AllBackground(g: Grid) {
    forall i :: 0 <= i < |g| ==> g[i] == Background
  }

  /** b lies inside the canvas and is not empty. */
  predicate WithinCanvas(res: Resolution, b: Box) {
    0 <= b.minX <= b.maxX < res.width && 0 <= b.minY <= b.maxY < res.height
  }

  /** Every painted cell lies in b. */
  predicate Encloses(g: Grid, res: Resolution, b: Box)
    requires res.width > 0
  {
    forall i :: 0 <= i < |g| && Painted(g, i) ==>
      b.minX <= Col(res, i) <= b.maxX && b.minY <= Row(res, i) <= b.maxY
  }

  /** Each side of b touches some painted cell. */
  predicate Tight(g: Grid, res: Resolution, b: Box)
    requires res.width > 0
  {
    && (exists i :: 0 <= i < |g| && Painted(g, i) && Col(res, i) == b.minX)
    && (exists i :: 0 <= i < |g| && Painted(g, i) && Col(res, i) == b.maxX)
    && (exists i :: 0 <= i < |g| && Painted(g, i) && Row(res, i) == b.minY)
    && (exists i :: 0 <= i < |g| && Painted(g, i) && Row(res, i) == b.maxY)
  }

  function Min(a: int, b: int): int { if a <= b then a else b }
  function Max(a: int, b: int): int { if a >= b then a else b }

  /** The state of the pass after the first n cells: before any painted cell
      the box is still the inverted start box; afterwards it encloses every
      painted cell seen so far, and each side is witnessed by one of them. */
  ghost predicate Scanned(g: Grid, res: Resolution, n: int, seen: bool, b: Box,
                          atMinX: int, atMaxX: int, atMinY: int, atMaxY: int)
    requires Positive(res)
  {
    && 0 <= n <= |g|
    && (!seen ==> b == Box(res.width, res.height, 0, 0))
    && (!seen ==> forall k :: 0 <= k < n ==> g[k] == Background)
    && (seen ==>
          && 0 <= atMinX < n && Painted(g, atMinX) && Col(res, atMinX) == b.minX
          && 0 <= atMaxX < n && Painted(g, atMaxX) && Col(res, atMaxX) == b.maxX
          && 0 <= atMinY < n && Painted(g, atMinY) && Row(res, atMinY) == b.minY
          && 0 <= atMaxY < n && Painted(g, atMaxY) && Row(res, atMaxY) == b.maxY)
    && forall k :: 0 <= k < n && Painted(g, k) ==>
         b.minX <= Col(res, k) <= b.maxX && b.minY <= Row(res, k) <= b.maxY
  }

  /** Widening the box around painted cell n keeps the pass consistent. */
  lemma PaintedStep(g: Grid, res: Resolution, n: int, seen: bool, b: Box,
                    atMinX: int, atMaxX: int, atMinY: int, atMaxY: int)
    requires Positive(res)
    requires Scanned(g, res, n, seen, b, atMinX, atMaxX, atMinY, atMaxY)
    requires |g| == Size(res) && n < |g| && Painted(g, n)
    ensures var x, y := Col(res, n), Row(res, n);
            Scanned(g, res, n + 1, true,
                    Box(Min(b.minX, x), Min(b.minY, y), Max(b.maxX, x), Max(b.maxY, y)),
                    if !seen || x < b.minX then n else atMinX,
                    if !seen || x >= b.maxX then n else atMaxX,
                    if !seen || y < b.minY then n else atMinY,
                    if !seen || y >= b.maxY then n else atMaxY)
  {
    IndexRoundTrip(res, n);
  }

  /** The crop box. One pass over the cells, starting from the inverted box
      (width, height, 0, 0) and widening it around each painted cell; if the
      box is still inverted afterwards, nothing was painted and the whole
      canvas is exported instead. */
  method BoundingBox(g: Grid, res: Resolution) returns (b: Box)
    requires Positive(res) && |g| == Size(res)
    ensures WithinCanvas(res, b)
    ensures AllBackground(g) ==> b == Box(0, 0, res.width - 1, res.height - 1)
    ensures !AllBackground(g) ==> Encloses(g, res, b) && Tight(g, res, b)
  {
    var minX, minY, maxX, maxY := res.width, res.height, 0, 0;
    // Ghost witnesses: a painted cell on each side of the box so far.
    ghost var seen := false;
    ghost var atMinX, atMaxX, atMinY, atMaxY := 0, 0, 0, 0;
    var index := 0;
    while index < |g|
      invariant Scanned(g, res, index, seen, Box(minX, minY, maxX, maxY), atMinX, atMaxX, atMinY, atMaxY)
    {
      if g[index] != Background {
        PaintedStep(g, res, index, seen, Box(minX, minY, maxX, maxY), atMinX, atMaxX, atMinY, atMaxY);
        var x := Col(res, index);
        var y := Row(res, index);
        if !seen || x < minX { atMinX := index; }
        if !seen || x >= maxX { atMaxX := index; }
        if !seen || y < minY { atMinY := index; }
        if !seen || y >= maxY { atMaxY := index; }
        minX := Min(minX, x);
        minY := Min(minY, y);
        maxX := Max(maxX, x);
        maxY := Max(maxY, y);
        seen := true;
      }
      index := index + 1;
    }
    b := Box(minX, minY, maxX, maxY);
    ScanDone(g, res, seen, b, atMinX, atMaxX, atMinY, atMaxY);
    if minX > maxX || minY > maxY {
      b := Box(0, 0, res.width - 1, res.height - 1);
    }
  }

  /** After the whole pass: an inverted box means nothing was painted and the
      whole canvas is the box; otherwise the box the pass built is the answer. */
  lemma ScanDone(g: Grid, res: Resolution, seen: bool, b: Box,
                 atMinX: int, atMaxX: int, atMinY: int, atMaxY: int)
    requires Positive(res) && |g| == Size(res)
    requires Scanned(g, res, |g|, seen, b, atMinX, atMaxX, atMinY, atMaxY)
    ensures b.minX > b.maxX || b.minY > b.maxY <==> AllBackground(g)
    ensures !AllBackground(g) ==> WithinCanvas(res, b) && Encloses(g, res, b) && Tight(g, res, b)
  {
    if seen {
      SeenBox(g, res, b, atMinX, atMaxX, atMinY, atMaxY);
    }
  }

  /** Once a painted cell has been seen, the box the pass built is a proper
      box inside the canvas. */
  lemma SeenBox(g: Grid, res: Resolution, b: Box, atMinX: int, atMaxX: int, atMinY: int, atMaxY: int)
    requires Positive(res) && |g| == Size(res)
    requires 0 <= atMinX < |g| && Painted(g, atMinX) && Col(res, atMinX) == b.minX
    requires 0 <= atMaxX < |g| && Painted(g, atMaxX) && Col(res, atMaxX) == b.maxX
    requires 0 <= atMinY < |g| && Painted(g, atMinY) && Row(res, atMinY) == b.minY
    requires 0 <= atMaxY < |g| && Painted(g, atMaxY) && Row(res, atMaxY) == b.maxY
    requires Encloses(g, res, b)
    ensures WithinCanvas(res, b) && Tight(g, res, b)
  {
    IndexRoundTrip(res, atMinX);
    IndexRoundTrip(res, atMaxX);
    IndexRoundTrip(res, atMinY);
    IndexRoundTrip(res, atMaxY);
  }

  /** The exported image: the crop box and its size in pixels, one
      PixelSize-square per cell of the box. */
  method ExportSize(g: Grid, res: Resolution) returns (b: Box, imageWidth: int, imageHeight: int)
    requires Positive(res) && |g| == Size(res)
    ensures WithinCanvas(res, b)
    ensures AllBackground(g) ==> b == Box(0, 0, res.width - 1, res.height - 1)
    ensures !AllBackground(g) ==> Encloses(g, res, b) && Tight(g, res, b)
    ensures imageWidth == (b.maxX - b.minX + 1) * PixelSize && imageHeight == (b.maxY - b.minY + 1) * PixelSize
    ensures PixelSize <= imageWidth <= res.width * PixelSize && PixelSize <= imageHeight <= res.height * PixelSize
  {
    b := BoundingBox(g, res);
    imageWidth := (b.maxX - b.minX + 1) * PixelSize;
    imageHeight := (b.maxY - b.minY + 1) * PixelSize;
  }
}
