/** The grid store of the pixel editor: a flat sequence of colours, one per
    cell, laid out row by row. Cell (x, y) lives at index y * width + x, and
    index i is the cell (i % width, i / width). */
module GridStore {

  /** Colours are the CSS hex strings the colour picker hands out; the model
      only ever compares them for equality. */
  type Color = string

  /** The "empty" colour: a fresh canvas is filled with it, the eraser paints
      it, and the exporter treats it as transparent. */
  const Background: Color := "#1a1a1a"

  type Grid = seq<Color>

  datatype Resolution = Resolution(width: int, height: int, name: string)

  /** The resolutions the selector offers; the editor starts at the second. */
  const Resolutions: seq<Resolution> := [
    Resolution(16, 16, "16x16"),
    Resolution(32, 32, "32x32"),
    Resolution(64, 64, "64x64"),
    Resolution(128, 128, "128x128")
  ]

  const DefaultResolution: Resolution := Resolutions[1]

  /** Every offered resolution has this shape; the addressing lemmas need it. */
  predicate Positive(res: Resolution) {
    res.width > 0 && res.height > 0
  }

  function Size(res: Resolution): int {
    res.width * res.height
  }

  predicate InBounds(res: Resolution, x: int, y: int) {
    0 <= x < res.width && 0 <= y < res.height
  }

  function IndexOf(res: Resolution, x: int, y: int): int {
    y * res.width + x
  }

  function Col(res: Resolution, i: int): int
    requires res.width > 0
  {
    i % res.width
  }

  function Row(res: Resolution, i: int): int
    requires res.width > 0
  {
    i / res.width
  }

  /** A canvas of the given resolution with every cell set to the background. */
  function Blank(res: Resolution): (g: Grid)
    requires Positive(res)
    ensures |g| == Size(res)
    ensures forall i :: 0 <= i < |g| ==> g[i] == Background
  {
    seq(Size(res), _ => Background)
  }

  lemma MulLeq(a: int, b: int, c: int)
    requires 0 <= a <= b && 0 <= c
    ensures a * c <= b * c
  {
  }

  /** An in-bounds coordinate addresses a cell of the grid. */
  lemma IndexInRange(res: Resolution, x: int, y: int)
    requires InBounds(res, x, y)
    ensures 0 <= IndexOf(res, x, y) < Size(res)
  {
    MulLeq(y + 1, res.height, res.width);
    assert IndexOf(res, x, y) < (y + 1) * res.width;
  }

  /** Quotient and remainder are unique: y * w + x with 0 <= x < w divides
      back into row y and column x. */
  lemma DivModUnique(w: int, x: int, y: int)
    requires 0 <= x < w
    ensures (y * w + x) / w == y && (y * w + x) % w == x
  {
    var i := y * w + x;
    var q, r := i / w, i % w;
    assert i == q * w + r && 0 <= r < w;
    assert (q - y) * w == x - r;
    if q > y {
      MulLeq(1, q - y, w);
      assert false;
    } else if q < y {
      MulLeq(1, y - q, w);
      assert false;
    }
  }

  /** Decoding the index of an in-bounds coordinate gives the coordinate back. */
  lemma CoordRoundTrip(res: Resolution, x: int, y: int)
    requires InBounds(res, x, y)
    ensures Col(res, IndexOf(res, x, y)) == x
    ensures Row(res, IndexOf(res, x, y)) == y
  {
    DivModUnique(res.width, x, y);
  }

  /** Every cell index decodes to an in-bounds coordinate whose index it is. */
  lemma IndexRoundTrip(res: Resolution, i: int)
    requires Positive(res) && 0 <= i < Size(res)
    ensures InBounds(res, Col(res, i), Row(res, i))
    ensures IndexOf(res, Col(res, i), Row(res, i)) == i
  {
    var w := res.width;
    assert i == Row(res, i) * w + Col(res, i);
    if Row(res, i) >= res.height {
      MulLeq(res.height, Row(res, i), w);
      assert false;
    }
  }

  /** Two in-bounds coordinates share an index only if they are the same. */
  lemma IndexInjective(res: Resolution, x: int, y: int, x2: int, y2: int)
    requires InBounds(res, x, y) && InBounds(res, x2, y2)
    requires IndexOf(res, x, y) == IndexOf(res, x2, y2)
    ensures x == x2 && y == y2
  {
    CoordRoundTrip(res, x, y);
    CoordRoundTrip(res, x2, y2);
  }

  /** 4-connectivity: both cells exist and they sit side by side in a row or
      one above the other in a column. */
  predicate Adjacent(res: Resolution, i: int, j: int) {
    && res.width > 0
    && 0 <= i < Size(res)
    && 0 <= j < Size(res)
    && (|| (Row(res, i) == Row(res, j) && (Col(res, j) == Col(res, i) + 1 || Col(res, i) == Col(res, j) + 1))
        || (Col(res, i) == Col(res, j) && (Row(res, j) == Row(res, i) + 1 || Row(res, i) == Row(res, j) + 1)))
  }

  /** The cells the flood fill pushes after recolouring cell i, in push order:
      left, right, up, down, each only when the column or row check allows. */
  function Neighbours(res: Resolution, i: int): seq<int>
    requires Positive(res)
  {
    var x, y := Col(res, i), Row(res, i);
    (if x > 0 then [i - 1] else [])
    + (if x < res.width - 1 then [i + 1] else [])
    + (if y > 0 then [i - res.width] else [])
    + (if y < res.height - 1 then [i + res.width] else [])
  }

  lemma LeftAdjacent(res: Resolution, i: int)
    requires Positive(res) && 0 <= i < Size(res) && Col(res, i) > 0
    ensures Adjacent(res, i, i - 1)
  {
    var x, y := Col(res, i), Row(res, i);
    IndexRoundTrip(res, i);
    IndexInRange(res, x - 1, y);
    CoordRoundTrip(res, x - 1, y);
    assert IndexOf(res, x - 1, y) == i - 1;
  }

  lemma RightAdjacent(res: Resolution, i: int)
    requires Positive(res) && 0 <= i < Size(res) && Col(res, i) < res.width - 1
    ensures Adjacent(res, i, i + 1)
  {
    var x, y := Col(res, i), Row(res, i);
    IndexRoundTrip(res, i);
    IndexInRange(res, x + 1, y);
    CoordRoundTrip(res, x + 1, y);
    assert IndexOf(res, x + 1, y) == i + 1;
  }

  lemma UpAdjacent(res: Resolution, i: int)
    requires Positive(res) && 0 <= i < Size(res) && Row(res, i) > 0
    ensures Adjacent(res, i, i - res.width)
  {
    var x, y := Col(res, i), Row(res, i);
    IndexRoundTrip(res, i);
    IndexInRange(res, x, y - 1);
    CoordRoundTrip(res, x, y - 1);
    assert (y - 1) * res.width == y * res.width - res.width;
    assert IndexOf(res, x, y - 1) == i - res.width;
  }

  lemma DownAdjacent(res: Resolution, i: int)
    requires Positive(res) && 0 <= i < Size(res) && Row(res, i) < res.height - 1
    ensures Adjacent(res, i, i + res.width)
  {
    var x, y := Col(res, i), Row(res, i);
    IndexRoundTrip(res, i);
    IndexInRange(res, x, y + 1);
    CoordRoundTrip(res, x, y + 1);
    assert (y + 1) * res.width == y * res.width + res.width;
    assert IndexOf(res, x, y + 1) == i + res.width;
  }

  /** Every index the column and row checks let through is a 4-neighbour. */
  lemma NeighboursAdjacent(res: Resolution, i: int)
    requires Positive(res) && 0 <= i < Size(res)
    ensures forall j :: j in Neighbours(res, i) ==> Adjacent(res, i, j)
  {
    if Col(res, i) > 0 {
      LeftAdjacent(res, i);
    }
    if Col(res, i) < res.width - 1 {
      RightAdjacent(res, i);
    }
    if Row(res, i) > 0 {
      UpAdjacent(res, i);
    }
    if Row(res, i) < res.height - 1 {
      DownAdjacent(res, i);
    }
  }

  /** Every 4-neighbour of i is among the indices pushed for i. */
  lemma AdjacentInNeighbours(res: Resolution, i: int, j: int)
    requires Positive(res) && Adjacent(res, i, j)
    ensures j in Neighbours(res, i)
  {
    var w := res.width;
    IndexRoundTrip(res, i);
    IndexRoundTrip(res, j);
    var x, y := Col(res, i), Row(res, i);
    var x2, y2 := Col(res, j), Row(res, j);
    if y2 == y + 1 {
      assert j == IndexOf(res, x, y + 1) == i + w;
    } else if y == y2 + 1 {
      assert i == IndexOf(res, x2, y2 + 1) == j + w;
    }
  }

  /** The column and row checks are exactly 4-adjacency: no push wraps round a
      row edge or leaves the grid, and no neighbour is missed. */
  lemma NeighboursExact(res: Resolution, i: int)
    requires Positive(res) && 0 <= i < Size(res)
    ensures forall j :: j in Neighbours(res, i) <==> Adjacent(res, i, j)
  {
    NeighboursAdjacent(res, i);
    forall j | Adjacent(res, i, j)
      ensures j in Neighbours(res, i)
    {
      AdjacentInNeighbours(res, i, j);
    }
  }

  /** Number of cells holding colour c. */
  function CountOf(g: Grid, c: Color): (n: nat)
    ensures n <= |g|
  {
    if |g| == 0 then 0
    else CountOf(g[..|g| - 1], c) + (if g[|g| - 1] == c then 1 else 0)
  }

  /** Recolouring one cell of colour c to another colour removes exactly one
      cell of colour c. */
  lemma {:induction false} CountOfRecolour(g: Grid, k: int, c: Color, d: Color)
    requires 0 <= k < |g| && g[k] == c && d != c
    ensures CountOf(g[k := d], c) == CountOf(g, c) - 1
  {
    var n := |g| - 1;
    if k == n {
      assert g[k := d][..n] == g[..n];
    } else {
      assert g[k := d][..n] == g[..n][k := d];
      CountOfRecolour(g[..n], k, c, d);
    }
  }
}
