/** 4-connected flood fill driven by an explicit stack of cell indices. */
module FloodFill {
  import opened GridStore

  /** p walks through 4-adjacent cells that all have colour c. */
  ghost predicate IsPath(g: Grid, res: Resolution, c: Color, p: seq<int>) {
    && |p| > 0
    && (forall k :: 0 <= k < |p| ==> 0 <= p[k] < |g| && g[p[k]] == c)
    && (forall k :: 0 <= k < |p| - 1 ==> Adjacent(res, p[k], p[k + 1]))
  }

  /** Cell j is reachable from start by 4-steps that never leave the start
      cell's colour: the region a fill at start recolours. */
  ghost predicate InRegion(g: Grid, res: Resolution, start: int, j: int) {
    && 0 <= start < |g|
    && exists p :: IsPath(g, res, g[start], p) && p[0] == start && p[|p| - 1] == j
  }

  /** The grid a fill at start with colour c should produce: the region of
      start takes colour c, every other cell keeps its colour. */
  ghost function FillResult(g: Grid, res: Resolution, start: int, c: Color): (r: Grid)
    requires 0 <= start < |g|
    ensures |r| == |g|
  {
    seq(|g|, i requires 0 <= i < |g| => if InRegion(g, res, start, i) then c else g[i])
  }

  lemma RegionColour(g: Grid, res: Resolution, start: int, j: int)
    requires InRegion(g, res, start, j)
    ensures 0 <= j < |g| && g[j] == g[start]
  {
    var p :| IsPath(g, res, g[start], p) && p[0] == start && p[|p| - 1] == j;
    assert 0 <= p[|p| - 1] < |g|;
  }

  lemma StartInRegion(g: Grid, res: Resolution, start: int)
    requires 0 <= start < |g|
    ensures InRegion(g, res, start, start)
  {
    assert IsPath(g, res, g[start], [start]);
  }

  lemma ExtendPath(g: Grid, res: Resolution, c: Color, p: seq<int>, j: int)
    requires |g| == Size(res) && IsPath(g, res, c, p)
    requires Adjacent(res, p[|p| - 1], j) && g[j] == c
    ensures IsPath(g, res, c, p + [j])
  {
    var q := p + [j];
    forall k | 0 <= k < |q| - 1
      ensures Adjacent(res, q[k], q[k + 1])
    {
      if k < |p| - 1 {
        assert q[k] == p[k] && q[k + 1] == p[k + 1];
      }
    }
  }

  /** If r recolours the first cell of a c-coloured path, and r never leaves a
      c-coloured cell untouched beside a recoloured one, then r recolours the
      whole path. */
  lemma {:induction false} PathRecoloured(g: Grid, r: Grid, res: Resolution, c: Color, p: seq<int>)
    requires |r| == |g| == Size(res)
    requires IsPath(g, res, c, p)
    requires r[p[0]] != g[p[0]]
    requires forall i, j :: Adjacent(res, i, j) && r[i] != g[i] && g[j] == c ==> r[j] != g[j]
    ensures r[p[|p| - 1]] != g[p[|p| - 1]]
    decreases |p|
  {
    if |p| > 1 {
      var q := p[..|p| - 1];
      assert IsPath(g, res, c, q);
      PathRecoloured(g, r, res, c, q);
      assert Adjacent(res, p[|p| - 2], p[|p| - 1]);
    }
  }

  // The loop state of Fill: the working grid r, the stack, and ghost
  // provenance (via[k] is the recoloured cell that pushed stack[k], or -1 for
  // the start cell; paths[i] is a walk from start to each recoloured cell i).

  ghost predicate Shape(g: Grid, res: Resolution, r: Grid, stack: seq<int>, via: seq<int>) {
    && Positive(res) && |g| == Size(res)
    && |r| == |g| && |via| == |stack|
    && forall k :: 0 <= k < |stack| ==> 0 <= stack[k] < |g|
  }

  /** Every cell is untouched or went from target to replacement. */
  ghost predicate OnlyTargetRecoloured(g: Grid, r: Grid, target: Color, replacement: Color)
    requires |r| == |g|
  {
    forall i :: 0 <= i < |g| ==> r[i] == g[i] || (g[i] == target && r[i] == replacement)
  }

  /** Every recoloured cell is reachable from start, witnessed by paths. */
  ghost predicate Witnessed(g: Grid, res: Resolution, start: int, target: Color, r: Grid, paths: map<int, seq<int>>)
    requires |r| == |g|
  {
    forall i :: 0 <= i < |g| && r[i] != g[i] ==>
      && i in paths
      && IsPath(g, res, target, paths[i])
      && paths[i][0] == start
      && paths[i][|paths[i]| - 1] == i
  }

  /** Every stacked index is the start or a neighbour of a recoloured cell. */
  ghost predicate Pushed(g: Grid, res: Resolution, start: int, r: Grid, stack: seq<int>, via: seq<int>)
    requires |r| == |g| && |via| == |stack|
  {
    forall k :: 0 <= k < |stack| ==>
      || (via[k] == -1 && stack[k] == start)
      || (0 <= via[k] < |g| && r[via[k]] != g[via[k]] && Adjacent(res, via[k], stack[k]))
  }

  /** Completeness so far: a target-coloured cell beside a recoloured one is
      still waiting on the stack. */
  ghost predicate Frontier(g: Grid, res: Resolution, target: Color, r: Grid, stack: seq<int>)
    requires |r| == |g| == Size(res)
  {
    forall i, j :: Adjacent(res, i, j) && r[i] != g[i] && r[j] == target ==> j in stack
  }

  ghost predicate FillInv(g: Grid, res: Resolution, start: int, target: Color, replacement: Color,
                          r: Grid, stack: seq<int>, via: seq<int>, paths: map<int, seq<int>>)
  {
    && Shape(g, res, r, stack, via)
    && 0 <= start < |g| && g[start] == target && target != replacement
    && OnlyTargetRecoloured(g, r, target, replacement)
    && (r[start] == target ==> start in stack)
    && Witnessed(g, res, start, target, r, paths)
    && Pushed(g, res, start, r, stack, via)
    && Frontier(g, res, target, r, stack)
  }

  /** Popping an index that no longer has the target colour keeps the loop
      state consistent. */
  lemma SkipStep(g: Grid, res: Resolution, start: int, target: Color, replacement: Color,
                 r: Grid, stack: seq<int>, via: seq<int>, paths: map<int, seq<int>>)
    requires FillInv(g, res, start, target, replacement, r, stack, via, paths)
    requires |stack| > 0 && r[stack[|stack| - 1]] != target
    ensures FillInv(g, res, start, target, replacement, r, stack[..|stack| - 1], via[..|via| - 1], paths)
  {
    var n := |stack| - 1;
    assert stack == stack[..n] + [stack[n]];
  }

  /** The walk recorded for the popped cell: the start alone, or the walk to
      the recoloured cell that pushed it, one step longer. */
  ghost function PathTo(paths: map<int, seq<int>>, from: int, current: int): seq<int> {
    if from != -1 && from in paths then paths[from] + [current] else [current]
  }

  lemma RecolourWitnessed(g: Grid, res: Resolution, start: int, target: Color, replacement: Color,
                          r: Grid, stack: seq<int>, via: seq<int>, paths: map<int, seq<int>>)
    requires FillInv(g, res, start, target, replacement, r, stack, via, paths)
    requires |stack| > 0 && r[stack[|stack| - 1]] == target
    ensures var n := |stack| - 1;
            var current := stack[n];
            Witnessed(g, res, start, target, r[current := replacement],
                      paths[current := PathTo(paths, via[n], current)])
  {
    var n := |stack| - 1;
    var current := stack[n];
    var from := via[n];
    var p := PathTo(paths, from, current);
    assert g[current] == target;
    if from == -1 {
      assert current == start;
      assert IsPath(g, res, target, p);
    } else {
      assert r[from] != g[from];
      ExtendPath(g, res, target, paths[from], current);
    }
  }

  lemma RecolourPushed(g: Grid, res: Resolution, start: int, target: Color, replacement: Color,
                       r: Grid, stack: seq<int>, via: seq<int>, paths: map<int, seq<int>>)
    requires FillInv(g, res, start, target, replacement, r, stack, via, paths)
    requires |stack| > 0 && r[stack[|stack| - 1]] == target
    ensures var n := |stack| - 1;
            var current := stack[n];
            var pushed := Neighbours(res, current);
            Pushed(g, res, start, r[current := replacement],
                   stack[..n] + pushed, via[..n] + seq(|pushed|, _ => current))
  {
    var n := |stack| - 1;
    var current := stack[n];
    var pushed := Neighbours(res, current);
    var r' := r[current := replacement];
    var stack' := stack[..n] + pushed;
    var via' := via[..n] + seq(|pushed|, _ => current);
    NeighboursAdjacent(res, current);
    forall k | 0 <= k < |stack'|
      ensures || (via'[k] == -1 && stack'[k] == start)
              || (0 <= via'[k] < |g| && r'[via'[k]] != g[via'[k]] && Adjacent(res, via'[k], stack'[k]))
    {
      if k < n {
        assert stack'[k] == stack[k] && via'[k] == via[k];
      } else {
        assert stack'[k] == pushed[k - n] && via'[k] == current;
        assert pushed[k - n] in pushed;
      }
    }
  }

  lemma RecolourFrontier(g: Grid, res: Resolution, start: int, target: Color, replacement: Color,
                         r: Grid, stack: seq<int>, via: seq<int>, paths: map<int, seq<int>>)
    requires FillInv(g, res, start, target, replacement, r, stack, via, paths)
    requires |stack| > 0 && r[stack[|stack| - 1]] == target
    ensures var n := |stack| - 1;
            var current := stack[n];
            Frontier(g, res, target, r[current := replacement], stack[..n] + Neighbours(res, current))
  {
    var n := |stack| - 1;
    var current := stack[n];
    var pushed := Neighbours(res, current);
    var r' := r[current := replacement];
    var stack' := stack[..n] + pushed;
    assert stack == stack[..n] + [current];
    NeighboursExact(res, current);
    forall i, j | Adjacent(res, i, j) && r'[i] != g[i] && r'[j] == target
      ensures j in stack'
    {
      if i == current {
        assert j in pushed;
      } else {
        assert j in stack && j != current;
        assert j in stack[..n];
      }
    }
  }

  /** Pushing the neighbours of an in-grid cell keeps every stacked index in
      the grid. */
  lemma PushedInRange(res: Resolution, rest: seq<int>, current: int)
    requires Positive(res) && 0 <= current < Size(res)
    requires forall k :: 0 <= k < |rest| ==> 0 <= rest[k] < Size(res)
    ensures forall k :: 0 <= k < |rest + Neighbours(res, current)| ==>
              0 <= (rest + Neighbours(res, current))[k] < Size(res)
  {
    var pushed := Neighbours(res, current);
    NeighboursAdjacent(res, current);
    forall k | 0 <= k < |rest + pushed| ensures 0 <= (rest + pushed)[k] < Size(res) {
      if k >= |rest| {
        assert (rest + pushed)[k] in pushed;
      }
    }
  }

  /** Recolouring a popped target-coloured cell and pushing its neighbours
      keeps the loop state consistent. */
  lemma RecolourStep(g: Grid, res: Resolution, start: int, target: Color, replacement: Color,
                     r: Grid, stack: seq<int>, via: seq<int>, paths: map<int, seq<int>>)
    requires FillInv(g, res, start, target, replacement, r, stack, via, paths)
    requires |stack| > 0 && r[stack[|stack| - 1]] == target
    ensures var n := |stack| - 1;
            var current := stack[n];
            var pushed := Neighbours(res, current);
            FillInv(g, res, start, target, replacement,
                    r[current := replacement],
                    stack[..n] + pushed,
                    via[..n] + seq(|pushed|, _ => current),
                    paths[current := PathTo(paths, via[n], current)])
  {
    var n := |stack| - 1;
    var current := stack[n];
    var pushed := Neighbours(res, current);
    RecolourWitnessed(g, res, start, target, replacement, r, stack, via, paths);
    RecolourPushed(g, res, start, target, replacement, r, stack, via, paths);
    RecolourFrontier(g, res, start, target, replacement, r, stack, via, paths);
    RecolourShape(g, res, start, target, replacement, r, stack, via, paths);
  }

  lemma RecolourShape(g: Grid, res: Resolution, start: int, target: Color, replacement: Color,
                      r: Grid, stack: seq<int>, via: seq<int>, paths: map<int, seq<int>>)
    requires FillInv(g, res, start, target, replacement, r, stack, via, paths)
    requires |stack| > 0 && r[stack[|stack| - 1]] == target
    ensures var n := |stack| - 1;
            var current := stack[n];
            var pushed := Neighbours(res, current);
            var r' := r[current := replacement];
            && Shape(g, res, r', stack[..n] + pushed, via[..n] + seq(|pushed|, _ => current))
            && OnlyTargetRecoloured(g, r', target, replacement)
            && (r'[start] == target ==> start in stack[..n] + pushed)
  {
    var n := |stack| - 1;
    var current := stack[n];
    PushedInRange(res, stack[..n], current);
    assert stack == stack[..n] + [current];
    assert start != current ==> (r[start] == target ==> start in stack[..n]);
  }

  /** Recolours the 4-connected region of target-coloured cells around start.
      Pops an index; skips it if it no longer has the target colour; otherwise
      recolours it and pushes its in-bounds neighbours. */
  method FillRegion(g: Grid, res: Resolution, start: int, target: Color, replacement: Color) returns (r: Grid)
    requires Positive(res) && |g| == Size(res)
    requires 0 <= start < |g| && g[start] == target
    ensures |r| == |g|
    ensures target == replacement ==> r == g
    ensures forall i :: 0 <= i < |g| ==> r[i] == g[i] || (g[i] == target && r[i] == replacement)
    ensures r[start] == replacement
    ensures forall i, j :: Adjacent(res, i, j) && r[i] != g[i] ==> r[j] != target
    ensures forall i :: 0 <= i < |g| ==> r[i] == if InRegion(g, res, start, i) then replacement else g[i]
  {
    if target == replacement {
      forall i | 0 <= i < |g| && InRegion(g, res, start, i)
        ensures g[i] == replacement
      {
        RegionColour(g, res, start, i);
      }
      return g;
    }
    r := g;
    var stack := [start];
    ghost var via: seq<int> := [-1];
    ghost var paths: map<int, seq<int>> := map[];
    while |stack| > 0
      invariant FillInv(g, res, start, target, replacement, r, stack, via, paths)
      decreases CountOf(r, target), |stack|
    {
      var current := stack[|stack| - 1];
      if r[current] != target {
        SkipStep(g, res, start, target, replacement, r, stack, via, paths);
        stack := stack[..|stack| - 1];
        via := via[..|via| - 1];
        continue;
      }
      RecolourStep(g, res, start, target, replacement, r, stack, via, paths);
      CountOfRecolour(r, current, target, replacement);
      ghost var from := via[|via| - 1];
      stack := stack[..|stack| - 1];
      via := via[..|via| - 1];
      r := r[current := replacement];
      paths := paths[current := PathTo(paths, from, current)];
      var pushed := Neighbours(res, current);
      stack := stack + pushed;
      via := via + seq(|pushed|, _ => current);
    }
    FillDone(g, res, start, target, replacement, r, paths);
  }

  /** With the stack empty the loop state pins the result down exactly. */
  lemma FillDone(g: Grid, res: Resolution, start: int, target: Color, replacement: Color,
                 r: Grid, paths: map<int, seq<int>>)
    requires FillInv(g, res, start, target, replacement, r, [], [], paths)
    ensures r[start] == replacement
    ensures forall i, j :: Adjacent(res, i, j) && r[i] != g[i] ==> r[j] != target
    ensures forall i :: 0 <= i < |g| ==> r[i] == if InRegion(g, res, start, i) then replacement else g[i]
  {
    forall i, j | Adjacent(res, i, j) && r[i] != g[i] && g[j] == target
      ensures r[j] != g[j]
    {
      assert r[j] != target;
    }
    forall i | 0 <= i < |g|
      ensures r[i] == if InRegion(g, res, start, i) then replacement else g[i]
    {
      if InRegion(g, res, start, i) {
        var p :| IsPath(g, res, g[start], p) && p[0] == start && p[|p| - 1] == i;
        PathRecoloured(g, r, res, target, p);
      } else if r[i] != g[i] {
        assert false;
      }
    }
  }

  /** Filling the same cell again with the same colour changes nothing: the
      first fill already gave the whole region that colour. */
  lemma FillIdempotent(g: Grid, res: Resolution, start: int, c: Color)
    requires 0 <= start < |g|
    ensures FillResult(g, res, start, c)[start] == c
    ensures FillResult(FillResult(g, res, start, c), res, start, c) == FillResult(g, res, start, c)
  {
    var g1 := FillResult(g, res, start, c);
    StartInRegion(g, res, start);
    assert g1[start] == c;
    forall i | 0 <= i < |g1|
      ensures FillResult(g1, res, start, c)[i] == g1[i]
    {
      if InRegion(g1, res, start, i) {
        RegionColour(g1, res, start, i);
      }
    }
  }

  /** Region membership grows by one 4-step onto a cell of the start colour. */
  lemma RegionStep(g: Grid, res: Resolution, start: int, a: int, b: int)
    requires |g| == Size(res)
    requires InRegion(g, res, start, a) && Adjacent(res, a, b) && g[b] == g[start]
    ensures InRegion(g, res, start, b)
  {
    var p :| IsPath(g, res, g[start], p) && p[0] == start && p[|p| - 1] == a;
    ExtendPath(g, res, g[start], p, b);
    assert (p + [b])[0] == start;
  }

  /** Two in-bounds coordinates one step apart in a row or column are
      4-adjacent cells. */
  lemma CoordsAdjacent(res: Resolution, x: int, y: int, x2: int, y2: int)
    requires InBounds(res, x, y) && InBounds(res, x2, y2)
    requires (y == y2 && (x2 == x + 1 || x == x2 + 1)) || (x == x2 && (y2 == y + 1 || y == y2 + 1))
    ensures Adjacent(res, IndexOf(res, x, y), IndexOf(res, x2, y2))
  {
    IndexInRange(res, x, y);
    CoordRoundTrip(res, x, y);
    IndexInRange(res, x2, y2);
    CoordRoundTrip(res, x2, y2);
  }

  ghost predicate Uniform(g: Grid) {
    forall i :: 0 <= i < |g| ==> g[i] == g[0]
  }

  /** On a single-colour canvas every cell of the start's row is reachable. */
  lemma {:induction false} UniformRow(g: Grid, res: Resolution, start: int, x: int)
    requires Positive(res) && |g| == Size(res) && Uniform(g) && 0 <= start < |g|
    requires 0 <= x < res.width
    ensures 0 <= IndexOf(res, x, Row(res, start)) < |g|
    ensures InRegion(g, res, start, IndexOf(res, x, Row(res, start)))
    decreases if x < Col(res, start) then Col(res, start) - x else x - Col(res, start)
  {
    var sx, sy := Col(res, start), Row(res, start);
    IndexRoundTrip(res, start);
    IndexInRange(res, x, sy);
    if x == sx {
      StartInRegion(g, res, start);
    } else {
      var x0 := if x < sx then x + 1 else x - 1;
      UniformRow(g, res, start, x0);
      CoordsAdjacent(res, x0, sy, x, sy);
      RegionStep(g, res, start, IndexOf(res, x0, sy), IndexOf(res, x, sy));
    }
  }

  /** On a single-colour canvas every cell is reachable: walk along the
      start's row, then up or down the column. */
  lemma {:induction false} UniformCell(g: Grid, res: Resolution, start: int, x: int, y: int)
    requires Positive(res) && |g| == Size(res) && Uniform(g) && 0 <= start < |g|
    requires InBounds(res, x, y)
    ensures 0 <= IndexOf(res, x, y) < |g|
    ensures InRegion(g, res, start, IndexOf(res, x, y))
    decreases if y < Row(res, start) then Row(res, start) - y else y - Row(res, start)
  {
    var sy := Row(res, start);
    IndexRoundTrip(res, start);
    IndexInRange(res, x, y);
    if y == sy {
      UniformRow(g, res, start, x);
    } else {
      var y0 := if y < sy then y + 1 else y - 1;
      UniformCell(g, res, start, x, y0);
      CoordsAdjacent(res, x, y0, x, y);
      RegionStep(g, res, start, IndexOf(res, x, y0), IndexOf(res, x, y));
    }
  }

  /** Filling a single-colour canvas anywhere recolours every cell. */
  lemma FillUniform(g: Grid, res: Resolution, start: int, c: Color)
    requires Positive(res) && |g| == Size(res) && Uniform(g) && 0 <= start < |g|
    ensures forall i :: 0 <= i < |g| ==> FillResult(g, res, start, c)[i] == c
  {
    forall i | 0 <= i < |g|
      ensures InRegion(g, res, start, i)
    {
      IndexRoundTrip(res, i);
      UniformCell(g, res, start, Col(res, i), Row(res, i));
    }
  }
}
