/** `GappedPrimGenerator` (src/generation/actual_prim_generator.rs): a Prim
    variant on a grid of `(2 width + 1) x (2 height + 1)` cells where maze
    cells sit two apart and the cell between two of them is the wall that
    may be knocked through. Its helpers are point arithmetic over that
    grid; its `generate_maze` builds the grid but never enters its loop. */
module GappedPrimGenerators {
  import opened Wrappers
  import opened Points
  import opened Execution
  import opened Mazes
  import opened Generators

  /** `GridCell`. */
  datatype GridCell = Passage | Wall

  /** The generator keeps its grid between calls. */
  datatype GappedPrimGenerator = GappedPrimGenerator(options: GeneratorOptions, grid: seq<seq<GridCell>>)

  /** `new`: the default options and an empty grid. `GeneratorOptions`'
      `Default` is left out, so the defaults are passed in. */
  function New(defaults: GeneratorOptions): (g: GappedPrimGenerator)
    ensures g.options == defaults && |g.grid| == 0
  {
    GappedPrimGenerator(defaults, [])
  }

  /** `set_options`: any options are stored, with no size check. */
  function SetOptions(g: GappedPrimGenerator, o: GeneratorOptions): (g': GappedPrimGenerator)
    ensures g'.options == o && g'.grid == g.grid
  {
    g.(options := o)
  }

  /** `get_real_width`: maze columns doubled, plus the outer wall. */
  function RealWidth(g: GappedPrimGenerator): (n: nat)
    ensures n == 2 * g.options.width + 1
    ensures n % 2 == 1
  {
    g.options.width * 2 + 1
  }

  /** `get_real_height`. */
  function RealHeight(g: GappedPrimGenerator): (n: nat)
    ensures n == 2 * g.options.height + 1
    ensures n % 2 == 1
  {
    g.options.height * 2 + 1
  }

  /** `is_point_legal`: strictly inside the outer wall of the real grid. */
  predicate IsPointLegal(g: GappedPrimGenerator, p: Point) {
    && p.x > 0 && p.x < RealWidth(g) - 1
    && p.y > 0 && p.y < RealHeight(g) - 1
  }

  /** A legal point and its four unit neighbours all lie on the real grid,
      and a legal point exists exactly when both sizes are positive. */
  lemma LegalIsInterior(g: GappedPrimGenerator, p: Point)
    ensures IsPointLegal(g, p) ==>
      && p.x + 1 < RealWidth(g) && p.y + 1 < RealHeight(g)
      && p.x - 1 >= 0 && p.y - 1 >= 0
    ensures IsPointLegal(g, Point(1, 1)) <==> g.options.width > 0 && g.options.height > 0
  {
  }

  /** The real grid is at least as large as the generator's sizes ask for,
      so `get_grid` can read every legal point. */
  ghost predicate Covers(g: GappedPrimGenerator) {
    && RealHeight(g) <= |g.grid|
    && forall y :: 0 <= y < RealHeight(g) ==> RealWidth(g) <= |g.grid[y]|
  }

  /** `p` names a cell of the stored grid. */
  predicate OnGrid(g: GappedPrimGenerator, p: Point) {
    p.y < |g.grid| && p.x < |g.grid[p.y]|
  }

  /** The filters read the grid only at legal points: every legal point of
      `cs` must name a stored cell. */
  predicate LegalOnGrid(g: GappedPrimGenerator, cs: seq<Point>) {
    forall i :: 0 <= i < |cs| && IsPointLegal(g, cs[i]) ==> OnGrid(g, cs[i])
  }

  /** Every legal point two apart from `p` names a stored cell. */
  ghost predicate GappedOnGrid(g: GappedPrimGenerator, p: Point) {
    forall q :: TwoApart(p, q) && IsPointLegal(g, q) ==> OnGrid(g, q)
  }

  /** `get_grid`: indexing panics off the grid, hence the precondition. */
  function GetGrid(g: GappedPrimGenerator, p: Point): (c: GridCell)
    requires OnGrid(g, p)
    ensures c == g.grid[p.y][p.x]
  {
    g.grid[p.y][p.x]
  }

  /** A grid that covers the sizes can be read at every legal point, and
      so around every point. */
  lemma CoversReadable(g: GappedPrimGenerator, p: Point, cs: seq<Point>)
    requires Covers(g)
    ensures IsPointLegal(g, p) ==> OnGrid(g, p)
    ensures GappedOnGrid(g, p) && LegalOnGrid(g, cs)
  {
  }

  /** `get_two_gapped_cells`: the cells two steps West, East, North and
      South, in that order. Subtracting 2 from a coordinate below 2
      underflows `usize`, hence the precondition. */
  function TwoGapped(p: Point): (r: seq<Point>)
    requires p.x >= 2 && p.y >= 2
    ensures |r| == 4
    ensures r[0].y == p.y && r[0].x + 2 == p.x
    ensures r[1].y == p.y && r[1].x == p.x + 2
    ensures r[2].x == p.x && r[2].y + 2 == p.y
    ensures r[3].x == p.x && r[3].y == p.y + 2
  {
    [Point(p.x - 2, p.y), Point(p.x + 2, p.y), Point(p.x, p.y - 2), Point(p.x, p.y + 2)]
  }

  /** Two steps along exactly one axis. */
  predicate TwoApart(a: Point, b: Point) {
    || (a.y == b.y && (a.x + 2 == b.x || b.x + 2 == a.x))
    || (a.x == b.x && (a.y + 2 == b.y || b.y + 2 == a.y))
  }

  /** The four gapped cells are exactly the points two apart. */
  lemma TwoGappedAreTwoApart(p: Point, q: Point)
    requires p.x >= 2 && p.y >= 2
    ensures q in TwoGapped(p) <==> TwoApart(p, q)
  {
    var r := TwoGapped(p);
    if TwoApart(p, q) {
      if q.y == p.y && q.x + 2 == p.x {
        assert q == r[0];
      } else if q.y == p.y && q.x == p.x + 2 {
        assert q == r[1];
      } else if q.x == p.x && q.y + 2 == p.y {
        assert q == r[2];
      } else {
        assert q == r[3];
      }
    }
  }

  /** The legal cells of `cs` whose grid cell is `want`, in order: with
      `Wall` the filter of `get_frontier_around_point`, with `Passage` the
      one of `get_neighbours_around_point`. The grid is only read at legal
      points. */
  function Keep(g: GappedPrimGenerator, cs: seq<Point>, want: GridCell): (r: seq<Point>)
    requires LegalOnGrid(g, cs)
    ensures |r| <= |cs|
    ensures forall q :: q in r <==> q in cs && IsPointLegal(g, q) && g.grid[q.y][q.x] == want
    ensures Subsequence(r, cs)
    decreases |cs|
  {
    if |cs| == 0 then []
    else
      var rest := Keep(g, cs[1..], want);
      var q := cs[0];
      if IsPointLegal(g, q) && GetGrid(g, q) == want then
        assert ([q] + rest)[1..] == rest;
        [q] + rest
      else
        rest
  }

  /** `get_frontier_around_point`: the legal gapped cells still walls. */
  function FrontierAround(g: GappedPrimGenerator, p: Point): (r: seq<Point>)
    requires p.x >= 2 && p.y >= 2 && GappedOnGrid(g, p)
    ensures |r| <= 4
    ensures forall q :: q in r <==> TwoApart(p, q) && IsPointLegal(g, q) && g.grid[q.y][q.x] == GridCell.Wall
  {
    forall q ensures q in TwoGapped(p) <==> TwoApart(p, q) {
      TwoGappedAreTwoApart(p, q);
    }
    Keep(g, TwoGapped(p), GridCell.Wall)
  }

  /** `get_neighbours_around_point`: the legal gapped cells already passages. */
  function NeighboursAround(g: GappedPrimGenerator, p: Point): (r: seq<Point>)
    requires p.x >= 2 && p.y >= 2 && GappedOnGrid(g, p)
    ensures |r| <= 4
    ensures forall q :: q in r <==> TwoApart(p, q) && IsPointLegal(g, q) && g.grid[q.y][q.x] == GridCell.Passage
  {
    forall q ensures q in TwoGapped(p) <==> TwoApart(p, q) {
      TwoGappedAreTwoApart(p, q);
    }
    Keep(g, TwoGapped(p), GridCell.Passage)
  }

  /** The frontier and neighbour lists split the legal gapped cells: each
      such cell is in exactly one of them. */
  lemma FrontierAndNeighboursPartition(g: GappedPrimGenerator, p: Point, q: Point)
    requires p.x >= 2 && p.y >= 2 && GappedOnGrid(g, p)
    requires TwoApart(p, q) && IsPointLegal(g, q)
    ensures q in FrontierAround(g, p) <==> q !in NeighboursAround(g, p)
  {
  }

  /** `point_between`: each coordinate moves one step towards `b`; a
      difference outside {-2, 0, 2} in either coordinate panics, hence the
      precondition. */
  function PointBetween(a: Point, b: Point): (m: Point)
    requires b.x - a.x in {-2, 0, 2} && b.y - a.y in {-2, 0, 2}
    ensures 2 * m.x == a.x + b.x && 2 * m.y == a.y + b.y
  {
    var x := if b.x - a.x == 0 then a.x else if b.x - a.x == 2 then 1 + a.x else a.x - 1;
    var y := if b.y - a.y == 0 then a.y else if b.y - a.y == 2 then 1 + a.y else a.y - 1;
    Point(x, y)
  }

  /** The midpoint does not depend on the order of the two points, and
      between two gapped cells it is the wall they share: adjacent to both. */
  lemma PointBetweenIsShared(a: Point, b: Point)
    requires TwoApart(a, b)
    ensures PointBetween(a, b) == PointBetween(b, a)
    ensures Adjacent(a, PointBetween(a, b)) && Adjacent(b, PointBetween(a, b))
  {
  }

  /** `connect_random_neighbour`: knock through the wall between `p` and a
      neighbour drawn at random. With no neighbour `gen_range(0..0)`
      panics, and so does a write to a cell the grid does not have, hence
      the preconditions. Returns the generator and the next position in
      the random source. */
  function ConnectRandomNeighbour(g: GappedPrimGenerator, p: Point, rng: seq<nat>, cursor: nat): (r: (GappedPrimGenerator, nat))
    requires p.x >= 2 && p.y >= 2 && GappedOnGrid(g, p)
    requires |NeighboursAround(g, p)| > 0
    requires var ns := NeighboursAround(g, p);
             OnGrid(g, PointBetween(p, ns[GenRange(rng, cursor, |ns|)]))
    ensures var ns := NeighboursAround(g, p);
            var q := ns[GenRange(rng, cursor, |ns|)];
            var m := PointBetween(p, q);
            && r.1 == cursor + 1 && r.0.options == g.options
            && m.y < |g.grid| && m.x < |g.grid[m.y]|
            && Adjacent(p, m) && Adjacent(q, m)
            && |r.0.grid| == |g.grid|
            && (forall y :: 0 <= y < |g.grid| ==> |r.0.grid[y]| == |g.grid[y]|)
            && r.0.grid[m.y][m.x] == GridCell.Passage
            && (forall y, x :: 0 <= y < |g.grid| && 0 <= x < |g.grid[y]| && Point(x, y) != m ==>
                 r.0.grid[y][x] == g.grid[y][x])
  {
    var ns := NeighboursAround(g, p);
    var q := ns[GenRange(rng, cursor, |ns|)];
    assert q in ns;
    PointBetweenIsShared(p, q);
    var m := PointBetween(p, q);
    (g.(grid := g.grid[m.y := g.grid[m.y][m.x := GridCell.Passage]]), cursor + 1)
  }

  /** `generate_maze`: append `2 height + 1` rows of `2 width + 1` walls to
      the kept grid (without clearing it), then start the loop on an empty
      frontier: the head of the `while let` finds nothing at index 0, so no
      cell is carved, and the maze returned is the fresh all-passage one
      with start and finish at the origin. */
  method GenerateMaze(g: GappedPrimGenerator) returns (g': GappedPrimGenerator, m: Maze)
    ensures g'.options == g.options
    ensures |g'.grid| == |g.grid| + RealHeight(g)
    ensures g'.grid[..|g.grid|] == g.grid
    ensures forall y, x :: |g.grid| <= y < |g'.grid| && 0 <= x < |g'.grid[y]| ==> g'.grid[y][x] == GridCell.Wall
    ensures forall y :: |g.grid| <= y < |g'.grid| ==> |g'.grid[y]| == RealWidth(g)
    ensures Valid(m) && m.width == g.options.width && m.height == g.options.height
    ensures forall p :: InRange(m, p) ==> GetCell(m, p) == Some(Tile.Passage)
    ensures m.start == Point(0, 0) && m.goal == Point(0, 0)
  {
    m := Mazes.New(g.options.width, g.options.height);
    g' := g;
    var i := 0;
    while i < g.options.height * 2 + 1
      invariant i <= RealHeight(g) && g'.options == g.options
      invariant |g'.grid| == |g.grid| + i && g'.grid[..|g.grid|] == g.grid
      invariant forall y, x :: |g.grid| <= y < |g'.grid| && 0 <= x < |g'.grid[y]| ==> g'.grid[y][x] == GridCell.Wall
      invariant forall y :: |g.grid| <= y < |g'.grid| ==> |g'.grid[y]| == RealWidth(g)
    {
      var row: seq<GridCell> := [];
      var j := 0;
      while j < g.options.width * 2 + 1
        invariant j <= RealWidth(g) && |row| == j
        invariant forall x :: 0 <= x < |row| ==> row[x] == GridCell.Wall
      {
        row := row + [GridCell.Wall];
        j := j + 1;
      }
      g' := g'.(grid := g'.grid + [row]);
      i := i + 1;
    }
  }

  /** Run on a generator with an empty grid, `generate_maze` leaves a grid
      that covers its sizes: every legal point can then be read. */
  lemma FreshGenerateCovers(g: GappedPrimGenerator, g': GappedPrimGenerator)
    requires |g.grid| == 0 && g'.options == g.options
    requires |g'.grid| == RealHeight(g)
    requires forall y :: 0 <= y < |g'.grid| ==> |g'.grid[y]| == RealWidth(g)
    ensures Covers(g')
    ensures forall p :: IsPointLegal(g', p) ==> OnGrid(g', p)
    ensures forall p :: GappedOnGrid(g', p)
  {
  }
}
