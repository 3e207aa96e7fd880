/** The maze grid (`Maze<T>` in src/generation/mod.rs, always used with
    `Tile`): a row-major grid with a start and a finish point. */
module Mazes {
  import opened Wrappers
  import opened Points
  import opened Execution

  /** `grid[y][x]` is the tile at `Point(x, y)`; `goal` is the finish. */
  datatype Maze = Maze(width: nat, height: nat, grid: seq<seq<Tile>>, start: Point, goal: Point)

  /** The shape `Maze::new` establishes: `height` rows of `width` tiles. The
      fields are private, so every maze of the program has this shape. */
  ghost predicate Valid(m: Maze) {
    && |m.grid| == m.height
    && forall y :: 0 <= y < |m.grid| ==> |m.grid[y]| == m.width
  }

  /** The two mazes have the same dimensions, row count and row lengths. */
  ghost predicate SameShape(a: Maze, b: Maze) {
    && a.width == b.width
    && a.height == b.height
    && |a.grid| == |b.grid|
    && forall y :: 0 <= y < |a.grid| ==> |a.grid[y]| == |b.grid[y]|
  }

  /** The point names a cell of the grid. */
  predicate InRange(m: Maze, p: Point) {
    p.y < |m.grid| && p.x < |m.grid[p.y]|
  }

  /** `set_cell` only checks the row: a column past the end of an existing
      row would make the source panic. */
  predicate SetCellSafe(m: Maze, p: Point) {
    p.y < |m.grid| ==> p.x < |m.grid[p.y]|
  }

  /** Every cell outside `p` holds the same tile in both mazes. */
  ghost predicate SameCellsExcept(a: Maze, b: Maze, p: Point) {
    && SameShape(a, b)
    && forall y, x :: 0 <= y < |a.grid| && 0 <= x < |a.grid[y]| && Point(x, y) != p ==> a.grid[y][x] == b.grid[y][x]
  }

  /** `Maze::new`: `height` rows of `width` default tiles; start and finish
      at the origin. */
  function New(width: nat, height: nat): (m: Maze)
    ensures Valid(m) && m.width == width && m.height == height
    ensures forall p :: InRange(m, p) <==> p.x < width && p.y < height
    ensures forall p :: InRange(m, p) ==> GetCell(m, p) == Some(DefaultTile())
    ensures m.start == Point(0, 0) && m.goal == Point(0, 0)
  {
    Maze(width, height, seq(height, _ => seq(width, _ => DefaultTile())), Point(0, 0), Point(0, 0))
  }

  /** `get_cell`: the tile at `p`, or nothing when `p` is off the grid. */
  function GetCell(m: Maze, p: Point): (r: Option<Tile>)
    ensures r.None? <==> (p.y >= |m.grid| || p.x >= |m.grid[p.y]|)
    ensures r.Some? ==> r.value == m.grid[p.y][p.x]
  {
    if p.y < |m.grid| && p.x < |m.grid[p.y]| then Some(m.grid[p.y][p.x]) else None
  }

  /** `set_cell`: a row outside the grid makes it a no-op. */
  function SetCell(m: Maze, p: Point, t: Tile): (r: Maze)
    requires SetCellSafe(m, p)
    ensures p.y >= |m.grid| ==> r == m
    ensures InRange(m, p) ==> GetCell(r, p) == Some(t)
    ensures r.start == m.start && r.goal == m.goal && r.width == m.width && r.height == m.height
  {
    if p.y < |m.grid| then m.(grid := m.grid[p.y := m.grid[p.y][p.x := t]]) else m
  }

  /** `set_cell` touches no cell but `p` and keeps the shape of the grid. */
  lemma SetCellFrame(m: Maze, p: Point, t: Tile)
    requires SetCellSafe(m, p)
    ensures forall q :: q != p ==> GetCell(SetCell(m, p, t), q) == GetCell(m, q)
    ensures SameCellsExcept(m, SetCell(m, p, t), p)
    ensures forall q :: InRange(SetCell(m, p, t), q) <==> InRange(m, q)
    ensures Valid(m) ==> Valid(SetCell(m, p, t))
  {
  }

  /** `can_move`: off-grid points and walls are blocked. */
  function CanMove(m: Maze, p: Point): (b: bool)
    ensures b <==> (GetCell(m, p) == Some(Passage) || GetCell(m, p) == Some(BeenBefore))
    ensures b ==> InRange(m, p)
  {
    match GetCell(m, p)
    case None => false
    case Some(tile) => CanWalk(tile)
  }

  /** `fill`: overwrite every cell, row by row, with `t`. */
  method Fill(m: Maze, t: Tile) returns (r: Maze)
    requires Valid(m)
    ensures Valid(r) && SameShape(m, r)
    ensures r.start == m.start && r.goal == m.goal
    ensures forall p :: InRange(r, p) ==> GetCell(r, p) == Some(t)
  {
    r := m;
    var i := 0;
    while i < m.height
      invariant 0 <= i <= m.height
      invariant Valid(r) && SameShape(m, r)
      invariant r.start == m.start && r.goal == m.goal
      invariant forall y, x :: 0 <= y < i && 0 <= x < m.width ==> r.grid[y][x] == t
    {
      var j := 0;
      while j < m.width
        invariant 0 <= j <= m.width
        invariant Valid(r) && SameShape(m, r)
        invariant r.start == m.start && r.goal == m.goal
        invariant forall y, x :: 0 <= y < i && 0 <= x < m.width ==> r.grid[y][x] == t
        invariant forall x :: 0 <= x < j ==> r.grid[i][x] == t
      {
        SetCellFrame(r, Point(j, i), t);
        r := SetCell(r, Point(j, i), t);
        j := j + 1;
      }
      i := i + 1;
    }
  }

  function GetStart(m: Maze): Point {
    m.start
  }

  /** `set_start`: not checked against the grid. */
  function SetStart(m: Maze, p: Point): (r: Maze)
    ensures GetStart(r) == p
    ensures r.grid == m.grid && r.goal == m.goal && SameShape(m, r)
  {
    m.(start := p)
  }

  function GetFinish(m: Maze): Point {
    m.goal
  }

  /** `set_finish`: not checked against the grid. */
  function SetFinish(m: Maze, p: Point): (r: Maze)
    ensures GetFinish(r) == p
    ensures r.grid == m.grid && r.start == m.start && SameShape(m, r)
  {
    m.(goal := p)
  }

  /** Reading a cell back after writing it returns the written tile; a
      second write to the same cell wins over the first. */
  lemma SetThenGet(m: Maze, p: Point, t: Tile, u: Tile)
    requires SetCellSafe(m, p)
    ensures GetCell(SetCell(m, p, t), p) == (if InRange(m, p) then Some(t) else None)
    ensures SetCell(SetCell(m, p, t), p, u) == SetCell(m, p, u)
  {
    if p.y < |m.grid| {
      var row := m.grid[p.y];
      assert row[p.x := t][p.x := u] == row[p.x := u];
      assert m.grid[p.y := row[p.x := t]][p.y := row[p.x := u]] == m.grid[p.y := row[p.x := u]];
    }
  }

  /** Writing the tile a cell already holds changes nothing. */
  lemma SetCellSame(m: Maze, p: Point, t: Tile)
    requires GetCell(m, p) == Some(t)
    ensures SetCell(m, p, t) == m
  {
    assert m.grid[p.y][p.x := t] == m.grid[p.y];
    assert m.grid[p.y := m.grid[p.y]] == m.grid;
  }

  /** A walk through open cells: `can_move` allows every point of `p`, and
      each point is a 4-neighbour of the one before. */
  ghost predicate OpenWalk(m: Maze, p: seq<Point>) {
    && |p| > 0
    && (forall i :: 0 <= i < |p| ==> CanMove(m, p[i]))
    && (forall i :: 0 <= i < |p| - 1 ==> Adjacent(p[i], p[i + 1]))
  }

  /** A robot could walk from `a` to `b`. */
  ghost predicate Reaches(m: Maze, a: Point, b: Point) {
    exists p :: OpenWalk(m, p) && p[0] == a && p[|p| - 1] == b
  }

  /** Every open cell of the maze can be walked to from `root`. */
  ghost predicate ConnectedFrom(m: Maze, root: Point) {
    forall p :: CanMove(m, p) ==> Reaches(m, root, p)
  }

  /** Opening cells keeps every walk a walk, so whatever was reachable
      stays reachable. */
  lemma WalkWidens(a: Maze, b: Maze, p: seq<Point>)
    requires forall q :: CanMove(a, q) ==> CanMove(b, q)
    ensures OpenWalk(a, p) ==> OpenWalk(b, p)
    ensures forall x, y :: Reaches(a, x, y) ==> Reaches(b, x, y)
  {
    forall x, y | Reaches(a, x, y) ensures Reaches(b, x, y) {
      var w :| OpenWalk(a, w) && w[0] == x && w[|w| - 1] == y;
      assert OpenWalk(b, w);
    }
  }

  /** A walk to `b` extends to an open neighbour `c` of `b`. */
  lemma ReachesStep(m: Maze, a: Point, b: Point, c: Point)
    requires Reaches(m, a, b) && CanMove(m, c) && Adjacent(b, c)
    ensures Reaches(m, a, c)
  {
    var p :| OpenWalk(m, p) && p[0] == a && p[|p| - 1] == b;
    var p' := p + [c];
    assert OpenWalk(m, p') && p'[0] == a && p'[|p'| - 1] == c;
  }

  /** Walks can be taken backwards: reachability is symmetric. */
  lemma ReachesBack(m: Maze, a: Point, b: Point)
    requires Reaches(m, a, b)
    ensures Reaches(m, b, a)
  {
    var p :| OpenWalk(m, p) && p[0] == a && p[|p| - 1] == b;
    var r := seq(|p|, i requires 0 <= i < |p| => p[|p| - 1 - i]);
    forall i | 0 <= i < |r| - 1 ensures Adjacent(r[i], r[i + 1]) {
      assert Adjacent(p[|p| - 2 - i], p[|p| - 1 - i]);
    }
    assert OpenWalk(m, r) && r[0] == b && r[|r| - 1] == a;
  }

  /** On a valid maze, the cells are exactly the points below the width and
      height, and `can_move` agrees with `can_walk` on them. */
  lemma ValidRange(m: Maze, p: Point)
    requires Valid(m)
    ensures InRange(m, p) <==> p.x < m.width && p.y < m.height
    ensures CanMove(m, p) <==> p.x < m.width && p.y < m.height && CanWalk(m.grid[p.y][p.x])
  {
  }
}
