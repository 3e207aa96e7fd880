/** One-step geometry shared by both robots (src/execution/robot.rs and
    src/execution/threaded_robot.rs compute it with the same literal match).
    A step North from row 0 or West from column 0 would underflow `usize`;
    here it has no neighbour, which the robots read as a wall. */
module Motion {
  import opened Wrappers
  import opened Points
  import opened Execution
  import opened Mazes

  /** The cell one step from `p` along heading `h`, if it exists. */
  function Neighbour(p: Point, h: Heading): (q: Option<Point>)
    ensures q.None? <==> (h == North && p.y == 0) || (h == West && p.x == 0)
    ensures q.Some? ==> Adjacent(p, q.value)
    ensures q.Some? && (h == North || h == South) ==> q.value.x == p.x
    ensures q.Some? && (h == East || h == West) ==> q.value.y == p.y
    ensures q.Some? && h == North ==> q.value.y < p.y
    ensures q.Some? && h == South ==> q.value.y > p.y
    ensures q.Some? && h == East ==> q.value.x > p.x
    ensures q.Some? && h == West ==> q.value.x < p.x
  {
    match h
    case North => if p.y == 0 then None else Some(Point(p.x, p.y - 1))
    case East => Some(Point(p.x + 1, p.y))
    case South => Some(Point(p.x, p.y + 1))
    case West => if p.x == 0 then None else Some(Point(p.x - 1, p.y))
  }

  /** What a robot sees at the (possibly missing) cell `q`: `get_cell`
      unwrapped with Wall as the fallback. */
  function SeenTile(m: Maze, q: Option<Point>): (t: Tile)
    ensures q.Some? && InRange(m, q.value) ==> t == m.grid[q.value.y][q.value.x]
    ensures !(q.Some? && InRange(m, q.value)) ==> t == Wall
    ensures CanWalk(t) <==> Walkable(m, q)
  {
    match q
    case None => Wall
    case Some(p) => GetCell(m, p).GetOr(Wall)
  }

  /** `can_move` on the step target; a missing neighbour is blocked. */
  predicate Walkable(m: Maze, q: Option<Point>) {
    q.Some? && CanMove(m, q.value)
  }

  /** Stepping one cell and then one cell the opposite way returns to the
      starting point. */
  lemma NeighbourReverses(p: Point, h: Heading)
    requires Neighbour(p, h).Some?
    ensures Neighbour(Neighbour(p, h).value, Augment(h, Behind)) == Some(p)
  {
  }

  /** Distinct headings lead to distinct neighbours. */
  lemma NeighbourInjective(p: Point, h: Heading, g: Heading)
    requires Neighbour(p, h).Some? && Neighbour(p, g).Some?
    requires Neighbour(p, h) == Neighbour(p, g)
    ensures h == g
  {
  }

  /** After a move to a walkable cell the robot stands inside the grid, so
      marking its cell is safe; staying put keeps the same guarantee. */
  lemma WalkableIsSafe(m: Maze, q: Option<Point>)
    requires Walkable(m, q)
    ensures SetCellSafe(m, q.value) && InRange(m, q.value)
  {
  }
}
