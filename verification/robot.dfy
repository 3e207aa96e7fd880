/** `DefaultRobot` (src/execution/robot.rs): a robot that owns its maze and
    only moves while its `active` flag is set. */
module DefaultRobots {
  import opened Wrappers
  import opened Points
  import opened Execution
  import opened Mazes
  import opened Motion

  datatype DefaultRobot = DefaultRobot(
    active: bool,
    location: Point,
    target: Point,
    maze: Maze,
    heading: Heading,
    steps: int,
    collisions: int,
    runs: int)

  /** `DefaultRobot::default()`. */
  function Default(): (r: DefaultRobot)
    ensures r.active && r.location == Point(1, 1) && r.target == Point(0, 0)
    ensures r.heading == South && r.steps == 0 && r.collisions == 0 && r.runs == 0
    ensures Valid(r.maze) && r.maze.width == 0 && r.maze.height == 0
    ensures r.maze == New(0, 0) && r.maze.start == Point(0, 0) && r.maze.goal == Point(0, 0)
  {
    DefaultRobot(true, Point(1, 1), Point(0, 0), New(0, 0), South, 0, 0, 0)
  }

  /** `look`: the tile one step along the heading `f` would give, or Wall
      when that cell is missing or off the grid. Changes nothing. */
  function Look(r: DefaultRobot, f: Facing): (t: Tile)
    ensures var q := Neighbour(r.location, Augment(r.heading, f));
            && (q.Some? && InRange(r.maze, q.value) ==> t == r.maze.grid[q.value.y][q.value.x])
            && (!(q.Some? && InRange(r.maze, q.value)) ==> t == Wall)
  {
    SeenTile(r.maze, Neighbour(r.location, Augment(r.heading, f)))
  }

  /** `face`: turn by `f`; nothing but the heading changes. */
  function Face(r: DefaultRobot, f: Facing): (r': DefaultRobot)
    ensures r'.heading == Augment(r.heading, f)
    ensures r'.location == r.location && r'.target == r.target && r'.maze == r.maze
    ensures r'.active == r.active && r'.steps == r.steps && r'.collisions == r.collisions && r'.runs == r.runs
  {
    SetHeading(r, Augment(r.heading, f))
  }

  /** `set_heading`. */
  function SetHeading(r: DefaultRobot, h: Heading): (r': DefaultRobot)
    ensures r'.heading == h && r' == r.(heading := r'.heading)
  {
    r.(heading := h)
  }

  /** Private `set_maze`: take the maze, aim at its finish and stand on its start. */
  function SetMaze(r: DefaultRobot, m: Maze): (r': DefaultRobot)
    ensures r'.maze == m && r'.target == m.goal && r'.location == m.start
    ensures r'.active == r.active && r'.heading == r.heading
    ensures r'.steps == r.steps && r'.collisions == r.collisions && r'.runs == r.runs
  {
    r.(maze := m, target := GetFinish(m), location := GetStart(m))
  }

  /** Private `reset` of this robot does nothing. */
  function Reset(r: DefaultRobot): (r': DefaultRobot)
    ensures r' == r
  {
    r
  }

  /** The robot may mark the cell it stands on without a panic. */
  predicate CanMark(r: DefaultRobot) {
    SetCellSafe(r.maze, r.location)
  }

  /** Private `advance`: when active, step along the stored heading if the
      target cell is walkable (one more step) or stay put (one more
      collision), and mark the cell left behind as BeenBefore; no other
      cell of the maze changes. */
  function Advance(r: DefaultRobot): (r': DefaultRobot)
    requires CanMark(r)
    ensures !r.active ==> r' == r
    ensures r'.active == r.active && r'.heading == r.heading && r'.target == r.target && r'.runs == r.runs
    ensures var q := Neighbour(r.location, r.heading);
            r.active && Walkable(r.maze, q) ==>
              r'.location == q.value && r'.steps == r.steps + 1 && r'.collisions == r.collisions
    ensures var q := Neighbour(r.location, r.heading);
            r.active && !Walkable(r.maze, q) ==>
              r'.location == r.location && r'.steps == r.steps && r'.collisions == r.collisions + 1
    ensures r.active && InRange(r.maze, r.location) ==> GetCell(r'.maze, r.location) == Some(BeenBefore)
    ensures r'.maze.start == r.maze.start && r'.maze.goal == r.maze.goal
    ensures SameCellsExcept(r.maze, r'.maze, r.location)
    ensures !InRange(r.maze, r.location) ==> r'.maze == r.maze
    ensures Valid(r.maze) ==> Valid(r'.maze)
    ensures CanMark(r')
  {
    if r.active then
      var q := Neighbour(r.location, r.heading);
      SetCellFrame(r.maze, r.location, BeenBefore);
      var moved := if Walkable(r.maze, q)
                   then r.(steps := r.steps + 1, location := q.value)
                   else r.(collisions := r.collisions + 1);
      moved.(maze := SetCell(r.maze, r.location, BeenBefore))
    else
      r
  }

  /** What `look(Ahead)` shows decides what `advance` does: an active robot
      moves exactly when the tile ahead is walkable. */
  lemma LookPredictsAdvance(r: DefaultRobot)
    requires CanMark(r) && r.active
    ensures Advance(r).location != r.location <==> CanWalk(Look(r, Ahead))
    ensures Advance(r).steps == r.steps + 1 <==> CanWalk(Look(r, Ahead))
  {
    var q := Neighbour(r.location, r.heading);
    assert Augment(r.heading, Ahead) == r.heading;
    assert CanWalk(Look(r, Ahead)) <==> Walkable(r.maze, q);
  }

  /** Looking in direction `f` sees what looking ahead sees after facing `f`. */
  lemma LookAfterFace(r: DefaultRobot, f: Facing)
    ensures Look(Face(r, f), Ahead) == Look(r, f)
  {
  }

  /** Every active advance raises exactly one of the two counters by one. */
  lemma AdvanceCountsOnce(r: DefaultRobot)
    requires CanMark(r) && r.active
    ensures Advance(r).steps + Advance(r).collisions == r.steps + r.collisions + 1
    ensures Advance(r).steps >= r.steps && Advance(r).collisions >= r.collisions
  {
  }
}
