/** The sequential logic of `ThreadedRobot` (src/execution/threaded_robot.rs).
    The source keeps the maze behind a shared read-write lock; every lock
    acquisition is taken to succeed, so the maze is an owned value here. */
module ThreadedRobots {
  import opened Wrappers
  import opened Points
  import opened Execution
  import opened Mazes
  import opened Motion

  datatype ThreadedRobot = ThreadedRobot(
    location: Point,
    targetLoc: Point,
    heading: Heading,
    maze: Maze,
    steps: int,
    collisions: int,
    runs: int)

  /** `ThreadedRobot::default()`: a fresh 15 x 15 maze, all passage, whose
      start and finish are both (0, 0). The stored target (1, 1) is not the
      maze's goal. */
  function Default(): (r: ThreadedRobot)
    ensures r.location == Point(1, 1) && r.targetLoc == Point(1, 1) && r.heading == East
    ensures r.steps == 0 && r.collisions == 0 && r.runs == 0
    ensures Valid(r.maze) && r.maze.width == 15 && r.maze.height == 15
    ensures r.maze == New(15, 15)
    ensures r.maze.start == Point(0, 0) && GoalLocation(r) == Point(0, 0)
    ensures forall p :: InRange(r.maze, p) ==> GetCell(r.maze, p) == Some(DefaultTile())
  {
    ThreadedRobot(Point(1, 1), Point(1, 1), East, New(15, 15), 0, 0, 0)
  }

  /** `look`: the tile one step along the heading `f` would give, or Wall
      when that cell is missing or off the grid. Changes nothing. */
  function Look(r: ThreadedRobot, f: Facing): (t: Tile)
    ensures var q := Neighbour(r.location, Augment(r.heading, f));
            && (q.Some? && InRange(r.maze, q.value) ==> t == r.maze.grid[q.value.y][q.value.x])
            && (!(q.Some? && InRange(r.maze, q.value)) ==> t == Wall)
  {
    SeenTile(r.maze, Neighbour(r.location, Augment(r.heading, f)))
  }

  /** `face`: turn by `f`; nothing but the heading changes. */
  function Face(r: ThreadedRobot, f: Facing): (r': ThreadedRobot)
    ensures r'.heading == Augment(r.heading, f)
    ensures r'.location == r.location && r'.targetLoc == r.targetLoc && r'.maze == r.maze
    ensures r'.steps == r.steps && r'.collisions == r.collisions && r'.runs == r.runs
  {
    SetHeading(r, Augment(r.heading, f))
  }

  /** `set_heading`. */
  function SetHeading(r: ThreadedRobot, h: Heading): (r': ThreadedRobot)
    ensures r'.heading == h && r' == r.(heading := r'.heading)
  {
    r.(heading := h)
  }

  /** `get_goal_location` reads the maze's finish, not `target_loc`. */
  function GoalLocation(r: ThreadedRobot): (p: Point)
    ensures p == r.maze.goal
  {
    GetFinish(r.maze)
  }

  /** The crate-visible `set_maze` taking a shared maze: only the location
      moves to the start; `target_loc` is left as it was. */
  function SetSharedMaze(r: ThreadedRobot, m: Maze): (r': ThreadedRobot)
    ensures r'.maze == m && r'.location == m.start && r'.targetLoc == r.targetLoc
    ensures GoalLocation(r') == m.goal
    ensures r'.heading == r.heading && r'.steps == r.steps && r'.collisions == r.collisions && r'.runs == r.runs
  {
    r.(location := GetStart(m), maze := m)
  }

  /** Private `set_maze`: aim at the finish, stand on the start, keep a copy. */
  function SetMaze(r: ThreadedRobot, m: Maze): (r': ThreadedRobot)
    ensures r'.maze == m && r'.targetLoc == m.goal && r'.location == m.start
    ensures GoalLocation(r') == r'.targetLoc
    ensures r'.heading == r.heading && r'.steps == r.steps && r'.collisions == r.collisions && r'.runs == r.runs
  {
    r.(targetLoc := GetFinish(m), location := GetStart(m), maze := m)
  }

  /** Private `reset`: back to the start for a new run with cleared counters. */
  function Reset(r: ThreadedRobot): (r': ThreadedRobot)
    ensures r'.location == r.maze.start && r'.runs == r.runs + 1
    ensures r'.steps == 0 && r'.collisions == 0
    ensures r'.heading == r.heading && r'.targetLoc == r.targetLoc && r'.maze == r.maze
  {
    r.(location := GetStart(r.maze), runs := r.runs + 1, steps := 0, collisions := 0)
  }

  /** The robot may mark the cell it stands on without a panic. */
  predicate CanMark(r: ThreadedRobot) {
    SetCellSafe(r.maze, r.location)
  }

  /** Private `advance`: always steps (there is no active flag) along the
      stored heading if the target cell is walkable, otherwise counts a
      collision; then marks the cell left behind as BeenBefore, and no
      other cell. */
  function Advance(r: ThreadedRobot): (r': ThreadedRobot)
    requires CanMark(r)
    ensures r'.heading == r.heading && r'.targetLoc == r.targetLoc && r'.runs == r.runs
    ensures var q := Neighbour(r.location, r.heading);
            Walkable(r.maze, q) ==>
              r'.location == q.value && r'.steps == r.steps + 1 && r'.collisions == r.collisions
    ensures var q := Neighbour(r.location, r.heading);
            !Walkable(r.maze, q) ==>
              r'.location == r.location && r'.steps == r.steps && r'.collisions == r.collisions + 1
    ensures InRange(r.maze, r.location) ==> GetCell(r'.maze, r.location) == Some(BeenBefore)
    ensures r'.maze.start == r.maze.start && r'.maze.goal == r.maze.goal
    ensures SameCellsExcept(r.maze, r'.maze, r.location)
    ensures !InRange(r.maze, r.location) ==> r'.maze == r.maze
    ensures Valid(r.maze) ==> Valid(r'.maze)
    ensures CanMark(r')
  {
    var q := Neighbour(r.location, r.heading);
    SetCellFrame(r.maze, r.location, BeenBefore);
    var moved := if Walkable(r.maze, q)
                 then r.(steps := r.steps + 1, location := q.value)
                 else r.(collisions := r.collisions + 1);
    moved.(maze := SetCell(r.maze, r.location, BeenBefore))
  }

  /** What `look(Ahead)` shows decides what `advance` does. */
  lemma LookPredictsAdvance(r: ThreadedRobot)
    requires CanMark(r)
    ensures Advance(r).location != r.location <==> CanWalk(Look(r, Ahead))
    ensures Advance(r).steps == r.steps + 1 <==> CanWalk(Look(r, Ahead))
  {
    var q := Neighbour(r.location, r.heading);
    assert Augment(r.heading, Ahead) == r.heading;
    assert CanWalk(Look(r, Ahead)) <==> Walkable(r.maze, q);
  }

  /** Looking in direction `f` sees what looking ahead sees after facing `f`. */
  lemma LookAfterFace(r: ThreadedRobot, f: Facing)
    ensures Look(Face(r, f), Ahead) == Look(r, f)
  {
  }

  /** Every advance raises exactly one of the two counters by one, and a
      reset followed by an advance leaves exactly one event counted. */
  lemma AdvanceCountsOnce(r: ThreadedRobot)
    requires CanMark(r)
    ensures Advance(r).steps + Advance(r).collisions == r.steps + r.collisions + 1
    ensures Advance(r).steps >= r.steps && Advance(r).collisions >= r.collisions
    ensures CanMark(Reset(r)) ==> Advance(Reset(r)).steps + Advance(Reset(r)).collisions == 1
  {
    if CanMark(Reset(r)) {
      assert Advance(Reset(r)).steps + Advance(Reset(r)).collisions == Reset(r).steps + Reset(r).collisions + 1;
    }
  }
}
