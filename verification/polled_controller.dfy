/** `PolledControllerWrapper` (src/execution/polled_controller.rs): drives a
    robot tick by tick, asking the controller for a facing and then
    advancing the robot, until the robot stands on its goal or the wrapper
    is deactivated.

    The wrapper is generic over the robot; `Bot` gathers the two robots of
    the crate and dispatches the `Robot` trait to them. The controller is a
    function from what it can observe of the robot to a facing, which the
    wrapper applies with `face`. */
module PolledControllers {
  import opened Wrappers
  import opened Points
  import opened Execution
  import opened Mazes
  import opened Motion
  import D = DefaultRobots
  import T = ThreadedRobots
  import Polling

  // ---------------------------------------------------------------------
  // The robot behind the wrapper
  // ---------------------------------------------------------------------

  datatype Bot = Plain(plain: D.DefaultRobot) | Threaded(threaded: T.ThreadedRobot)

  datatype RobotKind = PlainKind | ThreadedKind

  /** `R::default()` for the chosen robot type. */
  function DefaultBot(kind: RobotKind): Bot {
    match kind
    case PlainKind => Plain(D.Default())
    case ThreadedKind => Threaded(T.Default())
  }

  function Location(b: Bot): Point {
    match b
    case Plain(r) => r.location
    case Threaded(r) => r.location
  }

  /** `get_goal_location`: the stored target for the default robot, the
      maze's finish for the threaded one. */
  function Goal(b: Bot): Point {
    match b
    case Plain(r) => r.target
    case Threaded(r) => T.GoalLocation(r)
  }

  function HeadingOf(b: Bot): Heading {
    match b
    case Plain(r) => r.heading
    case Threaded(r) => r.heading
  }

  function MazeOf(b: Bot): Maze {
    match b
    case Plain(r) => r.maze
    case Threaded(r) => r.maze
  }

  function Steps(b: Bot): int {
    match b
    case Plain(r) => r.steps
    case Threaded(r) => r.steps
  }

  function Collisions(b: Bot): int {
    match b
    case Plain(r) => r.collisions
    case Threaded(r) => r.collisions
  }

  /** Whether `advance` does anything: the default robot ignores it while
      inactive, the threaded robot always acts. */
  predicate Counting(b: Bot) {
    b.Threaded? || b.plain.active
  }

  predicate CanMark(b: Bot) {
    match b
    case Plain(r) => D.CanMark(r)
    case Threaded(r) => T.CanMark(r)
  }

  predicate AtGoal(b: Bot) {
    Location(b) == Goal(b)
  }

  function Look(b: Bot, f: Facing): Tile {
    match b
    case Plain(r) => D.Look(r, f)
    case Threaded(r) => T.Look(r, f)
  }

  function Face(b: Bot, f: Facing): (b': Bot)
    ensures HeadingOf(b') == Augment(HeadingOf(b), f)
    ensures Location(b') == Location(b) && Goal(b') == Goal(b) && MazeOf(b') == MazeOf(b)
    ensures Steps(b') == Steps(b) && Collisions(b') == Collisions(b)
    ensures Counting(b') == Counting(b) && CanMark(b') == CanMark(b)
  {
    match b
    case Plain(r) => Plain(D.Face(r, f))
    case Threaded(r) => Threaded(T.Face(r, f))
  }

  function Advance(b: Bot): (b': Bot)
    requires CanMark(b)
    ensures CanMark(b') && Counting(b') == Counting(b) && Goal(b') == Goal(b)
    ensures Counting(b) ==> Steps(b') + Collisions(b') == Steps(b) + Collisions(b) + 1
    ensures !Counting(b) ==> b' == b
    ensures Counting(b) ==> (Location(b') != Location(b) <==> Walkable(MazeOf(b), Neighbour(Location(b), HeadingOf(b))))
  {
    match b
    case Plain(r) => Plain(D.Advance(r))
    case Threaded(r) => Threaded(T.Advance(r))
  }

  /** `advance` writes at most the cell the robot stood on, marking it when
      the robot acts, and keeps the shape of the maze. */
  lemma AdvanceFrame(b: Bot)
    requires CanMark(b)
    ensures SameCellsExcept(MazeOf(b), MazeOf(Advance(b)), Location(b))
    ensures Counting(b) && InRange(MazeOf(b), Location(b)) ==> GetCell(MazeOf(Advance(b)), Location(b)) == Some(BeenBefore)
    ensures Valid(MazeOf(b)) ==> Valid(MazeOf(Advance(b)))
  {
  }

  /** The private `set_maze` of the robot. */
  function SetRobotMaze(b: Bot, m: Maze): (b': Bot)
    ensures Location(b') == m.start && Goal(b') == m.goal && MazeOf(b') == m
    ensures Counting(b') == Counting(b)
  {
    match b
    case Plain(r) => Plain(D.SetMaze(r, m))
    case Threaded(r) => Threaded(T.SetMaze(r, m))
  }

  // ---------------------------------------------------------------------
  // What a controller can observe
  // ---------------------------------------------------------------------

  /** What the controller is given of the robot: the four looks, the
      heading, the location, the goal and the whole maze, all read through
      the public `Robot` trait. */
  datatype View = View(ahead: Tile, right: Tile, behind: Tile, left: Tile,
                       heading: Heading, location: Point, goal: Point, maze: Maze)

  function ViewOf(b: Bot): View {
    View(Look(b, Ahead), Look(b, Right), Look(b, Behind), Look(b, Left),
         HeadingOf(b), Location(b), Goal(b), MazeOf(b))
  }

  // ---------------------------------------------------------------------
  // The wrapper
  // ---------------------------------------------------------------------

  datatype Wrapper = Wrapper(robot: Bot, active: bool, delay: i32)

  /** `new` and `with_controller`: inactive, no delay, default robot. The
      controller is not stored; it is handed to `Start` instead. */
  function New(kind: RobotKind): (w: Wrapper)
    ensures !w.active && w.delay == 0 && w.robot == DefaultBot(kind)
  {
    Wrapper(DefaultBot(kind), false, 0)
  }

  /** `set_robot`. */
  function SetRobot(w: Wrapper, b: Bot): (w': Wrapper)
    ensures w'.robot == b && w'.active == w.active && w'.delay == w.delay
  {
    w.(robot := b)
  }

  /** `set_maze` hands the maze to the robot, which moves to the start and
      aims at the finish. */
  function SetMaze(w: Wrapper, m: Maze): (w': Wrapper)
    ensures Location(w'.robot) == m.start && Goal(w'.robot) == m.goal && MazeOf(w'.robot) == m
    ensures w'.active == w.active && w'.delay == w.delay
  {
    w.(robot := SetRobotMaze(w.robot, m))
  }

  /** `reset`: a cooperative stop; only the active flag changes. */
  function Reset(w: Wrapper): (w': Wrapper)
    ensures !w'.active
    ensures w'.robot == w.robot && w'.delay == w.delay
  {
    w.(active := false)
  }

  function SetDelay(w: Wrapper, delay: i32): (w': Wrapper)
    ensures GetDelay(w') == delay
    ensures w'.robot == w.robot && w'.active == w.active
  {
    w.(delay := delay)
  }

  function GetDelay(w: Wrapper): i32 {
    w.delay
  }

  /** A wrapper whose robot can be advanced without a panic: the
      precondition of `advance` that every tick needs. */
  type Ready = w: Wrapper | CanMark(w.robot) witness Wrapper(Plain(D.Default()), false, 0)

  /** One iteration of the loop in `start`: one `control_robot` (modelled as
      one `face` chosen from the view) followed by one `advance`. */
  function Tick(w: Ready, control: View -> Facing): (w': Ready)
    ensures w'.active == w.active && w'.delay == w.delay
    ensures Counting(w'.robot) == Counting(w.robot) && Goal(w'.robot) == Goal(w.robot)
    ensures Counting(w.robot) ==>
      Steps(w'.robot) + Collisions(w'.robot) == Steps(w.robot) + Collisions(w.robot) + 1
    ensures !Counting(w.robot) ==>
      Location(w'.robot) == Location(w.robot) && Steps(w'.robot) == Steps(w.robot)
      && Collisions(w'.robot) == Collisions(w.robot)
  {
    w.(robot := Advance(Face(w.robot, control(ViewOf(w.robot)))))
  }

  /** A tick writes at most the cell the robot stood on: every other cell of
      the maze, and its shape, are kept. */
  lemma TickFrame(w: Ready, control: View -> Facing)
    ensures SameCellsExcept(MazeOf(w.robot), MazeOf(Tick(w, control).robot), Location(w.robot))
    ensures Counting(w.robot) && InRange(MazeOf(w.robot), Location(w.robot)) ==>
      GetCell(MazeOf(Tick(w, control).robot), Location(w.robot)) == Some(BeenBefore)
  {
    var b := Face(w.robot, control(ViewOf(w.robot)));
    AdvanceFrame(b);
    assert Tick(w, control).robot == Advance(b);
  }

  /** The tick as a step function for the polling loop. */
  function TickWith(control: View -> Facing): Ready -> Ready {
    w => Tick(w, control)
  }

  /** The loop condition of `start` fails: the robot is on its goal or the
      wrapper is inactive. */
  predicate Stopped(w: Ready) {
    AtGoal(w.robot) || !w.active
  }

  /** The wrapper after `k` iterations. */
  function Run(w: Ready, control: View -> Facing, k: nat): Ready {
    Polling.Iterate(TickWith(control), w, k)
  }

  /** Each iteration performs exactly one `advance`: a counting robot's
      steps plus collisions grow by exactly the number of iterations, a
      non-counting robot never leaves its cell, and neither the flag, the
      delay nor the goal changes. */
  lemma RunCounts(w: Ready, control: View -> Facing, k: nat)
    ensures Run(w, control, k).active == w.active && Run(w, control, k).delay == w.delay
    ensures Counting(Run(w, control, k).robot) == Counting(w.robot)
    ensures Goal(Run(w, control, k).robot) == Goal(w.robot)
    ensures Counting(w.robot) ==>
      Steps(Run(w, control, k).robot) + Collisions(Run(w, control, k).robot) == Steps(w.robot) + Collisions(w.robot) + k
    ensures !Counting(w.robot) ==>
      Location(Run(w, control, k).robot) == Location(w.robot)
      && Steps(Run(w, control, k).robot) == Steps(w.robot)
      && Collisions(Run(w, control, k).robot) == Collisions(w.robot)
  {
    if Counting(w.robot) {
      var keep := (t: Ready) =>
        t.active == w.active && t.delay == w.delay && Counting(t.robot) && Goal(t.robot) == Goal(w.robot);
      var measure := (t: Ready) => Steps(t.robot) + Collisions(t.robot);
      Polling.IterateCounts(TickWith(control), keep, measure, w, k);
    } else {
      var keep := (t: Ready) =>
        && t.active == w.active && t.delay == w.delay && !Counting(t.robot) && Goal(t.robot) == Goal(w.robot)
        && Location(t.robot) == Location(w.robot) && Steps(t.robot) == Steps(w.robot)
        && Collisions(t.robot) == Collisions(w.robot);
      Polling.IterateKeeps(TickWith(control), keep, w, k);
    }
  }

  /** `start`: set the wrapper active and tick while the robot is not on its
      goal and the wrapper is active; `fuel` bounds the number of ticks,
      since termination depends on the controller. The loop stops at the
      first tick count whose state fails the loop condition. Only a robot
      off its goal is ever ticked, so only such a robot needs a maze it can
      mark. */
  method Start(w: Wrapper, control: View -> Facing, fuel: nat) returns (r: Wrapper, ticks: nat)
    requires AtGoal(w.robot) || CanMark(w.robot)
    ensures r.active && r.delay == w.delay
    ensures ticks <= fuel
    ensures AtGoal(w.robot) ==> ticks == 0 && r == w.(active := true)
    ensures CanMark(w.robot) ==> r == Run(w.(active := true), control, ticks)
    ensures CanMark(w.robot) ==> Polling.NoneBefore<Ready>(TickWith(control), Stopped, w.(active := true), ticks)
    ensures ticks < fuel ==> AtGoal(r.robot)
  {
    if !CanMark(w.robot) {
      r, ticks := w.(active := true), 0;
      return;
    }
    var w1: Ready := w.(active := true);
    var s;
    s, ticks := Polling.Poll(w1, TickWith(control), Stopped, fuel);
    assert ticks > 0 ==> !Stopped(w1) by {
      if ticks > 0 {
        Polling.NoneBeforeMeans(TickWith(control), Stopped, w1, ticks, 0);
      }
    }
    RunCounts(w1, control, ticks);
    r := s;
  }

  /** Since nothing in the loop clears the flag, the loop stops exactly at
      the first arrival: no earlier tick count put the robot on its goal,
      and a robot already on its goal is not ticked at all. */
  lemma StartStopsAtFirstArrival(w: Ready, control: View -> Facing, ticks: nat, k: nat)
    requires w.active
    requires Polling.NoneBefore(TickWith(control), Stopped, w, ticks)
    ensures k < ticks ==> !AtGoal(Run(w, control, k).robot)
    ensures AtGoal(Run(w, control, k).robot) ==> ticks <= k
    ensures AtGoal(w.robot) ==> ticks == 0
  {
    RunCounts(w, control, k);
    if k < ticks {
      Polling.NoneBeforeMeans(TickWith(control), Stopped, w, ticks, k);
    }
  }

  /** A robot on (1, 1) heading South with a wall at (1, 2), under a
      controller that always says Ahead, collides once in one tick and
      stays where it is. */
  lemma OneTickIntoWall(w: Ready)
    requires Counting(w.robot)
    requires Location(w.robot) == Point(1, 1) && HeadingOf(w.robot) == South
    requires GetCell(MazeOf(w.robot), Point(1, 2)) == Some(Wall)
    ensures Collisions(Run(w, AlwaysAhead, 1).robot) == Collisions(w.robot) + 1
    ensures Steps(Run(w, AlwaysAhead, 1).robot) == Steps(w.robot)
    ensures Location(Run(w, AlwaysAhead, 1).robot) == Point(1, 1)
  {
    var b := Face(w.robot, Ahead);
    assert HeadingOf(b) == South;
    assert Neighbour(Point(1, 1), South) == Some(Point(1, 2));
    assert !Walkable(MazeOf(b), Neighbour(Location(b), HeadingOf(b)));
    assert Run(w, AlwaysAhead, 1) == Tick(w, AlwaysAhead);
  }

  /** A controller that never turns. */
  function AlwaysAhead(v: View): Facing {
    Ahead
  }
}
