# Maze and robot simulator — a Dafny model of its sequential core

This project models the sequential core of a small Rust maze-and-robot
simulator and proves properties of it:

- **The maze grid** (`Maze<Tile>`, module `Mazes`). It is a row-major grid with a start and a finish. `get_cell` is bounds-checked, `set_cell` checks only the row, and `can_move` reads a missing cell or a wall as blocked.
- **The execution vocabulary** (`Execution`, `HeadingAlgebra`). It covers compass headings, relative facings, the literal rotation table `augment_heading` between them, the integer conversions, the tile type and the statistics record.
- **The two robots** (`DefaultRobots`, `ThreadedRobots`, with the shared one-step geometry in `Motion`). Each provides `look`, `face`, `set_maze`, `reset` and `advance`. `advance` is the step/collision counter update that also marks the vacated cell `BeenBefore`.
- **The polled controller wrapper** (`PolledControllers`, with its loop shape in `Polling`). Its tick loop runs one `control_robot` and one `advance` per iteration while the robot is off its goal and the wrapper is active.
- **The generators** (`Generators`, `PrimGenerators`, `GappedPrimGenerators`, `BlankGenerators`):
  - the randomised Prim generator, with its frontier/visited loop, a lexicographic termination measure and the mirror between its working grid and the maze;
  - the helpers of the "gapped" Prim generator, whose `generate_maze` never enters its loop;
  - the fixed 20 x 20 blank maze.

Modelling choices:

- **Points.** A point is a pair of naturals.
- **Steps North or West from 0.** In the source these underflow `usize`. Here the step has no target cell, which both robots read as a wall: `look` shows `Wall`, and `advance` counts a collision.
- **Column out of range in `set_cell`.** When the row exists, such a column makes the source panic, so it is a precondition (`SetCellSafe`). The other panics are preconditions too:
  - `Vec` indexing in the gapped generator;
  - `point_between` on points that are not two apart;
  - `gen_range` on an empty range;
  - Prim generation below 3 x 3, which underflows.
- **Randomness.** `rand::thread_rng` is replaced by an explicit list of choices, `rng: seq<nat>`, read at a cursor. A draw `gen_range(0..n)` is the choice at the cursor reduced modulo `n`. A used-up list yields 0. Generation is therefore a pure function of the list.
- **Controller.** The controller is a function from the robot's observable `View` to a `Facing`. Each tick applies it with `face`, then `advance`s the robot.
- **Shared maze.** The threaded robot's `Arc<RwLock<Maze>>` is an owned maze, and every lock acquisition succeeds.

## Model

| member | source | states |
|---|---|---|
| Execution.HeadingFromU32 | src/execution/mod.rs:51-60 | 1000, 1001 and 1002 read as North, East, South; every other value, and only those, reads as West |
| Execution.FacingFromI32 | src/execution/mod.rs:98-107 | 0, 1, 2 read as Ahead, Right, Behind (their quarter-turn counts); every other value, and only those, reads as Left |
| Execution.DefaultStatistics | src/execution/mod.rs:211-218 | the derived default statistics have zero steps, collisions and runs and the goal not reached |
| Execution.SetSteps | src/execution/mod.rs:221-227 | the setter is read back by its getter and the other three fields are unchanged |
| Execution.SetCollision | src/execution/mod.rs:229-235 | the setter is read back by its getter and the other three fields are unchanged |
| Execution.SetGoalReached | src/execution/mod.rs:237-243 | the setter is read back by its getter and the other three fields are unchanged |
| Execution.SetRunNumber | src/execution/mod.rs:245-251 | the setter is read back by its getter and the other three fields are unchanged |
| HeadingAlgebra.AugmentIsRotation | src/execution/mod.rs:63-87 | the literal table is a rotation: facing `f` turns the heading `Turns(f)` quarter turns clockwise |
| HeadingAlgebra.AugmentAllIsRotation | src/execution/mod.rs:63-87 | a sequence of facings turns the heading by the sum of their quarter turns, modulo 4 |
| HeadingAlgebra.WholeRevolutions | src/execution/mod.rs:63-87 | facings that add up to whole revolutions leave the heading unchanged |
| HeadingAlgebra.AheadIsIdentity | src/execution/mod.rs:66 | Ahead leaves every heading unchanged |
| HeadingAlgebra.FourLeftsAreIdentity | src/execution/mod.rs:73-78 | four Lefts return to the original heading |
| HeadingAlgebra.FourRightsAreIdentity | src/execution/mod.rs:79-84 | four Rights return to the original heading |
| HeadingAlgebra.BehindIsInvolution | src/execution/mod.rs:67-72 | Behind twice is the identity |
| HeadingAlgebra.LeftAndRightCancel | src/execution/mod.rs:73-84 | Left then Right, and Right then Left, are the identity |
| HeadingAlgebra.TwoQuarterTurnsAreBehind | src/execution/mod.rs:67-84 | two Lefts, and two Rights, both equal Behind |
| HeadingAlgebra.FacingBetween | src/execution/mod.rs:63-87 | every heading is reached from every other by exactly one facing |
| HeadingAlgebra.HeadingCodeRoundTrip | src/execution/mod.rs:44-60 | `Heading::from` inverts the declared discriminants 1000-1003 |
| HeadingAlgebra.FacingTurnsRoundTrip | src/execution/mod.rs:90-107 | `Facing::from` inverts the quarter-turn counts 0-3 |
| HeadingAlgebra.FacingCodeReadsAsLeft | src/execution/mod.rs:90-107 | the declared facing discriminants 2000-2003 all read back as Left |
| HeadingAlgebra.TileWalkability | src/execution/mod.rs:112-140 | `is_wall` holds only for Wall, `can_walk` exactly for Passage and BeenBefore, and the default tile is walkable |
| Mazes.New | src/generation/mod.rs:57-69 | `height` rows of `width` default (Passage) tiles; the cells are exactly the points below width and height; start and finish at the origin |
| Mazes.GetCell | src/generation/mod.rs:102-105 | no tile exactly when the row or the column is out of range, otherwise the tile stored there |
| Mazes.SetCell | src/generation/mod.rs:108-112 | a row out of range is a no-op; otherwise the cell reads back as the new tile; start, finish and sizes are kept; an in-row column out of range is excluded (the source panics) |
| Mazes.SetCellFrame | src/generation/mod.rs:108-112 | `set_cell` changes no other cell and keeps the grid's shape |
| Mazes.SetThenGet | src/generation/mod.rs:102-112 | a write is read back, and a second write to the same cell overrides the first |
| Mazes.SetCellSame | src/generation/mod.rs:108-112 | writing the tile a cell already holds leaves the maze unchanged |
| Mazes.CanMove | src/generation/mod.rs:118-123 | `can_move` holds exactly on in-range Passage or BeenBefore cells |
| Mazes.ValidRange | src/generation/mod.rs:102-123 | on a well-shaped maze the cells are the points below the sizes, and `can_move` is `can_walk` of the tile there |
| Mazes.Fill | src/generation/mod.rs:71-77 | every cell becomes the given tile; sizes, shape, start and finish are unchanged |
| Mazes.SetStart | src/generation/mod.rs:126-133 | `get_start` returns the point set, unchecked against the grid; the grid and finish are unchanged |
| Mazes.SetFinish | src/generation/mod.rs:135-143 | `get_finish` returns the point set, unchecked against the grid; the grid and start are unchanged |
| Mazes.WalkWidens | src/generation/mod.rs:118-123 | opening cells keeps every walk through `can_move` cells a walk, so reachability only grows |
| Mazes.ReachesStep | src/generation/mod.rs:118-123 | a walk to a cell extends to any open 4-neighbour of it |
| Mazes.ReachesBack | src/generation/mod.rs:118-123 | a walk through `can_move` cells can be taken backwards: reachability is symmetric |
| Motion.Neighbour | src/execution/robot.rs:172-179 | the cell one step along a heading is 4-adjacent and lies in that direction; it is missing exactly for North from row 0 and West from column 0 |
| Motion.SeenTile | src/execution/robot.rs:46 | a missing or off-grid cell is seen as Wall, any other as its tile; what is seen is walkable exactly when `can_move` allows the step |
| Motion.NeighbourReverses | src/execution/robot.rs:172-179 | stepping along a heading and then along its Behind returns to the start point |
| Motion.NeighbourInjective | src/execution/robot.rs:172-179 | distinct headings lead to distinct cells |
| Motion.WalkableIsSafe | src/execution/robot.rs:183-190 | a walkable target is on the grid, so marking it later is safe |
| DefaultRobots.Default | src/execution/robot.rs:17-30 | active, at (1, 1), target (0, 0), heading South, zero counters, and the fresh 0 x 0 maze `Maze::new(0, 0)` whose start and finish are (0, 0) |
| DefaultRobots.Look | src/execution/robot.rs:36-47 | the tile one step along the augmented heading, Wall when that cell is missing or off the grid |
| DefaultRobots.Face | src/execution/robot.rs:50-52 | the heading becomes `augment_heading(heading, f)` and nothing else changes |
| DefaultRobots.SetHeading | src/execution/robot.rs:55-57 | only the heading changes |
| DefaultRobots.SetMaze | src/execution/robot.rs:147-151 | the robot takes the maze, targets its finish and stands on its start; the other fields are kept |
| DefaultRobots.Reset | src/execution/robot.rs:159 | this robot's reset changes nothing |
| DefaultRobots.Advance | src/execution/robot.rs:170-192 | inactive: no change. Active and walkable: one more step and the robot moves one cell along its heading. Active and blocked: one more collision and no move. An active advance marks the vacated cell BeenBefore and no other cell changes (off the grid, the maze is unchanged); the maze keeps its shape; heading, target and runs are kept |
| DefaultRobots.LookPredictsAdvance | src/execution/robot.rs:170-192 | an active robot moves, and counts a step, exactly when `look(Ahead)` shows a walkable tile |
| DefaultRobots.LookAfterFace | src/execution/robot.rs:36-52 | looking along `f` sees what looking ahead sees after `face(f)` |
| DefaultRobots.AdvanceCountsOnce | src/execution/robot.rs:183-188 | an active advance raises exactly one of steps and collisions by one |
| ThreadedRobots.Default | src/execution/threaded_robot.rs:30-42 | at (1, 1), stored target (1, 1), heading East, zero counters, and the fresh maze `Maze::new(15, 15)`: every cell a passage, start and finish both (0, 0), so the goal the robot reports is (0, 0), not its stored target |
| ThreadedRobots.Look | src/execution/threaded_robot.rs:51-66 | the tile one step along the augmented heading, Wall when that cell is missing or off the grid |
| ThreadedRobots.Face | src/execution/threaded_robot.rs:47-49 | the heading becomes `augment_heading(heading, f)` and nothing else changes |
| ThreadedRobots.SetHeading | src/execution/threaded_robot.rs:84-86 | only the heading changes |
| ThreadedRobots.GoalLocation | src/execution/threaded_robot.rs:94-96 | the goal is the maze's finish, not the stored target |
| ThreadedRobots.SetSharedMaze | src/execution/threaded_robot.rs:24-27 | the shared-maze `set_maze` moves the robot to the start and leaves the stored target as it was |
| ThreadedRobots.SetMaze | src/execution/threaded_robot.rs:106-113 | the private `set_maze` targets the finish and stands on the start, so the goal read back equals the stored target |
| ThreadedRobots.Reset | src/execution/threaded_robot.rs:121-129 | back to the maze start, one more run, steps and collisions zeroed; heading, target and maze kept |
| ThreadedRobots.Advance | src/execution/threaded_robot.rs:140-172 | without any active guard: walkable means one more step and one cell along the heading, blocked means one more collision and no move; the vacated cell is marked BeenBefore and no other cell changes (off the grid, the maze is unchanged); the maze keeps its shape |
| ThreadedRobots.LookPredictsAdvance | src/execution/threaded_robot.rs:140-163 | the robot moves, and counts a step, exactly when `look(Ahead)` shows a walkable tile |
| ThreadedRobots.LookAfterFace | src/execution/threaded_robot.rs:47-66 | looking along `f` sees what looking ahead sees after `face(f)` |
| ThreadedRobots.AdvanceCountsOnce | src/execution/threaded_robot.rs:121-163 | every advance raises exactly one counter by one; after a reset, one advance leaves exactly one event counted |
| Polling.Poll | src/execution/polled_controller.rs:64-75 | the loop shape: the result is the state after `n` steps, no earlier state was done, and stopping before the fuel runs out means the result is done |
| Polling.NoneBeforeMeans | src/execution/polled_controller.rs:64 | "no earlier state was done" holds at every earlier step count |
| Polling.NoneBeforeFromAll | src/execution/polled_controller.rs:64 | conversely, a prefix with no done state satisfies "none before" |
| Polling.FirstDoneIsFirst | src/execution/polled_controller.rs:64 | any step count whose state is done comes no earlier than the loop's exit count |
| Polling.IterateKeeps | src/execution/polled_controller.rs:64-75 | a property every iteration keeps holds after any number of iterations |
| Polling.IterateCounts | src/execution/polled_controller.rs:64-75 | under a kept property, a measure every iteration raises by one has grown by exactly the number of iterations |
| PolledControllers.Face | src/execution/robot.rs:50-52 | `face` on either robot turns the heading by the facing and keeps location, goal, maze and counters |
| PolledControllers.Advance | src/execution/threaded_robot.rs:140-172 | `advance` on either robot: a counting robot's steps plus collisions grow by one and it moves exactly when the cell ahead is walkable; a non-counting robot is unchanged |
| PolledControllers.AdvanceFrame | src/execution/threaded_robot.rs:140-172 | `advance` on either robot writes no cell but the one the robot stood on, marks it BeenBefore when the robot acts, and keeps the maze's shape |
| PolledControllers.SetRobotMaze | src/execution/polled_controller.rs:55-58 | the robot stands on the maze start and aims at its finish |
| PolledControllers.New | src/execution/polled_controller.rs:31-37 | a new wrapper is inactive with delay 0 and a default robot |
| PolledControllers.SetRobot | src/execution/polled_controller.rs:47-49 | the robot is replaced and the flag and delay kept |
| PolledControllers.SetMaze | src/execution/polled_controller.rs:55-58 | delegates to the robot: location = maze start, goal = maze finish; flag and delay kept |
| PolledControllers.Reset | src/execution/polled_controller.rs:82-84 | only the active flag changes, to false |
| PolledControllers.SetDelay | src/execution/polled_controller.rs:87-94 | `get_delay` returns the delay set; the robot and flag are kept |
| PolledControllers.Tick | src/execution/polled_controller.rs:66-68 | one iteration is one face and one advance: a counting robot's steps plus collisions grow by exactly one, a non-counting robot stays; flag, delay and goal are kept |
| PolledControllers.TickFrame | src/execution/polled_controller.rs:66-68 | an iteration writes no maze cell but the one the robot stood on, which a counting robot marks BeenBefore |
| PolledControllers.RunCounts | src/execution/polled_controller.rs:64-75 | after `k` iterations a counting robot's steps plus collisions grew by exactly `k`, a non-counting robot has not moved, and flag, delay and goal are unchanged |
| PolledControllers.Start | src/execution/polled_controller.rs:61-79 | `start` sets the flag; a robot already on its goal is not ticked and needs nothing more; any other robot runs iterations until the first state with the robot on its goal or the flag cleared, and an exit before the fuel bound means the robot is on its goal |
| PolledControllers.StartStopsAtFirstArrival | src/execution/polled_controller.rs:61-64 | no iteration count before the exit puts the robot on its goal; a robot already on its goal is not ticked at all |
| PolledControllers.OneTickIntoWall | src/execution/polled_controller.rs:66-68 | one tick with an Ahead controller into a wall counts one collision and leaves the robot in place |
| Generators.GenRange | src/generation/prim_generator.rs:107-111 | the drawn index is below the range size and is the current choice reduced into range |
| Generators.RemoveAt | src/generation/prim_generator.rs:115 | `Vec::remove`: one element shorter, the others in their order |
| Generators.RemoveAtDropsOneCopy | src/generation/prim_generator.rs:115 | `Vec::remove` drops exactly one copy of the removed element (multiset) |
| Generators.SwapRemove | src/generation/prim_generator.rs:154 | `Vec::swap_remove`: one element shorter, the last element moved into the gap, the others in place |
| Generators.SwapRemoveDropsOneCopy | src/generation/prim_generator.rs:154 | `Vec::swap_remove` drops exactly one copy of the removed element (multiset) |
| PrimGenerators.SetOptions | src/generation/prim_generator.rs:43-50 | sizes below 3 in either direction leave the generator unchanged, others are stored |
| PrimGenerators.SetOptionsKeepsUsable | src/generation/prim_generator.rs:43-50 | `set_options` never makes usable options unusable, and a usable request is exactly one that is stored |
| PrimGenerators.Pred | src/generation/prim_generator.rs:121-122 | `saturating_sub(1)`: stays at 0, otherwise one less |
| PrimGenerators.GridGetPoint | src/generation/prim_generator.rs:171-181 | the point asked about is returned with its cell exactly when it is on the grid |
| PrimGenerators.Neighbours | src/generation/prim_generator.rs:120-125 | the four look-ups up, left, down, right, with the first two saturating at the edge |
| PrimGenerators.PassageCount | src/generation/prim_generator.rs:128-132 | zero exactly when no look-up found a passage |
| PrimGenerators.WallsToVisit | src/generation/prim_generator.rs:138-147 | a cell is pushed exactly when a look-up found it a wall and it is unvisited, and the pushed cells keep the look-up order |
| PrimGenerators.OnePassageFound | src/generation/prim_generator.rs:128-137 | a count of one means some look-up found a passage |
| PrimGenerators.PickIndex | src/generation/prim_generator.rs:107-112 | the index is in the frontier; a draw is made only when the frontier has more than one entry |
| PrimGenerators.CarveGrid | src/generation/prim_generator.rs:149 | the cell becomes a passage, nothing else changes and the shape is kept |
| PrimGenerators.Carve | src/generation/prim_generator.rs:149-150 | grid and maze are carved together, so the maze still mirrors the grid |
| PrimGenerators.Step | src/generation/prim_generator.rs:106-155 | the picked cell is marked visited; a visited pick is only removed; the grid changes only for an unvisited cell that sees exactly one passage |
| PrimGenerators.CarveKeepsPassages | src/generation/prim_generator.rs:149 | carving never turns a passage back into a wall |
| PrimGenerators.GridReachesWidens | src/generation/prim_generator.rs:149 | turning grid walls into passages keeps every reachable cell reachable |
| PrimGenerators.GridReachesStep | src/generation/prim_generator.rs:137-149 | a reachable grid cell's passage neighbour is reachable |
| PrimGenerators.PassageSeen | src/generation/prim_generator.rs:120-137 | the one passage a carved wall sees is a true 4-neighbour of it |
| PrimGenerators.CarveKeepsConnected | src/generation/prim_generator.rs:137-150 | carving a wall that sees exactly one passage keeps every passage reachable from the root through passages |
| PrimGenerators.RemovalsStayOnGrid | src/generation/prim_generator.rs:115 | removing a frontier entry keeps the rest on the grid |
| PrimGenerators.PushedStayOnGrid | src/generation/prim_generator.rs:138-147 | the cells pushed after a carve are on the grid |
| PrimGenerators.VisitShrinks | src/generation/prim_generator.rs:135 | visiting a new cell shrinks the set of unvisited cells |
| PrimGenerators.NewFrontierKeepsInv | src/generation/prim_generator.rs:114-116 | the loop invariant survives replacing the frontier by grid cells |
| PrimGenerators.VisitKeepsInv | src/generation/prim_generator.rs:135 | the loop invariant survives marking a grid cell visited |
| PrimGenerators.CarveKeepsInv | src/generation/prim_generator.rs:137-152 | the loop invariant survives carving an unvisited wall that sees one passage |
| PrimGenerators.CarvedFrontierOnGrid | src/generation/prim_generator.rs:151-154 | the frontier after a carving iteration is on the grid |
| PrimGenerators.StepFrontier | src/generation/prim_generator.rs:106-155 | the picked cell leaves the frontier exactly once (as a multiset); a carving iteration changes only that grid cell and adds its unvisited wall look-ups to the frontier; any other iteration keeps the grid |
| PrimGenerators.CarvingStepKeepsInv | src/generation/prim_generator.rs:135-154 | a carving iteration keeps the loop invariant |
| PrimGenerators.PlainStepKeepsInv | src/generation/prim_generator.rs:114-154 | an iteration that does not carve keeps the loop invariant |
| PrimGenerators.StepKeepsInv | src/generation/prim_generator.rs:105-155 | each iteration keeps the invariant (the maze mirrors the grid, the goal cell is a passage, passages are visited and all reachable from the goal cell, the frontier is on the grid) and lowers (unvisited cells, frontier length) lexicographically |
| PrimGenerators.LiftWalk | src/generation/prim_generator.rs:149-150 | a walk through grid passages shows as a walk through open maze cells |
| PrimGenerators.OpenShowsPassage | src/generation/prim_generator.rs:149-150 | an open cell of the mirrored maze shows a grid passage |
| PrimGenerators.MirrorReaches | src/generation/prim_generator.rs:149-150 | reaching a grid cell through passages shows as reaching its mirror in the maze |
| PrimGenerators.MirrorConnected | src/generation/prim_generator.rs:149-150 | a maze that mirrors a grid whose passages are all reachable from the goal cell has every open cell reachable from the finish |
| PrimGenerators.InvCarved | src/generation/prim_generator.rs:105-155 | the loop invariant gives the carved-maze properties |
| PrimGenerators.WallGrid | src/generation/prim_generator.rs:68-75 | the grid is `height - 1` rows of `width - 1` walls, and the maze writes change nothing |
| PrimGenerators.SeedInv | src/generation/prim_generator.rs:53-98 | the seeded state satisfies the loop invariant |
| PrimGenerators.SeedGrid | src/generation/prim_generator.rs:68-85 | the seeded grid is all walls but the goal cell, which alone is trivially connected |
| PrimGenerators.SeedMirrors | src/generation/prim_generator.rs:53-98 | the seeded maze shows the seeded grid |
| PrimGenerators.WalledMaze | src/generation/prim_generator.rs:53-57 | a new `width x height` maze with every cell a wall |
| PrimGenerators.Seed | src/generation/prim_generator.rs:53-98 | walled maze, all-wall grid with the goal carved and visited, and the two cells left of and above the goal on the frontier |
| PrimGenerators.CarveMaze | src/generation/prim_generator.rs:53-155 | the loop ends with an empty frontier, and the maze is `(w + 1) x (h + 1)`: walled all round, Wall/Passage only, start (1, 1), finish (w - 1, h - 1) on a passage, every open cell reachable from the finish |
| PrimGenerators.StartFix | src/generation/prim_generator.rs:157-164 | exactly when (1, 1) is a wall and (2, 1) a passage, the two cells trade tiles and nothing else changes; otherwise the maze is unchanged |
| PrimGenerators.StartFixIdempotent | src/generation/prim_generator.rs:157-164 | after the fix-up the start is never a wall beside a passage, so a second fix-up changes nothing |
| PrimGenerators.OpenStartSolvable | src/generation/prim_generator.rs:157-164 | when the carving opened the start itself, the fix-up leaves the maze alone and the finish is reachable from the start |
| PrimGenerators.GenerateMaze | src/generation/prim_generator.rs:52-167 | the output is `(w + 1) x (h + 1)` with start (1, 1) and finish (w - 1, h - 1) on a passage, and is the start fix-up of a carved maze, one whose open cells are all reachable from the finish |
| PrimGenerators.WalledInExample | src/generation/prim_generator.rs:157-164 | a 6 x 6 maze whose open cells are exactly the ten listed, none of them the start or its inner neighbours |
| PrimGenerators.ExampleReaches | src/generation/prim_generator.rs:105-155 | every open cell of the example is reachable from its finish |
| PrimGenerators.ExampleCarved | src/generation/prim_generator.rs:105-155 | the example has every property the carving loop guarantees |
| PrimGenerators.StartFixLeavesStartWalledIn | src/generation/prim_generator.rs:157-164 | on the example the fix-up does not fire: the start stays a wall with no open neighbour and the finish is not reachable from it |
| PrimGenerators.Corridor | src/generation/prim_generator.rs:157-164 | the corridor of the corrected fix-up runs inside the border from the start (k = 0) to the finish (k = w + h - 4) |
| PrimGenerators.CorridorSteps | src/generation/prim_generator.rs:157-164 | corridor cells are pairwise distinct and consecutive ones adjacent |
| PrimGenerators.CorridorReached | src/generation/prim_generator.rs:157-164 | an open stretch of corridor ending in a reachable cell is reachable all along |
| PrimGenerators.DigStart | src/generation/prim_generator.rs:157-164 | the corrected fix-up: only walls are opened, an open start leaves the maze as it was, the result is still carved, and the finish is reachable from the start |
| PrimGenerators.DigStartCarved | src/generation/prim_generator.rs:157-164 | opening the corridor up to its first open cell keeps the maze carved and joins the start to the finish |
| PrimGenerators.GenerateSolvableMaze | src/generation/prim_generator.rs:52-167 | generation with the corrected fix-up gives a carved maze whose finish is reachable from its start |
| GappedPrimGenerators.New | src/generation/actual_prim_generator.rs:22-27 | a new generator has the given options and an empty grid |
| GappedPrimGenerators.SetOptions | src/generation/actual_prim_generator.rs:33-35 | any options are stored, with no size check |
| GappedPrimGenerators.RealWidth | src/generation/actual_prim_generator.rs:82-84 | the real width is `2 width + 1`, always odd |
| GappedPrimGenerators.RealHeight | src/generation/actual_prim_generator.rs:86-88 | the real height is `2 height + 1`, always odd |
| GappedPrimGenerators.LegalIsInterior | src/generation/actual_prim_generator.rs:90-95 | a legal point and its unit neighbours are on the real grid; (1, 1) is legal exactly when both sizes are positive |
| GappedPrimGenerators.GetGrid | src/generation/actual_prim_generator.rs:78-80 | the stored cell, for points on the grid (indexing panics elsewhere) |
| GappedPrimGenerators.CoversReadable | src/generation/actual_prim_generator.rs:78-95 | a grid that covers the sizes can be read at every legal point, so around every point |
| GappedPrimGenerators.TwoGapped | src/generation/actual_prim_generator.rs:97-103 | exactly the cells two West, two East, two North, two South, in that order, for x, y >= 2 |
| GappedPrimGenerators.TwoGappedAreTwoApart | src/generation/actual_prim_generator.rs:97-103 | the gapped cells are exactly the points two apart along one axis |
| GappedPrimGenerators.Keep | src/generation/actual_prim_generator.rs:105-117 | the filter keeps exactly the legal points whose cell has the wanted state; only legal points are read, so only they must be on the grid; the kept points keep their order in the input |
| GappedPrimGenerators.FrontierAround | src/generation/actual_prim_generator.rs:105-110 | the frontier is exactly the legal points two apart that are walls |
| GappedPrimGenerators.NeighboursAround | src/generation/actual_prim_generator.rs:112-117 | the neighbours are exactly the legal points two apart that are passages |
| GappedPrimGenerators.FrontierAndNeighboursPartition | src/generation/actual_prim_generator.rs:105-117 | each legal gapped cell is in exactly one of the two lists |
| GappedPrimGenerators.PointBetween | src/generation/actual_prim_generator.rs:119-138 | the componentwise midpoint, for differences in {-2, 0, 2} including 0/0 and diagonals |
| GappedPrimGenerators.PointBetweenIsShared | src/generation/actual_prim_generator.rs:119-138 | the midpoint of two gapped cells is symmetric and adjacent to both |
| GappedPrimGenerators.ConnectRandomNeighbour | src/generation/actual_prim_generator.rs:140-147 | with a non-empty neighbour list and the written midpoint on the grid (the source panics otherwise), exactly the midpoint between the point and the drawn neighbour becomes a passage, on the grid and adjacent to both |
| GappedPrimGenerators.GenerateMaze | src/generation/actual_prim_generator.rs:41-74 | `2 height + 1` rows of `2 width + 1` walls are appended to the kept grid, and the maze returned is the fresh all-passage `width x height` one with start and finish at the origin |
| GappedPrimGenerators.FreshGenerateCovers | src/generation/actual_prim_generator.rs:47-53 | from an empty grid, the grid built covers every legal point, so every legal point and every point's legal gapped cells can be read |
| BlankGenerators.GenerateMaze | src/generation/blank_generator.rs:19-36 | 20 x 20, start (1, 1), finish (18, 18), Wall exactly on the border ring and Passage elsewhere, every write on the grid |
| BlankGenerators.BlankIsOpen | src/generation/blank_generator.rs:23-33 | start and finish are walkable, and exactly the cells off the border ring are |

## Left out

- src/execution/threaded_controller.rs is not part of this model. It is cross-thread coordination, and its tick loop repeats the polled one.
- src/execution/random_controller.rs is not part of this model. It is an example controller making one random draw; the model's controller is an arbitrary function.
- Console output is left out: `DefaultRobot::print` and the message at the end of `start`.
- Sleeping is left out. The delay only feeds `sleep`, so it is kept as a number.
- The poll callback and `set_poll_callback` are left out. They observe the robot and change nothing.
- The unimplemented stubs are left out: `read_maze`, `write_maze`, `get_options_ui` and `ThreadedRobot::get_maze`.
- The name and description strings of the traits are left out.
- Lock poisoning arms are left out: every lock is taken to succeed.
- `ThreadedRobot::get_maze` is left out. It hands out the shared maze; sharing between holders is not modelled.
- PolledControllers.Start: `control_robot` receives the robot mutably and may keep state. The model applies one stateless choice of facing per tick, computed from the robot's four looks, heading, location, goal and maze.
- PolledControllers.Start: termination depends on the controller, so the loop is bounded by a `fuel` argument.
- Counter overflow is not modelled: steps, collisions and runs are unbounded integers, not `i64`/`i32`. The same holds for the `u32` and `usize` arithmetic on generator sizes (`height * 2 + 1`, `width as usize + 1`).
- `GeneratorOptions`' `Default` is left out, so `GappedPrimGenerators.New` takes the options as an argument. Its two fields are taken as naturals.
- `PrimGenerator::new` is left out: it only stores the default options, which are left out as above.
- A used-up random choice list yields index 0. The source's random stream never runs out.
- PrimGenerators.GenerateMaze: connectivity is stated for the carved maze before the start fix-up, not for the maze returned. For the maze returned, neither connectivity nor reachability of the finish from the start holds in general (see Findings).
- GappedPrimGenerators.GenerateMaze: the body of its `while let` loop is not modelled. The frontier starts empty, so the loop exits at once. Its helpers are modelled one by one.

## Findings

| source | as written | input that shows it | evidently intended | confidence | as-written member | corrected member |
|---|---|---|---|---|---|---|
| src/generation/prim_generator.rs:157-164 | the start fix-up only trades (1, 1) and (2, 1) when (1, 1) is a wall and (2, 1) a passage, so a start whose East and South neighbours are both walls stays walled in | a 5 x 5 request whose carving ends in the maze `######`, `###.##`, `##...#`, `#.##.#`, `#....#`, `######` (choices 0, 0, 0, 0, 1, 5, 5, 8, 7, 9, 4, then 0s) | the start is open and the finish can be reached from it | high; not executed | PrimGenerators.StartFixLeavesStartWalledIn | PrimGenerators.DigStart |
