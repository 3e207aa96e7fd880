/** `PrimGenerator` (src/generation/prim_generator.rs): randomised Prim on a
    working grid of `(width - 1) x (height - 1)` cells, mirrored into a
    `(width + 1) x (height + 1)` maze whose cell `(x + 1, y + 1)` shows
    grid cell `(x, y)`. The random source is an explicit list of choices. */
module PrimGenerators {
  import opened Wrappers
  import opened Points
  import opened Execution
  import opened Mazes
  import opened Generators

  /** `CellType`: the working grid's two states. */
  datatype CellType = Wall | Passage

  /** A working-grid coordinate `(x, y)`, as the source's `(usize, usize)`. */
  type Cell = (nat, nat)

  type Grid = seq<seq<CellType>>

  datatype PrimGenerator = PrimGenerator(options: GeneratorOptions)

  // ---------------------------------------------------------------------
  // Options
  // ---------------------------------------------------------------------

  /** `set_options`: sizes below 3 in either direction are ignored. */
  function SetOptions(g: PrimGenerator, o: GeneratorOptions): (g': PrimGenerator)
    ensures o.width < 3 || o.height < 3 ==> g' == g
    ensures o.width >= 3 && o.height >= 3 ==> g'.options == o
  {
    if o.width < 3 || o.height < 3 then g else g.(options := o)
  }

  /** Sizes the generator can run on. */
  predicate Usable(o: GeneratorOptions) {
    o.width >= 3 && o.height >= 3
  }

  /** `set_options` never makes usable options unusable. */
  lemma SetOptionsKeepsUsable(g: PrimGenerator, o: GeneratorOptions)
    requires Usable(g.options)
    ensures Usable(SetOptions(g, o).options)
    ensures Usable(o) <==> SetOptions(g, o).options == o || (g.options == o)
  {
  }

  // ---------------------------------------------------------------------
  // Grid look-ups
  // ---------------------------------------------------------------------

  predicate InGrid(grid: Grid, c: Cell) {
    c.1 < |grid| && c.0 < |grid[c.1]|
  }

  /** `usize::saturating_sub(1)`. */
  function Pred(n: nat): (r: nat)
    ensures n == 0 ==> r == 0
    ensures n > 0 ==> r + 1 == n
  {
    if n == 0 then 0 else n - 1
  }

  /** `grid_get_point`: the cell's state if it is on the grid, paired with
      the point asked about. */
  function GridGetPoint(grid: Grid, c: Cell): (r: (Option<CellType>, Cell))
    ensures r.1 == c
    ensures r.0.Some? <==> InGrid(grid, c)
    ensures r.0.Some? ==> r.0.value == grid[c.1][c.0]
  {
    if c.1 < |grid| then
      (if c.0 < |grid[c.1]| then Some(grid[c.1][c.0]) else None, c)
    else
      (None, c)
  }

  /** The four look-ups of one loop iteration: up, left, down, right, with
      the first two saturating at 0 (so at an edge they look at `c` itself). */
  function Neighbours(grid: Grid, c: Cell): (ns: seq<(Option<CellType>, Cell)>)
    ensures |ns| == 4
    ensures forall k :: 0 <= k < 4 ==> ns[k] == GridGetPoint(grid, ns[k].1)
    ensures ns[0].1 == (c.0, Pred(c.1)) && ns[1].1 == (Pred(c.0), c.1)
    ensures ns[2].1 == (c.0, c.1 + 1) && ns[3].1 == (c.0 + 1, c.1)
  {
    [ GridGetPoint(grid, (c.0, Pred(c.1))),
      GridGetPoint(grid, (Pred(c.0), c.1)),
      GridGetPoint(grid, (c.0, c.1 + 1)),
      GridGetPoint(grid, (c.0 + 1, c.1)) ]
  }

  /** How many look-ups found a passage. */
  function PassageCount(ns: seq<(Option<CellType>, Cell)>): (n: nat)
    ensures n <= |ns|
    ensures n == 0 <==> forall k :: 0 <= k < |ns| ==> ns[k].0 != Some(CellType.Passage)
    decreases |ns|
  {
    if |ns| == 0 then 0
    else (if ns[0].0 == Some(CellType.Passage) then 1 else 0) + PassageCount(ns[1..])
  }

  /** The cells a look-up list asked about, in its order. */
  function CellsOf(ns: seq<(Option<CellType>, Cell)>): (cs: seq<Cell>)
    ensures |cs| == |ns| && forall k :: 0 <= k < |ns| ==> cs[k] == ns[k].1
    decreases |ns|
  {
    if |ns| == 0 then [] else [ns[0].1] + CellsOf(ns[1..])
  }

  /** The look-ups that found an unvisited wall, in order: what the loop
      adds to the frontier after carving. */
  function WallsToVisit(ns: seq<(Option<CellType>, Cell)>, visited: set<Cell>): (r: seq<Cell>)
    ensures |r| <= |ns|
    ensures forall c :: c in r <==> (Some(CellType.Wall), c) in ns && c !in visited
    ensures Subsequence(r, CellsOf(ns))
    decreases |ns|
  {
    if |ns| == 0 then []
    else
      var rest := WallsToVisit(ns[1..], visited);
      assert CellsOf(ns)[1..] == CellsOf(ns[1..]);
      if ns[0].0 == Some(CellType.Wall) && ns[0].1 !in visited then
        assert ([ns[0].1] + rest)[1..] == rest;
        [ns[0].1] + rest
      else
        rest
  }

  /** A one-passage look-up list names a passage cell. */
  lemma {:induction false} OnePassageFound(ns: seq<(Option<CellType>, Cell)>)
    requires PassageCount(ns) == 1
    ensures exists k :: 0 <= k < |ns| && ns[k].0 == Some(CellType.Passage)
    decreases |ns|
  {
    if ns[0].0 != Some(CellType.Passage) {
      OnePassageFound(ns[1..]);
      var k :| 0 <= k < |ns[1..]| && ns[1..][k].0 == Some(CellType.Passage);
      assert ns[k + 1].0 == Some(CellType.Passage);
    }
  }

  // ---------------------------------------------------------------------
  // The maze a grid is mirrored into
  // ---------------------------------------------------------------------

  /** The tile the maze shows at `(mx, my)` for the working grid: grid cell
      `(mx - 1, my - 1)` when it is a passage, a wall everywhere else. */
  function Shown(grid: Grid, mx: nat, my: nat): Tile {
    if 1 <= mx && 1 <= my && InGrid(grid, (mx - 1, my - 1)) && grid[my - 1][mx - 1] == CellType.Passage
    then Tile.Passage
    else Tile.Wall
  }

  /** The grid has `height - 1` rows of `width - 1` cells. */
  ghost predicate GridShape(grid: Grid, w: nat, h: nat) {
    && |grid| == h - 1
    && forall y :: 0 <= y < |grid| ==> |grid[y]| == w - 1
  }

  /** The maze is `(w + 1) x (h + 1)` and shows the grid. */
  ghost predicate Mirrors(m: Maze, grid: Grid, w: nat, h: nat) {
    && Valid(m) && m.width == w + 1 && m.height == h + 1
    && forall my, mx :: 0 <= my < h + 1 && 0 <= mx < w + 1 ==> m.grid[my][mx] == Shown(grid, mx, my)
  }

  predicate IsPassage(grid: Grid, c: Cell) {
    InGrid(grid, c) && grid[c.1][c.0] == CellType.Passage
  }

  /** The two grid cells are 4-neighbours. */
  predicate Touch(a: Cell, b: Cell) {
    Adjacent(Point(a.0, a.1), Point(b.0, b.1))
  }

  /** A walk through grid passages. */
  ghost predicate PassageWalk(grid: Grid, p: seq<Cell>) {
    && |p| > 0
    && (forall i :: 0 <= i < |p| ==> IsPassage(grid, p[i]))
    && (forall i :: 0 <= i < |p| - 1 ==> Touch(p[i], p[i + 1]))
  }

  /** `b` can be reached from `a` through passages. */
  ghost predicate GridReaches(grid: Grid, a: Cell, b: Cell) {
    exists p :: PassageWalk(grid, p) && p[0] == a && p[|p| - 1] == b
  }

  /** Every passage of the grid can be reached from `root` through passages. */
  ghost predicate GridConnected(grid: Grid, root: Cell) {
    forall c :: IsPassage(grid, c) ==> GridReaches(grid, root, c)
  }

  /** Turning walls into passages keeps every reachable cell reachable. */
  lemma GridReachesWidens(g: Grid, g': Grid)
    requires forall q :: IsPassage(g, q) ==> IsPassage(g', q)
    ensures forall a, b :: GridReaches(g, a, b) ==> GridReaches(g', a, b)
  {
    forall a, b | GridReaches(g, a, b) ensures GridReaches(g', a, b) {
      var p :| PassageWalk(g, p) && p[0] == a && p[|p| - 1] == b;
      assert PassageWalk(g', p);
    }
  }

  /** A reachable cell's passage neighbour is reachable. */
  lemma GridReachesStep(g: Grid, a: Cell, b: Cell, c: Cell)
    requires GridReaches(g, a, b) && IsPassage(g, c) && Touch(b, c)
    ensures GridReaches(g, a, c)
  {
    var p :| PassageWalk(g, p) && p[0] == a && p[|p| - 1] == b;
    var p' := p + [c];
    assert PassageWalk(g, p') && p'[0] == a && p'[|p'| - 1] == c;
  }

  /** The cells of a `(w - 1) x (h - 1)` grid. */
  function AllCells(w: nat, h: nat): (cs: set<Cell>)
    ensures forall c :: c in cs <==> c.0 < w - 1 && c.1 < h - 1
  {
    set x: nat, y: nat | x < w - 1 && y < h - 1 :: (x, y)
  }

  // ---------------------------------------------------------------------
  // One iteration of the main loop
  // ---------------------------------------------------------------------

  /** The loop's working state. `cursor` is how many random draws have been
      made so far. */
  datatype Carving = Carving(grid: Grid, maze: Maze, frontier: seq<Cell>, visited: set<Cell>, cursor: nat)

  /** What holds before and after every iteration. */
  ghost predicate Inv(s: Carving, w: nat, h: nat) {
    && w >= 3 && h >= 3
    && GridShape(s.grid, w, h)
    && Mirrors(s.maze, s.grid, w, h)
    && (forall i :: 0 <= i < |s.frontier| ==> InGrid(s.grid, s.frontier[i]))
    && s.visited <= AllCells(w, h)
    && (forall y, x :: 0 <= y < |s.grid| && 0 <= x < |s.grid[y]| && s.grid[y][x] == CellType.Passage ==> (x, y) in s.visited)
    && s.grid[h - 2][w - 2] == CellType.Passage
    && GridConnected(s.grid, (w - 2, h - 2))
    && s.maze.start == Point(1, 1) && s.maze.goal == Point(w - 1, h - 1)
  }

  /** The frontier index the iteration works on: a random draw when there is
      a choice, otherwise 0 without a draw. */
  function PickIndex(len: nat, rng: seq<nat>, cursor: nat): (r: (nat, nat))
    requires len > 0
    ensures r.0 < len
    ensures len > 1 ==> r.1 == cursor + 1
    ensures len == 1 ==> r == (0, cursor)
  {
    if len > 1 then (GenRange(rng, cursor, len), cursor + 1) else (0, cursor)
  }

  /** `grid[y][x] = CellType::Passage`. */
  function CarveGrid(g: Grid, c: Cell): (g': Grid)
    requires InGrid(g, c)
    ensures |g'| == |g| && forall y :: 0 <= y < |g| ==> |g'[y]| == |g[y]|
    ensures g'[c.1][c.0] == CellType.Passage
    ensures forall y, x :: 0 <= y < |g| && 0 <= x < |g[y]| && (x, y) != c ==> g'[y][x] == g[y][x]
  {
    g[c.1 := g[c.1][c.0 := CellType.Passage]]
  }

  /** Make grid cell `c` (and its maze mirror) a passage. */
  function Carve(s: Carving, c: Cell, w: nat, h: nat): (s': Carving)
    requires GridShape(s.grid, w, h) && Mirrors(s.maze, s.grid, w, h) && InGrid(s.grid, c)
    ensures GridShape(s'.grid, w, h) && Mirrors(s'.maze, s'.grid, w, h)
    ensures s'.grid[c.1][c.0] == CellType.Passage
    ensures forall y, x :: 0 <= y < |s.grid| && 0 <= x < |s.grid[y]| && (x, y) != c ==> s'.grid[y][x] == s.grid[y][x]
    ensures s'.maze.start == s.maze.start && s'.maze.goal == s.maze.goal
    ensures s'.frontier == s.frontier && s'.visited == s.visited && s'.cursor == s.cursor
  {
    var grid' := CarveGrid(s.grid, c);
    var p := Point(c.0 + 1, c.1 + 1);
    SetCellFrame(s.maze, p, Tile.Passage);
    var maze' := SetCell(s.maze, p, Tile.Passage);
    assert Mirrors(maze', grid', w, h) by {
      forall my, mx | 0 <= my < h + 1 && 0 <= mx < w + 1
        ensures maze'.grid[my][mx] == Shown(grid', mx, my)
      {
        if Point(mx, my) != p {
          assert GetCell(maze', Point(mx, my)) == GetCell(s.maze, Point(mx, my));
        }
      }
    }
    s.(grid := grid', maze := maze')
  }

  /** One pass of the `while let` body (lines 106-155). */
  function Step(s: Carving, rng: seq<nat>, w: nat, h: nat): (s': Carving)
    requires Inv(s, w, h) && |s.frontier| > 0
    ensures var (i, _) := PickIndex(|s.frontier|, rng, s.cursor);
            var c := s.frontier[i];
            && s'.cursor == PickIndex(|s.frontier|, rng, s.cursor).1
            && s'.visited == s.visited + {c}
            && (c in s.visited ==> s' == s.(frontier := RemoveAt(s.frontier, i), cursor := s'.cursor))
            && (s'.grid != s.grid ==> c !in s.visited && PassageCount(Neighbours(s.grid, c)) == 1)
  {
    var (i, cursor') := PickIndex(|s.frontier|, rng, s.cursor);
    var c := s.frontier[i];
    if c in s.visited then
      s.(frontier := RemoveAt(s.frontier, i), cursor := cursor')
    else
      var ns := Neighbours(s.grid, c);
      var visited' := s.visited + {c};
      if PassageCount(ns) == 1 then
        var carved := Carve(s, c, w, h);
        var frontier' := s.frontier + WallsToVisit(ns, visited');
        carved.(frontier := SwapRemove(frontier', i), visited := visited', cursor := cursor')
      else
        s.(frontier := SwapRemove(s.frontier, i), visited := visited', cursor := cursor')
  }

  /** Carving a wall that sees exactly one passage keeps every passage
      reachable from the root: the new passage hangs off the one it sees. */
  lemma CarveKeepsConnected(g: Grid, c: Cell, root: Cell)
    requires InGrid(g, c) && !IsPassage(g, c) && GridConnected(g, root)
    requires PassageCount(Neighbours(g, c)) == 1
    ensures GridConnected(CarveGrid(g, c), root)
  {
    var g' := CarveGrid(g, c);
    CarveKeepsPassages(g, c);
    GridReachesWidens(g, g');
    var q := PassageSeen(g, c);
    assert GridReaches(g', root, q);
    GridReachesStep(g', root, q, c);
    forall d | IsPassage(g', d) ensures GridReaches(g', root, d) {
      if d != c {
        assert IsPassage(g, d);
      }
    }
  }

  /** The one passage a carved wall sees is a true 4-neighbour of it. */
  lemma PassageSeen(g: Grid, c: Cell) returns (q: Cell)
    requires !IsPassage(g, c) && PassageCount(Neighbours(g, c)) == 1
    ensures IsPassage(g, q) && Touch(q, c)
  {
    var ns := Neighbours(g, c);
    OnePassageFound(ns);
    var k :| 0 <= k < 4 && ns[k].0 == Some(CellType.Passage);
    q := ns[k].1;
  }

  /** Carving never turns a passage back into a wall. */
  lemma CarveKeepsPassages(g: Grid, c: Cell)
    requires InGrid(g, c)
    ensures forall q :: IsPassage(g, q) ==> IsPassage(CarveGrid(g, c), q)
  {
  }

  /** Removing frontier entries keeps them all on the grid. */
  lemma RemovalsStayOnGrid(grid: Grid, f: seq<Cell>, i: nat)
    requires i < |f| && forall j :: 0 <= j < |f| ==> InGrid(grid, f[j])
    ensures forall j :: 0 <= j < |RemoveAt(f, i)| ==> InGrid(grid, RemoveAt(f, i)[j])
    ensures forall j :: 0 <= j < |SwapRemove(f, i)| ==> InGrid(grid, SwapRemove(f, i)[j])
  {
  }

  /** The cells pushed after a carve are on the grid. */
  lemma PushedStayOnGrid(grid: Grid, c: Cell, visited: set<Cell>)
    ensures forall q :: q in WallsToVisit(Neighbours(grid, c), visited) ==> InGrid(grid, q)
  {
    var ns := Neighbours(grid, c);
    forall q | q in WallsToVisit(ns, visited) ensures InGrid(grid, q) {
      var k :| 0 <= k < 4 && ns[k] == (Some(CellType.Wall), q);
    }
  }

  /** Visiting one more cell of the grid shrinks the set of unvisited cells. */
  lemma VisitShrinks(all: set<Cell>, visited: set<Cell>, c: Cell)
    requires c in all && c !in visited
    ensures |all - (visited + {c})| < |all - visited|
  {
    assert all - visited == (all - (visited + {c})) + {c};
  }

  /** The invariant survives a new frontier of grid cells. */
  lemma NewFrontierKeepsInv(s: Carving, f: seq<Cell>, cursor: nat, w: nat, h: nat)
    requires Inv(s, w, h) && forall j :: 0 <= j < |f| ==> InGrid(s.grid, f[j])
    ensures Inv(s.(frontier := f, cursor := cursor), w, h)
  {
  }

  /** ... and marking one more grid cell visited. */
  lemma VisitKeepsInv(s: Carving, c: Cell, f: seq<Cell>, cursor: nat, w: nat, h: nat)
    requires Inv(s, w, h) && InGrid(s.grid, c)
    requires forall j :: 0 <= j < |f| ==> InGrid(s.grid, f[j])
    ensures Inv(s.(frontier := f, visited := s.visited + {c}, cursor := cursor), w, h)
  {
  }

  /** ... and carving an unvisited wall that sees exactly one passage. */
  lemma CarveKeepsInv(s: Carving, c: Cell, f: seq<Cell>, cursor: nat, w: nat, h: nat)
    requires Inv(s, w, h) && InGrid(s.grid, c) && c !in s.visited
    requires PassageCount(Neighbours(s.grid, c)) == 1
    requires forall j :: 0 <= j < |f| ==> InGrid(s.grid, f[j])
    ensures Inv(Carve(s, c, w, h).(frontier := f, visited := s.visited + {c}, cursor := cursor), w, h)
  {
    CarveKeepsConnected(s.grid, c, (w - 2, h - 2));
  }

  /** The frontier a carving iteration leaves is on the grid. */
  lemma CarvedFrontierOnGrid(grid: Grid, f: seq<Cell>, c: Cell, visited: set<Cell>, i: nat)
    requires i < |f| && forall j :: 0 <= j < |f| ==> InGrid(grid, f[j])
    ensures var f' := SwapRemove(f + WallsToVisit(Neighbours(grid, c), visited), i);
            forall j :: 0 <= j < |f'| ==> InGrid(grid, f'[j])
  {
    PushedStayOnGrid(grid, c, visited);
    var f' := f + WallsToVisit(Neighbours(grid, c), visited);
    forall j | 0 <= j < |f'| ensures InGrid(grid, f'[j]) {
      if j >= |f| {
        assert f'[j] in WallsToVisit(Neighbours(grid, c), visited);
      }
    }
    RemovalsStayOnGrid(grid, f', i);
  }

  /** What a carving iteration computes. */
  lemma CarvingStepIs(s: Carving, rng: seq<nat>, w: nat, h: nat, i: nat, cursor': nat)
    requires Inv(s, w, h) && |s.frontier| > 0
    requires (i, cursor') == PickIndex(|s.frontier|, rng, s.cursor)
    requires s.frontier[i] !in s.visited && PassageCount(Neighbours(s.grid, s.frontier[i])) == 1
    ensures var c := s.frontier[i];
            var f := s.frontier + WallsToVisit(Neighbours(s.grid, c), s.visited + {c});
            Step(s, rng, w, h) == Carve(s, c, w, h).(frontier := SwapRemove(f, i), visited := s.visited + {c}, cursor := cursor')
  {
  }

  /** What one iteration does to the grid and the frontier. The picked cell
      leaves the frontier exactly once. When it is an unvisited wall that
      sees one passage, it is the one grid cell carved and its unvisited
      wall look-ups join the frontier; otherwise the grid is kept. */
  lemma StepFrontier(s: Carving, rng: seq<nat>, w: nat, h: nat)
    requires Inv(s, w, h) && |s.frontier| > 0
    ensures var c := s.frontier[PickIndex(|s.frontier|, rng, s.cursor).0];
            var s' := Step(s, rng, w, h);
            var carves := c !in s.visited && PassageCount(Neighbours(s.grid, c)) == 1;
            && (carves ==>
                  && s'.grid == CarveGrid(s.grid, c)
                  && multiset(s'.frontier) == multiset(s.frontier) - multiset{c}
                       + multiset(WallsToVisit(Neighbours(s.grid, c), s.visited + {c})))
            && (!carves ==>
                  && s'.grid == s.grid
                  && multiset(s'.frontier) == multiset(s.frontier) - multiset{c})
  {
    var (i, cursor') := PickIndex(|s.frontier|, rng, s.cursor);
    var c := s.frontier[i];
    var ns := Neighbours(s.grid, c);
    var visited' := s.visited + {c};
    if c in s.visited {
      RemoveAtDropsOneCopy(s.frontier, i);
    } else if PassageCount(ns) == 1 {
      var added := WallsToVisit(ns, visited');
      var f := s.frontier + added;
      CarvingStepIs(s, rng, w, h, i, cursor');
      SwapRemoveDropsOneCopy(f, i);
      assert f[i] == c;
      assert multiset(f) == multiset(s.frontier) + multiset(added);
      assert c in multiset(s.frontier);
    } else {
      SwapRemoveDropsOneCopy(s.frontier, i);
    }
  }

  /** The iteration that carves keeps the invariant. */
  lemma CarvingStepKeepsInv(s: Carving, rng: seq<nat>, w: nat, h: nat)
    requires Inv(s, w, h) && |s.frontier| > 0
    requires var c := s.frontier[PickIndex(|s.frontier|, rng, s.cursor).0];
             c !in s.visited && PassageCount(Neighbours(s.grid, c)) == 1
    ensures Inv(Step(s, rng, w, h), w, h)
  {
    var (i, cursor') := PickIndex(|s.frontier|, rng, s.cursor);
    var c := s.frontier[i];
    var visited' := s.visited + {c};
    CarvingStepIs(s, rng, w, h, i, cursor');
    CarvedFrontierOnGrid(s.grid, s.frontier, c, visited', i);
    var frontier' := s.frontier + WallsToVisit(Neighbours(s.grid, c), visited');
    CarveKeepsInv(s, c, SwapRemove(frontier', i), cursor', w, h);
  }

  /** The iterations that do not carve keep the invariant. */
  lemma PlainStepKeepsInv(s: Carving, rng: seq<nat>, w: nat, h: nat)
    requires Inv(s, w, h) && |s.frontier| > 0
    requires var c := s.frontier[PickIndex(|s.frontier|, rng, s.cursor).0];
             c in s.visited || PassageCount(Neighbours(s.grid, c)) != 1
    ensures Inv(Step(s, rng, w, h), w, h)
  {
    var (i, cursor') := PickIndex(|s.frontier|, rng, s.cursor);
    var c := s.frontier[i];
    RemovalsStayOnGrid(s.grid, s.frontier, i);
    if c in s.visited {
      NewFrontierKeepsInv(s, RemoveAt(s.frontier, i), cursor', w, h);
    } else {
      VisitKeepsInv(s, c, SwapRemove(s.frontier, i), cursor', w, h);
    }
  }

  /** One iteration keeps the invariant, and either visits a new cell or
      shortens the frontier without visiting one: the loop terminates. */
  lemma StepKeepsInv(s: Carving, rng: seq<nat>, w: nat, h: nat)
    requires Inv(s, w, h) && |s.frontier| > 0
    ensures Inv(Step(s, rng, w, h), w, h)
    ensures var s' := Step(s, rng, w, h);
            || |AllCells(w, h) - s'.visited| < |AllCells(w, h) - s.visited|
            || (s'.visited == s.visited && |s'.frontier| < |s.frontier|)
  {
    var i := PickIndex(|s.frontier|, rng, s.cursor).0;
    var c := s.frontier[i];
    if c in s.visited || PassageCount(Neighbours(s.grid, c)) != 1 {
      PlainStepKeepsInv(s, rng, w, h);
    } else {
      CarvingStepKeepsInv(s, rng, w, h);
    }
    if c !in s.visited {
      VisitShrinks(AllCells(w, h), s.visited, c);
    }
  }

  // ---------------------------------------------------------------------
  // The whole generation
  // ---------------------------------------------------------------------

  /** What the carving phase leaves for a `w x h` request: a valid
      `(w + 1) x (h + 1)` maze of walls and passages only, walled all round,
      starting at `(1, 1)`, finishing on a passage at `(w - 1, h - 1)`, with
      every passage reachable from the finish, where the carving began. */
  ghost predicate Carved(m: Maze, w: nat, h: nat) {
    && w >= 3 && h >= 3
    && Valid(m) && m.width == w + 1 && m.height == h + 1
    && m.start == Point(1, 1) && m.goal == Point(w - 1, h - 1)
    && GetCell(m, m.goal) == Some(Tile.Passage)
    && (forall y, x :: 0 <= y < |m.grid| && 0 <= x < |m.grid[y]| ==> m.grid[y][x] != BeenBefore)
    && (forall y, x :: 0 <= y < |m.grid| && 0 <= x < |m.grid[y]| && (x == 0 || y == 0 || x == w || y == h) ==>
          m.grid[y][x] == Tile.Wall)
    && ConnectedFrom(m, m.goal)
  }

  /** The maze points showing the grid cells of `p`. */
  function Lift(p: seq<Cell>): (q: seq<Point>)
    ensures |q| == |p| && forall i :: 0 <= i < |p| ==> q[i] == Point(p[i].0 + 1, p[i].1 + 1)
  {
    seq(|p|, i requires 0 <= i < |p| => Point(p[i].0 + 1, p[i].1 + 1))
  }

  /** A walk through grid passages shows as a walk through the maze. */
  lemma LiftWalk(m: Maze, grid: Grid, w: nat, h: nat, p: seq<Cell>)
    requires GridShape(grid, w, h) && Mirrors(m, grid, w, h) && PassageWalk(grid, p)
    ensures OpenWalk(m, Lift(p))
  {
    var q := Lift(p);
    forall i | 0 <= i < |q| ensures CanMove(m, q[i]) {
      assert m.grid[q[i].y][q[i].x] == Shown(grid, q[i].x, q[i].y);
    }
  }

  /** A maze that mirrors a grid whose passages are all reachable from the
      grid's root has all its open cells reachable from the root's mirror. */
  lemma MirrorConnected(m: Maze, grid: Grid, w: nat, h: nat)
    requires w >= 3 && h >= 3
    requires GridShape(grid, w, h) && Mirrors(m, grid, w, h) && GridConnected(grid, (w - 2, h - 2))
    ensures ConnectedFrom(m, Point(w - 1, h - 1))
  {
    forall pt | CanMove(m, pt) ensures Reaches(m, Point(w - 1, h - 1), pt) {
      var c := OpenShowsPassage(m, grid, w, h, pt);
      MirrorReaches(m, grid, w, h, (w - 2, h - 2), c);
    }
  }

  /** An open maze cell shows a grid passage. */
  lemma OpenShowsPassage(m: Maze, grid: Grid, w: nat, h: nat, pt: Point) returns (c: Cell)
    requires GridShape(grid, w, h) && Mirrors(m, grid, w, h) && CanMove(m, pt)
    ensures IsPassage(grid, c) && pt == Point(c.0 + 1, c.1 + 1)
  {
    assert m.grid[pt.y][pt.x] == Shown(grid, pt.x, pt.y);
    c := (pt.x - 1, pt.y - 1);
  }

  /** Reaching a grid cell through passages shows as reaching its mirror. */
  lemma MirrorReaches(m: Maze, grid: Grid, w: nat, h: nat, a: Cell, b: Cell)
    requires GridShape(grid, w, h) && Mirrors(m, grid, w, h) && GridReaches(grid, a, b)
    ensures Reaches(m, Point(a.0 + 1, a.1 + 1), Point(b.0 + 1, b.1 + 1))
  {
    var p :| PassageWalk(grid, p) && p[0] == a && p[|p| - 1] == b;
    LiftWalk(m, grid, w, h, p);
    assert Lift(p)[0] == Point(a.0 + 1, a.1 + 1) && Lift(p)[|Lift(p)| - 1] == Point(b.0 + 1, b.1 + 1);
  }

  /** The invariant at the end of the loop gives a carved maze. */
  lemma InvCarved(s: Carving, w: nat, h: nat)
    requires Inv(s, w, h)
    ensures Carved(s.maze, w, h)
  {
    MirrorConnected(s.maze, s.grid, w, h);
    assert s.maze.grid[h - 1][w - 1] == Shown(s.grid, w - 1, h - 1);
  }

  /** The state the seeding leaves satisfies the invariant. */
  lemma SeedInv(walled: Maze, grid': Grid, maze: Maze, w: nat, h: nat)
    requires w >= 3 && h >= 3
    requires Valid(walled) && walled.width == w + 1 && walled.height == h + 1
    requires forall y, x :: 0 <= y < |walled.grid| && 0 <= x < |walled.grid[y]| ==> walled.grid[y][x] == Tile.Wall
    requires var grid: Grid := seq(h - 1, _ => seq(w - 1, _ => CellType.Wall));
             grid' == grid[h - 2 := grid[h - 2][w - 2 := CellType.Passage]]
    requires maze == SetCell(walled.(start := Point(1, 1), goal := Point(w - 1, h - 1)), Point(w - 1, h - 1), Tile.Passage)
    ensures Inv(Carving(grid', maze, [(w - 3, h - 2), (w - 2, h - 3)], {(w - 2, h - 2)}, 0), w, h)
  {
    SeedGrid(grid', w, h);
    SeedMirrors(walled, grid', maze, w, h);
    forall y, x | 0 <= y < |grid'| && 0 <= x < |grid'[y]| && grid'[y][x] == CellType.Passage
      ensures (x, y) in {(w - 2, h - 2)}
    {
      assert IsPassage(grid', (x, y));
    }
  }

  /** The seeded grid: walls but for the finish's cell, which on its own
      is connected. */
  lemma SeedGrid(grid': Grid, w: nat, h: nat)
    requires w >= 3 && h >= 3
    requires var grid: Grid := seq(h - 1, _ => seq(w - 1, _ => CellType.Wall));
             grid' == grid[h - 2 := grid[h - 2][w - 2 := CellType.Passage]]
    ensures GridShape(grid', w, h) && grid'[h - 2][w - 2] == CellType.Passage
    ensures forall c :: IsPassage(grid', c) <==> c == (w - 2, h - 2)
    ensures GridConnected(grid', (w - 2, h - 2))
  {
    var root: Cell := (w - 2, h - 2);
    assert PassageWalk(grid', [root]);
    forall c | IsPassage(grid', c) ensures GridReaches(grid', root, c) {
      assert c == root;
      assert [root][0] == root;
    }
  }

  /** The seeded maze shows the seeded grid. */
  lemma SeedMirrors(walled: Maze, grid': Grid, maze: Maze, w: nat, h: nat)
    requires w >= 3 && h >= 3
    requires Valid(walled) && walled.width == w + 1 && walled.height == h + 1
    requires forall y, x :: 0 <= y < |walled.grid| && 0 <= x < |walled.grid[y]| ==> walled.grid[y][x] == Tile.Wall
    requires GridShape(grid', w, h)
    requires forall c :: IsPassage(grid', c) <==> c == (w - 2, h - 2)
    requires maze == SetCell(walled.(start := Point(1, 1), goal := Point(w - 1, h - 1)), Point(w - 1, h - 1), Tile.Passage)
    ensures Mirrors(maze, grid', w, h)
  {
    var m0 := walled.(start := Point(1, 1), goal := Point(w - 1, h - 1));
    SetCellFrame(m0, Point(w - 1, h - 1), Tile.Passage);
    forall my, mx | 0 <= my < h + 1 && 0 <= mx < w + 1
      ensures maze.grid[my][mx] == Shown(grid', mx, my)
    {
      if Point(mx, my) != Point(w - 1, h - 1) {
        assert GetCell(maze, Point(mx, my)) == GetCell(m0, Point(mx, my));
        if 1 <= mx && 1 <= my {
          assert !IsPassage(grid', (mx - 1, my - 1));
        }
      } else {
        assert IsPassage(grid', (mx - 1, my - 1));
      }
    }
  }

  /** Lines 53-57: a new maze filled with walls. */
  method WalledMaze(width: nat, height: nat) returns (m: Maze)
    ensures Valid(m) && m.width == width && m.height == height
    ensures forall y, x :: 0 <= y < |m.grid| && 0 <= x < |m.grid[y]| ==> m.grid[y][x] == Tile.Wall
  {
    m := New(width, height);
    m := Fill(m, Tile.Wall);
    forall y, x | 0 <= y < |m.grid| && 0 <= x < |m.grid[y]|
      ensures m.grid[y][x] == Tile.Wall
    {
      assert GetCell(m, Point(x, y)) == Some(Tile.Wall);
    }
  }

  /** Lines 68-75: build the all-wall grid row by row, writing a wall into
      each mirrored maze cell, which already holds one. */
  method WallGrid(maze: Maze, w: nat, h: nat) returns (grid: Grid, maze': Maze)
    requires w >= 3 && h >= 3 && Valid(maze) && maze.width == w + 1 && maze.height == h + 1
    requires forall y, x :: 0 <= y < |maze.grid| && 0 <= x < |maze.grid[y]| ==> maze.grid[y][x] == Tile.Wall
    ensures grid == seq(h - 1, _ => seq(w - 1, _ => CellType.Wall))
    ensures maze' == maze
  {
    maze' := maze;
    grid := [];
    var i := 0;
    while i < h - 1
      invariant i <= h - 1 && maze' == maze
      invariant grid == seq(i, _ => seq(w - 1, _ => CellType.Wall))
    {
      var row: seq<CellType> := [];
      var j := 0;
      while j < w - 1
        invariant j <= w - 1 && maze' == maze
        invariant row == seq(j, _ => CellType.Wall)
      {
        row := row + [CellType.Wall];
        SetCellSame(maze', Point(j + 1, i + 1), Tile.Wall);
        maze' := SetCell(maze', Point(j + 1, i + 1), Tile.Wall);
        j := j + 1;
      }
      grid := grid + [row];
      i := i + 1;
    }
  }

  /** Lines 53-98: a walled `(w + 1) x (h + 1)` maze, an all-wall grid with
      the goal cell carved and visited, and the two grid cells left of and
      above the goal on the frontier. */
  method Seed(o: GeneratorOptions) returns (s: Carving)
    requires Usable(o)
    ensures Inv(s, o.width, o.height)
    ensures s.visited == {(o.width - 2, o.height - 2)} && s.cursor == 0
    ensures s.frontier == [(o.width - 3, o.height - 2), (o.width - 2, o.height - 3)]
  {
    var w, h := o.width, o.height;
    var maze := WalledMaze(w + 1, h + 1);
    ghost var walled := maze;
    var grid;
    grid, maze := WallGrid(maze, w, h);
    maze := SetStart(maze, Point(1, 1));
    maze := SetFinish(maze, Point(w - 1, h - 1));
    assert maze == walled.(start := Point(1, 1), goal := Point(w - 1, h - 1));
    grid := grid[h - 2 := grid[h - 2][w - 2 := CellType.Passage]];
    maze := SetCell(maze, GetFinish(maze), Tile.Passage);
    SeedInv(walled, grid, maze, w, h);
    s := Carving(grid, maze, [(w - 3, h - 2), (w - 2, h - 3)], {(w - 2, h - 2)}, 0);
  }

  /** Lines 53-155: seed, then run the loop until the frontier is empty. */
  method CarveMaze(o: GeneratorOptions, rng: seq<nat>) returns (s: Carving)
    requires Usable(o)
    ensures Inv(s, o.width, o.height) && |s.frontier| == 0
    ensures Carved(s.maze, o.width, o.height)
  {
    s := Seed(o);
    while |s.frontier| > 0
      invariant Inv(s, o.width, o.height)
      decreases |AllCells(o.width, o.height) - s.visited|, |s.frontier|
    {
      StepKeepsInv(s, rng, o.width, o.height);
      s := Step(s, rng, o.width, o.height);
    }
    InvCarved(s, o.width, o.height);
  }

  /** Lines 157-164: when the start is a wall and the cell East of it a
      passage, the two trade tiles. */
  function StartFix(m: Maze): (m': Maze)
    ensures var fires := GetCell(m, Point(1, 1)) == Some(Tile.Wall) && GetCell(m, Point(2, 1)) == Some(Tile.Passage);
            && (!fires ==> m' == m)
            && (fires ==> GetCell(m', Point(1, 1)) == GetCell(m, Point(2, 1))
                          && GetCell(m', Point(2, 1)) == GetCell(m, Point(1, 1)))
            && (fires ==> forall q :: q != Point(1, 1) && q != Point(2, 1) ==> GetCell(m', q) == GetCell(m, q))
    ensures m'.start == m.start && m'.goal == m.goal && SameShape(m, m')
  {
    if GetCell(m, Point(1, 1)) == Some(Tile.Wall) && GetCell(m, Point(2, 1)) == Some(Tile.Passage) then
      var m1 := SetCell(m, Point(1, 1), Tile.Passage);
      SetCellFrame(m, Point(1, 1), Tile.Passage);
      SetCellFrame(m1, Point(2, 1), Tile.Wall);
      SetCell(m1, Point(2, 1), Tile.Wall)
    else
      m
  }

  /** After the fix-up the start is never a wall beside a passage, so a
      second fix-up changes nothing. */
  lemma StartFixIdempotent(m: Maze)
    ensures !(GetCell(StartFix(m), Point(1, 1)) == Some(Tile.Wall) && GetCell(StartFix(m), Point(2, 1)) == Some(Tile.Passage))
    ensures StartFix(StartFix(m)) == StartFix(m)
  {
  }

  /** When the carving already opened the start, the fix-up leaves the
      maze alone and the finish can be reached from the start. */
  lemma OpenStartSolvable(c: Maze, w: nat, h: nat)
    requires Carved(c, w, h) && CanMove(c, c.start)
    ensures StartFix(c) == c
    ensures Reaches(StartFix(c), c.start, c.goal)
  {
    ReachesBack(c, c.goal, c.start);
  }

  /** `generate_maze`: carve, then fix up the start. */
  method GenerateMaze(g: PrimGenerator, rng: seq<nat>) returns (m: Maze)
    requires Usable(g.options)
    ensures var w, h := g.options.width, g.options.height;
            && Valid(m) && m.width == w + 1 && m.height == h + 1
            && m.start == Point(1, 1) && m.goal == Point(w - 1, h - 1)
            && GetCell(m, m.goal) == Some(Tile.Passage)
    ensures exists c :: Carved(c, g.options.width, g.options.height) && m == StartFix(c)
  {
    var s := CarveMaze(g.options, rng);
    m := StartFix(s.maze);
    assert m.grid[g.options.height - 1][g.options.width - 1] == s.maze.grid[g.options.height - 1][g.options.width - 1];
  }

  // ---------------------------------------------------------------------
  // The start fix-up does not join the start to the maze
  // ---------------------------------------------------------------------

  /** The open cells of `WalledInExample`, row by row. */
  predicate ExampleOpen(p: Point) {
    || (p.y == 1 && p.x == 3)
    || (p.y == 2 && 2 <= p.x <= 4)
    || (p.y == 3 && (p.x == 1 || p.x == 4))
    || (p.y == 4 && 1 <= p.x <= 4)
  }

  /** A carved maze for a 5 x 5 request, rows top to bottom:
      `######`, `###.##`, `##...#`, `#.##.#`, `#....#`, `######`. The start
      (1, 1) and both its inner neighbours (2, 1) and (1, 2) are walls. */
  function WalledInExample(): (m: Maze)
    ensures Valid(m) && m.width == 6 && m.height == 6
    ensures forall y, x :: 0 <= y < 6 && 0 <= x < 6 ==>
      m.grid[y][x] == if ExampleOpen(Point(x, y)) then Tile.Passage else Tile.Wall
    ensures forall p :: CanMove(m, p) <==> ExampleOpen(p)
  {
    Maze(6, 6, seq(6, y requires 0 <= y => seq(6, x requires 0 <= x => if ExampleOpen(Point(x, y)) then Tile.Passage else Tile.Wall)),
         Point(1, 1), Point(4, 4))
  }

  /** Every open cell of `WalledInExample` is reached from its finish, along
      column 4 and row 2 to the North-West, and along row 4 and column 1 to
      the West. */
  lemma ExampleReaches(p: Point)
    requires ExampleOpen(p)
    ensures Reaches(WalledInExample(), Point(4, 4), p)
  {
    var m := WalledInExample();
    assert OpenWalk(m, [Point(4, 4)]);
    ReachesStep(m, Point(4, 4), Point(4, 4), Point(4, 3));
    ReachesStep(m, Point(4, 4), Point(4, 3), Point(4, 2));
    ReachesStep(m, Point(4, 4), Point(4, 2), Point(3, 2));
    ReachesStep(m, Point(4, 4), Point(3, 2), Point(3, 1));
    ReachesStep(m, Point(4, 4), Point(3, 2), Point(2, 2));
    ReachesStep(m, Point(4, 4), Point(4, 4), Point(3, 4));
    ReachesStep(m, Point(4, 4), Point(3, 4), Point(2, 4));
    ReachesStep(m, Point(4, 4), Point(2, 4), Point(1, 4));
    ReachesStep(m, Point(4, 4), Point(1, 4), Point(1, 3));
  }

  /** `WalledInExample` has every property the carving loop guarantees. */
  lemma ExampleCarved()
    ensures Carved(WalledInExample(), 5, 5)
  {
    var m := WalledInExample();
    forall p | CanMove(m, p) ensures Reaches(m, m.goal, p) {
      ExampleReaches(p);
    }
    forall y, x | 0 <= y < |m.grid| && 0 <= x < |m.grid[y]|
      ensures m.grid[y][x] != BeenBefore
      ensures (x == 0 || y == 0 || x == 5 || y == 5) ==> m.grid[y][x] == Tile.Wall
    {
      if x == 0 || y == 0 || x == 5 || y == 5 {
        assert !ExampleOpen(Point(x, y));
      }
    }
    assert GetCell(m, m.goal) == Some(Tile.Passage);
  }

  /** Yet the fix-up leaves the start of `WalledInExample` a wall with no
      open neighbour: the finish cannot be reached from the start. */
  lemma StartFixLeavesStartWalledIn()
    ensures Carved(WalledInExample(), 5, 5)
    ensures var m := StartFix(WalledInExample());
            && !CanMove(m, m.start)
            && (forall q :: Adjacent(m.start, q) ==> !CanMove(m, q))
            && !Reaches(m, m.start, m.goal)
  {
    ExampleCarved();
    var m := WalledInExample();
    assert GetCell(m, Point(2, 1)) == Some(Tile.Wall);
    assert StartFix(m) == m;
  }

  /** The `k`-th cell of the corridor from the start East along row 1 to
      column `w - 1`, then South along that column to the finish. */
  function Corridor(w: nat, h: nat, k: nat): (p: Point)
    requires w >= 3 && h >= 3 && k < w + h - 3
    ensures 1 <= p.x <= w - 1 && 1 <= p.y <= h - 1
    ensures k == 0 ==> p == Point(1, 1)
    ensures k == w + h - 4 ==> p == Point(w - 1, h - 1)
  {
    if k <= w - 2 then Point(1 + k, 1) else Point(w - 1, k - (w - 2) + 1)
  }

  /** The corridor never visits a cell twice, and each cell is next to the
      one after it. */
  lemma CorridorSteps(w: nat, h: nat, i: nat, j: nat)
    requires w >= 3 && h >= 3 && i < j < w + h - 3
    ensures Corridor(w, h, i) != Corridor(w, h, j)
    ensures j == i + 1 ==> Adjacent(Corridor(w, h, i), Corridor(w, h, j))
  {
  }

  /** Once the corridor is open from cell `i` to cell `k`, and cell `k` is
      reached from `root`, so is cell `i`. */
  lemma {:induction false} CorridorReached(r: Maze, root: Point, w: nat, h: nat, k: nat, i: nat)
    requires w >= 3 && h >= 3 && i <= k < w + h - 3
    requires forall j :: i <= j < k ==> CanMove(r, Corridor(w, h, j))
    requires Reaches(r, root, Corridor(w, h, k))
    ensures Reaches(r, root, Corridor(w, h, i))
    decreases k - i
  {
    if i < k {
      CorridorReached(r, root, w, h, k, i + 1);
      CorridorSteps(w, h, i, i + 1);
      ReachesStep(r, root, Corridor(w, h, i + 1), Corridor(w, h, i));
    }
  }

  /** The corrected fix-up: open the corridor from the start up to its
      first open cell. Only walls are opened, a start that is already open
      leaves the maze as it was, and the start joins the carved passages. */
  method DigStart(m: Maze, w: nat, h: nat) returns (r: Maze)
    requires Carved(m, w, h)
    ensures Carved(r, w, h)
    ensures Reaches(r, r.start, r.goal)
    ensures forall p :: GetCell(r, p) != GetCell(m, p) ==> GetCell(m, p) == Some(Tile.Wall) && GetCell(r, p) == Some(Tile.Passage)
    ensures CanMove(m, m.start) ==> r == m
  {
    r := m;
    var k := 0;
    while !CanMove(r, Corridor(w, h, k))
      invariant k < w + h - 3
      invariant Valid(r) && SameShape(m, r) && r.start == m.start && r.goal == m.goal
      invariant forall j :: 0 <= j < k ==> CanMove(r, Corridor(w, h, j))
      invariant k == 0 ==> r == m
      invariant CanMove(m, m.start) ==> k == 0
      invariant forall p :: GetCell(r, p) != GetCell(m, p) ==>
        && GetCell(m, p) == Some(Tile.Wall) && GetCell(r, p) == Some(Tile.Passage)
        && exists j :: 0 <= j < k && p == Corridor(w, h, j)
      decreases w + h - 3 - k
    {
      var c := Corridor(w, h, k);
      assert CanMove(r, m.goal);
      assert GetCell(m, c) == Some(Tile.Wall);
      SetCellFrame(r, c, Tile.Passage);
      r := SetCell(r, c, Tile.Passage);
      k := k + 1;
    }
    DigStartCarved(m, r, w, h, k);
  }

  /** What `DigStart`'s loop leaves is a carved maze whose start is reached
      from the finish. */
  lemma DigStartCarved(m: Maze, r: Maze, w: nat, h: nat, k: nat)
    requires Carved(m, w, h) && k < w + h - 3
    requires Valid(r) && SameShape(m, r) && r.start == m.start && r.goal == m.goal
    requires forall j :: 0 <= j < k ==> CanMove(r, Corridor(w, h, j))
    requires CanMove(r, Corridor(w, h, k))
    requires forall p :: GetCell(r, p) != GetCell(m, p) ==>
      && GetCell(m, p) == Some(Tile.Wall) && GetCell(r, p) == Some(Tile.Passage)
      && exists j :: 0 <= j < k && p == Corridor(w, h, j)
    ensures Carved(r, w, h) && Reaches(r, r.start, r.goal)
  {
    forall q | CanMove(m, q) ensures CanMove(r, q) {
      assert GetCell(r, q) == GetCell(m, q);
    }
    WalkWidens(m, r, []);
    var end := Corridor(w, h, k);
    assert GetCell(r, end) == GetCell(m, end) by {
      if GetCell(r, end) != GetCell(m, end) {
        var j :| 0 <= j < k && end == Corridor(w, h, j);
        CorridorSteps(w, h, j, k);
      }
    }
    assert Reaches(r, r.goal, end);
    forall p | CanMove(r, p) ensures Reaches(r, r.goal, p) {
      if GetCell(r, p) != GetCell(m, p) {
        var j :| 0 <= j < k && p == Corridor(w, h, j);
        CorridorReached(r, r.goal, w, h, k, j);
      }
    }
    CorridorReached(r, r.goal, w, h, k, 0);
    ReachesBack(r, r.goal, r.start);
    forall y, x | 0 <= y < |r.grid| && 0 <= x < |r.grid[y]|
      ensures r.grid[y][x] != BeenBefore
      ensures (x == 0 || y == 0 || x == w || y == h) ==> r.grid[y][x] == Tile.Wall
    {
      assert GetCell(r, Point(x, y)) == Some(r.grid[y][x]);
    }
  }

  /** `generate_maze` with the corrected fix-up: the finish can be reached
      from the start. */
  method GenerateSolvableMaze(g: PrimGenerator, rng: seq<nat>) returns (m: Maze)
    requires Usable(g.options)
    ensures Carved(m, g.options.width, g.options.height)
    ensures Reaches(m, m.start, m.goal)
  {
    var s := CarveMaze(g.options, rng);
    m := DigStart(s.maze, g.options.width, g.options.height);
  }
}
