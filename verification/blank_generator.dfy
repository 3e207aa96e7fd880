/** `BlankGenerator` (src/generation/blank_generator.rs): a fixed 20 x 20
    maze, walled all round and open inside. */
module BlankGenerators {
  import opened Wrappers
  import opened Points
  import opened Execution
  import opened Mazes

  /** The side of the square maze. */
  const Side: nat := 20

  /** A cell on the outer ring of the square. */
  predicate OnBorder(x: nat, y: nat) {
    x == 0 || y == 0 || x == Side - 1 || y == Side - 1
  }

  /** `generate_maze`: start at (1, 1), finish at (18, 18), then visit the
      cells column by column. The loops write `Point(i, j)` for row `i` and
      column `j`, and test the column against the height; on a square maze
      with a symmetric border test both are harmless, and every write lands
      on the grid. */
  method GenerateMaze() returns (m: Maze)
    ensures Valid(m) && m.width == Side && m.height == Side
    ensures m.start == Point(1, 1) && m.goal == Point(18, 18)
    ensures forall y, x :: 0 <= y < Side && 0 <= x < Side ==>
      m.grid[y][x] == (if OnBorder(x, y) then Wall else Passage)
  {
    m := New(Side, Side);
    m := SetStart(m, Point(1, 1));
    m := SetFinish(m, Point(18, 18));
    var i := 0;
    while i < m.height
      invariant 0 <= i <= Side
      invariant Valid(m) && m.width == Side && m.height == Side
      invariant m.start == Point(1, 1) && m.goal == Point(18, 18)
      invariant forall y, x :: 0 <= y < Side && 0 <= x < i ==>
        m.grid[y][x] == (if OnBorder(x, y) then Wall else Passage)
    {
      var j := 0;
      while j < m.width
        invariant 0 <= j <= Side
        invariant Valid(m) && m.width == Side && m.height == Side
        invariant m.start == Point(1, 1) && m.goal == Point(18, 18)
        invariant forall y, x :: 0 <= y < Side && 0 <= x < i ==>
          m.grid[y][x] == (if OnBorder(x, y) then Wall else Passage)
        invariant forall y :: 0 <= y < j ==>
          m.grid[y][i] == (if OnBorder(i, y) then Wall else Passage)
      {
        SetCellFrame(m, Point(i, j), Wall);
        SetCellFrame(m, Point(i, j), Passage);
        if i == 0 || j == 0 || i == m.height - 1 || j == m.height - 1 {
          m := SetCell(m, Point(i, j), Wall);
        } else {
          m := SetCell(m, Point(i, j), Passage);
        }
        j := j + 1;
      }
      i := i + 1;
    }
  }

  /** The robot can stand on the start and finish of the blank maze, and
      every step off the border ring is walkable. */
  lemma BlankIsOpen(m: Maze)
    requires Valid(m) && m.width == Side && m.height == Side
    requires m.start == Point(1, 1) && m.goal == Point(18, 18)
    requires forall y, x :: 0 <= y < Side && 0 <= x < Side ==>
      m.grid[y][x] == (if OnBorder(x, y) then Wall else Passage)
    ensures CanMove(m, m.start) && CanMove(m, m.goal)
    ensures forall p :: CanMove(m, p) <==> p.x < Side && p.y < Side && !OnBorder(p.x, p.y)
  {
    forall p ensures CanMove(m, p) <==> p.x < Side && p.y < Side && !OnBorder(p.x, p.y) {
      ValidRange(m, p);
    }
  }
}
