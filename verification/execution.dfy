/** The vocabulary of the execution layer (src/execution/mod.rs): absolute
    headings, relative facings and the fixed rotation table between them,
    the integer conversions, the tile type and the statistics record. */
module Execution {

  // ---------------------------------------------------------------------
  // Integer widths used by the conversions and the statistics record.
  // ---------------------------------------------------------------------

  newtype u32 = x: int | 0 <= x < 0x1_0000_0000
  newtype i32 = x: int | -0x8000_0000 <= x < 0x8000_0000
  newtype i64 = x: int | -0x8000_0000_0000_0000 <= x < 0x8000_0000_0000_0000

  // ---------------------------------------------------------------------
  // Headings and facings
  // ---------------------------------------------------------------------

  /** Absolute compass heading of the robot. */
  datatype Heading = North | East | South | West

  /** A turn instruction relative to the current heading. */
  datatype Facing = Ahead | Right | Behind | Left

  /** The discriminants the source declares: North = 1000, then counting up. */
  function HeadingCode(h: Heading): u32 {
    match h
    case North => 1000
    case East => 1001
    case South => 1002
    case West => 1003
  }

  /** The discriminants the source declares: Ahead = 2000, then counting up. */
  function FacingCode(f: Facing): i32 {
    match f
    case Ahead => 2000
    case Right => 2001
    case Behind => 2002
    case Left => 2003
  }

  /** Position of a heading on the compass, clockwise from North. */
  function HeadingIndex(h: Heading): (k: nat)
    ensures k < 4
  {
    match h
    case North => 0
    case East => 1
    case South => 2
    case West => 3
  }

  /** The heading at clockwise compass position `k` (taken modulo 4). */
  function HeadingAtIndex(k: int): (h: Heading)
    ensures HeadingIndex(h) == k % 4
  {
    var m := k % 4;
    if m == 0 then North else if m == 1 then East else if m == 2 then South else West
  }

  /** Number of clockwise quarter turns a facing stands for. */
  function Turns(f: Facing): (k: nat)
    ensures k < 4
  {
    match f
    case Ahead => 0
    case Right => 1
    case Behind => 2
    case Left => 3
  }

  /** `Heading::from(u32)`: the three first discriminants are recognised and
      every other value, 1003 included, falls through to West. */
  function HeadingFromU32(i: u32): (h: Heading)
    ensures HeadingCode(h) == i || (h == West && i != 1000 && i != 1001 && i != 1002)
    ensures h == West <==> (i != 1000 && i != 1001 && i != 1002)
  {
    match i
    case 1000 => North
    case 1001 => East
    case 1002 => South
    case _ => West
  }

  /** `Facing::from(i32)`: 0, 1 and 2 are recognised and every other value
      falls through to Left. The accepted values are the quarter-turn counts,
      not the declared discriminants. */
  function FacingFromI32(i: i32): (f: Facing)
    ensures Turns(f) as int == i as int || (f == Left && i != 0 && i != 1 && i != 2)
    ensures f == Left <==> (i != 0 && i != 1 && i != 2)
  {
    match i
    case 0 => Ahead
    case 1 => Right
    case 2 => Behind
    case _ => Left
  }

  /** `Heading::augment_heading`: the heading that results from applying the
      facing instruction `f` to heading `h`, as the source's literal table. */
  function Augment(h: Heading, f: Facing): Heading {
    match f
    case Ahead => h
    case Behind => (match h
                    case North => South
                    case South => North
                    case East => West
                    case West => East)
    case Left => (match h
                  case North => West
                  case West => South
                  case South => East
                  case East => North)
    case Right => (match h
                   case North => East
                   case East => South
                   case South => West
                   case West => North)
  }

  /** Applies a sequence of facing instructions, first to last. */
  function AugmentAll(h: Heading, fs: seq<Facing>): Heading
    decreases |fs|
  {
    if |fs| == 0 then h else AugmentAll(Augment(h, fs[0]), fs[1..])
  }

  /** Sum of the quarter turns of a sequence of facings. */
  function TotalTurns(fs: seq<Facing>): nat
    decreases |fs|
  {
    if |fs| == 0 then 0 else Turns(fs[0]) + TotalTurns(fs[1..])
  }

  // ---------------------------------------------------------------------
  // Tiles
  // ---------------------------------------------------------------------

  /** A maze cell. BeenBefore is the marker a robot leaves behind. */
  datatype Tile = Passage | BeenBefore | Wall

  /** `TileType::is_wall` for `Tile`. */
  predicate IsWall(t: Tile) {
    match t
    case Wall => true
    case _ => false
  }

  /** `TileType::can_walk`, the trait's default method. */
  predicate CanWalk(t: Tile) {
    !IsWall(t)
  }

  /** `Tile::default()`. */
  function DefaultTile(): Tile {
    Passage
  }

  // ---------------------------------------------------------------------
  // Statistics record
  // ---------------------------------------------------------------------

  datatype RobotStatistics = RobotStatistics(steps: i64, collisions: i64, goalReached: bool, runs: i32)

  /** The derived `Default`: every counter zero and the goal not reached. */
  function DefaultStatistics(): (s: RobotStatistics)
    ensures s.steps == 0 && s.collisions == 0 && !s.goalReached && s.runs == 0
  {
    RobotStatistics(0, 0, false, 0)
  }

  function SetSteps(s: RobotStatistics, steps: i64): (r: RobotStatistics)
    ensures r.steps == steps
    ensures r.collisions == s.collisions && r.goalReached == s.goalReached && r.runs == s.runs
  {
    s.(steps := steps)
  }

  function SetCollision(s: RobotStatistics, collisions: i64): (r: RobotStatistics)
    ensures r.collisions == collisions
    ensures r.steps == s.steps && r.goalReached == s.goalReached && r.runs == s.runs
  {
    s.(collisions := collisions)
  }

  function SetGoalReached(s: RobotStatistics, status: bool): (r: RobotStatistics)
    ensures r.goalReached == status
    ensures r.steps == s.steps && r.collisions == s.collisions && r.runs == s.runs
  {
    s.(goalReached := status)
  }

  function SetRunNumber(s: RobotStatistics, runs: i32): (r: RobotStatistics)
    ensures r.runs == runs
    ensures r.steps == s.steps && r.collisions == s.collisions && r.goalReached == s.goalReached
  {
    s.(runs := runs)
  }
}

/** Algebraic facts about the rotation table and the conversions. */
module HeadingAlgebra {
  import opened Execution

  /** The literal table is rotation on the compass: applying `f` moves the
      heading `Turns(f)` quarter turns clockwise. */
  lemma AugmentIsRotation(h: Heading, f: Facing)
    ensures HeadingIndex(Augment(h, f)) == (HeadingIndex(h) + Turns(f)) % 4
    ensures Augment(h, f) == HeadingAtIndex(HeadingIndex(h) + Turns(f))
  {
    var r := Augment(h, f);
    assert HeadingIndex(r) == (HeadingIndex(h) + Turns(f)) % 4;
    HeadingIndexInjective(r, HeadingAtIndex(HeadingIndex(h) + Turns(f)));
  }

  lemma HeadingIndexInjective(a: Heading, b: Heading)
    requires HeadingIndex(a) == HeadingIndex(b)
    ensures a == b
  {
  }

  /** A sequence of instructions rotates by the sum of its quarter turns. */
  lemma {:induction false} AugmentAllIsRotation(h: Heading, fs: seq<Facing>)
    ensures HeadingIndex(AugmentAll(h, fs)) == (HeadingIndex(h) + TotalTurns(fs)) % 4
    decreases |fs|
  {
    if |fs| > 0 {
      AugmentIsRotation(h, fs[0]);
      AugmentAllIsRotation(Augment(h, fs[0]), fs[1..]);
    }
  }

  /** Any instruction sequence whose turns add up to whole revolutions leaves
      the heading where it was. */
  lemma WholeRevolutions(h: Heading, fs: seq<Facing>)
    requires TotalTurns(fs) % 4 == 0
    ensures AugmentAll(h, fs) == h
  {
    AugmentAllIsRotation(h, fs);
    HeadingIndexInjective(AugmentAll(h, fs), h);
  }

  lemma AheadIsIdentity(h: Heading)
    ensures Augment(h, Ahead) == h
  {
  }

  lemma FourLeftsAreIdentity(h: Heading)
    ensures AugmentAll(h, [Left, Left, Left, Left]) == h
  {
    var fs := [Left, Left, Left, Left];
    assert TotalTurns(fs) == 12 by {
      assert fs[1..] == [Left, Left, Left];
      assert fs[2..] == [Left, Left];
      assert fs[3..] == [Left];
    }
    WholeRevolutions(h, fs);
  }

  lemma FourRightsAreIdentity(h: Heading)
    ensures AugmentAll(h, [Right, Right, Right, Right]) == h
  {
    var fs := [Right, Right, Right, Right];
    assert TotalTurns(fs) == 4 by {
      assert fs[1..] == [Right, Right, Right];
      assert fs[2..] == [Right, Right];
      assert fs[3..] == [Right];
    }
    WholeRevolutions(h, fs);
  }

  lemma BehindIsInvolution(h: Heading)
    ensures Augment(Augment(h, Behind), Behind) == h
  {
  }

  lemma LeftAndRightCancel(h: Heading)
    ensures Augment(Augment(h, Left), Right) == h
    ensures Augment(Augment(h, Right), Left) == h
  {
  }

  lemma TwoQuarterTurnsAreBehind(h: Heading)
    ensures Augment(Augment(h, Left), Left) == Augment(h, Behind)
    ensures Augment(Augment(h, Right), Right) == Augment(h, Behind)
  {
  }

  /** Every heading is reached from every other by exactly one facing. */
  lemma FacingBetween(h: Heading, g: Heading)
    ensures exists f :: Augment(h, f) == g
    ensures forall f1, f2 :: Augment(h, f1) == g && Augment(h, f2) == g ==> f1 == f2
  {
    var k := (HeadingIndex(g) - HeadingIndex(h) + 4) % 4;
    var f := if k == 0 then Ahead else if k == 1 then Right else if k == 2 then Behind else Left;
    AugmentIsRotation(h, f);
    HeadingIndexInjective(Augment(h, f), g);
    forall f1, f2 | Augment(h, f1) == g && Augment(h, f2) == g
      ensures f1 == f2
    {
      AugmentIsRotation(h, f1);
      AugmentIsRotation(h, f2);
    }
  }

  /** `Heading::from` inverts the declared discriminants. */
  lemma HeadingCodeRoundTrip(h: Heading)
    ensures HeadingFromU32(HeadingCode(h)) == h
  {
  }

  /** `Facing::from` inverts the quarter-turn count ... */
  lemma FacingTurnsRoundTrip(f: Facing)
    ensures FacingFromI32(Turns(f) as i32) == f
  {
  }

  /** ... but not the declared discriminants, which all read back as Left. */
  lemma FacingCodeReadsAsLeft(f: Facing)
    ensures FacingFromI32(FacingCode(f)) == Left
  {
  }

  /** `can_walk` holds exactly for the two non-wall tiles, and the default
      tile is walkable. */
  lemma TileWalkability(t: Tile)
    ensures IsWall(t) <==> t == Wall
    ensures CanWalk(t) <==> (t == Passage || t == BeenBefore)
    ensures CanWalk(DefaultTile())
  {
  }
}
