/** Grid coordinates (src/lib.rs). The source stores them as two `usize`
    values; they are never negative, so each is a `nat` here. */
module Points {

  datatype Point = Point(x: nat, y: nat)

  /** True when `a` and `b` are distinct 4-connected neighbours. */
  predicate Adjacent(a: Point, b: Point) {
    || (a.x == b.x && (a.y + 1 == b.y || b.y + 1 == a.y))
    || (a.y == b.y && (a.x + 1 == b.x || b.x + 1 == a.x))
  }
}
