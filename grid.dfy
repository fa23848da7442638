/**
 * The toroidal arena: a square of ArenaSize x ArenaSize cells whose edges
 * wrap around, the four headings, and the single step a segment takes.
 */
module Grid {

  /** Width and height of the arena, in cells. */
  const ArenaSize: int := 25

  datatype Direction = Up | Right | Down | Left

  /** The heading that would turn the snake back onto itself. */
  function Opposite(d: Direction): Direction
  {
    match d
    case Up => Down
    case Right => Left
    case Down => Up
    case Left => Right
  }

  /** A grid cell. The coordinates are signed; every reachable cell lies in the arena. */
  datatype Position = Position(x: int, y: int)

  predicate InBounds(p: Position)
  {
    0 <= p.x < ArenaSize && 0 <= p.y < ArenaSize
  }

  /** Horizontal component of the unit vector of a heading. */
  function Dx(d: Direction): int
  {
    match d
    case Right => 1
    case Left => -1
    case _ => 0
  }

  /** Vertical component of the unit vector of a heading (Up increases y). */
  function Dy(d: Direction): int
  {
    match d
    case Up => 1
    case Down => -1
    case _ => 0
  }

  /**
   * One step in direction d: the coordinate along d moves by one cell and is
   * reduced with a non-negative remainder, the other coordinate is kept as it is.
   */
  function DoMove(p: Position, d: Direction): (r: Position)
    // the axis across d is untouched
    ensures Dx(d) == 0 ==> r.x == p.x
    ensures Dy(d) == 0 ==> r.y == p.y
    // the axis along d always lands in the arena, whatever the start
    ensures Dx(d) != 0 ==> 0 <= r.x < ArenaSize
    ensures Dy(d) != 0 ==> 0 <= r.y < ArenaSize
    // from a cell of the arena, the step reaches a different cell of the arena
    // and changes exactly one coordinate
    ensures InBounds(p) ==> InBounds(r) && ((r.x == p.x) != (r.y == p.y))
  {
    match d
    case Up => Position(p.x, (p.y + 1) % ArenaSize)
    case Right => Position((p.x + 1) % ArenaSize, p.y)
    case Down => Position(p.x, (p.y - 1) % ArenaSize)
    case Left => Position((p.x - 1) % ArenaSize, p.y)
  }

  /** Stepping across an edge of the arena re-enters on the opposite edge. */
  lemma WrapAround(p: Position)
    requires InBounds(p)
    ensures p.x == 0 ==> DoMove(p, Left) == Position(ArenaSize - 1, p.y)
    ensures p.x == ArenaSize - 1 ==> DoMove(p, Right) == Position(0, p.y)
    ensures p.y == 0 ==> DoMove(p, Down) == Position(p.x, ArenaSize - 1)
    ensures p.y == ArenaSize - 1 ==> DoMove(p, Up) == Position(p.x, 0)
    ensures p.x > 0 ==> DoMove(p, Left) == Position(p.x - 1, p.y)
    ensures p.x < ArenaSize - 1 ==> DoMove(p, Right) == Position(p.x + 1, p.y)
    ensures p.y > 0 ==> DoMove(p, Down) == Position(p.x, p.y - 1)
    ensures p.y < ArenaSize - 1 ==> DoMove(p, Up) == Position(p.x, p.y + 1)
  {
  }

  /** Within the arena, a step followed by a step in the opposite heading returns to the start. */
  lemma StepThenBack(p: Position, d: Direction)
    requires InBounds(p)
    ensures DoMove(DoMove(p, d), Opposite(d)) == p
  {
  }
}
