/** The 16x16 play field, its cells and the directions the snake can move in.
    Coordinates are the firmware's unsigned chars: values 0..255 with wrap-around,
    so that stepping left from column 0 lands on column 255, outside the field. */
module Grid {

  /** An unsigned 8-bit value, as the firmware stores every coordinate. */
  type Coord = v: int | 0 <= v < 256

  /** Side of the square play field. */
  const Size: int := 16

  datatype Cell = Cell(x: Coord, y: Coord)

  /** DEAD is the game-over sentinel, not a heading. */
  datatype Direction = DEAD | UP | RIGHT | DOWN | LEFT

  predicate InGrid(c: Cell) {
    c.x < Size && c.y < Size
  }

  /** `v++` on an unsigned char. */
  function Inc(v: Coord): (r: Coord)
    ensures r == (v + 1) % 256
  {
    if v == 255 then 0 else v + 1
  }

  /** `v--` on an unsigned char. */
  function Dec(v: Coord): (r: Coord)
    ensures r == (v - 1) % 256
  {
    if v == 0 then 255 else v - 1
  }

  /** The column offset of one step in direction d, as a signed integer. */
  function DeltaX(d: Direction): int {
    if d == RIGHT then 1 else if d == LEFT then -1 else 0
  }

  /** The row offset of one step in direction d, as a signed integer. */
  function DeltaY(d: Direction): int {
    if d == DOWN then 1 else if d == UP then -1 else 0
  }

  /** The cell one step from c in direction d: the switch of snakeMove.
      DEAD has no case there, so the cell is left as it is. */
  function Step(c: Cell, d: Direction): (r: Cell)
    ensures r.x == (c.x + DeltaX(d)) % 256
    ensures r.y == (c.y + DeltaY(d)) % 256
  {
    match d
    case UP => Cell(c.x, Dec(c.y))
    case RIGHT => Cell(Inc(c.x), c.y)
    case DOWN => Cell(c.x, Inc(c.y))
    case LEFT => Cell(Dec(c.x), c.y)
    case DEAD => c
  }

  /** From a cell of the field, a step leaves the field exactly when it
      crosses one of the four borders; crossing the top or left border
      wraps to 255. */
  lemma LeavesGrid(c: Cell, d: Direction)
    requires InGrid(c)
    ensures !InGrid(Step(c, d)) <==>
      (d == UP && c.y == 0) || (d == LEFT && c.x == 0) ||
      (d == DOWN && c.y == Size - 1) || (d == RIGHT && c.x == Size - 1)
    ensures d == UP && c.y == 0 ==> Step(c, d).y == 255
    ensures d == LEFT && c.x == 0 ==> Step(c, d).x == 255
  {
  }
}
