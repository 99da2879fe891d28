/** Decoding of the four direction buttons of the keypad. */
module Keypad {
  import opened Grid

  /** The four button lines as sampled during one scan: `right` on scan line 0,
      `up` and `down` on scan line 1, `left` on scan line 2. */
  datatype Keys = Keys(right: bool, up: bool, down: bool, left: bool)

  /** Whether the button for heading d is pressed; DEAD has no button. */
  predicate Pressed(keys: Keys, d: Direction) {
    match d
    case RIGHT => keys.right
    case UP => keys.up
    case DOWN => keys.down
    case LEFT => keys.left
    case DEAD => false
  }

  predicate AnyPressed(keys: Keys) {
    keys.right || keys.up || keys.down || keys.left
  }

  /** Position of a heading's button test within one scan. */
  function ScanRank(d: Direction): nat {
    match d
    case RIGHT => 0
    case UP => 1
    case DOWN => 2
    case LEFT => 3
    case DEAD => 0
  }

  /** The heading that results from one scan: with no button pressed the
      current direction stays; otherwise the pressed button tested last in the
      scan wins, so UP+DOWN gives DOWN and LEFT overrides every other button. */
  function Steer(current: Direction, keys: Keys): (r: Direction)
    ensures !AnyPressed(keys) ==> r == current
    ensures AnyPressed(keys) ==>
      Pressed(keys, r) && forall e :: Pressed(keys, e) ==> ScanRank(e) <= ScanRank(r)
    ensures r == DEAD <==> current == DEAD && !AnyPressed(keys)
  {
    if keys.left then LEFT
    else if keys.down then DOWN
    else if keys.up then UP
    else if keys.right then RIGHT
    else current
  }

  /** keyboardScan: the port accesses are replaced by the sampled keys; the
      sequence of overriding tests is kept. */
  method KeyboardScan(direction: Direction, keys: Keys) returns (dir: Direction)
    ensures dir == Steer(direction, keys)
  {
    dir := direction;
    // scan line 0
    if keys.right {
      dir := RIGHT;
    }
    // scan line 1
    if keys.up {
      dir := UP;
    }
    if keys.down {
      dir := DOWN;
    }
    // scan line 2
    if keys.left {
      dir := LEFT;
    }
  }
}
