/** The keydown handler: a key press nudges the ball's velocity. */
module Controls {
  import opened Grid
  import opened Wrappers

  datatype Velocity = Velocity(x: real, y: real)

  /**
   * The velocity after a keydown with `keyCode`. The handler reads the
   * velocity (x, y) once and then runs four independent tests, each of
   * which replaces the velocity with one computed from that (x, y): W or
   * the up arrow subtracts 2 from y, D or the right arrow adds 2 to x, S or
   * the down arrow adds 2 to y, A or the left arrow subtracts 2 from x.
   * So a steering key changes the velocity by 2 towards the grid neighbour
   * in its direction (rows grow downwards, like screen y), and any other
   * key leaves the velocity as it was.
   */
  function KeyDown(v: Velocity, keyCode: int): (v': Velocity)
    ensures KeyDirection(keyCode) == None ==> v' == v
    ensures KeyDirection(keyCode).Some? ==>
      var s := Step((0, 0), KeyDirection(keyCode).value);
      v' == Velocity(v.x + 2.0 * s.1 as real, v.y + 2.0 * s.0 as real)
  {
    var afterUp := if keyCode == 87 || keyCode == 38 then Velocity(v.x, v.y - 2.0) else v;
    var afterRight := if keyCode == 68 || keyCode == 39 then Velocity(v.x + 2.0, v.y) else afterUp;
    var afterDown := if keyCode == 83 || keyCode == 40 then Velocity(v.x, v.y + 2.0) else afterRight;
    if keyCode == 65 || keyCode == 37 then Velocity(v.x - 2.0, v.y) else afterDown
  }

  /** The direction a key steers towards, on the letter and arrow keys. */
  function KeyDirection(keyCode: int): Option<Direction> {
    match keyCode
    case 87 => Some(Up)
    case 38 => Some(Up)
    case 68 => Some(Right)
    case 39 => Some(Right)
    case 83 => Some(Down)
    case 40 => Some(Down)
    case 65 => Some(Left)
    case 37 => Some(Left)
    case _ => None
  }

  function Opposite(d: Direction): Direction {
    match d
    case Up => Down
    case Down => Up
    case Left => Right
    case Right => Left
  }

  /** The velocity after `n` presses of the same key. */
  function Presses(v: Velocity, keyCode: int, n: nat): Velocity {
    if n == 0 then v else KeyDown(Presses(v, keyCode, n - 1), keyCode)
  }

  /** Exactly the eight steering keys change the velocity. */
  lemma KeyDownChanges(v: Velocity, keyCode: int)
    ensures KeyDown(v, keyCode) != v <==> KeyDirection(keyCode).Some?
  {
  }

  /** Pressing a key and then one for the opposite direction restores the velocity. */
  lemma OppositeKeysCancel(v: Velocity, a: int, b: int)
    requires KeyDirection(a).Some? && KeyDirection(b) == Some(Opposite(KeyDirection(a).value))
    ensures KeyDown(KeyDown(v, a), b) == v
  {
  }

  /**
   * There is no speed limit: n presses of a key for a rightward push add
   * 2n to x, whatever x was.
   */
  lemma {:induction false} NoSpeedLimit(v: Velocity, keyCode: int, n: nat)
    requires KeyDirection(keyCode) == Some(Right)
    ensures Presses(v, keyCode, n) == Velocity(v.x + 2.0 * n as real, v.y)
  {
    if n > 0 {
      NoSpeedLimit(v, keyCode, n - 1);
    }
  }
}
