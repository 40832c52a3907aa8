/** The snake itself: its body trail, its head, its per-tick step and its
    growth target, with the three operations the game calls on it. */
module Snakes {
  import opened Vectors

  /** Length a new snake may grow to before it has eaten anything. */
  const InitialLength: nat := 5

  /** Magnitude of every direction step (no option overrides it). */
  const StepSize: int := 1

  /** The step a direction name asks for, or None for a name the switch
      does not recognise. */
  function Target(arrow: string): (r: Option<Vector>)
    ensures r.Some? <==> arrow in ["Up", "Right", "Left", "Down"]
    ensures r.Some? ==> IsCardinal(r.value)
    ensures arrow == "Up" ==> r == Some(Vector(0, -1))
    ensures arrow == "Down" ==> r == Some(Vector(0, 1))
    ensures arrow == "Left" ==> r == Some(Vector(-1, 0))
    ensures arrow == "Right" ==> r == Some(Vector(1, 0))
  {
    match arrow
    case "Up" => Some(Vector(0, -StepSize))
    case "Right" => Some(Vector(StepSize, 0))
    case "Left" => Some(Vector(-StepSize, 0))
    case "Down" => Some(Vector(0, StepSize))
    case _ => None
  }

  datatype Option<T> = None | Some(value: T)

  /** The step after the direction `arrow` is requested while moving by
      `speed`: the requested step, unless it is the exact reversal of `speed`
      or the name is not recognised, in which case `speed` is kept. */
  function Turned(speed: Vector, arrow: string): (r: Vector)
    ensures r == speed || Some(r) == Target(arrow)
    ensures Target(arrow).None? ==> r == speed
    ensures Target(arrow).Some? && Target(arrow).value != speed.Mul(-1) ==> r == Target(arrow).value
    ensures IsCardinal(speed) ==> IsCardinal(r) && r != speed.Mul(-1)
  {
    match Target(arrow)
    case None => speed
    case Some(target) => if !target.Equal(speed.Mul(-1)) then target else speed
  }

  /** `s` after the oldest entries are cut away until at most `maxLength`
      remain: what `splice(0, |s| - maxLength)` leaves when `s` is too long. */
  function Trimmed(s: seq<Vector>, maxLength: nat): (r: seq<Vector>)
    ensures |r| == if |s| <= maxLength then |s| else maxLength
    ensures forall i | 0 <= i < |r| :: r[i] == s[|s| - |r| + i]
  {
    if |s| > maxLength then s[|s| - maxLength..] else s
  }

  /** The snake as the game holds it. `body` lists past head positions,
      oldest first; `head` is the current position; `speed` is added to
      `head` on every tick; `body` is kept to at most `maxLength` entries. */
  class Snake {
    var body: seq<Vector>
    var head: Vector
    var speed: Vector
    var maxLength: nat

    /** The invariant every operation keeps. */
    ghost predicate Valid()
      reads this
    {
      InitialLength <= maxLength && |body| <= maxLength && IsCardinal(speed)
    }

    /** A new snake: empty body, head at the origin, moving right, room for five. */
    constructor ()
      ensures Valid()
      ensures body == [] && head == Origin && speed == Vector(1, 0) && maxLength == InitialLength
    {
      body := [];
      maxLength := InitialLength;
      head := Vector();
      speed := Vector(1, 0);
    }

    /** One step: the head joins the body, moves by `speed`, and the body's
        oldest entries are dropped until it fits `maxLength`. */
    method Update()
      requires Valid()
      modifies this`body, this`head
      ensures Valid()
      ensures head == old(head).Add(speed)
      ensures body == Trimmed(old(body) + [old(head)], maxLength)
      ensures |body| == if |old(body)| < maxLength then |old(body)| + 1 else maxLength
      ensures body[|body| - 1] == old(head)
    {
      body := body + [head];
      head := head.Add(speed);
      if |body| > maxLength {
        body := body[|body| - maxLength..];
      }
    }

    /** Asks for a new direction. `handled` is false for a name the game's
        switch does not cover, where the game fails before changing anything. */
    method SetDirection(arrow: string) returns (handled: bool)
      requires Valid()
      modifies this`speed
      ensures Valid()
      ensures handled <==> Target(arrow).Some?
      ensures speed == Turned(old(speed), arrow)
    {
      var target := Target(arrow);
      if target.None? {
        return false;
      }
      handled := true;
      if !target.value.Equal(speed.Mul(-1)) {
        speed := target.value;
      }
    }

    /** Whether the head lies on the `gameWidth` by `gameWidth` grid. */
    function CheckBoundary(gameWidth: int): (r: bool)
      reads this
      ensures !r <==> head.x < 0 || head.x >= gameWidth || head.y < 0 || head.y >= gameWidth
      ensures r ==> 0 < gameWidth
    {
      var xInRange := 0 <= head.x < gameWidth;
      var yInRange := 0 <= head.y < gameWidth;
      xInRange && yInRange
    }
  }

  /** Reversing is refused: asking for the opposite of a cardinal step
      keeps the step, and any other recognised direction is taken. */
  lemma {:induction false} ReversalRefused(speed: Vector, arrow: string)
    requires IsCardinal(speed) && Target(arrow).Some?
    ensures Turned(speed, arrow) == speed <==> Target(arrow).value == speed.Mul(-1) || Target(arrow).value == speed
    ensures Turned(speed, arrow) == Target(arrow).value <==> Target(arrow).value != speed.Mul(-1)
  {
    CardinalNegation(speed);
  }
}
