/** Two-dimensional integer points and steps on the game grid.
    A Vector is an immutable value: every operation returns a new one. */
module Vectors {

  /** A grid position or a per-tick step. Both coordinates default to 0,
      so `Vector()` is the origin, as the game's no-argument constructor. */
  datatype Vector = Vector(x: int := 0, y: int := 0) {

    /** Component-wise sum. */
    function Add(value: Vector): (r: Vector)
      ensures value == Origin ==> r == this
      ensures r.x - value.x == x && r.y - value.y == y
    {
      Vector(x + value.x, y + value.y)
    }

    /** Both components scaled by `value`. */
    function Mul(value: int): (r: Vector)
      ensures value == 1 ==> r == this
      ensures value == 0 ==> r == Origin
      ensures value == -1 ==> Add(r) == Origin
    {
      Vector(x * value, y * value)
    }

    /** Exact component equality: the same point. */
    function Equal(value: Vector): (r: bool)
      ensures r <==> this == value
    {
      x == value.x && y == value.y
    }
  }

  /** The point a Vector built without arguments denotes. */
  const Origin := Vector()

  /** Adding a step and then its negation returns to the start. */
  lemma AddCancels(u: Vector, v: Vector)
    ensures u.Add(v).Add(v.Mul(-1)) == u
  {
  }

  /** Scaling twice scales by the product of the factors. */
  lemma MulComposes(v: Vector, a: int, b: int)
    ensures v.Mul(a).Mul(b) == v.Mul(a * b)
  {
  }

  /** Scaling distributes over addition. */
  lemma MulDistributes(u: Vector, v: Vector, a: int)
    ensures u.Add(v).Mul(a) == u.Mul(a).Add(v.Mul(a))
  {
  }

  /** `Equal` is an equivalence: reflexive, symmetric and transitive. */
  lemma EqualIsEquivalence(u: Vector, v: Vector, w: Vector)
    ensures u.Equal(u)
    ensures u.Equal(v) == v.Equal(u)
    ensures u.Equal(v) && v.Equal(w) ==> u.Equal(w)
  {
  }

  /** The four unit steps a snake may move by. */
  predicate IsCardinal(v: Vector)
  {
    v == Vector(1, 0) || v == Vector(-1, 0) || v == Vector(0, 1) || v == Vector(0, -1)
  }

  /** A cardinal step is never the origin, and its negation is cardinal and different. */
  lemma CardinalNegation(v: Vector)
    requires IsCardinal(v)
    ensures v != Origin
    ensures IsCardinal(v.Mul(-1)) && v.Mul(-1) != v
  {
  }
}
