/**
  Scalar helpers of the ray tracer (utility.cc): `Clamp`, `Square` and the
  `kInfinity` upper bound that `RayColor` starts its scan with.
*/
module Utility {

  /**
    `Clamp(x, min, max)`: start from `x`; if `x < min` take `min`, otherwise
    if `x > max` take `max`. The `x < min` test comes first, which decides the
    result when `min > max`.
  */
  function Clamp(x: real, min: real, max: real): (r: real)
    ensures x < min ==> r == min
    ensures min <= x && x > max ==> r == max
    ensures min <= x <= max ==> r == x
    ensures min <= max ==> min <= r <= max
  {
    if x < min then min
    else if x > max then max
    else x
  }

  /** `Square(x) == x * x`. */
  function Square(x: real): real {
    x * x
  }

  /**
    An upper bound on the ray parameter: `Inf` is `kInfinity`, `Fin(t)` a
    finite `closest_so_far`.
  */
  datatype Bound = Inf | Fin(value: real) {

    /** The test `t_max < root` of `Sphere::hit`. */
    predicate Below(root: real) {
      Fin? && value < root
    }

    /** `root <= t_max`, the negation of `Below`. */
    predicate Admits(root: real) {
      !Below(root)
    }
  }

  // ---------------------------------------------------------------------
  // Properties

  /** Clamping an already clamped value changes nothing. */
  lemma ClampIdempotent(x: real, min: real, max: real)
    requires min <= max
    ensures Clamp(Clamp(x, min, max), min, max) == Clamp(x, min, max)
  {
  }

  /** When the interval is empty (`min > max`) the `x < min` branch wins. */
  lemma ClampEmptyInterval(x: real, min: real, max: real)
    requires max < min
    ensures Clamp(x, min, max) == (if x < min then min else max)
  {
  }

  lemma SquareNonNegative(x: real)
    ensures Square(x) >= 0.0
  {
  }

  /** A non-zero value has a strictly positive square. */
  lemma {:induction false} SquarePositive(x: real)
    requires x != 0.0
    ensures Square(x) > 0.0
  {
    var k := 1.0 / x;
    assert Square(x) * Square(k) == Square(x * k);
  }

  /** Only zero squares to zero. */
  lemma SquareZero(x: real)
    ensures Square(x) == 0.0 <==> x == 0.0
  {
    if x != 0.0 {
      SquarePositive(x);
    }
  }

  lemma SquareOfNegation(x: real)
    ensures Square(-x) == Square(x)
  {
  }

  /** A square of at most one comes from a value in [-1, 1]. */
  lemma SquareAtMostOne(x: real)
    requires Square(x) <= 1.0
    ensures -1.0 <= x <= 1.0
  {
  }

  /** `kInfinity` admits every root; a finite bound admits exactly the roots not above it. */
  lemma BoundAdmits(b: Bound, root: real)
    ensures b == Inf ==> b.Admits(root)
    ensures b.Fin? ==> (b.Admits(root) <==> root <= b.value)
  {
  }
}

/** The `Vec3` overload of `Clamp` (utility.cc), applied channel by channel. */
module UtilityVec {
  import opened Utility
  import opened Vectors

  function ClampVec(v: Vec3, min: real, max: real): (w: Vec3)
    ensures w.x == Clamp(v.x, min, max)
    ensures w.y == Clamp(v.y, min, max)
    ensures w.z == Clamp(v.z, min, max)
  {
    Vec3(Clamp(v.x, min, max), Clamp(v.y, min, max), Clamp(v.z, min, max))
  }

  /** Every channel lies in [0, 1]. */
  predicate InUnitCube(c: Color) {
    0.0 <= c.x <= 1.0 && 0.0 <= c.y <= 1.0 && 0.0 <= c.z <= 1.0
  }

  /** Clamping to [0, 1] always lands in the unit cube, and a colour already there is kept. */
  lemma ClampVecToUnit(v: Vec3)
    ensures InUnitCube(ClampVec(v, 0.0, 1.0))
    ensures InUnitCube(v) ==> ClampVec(v, 0.0, 1.0) == v
  {
  }
}
