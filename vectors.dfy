/**
  The 3-component vector kernel of the ray tracer (vec3.h, vec3.cc).

  Components are idealised reals. The C++ class keeps x/y/z, r/g/b and
  data_[0..2] as three views of one union; as a value they are three
  accessors of one datatype, so the aliasing holds by construction, and the
  in-place write through the non-const `operator[]` is modelled on a
  three-cell array by `Vec3Storage`. `Point3` and `Color` are plain
  synonyms, exactly as the C++ `using` aliases are.
*/
module Vectors {
  import opened Utility

  datatype Vec3 = Vec3(x: real, y: real, z: real) {

    /** The colour view: r(), g(), b() read the same storage as x(), y(), z(). */
    function R(): real { x }
    function G(): real { y }
    function B(): real { z }

    /** Read-only `operator[]`; an index outside 0..2 is a caller error. */
    function Component(i: int): real
      requires 0 <= i < 3
    {
      if i == 0 then x else if i == 1 then y else z
    }

    /**
      The value left by `v[i] = a`: component `i` becomes `a`, the other two
      are kept. `Vec3Storage.Set` performs the same write in place.
    */
    function With(i: int, a: real): (w: Vec3)
      requires 0 <= i < 3
      ensures w.Component(i) == a
      ensures forall j :: 0 <= j < 3 && j != i ==> w.Component(j) == Component(j)
    {
      if i == 0 then this.(x := a) else if i == 1 then this.(y := a) else this.(z := a)
    }

    /** Unary `operator-`: the additive inverse. */
    function Neg(): (n: Vec3)
      ensures Add(this, n) == Zero()
    {
      Vec3(-x, -y, -z)
    }

    function LengthSquared(): real {
      x * x + y * y + z * z
    }

    /** `length()`, given a stand-in for `std::sqrt`. */
    function Length(sqrt: real -> real): real {
      sqrt(LengthSquared())
    }
  }

  type Point3 = Vec3
  type Color = Vec3

  /** The default constructor `Vec3()`. */
  function Zero(): Vec3 {
    Vec3(0.0, 0.0, 0.0)
  }

  function Add(u: Vec3, v: Vec3): Vec3 {
    Vec3(u.x + v.x, u.y + v.y, u.z + v.z)
  }

  /** Binary `operator-`: the vector that `v` must be moved by to reach `u`. */
  function Sub(u: Vec3, v: Vec3): (d: Vec3)
    ensures Add(d, v) == u
  {
    Vec3(u.x - v.x, u.y - v.y, u.z - v.z)
  }

  /** `t * v`. */
  function Scale(t: real, v: Vec3): Vec3 {
    Vec3(t * v.x, t * v.y, t * v.z)
  }

  /** `v * t`, which the source defines as `t * v`. */
  function Times(v: Vec3, t: real): Vec3 {
    Scale(t, v)
  }

  /** Component-wise `u * v`, used for colours. */
  function ComponentMul(u: Vec3, v: Vec3): Vec3 {
    Vec3(u.x * v.x, u.y * v.y, u.z * v.z)
  }

  /** `v / t`, defined as `(1 / t) * v`; dividing by zero is a caller error. */
  function Div(v: Vec3, t: real): Vec3
    requires t != 0.0
  {
    Scale(1.0 / t, v)
  }

  function Dot(u: Vec3, v: Vec3): real {
    u.x * v.x + u.y * v.y + u.z * v.z
  }

  function Cross(u: Vec3, v: Vec3): Vec3 {
    Vec3(u.y * v.z - u.z * v.y, u.z * v.x - u.x * v.z, u.x * v.y - u.y * v.x)
  }

  /** `Reflect(v, n) == 2 * Dot(v, n) * n - v`. */
  function Reflect(v: Vec3, n: Vec3): Vec3 {
    Sub(Scale(2.0 * Dot(v, n), n), v)
  }

  /** `UnitVector(v) == v / v.length()`; a zero length is a caller error. */
  function UnitVector(sqrt: real -> real, v: Vec3): Vec3
    requires v.Length(sqrt) != 0.0
  {
    Div(v, v.Length(sqrt))
  }

  /** What the model assumes of a stand-in for `std::sqrt`. */
  ghost predicate IsSqrt(sqrt: real -> real) {
    forall d: real :: d >= 0.0 ==> sqrt(d) >= 0.0 && Square(sqrt(d)) == d
  }

  /**
    The numeric routines the model does not compute: `std::sqrt`, `std::pow`
    and the `UnitVector` that the shading code calls (a total function here,
    since the source leaves a zero-length argument undefined).
  */
  datatype Numerics = Numerics(sqrt: real -> real, pow: (real, real) -> real, unit: Vec3 -> Vec3) {

    /** `std::sqrt(x)`. */
    function Sqrt(x: real): real {
      sqrt(x)
    }

    /** `std::pow(base, exponent)`. */
    function Pow(base: real, exponent: real): real {
      pow(base, exponent)
    }

    /** `UnitVector(v)`. */
    function Unit(v: Vec3): Vec3 {
      unit(v)
    }
  }

  /** `sqrt` behaves as a square root and `unit` agrees with `UnitVector` wherever that is defined. */
  ghost predicate Sound(n: Numerics) {
    && IsSqrt(n.sqrt)
    && forall v: Vec3 :: v.Length(n.sqrt) != 0.0 ==> n.unit(v) == UnitVector(n.sqrt, v)
  }

  /**
    The union storage `data_[3]` as the non-const `operator[]` sees it: a
    write through `v[i]` changes one cell in place, and every view reads the
    cell that was written.
  */
  class Vec3Storage {
    const data: array<real>

    ghost predicate Valid() {
      data.Length == 3
    }

    /** `Vec3(x, y, z)`: the three cells hold the constructor's arguments. */
    constructor (v: Vec3)
      ensures Valid() && fresh(data)
      ensures Value() == v
    {
      data := new real[3] [v.x, v.y, v.z];
    }

    /** The value the three views read. */
    function Value(): Vec3
      requires Valid()
      reads data
    {
      Vec3(data[0], data[1], data[2])
    }

    /** `v[i] = a`, in place; specified by the value-level `Vec3.With`. */
    method Set(i: int, a: real)
      requires Valid() && 0 <= i < 3
      modifies data
      ensures Valid()
      ensures Value() == old(Value()).With(i, a)
    {
      data[i] := a;
    }
  }

  // ---------------------------------------------------------------------
  // Properties of the kernel

  /** x/y/z, r/g/b and indices 0/1/2 name the same three values, the ones given to `Vec3(x, y, z)`. */
  lemma ViewsAlias(a: real, b: real, c: real)
    ensures Vec3(a, b, c).x == a && Vec3(a, b, c).y == b && Vec3(a, b, c).z == c
    ensures Vec3(a, b, c).R() == a == Vec3(a, b, c).Component(0)
    ensures Vec3(a, b, c).G() == b == Vec3(a, b, c).Component(1)
    ensures Vec3(a, b, c).B() == c == Vec3(a, b, c).Component(2)
  {
  }

  /** A write through `operator[]` is seen through both the x/y/z and the r/g/b views. */
  lemma WriteVisibleInBothViews(v: Vec3, i: int, a: real)
    requires 0 <= i < 3
    ensures i == 0 ==> v.With(i, a).x == a == v.With(i, a).R() && v.With(i, a).y == v.y && v.With(i, a).z == v.z
    ensures i == 1 ==> v.With(i, a).y == a == v.With(i, a).G() && v.With(i, a).x == v.x && v.With(i, a).z == v.z
    ensures i == 2 ==> v.With(i, a).z == a == v.With(i, a).B() && v.With(i, a).x == v.x && v.With(i, a).y == v.y
  {
  }

  /** `Vec3()` is the origin, the identity of `+`. */
  lemma ZeroIsIdentity(v: Vec3)
    ensures Zero().x == 0.0 && Zero().y == 0.0 && Zero().z == 0.0
    ensures Add(v, Zero()) == v && Add(Zero(), v) == v
  {
  }

  lemma AddSubCancel(u: Vec3, v: Vec3)
    ensures Sub(Add(u, v), v) == u
  {
  }

  lemma NegInvolutive(v: Vec3)
    ensures v.Neg().Neg() == v
    ensures v.Neg() == Scale(-1.0, v)
  {
  }

  lemma ScaleCommutes(t: real, v: Vec3)
    ensures Times(v, t) == Scale(t, v)
  {
  }

  /** `v / t` undoes `t * v`. */
  lemma {:induction false} DivUndoesScale(v: Vec3, t: real)
    requires t != 0.0
    ensures Scale(t, Div(v, t)) == v
    ensures Div(Scale(t, v), t) == v
  {
    assert t * (1.0 / t) == 1.0;
  }

  lemma ComponentMulCommutes(u: Vec3, v: Vec3)
    ensures ComponentMul(u, v) == ComponentMul(v, u)
    ensures ComponentMul(v, Vec3(1.0, 1.0, 1.0)) == v
  {
  }

  lemma DotSymmetric(u: Vec3, v: Vec3)
    ensures Dot(u, v) == Dot(v, u)
  {
  }

  /** `length_squared` is `Dot(v, v)`, never negative, and zero only for the zero vector. */
  lemma {:induction false} LengthSquaredIsDot(v: Vec3)
    ensures v.LengthSquared() == Dot(v, v)
    ensures v.LengthSquared() == Square(v.x) + Square(v.y) + Square(v.z)
    ensures v.LengthSquared() >= 0.0
    ensures v.LengthSquared() == 0.0 <==> v == Zero()
  {
    SquareNonNegative(v.x);
    SquareNonNegative(v.y);
    SquareNonNegative(v.z);
    if v.x != 0.0 {
      SquarePositive(v.x);
    } else if v.y != 0.0 {
      SquarePositive(v.y);
    } else if v.z != 0.0 {
      SquarePositive(v.z);
    }
  }

  /** Scaling by `t` scales the squared length by `t * t`. */
  lemma ScaleLengthSquared(t: real, v: Vec3)
    ensures Scale(t, v).LengthSquared() == Square(t) * v.LengthSquared()
  {
  }

  lemma CrossOrthogonal(u: Vec3, v: Vec3)
    ensures Dot(Cross(u, v), u) == 0.0
    ensures Dot(Cross(u, v), v) == 0.0
  {
  }

  /** Reflecting about a unit normal keeps the component along the normal. */
  lemma {:induction false} ReflectKeepsNormalComponent(v: Vec3, n: Vec3)
    requires Dot(n, n) == 1.0
    ensures Dot(Reflect(v, n), n) == Dot(v, n)
  {
    var k := 2.0 * Dot(v, n);
    var m := Scale(k, n);
    assert Dot(Sub(m, v), n) == Dot(m, n) - Dot(v, n);
    assert Dot(m, n) == k * Dot(n, n);
  }

  /** Reflecting twice about the same unit normal gives back the original vector. */
  lemma {:induction false} ReflectInvolutive(v: Vec3, n: Vec3)
    requires Dot(n, n) == 1.0
    ensures Reflect(Reflect(v, n), n) == v
  {
    ReflectKeepsNormalComponent(v, n);
  }

  /** With a true square root, `UnitVector` of a non-zero vector is defined and has length one. */
  lemma {:induction false} UnitVectorIsUnit(sqrt: real -> real, v: Vec3)
    requires IsSqrt(sqrt)
    requires v != Zero()
    ensures v.Length(sqrt) > 0.0
    ensures UnitVector(sqrt, v).LengthSquared() == 1.0
  {
    LengthSquaredIsDot(v);
    var s := v.Length(sqrt);
    assert s >= 0.0 && Square(s) == v.LengthSquared();
    var k := 1.0 / s;
    ScaleLengthSquared(k, v);
    assert Square(k) * Square(s) == Square(k * s);
  }

  /** Under `Sound`, `unit(v)` of a non-zero `v` has length one, so each component lies in [-1, 1]. */
  lemma {:induction false} SoundUnitIsBounded(n: Numerics, v: Vec3)
    requires Sound(n)
    requires v != Zero()
    ensures n.unit(v).LengthSquared() == 1.0
    ensures -1.0 <= n.unit(v).x <= 1.0 && -1.0 <= n.unit(v).y <= 1.0 && -1.0 <= n.unit(v).z <= 1.0
  {
    UnitVectorIsUnit(n.sqrt, v);
    var u := n.unit(v);
    assert u == UnitVector(n.sqrt, v);
    LengthSquaredIsDot(u);
    SquareNonNegative(u.x);
    SquareNonNegative(u.y);
    SquareNonNegative(u.z);
    SquareAtMostOne(u.x);
    SquareAtMostOne(u.y);
    SquareAtMostOne(u.z);
  }
}
