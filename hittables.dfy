/**
  Ray–object intersection (hittable.h, sphere.h, sphere.cc).

  The C++ `Hittable` is an abstract base class with `Sphere` as its only
  implementation; here it is a closed datatype whose one variant is
  `Sphere`. `HitRecord` carries a `shared_ptr` to a material whose type is only
  forward-declared in hittable.h, so the record and the object are generic
  in the material type `M`.
*/
module Hittables {
  import opened Wrappers
  import opened Utility
  import opened Vectors
  import opened Rays

  /** `HitRecord`: where the ray struck, the normal there, the struck object's material and the ray parameter. */
  datatype HitRecord<M> = HitRecord(p: Point3, normal: Vec3, material: M, t: real)

  /**
    A default-initialised `HitRecord`: zero vectors and a null material. The
    source initialises `t` to NaN; the model has no NaN and uses 0, a value
    no caller reads before a successful `hit` overwrites it.
  */
  function DefaultRecord<M>(nullMaterial: M): (rec: HitRecord<M>)
    ensures rec.p == Zero() && rec.normal == Zero() && rec.material == nullMaterial
  {
    HitRecord(Zero(), Zero(), nullMaterial, 0.0)
  }

  /** The polynomial `a t^2 + b t + c` that `Sphere::hit` solves. */
  datatype Quadratic = Quadratic(a: real, b: real, c: real) {

    function Discriminant(): real {
      Square(b) - 4.0 * a * c
    }

    function Eval(t: real): real {
      a * t * t + b * t + c
    }

    /** `(-b - sqrt(d)) / 2a`, given the square root `s` of the discriminant. */
    function NearRoot(s: real): real
      requires a != 0.0
    {
      (-b - s) / (2.0 * a)
    }

    /** `(-b + sqrt(d)) / 2a`. */
    function FarRoot(s: real): real
      requires a != 0.0
    {
      (-b + s) / (2.0 * a)
    }
  }

  /** The acceptance test of `hit`: the negation of `root < t_min || t_max < root`. */
  predicate InRange(root: real, tMin: real, tMax: Bound) {
    !(root < tMin || tMax.Below(root))
  }

  datatype Hittable<M> = Sphere(center: Point3, radius: real, material: M) {

    /** The point at parameter `t` of `r` lies on the sphere's surface. */
    predicate OnSurface(r: Ray, t: real) {
      Sub(r.At(t), center).LengthSquared() == Square(radius)
    }

    /** The coefficients `a`, `b`, `c` that `hit` computes from `oc = origin - center`. */
    function Coefficients(r: Ray): Quadratic {
      var oc := Sub(r.origin, center);
      Quadratic(Dot(r.direction, r.direction), 2.0 * Dot(oc, r.direction), Dot(oc, oc) - Square(radius))
    }

    /**
      The root `hit` settles on: none when the discriminant is negative, else
      the near root when it is in range, else the far root when it is in range.
    */
    function ChosenRoot(sqrt: real -> real, r: Ray, tMin: real, tMax: Bound): Option<real>
      requires r.direction != Zero()
    {
      var q := Coefficients(r);
      if q.Discriminant() < 0.0 then None
      else
        LengthSquaredIsDot(r.direction);
        var s := sqrt(q.Discriminant());
        if InRange(q.NearRoot(s), tMin, tMax) then Some(q.NearRoot(s))
        else if InRange(q.FarRoot(s), tMin, tMax) then Some(q.FarRoot(s))
        else None
    }

    /** The record `hit` fills in for the accepted root `t`. */
    function RecordAt(r: Ray, t: real): HitRecord<M>
      requires radius != 0.0
    {
      HitRecord(r.At(t), Div(Sub(r.At(t), center), radius), material, t)
    }

    /**
      `Sphere::hit(r, t_min, t_max, rec)`. The by-reference `rec` is passed in
      and handed back: overwritten on a hit, returned as it came on a miss.
    */
    method Hit(sqrt: real -> real, r: Ray, tMin: real, tMax: Bound, rec: HitRecord<M>)
      returns (hit: bool, rec': HitRecord<M>)
      requires r.direction != Zero() && radius != 0.0
      ensures hit <==> ChosenRoot(sqrt, r, tMin, tMax).Some?
      ensures hit ==> rec' == RecordAt(r, ChosenRoot(sqrt, r, tMin, tMax).value)
      ensures !hit ==> rec' == rec
      ensures Coefficients(r).Discriminant() < 0.0 ==> !hit
      ensures hit ==> tMin <= rec'.t && tMax.Admits(rec'.t)
      ensures hit ==> rec'.p == r.At(rec'.t) && rec'.material == material
      ensures hit ==> rec'.normal == Div(Sub(rec'.p, center), radius)
    {
      var oc := Sub(r.origin, center);
      var a := Dot(r.direction, r.direction);
      var b := 2.0 * Dot(oc, r.direction);
      var c := Dot(oc, oc) - Square(radius);
      var discriminant := Square(b) - 4.0 * a * c;
      if discriminant < 0.0 {
        return false, rec;
      }
      LengthSquaredIsDot(r.direction);
      ghost var q := Coefficients(r);
      assert q == Quadratic(a, b, c) && q.Discriminant() == discriminant;
      var discriminantSqrt := sqrt(discriminant);
      var root := (-b - discriminantSqrt) / (2.0 * a);
      assert root == q.NearRoot(discriminantSqrt);
      if root < tMin || tMax.Below(root) {
        root := (-b + discriminantSqrt) / (2.0 * a);
        assert root == q.FarRoot(discriminantSqrt);
        if root < tMin || tMax.Below(root) {
          return false, rec;
        }
      }
      assert Some(root) == ChosenRoot(sqrt, r, tMin, tMax);
      rec' := rec.(t := root);
      rec' := rec'.(p := r.At(rec'.t));
      rec' := rec'.(normal := Div(Sub(rec'.p, center), radius));
      rec' := rec'.(material := material);
      hit := true;
    }
  }

  // ---------------------------------------------------------------------
  // Properties of the intersection

  /** `center()`, `radius()` and `material()` return what the constructor was given. */
  lemma AccessorsReturnArguments<M>(c: Point3, radius: real, m: M)
    ensures Sphere(c, radius, m).center == c
    ensures Sphere(c, radius, m).radius == radius
    ensures Sphere(c, radius, m).material == m
  {
  }

  /** `Eval(t)` is the squared distance from the center to `at(t)`, minus the squared radius. */
  lemma {:induction false} CoefficientsDescribeSphere<M>(s: Hittable<M>, r: Ray, t: real)
    ensures s.Coefficients(r).Eval(t) == Sub(r.At(t), s.center).LengthSquared() - Square(s.radius)
    ensures s.Coefficients(r).Eval(t) == 0.0 <==> s.OnSurface(r, t)
  {
    ExpandEval(Sub(r.At(t), s.center), Sub(r.origin, s.center), r.direction, Square(s.radius), t);
  }

  /** The quadratic of `hit` at `t` is the squared length of `o + t d` minus `rr`, coordinate by coordinate. */
  lemma ExpandEval(w: Vec3, o: Vec3, d: Vec3, rr: real, t: real)
    requires w.x == o.x + t * d.x && w.y == o.y + t * d.y && w.z == o.z + t * d.z
    ensures Quadratic(Dot(d, d), 2.0 * Dot(o, d), Dot(o, o) - rr).Eval(t) == w.LengthSquared() - rr
  {
  }

  /** `a = Dot(d, d)` is positive for a non-zero direction. */
  lemma {:induction false} LeadingCoefficientPositive<M>(s: Hittable<M>, r: Ray)
    requires r.direction != Zero()
    ensures s.Coefficients(r).a > 0.0
  {
    LengthSquaredIsDot(r.direction);
  }

  /** A negative discriminant means the ray's line misses the sphere entirely. */
  lemma {:induction false} NegativeDiscriminantMisses<M>(s: Hittable<M>, r: Ray, t: real)
    requires s.Coefficients(r).Discriminant() < 0.0
    ensures !s.OnSurface(r, t)
  {
    var q := s.Coefficients(r);
    CoefficientsDescribeSphere(s, r, t);
    if q.Eval(t) == 0.0 {
      RootImpliesDiscriminantNonNegative(q, t);
    }
  }

  /**
    The root choice: the near root whenever it is in range, the far root
    only otherwise, and nothing when neither is.
  */
  lemma RootChoice<M>(s: Hittable<M>, sqrt: real -> real, r: Ray, tMin: real, tMax: Bound)
    requires r.direction != Zero()
    requires s.Coefficients(r).Discriminant() >= 0.0
    ensures s.Coefficients(r).a != 0.0
    ensures var q := s.Coefficients(r); var d := sqrt(q.Discriminant());
      && (InRange(q.NearRoot(d), tMin, tMax) ==> s.ChosenRoot(sqrt, r, tMin, tMax) == Some(q.NearRoot(d)))
      && (!InRange(q.NearRoot(d), tMin, tMax) && InRange(q.FarRoot(d), tMin, tMax) ==>
            s.ChosenRoot(sqrt, r, tMin, tMax) == Some(q.FarRoot(d)))
      && (!InRange(q.NearRoot(d), tMin, tMax) && !InRange(q.FarRoot(d), tMin, tMax) ==>
            s.ChosenRoot(sqrt, r, tMin, tMax) == None)
  {
    LengthSquaredIsDot(r.direction);
  }

  /** A chosen root lies in `[t_min, t_max]`. */
  lemma ChosenRootInRange<M>(s: Hittable<M>, sqrt: real -> real, r: Ray, tMin: real, tMax: Bound)
    requires r.direction != Zero()
    ensures s.ChosenRoot(sqrt, r, tMin, tMax).Some? ==>
      tMin <= s.ChosenRoot(sqrt, r, tMin, tMax).value && tMax.Admits(s.ChosenRoot(sqrt, r, tMin, tMax).value)
  {
  }

  /** With `a > 0` and a true square root, the near root is never after the far root. */
  lemma {:induction false} NearRootNotAfterFar<M>(s: Hittable<M>, sqrt: real -> real, r: Ray)
    requires IsSqrt(sqrt)
    requires r.direction != Zero()
    requires s.Coefficients(r).Discriminant() >= 0.0
    ensures s.Coefficients(r).a != 0.0
    ensures var q := s.Coefficients(r); var d := sqrt(q.Discriminant());
      q.NearRoot(d) <= q.FarRoot(d)
  {
    LeadingCoefficientPositive(s, r);
    var q := s.Coefficients(r);
    NearBeforeFar(q, sqrt(q.Discriminant()));
  }

  /** With a true square root, the chosen root solves the quadratic: `at(t)` is on the surface. */
  lemma {:induction false} ChosenRootOnSurface<M>(s: Hittable<M>, sqrt: real -> real, r: Ray, tMin: real, tMax: Bound)
    requires IsSqrt(sqrt)
    requires r.direction != Zero()
    requires s.ChosenRoot(sqrt, r, tMin, tMax).Some?
    ensures s.Coefficients(r).Eval(s.ChosenRoot(sqrt, r, tMin, tMax).value) == 0.0
    ensures s.OnSurface(r, s.ChosenRoot(sqrt, r, tMin, tMax).value)
  {
    var q := s.Coefficients(r);
    var t := s.ChosenRoot(sqrt, r, tMin, tMax).value;
    LengthSquaredIsDot(r.direction);
    assert q.Discriminant() >= 0.0;
    var d := sqrt(q.Discriminant());
    assert Square(d) == q.Discriminant();
    assert t == q.NearRoot(d) || t == q.FarRoot(d);
    QuadraticRoot(q, d, t);
    CoefficientsDescribeSphere(s, r, t);
  }

  /**
    `hit` finds the nearest intersection in range: if the surface is met at
    any `t` in `[t_min, t_max]`, a root is chosen, and it is no later than `t`.
  */
  lemma {:induction false} ChosenRootIsNearest<M>(s: Hittable<M>, sqrt: real -> real, r: Ray, tMin: real, tMax: Bound, t: real)
    requires IsSqrt(sqrt)
    requires r.direction != Zero()
    requires InRange(t, tMin, tMax) && s.OnSurface(r, t)
    ensures s.ChosenRoot(sqrt, r, tMin, tMax).Some?
    ensures s.ChosenRoot(sqrt, r, tMin, tMax).value <= t
  {
    var q := s.Coefficients(r);
    CoefficientsDescribeSphere(s, r, t);
    RootImpliesDiscriminantNonNegative(q, t);
    LeadingCoefficientPositive(s, r);
    var d := sqrt(q.Discriminant());
    OnlyTwoRoots(q, d, t);
    NearRootNotAfterFar(s, sqrt, r);
  }

  /** A miss means no point of the surface lies in range along the ray. */
  lemma {:induction false} MissMeansNoIntersection<M>(s: Hittable<M>, sqrt: real -> real, r: Ray, tMin: real, tMax: Bound, t: real)
    requires IsSqrt(sqrt)
    requires r.direction != Zero()
    requires s.ChosenRoot(sqrt, r, tMin, tMax) == None
    ensures !(InRange(t, tMin, tMax) && s.OnSurface(r, t))
  {
    if InRange(t, tMin, tMax) && s.OnSurface(r, t) {
      ChosenRootIsNearest(s, sqrt, r, tMin, tMax, t);
    }
  }

  /** The normal stored on a hit has length one: it is the radius vector divided by the radius. */
  lemma {:induction false} HitNormalIsUnit<M>(s: Hittable<M>, sqrt: real -> real, r: Ray, tMin: real, tMax: Bound)
    requires IsSqrt(sqrt)
    requires r.direction != Zero() && s.radius != 0.0
    requires s.ChosenRoot(sqrt, r, tMin, tMax).Some?
    ensures s.RecordAt(r, s.ChosenRoot(sqrt, r, tMin, tMax).value).normal.LengthSquared() == 1.0
  {
    var t := s.ChosenRoot(sqrt, r, tMin, tMax).value;
    ChosenRootOnSurface(s, sqrt, r, tMin, tMax);
    var w := Sub(r.At(t), s.center);
    var k := 1.0 / s.radius;
    ScaleLengthSquared(k, w);
    assert Square(k) * Square(s.radius) == Square(k * s.radius);
  }

  /**
    The stored normal points away from the center for a positive radius
    (outward) and towards it for a negative one (inward).
  */
  lemma {:induction false} HitNormalPointsOutward<M>(s: Hittable<M>, sqrt: real -> real, r: Ray, tMin: real, tMax: Bound)
    requires IsSqrt(sqrt)
    requires r.direction != Zero() && s.radius != 0.0
    requires s.ChosenRoot(sqrt, r, tMin, tMax).Some?
    ensures var rec := s.RecordAt(r, s.ChosenRoot(sqrt, r, tMin, tMax).value);
      && Dot(rec.normal, Sub(rec.p, s.center)) == s.radius
      && (s.radius > 0.0 ==> Dot(rec.normal, Sub(rec.p, s.center)) > 0.0)
      && (s.radius < 0.0 ==> Dot(rec.normal, Sub(rec.p, s.center)) < 0.0)
  {
    var t := s.ChosenRoot(sqrt, r, tMin, tMax).value;
    ChosenRootOnSurface(s, sqrt, r, tMin, tMax);
    var w := Sub(r.At(t), s.center);
    var k := 1.0 / s.radius;
    ScaledDot(Scale(k, w), w, k);
    LengthSquaredIsDot(w);
    InverseTimesSquare(s.radius);
  }

  /** `(1 / x) x^2 = x`. */
  lemma InverseTimesSquare(x: real)
    requires x != 0.0
    ensures (1.0 / x) * Square(x) == x
  {
  }

  /**
    A unit-length ray aimed straight at a sphere whose center is `dist`
    ahead, beyond the radius: the two roots are where the ray enters and
    leaves the sphere, `dist - radius` and `dist + radius`, and `hit` takes
    the entry point whenever it is in range.
  */
  lemma {:induction false} HeadOnRoots<M>(s: Hittable<M>, sqrt: real -> real, r: Ray, dist: real, tMin: real, tMax: Bound)
    requires IsSqrt(sqrt)
    requires Dot(r.direction, r.direction) == 1.0
    requires s.center == r.At(dist) && dist > s.radius > 0.0
    ensures var q := s.Coefficients(r);
      && q.a == 1.0 && q.Discriminant() == Square(2.0 * s.radius)
      && q.NearRoot(sqrt(q.Discriminant())) == dist - s.radius
      && q.FarRoot(sqrt(q.Discriminant())) == dist + s.radius
    ensures r.direction != Zero() &&
      (InRange(dist - s.radius, tMin, tMax) ==> s.ChosenRoot(sqrt, r, tMin, tMax) == Some(dist - s.radius))
  {
    var q := s.Coefficients(r);
    var radius := s.radius;
    var oc := Sub(r.origin, s.center);
    ScaledDot(oc, r.direction, -dist);
    assert q.b == -2.0 * dist;
    assert q.c == Square(dist) - Square(radius);
    assert q.Discriminant() == Square(2.0 * radius);
    var root := sqrt(q.Discriminant());
    SquareRootUnique(root, 2.0 * radius);
  }

  /** For `w = k d`: `w . d = k (d . d)` and `w . w = k^2 (d . d)`. */
  lemma ScaledDot(w: Vec3, d: Vec3, k: real)
    requires w.x == k * d.x && w.y == k * d.y && w.z == k * d.z
    ensures Dot(w, d) == k * Dot(d, d) && Dot(w, w) == Square(k) * Dot(d, d)
  {
  }

  /** Two non-negative reals with the same square are equal. */
  lemma {:induction false} SquareRootUnique(x: real, y: real)
    requires x >= 0.0 && y >= 0.0 && Square(x) == Square(y)
    ensures x == y
  {
    DifferenceOfSquares(x, y);
    ProductZero(x - y, x + y);
  }

  // ---------------------------------------------------------------------
  // The quadratic formula over the reals

  lemma ProductZero(u: real, v: real)
    requires u * v == 0.0
    ensures u == 0.0 || v == 0.0
  {
    if u != 0.0 {
      assert v == (u * v) * (1.0 / u);
    }
  }

  lemma CancelFactor(e: real, a: real)
    requires a != 0.0 && e * a == 0.0
    ensures e == 0.0
  {
    assert e == (e * a) * (1.0 / a);
  }

  lemma DivTimes(x: real, y: real)
    requires y != 0.0
    ensures (x / y) * y == x
  {
  }

  lemma TimesDiv(k: real, t: real)
    requires k != 0.0
    ensures (k * t) / k == t
  {
  }

  /** `(x - y) (x + y) = x^2 - y^2`. */
  lemma DifferenceOfSquares(x: real, y: real)
    ensures Square(x) - Square(y) == (x - y) * (x + y)
  {
  }

  /** Completing the square: `4a (a t^2 + b t + c) = (2 a t + b)^2 - (b^2 - 4 a c)`. */
  lemma CompleteSquare(q: Quadratic, t: real)
    ensures q.Eval(t) * (4.0 * q.a) == Square(2.0 * q.a * t + q.b) - q.Discriminant()
  {
  }

  /** Both quadratic-formula roots solve `a t^2 + b t + c = 0` when `s * s` is the discriminant. */
  lemma {:induction false} QuadraticRoot(q: Quadratic, s: real, t: real)
    requires q.a != 0.0
    requires Square(s) == q.Discriminant()
    requires t == q.NearRoot(s) || t == q.FarRoot(s)
    ensures q.Eval(t) == 0.0
  {
    var u := 2.0 * q.a * t;
    if t == q.NearRoot(s) {
      DivTimes(-q.b - s, 2.0 * q.a);
      assert u + q.b == -s;
      SquareOfNegation(s);
    } else {
      DivTimes(-q.b + s, 2.0 * q.a);
      assert u + q.b == s;
    }
    assert Square(u + q.b) == Square(s);
    CompleteSquare(q, t);
    CancelFactor(q.Eval(t), 4.0 * q.a);
  }

  /** Every solution of `a t^2 + b t + c = 0` is one of the two quadratic-formula roots. */
  lemma {:induction false} OnlyTwoRoots(q: Quadratic, s: real, t: real)
    requires q.a != 0.0
    requires Square(s) == q.Discriminant()
    requires q.Eval(t) == 0.0
    ensures t == q.NearRoot(s) || t == q.FarRoot(s)
  {
    var u := 2.0 * q.a * t;
    CompleteSquare(q, t);
    DifferenceOfSquares(u + q.b, s);
    ProductZero(u + q.b - s, u + q.b + s);
    TimesDiv(2.0 * q.a, t);
    if u + q.b == s {
      assert u == -q.b + s;
    } else {
      assert u == -q.b - s;
    }
  }

  /** A quadratic with a real root has a non-negative discriminant. */
  lemma {:induction false} RootImpliesDiscriminantNonNegative(q: Quadratic, t: real)
    requires q.Eval(t) == 0.0
    ensures q.Discriminant() >= 0.0
  {
    var a, b, c := q.a, q.b, q.c;
    var u := 2.0 * a * t;
    assert q.Discriminant() == Square(u + b) - 4.0 * a * q.Eval(t);
  }

  /** For `a > 0` and `s >= 0` the `-` root is at most the `+` root. */
  lemma {:induction false} NearBeforeFar(q: Quadratic, s: real)
    requires q.a > 0.0 && s >= 0.0
    ensures q.NearRoot(s) <= q.FarRoot(s)
  {
    var a, b := q.a, q.b;
    var k := 1.0 / (2.0 * a);
    assert k * (2.0 * a) == 1.0;
    assert k > 0.0;
    assert q.FarRoot(s) - q.NearRoot(s) == (2.0 * s) * k;
  }
}
