/**
  Phong shading (material.h, material.cc).

  `Material` is an abstract base class whose only implementation is
  `PhongMaterial`; a `std::shared_ptr<Material>` is therefore an optional
  `PhongMaterial`, with `None` for `nullptr`. `UnitVector` and `std::pow`
  come from the `Numerics` record, so only the arrangement of the formula and
  the final clamp are modelled exactly.
*/
module Materials {
  import opened Wrappers
  import opened Utility
  import opened UtilityVec
  import opened Vectors
  import opened Hittables
  import opened Rays

  /** The fixed point light of `reflect_color`. */
  const LightPosition: Vec3 := Vec3(20.0, 20.0, -1.0)
  const LightColor: Color := Vec3(1.0, 1.0, 1.0)

  /** The name a material gets when none is given. */
  const DefaultName: string := "No Name"

  /** `std::max(a, b)`, which returns `b` exactly when `a < b`. */
  function Max(a: real, b: real): (m: real)
    ensures m >= a && m >= b
    ensures m == a || m == b
  {
    if a < b then b else a
  }

  datatype PhongMaterial = PhongMaterial(ambient: Color, diffuse: Color, specular: Color, shininess: real, name: string) {

    /** `name()`. */
    function Name(): string {
      name
    }

    /** `ambient_ * light_color`. */
    function AmbientTerm(): Color {
      ComponentMul(ambient, LightColor)
    }

    /** `diffuse_ * l_dot_n * light_color`. */
    function DiffuseTerm<M>(n: Numerics, rec: HitRecord<M>): Color {
      ComponentMul(Times(diffuse, DiffuseFactor(n, rec)), LightColor)
    }

    /** `specular_ * pow(r_dot_v, shininess_) * light_color`. */
    function SpecularTerm<M>(n: Numerics, rec: HitRecord<M>): Color {
      ComponentMul(Times(specular, n.Pow(SpecularBase(n, rec), shininess)), LightColor)
    }

    /** The unclamped sum `phong_ambient + phong_diffuse + phong_specular`. */
    function Phong<M>(n: Numerics, rec: HitRecord<M>): Color {
      Add(Add(AmbientTerm(), DiffuseTerm(n, rec)), SpecularTerm(n, rec))
    }

    /**
      `reflect_color(r, rec)`: the Phong sum clamped channel by channel to
      [0, 1]. The ray `r` is not used.
    */
    function ReflectColor<M>(n: Numerics, r: Ray, rec: HitRecord<M>): (c: Color)
      ensures InUnitCube(c)
      ensures InUnitCube(Phong(n, rec)) ==> c == Phong(n, rec)
    {
      ClampVecToUnit(Phong(n, rec));
      ClampVec(Phong(n, rec), 0.0, 1.0)
    }
  }

  /** `std::shared_ptr<Material>`: `None` is `nullptr`. */
  type MaterialPtr = Option<PhongMaterial>

  /** The constructor `PhongMaterial(ambient, diffuse, specular, shininess, name = "No Name")`. */
  function NewPhongMaterial(ambient: Color, diffuse: Color, specular: Color, shininess: real,
                            name: string := DefaultName): (m: PhongMaterial)
    ensures m.ambient == ambient && m.diffuse == diffuse && m.specular == specular
    ensures m.shininess == shininess
    ensures m.Name() == name
  {
    PhongMaterial(ambient, diffuse, specular, shininess, name)
  }

  /** The unit vector from the hit point towards the light. */
  function ToLight<M>(n: Numerics, rec: HitRecord<M>): Vec3 {
    n.Unit(Sub(LightPosition, rec.p))
  }

  function UnitNormal<M>(n: Numerics, rec: HitRecord<M>): Vec3 {
    n.Unit(rec.normal)
  }

  /** `UnitVector(-rec.p)`: the direction to an eye placed at the origin. */
  function ToViewer<M>(n: Numerics, rec: HitRecord<M>): Vec3 {
    n.Unit(rec.p.Neg())
  }

  /** `Reflect(to_light_vector, unit_normal)`. */
  function Reflection<M>(n: Numerics, rec: HitRecord<M>): Vec3 {
    Reflect(ToLight(n, rec), UnitNormal(n, rec))
  }

  /** `l_dot_n`: the cosine term, cut off at zero when the light is behind the surface. */
  function DiffuseFactor<M>(n: Numerics, rec: HitRecord<M>): (l: real)
    ensures l >= 0.0
    ensures Dot(ToLight(n, rec), UnitNormal(n, rec)) <= 0.0 ==> l == 0.0
    ensures Dot(ToLight(n, rec), UnitNormal(n, rec)) >= 0.0 ==> l == Dot(ToLight(n, rec), UnitNormal(n, rec))
  {
    Max(Dot(ToLight(n, rec), UnitNormal(n, rec)), 0.0)
  }

  /** `r_dot_v`: the base of the specular power, cut off at zero. */
  function SpecularBase<M>(n: Numerics, rec: HitRecord<M>): (l: real)
    ensures l >= 0.0
    ensures Dot(Reflection(n, rec), ToViewer(n, rec)) <= 0.0 ==> l == 0.0
    ensures Dot(Reflection(n, rec), ToViewer(n, rec)) >= 0.0 ==> l == Dot(Reflection(n, rec), ToViewer(n, rec))
  {
    Max(Dot(Reflection(n, rec), ToViewer(n, rec)), 0.0)
  }

  // ---------------------------------------------------------------------
  // Properties of the shading

  /** The light is white, so multiplying by `light_color` changes nothing. */
  lemma LightColorIsNeutral(c: Color)
    ensures ComponentMul(c, LightColor) == c
  {
  }

  /** A material without diffuse and specular colour shows its clamped ambient colour. */
  lemma {:induction false} AmbientOnly<M>(m: PhongMaterial, n: Numerics, r: Ray, rec: HitRecord<M>)
    requires m.diffuse == Zero() && m.specular == Zero()
    ensures m.ReflectColor(n, r, rec) == ClampVec(m.ambient, 0.0, 1.0)
  {
    LightColorIsNeutral(m.ambient);
    assert m.DiffuseTerm(n, rec) == Zero();
    assert m.SpecularTerm(n, rec) == Zero();
  }

  /** With the light behind the surface there is no diffuse contribution. */
  lemma {:induction false} NoDiffuseFromBehind<M>(m: PhongMaterial, n: Numerics, rec: HitRecord<M>)
    requires Dot(ToLight(n, rec), UnitNormal(n, rec)) <= 0.0
    ensures m.DiffuseTerm(n, rec) == Zero()
  {
    assert DiffuseFactor(n, rec) == 0.0;
  }

  /** The colour depends on the record only through `p` and `normal`; the ray is ignored. */
  lemma ShadingIgnoresRay<M, M'>(m: PhongMaterial, n: Numerics, r1: Ray, r2: Ray, rec1: HitRecord<M>, rec2: HitRecord<M'>)
    requires rec1.p == rec2.p && rec1.normal == rec2.normal
    ensures m.ReflectColor(n, r1, rec1) == m.ReflectColor(n, r2, rec2)
  {
  }

  /** The viewer vector is taken towards the origin, where the camera sits. */
  lemma ViewerAtOrigin<M>(n: Numerics, rec: HitRecord<M>)
    ensures ToViewer(n, rec) == n.Unit(Sub(Zero(), rec.p))
  {
  }

  /** Without an explicit name a material is called "No Name". */
  lemma DefaultNameIsNoName(a: Color, d: Color, s: Color, shininess: real)
    ensures NewPhongMaterial(a, d, s, shininess).Name() == "No Name"
  {
  }
}
