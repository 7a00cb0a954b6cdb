# A verified model of a small sphere ray tracer

The modelled program renders a scene of spheres with Phong shading. For each
pixel of the image, from the top row down and left to right, it sends 50
jittered rays from the eye through a fixed viewport. Each ray is intersected with
every sphere of the world, and the nearest hit is shaded with the hit sphere's
Phong material; a ray that meets no sphere shows a sky gradient. The sum of the
samples is averaged, gamma corrected (square root) and clamped to [0, 1], and
the result is written to a PPM image.

The model covers the arithmetic and control core of that program:

- `Vectors` (vec3.h, vec3.cc): the `Vec3` value with its aliased x/y/z, r/g/b
  and index views, the in-place `operator[]` write on a three-cell array
  (`Vec3Storage`), and the vector operators, `Dot`, `Cross`, `Reflect`,
  `length`, `UnitVector`.
- `Rays` (ray.cc): the ray and its parametric point `at(t)`.
- `Utility`, `UtilityVec` (utility.cc): `Clamp` on scalars and vectors,
  `Square`, and `Bound`, the upper bound `kInfinity` or a finite
  `closest_so_far`.
- `Hittables` (hittable.h, sphere.cc): `HitRecord`, the sphere and
  `Sphere::hit`. That covers the quadratic, the discriminant test, the choice
  between the near and far root and the filling of the record.
- `Materials` (material.h, material.cc): `PhongMaterial`, `reflect_color` and
  `name`.
- `RayTracer` (rt.cc): `RayColor`, meaning the nearest-hit scan and the sky.
  It also covers the camera constants and the pixel, column and sample loops of
  `main`, which write into an `Image` object that records every colour.

Arithmetic is idealised: `double` is modelled as `real`. `std::sqrt`,
`std::pow` and the `UnitVector` the shading calls are taken as function values
in a `Numerics` record. The predicates `IsSqrt` and `Sound` state, as lemma
hypotheses, the only facts the proofs need of them. The two `RandomDouble01()`
draws of each sample come from a function `jitter(row, column, sample)` that is
part of the `Scene`.

The pixel loop is specified by `Trace(shade, coords)`, the sequence of colours
written for a sequence of pixels. Each colour is the shading step `shade`
applied to the pixel and to the colour written just before it, which models
the program's carry-over: `pixel_color` is never reset, so each pixel's sum
starts from the colour written for the previous pixel. `PixelShader` is the
step of `main`: the sample loop, the averaging and the gamma correction.
`Render` is proved to append exactly `Trace(PixelShader(...), PixelOrder(...))`.
The lemmas about `Trace` and `PixelOrder` then establish the other properties:

- every pixel is written once, in order;
- every written channel lies in [0, 1];
- each written channel is the square root of its pixel's mean when no clamp
  bites.

## Model

| member | source | states |
|---|---|---|
| Utility.Clamp | part-1/utility.cc:14-22 | below `min` gives `min`; otherwise above `max` gives `max`; inside the interval gives `x`; the result lies in `[min, max]` when `min <= max` |
| Utility.ClampIdempotent | part-1/utility.cc:14-22 | clamping a clamped value again changes nothing when `min <= max` |
| Utility.ClampEmptyInterval | part-1/utility.cc:16-19 | with `min > max` the `x < min` test, made first, decides: `min` when `x < min`, else `max` |
| Utility.SquareNonNegative | part-1/utility.cc:28 | `Square(x) >= 0` |
| Utility.SquarePositive | part-1/utility.cc:28 | a non-zero value has a strictly positive square |
| Utility.SquareZero | part-1/utility.cc:28 | `Square(x) == 0` exactly when `x == 0` |
| Utility.SquareOfNegation | part-1/utility.cc:28 | `Square(-x) == Square(x)` |
| Utility.SquareAtMostOne | part-1/utility.cc:28 | a value whose square is at most 1 lies in [-1, 1] |
| Utility.BoundAdmits | part-1/rt.cc:34 | `kInfinity` admits every root; a finite bound admits exactly the roots not above it (the `t_max < root` test of `hit`) |
| UtilityVec.ClampVec | part-1/utility.cc:24-27 | each component is the scalar `Clamp` of the matching component, independently |
| UtilityVec.ClampVecToUnit | part-1/utility.cc:24-27 | clamping to [0, 1] always lands in the unit cube, and a colour already in it is returned unchanged |
| Vectors.Vec3.With | part-1/vec3.cc:19 | after `v[i] = a`, component `i` reads `a` and the other two components are unchanged |
| Vectors.Vec3.Neg | part-1/vec3.cc:16 | unary minus is the additive inverse: `v + (-v) == Vec3()` |
| Vectors.Sub | part-1/vec3.cc:47-49 | `u - v` is the vector that, added to `v`, gives `u` |
| Vectors.Vec3Storage.constructor | part-1/vec3.h:37 | the three cells of the storage hold the constructor's arguments |
| Vectors.Vec3Storage.Set | part-1/vec3.cc:19 | an in-place write `v[i] = a` changes exactly cell `i` of the shared storage |
| Vectors.ViewsAlias | part-1/vec3.cc:8-18 | `x()`, `r()` and `[0]` (and likewise y/g/[1], z/b/[2]) read the same value, the one given to `Vec3(x, y, z)` |
| Vectors.WriteVisibleInBothViews | part-1/vec3.h:72-77 | a write through `operator[]` is seen through both the x/y/z and the r/g/b view, and leaves the other components alone |
| Vectors.ZeroIsIdentity | part-1/vec3.h:34 | `Vec3()` is the zero vector and the identity of `+` |
| Vectors.AddSubCancel | part-1/vec3.cc:43-49 | `(u + v) - v == u` |
| Vectors.NegInvolutive | part-1/vec3.cc:16 | `-(-v) == v` and `-v == (-1) * v` |
| Vectors.ScaleCommutes | part-1/vec3.cc:51-55 | `v * t == t * v` |
| Vectors.DivUndoesScale | part-1/vec3.cc:61 | for `t != 0`, `v / t` and `t * v` undo each other |
| Vectors.ComponentMulCommutes | part-1/vec3.cc:57-59 | component-wise `u * v` is commutative and (1, 1, 1) is its identity |
| Vectors.DotSymmetric | part-1/vec3.cc:63-65 | `Dot(u, v) == Dot(v, u)` |
| Vectors.LengthSquaredIsDot | part-1/vec3.cc:23 | `length_squared(v) == Dot(v, v)`, is a sum of squares, is never negative and is zero only for the zero vector |
| Vectors.ScaleLengthSquared | part-1/vec3.cc:51-53 | scaling by `t` scales the squared length by `t * t` |
| Vectors.CrossOrthogonal | part-1/vec3.cc:67-70 | `Cross(u, v)` is orthogonal to both `u` and `v` |
| Vectors.ReflectKeepsNormalComponent | part-1/vec3.cc:74 | with a unit `n`, `Dot(Reflect(v, n), n) == Dot(v, n)` |
| Vectors.ReflectInvolutive | part-1/vec3.cc:74 | with a unit `n`, reflecting twice gives back `v` |
| Vectors.UnitVectorIsUnit | part-1/vec3.cc:72 | with a true square root, `UnitVector` of a non-zero vector is defined and has length one |
| Vectors.SoundUnitIsBounded | part-1/vec3.cc:72 | under sound numerics the unit vector of a non-zero vector has length one, so each component lies in [-1, 1] |
| Vectors.Vec3.R | part-1/vec3.cc:12 | no contract; specified by `Vectors.ViewsAlias` (`r()` reads the same value as `x()` and `[0]`) |
| Vectors.Vec3.G | part-1/vec3.cc:13 | no contract; specified by `Vectors.ViewsAlias` |
| Vectors.Vec3.B | part-1/vec3.cc:14 | no contract; specified by `Vectors.ViewsAlias` |
| Vectors.Vec3.Component | part-1/vec3.cc:18 | no contract; specified by `Vectors.ViewsAlias` and `Vectors.WriteVisibleInBothViews` |
| Vectors.Vec3.LengthSquared | part-1/vec3.cc:23 | no contract; specified by `Vectors.LengthSquaredIsDot` and `Vectors.ScaleLengthSquared` |
| Vectors.Vec3.Length | part-1/vec3.cc:21 | no contract; specified by `Vectors.UnitVectorIsUnit` |
| Vectors.Zero | part-1/vec3.h:34 | no contract; specified by `Vectors.ZeroIsIdentity` |
| Vectors.Add | part-1/vec3.cc:43-45 | no contract; specified by `Vectors.ZeroIsIdentity`, `Vectors.AddSubCancel` and `Vectors.Sub` |
| Vectors.Scale | part-1/vec3.cc:51-53 | no contract; specified by `Vectors.ScaleCommutes` and `Vectors.ScaleLengthSquared` |
| Vectors.Times | part-1/vec3.cc:55 | no contract; specified by `Vectors.ScaleCommutes` |
| Vectors.ComponentMul | part-1/vec3.cc:57-59 | no contract; specified by `Vectors.ComponentMulCommutes` |
| Vectors.Div | part-1/vec3.cc:61 | no contract; specified by `Vectors.DivUndoesScale` |
| Vectors.Dot | part-1/vec3.cc:63-65 | no contract; specified by `Vectors.DotSymmetric` and `Vectors.LengthSquaredIsDot` |
| Vectors.Cross | part-1/vec3.cc:67-70 | no contract; specified by `Vectors.CrossOrthogonal` |
| Vectors.UnitVector | part-1/vec3.cc:72 | no contract; specified by `Vectors.UnitVectorIsUnit` |
| Vectors.Reflect | part-1/vec3.cc:74 | no contract; specified by `Vectors.ReflectKeepsNormalComponent` and `Vectors.ReflectInvolutive` |
| Rays.Ray.At | part-1/ray.cc:10 | `at(t) - origin() == t * direction()` for every real `t` |
| Rays.AccessorsReturnArguments | part-1/ray.cc:6-8 | `origin()` and `direction()` return the constructor's arguments |
| Rays.AtZeroIsOrigin | part-1/ray.cc:10 | `at(0) == origin()` |
| Rays.AtAdditive | part-1/ray.cc:10 | `at(s + t) == at(s) + t * direction()` |
| Rays.AtOne | part-1/ray.cc:10 | `at(1) == origin() + direction()`, whatever the length of the direction |
| Rays.AtDistanceQuadratic | part-1/ray.cc:10 | the squared distance from a point to `at(t)` is the quadratic in `t` that `hit` solves |
| Hittables.DefaultRecord | part-1/hittable.h:18-30 | a default `HitRecord` has zero point and normal and a null material |
| Hittables.Hittable.Coefficients | part-1/sphere.cc:17-24 | no contract; specified by `Hittables.CoefficientsDescribeSphere` and `Hittables.LeadingCoefficientPositive` |
| Hittables.Hittable.ChosenRoot | part-1/sphere.cc:27-49 | no contract; specified by `Hittables.RootChoice`, `Hittables.ChosenRootInRange`, `Hittables.ChosenRootOnSurface` and `Hittables.ChosenRootIsNearest` |
| Hittables.Hittable.RecordAt | part-1/sphere.cc:51-54 | no contract; specified by `Hittables.HitNormalIsUnit` and `Hittables.HitNormalPointsOutward` |
| Hittables.Hittable.Hit | part-1/sphere.cc:14-56 | returns true exactly when a root is chosen. On a hit: `rec` gets that root as `t`, `p == r.at(t)`, `normal == (p - center) / radius` and the sphere's material, with `t_min <= t <= t_max`. On a miss, including a negative discriminant, `rec` is returned unchanged |
| Hittables.AccessorsReturnArguments | part-1/sphere.cc:8-12 | `center()`, `radius()` and `material()` return the constructor's arguments |
| Hittables.CoefficientsDescribeSphere | part-1/sphere.cc:17-24 | `a t^2 + b t + c` is the squared distance from the centre to `at(t)` minus the squared radius, so it is zero exactly on the surface |
| Hittables.LeadingCoefficientPositive | part-1/sphere.cc:22 | `a = Dot(d, d) > 0` for a non-zero direction |
| Hittables.NegativeDiscriminantMisses | part-1/sphere.cc:27-33 | with a negative discriminant no point of the ray's line lies on the sphere |
| Hittables.RootChoice | part-1/sphere.cc:39-49 | the near root is taken whenever it is in range, the far root only otherwise, and none when neither is |
| Hittables.ChosenRootInRange | part-1/sphere.cc:41-49 | a chosen root lies in `[t_min, t_max]` |
| Hittables.NearRootNotAfterFar | part-1/sphere.cc:39-43 | with `a > 0` and a true square root, the near root is at most the far root |
| Hittables.ChosenRootOnSurface | part-1/sphere.cc:35-43 | with a true square root the chosen root solves `a t^2 + b t + c = 0`, so `at(t)` is on the surface |
| Hittables.ChosenRootIsNearest | part-1/sphere.cc:36-49 | if the surface is met at any `t` in range, a root is chosen and it is no later than `t` |
| Hittables.MissMeansNoIntersection | part-1/sphere.cc:45-48 | when no root is chosen, no surface point lies in range along the ray |
| Hittables.HitNormalIsUnit | part-1/sphere.cc:53 | the normal stored on a hit has length one |
| Hittables.HitNormalPointsOutward | part-1/sphere.cc:51-53 | `Dot(normal, p - center) == radius`: the stored normal points away from the centre for a positive radius and towards it for a negative one |
| Hittables.HeadOnRoots | part-1/sphere.cc:17-43 | for a unit-length ray aimed at a centre `D` ahead with `D > radius > 0`, the discriminant is `(2 radius)^2`, the near root is `D - radius`, the far root `D + radius`, and `hit` takes the near one whenever it is in range |
| Hittables.QuadraticRoot | part-1/sphere.cc:39-43 | both quadratic-formula roots solve the quadratic when `s * s` is the discriminant |
| Hittables.OnlyTwoRoots | part-1/sphere.cc:39-43 | every solution of the quadratic is one of the two quadratic-formula roots |
| Hittables.RootImpliesDiscriminantNonNegative | part-1/sphere.cc:27-33 | a quadratic with a real root has a non-negative discriminant |
| Hittables.NearBeforeFar | part-1/sphere.cc:39-43 | for `a > 0` and `s >= 0` the `-` root is at most the `+` root |
| Materials.Max | part-1/material.cc:21 | `std::max(a, b)` is one of its arguments and at least both |
| Materials.PhongMaterial.ReflectColor | part-1/material.cc:10-32 | every channel of the result lies in [0, 1], and an unclamped Phong sum already in [0, 1] is returned as it is |
| Materials.NewPhongMaterial | part-1/material.h:48-55 | the constructor stores its colours and shininess, and `name()` returns the given name |
| Materials.DiffuseFactor | part-1/material.cc:21 | `l_dot_n >= 0`: it is zero when the light is behind the surface and the cosine otherwise |
| Materials.SpecularBase | part-1/material.cc:24 | `r_dot_v >= 0`: it is zero when the reflection points away from the viewer and the cosine otherwise |
| Materials.PhongMaterial.Name | part-1/material.cc:34 | no contract; specified by `Materials.NewPhongMaterial` and `Materials.DefaultNameIsNoName` |
| Materials.PhongMaterial.AmbientTerm | part-1/material.cc:19 | no contract; specified by `Materials.LightColorIsNeutral` and `Materials.AmbientOnly` |
| Materials.PhongMaterial.DiffuseTerm | part-1/material.cc:21-22 | no contract; specified by `Materials.DiffuseFactor` and `Materials.NoDiffuseFromBehind` |
| Materials.PhongMaterial.SpecularTerm | part-1/material.cc:24-26 | no contract; specified by `Materials.SpecularBase` and `Materials.AmbientOnly` |
| Materials.PhongMaterial.Phong | part-1/material.cc:28 | no contract; specified by `Materials.PhongMaterial.ReflectColor` and `Materials.AmbientOnly` |
| Materials.ToLight | part-1/material.cc:14 | no contract; specified by `Materials.DiffuseFactor` |
| Materials.UnitNormal | part-1/material.cc:15 | no contract; specified by `Materials.DiffuseFactor` |
| Materials.ToViewer | part-1/material.cc:16 | no contract; specified by `Materials.ViewerAtOrigin` |
| Materials.Reflection | part-1/material.cc:17 | no contract; specified by `Materials.SpecularBase` |
| Materials.LightColorIsNeutral | part-1/material.cc:12-19 | the light is (1, 1, 1), so `c * light_color == c` |
| Materials.AmbientOnly | part-1/material.cc:19-29 | with zero diffuse and specular colours the result is `Clamp(ambient, 0, 1)` |
| Materials.NoDiffuseFromBehind | part-1/material.cc:21-22 | with the light behind the surface the diffuse term is zero |
| Materials.ShadingIgnoresRay | part-1/material.cc:10-31 | the result depends only on `rec.p`, `rec.normal` and the material, never on the ray |
| Materials.ViewerAtOrigin | part-1/material.cc:16 | the viewer vector is the unit vector from the hit point towards the origin |
| Materials.DefaultNameIsNoName | part-1/material.h:50 | a material built without a name is called "No Name" |
| RayTracer.Scan | part-1/rt.cc:33-41 | no contract; specified by `RayTracer.HitAnythingIffSomeHit`, `RayTracer.ScanRecord`, `RayTracer.ScanFindsNearest` and `RayTracer.ScanHitOnSurface` |
| RayTracer.ClosestNeverIncreases | part-1/rt.cc:33-41 | `closest_so_far` never increases as the scan proceeds |
| RayTracer.HitAnythingIffSomeHit | part-1/rt.cc:32-41 | after the scan, `hit_anything` holds exactly when some object's `hit` returned true |
| RayTracer.ScanRecord | part-1/rt.cc:34-39 | on a hit, `rec` is the record of the last object struck, `closest_so_far == rec.t` and `rec.t >= 0`; without one the bound is still `kInfinity` |
| RayTracer.WinnerHasMaterial | part-1/rt.cc:39-43 | in a world of spheres with materials, the winning record carries a material |
| RayTracer.ScanFindsNearest | part-1/rt.cc:35-41 | if any sphere meets the ray at some `t >= 0`, there is a hit and `rec.t <= t` |
| RayTracer.ScanHitOnSurface | part-1/rt.cc:35-41 | the winning record lies on the surface of a sphere of the world, at `rec.p == r.at(rec.t)` |
| RayTracer.RayColor | part-1/rt.cc:28-52 | the loop computes the scan, and the result is the winner's `reflect_color` after a hit and the sky blend otherwise |
| RayTracer.RayColorOf | part-1/rt.cc:42-51 | no contract; specified by `RayTracer.RayColor`, `RayTracer.RayColorInUnitCube`, `RayTracer.NothingAheadShowsSky` and `RayTracer.NearestSphereShades` |
| RayTracer.BlendFactor | part-1/rt.cc:47-48 | no contract; specified by `RayTracer.BackgroundBetweenSkyColors` |
| RayTracer.Background | part-1/rt.cc:45-49 | no contract; specified by `RayTracer.BackgroundBetweenSkyColors` |
| RayTracer.BackgroundBetweenSkyColors | part-1/rt.cc:44-49 | the blend factor lies in [0, 1] and each sky channel lies between the matching `sky_top` and `sky_bottom` channels; straight up is `sky_top`, straight down `sky_bottom` |
| RayTracer.RayColorInUnitCube | part-1/rt.cc:42-51 | every ray colour has its channels in [0, 1] |
| RayTracer.NothingAheadShowsSky | part-1/rt.cc:35-49 | a ray that meets no sphere at any `t >= 0` has no hit and shows the sky |
| RayTracer.NearestSphereShades | part-1/rt.cc:35-43 | a ray meeting a sphere at `t >= 0` is shaded by the material of a winner on a sphere's surface, at `rec.t <= t` |
| RayTracer.ImageHeightIsRounded | part-1/rt.cc:63-65 | 800 / (16 / 9) is exactly 450, so `lround` gives the height 450 |
| RayTracer.MainSetupIsRenderable | part-1/rt.cc:63-66 | with `main`'s 800 by 450 image and 50 samples, every well-formed world can be rendered |
| RayTracer.LowerLeftCornerFromFrame | part-1/rt.cc:77-84 | the lower-left corner is `origin - horizontal / 2 - vertical / 2 - (0, 0, focal_length)` |
| RayTracer.ViewportRay | part-1/rt.cc:93-94 | the sample ray starts at the origin and its direction is non-zero, one focal length in front of the eye |
| RayTracer.ViewportRayDirection | part-1/rt.cc:91-94 | `(u, v)` maps linearly onto the viewport: (0, 0) is the lower-left corner, (1, 1) the upper right, (1/2, 1/2) straight ahead |
| RayTracer.ViewportOffset | part-1/rt.cc:93-94 | moving `u` across and `v` up from the corner adds `u * viewport_width` and `v * viewport_height` |
| RayTracer.SampleRay | part-1/rt.cc:91-94 | every sample ray starts at the origin and has a non-zero direction |
| RayTracer.SampleColor | part-1/rt.cc:91-95 | no contract; specified by `RayTracer.ShadeSample` |
| RayTracer.SampleSum | part-1/rt.cc:90-96 | no contract; specified by `RayTracer.AccumulateSamples` and `RayTracer.CarryAddsToSamples` |
| RayTracer.PixelValue | part-1/rt.cc:90-101 | no contract; specified by `RayTracer.ShadePixel` and `RayTracer.GammaIsSquareRootOfMean` |
| RayTracer.Carry | part-1/rt.cc:87 | no contract; specified by `RayTracer.EachPixelStartsFromThePrevious` |
| RayTracer.PixelShader | part-1/rt.cc:90-102 | no contract; specified by `RayTracer.Render` and `RayTracer.TraceInUnitCube` |
| RayTracer.Gamma | part-1/rt.cc:97-101 | every channel of the gamma-corrected pixel lies in [0, 1] |
| RayTracer.ScaledGamma | part-1/rt.cc:97-101 | the same, for any scale factor |
| RayTracer.Trace | part-1/rt.cc:87-104 | one colour is written per visited pixel, whatever the shading step |
| RayTracer.RowCoords | part-1/rt.cc:89 | the column loop visits columns 0 to `width - 1` of a row, in order |
| RayTracer.PixelOrder | part-1/rt.cc:88-89 | the loops visit `width * height` pixels |
| RayTracer.RowsLength | part-1/rt.cc:88-89 | `count` rows of `width` pixels are `count * width` visits |
| RayTracer.RowsMembership | part-1/rt.cc:88-89 | the rows loop visits exactly the pixels of its rows and columns |
| RayTracer.RowsOrdered | part-1/rt.cc:88-89 | visits go row by row from the top, left to right within a row |
| RayTracer.PixelOrderVisitsEachPixelOnce | part-1/rt.cc:88-104 | the loops make exactly `width * height` visits, cover every pixel once, go from row `height - 1` down to 0 and left to right, and start at `(height - 1, 0)` |
| RayTracer.FirstRowFirst | part-1/rt.cc:88-89 | the first pixel visited is column 0 of the top row |
| RayTracer.TracePrefix | part-1/rt.cc:87-104 | the colours written for a prefix of the pixels are the prefix of the colours written |
| RayTracer.EachPixelStartsFromThePrevious | part-1/rt.cc:87-101 | `pixel_color` is never reset: the first pixel is shaded from `Color()` and every later pixel from the colour written just before it |
| RayTracer.CarryAddsToSamples | part-1/rt.cc:95 | the carried colour is simply added to the sum of the samples |
| RayTracer.GammaIsSquareRootOfMean | part-1/rt.cc:97-100 | when each channel sum lies in `[0, samples]`, each written channel is non-negative and its square is the channel's mean |
| RayTracer.ScaledGammaIsSquareRoot | part-1/rt.cc:97-100 | each channel is the square root of its scaled value when that lies in [0, 1] |
| RayTracer.ChannelGamma | part-1/rt.cc:98-100 | a scaled value in [0, 1] is written as its square root |
| RayTracer.MeanInUnitInterval | part-1/rt.cc:97 | multiplying by `scale = 1 / samples` is dividing by `samples`, giving a mean in [0, 1] for a sum in `[0, samples]` |
| RayTracer.GammaBlue | part-1/rt.cc:97-100 | with a true square root, a positive blue sum is written with positive blue and a zero one with zero blue |
| RayTracer.PixelBlue | part-1/rt.cc:90-101 | for a pixel whose own samples have no blue, the written blue is positive when the carried colour has blue and zero when it has none |
| RayTracer.CarriedBlueLeaks | part-1/rt.cc:87-101 | a pixel whose own samples have no blue is written with positive blue when the pixel before it was |
| RayTracer.ResetPixelsAreIndependent | part-1/rt.cc:87-101 | with `pixel_color` reset per pixel, each pixel is shaded from `Color()`, and a pixel whose samples have no blue is written with none |
| RayTracer.Image | part-1/image.h:17-74 | no contract of its own; its constructor and `Write` are specified by `RayTracer.Image.constructor` and `RayTracer.Image.Write` |
| RayTracer.Image.constructor | part-1/rt.cc:67 | a new image has the given dimensions and no pixel written |
| RayTracer.Image.Write | part-1/rt.cc:102 | `write(c)` appends `c` to the written colours |
| RayTracer.AccumulateSamples | part-1/rt.cc:90-96 | the sample loop adds the colours of the pixel's sample rays to `pixel_color`, one per sample |
| RayTracer.ShadeSample | part-1/rt.cc:91-95 | the loop body's colour is `RayColor` of the jittered sample ray |
| RayTracer.TraceInUnitCube | part-1/rt.cc:97-102 | every channel of every written colour lies in [0, 1] |
| RayTracer.TraceAppend | part-1/rt.cc:87-104 | writing one more pixel appends its colour, shaded from the last colour written |
| RayTracer.TraceAt | part-1/rt.cc:87-104 | pixel `k` is shaded from the colours written before it |
| RayTracer.TraceIsTraced | part-1/rt.cc:87-104 | the trace meets the position-by-position description `Traced` |
| RayTracer.TracedIsTrace | part-1/rt.cc:87-104 | any colours meeting `Traced` are the trace, so `Traced` characterises it |
| RayTracer.TracedPrefix | part-1/rt.cc:87-104 | prefixes of traced colours are traced for the same prefix of pixels |
| RayTracer.GammaCorrect | part-1/rt.cc:97-101 | the statements compute the gamma step, the square root of each scaled channel clamped to [0, 1] |
| RayTracer.ShadePixel | part-1/rt.cc:90-102 | a pixel's body accumulates the samples from `pixel_color`, gamma corrects the sum and appends exactly that colour |
| RayTracer.RenderRow | part-1/rt.cc:89-103 | the column loop appends the row's expected colours and leaves `pixel_color` at the last of them |
| RayTracer.RenderRows | part-1/rt.cc:88-104 | the row loop appends the expected colours of all rows |
| RayTracer.Render | part-1/rt.cc:87-104 | the pixel loop appends exactly `Trace` of `main`'s shading step over `PixelOrder`, starting from `Color()` |
| RayTracer.RowStartBounds | part-1/rt.cc:88-89 | the rows start `width` apart, the top row at 0, and every row ends inside the image |
| RayTracer.TraceIsImageTraced | part-1/rt.cc:88-104 | the trace of the pixel order is, row by row, each row's colours shaded in sequence |
| RayTracer.TraceRow | part-1/rt.cc:89-103 | one row of the trace is its pixels shaded in sequence |
| RayTracer.TracePixel | part-1/rt.cc:89-103 | pixel `(row, column)` is at `RowStart(row) + column` of the trace and shaded from the colour before it |
| RayTracer.PixelOrderAt | part-1/rt.cc:88-89 | pixel `(row, column)` is visited at position `(height - 1 - row) * width + column` |
| RayTracer.RowsAt | part-1/rt.cc:88-89 | visit `i * width + c` is column `c` of the `i`-th row from the top |

## Findings

| source | as written | input that shows it | evidently intended | confidence | as-written member | corrected member |
|---|---|---|---|---|---|---|
| part-1/rt.cc:87-101 | `pixel_color` is declared once before the loops and never reset, so each pixel's sum starts from the colour written for the pixel before it | the one-sphere scene (radius 0.5 at `(0, 0, -1)`, a material with no blue): the first pixel, top left, shows the sky, whose blue is positive; every later pixel on the sphere, whose own samples have blue 0, is then written with positive blue | each pixel's sum starts from `Color()`, so a sphere pixel of a blue-less material has blue 0 | not executed | RayTracer.CarriedBlueLeaks | RayTracer.ResetPixelsAreIndependent |

`Render` keeps the loop as written. The corrected step is `ResetPixelShader`,
which shades every pixel from `Color()`; since `Trace` is generic in the
shading step, the lemmas about `Trace` and `PixelOrder` hold for it
unchanged.

## Left out

- Randomness: the `RandomDouble01()` draws arrive as the `jitter` function of the `Scene`, and rng.cc, `Vec3::random_01`, `random_11`, `random` and `random_in_unit_sphere` are not modelled.
- Image output: opening the file, the PPM header, `is_open`, `close` and the `lround(255 * c)` quantisation of image.cc are replaced by `Image`, which records every colour written. The file name is not kept.
- Scene and material tables (`OriginalScene`, `FiveSpheres`, `RandomScene`, the Phong material map and array), `DegreesToRadians` and `kPi`: they are fixed data, shuffling and console output. `Render` takes any world.
- Printing (`operator<<` of vectors, rays and spheres), the argument checks, error messages and timing of `main`.
- Floating point: rounding, NaN and infinity are not modelled, and `double` is `real`. The NaN that `HitRecord` starts `t` with is 0 in the model, a value nothing reads before a hit overwrites it.
- `std::sqrt`, `std::pow` and `UnitVector` in the shading and sky code are function values of `Numerics`: only what `IsSqrt` and `Sound` assume of them is known.
- `Vectors.UnitVector` takes an explicit square root and, like the source, is undefined for a zero vector. The `unit` of `Numerics` is total, because the shading code calls it without a check.
- `Hittable` and `Material` are abstract C++ classes with one implementation each. They are a closed `Hittable` datatype with the single variant `Sphere` and the datatype `PhongMaterial`; a `shared_ptr<Material>` is an `Option`, with `None` for null.
- The two-argument `Sphere(center, radius)` constructor is `Sphere(center, radius, None)`.
- Hittables.Hittable.Hit: requires a non-zero direction and a non-zero radius, because otherwise `hit` divides by zero and yields infinities or NaN, which the model does not have.
- RayTracer.RayColor: requires a non-zero direction, non-zero radii and a material on the winning sphere. Otherwise the source divides by zero or dereferences a null material.
- RayTracer.Render: requires an image at least 2 by 2 and at least one sample, and one material per sphere, because `main` divides by `width - 1`, `height - 1` and the sample count and dereferences the winner's material.
- RayTracer.Render: the number of samples is a field of the `Scene`. `main` fixes it at 50 (`SamplesPerPixel`), and the proofs hold for any positive count.
- RayTracer.Render: the triple loop of `main` is split into methods. `Render` and `RenderRows` run the row loop, `RenderRow` the column loop, `ShadePixel` a pixel's body, `AccumulateSamples` the sample loop, `ShadeSample` one sample and `GammaCorrect` the gamma step.
- `LowerLeftCorner` is written as its value, and `LowerLeftCornerFromFrame` proves it equal to the source's formula.
- `Vectors.Vec3.Component`: an index outside 0..2 is undefined behaviour in the source and a precondition here.
