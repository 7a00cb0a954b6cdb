/**
  The renderer of rt.cc: `RayColor`'s nearest-hit scan over the world with
  its sky-gradient fallback, and the row/column/sample loop of `main` that
  shades each pixel and appends it to the image.

  The world is a sequence of spheres whose `shared_ptr` materials are optional
  Phong materials. The `RandomDouble01()` draws of each sample arrive as a
  function `jitter(row, column, sample)` of the pixel and sample, and the
  image is a sink that records every colour written to it.
*/
module RayTracer {
  import opened Wrappers
  import opened Utility
  import opened UtilityVec
  import opened Vectors
  import opened Rays
  import opened Hittables
  import opened Materials

  type World = seq<Hittable<MaterialPtr>>

  /** Every sphere has a non-zero radius, so `hit` can divide by it. */
  predicate NonDegenerate(world: World) {
    forall i :: 0 <= i < |world| ==> world[i].radius != 0.0
  }

  /** `NonDegenerate`, and every sphere carries a material, so the winning record can be dereferenced. */
  predicate WellFormed(world: World) {
    NonDegenerate(world) && forall i :: 0 <= i < |world| ==> world[i].material.Some?
  }

  // ---------------------------------------------------------------------
  // The nearest-hit scan of RayColor

  /** The loop state of `RayColor`: `hit_anything`, `closest_so_far` and `rec`. */
  datatype ScanState = ScanState(hitAnything: bool, closest: Bound, rec: HitRecord<MaterialPtr>)

  /** The default-initialised `rec` of `RayColor`. */
  function NoRecord(): HitRecord<MaterialPtr> {
    DefaultRecord(None)
  }

  /**
    The state after the first `k` objects of the world have been tried, each
    against `[0, closest_so_far]`: a hit records the object's record and
    narrows the bound to its `t`.
  */
  function Scan(sqrt: real -> real, r: Ray, world: World, k: nat): ScanState
    requires k <= |world| && r.direction != Zero() && NonDegenerate(world)
  {
    if k == 0 then ScanState(false, Inf, NoRecord())
    else
      var s := Scan(sqrt, r, world, k - 1);
      var o := world[k - 1];
      match o.ChosenRoot(sqrt, r, 0.0, s.closest)
      case None => s
      case Some(t) => ScanState(true, Fin(t), o.RecordAt(r, t))
  }

  /** Object `i`'s `hit` returns true when the scan reaches it. */
  predicate Struck(sqrt: real -> real, r: Ray, world: World, i: nat)
    requires i < |world| && r.direction != Zero() && NonDegenerate(world)
  {
    world[i].ChosenRoot(sqrt, r, 0.0, Scan(sqrt, r, world, i).closest).Some?
  }

  /** Object `i` is the last of the first `k` objects that was struck, and `rec` after `k` objects is its record. */
  predicate LastStruck(sqrt: real -> real, r: Ray, world: World, k: nat, i: nat)
    requires k <= |world| && r.direction != Zero() && NonDegenerate(world)
  {
    && i < k
    && Struck(sqrt, r, world, i)
    && Scan(sqrt, r, world, k).rec
       == world[i].RecordAt(r, world[i].ChosenRoot(sqrt, r, 0.0, Scan(sqrt, r, world, i).closest).value)
    && forall j :: i < j < k ==> !Struck(sqrt, r, world, j)
  }

  /** `b` is no larger than `c`, `Inf` being above every finite bound. */
  predicate AtMost(b: Bound, c: Bound) {
    c == Inf || (b.Fin? && b.value <= c.value)
  }

  /** `closest_so_far` never increases while the scan proceeds. */
  lemma {:induction false} ClosestNeverIncreases(sqrt: real -> real, r: Ray, world: World, j: nat, k: nat)
    requires j <= k <= |world| && r.direction != Zero() && NonDegenerate(world)
    ensures AtMost(Scan(sqrt, r, world, k).closest, Scan(sqrt, r, world, j).closest)
  {
    if j < k {
      ClosestNeverIncreases(sqrt, r, world, j, k - 1);
      var s := Scan(sqrt, r, world, k - 1);
      var o := world[k - 1];
      if o.ChosenRoot(sqrt, r, 0.0, s.closest).Some? {
        ChosenRootInRange(o, sqrt, r, 0.0, s.closest);
      }
    }
  }

  /** After the scan, `hit_anything` holds exactly when some object's `hit` returned true. */
  lemma {:induction false} HitAnythingIffSomeHit(sqrt: real -> real, r: Ray, world: World, k: nat)
    requires k <= |world| && r.direction != Zero() && NonDegenerate(world)
    ensures Scan(sqrt, r, world, k).hitAnything <==> exists i :: 0 <= i < k && Struck(sqrt, r, world, i)
  {
    if k > 0 {
      HitAnythingIffSomeHit(sqrt, r, world, k - 1);
      if Struck(sqrt, r, world, k - 1) {
        assert Scan(sqrt, r, world, k).hitAnything;
      } else {
        assert Scan(sqrt, r, world, k) == Scan(sqrt, r, world, k - 1);
        assert (exists i :: 0 <= i < k && Struck(sqrt, r, world, i))
           ==> (exists i :: 0 <= i < k - 1 && Struck(sqrt, r, world, i));
      }
    }
  }

  /**
    After a hit, `rec` is the record of the last object struck,
    `closest_so_far == rec.t` and `rec.t >= 0`; without a hit the bound is
    still `kInfinity`.
  */
  lemma {:induction false} ScanRecord(sqrt: real -> real, r: Ray, world: World, k: nat)
    requires k <= |world| && r.direction != Zero() && NonDegenerate(world)
    ensures Scan(sqrt, r, world, k).hitAnything <==> Scan(sqrt, r, world, k).closest.Fin?
    ensures !Scan(sqrt, r, world, k).hitAnything ==> Scan(sqrt, r, world, k).closest == Inf
    ensures Scan(sqrt, r, world, k).hitAnything ==>
      && Scan(sqrt, r, world, k).closest == Fin(Scan(sqrt, r, world, k).rec.t)
      && Scan(sqrt, r, world, k).rec.t >= 0.0
      && exists i: nat :: LastStruck(sqrt, r, world, k, i)
  {
    if k > 0 {
      ScanRecord(sqrt, r, world, k - 1);
      var s := Scan(sqrt, r, world, k - 1);
      var o := world[k - 1];
      if o.ChosenRoot(sqrt, r, 0.0, s.closest).Some? {
        ChosenRootInRange(o, sqrt, r, 0.0, s.closest);
        assert LastStruck(sqrt, r, world, k, k - 1);
      } else if s.hitAnything {
        var i: nat :| LastStruck(sqrt, r, world, k - 1, i);
        assert LastStruck(sqrt, r, world, k, i);
      }
    }
  }

  /** The winning record's material is the material of an object of the world. */
  lemma {:induction false} WinnerHasMaterial(sqrt: real -> real, r: Ray, world: World)
    requires r.direction != Zero() && WellFormed(world)
    ensures Scan(sqrt, r, world, |world|).hitAnything ==> Scan(sqrt, r, world, |world|).rec.material.Some?
  {
    ScanRecord(sqrt, r, world, |world|);
    if Scan(sqrt, r, world, |world|).hitAnything {
      var i: nat :| LastStruck(sqrt, r, world, |world|, i);
      assert Scan(sqrt, r, world, |world|).rec.material == world[i].material;
    }
  }

  /**
    The scan finds the nearest intersection: if any of the first `k` objects
    meets the ray at some `t >= 0`, there is a hit and `rec.t <= t`.
  */
  lemma {:induction false} ScanFindsNearest(sqrt: real -> real, r: Ray, world: World, k: nat, i: nat, t: real)
    requires IsSqrt(sqrt)
    requires k <= |world| && r.direction != Zero() && NonDegenerate(world)
    requires i < k && t >= 0.0 && world[i].OnSurface(r, t)
    ensures Scan(sqrt, r, world, k).hitAnything
    ensures Scan(sqrt, r, world, k).rec.t <= t
  {
    var s := Scan(sqrt, r, world, k - 1);
    var o := world[k - 1];
    ScanRecord(sqrt, r, world, k - 1);
    if i < k - 1 {
      ScanFindsNearest(sqrt, r, world, k - 1, i, t);
    } else if InRange(t, 0.0, s.closest) {
      ChosenRootIsNearest(o, sqrt, r, 0.0, s.closest, t);
    }
    if o.ChosenRoot(sqrt, r, 0.0, s.closest).Some? {
      ChosenRootInRange(o, sqrt, r, 0.0, s.closest);
    }
  }

  /** With a true square root, the winning record lies on its object's surface, at `rec.p == r.at(rec.t)`. */
  lemma {:induction false} ScanHitOnSurface(sqrt: real -> real, r: Ray, world: World)
    requires IsSqrt(sqrt)
    requires r.direction != Zero() && NonDegenerate(world)
    requires Scan(sqrt, r, world, |world|).hitAnything
    ensures exists i :: 0 <= i < |world| && world[i].OnSurface(r, Scan(sqrt, r, world, |world|).rec.t)
    ensures Scan(sqrt, r, world, |world|).rec.p == r.At(Scan(sqrt, r, world, |world|).rec.t)
  {
    ScanRecord(sqrt, r, world, |world|);
    var i: nat :| LastStruck(sqrt, r, world, |world|, i);
    ChosenRootOnSurface(world[i], sqrt, r, 0.0, Scan(sqrt, r, world, i).closest);
  }

  // ---------------------------------------------------------------------
  // The colour of a ray

  const SkyTop: Color := Vec3(0.4980392156862745, 0.7450980392156863, 0.9215686274509803)
  const SkyBottom: Color := Vec3(1.0, 1.0, 1.0)

  /** `t = 0.5 * (unit_direction.y() + 1.0)`. */
  function BlendFactor(n: Numerics, r: Ray): real {
    0.5 * (n.Unit(r.direction).y + 1.0)
  }

  /** The sky colour `(1 - t) * sky_bottom + t * sky_top` seen along a ray that hits nothing. */
  function Background(n: Numerics, r: Ray): Color {
    var t := BlendFactor(n, r);
    Add(Scale(1.0 - t, SkyBottom), Scale(t, SkyTop))
  }

  /**
    What `RayColor` promises its caller: the shaded winner, or the sky. The
    method `RayColor` below is the statement-by-statement form of the same
    computation and is proved equal to it.
  */
  function RayColorOf(n: Numerics, r: Ray, world: World): Color
    requires r.direction != Zero() && NonDegenerate(world)
    requires Scan(n.sqrt, r, world, |world|).hitAnything ==> Scan(n.sqrt, r, world, |world|).rec.material.Some?
  {
    var s := Scan(n.sqrt, r, world, |world|);
    if s.hitAnything then s.rec.material.value.ReflectColor(n, r, s.rec) else Background(n, r)
  }

  /** `RayColor(r, world)`. */
  method RayColor(n: Numerics, r: Ray, world: World) returns (c: Color)
    requires r.direction != Zero() && NonDegenerate(world)
    requires Scan(n.sqrt, r, world, |world|).hitAnything ==> Scan(n.sqrt, r, world, |world|).rec.material.Some?
    ensures c == RayColorOf(n, r, world)
  {
    var rec := NoRecord();
    var tmpRec := NoRecord();
    var hitAnything := false;
    var tMin := 0.0;
    var closestSoFar := Inf;
    for i := 0 to |world|
      invariant ScanState(hitAnything, closestSoFar, rec) == Scan(n.sqrt, r, world, i)
    {
      var hit;
      hit, tmpRec := world[i].Hit(n.sqrt, r, tMin, closestSoFar, tmpRec);
      if hit {
        hitAnything := true;
        closestSoFar := Fin(tmpRec.t);
        rec := tmpRec;
      }
    }
    if hitAnything {
      c := rec.material.value.ReflectColor(n, r, rec);
    } else {
      var skyTop := Vec3(0.4980392156862745, 0.7450980392156863, 0.9215686274509803);
      var skyBottom := Vec3(1.0, 1.0, 1.0);
      var unitDirection := n.Unit(r.direction);
      var t := 0.5 * (unitDirection.y + 1.0);
      c := Add(Scale(1.0 - t, skyBottom), Scale(t, skyTop));
    }
  }

  /**
    With sound numerics the blend factor lies in [0, 1], so each channel of
    the sky lies between the matching channels of `sky_top` and
    `sky_bottom`; straight up is `sky_top`, straight down `sky_bottom`.
  */
  lemma {:induction false} BackgroundBetweenSkyColors(n: Numerics, r: Ray)
    requires Sound(n) && r.direction != Zero()
    ensures 0.0 <= BlendFactor(n, r) <= 1.0
    ensures SkyTop.x <= Background(n, r).x <= SkyBottom.x
    ensures SkyTop.y <= Background(n, r).y <= SkyBottom.y
    ensures SkyTop.z <= Background(n, r).z <= SkyBottom.z
    ensures n.Unit(r.direction).y == 1.0 ==> Background(n, r) == SkyTop
    ensures n.Unit(r.direction).y == -1.0 ==> Background(n, r) == SkyBottom
  {
    SoundUnitIsBounded(n, r.direction);
  }

  /** With sound numerics every ray colour has its channels in [0, 1]. */
  lemma {:induction false} RayColorInUnitCube(n: Numerics, r: Ray, world: World)
    requires Sound(n) && r.direction != Zero() && WellFormed(world)
    ensures WellFormed(world) && Scan(n.sqrt, r, world, |world|).hitAnything ==> Scan(n.sqrt, r, world, |world|).rec.material.Some?
    ensures InUnitCube(RayColorOf(n, r, world))
  {
    WinnerHasMaterial(n.sqrt, r, world);
    if !Scan(n.sqrt, r, world, |world|).hitAnything {
      BackgroundBetweenSkyColors(n, r);
    }
  }

  /** A ray that meets no sphere at any `t >= 0` shows the sky. */
  lemma {:induction false} NothingAheadShowsSky(n: Numerics, r: Ray, world: World)
    requires IsSqrt(n.sqrt) && r.direction != Zero() && NonDegenerate(world)
    requires forall i, t :: 0 <= i < |world| && t >= 0.0 ==> !world[i].OnSurface(r, t)
    ensures !Scan(n.sqrt, r, world, |world|).hitAnything
    ensures RayColorOf(n, r, world) == Background(n, r)
  {
    if Scan(n.sqrt, r, world, |world|).hitAnything {
      ScanRecord(n.sqrt, r, world, |world|);
      ScanHitOnSurface(n.sqrt, r, world);
    }
  }

  /**
    A ray that meets some sphere at a `t >= 0` is shaded by the material of
    the nearest one: the winning record's `t` is not after any such `t`, and
    the record lies on the surface of an object of the world.
  */
  lemma {:induction false} NearestSphereShades(n: Numerics, r: Ray, world: World, i: nat, t: real)
    requires IsSqrt(n.sqrt) && r.direction != Zero() && WellFormed(world)
    requires i < |world| && t >= 0.0 && world[i].OnSurface(r, t)
    ensures Scan(n.sqrt, r, world, |world|).hitAnything
    ensures Scan(n.sqrt, r, world, |world|).rec.material.Some?
    ensures Scan(n.sqrt, r, world, |world|).rec.t <= t
    ensures exists j :: 0 <= j < |world| && world[j].OnSurface(r, Scan(n.sqrt, r, world, |world|).rec.t)
    ensures var rec := Scan(n.sqrt, r, world, |world|).rec;
      RayColorOf(n, r, world) == rec.material.value.ReflectColor(n, r, rec)
  {
    ScanFindsNearest(n.sqrt, r, world, |world|, i, t);
    WinnerHasMaterial(n.sqrt, r, world);
    ScanHitOnSurface(n.sqrt, r, world);
  }

  // ---------------------------------------------------------------------
  // The camera of main

  const AspectRatio: real := 16.0 / 9.0
  const ImageWidth: int := 800
  /** `lround(kImageWidth / kAspectRatio)`; see `ImageHeightIsRounded`. */
  const ImageHeight: int := 450
  const SamplesPerPixel: nat := 50
  const ViewportHeight: real := 2.0
  const ViewportWidth: real := AspectRatio * ViewportHeight
  const FocalLength: real := 1.0
  const Origin: Point3 := Zero()
  const Horizontal: Vec3 := Vec3(ViewportWidth, 0.0, 0.0)
  const Vertical: Vec3 := Vec3(0.0, ViewportHeight, 0.0)
  /** `kLowerLeftCorner`, as the vector `LowerLeftCornerFromFrame` derives from the frame. */
  const LowerLeftCorner: Point3 := Vec3(-ViewportWidth / 2.0, -ViewportHeight / 2.0, -FocalLength)

  /** 800 / (16 / 9) is exactly 450, so rounding it gives the height 450. */
  lemma ImageHeightIsRounded()
    ensures ImageWidth as real / AspectRatio == ImageHeight as real
  {
  }

  /**
    `kOrigin - kHorizontal / 2 - kVertical / 2 - Vec3(0, 0, kFocalLength)`:
    the viewport is centred on the view axis, one focal length in front of
    the eye.
  */
  lemma LowerLeftCornerFromFrame()
    ensures LowerLeftCorner == Sub(Sub(Sub(Origin, Div(Horizontal, 2.0)), Div(Vertical, 2.0)), Vec3(0.0, 0.0, FocalLength))
  {
  }

  /** The ray through the viewport point at fractions `u` across and `v` up. */
  function ViewportRay(u: real, v: real): (r: Ray)
    ensures r.origin == Origin
    ensures r.direction.z == -FocalLength
    ensures r.direction != Zero()
  {
    Ray(Origin, Sub(Add(Add(LowerLeftCorner, Scale(u, Horizontal)), Scale(v, Vertical)), Origin))
  }

  /**
    `(u, v)` maps linearly onto the viewport: `(0, 0)` is the lower left
    corner, `(1, 1)` the upper right, and `(1/2, 1/2)` looks straight down
    the negative z axis.
  */
  lemma {:induction false} ViewportRayDirection(u: real, v: real)
    ensures ViewportRay(u, v).direction
         == Vec3(ViewportWidth * u - ViewportWidth / 2.0, ViewportHeight * v - ViewportHeight / 2.0, -FocalLength)
    ensures u == 0.0 && v == 0.0 ==> ViewportRay(u, v).direction == LowerLeftCorner
    ensures u == 1.0 && v == 1.0 ==> ViewportRay(u, v).direction == Vec3(ViewportWidth / 2.0, ViewportHeight / 2.0, -FocalLength)
    ensures u == 0.5 && v == 0.5 ==> ViewportRay(u, v).direction == Vec3(0.0, 0.0, -FocalLength)
  {
    ViewportOffset(LowerLeftCorner, u, v);
  }

  /** Moving `u` across and `v` up from a corner `llc`, seen from the origin. */
  lemma ViewportOffset(llc: Point3, u: real, v: real)
    ensures Sub(Add(Add(llc, Scale(u, Horizontal)), Scale(v, Vertical)), Origin)
         == Vec3(llc.x + u * ViewportWidth, llc.y + v * ViewportHeight, llc.z)
  {
  }

  // ---------------------------------------------------------------------
  // The pixel loop of main

  /**
    What a render depends on: the world, the numeric routines, the jitter
    `(du, dv)` drawn by the two `RandomDouble01()` calls of each sample, and
    the number of samples per pixel (`kSamplesPerPixel`, 50 in `main`).
  */
  datatype Scene = Scene(world: World, numerics: Numerics, jitter: (int, int, int) -> (real, real), samples: nat)

  /** A well-formed world and at least one sample, so that `1.0 / kSamplesPerPixel` is defined. */
  predicate ValidScene(scene: Scene) {
    WellFormed(scene.world) && scene.samples > 0
  }

  /**
    `scene` can be rendered into a `width` by `height` image: the divisions
    by `width - 1`, `height - 1` and the sample count are defined.
  */
  predicate Renderable(scene: Scene, width: int, height: int) {
    width >= 2 && height >= 2 && ValidScene(scene)
  }

  /**
    The setup of `main` is renderable: any well-formed world drawn with
    `kSamplesPerPixel` samples into the `kImageWidth` by `kImageHeight` image.
  */
  lemma MainSetupIsRenderable(world: World, n: Numerics, jitter: (int, int, int) -> (real, real))
    requires WellFormed(world)
    ensures Renderable(Scene(world, n, jitter, SamplesPerPixel), ImageWidth, ImageHeight)
  {
  }

  /** The ray of sample `s` of the pixel at `row`, `column` of a `width` by `height` image. */
  function SampleRay(scene: Scene, width: int, height: int, row: int, column: int, s: int): (r: Ray)
    requires width >= 2 && height >= 2
    ensures r.origin == Origin && r.direction != Zero()
  {
    var (du, dv) := scene.jitter(row, column, s);
    ViewportRay((column as real + du) / (width - 1) as real, (row as real + dv) / (height - 1) as real)
  }

  /** The colour seen along the `s`-th jittered ray through pixel `(row, column)`. */
  function SampleColor(scene: Scene, width: int, height: int, row: int, column: int, s: int): Color
    requires Renderable(scene, width, height)
  {
    var r := SampleRay(scene, width, height, row, column, s);
    WinnerHasMaterial(scene.numerics.sqrt, r, scene.world);
    RayColorOf(scene.numerics, r, scene.world)
  }

  /** `pixel_color` after `s` samples of a pixel, starting from `carry`. */
  function SampleSum(scene: Scene, width: int, height: int, row: int, column: int, carry: Color, s: nat): Color
    requires Renderable(scene, width, height)
  {
    if s == 0 then carry
    else Add(SampleSum(scene, width, height, row, column, carry, s - 1), SampleColor(scene, width, height, row, column, s - 1))
  }

  /** The averaging, gamma correction and clamping of one accumulated pixel. */
  function Gamma(n: Numerics, sum: Color, samples: nat): (c: Color)
    requires samples > 0
    ensures InUnitCube(c)
  {
    ScaledGamma(n, sum, 1.0 / samples as real)
  }

  /**
    `Gamma` with the averaging factor `scale` as a parameter; the method
    `GammaCorrect` is its statement-by-statement form.
  */
  function ScaledGamma(n: Numerics, sum: Color, scale: real): (c: Color)
    ensures InUnitCube(c)
  {
    Vec3(Clamp(n.Sqrt(sum.R() * scale), 0.0, 1.0),
         Clamp(n.Sqrt(sum.G() * scale), 0.0, 1.0),
         Clamp(n.Sqrt(sum.B() * scale), 0.0, 1.0))
  }

  /** The colour written for a pixel whose accumulation starts from `carry`. */
  function PixelValue(scene: Scene, width: int, height: int, coord: (int, int), carry: Color): Color
    requires Renderable(scene, width, height)
  {
    Gamma(scene.numerics, SampleSum(scene, width, height, coord.0, coord.1, carry, scene.samples), scene.samples)
  }

  /** The colour `pixel_color` holds after `pixels` were written: the last one, or `Color()` before the first. */
  function Carry(pixels: seq<Color>): Color {
    if |pixels| == 0 then Zero() else pixels[|pixels| - 1]
  }

  /** A shading step: the colour written for a pixel, given the colour `pixel_color` holds before it. */
  type Shader = ((int, int), Color) -> Color

  /** The body of `main`'s column loop for this scene and image size, as a shading step. */
  function PixelShader(scene: Scene, width: int, height: int): Shader
    requires Renderable(scene, width, height)
  {
    (coord: (int, int), carry: Color) => PixelValue(scene, width, height, coord, carry)
  }

  /** The colours written for the pixels `coords`, in order, each shaded from the colour written before it. */
  function Trace(shade: Shader, coords: seq<(int, int)>): (pixels: seq<Color>)
    ensures |pixels| == |coords|
  {
    if |coords| == 0 then []
    else
      var prev := Trace(shade, coords[..|coords| - 1]);
      prev + [shade(coords[|coords| - 1], Carry(prev))]
  }

  /** Columns `0 .. count - 1` of `row`, left to right. */
  function RowCoords(row: int, count: nat): (cs: seq<(int, int)>)
    ensures |cs| == count
    ensures forall c :: 0 <= c < count ==> cs[c] == (row, c)
  {
    if count == 0 then [] else RowCoords(row, count - 1) + [(row, count - 1)]
  }

  /** The `count` rows `top, top - 1, ..., top - count + 1`, each left to right. */
  function Rows(top: int, count: nat, width: nat): seq<(int, int)> {
    if count == 0 then [] else Rows(top, count - 1, width) + RowCoords(top - (count - 1), width)
  }

  /** The order `main` visits the pixels of a `width` by `height` image. */
  function PixelOrder(width: nat, height: nat): (order: seq<(int, int)>)
    ensures |order| == width * height
  {
    RowsLength(height - 1, height, width);
    Rows(height - 1, height, width)
  }

  /** Pixel `p` is visited before pixel `q`: a higher row, or the same row further left. */
  predicate Before(p: (int, int), q: (int, int)) {
    p.0 > q.0 || (p.0 == q.0 && p.1 < q.1)
  }

  lemma {:induction false} RowsLength(top: int, count: nat, width: nat)
    ensures |Rows(top, count, width)| == count * width
  {
    if count > 0 {
      RowsLength(top, count - 1, width);
      assert (count - 1) * width + width == count * width;
    }
  }

  lemma {:induction false} RowsMembership(top: int, count: nat, width: nat, p: (int, int))
    ensures p in Rows(top, count, width) <==> top - count < p.0 <= top && 0 <= p.1 < width
  {
    if count > 0 {
      RowsMembership(top, count - 1, width, p);
      var row := RowCoords(top - (count - 1), width);
      if p.0 == top - (count - 1) && 0 <= p.1 < width {
        assert row[p.1] == p;
      }
    }
  }

  lemma {:induction false} RowsOrdered(top: int, count: nat, width: nat)
    ensures forall i, j :: 0 <= i < j < |Rows(top, count, width)| ==> Before(Rows(top, count, width)[i], Rows(top, count, width)[j])
  {
    if count > 0 {
      RowsOrdered(top, count - 1, width);
      var a := Rows(top, count - 1, width);
      var b := RowCoords(top - (count - 1), width);
      forall i | 0 <= i < |a|
        ensures a[i].0 > top - (count - 1)
      {
        RowsMembership(top, count - 1, width, a[i]);
      }
      assert Rows(top, count, width) == a + b;
    }
  }

  /**
    The pixel loop visits every pixel of the image exactly once, `width * height`
    in all: rows from `height - 1` down to 0, each from column 0 to `width - 1`.
  */
  lemma {:induction false} PixelOrderVisitsEachPixelOnce(width: nat, height: nat)
    ensures |PixelOrder(width, height)| == width * height
    ensures forall p :: p in PixelOrder(width, height) <==> 0 <= p.0 < height && 0 <= p.1 < width
    ensures forall i, j :: 0 <= i < j < |PixelOrder(width, height)| ==> Before(PixelOrder(width, height)[i], PixelOrder(width, height)[j])
    ensures width > 0 && height > 0 ==> PixelOrder(width, height)[0] == (height - 1, 0)
  {
    RowsLength(height - 1, height, width);
    forall p
      ensures p in PixelOrder(width, height) <==> 0 <= p.0 < height && 0 <= p.1 < width
    {
      RowsMembership(height - 1, height, width, p);
    }
    RowsOrdered(height - 1, height, width);
    if width > 0 && height > 0 {
      FirstRowFirst(height - 1, height, width);
    }
  }

  lemma {:induction false} FirstRowFirst(top: int, count: nat, width: nat)
    requires count > 0 && width > 0
    ensures |Rows(top, count, width)| > 0 && Rows(top, count, width)[0] == (top, 0)
  {
    if count == 1 {
      assert Rows(top, count, width) == RowCoords(top, width);
    } else {
      FirstRowFirst(top, count - 1, width);
    }
  }

  /** The trace of a prefix of the pixels is the prefix of the trace. */
  lemma {:induction false} TracePrefix(shade: Shader, coords: seq<(int, int)>, k: nat)
    requires k <= |coords|
    ensures Trace(shade, coords[..k]) == Trace(shade, coords)[..k]
  {
    if k < |coords| {
      TracePrefix(shade, coords[..|coords| - 1], k);
      assert coords[..|coords| - 1][..k] == coords[..k];
    } else {
      assert coords[..k] == coords;
    }
  }

  /**
    `pixel_color` is never reset: the first pixel starts from `Color()`, and
    every later pixel's sum starts from the colour written just before it.
  */
  lemma {:induction false} EachPixelStartsFromThePrevious(shade: Shader, coords: seq<(int, int)>, i: nat)
    requires i < |coords|
    ensures i == 0 ==> Trace(shade, coords)[0] == shade(coords[0], Zero())
    ensures i > 0 ==> Trace(shade, coords)[i] == shade(coords[i], Trace(shade, coords)[i - 1])
  {
    TraceAt(shade, coords, i);
    if i > 0 {
      assert Trace(shade, coords)[..i][i - 1] == Trace(shade, coords)[i - 1];
    }
  }

  /** The carried colour is simply added to the samples' sum. */
  lemma {:induction false} CarryAddsToSamples(scene: Scene, width: int, height: int, row: int, column: int, carry: Color, s: nat)
    requires Renderable(scene, width, height)
    ensures SampleSum(scene, width, height, row, column, carry, s)
         == Add(carry, SampleSum(scene, width, height, row, column, Zero(), s))
  {
    if s > 0 {
      CarryAddsToSamples(scene, width, height, row, column, carry, s - 1);
    }
  }

  /**
    As written, the carried colour leaks into the next pixel: a pixel whose
    own samples have no blue is still written with some blue when the colour
    written before it had any.
  */
  lemma {:induction false} CarriedBlueLeaks(scene: Scene, width: int, height: int, coords: seq<(int, int)>, i: nat)
    requires Renderable(scene, width, height) && IsSqrt(scene.numerics.sqrt)
    requires 0 < i < |coords|
    ensures Trace(PixelShader(scene, width, height), coords)[i - 1].z > 0.0
         && SampleSum(scene, width, height, coords[i].0, coords[i].1, Zero(), scene.samples).z == 0.0
        ==> Trace(PixelShader(scene, width, height), coords)[i].z > 0.0
  {
    var shade := PixelShader(scene, width, height);
    var prev := Trace(shade, coords)[i - 1];
    EachPixelStartsFromThePrevious(shade, coords, i);
    assert Trace(shade, coords)[i] == PixelValue(scene, width, height, coords[i], prev);
    if SampleSum(scene, width, height, coords[i].0, coords[i].1, Zero(), scene.samples).z == 0.0 {
      PixelBlue(scene, width, height, coords[i], prev);
    }
  }

  /** A pixel's written blue is positive when its sum's is, and zero when its sum's is. */
  lemma {:induction false} PixelBlue(scene: Scene, width: int, height: int, coord: (int, int), carry: Color)
    requires Renderable(scene, width, height) && IsSqrt(scene.numerics.sqrt)
    requires SampleSum(scene, width, height, coord.0, coord.1, Zero(), scene.samples).z == 0.0
    ensures carry.z > 0.0 ==> PixelValue(scene, width, height, coord, carry).z > 0.0
    ensures carry.z == 0.0 ==> PixelValue(scene, width, height, coord, carry).z == 0.0
  {
    CarryAddsToSamples(scene, width, height, coord.0, coord.1, carry, scene.samples);
    GammaBlue(scene.numerics, SampleSum(scene, width, height, coord.0, coord.1, carry, scene.samples), scene.samples);
  }

  /** With a true square root, the gamma step keeps a positive blue sum positive and a zero one zero. */
  lemma {:induction false} GammaBlue(n: Numerics, sum: Color, samples: nat)
    requires IsSqrt(n.sqrt) && samples > 0
    ensures sum.z > 0.0 ==> Gamma(n, sum, samples).z > 0.0
    ensures sum.z == 0.0 ==> Gamma(n, sum, samples).z == 0.0
  {
    var mean := sum.z * (1.0 / samples as real);
    assert sum.z > 0.0 ==> mean > 0.0;
    assert sum.z == 0.0 ==> mean == 0.0;
    SquareZero(n.sqrt(mean));
  }

  /**
    The shading step with `pixel_color` reset to `Color()` at the start of
    every pixel, so that a pixel's colour comes from its own samples only.
  */
  function ResetPixelShader(scene: Scene, width: int, height: int): Shader
    requires Renderable(scene, width, height)
  {
    (coord: (int, int), carry: Color) => PixelValue(scene, width, height, coord, Zero())
  }

  /**
    With the reset, every pixel is shaded from `Color()` whatever was written
    before it, and a pixel whose samples have no blue is written with none.
  */
  lemma {:induction false} ResetPixelsAreIndependent(scene: Scene, width: int, height: int, coords: seq<(int, int)>, i: nat)
    requires Renderable(scene, width, height) && IsSqrt(scene.numerics.sqrt)
    requires i < |coords|
    ensures Trace(ResetPixelShader(scene, width, height), coords)[i] == PixelValue(scene, width, height, coords[i], Zero())
    ensures SampleSum(scene, width, height, coords[i].0, coords[i].1, Zero(), scene.samples).z == 0.0 ==>
      Trace(ResetPixelShader(scene, width, height), coords)[i].z == 0.0
  {
    var shade := ResetPixelShader(scene, width, height);
    EachPixelStartsFromThePrevious(shade, coords, i);
    assert Trace(shade, coords)[i] == PixelValue(scene, width, height, coords[i], Zero());
    if SampleSum(scene, width, height, coords[i].0, coords[i].1, Zero(), scene.samples).z == 0.0 {
      PixelBlue(scene, width, height, coords[i], Zero());
    }
  }

  /**
    When every channel of the sum lies in `[0, samples]`, the clamp does not
    bite and each written channel is the square root of the channel's mean
    (gamma 2).
  */
  lemma {:induction false} GammaIsSquareRootOfMean(n: Numerics, sum: Color, samples: nat)
    requires IsSqrt(n.sqrt) && samples > 0
    requires 0.0 <= sum.x <= samples as real
    requires 0.0 <= sum.y <= samples as real
    requires 0.0 <= sum.z <= samples as real
    ensures Gamma(n, sum, samples).x >= 0.0 && Square(Gamma(n, sum, samples).x) == sum.x / samples as real
    ensures Gamma(n, sum, samples).y >= 0.0 && Square(Gamma(n, sum, samples).y) == sum.y / samples as real
    ensures Gamma(n, sum, samples).z >= 0.0 && Square(Gamma(n, sum, samples).z) == sum.z / samples as real
  {
    MeanInUnitInterval(sum.x, samples);
    MeanInUnitInterval(sum.y, samples);
    MeanInUnitInterval(sum.z, samples);
    ScaledGammaIsSquareRoot(n, sum, 1.0 / samples as real);
  }

  /** `ScaledGamma` writes each channel as the square root of its scaled value. */
  lemma {:induction false} ScaledGammaIsSquareRoot(n: Numerics, sum: Color, scale: real)
    requires IsSqrt(n.sqrt)
    requires 0.0 <= sum.x * scale <= 1.0
    requires 0.0 <= sum.y * scale <= 1.0
    requires 0.0 <= sum.z * scale <= 1.0
    ensures ScaledGamma(n, sum, scale).x >= 0.0 && Square(ScaledGamma(n, sum, scale).x) == sum.x * scale
    ensures ScaledGamma(n, sum, scale).y >= 0.0 && Square(ScaledGamma(n, sum, scale).y) == sum.y * scale
    ensures ScaledGamma(n, sum, scale).z >= 0.0 && Square(ScaledGamma(n, sum, scale).z) == sum.z * scale
  {
    ChannelGamma(n, sum.R() * scale);
    ChannelGamma(n, sum.G() * scale);
    ChannelGamma(n, sum.B() * scale);
  }

  /** A channel whose scaled value `m` lies in [0, 1] is written as its square root. */
  lemma {:induction false} ChannelGamma(n: Numerics, m: real)
    requires IsSqrt(n.sqrt)
    requires 0.0 <= m <= 1.0
    ensures Clamp(n.Sqrt(m), 0.0, 1.0) >= 0.0 && Square(Clamp(n.Sqrt(m), 0.0, 1.0)) == m
  {
    SquareAtMostOne(n.Sqrt(m));
  }

  /** A sum of at most `samples` unit contributions has a mean in [0, 1]. */
  lemma {:induction false} MeanInUnitInterval(a: real, samples: nat)
    requires samples > 0 && 0.0 <= a <= samples as real
    ensures a * (1.0 / samples as real) == a / samples as real
    ensures 0.0 <= a * (1.0 / samples as real) <= 1.0
  {
    var k := samples as real;
    var q := 1.0 / k;
    assert q * k == 1.0;
    assert q > 0.0;
    assert a * q <= k * q;
  }

  /** The image sink: its dimensions and every colour written so far. */
  class Image {
    const width: int
    const height: int
    var pixels: seq<Color>

    /** `Image(file_name, width, height)`: an empty image of the given dimensions. */
    constructor (width: int, height: int)
      ensures this.width == width && this.height == height
      ensures pixels == []
    {
      this.width := width;
      this.height := height;
      pixels := [];
    }

    /** `write(c)`: appends one colour. */
    method Write(c: Color)
      modifies this
      ensures pixels == old(pixels) + [c]
    {
      pixels := pixels + [c];
    }
  }

  /** The sample loop of `main` for one pixel: adds the colours of its `scene.samples` rays to `pixelColor`. */
  method AccumulateSamples(scene: Scene, width: int, height: int, row: int, column: int, pixelColor: Color)
    returns (sum: Color)
    requires Renderable(scene, width, height)
    ensures sum == SampleSum(scene, width, height, row, column, pixelColor, scene.samples)
  {
    sum := pixelColor;
    for s := 0 to scene.samples
      invariant sum == SampleSum(scene, width, height, row, column, pixelColor, s)
    {
      var c := ShadeSample(scene, width, height, row, column, s);
      sum := Add(sum, c);
    }
  }

  /** One sample of the inner loop: the colour seen along the `s`-th jittered ray through the pixel. */
  method ShadeSample(scene: Scene, width: int, height: int, row: int, column: int, s: int) returns (c: Color)
    requires Renderable(scene, width, height)
    ensures c == SampleColor(scene, width, height, row, column, s)
  {
    var (du, dv) := scene.jitter(row, column, s);
    var u := (column as real + du) / (width - 1) as real;
    var v := (row as real + dv) / (height - 1) as real;
    var r := Ray(Origin, Sub(Add(Add(LowerLeftCorner, Scale(u, Horizontal)), Scale(v, Vertical)), Origin));
    assert r == SampleRay(scene, width, height, row, column, s);
    WinnerHasMaterial(scene.numerics.sqrt, r, scene.world);
    c := RayColor(scene.numerics, r, scene.world);
  }

  /** Every colour the pixel loop writes lies in the unit cube. */
  lemma TraceInUnitCube(scene: Scene, width: int, height: int, coords: seq<(int, int)>)
    requires Renderable(scene, width, height)
    ensures forall i :: 0 <= i < |coords| ==> InUnitCube(Trace(PixelShader(scene, width, height), coords)[i])
  {
    var shade := PixelShader(scene, width, height);
    forall i | 0 <= i < |coords|
      ensures InUnitCube(Trace(shade, coords)[i])
    {
      TraceAt(shade, coords, i);
      assert Trace(shade, coords)[i] == PixelValue(scene, width, height, coords[i], Carry(Trace(shade, coords)[..i]));
    }
  }

  /** Writing one more pixel extends the trace by that pixel, shaded from the last colour written. */
  lemma TraceAppend(shade: Shader, coords: seq<(int, int)>, coord: (int, int))
    ensures Trace(shade, coords + [coord]) == Trace(shade, coords) + [shade(coord, Carry(Trace(shade, coords)))]
  {
    var next := coords + [coord];
    assert next[..|next| - 1] == coords;
  }

  /** Pixel `k` of the trace is shaded from the colours written before it. */
  lemma {:induction false} TraceAt(shade: Shader, coords: seq<(int, int)>, k: nat)
    requires k < |coords|
    ensures Trace(shade, coords)[k] == shade(coords[k], Carry(Trace(shade, coords)[..k]))
  {
    var prefix := coords[..k + 1];
    TracePrefix(shade, coords, k + 1);
    TracePrefix(shade, coords, k);
    assert prefix[..|prefix| - 1] == coords[..k];
    assert Trace(shade, coords)[k] == Trace(shade, prefix)[k];
  }

  /**
    `pixels` are the colours written for `coords`: one per pixel, each
    shaded from the colour written before it.
  */
  predicate Traced(shade: Shader, coords: seq<(int, int)>, pixels: seq<Color>) {
    && |pixels| == |coords|
    && forall k {:trigger coords[k]} :: 0 <= k < |coords| ==> pixels[k] == shade(coords[k], Carry(pixels[..k]))
  }

  /** `Trace` writes the colours `Traced` describes. */
  lemma TraceIsTraced(shade: Shader, coords: seq<(int, int)>)
    ensures Traced(shade, coords, Trace(shade, coords))
  {
    forall k | 0 <= k < |coords|
      ensures Trace(shade, coords)[k] == shade(coords[k], Carry(Trace(shade, coords)[..k]))
    {
      TraceAt(shade, coords, k);
    }
  }

  /** `Traced` determines the colours: whatever it describes is `Trace`. */
  lemma {:induction false} TracedIsTrace(shade: Shader, coords: seq<(int, int)>, pixels: seq<Color>)
    requires Traced(shade, coords, pixels)
    ensures pixels == Trace(shade, coords)
    decreases |coords|
  {
    if |coords| > 0 {
      var n := |coords|;
      var init, prev, last := coords[..n - 1], pixels[..n - 1], coords[n - 1];
      TracedPrefix(shade, coords, pixels, n - 1);
      TracedIsTrace(shade, init, prev);
      assert pixels[n - 1] == shade(last, Carry(prev));
      TraceAppend(shade, init, last);
      assert init + [last] == coords;
      assert pixels == prev + [pixels[n - 1]];
    }
  }

  /** A prefix of traced colours is traced for the same prefix of the pixels. */
  lemma TracedPrefix(shade: Shader, coords: seq<(int, int)>, pixels: seq<Color>, m: nat)
    requires Traced(shade, coords, pixels) && m <= |coords|
    ensures Traced(shade, coords[..m], pixels[..m])
  {
    forall k | 0 <= k < m
      ensures pixels[..m][k] == shade(coords[..m][k], Carry(pixels[..m][..k]))
    {
      assert coords[k] == coords[..m][k];
      assert pixels[..m][..k] == pixels[..k];
    }
  }

  /** The gamma step after the sample loop, with the averaging factor `scale`; specified by `ScaledGamma`. */
  method GammaCorrect(n: Numerics, sum: Color, scale: real) returns (c: Color)
    ensures c == ScaledGamma(n, sum, scale)
  {
    var red := Clamp(n.Sqrt(sum.R() * scale), 0.0, 1.0);
    var green := Clamp(n.Sqrt(sum.G() * scale), 0.0, 1.0);
    var blue := Clamp(n.Sqrt(sum.B() * scale), 0.0, 1.0);
    c := Vec3(red, green, blue);
  }

  /**
    The body of the column loop: shades pixel `(row, column)` starting from
    `pixelColor`, applies the gamma step and writes the result.
  */
  method ShadePixel(scene: Scene, image: Image, row: int, column: int, pixelColor: Color) returns (lastColor: Color)
    requires Renderable(scene, image.width, image.height)
    modifies image
    ensures lastColor == PixelValue(scene, image.width, image.height, (row, column), pixelColor)
    ensures image.pixels == old(image.pixels) + [lastColor]
  {
    var sum := AccumulateSamples(scene, image.width, image.height, row, column, pixelColor);
    var scale := 1.0 / scene.samples as real;
    lastColor := GammaCorrect(scene.numerics, sum, scale);
    image.Write(lastColor);
  }

  /**
    The column loop of `main` for `row`. `expected` holds the colours the
    image should end with, `start` the position of the row's first pixel in
    it, and the pixels before it were written on top of the image's
    contents `base`.
  */
  method RenderRow(scene: Scene, image: Image, row: int, pixelColor: Color,
                   ghost base: seq<Color>, ghost expected: seq<Color>, ghost start: nat)
    returns (lastColor: Color)
    requires Renderable(scene, image.width, image.height)
    requires RowTraced(PixelShader(scene, image.width, image.height), image.width, row, expected, start)
    requires image.pixels == base + expected[..start]
    requires pixelColor == Carry(expected[..start])
    modifies image
    ensures image.pixels == base + expected[..start + image.width]
    ensures lastColor == Carry(expected[..start + image.width])
  {
    lastColor := pixelColor;
    var column := 0;
    while column < image.width
      invariant 0 <= column <= image.width
      invariant image.pixels == base + expected[..start + column]
      invariant lastColor == Carry(expected[..start + column])
    {
      lastColor := ShadePixel(scene, image, row, column, lastColor);
      assert expected[..start + column + 1] == expected[..start + column] + [expected[start + column]];
      column := column + 1;
    }
  }

  /** `main`'s pixel loop, writing one colour per pixel into `image` in `PixelOrder`. */
  method Render(scene: Scene, image: Image)
    requires Renderable(scene, image.width, image.height)
    modifies image
    ensures image.pixels == old(image.pixels) + Trace(PixelShader(scene, image.width, image.height), PixelOrder(image.width, image.height))
  {
    ghost var shade := PixelShader(scene, image.width, image.height);
    ghost var expected := Trace(shade, PixelOrder(image.width, image.height));
    TraceIsTraced(shade, PixelOrder(image.width, image.height));
    TraceIsImageTraced(shade, image.width, image.height, expected);
    RenderRows(scene, image, expected);
  }

  /**
    The row loop of `main`: row by row from the top, it appends the colours
    `expected` to the image.
  */
  method RenderRows(scene: Scene, image: Image, ghost expected: seq<Color>)
    requires Renderable(scene, image.width, image.height)
    requires ImageTraced(PixelShader(scene, image.width, image.height), image.width, image.height, expected)
    modifies image
    ensures image.pixels == old(image.pixels) + expected
  {
    ghost var base := image.pixels;
    var pixelColor := Zero();
    var row := image.height - 1;
    RowStartBounds(image.width, image.height, row);
    ghost var start: nat := 0;
    while row >= 0
      invariant -1 <= row <= image.height - 1
      invariant start == RowStart(image.width, image.height, row) && start <= |expected|
      invariant image.pixels == base + expected[..start]
      invariant pixelColor == Carry(expected[..start])
    {
      RowStartBounds(image.width, image.height, row);
      assert RowTraced(PixelShader(scene, image.width, image.height), image.width, row, expected, RowStart(image.width, image.height, row));
      pixelColor := RenderRow(scene, image, row, pixelColor, base, expected, start);
      start := start + image.width;
      row := row - 1;
    }
    RowStartBounds(image.width, image.height, row);
    assert expected[..start] == expected;
  }

  /** The position in `PixelOrder` of the first pixel of `row`. */
  function RowStart(width: nat, height: nat, row: int): int {
    (height - 1 - row) * width
  }

  /** The rows start `width` apart, the top row at 0, and all of them end inside the image. */
  lemma RowStartBounds(width: nat, height: nat, row: int)
    ensures RowStart(width, height, row - 1) == RowStart(width, height, row) + width
    ensures row == height - 1 ==> RowStart(width, height, row) == 0
    ensures row == -1 ==> RowStart(width, height, row) == width * height
    ensures 0 <= row < height ==> 0 <= RowStart(width, height, row) && RowStart(width, height, row) + width <= width * height
  {
    var k := height - 1 - row;
    assert height - 1 - (row - 1) == k + 1;
    MulSucc(k, width);
    if 0 <= row < height {
      MulBounds(k + 1, height, width);
    }
  }

  lemma MulSucc(k: int, w: int)
    ensures (k + 1) * w == k * w + w
  {
  }

  lemma MulBounds(k: int, h: int, w: nat)
    requires 0 <= k <= h
    ensures 0 <= k * w <= h * w && h * w == w * h
  {
  }

  /**
    The colours `expected[start..start + width]` are those of `row`, each
    shaded from the colour before it.
  */
  predicate RowTraced(shade: Shader, width: int, row: int, expected: seq<Color>, start: int) {
    && 0 <= start && start + width <= |expected|
    && forall c :: 0 <= c < width ==> expected[start + c] == shade((row, c), Carry(expected[..start + c]))
  }

  /** `expected` holds one colour per pixel, each row traced at its place in `PixelOrder`. */
  predicate ImageTraced(shade: Shader, width: nat, height: nat, expected: seq<Color>) {
    && |expected| == width * height
    && forall row :: 0 <= row < height ==> RowTraced(shade, width, row, expected, RowStart(width, height, row))
  }

  /** The trace of `PixelOrder` is traced row by row. */
  lemma TraceIsImageTraced(shade: Shader, width: nat, height: nat, expected: seq<Color>)
    requires Traced(shade, PixelOrder(width, height), expected)
    ensures ImageTraced(shade, width, height, expected)
  {
    forall row | 0 <= row < height
      ensures RowTraced(shade, width, row, expected, RowStart(width, height, row))
    {
      TraceRow(shade, width, height, row, expected);
    }
  }

  /** One row of `TraceIsImageTraced`. */
  lemma TraceRow(shade: Shader, width: nat, height: nat, row: int, expected: seq<Color>)
    requires 0 <= row < height
    requires Traced(shade, PixelOrder(width, height), expected)
    ensures RowTraced(shade, width, row, expected, RowStart(width, height, row))
  {
    RowStartBounds(width, height, row);
    var start := RowStart(width, height, row);
    forall c | 0 <= c < width
      ensures expected[start + c] == shade((row, c), Carry(expected[..start + c]))
    {
      TracePixel(shade, width, height, row, c, expected);
    }
  }

  /** Pixel `(row, column)` of the trace is shaded from the colours written before it. */
  lemma TracePixel(shade: Shader, width: nat, height: nat, row: int, column: int, expected: seq<Color>)
    requires 0 <= row < height && 0 <= column < width
    requires Traced(shade, PixelOrder(width, height), expected)
    ensures 0 <= RowStart(width, height, row) + column < |expected|
    ensures expected[RowStart(width, height, row) + column]
         == shade((row, column), Carry(expected[..RowStart(width, height, row) + column]))
  {
    RowStartBounds(width, height, row);
    PixelOrderAt(width, height, row, column);
  }

  /** Pixel `(row, column)` sits at `RowStart(row) + column` in `PixelOrder`. */
  lemma PixelOrderAt(width: nat, height: nat, row: int, column: int)
    requires 0 <= row < height && 0 <= column < width
    ensures RowStart(width, height, row) + column < |PixelOrder(width, height)|
    ensures PixelOrder(width, height)[RowStart(width, height, row) + column] == (row, column)
  {
    RowsAt(height - 1, height, width, height - 1 - row, column);
  }

  /** Entry `i * width + c` of `Rows` is column `c` of the `i`-th row from the top. */
  lemma {:induction false} RowsAt(top: int, count: nat, width: nat, i: nat, c: int)
    requires i < count && 0 <= c < width
    ensures i * width + c < |Rows(top, count, width)|
    ensures Rows(top, count, width)[i * width + c] == (top - i, c)
  {
    RowsLength(top, count - 1, width);
    var a := Rows(top, count - 1, width);
    var b := RowCoords(top - (count - 1), width);
    assert Rows(top, count, width) == a + b;
    assert |a| == (count - 1) * width;
    if i < count - 1 {
      RowsAt(top, count - 1, width, i, c);
      assert i * width + c < |a|;
    } else {
      assert i * width + c == |a| + c;
      assert b[c] == (top - i, c);
    }
  }
}
