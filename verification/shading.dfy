/**
  `trace`: the colour seen along a ray, by depth-bounded recursion. A ray
  that hits nothing sees the first directional light it points straight at
  (never a point light), or the background; a ray that hits a surface sees
  the ambient term, the diffuse and specular light of every visible point
  light, the reflected and transmitted colours traced one level deeper, and
  the surface's own emission.
 */
module Shading {

  import opened RealArith
  import opened Primitives
  import opened Surfaces
  import opened Resolver
  import opened Shadows
  import opened Wrappers

  /* ---------------- rays that hit nothing ---------------- */

  /** The state of the point-light scan: `closestPoint` and `closestColor`. */
  datatype Closest = Closest(t: real, color: Color)

  /**
    One iteration of the point-light scan for a ray that hits nothing: solve
    for the light's parameter from the x coordinates, and accept the light
    if that parameter beats the current one and the y and z coordinates
    agree exactly.
   */
  function PointLightStep(ray: Ray, acc: Closest, light: PointLight): (r: Closest)
    ensures r == acc || r.color == light.color
  {
    var t := Div(light.location.x - ray.origin.x, ray.direction.x);
    if t > EPSILON && t < acc.t then
      var yVal := light.location.y - ray.origin.y - t * ray.direction.y;
      var zVal := light.location.z - ray.origin.z - t * ray.direction.z;
      if yVal == 0.0 && zVal == 0.0 then Closest(t, light.color) else acc
    else acc
  }

  /**
    The point-light loop, from the first light to the last: it keeps its
    starting state or ends on some light's colour, and the parameter it
    keeps never grows.
   */
  function PointLightScan(ray: Ray, acc: Closest, lights: seq<PointLight>): (r: Closest)
    ensures r == acc || exists k :: 0 <= k < |lights| && r.color == lights[k].color
    ensures r.t <= acc.t
    decreases |lights|
  {
    if |lights| == 0 then acc
    else
      var r := PointLightScan(ray, PointLightStep(ray, acc, lights[0]), lights[1..]);
      assert forall k :: 1 <= k < |lights| ==> lights[1..][k - 1] == lights[k];
      r
  }

  /**
    The scan starts with `closestPoint = -1`, and its guard asks for a
    parameter above `EPSILON` and below `closestPoint`: with a starting value
    of at most `EPSILON` no light is ever accepted.
   */
  lemma {:induction false} PointLightScanNeverMatches(ray: Ray, acc: Closest, lights: seq<PointLight>)
    requires acc.t <= EPSILON
    ensures PointLightScan(ray, acc, lights) == acc
    decreases |lights|
  {
    if |lights| > 0 {
      PointLightScanNeverMatches(ray, acc, lights[1..]);
    }
  }

  /** The first directional light the ray points straight at, i.e. with `dot(direction, light) == -1`. */
  function DirectionalMatch(ray: Ray, lights: seq<DirectionalLight>): (r: Option<Color>)
    ensures r.None? <==> forall k :: 0 <= k < |lights| ==> Dot(ray.direction, lights[k].direction) != -1.0
    ensures r.Some? ==>
      exists k :: (0 <= k < |lights| && Dot(ray.direction, lights[k].direction) == -1.0 &&
                   r.value == lights[k].color &&
                   forall j :: 0 <= j < k ==> Dot(ray.direction, lights[j].direction) != -1.0)
    decreases |lights|
  {
    if |lights| == 0 then None
    else if Dot(ray.direction, lights[0].direction) == -1.0 then Some(lights[0].color)
    else
      var r := DirectionalMatch(ray, lights[1..]);
      assert forall k :: 1 <= k < |lights| ==> lights[1..][k - 1] == lights[k];
      r
  }

  /** The colour of a ray that hits no object: a directional light's colour or the background, never a point light's. */
  function MissColor(scene: Scene, ray: Ray): (r: Color)
    ensures r == scene.backgroundColor ||
      exists k :: 0 <= k < |scene.directionalLights| && r == scene.directionalLights[k].color
  {
    PointLightScanNeverMatches(ray, Closest(-1.0, Black), scene.pointLights);
    var closest := PointLightScan(ray, Closest(-1.0, Black), scene.pointLights);
    if closest.t >= 0.0 then closest.color
    else
      match DirectionalMatch(ray, scene.directionalLights)
      case Some(c) => c
      case None => scene.backgroundColor
  }

  /** Point lights never show on a ray that hits nothing: it sees the first matching directional light, or the background. */
  lemma MissColorIgnoresPointLights(scene: Scene, ray: Ray)
    ensures DirectionalMatch(ray, scene.directionalLights).Some? ==>
      MissColor(scene, ray) == DirectionalMatch(ray, scene.directionalLights).value
    ensures DirectionalMatch(ray, scene.directionalLights).None? ==>
      MissColor(scene, ray) == scene.backgroundColor
  {
    PointLightScanNeverMatches(ray, Closest(-1.0, Black), scene.pointLights);
  }

  /* ---------------- local lighting ---------------- */

  /** The running diffuse and specular sums of the point-light loop. */
  datatype Sums = Sums(diffuse: Color, specular: Color)

  /** The vector from the hit point to the light, normalized. */
  function ToLight(lib: Libm, point: Point, light: PointLight): Vector
  {
    Normalize(lib, Sub(light.location, point))
  }

  /** The shadow ray toward a point light: it reaches the light at parameter 1. */
  function ShadowRay(point: Point, light: PointLight): (r: Ray)
    ensures r.origin == point && At(r, 1.0) == light.location
  {
    Ray(point, Sub(light.location, point))
  }

  /**
    The specular direction `2 (n . l) n - l` of the light direction `l`
    about the normal `n`.
   */
  function IdealReflect(angleCos: real, normal: Vector, toLight: Vector): Vector
  {
    VSub(Scale(2.0 * angleCos, normal), toLight)
  }

  /**
    One iteration of the point-light loop of `trace`. A light the surface
    faces away from, or that is completely shadowed, adds nothing; otherwise
    it adds its diffuse term (for a diffuse material) and its specular term
    (for a specular material, when the ideal reflection leans toward the
    viewer), each filtered by the shadow factor.
   */
  function LightStep(lib: Libm, scene: Scene, ray: Ray, point: Point, normal: Vector, m: Material,
                     maxDepth: int, acc: Sums, light: PointLight): (r: Sums)
    ensures Dot(normal, ToLight(lib, point, light)) <= 0.0 ==> r == acc
    ensures IsZero(m.diffuse) ==> r.diffuse == acc.diffuse
    ensures IsZero(m.specular) ==> r.specular == acc.specular
  {
    var toLight := ToLight(lib, point, light);
    var angleCos := Dot(normal, toLight);
    if angleCos <= 0.0 then acc
    else
      var shadow := Shadow(lib, scene, ShadowRay(point, light), 1.0, maxDepth);
      if IsZero(shadow) then acc
      else
        var diffuse :=
          if !IsZero(m.diffuse) then CAdd(acc.diffuse, CMul(CScale(angleCos, light.color), shadow))
          else acc.diffuse;
        var angleCos2 := Dot(IdealReflect(angleCos, normal, toLight), Scale(-1.0, ray.direction));
        var specular :=
          if !IsZero(m.specular) && angleCos2 > 0.0 then
            CAdd(acc.specular, CMul(CScale(lib.pow(angleCos2, m.shininess), light.color), shadow))
          else acc.specular;
        Sums(diffuse, specular)
  }

  /** Skipping a fully shadowed light is the same as adding its term, of any weight, filtered by the shadow factor. */
  lemma ShadowedTermVanishes(acc: Color, weight: real, lightColor: Color, shadow: Color)
    requires IsZero(shadow)
    ensures CAdd(acc, CMul(CScale(weight, lightColor), shadow)) == acc
  {
  }

  /**
    The point-light loop of `trace`, from the first light to the last: a
    material without diffuse colour never changes the diffuse sum, and one
    without specular colour never changes the specular sum.
   */
  function LightSums(lib: Libm, scene: Scene, ray: Ray, point: Point, normal: Vector, m: Material,
                     maxDepth: int, acc: Sums, lights: seq<PointLight>): (r: Sums)
    ensures IsZero(m.diffuse) ==> r.diffuse == acc.diffuse
    ensures IsZero(m.specular) ==> r.specular == acc.specular
    decreases |lights|
  {
    if |lights| == 0 then acc
    else LightSums(lib, scene, ray, point, normal, m, maxDepth,
                   LightStep(lib, scene, ray, point, normal, m, maxDepth, acc, lights[0]), lights[1..])
  }

  /** A light contributes nothing when the surface faces away from it or it is fully shadowed. */
  predicate Inert(lib: Libm, scene: Scene, point: Point, normal: Vector, maxDepth: int, light: PointLight)
  {
    || Dot(normal, ToLight(lib, point, light)) <= 0.0
    || IsZero(Shadow(lib, scene, ShadowRay(point, light), 1.0, maxDepth))
  }

  lemma InertLightAddsNothing(lib: Libm, scene: Scene, ray: Ray, point: Point, normal: Vector, m: Material,
                              maxDepth: int, acc: Sums, light: PointLight)
    requires Inert(lib, scene, point, normal, maxDepth, light)
    ensures LightStep(lib, scene, ray, point, normal, m, maxDepth, acc, light) == acc
  {
  }

  /** Removing an inert light from anywhere in the list leaves the sums unchanged. */
  lemma {:induction false} RemoveInertLight(lib: Libm, scene: Scene, ray: Ray, point: Point, normal: Vector,
                                            m: Material, maxDepth: int, acc: Sums,
                                            lights: seq<PointLight>, i: nat)
    requires i < |lights|
    requires Inert(lib, scene, point, normal, maxDepth, lights[i])
    ensures LightSums(lib, scene, ray, point, normal, m, maxDepth, acc, lights)
         == LightSums(lib, scene, ray, point, normal, m, maxDepth, acc, lights[..i] + lights[i + 1..])
    decreases |lights|
  {
    var rest := lights[..i] + lights[i + 1..];
    if i == 0 {
      assert rest == lights[1..];
      InertLightAddsNothing(lib, scene, ray, point, normal, m, maxDepth, acc, lights[0]);
    } else {
      var next := LightStep(lib, scene, ray, point, normal, m, maxDepth, acc, lights[0]);
      assert rest[0] == lights[0];
      assert rest[1..] == lights[1..][..i - 1] + lights[1..][i..];
      RemoveInertLight(lib, scene, ray, point, normal, m, maxDepth, next, lights[1..], i - 1);
      assert LightSums(lib, scene, ray, point, normal, m, maxDepth, acc, rest)
          == LightSums(lib, scene, ray, point, normal, m, maxDepth, next, rest[1..]);
    }
  }

  /** When every light is inert the sums stay as they started. */
  lemma {:induction false} AllInertAddNothing(lib: Libm, scene: Scene, ray: Ray, point: Point, normal: Vector,
                                              m: Material, maxDepth: int, acc: Sums, lights: seq<PointLight>)
    requires forall k :: 0 <= k < |lights| ==> Inert(lib, scene, point, normal, maxDepth, lights[k])
    ensures LightSums(lib, scene, ray, point, normal, m, maxDepth, acc, lights) == acc
    decreases |lights|
  {
    if |lights| > 0 {
      AllInertAddNothing(lib, scene, ray, point, normal, m, maxDepth, acc, lights[1..]);
    }
  }

  /**
    The local term: the diffuse sum filtered by the diffuse colour plus the
    specular sum filtered by the specular colour. It is black without point
    lights, and black for a material with neither diffuse nor specular colour.
   */
  function LocalColor(lib: Libm, scene: Scene, ray: Ray, point: Point, normal: Vector, m: Material,
                      maxDepth: int): (r: Color)
    ensures |scene.pointLights| == 0 ==> r == Black
    ensures IsZero(m.diffuse) && IsZero(m.specular) ==> r == Black
  {
    var sums := LightSums(lib, scene, ray, point, normal, m, maxDepth, Sums(Black, Black), scene.pointLights);
    CAdd(CMul(sums.diffuse, m.diffuse), CMul(sums.specular, m.specular))
  }

  /* ---------------- secondary rays ---------------- */

  /** `(k n - i)^2 = k^2 n^2 - 2 k n i + i^2`, one coordinate at a time. */
  lemma SquareOfDifference(k: real, n: real, i: real)
    ensures Sq(k * n - i) == Sq(k) * Sq(n) - 2.0 * k * (i * n) + Sq(i)
  {
  }

  /** With `k = 2 d`, `k^2 - 2 k d = 0`. */
  lemma DoubledCancels(d: real, k: real)
    requires k == 2.0 * d
    ensures Sq(k) - 2.0 * k * d == 0.0
  {
  }

  /** `(k n - i) . n = k |n|^2 - i . n`. */
  lemma ReflectDot(i: Vector, n: Vector, k: real)
    ensures Dot(VSub(Scale(k, n), i), n) == k * NormSq(n) - Dot(i, n)
  {
  }

  /** `|k n - i|^2 = k^2 |n|^2 - 2 k (n . i) + |i|^2`. */
  lemma ReflectNormSq(i: Vector, n: Vector, k: real)
    ensures NormSq(VSub(Scale(k, n), i)) == Sq(k) * NormSq(n) - 2.0 * k * Dot(i, n) + NormSq(i)
  {
    SquareOfDifference(k, n.x, i.x);
    SquareOfDifference(k, n.y, i.y);
    SquareOfDifference(k, n.z, i.z);
    Distribute3(Sq(k), Sq(n.x), Sq(n.y), Sq(n.z));
    Distribute3(2.0 * k, i.x * n.x, i.y * n.y, i.z * n.z);
  }

  /**
    Mirroring `i = -d` about a unit normal `n` into `2 (i . n) n - i` keeps
    its component along `n` and its length.
   */
  lemma MirrorKeepsAngleAndLength(d: Vector, n: Vector)
    ensures NormSq(n) == 1.0 ==>
      var i := Scale(-1.0, d);
      && Dot(VSub(Scale(2.0 * Dot(i, n), n), i), n) == Dot(i, n)
      && NormSq(VSub(Scale(2.0 * Dot(i, n), n), i)) == NormSq(d)
  {
    if NormSq(n) == 1.0 {
      var i := Scale(-1.0, d);
      var k := 2.0 * Dot(i, n);
      ReflectDot(i, n, k);
      ReflectNormSq(i, n, k);
      DoubledCancels(Dot(i, n), k);
      assert NormSq(i) == NormSq(d);
    }
  }

  /**
    The mirror ray: from the hit point along `2 (i . n) n - i`, where `i`
    points back along the incoming ray. About a unit normal it is a true
    mirror image: it makes the same angle with the normal as `i` and keeps
    the length of the incoming direction.
   */
  function ReflectedRay(ray: Ray, point: Point, normal: Vector): (r: Ray)
    ensures r.origin == point
    ensures VAdd(r.direction, Scale(-1.0, ray.direction))
         == Scale(2.0 * Dot(Scale(-1.0, ray.direction), normal), normal)
    ensures NormSq(normal) == 1.0 ==>
      && Dot(r.direction, normal) == Dot(Scale(-1.0, ray.direction), normal)
      && NormSq(r.direction) == NormSq(ray.direction)
  {
    var incoming := Scale(-1.0, ray.direction);
    MirrorKeepsAngleAndLength(ray.direction, normal);
    Ray(point, VSub(Scale(2.0 * Dot(incoming, normal), normal), incoming))
  }

  /**
    The transmitted ray: from the hit point, in the incoming direction. For a
    hit at `R(t)` of the incoming ray, walking `s` along it reaches the
    incoming ray's `R(t + s)`: it continues the same line.
   */
  function TransmittedRay(ray: Ray, point: Point): (r: Ray)
    ensures r.origin == point
    ensures forall t, s :: point == At(ray, t) ==> At(r, s) == At(ray, t + s)
  {
    Ray(point, ray.direction)
  }

  /* ---------------- the shader ---------------- */

  /**
    The colour of a hit, given the colours seen along the reflected and the
    transmitted ray: ambient, then the local term for a diffuse or specular
    material, then the reflected colour for a specular one and the
    transmitted colour for a refracting one, each filtered by the material,
    then the emission. A matte material shows its ambient colour under the
    ambient light plus its emission, whatever the lights and secondary rays.
   */
  function ShadeHit(lib: Libm, scene: Scene, ray: Ray, h: Hit, maxDepth: int,
                    reflected: Color, transmitted: Color): (r: Color)
    ensures var m := MaterialAt(h);
      IsZero(m.diffuse) && IsZero(m.specular) && IsZero(m.refracted) ==>
        r == CAdd(CMul(m.ambient, scene.ambientLight), m.emission)
  {
    var m := MaterialAt(h);
    var hasDiffuse := !IsZero(m.diffuse);
    var hasSpecular := !IsZero(m.specular);
    var hasRefracted := !IsZero(m.refracted);
    var color := CAdd(Black, CMul(m.ambient, scene.ambientLight));
    var color := if hasDiffuse || hasSpecular
      then CAdd(color, LocalColor(lib, scene, ray, h.point, Normal(h), m, maxDepth)) else color;
    var color := if hasSpecular then CAdd(color, CMul(reflected, m.specular)) else color;
    var color := if hasRefracted then CAdd(color, CMul(transmitted, m.refracted)) else color;
    CAdd(color, m.emission)
  }

  /**
    `trace`: the background once the depth is used up; otherwise the colour
    of a ray that hits nothing, or the shaded nearest hit, whose reflected
    and transmitted rays are traced with one level less. A ray with depth
    left that hits nothing sees a directional light or the background.
   */
  function Trace(lib: Libm, scene: Scene, ray: Ray, maxDepth: int): (r: Color)
    ensures 0 < maxDepth && FirstHit(lib, scene.objects, ray).None? ==>
      r == scene.backgroundColor ||
      exists k :: 0 <= k < |scene.directionalLights| && r == scene.directionalLights[k].color
    decreases maxDepth
  {
    if maxDepth <= 0 then scene.backgroundColor
    else
      match FirstHit(lib, scene.objects, ray)
      case None => MissColor(scene, ray)
      case Some(h) =>
        var m := MaterialAt(h);
        var reflected :=
          if !IsZero(m.specular) then Trace(lib, scene, ReflectedRay(ray, h.point, Normal(h)), maxDepth - 1)
          else Black;
        var transmitted :=
          if !IsZero(m.refracted) then Trace(lib, scene, TransmittedRay(ray, h.point), maxDepth - 1)
          else Black;
        ShadeHit(lib, scene, ray, h, maxDepth, reflected, transmitted)
  }

  /** With no depth left, any ray in any scene sees the background. */
  lemma TraceExhausted(lib: Libm, scene: Scene, ray: Ray, maxDepth: int)
    requires maxDepth <= 0
    ensures Trace(lib, scene, ray, maxDepth) == scene.backgroundColor
  {
  }

  /** A ray that hits nothing sees the first directional light it points straight at, else the background. */
  lemma TraceMiss(lib: Libm, scene: Scene, ray: Ray, maxDepth: int)
    requires 0 < maxDepth
    requires FirstHit(lib, scene.objects, ray).None?
    ensures DirectionalMatch(ray, scene.directionalLights).Some? ==>
      Trace(lib, scene, ray, maxDepth) == DirectionalMatch(ray, scene.directionalLights).value
    ensures DirectionalMatch(ray, scene.directionalLights).None? ==>
      Trace(lib, scene, ray, maxDepth) == scene.backgroundColor
  {
    MissColorIgnoresPointLights(scene, ray);
  }

  /**
    A hit on a material with no diffuse, specular or refracted colour shows
    exactly its ambient colour under the ambient light plus its emission.
   */
  lemma TraceMatte(lib: Libm, scene: Scene, ray: Ray, maxDepth: int)
    requires 0 < maxDepth
    requires FirstHit(lib, scene.objects, ray).Some?
    requires var m := MaterialAt(FirstHit(lib, scene.objects, ray).value);
      IsZero(m.diffuse) && IsZero(m.specular) && IsZero(m.refracted)
    ensures var m := MaterialAt(FirstHit(lib, scene.objects, ray).value);
      Trace(lib, scene, ray, maxDepth) == CAdd(CMul(m.ambient, scene.ambientLight), m.emission)
  {
    var m := MaterialAt(FirstHit(lib, scene.objects, ray).value);
    ProductIdentityAndZero(CMul(m.ambient, scene.ambientLight));
  }

  /** The reflected colour matters only for a specular material, the transmitted one only for a refracting one. */
  lemma ShadeHitUsesOnlyItsTerms(lib: Libm, scene: Scene, ray: Ray, h: Hit, maxDepth: int,
                                 r1: Color, t1: Color, r2: Color, t2: Color)
    requires !IsZero(MaterialAt(h).specular) ==> r1 == r2
    requires !IsZero(MaterialAt(h).refracted) ==> t1 == t2
    ensures ShadeHit(lib, scene, ray, h, maxDepth, r1, t1) == ShadeHit(lib, scene, ray, h, maxDepth, r2, t2)
  {
    var m := MaterialAt(h);
    var reflected1 := if !IsZero(m.specular) then CMul(r1, m.specular) else Black;
    var reflected2 := if !IsZero(m.specular) then CMul(r2, m.specular) else Black;
    var transmitted1 := if !IsZero(m.refracted) then CMul(t1, m.refracted) else Black;
    var transmitted2 := if !IsZero(m.refracted) then CMul(t2, m.refracted) else Black;
    assert reflected1 == reflected2;
    assert transmitted1 == transmitted2;
  }

  /** At depth 1 the reflected and transmitted rays see only the background. */
  lemma TraceDepthOne(lib: Libm, scene: Scene, ray: Ray)
    requires FirstHit(lib, scene.objects, ray).Some?
    ensures Trace(lib, scene, ray, 1)
         == ShadeHit(lib, scene, ray, FirstHit(lib, scene.objects, ray).value, 1,
                     scene.backgroundColor, scene.backgroundColor)
  {
    var h := FirstHit(lib, scene.objects, ray).value;
    var m := MaterialAt(h);
    var reflected := if !IsZero(m.specular) then scene.backgroundColor else Black;
    var transmitted := if !IsZero(m.refracted) then scene.backgroundColor else Black;
    assert Trace(lib, scene, ray, 1) == ShadeHit(lib, scene, ray, h, 1, reflected, transmitted);
    ShadeHitUsesOnlyItsTerms(lib, scene, ray, h, 1, reflected, transmitted,
                             scene.backgroundColor, scene.backgroundColor);
  }

  /** When every point light is inert at the hit, the local term is black. */
  lemma ShadowedHitHasNoLocalTerm(lib: Libm, scene: Scene, ray: Ray, point: Point, normal: Vector, m: Material,
                                  maxDepth: int)
    requires forall k :: 0 <= k < |scene.pointLights| ==>
      Inert(lib, scene, point, normal, maxDepth, scene.pointLights[k])
    ensures LocalColor(lib, scene, ray, point, normal, m, maxDepth) == Black
  {
    AllInertAddNothing(lib, scene, ray, point, normal, m, maxDepth, Sums(Black, Black), scene.pointLights);
    ProductIdentityAndZero(m.diffuse);
    ProductIdentityAndZero(m.specular);
  }
}
