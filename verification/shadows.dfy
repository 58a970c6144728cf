/**
  `computeShadow`: how much of a light reaches a point along a shadow ray.
  White when nothing lies between the point and the light, black behind an
  opaque object, and behind a transparent object its refracted colour times
  what reaches the object's far side.

  The source tests its depth argument but never returns on it: the assignment
  made when the depth is exhausted is always overwritten, so the depth never
  bounds the recursion. The recursion stops because every hit lies at least
  `EPSILON` along the ray and the remaining distance to the light shrinks by
  the hit's parameter. `ComputeShadow` therefore carries an explicit fuel
  count, and `Shadow` supplies enough fuel for any non-negative distance.
 */
module Shadows {

  import opened Primitives
  import opened Surfaces
  import opened Resolver
  import opened Wrappers

  /** Enough recursion levels for a shadow ray whose light is `lightT` along it. */
  function ShadowFuel(lightT: real): nat
    requires 0.0 <= lightT
  {
    (lightT / EPSILON).Floor + 1
  }

  /** A hit at least `EPSILON` along the ray, and before the light, leaves strictly less fuel to use. */
  lemma ShadowFuelShrinks(lightT: real, t: real)
    requires EPSILON <= t
    requires 0.0 <= lightT ==> t <= lightT
    ensures 0.0 <= lightT ==> ShadowFuel(lightT - t) < ShadowFuel(lightT)
  {
    assert (lightT - t) / EPSILON <= lightT / EPSILON - 1.0;
  }

  /**
    `computeShadow` with at most `fuel` levels of recursion; `None` when the
    fuel runs out. `maxDepth` is passed down decremented, as in the source,
    and has no effect. For a non-negative distance to the light,
    `ShadowFuel(lightT)` levels always suffice.
   */
  function ComputeShadow(lib: Libm, scene: Scene, shadow: Ray, lightT: real, maxDepth: int, fuel: nat)
    : (r: Option<Color>)
    ensures 0.0 <= lightT && ShadowFuel(lightT) <= fuel ==> r.Some?
    decreases fuel
  {
    if fuel == 0 then None
    else
      match FirstHit(lib, scene.objects, shadow)
      case None => Some(White)
      case Some(inter) =>
        if lightT >= 0.0 && inter.t > lightT then Some(White)
        else
          var m := MaterialAt(inter);
          if !IsZero(m.refracted) then
            ShadowFuelShrinks(lightT, inter.t);
            match ComputeShadow(lib, scene, Ray(inter.point, shadow.direction), lightT - inter.t, maxDepth - 1, fuel - 1)
            case None => None
            case Some(c) => Some(CMul(c, m.refracted))
          else Some(Black)
  }

  /**
    With a negative distance to the light no hit counts as beyond the light:
    a ray that meets nothing gets white, an opaque first hit gives black, and
    a transparent one gives its refracted colour times the factor further
    along, whose distance is more negative still.
   */
  lemma NegativeDistanceOccludes(lib: Libm, scene: Scene, shadow: Ray, lightT: real, maxDepth: int, fuel: nat)
    requires lightT < 0.0 && 0 < fuel
    ensures FirstHit(lib, scene.objects, shadow).None? ==>
      ComputeShadow(lib, scene, shadow, lightT, maxDepth, fuel) == Some(White)
    ensures FirstHit(lib, scene.objects, shadow).Some? ==>
      var inter := FirstHit(lib, scene.objects, shadow).value;
      && (IsZero(MaterialAt(inter).refracted) ==>
            ComputeShadow(lib, scene, shadow, lightT, maxDepth, fuel) == Some(Black))
      && (!IsZero(MaterialAt(inter).refracted) ==>
            && lightT - inter.t < lightT
            && ComputeShadow(lib, scene, shadow, lightT, maxDepth, fuel)
               == match ComputeShadow(lib, scene, Ray(inter.point, shadow.direction), lightT - inter.t,
                                      maxDepth - 1, fuel - 1)
                  case None => None
                  case Some(c) => Some(CMul(c, MaterialAt(inter).refracted)))
  {
  }

  /** More fuel never changes a result already reached. */
  lemma {:induction false} FuelMonotone(lib: Libm, scene: Scene, shadow: Ray, lightT: real, maxDepth: int,
                                        fuel: nat, more: nat)
    requires fuel <= more
    requires ComputeShadow(lib, scene, shadow, lightT, maxDepth, fuel).Some?
    ensures ComputeShadow(lib, scene, shadow, lightT, maxDepth, more)
         == ComputeShadow(lib, scene, shadow, lightT, maxDepth, fuel)
    decreases fuel
  {
    match FirstHit(lib, scene.objects, shadow)
    case None =>
    case Some(inter) =>
      if !(lightT >= 0.0 && inter.t > lightT) && !IsZero(MaterialAt(inter).refracted) {
        FuelMonotone(lib, scene, Ray(inter.point, shadow.direction), lightT - inter.t, maxDepth - 1,
                     fuel - 1, more - 1);
      }
  }

  /** The depth argument never influences the result. */
  lemma {:induction false} DepthIrrelevant(lib: Libm, scene: Scene, shadow: Ray, lightT: real,
                                           d1: int, d2: int, fuel: nat)
    ensures ComputeShadow(lib, scene, shadow, lightT, d1, fuel) == ComputeShadow(lib, scene, shadow, lightT, d2, fuel)
    decreases fuel
  {
    if fuel > 0 {
      match FirstHit(lib, scene.objects, shadow)
      case None =>
      case Some(inter) =>
        DepthIrrelevant(lib, scene, Ray(inter.point, shadow.direction), lightT - inter.t, d1 - 1, d2 - 1, fuel - 1);
    }
  }

  /** The shadow factor of a light `lightT` along the ray, for a non-negative `lightT`. */
  function Shadow(lib: Libm, scene: Scene, shadow: Ray, lightT: real, maxDepth: int): (c: Color)
    requires 0.0 <= lightT
    ensures forall fuel: nat :: ShadowFuel(lightT) <= fuel ==>
      ComputeShadow(lib, scene, shadow, lightT, maxDepth, fuel) == Some(c)
  {
    var c := ComputeShadow(lib, scene, shadow, lightT, maxDepth, ShadowFuel(lightT)).value;
    forall fuel: nat | ShadowFuel(lightT) <= fuel
      ensures ComputeShadow(lib, scene, shadow, lightT, maxDepth, fuel) == Some(c)
    {
      FuelMonotone(lib, scene, shadow, lightT, maxDepth, ShadowFuel(lightT), fuel);
    }
    c
  }

  /**
    The three cases of `computeShadow`: white when nothing is hit or the
    nearest hit lies beyond the light; black when the nearest hit is opaque;
    otherwise the shadow factor from the hit point onward, with the distance
    to the light reduced by the hit's parameter, times the refracted colour.
   */
  lemma ShadowCases(lib: Libm, scene: Scene, shadow: Ray, lightT: real, maxDepth: int)
    requires 0.0 <= lightT
    ensures FirstHit(lib, scene.objects, shadow).None? ==> Shadow(lib, scene, shadow, lightT, maxDepth) == White
    ensures FirstHit(lib, scene.objects, shadow).Some? ==>
      var inter := FirstHit(lib, scene.objects, shadow).value;
      && (inter.t > lightT ==> Shadow(lib, scene, shadow, lightT, maxDepth) == White)
      && (inter.t <= lightT && IsZero(MaterialAt(inter).refracted) ==>
            Shadow(lib, scene, shadow, lightT, maxDepth) == Black)
      && (inter.t <= lightT && !IsZero(MaterialAt(inter).refracted) ==>
            Shadow(lib, scene, shadow, lightT, maxDepth)
            == CMul(Shadow(lib, scene, Ray(inter.point, shadow.direction), lightT - inter.t, maxDepth - 1),
                    MaterialAt(inter).refracted))
  {
    var fuel := ShadowFuel(lightT);
    assert ComputeShadow(lib, scene, shadow, lightT, maxDepth, fuel) == Some(Shadow(lib, scene, shadow, lightT, maxDepth));
    match FirstHit(lib, scene.objects, shadow)
    case None =>
    case Some(inter) =>
      if inter.t <= lightT && !IsZero(MaterialAt(inter).refracted) {
        ShadowFuelShrinks(lightT, inter.t);
        var next := Ray(inter.point, shadow.direction);
        assert ComputeShadow(lib, scene, next, lightT - inter.t, maxDepth - 1, fuel - 1)
            == Some(Shadow(lib, scene, next, lightT - inter.t, maxDepth - 1));
      }
  }

  /** The shadow factor does not depend on the depth argument. */
  lemma ShadowIgnoresDepth(lib: Libm, scene: Scene, shadow: Ray, lightT: real, d1: int, d2: int)
    requires 0.0 <= lightT
    ensures Shadow(lib, scene, shadow, lightT, d1) == Shadow(lib, scene, shadow, lightT, d2)
  {
    DepthIrrelevant(lib, scene, shadow, lightT, d1, d2, ShadowFuel(lightT));
    assert ComputeShadow(lib, scene, shadow, lightT, d1, ShadowFuel(lightT)) == Some(Shadow(lib, scene, shadow, lightT, d1));
    assert ComputeShadow(lib, scene, shadow, lightT, d2, ShadowFuel(lightT)) == Some(Shadow(lib, scene, shadow, lightT, d2));
  }

  /** Every object's refracted colour lies in [0, 1]. */
  ghost predicate RefractedInUnit(scene: Scene)
  {
    forall k :: 0 <= k < |scene.objects| ==> InUnit(scene.objects[k].material.refracted)
  }

  /** The nearest hit is the hit of one of the scene's objects, so its refracted colour is that object's. */
  lemma HitRefractedInUnit(lib: Libm, scene: Scene, ray: Ray)
    requires RefractedInUnit(scene)
    requires FirstHit(lib, scene.objects, ray).Some?
    ensures InUnit(MaterialAt(FirstHit(lib, scene.objects, ray).value).refracted)
  {
    FirstHitEarliest(lib, scene.objects, ray);
    var k :| 0 <= k < |scene.objects| && Intersect(lib, scene.objects[k], ray) == FirstHit(lib, scene.objects, ray);
  }

  lemma {:induction false} ComputeShadowInUnit(lib: Libm, scene: Scene, shadow: Ray, lightT: real, maxDepth: int,
                                               fuel: nat)
    requires RefractedInUnit(scene)
    ensures ComputeShadow(lib, scene, shadow, lightT, maxDepth, fuel).Some? ==>
      InUnit(ComputeShadow(lib, scene, shadow, lightT, maxDepth, fuel).value)
    decreases fuel
  {
    if fuel > 0 {
      match FirstHit(lib, scene.objects, shadow)
      case None =>
      case Some(inter) =>
        if !(lightT >= 0.0 && inter.t > lightT) && !IsZero(MaterialAt(inter).refracted) {
          var next := Ray(inter.point, shadow.direction);
          ComputeShadowInUnit(lib, scene, next, lightT - inter.t, maxDepth - 1, fuel - 1);
          HitRefractedInUnit(lib, scene, shadow);
          var rest := ComputeShadow(lib, scene, next, lightT - inter.t, maxDepth - 1, fuel - 1);
          if rest.Some? {
            ProductInUnit(rest.value, MaterialAt(inter).refracted);
          }
        }
    }
  }

  /** With refracted colours in [0, 1], a light is never brightened by what stands in front of it. */
  lemma ShadowInUnit(lib: Libm, scene: Scene, shadow: Ray, lightT: real, maxDepth: int)
    requires 0.0 <= lightT
    requires RefractedInUnit(scene)
    ensures InUnit(Shadow(lib, scene, shadow, lightT, maxDepth))
  {
    ComputeShadowInUnit(lib, scene, shadow, lightT, maxDepth, ShadowFuel(lightT));
  }
}
