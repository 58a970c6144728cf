/**
  `findFirstIntersection`: the hit nearest to the ray's origin among all the
  scene's objects, scanning them in order.
 */
module Resolver {

  import opened Primitives
  import opened Surfaces
  import opened Wrappers

  /** One step of the scan: a new hit replaces the current winner only when its parameter is strictly smaller. */
  function Nearer(closest: Option<Hit>, candidate: Option<Hit>): (r: Option<Hit>)
    ensures r == closest || r == candidate
    ensures r.None? <==> closest.None? && candidate.None?
    ensures r.Some? && closest.Some? ==> r.value.t <= closest.value.t
    ensures r.Some? && candidate.Some? ==> r.value.t <= candidate.value.t
    ensures closest.Some? && candidate.Some? && candidate.value.t == closest.value.t ==> r == closest
  {
    match candidate
    case None => closest
    case Some(h) => if closest.None? || h.t < closest.value.t then candidate else closest
  }

  /** `findFirstIntersection`: the scan of `objects` in order, keeping the nearest hit so far. */
  function FirstHit(lib: Libm, objects: seq<Surface>, ray: Ray): (r: Option<Hit>)
    ensures r.Some? ==> EPSILON <= r.value.t && r.value.point == At(ray, r.value.t)
    decreases |objects|
  {
    if |objects| == 0 then None
    else
      var n := |objects| - 1;
      Nearer(FirstHit(lib, objects[..n], ray), Intersect(lib, objects[n], ray))
  }

  /** No hit is resolved exactly when every object misses. */
  lemma {:induction false} FirstHitNoneIff(lib: Libm, objects: seq<Surface>, ray: Ray)
    ensures FirstHit(lib, objects, ray).None? <==>
      forall k :: 0 <= k < |objects| ==> Intersect(lib, objects[k], ray).None?
    decreases |objects|
  {
    if |objects| > 0 {
      var n := |objects| - 1;
      FirstHitNoneIff(lib, objects[..n], ray);
      assert forall k :: 0 <= k < n ==> objects[..n][k] == objects[k];
    }
  }

  /** The resolved hit is no farther than the hit of any object. */
  lemma {:induction false} FirstHitNearest(lib: Libm, objects: seq<Surface>, ray: Ray)
    ensures FirstHit(lib, objects, ray).Some? ==>
      forall k :: 0 <= k < |objects| && Intersect(lib, objects[k], ray).Some? ==>
        FirstHit(lib, objects, ray).value.t <= Intersect(lib, objects[k], ray).value.t
    decreases |objects|
  {
    var r := FirstHit(lib, objects, ray);
    if |objects| > 0 && r.Some? {
      var n := |objects| - 1;
      var prefix := objects[..n];
      FirstHitNearest(lib, prefix, ray);
      FirstHitNoneIff(lib, prefix, ray);
      forall k | 0 <= k < |objects| && Intersect(lib, objects[k], ray).Some?
        ensures r.value.t <= Intersect(lib, objects[k], ray).value.t
      {
        if k < n {
          assert prefix[k] == objects[k];
        }
      }
    }
  }

  /** The resolved hit is the hit of some object, strictly nearer than the hit of every object before it. */
  lemma {:induction false} FirstHitEarliest(lib: Libm, objects: seq<Surface>, ray: Ray)
    ensures FirstHit(lib, objects, ray).Some? ==>
      exists k :: (0 <= k < |objects| && Intersect(lib, objects[k], ray) == FirstHit(lib, objects, ray) &&
                   forall j :: 0 <= j < k && Intersect(lib, objects[j], ray).Some? ==>
                     FirstHit(lib, objects, ray).value.t < Intersect(lib, objects[j], ray).value.t)
    decreases |objects|
  {
    if |objects| > 0 {
      var n := |objects| - 1;
      var prefix := objects[..n];
      var prev := FirstHit(lib, prefix, ray);
      var r := FirstHit(lib, objects, ray);
      assert forall k :: 0 <= k < n ==> prefix[k] == objects[k];
      if r.Some? && r == prev {
        FirstHitEarliest(lib, prefix, ray);
        var k :| 0 <= k < n && Intersect(lib, prefix[k], ray) == prev &&
                 forall j :: 0 <= j < k && Intersect(lib, prefix[j], ray).Some? ==>
                   prev.value.t < Intersect(lib, prefix[j], ray).value.t;
        assert Intersect(lib, objects[k], ray) == r;
      } else if r.Some? {
        FirstHitNearest(lib, prefix, ray);
        FirstHitNoneIff(lib, prefix, ray);
        assert Intersect(lib, objects[n], ray) == r;
        assert forall j :: 0 <= j < n && Intersect(lib, objects[j], ray).Some? ==>
          r.value.t < Intersect(lib, objects[j], ray).value.t;
      }
    }
  }
}
