/**
  The surfaces of a scene and their hit tests: for a ray, each surface either
  reports the ray parameter `t` of the point where the ray meets it, never
  closer to the ray's origin than `EPSILON`, or reports no hit. A hit also
  determines the surface normal and the material at the hit point.
 */
module Surfaces {

  import opened RealArith
  import opened Primitives
  import opened Textures
  import opened Wrappers

  /** The axis selectors of a textured rectangle's `sAxis` and `tAxis`. */
  const XAXIS: int := 0
  const YAXIS: int := 1
  const ZAXIS: int := 2

  /** The extents of an axis-aligned rectangle, in the order the source stores them. */
  datatype Box = Box(xMax: real, xMin: real, yMax: real, yMin: real, zMax: real, zMin: real)

  /** `GeometricObject`, closed over the four kinds of surface the ray tracer defines. */
  datatype Surface =
    | Sphere(material: Material, center: Point, radius: real)
    | Plane(material: Material, point: Point, normal: Vector)
    | Rectangle(material: Material, box: Box, normal: Vector)
    | TexturedRectangle(material: Material, texture: Image, sAxis: int, tAxis: int, box: Box, normal: Vector)

  /** `Intersection`: the ray parameter, the point it gives, and the surface that was hit. */
  datatype Hit = Hit(t: real, point: Point, surface: Surface)

  datatype PointLight = PointLight(color: Color, location: Point)

  /** A light at infinity; `direction` is the direction its light travels. */
  datatype DirectionalLight = DirectionalLight(color: Color, direction: Vector)

  datatype Scene = Scene(
    backgroundColor: Color,
    ambientLight: Color,
    viewPlaneTop: real,
    viewPlaneBottom: real,
    viewPlaneLeft: real,
    viewPlaneRight: real,
    viewPlaneZ: real,
    objects: seq<Surface>,
    pointLights: seq<PointLight>,
    directionalLights: seq<DirectionalLight>)

  /* ---------------- spheres ---------------- */

  /**
    The quadratic `a t^2 + 2 b t + c = 0` whose roots are the parameters at
    which a ray meets a sphere: `a` is the squared length of the direction,
    `b` the dot product of direction and origin-minus-centre, `c` the squared
    distance of the origin from the centre minus the squared radius.
   */
  datatype Quadratic = Quadratic(a: real, b: real, c: real)

  function SphereQuadratic(center: Point, radius: real, ray: Ray): Quadratic
  {
    var p := Sub(ray.origin, center);
    Quadratic(NormSq(ray.direction), Dot(ray.direction, p), NormSq(p) - Sq(radius))
  }

  /** The quantity under the radical: a quarter of the usual discriminant. */
  function Discriminant(q: Quadratic): real
  {
    Sq(q.b) - q.a * q.c
  }

  function Eval(q: Quadratic, t: real): real
  {
    q.a * Sq(t) + 2.0 * q.b * t + q.c
  }

  /** The root `(-b - sqrt(rad)) / a`, the nearer one for a non-zero direction. */
  function LowRoot(lib: Libm, q: Quadratic): real
  {
    Div(-q.b - lib.sqrt(Discriminant(q)), q.a)
  }

  /** The root `(-b + sqrt(rad)) / a`. */
  function HighRoot(lib: Libm, q: Quadratic): real
  {
    Div(-q.b + lib.sqrt(Discriminant(q)), q.a)
  }

  /**
    The root selection of `Sphere::intersect`: `t1` when it is at least
    `EPSILON`, otherwise `t2` when that is, otherwise no hit. When `t1 <= t2`
    this is the smallest of the two roots that is at least `EPSILON`.
   */
  function PickRoot(t1: real, t2: real): (r: Option<real>)
    ensures r.Some? ==> EPSILON <= r.value && (r.value == t1 || r.value == t2)
    ensures r.None? <==> t1 < EPSILON && t2 < EPSILON
    ensures EPSILON <= t1 ==> r == Some(t1)
    ensures t1 <= t2 && r.Some? ==> (EPSILON <= t1 ==> r.value <= t1) && (EPSILON <= t2 ==> r.value <= t2)
  {
    if t1 < EPSILON && t2 < EPSILON then None
    else if t1 < EPSILON then Some(t2)
    else Some(t1)
  }

  /** `Sphere::intersect`, reporting the ray parameter of the hit. */
  function SphereIntersect(lib: Libm, center: Point, radius: real, ray: Ray): (r: Option<real>)
    ensures Discriminant(SphereQuadratic(center, radius, ray)) < 0.0 ==> r.None?
    ensures r.Some? ==> EPSILON <= r.value
    ensures r.Some? ==> (r.value == LowRoot(lib, SphereQuadratic(center, radius, ray))
                      || r.value == HighRoot(lib, SphereQuadratic(center, radius, ray)))
  {
    var q := SphereQuadratic(center, radius, ray);
    if Discriminant(q) < 0.0 then None
    else PickRoot(LowRoot(lib, q), HighRoot(lib, q))
  }

  /** The outward normal `(point - center) / radius`, of unit length on the sphere. */
  function SphereNormal(center: Point, radius: real, p: Point): (n: Vector)
    ensures radius != 0.0 ==> Scale(radius, n) == Sub(p, center)
  {
    Vector(Div(p.x - center.x, radius), Div(p.y - center.y, radius), Div(p.z - center.z, radius))
  }

  /* ---------------- planes and rectangles ---------------- */

  /**
    The line-plane solve of `Plane::intersect` against the plane through
    `point` with normal `normal`: no hit for a ray parallel to the plane or
    for a parameter below `EPSILON`.
   */
  function PlaneIntersect(point: Point, normal: Vector, ray: Ray): (r: Option<real>)
    ensures Dot(ray.direction, normal) == 0.0 ==> r.None?
    ensures r.Some? ==> EPSILON <= r.value
  {
    var dotDN := Dot(ray.direction, normal);
    if dotDN == 0.0 then None
    else
      var t := Dot(Sub(point, ray.origin), normal) / dotDN;
      if t < EPSILON then None else Some(t)
  }

  /** The corner `(xMax, yMax, zMax)` through which a rectangle's plane passes. */
  function Corner(box: Box): Point
  {
    Point(box.xMax, box.yMax, box.zMax)
  }

  /** The box test of `Rectangle::intersect`, with every bound widened by `EPSILON`. */
  predicate InInflatedBox(box: Box, p: Point)
  {
    && box.xMin - EPSILON <= p.x <= box.xMax + EPSILON
    && box.yMin - EPSILON <= p.y <= box.yMax + EPSILON
    && box.zMin - EPSILON <= p.z <= box.zMax + EPSILON
  }

  /** `Rectangle::intersect`: the hit of the rectangle's plane, kept only inside the widened box. */
  function RectangleIntersect(box: Box, normal: Vector, ray: Ray): (r: Option<real>)
    ensures r.Some? ==> EPSILON <= r.value && InInflatedBox(box, At(ray, r.value))
    ensures r.Some? ==> PlaneIntersect(Corner(box), normal, ray) == r
  {
    match PlaneIntersect(Corner(box), normal, ray)
    case None => None
    case Some(t) => if InInflatedBox(box, At(ray, t)) then Some(t) else None
  }

  /* ---------------- dispatch ---------------- */

  /**
    `GeometricObject::intersect`. A textured rectangle runs the rectangle test
    on its own box and normal and re-labels the hit as its own; every hit's
    point is the ray at the hit's parameter.
   */
  function Intersect(lib: Libm, obj: Surface, ray: Ray): (r: Option<Hit>)
    ensures r.Some? ==> EPSILON <= r.value.t
    ensures r.Some? ==> r.value.point == At(ray, r.value.t) && r.value.surface == obj
  {
    var t := match obj
      case Sphere(_, center, radius) => SphereIntersect(lib, center, radius, ray)
      case Plane(_, point, normal) => PlaneIntersect(point, normal, ray)
      case Rectangle(_, box, normal) => RectangleIntersect(box, normal, ray)
      case TexturedRectangle(_, _, _, _, box, normal) => RectangleIntersect(box, normal, ray);
    match t
    case None => None
    case Some(t) => Some(Hit(t, At(ray, t), obj))
  }

  /* ---------------- normals and materials ---------------- */

  /** `Intersection::getNormal` of the four intersection kinds. */
  function Normal(h: Hit): (n: Vector)
    ensures !h.surface.Sphere? ==> n == h.surface.normal
    ensures h.surface.Sphere? && h.surface.radius != 0.0 ==>
      Scale(h.surface.radius, n) == Sub(h.point, h.surface.center)
  {
    match h.surface
    case Sphere(_, center, radius) => SphereNormal(center, radius, h.point)
    case Plane(_, _, normal) => normal
    case Rectangle(_, _, normal) => normal
    case TexturedRectangle(_, _, _, _, _, normal) => normal
  }

  function AxisCoord(axis: int, p: Point): real
  {
    if axis == XAXIS then p.x else if axis == YAXIS then p.y else p.z
  }

  function AxisMin(axis: int, box: Box): real
  {
    if axis == XAXIS then box.xMin else if axis == YAXIS then box.yMin else box.zMin
  }

  function AxisMax(axis: int, box: Box): real
  {
    if axis == XAXIS then box.xMax else if axis == YAXIS then box.yMax else box.zMax
  }

  /**
    `computeParam`: where the point lies between the box's minimum and maximum
    on the selected axis, as a fraction; 0 for an axis code other than the
    three the source names.
   */
  function ComputeParam(axis: int, box: Box, p: Point): (r: real)
    ensures axis != XAXIS && axis != YAXIS && axis != ZAXIS ==> r == 0.0
    ensures XAXIS <= axis <= ZAXIS && AxisMax(axis, box) != AxisMin(axis, box) ==>
      AxisMin(axis, box) + r * (AxisMax(axis, box) - AxisMin(axis, box)) == AxisCoord(axis, p)
    ensures XAXIS <= axis <= ZAXIS && AxisMax(axis, box) == AxisMin(axis, box) ==> r == 0.0
  {
    if axis == XAXIS then Div(p.x - box.xMin, box.xMax - box.xMin)
    else if axis == YAXIS then Div(p.y - box.yMin, box.yMax - box.yMin)
    else if axis == ZAXIS then Div(p.z - box.zMin, box.zMax - box.zMin)
    else 0.0
  }

  /** The texel a textured-rectangle hit reads: its two parameters looked up in the texture. */
  function Texel(h: Hit): (c: Color)
    requires h.surface.TexturedRectangle?
    ensures c in h.surface.texture.pixels
  {
    var rect := h.surface;
    Sample(rect.texture, ComputeParam(rect.sAxis, rect.box, h.point), ComputeParam(rect.tAxis, rect.box, h.point))
  }

  /**
    `Intersection::getMaterial` of the four intersection kinds: the stored
    material, except that a textured rectangle multiplies its ambient, diffuse
    and emitted colours by the texel under the hit point.
   */
  function MaterialAt(h: Hit): (m: Material)
    ensures m.specular == h.surface.material.specular
    ensures m.refracted == h.surface.material.refracted
    ensures m.shininess == h.surface.material.shininess
    ensures !h.surface.TexturedRectangle? ==> m == h.surface.material
    ensures h.surface.TexturedRectangle? ==>
      && m.ambient == CMul(h.surface.material.ambient, Texel(h))
      && m.diffuse == CMul(h.surface.material.diffuse, Texel(h))
      && m.emission == CMul(h.surface.material.emission, Texel(h))
  {
    match h.surface
    case TexturedRectangle(material, _, _, _, _, _) =>
      var texel := Texel(h);
      material.(ambient := CMul(material.ambient, texel),
                diffuse := CMul(material.diffuse, texel),
                emission := CMul(material.emission, texel))
    case _ => h.surface.material
  }

  /* ---------------- properties of the sphere test ---------------- */

  /** A parameter whose product with `a` is `-b` plus or minus a square root of the radical solves the quadratic. */
  lemma QuadRoot(a: real, b: real, c: real, s: real, t: real)
    requires a != 0.0
    requires Sq(s) == Sq(b) - a * c
    requires t * a == -b + s || t * a == -b - s
    ensures a * Sq(t) + 2.0 * b * t + c == 0.0
  {
    var u := t * a;
    assert a * (a * Sq(t) + 2.0 * b * t + c) == Sq(u) + 2.0 * b * u + a * c;
    assert Sq(u) + 2.0 * b * u + a * c == Sq(s) - Sq(b) + a * c;
    MulZero(a, a * Sq(t) + 2.0 * b * t + c);
  }

  /** Both roots of `Sphere::intersect` solve the quadratic when the radical is non-negative. */
  lemma RootsSolve(lib: Libm, q: Quadratic)
    requires SqrtAxioms(lib)
    requires q.a != 0.0 && 0.0 <= Discriminant(q)
    ensures Eval(q, LowRoot(lib, q)) == 0.0 && Eval(q, HighRoot(lib, q)) == 0.0
  {
    var s := lib.sqrt(Discriminant(q));
    assert Sq(s) == Sq(q.b) - q.a * q.c;
    QuadRoot(q.a, q.b, q.c, s, LowRoot(lib, q));
    QuadRoot(q.a, q.b, q.c, s, HighRoot(lib, q));
  }

  /** `Sq(p + t d) = Sq(p) + 2 t d p + t^2 Sq(d)`, one coordinate at a time. */
  lemma SquareAlong(p: real, d: real, t: real)
    ensures Sq(p + t * d) == Sq(p) + 2.0 * t * (d * p) + Sq(t) * Sq(d)
  {
  }

  /** A point of the ray lies on the sphere exactly when its parameter solves the sphere's quadratic. */
  lemma OnSphereIffRoot(center: Point, radius: real, ray: Ray, t: real)
    ensures NormSq(Sub(At(ray, t), center)) == Sq(radius)
        <==> Eval(SphereQuadratic(center, radius, ray), t) == 0.0
  {
    var p := Sub(ray.origin, center);
    var d := ray.direction;
    assert Sub(At(ray, t), center) == Vector(p.x + t * d.x, p.y + t * d.y, p.z + t * d.z);
    SquareAlong(p.x, d.x, t);
    SquareAlong(p.y, d.y, t);
    SquareAlong(p.z, d.z, t);
    assert NormSq(Sub(At(ray, t), center)) - Sq(radius)
        == Eval(SphereQuadratic(center, radius, ray), t);
  }

  /** A ray with a non-zero direction that hits a sphere hits it at a point on the sphere. */
  lemma SphereHitOnSurface(lib: Libm, center: Point, radius: real, ray: Ray)
    requires SqrtAxioms(lib)
    requires ray.direction != Zero
    ensures SphereIntersect(lib, center, radius, ray).Some? ==>
      NormSq(Sub(At(ray, SphereIntersect(lib, center, radius, ray).value), center)) == Sq(radius)
  {
    var q := SphereQuadratic(center, radius, ray);
    var r := SphereIntersect(lib, center, radius, ray);
    if r.Some? {
      NormSqZeroIff(ray.direction);
      RootsSolve(lib, q);
      OnSphereIffRoot(center, radius, ray, r.value);
    }
  }

  /** For a non-zero direction the `t1` of the source is never above its `t2`. */
  lemma RootsOrdered(lib: Libm, q: Quadratic)
    requires SqrtAxioms(lib)
    requires 0.0 < q.a && 0.0 <= Discriminant(q)
    ensures LowRoot(lib, q) <= HighRoot(lib, q)
  {
    var s := lib.sqrt(Discriminant(q));
    DivMono(-q.b - s, -q.b + s, q.a);
  }

  /** `(a t + b)^2 - (b^2 - a c) = a (a t^2 + 2 b t + c)`: completing the square. */
  lemma CompleteSquare(a: real, b: real, c: real, t: real)
    ensures Sq(a * t + b) - (Sq(b) - a * c) == a * (a * Sq(t) + 2.0 * b * t + c)
  {
  }

  /** Two parameters whose products with a non-zero `a` agree are equal. */
  lemma SameQuotient(a: real, x: real, tau: real, q: real)
    requires a != 0.0
    requires tau * a == x && q * a == x
    ensures tau == q
  {
    assert a * (tau - q) == 0.0;
    MulZero(a, tau - q);
  }

  /** A solution `t` of `a t^2 + 2 b t + c = 0` has `t a = -b + s` or `t a = -b - s` for the root `s` of the radical. */
  lemma LinearFromRoot(a: real, b: real, c: real, s: real, t: real)
    requires a * Sq(t) + 2.0 * b * t + c == 0.0
    requires Sq(s) == Sq(b) - a * c
    ensures t * a == -b + s || t * a == -b - s
  {
    CompleteSquare(a, b, c, t);
    SquaresEqual(a * t + b, s);
  }

  /** A parameter that satisfies one of the two linear equations is the quotient that solves it. */
  lemma RootChoice(a: real, b: real, s: real, tau: real, lo: real, hi: real)
    requires a != 0.0
    requires lo * a == -b - s && hi * a == -b + s
    requires tau * a == -b + s || tau * a == -b - s
    ensures tau == lo || tau == hi
  {
    if tau * a == -b + s {
      SameQuotient(a, -b + s, tau, hi);
    } else {
      SameQuotient(a, -b - s, tau, lo);
    }
  }

  /** A solution of the quadratic makes the radical non-negative. */
  lemma SolvableRadical(q: Quadratic, tau: real)
    requires Eval(q, tau) == 0.0
    ensures 0.0 <= Discriminant(q)
  {
    CompleteSquare(q.a, q.b, q.c, tau);
    SquareNonneg(q.a * tau + q.b);
  }

  /** Every solution of the quadratic is one of the two roots the source computes. */
  lemma RootIsLowOrHigh(lib: Libm, q: Quadratic, tau: real)
    requires SqrtAxioms(lib)
    requires q.a != 0.0
    requires Eval(q, tau) == 0.0
    ensures 0.0 <= Discriminant(q)
    ensures tau == LowRoot(lib, q) || tau == HighRoot(lib, q)
  {
    SolvableRadical(q, tau);
    var s := lib.sqrt(Discriminant(q));
    LinearFromRoot(q.a, q.b, q.c, s, tau);
    RootChoice(q.a, q.b, s, tau, LowRoot(lib, q), HighRoot(lib, q));
  }

  /**
    `Sphere::intersect` finds the nearest admissible point: whenever the ray
    (with a non-zero direction) meets the sphere at some parameter of at least
    `EPSILON`, it reports a hit no farther than that parameter.
   */
  lemma SphereNearest(lib: Libm, center: Point, radius: real, ray: Ray, tau: real)
    requires SqrtAxioms(lib)
    requires ray.direction != Zero
    requires EPSILON <= tau
    requires NormSq(Sub(At(ray, tau), center)) == Sq(radius)
    ensures SphereIntersect(lib, center, radius, ray).Some?
    ensures SphereIntersect(lib, center, radius, ray).value <= tau
  {
    var q := SphereQuadratic(center, radius, ray);
    NormSqZeroIff(ray.direction);
    OnSphereIffRoot(center, radius, ray, tau);
    RootIsLowOrHigh(lib, q, tau);
    RootsOrdered(lib, q);
  }

  /** At an exact hit of a sphere of non-zero radius the normal has unit length. */
  lemma SphereNormalUnit(lib: Libm, s: Surface, ray: Ray)
    requires SqrtAxioms(lib)
    requires s.Sphere? && s.radius != 0.0
    requires ray.direction != Zero
    ensures Intersect(lib, s, ray).Some? ==> NormSq(Normal(Intersect(lib, s, ray).value)) == 1.0
  {
    var r := Intersect(lib, s, ray);
    if r.Some? {
      var h := r.value;
      SphereHitOnSurface(lib, s.center, s.radius, ray);
      var v := Sub(h.point, s.center);
      assert Normal(h) == Vector(v.x / s.radius, v.y / s.radius, v.z / s.radius);
      ScaledNormSq(v, s.radius);
      SquarePos(s.radius);
      CancelToOne(NormSq(Normal(h)), Sq(s.radius), NormSq(v));
    }
  }

  /* ---------------- properties of the plane and rectangle tests ---------------- */

  /** The point at parameter `t` lies on the plane exactly when `t` times `dot(D, N)` is `dot(P - L, N)`. */
  lemma OnPlaneIff(point: Point, normal: Vector, ray: Ray, t: real)
    ensures Dot(Sub(At(ray, t), point), normal) == 0.0
        <==> t * Dot(ray.direction, normal) == Dot(Sub(point, ray.origin), normal)
  {
    assert Dot(Sub(At(ray, t), point), normal)
        == t * Dot(ray.direction, normal) - Dot(Sub(point, ray.origin), normal);
  }

  /**
    `Plane::intersect` reports `t` exactly when the ray is not parallel to the
    plane, `t` is at least `EPSILON`, and the ray's point at `t` lies on the plane.
   */
  lemma PlaneHitIff(point: Point, normal: Vector, ray: Ray, t: real)
    ensures PlaneIntersect(point, normal, ray) == Some(t)
        <==> Dot(ray.direction, normal) != 0.0 && EPSILON <= t
             && Dot(Sub(At(ray, t), point), normal) == 0.0
  {
    OnPlaneIff(point, normal, ray, t);
    var d := Dot(ray.direction, normal);
    if d != 0.0 {
      var t0 := Dot(Sub(point, ray.origin), normal) / d;
      assert t0 * d == Dot(Sub(point, ray.origin), normal);
      if t * d == Dot(Sub(point, ray.origin), normal) {
        MulZero(d, t - t0);
      }
    }
  }

  /** Flipping the plane's normal does not change where a ray meets it. */
  lemma PlaneNormalFlip(point: Point, normal: Vector, ray: Ray)
    ensures PlaneIntersect(point, Scale(-1.0, normal), ray) == PlaneIntersect(point, normal, ray)
  {
    var d := Dot(ray.direction, normal);
    var e := Dot(Sub(point, ray.origin), normal);
    assert Dot(ray.direction, Scale(-1.0, normal)) == -d;
    assert Dot(Sub(point, ray.origin), Scale(-1.0, normal)) == -e;
    if d != 0.0 {
      assert (-e) / (-d) == e / d;
    }
  }

  /**
    `Rectangle::intersect` reports `t` exactly when the plane through the
    corner `(xMax, yMax, zMax)` is met at `t` by a non-parallel ray, `t` is at
    least `EPSILON`, and the point lies in the box widened by `EPSILON`.
   */
  lemma RectangleHitIff(box: Box, normal: Vector, ray: Ray, t: real)
    ensures RectangleIntersect(box, normal, ray) == Some(t)
        <==> Dot(ray.direction, normal) != 0.0 && EPSILON <= t
             && Dot(Sub(At(ray, t), Corner(box)), normal) == 0.0
             && InInflatedBox(box, At(ray, t))
  {
    PlaneHitIff(Corner(box), normal, ray, t);
  }

  /** A plane hit outside the widened box is rejected. */
  lemma RectangleRejectsOutside(box: Box, normal: Vector, ray: Ray)
    requires PlaneIntersect(Corner(box), normal, ray).Some?
    requires !InInflatedBox(box, At(ray, PlaneIntersect(Corner(box), normal, ray).value))
    ensures RectangleIntersect(box, normal, ray).None?
  {
  }

  /**
    `TexturedRectangle::intersect` hits exactly when the rectangle with the
    same box and normal does, at the same parameter and point, whatever the
    two materials.
   */
  lemma TexturedLikeRectangle(lib: Libm, m: Material, tex: Image, sAxis: int, tAxis: int,
                              m': Material, box: Box, normal: Vector, ray: Ray)
    ensures Intersect(lib, TexturedRectangle(m, tex, sAxis, tAxis, box, normal), ray).Some?
        <==> Intersect(lib, Rectangle(m', box, normal), ray).Some?
    ensures Intersect(lib, TexturedRectangle(m, tex, sAxis, tAxis, box, normal), ray).Some? ==>
      && Intersect(lib, TexturedRectangle(m, tex, sAxis, tAxis, box, normal), ray).value.t
         == Intersect(lib, Rectangle(m', box, normal), ray).value.t
      && Intersect(lib, TexturedRectangle(m, tex, sAxis, tAxis, box, normal), ray).value.point
         == Intersect(lib, Rectangle(m', box, normal), ray).value.point
  {
  }

  /* ---------------- properties of normals, parameters and materials ---------------- */

  /** On a box with extent along the axis, a coordinate between the bounds gives a parameter in [0, 1], 0 at the minimum and 1 at the maximum. */
  lemma ComputeParamUnit(axis: int, box: Box, p: Point)
    requires XAXIS <= axis <= ZAXIS
    requires AxisMin(axis, box) < AxisMax(axis, box)
    ensures AxisCoord(axis, p) == AxisMin(axis, box) ==> ComputeParam(axis, box, p) == 0.0
    ensures AxisCoord(axis, p) == AxisMax(axis, box) ==> ComputeParam(axis, box, p) == 1.0
    ensures AxisMin(axis, box) <= AxisCoord(axis, p) <= AxisMax(axis, box) ==>
      0.0 <= ComputeParam(axis, box, p) <= 1.0
  {
    var lo, hi, x := AxisMin(axis, box), AxisMax(axis, box), AxisCoord(axis, p);
    assert ComputeParam(axis, box, p) == (x - lo) / (hi - lo);
    if x == hi {
      DivSelf(hi - lo);
    }
    if lo <= x <= hi {
      DivUnit(x - lo, hi - lo);
    }
  }

  /** A texture of white texels leaves a textured rectangle's material as stored. */
  lemma WhiteTextureKeepsMaterial(h: Hit)
    requires h.surface.TexturedRectangle?
    requires forall k :: 0 <= k < |h.surface.texture.pixels| ==> h.surface.texture.pixels[k] == White
    ensures MaterialAt(h) == h.surface.material
  {
    var m := h.surface.material;
    ProductIdentityAndZero(m.ambient);
    ProductIdentityAndZero(m.diffuse);
    ProductIdentityAndZero(m.emission);
  }

  /** Colours in [0, 1] in the material and the texture give a material with colours in [0, 1]. */
  lemma MaterialInUnit(h: Hit)
    requires InUnit(h.surface.material.ambient) && InUnit(h.surface.material.diffuse)
    requires InUnit(h.surface.material.emission)
    requires h.surface.TexturedRectangle? ==>
      forall k :: 0 <= k < |h.surface.texture.pixels| ==> InUnit(h.surface.texture.pixels[k])
    ensures InUnit(MaterialAt(h).ambient) && InUnit(MaterialAt(h).diffuse) && InUnit(MaterialAt(h).emission)
  {
    if h.surface.TexturedRectangle? {
      var m := h.surface.material;
      ProductInUnit(m.ambient, Texel(h));
      ProductInUnit(m.diffuse, Texel(h));
      ProductInUnit(m.emission, Texel(h));
    }
  }
}
