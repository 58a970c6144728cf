/**
  Geometric and colour value types of the ray tracer and their componentwise
  algebra. The source computes in single-precision floats; here every scalar
  is an exact `real`, so the equality tests of the source are exact equalities.
 */
module Primitives {

  import opened RealArith

  /** The tolerance used against self-intersection and for rectangle bounds. */
  const EPSILON: real := 0.01

  datatype Point = Point(x: real, y: real, z: real)

  datatype Vector = Vector(x: real, y: real, z: real)

  datatype Ray = Ray(origin: Point, direction: Vector)

  datatype Color = Color(r: real, g: real, b: real)

  datatype Material = Material(
    ambient: Color,
    diffuse: Color,
    specular: Color,
    refracted: Color,
    emission: Color,
    shininess: real)

  /**
    The two C library routines the core calls. They are left uninterpreted:
    a caller supplies them, and the facts a proof needs about `sqrt` are
    stated by `SqrtAxioms`.
   */
  datatype Libm = Libm(sqrt: real -> real, pow: (real, real) -> real)

  /** An exact square root: a non-negative root whose square is the argument, exactly 0 at 0. */
  ghost predicate SqrtAxioms(lib: Libm)
  {
    && lib.sqrt(0.0) == 0.0
    && forall x :: 0.0 <= x ==> 0.0 <= lib.sqrt(x) && Sq(lib.sqrt(x)) == x
  }

  /** Division; a zero divisor, which IEEE arithmetic turns into an infinity or NaN, gives 0. */
  function Div(a: real, b: real): (q: real)
    ensures b != 0.0 ==> q * b == a
    ensures b == 0.0 ==> q == 0.0
  {
    if b == 0.0 then 0.0 else a / b
  }

  const Zero: Vector := Vector(0.0, 0.0, 0.0)

  /* ---------------- points and vectors ---------------- */

  /** `Point + Vector` (and `Vector + Point`, which computes the same). */
  function Offset(p: Point, v: Vector): Point
  {
    Point(p.x + v.x, p.y + v.y, p.z + v.z)
  }

  /** `Point - Point`, the vector from `q` to `p`. */
  function Sub(p: Point, q: Point): Vector
  {
    Vector(p.x - q.x, p.y - q.y, p.z - q.z)
  }

  function VAdd(u: Vector, v: Vector): Vector
  {
    Vector(u.x + v.x, u.y + v.y, u.z + v.z)
  }

  function VSub(u: Vector, v: Vector): Vector
  {
    Vector(u.x - v.x, u.y - v.y, u.z - v.z)
  }

  /** `a * v` and `v * a`. */
  function Scale(a: real, v: Vector): Vector
  {
    Vector(a * v.x, a * v.y, a * v.z)
  }

  function Dot(u: Vector, v: Vector): real
  {
    u.x * v.x + u.y * v.y + u.z * v.z
  }

  function Cross(u: Vector, v: Vector): Vector
  {
    Vector(u.y * v.z - u.z * v.y,
           u.z * v.x - u.x * v.z,
           u.x * v.y - u.y * v.x)
  }

  function NormSq(v: Vector): real
  {
    Sq(v.x) + Sq(v.y) + Sq(v.z)
  }

  /** A squared length is never negative and is 0 only for the zero vector. */
  lemma NormSqZeroIff(v: Vector)
    ensures 0.0 <= NormSq(v)
    ensures NormSq(v) == 0.0 <==> v == Zero
  {
    SquareNonneg(v.x);
    SquareNonneg(v.y);
    SquareNonneg(v.z);
    if v.x != 0.0 {
      SquarePos(v.x);
    } else if v.y != 0.0 {
      SquarePos(v.y);
    } else if v.z != 0.0 {
      SquarePos(v.z);
    }
  }

  function Norm(lib: Libm, v: Vector): real
  {
    lib.sqrt(NormSq(v))
  }

  /** The unit vector along `v`; the zero vector when the norm is 0. */
  function Normalize(lib: Libm, v: Vector): (u: Vector)
    ensures Norm(lib, v) == 0.0 ==> u == Zero
  {
    var d := Norm(lib, v);
    if d == 0.0 then Zero else Vector(v.x / d, v.y / d, v.z / d)
  }

  /** `Ray::operator()`: the point at parameter `t`. */
  function At(ray: Ray, t: real): (p: Point)
    ensures Sub(p, ray.origin) == Scale(t, ray.direction)
    ensures t == 0.0 ==> p == ray.origin
  {
    Offset(ray.origin, Scale(t, ray.direction))
  }

  lemma DotSymmetric(u: Vector, v: Vector)
    ensures Dot(u, v) == Dot(v, u)
  {
  }

  lemma CrossOrthogonal(u: Vector, v: Vector)
    ensures Dot(Cross(u, v), u) == 0.0
    ensures Dot(Cross(u, v), v) == 0.0
  {
  }

  /** With an exact square root, a vector normalizes to zero exactly when it is zero. */
  lemma NormalizeZeroIff(lib: Libm, v: Vector)
    requires SqrtAxioms(lib)
    ensures Normalize(lib, v) == Zero <==> v == Zero
  {
    if v != Zero {
      NormalizeUnit(lib, v);
      NormSqZeroIff(Normalize(lib, v));
    }
  }

  /** With an exact square root, normalizing a non-zero vector gives unit length. */
  lemma NormalizeUnit(lib: Libm, v: Vector)
    requires SqrtAxioms(lib)
    requires v != Zero
    ensures NormSq(Normalize(lib, v)) == 1.0
  {
    NormSqZeroIff(v);
    var d := lib.sqrt(NormSq(v));
    assert Sq(d) == NormSq(v);
    assert d != 0.0;
    ScaledNormSq(v, d);
    CancelToOne(NormSq(Vector(v.x / d, v.y / d, v.z / d)), Sq(d), NormSq(v));
  }

  lemma ScaledNormSq(v: Vector, d: real)
    requires d != 0.0
    ensures NormSq(Vector(v.x / d, v.y / d, v.z / d)) * Sq(d) == NormSq(v)
  {
    DivSquare(v.x, d);
    DivSquare(v.y, d);
    DivSquare(v.z, d);
  }

  /**
    Walking `s` further along a ray started at its own point `t` lands where the
    original ray is at `t + s`: the shadow and transmitted rays of the shader,
    which restart at a hit point with the same direction, stay on one line.
   */
  lemma RestartAlongRay(ray: Ray, t: real, s: real)
    ensures At(Ray(At(ray, t), ray.direction), s) == At(ray, t + s)
  {
  }

  /* ---------------- colours ---------------- */

  const Black: Color := Color(0.0, 0.0, 0.0)
  const White: Color := Color(1.0, 1.0, 1.0)

  /** `a * c` and `c * a`. */
  function CScale(a: real, c: Color): Color
  {
    Color(a * c.r, a * c.g, a * c.b)
  }

  /** `c * d` and `c *= d`: the componentwise product. */
  function CMul(c: Color, d: Color): Color
  {
    Color(c.r * d.r, c.g * d.g, c.b * d.b)
  }

  /** `c + d` and `c += d`: the componentwise sum. */
  function CAdd(c: Color, d: Color): Color
  {
    Color(c.r + d.r, c.g + d.g, c.b + d.b)
  }

  /**
    The `isZero` test of the shader: every channel exactly 0. It holds
    exactly for the filters that block every colour, which is why the shader
    skips a light whose shadow factor passes it.
   */
  predicate IsZero(c: Color): (b: bool)
    ensures b <==> forall d :: CMul(d, c) == Black
  {
    assert CMul(White, c) == c;
    c.r == 0.0 && c.g == 0.0 && c.b == 0.0
  }

  predicate InUnit(c: Color)
  {
    0.0 <= c.r <= 1.0 && 0.0 <= c.g <= 1.0 && 0.0 <= c.b <= 1.0
  }

  /** White is the identity of the product and black absorbs it: how a shadow factor acts. */
  lemma ProductIdentityAndZero(c: Color)
    ensures CMul(c, White) == c && CMul(White, c) == c
    ensures CMul(c, Black) == Black && CMul(Black, c) == Black
    ensures CAdd(Black, c) == c && CAdd(c, Black) == c
  {
  }

  /** The product of two colours with channels in [0, 1] stays in [0, 1]. */
  lemma ProductInUnit(c: Color, d: Color)
    requires InUnit(c) && InUnit(d)
    ensures InUnit(CMul(c, d))
  {
    UnitProduct(c.r, d.r);
    UnitProduct(c.g, d.g);
    UnitProduct(c.b, d.b);
  }

  /** The `CLAMP_FLOAT` macro. */
  function ClampChannel(f: real): (g: real)
    ensures 0.0 <= g <= 1.0
    ensures 0.0 <= f <= 1.0 ==> g == f
    ensures f < 0.0 ==> g == 0.0
    ensures 1.0 < f ==> g == 1.0
  {
    if f < 0.0 then 0.0 else if f > 1.0 then 1.0 else f
  }

  /** `Color::clampThis`. */
  function Clamp(c: Color): (d: Color)
    ensures InUnit(d)
    ensures InUnit(c) ==> d == c
  {
    Color(ClampChannel(c.r), ClampChannel(c.g), ClampChannel(c.b))
  }

  lemma ClampIdempotent(c: Color)
    ensures Clamp(Clamp(c)) == Clamp(c)
  {
  }
}
