# A Whitted-style ray tracer's shading core, in Dafny

This project models the recursive shading and intersection engine of a small
C++ ray tracer. The scene is read-only, so every part except the `loadTexture`
pixel loop (the methods `LoadPixels` and `LoadRow`) is a pure function over
immutable datatypes:

- **Surface hit tests.** A closed `Surface` datatype covers spheres, planes,
  axis-aligned rectangles and textured rectangles. `Intersect` gives an
  optional `Hit`: the ray parameter `t`, the point, and the surface.
- **Closest-hit resolver.** `FirstHit` is `findFirstIntersection`. It scans
  the objects in order, and a later hit replaces the current one only when
  it is strictly nearer.
- **Shadow factor.** `ComputeShadow` and `Shadow` model `computeShadow`. The
  result is white, black, or the refracted colour times the factor further
  along the ray.
- **Shader.** `Trace` is `trace`. It adds up the ambient term, the diffuse
  and specular light of every point light, the reflected and transmitted
  colours one level deeper, and the emission. A ray that hits nothing sees
  the first directional light it points straight at (never a point light),
  or the background.
- **Value algebra and texture sampling.** This covers vector and colour
  operations, clamping, `normalize`, `Ray::operator()`, `Texture::operator()`
  and the pixel loop of `loadTexture`.

Scalars are exact `real`s rather than single-precision floats. The source's
exact equality tests (`== 0`, `== -1`, `isZero`) are therefore exact
equalities. `sqrt` and `pow` are fields of a `Libm` record that the caller
supplies. The facts a proof needs about `sqrt` (a non-negative root whose
square is the argument, and 0 at 0) are the predicate `SqrtAxioms`, which appears only in
lemma preconditions.

`computeShadow` tests its depth argument but never returns on that test. The
white it assigns there is always overwritten, so the depth never limits the
recursion. The model keeps this behaviour:

- `ComputeShadow` carries an explicit fuel count.
- `ComputeShadow`'s contract proves that `ShadowFuel(lightT)` levels always
  suffice for a non-negative distance to the light. Each hit lies at least
  `EPSILON` along the ray, and the remaining distance shrinks by the hit's
  parameter.
- `Shadow` is the total function for that case. The shader always uses it
  with the light at parameter 1.
- `ShadowIgnoresDepth` proves that the depth argument has no effect.

## Model

| member | source | states |
|---|---|---|
| `Primitives.NormSqZeroIff` | src/primitives.cpp:8-11 | a squared length is non-negative and is 0 exactly for the zero vector |
| `Primitives.Normalize` | src/primitives.cpp:18-23 | a vector whose norm is 0 normalizes to the zero vector |
| `Primitives.NormalizeZeroIff` | src/primitives.cpp:13-23 | with an exact square root, `normalize` gives the zero vector exactly for the zero vector |
| `Primitives.NormalizeUnit` | src/primitives.cpp:13-23 | with an exact square root, a non-zero vector normalizes to squared length 1 |
| `Primitives.ScaledNormSq` | src/primitives.cpp:8-22 | dividing every coordinate by `d` divides the squared length by `d^2` |
| `Primitives.At` | src/primitives.cpp:25-35 | `R(t) - origin == t * direction`, so `R(0)` is the origin |
| `Primitives.DotSymmetric` | src/primitives.cpp:79-84 | `dot(u, v) == dot(v, u)` |
| `Primitives.CrossOrthogonal` | src/primitives.cpp:86-91 | `cross(u, v)` has zero dot product with both `u` and `v` |
| `Primitives.RestartAlongRay` | src/primitives.cpp:25-28 | a ray restarted at its own point `R(t)` with the same direction reaches `R(t + s)` at `s` |
| `Primitives.ProductIdentityAndZero` | src/primitives.cpp:139-151 | the colour product has white as its identity and black as its zero; black is the identity of the sum |
| `Primitives.ProductInUnit` | src/primitives.cpp:139-144 | the product of two colours with channels in [0, 1] has channels in [0, 1] |
| `Primitives.IsZero` | src/trace.cpp:64 | the `isZero` test holds exactly for a filter whose product with every colour is black, so a light behind such a shadow factor is blocked whatever its colour |
| `Primitives.ClampChannel` | src/primitives.cpp:120 | the clamped value is in [0, 1]: 0 below 0, 1 above 1, unchanged in between |
| `Primitives.Clamp` | src/primitives.cpp:122-127 | `clampThis` leaves every channel in [0, 1] and leaves a colour already in range unchanged |
| `Primitives.ClampIdempotent` | src/primitives.cpp:120-127 | clamping twice is clamping once |
| `Textures.Trunc` | src/primitives.cpp:193-194 | the `(int)` cast: the floor for non-negative values, the negated floor of the negation otherwise, 0 strictly between -1 and 1 |
| `Textures.TexelCoord` | src/primitives.cpp:193-200 | the clamped texel coordinate is in [0, size); it is the truncated value when that is in range, size-1 above, 0 below |
| `Textures.RowStartProduct` | src/primitives.cpp:173 | the row offset used for `imgIdx` equals `row * width` |
| `Textures.RowStartMono` | src/primitives.cpp:173 | an earlier row's block ends no later than a later row's block starts |
| `Textures.ImageIndexInRange` | src/primitives.cpp:165-173 | `row * width + col` lies in its own row block and inside `[0, width * height)` for in-range row and column |
| `Textures.TexelIndex` | src/primitives.cpp:191-202 | the index `y * width + x` that `Texture::operator()` reads lies in `[0, width * height)` for any `s` and `t` |
| `Textures.Sample` | src/primitives.cpp:191-202 | the sampled colour is one of the texture's pixels, the one at the clamped index |
| `Textures.TexelCoordInside` | src/primitives.cpp:193-198 | for `s` in [0, 1) the texel coordinate is `floor(s * size)`, already in range |
| `Textures.TexelCoordAtOne` | src/primitives.cpp:193-197 | `s == 1` truncates to `size` and the clamp maps it to `size - 1` |
| `Textures.SampleCorners` | src/primitives.cpp:191-202 | parameters (0, 0) sample the first pixel and (1, 1) the last |
| `Textures.FlipRow` | src/primitives.cpp:174 | the mirrored row `height - row - 1` of an in-range row is in range |
| `Textures.FlipRowInvolution` | src/primitives.cpp:169-174 | mirroring twice gives the row back, so the row flip is a bijection of [0, height) |
| `Textures.BufferIndex` | src/primitives.cpp:174-177 | `((height - row - 1) * width + col) * 3` is a multiple of 3 with `bufIdx + 2 < width * height * 3` |
| `Textures.Channel` | src/primitives.cpp:175-177 | a byte divided by 255 is in [0, 1], 0 exactly for byte 0 and 1 exactly for byte 255 |
| `Textures.BufferColor` | src/primitives.cpp:175-177 | the colour read from three buffer bytes has channels in [0, 1] |
| `Textures.LoadPixels` | src/primitives.cpp:165-179 | the pixel loop yields `width * height` colours in [0, 1], the one at `row * width + col` read from the mirrored row of the buffer |
| `Textures.LoadRow` | src/primitives.cpp:171-178 | the inner loop yields `width` colours, the one at `col` read from the mirrored buffer row |
| `Textures.AppendRow` | src/primitives.cpp:169-179 | adding one row after the first `row` rows gives `(row + 1) * width` colours, keeps the earlier rows, puts the new row at its row-major place, and keeps every colour in [0, 1] |
| `Surfaces.PickRoot` | src/scene.cpp:60-74 | a chosen root is at least `EPSILON` and is `t1` or `t2`; none exactly when both are below `EPSILON`; `t1` whenever it is at least `EPSILON`; for `t1 <= t2` the smallest admissible root |
| `Surfaces.SphereIntersect` | src/scene.cpp:34-84 | a negative radicand gives no hit; a hit is at least `EPSILON` and is one of the two quadratic roots |
| `Surfaces.QuadRoot` | src/scene.cpp:47-58 | a value with `t * a == -b +/- s`, where `s^2` is the radicand, solves `a t^2 + 2 b t + c = 0` |
| `Surfaces.RootsSolve` | src/scene.cpp:56-58 | both `t1` and `t2` solve the sphere's quadratic when the radicand is non-negative |
| `Surfaces.SquareAlong` | src/scene.cpp:43-48 | the square of `p + t d` expands to `p^2 + 2 t d p + t^2 d^2` |
| `Surfaces.OnSphereIffRoot` | src/scene.cpp:38-48 | the ray's point at `t` is on the sphere exactly when `t` solves the quadratic built from `normD`, `dotDP` and `normP - r*r` |
| `Surfaces.SphereHitOnSurface` | src/scene.cpp:34-84 | for a non-zero direction, a reported hit lies on the sphere |
| `Surfaces.RootsOrdered` | src/scene.cpp:56-58 | for a non-zero direction `t1 <= t2` |
| `Surfaces.SolvableRadical` | src/scene.cpp:47-54 | a parameter solving the sphere's quadratic makes the radicand non-negative, so the `rad < 0` early return only rejects rays that never meet the sphere |
| `Surfaces.RootIsLowOrHigh` | src/scene.cpp:47-58 | any solution of the quadratic makes the radicand non-negative and equals `t1` or `t2` |
| `Surfaces.SphereNearest` | src/scene.cpp:47-74 | if the ray meets the sphere at any parameter of at least `EPSILON`, a hit is reported no farther than that parameter |
| `Surfaces.SphereNormal` | src/scene.cpp:8-18 | for a non-zero radius, radius times the normal is `point - center` |
| `Surfaces.SphereNormalUnit` | src/scene.cpp:8-18 | at a hit of a sphere with non-zero radius the normal has squared length 1 |
| `Surfaces.PlaneIntersect` | src/scene.cpp:110-135 | a ray parallel to the plane (`dot(D, N) == 0`) misses; a hit is at least `EPSILON` |
| `Surfaces.OnPlaneIff` | src/scene.cpp:118-124 | the ray's point at `t` is on the plane exactly when `t * dot(D, N) == dot(P - L, N)` |
| `Surfaces.PlaneHitIff` | src/scene.cpp:110-135 | `t` is reported exactly when the ray is not parallel, `t >= EPSILON`, and `dot(R(t) - P, N) == 0` |
| `Surfaces.PlaneNormalFlip` | src/scene.cpp:118-127 | negating the plane's normal does not change the result |
| `Surfaces.RectangleIntersect` | src/scene.cpp:167-204 | a hit lies in the box widened by `EPSILON` and is the hit of the plane through the corner `(xMax, yMax, zMax)` |
| `Surfaces.RectangleHitIff` | src/scene.cpp:167-204 | `t` is reported exactly when the corner plane is met at `t >= EPSILON` by a non-parallel ray inside the widened box |
| `Surfaces.RectangleRejectsOutside` | src/scene.cpp:189-196 | a plane hit outside the widened box is rejected |
| `Surfaces.Intersect` | include/scene.h:21-30 | every hit is at least `EPSILON` along the ray, lies at `R(t)`, and records the surface hit |
| `Surfaces.TexturedLikeRectangle` | src/scene.cpp:258-270 | a textured rectangle is hit exactly when the plain rectangle with its box and normal is, at the same `t` and point |
| `Surfaces.Normal` | src/scene.cpp:86-94 | plane, rectangle and textured-rectangle normals are the stored normal (also 141-145, 210-214); a sphere's satisfies radius times normal = point - center (8-18) |
| `Surfaces.ComputeParam` | src/scene.cpp:232-246 | on a selected axis with extent, `min + r * (max - min)` is the point's coordinate; 0 for a degenerate axis or an unknown axis code |
| `Surfaces.ComputeParamUnit` | src/scene.cpp:232-246 | the parameter is 0 at the minimum, 1 at the maximum, and in [0, 1] in between |
| `Surfaces.Texel` | src/scene.cpp:220-222 | the texel a textured hit reads is a pixel of its texture |
| `Surfaces.MaterialAt` | src/scene.cpp:216-228 | specular, refracted and shininess are the stored ones; ambient, diffuse and emission of a textured rectangle are multiplied by the texel; other surfaces return the stored material (20-24, 96-100, 147-151) |
| `Surfaces.WhiteTextureKeepsMaterial` | src/scene.cpp:216-228 | an all-white texture leaves the stored material unchanged |
| `Surfaces.MaterialInUnit` | src/scene.cpp:220-227 | material and texture colours in [0, 1] give material colours in [0, 1] |
| `Resolver.Nearer` | src/trace.cpp:310-320 | the kept hit is the old or the new one, none only if both are none, no farther than either, and the old one on a tie |
| `Resolver.FirstHit` | src/trace.cpp:299-325 | a resolved hit is at least `EPSILON` along the ray and lies at `R(t)` |
| `Resolver.FirstHitNoneIff` | src/trace.cpp:302-324 | no hit is resolved exactly when every object misses |
| `Resolver.FirstHitNearest` | src/trace.cpp:310-316 | the resolved hit is no farther than any object's hit |
| `Resolver.FirstHitEarliest` | src/trace.cpp:305-324 | the resolved hit is some object's hit, strictly nearer than the hit of every earlier object |
| `Shadows.ShadowFuelShrinks` | src/trace.cpp:271-289 | a hit at least `EPSILON` along the ray and before the light leaves strictly less fuel needed |
| `Shadows.ComputeShadow` | src/trace.cpp:262-297 | for a non-negative distance to the light, `ShadowFuel(lightT)` levels of recursion always reach a result |
| `Shadows.NegativeDistanceOccludes` | src/trace.cpp:271-293 | with a negative distance to the light, a ray meeting nothing gets white, an opaque first hit gives black, and a transparent hit gives its refracted colour times the factor from the hit point, computed with a still more negative distance |
| `Shadows.FuelMonotone` | src/trace.cpp:262-297 | more fuel never changes a result already reached |
| `Shadows.DepthIrrelevant` | src/trace.cpp:264-289 | the result does not depend on the depth argument, at any fuel |
| `Shadows.Shadow` | src/trace.cpp:262-297 | the shadow factor is what the recursion gives with any fuel from `ShadowFuel(lightT)` up |
| `Shadows.ShadowCases` | src/trace.cpp:269-293 | white on no hit or a hit beyond the light; black behind an opaque hit; else the factor from the hit point with `lightT - t`, times the refracted colour |
| `Shadows.ShadowIgnoresDepth` | src/trace.cpp:264-293 | the shadow factor is the same for every depth argument |
| `Shadows.HitRefractedInUnit` | src/trace.cpp:269-283 | with every object's refracted colour in [0, 1], the refracted colour of the nearest hit is in [0, 1] |
| `Shadows.ComputeShadowInUnit` | src/trace.cpp:283-293 | with every refracted colour in [0, 1], any result reached is in [0, 1] |
| `Shadows.ShadowInUnit` | src/trace.cpp:283-293 | with every refracted colour in [0, 1], the shadow factor is in [0, 1] |
| `Shading.PointLightStep` | src/trace.cpp:92-110 | one scan step keeps the current state or takes the light's colour |
| `Shading.PointLightScan` | src/trace.cpp:86-111 | the scan ends on its starting state or on some point light's colour, and its parameter never grows |
| `Shading.PointLightScanNeverMatches` | src/trace.cpp:86-111 | starting from `closestPoint <= EPSILON` (the source starts at -1), no point light is ever accepted |
| `Shading.MissColor` | src/trace.cpp:80-136 | a ray hitting nothing gets some directional light's colour or the background, never a point light's; `MissColorIgnoresPointLights` says which |
| `Shading.DirectionalMatch` | src/trace.cpp:120-131 | none exactly when no light has `dot == -1`; otherwise the colour of the first light with `dot == -1` |
| `Shading.MissColorIgnoresPointLights` | src/trace.cpp:86-135 | a ray hitting nothing sees the first directional light it points straight at, else the background |
| `Shading.ShadowRay` | src/trace.cpp:186-190 | the shadow ray starts at the hit point and reaches the light at parameter 1 |
| `Shading.LightStep` | src/trace.cpp:177-209 | a light the surface faces away from adds nothing; a non-diffuse material gets no diffuse term and a non-specular one no specular term |
| `Shading.ShadowedTermVanishes` | src/trace.cpp:192-209 | skipping a light whose shadow factor is zero equals adding its diffuse or specular term filtered by that factor |
| `Shading.LightSums` | src/trace.cpp:174-210 | a material without diffuse colour never changes the diffuse sum, and one without specular colour never changes the specular sum |
| `Shading.InertLightAddsNothing` | src/trace.cpp:179-194 | a light facing away or fully shadowed leaves both sums unchanged |
| `Shading.RemoveInertLight` | src/trace.cpp:174-210 | removing such a light from anywhere in the list leaves the sums unchanged |
| `Shading.AllInertAddNothing` | src/trace.cpp:174-210 | when every light faces away or is fully shadowed the sums stay at their start |
| `Shading.LocalColor` | src/trace.cpp:167-215 | the local term is black without point lights and for a material with neither diffuse nor specular colour |
| `Shading.ShadowedHitHasNoLocalTerm` | src/trace.cpp:167-215 | when every point light faces away or is fully shadowed, the local diffuse and specular term is black |
| `Shading.ReflectedRay` | src/trace.cpp:224-227 | the mirror ray starts at the hit point; about a unit normal it makes the same angle with the normal as the incoming vector (equal dot products) and keeps the squared length of the direction |
| `Shading.TransmittedRay` | src/trace.cpp:244-246 | the transmitted ray starts at the hit point, and for a hit at `R(t)` it reaches the incoming ray's `R(t + s)` at parameter `s`: it continues the same line |
| `Shading.ShadeHit` | src/trace.cpp:142-256 | a matte hit is ambient times ambient light plus emission, whatever the lights and secondary colours; `ShadeHitUsesOnlyItsTerms` gives when the secondary colours matter |
| `Shading.ShadeHitUsesOnlyItsTerms` | src/trace.cpp:221-254 | the reflected colour only matters for a specular material and the transmitted one only for a refracting one |
| `Shading.Trace` | src/trace.cpp:66-259 | a ray with depth left that hits nothing sees a directional light or the background; `TraceExhausted`, `TraceMiss`, `TraceMatte` and `TraceDepthOne` characterize the other cases |
| `Shading.TraceExhausted` | src/trace.cpp:68-72 | with `maxDepth <= 0` any ray in any scene gets the background colour |
| `Shading.TraceMiss` | src/trace.cpp:80-136 | a ray that hits nothing gets the first directional light with `dot == -1`, else the background |
| `Shading.TraceMatte` | src/trace.cpp:150-256 | a hit on a material with zero diffuse, specular and refracted colour is `ambient * ambientLight + emission` |
| `Shading.TraceDepthOne` | src/trace.cpp:221-254 | at depth 1 the reflected and transmitted rays, traced with `maxDepth - 1`, see the background |

## Left out

- Floating point: scalars are exact reals. Rounding, infinities, NaN and the
  `(int)` cast of non-finite values are not modelled.
- Division by zero: the model divides by a zero divisor with `Div`, which
  gives 0, where IEEE arithmetic gives an infinity or NaN.
  - A sphere tested with a zero direction vector gives NaN roots in the
    source. The source accepts the NaN hit; the model reports no hit.
  - A sphere of radius 0 has a NaN or infinite normal in the source; the
    model's is the zero vector.
  - On a degenerate axis the source's `computeParam` gives NaN or infinity;
    the model gives 0.
  - For a ray with zero x direction, the point-light solve gives an
    infinite or NaN parameter in the source; the model gives 0. This can
    never change the result, because the guard never passes.
- `sqrt` and `pow` are supplied by the caller. Only `sqrt` has stated
  properties, and only lemmas assume them.
- `Shadows.ComputeShadow`: with a negative distance to the light the source
  treats every hit as an occluder, since its "beyond the light" test asks for
  a non-negative distance. It recurses through transparent hits until the ray
  escapes the scene (white) or meets an opaque object (black). The model proves nothing
  about how much fuel that needs. The shader never passes a negative
  distance.
- Unsigned 32-bit and `int` overflow of `width * height`, the buffer
  indices and the texel index is not modelled: all integers are unbounded.
- The PNG decoder, its error path and `exit(1)` in `loadTexture` are not
  modelled, and neither is output writing. `LoadPixels` takes the decoded
  buffer and its size as inputs.
- src/raytrace.cpp (`main` and the demo scene) is not part of this model.
- The pixel and anti-aliasing loop of `drawScene` is not part of this model.
  Its buffer index `((height - y - 1) * width + x) * 3` is the formula that
  `Textures.BufferIndex` bounds.
- The view-plane fields of `Scene` are carried but unused, since only
  `drawScene` reads them.
- Allocation and deletion of intersection objects are replaced by `Option`
  values.
- The commented-out cylinder is not modelled.
- `Texture::operator()` checks nothing about its texture. The `Image` type
  asks for at least one texel and `width * height` pixels, which is what
  `loadTexture` always produces, so no texture the source builds is excluded.
