# A verified model of a Whitted ray tracer

This project models the core of a small recursive (Whitted-style) ray tracer
written in JavaScript on top of THREE.js value types. The modelled parts are:

- the ray (`Ray`: origin and normalized direction, `pointAt`);
- the nearest-hit query over all shapes of the scene (`rayIntersectScene`);
- the three ray/primitive intersection routines (`Plane.intersect`,
  `Sphere.intersect`, `Triangle.intersect`) and the `Intersection` record they fill;
- mirror reflection (`reflect`) and refraction with total internal reflection (`refract`);
- per-light shading with shadow rays and an optional specular term (`shading`);
- the recursive tracer with its depth bound and its reflective and transmissive branches (`raytracing`);
- point lights, spot lights, and the area light built as an Ns × Ns grid of point lights
  (`PointLight.getLight`, `SpotLight.getLight`, `createAreaLight`).

Arithmetic is over exact reals. Vectors and colours are real triples (`Vectors.Vec3`,
`Vectors.Color`); a 3×3 matrix is stored by its rows (`Vectors.Mat3`).

Some library calls have no exact real counterpart: `Math.sqrt`, `Math.cos`, `**`, a division
whose divisor may be zero, and `Matrix3.getInverse`. These are the fields of a
`Vectors.Numerics` value, which every operation that needs them takes as a parameter.
`Numerics.Valid` states the only facts the proofs use:

- `sqrt` is the non-negative square root of a non-negative number;
- `divide` is exact division by a non-zero divisor;
- `inverse` is the two-sided inverse of a nonsingular matrix.

Lemmas that need these facts require `m.Valid()`. The operations themselves do not,
because the source does not restrict its inputs.

The form follows the source:

- The intersection routines, `reflect`, `refract` and the two `getLight` methods compute on
  clones and return fresh values. They are functions.
- `Ray` and `Intersection` are classes, because the tracer changes their fields in place:
  `raytracing` negates `ray.d`, and `rayIntersectScene` overwrites the first hit record with
  `Intersection.set`.
- `rayIntersectScene`, `shading` and `raytracing` are methods with loops or recursion. Each is
  proved against a specification function (`NearestHit`, `Shade`, `Trace`) whose properties
  are proved as lemmas.
- `createAreaLight` scales the caller's colour object in place and appends to the global
  light list. Both are small classes (`ColorRef`, `LightList`) that its nested loops modify.
- The scene globals read by the tracer become one value, `Tracer.Scene`: `shapes`, `lights`,
  `ambientLight`, `backgroundColor` and `maxDepth`.

Modules, in dependency order:

- `RealFacts` holds small lemmas of real arithmetic.
- `Vectors` holds the value types and `Numerics`.
- `Rays`, `Shapes`, `SceneQuery`, `Lights` and `Tracer` follow the program's own structure.

## Model

| member | source | states |
|---|---|---|
| Rays.Ray.constructor | raytracer.js:6-10 | the new ray keeps the given origin and stores the normalized direction |
| Rays.Ray.PointAt | raytracer.js:11-16 | the point at parameter t is exactly t·d away from the origin; the ray is only read, so o and d are unchanged |
| Rays.Ray.NegateDirection | raytracer.js:69 | `ray.d.negate()` flips the caller's direction in place, keeps the origin and returns the flipped direction |
| Rays.PointOnOffset | raytracer.js:11-16 | o + t·d differs from o by t·d, so along a unit direction its squared distance from o is t² |
| Vectors.NormalizeUnit | raytracer.js:9 | normalizing a non-zero vector gives a unit vector that is a positive multiple of it |
| Vectors.NormalizeOfUnit | raytracer.js:173 | normalizing a vector that already has unit length leaves it unchanged |
| Shapes.Intersection.constructor | shape.js:8-13 | a fresh record has t = 0, zero position and normal, and no material |
| Shapes.Intersection.Set | shape.js:14-19 | after `set(h)` the record holds exactly h's t, position, normal and material; only this record may change |
| Shapes.NewPlaneUnitNormal | shape.js:27-32 | a plane built from a non-zero normal keeps P0 and stores a unit normal pointing the same way as the given one |
| Shapes.PlaneIntersect | shape.js:35-52 | no hit exactly when d·n = 0 or the crossing (P0−O)·n/(d·n) is outside the closed range [tmin, tmax]; a hit has that t, its position is o + t·d and lies on the plane, and it carries the plane's normal and material |
| Shapes.PlaneCrossingOnPlane | shape.js:42-48 | for a ray not parallel to the plane, the crossing parameter puts the point on the plane, and it is the only parameter that does |
| Shapes.PlaneHitIff | shape.js:35-52 | a plane reports a hit at s if and only if the ray is not parallel to it, o + s·d is on the plane, and tmin ≤ s ≤ tmax |
| Shapes.SphereIntersect | shape.js:66-96 | no hit when the discriminant B² − 4C is negative; a hit is one of the two roots and lies strictly inside (tmin, tmax); its position is o + t·d and its normal is the normalized vector from the centre to that point |
| Shapes.OnSphereIffRoot | shape.js:70-73 | along a unit direction, o + t·d is on the sphere if and only if t solves t² + B·t + C = 0 |
| Shapes.SphereHitOnSurface | shape.js:68-92 | along a unit direction, every reported sphere hit lies on the sphere: ‖O + t·d − C‖² = r² |
| Shapes.SphereNearest | shape.js:77-88 | along a unit direction, whenever some point of the sphere lies at a parameter strictly inside (tmin, tmax), the sphere reports a hit no farther along the ray than that point |
| Shapes.TriangleSolve | shape.js:120-132 | the hand-written product of the inverse's column-major elements with P2 − O is the transpose of the inverse applied to P2 − O |
| Shapes.TriangleIntersect | shape.js:118-155 | a hit is reported if and only if tmin ≤ t ≤ tmax, t ≥ 0, α ≥ 0, β ≥ 0 and γ = 1 − α − β ≥ 0; the hit has the solved t, position o + t·d and the triangle's material |
| Shapes.TriangleBarycentric | shape.js:120-136 | for a nonsingular system, the point at the solved t is the barycentric combination α·P0 + β·P1 + γ·P2 of the solved weights |
| Shapes.TriangleSolveUnique | shape.js:120-136 | for a nonsingular system, any (t, α, β) that reaches o + t·d as α·P0 + β·P1 + γ·P2 is exactly the solved triple |
| Shapes.TriangleNormalChoice | shape.js:143-151 | a triangle hit's normal is the normalized interpolation α·n0 + β·n1 + γ·n2 when all three vertex normals exist, and the normalized (P2 − P0) × (P2 − P1) otherwise |
| Shapes.Intersect | raytracer.js:138 | whatever the shape, a hit lies in the closed range [tmin, tmax], sits at o + t·d and carries the shape's material |
| Shapes.IntersectShrink | raytracer.js:138-140 | lowering the upper bound of a query keeps any hit that lies below the new bound |
| Shapes.SphereStrict | shape.js:80-85 | a sphere never reports a hit at exactly tmax |
| Shapes.PlaneInclusive | shape.js:42-45 | a plane crossed at exactly tmax is reported at tmax |
| Shapes.TriangleInclusive | shape.js:137-139 | a triangle whose solved t is exactly tmax, with weights inside the triangle, is reported at tmax |
| Shapes.IntersectGrow | raytracer.js:138-140 | raising the upper bound of a query keeps a reported hit unchanged; for a sphere this holds because the smaller root was rejected for lying at or below tmin |
| SceneQuery.Scan | raytracer.js:135-144 | after any number of shapes the bound is at most Number.MAX_VALUE; it is still MAX_VALUE while no hit is kept; a kept hit sits exactly at the bound, at or above 0.0001 |
| SceneQuery.RayIntersectScene | raytracer.js:134-146 | returns null exactly when the scan keeps no hit; otherwise the returned record holds the kept hit |
| SceneQuery.ScanNoneIff | raytracer.js:135-144 | after k shapes no hit is kept if and only if none of the first k shapes reports a hit over the whole range [0.0001, MAX_VALUE] |
| SceneQuery.NearestHitNoneIff | raytracer.js:134-146 | the query returns null if and only if no shape of the scene reports a hit |
| SceneQuery.ScanBoundMonotone | raytracer.js:137-143 | tmax never increases from one iteration to a later one |
| SceneQuery.NearestHitAtBound | raytracer.js:140 | the returned hit's t equals the final tmax, and it is at least 0.0001 |
| SceneQuery.ScanNearest | raytracer.js:137-143 | once shape i has been tried, a hit is kept and the bound is no larger than shape i's own hit over the whole range |
| SceneQuery.NearestHitIsNearest | raytracer.js:134-146 | no shape reports a hit over the whole range at a smaller t than the returned hit |
| SceneQuery.ScanKeepsShapeHit | raytracer.js:137-143 | the hit kept after k shapes is exactly the hit one of those shapes reported, under the bound current when it was tried |
| SceneQuery.NearestHitIsShapeHit | raytracer.js:134-146 | the returned hit is the hit some shape of the scene reports over the whole range, so its t, position, normal and material are that shape's; with NearestHitIsNearest it is the nearest hit of the scene |
| SceneQuery.SphereTieKeeps | shape.js:80-85 | when a sphere tried after a hit at T leaves the bound at T, the kept hit is unchanged: a sphere never replaces an equal-t hit |
| SceneQuery.PlaneTieReplaces | shape.js:43-51 | a plane tried after a hit at T, which the ray crosses exactly at T, replaces the kept hit with its own normal and material at the same t |
| SceneQuery.TriangleTieReplaces | shape.js:137-152 | a triangle tried after a hit at T, whose solved t is exactly T with weights inside the triangle, replaces the kept hit with its own hit and material at the same t |
| Tracer.ReflectProperties | raytracer.js:149-155 | about a unit normal, reflection keeps the normal component (n·r = n·l) and the length, and reflecting twice gives back l |
| Tracer.RefractNoneIff | raytracer.js:158-162 | refract returns null if and only if mu²·(1 − (l·n)²) > 1, with mu = 1/ior when n·l < 0 and mu = ior otherwise |
| Tracer.RefractCosSquared | raytracer.js:160-164 | for unit l and n without total internal reflection, cosR² = 1 − mu²·(1 − cosI²) |
| Tracer.RefractUnit | raytracer.js:163-173 | for unit l and n without total internal reflection, the unnormalized refracted direction already has unit length, so the final normalize leaves it unchanged |
| Tracer.RefractSnell | raytracer.js:163-172 | about a unit normal, the refracted direction's tangential part is mu times l's, and its normal part is cosR, with the sign of cosI chosen by the two coefficient branches |
| Tracer.Shading | raytracer.js:98-130 | the loop's colour is the sum, light by light in order, of each light's contribution to the hit (`Shade`) |
| Tracer.ShadeLight | raytracer.js:102-125 | one pass of the loop adds exactly that light's contribution: nothing when the shadow ray is blocked, else diffuse plus specular when ks exists |
| Tracer.BlockedLightAddsNothing | raytracer.js:102-108 | a light whose shadow query hits at t < distToLight adds nothing |
| Tracer.UnblockedLightTerm | raytracer.js:109-125 | an unblocked light adds its diffuse term, whose factor max(n·l, 0) is never negative, plus the specular term ks·max(r·v, 0)^p only when ks is non-null |
| Tracer.DiffuseNonNegative | raytracer.js:114 | with non-negative light intensity and kd, the diffuse part of a light's term is non-negative in every channel |
| Tracer.Raytracing | raytracer.js:61-95 | the returned colour is `Trace` of the ray as it was on entry; the ray keeps its origin, and its direction ends as `DirectionAfter` says: negated in place once by each branch that runs; every recursive call is made below maxDepth with depth + 1, so maxDepth − depth bounds the recursion |
| Tracer.ReflectBranch | raytracer.js:68-72 | the reflective branch negates the caller's direction and returns kr times the colour of the mirrored ray from the hit point, traced one level deeper |
| Tracer.TransmitBranch | raytracer.js:73-80 | the transmissive branch negates the caller's (possibly already negated) direction, and returns kt times the colour of the refracted ray, or black under total internal reflection |
| Tracer.TraceMiss | raytracer.js:91-93 | a ray that hits nothing takes backgroundColor unchanged |
| Tracer.TraceLocal | raytracer.js:83-88 | a hit on a material with neither kr nor kt gives ambientLight⊙ka plus the shading of all lights |
| Tracer.TraceDepthCutoff | raytracer.js:66-67 | at or beyond maxDepth, a hit on a reflective or transmissive material is black |
| Tracer.TraceMirror | raytracer.js:68-72 | below maxDepth, a purely reflective hit is kr times the colour of the mirrored ray from the hit point, traced at depth + 1 |
| Tracer.TraceBranches | raytracer.js:66-81 | below maxDepth, a reflective or transmissive hit is the sum of its reflected and transmitted contributions |
| Tracer.DirectionAfterCases | raytracer.js:67-80 | after raytracing, the caller's direction is unchanged on a miss, at the depth limit or on a local hit; it is negated when exactly one of kr and kt exists, and back to the original when both do |
| Lights.GetLight | light.js:23-65 | a light's sample is always placed at the light: its position for a point light, `from` for a spot light |
| Lights.PointFalloff | light.js:23-32 | away from the light, the sample is at the light's position and its direction is the unit vector from the shading point to the light; its intensity is the light's intensity divided by the squared distance, and multiplying back by that distance restores it |
| Lights.SpotOutsideCone | light.js:56-63 | unless cos α > cos(cutoff·π/180/2), a spot light sends black |
| Lights.SpotInsideCone | light.js:56-59 | inside the cone, the intensity is the light's intensity times cos α^exponent divided by ‖from − shadingPoint‖² |
| Lights.SpotGeometry | light.js:50-55 | inside the cone or not, the sample sits at `from`, its direction is the unit vector from the shading point towards `from`, and cos α lies in [−1, 1], also for a spot aimed at its own position |
| Lights.CreateAreaLight | light.js:69-77 | the caller's intensity is scaled in place by size²/Ns/Ns, and the light list ends up as its old entries, unchanged, followed by the Ns × Ns grid carrying that scaled intensity |
| Lights.AreaLightLayout | light.js:71-75 | the grid has Ns² lights (none when Ns ≤ 0); the one at offset j·Ns + i is at (center.x + (i/Ns − 0.5)·size, center.y, center.z + (j/Ns − 0.5)·size), with j the outer loop |
| Lights.AreaLightPower | light.js:70-76 | the Ns² samples together carry size² times the intensity the caller passed in |

## Left out

- `render`, `setPixelColor` and `pixelProcess` are left out. They cover the canvas, chunked
  `setTimeout` scheduling, and exposure, clamping and gamma into the pixel buffer, which is
  display I/O.
- `camera.getCameraRay` is not part of this model; it is where the primary rays come from.
- `shapeLoadOBJ` is left out. It loads a mesh through a callback into a library that is not
  part of this model.
- Floating point is left out. All arithmetic is exact, so IEEE rounding, NaN, Infinity and
  epsilon effects are not modelled. `Number.MAX_VALUE` is written out as its exact value.
- `Math.sqrt`, `Math.cos` and `**` are modelled only through the facts in `Numerics.Valid`.
  Nothing is assumed about `cos` or `pow`.
- Division where the divisor may be zero is left open:
  - `1/lengthSq` when the shading point is the light's position;
  - `1/ior`;
  - `size*size/Ns/Ns` when Ns is 0;
  - the spot light's `cos^exponent / lengthSq` when the shading point is the spot's `from`.
  These go through `Numerics.divide`, whose value at a zero divisor is unspecified (JavaScript
  gives Infinity or NaN there).
- `Matrix3.getInverse` on a singular matrix is left out. `Shapes.TriangleBarycentric` and
  `Shapes.TriangleSolveUnique` require a non-zero determinant. The acceptance, normal and tie
  lemmas (`Shapes.TriangleIntersect`, `Shapes.TriangleNormalChoice`, `Shapes.TriangleInclusive`,
  `SceneQuery.TriangleTieReplaces`) hold on whatever `inverse` returns.
- Object sharing is not modelled, because all vector, colour and material values are
  immutable values:
  - `Intersection.set` shares the position and normal objects of its argument;
  - `rayIntersectScene` returns the first hit object itself and then overwrites it, where the
    model stores the first hit in a new record through the same `Set`.
  The source never mutates these objects afterwards (it clones before changing them), so the
  results are the same.
- Light objects are values, so `getLight` cannot change the light. This matches the source,
  which works on clones.
- `LightSample` is a datatype rather than a class with null fields, because `getLight`
  always fills all three fields.
- `Ns` in `createAreaLight` is modelled as an integer. A fractional `Ns` makes the JavaScript
  loops run ⌈Ns⌉ times, which is not modelled.
- The double negation of `ray.d` in `raytracing` is modelled as written:
  - when a material has both kr and kt, `refract` receives the original direction d;
  - when it has kt alone, `refract` receives −d.
  `Tracer.TransmitFrom` names that choice, and `Tracer.DirectionAfterCases` states the
  direction the caller is left with. By `Tracer.RefractSnell`, the normal part of refract's
  result is signed like l·n. So with kt alone the refracted ray heads back to the side the
  ray came from, while with both kr and kt it continues through the surface. The model keeps
  both behaviours as the code has them.
- Tracer.RefractUnit, Tracer.RefractSnell: these hold for unit l and n. The tracer always
  passes normalized directions, but the model only proves the unit-length facts under that
  precondition.
