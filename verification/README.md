# Ray tracer core in Dafny

A Dafny model of the core of a small recursive ray tracer written in Rust. It covers:

- the `Vec3` arithmetic and quadratic solver (`src/vec3.rs`);
- the three solids (`src/solids/sphere.rs`, `triangle.rs`, `rectangle.rs`);
- the scene object record (`src/solids/mod.rs`);
- the tracer and the two render loops (`src/lib.rs`). The tracer covers the nearest-hit scan, the inside/outside normal flip, the reflection and refraction recursion with its depth guard, point lights with shadow rays, and the final clamp. The render loops are the adaptive row fill of `render` and the edge detection of `render_wireframe`.

Modules follow the source files:

| module | file | source |
|---|---|---|
| `Optional` | `option.dfy` | Rust's `Option` |
| `Vectors` | `vec3.dfy` | `vec3.rs` |
| `Spheres` | `sphere.dfy` | `sphere.rs` |
| `Triangles` | `triangle.dfy` | `triangle.rs` |
| `Rectangles` | `rectangle.dfy` | `rectangle.rs` |
| `Solids` | `solids.dfy` | `mod.rs` |
| `Tracer` | `tracer.dfy` | `lib.rs`: `mix`, `trace`, `get_hit_object_id` |
| `Renderer` | `renderer.dfy` | `lib.rs`: `render`, `render_wireframe`, `get_xx`, `get_yy` |

Modelling choices:

- **Arithmetic.** `f64` is modelled as exact `real` arithmetic.
- **Square root.** The square root is a parameter `sqrt: real -> real`. Every member that needs it requires `IsSqrt(sqrt)`: for every `x >= 0`, `sqrt(x)` is the non-negative root of `x`. On negative arguments it is unconstrained, which stands for the NaN `f64::sqrt` returns there.
- **The `Solid` trait.** The trait object becomes the tagged union `Solids.Solid`.
- **"No hit".** The `f64::MAX` sentinel of the hit scans becomes `Option`.

## Model

| member | source | states |
|---|---|---|
| Vectors.LenSqrLaws | src/vec3.rs:36-38 | the squared length is never negative and is zero exactly for the zero vector |
| Vectors.AddSubLaws | src/vec3.rs:76-88 | `+` and `-` are mutually inverse, zero is neutral, `a - a` is zero, `0 - a` is `-a` |
| Vectors.NegLaws | src/vec3.rs:62-67 | negation is an involution, equals scaling by -1 and keeps the length |
| Vectors.NegFixesOnlyZero | src/vec3.rs:62-67 | only the zero vector is its own negation |
| Vectors.ScaleLaws | src/vec3.rs:69-74 | scalar `*`: 1 is neutral, 0 annihilates, scaling composes multiplicatively and distributes over `+` |
| Vectors.MulUniform | src/vec3.rs:90-95 | componentwise `*` by a uniform vector (k, k, k) is scalar `*` by k, and by zero gives zero |
| Vectors.DotLaws | src/vec3.rs:57-59 | `dot` is symmetric, `v . v` is the squared length, and negating one side negates it |
| Vectors.DotScale | src/vec3.rs:57-59 | scaling one side of `dot` scales the product |
| Vectors.LenSqrScale | src/vec3.rs:36-38 | scaling by k multiplies the squared length by k squared |
| Vectors.CrossLaws | src/solids/triangle.rs:17 | the cross product is perpendicular to both factors, anti-commutative, and zero on equal factors |
| Vectors.NormalizeLaws | src/vec3.rs:46-55 | a zero vector is left unchanged; any other becomes a unit vector in the same direction, which scaled by the old length gives the input back |
| Vectors.NormalizeNonZero | src/vec3.rs:46-55 | normalising maps zero to zero and every non-zero vector to a unit vector with the same direction |
| Vectors.NormalizeScaleBack | src/vec3.rs:42-55 | for every vector, `normalize` scaled by `len` gives the vector back |
| Vectors.SolveQuadratic | src/vec3.rs:97-108 | `None` exactly when the discriminant is negative; otherwise both returned values are roots, the first being the one with 2ax + b = -√Δ and the second the one with 2ax + b = +√Δ, so the smaller comes first when a > 0 and the larger when a < 0 |
| Vectors.QuadraticRootsComplete | src/vec3.rs:97-108 | every root of the equation is one of the two values returned |
| Vectors.QuadraticExample | src/vec3.rs:110-117 | x² + x - 20 has the roots (-5, 4), in that order |
| Spheres.NewSphere | src/solids/sphere.rs:11-13 | the sphere keeps its centre and radius and caches the squared radius, which is never negative |
| Spheres.Intersect | src/solids/sphere.rs:17-30 | a miss when the centre lies behind the ray or the ray passes farther than the radius, a hit otherwise; a hit is never negative and is the near chord end when that is in front, else the far one |
| Spheres.IntersectOnSurface | src/solids/sphere.rs:17-30 | for a unit direction, a reported hit is a point on the sphere |
| Spheres.IntersectIsNearest | src/solids/sphere.rs:17-30 | for a unit direction, no surface point in front of the origin is nearer than the reported hit |
| Spheres.IntersectFindsSurface | src/solids/sphere.rs:17-30 | for a unit direction, when the centre is not behind the origin and the ray meets the surface anywhere, a hit is reported |
| Spheres.HeadOnHit | src/solids/sphere.rs:17-30 | a ray aimed at the centre from outside hits at distance minus radius |
| Spheres.IntersectExampleMiss | src/solids/sphere.rs:20-22 | a ray from the origin along +x misses the sphere of radius 4 centred at (0, 0, -20) |
| Spheres.InsideOriginHeadingOutIsMissed | src/solids/sphere.rs:20 | a ray from (0, 0, 1) along +z, inside the sphere of radius 2 at the origin, crosses the surface at t = 1 yet is reported as a miss, because the centre lies behind it |
| Spheres.ExampleSphere | src/solids/sphere.rs:11-13 | the sphere of radius 4 at (0, 0, -20) caches 16 and the sphere of radius 2 at the origin caches 4 |
| Spheres.PositionIsCentre | src/solids/sphere.rs:54 | a constructed sphere's position is the centre it was given, and the normal at any other point points away from it |
| Spheres.NormalAt | src/solids/sphere.rs:56-60 | the normal is the unit vector from the centre to the hit point (zero at the centre) |
| Triangles.NewTriangle | src/solids/triangle.rs:14-19 | corners kept; u and v are the edges from p0; the normal is the normalised `-(u x v)` |
| Triangles.NewTriangleNormal | src/solids/triangle.rs:14-19 | the stored normal is perpendicular to both edges, and is a unit vector unless the triangle is degenerate |
| Triangles.Intersect | src/solids/triangle.rs:26-51 | in terms of the quantities the test computes: a miss when the ray is parallel to the plane within 1e-8 or a computed barycentric coordinate leaves [0, 1]; a hit exactly when the computed coordinates lie in the triangle and the computed parameter exceeds 1e-8, and then the hit is that parameter |
| Triangles.CoordinatesUnique | src/solids/triangle.rs:29-46 | for a ray not parallel to the plane, any plane coordinates (w, z) and parameter p with origin + p·dir = p0 + w·u + z·v are exactly the w, z and t the code computes |
| Triangles.IntersectIffStruck | src/solids/triangle.rs:26-51 | both directions: `intersect` reports p exactly when the ray is not parallel to the plane within 1e-8, p > 1e-8, and origin + p·dir is a point of the closed triangle |
| Triangles.SolvesRaySystem | src/solids/triangle.rs:29-46 | the w, z and t the code computes solve origin + t·dir = p0 + w·u + z·v (Cramer's rule) |
| Triangles.IntersectHitsTriangle | src/solids/triangle.rs:26-51 | a reported hit lies on the closed triangle: barycentric coordinates in range and the point on the plane |
| Triangles.PositionIsCorner | src/solids/triangle.rs:24 | a constructed triangle's position is its first corner, the point with plane coordinates (0, 0) |
| Triangles.NormalAt | src/solids/triangle.rs:54-60 | the normal is flipped exactly when it faces along the ray, so it faces against the ray and keeps its length |
| Rectangles.NewRectangle | src/solids/rectangle.rs:16-21 | corners kept; t0 spans p0, p1, p2 and t1 spans p3, p1, p2 |
| Rectangles.Intersect | src/solids/rectangle.rs:25-30 | t0's hit wins when there is one, otherwise t1's result; a miss exactly when both triangles miss |
| Rectangles.IntersectHitsRectangle | src/solids/rectangle.rs:25-30 | a reported hit is a strike of t0 when t0 reports one, otherwise a strike of t1 |
| Rectangles.StruckIsReported | src/solids/rectangle.rs:25-30 | a ray striking either half is reported; it is reported at the strike on t0 when it strikes t0, and at the strike on t1 when t0 reports nothing |
| Rectangles.PositionIsCorner | src/solids/rectangle.rs:32 | a constructed rectangle's position is its first corner, which is also its first triangle's position |
| Rectangles.NormalAt | src/solids/rectangle.rs:34-36 | the normal is t0's normal, possibly negated, facing against the ray |
| Solids.Intersect | src/solids/mod.rs:23-24 | every solid's hit lies in front of the origin: t >= 0 for spheres, t >= 1e-8 for triangles and rectangles |
| Solids.NormalAtLaws | src/solids/mod.rs:23-26 | flat solids' normals face against the ray; a sphere normal off the centre is a unit vector |
| Solids.NewObject | src/solids/mod.rs:15-20 | the object stores its material and solid and caches the solid's position |
| Solids.NewObjectPosition | src/solids/mod.rs:18 | the cached position is the sphere centre, or the first corner of a triangle or rectangle |
| Tracer.MixLaws | src/lib.rs:15 | `mix` returns a at 0 and b at 1, and lies between a and b for a weight in [0, 1] |
| Tracer.ScanUpTo | src/lib.rs:21-30 | the scan reports only an index it visited, together with that object's hit parameter |
| Tracer.ScanFindsNearest | src/lib.rs:21-30 | the scan reports nothing exactly when no object is hit; otherwise it reports the first object with the smallest parameter |
| Tracer.NearestUnique | src/lib.rs:21-30 | at most one index is the first nearest hit |
| Tracer.GetHitObjectId | src/lib.rs:107-122 | -1 exactly when no object is hit; otherwise the first index with the smallest hit parameter, the same object `trace` shades |
| Tracer.BackgroundIsGradient | src/lib.rs:31-36 | a missed ray gets (0.1, 0.3, 0.5)·(dir·(0,0,-1))²; the normalise-then-rescale leaves it unchanged |
| Tracer.Orient | src/lib.rs:45-48 | the normal is flipped exactly when it faces along the ray, and `inside` records the flip; afterwards it faces against the ray |
| Tracer.OrientLaws | src/lib.rs:45-48 | `inside` holds exactly when the normal was changed, and flipping keeps its length |
| Tracer.ReflectLaws | src/lib.rs:54 | for a unit normal the reflected direction has the opposite normal component |
| Tracer.RefractUnit | src/lib.rs:57-64 | without total internal reflection (k >= 0), a unit direction refracted at a unit normal is a unit vector, entering or leaving |
| Tracer.RefractLength | src/lib.rs:57-64 | Snell's construction eta·d + (eta·c - root)·n, with root² = k, has unit length for any unit d and n: the refracted ray needs no renormalising when total internal reflection does not occur |
| Tracer.RefractHeadOn | src/lib.rs:59-64 | a unit ray meeting the surface head-on (normal = -dir) has k = 1 and passes straight through |
| Tracer.FresnelBounds | src/lib.rs:51-52 | for a facing ratio in [0, 1] the Fresnel weight lies in [0.1, 1] |
| Tracer.FalloffBounds | src/lib.rs:75-78 | the distance fall-off is in (0.7, 1] for every distance |
| Tracer.BlockedIffExists | src/lib.rs:81-88 | the shadow scan is blocked exactly when some object other than the light is hit |
| Tracer.TransmissionZeroIffBlocked | src/lib.rs:78-88 | the transmission is zero exactly when the shadow ray from the biased hit point hits some object other than the light |
| Tracer.BlockedLightIsDark | src/lib.rs:84-90 | a light with zero transmission adds nothing to the surface colour |
| Tracer.DarkSumIsBlack | src/lib.rs:70-92 | summing over the lights, where every light's contribution is zero, gives black |
| Tracer.AllLightsBlockedIsBlack | src/lib.rs:69-93 | if every light is shadowed, the diffuse colour is black |
| Tracer.Clamp | src/lib.rs:98-104 | the result is never longer than 1; colours within the unit ball are kept; longer ones become the unit vector in their direction |
| Tracer.Trace | src/lib.rs:17-105 | the recursion never goes deeper than MAX_DEPTH = 5 when started at or below it, and spawns nothing at or beyond it; every hit colour has length at most 1 |
| Tracer.TraceMiss | src/lib.rs:31-36 | a ray that hits nothing gets the background gradient and spawns no recursion |
| Tracer.TraceOpaque | src/lib.rs:50 | an object that neither reflects nor refracts spawns no recursion |
| Renderer.FillRowAsWritten | src/lib.rs:211-233 | the row loop as written: even pixels up to 2(width/2 - 1) are traced; odd ones are traced or averaged depending on the contrast of their neighbours; the rest stay zero |
| Renderer.FillPair | src/lib.rs:218-232 | one pass of the loop for an even pixel x traces x; pixel x - 1 is traced when x and x - 2 contrast (squared difference above 0.5) and is their average otherwise; no other pixel changes |
| Renderer.LastPixelNeverWritten | src/lib.rs:217 | the last pixel of each row (and the one before it for odd widths) is never written |
| Renderer.WhiteRowEndsBlack | src/lib.rs:217-233 | a scene that is white everywhere renders a row of width 4 whose last pixel is black |
| Renderer.FillRow | src/lib.rs:211-233 | the corrected row fill: every pixel is written; the last pixel is traced |
| Renderer.FillRowCovers | src/lib.rs:211-233 | every pixel of the corrected row is traced, or is an odd interior pixel whose neighbours do not contrast and which holds their average |
| Renderer.FillRowAgrees | src/lib.rs:217-232 | up to the last even pixel the corrected fill agrees with the code as written |
| Renderer.RenderAsWritten | src/lib.rs:195-235 | `render` as written: every row is the row loop as written on that row's colours, so the last column of the image is black |
| Renderer.Render | src/lib.rs:195-235 | the corrected `render`: every row is the corrected row fill, so the last column is traced |
| Renderer.PixelGrid | src/lib.rs:187-193 | `get_xx` and `get_yy` place pixel centres symmetrically about the view axis (column x opposite column width-1-x, row y opposite row height-1-y) and a constant step apart |
| Renderer.FirstRow | src/lib.rs:135-142 | the first pass stores the object id seen through each pixel of row 0 |
| Renderer.FirstColumn | src/lib.rs:145-152 | the second pass stores the id seen through column 0 of every row, at the given column coordinate |
| Renderer.EdgeRow | src/lib.rs:154-168 | row y records every id and marks a pixel white exactly when its id differs from its left or upper neighbour's |
| Renderer.Wireframe | src/lib.rs:124-168 | the three passes give an image where row 0 and column 0 are black, and any other pixel is white exactly when its stored id differs from its left or upper neighbour's |
| Renderer.RenderWireframeAsWritten | src/lib.rs:124-168 | the wireframe as written, with column 0 aimed at the abscissa computed at line 145 |
| Renderer.ColumnAimedIffSquare | src/lib.rs:145 | the abscissa of line 145 equals the true abscissa of pixel 0 exactly when the image is square |
| Renderer.ColumnMisaimedExample | src/lib.rs:137-145 | for a 4×2 image, pixel 0 lies at abscissa -1.5·angle but column 0 is traced at -1.0·angle |
| Renderer.RenderWireframe | src/lib.rs:124-168 | the corrected wireframe: any pixel off row 0 and column 0 is white exactly when the id seen through it differs from the id through its left or upper neighbour |

## Left out

- **File output and parallelism.** PNG writing (`write_to_file`), the `rayon` parallel row iteration and `src/bin/main.rs` are left out. `Renderer.RenderAsWritten` fills the rows one after another; no row reads another, so the order of the parallel workers does not change the image.
- **Scene parsing.** The `FromStr` parsers of `Vec3`, `Sphere`, `Triangle` and `Rectangle`, and `src/surface.rs`, are left out; they are string parsing, not geometry. `src/solid.rs` (an older single-trait file) is left out too.
- **Floating point.** `f64` rounding, infinities and NaN are not modelled: arithmetic is exact over `real`. The NaN from a negative refraction discriminant is only represented by the unconstrained square root of a negative number in `Tracer.RefractDir`.
- **The camera angle.** `tan(fov/2)` with fov = 50° is a parameter of `Renderer.Camera` rather than a computed constant, because `tan` and `PI` are transcendental.
- **The cross product.** `cross` is called in `src/solids/triangle.rs` at lines 17, 29 and 41, but `src/vec3.rs` does not define it. `Vectors.Cross` is the standard right-handed cross product.
- **The trait's `normal_at` arity.** The `Solid` trait at `src/solids/mod.rs:25` declares a one-argument `normal_at`, but every implementation takes the hit point and the ray direction. `Solids.NormalAt` follows the implementations.
- **The shadow test.** It excludes only the light itself (`i != j`); the shaded object can shadow itself. The model follows the code.
- **The `deepest` field.** `Tracer.Traced` adds it to the traced colour so that the depth bound can be stated. The source returns only the colour.
- **`trace` below the shade.** `Renderer.FillRowAsWritten`, `Renderer.FillRow` and the wireframe members take `shade(x)` or `seen(xx, yy)` as parameters. These stand for `trace` and `get_hit_object_id` of the normalised camera ray through that pixel. The ray construction is `Renderer.PixelX` / `Renderer.PixelY` (`get_xx` / `get_yy`).
- Renderer.Wireframe: requires width == 0 exactly when height == 0, and so do `Renderer.RenderWireframeAsWritten` and `Renderer.RenderWireframe`. With height 0 and width > 0 the first-row pass indexes an empty buffer (line 141) and panics; with width 0 and height > 0 the first-column pass does (line 151). Those panics are not modelled.
- Renderer.RenderAsWritten: requires height == 0 or width >= 2, for the same underflow as the row loop. `Renderer.Render` requires height == 0 or width >= 1. A zero width with a zero height returns an empty image, whereas `chunks_mut(0)` panics in the source.
- **Near-parallel rays.** A ray that meets a triangle while running within 1e-8 of parallel to its plane is reported as a miss, because of the guard at `src/solids/triangle.rs:31`. `Triangles.IntersectIffStruck` includes that condition in what a strike is.
- Renderer.FillRowAsWritten: requires width >= 2. For smaller widths `width / 2 - 1` underflows `usize` and the source panics; that panic is not modelled.
- Tracer.Trace: states the depth bound and the clamp, not the exact colour formula. The formula is the function body, and its parts carry their own lemmas (Fresnel, Orient, Reflect, the shadow and lighting lemmas).
- Tracer.TraceOpaque: states only that no recursion is spawned, not the colour.
- Solids.Intersect: states only the common lower bound on the hit parameter. The per-shape contracts are on `Spheres.Intersect`, `Triangles.Intersect` and `Rectangles.Intersect`.
- Rectangles.NormalAt: states only that t0's normal is used and that it faces against the ray. The rectangle never consults t1's normal, even for hits on t1.

## Findings

| source | as written | input that shows it | evidently intended | confidence | as-written member | corrected member |
|---|---|---|---|---|---|---|
| src/lib.rs:217 | the row loop runs `hx` over `0..width/2-1`, so the last traced pixel is 2(width/2 - 1); pixel width-1 (and width-2 for odd widths) is never written and stays black | width 4, every ray white: the row is white, white, white, black | every pixel of the row is written | high (not executed) | Renderer.FillRowAsWritten, Renderer.RenderAsWritten, Renderer.LastPixelNeverWritten, Renderer.WhiteRowEndsBlack | Renderer.FillRow, Renderer.Render, Renderer.FillRowCovers |
| src/lib.rs:145 | the first-column pass computes its abscissa with `inv_height` where `get_xx` uses `inv_width` | a 4×2 image: pixel 0 lies at -1.5·angle, but column 0 is traced at -1.0·angle, so column 0's ids come from the wrong rays | column 0 is traced through the centre of pixel 0 | high (not executed) | Renderer.RenderWireframeAsWritten, Renderer.ColumnAimedIffSquare, Renderer.ColumnMisaimedExample | Renderer.RenderWireframe |
