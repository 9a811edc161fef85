/** The closed family of solids and the scene object record
    (src/solids/mod.rs). The `Solid` trait object of the source becomes a
    tagged union dispatching to the three shapes. */
module Solids {
  import opened Optional
  import opened Vectors
  import Spheres
  import Triangles
  import Rectangles

  datatype Solid =
    | SphereSolid(sphere: Spheres.Sphere)
    | TriangleSolid(triangle: Triangles.Triangle)
    | RectangleSolid(rectangle: Rectangles.Rectangle)

  /** The smallest ray parameter a solid can report: spheres report any
      t >= 0, triangles and rectangles only t > 1e-8. */
  function MinParam(s: Solid): real {
    if s.SphereSolid? then 0.0 else Triangles.Epsilon
  }

  /** `Solid::intersect`, dispatched on the shape. Every reported hit lies
      in front of the ray origin. */
  function Intersect(s: Solid, org: Vec3, dir: Vec3, sqrt: real -> real): (r: Option<real>)
    requires IsSqrt(sqrt)
    ensures r.Some? ==> MinParam(s) <= r.value
    ensures r.Some? ==> 0.0 <= r.value
  {
    match s
    case SphereSolid(sp) => Spheres.Intersect(sp, org, dir, sqrt)
    case TriangleSolid(t) => Triangles.Intersect(t, org, dir)
    case RectangleSolid(rc) => Rectangles.Intersect(rc, org, dir)
  }

  /** `Solid::normal_at`, dispatched on the shape. The trait in the source
      declares a one-argument `normal_at`; every implementation takes the
      hit point and the ray direction, and so does this model. */
  function NormalAt(s: Solid, hit: Vec3, dir: Vec3, sqrt: real -> real): Vec3
    requires IsSqrt(sqrt)
  {
    match s
    case SphereSolid(sp) => Spheres.NormalAt(sp, hit, dir, sqrt)
    case TriangleSolid(t) => Triangles.NormalAt(t, hit, dir)
    case RectangleSolid(rc) => Rectangles.NormalAt(rc, hit, dir)
  }

  /** A triangle or rectangle normal faces against the ray; a sphere normal
      is a unit vector (or zero at the centre). */
  lemma NormalAtLaws(s: Solid, hit: Vec3, dir: Vec3, sqrt: real -> real)
    requires IsSqrt(sqrt)
    ensures !s.SphereSolid? ==> Dot(NormalAt(s, hit, dir, sqrt), dir) <= 0.0
    ensures s.SphereSolid? && hit != s.sphere.center ==> LenSqr(NormalAt(s, hit, dir, sqrt)) == 1.0
  {
  }

  /** `Solid::position`. */
  function Position(s: Solid): Vec3 {
    match s
    case SphereSolid(sp) => Spheres.Position(sp)
    case TriangleSolid(t) => Triangles.Position(t)
    case RectangleSolid(rc) => Rectangles.Position(rc)
  }

  /** A scene object: a solid with its material and its cached position. */
  datatype Object = Object(pos: Vec3, emission: Vec3, surface: Vec3,
                           transparency: real, reflection: real, solid: Solid)

  /** `Object::new`: stores the material fields and the solid as given and
      caches the solid's position. */
  function NewObject(surface: Vec3, emission: Vec3, transparency: real, reflection: real,
                     solid: Solid): (o: Object)
    ensures o.surface == surface && o.emission == emission
    ensures o.transparency == transparency && o.reflection == reflection
    ensures o.solid == solid
    ensures o.pos == Position(solid)
  {
    Object(Position(solid), emission, surface, transparency, reflection, solid)
  }

  /** The cached position is the sphere's centre, the triangle's first
      corner, or the rectangle's first corner. */
  lemma NewObjectPosition(surface: Vec3, emission: Vec3, transparency: real, reflection: real,
                          solid: Solid)
    ensures var o := NewObject(surface, emission, transparency, reflection, solid);
      match solid
      case SphereSolid(sp) => o.pos == sp.center
      case TriangleSolid(t) => o.pos == t.p0
      case RectangleSolid(rc) => o.pos == rc.p0
  {
  }
}
