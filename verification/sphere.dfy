/** Spheres and the geometric ray/sphere test (src/solids/sphere.rs). */
module Spheres {
  import opened Optional
  import opened Vectors

  /** A sphere caches the square of its radius. */
  datatype Sphere = Sphere(center: Vec3, radius: real, radius2: real)

  /** `Sphere::new`: the cached `radius2` is the radius squared. */
  function NewSphere(center: Vec3, radius: real): (s: Sphere)
    ensures s.center == center && s.radius == radius
    ensures s.radius2 == radius * radius
    ensures 0.0 <= s.radius2
  {
    Square(radius, radius * radius);
    Sphere(center, radius, radius * radius)
  }

  /** The ray parameter of the point on the ray closest to the centre
      (`tca` in the source), for a unit direction. */
  function Tca(s: Sphere, org: Vec3, dir: Vec3): real {
    Dot(Sub(s.center, org), dir)
  }

  /** The squared distance from the centre to the ray (`d2`). */
  function D2(s: Sphere, org: Vec3, dir: Vec3): real {
    var l := Sub(s.center, org);
    Dot(l, l) - Tca(s, org, dir) * Tca(s, org, dir)
  }

  /** Half the chord the ray cuts through the sphere (`thc`). */
  function Thc(s: Sphere, org: Vec3, dir: Vec3, sqrt: real -> real): real
    requires IsSqrt(sqrt)
    requires D2(s, org, dir) <= s.radius2
  {
    sqrt(s.radius2 - D2(s, org, dir))
  }

  /** thc is the non-negative root of radius2 - d2. The square root enters
      the sphere proofs only through this lemma. */
  lemma ThcLaws(s: Sphere, org: Vec3, dir: Vec3, sqrt: real -> real)
    requires IsSqrt(sqrt)
    requires D2(s, org, dir) <= s.radius2
    ensures 0.0 <= Thc(s, org, dir, sqrt)
    ensures Thc(s, org, dir, sqrt) * Thc(s, org, dir, sqrt) == s.radius2 - D2(s, org, dir)
  {
    assert RootAt(sqrt, s.radius2 - D2(s, org, dir));
  }

  /** `intersect`: no hit when the centre lies behind the origin along the
      ray or the ray passes farther from the centre than the radius;
      otherwise the nearer chord end t0 when it is not behind the origin,
      else the farther end t1. */
  function Intersect(s: Sphere, org: Vec3, dir: Vec3, sqrt: real -> real): (r: Option<real>)
    requires IsSqrt(sqrt)
    ensures Tca(s, org, dir) < 0.0 ==> r == None
    ensures D2(s, org, dir) > s.radius2 ==> r == None
    ensures 0.0 <= Tca(s, org, dir) && D2(s, org, dir) <= s.radius2 ==> r.Some?
    ensures r.Some? ==> 0.0 <= r.value
    ensures r.Some? ==>
      var t0 := Tca(s, org, dir) - Thc(s, org, dir, sqrt);
      r.value == if 0.0 <= t0 then t0 else Tca(s, org, dir) + Thc(s, org, dir, sqrt)
  {
    var tca := Tca(s, org, dir);
    if tca < 0.0 then
      None
    else
      var d2 := D2(s, org, dir);
      if d2 > s.radius2 then
        None
      else
        ThcLaws(s, org, dir, sqrt);
        var thc := Thc(s, org, dir, sqrt);
        var t0 := tca - thc;
        var t1 := tca + thc;
        if t0 > t1 then
          if t1 < 0.0 then (if t0 < 0.0 then None else Some(t0)) else Some(t1)
        else
          if t0 < 0.0 then (if t1 < 0.0 then None else Some(t1)) else Some(t0)
  }

  /** `normal_at`: the unit vector from the centre towards the hit point; the
      ray direction is not consulted. */
  function NormalAt(s: Sphere, hit: Vec3, dir: Vec3, sqrt: real -> real): (r: Vec3)
    requires IsSqrt(sqrt)
    ensures hit == s.center ==> r == Zero
    ensures hit != s.center ==> LenSqr(r) == 1.0 && SameDirection(r, Sub(hit, s.center))
  {
    AddSubLaws(hit, s.center);
    LenSqrLaws(Sub(hit, s.center));
    NormalizeLaws(Sub(hit, s.center), sqrt);
    Normalize(Sub(hit, s.center), sqrt)
  }

  /** `position`: a sphere is anchored at its centre. */
  function Position(s: Sphere): Vec3 {
    s.center
  }

  /** The position of a constructed sphere is the centre it was given, and
      the normal at any other point is the unit vector pointing away from
      that position. */
  lemma PositionIsCentre(center: Vec3, radius: real, hit: Vec3, dir: Vec3, sqrt: real -> real)
    requires IsSqrt(sqrt)
    ensures Position(NewSphere(center, radius)) == center
    ensures hit != center ==>
      SameDirection(NormalAt(NewSphere(center, radius), hit, dir, sqrt), Sub(hit, Position(NewSphere(center, radius))))
  {
  }

  // ---------------------------------------------------------------------
  // Geometry of the result
  // ---------------------------------------------------------------------

  /** The point at parameter t lies on the sphere's surface. */
  ghost predicate OnSurface(s: Sphere, org: Vec3, dir: Vec3, t: real) {
    LenSqr(Sub(PointAt(org, dir, t), s.center)) == s.radius2
  }

  lemma SquareOfDifference(p: real, q: real)
    ensures (p - q) * (p - q) == p * p - 2.0 * (p * q) + q * q
  {
  }

  /** Squared distance from the centre of the point at parameter t, for a
      unit direction: t^2 - 2 t tca + |L|^2. */
  lemma DistanceAlongRay(s: Sphere, org: Vec3, dir: Vec3, t: real)
    requires LenSqr(dir) == 1.0
    ensures LenSqr(Sub(PointAt(org, dir, t), s.center))
         == t * t - 2.0 * t * Tca(s, org, dir) + Dot(Sub(s.center, org), Sub(s.center, org))
  {
    var l := Sub(s.center, org);
    var p := Sub(PointAt(org, dir, t), s.center);
    assert p == Vec3(t * dir.x - l.x, t * dir.y - l.y, t * dir.z - l.z);
    SquareOfDifference(t * dir.x, l.x);
    SquareOfDifference(t * dir.y, l.y);
    SquareOfDifference(t * dir.z, l.z);
    assert (t * dir.x) * (t * dir.x) + (t * dir.y) * (t * dir.y) + (t * dir.z) * (t * dir.z)
        == t * t * LenSqr(dir);
    assert (t * dir.x) * l.x + (t * dir.y) * l.y + (t * dir.z) * l.z == t * Dot(l, dir);
  }

  /** For a unit direction, the squared distance from the centre of the
      point at parameter t is (t - tca)^2 + d2. */
  lemma DistanceFromCentre(s: Sphere, org: Vec3, dir: Vec3, t: real)
    requires LenSqr(dir) == 1.0
    ensures LenSqr(Sub(PointAt(org, dir, t), s.center))
         == (t - Tca(s, org, dir)) * (t - Tca(s, org, dir)) + D2(s, org, dir)
  {
    DistanceAlongRay(s, org, dir, t);
    SquareOfDifference(t, Tca(s, org, dir));
  }

  /** The arithmetic behind ChordEndOnSurface: a point at distance m = +-thc
      from the foot of the perpendicular, where thc^2 = r2 - d2, is at
      squared distance r2 from the centre. */
  lemma ChordArithmetic(len: real, m: real, thc: real, d2: real, r2: real)
    requires len == m * m + d2
    requires m == thc || m == -thc
    requires thc * thc == r2 - d2
    ensures len == r2
  {
    if m == -thc {
      assert m * m == thc * thc;
    }
  }

  /** Both points at distance thc from tca along the ray, where
      thc^2 = radius2 - d2, lie on the surface. */
  lemma ChordEndsOnSurface(s: Sphere, org: Vec3, dir: Vec3, thc: real, t: real)
    requires LenSqr(dir) == 1.0
    requires thc * thc == s.radius2 - D2(s, org, dir)
    requires t == Tca(s, org, dir) - thc || t == Tca(s, org, dir) + thc
    ensures OnSurface(s, org, dir, t)
  {
    DistanceFromCentre(s, org, dir, t);
    ChordArithmetic(LenSqr(Sub(PointAt(org, dir, t), s.center)), t - Tca(s, org, dir),
                    thc, D2(s, org, dir), s.radius2);
  }

  /** Every parameter `intersect` returns lies on the sphere's surface. */
  lemma IntersectOnSurface(s: Sphere, org: Vec3, dir: Vec3, sqrt: real -> real)
    requires IsSqrt(sqrt)
    requires LenSqr(dir) == 1.0
    requires Intersect(s, org, dir, sqrt).Some?
    ensures OnSurface(s, org, dir, Intersect(s, org, dir, sqrt).value)
  {
    ThcLaws(s, org, dir, sqrt);
    ChordEndsOnSurface(s, org, dir, Thc(s, org, dir, sqrt), Intersect(s, org, dir, sqrt).value);
  }

  /** The arithmetic behind IntersectIsNearest: a non-negative parameter at
      distance thc from tca is never below the chord end `intersect`
      picks. */
  lemma NearestChordEnd(tca: real, thc: real, t': real)
    requires 0.0 <= thc && 0.0 <= t'
    requires (t' - tca) * (t' - tca) == thc * thc
    ensures (if 0.0 <= tca - thc then tca - thc else tca + thc) <= t'
  {
    var m := t' - tca;
    if m < 0.0 {
      assert (-m) * (-m) == m * m;
      NonNegativeSquareRootUnique(-m, thc);
    } else {
      NonNegativeSquareRootUnique(m, thc);
    }
  }

  /** `intersect` returns the nearest surface point that is not behind the
      origin: no other such parameter is smaller. */
  lemma IntersectIsNearest(s: Sphere, org: Vec3, dir: Vec3, sqrt: real -> real, t': real)
    requires IsSqrt(sqrt)
    requires LenSqr(dir) == 1.0
    requires Intersect(s, org, dir, sqrt).Some?
    requires 0.0 <= t' && OnSurface(s, org, dir, t')
    ensures Intersect(s, org, dir, sqrt).value <= t'
  {
    ThcLaws(s, org, dir, sqrt);
    NearestOnSurface(s, org, dir, Thc(s, org, dir, sqrt), t');
  }

  /** A non-negative surface parameter is never below the chord end
      `intersect` picks. */
  lemma NearestOnSurface(s: Sphere, org: Vec3, dir: Vec3, thc: real, t': real)
    requires LenSqr(dir) == 1.0
    requires 0.0 <= thc && thc * thc == s.radius2 - D2(s, org, dir)
    requires 0.0 <= t' && OnSurface(s, org, dir, t')
    ensures var tca := Tca(s, org, dir);
      (if 0.0 <= tca - thc then tca - thc else tca + thc) <= t'
  {
    DistanceFromCentre(s, org, dir, t');
    NearestChordEnd(Tca(s, org, dir), thc, t');
  }

  /** When the centre is ahead of the origin, any surface point on the line
      of the ray is enough for `intersect` to report a hit. */
  lemma IntersectFindsSurface(s: Sphere, org: Vec3, dir: Vec3, sqrt: real -> real, t': real)
    requires IsSqrt(sqrt)
    requires LenSqr(dir) == 1.0
    requires 0.0 <= Tca(s, org, dir)
    requires OnSurface(s, org, dir, t')
    ensures Intersect(s, org, dir, sqrt).Some?
  {
    DistanceFromCentre(s, org, dir, t');
    var m := t' - Tca(s, org, dir);
    Square(m, m * m);
  }

  /** The sphere of the examples below: radius 4, centred 20 units down the
      negative z axis. */
  lemma ExampleSphere()
    ensures NewSphere(Vec3(0.0, 0.0, -20.0), 4.0) == Sphere(Vec3(0.0, 0.0, -20.0), 4.0, 16.0)
    ensures NewSphere(Zero, 2.0) == Sphere(Zero, 2.0, 4.0)
  {
  }

  /** A ray aimed straight at the centre of a sphere that lies at distance
      d >= radius ahead of it hits at d - radius (for instance, the sphere of radius 4 centred 20
      units down the view axis is hit at t = 16). */
  lemma HeadOnHit(s: Sphere, org: Vec3, dir: Vec3, sqrt: real -> real, d: real)
    requires IsSqrt(sqrt)
    requires LenSqr(dir) == 1.0
    requires 0.0 <= s.radius && s.radius2 == s.radius * s.radius
    requires Sub(s.center, org) == Scale(dir, d) && s.radius <= d
    ensures Intersect(s, org, dir, sqrt) == Some(d - s.radius)
  {
    HeadOnGeometry(s, org, dir, d);
    SqrtOfSquare(sqrt, s.radius, s.radius2 - D2(s, org, dir));
  }

  /** A ray aimed straight at the centre reaches the foot of the
      perpendicular at the centre itself: tca is the distance and d2 is 0. */
  lemma HeadOnGeometry(s: Sphere, org: Vec3, dir: Vec3, d: real)
    requires LenSqr(dir) == 1.0
    requires Sub(s.center, org) == Scale(dir, d)
    ensures Tca(s, org, dir) == d && D2(s, org, dir) == 0.0
  {
    DotScale(dir, d, dir);
    DotLaws(dir, dir);
    LenSqrScale(dir, d);
  }

  /** The same sphere is missed by the ray along the x axis. */
  lemma IntersectExampleMiss(sqrt: real -> real)
    requires IsSqrt(sqrt)
    ensures Intersect(NewSphere(Vec3(0.0, 0.0, -20.0), 4.0), Zero, Vec3(1.0, 0.0, 0.0), sqrt) == None
  {
    ExampleSphere();
    MissSideways(sqrt, Sphere(Vec3(0.0, 0.0, -20.0), 4.0, 16.0));
  }

  lemma MissSideways(sqrt: real -> real, sphere: Sphere)
    requires IsSqrt(sqrt)
    requires sphere == Sphere(Vec3(0.0, 0.0, -20.0), 4.0, 16.0)
    ensures Intersect(sphere, Zero, Vec3(1.0, 0.0, 0.0), sqrt) == None
  {
    var dir := Vec3(1.0, 0.0, 0.0);
    assert Sub(sphere.center, Zero) == Vec3(0.0, 0.0, -20.0);
    assert Tca(sphere, Zero, dir) == 0.0;
    assert D2(sphere, Zero, dir) == 400.0;
  }

  /** The test rejects every ray whose direction points away from the
      centre, even when the origin is inside the sphere and the ray does
      leave through its surface: from (0, 0, 1) inside the sphere of radius 2
      about the origin, the ray along +z reaches the surface at t = 1 but is
      reported as a miss. */
  lemma InsideOriginHeadingOutIsMissed(sqrt: real -> real)
    requires IsSqrt(sqrt)
    ensures OnSurface(NewSphere(Zero, 2.0), Vec3(0.0, 0.0, 1.0), Vec3(0.0, 0.0, 1.0), 1.0)
    ensures Intersect(NewSphere(Zero, 2.0), Vec3(0.0, 0.0, 1.0), Vec3(0.0, 0.0, 1.0), sqrt) == None
  {
    ExampleSphere();
    LeavingFromInside(sqrt, Sphere(Zero, 2.0, 4.0));
  }

  lemma LeavingFromInside(sqrt: real -> real, sphere: Sphere)
    requires IsSqrt(sqrt)
    requires sphere == Sphere(Zero, 2.0, 4.0)
    ensures OnSurface(sphere, Vec3(0.0, 0.0, 1.0), Vec3(0.0, 0.0, 1.0), 1.0)
    ensures Intersect(sphere, Vec3(0.0, 0.0, 1.0), Vec3(0.0, 0.0, 1.0), sqrt) == None
  {
    var o := Vec3(0.0, 0.0, 1.0);
    assert PointAt(o, o, 1.0) == Vec3(0.0, 0.0, 2.0);
    assert Sub(Vec3(0.0, 0.0, 2.0), Zero) == Vec3(0.0, 0.0, 2.0);
    assert LenSqr(Vec3(0.0, 0.0, 2.0)) == 4.0;
    assert Sub(Zero, o) == Vec3(0.0, 0.0, -1.0);
    assert Tca(sphere, o, o) == -1.0;
  }
}
