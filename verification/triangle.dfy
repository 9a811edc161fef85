/** Triangles and the Möller–Trumbore ray/triangle test
    (src/solids/triangle.rs). The test uses no square root. */
module Triangles {
  import opened Optional
  import opened Vectors

  /** The tolerance `1e-8` of the source, used both for the parallel-ray
      guard and as the smallest accepted ray parameter. */
  const Epsilon: real := 0.00000001

  /** A triangle keeps its corners, the two edges out of p0 and its unit
      normal. */
  datatype Triangle = Triangle(p0: Vec3, p1: Vec3, p2: Vec3, u: Vec3, v: Vec3, normal: Vec3)

  /** `Triangle::new`: keeps the corners, stores the edges u = p1 - p0 and
      v = p2 - p0, and the normal -(u x v) normalised (NewTriangleNormal
      states what that normal is). */
  function NewTriangle(p0: Vec3, p1: Vec3, p2: Vec3, sqrt: real -> real): (t: Triangle)
    requires IsSqrt(sqrt)
    ensures t.p0 == p0 && t.p1 == p1 && t.p2 == p2
    ensures t.u == Sub(p1, p0) && t.v == Sub(p2, p0)
    ensures t.normal == Normalize(Neg(Cross(t.u, t.v)), sqrt)
  {
    var u := Sub(p1, p0);
    var v := Sub(p2, p0);
    var normal := Normalize(Neg(Cross(u, v)), sqrt);
    Triangle(p0, p1, p2, u, v, normal)
  }

  /** The normal `Triangle::new` computes is the unit vector along -(u x v),
      perpendicular to both edges; for a degenerate triangle (u x v = 0) it
      is the zero vector. */
  lemma NewTriangleNormal(p0: Vec3, p1: Vec3, p2: Vec3, sqrt: real -> real)
    requires IsSqrt(sqrt)
    ensures var t := NewTriangle(p0, p1, p2, sqrt);
      Cross(t.u, t.v) == Zero ==> t.normal == Zero
    ensures var t := NewTriangle(p0, p1, p2, sqrt);
      Cross(t.u, t.v) != Zero ==>
        LenSqr(t.normal) == 1.0 && SameDirection(t.normal, Neg(Cross(t.u, t.v)))
        && Dot(t.normal, t.u) == 0.0 && Dot(t.normal, t.v) == 0.0
  {
    var t := NewTriangle(p0, p1, p2, sqrt);
    NegatedNormal(Cross(t.u, t.v), sqrt);
    NormalPerpendicular(t.u, t.v, sqrt);
  }

  /** Normalising -w gives zero exactly for w = 0 and otherwise the unit
      vector along -w. */
  lemma NegatedNormal(w: Vec3, sqrt: real -> real)
    requires IsSqrt(sqrt)
    ensures w == Zero ==> Normalize(Neg(w), sqrt) == Zero
    ensures w != Zero ==>
      LenSqr(Normalize(Neg(w), sqrt)) == 1.0 && SameDirection(Normalize(Neg(w), sqrt), Neg(w))
  {
    assert Neg(w) == Zero <==> w == Zero by {
      NegLaws(w);
    }
    NormalizeNonZero(Neg(w), sqrt);
  }

  /** The normalised -(u x v) is perpendicular to u and to v. */
  lemma NormalPerpendicular(u: Vec3, v: Vec3, sqrt: real -> real)
    requires IsSqrt(sqrt)
    ensures Dot(Normalize(Neg(Cross(u, v)), sqrt), u) == 0.0
    ensures Dot(Normalize(Neg(Cross(u, v)), sqrt), v) == 0.0
  {
    var c := Neg(Cross(u, v));
    assert Dot(c, u) == 0.0 && Dot(c, v) == 0.0 by {
      CrossLaws(u, v);
      DotLaws(Cross(u, v), u);
      DotLaws(Cross(u, v), v);
    }
    NormalizeLaws(c, sqrt);
    if 0.0 < LenSqr(c) {
      PerpendicularAfterScaling(c, Normalize(c, sqrt), sqrt(LenSqr(c)), u);
      PerpendicularAfterScaling(c, Normalize(c, sqrt), sqrt(LenSqr(c)), v);
    }
  }

  /** Perpendicularity survives division by a positive factor. */
  lemma PerpendicularAfterScaling(c: Vec3, r: Vec3, s: real, w: Vec3)
    requires s != 0.0 && Scale(r, s) == c && Dot(c, w) == 0.0
    ensures Dot(r, w) == 0.0
  {
    DotScale(r, s, w);
    ZeroProduct(s, Dot(r, w));
  }

  /** `position`: a triangle is anchored at its first corner. */
  function Position(t: Triangle): Vec3 {
    t.p0
  }

  // ---------------------------------------------------------------------
  // The quantities of the Möller–Trumbore test
  // ---------------------------------------------------------------------

  /** `a = u . (dir x v)`, the determinant of the system; it is near zero
      when the ray runs parallel to the triangle's plane. */
  function Det(t: Triangle, dir: Vec3): real {
    Dot(t.u, Cross(dir, t.v))
  }

  /** The ray parallel to the plane, within the tolerance (both bounds
      strict, as in the source). */
  predicate Parallel(t: Triangle, dir: Vec3) {
    -Epsilon < Det(t, dir) < Epsilon
  }

  /** The first barycentric coordinate `w = f * (s . h)`, along u. */
  function W(t: Triangle, org: Vec3, dir: Vec3): real
    requires !Parallel(t, dir)
  {
    (1.0 / Det(t, dir)) * Dot(Sub(org, t.p0), Cross(dir, t.v))
  }

  /** The second barycentric coordinate `z = f * (dir . q)`, along v. */
  function Z(t: Triangle, org: Vec3, dir: Vec3): real
    requires !Parallel(t, dir)
  {
    (1.0 / Det(t, dir)) * Dot(dir, Cross(Sub(org, t.p0), t.u))
  }

  /** The ray parameter `t = f * (v . q)`. */
  function Param(t: Triangle, org: Vec3, dir: Vec3): real
    requires !Parallel(t, dir)
  {
    (1.0 / Det(t, dir)) * Dot(t.v, Cross(Sub(org, t.p0), t.u))
  }

  /** `intersect`: no hit for a ray parallel to the plane, for a first
      coordinate outside [0, 1], for a negative second coordinate or a
      coordinate sum above 1, or for a parameter not above the tolerance;
      otherwise the parameter. */
  function Intersect(t: Triangle, org: Vec3, dir: Vec3): (r: Option<real>)
    ensures Parallel(t, dir) ==> r == None
    ensures !Parallel(t, dir) && (W(t, org, dir) < 0.0 || W(t, org, dir) > 1.0) ==> r == None
    ensures !Parallel(t, dir) && (Z(t, org, dir) < 0.0 || W(t, org, dir) + Z(t, org, dir) > 1.0) ==> r == None
    ensures r.Some? ==> Epsilon < r.value
    ensures r.Some? <==>
      !Parallel(t, dir) && 0.0 <= W(t, org, dir) && 0.0 <= Z(t, org, dir)
      && W(t, org, dir) + Z(t, org, dir) <= 1.0 && Epsilon < Param(t, org, dir)
    ensures r.Some? ==> r.value == Param(t, org, dir)
  {
    if Parallel(t, dir) then
      None
    else
      var w := W(t, org, dir);
      if w < 0.0 || w > 1.0 then
        None
      else
        var z := Z(t, org, dir);
        if z < 0.0 || w + z > 1.0 then
          None
        else
          var param := Param(t, org, dir);
          if param > Epsilon then Some(param) else None
  }

  /** `normal_at`: the stored normal, reversed when it points along the ray,
      so that the result always faces the incoming ray; the hit point is not
      consulted. */
  function NormalAt(t: Triangle, hit: Vec3, dir: Vec3): (r: Vec3)
    ensures r == t.normal || r == Neg(t.normal)
    ensures Dot(r, dir) <= 0.0
    ensures Dot(t.normal, dir) > 0.0 <==> r != t.normal
    ensures LenSqr(r) == LenSqr(t.normal)
  {
    NegLaws(t.normal);
    DotLaws(dir, t.normal);
    DotLaws(t.normal, dir);
    DotLaws(Neg(t.normal), dir);
    if Dot(t.normal, dir) > 0.0 then
      Neg(t.normal)
    else
      t.normal
  }

  // ---------------------------------------------------------------------
  // What a hit means
  // ---------------------------------------------------------------------

  /** The point p0 + w u + z v of the triangle's plane; it lies in the
      triangle when w >= 0, z >= 0 and w + z <= 1. */
  function PlanePoint(t: Triangle, w: real, z: real): Vec3 {
    Add(t.p0, Add(Scale(t.u, w), Scale(t.v, z)))
  }

  /** Dividing a s = p u + q v - r d by a != 0, one component at a time. */
  lemma DivideThrough(a: real, sx: real, p: real, q: real, r: real, ux: real, vx: real, dx: real)
    requires a != 0.0
    requires a * sx == p * ux + q * vx - r * dx
    ensures sx == (1.0 / a * p) * ux + (1.0 / a * q) * vx - (1.0 / a * r) * dx
  {
    var f := 1.0 / a;
    assert f * a == 1.0;
    calc {
      sx;
      (f * a) * sx;
      f * (a * sx);
      f * (p * ux + q * vx - r * dx);
      (f * p) * ux + (f * q) * vx - (f * r) * dx;
    }
  }

  /** A ray/plane system solved componentwise gives the same point from
      both sides. */
  lemma Assemble(org: Vec3, p0: Vec3, u: Vec3, v: Vec3, d: Vec3, w: real, z: real, param: real)
    requires org.x - p0.x == w * u.x + z * v.x - param * d.x
    requires org.y - p0.y == w * u.y + z * v.y - param * d.y
    requires org.z - p0.z == w * u.z + z * v.z - param * d.z
    ensures PointAt(org, d, param) == Add(p0, Add(Scale(u, w), Scale(v, z)))
  {
    assert PointAt(org, d, param) == Vec3(org.x + d.x * param, org.y + d.y * param, org.z + d.z * param);
    assert Add(p0, Add(Scale(u, w), Scale(v, z)))
        == Vec3(p0.x + (u.x * w + v.x * z), p0.y + (u.y * w + v.y * z), p0.z + (u.z * w + v.z * z));
  }

  /** Cramer's rule solved for s, one component per lemma: with
      a = u . (d x v) nonzero, s = w u + z v - t d for the quotients
      w = (s . (d x v)) / a, z = (d . (s x u)) / a, t = (v . (s x u)) / a. */
  lemma CramerSolutionX(u: Vec3, d: Vec3, v: Vec3, s: Vec3)
    requires Dot(u, Cross(d, v)) != 0.0
    ensures var f := 1.0 / Dot(u, Cross(d, v));
      s.x == (f * Dot(s, Cross(d, v))) * u.x + (f * Dot(d, Cross(s, u))) * v.x
             - (f * Dot(v, Cross(s, u))) * d.x
  {
    CramerExpansionX(u, d, v, s);
    DivideThrough(Dot(u, Cross(d, v)), s.x, Dot(s, Cross(d, v)), Dot(d, Cross(s, u)),
                  Dot(v, Cross(s, u)), u.x, v.x, d.x);
  }

  lemma CramerSolutionY(u: Vec3, d: Vec3, v: Vec3, s: Vec3)
    requires Dot(u, Cross(d, v)) != 0.0
    ensures var f := 1.0 / Dot(u, Cross(d, v));
      s.y == (f * Dot(s, Cross(d, v))) * u.y + (f * Dot(d, Cross(s, u))) * v.y
             - (f * Dot(v, Cross(s, u))) * d.y
  {
    CramerExpansionY(u, d, v, s);
    DivideThrough(Dot(u, Cross(d, v)), s.y, Dot(s, Cross(d, v)), Dot(d, Cross(s, u)),
                  Dot(v, Cross(s, u)), u.y, v.y, d.y);
  }

  lemma CramerSolutionZ(u: Vec3, d: Vec3, v: Vec3, s: Vec3)
    requires Dot(u, Cross(d, v)) != 0.0
    ensures var f := 1.0 / Dot(u, Cross(d, v));
      s.z == (f * Dot(s, Cross(d, v))) * u.z + (f * Dot(d, Cross(s, u))) * v.z
             - (f * Dot(v, Cross(s, u))) * d.z
  {
    CramerExpansionZ(u, d, v, s);
    DivideThrough(Dot(u, Cross(d, v)), s.z, Dot(s, Cross(d, v)), Dot(d, Cross(s, u)),
                  Dot(v, Cross(s, u)), u.z, v.z, d.z);
  }

  /** For a ray that is not parallel to the plane, the three Möller–Trumbore
      quantities solve org + t dir = p0 + w u + z v. */
  lemma SolvesRaySystem(t: Triangle, org: Vec3, dir: Vec3)
    requires !Parallel(t, dir)
    ensures PointAt(org, dir, Param(t, org, dir)) == PlanePoint(t, W(t, org, dir), Z(t, org, dir))
  {
    var s := Sub(org, t.p0);
    CramerSolutionX(t.u, dir, t.v, s);
    CramerSolutionY(t.u, dir, t.v, s);
    CramerSolutionZ(t.u, dir, t.v, s);
    Assemble(org, t.p0, t.u, t.v, dir, W(t, org, dir), Z(t, org, dir), Param(t, org, dir));
  }

  /** Whenever `intersect` reports a hit at t, the point org + t dir is the
      point of the triangle with barycentric coordinates (w, z). */
  lemma IntersectHitsTriangle(t: Triangle, org: Vec3, dir: Vec3)
    requires Intersect(t, org, dir).Some?
    ensures !Parallel(t, dir)
    ensures 0.0 <= W(t, org, dir) && 0.0 <= Z(t, org, dir) && W(t, org, dir) + Z(t, org, dir) <= 1.0
    ensures PointAt(org, dir, Intersect(t, org, dir).value) == PlanePoint(t, W(t, org, dir), Z(t, org, dir))
  {
    SolvesRaySystem(t, org, dir);
  }

  /** The point org + p dir of the closed triangle: some barycentric pair
      (w, z) with w, z >= 0 and w + z <= 1 names it. */
  ghost predicate OnTriangle(t: Triangle, org: Vec3, dir: Vec3, p: real) {
    exists w: real, z: real ::
      0.0 <= w && 0.0 <= z && w + z <= 1.0 && PointAt(org, dir, p) == PlanePoint(t, w, z)
  }

  /** The ray strikes the closed triangle at p in the sense the test can
      see: not parallel to the plane within the tolerance, and p beyond the
      tolerance. */
  ghost predicate StruckAt(t: Triangle, org: Vec3, dir: Vec3, p: real) {
    !Parallel(t, dir) && Epsilon < p && OnTriangle(t, org, dir, p)
  }

  /** Both directions of `intersect`: it reports p exactly when the ray
      strikes the closed triangle at p. */
  lemma IntersectIffStruck(t: Triangle, org: Vec3, dir: Vec3, p: real)
    ensures Intersect(t, org, dir) == Some(p) <==> StruckAt(t, org, dir, p)
  {
    if Intersect(t, org, dir) == Some(p) {
      IntersectHitsTriangle(t, org, dir);
      var w, z := W(t, org, dir), Z(t, org, dir);
      assert 0.0 <= w && 0.0 <= z && w + z <= 1.0 && PointAt(org, dir, p) == PlanePoint(t, w, z);
    }
    if StruckAt(t, org, dir, p) {
      var w: real, z: real :|
        0.0 <= w && 0.0 <= z && w + z <= 1.0 && PointAt(org, dir, p) == PlanePoint(t, w, z);
      CoordinatesUnique(t, org, dir, w, z, p);
    }
  }

  /** For a ray that is not parallel to the plane, the point org + p dir
      has only one pair of plane coordinates, and the test computes exactly
      that pair and p. */
  lemma CoordinatesUnique(t: Triangle, org: Vec3, dir: Vec3, w: real, z: real, p: real)
    requires !Parallel(t, dir)
    requires PointAt(org, dir, p) == PlanePoint(t, w, z)
    ensures W(t, org, dir) == w && Z(t, org, dir) == z && Param(t, org, dir) == p
  {
    var s := Sub(org, t.p0);
    assert s == Sub(Add(Scale(t.u, w), Scale(t.v, z)), Scale(dir, p)) by {
      Offset(org, t.p0, t.u, t.v, dir, w, z, p);
    }
    WUnique(t, dir, s, w, z, p);
    ZUnique(t, dir, s, w, z, p);
    ParamUnique(t, dir, s, w, z, p);
  }

  /** org + p dir = p0 + w u + z v rearranged for org - p0. */
  lemma Offset(org: Vec3, p0: Vec3, u: Vec3, v: Vec3, d: Vec3, w: real, z: real, p: real)
    requires PointAt(org, d, p) == Add(p0, Add(Scale(u, w), Scale(v, z)))
    ensures Sub(org, p0) == Sub(Add(Scale(u, w), Scale(v, z)), Scale(d, p))
  {
    assert org.x + d.x * p == p0.x + (u.x * w + v.x * z);
    assert org.y + d.y * p == p0.y + (u.y * w + v.y * z);
    assert org.z + d.z * p == p0.z + (u.z * w + v.z * z);
  }

  /** Dividing x a by a != 0 gives x back. */
  lemma Cancel(a: real, q: real, x: real)
    requires a != 0.0 && q == x * a
    ensures (1.0 / a) * q == x
  {
    assert (1.0 / a) * a == 1.0;
    calc {
      (1.0 / a) * q;
      (1.0 / a) * (x * a);
      x * ((1.0 / a) * a);
    }
  }

  /** s . (dir x v) = w a: the v and dir parts are perpendicular to dir x v. */
  lemma WUnique(t: Triangle, dir: Vec3, s: Vec3, w: real, z: real, p: real)
    requires !Parallel(t, dir)
    requires s == Sub(Add(Scale(t.u, w), Scale(t.v, z)), Scale(dir, p))
    ensures (1.0 / Det(t, dir)) * Dot(s, Cross(dir, t.v)) == w
  {
    var x := Cross(dir, t.v);
    DotCombination(t.u, t.v, dir, w, z, p, x);
    CrossLaws(dir, t.v);
    DotLaws(x, dir);
    DotLaws(x, t.v);
    Cancel(Det(t, dir), Dot(s, x), w);
  }

  /** dir . (s x u) = s . (u x dir) = z a: the u and dir parts drop out and
      v . (u x dir) is the determinant. */
  lemma ZUnique(t: Triangle, dir: Vec3, s: Vec3, w: real, z: real, p: real)
    requires !Parallel(t, dir)
    requires s == Sub(Add(Scale(t.u, w), Scale(t.v, z)), Scale(dir, p))
    ensures (1.0 / Det(t, dir)) * Dot(dir, Cross(s, t.u)) == z
  {
    var x := Cross(t.u, dir);
    TripleCyclic(dir, s, t.u);
    DotCombination(t.u, t.v, dir, w, z, p, x);
    CrossLaws(t.u, dir);
    DotLaws(x, t.u);
    DotLaws(x, dir);
    TripleCyclic(t.u, dir, t.v);
    TripleCyclic(dir, t.v, t.u);
    Cancel(Det(t, dir), Dot(dir, Cross(s, t.u)), z);
  }

  /** v . (s x u) = s . (u x v) = p a: the u and v parts drop out and
      dir . (u x v) is minus the determinant. */
  lemma ParamUnique(t: Triangle, dir: Vec3, s: Vec3, w: real, z: real, p: real)
    requires !Parallel(t, dir)
    requires s == Sub(Add(Scale(t.u, w), Scale(t.v, z)), Scale(dir, p))
    ensures (1.0 / Det(t, dir)) * Dot(t.v, Cross(s, t.u)) == p
  {
    var x := Cross(t.u, t.v);
    TripleCyclic(t.v, s, t.u);
    DotCombination(t.u, t.v, dir, w, z, p, x);
    CrossLaws(t.u, t.v);
    DotLaws(x, t.u);
    DotLaws(x, t.v);
    TripleCyclic(dir, t.u, t.v);
    CrossLaws(dir, t.v);
    DotLaws(t.u, Cross(dir, t.v));
    Cancel(Det(t, dir), Dot(t.v, Cross(s, t.u)), p);
  }

  /** The position of a constructed triangle is its first corner, the
      point with plane coordinates (0, 0). */
  lemma PositionIsCorner(p0: Vec3, p1: Vec3, p2: Vec3, sqrt: real -> real)
    requires IsSqrt(sqrt)
    ensures Position(NewTriangle(p0, p1, p2, sqrt)) == p0
    ensures Position(NewTriangle(p0, p1, p2, sqrt)) == PlanePoint(NewTriangle(p0, p1, p2, sqrt), 0.0, 0.0)
  {
    var t := NewTriangle(p0, p1, p2, sqrt);
    ScaleLaws(t.u, 0.0, 0.0);
    ScaleLaws(t.v, 0.0, 0.0);
    AddSubLaws(t.p0, Zero);
    AddSubLaws(Zero, Zero);
  }
}
