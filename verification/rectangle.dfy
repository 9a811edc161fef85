/** Rectangles as two triangles sharing the diagonal p1-p2
    (src/solids/rectangle.rs). */
module Rectangles {
  import opened Optional
  import opened Vectors
  import Triangles

  /** The four corners as given, and the two triangles built from them. */
  datatype Rectangle = Rectangle(p0: Vec3, p1: Vec3, p2: Vec3, p3: Vec3,
                                 t0: Triangles.Triangle, t1: Triangles.Triangle)

  /** `Rectangle::new`: t0 spans p0, p1, p2 and t1 spans p3, p1, p2; the
      corners are kept unchanged. */
  function NewRectangle(p0: Vec3, p1: Vec3, p2: Vec3, p3: Vec3, sqrt: real -> real): (r: Rectangle)
    requires IsSqrt(sqrt)
    ensures r.p0 == p0 && r.p1 == p1 && r.p2 == p2 && r.p3 == p3
    ensures r.t0 == Triangles.NewTriangle(p0, p1, p2, sqrt)
    ensures r.t1 == Triangles.NewTriangle(p3, p1, p2, sqrt)
    ensures r.t0.p0 == p0 && r.t1.p0 == p3
  {
    Rectangle(p0, p1, p2, p3, Triangles.NewTriangle(p0, p1, p2, sqrt), Triangles.NewTriangle(p3, p1, p2, sqrt))
  }

  /** `intersect`: the first triangle's hit if there is one (even when the
      second triangle would be nearer), otherwise the second's result. */
  function Intersect(r: Rectangle, org: Vec3, dir: Vec3): (h: Option<real>)
    ensures Triangles.Intersect(r.t0, org, dir).Some? ==> h == Triangles.Intersect(r.t0, org, dir)
    ensures Triangles.Intersect(r.t0, org, dir).None? ==> h == Triangles.Intersect(r.t1, org, dir)
    ensures h.None? <==>
      Triangles.Intersect(r.t0, org, dir).None? && Triangles.Intersect(r.t1, org, dir).None?
    ensures h.Some? ==> Triangles.Epsilon < h.value
  {
    match Triangles.Intersect(r.t0, org, dir)
    case Some(t) => Some(t)
    case None => Triangles.Intersect(r.t1, org, dir)
  }

  /** A reported hit is a strike of one of the two triangles: of t0 when
      t0 reports a hit, otherwise of t1. */
  lemma IntersectHitsRectangle(r: Rectangle, org: Vec3, dir: Vec3)
    requires Intersect(r, org, dir).Some?
    ensures Triangles.Intersect(r.t0, org, dir).Some? ==>
      Triangles.StruckAt(r.t0, org, dir, Intersect(r, org, dir).value)
    ensures Triangles.Intersect(r.t0, org, dir).None? ==>
      Triangles.StruckAt(r.t1, org, dir, Intersect(r, org, dir).value)
  {
    var h := Intersect(r, org, dir).value;
    if Triangles.Intersect(r.t0, org, dir).Some? {
      Triangles.IntersectIffStruck(r.t0, org, dir, h);
    } else {
      Triangles.IntersectIffStruck(r.t1, org, dir, h);
    }
  }

  /** A ray striking either half is reported: at the strike on t0 when it
      strikes t0, and at the strike on t1 when t0 reports nothing. */
  lemma StruckIsReported(r: Rectangle, org: Vec3, dir: Vec3, p: real)
    requires Triangles.StruckAt(r.t0, org, dir, p) || Triangles.StruckAt(r.t1, org, dir, p)
    ensures Intersect(r, org, dir).Some?
    ensures Triangles.StruckAt(r.t0, org, dir, p) ==> Intersect(r, org, dir) == Some(p)
    ensures Triangles.Intersect(r.t0, org, dir).None? ==> Intersect(r, org, dir) == Some(p)
  {
    Triangles.IntersectIffStruck(r.t0, org, dir, p);
    Triangles.IntersectIffStruck(r.t1, org, dir, p);
  }

  /** `normal_at`: the rectangle always answers with t0's oriented normal. */
  function NormalAt(r: Rectangle, hit: Vec3, dir: Vec3): (n: Vec3)
    ensures n == r.t0.normal || n == Neg(r.t0.normal)
    ensures Dot(n, dir) <= 0.0
  {
    Triangles.NormalAt(r.t0, hit, dir)
  }

  /** `position`: a rectangle is anchored at p0. */
  function Position(r: Rectangle): Vec3 {
    r.p0
  }

  /** The position of a constructed rectangle is its first corner, which is
      also the position of its first triangle. */
  lemma PositionIsCorner(p0: Vec3, p1: Vec3, p2: Vec3, p3: Vec3, sqrt: real -> real)
    requires IsSqrt(sqrt)
    ensures Position(NewRectangle(p0, p1, p2, p3, sqrt)) == p0
    ensures Position(NewRectangle(p0, p1, p2, p3, sqrt)) == Triangles.Position(NewRectangle(p0, p1, p2, p3, sqrt).t0)
  {
  }
}
