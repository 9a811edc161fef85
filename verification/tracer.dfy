/** The recursive Whitted tracer of src/lib.rs: the nearest-hit scan, the
    background gradient, the normal flip, reflection and refraction up to
    a fixed depth, shadowed point lights and the final colour clamp. */
module Tracer {
  import opened Optional
  import opened Vectors
  import opened Solids

  /** `MAX_DEPTH`: rays spawn reflection and refraction rays only below
      this depth. */
  const MaxDepth: int := 5

  /** The offset `1e-4` that moves secondary ray origins off the surface. */
  const Bias: real := 0.0001

  /** The index of refraction `1.1` of every transparent object. */
  const Ior: real := 1.1

  // ---------------------------------------------------------------------
  // Scalar helpers
  // ---------------------------------------------------------------------

  /** `mix(a, b, m) = b m + a (1 - m)`. */
  function Mix(a: real, b: real, m: real): real {
    b * m + a * (1.0 - m)
  }

  /** `mix` is linear interpolation: it gives a at 0, b at 1, and a value
      between a and b for every weight in [0, 1]. */
  lemma MixLaws(a: real, b: real, m: real)
    ensures Mix(a, b, 0.0) == a && Mix(a, b, 1.0) == b
    ensures 0.0 <= m <= 1.0 && a <= b ==> a <= Mix(a, b, m) <= b
    ensures 0.0 <= m <= 1.0 && b <= a ==> b <= Mix(a, b, m) <= a
  {
    if 0.0 <= m <= 1.0 {
      assert Mix(a, b, m) == a + (b - a) * m;
      if a <= b {
        assert 0.0 <= (b - a) * m <= (b - a) by {
          ProductNonNegative(b - a, m, (b - a) * m);
          ProductNonNegative(b - a, 1.0 - m, (b - a) * (1.0 - m));
        }
      } else {
        assert 0.0 <= (a - b) * m <= (a - b) by {
          ProductNonNegative(a - b, m, (a - b) * m);
          ProductNonNegative(a - b, 1.0 - m, (a - b) * (1.0 - m));
        }
      }
    }
  }

  function Abs(x: real): real {
    if x < 0.0 then -x else x
  }

  /** `f64::max`. */
  function Max(a: real, b: real): real {
    if a < b then b else a
  }

  function MaxInt(a: int, b: int): int {
    if a < b then b else a
  }

  // ---------------------------------------------------------------------
  // The nearest-hit scan (`trace` lines 21-30 and `get_hit_object_id`)
  // ---------------------------------------------------------------------

  /** What every object of the scene reports for one ray. */
  function Hits(objects: seq<Object>, org: Vec3, dir: Vec3, sqrt: real -> real): (hits: seq<Option<real>>)
    requires IsSqrt(sqrt)
    ensures |hits| == |objects|
    ensures forall j :: 0 <= j < |objects| ==> hits[j] == Solids.Intersect(objects[j].solid, org, dir, sqrt)
  {
    seq(|objects|, j requires 0 <= j < |objects| => Solids.Intersect(objects[j].solid, org, dir, sqrt))
  }

  /** The state of the scan loop after the first n objects: the index and
      parameter of the best hit so far, replaced only by a strictly smaller
      parameter. The source starts `tnear` at `f64::MAX`; None plays that
      role here. */
  function ScanUpTo(hits: seq<Option<real>>, n: nat): (r: Option<(nat, real)>)
    requires n <= |hits|
    ensures r.Some? ==> r.value.0 < n && hits[r.value.0] == Some(r.value.1)
  {
    if n == 0 then
      None
    else
      var best := ScanUpTo(hits, n - 1);
      match hits[n - 1]
      case None => best
      case Some(t) => if best.None? || t < best.value.1 then Some((n - 1, t)) else best
  }

  /** The result of the whole scan. */
  function Nearest(hits: seq<Option<real>>): Option<(nat, real)> {
    ScanUpTo(hits, |hits|)
  }

  /** Index i holds a nearest hit among the first n results, and no earlier
      index holds an equally near one. */
  ghost predicate IsNearest(hits: seq<Option<real>>, n: nat, i: int)
    requires n <= |hits|
  {
    0 <= i < n && hits[i].Some?
    && (forall j :: 0 <= j < n && hits[j].Some? ==> hits[i].value <= hits[j].value)
    && (forall j :: 0 <= j < i && hits[j].Some? ==> hits[i].value < hits[j].value)
  }

  /** The scan finds nothing exactly when nothing is hit, and otherwise it
      finds the first of the nearest hits. */
  lemma {:induction false} ScanFindsNearest(hits: seq<Option<real>>, n: nat)
    requires n <= |hits|
    ensures ScanUpTo(hits, n).None? <==> forall j :: 0 <= j < n ==> hits[j].None?
    ensures ScanUpTo(hits, n).Some? ==> IsNearest(hits, n, ScanUpTo(hits, n).value.0)
  {
    if n > 0 {
      ScanFindsNearest(hits, n - 1);
    }
  }

  /** There is at most one first nearest hit. */
  lemma NearestUnique(hits: seq<Option<real>>, n: nat, i: int, k: int)
    requires n <= |hits|
    requires IsNearest(hits, n, i) && IsNearest(hits, n, k)
    ensures i == k
  {
  }

  /** `get_hit_object_id`: the index of the first nearest object hit by the
      ray, or -1 when no object is hit. */
  method GetHitObjectId(objects: seq<Object>, org: Vec3, dir: Vec3, sqrt: real -> real) returns (id: int)
    requires IsSqrt(sqrt)
    ensures id == -1 <==>
      forall j :: 0 <= j < |objects| ==> Solids.Intersect(objects[j].solid, org, dir, sqrt).None?
    ensures id != -1 ==> IsNearest(Hits(objects, org, dir, sqrt), |objects|, id)
    ensures id == HitId(Hits(objects, org, dir, sqrt))
  {
    ghost var hits := Hits(objects, org, dir, sqrt);
    var tnear := 0.0;
    id := -1;
    var i := 0;
    while i < |objects|
      invariant 0 <= i <= |objects|
      invariant id == -1 <==> ScanUpTo(hits, i).None?
      invariant id != -1 ==> ScanUpTo(hits, i) == Some((id, tnear))
    {
      var r := Solids.Intersect(objects[i].solid, org, dir, sqrt);
      if r.Some? {
        var t := r.value;
        if id == -1 || t < tnear {
          tnear := t;
          id := i;
        }
      }
      i := i + 1;
    }
    ScanFindsNearest(hits, |objects|);
  }

  /** The id the scan reports for a list of hits: -1 or the index found. */
  function HitId(hits: seq<Option<real>>): int {
    match Nearest(hits)
    case None => -1
    case Some((i, _)) => i
  }

  // ---------------------------------------------------------------------
  // Shading helpers
  // ---------------------------------------------------------------------

  /** The background gradient `(0.1, 0.3, 0.5) (dir . (0, 0, -1))^2`,
      computed as in the source: normalised and scaled back by its length. */
  function Background(dir: Vec3, sqrt: real -> real): Vec3
    requires IsSqrt(sqrt)
  {
    Rescaled(Gradient(dir), sqrt)
  }

  /** `*c.normalize() * c.len()`. */
  function Rescaled(c: Vec3, sqrt: real -> real): Vec3
    requires IsSqrt(sqrt)
  {
    var intensity := sqrt(LenSqr(c));
    Scale(Normalize(c, sqrt), intensity)
  }

  function Gradient(dir: Vec3): Vec3 {
    var s := Dot(dir, Vec3(0.0, 0.0, -1.0));
    Scale(Vec3(0.1, 0.3, 0.5), s * s)
  }

  /** Normalising and scaling back by the length gives the gradient colour
      itself. */
  lemma BackgroundIsGradient(dir: Vec3, sqrt: real -> real)
    requires IsSqrt(sqrt)
    ensures Background(dir, sqrt) == Gradient(dir)
  {
    NormalizeScaleBack(Gradient(dir), sqrt);
  }

  /** The normal after the flip and the `inside` flag. */
  datatype Oriented = Oriented(normal: Vec3, inside: bool)

  /** The flip of lines 45-48: a normal pointing along the ray is negated
      and the hit counts as inside. */
  function Orient(n: Vec3, dir: Vec3): (r: Oriented)
    ensures Dot(dir, r.normal) <= 0.0
    ensures r.inside <==> Dot(dir, n) > 0.0
    ensures r.normal == n || r.normal == Neg(n)
  {
    DotLaws(dir, n);
    if Dot(dir, n) > 0.0 then Oriented(Neg(n), true) else Oriented(n, false)
  }

  /** The flip changes the normal exactly when it sets `inside`, and keeps
      its length. */
  lemma OrientLaws(n: Vec3, dir: Vec3)
    ensures Orient(n, dir).inside <==> Orient(n, dir).normal != n
    ensures LenSqr(Orient(n, dir).normal) == LenSqr(n)
  {
    NegLaws(n);
    NegFixesOnlyZero(n);
    DotZero(dir);
  }

  /** The mirror direction `dir - 2 (dir . n) n`. */
  function Reflect(dir: Vec3, n: Vec3): Vec3 {
    Sub(dir, Scale(Scale(n, 2.0), Dot(dir, n)))
  }

  /** Mirroring in a unit normal reverses the normal component of the
      direction. */
  lemma ReflectLaws(dir: Vec3, n: Vec3)
    requires LenSqr(n) == 1.0
    ensures Dot(Reflect(dir, n), n) == -Dot(dir, n)
  {
    var k := Dot(dir, n);
    assert Dot(Scale(Scale(n, 2.0), k), n) == 2.0 * k * LenSqr(n);
  }

  /** The Fresnel weight `mix((1 - facing)^3, 1, 0.1)`. */
  function Fresnel(facing: real): real {
    var a := 1.0 - facing;
    Mix(a * a * a, 1.0, 0.1)
  }

  /** For a facing ratio in [0, 1] the Fresnel weight is between 0.1 and 1. */
  lemma FresnelBounds(facing: real)
    requires 0.0 <= facing <= 1.0
    ensures 0.1 <= Fresnel(facing) <= 1.0
  {
    var a := 1.0 - facing;
    ProductNonNegative(a, a, a * a);
    ProductNonNegative(a * a, a, a * a * a);
    assert a * a <= 1.0 by {
      ProductNonNegative(a, 1.0 - a, a * (1.0 - a));
    }
    assert a * a * a <= 1.0 by {
      ProductNonNegative(a * a, 1.0 - a, a * a * (1.0 - a));
    }
  }

  /** The index ratio: `ior` leaving the object, `1 / ior` entering it. */
  function Eta(inside: bool): real {
    if inside then Ior else 1.0 / Ior
  }

  /** `k = 1 - eta^2 (1 - cosi^2)` with `cosi = -(n . dir)`; it is negative
      exactly under total internal reflection. */
  function RefractK(dir: Vec3, nhit: Vec3, inside: bool): real {
    var cosi := -Dot(nhit, dir);
    1.0 - Eta(inside) * Eta(inside) * (1.0 - cosi * cosi)
  }

  /** The refracted direction `dir eta + n (eta cosi - sqrt k)`. The square
      root of a negative k (total internal reflection) is NaN in the source;
      here it is whatever the square root parameter returns. */
  function RefractDir(dir: Vec3, nhit: Vec3, inside: bool, sqrt: real -> real): Vec3 {
    var eta := Eta(inside);
    var cosi := -Dot(nhit, dir);
    Add(Scale(dir, eta), Scale(nhit, eta * cosi - sqrt(RefractK(dir, nhit, inside))))
  }

  /** Without total internal reflection, a unit direction refracted at a
      unit normal is again a unit vector (Snell's law keeps the length), on
      the way in and on the way out. */
  lemma RefractUnit(dir: Vec3, nhit: Vec3, inside: bool, sqrt: real -> real)
    requires IsSqrt(sqrt)
    requires LenSqr(dir) == 1.0 && LenSqr(nhit) == 1.0
    requires 0.0 <= RefractK(dir, nhit, inside)
    ensures LenSqr(RefractDir(dir, nhit, inside, sqrt)) == 1.0
  {
    var k := RefractK(dir, nhit, inside);
    assert RootAt(sqrt, k);
    RefractLength(dir, nhit, Eta(inside), sqrt(k));
  }

  /** RefractUnit with the square root of k given as a number. */
  lemma RefractLength(dir: Vec3, n: Vec3, eta: real, root: real)
    requires LenSqr(dir) == 1.0 && LenSqr(n) == 1.0
    requires var c := -Dot(n, dir); root * root == 1.0 - eta * eta * (1.0 - c * c)
    ensures var c := -Dot(n, dir); LenSqr(Add(Scale(dir, eta), Scale(n, eta * c - root))) == 1.0
  {
    var c := -Dot(n, dir);
    var m := eta * c - root;
    assert Dot(dir, n) == -c by {
      DotLaws(dir, n);
    }
    LenSqrCombination(dir, n, eta, m);
    SnellScalar(eta, c, root, root * root);
  }

  /** The scalar identity behind RefractUnit:
      eta^2 + m^2 - 2 eta m c = 1 for m = eta c - sqrt k. */
  lemma SnellScalar(eta: real, c: real, root: real, k: real)
    requires root * root == k && k == 1.0 - eta * eta * (1.0 - c * c)
    ensures eta * eta * 1.0 + (eta * c - root) * (eta * c - root) * 1.0
            + 2.0 * eta * (eta * c - root) * -c == 1.0
  {
  }

  /** A unit ray meeting the surface head-on passes straight through. */
  lemma RefractHeadOn(dir: Vec3, inside: bool, sqrt: real -> real)
    requires IsSqrt(sqrt)
    requires LenSqr(dir) == 1.0
    ensures RefractK(dir, Neg(dir), inside) == 1.0
    ensures RefractDir(dir, Neg(dir), inside, sqrt) == dir
  {
    assert Dot(Neg(dir), dir) == -1.0 by {
      DotLaws(dir, Neg(dir));
      DotLaws(dir, dir);
    }
    SqrtOfSquare(sqrt, 1.0, 1.0);
  }

  // ---------------------------------------------------------------------
  // Point lights and shadows (lines 69-93)
  // ---------------------------------------------------------------------

  /** Some object other than the light itself is hit by the shadow ray;
      the loop scans objects 0 .. n-1. */
  function Blocked(hits: seq<Option<real>>, light: int, n: nat): bool
    requires n <= |hits|
  {
    if n == 0 then false
    else Blocked(hits, light, n - 1) || (n - 1 != light && hits[n - 1].Some?)
  }

  /** The scan reports a blocker exactly when one exists. */
  lemma {:induction false} BlockedIffExists(hits: seq<Option<real>>, light: int, n: nat)
    requires n <= |hits|
    ensures Blocked(hits, light, n) <==> exists j :: 0 <= j < n && j != light && hits[j].Some?
  {
    if n > 0 {
      BlockedIffExists(hits, light, n - 1);
      if n - 1 != light && hits[n - 1].Some? {
        assert exists j :: 0 <= j < n && j != light && hits[j].Some? by {
          assert 0 <= n - 1 < n && n - 1 != light && hits[n - 1].Some?;
        }
      }
    }
  }

  /** The light fall-off `1 - 0.3 d2 / (1 + |d2|)`. */
  function Falloff(dist2: real): real {
    1.0 - 0.3 * dist2 / (1.0 + Abs(dist2))
  }

  /** The fall-off stays between 0.7 and 1, so a lit point is never black
      for lack of intensity. */
  lemma FalloffBounds(dist2: real)
    requires 0.0 <= dist2
    ensures 0.7 < Falloff(dist2) <= 1.0
  {
    var q := dist2 / (1.0 + dist2);
    assert q * (1.0 + dist2) == dist2;
    assert 0.0 <= q < 1.0;
  }

  /** The unit direction from the hit point towards a light's position. */
  function LightDirection(light: Object, phit: Vec3, sqrt: real -> real): Vec3
    requires IsSqrt(sqrt)
  {
    Normalize(Sub(light.pos, phit), sqrt)
  }

  /** The shadow ray leaves from the hit point moved by Bias along the
      normal. */
  function ShadowHits(objects: seq<Object>, i: nat, phit: Vec3, nhit: Vec3, sqrt: real -> real): (hits: seq<Option<real>>)
    requires IsSqrt(sqrt) && i < |objects|
    ensures |hits| == |objects|
  {
    Hits(objects, Add(phit, Scale(nhit, Bias)), LightDirection(objects[i], phit, sqrt), sqrt)
  }

  /** The transmission of light i: its fall-off in every channel, or zero
      as soon as the shadow ray hits any other object. */
  function Transmission(objects: seq<Object>, i: nat, phit: Vec3, nhit: Vec3, sqrt: real -> real): Vec3
    requires IsSqrt(sqrt) && i < |objects|
  {
    var hits := ShadowHits(objects, i, phit, nhit, sqrt);
    if Blocked(hits, i, |objects|) then
      Zero
    else
      var val := Falloff(LenSqr(Sub(objects[i].pos, phit)));
      Vec3(val, val, val)
  }

  /** The shadow rule: the transmission is zero exactly when some object
      other than the light itself (the shaded object included) blocks the
      shadow ray. */
  lemma TransmissionZeroIffBlocked(objects: seq<Object>, i: nat, phit: Vec3, nhit: Vec3, sqrt: real -> real)
    requires IsSqrt(sqrt) && i < |objects|
    ensures var hits := ShadowHits(objects, i, phit, nhit, sqrt);
      Transmission(objects, i, phit, nhit, sqrt) == Zero <==>
      exists j :: 0 <= j < |objects| && j != i && hits[j].Some?
  {
    var hits := ShadowHits(objects, i, phit, nhit, sqrt);
    BlockedIffExists(hits, i, |objects|);
    var d := LenSqr(Sub(objects[i].pos, phit));
    LenSqrLaws(Sub(objects[i].pos, phit));
    FalloffBounds(d);
  }

  /** What light i adds to the colour of the hit object:
      surface * transmission * max(n . l, 0) * emission. */
  function Contribution(objects: seq<Object>, obj: Object, i: nat, phit: Vec3, nhit: Vec3,
                        sqrt: real -> real): Vec3
    requires IsSqrt(sqrt) && i < |objects|
  {
    var l := LightDirection(objects[i], phit, sqrt);
    Lit(obj.surface, Transmission(objects, i, phit, nhit, sqrt), Dot(nhit, l), objects[i].emission)
  }

  /** The product of line 89 for a given transmission and cosine. */
  function Lit(surface: Vec3, tr: Vec3, cos: real, emission: Vec3): Vec3 {
    Mul(Scale(Mul(surface, tr), Max(cos, 0.0)), emission)
  }

  /** A blocked light contributes nothing. */
  lemma BlockedLightIsDark(objects: seq<Object>, obj: Object, i: nat, phit: Vec3, nhit: Vec3,
                           sqrt: real -> real)
    requires IsSqrt(sqrt) && i < |objects|
    requires Transmission(objects, i, phit, nhit, sqrt) == Zero
    ensures Contribution(objects, obj, i, phit, nhit, sqrt) == Zero
  {
    LitByZero(obj.surface, Dot(nhit, LightDirection(objects[i], phit, sqrt)), objects[i].emission);
  }

  lemma LitByZero(surface: Vec3, cos: real, emission: Vec3)
    ensures Lit(surface, Zero, cos, emission) == Zero
  {
  }

  /** An object emits light when the red channel of its emission is
      positive (the test of line 71). */
  predicate IsLight(o: Object) {
    o.emission.x > 0.0
  }

  /** Every object's potential contribution, in scene order. */
  function Contributions(objects: seq<Object>, obj: Object, phit: Vec3, nhit: Vec3, sqrt: real -> real): (c: seq<Vec3>)
    requires IsSqrt(sqrt)
    ensures |c| == |objects|
    ensures forall i :: 0 <= i < |objects| ==> c[i] == Contribution(objects, obj, i, phit, nhit, sqrt)
  {
    seq(|objects|, i requires 0 <= i < |objects| => Contribution(objects, obj, i, phit, nhit, sqrt))
  }

  /** The colour after the light loop has visited objects 0 .. n-1: the
      contributions of the lights among them added up in order. */
  function SumLights(objects: seq<Object>, c: seq<Vec3>, n: nat): Vec3
    requires |c| == |objects| && n <= |objects|
  {
    if n == 0 then
      Zero
    else
      var acc := SumLights(objects, c, n - 1);
      if IsLight(objects[n - 1]) then Add(acc, c[n - 1]) else acc
  }

  /** The diffuse colour of the hit object (lines 70-92). */
  function Diffuse(objects: seq<Object>, obj: Object, phit: Vec3, nhit: Vec3, sqrt: real -> real): Vec3
    requires IsSqrt(sqrt)
  {
    SumLights(objects, Contributions(objects, obj, phit, nhit, sqrt), |objects|)
  }

  /** Objects that are not lights add nothing, and lights that add zero
      leave the sum where it was: with no visible light the sum is black. */
  lemma {:induction false} DarkSumIsBlack(objects: seq<Object>, c: seq<Vec3>, n: nat)
    requires |c| == |objects| && n <= |objects|
    requires forall i :: 0 <= i < n && IsLight(objects[i]) ==> c[i] == Zero
    ensures SumLights(objects, c, n) == Zero
  {
    if n > 0 {
      DarkSumIsBlack(objects, c, n - 1);
      if IsLight(objects[n - 1]) {
        assert c[n - 1] == Zero;
        assert Add(Zero, Zero) == Zero;
      }
    }
  }

  /** A point every one of whose lights is blocked gets no diffuse light. */
  lemma AllLightsBlockedIsBlack(objects: seq<Object>, obj: Object, phit: Vec3, nhit: Vec3, sqrt: real -> real)
    requires IsSqrt(sqrt)
    requires forall i :: 0 <= i < |objects| && IsLight(objects[i]) ==>
      Transmission(objects, i, phit, nhit, sqrt) == Zero
    ensures Diffuse(objects, obj, phit, nhit, sqrt) == Zero
  {
    var c := Contributions(objects, obj, phit, nhit, sqrt);
    forall i | 0 <= i < |objects| && IsLight(objects[i])
      ensures c[i] == Zero
    {
      BlockedLightIsDark(objects, obj, i, phit, nhit, sqrt);
    }
    DarkSumIsBlack(objects, c, |objects|);
  }

  // ---------------------------------------------------------------------
  // The final clamp and the tracer
  // ---------------------------------------------------------------------

  /** Lines 98-104: a colour longer than 1 is normalised, any other is kept. */
  function Clamp(c: Vec3, sqrt: real -> real): (r: Vec3)
    requires IsSqrt(sqrt)
    ensures LenSqr(r) <= 1.0
    ensures LenSqr(c) <= 1.0 ==> r == c
    ensures LenSqr(c) > 1.0 ==> LenSqr(r) == 1.0 && SameDirection(r, c)
  {
    NormalizeLaws(c, sqrt);
    if LenSqr(c) > 1.0 then Normalize(c, sqrt) else c
  }

  /** The colour `trace` returns, together with the deepest recursion level
      reached while computing it (the model's record of the call tree). */
  datatype Traced = Traced(color: Vec3, deepest: int)

  /** `trace`. Reflective or transparent objects spawn a reflection ray and,
      when transparent, a refraction ray, one level deeper, only while the
      depth is below MaxDepth; everything else is lit by the point lights.
      The result is clamped. */
  function Trace(org: Vec3, dir: Vec3, objects: seq<Object>, depth: int, sqrt: real -> real): (r: Traced)
    requires IsSqrt(sqrt)
    ensures depth <= r.deepest
    ensures depth <= MaxDepth ==> r.deepest <= MaxDepth
    ensures MaxDepth <= depth ==> r.deepest == depth
    ensures Nearest(Hits(objects, org, dir, sqrt)).Some? ==> LenSqr(r.color) <= 1.0
    decreases if depth < MaxDepth then MaxDepth - depth else 0
  {
    var hits := Hits(objects, org, dir, sqrt);
    match Nearest(hits)
    case None => Traced(Background(dir, sqrt), depth)
    case Some((i, tnear)) =>
      var obj := objects[i];
      var phit := PointAt(org, dir, tnear);
      var o := Orient(Solids.NormalAt(obj.solid, phit, dir, sqrt), dir);
      var nhit := o.normal;
      if Spawns(obj, depth) then
        var fresnel := Fresnel(-Dot(dir, nhit));
        var refl := Trace(Add(phit, Scale(nhit, Bias)), Normalize(Reflect(dir, nhit), sqrt), objects, depth + 1, sqrt);
        var refr :=
          if obj.transparency > 0.0 then
            Trace(Sub(phit, Scale(nhit, Bias)), Normalize(RefractDir(dir, nhit, o.inside, sqrt), sqrt), objects, depth + 1, sqrt)
          else
            Traced(Zero, depth);
        var surface := Mul(obj.surface, Add(Scale(refl.color, fresnel), Scale(Scale(refr.color, 1.0 - fresnel), obj.transparency)));
        Traced(Clamp(Add(surface, obj.emission), sqrt), MaxInt(refl.deepest, refr.deepest))
      else
        Traced(Clamp(Add(Diffuse(objects, obj, phit, nhit, sqrt), obj.emission), sqrt), depth)
  }

  /** The guard of line 50: secondary rays are spawned only for reflective
      or transparent objects and only below MaxDepth. */
  predicate Spawns(obj: Object, depth: int) {
    (obj.transparency > 0.0 || obj.reflection > 0.0) && depth < MaxDepth
  }

  /** A ray that hits nothing gets the background gradient, at any depth. */
  lemma TraceMiss(org: Vec3, dir: Vec3, objects: seq<Object>, depth: int, sqrt: real -> real)
    requires IsSqrt(sqrt)
    requires forall j :: 0 <= j < |objects| ==> Solids.Intersect(objects[j].solid, org, dir, sqrt).None?
    ensures Trace(org, dir, objects, depth, sqrt).color == Gradient(dir)
    ensures Trace(org, dir, objects, depth, sqrt).deepest == depth
  {
    ScanFindsNearest(Hits(objects, org, dir, sqrt), |objects|);
    BackgroundIsGradient(dir, sqrt);
  }

  /** A hit on an object that neither reflects nor refracts spawns no
      secondary ray, whatever the depth: the recursion stops at this level. */
  lemma TraceOpaque(org: Vec3, dir: Vec3, objects: seq<Object>, depth: int, sqrt: real -> real)
    requires IsSqrt(sqrt)
    requires Nearest(Hits(objects, org, dir, sqrt)).Some?
    requires var obj := objects[Nearest(Hits(objects, org, dir, sqrt)).value.0];
      obj.transparency <= 0.0 && obj.reflection <= 0.0
    ensures Trace(org, dir, objects, depth, sqrt).deepest == depth
  {
  }
}
