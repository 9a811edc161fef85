/** Three-component vectors and the quadratic root finder (src/vec3.rs).
    The source is generic over the component type and instantiated with
    `f64`; here every component is an exact `real`. Square roots come from
    a `sqrt` argument that is only known to satisfy `IsSqrt`. */
module Vectors {
  import opened Optional

  datatype Vec3 = Vec3(x: real, y: real, z: real)

  /** `Vec3::default()`: the zero vector (also black, as a colour). */
  const Zero: Vec3 := Vec3(0.0, 0.0, 0.0)

  /** `sqrt` gives the non-negative square root of every non-negative real.
      What it gives for a negative argument is left open: IEEE arithmetic
      returns NaN there, which this model does not represent. */
  ghost predicate IsSqrt(sqrt: real -> real) {
    forall x :: RootAt(sqrt, x)
  }

  /** `sqrt` is right at x: for a non-negative x it gives the non-negative
      number whose square is x. */
  ghost predicate RootAt(sqrt: real -> real, x: real) {
    0.0 <= x ==> 0.0 <= sqrt(x) && sqrt(x) * sqrt(x) == x
  }

  // ---------------------------------------------------------------------
  // Scalar facts used by the vector proofs
  // ---------------------------------------------------------------------

  /** The product of two positive numbers is positive. */
  lemma ProductPositive(p: real, q: real, r: real)
    requires 0.0 < p && 0.0 < q && r == p * q
    ensures 0.0 < r
  {
  }

  lemma ProductNonNegative(p: real, q: real, r: real)
    requires 0.0 <= p && 0.0 <= q && r == p * q
    ensures 0.0 <= r
  {
    if p != 0.0 && q != 0.0 {
      ProductPositive(p, q, r);
    }
  }

  /** A square is never negative, and positive unless its root is zero. */
  lemma Square(a: real, r: real)
    requires r == a * a
    ensures 0.0 <= r
    ensures a != 0.0 ==> 0.0 < r
  {
    if a < 0.0 {
      ProductPositive(-a, -a, r);
    } else if a > 0.0 {
      ProductPositive(a, a, r);
    }
  }

  lemma SumOfSquares(v: Vec3, r: real)
    requires r == v.x * v.x + v.y * v.y + v.z * v.z
    ensures 0.0 <= r
    ensures v != Zero ==> 0.0 < r
  {
    Square(v.x, v.x * v.x);
    Square(v.y, v.y * v.y);
    Square(v.z, v.z * v.z);
    if v != Zero {
      assert v.x != 0.0 || v.y != 0.0 || v.z != 0.0;
    }
  }

  /** A product is zero only when a factor is. */
  lemma ZeroProduct(p: real, q: real)
    requires p != 0.0 && p * q == 0.0
    ensures q == 0.0
  {
    if q > 0.0 {
      if p > 0.0 { ProductPositive(p, q, p * q); } else { ProductPositive(-p, q, -(p * q)); }
    } else if q < 0.0 {
      if p > 0.0 { ProductPositive(p, -q, -(p * q)); } else { ProductPositive(-p, -q, p * q); }
    }
  }

  /** Two non-negative numbers with equal squares are equal. */
  lemma NonNegativeSquareRootUnique(s: real, a: real)
    requires 0.0 <= s && 0.0 <= a
    requires s * s == a * a
    ensures s == a
  {
    if s < a {
      ProductPositive(a - s, a + s, a * a - s * s);
    } else if s > a {
      ProductPositive(s - a, s + a, s * s - a * a);
    }
  }

  /** A non-negative number is the root of its own square. */
  lemma SqrtOfSquare(sqrt: real -> real, a: real, r: real)
    requires IsSqrt(sqrt)
    requires 0.0 <= a && r == a * a
    ensures sqrt(r) == a
  {
    Square(a, r);
    assert RootAt(sqrt, r);
    NonNegativeSquareRootUnique(sqrt(r), a);
  }

  /** The root of a positive number is positive. */
  lemma SqrtPositive(sqrt: real -> real, n: real)
    requires IsSqrt(sqrt)
    requires 0.0 < n
    ensures 0.0 < sqrt(n)
  {
    assert RootAt(sqrt, n);
  }

  // ---------------------------------------------------------------------
  // Length and dot product
  // ---------------------------------------------------------------------

  /** `len_sqr`: the squared Euclidean length (see LenSqrLaws). */
  function LenSqr(v: Vec3): real {
    v.x * v.x + v.y * v.y + v.z * v.z
  }

  /** The squared length is never negative, and zero exactly for the zero
      vector. */
  lemma LenSqrLaws(v: Vec3)
    ensures 0.0 <= LenSqr(v)
    ensures LenSqr(v) == 0.0 <==> v == Zero
  {
    SumOfSquares(v, LenSqr(v));
  }

  /** `dot`: the scalar product. */
  function Dot(a: Vec3, b: Vec3): real {
    a.x * b.x + a.y * b.y + a.z * b.z
  }

  // ---------------------------------------------------------------------
  // Componentwise arithmetic (the `Add`, `Sub`, `Mul` and `Neg` impls).
  // These carry no contracts of their own, so that every use of them does
  // not drag their algebra into unrelated proofs; the lemmas below state it.
  // ---------------------------------------------------------------------

  function Add(a: Vec3, b: Vec3): Vec3 {
    Vec3(a.x + b.x, a.y + b.y, a.z + b.z)
  }

  function Neg(v: Vec3): Vec3 {
    Vec3(-v.x, -v.y, -v.z)
  }

  function Sub(a: Vec3, b: Vec3): Vec3 {
    Vec3(a.x - b.x, a.y - b.y, a.z - b.z)
  }

  /** Scalar `Mul`. */
  function Scale(v: Vec3, k: real): Vec3 {
    Vec3(v.x * k, v.y * k, v.z * k)
  }

  /** Componentwise `Mul` (used on colours). */
  function Mul(a: Vec3, b: Vec3): Vec3 {
    Vec3(a.x * b.x, a.y * b.y, a.z * b.z)
  }

  /** The standard cross product. src/vec3.rs does not define it although
      the triangle code calls it. */
  function Cross(a: Vec3, b: Vec3): Vec3 {
    Vec3(a.y * b.z - a.z * b.y, a.z * b.x - a.x * b.z, a.x * b.y - a.y * b.x)
  }

  /** The point reached after travelling t along the ray from org in
      direction dir. */
  function PointAt(org: Vec3, dir: Vec3, t: real): Vec3 {
    Add(org, Scale(dir, t))
  }

  // ---------------------------------------------------------------------
  // Algebra of the operations
  // ---------------------------------------------------------------------

  /** Zero is the unit of `Add`, and `Sub` undoes it. */
  lemma AddSubLaws(a: Vec3, b: Vec3)
    ensures Add(a, Zero) == a && Add(Zero, a) == a
    ensures Sub(Add(a, b), b) == a && Add(Sub(a, b), b) == a
    ensures Sub(a, a) == Zero
    ensures Sub(a, b) == Zero ==> a == b
    ensures Sub(Zero, a) == Neg(a) && Add(a, Neg(a)) == Zero
  {
  }

  /** Negation flips every component and is its own inverse. */
  lemma NegLaws(v: Vec3)
    ensures Neg(Neg(v)) == v
    ensures Neg(v) == Scale(v, -1.0)
    ensures LenSqr(Neg(v)) == LenSqr(v)
  {
    assert (-v.x) * (-v.x) == v.x * v.x;
    assert (-v.y) * (-v.y) == v.y * v.y;
    assert (-v.z) * (-v.z) == v.z * v.z;
  }

  /** Only the zero vector is its own negation. */
  lemma NegFixesOnlyZero(v: Vec3)
    ensures Neg(v) == v <==> v == Zero
  {
  }

  lemma DotZero(v: Vec3)
    ensures Dot(v, Zero) == 0.0
  {
  }

  /** Scalar `Mul` scales every component by the same factor. */
  lemma ScaleLaws(v: Vec3, k: real, m: real)
    ensures Scale(v, 1.0) == v && Scale(v, 0.0) == Zero && Scale(Zero, k) == Zero
    ensures Scale(Scale(v, k), m) == Scale(v, k * m)
    ensures Scale(Add(v, v), k) == Add(Scale(v, k), Scale(v, k))
  {
    assert Scale(Scale(v, k), m).x == v.x * (k * m);
    assert Scale(Scale(v, k), m).y == v.y * (k * m);
    assert Scale(Scale(v, k), m).z == v.z * (k * m);
  }

  /** Componentwise `Mul` with a uniform operand is scalar `Mul`. */
  lemma MulUniform(a: Vec3, k: real)
    ensures Mul(a, Vec3(k, k, k)) == Scale(a, k)
    ensures Mul(Vec3(k, k, k), a) == Scale(a, k)
    ensures Mul(a, Zero) == Zero
  {
  }

  /** The dot product is symmetric, and a vector's product with itself is
      its squared length. */
  lemma DotLaws(a: Vec3, b: Vec3)
    ensures Dot(a, b) == Dot(b, a)
    ensures Dot(a, a) == LenSqr(a)
    ensures Dot(a, Neg(b)) == -Dot(a, b)
  {
  }

  /** Scaling a vector scales its squared length by the factor's square. */
  lemma LenSqrScale(v: Vec3, k: real)
    ensures LenSqr(Scale(v, k)) == k * k * LenSqr(v)
  {
    var r := Scale(v, k);
    assert r.x * r.x == k * k * (v.x * v.x);
    assert r.y * r.y == k * k * (v.y * v.y);
    assert r.z * r.z == k * k * (v.z * v.z);
  }

  /** Scaling one operand of a dot product scales the product. */
  lemma DotScale(v: Vec3, k: real, w: Vec3)
    ensures Dot(Scale(v, k), w) == k * Dot(v, w)
  {
    var r := Scale(v, k);
    assert r.x * w.x == k * (v.x * w.x);
    assert r.y * w.y == k * (v.y * w.y);
    assert r.z * w.z == k * (v.z * w.z);
  }

  /** The cross product is orthogonal to both operands, anticommutative, and
      zero for equal operands. */
  lemma CrossLaws(a: Vec3, b: Vec3)
    ensures Dot(Cross(a, b), a) == 0.0 && Dot(Cross(a, b), b) == 0.0
    ensures Cross(b, a) == Neg(Cross(a, b))
    ensures Cross(a, a) == Zero
  {
  }

  /** Cramer's rule for three vectors in triple-product form: with
      a = u . (d x v), every s satisfies
      a s = (s . (d x v)) u + (d . (s x u)) v - (v . (s x u)) d,
      stated per component so that no division is needed. */
  lemma CramerExpansionX(u: Vec3, d: Vec3, v: Vec3, s: Vec3)
    ensures Dot(u, Cross(d, v)) * s.x
      == Dot(s, Cross(d, v)) * u.x + Dot(d, Cross(s, u)) * v.x - Dot(v, Cross(s, u)) * d.x
  {
  }

  lemma CramerExpansionY(u: Vec3, d: Vec3, v: Vec3, s: Vec3)
    ensures Dot(u, Cross(d, v)) * s.y
      == Dot(s, Cross(d, v)) * u.y + Dot(d, Cross(s, u)) * v.y - Dot(v, Cross(s, u)) * d.y
  {
  }

  lemma CramerExpansionZ(u: Vec3, d: Vec3, v: Vec3, s: Vec3)
    ensures Dot(u, Cross(d, v)) * s.z
      == Dot(s, Cross(d, v)) * u.z + Dot(d, Cross(s, u)) * v.z - Dot(v, Cross(s, u)) * d.z
  {
  }

  /** The scalar triple product a . (b x c) is invariant under a cyclic
      rotation of its factors. */
  lemma TripleCyclic(a: Vec3, b: Vec3, c: Vec3)
    ensures Dot(a, Cross(b, c)) == Dot(b, Cross(c, a))
  {
  }

  /** The squared length of a a + b n in terms of the lengths of a and n
      and their dot product. */
  lemma LenSqrCombination(d: Vec3, n: Vec3, a: real, b: real)
    ensures LenSqr(Add(Scale(d, a), Scale(n, b)))
         == a * a * LenSqr(d) + b * b * LenSqr(n) + 2.0 * a * b * Dot(d, n)
  {
  }

  /** `dot` is linear in its first argument: the product of w a + z b - p c
      with x is w (a . x) + z (b . x) - p (c . x). */
  lemma DotCombination(a: Vec3, b: Vec3, c: Vec3, w: real, z: real, p: real, x: Vec3)
    ensures Dot(Sub(Add(Scale(a, w), Scale(b, z)), Scale(c, p)), x)
         == w * Dot(a, x) + z * Dot(b, x) - p * Dot(c, x)
  {
  }

  /** `a` is a positive multiple of `b`: parallel and pointing the same way. */
  ghost predicate SameDirection(a: Vec3, b: Vec3) {
    Cross(a, b) == Zero && Dot(a, b) > 0.0
  }

  lemma ScaledSameDirection(v: Vec3, k: real)
    requires v != Zero && 0.0 < k
    ensures SameDirection(Scale(v, k), v)
  {
    var r := Scale(v, k);
    DotScale(v, k, v);
    LenSqrLaws(v);
    ProductPositive(k, LenSqr(v), k * LenSqr(v));
    assert Cross(r, v).x == k * (v.y * v.z - v.z * v.y);
    assert Cross(r, v).y == k * (v.z * v.x - v.x * v.z);
    assert Cross(r, v).z == k * (v.x * v.y - v.y * v.x);
  }

  /** `normalize`: divides every component by the length, unless the
      squared length is zero (see NormalizeLaws). */
  function Normalize(v: Vec3, sqrt: real -> real): Vec3
    requires IsSqrt(sqrt)
  {
    var n := LenSqr(v);
    if n > 0.0 then
      SqrtPositive(sqrt, n);
      Scale(v, 1.0 / sqrt(n))
    else
      v
  }

  /** A vector of squared length zero is left as it is; any other vector
      becomes the unit vector pointing the same way, and multiplying it back
      by the length restores the original. */
  lemma NormalizeLaws(v: Vec3, sqrt: real -> real)
    requires IsSqrt(sqrt)
    ensures LenSqr(v) == 0.0 ==> Normalize(v, sqrt) == v
    ensures LenSqr(v) > 0.0 ==>
      LenSqr(Normalize(v, sqrt)) == 1.0 && SameDirection(Normalize(v, sqrt), v)
    ensures LenSqr(v) > 0.0 ==> Scale(Normalize(v, sqrt), sqrt(LenSqr(v))) == v
  {
    var n := LenSqr(v);
    if n > 0.0 {
      SqrtPositive(sqrt, n);
      assert RootAt(sqrt, n);
      var s := sqrt(n);
      var k := 1.0 / s;
      assert k * k * n == 1.0 by {
        assert k * s == 1.0;
        assert k * k * (s * s) == (k * s) * (k * s);
      }
      ScaledSameDirection(v, k);
      LenSqrScale(v, k);
      ScaleLaws(v, k, s);
    }
  }

  lemma ScaleZero(k: real)
    ensures Scale(Zero, k) == Zero
  {
  }

  /** Scaling the normalised vector back by the length restores it, the
      zero vector included. */
  lemma NormalizeScaleBack(v: Vec3, sqrt: real -> real)
    requires IsSqrt(sqrt)
    ensures Scale(Normalize(v, sqrt), sqrt(LenSqr(v))) == v
  {
    if LenSqr(v) > 0.0 {
      NormalizeLaws(v, sqrt);
    } else {
      LenSqrLaws(v);
      NormalizeLaws(v, sqrt);
      ScaleZero(sqrt(LenSqr(v)));
    }
  }

  /** Normalising keeps the zero vector and turns every other vector into
      the unit vector pointing the same way. */
  lemma NormalizeNonZero(v: Vec3, sqrt: real -> real)
    requires IsSqrt(sqrt)
    ensures v == Zero ==> Normalize(v, sqrt) == Zero
    ensures v != Zero ==>
      LenSqr(Normalize(v, sqrt)) == 1.0 && SameDirection(Normalize(v, sqrt), v)
  {
    LenSqrLaws(v);
    NormalizeLaws(v, sqrt);
  }

  // ---------------------------------------------------------------------
  // Quadratic equations
  // ---------------------------------------------------------------------

  /** The discriminant of a*t^2 + b*t + c with (a, b, c) = (eq.x, eq.y, eq.z). */
  function Discriminant(eq: Vec3): real {
    eq.y * eq.y - 4.0 * eq.x * eq.z
  }

  ghost predicate IsRoot(eq: Vec3, t: real) {
    eq.x * t * t + eq.y * t + eq.z == 0.0
  }

  /** Completing the square: t is a root exactly when (2at + b)^2 is the
      discriminant. */
  lemma RootIffCompletedSquare(eq: Vec3, t: real)
    requires eq.x != 0.0
    ensures IsRoot(eq, t) <==> (2.0 * eq.x * t + eq.y) * (2.0 * eq.x * t + eq.y) == Discriminant(eq)
  {
    var a, b, c := eq.x, eq.y, eq.z;
    var p := a * t * t + b * t + c;
    assert (2.0 * a * t + b) * (2.0 * a * t + b) - Discriminant(eq) == 4.0 * a * p;
    if p != 0.0 {
      assert 4.0 * a * p != 0.0;
    }
  }

  /** `solve_quadratic`: no roots when the discriminant is negative,
      otherwise the two roots (-b - sqrt d) / 2a and (-b + sqrt d) / 2a. */
  function SolveQuadratic(eq: Vec3, sqrt: real -> real): (r: Option<(real, real)>)
    requires IsSqrt(sqrt)
    requires eq.x != 0.0
    ensures r.None? <==> Discriminant(eq) < 0.0
    ensures r.Some? ==> IsRoot(eq, r.value.0) && IsRoot(eq, r.value.1)
    ensures r.Some? ==> 2.0 * eq.x * r.value.0 + eq.y <= 0.0 <= 2.0 * eq.x * r.value.1 + eq.y
    ensures r.Some? && eq.x > 0.0 ==> r.value.0 <= r.value.1
    ensures r.Some? && eq.x < 0.0 ==> r.value.1 <= r.value.0
  {
    var del := Discriminant(eq);
    if del < 0.0 then
      None
    else
      assert RootAt(sqrt, del);
      var root := sqrt(del);
      var x0 := (-eq.y - root) / (2.0 * eq.x);
      var x1 := (-eq.y + root) / (2.0 * eq.x);
      assert IsRoot(eq, x0) by {
        assert 2.0 * eq.x * x0 + eq.y == -root;
        RootIffCompletedSquare(eq, x0);
      }
      assert IsRoot(eq, x1) by {
        assert 2.0 * eq.x * x1 + eq.y == root;
        RootIffCompletedSquare(eq, x1);
      }
      Some((x0, x1))
  }

  lemma DivideOut(p: real, q: real, t: real)
    requires q != 0.0
    requires p == q * t
    ensures p / q == t
  {
  }

  /** The two roots returned are all the roots there are. */
  lemma QuadraticRootsComplete(eq: Vec3, sqrt: real -> real, t: real)
    requires IsSqrt(sqrt)
    requires eq.x != 0.0
    requires IsRoot(eq, t)
    ensures SolveQuadratic(eq, sqrt).Some?
    ensures t == SolveQuadratic(eq, sqrt).value.0 || t == SolveQuadratic(eq, sqrt).value.1
  {
    var del := Discriminant(eq);
    DiscriminantOfRoot(eq, t);
    assert RootAt(sqrt, del);
    RootIsOneOfTwo(eq, sqrt(del), t);
  }

  /** An equation with a root has a non-negative discriminant. */
  lemma DiscriminantOfRoot(eq: Vec3, t: real)
    requires eq.x != 0.0 && IsRoot(eq, t)
    ensures 0.0 <= Discriminant(eq)
  {
    RootIffCompletedSquare(eq, t);
    Square(2.0 * eq.x * t + eq.y, Discriminant(eq));
  }

  /** With s a non-negative square root of the discriminant, every root is
      (-b - s) / 2a or (-b + s) / 2a. */
  lemma RootIsOneOfTwo(eq: Vec3, s: real, t: real)
    requires eq.x != 0.0 && IsRoot(eq, t)
    requires 0.0 <= s && s * s == Discriminant(eq)
    ensures t == (-eq.y - s) / (2.0 * eq.x) || t == (-eq.y + s) / (2.0 * eq.x)
  {
    assert (2.0 * eq.x * t + eq.y) * (2.0 * eq.x * t + eq.y) == s * s by {
      RootIffCompletedSquare(eq, t);
    }
    SquareRootsOfLinear(eq.x, eq.y, s, t);
  }

  /** (2at + b)^2 = s^2 leaves t two possible values. */
  lemma SquareRootsOfLinear(a: real, b: real, s: real, t: real)
    requires a != 0.0
    requires (2.0 * a * t + b) * (2.0 * a * t + b) == s * s
    ensures t == (-b - s) / (2.0 * a) || t == (-b + s) / (2.0 * a)
  {
    var m := 2.0 * a * t + b;
    EqualSquares(m, s);
    if m == s {
      LinearRoot(a, b, t, s);
    } else {
      LinearRoot(a, b, t, -s);
      assert -b + -s == -b - s;
    }
  }

  /** Solving 2at + b = m for t. */
  lemma LinearRoot(a: real, b: real, t: real, m: real)
    requires a != 0.0 && m == 2.0 * a * t + b
    ensures t == (-b + m) / (2.0 * a)
  {
    DivideOut(-b + m, 2.0 * a, t);
  }

  /** Two reals with the same square are equal or opposite. */
  lemma EqualSquares(m: real, s: real)
    requires m * m == s * s
    ensures m == s || m == -s
  {
    assert (m - s) * (m + s) == m * m - s * s;
    if m != s {
      ZeroProduct(m - s, m + s);
    }
  }

  /** The unit test of src/vec3.rs: x^2 + x - 20 has the roots -5 and 4. */
  lemma QuadraticExample(sqrt: real -> real)
    requires IsSqrt(sqrt)
    ensures SolveQuadratic(Vec3(1.0, 1.0, -20.0), sqrt) == Some((-5.0, 4.0))
  {
    assert Discriminant(Vec3(1.0, 1.0, -20.0)) == 9.0 * 9.0;
    SqrtOfSquare(sqrt, 9.0, 81.0);
  }
}
