/**
 * Three-component vectors over exact reals, standing for the numpy arrays
 * of the ray tracer. Square roots are not definable here, so every
 * operation that needs one takes the square-root function as a parameter;
 * the lemmas assume only that it is a square root (`IsSqrt`).
 */
module Vectors {
  datatype Vec3 = Vec3(x: real, y: real, z: real)

  const Zero: Vec3 := Vec3(0.0, 0.0, 0.0)

  function Add(a: Vec3, b: Vec3): Vec3 { Vec3(a.x + b.x, a.y + b.y, a.z + b.z) }

  function Sub(a: Vec3, b: Vec3): Vec3 { Vec3(a.x - b.x, a.y - b.y, a.z - b.z) }

  function Scale(a: Vec3, k: real): Vec3 { Vec3(a.x * k, a.y * k, a.z * k) }

  /** Element-wise product (`np.multiply`). */
  function Mul(a: Vec3, b: Vec3): Vec3 { Vec3(a.x * b.x, a.y * b.y, a.z * b.z) }

  function Dot(a: Vec3, b: Vec3): real { a.x * b.x + a.y * b.y + a.z * b.z }

  function Cross(a: Vec3, b: Vec3): Vec3 {
    Vec3(a.y * b.z - a.z * b.y, a.z * b.x - a.x * b.z, a.x * b.y - a.y * b.x)
  }

  /** The functions that behave as the non-negative square root on non-negative reals. */
  ghost predicate IsSqrt(sqrt: real -> real) {
    forall r: real :: 0.0 <= r ==> 0.0 <= sqrt(r) && sqrt(r) * sqrt(r) == r
  }

  /** Euclidean length (`np.linalg.norm`). */
  function Norm(v: Vec3, sqrt: real -> real): real { sqrt(Dot(v, v)) }

  /**
   * `normalize_rows`: the vector divided by its length: a unit vector
   * pointing the same way. numpy yields NaN for the zero vector; the model
   * yields Zero there instead.
   */
  function Normalize(v: Vec3, sqrt: real -> real): (r: Vec3)
    ensures Norm(v, sqrt) == 0.0 ==> r == Zero
    ensures Norm(v, sqrt) != 0.0 ==> r == Scale(v, 1.0 / Norm(v, sqrt))
    ensures IsSqrt(sqrt) ==> (r == Zero <==> v == Zero)
    ensures IsSqrt(sqrt) && v != Zero ==> Norm(v, sqrt) > 0.0 && IsUnit(r)
  {
    NormFacts(v, sqrt);
    UnitScaling(v, sqrt);
    var n := Norm(v, sqrt);
    if n == 0.0 then Zero else Scale(v, 1.0 / n)
  }

  predicate IsUnit(v: Vec3) { Dot(v, v) == 1.0 }

  // ------------------------------------------------------ facts about reals

  /** A square is non-negative, and zero only for zero. */
  lemma Square(r: real)
    ensures r * r >= 0.0
    ensures r * r == 0.0 ==> r == 0.0
  {
    if r != 0.0 {
      var k := 1.0 / r;
      assert k * r == 1.0;
      assert k * k * (r * r) == (k * r) * (k * r);
    }
  }

  lemma MulPositive(a: real, b: real)
    requires 0.0 < a && 0.0 < b
    ensures 0.0 < a * b
  {
  }

  lemma NonNegativeProduct(a: real, b: real)
    requires 0.0 <= a && 0.0 <= b
    ensures 0.0 <= a * b
  {
  }

  /** Squaring is strictly increasing on the non-negative reals. */
  lemma SquareIncreasing(a: real, b: real)
    requires 0.0 <= a < b
    ensures a * a < b * b
  {
    MulPositive(b - a, b + a);
    assert (b - a) * (b + a) == b * b - a * a;
  }

  /** `q` is the non-negative root of `a * a`, so it bounds `a` on both sides. */
  lemma RootBounds(a: real, q: real)
    requires 0.0 <= q && a * a == q * q
    ensures -q <= a <= q
  {
    if a > q {
      SquareIncreasing(q, a);
    } else if a < -q {
      assert (-a) * (-a) == a * a;
      SquareIncreasing(q, -a);
    }
  }

  lemma UnitRoot(s: real)
    requires s >= 0.0 && s * s == 1.0
    ensures s == 1.0
  {
    RootBounds(1.0, s);
    RootBounds(s, 1.0);
  }

  // ------------------------------------------------------ facts about Dot

  lemma DotSelfNonNegative(v: Vec3)
    ensures Dot(v, v) >= 0.0
    ensures Dot(v, v) == 0.0 <==> v == Zero
  {
    Square(v.x);
    Square(v.y);
    Square(v.z);
  }

  lemma DotSymmetric(a: Vec3, b: Vec3)
    ensures Dot(a, b) == Dot(b, a)
  {
  }

  lemma DotAdd(a: Vec3, b: Vec3, c: Vec3)
    ensures Dot(Add(a, b), c) == Dot(a, c) + Dot(b, c)
    ensures Dot(c, Add(a, b)) == Dot(c, a) + Dot(c, b)
  {
  }

  lemma DotSub(a: Vec3, b: Vec3, c: Vec3)
    ensures Dot(Sub(a, b), c) == Dot(a, c) - Dot(b, c)
    ensures Dot(c, Sub(a, b)) == Dot(c, a) - Dot(c, b)
  {
  }

  lemma DotScale(a: Vec3, b: Vec3, k: real)
    ensures Dot(Scale(a, k), b) == k * Dot(a, b)
    ensures Dot(a, Scale(b, k)) == k * Dot(a, b)
  {
  }

  /** Scaling one factor keeps a vanishing dot product at zero. */
  lemma DotScaleZero(a: Vec3, b: Vec3, k: real)
    requires Dot(a, b) == 0.0
    ensures Dot(Scale(a, k), b) == 0.0 && Dot(b, Scale(a, k)) == 0.0
  {
    DotScale(a, b, k);
    DotScale(b, a, k);
  }

  /** Taking `k m` away and then `-k m` away again gives back the vector. */
  lemma SubScaleCancel(d: Vec3, m: Vec3, k: real)
    ensures Sub(Sub(d, Scale(m, k)), Scale(m, -k)) == d
  {
    var l := Sub(Sub(d, Scale(m, k)), Scale(m, -k));
    assert l.x == d.x by { assert m.x * (-k) == -(m.x * k); }
    assert l.y == d.y by { assert m.y * (-k) == -(m.y * k); }
    assert l.z == d.z by { assert m.z * (-k) == -(m.z * k); }
  }

  // ------------------------------------------------- facts about the norm

  /** The square root of 1 is 1 and the square root of 0 is 0. */
  lemma SqrtOfOneAndZero(sqrt: real -> real)
    requires IsSqrt(sqrt)
    ensures sqrt(1.0) == 1.0 && sqrt(0.0) == 0.0
  {
    UnitRoot(sqrt(1.0));
    Square(sqrt(0.0));
  }

  /** The norm is the non-negative root of `Dot(v, v)`; it vanishes exactly on the zero vector. */
  lemma NormFacts(v: Vec3, sqrt: real -> real)
    ensures IsSqrt(sqrt) ==> Norm(v, sqrt) >= 0.0 && Norm(v, sqrt) * Norm(v, sqrt) == Dot(v, v)
    ensures IsSqrt(sqrt) ==> (Norm(v, sqrt) == 0.0 <==> v == Zero)
  {
    if IsSqrt(sqrt) {
      DotSelfNonNegative(v);
      var n := Norm(v, sqrt);
      assert n >= 0.0 && n * n == Dot(v, v);
      if v == Zero {
        SqrtOfOneAndZero(sqrt);
      } else {
        Square(n);
      }
    }
  }

  /** Dividing a non-zero vector by its norm gives a unit vector. */
  lemma UnitScaling(v: Vec3, sqrt: real -> real)
    ensures IsSqrt(sqrt) && v != Zero ==> Norm(v, sqrt) > 0.0 && IsUnit(Scale(v, 1.0 / Norm(v, sqrt)))
  {
    if IsSqrt(sqrt) && v != Zero {
      NormFacts(v, sqrt);
      var n := Norm(v, sqrt);
      var k := 1.0 / n;
      DotScale(v, Scale(v, k), k);
      DotScale(v, v, k);
      assert Dot(Scale(v, k), Scale(v, k)) == k * k * Dot(v, v);
      assert k * n == 1.0;
      assert k * k * (n * n) == (k * n) * (k * n);
    }
  }

  /** Normalising keeps a vector orthogonal to whatever it was orthogonal to. */
  lemma NormalizeOrthogonal(v: Vec3, w: Vec3, sqrt: real -> real)
    requires Dot(v, w) == 0.0
    ensures Dot(Normalize(v, sqrt), w) == 0.0
  {
    if Norm(v, sqrt) != 0.0 {
      DotScale(v, w, 1.0 / Norm(v, sqrt));
    }
  }

  /** A non-zero vector and its normalisation point the same way: their dot product is the norm. */
  lemma NormalizeAligned(v: Vec3, sqrt: real -> real)
    ensures IsSqrt(sqrt) && v != Zero ==> Norm(v, sqrt) > 0.0 && Dot(Normalize(v, sqrt), v) == Norm(v, sqrt)
  {
    if IsSqrt(sqrt) && v != Zero {
      NormFacts(v, sqrt);
      var n := Norm(v, sqrt);
      var k := 1.0 / n;
      DotScale(v, v, k);
      assert Dot(Normalize(v, sqrt), v) == k * (n * n);
      assert k * n == 1.0;
    }
  }

  /** A unit vector is its own normalisation. */
  lemma NormalizeOfUnit(v: Vec3, sqrt: real -> real)
    requires IsSqrt(sqrt) && IsUnit(v)
    ensures Normalize(v, sqrt) == v
  {
    SqrtOfOneAndZero(sqrt);
  }

  /** Normalising twice is normalising once. */
  lemma NormalizeIdempotent(v: Vec3, sqrt: real -> real)
    ensures IsSqrt(sqrt) ==> Normalize(Normalize(v, sqrt), sqrt) == Normalize(v, sqrt)
  {
    if IsSqrt(sqrt) {
      if v == Zero {
        SqrtOfOneAndZero(sqrt);
      } else {
        NormalizeOfUnit(Normalize(v, sqrt), sqrt);
      }
    }
  }

  /** Lagrange's identity: the squared length of a cross product. */
  lemma CrossLength(a: Vec3, b: Vec3)
    ensures Dot(Cross(a, b), Cross(a, b)) == Dot(a, a) * Dot(b, b) - Dot(a, b) * Dot(a, b)
  {
  }

  /** The cross product is additive in its first factor. */
  lemma CrossAdd(a: Vec3, b: Vec3, c: Vec3)
    ensures Cross(Add(a, b), c) == Add(Cross(a, c), Cross(b, c))
  {
  }

  lemma CrossSub(a: Vec3, b: Vec3, c: Vec3)
    ensures Cross(Sub(a, b), c) == Sub(Cross(a, c), Cross(b, c))
  {
  }

  /** The cross product is homogeneous in its first factor. */
  lemma CrossScale(a: Vec3, c: Vec3, k: real)
    ensures Cross(Scale(a, k), c) == Scale(Cross(a, c), k)
  {
    var l, r := Cross(Scale(a, k), c), Scale(Cross(a, c), k);
    assert l.x == r.x by { assert (a.y * k) * c.z - (a.z * k) * c.y == (a.y * c.z - a.z * c.y) * k; }
    assert l.y == r.y by { assert (a.z * k) * c.x - (a.x * k) * c.z == (a.z * c.x - a.x * c.z) * k; }
    assert l.z == r.z by { assert (a.x * k) * c.y - (a.y * k) * c.x == (a.x * c.y - a.y * c.x) * k; }
  }

  /** The cross product of a vector with itself vanishes. */
  lemma CrossSelf(a: Vec3)
    ensures Cross(a, a) == Zero
  {
  }

  /** The cross product changes sign when its factors swap. */
  lemma CrossSwap(a: Vec3, b: Vec3)
    ensures Cross(b, a) == Scale(Cross(a, b), -1.0)
  {
  }

  /** The triple product is invariant under cyclic permutation. */
  lemma TripleCyclic(a: Vec3, b: Vec3, c: Vec3)
    ensures Dot(Cross(a, b), c) == Dot(Cross(c, a), b)
  {
  }

  /** The cross product is orthogonal to both of its factors. */
  lemma CrossOrthogonal(a: Vec3, b: Vec3)
    ensures Dot(Cross(a, b), a) == 0.0 && Dot(Cross(a, b), b) == 0.0
  {
  }
}
