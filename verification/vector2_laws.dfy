/**
  Laws relating the operations of module Vector2 to one another: the algebra
  of dot and perp-dot products, the inverse pairs (add/sub, negate/negate),
  what the square root pins down about lengths and normalisation, the
  projection, and the tolerance comparison.
 */
module Vector2Laws {
  import opened Vector2

  // ---------------------------------------------------------------------------
  // Real-number helpers
  // ---------------------------------------------------------------------------

  lemma ProductZero(p: real, q: real)
    requires p * q == 0.0
    ensures p == 0.0 || q == 0.0
  {
  }

  /** Two non-negative reals with the same square are equal. */
  lemma SquareRootUnique(a: real, b: real)
    requires 0.0 <= a && 0.0 <= b
    requires a * a == b * b
    ensures a == b
  {
    assert (a - b) * (a + b) == a * a - b * b;
    ProductZero(a - b, a + b);
  }

  lemma NonNegativeProduct(a: real, b: real)
    requires 0.0 <= a && 0.0 <= b
    ensures 0.0 <= a * b
  {
  }

  function Abs(a: real): (r: real)
    ensures 0.0 <= r
    ensures r == a || r == -a
  {
    if a < 0.0 then -a else a
  }

  // ---------------------------------------------------------------------------
  // Lengths
  // ---------------------------------------------------------------------------

  /** The length is THE non-negative root of the squared length: any
      non-negative `l` whose square is the squared length is the length. */
  lemma LengthIsRoot(sqrt: real -> real, v: Vec, l: real)
    requires IsSqrt(sqrt)
    requires 0.0 <= l && l * l == SquaredLength(v)
    ensures Length(sqrt, v) == l
  {
    SquareRootUnique(Length(sqrt, v), l);
  }

  /** Scaling by `k` multiplies the length by |k|. */
  lemma LengthOfScaled(sqrt: real -> real, v: Vec, k: real)
    requires IsSqrt(sqrt)
    ensures Length(sqrt, Scaled(v, k)) == Abs(k) * Length(sqrt, v)
  {
    var a := Abs(k);
    var len := Length(sqrt, v);
    var s := SquaredLength(v);
    var t := SquaredLength(Scaled(v, k));
    ScaledRoot(a, len, k, s, t);
    LengthIsRoot(sqrt, Scaled(v, k), a * len);
  }

  /** If `l` is the non-negative root of `s` and `a` is |k|, then a*l is the
      non-negative root of `t` = k*k*s. */
  lemma ScaledRoot(a: real, l: real, k: real, s: real, t: real)
    requires 0.0 <= a && (a == k || a == -k)
    requires 0.0 <= l && l * l == s
    requires t == k * k * s
    ensures 0.0 <= a * l
    ensures (a * l) * (a * l) == t
  {
    NonNegativeProduct(a, l);
    assert (a * l) * (a * l) == (a * a) * (l * l);
    assert a * a == k * k;
  }

  /** The 3-4-5 triangle. */
  lemma LengthExample(sqrt: real -> real)
    requires IsSqrt(sqrt)
    ensures Length(sqrt, Vec(3.0, 4.0)) == 5.0
  {
    LengthIsRoot(sqrt, Vec(3.0, 4.0), 5.0);
  }

  // ---------------------------------------------------------------------------
  // Normalisation
  // ---------------------------------------------------------------------------

  /** `normalize` divides by the length, which is scaling by its inverse. */
  lemma NormalizedIsScaled(sqrt: real -> real, v: Vec)
    requires IsSqrt(sqrt) && v != Origin
    ensures Normalized(sqrt, v) == Scaled(v, 1.0 / Length(sqrt, v))
  {
    ScaledByInverse(v, Length(sqrt, v));
  }

  /** Off the origin the normalised vector has length exactly 1. */
  lemma NormalizedHasUnitLength(sqrt: real -> real, v: Vec)
    requires IsSqrt(sqrt) && v != Origin
    ensures Length(sqrt, Normalized(sqrt, v)) == 1.0
  {
    NormalizedNonZero(sqrt, v);
    LengthIsRoot(sqrt, Normalized(sqrt, v), 1.0);
  }

  /** Normalising twice is normalising once: a unit vector has length 1, so
      the second division changes nothing, and the origin stays put. */
  lemma NormalizedIdempotent(sqrt: real -> real, v: Vec)
    requires IsSqrt(sqrt)
    ensures Normalized(sqrt, Normalized(sqrt, v)) == Normalized(sqrt, v)
  {
    var u := Normalized(sqrt, v);
    if v == Origin {
      NormalizedOrigin(sqrt);
    } else {
      NormalizedHasUnitLength(sqrt, v);
      assert Normalized(sqrt, u) == Divided(u, 1.0);
    }
  }

  // ---------------------------------------------------------------------------
  // Dot and perp-dot products
  // ---------------------------------------------------------------------------

  lemma DotCommutes(v1: Vec, v2: Vec)
    ensures Dot(v1, v2) == Dot(v2, v1)
  {
  }

  /** The squared length is the dot product of a vector with itself. */
  lemma DotSelf(v: Vec)
    ensures Dot(v, v) == SquaredLength(v)
  {
  }

  /** The polarisation identity: the dot product is a quarter of the
      difference between the squared lengths of the sum and the difference. */
  lemma DotPolarization(v1: Vec, v2: Vec)
    ensures 4.0 * Dot(v1, v2) == SquaredLength(Added(v1, v2)) - SquaredLength(Subed(v1, v2))
  {
  }

  lemma PerpDotSelfZero(v: Vec)
    ensures PerpDot(v, v) == 0.0
  {
  }

  lemma PerpDotAntisymmetric(v1: Vec, v2: Vec)
    ensures PerpDot(v1, v2) == -PerpDot(v2, v1)
  {
  }

  /** The perp-dot product is the dot product with the left normal of the
      first operand, so it is positive when `v2` lies to the left of `v1`. */
  lemma PerpDotIsDotWithNormal(v1: Vec, v2: Vec)
    ensures PerpDot(v1, v2) == Dot(Normal(v1), v2)
  {
  }

  /** Lagrange's identity in the plane: the squares of the perp-dot and dot
      products add up to the product of the squared lengths. */
  lemma PerpDotLagrange(v1: Vec, v2: Vec)
    ensures PerpDot(v1, v2) * PerpDot(v1, v2) + Dot(v1, v2) * Dot(v1, v2)
            == SquaredLength(v1) * SquaredLength(v2)
  {
  }

  lemma DotExample()
    ensures Dot(Vec(1.0, 2.0), Vec(3.0, 4.0)) == 11.0
  {
  }

  /** (0, 1) lies to the left of (1, 0), and (1, 0) to the right of (0, 1). */
  lemma PerpDotExample()
    ensures PerpDot(Vec(1.0, 0.0), Vec(0.0, 1.0)) == 1.0
    ensures PerpDot(Vec(0.0, 1.0), Vec(1.0, 0.0)) == -1.0
  {
  }

  lemma NormalExample()
    ensures Normal(Vec(1.0, 0.0)) == Vec(0.0, 1.0)
  {
  }

  // ---------------------------------------------------------------------------
  // Sums, differences, scaling and negation
  // ---------------------------------------------------------------------------

  /** The round trip `getSubed(getAdded(v1, v2), v2) == v1` and its converse. */
  lemma AddSubRoundTrip(v1: Vec, v2: Vec)
    ensures Subed(Added(v1, v2), v2) == v1
    ensures Added(Subed(v1, v2), v2) == v1
  {
  }

  /** Adding a vector to itself doubles it (the aliased `add(v, v)`), and
      subtracting it from itself gives the origin (the aliased `sub(v, v)`). */
  lemma SelfOperations(v: Vec)
    ensures Added(v, v) == Scaled(v, 2.0)
    ensures Subed(v, v) == Origin
  {
  }

  lemma ScaledByOne(v: Vec)
    ensures Scaled(v, 1.0) == v
  {
  }

  lemma ScaledComposes(v: Vec, a: real, b: real)
    ensures Scaled(Scaled(v, a), b) == Scaled(v, a * b)
  {
  }

  /** Negation is an involution and gives the additive inverse. */
  lemma NegatedTwice(v: Vec)
    ensures Negated(Negated(v)) == v
    ensures Added(v, Negated(v)) == Origin
  {
  }

  // ---------------------------------------------------------------------------
  // Projection
  // ---------------------------------------------------------------------------

  /** A vector parallel to a non-zero `v2` is its own projection onto `v2`. */
  lemma ProjectionOfParallel(v1: Vec, v2: Vec)
    requires v2 != Origin && PerpDot(v1, v2) == 0.0
    ensures Projection(v1, v2) == v1
  {
    var s := SquaredLength(v2);
    var d := Dot(v1, v2);
    var k := d / s;
    assert k * s == d;
    assert v2.x * d == v1.x * s;
    assert v2.y * d == v1.y * s;
    assert (v2.x * k - v1.x) * s == 0.0;
    assert (v2.y * k - v1.y) * s == 0.0;
    ProductZero(v2.x * k - v1.x, s);
    ProductZero(v2.y * k - v1.y, s);
  }

  /** Projecting a projection again changes nothing. */
  lemma ProjectionIdempotent(v1: Vec, v2: Vec)
    requires v2 != Origin
    ensures Projection(Projection(v1, v2), v2) == Projection(v1, v2)
  {
    ProjectionOfParallel(Projection(v1, v2), v2);
  }

  lemma ProjectionExample()
    ensures Projection(Vec(3.0, 3.0), Vec(1.0, 0.0)) == Vec(3.0, 0.0)
  {
  }

  // ---------------------------------------------------------------------------
  // Tolerance comparison
  // ---------------------------------------------------------------------------

  lemma TolEqualsSymmetric(v1: Vec, v2: Vec, tol: real)
    ensures TolEquals(v1, v2, tol) == TolEquals(v2, v1, tol)
  {
  }

  lemma TolEqualsReflexive(v: Vec, tol: real)
    requires 0.0 < tol
    ensures TolEquals(v, v, tol)
  {
  }

  /** A larger tolerance accepts everything a smaller one does. */
  lemma TolEqualsMonotone(v1: Vec, v2: Vec, tol1: real, tol2: real)
    requires tol1 <= tol2
    ensures TolEquals(v1, v2, tol1) ==> TolEquals(v1, v2, tol2)
  {
  }

  /** Distinct vectors are told apart by some positive tolerance. */
  lemma TolEqualsSeparates(v1: Vec, v2: Vec)
    requires v1 != v2
    ensures exists tol :: 0.0 < tol && !TolEquals(v1, v2, tol)
  {
    var dx := Abs(v1.x - v2.x);
    var dy := Abs(v1.y - v2.y);
    var tol := if dx < dy then dy else dx;
    assert !TolEquals(v1, v2, tol);
  }

  lemma TolEqualsExample()
    ensures !TolEquals(Origin, Vec(1.0, 1.0), 0.5)
    ensures TolEquals(Origin, Vec(0.25, -0.25), 0.5)
  {
  }
}
