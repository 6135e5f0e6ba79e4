/**
  The value-level model of the HyperVector 2D vector operations.

  The library has two classes, `V2d` over `double[]` and `V2f` over `float[]`,
  that are line-for-line the same apart from the element type. Both are modelled
  here once, over exact `real` arithmetic: a vector is the pair of its first two
  components, and every operation that returns a new array is a pure function on
  pairs. The in-place (mutating) forms live in module VectorArrays and are
  specified through the functions of this module.

  `Math.sqrt` is code this model cannot see, so it is a parameter: every member
  that needs a square root takes a function `sqrt` and requires `IsSqrt(sqrt)`.
 */
module Vector2 {

  /** A 2D vector: the components `v[0]` and `v[1]` of the source's arrays. */
  datatype Vec = Vec(x: real, y: real)

  /** The `ORIGIN` constant (0, 0). */
  const Origin: Vec := Vec(0.0, 0.0)

  /** What the model relies on about `Math.sqrt`: on a non-negative argument it
      returns a non-negative root, whose square is the argument, and which is
      zero exactly for the argument zero. */
  ghost predicate IsSqrt(sqrt: real -> real) {
    forall a :: 0.0 <= a ==>
      && 0.0 <= sqrt(a)
      && sqrt(a) * sqrt(a) == a
      && (sqrt(a) == 0.0 <==> a == 0.0)
  }

  // ---------------------------------------------------------------------------
  // Sign facts about sums of squares
  // ---------------------------------------------------------------------------

  /** `r` is strictly positive. Sign facts about x*x + y*y are stated through
      this predicate so that they carry over to every term equal to that sum. */
  predicate Positive(r: real) {
    0.0 < r
  }

  /** A vector differs from the origin exactly when one of its components is
      strictly negative or strictly positive. */
  lemma NonOriginComponent(v: Vec)
    ensures v != Origin <==> v.x < 0.0 || 0.0 < v.x || v.y < 0.0 || 0.0 < v.y
  {
  }

  lemma ComponentSquares(v: Vec)
    ensures !(v.x * v.x + v.y * v.y < 0.0)
    ensures v.x < 0.0 || 0.0 < v.x || v.y < 0.0 || 0.0 < v.y ==> 0.0 < v.x * v.x + v.y * v.y
  {
  }

  /** The sum of the squared components is never negative, and is positive
      exactly off the origin. */
  lemma SumOfSquaresSign(v: Vec)
    ensures 0.0 <= v.x * v.x + v.y * v.y
    ensures v != Origin ==> Positive(v.x * v.x + v.y * v.y)
  {
    NonOriginComponent(v);
    ComponentSquares(v);
  }

  // ---------------------------------------------------------------------------
  // Magnitude
  // ---------------------------------------------------------------------------

  /** `getSquaredLength`: x*x + y*y. It is the dot product of `v` with itself,
      never negative, and zero only at the origin. */
  function SquaredLength(v: Vec): (r: real)
    ensures 0.0 <= r
    ensures 0.0 < r <==> v != Origin
  {
    SumOfSquaresSign(v);
    (v.x * v.x) + (v.y * v.y)
  }

  /** `getLength`: the square root of the squared length. */
  function Length(sqrt: real -> real, v: Vec): (r: real)
    requires IsSqrt(sqrt)
    ensures 0.0 <= r
    ensures r * r == SquaredLength(v)
    ensures r == 0.0 <==> v == Origin
  {
    sqrt(SquaredLength(v))
  }

  /** `normalize` / `getNormalized`: divide both components by the length,
      using 1 as the divisor when the length is 0. */
  function Normalized(sqrt: real -> real, v: Vec): Vec
    requires IsSqrt(sqrt)
  {
    var len := Length(sqrt, v);
    Divided(v, if len == 0.0 then 1.0 else len)
  }

  /** Both components divided by `d`, as `v[0] /= d; v[1] /= d` does. */
  function Divided(v: Vec, d: real): Vec
    requires d != 0.0
  {
    Vec(v.x / d, v.y / d)
  }

  /** The zero guard: the origin normalises to itself, with no division by
      zero. */
  lemma NormalizedOrigin(sqrt: real -> real)
    requires IsSqrt(sqrt)
    ensures Normalized(sqrt, Origin) == Origin
  {
  }

  /** Off the origin, normalising divides by the (non-zero) length and yields
      a unit vector parallel to `v` and pointing its way: its dot product with
      `v` is the length of `v`. */
  lemma NormalizedNonZero(sqrt: real -> real, v: Vec)
    requires IsSqrt(sqrt) && v != Origin
    ensures SquaredLength(Normalized(sqrt, v)) == 1.0
    ensures PerpDot(Normalized(sqrt, v), v) == 0.0
    ensures Dot(Normalized(sqrt, v), v) == Length(sqrt, v)
  {
    var len := Length(sqrt, v);
    assert len != 0.0;
    assert Normalized(sqrt, v) == Divided(v, len);
    DividedFacts(v, len);
    UnitScale(SquaredLength(v), len);
  }

  /** Dividing both components by `d` is scaling by 1/d. */
  lemma ScaledByInverse(v: Vec, d: real)
    requires d != 0.0
    ensures Divided(v, d) == Scaled(v, 1.0 / d)
  {
    var k := 1.0 / d;
    assert v.x / d == v.x * k;
    assert v.y / d == v.y * k;
  }

  /** What dividing both components by `d` does to the products with `v`. */
  lemma DividedFacts(v: Vec, d: real)
    requires d != 0.0
    ensures PerpDot(Divided(v, d), v) == 0.0
    ensures Dot(Divided(v, d), v) == (1.0 / d) * SquaredLength(v)
    ensures SquaredLength(Divided(v, d)) == (1.0 / d) * (1.0 / d) * SquaredLength(v)
  {
    ScaledByInverse(v, d);
  }

  /** Scaling by the inverse of a root of `s` turns `s` into the root and
      into 1 when squared. */
  lemma UnitScale(s: real, len: real)
    requires len != 0.0
    ensures len * len == s ==> (1.0 / len) * s == len
    ensures len * len == s ==> (1.0 / len) * (1.0 / len) * s == 1.0
  {
    var k := 1.0 / len;
    assert k * len == 1.0;
    if len * len == s {
      calc {
        k * s;
        k * (len * len);
        (k * len) * len;
        len;
      }
      calc {
        k * k * s;
        k * (k * s);
        k * len;
        1.0;
      }
    }
  }

  // ---------------------------------------------------------------------------
  // Products and the left normal
  // ---------------------------------------------------------------------------

  /** `dot`: x1*x2 + y1*y2. */
  function Dot(v1: Vec, v2: Vec): real {
    (v1.x * v2.x) + (v1.y * v2.y)
  }

  /** `getNormal`: the left normal (-y, x), that is `v` turned a quarter turn
      counter-clockwise: perpendicular to `v`, of the same length, and on its
      left. */
  function Normal(v: Vec): (r: Vec)
    ensures Dot(v, r) == 0.0
    ensures SquaredLength(r) == SquaredLength(v)
    ensures PerpDot(v, r) == SquaredLength(v)
  {
    Vec(-v.y, v.x)
  }

  /** `perpDotProduct`: the 2D cross product x1*y2 - y1*x2. */
  function PerpDot(v1: Vec, v2: Vec): real {
    (v1.x * v2.y) - (v1.y * v2.x)
  }

  // ---------------------------------------------------------------------------
  // Arithmetic
  // ---------------------------------------------------------------------------

  /** `add` / `getAdded`: the componentwise sum. Subtracting either summand
      gives back the other. */
  function Added(v1: Vec, v2: Vec): (r: Vec)
    ensures Subed(r, v2) == v1
    ensures Subed(r, v1) == v2
  {
    Vec(v1.x + v2.x, v1.y + v2.y)
  }

  /** `sub` / `getSubed`: the componentwise difference. It is the origin
      exactly when the operands are equal, and its squared length expands as
      |v1|^2 - 2 v1.v2 + |v2|^2. */
  function Subed(v1: Vec, v2: Vec): (r: Vec)
    ensures r == Origin <==> v1 == v2
    ensures SquaredLength(r) == SquaredLength(v1) - 2.0 * Dot(v1, v2) + SquaredLength(v2)
  {
    Vec(v1.x - v2.x, v1.y - v2.y)
  }

  /** `scaleBy` / `getScaled`: both components multiplied by `mul`. The result
      is parallel to `v`, and lengths and dot products scale accordingly. */
  function Scaled(v: Vec, mul: real): (r: Vec)
    ensures PerpDot(r, v) == 0.0
    ensures Dot(r, v) == mul * SquaredLength(v)
    ensures SquaredLength(r) == mul * mul * SquaredLength(v)
  {
    Vec(v.x * mul, v.y * mul)
  }

  /** `negate` / `getNegated`: both components negated, which is scaling
      by -1. */
  function Negated(v: Vec): (r: Vec)
    ensures r == Scaled(v, -1.0)
  {
    Vec(-v.x, -v.y)
  }

  /** `vecProjection`: `v2` scaled by dot(v1, v2) / |v2|^2. The source divides
      without a guard, so the zero `v2` is excluded here. The projection is
      parallel to `v2` and what it leaves of `v1` is perpendicular to `v2`. */
  function Projection(v1: Vec, v2: Vec): (r: Vec)
    requires v2 != Origin
    ensures PerpDot(r, v2) == 0.0
    ensures Dot(Subed(v1, r), v2) == 0.0
  {
    var k := Dot(v1, v2) / SquaredLength(v2);
    ResidualOrthogonal(v1, v2, k);
    Scaled(v2, k)
  }

  /** Removing k*v2 from v1 leaves a vector perpendicular to v2 exactly when
      k*|v2|^2 is the dot product of v1 and v2. */
  lemma ResidualOrthogonal(v1: Vec, v2: Vec, k: real)
    requires k * SquaredLength(v2) == Dot(v1, v2)
    ensures Dot(Subed(v1, Scaled(v2, k)), v2) == 0.0
  {
  }

  /** `tolEquals`: both component distances strictly below `tol`. It never
      holds for a tolerance that is zero or negative. */
  function TolEquals(v1: Vec, v2: Vec, tol: real): (r: bool)
    ensures r <==> (-tol < v1.x - v2.x < tol && -tol < v1.y - v2.y < tol)
    ensures r ==> 0.0 < tol
  {
    var xDif := v1.x - v2.x;
    var yDif := v1.y - v2.y;
    var xDif := if xDif < 0.0 then -xDif else xDif;
    var yDif := if yDif < 0.0 then -yDif else yDif;
    (xDif < tol) && (yDif < tol)
  }
}
