# HyperVector 2D vector operations in Dafny

HyperVector is a small leaf library of 2D vector math. Its two classes, `V2d`
(over `double[]`) and `V2f` (over `float[]`), offer the same static methods:
length and squared length, `normalize`/`getNormalized`, `dot`, `getNormal`,
`add`/`getAdded`, `sub`/`getSubed`, `perpDotProduct`,
`scaleBy`/`getScaled`, `negate`/`getNegated`, `vecProjection`, `getCopy` and
`tolEquals`. The classes are line-for-line the same apart from the element
type, so this project models both once, over exact `real` arithmetic. The
same model, with the same laws, stands for `V2d.java` and `V2f.java`. The
rows below cite either file; the cited lines are identical in the other.

The project has three modules:

- `Vector2` (`vector2.dfy`) is the value-level model. A vector is
  `Vec(x, y)`, the first two components of the source's arrays, and `Origin`
  is the `ORIGIN` constant. Every operation is a pure function on these
  pairs. `Math.sqrt` is a parameter `sqrt: real -> real`, constrained by
  `IsSqrt`: on a non-negative argument it returns a non-negative root whose
  square is the argument, and the root is zero exactly when the argument is.
- `Vector2Laws` (`vector2_laws.dfy`) relates the operations to one another.
  It covers the algebra of `dot` and `perpDotProduct`, the inverse pairs,
  what the square root pins down about lengths and normalisation, the
  projection, and the tolerance comparison.
- `VectorArrays` (`vector_arrays.dfy`) holds the methods as they act on
  arrays. `ValueOf(a)` is the vector held in `a[0]`, `a[1]`. The in-place
  methods state what they write, that they write nothing else, and what
  happens when both arguments are the same array. The `get...` methods
  state that they return a fresh array and leave their inputs alone.
  `getLength`, `getSquaredLength`, `dot`, `perpDotProduct` and `tolEquals`
  only read their arguments and return a number, so the `Vector2` function
  applied to `ValueOf` of the arrays is their model.

## Model

| member | source | states |
|---|---|---|
| Vector2.SquaredLength | src/hypervector/V2d.java:31-33 | the squared length is never negative, and it is positive exactly when the vector is not the origin |
| Vector2.Length | src/hypervector/V2d.java:18-20 | the length is non-negative, its square is the squared length, and it is zero exactly at the origin |
| Vector2.NormalizedOrigin | src/hypervector/V2d.java:40-45 | the zero guard: normalising the origin divides by 1 and gives back the origin, with no division by zero |
| Vector2.NormalizedNonZero | src/hypervector/V2d.java:40-45 | off the origin, the normalised vector has squared length 1, is parallel to `v` (perp-dot 0), and its dot product with `v` is the length of `v`, so it points the same way |
| Vector2.ScaledByInverse | src/hypervector/V2d.java:42-44 | dividing both components by a non-zero divisor equals `getScaled` by the divisor's inverse |
| Vector2.Normal | src/hypervector/V2d.java:76-78 | the left normal is perpendicular to `v`, has the same squared length, and lies to its left (perp-dot of `v` with it is the squared length) |
| Vector2.Added | src/hypervector/V2d.java:98-100 | subtracting either summand from the sum gives back the other summand |
| Vector2.Subed | src/hypervector/V2d.java:120-122 | the difference is the origin exactly when the operands are equal, and its squared length is the squared lengths' sum minus twice the dot product |
| Vector2.Scaled | src/hypervector/V2d.java:145-147 | the scaled vector is parallel to `v`, its dot product with `v` is `mul` times the squared length, and its squared length is `mul*mul` times the original |
| Vector2.Negated | src/hypervector/V2d.java:176-178 | the negated vector equals `getScaled(v, -1)` |
| Vector2.Projection | src/hypervector/V2d.java:187-189 | for a non-zero `v2`, the projection is parallel to `v2` and what it leaves of `v1` is perpendicular to `v2` |
| Vector2.TolEquals | src/hypervector/V2d.java:222-231 | true exactly when both component differences lie strictly between `-tol` and `tol`, so it is false for every `tol <= 0` |
| Vector2Laws.LengthIsRoot | src/hypervector/V2d.java:18-20 | any non-negative number whose square is the squared length equals the length |
| Vector2Laws.LengthOfScaled | src/hypervector/V2d.java:18-20 | the length of `getScaled(v, k)` is `abs(k)` times the length of `v` |
| Vector2Laws.LengthExample | src/hypervector/V2d.java:18-20 | the length of (3, 4) is 5 |
| Vector2Laws.NormalizedIsScaled | src/hypervector/V2d.java:40-45 | off the origin, `normalize` sets `v` to `getScaled(v, 1 / getLength(v))` |
| Vector2Laws.NormalizedHasUnitLength | src/hypervector/V2d.java:40-45 | off the origin, the normalised vector has length exactly 1 |
| Vector2Laws.NormalizedIdempotent | src/hypervector/V2d.java:53-57 | normalising a normalised vector changes nothing, at the origin and elsewhere |
| Vector2Laws.DotCommutes | src/hypervector/V2d.java:66-68 | `dot(v1, v2) == dot(v2, v1)` |
| Vector2Laws.DotSelf | src/hypervector/V2d.java:66-68 | the dot product of a vector with itself is its squared length |
| Vector2Laws.DotPolarization | src/hypervector/V2d.java:66-68 | four times the dot product is the squared length of the sum minus that of the difference |
| Vector2Laws.DotExample | src/hypervector/V2d.java:66-68 | `dot((1, 2), (3, 4)) == 11` |
| Vector2Laws.NormalExample | src/hypervector/V2d.java:76-78 | the left normal of (1, 0) is (0, 1) |
| Vector2Laws.PerpDotSelfZero | src/hypervector/V2d.java:134-136 | `perpDotProduct(v, v) == 0` |
| Vector2Laws.PerpDotAntisymmetric | src/hypervector/V2d.java:134-136 | swapping the operands negates `perpDotProduct` |
| Vector2Laws.PerpDotIsDotWithNormal | src/hypervector/V2d.java:124-136 | `perpDotProduct(v1, v2)` is the dot product of the left normal of `v1` with `v2`, the "positive means left" convention |
| Vector2Laws.PerpDotLagrange | src/hypervector/V2d.java:134-136 | the squared perp-dot plus the squared dot product is the product of the two squared lengths |
| Vector2Laws.PerpDotExample | src/hypervector/V2d.java:124-136 | (0, 1) is to the left of (1, 0) (perp-dot 1), and (1, 0) is to the right of (0, 1) (perp-dot -1) |
| Vector2Laws.AddSubRoundTrip | src/hypervector/V2d.java:98-122 | `getSubed(getAdded(v1, v2), v2) == v1`, and `getAdded(getSubed(v1, v2), v2) == v1` |
| Vector2Laws.SelfOperations | src/hypervector/V2d.java:86-111 | adding a vector to itself gives `getScaled(v, 2)`, and subtracting it from itself gives the origin |
| Vector2Laws.ScaledByOne | src/hypervector/V2f.java:145-147 | `getScaled(v, 1) == v` |
| Vector2Laws.ScaledComposes | src/hypervector/V2f.java:145-147 | scaling by `a` and then by `b` is scaling by `a*b` |
| Vector2Laws.NegatedTwice | src/hypervector/V2f.java:165-178 | negating twice gives back the vector, and a vector plus its negation is the origin |
| Vector2Laws.ProjectionOfParallel | src/hypervector/V2d.java:187-189 | a vector parallel to a non-zero `v2` is its own projection onto `v2` |
| Vector2Laws.ProjectionIdempotent | src/hypervector/V2d.java:187-189 | projecting a projection onto the same non-zero `v2` changes nothing |
| Vector2Laws.ProjectionExample | src/hypervector/V2d.java:187-189 | the projection of (3, 3) onto (1, 0) is (3, 0) |
| Vector2Laws.TolEqualsSymmetric | src/hypervector/V2f.java:222-231 | swapping the two vectors does not change `tolEquals` |
| Vector2Laws.TolEqualsReflexive | src/hypervector/V2f.java:222-231 | every vector is `tolEquals` to itself for every positive tolerance |
| Vector2Laws.TolEqualsMonotone | src/hypervector/V2f.java:222-231 | a larger tolerance accepts every pair that a smaller one accepts |
| Vector2Laws.TolEqualsSeparates | src/hypervector/V2f.java:222-231 | two distinct vectors are rejected by some positive tolerance |
| Vector2Laws.TolEqualsExample | src/hypervector/V2f.java:222-231 | `tolEquals(ORIGIN, (1, 1), 0.5)` is false, and `tolEquals(ORIGIN, (0.25, -0.25), 0.5)` is true |
| VectorArrays.Normalize | src/hypervector/V2d.java:40-45 | `v` becomes the normalised value of its old contents; a zero vector stays exactly zero; any other vector becomes `getScaled(v, 1 / getLength(v))`; components past the second are untouched |
| VectorArrays.Add | src/hypervector/V2d.java:86-89 | `v1` becomes the componentwise sum and is the only array written; when `v1` and `v2` are the same array, the vector is doubled |
| VectorArrays.Sub | src/hypervector/V2f.java:108-111 | `v1` becomes the componentwise difference and is the only array written; when `v1` and `v2` are the same array, it becomes the zero vector |
| VectorArrays.ScaleBy | src/hypervector/V2f.java:155-158 | `v` becomes what `getScaled(v, mul)` returned before the call; scaling by 1 leaves the array as it was |
| VectorArrays.Negate | src/hypervector/V2f.java:165-168 | `v` becomes its negation, which is the old value scaled by -1 |
| VectorArrays.NegateTwice | src/hypervector/V2f.java:165-168 | negating the same array twice restores every component |
| VectorArrays.GetNormalized | src/hypervector/V2f.java:53-57 | copying into a new array and normalising the copy gives the normalised value; the input array is not modified |
| VectorArrays.GetNormal | src/hypervector/V2d.java:76-78 | a fresh two-component array holding the left normal, perpendicular to `v` |
| VectorArrays.GetAdded | src/hypervector/V2d.java:98-100 | a fresh two-component array holding the sum |
| VectorArrays.GetSubed | src/hypervector/V2d.java:120-122 | a fresh two-component array holding the difference |
| VectorArrays.AddThenSub | src/hypervector/V2d.java:98-122 | `getSubed(getAdded(v1, v2), v2)` is a fresh array equal to `v1`, and neither input changes |
| VectorArrays.GetScaled | src/hypervector/V2d.java:145-147 | a fresh two-component array holding `v` scaled by `mul` |
| VectorArrays.GetNegated | src/hypervector/V2d.java:176-178 | a fresh two-component array holding the negation of `v` |
| VectorArrays.VecProjection | src/hypervector/V2d.java:187-189 | for a non-zero `v2`, a fresh two-component array holding the projection of `v1` onto `v2` |
| VectorArrays.GetCopy | src/hypervector/V2f.java:197-199 | a fresh array with the same length and the same contents as `v` |
| VectorArrays.NegatedCopy | src/hypervector/V2f.java:197-199 | negating a copy gives the negation of `v` and leaves `v` unchanged |

## Left out

- `repr` and `toString` (src/hypervector/V2d.java:206-212) are not modelled. They format with `String.format("%f")`, which lives in the Java library.
- IEEE-754 behaviour is not modelled: rounding, NaN and Infinity propagation, and the `(float)` narrowing of the root in src/hypervector/V2f.java:19. The model computes over exact reals, so `V2d` and `V2f` share one model.
- Vector2.Length: `Math.sqrt` is not modelled concretely. It is the parameter `sqrt`, and only the three `IsSqrt` properties are assumed of it.
- Vector2.Projection: the source divides by the squared length of `v2` without a guard. For the zero `v2` this yields NaN components. The model requires `v2` to differ from the origin instead.
- Arrays with fewer than two components are excluded by a precondition. There, the source throws `ArrayIndexOutOfBoundsException`.
- The array that `ORIGIN` refers to is mutable in the source. The model treats `Origin` as the constant (0, 0).
- VectorArrays.Normalize: unit length after normalising is not part of this method's own contract. The contract states the new value as `getScaled(v, 1 / getLength(v))`, and Vector2.NormalizedNonZero proves that this value has squared length 1.
