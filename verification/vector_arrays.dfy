/**
  The static methods of `V2d` / `V2f` as they act on arrays.

  A vector is an array whose first two components are x and y. Every method
  reads only those two components; the source never checks the length, so the
  model asks for at least two components and lets the mutators keep whatever
  follows them. Each method is specified through the pure function of module
  Vector2 that computes the same value, plus what it changes: the `get...`
  forms return a fresh two-component array and leave their inputs alone, the
  in-place forms overwrite their first argument and nothing else.
 */
module VectorArrays {
  import V = Vector2

  /** The vector held in the first two components of `a`. */
  function ValueOf(a: array<real>): V.Vec
    requires 2 <= a.Length
    reads a
  {
    V.Vec(a[0], a[1])
  }

  // ---------------------------------------------------------------------------
  // In-place operations
  // ---------------------------------------------------------------------------

  /** `normalize`: divides `v` by its length, substituting 1 for a zero
      length. A zero vector is left exactly as it was; any other vector is
      scaled by the inverse of its length, which makes it a unit vector
      (Vector2.NormalizedNonZero). */
  method Normalize(sqrt: real -> real, v: array<real>)
    requires V.IsSqrt(sqrt) && 2 <= v.Length
    modifies v
    ensures ValueOf(v) == V.Normalized(sqrt, old(ValueOf(v)))
    ensures old(ValueOf(v)) == V.Origin ==> ValueOf(v) == V.Origin
    ensures old(ValueOf(v)) != V.Origin ==>
              ValueOf(v) == V.Scaled(old(ValueOf(v)), 1.0 / V.Length(sqrt, old(ValueOf(v))))
    ensures v[2..] == old(v[2..])
  {
    var u := ValueOf(v);
    // Vector2.Normalized is the source's computation: the length, the
    // divisor 1 in its place when it is zero, then both divisions.
    var n := V.Normalized(sqrt, u);
    v[0] := n.x;
    v[1] := n.y;
    if u == V.Origin {
      V.NormalizedOrigin(sqrt);
    } else {
      V.ScaledByInverse(u, V.Length(sqrt, u));
    }
  }

  /** `add`: v1 += v2. Only `v1` changes; when both arguments are the same
      array the vector is doubled. */
  method Add(v1: array<real>, v2: array<real>)
    requires 2 <= v1.Length && 2 <= v2.Length
    modifies v1
    ensures ValueOf(v1) == V.Added(old(ValueOf(v1)), old(ValueOf(v2)))
    ensures v1 == v2 ==> ValueOf(v1) == V.Scaled(old(ValueOf(v1)), 2.0)
    ensures v1 != v2 ==> v2[..] == old(v2[..])
    ensures v1[2..] == old(v1[2..])
  {
    v1[0] := v1[0] + v2[0];
    v1[1] := v1[1] + v2[1];
  }

  /** `sub`: v1 -= v2. Only `v1` changes; when both arguments are the same
      array the result is the zero vector. */
  method Sub(v1: array<real>, v2: array<real>)
    requires 2 <= v1.Length && 2 <= v2.Length
    modifies v1
    ensures ValueOf(v1) == V.Subed(old(ValueOf(v1)), old(ValueOf(v2)))
    ensures v1 == v2 ==> ValueOf(v1) == V.Origin
    ensures v1 != v2 ==> v2[..] == old(v2[..])
    ensures v1[2..] == old(v1[2..])
  {
    v1[0] := v1[0] - v2[0];
    v1[1] := v1[1] - v2[1];
  }

  /** `scaleBy`: v *= mul, leaving `v` equal to what `getScaled` returned
      before the call. */
  method ScaleBy(v: array<real>, mul: real)
    requires 2 <= v.Length
    modifies v
    ensures ValueOf(v) == V.Scaled(old(ValueOf(v)), mul)
    ensures mul == 1.0 ==> v[..] == old(v[..])
    ensures v[2..] == old(v[2..])
  {
    v[0] := v[0] * mul;
    v[1] := v[1] * mul;
  }

  /** `negate`: v = -v. */
  method Negate(v: array<real>)
    requires 2 <= v.Length
    modifies v
    ensures ValueOf(v) == V.Negated(old(ValueOf(v)))
    ensures ValueOf(v) == V.Scaled(old(ValueOf(v)), -1.0)
    ensures v[2..] == old(v[2..])
  {
    v[0] := -v[0];
    v[1] := -v[1];
  }

  /** Negating twice restores the array. */
  method NegateTwice(v: array<real>)
    requires 2 <= v.Length
    modifies v
    ensures v[..] == old(v[..])
  {
    Negate(v);
    Negate(v);
    assert ValueOf(v) == old(ValueOf(v));
    assert v[..] == old(v[..]) by {
      assert forall i :: 0 <= i < v.Length ==> v[i] == old(v[i]) by {
        forall i | 0 <= i < v.Length
          ensures v[i] == old(v[i])
        {
          if i < 2 {
            assert i == 0 || i == 1;
          } else {
            assert v[i] == v[2..][i - 2];
          }
        }
      }
    }
  }

  // ---------------------------------------------------------------------------
  // Operations returning a new array
  // ---------------------------------------------------------------------------

  /** `getNormalized`: copies `v` into a new array and normalizes the copy;
      `v` itself is not modified. */
  method GetNormalized(sqrt: real -> real, v: array<real>) returns (nv: array<real>)
    requires V.IsSqrt(sqrt) && 2 <= v.Length
    ensures fresh(nv) && nv.Length == 2
    ensures ValueOf(nv) == V.Normalized(sqrt, ValueOf(v))
    ensures v[..] == old(v[..])
  {
    nv := new real[2] [v[0], v[1]];
    Normalize(sqrt, nv);
  }

  /** `getNormal`: a new array holding the left normal of `v`. */
  method GetNormal(v: array<real>) returns (r: array<real>)
    requires 2 <= v.Length
    ensures fresh(r) && r.Length == 2
    ensures ValueOf(r) == V.Normal(ValueOf(v))
    ensures V.Dot(ValueOf(v), ValueOf(r)) == 0.0
  {
    r := new real[2] [-v[1], v[0]];
  }

  /** `getAdded`: a new array holding v1 + v2. */
  method GetAdded(v1: array<real>, v2: array<real>) returns (r: array<real>)
    requires 2 <= v1.Length && 2 <= v2.Length
    ensures fresh(r) && r.Length == 2
    ensures ValueOf(r) == V.Added(ValueOf(v1), ValueOf(v2))
  {
    r := new real[2] [v1[0] + v2[0], v1[1] + v2[1]];
  }

  /** `getSubed`: a new array holding v1 - v2. */
  method GetSubed(v1: array<real>, v2: array<real>) returns (r: array<real>)
    requires 2 <= v1.Length && 2 <= v2.Length
    ensures fresh(r) && r.Length == 2
    ensures ValueOf(r) == V.Subed(ValueOf(v1), ValueOf(v2))
  {
    r := new real[2] [v1[0] - v2[0], v1[1] - v2[1]];
  }

  /** `getSubed(getAdded(v1, v2), v2)` gives back `v1` in a fresh array, and
      neither input changes. */
  method AddThenSub(v1: array<real>, v2: array<real>) returns (r: array<real>)
    requires 2 <= v1.Length && 2 <= v2.Length
    ensures fresh(r) && r.Length == 2
    ensures ValueOf(r) == ValueOf(v1)
    ensures v1[..] == old(v1[..]) && v2[..] == old(v2[..])
  {
    var sum := GetAdded(v1, v2);
    r := GetSubed(sum, v2);
  }

  /** `getScaled`: a new array holding v * mul. */
  method GetScaled(v: array<real>, mul: real) returns (r: array<real>)
    requires 2 <= v.Length
    ensures fresh(r) && r.Length == 2
    ensures ValueOf(r) == V.Scaled(ValueOf(v), mul)
  {
    r := new real[2] [v[0] * mul, v[1] * mul];
  }

  /** `getNegated`: a new array holding -v. */
  method GetNegated(v: array<real>) returns (r: array<real>)
    requires 2 <= v.Length
    ensures fresh(r) && r.Length == 2
    ensures ValueOf(r) == V.Negated(ValueOf(v))
  {
    r := new real[2] [-v[0], -v[1]];
  }

  /** `vecProjection`: a new array holding the projection of `v1` onto `v2`,
      which must not be the zero vector. */
  method VecProjection(v1: array<real>, v2: array<real>) returns (r: array<real>)
    requires 2 <= v1.Length && 2 <= v2.Length
    requires ValueOf(v2) != V.Origin
    ensures fresh(r) && r.Length == 2
    ensures ValueOf(r) == V.Projection(ValueOf(v1), ValueOf(v2))
  {
    var k := V.Dot(ValueOf(v1), ValueOf(v2)) / V.SquaredLength(ValueOf(v2));
    r := GetScaled(v2, k);
  }

  /** `getCopy`: a fresh array with the same length and contents as `v`
      (Java's `clone`, so components past the second are copied too). */
  method GetCopy(v: array<real>) returns (r: array<real>)
    ensures fresh(r)
    ensures r[..] == v[..]
  {
    r := new real[v.Length](i requires 0 <= i < v.Length reads v => v[i]);
  }

  /** Negating a copy leaves the original untouched: the copy is a separate
      array. */
  method NegatedCopy(v: array<real>) returns (c: array<real>)
    requires 2 <= v.Length
    ensures fresh(c) && c.Length == v.Length
    ensures ValueOf(c) == V.Negated(ValueOf(v))
    ensures v[..] == old(v[..])
  {
    c := GetCopy(v);
    Negate(c);
  }
}
