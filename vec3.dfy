/** Three-component vectors over the reals: the value type behind every
    colour, point and direction of the renderer. Every operator builds a
    fresh vector; none of them mutates its arguments. */
module Vectors {

  datatype Vec3 = Vec3(x: real, y: real, z: real)

  const Zero: Vec3 := Vec3(0.0, 0.0, 0.0)
  const Ones: Vec3 := Vec3(1.0, 1.0, 1.0)

  /** Component-wise `+`. */
  function Add(a: Vec3, b: Vec3): Vec3 {
    Vec3(a.x + b.x, a.y + b.y, a.z + b.z)
  }

  /** Component-wise negation. */
  function Neg(v: Vec3): Vec3 {
    Vec3(-v.x, -v.y, -v.z)
  }

  /** Component-wise `-`. */
  function Sub(a: Vec3, b: Vec3): Vec3 {
    Vec3(a.x - b.x, a.y - b.y, a.z - b.z)
  }

  /** The Hadamard (component-wise) product of two vectors. */
  function Mul(a: Vec3, b: Vec3): Vec3 {
    Vec3(a.x * b.x, a.y * b.y, a.z * b.z)
  }

  /** The dot product. */
  function Dot(a: Vec3, b: Vec3): real {
    a.x * b.x + a.y * b.y + a.z * b.z
  }

  /** Vector times scalar. */
  function Scale(v: Vec3, s: real): Vec3 {
    Vec3(v.x * s, v.y * s, v.z * s)
  }

  /** Scalar times vector, defined in the source as vector times scalar. */
  function ScalarMul(s: real, v: Vec3): Vec3 {
    Scale(v, s)
  }

  predicate NonZeroComponents(v: Vec3) {
    v.x != 0.0 && v.y != 0.0 && v.z != 0.0
  }

  /** Vector divided by a scalar: undoes a scaling by `s`. */
  function DivScalar(v: Vec3, s: real): (r: Vec3)
    requires s != 0.0
    ensures Scale(r, s) == v
  {
    Vec3(v.x / s, v.y / s, v.z / s)
  }

  /** Scalar divided by each component of a vector. */
  function ScalarDiv(s: real, v: Vec3): (r: Vec3)
    requires NonZeroComponents(v)
    ensures Mul(r, v) == Vec3(s, s, s)
  {
    Vec3(s / v.x, s / v.y, s / v.z)
  }

  /** Component-wise division: undoes a Hadamard product with `b`. */
  function Div(a: Vec3, b: Vec3): (r: Vec3)
    requires NonZeroComponents(b)
    ensures Mul(r, b) == a
  {
    Vec3(a.x / b.x, a.y / b.y, a.z / b.z)
  }

  /** The cross product: orthogonal to both of its arguments. */
  function Cross(a: Vec3, b: Vec3): (r: Vec3)
    ensures Dot(a, r) == 0.0 && Dot(b, r) == 0.0
  {
    Vec3(a.y * b.z - a.z * b.y,
         -(a.x * b.z - a.z * b.x),
         a.x * b.y - a.y * b.x)
  }

  /** The squared length: the dot product of a vector with itself. */
  function SquaredLength(v: Vec3): (r: real)
    ensures r == Dot(v, v)
  {
    v.x * v.x + v.y * v.y + v.z * v.z
  }

  /** The squared length is never negative. */
  lemma SquaredLengthNonNegative(v: Vec3)
    ensures SquaredLength(v) >= 0.0
  {
    assert v.x * v.x >= 0.0 && v.y * v.y >= 0.0 && v.z * v.z >= 0.0;
  }

  /** Applies `f` to each component. */
  function Map(v: Vec3, f: real -> real): Vec3 {
    Vec3(f(v.x), f(v.y), f(v.z))
  }

  /** Only the zero vector has squared length zero. */
  lemma SquaredLengthZero(v: Vec3)
    requires SquaredLength(v) == 0.0
    ensures v == Zero
  {
    assert v.x * v.x >= 0.0 && v.y * v.y >= 0.0 && v.z * v.z >= 0.0;
    SquareZero(v.x);
    SquareZero(v.y);
    SquareZero(v.z);
  }

  lemma SquareZero(a: real)
    requires a * a == 0.0
    ensures a == 0.0
  {
    ProductZero(a, a);
  }

  lemma ProductZero(a: real, b: real)
    requires a * b == 0.0
    ensures a == 0.0 || b == 0.0
  {
    if a != 0.0 && b != 0.0 {
      ProductNonZero(a, b);
    }
  }

  lemma ProductNonZero(a: real, b: real)
    requires a != 0.0 && b != 0.0
    ensures a * b != 0.0
  {
    if a > 0.0 && b > 0.0 {
      assert a * b > 0.0;
    } else if a > 0.0 {
      assert a * b < 0.0;
    } else if b > 0.0 {
      assert a * b < 0.0;
    } else {
      assert a * b > 0.0;
    }
  }

  /** Negation is the additive inverse. */
  lemma NegIsInverse(v: Vec3)
    ensures Add(v, Neg(v)) == Zero
  {
  }

  /** Subtracting `b` undoes adding `b`, and the other way round. */
  lemma SubUndoesAdd(a: Vec3, b: Vec3)
    ensures Add(Sub(a, b), b) == a && Sub(Add(a, b), b) == a
  {
  }

  /** Scaling a vector by `s` scales its squared length by `s * s`
      (the squared form of `|s * a| == |s| * |a|`). */
  lemma ScaleSquaredLength(v: Vec3, s: real)
    ensures SquaredLength(Scale(v, s)) == s * s * SquaredLength(v)
  {
    calc {
      SquaredLength(Scale(v, s));
      (v.x * s) * (v.x * s) + (v.y * s) * (v.y * s) + (v.z * s) * (v.z * s);
      s * s * (v.x * v.x) + s * s * (v.y * v.y) + s * s * (v.z * v.z);
      s * s * SquaredLength(v);
    }
  }

  /** The dot product is linear in a scaled argument. */
  lemma DotScale(v: Vec3, s: real, w: Vec3)
    ensures Dot(Scale(v, s), w) == s * Dot(v, w)
  {
  }

  lemma AddCommutative(a: Vec3, b: Vec3)
    ensures Add(a, b) == Add(b, a)
  {
  }

  lemma AddAssociative(a: Vec3, b: Vec3, c: Vec3)
    ensures Add(Add(a, b), c) == Add(a, Add(b, c))
  {
  }

  lemma SubIsAddNeg(a: Vec3, b: Vec3)
    ensures Sub(a, b) == Add(a, Neg(b))
  {
  }

  lemma ScalarMulCommutes(s: real, v: Vec3)
    ensures ScalarMul(s, v) == Scale(v, s)
  {
  }

  lemma MulCommutative(a: Vec3, b: Vec3)
    ensures Mul(a, b) == Mul(b, a)
  {
  }

  lemma DotSymmetric(a: Vec3, b: Vec3)
    ensures Dot(a, b) == Dot(b, a)
  {
  }

  lemma CrossAntisymmetric(a: Vec3, b: Vec3)
    ensures Cross(a, b) == Neg(Cross(b, a))
  {
  }

  lemma AddExample()
    ensures Add(Vec3(1.0, 0.0, -1.0), Vec3(2.0, 3.0, 2.0)) == Vec3(3.0, 3.0, 1.0)
  {
  }

  lemma SubExample()
    ensures Sub(Vec3(1.0, 0.0, -1.0), Vec3(2.0, 3.0, 2.0)) == Vec3(-1.0, -3.0, -3.0)
  {
  }

  lemma ScaleExample()
    ensures Scale(Vec3(1.0, 0.0, -1.0), 2.0) == Vec3(2.0, 0.0, -2.0)
    ensures ScalarMul(2.0, Vec3(1.0, 0.0, -1.0)) == Vec3(2.0, 0.0, -2.0)
  {
  }

  lemma MulExample()
    ensures Mul(Vec3(1.0, 0.0, -1.0), Vec3(4.0, 0.0, -2.0)) == Vec3(4.0, 0.0, 2.0)
  {
  }

  lemma DivScalarExample()
    ensures DivScalar(Vec3(2.0, 4.0, -6.0), 2.0) == Vec3(1.0, 2.0, -3.0)
  {
  }

  lemma ScalarDivExample()
    ensures ScalarDiv(6.0, Vec3(1.0, 2.0, -3.0)) == Vec3(6.0, 3.0, -2.0)
  {
  }

  lemma DivExample()
    ensures Div(Vec3(2.0, 4.0, -6.0), Vec3(2.0, 2.0, -3.0)) == Vec3(1.0, 2.0, 2.0)
  {
  }

  lemma NegExample()
    ensures Neg(Vec3(2.0, 0.0, -6.0)) == Vec3(-2.0, 0.0, 6.0)
  {
  }

  lemma DotExample()
    ensures Dot(Vec3(1.0, 2.0, 3.0), Vec3(4.0, -5.0, 6.0)) == 12.0
  {
  }

  lemma CrossExample()
    ensures Cross(Vec3(3.0, -3.0, 1.0), Vec3(4.0, 9.0, 2.0)) == Vec3(-15.0, -2.0, 39.0)
  {
  }

  lemma SquaredLengthExample()
    ensures SquaredLength(Vec3(2.0, -2.0, 1.0)) == 9.0
  {
  }
}
