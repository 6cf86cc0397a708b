/**
 * Three-component vectors over the reals (`Vec3`, also used as `Point3` and `Color`).
 * The source's operators become functions; the in-place `*Assign` operators are
 * methods of `Vec3Var`, a mutable place holding a vector.
 */
module Vectors {
  import opened RealArith

  datatype Vec3 = Vec3(x: real, y: real, z: real)

  const Zero := Vec3(0.0, 0.0, 0.0)

  /** A square-root function, as `f64::sqrt` behaves on non-negative arguments. */
  ghost predicate IsSqrt(sqrt: real -> real)
  {
    forall a :: 0.0 <= a ==> 0.0 <= sqrt(a) && sqrt(a) * sqrt(a) == a
  }

  function New(x: real, y: real, z: real): (v: Vec3)
    ensures v.x == x && v.y == y && v.z == z
  {
    Vec3(x, y, z)
  }

  /** The cross product is orthogonal to both factors. */
  function Cross(a: Vec3, b: Vec3): (c: Vec3)
    ensures Dot(c, a) == 0.0 && Dot(c, b) == 0.0
  {
    Vec3(a.y * b.z - a.z * b.y, a.z * b.x - a.x * b.z, a.x * b.y - a.y * b.x)
  }

  function Dot(a: Vec3, b: Vec3): real
  {
    a.x * b.x + a.y * b.y + a.z * b.z
  }

  /** `length_squared`: the dot product of a vector with itself, never negative. */
  function LengthSquared(v: Vec3): (l: real)
    ensures l >= 0.0
    ensures v == Zero ==> l == 0.0
  {
    SquareNonNegative(v.x);
    SquareNonNegative(v.y);
    SquareNonNegative(v.z);
    Dot(v, v)
  }

  /** `self.dot(self).sqrt()`: the non-negative number whose square is `LengthSquared(v)`. */
  function Length(v: Vec3, sqrt: real -> real): (l: real)
    requires IsSqrt(sqrt)
    ensures l >= 0.0 && l * l == LengthSquared(v)
    ensures LengthSquared(v) > 0.0 ==> l > 0.0
  {
    var l := sqrt(LengthSquared(v));
    RootOfNonZero(v, l);
    l
  }

  /**
   * `self / self.length()`. A vector of zero length would divide by zero (NaN in the
   * source), so the model excludes it.
   */
  function UnitVector(v: Vec3, sqrt: real -> real): (u: Vec3)
    requires IsSqrt(sqrt)
    requires LengthSquared(v) > 0.0
    ensures LengthSquared(u) == 1.0
    ensures -1.0 <= u.x <= 1.0 && -1.0 <= u.y <= 1.0 && -1.0 <= u.z <= 1.0
    ensures u == MulScalar(v, 1.0 / Length(v, sqrt)) && 1.0 / Length(v, sqrt) > 0.0
  {
    var l := Length(v, sqrt);
    var u := DivScalar(v, l);
    DivIsMulInverse(v.x, l);
    DivIsMulInverse(v.y, l);
    DivIsMulInverse(v.z, l);
    assert u == MulScalar(v, 1.0 / l);
    LengthSquaredScaled(v, 1.0 / l);
    InverseSquare(1.0 / l, l);
    UnitComponents(u);
    u
  }

  lemma RootOfNonZero(v: Vec3, l: real)
    requires l >= 0.0 && l * l == LengthSquared(v)
    ensures LengthSquared(v) > 0.0 ==> l > 0.0
  {
    if LengthSquared(v) > 0.0 { RootOfPositive(l, LengthSquared(v)); }
  }

  lemma LengthSquaredScaled(v: Vec3, k: real)
    ensures LengthSquared(MulScalar(v, k)) == (k * k) * LengthSquared(v)
  {
    SquareScaled(v.x, k);
    SquareScaled(v.y, k);
    SquareScaled(v.z, k);
  }

  /** Every component of a unit vector lies in [-1, 1]. */
  lemma UnitComponents(u: Vec3)
    requires LengthSquared(u) == 1.0
    ensures -1.0 <= u.x <= 1.0 && -1.0 <= u.y <= 1.0 && -1.0 <= u.z <= 1.0
  {
    SquareNonNegative(u.x);
    SquareNonNegative(u.y);
    SquareNonNegative(u.z);
    PartsOfSum(u.x * u.x, u.y * u.y, u.z * u.z, 1.0);
    AbsAtMostOne(u.x);
    AbsAtMostOne(u.y);
    AbsAtMostOne(u.z);
  }

  /** Only the zero vector has length zero. */
  lemma NonZeroHasLength(v: Vec3)
    requires v != Zero
    ensures LengthSquared(v) > 0.0
  {
    assert LengthSquared(v) == Product(v.x, v.x) + Product(v.y, v.y) + Product(v.z, v.z);
    if v.x != 0.0 {
      SquaresPositive(v.x, v.y, v.z);
    } else if v.y != 0.0 {
      SquaresPositive(v.y, v.x, v.z);
    } else {
      SquaresPositive(v.z, v.x, v.y);
    }
  }

  lemma ZeroLengthIsZero(v: Vec3)
    requires LengthSquared(v) <= 0.0
    ensures v == Zero
  {
    if v != Zero {
      NonZeroHasLength(v);
    }
  }

  // Operators. `Add`, `Sub`, `Mul<f64>` and `Div<f64>` are built in the source by
  // copying the left operand and applying the matching `*Assign` operator to it.

  function Add(a: Vec3, b: Vec3): Vec3
  {
    Vec3(a.x + b.x, a.y + b.y, a.z + b.z)
  }

  function Sub(a: Vec3, b: Vec3): Vec3
  {
    Vec3(a.x - b.x, a.y - b.y, a.z - b.z)
  }

  /** Component-wise product (`Mul for Vec3`), used for attenuating colours. */
  function Mul(a: Vec3, b: Vec3): Vec3
  {
    Vec3(a.x * b.x, a.y * b.y, a.z * b.z)
  }

  /** Component-wise quotient (`Div for Vec3`); a zero component of `b` would divide by zero. */
  function Div(a: Vec3, b: Vec3): Vec3
    requires b.x != 0.0 && b.y != 0.0 && b.z != 0.0
  {
    Vec3(a.x / b.x, a.y / b.y, a.z / b.z)
  }

  /** `v * s` (`Mul<f64> for Vec3`). */
  function MulScalar(v: Vec3, s: real): Vec3
  {
    Vec3(v.x * s, v.y * s, v.z * s)
  }

  /** `s * v` (`Mul<Vec3> for f64`), which the source computes as `v *= s`. */
  function ScalarMul(s: real, v: Vec3): Vec3
  {
    MulScalar(v, s)
  }

  /** `v / s` (`Div<f64> for Vec3`); the model excludes the division by zero. */
  function DivScalar(v: Vec3, s: real): Vec3
    requires s != 0.0
  {
    Vec3(v.x / s, v.y / s, v.z / s)
  }

  function Neg(v: Vec3): Vec3
  {
    Vec3(-v.x, -v.y, -v.z)
  }

  /** A mutable `Vec3` binding, the receiver of the in-place operators. */
  class Vec3Var {
    var x: real
    var y: real
    var z: real

    function Value(): Vec3
      reads this
    {
      Vec3(x, y, z)
    }

    constructor (v: Vec3)
      ensures Value() == v
    {
      x, y, z := v.x, v.y, v.z;
    }

    /** `self += rhs` */
    method AddAssign(rhs: Vec3)
      modifies this
      ensures Value() == Add(old(Value()), rhs)
    {
      x := x + rhs.x;
      y := y + rhs.y;
      z := z + rhs.z;
    }

    /** `self -= rhs` */
    method SubAssign(rhs: Vec3)
      modifies this
      ensures Value() == Sub(old(Value()), rhs)
    {
      x := x - rhs.x;
      y := y - rhs.y;
      z := z - rhs.z;
    }

    /** `self *= rhs` */
    method MulAssign(rhs: real)
      modifies this
      ensures Value() == MulScalar(old(Value()), rhs)
    {
      x := x * rhs;
      y := y * rhs;
      z := z * rhs;
    }

    /** `self /= rhs` */
    method DivAssign(rhs: real)
      requires rhs != 0.0
      modifies this
      ensures Value() == DivScalar(old(Value()), rhs)
    {
      x := x / rhs;
      y := y / rhs;
      z := z / rhs;
    }
  }

  // Algebraic partners of the operators.

  lemma SubUndoesAdd(a: Vec3, b: Vec3)
    ensures Sub(Add(a, b), b) == a && Add(Sub(a, b), b) == a
  {
  }

  lemma NegInvolution(v: Vec3)
    ensures Neg(Neg(v)) == v && Add(v, Neg(v)) == Zero && Sub(Zero, v) == Neg(v)
  {
  }

  lemma ScalarMulCommutes(v: Vec3, s: real)
    ensures MulScalar(v, s) == ScalarMul(s, v)
    ensures ScalarMul(s, v) == Vec3(s * v.x, s * v.y, s * v.z)
  {
  }

  lemma DivUndoesMul(a: Vec3, b: Vec3)
    requires b.x != 0.0 && b.y != 0.0 && b.z != 0.0
    ensures Div(Mul(a, b), b) == a && Mul(Div(a, b), b) == a
  {
  }

  lemma DivScalarUndoesMulScalar(v: Vec3, s: real)
    requires s != 0.0
    ensures DivScalar(MulScalar(v, s), s) == v && MulScalar(v, 1.0 / s) == DivScalar(v, s)
  {
    DivIsMulInverse(v.x, s);
    DivIsMulInverse(v.y, s);
    DivIsMulInverse(v.z, s);
  }

  /** The dot product is symmetric, and linear in its first factor. */
  lemma DotBilinear(a: Vec3, b: Vec3, c: Vec3, k: real)
    ensures Dot(a, b) == Dot(b, a)
    ensures Dot(Add(a, b), c) == Dot(a, c) + Dot(b, c)
    ensures Dot(MulScalar(a, k), b) == k * Dot(a, b)
  {
  }

  lemma CrossAnticommutes(a: Vec3, b: Vec3)
    ensures Cross(a, b) == Neg(Cross(b, a)) && Cross(a, a) == Zero
  {
  }

  // The unit tests of the source, one lemma or method each.

  lemma CrossExample()
    ensures Cross(Vec3(1.0, 2.0, 3.0), Vec3(4.0, 5.0, 6.0)) == Vec3(-3.0, 6.0, -3.0)
  {
  }

  lemma DotExample()
    ensures Dot(Vec3(1.0, 2.0, 3.0), Vec3(4.0, 5.0, 6.0)) == 32.0
  {
  }

  lemma LengthExample(sqrt: real -> real)
    requires IsSqrt(sqrt)
    ensures Length(Vec3(3.0, 4.0, 0.0), sqrt) == 5.0
  {
    var l := Length(Vec3(3.0, 4.0, 0.0), sqrt);
    SquareRootUnique(l, 5.0);
  }

  lemma UnitVectorExample(sqrt: real -> real)
    requires IsSqrt(sqrt)
    ensures UnitVector(Vec3(3.0, 4.0, 0.0), sqrt) == Vec3(0.6, 0.8, 0.0)
  {
    LengthExample(sqrt);
  }

  lemma AddExample()
    ensures Add(Vec3(1.0, 2.0, 3.0), Vec3(4.0, 5.0, 6.0)) == Vec3(5.0, 7.0, 9.0)
  {
  }

  lemma SubExample()
    ensures Sub(Vec3(1.0, 2.0, 3.0), Vec3(4.0, 5.0, 6.0)) == Vec3(-3.0, -3.0, -3.0)
  {
  }

  lemma MulExamples()
    ensures Mul(Vec3(1.0, 2.0, 3.0), Vec3(4.0, 5.0, 6.0)) == Vec3(4.0, 10.0, 18.0)
    ensures MulScalar(Vec3(1.0, 2.0, 3.0), 2.0) == Vec3(2.0, 4.0, 6.0)
    ensures ScalarMul(2.0, Vec3(1.0, 2.0, 3.0)) == Vec3(2.0, 4.0, 6.0)
  {
  }

  lemma DivExamples()
    ensures Div(Vec3(1.0, 2.0, 3.0), Vec3(4.0, 5.0, 6.0)) == Vec3(0.25, 0.4, 0.5)
    ensures DivScalar(Vec3(1.0, 2.0, 3.0), 2.0) == Vec3(0.5, 1.0, 1.5)
  {
  }

  lemma NegExample()
    ensures Neg(Vec3(1.0, -2.0, 3.0)) == Vec3(-1.0, 2.0, -3.0)
  {
  }

  /** The `*_assign` tests: each operator applied in place to `(1, 2, 3)`. */
  method AssignExamples() returns (added: Vec3, subtracted: Vec3, multiplied: Vec3, divided: Vec3)
    ensures added == Vec3(5.0, 7.0, 9.0)
    ensures subtracted == Vec3(-3.0, -3.0, -3.0)
    ensures multiplied == Vec3(2.0, 4.0, 6.0)
    ensures divided == Vec3(0.5, 1.0, 1.5)
  {
    var a := new Vec3Var(Vec3(1.0, 2.0, 3.0));
    a.AddAssign(Vec3(4.0, 5.0, 6.0));
    added := a.Value();
    a := new Vec3Var(Vec3(1.0, 2.0, 3.0));
    a.SubAssign(Vec3(4.0, 5.0, 6.0));
    subtracted := a.Value();
    a := new Vec3Var(Vec3(1.0, 2.0, 3.0));
    a.MulAssign(2.0);
    multiplied := a.Value();
    a := new Vec3Var(Vec3(1.0, 2.0, 3.0));
    a.DivAssign(2.0);
    divided := a.Value();
  }
}
