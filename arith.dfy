/** Small facts of real arithmetic that the solver does not find on its own. */
module RealArith {

  lemma MulPositive(a: real, b: real)
    requires a > 0.0 && b > 0.0
    ensures a * b > 0.0
  {
  }

  lemma MulNonNegative(a: real, b: real)
    requires a >= 0.0 && b >= 0.0
    ensures a * b >= 0.0
  {
  }

  /** Scaling by a positive factor keeps the sign. */
  lemma PositiveScaleKeepsSign(k: real, x: real)
    requires k > 0.0
    ensures k * x < 0.0 <==> x < 0.0
  {
    if x < 0.0 {
      MulPositive(k, -x);
    } else {
      MulNonNegative(k, x);
    }
  }

  lemma SquareNonNegative(a: real)
    ensures a * a >= 0.0
  {
  }

  lemma SquarePositive(a: real)
    requires a != 0.0
    ensures a * a > 0.0
  {
    if a > 0.0 {
      MulPositive(a, a);
    } else {
      MulPositive(-a, -a);
      assert (-a) * (-a) == a * a;
    }
  }

  lemma SquareStrictMono(a: real, b: real)
    requires a > b >= 0.0
    ensures a * a > b * b
  {
    MulPositive(a - b, a + b);
    assert (a - b) * (a + b) == a * a - b * b;
  }

  /** A non-negative number has at most one non-negative square root. */
  lemma SquareRootUnique(s: real, t: real)
    requires s >= 0.0 && t >= 0.0 && s * s == t * t
    ensures s == t
  {
    if s > t {
      SquareStrictMono(s, t);
    } else if t > s {
      SquareStrictMono(t, s);
    }
  }

  lemma RootNonZero(l: real, q: real)
    requires l * l == q && q > 0.0
    ensures l != 0.0
  {
  }

  lemma RootOfPositive(l: real, q: real)
    requires l >= 0.0 && l * l == q && q > 0.0
    ensures l > 0.0
  {
    RootNonZero(l, q);
  }

  /** `a` lies in `[-l, l]` when its square is at most `l * l`. */
  lemma AbsBound(a: real, l: real)
    requires l >= 0.0 && a * a <= l * l
    ensures -l <= a <= l
  {
    if a > l {
      MulPositive(a - l, a + l);
    } else if a < -l {
      MulPositive(-a - l, -a + l);
    }
  }

  lemma AbsAtMostOne(a: real)
    requires a * a <= 1.0
    ensures -1.0 <= a <= 1.0
  {
    AbsBound(a, 1.0);
  }

  lemma PartsOfSum(p: real, q: real, r: real, s: real)
    requires p >= 0.0 && q >= 0.0 && r >= 0.0 && p + q + r == s
    ensures p <= s && q <= s && r <= s
  {
  }

  lemma InverseSquare(k: real, l: real)
    requires k * l == 1.0
    ensures (k * k) * (l * l) == 1.0
  {
  }

  lemma DivIsMulInverse(a: real, l: real)
    requires l != 0.0
    ensures a / l == a * (1.0 / l)
  {
  }

  lemma ProductInUnit(a: real, b: real)
    requires 0.0 <= a <= 1.0 && 0.0 <= b <= 1.0
    ensures 0.0 <= a * b <= 1.0
  {
    MulNonNegative(a, b);
    MulNonNegative(1.0 - a, b);
    assert (1.0 - a) * b == b - a * b;
  }

  lemma SquareScaled(x: real, k: real)
    ensures (x * k) * (x * k) == (k * k) * (x * x)
  {
  }

  /**
   * `a * b` as a function application. A lemma whose ensures mentions `Product(w, u)`
   * hands its fact to a caller that passes a sum for `w`; the caller then equates the
   * application with its own product.
   */
  function Product(a: real, b: real): real
  {
    a * b
  }

  lemma FractionOfPositive(w: real, u: real)
    requires w > 0.0 && 0.0 <= u < 1.0
    ensures 0.0 <= Product(w, u) < w
  {
    MulNonNegative(w, u);
    assert w * (1.0 - u) > 0.0 by {
      assert 1.0 - u > 0.0;
    }
  }

  /** A point a fraction `u` in [0, 1) of the way from `lo` to `hi` lies in [lo, hi). */
  lemma FractionOfWidth(lo: real, hi: real, u: real)
    requires lo < hi && 0.0 <= u < 1.0
    ensures lo <= lo + (hi - lo) * u < hi
  {
    FractionOfPositive(hi - lo, u);
    assert Product(hi - lo, u) == (hi - lo) * u;
  }

  lemma ProductPositive(a: real, b: real)
    requires a > 0.0 && b > 0.0
    ensures Product(a, b) > 0.0
  {
  }

  lemma ProductNonPositive(a: real, b: real)
    requires a >= 0.0 && b <= 0.0
    ensures Product(a, b) <= 0.0
  {
    MulNonNegative(a, -b);
    assert a * (-b) == -(a * b);
  }

  lemma ProductOfZero(a: real, b: real)
    requires a == 0.0
    ensures Product(a, b) == 0.0
  {
  }

  lemma ProductSquareNonNegative(a: real)
    ensures Product(a, a) >= 0.0
  {
  }

  /**
   * A sum of three squares, the first of a non-zero number, is positive. The squares
   * are written as `Product` applications: Z3 turns a literal `a * a > 0.0` into
   * `a != 0.0` and then loses the link to the sum.
   */
  lemma SquaresPositive(a: real, b: real, c: real)
    requires a != 0.0
    ensures Product(a, a) + Product(b, b) + Product(c, c) > 0.0
  {
    if a > 0.0 {
      ProductPositive(a, a);
    } else {
      ProductPositive(-a, -a);
      assert Product(-a, -a) == Product(a, a);
    }
    ProductSquareNonNegative(b);
    ProductSquareNonNegative(c);
  }

  lemma ZeroProduct(p: real, q: real)
    requires p * q == 0.0
    ensures p == 0.0 || q == 0.0
  {
  }

  lemma SquaresEqual(x: real, s: real)
    requires x * x == s * s
    ensures x == s || x == -s
  {
    assert (x - s) * (x + s) == 0.0;
    ZeroProduct(x - s, x + s);
  }

  // The quadratic `a t^2 + 2 h t + c` in the "half b" form, with `s` a square root of
  // its reduced discriminant `h^2 - a c`. The product `a c` is written `Product(a, c)`
  // so that a caller may pass a sum for `c`.

  /**
   * The value at `t` of the quadratic `a t^2 + 2 h t + c`. Stated through this function,
   * facts about the quadratic carry over between equal coefficients by congruence alone.
   */
  function Quadratic(a: real, h: real, c: real, t: real): real
  {
    a * t * t + 2.0 * h * t + c
  }

  /** Subtracting `k` from the value subtracts it from the constant coefficient. */
  lemma QuadraticShift(a: real, h: real, c: real, k: real, t: real)
    ensures Quadratic(a, h, c, t) - k == Quadratic(a, h, c - k, t)
  {
  }

  /** Both `(-h - s) / a` and `(-h + s) / a` are roots. */
  lemma HalfBRoots(a: real, h: real, c: real, s: real, t: real)
    requires a != 0.0 && s * s == h * h - Product(a, c)
    requires t == (-h - s) / a || t == (-h + s) / a
    ensures Quadratic(a, h, c, t) == 0.0
  {
    assert Product(a, c) == a * c;
    if t == (-h - s) / a {
      assert t * a == -h - s;
    } else {
      assert t * a == -h + s;
    }
    assert a * (a * t * t + 2.0 * h * t + c) == 0.0;
  }

  /** There are no other roots. */
  lemma HalfBOnlyRoots(a: real, h: real, c: real, s: real, t: real)
    requires a != 0.0 && s * s == h * h - Product(a, c)
    requires Quadratic(a, h, c, t) == 0.0
    ensures t == (-h - s) / a || t == (-h + s) / a
  {
    assert Product(a, c) == a * c;
    assert (a * t + h) * (a * t + h) == s * s;
    SquaresEqual(a * t + h, s);
  }

  /** A quadratic with a root has a non-negative reduced discriminant. */
  lemma HalfBDiscriminantOfRoot(a: real, h: real, c: real, t: real)
    requires Quadratic(a, h, c, t) == 0.0
    ensures h * h - Product(a, c) >= 0.0
  {
    assert h * h - a * c == Product(a * t + h, a * t + h);
    ProductSquareNonNegative(a * t + h);
  }

  /** The smaller root comes first when `a > 0` and `s >= 0`. */
  lemma HalfBRootsOrdered(a: real, h: real, s: real)
    requires a > 0.0 && s >= 0.0
    ensures (-h - s) / a <= (-h + s) / a
  {
    DivIsMulInverse(-h - s, a);
    DivIsMulInverse(-h + s, a);
    MulNonNegative(2.0 * s, 1.0 / a);
    assert (-h + s) * (1.0 / a) - (-h - s) * (1.0 / a) == (2.0 * s) * (1.0 / a);
  }

  /**
   * When `a c < 0` (for `a > 0`, a negative constant term) the two roots lie on
   * either side of zero: `s` exceeds `|h|`.
   */
  lemma HalfBRootsStraddleZero(a: real, h: real, c: real, s: real)
    requires a > 0.0 && Product(a, c) < 0.0
    requires s >= 0.0 && s * s == h * h - Product(a, c)
    ensures (-h - s) / a < 0.0 < (-h + s) / a
  {
    RootExceedsHalfB(h, s);
    QuotientSign(-h - s, a);
    QuotientSign(-h + s, a);
  }

  lemma RootExceedsHalfB(h: real, s: real)
    requires s >= 0.0 && s * s > h * h
    ensures -s < h < s
  {
    if h >= s {
      SquareMono(h, s);
    } else if -h >= s {
      SquareMono(-h, s);
    }
  }

  lemma SquareMono(a: real, b: real)
    requires a >= b >= 0.0
    ensures a * a >= b * b
  {
    if a > b {
      SquareStrictMono(a, b);
    }
  }

  /** Dividing by a positive number keeps the sign. */
  lemma QuotientSign(x: real, a: real)
    requires a > 0.0
    ensures x < 0.0 ==> x / a < 0.0
    ensures x > 0.0 ==> x / a > 0.0
  {
    DivIsMulInverse(x, a);
    assert 1.0 / a > 0.0;
    if x < 0.0 {
      MulPositive(-x, 1.0 / a);
    } else if x > 0.0 {
      MulPositive(x, 1.0 / a);
    }
  }

  lemma ProductNegative(a: real, c: real)
    requires a > 0.0 && c < 0.0
    ensures Product(a, c) < 0.0
  {
    MulPositive(a, -c);
  }
}
