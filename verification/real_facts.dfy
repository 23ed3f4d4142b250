/**
 * Elementary facts about products of reals, proved one step at a time so that the
 * solver never has to search for them inside a larger proof.
 */
module RealFacts {

  lemma MulPositive(y: real, z: real)
    requires 0.0 < y && 0.0 < z
    ensures 0.0 < y * z
  {
  }

  /** Scaling two numbers by one factor keeps their cross products equal. */
  lemma ScaledCross(x: real, y: real, s: real)
    ensures (x * s) * y == (y * s) * x
  {
    assert (x * s) * y == s * (x * y);
    assert (y * s) * x == s * (y * x);
  }

  lemma MulMonotone(a: real, b: real, c: real)
    requires 0.0 <= a <= b && 0.0 <= c
    ensures a * c <= b * c
  {
  }

  lemma SquareStrictMonotone(a: real, b: real)
    requires 0.0 <= a < b
    ensures a * a < b * b
  {
    MulPositive(b - a, b + a);
    assert (b - a) * (b + a) == b * b - a * a;
  }

  /** Non-negative reals with equal squares are equal. */
  lemma SquareInjective(a: real, b: real)
    requires 0.0 <= a && 0.0 <= b && a * a == b * b
    ensures a == b
  {
    if a < b {
      SquareStrictMonotone(a, b);
    } else if b < a {
      SquareStrictMonotone(b, a);
    }
  }

  /** Squares order non-negative reals the way the reals themselves are ordered. */
  lemma SquareOrder(a: real, b: real)
    requires 0.0 <= a && 0.0 <= b && a * a <= b * b
    ensures a <= b
  {
    if b < a {
      SquareStrictMonotone(b, a);
    }
  }
}
