/** The square root the distance search applies to squared pixel distances.
    The engine's square root is not part of this model: every operation that needs
    it takes it as a parameter and asks only that it is the non-negative root. */
module Roots {

  /** `sqrt` is the square root on the naturals: non-negative, and it squares back. */
  ghost predicate IsSqrt(sqrt: nat -> real) {
    forall n: nat :: 0.0 <= sqrt(n) && sqrt(n) * sqrt(n) == n as real
  }

  lemma SquareStrictlyMonotone(a: real, b: real)
    ensures 0.0 <= a < b ==> a * a < b * b
  {
    if 0.0 <= a < b {
      assert b - a > 0.0 && b > 0.0;
      assert a * (b - a) >= 0.0;
      assert b * (b - a) > 0.0;
    }
  }

  /** A larger squared distance never has a smaller root. */
  lemma SqrtMonotone(sqrt: nat -> real, n: nat, m: nat)
    requires IsSqrt(sqrt)
    requires n <= m
    ensures sqrt(n) <= sqrt(m)
  {
    SquareStrictlyMonotone(sqrt(m), sqrt(n));
  }

  /** The root of a perfect square k * k is k itself. */
  lemma SqrtOfSquare(sqrt: nat -> real, k: nat)
    requires IsSqrt(sqrt)
    ensures sqrt(k * k) == k as real
  {
    var s := sqrt(k * k);
    assert s * s == (k * k) as real;
    assert (k * k) as real == (k as real) * (k as real);
    SquareStrictlyMonotone(s, k as real);
    SquareStrictlyMonotone(k as real, s);
  }

  /** Every positive squared distance has a root of at least one. */
  lemma SqrtAtLeastOne(sqrt: nat -> real, n: nat)
    requires IsSqrt(sqrt)
    requires 1 <= n
    ensures 1.0 <= sqrt(n)
  {
    SqrtMonotone(sqrt, 1, n);
    SqrtOfSquare(sqrt, 1);
  }
}
