/**
 Multiplication of reals under a name of its own, so that proofs can go by its
 laws instead of unfolding it.
 */
module Reals {

  function Times(x: real, y: real): real {
    x * y
  }

  lemma TimesSign(x: real, y: real)
    requires x >= 0.0 && y >= 0.0
    ensures Times(x, y) >= 0.0
    ensures x > 0.0 && y > 0.0 ==> Times(x, y) > 0.0
  {
  }

  lemma TimesMinus(x: real, y: real, z: real)
    ensures Times(x, y - z) == Times(x, y) - Times(x, z)
    ensures Times(y - z, x) == Times(y, x) - Times(z, x)
  {
  }

  lemma TimesConstants(x: real)
    ensures Times(0.0, x) == Times(x, 0.0) == 0.0
    ensures Times(1.0, x) == Times(x, 1.0) == x
  {
  }

  lemma TimesAssociates(x: real, y: real, z: real)
    ensures Times(Times(x, y), z) == Times(x, Times(y, z)) == Times(y, Times(x, z))
  {
  }

  lemma TimesTwice(x: real, y: real)
    ensures Times(x, 2.0 * y) == 2.0 * Times(x, y)
  {
  }

  lemma TimesQuotient(x: real, y: real)
    requires y != 0.0
    ensures Times(x / y, y) == x
  {
  }

  lemma TimesMonotone(k: real, x: real, y: real)
    requires k >= 0.0 && x <= y
    ensures Times(k, x) <= Times(k, y) && Times(x, k) <= Times(y, k)
    ensures k > 0.0 && x < y ==> Times(k, x) < Times(k, y) && Times(x, k) < Times(y, k)
  {
    hide Times;
    TimesSign(k, y - x);
    TimesSign(y - x, k);
    TimesMinus(k, y, x);
  }

  /** A fraction of a non-negative number lies between zero and that number. */
  lemma TimesFraction(a: real, x: real)
    requires 0.0 <= a <= 1.0 && x >= 0.0
    ensures 0.0 <= Times(a, x) <= x
  {
    hide Times;
    TimesSign(a, x);
    TimesMonotone(x, a, 1.0);
    TimesConstants(x);
  }
}
