// The library's recursive `factorial`, the product 1 * 2 * ... * k it computes,
// and its link with the binomial coefficients.
module Factorial {
  import opened Arith
  import Binomial

  /** `factorial(k)`: 1 for k <= 1, else k * factorial(k - 1); never zero. */
  function Factorial(k: nat): (r: nat)
    ensures r >= 1
  {
    if k <= 1 then 1 else k * Factorial(k - 1)
  }

  /** lo * (lo + 1) * ... * hi, and 1 for an empty range. */
  function ProductRange(lo: nat, hi: nat): nat
    decreases hi + 1 - lo
  {
    if lo > hi then 1 else lo * ProductRange(lo + 1, hi)
  }

  lemma {:induction false} ProductRangeTop(lo: nat, hi: nat)
    requires 1 <= lo <= hi
    ensures ProductRange(lo, hi) == ProductRange(lo, hi - 1) * hi
    decreases hi - lo
  {
    if lo < hi {
      ProductRangeTop(lo + 1, hi);
      var q := ProductRange(lo + 1, hi - 1);
      assert ProductRange(lo, hi) == lo * (q * hi);
      assert ProductRange(lo, hi - 1) == lo * q;
      MulAssoc(lo, q, hi);
    } else {
      assert ProductRange(lo, hi) == lo * ProductRange(lo + 1, hi);
      assert ProductRange(lo + 1, hi) == 1;
      assert ProductRange(lo, hi - 1) == 1;
    }
  }

  /** factorial(k) is the product 1 * 2 * ... * k. */
  lemma {:induction false} FactorialIsProduct(k: nat)
    ensures Factorial(k) == ProductRange(1, k)
  {
    if k >= 1 {
      ProductRangeTop(1, k);
      if k > 1 {
        FactorialIsProduct(k - 1);
      }
    }
  }

  /** C(n, k) * k! * (n - k)! == n!, so C(n, k) == n! / (k! (n-k)!). */
  lemma {:induction false} ChooseTimesFactorials(n: nat, k: nat)
    requires k <= n
    ensures Binomial.Choose(n, k) * Factorial(k) * Factorial(n - k) == Factorial(n)
  {
    if k == 0 {
    } else if k == n {
      Binomial.ChooseAll(n);
    } else {
      ChooseTimesFactorials(n - 1, k - 1);
      ChooseTimesFactorials(n - 1, k);
      var a := Binomial.Choose(n - 1, k - 1);
      var b := Binomial.Choose(n - 1, k);
      assert Binomial.Choose(n, k) == a + b;
      assert Factorial(k) == k * Factorial(k - 1);
      assert n - k - 1 == (n - 1) - k;
      assert Factorial(n - k) == (n - k) * Factorial(n - k - 1);
      FactorialStep(n, k, a, b, Factorial(k - 1), Factorial(n - k - 1), Factorial(n - 1));
      assert Factorial(n) == n * Factorial(n - 1);
    }
  }

  lemma FactorialStep(n: int, k: int, a: int, b: int, fk1: int, fnk1: int, f: int)
    requires a * fk1 * ((n - k) * fnk1) == f
    requires b * (k * fk1) * fnk1 == f
    ensures (a + b) * (k * fk1) * ((n - k) * fnk1) == n * f
  {
    calc {
      (a + b) * (k * fk1) * ((n - k) * fnk1);
      a * (k * fk1) * ((n - k) * fnk1) + b * (k * fk1) * ((n - k) * fnk1);
      k * (a * fk1 * ((n - k) * fnk1)) + (n - k) * (b * (k * fk1) * fnk1);
      k * f + (n - k) * f;
      n * f;
    }
  }
}
