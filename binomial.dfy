// Binomial coefficients: the library's recursive `binomial_coefficient`
// and the textbook definition by Pascal's rule it is proved equal to.
module Binomial {
  import Arith

  /** n choose k by Pascal's rule: the reference definition. */
  function Choose(n: nat, k: nat): nat
  {
    if k == 0 then 1
    else if n == 0 then 0
    else Choose(n - 1, k - 1) + Choose(n - 1, k)
  }

  /**
   * `binomial_coefficient(n, k)` as the library evaluates it: out-of-range,
   * edge and first cases, otherwise C(n-1, k-1) * n / k with integer division.
   * The division is exact, so the result is the textbook coefficient.
   */
  function BinomialCoefficient(n: nat, k: nat): (r: nat)
    ensures r == Choose(n, k)
  {
    if k > n then
      ChooseAboveIsZero(n, k);
      0
    else if k == 0 || k == n then
      ChooseAll(n);
      1
    else if k == 1 || k == n - 1 then
      ChooseOne(n);
      ChooseAllButOne(n);
      n
    else
      var p := BinomialCoefficient(n - 1, k - 1);
      ChooseAbsorption(n, k);
      assert p * n == Choose(n, k) * k;
      Arith.DivExact(Choose(n, k), k);
      p * n / k
  }

  lemma {:induction false} ChooseAboveIsZero(n: nat, k: nat)
    requires k > n
    ensures Choose(n, k) == 0
  {
    if n > 0 {
      ChooseAboveIsZero(n - 1, k - 1);
      ChooseAboveIsZero(n - 1, k);
    }
  }

  lemma {:induction false} ChooseAll(n: nat)
    ensures Choose(n, n) == 1
  {
    if n > 0 {
      ChooseAll(n - 1);
      ChooseAboveIsZero(n - 1, n);
    }
  }

  lemma {:induction false} ChooseOne(n: nat)
    ensures Choose(n, 1) == n
  {
    if n > 0 {
      ChooseOne(n - 1);
    }
  }

  lemma {:induction false} ChooseAllButOne(n: nat)
    requires n >= 1
    ensures Choose(n, n - 1) == n
  {
    if n > 1 {
      ChooseAllButOne(n - 1);
      ChooseAll(n - 1);
    }
  }

  /** Pascal's rule, stated for every n >= 1 and k >= 1. */
  lemma PascalRule(n: nat, k: nat)
    requires n >= 1 && k >= 1
    ensures Choose(n, k) == Choose(n - 1, k - 1) + Choose(n - 1, k)
  {
  }

  /** The absorption identity k * C(n, k) == n * C(n-1, k-1). */
  lemma {:induction false} ChooseAbsorption(n: nat, k: nat)
    requires n >= 1 && k >= 1
    ensures k * Choose(n, k) == n * Choose(n - 1, k - 1)
  {
    if n == 1 {
      if k > 1 {
        ChooseAboveIsZero(1, k);
        ChooseAboveIsZero(0, k - 1);
      }
    } else if k == 1 {
      ChooseOne(n);
    } else {
      var a := Choose(n - 2, k - 2);
      var b := Choose(n - 2, k - 1);
      var c := Choose(n - 1, k - 1);
      var d := Choose(n - 1, k);
      assert Choose(n, k) == c + d;
      assert c == a + b;
      ChooseAbsorption(n - 1, k - 1);
      assert (k - 1) * c == (n - 1) * a;
      ChooseAbsorption(n - 1, k);
      assert k * d == (n - 1) * b;
      AbsorptionStep(n, k, a, b, c, d);
    }
  }

  lemma AbsorptionStep(n: int, k: int, a: int, b: int, c: int, d: int)
    requires c == a + b && (k - 1) * c == (n - 1) * a && k * d == (n - 1) * b
    ensures k * (c + d) == n * c
  {
    calc {
      k * (c + d);
      k * c + k * d;
      (k - 1) * c + c + k * d;
      (n - 1) * a + c + (n - 1) * b;
      (n - 1) * (a + b) + c;
      (n - 1) * c + c;
      n * c;
    }
  }

  /** Symmetry C(n, k) == C(n, n - k). */
  lemma {:induction false} ChooseSymmetric(n: nat, k: nat)
    requires k <= n
    ensures Choose(n, k) == Choose(n, n - k)
  {
    if k == 0 {
      ChooseAll(n);
    } else if k == n {
      ChooseAll(n);
    } else {
      ChooseSymmetric(n - 1, k - 1);
      ChooseSymmetric(n - 1, k);
      assert n - 1 - (k - 1) == n - k;
      assert Choose(n, n - k) == Choose(n - 1, n - k - 1) + Choose(n - 1, n - k);
    }
  }

  /** C(n, k) is positive exactly when k <= n. */
  lemma {:induction false} ChoosePositive(n: nat, k: nat)
    ensures Choose(n, k) > 0 <==> k <= n
  {
    if k > n {
      ChooseAboveIsZero(n, k);
    } else if k > 0 {
      ChoosePositive(n - 1, k - 1);
    }
  }

  /** Neighbouring coefficients: k * C(n, k) == (n - k + 1) * C(n, k - 1). */
  lemma {:induction false} ChooseRatio(n: nat, k: nat)
    requires k >= 1
    ensures k * Choose(n, k) == (n - k + 1) * Choose(n, k - 1)
  {
    if n == 0 {
      if k > 1 {
        ChooseAboveIsZero(0, k - 1);
      }
    } else if k == 1 {
      ChooseOne(n);
    } else {
      ChooseRatio(n - 1, k - 1);
      ChooseRatio(n - 1, k);
      var a := Choose(n - 1, k - 2);
      var b := Choose(n - 1, k - 1);
      var c := Choose(n - 1, k);
      assert Choose(n, k) == b + c;
      assert Choose(n, k - 1) == a + b;
      RatioStep(n, k, a, b, c);
    }
  }

  lemma RatioStep(n: int, k: int, a: int, b: int, c: int)
    requires (k - 1) * b == (n - k + 1) * a && k * c == (n - k) * b
    ensures k * (b + c) == (n - k + 1) * (a + b)
  {
    calc {
      k * (b + c);
      (k - 1) * b + b + k * c;
      (n - k + 1) * a + b + (n - k) * b;
      (n - k + 1) * a + (n - k + 1) * b;
      (n - k + 1) * (a + b);
    }
  }
}
