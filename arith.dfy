// Small facts about integer multiplication, division and remainder that the
// solver does not find on its own; every other module builds on them.
module Arith {

  /** std::numeric_limits<std::size_t>::max() on a 64-bit target. */
  const SIZE_MAX: nat := 0xFFFF_FFFF_FFFF_FFFF

  /** The modulus of std::size_t arithmetic. */
  const SIZE_MOD: nat := SIZE_MAX + 1

  /** The value of x converted to std::size_t: reduced modulo 2^64. */
  function SizeT(x: int): (r: nat)
    ensures r < SIZE_MOD
    ensures 0 <= x < SIZE_MOD ==> r == x
  {
    x % SIZE_MOD
  }

  lemma MulAssoc(a: int, b: int, c: int)
    ensures a * b * c == a * (b * c)
  {
  }

  lemma MulNonneg(e: int, k: int)
    ensures e >= 0 && k >= 0 ==> e * k >= 0
  {
  }

  lemma MulAtLeast(e: int, k: int)
    ensures e >= 1 && k > 0 ==> e * k >= k
  {
    if e >= 1 && k > 0 {
      assert e * k == (e - 1) * k + k;
      MulNonneg(e - 1, k);
    }
  }

  /** Peeling one factor off a product: n * k == (n - 1) * k + k. */
  lemma MulPred(n: int, k: int)
    ensures n * k == (n - 1) * k + k
  {
  }

  /** Exact division: (a * k) / k == a. */
  lemma DivExact(a: int, k: int)
    requires k > 0
    ensures (a * k) / k == a
  {
    var x := a * k;
    var d := x / k;
    var m := x % k;
    assert x == d * k + m;
    assert (a - d) * k == m by { assert (a - d) * k == a * k - d * k; }
    assert (d - a) * k == -m by { assert (d - a) * k == d * k - a * k; }
    MulAtLeast(a - d, k);
    MulAtLeast(d - a, k);
  }

  /** Quotient and remainder are determined by y == q * c + r with 0 <= r < c. */
  lemma DivModUnique(y: int, q: int, c: int, r: int)
    requires c > 0 && 0 <= r < c && y == q * c + r
    ensures y / c == q && y % c == r
  {
    var q', r' := y / c, y % c;
    assert y == q' * c + r';
    assert (q - q') * c == r' - r by { assert (q - q') * c == q * c - q' * c; }
    if q > q' {
      MulAtLeast(q - q', c);
    } else if q < q' {
      MulAtLeast(q' - q, c);
    }
  }

  /** Reducing modulo a multiple b * c first does not change the remainder modulo c. */
  lemma ModOfMultipleMod(a: nat, b: nat, c: nat)
    requires b > 0 && c > 0
    ensures b * c > 0 && (a % (b * c)) % c == a % c
  {
    MulAtLeast(b, c);
    var bc := b * c;
    var q, r := a / bc, a % bc;
    assert a == q * bc + r;
    var q2, r2 := r / c, r % c;
    assert r == q2 * c + r2;
    assert a == (q * b + q2) * c + r2 by {
      assert q * bc == (q * b) * c;
      assert (q * b + q2) * c == (q * b) * c + q2 * c;
    }
    DivModUnique(a, q * b + q2, c, r2);
  }

  /** The quotient by c of a remainder modulo b * c is below b. */
  lemma DivOfModBound(a: nat, b: nat, c: nat)
    requires b > 0 && c > 0
    ensures b * c > 0 && (a % (b * c)) / c < b
  {
    MulAtLeast(b, c);
    var r := a % (b * c);
    var q := r / c;
    assert r == q * c + r % c;
  }
}
