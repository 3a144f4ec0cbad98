// `sil::exterior::Cosimplex` and `sil::exterior::Cochain`: a simplex paired
// with a value, and a chain paired with one value per simplex. Integrating
// a cochain sums its values, each with the sign of its simplex's
// orientation. Values are the library's floating-point numbers, modelled as
// integers.
module Cochains {
  import opened Misc
  import opened Simplices
  import opened Chains
  import opened LocalChains

  /** `Cosimplex(simplex, value)`. */
  datatype Cosimplex = Cosimplex(simplex: Simplex, value: int)

  /** `Cochain`: the chain (a copy) and the values. */
  datatype Cochain = Cochain(chain: seq<Simplex>, values: seq<int>)

  /** +1 for a positive simplex, -1 for a negative one. */
  function Sign(s: Simplex): (r: int)
    ensures r == 1 || r == -1
    ensures r == -1 <==> s.negative
  {
    if s.negative then -1 else 1
  }

  /** The number of pairs the cochain iterator visits: it stops at the end of either range. */
  function Pairs(chain: seq<Simplex>, values: seq<int>): (n: nat)
    ensures n <= |chain| && n <= |values|
    ensures n == |chain| || n == |values|
  {
    if |chain| <= |values| then |chain| else |values|
  }

  /** The signed sum of the first n values: the reference integral. */
  function SignedSum(chain: seq<Simplex>, values: seq<int>, n: nat): int
    requires n <= |chain| && n <= |values|
  {
    if n == 0 then 0 else SignedSum(chain, values, n - 1) + Sign(chain[n - 1]) * values[n - 1]
  }

  function Integral(c: Cochain): int
  {
    SignedSum(c.chain, c.values, Pairs(c.chain, c.values))
  }

  /** `Cochain(chain)`: one value-initialised (zero) value per simplex. */
  function FromChain(chain: seq<Simplex>): (c: Cochain)
    ensures c.chain == chain && |c.values| == |chain|
    ensures forall i :: 0 <= i < |chain| ==> c.values[i] == 0
  {
    Cochain(chain, seq(|chain|, _ => 0))
  }

  /**
   * `Cochain(chain, value...)` and `Cochain(chain, values)`: assert that
   * there are as many values as simplices.
   */
  function FromValues(chain: seq<Simplex>, values: seq<int>): (c: Cochain)
    requires |values| == |chain|
    ensures c.chain == chain && c.values == values && Pairs(c.chain, c.values) == |chain|
  {
    Cochain(chain, values)
  }

  /**
   * `Cochain(chain, tensor)`: one value per memory slot of a tensor over an
   * antisymmetric index, copied slot by slot; asserts that there are as
   * many slots as simplices.
   */
  method FromTensor(chain: seq<Simplex>, mem: seq<int>) returns (c: Cochain)
    requires |mem| == |chain|
    ensures c == FromValues(chain, mem)
  {
    var values := new int[|mem|];
    var i := 0;
    while i < values.Length
      invariant i <= values.Length && values[..i] == mem[..i]
    {
      values[i] := mem[i];
      i := i + 1;
    }
    c := Cochain(chain, values[..]);
  }

  /** `size()`: the size of the chain. */
  function Size(c: Cochain): (n: nat)
    ensures n == |c.chain|
  {
    |c.chain|
  }

  /** `operator[]`: the simplex and the value at position i. */
  function At(c: Cochain, i: nat): (r: Cosimplex)
    requires i < |c.chain| && i < |c.values|
    ensures r.simplex == c.chain[i] && r.value == c.values[i]
  {
    Cosimplex(c.chain[i], c.values[i])
  }

  /** `integrate()` over a chain: the signed sum, pair by pair. */
  method Integrate(c: Cochain) returns (out: int)
    ensures out == Integral(c)
  {
    out := 0;
    var i := 0;
    while i < |c.chain| && i < |c.values|
      invariant i <= Pairs(c.chain, c.values)
      invariant out == SignedSum(c.chain, c.values, i)
    {
      out := out + (if c.chain[i].negative then -1 else 1) * c.values[i];
      i := i + 1;
    }
  }

  // ---------------------------------------------------------------------
  // Cochains over local chains
  // ---------------------------------------------------------------------

  /**
   * What the iterator of a cochain over a local chain yields: for each
   * vector, the simplex the reorienting constructor builds at the zero
   * element. The constructor asserts that every entry is -1, 0 or 1.
   */
  function LocalSimplices(vects: seq<Vect>): (ss: seq<Simplex>)
    requires forall i :: 0 <= i < |vects| ==> Unit(vects[i])
    ensures |ss| == |vects|
    ensures forall i :: 0 <= i < |ss| ==> LocalSimplex(vects[i]) == Some(ss[i])
  {
    seq(|vects|, i requires 0 <= i < |vects| => LocalSimplex(vects[i]).value)
  }

  /** The plain sum of the first n values. */
  function Sum(values: seq<int>, n: nat): int
    requires n <= |values|
  {
    if n == 0 then 0 else Sum(values, n - 1) + values[n - 1]
  }

  /**
   * `integrate()` over a local chain: the sign is the chain's `negative()`,
   * which is always false, so the values are summed. Over 0/1 vectors this
   * is the signed integral of the simplices the iterator yields.
   */
  method IntegrateLocal(chain: LocalChain, values: seq<int>) returns (out: int)
    requires chain.Valid()
    ensures out == Sum(values, Min(chain.size, |values|))
    ensures (forall i :: 0 <= i < chain.size ==> Unit(chain.Contents()[i]) && Binary(chain.Contents()[i])) ==>
      out == Integral(Cochain(LocalSimplices(chain.Contents()), values))
  {
    var negative := false;
    out := 0;
    var i := 0;
    while i < chain.size && i < |values|
      invariant i <= Min(chain.size, |values|)
      invariant out == Sum(values, i)
    {
      out := out + (if negative then -1 else 1) * values[i];
      i := i + 1;
    }
    if forall k :: 0 <= k < chain.size ==> Unit(chain.Contents()[k]) && Binary(chain.Contents()[k]) {
      LocalIntegralIsSum(chain.Contents(), values, i);
    }
  }

  /** Over 0/1 vectors the iterator yields positive simplices, so the signed sum is the plain sum. */
  lemma {:induction false} LocalIntegralIsSum(vects: seq<Vect>, values: seq<int>, n: nat)
    requires n <= |vects| && n <= |values|
    requires forall i :: 0 <= i < |vects| ==> Unit(vects[i]) && Binary(vects[i])
    ensures SignedSum(LocalSimplices(vects), values, n) == Sum(values, n)
  {
    if n > 0 {
      LocalIntegralIsSum(vects, values, n - 1);
      LocalPositive(vects, n - 1);
    }
  }

  /** The simplex yielded for a 0/1 vector is positive. */
  lemma LocalPositive(vects: seq<Vect>, i: nat)
    requires forall k :: 0 <= k < |vects| ==> Unit(vects[k])
    requires i < |vects| && Binary(vects[i])
    ensures !LocalSimplices(vects)[i].negative
  {
    assert LocalSimplex(vects[i]) == Some(LocalSimplices(vects)[i]);
  }

  /**
   * A slot holding -1 is yielded as a negative simplex, but `integrate()`
   * takes its sign from the chain and adds the value unchanged.
   */
  lemma LocalIntegralIgnoresReorientation()
    ensures Sum([5], 1) == 5
    ensures Integral(Cochain(LocalSimplices([[-1, 0]]), [5])) == -5
  {
    LocalSimplexReorients();
    assert LocalSimplices([[-1, 0]])[0].negative;
  }

  // ---------------------------------------------------------------------
  // Properties of the integral
  // ---------------------------------------------------------------------

  /** Reversing every orientation negates the integral. */
  lemma {:induction false} SignedSumFlipped(chain: seq<Simplex>, values: seq<int>, n: nat)
    requires n <= |chain| && n <= |values|
    ensures SignedSum(FlippedAll(chain), values, n) == -SignedSum(chain, values, n)
  {
    if n > 0 {
      SignedSumFlipped(chain, values, n - 1);
    }
  }

  lemma IntegralFlipped(c: Cochain)
    ensures Integral(Cochain(FlippedAll(c.chain), c.values)) == -Integral(c)
  {
    SignedSumFlipped(c.chain, c.values, Pairs(c.chain, c.values));
  }

  /** The signed sum of a concatenation adds the signed sums of the parts. */
  lemma {:induction false} SignedSumAppend(c1: seq<Simplex>, v1: seq<int>, c2: seq<Simplex>, v2: seq<int>, n: nat)
    requires |c1| == |v1| && n <= |c2| && n <= |v2|
    ensures SignedSum(c1 + c2, v1 + v2, |c1| + n) == SignedSum(c1, v1, |c1|) + SignedSum(c2, v2, n)
  {
    if n == 0 {
      SignedSumPrefix(c1, v1, c2, v2, |c1|);
    } else {
      SignedSumAppend(c1, v1, c2, v2, n - 1);
      assert (c1 + c2)[|c1| + n - 1] == c2[n - 1];
      assert (v1 + v2)[|c1| + n - 1] == v2[n - 1];
    }
  }

  /** Extending both ranges leaves the sum of the first m pairs as it was. */
  lemma {:induction false} SignedSumPrefix(c1: seq<Simplex>, v1: seq<int>, c2: seq<Simplex>, v2: seq<int>, m: nat)
    requires m <= |c1| && m <= |v1|
    ensures SignedSum(c1 + c2, v1 + v2, m) == SignedSum(c1, v1, m)
  {
    if m > 0 {
      SignedSumPrefix(c1, v1, c2, v2, m - 1);
      assert (c1 + c2)[m - 1] == c1[m - 1];
      assert (v1 + v2)[m - 1] == v1[m - 1];
    }
  }

  /** Integration is additive over cochains laid end to end. */
  lemma IntegralAppend(a: Cochain, b: Cochain)
    requires |a.chain| == |a.values| && |b.chain| == |b.values|
    ensures Integral(Cochain(a.chain + b.chain, a.values + b.values)) == Integral(a) + Integral(b)
  {
    SignedSumAppend(a.chain, a.values, b.chain, b.values, |b.chain|);
  }

  /** The library's cochain example: values 0, 1 and 2, the third simplex negative, integrate to -1. */
  lemma CochainExample()
    ensures Integral(FromValues([Simplex([0, 1, 0, 0], [0, 1, 1, 0], false), Simplex([0, 0, 0, 0], [0, 1, 1, 0], false),
                                 Simplex([0, 0, 0, 1], [0, 1, 1, 0], true)], [0, 1, 2])) == -1
  {
  }

  /** The library's local cochain example: X and Y with values 1 and 2 integrate to 3. */
  lemma LocalCochainExample()
    ensures Integral(Cochain(LocalSimplices([[0, 1, 0, 0], [0, 0, 1, 0]]), [1, 2])) == 3
  {
    var vects: seq<Vect> := [[0, 1, 0, 0], [0, 0, 1, 0]];
    assert Unit(vects[0]) && Binary(vects[0]) && Unit(vects[1]) && Binary(vects[1]);
    LocalIntegralIsSum(vects, [1, 2], 2);
  }
}
