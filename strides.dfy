// Strides of the dense layouts: the right (row-major) layout of a full
// tensor and the binomial strides of the symmetric and antisymmetric ones.
// An index list is the sequence of the sub-indices' memory sizes; position k
// is the rank of a sub-index in that list.
module Strides {
  import opened Arith
  import opened Binomial

  /** The product of all sizes, 1 for none. */
  function Product(s: seq<nat>): nat
  {
    if |s| == 0 then 1 else s[0] * Product(s[1..])
  }

  /** `stride_factor<max_rank, T>`: the size of the sub-index at position j if j > max_rank, else 1. */
  function StrideFactor(maxRank: nat, j: nat, size: nat): nat
  {
    if j > maxRank then size else 1
  }

  /** The product fold of `stride_factor` over the positions j.. of the list. */
  function FactorFold(sizes: seq<nat>, maxRank: nat, j: nat): nat
    requires j <= |sizes|
    decreases |sizes| - j
  {
    if j == |sizes| then 1 else StrideFactor(maxRank, j, sizes[j]) * FactorFold(sizes, maxRank, j + 1)
  }

  /** `stride<T_k, T...>`: the product of the sizes after position k. */
  function Stride(sizes: seq<nat>, k: nat): (r: nat)
    requires k < |sizes|
    ensures r == Product(sizes[k + 1..])
  {
    FoldIsProduct(sizes, k, 0);
    FactorFold(sizes, k, 0)
  }

  /** `next_stride<T_k, T...>`: the size_t maximum at position 0, else the product of the sizes from position k on. */
  function NextStride(sizes: seq<nat>, k: nat): (r: nat)
    requires k < |sizes|
    ensures k == 0 ==> r == SIZE_MAX
    ensures k > 0 ==> r == Product(sizes[k..])
  {
    if k == 0 then SIZE_MAX
    else
      FoldIsProduct(sizes, k - 1, 0);
      FactorFold(sizes, k - 1, 0)
  }

  /** The fold from position j is the product of the sizes after max_rank (or from j, if j is later). */
  lemma {:induction false} FoldIsProduct(sizes: seq<nat>, maxRank: nat, j: nat)
    requires j <= |sizes| && maxRank < |sizes|
    ensures j <= maxRank + 1 ==> FactorFold(sizes, maxRank, j) == Product(sizes[maxRank + 1..])
    ensures j > maxRank ==> FactorFold(sizes, maxRank, j) == Product(sizes[j..])
    decreases |sizes| - j
  {
    if j == |sizes| {
      assert sizes[j..] == [];
    } else {
      FoldIsProduct(sizes, maxRank, j + 1);
      if j > maxRank {
        assert sizes[j..][1..] == sizes[j + 1..];
      }
    }
  }

  /** Row-major layout: for k > 0, stride(k) * size(k) == next_stride(k); the last position has stride 1. */
  lemma StrideTimesSize(sizes: seq<nat>, k: nat)
    requires 0 < k < |sizes|
    ensures Stride(sizes, k) * sizes[k] == NextStride(sizes, k)
    ensures Stride(sizes, |sizes| - 1) == 1
  {
    assert sizes[k..][1..] == sizes[k + 1..];
    assert sizes[|sizes|..] == [];
  }

  /** `symmetric_stride<T_k, T...>`: C(n_k, k). */
  function SymmetricStride(n: nat, k: nat): (r: nat)
    ensures r == Choose(n, k)
  {
    BinomialCoefficient(n, k)
  }

  /** `symmetric_next_stride<T_k, T...>`: the size_t maximum at position 0, else C(n_k, k - 1). */
  function SymmetricNextStride(n: nat, k: nat): (r: nat)
    ensures k == 0 ==> r == SIZE_MAX
    ensures k > 0 ==> r == Choose(n, k - 1)
  {
    if k == 0 then SIZE_MAX else BinomialCoefficient(n, k - 1)
  }

  /** Neighbouring symmetric strides: k * C(n, k) == (n - k + 1) * C(n, k - 1). */
  lemma SymmetricStrideRatio(n: nat, k: nat)
    requires k >= 1
    ensures k * SymmetricStride(n, k) == (n - k + 1) * SymmetricNextStride(n, k)
  {
    ChooseRatio(n, k);
  }

  /** `antisymmetric_stride<T_k, T...>` among N sub-indices: C(n_k, N - k). */
  function AntisymmetricStride(n: nat, count: nat, k: nat): (r: nat)
    requires k < count
    ensures r == Choose(n, count - k)
  {
    BinomialCoefficient(n, count - k)
  }

  /** `antisymmetric_next_stride<T_k, T...>`: the size_t maximum at position 0, else C(n_k, N - k - 1). */
  function AntisymmetricNextStride(n: nat, count: nat, k: nat): (r: nat)
    requires k < count
    ensures k == 0 ==> r == SIZE_MAX
    ensures k > 0 ==> r == Choose(n, count - k - 1)
  {
    if k == 0 then SIZE_MAX else BinomialCoefficient(n, count - k - 1)
  }

  /** Neighbouring antisymmetric strides: with m = N - k, m * C(n, m) == (n - m + 1) * C(n, m - 1). */
  lemma AntisymmetricStrideRatio(n: nat, count: nat, k: nat)
    requires 0 < k < count
    ensures (count - k) * AntisymmetricStride(n, count, k) == (n - (count - k) + 1) * AntisymmetricNextStride(n, count, k)
  {
    ChooseRatio(n, count - k);
  }
}
