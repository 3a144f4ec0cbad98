// `TensorFullIndex`: a dense index over sub-indices of sizes n_0, ..., n_{N-1}
// stored in row-major order. The access id of a natural multi-index is the
// weighted sum of its components by the row-major strides, memory ids equal
// access ids, and unranking reads component k back as
// (m mod next_stride_k) / stride_k.
module FullIndex {
  import opened Arith
  import opened Strides

  /** Every sub-index has at least one value (a natural index of no dimension has size 1). */
  predicate PositiveSizes(sizes: seq<nat>)
  {
    forall k :: 0 <= k < |sizes| ==> sizes[k] >= 1
  }

  /** A natural multi-index in the domain of the sub-indices. */
  predicate InRange(sizes: seq<nat>, ids: seq<nat>)
  {
    |ids| == |sizes| && forall k :: 0 <= k < |ids| ==> ids[k] < sizes[k]
  }

  /** `mem_size()`: 1 at rank 0, else the product of the sub-index sizes. */
  function MemSize(sizes: seq<nat>): (r: nat)
    requires PositiveSizes(sizes)
    ensures r >= 1
  {
    if |sizes| == 0 then 1 else PositiveProduct(sizes); Product(sizes)
  }

  /** The sum of stride_j * ids_j over the positions j from k on. */
  function StrideSum(sizes: seq<nat>, ids: seq<nat>, k: nat): nat
    requires |ids| == |sizes| && k <= |sizes|
    decreases |sizes| - k
  {
    if k == |sizes| then 0 else Stride(sizes, k) * ids[k] + StrideSum(sizes, ids, k + 1)
  }

  /** `access_id(ids)` (and `mem_id`): 0 at rank 0, else the sum over k of stride_k * ids_k. */
  function AccessId(sizes: seq<nat>, ids: seq<nat>): nat
    requires |ids| == |sizes|
  {
    if |sizes| == 0 then 0 else StrideSum(sizes, ids, 0)
  }

  /** `access_id_to_mem_id`: the identity. */
  function AccessIdToMemId(accessId: nat): (r: nat)
    ensures r == accessId
  {
    accessId
  }

  /** `mem_id_to_canonical_natural_ids(m)`: component k is (m mod next_stride_k) / stride_k; m < mem_size is asserted. */
  function Unrank(sizes: seq<nat>, m: nat): (ids: seq<nat>)
    requires PositiveSizes(sizes) && m < MemSize(sizes)
    ensures |ids| == |sizes|
  {
    seq(|sizes|, k requires 0 <= k < |sizes| =>
      StridePositive(sizes, k);
      Digit(m, NextStride(sizes, k), Stride(sizes, k)))
  }

  /** One unranked component: (m mod next) / stride. */
  function Digit(m: nat, next: nat, stride: nat): nat
    requires next > 0 && stride > 0
  {
    (m % next) / stride
  }

  lemma {:induction false} PositiveProduct(s: seq<nat>)
    requires PositiveSizes(s)
    ensures Product(s) >= 1
  {
    if |s| > 0 {
      PositiveProduct(s[1..]);
      MulAtLeast(s[0], Product(s[1..]));
    }
  }

  lemma StridePositive(sizes: seq<nat>, k: nat)
    requires PositiveSizes(sizes) && k < |sizes|
    ensures Stride(sizes, k) >= 1 && NextStride(sizes, k) >= 1
  {
    PositiveProduct(sizes[k + 1..]);
    PositiveProduct(sizes[k..]);
  }

  /** Product(s[..j]) * Product(s[j..]) == Product(s). */
  lemma {:induction false} ProductSplit(s: seq<nat>, j: nat)
    requires j <= |s|
    ensures Product(s[..j]) * Product(s[j..]) == Product(s)
  {
    if j == 0 {
      assert s[j..] == s;
    } else {
      ProductSplit(s[1..], j - 1);
      assert s[..j][1..] == s[1..][..j - 1];
      assert s[1..][j - 1..] == s[j..];
      assert Product(s[..j]) == s[0] * Product(s[1..][..j - 1]);
      MulAssoc(s[0], Product(s[1..][..j - 1]), Product(s[j..]));
    }
  }

  /** The tail sum from k is below the product of the sizes from k. */
  lemma {:induction false} StrideSumBound(sizes: seq<nat>, ids: seq<nat>, k: nat)
    requires InRange(sizes, ids) && k <= |sizes|
    ensures StrideSum(sizes, ids, k) < Product(sizes[k..])
    decreases |sizes| - k
  {
    if k == |sizes| {
      assert sizes[k..] == [];
    } else {
      StrideSumBound(sizes, ids, k + 1);
      var p := Product(sizes[k + 1..]);
      assert sizes[k..][1..] == sizes[k + 1..];
      assert Product(sizes[k..]) == sizes[k] * p;
      TailStep(p, ids[k], sizes[k], StrideSum(sizes, ids, k + 1));
    }
  }

  lemma TailStep(p: int, x: int, n: int, t: int)
    requires 0 <= t < p && 0 <= x < n
    ensures p * x + t < n * p
  {
    assert n * p == p * (n - x - 1) + p * x + p;
    MulNonneg(p, n - x - 1);
  }

  /** Modulo the product from k, the tail sum from any j <= k reduces to the tail sum from k. */
  lemma {:induction false} StrideSumMod(sizes: seq<nat>, ids: seq<nat>, j: nat, k: nat)
    requires InRange(sizes, ids) && PositiveSizes(sizes) && j <= k <= |sizes|
    ensures Product(sizes[k..]) >= 1
    ensures StrideSum(sizes, ids, j) % Product(sizes[k..]) == StrideSum(sizes, ids, k)
    decreases k - j
  {
    PositiveProduct(sizes[k..]);
    var p := Product(sizes[k..]);
    StrideSumBound(sizes, ids, k);
    if j == k {
      DivModUnique(StrideSum(sizes, ids, k), 0, p, StrideSum(sizes, ids, k));
    } else {
      StrideSumMod(sizes, ids, j + 1, k);
      var q := Product(sizes[j + 1..][..k - j - 1]);
      ProductSplit(sizes[j + 1..], k - j - 1);
      assert sizes[j + 1..][k - j - 1..] == sizes[k..];
      assert Stride(sizes, j) == q * p;
      AddMultipleMod(ids[j], q, p, StrideSum(sizes, ids, j + 1));
    }
  }

  /** Adding a multiple of p does not change the remainder modulo p. */
  lemma AddMultipleMod(a: nat, q: nat, p: nat, t: nat)
    requires p > 0
    ensures ((q * p) * a + t) % p == t % p
  {
    assert t == (t / p) * p + t % p;
    assert (q * p) * a + t == (q * a + t / p) * p + t % p;
    DivModUnique((q * p) * a + t, q * a + t / p, p, t % p);
  }

  /** Full index round trip: unranking the access id of an in-range multi-index gives it back. */
  lemma UnrankAccessId(sizes: seq<nat>, ids: seq<nat>)
    requires PositiveSizes(sizes) && InRange(sizes, ids) && MemSize(sizes) <= SIZE_MAX
    ensures AccessId(sizes, ids) < MemSize(sizes)
    ensures Unrank(sizes, AccessId(sizes, ids)) == ids
  {
    if |sizes| == 0 {
      return;
    }
    var m := AccessId(sizes, ids);
    StrideSumBound(sizes, ids, 0);
    assert sizes[0..] == sizes;
    var u := Unrank(sizes, m);
    forall k | 0 <= k < |sizes|
      ensures u[k] == ids[k]
    {
      StridePositive(sizes, k);
      var s := Stride(sizes, k);
      var r := m % NextStride(sizes, k);
      if k == 0 {
        DivModUnique(m, 0, SIZE_MAX, m);
      } else {
        StrideSumMod(sizes, ids, 0, k);
      }
      assert r == StrideSum(sizes, ids, k);
      StrideSumBound(sizes, ids, k + 1);
      DivModUnique(r, ids[k], s, StrideSum(sizes, ids, k + 1));
    }
  }

  /** The remainder of m modulo the product of the sizes from k (m itself at k = 0). */
  function Remainder(sizes: seq<nat>, m: nat, k: nat): nat
    requires PositiveSizes(sizes) && k <= |sizes|
  {
    PositiveProduct(sizes[k..]);
    m % Product(sizes[k..])
  }

  /** The weighted tail of the unranked components from k sums to the remainder at k. */
  lemma {:induction false} UnrankTail(sizes: seq<nat>, m: nat, k: nat)
    requires PositiveSizes(sizes) && m < MemSize(sizes) && MemSize(sizes) <= SIZE_MAX && k <= |sizes|
    ensures StrideSum(sizes, Unrank(sizes, m), k) == Remainder(sizes, m, k)
    decreases |sizes| - k
  {
    if k == |sizes| {
      assert sizes[k..] == [];
    } else {
      UnrankTail(sizes, m, k + 1);
      StridePositive(sizes, k);
      RemainderStep(sizes, m, k);
      RemainderAsNext(sizes, m, k);
      assert Unrank(sizes, m)[k] == Remainder(sizes, m, k) / Stride(sizes, k);
      SplitByDivisor(Remainder(sizes, m, k), Stride(sizes, k));
    }
  }

  lemma SplitByDivisor(r: nat, s: nat)
    requires s > 0
    ensures s * (r / s) + r % s == r
  {
  }

  /** The remainder at k + 1 is the remainder at k reduced modulo stride_k. */
  lemma RemainderStep(sizes: seq<nat>, m: nat, k: nat)
    requires PositiveSizes(sizes) && k < |sizes|
    ensures Stride(sizes, k) >= 1
    ensures Remainder(sizes, m, k) % Stride(sizes, k) == Remainder(sizes, m, k + 1)
  {
    StridePositive(sizes, k);
    assert sizes[k..][1..] == sizes[k + 1..];
    assert Product(sizes[k..]) == sizes[k] * Stride(sizes, k);
    ModOfMultipleMod(m, sizes[k], Stride(sizes, k));
  }

  /** The remainder used by unranking at k equals (m mod next_stride_k). */
  lemma RemainderAsNext(sizes: seq<nat>, m: nat, k: nat)
    requires PositiveSizes(sizes) && m < MemSize(sizes) && MemSize(sizes) <= SIZE_MAX && k < |sizes|
    ensures NextStride(sizes, k) >= 1
    ensures Remainder(sizes, m, k) == m % NextStride(sizes, k)
  {
    StridePositive(sizes, k);
    PositiveProduct(sizes);
    assert sizes[0..] == sizes;
    if k == 0 {
      DivModUnique(m, 0, SIZE_MAX, m);
      DivModUnique(m, 0, Product(sizes), m);
    }
  }

  /** Unranking lands in range, and the access id of the unranked multi-index is m. */
  lemma AccessIdUnrank(sizes: seq<nat>, m: nat)
    requires PositiveSizes(sizes) && m < MemSize(sizes) && MemSize(sizes) <= SIZE_MAX
    ensures InRange(sizes, Unrank(sizes, m))
    ensures AccessId(sizes, Unrank(sizes, m)) == m
  {
    var u := Unrank(sizes, m);
    forall k | 0 <= k < |sizes|
      ensures u[k] < sizes[k]
    {
      StridePositive(sizes, k);
      RemainderAsNext(sizes, m, k);
      assert sizes[k..][1..] == sizes[k + 1..];
      DivOfModBound(m, sizes[k], Stride(sizes, k));
    }
    if |sizes| > 0 {
      UnrankTail(sizes, m, 0);
      PositiveProduct(sizes);
      assert sizes[0..] == sizes;
      DivModUnique(m, 0, Product(sizes), m);
    }
  }

  /** In-range multi-indices have access ids below mem_size. */
  lemma AccessIdRange(sizes: seq<nat>, ids: seq<nat>)
    requires PositiveSizes(sizes) && InRange(sizes, ids)
    ensures AccessId(sizes, ids) < MemSize(sizes)
  {
    if |sizes| > 0 {
      StrideSumBound(sizes, ids, 0);
      assert sizes[0..] == sizes;
    }
  }
}
