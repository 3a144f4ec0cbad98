// `TensorAntisymmetricIndex`: r sub-indices over the same n values,
// storing one cell per strictly increasing r-tuple. The memory id of a
// multi-index is the lexicographic rank of its sorted copy, computed by the
// library as C(n, r) minus, per position k, the number of stored tuples
// that agree before k and are larger at k, minus 1, in size_t arithmetic.
// The access id adds the zero class (id 0) and the sign: ids of even
// parity come right after it, ids of odd parity one memory size further.
module AntisymmetricIndex {
  import opened Arith
  import opened Binomial
  import opened Signs
  import opened Sorting
  import opened LinearCombination
  import SymmetricIndex
  import opened Misc

  // The reference ranking of strictly increasing tuples.

  /** A strictly increasing tuple with every component in [lo, n). */
  predicate Increasing(s: seq<nat>, lo: nat, n: nat)
  {
    && (forall i, j :: 0 <= i < j < |s| ==> s[i] < s[j])
    && (forall k :: 0 <= k < |s| ==> lo <= s[k] < n)
  }

  /** The number of increasing len-tuples over [lo, n) whose first component is below x. */
  function Below(n: nat, lo: nat, x: nat, len: nat): int
    requires lo <= x <= n
  {
    Choose(n - lo, len) - Choose(n - x, len)
  }

  /** The reference rank: position of s in the lexicographic list of increasing tuples over [lo, n). */
  function Rank(n: nat, lo: nat, s: seq<nat>): int
    requires Increasing(s, lo, n)
    decreases |s|
  {
    if s == [] then 0
    else
      IncreasingTail(s, lo, n);
      Below(n, lo, s[0], |s|) + Rank(n, s[0] + 1, s[1..])
  }

  /** The least first component x' >= x whose block of tuples passes m. */
  function FirstValue(n: nat, lo: nat, len: nat, m: int, x: nat): (r: nat)
    requires len >= 1 && lo <= x < n && Below(n, lo, x, len) <= m < Choose(n - lo, len)
    ensures x <= r < n
    decreases n - x
  {
    if x == n - 1 || Below(n, lo, x + 1, len) > m then x else FirstValue(n, lo, len, m, x + 1)
  }

  /** The reference unranking: the increasing len-tuple over [lo, n) of rank m. */
  function Unrank(n: nat, lo: nat, len: nat, m: int): (s: seq<nat>)
    requires lo <= n && 0 <= m < Choose(n - lo, len)
    ensures |s| == len
    decreases len
  {
    if len == 0 then []
    else
      var x := FirstValue(n, lo, len, m, lo);
      FirstValueBrackets(n, lo, len, m, lo);
      BlockSize(n, lo, x, len);
      [x] + Unrank(n, x + 1, len - 1, m - Below(n, lo, x, len))
  }

  lemma IncreasingTail(s: seq<nat>, lo: nat, n: nat)
    requires s != [] && Increasing(s, lo, n)
    ensures Increasing(s[1..], s[0] + 1, n)
  {
    forall i, j | 0 <= i < j < |s| - 1
      ensures s[1..][i] < s[1..][j]
    {
      assert s[1..][i] == s[i + 1] && s[1..][j] == s[j + 1];
    }
    forall k | 0 <= k < |s| - 1
      ensures s[0] + 1 <= s[1..][k] < n
    {
      assert s[1..][k] == s[k + 1];
    }
  }

  /** C(a, k) grows with a. */
  lemma {:induction false} ChooseMonotone(a: nat, b: nat, k: nat)
    requires a <= b
    ensures Choose(a, k) <= Choose(b, k)
    decreases b - a
  {
    if a < b && k > 0 {
      ChooseMonotone(a, b - 1, k);
    }
  }

  /** With C(0, len) == 0, there is no increasing tuple over an empty range. */
  lemma NoneOverEmpty(len: nat)
    requires len >= 1
    ensures Choose(0, len) == 0
  {
  }

  /** The block of tuples starting with x has C(n - x - 1, len - 1) members. */
  lemma BlockSize(n: nat, lo: nat, x: nat, len: nat)
    requires len >= 1 && lo <= x < n
    ensures Below(n, lo, x + 1, len) - Below(n, lo, x, len) == Choose(n - x - 1, len - 1)
  {
    PascalRule(n - x, len);
  }

  lemma BelowMonotone(n: nat, lo: nat, x: nat, y: nat, len: nat)
    requires lo <= x <= y <= n
    ensures 0 <= Below(n, lo, x, len) <= Below(n, lo, y, len) <= Choose(n - lo, len)
  {
    ChooseMonotone(n - y, n - x, len);
    ChooseMonotone(n - x, n - lo, len);
  }

  /** The block of tuples starting with the first value found holds rank m. */
  lemma {:induction false} FirstValueBrackets(n: nat, lo: nat, len: nat, m: int, x: nat)
    requires len >= 1 && lo <= x < n && Below(n, lo, x, len) <= m < Choose(n - lo, len)
    ensures var r := FirstValue(n, lo, len, m, x);
      Below(n, lo, r, len) <= m < Below(n, lo, r + 1, len)
    decreases n - x
  {
    if x == n - 1 {
      NoneOverEmpty(len);
    } else if Below(n, lo, x + 1, len) <= m {
      FirstValueBrackets(n, lo, len, m, x + 1);
    }
  }

  /** Ranks of increasing tuples lie in [0, C(n - lo, |s|)). */
  lemma {:induction false} RankRange(n: nat, lo: nat, s: seq<nat>)
    requires Increasing(s, lo, n) && lo <= n
    ensures 0 <= Rank(n, lo, s) < Choose(n - lo, |s|)
    decreases |s|
  {
    if s != [] {
      IncreasingTail(s, lo, n);
      RankRange(n, s[0] + 1, s[1..]);
      BlockSize(n, lo, s[0], |s|);
      BelowMonotone(n, lo, s[0], s[0] + 1, |s|);
    }
  }

  /** One step of unranking: the first component x, then the rest unranked over [x + 1, n). */
  lemma UnrankCons(n: nat, lo: nat, len: nat, m: int) returns (x: nat, rest: seq<nat>)
    requires lo <= n && len >= 1 && 0 <= m < Choose(n - lo, len)
    ensures lo < n && x == FirstValue(n, lo, len, m, lo)
    ensures lo <= x < n && 0 <= m - Below(n, lo, x, len) < Choose(n - x - 1, len - 1)
    ensures rest == Unrank(n, x + 1, len - 1, m - Below(n, lo, x, len))
    ensures Unrank(n, lo, len, m) == [x] + rest
  {
    if lo == n {
      NoneOverEmpty(len);
    }
    x := FirstValue(n, lo, len, m, lo);
    FirstValueBrackets(n, lo, len, m, lo);
    BlockSize(n, lo, x, len);
    rest := Unrank(n, x + 1, len - 1, m - Below(n, lo, x, len));
  }

  lemma IncreasingCons(x: nat, rest: seq<nat>, lo: nat, n: nat)
    requires lo <= x < n && Increasing(rest, x + 1, n)
    ensures Increasing([x] + rest, lo, n) && ([x] + rest)[1..] == rest
    ensures Rank(n, lo, [x] + rest) == Below(n, lo, x, |rest| + 1) + Rank(n, x + 1, rest)
  {
    var s := [x] + rest;
    forall i, j | 0 <= i < j < |s|
      ensures s[i] < s[j]
    {
      if i > 0 {
        assert s[i] == rest[i - 1] && s[j] == rest[j - 1];
      } else {
        assert s[j] == rest[j - 1];
      }
    }
    forall k | 0 <= k < |s|
      ensures lo <= s[k] < n
    {
      if k > 0 {
        assert s[k] == rest[k - 1];
      }
    }
  }

  /** Unranking gives an increasing tuple of the requested length whose rank is m. */
  lemma {:induction false} UnrankValid(n: nat, lo: nat, len: nat, m: int)
    requires lo <= n && 0 <= m < Choose(n - lo, len)
    ensures Increasing(Unrank(n, lo, len, m), lo, n)
    ensures Rank(n, lo, Unrank(n, lo, len, m)) == m
    decreases len
  {
    if len == 0 {
      UnrankEmpty(n, lo, m);
    } else {
      var x, m', rest := UnrankStep(n, lo, len, m);
      UnrankValid(n, x + 1, len - 1, m');
      UnrankConsValid(n, lo, len, m, x, m');
    }
  }

  /** The inductive step: x in front of a valid unranked rest is valid and has rank m. */
  lemma UnrankConsValid(n: nat, lo: nat, len: nat, m: int, x: nat, m': int)
    requires lo <= x < n && len >= 1 && 0 <= m < Choose(n - lo, len)
    requires m' == m - Below(n, lo, x, len) && 0 <= m' < Choose(n - (x + 1), len - 1)
    requires Unrank(n, lo, len, m) == [x] + Unrank(n, x + 1, len - 1, m')
    requires Increasing(Unrank(n, x + 1, len - 1, m'), x + 1, n)
    requires Rank(n, x + 1, Unrank(n, x + 1, len - 1, m')) == m'
    ensures Increasing(Unrank(n, lo, len, m), lo, n) && Rank(n, lo, Unrank(n, lo, len, m)) == m
  {
    var rest := Unrank(n, x + 1, len - 1, m');
    ConsValid(n, lo, x, rest, m, len);
  }

  /** The only tuple of length zero is the empty one, of rank 0. */
  lemma UnrankEmpty(n: nat, lo: nat, m: int)
    requires lo <= n && 0 <= m < Choose(n - lo, 0)
    ensures Unrank(n, lo, 0, m) == [] && Increasing([], lo, n) && Rank(n, lo, []) == m
  {
  }

  /** One step of unranking, without the search that finds x. */
  lemma UnrankStep(n: nat, lo: nat, len: nat, m: int) returns (x: nat, m': int, rest: seq<nat>)
    requires lo <= n && len >= 1 && 0 <= m < Choose(n - lo, len)
    ensures lo <= x < n && m' == m - Below(n, lo, x, len) && 0 <= m' < Choose(n - (x + 1), len - 1)
    ensures rest == Unrank(n, x + 1, len - 1, m') && |rest| + 1 == len
    ensures Unrank(n, lo, len, m) == [x] + rest
  {
    x, rest := UnrankCons(n, lo, len, m);
    m' := m - Below(n, lo, x, len);
  }

  /** Putting x in front of a tuple ranked m - Below(x) above x gives a tuple ranked m. */
  lemma ConsValid(n: nat, lo: nat, x: nat, rest: seq<nat>, m: int, len: nat)
    requires lo <= x < n && |rest| + 1 == len
    requires Increasing(rest, x + 1, n) && Rank(n, x + 1, rest) == m - Below(n, lo, x, len)
    ensures Increasing([x] + rest, lo, n) && Rank(n, lo, [x] + rest) == m
  {
    IncreasingCons(x, rest, lo, n);
  }

  /** Below the bracketing block, the search for the first component finds exactly y. */
  lemma {:induction false} FirstValueUnique(n: nat, lo: nat, len: nat, m: int, x: nat, y: nat)
    requires len >= 1 && lo <= x <= y < n && Below(n, lo, x, len) <= m < Choose(n - lo, len)
    requires Below(n, lo, y, len) <= m < Below(n, lo, y + 1, len)
    ensures FirstValue(n, lo, len, m, x) == y
    decreases y - x
  {
    if x < y {
      BelowMonotone(n, lo, x + 1, y, len);
      FirstValueUnique(n, lo, len, m, x + 1, y);
    }
  }

  /** Unranking the rank of an increasing tuple gives the tuple back. */
  lemma {:induction false} UnrankRank(n: nat, lo: nat, s: seq<nat>)
    requires Increasing(s, lo, n) && lo <= n
    ensures 0 <= Rank(n, lo, s) < Choose(n - lo, |s|)
    ensures Unrank(n, lo, |s|, Rank(n, lo, s)) == s
    decreases |s|
  {
    RankRange(n, lo, s);
    if s != [] {
      UnrankRankStep(n, lo, s);
      UnrankRank(n, s[0] + 1, s[1..]);
      assert s == [s[0]] + s[1..];
    }
  }

  /** Unranking the rank of a non-empty tuple gives its first value, then the unranking of the tail's rank. */
  lemma UnrankRankStep(n: nat, lo: nat, s: seq<nat>)
    requires Increasing(s, lo, n) && lo <= n && s != []
    ensures Increasing(s[1..], s[0] + 1, n) && s[0] + 1 <= n
    ensures 0 <= Rank(n, lo, s) < Choose(n - lo, |s|)
    ensures 0 <= Rank(n, s[0] + 1, s[1..]) < Choose(n - (s[0] + 1), |s| - 1)
    ensures Unrank(n, lo, |s|, Rank(n, lo, s)) == [s[0]] + Unrank(n, s[0] + 1, |s| - 1, Rank(n, s[0] + 1, s[1..]))
  {
    RankRange(n, lo, s);
    var len, m, tail := |s|, Rank(n, lo, s), s[1..];
    IncreasingTail(s, lo, n);
    RankRange(n, s[0] + 1, tail);
    BlockSize(n, lo, s[0], len);
    BelowMonotone(n, lo, lo, s[0], len);
    FirstValueUnique(n, lo, len, m, lo, s[0]);
    var x, rest := UnrankCons(n, lo, len, m);
    assert x == s[0];
    assert m - Below(n, lo, x, len) == Rank(n, s[0] + 1, tail);
  }

  /** Lexicographic order on tuples of equal length. */
  predicate LexLess(s: seq<nat>, t: seq<nat>)
  {
    s != [] && t != [] && (s[0] < t[0] || (s[0] == t[0] && LexLess(s[1..], t[1..])))
  }

  /** The rank is strictly monotone in lexicographic order, so it is the lexicographic rank. */
  lemma {:induction false} RankMonotone(n: nat, lo: nat, s: seq<nat>, t: seq<nat>)
    requires Increasing(s, lo, n) && Increasing(t, lo, n) && |s| == |t| && lo <= n && LexLess(s, t)
    ensures Rank(n, lo, s) < Rank(n, lo, t)
    decreases |s|
  {
    IncreasingTail(s, lo, n);
    IncreasingTail(t, lo, n);
    if s[0] < t[0] {
      RankRange(n, s[0] + 1, s[1..]);
      RankRange(n, t[0] + 1, t[1..]);
      BlockSize(n, lo, s[0], |s|);
      BelowMonotone(n, lo, s[0] + 1, t[0], |s|);
    } else {
      RankMonotone(n, s[0] + 1, s[1..], t[1..]);
    }
  }

  // The library's closed form, in size_t arithmetic.

  /** `mem_size()`: 1 at rank 0, otherwise C(n, r), the number of increasing r-tuples over n values. */
  function MemSize(n: nat, r: nat): (size: nat)
    ensures size == Choose(n, r)
  {
    if r == 0 then 1 else BinomialCoefficient(n, r)
  }

  /**
   * The summand of `mem_lin_comb` for the sorted id x at position k of r:
   * 0 when x is the largest value position k can hold, otherwise
   * C(n - x - 1, r - k). It counts the stored tuples that agree before k and
   * are larger at k.
   */
  function ATerm(n: nat, r: nat, k: nat, x: nat): nat
    requires k < r && x < n
  {
    if x + r == n + k then 0 else BinomialCoefficient(n - x - 1, r - k)
  }

  /** The fold of the summands over positions k.. of the sorted ids. */
  function AFold(n: nat, s: seq<nat>, k: nat): nat
    requires k <= |s| && IdsInRange(s, n)
    decreases |s| - k
  {
    if k == |s| then 0 else ATerm(n, |s|, k, s[k]) + AFold(n, s, k + 1)
  }

  /** Every id is one of the n values of the sub-indices. */
  predicate IdsInRange(ids: seq<nat>, n: nat)
  {
    forall k :: 0 <= k < |ids| ==> ids[k] < n
  }

  /**
   * The memory id `mem_lin_comb` computes for ids: C(n, r) minus the
   * summands of the sorted ids, minus 1, wrapped to size_t.
   */
  function MemLinCombId(n: nat, ids: seq<nat>): (id: nat)
    requires IdsInRange(ids, n)
    ensures id < SIZE_MOD
  {
    SortedInRange(ids, n);
    (MemSize(n, |ids|) - AFold(n, SortIds(ids), 0) - 1) % SIZE_MOD
  }

  /** Sorting keeps the ids in range and the length. */
  lemma SortedInRange(ids: seq<nat>, n: nat)
    requires IdsInRange(ids, n)
    ensures |SortIds(ids)| == |ids| && IdsInRange(SortIds(ids), n)
  {
    SortIdsValues(ids);
    var t := SortIds(ids);
    forall k | 0 <= k < |t|
      ensures t[k] < n
    {
      assert t[k] in ids;
    }
  }

  /** Sorting distinct ids in range gives an increasing tuple. */
  lemma SortedDistinctIncreasing(ids: seq<nat>, n: nat)
    requires IdsInRange(ids, n) && Distinct(ids)
    ensures |SortIds(ids)| == |ids| && Increasing(SortIds(ids), 0, n) && IdsInRange(SortIds(ids), n)
  {
    SortedInRange(ids, n);
    SortIdsSorted(ids);
    SortIdsDistinct(ids);
    var t := SortIds(ids);
    forall i, j | 0 <= i < j < |t|
      ensures t[i] < t[j]
    {
      assert t[i] <= t[j] && t[i] != t[j];
    }
  }

  /** Whatever the guard, the summand is the size of the block above x at position k. */
  lemma ATermIsChoose(n: nat, r: nat, k: nat, x: nat)
    requires k < r && x < n
    ensures ATerm(n, r, k, x) == Choose(n - x - 1, r - k)
  {
    if x + r == n + k {
      ChooseAboveIsZero(n - x - 1, r - k);
    }
  }

  /**
   * The fold telescopes: the rank of the suffix from k, plus the summands
   * from k, plus one, is the number of increasing tuples of that length over [lo, n).
   */
  lemma {:induction false} Telescope(n: nat, lo: nat, s: seq<nat>, k: nat)
    requires k <= |s| && lo <= n && IdsInRange(s, n) && Increasing(s[k..], lo, n)
    ensures Rank(n, lo, s[k..]) + AFold(n, s, k) + 1 == Choose(n - lo, |s| - k)
    decreases |s| - k
  {
    if k < |s| {
      var t := s[k..];
      assert t[0] == s[k] && t[1..] == s[k + 1..];
      IncreasingTail(t, lo, n);
      Telescope(n, s[k] + 1, s, k + 1);
      ATermIsChoose(n, |s|, k, s[k]);
      PascalRule(n - s[k], |s| - k);
    }
  }

  /** A size_t is wide enough for every access id: 0, then two copies of the memory ids. */
  predicate Fits(n: nat, r: nat)
  {
    2 * Choose(n, r) + 1 < SIZE_MOD
  }

  /** The memory size is itself a size_t. */
  predicate SizeFits(n: nat, r: nat)
  {
    Choose(n, r) < SIZE_MOD
  }

  /** For distinct ids the memory id is the lexicographic rank of the sorted ids. */
  lemma MemLinCombIdIsRank(n: nat, ids: seq<nat>)
    requires IdsInRange(ids, n) && Distinct(ids) && SizeFits(n, |ids|)
    ensures Increasing(SortIds(ids), 0, n)
    ensures MemLinCombId(n, ids) == Rank(n, 0, SortIds(ids)) < MemSize(n, |ids|)
  {
    SortedDistinctIncreasing(ids, n);
    var t := SortIds(ids);
    assert t[0..] == t;
    Telescope(n, 0, t, 0);
    RankRange(n, 0, t);
    var v := MemSize(n, |ids|) - AFold(n, t, 0) - 1;
    assert v == Rank(n, 0, t);
    ModOfShift(v, SIZE_MOD);
  }

  /** Permuting the ids does not change the memory id. */
  lemma MemLinCombIdSymmetric(n: nat, ids: seq<nat>, perm: seq<nat>)
    requires IdsInRange(ids, n) && IdsInRange(perm, n) && multiset(ids) == multiset(perm)
    ensures |perm| == |ids| && MemLinCombId(n, ids) == MemLinCombId(n, perm)
  {
    assert |perm| == |multiset(perm)| == |multiset(ids)| == |ids|;
    SortIdsDependsOnValues(ids, perm);
  }

  /** Distinct ids whose sorted copies differ have different memory ids. */
  lemma MemLinCombIdInjective(n: nat, ids: seq<nat>, other: seq<nat>)
    requires IdsInRange(ids, n) && IdsInRange(other, n) && |other| == |ids|
    requires Distinct(ids) && Distinct(other) && SizeFits(n, |ids|)
    requires MemLinCombId(n, ids) == MemLinCombId(n, other)
    ensures SortIds(ids) == SortIds(other)
  {
    MemLinCombIdIsRank(n, ids);
    MemLinCombIdIsRank(n, other);
    SortedInRange(ids, n);
    SortedInRange(other, n);
    UnrankRank(n, 0, SortIds(ids));
    UnrankRank(n, 0, SortIds(other));
  }

  // Parity and the access layer.

  /**
   * `permutation_parity`: toggles a flag for every pair i < j with
   * ids[i] > ids[j]; the flag ends set exactly when the number of
   * inversions is odd.
   */
  method PermutationParity(ids: seq<nat>) returns (cnt: bool)
    ensures cnt <==> Inversions(ids) % 2 == 1
  {
    cnt := false;
    ghost var c := 0;
    var r := |ids|;
    for i := 0 to r
      invariant c + Inversions(ids[i..]) == Inversions(ids)
      invariant cnt <==> c % 2 == 1
    {
      ghost var c0 := c;
      for j := i + 1 to r
        invariant c == c0 + CountLess(ids[i], ids[i + 1..j])
        invariant cnt <==> c % 2 == 1
      {
        assert ids[i + 1..j + 1] == ids[i + 1..j] + [ids[j]];
        CountLessConcat(ids[i], ids[i + 1..j], [ids[j]]);
        if ids[i] > ids[j] {
          cnt := !cnt;
          c := c + 1;
        }
      }
      assert ids[i..][1..] == ids[i + 1..] == ids[i + 1..r];
    }
  }

  /** `access_size()`: the memory size at rank <= 1, one more (the zero class) above. */
  function AccessSize(n: nat, r: nat): (size: nat)
    ensures size == if r <= 1 then Choose(n, r) else Choose(n, r) + 1
  {
    if r <= 1 then MemSize(n, r) else MemSize(n, r) + 1
  }

  /**
   * `access_id`: at rank <= 1 the memory id; above, 0 when all ids are
   * equal, 1 + the memory id for an even number of inversions and
   * access_size + the memory id for an odd one, in size_t arithmetic.
   */
  function AccessId(n: nat, ids: seq<nat>): (a: nat)
    requires IdsInRange(ids, n)
    ensures a < SIZE_MOD
  {
    var m := MemLinCombId(n, ids);
    if |ids| <= 1 then m
    else if AllEqual(ids) then 0
    else if Inversions(ids) % 2 == 0 then (1 + m) % SIZE_MOD
    else (AccessSize(n, |ids|) + m) % SIZE_MOD
  }

  /**
   * `access_id_to_mem_lin_comb`: at rank <= 1 the access id itself; above,
   * no term for the zero class and otherwise coefficient 1 on slot
   * (a - 1) mod mem_size, the same slot for both signs.
   */
  function AccessIdToMemLinComb(n: nat, r: nat, a: nat): (terms: seq<Term>)
    requires r <= 1 || MemSize(n, r) >= 1
    ensures r <= 1 ==> terms == [Term(1, a)]
    ensures r >= 2 && a == 0 ==> terms == []
    ensures r >= 2 && a != 0 ==> |terms| == 1 && terms[0].coef == 1 && terms[0].memId < MemSize(n, r)
    ensures r >= 2 && 1 <= a <= MemSize(n, r) ==> terms == [Term(1, a - 1)]
    ensures r >= 2 && MemSize(n, r) < a <= 2 * MemSize(n, r) ==> terms == [Term(1, a - 1 - MemSize(n, r))]
  {
    if r <= 1 then [Term(1, a)]
    else if a != 0 then
      ModOfShift(a - 1, MemSize(n, r));
      [Term(1, (a - 1) % MemSize(n, r))]
    else []
  }

  /** Reducing a value below twice the modulus subtracts it at most once. */
  lemma ModOfShift(b: nat, m: nat)
    requires m >= 1
    ensures b < m ==> b % m == b
    ensures m <= b < 2 * m ==> b % m == b - m
  {
    if m <= b < 2 * m {
      DivModUnique(b, 1, m, b - m);
    }
  }

  /**
   * `process_access`: at rank <= 1 the value read; above, 0 for the zero
   * class, the value for ids below access_size and its negation beyond.
   */
  function ProcessAccess(n: nat, r: nat, a: nat, value: int): (v: int)
    ensures r <= 1 ==> v == value
    ensures r >= 2 ==> v == if a == 0 then 0 else if a < AccessSize(n, r) then value else -value
  {
    if r <= 1 then value
    else if a == 0 then 0
    else if a < AccessSize(n, r) then value
    else -value
  }

  /** What a read of the tensor at ids returns through the three steps. */
  function Read(n: nat, ids: seq<nat>, mem: seq<int>): int
    requires IdsInRange(ids, n) && |mem| == MemSize(n, |ids|) && SizeFits(n, |ids|)
    requires |ids| <= 1 || MemSize(n, |ids|) >= 1
  {
    var a := AccessId(n, ids);
    var terms := AccessIdToMemLinComb(n, |ids|, a);
    if |ids| <= 1 then
      SingleIdInRange(n, ids);
      ProcessAccess(n, |ids|, a, Evaluate(terms, mem))
    else
      ProcessAccess(n, |ids|, a, Evaluate(terms, mem))
  }

  /** At rank <= 1 the memory id addresses a stored cell. */
  lemma SingleIdInRange(n: nat, ids: seq<nat>)
    requires IdsInRange(ids, n) && |ids| <= 1 && SizeFits(n, |ids|)
    ensures MemLinCombId(n, ids) < MemSize(n, |ids|)
  {
    if ids == [] {
      assert SortIds(ids) == [];
    } else {
      assert Distinct(ids);
      ChooseOne(n);
      MemLinCombIdIsRank(n, ids);
    }
  }

  /**
   * On distinct ids a read returns the cell of the sorted ids, negated
   * when the ids are an odd permutation of them.
   */
  lemma ReadDistinct(n: nat, ids: seq<nat>, mem: seq<int>)
    requires IdsInRange(ids, n) && Distinct(ids) && |ids| >= 2 && Fits(n, |ids|)
    requires |mem| == MemSize(n, |ids|)
    ensures Increasing(SortIds(ids), 0, n) && 0 <= Rank(n, 0, SortIds(ids)) < MemSize(n, |ids|)
    ensures Read(n, ids, mem) == Sign(ids) * mem[Rank(n, 0, SortIds(ids))]
  {
    MemLinCombIdIsRank(n, ids);
    var m := MemLinCombId(n, ids);
    var size := MemSize(n, |ids|);
    assert !AllEqual(ids) by {
      assert ids[1] != ids[0];
    }
    var a := AccessId(n, ids);
    if Inversions(ids) % 2 == 0 {
      ModOfShift(1 + m, SIZE_MOD);
      assert a == 1 + m;
      EvaluateSingle(Term(1, m), mem);
    } else {
      ModOfShift(size + 1 + m, SIZE_MOD);
      assert a == size + 1 + m;
      EvaluateSingle(Term(1, m), mem);
    }
  }

  /** At rank >= 2, ids that are all equal read 0. */
  lemma ReadAllEqual(n: nat, ids: seq<nat>, mem: seq<int>)
    requires IdsInRange(ids, n) && AllEqual(ids) && |ids| >= 2 && SizeFits(n, |ids|)
    requires |mem| == MemSize(n, |ids|) && MemSize(n, |ids|) >= 1
    ensures Read(n, ids, mem) == 0
  {
  }

  /**
   * A repeated id that is not repeated everywhere escapes the zero class:
   * over 3 values, the ids (0, 0, 1) have memory id 2^64 - 2 and access id
   * 2^64 - 1, which reads the negation of the only cell.
   */
  lemma ReadRepeatAsWritten()
    ensures Read(3, [0, 0, 1], [5]) == -5
  {
    var ids: seq<nat> := [0, 0, 1];
    assert Sorted(ids);
    SymmetricIndex.SortIdsOfSorted(ids);
    assert AFold(3, ids, 0) == 2;
    assert MemLinCombId(3, ids) == SIZE_MOD - 2;
    assert Inversions(ids) == 0;
    assert !AllEqual(ids);
    assert AccessId(3, ids) == SIZE_MAX;
    EvaluateSingle(Term(1, 0), [5]);
  }

  /** The evidently intended access id: the zero class holds every tuple with a repeated id. */
  function AccessIdCorrected(n: nat, ids: seq<nat>): (a: nat)
    requires IdsInRange(ids, n)
    ensures |ids| >= 2 && !Distinct(ids) ==> a == 0
  {
    if |ids| >= 2 && !Distinct(ids) then 0 else AccessId(n, ids)
  }

  /** A read through the corrected access id. */
  function ReadCorrected(n: nat, ids: seq<nat>, mem: seq<int>): int
    requires IdsInRange(ids, n) && |mem| == MemSize(n, |ids|) && SizeFits(n, |ids|)
    requires |ids| <= 1 || MemSize(n, |ids|) >= 1
  {
    var a := AccessIdCorrected(n, ids);
    var terms := AccessIdToMemLinComb(n, |ids|, a);
    if |ids| <= 1 then
      SingleIdInRange(n, ids);
      ProcessAccess(n, |ids|, a, Evaluate(terms, mem))
    else
      ProcessAccess(n, |ids|, a, Evaluate(terms, mem))
  }

  /** With the correction, every repeated id reads 0, as an antisymmetric tensor must. */
  lemma ReadCorrectedRepeat(n: nat, ids: seq<nat>, mem: seq<int>)
    requires IdsInRange(ids, n) && |ids| >= 2 && !Distinct(ids) && SizeFits(n, |ids|)
    requires |mem| == MemSize(n, |ids|) && MemSize(n, |ids|) >= 1
    ensures ReadCorrected(n, ids, mem) == 0
  {
  }

  /** On distinct ids the correction changes nothing, so a read is the signed cell of the sorted ids. */
  lemma ReadCorrectedDistinct(n: nat, ids: seq<nat>, mem: seq<int>)
    requires IdsInRange(ids, n) && Distinct(ids) && |ids| >= 2 && Fits(n, |ids|)
    requires |mem| == MemSize(n, |ids|)
    ensures Increasing(SortIds(ids), 0, n) && 0 <= Rank(n, 0, SortIds(ids)) < MemSize(n, |ids|)
    ensures ReadCorrected(n, ids, mem) == Read(n, ids, mem) == Sign(ids) * mem[Rank(n, 0, SortIds(ids))]
  {
    ReadDistinct(n, ids, mem);
  }

  /** The four-dimensional 2-form stores its six pairs (0,1) .. (2,3) in slots 0..5. */
  lemma FormOfFourSlots()
    ensures MemSize(4, 2) == 6
    ensures MemLinCombId(4, [0, 1]) == 0 && MemLinCombId(4, [2, 3]) == 5
  {
  }

  /** The transposed pair (1, 0) of the four-dimensional 2-form reads the negated slot 0. */
  lemma FormOfFourTransposed(mem: seq<int>)
    requires |mem| == MemSize(4, 2)
    ensures Read(4, [1, 0], mem) == -mem[0]
  {
    var ids: seq<nat> := [1, 0];
    var n := 4;
    assert Choose(n, 2) == 6;
    assert Inversions(ids) == 1;
    assert SortIds(ids) == [0, 1];
    assert Rank(n, 0, [0, 1]) == 0;
    ReadDistinct(n, ids, mem);
  }

  // The unranking loop.

  /** The canonical ids of a memory id are stored under that memory id. */
  lemma UnrankMemLinCombId(n: nat, r: nat, m: nat)
    requires m < MemSize(n, r) && SizeFits(n, r)
    ensures IdsInRange(Unrank(n, 0, r, m), n) && Distinct(Unrank(n, 0, r, m))
    ensures MemLinCombId(n, Unrank(n, 0, r, m)) == m
  {
    var s := Unrank(n, 0, r, m);
    UnrankValid(n, 0, r, m);
    assert Sorted(s) && Distinct(s) by {
      forall i, j | 0 <= i < j < |s|
        ensures s[i] < s[j]
      {
      }
    }
    SymmetricIndex.SortIdsOfSorted(s);
    MemLinCombIdIsRank(n, s);
  }

  /**
   * `mem_id_to_canonical_natural_ids`: for each position i, a scan over
   * the d values still allowed finds the first one whose block passes
   * memId, subtracts the blocks before it and keeps the values above it.
   * The result is the increasing tuple stored under memId.
   */
  method MemIdToCanonicalNaturalIds(n: nat, r: nat, memId: nat) returns (ids: seq<nat>)
    requires memId < MemSize(n, r)
    ensures ids == Unrank(n, 0, r, memId) && Increasing(ids, 0, n)
  {
    ghost var target := Unrank(n, 0, r, memId);
    ids := seq(r, _ => 0);
    var d: nat := n;
    var mem: int := memId;
    ghost var done: seq<nat> := [];
    ghost var lo := 0;
    for i := 0 to r
      invariant |ids| == r && ids[..i] == done && |done| == i && d == n - lo
      invariant Progress(n, r, target, lo, mem, done)
    {
      ghost var before := ids;
      ghost var x, next := ProgressStep(n, r, target, lo, mem, done);
      ids, d, mem := ScanPosition(n, r, i, d, mem, ids, lo, x);
      assert mem == next;
      SymmetricIndex.PrefixUpdate(before, i, x);
      done, lo := done + [x], x + 1;
    }
    assert ids == ids[..r];
    UnrankValid(n, 0, r, memId);
  }

  /**
   * The state of the unranking after |done| positions: done holds the
   * first components of target and the rest of target is the increasing
   * tuple of rank mem over the values from lo on.
   */
  ghost predicate Progress(n: nat, r: nat, target: seq<nat>, lo: int, mem: int, done: seq<nat>)
  {
    && |done| <= r && 0 <= lo <= n
    && (|done| < r ==> 0 <= mem < Choose(n - lo, r - |done|) && done + Unrank(n, lo, r - |done|, mem) == target)
    && (|done| == r ==> done == target)
  }

  /** Placing the first value of the remaining tuple advances the unranking by one position. */
  lemma ProgressStep(n: nat, r: nat, target: seq<nat>, lo: int, mem: int, done: seq<nat>)
    returns (x: nat, next: int)
    requires Progress(n, r, target, lo, mem, done) && |done| < r
    ensures lo <= x < n && x == FirstValue(n, lo, r - |done|, mem, lo)
    ensures next == mem - Below(n, lo, x, r - |done|)
    ensures Progress(n, r, target, x + 1, next, done + [x])
  {
    var tail;
    x, tail := UnrankCons(n, lo, r - |done|, mem);
    next := mem - Below(n, lo, x, r - |done|);
    SymmetricIndex.ConcatAssoc(done, x, tail);
  }

  /**
   * The inner loop for position i: writes the first value whose block of
   * tuples passes mem, subtracts the blocks below it from mem and keeps
   * the values above it. The coefficients are written with Choose, which
   * `binomial_coefficient` equals by the contract of BinomialCoefficient.
   */
  method ScanPosition(n: nat, r: nat, i: nat, d: nat, mem: int, ids: seq<nat>, ghost lo: nat, ghost x: nat)
    returns (ids': seq<nat>, d': nat, mem': int)
    requires i < r == |ids| && d == n - lo && lo < n && 0 <= mem < Choose(d, r - i)
    requires x == FirstValue(n, lo, r - i, mem, lo)
    ensures ids' == ids[i := x] && d' == n - (x + 1) && mem' == mem - Below(n, lo, x, r - i)
  {
    var len := r - i;
    var triangle := Choose(d, len);
    ids' := ids;
    var j := 0;
    while j < d
      invariant j <= d && lo + j <= x
      invariant Below(n, lo, lo + j, len) <= mem
      invariant FirstValue(n, lo, len, mem, lo + j) == x
      invariant |ids'| == |ids| && ids' == ids[i := ids'[i]]
    {
      ScanStep(n, lo, d, len, mem, j, x);
      var subtriangle := Choose(d - j - 1, len);
      if triangle - subtriangle > mem {
        SymmetricIndex.UpdateTwice(ids, i, ids'[i], n - d + j);
        ids' := ids'[i := n - d + j];
        mem' := mem - (triangle - Choose(d - j, len));
        d' := d - (j + 1);
        return;
      }
      ids' := ids'[i := 0];
      j := j + 1;
    }
    assert false;
  }

  /**
   * The counts the scan compares at value lo + j, with d = n - lo values
   * left: the binomials are the blocks below that value and below the
   * next, and passing mem decides whether the value is the first one.
   */
  lemma ScanStep(n: nat, lo: nat, d: nat, len: nat, mem: int, j: nat, x: nat)
    requires 1 <= len && d == n - lo && j < d && Below(n, lo, lo + j, len) <= mem < Choose(d, len)
    requires lo + j <= x && FirstValue(n, lo, len, mem, lo + j) == x
    ensures Choose(d, len) - Choose(d - j - 1, len) > mem ==>
      && x == n - d + j
      && mem - (Choose(d, len) - Choose(d - j, len)) == mem - Below(n, lo, x, len)
    ensures Choose(d, len) - Choose(d - j - 1, len) <= mem ==>
      && j + 1 < d && lo + (j + 1) <= x && Below(n, lo, lo + (j + 1), len) <= mem
      && FirstValue(n, lo, len, mem, lo + (j + 1)) == x
  {
    NoneOverEmpty(len);
    assert n - (lo + j + 1) == d - j - 1;
    assert n - (lo + j) == d - j;
    assert Choose(d, len) - Choose(d - j - 1, len) == Below(n, lo, lo + j + 1, len);
  }
}
