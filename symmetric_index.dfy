// `TensorSymmetricIndex`: r sub-indices over the same n values, storing one
// cell per non-decreasing r-tuple. The memory id of a multi-index is the
// lexicographic rank of its sorted copy, computed by the library as
// C(n + r - 1, r) minus, per position k, the number of stored tuples that
// agree before k and are larger at k, minus 1. Unranking walks the same
// counts back.
module SymmetricIndex {
  import opened Binomial
  import opened Signs
  import opened Sorting
  import opened LinearCombination

  /** The number of non-decreasing len-tuples over d values: C(d + len - 1, len), and 1 for len == 0. */
  function Count(d: nat, len: nat): nat
  {
    if len == 0 then 1 else Choose(d + len - 1, len)
  }

  /** A non-decreasing tuple with every component in [lo, n). */
  predicate Valid(s: seq<nat>, lo: nat, n: nat)
  {
    Sorted(s) && forall k :: 0 <= k < |s| ==> lo <= s[k] < n
  }

  /** The number of valid len-tuples over [lo, n) whose first component is below x. */
  function Below(n: nat, lo: nat, x: nat, len: nat): int
    requires lo <= x <= n
  {
    Count(n - lo, len) - Count(n - x, len)
  }

  /** The reference rank: position of s in the lexicographic list of valid tuples over [lo, n). */
  function Rank(n: nat, lo: nat, s: seq<nat>): int
    requires Valid(s, lo, n)
    decreases |s|
  {
    if s == [] then 0 else Below(n, lo, s[0], |s|) + Rank(n, s[0], s[1..])
  }

  /** The least first component x' >= x whose block of tuples passes m. */
  function FirstValue(n: nat, lo: nat, len: nat, m: int, x: nat): (r: nat)
    requires len >= 1 && lo <= x < n && Below(n, lo, x, len) <= m < Count(n - lo, len)
    ensures x <= r < n
    decreases n - x
  {
    if x == n - 1 || Below(n, lo, x + 1, len) > m then x else FirstValue(n, lo, len, m, x + 1)
  }

  /** The block of tuples starting with the first value found holds rank m. */
  lemma {:induction false} FirstValueBrackets(n: nat, lo: nat, len: nat, m: int, x: nat)
    requires len >= 1 && lo <= x < n && Below(n, lo, x, len) <= m < Count(n - lo, len)
    ensures var r := FirstValue(n, lo, len, m, x);
      Below(n, lo, r, len) <= m < Below(n, lo, r + 1, len)
    decreases n - x
  {
    if x == n - 1 {
      CountZero(len);
    } else if Below(n, lo, x + 1, len) <= m {
      FirstValueBrackets(n, lo, len, m, x + 1);
    }
  }

  /** The reference unranking: the valid len-tuple over [lo, n) of rank m. */
  function Unrank(n: nat, lo: nat, len: nat, m: int): (s: seq<nat>)
    requires lo <= n && (len == 0 || lo < n)
    requires 0 <= m < Count(n - lo, len)
    ensures |s| == len
    decreases len
  {
    if len == 0 then []
    else
      CountZero(len);
      var x := FirstValue(n, lo, len, m, lo);
      FirstValueBrackets(n, lo, len, m, lo);
      BlockSize(n, lo, x, len);
      [x] + Unrank(n, x, len - 1, m - Below(n, lo, x, len))
  }

  lemma CountOne(d: nat)
    ensures Count(d, 1) == d
  {
    ChooseOne(d);
  }

  lemma CountZero(len: nat)
    requires len >= 1
    ensures Count(0, len) == 0
  {
    ChooseAboveIsZero(len - 1, len);
  }

  /** Pascal's rule for tuple counts: split on whether the first value is the smallest. */
  lemma CountPascal(d: nat, len: nat)
    ensures Count(d + 1, len + 1) == Count(d, len + 1) + Count(d + 1, len)
  {
    if len == 0 {
      CountOne(d + 1);
      CountOne(d);
    } else {
      assert Count(d + 1, len + 1) == Choose(d + len + 1, len + 1);
    }
  }

  lemma {:induction false} CountMonotone(d1: nat, d2: nat, len: nat)
    requires d1 <= d2
    ensures Count(d1, len) <= Count(d2, len)
    decreases d2 - d1
  {
    if d1 < d2 && len > 0 {
      CountMonotone(d1, d2 - 1, len);
      CountPascal(d2 - 1, len - 1);
    }
  }

  /** The block of tuples starting with x has Count(n - x, len - 1) members. */
  lemma BlockSize(n: nat, lo: nat, x: nat, len: nat)
    requires len >= 1 && lo <= x < n
    ensures Below(n, lo, x + 1, len) - Below(n, lo, x, len) == Count(n - x, len - 1)
  {
    CountPascal(n - x - 1, len - 1);
  }

  lemma BelowMonotone(n: nat, lo: nat, x: nat, y: nat, len: nat)
    requires lo <= x <= y <= n
    ensures 0 <= Below(n, lo, x, len) <= Below(n, lo, y, len) <= Count(n - lo, len)
  {
    CountMonotone(n - y, n - x, len);
    CountMonotone(n - x, n - lo, len);
  }

  lemma ValidTail(s: seq<nat>, lo: nat, n: nat)
    requires s != [] && Valid(s, lo, n)
    ensures Valid(s[1..], s[0], n)
  {
    forall i, j | 0 <= i < j < |s| - 1
      ensures s[1..][i] <= s[1..][j]
    {
      assert s[1..][i] == s[i + 1];
    }
    forall k | 0 <= k < |s| - 1
      ensures s[0] <= s[1..][k]
    {
      assert s[1..][k] == s[k + 1];
    }
  }

  /** Ranks of valid tuples lie in [0, Count(n - lo, |s|)). */
  lemma {:induction false} RankRange(n: nat, lo: nat, s: seq<nat>)
    requires Valid(s, lo, n) && lo <= n
    ensures 0 <= Rank(n, lo, s) < Count(n - lo, |s|)
    decreases |s|
  {
    if s != [] {
      ValidTail(s, lo, n);
      RankRange(n, s[0], s[1..]);
      BlockSize(n, lo, s[0], |s|);
      BelowMonotone(n, lo, s[0], s[0] + 1, |s|);
    }
  }

  /** Unranking gives a valid tuple of the requested length whose rank is m. */
  lemma {:induction false} UnrankValid(n: nat, lo: nat, len: nat, m: int)
    requires lo <= n && (len == 0 || lo < n) && 0 <= m < Count(n - lo, len)
    ensures Valid(Unrank(n, lo, len, m), lo, n)
    ensures Rank(n, lo, Unrank(n, lo, len, m)) == m
    decreases len
  {
    if len > 0 {
      var x, rest := UnrankCons(n, lo, len, m);
      var m' := m - Below(n, lo, x, len);
      UnrankValid(n, x, len - 1, m');
      assert Valid(rest, x, n) && Rank(n, x, rest) == m';
      ValidCons(x, rest, lo, n);
    }
  }

  /** One step of unranking: the first component x, then the rest unranked over [x, n). */
  lemma UnrankCons(n: nat, lo: nat, len: nat, m: int) returns (x: nat, rest: seq<nat>)
    requires lo < n && len >= 1 && 0 <= m < Count(n - lo, len)
    ensures x == FirstValue(n, lo, len, m, lo)
    ensures lo <= x < n && 0 <= m - Below(n, lo, x, len) < Count(n - x, len - 1)
    ensures rest == Unrank(n, x, len - 1, m - Below(n, lo, x, len))
    ensures Unrank(n, lo, len, m) == [x] + rest
  {
    CountZero(len);
    x := FirstValue(n, lo, len, m, lo);
    FirstValueBrackets(n, lo, len, m, lo);
    BlockSize(n, lo, x, len);
    rest := Unrank(n, x, len - 1, m - Below(n, lo, x, len));
  }

  lemma ValidCons(x: nat, rest: seq<nat>, lo: nat, n: nat)
    requires lo <= x < n && Valid(rest, x, n)
    ensures Valid([x] + rest, lo, n) && ([x] + rest)[1..] == rest
    ensures Rank(n, lo, [x] + rest) == Below(n, lo, x, |rest| + 1) + Rank(n, x, rest)
  {
    var s := [x] + rest;
    forall i, j | 0 <= i < j < |s|
      ensures s[i] <= s[j]
    {
      if i > 0 {
        assert s[i] == rest[i - 1] && s[j] == rest[j - 1];
      } else {
        assert s[j] == rest[j - 1];
      }
    }
    forall k | 0 <= k < |s|
      ensures lo <= s[k] < n
    {
      if k > 0 {
        assert s[k] == rest[k - 1];
      }
    }
  }

  /** Below the bracketing block, the search for the first component finds exactly y. */
  lemma {:induction false} FirstValueUnique(n: nat, lo: nat, len: nat, m: int, x: nat, y: nat)
    requires len >= 1 && lo <= x <= y < n && Below(n, lo, x, len) <= m < Count(n - lo, len)
    requires Below(n, lo, y, len) <= m < Below(n, lo, y + 1, len)
    ensures FirstValue(n, lo, len, m, x) == y
    decreases y - x
  {
    if x < y {
      BelowMonotone(n, lo, x + 1, y, len);
      FirstValueUnique(n, lo, len, m, x + 1, y);
    }
  }

  /** Unranking the rank of a valid tuple gives the tuple back. */
  lemma {:induction false} UnrankRank(n: nat, lo: nat, s: seq<nat>)
    requires Valid(s, lo, n) && lo <= n
    ensures 0 <= Rank(n, lo, s) < Count(n - lo, |s|)
    ensures Unrank(n, lo, |s|, Rank(n, lo, s)) == s
    decreases |s|
  {
    RankRange(n, lo, s);
    if s != [] {
      UnrankRankStep(n, lo, s);
      UnrankRank(n, s[0], s[1..]);
      assert s == [s[0]] + s[1..];
    }
  }

  /** Unranking the rank of a non-empty tuple gives its first value, then the unranking of the tail's rank. */
  lemma UnrankRankStep(n: nat, lo: nat, s: seq<nat>)
    requires Valid(s, lo, n) && lo <= n && s != []
    ensures Valid(s[1..], s[0], n) && s[0] < n
    ensures 0 <= Rank(n, lo, s) < Count(n - lo, |s|)
    ensures 0 <= Rank(n, s[0], s[1..]) < Count(n - s[0], |s| - 1)
    ensures Unrank(n, lo, |s|, Rank(n, lo, s)) == [s[0]] + Unrank(n, s[0], |s| - 1, Rank(n, s[0], s[1..]))
  {
    RankRange(n, lo, s);
    var len := |s|;
    var m := Rank(n, lo, s);
    ValidTail(s, lo, n);
    RankRange(n, s[0], s[1..]);
    BlockSize(n, lo, s[0], len);
    BelowMonotone(n, lo, lo, s[0], len);
    FirstValueUnique(n, lo, len, m, lo, s[0]);
  }

  /** Lexicographic order on tuples of equal length. */
  predicate LexLess(s: seq<nat>, t: seq<nat>)
  {
    s != [] && t != [] && (s[0] < t[0] || (s[0] == t[0] && LexLess(s[1..], t[1..])))
  }

  /** The rank is strictly monotone in lexicographic order, so it is the lexicographic rank. */
  lemma {:induction false} RankMonotone(n: nat, lo: nat, s: seq<nat>, t: seq<nat>)
    requires Valid(s, lo, n) && Valid(t, lo, n) && |s| == |t| && lo <= n && LexLess(s, t)
    ensures Rank(n, lo, s) < Rank(n, lo, t)
    decreases |s|
  {
    ValidTail(s, lo, n);
    ValidTail(t, lo, n);
    if s[0] < t[0] {
      RankRange(n, s[0], s[1..]);
      RankRange(n, t[0], t[1..]);
      BlockSize(n, lo, s[0], |s|);
      BelowMonotone(n, lo, s[0] + 1, t[0], |s|);
    } else {
      RankMonotone(n, s[0], s[1..], t[1..]);
    }
  }

  // The library's closed form and its unranking loop.

  /** `mem_size()`: C(n + r - 1, r) stored cells, the number of non-decreasing r-tuples over n values. */
  function MemSize(n: nat, r: nat): (size: nat)
    requires r >= 1
    ensures size == Count(n, r)
  {
    BinomialCoefficient(n + r - 1, r)
  }

  /**
   * The summand of `mem_lin_comb` for the sorted id x at position k of r:
   * 0 for the last value, otherwise C(n - x + r - k - 2, r - k). It counts
   * the stored tuples that agree before k and are larger at k.
   */
  function SymTerm(n: nat, r: nat, k: nat, x: nat): nat
    requires k < r && x < n
  {
    if x == n - 1 then 0 else BinomialCoefficient(n - x + r - k - 2, r - k)
  }

  /** The fold of the summands over positions k.. of the sorted ids. */
  function SymFold(n: nat, s: seq<nat>, k: nat): nat
    requires k <= |s| && forall i :: 0 <= i < |s| ==> s[i] < n
    decreases |s| - k
  {
    if k == |s| then 0 else SymTerm(n, |s|, k, s[k]) + SymFold(n, s, k + 1)
  }

  /** Every id is one of the n values of the sub-indices. */
  predicate IdsInRange(ids: seq<nat>, n: nat)
  {
    forall k :: 0 <= k < |ids| ==> ids[k] < n
  }

  /**
   * The memory id `mem_lin_comb` computes for ids: C(n + r - 1, r) minus the
   * summands of the sorted ids, minus 1. It is the lexicographic rank of the
   * sorted ids among the stored tuples.
   */
  function MemLinCombId(n: nat, ids: seq<nat>): (id: int)
    requires |ids| >= 1 && IdsInRange(ids, n)
    ensures 0 <= id < MemSize(n, |ids|)
    ensures Valid(SortIds(ids), 0, n) && id == Rank(n, 0, SortIds(ids))
  {
    var sorted := SortIds(ids);
    SortedIdsValid(ids, n);
    Telescope(n, 0, sorted, 0);
    RankRange(n, 0, sorted);
    MemSize(n, |ids|) - SymFold(n, sorted, 0) - 1
  }

  /** Sorting ids in range gives a valid tuple of the same length. */
  lemma SortedIdsValid(ids: seq<nat>, n: nat)
    requires IdsInRange(ids, n)
    ensures |SortIds(ids)| == |ids| && Valid(SortIds(ids), 0, n)
    ensures IdsInRange(SortIds(ids), n)
  {
    SortIdsValues(ids);
    SortIdsSorted(ids);
    var t := SortIds(ids);
    forall k | 0 <= k < |t|
      ensures t[k] < n
    {
      assert t[k] in ids;
    }
  }

  /** The summand at position k is the size of the block of tuples above s[k] there. */
  lemma SymTermIsCount(n: nat, r: nat, k: nat, x: nat)
    requires k < r && x < n
    ensures SymTerm(n, r, k, x) == Count(n - x - 1, r - k)
  {
    if x == n - 1 {
      CountZero(r - k);
    }
  }

  /**
   * The fold telescopes: the rank of the suffix from k, plus the summands
   * from k, plus one, is the number of valid tuples of that length over [lo, n).
   */
  lemma {:induction false} Telescope(n: nat, lo: nat, s: seq<nat>, k: nat)
    requires k <= |s| && lo <= n && IdsInRange(s, n) && Valid(s[k..], lo, n)
    ensures Rank(n, lo, s[k..]) + SymFold(n, s, k) + 1 == Count(n - lo, |s| - k)
    decreases |s| - k
  {
    if k < |s| {
      var t := s[k..];
      assert t[0] == s[k] && t[1..] == s[k + 1..];
      ValidTail(t, lo, n);
      Telescope(n, s[k], s, k + 1);
      SymTermIsCount(n, |s|, k, s[k]);
      CountPascal(n - s[k] - 1, |s| - k - 1);
    }
  }

  /** `mem_lin_comb`: the single coefficient 1 on the memory id of the sorted ids. */
  function MemLinComb(n: nat, ids: seq<nat>): (terms: seq<Term>)
    requires |ids| >= 1 && IdsInRange(ids, n)
    ensures |terms| == 1 && terms[0].coef == 1 && 0 <= terms[0].memId < MemSize(n, |ids|)
  {
    [Term(1, MemLinCombId(n, ids))]
  }

  /** `access_id`: the memory id of the single term. */
  function AccessId(n: nat, ids: seq<nat>): (a: nat)
    requires |ids| >= 1 && IdsInRange(ids, n)
    ensures a < MemSize(n, |ids|)
  {
    MemLinComb(n, ids)[0].memId
  }

  /** `access_id_to_mem_lin_comb`: the access id is the memory id, with coefficient 1. */
  function AccessIdToMemLinComb(a: nat): (terms: seq<Term>)
    ensures terms == [Term(1, a)]
  {
    [Term(1, a)]
  }

  /** `process_access`: the access passes through unchanged. */
  function ProcessAccess(value: int): (v: int)
    ensures v == value
  {
    value
  }

  /** Permuting the ids does not change the cell they address. */
  lemma AccessIdSymmetric(n: nat, ids: seq<nat>, perm: seq<nat>)
    requires |ids| >= 1 && IdsInRange(ids, n) && IdsInRange(perm, n)
    requires multiset(ids) == multiset(perm)
    ensures |perm| == |ids| && AccessId(n, ids) == AccessId(n, perm)
  {
    assert |perm| == |multiset(perm)| == |multiset(ids)| == |ids|;
    SortIdsDependsOnValues(ids, perm);
  }

  /** Ids whose sorted copies differ address different cells. */
  lemma AccessIdInjective(n: nat, ids: seq<nat>, other: seq<nat>)
    requires |ids| >= 1 && IdsInRange(ids, n) && IdsInRange(other, n) && |other| == |ids|
    requires AccessId(n, ids) == AccessId(n, other)
    ensures SortIds(ids) == SortIds(other)
  {
    SortedIdsValid(ids, n);
    SortedIdsValid(other, n);
    UnrankRank(n, 0, SortIds(ids));
    UnrankRank(n, 0, SortIds(other));
  }

  /** Reading a cell through the access of ids gives the cell of its memory id. */
  lemma ReadThroughAccess(n: nat, ids: seq<nat>, mem: seq<int>)
    requires |ids| >= 1 && IdsInRange(ids, n) && |mem| == MemSize(n, |ids|)
    ensures InBounds(AccessIdToMemLinComb(AccessId(n, ids)), mem)
    ensures ProcessAccess(Evaluate(AccessIdToMemLinComb(AccessId(n, ids)), mem)) == mem[MemLinCombId(n, ids)]
  {
    EvaluateSingle(Term(1, AccessId(n, ids)), mem);
  }

  /** A sorted valid tuple is its own sorted copy. */
  lemma SortIdsOfSorted(s: seq<nat>)
    requires Sorted(s)
    ensures SortIds(s) == s
  {
    SortIdsSorted(s);
    SortIdsMultiset(s);
    SortedUnique(SortIds(s), s);
  }

  /** The canonical ids of a memory id are stored under that memory id. */
  lemma UnrankMemLinCombId(n: nat, r: nat, m: nat)
    requires r >= 1 && m < MemSize(n, r)
    ensures n >= 1 && IdsInRange(Unrank(n, 0, r, m), n)
    ensures MemLinCombId(n, Unrank(n, 0, r, m)) == m
  {
    if n == 0 {
      CountZero(r);
    }
    UnrankValid(n, 0, r, m);
    SortIdsOfSorted(Unrank(n, 0, r, m));
  }

  /**
   * `mem_id_to_canonical_natural_ids`: for each position i, a scan over
   * the d values still allowed finds the first one whose block passes
   * memId, subtracts the blocks before it and narrows the values to it and
   * above. The result is the sorted tuple stored under memId.
   */
  method MemIdToCanonicalNaturalIds(n: nat, r: nat, memId: nat) returns (ids: seq<nat>)
    requires r >= 1 && memId < MemSize(n, r)
    ensures ids == Unrank(n, 0, r, memId)
    ensures IdsInRange(ids, n) && MemLinCombId(n, ids) == memId
  {
    UnrankMemLinCombId(n, r, memId);
    ghost var target := Unrank(n, 0, r, memId);
    ids := seq(r, _ => 0);
    var d: nat := n;
    var mem: int := memId;
    ghost var done: seq<nat> := [];
    ghost var lo := 0;
    for i := 0 to r
      invariant |ids| == r && ids[..i] == done && |done| == i && d == n - lo
      invariant Progress(n, r, target, lo, mem, done)
    {
      ghost var before := ids;
      ghost var x, next := ProgressStep(n, r, target, lo, mem, done);
      ids, d, mem := ScanPosition(n, r, i, d, mem, ids, lo, x);
      assert mem == next;
      PrefixUpdate(before, i, x);
      done, lo := done + [x], x;
    }
    assert ids == ids[..r];
  }

  /**
   * The state of the unranking after |done| positions: done holds the
   * first components of target and the rest of target is the tuple of rank
   * mem over the values from lo on.
   */
  ghost predicate Progress(n: nat, r: nat, target: seq<nat>, lo: int, mem: int, done: seq<nat>)
  {
    && |done| <= r && 0 <= lo <= n
    && (|done| < r ==> 0 <= mem < Count(n - lo, r - |done|) && lo < n && done + Unrank(n, lo, r - |done|, mem) == target)
    && (|done| == r ==> done == target)
  }

  /** Placing the first value of the remaining tuple advances the unranking by one position. */
  lemma ProgressStep(n: nat, r: nat, target: seq<nat>, lo: int, mem: int, done: seq<nat>)
    returns (x: nat, next: int)
    requires Progress(n, r, target, lo, mem, done) && |done| < r
    ensures lo <= x < n && x == FirstValue(n, lo, r - |done|, mem, lo)
    ensures next == mem - Below(n, lo, x, r - |done|)
    ensures Progress(n, r, target, x, next, done + [x])
  {
    var tail;
    x, tail := UnrankCons(n, lo, r - |done|, mem);
    next := mem - Below(n, lo, x, r - |done|);
    ConcatAssoc(done, x, tail);
  }

  lemma ConcatAssoc(done: seq<nat>, x: nat, tail: seq<nat>)
    ensures done + [x] + tail == done + ([x] + tail)
  {
  }

  lemma UpdateTwice(s: seq<nat>, i: nat, a: nat, b: nat)
    requires i < |s|
    ensures s[i := a][i := b] == s[i := b]
  {
  }

  lemma PrefixUpdate(s: seq<nat>, i: nat, x: nat)
    requires i < |s|
    ensures s[i := x][..i + 1] == s[..i] + [x]
  {
  }

  /**
   * The inner loop for position i: writes the first value whose block of
   * tuples passes mem, subtracts the blocks below it from mem and keeps
   * the values from it on. The coefficients are written with Choose, which
   * `binomial_coefficient` equals by the contract of BinomialCoefficient.
   */
  method ScanPosition(n: nat, r: nat, i: nat, d: nat, mem: int, ids: seq<nat>, ghost lo: nat, ghost x: nat)
    returns (ids': seq<nat>, d': nat, mem': int)
    requires i < r == |ids| && d == n - lo && lo < n && 0 <= mem < Count(d, r - i)
    requires x == FirstValue(n, lo, r - i, mem, lo)
    ensures ids' == ids[i := x] && d' == n - x && mem' == mem - Below(n, lo, x, r - i)
  {
    var len := r - i;
    var triangle := Choose(d + len - 1, len);
    ids' := ids;
    var j := 0;
    while j < d
      invariant j <= d && lo + j <= x
      invariant Below(n, lo, lo + j, len) <= mem
      invariant FirstValue(n, lo, len, mem, lo + j) == x
      invariant |ids'| == |ids| && ids' == ids[i := ids'[i]]
    {
      ScanStep(n, lo, d, len, mem, j, x);
      var subtriangle := Choose(d - j + len - 2, len);
      if triangle - subtriangle > mem {
        UpdateTwice(ids, i, ids'[i], n - d + j);
        ids' := ids'[i := n - d + j];
        mem' := mem - (triangle - Choose(d - j + len - 1, len));
        d' := d - j;
        return;
      }
      ids' := ids'[i := 0];
      j := j + 1;
    }
    assert false;
  }

  /**
   * The counts the scan compares at value lo + j, with d = n - lo values
   * left: the binomials are the blocks below that value and below the
   * next, and passing mem decides whether the value is the first one.
   */
  lemma ScanStep(n: nat, lo: nat, d: nat, len: nat, mem: int, j: nat, x: nat)
    requires 1 <= len && d == n - lo && j < d && Below(n, lo, lo + j, len) <= mem < Count(d, len)
    requires lo + j <= x && FirstValue(n, lo, len, mem, lo + j) == x
    ensures Choose(d + len - 1, len) - Choose(d - j + len - 2, len) > mem ==>
      && x == n - d + j
      && mem - (Choose(d + len - 1, len) - Choose(d - j + len - 1, len)) == mem - Below(n, lo, x, len)
    ensures Choose(d + len - 1, len) - Choose(d - j + len - 2, len) <= mem ==>
      && j + 1 < d && lo + (j + 1) <= x && Below(n, lo, lo + (j + 1), len) <= mem
      && FirstValue(n, lo, len, mem, lo + (j + 1)) == x
  {
    CountZero(len);
    assert n - (lo + j + 1) == d - j - 1;
    assert n - (lo + j) == d - j;
    assert Choose(d + len - 1, len) - Choose(d - j + len - 2, len) == Below(n, lo, lo + j + 1, len);
  }

}
