// `misc::permutation_parity`: selection sort on a local copy of the array,
// a sign flip per exchange, then a duplicate check. Both the code as written
// (exchange only when lst[i] != i) and a corrected full selection sort.
module PermutationParity {
  import opened Signs
  import opened PortableStl

  /** 0, 1, ..., n - 1. */
  function Range(n: nat): (r: seq<int>)
    ensures |r| == n && forall k :: 0 <= k < n ==> r[k] == k
  {
    seq(n, k => k)
  }

  /**
   * s is a permutation of 0, 1, ..., |s| - 1: every entry lies in that range,
   * every value of the range occurs, and none occurs twice.
   */
  predicate IsPermutation(s: seq<int>)
  {
    && (forall k :: 0 <= k < |s| ==> 0 <= s[k] < |s|)
    && (forall v :: 0 <= v < |s| ==> v in s)
    && Distinct(s)
  }

  /** An exchange of two entries keeps a permutation a permutation. */
  lemma SwapPermutation(s: seq<int>, i: nat, j: nat)
    requires i < |s| && j < |s| && IsPermutation(s)
    ensures IsPermutation(Swap(s, i, j))
  {
    var t := Swap(s, i, j);
    forall v | 0 <= v < |s| ensures v in t {
      assert v in s;
      var k :| 0 <= k < |s| && s[k] == v;
      if k == i {
        assert t[j] == v;
      } else if k == j {
        assert t[i] == v;
      } else {
        assert t[k] == v;
      }
    }
    SwapDistinct(s, i, j);
  }

  /** Position of the first minimum of s[lo..], the position std::min_element returns. */
  function FirstMinIndex(s: seq<int>, lo: nat): (m: nat)
    requires lo < |s|
    ensures lo <= m < |s|
    decreases |s| - lo
  {
    if lo == |s| - 1 then lo
    else
      var m := FirstMinIndex(s, lo + 1);
      if s[m] < s[lo] then m else lo
  }

  /** m holds the minimum of s[lo..] and no earlier position of s[lo..] does. */
  predicate IsFirstMin(s: seq<int>, lo: nat, m: nat)
  {
    && lo <= m < |s|
    && (forall k :: lo <= k < |s| ==> s[m] <= s[k])
    && (forall k :: lo <= k < m ==> s[k] > s[m])
  }

  lemma {:induction false} FirstMinIndexIsFirstMin(s: seq<int>, lo: nat)
    requires lo < |s|
    ensures IsFirstMin(s, lo, FirstMinIndex(s, lo))
    decreases |s| - lo
  {
    if lo < |s| - 1 {
      FirstMinIndexIsFirstMin(s, lo + 1);
    }
  }

  /** The first minimum is unique, so it is the one FirstMinIndex names. */
  lemma FirstMinUnique(s: seq<int>, lo: nat, m: nat)
    requires IsFirstMin(s, lo, m)
    ensures m == FirstMinIndex(s, lo)
  {
    FirstMinIndexIsFirstMin(s, lo);
  }

  /** std::min_element over a[lo..]: the first position holding the minimum. */
  method MinElement(a: array<int>, lo: nat) returns (m: nat)
    requires lo < a.Length
    ensures m == FirstMinIndex(a[..], lo)
  {
    m := lo;
    var k := lo + 1;
    while k < a.Length
      invariant lo <= m < k <= a.Length
      invariant forall q :: lo <= q < k ==> a[m] <= a[q]
      invariant forall q :: lo <= q < m ==> a[q] > a[m]
    {
      if a[k] < a[m] {
        m := k;
      }
      k := k + 1;
    }
    FirstMinUnique(a[..], lo, m);
  }

  /** Two equal neighbours somewhere in s (std::adjacent_find finds one). */
  predicate HasAdjacentEqual(s: seq<int>)
  {
    exists k :: 0 <= k < |s| - 1 && s[k] == s[k + 1]
  }

  /** std::adjacent_find: the first k with a[k] == a[k + 1], or a.Length if there is none. */
  method AdjacentFind(a: array<int>) returns (k: nat)
    ensures k <= a.Length
    ensures k < a.Length ==> k + 1 < a.Length && a[k] == a[k + 1]
    ensures k == a.Length <==> !HasAdjacentEqual(a[..])
  {
    k := 0;
    while k + 1 < a.Length
      invariant k <= a.Length
      invariant forall q :: 0 <= q < k && q + 1 < a.Length ==> a[q] != a[q + 1]
    {
      if a[k] == a[k + 1] {
        return;
      }
      k := k + 1;
    }
    k := a.Length;
  }

  // ---------------------------------------------------------------------
  // The code as written

  /** The sort loop from position i on, as written: exchange only when s[i] != i. */
  function SweepAsWritten(s: seq<int>, i: nat, parity: int): (r: (seq<int>, int))
    requires i < |s|
    ensures |r.0| == |s|
    decreases |s| - i
  {
    if i == |s| - 1 then (s, parity)
    else if s[i] != i then SweepAsWritten(Swap(s, i, FirstMinIndex(s, i)), i + 1, -parity)
    else SweepAsWritten(s, i + 1, parity)
  }

  /** The value `permutation_parity` returns, as written. */
  function ParityAsWritten(lst: seq<int>): int
    requires |lst| >= 1
  {
    var (a, parity) := SweepAsWritten(lst, 0, 1);
    if HasAdjacentEqual(a) then 0
    else if a[|a| - 1] == a[0] then 0
    else parity
  }

  /**
   * `permutation_parity(lst)` as written. The array is a local copy, so the
   * caller's sequence is untouched. It computes the sign of a permutation of
   * 0..N-1 for N >= 2.
   */
  method PermutationParityAsWritten(lst: seq<int>) returns (r: int)
    requires |lst| >= 1
    ensures r == ParityAsWritten(lst)
    ensures IsPermutation(lst) && |lst| >= 2 ==> r == Sign(lst)
  {
    var a := new int[|lst|](k requires 0 <= k < |lst| => lst[k]);
    assert a[..] == lst;
    var parity := 1;
    var i := 0;
    while i < a.Length - 1
      invariant 0 <= i <= a.Length - 1
      invariant SweepAsWritten(a[..], i, parity) == SweepAsWritten(lst, 0, 1)
    {
      ghost var before := a[..];
      ghost var p := parity;
      if a[i] != i {
        parity := -parity;
        var mn := MinElement(a, i);
        SwapEntries(a, i, mn);
        SweepUnfoldSwap(before, i, p);
      } else {
        SweepUnfoldFixed(before, i, p);
      }
      i := i + 1;
    }
    assert SweepAsWritten(a[..], i, parity) == (a[..], parity);
    var adj := AdjacentFind(a);
    if adj != a.Length {
      r := 0;
    } else if a[a.Length - 1] == a[0] {
      r := 0;
    } else {
      r := parity;
    }
    if IsPermutation(lst) && |lst| >= 2 {
      AsWrittenOnPermutation(lst);
    }
  }


  /** The values 0..i-1 stand at their own positions. */
  predicate PrefixFixed(s: seq<int>, i: nat)
  {
    forall k :: 0 <= k < i && k < |s| ==> s[k] == k
  }

  /** A value below i can only stand at its own position. */
  lemma PrefixValue(s: seq<int>, i: nat, k: nat)
    requires k < |s| && IsPermutation(s) && PrefixFixed(s, i)
    ensures s[k] < i ==> s[k] == k
  {
    if s[k] < i {
      assert s[s[k]] == s[k];
    }
  }

  /** With 0..i-1 in place, the suffix holds exactly the values i..|s|-1. */
  lemma SuffixValues(s: seq<int>, i: nat)
    requires i < |s| && IsPermutation(s) && PrefixFixed(s, i)
    ensures forall k :: i <= k < |s| ==> i <= s[k] < |s|
    ensures exists k :: i <= k < |s| && s[k] == i
    ensures Distinct(s[i..])
  {
    forall k | i <= k < |s| ensures i <= s[k] {
      PrefixValue(s, i, k);
    }
    assert i in s;
    var q :| 0 <= q < |s| && s[q] == i;
    assert i <= q;
  }

  lemma SwapSuffix(s: seq<int>, i: nat, m: nat)
    requires i <= m < |s|
    ensures Swap(s, i, m)[i..] == Swap(s[i..], 0, m - i)
  {
  }

  /** The as-written loop meets i in place: nothing moves and the sign is that of the tail. */
  lemma FixedStep(s: seq<int>, i: nat)
    requires i < |s| && IsPermutation(s) && PrefixFixed(s, i) && s[i] == i
    ensures PrefixFixed(s, i + 1)
    ensures Sign(s[i + 1..]) == Sign(s[i..])
  {
    SuffixValues(s, i);
    var t := s[i..];
    assert forall k :: 0 <= k < |t| ==> t[0] <= t[k];
    SignOfMinimumFirst(t);
    assert t[1..] == s[i + 1..];
  }

  /** The minimum of the suffix of a prefix-fixed permutation is i itself. */
  lemma SuffixMinimum(s: seq<int>, i: nat)
    requires i < |s| && IsPermutation(s) && PrefixFixed(s, i)
    ensures s[FirstMinIndex(s, i)] == i
  {
    FirstMinIndexIsFirstMin(s, i);
    SuffixValues(s, i);
    var q :| i <= q < |s| && s[q] == i;
  }

  /** The as-written loop meets i out of place: the exchange brings i home. */
  lemma SwapStepFixes(s: seq<int>, i: nat)
    requires i < |s| && IsPermutation(s) && PrefixFixed(s, i)
    ensures IsPermutation(Swap(s, i, FirstMinIndex(s, i)))
    ensures PrefixFixed(Swap(s, i, FirstMinIndex(s, i)), i + 1)
  {
    var m := FirstMinIndex(s, i);
    SuffixMinimum(s, i);
    SwapPermutation(s, i, m);
  }

  /** ... and flips the sign of the part still to be sorted. */
  lemma SwapStepSign(s: seq<int>, i: nat)
    requires i < |s| && IsPermutation(s) && PrefixFixed(s, i) && s[i] != i
    ensures Sign(Swap(s, i, FirstMinIndex(s, i))[i + 1..]) == -Sign(s[i..])
  {
    var m := FirstMinIndex(s, i);
    FirstMinIndexIsFirstMin(s, i);
    SuffixMinimum(s, i);
    SuffixValues(s, i);
    var s' := Swap(s, i, m);
    var t := s[i..];
    SwapSuffix(s, i, m);
    assert forall k :: 0 <= k < |t| ==> t[m - i] <= t[k];
    SwapFrontWithMinimum(t, m - i);
    var t' := s'[i..];
    assert forall k :: 0 <= k < |t'| ==> t'[0] <= t'[k];
    SignOfMinimumFirst(t');
    assert t'[1..] == s'[i + 1..];
  }

  lemma SweepUnfoldFixed(s: seq<int>, i: nat, parity: int)
    requires i < |s| - 1 && s[i] == i
    ensures SweepAsWritten(s, i, parity) == SweepAsWritten(s, i + 1, parity)
  {
  }

  lemma SweepUnfoldSwap(s: seq<int>, i: nat, parity: int)
    requires i < |s| - 1 && s[i] != i
    ensures SweepAsWritten(s, i, parity) == SweepAsWritten(Swap(s, i, FirstMinIndex(s, i)), i + 1, -parity)
  {
  }

  /** With all but the last value in place the permutation is the identity. */
  lemma LastStep(s: seq<int>, i: nat)
    requires i == |s| - 1 && IsPermutation(s) && PrefixFixed(s, i)
    ensures s == Range(|s|) && Sign(s[i..]) == 1
  {
    SuffixValues(s, i);
    assert s[i] == i;
    assert s[i..] == [s[i]];
    assert Inversions(s[i..]) == 0;
  }

  /** On a permutation with 0..i-1 in place, the rest of the as-written loop sorts it. */
  lemma {:induction false} SweepAsWrittenSorts(s: seq<int>, i: nat, parity: int)
    requires i < |s| && IsPermutation(s) && PrefixFixed(s, i)
    ensures SweepAsWritten(s, i, parity).0 == Range(|s|)
    decreases |s| - i
  {
    if i == |s| - 1 {
      LastStep(s, i);
    } else if s[i] == i {
      FixedStep(s, i);
      SweepAsWrittenSorts(s, i + 1, parity);
    } else {
      SwapStepFixes(s, i);
      SweepAsWrittenSorts(Swap(s, i, FirstMinIndex(s, i)), i + 1, -parity);
      SweepUnfoldSwap(s, i, parity);
    }
  }

  /** ... and flips the parity once per transposition of the part still to be sorted. */
  lemma {:induction false} SweepAsWrittenCounts(s: seq<int>, i: nat, parity: int)
    requires i < |s| && IsPermutation(s) && PrefixFixed(s, i)
    ensures SweepAsWritten(s, i, parity).1 == if Sign(s[i..]) == 1 then parity else -parity
    decreases |s| - i, 2
  {
    if i == |s| - 1 {
      LastStep(s, i);
    } else if s[i] == i {
      FixedStep(s, i);
      SweepAsWrittenCounts(s, i + 1, parity);
    } else {
      SweepCountsSwapCase(s, i, parity);
    }
  }

  /** The exchanging case of the induction above. */
  lemma {:induction false} SweepCountsSwapCase(s: seq<int>, i: nat, parity: int)
    requires i < |s| - 1 && IsPermutation(s) && PrefixFixed(s, i) && s[i] != i
    ensures SweepAsWritten(s, i, parity).1 == if Sign(s[i..]) == 1 then parity else -parity
    decreases |s| - i, 1
  {
    var s' := Swap(s, i, FirstMinIndex(s, i));
    SweepCountsAfterSwap(s, i, parity);
    SwapStepSign(s, i);
    SweepUnfoldSwap(s, i, parity);
    FlipSign(SweepAsWritten(s, i, parity).1, parity, Sign(s[i..]), Sign(s'[i + 1..]));
  }

  /** The induction hypothesis, applied after the exchange. */
  lemma {:induction false} SweepCountsAfterSwap(s: seq<int>, i: nat, parity: int)
    requires i < |s| - 1 && IsPermutation(s) && PrefixFixed(s, i)
    ensures var s' := Swap(s, i, FirstMinIndex(s, i));
      SweepAsWritten(s', i + 1, -parity).1 == if Sign(s'[i + 1..]) == 1 then -parity else parity
    decreases |s| - i, 0
  {
    SwapStepFixes(s, i);
    SweepAsWrittenCounts(Swap(s, i, FirstMinIndex(s, i)), i + 1, -parity);
  }

  lemma FlipSign(a: int, p: int, x: int, y: int)
    requires y == -x && (x == 1 || x == -1) && a == (if y == 1 then -p else p)
    ensures a == if x == 1 then p else -p
  {
  }

  /** For N >= 2 the code as written returns the sign of a permutation of 0..N-1. */
  lemma AsWrittenOnPermutation(lst: seq<int>)
    requires IsPermutation(lst) && |lst| >= 2
    ensures ParityAsWritten(lst) == Sign(lst)
  {
    SweepAsWrittenSorts(lst, 0, 1);
    SweepAsWrittenCounts(lst, 0, 1);
    var a := Range(|lst|);
    assert !HasAdjacentEqual(a);
    assert lst[0..] == lst;
  }

  /** For N == 1 the final check compares lst[0] with itself, so the result is 0. */
  lemma AsWrittenSingleton(x: int)
    ensures ParityAsWritten([x]) == 0
  {
  }

  /** [2, 1, 0, 1] repeats the value 1, yet the code as written returns -1. */
  lemma AsWrittenMissesRepeat()
    ensures !Distinct([2, 1, 0, 1]) && ParityAsWritten([2, 1, 0, 1]) == -1
  {
    var s := [2, 1, 0, 1];
    assert s[1] == s[3];
    FirstMinUnique(s, 0, 2);
    var s1 := Swap(s, 0, 2);
    assert s1 == [0, 1, 2, 1];
    assert SweepAsWritten(s, 0, 1) == SweepAsWritten(s1, 1, -1);
    assert SweepAsWritten(s1, 1, -1) == SweepAsWritten(s1, 2, -1);
    assert SweepAsWritten(s1, 2, -1) == SweepAsWritten(s1, 3, -1);
    assert !HasAdjacentEqual(s1);
  }

  // ---------------------------------------------------------------------
  // Corrected: exchange whenever the minimum lies elsewhere, so the copy ends
  // up sorted and every repeat adjacent; no first-against-last comparison

  /** The corrected sort loop from position i on. */
  function Sweep(s: seq<int>, i: nat, parity: int): (r: (seq<int>, int))
    requires i < |s|
    ensures |r.0| == |s|
    decreases |s| - i
  {
    if i == |s| - 1 then (s, parity)
    else
      var m := FirstMinIndex(s, i);
      if m != i then Sweep(Swap(s, i, m), i + 1, -parity)
      else Sweep(s, i + 1, parity)
  }

  /** The value the corrected `permutation_parity` returns. */
  function CorrectedParity(lst: seq<int>): int
    requires |lst| >= 1
  {
    var (a, parity) := Sweep(lst, 0, 1);
    if HasAdjacentEqual(a) then 0 else parity
  }

  /** The entries before i are each no larger than anything after them. */
  predicate PrefixMinimal(s: seq<int>, i: nat)
  {
    forall p, q :: 0 <= p < i && p < q < |s| ==> s[p] <= s[q]
  }

  lemma SweepUnfold(s: seq<int>, i: nat, parity: int)
    requires i < |s| - 1
    ensures var m := FirstMinIndex(s, i);
      Sweep(s, i, parity) == if m != i then Sweep(Swap(s, i, m), i + 1, -parity) else Sweep(s, i + 1, parity)
  {
  }

  /** One selection step extends the sorted, minimal prefix by one. */
  lemma SelectStep(s: seq<int>, i: nat)
    requires i < |s| && PrefixMinimal(s, i)
    ensures var s' := Swap(s, i, FirstMinIndex(s, i)); PrefixMinimal(s', i + 1)
  {
    var m := FirstMinIndex(s, i);
    FirstMinIndexIsFirstMin(s, i);
    var s' := Swap(s, i, m);
    forall p, q | 0 <= p < i + 1 && p < q < |s'| ensures s'[p] <= s'[q] {
      var q' := if q == i then m else if q == m then i else q;
      assert s'[q] == s[q'];
      if p < i {
        assert s'[p] == s[p];
      }
    }
  }

  /** The corrected loop keeps the values. */
  lemma {:induction false} SweepPermutes(s: seq<int>, i: nat, parity: int)
    requires i < |s|
    ensures multiset(Sweep(s, i, parity).0) == multiset(s)
    decreases |s| - i
  {
    if i < |s| - 1 {
      var m := FirstMinIndex(s, i);
      SweepUnfold(s, i, parity);
      if m != i {
        var s' := Swap(s, i, m);
        SwapMultiset(s, i, m);
        SweepPermutes(s', i + 1, -parity);
        assert multiset(Sweep(s', i + 1, -parity).0) == multiset(s);
      } else {
        SweepPermutes(s, i + 1, parity);
      }
    }
  }

  /** The corrected loop sorts. */
  lemma {:induction false} SweepSorts(s: seq<int>, i: nat, parity: int)
    requires i < |s| && PrefixMinimal(s, i)
    ensures Sorted(Sweep(s, i, parity).0)
    decreases |s| - i
  {
    if i < |s| - 1 {
      var m := FirstMinIndex(s, i);
      SweepUnfold(s, i, parity);
      SelectStep(s, i);
      if m != i {
        SweepSorts(Swap(s, i, m), i + 1, -parity);
      } else {
        assert Swap(s, i, m) == s;
        SweepSorts(s, i + 1, parity);
      }
    } else {
      assert Sweep(s, i, parity).0 == s;
    }
  }

  /** On distinct values, each exchange of the corrected loop flips the sign of the unsorted part. */
  lemma SelectStepSign(s: seq<int>, i: nat)
    requires i < |s| - 1 && Distinct(s)
    ensures var m := FirstMinIndex(s, i);
      Sign(s[i..]) == (if m != i then -1 else 1) * Sign(Swap(s, i, m)[i + 1..])
  {
    var m := FirstMinIndex(s, i);
    FirstMinIndexIsFirstMin(s, i);
    var s' := Swap(s, i, m);
    var t := s[i..];
    assert Distinct(t);
    SwapSuffix(s, i, m);
    if m != i {
      SwapFrontWithMinimum(t, m - i);
    } else {
      assert s' == s;
    }
    var t' := s'[i..];
    assert forall k :: 0 <= k < |t'| ==> t'[0] <= t'[k];
    SignOfMinimumFirst(t');
    assert t'[1..] == s'[i + 1..];
  }

  /** On distinct values the corrected loop's parity is the sign of the unsorted part. */
  lemma {:induction false} SweepCounts(s: seq<int>, i: nat, parity: int)
    requires i < |s| && Distinct(s)
    ensures Sweep(s, i, parity).1 == if Sign(s[i..]) == 1 then parity else -parity
    decreases |s| - i
  {
    if i == |s| - 1 {
      assert s[i..] == [s[i]];
      assert Inversions(s[i..]) == 0;
    } else {
      var m := FirstMinIndex(s, i);
      SweepUnfold(s, i, parity);
      SelectStepSign(s, i);
      SwapDistinct(s, i, m);
      if m != i {
        SweepCounts(Swap(s, i, m), i + 1, -parity);
        FlipSign(Sweep(s, i, parity).1, parity, Sign(s[i..]), Sign(Swap(s, i, m)[i + 1..]));
      } else {
        assert Swap(s, i, m) == s;
        SweepCounts(s, i + 1, parity);
      }
    }
  }

  /** The corrected result: 0 exactly on a repeat, otherwise the sign. */
  lemma CorrectedParityMeaning(lst: seq<int>)
    requires |lst| >= 1
    ensures !Distinct(lst) ==> CorrectedParity(lst) == 0
    ensures Distinct(lst) ==> CorrectedParity(lst) == Sign(lst)
  {
    var (a, parity) := Sweep(lst, 0, 1);
    SweepSorts(lst, 0, 1);
    SweepPermutes(lst, 0, 1);
    if Distinct(lst) {
      SweepCounts(lst, 0, 1);
      assert lst[0..] == lst;
      DistinctMultiset(lst, a);
    } else {
      if Distinct(a) {
        DistinctMultiset(a, lst);
      }
      SortedRepeatIsAdjacent(a);
    }
  }

  /**
   * Corrected `permutation_parity`: selection sort of a local copy with one
   * sign flip per exchange, then the neighbour check. The result is 0 exactly
   * when lst repeats a value, and otherwise the sign of the permutation that
   * sorts lst (for 0..N-1 in any order, its parity).
   */
  method PermutationParity(lst: seq<int>) returns (r: int)
    requires |lst| >= 1
    ensures r == CorrectedParity(lst)
    ensures !Distinct(lst) ==> r == 0
    ensures Distinct(lst) ==> r == Sign(lst)
  {
    var a := new int[|lst|](k requires 0 <= k < |lst| => lst[k]);
    assert a[..] == lst;
    var parity := 1;
    var i := 0;
    while i < a.Length - 1
      invariant 0 <= i <= a.Length - 1
      invariant Sweep(a[..], i, parity) == Sweep(lst, 0, 1)
    {
      ghost var before := a[..];
      ghost var p := parity;
      var mn := MinElement(a, i);
      SweepUnfold(before, i, p);
      if mn != i {
        parity := -parity;
        SwapEntries(a, i, mn);
      }
      i := i + 1;
    }
    assert Sweep(a[..], i, parity) == (a[..], parity);
    var adj := AdjacentFind(a);
    if adj != a.Length {
      r := 0;
    } else {
      r := parity;
    }
    CorrectedParityMeaning(lst);
  }
}
