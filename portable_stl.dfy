// The device-side iterator algorithms of `misc::detail` (find, move/copy,
// bounded_advance, shift_left, bubble sort), over an `array<int>` with
// iterators as positions into it.
module PortableStl {
  import opened Signs

  /** Exchange of two entries of an array (std::swap, Kokkos::kokkos_swap). */
  method SwapEntries(a: array<int>, i: nat, j: nat)
    requires i < a.Length && j < a.Length
    modifies a
    ensures a[..] == Swap(old(a[..]), i, j)
  {
    a[i], a[j] := a[j], a[i];
  }

  /** `find`: the first position p in [first, last) with a[p] == value, or last when there is none. */
  method Find(a: array<int>, first: nat, last: nat, value: int) returns (p: nat)
    requires first <= last <= a.Length
    ensures first <= p <= last
    ensures p < last ==> a[p] == value
    ensures forall k :: first <= k < p ==> a[k] != value
  {
    p := first;
    while p != last
      invariant first <= p <= last
      invariant forall k :: first <= k < p ==> a[k] != value
    {
      if a[p] == value {
        return;
      }
      p := p + 1;
    }
  }

  /**
   * `move` (and `copy`, whose loop is the same for int elements): writes
   * src[first + k] to dst[d_first + k] for every k < last - first, front to
   * back, and returns d_first + (last - first). When src and dst are the same
   * array, the destination must not start inside (first, last), the
   * condition under which the front-to-back loop never reads a cell it has
   * already written.
   */
  method Move(src: array<int>, first: nat, last: nat, dst: array<int>, d_first: nat) returns (d_last: nat)
    requires first <= last <= src.Length
    requires d_first + (last - first) <= dst.Length
    requires src == dst ==> d_first <= first || last <= d_first
    modifies dst
    ensures d_last == d_first + (last - first)
    ensures dst[d_first..d_last] == old(src[first..last])
    ensures forall k :: 0 <= k < dst.Length && !(d_first <= k < d_last) ==> dst[k] == old(dst[k])
  {
    ghost var from := src[first..last];
    var i := first;
    d_last := d_first;
    while i != last
      invariant first <= i <= last && d_last == d_first + (i - first)
      invariant dst[d_first..d_last] == from[..i - first]
      invariant forall k :: 0 <= k < dst.Length && !(d_first <= k < d_last) ==> dst[k] == old(dst[k])
      invariant forall k :: i <= k < last ==> src[k] == from[k - first]
    {
      dst[d_last] := src[i];
      d_last := d_last + 1;
      i := i + 1;
    }
  }

  /** The number of steps `bounded_advance` takes from i towards bound with budget n. */
  function AdvanceSteps(i: int, n: nat, bound: int): (steps: nat)
  {
    if i <= bound && bound - i < n then bound - i else n
  }

  /**
   * `bounded_advance`: moves i forward one step at a time until n steps are
   * taken or bound is reached, and returns the unused budget.
   */
  method BoundedAdvance(i: int, n: nat, bound: int) returns (i': int, rest: nat)
    ensures i' == i + AdvanceSteps(i, n, bound) && rest == n - AdvanceSteps(i, n, bound)
  {
    i', rest := i, n;
    while rest > 0 && i' != bound
      invariant i' - i + rest == n && i <= i'
      invariant i <= bound ==> i' <= bound
      decreases rest
    {
      rest := rest - 1;
      i' := i' + 1;
    }
  }

  /** Advancing stops at bound exactly when the budget reaches it. */
  lemma AdvanceStepsBounds(i: int, n: nat, bound: int)
    requires i <= bound
    ensures AdvanceSteps(i, n, bound) <= n && i + AdvanceSteps(i, n, bound) <= bound
    ensures n - AdvanceSteps(i, n, bound) > 0 <==> n > bound - i
  {
  }

  /**
   * `shift_left`: moves [first + n, last) to [first, last - n) and returns
   * first + (last - first - n); a zero shift returns last, and a shift of
   * the whole range or more returns first; neither moves anything.
   */
  method ShiftLeft(a: array<int>, first: nat, last: nat, n: nat) returns (p: nat)
    requires first <= last <= a.Length
    modifies a
    ensures n == 0 ==> p == last && a[..] == old(a[..])
    ensures n >= last - first ==> n == 0 || (p == first && a[..] == old(a[..]))
    ensures 0 < n < last - first ==>
      && p == first + (last - first - n)
      && a[first..p] == old(a[first + n..last])
      && forall k :: 0 <= k < a.Length && !(first <= k < p) ==> a[k] == old(a[k])
  {
    if n <= 0 {
      return last;
    }
    var mid, rest := BoundedAdvance(first, n, last);
    if rest != 0 {
      return first;
    }
    p := Move(a, mid, last, a, first);
    if n == last - first {
      assert a[..] == old(a[..]);
    }
  }

  /** sorted under `<` between lo and hi. */
  predicate SortedBetween(s: seq<int>, lo: nat, hi: nat)
  {
    forall p, q :: lo <= p < q < hi && q < |s| ==> s[p] <= s[q]
  }

  /** Everything in [lo, mid) is at most everything in [mid, hi). */
  predicate Below(s: seq<int>, lo: nat, mid: nat, hi: nat)
  {
    forall p, q :: lo <= p < mid <= q < hi && q < |s| ==> s[p] <= s[q]
  }

  /** Outside [lo, hi) two sequences agree. */
  predicate SameOutside(s: seq<int>, t: seq<int>, lo: nat, hi: nat)
  {
    |s| == |t| && forall k :: 0 <= k < |s| && !(lo <= k < hi) ==> s[k] == t[k]
  }

  /**
   * Bubble `sort` with `comp` the default `<`: end - begin passes, each
   * comparing every adjacent pair of the range and exchanging a pair that is
   * out of order. The range ends sorted and holds the same values.
   */
  method Sort(a: array<int>, begin: nat, end: nat)
    requires begin <= end <= a.Length
    modifies a
    ensures SortedBetween(a[..], begin, end)
    ensures multiset(a[..]) == multiset(old(a[..]))
    ensures SameOutside(a[..], old(a[..]), begin, end)
  {
    ghost var s := end;
    var i := begin;
    while i != end
      invariant begin <= i <= end && begin <= s <= end
      invariant s == if end - (i - begin) > begin then end - (i - begin) else begin
      invariant SortedBetween(a[..], s, end) && Below(a[..], begin, s, end)
      invariant multiset(a[..]) == multiset(old(a[..]))
      invariant SameOutside(a[..], old(a[..]), begin, end)
    {
      BubblePass(a, begin, end, s);
      if s > begin {
        s := s - 1;
      }
      i := i + 1;
    }
  }

  /**
   * What holds in the inner loop before comparing positions j and j + 1:
   * a[j] is the largest of [begin, j], [s, end) is sorted and above
   * [begin, s), and once j has reached s - 1 the value there is the largest
   * of the prefix.
   */
  predicate PassInvariant(t: seq<int>, begin: nat, end: nat, s: nat, j: nat)
  {
    && begin <= j < end <= |t| && begin <= s <= end
    && (forall k :: begin <= k <= j ==> t[k] <= t[j])
    && SortedBetween(t, s, end) && Below(t, begin, s, end)
    && (s > begin && j >= s - 1 ==> forall k :: begin <= k < s - 1 ==> t[k] <= t[s - 1])
  }

  /** The pair (j, j + 1) inside the sorted part, or at its border, is never out of order. */
  lemma NoSwapAtBorder(t: seq<int>, begin: nat, end: nat, s: nat, j: nat)
    requires PassInvariant(t, begin, end, s, j) && j + 1 < end && j + 1 >= s
    ensures t[j] <= t[j + 1]
  {
    if j >= s {
      assert s <= j < j + 1 < end;
    } else {
      assert begin <= j < s <= j + 1 < end;
    }
  }

  /** One comparison step of the inner loop keeps its invariant. */
  lemma PassStep(t: seq<int>, begin: nat, end: nat, s: nat, j: nat)
    requires PassInvariant(t, begin, end, s, j) && j + 1 < end
    ensures var t' := if t[j + 1] < t[j] then Swap(t, j, j + 1) else t;
      PassInvariant(t', begin, end, s, j + 1)
  {
    if t[j + 1] < t[j] {
      if j + 1 >= s {
        NoSwapAtBorder(t, begin, end, s, j);
      }
      var t' := Swap(t, j, j + 1);
      assert forall k :: begin <= k <= j + 1 ==> t'[k] <= t'[j + 1] by {
        forall k | begin <= k <= j + 1
          ensures t'[k] <= t'[j + 1]
        {
          if k < j {
            assert t'[k] == t[k];
          }
        }
      }
      assert forall k :: s <= k < end ==> t'[k] == t[k];
      assert forall k :: begin <= k < s ==> t'[k] == t[k] || t'[k] == t[j] || t'[k] == t[j + 1];
      assert Below(t', begin, s, end) by {
        forall p, q | begin <= p < s <= q < end
          ensures t'[p] <= t'[q]
        {
          assert t'[q] == t[q];
          if p == j {
            assert t'[p] == t[j + 1];
          } else if p == j + 1 {
            assert t'[p] == t[j];
          } else {
            assert t'[p] == t[p];
          }
        }
      }
    }
  }

  /** An exchange inside [begin, end) leaves the outside as it was. */
  lemma SwapOutside(t: seq<int>, orig: seq<int>, begin: nat, end: nat, j: nat)
    requires SameOutside(t, orig, begin, end) && begin <= j && j + 1 < end <= |t|
    ensures SameOutside(Swap(t, j, j + 1), orig, begin, end)
  {
  }

  /** When the inner loop ends, the sorted part has grown by one position. */
  lemma PassEnd(t: seq<int>, begin: nat, end: nat, s: nat)
    requires begin < end && PassInvariant(t, begin, end, s, end - 1)
    ensures var s' := if s > begin then s - 1 else begin;
      SortedBetween(t, s', end) && Below(t, begin, s', end)
  {
    if s > begin {
      assert SortedBetween(t, s - 1, end) by {
        forall p, q | s - 1 <= p < q < end
          ensures t[p] <= t[q]
        {
          if p == s - 1 {
            assert begin <= p < s <= q < end;
          }
        }
      }
    }
  }

  /** The body of the inner loop: exchanges a[j] and a[j + 1] when `a[j + 1] < a[j]`. */
  method CompareAdjacent(a: array<int>, begin: nat, end: nat, ghost s: nat, j: nat, ghost orig: seq<int>)
    requires PassInvariant(a[..], begin, end, s, j) && j + 1 < end
    requires multiset(a[..]) == multiset(orig) && SameOutside(a[..], orig, begin, end)
    modifies a
    ensures PassInvariant(a[..], begin, end, s, j + 1)
    ensures multiset(a[..]) == multiset(orig) && SameOutside(a[..], orig, begin, end)
  {
    ghost var before := a[..];
    PassStep(before, begin, end, s, j);
    if a[j + 1] < a[j] {
      SwapEntries(a, j, j + 1);
      SwapMultiset(before, j, j + 1);
      SwapOutside(before, orig, begin, end, j);
    }
  }

  /**
   * One pass of the inner loop: with [s, end) already sorted and above
   * [begin, s), the pass carries the largest value of [begin, s) to s - 1.
   */
  method BubblePass(a: array<int>, begin: nat, end: nat, ghost s: nat)
    requires begin <= s <= end <= a.Length
    requires SortedBetween(a[..], s, end) && Below(a[..], begin, s, end)
    modifies a
    ensures var s' := if s > begin then s - 1 else begin;
      SortedBetween(a[..], s', end) && Below(a[..], begin, s', end)
    ensures multiset(a[..]) == multiset(old(a[..]))
    ensures SameOutside(a[..], old(a[..]), begin, end)
  {
    if begin == end {
      return;
    }
    var j := begin;
    while j < end - 1
      invariant PassInvariant(a[..], begin, end, s, j)
      invariant multiset(a[..]) == multiset(old(a[..]))
      invariant SameOutside(a[..], old(a[..]), begin, end)
    {
      CompareAdjacent(a, begin, end, s, j, old(a[..]));
      j := j + 1;
    }
    PassEnd(a[..], begin, end, s);
  }
}
