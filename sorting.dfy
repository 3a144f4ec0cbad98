// `std::sort` on a local copy of an id array, as a pure function on
// sequences: the result is the unique ascending arrangement of the input's
// values.
module Sorting {
  import opened Signs

  /** Inserts x before the first element of s that is not smaller than it. */
  function Insert(x: nat, s: seq<nat>): seq<nat>
  {
    if s == [] || x <= s[0] then [x] + s else [s[0]] + Insert(x, s[1..])
  }

  /** The ascending rearrangement of s. */
  function SortIds(s: seq<nat>): seq<nat>
  {
    if s == [] then [] else Insert(s[0], SortIds(s[1..]))
  }

  lemma {:induction false} InsertMultiset(x: nat, s: seq<nat>)
    ensures multiset(Insert(x, s)) == multiset(s) + multiset{x}
  {
    if s != [] && x > s[0] {
      InsertMultiset(x, s[1..]);
      assert s == [s[0]] + s[1..];
    }
  }

  lemma {:induction false} InsertSorted(x: nat, s: seq<nat>)
    requires Sorted(s)
    ensures Sorted(Insert(x, s))
  {
    if s != [] && x > s[0] {
      InsertSorted(x, s[1..]);
      InsertMultiset(x, s[1..]);
      var t := Insert(x, s[1..]);
      forall k | 0 <= k < |t|
        ensures s[0] <= t[k]
      {
        assert t[k] in multiset(t);
        assert t[k] == x || t[k] in multiset(s[1..]);
        if t[k] != x {
          var q :| 0 <= q < |s[1..]| && s[1..][q] == t[k];
          assert s[q + 1] == t[k];
        }
      }
    }
  }

  /** The sorted copy holds the same values as s. */
  lemma {:induction false} SortIdsMultiset(s: seq<nat>)
    ensures multiset(SortIds(s)) == multiset(s)
  {
    if s != [] {
      SortIdsMultiset(s[1..]);
      InsertMultiset(s[0], SortIds(s[1..]));
      assert s == [s[0]] + s[1..];
    }
  }

  /** The sorted copy is ascending. */
  lemma {:induction false} SortIdsSorted(s: seq<nat>)
    ensures Sorted(SortIds(s))
  {
    if s != [] {
      SortIdsSorted(s[1..]);
      InsertSorted(s[0], SortIds(s[1..]));
    }
  }

  /** The first element of an ascending sequence is at most each of its values. */
  lemma FirstIsLeast(s: seq<nat>, x: nat)
    requires Sorted(s) && x in multiset(s)
    ensures s[0] <= x
  {
    var q :| 0 <= q < |s| && s[q] == x;
    assert s[0] <= s[q];
  }

  /** Equal first elements and equal values leave equal values behind them. */
  lemma TailsSameValues(s: seq<nat>, t: seq<nat>)
    requires s != [] && t != [] && s[0] == t[0] && multiset(s) == multiset(t)
    ensures multiset(s[1..]) == multiset(t[1..])
  {
    assert s == [s[0]] + s[1..];
    assert t == [t[0]] + t[1..];
    assert multiset(s) == multiset{s[0]} + multiset(s[1..]);
    assert multiset(t) == multiset{s[0]} + multiset(t[1..]);
    forall x
      ensures multiset(s[1..])[x] == multiset(t[1..])[x]
    {
      assert multiset(s)[x] == multiset{s[0]}[x] + multiset(s[1..])[x];
      assert multiset(t)[x] == multiset{s[0]}[x] + multiset(t[1..])[x];
    }
  }

  lemma SortedTail(s: seq<nat>)
    requires s != [] && Sorted(s)
    ensures Sorted(s[1..])
  {
    forall i, j | 0 <= i < j < |s| - 1
      ensures s[1..][i] <= s[1..][j]
    {
      assert s[1..][i] == s[i + 1] && s[1..][j] == s[j + 1];
    }
  }

  lemma ConsEqual(s: seq<nat>, t: seq<nat>)
    requires s != [] && t != [] && s[0] == t[0] && s[1..] == t[1..]
    ensures s == t
  {
    assert s == [s[0]] + s[1..];
    assert t == [t[0]] + t[1..];
  }

  /** Two ascending sequences with the same values are equal. */
  lemma {:induction false} SortedUnique(s: seq<nat>, t: seq<nat>)
    requires Sorted(s) && Sorted(t) && multiset(s) == multiset(t)
    ensures s == t
    decreases |s|
  {
    assert |t| == |s| by {
      assert |multiset(t)| == |t| && |multiset(s)| == |s|;
    }
    if s != [] {
      assert s[0] in multiset(t) && t[0] in multiset(s);
      FirstIsLeast(s, t[0]);
      FirstIsLeast(t, s[0]);
      TailsSameValues(s, t);
      SortedTail(s);
      SortedTail(t);
      SortedUnique(s[1..], t[1..]);
      ConsEqual(s, t);
    }
  }

  /** The sorted copy depends only on the values of s, not on their order. */
  lemma SortIdsDependsOnValues(s: seq<nat>, t: seq<nat>)
    requires multiset(s) == multiset(t)
    ensures SortIds(s) == SortIds(t)
  {
    SortIdsSorted(s);
    SortIdsSorted(t);
    SortIdsMultiset(s);
    SortIdsMultiset(t);
    SortedUnique(SortIds(s), SortIds(t));
  }

  /** Every value of the sorted copy is a value of s, and conversely. */
  lemma SortIdsValues(s: seq<nat>)
    ensures |SortIds(s)| == |s|
    ensures forall x :: x in SortIds(s) <==> x in s
  {
    SortIdsMultiset(s);
    assert |multiset(SortIds(s))| == |SortIds(s)| && |multiset(s)| == |s|;
    forall x
      ensures x in SortIds(s) <==> x in s
    {
      assert x in SortIds(s) <==> x in multiset(SortIds(s));
      assert x in s <==> x in multiset(s);
    }
  }

  /** A value followed by distinct values none equal to it is distinct. */
  lemma ConsDistinct(y: nat, u: seq<nat>)
    requires Distinct(u) && y !in u
    ensures Distinct([y] + u)
  {
    var t := [y] + u;
    forall i, j | 0 <= i < j < |t|
      ensures t[i] != t[j]
    {
      assert t[j] == u[j - 1];
      if i > 0 {
        assert t[i] == u[i - 1];
      }
    }
  }

  /** The tail of distinct values is distinct and does not hold the head. */
  lemma DistinctTail(s: seq<nat>)
    requires s != [] && Distinct(s)
    ensures Distinct(s[1..]) && s[0] !in s[1..]
  {
    forall i, j | 0 <= i < j < |s| - 1
      ensures s[1..][i] != s[1..][j]
    {
      assert s[1..][i] == s[i + 1] && s[1..][j] == s[j + 1];
    }
    forall k | 0 <= k < |s| - 1
      ensures s[1..][k] != s[0]
    {
      assert s[1..][k] == s[k + 1];
    }
  }

  lemma {:induction false} InsertDistinct(x: nat, t: seq<nat>)
    requires Distinct(t) && x !in t
    ensures Distinct(Insert(x, t))
  {
    if t == [] || x <= t[0] {
      ConsDistinct(x, t);
    } else {
      DistinctTail(t);
      InsertDistinct(x, t[1..]);
      InsertMultiset(x, t[1..]);
      assert t[0] !in multiset(Insert(x, t[1..]));
      ConsDistinct(t[0], Insert(x, t[1..]));
    }
  }

  /** Sorting distinct ids gives distinct ids. */
  lemma {:induction false} SortIdsDistinct(s: seq<nat>)
    requires Distinct(s)
    ensures Distinct(SortIds(s))
  {
    if s != [] {
      DistinctTail(s);
      SortIdsDistinct(s[1..]);
      SortIdsValues(s[1..]);
      InsertDistinct(s[0], SortIds(s[1..]));
    }
  }
}
