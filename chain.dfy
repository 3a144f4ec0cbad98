// `sil::exterior::Chain`: a formal sum of oriented simplices kept as a
// vector of simplices. The constructors assert that no simplex appears
// twice; `optimize` erases, pair by pair, a simplex together with the first
// later simplex that is its negation; the arithmetic operators build new
// chains by value.
module Chains {
  import opened Misc
  import opened Simplices

  /** No simplex appears twice: what `check() == 0` tests. */
  predicate NoDuplicates(s: seq<Simplex>)
  {
    forall i, j :: 0 <= i < j < |s| ==> s[i] != s[j]
  }

  predicate AllWellFormed(s: seq<Simplex>)
  {
    forall i :: 0 <= i < |s| ==> WellFormed(s[i])
  }

  /** No simplex is followed by its own negation. */
  predicate CancellationFree(s: seq<Simplex>)
  {
    forall p, q :: 0 <= p < q < |s| ==> s[p] != Flipped(s[q])
  }

  /** `vector::erase` of position k. */
  function Erase(s: seq<Simplex>, k: nat): (r: seq<Simplex>)
    requires k < |s|
    ensures |r| == |s| - 1
    ensures forall m :: 0 <= m < |r| ==> r[m] == if m < k then s[m] else s[m + 1]
  {
    s[..k] + s[k + 1..]
  }

  /** The chain with positions i < k erased: `erase(k)` then `erase(i)`. */
  function RemovePair(s: seq<Simplex>, i: nat, k: nat): (r: seq<Simplex>)
    requires i < k < |s|
    ensures |r| == |s| - 2
    ensures forall m :: 0 <= m < |r| ==> r[m] == if m < i then s[m] else if m < k - 1 then s[m + 1] else s[m + 2]
  {
    Erase(Erase(s, k), i)
  }

  /** The first position from j on holding the negation of s[i], |s| when there is none. */
  function FirstCancel(s: seq<Simplex>, i: nat, j: nat): (k: nat)
    requires i < |s| && j <= |s|
    ensures j <= k <= |s|
    ensures k < |s| ==> s[i] == Flipped(s[k])
    ensures forall m :: j <= m < k ==> s[i] != Flipped(s[m])
    decreases |s| - j
  {
    if j == |s| || s[i] == Flipped(s[j]) then j else FirstCancel(s, i, j + 1)
  }

  /**
   * The loop of `optimize` from position i on: while i is before the last
   * simplex, erase s[i] and the first later simplex cancelling it and stay
   * at i, or move on when there is none.
   */
  function OptimizeFrom(s: seq<Simplex>, i: nat): seq<Simplex>
    decreases |s|, |s| - i
  {
    if i + 1 >= |s| then s
    else
      var k := FirstCancel(s, i, i + 1);
      if k < |s| then OptimizeFrom(RemovePair(s, i, k), i) else OptimizeFrom(s, i + 1)
  }

  function Optimized(s: seq<Simplex>): seq<Simplex>
  {
    OptimizeFrom(s, 0)
  }

  /** The signed number of times x occurs: copies of x minus copies of its negation. */
  function Coefficient(s: seq<Simplex>, x: Simplex): int
  {
    (multiset(s)[x] as int) - multiset(s)[Flipped(x)]
  }

  class Chain {
    var simplices: seq<Simplex>

    predicate Valid()
      reads this
    {
      AllWellFormed(simplices) && NoDuplicates(simplices)
    }

    /** `Chain()`: the empty chain. */
    constructor Empty()
      ensures simplices == [] && Valid()
    {
      simplices := [];
    }

    /** `Chain(simplices)`: asserts that no simplex appears twice. */
    constructor (s: seq<Simplex>)
      requires AllWellFormed(s) && NoDuplicates(s)
      ensures simplices == s && Valid()
    {
      simplices := s;
    }

    method Size() returns (n: nat)
      ensures n == |simplices|
    {
      n := |simplices|;
    }

    /** `check`: -1 when two positions hold the same simplex, 0 otherwise. */
    method Check() returns (r: int)
      ensures r == 0 || r == -1
      ensures r == 0 <==> NoDuplicates(simplices)
    {
      var i := 0;
      while i + 1 < |simplices|
        invariant forall p, q :: 0 <= p < q < |simplices| && p < i ==> simplices[p] != simplices[q]
      {
        var j := i + 1;
        while j < |simplices|
          invariant i < j <= |simplices|
          invariant forall q :: i < q < j ==> simplices[i] != simplices[q]
        {
          if simplices[i] == simplices[j] {
            return -1;
          }
          j := j + 1;
        }
        i := i + 1;
      }
      return 0;
    }

    /** `push_back`: appends without checking for duplicates. */
    method PushBack(s: Simplex)
      modifies this
      ensures simplices == old(simplices) + [s]
    {
      simplices := simplices + [s];
    }

    /**
     * `optimize`: the pairwise cancellation loop; its closing assertion
     * demands that the result holds no duplicate.
     */
    method Optimize()
      modifies this
      requires AllWellFormed(simplices) && NoDuplicates(Optimized(simplices))
      ensures simplices == Optimized(old(simplices))
      ensures NoDuplicates(simplices) && CancellationFree(simplices)
    {
      var s := simplices;
      ghost var target := Optimized(s);
      OptimizedSettles(s);
      var i := 0;
      while i + 1 < |s|
        invariant AllWellFormed(s)
        invariant OptimizeFrom(s, i) == target
        decreases |s|, |s| - i
      {
        var k := i;
        var j := i + 1;
        while k == i && j < |s|
          invariant i + 1 <= j <= |s|
          invariant FirstCancel(s, i, i + 1) == if k == i then FirstCancel(s, i, j) else k
          invariant k == i || k < |s|
          decreases |s| - j
        {
          FirstCancelStep(s, i, j);
          if Equals(s[i], Negate(s[j])) {
            k := j;
          }
          j := j + 1;
        }
        if k != i {
          OptimizeFromErases(s, i, k);
          s := Erase(Erase(s, k), i);
        } else {
          OptimizeFromSkips(s, i);
          i := i + 1;
        }
      }
      assert OptimizeFrom(s, i) == s;
      simplices := s;
    }
  }

  lemma FirstCancelStep(s: seq<Simplex>, i: nat, j: nat)
    requires i < |s| && j < |s|
    ensures FirstCancel(s, i, j) == if s[i] == Flipped(s[j]) then j else FirstCancel(s, i, j + 1)
  {
  }

  lemma OptimizeFromErases(s: seq<Simplex>, i: nat, k: nat)
    requires i < k < |s| && k == FirstCancel(s, i, i + 1) && AllWellFormed(s)
    ensures OptimizeFrom(Erase(Erase(s, k), i), i) == OptimizeFrom(s, i)
    ensures AllWellFormed(Erase(Erase(s, k), i))
  {
  }

  lemma OptimizeFromSkips(s: seq<Simplex>, i: nat)
    requires i + 1 < |s| && FirstCancel(s, i, i + 1) == |s|
    ensures OptimizeFrom(s, i + 1) == OptimizeFrom(s, i)
  {
  }

  // -----------------------------------------------------------------------
  // What `optimize` achieves.
  // -----------------------------------------------------------------------

  /** No simplex before position i is followed by its negation. */
  predicate SettledBefore(s: seq<Simplex>, i: nat)
  {
    forall p, q :: 0 <= p < q < |s| && p < i ==> s[p] != Flipped(s[q])
  }

  lemma {:induction false} OptimizeFromSettles(s: seq<Simplex>, i: nat)
    requires SettledBefore(s, i)
    ensures CancellationFree(OptimizeFrom(s, i))
    decreases |s|, |s| - i
  {
    if i + 1 < |s| {
      var k := FirstCancel(s, i, i + 1);
      if k < |s| {
        RemovePairSettled(s, i, k);
        OptimizeFromSettles(RemovePair(s, i, k), i);
      } else {
        assert SettledBefore(s, i + 1);
        OptimizeFromSettles(s, i + 1);
      }
    }
  }

  lemma RemovePairSettled(s: seq<Simplex>, i: nat, k: nat)
    requires i < k < |s| && SettledBefore(s, i)
    ensures SettledBefore(RemovePair(s, i, k), i)
  {
    var r := RemovePair(s, i, k);
    forall p, q | 0 <= p < q < |r| && p < i ensures r[p] != Flipped(r[q]) {
      var q' := if q < i then q else if q < k - 1 then q + 1 else q + 2;
      assert r[p] == s[p] && r[q] == s[q'] && p < q';
    }
  }

  /** After `optimize` no simplex is followed by its negation. */
  lemma OptimizedSettles(s: seq<Simplex>)
    ensures CancellationFree(Optimized(s))
  {
    OptimizeFromSettles(s, 0);
  }

  /** Erasing a cancelling pair leaves every coefficient of the formal sum as it was. */
  lemma RemovePairKeepsCoefficients(s: seq<Simplex>, i: nat, k: nat, x: Simplex)
    requires i < k < |s| && s[i] == Flipped(s[k])
    ensures Coefficient(RemovePair(s, i, k), x) == Coefficient(s, x)
    ensures multiset(RemovePair(s, i, k)) <= multiset(s)
  {
    var e := Erase(s, k);
    EraseMultiset(s, k);
    EraseMultiset(e, i);
    assert e[i] == s[i];
  }

  lemma EraseMultiset(s: seq<Simplex>, k: nat)
    requires k < |s|
    ensures multiset(s) == multiset(Erase(s, k)) + multiset{s[k]}
  {
    assert s == s[..k] + [s[k]] + s[k + 1..];
  }

  lemma {:induction false} OptimizeFromKeepsCoefficients(s: seq<Simplex>, i: nat, x: Simplex)
    ensures Coefficient(OptimizeFrom(s, i), x) == Coefficient(s, x)
    ensures multiset(OptimizeFrom(s, i)) <= multiset(s)
    decreases |s|, |s| - i
  {
    if i + 1 < |s| {
      var k := FirstCancel(s, i, i + 1);
      if k < |s| {
        RemovePairKeepsCoefficients(s, i, k, x);
        OptimizeFromKeepsCoefficients(RemovePair(s, i, k), i, x);
      } else {
        OptimizeFromKeepsCoefficients(s, i + 1, x);
      }
    }
  }

  /**
   * `optimize` changes the chain only by dropping cancelling pairs: every
   * simplex keeps its signed count, and nothing new appears.
   */
  lemma OptimizedKeepsCoefficients(s: seq<Simplex>, x: Simplex)
    ensures Coefficient(Optimized(s), x) == Coefficient(s, x)
    ensures multiset(Optimized(s)) <= multiset(s)
  {
    OptimizeFromKeepsCoefficients(s, 0, x);
  }

  lemma RemovePairKeepsDistinct(s: seq<Simplex>, i: nat, k: nat)
    requires i < k < |s| && NoDuplicates(s)
    ensures NoDuplicates(RemovePair(s, i, k))
  {
    var r := RemovePair(s, i, k);
    forall p, q | 0 <= p < q < |r| ensures r[p] != r[q] {
      var p' := if p < i then p else if p < k - 1 then p + 1 else p + 2;
      var q' := if q < i then q else if q < k - 1 then q + 1 else q + 2;
      assert r[p] == s[p'] && r[q] == s[q'] && p' < q';
    }
  }

  lemma {:induction false} OptimizeFromKeepsDistinct(s: seq<Simplex>, i: nat)
    requires NoDuplicates(s)
    ensures NoDuplicates(OptimizeFrom(s, i))
    decreases |s|, |s| - i
  {
    if i + 1 < |s| {
      var k := FirstCancel(s, i, i + 1);
      if k < |s| {
        RemovePairKeepsDistinct(s, i, k);
        OptimizeFromKeepsDistinct(RemovePair(s, i, k), i);
      } else {
        OptimizeFromKeepsDistinct(s, i + 1);
      }
    }
  }

  /** A chain without duplicates satisfies the closing assertion of `optimize`. */
  lemma OptimizedKeepsDistinct(s: seq<Simplex>)
    requires NoDuplicates(s)
    ensures NoDuplicates(Optimized(s))
  {
    OptimizeFromKeepsDistinct(s, 0);
  }

  /** Every simplex comes with its negation. */
  predicate NegationClosed(s: seq<Simplex>)
  {
    forall x :: x in s ==> Flipped(x) in s
  }

  lemma RemovePairKeepsPairing(s: seq<Simplex>, k: nat)
    requires 0 < k < |s| && NoDuplicates(s) && NegationClosed(s) && s[0] == Flipped(s[k])
    ensures NegationClosed(RemovePair(s, 0, k))
  {
    var r := RemovePair(s, 0, k);
    forall m | 0 <= m < |r| ensures Flipped(r[m]) in r {
      RemovePairPartner(s, k, m);
    }
  }

  lemma RemovePairPartner(s: seq<Simplex>, k: nat, m: nat)
    requires 0 < k < |s| && NoDuplicates(s) && NegationClosed(s) && s[0] == Flipped(s[k])
    requires m < |s| - 2
    ensures Flipped(RemovePair(s, 0, k)[m]) in RemovePair(s, 0, k)
  {
    var r := RemovePair(s, 0, k);
    var m' := if m < k - 1 then m + 1 else m + 2;
    assert r[m] == s[m'] && m' != 0 && m' != k;
    var n := PartnerIndex(s, m');
    assert n != 0 && n != k;
    var n' := if n < k then n - 1 else n - 2;
    assert r[n'] == s[n];
  }

  /** Where the negation of s[m] sits in a negation-closed chain. */
  lemma PartnerIndex(s: seq<Simplex>, m: nat) returns (n: nat)
    requires NegationClosed(s) && m < |s|
    ensures n < |s| && s[n] == Flipped(s[m])
  {
    assert s[m] in s;
    n :| 0 <= n < |s| && s[n] == Flipped(s[m]);
  }

  /**
   * A chain without duplicates in which every simplex comes with its
   * negation optimizes to the empty chain.
   */
  lemma {:induction false} OptimizedPairedIsEmpty(s: seq<Simplex>)
    requires NoDuplicates(s) && NegationClosed(s)
    ensures Optimized(s) == []
    decreases |s|
  {
    if s != [] {
      assert Flipped(s[0]) in s;
      var n :| 0 <= n < |s| && s[n] == Flipped(s[0]);
      assert n != 0;
      var k := FirstCancel(s, 0, 1);
      assert k < |s|;
      RemovePairKeepsDistinct(s, 0, k);
      RemovePairKeepsPairing(s, k);
      OptimizedPairedIsEmpty(RemovePair(s, 0, k));
    }
  }

  /** The cancellation example: A + B + C - A - D optimizes to B + C - D. */
  lemma OptimizationExample()
    ensures Optimized([
        Simplex([0, 0, 0, 0], [0, 1, 1, 0], false), Simplex([0, 1, 0, 0], [0, 1, 1, 0], true),
        Simplex([1, 0, 0, 0], [0, 1, 1, 0], true), Simplex([0, 0, 0, 0], [0, 1, 1, 0], true),
        Simplex([0, 0, 0, 1], [0, 1, 1, 0], true)])
      == [Simplex([0, 1, 0, 0], [0, 1, 1, 0], true), Simplex([1, 0, 0, 0], [0, 1, 1, 0], true),
          Simplex([0, 0, 0, 1], [0, 1, 1, 0], true)]
  {
    var s := [
        Simplex([0, 0, 0, 0], [0, 1, 1, 0], false), Simplex([0, 1, 0, 0], [0, 1, 1, 0], true),
        Simplex([1, 0, 0, 0], [0, 1, 1, 0], true), Simplex([0, 0, 0, 0], [0, 1, 1, 0], true),
        Simplex([0, 0, 0, 1], [0, 1, 1, 0], true)];
    assert FirstCancel(s, 0, 1) == 3;
    var r := RemovePair(s, 0, 3);
    assert r == [s[1], s[2], s[4]];
    assert FirstCancel(r, 0, 1) == 3;
    assert FirstCancel(r, 1, 2) == 3;
  }

  // -----------------------------------------------------------------------
  // The arithmetic operators, on the vector of simplices of a chain. Each
  // result goes through the constructor, whose assertion is modelled as None.
  // -----------------------------------------------------------------------

  /** The chain with every simplex negated. */
  function FlippedAll(c: seq<Simplex>): (r: seq<Simplex>)
    ensures |r| == |c| && forall i :: 0 <= i < |c| ==> r[i] == Flipped(c[i])
  {
    seq(|c|, i requires 0 <= i < |c| => Flipped(c[i]))
  }

  /** Negating every simplex neither creates nor removes duplicates. */
  lemma FlippedAllKeepsDistinct(c: seq<Simplex>)
    ensures NoDuplicates(FlippedAll(c)) <==> NoDuplicates(c)
  {
    var r := FlippedAll(c);
    assert forall i, j :: 0 <= i < j < |c| ==> (r[i] == r[j] <==> c[i] == c[j]);
  }

  lemma {:induction false} FlippedAllCounts(c: seq<Simplex>, x: Simplex)
    ensures multiset(FlippedAll(c))[x] == multiset(c)[Flipped(x)]
    decreases |c|
  {
    if c != [] {
      var l := c[..|c| - 1];
      FlippedAllCounts(l, x);
      assert c == l + [c[|c| - 1]];
      assert FlippedAll(c) == FlippedAll(l) + [Flipped(c[|c| - 1])];
    }
  }

  /** The negated chain has the opposite coefficient on every simplex. */
  lemma FlippedAllCoefficients(c: seq<Simplex>, x: Simplex)
    ensures Coefficient(FlippedAll(c), x) == -Coefficient(c, x)
  {
    FlippedAllCounts(c, x);
    FlippedAllCounts(c, Flipped(x));
    assert Flipped(Flipped(x)) == x;
  }

  /** `operator-()`: the loop negating a copy of the simplices, then the constructor. */
  method NegateChain(c: seq<Simplex>) returns (r: Option<seq<Simplex>>)
    requires AllWellFormed(c)
    ensures r.Some? <==> NoDuplicates(c)
    ensures r.Some? ==> r.value == FlippedAll(c)
  {
    var simplices := c;
    for i := 0 to |c|
      invariant |simplices| == |c|
      invariant forall m :: 0 <= m < i ==> simplices[m] == Flipped(c[m])
      invariant forall m :: i <= m < |c| ==> simplices[m] == c[m]
    {
      simplices := simplices[i := Negate(simplices[i])];
    }
    assert simplices == FlippedAll(c);
    FlippedAllKeepsDistinct(c);
    if NoDuplicates(simplices) {
      r := Some(simplices);
    } else {
      r := None;
    }
  }

  /** A concatenation has no duplicate exactly when neither part has one and no simplex is in both. */
  lemma ConcatDistinct(c: seq<Simplex>, d: seq<Simplex>)
    ensures NoDuplicates(c + d) <==> NoDuplicates(c) && NoDuplicates(d) && forall x :: x in c ==> x !in d
  {
    var s := c + d;
    if NoDuplicates(s) {
      forall i, j | 0 <= i < |c| && 0 <= j < |d| ensures c[i] != d[j] {
        assert s[i] == c[i] && s[|c| + j] == d[j];
      }
      forall i, j | 0 <= i < j < |d| ensures d[i] != d[j] {
        assert s[|c| + i] == d[i] && s[|c| + j] == d[j];
      }
      forall i, j | 0 <= i < j < |c| ensures c[i] != c[j] {
        assert s[i] == c[i] && s[j] == c[j];
      }
    }
    if NoDuplicates(c) && NoDuplicates(d) && forall x :: x in c ==> x !in d {
      forall i, j | 0 <= i < j < |s| ensures s[i] != s[j] {
        if i < |c| && j >= |c| {
          assert s[i] in c && s[j] == d[j - |c|];
        } else if i >= |c| {
          assert s[i] == d[i - |c|] && s[j] == d[j - |c|];
        }
      }
    }
  }

  /** `operator+(simplex)`: the simplex appended, accepted when it does not occur already. */
  function PlusSimplex(c: seq<Simplex>, s: Simplex): (r: Option<seq<Simplex>>)
    ensures NoDuplicates(c) ==> (r.Some? <==> s !in c)
    ensures r.Some? ==> NoDuplicates(r.value) && multiset(r.value) == multiset(c) + multiset{s}
  {
    var simplices := c + [s];
    ConcatDistinct(c, [s]);
    if NoDuplicates(simplices) then Some(simplices) else None
  }

  /** `operator+(chain)`: the other chain's simplices appended, accepted when no simplex occurs twice. */
  function PlusChain(c: seq<Simplex>, d: seq<Simplex>): (r: Option<seq<Simplex>>)
    ensures NoDuplicates(c) && NoDuplicates(d) ==> (r.Some? <==> forall x :: x in c ==> x !in d)
    ensures r.Some? ==> NoDuplicates(r.value) && forall x :: Coefficient(r.value, x) == Coefficient(c, x) + Coefficient(d, x)
  {
    var simplices := c + d;
    assert multiset(simplices) == multiset(c) + multiset(d);
    ConcatDistinct(c, d);
    if NoDuplicates(simplices) then Some(simplices) else None
  }

  /** `operator-(simplex)`: adds the negated simplex. */
  function MinusSimplex(c: seq<Simplex>, s: Simplex): (r: Option<seq<Simplex>>)
    requires WellFormed(s)
    ensures NoDuplicates(c) ==> (r.Some? <==> Flipped(s) !in c)
    ensures r.Some? ==> multiset(r.value) == multiset(c) + multiset{Flipped(s)}
  {
    PlusSimplex(c, Negate(s))
  }

  /** `operator-(chain)`: adds the negated chain; either constructor may reject. */
  method MinusChain(c: seq<Simplex>, d: seq<Simplex>) returns (r: Option<seq<Simplex>>)
    requires AllWellFormed(d)
    ensures r.Some? ==> NoDuplicates(d) && r.value == c + FlippedAll(d)
    ensures r.Some? ==> forall x :: Coefficient(r.value, x) == Coefficient(c, x) - Coefficient(d, x)
    ensures NoDuplicates(c) && NoDuplicates(d) ==> (r.Some? <==> forall x :: x in c ==> Flipped(x) !in d)
  {
    var negated := NegateChain(d);
    if negated.None? {
      return None;
    }
    forall x ensures Coefficient(negated.value, x) == -Coefficient(d, x) {
      FlippedAllCoefficients(d, x);
    }
    r := PlusChain(c, negated.value);
    if NoDuplicates(c) {
      forall x | x in c ensures x in negated.value <==> Flipped(x) in d {
        if x in negated.value {
          var i :| 0 <= i < |d| && negated.value[i] == x;
          assert Flipped(x) == d[i];
        }
        if Flipped(x) in d {
          var i :| 0 <= i < |d| && d[i] == Flipped(x);
          assert negated.value[i] == x;
        }
      }
    }
  }

  /** `operator*`: 1 keeps the chain, -1 negates it, any other factor fails the assertion. */
  method Times(c: seq<Simplex>, t: int) returns (r: Option<seq<Simplex>>)
    requires AllWellFormed(c)
    ensures t == 1 ==> r == Some(c)
    ensures t == -1 ==> (r.Some? <==> NoDuplicates(c)) && (r.Some? ==> forall x :: Coefficient(r.value, x) == -Coefficient(c, x))
    ensures t != 1 && t != -1 ==> r.None?
  {
    if t == 1 {
      r := Some(c);
    } else if t == -1 {
      r := NegateChain(c);
      forall x ensures Coefficient(FlippedAll(c), x) == -Coefficient(c, x) {
        FlippedAllCoefficients(c, x);
      }
    } else {
      r := None;
    }
  }

  // -----------------------------------------------------------------------
  // `operator==`
  // -----------------------------------------------------------------------

  /** What `operator==` computes: the argument is a prefix of the chain. */
  predicate PrefixEqual(c: seq<Simplex>, d: seq<Simplex>)
    requires |d| <= |c|
  {
    d == c[..|d|]
  }

  /**
   * `operator==` as written: walks the ARGUMENT's simplices only, comparing
   * each with the chain's simplex at the same position. An argument longer
   * than the chain is read past the chain's end.
   */
  method EqualsAsWritten(c: seq<Simplex>, d: seq<Simplex>) returns (r: bool)
    requires |d| <= |c|
    ensures r <==> PrefixEqual(c, d)
  {
    for i := 0 to |d|
      invariant d[..i] == c[..i]
    {
      if d[i] != c[i] {
        return false;
      }
    }
    return true;
  }

  /** The as-written comparison calls every chain, nonempty ones included, equal to the empty chain. */
  lemma EqualsAsWrittenAcceptsEmpty(c: seq<Simplex>)
    ensures PrefixEqual(c, [])
  {
  }

  /** Chain equality: the same simplices in the same order. */
  method ChainEquals(c: seq<Simplex>, d: seq<Simplex>) returns (r: bool)
    ensures r <==> c == d
  {
    if |c| != |d| {
      return false;
    }
    r := EqualsAsWritten(c, d);
  }
}
