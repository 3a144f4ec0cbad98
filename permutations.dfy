// The standard library's lexicographic permutation steps as the library
// uses them: `std::prev_permutation` on bit vectors (Hamming-weight codes,
// tangent bases) and `std::next_permutation` on index arrays (subset
// permutations). Each is a function returning the rearranged sequence and
// whether the step did not wrap around.
module Permutations {
  import opened Binomial

  // ---------------------------------------------------------------------
  // Bit vectors and `std::prev_permutation`
  // ---------------------------------------------------------------------

  /** Number of set bits. */
  function Weight(s: seq<bool>): nat
  {
    if s == [] then 0 else (if s[0] then 1 else 0) + Weight(s[1..])
  }

  /** The largest arrangement of w set bits among n: the set bits first. */
  function OnesFirst(n: nat, w: nat): (s: seq<bool>)
    ensures |s| == n && forall i :: 0 <= i < n ==> (s[i] <==> i < w)
  {
    seq(n, i => i < w)
  }

  /** Lexicographic order on bit vectors of one length, `false` before `true`. */
  predicate LexLess(a: seq<bool>, b: seq<bool>)
  {
    |a| == |b| && |a| > 0 &&
    ((!a[0] && b[0]) || (a[0] == b[0] && LexLess(a[1..], b[1..])))
  }

  /**
   * `std::prev_permutation` on a bit vector, from the back: when the tail
   * still has a previous arrangement, the head is kept. Otherwise the tail
   * was ascending and has wrapped around to its set bits first. A set head
   * is then exchanged with the tail's last clear bit and the tail reversed:
   * the result is a clear bit followed by one more set bit than before in
   * front of the wrapped tail. Without a clear bit to exchange with, the
   * whole vector was ascending and wraps around too.
   */
  function PrevPermutation(s: seq<bool>): (seq<bool>, bool)
  {
    if s == [] then ([], false)
    else
      var (t, more) := PrevPermutation(s[1..]);
      if more then ([s[0]] + t, true)
      else if s[0] && false in t then ([false, true] + t[..|t| - 1], true)
      else if s[0] then ([true] + t, false)
      else (t + [false], false)
  }

  /** A step that the tail takes without wrapping keeps the head. */
  lemma PrevPermutationKeepsHead(b: bool, x: seq<bool>, y: seq<bool>)
    requires PrevPermutation(x) == (y, true)
    ensures PrevPermutation([b] + x) == ([b] + y, true)
  {
    assert ([b] + x)[1..] == x;
  }

  /** When the tail wraps, a set head moves one set bit into the tail. */
  lemma PrevPermutationCarries(x: seq<bool>, w: nat)
    requires PrevPermutation(x) == (OnesFirst(|x|, w), false) && w < |x|
    ensures PrevPermutation([true] + x) == ([false] + OnesFirst(|x|, w + 1), true)
  {
    assert ([true] + x)[1..] == x;
    var t := OnesFirst(|x|, w);
    assert t[|x| - 1] == false;
    assert false in t;
    OnesFirstShift(|x|, w);
  }

  /** Dropping the last clear bit and putting a clear and a set bit in front adds one set bit after the clear one. */
  lemma OnesFirstShift(n: nat, w: nat)
    requires w < n
    ensures [false, true] + OnesFirst(n, w)[..n - 1] == [false] + OnesFirst(n, w + 1)
  {
    var t, u := OnesFirst(n, w), OnesFirst(n, w + 1);
    forall i | 0 <= i < n ensures ([true] + t[..n - 1])[i] == u[i] {
      if i > 0 {
        assert ([true] + t[..n - 1])[i] == t[i - 1];
      }
    }
    assert [true] + t[..n - 1] == u;
    assert [false, true] + t[..n - 1] == [false] + ([true] + t[..n - 1]);
  }

  /** ... and otherwise the whole vector wraps around. */
  lemma PrevPermutationWraps(b: bool, x: seq<bool>, w: nat)
    requires PrevPermutation(x) == (OnesFirst(|x|, w), false) && w <= |x| && (b ==> w == |x|)
    ensures PrevPermutation([b] + x) == (OnesFirst(|x| + 1, if b then w + 1 else w), false)
  {
    assert ([b] + x)[1..] == x;
    var t := OnesFirst(|x|, w);
    if b {
      assert false !in t;
      assert [true] + t == OnesFirst(|x| + 1, w + 1);
    } else {
      assert t + [false] == OnesFirst(|x| + 1, w);
    }
  }

  /** How many of the vectors of length n >= 1 with w set bits start with a set bit. */
  function SetHeadCount(n: nat, w: nat): (c: nat)
    requires n > 0
    ensures c == if w == 0 then 0 else Choose(n - 1, w - 1)
    ensures Choose(n, w) == c + Choose(n - 1, w)
  {
    if w == 0 then 0 else Choose(n - 1, w - 1)
  }

  /**
   * The reference enumeration: entry k, for k < C(n, w), of the list of every
   * bit vector of length n with w set bits in decreasing lexicographic order
   * (those starting with a set bit first).
   */
  function Arrangement(n: nat, w: nat, k: nat): seq<bool>
  {
    if n == 0 then []
    else if k < SetHeadCount(n, w) then [true] + Arrangement(n - 1, w - 1, k)
    else [false] + Arrangement(n - 1, w, k - SetHeadCount(n, w))
  }

  lemma WeightCons(b: bool, x: seq<bool>)
    ensures Weight([b] + x) == (if b then 1 else 0) + Weight(x)
  {
    assert ([b] + x)[1..] == x;
  }

  /** Every listed arrangement has length n ... */
  lemma {:induction false} ArrangementLength(n: nat, w: nat, k: nat)
    ensures |Arrangement(n, w, k)| == n
  {
    if n > 0 {
      if k < SetHeadCount(n, w) {
        ArrangementLength(n - 1, w - 1, k);
      } else {
        ArrangementLength(n - 1, w, k - SetHeadCount(n, w));
      }
    }
  }

  /** ... and w set bits ... */
  lemma {:induction false} ArrangementWeight(n: nat, w: nat, k: nat)
    requires k < Choose(n, w)
    ensures Weight(Arrangement(n, w, k)) == w
  {
    if n > 0 {
      var h := SetHeadCount(n, w);
      if k < h {
        ArrangementWeight(n - 1, w - 1, k);
        WeightCons(true, Arrangement(n - 1, w - 1, k));
      } else {
        ArrangementWeight(n - 1, w, k - h);
        WeightCons(false, Arrangement(n - 1, w, k - h));
      }
    }
  }

  /** ... and every bit vector is listed among those of its length and weight. */
  lemma {:induction false} ArrangementIndex(s: seq<bool>) returns (k: nat)
    ensures k < Choose(|s|, Weight(s)) && Arrangement(|s|, Weight(s), k) == s
  {
    if s == [] {
      k := 0;
    } else {
      var n, x, w := |s|, s[1..], Weight(s);
      assert s == [s[0]] + x;
      WeightCons(s[0], x);
      var m := ArrangementIndex(x);
      if s[0] {
        k := m;
      } else {
        k := SetHeadCount(n, w) + m;
      }
    }
  }

  /** The list starts with the set bits first. */
  lemma {:induction false} ArrangementFirst(n: nat, w: nat)
    requires w <= n
    ensures 0 < Choose(n, w) && Arrangement(n, w, 0) == OnesFirst(n, w)
  {
    ChoosePositive(n, w);
    if n > 0 {
      if w == 0 {
        ArrangementFirst(n - 1, 0);
        assert Arrangement(n, w, 0) == [false] + OnesFirst(n - 1, 0);
      } else {
        ArrangementFirst(n - 1, w - 1);
        assert Arrangement(n, w, 0) == [true] + OnesFirst(n - 1, w - 1);
      }
    }
  }

  lemma {:induction false} LexLessAsymmetric(a: seq<bool>, b: seq<bool>)
    ensures LexLess(a, b) ==> !LexLess(b, a)
  {
    if LexLess(a, b) && a[0] == b[0] {
      LexLessAsymmetric(a[1..], b[1..]);
    }
  }

  /** The list is strictly decreasing, so no arrangement appears twice. */
  lemma {:induction false} ArrangementDecreasing(n: nat, w: nat, i: nat, j: nat)
    requires i < j < Choose(n, w)
    ensures LexLess(Arrangement(n, w, j), Arrangement(n, w, i))
  {
    var h := SetHeadCount(n, w);
    var a, b := Arrangement(n, w, i), Arrangement(n, w, j);
    if j < h {
      ArrangementDecreasing(n - 1, w - 1, i, j);
      assert a[1..] == Arrangement(n - 1, w - 1, i);
      assert b[1..] == Arrangement(n - 1, w - 1, j);
    } else if i >= h {
      ArrangementDecreasing(n - 1, w, i - h, j - h);
      assert a[1..] == Arrangement(n - 1, w, i - h);
      assert b[1..] == Arrangement(n - 1, w, j - h);
    } else {
      ArrangementLength(n, w, i);
      ArrangementLength(n, w, j);
    }
  }

  /**
   * `std::prev_permutation` walks the reference list: from entry k it goes
   * to entry k + 1 and reports that it did not wrap, and from the last entry
   * it wraps around to the first and reports false.
   */
  lemma {:induction false} PrevPermutationWalks(n: nat, w: nat, k: nat)
    requires k < Choose(n, w)
    ensures k + 1 < Choose(n, w) ==> PrevPermutation(Arrangement(n, w, k)) == (Arrangement(n, w, k + 1), true)
    ensures k + 1 == Choose(n, w) ==> PrevPermutation(Arrangement(n, w, k)) == (Arrangement(n, w, 0), false)
    decreases n, 2
  {
    if n > 0 {
      if k < SetHeadCount(n, w) {
        WalkSetHead(n, w, k);
      } else {
        WalkClearHead(n, w, k);
      }
    }
  }

  /** The step from an entry whose first bit is set. */
  lemma {:induction false} WalkSetHead(n: nat, w: nat, k: nat)
    requires n > 0 && k < SetHeadCount(n, w)
    ensures k + 1 < Choose(n, w) ==> PrevPermutation(Arrangement(n, w, k)) == (Arrangement(n, w, k + 1), true)
    ensures k + 1 == Choose(n, w) ==> PrevPermutation(Arrangement(n, w, k)) == (Arrangement(n, w, 0), false)
    decreases n, 1
  {
    var x := Arrangement(n - 1, w - 1, k);
    assert Arrangement(n, w, k) == [true] + x;
    if k + 1 < SetHeadCount(n, w) {
      var y := Arrangement(n - 1, w - 1, k + 1);
      assert PrevPermutation(x) == (y, true) by {
        PrevPermutationWalks(n - 1, w - 1, k);
      }
      assert Arrangement(n, w, k + 1) == [true] + y;
      PrevPermutationKeepsHead(true, x, y);
    } else {
      WalkSetHeadLast(n, w, k);
    }
  }

  /** The step from the last entry whose first bit is set. */
  lemma {:induction false} WalkSetHeadLast(n: nat, w: nat, k: nat)
    requires n > 0 && k + 1 == SetHeadCount(n, w)
    ensures k + 1 < Choose(n, w) ==> PrevPermutation(Arrangement(n, w, k)) == (Arrangement(n, w, k + 1), true)
    ensures k + 1 == Choose(n, w) ==> PrevPermutation(Arrangement(n, w, k)) == (Arrangement(n, w, 0), false)
    decreases n, 0
  {
    var x := Arrangement(n - 1, w - 1, k);
    assert Arrangement(n, w, k) == [true] + x;
    assert w <= n && |x| == n - 1 && PrevPermutation(x) == (OnesFirst(n - 1, w - 1), false) by {
      ChoosePositive(n - 1, w - 1);
      ArrangementLength(n - 1, w - 1, k);
      ArrangementFirst(n - 1, w - 1);
      PrevPermutationWalks(n - 1, w - 1, k);
    }
    if w < n {
      WalkSetHeadCarries(n, w, k);
    } else {
      WalkSetHeadWraps(n, w, k);
    }
  }

  /** With a clear bit left, the last entry with the first bit set steps to the first with it clear. */
  lemma WalkSetHeadCarries(n: nat, w: nat, k: nat)
    requires n > 0 && k + 1 == SetHeadCount(n, w) && w < n
    requires Arrangement(n, w, k) == [true] + Arrangement(n - 1, w - 1, k) && |Arrangement(n - 1, w - 1, k)| == n - 1
    requires PrevPermutation(Arrangement(n - 1, w - 1, k)) == (OnesFirst(n - 1, w - 1), false)
    ensures k + 1 < Choose(n, w) && PrevPermutation(Arrangement(n, w, k)) == (Arrangement(n, w, k + 1), true)
  {
    assert k + 1 < Choose(n, w) && Arrangement(n, w, k + 1) == [false] + OnesFirst(n - 1, w) by {
      ArrangementFirst(n - 1, w);
    }
    PrevPermutationCarries(Arrangement(n - 1, w - 1, k), w - 1);
  }

  /** With every bit set, the only entry steps back to the first one and reports false. */
  lemma WalkSetHeadWraps(n: nat, w: nat, k: nat)
    requires n > 0 && k + 1 == SetHeadCount(n, w) && w == n
    requires Arrangement(n, w, k) == [true] + Arrangement(n - 1, w - 1, k) && |Arrangement(n - 1, w - 1, k)| == n - 1
    requires PrevPermutation(Arrangement(n - 1, w - 1, k)) == (OnesFirst(n - 1, w - 1), false)
    ensures k + 1 == Choose(n, w) && PrevPermutation(Arrangement(n, w, k)) == (Arrangement(n, w, 0), false)
  {
    assert k + 1 == Choose(n, w) && Arrangement(n, w, 0) == OnesFirst(n, w) by {
      ChooseAboveIsZero(n - 1, w);
      ArrangementFirst(n, w);
    }
    PrevPermutationWraps(true, Arrangement(n - 1, w - 1, k), w - 1);
  }

  /** The step from an entry whose first bit is clear. */
  lemma {:induction false} WalkClearHead(n: nat, w: nat, k: nat)
    requires n > 0 && SetHeadCount(n, w) <= k < Choose(n, w)
    ensures k + 1 < Choose(n, w) ==> PrevPermutation(Arrangement(n, w, k)) == (Arrangement(n, w, k + 1), true)
    ensures k + 1 == Choose(n, w) ==> PrevPermutation(Arrangement(n, w, k)) == (Arrangement(n, w, 0), false)
    decreases n, 1
  {
    var j := k - SetHeadCount(n, w);
    var x := Arrangement(n - 1, w, j);
    assert Arrangement(n, w, k) == [false] + x;
    if k + 1 < Choose(n, w) {
      var y := Arrangement(n - 1, w, j + 1);
      assert PrevPermutation(x) == (y, true) by {
        PrevPermutationWalks(n - 1, w, j);
      }
      assert Arrangement(n, w, k + 1) == [false] + y;
      PrevPermutationKeepsHead(false, x, y);
    } else {
      WalkClearHeadWraps(n, w, k);
    }
  }

  /** From the last entry, whose first bit is clear, the walk wraps around to the first. */
  lemma {:induction false} WalkClearHeadWraps(n: nat, w: nat, k: nat)
    requires n > 0 && SetHeadCount(n, w) <= k && k + 1 == Choose(n, w)
    ensures PrevPermutation(Arrangement(n, w, k)) == (Arrangement(n, w, 0), false)
    decreases n, 0
  {
    var j := k - SetHeadCount(n, w);
    var x := Arrangement(n - 1, w, j);
    assert Arrangement(n, w, k) == [false] + x;
    assert w <= n - 1 && |x| == n - 1 && PrevPermutation(x) == (OnesFirst(n - 1, w), false) by {
      ChoosePositive(n - 1, w);
      ArrangementLength(n - 1, w, j);
      ArrangementFirst(n - 1, w);
      PrevPermutationWalks(n - 1, w, j);
    }
    assert Arrangement(n, w, 0) == OnesFirst(n, w) by {
      ArrangementFirst(n, w);
    }
    PrevPermutationWraps(false, x, w);
  }

  /** `std::prev_permutation` rearranges: it keeps the length and the number of set bits. */
  lemma PrevPermutationKeepsBits(s: seq<bool>)
    ensures |PrevPermutation(s).0| == |s| && Weight(PrevPermutation(s).0) == Weight(s)
  {
    var n, w := |s|, Weight(s);
    var k := ArrangementIndex(s);
    PrevPermutationWalks(n, w, k);
    var j := if k + 1 < Choose(n, w) then k + 1 else 0;
    ArrangementLength(n, w, j);
    ArrangementWeight(n, w, j);
  }

  /**
   * It reports false exactly on the smallest arrangement of the bits ...
   */
  lemma PrevPermutationWrapsOnSmallest(s: seq<bool>)
    ensures !PrevPermutation(s).1 <==> forall x :: |x| == |s| && Weight(x) == Weight(s) ==> !LexLess(x, s)
  {
    if PrevPermutation(s).1 {
      var r := PrevPermutation(s).0;
      PrevPermutationKeepsBits(s);
      PrevPermutationIsPredecessor(s, r);
    } else {
      var n, w := |s|, Weight(s);
      var k := ArrangementIndex(s);
      PrevPermutationWalks(n, w, k);
      forall x | |x| == n && Weight(x) == w
        ensures !LexLess(x, s)
      {
        NothingBelowLast(n, w, k, x);
      }
    }
  }

  lemma NothingBelowLast(n: nat, w: nat, k: nat, x: seq<bool>)
    requires k + 1 == Choose(n, w) && |x| == n && Weight(x) == w
    ensures !LexLess(x, Arrangement(n, w, k))
  {
    var m := ArrangementIndex(x);
    if m < k {
      ArrangementDecreasing(n, w, m, k);
      LexLessAsymmetric(Arrangement(n, w, k), x);
    } else {
      LexLessAsymmetric(x, x);
    }
  }

  /** ... which it turns into the largest one. */
  lemma PrevPermutationWrapsToLargest(s: seq<bool>)
    ensures !PrevPermutation(s).1 ==> PrevPermutation(s).0 == OnesFirst(|s|, Weight(s))
  {
    var n, w := |s|, Weight(s);
    var k := ArrangementIndex(s);
    PrevPermutationWalks(n, w, k);
    ChoosePositive(n, w);
    ArrangementFirst(n, w);
  }

  /**
   * Otherwise the result is smaller than s and no arrangement of the same
   * bits lies strictly between the two: it is the previous permutation.
   */
  lemma PrevPermutationIsPredecessor(s: seq<bool>, x: seq<bool>)
    requires PrevPermutation(s).1 && |x| == |s| && Weight(x) == Weight(s)
    ensures LexLess(PrevPermutation(s).0, s)
    ensures LexLess(x, s) ==> !LexLess(PrevPermutation(s).0, x)
  {
    var n, w := |s|, Weight(s);
    var r := PrevPermutation(s).0;
    var k := ArrangementIndex(s);
    PrevPermutationWalks(n, w, k);
    ArrangementDecreasing(n, w, k, k + 1);
    var m := ArrangementIndex(x);
    if m < k {
      ArrangementDecreasing(n, w, m, k);
      LexLessAsymmetric(x, s);
    } else if m == k {
      LexLessAsymmetric(s, s);
    } else if m == k + 1 {
      LexLessAsymmetric(r, r);
    } else {
      ArrangementDecreasing(n, w, k + 1, m);
      LexLessAsymmetric(x, r);
    }
  }

  // ---------------------------------------------------------------------
  // Index arrays and `std::next_permutation`
  // ---------------------------------------------------------------------

  /** Lexicographic order on index arrays of one length. */
  predicate LexBelow(a: seq<nat>, b: seq<nat>)
  {
    |a| == |b| && |a| > 0 && (a[0] < b[0] || (a[0] == b[0] && LexBelow(a[1..], b[1..])))
  }

  /** No entry is smaller than one after it: the largest arrangement of its values. */
  predicate NonIncreasing(s: seq<nat>)
  {
    forall i, j :: 0 <= i < j < |s| ==> s[i] >= s[j]
  }

  function Reverse(s: seq<nat>): (r: seq<nat>)
    ensures |r| == |s| && forall i :: 0 <= i < |s| ==> r[i] == s[|s| - 1 - i]
  {
    seq(|s|, i requires 0 <= i < |s| => s[|s| - 1 - i])
  }

  /** The position of the last entry of s above v, or -1 when there is none. */
  function LastAbove(s: seq<nat>, v: nat): (j: int)
    ensures -1 <= j < |s|
    ensures j >= 0 ==> s[j] > v
    ensures forall i :: j < i < |s| ==> s[i] <= v
  {
    if s == [] then -1
    else if s[|s| - 1] > v then |s| - 1
    else LastAbove(s[..|s| - 1], v)
  }

  /**
   * `std::next_permutation` on an index array, from the back: when the tail
   * still has a next arrangement, the head is kept. Otherwise the tail does
   * not increase anywhere; the head is exchanged with the tail's last entry
   * above it and the tail reversed. Without such an entry the whole array
   * does not increase anywhere and is reversed, which reports false.
   */
  function NextPermutation(s: seq<nat>): (seq<nat>, bool)
  {
    if |s| <= 1 then (s, false)
    else
      var (t, more) := NextPermutation(s[1..]);
      if more then ([s[0]] + t, true)
      else
        var j := LastAbove(s[1..], s[0]);
        if j >= 0 then ([s[1 + j]] + Reverse(s[1..][j := s[0]]), true)
        else (Reverse(s), false)
  }

  lemma {:induction false} ReverseMultiset(s: seq<nat>)
    ensures multiset(Reverse(s)) == multiset(s)
  {
    if s != [] {
      ReverseMultiset(s[1..]);
      assert Reverse(s) == Reverse(s[1..]) + [s[0]];
      assert s == [s[0]] + s[1..];
    }
  }

  /** `std::next_permutation` rearranges: it keeps the length and the values. */
  lemma {:induction false} NextPermutationRearranges(s: seq<nat>)
    ensures |NextPermutation(s).0| == |s| && multiset(NextPermutation(s).0) == multiset(s)
  {
    if |s| > 1 {
      var x := s[1..];
      NextPermutationRearranges(x);
      var j := LastAbove(x, s[0]);
      if NextPermutation(x).1 {
        assert s == [s[0]] + x;
      } else if j >= 0 {
        ExchangeMultiset(s, j);
      } else {
        ReverseMultiset(s);
      }
    }
  }

  /** Exchanging the head with tail entry j and reversing the tail keeps the values. */
  lemma ExchangeMultiset(s: seq<nat>, j: nat)
    requires j < |s| - 1
    ensures multiset([s[1 + j]] + Reverse(s[1..][j := s[0]])) == multiset(s)
  {
    var x := s[1..];
    var u := x[j := s[0]];
    ReverseMultiset(u);
    assert multiset(u) == multiset(x) - multiset{x[j]} + multiset{s[0]};
    assert s == [s[0]] + x;
  }

  /** It reports false exactly when s does not increase anywhere, and then sorts it ascending. */
  lemma {:induction false} NextPermutationWraps(s: seq<nat>)
    ensures !NextPermutation(s).1 <==> NonIncreasing(s)
    ensures !NextPermutation(s).1 ==> NextPermutation(s).0 == Reverse(s)
  {
    if |s| > 1 {
      var x := s[1..];
      NextPermutationWraps(x);
      var j := LastAbove(x, s[0]);
      if NextPermutation(x).1 {
        var i :| 0 <= i < |x| - 1 && x[i] < x[i + 1] by {
          NotNonIncreasing(x);
        }
        assert s[1 + i] < s[2 + i];
      } else if j >= 0 {
        assert s[0] < s[1 + j];
      } else {
        assert NonIncreasing(s);
      }
    } else {
      assert Reverse(s) == s;
    }
  }

  /** An array that is not non-increasing increases somewhere between neighbours. */
  lemma NotNonIncreasing(s: seq<nat>)
    requires !NonIncreasing(s)
    ensures exists i :: 0 <= i < |s| - 1 && s[i] < s[i + 1]
  {
    if forall i :: 0 <= i < |s| - 1 ==> s[i] >= s[i + 1] {
      forall i, j | 0 <= i < j < |s|
        ensures s[i] >= s[j]
      {
        var k := i;
        while k < j
          invariant i <= k <= j && s[i] >= s[k]
        {
          k := k + 1;
        }
      }
    }
  }

  /** When it does not wrap, the result is larger than s. */
  lemma {:induction false} NextPermutationGrows(s: seq<nat>)
    ensures NextPermutation(s).1 ==> LexBelow(s, NextPermutation(s).0)
  {
    if |s| > 1 {
      var x := s[1..];
      NextPermutationGrows(x);
      NextPermutationRearranges(x);
      var (t, more) := NextPermutation(x);
      if more {
        assert ([s[0]] + t)[1..] == t;
      }
    }
  }

  lemma {:induction false} LexBelowTransitive(a: seq<nat>, b: seq<nat>, c: seq<nat>)
    requires LexBelow(a, b) && LexBelow(b, c)
    ensures LexBelow(a, c)
  {
    if a[0] == b[0] && b[0] == c[0] {
      LexBelowTransitive(a[1..], b[1..], c[1..]);
    }
  }

  lemma {:induction false} LexBelowIrreflexive(a: seq<nat>)
    ensures !LexBelow(a, a)
  {
    if |a| > 0 {
      LexBelowIrreflexive(a[1..]);
    }
  }

  /** The values occurring in s. */
  function Values(s: seq<nat>): set<nat>
  {
    set i | 0 <= i < |s| :: s[i]
  }

  /** Every array of length n with entries among vals. */
  function Words(n: nat, vals: set<nat>): set<seq<nat>>
  {
    if n == 0 then {[]} else set v, x | v in vals && x in Words(n - 1, vals) :: [v] + x
  }

  lemma {:induction false} WordsContain(x: seq<nat>, vals: set<nat>)
    requires forall i :: 0 <= i < |x| ==> x[i] in vals
    ensures x in Words(|x|, vals)
  {
    if x != [] {
      WordsContain(x[1..], vals);
      assert x == [x[0]] + x[1..];
    }
  }

  /** The arrays over vals above s: what steps from s can still reach. */
  function Above(s: seq<nat>, vals: set<nat>): set<seq<nat>>
  {
    set x | x in Words(|s|, vals) && LexBelow(s, x)
  }

  /** A step that does not wrap keeps the values and leaves fewer arrays above. */
  lemma NextPermutationClimbs(s: seq<nat>)
    requires NextPermutation(s).1
    ensures Values(NextPermutation(s).0) == Values(s)
    ensures |Above(NextPermutation(s).0, Values(s))| < |Above(s, Values(s))|
  {
    var r, vals := NextPermutation(s).0, Values(s);
    NextPermutationRearranges(s);
    NextPermutationGrows(s);
    SameMultisetSameValues(s, r);
    WordsContain(r, vals);
    forall x | x in Above(r, vals)
      ensures x in Above(s, vals)
    {
      LexBelowTransitive(s, r, x);
    }
    LexBelowIrreflexive(r);
    assert r in Above(s, vals) - Above(r, vals);
    assert Above(s, vals) == Above(r, vals) + (Above(s, vals) - Above(r, vals));
  }

  lemma SameMultisetSameValues(s: seq<nat>, r: seq<nat>)
    requires multiset(r) == multiset(s)
    ensures Values(r) == Values(s)
  {
    forall v | v in Values(r)
      ensures v in Values(s)
    {
      var i :| 0 <= i < |r| && r[i] == v;
      assert v in multiset(s);
      var j :| 0 <= j < |s| && s[j] == v;
    }
    forall v | v in Values(s)
      ensures v in Values(r)
    {
      var i :| 0 <= i < |s| && s[i] == v;
      assert v in multiset(r);
      var j :| 0 <= j < |r| && r[j] == v;
    }
  }

  /**
   * The arrays `std::next_permutation` steps through from s until it reports
   * a wrap-around, s first.
   */
  function Orbit(s: seq<nat>): (o: seq<seq<nat>>)
    ensures |o| >= 1 && o[0] == s
    ensures forall k :: 0 <= k < |o| ==> |o[k]| == |s|
    decreases |Above(s, Values(s))|
  {
    var (r, more) := NextPermutation(s);
    if more then
      NextPermutationClimbs(s);
      NextPermutationRearranges(s);
      [s] + Orbit(r)
    else [s]
  }

  /** Consecutive entries of the orbit are one step apart, and the last one wraps. */
  lemma {:induction false} OrbitSteps(s: seq<nat>, k: nat)
    requires k < |Orbit(s)|
    ensures k + 1 < |Orbit(s)| ==> NextPermutation(Orbit(s)[k]) == (Orbit(s)[k + 1], true)
    ensures k + 1 == |Orbit(s)| ==> !NextPermutation(Orbit(s)[k]).1
    decreases |Above(s, Values(s))|
  {
    var (r, more) := NextPermutation(s);
    if more {
      NextPermutationClimbs(s);
      if k > 0 {
        OrbitSteps(r, k - 1);
      }
    }
  }

  /** Every entry of the orbit is a rearrangement of s ... */
  lemma {:induction false} OrbitRearranges(s: seq<nat>, k: nat)
    requires k < |Orbit(s)|
    ensures multiset(Orbit(s)[k]) == multiset(s)
    decreases |Above(s, Values(s))|
  {
    var (r, more) := NextPermutation(s);
    if more && k > 0 {
      NextPermutationClimbs(s);
      NextPermutationRearranges(s);
      OrbitRearranges(r, k - 1);
    }
  }

  /** ... the entries strictly increase, so none repeats ... */
  lemma {:induction false} OrbitIncreasing(s: seq<nat>, i: nat, j: nat)
    requires i < j < |Orbit(s)|
    ensures LexBelow(Orbit(s)[i], Orbit(s)[j])
    decreases j
  {
    var o := Orbit(s);
    OrbitSteps(s, j - 1);
    NextPermutationGrows(o[j - 1]);
    if i < j - 1 {
      OrbitIncreasing(s, i, j - 1);
      LexBelowTransitive(o[i], o[j - 1], o[j]);
    }
  }

  /** ... and the last one is the largest arrangement of the values. */
  lemma OrbitEndsLargest(s: seq<nat>)
    ensures NonIncreasing(Orbit(s)[|Orbit(s)| - 1])
  {
    OrbitSteps(s, |Orbit(s)| - 1);
    NextPermutationWraps(Orbit(s)[|Orbit(s)| - 1]);
  }
}
