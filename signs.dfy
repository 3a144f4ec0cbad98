// Inversion counts and the sign of a sequence of distinct values: the
// reference meaning of "parity" for every parity computation in the library.
module Signs {

  /** Number of elements of s strictly smaller than x. */
  function CountLess(x: int, s: seq<int>): nat
  {
    if s == [] then 0 else (if s[0] < x then 1 else 0) + CountLess(x, s[1..])
  }

  /** Number of pairs i < j with s[i] > s[j]. */
  function Inversions(s: seq<int>): nat
  {
    if s == [] then 0 else CountLess(s[0], s[1..]) + Inversions(s[1..])
  }

  /** +1 for an even number of inversions, -1 for an odd one. */
  function Sign(s: seq<int>): (r: int)
    ensures r == 1 || r == -1
  {
    if Inversions(s) % 2 == 0 then 1 else -1
  }

  predicate Distinct(s: seq<int>)
  {
    forall i, j :: 0 <= i < j < |s| ==> s[i] != s[j]
  }

  predicate Sorted(s: seq<int>)
  {
    forall i, j :: 0 <= i < j < |s| ==> s[i] <= s[j]
  }

  /** s with the entries at positions i and j exchanged. */
  function Swap(s: seq<int>, i: nat, j: nat): (r: seq<int>)
    requires i < |s| && j < |s|
    ensures |r| == |s| && r[i] == s[j] && r[j] == s[i]
    ensures forall k :: 0 <= k < |s| && k != i && k != j ==> r[k] == s[k]
  {
    s[i := s[j]][j := s[i]]
  }

  /** An exchange keeps distinct values distinct. */
  lemma SwapDistinct(s: seq<int>, i: nat, j: nat)
    requires i < |s| && j < |s| && Distinct(s)
    ensures Distinct(Swap(s, i, j))
  {
    var t := Swap(s, i, j);
    forall p, q | 0 <= p < q < |t| ensures t[p] != t[q] {
      var p' := if p == i then j else if p == j then i else p;
      var q' := if q == i then j else if q == j then i else q;
      assert t[p] == s[p'] && t[q] == s[q'] && p' != q';
    }
  }

  /** An exchange keeps the multiset of values. */
  lemma SwapMultiset(s: seq<int>, i: nat, j: nat)
    requires i < |s| && j < |s|
    ensures multiset(Swap(s, i, j)) == multiset(s)
  {
    var t := s[i := s[j]];
    assert multiset(t) == multiset(s) - multiset{s[i]} + multiset{s[j]};
    assert multiset(t[j := s[i]]) == multiset(t) - multiset{t[j]} + multiset{s[i]};
  }

  lemma {:induction false} CountLessConcat(x: int, a: seq<int>, b: seq<int>)
    ensures CountLess(x, a + b) == CountLess(x, a) + CountLess(x, b)
  {
    if a != [] {
      assert (a + b)[0] == a[0];
      assert (a + b)[1..] == a[1..] + b;
      CountLessConcat(x, a[1..], b);
    } else {
      assert a + b == b;
    }
  }

  lemma {:induction false} CountLessNone(x: int, s: seq<int>)
    requires forall k :: 0 <= k < |s| ==> x <= s[k]
    ensures CountLess(x, s) == 0
  {
    if s != [] {
      CountLessNone(x, s[1..]);
    }
  }

  /** Unfolding the inversion count at a known first element. */
  lemma InversionsCons(x: int, s: seq<int>)
    ensures Inversions([x] + s) == CountLess(x, s) + Inversions(s)
  {
    assert ([x] + s)[1..] == s;
  }

  lemma CountLessCons(x: int, y: int, s: seq<int>)
    ensures CountLess(x, [y] + s) == (if y < x then 1 else 0) + CountLess(x, s)
  {
    assert ([y] + s)[1..] == s;
  }

  /** Exchanging two adjacent values into decreasing order adds exactly one inversion. */
  lemma {:induction false} AdjacentSwap(w: seq<int>, x: int, y: int, v: seq<int>)
    requires x < y
    ensures Inversions(w + [y, x] + v) == Inversions(w + [x, y] + v) + 1
  {
    if w == [] {
      AdjacentSwapFront(x, y, v);
    } else {
      var w' := w[1..];
      assert w + [y, x] + v == [w[0]] + (w' + [y, x] + v);
      assert w + [x, y] + v == [w[0]] + (w' + [x, y] + v);
      InversionsCons(w[0], w' + [y, x] + v);
      InversionsCons(w[0], w' + [x, y] + v);
      AdjacentSwap(w', x, y, v);
      AdjacentSwapCount(w[0], w', x, y, v);
    }
  }

  lemma AdjacentSwapFront(x: int, y: int, v: seq<int>)
    requires x < y
    ensures Inversions([] + [y, x] + v) == Inversions([] + [x, y] + v) + 1
  {
    assert [] + [y, x] + v == [y] + ([x] + v);
    assert [] + [x, y] + v == [x] + ([y] + v);
    InversionsCons(y, [x] + v);
    InversionsCons(x, v);
    InversionsCons(x, [y] + v);
    InversionsCons(y, v);
    CountLessCons(y, x, v);
    CountLessCons(x, y, v);
  }

  /** The order of two adjacent values does not change how many values are below z. */
  lemma AdjacentSwapCount(z: int, w: seq<int>, x: int, y: int, v: seq<int>)
    ensures CountLess(z, w + [y, x] + v) == CountLess(z, w + [x, y] + v)
  {
    CountLessConcat(z, w + [y, x], v);
    CountLessConcat(z, w, [y, x]);
    CountLessConcat(z, w + [x, y], v);
    CountLessConcat(z, w, [x, y]);
    CountLessCons(z, y, [x]);
    CountLessCons(z, x, [y]);
    CountLessCons(z, x, []);
    CountLessCons(z, y, []);
    assert [y] + [x] == [y, x] && [x] + [y] == [x, y];
    assert [x] + [] == [x] && [y] + [] == [y];
  }

  /**
   * Moving one value x from behind u to its front changes the inversion count
   * by |u| modulo 2, provided x differs from every element of u.
   */
  lemma {:induction false} MoveToFront(u: seq<int>, x: int, v: seq<int>)
    requires forall k :: 0 <= k < |u| ==> u[k] != x
    ensures (Inversions(u + [x] + v) + |u|) % 2 == Inversions([x] + u + v) % 2
    decreases |u|
  {
    if u != [] {
      var w := u[..|u| - 1];
      var y := u[|u| - 1];
      assert u == w + [y];
      assert u + [x] + v == w + [y, x] + v;
      assert w + [x, y] + v == w + [x] + ([y] + v);
      if x < y {
        AdjacentSwap(w, x, y, v);
      } else {
        AdjacentSwap(w, y, x, v);
      }
      MoveToFront(w, x, [y] + v);
      assert [x] + w + ([y] + v) == [x] + u + v;
    }
  }

  /** Removing the minimum of a sequence of distinct values from position p removes p inversions. */
  lemma {:induction false} RemoveMinimum(t: seq<int>, p: nat)
    requires p < |t| && Distinct(t)
    requires forall k :: 0 <= k < |t| ==> t[p] <= t[k]
    ensures Inversions(t) == p + Inversions(t[..p] + t[p + 1..])
    decreases p
  {
    if p == 0 {
      assert t[..0] + t[1..] == t[1..];
      CountLessNone(t[0], t[1..]);
    } else {
      var rest := t[1..];
      assert rest[p - 1] == t[p];
      assert Distinct(rest);
      RemoveMinimum(rest, p - 1);
      assert t[p] != t[0];
      RemoveMinimumShape(t, p);
      RemoveMinimumStep(t[0], t[1..p], t[p], t[p + 1..]);
    }
  }

  lemma RemoveMinimumShape(t: seq<int>, p: nat)
    requires 0 < p < |t|
    ensures t[1..][..p - 1] + t[1..][p..] == t[1..p] + t[p + 1..]
    ensures t[1..] == t[1..p] + ([t[p]] + t[p + 1..])
    ensures t == [t[0]] + t[1..]
    ensures t[..p] + t[p + 1..] == [t[0]] + (t[1..p] + t[p + 1..])
  {
  }

  lemma RemoveMinimumStep(z: int, u: seq<int>, m: int, v: seq<int>)
    requires m < z
    requires Inversions(u + ([m] + v)) == |u| + Inversions(u + v)
    ensures Inversions([z] + (u + ([m] + v))) == |u| + 1 + Inversions([z] + (u + v))
  {
    InversionsCons(z, u + ([m] + v));
    InversionsCons(z, u + v);
    RemoveMinimumCount(z, u, m, v);
  }

  lemma RemoveMinimumCount(z: int, u: seq<int>, m: int, v: seq<int>)
    requires m < z
    ensures CountLess(z, u + ([m] + v)) == CountLess(z, u + v) + 1
  {
    CountLessConcat(z, u, [m] + v);
    CountLessCons(z, m, v);
    CountLessConcat(z, u, v);
  }


  /**
   * Exchanging the first element of a sequence of distinct values with its
   * minimum at p > 0 flips the sign.
   */
  lemma SwapFrontWithMinimum(t: seq<int>, p: nat)
    requires 0 < p < |t| && Distinct(t)
    requires forall k :: 0 <= k < |t| ==> t[p] <= t[k]
    ensures Sign(Swap(t, 0, p)) == -Sign(t)
  {
    var t' := Swap(t, 0, p);
    var u, x, v := t[1..p], t[0], t[p + 1..];
    SwapFrontShape(t, p);
    RemoveMinimum(t, p);
    CountLessNone(t[p], t'[1..]);
    assert Inversions(t') == Inversions(u + [x] + v);
    MoveToFront(u, x, v);
    ParityStep(Inversions(t), Inversions([x] + u + v), Inversions(t'), p);
  }

  lemma SwapFrontShape(t: seq<int>, p: nat)
    requires 0 < p < |t|
    ensures t[..p] + t[p + 1..] == [t[0]] + t[1..p] + t[p + 1..]
    ensures Swap(t, 0, p) == [t[p]] + (t[1..p] + [t[0]] + t[p + 1..])
  {
    assert t[..p] == [t[0]] + t[1..p];
  }

  lemma ParityStep(a: int, b: int, c: int, p: int)
    requires a == p + b && (c + p - 1) % 2 == b % 2
    ensures (c % 2 == 0) != (a % 2 == 0)
  {
  }


  /** A sequence whose first element is its minimum has the sign of its tail. */
  lemma SignOfMinimumFirst(t: seq<int>)
    requires |t| >= 1
    requires forall k :: 0 <= k < |t| ==> t[0] <= t[k]
    ensures Sign(t) == Sign(t[1..])
  {
    CountLessNone(t[0], t[1..]);
  }

  /** A sorted sequence with a repeated value has two equal neighbours. */
  lemma {:induction false} SortedRepeatIsAdjacent(s: seq<int>)
    requires Sorted(s) && !Distinct(s)
    ensures exists k :: 0 <= k < |s| - 1 && s[k] == s[k + 1]
  {
    var i, j :| 0 <= i < j < |s| && s[i] == s[j];
    assert s[i] <= s[i + 1] <= s[j];
    assert s[i] == s[i + 1];
  }

  /** Equal multisets preserve distinctness. */
  lemma DistinctMultiset(a: seq<int>, b: seq<int>)
    requires multiset(a) == multiset(b) && Distinct(a)
    ensures Distinct(b)
  {
    if !Distinct(b) {
      var i, j :| 0 <= i < j < |b| && b[i] == b[j];
      assert b == b[..i] + [b[i]] + b[i + 1..j] + [b[j]] + b[j + 1..];
      assert multiset(b)[b[i]] >= 2;
      DistinctCount(a, b[i]);
      assert false;
    }
  }

  lemma {:induction false} DistinctCount(a: seq<int>, v: int)
    requires Distinct(a)
    ensures multiset(a)[v] <= 1
  {
    if a != [] {
      assert a == [a[0]] + a[1..];
      assert Distinct(a[1..]) by {
        forall i, j | 0 <= i < j < |a[1..]| ensures a[1..][i] != a[1..][j] {
          assert a[1..][i] == a[i + 1] && a[1..][j] == a[j + 1];
        }
      }
      DistinctCount(a[1..], v);
      if a[0] == v {
        assert v !in a[1..];
      }
    }
  }
}
