// The enumerations the Young projector is built from: bit vectors by
// increasing Hamming weight, the permutations of a subset of positions of an
// index array, and the sign of a permutation without the duplicate checks.
module YoungEnumeration {
  import opened Misc
  import opened Binomial
  import opened Permutations
  import opened Signs
  import PermutationParity
  import PortableStl

  // ---------------------------------------------------------------------
  // `index_hamming_weight_code`
  // ---------------------------------------------------------------------

  /** Number of bit vectors of length n with fewer than w set bits. */
  function Offset(n: nat, w: nat): nat
  {
    if w == 0 then 0 else Offset(n, w - 1) + Choose(n, w - 1)
  }

  /**
   * Entry i of the listing that starts at weight w: the weights w, w + 1, ...
   * up to n - 1 in turn, each in `std::prev_permutation` order from its set
   * bits first. None once the weights below n are exhausted.
   */
  function CodeFrom(n: nat, w: nat, i: nat): Option<seq<bool>>
    decreases n - w
  {
    if w >= n then None
    else if i < Choose(n, w) then Some(Arrangement(n, w, i))
    else CodeFrom(n, w + 1, i - Choose(n, w))
  }

  /** The bit vector numbered index among those of length n with fewer than n set bits. */
  function HammingCode(n: nat, index: nat): Option<seq<bool>>
  {
    CodeFrom(n, 0, index)
  }

  /**
   * `index_hamming_weight_code(index, length)`. The library's fill and
   * `std::prev_permutation` are the functions of the same meaning. An index
   * past the last code reaches the final `assert(false)`; the model returns
   * None there.
   */
  method IndexHammingWeightCode(index: nat, length: nat) returns (r: Option<seq<bool>>)
    ensures r == HammingCode(length, index)
  {
    var count := 0;
    var w := 0;
    while w < length
      invariant w <= length
      invariant count == Offset(length, w) <= index
      invariant HammingCode(length, index) == CodeFrom(length, w, index - count)
    {
      var bits := OnesFirst(length, w);
      ArrangementFirst(length, w);
      ghost var j := 0;
      while true
        invariant j < Choose(length, w) && bits == Arrangement(length, w, j)
        invariant count == Offset(length, w) + j <= index
        decreases Choose(length, w) - j
      {
        if count == index {
          return Some(bits);
        }
        count := count + 1;
        PrevPermutationWalks(length, w, j);
        var step := PrevPermutation(bits);
        if !step.1 {
          break;
        }
        bits := step.0;
        j := j + 1;
      }
      w := w + 1;
    }
    return None;
  }

  /** Where entry i of a listing from weight w lies: its weight and its place within that weight. */
  lemma {:induction false} CodeFromAt(n: nat, w: nat, i: nat) returns (v: nat)
    requires w < n && i < Offset(n, n) - Offset(n, w)
    ensures w <= v < n
    ensures Offset(n, v) - Offset(n, w) <= i < Offset(n, v + 1) - Offset(n, w)
    ensures CodeFrom(n, w, i) == Some(Arrangement(n, v, i + Offset(n, w) - Offset(n, v)))
    decreases n - w
  {
    OffsetGrows(n, w + 1, n);
    if i < Choose(n, w) {
      v := w;
    } else {
      v := CodeFromAt(n, w + 1, i - Choose(n, w));
    }
  }

  lemma {:induction false} OffsetGrows(n: nat, v: nat, w: nat)
    requires v <= w
    ensures Offset(n, v) <= Offset(n, w)
    decreases w
  {
    if v < w {
      OffsetGrows(n, v, w - 1);
    }
  }

  /** Past the weights below n the listing has run out. */
  lemma {:induction false} CodeFromExhausted(n: nat, w: nat, i: nat)
    requires w <= n && Offset(n, n) - Offset(n, w) <= i
    ensures CodeFrom(n, w, i) == None
    decreases n - w
  {
    if w < n {
      OffsetGrows(n, w + 1, n);
      CodeFromExhausted(n, w + 1, i - Choose(n, w));
    }
  }

  /** A code exists exactly for the Offset(n, n) indices below the number of vectors of weight < n. */
  lemma HammingCodeDefined(n: nat, index: nat)
    ensures HammingCode(n, index).Some? <==> index < Offset(n, n)
  {
    if index < Offset(n, n) {
      var v := CodeFromAt(n, 0, index);
    } else {
      CodeFromExhausted(n, 0, index);
    }
  }

  /** Every code has the requested length and fewer set bits than its length. */
  lemma HammingCodeShape(n: nat, index: nat)
    requires HammingCode(n, index).Some?
    ensures |HammingCode(n, index).value| == n
    ensures Weight(HammingCode(n, index).value) < n
  {
    HammingCodeDefined(n, index);
    var v := CodeFromAt(n, 0, index);
    ArrangementLength(n, v, index - Offset(n, v));
    ArrangementWeight(n, v, index - Offset(n, v));
  }

  /** Every vector with fewer set bits than its length has a code. */
  lemma HammingCodeIndex(s: seq<bool>) returns (index: nat)
    requires Weight(s) < |s|
    ensures HammingCode(|s|, index) == Some(s)
  {
    var n, w := |s|, Weight(s);
    var k := ArrangementIndex(s);
    index := Offset(n, w) + k;
    var v := WeightOfIndex(n, w, index);
  }

  /** An index inside the block of weight w is listed with weight w. */
  lemma WeightOfIndex(n: nat, w: nat, index: nat) returns (v: nat)
    requires w < n && Offset(n, w) <= index < Offset(n, w + 1)
    ensures v == w && HammingCode(n, index) == Some(Arrangement(n, w, index - Offset(n, w)))
  {
    OffsetGrows(n, w + 1, n);
    v := CodeFromAt(n, 0, index);
    if v < w {
      OffsetGrows(n, v + 1, w);
    } else if w < v {
      OffsetGrows(n, w + 1, v);
    }
  }

  /**
   * Codes come by increasing weight, and within one weight in decreasing
   * lexicographic order; in particular no two indices share a code.
   */
  lemma HammingCodeOrdered(n: nat, i: nat, j: nat)
    requires i < j && HammingCode(n, j).Some?
    ensures HammingCode(n, i).Some?
    ensures var a, b := HammingCode(n, i).value, HammingCode(n, j).value;
      Weight(a) < Weight(b) || (Weight(a) == Weight(b) && LexLess(b, a))
  {
    HammingCodeDefined(n, j);
    HammingCodeDefined(n, i);
    var u := CodeFromAt(n, 0, i);
    var v := CodeFromAt(n, 0, j);
    var ki, kj := i - Offset(n, u), j - Offset(n, v);
    ArrangementWeight(n, u, ki);
    ArrangementWeight(n, v, kj);
    if v < u {
      OffsetGrows(n, v + 1, u);
      assert false;
    } else if u == v {
      ArrangementDecreasing(n, u, ki, kj);
    }
  }

  /** The bit vectors of length 3 with at most one set bit. */
  lemma ArrangementsOfLengthThree()
    ensures Choose(3, 0) == 1 && Choose(3, 1) == 3 && Choose(3, 2) == 3
    ensures Arrangement(3, 0, 0) == [false, false, false]
    ensures Arrangement(3, 1, 0) == [true, false, false]
    ensures Arrangement(3, 1, 2) == [false, false, true]
    ensures Arrangement(3, 2, 0) == [true, true, false]
    ensures Arrangement(3, 2, 2) == [false, true, true]
  {
    ChooseOne(3);
    ChooseAllButOne(3);
    ChooseOne(2);
    assert Choose(1, 0) == 1 && Choose(1, 1) == 1;
    assert Arrangement(0, 0, 0) == [] && Arrangement(0, 1, 0) == [];
    assert Arrangement(1, 0, 0) == [false];
    assert Arrangement(1, 1, 0) == [true];
    assert Arrangement(2, 0, 0) == [false, false];
    assert Arrangement(2, 1, 0) == [true, false];
    assert Arrangement(2, 1, 1) == [false, true];
    assert Arrangement(2, 2, 0) == [true, true];
  }

  /** The codes of length 3: 000, 100, 010, 001, 110, 101, 011, then none. */
  lemma HammingCodesOfLengthThree()
    ensures HammingCode(3, 0) == Some([false, false, false])
    ensures HammingCode(3, 1) == Some([true, false, false])
    ensures HammingCode(3, 3) == Some([false, false, true])
    ensures HammingCode(3, 4) == Some([true, true, false])
    ensures HammingCode(3, 6) == Some([false, true, true])
    ensures HammingCode(3, 7) == None
  {
    ArrangementsOfLengthThree();
    assert CodeFrom(3, 0, 1) == CodeFrom(3, 1, 0);
    assert CodeFrom(3, 0, 3) == CodeFrom(3, 1, 2);
    assert CodeFrom(3, 0, 4) == CodeFrom(3, 1, 3) == CodeFrom(3, 2, 0);
    assert CodeFrom(3, 0, 6) == CodeFrom(3, 1, 5) == CodeFrom(3, 2, 2);
    assert CodeFrom(3, 0, 7) == CodeFrom(3, 1, 6) == CodeFrom(3, 2, 3) == CodeFrom(3, 3, 0);
  }

  // ---------------------------------------------------------------------
  // `permutations_subset`
  // ---------------------------------------------------------------------

  /** The positions k < i of t whose value plus one is one of the subset values, in order. */
  function Matches(t: seq<nat>, values: seq<nat>, i: nat): (idx: seq<nat>)
    requires i <= |t|
    ensures forall k :: 0 <= k < |idx| ==> idx[k] < i
  {
    if i == 0 then []
    else if t[i - 1] + 1 in values then Matches(t, values, i - 1) + [i - 1]
    else Matches(t, values, i - 1)
  }

  predicate StrictlyIncreasing(s: seq<nat>)
  {
    forall k, l :: 0 <= k < l < |s| ==> s[k] < s[l]
  }

  /** The matched positions are exactly the qualifying ones, in increasing order. */
  lemma {:induction false} MatchesAre(t: seq<nat>, values: seq<nat>, i: nat)
    requires i <= |t|
    ensures forall p: nat :: p in Matches(t, values, i) <==> p < i && t[p] + 1 in values
    ensures StrictlyIncreasing(Matches(t, values, i))
  {
    if i > 0 {
      MatchesAre(t, values, i - 1);
      var p := Matches(t, values, i - 1);
      if t[i - 1] + 1 in values {
        var q := p + [i - 1];
        forall k, l | 0 <= k < l < |q|
          ensures q[k] < q[l]
        {
          assert q[k] == p[k];
          if l < |p| {
            assert q[l] == p[l];
          }
        }
      }
    }
  }

  /** The values at the matched positions. */
  function Elements(t: seq<nat>, idx: seq<nat>): (e: seq<nat>)
    requires forall k :: 0 <= k < |idx| ==> idx[k] < |t|
    ensures |e| == |idx| && forall k :: 0 <= k < |idx| ==> e[k] == t[idx[k]]
  {
    seq(|idx|, k requires 0 <= k < |idx| => t[idx[k]])
  }

  /** t with e[0], ..., e[n - 1] written at positions idx[0], ..., idx[n - 1] in turn. */
  function Place(t: seq<nat>, idx: seq<nat>, e: seq<nat>, n: nat): (r: seq<nat>)
    requires n <= |idx| <= |e| && forall k :: 0 <= k < |idx| ==> idx[k] < |t|
    ensures |r| == |t|
  {
    if n == 0 then t else Place(t, idx, e, n - 1)[idx[n - 1] := e[n - 1]]
  }

  /** A position no write touches keeps its value. */
  lemma {:induction false} PlaceKeeps(t: seq<nat>, idx: seq<nat>, e: seq<nat>, n: nat, p: nat)
    requires n <= |idx| <= |e| && forall k :: 0 <= k < |idx| ==> idx[k] < |t|
    requires p < |t| && forall k :: 0 <= k < n ==> idx[k] != p
    ensures Place(t, idx, e, n)[p] == t[p]
  {
    if n > 0 {
      PlaceKeeps(t, idx, e, n - 1, p);
    }
  }

  /** With distinct positions, position idx[m] ends up holding e[m]. */
  lemma {:induction false} PlaceWrites(t: seq<nat>, idx: seq<nat>, e: seq<nat>, n: nat, m: nat)
    requires n <= |idx| <= |e| && forall k :: 0 <= k < |idx| ==> idx[k] < |t|
    requires StrictlyIncreasing(idx) && m < n
    ensures Place(t, idx, e, n)[idx[m]] == e[m]
  {
    if m < n - 1 {
      PlaceWrites(t, idx, e, n - 1, m);
    }
  }

  /** Writing back the values read from the positions changes nothing. */
  lemma {:induction false} PlaceOwnValues(t: seq<nat>, idx: seq<nat>, n: nat)
    requires n <= |idx| && forall k :: 0 <= k < |idx| ==> idx[k] < |t|
    ensures Place(t, idx, Elements(t, idx), n) == t
  {
    if n > 0 {
      PlaceOwnValues(t, idx, n - 1);
    }
  }

  /**
   * The arrays `permutations_subset(t, values)` returns: t with the matched
   * positions refilled by each arrangement `std::next_permutation` reaches
   * from their current values.
   */
  function SubsetPermutations(t: seq<nat>, values: seq<nat>): (r: seq<seq<nat>>)
    ensures var idx := Matches(t, values, |t|);
      |r| == |Orbit(Elements(t, idx))|
  {
    var idx := Matches(t, values, |t|);
    var o := Orbit(Elements(t, idx));
    seq(|o|, k requires 0 <= k < |o| => Place(t, idx, o[k], |idx|))
  }

  /**
   * `permutations_subset(t, subset_values)`. The fixed-size arrays of
   * positions and elements are filled exactly when as many positions match
   * as there are subset values, which the source needs of its callers.
   */
  method PermutationsSubset(t: seq<nat>, values: seq<nat>) returns (result: seq<seq<nat>>)
    requires |Matches(t, values, |t|)| == |values|
    ensures result == SubsetPermutations(t, values)
  {
    var idx, elements := CollectMatches(t, values);
    ghost var o := Orbit(elements);
    ghost var s := SubsetPermutations(t, values);
    ghost var k := 0;
    result := [];
    while true
      invariant k < |o| && elements == o[k]
      invariant result == s[..k]
      decreases |o| - k
    {
      var filled := PlaceAll(t, idx, elements);
      SubsetAt(t, values, k);
      result := result + [filled];
      OrbitSteps(o[0], k);
      var step := NextPermutation(elements);
      if !step.1 {
        break;
      }
      elements := step.0;
      k := k + 1;
    }
    assert result == s;
  }

  /** The first loop of `permutations_subset`: the matching positions and the values they hold. */
  method CollectMatches(t: seq<nat>, values: seq<nat>) returns (idx: seq<nat>, elements: seq<nat>)
    ensures idx == Matches(t, values, |t|) && elements == Elements(t, idx)
  {
    idx := [];
    elements := [];
    for i := 0 to |t|
      invariant idx == Matches(t, values, i)
      invariant elements == Elements(t, idx)
    {
      if t[i] + 1 in values {
        idx := idx + [i];
        elements := elements + [t[i]];
      }
    }
  }

  /** The inner loop of `permutations_subset`: a copy of t with position idx[i] set to e[i]. */
  method PlaceAll(t: seq<nat>, idx: seq<nat>, e: seq<nat>) returns (r: seq<nat>)
    requires |idx| <= |e| && forall k :: 0 <= k < |idx| ==> idx[k] < |t|
    ensures r == Place(t, idx, e, |idx|)
  {
    r := t;
    for i := 0 to |idx|
      invariant r == Place(t, idx, e, i)
    {
      r := r[idx[i] := e[i]];
    }
  }

  /** Array k of the result is t refilled with orbit entry k. */
  lemma SubsetAt(t: seq<nat>, values: seq<nat>, k: nat)
    requires k < |Orbit(Elements(t, Matches(t, values, |t|)))|
    ensures var idx := Matches(t, values, |t|);
      |Orbit(Elements(t, idx))[k]| == |idx| &&
      SubsetPermutations(t, values)[k] == Place(t, idx, Orbit(Elements(t, idx))[k], |idx|)
  {
  }

  /** The matched positions of array k hold entry k of the orbit. */
  lemma SubsetEntry(t: seq<nat>, values: seq<nat>, k: nat)
    requires k < |SubsetPermutations(t, values)|
    ensures var idx := Matches(t, values, |t|);
      Elements(SubsetPermutations(t, values)[k], idx) == Orbit(Elements(t, idx))[k]
  {
    var idx := Matches(t, values, |t|);
    var o := Orbit(Elements(t, idx));
    var r := SubsetPermutations(t, values)[k];
    MatchesAre(t, values, |t|);
    forall m | 0 <= m < |idx|
      ensures Elements(r, idx)[m] == o[k][m]
    {
      PlaceWrites(t, idx, o[k], |idx|, m);
    }
  }

  /** The first array returned is t itself. */
  lemma SubsetPermutationsStartAtInput(t: seq<nat>, values: seq<nat>)
    ensures SubsetPermutations(t, values)[0] == t
  {
    var idx := Matches(t, values, |t|);
    PlaceOwnValues(t, idx, |idx|);
  }

  /** Positions whose value plus one is not a subset value are never moved. */
  lemma SubsetPermutationsKeepOthers(t: seq<nat>, values: seq<nat>, k: nat, p: nat)
    requires k < |SubsetPermutations(t, values)| && p < |t| && t[p] + 1 !in values
    ensures SubsetPermutations(t, values)[k][p] == t[p]
  {
    var idx := Matches(t, values, |t|);
    MatchesAre(t, values, |t|);
    PlaceKeeps(t, idx, Orbit(Elements(t, idx))[k], |idx|, p);
  }

  /**
   * Each array holds, at the matched positions, a rearrangement of the
   * values found there in t.
   */
  lemma SubsetPermutationsRearrange(t: seq<nat>, values: seq<nat>, k: nat)
    requires k < |SubsetPermutations(t, values)|
    ensures var idx := Matches(t, values, |t|);
      multiset(Elements(SubsetPermutations(t, values)[k], idx)) == multiset(Elements(t, idx))
  {
    var idx := Matches(t, values, |t|);
    SubsetEntry(t, values, k);
    OrbitRearranges(Elements(t, idx), k);
  }

  /** The arrays come in increasing lexicographic order of their matched values, so all differ. */
  lemma SubsetPermutationsDistinct(t: seq<nat>, values: seq<nat>, i: nat, j: nat)
    requires i < j < |SubsetPermutations(t, values)|
    ensures var idx := Matches(t, values, |t|);
      var s := SubsetPermutations(t, values);
      LexBelow(Elements(s[i], idx), Elements(s[j], idx)) && s[i] != s[j]
  {
    var idx := Matches(t, values, |t|);
    var s := SubsetPermutations(t, values);
    SubsetEntry(t, values, i);
    SubsetEntry(t, values, j);
    OrbitIncreasing(Elements(t, idx), i, j);
    if s[i] == s[j] {
      LexBelowIrreflexive(Elements(s[i], idx));
    }
  }

  /** The last array holds the matched values in non-increasing order. */
  lemma SubsetPermutationsEndLargest(t: seq<nat>, values: seq<nat>)
    ensures var idx := Matches(t, values, |t|);
      var s := SubsetPermutations(t, values);
      NonIncreasing(Elements(s[|s| - 1], idx))
  {
    var idx := Matches(t, values, |t|);
    SubsetEntry(t, values, |SubsetPermutations(t, values)| - 1);
    OrbitEndsLargest(Elements(t, idx));
  }

  // ---------------------------------------------------------------------
  // The projector's own `permutation_parity`
  // ---------------------------------------------------------------------

  /**
   * The sign of a permutation as the projector computes it: the selection
   * sort of the library's `permutation_parity` without its checks for
   * repeated values. The loop bound `lst.size() - 1` needs a nonempty array.
   */
  method LocalPermutationParity(lst: seq<int>) returns (r: int)
    requires |lst| >= 1
    ensures r == PermutationParity.SweepAsWritten(lst, 0, 1).1
    ensures r == 1 || r == -1
    ensures PermutationParity.IsPermutation(lst) ==> r == Sign(lst)
  {
    var a := new int[|lst|](k requires 0 <= k < |lst| => lst[k]);
    assert a[..] == lst;
    r := 1;
    var i := 0;
    while i < a.Length - 1
      invariant 0 <= i <= a.Length - 1
      invariant r == 1 || r == -1
      invariant PermutationParity.SweepAsWritten(a[..], i, r) == PermutationParity.SweepAsWritten(lst, 0, 1)
    {
      ghost var before := a[..];
      ghost var p := r;
      if a[i] != i {
        r := -r;
        var mn := PermutationParity.MinElement(a, i);
        PortableStl.SwapEntries(a, i, mn);
        PermutationParity.SweepUnfoldSwap(before, i, p);
      } else {
        PermutationParity.SweepUnfoldFixed(before, i, p);
      }
      i := i + 1;
    }
    if PermutationParity.IsPermutation(lst) {
      PermutationParity.SweepAsWrittenCounts(lst, 0, 1);
    }
  }

  /** Without a check for repeats, [0, 0] reads as an even permutation. */
  lemma LocalParityOfRepeat()
    ensures PermutationParity.SweepAsWritten([0, 0], 0, 1).1 == 1
  {
  }
}
