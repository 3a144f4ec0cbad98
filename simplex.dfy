// `sil::exterior::Simplex`: an oriented K-simplex of a cartesian grid, given
// by its origin (a discrete element), a 0/1 vector whose ones name the K
// directions it spans, and an orientation flag. The constructor accepts a
// vector over any subset of the grid dimensions with entries -1, 0 or 1 and
// reorients it so that every entry becomes 0 or 1: a -1 along a dimension
// moves the origin one step back along it and flips the orientation.
//
// Elements and vectors are sequences over all D dimensions of the grid, in
// the order of the simplex's tags.
module Simplices {
  import opened Misc

  datatype Simplex = Simplex(origin: seq<int>, vect: seq<int>, negative: bool)

  /** Every entry is 0 or 1. */
  predicate Binary(v: seq<int>)
  {
    forall d :: 0 <= d < |v| ==> v[d] == 0 || v[d] == 1
  }

  /** Every entry is -1, 0 or 1: what the constructor accepts. */
  predicate Unit(v: seq<int>)
  {
    forall d :: 0 <= d < |v| ==> -1 <= v[d] <= 1
  }

  /** What the constructor guarantees of every simplex it builds. */
  predicate WellFormed(s: Simplex)
  {
    |s.origin| == |s.vect| && Binary(s.vect)
  }

  function Odd(n: int): bool { n % 2 == 1 }

  function Min(a: int, b: int): int { if a <= b then a else b }

  function Max(a: int, b: int): int { if a <= b then b else a }

  // ---------------------------------------------------------------------
  // detail::Reorient<Tag...>: one recursion step per tag, from tag d on.
  // ---------------------------------------------------------------------

  /** `run_elem`: the coordinate of each dimension whose vector entry is -1 goes down by one. */
  function ReorientElem(elem: seq<int>, vect: seq<int>, d: nat): (r: seq<int>)
    requires |elem| == |vect| && d <= |vect|
    ensures |r| == |elem|
    ensures forall k :: 0 <= k < |r| ==> r[k] == if d <= k && vect[k] == -1 then elem[k] - 1 else elem[k]
    decreases |vect| - d
  {
    if d == |vect| then elem
    else ReorientElem(if vect[d] == -1 then elem[d := elem[d] - 1] else elem, vect, d + 1)
  }

  /** `run_vect`: each -1 entry becomes 1; the other entries stay. */
  function ReorientVect(vect: seq<int>, d: nat): (r: seq<int>)
    requires d <= |vect|
    ensures |r| == |vect|
    ensures forall k :: 0 <= k < |r| ==> r[k] == if d <= k && vect[k] == -1 then 1 else vect[k]
    decreases |vect| - d
  {
    if d == |vect| then vect
    else ReorientVect(if vect[d] == -1 then vect[d := 1] else vect, d + 1)
  }

  /** `run_negative`: the flag is toggled once for each -1 entry. */
  function ReorientNegative(vect: seq<int>, d: nat, negative: bool): bool
    requires d <= |vect|
    decreases |vect| - d
  {
    if d == |vect| then negative
    else ReorientNegative(vect, d + 1, (vect[d] == -1) != negative)
  }

  /** Number of -1 entries from position d on. */
  function MinusOnes(vect: seq<int>, d: nat): nat
    requires d <= |vect|
    decreases |vect| - d
  {
    if d == |vect| then 0 else (if vect[d] == -1 then 1 else 0) + MinusOnes(vect, d + 1)
  }

  /** The orientation ends up flipped exactly when the vector has an odd number of -1 entries. */
  lemma {:induction false} ReorientNegativeParity(vect: seq<int>, d: nat, negative: bool)
    requires d <= |vect|
    ensures ReorientNegative(vect, d, negative) == (negative != Odd(MinusOnes(vect, d)))
    decreases |vect| - d
  {
    if d < |vect| {
      ReorientNegativeParity(vect, d + 1, (vect[d] == -1) != negative);
    }
  }

  /** The three reorientation steps applied to one (element, vector, flag) triple. */
  function Reoriented(elem: seq<int>, vect: seq<int>, negative: bool): Simplex
    requires |elem| == |vect|
  {
    Simplex(ReorientElem(elem, vect, 0), ReorientVect(vect, 0), ReorientNegative(vect, 0, negative))
  }

  /**
   * The constructor: the reoriented triple, or None where its assertion
   * fails (an entry of the vector other than -1, 0 or 1). The simplex built
   * covers the same cell: along each dimension it starts at the lower of
   * elem and elem + vect and reaches the higher one.
   */
  function NewSimplex(elem: seq<int>, vect: seq<int>, negative: bool): (r: Option<Simplex>)
    requires |elem| == |vect|
    ensures r.Some? <==> Unit(vect)
    ensures r.Some? ==> WellFormed(r.value) && |r.value.vect| == |vect|
    ensures r.Some? ==> forall d {:trigger r.value.origin[d]} :: 0 <= d < |vect| ==>
      r.value.origin[d] == Min(elem[d], elem[d] + vect[d]) &&
      r.value.origin[d] + r.value.vect[d] == Max(elem[d], elem[d] + vect[d])
    ensures r.Some? ==> r.value.negative == (negative != Odd(MinusOnes(vect, 0)))
  {
    var v := ReorientVect(vect, 0);
    if Binary(v) then
      ReorientNegativeParity(vect, 0, negative);
      Some(Reoriented(elem, vect, negative))
    else None
  }

  /** A vector with no -1 entry is left as it is: elem, vect and flag pass through unchanged. */
  lemma ReorientBinary(elem: seq<int>, vect: seq<int>, negative: bool)
    requires |elem| == |vect| && Binary(vect)
    ensures NewSimplex(elem, vect, negative) == Some(Simplex(elem, vect, negative))
  {
    assert MinusOnes(vect, 0) == 0 by { NoMinusOnes(vect, 0); }
    assert ReorientElem(elem, vect, 0) == elem;
    assert ReorientVect(vect, 0) == vect;
  }

  lemma {:induction false} NoMinusOnes(vect: seq<int>, d: nat)
    requires d <= |vect| && Binary(vect)
    ensures MinusOnes(vect, d) == 0
    decreases |vect| - d
  {
    if d < |vect| {
      NoMinusOnes(vect, d + 1);
    }
  }

  /**
   * `add_null_dimensions`: the vector over the tags given, spread over all
   * n dimensions of the simplex; dimension tags[k] gets vals[k], every
   * dimension absent from tags gets 0.
   */
  function AddNullDimensions(n: nat, tags: seq<nat>, vals: seq<int>): (v: seq<int>)
    requires |tags| == |vals|
    requires forall k :: 0 <= k < |tags| ==> tags[k] < n
    requires forall k, l :: 0 <= k < l < |tags| ==> tags[k] != tags[l]
    ensures |v| == n
    ensures forall k :: 0 <= k < |tags| ==> v[tags[k]] == vals[k]
    ensures forall d :: 0 <= d < n && d !in tags ==> v[d] == 0
  {
    seq(n, d requires 0 <= d < n => ValueOf(tags, vals, d, 0))
  }

  /** `add_eventually_null_dimensions_` for dimension d: the value of the first tag from position k on that is d, else 0. */
  function ValueOf(tags: seq<nat>, vals: seq<int>, d: nat, k: nat): (x: int)
    requires |tags| == |vals| && k <= |tags|
    ensures forall l :: k <= l < |tags| && tags[l] == d && (forall m :: k <= m < l ==> tags[m] != d) ==> x == vals[l]
    ensures (forall l :: k <= l < |tags| ==> tags[l] != d) ==> x == 0
    decreases |tags| - k
  {
    if k == |tags| then 0 else if tags[k] == d then vals[k] else ValueOf(tags, vals, d, k + 1)
  }

  /** The constructor called with a vector over the tags given (`Simplex(elem, DiscreteVector<T...>, negative)`). */
  function MakeSimplex(elem: seq<int>, tags: seq<nat>, vals: seq<int>, negative: bool): (r: Option<Simplex>)
    requires |tags| == |vals|
    requires forall k :: 0 <= k < |tags| ==> tags[k] < |elem|
    requires forall k, l :: 0 <= k < l < |tags| ==> tags[k] != tags[l]
    ensures r.Some? <==> forall k :: 0 <= k < |vals| ==> -1 <= vals[k] <= 1
    ensures r.Some? ==> WellFormed(r.value) && |r.value.origin| == |elem|
    ensures r.Some? ==> forall d :: 0 <= d < |elem| && d !in tags ==> r.value.origin[d] == elem[d] && r.value.vect[d] == 0
  {
    var v := AddNullDimensions(|elem|, tags, vals);
    assert Unit(v) <==> forall k :: 0 <= k < |vals| ==> -1 <= vals[k] <= 1 by {
      if forall k :: 0 <= k < |vals| ==> -1 <= vals[k] <= 1 {
        forall d | 0 <= d < |v| ensures -1 <= v[d] <= 1 {
          if d in tags {
            var k :| 0 <= k < |tags| && tags[k] == d;
            assert v[tags[k]] == vals[k];
          }
        }
      }
      if Unit(v) {
        forall k | 0 <= k < |vals| ensures -1 <= vals[k] <= 1 {
          assert v[tags[k]] == vals[k];
        }
      }
    }
    NewSimplex(elem, v, negative)
  }

  /** The constructor's example: {X: 1, Y: -1} at (0, 1, 1, 0) is the negative XY simplex at (0, 1, 0, 0). */
  lemma ReorientedExample()
    ensures MakeSimplex([0, 1, 1, 0], [1, 2], [1, -1], false) == Some(Simplex([0, 1, 0, 0], [0, 1, 1, 0], true))
  {
    var v := AddNullDimensions(4, [1, 2], [1, -1]);
    assert v == [0, 1, -1, 0];
    assert MinusOnes(v, 0) == 1;
    var r := NewSimplex([0, 1, 1, 0], v, false);
    assert r.value.origin == [0, 1, 0, 0];
    assert r.value.vect == [0, 1, 1, 0];
  }

  /** The same cell with the opposite orientation. */
  function Flipped(s: Simplex): Simplex
  {
    s.(negative := !s.negative)
  }

  /** `operator-`: rebuilding a simplex through the constructor with the flag negated flips it and nothing else. */
  function Negate(s: Simplex): (r: Simplex)
    requires WellFormed(s)
    ensures WellFormed(r)
    ensures r.origin == s.origin && r.vect == s.vect && r.negative != s.negative
    ensures r == Flipped(s)
  {
    ReorientBinary(s.origin, s.vect, !s.negative);
    NewSimplex(s.origin, s.vect, !s.negative).value
  }

  /** `operator*`: multiplying by 1 or -1 keeps or flips the orientation; any other factor fails the assertion. */
  function Scale(s: Simplex, t: int): (r: Option<Simplex>)
    requires WellFormed(s)
    ensures r.Some? <==> t == 1 || t == -1
    ensures r.Some? ==> r.value.origin == s.origin && r.value.vect == s.vect
    ensures r.Some? ==> (r.value.negative <==> (s.negative <==> t == 1))
  {
    if t == 1 then Some(s) else if t == -1 then Some(Negate(s)) else None
  }

  /** `operator==`: same element, same vector, same orientation. */
  function Equals(a: Simplex, b: Simplex): (r: bool)
    ensures r <==> a == b
  {
    a.origin == b.origin && a.vect == b.vect && a.negative == b.negative
  }

  // ---------------------------------------------------------------------
  // The directions a vector spans, found as `std::find_if(..., k != 0)`.
  // ---------------------------------------------------------------------

  /** The first position from `from` on whose entry is nonzero, |v| when none is. */
  function FindNonzero(v: seq<int>, from: nat): (p: nat)
    requires from <= |v|
    ensures from <= p <= |v|
    ensures p < |v| ==> v[p] != 0
    ensures forall k :: from <= k < p ==> v[k] == 0
    decreases |v| - from
  {
    if from == |v| || v[from] != 0 then from else FindNonzero(v, from + 1)
  }

  /** The nonzero positions of v from `from` on, in increasing order, found one `find_if` after the other. */
  function PositionsFrom(v: seq<int>, from: nat): (ps: seq<nat>)
    requires from <= |v|
    ensures forall i :: 0 <= i < |ps| ==> from <= ps[i] < |v|
    decreases |v| - from
  {
    var p := FindNonzero(v, from);
    if p == |v| then [] else [p] + PositionsFrom(v, p + 1)
  }

  function Positions(v: seq<int>): seq<nat>
  {
    PositionsFrom(v, 0)
  }

  predicate StrictlyIncreasing(ps: seq<nat>)
  {
    forall i, j :: 0 <= i < j < |ps| ==> ps[i] < ps[j]
  }

  /** PositionsFrom lists exactly the nonzero positions from `from` on, in increasing order. */
  lemma {:induction false} PositionsFromAre(v: seq<int>, from: nat)
    requires from <= |v|
    ensures StrictlyIncreasing(PositionsFrom(v, from))
    ensures forall p: nat :: p in PositionsFrom(v, from) <==> from <= p < |v| && v[p] != 0
    decreases |v| - from
  {
    var p := FindNonzero(v, from);
    if p < |v| {
      PositionsFromAre(v, p + 1);
    }
  }

  /** The dimension K of a simplex: the number of directions its vector spans. */
  function Dimension(s: Simplex): nat
  {
    |Positions(s.vect)|
  }

  /** `discrete_element() + discrete_vector()`. */
  function Shift(elem: seq<int>, vect: seq<int>): (r: seq<int>)
    requires |elem| == |vect|
    ensures |r| == |elem| && forall d :: 0 <= d < |r| ==> r[d] - elem[d] == vect[d]
  {
    seq(|elem|, d requires 0 <= d < |elem| => elem[d] + vect[d])
  }

  /** `-discrete_vector()`. */
  function Opposite(vect: seq<int>): (r: seq<int>)
    ensures |r| == |vect| && forall d :: 0 <= d < |r| ==> r[d] + vect[d] == 0
  {
    seq(|vect|, d requires 0 <= d < |vect| => -vect[d])
  }
}
