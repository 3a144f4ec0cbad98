// `sil::exterior::boundary`: the boundary of an oriented K-simplex is the
// chain of its 2K faces of dimension K - 1. The first half lies at the
// simplex's origin and the second half at the opposite corner, each half
// generated by zeroing the nonzero entries of the vector one after the
// other with alternating orientations; the whole chain is then negated or
// not according to K and the simplex's orientation. The boundary of a chain
// gathers the boundaries of its simplices and cancels opposite pairs.
//
// The chains of the source write into a caller-provided buffer
// (`Kokkos::View` subviews) and grow with `+= n`; here they are sequences
// that grow by appending.
module Boundaries {
  import opened Misc
  import opened Simplices
  import opened Chains

  // -----------------------------------------------------------------------
  // Facts about the directions of a vector.
  // -----------------------------------------------------------------------

  /** Two increasing sequences with the same elements are equal. */
  lemma {:induction false} SortedUnique(a: seq<nat>, b: seq<nat>)
    requires StrictlyIncreasing(a) && StrictlyIncreasing(b)
    requires forall x: nat :: x in a <==> x in b
    ensures a == b
    decreases |a| + |b|, if a == [] then 1 else 0
  {
    if a != [] {
      assert a[0] in b;
      assert b != [];
      assert b[0] in a;
      assert a[0] == b[0] by {
        var m :| 0 <= m < |a| && a[m] == b[0];
        var n :| 0 <= n < |b| && b[n] == a[0];
        assert a[0] <= a[m] && b[0] <= b[n];
      }
      forall x: nat ensures x in a[1..] <==> x in b[1..] {
        assert x in a[1..] <==> x in a && x > a[0];
        assert x in b[1..] <==> x in b && x > b[0];
      }
      SortedUnique(a[1..], b[1..]);
      assert a == [a[0]] + a[1..] && b == [b[0]] + b[1..];
    } else if b != [] {
      SortedUnique(b, a);
    }
  }

  lemma PositionsAre(v: seq<int>)
    ensures StrictlyIncreasing(Positions(v))
    ensures forall p: nat :: p in Positions(v) <==> p < |v| && v[p] != 0
  {
    PositionsFromAre(v, 0);
  }

  /** Negating a vector does not move its nonzero entries. */
  lemma PositionsOfOpposite(v: seq<int>)
    ensures Positions(Opposite(v)) == Positions(v)
  {
    PositionsAre(v);
    PositionsAre(Opposite(v));
    SortedUnique(Positions(Opposite(v)), Positions(v));
  }

  /** Zeroing the i-th nonzero entry removes the i-th position and keeps the others in order. */
  lemma PositionsOfZeroed(v: seq<int>, i: nat)
    requires i < |Positions(v)|
    ensures Positions(v[Positions(v)[i] := 0]) == RemoveImpl(Positions(v), i)
  {
    var ps := Positions(v);
    var w := v[ps[i] := 0];
    var r := RemoveImpl(ps, i);
    assert StrictlyIncreasing(r) && forall x: nat :: x in r <==> x < |w| && w[x] != 0 by {
      RemovedPositions(v, i);
    }
    PositionsAre(w);
    SortedUnique(r, Positions(w));
  }

  /** The positions left after removing the i-th are in order and are the nonzero entries of the zeroed vector. */
  lemma RemovedPositions(v: seq<int>, i: nat)
    requires i < |Positions(v)|
    ensures Positions(v)[i] < |v|
    ensures var r := RemoveImpl(Positions(v), i);
      StrictlyIncreasing(r) && forall x: nat :: x in r <==> x < |v| && v[Positions(v)[i] := 0][x] != 0
  {
    var ps := Positions(v);
    var r := RemoveImpl(ps, i);
    PositionsAre(v);
    assert ps[i] in ps;
    var w := v[ps[i] := 0];
    forall x: nat ensures x in r ==> x < |w| && w[x] != 0 {
      if x in r {
        var m :| 0 <= m < |r| && r[m] == x;
        assert x in ps && x != ps[i];
      }
    }
    forall x: nat | x < |w| && w[x] != 0 ensures x in r {
      assert x in ps;
      var m :| 0 <= m < |ps| && ps[m] == x;
      assert r[if m < i then m else m - 1] == x;
    }
  }

  lemma {:induction false} PositionsFromStep(v: seq<int>, d: nat)
    requires d < |v|
    ensures PositionsFrom(v, d) == if v[d] != 0 then [d] + PositionsFrom(v, d + 1) else PositionsFrom(v, d + 1)
  {
    if v[d] == 0 {
      assert FindNonzero(v, d) == FindNonzero(v, d + 1);
    }
  }

  /**
   * For a 0/1 vector v with a one at p, the negated vector with p zeroed
   * has one -1 for each one of v other than p.
   */
  lemma {:induction false} MinusOnesOfOppositeZeroed(v: seq<int>, p: nat, d: nat)
    requires Binary(v) && p < |v| && v[p] == 1 && d <= |v|
    ensures MinusOnes(Opposite(v)[p := 0], d) == |PositionsFrom(v, d)| - (if d <= p then 1 else 0)
    decreases |v| - d
  {
    if d < |v| {
      PositionsFromStep(v, d);
      MinusOnesOfOppositeZeroed(v, p, d + 1);
    }
  }

  // -----------------------------------------------------------------------
  // detail::generate_half_subchain and boundary(simplex).
  // -----------------------------------------------------------------------

  /** The orientation `(negative + i) % 2` of the i-th face of a half. */
  function Alternating(negative: bool, i: nat): bool
  {
    ((if negative then 1 else 0) + i) % 2 == 1
  }

  /**
   * The first k faces of a half: face i is built by the constructor from
   * elem and the vector with its i-th nonzero entry zeroed.
   */
  function HalfFaces(elem: seq<int>, vect: seq<int>, negative: bool, k: nat): (r: seq<Simplex>)
    requires |elem| == |vect| && Unit(vect) && k <= |Positions(vect)|
    ensures |r| == k
  {
    var ps := Positions(vect);
    seq(k, i requires 0 <= i < k => NewSimplex(elem, vect[ps[i] := 0], Alternating(negative, i)).value)
  }

  /**
   * `generate_half_subchain`: each step searches, with `find_if`, for the
   * next nonzero entry after the one found by the previous step, zeroes it
   * in a copy of the vector and builds the face.
   */
  method GenerateHalfSubchain(elem: seq<int>, vect: seq<int>, negative: bool, k: nat) returns (chain: seq<Simplex>)
    requires |elem| == |vect| && Unit(vect) && k <= |Positions(vect)|
    ensures chain == HalfFaces(elem, vect, negative, k)
  {
    ghost var ps := Positions(vect);
    ghost var faces := HalfFaces(elem, vect, negative, k);
    chain := [];
    var idDist: int := -1;
    for i := 0 to k
      invariant -1 <= idDist < |vect|
      invariant PositionsFrom(vect, idDist + 1) == ps[i..]
      invariant chain == faces[..i]
    {
      var id := FindNonzero(vect, idDist + 1);
      NextPosition(vect, ps, i, idDist, id);
      idDist := id;
      var face := HalfFace(elem, vect, negative, k, i, id);
      PrefixSnoc(faces, i);
      chain := chain + [face];
    }
    assert faces[..k] == faces;
  }

  /** The face that drops the i-th spanned direction, id, of a copy of the vector. */
  method HalfFace(elem: seq<int>, vect: seq<int>, negative: bool, k: nat, i: nat, id: nat) returns (face: Simplex)
    requires |elem| == |vect| && Unit(vect) && i < k <= |Positions(vect)| && id == Positions(vect)[i]
    ensures face == HalfFaces(elem, vect, negative, k)[i]
  {
    var vect' := vect[id := 0];
    HalfFaceAt(elem, vect, negative, k, i);
    face := NewSimplex(elem, vect', Alternating(negative, i)).value;
  }

  /** A prefix one longer is the shorter prefix and the next element. */
  lemma PrefixSnoc<T>(s: seq<T>, i: nat)
    requires i < |s|
    ensures s[..i + 1] == s[..i] + [s[i]]
  {
  }

  lemma HalfFaceAt(elem: seq<int>, vect: seq<int>, negative: bool, k: nat, i: nat)
    requires |elem| == |vect| && Unit(vect) && i < k <= |Positions(vect)|
    ensures Positions(vect)[i] < |vect| && Unit(vect[Positions(vect)[i] := 0])
    ensures HalfFaces(elem, vect, negative, k)[i]
      == NewSimplex(elem, vect[Positions(vect)[i] := 0], Alternating(negative, i)).value
  {
  }

  /** One step of the `find_if` scan: it finds the next position and leaves the rest to be found. */
  lemma NextPosition(vect: seq<int>, ps: seq<nat>, i: nat, idDist: int, id: nat)
    requires -1 <= idDist < |vect| && i < |ps| && PositionsFrom(vect, idDist + 1) == ps[i..]
    requires id == FindNonzero(vect, idDist + 1)
    ensures id == ps[i] < |vect|
    ensures PositionsFrom(vect, id + 1) == ps[i + 1..]
  {
    assert ps[i..] == [ps[i]] + ps[i + 1..];
  }

  /**
   * The boundary chain of a simplex of dimension K: the half at the origin
   * with orientation K % 2, the half at origin + vect spanned by -vect,
   * all negated when (K odd ? 1 : -1) * (negative ? -1 : 1) is -1.
   */
  function BoundaryOf(s: Simplex): (r: seq<Simplex>)
    requires WellFormed(s)
    ensures |r| == 2 * Dimension(s)
  {
    var k := Dimension(s);
    PositionsOfOpposite(s.vect);
    var chain := HalfFaces(s.origin, s.vect, Odd(k), k) + HalfFaces(Shift(s.origin, s.vect), Opposite(s.vect), false, k);
    if (Odd(k)) == s.negative then FlippedAll(chain) else chain
  }

  /** `boundary(simplex)`. */
  method Boundary(s: Simplex) returns (chain: seq<Simplex>)
    requires WellFormed(s)
    ensures chain == BoundaryOf(s)
  {
    var k := Dimension(s);
    var first := GenerateHalfSubchain(s.origin, s.vect, Odd(k), k);
    PositionsOfOpposite(s.vect);
    var second := GenerateHalfSubchain(Shift(s.origin, s.vect), Opposite(s.vect), false, k);
    chain := first + second;
    if (Odd(k)) == s.negative {
      chain := FlippedAll(chain);
    }
  }

  // -----------------------------------------------------------------------
  // The faces in closed form.
  // -----------------------------------------------------------------------

  /** Whether (i + h) is even: the orientation pattern of the faces. */
  function Even(i: nat, h: nat): bool
  {
    (i + h) % 2 == 0
  }

  /**
   * Face (h, i) of s: its i-th direction p removed, lying at the origin
   * (h = 0) or one step along p (h = 1); oriented as s when i + h is odd.
   */
  function Face(s: Simplex, h: nat, i: nat): (f: Simplex)
    requires WellFormed(s) && h <= 1 && i < Dimension(s)
  {
    var p := Positions(s.vect)[i];
    Simplex(s.origin[p := s.origin[p] + h], s.vect[p := 0], s.negative != Even(i, h))
  }

  /** A face built at the origin from a 0/1 vector is not reoriented. */
  lemma FirstHalfFace(s: Simplex, i: nat)
    requires WellFormed(s) && i < Dimension(s)
    ensures HalfFaces(s.origin, s.vect, Odd(Dimension(s)), Dimension(s))[i]
      == Face(s, 0, i).(negative := Alternating(Odd(Dimension(s)), i))
  {
    var p := Positions(s.vect)[i];
    var w := s.vect[p := 0];
    assert Binary(w);
    ReorientBinary(s.origin, w, Alternating(Odd(Dimension(s)), i));
    assert s.origin[p := s.origin[p] + 0] == s.origin;
  }

  /**
   * A face built at the far corner from the negated vector is reoriented
   * back to a 0/1 vector: its origin is one step along p from the simplex's
   * origin and its orientation flips once per remaining direction.
   */
  lemma FarCornerFace(o: seq<int>, v: seq<int>, p: nat, negative: bool, k: nat)
    requires |o| == |v| && Binary(v) && p < |v| && v[p] == 1 && |Positions(v)| == k
    ensures Unit(Opposite(v)[p := 0])
    ensures NewSimplex(Shift(o, v), Opposite(v)[p := 0], negative).value
      == Simplex(o[p := o[p] + 1], v[p := 0], negative != Odd(k - 1))
  {
    var w := Opposite(v)[p := 0];
    var r := NewSimplex(Shift(o, v), w, negative);
    assert r.Some?;
    var origin := o[p := o[p] + 1];
    var vect := v[p := 0];
    forall d | 0 <= d < |o| ensures r.value.origin[d] == origin[d] && r.value.vect[d] == vect[d] {
    }
    assert r.value.origin == origin;
    assert r.value.vect == vect;
    assert MinusOnes(w, 0) == k - 1 by {
      MinusOnesOfOppositeZeroed(v, p, 0);
    }
  }

  /** The far-corner face i, built by the constructor, is face (1, i) with the orientation it was given, flipped K - 1 times. */
  lemma FarCornerIsFace(s: Simplex, i: nat, negative: bool)
    requires WellFormed(s) && i < Dimension(s)
    ensures Positions(s.vect)[i] < |s.vect| && Unit(Opposite(s.vect)[Positions(s.vect)[i] := 0])
    ensures NewSimplex(Shift(s.origin, s.vect), Opposite(s.vect)[Positions(s.vect)[i] := 0], negative).value
      == Face(s, 1, i).(negative := negative != Odd(Dimension(s) - 1))
  {
    var p := Positions(s.vect)[i];
    assert p < |s.vect| && s.vect[p] == 1 by {
      PositionsAre(s.vect);
      assert p in Positions(s.vect);
    }
    FarCornerFace(s.origin, s.vect, p, negative, Dimension(s));
  }

  lemma SecondHalfFace(s: Simplex, i: nat)
    requires WellFormed(s) && i < Dimension(s)
    ensures Positions(Opposite(s.vect)) == Positions(s.vect)
    ensures HalfFaces(Shift(s.origin, s.vect), Opposite(s.vect), false, Dimension(s))[i]
      == Face(s, 1, i).(negative := Alternating(false, i) != Odd(Dimension(s) - 1))
  {
    PositionsOfOpposite(s.vect);
    var k := Dimension(s);
    FarCornerIsFace(s, i, Alternating(false, i));
    HalfFaceAt(Shift(s.origin, s.vect), Opposite(s.vect), false, k, i);
  }

  /** Position q < K of the boundary is face q of the first half, negated or not. */
  lemma BoundaryAtFirst(s: Simplex, q: nat)
    requires WellFormed(s) && q < Dimension(s)
    ensures var k := Dimension(s);
      var f := HalfFaces(s.origin, s.vect, Odd(k), k)[q];
      BoundaryOf(s)[q] == f.(negative := f.negative != (Odd(k) == s.negative))
  {
    var k := Dimension(s);
    PositionsOfOpposite(s.vect);
    var first := HalfFaces(s.origin, s.vect, Odd(k), k);
    var second := HalfFaces(Shift(s.origin, s.vect), Opposite(s.vect), false, k);
    var flip := Odd(k) == s.negative;
    assert BoundaryOf(s) == if flip then FlippedAll(first + second) else first + second;
    OrientedConcatAt(first, second, flip, q);
  }

  /** Position K + i of the boundary is face i of the second half, negated or not. */
  lemma BoundaryAtSecond(s: Simplex, i: nat)
    requires WellFormed(s) && i < Dimension(s)
    ensures Positions(Opposite(s.vect)) == Positions(s.vect)
    ensures var k := Dimension(s);
      var f := HalfFaces(Shift(s.origin, s.vect), Opposite(s.vect), false, k)[i];
      BoundaryOf(s)[k + i] == f.(negative := f.negative != (Odd(k) == s.negative))
  {
    var k := Dimension(s);
    PositionsOfOpposite(s.vect);
    var first := HalfFaces(s.origin, s.vect, Odd(k), k);
    var second := HalfFaces(Shift(s.origin, s.vect), Opposite(s.vect), false, k);
    var flip := Odd(k) == s.negative;
    assert BoundaryOf(s) == if flip then FlippedAll(first + second) else first + second;
    OrientedConcatAt(first, second, flip, k + i);
  }

  /** Position q of two halves, all negated or not. */
  lemma OrientedConcatAt(c: seq<Simplex>, d: seq<Simplex>, flip: bool, q: nat)
    requires q < |c| + |d|
    ensures var f := if q < |c| then c[q] else d[q - |c|];
      (if flip then FlippedAll(c + d) else c + d)[q] == f.(negative := f.negative != flip)
  {
  }

  /** The orientations of the first half come out as those of the faces (0, q). */
  lemma FirstHalfOrientation(k: nat, q: nat, negative: bool)
    ensures (Alternating(Odd(k), q) != (Odd(k) == negative)) == (negative != Even(q, 0))
  {
  }

  /** The orientations of the second half come out as those of the faces (1, i). */
  lemma SecondHalfOrientation(k: nat, i: nat, negative: bool)
    requires 1 <= k
    ensures ((Alternating(false, i) != Odd(k - 1)) != (Odd(k) == negative)) == (negative != Even(i, 1))
  {
  }

  /** The first half of the boundary: position q < K holds face (0, q). */
  lemma BoundaryFirstHalf(s: Simplex, q: nat)
    requires WellFormed(s) && q < Dimension(s)
    ensures BoundaryOf(s)[q] == Face(s, 0, q)
  {
    var k := Dimension(s);
    var g := Face(s, 0, q);
    var y := Alternating(Odd(k), q);
    var x := Odd(k) == s.negative;
    assert BoundaryOf(s)[q] == g.(negative := y != x) by {
      BoundaryAtFirst(s, q);
      FirstHalfFace(s, q);
    }
    assert (y != x) == g.negative by {
      FirstHalfOrientation(k, q, s.negative);
    }
  }

  /** Position K + i of the boundary is face (1, i), oriented by the half and by the final negation. */
  lemma BoundarySecondHalfAt(s: Simplex, i: nat)
    requires WellFormed(s) && i < Dimension(s)
    ensures var k := Dimension(s);
      BoundaryOf(s)[k + i] == Face(s, 1, i).(negative := (Alternating(false, i) != Odd(k - 1)) != (Odd(k) == s.negative))
  {
    BoundaryAtSecond(s, i);
    SecondHalfFace(s, i);
  }

  /** The second half of the boundary: position K + i holds face (1, i). */
  lemma BoundarySecondHalf(s: Simplex, i: nat)
    requires WellFormed(s) && i < Dimension(s)
    ensures BoundaryOf(s)[Dimension(s) + i] == Face(s, 1, i)
  {
    var k := Dimension(s);
    BoundarySecondHalfAt(s, i);
    SecondHalfOrientation(k, i, s.negative);
  }

  /** The 2K faces of s in the order of its boundary: the faces (0, i), then the faces (1, i). */
  function FaceChain(s: Simplex): (r: seq<Simplex>)
    requires WellFormed(s)
    ensures |r| == 2 * Dimension(s)
  {
    var k := Dimension(s);
    seq(2 * k, q requires 0 <= q < 2 * k => if q < k then Face(s, 0, q) else Face(s, 1, q - k))
  }

  /**
   * The boundary in closed form: position i < K holds face (0, i) and
   * position K + i holds face (1, i).
   */
  lemma BoundaryIsFaceChain(s: Simplex)
    requires WellFormed(s)
    ensures BoundaryOf(s) == FaceChain(s)
  {
    var k := Dimension(s);
    var b := BoundaryOf(s);
    var c := FaceChain(s);
    forall q | 0 <= q < 2 * k ensures b[q] == c[q] {
      if q < k {
        BoundaryFirstHalf(s, q);
        assert c[q] == Face(s, 0, q);
      } else {
        BoundarySecondHalf(s, q - k);
        assert c[q] == Face(s, 1, q - k);
      }
    }
    assert b == c;
  }

  /** A face is a well-formed simplex spanning the directions of s but its i-th. */
  lemma FaceShape(s: Simplex, h: nat, i: nat)
    requires WellFormed(s) && h <= 1 && i < Dimension(s)
    ensures Positions(s.vect)[i] < |s.vect| && s.vect[Positions(s.vect)[i]] == 1
    ensures WellFormed(Face(s, h, i))
    ensures Positions(Face(s, h, i).vect) == RemoveImpl(Positions(s.vect), i)
    ensures Dimension(Face(s, h, i)) == Dimension(s) - 1
  {
    var p := Positions(s.vect)[i];
    assert p < |s.vect| && s.vect[p] != 0 by {
      PositionsAre(s.vect);
      assert p in Positions(s.vect);
    }
    PositionsOfZeroed(s.vect, i);
  }

  /** Every face is well formed and has dimension K - 1. */
  lemma FaceChainWellFormed(s: Simplex)
    requires WellFormed(s)
    ensures AllWellFormed(FaceChain(s))
    ensures forall q :: 0 <= q < |FaceChain(s)| ==> Dimension(FaceChain(s)[q]) == Dimension(s) - 1
  {
    var k := Dimension(s);
    var c := FaceChain(s);
    forall q | 0 <= q < 2 * k ensures WellFormed(c[q]) && Dimension(c[q]) == k - 1 {
      if q < k {
        FaceShape(s, 0, q);
      } else {
        FaceShape(s, 1, q - k);
      }
    }
  }

  /** Every simplex of a boundary is well formed and has dimension K - 1. */
  lemma BoundaryWellFormed(s: Simplex)
    requires WellFormed(s)
    ensures AllWellFormed(BoundaryOf(s))
  {
    BoundaryIsFaceChain(s);
    FaceChainWellFormed(s);
  }

  // -----------------------------------------------------------------------
  // boundary(chain).
  // -----------------------------------------------------------------------

  /** The blocks one after the other. */
  function Flatten(bs: seq<seq<Simplex>>): (r: seq<Simplex>)
  {
    if bs == [] then [] else Flatten(bs[..|bs| - 1]) + bs[|bs| - 1]
  }

  lemma FlattenStep(bs: seq<seq<Simplex>>, i: nat)
    requires i < |bs|
    ensures Flatten(bs[..i + 1]) == Flatten(bs[..i]) + bs[i]
  {
    assert bs[..i + 1][..i] == bs[..i];
  }

  /** Every element of every block appears in the flattened sequence. */
  lemma {:induction false} FlattenMember(bs: seq<seq<Simplex>>, m: nat, r: nat)
    requires m < |bs| && r < |bs[m]|
    ensures bs[m][r] in Flatten(bs)
  {
    var n := |bs| - 1;
    if m < n {
      FlattenMember(bs[..n], m, r);
    } else {
      assert bs[m][r] in bs[n];
    }
  }

  /** Everything in the flattened sequence comes from some block. */
  lemma {:induction false} FlattenIndex(bs: seq<seq<Simplex>>, x: Simplex) returns (m: nat, r: nat)
    requires x in Flatten(bs)
    ensures m < |bs| && r < |bs[m]| && bs[m][r] == x
  {
    var n := |bs| - 1;
    if x in Flatten(bs[..n]) {
      m, r := FlattenIndex(bs[..n], x);
    } else {
      m := n;
      assert x in bs[n];
      r :| 0 <= r < |bs[n]| && bs[n][r] == x;
    }
  }

  /** Well-formed blocks flatten to a well-formed sequence. */
  lemma {:induction false} FlattenWellFormed(bs: seq<seq<Simplex>>)
    requires forall m :: 0 <= m < |bs| ==> AllWellFormed(bs[m])
    ensures AllWellFormed(Flatten(bs))
  {
    if bs != [] {
      FlattenWellFormed(bs[..|bs| - 1]);
    }
  }

  /** Blocks without duplicates that share no element flatten to a sequence without duplicates. */
  lemma {:induction false} FlattenDistinct(bs: seq<seq<Simplex>>)
    requires forall m :: 0 <= m < |bs| ==> NoDuplicates(bs[m])
    requires forall m1, r1, m2, r2 ::
      0 <= m1 < m2 < |bs| && 0 <= r1 < |bs[m1]| && 0 <= r2 < |bs[m2]| ==> bs[m1][r1] != bs[m2][r2]
    ensures NoDuplicates(Flatten(bs))
  {
    if bs != [] {
      var n := |bs| - 1;
      var front := bs[..n];
      FlattenDistinct(front);
      forall x | x in Flatten(front) ensures x !in bs[n] {
        var m, r := FlattenIndex(front, x);
        forall r2 | 0 <= r2 < |bs[n]| ensures bs[n][r2] != x {
          assert bs[m][r] != bs[n][r2];
        }
      }
      ConcatDistinct(Flatten(front), bs[n]);
    }
  }

  /** The boundary of each simplex of c, in order. */
  function BoundaryBlocks(c: seq<Simplex>): (bs: seq<seq<Simplex>>)
    requires AllWellFormed(c)
    ensures |bs| == |c|
  {
    seq(|c|, m requires 0 <= m < |c| => BoundaryOf(c[m]))
  }

  /** The faces of each simplex of c, in order. */
  function FaceBlocks(c: seq<Simplex>): (bs: seq<seq<Simplex>>)
    requires AllWellFormed(c)
    ensures |bs| == |c|
  {
    seq(|c|, m requires 0 <= m < |c| => FaceChain(c[m]))
  }

  lemma BoundaryBlocksAreFaceBlocks(c: seq<Simplex>)
    requires AllWellFormed(c)
    ensures BoundaryBlocks(c) == FaceBlocks(c)
  {
    forall m | 0 <= m < |c| ensures BoundaryBlocks(c)[m] == FaceBlocks(c)[m] {
      BoundaryIsFaceChain(c[m]);
    }
  }

  /** The gathered boundaries are well formed. */
  lemma BoundaryBlocksWellFormed(c: seq<Simplex>)
    requires AllWellFormed(c)
    ensures AllWellFormed(Flatten(BoundaryBlocks(c)))
  {
    var bs := BoundaryBlocks(c);
    forall m | 0 <= m < |bs| ensures AllWellFormed(bs[m]) {
      BoundaryWellFormed(c[m]);
    }
    FlattenWellFormed(bs);
  }

  /**
   * `boundary(chain)`: each simplex writes its boundary into the next block
   * of the buffer; the chain over the buffer takes in the blocks and is
   * optimized, whose closing assertion asks that no simplex be left twice.
   */
  method BoundaryOfChain(c: seq<Simplex>) returns (chain: Chain)
    requires AllWellFormed(c) && NoDuplicates(Optimized(Flatten(BoundaryBlocks(c))))
    ensures fresh(chain) && chain.simplices == Optimized(Flatten(BoundaryBlocks(c)))
  {
    ghost var bs := BoundaryBlocks(c);
    var buffer: seq<Simplex> := [];
    for i := 0 to |c|
      invariant buffer == Flatten(bs[..i])
    {
      var faces := Boundary(c[i]);
      FlattenStep(bs, i);
      buffer := buffer + faces;
    }
    assert bs[..|c|] == bs;
    chain := new Chain.Empty();
    TakeIn(chain, buffer);
    assert chain.simplices == buffer;
    BoundaryBlocksWellFormed(c);
    chain.Optimize();
  }

  /** The chain takes in the faces just written after its end, one at a time. */
  method TakeIn(chain: Chain, faces: seq<Simplex>)
    modifies chain
    ensures chain.simplices == old(chain.simplices) + faces
  {
    for j := 0 to |faces|
      invariant chain.simplices == old(chain.simplices) + faces[..j]
    {
      chain.PushBack(faces[j]);
      assert faces[..j + 1] == faces[..j] + [faces[j]];
    }
    assert faces[..|faces|] == faces;
  }

  // -----------------------------------------------------------------------
  // The boundaries the unit tests expect, over the grid dimensions T, X, Y, Z.
  // -----------------------------------------------------------------------

  /** The edge along X from the origin: its boundary is -(origin) + (origin + X). */
  lemma BoundaryOfEdge()
    ensures BoundaryOf(Simplex([0, 0, 0, 0], [0, 1, 0, 0], false))
      == [Simplex([0, 0, 0, 0], [0, 0, 0, 0], true), Simplex([0, 1, 0, 0], [0, 0, 0, 0], false)]
  {
    var s := Simplex([0, 0, 0, 0], [0, 1, 0, 0], false);
    assert Positions(s.vect) == [1];
    assert Face(s, 0, 0) == Simplex([0, 0, 0, 0], [0, 0, 0, 0], true);
    assert Face(s, 1, 0) == Simplex([0, 1, 0, 0], [0, 0, 0, 0], false);
    var c := FaceChain(s);
    assert c[0] == Face(s, 0, 0) && c[1] == Face(s, 1, 0);
    BoundaryIsFaceChain(s);
  }

  /** The square spanned by T and X: its four sides, oriented around it. */
  lemma BoundaryOfSquare()
    ensures BoundaryOf(Simplex([0, 0, 0, 0], [1, 1, 0, 0], false))
      == [Simplex([0, 0, 0, 0], [0, 1, 0, 0], true), Simplex([0, 0, 0, 0], [1, 0, 0, 0], false),
          Simplex([1, 0, 0, 0], [0, 1, 0, 0], false), Simplex([0, 1, 0, 0], [1, 0, 0, 0], true)]
  {
    var s := Simplex([0, 0, 0, 0], [1, 1, 0, 0], false);
    BoundaryIsFaceChain(s);
    SquareFaces(s);
  }

  lemma SquareFaces(s: Simplex)
    requires s == Simplex([0, 0, 0, 0], [1, 1, 0, 0], false)
    ensures FaceChain(s)
      == [Simplex([0, 0, 0, 0], [0, 1, 0, 0], true), Simplex([0, 0, 0, 0], [1, 0, 0, 0], false),
          Simplex([1, 0, 0, 0], [0, 1, 0, 0], false), Simplex([0, 1, 0, 0], [1, 0, 0, 0], true)]
  {
    SquarePositions();
    assert Face(s, 0, 0) == Simplex([0, 0, 0, 0], [0, 1, 0, 0], true);
    assert Face(s, 0, 1) == Simplex([0, 0, 0, 0], [1, 0, 0, 0], false);
    assert Face(s, 1, 0) == Simplex([1, 0, 0, 0], [0, 1, 0, 0], false);
    assert Face(s, 1, 1) == Simplex([0, 1, 0, 0], [1, 0, 0, 0], true);
  }

  /** The square over the first two directions is spanned by them. */
  lemma SquarePositions()
    ensures Positions([1, 1, 0, 0]) == [0, 1]
  {
    var w := [1, 1, 0, 0];
    assert FindNonzero(w, 4) == 4 && PositionsFrom(w, 4) == [];
    assert FindNonzero(w, 2) == 4 && PositionsFrom(w, 2) == [];
    assert FindNonzero(w, 1) == 1 && PositionsFrom(w, 1) == [1];
    assert FindNonzero(w, 0) == 0;
  }
}
