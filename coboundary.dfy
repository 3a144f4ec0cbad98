// `sil::exterior::coboundary`: the discrete exterior derivative. On a
// cochain over the boundary of one simplex it rebuilds that simplex and
// pairs it with the integral of the cochain (Stokes' theorem read
// backwards). On a tensor over an antisymmetric index it does the same for
// every grid element and every tangent direction of the next rank: the
// value in slot i is the integral, over the faces of the simplex spanned by
// the i-th basis vector, of the tensor's values on those faces.
//
// The input tensor is a function of the grid element and the memory slot;
// the output tensor is an array with one row of slots per grid element.
module Coboundaries {
  import opened Misc
  import opened Binomial
  import opened Simplices
  import opened Chains
  import opened Boundaries
  import opened LocalChains
  import opened Cochains
  import opened Permutations

  // ---------------------------------------------------------------------
  // detail::ComputeSimplex
  // ---------------------------------------------------------------------

  /** Every simplex of the chain lives in the n-dimensional grid. */
  predicate InGrid(chain: seq<Simplex>, n: nat)
  {
    forall i :: 0 <= i < |chain| ==> |chain[i].origin| == n && |chain[i].vect| == n
  }

  /** Every simplex of the chain is a k-simplex, as the chain's type says. */
  predicate OfDimension(chain: seq<Simplex>, k: nat)
  {
    forall i :: 0 <= i < |chain| ==> Dimension(chain[i]) == k
  }

  /** Entry-wise OR of two vectors, as 0/1 flags. */
  function Or(a: seq<int>, b: seq<int>): (r: seq<int>)
    requires |a| == |b|
    ensures |r| == |a| && Binary(r)
    ensures forall d :: 0 <= d < |a| ==> (r[d] == 1 <==> a[d] != 0 || b[d] != 0)
  {
    seq(|a|, d requires 0 <= d < |a| => if a[d] != 0 || b[d] != 0 then 1 else 0)
  }

  /** The OR of the vectors of the first i simplices of the chain. */
  function Spanned(chain: seq<Simplex>, n: nat, i: nat): (v: seq<int>)
    requires InGrid(chain, n) && i <= |chain|
    ensures |v| == n && Binary(v)
  {
    if i == 0 then Origin(n) else Or(Spanned(chain, n, i - 1), chain[i - 1].vect)
  }

  /** A direction is spanned exactly when one of the first i vectors has it. */
  lemma {:induction false} SpannedIs(chain: seq<Simplex>, n: nat, i: nat, d: nat)
    requires InGrid(chain, n) && i <= |chain| && d < n
    ensures Spanned(chain, n, i)[d] == 1 <==> exists j :: 0 <= j < i && chain[j].vect[d] != 0
  {
    if i > 0 {
      SpannedIs(chain, n, i - 1, d);
    }
  }

  /**
   * `ComputeSimplex::run`: the OR of the vectors of the chain, as a
   * (K+1)-simplex at the origin of the chain's first simplex. It is
   * always positive.
   */
  method ComputeSimplex(chain: seq<Simplex>) returns (s: Simplex)
    requires |chain| > 0 && InGrid(chain, |chain[0].origin|)
    ensures s == Simplex(chain[0].origin, Spanned(chain, |chain[0].origin|, |chain|), false)
  {
    var n := |chain[0].origin|;
    var vect := Origin(n);
    var i := 0;
    while i < |chain|
      invariant i <= |chain| && vect == Spanned(chain, n, i)
    {
      vect := Or(vect, chain[i].vect);
      i := i + 1;
    }
    ReorientBinary(chain[0].origin, vect, false);
    s := NewSimplex(chain[0].origin, vect, false).value;
  }

  /** Or, also marking the directions along which the face's origin leaves `base`. */
  function Widen(a: seq<int>, f: Simplex, base: seq<int>): (r: seq<int>)
    requires |a| == |f.vect| == |f.origin| == |base|
    ensures |r| == |a| && Binary(r)
    ensures forall d :: 0 <= d < |a| ==> (r[d] == 1 <==> a[d] != 0 || f.vect[d] != 0 || f.origin[d] != base[d])
  {
    seq(|a|, d requires 0 <= d < |a| => if a[d] != 0 || f.vect[d] != 0 || f.origin[d] != base[d] then 1 else 0)
  }

  /**
   * The directions the first i simplices span or move along, measured from
   * the first simplex's origin: the vector of the simplex whose boundary
   * the chain is.
   */
  function Reach(chain: seq<Simplex>, n: nat, i: nat): (v: seq<int>)
    requires InGrid(chain, n) && i <= |chain|
    ensures |v| == n && Binary(v)
  {
    if i == 0 then Origin(n) else Widen(Reach(chain, n, i - 1), chain[i - 1], chain[0].origin)
  }

  /** A direction is in the extent exactly when one of the first i simplices spans it or is displaced along it. */
  lemma {:induction false} ReachIs(chain: seq<Simplex>, n: nat, i: nat, d: nat)
    requires InGrid(chain, n) && i <= |chain| && d < n
    ensures Reach(chain, n, i)[d] == 1 <==>
      exists j :: 0 <= j < i && (chain[j].vect[d] != 0 || chain[j].origin[d] != chain[0].origin[d])
  {
    if i > 0 {
      ReachIs(chain, n, i - 1, d);
    }
  }

  /**
   * `ComputeSimplex::run` as it should be: the vector also collects the
   * directions along which faces are displaced (which is how the two
   * faces of an edge differ), and the orientation is the opposite of the
   * first face's.
   */
  method ComputeSimplexCorrected(chain: seq<Simplex>) returns (s: Simplex)
    requires |chain| > 0 && InGrid(chain, |chain[0].origin|)
    ensures s == Simplex(chain[0].origin, Reach(chain, |chain[0].origin|, |chain|), !chain[0].negative)
  {
    var n := |chain[0].origin|;
    var vect := Origin(n);
    var i := 0;
    while i < |chain|
      invariant i <= |chain| && vect == Reach(chain, n, i)
    {
      vect := Widen(vect, chain[i], chain[0].origin);
      i := i + 1;
    }
    ReorientBinary(chain[0].origin, vect, !chain[0].negative);
    s := NewSimplex(chain[0].origin, vect, !chain[0].negative).value;
  }

  // ---------------------------------------------------------------------
  // What the boundary of a simplex gives back
  // ---------------------------------------------------------------------

  /** A face spans no direction s lacks, and is displaced only along a direction of s. */
  lemma FaceWithin(s: Simplex, h: nat, i: nat, d: nat)
    requires WellFormed(s) && h <= 1 && i < Dimension(s) && d < |s.vect|
    ensures |Face(s, h, i).vect| == |s.vect| && |Face(s, h, i).origin| == |s.vect|
    ensures Face(s, h, i).vect[d] != 0 ==> s.vect[d] == 1
    ensures Face(s, h, i).origin[d] != s.origin[d] ==> s.vect[d] == 1
  {
    FaceShape(s, h, i);
  }

  /** The faces of a simplex live in its grid, have one dimension less, and the first lies at its origin with the opposite orientation. */
  lemma FacesInGrid(s: Simplex)
    requires WellFormed(s) && Dimension(s) >= 1
    ensures InGrid(BoundaryOf(s), |s.vect|) && OfDimension(BoundaryOf(s), Dimension(s) - 1)
    ensures BoundaryOf(s)[0].origin == s.origin && BoundaryOf(s)[0].negative == !s.negative
  {
    BoundaryIsFaceChain(s);
    var c := FaceChain(s);
    forall q | 0 <= q < |c|
      ensures |c[q].origin| == |s.vect| && |c[q].vect| == |s.vect| && Dimension(c[q]) == Dimension(s) - 1
    {
      if q < Dimension(s) {
        FaceShape(s, 0, q);
      } else {
        FaceShape(s, 1, q - Dimension(s));
      }
    }
    assert c[0] == Face(s, 0, 0);
    var p := Positions(s.vect)[0];
    FaceShape(s, 0, 0);
    assert s.origin[p := s.origin[p] + 0] == s.origin;
  }

  /** The index at which a direction of s sits among its directions. */
  lemma DirectionIndex(s: Simplex, d: nat) returns (j: nat)
    requires WellFormed(s) && d < |s.vect| && s.vect[d] == 1
    ensures j < Dimension(s) && Positions(s.vect)[j] == d
  {
    PositionsAre(s.vect);
    assert d in Positions(s.vect);
    j :| 0 <= j < |Positions(s.vect)| && Positions(s.vect)[j] == d;
  }

  /**
   * For a simplex of dimension at least 2 the OR of its faces' vectors is
   * its own vector: each direction survives in a face that removed
   * another one.
   */
  lemma SpannedOfBoundary(s: Simplex)
    requires WellFormed(s) && Dimension(s) >= 2
    ensures InGrid(BoundaryOf(s), |s.vect|)
    ensures Spanned(BoundaryOf(s), |s.vect|, |BoundaryOf(s)|) == s.vect
  {
    FacesInGrid(s);
    BoundaryIsFaceChain(s);
    var c := FaceChain(s);
    var n := |s.vect|;
    var k := Dimension(s);
    forall d | 0 <= d < n
      ensures Spanned(c, n, |c|)[d] == s.vect[d]
    {
      SpannedIs(c, n, |c|, d);
      if s.vect[d] == 1 {
        SomeFaceSpans(s, d);
      } else {
        NoFaceSpans(s, d);
      }
    }
  }

  /** A direction of s is a direction of one of its first two faces. */
  lemma SomeFaceSpans(s: Simplex, d: nat)
    requires WellFormed(s) && Dimension(s) >= 2 && d < |s.vect| && s.vect[d] == 1
    ensures exists q :: 0 <= q < |FaceChain(s)| && d < |FaceChain(s)[q].vect| && FaceChain(s)[q].vect[d] != 0
  {
    BoundaryIsFaceChain(s);
    FacesInGrid(s);
    var c := FaceChain(s);
    var j := DirectionIndex(s, d);
    var i := if j == 0 then 1 else 0;
    PositionsAre(s.vect);
    assert Positions(s.vect)[i] != d;
    assert c[i] == Face(s, 0, i);
    assert c[i].vect[d] != 0;
  }

  /** A direction s does not span is spanned by none of its faces. */
  lemma NoFaceSpans(s: Simplex, d: nat)
    requires WellFormed(s) && Dimension(s) >= 1 && d < |s.vect| && s.vect[d] != 1
    ensures forall q :: 0 <= q < |FaceChain(s)| ==> d < |FaceChain(s)[q].vect| && FaceChain(s)[q].vect[d] == 0
  {
    BoundaryIsFaceChain(s);
    FacesInGrid(s);
    var c := FaceChain(s);
    var k := Dimension(s);
    forall q | 0 <= q < |c|
      ensures c[q].vect[d] == 0
    {
      if q < k {
        FaceWithin(s, 0, q, d);
      } else {
        FaceWithin(s, 1, q - k, d);
      }
    }
  }

  /**
   * The two faces of an edge are points: their OR is the zero vector, so
   * `ComputeSimplex` does not give the edge back.
   */
  lemma SpannedOfEdge(s: Simplex)
    requires WellFormed(s) && Dimension(s) == 1
    ensures InGrid(BoundaryOf(s), |s.vect|)
    ensures Spanned(BoundaryOf(s), |s.vect|, |BoundaryOf(s)|) == Origin(|s.vect|) != s.vect
  {
    FacesInGrid(s);
    BoundaryIsFaceChain(s);
    var c := FaceChain(s);
    var n := |s.vect|;
    FaceShape(s, 0, 0);
    var p := Positions(s.vect)[0];
    forall d | 0 <= d < n
      ensures Spanned(c, n, |c|)[d] == 0
    {
      SpannedIs(c, n, |c|, d);
      forall q | 0 <= q < 2
        ensures c[q].vect[d] == 0
      {
        FaceWithin(s, q, 0, d);
        if s.vect[d] == 1 {
          var j := DirectionIndex(s, d);
        }
      }
    }
    assert s.vect[p] != Origin(n)[p];
  }

  /**
   * For every simplex of dimension at least 1 the corrected computation
   * gives the simplex back: its faces span or move along exactly its
   * directions, the first face lies at its origin, and that face's
   * orientation is the opposite of its own.
   */
  lemma ReachOfBoundary(s: Simplex)
    requires WellFormed(s) && Dimension(s) >= 1
    ensures InGrid(BoundaryOf(s), |s.vect|)
    ensures BoundaryOf(s)[0].origin == s.origin && !BoundaryOf(s)[0].negative == s.negative
    ensures Reach(BoundaryOf(s), |s.vect|, |BoundaryOf(s)|) == s.vect
  {
    FacesInGrid(s);
    BoundaryIsFaceChain(s);
    var c := FaceChain(s);
    var n := |s.vect|;
    var k := Dimension(s);
    forall d | 0 <= d < n
      ensures Reach(c, n, |c|)[d] == s.vect[d]
    {
      ReachIs(c, n, |c|, d);
      if s.vect[d] == 1 {
        var j := DirectionIndex(s, d);
        assert c[k + j] == Face(s, 1, j);
        assert c[k + j].origin[d] != c[0].origin[d];
      } else {
        forall q | 0 <= q < |c|
          ensures c[q].vect[d] == 0 && c[q].origin[d] == c[0].origin[d]
        {
          if q < k {
            FaceWithin(s, 0, q, d);
          } else {
            FaceWithin(s, 1, q - k, d);
          }
        }
      }
    }
  }

  // ---------------------------------------------------------------------
  // coboundary(cochain)
  // ---------------------------------------------------------------------

  /**
   * `coboundary(cochain)`: asserts that the cochain has the 2(K+1) faces
   * of a (K+1)-simplex, and returns that simplex with the cochain's
   * integral. The simplex is rebuilt by the corrected computation.
   */
  method Coboundary(c: Cochain, k: nat) returns (r: Cosimplex)
    requires OfDimension(c.chain, k) && |c.chain| == 2 * (k + 1)
    requires InGrid(c.chain, |c.chain[0].origin|)
    ensures r.simplex == Simplex(c.chain[0].origin, Reach(c.chain, |c.chain[0].origin|, |c.chain|), !c.chain[0].negative)
    ensures r.value == Integral(c)
  {
    var s := ComputeSimplexCorrected(c.chain);
    var value := Integrate(c);
    r := Cosimplex(s, value);
  }

  /**
   * `coboundary(cochain)` as written, rebuilding the simplex with
   * `ComputeSimplex::run`: a positive simplex whose vector is the OR of the
   * faces' vectors. `SpannedOfEdge` and `OrientationLostAsWritten` say
   * what that loses.
   */
  method CoboundaryAsWritten(c: Cochain, k: nat) returns (r: Cosimplex)
    requires OfDimension(c.chain, k) && |c.chain| == 2 * (k + 1)
    requires InGrid(c.chain, |c.chain[0].origin|)
    ensures r.simplex == Simplex(c.chain[0].origin, Spanned(c.chain, |c.chain[0].origin|, |c.chain|), false)
    ensures r.value == Integral(c)
  {
    var s := ComputeSimplex(c.chain);
    var value := Integrate(c);
    r := Cosimplex(s, value);
  }

  /** Face (h, i) of s, when its i-th direction is p. */
  lemma FaceAt(s: Simplex, h: nat, i: nat, p: nat)
    requires WellFormed(s) && h <= 1 && i < Dimension(s) && Positions(s.vect)[i] == p
    ensures p < |s.vect|
    ensures Face(s, h, i) == Simplex(s.origin[p := s.origin[p] + h], s.vect[p := 0], s.negative != Even(i, h))
  {
    FaceShape(s, h, i);
  }

  /** The boundary of an oriented square spanning directions a < b, face by face. */
  lemma SquareBoundary(s: Simplex, a: nat, b: nat)
    requires WellFormed(s) && Positions(s.vect) == [a, b]
    ensures a < |s.vect| && b < |s.vect|
    ensures BoundaryOf(s) == [Simplex(s.origin, s.vect[a := 0], !s.negative),
                              Simplex(s.origin, s.vect[b := 0], s.negative),
                              Simplex(s.origin[a := s.origin[a] + 1], s.vect[a := 0], s.negative),
                              Simplex(s.origin[b := s.origin[b] + 1], s.vect[b := 0], !s.negative)]
  {
    LowFace(s, 0, a);
    LowFace(s, 1, b);
    HighFace(s, 0, a);
    HighFace(s, 1, b);
    assert |BoundaryOf(s)| == 4 by {
      BoundaryWellFormed(s);
    }
    ListOfFour(BoundaryOf(s), Simplex(s.origin, s.vect[a := 0], !s.negative), Simplex(s.origin, s.vect[b := 0], s.negative),
               Simplex(s.origin[a := s.origin[a] + 1], s.vect[a := 0], s.negative),
               Simplex(s.origin[b := s.origin[b] + 1], s.vect[b := 0], !s.negative));
  }

  /** Face i of the first half of the boundary: direction p dropped at the origin. */
  lemma LowFace(s: Simplex, i: nat, p: nat)
    requires WellFormed(s) && i < Dimension(s) && Positions(s.vect)[i] == p
    ensures p < |s.vect| && i < |BoundaryOf(s)|
    ensures BoundaryOf(s)[i] == Simplex(s.origin, s.vect[p := 0], s.negative != Even(i, 0))
  {
    BoundaryFirstHalf(s, i);
    FaceAt(s, 0, i, p);
    assert s.origin[p := s.origin[p] + 0] == s.origin;
  }

  /** Face i of the second half of the boundary: direction p dropped, one step along p. */
  lemma HighFace(s: Simplex, i: nat, p: nat)
    requires WellFormed(s) && i < Dimension(s) && Positions(s.vect)[i] == p
    ensures p < |s.vect| && Dimension(s) + i < |BoundaryOf(s)|
    ensures BoundaryOf(s)[Dimension(s) + i] == Simplex(s.origin[p := s.origin[p] + 1], s.vect[p := 0], s.negative != Even(i, 1))
  {
    BoundarySecondHalf(s, i);
    FaceAt(s, 1, i, p);
  }

  /** A list of four simplices, element by element. */
  lemma ListOfFour(c: seq<Simplex>, f0: Simplex, f1: Simplex, f2: Simplex, f3: Simplex)
    requires |c| == 4 && c[0] == f0 && c[1] == f1 && c[2] == f2 && c[3] == f3
    ensures c == [f0, f1, f2, f3]
  {
  }

  /** The boundary of an oriented edge along direction a: its start, then its end. */
  lemma EdgeBoundary(s: Simplex, a: nat)
    requires WellFormed(s) && Positions(s.vect) == [a]
    ensures a < |s.vect|
    ensures BoundaryOf(s) == [Simplex(s.origin, s.vect[a := 0], !s.negative),
                              Simplex(s.origin[a := s.origin[a] + 1], s.vect[a := 0], s.negative)]
  {
    LowFace(s, 0, a);
    HighFace(s, 0, a);
    assert |BoundaryOf(s)| == 2 by {
      BoundaryWellFormed(s);
    }
    ListOfTwo(BoundaryOf(s), Simplex(s.origin, s.vect[a := 0], !s.negative),
              Simplex(s.origin[a := s.origin[a] + 1], s.vect[a := 0], s.negative));
  }

  /** A list of two simplices, element by element. */
  lemma ListOfTwo(c: seq<Simplex>, f0: Simplex, f1: Simplex)
    requires |c| == 2 && c[0] == f0 && c[1] == f1
    ensures c == [f0, f1]
  {
  }

  /** The value read for a face, given where and in which slot it is read. */
  lemma FaceValueAt(field: Field, dom: seq<Extent>, elem: seq<int>, lower: seq<Vect>, f: Simplex, at: seq<int>, slot: nat)
    requires (if DomainContains(dom, ElementMap(f.origin)) then f.origin else elem) == at
    requires IndexOf(lower, f.vect) == slot
    ensures FaceValue(field, dom, elem, lower, f) == field(at, slot)
  {
  }

  /** The face values of a two-face chain, face by face. */
  lemma ValuesOfTwo(field: Field, dom: seq<Extent>, elem: seq<int>, lower: seq<Vect>, f0: Simplex, f1: Simplex)
    ensures FaceValues(field, dom, elem, lower, [f0, f1]) ==
      [FaceValue(field, dom, elem, lower, f0), FaceValue(field, dom, elem, lower, f1)]
  {
  }

  /** The face values of a four-face chain, face by face. */
  lemma ValuesOfFour(field: Field, dom: seq<Extent>, elem: seq<int>, lower: seq<Vect>, f0: Simplex, f1: Simplex, f2: Simplex, f3: Simplex)
    ensures FaceValues(field, dom, elem, lower, [f0, f1, f2, f3]) ==
      [FaceValue(field, dom, elem, lower, f0), FaceValue(field, dom, elem, lower, f1),
       FaceValue(field, dom, elem, lower, f2), FaceValue(field, dom, elem, lower, f3)]
  {
  }

  /** The integral over two faces. */
  lemma IntegralOfTwo(c: Cochain)
    requires |c.chain| == 2 && |c.values| == 2
    ensures Integral(c) == Sign(c.chain[0]) * c.values[0] + Sign(c.chain[1]) * c.values[1]
  {
    assert SignedSum(c.chain, c.values, 1) == Sign(c.chain[0]) * c.values[0];
  }

  /** The integral over four faces. */
  lemma IntegralOfFour(c: Cochain)
    requires |c.chain| == 4 && |c.values| == 4
    ensures Integral(c) == Sign(c.chain[0]) * c.values[0] + Sign(c.chain[1]) * c.values[1]
                         + Sign(c.chain[2]) * c.values[2] + Sign(c.chain[3]) * c.values[3]
  {
    assert SignedSum(c.chain, c.values, 1) == Sign(c.chain[0]) * c.values[0];
    assert SignedSum(c.chain, c.values, 2) == SignedSum(c.chain, c.values, 1) + Sign(c.chain[1]) * c.values[1];
    assert SignedSum(c.chain, c.values, 3) == SignedSum(c.chain, c.values, 2) + Sign(c.chain[2]) * c.values[2];
  }

  /**
   * The library's coboundary example: the cochain with values 5, 8, 3 and
   * 2 on the boundary of the XY square at (0, 1, 0, 0) has the square as
   * coboundary, with value 4.
   */
  method CoboundaryExample() returns (r: Cosimplex)
    ensures r == Cosimplex(Simplex([0, 1, 0, 0], [0, 1, 1, 0], false), 4)
  {
    var s := Simplex([0, 1, 0, 0], [0, 1, 1, 0], false);
    ExampleSquare();
    var faces := Boundary(s);
    var c := FromValues(faces, [5, 8, 3, 2]);
    r := Coboundary(c, 1);
  }

  /** The facts the example needs about the boundary of the XY square at (0, 1, 0, 0). */
  lemma ExampleSquare()
    ensures var s := Simplex([0, 1, 0, 0], [0, 1, 1, 0], false);
      WellFormed(s) && |BoundaryOf(s)| == 4 && OfDimension(BoundaryOf(s), 1) && InGrid(BoundaryOf(s), 4) &&
      BoundaryOf(s)[0].origin == [0, 1, 0, 0] && BoundaryOf(s)[0].negative &&
      Reach(BoundaryOf(s), 4, 4) == [0, 1, 1, 0] &&
      Integral(FromValues(BoundaryOf(s), [5, 8, 3, 2])) == 4
  {
    var s := Simplex([0, 1, 0, 0], [0, 1, 1, 0], false);
    ExampleFaces();
    ReachOfBoundary(s);
    FacesInGrid(s);
    ExampleIntegral();
  }

  /** The four faces of the XY square at (0, 1, 0, 0), in boundary order. */
  lemma ExampleFaces()
    ensures WellFormed(Simplex([0, 1, 0, 0], [0, 1, 1, 0], false))
    ensures BoundaryOf(Simplex([0, 1, 0, 0], [0, 1, 1, 0], false))
         == [Simplex([0, 1, 0, 0], [0, 0, 1, 0], true), Simplex([0, 1, 0, 0], [0, 1, 0, 0], false),
             Simplex([0, 2, 0, 0], [0, 0, 1, 0], false), Simplex([0, 1, 1, 0], [0, 1, 0, 0], true)]
  {
    var s := Simplex([0, 1, 0, 0], [0, 1, 1, 0], false);
    ExamplePositions();
    SquareBoundary(s, 1, 2);
    assert s.vect[1 := 0] == [0, 0, 1, 0] && s.vect[2 := 0] == [0, 1, 0, 0];
    assert s.origin[1 := s.origin[1] + 1] == [0, 2, 0, 0] && s.origin[2 := s.origin[2] + 1] == [0, 1, 1, 0];
  }

  /** The XY square at (0, 1, 0, 0) is well formed and spans directions 1 and 2. */
  lemma ExamplePositions()
    ensures WellFormed(Simplex([0, 1, 0, 0], [0, 1, 1, 0], false))
    ensures Positions([0, 1, 1, 0]) == [1, 2]
  {
  }

  /** The integral of 5, 8, 3, 2 over those faces. */
  lemma ExampleIntegral()
    ensures Integral(FromValues([Simplex([0, 1, 0, 0], [0, 0, 1, 0], true), Simplex([0, 1, 0, 0], [0, 1, 0, 0], false),
                                 Simplex([0, 2, 0, 0], [0, 0, 1, 0], false), Simplex([0, 1, 1, 0], [0, 1, 0, 0], true)],
                                [5, 8, 3, 2])) == 4
  {
    IntegralOfFour(FromValues([Simplex([0, 1, 0, 0], [0, 0, 1, 0], true), Simplex([0, 1, 0, 0], [0, 1, 0, 0], false),
                               Simplex([0, 2, 0, 0], [0, 0, 1, 0], false), Simplex([0, 1, 1, 0], [0, 1, 0, 0], true)],
                              [5, 8, 3, 2]));
  }

  /** The boundary of the opposite simplex is the boundary with every face flipped. */
  lemma BoundaryOfFlipped(s: Simplex)
    requires WellFormed(s)
    ensures BoundaryOf(Flipped(s)) == FlippedAll(BoundaryOf(s))
  {
    var t := Flipped(s);
    BoundaryIsFaceChain(s);
    BoundaryIsFaceChain(t);
    forall q | 0 <= q < 2 * Dimension(s)
      ensures FaceChain(t)[q] == Flipped(FaceChain(s)[q])
    {
      FlippedFace(s, q);
    }
  }

  /** Face q of the opposite simplex is face q flipped. */
  lemma FlippedFace(s: Simplex, q: nat)
    requires WellFormed(s) && q < 2 * Dimension(s)
    ensures |FaceChain(Flipped(s))| == |FaceChain(s)| == 2 * Dimension(s)
    ensures FaceChain(Flipped(s))[q] == Flipped(FaceChain(s)[q])
  {
    var t := Flipped(s);
    var k := Dimension(s);
    if q < k {
      assert FaceChain(t)[q] == Face(t, 0, q) && FaceChain(s)[q] == Face(s, 0, q);
    } else {
      assert FaceChain(t)[q] == Face(t, 1, q - k) && FaceChain(s)[q] == Face(s, 1, q - k);
    }
  }

  /**
   * Rebuilding the simplex as written loses the orientation: on the
   * boundary of a negative simplex it reports the positive one, paired with
   * the integral over the negative one's boundary, which is the opposite of
   * the integral over the positive one's.
   */
  lemma OrientationLostAsWritten(s: Simplex, values: seq<int>)
    requires WellFormed(s) && Dimension(s) >= 2 && s.negative
    requires |values| == 2 * Dimension(s)
    ensures InGrid(BoundaryOf(s), |s.vect|) && BoundaryOf(s)[0].origin == s.origin
    ensures Simplex(s.origin, Spanned(BoundaryOf(s), |s.vect|, |BoundaryOf(s)|), false) == Flipped(s)
    ensures Integral(FromValues(BoundaryOf(s), values)) == -Integral(FromValues(BoundaryOf(Flipped(s)), values))
  {
    FacesInGrid(s);
    SpannedOfBoundary(s);
    BoundaryOfFlipped(Flipped(s));
    assert Flipped(Flipped(s)) == s;
    IntegralFlipped(FromValues(BoundaryOf(Flipped(s)), values));
  }

  // ---------------------------------------------------------------------
  // coboundary(coboundary_tensor, tensor) and deriv
  // ---------------------------------------------------------------------

  /** The tensor being differentiated: its memory cell at a grid element and a slot of its antisymmetric index. */
  type Field = (seq<int>, nat) -> int

  /** The coordinates of a grid element keyed by dimension, as `domain_contains` reads them. */
  function ElementMap(elem: seq<int>): (m: map<nat, int>)
    ensures forall d: nat :: d in m <==> d < |elem|
    ensures forall d: nat :: d < |elem| ==> m[d] == elem[d]
  {
    map d: nat | d < |elem| :: elem[d]
  }

  /** `std::find` over a list of vectors: the first position holding v, or the length. */
  function IndexOf(vs: seq<Vect>, v: Vect): (i: nat)
    ensures i <= |vs|
    ensures i < |vs| ==> vs[i] == v
    ensures forall j :: 0 <= j < i ==> vs[j] != v
  {
    if vs == [] then 0 else if vs[0] == v then 0 else 1 + IndexOf(vs[1..], v)
  }

  /** `std::find(lower_chain.begin(), lower_chain.end(), v)`, as a distance from the start. */
  method FindVect(chain: LocalChain, v: Vect) returns (p: nat)
    requires chain.Valid()
    ensures p == IndexOf(chain.Contents(), v)
  {
    p := 0;
    while p < chain.size && chain.allocation[p] != v
      invariant p <= chain.size
      invariant forall j :: 0 <= j < p ==> chain.allocation[j] != v
    {
      p := p + 1;
    }
    ghost var vs := chain.Contents();
    assert forall j :: 0 <= j < p ==> vs[j] != v;
  }

  /** Every vector of the list is a 0/1 vector over n dimensions. */
  predicate Directions(vs: seq<Vect>, n: nat)
  {
    forall i :: 0 <= i < |vs| ==> |vs[i]| == n && Binary(vs[i])
  }

  lemma BasisDirections(n: nat, k: nat)
    ensures Directions(Basis(n, k), n)
  {
    forall i | 0 <= i < |Basis(n, k)|
      ensures |Basis(n, k)[i]| == n && Binary(Basis(n, k)[i])
    {
      BasisDimension(n, k, i);
    }
  }

  /**
   * The value read for a face: the tensor at the face's origin, or at the
   * element itself when the origin lies outside the tensor's domain (a
   * free boundary), in the slot where the face's vector sits in the lower
   * basis.
   */
  function FaceValue(field: Field, dom: seq<Extent>, elem: seq<int>, lower: seq<Vect>, f: Simplex): int
  {
    var at := if DomainContains(dom, ElementMap(f.origin)) then f.origin else elem;
    field(at, IndexOf(lower, f.vect))
  }

  function FaceValues(field: Field, dom: seq<Extent>, elem: seq<int>, lower: seq<Vect>, faces: seq<Simplex>): (vs: seq<int>)
    ensures |vs| == |faces|
  {
    seq(|faces|, j requires 0 <= j < |faces| => FaceValue(field, dom, elem, lower, faces[j]))
  }

  /** The reference value of slot `v`: the integral of the face values over the boundary of (elem, v). */
  function CoboundaryValue(field: Field, dom: seq<Extent>, elem: seq<int>, lower: seq<Vect>, v: Vect): int
    requires |v| == |elem| && Binary(v)
  {
    var faces := BoundaryOf(Simplex(elem, v, false));
    Integral(FromValues(faces, FaceValues(field, dom, elem, lower, faces)))
  }

  /** The value of slot v, over a given list of the faces. */
  lemma CoboundaryValueIs(field: Field, dom: seq<Extent>, elem: seq<int>, lower: seq<Vect>, v: Vect, faces: seq<Simplex>)
    requires |v| == |elem| && Binary(v) && faces == BoundaryOf(Simplex(elem, v, false))
    ensures CoboundaryValue(field, dom, elem, lower, v) == Integral(FromValues(faces, FaceValues(field, dom, elem, lower, faces)))
  {
  }

  /** The reference row of an element: one value per vector of the upper basis. */
  function CoboundaryRow(field: Field, dom: seq<Extent>, elem: seq<int>, upper: seq<Vect>, lower: seq<Vect>): (row: seq<int>)
    requires Directions(upper, |elem|)
    ensures |row| == |upper|
  {
    seq(|upper|, i requires 0 <= i < |upper| => CoboundaryValue(field, dom, elem, lower, upper[i]))
  }

  /**
   * One element of the tensor coboundary: the bases of ranks k + 1 and k
   * over the grid's dimensions, and for each upper basis vector the
   * boundary of its simplex at the element, the face values read from the
   * tensor, and their integral.
   */
  method CoboundaryAt(field: Field, dom: seq<Extent>, elem: seq<int>, k: nat) returns (row: seq<int>)
    requires k + 1 <= |elem|
    ensures Directions(Basis(|elem|, k + 1), |elem|)
    ensures row == CoboundaryRow(field, dom, elem, Basis(|elem|, k + 1), Basis(|elem|, k))
  {
    var chain := TangentBasis(|elem|, k + 1);
    var lowerChain := TangentBasis(|elem|, k);
    BasisDirections(|elem|, k + 1);
    ghost var upper := chain.Contents();
    ghost var lower := lowerChain.Contents();
    ghost var full := CoboundaryRow(field, dom, elem, upper, lower);
    row := [];
    var i := 0;
    while i < chain.size
      invariant chain.Valid() && lowerChain.Valid()
      invariant chain.Contents() == upper && lowerChain.Contents() == lower
      invariant i <= |upper|
      invariant row == full[..i]
    {
      row := NextEntry(field, dom, elem, chain, lowerChain, i, row, full);
      i := i + 1;
    }
    assert row == full;
  }

  /** One turn of the loop of CoboundaryAt: the row extended by the value of the i-th upper vector. */
  method NextEntry(field: Field, dom: seq<Extent>, elem: seq<int>, chain: LocalChain, lowerChain: LocalChain,
                   i: nat, row: seq<int>, ghost full: seq<int>) returns (row': seq<int>)
    requires chain.Valid() && lowerChain.Valid() && Directions(chain.Contents(), |elem|)
    requires full == CoboundaryRow(field, dom, elem, chain.Contents(), lowerChain.Contents())
    requires i < chain.size && row == full[..i]
    ensures row' == full[..i + 1]
  {
    ghost var upper := chain.Contents();
    var v := chain.allocation[i];
    assert v == upper[i];
    var value := CoboundaryEntry(field, dom, elem, lowerChain, v);
    RowAt(field, dom, elem, upper, lowerChain.Contents(), i);
    Extend(full, i);
    row' := row + [value];
  }

  /** A prefix one longer is the prefix followed by the next element. */
  lemma Extend(s: seq<int>, i: nat)
    requires i < |s|
    ensures s[..i + 1] == s[..i] + [s[i]]
  {
  }

  /** Entry i of the reference row is the value of the i-th upper vector. */
  lemma RowAt(field: Field, dom: seq<Extent>, elem: seq<int>, upper: seq<Vect>, lower: seq<Vect>, i: nat)
    requires Directions(upper, |elem|) && i < |upper|
    ensures |upper[i]| == |elem| && Binary(upper[i])
    ensures CoboundaryRow(field, dom, elem, upper, lower)[i] == CoboundaryValue(field, dom, elem, lower, upper[i])
  {
  }

  /**
   * The body of the loop over the upper basis: the boundary of (elem, v),
   * the face values read from the tensor, and their integral.
   */
  method CoboundaryEntry(field: Field, dom: seq<Extent>, elem: seq<int>, lowerChain: LocalChain, v: Vect) returns (value: int)
    requires lowerChain.Valid() && |v| == |elem| && Binary(v)
    ensures value == CoboundaryValue(field, dom, elem, lowerChain.Contents(), v)
  {
    var faces := Boundary(Simplex(elem, v, false));
    var values := ReadFaces(field, dom, elem, lowerChain, faces);
    var cochain := FromValues(faces, values);
    value := Integrate(cochain);
  }

  /**
   * The loop over the faces: a face whose origin is inside the domain reads
   * the tensor there, any other the element itself; the slot is where the
   * face's direction sits in the lower basis.
   */
  method ReadFaces(field: Field, dom: seq<Extent>, elem: seq<int>, lowerChain: LocalChain, faces: seq<Simplex>)
    returns (values: seq<int>)
    requires lowerChain.Valid()
    ensures values == FaceValues(field, dom, elem, lowerChain.Contents(), faces)
  {
    var out := new int[|faces|];
    var j := 0;
    while j < |faces|
      invariant j <= |faces|
      invariant out[..j] == FaceValues(field, dom, elem, lowerChain.Contents(), faces)[..j]
    {
      var at := if DomainContains(dom, ElementMap(faces[j].origin)) then faces[j].origin else elem;
      var slot := FindVect(lowerChain, faces[j].vect);
      out[j] := field(at, slot);
      j := j + 1;
    }
    assert out[..] == out[..j];
    values := out[..];
  }

  /**
   * `coboundary(coboundary_tensor, tensor)`: every grid element of the
   * output's domain, one after the other, gets its row.
   */
  method CoboundaryTensor(out: array<seq<int>>, elems: seq<seq<int>>, field: Field, dom: seq<Extent>, k: nat)
    requires out.Length == |elems|
    requires forall e :: 0 <= e < |elems| ==> k + 1 <= |elems[e]|
    modifies out
    ensures forall e :: 0 <= e < |elems| ==>
      Directions(Basis(|elems[e]|, k + 1), |elems[e]|) &&
      out[e] == CoboundaryRow(field, dom, elems[e], Basis(|elems[e]|, k + 1), Basis(|elems[e]|, k))
  {
    var e := 0;
    while e < |elems|
      invariant e <= |elems|
      invariant forall x :: 0 <= x < e ==>
        Directions(Basis(|elems[x]|, k + 1), |elems[x]|) &&
        out[x] == CoboundaryRow(field, dom, elems[x], Basis(|elems[x]|, k + 1), Basis(|elems[x]|, k))
    {
      out[e] := CoboundaryAt(field, dom, elems[e], k);
      e := e + 1;
    }
  }

  /** `deriv`: the exterior derivative is the coboundary. */
  method Deriv(out: array<seq<int>>, elems: seq<seq<int>>, field: Field, dom: seq<Extent>, k: nat)
    requires out.Length == |elems|
    requires forall e :: 0 <= e < |elems| ==> k + 1 <= |elems[e]|
    modifies out
    ensures forall e :: 0 <= e < |elems| ==>
      Directions(Basis(|elems[e]|, k + 1), |elems[e]|) &&
      out[e] == CoboundaryRow(field, dom, elems[e], Basis(|elems[e]|, k + 1), Basis(|elems[e]|, k))
  {
    CoboundaryTensor(out, elems, field, dom, k);
  }

  // ---------------------------------------------------------------------
  // Properties of the tensor coboundary
  // ---------------------------------------------------------------------

  /**
   * Every face of a basis simplex of rank k + 1 is found in the basis of
   * rank k, so the slot read for it is the one holding its direction.
   */
  lemma FaceFound(elem: seq<int>, k: nat, v: Vect, q: nat)
    requires |v| == |elem| && Binary(v) && |Positions(v)| == k + 1
    requires q < |BoundaryOf(Simplex(elem, v, false))|
    ensures var f := BoundaryOf(Simplex(elem, v, false))[q];
      IndexOf(Basis(|elem|, k), f.vect) < Choose(|elem|, k) && Basis(|elem|, k)[IndexOf(Basis(|elem|, k), f.vect)] == f.vect
  {
    FaceOfBasisSimplex(elem, k, v, q);
    var i := BasisIndex(BoundaryOf(Simplex(elem, v, false))[q].vect);
  }

  /** Every face of a simplex with k + 1 directions is a binary vector with k directions. */
  lemma FaceOfBasisSimplex(elem: seq<int>, k: nat, v: Vect, q: nat)
    requires |v| == |elem| && Binary(v) && |Positions(v)| == k + 1
    requires q < |BoundaryOf(Simplex(elem, v, false))|
    ensures var f := BoundaryOf(Simplex(elem, v, false))[q];
      |f.vect| == |elem| && Binary(f.vect) && |Positions(f.vect)| == k
  {
    var s := Simplex(elem, v, false);
    BoundaryWellFormed(s);
    FaceChainWellFormed(s);
    BoundaryIsFaceChain(s);
    if q < k + 1 {
      FaceShape(s, 0, q);
    } else {
      FaceShape(s, 1, q - (k + 1));
    }
  }

  /** The tensor at a point, in slot 0. */
  function At0(field: Field, x: seq<int>): int
  {
    field(x, 0)
  }

  /**
   * On 0-forms the coboundary is the discrete gradient: along direction a
   * it is the tensor one step further along a minus the tensor here, when
   * both points are in the domain.
   */
  lemma Gradient(field: Field, dom: seq<Extent>, elem: seq<int>, v: Vect, a: nat)
    requires |v| == |elem| && Binary(v) && Positions(v) == [a]
    requires a < |elem|
    requires DomainContains(dom, ElementMap(elem))
    requires DomainContains(dom, ElementMap(elem[a := elem[a] + 1]))
    ensures CoboundaryValue(field, dom, elem, Basis(|elem|, 0), v) == field(elem[a := elem[a] + 1], 0) - field(elem, 0)
  {
    var s := Simplex(elem, v, false);
    var faces := [Simplex(elem, v[a := 0], true), Simplex(elem[a := elem[a] + 1], v[a := 0], false)];
    EdgeBoundary(s, a);
    assert IndexOf(Basis(|elem|, 0), v[a := 0]) == 0 by {
      FaceFound(elem, 0, v, 0);
    }
    CoboundaryValueIs(field, dom, elem, Basis(|elem|, 0), v, faces);
    EdgeIntegral(field, dom, elem, Basis(|elem|, 0), faces, v[a := 0], elem[a := elem[a] + 1]);
  }

  /** The integral over the two faces of an edge: the value at its end minus the value at its start. */
  lemma EdgeIntegral(field: Field, dom: seq<Extent>, elem: seq<int>, lower: seq<Vect>, faces: seq<Simplex>, w: Vect, next: seq<int>)
    requires faces == [Simplex(elem, w, true), Simplex(next, w, false)]
    requires DomainContains(dom, ElementMap(elem)) && DomainContains(dom, ElementMap(next))
    ensures Integral(FromValues(faces, FaceValues(field, dom, elem, lower, faces))) ==
      field(next, IndexOf(lower, w)) - field(elem, IndexOf(lower, w))
  {
    var i := IndexOf(lower, w);
    var vals := FaceValues(field, dom, elem, lower, faces);
    assert vals == [field(elem, i), field(next, i)] by {
      ValuesOfTwo(field, dom, elem, lower, faces[0], faces[1]);
      FaceValueAt(field, dom, elem, lower, faces[0], elem, i);
      FaceValueAt(field, dom, elem, lower, faces[1], next, i);
    }
    IntegralOfTwo(FromValues(faces, vals));
    assert Sign(faces[0]) == -1 && Sign(faces[1]) == 1;
  }

  /** The rank-1 basis over two dimensions: X, then Y. */
  lemma PlaneBasis()
    ensures Basis(2, 1) == [[1, 0], [0, 1]]
  {
    assert Choose(2, 1) == 2;
    assert Arrangement(0, 0, 0) == [] && Arrangement(0, 1, 0) == [];
    assert Arrangement(1, 0, 0) == [false];
    assert Arrangement(1, 1, 0) == [true];
    assert Arrangement(2, 1, 0) == [true, false];
    assert Arrangement(2, 1, 1) == [false, true];
    assert Basis(2, 1)[0] == Bits([true, false]) == [1, 0];
    assert Basis(2, 1)[1] == Bits([false, true]) == [0, 1];
  }

  /** The rank-2 basis over two dimensions: XY alone. */
  lemma PlaneAreaBasis()
    ensures Basis(2, 2) == [[1, 1]]
  {
    assert Choose(2, 2) == 1;
    assert Arrangement(0, 0, 0) == [];
    assert Arrangement(1, 1, 0) == [true];
    assert Arrangement(2, 2, 0) == [true, true];
    assert Basis(2, 2)[0] == Bits([true, true]) == [1, 1];
  }

  /**
   * On 1-forms over the plane the coboundary is the discrete curl of the
   * square at the element: the X component along its lower and upper
   * edges and the Y component along its left and right edges, with the
   * orientation of a counter-clockwise walk, when the three points read
   * are in the domain.
   */
  lemma Curl(field: Field, dom: seq<Extent>, elem: seq<int>)
    requires |elem| == 2
    requires DomainContains(dom, ElementMap(elem))
    requires DomainContains(dom, ElementMap([elem[0] + 1, elem[1]]))
    requires DomainContains(dom, ElementMap([elem[0], elem[1] + 1]))
    ensures CoboundaryValue(field, dom, elem, Basis(2, 1), [1, 1]) ==
      field(elem, 0) + field([elem[0] + 1, elem[1]], 1) - field([elem[0], elem[1] + 1], 0) - field(elem, 1)
  {
    var faces := [Simplex(elem, [0, 1], true), Simplex(elem, [1, 0], false),
                  Simplex([elem[0] + 1, elem[1]], [0, 1], false), Simplex([elem[0], elem[1] + 1], [1, 0], true)];
    UnitSquareFaces(elem);
    CoboundaryValueIs(field, dom, elem, Basis(2, 1), [1, 1], faces);
    SquareIntegral(field, dom, elem, Basis(2, 1), faces, [1, 0], [0, 1], [elem[0] + 1, elem[1]], [elem[0], elem[1] + 1]);
    PlaneIndices();
  }

  /** The faces of the unit square at elem. */
  lemma UnitSquareFaces(elem: seq<int>)
    requires |elem| == 2
    ensures BoundaryOf(Simplex(elem, [1, 1], false)) ==
      [Simplex(elem, [0, 1], true), Simplex(elem, [1, 0], false),
       Simplex([elem[0] + 1, elem[1]], [0, 1], false), Simplex([elem[0], elem[1] + 1], [1, 0], true)]
  {
    var s := Simplex(elem, [1, 1], false);
    DiagonalPositions();
    SquareBoundary(s, 0, 1);
    PlaneSteps(elem);
  }

  /** The unit square spans both directions of the plane; dropping one leaves the other. */
  lemma DiagonalPositions()
    ensures Positions([1, 1]) == [0, 1]
    ensures [1, 1][1 := 0] == [1, 0] && [1, 1][0 := 0] == [0, 1]
  {
    var w := [1, 1];
    assert FindNonzero(w, 2) == 2 && PositionsFrom(w, 2) == [];
    assert FindNonzero(w, 1) == 1 && PositionsFrom(w, 1) == [1];
    assert FindNonzero(w, 0) == 0;
  }

  /** Where X and Y sit in the rank-1 plane basis. */
  lemma PlaneIndices()
    ensures IndexOf(Basis(2, 1), [1, 0]) == 0 && IndexOf(Basis(2, 1), [0, 1]) == 1
  {
    PlaneBasis();
  }

  /** One step along X or along Y in the plane. */
  lemma PlaneSteps(e: seq<int>)
    requires |e| == 2
    ensures e[0 := e[0] + 1] == [e[0] + 1, e[1]] && e[1 := e[1] + 1] == [e[0], e[1] + 1]
  {
  }

  /**
   * The integral over the four faces of a square spanning directions x and
   * y: along x at its start minus at its far side, along y at its far side
   * minus at its start.
   */
  lemma SquareIntegral(field: Field, dom: seq<Extent>, elem: seq<int>, lower: seq<Vect>, faces: seq<Simplex>,
                       wx: Vect, wy: Vect, px: seq<int>, py: seq<int>)
    requires faces == [Simplex(elem, wy, true), Simplex(elem, wx, false), Simplex(px, wy, false), Simplex(py, wx, true)]
    requires DomainContains(dom, ElementMap(elem)) && DomainContains(dom, ElementMap(px)) && DomainContains(dom, ElementMap(py))
    ensures Integral(FromValues(faces, FaceValues(field, dom, elem, lower, faces))) ==
      field(elem, IndexOf(lower, wx)) + field(px, IndexOf(lower, wy)) - field(py, IndexOf(lower, wx)) - field(elem, IndexOf(lower, wy))
  {
    var ix, iy := IndexOf(lower, wx), IndexOf(lower, wy);
    var vals := FaceValues(field, dom, elem, lower, faces);
    assert vals == [field(elem, iy), field(elem, ix), field(px, iy), field(py, ix)] by {
      ValuesOfFour(field, dom, elem, lower, faces[0], faces[1], faces[2], faces[3]);
      FaceValueAt(field, dom, elem, lower, faces[0], elem, iy);
      FaceValueAt(field, dom, elem, lower, faces[1], elem, ix);
      FaceValueAt(field, dom, elem, lower, faces[2], px, iy);
      FaceValueAt(field, dom, elem, lower, faces[3], py, ix);
    }
    IntegralOfFour(FromValues(faces, vals));
    assert Sign(faces[0]) == -1 && Sign(faces[1]) == 1 && Sign(faces[2]) == 1 && Sign(faces[3]) == -1;
  }

  /** The rotational example's 1-form: X = 1 and Y = 2 everywhere but at (1, 1), where X = 4 and Y = 3. */
  function RotationalField(elem: seq<int>, slot: nat): int
  {
    if elem == [1, 1] then (if slot == 0 then 4 else 3) else (if slot == 0 then 1 else 2)
  }

  /** The rotational example's domain: a 3 x 3 grid. */
  function RotationalDomain(): seq<Extent>
  {
    [Extent(0, 0, 2), Extent(1, 0, 2)]
  }

  /** The curl of the rotational example is 0, -3, 1 and 2 at (0, 0), (1, 0), (0, 1) and (1, 1). */
  lemma RotationalExample()
    ensures Directions(Basis(2, 2), 2)
    ensures CoboundaryRow(RotationalField, RotationalDomain(), [0, 0], Basis(2, 2), Basis(2, 1)) == [0]
    ensures CoboundaryRow(RotationalField, RotationalDomain(), [1, 0], Basis(2, 2), Basis(2, 1)) == [-3]
    ensures CoboundaryRow(RotationalField, RotationalDomain(), [0, 1], Basis(2, 2), Basis(2, 1)) == [1]
    ensures CoboundaryRow(RotationalField, RotationalDomain(), [1, 1], Basis(2, 2), Basis(2, 1)) == [2]
  {
    RotationalAt([0, 0]);
    RotationalAt([1, 0]);
    RotationalAt([0, 1]);
    RotationalAt([1, 1]);
    RotationalCurls();
  }

  /** The circulation of the rotational field around the unit square at elem. */
  function RotationalCurl(elem: seq<int>): int
    requires |elem| == 2
  {
    RotationalField(elem, 0) + RotationalField([elem[0] + 1, elem[1]], 1)
    - RotationalField([elem[0], elem[1] + 1], 0) - RotationalField(elem, 1)
  }

  lemma RotationalCurls()
    ensures RotationalCurl([0, 0]) == 0 && RotationalCurl([1, 0]) == -3
    ensures RotationalCurl([0, 1]) == 1 && RotationalCurl([1, 1]) == 2
  {
    assert [0 + 1, 0] == [1, 0] != [1, 1] && [0, 0 + 1] == [0, 1] != [1, 1];
    assert [1 + 1, 0] == [2, 0] != [1, 1] && [1, 0 + 1] == [1, 1];
    assert [0 + 1, 1] == [1, 1] && [0, 1 + 1] == [0, 2] != [1, 1];
    assert [1 + 1, 1] == [2, 1] != [1, 1] && [1, 1 + 1] == [1, 2] != [1, 1];
  }

  /** The rotational example at one element of the 2 x 2 grid of squares. */
  lemma RotationalAt(elem: seq<int>)
    requires |elem| == 2 && 0 <= elem[0] <= 1 && 0 <= elem[1] <= 1
    ensures Directions(Basis(2, 2), 2)
    ensures CoboundaryRow(RotationalField, RotationalDomain(), elem, Basis(2, 2), Basis(2, 1)) == [RotationalCurl(elem)]
  {
    InRotationalDomain(elem);
    InRotationalDomain([elem[0] + 1, elem[1]]);
    InRotationalDomain([elem[0], elem[1] + 1]);
    Curl(RotationalField, RotationalDomain(), elem);
    AreaRow(RotationalField, RotationalDomain(), elem);
  }

  /** Every element of the 3 x 3 grid lies in the rotational domain. */
  lemma InRotationalDomain(elem: seq<int>)
    requires |elem| == 2 && 0 <= elem[0] <= 2 && 0 <= elem[1] <= 2
    ensures DomainContains(RotationalDomain(), ElementMap(elem))
  {
  }

  /** Over two dimensions the row holds the single XY value. */
  lemma AreaRow(field: Field, dom: seq<Extent>, elem: seq<int>)
    requires |elem| == 2
    ensures Directions(Basis(2, 2), 2)
    ensures CoboundaryRow(field, dom, elem, Basis(2, 2), Basis(2, 1)) == [CoboundaryValue(field, dom, elem, Basis(2, 1), [1, 1])]
  {
    BasisDirections(2, 2);
    PlaneAreaBasis();
  }
}
