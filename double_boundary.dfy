// The boundary of a boundary is empty: every face of a face of a simplex
// appears exactly once among the boundaries of its faces, next to its own
// negation, so that `optimize` cancels everything. A face of a face drops
// two directions a and b of the simplex and steps along each of them or
// not; reaching it by dropping a first or b first gives opposite
// orientations.
module DoubleBoundaries {
  import opened Misc
  import opened Simplices
  import opened Chains
  import opened Boundaries

  /** Face (h2, j) of face (h1, i) of s. */
  function DoubleFace(s: Simplex, h1: nat, i: nat, h2: nat, j: nat): (f: Simplex)
    requires WellFormed(s) && h1 <= 1 && h2 <= 1 && i < Dimension(s) && j + 1 < Dimension(s)
  {
    FaceShape(s, h1, i);
    Face(Face(s, h1, i), h2, j)
  }

  /**
   * The face of a face in closed form: with a the i-th direction of s and b
   * the j-th of those left, it steps h1 along a and h2 along b, spans the
   * other directions, and its orientation flips with both face indices.
   */
  lemma DoubleFaceForm(s: Simplex, h1: nat, i: nat, h2: nat, j: nat)
    requires WellFormed(s) && h1 <= 1 && h2 <= 1 && i < Dimension(s) && j + 1 < Dimension(s)
    ensures var ps := Positions(s.vect);
      var a := ps[i];
      var b := RemoveImpl(ps, i)[j];
      a < |s.vect| && b < |s.vect| && a != b && s.vect[a] == 1 && s.vect[b] == 1
      && DoubleFace(s, h1, i, h2, j) == Corner(s, a, h1, b, h2, (s.negative != Even(i, h1)) != Even(j, h2))
  {
    FaceShape(s, h1, i);
    var f := Face(s, h1, i);
    FaceShape(f, h2, j);
  }

  /** The simplex of s without directions a and b, stepped h1 along a and h2 along b. */
  function Corner(s: Simplex, a: nat, h1: nat, b: nat, h2: nat, negative: bool): Simplex
    requires |s.origin| == |s.vect| && a < |s.vect| && b < |s.vect|
  {
    Simplex(s.origin[a := s.origin[a] + h1][b := s.origin[b] + h2], s.vect[a := 0][b := 0], negative)
  }

  /** Naming the two directions in the other order gives the same corner. */
  lemma CornerSwap(s: Simplex, a: nat, h1: nat, b: nat, h2: nat, negative: bool)
    requires |s.origin| == |s.vect| && a < |s.vect| && b < |s.vect| && a != b
    ensures Corner(s, b, h2, a, h1, negative) == Corner(s, a, h1, b, h2, negative)
  {
    assert s.origin[a := s.origin[a] + h1][b := s.origin[b] + h2]
      == s.origin[b := s.origin[b] + h2][a := s.origin[a] + h1];
    assert s.vect[a := 0][b := 0] == s.vect[b := 0][a := 0];
  }

  /** Dropping the two directions in the other order gives the same simplex, negated. */
  lemma DoubleFacePartner(s: Simplex, h1: nat, i: nat, h2: nat, j: nat) returns (i2: nat, j2: nat)
    requires WellFormed(s) && h1 <= 1 && h2 <= 1 && i < Dimension(s) && j + 1 < Dimension(s)
    ensures i2 < Dimension(s) && j2 + 1 < Dimension(s)
    ensures Positions(s.vect)[i2] == RemoveImpl(Positions(s.vect), i)[j]
    ensures RemoveImpl(Positions(s.vect), i2)[j2] == Positions(s.vect)[i]
    ensures DoubleFace(s, h2, i2, h1, j2) == Flipped(DoubleFace(s, h1, i, h2, j))
  {
    var ps := Positions(s.vect);
    var a := ps[i];
    var b := RemoveImpl(ps, i)[j];
    if j >= i {
      i2, j2 := j + 1, i;
      assert ps[i2] == b && RemoveImpl(ps, i2)[j2] == a;
    } else {
      i2, j2 := j, i - 1;
      assert ps[i2] == b && RemoveImpl(ps, i2)[j2] == a;
    }
    assert ((s.negative != Even(i2, h2)) != Even(j2, h1)) == !((s.negative != Even(i, h1)) != Even(j, h2)) by {
      SwappedOrientation(s.negative, h1, i, h2, j);
    }
    DoubleFaceForm(s, h1, i, h2, j);
    DoubleFaceForm(s, h2, i2, h1, j2);
    CornerSwap(s, a, h1, b, h2, (s.negative != Even(i2, h2)) != Even(j2, h1));
  }

  /** The orientation of the partner pick is the opposite one. */
  lemma SwappedOrientation(negative: bool, h1: nat, i: nat, h2: nat, j: nat)
    ensures j >= i ==> ((negative != Even(j + 1, h2)) != Even(i, h1)) == !((negative != Even(i, h1)) != Even(j, h2))
    ensures j < i ==> ((negative != Even(j, h2)) != Even(i - 1, h1)) == !((negative != Even(i, h1)) != Even(j, h2))
  {
  }

  /** A pick that drops a's partner first and a second is the partner pick. */
  lemma DoubleFaceSwapped(s: Simplex, h1: nat, i: nat, h2: nat, j: nat, k: nat, l: nat)
    requires WellFormed(s) && h1 <= 1 && h2 <= 1 && i < Dimension(s) && j + 1 < Dimension(s)
    requires k < Dimension(s) && l + 1 < Dimension(s)
    requires Positions(s.vect)[k] == RemoveImpl(Positions(s.vect), i)[j]
    requires RemoveImpl(Positions(s.vect), k)[l] == Positions(s.vect)[i]
    ensures DoubleFace(s, h2, k, h1, l) == Flipped(DoubleFace(s, h1, i, h2, j))
  {
    var ps := Positions(s.vect);
    PositionsAre(s.vect);
    var i2, j2 := DoubleFacePartner(s, h1, i, h2, j);
    assert i2 == k by {
      IncreasingAt(ps, i2, k);
    }
    assert j2 == l by {
      IncreasingAt(RemoveImpl(ps, k), j2, l);
    }
  }

  /** In an increasing sequence a value sits at one position only. */
  lemma IncreasingAt(ps: seq<nat>, i: nat, k: nat)
    requires StrictlyIncreasing(ps) && i < |ps| && k < |ps| && ps[i] == ps[k]
    ensures i == k
  {
  }

  /** Different picks give different faces of faces. */
  lemma DoubleFaceInjective(s: Simplex, h1: nat, i: nat, h2: nat, j: nat, g1: nat, k: nat, g2: nat, l: nat)
    requires WellFormed(s) && h1 <= 1 && h2 <= 1 && i < Dimension(s) && j + 1 < Dimension(s)
    requires g1 <= 1 && g2 <= 1 && k < Dimension(s) && l + 1 < Dimension(s)
    requires DoubleFace(s, h1, i, h2, j) == DoubleFace(s, g1, k, g2, l)
    ensures h1 == g1 && i == k && h2 == g2 && j == l
  {
    var ps := Positions(s.vect);
    PositionsAre(s.vect);
    var a1, b1 := ps[i], RemoveImpl(ps, i)[j];
    var a2, b2 := ps[k], RemoveImpl(ps, k)[l];
    DoubleFaceForm(s, h1, i, h2, j);
    DoubleFaceForm(s, g1, k, g2, l);
    CornerEqual(s, a1, h1, b1, h2, (s.negative != Even(i, h1)) != Even(j, h2),
                a2, g1, b2, g2, (s.negative != Even(k, g1)) != Even(l, g2));
    if a1 == a2 {
      IncreasingAt(ps, i, k);
      IncreasingAt(RemoveImpl(ps, i), j, l);
    } else {
      DoubleFaceSwapped(s, h1, i, h2, j, k, l);
      assert false;
    }
  }

  /** Two corners are equal only when they name the same directions with the same steps, in either order. */
  lemma CornerEqual(s: Simplex, a1: nat, h1: nat, b1: nat, h2: nat, n1: bool, a2: nat, g1: nat, b2: nat, g2: nat, n2: bool)
    requires |s.origin| == |s.vect| && a1 < |s.vect| && b1 < |s.vect| && a2 < |s.vect| && b2 < |s.vect|
    requires a1 != b1 && a2 != b2
    requires s.vect[a1] == 1 && s.vect[b1] == 1
    requires Corner(s, a1, h1, b1, h2, n1) == Corner(s, a2, g1, b2, g2, n2)
    ensures n1 == n2
    ensures (a1 == a2 && b1 == b2 && h1 == g1 && h2 == g2) || (a1 == b2 && b1 == a2 && h1 == g2 && h2 == g1)
  {
    var f := Corner(s, a1, h1, b1, h2, n1);
    assert f.vect[a1] == 0 && f.vect[b1] == 0;
    assert f.origin[a1] == s.origin[a1] + h1 && f.origin[b1] == s.origin[b1] + h2;
  }

  // -----------------------------------------------------------------------
  // Positions in the gathered boundaries of the boundary.
  // -----------------------------------------------------------------------

  /** Face r of face q of s is the face of a face picked by splitting q and r into halves. */
  lemma DoubleFaceAt(s: Simplex, q: nat, r: nat) returns (h1: nat, i: nat, h2: nat, j: nat)
    requires WellFormed(s) && q < 2 * Dimension(s) && AllWellFormed(FaceChain(s))
    requires r < |FaceChain(FaceChain(s)[q])|
    ensures h1 <= 1 && h2 <= 1 && i < Dimension(s) && j + 1 < Dimension(s)
    ensures q == (if h1 == 0 then i else Dimension(s) + i)
    ensures r == (if h2 == 0 then j else Dimension(s) - 1 + j)
    ensures FaceChain(FaceChain(s)[q])[r] == DoubleFace(s, h1, i, h2, j)
  {
    var k := Dimension(s);
    if q < k {
      h1, i := 0, q;
    } else {
      h1, i := 1, q - k;
    }
    var f := Face(s, h1, i);
    assert FaceChain(s)[q] == f;
    assert Dimension(f) == k - 1 by {
      FaceShape(s, h1, i);
    }
    if r < k - 1 {
      h2, j := 0, r;
    } else {
      h2, j := 1, r - (k - 1);
    }
    assert FaceChain(f)[r] == Face(f, h2, j);
  }

  /** Conversely, every face of a face sits at some position (q, r). */
  lemma DoubleFaceIndex(s: Simplex, h1: nat, i: nat, h2: nat, j: nat) returns (q: nat, r: nat)
    requires WellFormed(s) && h1 <= 1 && h2 <= 1 && i < Dimension(s) && j + 1 < Dimension(s)
    requires AllWellFormed(FaceChain(s))
    ensures q < 2 * Dimension(s) && r < |FaceChain(FaceChain(s)[q])|
    ensures FaceChain(FaceChain(s)[q])[r] == DoubleFace(s, h1, i, h2, j)
  {
    var k := Dimension(s);
    q := if h1 == 0 then i else k + i;
    r := if h2 == 0 then j else k - 1 + j;
    assert r < |FaceChain(FaceChain(s)[q])| by {
      FaceShape(s, h1, i);
    }
    var g1, k1, g2, l := DoubleFaceAt(s, q, r);
    assert g1 == h1 && k1 == i && g2 == h2 && l == j;
  }

  /** Two positions of the faces of the faces hold the same simplex only if they are one. */
  lemma DoubleFaceDistinct(s: Simplex, q1: nat, r1: nat, q2: nat, r2: nat)
    requires WellFormed(s) && AllWellFormed(FaceChain(s))
    requires q1 < 2 * Dimension(s) && r1 < |FaceChain(FaceChain(s)[q1])|
    requires q2 < 2 * Dimension(s) && r2 < |FaceChain(FaceChain(s)[q2])|
    ensures FaceChain(FaceChain(s)[q1])[r1] == FaceChain(FaceChain(s)[q2])[r2] ==> q1 == q2 && r1 == r2
  {
    var h1, i, h2, j := DoubleFaceAt(s, q1, r1);
    var g1, k, g2, l := DoubleFaceAt(s, q2, r2);
    if FaceChain(FaceChain(s)[q1])[r1] == FaceChain(FaceChain(s)[q2])[r2] {
      DoubleFaceInjective(s, h1, i, h2, j, g1, k, g2, l);
    }
  }

  /** The faces of the faces of s, gathered, have no duplicate and hold the negation of each of theirs. */
  lemma DoubleFacesPaired(s: Simplex)
    requires WellFormed(s) && AllWellFormed(FaceChain(s))
    ensures NoDuplicates(Flatten(FaceBlocks(FaceChain(s))))
    ensures NegationClosed(Flatten(FaceBlocks(FaceChain(s))))
  {
    var bs := FaceBlocks(FaceChain(s));
    var t := Flatten(bs);
    forall m | 0 <= m < |bs| ensures NoDuplicates(bs[m]) {
      forall r1, r2 | 0 <= r1 < r2 < |bs[m]| ensures bs[m][r1] != bs[m][r2] {
        DoubleFaceDistinct(s, m, r1, m, r2);
      }
    }
    forall m1, r1, m2, r2 | 0 <= m1 < m2 < |bs| && 0 <= r1 < |bs[m1]| && 0 <= r2 < |bs[m2]|
      ensures bs[m1][r1] != bs[m2][r2]
    {
      DoubleFaceDistinct(s, m1, r1, m2, r2);
    }
    FlattenDistinct(bs);
    forall x | x in t ensures Flipped(x) in t {
      var q, r := FlattenIndex(bs, x);
      var h1, i, h2, j := DoubleFaceAt(s, q, r);
      var i2, j2 := DoubleFacePartner(s, h1, i, h2, j);
      var q2, r2 := DoubleFaceIndex(s, h2, i2, h1, j2);
      FlattenMember(bs, q2, r2);
    }
  }

  /**
   * ∂∂ = 0: the boundaries of the faces of a simplex, gathered and
   * optimized as `boundary(chain)` does, leave the empty chain.
   */
  lemma BoundaryOfBoundaryIsEmpty(s: Simplex)
    requires WellFormed(s)
    ensures AllWellFormed(BoundaryOf(s))
    ensures Optimized(Flatten(BoundaryBlocks(BoundaryOf(s)))) == []
  {
    BoundaryIsFaceChain(s);
    FaceChainWellFormed(s);
    BoundaryBlocksAreFaceBlocks(FaceChain(s));
    DoubleFacesPaired(s);
    OptimizedPairedIsEmpty(Flatten(FaceBlocks(FaceChain(s))));
  }

  /** `boundary(boundary(simplex))` is the empty chain. */
  method BoundaryOfBoundary(s: Simplex) returns (chain: Chain)
    requires WellFormed(s)
    ensures chain.simplices == []
  {
    var faces := Boundary(s);
    BoundaryOfBoundaryIsEmpty(s);
    chain := BoundaryOfChain(faces);
  }
}
