// `sil::exterior::LocalChain`: a chain of positive simplices sharing one
// origin, stored as their vectors only, in the first `size` slots of a
// fixed-size allocation. Copies share the allocation (it is a reference
// counted view), so adding to a copy writes into the original's slots past
// its own size. `tangent_basis` fills such a chain with every direction
// vector of dimension K, in decreasing lexicographic order.
module LocalChains {
  import opened Binomial
  import opened Misc
  import opened Simplices
  import opened Permutations
  import Arith

  type Vect = seq<int>

  /** No vector appears twice. */
  predicate Distinct(vs: seq<Vect>)
  {
    forall i, j :: 0 <= i < j < |vs| ==> vs[i] != vs[j]
  }

  /** The vectors of a list of simplices, in order. */
  function VectsOf(simplices: seq<Simplex>): (vs: seq<Vect>)
    ensures |vs| == |simplices| && forall i :: 0 <= i < |vs| ==> vs[i] == simplices[i].vect
  {
    seq(|simplices|, i requires 0 <= i < |simplices| => simplices[i].vect)
  }

  /** `filled_struct<discrete_element_type>()`: the element with every coordinate 0. */
  function Origin(n: nat): (o: seq<int>)
    ensures |o| == n && forall d :: 0 <= d < n ==> o[d] == 0
  {
    seq(n, _ => 0)
  }

  /**
   * `simplex_type(filled_struct<discrete_element_type>(), vect)`: the
   * reorienting constructor at the zero element. A -1 entry moves the
   * origin to -1 along its dimension, becomes 1 and flips the orientation;
   * an entry outside -1, 0 and 1 fails the constructor's assertion (None).
   */
  function LocalSimplex(v: Vect): (r: Option<Simplex>)
    ensures r.Some? <==> Unit(v)
    ensures r.Some? ==> WellFormed(r.value) && |r.value.vect| == |v|
    ensures r.Some? ==> forall d {:trigger r.value.origin[d]} :: 0 <= d < |v| ==>
      r.value.origin[d] == Min(0, v[d]) && r.value.origin[d] + r.value.vect[d] == Max(0, v[d])
    ensures r.Some? ==> r.value.negative == Odd(MinusOnes(v, 0))
    ensures Binary(v) ==> r == Some(Simplex(Origin(|v|), v, false))
  {
    if Binary(v) then
      ReorientBinary(Origin(|v|), v, false);
      NewSimplex(Origin(|v|), v, false)
    else NewSimplex(Origin(|v|), v, false)
  }

  /** A slot holding -1 along the first dimension reads as the edge one step back, negative. */
  lemma LocalSimplexReorients()
    ensures LocalSimplex([-1, 0]) == Some(Simplex([-1, 0], [1, 0], true))
    ensures LocalSimplex([2, 0]) == None
  {
    var r := LocalSimplex([-1, 0]).value;
    assert r.origin[0] == -1 && r.origin[1] == 0;
    assert r.vect[0] == 1 && r.vect[1] == 0;
    assert MinusOnes([-1, 0], 0) == 1 by {
      assert MinusOnes([-1, 0], 2) == 0;
    }
    assert r.origin == [-1, 0] && r.vect == [1, 0];
  }

  /** `s` repeated over and over, cut to length n. */
  function Cycle(s: seq<Vect>, n: nat): (r: seq<Vect>)
    requires |s| > 0
    ensures |r| == n && forall i :: 0 <= i < n ==> r[i] == s[i % |s|]
  {
    seq(n, i requires 0 <= i < n => s[i % |s|])
  }

  /**
   * What `+= chain` writes at offset k: the other chain's entry, or, when
   * both chains share the allocation, the slot k of that allocation as the
   * copy itself has already rewritten it.
   */
  function Written(before: seq<Vect>, src: seq<Vect>, aliased: bool, start: nat, k: nat): Vect
    requires start + k < |before| && (aliased || k < |src|)
    decreases k
  {
    if !aliased then src[k]
    else if start == 0 || k < start then before[k]
    else Written(before, src, aliased, start, k - start)
  }

  /** The first i entries that `+= chain` writes. */
  function Copied(before: seq<Vect>, src: seq<Vect>, aliased: bool, start: nat, i: nat): (w: seq<Vect>)
    requires start + i <= |before| && (aliased || i <= |src|)
    ensures |w| == i
  {
    seq(i, k requires 0 <= k < i => Written(before, src, aliased, start, k))
  }

  /**
   * The state of `LocalChain`: the allocation, shared between copies, and
   * the effective size. Slots from `size` on are not part of the chain.
   */
  class LocalChain {
    var allocation: array<Vect>
    var size: nat

    ghost predicate Valid()
      reads this
    {
      size <= allocation.Length
    }

    /** The vectors of the chain. */
    function Contents(): seq<Vect>
      reads this, allocation
      requires Valid()
    {
      allocation[..size]
    }

    /**
     * `LocalChain(allocation, simplex...)`: stores each simplex's vector.
     * The constructor asserts that no vector repeats, that all simplices
     * share their origin and that none is negative.
     */
    constructor FromSimplices(alloc: array<Vect>, simplices: seq<Simplex>)
      requires |simplices| <= alloc.Length
      requires Distinct(VectsOf(simplices))
      requires forall i :: 0 <= i < |simplices| ==> simplices[i].origin == simplices[0].origin
      requires forall i :: 0 <= i < |simplices| ==> !simplices[i].negative
      modifies alloc
      ensures allocation == alloc && size == |simplices| && Valid()
      ensures Contents() == VectsOf(simplices)
      ensures alloc[|simplices|..] == old(alloc[|simplices|..])
    {
      allocation := alloc;
      size := |simplices|;
      new;
      var i := 0;
      while i < |simplices|
        invariant i <= |simplices| && allocation == alloc && size == |simplices|
        invariant alloc[..i] == VectsOf(simplices)[..i]
        invariant alloc[|simplices|..] == old(alloc[|simplices|..])
      {
        alloc[i] := simplices[i].vect;
        i := i + 1;
      }
    }

    /** `LocalChain(allocation, vect...)`: at least one vector; asserts that none repeats. */
    constructor FromVects(alloc: array<Vect>, vects: seq<Vect>)
      requires 1 <= |vects| <= alloc.Length && Distinct(vects)
      modifies alloc
      ensures allocation == alloc && size == |vects| && Valid()
      ensures Contents() == vects
      ensures alloc[|vects|..] == old(alloc[|vects|..])
    {
      allocation := alloc;
      size := |vects|;
      new;
      var i := 0;
      while i < |vects|
        invariant i <= |vects| && allocation == alloc && size == |vects|
        invariant alloc[..i] == vects[..i]
        invariant alloc[|vects|..] == old(alloc[|vects|..])
      {
        alloc[i] := vects[i];
        i := i + 1;
      }
    }

    /** `LocalChain(allocation, size)`: the first n slots as they are; asserts that none repeats. */
    constructor WithSize(alloc: array<Vect>, n: nat)
      requires n <= alloc.Length && Distinct(alloc[..n])
      ensures allocation == alloc && size == n && Valid()
    {
      allocation := alloc;
      size := n;
    }

    /** The copy constructor: the copy shares the allocation. */
    constructor Copy(other: LocalChain)
      ensures allocation == other.allocation && size == other.size
    {
      allocation := other.allocation;
      size := other.size;
    }

    method Size() returns (n: nat)
      ensures n == size
    {
      n := size;
    }

    method AllocationSize() returns (n: nat)
      ensures n == allocation.Length
    {
      n := allocation.Length;
    }

    /** `check`: -1 when two of the first `size` slots hold the same vector, 0 otherwise. */
    method Check() returns (r: int)
      requires Valid()
      ensures r == 0 || r == -1
      ensures r == 0 <==> Distinct(Contents())
    {
      var i := 0;
      while i + 1 < size
        invariant forall p, q :: 0 <= p < q < size && p < i ==> allocation[p] != allocation[q]
      {
        var j := i + 1;
        while j < size
          invariant i < j <= size
          invariant forall q :: i < q < j ==> allocation[i] != allocation[q]
        {
          if allocation[i] == allocation[j] {
            return -1;
          }
          j := j + 1;
        }
        i := i + 1;
      }
      return 0;
    }

    /**
     * `operator[]`: asserts i < size; the simplex the reorienting
     * constructor builds at the zero element from slot i (None where the
     * constructor's assertion fails).
     */
    method Get(i: nat) returns (s: Option<Simplex>)
      requires Valid() && i < size
      ensures s == LocalSimplex(Contents()[i])
    {
      var v := allocation[i];
      s := LocalSimplex(v);
    }

    /** `++`: asserts there is room; the next slot, whatever it holds, joins the chain. */
    method Increment()
      requires Valid() && size < allocation.Length
      modifies this
      ensures allocation == old(allocation) && size == old(size) + 1 && Valid()
      ensures Contents() == old(Contents()) + [allocation[old(size)]]
    {
      size := size + 1;
    }

    /** `+= n`: asserts there is room; the next n slots join the chain. */
    method Advance(n: nat)
      requires Valid() && size + n <= allocation.Length
      modifies this
      ensures allocation == old(allocation) && size == old(size) + n && Valid()
      ensures Contents() == old(Contents()) + allocation[old(size)..size]
    {
      size := size + n;
    }

    /** `+= vect`: asserts there is room; writes the vector into the next slot. */
    method PushVect(v: Vect)
      requires Valid() && size < allocation.Length
      modifies this, allocation
      ensures allocation == old(allocation) && size == old(size) + 1 && Valid()
      ensures Contents() == old(Contents()) + [v]
      ensures allocation[size..] == old(allocation[..])[size..]
    {
      allocation[size] := v;
      size := size + 1;
    }

    /** `+= simplex`: stores the simplex's vector; its origin and orientation are dropped. */
    method PushSimplex(s: Simplex)
      requires Valid() && size < allocation.Length
      modifies this, allocation
      ensures allocation == old(allocation) && size == old(size) + 1 && Valid()
      ensures Contents() == old(Contents()) + [s.vect]
      ensures allocation[size..] == old(allocation[..])[size..]
    {
      PushVect(s.vect);
    }

    /** `+= vects`: asserts there is room; appends every vector in order. */
    method AppendVects(vs: seq<Vect>)
      requires Valid() && size + |vs| <= allocation.Length
      modifies this, allocation
      ensures allocation == old(allocation) && size == old(size) + |vs| && Valid()
      ensures allocation[..] == old(allocation[..size]) + vs + old(allocation[size + |vs|..])
    {
      ghost var before := allocation[..];
      var start := size;
      var i := 0;
      while i < |vs|
        invariant i <= |vs| && size == start && allocation == old(allocation)
        invariant forall j :: 0 <= j < start || start + i <= j < allocation.Length ==> allocation[j] == before[j]
        invariant forall j :: 0 <= j < i ==> allocation[start + j] == vs[j]
      {
        allocation[start + i] := vs[i];
        i := i + 1;
      }
      assert allocation[..] == before[..start] + vs + before[start + |vs|..] by {
        forall j | 0 <= j < allocation.Length
          ensures allocation[j] == (before[..start] + vs + before[start + |vs|..])[j]
        {
          if start <= j < start + |vs| {
            assert allocation[start + (j - start)] == vs[j - start];
          }
        }
      }
      size := start + |vs|;
    }

    /**
     * `+= chain`: asserts there is room; copies the other chain's slots
     * after this one's. When the two chains share the allocation, slots
     * the copy has already rewritten are read back: a chain appended to a
     * prefix of itself gets that prefix, one appended to something longer
     * repeats its own entries.
     */
    method AppendChain(other: LocalChain)
      requires Valid() && other.Valid() && size + other.size <= allocation.Length
      modifies this, allocation
      ensures allocation == old(allocation) && size == old(size) + old(other.size) && Valid()
      ensures allocation[..] == old(allocation[..size]) +
        Copied(old(allocation[..]), old(other.allocation[..]), other.allocation == allocation, old(size), old(other.size)) +
        old(allocation[size + other.size..])
    {
      ghost var before := allocation[..];
      ghost var src := other.allocation[..];
      ghost var aliased := other.allocation == allocation;
      var n := other.size;
      var start := size;
      var i := 0;
      while i < n
        invariant i <= n && other.allocation == old(other.allocation)
        invariant size == start && allocation == old(allocation)
        invariant aliased <==> other.allocation == allocation
        invariant !aliased ==> other.allocation[..] == src
        invariant forall j :: 0 <= j < start || start + i <= j < allocation.Length ==> allocation[j] == before[j]
        invariant forall j :: 0 <= j < i ==> allocation[start + j] == Written(before, src, aliased, start, j)
      {
        var v := other.allocation[i];
        assert v == Written(before, src, aliased, start, i) by {
          if !aliased {
            assert v == src[i];
          } else if start > 0 && i >= start {
            assert allocation[start + (i - start)] == Written(before, src, aliased, start, i - start);
          }
        }
        allocation[start + i] := v;
        i := i + 1;
      }
      ghost var c := Copied(before, src, aliased, start, n);
      assert allocation[..] == before[..start] + c + before[start + n..] by {
        forall j | 0 <= j < allocation.Length
          ensures allocation[j] == (before[..start] + c + before[start + n..])[j]
        {
          if start <= j < start + n {
            assert allocation[start + (j - start)] == c[j - start];
          }
        }
      }
      size := start + n;
    }

    /** `operator+(simplex)`: a copy, sharing the allocation, with the simplex's vector appended. */
    method Plus(s: Simplex) returns (r: LocalChain)
      requires Valid() && size < allocation.Length
      modifies allocation
      ensures fresh(r) && r.allocation == allocation && r.size == size + 1 && r.Valid()
      ensures size == old(size) && Contents() == old(Contents())
      ensures r.Contents() == old(Contents()) + [s.vect]
    {
      r := new LocalChain.Copy(this);
      r.PushSimplex(s);
    }

    /**
     * `operator+(chain)`: a copy, sharing the allocation, with the other
     * chain appended. This chain's own entries are untouched.
     */
    method PlusChain(other: LocalChain) returns (r: LocalChain)
      requires Valid() && other.Valid() && size + other.size <= allocation.Length
      modifies allocation
      ensures fresh(r) && r.allocation == allocation && r.size == size + other.size && r.Valid()
      ensures size == old(size) && Contents() == old(Contents())
      ensures r.Contents() == old(Contents()) +
        Copied(old(allocation[..]), old(other.allocation[..]), other.allocation == allocation, size, other.size)
    {
      r := new LocalChain.Copy(this);
      r.AppendChain(other);
      assert r.Contents() == r.allocation[..][..r.size];
      assert Contents() == allocation[..][..size];
    }

    /**
     * `*= t`: multiplying by 1 leaves the chain as it is; -1 and every other
     * factor fail an assertion (false here).
     */
    method ScaleBy(t: int) returns (ok: bool)
      ensures ok <==> t == 1
    {
      ok := t == 1;
    }

    /**
     * `operator==` as written: walks the other chain only, comparing each of
     * its entries with the allocation slot at the same place, even past this
     * chain's size.
     */
    method EqualsAsWritten(other: LocalChain) returns (r: bool)
      requires Valid() && other.Valid() && other.size <= allocation.Length
      ensures r == MatchesAllocation(allocation[..], other.Contents())
    {
      var i := 0;
      while i < other.size
        invariant i <= other.size
        invariant allocation[..i] == other.allocation[..i]
      {
        if other.allocation[i] != allocation[i] {
          return false;
        }
        i := i + 1;
      }
      assert allocation[..][..other.size] == allocation[..other.size];
      return true;
    }

    /** Equality as evidently intended: the same vectors in the same order. */
    method Equals(other: LocalChain) returns (r: bool)
      requires Valid() && other.Valid()
      ensures r <==> Contents() == other.Contents()
    {
      if size != other.size {
        return false;
      }
      var i := 0;
      while i < size
        invariant i <= size
        invariant allocation[..i] == other.allocation[..i]
      {
        if other.allocation[i] != allocation[i] {
          assert Contents()[i] != other.Contents()[i];
          return false;
        }
        i := i + 1;
      }
      return true;
    }
  }

  /** What `operator==` as written accepts: c is the start of the allocation. */
  predicate MatchesAllocation(alloc: seq<Vect>, c: seq<Vect>)
  {
    |c| <= |alloc| && alloc[..|c|] == c
  }

  /** On a shared allocation, step k writes the entry k places back in the period of the chain. */
  lemma {:induction false} WrittenCycles(before: seq<Vect>, start: nat, k: nat)
    requires 0 < start && start + k < |before|
    ensures Written(before, before, true, start, k) == before[k % start]
    decreases k
  {
    if k < start {
      Arith.DivModUnique(k, 0, start, k);
    } else {
      WrittenCycles(before, start, k - start);
      ModShift(k - start, start);
    }
  }

  lemma ModShift(a: nat, m: nat)
    requires m > 0
    ensures (a + m) % m == a % m
  {
    var q := a / m;
    assert a == q * m + a % m;
    assert a + m == (q + 1) * m + a % m;
    Arith.DivModUnique(a + m, q + 1, m, a % m);
  }

  /**
   * Appending another allocation copies its entries; appending a chain
   * whose entries are a prefix of this one's shared allocation copies the
   * prefix too. Only a longer chain on the same allocation repeats.
   */
  lemma CopiedAppends(before: seq<Vect>, src: seq<Vect>, aliased: bool, start: nat, n: nat)
    requires start + n <= |before| && n <= |src|
    requires aliased ==> n <= start && src[..n] == before[..n]
    ensures Copied(before, src, aliased, start, n) == src[..n]
  {
    forall k | 0 <= k < n
      ensures Copied(before, src, aliased, start, n)[k] == src[k]
    {
      assert Copied(before, src, aliased, start, n)[k] == Written(before, src, aliased, start, k);
      if aliased {
        assert src[k] == src[..n][k];
      }
    }
  }

  /** On a shared allocation, a nonempty chain appended to a longer one repeats its own entries. */
  lemma CopiedCycles(before: seq<Vect>, start: nat, n: nat)
    requires 0 < start && start + n <= |before|
    ensures before[..start] + Copied(before, before, true, start, n) == Cycle(before[..start], start + n)
  {
    var c := before[..start];
    forall j | 0 <= j < start + n
      ensures (c + Copied(before, before, true, start, n))[j] == c[j % start]
    {
      if j < start {
        Arith.DivModUnique(j, 0, start, j);
      } else {
        WrittenCycles(before, start, j - start);
        ModShift(j - start, start);
      }
    }
  }

  /** A chain appended to a chain on a separate allocation adds exactly its entries. */
  lemma AppendSeparate(before: seq<Vect>, src: seq<Vect>, start: nat, n: nat)
    requires start + n <= |before| && n <= |src|
    ensures (before[..start] + Copied(before, src, false, start, n) + before[start + n..])[..start + n]
      == before[..start] + src[..n]
  {
    CopiedAppends(before, src, false, start, n);
  }

  /**
   * The two halves of the `operator==` finding: as written it accepts a
   * longer chain against one of its prefixes, and even a chain against a
   * longer one whose extra entries sit past its size in the same
   * allocation.
   */
  lemma EqualsAsWrittenIgnoresSize(x: Vect, y: Vect)
    requires x != y
    ensures MatchesAllocation([x, y], [x]) && [x, y] != [x]
    ensures MatchesAllocation([x, y], [x, y]) && [x, y][..1] != [x, y]
  {
  }

  /**
   * The library's local chain scenario over the dimensions T, X, Y, Z: the
   * chain of X and Y, plus T, plus the chain of Z, equals the chain of X,
   * Y, T and Z, both by `operator==` and as lists.
   */
  method LocalChainScenario() returns (asWritten: bool, intended: bool)
    ensures asWritten && intended
  {
    var chain, all := ScenarioChain();
    AxesDistinct(all);
    var reference := new Vect[4];
    var expected := new LocalChain.FromSimplices(reference, all);
    asWritten := chain.EqualsAsWritten(expected);
    intended := chain.Equals(expected);
  }

  /** The chain of X and Y, plus T, plus the chain of Z, filling its four-entry buffer. */
  method ScenarioChain() returns (chain: LocalChain, all: seq<Simplex>)
    ensures all == [Simplex([0, 0, 0, 0], [0, 1, 0, 0], false), Simplex([0, 0, 0, 0], [0, 0, 1, 0], false),
                    Simplex([0, 0, 0, 0], [1, 0, 0, 0], false), Simplex([0, 0, 0, 0], [0, 0, 0, 1], false)]
    ensures chain.Valid() && chain.size == chain.allocation.Length == 4
    ensures chain.Contents() == VectsOf(all)
  {
    var t := Simplex([0, 0, 0, 0], [1, 0, 0, 0], false);
    var x := Simplex([0, 0, 0, 0], [0, 1, 0, 0], false);
    var y := Simplex([0, 0, 0, 0], [0, 0, 1, 0], false);
    var z := Simplex([0, 0, 0, 0], [0, 0, 0, 1], false);
    var buffer := new Vect[4];
    assert VectsOf([x, y]) == [x.vect, y.vect];
    chain := new LocalChain.FromSimplices(buffer, [x, y]);
    chain := chain.Plus(t);
    var single := new Vect[1];
    var last := new LocalChain.FromSimplices(single, [z]);
    ghost var before, src := chain.allocation[..], last.allocation[..];
    chain := chain.PlusChain(last);
    CopiedAppends(before, src, false, 3, 1);
    all := [x, y, t, z];
    AxesDistinct(all);
  }

  lemma AxesDistinct(all: seq<Simplex>)
    requires all == [Simplex([0, 0, 0, 0], [0, 1, 0, 0], false), Simplex([0, 0, 0, 0], [0, 0, 1, 0], false),
                     Simplex([0, 0, 0, 0], [1, 0, 0, 0], false), Simplex([0, 0, 0, 0], [0, 0, 0, 1], false)]
    ensures VectsOf(all) == [[0, 1, 0, 0], [0, 0, 1, 0], [1, 0, 0, 0], [0, 0, 0, 1]]
    ensures Distinct(VectsOf(all))
    ensures forall i :: 0 <= i < |all| ==> all[i].origin == all[0].origin
    ensures forall i :: 0 <= i < |all| ==> !all[i].negative
  {
    var vs := VectsOf(all);
    assert vs == [[0, 1, 0, 0], [0, 0, 1, 0], [1, 0, 0, 0], [0, 0, 0, 1]];
    forall i, j | 0 <= i < j < 4
      ensures vs[i] != vs[j]
    {
      assert vs[i][i + 1 - 4 * (i / 3)] != vs[j][i + 1 - 4 * (i / 3)];
    }
  }

  // ---------------------------------------------------------------------
  // tangent_basis<K, Tag...>()
  // ---------------------------------------------------------------------

  /** A bit vector as the 0/1 entries of a discrete vector. */
  function Bits(b: seq<bool>): (v: Vect)
    ensures |v| == |b| && Binary(v)
    ensures forall d :: 0 <= d < |b| ==> (v[d] == 1 <==> b[d])
  {
    seq(|b|, d requires 0 <= d < |b| => if b[d] then 1 else 0)
  }

  /** The set entries of a discrete vector as bits. */
  function ToBools(v: Vect): (b: seq<bool>)
    ensures |b| == |v| && forall d :: 0 <= d < |v| ==> (b[d] <==> v[d] != 0)
  {
    seq(|v|, d requires 0 <= d < |v| => v[d] != 0)
  }

  /**
   * The reference list of tangent directions: every 0/1 vector over n
   * dimensions with k ones, in decreasing lexicographic order.
   */
  function Basis(n: nat, k: nat): (b: seq<Vect>)
    ensures |b| == Choose(n, k)
  {
    seq(Choose(n, k), i requires 0 <= i < Choose(n, k) => Bits(Arrangement(n, k, i)))
  }

  /**
   * `tangent_basis<K, Tag...>()`: starts from K ones followed by zeros and
   * records every arrangement `std::prev_permutation` steps through, into an
   * allocation of C(n, K) slots. K > n would write past the permutation.
   */
  method TangentBasis(n: nat, k: nat) returns (chain: LocalChain)
    requires k <= n
    ensures fresh(chain) && fresh(chain.allocation) && chain.Valid()
    ensures chain.size == chain.allocation.Length == Choose(n, k)
    ensures chain.Contents() == Basis(n, k)
  {
    var count := BinomialCoefficient(n, k);
    var basis := new Vect[count];
    FillBasis(basis, n, k);
    BasisDistinct(n, k);
    chain := new LocalChain.WithSize(basis, count);
  }

  /** The `prev_permutation` loop of `tangent_basis`, writing arrangement i into slot i. */
  method FillBasis(basis: array<Vect>, n: nat, k: nat)
    requires k <= n && basis.Length == Choose(n, k)
    modifies basis
    ensures basis[..] == Basis(n, k)
  {
    var permutation := OnesFirst(n, k);
    ArrangementFirst(n, k);
    ghost var target := Basis(n, k);
    var i := 0;
    while true
      invariant i < basis.Length && permutation == Arrangement(n, k, i)
      invariant basis[..i] == target[..i]
      decreases basis.Length - i
    {
      BasisAt(n, k, i);
      basis[i] := Bits(permutation);
      assert basis[..i + 1] == target[..i + 1];
      i := i + 1;
      PrevPermutationWalks(n, k, i - 1);
      var step := PrevPermutation(permutation);
      if !step.1 {
        break;
      }
      permutation := step.0;
    }
    assert basis[..] == basis[..i];
  }

  lemma BasisAt(n: nat, k: nat, i: nat)
    requires i < Choose(n, k)
    ensures Basis(n, k)[i] == Bits(Arrangement(n, k, i))
  {
  }

  /** No direction is listed twice ... */
  lemma BasisDistinct(n: nat, k: nat)
    ensures Distinct(Basis(n, k))
  {
    var b := Basis(n, k);
    forall i, j | 0 <= i < j < |b|
      ensures b[i] != b[j]
    {
      var x, y := Arrangement(n, k, i), Arrangement(n, k, j);
      ArrangementDecreasing(n, k, i, j);
      assert b[i] == Bits(x) && b[j] == Bits(y);
      if Bits(x) == Bits(y) {
        BitsInjective(x, y);
        LexLessIrreflexive(x);
      }
    }
  }

  lemma LexLessIrreflexive(a: seq<bool>)
    ensures !LexLess(a, a)
  {
    LexLessAsymmetric(a, a);
  }

  lemma BitsInjective(a: seq<bool>, b: seq<bool>)
    requires Bits(a) == Bits(b)
    ensures a == b
  {
    assert |a| == |b|;
    forall d | 0 <= d < |a|
      ensures a[d] == b[d]
    {
      assert Bits(a)[d] == Bits(b)[d];
    }
  }

  /** ... each spans exactly k of the n directions ... */
  lemma BasisDimension(n: nat, k: nat, i: nat)
    requires i < Choose(n, k)
    ensures |Basis(n, k)[i]| == n && Binary(Basis(n, k)[i])
    ensures |Positions(Basis(n, k)[i])| == k
  {
    var b := Arrangement(n, k, i);
    ArrangementLength(n, k, i);
    ArrangementWeight(n, k, i);
    PositionsCount(Bits(b), 0);
    assert ToBools(Bits(b)) == b;
  }

  /** ... and every such direction is listed. */
  lemma BasisIndex(v: Vect) returns (i: nat)
    requires Binary(v)
    ensures i < Choose(|v|, |Positions(v)|) && Basis(|v|, |Positions(v)|)[i] == v
  {
    var b := ToBools(v);
    PositionsCount(v, 0);
    assert b[0..] == b;
    i := ArrangementIndex(b);
    assert Bits(b) == v;
  }

  /** The number of directions a 0/1 vector spans from `from` on is its number of ones there. */
  lemma {:induction false} PositionsCount(v: Vect, from: nat)
    requires Binary(v) && from <= |v|
    ensures |PositionsFrom(v, from)| == Weight(ToBools(v)[from..])
    decreases |v| - from
  {
    var b := ToBools(v)[from..];
    if from < |v| {
      PositionsCount(v, from + 1);
      assert b[1..] == ToBools(v)[from + 1..];
      if v[from] == 0 {
        assert FindNonzero(v, from) == FindNonzero(v, from + 1);
      }
    }
  }
}
