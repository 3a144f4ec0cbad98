// `TensorDiagonalIndex`: an index over r natural sub-indices of n values each
// that stores only the n diagonal entries. Access id 0 is the class of
// off-diagonal tuples (read as 0); access id 1 + i stands for the diagonal
// tuple (i, ..., i), stored in slot i.
module DiagonalIndex {
  import opened Misc
  import opened LinearCombination

  /** Every natural id is a value of the sub-indices. */
  predicate IdsInRange(ids: seq<nat>, n: nat)
  {
    forall k :: 0 <= k < |ids| ==> ids[k] < n
  }

  /** `mem_size()`: the memory size of the first sub-index, one slot per diagonal entry. */
  function MemSize(n: nat): (size: nat)
    ensures size == n
  {
    n
  }

  /** `access_size()`: the diagonal slots plus the zero class. */
  function AccessSize(n: nat): (size: nat)
    ensures size == MemSize(n) + 1
  {
    1 + MemSize(n)
  }

  /** `mem_lin_comb(ids)`: asserts that all ids are equal, then coefficient 1 on slot ids[0]. */
  function MemLinComb(ids: seq<nat>): (terms: Option<seq<Term>>)
    requires |ids| >= 1
    ensures terms.Some? <==> AllEqual(ids)
    ensures terms.Some? ==> terms.value == [Term(1, ids[0])]
  {
    if AllEqual(ids) then Some([Term(1, ids[0])]) else None
  }

  /** `access_id(ids)`: 0 off the diagonal, 1 + the common id on it. */
  function AccessId(ids: seq<nat>): (a: nat)
    requires |ids| >= 1
    ensures a == 0 <==> !AllEqual(ids)
    ensures a != 0 ==> MemLinComb(ids) == Some([Term(1, a - 1)])
  {
    if !AllEqual(ids) then 0 else 1 + MemLinComb(ids).value[0].memId
  }

  /** `access_id_to_mem_lin_comb(a)`: asserts a != 0, then coefficient 1 on slot a - 1. */
  function AccessIdToMemLinComb(a: nat): (terms: Option<seq<Term>>)
    ensures terms.None? <==> a == 0
    ensures a != 0 ==> terms == Some([Term(1, a - 1)])
  {
    if a == 0 then None else Some([Term(1, a - 1)])
  }

  /** `process_access`: 0 for the zero class, otherwise the value the access read. */
  function ProcessAccess(a: nat, value: int): (v: int)
    ensures v == if a == 0 then 0 else value
  {
    if a == 0 then 0 else value
  }

  /**
   * A read of a tensor whose only index is diagonal: the access id of the
   * ids, and only for a nonzero id the linear combination it decodes to.
   */
  function Read(n: nat, ids: seq<nat>, mem: seq<int>): int
    requires |ids| >= 1 && IdsInRange(ids, n) && |mem| == MemSize(n)
  {
    var a := AccessId(ids);
    if a == 0 then ProcessAccess(a, 0)
    else
      var terms := AccessIdToMemLinComb(a).value;
      ProcessAccess(a, Evaluate(terms, mem))
  }

  /** Off-diagonal tuples read 0 and a diagonal tuple (i, ..., i) reads slot i. */
  lemma ReadValues(n: nat, ids: seq<nat>, mem: seq<int>)
    requires |ids| >= 1 && IdsInRange(ids, n) && |mem| == MemSize(n)
    ensures !AllEqual(ids) ==> Read(n, ids, mem) == 0
    ensures AllEqual(ids) ==> Read(n, ids, mem) == mem[ids[0]]
  {
    if AllEqual(ids) {
      EvaluateSingle(Term(1, ids[0]), mem);
    }
  }

  /** `mem_id_to_canonical_natural_ids(m)`: asserts m < mem_size, then every component is m. */
  function Unrank(n: nat, r: nat, m: nat): (ids: seq<nat>)
    requires m < MemSize(n)
    ensures |ids| == r && IdsInRange(ids, n) && AllEqual(ids)
  {
    seq(r, _ => m)
  }

  /** Unranking a slot gives a tuple whose access id decodes back to that slot. */
  lemma UnrankAccessId(n: nat, r: nat, m: nat)
    requires m < MemSize(n) && r >= 1
    ensures AccessId(Unrank(n, r, m)) == 1 + m
    ensures AccessIdToMemLinComb(AccessId(Unrank(n, r, m))) == Some([Term(1, m)])
  {
  }

  /**
   * The diagonal test: writing 1, 2, 3, 4 through the diagonal tuples of a
   * four-valued index fills the four slots, and the reads return them on the
   * diagonal and 0 elsewhere.
   */
  lemma DiagonalOfFour()
    ensures Read(4, [0, 0], [1, 2, 3, 4]) == 1 && Read(4, [3, 3], [1, 2, 3, 4]) == 4
    ensures Read(4, [0, 1], [1, 2, 3, 4]) == 0 && Read(4, [3, 2], [1, 2, 3, 4]) == 0
  {
    ReadValues(4, [0, 0], [1, 2, 3, 4]);
    ReadValues(4, [3, 3], [1, 2, 3, 4]);
    var offA: seq<nat> := [0, 1];
    var offB: seq<nat> := [3, 2];
    assert offA[1] != offA[0] && offB[1] != offB[0];
    ReadValues(4, offA, [1, 2, 3, 4]);
    ReadValues(4, offB, [1, 2, 3, 4]);
  }
}
