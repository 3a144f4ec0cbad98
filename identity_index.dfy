// `TensorIdentityIndex`: an index over r natural sub-indices that stores
// nothing. Access id 0 is the off-diagonal class (read as 0) and access id 1
// the diagonal, whose empty linear combination reads as 1.
module IdentityIndex {
  import opened Misc
  import opened LinearCombination

  /** `mem_size()`: nothing is stored. */
  function MemSize(): (size: nat)
    ensures size == 0
  {
    0
  }

  /** `access_size()`: the zero class and the diagonal. */
  function AccessSize(): (size: nat)
    ensures size == 2
  {
    2
  }

  /** `mem_lin_comb`: asserts false, whatever the ids. */
  function MemLinComb(ids: seq<nat>): (terms: Option<seq<Term>>)
    ensures terms.None?
  {
    None
  }

  /** `access_id(ids)`: 0 off the diagonal and 1 on it. */
  function AccessId(ids: seq<nat>): (a: nat)
    ensures a == if AllEqual(ids) then 1 else 0
  {
    if !AllEqual(ids) then 0 else 1
  }

  /** `access_id_to_mem_lin_comb(a)`: asserts a != 0, then the empty combination. */
  function AccessIdToMemLinComb(a: nat): (terms: Option<seq<Term>>)
    ensures terms.None? <==> a == 0
    ensures a != 0 ==> terms == Some([])
  {
    if a == 0 then None else Some([])
  }

  /** `process_access`: 0 for the zero class, otherwise the value the access read. */
  function ProcessAccess(a: nat, value: int): (v: int)
    ensures v == if a == 0 then 0 else value
  {
    if a == 0 then 0 else value
  }

  /** A read of a tensor whose only index is the identity. */
  function Read(ids: seq<nat>, mem: seq<int>): int
    requires |mem| == MemSize()
  {
    var a := AccessId(ids);
    if a == 0 then ProcessAccess(a, 0)
    else ProcessAccess(a, Evaluate(AccessIdToMemLinComb(a).value, mem))
  }

  /** The identity reads 1 on the diagonal and 0 elsewhere, with no storage at all. */
  lemma ReadIsKronecker(ids: seq<nat>)
    ensures Read(ids, []) == if AllEqual(ids) then 1 else 0
  {
  }

  /** The identity test over four values: (T, T) reads 1 and (T, X) reads 0. */
  lemma IdentityOfFour()
    ensures Read([0, 0], []) == 1 && Read([2, 2], []) == 1
    ensures Read([0, 1], []) == 0 && Read([3, 1], []) == 0
  {
    ReadIsKronecker([0, 0]);
    ReadIsKronecker([2, 2]);
    var offA: seq<nat> := [0, 1];
    var offB: seq<nat> := [3, 1];
    assert offA[1] != offA[0] && offB[1] != offB[0];
    ReadIsKronecker(offA);
    ReadIsKronecker(offB);
  }
}
