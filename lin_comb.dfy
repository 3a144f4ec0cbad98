// What an index kind hands back to the tensor accessor: either one memory
// id (explicitly stored kinds) or a linear combination of memory ids with
// coefficients, and how a read evaluates it against a row of memory.
module LinearCombination {
  import opened Arith

  /** One coefficient-weighted memory slot of a `mem_lin_comb` pair of vectors. */
  datatype Term = Term(coef: int, memId: nat)

  /** Every memory id of the combination addresses a cell of mem. */
  predicate InBounds(terms: seq<Term>, mem: seq<int>)
  {
    forall i :: 0 <= i < |terms| ==> terms[i].memId < |mem|
  }

  /** The sum of coef_i * mem[id_i] over the terms. */
  function Sum(terms: seq<Term>, mem: seq<int>): int
    requires InBounds(terms, mem)
  {
    if terms == [] then 0 else terms[0].coef * mem[terms[0].memId] + Sum(terms[1..], mem)
  }

  /**
   * The value `detail::Access` reads through a linear combination: the
   * weighted sum of the cells, and 1 when the combination is empty (a
   * non-stored one, as for the identity).
   */
  function Evaluate(terms: seq<Term>, mem: seq<int>): (v: int)
    requires InBounds(terms, mem)
    ensures terms == [] ==> v == 1
  {
    if |terms| > 0 then Sum(terms, mem) else 1
  }

  /** The value read through a single memory id: the cell, or 1 for the size_t maximum. */
  function ReadMemId(memId: nat, mem: seq<int>): (v: int)
    requires memId == SIZE_MAX || memId < |mem|
    ensures memId == SIZE_MAX ==> v == 1
  {
    if memId != SIZE_MAX then mem[memId] else 1
  }

  /** A one-term combination reads coef * mem[id]. */
  lemma EvaluateSingle(t: Term, mem: seq<int>)
    requires t.memId < |mem|
    ensures Evaluate([t], mem) == t.coef * mem[t.memId]
  {
    assert [t][1..] == [];
    assert Sum([t][1..], mem) == 0;
    assert Sum([t], mem) == t.coef * mem[t.memId] + Sum([t][1..], mem);
  }
}
