// `TensorLorentzianSignIndex<Q, ...>`: the sign pattern of a Lorentzian
// metric, diag(-1, ..., -1, +1, ..., +1) with Q minus signs. Nothing is
// stored: access id 0 is the off-diagonal class, 1 a diagonal entry below Q
// and 2 a diagonal entry from Q on.
module LorentzianIndex {
  import opened Arith
  import opened Misc
  import opened LinearCombination

  /** `mem_size()`: nothing is stored. */
  function MemSize(): (size: nat)
    ensures size == 0
  {
    0
  }

  /** `access_size()`: the zero class and the two signs. */
  function AccessSize(): (size: nat)
    ensures size == 3
  {
    3
  }

  /**
   * `std::numeric_limits<std::size_t>::infinity()`: size_t has no infinity,
   * so this is 0, not the maximum that `detail::Access` tests for.
   */
  const SIZE_INFINITY: nat := 0

  /** `mem_id(ids)`: the size_t "infinity", whatever the ids. */
  function MemId(ids: seq<nat>): (m: nat)
    ensures m == SIZE_INFINITY && m != SIZE_MAX
  {
    SIZE_INFINITY
  }

  /** `access_id(ids)`: 0 off the diagonal, 1 on it below Q, 2 on it from Q on. */
  function AccessId(q: nat, ids: seq<nat>): (a: nat)
    requires |ids| >= 1
    ensures a < AccessSize()
    ensures a == 0 <==> !AllEqual(ids)
    ensures a == 1 <==> AllEqual(ids) && ids[0] < q
  {
    if !AllEqual(ids) then 0 else if ids[0] < q then 1 else 2
  }

  /** `access_id_to_mem_id(a)`, as written: the size_t "infinity", 0. */
  function AccessIdToMemIdAsWritten(a: nat): (m: nat)
    ensures m == SIZE_INFINITY
  {
    SIZE_INFINITY
  }

  /** `process_access`: 0 for the zero class, the negated value for 1 and the value for 2. */
  function ProcessAccess(a: nat, value: int): (v: int)
    ensures v == if a == 0 then 0 else if a == 1 then -value else value
  {
    if a == 0 then 0 else if a == 1 then -value else value
  }

  /**
   * As written, every access id decodes to memory id 0, which is not the
   * "no memory" maximum, so `detail::Access` reads cell 0 of a storage
   * that has no cell at all instead of taking the value 1.
   */
  lemma AccessIdToMemIdAsWrittenReadsOutside(a: nat)
    ensures AccessIdToMemIdAsWritten(a) != SIZE_MAX
    ensures AccessIdToMemIdAsWritten(a) >= MemSize()
  {
  }

  /** The evidently intended decoding: no memory id, the maximum of size_t. */
  function AccessIdToMemId(a: nat): (m: nat)
    ensures m == SIZE_MAX
  {
    SIZE_MAX
  }

  /** A read of a tensor whose only index is a Lorentzian sign, with the intended decoding. */
  function Read(q: nat, ids: seq<nat>, mem: seq<int>): int
    requires |ids| >= 1 && |mem| == MemSize()
  {
    var a := AccessId(q, ids);
    ProcessAccess(a, ReadMemId(AccessIdToMemId(a), mem))
  }

  /** The intended reads are the Lorentzian signs: -1 below Q and +1 from Q on the diagonal, 0 elsewhere. */
  lemma ReadIsSign(q: nat, ids: seq<nat>)
    requires |ids| >= 1
    ensures Read(q, ids, []) == if !AllEqual(ids) then 0 else if ids[0] < q then -1 else 1
  {
  }
}
