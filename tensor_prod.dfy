// `sil::tensor::tensor_prod` over tensors of any index kinds: the static
// compatibility check of the operands' natural indices, the general
// product that evaluates every stored slot of the result at its canonical
// natural element, and the Young-tableau overloads that uncompress their
// operands or compress their result around the natural or general one. Natural indices are
// identified by name; a characterised index (`Covariant<Mu>`,
// `Contravariant<Mu>`) is a name with a character.
module TensorProducts {
  import opened Arith
  import opened Misc
  import opened Strides
  import opened Tensors
  import opened Signs
  import Csr
  import YoungIndex

  // ---------------------------------------------------------------------
  // Characters and the compatibility check
  // ---------------------------------------------------------------------

  datatype Character = Covariant | Contravariant

  /** A characterised natural index. */
  datatype Label = Label(name: nat, character: Character)

  /** `uncharacterize`: the natural index under each label. */
  function Uncharacterize(ls: seq<Label>): (names: seq<nat>)
    ensures |names| == |ls| && forall k :: 0 <= k < |ls| ==> names[k] == ls[k].name
  {
    seq(|ls|, k requires 0 <= k < |ls| => ls[k].name)
  }

  /**
   * Rule 1 of `CheckTensorsCompatibility`: with characters stripped, the
   * natural indices of tensor1 that the product lacks are those of
   * tensor2 that the product lacks, in the same order.
   */
  predicate SameContraction(prod: seq<Label>, n1: seq<Label>, n2: seq<Label>)
  {
    Without(Uncharacterize(n1), Uncharacterize(prod)) == Without(Uncharacterize(n2), Uncharacterize(prod))
  }

  /** Rule 2: removing tensor2's characterised indices from tensor1's removes nothing, and the other way round. */
  predicate NoCommonIndex(n1: seq<Label>, n2: seq<Label>)
  {
    Without(n1, n2) == n1 && Without(n2, n1) == n2
  }

  predicate Compatible(prod: seq<Label>, n1: seq<Label>, n2: seq<Label>)
  {
    SameContraction(prod, n1, n2) && NoCommonIndex(n1, n2)
  }

  /** Rule 2 holds exactly when the operands share no characterised index. */
  lemma NoCommonIndexIsDisjoint(n1: seq<Label>, n2: seq<Label>)
    ensures NoCommonIndex(n1, n2) <==> forall l :: l in n1 ==> l !in n2
  {
    if forall l :: l in n1 ==> l !in n2 {
      WithoutNone(n1, n2);
      WithoutNone(n2, n1);
    } else {
      var l :| l in n1 && l in n2;
      assert l !in Without(n1, n2);
    }
  }

  /**
   * Under both rules, an index of tensor1 that the product lacks appears
   * in tensor2 with the opposite character: a contraction always pairs a
   * covariant index with a contravariant one.
   */
  lemma ContractedOpposite(prod: seq<Label>, n1: seq<Label>, n2: seq<Label>, l: Label) returns (partner: Label)
    requires Compatible(prod, n1, n2) && l in n1 && l.name !in Uncharacterize(prod)
    ensures partner in n2 && partner.name == l.name && partner.character != l.character
  {
    var k :| 0 <= k < |n1| && n1[k] == l;
    assert l.name == Uncharacterize(n1)[k];
    assert l.name in Without(Uncharacterize(n2), Uncharacterize(prod));
    var j :| 0 <= j < |n2| && Uncharacterize(n2)[j] == l.name;
    partner := n2[j];
    NoCommonIndexIsDisjoint(n1, n2);
  }

  /** The contracted names: tensor1's natural indices that the product lacks. */
  function ContractNames(prod: seq<Label>, n1: seq<Label>): seq<nat>
  {
    Without(Uncharacterize(n1), Uncharacterize(prod))
  }

  /** The head names: the product's natural indices that tensor2 lacks. */
  function HeadNames(prod: seq<Label>, n2: seq<Label>): seq<nat>
  {
    Without(Uncharacterize(prod), Uncharacterize(n2))
  }

  /** The tail names: the product's natural indices that tensor1 lacks. */
  function TailNames(prod: seq<Label>, n1: seq<Label>): seq<nat>
  {
    Without(Uncharacterize(prod), Uncharacterize(n1))
  }

  /**
   * With tensor1 over head and contracted names, tensor2 over contracted
   * and tail names and the product over head and tail names, all distinct,
   * rule 1 holds and the three name lists are recovered from the operands.
   */
  lemma PartitionOfNames(prod: seq<Label>, n1: seq<Label>, n2: seq<Label>, head: seq<nat>, contract: seq<nat>, tail: seq<nat>)
    requires Uncharacterize(n1) == head + contract && Uncharacterize(n2) == contract + tail
    requires Uncharacterize(prod) == head + tail && Distinct(head + contract + tail)
    ensures SameContraction(prod, n1, n2)
    ensures ContractNames(prod, n1) == contract && HeadNames(prod, n2) == head && TailNames(prod, n1) == tail
  {
    ProductNames(head, contract, tail);
  }

  /** `T^mu_nu V^nu` into `P^mu` passes both rules. */
  lemma ContractionAccepted()
    ensures Compatible([Label(0, Contravariant)], [Label(0, Contravariant), Label(1, Covariant)], [Label(1, Contravariant)])
  {
    var prod := [Label(0, Contravariant)];
    var n1 := [Label(0, Contravariant), Label(1, Covariant)];
    var n2 := [Label(1, Contravariant)];
    assert SameContraction(prod, n1, n2) by {
      assert Uncharacterize(prod) == [0] + [];
      assert Uncharacterize(n1) == [0] + [1];
      assert Uncharacterize(n2) == [1] + [];
      assert [0] + [1] + [] == [0, 1];
      PartitionOfNames(prod, n1, n2, [0], [1], []);
    }
    assert NoCommonIndex(n1, n2) by {
      NoCommonIndexIsDisjoint(n1, n2);
    }
  }

  /** `T^mu_nu V_nu` into `P^mu` fails rule 2: both operands hold `Covariant<Nu>`. */
  lemma SameCharacterRejected()
    ensures !Compatible([Label(0, Contravariant)], [Label(0, Contravariant), Label(1, Covariant)], [Label(1, Covariant)])
  {
    var n1 := [Label(0, Contravariant), Label(1, Covariant)];
    var n2 := [Label(1, Covariant)];
    NoCommonIndexIsDisjoint(n1, n2);
    assert Label(1, Covariant) in n1 && Label(1, Covariant) in n2;
  }

  // ---------------------------------------------------------------------
  // The general product
  // ---------------------------------------------------------------------

  /** The names of natural indices. */
  function Names(ns: seq<NaturalIndex>): (r: seq<nat>)
    ensures |r| == |ns| && forall k :: 0 <= k < |ns| ==> r[k] == ns[k].name
  {
    seq(|ns|, k requires 0 <= k < |ns| => ns[k].name)
  }

  /** The natural domain of natural indices: `size()` positions each. */
  function Extents(ns: seq<NaturalIndex>): (r: seq<nat>)
    ensures |r| == |ns| && forall k :: 0 <= k < |ns| ==> r[k] == NaturalSize(ns[k])
  {
    seq(|ns|, k requires 0 <= k < |ns| => NaturalSize(ns[k]))
  }

  /** Natural indices as tensor indices. */
  function NaturalIndices(ns: seq<NaturalIndex>): (r: seq<Index>)
    ensures |r| == |ns| && forall k :: 0 <= k < |ns| ==> r[k] == Natural(ns[k])
  {
    seq(|ns|, k requires 0 <= k < |ns| => Natural(ns[k]))
  }

  /** A `DiscreteElement` over the named natural dimensions holding the given ids. */
  function Bind(names: seq<nat>, ids: seq<nat>): NaturalElement
    requires |names| == |ids|
  {
    if |names| == 0 then map[]
    else Bind(names[..|names| - 1], ids[..|ids| - 1])[names[|names| - 1] := ids[|ids| - 1]]
  }

  /** Over distinct names, each name is bound to its own id. */
  lemma {:induction false} BindAt(names: seq<nat>, ids: seq<nat>, k: nat)
    requires |names| == |ids| && Distinct(names) && k < |names|
    ensures names[k] in Bind(names, ids) && Bind(names, ids)[names[k]] == ids[k]
  {
    var n := |names|;
    if k < n - 1 {
      assert Distinct(names[..n - 1]);
      BindAt(names[..n - 1], ids[..n - 1], k);
      assert names[k] != names[n - 1];
    }
  }

  /** Selecting the bound names back gives the ids. */
  lemma UidsOfBind(names: seq<nat>, ids: seq<nat>)
    requires |names| == |ids| && Distinct(names)
    ensures Uids(Bind(names, ids), names) == ids
  {
    forall k | 0 <= k < |names|
      ensures Uids(Bind(names, ids), names)[k] == ids[k]
    {
      BindAt(names, ids, k);
    }
  }

  /**
   * `tensor.get(tensor.access_element(natural_elem))`: the access element
   * of the natural element, then the read; None where `get` would leave
   * the memory.
   */
  function Read(dims: seq<Dim>, mem: seq<int>, e: NaturalElement): (r: Option<int>)
    ensures r.Some? <==> Readable(dims, mem, AccessElement(dims, e))
  {
    var a := AccessElement(dims, e);
    if Readable(dims, mem, a) then Some(Get(dims, mem, a)) else None
  }

  /**
   * The operands of the general product, uncharacterised: tensor1 over
   * dims1, tensor2 over dims2, and the head, contracted and tail natural
   * indices the compatibility check derives.
   */
  datatype Operands = Operands(dims1: seq<Dim>, mem1: seq<int>, dims2: seq<Dim>, mem2: seq<int>,
                               head: seq<nat>, contract: seq<NaturalIndex>, tail: seq<nat>)

  /** f at 0, 1, ..., n - 1. */
  function Tabulate<T>(f: nat -> T, n: nat): (s: seq<T>)
    ensures |s| == n
  {
    seq(n, i requires 0 <= i < n => f(i))
  }

  lemma TabulateAt<T>(f: nat -> T, n: nat, p: nat)
    requires p < n
    ensures Tabulate(f, n)[p] == f(p)
  {
  }

  /** The element at offset k of the domain with the given extents ([] past its end). */
  function ElementAt(ext: seq<nat>): nat -> seq<nat>
  {
    (k: nat) => if k < Product(ext) then Coordinates(ext, k) else []
  }

  /** The first n elements, in row-major order, of the domain with the given extents: a `for_each` over it. */
  function Elements(ext: seq<nat>, n: nat): (es: seq<seq<nat>>)
    requires n <= Product(ext)
    ensures |es| == n && forall k :: 0 <= k < n ==> Within(ext, es[k])
  {
    var es := Tabulate(ElementAt(ext), n);
    assert forall k :: 0 <= k < n ==> Within(ext, es[k]) by {
      forall k | 0 <= k < n
        ensures Within(ext, es[k])
      {
        TabulateAt(ElementAt(ext), n, k);
      }
    }
    es
  }

  /** Element k of the enumeration is the element at offset k. */
  lemma ElementsAt(ext: seq<nat>, n: nat, k: nat)
    requires k < n <= Product(ext)
    ensures Elements(ext, n)[k] == Coordinates(ext, k)
  {
    TabulateAt(ElementAt(ext), n, k);
  }

  /** The contracted domain: the natural domain of the contracted indices. */
  function ContractSize(ops: Operands): nat
  {
    Product(Extents(ops.contract))
  }

  /** `contract_accessor.access_element(contract_elem)`. */
  function ContractAccess(contract: seq<NaturalIndex>, cc: seq<nat>): (a: seq<nat>)
    requires |cc| == |contract|
    ensures |a| == |contract|
  {
    AccessElement(IndexDims(NaturalIndices(contract)), Bind(Names(contract), cc))
  }

  /**
   * The term of the reduction at contracted element cc for the product's
   * natural element: tensor1 at the head ids and the contracted access
   * ids, times tensor2 at the contracted ids and the tail ids.
   */
  function Term(ops: Operands, elem: NaturalElement, cc: seq<nat>): Option<int>
    requires |cc| == |ops.contract|
  {
    var r1 := Read(ops.dims1, ops.mem1, Bind(ops.head + Names(ops.contract), Uids(elem, ops.head) + ContractAccess(ops.contract, cc)));
    var r2 := Read(ops.dims2, ops.mem2, Bind(Names(ops.contract) + ops.tail, cc + Uids(elem, ops.tail)));
    if r1.Some? && r2.Some? then Some(r1.value * r2.value) else None
  }

  /** The term at offset k of the contracted domain (None past its end). */
  function TermAt(ops: Operands, elem: NaturalElement): nat -> Option<int>
  {
    (k: nat) => if k < ContractSize(ops) then Term(ops, elem, Coordinates(Extents(ops.contract), k)) else None
  }

  /** Every term of the reduction, in row-major order of the contracted domain. */
  function Terms(ops: Operands, elem: NaturalElement): (ts: seq<Option<int>>)
    ensures |ts| == ContractSize(ops)
  {
    Tabulate(TermAt(ops, elem), ContractSize(ops))
  }

  /** Term k of the reduction is the term at the k-th element of the contracted domain. */
  lemma TermsAt(ops: Operands, elem: NaturalElement, k: nat)
    requires k < ContractSize(ops)
    ensures Terms(ops, elem)[k] == Term(ops, elem, Coordinates(Extents(ops.contract), k))
  {
    TabulateAt(TermAt(ops, elem), ContractSize(ops), k);
  }

  /** The sum of the first n terms; None if one of them is. */
  function OptionSum(ts: seq<Option<int>>, n: nat): Option<int>
    requires n <= |ts|
  {
    if n == 0 then Some(0)
    else
      var prev := OptionSum(ts, n - 1);
      if prev.Some? && ts[n - 1].Some? then Some(prev.value + ts[n - 1].value) else None
  }

  /** When the whole sum exists, so does every term before it. */
  lemma {:induction false} OptionSumPrefix(ts: seq<Option<int>>, k: nat, n: nat)
    requires k < n <= |ts| && OptionSum(ts, n).Some?
    ensures OptionSum(ts, k).Some? && ts[k].Some?
  {
    var m: nat := n - 1;
    if k < m {
      OptionSumPrefix(ts, k, m);
    }
  }

  /** One more term adds its value to the sum. */
  lemma OptionSumStep(ts: seq<Option<int>>, k: nat, sum: int, t: int, total: int)
    requires k < |ts| && OptionSum(ts, k).Some? && OptionSum(ts, k).value == sum
    requires ts[k].Some? && ts[k].value == t && total == sum + t
    ensures OptionSum(ts, k + 1).Some? && OptionSum(ts, k + 1).value == total
  {
  }

  /** `transform_reduce` with the sum reducer from 0: the terms added one by one. */
  method SumReduce(ts: seq<Option<int>>) returns (sum: int)
    requires OptionSum(ts, |ts|).Some?
    ensures Some(sum) == OptionSum(ts, |ts|)
  {
    sum := 0;
    for k := 0 to |ts|
      invariant OptionSum(ts, k) == Some(sum)
    {
      OptionSumPrefix(ts, k, |ts|);
      OptionSumStep(ts, k, sum, ts[k].value, sum + ts[k].value);
      sum := sum + ts[k].value;
    }
  }

  /** The memory indices of the product are well formed. */
  predicate ProductIndices(indices: seq<Index>)
  {
    forall k :: 0 <= k < |indices| ==> Shaped(indices[k])
  }

  /** The size of the product's memory domain. */
  function MemCount(indices: seq<Index>): nat
  {
    Product(MemExtents(IndexDims(indices)))
  }

  /** The elements of the product's memory domain, in row-major order. */
  function MemElements(indices: seq<Index>): (es: seq<seq<nat>>)
    ensures |es| == MemCount(indices)
    ensures forall p :: 0 <= p < |es| ==> |es[p]| == |indices| && forall k :: 0 <= k < |indices| ==> es[p][k] < MemSize(indices[k])
  {
    Elements(MemExtents(IndexDims(indices)), MemCount(indices))
  }

  /**
   * The product's value at a memory element: the reduction at the
   * natural element the canonical natural ids of the memory element form.
   */
  function ProductCell(indices: seq<Index>, ops: Operands, memElem: seq<nat>): Option<int>
    requires ProductIndices(indices)
    requires |memElem| == |indices| && forall k :: 0 <= k < |indices| ==> memElem[k] < MemSize(indices[k])
  {
    var ids := CanonicalElement(indices, memElem);
    OptionSum(Terms(ops, Bind(NaturalNames(indices), ids)), ContractSize(ops))
  }

  /** The product's value at memory position p (None past the end). */
  function CellAt(indices: seq<Index>, ops: Operands): nat -> Option<int>
  {
    var es := MemElements(indices);
    (p: nat) => if ProductIndices(indices) && p < |es| then ProductCell(indices, ops, es[p]) else None
  }

  /** The product's value at every element of its memory domain, in row-major order. */
  function Cells(indices: seq<Index>, ops: Operands): (cs: seq<Option<int>>)
    ensures |cs| == MemCount(indices)
  {
    Tabulate(CellAt(indices, ops), MemCount(indices))
  }

  lemma CellsAt(indices: seq<Index>, ops: Operands, p: nat)
    requires ProductIndices(indices) && p < MemCount(indices)
    ensures Cells(indices, ops)[p] == ProductCell(indices, ops, MemElements(indices)[p])
  {
    TabulateAt(CellAt(indices, ops), MemCount(indices), p);
  }

  /** Every stored slot of the product can be evaluated. */
  predicate Evaluable(indices: seq<Index>, ops: Operands)
  {
    ProductIndices(indices) && AllSome(Cells(indices, ops))
  }

  /** No slot of cs is missing. */
  predicate AllSome(cs: seq<Option<int>>)
  {
    forall p :: 0 <= p < |cs| ==> cs[p].Some?
  }

  /** The values held by the slots of cs. */
  function Values(cs: seq<Option<int>>): (vs: seq<int>)
    requires AllSome(cs)
    ensures |vs| == |cs| && forall p :: 0 <= p < |cs| ==> Some(vs[p]) == cs[p]
  {
    seq(|cs|, p requires 0 <= p < |cs| => cs[p].value)
  }

  /** The memory of the product. */
  function ProductMemory(indices: seq<Index>, ops: Operands): (mem: seq<int>)
    requires Evaluable(indices, ops)
    ensures |mem| == MemCount(indices)
  {
    Values(Cells(indices, ops))
  }

  /** Slot p of the memory holds the product's value at memory element p. */
  lemma ProductMemoryAt(indices: seq<Index>, ops: Operands, p: nat)
    requires Evaluable(indices, ops) && p < MemCount(indices)
    ensures Some(ProductMemory(indices, ops)[p]) == ProductCell(indices, ops, MemElements(indices)[p])
  {
    CellsAt(indices, ops, p);
  }

  /**
   * The body of the loop over the product's memory domain: the canonical
   * natural element of the memory element, then the reduction over the
   * contracted domain.
   */
  method ProductSlot(indices: seq<Index>, ops: Operands, p: nat) returns (v: int)
    requires Evaluable(indices, ops) && p < MemCount(indices)
    ensures Some(v) == ProductCell(indices, ops, MemElements(indices)[p])
  {
    CellsAt(indices, ops, p);
    var memElem := MemElements(indices)[p];
    var ids := CanonicalNaturalElement(indices, memElem);
    v := SumReduce(Terms(ops, Bind(NaturalNames(indices), ids)));
  }

  /**
   * `TensorProdAnyAnyAny::run`: for every element of the product's memory
   * domain, its canonical natural element, then the sum over the
   * contracted domain of tensor1(head, contracted) * tensor2(contracted,
   * tail), written to that memory slot.
   */
  method TensorProdAnyAnyAny(prod: Tensor, indices: seq<Index>, t1: Tensor, t2: Tensor,
                             head: seq<nat>, contract: seq<NaturalIndex>, tail: seq<nat>)
    requires prod.dims == IndexDims(indices) && prod.Valid()
    requires prod.data != t1.data && prod.data != t2.data
    requires Evaluable(indices, Operands(t1.dims, t1.data[..], t2.dims, t2.data[..], head, contract, tail))
    modifies prod.data
    ensures prod.data[..] == ProductMemory(indices, Operands(t1.dims, t1.data[..], t2.dims, t2.data[..], head, contract, tail))
  {
    var ops := Operands(t1.dims, t1.data[..], t2.dims, t2.data[..], head, contract, tail);
    WriteProduct(prod.data, indices, ops);
  }

  /** The loop over the product's memory domain, writing each slot's value into the buffer. */
  /** ProductSlot, read as slot p of the product's memory. */
  method MemorySlot(indices: seq<Index>, ops: Operands, p: nat, ghost mem: seq<int>) returns (v: int)
    requires Evaluable(indices, ops) && mem == ProductMemory(indices, ops) && p < |mem|
    ensures v == mem[p]
  {
    v := ProductSlot(indices, ops, p);
    ProductMemoryAt(indices, ops, p);
  }

  /** Stores v, the value of slot p, after the slots already written. */
  method StoreSlot(out: array<int>, p: nat, v: int, ghost mem: seq<int>)
    requires p < out.Length == |mem| && out[..p] == mem[..p] && v == mem[p]
    modifies out
    ensures out[..p + 1] == mem[..p + 1]
  {
    out[p] := v;
    assert out[..p + 1] == out[..p] + [v];
  }

  /** The loop of `TensorProdAnyAnyAny::run`: every memory slot of the product, in order. */
  method WriteProduct(out: array<int>, indices: seq<Index>, ops: Operands)
    requires Evaluable(indices, ops) && out.Length == MemCount(indices)
    modifies out
    ensures out[..] == ProductMemory(indices, ops)
  {
    ghost var mem := ProductMemory(indices, ops);
    for p := 0 to out.Length
      invariant out[..p] == mem[..p]
    {
      var v := MemorySlot(indices, ops, p, mem);
      StoreSlot(out, p, v, mem);
    }
    assert out[..] == out[..out.Length];
  }

  // ---------------------------------------------------------------------
  // Over natural indices the general product is the natural product
  // ---------------------------------------------------------------------

  /** Natural indices with at least one and fewer than 2^64 dimensions each. */
  predicate UsableNaturals(ns: seq<NaturalIndex>)
  {
    forall k :: 0 <= k < |ns| ==> 0 < ns[k].dims <= SIZE_MAX
  }

  /** The operands of a natural product: t1 over head then contracted indices, t2 over contracted then tail indices. */
  function NaturalOperands(head: seq<NaturalIndex>, contract: seq<NaturalIndex>, tail: seq<NaturalIndex>,
                           m1: seq<int>, m2: seq<int>): Operands
  {
    Operands(IndexDims(NaturalIndices(head + contract)), m1, IndexDims(NaturalIndices(contract + tail)), m2,
             Names(head), contract, Names(tail))
  }

  lemma NamesAppend(a: seq<NaturalIndex>, b: seq<NaturalIndex>)
    ensures Names(a + b) == Names(a) + Names(b) && Extents(a + b) == Extents(a) + Extents(b)
  {
    forall k | 0 <= k < |a| + |b|
      ensures Names(a + b)[k] == (Names(a) + Names(b))[k] && Extents(a + b)[k] == (Extents(a) + Extents(b))[k]
    {
      if k < |a| {
        assert (a + b)[k] == a[k];
      } else {
        assert (a + b)[k] == b[k - |a|];
      }
    }
  }

  lemma UsableAppend(a: seq<NaturalIndex>, b: seq<NaturalIndex>)
    ensures UsableNaturals(a + b) <==> UsableNaturals(a) && UsableNaturals(b)
  {
    if UsableNaturals(a + b) {
      assert forall k :: 0 <= k < |a| ==> (a + b)[k] == a[k];
      assert forall k :: 0 <= k < |b| ==> (a + b)[|a| + k] == b[k];
    }
    if UsableNaturals(a) && UsableNaturals(b) {
      forall k | 0 <= k < |a| + |b|
        ensures 0 < (a + b)[k].dims <= SIZE_MAX
      {
        if k >= |a| {
          assert (a + b)[k] == b[k - |a|];
        }
      }
    }
  }

  /** Natural indices lay their tensor out over their natural domain. */
  lemma NaturalLayout(ns: seq<NaturalIndex>)
    requires UsableNaturals(ns)
    ensures NaturalDims(IndexDims(NaturalIndices(ns))) && MemExtents(IndexDims(NaturalIndices(ns))) == Extents(ns)
    ensures ProductIndices(NaturalIndices(ns))
  {
    forall k | 0 <= k < |ns|
      ensures Shaped(NaturalIndices(ns)[k])
    {
      NaturalRoundTrips(NaturalIndices(ns)[k]);
    }
  }

  /** Distinct names stay distinct when the middle or an end is dropped. */
  lemma DistinctParts(a: seq<nat>, b: seq<nat>, c: seq<nat>)
    requires Distinct(a + b + c)
    ensures Distinct(a + b) && Distinct(b + c) && Distinct(a + c)
  {
    var s := a + b + c;
    assert forall i :: 0 <= i < |a| + |b| ==> (a + b)[i] == s[i];
    assert forall i :: 0 <= i < |b| + |c| ==> (b + c)[i] == s[|a| + i];
    forall i, j | 0 <= i < j < |a| + |c|
      ensures (a + c)[i] != (a + c)[j]
    {
      var i' := if i < |a| then i else i + |b|;
      var j' := if j < |a| then j else j + |b|;
      assert (a + c)[i] == s[i'] && (a + c)[j] == s[j'];
    }
  }

  /** The natural domain of natural indices is their names, in order. */
  lemma {:induction false} NaturalNamesOf(ns: seq<NaturalIndex>)
    ensures NaturalNames(NaturalIndices(ns)) == Names(ns)
  {
    var n := |ns|;
    if n > 0 {
      assert NaturalIndices(ns)[..n - 1] == NaturalIndices(ns[..n - 1]);
      NaturalNamesOf(ns[..n - 1]);
      assert Names(ns) == Names(ns[..n - 1]) + [ns[n - 1].name];
    }
  }

  /** One id per list flattens to the ids. */
  lemma {:induction false} FlattenSingletons(ls: seq<seq<nat>>, ids: seq<nat>)
    requires |ls| == |ids| && forall k :: 0 <= k < |ls| ==> ls[k] == [ids[k]]
    ensures Flatten(ls) == ids
  {
    var n := |ls|;
    if n > 0 {
      FlattenSingletons(ls[..n - 1], ids[..n - 1]);
      assert ids[..n - 1] + [ids[n - 1]] == ids;
    }
  }

  /** The canonical natural element of a memory element of natural indices is the memory element. */
  lemma CanonicalOfNaturals(ns: seq<NaturalIndex>, memElem: seq<nat>)
    requires UsableNaturals(ns) && Within(Extents(ns), memElem)
    ensures |memElem| == |NaturalIndices(ns)| && forall k :: 0 <= k < |ns| ==> memElem[k] < MemSize(NaturalIndices(ns)[k])
    ensures ProductIndices(NaturalIndices(ns))
    ensures CanonicalElement(NaturalIndices(ns), memElem) == memElem
  {
    var indices := NaturalIndices(ns);
    NaturalLayout(ns);
    NaturalNamesOf(ns);
    FlattenSingletons(CanonicalLists(indices, memElem), memElem);
    ShapedLengths(indices, memElem);
    var ids := CanonicalElement(indices, memElem);
    assert ids[..|ns|] == memElem;
  }

  /** Over distinct names, selecting either part of the names gives that part of the ids. */
  lemma UidsOfBindAppend(n1: seq<nat>, n2: seq<nat>, x1: seq<nat>, x2: seq<nat>)
    requires |n1| == |x1| && |n2| == |x2| && Distinct(n1 + n2)
    ensures Uids(Bind(n1 + n2, x1 + x2), n1) == x1 && Uids(Bind(n1 + n2, x1 + x2), n2) == x2
  {
    UidsOfBindLeft(n1, n2, x1, x2);
    UidsOfBindRight(n1, n2, x1, x2);
  }

  lemma UidsOfBindLeft(n1: seq<nat>, n2: seq<nat>, x1: seq<nat>, x2: seq<nat>)
    requires |n1| == |x1| && |n2| == |x2| && Distinct(n1 + n2)
    ensures Uids(Bind(n1 + n2, x1 + x2), n1) == x1
  {
    forall k | 0 <= k < |n1|
      ensures Uids(Bind(n1 + n2, x1 + x2), n1)[k] == x1[k]
    {
      BindAt(n1 + n2, x1 + x2, k);
      assert (n1 + n2)[k] == n1[k] && (x1 + x2)[k] == x1[k];
    }
  }

  lemma UidsOfBindRight(n1: seq<nat>, n2: seq<nat>, x1: seq<nat>, x2: seq<nat>)
    requires |n1| == |x1| && |n2| == |x2| && Distinct(n1 + n2)
    ensures Uids(Bind(n1 + n2, x1 + x2), n2) == x2
  {
    forall k | 0 <= k < |n2|
      ensures Uids(Bind(n1 + n2, x1 + x2), n2)[k] == x2[k]
    {
      BindAt(n1 + n2, x1 + x2, |n1| + k);
      assert (n1 + n2)[|n1| + k] == n2[k] && (x1 + x2)[|x1| + k] == x2[k];
    }
  }

  /** The access element of natural indices at bound ids is the ids. */
  lemma AccessOfNaturals(ns: seq<NaturalIndex>, ids: seq<nat>)
    requires |ids| == |ns| && Distinct(Names(ns))
    ensures AccessElement(IndexDims(NaturalIndices(ns)), Bind(Names(ns), ids)) == ids
  {
    var e := Bind(Names(ns), ids);
    forall k | 0 <= k < |ns|
      ensures AccessElement(IndexDims(NaturalIndices(ns)), e)[k] == ids[k]
    {
      BindAt(Names(ns), ids, k);
      assert Uids(e, Naturals(Natural(ns[k]))) == [ids[k]];
    }
  }

  /** Reading a tensor over natural indices at bound ids reads the cell of those ids. */
  lemma ReadNaturals(ns: seq<NaturalIndex>, mem: seq<int>, ids: seq<nat>)
    requires UsableNaturals(ns) && Distinct(Names(ns))
    requires |mem| == Product(Extents(ns)) && Within(Extents(ns), ids)
    ensures Read(IndexDims(NaturalIndices(ns)), mem, Bind(Names(ns), ids)) == Some(Cell(Extents(ns), mem, ids))
  {
    NaturalLayout(ns);
    AccessOfNaturals(ns, ids);
    GetOfNaturals(IndexDims(NaturalIndices(ns)), mem, ids);
  }

  /** Head then tail natural indices, their names distinct from each other and from the contracted ones. */
  predicate NaturalTriple(head: seq<NaturalIndex>, contract: seq<NaturalIndex>, tail: seq<NaturalIndex>)
  {
    UsableNaturals(head) && UsableNaturals(contract) && UsableNaturals(tail) &&
    Distinct(Names(head) + Names(contract) + Names(tail))
  }

  /** The distinctness each operand needs. */
  lemma TripleParts(head: seq<NaturalIndex>, contract: seq<NaturalIndex>, tail: seq<NaturalIndex>)
    requires NaturalTriple(head, contract, tail)
    ensures Distinct(Names(head + contract)) && Distinct(Names(contract + tail)) && Distinct(Names(head + tail))
    ensures Distinct(Names(contract)) && Distinct(Names(head) + Names(tail))
    ensures UsableNaturals(head + contract) && UsableNaturals(contract + tail) && UsableNaturals(head + tail)
  {
    DistinctParts(Names(head), Names(contract), Names(tail));
    NamesAppend(head, contract);
    NamesAppend(contract, tail);
    NamesAppend(head, tail);
    UsableAppend(head, contract);
    UsableAppend(contract, tail);
    UsableAppend(head, tail);
    assert Names(contract) == (Names(contract) + Names(tail))[..|contract|];
  }

  /**
   * A term of the reduction at head ids hc, contracted ids cc and tail
   * ids tc is t1's cell at hc + cc times t2's cell at cc + tc.
   */
  lemma TermOfNaturals(head: seq<NaturalIndex>, contract: seq<NaturalIndex>, tail: seq<NaturalIndex>,
                       m1: seq<int>, m2: seq<int>, hc: seq<nat>, cc: seq<nat>, tc: seq<nat>)
    requires NaturalTriple(head, contract, tail)
    requires |m1| == Product(Extents(head) + Extents(contract)) && |m2| == Product(Extents(contract) + Extents(tail))
    requires Within(Extents(head), hc) && Within(Extents(contract), cc) && Within(Extents(tail), tc)
    ensures Within(Extents(head) + Extents(contract), hc + cc) && Within(Extents(contract) + Extents(tail), cc + tc)
    ensures Term(NaturalOperands(head, contract, tail, m1, m2), Bind(Names(head) + Names(tail), hc + tc), cc)
         == Some(Cell(Extents(head) + Extents(contract), m1, hc + cc) * Cell(Extents(contract) + Extents(tail), m2, cc + tc))
  {
    var ops := NaturalOperands(head, contract, tail, m1, m2);
    var elem := Bind(Names(head) + Names(tail), hc + tc);
    WithinAppend(Extents(head), hc, Extents(contract), cc);
    WithinAppend(Extents(contract), cc, Extents(tail), tc);
    TripleParts(head, contract, tail);
    assert Read(ops.dims1, ops.mem1, Bind(ops.head + Names(ops.contract), Uids(elem, ops.head) + ContractAccess(ops.contract, cc)))
        == Some(Cell(Extents(head) + Extents(contract), m1, hc + cc)) by {
      assert Uids(elem, Names(head)) == hc by {
        UidsOfBindAppend(Names(head), Names(tail), hc, tc);
      }
      assert ContractAccess(contract, cc) == cc by {
        AccessOfNaturals(contract, cc);
      }
      NamesAppend(head, contract);
      ReadNaturals(head + contract, m1, hc + cc);
    }
    assert Read(ops.dims2, ops.mem2, Bind(Names(ops.contract) + ops.tail, cc + Uids(elem, ops.tail)))
        == Some(Cell(Extents(contract) + Extents(tail), m2, cc + tc)) by {
      assert Uids(elem, Names(tail)) == tc by {
        UidsOfBindAppend(Names(head), Names(tail), hc, tc);
      }
      NamesAppend(contract, tail);
      ReadNaturals(contract + tail, m2, cc + tc);
    }
  }

  /** Terms whose values are the steps between consecutive partial sums add up to the partial sums. */
  lemma {:induction false} OptionSumOfSteps(ts: seq<Option<int>>, sums: seq<int>, n: nat)
    requires n <= |ts| && |sums| == |ts| + 1 && sums[0] == 0
    requires forall k :: 0 <= k < |ts| ==> ts[k].Some? && ts[k].value == sums[k + 1] - sums[k]
    ensures OptionSum(ts, n).Some? && OptionSum(ts, n).value == sums[n]
  {
    if n > 0 {
      var k: nat := n - 1;
      OptionSumOfSteps(ts, sums, k);
    }
  }

  /** Term k of the reduction over natural indices is step k of the natural product's contracted sum. */
  lemma TermOfNaturalsAt(head: seq<NaturalIndex>, contract: seq<NaturalIndex>, tail: seq<NaturalIndex>,
                         m1: seq<int>, m2: seq<int>, hc: seq<nat>, tc: seq<nat>, k: nat)
    requires NaturalTriple(head, contract, tail)
    requires |m1| == Product(Extents(head) + Extents(contract)) && |m2| == Product(Extents(contract) + Extents(tail))
    requires Within(Extents(head), hc) && Within(Extents(tail), tc) && k < Product(Extents(contract))
    ensures k < |Terms(NaturalOperands(head, contract, tail, m1, m2), Bind(Names(head) + Names(tail), hc + tc))|
    ensures Terms(NaturalOperands(head, contract, tail, m1, m2), Bind(Names(head) + Names(tail), hc + tc))[k].Some?
    ensures Terms(NaturalOperands(head, contract, tail, m1, m2), Bind(Names(head) + Names(tail), hc + tc))[k].value
         == ContractedSum(Extents(head), Extents(contract), Extents(tail), m1, m2, hc, tc, k + 1)
            - ContractedSum(Extents(head), Extents(contract), Extents(tail), m1, m2, hc, tc, k)
  {
    var ops := NaturalOperands(head, contract, tail, m1, m2);
    var elem := Bind(Names(head) + Names(tail), hc + tc);
    var cc := Coordinates(Extents(contract), k);
    ContractedSumSnoc(Extents(head), Extents(contract), Extents(tail), m1, m2, hc, tc, k);
    TermsAt(ops, elem, k);
    TermOfNaturals(head, contract, tail, m1, m2, hc, cc, tc);
  }

  /** The contracted sum of k + 1 terms adds the term at the k-th contracted element. */
  lemma ContractedSumSnoc(head: seq<nat>, contract: seq<nat>, tail: seq<nat>, a: seq<int>, b: seq<int>,
                          hc: seq<nat>, tc: seq<nat>, k: nat)
    requires |a| == Product(head + contract) && |b| == Product(contract + tail)
    requires Within(head, hc) && Within(tail, tc) && k < Product(contract)
    ensures Within(head + contract, hc + Coordinates(contract, k)) && Within(contract + tail, Coordinates(contract, k) + tc)
    ensures ContractedSum(head, contract, tail, a, b, hc, tc, k + 1)
         == ContractedSum(head, contract, tail, a, b, hc, tc, k)
            + Cell(head + contract, a, hc + Coordinates(contract, k)) * Cell(contract + tail, b, Coordinates(contract, k) + tc)
  {
    WithinAppend(head, hc, contract, Coordinates(contract, k));
    WithinAppend(contract, Coordinates(contract, k), tail, tc);
  }

  /** The contracted sum of the natural product after n contracted elements (0 where it is undefined). */
  function PartialSumAt(eh: seq<nat>, ec: seq<nat>, et: seq<nat>, m1: seq<int>, m2: seq<int>, hc: seq<nat>, tc: seq<nat>): nat -> int
  {
    (n: nat) =>
      if |m1| == Product(eh + ec) && |m2| == Product(ec + et) && Within(eh, hc) && Within(et, tc) && n <= Product(ec)
      then ContractedSum(eh, ec, et, m1, m2, hc, tc, n) else 0
  }

  /** The contracted sums after 0, 1, ..., every contracted element. */
  function PartialSums(eh: seq<nat>, ec: seq<nat>, et: seq<nat>, m1: seq<int>, m2: seq<int>, hc: seq<nat>, tc: seq<nat>): (s: seq<int>)
    ensures |s| == Product(ec) + 1
  {
    Tabulate(PartialSumAt(eh, ec, et, m1, m2, hc, tc), Product(ec) + 1)
  }

  lemma PartialSumsAt(eh: seq<nat>, ec: seq<nat>, et: seq<nat>, m1: seq<int>, m2: seq<int>, hc: seq<nat>, tc: seq<nat>, n: nat)
    requires |m1| == Product(eh + ec) && |m2| == Product(ec + et) && Within(eh, hc) && Within(et, tc) && n <= Product(ec)
    ensures PartialSums(eh, ec, et, m1, m2, hc, tc)[n] == ContractedSum(eh, ec, et, m1, m2, hc, tc, n)
  {
    TabulateAt(PartialSumAt(eh, ec, et, m1, m2, hc, tc), Product(ec) + 1, n);
  }

  /** Every term of the reduction over natural indices is a step of the natural product's contracted sum. */
  lemma TermsOfNaturals(head: seq<NaturalIndex>, contract: seq<NaturalIndex>, tail: seq<NaturalIndex>,
                        m1: seq<int>, m2: seq<int>, hc: seq<nat>, tc: seq<nat>)
    requires NaturalTriple(head, contract, tail)
    requires |m1| == Product(Extents(head) + Extents(contract)) && |m2| == Product(Extents(contract) + Extents(tail))
    requires Within(Extents(head), hc) && Within(Extents(tail), tc)
    ensures |PartialSums(Extents(head), Extents(contract), Extents(tail), m1, m2, hc, tc)|
         == |Terms(NaturalOperands(head, contract, tail, m1, m2), Bind(Names(head) + Names(tail), hc + tc))| + 1
    ensures PartialSums(Extents(head), Extents(contract), Extents(tail), m1, m2, hc, tc)[0] == 0
    ensures forall k :: 0 <= k < |Terms(NaturalOperands(head, contract, tail, m1, m2), Bind(Names(head) + Names(tail), hc + tc))| ==>
              Terms(NaturalOperands(head, contract, tail, m1, m2), Bind(Names(head) + Names(tail), hc + tc))[k].Some? &&
              Terms(NaturalOperands(head, contract, tail, m1, m2), Bind(Names(head) + Names(tail), hc + tc))[k].value
              == PartialSums(Extents(head), Extents(contract), Extents(tail), m1, m2, hc, tc)[k + 1]
                 - PartialSums(Extents(head), Extents(contract), Extents(tail), m1, m2, hc, tc)[k]
  {
    var eh, ec, et := Extents(head), Extents(contract), Extents(tail);
    var ts := Terms(NaturalOperands(head, contract, tail, m1, m2), Bind(Names(head) + Names(tail), hc + tc));
    var sums := PartialSums(eh, ec, et, m1, m2, hc, tc);
    PartialSumsAt(eh, ec, et, m1, m2, hc, tc, 0);
    forall k | 0 <= k < |ts|
      ensures ts[k].Some? && ts[k].value == sums[k + 1] - sums[k]
    {
      StepOfNaturals(head, contract, tail, m1, m2, hc, tc, k);
    }
  }

  lemma StepOfNaturals(head: seq<NaturalIndex>, contract: seq<NaturalIndex>, tail: seq<NaturalIndex>,
                       m1: seq<int>, m2: seq<int>, hc: seq<nat>, tc: seq<nat>, k: nat)
    requires NaturalTriple(head, contract, tail)
    requires |m1| == Product(Extents(head) + Extents(contract)) && |m2| == Product(Extents(contract) + Extents(tail))
    requires Within(Extents(head), hc) && Within(Extents(tail), tc) && k < Product(Extents(contract))
    ensures k < |Terms(NaturalOperands(head, contract, tail, m1, m2), Bind(Names(head) + Names(tail), hc + tc))|
    ensures Terms(NaturalOperands(head, contract, tail, m1, m2), Bind(Names(head) + Names(tail), hc + tc))[k].Some?
    ensures Terms(NaturalOperands(head, contract, tail, m1, m2), Bind(Names(head) + Names(tail), hc + tc))[k].value
         == PartialSums(Extents(head), Extents(contract), Extents(tail), m1, m2, hc, tc)[k + 1]
            - PartialSums(Extents(head), Extents(contract), Extents(tail), m1, m2, hc, tc)[k]
  {
    TermOfNaturalsAt(head, contract, tail, m1, m2, hc, tc, k);
    PartialSumsAt(Extents(head), Extents(contract), Extents(tail), m1, m2, hc, tc, k);
    PartialSumsAt(Extents(head), Extents(contract), Extents(tail), m1, m2, hc, tc, k + 1);
  }

  /** The whole reduction over natural indices is the natural product's contracted sum. */
  lemma SumOfNaturals(head: seq<NaturalIndex>, contract: seq<NaturalIndex>, tail: seq<NaturalIndex>,
                      m1: seq<int>, m2: seq<int>, hc: seq<nat>, tc: seq<nat>)
    requires NaturalTriple(head, contract, tail)
    requires |m1| == Product(Extents(head) + Extents(contract)) && |m2| == Product(Extents(contract) + Extents(tail))
    requires Within(Extents(head), hc) && Within(Extents(tail), tc)
    ensures OptionSum(Terms(NaturalOperands(head, contract, tail, m1, m2), Bind(Names(head) + Names(tail), hc + tc)),
                      ContractSize(NaturalOperands(head, contract, tail, m1, m2))).Some?
    ensures OptionSum(Terms(NaturalOperands(head, contract, tail, m1, m2), Bind(Names(head) + Names(tail), hc + tc)),
                      ContractSize(NaturalOperands(head, contract, tail, m1, m2))).value
         == ContractedSum(Extents(head), Extents(contract), Extents(tail), m1, m2, hc, tc, Product(Extents(contract)))
  {
    var eh, ec, et := Extents(head), Extents(contract), Extents(tail);
    var ts := Terms(NaturalOperands(head, contract, tail, m1, m2), Bind(Names(head) + Names(tail), hc + tc));
    var sums := PartialSums(eh, ec, et, m1, m2, hc, tc);
    TermsOfNaturals(head, contract, tail, m1, m2, hc, tc);
    OptionSumOfSteps(ts, sums, |ts|);
    TabulateAt(PartialSumAt(eh, ec, et, m1, m2, hc, tc), Product(ec) + 1, Product(ec));
  }

  /** The product's value at a memory element of natural indices is the reduction at its own ids. */
  lemma ProductCellOfNaturals(head: seq<NaturalIndex>, contract: seq<NaturalIndex>, tail: seq<NaturalIndex>,
                              m1: seq<int>, m2: seq<int>, hc: seq<nat>, tc: seq<nat>)
    requires NaturalTriple(head, contract, tail)
    requires Within(Extents(head), hc) && Within(Extents(tail), tc)
    ensures ProductIndices(NaturalIndices(head + tail))
    ensures |hc + tc| == |NaturalIndices(head + tail)|
    ensures forall k :: 0 <= k < |head + tail| ==> (hc + tc)[k] < MemSize(NaturalIndices(head + tail)[k])
    ensures ProductCell(NaturalIndices(head + tail), NaturalOperands(head, contract, tail, m1, m2), hc + tc)
         == OptionSum(Terms(NaturalOperands(head, contract, tail, m1, m2), Bind(Names(head) + Names(tail), hc + tc)),
                      ContractSize(NaturalOperands(head, contract, tail, m1, m2)))
  {
    TripleParts(head, contract, tail);
    NamesAppend(head, tail);
    WithinAppend(Extents(head), hc, Extents(tail), tc);
    CanonicalOfNaturals(head + tail, hc + tc);
    NaturalNamesOf(head + tail);
  }

  /** Memory element p of the product over head then tail natural indices, split into its head and tail ids. */
  lemma SlotOfNaturals(head: seq<NaturalIndex>, tail: seq<NaturalIndex>, p: nat) returns (hc: seq<nat>, tc: seq<nat>)
    requires UsableNaturals(head) && UsableNaturals(tail)
    requires p < Product(Extents(head)) * Product(Extents(tail))
    ensures ProductIndices(NaturalIndices(head + tail)) && p < MemCount(NaturalIndices(head + tail))
    ensures Within(Extents(head), hc) && Within(Extents(tail), tc)
    ensures MemElements(NaturalIndices(head + tail))[p] == hc + tc
    ensures Offset(Extents(head) + Extents(tail), hc + tc) == p
  {
    var eh, et := Extents(head), Extents(tail);
    UsableAppend(head, tail);
    NamesAppend(head, tail);
    NaturalLayout(head + tail);
    SplitProduct(eh, et);
    var memElem := MemElements(NaturalIndices(head + tail))[p];
    assert memElem == Coordinates(eh + et, p) by {
      ElementsAt(eh + et, MemCount(NaturalIndices(head + tail)), p);
    }
    hc, tc := memElem[..|eh|], memElem[|eh|..];
    WithinSplit(eh, et, memElem);
  }

  /** An element of a concatenated domain splits into an element of each part. */
  lemma WithinSplit(e1: seq<nat>, e2: seq<nat>, c: seq<nat>)
    requires Within(e1 + e2, c)
    ensures Within(e1, c[..|e1|]) && Within(e2, c[|e1|..]) && c == c[..|e1|] + c[|e1|..]
  {
    assert forall k :: 0 <= k < |e1| ==> c[..|e1|][k] == c[k] && e1[k] == (e1 + e2)[k];
    assert forall k :: 0 <= k < |e2| ==> c[|e1|..][k] == c[|e1| + k] && e2[k] == (e1 + e2)[|e1| + k];
  }

  /** Memory slot p of the general product over natural indices holds slot p of the matrix product. */
  lemma NaturalCell(head: seq<NaturalIndex>, contract: seq<NaturalIndex>, tail: seq<NaturalIndex>,
                    m1: seq<int>, m2: seq<int>, p: nat)
    requires NaturalTriple(head, contract, tail)
    requires |m1| == Product(Extents(head)) * Product(Extents(contract)) && |m2| == Product(Extents(contract)) * Product(Extents(tail))
    requires p < Product(Extents(head)) * Product(Extents(tail))
    ensures p < MemCount(NaturalIndices(head + tail))
    ensures Cells(NaturalIndices(head + tail), NaturalOperands(head, contract, tail, m1, m2))[p].Some?
    ensures Cells(NaturalIndices(head + tail), NaturalOperands(head, contract, tail, m1, m2))[p].value
         == MatrixProduct(m1, m2, Product(Extents(head)), Product(Extents(contract)), Product(Extents(tail)))[p]
  {
    var eh, ec, et := Extents(head), Extents(contract), Extents(tail);
    SplitProduct(eh, ec);
    SplitProduct(ec, et);
    var hc, tc := SlotOfNaturals(head, tail, p);
    CellsAt(NaturalIndices(head + tail), NaturalOperands(head, contract, tail, m1, m2), p);
    ProductCellOfNaturals(head, contract, tail, m1, m2, hc, tc);
    SumOfNaturals(head, contract, tail, m1, m2, hc, tc);
    MatrixProductCell(eh, ec, et, m1, m2, hc, tc);
  }

  /**
   * Over natural indices the general product agrees with the natural
   * overload: every slot can be evaluated and the memory is the matrix
   * product of t1 (head x contracted) and t2 (contracted x tail).
   */
  lemma NaturalProductIsMatrixProduct(head: seq<NaturalIndex>, contract: seq<NaturalIndex>, tail: seq<NaturalIndex>,
                                      m1: seq<int>, m2: seq<int>)
    requires NaturalTriple(head, contract, tail)
    requires |m1| == Product(Extents(head)) * Product(Extents(contract)) && |m2| == Product(Extents(contract)) * Product(Extents(tail))
    ensures Evaluable(NaturalIndices(head + tail), NaturalOperands(head, contract, tail, m1, m2))
    ensures ProductMemory(NaturalIndices(head + tail), NaturalOperands(head, contract, tail, m1, m2))
         == MatrixProduct(m1, m2, Product(Extents(head)), Product(Extents(contract)), Product(Extents(tail)))
  {
    var indices := NaturalIndices(head + tail);
    var ops := NaturalOperands(head, contract, tail, m1, m2);
    var target := MatrixProduct(m1, m2, Product(Extents(head)), Product(Extents(contract)), Product(Extents(tail)));
    assert MemCount(indices) == |target| && ProductIndices(indices) by {
      TripleParts(head, contract, tail);
      NamesAppend(head, tail);
      NaturalLayout(head + tail);
      SplitProduct(Extents(head), Extents(tail));
    }
    forall p | 0 <= p < MemCount(indices)
      ensures Cells(indices, ops)[p].Some? && Cells(indices, ops)[p].value == target[p]
    {
      NaturalCell(head, contract, tail, m1, m2, p);
    }
  }

  // ---------------------------------------------------------------------
  // The Young-tableau overloads
  // ---------------------------------------------------------------------

  /**
   * A fresh dense tensor over the natural sub-indices `subdims` (extents
   * ts) of a Young-tableau index, filled by `uncompress` from the irrep
   * coordinates mem through the CSR matrix v.
   */
  method Uncompressed(subdims: seq<Dim>, ts: seq<nat>, mem: seq<int>, v: Csr.CsrData) returns (t: Tensor)
    requires NaturalDims(subdims) && MemExtents(subdims) == ts
    requires Csr.TailShape(ts) && Csr.WellFormed(v, ts) && Csr.Rows(v) <= |mem|
    ensures fresh(t.data) && t.Valid() && t.dims == subdims
    ensures t.data[..] == Csr.AddRows(v, ts, mem, Csr.Rows(v))
  {
    var data := new int[Csr.TailSize(ts)];
    YoungIndex.Uncompress(data, mem, v, ts);
    t := new Tensor(subdims, data);
  }

  /**
   * `TensorProdNatYoungNat::run`: tensor1 lives in a Young-tableau index
   * over the head and contracted dimensions; it is uncompressed, then
   * multiplied with the natural tensor2 by the natural product.
   */
  method TensorProdNatYoungNat(prod: Tensor, mem1: seq<int>, v1: Csr.CsrData, subdims1: seq<Dim>, t2: Tensor,
                               head: seq<nat>, contract: seq<nat>, tail: seq<nat>)
    requires NaturalDims(subdims1) && MemExtents(subdims1) == head + contract
    requires Csr.TailShape(head + contract) && Csr.WellFormed(v1, head + contract) && Csr.Rows(v1) <= |mem1|
    requires NaturalDims(prod.dims) && NaturalDims(t2.dims)
    requires MemExtents(t2.dims) == contract + tail && MemExtents(prod.dims) == head + tail
    requires prod.Valid() && t2.Valid() && prod.data != t2.data
    modifies prod.data
    ensures |Csr.AddRows(v1, head + contract, mem1, Csr.Rows(v1))| == Product(head) * Product(contract)
    ensures |t2.data[..]| == Product(contract) * Product(tail)
    ensures prod.data[..] == MatrixProduct(Csr.AddRows(v1, head + contract, mem1, Csr.Rows(v1)), t2.data[..],
                                           Product(head), Product(contract), Product(tail))
  {
    var dense1 := Uncompressed(subdims1, head + contract, mem1, v1);
    NaturalTensorProd(prod, dense1, t2, head, contract, tail);
  }

  /**
   * `TensorProdNatYoungYoung::run`: both operands live in Young-tableau
   * indices; both are uncompressed, then multiplied by the natural product.
   */
  method TensorProdNatYoungYoung(prod: Tensor, mem1: seq<int>, v1: Csr.CsrData, subdims1: seq<Dim>,
                                 mem2: seq<int>, v2: Csr.CsrData, subdims2: seq<Dim>,
                                 head: seq<nat>, contract: seq<nat>, tail: seq<nat>)
    requires NaturalDims(subdims1) && MemExtents(subdims1) == head + contract
    requires Csr.TailShape(head + contract) && Csr.WellFormed(v1, head + contract) && Csr.Rows(v1) <= |mem1|
    requires NaturalDims(subdims2) && MemExtents(subdims2) == contract + tail
    requires Csr.TailShape(contract + tail) && Csr.WellFormed(v2, contract + tail) && Csr.Rows(v2) <= |mem2|
    requires NaturalDims(prod.dims) && MemExtents(prod.dims) == head + tail && prod.Valid()
    modifies prod.data
    ensures |Csr.AddRows(v1, head + contract, mem1, Csr.Rows(v1))| == Product(head) * Product(contract)
    ensures |Csr.AddRows(v2, contract + tail, mem2, Csr.Rows(v2))| == Product(contract) * Product(tail)
    ensures prod.data[..] == MatrixProduct(Csr.AddRows(v1, head + contract, mem1, Csr.Rows(v1)),
                                           Csr.AddRows(v2, contract + tail, mem2, Csr.Rows(v2)),
                                           Product(head), Product(contract), Product(tail))
  {
    var dense1 := Uncompressed(subdims1, head + contract, mem1, v1);
    var dense2 := Uncompressed(subdims2, contract + tail, mem2, v2);
    NaturalTensorProd(prod, dense1, dense2, head, contract, tail);
  }

  /**
   * `TensorProdYoungAnyAny::run`: the product lives in a Young-tableau
   * index over the natural sub-indices `subs`. The dense product over
   * those sub-indices is evaluated slot by slot, then compressed through
   * the CSR matrix u into the irrep coordinates.
   */
  method TensorProdYoungAnyAny(prod: array<int>, u: Csr.CsrData, subs: seq<NaturalIndex>, t1: Tensor, t2: Tensor,
                               head: seq<nat>, contract: seq<NaturalIndex>, tail: seq<nat>)
    requires UsableNaturals(subs) && Csr.TailShape(Extents(subs))
    requires Csr.WellFormed(u, Extents(subs)) && Csr.Rows(u) <= prod.Length
    requires prod != t1.data && prod != t2.data
    requires Evaluable(NaturalIndices(subs), Operands(t1.dims, t1.data[..], t2.dims, t2.data[..], head, contract, tail))
    modifies prod
    ensures |ProductMemory(NaturalIndices(subs), Operands(t1.dims, t1.data[..], t2.dims, t2.data[..], head, contract, tail))|
         == Csr.TailSize(Extents(subs))
    ensures prod[..] == Csr.RowSums(u, Extents(subs),
                          ProductMemory(NaturalIndices(subs), Operands(t1.dims, t1.data[..], t2.dims, t2.data[..], head, contract, tail)),
                          prod.Length)
  {
    NaturalLayout(subs);
    var data := new int[MemCount(NaturalIndices(subs))];
    var dense := new Tensor(IndexDims(NaturalIndices(subs)), data);
    TensorProdAnyAnyAny(dense, NaturalIndices(subs), t1, t2, head, contract, tail);
    YoungIndex.Compress(prod, u, dense.data[..], Extents(subs));
  }
}
