// The tensor accessor and the `Tensor` view of `sil::tensor`. A tensor's
// domain is a list of dimensions: tensor indices (natural indices and the
// structured kinds built over them) and non-index dimensions. Its memory is
// a dense row-major array over the memory extents of the dimensions. A read
// (`get`) wraps the value in every index's `process_access`, outermost
// first, and decodes only the last dimension's access id into memory ids;
// a write (`operator()`) converts every access id to its single memory id.
// Values are the library's floating-point numbers, modelled as integers.
module Tensors {
  import opened Arith
  import opened Misc
  import opened Strides
  import opened LinearCombination
  import FullIndex
  import AntisymmetricIndex
  import Binomial
  import opened Signs

  // ---------------------------------------------------------------------
  // Natural indices
  // ---------------------------------------------------------------------

  /** `TensorNaturalIndex<CDim...>`: an index type (by name) over `dims` dimensions. */
  datatype NaturalIndex = NaturalIndex(name: nat, dims: nat)

  /** `rank()`: 1 when the index has dimensions, 0 when it has none. */
  function NaturalRank(i: NaturalIndex): (r: nat)
    ensures r <= 1
    ensures r == 1 <==> i.dims > 0
  {
    if i.dims != 0 then 1 else 0
  }

  /** `size()`, and with it `mem_size()` and `access_size()`: the dimension count, and 1 at rank 0. */
  function NaturalSize(i: NaturalIndex): (s: nat)
    ensures s >= 1
    ensures NaturalRank(i) == 1 ==> s == i.dims
  {
    if i.dims == 0 then 1 else i.dims
  }

  /** `access_id`: the natural id itself (0 when the index has none). */
  function NaturalAccessId(ids: seq<nat>): nat
  {
    if |ids| == 0 then 0 else ids[0]
  }

  /** `mem_id_to_canonical_natural_ids(m)`: no id at rank 0, else m itself; m < mem_size() is asserted. */
  function NaturalCanonicalIds(i: NaturalIndex, m: nat): (ids: seq<nat>)
    requires m < NaturalSize(i)
    ensures |ids| == NaturalRank(i)
  {
    if NaturalRank(i) == 0 then [] else [m]
  }

  /** Canonical ids and access ids are inverse: memory id -> natural ids -> the same memory id, and back. */
  lemma NaturalRoundTrip(i: NaturalIndex, m: nat, x: nat)
    requires m < NaturalSize(i) && x < NaturalSize(i)
    ensures NaturalAccessId(NaturalCanonicalIds(i, m)) == m
    ensures NaturalRank(i) == 1 ==> NaturalCanonicalIds(i, NaturalAccessId([x])) == [x]
  {
  }

  // ---------------------------------------------------------------------
  // Tensor indices
  // ---------------------------------------------------------------------

  /**
   * What an index hands back for an access id: one memory id
   * (`access_id_to_mem_id` of an explicitly stored index, the size_t
   * maximum standing for "read 1") or a linear combination of memory ids
   * (`access_id_to_mem_lin_comb`).
   */
  datatype Decoded = Stored(memId: nat) | Combination(terms: seq<Term>)

  /**
   * A tensor index: a natural index, or a structured kind (symmetric,
   * antisymmetric, diagonal, identity, Lorentzian, Young tableau) given by
   * the natural dimensions it spans (its sub-indices) and its static
   * members.
   */
  datatype Index =
    | Natural(natural: NaturalIndex)
    | Structured(naturals: seq<nat>, memSize: nat, accessSize: nat,
                 accessId: seq<nat> -> nat, decode: nat -> Decoded,
                 process: (nat, int) -> int, canonical: nat -> seq<nat>)

  /** The natural dimensions of the index: itself for a natural index, its sub-indices otherwise. */
  function Naturals(ix: Index): seq<nat>
  {
    if ix.Natural? then [ix.natural.name] else ix.naturals
  }

  /** `rank()`: how many natural ids the index consumes. */
  function Rank(ix: Index): (r: nat)
    ensures r <= |Naturals(ix)|
  {
    if ix.Natural? then NaturalRank(ix.natural) else |ix.naturals|
  }

  function MemSize(ix: Index): nat
  {
    if ix.Natural? then NaturalSize(ix.natural) else ix.memSize
  }

  function AccessSize(ix: Index): nat
  {
    if ix.Natural? then NaturalSize(ix.natural) else ix.accessSize
  }

  /** `access_id(natural ids)`. */
  function AccessId(ix: Index, ids: seq<nat>): nat
  {
    if ix.Natural? then NaturalAccessId(ids) else ix.accessId(ids)
  }

  /** A natural index is explicitly stored: `access_id_to_mem_id` is the identity. */
  function Decode(ix: Index, a: nat): Decoded
  {
    if ix.Natural? then Stored(a) else ix.decode(a)
  }

  /** `process_access`: what a read through the index makes of the value read beyond it. */
  function Process(ix: Index, a: nat, v: int): int
  {
    if ix.Natural? then v else ix.process(a, v)
  }

  /** `mem_id_to_canonical_natural_ids(m)`. */
  function CanonicalIds(ix: Index, m: nat): seq<nat>
    requires m < MemSize(ix)
  {
    if ix.Natural? then NaturalCanonicalIds(ix.natural, m) else ix.canonical(m)
  }

  /** `mem_id_to_canonical_natural_ids` returns an array of rank() ids. */
  predicate Shaped(ix: Index)
  {
    ix.Structured? ==> forall m :: 0 <= m < ix.memSize ==> |ix.canonical(m)| == |ix.naturals|
  }

  /** The memory ids of a decoded access id address a row of `size` cells (or are the size_t maximum). */
  predicate DecodeFits(d: Decoded, size: nat)
  {
    match d
    case Stored(m) => m == SIZE_MAX || m < size
    case Combination(ts) => forall k :: 0 <= k < |ts| ==> ts[k].memId < size
  }

  // ---------------------------------------------------------------------
  // Domains and the row-major memory layout
  // ---------------------------------------------------------------------

  /** A dimension of a tensor: a tensor index, or a non-index dimension of a given extent. */
  datatype Dim = Plain(name: nat, extent: nat) | Indexed(index: Index)

  function MemExtent(d: Dim): nat
  {
    if d.Plain? then d.extent else MemSize(d.index)
  }

  function AccessExtent(d: Dim): nat
  {
    if d.Plain? then d.extent else AccessSize(d.index)
  }

  /** `mem_domain()`: front 0 in every dimension, extent mem_size() for an index. */
  function MemExtents(dims: seq<Dim>): (ext: seq<nat>)
    ensures |ext| == |dims|
    ensures forall k :: 0 <= k < |dims| ==> ext[k] == MemExtent(dims[k])
  {
    seq(|dims|, k requires 0 <= k < |dims| => MemExtent(dims[k]))
  }

  /** `access_domain()`: front 0 in every dimension, extent access_size() for an index. */
  function AccessExtents(dims: seq<Dim>): (ext: seq<nat>)
    ensures |ext| == |dims|
    ensures forall k :: 0 <= k < |dims| ==> ext[k] == AccessExtent(dims[k])
  {
    seq(|dims|, k requires 0 <= k < |dims| => AccessExtent(dims[k]))
  }

  /** Memory and access domains of natural indices coincide. */
  lemma NaturalDomainsAgree(dims: seq<Dim>)
    requires forall k :: 0 <= k < |dims| ==> dims[k].Indexed? && dims[k].index.Natural?
    ensures MemExtents(dims) == AccessExtents(dims)
  {
  }

  /** An element of the domain with the given extents (every front is 0). */
  predicate Within(ext: seq<nat>, c: seq<nat>)
  {
    |c| == |ext| && forall k :: 0 <= k < |c| ==> c[k] < ext[k]
  }

  /** The position of an element in right-layout (row-major) memory. */
  function Offset(ext: seq<nat>, c: seq<nat>): nat
    requires |c| == |ext|
  {
    if |ext| == 0 then 0 else Offset(ext[..|ext| - 1], c[..|c| - 1]) * ext[|ext| - 1] + c[|c| - 1]
  }

  /** The element at a position of row-major memory: the inverse of Offset. */
  function Coordinates(ext: seq<nat>, p: nat): (c: seq<nat>)
    requires p < Product(ext)
    ensures Within(ext, c) && Offset(ext, c) == p
  {
    if |ext| == 0 then []
    else
      var n := |ext|;
      var e := ext[n - 1];
      SplitPosition(p, ext);
      var front := Coordinates(ext[..n - 1], p / e);
      OffsetSnoc(ext, front, p % e);
      front + [p % e]
  }

  /** A position of memory splits into the row before the last dimension and the place in the row. */
  lemma SplitPosition(p: nat, ext: seq<nat>)
    requires |ext| > 0 && p < Product(ext)
    ensures ext[|ext| - 1] > 0 && p / ext[|ext| - 1] < Product(ext[..|ext| - 1])
    ensures p == (p / ext[|ext| - 1]) * ext[|ext| - 1] + p % ext[|ext| - 1]
    ensures p % ext[|ext| - 1] < ext[|ext| - 1]
  {
    ProductLast(ext);
    QuotientBelow(p, Product(ext[..|ext| - 1]), ext[|ext| - 1]);
    DivMod(p, ext[|ext| - 1]);
  }

  /** The offset of an element with one more coordinate at the end. */
  lemma OffsetSnoc(ext: seq<nat>, front: seq<nat>, x: nat)
    requires |ext| > 0 && |front| == |ext| - 1
    ensures Offset(ext, front + [x]) == Offset(ext[..|ext| - 1], front) * ext[|ext| - 1] + x
    ensures Within(ext[..|ext| - 1], front) && x < ext[|ext| - 1] ==> Within(ext, front + [x])
  {
    var c := front + [x];
    assert c[..|c| - 1] == front;
    if Within(ext[..|ext| - 1], front) && x < ext[|ext| - 1] {
      forall k | 0 <= k < |c|
        ensures c[k] < ext[k]
      {
        if k < |front| {
          assert c[k] == front[k] && ext[..|ext| - 1][k] == ext[k];
        }
      }
    }
  }

  lemma ProductLast(s: seq<nat>)
    requires |s| > 0
    ensures Product(s) == Product(s[..|s| - 1]) * s[|s| - 1]
  {
    FullIndex.ProductSplit(s, |s| - 1);
    assert s[|s| - 1..] == [s[|s| - 1]];
    assert Product([s[|s| - 1]]) == s[|s| - 1] * Product([]);
  }

  lemma QuotientBelow(p: nat, q: nat, e: nat)
    requires p < q * e
    ensures e > 0 && 0 <= p / e < q && 0 <= p % e < e
  {
    if e == 0 {
      assert false;
    } else if p / e >= q {
      assert p >= (p / e) * e by { DivMod(p, e); }
      MulMono(q, p / e, e);
    }
  }

  lemma DivMod(p: nat, e: nat)
    requires e > 0
    ensures p == (p / e) * e + p % e
  {
  }

  lemma MulMono(a: nat, b: nat, e: nat)
    requires a <= b
    ensures a * e <= b * e
  {
  }

  /** Every element of the domain lies inside the memory. */
  lemma {:induction false} OffsetBound(ext: seq<nat>, c: seq<nat>)
    requires Within(ext, c)
    ensures Offset(ext, c) < Product(ext)
  {
    if |ext| > 0 {
      var n := |ext|;
      WithinFront(ext, c);
      OffsetBound(ext[..n - 1], c[..n - 1]);
      ProductLast(ext);
      RowInside(Offset(ext[..n - 1], c[..n - 1]), Product(ext[..n - 1]), ext[n - 1], c[n - 1]);
    }
  }

  lemma WithinFront(ext: seq<nat>, c: seq<nat>)
    requires Within(ext, c) && |ext| > 0
    ensures Within(ext[..|ext| - 1], c[..|c| - 1]) && c[|c| - 1] < ext[|ext| - 1]
  {
  }

  /** Cell x of row o of width e lies before the end of q rows. */
  lemma RowInside(o: nat, q: nat, e: nat, x: nat)
    requires o < q && x < e
    ensures o * e + x < q * e
  {
    MulMono(o + 1, q, e);
  }

  /** Row o of width e ends no later than q rows. */
  lemma RowEnd(o: nat, q: nat, e: nat)
    requires o < q
    ensures o * e + e <= q * e
  {
    MulMono(o + 1, q, e);
  }

  /** Distinct elements of the domain occupy distinct positions: Coordinates inverts Offset. */
  lemma {:induction false} CoordinatesOfOffset(ext: seq<nat>, c: seq<nat>)
    requires Within(ext, c)
    ensures Offset(ext, c) < Product(ext)
    ensures Coordinates(ext, Offset(ext, c)) == c
  {
    OffsetBound(ext, c);
    if |ext| > 0 {
      var n := |ext|;
      var e := ext[n - 1];
      var front := c[..n - 1];
      WithinFront(ext, c);
      var o := Offset(ext[..n - 1], front);
      var p := Offset(ext, c);
      assert p / e == o && p % e == c[n - 1] by {
        assert p == o * e + c[n - 1];
        RowDivMod(o, e, c[n - 1]);
      }
      assert Coordinates(ext[..n - 1], o) == front by {
        OffsetBound(ext[..n - 1], front);
        CoordinatesOfOffset(ext[..n - 1], front);
      }
      assert Coordinates(ext, p) == Coordinates(ext[..n - 1], p / e) + [p % e];
      assert c == front + [c[n - 1]];
    }
  }

  lemma RowDivMod(o: nat, e: nat, x: nat)
    requires x < e
    ensures (o * e + x) / e == o && (o * e + x) % e == x
  {
    DivModUnique(o * e + x, o, e, x);
  }

  /** Laying out head then tail dimensions: the head's position times the tail's size plus the tail's position. */
  lemma {:induction false} OffsetAppend(e1: seq<nat>, c1: seq<nat>, e2: seq<nat>, c2: seq<nat>)
    requires |c1| == |e1| && |c2| == |e2|
    ensures Offset(e1 + e2, c1 + c2) == Offset(e1, c1) * Product(e2) + Offset(e2, c2)
  {
    if |e2| == 0 {
      assert e1 + e2 == e1 && c1 + c2 == c1;
    } else {
      var m := |e2|;
      assert (e1 + e2)[..|e1| + m - 1] == e1 + e2[..m - 1];
      assert (c1 + c2)[..|c1| + m - 1] == c1 + c2[..m - 1];
      OffsetAppend(e1, c1, e2[..m - 1], c2[..m - 1]);
      ProductLast(e2);
      AppendStep(Offset(e1, c1), Product(e2[..m - 1]), Offset(e2[..m - 1], c2[..m - 1]), e2[m - 1], c2[m - 1]);
    }
  }

  lemma AppendStep(o1: nat, p: nat, o2: nat, e: nat, x: nat)
    ensures (o1 * p + o2) * e + x == o1 * (p * e) + (o2 * e + x)
  {
    MulAssoc(o1, p, e);
  }

  /** The cell of the memory at an element of the domain. */
  function Cell(ext: seq<nat>, mem: seq<int>, c: seq<nat>): int
    requires |mem| == Product(ext) && Within(ext, c)
  {
    OffsetBound(ext, c);
    mem[Offset(ext, c)]
  }

  /** The row of the last dimension whose other coordinates are head. */
  function Row(ext: seq<nat>, mem: seq<int>, head: seq<nat>): (row: seq<int>)
    requires |ext| > 0 && |mem| == Product(ext) && Within(ext[..|ext| - 1], head)
    ensures |row| == ext[|ext| - 1]
  {
    var e := ext[|ext| - 1];
    var o := Offset(ext[..|ext| - 1], head);
    RowBounds(ext, head);
    mem[o * e..o * e + e]
  }

  /** The row at head lies inside the memory. */
  lemma RowBounds(ext: seq<nat>, head: seq<nat>)
    requires |ext| > 0 && Within(ext[..|ext| - 1], head)
    ensures var e := ext[|ext| - 1]; Offset(ext[..|ext| - 1], head) * e + e <= Product(ext)
  {
    OffsetBound(ext[..|ext| - 1], head);
    ProductLast(ext);
    RowEnd(Offset(ext[..|ext| - 1], head), Product(ext[..|ext| - 1]), ext[|ext| - 1]);
  }

  /** Cell x of the row at head is the cell of head + [x]. */
  lemma RowCell(ext: seq<nat>, mem: seq<int>, head: seq<nat>, x: nat)
    requires |ext| > 0 && |mem| == Product(ext) && Within(ext[..|ext| - 1], head) && x < ext[|ext| - 1]
    ensures Within(ext, head + [x])
    ensures Row(ext, mem, head)[x] == Cell(ext, mem, head + [x])
  {
    OffsetSnoc(ext, head, x);
    RowBounds(ext, head);
    RowAt(mem, Offset(ext[..|ext| - 1], head), ext[|ext| - 1], x);
  }

  /** Element x of the row of length e at row offset o. */
  lemma RowAt(s: seq<int>, o: nat, e: nat, x: nat)
    requires o * e + e <= |s| && x < e
    ensures o * e + x < |s| && s[o * e..o * e + e][x] == s[o * e + x]
  {
  }

  // ---------------------------------------------------------------------
  // Reads: `get` through `detail::Access`
  // ---------------------------------------------------------------------

  /**
   * `LambdaMemElem` for one dimension: a non-index coordinate unchanged; an
   * access id converted to its single memory id. None where the source's
   * assertions fire (the size_t maximum; no id or several ids).
   */
  function MemId(d: Dim, a: nat): (r: Option<nat>)
    ensures d.Plain? ==> r == Some(a)
    ensures d.Indexed? && Decode(d.index, a).Stored? ==>
      (r.Some? <==> Decode(d.index, a).memId != SIZE_MAX) && (r.Some? ==> r.value == Decode(d.index, a).memId)
    ensures d.Indexed? && Decode(d.index, a).Combination? ==>
      (r.Some? <==> |Decode(d.index, a).terms| == 1) && (r.Some? ==> r.value == Decode(d.index, a).terms[0].memId)
  {
    match d
    case Plain(_, _) => Some(a)
    case Indexed(ix) =>
      match Decode(ix, a)
      case Stored(m) => if m != SIZE_MAX then Some(m) else None
      case Combination(ts) => if |ts| == 1 then Some(ts[0].memId) else None
  }

  /** `LambdaMemElem` applied to every dimension of an access element. */
  function MemElement(dims: seq<Dim>, elem: seq<nat>): (r: Option<seq<nat>>)
    requires |elem| == |dims|
    ensures r.Some? <==> forall k :: 0 <= k < |dims| ==> MemId(dims[k], elem[k]).Some?
    ensures r.Some? ==> |r.value| == |dims|
    ensures r.Some? ==> forall k :: 0 <= k < |dims| ==> r.value[k] == MemId(dims[k], elem[k]).value
  {
    if forall k :: 0 <= k < |dims| ==> MemId(dims[k], elem[k]).Some? then
      Some(seq(|dims|, k requires 0 <= k < |dims| => MemId(dims[k], elem[k]).value))
    else
      None
  }

  /**
   * What `get` needs to read inside the memory: when the last dimension is
   * an index, the other coordinates are used as memory coordinates as they
   * are and the last one must decode into the row; when it is not, every
   * coordinate is converted as a write would.
   */
  predicate Readable(dims: seq<Dim>, mem: seq<int>, elem: seq<nat>)
  {
    |mem| == Product(MemExtents(dims)) && |elem| == |dims| &&
    (|dims| > 0 ==>
      var n := |dims|;
      if dims[n - 1].Indexed? then
        Within(MemExtents(dims)[..n - 1], elem[..n - 1]) &&
        DecodeFits(Decode(dims[n - 1].index, elem[n - 1]), MemSize(dims[n - 1].index))
      else
        MemElement(dims, elem).Some? && Within(MemExtents(dims), MemElement(dims, elem).value))
  }

  /** The value a decoded access id reads from a row: the cell, or 1 for the maximum id; the sum of the terms, or 1 for none. */
  function ReadDecoded(d: Decoded, row: seq<int>): int
    requires DecodeFits(d, |row|)
  {
    match d
    case Stored(m) => ReadMemId(m, row)
    case Combination(ts) => Evaluate(ts, row)
  }

  /** The innermost `Access` step, before any `process_access`. */
  function Innermost(dims: seq<Dim>, mem: seq<int>, elem: seq<nat>): int
    requires |dims| > 0 && Readable(dims, mem, elem)
  {
    var n := |dims|;
    if dims[n - 1].Indexed? then
      ReadDecoded(Decode(dims[n - 1].index, elem[n - 1]), Row(MemExtents(dims), mem, elem[..n - 1]))
    else
      Cell(MemExtents(dims), mem, MemElement(dims, elem).value)
  }

  /** The `process_access` of the dimensions from k on around a value, the outermost first. */
  function Processed(dims: seq<Dim>, elem: seq<nat>, k: nat, v: int): int
    requires |elem| == |dims| && k <= |dims|
    decreases |dims| - k
  {
    if k == |dims| then v
    else
      var inner := Processed(dims, elem, k + 1, v);
      if dims[k].Indexed? then Process(dims[k].index, elem[k], inner) else inner
  }

  /** `get(elem)`: the single cell of a tensor without dimensions, else the processed innermost read. */
  function Get(dims: seq<Dim>, mem: seq<int>, elem: seq<nat>): int
    requires Readable(dims, mem, elem)
  {
    if |dims| == 0 then mem[0] else Processed(dims, elem, 0, Innermost(dims, mem, elem))
  }

  /** Every dimension is a natural index whose ids fit below the size_t maximum. */
  predicate NaturalDims(dims: seq<Dim>)
  {
    forall k :: 0 <= k < |dims| ==>
      dims[k].Indexed? && dims[k].index.Natural? && NaturalSize(dims[k].index.natural) <= SIZE_MAX
  }

  /** Over natural indices, a write's memory element is the access element itself. */
  lemma MemElementOfNaturals(dims: seq<Dim>, elem: seq<nat>)
    requires NaturalDims(dims) && Within(MemExtents(dims), elem)
    ensures MemElement(dims, elem) == Some(elem)
  {
    forall k | 0 <= k < |dims|
      ensures MemId(dims[k], elem[k]) == Some(elem[k])
    {
      assert Decode(dims[k].index, elem[k]) == Stored(elem[k]);
    }
    MemElementIs(dims, elem, elem);
  }

  /** When every coordinate converts to the target's, the whole element does. */
  lemma MemElementIs(dims: seq<Dim>, elem: seq<nat>, target: seq<nat>)
    requires |elem| == |dims| == |target|
    requires forall k :: 0 <= k < |dims| ==> MemId(dims[k], elem[k]) == Some(target[k])
    ensures MemElement(dims, elem) == Some(target)
  {
    var r := MemElement(dims, elem);
    assert r.Some?;
    assert r.value == target;
  }

  /** Processing through natural indices leaves the value as it is. */
  lemma {:induction false} ProcessedOfNaturals(dims: seq<Dim>, elem: seq<nat>, k: nat, v: int)
    requires NaturalDims(dims) && |elem| == |dims| && k <= |dims|
    ensures Processed(dims, elem, k, v) == v
    decreases |dims| - k
  {
    if k < |dims| {
      ProcessedOfNaturals(dims, elem, k + 1, v);
    }
  }

  /** A tensor over natural indices reads the cell of its access element. */
  lemma GetOfNaturals(dims: seq<Dim>, mem: seq<int>, elem: seq<nat>)
    requires NaturalDims(dims) && |mem| == Product(MemExtents(dims)) && Within(MemExtents(dims), elem)
    ensures Readable(dims, mem, elem)
    ensures Get(dims, mem, elem) == Cell(MemExtents(dims), mem, elem)
  {
    var ext := MemExtents(dims);
    if |dims| == 0 {
      assert elem == [];
      assert Offset(ext, elem) == 0;
    } else {
      var n := |dims|;
      assert Within(ext[..n - 1], elem[..n - 1]);
      assert elem[n - 1] < SIZE_MAX;
      ProcessedOfNaturals(dims, elem, 0, Innermost(dims, mem, elem));
      RowCell(ext, mem, elem[..n - 1], elem[n - 1]);
      assert elem[..n - 1] + [elem[n - 1]] == elem;
    }
  }

  /** After a write at an element of a natural tensor, that element reads the written value and every other element reads as before. */
  lemma GetAfterWrite(dims: seq<Dim>, mem: seq<int>, elem: seq<nat>, other: seq<nat>, value: int)
    requires NaturalDims(dims) && |mem| == Product(MemExtents(dims))
    requires Within(MemExtents(dims), elem) && Within(MemExtents(dims), other)
    ensures Offset(MemExtents(dims), elem) < |mem|
    ensures var written := mem[Offset(MemExtents(dims), elem) := value];
      Readable(dims, written, other) && Readable(dims, mem, other) &&
      Get(dims, written, other) == if other == elem then value else Get(dims, mem, other)
  {
    var ext := MemExtents(dims);
    OffsetBound(ext, elem);
    var written := mem[Offset(ext, elem) := value];
    GetOfNaturals(dims, written, other);
    GetOfNaturals(dims, mem, other);
    if other != elem {
      CoordinatesOfOffset(ext, elem);
      CoordinatesOfOffset(ext, other);
    }
  }

  /**
   * When every dimension before the last is a natural index, a read is
   * the last index's own read on the row its natural coordinates select:
   * the case the accessor handles correctly.
   */
  lemma GetOfLastIndex(dims: seq<Dim>, mem: seq<int>, elem: seq<nat>)
    requires |dims| > 0 && Readable(dims, mem, elem) && dims[|dims| - 1].Indexed?
    requires NaturalDims(dims[..|dims| - 1])
    ensures var n := |dims|; var ix := dims[n - 1].index;
      Get(dims, mem, elem) ==
        Process(ix, elem[n - 1], ReadDecoded(Decode(ix, elem[n - 1]), Row(MemExtents(dims), mem, elem[..n - 1])))
  {
    HeadsPassThrough(dims, elem, 0, Innermost(dims, mem, elem));
  }

  /** Natural indices before the last dimension pass the last index's processed value through. */
  lemma {:induction false} HeadsPassThrough(dims: seq<Dim>, elem: seq<nat>, k: nat, v: int)
    requires |dims| > 0 && |elem| == |dims| && k <= |dims| - 1 && NaturalDims(dims[..|dims| - 1])
    requires dims[|dims| - 1].Indexed?
    ensures Processed(dims, elem, k, v) == Process(dims[|dims| - 1].index, elem[|dims| - 1], v)
    decreases |dims| - k
  {
    if k < |dims| - 1 {
      HeadsPassThrough(dims, elem, k + 1, v);
      assert dims[..|dims| - 1][k] == dims[k];
    }
  }

  // ---------------------------------------------------------------------
  // Access elements and canonical natural elements
  // ---------------------------------------------------------------------

  /** `NbDimsBeforeIndex<Index, Indices>::run(acc)`: acc plus the ranks of the indices before position k. */
  function NbDimsBeforeIndex(ranks: seq<nat>, k: nat, acc: nat): nat
    requires k < |ranks|
    decreases k
  {
    if k == 0 then acc else NbDimsBeforeIndex(ranks[1..], k - 1, acc + ranks[0])
  }

  function RankSum(ranks: seq<nat>): nat
  {
    if |ranks| == 0 then 0 else RankSum(ranks[..|ranks| - 1]) + ranks[|ranks| - 1]
  }

  lemma {:induction false} RankSumCons(ranks: seq<nat>)
    requires |ranks| > 0
    ensures RankSum(ranks) == ranks[0] + RankSum(ranks[1..])
  {
    var n := |ranks|;
    if n > 1 {
      assert ranks[..n - 1][1..] == ranks[1..][..n - 2];
      RankSumCons(ranks[..n - 1]);
      assert ranks[1..][n - 2] == ranks[n - 1];
    } else {
      assert ranks[1..] == [];
      assert ranks[..0] == [];
    }
  }

  /** The ids of index k start after the ids of all the indices before it. */
  lemma {:induction false} NbDimsBeforeIndexIsSum(ranks: seq<nat>, k: nat, acc: nat)
    requires k < |ranks|
    ensures NbDimsBeforeIndex(ranks, k, acc) == acc + RankSum(ranks[..k])
    decreases k
  {
    if k == 0 {
      assert ranks[..0] == [];
    } else {
      NbDimsBeforeIndexIsSum(ranks[1..], k - 1, acc + ranks[0]);
      assert ranks[1..][..k - 1] == ranks[..k][1..];
      RankSumCons(ranks[..k]);
    }
  }

  /** Consecutive indices take consecutive slices of the ids. */
  lemma NextIndexStart(ranks: seq<nat>, k: nat)
    requires k + 1 < |ranks|
    ensures NbDimsBeforeIndex(ranks, k + 1, 0) == NbDimsBeforeIndex(ranks, k, 0) + ranks[k]
  {
    NbDimsBeforeIndexIsSum(ranks, k, 0);
    NbDimsBeforeIndexIsSum(ranks, k + 1, 0);
    assert ranks[..k + 1][..k] == ranks[..k];
  }

  lemma {:induction false} PrefixSum(ranks: seq<nat>, j: nat)
    requires j <= |ranks|
    ensures RankSum(ranks[..j]) <= RankSum(ranks)
    decreases |ranks| - j
  {
    if j < |ranks| {
      PrefixSum(ranks, j + 1);
      assert ranks[..j + 1][..j] == ranks[..j];
    } else {
      assert ranks[..j] == ranks;
    }
  }

  /** The slice of index k ends inside the ids. */
  lemma SliceInside(ranks: seq<nat>, k: nat)
    requires k < |ranks|
    ensures NbDimsBeforeIndex(ranks, k, 0) + ranks[k] <= RankSum(ranks)
  {
    NbDimsBeforeIndexIsSum(ranks, k, 0);
    PrefixSum(ranks, k + 1);
    assert ranks[..k + 1][..k] == ranks[..k];
  }

  function Ranks(indices: seq<Index>): (r: seq<nat>)
    ensures |r| == |indices|
    ensures forall k :: 0 <= k < |indices| ==> r[k] == Rank(indices[k])
  {
    seq(|indices|, k requires 0 <= k < |indices| => Rank(indices[k]))
  }

  lemma RanksPrefix(indices: seq<Index>, j: nat)
    requires j <= |indices|
    ensures Ranks(indices[..j]) == Ranks(indices)[..j]
  {
  }

  /** The ids index k reads from the ids of all the indices: rank() of them, from NbDimsBeforeIndex on. */
  function IdsOf(indices: seq<Index>, ids: seq<nat>, k: nat): (s: seq<nat>)
    requires |ids| == RankSum(Ranks(indices)) && k < |indices|
    ensures |s| == Rank(indices[k])
  {
    var start := NbDimsBeforeIndex(Ranks(indices), k, 0);
    SliceInside(Ranks(indices), k);
    ids[start..start + Rank(indices[k])]
  }

  /** `access_element<CDim...>()`: the access id of every index over its slice of the ids. */
  function AccessElementOfIds(indices: seq<Index>, ids: seq<nat>): (elem: seq<nat>)
    requires |ids| == RankSum(Ranks(indices))
    ensures |elem| == |indices|
    ensures forall k :: 0 <= k < |indices| ==> elem[k] == AccessId(indices[k], IdsOf(indices, ids, k))
  {
    seq(|indices|, k requires 0 <= k < |indices| => AccessId(indices[k], IdsOf(indices, ids, k)))
  }

  /** A natural element: natural dimension names to ids. */
  type NaturalElement = map<nat, nat>

  /** The id of a dimension in a natural element (0 for a dimension it lacks). */
  function Uid(elem: NaturalElement, name: nat): nat
  {
    if name in elem then elem[name] else 0
  }

  function Uids(elem: NaturalElement, names: seq<nat>): (ids: seq<nat>)
    ensures |ids| == |names|
    ensures forall k :: 0 <= k < |names| ==> ids[k] == Uid(elem, names[k])
  {
    seq(|names|, k requires 0 <= k < |names| => Uid(elem, names[k]))
  }

  /** `access_element(natural_elem)`: each index's access id of its own natural ids; a non-index dimension keeps its id. */
  function AccessElement(dims: seq<Dim>, elem: NaturalElement): (a: seq<nat>)
    ensures |a| == |dims|
    ensures forall k :: 0 <= k < |dims| && dims[k].Plain? ==> a[k] == Uid(elem, dims[k].name)
    ensures forall k :: 0 <= k < |dims| && dims[k].Indexed? ==>
      a[k] == AccessId(dims[k].index, Uids(elem, Naturals(dims[k].index)))
  {
    seq(|dims|, k requires 0 <= k < |dims| =>
      if dims[k].Plain? then Uid(elem, dims[k].name) else AccessId(dims[k].index, Uids(elem, Naturals(dims[k].index))))
  }

  /** The names of the natural dimensions of the indices, in index order: the natural domain. */
  function NaturalNames(indices: seq<Index>): seq<nat>
  {
    if |indices| == 0 then [] else NaturalNames(indices[..|indices| - 1]) + Naturals(indices[|indices| - 1])
  }

  /** The id lists laid end to end. */
  function Flatten(ls: seq<seq<nat>>): (f: seq<nat>)
  {
    if |ls| == 0 then [] else Flatten(ls[..|ls| - 1]) + ls[|ls| - 1]
  }

  function Lengths(ls: seq<seq<nat>>): (r: seq<nat>)
    ensures |r| == |ls| && forall k :: 0 <= k < |ls| ==> r[k] == |ls[k]|
  {
    seq(|ls|, k requires 0 <= k < |ls| => |ls[k]|)
  }

  lemma {:induction false} FlattenLength(ls: seq<seq<nat>>)
    ensures |Flatten(ls)| == RankSum(Lengths(ls))
  {
    if |ls| > 0 {
      FlattenLength(ls[..|ls| - 1]);
      assert Lengths(ls[..|ls| - 1]) == Lengths(ls)[..|ls| - 1];
    }
  }

  /** List k sits in the flattened ids at the summed lengths of the lists before it. */
  lemma {:induction false} FlattenSlice(ls: seq<seq<nat>>, k: nat)
    requires k < |ls|
    ensures NbDimsBeforeIndex(Lengths(ls), k, 0) + |ls[k]| <= |Flatten(ls)|
    ensures var s := NbDimsBeforeIndex(Lengths(ls), k, 0); Flatten(ls)[s..s + |ls[k]|] == ls[k]
  {
    var n := |ls|;
    var front := ls[..n - 1];
    var c := Flatten(front);
    var s := NbDimsBeforeIndex(Lengths(ls), k, 0);
    assert Flatten(ls) == c + ls[n - 1];
    assert Lengths(front) == Lengths(ls)[..n - 1];
    FlattenLength(front);
    NbDimsBeforeIndexIsSum(Lengths(ls), k, 0);
    if k == n - 1 {
      SliceRight(c, ls[n - 1]);
    } else {
      assert s == NbDimsBeforeIndex(Lengths(front), k, 0) by {
        NbDimsBeforeIndexIsSum(Lengths(front), k, 0);
        assert Lengths(ls)[..n - 1][..k] == Lengths(ls)[..k];
      }
      FlattenSlice(front, k);
      SliceLeft(c, ls[n - 1], s, s + |ls[k]|);
    }
  }

  /** A prefix of the lists flattens to no more ids than all of them. */
  lemma FlattenPrefix(ls: seq<seq<nat>>, j: nat)
    requires j <= |ls|
    ensures |Flatten(ls[..j])| <= |Flatten(ls)|
  {
    FlattenLength(ls[..j]);
    FlattenLength(ls);
    assert Lengths(ls[..j]) == Lengths(ls)[..j];
    PrefixSum(Lengths(ls), j);
  }

  /** One more list appends its ids, and a prefix of the lists flattens to no more ids than all of them. */
  lemma FlattenStep(ls: seq<seq<nat>>, k: nat)
    requires k < |ls|
    ensures Flatten(ls[..k + 1]) == Flatten(ls[..k]) + ls[k]
    ensures |Flatten(ls[..k + 1])| <= |Flatten(ls)|
  {
    assert ls[..k + 1][..k] == ls[..k];
    FlattenPrefix(ls, k + 1);
  }

  lemma SliceLeft<T>(c: seq<T>, l: seq<T>, s: nat, e: nat)
    requires s <= e <= |c|
    ensures (c + l)[s..e] == c[s..e]
  {
  }

  lemma SliceRight<T>(c: seq<T>, l: seq<T>)
    ensures (c + l)[|c|..|c| + |l|] == l
  {
  }

  /** The canonical ids of every coordinate of a memory element. */
  function CanonicalLists(indices: seq<Index>, memElem: seq<nat>): (ls: seq<seq<nat>>)
    requires |memElem| == |indices| && forall k :: 0 <= k < |indices| ==> memElem[k] < MemSize(indices[k])
    ensures |ls| == |indices| && forall k :: 0 <= k < |indices| ==> ls[k] == CanonicalIds(indices[k], memElem[k])
  {
    seq(|indices|, k requires 0 <= k < |indices| => CanonicalIds(indices[k], memElem[k]))
  }

  /** The concatenated canonical ids of a memory element, index by index. */
  function CanonicalConcat(indices: seq<Index>, memElem: seq<nat>): seq<nat>
    requires |memElem| == |indices| && forall k :: 0 <= k < |indices| ==> memElem[k] < MemSize(indices[k])
  {
    Flatten(CanonicalLists(indices, memElem))
  }

  /** Under `Shaped` every index contributes rank() ids. */
  lemma ShapedLengths(indices: seq<Index>, memElem: seq<nat>)
    requires |memElem| == |indices| && forall k :: 0 <= k < |indices| ==> memElem[k] < MemSize(indices[k])
    requires forall k :: 0 <= k < |indices| ==> Shaped(indices[k])
    ensures Lengths(CanonicalLists(indices, memElem)) == Ranks(indices)
    ensures |CanonicalConcat(indices, memElem)| == RankSum(Ranks(indices)) <= |NaturalNames(indices)|
  {
    FlattenLength(CanonicalLists(indices, memElem));
    RankSumBound(indices);
  }

  /** The ranks never exceed the natural dimensions: the natural domain holds every canonical id. */
  lemma {:induction false} RankSumBound(indices: seq<Index>)
    ensures RankSum(Ranks(indices)) <= |NaturalNames(indices)|
  {
    var n := |indices|;
    if n > 0 {
      RankSumBound(indices[..n - 1]);
      RanksPrefix(indices, n - 1);
    }
  }

  /** Index k finds its own canonical ids in its slice of the concatenation. */
  lemma IdsOfConcat(indices: seq<Index>, memElem: seq<nat>, k: nat)
    requires |memElem| == |indices| && forall j :: 0 <= j < |indices| ==> memElem[j] < MemSize(indices[j])
    requires forall j :: 0 <= j < |indices| ==> Shaped(indices[j])
    requires k < |indices|
    ensures |CanonicalConcat(indices, memElem)| == RankSum(Ranks(indices))
    ensures IdsOf(indices, CanonicalConcat(indices, memElem), k) == CanonicalIds(indices[k], memElem[k])
  {
    var ls := CanonicalLists(indices, memElem);
    ShapedLengths(indices, memElem);
    IdsOfFlatten(indices, ls, k);
  }

  /** Over lists of one id per rank, index k's slice of the flattened ids is its own list. */
  lemma IdsOfFlatten(indices: seq<Index>, ls: seq<seq<nat>>, k: nat)
    requires Lengths(ls) == Ranks(indices) && k < |ls|
    ensures |Flatten(ls)| == RankSum(Ranks(indices))
    ensures IdsOf(indices, Flatten(ls), k) == ls[k]
  {
    FlattenLength(ls);
    assert Rank(indices[k]) == Ranks(indices)[k] == |ls[k]|;
    FlattenSlice(ls, k);
    IdsOfSlice(indices, Flatten(ls), k);
  }

  /** Index k's ids are the slice after the ranks of the indices before it. */
  lemma IdsOfSlice(indices: seq<Index>, ids: seq<nat>, k: nat)
    requires |ids| == RankSum(Ranks(indices)) && k < |indices|
    ensures var s := NbDimsBeforeIndex(Ranks(indices), k, 0);
      s + Rank(indices[k]) <= |ids| && IdsOf(indices, ids, k) == ids[s..s + Rank(indices[k])]
  {
    SliceInside(Ranks(indices), k);
  }
  /** `LambdaMemElem` finds the memory id back from the access id of its canonical ids. */
  predicate RoundTrips(ix: Index)
  {
    forall m :: 0 <= m < MemSize(ix) ==> MemId(Indexed(ix), AccessId(ix, CanonicalIds(ix, m))) == Some(m)
  }

  /** A natural index with fewer than 2^64 - 1 dimensions round-trips. */
  lemma NaturalRoundTrips(ix: Index)
    requires ix.Natural? && NaturalSize(ix.natural) <= SIZE_MAX
    ensures RoundTrips(ix) && Shaped(ix)
  {
  }

  function IndexDims(indices: seq<Index>): (dims: seq<Dim>)
    ensures |dims| == |indices| && forall k :: 0 <= k < |indices| ==> dims[k] == Indexed(indices[k])
  {
    seq(|indices|, k requires 0 <= k < |indices| => Indexed(indices[k]))
  }

  /**
   * The access element of the canonical natural ids of a memory element
   * converts back to that memory element: what lets a loop over the memory
   * domain write every stored cell through the access domain.
   */
  lemma AccessElementOfCanonical(indices: seq<Index>, memElem: seq<nat>)
    requires |memElem| == |indices| && forall k :: 0 <= k < |indices| ==> memElem[k] < MemSize(indices[k])
    requires forall k :: 0 <= k < |indices| ==> Shaped(indices[k]) && RoundTrips(indices[k])
    ensures |CanonicalConcat(indices, memElem)| == RankSum(Ranks(indices))
    ensures MemElement(IndexDims(indices), AccessElementOfIds(indices, CanonicalConcat(indices, memElem))) == Some(memElem)
  {
    ShapedLengths(indices, memElem);
    var a := AccessElementOfIds(indices, CanonicalConcat(indices, memElem));
    forall k | 0 <= k < |indices|
      ensures MemId(IndexDims(indices)[k], a[k]) == Some(memElem[k])
    {
      IdsOfConcat(indices, memElem, k);
    }
    MemElementIs(IndexDims(indices), a, memElem);
  }

  function Zeros(n: nat): (z: seq<nat>)
    ensures |z| == n && forall k :: 0 <= k < n ==> z[k] == 0
  {
    seq(n, _ => 0)
  }

  /** The natural element of a memory element: the canonical ids index by index, then zeros up to the natural domain's rank. */
  function CanonicalElement(indices: seq<Index>, memElem: seq<nat>): (ids: seq<nat>)
    requires |memElem| == |indices| && forall k :: 0 <= k < |indices| ==> memElem[k] < MemSize(indices[k])
    requires forall k :: 0 <= k < |indices| ==> Shaped(indices[k])
    ensures |ids| == |NaturalNames(indices)| && RankSum(Ranks(indices)) <= |ids|
    ensures ids[..RankSum(Ranks(indices))] == CanonicalConcat(indices, memElem)
    ensures forall p :: RankSum(Ranks(indices)) <= p < |ids| ==> ids[p] == 0
  {
    ShapedLengths(indices, memElem);
    var c := CanonicalConcat(indices, memElem);
    c + Zeros(|NaturalNames(indices)| - |c|)
  }

  /**
   * `canonical_natural_element(mem_elem)`: a zeroed array as long as the
   * natural domain's rank, into which each index copies its canonical ids
   * at the current position, which then moves past them.
   */
  method CanonicalNaturalElement(indices: seq<Index>, memElem: seq<nat>) returns (ids: seq<nat>)
    requires |memElem| == |indices| && forall k :: 0 <= k < |indices| ==> memElem[k] < MemSize(indices[k])
    requires forall k :: 0 <= k < |indices| ==> Shaped(indices[k])
    ensures ids == CanonicalElement(indices, memElem)
  {
    ghost var lists := CanonicalLists(indices, memElem);
    var size := |NaturalNames(indices)|;
    ShapedLengths(indices, memElem);
    var out := new nat[size](_ => 0);
    var it := 0;
    for k := 0 to |indices|
      invariant it == |Flatten(lists[..k])| <= size
      invariant out[..] == Flatten(lists[..k]) + Zeros(size - it)
    {
      var i := CanonicalIds(indices[k], memElem[k]);
      CopyNext(out, lists, k, it, i);
      it := it + |i|;
    }
    assert lists[..|indices|] == lists;
    ids := out[..];
  }

  /** One step of the loop above: the k-th list is copied where the first k end. */
  method CopyNext(out: array<nat>, ghost lists: seq<seq<nat>>, k: nat, it: nat, i: seq<nat>)
    requires k < |lists| && i == lists[k] && |Flatten(lists)| <= out.Length
    requires it == |Flatten(lists[..k])| <= out.Length && out[..] == Flatten(lists[..k]) + Zeros(out.Length - it)
    modifies out
    ensures it + |i| == |Flatten(lists[..k + 1])| <= out.Length
    ensures out[..] == Flatten(lists[..k + 1]) + Zeros(out.Length - (it + |i|))
  {
    FlattenStep(lists, k);
    ghost var before := out[..];
    CopyAt(out, it, i);
    Spliced(before, out[..], Flatten(lists[..k]), i, out.Length, it);
  }

  /** Copying i over the zeros after a leaves a + i followed by zeros. */
  lemma Spliced(before: seq<nat>, after: seq<nat>, a: seq<nat>, i: seq<nat>, size: nat, at: nat)
    requires at == |a| && at + |i| <= size && before == a + Zeros(size - at) && |after| == size
    requires after[..at] == before[..at] && after[at..at + |i|] == i && after[at + |i|..] == before[at + |i|..]
    ensures after == (a + i) + Zeros(size - at - |i|)
  {
    var z := Zeros(size - at - |i|);
    forall p | 0 <= p < size
      ensures after[p] == ((a + i) + z)[p]
    {
      if p < at {
        assert after[p] == after[..at][p] == before[p] == a[p];
      } else if p < at + |i| {
        assert after[p] == after[at..at + |i|][p - at] == i[p - at];
      } else {
        assert after[p] == after[at + |i|..][p - at - |i|] == before[p] == 0;
        assert z[p - at - |i|] == 0;
      }
    }
  }

  /** `std::copy` of i into out from position it on. */
  method CopyAt(out: array<nat>, it: nat, i: seq<nat>)
    requires it + |i| <= out.Length
    modifies out
    ensures out[..it] == old(out[..it]) && out[it..it + |i|] == i && out[it + |i|..] == old(out[it + |i|..])
  {
    for j := 0 to |i|
      invariant out[..it] == old(out[..it]) && out[it..it + j] == i[..j] && out[it + j..] == old(out[it + j..])
    {
      out[it + j] := i[j];
    }
  }

  // ---------------------------------------------------------------------
  // The antisymmetric index as a tensor index
  // ---------------------------------------------------------------------

  /**
   * `TensorAntisymmetricIndex<TensorNaturalIndex...>` over sub-indices
   * named names, each of n dimensions: its static members as an index.
   * Only rank() ids reach `access_id`, and only memory ids below
   * mem_size() reach `mem_id_to_canonical_natural_ids`.
   */
  function AntisymmetricKind(names: seq<nat>, n: nat): (ix: Index)
    ensures ix.Structured? && Naturals(ix) == names && Rank(ix) == |names|
    ensures MemSize(ix) == AntisymmetricIndex.MemSize(n, |names|)
    ensures AccessSize(ix) == AntisymmetricIndex.AccessSize(n, |names|)
  {
    var r := |names|;
    Structured(
      names, AntisymmetricIndex.MemSize(n, r), AntisymmetricIndex.AccessSize(n, r),
      (ids: seq<nat>) => if |ids| == r && AntisymmetricIndex.IdsInRange(ids, n) then AntisymmetricIndex.AccessId(n, ids) else 0,
      (a: nat) => if r <= 1 || AntisymmetricIndex.MemSize(n, r) >= 1
           then Combination(AntisymmetricIndex.AccessIdToMemLinComb(n, r, a)) else Combination([]),
      (a: nat, v: int) => AntisymmetricIndex.ProcessAccess(n, r, a, v),
      (m: nat) => if m < AntisymmetricIndex.MemSize(n, r) then AntisymmetricIndex.Unrank(n, 0, r, m) else Zeros(r))
  }

  /**
   * A tensor over one antisymmetric index reads, at the access id of some
   * natural ids, what the index's own three steps give: access id, linear
   * combination, `process_access`.
   */
  lemma AntisymmetricGet(names: seq<nat>, n: nat, ids: seq<nat>, mem: seq<int>)
    requires |ids| == |names| && AntisymmetricIndex.IdsInRange(ids, n)
    requires |mem| == AntisymmetricIndex.MemSize(n, |ids|) && AntisymmetricIndex.SizeFits(n, |ids|)
    requires |ids| <= 1 || AntisymmetricIndex.MemSize(n, |ids|) >= 1
    ensures var dims := [Indexed(AntisymmetricKind(names, n))];
      Readable(dims, mem, [AntisymmetricIndex.AccessId(n, ids)]) &&
      Get(dims, mem, [AntisymmetricIndex.AccessId(n, ids)]) == AntisymmetricIndex.Read(n, ids, mem)
  {
    var ix := AntisymmetricKind(names, n);
    var dims := [Indexed(ix)];
    var a := AntisymmetricIndex.AccessId(n, ids);
    var r := |ids|;
    var terms := AntisymmetricIndex.AccessIdToMemLinComb(n, r, a);
    assert Decode(ix, a) == Combination(terms);
    assert MemExtents(dims) == [AntisymmetricIndex.MemSize(n, r)];
    assert Product(MemExtents(dims)) == |mem| by { ProductOne(|mem|); }
    if r <= 1 {
      AntisymmetricIndex.SingleIdInRange(n, ids);
    }
    assert DecodeFits(Decode(ix, a), |mem|);
    assert MemExtents(dims)[..0] == [];
    assert Row(MemExtents(dims), mem, []) == mem;
    var v := Evaluate(terms, mem);
    assert Innermost(dims, mem, [a]) == v;
    assert Processed(dims, [a], 1, v) == v;
    assert Process(ix, a, v) == AntisymmetricIndex.ProcessAccess(n, r, a, v);
  }

  lemma ProductOne(x: nat)
    ensures Product([x]) == x
  {
    assert Product([x]) == x * Product([]);
  }

  /** A strictly increasing sequence has no inversion. */
  lemma {:induction false} NoInversions(s: seq<nat>)
    requires forall i, j :: 0 <= i < j < |s| ==> s[i] < s[j]
    ensures Inversions(s) == 0
  {
    if s != [] {
      NoInversions(s[1..]);
      CountLessNone(s[0], s[1..]);
    }
  }

  /**
   * The antisymmetric index round-trips when its memory ids fit in size_t:
   * the canonical ids of a memory id are increasing, so their access id is
   * the memory id shifted past the zero class, which decodes back to it.
   */
  lemma AntisymmetricRoundTrips(names: seq<nat>, n: nat)
    requires AntisymmetricIndex.SizeFits(n, |names|)
    ensures Shaped(AntisymmetricKind(names, n)) && RoundTrips(AntisymmetricKind(names, n))
  {
    var ix := AntisymmetricKind(names, n);
    var r := |names|;
    forall m | 0 <= m < MemSize(ix)
      ensures MemId(Indexed(ix), AccessId(ix, CanonicalIds(ix, m))) == Some(m)
    {
      CanonicalRoundTrip(names, n, m);
    }
  }

  lemma CanonicalRoundTrip(names: seq<nat>, n: nat, m: nat)
    requires AntisymmetricIndex.SizeFits(n, |names|) && m < AntisymmetricIndex.MemSize(n, |names|)
    ensures MemId(Indexed(AntisymmetricKind(names, n)), AccessId(AntisymmetricKind(names, n), CanonicalIds(AntisymmetricKind(names, n), m))) == Some(m)
  {
    var ix := AntisymmetricKind(names, n);
    var r := |names|;
    var ids := AntisymmetricIndex.Unrank(n, 0, r, m);
    assert CanonicalIds(ix, m) == ids;
    AntisymmetricIndex.UnrankMemLinCombId(n, r, m);
    var a := AntisymmetricIndex.AccessId(n, ids);
    assert AccessId(ix, ids) == a;
    if r >= 2 {
      CanonicalAccessShifted(n, r, m);
      assert Decode(ix, a) == Combination([Term(1, m)]);
    }
  }

  /** Above rank 1 the access id of the canonical ids of m is m shifted past the zero class. */
  lemma CanonicalAccessShifted(n: nat, r: nat, m: nat)
    requires AntisymmetricIndex.SizeFits(n, r) && m < AntisymmetricIndex.MemSize(n, r) && r >= 2
    ensures AntisymmetricIndex.IdsInRange(AntisymmetricIndex.Unrank(n, 0, r, m), n)
    ensures AntisymmetricIndex.AccessId(n, AntisymmetricIndex.Unrank(n, 0, r, m)) == 1 + m
  {
    var ids := AntisymmetricIndex.Unrank(n, 0, r, m);
    AntisymmetricIndex.UnrankMemLinCombId(n, r, m);
    assert !AllEqual(ids) by {
      assert ids[0] != ids[1];
    }
    AntisymmetricIndex.UnrankValid(n, 0, r, m);
    NoInversions(ids);
    AntisymmetricIndex.ModOfShift(1 + m, SIZE_MOD);
  }

  // ---------------------------------------------------------------------
  // The tensor: a view over memory laid out along the memory domain
  // ---------------------------------------------------------------------

  /** The sum, cell by cell, of two memories of the same size. */
  function Added(a: seq<int>, b: seq<int>): (r: seq<int>)
    requires |a| == |b|
    ensures |r| == |a| && forall k :: 0 <= k < |a| ==> r[k] == a[k] + b[k]
  {
    seq(|a|, k requires 0 <= k < |a| => a[k] + b[k])
  }

  /** Every cell multiplied by s. */
  function Scaled(a: seq<int>, s: int): (r: seq<int>)
    ensures |r| == |a| && forall k :: 0 <= k < |a| ==> r[k] == a[k] * s
  {
    seq(|a|, k requires 0 <= k < |a| => a[k] * s)
  }

  /** The fold `(tensor(elem) + ...)` at cell k. */
  function ColumnSum(cs: seq<seq<int>>, k: nat): int
    requires forall i :: 0 <= i < |cs| ==> k < |cs[i]|
  {
    if |cs| == 0 then 0 else ColumnSum(cs[..|cs| - 1], k) + cs[|cs| - 1][k]
  }

  function ColumnSums(cs: seq<seq<int>>, n: nat): (r: seq<int>)
    requires forall i :: 0 <= i < |cs| ==> |cs[i]| == n
    ensures |r| == n && forall k :: 0 <= k < n ==> r[k] == ColumnSum(cs, k)
  {
    seq(n, k requires 0 <= k < n => ColumnSum(cs, k))
  }

  /** Over natural indices a read of summed memories sums the reads. */
  lemma GetOfAdded(dims: seq<Dim>, a: seq<int>, b: seq<int>, elem: seq<nat>)
    requires NaturalDims(dims) && |a| == |b| == Product(MemExtents(dims)) && Within(MemExtents(dims), elem)
    ensures Readable(dims, a, elem) && Readable(dims, b, elem) && Readable(dims, Added(a, b), elem)
    ensures Get(dims, Added(a, b), elem) == Get(dims, a, elem) + Get(dims, b, elem)
  {
    GetOfNaturals(dims, a, elem);
    GetOfNaturals(dims, b, elem);
    GetOfNaturals(dims, Added(a, b), elem);
    OffsetBound(MemExtents(dims), elem);
  }

  /** Over natural indices a read of scaled memory scales the read. */
  lemma GetOfScaled(dims: seq<Dim>, a: seq<int>, s: int, elem: seq<nat>)
    requires NaturalDims(dims) && |a| == Product(MemExtents(dims)) && Within(MemExtents(dims), elem)
    ensures Readable(dims, a, elem) && Readable(dims, Scaled(a, s), elem)
    ensures Get(dims, Scaled(a, s), elem) == Get(dims, a, elem) * s
  {
    GetOfNaturals(dims, a, elem);
    GetOfNaturals(dims, Scaled(a, s), elem);
    OffsetBound(MemExtents(dims), elem);
  }

  /** The sum of the reads of the memories at an element. */
  function ReadSum(dims: seq<Dim>, cs: seq<seq<int>>, elem: seq<nat>): int
    requires forall i :: 0 <= i < |cs| ==> Readable(dims, cs[i], elem)
  {
    if |cs| == 0 then 0 else ReadSum(dims, cs[..|cs| - 1], elem) + Get(dims, cs[|cs| - 1], elem)
  }

  /** Over natural indices a read of the summed memories is the sum of the reads. */
  lemma {:induction false} GetOfColumnSums(dims: seq<Dim>, cs: seq<seq<int>>, elem: seq<nat>)
    requires NaturalDims(dims) && Within(MemExtents(dims), elem)
    requires forall i :: 0 <= i < |cs| ==> |cs[i]| == Product(MemExtents(dims))
    ensures forall i :: 0 <= i < |cs| ==> Readable(dims, cs[i], elem)
    ensures Readable(dims, ColumnSums(cs, Product(MemExtents(dims))), elem)
    ensures Get(dims, ColumnSums(cs, Product(MemExtents(dims))), elem) == ReadSum(dims, cs, elem)
  {
    var ext := MemExtents(dims);
    var n := Product(ext);
    forall i | 0 <= i < |cs|
      ensures Readable(dims, cs[i], elem) && Get(dims, cs[i], elem) == Cell(ext, cs[i], elem)
    {
      GetOfNaturals(dims, cs[i], elem);
    }
    GetOfNaturals(dims, ColumnSums(cs, n), elem);
    OffsetBound(ext, elem);
    ColumnSumIsReadSum(dims, cs, elem, Offset(ext, elem));
  }

  lemma {:induction false} ColumnSumIsReadSum(dims: seq<Dim>, cs: seq<seq<int>>, elem: seq<nat>, p: nat)
    requires Within(MemExtents(dims), elem) && p == Offset(MemExtents(dims), elem)
    requires forall i :: 0 <= i < |cs| ==> |cs[i]| == Product(MemExtents(dims))
    requires forall i :: 0 <= i < |cs| ==> Readable(dims, cs[i], elem) && Get(dims, cs[i], elem) == Cell(MemExtents(dims), cs[i], elem)
    ensures p < Product(MemExtents(dims)) && ColumnSum(cs, p) == ReadSum(dims, cs, elem)
  {
    OffsetBound(MemExtents(dims), elem);
    if |cs| > 0 {
      ColumnSumIsReadSum(dims, cs[..|cs| - 1], elem, p);
    }
  }

  /**
   * `Tensor<ElementType, DDim...>`: a chunk span over memory laid out
   * along the memory domain of its dimensions.
   */
  class Tensor {
    const dims: seq<Dim>
    const data: array<int>

    /** The memory covers the memory domain. */
    predicate Valid()
    {
      data.Length == Product(MemExtents(dims))
    }

    /** `Tensor(chunk_span)`: a view of existing memory. */
    constructor (dims: seq<Dim>, data: array<int>)
      requires data.Length == Product(MemExtents(dims))
      ensures this.dims == dims && this.data == data && Valid()
    {
      this.dims := dims;
      this.data := data;
    }

    /** `mem(elem)`: the cell at an element of the memory domain. */
    function Mem(elem: seq<nat>): int
      reads data
      requires Valid() && Within(MemExtents(dims), elem)
    {
      Cell(MemExtents(dims), data[..], elem)
    }

    /**
     * `operator()(elem) = value`: every coordinate converted by
     * `LambdaMemElem`, then the cell written. Nothing else changes.
     */
    method Assign(elem: seq<nat>, value: int)
      requires Valid() && |elem| == |dims|
      requires MemElement(dims, elem).Some? && Within(MemExtents(dims), MemElement(dims, elem).value)
      modifies data
      ensures Offset(MemExtents(dims), MemElement(dims, elem).value) < data.Length
      ensures data[..] == old(data[..])[Offset(MemExtents(dims), MemElement(dims, elem).value) := value]
    {
      var target := MemElement(dims, elem).value;
      OffsetBound(MemExtents(dims), target);
      data[Offset(MemExtents(dims), target)] := value;
    }

    /** `operator+=`: `mem(elem) += tensor.mem(elem)` over the whole domain; the tensor may be this one. */
    method AddAssign(other: Tensor)
      requires Valid() && other.data.Length == data.Length
      modifies data
      ensures data[..] == Added(old(data[..]), old(other.data[..]))
    {
      for k := 0 to data.Length
        invariant data[..k] == Added(old(data[..]), old(other.data[..]))[..k]
        invariant data[k..] == old(data[k..]) && other.data[k..] == old(other.data[k..])
      {
        assert other.data[k] == other.data[k..][0];
        data[k] := data[k] + other.data[k];
      }
    }

    /** `operator*=`: `mem(elem) *= scalar` over the whole domain. */
    method ScaleAssign(scalar: int)
      requires Valid()
      modifies data
      ensures data[..] == Scaled(old(data[..]), scalar)
    {
      ghost var scaled := Scaled(old(data[..]), scalar);
      for k := 0 to data.Length
        invariant forall j :: 0 <= j < k ==> data[j] == scaled[j]
        invariant forall j :: k <= j < data.Length ==> data[j] == old(data[j])
      {
        data[k] := data[k] * scalar;
      }
      assert data[..] == scaled;
    }
  }

  /** Written through `mem`, a cell reads back the written value and no other cell changes. */
  lemma MemAfterWrite(ext: seq<nat>, mem: seq<int>, elem: seq<nat>, other: seq<nat>, value: int)
    requires |mem| == Product(ext) && Within(ext, elem) && Within(ext, other)
    ensures Offset(ext, elem) < |mem|
    ensures Cell(ext, mem[Offset(ext, elem) := value], other) == if other == elem then value else Cell(ext, mem, other)
  {
    OffsetBound(ext, elem);
    if other != elem {
      CoordinatesOfOffset(ext, elem);
      CoordinatesOfOffset(ext, other);
    }
  }

  // ---------------------------------------------------------------------
  // tensor_sum
  // ---------------------------------------------------------------------

  /** The memories of the tensors. */
  function Contents(ts: seq<Tensor>): (cs: seq<seq<int>>)
    reads set i | 0 <= i < |ts| :: ts[i].data
    ensures |cs| == |ts| && forall i :: 0 <= i < |ts| ==> cs[i] == ts[i].data[..]
  {
    if |ts| == 0 then [] else Contents(ts[..|ts| - 1]) + [ts[|ts| - 1].data[..]]
  }

  /** When the tensors agree in cell k, so does their fold. */
  lemma {:induction false} ColumnSumSame(cs: seq<seq<int>>, ds: seq<seq<int>>, k: nat)
    requires |cs| == |ds| && forall i :: 0 <= i < |cs| ==> k < |cs[i]| && k < |ds[i]| && cs[i][k] == ds[i][k]
    ensures ColumnSum(cs, k) == ColumnSum(ds, k)
  {
    if |cs| > 0 {
      ColumnSumSame(cs[..|cs| - 1], ds[..|ds| - 1], k);
    }
  }

  /**
   * `tensor_sum(sum_tensor, tensor...)` as evidently intended: every cell
   * of the sum's memory receives the fold of the tensors' cells at the same
   * memory element. The sum may share its memory with one of the tensors.
   */
  method TensorSum(sum: Tensor, tensors: seq<Tensor>)
    requires sum.Valid() && |tensors| > 0
    requires forall i :: 0 <= i < |tensors| ==> tensors[i].data.Length == sum.data.Length
    modifies sum.data
    ensures sum.data[..] == ColumnSums(old(Contents(tensors)), sum.data.Length)
  {
    ghost var before := Contents(tensors);
    ghost var target := ColumnSums(before, sum.data.Length);
    for k := 0 to sum.data.Length
      invariant forall j :: 0 <= j < k ==> sum.data[j] == target[j]
      invariant forall j :: k <= j < sum.data.Length ==> sum.data[j] == old(sum.data[j])
      invariant forall i, j :: 0 <= i < |tensors| && k <= j < sum.data.Length ==> tensors[i].data[j] == before[i][j]
    {
      var now := Contents(tensors);
      ColumnSumSame(now, before, k);
      sum.data[k] := ColumnSum(now, k);
    }
    assert sum.data[..] == target;
  }

  /**
   * `tensor_sum` as written: the loop runs over the sum's memory domain but
   * reads and writes through `operator()`, which converts each memory
   * coordinate by `LambdaMemElem` as if it were an access id. The result
   * is the cell written and the value written there, or None where an
   * assertion of `LambdaMemElem` fires.
   */
  function SumWriteAsWritten(dims: seq<Dim>, mems: seq<seq<int>>, memElem: seq<nat>): (r: Option<(seq<nat>, int)>)
    requires |memElem| == |dims| && forall i :: 0 <= i < |mems| ==> |mems[i]| == Product(MemExtents(dims))
    ensures r.Some? <==> MemElement(dims, memElem).Some? && Within(MemExtents(dims), MemElement(dims, memElem).value)
    ensures r.Some? ==> r.value.0 == MemElement(dims, memElem).value
  {
    var target := MemElement(dims, memElem);
    if target.Some? && Within(MemExtents(dims), target.value) then
      OffsetBound(MemExtents(dims), target.value);
      Some((target.value, ColumnSum(mems, Offset(MemExtents(dims), target.value))))
    else
      None
  }

  /**
   * Over an antisymmetric index of two sub-indices over three values (three
   * memory cells), the written loop fails its assertion at memory element
   * 0, and no memory element writes cell 2: elements 1 and 2 write cells 0
   * and 1.
   */
  lemma TensorSumAsWrittenSkipsCell(mems: seq<seq<int>>)
    requires forall i :: 0 <= i < |mems| ==> |mems[i]| == 3
    ensures var dims := [Indexed(AntisymmetricKind([0, 1], 3))];
      Product(MemExtents(dims)) == 3 &&
      SumWriteAsWritten(dims, mems, [0]) == None &&
      SumWriteAsWritten(dims, mems, [1]).Some? && SumWriteAsWritten(dims, mems, [1]).value.0 == [0] &&
      SumWriteAsWritten(dims, mems, [2]).Some? && SumWriteAsWritten(dims, mems, [2]).value.0 == [1]
  {
    var dims := [Indexed(AntisymmetricKind([0, 1], 3))];
    assert AntisymmetricIndex.MemSize(3, 2) == 3 by {
      assert Binomial.Choose(3, 2) == 3;
    }
    assert MemExtents(dims) == [3];
    ProductOne(3);
    var ix := AntisymmetricKind([0, 1], 3);
    assert Decode(ix, 0) == Combination([]);
    assert Decode(ix, 1) == Combination([Term(1, 0)]);
    assert Decode(ix, 2) == Combination([Term(1, 1)]);
    assert MemElement(dims, [0]) == None;
    assert dims[0] == Indexed(ix);
    assert MemId(dims[0], 1) == Some(0) && MemId(dims[0], 2) == Some(1);
    assert MemElement(dims, [1]).Some? && MemElement(dims, [1]).value[0] == 0;
    assert MemElement(dims, [2]).Some? && MemElement(dims, [2]).value[0] == 1;
  }

  // ---------------------------------------------------------------------
  // The product of tensors over natural indices
  // ---------------------------------------------------------------------

  /** `type_seq_remove_t<s, t>`: the elements of s not in t, in order. */
  function Without<T(==,!new)>(s: seq<T>, t: seq<T>): (r: seq<T>)
    ensures forall x :: x in r <==> x in s && x !in t
    ensures |r| <= |s|
  {
    if |s| == 0 then []
    else if s[|s| - 1] in t then Without(s[..|s| - 1], t)
    else Without(s[..|s| - 1], t) + [s[|s| - 1]]
  }

  /** Removing names none of which occurs leaves the sequence as it is. */
  lemma {:induction false} WithoutNone<T(!new)>(s: seq<T>, t: seq<T>)
    requires forall x :: x in s ==> x !in t
    ensures Without(s, t) == s
  {
    if |s| > 0 {
      assert s[..|s| - 1] + [s[|s| - 1]] == s;
      WithoutNone(s[..|s| - 1], t);
    }
  }

  /** Removing a sequence's own names from it leaves nothing. */
  lemma {:induction false} WithoutAll<T(!new)>(s: seq<T>, t: seq<T>)
    requires forall x :: x in s ==> x in t
    ensures Without(s, t) == []
  {
    if |s| > 0 {
      WithoutAll(s[..|s| - 1], t);
    }
  }

  /** Removal distributes over concatenation. */
  lemma {:induction false} WithoutAppend<T(!new)>(a: seq<T>, b: seq<T>, t: seq<T>)
    ensures Without(a + b, t) == Without(a, t) + Without(b, t)
  {
    if |b| == 0 {
      assert a + b == a;
    } else {
      assert (a + b)[..|a + b| - 1] == a + b[..|b| - 1];
      WithoutAppend(a, b[..|b| - 1], t);
    }
  }

  /**
   * The names of the natural product: t1 over head + contract, t2 over
   * contract + tail and the product over head + tail, all distinct. The
   * static check `Remove(DDim1, Prod) == Remove(DDim2, Prod)` holds, and
   * head, contract and tail are recovered as `Remove(Prod, DDim2)`,
   * `Remove(DDim1, Prod)` and `Remove(Prod, DDim1)`.
   */
  lemma ProductNames(head: seq<nat>, contract: seq<nat>, tail: seq<nat>)
    requires Distinct(head + contract + tail)
    ensures Without(head + contract, head + tail) == Without(contract + tail, head + tail) == contract
    ensures Without(head + tail, contract + tail) == head
    ensures Without(head + tail, head + contract) == tail
  {
    assert head + contract + tail == head + (contract + tail);
    Disjoint(head, contract + tail);
    Disjoint(head + contract, tail);
    assert Without(head + contract, head + tail) == contract by {
      WithoutAppend(head, contract, head + tail);
      WithoutAll(head, head + tail);
      WithoutNone(contract, head + tail);
    }
    assert Without(contract + tail, head + tail) == contract by {
      WithoutAppend(contract, tail, head + tail);
      WithoutAll(tail, head + tail);
      WithoutNone(contract, head + tail);
    }
    assert Without(head + tail, contract + tail) == head by {
      WithoutAppend(head, tail, contract + tail);
      WithoutNone(head, contract + tail);
      WithoutAll(tail, contract + tail);
    }
    assert Without(head + tail, head + contract) == tail by {
      WithoutAppend(head, tail, head + contract);
      WithoutAll(head, head + contract);
      WithoutNone(tail, head + contract);
    }
  }

  /** The two parts of a sequence of distinct names share none. */
  lemma Disjoint(a: seq<nat>, b: seq<nat>)
    requires Distinct(a + b)
    ensures forall x :: x in a ==> x !in b
  {
    forall p, q | 0 <= p < |a| && 0 <= q < |b|
      ensures a[p] != b[q]
    {
      assert (a + b)[p] == a[p] && (a + b)[|a| + q] == b[q];
    }
  }

  /** The first n terms of row i of a (width c) times column j of b (width t). */
  function Contraction(a: seq<int>, b: seq<int>, h: nat, c: nat, t: nat, i: nat, j: nat, n: nat): int
    requires |a| == h * c && |b| == c * t && i < h && j < t && n <= c
  {
    if n == 0 then 0
    else
      RowInside(i, h, c, n - 1);
      RowInside(n - 1, c, t, j);
      Contraction(a, b, h, c, t, i, j, n - 1) + a[i * c + (n - 1)] * b[(n - 1) * t + j]
  }

  /** The product, row-major over head then tail, of a (h x c) and b (c x t). */
  function MatrixProduct(a: seq<int>, b: seq<int>, h: nat, c: nat, t: nat): (r: seq<int>)
    requires |a| == h * c && |b| == c * t
    ensures |r| == h * t
  {
    seq(h * t, q requires 0 <= q < h * t =>
      QuotientBelow(q, h, t);
      Contraction(a, b, h, c, t, q / t, q % t, c))
  }

  /**
   * `tensor_prod(prod, t1, t2)` over natural indices, with t1 laid out
   * over head then contracted dimensions, t2 over contracted then tail
   * dimensions and the product over head then tail: every element of the
   * product receives the sum, over the contracted domain, of
   * t1(head, contracted) * t2(contracted, tail).
   */
  method NaturalTensorProd(prod: Tensor, t1: Tensor, t2: Tensor, head: seq<nat>, contract: seq<nat>, tail: seq<nat>)
    requires NaturalDims(prod.dims) && NaturalDims(t1.dims) && NaturalDims(t2.dims)
    requires MemExtents(t1.dims) == head + contract && MemExtents(t2.dims) == contract + tail
    requires MemExtents(prod.dims) == head + tail
    requires prod.Valid() && t1.Valid() && t2.Valid()
    requires prod.data != t1.data && prod.data != t2.data
    modifies prod.data
    ensures |t1.data[..]| == Product(head) * Product(contract) && |t2.data[..]| == Product(contract) * Product(tail)
    ensures prod.data[..] == MatrixProduct(t1.data[..], t2.data[..], Product(head), Product(contract), Product(tail))
  {
    var h, c, t := Product(head), Product(contract), Product(tail);
    SplitProduct(head, contract);
    SplitProduct(contract, tail);
    SplitProduct(head, tail);
    ghost var target := MatrixProduct(t1.data[..], t2.data[..], h, c, t);
    for q := 0 to h * t
      invariant forall p :: 0 <= p < q ==> prod.data[p] == target[p]
    {
      QuotientBelow(q, h, t);
      prod.data[q] := Contraction(t1.data[..], t2.data[..], h, c, t, q / t, q % t, c);
    }
    assert prod.data[..] == target;
  }

  lemma SplitProduct(a: seq<nat>, b: seq<nat>)
    ensures Product(a + b) == Product(a) * Product(b)
  {
    FullIndex.ProductSplit(a + b, |a|);
    assert (a + b)[..|a|] == a && (a + b)[|a|..] == b;
  }

  /**
   * The sum over the contracted domain that the source reduces: the first
   * n contracted elements, in row-major order, of t1(head, contracted) *
   * t2(contracted, tail).
   */
  function ContractedSum(head: seq<nat>, contract: seq<nat>, tail: seq<nat>, a: seq<int>, b: seq<int>,
                         hc: seq<nat>, tc: seq<nat>, n: nat): int
    requires |a| == Product(head + contract) && |b| == Product(contract + tail)
    requires Within(head, hc) && Within(tail, tc) && n <= Product(contract)
  {
    if n == 0 then 0
    else
      var cc := Coordinates(contract, n - 1);
      WithinAppend(head, hc, contract, cc);
      WithinAppend(contract, cc, tail, tc);
      ContractedSum(head, contract, tail, a, b, hc, tc, n - 1) + Cell(head + contract, a, hc + cc) * Cell(contract + tail, b, cc + tc)
  }

  lemma WithinAppend(e1: seq<nat>, c1: seq<nat>, e2: seq<nat>, c2: seq<nat>)
    requires Within(e1, c1) && Within(e2, c2)
    ensures Within(e1 + e2, c1 + c2)
  {
    forall k | 0 <= k < |c1| + |c2|
      ensures (c1 + c2)[k] < (e1 + e2)[k]
    {
      if k >= |c1| {
        assert (c1 + c2)[k] == c2[k - |c1|] && (e1 + e2)[k] == e2[k - |e1|];
      }
    }
  }

  /**
   * The flat product is the tensor contraction: the product's cell at head
   * element hc and tail element tc is the sum over the whole contracted
   * domain of t1(hc, cc) * t2(cc, tc).
   */
  lemma MatrixProductCell(head: seq<nat>, contract: seq<nat>, tail: seq<nat>, a: seq<int>, b: seq<int>, hc: seq<nat>, tc: seq<nat>)
    requires |a| == Product(head + contract) && |b| == Product(contract + tail)
    requires Within(head, hc) && Within(tail, tc)
    ensures |a| == Product(head) * Product(contract) && |b| == Product(contract) * Product(tail)
    ensures |MatrixProduct(a, b, Product(head), Product(contract), Product(tail))| == Product(head + tail)
    ensures Within(head + tail, hc + tc)
    ensures Cell(head + tail, MatrixProduct(a, b, Product(head), Product(contract), Product(tail)), hc + tc)
        == ContractedSum(head, contract, tail, a, b, hc, tc, Product(contract))
  {
    SplitProduct(head, contract);
    SplitProduct(contract, tail);
    SplitProduct(head, tail);
    var h, c, t := Product(head), Product(contract), Product(tail);
    var i, j := Offset(head, hc), Offset(tail, tc);
    OffsetBound(head, hc);
    OffsetBound(tail, tc);
    WithinAppend(head, hc, tail, tc);
    OffsetAppend(head, hc, tail, tc);
    ProductAt(a, b, h, c, t, i, j);
    ContractedSumIsContraction(head, contract, tail, a, b, hc, tc, c, h, c, t, i, j);
  }

  /** Row i, column j of the flat product is the full contraction of row i of a with column j of b. */
  lemma ProductAt(a: seq<int>, b: seq<int>, h: nat, c: nat, t: nat, i: nat, j: nat)
    requires |a| == h * c && |b| == c * t && i < h && j < t
    ensures i * t + j < h * t
    ensures MatrixProduct(a, b, h, c, t)[i * t + j] == Contraction(a, b, h, c, t, i, j, c)
  {
    RowInside(i, h, t, j);
    RowDivMod(i, t, j);
  }

  lemma {:induction false} ContractedSumIsContraction(head: seq<nat>, contract: seq<nat>, tail: seq<nat>, a: seq<int>, b: seq<int>,
                                                    hc: seq<nat>, tc: seq<nat>, n: nat, h: nat, c: nat, t: nat, i: nat, j: nat)
    requires |a| == Product(head + contract) && |b| == Product(contract + tail)
    requires Within(head, hc) && Within(tail, tc) && n <= Product(contract)
    requires h == Product(head) && c == Product(contract) && t == Product(tail)
    requires i == Offset(head, hc) && j == Offset(tail, tc)
    requires |a| == h * c && |b| == c * t && i < h && j < t
    ensures ContractedSum(head, contract, tail, a, b, hc, tc, n) == Contraction(a, b, h, c, t, i, j, n)
  {
    if n > 0 {
      var k: nat := n - 1;
      ContractedSumIsContraction(head, contract, tail, a, b, hc, tc, k, h, c, t, i, j);
      StepsAgree(head, contract, tail, a, b, hc, tc, k, h, c, t, i, j);
    }
  }

  /** The contracted sum and the flat contraction add the same term at step k. */
  lemma StepsAgree(head: seq<nat>, contract: seq<nat>, tail: seq<nat>, a: seq<int>, b: seq<int>,
                   hc: seq<nat>, tc: seq<nat>, k: nat, h: nat, c: nat, t: nat, i: nat, j: nat)
    requires |a| == Product(head + contract) && |b| == Product(contract + tail)
    requires Within(head, hc) && Within(tail, tc) && k < Product(contract)
    requires h == Product(head) && c == Product(contract) && t == Product(tail)
    requires i == Offset(head, hc) && j == Offset(tail, tc)
    requires |a| == h * c && |b| == c * t && i < h && j < t
    ensures ContractedSum(head, contract, tail, a, b, hc, tc, k + 1) - ContractedSum(head, contract, tail, a, b, hc, tc, k)
      == Contraction(a, b, h, c, t, i, j, k + 1) - Contraction(a, b, h, c, t, i, j, k)
  {
    var x, y := ContractedSumStep(head, contract, tail, a, b, hc, tc, k);
    ContractionStep(a, b, h, c, t, i, j, k, x, y);
  }

  /** One step of the contracted sum, at the flat offsets of its two cells. */
  lemma ContractedSumStep(head: seq<nat>, contract: seq<nat>, tail: seq<nat>, a: seq<int>, b: seq<int>,
                          hc: seq<nat>, tc: seq<nat>, k: nat) returns (x: int, y: int)
    requires |a| == Product(head + contract) && |b| == Product(contract + tail)
    requires Within(head, hc) && Within(tail, tc) && k < Product(contract)
    ensures x == Offset(head, hc) * Product(contract) + k && 0 <= x < |a|
    ensures y == k * Product(tail) + Offset(tail, tc) && 0 <= y < |b|
    ensures ContractedSum(head, contract, tail, a, b, hc, tc, k + 1)
      == ContractedSum(head, contract, tail, a, b, hc, tc, k) + a[x] * b[y]
  {
    var cc := Coordinates(contract, k);
    x := Offset(head, hc) * Product(contract) + k;
    y := k * Product(tail) + Offset(tail, tc);
    assert Within(head + contract, hc + cc) && 0 <= x < |a| && Cell(head + contract, a, hc + cc) == a[x] by {
      CellOfAppend(head, hc, contract, cc, a, x);
    }
    assert Within(contract + tail, cc + tc) && 0 <= y < |b| && Cell(contract + tail, b, cc + tc) == b[y] by {
      CellOfAppend(contract, cc, tail, tc, b, y);
    }
  }

  /** One step of the flat contraction, at the given offsets. */
  lemma ContractionStep(a: seq<int>, b: seq<int>, h: nat, c: nat, t: nat, i: nat, j: nat, k: nat, x: nat, y: nat)
    requires |a| == h * c && |b| == c * t && i < h && j < t && k < c
    requires x == i * c + k && y == k * t + j
    ensures x < |a| && y < |b|
    ensures Contraction(a, b, h, c, t, i, j, k + 1) == Contraction(a, b, h, c, t, i, j, k) + a[x] * b[y]
  {
    RowInside(i, h, c, k);
    RowInside(k, c, t, j);
  }

  /** The cell of a pair of coordinates over concatenated extents, by its flat offset. */
  lemma CellOfAppend(e1: seq<nat>, c1: seq<nat>, e2: seq<nat>, c2: seq<nat>, mem: seq<int>, x: int)
    requires Within(e1, c1) && Within(e2, c2) && |mem| == Product(e1 + e2)
    requires x == Offset(e1, c1) * Product(e2) + Offset(e2, c2)
    ensures Within(e1 + e2, c1 + c2) && 0 <= x < |mem|
    ensures Cell(e1 + e2, mem, c1 + c2) == mem[x]
  {
    WithinAppend(e1, c1, e2, c2);
    OffsetAppend(e1, c1, e2, c2);
    OffsetBound(e1 + e2, c1 + c2);
  }

  /**
   * The library's contraction of a rank-3 tensor holding 0..26 with a
   * rank-2 tensor holding 0..8 over their shared index of three values:
   * element (X, X, X) is 15 and element (Z, Z, Z) is 381.
   */
  lemma ProductExample()
    ensures MatrixProduct(seq(27, k => k), seq(9, k => k), 9, 3, 3)[0] == 15
    ensures MatrixProduct(seq(27, k => k), seq(9, k => k), 9, 3, 3)[26] == 381
  {
    var a: seq<int> := seq(27, k => k);
    var b: seq<int> := seq(9, k => k);
    assert Contraction(a, b, 9, 3, 3, 0, 0, 1) == 0;
    assert Contraction(a, b, 9, 3, 3, 0, 0, 2) == 3;
    assert Contraction(a, b, 9, 3, 3, 0, 0, 3) == 15;
    assert Contraction(a, b, 9, 3, 3, 8, 2, 1) == 48;
    assert Contraction(a, b, 9, 3, 3, 8, 2, 2) == 173;
    assert Contraction(a, b, 9, 3, 3, 8, 2, 3) == 381;
  }

  /**
   * The library's double contraction of two rank-3 tensors holding 0..26
   * over two shared indices: element (X, X) is 612 and element (Z, Z) is
   * 2952.
   */
  lemma DoubleContractionExample()
    ensures MatrixProduct(seq(27, k => k), seq(27, k => k), 3, 9, 3)[0] == 612
    ensures MatrixProduct(seq(27, k => k), seq(27, k => k), 3, 9, 3)[8] == 2952
  {
    var a: seq<int> := seq(27, k => k);
    assert Contraction(a, a, 3, 9, 3, 0, 0, 1) == 0;
    assert Contraction(a, a, 3, 9, 3, 0, 0, 2) == 3;
    assert Contraction(a, a, 3, 9, 3, 0, 0, 3) == 15;
    assert Contraction(a, a, 3, 9, 3, 0, 0, 4) == 42;
    assert Contraction(a, a, 3, 9, 3, 0, 0, 5) == 90;
    assert Contraction(a, a, 3, 9, 3, 0, 0, 6) == 165;
    assert Contraction(a, a, 3, 9, 3, 0, 0, 7) == 273;
    assert Contraction(a, a, 3, 9, 3, 0, 0, 8) == 420;
    assert Contraction(a, a, 3, 9, 3, 0, 0, 9) == 612;
    assert Contraction(a, a, 3, 9, 3, 2, 2, 1) == 36;
    assert Contraction(a, a, 3, 9, 3, 2, 2, 2) == 131;
    assert Contraction(a, a, 3, 9, 3, 2, 2, 3) == 291;
    assert Contraction(a, a, 3, 9, 3, 2, 2, 4) == 522;
    assert Contraction(a, a, 3, 9, 3, 2, 2, 5) == 830;
    assert Contraction(a, a, 3, 9, 3, 2, 2, 6) == 1221;
    assert Contraction(a, a, 3, 9, 3, 2, 2, 7) == 1701;
    assert Contraction(a, a, 3, 9, 3, 2, 2, 8) == 2276;
    assert Contraction(a, a, 3, 9, 3, 2, 2, 9) == 2952;
  }

}
