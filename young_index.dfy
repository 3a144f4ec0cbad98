// `TensorYoungTableauIndex`: an index over natural sub-indices whose tensors
// live in the irreducible representation of a Young tableau. The memory holds
// irrep_dim coordinates; the CSR matrix v (one row per coordinate, one tail
// index per sub-index) maps them back to the dense tensor. A natural
// multi-index addresses the dense cell at its row-major offset, and decoding
// it collects, in entry order, (value, row) for every stored entry of v at
// that cell. The matrices u and v themselves are precomputed data and are
// parameters here.
module YoungIndex {
  import opened Arith
  import opened Strides
  import FullIndex
  import opened Csr
  import opened LinearCombination

  // Decoding an access id.

  /** Component k of an access id: (a mod next_stride_k) / stride_k. */
  function Digits(ts: seq<nat>, a: nat): (ids: seq<nat>)
    requires FullIndex.PositiveSizes(ts)
    ensures |ids| == |ts|
  {
    seq(|ts|, k requires 0 <= k < |ts| =>
      FullIndex.StridePositive(ts, k);
      FullIndex.Digit(a, NextStride(ts, k), Stride(ts, k)))
  }

  /** The digits of the access id of an in-range multi-index are that multi-index. */
  lemma DigitsOfAccessId(ts: seq<nat>, ids: seq<nat>)
    requires TailShape(ts) && FullIndex.InRange(ts, ids)
    ensures FullIndex.AccessId(ts, ids) < TailSize(ts)
    ensures Digits(ts, FullIndex.AccessId(ts, ids)) == ids
  {
    FullIndex.UnrankAccessId(ts, ids);
    assert Digits(ts, FullIndex.AccessId(ts, ids)) == FullIndex.Unrank(ts, FullIndex.AccessId(ts, ids));
  }

  /** Every access id below size() is the access id of its digits, which are in range. */
  lemma AccessIdOfDigits(ts: seq<nat>, a: nat)
    requires TailShape(ts) && a < TailSize(ts)
    ensures FullIndex.InRange(ts, Digits(ts, a))
    ensures FullIndex.AccessId(ts, Digits(ts, a)) == a
  {
    FullIndex.AccessIdUnrank(ts, a);
    assert Digits(ts, a) == FullIndex.Unrank(ts, a);
  }

  // The row of a stored entry.

  /**
   * The row the `while` scan stops at for entry j when it starts at row k:
   * it advances while a later boundary is still at or below j.
   */
  function RowFrom(coalesc: seq<nat>, j: nat, k: nat): nat
    requires |coalesc| >= 1 && k <= |coalesc| - 1
    decreases |coalesc| - k
  {
    if k < |coalesc| - 1 && coalesc[k + 1] <= j then RowFrom(coalesc, j, k + 1) else k
  }

  /** The row of entry j: the scan from row 0. */
  function RowOf(c: CsrData, j: nat): nat
    requires |c.coalesc| >= 1
  {
    RowFrom(c.coalesc, j, 0)
  }

  lemma {:induction false} RowFromBrackets(c: CsrData, ts: seq<nat>, j: nat, k: nat)
    requires WellFormed(c, ts) && j < |c.values| && k < Rows(c) && c.coalesc[k] <= j
    ensures var r := RowFrom(c.coalesc, j, k);
      k <= r < Rows(c) && c.coalesc[r] <= j < c.coalesc[r + 1]
    decreases Rows(c) - k
  {
    assert c.coalesc[Rows(c)] == |c.values|;
    if c.coalesc[k + 1] <= j {
      RowFromBrackets(c, ts, j, k + 1);
    }
  }

  /** The scan finds the row whose boundaries bracket the entry, and that is the only such row. */
  lemma RowOfBrackets(c: CsrData, ts: seq<nat>, j: nat)
    requires WellFormed(c, ts) && j < |c.values|
    ensures RowOf(c, j) < Rows(c) && c.coalesc[RowOf(c, j)] <= j < c.coalesc[RowOf(c, j) + 1]
    ensures forall i :: 0 <= i < Rows(c) && c.coalesc[i] <= j < c.coalesc[i + 1] ==> i == RowOf(c, j)
  {
    assert c.coalesc[Rows(c)] == |c.values|;
    RowFromBrackets(c, ts, j, 0);
  }

  // The linear combination a natural multi-index decodes to.

  /** Entries 0 .. n - 1 whose tail coordinates are target, as (value, row) terms in entry order. */
  function Matching(c: CsrData, ts: seq<nat>, target: seq<nat>, n: nat): (terms: seq<Term>)
    requires WellFormed(c, ts) && n <= |c.values|
    ensures |terms| <= n
  {
    if n == 0 then []
    else
      Matching(c, ts, target, n - 1)
      + (if Coords(c, ts, n - 1) == target then [Term(c.values[n - 1], RowOf(c, n - 1))] else [])
  }

  /**
   * The loop shared by `mem_lin_comb` and `access_id_to_mem_lin_comb`: for
   * each stored entry of v in order, when every tail coordinate equals the
   * target component, push its value and the row the scan over the
   * boundaries stops at.
   */
  method CollectMatching(v: CsrData, ts: seq<nat>, target: seq<nat>) returns (terms: seq<Term>)
    requires WellFormed(v, ts)
    ensures terms == Matching(v, ts, target, |v.values|)
  {
    terms := [];
    for j := 0 to |v.values|
      invariant terms == Matching(v, ts, target, j)
    {
      if Coords(v, ts, j) == target {
        var k := 0;
        while k < |v.coalesc| - 1 && v.coalesc[k + 1] <= j
          invariant k <= |v.coalesc| - 1
          invariant RowFrom(v.coalesc, j, k) == RowOf(v, j)
          decreases |v.coalesc| - k
        {
          k := k + 1;
        }
        terms := terms + [Term(v.values[j], k)];
      }
    }
  }

  /** `mem_lin_comb(ids)`: the entries of v stored at the cell of the ids. */
  method MemLinComb(v: CsrData, ts: seq<nat>, ids: seq<nat>) returns (terms: seq<Term>)
    requires WellFormed(v, ts) && |ids| == |ts|
    ensures terms == Matching(v, ts, ids, |v.values|)
  {
    terms := CollectMatching(v, ts, ids);
  }

  /** `access_id_to_mem_lin_comb(a)`: the entries of v stored at the cell whose digits a has. */
  method AccessIdToMemLinComb(v: CsrData, ts: seq<nat>, a: nat) returns (terms: seq<Term>)
    requires WellFormed(v, ts) && TailShape(ts)
    ensures terms == Matching(v, ts, Digits(ts, a), |v.values|)
  {
    terms := CollectMatching(v, ts, Digits(ts, a));
  }

  /** Decoding the access id of a multi-index gives the combination of the multi-index itself. */
  lemma DecodeAccessId(v: CsrData, ts: seq<nat>, ids: seq<nat>)
    requires WellFormed(v, ts) && TailShape(ts) && FullIndex.InRange(ts, ids)
    ensures Matching(v, ts, Digits(ts, FullIndex.AccessId(ts, ids)), |v.values|)
         == Matching(v, ts, ids, |v.values|)
  {
    DigitsOfAccessId(ts, ids);
  }

  /** Every term of a combination is a stored value of v on one of its rows, i.e. a slot below mem_size. */
  lemma {:induction false} MatchingInRows(v: CsrData, ts: seq<nat>, target: seq<nat>, n: nat)
    requires WellFormed(v, ts) && n <= |v.values|
    ensures forall t :: 0 <= t < |Matching(v, ts, target, n)| ==>
      Matching(v, ts, target, n)[t].memId < Rows(v)
  {
    if n > 0 {
      MatchingInRows(v, ts, target, n - 1);
      RowOfBrackets(v, ts, n - 1);
    }
  }

  // Reading through the combination, and what the dense tensor holds.

  /** A sum over terms with one more term at the end. */
  lemma {:induction false} SumAppend(terms: seq<Term>, t: Term, mem: seq<int>)
    requires InBounds(terms, mem) && t.memId < |mem|
    ensures InBounds(terms + [t], mem)
    ensures Sum(terms + [t], mem) == Sum(terms, mem) + t.coef * mem[t.memId]
  {
    if terms != [] {
      assert (terms + [t])[1..] == terms[1..] + [t];
      SumAppend(terms[1..], t, mem);
    } else {
      assert [t][1..] == [];
    }
  }

  /** The dense cell a multi-index addresses collects exactly the entries with its coordinates. */
  lemma SameCell(c: CsrData, ts: seq<nat>, ids: seq<nat>, j: nat)
    requires WellFormed(c, ts) && TailShape(ts) && FullIndex.InRange(ts, ids) && j < |c.values|
    ensures TailPos(c, ts, j) == FullIndex.AccessId(ts, ids) <==> Coords(c, ts, j) == ids
  {
    DigitsOfAccessId(ts, ids);
    DigitsOfAccessId(ts, Coords(c, ts, j));
  }

  /** The weighted sum, entry by entry, of entries 0 .. n - 1 whose coordinates are ids. */
  function PartialRead(v: CsrData, ts: seq<nat>, ids: seq<nat>, mem: seq<int>, n: nat): int
    requires WellFormed(v, ts) && n <= |v.values| && Rows(v) <= |mem|
  {
    if n == 0 then 0
    else
      RowOfBrackets(v, ts, n - 1);
      PartialRead(v, ts, ids, mem, n - 1)
      + (if Coords(v, ts, n - 1) == ids then v.values[n - 1] * mem[RowOf(v, n - 1)] else 0)
  }

  /** The entry-by-entry read is the weighted sum of the combination the ids decode to. */
  lemma {:induction false} PartialReadIsSum(v: CsrData, ts: seq<nat>, ids: seq<nat>, mem: seq<int>, n: nat)
    requires WellFormed(v, ts) && n <= |v.values| && Rows(v) <= |mem|
    ensures InBounds(Matching(v, ts, ids, n), mem)
    ensures PartialRead(v, ts, ids, mem, n) == Sum(Matching(v, ts, ids, n), mem)
  {
    MatchingInRows(v, ts, ids, n);
    if n > 0 {
      PartialReadIsSum(v, ts, ids, mem, n - 1);
      RowOfBrackets(v, ts, n - 1);
      if Coords(v, ts, n - 1) == ids {
        SumAppend(Matching(v, ts, ids, n - 1), Term(v.values[n - 1], RowOf(v, n - 1)), mem);
      } else {
        assert Matching(v, ts, ids, n) == Matching(v, ts, ids, n - 1);
      }
    }
  }

  lemma {:induction false} EntriesOfRow(acc: seq<int>, v: CsrData, ts: seq<nat>, ids: seq<nat>, mem: seq<int>, i: nat, n: nat)
    requires WellFormed(v, ts) && TailShape(ts) && FullIndex.InRange(ts, ids)
    requires i < Rows(v) <= |mem| && |acc| == TailSize(ts)
    requires v.coalesc[i] <= n <= v.coalesc[i + 1]
    ensures v.coalesc[i + 1] <= |v.values|
    ensures FullIndex.AccessId(ts, ids) < TailSize(ts)
    ensures AddEntries(acc, v, ts, mem[i], v.coalesc[i], n)[FullIndex.AccessId(ts, ids)]
         == acc[FullIndex.AccessId(ts, ids)] + PartialRead(v, ts, ids, mem, n) - PartialRead(v, ts, ids, mem, v.coalesc[i])
    decreases n
  {
    assert v.coalesc[i + 1] <= Last(v.coalesc);
    FullIndex.AccessIdRange(ts, ids);
    if n > v.coalesc[i] {
      EntriesOfRow(acc, v, ts, ids, mem, i, n - 1);
      ReadOneEntry(v, ts, ids, mem, i, n - 1);
      AddOneEntry(acc, v, ts, mem[i], v.coalesc[i], n, FullIndex.AccessId(ts, ids));
    }
  }

  /** The last entry of a range adds a times its value to its own cell and to no other. */
  lemma AddOneEntry(acc: seq<int>, v: CsrData, ts: seq<nat>, a: int, lo: nat, hi: nat, k: nat)
    requires WellFormed(v, ts) && TailShape(ts) && lo < hi <= |v.values| && |acc| == TailSize(ts)
    requires k < TailSize(ts)
    ensures AddEntries(acc, v, ts, a, lo, hi)[k]
         == AddEntries(acc, v, ts, a, lo, hi - 1)[k] + (if TailPos(v, ts, hi - 1) == k then a * v.values[hi - 1] else 0)
  {
  }

  /** Entry j of row i adds mem[i] times its value to the read exactly when it lies in the addressed cell. */
  lemma ReadOneEntry(v: CsrData, ts: seq<nat>, ids: seq<nat>, mem: seq<int>, i: nat, j: nat)
    requires WellFormed(v, ts) && TailShape(ts) && FullIndex.InRange(ts, ids)
    requires i < Rows(v) <= |mem| && v.coalesc[i] <= j < v.coalesc[i + 1] <= |v.values|
    ensures PartialRead(v, ts, ids, mem, j + 1)
         == PartialRead(v, ts, ids, mem, j)
            + (if TailPos(v, ts, j) == FullIndex.AccessId(ts, ids) then mem[i] * v.values[j] else 0)
  {
    RowOfBrackets(v, ts, j);
    SameCell(v, ts, ids, j);
  }

  lemma {:induction false} RowsOfCell(v: CsrData, ts: seq<nat>, ids: seq<nat>, mem: seq<int>, i: nat)
    requires WellFormed(v, ts) && TailShape(ts) && FullIndex.InRange(ts, ids)
    requires i <= Rows(v) <= |mem|
    ensures v.coalesc[i] <= |v.values|
    ensures FullIndex.AccessId(ts, ids) < TailSize(ts)
    ensures AddRows(v, ts, mem, i)[FullIndex.AccessId(ts, ids)] == PartialRead(v, ts, ids, mem, v.coalesc[i])
  {
    assert v.coalesc[i] <= Last(v.coalesc);
    DigitsOfAccessId(ts, ids);
    if i > 0 {
      RowsOfCell(v, ts, ids, mem, i - 1);
      EntriesOfRow(AddRows(v, ts, mem, i - 1), v, ts, ids, mem, i - 1, v.coalesc[i]);
    }
  }

  /**
   * The weighted sum of the decoded combination is the cell the multi-index
   * addresses in the uncompressed (dense) tensor: decoding one cell agrees
   * with `uncompress`.
   */
  lemma SumIsUncompressedCell(v: CsrData, ts: seq<nat>, ids: seq<nat>, mem: seq<int>)
    requires WellFormed(v, ts) && TailShape(ts) && FullIndex.InRange(ts, ids) && Rows(v) <= |mem|
    ensures FullIndex.AccessId(ts, ids) < TailSize(ts)
    ensures PartialRead(v, ts, ids, mem, |v.values|) == AddRows(v, ts, mem, Rows(v))[FullIndex.AccessId(ts, ids)]
  {
    RowsOfCell(v, ts, ids, mem, Rows(v));
  }

  /**
   * The read `get` performs on a tensor whose only index is this one, as
   * written: the access id of the ids, decoded, and evaluated with the
   * empty-combination rule of `detail::Access` (1), then passed through
   * `process_access` unchanged.
   */
  function ReadAsWritten(v: CsrData, ts: seq<nat>, ids: seq<nat>, mem: seq<int>): int
    requires WellFormed(v, ts) && TailShape(ts) && FullIndex.InRange(ts, ids) && Rows(v) <= |mem|
  {
    var terms := Matching(v, ts, Digits(ts, FullIndex.AccessId(ts, ids)), |v.values|);
    DecodeAccessId(v, ts, ids);
    MatchingInRows(v, ts, ids, |v.values|);
    Evaluate(terms, mem)
  }

  /**
   * The antisymmetric tableau over two values: its single coordinate m
   * expands to the dense tensor [[0, m], [-m, 0]], so v stores the two
   * off-diagonal entries of its one row.
   */
  function AntisymmetricPair(): (v: CsrData)
    ensures WellFormed(v, [2, 2]) && Rows(v) == 1
  {
    CsrData([0, 2], [[0, 1], [1, 0]], [1, -1])
  }

  /**
   * A diagonal cell of the antisymmetric pair stores nothing, so its
   * combination is empty and the read as written gives 1, while the
   * uncompressed tensor holds 0 there.
   */
  lemma ReadAsWrittenOnEmptyCell(v: CsrData, ts: seq<nat>, ids: seq<nat>, mem: seq<int>)
    requires v == AntisymmetricPair() && ts == [2, 2] && ids == [0, 0] && mem == [5]
    ensures TailShape(ts) && FullIndex.InRange(ts, ids)
    ensures ReadAsWritten(v, ts, ids, mem) == 1
    ensures AddRows(v, ts, mem, Rows(v))[FullIndex.AccessId(ts, ids)] == 0
  {
    assert FullIndex.MemSize(ts) == 4 by {
      assert ts[1..][1..] == [];
    }
    assert Coords(v, ts, 0) == [0, 1];
    assert Coords(v, ts, 1) == [1, 0];
    assert Coords(v, ts, 0) != ids && Coords(v, ts, 1) != ids;
    assert Matching(v, ts, ids, 2) == [];
    DecodeAccessId(v, ts, ids);
    PartialReadIsSum(v, ts, ids, mem, 2);
    SumIsUncompressedCell(v, ts, ids, mem);
  }

  /** The evidently intended read: the weighted sum of the combination, 0 when it is empty. */
  function Read(v: CsrData, ts: seq<nat>, ids: seq<nat>, mem: seq<int>): (value: int)
    requires WellFormed(v, ts) && TailShape(ts) && FullIndex.InRange(ts, ids) && Rows(v) <= |mem|
    ensures FullIndex.AccessId(ts, ids) < TailSize(ts)
    ensures value == AddRows(v, ts, mem, Rows(v))[FullIndex.AccessId(ts, ids)]
  {
    DigitsOfAccessId(ts, ids);
    SumIsUncompressedCell(v, ts, ids, mem);
    PartialRead(v, ts, Digits(ts, FullIndex.AccessId(ts, ids)), mem, |v.values|)
  }

  /** The two reads agree on every cell that stores at least one entry. */
  lemma ReadAsWrittenOnStoredCell(v: CsrData, ts: seq<nat>, ids: seq<nat>, mem: seq<int>)
    requires WellFormed(v, ts) && TailShape(ts) && FullIndex.InRange(ts, ids) && Rows(v) <= |mem|
    requires Matching(v, ts, ids, |v.values|) != []
    ensures ReadAsWritten(v, ts, ids, mem) == Read(v, ts, ids, mem)
  {
    DecodeAccessId(v, ts, ids);
    DigitsOfAccessId(ts, ids);
    PartialReadIsSum(v, ts, ids, mem, |v.values|);
  }

  // Compression.

  /**
   * `uncompress(uncompressed, tensor)`: the dense tensor is the vector-CSR
   * product of the irrep coordinates with v.
   */
  method Uncompress(uncompressed: array<int>, mem: seq<int>, v: CsrData, ts: seq<nat>)
    requires WellFormed(v, ts) && TailShape(ts) && Rows(v) <= |mem| && uncompressed.Length == TailSize(ts)
    modifies uncompressed
    ensures uncompressed[..] == AddRows(v, ts, mem, Rows(v))
  {
    VecCsr(uncompressed, mem, v, ts);
  }

  /**
   * `compress(compressed, tensor)`: the irrep coordinates are the CSR-vector
   * product of u with the dense tensor.
   */
  method Compress(compressed: array<int>, u: CsrData, dense: seq<int>, ts: seq<nat>)
    requires WellFormed(u, ts) && TailShape(ts) && |dense| == TailSize(ts) && Rows(u) <= compressed.Length
    modifies compressed
    ensures compressed[..] == RowSums(u, ts, dense, compressed.Length)
  {
    CsrVec(compressed, u, dense, ts);
  }

  /** The sum over k < n of x[k] times the dot product of r with row k. */
  function WeightedDots(r: seq<int>, rows: seq<seq<int>>, x: seq<int>, n: nat): int
    requires n <= |rows| <= |x| && forall k :: 0 <= k < |rows| ==> |r| <= |rows[k]|
  {
    if n == 0 then 0 else WeightedDots(r, rows, x, n - 1) + x[n - 1] * Dot(r, rows[n - 1])
  }

  lemma {:induction false} DotAxpy(r: seq<int>, acc: seq<int>, a: int, s: seq<int>, p: nat)
    requires |r| <= p == |acc| == |s|
    ensures Dot(r, AxpyPrefix(acc, a, s, p)) == Dot(r, acc) + a * Dot(r, s)
  {
    if |r| > 0 {
      var m := |r| - 1;
      DotAxpy(r[..m], acc, a, s, p);
      assert r[..m] == r[..|r| - 1];
      var w := AxpyPrefix(acc, a, s, p);
      assert w[m] == acc[m] + a * s[m];
      assert r[m] * (acc[m] + a * s[m]) == r[m] * acc[m] + a * (r[m] * s[m]);
    }
  }

  lemma {:induction false} DotZeros(r: seq<int>, p: nat)
    requires |r| <= p
    ensures Dot(r, Zeros(p)) == 0
  {
    if |r| > 0 {
      DotZeros(r[..|r| - 1], p);
    }
  }

  /** The dot product of r with a combination of rows is the combination of the dot products. */
  lemma {:induction false} DotCombine(r: seq<int>, rows: seq<seq<int>>, x: seq<int>, p: nat)
    requires |r| == p && |rows| <= |x| && forall k :: 0 <= k < |rows| ==> |rows[k]| == p
    ensures Dot(r, Combine(rows, x, p)) == WeightedDots(r, rows, x, |rows|)
  {
    if |rows| == 0 {
      DotZeros(r, p);
    } else {
      var m := |rows| - 1;
      var front := rows[..m];
      DotCombine(r, front, x, p);
      DotAxpy(r, Combine(front, x, p), x[m], rows[m], p);
      WeightedDotsPrefix(r, rows, x, m, m);
      assert Combine(rows, x, p) == AxpyPrefix(Combine(front, x, p), x[m], rows[m], p);
    }
  }

  /** The first n weighted dot products only look at the first n rows. */
  lemma {:induction false} WeightedDotsPrefix(r: seq<int>, rows: seq<seq<int>>, x: seq<int>, n: nat, m: nat)
    requires n <= m <= |rows| <= |x| && forall k :: 0 <= k < |rows| ==> |r| <= |rows[k]|
    ensures WeightedDots(r, rows[..m], x, n) == WeightedDots(r, rows, x, n)
  {
    if n > 0 {
      WeightedDotsPrefix(r, rows, x, n - 1, m);
      assert rows[..m][n - 1] == rows[n - 1];
    }
  }

  /** With dot products forming the identity, the weighted sum picks x[i]. */
  lemma {:induction false} WeightedDotsOfIdentity(r: seq<int>, rows: seq<seq<int>>, x: seq<int>, i: nat, n: nat)
    requires n <= |rows| <= |x| && forall k :: 0 <= k < |rows| ==> |r| <= |rows[k]|
    requires forall k :: 0 <= k < |rows| ==> Dot(r, rows[k]) == if k == i then 1 else 0
    ensures WeightedDots(r, rows, x, n) == if i < n then x[i] else 0
  {
    if n > 0 {
      WeightedDotsOfIdentity(r, rows, x, i, n - 1);
    }
  }

  /**
   * Compressing an uncompressed tensor gives its coordinates back when u is
   * a left inverse of v: with dense rows U of u and V of v whose dot
   * products are the identity, compress(uncompress(mem)) == mem.
   */
  lemma CompressUncompress(ts: seq<nat>, uRows: seq<seq<int>>, vRows: seq<seq<int>>, mem: seq<int>)
    requires TailShape(ts) && |uRows| == |vRows| == |mem|
    requires forall k :: 0 <= k < |uRows| ==> |uRows[k]| == TailSize(ts)
    requires forall k :: 0 <= k < |vRows| ==> |vRows[k]| == TailSize(ts)
    requires forall i, k :: 0 <= i < |uRows| && 0 <= k < |vRows| ==>
      Dot(uRows[i], vRows[k]) == if i == k then 1 else 0
    ensures var dense := AddRows(FromRows(ts, vRows), ts, mem, |vRows|);
      RowSums(FromRows(ts, uRows), ts, dense, |mem|) == mem
  {
    var p := TailSize(ts);
    var u := FromRows(ts, uRows);
    var dense := AddRows(FromRows(ts, vRows), ts, mem, |vRows|);
    VecCsrFromRows(ts, vRows, mem);
    assert dense == Combine(vRows, mem, p);
    var out := RowSums(u, ts, dense, |mem|);
    forall i | 0 <= i < |mem|
      ensures out[i] == mem[i]
    {
      CompressRow(ts, uRows, vRows, mem, i);
    }
  }

  /** Row i of the compressed product: row i of U against the uncompressed memory gives mem[i]. */
  lemma CompressRow(ts: seq<nat>, uRows: seq<seq<int>>, vRows: seq<seq<int>>, mem: seq<int>, i: nat)
    requires TailShape(ts) && |uRows| == |vRows| == |mem| && i < |mem|
    requires forall k :: 0 <= k < |uRows| ==> |uRows[k]| == TailSize(ts)
    requires forall k :: 0 <= k < |vRows| ==> |vRows[k]| == TailSize(ts)
    requires forall k :: 0 <= k < |vRows| ==> Dot(uRows[i], vRows[k]) == if i == k then 1 else 0
    ensures var dense := Combine(vRows, mem, TailSize(ts));
      |dense| == TailSize(ts) &&
      RowSums(FromRows(ts, uRows), ts, dense, |mem|)[i] == mem[i]
  {
    var p := TailSize(ts);
    var dense := Combine(vRows, mem, p);
    CsrVecFromRows(ts, uRows, dense, i);
    DotCombine(uRows[i], vRows, mem, p);
    WeightedDotsOfIdentity(uRows[i], vRows, mem, i, |vRows|);
  }
}
