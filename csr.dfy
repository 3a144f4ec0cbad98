// Compressed sparse row storage over a domain (Head, Tail...): row i of the
// head index owns the stored entries coalesc[i] .. coalesc[i + 1] - 1; entry
// j keeps one coordinate per tail index (idx[k][j]) and its value. Dense
// tensors over the tail indices are laid out row-major, so a tail
// coordinate tuple addresses the cell at its full-index access id.
module Csr {
  import opened Arith
  import opened Strides
  import FullIndex

  /** The three vectors of a CSR matrix. */
  datatype CsrData = CsrData(coalesc: seq<nat>, idx: seq<seq<nat>>, values: seq<int>)

  function Last(s: seq<nat>): nat
    requires |s| >= 1
  {
    s[|s| - 1]
  }

  predicate NonDecreasing(s: seq<nat>)
  {
    forall i, j :: 0 <= i <= j < |s| ==> s[i] <= s[j]
  }

  /** The tail indices have positive sizes whose product fits a size_t. */
  predicate TailShape(ts: seq<nat>)
  {
    FullIndex.PositiveSizes(ts) && FullIndex.MemSize(ts) <= SIZE_MAX
  }

  /** The number of cells of a dense tensor over the tail indices. */
  function TailSize(ts: seq<nat>): nat
    requires FullIndex.PositiveSizes(ts)
  {
    FullIndex.MemSize(ts)
  }

  /**
   * The shape every CsrDynamic built by its constructor and push_back has:
   * row boundaries from 0, non-decreasing, ending at the entry count, one
   * coordinate vector per tail index with one in-range coordinate per entry.
   */
  predicate WellFormed(c: CsrData, ts: seq<nat>)
  {
    |c.coalesc| >= 1 && c.coalesc[0] == 0 && NonDecreasing(c.coalesc) && Last(c.coalesc) == |c.values|
    && |c.idx| == |ts|
    && (forall k :: 0 <= k < |ts| ==> |c.idx[k]| == |c.values|)
    && (forall k, j :: 0 <= k < |ts| && 0 <= j < |c.values| ==> c.idx[k][j] < ts[k])
  }

  /** The number of rows: one less than the number of boundaries. */
  function Rows(c: CsrData): nat
    requires |c.coalesc| >= 1
  {
    |c.coalesc| - 1
  }

  /** The tail coordinates of entry j. */
  function Coords(c: CsrData, ts: seq<nat>, j: nat): (ids: seq<nat>)
    requires WellFormed(c, ts) && j < |c.values|
    ensures FullIndex.InRange(ts, ids)
  {
    seq(|ts|, k requires 0 <= k < |ts| => c.idx[k][j])
  }

  /** The dense cell of the tail tensor that entry j addresses. */
  function TailPos(c: CsrData, ts: seq<nat>, j: nat): (p: nat)
    requires WellFormed(c, ts) && TailShape(ts) && j < |c.values|
    ensures p < TailSize(ts)
  {
    FullIndex.AccessIdRange(ts, Coords(c, ts, j));
    FullIndex.AccessId(ts, Coords(c, ts, j))
  }

  /** The positions of the nonzero cells of a dense row, in increasing order. */
  function NonzeroPositions(r: seq<int>): (ps: seq<nat>)
    ensures forall t :: 0 <= t < |ps| ==> ps[t] < |r| && r[ps[t]] != 0
    ensures |ps| <= |r|
  {
    if |r| == 0 then []
    else NonzeroPositions(r[..|r| - 1]) + (if r[|r| - 1] != 0 then [|r| - 1] else [])
  }

  /** One more cell of the row adds its position when it is nonzero. */
  lemma NonzeroPositionsStep(r: seq<int>, f: nat)
    requires f < |r|
    ensures NonzeroPositions(r[..f + 1]) == NonzeroPositions(r[..f]) + (if r[f] != 0 then [f] else [])
  {
    assert r[..f + 1][..f] == r[..f];
  }

  /** The nonzero positions of a prefix are a prefix of those of the row. */
  lemma {:induction false} NonzeroPositionsPrefix(r: seq<int>, f: nat)
    requires f <= |r|
    ensures NonzeroPositions(r[..f]) <= NonzeroPositions(r)
    decreases |r| - f
  {
    if f < |r| {
      NonzeroPositionsStep(r, f);
      NonzeroPositionsPrefix(r, f + 1);
    } else {
      assert r[..f] == r;
    }
  }

  /** The CSR of an empty domain: one boundary 0 and no entries. */
  function Empty(ts: seq<nat>): (c: CsrData)
    ensures WellFormed(c, ts) && Rows(c) == 0
  {
    CsrData([0], seq(|ts|, _ => []), [])
  }

  /**
   * `push_back(dense)` as a value: a new boundary that counts the nonzero
   * cells of the row, their coordinates appended to the tail vectors and
   * their values to the values, in row-major order; zero cells are skipped.
   */
  function PushRow(c: CsrData, ts: seq<nat>, r: seq<int>): (c': CsrData)
    requires WellFormed(c, ts) && TailShape(ts) && |r| <= TailSize(ts)
    ensures WellFormed(c', ts) && Rows(c') == Rows(c) + 1 && Extends(c', c)
    ensures c'.coalesc[Rows(c) + 1] == |c.values| + |NonzeroPositions(r)|
  {
    var ps := NonzeroPositions(r);
    AppendRow(c, ts, seq(|ts|, k requires 0 <= k < |ts| => CellCoords(ts, ps, k)),
              seq(|ps|, t requires 0 <= t < |ps| => r[ps[t]]))
  }

  /**
   * A new last row holding the given entries: coords[k] lists their
   * coordinates along tail index k and vals their values, in order.
   */
  function AppendRow(c: CsrData, ts: seq<nat>, coords: seq<seq<nat>>, vals: seq<int>): (c': CsrData)
    requires WellFormed(c, ts) && |coords| == |ts|
    requires forall k :: 0 <= k < |ts| ==> |coords[k]| == |vals|
    requires forall k, t :: 0 <= k < |ts| && 0 <= t < |vals| ==> coords[k][t] < ts[k]
    ensures WellFormed(c', ts) && Rows(c') == Rows(c) + 1 && Extends(c', c)
    ensures c'.coalesc[Rows(c) + 1] == |c.values| + |vals|
  {
    var c' := CsrData(
      c.coalesc + [Last(c.coalesc) + |vals|],
      seq(|ts|, k requires 0 <= k < |ts| => c.idx[k] + coords[k]),
      c.values + vals);
    forall k, j | 0 <= k < |ts| && |c.values| <= j < |c'.values|
      ensures c'.idx[k][j] < ts[k]
    {
      assert c'.idx[k][j] == coords[k][j - |c.values|];
    }
    assert c'.coalesc[..|c.coalesc|] == c.coalesc;
    assert c'.values[..|c.values|] == c.values;
    assert forall k :: 0 <= k < |ts| ==> c'.idx[k][..|c.values|] == c.idx[k];
    c'
  }

  /** Coordinate k of each listed cell of the tail domain, in order. */
  function CellCoords(ts: seq<nat>, ps: seq<nat>, k: nat): (xs: seq<nat>)
    requires TailShape(ts) && k < |ts| && forall t :: 0 <= t < |ps| ==> ps[t] < FullIndex.MemSize(ts)
    ensures |xs| == |ps|
    ensures forall t :: 0 <= t < |ps| ==> xs[t] == FullIndex.Unrank(ts, ps[t])[k] < ts[k]
  {
    UnrankedInRange(ts, ps);
    seq(|ps|, t requires 0 <= t < |ps| => FullIndex.Unrank(ts, ps[t])[k])
  }

  lemma UnrankedInRange(ts: seq<nat>, ps: seq<nat>)
    requires TailShape(ts) && forall t :: 0 <= t < |ps| ==> ps[t] < FullIndex.MemSize(ts)
    ensures forall t :: 0 <= t < |ps| ==> FullIndex.InRange(ts, FullIndex.Unrank(ts, ps[t]))
  {
    forall t | 0 <= t < |ps|
      ensures FullIndex.InRange(ts, FullIndex.Unrank(ts, ps[t]))
    {
      FullIndex.AccessIdUnrank(ts, ps[t]);
    }
  }

  /** c' keeps the boundaries, coordinates and values of c as a prefix. */
  predicate Extends(c': CsrData, c: CsrData)
  {
    |c.coalesc| <= |c'.coalesc| && c'.coalesc[..|c.coalesc|] == c.coalesc
    && |c.values| <= |c'.values| && c'.values[..|c.values|] == c.values
    && |c'.idx| == |c.idx|
    && forall k :: 0 <= k < |c.idx| ==> |c.values| <= |c'.idx[k]| && c'.idx[k][..|c.values|] == c.idx[k]
  }

  /** The CSR that pushing the dense rows one after the other builds. */
  function FromRows(ts: seq<nat>, rows: seq<seq<int>>): (c: CsrData)
    requires TailShape(ts) && forall i :: 0 <= i < |rows| ==> |rows[i]| == TailSize(ts)
    ensures WellFormed(c, ts) && Rows(c) == |rows|
  {
    if |rows| == 0 then Empty(ts)
    else PushRow(FromRows(ts, rows[..|rows| - 1]), ts, rows[|rows| - 1])
  }

  /** Entry t of a pushed row: its coordinates address the t-th nonzero cell and it holds that cell's value. */
  lemma PushRowEntry(c: CsrData, ts: seq<nat>, r: seq<int>, t: nat)
    requires WellFormed(c, ts) && TailShape(ts) && |r| <= TailSize(ts)
    requires t < |NonzeroPositions(r)|
    ensures |c.values| + t < |PushRow(c, ts, r).values|
    ensures TailPos(PushRow(c, ts, r), ts, |c.values| + t) == NonzeroPositions(r)[t]
    ensures PushRow(c, ts, r).values[|c.values| + t] == r[NonzeroPositions(r)[t]]
  {
    var ps := NonzeroPositions(r);
    var c' := PushRow(c, ts, r);
    var j := |c.values| + t;
    FullIndex.AccessIdUnrank(ts, ps[t]);
    assert Coords(c', ts, j) == FullIndex.Unrank(ts, ps[t]);
  }

  // The dynamic CSR object.

  class CsrDynamic {
    /** The memory size of the head index. */
    const headSize: nat
    /** The sizes of the tail indices. */
    const tailSizes: seq<nat>
    var coalesc: seq<nat>
    var idx: seq<seq<nat>>
    var values: seq<int>

    function Data(): CsrData
      reads this
    {
      CsrData(coalesc, idx, values)
    }

    /** `CsrDynamic(domain)`: coalesc_idx = [0], no coordinates and no values. */
    constructor (headSize: nat, tailSizes: seq<nat>)
      ensures this.headSize == headSize && this.tailSizes == tailSizes
      ensures Data() == Empty(tailSizes)
    {
      this.headSize := headSize;
      this.tailSizes := tailSizes;
      coalesc := [0];
      idx := seq(|tailSizes|, _ => []);
      values := [];
    }

    /** `CsrDynamic(domain, coalesc_idx, idx, values)`: takes the three vectors as they are. */
    constructor FromArrays(headSize: nat, tailSizes: seq<nat>, coalesc: seq<nat>, idx: seq<seq<nat>>, values: seq<int>)
      ensures this.headSize == headSize && this.tailSizes == tailSizes
      ensures Data() == CsrData(coalesc, idx, values)
    {
      this.headSize := headSize;
      this.tailSizes := tailSizes;
      this.coalesc := coalesc;
      this.idx := idx;
      this.values := values;
    }

    /**
     * `push_back(dense)`: opens a row whose boundary starts at the last one,
     * then, for each cell of the tail domain in row-major order that is
     * nonzero, bumps the boundary and appends its coordinates and value.
     */
    method PushBack(dense: seq<int>)
      requires WellFormed(Data(), tailSizes) && TailShape(tailSizes) && |dense| == TailSize(tailSizes)
      modifies this
      ensures Data() == PushRow(old(Data()), tailSizes, dense)
    {
      ghost var c := Data();
      coalesc := coalesc + [coalesc[|coalesc| - 1]];
      PushNothing(c, tailSizes, dense);
      for f := 0 to |dense|
        invariant Data() == PushRow(c, tailSizes, dense[..f])
      {
        if dense[f] != 0 {
          var ids := FullIndex.Unrank(tailSizes, f);
          AppendCell(ids, dense[f]);
          PushStep(c, tailSizes, dense, f);
        } else {
          PushSkip(c, tailSizes, dense, f);
        }
      }
      assert dense[..|dense|] == dense;
    }

    /** One nonzero cell of the row being pushed: the last boundary, the coordinates and the values grow by one. */
    method AppendCell(ids: seq<nat>, v: int)
      requires |coalesc| >= 1 && |ids| >= |idx|
      modifies this
      ensures Data() == AppendEntry(old(Data()), ids, v)
    {
      coalesc := coalesc[|coalesc| - 1 := coalesc[|coalesc| - 1] + 1];
      var oldIdx := idx;
      idx := seq(|oldIdx|, k requires 0 <= k < |oldIdx| => oldIdx[k] + [ids[k]]);
      values := values + [v];
    }

    /** `get(id)` with the evidently intended range: row id alone, as a one-row CSR. */
    method Get(id: nat) returns (slice: CsrDynamic)
      requires WellFormed(Data(), tailSizes) && id + 1 < |coalesc|
      ensures fresh(slice) && slice.headSize == headSize && slice.tailSizes == tailSizes
      ensures slice.Data() == Slice(Data(), tailSizes, id)
    {
      var idBegin := coalesc[id];
      var idEnd := coalesc[id + 1];
      var old_idx := idx;
      var newIdx := seq(|old_idx|, k requires 0 <= k < |old_idx| => old_idx[k][idBegin..idEnd]);
      slice := new CsrDynamic.FromArrays(headSize, tailSizes, [0, idEnd - idBegin], newIdx, values[idBegin..idEnd]);
    }
  }

  /** One more stored entry in the last row: the boundary moves by one, coordinates and value appended. */
  function AppendEntry(d: CsrData, ids: seq<nat>, v: int): CsrData
    requires |d.coalesc| >= 1 && |ids| >= |d.idx|
  {
    CsrData(
      d.coalesc[|d.coalesc| - 1 := d.coalesc[|d.coalesc| - 1] + 1],
      seq(|d.idx|, k requires 0 <= k < |d.idx| => d.idx[k] + [ids[k]]),
      d.values + [v])
  }

  /** Before any cell is read, the pushed row is an empty last row. */
  lemma PushNothing(c: CsrData, ts: seq<nat>, r: seq<int>)
    requires WellFormed(c, ts) && TailShape(ts) && |r| <= TailSize(ts)
    ensures PushRow(c, ts, r[..0]) == CsrData(c.coalesc + [Last(c.coalesc)], c.idx, c.values)
  {
    assert NonzeroPositions(r[..0]) == [];
    assert forall k :: 0 <= k < |ts| ==> c.idx[k] + [] == c.idx[k];
  }

  /** A zero cell adds nothing to the pushed row. */
  lemma PushSkip(c: CsrData, ts: seq<nat>, r: seq<int>, f: nat)
    requires WellFormed(c, ts) && TailShape(ts) && f < |r| <= TailSize(ts) && r[f] == 0
    ensures PushRow(c, ts, r[..f + 1]) == PushRow(c, ts, r[..f])
  {
    NonzeroPositionsStep(r, f);
    var ps := NonzeroPositions(r[..f]);
    assert NonzeroPositions(r[..f + 1]) == ps;
    assert forall t :: 0 <= t < |ps| ==> r[..f + 1][ps[t]] == r[..f][ps[t]];
  }

  /** Appending the coordinates and value of a nonzero cell f extends the pushed row by one cell. */
  lemma PushStep(c: CsrData, ts: seq<nat>, r: seq<int>, f: nat)
    requires WellFormed(c, ts) && TailShape(ts) && f < |r| <= TailSize(ts) && r[f] != 0
    ensures PushRow(c, ts, r[..f + 1]) == AppendEntry(PushRow(c, ts, r[..f]), FullIndex.Unrank(ts, f), r[f])
  {
    NonzeroPositionsStep(r, f);
    FullIndex.AccessIdUnrank(ts, f);
    var ids := FullIndex.Unrank(ts, f);
    var ps := NonzeroPositions(r[..f]);
    var qs := NonzeroPositions(r[..f + 1]);
    assert qs == ps + [f];
    var cp := seq(|ts|, k requires 0 <= k < |ts| => CellCoords(ts, ps, k));
    var cq := seq(|ts|, k requires 0 <= k < |ts| => CellCoords(ts, qs, k));
    var vp := seq(|ps|, t requires 0 <= t < |ps| => r[..f][ps[t]]);
    var vq := seq(|qs|, t requires 0 <= t < |qs| => r[..f + 1][qs[t]]);
    assert vq == vp + [r[f]];
    forall k | 0 <= k < |ts|
      ensures cq[k] == cp[k] + [ids[k]]
    {
      assert CellCoords(ts, qs, k) == CellCoords(ts, ps, k) + [ids[k]];
    }
    AppendRowEntry(c, ts, cp, vp, ids, r[f]);
    assert cq == seq(|ts|, k requires 0 <= k < |ts| => cp[k] + [ids[k]]);
  }

  /** A row appended with one more entry is the row appended without it, then that entry. */
  lemma AppendRowEntry(c: CsrData, ts: seq<nat>, coords: seq<seq<nat>>, vals: seq<int>, ids: seq<nat>, v: int)
    requires WellFormed(c, ts) && |coords| == |ts|
    requires forall k :: 0 <= k < |ts| ==> |coords[k]| == |vals|
    requires forall k, t :: 0 <= k < |ts| && 0 <= t < |vals| ==> coords[k][t] < ts[k]
    requires FullIndex.InRange(ts, ids)
    ensures AppendRow(c, ts, seq(|ts|, k requires 0 <= k < |ts| => coords[k] + [ids[k]]), vals + [v])
         == AppendEntry(AppendRow(c, ts, coords, vals), ids, v)
  {
    var p := AppendRow(c, ts, coords, vals);
    var q := AppendRow(c, ts, seq(|ts|, k requires 0 <= k < |ts| => coords[k] + [ids[k]]), vals + [v]);
    forall k | 0 <= k < |ts|
      ensures q.idx[k] == p.idx[k] + [ids[k]]
    {
    }
  }

  /** The evidently intended slice of row id: boundaries [0, end - begin], entries begin .. end - 1. */
  function Slice(c: CsrData, ts: seq<nat>, id: nat): (s: CsrData)
    requires WellFormed(c, ts) && id + 1 < |c.coalesc|
    ensures WellFormed(s, ts) && Rows(s) == 1
    ensures |s.values| == c.coalesc[id + 1] - c.coalesc[id]
    ensures forall j :: 0 <= j < |s.values| ==> s.values[j] == c.values[c.coalesc[id] + j]
  {
    var b := c.coalesc[id];
    var e := c.coalesc[id + 1];
    CsrData([0, e - b], seq(|c.idx|, k requires 0 <= k < |c.idx| => c.idx[k][b..e]), c.values[b..e])
  }

  /**
   * `get(id)` as written: the boundaries say end - begin entries, but the
   * coordinates and values are copied from begin up to begin + end.
   */
  function SliceAsWritten(c: CsrData, ts: seq<nat>, id: nat): (s: CsrData)
    requires WellFormed(c, ts) && id + 1 < |c.coalesc|
    requires c.coalesc[id] + c.coalesc[id + 1] <= |c.values|
    ensures |s.values| == c.coalesc[id + 1]
  {
    var b := c.coalesc[id];
    var e := c.coalesc[id + 1];
    CsrData([0, e - b], seq(|c.idx|, k requires 0 <= k < |c.idx| => c.idx[k][b..b + e]), c.values[b..b + e])
  }

  /**
   * Over one tail index of size 2 with three rows of one entry each, the
   * as-written slice of row 1 holds 2 values (6 and 7) under
   * a boundary of 1, so it is not a well-formed CSR, where the intended
   * slice holds the single entry 6.
   */
  lemma SliceAsWrittenMismatch()
    ensures var c := CsrData([0, 1, 2, 3], [[0, 1, 0]], [5, 6, 7]);
      WellFormed(c, [2]) && SliceAsWritten(c, [2], 1).values == [6, 7]
      && !WellFormed(SliceAsWritten(c, [2], 1), [2])
      && Slice(c, [2], 1).values == [6]
  {
    var c := CsrData([0, 1, 2, 3], [[0, 1, 0]], [5, 6, 7]);
    assert WellFormed(c, [2]);
    var s := SliceAsWritten(c, [2], 1);
    assert s.values == [6, 7];
    assert Last(s.coalesc) == 1;
  }

  // Scattering to dense: csr2dense.

  /**
   * Where block i of a row-major layout of blocks of p cells starts, counted
   * block by block so that the layout lemmas stay free of products.
   */
  function BlockStart(i: nat, p: nat): nat
  {
    if i == 0 then 0 else BlockStart(i - 1, p) + p
  }

  /** The block start is the row-major offset i * p. */
  lemma {:induction false} BlockStartIsProduct(i: nat, p: nat)
    ensures BlockStart(i, p) == i * p
  {
    if i > 0 {
      BlockStartIsProduct(i - 1, p);
      MulPred(i, p);
    }
  }

  /** Block i of n blocks of size p ends inside the n blocks. */
  lemma {:induction false} BlockEnd(i: nat, n: nat, p: nat)
    requires i < n
    ensures BlockStart(i, p) + p <= BlockStart(n, p)
    decreases n
  {
    if i < n - 1 {
      BlockEnd(i, n - 1, p);
    }
  }

  /** Entries lo .. hi - 1, in order, written as the values of the cells of the block that starts at base. */
  function WriteEntries(d: seq<int>, c: CsrData, ts: seq<nat>, base: nat, lo: nat, hi: nat): (d': seq<int>)
    requires WellFormed(c, ts) && TailShape(ts) && lo <= hi <= |c.values| && base + TailSize(ts) <= |d|
    ensures |d'| == |d|
    decreases hi - lo
  {
    if hi == lo then d
    else WriteEntries(d, c, ts, base, lo, hi - 1)[base + TailPos(c, ts, hi - 1) := c.values[hi - 1]]
  }

  /** Rows 0 .. i - 1 written, row k into block k of TailSize cells. */
  function WriteRows(d: seq<int>, c: CsrData, ts: seq<nat>, i: nat): (d': seq<int>)
    requires WellFormed(c, ts) && TailShape(ts) && i <= Rows(c) && BlockStart(Rows(c), TailSize(ts)) <= |d|
    ensures |d'| == |d|
  {
    if i == 0 then d
    else
      BlockEnd(i - 1, Rows(c), TailSize(ts));
      WriteEntries(WriteRows(d, c, ts, i - 1), c, ts, BlockStart(i - 1, TailSize(ts)), c.coalesc[i - 1], c.coalesc[i])
  }

  lemma {:induction false} BlockStartMonotone(a: nat, b: nat, p: nat)
    requires a <= b
    ensures BlockStart(a, p) <= BlockStart(b, p)
    decreases b
  {
    if a < b {
      BlockStartMonotone(a, b - 1, p);
    }
  }

  function Zeros(n: nat): (z: seq<int>)
    ensures |z| == n && forall q :: 0 <= q < n ==> z[q] == 0
  {
    seq(n, _ => 0)
  }

  /** What `csr2dense` leaves in a dense buffer of the given size: zeros, then every stored value in its cell. */
  function Scatter(c: CsrData, ts: seq<nat>, size: nat): (d: seq<int>)
    requires WellFormed(c, ts) && TailShape(ts) && BlockStart(Rows(c), TailSize(ts)) <= size
    ensures |d| == size
  {
    WriteRows(Zeros(size), c, ts, Rows(c))
  }

  /** `ddc::parallel_fill(a, 0.)`, sequentially. */
  method FillZero(a: array<int>)
    modifies a
    ensures a[..] == Zeros(a.Length)
  {
    for m := 0 to a.Length
      invariant forall q :: 0 <= q < m ==> a[q] == 0
    {
      a[m] := 0;
    }
  }

  /**
   * `csr2dense(dense, csr)`: zero-fills the dense tensor over (Head, Tail...),
   * then for each row i writes the value of each of its entries at
   * (i, coordinates of the entry).
   */
  method Csr2Dense(dense: array<int>, csr: CsrDynamic)
    requires WellFormed(csr.Data(), csr.tailSizes) && TailShape(csr.tailSizes)
    requires BlockStart(Rows(csr.Data()), TailSize(csr.tailSizes)) <= dense.Length
    modifies dense
    ensures dense[..] == Scatter(csr.Data(), csr.tailSizes, dense.Length)
  {
    var c := csr.Data();
    var ts := csr.tailSizes;
    var p := TailSize(ts);
    FillZero(dense);
    ghost var zeros := dense[..];
    for i := 0 to |c.coalesc| - 1
      invariant dense[..] == WriteRows(zeros, c, ts, i)
    {
      BlockStartIsProduct(i, p);
      BlockEnd(i, Rows(c), p);
      WriteRow(dense, c, ts, i * p, c.coalesc[i], c.coalesc[i + 1]);
    }
  }

  /** The inner loop of `csr2dense`: entries lo .. hi - 1 written into the block that starts at base. */
  method WriteRow(dense: array<int>, c: CsrData, ts: seq<nat>, base: nat, lo: nat, hi: nat)
    requires WellFormed(c, ts) && TailShape(ts) && lo <= hi <= |c.values| && base + TailSize(ts) <= dense.Length
    modifies dense
    ensures dense[..] == WriteEntries(old(dense[..]), c, ts, base, lo, hi)
  {
    ghost var before := dense[..];
    for j := lo to hi
      invariant dense[..] == WriteEntries(before, c, ts, base, lo, j)
    {
      dense[base + TailPos(c, ts, j)] := c.values[j];
    }
  }

  /** The dense rows one after the other. */
  function Flatten(rows: seq<seq<int>>): (d: seq<int>)
  {
    if |rows| == 0 then [] else Flatten(rows[..|rows| - 1]) + rows[|rows| - 1]
  }

  lemma FlattenLength(rows: seq<seq<int>>, p: nat)
    requires forall i :: 0 <= i < |rows| ==> |rows[i]| == p
    ensures |Flatten(rows)| == BlockStart(|rows|, p)
  {
    if |rows| > 0 {
      FlattenLength(rows[..|rows| - 1], p);
    }
  }

  /** Writing only reads the entries below hi, so a CSR that extends c writes the same. */
  lemma {:induction false} WriteEntriesExtends(d: seq<int>, c': CsrData, c: CsrData, ts: seq<nat>, base: nat, lo: nat, hi: nat)
    requires WellFormed(c, ts) && WellFormed(c', ts) && TailShape(ts) && Extends(c', c)
    requires lo <= hi <= |c.values| && base + TailSize(ts) <= |d|
    ensures WriteEntries(d, c', ts, base, lo, hi) == WriteEntries(d, c, ts, base, lo, hi)
    decreases hi - lo
  {
    if hi > lo {
      WriteEntriesExtends(d, c', c, ts, base, lo, hi - 1);
      ExtendsTailPos(c', c, ts, hi - 1);
    }
  }

  lemma ExtendsTailPos(c': CsrData, c: CsrData, ts: seq<nat>, j: nat)
    requires WellFormed(c, ts) && WellFormed(c', ts) && TailShape(ts) && Extends(c', c) && j < |c.values|
    ensures TailPos(c', ts, j) == TailPos(c, ts, j) && c'.values[j] == c.values[j]
  {
    forall k | 0 <= k < |ts|
      ensures c'.idx[k][j] == c.idx[k][j]
    {
      assert c'.idx[k][..|c.values|][j] == c'.idx[k][j];
    }
    assert Coords(c', ts, j) == Coords(c, ts, j);
    assert c'.values[..|c.values|][j] == c'.values[j];
  }

  lemma {:induction false} WriteRowsExtends(d: seq<int>, c': CsrData, c: CsrData, ts: seq<nat>, i: nat)
    requires WellFormed(c, ts) && WellFormed(c', ts) && TailShape(ts) && Extends(c', c)
    requires i <= Rows(c) && BlockStart(Rows(c'), TailSize(ts)) <= |d|
    ensures BlockStart(Rows(c), TailSize(ts)) <= |d|
    ensures WriteRows(d, c', ts, i) == WriteRows(d, c, ts, i)
  {
    BlockStartMonotone(Rows(c), Rows(c'), TailSize(ts));
    if i > 0 {
      WriteRowsExtends(d, c', c, ts, i - 1);
      assert c'.coalesc[..|c.coalesc|][i - 1] == c'.coalesc[i - 1];
      assert c'.coalesc[..|c.coalesc|][i] == c'.coalesc[i];
      assert c.coalesc[i] <= Last(c.coalesc);
      BlockEnd(i - 1, Rows(c), TailSize(ts));
      WriteEntriesExtends(WriteRows(d, c, ts, i - 1), c', c, ts, BlockStart(i - 1, TailSize(ts)), c.coalesc[i - 1], c.coalesc[i]);
    }
  }

  /** Entries lo .. lo + |ps| - 1 of c hold the cells ps of r: their positions and their values. */
  predicate HoldsCells(c: CsrData, ts: seq<nat>, lo: nat, r: seq<int>, ps: seq<nat>)
    requires WellFormed(c, ts) && TailShape(ts)
  {
    lo + |ps| <= |c.values|
    && forall t :: 0 <= t < |ps| ==> ps[t] < |r| && TailPos(c, ts, lo + t) == ps[t] && c.values[lo + t] == r[ps[t]]
  }

  /** A pushed row holds its nonzero cells right after the earlier entries. */
  lemma PushRowHoldsCells(c: CsrData, ts: seq<nat>, r: seq<int>)
    requires WellFormed(c, ts) && TailShape(ts) && |r| <= TailSize(ts)
    ensures HoldsCells(PushRow(c, ts, r), ts, |c.values|, r, NonzeroPositions(r))
  {
    forall t | 0 <= t < |NonzeroPositions(r)|
      ensures TailPos(PushRow(c, ts, r), ts, |c.values| + t) == NonzeroPositions(r)[t]
      ensures PushRow(c, ts, r).values[|c.values| + t] == r[NonzeroPositions(r)[t]]
    {
      PushRowEntry(c, ts, r, t);
    }
  }

  /**
   * When cell f - 1 of r is nonzero, the entry after those that hold the
   * nonzero cells of r[..f - 1] holds that cell.
   */
  lemma NextHeldCell(c: CsrData, ts: seq<nat>, lo: nat, r: seq<int>, f: nat)
    requires WellFormed(c, ts) && TailShape(ts) && 1 <= f <= |r| && r[f - 1] != 0
    requires HoldsCells(c, ts, lo, r, NonzeroPositions(r))
    ensures |NonzeroPositions(r[..f])| == |NonzeroPositions(r[..f - 1])| + 1
    ensures lo + |NonzeroPositions(r[..f - 1])| < |c.values|
    ensures TailPos(c, ts, lo + |NonzeroPositions(r[..f - 1])|) == f - 1
    ensures c.values[lo + |NonzeroPositions(r[..f - 1])|] == r[f - 1]
  {
    NonzeroPositionsStep(r, f - 1);
    NonzeroPositionsPrefix(r, f);
    var n := |NonzeroPositions(r[..f - 1])|;
    assert NonzeroPositions(r[..f]) == NonzeroPositions(r[..f - 1]) + [f - 1];
    assert NonzeroPositions(r)[n] == f - 1 by {
      assert NonzeroPositions(r[..f])[n] == f - 1;
    }
  }

  /**
   * Writing the entries that hold the nonzero cells of the prefix of length
   * f of a row into a block full of zeros puts that prefix in the block.
   */
  lemma {:induction false} WritePrefix(d: seq<int>, c: CsrData, ts: seq<nat>, base: nat, lo: nat, r: seq<int>, f: nat)
    requires WellFormed(c, ts) && TailShape(ts) && |r| == TailSize(ts) && f <= |r|
    requires HoldsCells(c, ts, lo, r, NonzeroPositions(r))
    requires base + |r| <= |d|
    requires forall q :: base <= q < base + |r| ==> d[q] == 0
    ensures lo + |NonzeroPositions(r[..f])| <= |c.values|
    ensures WriteEntries(d, c, ts, base, lo, lo + |NonzeroPositions(r[..f])|) == WithBlock(d, base, r, f)
  {
    assert lo + |NonzeroPositions(r[..f])| <= |c.values| by {
      NonzeroPositionsPrefix(r, f);
    }
    if f == 0 {
      assert r[..0] == [];
      assert NonzeroPositions(r[..0]) == [];
      assert WriteEntries(d, c, ts, base, lo, lo) == d;
      assert WithBlock(d, base, r, 0) == d;
    } else {
      WritePrefix(d, c, ts, base, lo, r, f - 1);
      WritePrefixStep(d, c, ts, base, lo, r, f);
    }
  }

  /** Writing the entry that holds cell f - 1 of r, if it is nonzero, extends the block from f - 1 cells to f. */
  lemma WritePrefixStep(d: seq<int>, c: CsrData, ts: seq<nat>, base: nat, lo: nat, r: seq<int>, f: nat)
    requires WellFormed(c, ts) && TailShape(ts) && |r| == TailSize(ts) && 1 <= f <= |r|
    requires HoldsCells(c, ts, lo, r, NonzeroPositions(r))
    requires base + |r| <= |d|
    requires forall q :: base <= q < base + |r| ==> d[q] == 0
    requires lo + |NonzeroPositions(r[..f - 1])| <= |c.values|
    requires WriteEntries(d, c, ts, base, lo, lo + |NonzeroPositions(r[..f - 1])|) == WithBlock(d, base, r, f - 1)
    ensures lo + |NonzeroPositions(r[..f])| <= |c.values|
    ensures WriteEntries(d, c, ts, base, lo, lo + |NonzeroPositions(r[..f])|) == WithBlock(d, base, r, f)
  {
    var n := |NonzeroPositions(r[..f - 1])|;
    var w := WriteEntries(d, c, ts, base, lo, lo + n);
    if r[f - 1] != 0 {
      NextHeldCell(c, ts, lo, r, f);
      var w' := WriteEntries(d, c, ts, base, lo, lo + n + 1);
      assert w' == w[base + (f - 1) := r[f - 1]];
      PrefixBlockStep(w, w', d, base, r, f);
    } else {
      assert |NonzeroPositions(r[..f])| == n by {
        NonzeroPositionsStep(r, f - 1);
      }
      assert d[base + f - 1] == 0;
      PrefixBlockStep(w, w, d, base, r, f);
    }
  }

  /** d with the cells base .. base + f - 1 replaced by the first f cells of r. */
  function WithBlock(d: seq<int>, base: nat, r: seq<int>, f: nat): (w: seq<int>)
    requires f <= |r| && base + |r| <= |d|
    ensures |w| == |d|
  {
    seq(|d|, q requires 0 <= q < |d| => if base <= q < base + f then r[q - base] else d[q])
  }

  /** One more cell of the block: it now holds r[f - 1], written or already zero. */
  lemma PrefixBlockStep(w: seq<int>, w': seq<int>, d: seq<int>, base: nat, r: seq<int>, f: nat)
    requires 1 <= f <= |r| && base + |r| <= |d|
    requires w == WithBlock(d, base, r, f - 1)
    requires w' == w[base + f - 1 := r[f - 1]] || (w' == w && r[f - 1] == 0 && d[base + f - 1] == 0)
    ensures w' == WithBlock(d, base, r, f)
  {
  }

  /** Filling the first zero block after a prefix F with r extends the prefix by r. */
  lemma AppendBlock(F: seq<int>, r: seq<int>, size: nat)
    requires |F| + |r| <= size
    ensures WithBlock(F + Zeros(size - |F|), |F|, r, |r|) == (F + r) + Zeros(size - |F| - |r|)
  {
  }

  /** `csr2dense` after pushing dense rows gives back those rows, followed by zeros. */
  lemma {:induction false} ScatterFromRows(ts: seq<nat>, rows: seq<seq<int>>, size: nat)
    requires TailShape(ts) && forall i :: 0 <= i < |rows| ==> |rows[i]| == TailSize(ts)
    requires BlockStart(|rows|, TailSize(ts)) <= size
    ensures Scatter(FromRows(ts, rows), ts, size) == Flatten(rows) + Zeros(size - BlockStart(|rows|, TailSize(ts)))
  {
    if |rows| > 0 {
      var m := |rows| - 1;
      var front := rows[..m];
      var r := rows[m];
      var c := FromRows(ts, front);
      var F := Flatten(front);
      assert |F| == BlockStart(m, TailSize(ts)) by {
        FlattenLength(front, TailSize(ts));
      }
      assert Scatter(c, ts, size) == F + Zeros(size - |F|) by {
        ScatterFromRows(ts, front, size);
      }
      var n := size - BlockStart(|rows|, TailSize(ts));
      assert n == size - |F| - |r|;
      assert Flatten(rows) == F + r;
      assert FromRows(ts, rows) == PushRow(c, ts, r);
      assert Scatter(PushRow(c, ts, r), ts, size) == (F + r) + Zeros(n) by {
        ScatterStep(ts, c, r, F, size);
      }
    } else {
      assert FromRows(ts, rows) == Empty(ts);
      assert Scatter(Empty(ts), ts, size) == Zeros(size);
      assert Flatten(rows) + Zeros(size) == Zeros(size);
    }
  }

  /** One more push appends the row to the scattered prefix and shortens the zeros after it. */
  lemma ScatterStep(ts: seq<nat>, c: CsrData, r: seq<int>, F: seq<int>, size: nat)
    requires WellFormed(c, ts) && TailShape(ts) && |r| == TailSize(ts)
    requires |F| == BlockStart(Rows(c), TailSize(ts)) && |F| + |r| <= size
    requires Scatter(c, ts, size) == F + Zeros(size - |F|)
    ensures Scatter(PushRow(c, ts, r), ts, size) == (F + r) + Zeros(size - |F| - |r|)
  {
    var d := Scatter(c, ts, size);
    assert forall q :: |F| <= q < |F| + |r| ==> d[q] == 0;
    ScatterPushRow(c, ts, r, size);
    AppendBlock(F, r, size);
  }

  /** Scattering after one more push fills the next block, still zero, with the pushed row. */
  lemma ScatterPushRow(c: CsrData, ts: seq<nat>, r: seq<int>, size: nat)
    requires WellFormed(c, ts) && TailShape(ts) && |r| == TailSize(ts)
    requires BlockStart(Rows(c), TailSize(ts)) + |r| <= size
    requires forall q :: BlockStart(Rows(c), TailSize(ts)) <= q < BlockStart(Rows(c), TailSize(ts)) + |r| ==> Scatter(c, ts, size)[q] == 0
    ensures Scatter(PushRow(c, ts, r), ts, size) == WithBlock(Scatter(c, ts, size), BlockStart(Rows(c), TailSize(ts)), r, |r|)
  {
    var p := TailSize(ts);
    var m := Rows(c);
    var c' := PushRow(c, ts, r);
    var d := Scatter(c, ts, size);
    assert WriteRows(Zeros(size), c', ts, m) == d by {
      WriteRowsExtends(Zeros(size), c', c, ts, m);
    }
    var lo := c'.coalesc[m];
    var hi := c'.coalesc[m + 1];
    assert lo == |c.values| && hi == lo + |NonzeroPositions(r)| by {
      assert c'.coalesc[..|c.coalesc|][m] == c'.coalesc[m];
    }
    assert HoldsCells(c', ts, lo, r, NonzeroPositions(r)) by {
      PushRowHoldsCells(c, ts, r);
    }
    ScatterLastRow(c', ts, size);
    WriteWholeRow(d, c', ts, BlockStart(m, p), lo, hi, r);
  }

  /** Writing all the entries that hold the nonzero cells of r into a block full of zeros puts r there. */
  lemma WriteWholeRow(d: seq<int>, c: CsrData, ts: seq<nat>, base: nat, lo: nat, hi: nat, r: seq<int>)
    requires WellFormed(c, ts) && TailShape(ts) && |r| == TailSize(ts)
    requires HoldsCells(c, ts, lo, r, NonzeroPositions(r)) && hi == lo + |NonzeroPositions(r)|
    requires base + |r| <= |d|
    requires forall q :: base <= q < base + |r| ==> d[q] == 0
    ensures hi <= |c.values|
    ensures WriteEntries(d, c, ts, base, lo, hi) == WithBlock(d, base, r, |r|)
  {
    WritePrefix(d, c, ts, base, lo, r, |r|);
    assert r[..|r|] == r;
  }

  /** Scattering is scattering all rows but the last, then the last row's entries into its block. */
  lemma ScatterLastRow(c: CsrData, ts: seq<nat>, size: nat)
    requires WellFormed(c, ts) && TailShape(ts) && BlockStart(Rows(c), TailSize(ts)) <= size && Rows(c) >= 1
    ensures BlockStart(Rows(c) - 1, TailSize(ts)) + TailSize(ts) <= size
    ensures Scatter(c, ts, size)
      == WriteEntries(WriteRows(Zeros(size), c, ts, Rows(c) - 1), c, ts, BlockStart(Rows(c) - 1, TailSize(ts)),
                      c.coalesc[Rows(c) - 1], c.coalesc[Rows(c)])
  {
    BlockEnd(Rows(c) - 1, Rows(c), TailSize(ts));
  }

  // The two sparse-dense products of src/csr/csr.hpp.

  /** Entries lo .. hi - 1 each add a times their value to the tail cell they address. */
  function AddEntries(acc: seq<int>, c: CsrData, ts: seq<nat>, a: int, lo: nat, hi: nat): (acc': seq<int>)
    requires WellFormed(c, ts) && TailShape(ts) && lo <= hi <= |c.values| && |acc| == TailSize(ts)
    ensures |acc'| == |acc|
    decreases hi - lo
  {
    if hi == lo then acc
    else
      var prev := AddEntries(acc, c, ts, a, lo, hi - 1);
      var t := TailPos(c, ts, hi - 1);
      prev[t := prev[t] + a * c.values[hi - 1]]
  }

  /** Rows 0 .. i - 1 accumulated, row k weighted by x[k]. */
  function AddRows(c: CsrData, ts: seq<nat>, x: seq<int>, i: nat): (acc: seq<int>)
    requires WellFormed(c, ts) && TailShape(ts) && i <= Rows(c) <= |x|
    ensures |acc| == TailSize(ts)
  {
    if i == 0 then Zeros(TailSize(ts))
    else AddEntries(AddRows(c, ts, x, i - 1), c, ts, x[i - 1], c.coalesc[i - 1], c.coalesc[i])
  }

  /**
   * Vector-CSR product `tensor_prod(prod, dense, csr)`: zero-fills prod over
   * the tail indices, then for each row i adds dense[i] times each stored
   * value of the row to the cell its coordinates address. The source's row
   * loop runs to coalesc.size() and so reads one boundary past the end on its
   * last pass; the model stops at the last row.
   */
  method VecCsr(prod: array<int>, dense: seq<int>, c: CsrData, ts: seq<nat>)
    requires WellFormed(c, ts) && TailShape(ts) && Rows(c) <= |dense| && prod.Length == TailSize(ts)
    modifies prod
    ensures prod[..] == AddRows(c, ts, dense, Rows(c))
  {
    FillZero(prod);
    for i := 0 to |c.coalesc| - 1
      invariant prod[..] == AddRows(c, ts, dense, i)
    {
      var denseValue := dense[i];
      var jBegin := c.coalesc[i];
      var jEnd := c.coalesc[i + 1];
      ghost var before := prod[..];
      for j := jBegin to jEnd
        invariant prod[..] == AddEntries(before, c, ts, denseValue, jBegin, j)
      {
        var t := TailPos(c, ts, j);
        prod[t] := prod[t] + denseValue * c.values[j];
      }
    }
  }

  /** The stored values of entries lo .. hi - 1 weighted by the dense cells they address. */
  function RowSum(c: CsrData, ts: seq<nat>, x: seq<int>, lo: nat, hi: nat): int
    requires WellFormed(c, ts) && TailShape(ts) && lo <= hi <= |c.values| && |x| == TailSize(ts)
    decreases hi - lo
  {
    if hi == lo then 0
    else RowSum(c, ts, x, lo, hi - 1) + x[TailPos(c, ts, hi - 1)] * c.values[hi - 1]
  }

  /** The sums of rows 0 .. n - 1 in their cells, and 0 in the others. */
  function RowSumsUpTo(c: CsrData, ts: seq<nat>, x: seq<int>, size: nat, n: nat): (prod: seq<int>)
    requires WellFormed(c, ts) && TailShape(ts) && |x| == TailSize(ts) && n <= Rows(c)
    ensures |prod| == size
  {
    seq(size, i requires 0 <= i < size =>
      if i < n then RowSum(c, ts, x, c.coalesc[i], c.coalesc[i + 1]) else 0)
  }

  /** The product's cells: the row sums, and 0 past the last row. */
  function RowSums(c: CsrData, ts: seq<nat>, x: seq<int>, size: nat): (prod: seq<int>)
    requires WellFormed(c, ts) && TailShape(ts) && |x| == TailSize(ts)
    ensures |prod| == size
  {
    RowSumsUpTo(c, ts, x, size, Rows(c))
  }

  /**
   * CSR-vector product `tensor_prod(prod, csr, dense)`: zero-fills prod over
   * the head index, then reduces each row to the sum of its stored values
   * times the dense cells their coordinates address (same last-row bound as
   * VecCsr).
   */
  method CsrVec(prod: array<int>, c: CsrData, dense: seq<int>, ts: seq<nat>)
    requires WellFormed(c, ts) && TailShape(ts) && |dense| == TailSize(ts) && Rows(c) <= prod.Length
    modifies prod
    ensures prod[..] == RowSums(c, ts, dense, prod.Length)
  {
    FillZero(prod);
    assert prod[..] == RowSumsUpTo(c, ts, dense, prod.Length, 0);
    for i := 0 to |c.coalesc| - 1
      invariant prod[..] == RowSumsUpTo(c, ts, dense, prod.Length, i)
    {
      var jBegin := c.coalesc[i];
      var jEnd := c.coalesc[i + 1];
      var lsum := 0;
      for j := jBegin to jEnd
        invariant lsum == RowSum(c, ts, dense, jBegin, j)
      {
        lsum := lsum + dense[TailPos(c, ts, j)] * c.values[j];
      }
      prod[i] := lsum;
      assert prod[..] == RowSumsUpTo(c, ts, dense, prod.Length, i + 1);
    }
  }

  // What the products compute on a CSR built from dense rows.

  /** acc plus a times the cells of r, on the first f cells only. */
  function AxpyPrefix(acc: seq<int>, a: int, r: seq<int>, f: nat): (acc': seq<int>)
    requires f <= |r| == |acc|
    ensures |acc'| == |acc|
  {
    seq(|acc|, t requires 0 <= t < |acc| => if t < f then acc[t] + a * r[t] else acc[t])
  }

  /** The dense vector-matrix product: the sum of the rows weighted by x. */
  function Combine(rows: seq<seq<int>>, x: seq<int>, p: nat): (acc: seq<int>)
    requires |rows| <= |x| && forall i :: 0 <= i < |rows| ==> |rows[i]| == p
    ensures |acc| == p
  {
    if |rows| == 0 then Zeros(p)
    else AxpyPrefix(Combine(rows[..|rows| - 1], x, p), x[|rows| - 1], rows[|rows| - 1], p)
  }

  /** The dense dot product of r with the first |r| cells of x. */
  function Dot(r: seq<int>, x: seq<int>): int
    requires |r| <= |x|
  {
    if |r| == 0 then 0 else Dot(r[..|r| - 1], x) + r[|r| - 1] * x[|r| - 1]
  }

  lemma {:induction false} AddEntriesExtends(acc: seq<int>, c': CsrData, c: CsrData, ts: seq<nat>, a: int, lo: nat, hi: nat)
    requires WellFormed(c, ts) && WellFormed(c', ts) && TailShape(ts) && Extends(c', c)
    requires lo <= hi <= |c.values| && |acc| == TailSize(ts)
    ensures AddEntries(acc, c', ts, a, lo, hi) == AddEntries(acc, c, ts, a, lo, hi)
    decreases hi - lo
  {
    if hi > lo {
      AddEntriesExtends(acc, c', c, ts, a, lo, hi - 1);
      ExtendsTailPos(c', c, ts, hi - 1);
    }
  }

  lemma {:induction false} AddRowsExtends(c': CsrData, c: CsrData, ts: seq<nat>, x: seq<int>, i: nat)
    requires WellFormed(c, ts) && WellFormed(c', ts) && TailShape(ts) && Extends(c', c)
    requires i <= Rows(c) && Rows(c') <= |x|
    ensures AddRows(c', ts, x, i) == AddRows(c, ts, x, i)
  {
    if i > 0 {
      AddRowsExtends(c', c, ts, x, i - 1);
      assert c'.coalesc[..|c.coalesc|][i - 1] == c'.coalesc[i - 1];
      assert c'.coalesc[..|c.coalesc|][i] == c'.coalesc[i];
      assert c.coalesc[i] <= Last(c.coalesc);
      AddEntriesExtends(AddRows(c, ts, x, i - 1), c', c, ts, x[i - 1], c.coalesc[i - 1], c.coalesc[i]);
    }
  }

  lemma {:induction false} RowSumExtends(c': CsrData, c: CsrData, ts: seq<nat>, x: seq<int>, lo: nat, hi: nat)
    requires WellFormed(c, ts) && WellFormed(c', ts) && TailShape(ts) && Extends(c', c)
    requires lo <= hi <= |c.values| && |x| == TailSize(ts)
    ensures RowSum(c', ts, x, lo, hi) == RowSum(c, ts, x, lo, hi)
    decreases hi - lo
  {
    if hi > lo {
      RowSumExtends(c', c, ts, x, lo, hi - 1);
      ExtendsTailPos(c', c, ts, hi - 1);
    }
  }

  /** Accumulating the entries that hold the nonzero cells of a prefix of r adds a times that prefix. */
  lemma {:induction false} AddPrefix(acc: seq<int>, c: CsrData, ts: seq<nat>, a: int, lo: nat, r: seq<int>, f: nat)
    requires WellFormed(c, ts) && TailShape(ts) && |r| == TailSize(ts) == |acc| && f <= |r|
    requires HoldsCells(c, ts, lo, r, NonzeroPositions(r))
    ensures lo + |NonzeroPositions(r[..f])| <= |c.values|
    ensures AddEntries(acc, c, ts, a, lo, lo + |NonzeroPositions(r[..f])|) == AxpyPrefix(acc, a, r, f)
  {
    assert lo + |NonzeroPositions(r[..f])| <= |c.values| by {
      NonzeroPositionsPrefix(r, f);
    }
    if f == 0 {
      assert r[..0] == [];
      assert NonzeroPositions(r[..0]) == [];
      assert AddEntries(acc, c, ts, a, lo, lo) == acc;
      assert AxpyPrefix(acc, a, r, 0) == acc;
    } else {
      AddPrefix(acc, c, ts, a, lo, r, f - 1);
      AddPrefixStep(acc, c, ts, a, lo, r, f);
    }
  }

  /** Adding the entry that holds cell f - 1 of r, if it is nonzero, extends the sum from f - 1 cells to f. */
  lemma AddPrefixStep(acc: seq<int>, c: CsrData, ts: seq<nat>, a: int, lo: nat, r: seq<int>, f: nat)
    requires WellFormed(c, ts) && TailShape(ts) && |r| == TailSize(ts) == |acc| && 1 <= f <= |r|
    requires HoldsCells(c, ts, lo, r, NonzeroPositions(r))
    requires lo + |NonzeroPositions(r[..f - 1])| <= |c.values|
    requires AddEntries(acc, c, ts, a, lo, lo + |NonzeroPositions(r[..f - 1])|) == AxpyPrefix(acc, a, r, f - 1)
    ensures lo + |NonzeroPositions(r[..f])| <= |c.values|
    ensures AddEntries(acc, c, ts, a, lo, lo + |NonzeroPositions(r[..f])|) == AxpyPrefix(acc, a, r, f)
  {
    var n := |NonzeroPositions(r[..f - 1])|;
    var w := AddEntries(acc, c, ts, a, lo, lo + n);
    if r[f - 1] != 0 {
      NextHeldCell(c, ts, lo, r, f);
      var w' := AddEntries(acc, c, ts, a, lo, lo + n + 1);
      assert w' == w[f - 1 := w[f - 1] + a * r[f - 1]];
      AxpyStep(w, w', acc, a, r, f);
    } else {
      assert |NonzeroPositions(r[..f])| == n by {
        NonzeroPositionsStep(r, f - 1);
      }
      AxpyStep(w, w, acc, a, r, f);
    }
  }

  lemma AddWholeRow(acc: seq<int>, c: CsrData, ts: seq<nat>, a: int, lo: nat, hi: nat, r: seq<int>)
    requires WellFormed(c, ts) && TailShape(ts) && |r| == TailSize(ts) == |acc|
    requires HoldsCells(c, ts, lo, r, NonzeroPositions(r)) && hi == lo + |NonzeroPositions(r)|
    ensures hi <= |c.values|
    ensures AddEntries(acc, c, ts, a, lo, hi) == AxpyPrefix(acc, a, r, |r|)
  {
    AddPrefix(acc, c, ts, a, lo, r, |r|);
    assert r[..|r|] == r;
  }

  lemma AxpyStep(w: seq<int>, w': seq<int>, acc: seq<int>, a: int, r: seq<int>, f: nat)
    requires 1 <= f <= |r| == |acc|
    requires w == AxpyPrefix(acc, a, r, f - 1)
    requires w' == w[f - 1 := w[f - 1] + a * r[f - 1]] || (w' == w && r[f - 1] == 0)
    ensures w' == AxpyPrefix(acc, a, r, f)
  {
  }

  /** The dot product over a prefix of r. */
  lemma {:induction false} RowSumPrefix(c: CsrData, ts: seq<nat>, x: seq<int>, lo: nat, r: seq<int>, f: nat)
    requires WellFormed(c, ts) && TailShape(ts) && |r| == TailSize(ts) == |x| && f <= |r|
    requires HoldsCells(c, ts, lo, r, NonzeroPositions(r))
    ensures lo + |NonzeroPositions(r[..f])| <= |c.values|
    ensures RowSum(c, ts, x, lo, lo + |NonzeroPositions(r[..f])|) == Dot(r[..f], x)
  {
    assert lo + |NonzeroPositions(r[..f])| <= |c.values| by {
      NonzeroPositionsPrefix(r, f);
    }
    if f == 0 {
      assert r[..0] == [];
      assert NonzeroPositions(r[..0]) == [];
      assert RowSum(c, ts, x, lo, lo) == 0 == Dot(r[..0], x);
    } else {
      RowSumPrefix(c, ts, x, lo, r, f - 1);
      RowSumPrefixStep(c, ts, x, lo, r, f);
    }
  }

  /** The entry that holds cell f - 1 of r, if it is nonzero, extends the dot product from f - 1 cells to f. */
  lemma RowSumPrefixStep(c: CsrData, ts: seq<nat>, x: seq<int>, lo: nat, r: seq<int>, f: nat)
    requires WellFormed(c, ts) && TailShape(ts) && |r| == TailSize(ts) == |x| && 1 <= f <= |r|
    requires HoldsCells(c, ts, lo, r, NonzeroPositions(r))
    requires lo + |NonzeroPositions(r[..f - 1])| <= |c.values|
    requires RowSum(c, ts, x, lo, lo + |NonzeroPositions(r[..f - 1])|) == Dot(r[..f - 1], x)
    ensures lo + |NonzeroPositions(r[..f])| <= |c.values|
    ensures RowSum(c, ts, x, lo, lo + |NonzeroPositions(r[..f])|) == Dot(r[..f], x)
  {
    var n := |NonzeroPositions(r[..f - 1])|;
    assert Dot(r[..f], x) == Dot(r[..f - 1], x) + r[f - 1] * x[f - 1] by {
      assert r[..f][..f - 1] == r[..f - 1];
    }
    if r[f - 1] != 0 {
      NextHeldCell(c, ts, lo, r, f);
      assert RowSum(c, ts, x, lo, lo + n + 1) == RowSum(c, ts, x, lo, lo + n) + x[f - 1] * r[f - 1];
    } else {
      assert |NonzeroPositions(r[..f])| == n by {
        NonzeroPositionsStep(r, f - 1);
      }
    }
  }

  /** The vector-CSR product of a CSR built from dense rows is the dense vector-matrix product. */
  lemma {:induction false} VecCsrFromRows(ts: seq<nat>, rows: seq<seq<int>>, x: seq<int>)
    requires TailShape(ts) && forall i :: 0 <= i < |rows| ==> |rows[i]| == TailSize(ts)
    requires |rows| <= |x|
    ensures AddRows(FromRows(ts, rows), ts, x, |rows|) == Combine(rows, x, TailSize(ts))
  {
    if |rows| > 0 {
      var m := |rows| - 1;
      var front := rows[..m];
      var r := rows[m];
      var c := FromRows(ts, front);
      var c' := FromRows(ts, rows);
      assert c' == PushRow(c, ts, r);
      VecCsrFromRows(ts, front, x);
      AddRowsExtends(c', c, ts, x, m);
      PushRowHoldsCells(c, ts, r);
      var lo := c'.coalesc[m];
      var hi := c'.coalesc[m + 1];
      assert lo == |c.values| by {
        assert c'.coalesc[..|c.coalesc|][m] == c'.coalesc[m];
      }
      var acc := AddRows(c, ts, x, m);
      assert acc == Combine(front, x, TailSize(ts));
      AddWholeRow(acc, c', ts, x[m], lo, hi, r);
      assert AddRows(c', ts, x, m + 1) == AddEntries(AddRows(c', ts, x, m), c', ts, x[m], lo, hi);
      assert AddRows(c', ts, x, m + 1) == AxpyPrefix(acc, x[m], r, |r|);
    }
  }

  /** Each row sum of a CSR built from dense rows is the dot product of that row with the vector. */
  lemma {:induction false} CsrVecFromRows(ts: seq<nat>, rows: seq<seq<int>>, x: seq<int>, i: nat)
    requires TailShape(ts) && forall k :: 0 <= k < |rows| ==> |rows[k]| == TailSize(ts)
    requires |x| == TailSize(ts) && i < |rows|
    ensures var c := FromRows(ts, rows);
      RowSum(c, ts, x, c.coalesc[i], c.coalesc[i + 1]) == Dot(rows[i], x)
  {
    var m := |rows| - 1;
    var front := rows[..m];
    var c := FromRows(ts, front);
    assert FromRows(ts, rows) == PushRow(c, ts, rows[m]);
    if i < m {
      CsrVecFromRows(ts, front, x, i);
      RowSumEarlierRow(c, ts, rows[m], x, i);
    } else {
      RowSumLastRow(c, ts, rows[m], x);
    }
  }

  /** Pushing a row leaves the sums of the earlier rows as they were. */
  lemma RowSumEarlierRow(c: CsrData, ts: seq<nat>, r: seq<int>, x: seq<int>, i: nat)
    requires WellFormed(c, ts) && TailShape(ts) && |r| == TailSize(ts) == |x| && i < Rows(c)
    ensures var c' := PushRow(c, ts, r);
      RowSum(c', ts, x, c'.coalesc[i], c'.coalesc[i + 1]) == RowSum(c, ts, x, c.coalesc[i], c.coalesc[i + 1])
  {
    var c' := PushRow(c, ts, r);
    assert c'.coalesc[..|c.coalesc|][i] == c'.coalesc[i];
    assert c'.coalesc[..|c.coalesc|][i + 1] == c'.coalesc[i + 1];
    assert c.coalesc[i + 1] <= Last(c.coalesc);
    RowSumExtends(c', c, ts, x, c.coalesc[i], c.coalesc[i + 1]);
  }

  /** The sum of a pushed row is its dot product with the vector. */
  lemma RowSumLastRow(c: CsrData, ts: seq<nat>, r: seq<int>, x: seq<int>)
    requires WellFormed(c, ts) && TailShape(ts) && |r| == TailSize(ts) == |x|
    ensures var c' := PushRow(c, ts, r);
      RowSum(c', ts, x, c'.coalesc[Rows(c)], c'.coalesc[Rows(c) + 1]) == Dot(r, x)
  {
    var c' := PushRow(c, ts, r);
    var m := Rows(c);
    var lo := c'.coalesc[m];
    var hi := c'.coalesc[m + 1];
    assert lo == |c.values| && hi == lo + |NonzeroPositions(r)| by {
      assert c'.coalesc[..|c.coalesc|][m] == c'.coalesc[m];
    }
    assert HoldsCells(c', ts, lo, r, NonzeroPositions(r)) by {
      PushRowHoldsCells(c, ts, r);
    }
    RowSumWholeRow(c', ts, x, lo, hi, r);
  }

  lemma RowSumWholeRow(c: CsrData, ts: seq<nat>, x: seq<int>, lo: nat, hi: nat, r: seq<int>)
    requires WellFormed(c, ts) && TailShape(ts) && |r| == TailSize(ts) == |x|
    requires HoldsCells(c, ts, lo, r, NonzeroPositions(r)) && hi == lo + |NonzeroPositions(r)|
    ensures hi <= |c.values|
    ensures RowSum(c, ts, x, lo, hi) == Dot(r, x)
  {
    RowSumPrefix(c, ts, x, lo, r, |r|);
    assert r[..|r|] == r;
  }

  // The tensor of the CSR tests: three indices over the values X, Y, Z, with
  // XXY = 1, XZY = 2, YXX = 3, YXZ = 4, YZZ = 5, ZXZ = 6, ZYY = 7, ZXY = 8 and
  // ZZZ = 9, one dense row of nine cells per value of the first index.

  function TestRows(): seq<seq<int>>
  {
    [[0, 1, 0, 0, 0, 0, 0, 2, 0],
     [3, 0, 4, 0, 0, 0, 0, 0, 5],
     [0, 8, 6, 0, 7, 0, 0, 0, 9]]
  }

  lemma TestShape()
    ensures TailShape([3, 3]) && TailSize([3, 3]) == 9
    ensures forall i :: 0 <= i < |TestRows()| ==> |TestRows()[i]| == TailSize([3, 3])
  {
    assert Product([3, 3]) == 9;
  }

  /** csr2dense after pushing the three rows of the test tensor gives the tensor back. */
  lemma Csr2DenseOfTestTensor(ts: seq<nat>, rows: seq<seq<int>>)
    requires ts == [3, 3] && rows == TestRows()
    ensures TailShape(ts) && forall i :: 0 <= i < |rows| ==> |rows[i]| == TailSize(ts)
    ensures BlockStart(Rows(FromRows(ts, rows)), TailSize(ts)) <= 27
    ensures Scatter(FromRows(ts, rows), ts, 27)
      == [0, 1, 0, 0, 0, 0, 0, 2, 0, 3, 0, 4, 0, 0, 0, 0, 0, 5, 0, 8, 6, 0, 7, 0, 0, 0, 9]
  {
    TestShape();
    assert BlockStart(|rows|, TailSize(ts)) == 27;
    ScatterFromRows(ts, rows, 27);
    TestRowsFlattened(rows);
    assert Zeros(0) == [];
  }

  /** The three test rows one after the other. */
  lemma TestRowsFlattened(rows: seq<seq<int>>)
    requires rows == TestRows()
    ensures Flatten(rows) == [0, 1, 0, 0, 0, 0, 0, 2, 0, 3, 0, 4, 0, 0, 0, 0, 0, 5, 0, 8, 6, 0, 7, 0, 0, 0, 9]
  {
    assert rows[..2][..1][..0] == [];
    assert Flatten(rows[..1]) == rows[0];
    assert Flatten(rows[..2]) == rows[0] + rows[1];
  }

  /** csr * ones over the test tensor: the rows sum to 3, 12 and 30. */
  lemma RowSumsOfTestTensor(ts: seq<nat>, rows: seq<seq<int>>, ones: seq<int>)
    requires ts == [3, 3] && rows == TestRows() && ones == [1, 1, 1, 1, 1, 1, 1, 1, 1]
    ensures TailShape(ts) && forall i :: 0 <= i < |rows| ==> |rows[i]| == TailSize(ts)
    ensures Rows(FromRows(ts, rows)) == 3
    ensures RowSums(FromRows(ts, rows), ts, ones, 3) == [3, 12, 30]
  {
    TestShape();
    var c := FromRows(ts, rows);
    forall i | 0 <= i < 3
      ensures RowSum(c, ts, ones, c.coalesc[i], c.coalesc[i + 1]) == Dot(rows[i], ones)
    {
      CsrVecFromRows(ts, rows, ones, i);
    }
    DotOfOnes(rows[0], ones);
    DotOfOnes(rows[1], ones);
    DotOfOnes(rows[2], ones);
  }

  /** ones * csr over the test tensor: the column sums of the rows. */
  lemma AddRowsOfTestTensor(ts: seq<nat>, rows: seq<seq<int>>, ones: seq<int>)
    requires ts == [3, 3] && rows == TestRows() && ones == [1, 1, 1]
    ensures TailShape(ts) && forall i :: 0 <= i < |rows| ==> |rows[i]| == TailSize(ts)
    ensures Rows(FromRows(ts, rows)) == 3
    ensures AddRows(FromRows(ts, rows), ts, ones, 3) == [3, 9, 10, 0, 7, 0, 0, 2, 14]
  {
    TestShape();
    VecCsrFromRows(ts, rows, ones);
    CombineOfTestRows(rows, ones);
  }

  /** Against a vector of ones, the dot product of a nine-cell row is the sum of its cells. */
  lemma DotOfOnes(r: seq<int>, ones: seq<int>)
    requires |r| == 9 && ones == [1, 1, 1, 1, 1, 1, 1, 1, 1]
    ensures Dot(r, ones) == r[0] + r[1] + r[2] + r[3] + r[4] + r[5] + r[6] + r[7] + r[8]
  {
    assert Dot(r[..1], ones) == r[0];
    assert Dot(r[..2], ones) == r[0] + r[1] by { assert r[..2][..1] == r[..1]; }
    assert Dot(r[..3], ones) == r[0] + r[1] + r[2] by { assert r[..3][..2] == r[..2]; }
    assert Dot(r[..4], ones) == r[0] + r[1] + r[2] + r[3] by { assert r[..4][..3] == r[..3]; }
    assert Dot(r[..5], ones) == r[0] + r[1] + r[2] + r[3] + r[4] by { assert r[..5][..4] == r[..4]; }
    assert Dot(r[..6], ones) == r[0] + r[1] + r[2] + r[3] + r[4] + r[5] by { assert r[..6][..5] == r[..5]; }
    assert Dot(r[..7], ones) == r[0] + r[1] + r[2] + r[3] + r[4] + r[5] + r[6] by { assert r[..7][..6] == r[..6]; }
    assert Dot(r[..8], ones) == r[0] + r[1] + r[2] + r[3] + r[4] + r[5] + r[6] + r[7] by { assert r[..8][..7] == r[..7]; }
    assert r[..9] == r;
    assert r[..9][..8] == r[..8];
  }

  /** The column sums of the test rows. */
  lemma CombineOfTestRows(rows: seq<seq<int>>, ones: seq<int>)
    requires rows == TestRows() && ones == [1, 1, 1]
    ensures Combine(rows, ones, 9) == [3, 9, 10, 0, 7, 0, 0, 2, 14]
  {
    assert rows[..2][..1][..0] == [];
    assert Combine(rows[..1], ones, 9) == [0, 1, 0, 0, 0, 0, 0, 2, 0];
    assert Combine(rows[..2], ones, 9) == [3, 1, 4, 0, 0, 0, 0, 2, 5] by {
      assert rows[..2][..1] == rows[..1];
    }
    assert rows[..3] == rows;
  }
}
