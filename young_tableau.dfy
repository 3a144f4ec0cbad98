// Young tableaux as sequences of rows of cell values, and the compile-time
// recursions the library runs over them: the rank, rows extracted, replaced
// and extended, the dual (conjugate) tableau, the hooks, the hook lengths and
// the dimension of the irreducible representation by the hook-content formula.
module YoungTableau {
  import opened Arith

  type Row = seq<nat>
  type Tableau = seq<Row>

  /** Every row holds at least one cell. */
  predicate NonemptyRows(t: Tableau)
  {
    forall i :: 0 <= i < |t| ==> |t[i]| >= 1
  }

  /** Every row length is a std::size_t (a parameter pack size). */
  predicate RowsFit(t: Tableau)
  {
    forall k :: 0 <= k < |t| ==> |t[k]| < SIZE_MOD
  }

  /** A Young diagram: nonempty rows of non-increasing lengths. */
  predicate YoungShape(t: Tableau)
  {
    NonemptyRows(t) && forall i, j :: 0 <= i <= j < |t| ==> |t[j]| <= |t[i]|
  }

  /** `YoungTableauSeq::rank`: the sum of the row lengths. */
  function Rank(t: Tableau): nat
  {
    if |t| == 0 then 0 else |t[0]| + Rank(t[1..])
  }

  // Rows extracted, replaced and extended.

  /** `ExtractRow<I, Id, ...>`: walks the rows counting from id; the empty row once they run out. */
  function ExtractRowFrom(i: nat, id: nat, t: Tableau): Row
    decreases |t|
  {
    if |t| == 0 then [] else if i == id then t[0] else ExtractRowFrom(i, id + 1, t[1..])
  }

  /** `extract_row_t<I, T>`. */
  function ExtractRow(t: Tableau, i: nat): Row
  {
    ExtractRowFrom(i, 0, t)
  }

  lemma {:induction false} ExtractRowFromIs(i: nat, id: nat, t: Tableau)
    requires id <= i
    ensures ExtractRowFrom(i, id, t) == if i - id < |t| then t[i - id] else []
    decreases |t|
  {
    if |t| > 0 && i != id {
      ExtractRowFromIs(i, id + 1, t[1..]);
    }
  }

  /** Row i of the tableau, or the empty row past the last one. */
  lemma ExtractRowIs(t: Tableau, i: nat)
    ensures ExtractRow(t, i) == if i < |t| then t[i] else []
  {
    ExtractRowFromIs(i, 0, t);
  }

  /**
   * `OverrideRow<I, Id, RowToSet, Head, Interest, Tail>`: the rows before the
   * one of interest, that row, and the rows after it. The row of interest is
   * replaced when its position is I, and also when it is the last row.
   */
  function OverrideRowFrom(i: nat, id: nat, row: Row, head: Tableau, interest: Row, tail: Tableau): (r: Tableau)
    ensures |r| == |head| + 1 + |tail|
    decreases |tail|
  {
    if |tail| == 0 then head + [row]
    else if i == id then head + [row] + tail
    else OverrideRowFrom(i, id + 1, row, head + [interest], tail[0], tail[1..])
  }

  /** `override_row_t<I, RowToSet, T>`, defined for tableaux with at least one row. */
  function OverrideRow(t: Tableau, i: nat, row: Row): Tableau
    requires |t| >= 1
  {
    OverrideRowFrom(i, 0, row, [], t[0], t[1..])
  }

  lemma {:induction false} OverrideRowFromIs(i: nat, id: nat, row: Row, head: Tableau, interest: Row, tail: Tableau)
    requires id <= i && |head| == id
    ensures OverrideRowFrom(i, id, row, head, interest, tail)
      == (head + [interest] + tail)[if i - id < |tail| then i else id + |tail| := row]
    decreases |tail|
  {
    if |tail| > 0 && i != id {
      OverrideRowFromIs(i, id + 1, row, head + [interest], tail[0], tail[1..]);
      assert head + [interest] + [tail[0]] + tail[1..] == head + [interest] + tail;
    }
  }

  /** Row i is replaced; past the last row, the last row is replaced. */
  lemma OverrideRowIs(t: Tableau, i: nat, row: Row)
    requires |t| >= 1
    ensures OverrideRow(t, i, row) == t[if i < |t| then i else |t| - 1 := row]
  {
    OverrideRowFromIs(i, 0, row, [], t[0], t[1..]);
    assert [] + [t[0]] + t[1..] == t;
  }

  /** `add_cell_to_tableau_t<T, I, Value>`: the row I with one more cell Value put back in place of row I. */
  function AddCell(t: Tableau, i: nat, v: nat): (r: Tableau)
    requires |t| >= 1
    ensures |r| == |t|
  {
    OverrideRow(t, i, ExtractRow(t, i) + [v])
  }

  /**
   * Adding a cell to an existing row appends it to that row. Past the last
   * row, the last row is replaced by the single new cell.
   */
  lemma AddCellIs(t: Tableau, i: nat, v: nat)
    requires |t| >= 1
    ensures i < |t| ==> AddCell(t, i, v) == t[i := t[i] + [v]]
    ensures i >= |t| ==> AddCell(t, i, v) == t[|t| - 1 := [v]]
  {
    ExtractRowIs(t, i);
    OverrideRowIs(t, i, ExtractRow(t, i) + [v]);
    if i >= |t| {
      assert ExtractRow(t, i) + [v] == [v];
    }
  }

  // The dual tableau.

  /** Column c: the cell c of each row long enough, from the first row down. */
  function Column(t: Tableau, c: nat): Row
  {
    if |t| == 0 then [] else (if c < |t[0]| then [t[0][c]] else []) + Column(t[1..], c)
  }

  /** The rows still to visit, the first one from column j on, as a measure. */
  function WalkSize(rows: Tableau): nat
  {
    if |rows| == 0 then 0 else |rows[0]|
  }

  /**
   * `Dual<TableauDual, Tableau, I, J>`: visits the cells in row-major order
   * and appends the value of the cell in column J to row J of the dual. An
   * empty row stops the walk with the empty tableau.
   */
  function DualWalk(acc: Tableau, rows: Tableau, j: nat): Tableau
    requires |acc| >= 1 || WalkSize(rows) == 0
    decreases |rows|, WalkSize(rows)
  {
    if |rows| == 0 then acc
    else if |rows[0]| == 0 then []
    else
      var acc' := AddCell(acc, j, rows[0][0]);
      if |rows| == 1 && |rows[0]| == 1 then acc'
      else if |rows[0]| == 1 then DualWalk(acc', rows[1..], 0)
      else DualWalk(acc', [rows[0][1..]] + rows[1..], j + 1)
  }

  /** n rows without cells, the start of every walk that builds a tableau. */
  function EmptyRows(n: nat): (r: Tableau)
    ensures |r| == n
  {
    seq(n, _ => [])
  }

  /** `dual_t<T>`: the walk from one empty dual row per cell of the first row. */
  function Dual(t: Tableau): Tableau
  {
    if |t| == 0 then [] else DualWalk(EmptyRows(|t[0]|), t, 0)
  }

  /** What the walk still adds to dual row c: the head row from column j on, then whole rows. */
  function DualPart(rows: Tableau, j: nat, c: nat): Row
  {
    if |rows| == 0 then []
    else (if j <= c < j + |rows[0]| then [rows[0][c - j]] else []) + Column(rows[1..], c)
  }

  /** Every row fits the dual rows: the head row from column j, the others from column 0. */
  predicate WalkFits(rows: Tableau, j: nat, width: nat)
  {
    NonemptyRows(rows)
    && (|rows| > 0 ==> j + |rows[0]| <= width)
    && forall k :: 1 <= k < |rows| ==> |rows[k]| <= width
  }

  /** Adding the cell x to dual row j, then the rest of the walk. */
  function AddToRow(acc: Tableau, j: nat, x: nat, c: nat): Row
    requires c < |acc|
  {
    acc[c] + (if c == j then [x] else [])
  }

  lemma AddCellPointwise(acc: Tableau, j: nat, x: nat)
    requires j < |acc|
    ensures AddCell(acc, j, x) == seq(|acc|, c requires 0 <= c < |acc| => AddToRow(acc, j, x, c))
  {
    AddCellIs(acc, j, x);
    var r := AddCell(acc, j, x);
    forall c | 0 <= c < |acc|
      ensures r[c] == AddToRow(acc, j, x, c)
    {
    }
  }

  /** The dual rows once the walk is done: each row gets what is left of its column. */
  function DualSpec(acc: Tableau, rows: Tableau, j: nat): (r: Tableau)
    ensures |r| == |acc|
  {
    seq(|acc|, c requires 0 <= c < |acc| => acc[c] + DualPart(rows, j, c))
  }

  /** Nothing left to walk: the accumulated rows are the result. */
  lemma DualSpecDone(acc: Tableau, j: nat)
    ensures DualSpec(acc, [], j) == acc
  {
    forall c | 0 <= c < |acc|
      ensures DualSpec(acc, [], j)[c] == acc[c]
    {
      assert DualPart([], j, c) == [];
    }
  }

  /** Moving the last cell of the head row into dual row j, the walk goes on with the next row from column 0. */
  lemma DualSpecLastCell(acc: Tableau, rows: Tableau, j: nat)
    requires |rows| >= 1 && |rows[0]| == 1 && j < |acc|
    ensures DualSpec(AddCell(acc, j, rows[0][0]), rows[1..], 0) == DualSpec(acc, rows, j)
  {
    var x := rows[0][0];
    var acc' := AddCell(acc, j, x);
    AddCellPointwise(acc, j, x);
    var rest := rows[1..];
    forall c | 0 <= c < |acc|
      ensures DualSpec(acc', rest, 0)[c] == DualSpec(acc, rows, j)[c]
    {
      assert DualPart(rows, j, c) == (if c == j then [x] else []) + Column(rest, c);
      assert acc'[c] == AddToRow(acc, j, x, c);
      if |rest| == 0 {
        assert Column(rest, c) == [] == DualPart(rest, 0, c);
      }
    }
  }

  /** Column c of what is left after the first cell of the head row, with that cell put back. */
  lemma DualPartNext(rows: Tableau, j: nat, c: nat)
    requires |rows| >= 1 && |rows[0]| >= 2
    ensures DualPart(rows, j, c) == (if c == j then [rows[0][0]] else []) + DualPart([rows[0][1..]] + rows[1..], j + 1, c)
  {
    var rows' := [rows[0][1..]] + rows[1..];
    assert rows'[1..] == rows[1..];
    var tail := Column(rows[1..], c);
    assert DualPart(rows', j + 1, c) == (if j + 1 <= c < j + |rows[0]| then [rows[0][c - j]] else []) + tail;
    assert DualPart(rows, j, c) == (if j <= c < j + |rows[0]| then [rows[0][c - j]] else []) + tail;
  }

  /** Moving the first of several cells of the head row into dual row j, the walk goes on from column j + 1. */
  lemma DualSpecNextCell(acc: Tableau, rows: Tableau, j: nat)
    requires |rows| >= 1 && |rows[0]| >= 2 && j < |acc|
    ensures DualSpec(AddCell(acc, j, rows[0][0]), [rows[0][1..]] + rows[1..], j + 1) == DualSpec(acc, rows, j)
  {
    var x := rows[0][0];
    var acc' := AddCell(acc, j, x);
    AddCellPointwise(acc, j, x);
    var rows' := [rows[0][1..]] + rows[1..];
    assert rows'[1..] == rows[1..];
    forall c | 0 <= c < |acc|
      ensures DualSpec(acc', rows', j + 1)[c] == DualSpec(acc, rows, j)[c]
    {
      DualPartNext(rows, j, c);
      assert acc'[c] == AddToRow(acc, j, x, c);
    }
  }

  /** The walk appends to each dual row what is left of its column. */
  lemma {:induction false} DualWalkColumns(acc: Tableau, rows: Tableau, j: nat)
    requires |acc| >= 1 && WalkFits(rows, j, |acc|)
    ensures DualWalk(acc, rows, j) == DualSpec(acc, rows, j)
    decreases |rows|, WalkSize(rows)
  {
    if |rows| == 0 {
      DualSpecDone(acc, j);
    } else {
      assert |rows[0]| >= 1;
      var acc' := AddCell(acc, j, rows[0][0]);
      if |rows[0]| == 1 {
        DualSpecLastCell(acc, rows, j);
        if |rows| == 1 {
          DualSpecDone(acc', 0);
        } else {
          DualWalkColumns(acc', rows[1..], 0);
        }
      } else {
        var rows' := [rows[0][1..]] + rows[1..];
        DualSpecNextCell(acc, rows, j);
        assert rows'[1..] == rows[1..];
        DualWalkColumns(acc', rows', j + 1);
      }
    }
  }

  /** The dual is the transpose: row c of the dual is column c of the tableau, for every column of the first row. */
  lemma DualIsTranspose(t: Tableau)
    requires |t| >= 1 && NonemptyRows(t) && forall k :: 0 <= k < |t| ==> |t[k]| <= |t[0]|
    ensures Dual(t) == seq(|t[0]|, c requires 0 <= c < |t[0]| => Column(t, c))
  {
    var acc := EmptyRows(|t[0]|);
    DualWalkColumns(acc, t, 0);
    forall c | 0 <= c < |t[0]|
      ensures DualSpec(acc, t, 0)[c] == Column(t, c)
    {
    }
  }

  // The dual of a Young diagram.

  /** The rows of u and v have the same lengths. */
  predicate SameShape(u: Tableau, v: Tableau)
  {
    |u| == |v| && forall k :: 0 <= k < |u| ==> |u[k]| == |v[k]|
  }

  /**
   * In a Young diagram, column c holds the cell c of the leading rows longer
   * than c, in row order: its entry i is t[i][c], and row i reaches it exactly
   * when row i is longer than c.
   */
  lemma {:induction false} ColumnOfYoung(t: Tableau, c: nat)
    requires YoungShape(t)
    ensures |Column(t, c)| <= |t|
    ensures forall i :: 0 <= i < |t| ==> (i < |Column(t, c)| <==> c < |t[i]|)
    ensures forall i :: 0 <= i < |Column(t, c)| ==> Column(t, c)[i] == t[i][c]
  {
    if |t| > 0 {
      var rest := t[1..];
      assert YoungShape(rest) by {
        forall i, j | 0 <= i <= j < |rest|
          ensures |rest[j]| <= |rest[i]|
        {
          assert rest[i] == t[i + 1] && rest[j] == t[j + 1];
        }
      }
      ColumnOfYoung(rest, c);
      var col := Column(rest, c);
      if c < |t[0]| {
        assert Column(t, c) == [t[0][c]] + col;
        forall i | 1 <= i < |t|
          ensures (i < |Column(t, c)| <==> c < |t[i]|)
        {
          assert t[i] == rest[i - 1];
        }
      } else {
        assert Column(t, c) == [];
      }
    }
  }

  /** Column c of a Young diagram reaches down to every row longer than c. */
  function ColumnHeight(t: Tableau, c: nat): (h: nat)
    requires YoungShape(t)
    ensures h <= |t|
    ensures forall i :: 0 <= i < |t| ==> (i < h <==> c < |t[i]|)
  {
    ColumnOfYoung(t, c);
    |Column(t, c)|
  }

  /**
   * A tableau u shaped like the dual of a Young diagram t is transposed by
   * the dual walk onto the shape of t: row k of Dual(u) holds u[m][k] in
   * column m.
   */
  lemma DualOfDualShape(t: Tableau, u: Tableau)
    requires |t| >= 1 && YoungShape(t) && SameShape(u, Dual(t))
    ensures SameShape(Dual(u), t)
    ensures forall k, m :: 0 <= k < |t| && 0 <= m < |t[k]| ==> m < |u| && k < |u[m]| && Dual(u)[k][m] == u[m][k]
  {
    DualIsTranspose(t);
    var d := Dual(t);
    assert |u| == |t[0]| >= 1;
    forall c | 0 <= c < |u|
      ensures |u[c]| == ColumnHeight(t, c)
    {
      assert d[c] == Column(t, c);
    }
    assert YoungShape(u) by {
      forall a, b | 0 <= a <= b < |u|
        ensures |u[b]| <= |u[a]|
      {
        var hb := ColumnHeight(t, b);
        if hb > 0 {
          assert b < |t[hb - 1]|;
          var ha := ColumnHeight(t, a);
        }
      }
      forall a | 0 <= a < |u|
        ensures |u[a]| >= 1
      {
        var h := ColumnHeight(t, a);
        assert a < |t[0]|;
      }
    }
    assert |u[0]| == |t| by {
      var h := ColumnHeight(t, 0);
      assert 0 < |t[|t| - 1]|;
    }
    assert forall k :: 0 <= k < |u| ==> |u[k]| <= |u[0]|;
    DualIsTranspose(u);
    forall k | 0 <= k < |t|
      ensures |Dual(u)[k]| == |t[k]|
      ensures forall m :: 0 <= m < |t[k]| ==> m < |u| && k < |u[m]| && Dual(u)[k][m] == u[m][k]
    {
      var hk := ColumnHeight(u, k);
      assert Dual(u)[k] == Column(u, k);
      ColumnOfYoung(u, k);
      assert |t[k]| <= |t[0]| == |u|;
      // The shorter of the two lengths is a column where they would disagree.
      var m := if hk < |t[k]| then hk else |t[k]|;
      if m < |u| {
        var hm := ColumnHeight(t, m);
      }
      forall m | 0 <= m < |t[k]|
        ensures m < |u| && k < |u[m]| && Dual(u)[k][m] == u[m][k]
      {
      }
    }
  }

  /** The dual of a Young diagram is a Young diagram, of the transposed shape, and taking it twice gives the tableau back. */
  lemma DualDual(t: Tableau)
    requires YoungShape(t)
    ensures YoungShape(Dual(t))
    ensures Dual(Dual(t)) == t
  {
    if |t| >= 1 {
      var d := Dual(t);
      DualIsTranspose(t);
      DualOfDualShape(t, d);
      forall k | 0 <= k < |t|
        ensures Dual(d)[k] == t[k]
      {
        forall m | 0 <= m < |t[k]|
          ensures Dual(d)[k][m] == t[k][m]
        {
          ColumnOfYoung(t, m);
          assert d[m] == Column(t, m);
        }
      }
      assert YoungShape(d) by {
        forall a, b | 0 <= a <= b < |d|
          ensures |d[b]| <= |d[a]|
        {
          assert d[a] == Column(t, a) && d[b] == Column(t, b);
          var hb := ColumnHeight(t, b);
          var ha := ColumnHeight(t, a);
          if hb > 0 {
            assert b < |t[hb - 1]|;
          }
        }
        forall a | 0 <= a < |d|
          ensures |d[a]| >= 1
        {
          assert d[a] == Column(t, a);
          var h := ColumnHeight(t, a);
        }
      }
    }
  }

  // The number of cells through the dual walk.

  lemma {:induction false} RankUpdate(t: Tableau, i: nat, r: Row)
    requires i < |t|
    ensures Rank(t[i := r]) + |t[i]| == Rank(t) + |r|
  {
    if i > 0 {
      RankUpdate(t[1..], i - 1, r);
      assert t[i := r][1..] == t[1..][i - 1 := r];
    }
  }

  lemma {:induction false} RankOfEmptyRows(n: nat)
    ensures Rank(EmptyRows(n)) == 0
  {
    if n > 0 {
      RankOfEmptyRows(n - 1);
      assert EmptyRows(n)[1..] == EmptyRows(n - 1);
    }
  }

  /** Every step of the dual walk moves one cell. */
  lemma {:induction false} DualWalkRank(acc: Tableau, rows: Tableau, j: nat)
    requires |acc| >= 1 && WalkFits(rows, j, |acc|)
    ensures Rank(DualWalk(acc, rows, j)) == Rank(acc) + Rank(rows)
    decreases |rows|, WalkSize(rows)
  {
    if |rows| > 0 {
      assert |rows[0]| >= 1;
      var acc' := AddCell(acc, j, rows[0][0]);
      assert Rank(acc') == Rank(acc) + 1 by {
        AddCellIs(acc, j, rows[0][0]);
        RankUpdate(acc, j, acc[j] + [rows[0][0]]);
      }
      if |rows[0]| == 1 {
        if |rows| > 1 {
          DualWalkRank(acc', rows[1..], 0);
        } else {
          assert Rank(rows[1..]) == 0;
        }
      } else {
        var rows' := [rows[0][1..]] + rows[1..];
        assert rows'[1..] == rows[1..];
        DualWalkRank(acc', rows', j + 1);
      }
    }
  }

  /** `dual::rank`: the dual holds as many cells as the tableau. */
  lemma DualRank(t: Tableau)
    requires |t| >= 1 && NonemptyRows(t) && forall k :: 0 <= k < |t| ==> |t[k]| <= |t[0]|
    ensures Rank(Dual(t)) == Rank(t)
  {
    RankOfEmptyRows(|t[0]|);
    DualWalkRank(EmptyRows(|t[0]|), t, 0);
  }

  // Hooks.

  /** `shape`: the row lengths. */
  function Shape(t: Tableau): (sizes: seq<nat>)
    ensures |sizes| == |t| && forall k :: 0 <= k < |t| ==> sizes[k] == |t[k]|
  {
    seq(|t|, k requires 0 <= k < |t| => |t[k]|)
  }

  /** What the walk writes for the n cells of a row of the given size, from column j on: the size minus the column, in std::size_t. */
  function HookRow(size: nat, j: nat, n: nat): (r: Row)
    ensures |r| == n
  {
    seq(n, m => SizeT(size - (j + m)))
  }

  /**
   * `Hooks<TableauHooks, Tableau, Shape, I, J>`: visits the cells in
   * row-major order alongside the row sizes and appends HeadRowSize - J to
   * row I. An empty row stops the walk with the empty tableau.
   */
  function HooksWalk(acc: Tableau, rows: Tableau, sizes: seq<nat>, i: nat, j: nat): Tableau
    requires |sizes| == |rows| && (|acc| >= 1 || WalkSize(rows) == 0)
    decreases |rows|, WalkSize(rows)
  {
    if |rows| == 0 then acc
    else if |rows[0]| == 0 then []
    else
      var acc' := AddCell(acc, i, SizeT(sizes[0] - j));
      if |rows| == 1 && |rows[0]| == 1 then acc'
      else if |rows[0]| == 1 then HooksWalk(acc', rows[1..], sizes[1..], i + 1, 0)
      else HooksWalk(acc', [rows[0][1..]] + rows[1..], sizes, i, j + 1)
  }

  /** `hooks_t<T>`: the walk from one empty row per row of the tableau. */
  function Hooks(t: Tableau): Tableau
  {
    if |t| == 0 then [] else HooksWalk(EmptyRows(|t|), t, Shape(t), 0, 0)
  }

  /** What the walk still appends to row k: the rest of row i from column j on, then whole rows. */
  function HooksPart(rows: Tableau, sizes: seq<nat>, i: nat, j: nat, k: nat): Row
    requires |sizes| == |rows|
    decreases |rows|
  {
    if |rows| == 0 || k < i then []
    else if k == i then HookRow(sizes[0], j, |rows[0]|)
    else HooksPart(rows[1..], sizes[1..], i + 1, 0, k)
  }

  function HooksSpec(acc: Tableau, rows: Tableau, sizes: seq<nat>, i: nat, j: nat): (r: Tableau)
    requires |sizes| == |rows|
    ensures |r| == |acc|
  {
    seq(|acc|, k requires 0 <= k < |acc| => acc[k] + HooksPart(rows, sizes, i, j, k))
  }

  lemma HooksSpecDone(acc: Tableau, i: nat, j: nat)
    ensures HooksSpec(acc, [], [], i, j) == acc
  {
    forall k | 0 <= k < |acc|
      ensures HooksSpec(acc, [], [], i, j)[k] == acc[k]
    {
      assert HooksPart([], [], i, j, k) == [];
    }
  }

  /** Appending the hook of the last cell of row i, the walk goes on with row i + 1. */
  lemma HooksSpecLastCell(acc: Tableau, rows: Tableau, sizes: seq<nat>, i: nat, j: nat)
    requires |sizes| == |rows| >= 1 && |rows[0]| == 1 && i < |acc|
    ensures HooksSpec(AddCell(acc, i, SizeT(sizes[0] - j)), rows[1..], sizes[1..], i + 1, 0)
         == HooksSpec(acc, rows, sizes, i, j)
  {
    var x := SizeT(sizes[0] - j);
    var acc' := AddCell(acc, i, x);
    AddCellPointwise(acc, i, x);
    forall k | 0 <= k < |acc|
      ensures HooksSpec(acc', rows[1..], sizes[1..], i + 1, 0)[k] == HooksSpec(acc, rows, sizes, i, j)[k]
    {
      assert acc'[k] == AddToRow(acc, i, x, k);
      if k == i {
        assert HooksPart(rows, sizes, i, j, k) == [x];
        assert HooksPart(rows[1..], sizes[1..], i + 1, 0, k) == [];
      }
    }
  }

  /** Appending the hook of a cell with more to its right, the walk goes on from column j + 1. */
  lemma HooksSpecNextCell(acc: Tableau, rows: Tableau, sizes: seq<nat>, i: nat, j: nat)
    requires |sizes| == |rows| >= 1 && |rows[0]| >= 2 && i < |acc|
    ensures HooksSpec(AddCell(acc, i, SizeT(sizes[0] - j)), [rows[0][1..]] + rows[1..], sizes, i, j + 1)
         == HooksSpec(acc, rows, sizes, i, j)
  {
    var x := SizeT(sizes[0] - j);
    var acc' := AddCell(acc, i, x);
    AddCellPointwise(acc, i, x);
    var rows' := [rows[0][1..]] + rows[1..];
    assert rows'[1..] == rows[1..];
    forall k | 0 <= k < |acc|
      ensures HooksSpec(acc', rows', sizes, i, j + 1)[k] == HooksSpec(acc, rows, sizes, i, j)[k]
    {
      assert acc'[k] == AddToRow(acc, i, x, k);
      if k == i {
        assert [x] + HookRow(sizes[0], j + 1, |rows[0]| - 1) == HookRow(sizes[0], j, |rows[0]|);
      }
    }
  }

  /** Rows i onwards of the accumulator receive the remaining cells. */
  predicate HooksFit(acc: Tableau, rows: Tableau, i: nat)
  {
    NonemptyRows(rows) && (|rows| > 0 ==> i + |rows| <= |acc|)
  }

  lemma {:induction false} HooksWalkRows(acc: Tableau, rows: Tableau, sizes: seq<nat>, i: nat, j: nat)
    requires |sizes| == |rows| && |acc| >= 1 && HooksFit(acc, rows, i)
    ensures HooksWalk(acc, rows, sizes, i, j) == HooksSpec(acc, rows, sizes, i, j)
    decreases |rows|, WalkSize(rows)
  {
    if |rows| == 0 {
      HooksSpecDone(acc, i, j);
    } else {
      assert |rows[0]| >= 1;
      var acc' := AddCell(acc, i, SizeT(sizes[0] - j));
      if |rows[0]| == 1 {
        HooksSpecLastCell(acc, rows, sizes, i, j);
        if |rows| == 1 {
          HooksSpecDone(acc', i + 1, 0);
        } else {
          HooksWalkRows(acc', rows[1..], sizes[1..], i + 1, 0);
        }
      } else {
        var rows' := [rows[0][1..]] + rows[1..];
        HooksSpecNextCell(acc, rows, sizes, i, j);
        assert rows'[1..] == rows[1..];
        HooksWalkRows(acc', rows', sizes, i, j + 1);
      }
    }
  }

  lemma {:induction false} HooksPartOfRow(rows: Tableau, sizes: seq<nat>, i: nat, k: nat)
    requires |sizes| == |rows| && i <= k < i + |rows|
    ensures HooksPart(rows, sizes, i, 0, k) == HookRow(sizes[k - i], 0, |rows[k - i]|)
    decreases |rows|
  {
    if k > i {
      HooksPartOfRow(rows[1..], sizes[1..], i + 1, k);
    }
  }

  /** Cell j of row k of the hooks is the length of row k minus j: the cell itself and the cells to its right. */
  lemma HooksRows(t: Tableau)
    requires NonemptyRows(t)
    ensures SameShape(Hooks(t), t)
    ensures forall k :: 0 <= k < |t| ==> Hooks(t)[k] == HookRow(|t[k]|, 0, |t[k]|)
  {
    if |t| > 0 {
      HooksWalkRows(EmptyRows(|t|), t, Shape(t), 0, 0);
      forall k | 0 <= k < |t|
        ensures Hooks(t)[k] == HookRow(|t[k]|, 0, |t[k]|)
      {
        HooksPartOfRow(t, Shape(t), 0, k);
        assert EmptyRows(|t|)[k] == [];
      }
    }
  }

  lemma HooksAreArms(t: Tableau)
    requires NonemptyRows(t) && RowsFit(t)
    ensures SameShape(Hooks(t), t)
    ensures forall k, m :: 0 <= k < |t| && 0 <= m < |t[k]| ==> Hooks(t)[k][m] == |t[k]| - m
  {
    HooksRows(t);
    if |t| > 0 {
      forall k, m | 0 <= k < |t| && 0 <= m < |t[k]|
        ensures Hooks(t)[k][m] == |t[k]| - m
      {
        assert Hooks(t)[k][m] == SizeT(|t[k]| - m);
      }
    }
  }

  // Hook lengths.

  /**
   * `HookLengths<TableauHookLengths, Tableau1, Tableau2, I>`: visits the
   * cells of two tableaux of the same shape together in row-major order and
   * appends the sum of the two values minus one, in std::size_t, to row I.
   * Tableaux of different shapes match no specialization of the template.
   */
  function HookLengthsWalk(acc: Tableau, t1: Tableau, t2: Tableau, i: nat): Tableau
    requires SameShape(t1, t2) && (|acc| >= 1 || WalkSize(t1) == 0)
    decreases |t1|, WalkSize(t1)
  {
    if |t1| == 0 then acc
    else if |t1[0]| == 0 then []
    else
      var acc' := AddCell(acc, i, SizeT(t1[0][0] as int + t2[0][0] - 1));
      if |t1| == 1 && |t1[0]| == 1 then acc'
      else if |t1[0]| == 1 then
        assert SameShape(t1[1..], t2[1..]) by {
          assert forall k :: 0 <= k < |t1| - 1 ==> t1[1..][k] == t1[k + 1] && t2[1..][k] == t2[k + 1];
        }
        HookLengthsWalk(acc', t1[1..], t2[1..], i + 1)
      else
        var t1' := [t1[0][1..]] + t1[1..];
        var t2' := [t2[0][1..]] + t2[1..];
        assert SameShape(t1', t2') by {
          assert forall k :: 1 <= k < |t1| ==> t1'[k] == t1[k] && t2'[k] == t2[k];
        }
        HookLengthsWalk(acc', t1', t2', i)
  }

  /** `hook_lengths_t<T1, T2>`: the walk from one empty row per row of the first tableau. */
  function HookLengths(t1: Tableau, t2: Tableau): Tableau
    requires SameShape(t1, t2)
  {
    if |t1| == 0 then [] else HookLengthsWalk(EmptyRows(|t1|), t1, t2, 0)
  }

  /** Cell by cell, the sum of two rows minus one, in std::size_t. */
  function SumRow(r1: Row, r2: Row): (r: Row)
    requires |r1| == |r2|
    ensures |r| == |r1|
  {
    seq(|r1|, m requires 0 <= m < |r1| => SizeT(r1[m] as int + r2[m] - 1))
  }

  lemma SumRowCons(r1: Row, r2: Row)
    requires |r1| == |r2| >= 1
    ensures SumRow(r1, r2) == [SizeT(r1[0] as int + r2[0] - 1)] + SumRow(r1[1..], r2[1..])
  {
  }

  /** Two tableaux of the same shape still have it without their first rows, or without the first cells of those. */
  lemma SameShapeTails(t1: Tableau, t2: Tableau)
    requires SameShape(t1, t2) && |t1| >= 1 && |t1[0]| >= 1
    ensures SameShape(t1[1..], t2[1..])
    ensures SameShape([t1[0][1..]] + t1[1..], [t2[0][1..]] + t2[1..])
  {
    var t1' := [t1[0][1..]] + t1[1..];
    var t2' := [t2[0][1..]] + t2[1..];
    forall q | 0 <= q < |t1| - 1
      ensures |t1[1..][q]| == |t2[1..][q]|
    {
      assert t1[1..][q] == t1[q + 1] && t2[1..][q] == t2[q + 1];
    }
    forall k | 0 <= k < |t1'|
      ensures |t1'[k]| == |t2'[k]|
    {
      if k > 0 {
        assert t1'[k] == t1[k] && t2'[k] == t2[k];
      }
    }
  }

  /** What the walk still appends to row k: the rest of row i, then whole rows. */
  function HookLengthsPart(t1: Tableau, t2: Tableau, i: nat, k: nat): Row
    requires SameShape(t1, t2)
    decreases |t1|
  {
    if |t1| == 0 || k < i then []
    else if k == i then SumRow(t1[0], t2[0])
    else
      assert SameShape(t1[1..], t2[1..]) by {
        assert forall q :: 0 <= q < |t1| - 1 ==> t1[1..][q] == t1[q + 1] && t2[1..][q] == t2[q + 1];
      }
      HookLengthsPart(t1[1..], t2[1..], i + 1, k)
  }

  function HookLengthsSpec(acc: Tableau, t1: Tableau, t2: Tableau, i: nat): (r: Tableau)
    requires SameShape(t1, t2)
    ensures |r| == |acc|
  {
    seq(|acc|, k requires 0 <= k < |acc| => acc[k] + HookLengthsPart(t1, t2, i, k))
  }

  lemma HookLengthsSpecDone(acc: Tableau, i: nat)
    ensures HookLengthsSpec(acc, [], [], i) == acc
  {
    forall k | 0 <= k < |acc|
      ensures HookLengthsSpec(acc, [], [], i)[k] == acc[k]
    {
      assert HookLengthsPart([], [], i, k) == [];
    }
  }

  lemma HookLengthsSpecLastCell(acc: Tableau, t1: Tableau, t2: Tableau, i: nat)
    requires SameShape(t1, t2) && |t1| >= 1 && |t1[0]| == 1 && i < |acc|
    ensures SameShape(t1[1..], t2[1..])
    ensures HookLengthsSpec(AddCell(acc, i, SizeT(t1[0][0] as int + t2[0][0] - 1)), t1[1..], t2[1..], i + 1)
         == HookLengthsSpec(acc, t1, t2, i)
  {
    SameShapeTails(t1, t2);
    var x := SizeT(t1[0][0] as int + t2[0][0] - 1);
    var acc' := AddCell(acc, i, x);
    AddCellPointwise(acc, i, x);
    forall k | 0 <= k < |acc|
      ensures HookLengthsSpec(acc', t1[1..], t2[1..], i + 1)[k] == HookLengthsSpec(acc, t1, t2, i)[k]
    {
      assert acc'[k] == AddToRow(acc, i, x, k);
      if k == i {
        assert HookLengthsPart(t1, t2, i, k) == [x];
        assert HookLengthsPart(t1[1..], t2[1..], i + 1, k) == [];
      }
    }
  }

  lemma HookLengthsSpecNextCell(acc: Tableau, t1: Tableau, t2: Tableau, i: nat)
    requires SameShape(t1, t2) && |t1| >= 1 && |t1[0]| >= 2 && i < |acc|
    ensures SameShape([t1[0][1..]] + t1[1..], [t2[0][1..]] + t2[1..])
    ensures HookLengthsSpec(AddCell(acc, i, SizeT(t1[0][0] as int + t2[0][0] - 1)), [t1[0][1..]] + t1[1..], [t2[0][1..]] + t2[1..], i)
         == HookLengthsSpec(acc, t1, t2, i)
  {
    var t1' := [t1[0][1..]] + t1[1..];
    var t2' := [t2[0][1..]] + t2[1..];
    SameShapeTails(t1, t2);
    assert t1'[1..] == t1[1..] && t2'[1..] == t2[1..];
    var x := SizeT(t1[0][0] as int + t2[0][0] - 1);
    var acc' := AddCell(acc, i, x);
    AddCellPointwise(acc, i, x);
    forall k | 0 <= k < |acc|
      ensures HookLengthsSpec(acc', t1', t2', i)[k] == HookLengthsSpec(acc, t1, t2, i)[k]
    {
      assert acc'[k] == AddToRow(acc, i, x, k);
      if k == i {
        SumRowCons(t1[0], t2[0]);
      }
    }
  }

  lemma {:induction false} HookLengthsWalkRows(acc: Tableau, t1: Tableau, t2: Tableau, i: nat)
    requires SameShape(t1, t2) && |acc| >= 1 && HooksFit(acc, t1, i)
    ensures HookLengthsWalk(acc, t1, t2, i) == HookLengthsSpec(acc, t1, t2, i)
    decreases |t1|, WalkSize(t1)
  {
    if |t1| == 0 {
      HookLengthsSpecDone(acc, i);
    } else {
      assert |t1[0]| >= 1;
      var acc' := AddCell(acc, i, SizeT(t1[0][0] as int + t2[0][0] - 1));
      if |t1[0]| == 1 {
        HookLengthsSpecLastCell(acc, t1, t2, i);
        if |t1| == 1 {
          HookLengthsSpecDone(acc', i + 1);
        } else {
          HookLengthsWalkRows(acc', t1[1..], t2[1..], i + 1);
        }
      } else {
        var t1' := [t1[0][1..]] + t1[1..];
        var t2' := [t2[0][1..]] + t2[1..];
        HookLengthsSpecNextCell(acc, t1, t2, i);
        assert t1'[1..] == t1[1..];
        HookLengthsWalkRows(acc', t1', t2', i);
      }
    }
  }

  lemma {:induction false} HookLengthsPartOfRow(t1: Tableau, t2: Tableau, i: nat, k: nat)
    requires SameShape(t1, t2) && i <= k < i + |t1|
    ensures HookLengthsPart(t1, t2, i, k) == SumRow(t1[k - i], t2[k - i])
    decreases |t1|
  {
    if k > i {
      assert SameShape(t1[1..], t2[1..]) by {
        assert forall q :: 0 <= q < |t1| - 1 ==> t1[1..][q] == t1[q + 1] && t2[1..][q] == t2[q + 1];
      }
      HookLengthsPartOfRow(t1[1..], t2[1..], i + 1, k);
    }
  }

  /** Cell by cell, the hook lengths walk adds the two tableaux and subtracts one, in std::size_t. */
  lemma HookLengthsRows(t1: Tableau, t2: Tableau)
    requires SameShape(t1, t2) && NonemptyRows(t1)
    ensures |HookLengths(t1, t2)| == |t1|
    ensures forall k :: 0 <= k < |t1| ==> HookLengths(t1, t2)[k] == SumRow(t1[k], t2[k])
  {
    if |t1| > 0 {
      HookLengthsWalkRows(EmptyRows(|t1|), t1, t2, 0);
      forall k | 0 <= k < |t1|
        ensures HookLengths(t1, t2)[k] == SumRow(t1[k], t2[k])
      {
        HookLengthsPartOfRow(t1, t2, 0, k);
        assert EmptyRows(|t1|)[k] == [];
      }
    }
  }

  lemma HookLengthsAreSums(t1: Tableau, t2: Tableau)
    requires SameShape(t1, t2) && NonemptyRows(t1)
    ensures SameShape(HookLengths(t1, t2), t1)
    ensures forall k, m :: 0 <= k < |t1| && 0 <= m < |t1[k]| ==> HookLengths(t1, t2)[k][m] == SizeT(t1[k][m] as int + t2[k][m] - 1)
  {
    HookLengthsRows(t1, t2);
    forall k, m | 0 <= k < |t1| && 0 <= m < |t1[k]|
      ensures HookLengths(t1, t2)[k][m] == SizeT(t1[k][m] as int + t2[k][m] - 1)
    {
      assert HookLengths(t1, t2)[k] == SumRow(t1[k], t2[k]);
    }
  }

  /** The tableaux the hook lengths of t are built from have the shape of t. */
  lemma HookLengthsShapes(t: Tableau)
    requires YoungShape(t)
    ensures SameShape(Hooks(t), t) && SameShape(Dual(Hooks(Dual(t))), t)
  {
    HooksRows(t);
    if |t| > 0 {
      var d := Dual(t);
      DualDual(t);
      DualIsTranspose(t);
      HooksRows(d);
      DualOfDualShape(t, Hooks(d));
    }
  }

  /** `YoungTableau::hook_lengths`: the hooks of t plus the dual of the hooks of its dual, minus one. */
  function HookLengthsOf(t: Tableau): Tableau
    requires YoungShape(t)
  {
    HookLengthsShapes(t);
    HookLengths(Hooks(t), Dual(Hooks(Dual(t))))
  }

  /** The rows and the number of rows of t are small enough that no hook length wraps around. */
  predicate HooksFitSizeT(t: Tableau)
  {
    forall k :: 0 <= k < |t| ==> |t| + |t[k]| <= SIZE_MOD
  }

  /** Cell (k, m) of the dual of the hooks of the dual: the cells below cell (k, m) of t, and the cell itself. */
  lemma DualHooksOfDualAreLegs(t: Tableau)
    requires YoungShape(t) && HooksFitSizeT(t)
    ensures SameShape(Dual(Hooks(Dual(t))), t)
    ensures forall k, m :: 0 <= k < |t| && 0 <= m < |t[k]| ==> Dual(Hooks(Dual(t)))[k][m] == ColumnHeight(t, m) - k
  {
    HookLengthsShapes(t);
    if |t| > 0 {
      var d := Dual(t);
      DualDual(t);
      DualIsTranspose(t);
      var hd := Hooks(d);
      assert RowsFit(d) by {
        forall c | 0 <= c < |d|
          ensures |d[c]| < SIZE_MOD
        {
          assert d[c] == Column(t, c);
          var hc := ColumnHeight(t, c);
        }
      }
      HooksAreArms(d);
      DualOfDualShape(t, hd);
      forall k, m | 0 <= k < |t| && 0 <= m < |t[k]|
        ensures Dual(hd)[k][m] == ColumnHeight(t, m) - k
      {
        assert d[m] == Column(t, m);
        assert Dual(hd)[k][m] == hd[m][k];
      }
    }
  }

  /**
   * The hook length of cell (k, m) of a Young diagram: the cells to its
   * right, the cells below it, and the cell itself.
   */
  lemma HookLengthIsArmPlusLeg(t: Tableau)
    requires YoungShape(t) && HooksFitSizeT(t)
    ensures SameShape(HookLengthsOf(t), t)
    ensures forall k, m :: 0 <= k < |t| && 0 <= m < |t[k]| ==>
      HookLengthsOf(t)[k][m] == (|t[k]| - m - 1) + (ColumnHeight(t, m) - k - 1) + 1
  {
    HookLengthsShapes(t);
    var h := Hooks(t);
    var dh := Dual(Hooks(Dual(t)));
    assert RowsFit(t);
    HooksAreArms(t);
    DualHooksOfDualAreLegs(t);
    HookLengthsAreSums(h, dh);
    forall k, m | 0 <= k < |t| && 0 <= m < |t[k]|
      ensures HookLengthsOf(t)[k][m] == (|t[k]| - m - 1) + (ColumnHeight(t, m) - k - 1) + 1
    {
      assert h[k][m] == |t[k]| - m;
      assert dh[k][m] == ColumnHeight(t, m) - k;
    }
  }

  // The dimension of the irreducible representation.

  /** No cell holds 0. */
  predicate NonzeroCells(t: Tableau)
  {
    forall k :: 0 <= k < |t| ==> 0 !in t[k]
  }

  /** The product of the cells of a row. */
  function RowProduct(r: Row): nat
  {
    if |r| == 0 then 1 else r[0] * RowProduct(r[1..])
  }

  /** The product of all cells. */
  function CellProduct(t: Tableau): nat
  {
    if |t| == 0 then 1 else RowProduct(t[0]) * CellProduct(t[1..])
  }

  /** The content factors d + j - i, in std::size_t, of n cells of row i from column j on. */
  function ContentRow(d: nat, i: nat, j: nat, n: nat): nat
    decreases n
  {
    if n == 0 then 1 else SizeT(d as int + j - i) * ContentRow(d, i, j + 1, n - 1)
  }

  /** The content factors of the cells the walk still visits: the head row from column j, then whole rows. */
  function ContentRest(d: nat, rows: Tableau, i: nat, j: nat): nat
    decreases |rows|
  {
    if |rows| == 0 then 1 else ContentRow(d, i, j, |rows[0]|) * ContentRest(d, rows[1..], i + 1, 0)
  }

  /** Π over the cells (i, j) of a diagram of d + j - i. */
  function ContentProduct(d: nat, t: Tableau): nat
  {
    ContentRest(d, t, 0, 0)
  }

  /** The double accumulator of the walk, held exactly as a fraction. */
  datatype Fraction = Fraction(num: nat, den: nat)

  /** `prod *= c; prod /= h;` on the exact fraction. */
  function Scale(prod: Fraction, c: nat, h: nat): (r: Fraction)
    ensures r.num == prod.num * c && r.den == prod.den * h
  {
    Fraction(prod.num * c, prod.den * h)
  }

  /**
   * `IrrepDim<Dimension, TableauHookLengths, I, J>::run(prod)`: visits the
   * hook lengths in row-major order, multiplies by Dimension + J - I (in
   * std::size_t) and divides by the hook length of the cell. An empty row or
   * tableau returns the product as it stands.
   */
  function IrrepDimWalk(d: nat, rows: Tableau, i: nat, j: nat, prod: Fraction): Fraction
    decreases |rows|, WalkSize(rows)
  {
    if |rows| == 0 || |rows[0]| == 0 then prod
    else
      var p := Scale(prod, SizeT(d as int + j - i), rows[0][0]);
      if |rows| == 1 && |rows[0]| == 1 then p
      else if |rows[0]| == 1 then IrrepDimWalk(d, rows[1..], i + 1, 0, p)
      else IrrepDimWalk(d, [rows[0][1..]] + rows[1..], i, j + 1, p)
  }

  /** The products over the walk when the head row has one cell left. */
  lemma ProductsLastCell(d: nat, rows: Tableau, i: nat, j: nat)
    requires |rows| >= 1 && |rows[0]| == 1
    ensures CellProduct(rows) == rows[0][0] * CellProduct(rows[1..])
    ensures ContentRest(d, rows, i, j) == SizeT(d as int + j - i) * ContentRest(d, rows[1..], i + 1, 0)
  {
    assert RowProduct(rows[0][1..]) == 1;
    assert ContentRow(d, i, j + 1, 0) == 1;
  }

  /** The products over the walk when the head row has more than one cell left. */
  lemma ProductsNextCell(d: nat, rows: Tableau, i: nat, j: nat)
    requires |rows| >= 1 && |rows[0]| >= 2
    ensures CellProduct(rows) == rows[0][0] * CellProduct([rows[0][1..]] + rows[1..])
    ensures ContentRest(d, rows, i, j) == SizeT(d as int + j - i) * ContentRest(d, [rows[0][1..]] + rows[1..], i, j + 1)
  {
    var rows' := [rows[0][1..]] + rows[1..];
    assert rows'[0] == rows[0][1..] && rows'[1..] == rows[1..];
    var h := rows[0][0];
    var a := RowProduct(rows[0][1..]);
    var b := CellProduct(rows[1..]);
    assert CellProduct(rows) == (h * a) * b;
    assert CellProduct(rows') == a * b;
    var c := SizeT(d as int + j - i);
    var e := ContentRow(d, i, j + 1, |rows[0]| - 1);
    var f := ContentRest(d, rows[1..], i + 1, 0);
    assert ContentRest(d, rows, i, j) == (c * e) * f;
    assert ContentRest(d, rows', i, j + 1) == e * f;
  }

  /** The walk multiplies the numerator by the content factors and the denominator by the hook lengths still to visit. */
  lemma {:induction false} IrrepDimWalkProducts(d: nat, rows: Tableau, i: nat, j: nat, prod: Fraction)
    requires NonemptyRows(rows)
    ensures IrrepDimWalk(d, rows, i, j, prod)
         == Fraction(prod.num * ContentRest(d, rows, i, j), prod.den * CellProduct(rows))
    decreases |rows|, WalkSize(rows)
  {
    if |rows| == 0 {
      assert CellProduct(rows) == 1 && ContentRest(d, rows, i, j) == 1;
    } else {
      assert |rows[0]| >= 1;
      var c := SizeT(d as int + j - i);
      var h := rows[0][0];
      var p := Scale(prod, c, h);
      if |rows[0]| == 1 {
        var rest := rows[1..];
        ProductsLastCell(d, rows, i, j);
        if |rest| == 0 {
          assert CellProduct(rest) == 1 && ContentRest(d, rest, i + 1, 0) == 1;
        } else {
          assert NonemptyRows(rest) by {
            assert forall k :: 0 <= k < |rest| ==> rest[k] == rows[k + 1];
          }
          IrrepDimWalkProducts(d, rest, i + 1, 0, p);
        }
        MulAssoc(prod.num, c, ContentRest(d, rest, i + 1, 0));
        MulAssoc(prod.den, h, CellProduct(rest));
      } else {
        var rows' := [rows[0][1..]] + rows[1..];
        ProductsNextCell(d, rows, i, j);
        assert NonemptyRows(rows') by {
          assert forall k :: 1 <= k < |rows| ==> rows'[k] == rows[k];
        }
        IrrepDimWalkProducts(d, rows', i, j + 1, p);
        MulAssoc(prod.num, c, ContentRest(d, rows', i, j + 1));
        MulAssoc(prod.den, h, CellProduct(rows'));
      }
    }
  }

  lemma {:induction false} RowProductPositive(r: Row)
    requires 0 !in r
    ensures RowProduct(r) > 0
  {
    if |r| > 0 {
      assert r[0] in r && forall x :: x in r[1..] ==> x in r;
      RowProductPositive(r[1..]);
      MulAtLeast(r[0], RowProduct(r[1..]));
    }
  }

  lemma {:induction false} CellProductPositive(t: Tableau)
    requires NonzeroCells(t)
    ensures CellProduct(t) > 0
  {
    if |t| > 0 {
      assert forall k :: 0 <= k < |t| - 1 ==> t[1..][k] == t[k + 1];
      RowProductPositive(t[0]);
      CellProductPositive(t[1..]);
      MulAtLeast(RowProduct(t[0]), CellProduct(t[1..]));
    }
  }

  /** No hook length of a Young diagram is 0. */
  lemma HookLengthsNonzero(t: Tableau)
    requires YoungShape(t) && HooksFitSizeT(t)
    ensures NonzeroCells(HookLengthsOf(t)) && NonemptyRows(HookLengthsOf(t))
  {
    HookLengthIsArmPlusLeg(t);
    var hl := HookLengthsOf(t);
    forall k | 0 <= k < |hl|
      ensures 0 !in hl[k]
    {
      forall m | 0 <= m < |hl[k]|
        ensures hl[k][m] != 0
      {
        var height := ColumnHeight(t, m);
      }
    }
  }

  /**
   * `YoungTableau::irrep_dim()`: the walk over the hook lengths from 1,
   * converted to std::size_t by truncation.
   */
  function IrrepDim(d: nat, t: Tableau): nat
    requires YoungShape(t) && HooksFitSizeT(t)
  {
    var hl := HookLengthsOf(t);
    HookLengthsNonzero(t);
    IrrepDimWalkProducts(d, hl, 0, 0, Fraction(1, 1));
    CellProductPositive(hl);
    var w := IrrepDimWalk(d, hl, 0, 0, Fraction(1, 1));
    w.num / w.den
  }

  /** The content factors depend on the shape only. */
  lemma {:induction false} ContentRestOfShape(d: nat, u: Tableau, v: Tableau, i: nat, j: nat)
    requires SameShape(u, v)
    ensures ContentRest(d, u, i, j) == ContentRest(d, v, i, j)
    decreases |u|
  {
    if |u| > 0 {
      assert SameShape(u[1..], v[1..]) by {
        assert forall k :: 0 <= k < |u| - 1 ==> u[1..][k] == u[k + 1] && v[1..][k] == v[k + 1];
      }
      ContentRestOfShape(d, u[1..], v[1..], i + 1, 0);
    }
  }

  /** The hook-content formula: the product of the content factors d + j - i over the product of the hook lengths. */
  lemma IrrepDimIsHookContent(d: nat, t: Tableau)
    requires YoungShape(t) && HooksFitSizeT(t)
    ensures CellProduct(HookLengthsOf(t)) > 0
    ensures IrrepDim(d, t) == ContentProduct(d, t) / CellProduct(HookLengthsOf(t))
  {
    var hl := HookLengthsOf(t);
    HookLengthsNonzero(t);
    CellProductPositive(hl);
    IrrepDimWalkProducts(d, hl, 0, 0, Fraction(1, 1));
    HookLengthIsArmPlusLeg(t);
    ContentRestOfShape(d, hl, t, 0, 0);
  }

  // The dimensions the library's tests and examples expect.

  /** The hook lengths of a diagram, given cell by cell. */
  lemma HookLengthsAre(t: Tableau, expected: Tableau)
    requires YoungShape(t) && HooksFitSizeT(t) && SameShape(expected, t)
    requires forall k, m :: 0 <= k < |t| && 0 <= m < |t[k]| ==> expected[k][m] == |t[k]| - m + ColumnHeight(t, m) - k - 1
    ensures HookLengthsOf(t) == expected
  {
    HookLengthIsArmPlusLeg(t);
    var hl := HookLengthsOf(t);
    forall k | 0 <= k < |t|
      ensures hl[k] == expected[k]
    {
      forall m | 0 <= m < |t[k]|
        ensures hl[k][m] == expected[k][m]
      {
        var height := ColumnHeight(t, m);
      }
    }
  }

  /** The hook lengths of the diagram [[1, 2]]. */
  lemma HookLengthsOfRowOfTwo(t: Tableau)
    requires t == [[1, 2]]
    ensures YoungShape(t) && HooksFitSizeT(t)
    ensures HookLengthsOf(t) == [[2, 1]]
  {
    assert YoungShape(t) && HooksFitSizeT(t);
    var c0 := ColumnHeight(t, 0);
    var c1 := ColumnHeight(t, 1);
    assert c0 == 1 && c1 == 1 by {
      assert 0 < |t[0]|;
    }
    HookLengthsAre(t, [[2, 1]]);
  }

  /** The content factors of [[1, 2]] in dimension 4. */
  lemma ContentsOfRowOfTwo(t: Tableau)
    requires t == [[1, 2]]
    ensures ContentProduct(4, t) == 20
  {
    assert t[1..] == [];
    assert ContentRow(4, 0, 0, 2) == 20;
    assert ContentRest(4, t[1..], 1, 0) == 1;
    assert ContentRest(4, t, 0, 0) == 20;
  }

  /** The dimension of the row [1, 2] in dimension 4. */
  lemma IrrepDimOfRowOfTwo(t: Tableau)
    requires t == [[1, 2]]
    ensures IrrepDim(4, t) == 10
  {
    HookLengthsOfRowOfTwo(t);
    var hl: Tableau := [[2, 1]];
    assert CellProduct(hl) == 2;
    ContentsOfRowOfTwo(t);
    IrrepDimIsHookContent(4, t);
  }

  /** The hook lengths of the diagram [[1], [2]]. */
  lemma HookLengthsOfColumnOfTwo(t: Tableau)
    requires t == [[1], [2]]
    ensures YoungShape(t) && HooksFitSizeT(t)
    ensures HookLengthsOf(t) == [[2], [1]]
  {
    assert YoungShape(t) && HooksFitSizeT(t);
    var c0 := ColumnHeight(t, 0);
    assert c0 == 2 by {
      assert 0 < |t[0]| && 0 < |t[1]|;
    }
    HookLengthsAre(t, [[2], [1]]);
  }

  /** The content factors of [[1], [2]] in dimension 4. */
  lemma ContentsOfColumnOfTwo(t: Tableau)
    requires t == [[1], [2]]
    ensures ContentProduct(4, t) == 12
  {
    assert t[1..] == [[2]];
    assert t[1..][1..] == [];
    assert ContentRow(4, 0, 0, 1) == 4;
    assert ContentRow(4, 1, 0, 1) == 3;
    assert ContentRest(4, t[1..][1..], 2, 0) == 1;
    assert ContentRest(4, t[1..], 1, 0) == 3;
    assert ContentRest(4, t, 0, 0) == 12;
  }

  /** The dimension of the column [1][2] in dimension 4. */
  lemma IrrepDimOfColumnOfTwo(t: Tableau)
    requires t == [[1], [2]]
    ensures IrrepDim(4, t) == 6
  {
    HookLengthsOfColumnOfTwo(t);
    var hl: Tableau := [[2], [1]];
    assert CellProduct(hl) == 2;
    ContentsOfColumnOfTwo(t);
    IrrepDimIsHookContent(4, t);
  }

  /** The hook lengths of the diagram [[1, 2, 3]]. */
  lemma HookLengthsOfRowOfThree(t: Tableau)
    requires t == [[1, 2, 3]]
    ensures YoungShape(t) && HooksFitSizeT(t)
    ensures HookLengthsOf(t) == [[3, 2, 1]]
  {
    assert YoungShape(t) && HooksFitSizeT(t);
    var c0 := ColumnHeight(t, 0);
    var c1 := ColumnHeight(t, 1);
    var c2 := ColumnHeight(t, 2);
    assert c0 == 1 && c1 == 1 && c2 == 1 by {
      assert 0 < |t[0]|;
    }
    HookLengthsAre(t, [[3, 2, 1]]);
  }

  /** The content factors of [[1, 2, 3]] in dimension 3. */
  lemma ContentsOfRowOfThree(t: Tableau)
    requires t == [[1, 2, 3]]
    ensures ContentProduct(3, t) == 60
  {
    assert t[1..] == [];
    assert ContentRow(3, 0, 0, 3) == 60;
    assert ContentRest(3, t[1..], 1, 0) == 1;
    assert ContentRest(3, t, 0, 0) == 60;
  }

  /** The dimension of the row [1, 2, 3] in dimension 3. */
  lemma IrrepDimOfRowOfThree(t: Tableau)
    requires t == [[1, 2, 3]]
    ensures IrrepDim(3, t) == 10
  {
    HookLengthsOfRowOfThree(t);
    var hl: Tableau := [[3, 2, 1]];
    assert CellProduct(hl) == 6;
    ContentsOfRowOfThree(t);
    IrrepDimIsHookContent(3, t);
  }

  /** The hook lengths of the diagram [[1, 2], [3]]. */
  lemma HookLengthsOfHookOneTwoThree(t: Tableau)
    requires t == [[1, 2], [3]]
    ensures YoungShape(t) && HooksFitSizeT(t)
    ensures HookLengthsOf(t) == [[3, 1], [1]]
  {
    assert YoungShape(t) && HooksFitSizeT(t);
    var c0 := ColumnHeight(t, 0);
    var c1 := ColumnHeight(t, 1);
    assert c0 == 2 && c1 == 1 by {
      assert 0 < |t[0]| && 0 < |t[1]|;
    }
    HookLengthsAre(t, [[3, 1], [1]]);
  }

  /** The content factors of [[1, 2], [3]] in dimension 3. */
  lemma ContentsOfHookOneTwoThree(t: Tableau)
    requires t == [[1, 2], [3]]
    ensures ContentProduct(3, t) == 24
  {
    assert t[1..] == [[3]];
    assert t[1..][1..] == [];
    assert ContentRow(3, 0, 0, 2) == 12;
    assert ContentRow(3, 1, 0, 1) == 2;
    assert ContentRest(3, t[1..][1..], 2, 0) == 1;
    assert ContentRest(3, t[1..], 1, 0) == 2;
    assert ContentRest(3, t, 0, 0) == 24;
  }

  /** The dimension of the hook [1, 2][3] in dimension 3. */
  lemma IrrepDimOfHookOneTwoThree(t: Tableau)
    requires t == [[1, 2], [3]]
    ensures IrrepDim(3, t) == 8
  {
    HookLengthsOfHookOneTwoThree(t);
    var hl: Tableau := [[3, 1], [1]];
    assert CellProduct(hl) == 3;
    ContentsOfHookOneTwoThree(t);
    IrrepDimIsHookContent(3, t);
  }

  /** The hook lengths of the diagram [[1, 3], [2]]. */
  lemma HookLengthsOfHookOneThreeTwo(t: Tableau)
    requires t == [[1, 3], [2]]
    ensures YoungShape(t) && HooksFitSizeT(t)
    ensures HookLengthsOf(t) == [[3, 1], [1]]
  {
    assert YoungShape(t) && HooksFitSizeT(t);
    var c0 := ColumnHeight(t, 0);
    var c1 := ColumnHeight(t, 1);
    assert c0 == 2 && c1 == 1 by {
      assert 0 < |t[0]| && 0 < |t[1]|;
    }
    HookLengthsAre(t, [[3, 1], [1]]);
  }

  /** The content factors of [[1, 3], [2]] in dimension 3. */
  lemma ContentsOfHookOneThreeTwo(t: Tableau)
    requires t == [[1, 3], [2]]
    ensures ContentProduct(3, t) == 24
  {
    assert t[1..] == [[2]];
    assert t[1..][1..] == [];
    assert ContentRow(3, 0, 0, 2) == 12;
    assert ContentRow(3, 1, 0, 1) == 2;
    assert ContentRest(3, t[1..][1..], 2, 0) == 1;
    assert ContentRest(3, t[1..], 1, 0) == 2;
    assert ContentRest(3, t, 0, 0) == 24;
  }

  /** The dimension of the hook [1, 3][2] in dimension 3. */
  lemma IrrepDimOfHookOneThreeTwo(t: Tableau)
    requires t == [[1, 3], [2]]
    ensures IrrepDim(3, t) == 8
  {
    HookLengthsOfHookOneThreeTwo(t);
    var hl: Tableau := [[3, 1], [1]];
    assert CellProduct(hl) == 3;
    ContentsOfHookOneThreeTwo(t);
    IrrepDimIsHookContent(3, t);
  }

  /** The hook lengths of the diagram [[1, 3], [2, 4]]. */
  lemma HookLengthsOfSquare(t: Tableau)
    requires t == [[1, 3], [2, 4]]
    ensures YoungShape(t) && HooksFitSizeT(t)
    ensures HookLengthsOf(t) == [[3, 2], [2, 1]]
  {
    assert YoungShape(t) && HooksFitSizeT(t);
    var c0 := ColumnHeight(t, 0);
    var c1 := ColumnHeight(t, 1);
    assert c0 == 2 && c1 == 2 by {
      assert 0 < |t[0]| && 0 < |t[1]|;
    }
    HookLengthsAre(t, [[3, 2], [2, 1]]);
  }

  /** The content factors of [[1, 3], [2, 4]] in dimension 3. */
  lemma ContentsOfSquareInThree(t: Tableau)
    requires t == [[1, 3], [2, 4]]
    ensures ContentProduct(3, t) == 72
  {
    assert t[1..] == [[2, 4]];
    assert t[1..][1..] == [];
    assert ContentRow(3, 0, 0, 2) == 12;
    assert ContentRow(3, 1, 0, 2) == 6;
    assert ContentRest(3, t[1..][1..], 2, 0) == 1;
    assert ContentRest(3, t[1..], 1, 0) == 6;
    assert ContentRest(3, t, 0, 0) == 72;
  }

  /** The content factors of [[1, 3], [2, 4]] in dimension 4. */
  lemma ContentsOfSquareInFour(t: Tableau)
    requires t == [[1, 3], [2, 4]]
    ensures ContentProduct(4, t) == 240
  {
    assert t[1..] == [[2, 4]];
    assert t[1..][1..] == [];
    assert ContentRow(4, 0, 0, 2) == 20;
    assert ContentRow(4, 1, 0, 2) == 12;
    assert ContentRest(4, t[1..][1..], 2, 0) == 1;
    assert ContentRest(4, t[1..], 1, 0) == 12;
    assert ContentRest(4, t, 0, 0) == 240;
  }

  /** The dimension of the square [1, 3][2, 4] in dimension 3. */
  lemma IrrepDimOfSquareInThree(t: Tableau)
    requires t == [[1, 3], [2, 4]]
    ensures IrrepDim(3, t) == 6
  {
    HookLengthsOfSquare(t);
    var hl: Tableau := [[3, 2], [2, 1]];
    assert CellProduct(hl) == 12;
    ContentsOfSquareInThree(t);
    IrrepDimIsHookContent(3, t);
  }

  /** The dimension of the square [1, 3][2, 4] in dimension 4. */
  lemma IrrepDimOfSquareInFour(t: Tableau)
    requires t == [[1, 3], [2, 4]]
    ensures IrrepDim(4, t) == 20
  {
    HookLengthsOfSquare(t);
    var hl: Tableau := [[3, 2], [2, 1]];
    assert CellProduct(hl) == 12;
    ContentsOfSquareInFour(t);
    IrrepDimIsHookContent(4, t);
  }
}
