/** The motif census (`DEFM::motif_census`, defm-meat.hpp lines 327-363) and
    its R result matrix (`motif_census`, defm-object.cpp lines 340-370): every
    Markov window is projected onto the requested outcome columns, row by row,
    and the resulting integer tuples are tallied. */
module Census {
  import opened Results
  import opened Segmenter
  import opened Defm
  import opened Windows
  import opened FreqTable
  import Flat
  import Decimal

  /** All requested outcome columns exist. */
  predicate LocsInRange(locs: seq<nat>, yNcol: nat) {
    forall n :: 0 <= n < |locs| ==> locs[n] < yNcol
  }

  /** Lines 332-334: the first index that is not a column of Y is a range error. */
  function CheckLocs(locs: seq<nat>, yNcol: nat): (r: Result<()>)
    ensures r.Ok? <==> LocsInRange(locs, yNcol)
    ensures r.Err? ==> exists k :: 0 <= k < |locs| && locs[k] >= yNcol && r.error == MotifIndexOutOfRange(locs[k]) && LocsInRange(locs[..k], yNcol)
    decreases |locs|
  {
    if |locs| == 0 then Ok(())
    else if locs[0] >= yNcol then
      assert LocsInRange(locs[..0], yNcol);
      Err(MotifIndexOutOfRange(locs[0]))
    else
      var r := CheckLocs(locs[1..], yNcol);
      if r.Err? then
        var k :| 0 <= k < |locs[1..]| && locs[1..][k] >= yNcol && r.error == MotifIndexOutOfRange(locs[1..][k]) && LocsInRange(locs[1..][..k], yNcol);
        assert locs[..k + 1] == [locs[0]] + locs[1..][..k];
        r
      else
        assert forall n :: 1 <= n < |locs| ==> locs[n] == locs[1..][n - 1];
        r
  }

  /** The columns `locs` of every row of a window, row by row. */
  function Project(w: Window, locs: seq<nat>): (t: seq<int>)
    requires WellFormed(w) && LocsInRange(locs, w.ncol)
    ensures |t| == w.nrow * |locs|
  {
    var rows := seq(w.nrow, o requires 0 <= o < w.nrow => seq(|locs|, n requires 0 <= n < |locs| => w.rows[o][locs[n]]));
    Flat.FlattenLength(rows, |locs|);
    Flat.Flatten(rows)
  }

  /** Entry `o * |locs| + n` of a projection is cell `(o, locs[n])`. */
  lemma ProjectCell(w: Window, locs: seq<nat>, o: nat, n: nat)
    requires WellFormed(w) && LocsInRange(locs, w.ncol)
    requires o < w.nrow && n < |locs|
    ensures o * |locs| + n < |Project(w, locs)|
    ensures Flat.At(Project(w, locs), |locs|, o, n) == w.rows[o][locs[n]]
  {
    var rows := seq(w.nrow, o requires 0 <= o < w.nrow => seq(|locs|, n requires 0 <= n < |locs| => w.rows[o][locs[n]]));
    Flat.FlattenAt(rows, |locs|, o, n);
  }

  /** Lines 349-353: the tuple of the window starting at dataset row `first`,
      read straight from the outcome buffer through `layout`. */
  function RawTuple(m: Defm, layout: Layout, locs: seq<nat>, first: nat): seq<int>
    requires Shaped(m) && first + m.order < |m.ids| && LocsInRange(locs, m.yNcol)
  {
    Flat.Flatten(seq(m.order + 1, o requires 0 <= o < m.order + 1 =>
      seq(|locs|, n requires 0 <= n < |locs| => YAt(m, layout, first + o, locs[n]))))
  }

  /** Entry `o * |locs| + n` of a tuple is outcome cell `(first + o, locs[n])`:
      window rows outermost, requested columns in the order given. */
  lemma RawTupleCell(m: Defm, layout: Layout, locs: seq<nat>, first: nat, o: nat, n: nat)
    requires Shaped(m) && first + m.order < |m.ids| && LocsInRange(locs, m.yNcol)
    requires o <= m.order && n < |locs|
    ensures |RawTuple(m, layout, locs, first)| == (m.order + 1) * |locs|
    ensures o * |locs| + n < |RawTuple(m, layout, locs, first)|
    ensures Flat.At(RawTuple(m, layout, locs, first), |locs|, o, n) == YAt(m, layout, first + o, locs[n])
  {
    var grid := seq(m.order + 1, o requires 0 <= o < m.order + 1 =>
      seq(|locs|, n requires 0 <= n < |locs| => YAt(m, layout, first + o, locs[n])));
    assert RawTuple(m, layout, locs, first) == Flat.Flatten(grid);
    Flat.FlattenLength(grid, |locs|);
    Flat.FlattenAt(grid, |locs|, o, n);
  }

  /** Reading the tuple from the buffer is projecting the window `init`
      builds from the same rows with the same layout. */
  lemma RawTupleIsProjection(m: Defm, layout: Layout, locs: seq<nat>, first: nat)
    requires Shaped(m) && first + m.order < |m.ids| && LocsInRange(locs, m.yNcol)
    ensures RawTuple(m, layout, locs, first) == Project(BuildWindow(m, layout, first), locs)
  {
    var w := BuildWindow(m, layout, first);
    var a := seq(m.order + 1, o requires 0 <= o < m.order + 1 =>
      seq(|locs|, n requires 0 <= n < |locs| => YAt(m, layout, first + o, locs[n])));
    var b := seq(w.nrow, o requires 0 <= o < w.nrow => seq(|locs|, n requires 0 <= n < |locs| => w.rows[o][locs[n]]));
    forall o | 0 <= o < m.order + 1
      ensures a[o] == b[o]
    {
      forall n | 0 <= n < |locs|
        ensures a[o][n] == b[o][n]
      {
        BuildWindowCell(m, layout, first, o, locs[n]);
      }
    }
    assert a == b;
  }

  /** The tuples of subjects `0 .. n-1`, in the order of the census loops. */
  function TuplesUpTo(m: Defm, layout: Layout, locs: seq<nat>, n: nat): (ts: seq<seq<int>>)
    requires Valid(m) && n <= m.Subjects() && LocsInRange(locs, m.yNcol)
    ensures |ts| == WindowsBefore(m.startEnd, m.order, n)
  {
    if n == 0 then []
    else
      var i := n - 1;
      assert SegOk(m.ids, m.startEnd, i, |m.ids|);
      WindowsBeforeMonotone(m.startEnd, m.order, 0, i);
      TuplesUpTo(m, layout, locs, i) + SubjectTuples(m, layout, locs, i)
  }

  /** The tuples of subject `i`, in offset order (the `proc_n` loop). */
  function SubjectTuples(m: Defm, layout: Layout, locs: seq<nat>, i: nat): (ts: seq<seq<int>>)
    requires Valid(m) && i < m.Subjects() && LocsInRange(locs, m.yNcol)
    ensures |ts| == Len(m.startEnd, i) - m.order
  {
    assert SegOk(m.ids, m.startEnd, i, |m.ids|);
    seq(Len(m.startEnd, i) - m.order, p requires 0 <= p < Len(m.startEnd, i) - m.order =>
      RawTuple(m, layout, locs, Start(m.startEnd, i) + p))
  }

  /** Every window is well formed and as wide as the outcome matrix. */
  ghost predicate AllWindows(ws: seq<Window>, ncol: nat) {
    forall w :: 0 <= w < |ws| ==> WellFormed(ws[w]) && ws[w].ncol == ncol
  }

  /** The projections of a sequence of windows. */
  function ProjectAll(ws: seq<Window>, locs: seq<nat>, ncol: nat): (ts: seq<seq<int>>)
    requires AllWindows(ws, ncol) && LocsInRange(locs, ncol)
    ensures |ts| == |ws|
  {
    seq(|ws|, w requires 0 <= w < |ws| => Project(ws[w], locs))
  }

  lemma ProjectAllAppend(a: seq<Window>, b: seq<Window>, locs: seq<nat>, ncol: nat)
    requires AllWindows(a, ncol) && AllWindows(b, ncol) && LocsInRange(locs, ncol)
    ensures AllWindows(a + b, ncol)
    ensures ProjectAll(a + b, locs, ncol) == ProjectAll(a, locs, ncol) + ProjectAll(b, locs, ncol)
  {
  }

  /** Read with the model's own layout, the census tuples are the projections
      of the windows of `init`, one for one and in the same order. */
  lemma {:induction false} TuplesMatchInit(m: Defm, locs: seq<nat>, n: nat)
    requires Valid(m) && n <= m.Subjects() && LocsInRange(locs, m.yNcol)
    ensures AllWindows(InitUpTo(m, n), m.yNcol)
    ensures TuplesUpTo(m, m.layout, locs, n) == ProjectAll(InitUpTo(m, n), locs, m.yNcol)
  {
    if n > 0 {
      var i := n - 1;
      TuplesMatchInit(m, locs, i);
      assert SegOk(m.ids, m.startEnd, i, |m.ids|);
      var sw := SubjectWindows(m, i);
      SubjectTuplesMatch(m, locs, i);
      ProjectAllAppend(InitUpTo(m, i), sw, locs, m.yNcol);
    }
  }

  /** The tuples of subject `i` are the projections of its windows. */
  lemma SubjectTuplesMatch(m: Defm, locs: seq<nat>, i: nat)
    requires Valid(m) && i < m.Subjects() && LocsInRange(locs, m.yNcol)
    ensures AllWindows(SubjectWindows(m, i), m.yNcol)
    ensures SubjectTuples(m, m.layout, locs, i) == ProjectAll(SubjectWindows(m, i), locs, m.yNcol)
  {
    var sw := SubjectWindows(m, i);
    var last := SubjectTuples(m, m.layout, locs, i);
    forall p | 0 <= p < |sw|
      ensures last[p] == ProjectAll(sw, locs, m.yNcol)[p]
    {
      TupleMatchesWindow(m, locs, i, p);
    }
  }

  /** The tuple of window `p` of subject `i` is that window's projection. */
  lemma TupleMatchesWindow(m: Defm, locs: seq<nat>, i: nat, p: nat)
    requires Valid(m) && i < m.Subjects() && p < Len(m.startEnd, i) - m.order && LocsInRange(locs, m.yNcol)
    ensures Start(m.startEnd, i) + p + m.order < |m.ids|
    ensures RawTuple(m, m.layout, locs, Start(m.startEnd, i) + p) == Project(WindowAt(m, i, p), locs)
  {
    assert SegOk(m.ids, m.startEnd, i, |m.ids|);
    RawTupleIsProjection(m, m.layout, locs, Start(m.startEnd, i) + p);
  }

  /** The projections of the windows of `init`, in `init` order. */
  function InitTuples(m: Defm, locs: seq<nat>): (ts: seq<seq<int>>)
    requires Valid(m) && LocsInRange(locs, m.yNcol)
    ensures |ts| == |Init(m)|
    ensures forall w :: 0 <= w < |ts| ==> |ts[w]| == (m.order + 1) * |locs|
  {
    ProjectAll(Init(m), locs, m.yNcol)
  }

  /** `motif_census` as written: line 353 reads `Y[k * ID_length + row]`, the
      column-major position, whatever layout the model was built with. */
  function MotifCensusAsWritten(m: Defm, locs: seq<nat>): (r: Result<seq<Entry>>)
    requires Valid(m)
    ensures r.Ok? <==> LocsInRange(locs, m.yNcol)
    ensures r.Ok? ==> Tallies(r.value, TuplesUpTo(m, ColumnMajor, locs, m.Subjects()))
  {
    var _ :- CheckLocs(locs, m.yNcol);
    var ts := TuplesUpTo(m, ColumnMajor, locs, m.Subjects());
    TabulateTallies(ts);
    Ok(Tabulate(ts))
  }

  /** `motif_census` reading the outcome buffer through the model's layout, as
      `init` does: the table is an exact tally of the projections of the
      windows of `init`, and its counts add up to the number of windows. */
  function MotifCensus(m: Defm, locs: seq<nat>): (r: Result<seq<Entry>>)
    requires Valid(m)
    ensures r.Ok? <==> LocsInRange(locs, m.yNcol)
    ensures r.Err? ==> r.error.MotifIndexOutOfRange? && r.error.index in locs && r.error.index >= m.yNcol
    ensures r.Ok? ==> Tallies(r.value, InitTuples(m, locs))
    ensures r.Ok? ==> Total(r.value) == |m.ids| - m.Subjects() * m.order
  {
    var _ :- CheckLocs(locs, m.yNcol);
    var ts := TuplesUpTo(m, m.layout, locs, m.Subjects());
    TuplesMatchInit(m, locs, m.Subjects());
    assert ts == InitTuples(m, locs);
    TabulateTallies(ts);
    Ok(Tabulate(ts))
  }

  /** For a column-major model the census as written is the corrected one. */
  lemma AsWrittenAgreesColumnMajor(m: Defm, locs: seq<nat>)
    requires Valid(m) && m.layout == ColumnMajor
    ensures MotifCensusAsWritten(m, locs) == MotifCensus(m, locs)
  {
  }

  /** A two-row row-major model: one subject, outcome rows `(0, 1)` and
      `(0, 0)`, order 1. */
  function RowMajorExample(): Defm {
    Defm([1, 1], [0, 1, 0, 0], [], 2, 0, 1, RowMajor, [0, 1], ["y0", "y1"], [])
  }

  lemma RowMajorExampleValid()
    ensures Valid(RowMajorExample())
    ensures RowMajorExample().Subjects() == 1 && Len(RowMajorExample().startEnd, 0) == 2
  {
    var m := RowMajorExample();
    assert SegOk(m.ids, m.startEnd, 0, 2);
  }

  /** The one window's column-1 tuple, read both ways. */
  lemma RowMajorExampleTuples()
    ensures Valid(RowMajorExample())
    ensures RawTuple(RowMajorExample(), RowMajor, [1], 0) == [1, 0]
    ensures RawTuple(RowMajorExample(), ColumnMajor, [1], 0) == [0, 0]
  {
    RowMajorExampleValid();
    var m := RowMajorExample();
    assert YAt(m, RowMajor, 0, 1) == 1 && YAt(m, RowMajor, 1, 1) == 0;
    assert YAt(m, ColumnMajor, 0, 1) == 0 && YAt(m, ColumnMajor, 1, 1) == 0;
    RawTupleCell(m, RowMajor, [1], 0, 0, 0);
    RawTupleCell(m, RowMajor, [1], 0, 1, 0);
    RawTupleCell(m, ColumnMajor, [1], 0, 0, 0);
    RawTupleCell(m, ColumnMajor, [1], 0, 1, 0);
  }

  /** On the row-major example, census of column 1: the window's true tuple
      is `(1, 0)`, but the column-major read of line 353 reports `(0, 0)`. */
  lemma AsWrittenMisreadsRowMajor()
    ensures Valid(RowMajorExample())
    ensures MotifCensus(RowMajorExample(), [1]) == Ok([Entry([1, 0], 1)])
    ensures MotifCensusAsWritten(RowMajorExample(), [1]) == Ok([Entry([0, 0], 1)])
  {
    RowMajorExampleValid();
    RowMajorExampleTuples();
    var m := RowMajorExample();
    assert LocsInRange([1], m.yNcol);
    assert SubjectTuples(m, RowMajor, [1], 0) == [[1, 0]];
    assert SubjectTuples(m, ColumnMajor, [1], 0) == [[0, 0]];
    assert TuplesUpTo(m, RowMajor, [1], 1) == [[1, 0]] by {
      assert TuplesUpTo(m, RowMajor, [1], 0) == [];
    }
    assert TuplesUpTo(m, ColumnMajor, [1], 1) == [[0, 0]] by {
      assert TuplesUpTo(m, ColumnMajor, [1], 0) == [];
    }
    assert Tabulate([[1, 0]]) == [Entry([1, 0], 1)] by { assert [[1, 0]][..0] == []; }
    assert Tabulate([[0, 0]]) == [Entry([0, 0], 1)] by { assert [[0, 0]][..0] == []; }
  }

  // ---------------------------------------------------------------------
  // The R result matrix (defm-object.cpp lines 345-368)
  // ---------------------------------------------------------------------

  /** The census as an R matrix: one row per table entry, its cells read
      in order from the table's flat data, and the column names. */
  datatype CensusMatrix = CensusMatrix(names: seq<string>, rows: seq<seq<int>>)

  /** Every entry carries a tuple of `width - 1` values. */
  ghost predicate EntriesWide(table: seq<Entry>, width: nat) {
    forall a :: 0 <= a < |table| ==> |table[a].tuple| + 1 == width
  }

  /** Lines 348-354: `m_res(i, j) = dat[ele++]` over an `nele x width` matrix. */
  function FillMatrix(table: seq<Entry>, width: nat): (rows: seq<seq<int>>)
    requires EntriesWide(table, width)
    ensures |rows| == |table|
    ensures forall a :: 0 <= a < |table| ==> rows[a] == [table[a].count as int] + table[a].tuple
  {
    var data := Data(table);
    DataLength(table, width);
    var rows := seq(|table|, a requires 0 <= a < |table| =>
      seq(width, j requires 0 <= j < width => (Flat.MulBound(a, j, width, |table|); data[a * width + j])));
    forall a | 0 <= a < |table|
      ensures rows[a] == [table[a].count as int] + table[a].tuple
    {
      forall j | 0 <= j < width
        ensures rows[a][j] == ([table[a].count as int] + table[a].tuple)[j]
      {
        Flat.FlattenAt(Rows(table), width, a, j);
      }
    }
    rows
  }

  lemma DataLength(table: seq<Entry>, width: nat)
    requires EntriesWide(table, width)
    ensures Flat.Uniform(Rows(table), width)
    ensures |Data(table)| == |table| * width
  {
    Flat.FlattenLength(Rows(table), width);
  }

  /** Lines 357-364: `"count"`, then `"y" + m + n` for every row `m` of the
      window and every requested column `n`. */
  function CensusNames(order: nat, locs: seq<nat>): (names: seq<string>)
    ensures |names| == 1 + (order + 1) * |locs|
    ensures names[0] == "count"
  {
    var grid := NameGrid(order, locs);
    Flat.FlattenLength(grid, |locs|);
    ["count"] + Flat.Flatten(grid)
  }

  /** The name of window row `o`, outcome column `col`. */
  function ColumnName(o: nat, col: nat): string {
    "y" + Decimal.NatToString(o) + Decimal.NatToString(col)
  }

  function NameGrid(order: nat, locs: seq<nat>): (grid: seq<seq<string>>)
    ensures |grid| == order + 1 && Flat.Uniform(grid, |locs|)
  {
    seq(order + 1, o requires 0 <= o < order + 1 =>
      seq(|locs|, n requires 0 <= n < |locs| => ColumnName(o, locs[n])))
  }

  /** Column `1 + o * |locs| + n` is named after window row `o` and outcome
      column `locs[n]`. */
  lemma CensusNameAt(order: nat, locs: seq<nat>, o: nat, n: nat)
    requires o <= order && n < |locs|
    ensures 1 + o * |locs| + n < |CensusNames(order, locs)|
    ensures CensusNames(order, locs)[1 + o * |locs| + n] == ColumnName(o, locs[n])
  {
    var grid := NameGrid(order, locs);
    Flat.FlattenAt(grid, |locs|, o, n);
    var flat := Flat.Flatten(grid);
    var k := o * |locs| + n;
    assert flat[k] == grid[o][n];
    assert CensusNames(order, locs) == ["count"] + flat;
  }

  /** A name with a one-digit window row splits back into its parts. */
  lemma ColumnNameParts(o: nat, col: nat)
    requires o < 10
    ensures ColumnName(o, col)[0] == 'y'
    ensures ColumnName(o, col)[1..2] == Decimal.NatToString(o)
    ensures ColumnName(o, col)[2..] == Decimal.NatToString(col)
  {
    assert |Decimal.NatToString(o)| == 1;
  }

  /** With single-digit window rows, names of different cells differ. */
  lemma ColumnNamesDistinct(o1: nat, c1: nat, o2: nat, c2: nat)
    requires o1 < 10 && o2 < 10
    requires ColumnName(o1, c1) == ColumnName(o2, c2)
    ensures o1 == o2 && c1 == c2
  {
    ColumnNameParts(o1, c1);
    ColumnNameParts(o2, c2);
    Decimal.NatToStringInjective(o1, o2);
    Decimal.NatToStringInjective(c1, c2);
  }

  /** With single-digit window rows and distinct columns, the names are
      pairwise distinct and none is `"count"`. */
  lemma CensusNamesDistinct(order: nat, locs: seq<nat>, o1: nat, n1: nat, o2: nat, n2: nat)
    requires order < 10
    requires forall a, b :: 0 <= a < |locs| && 0 <= b < |locs| && locs[a] == locs[b] ==> a == b
    requires o1 <= order && n1 < |locs| && o2 <= order && n2 < |locs|
    ensures 1 + o1 * |locs| + n1 < |CensusNames(order, locs)| && 1 + o2 * |locs| + n2 < |CensusNames(order, locs)|
    ensures CensusNames(order, locs)[0] != CensusNames(order, locs)[1 + o1 * |locs| + n1]
    ensures CensusNames(order, locs)[1 + o1 * |locs| + n1] == CensusNames(order, locs)[1 + o2 * |locs| + n2] ==> o1 == o2 && n1 == n2
  {
    CensusNameAt(order, locs, o1, n1);
    CensusNameAt(order, locs, o2, n2);
    ColumnNameParts(o1, locs[n1]);
    assert "count"[0] != ColumnName(o1, locs[n1])[0];
    if ColumnName(o1, locs[n1]) == ColumnName(o2, locs[n2]) {
      ColumnNamesDistinct(o1, locs[n1], o2, locs[n2]);
    }
  }

  /** Without a separator, names collide once numbers reach two digits:
      with order 11 and columns `1` and `11`, window row 1 of column 11 and
      window row 11 of column 1 are both named `y111`. */
  lemma CensusNamesCollide()
    ensures CensusNames(11, [1, 11])[1 + 1 * 2 + 1] == CensusNames(11, [1, 11])[1 + 11 * 2 + 0] == "y111"
  {
    CensusNameAt(11, [1, 11], 1, 1);
    CensusNameAt(11, [1, 11], 11, 0);
    assert Decimal.NatToString(1) == "1";
    assert Decimal.NatToString(11) == "11";
  }

  /** `motif_census` of the R interface: the census of the model, one matrix
      row `[count] + tuple` per table entry, `1 + (order + 1) * |locs|`
      columns, and the column names. */
  function MotifCensusMatrix(m: Defm, locs: seq<nat>): (r: Result<CensusMatrix>)
    requires Valid(m)
    ensures r.Ok? <==> LocsInRange(locs, m.yNcol)
    ensures r.Ok? ==> r.value.names == CensusNames(m.order, locs)
    ensures r.Ok? ==> |r.value.names| == 1 + (m.order + 1) * |locs|
    ensures r.Ok? ==> |r.value.rows| == |MotifCensus(m, locs).value|
    ensures r.Ok? ==> forall a :: 0 <= a < |r.value.rows| ==>
      r.value.rows[a] == [MotifCensus(m, locs).value[a].count as int] + MotifCensus(m, locs).value[a].tuple
    ensures r.Ok? ==> forall a :: 0 <= a < |r.value.rows| ==> |r.value.rows[a]| == |r.value.names|
  {
    var table :- MotifCensus(m, locs);
    CensusWidth(m, locs, table);
    Ok(CensusMatrix(CensusNames(m.order, locs), FillMatrix(table, 1 + (m.order + 1) * |locs|)))
  }

  /** Every entry of the census carries one value per window row and
      requested column. */
  lemma CensusWidth(m: Defm, locs: seq<nat>, table: seq<Entry>)
    requires Valid(m) && LocsInRange(locs, m.yNcol) && Tallies(table, InitTuples(m, locs))
    ensures EntriesWide(table, 1 + (m.order + 1) * |locs|)
  {
    TalliedWidth(table, InitTuples(m, locs), (m.order + 1) * |locs|);
  }
}
