/** The DEFM model object as far as the windowing layer sees it: the owned
    dataset (ids, outcome matrix Y, covariate matrix X), the Markov order, the
    storage layout, the subject segmentation and the variable names
    (defm-meat.hpp: constructor, accessors, `set_names`). */
module Defm {
  import opened Results
  import opened Segmenter
  import Decimal
  import Flat

  // ---------------------------------------------------------------------
  // Storage layout (init, lines 224-240)
  // ---------------------------------------------------------------------

  /** How a flat `nrow x ncol` buffer holds its matrix; chosen once per model. */
  datatype Layout = ColumnMajor | RowMajor

  /** `element_access`: the flat position of cell `(i, j)`. */
  function ElementIndex(layout: Layout, i: nat, j: nat, nrow: nat, ncol: nat): nat {
    match layout
    case ColumnMajor => i + j * nrow
    case RowMajor => j + i * ncol
  }

  /** The cell stored at flat position `idx`, the inverse of `ElementIndex`. */
  function CellOf(layout: Layout, idx: nat, nrow: nat, ncol: nat): (nat, nat)
    requires nrow > 0 && ncol > 0
  {
    match layout
    case ColumnMajor => (idx % nrow, idx / nrow)
    case RowMajor => (idx / ncol, idx % ncol)
  }

  /** Each layout maps the cells of an `nrow x ncol` matrix one-to-one onto
      the positions `[0, nrow * ncol)`, and `CellOf` reads the cell back. */
  lemma ElementIndexRoundTrip(layout: Layout, i: nat, j: nat, nrow: nat, ncol: nat)
    requires i < nrow && j < ncol
    ensures ElementIndex(layout, i, j, nrow, ncol) < nrow * ncol
    ensures CellOf(layout, ElementIndex(layout, i, j, nrow, ncol), nrow, ncol) == (i, j)
  {
    match layout
    case ColumnMajor =>
      Flat.DivModOf(i + j * nrow, nrow, j, i);
      Flat.MulMono(j + 1, ncol, nrow);
    case RowMajor =>
      Flat.DivModOf(j + i * ncol, ncol, i, j);
      Flat.MulMono(i + 1, nrow, ncol);
  }

  /** Every position of the buffer holds exactly one cell. */
  lemma CellOfRoundTrip(layout: Layout, idx: nat, nrow: nat, ncol: nat)
    requires nrow > 0 && ncol > 0 && idx < nrow * ncol
    ensures CellOf(layout, idx, nrow, ncol).0 < nrow && CellOf(layout, idx, nrow, ncol).1 < ncol
    ensures ElementIndex(layout, CellOf(layout, idx, nrow, ncol).0, CellOf(layout, idx, nrow, ncol).1, nrow, ncol) == idx
  {
    match layout
    case ColumnMajor =>
      if idx / nrow >= ncol {
        Flat.MulMono(ncol, idx / nrow, nrow);
        assert false;
      }
    case RowMajor =>
      if idx / ncol >= nrow {
        Flat.MulMono(nrow, idx / ncol, ncol);
        assert false;
      }
  }

  // ---------------------------------------------------------------------
  // The model object
  // ---------------------------------------------------------------------

  /** The engine's state after construction: an owned copy of the dataset
      (`ID`, `Y`, `X` flat buffers of `ID_length`, `ID_length * Y_ncol` and
      `ID_length * X_ncol` entries), the order `M_order`, the layout, the flat
      `start_end` segmentation and the variable names. */
  datatype Defm = Defm(
    ids: seq<int>,
    y: seq<int>,
    x: seq<real>,
    yNcol: nat,
    xNcol: nat,
    order: nat,
    layout: Layout,
    startEnd: seq<nat>,
    yNames: seq<string>,
    xNames: seq<string>)
  {
    /** `N`, the number of subjects. */
    function Subjects(): nat {
      Count(startEnd)
    }
  }

  /** The buffers have the sizes the constructor copies. */
  ghost predicate Shaped(m: Defm) {
    |m.y| == |m.ids| * m.yNcol && |m.x| == |m.ids| * m.xNcol
  }

  /** A model the constructor can return: correctly sized buffers, the ids
      split into their maximal runs, each run long enough for one window, and
      one name per column. */
  ghost predicate Valid(m: Defm) {
    && Shaped(m)
    && Partition(m.ids, m.startEnd)
    && LongEnough(m.startEnd, m.order)
    && |m.yNames| == m.yNcol
    && |m.xNames| == m.xNcol
  }

  /** Outcome cell `(row, col)` read through a layout. */
  function YAt(m: Defm, layout: Layout, row: nat, col: nat): int
    requires Shaped(m) && row < |m.ids| && col < m.yNcol
  {
    ElementIndexRoundTrip(layout, row, col, |m.ids|, m.yNcol);
    m.y[ElementIndex(layout, row, col, |m.ids|, m.yNcol)]
  }

  /** The names `prefix0, prefix1, ...` (lines 207-211). */
  function DefaultNames(prefix: string, n: nat): seq<string> {
    seq(n, i requires 0 <= i < n => prefix + Decimal.NatToString(i))
  }

  /** The default names are pairwise distinct and each carries the prefix. */
  lemma DefaultNamesDistinct(prefix: string, n: nat)
    ensures |DefaultNames(prefix, n)| == n
    ensures forall i :: 0 <= i < n ==> DefaultNames(prefix, n)[i][..|prefix|] == prefix
    ensures forall i, j :: 0 <= i < n && 0 <= j < n && DefaultNames(prefix, n)[i] == DefaultNames(prefix, n)[j] ==> i == j
  {
    var names := DefaultNames(prefix, n);
    forall i, j | 0 <= i < n && 0 <= j < n && names[i] == names[j]
      ensures i == j
    {
      assert names[i][|prefix|..] == Decimal.NatToString(i);
      assert names[j][|prefix|..] == Decimal.NatToString(j);
      Decimal.NatToStringInjective(i, j);
    }
  }

  /** The constructor (lines 108-215) with the dataset owned by the model:
      record the dimensions, segment the ids, and name the columns `y0..`,
      `X0..`. A subject too short for the order is a length error. */
  function Construct(ids: seq<int>, y: seq<int>, x: seq<real>, yNcol: nat, xNcol: nat, order: nat, layout: Layout): (r: Result<Defm>)
    requires |y| == |ids| * yNcol && |x| == |ids| * xNcol
    ensures r.Ok? ==> Valid(r.value)
    ensures r.Ok? ==> r.value.ids == ids && r.value.y == y && r.value.x == x && r.value.order == order
    ensures r.Ok? ==> r.value.yNcol == yNcol && r.value.xNcol == xNcol && r.value.layout == layout
    ensures r.Ok? ==> r.value.yNames == DefaultNames("y", yNcol) && r.value.xNames == DefaultNames("X", xNcol)
    ensures r.Err? ==> ShortRunError(ids, order, r.error)
  {
    var se :- Segment(ids, order);
    Ok(Defm(ids, y, x, yNcol, xNcol, order, layout, se, DefaultNames("y", yNcol), DefaultNames("X", xNcol)))
  }

  /** `set_names` (lines 410-425): both lists must match the column counts,
      the outcome list being checked first; on success only the names change. */
  function SetNames(m: Defm, yNames: seq<string>, xNames: seq<string>): (r: Result<Defm>)
    ensures r.Ok? <==> |yNames| == m.yNcol && |xNames| == m.xNcol
    ensures |yNames| != m.yNcol ==> r == Err(YNamesLength(|yNames|, m.yNcol))
    ensures |yNames| == m.yNcol && |xNames| != m.xNcol ==> r == Err(XNamesLength(|xNames|, m.xNcol))
    ensures r.Ok? ==> r.value.yNames == yNames && r.value.xNames == xNames
    ensures r.Ok? ==> r.value.(yNames := m.yNames, xNames := m.xNames) == m
    ensures r.Ok? && Valid(m) ==> Valid(r.value)
  {
    if |yNames| != m.yNcol then Err(YNamesLength(|yNames|, m.yNcol))
    else if |xNames| != m.xNcol then Err(XNamesLength(|xNames|, m.xNcol))
    else Ok(m.(yNames := yNames, xNames := xNames))
  }
}
