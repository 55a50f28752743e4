/** Simulation bookkeeping (`DEFM::simulate`, defm-meat.hpp lines 39-106) and
    the R wrapper that prepares and reads back its buffer (`sim_defm`,
    code.cpp lines 227-265). The sampling step itself belongs to the model
    base class and is a parameter here: `draw(w, k)` is the window drawn from
    the support of `w` as the `k`-th draw of the run. */
module Simulate {
  import opened Results
  import opened Segmenter
  import opened Defm
  import opened Windows
  import Flat

  /** The sampler returns windows of the shape it is given. */
  ghost predicate DrawKeepsShape(draw: (Window, nat) -> Window, nrow: nat, ncol: nat) {
    forall w: Window, k: nat :: WellFormed(w) && w.nrow == nrow && w.ncol == ncol ==>
      WellFormed(draw(w, k)) && draw(w, k).nrow == nrow && draw(w, k).ncol == ncol
  }

  function Zeros(n: nat): seq<int> {
    seq(n, _ => 0)
  }

  /** Lines 71-83: a fresh zero window whose rows `0 .. nrow-2` are copied
      from rows `1 .. nrow-1` of the previous draw, anchored at `xRow`. */
  function Shift(prev: Window, xRow: nat): (w: Window)
    requires WellFormed(prev) && prev.nrow >= 1
    ensures WellFormed(w) && w.nrow == prev.nrow && w.ncol == prev.ncol && w.xRow == xRow
    ensures w.rows[..w.nrow - 1] == prev.rows[1..]
    ensures w.rows[w.nrow - 1] == Zeros(prev.ncol)
  {
    var w := Window(prev.nrow, prev.ncol,
      seq(prev.nrow, t requires 0 <= t < prev.nrow =>
        seq(prev.ncol, j requires 0 <= j < prev.ncol => if t + 1 < prev.nrow then prev.rows[t + 1][j] else 0)),
      xRow);
    assert forall t :: 0 <= t < prev.nrow - 1 ==> w.rows[t] == prev.rows[t + 1];
    w
  }

  /** The window handed to the sampler for offset `p` of subject `i`: the
      data window of `init` at the first offset (line 60, `idx->at(model_num)`),
      the shifted previous draw afterwards (lines 71-90). */
  function DrawInput(m: Defm, draw: (Window, nat) -> Window, i: nat, p: nat): (w: Window)
    requires Valid(m) && DrawKeepsShape(draw, m.order + 1, m.yNcol)
    requires i < m.Subjects() && p < Len(m.startEnd, i) - m.order
    ensures WellFormed(w) && w.nrow == m.order + 1 && w.ncol == m.yNcol
    decreases p, 0
  {
    if p == 0 then InitSlot(m, i, 0); Init(m)[GlobalIndex(m, i, 0)]
    else Shift(Drawn(m, draw, i, p - 1), Start(m.startEnd, i) + p)
  }

  /** The window drawn for offset `p` of subject `i`; the draws are numbered
      in `model_ord` order. */
  function Drawn(m: Defm, draw: (Window, nat) -> Window, i: nat, p: nat): (w: Window)
    requires Valid(m) && DrawKeepsShape(draw, m.order + 1, m.yNcol)
    requires i < m.Subjects() && p < Len(m.startEnd, i) - m.order
    ensures WellFormed(w) && w.nrow == m.order + 1 && w.ncol == m.yNcol
    decreases p, 1
  {
    WindowsBeforeMonotone(m.startEnd, m.order, 0, i);
    var k := GlobalIndex(m, i, p);
    draw(DrawInput(m, draw, i, p), k)
  }

  /** The chain of a subject: it starts from the subject's first data window,
      and every later input keeps the previous draw's rows `1 .. order` as its
      history, has a zero current row, and is anchored at `start_i + p`. */
  lemma ChainShift(m: Defm, draw: (Window, nat) -> Window, i: nat, p: nat)
    requires Valid(m) && DrawKeepsShape(draw, m.order + 1, m.yNcol)
    requires i < m.Subjects() && p < Len(m.startEnd, i) - m.order
    ensures p == 0 ==> DrawInput(m, draw, i, p) == WindowAt(m, i, 0)
    ensures p > 0 ==> DrawInput(m, draw, i, p).rows[..m.order] == Drawn(m, draw, i, p - 1).rows[1..]
    ensures p > 0 ==> DrawInput(m, draw, i, p).rows[m.order] == Zeros(m.yNcol)
    ensures p > 0 ==> DrawInput(m, draw, i, p).xRow == Start(m.startEnd, i) + p
  {
  }

  /** The simulated outcome row for dataset row `r`, which must have at least
      `order` earlier rows in its subject: the current row of the draw for the
      window whose current row is `r`. */
  function SimRow(m: Defm, draw: (Window, nat) -> Window, r: nat): (row: seq<int>)
    requires Valid(m) && DrawKeepsShape(draw, m.order + 1, m.yNcol)
    requires r < |m.ids| && Pos(m.ids, r) >= m.order
    ensures |row| == m.yNcol
  {
    RowSubject(m, r);
    Drawn(m, draw, Subject(m.ids, r), Pos(m.ids, r) - m.order).rows[m.order]
  }

  /** Cell `(r, k)` of the output buffer once every row before `upto` has
      been processed: simulated for a non-history row, untouched otherwise. */
  function Expected(m: Defm, draw: (Window, nat) -> Window, yOut: seq<int>, upto: nat, r: nat, k: nat): int
    requires Valid(m) && DrawKeepsShape(draw, m.order + 1, m.yNcol)
    requires |yOut| == |m.ids| * m.yNcol && r < |m.ids| && k < m.yNcol
  {
    if r < upto && Pos(m.ids, r) >= m.order then SimRow(m, draw, r)[k]
    else Flat.Cell(yOut, m.yNcol, |m.ids|, r, k)
  }

  /** The buffer agrees with `Expected` in every cell. */
  ghost predicate Processed(m: Defm, draw: (Window, nat) -> Window, yOut: seq<int>, out: seq<int>, upto: nat)
    requires Valid(m) && DrawKeepsShape(draw, m.order + 1, m.yNcol)
    requires |yOut| == |m.ids| * m.yNcol && |out| == |yOut|
  {
    forall r, k :: 0 <= r < |m.ids| && 0 <= k < m.yNcol ==>
      Flat.Cell(out, m.yNcol, |m.ids|, r, k) == Expected(m, draw, yOut, upto, r, k)
  }

  /** Lines 61-62 and 91-92: `*(y_out + n_entry++) = v` for each `v` of `vals`. */
  function WriteAt(out: seq<int>, pos: nat, vals: seq<int>): (o: seq<int>)
    requires pos + |vals| <= |out|
    ensures |o| == |out|
  {
    out[..pos] + vals + out[pos + |vals|..]
  }

  /** The write replaces positions `pos .. pos + |vals| - 1` and keeps the others. */
  lemma WriteAtIndex(out: seq<int>, pos: nat, vals: seq<int>, x: nat)
    requires pos + |vals| <= |out| && x < |out|
    ensures WriteAt(out, pos, vals)[x] == if pos <= x < pos + |vals| then vals[x - pos] else out[x]
  {
  }

  /** A full row written at `row * n` fits in the buffer. */
  lemma WriteRowAt(out: seq<int>, n: nat, rows: nat, row: nat, vals: seq<int>)
    requires |out| == rows * n && row < rows && |vals| == n
    ensures Flat.Offset(row, n) + n <= |out|
  {
    Flat.MulMono(row + 1, rows, n);
    assert (row + 1) * n == row * n + n;
  }

  /** Writing a full row at `row * n` replaces that row and no other. */
  lemma WriteCellAt(out: seq<int>, n: nat, rows: nat, row: nat, vals: seq<int>, r: nat, k: nat)
    requires |out| == rows * n && row < rows && |vals| == n
    requires r < rows && k < n
    ensures Flat.Offset(row, n) + n <= |out|
    ensures Flat.Cell(WriteAt(out, Flat.Offset(row, n), vals), n, rows, r, k) ==
      if r == row then vals[k] else Flat.Cell(out, n, rows, r, k)
  {
    WriteRowAt(out, n, rows, row, vals);
    Flat.MulBound(r, k, n, rows);
    WriteAtIndex(out, Flat.Offset(row, n), vals, Flat.Offset(r, n) + k);
    if r < row {
      Flat.MulBound(r, k, n, row);
    } else if row < r {
      Flat.MulMono(row + 1, r, n);
      assert (row + 1) * n == row * n + n;
    }
  }

  /** Rows `start_i .. start_i + order - 1` are history rows, so moving the
      processed boundary over them changes nothing. */
  lemma SkipHistory(m: Defm, draw: (Window, nat) -> Window, yOut: seq<int>, i: nat)
    requires Valid(m) && DrawKeepsShape(draw, m.order + 1, m.yNcol)
    requires |yOut| == |m.ids| * m.yNcol && i < m.Subjects()
    ensures Start(m.startEnd, i) + m.order < |m.ids|
    ensures forall r, k :: 0 <= r < |m.ids| && 0 <= k < m.yNcol ==>
      Expected(m, draw, yOut, Start(m.startEnd, i), r, k) == Expected(m, draw, yOut, Start(m.startEnd, i) + m.order, r, k)
  {
    var s := Start(m.startEnd, i);
    assert Len(m.startEnd, i) >= m.order + 1;
    RowCoordinates(m.ids, m.startEnd, m.order, i, m.order);
    forall r, k | 0 <= r < |m.ids| && 0 <= k < m.yNcol
      ensures Expected(m, draw, yOut, s, r, k) == Expected(m, draw, yOut, s + m.order, r, k)
    {
      if s <= r < s + m.order {
        RowCoordinates(m.ids, m.startEnd, m.order, i, r - s);
        assert s + (r - s) == r;
        assert Pos(m.ids, r) < m.order;
      }
    }
  }

  /** Dataset row written for offset `p` of subject `i`. */
  function DrawRow(m: Defm, i: nat, p: nat): (row: nat)
    requires Valid(m) && i < m.Subjects() && p < Len(m.startEnd, i) - m.order
    ensures row < |m.ids|
    ensures Pos(m.ids, row) == m.order + p && Subject(m.ids, row) == i
  {
    RowCoordinates(m.ids, m.startEnd, m.order, i, m.order + p);
    Start(m.startEnd, i) + m.order + p
  }

  /** The buffer after the write for offset `p` of subject `i` (lines 61-62
      and 91-92). */
  function WriteDraw(m: Defm, draw: (Window, nat) -> Window, out: seq<int>, i: nat, p: nat): (o: seq<int>)
    requires Valid(m) && DrawKeepsShape(draw, m.order + 1, m.yNcol)
    requires |out| == |m.ids| * m.yNcol
    requires i < m.Subjects() && p < Len(m.startEnd, i) - m.order
    ensures |o| == |out|
  {
    var row := DrawRow(m, i, p);
    var vals := Drawn(m, draw, i, p).rows[m.order];
    WriteRowAt(out, m.yNcol, |m.ids|, row, vals);
    WriteAt(out, Flat.Offset(row, m.yNcol), vals)
  }

  /** The write for offset `p` of subject `i` moves the processed boundary
      past its row, cell by cell. */
  lemma WriteStepAt(m: Defm, draw: (Window, nat) -> Window, yOut: seq<int>, out: seq<int>, i: nat, p: nat, r: nat, k: nat)
    requires Valid(m) && DrawKeepsShape(draw, m.order + 1, m.yNcol)
    requires |yOut| == |m.ids| * m.yNcol && |out| == |yOut|
    requires i < m.Subjects() && p < Len(m.startEnd, i) - m.order
    requires r < |m.ids| && k < m.yNcol
    requires Flat.Cell(out, m.yNcol, |m.ids|, r, k) == Expected(m, draw, yOut, DrawRow(m, i, p), r, k)
    ensures Flat.Cell(WriteDraw(m, draw, out, i, p), m.yNcol, |m.ids|, r, k) == Expected(m, draw, yOut, DrawRow(m, i, p) + 1, r, k)
  {
    var row := DrawRow(m, i, p);
    var vals := Drawn(m, draw, i, p).rows[m.order];
    WriteCellAt(out, m.yNcol, |m.ids|, row, vals, r, k);
    if r == row {
      assert SimRow(m, draw, r) == vals;
    }
  }

  /** The whole buffer after the write of `WriteStepAt`. */
  lemma WriteStep(m: Defm, draw: (Window, nat) -> Window, yOut: seq<int>, out: seq<int>, i: nat, p: nat)
    requires Valid(m) && DrawKeepsShape(draw, m.order + 1, m.yNcol)
    requires |yOut| == |m.ids| * m.yNcol && |out| == |yOut|
    requires i < m.Subjects() && p < Len(m.startEnd, i) - m.order
    requires forall r, k :: 0 <= r < |m.ids| && 0 <= k < m.yNcol ==>
      Flat.Cell(out, m.yNcol, |m.ids|, r, k) == Expected(m, draw, yOut, DrawRow(m, i, p), r, k)
    ensures forall r, k :: 0 <= r < |m.ids| && 0 <= k < m.yNcol ==>
      Flat.Cell(WriteDraw(m, draw, out, i, p), m.yNcol, |m.ids|, r, k) == Expected(m, draw, yOut, DrawRow(m, i, p) + 1, r, k)
  {
    forall r, k | 0 <= r < |m.ids| && 0 <= k < m.yNcol
      ensures Flat.Cell(WriteDraw(m, draw, out, i, p), m.yNcol, |m.ids|, r, k) == Expected(m, draw, yOut, DrawRow(m, i, p) + 1, r, k)
    {
      WriteStepAt(m, draw, yOut, out, i, p, r, k);
    }
  }

  /** The draw the loop makes at offset `p` of subject `i` as the
      `model_num`-th draw (lines 58-90): at the first offset it samples window
      `model_num` of `init`, later it samples the previous draw shifted up by
      one row and anchored at `start_i + p`. */
  function NextWindow(m: Defm, draw: (Window, nat) -> Window, i: nat, p: nat, last: Window, modelNum: nat): Window
    requires Valid(m) && i < m.Subjects()
    requires p == 0 ==> modelNum < |Init(m)|
    requires p > 0 ==> WellFormed(last) && last.nrow >= 1
  {
    if p == 0 then draw(Init(m)[modelNum], modelNum)
    else draw(Shift(last, Start(m.startEnd, i) + p), modelNum)
  }

  /** Run from the subject's first draw on, the loop's draws are the chain. */
  lemma NextDraw(m: Defm, draw: (Window, nat) -> Window, i: nat, p: nat, last: Window)
    requires Valid(m) && DrawKeepsShape(draw, m.order + 1, m.yNcol)
    requires i < m.Subjects() && p < Len(m.startEnd, i) - m.order
    requires p > 0 ==> last == Drawn(m, draw, i, p - 1)
    ensures 0 <= WindowsBefore(m.startEnd, m.order, i) + p < |Init(m)|
    ensures p > 0 ==> WellFormed(last) && last.nrow >= 1
    ensures NextWindow(m, draw, i, p, last, WindowsBefore(m.startEnd, m.order, i) + p) == Drawn(m, draw, i, p)
  {
    InitSlot(m, i, p);
  }

  /** The facts one iteration of the `n_proc` loop needs: the draw it makes
      is the chain's, the write fits, and the write advances the buffer. */
  lemma SubjectStep(m: Defm, draw: (Window, nat) -> Window, yOut: seq<int>, out: seq<int>, i: nat, p: nat, last: Window, nEntry: nat)
    requires Valid(m) && DrawKeepsShape(draw, m.order + 1, m.yNcol)
    requires |yOut| == |m.ids| * m.yNcol && |out| == |yOut|
    requires i < m.Subjects() && p < Len(m.startEnd, i) - m.order
    requires nEntry == Flat.Offset(Start(m.startEnd, i) + m.order + p, m.yNcol)
    requires p > 0 ==> last == Drawn(m, draw, i, p - 1)
    requires Processed(m, draw, yOut, out, Start(m.startEnd, i) + m.order + p)
    ensures 0 <= WindowsBefore(m.startEnd, m.order, i) + p < |Init(m)|
    ensures p > 0 ==> WellFormed(last) && last.nrow >= 1
    ensures var next := NextWindow(m, draw, i, p, last, WindowsBefore(m.startEnd, m.order, i) + p);
      && next == Drawn(m, draw, i, p)
      && |next.rows| == m.order + 1
      && nEntry + |next.rows[m.order]| <= |out|
      && nEntry + m.yNcol == Flat.Offset(Start(m.startEnd, i) + m.order + p + 1, m.yNcol)
      && Processed(m, draw, yOut, WriteAt(out, nEntry, next.rows[m.order]), Start(m.startEnd, i) + m.order + p + 1)
  {
    NextDraw(m, draw, i, p, last);
    var row := DrawRow(m, i, p);
    WriteProcessed(m, draw, yOut, out, i, p);
    WriteRowAt(out, m.yNcol, |m.ids|, row, Drawn(m, draw, i, p).rows[m.order]);
    Flat.OffsetSucc(row, m.yNcol);
  }

  /** The write for offset `p` of subject `i` moves the processed boundary
      from its row to the next. */
  lemma WriteProcessed(m: Defm, draw: (Window, nat) -> Window, yOut: seq<int>, out: seq<int>, i: nat, p: nat)
    requires Valid(m) && DrawKeepsShape(draw, m.order + 1, m.yNcol)
    requires |yOut| == |m.ids| * m.yNcol && |out| == |yOut|
    requires i < m.Subjects() && p < Len(m.startEnd, i) - m.order
    requires Processed(m, draw, yOut, out, DrawRow(m, i, p))
    ensures Processed(m, draw, yOut, WriteDraw(m, draw, out, i, p), DrawRow(m, i, p) + 1)
  {
    WriteStep(m, draw, yOut, out, i, p);
  }

  /** One iteration of the `n_proc` loop (lines 58-92): draw the window for
      offset `p` of subject `i` and write its current row at `n_entry`. Run
      from the loop state before offset `p`, it leaves the loop state after
      it. */
  method SimulateStep(m: Defm, draw: (Window, nat) -> Window, yOut: seq<int>, out0: seq<int>, i: nat, p: nat, last0: Window, modelNum0: nat, nEntry0: nat)
    returns (out: seq<int>, last: Window, modelNum: nat, nEntry: nat)
    requires Valid(m) && DrawKeepsShape(draw, m.order + 1, m.yNcol)
    requires |yOut| == |m.ids| * m.yNcol && |out0| == |yOut|
    requires i < m.Subjects() && p < Len(m.startEnd, i) - m.order
    requires modelNum0 == WindowsBefore(m.startEnd, m.order, i) + p
    requires nEntry0 == Flat.Offset(Start(m.startEnd, i) + m.order + p, m.yNcol)
    requires p > 0 ==> last0 == Drawn(m, draw, i, p - 1)
    requires Processed(m, draw, yOut, out0, Start(m.startEnd, i) + m.order + p)
    ensures |out| == |yOut|
    ensures last == Drawn(m, draw, i, p)
    ensures modelNum == WindowsBefore(m.startEnd, m.order, i) + p + 1
    ensures nEntry == Flat.Offset(Start(m.startEnd, i) + m.order + p + 1, m.yNcol)
    ensures Processed(m, draw, yOut, out, Start(m.startEnd, i) + m.order + p + 1)
  {
    SubjectStep(m, draw, yOut, out0, i, p, last0, nEntry0);
    last := NextWindow(m, draw, i, p, last0, modelNum0);
    modelNum := modelNum0 + 1;
    out := WriteAt(out0, nEntry0, last.rows[m.order]);
    nEntry := nEntry0 + m.yNcol;
  }

  /** The `n_proc` loop of one subject (lines 56-97): draw a window for each
      offset, from the subject's first data window and then from the shifted
      previous draw, and write its current row at row `start_i + order + p`.
      `modelNum` and `nEntry` are the running counters of the whole run. */
  method SimulateSubject(m: Defm, draw: (Window, nat) -> Window, yOut: seq<int>, out0: seq<int>, i: nat, modelNum0: nat, nEntry0: nat)
    returns (out: seq<int>, modelNum: nat, nEntry: nat)
    requires Valid(m) && DrawKeepsShape(draw, m.order + 1, m.yNcol)
    requires |yOut| == |m.ids| * m.yNcol && |out0| == |yOut|
    requires i < m.Subjects()
    requires modelNum0 == WindowsBefore(m.startEnd, m.order, i)
    requires nEntry0 == Flat.Offset(Start(m.startEnd, i) + m.order, m.yNcol)
    requires Processed(m, draw, yOut, out0, Start(m.startEnd, i) + m.order)
    ensures |out| == |yOut|
    ensures modelNum == WindowsBefore(m.startEnd, m.order, i + 1)
    ensures nEntry == Flat.Offset(End(m.startEnd, i) + 1, m.yNcol)
    ensures Processed(m, draw, yOut, out, End(m.startEnd, i) + 1)
  {
    var n, ord := m.yNcol, m.order;
    var start := Start(m.startEnd, i);
    var windows := Len(m.startEnd, i) - ord;
    out, modelNum, nEntry := out0, modelNum0, nEntry0;
    var last := Window(0, 0, [], 0);
    var p := 0;
    while p < windows
      invariant 0 <= p <= windows
      invariant |out| == |yOut|
      invariant nEntry == Flat.Offset(start + ord + p, n)
      invariant modelNum == WindowsBefore(m.startEnd, ord, i) + p
      invariant p > 0 ==> last == Drawn(m, draw, i, p - 1)
      invariant Processed(m, draw, yOut, out, start + ord + p)
    {
      out, last, modelNum, nEntry := SimulateStep(m, draw, yOut, out, i, p, last, modelNum, nEntry);
      p := p + 1;
    }
  }

  /** `simulate`: every subject in turn; between subjects `n_entry` skips the
      `order` history rows of the next subject (line 99). History rows of
      the buffer are never written; every other row holds the current row of
      the window drawn for it. */
  method Simulate(m: Defm, draw: (Window, nat) -> Window, yOut: seq<int>) returns (out: seq<int>)
    requires Valid(m) && DrawKeepsShape(draw, m.order + 1, m.yNcol)
    requires |yOut| == |m.ids| * m.yNcol
    ensures |out| == |yOut|
    ensures forall r, k :: 0 <= r < |m.ids| && 0 <= k < m.yNcol && Pos(m.ids, r) < m.order ==>
      Flat.Cell(out, m.yNcol, |m.ids|, r, k) == Flat.Cell(yOut, m.yNcol, |m.ids|, r, k)
    ensures forall r, k :: 0 <= r < |m.ids| && 0 <= k < m.yNcol && Pos(m.ids, r) >= m.order ==>
      Flat.Cell(out, m.yNcol, |m.ids|, r, k) == SimRow(m, draw, r)[k]
  {
    var n, ord, se := m.yNcol, m.order, m.startEnd;
    out := yOut;
    var modelNum := 0;
    var nEntry := ord * n;
    var i := 0;
    while i < m.Subjects()
      invariant i <= m.Subjects()
      invariant 0 <= RowsBefore(se, i)
      invariant |out| == |yOut|
      invariant nEntry == Flat.Offset(RowsBefore(se, i) + ord, n)
      invariant modelNum == WindowsBefore(se, ord, i)
      invariant Processed(m, draw, yOut, out, RowsBefore(se, i))
    {
      RowsBeforeIsStart(m.ids, se, i);
      SkipHistory(m, draw, yOut, i);
      out, modelNum, nEntry := SimulateSubject(m, draw, yOut, out, i, modelNum, nEntry);
      Flat.OffsetAdd(End(se, i) + 1, ord, n);
      nEntry := nEntry + ord * n;
      i := i + 1;
      RowsBeforeIsStart(m.ids, se, i);
    }
    RowsBeforeIsStart(m.ids, se, i);
  }

  // ---------------------------------------------------------------------
  // The R wrapper `sim_defm` (code.cpp lines 227-265; the same loop again in
  // defm-object.cpp lines 142-186)
  // ---------------------------------------------------------------------

  /** What `sim_defm` returns in cell `(r, k)`: the simulated value of a row
      that closes a window, unless that value is the sentinel `-1`; otherwise
      the observed outcome when `fillT0` is set and `-1` when it is not. */
  function SimDefmCell(m: Defm, draw: (Window, nat) -> Window, fillT0: bool, r: nat, k: nat): int
    requires Valid(m) && DrawKeepsShape(draw, m.order + 1, m.yNcol)
    requires r < |m.ids| && k < m.yNcol
  {
    if Pos(m.ids, r) >= m.order && SimRow(m, draw, r)[k] != -1 then SimRow(m, draw, r)[k]
    else if fillT0 then YAt(m, m.layout, r, k)
    else -1
  }

  /** Lines 251-254 with the outcome matrix read through its layout: a cell
      still holding `-1` after the simulation is refilled from the data. */
  function RestoreCell(m: Defm, out: seq<int>, fillT0: bool, r: nat, k: nat): int
    requires Shaped(m) && |out| == |m.ids| * m.yNcol
    requires r < |m.ids| && k < m.yNcol
  {
    var v := Flat.Cell(out, m.yNcol, |m.ids|, r, k);
    if fillT0 && v == -1 then YAt(m, m.layout, r, k) else v
  }

  /** The refilled cell is the one `SimDefmCell` describes, for a buffer that
      started as all `-1` and went through `Simulate`. */
  lemma RestoreMatches(m: Defm, draw: (Window, nat) -> Window, fillT0: bool, out: seq<int>, r: nat, k: nat)
    requires Valid(m) && DrawKeepsShape(draw, m.order + 1, m.yNcol)
    requires |out| == |m.ids| * m.yNcol && r < |m.ids| && k < m.yNcol
    requires Pos(m.ids, r) < m.order ==> Flat.Cell(out, m.yNcol, |m.ids|, r, k) == -1
    requires Pos(m.ids, r) >= m.order ==> Flat.Cell(out, m.yNcol, |m.ids|, r, k) == SimRow(m, draw, r)[k]
    ensures RestoreCell(m, out, fillT0, r, k) == SimDefmCell(m, draw, fillT0, r, k)
  {
  }

  /** `sim_defm`: a buffer of `-1`, the simulation, then the matrix read back
      row by row, cells still at `-1` refilled from the data when `fillT0`
      is set. */
  method SimDefm(m: Defm, draw: (Window, nat) -> Window, fillT0: bool) returns (res: seq<seq<int>>)
    requires Valid(m) && DrawKeepsShape(draw, m.order + 1, m.yNcol)
    ensures |res| == |m.ids|
    ensures forall r :: 0 <= r < |res| ==> |res[r]| == m.yNcol
    ensures forall r, k :: 0 <= r < |m.ids| && 0 <= k < m.yNcol ==> res[r][k] == SimDefmCell(m, draw, fillT0, r, k)
  {
    var nrows, ncols := |m.ids|, m.yNcol;
    var buffer := seq(nrows * ncols, _ => -1);
    var out := Simulate(m, draw, buffer);
    res := [];
    var iter := 0;
    var i := 0;
    while i < nrows
      invariant i <= nrows && |res| == i
      invariant iter == Flat.Offset(i, ncols)
      invariant forall a :: 0 <= a < i ==> |res[a]| == ncols
      invariant forall a, b :: 0 <= a < i && 0 <= b < ncols ==> res[a][b] == RestoreCell(m, out, fillT0, a, b)
    {
      var row := [];
      var j := 0;
      while j < ncols
        invariant j <= ncols && |row| == j
        invariant iter == Flat.Offset(i, ncols) + j
        invariant forall b :: 0 <= b < j ==> row[b] == RestoreCell(m, out, fillT0, i, b)
      {
        Flat.MulBound(i, j, ncols, nrows);
        var v := if fillT0 && out[iter] == -1 then YAt(m, m.layout, i, j) else out[iter];
        row := row + [v];
        iter := iter + 1;
        j := j + 1;
      }
      Flat.OffsetSucc(i, ncols);
      res := res + [row];
      i := i + 1;
    }
    forall r, k | 0 <= r < nrows && 0 <= k < ncols
      ensures res[r][k] == SimDefmCell(m, draw, fillT0, r, k)
    {
      Flat.MulBound(r, k, ncols, nrows);
      assert Flat.Cell(buffer, ncols, nrows, r, k) == -1;
      RestoreMatches(m, draw, fillT0, out, r, k);
    }
  }

  /** Lines 251-252 as written: the refill reads `Y[j * ncols + i]`, which
      is the outcome matrix read with the row and column roles swapped and
      the row count replaced by the column count. `None` when that index lies
      outside the `nrows * ncols` buffer. */
  function RestoreCellAsWritten(m: Defm, out: seq<int>, fillT0: bool, r: nat, k: nat): Option<int>
    requires Shaped(m) && |out| == |m.ids| * m.yNcol
    requires r < |m.ids| && k < m.yNcol
  {
    var v := Flat.Cell(out, m.yNcol, |m.ids|, r, k);
    if fillT0 && v == -1 then
      (if k * m.yNcol + r < |m.y| then Some(m.y[k * m.yNcol + r]) else None)
    else Some(v)
  }

  /** The as-written refill agrees with the corrected one on a column-major
      outcome matrix with as many rows as columns, and on every cell it does
      not refill. */
  lemma RestoreAsWrittenAgreesSquare(m: Defm, out: seq<int>, fillT0: bool, r: nat, k: nat)
    requires Shaped(m) && |out| == |m.ids| * m.yNcol
    requires r < |m.ids| && k < m.yNcol
    requires (m.layout == ColumnMajor && |m.ids| == m.yNcol) || !fillT0 || Flat.Cell(out, m.yNcol, |m.ids|, r, k) != -1
    ensures RestoreCellAsWritten(m, out, fillT0, r, k) == Some(RestoreCell(m, out, fillT0, r, k))
  {
    ElementIndexRoundTrip(m.layout, r, k, |m.ids|, m.yNcol);
  }

  /** Three rows, two outcome columns, order 1, column-major outcome matrix
      whose only 1 is cell `(0, 1)`. Row 0 is a history row, so the buffer
      still holds `-1` there; the as-written refill of cell `(0, 1)` reads
      `Y[1 * 2 + 0]`, which is cell `(2, 0)`, and returns 0 instead of 1. */
  lemma RestoreAsWrittenMisreads()
    ensures var m := Defm([1, 1, 1], [0, 0, 0, 1, 0, 0], [], 2, 0, 1, ColumnMajor, [0, 2], ["y0", "y1"], []);
      var out := [-1, -1, 0, 0, 0, 0];
      && Shaped(m) && |out| == |m.ids| * m.yNcol
      && RestoreCellAsWritten(m, out, true, 0, 1) == Some(0)
      && RestoreCell(m, out, true, 0, 1) == 1
  {
    var m := Defm([1, 1, 1], [0, 0, 0, 1, 0, 0], [], 2, 0, 1, ColumnMajor, [0, 2], ["y0", "y1"], []);
    var out := [-1, -1, 0, 0, 0, 0];
    assert Flat.Cell(out, 2, 3, 0, 1) == out[1];
  }

  /** Two rows, three outcome columns: the as-written refill of history cell
      `(0, 2)` reads `Y[2 * 3 + 0] = Y[6]`, one past the end of the
      six-cell outcome matrix. */
  lemma RestoreAsWrittenOutOfBounds()
    ensures var m := Defm([1, 1], [0, 0, 0, 0, 0, 0], [], 3, 0, 1, ColumnMajor, [0, 1], ["y0", "y1", "y2"], []);
      var out := [-1, -1, -1, 0, 0, 0];
      && Shaped(m) && |out| == |m.ids| * m.yNcol
      && RestoreCellAsWritten(m, out, true, 0, 2) == None
  {
    var out := [-1, -1, -1, 0, 0, 0];
    assert Flat.Cell(out, 3, 2, 0, 2) == out[2];
  }
}
