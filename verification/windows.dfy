/** The Markov windows of a model (`DEFM::init`, defm-meat.hpp lines 218-284):
    for every subject `i` and every offset `p < nobs_i - M_order`, an
    `(M_order + 1) x Y_ncol` array whose row `o` is dataset row
    `start_i + p + o`, read through the model's layout. */
module Windows {
  import opened Segmenter
  import opened Defm
  import Flat

  /** A `DEFMArray`: its shape, its cells row by row, and the dataset row its
      covariate view (`DEFMData`) is anchored at. */
  datatype Window = Window(nrow: nat, ncol: nat, rows: seq<seq<int>>, xRow: nat)

  ghost predicate WellFormed(w: Window) {
    |w.rows| == w.nrow && Flat.Uniform(w.rows, w.ncol)
  }

  /** The window whose row `o` is dataset row `first + o` read through
      `layout`, with its covariate view anchored at `first` (lines 257-275). */
  function BuildWindow(m: Defm, layout: Layout, first: nat): (w: Window)
    requires Shaped(m) && first + m.order < |m.ids|
    ensures WellFormed(w) && w.nrow == m.order + 1 && w.ncol == m.yNcol && w.xRow == first
  {
    Window(
      m.order + 1,
      m.yNcol,
      seq(m.order + 1, o requires 0 <= o < m.order + 1 =>
        seq(m.yNcol, k requires 0 <= k < m.yNcol => YAt(m, layout, first + o, k))),
      first)
  }

  /** Window `p` of subject `i`, read with the model's own layout. */
  function WindowAt(m: Defm, i: nat, p: nat): (w: Window)
    requires Valid(m) && i < m.Subjects() && p < Len(m.startEnd, i) - m.order
    ensures WellFormed(w) && w.nrow == m.order + 1 && w.ncol == m.yNcol
  {
    assert SegOk(m.ids, m.startEnd, i, |m.ids|);
    BuildWindow(m, m.layout, Start(m.startEnd, i) + p)
  }

  /** Position of window `p` of subject `i` in `model_ord`. */
  function GlobalIndex(m: Defm, i: nat, p: nat): int
    requires Valid(m) && i < m.Subjects()
  {
    WindowsBefore(m.startEnd, m.order, i) + p
  }

  /** The windows of subject `i`, in offset order (the `n_proc` loop). */
  function SubjectWindows(m: Defm, i: nat): (ws: seq<Window>)
    requires Valid(m) && i < m.Subjects()
    ensures |ws| == Len(m.startEnd, i) - m.order
    ensures forall p :: 0 <= p < |ws| ==> WellFormed(ws[p]) && ws[p].nrow == m.order + 1 && ws[p].ncol == m.yNcol
  {
    seq(Len(m.startEnd, i) - m.order, p requires 0 <= p < Len(m.startEnd, i) - m.order => WindowAt(m, i, p))
  }

  /** The windows of subjects `0 .. n-1`, subject by subject. */
  function InitUpTo(m: Defm, n: nat): (ws: seq<Window>)
    requires Valid(m) && n <= m.Subjects()
    ensures |ws| == WindowsBefore(m.startEnd, m.order, n)
    ensures forall w :: 0 <= w < |ws| ==> WellFormed(ws[w]) && ws[w].nrow == m.order + 1 && ws[w].ncol == m.yNcol
    ensures forall i, p :: 0 <= i < n && 0 <= p < Len(m.startEnd, i) - m.order ==>
      0 <= GlobalIndex(m, i, p) < |ws| && ws[GlobalIndex(m, i, p)] == WindowAt(m, i, p)
  {
    if n == 0 then []
    else
      var before := InitUpTo(m, n - 1);
      WindowsBeforeMonotone(m.startEnd, m.order, 0, n - 1);
      before + SubjectWindows(m, n - 1)
  }

  /** `init`: one window per subject and admissible offset, in subject order
      then offset order. There are `sum_i (nobs_i - M_order)`, that is
      `ID_length - N * M_order`, of them, and window `p` of subject `i` sits
      at `GlobalIndex(i, p)` with cell `(o, k)` equal to outcome cell
      `(start_i + p + o, k)` of the dataset under the model's layout. */
  function Init(m: Defm): (ws: seq<Window>)
    requires Valid(m)
    ensures |ws| == WindowsBefore(m.startEnd, m.order, m.Subjects())
    ensures |ws| == |m.ids| - m.Subjects() * m.order
    ensures forall w :: 0 <= w < |ws| ==> WellFormed(ws[w]) && ws[w].nrow == m.order + 1 && ws[w].ncol == m.yNcol
    ensures forall i, p :: 0 <= i < m.Subjects() && 0 <= p < Len(m.startEnd, i) - m.order ==>
      0 <= GlobalIndex(m, i, p) < |ws| && ws[GlobalIndex(m, i, p)] == WindowAt(m, i, p)
  {
    WindowsBeforeClosedForm(m.ids, m.startEnd, m.order, m.Subjects());
    InitUpTo(m, m.Subjects())
  }

  /** Window `p` of subject `i` sits at `GlobalIndex(i, p)` of `init`. */
  lemma InitSlot(m: Defm, i: nat, p: nat)
    requires Valid(m) && i < m.Subjects() && p < Len(m.startEnd, i) - m.order
    ensures 0 <= GlobalIndex(m, i, p) < |Init(m)|
    ensures Init(m)[GlobalIndex(m, i, p)] == WindowAt(m, i, p)
  {
    var ws := Init(m);
    assert WellFormed(WindowAt(m, i, p));
  }

  /** Every dataset row lies in its subject at its position. */
  lemma RowSubject(m: Defm, r: nat)
    requires Valid(m) && r < |m.ids|
    ensures Subject(m.ids, r) < m.Subjects()
    ensures Pos(m.ids, r) < Len(m.startEnd, Subject(m.ids, r))
    ensures Start(m.startEnd, Subject(m.ids, r)) + Pos(m.ids, r) == r
  {
    var i := SegmentOf(m.ids, m.startEnd, r);
    assert SegOk(m.ids, m.startEnd, i, |m.ids|);
    RowCoordinates(m.ids, m.startEnd, m.order, i, r - Start(m.startEnd, i));
  }

  /** The window whose current row is dataset row `r`, which has at least
      `order` earlier rows in its subject, is window `Pos(r) - order` of the
      row's subject. */
  lemma RowWindow(m: Defm, r: nat)
    requires Valid(m) && r < |m.ids| && Pos(m.ids, r) >= m.order
    ensures Subject(m.ids, r) < m.Subjects() && Pos(m.ids, r) - m.order < Len(m.startEnd, Subject(m.ids, r)) - m.order
    ensures m.order <= r
    ensures WindowAt(m, Subject(m.ids, r), Pos(m.ids, r) - m.order) == BuildWindow(m, m.layout, r - m.order)
  {
    RowSubject(m, r);
  }

  /** Cell `(o, k)` of window `p` of subject `i` is outcome cell
      `(start_i + p + o, k)`, read with the model's layout (lines 262-270). */
  lemma WindowCell(m: Defm, i: nat, p: nat, o: nat, k: nat)
    requires Valid(m) && i < m.Subjects() && p < Len(m.startEnd, i) - m.order
    requires o <= m.order && k < m.yNcol
    ensures Start(m.startEnd, i) + p + o < |m.ids|
    ensures WindowAt(m, i, p).rows[o][k] == YAt(m, m.layout, Start(m.startEnd, i) + p + o, k)
  {
    assert SegOk(m.ids, m.startEnd, i, |m.ids|);
    BuildWindowCell(m, m.layout, Start(m.startEnd, i) + p, o, k);
  }

  /** Cell `(o, k)` of a built window is outcome cell `(first + o, k)`. */
  lemma BuildWindowCell(m: Defm, layout: Layout, first: nat, o: nat, k: nat)
    requires Shaped(m) && first + m.order < |m.ids|
    requires o <= m.order && k < m.yNcol
    ensures BuildWindow(m, layout, first).rows[o][k] == YAt(m, layout, first + o, k)
  {
  }

  /** Every window of `init` is window `p` of exactly one subject `i`. */
  lemma {:induction false} WindowOf(m: Defm, w: nat) returns (i: nat, p: nat)
    requires Valid(m) && w < |Init(m)|
    ensures i < m.Subjects() && p < Len(m.startEnd, i) - m.order
    ensures GlobalIndex(m, i, p) == w
  {
    var se, ord := m.startEnd, m.order;
    i := 0;
    while WindowsBefore(se, ord, i + 1) <= w
      invariant i < m.Subjects()
      invariant WindowsBefore(se, ord, i) <= w
      decreases m.Subjects() - i
    {
      i := i + 1;
    }
    p := w - WindowsBefore(se, ord, i);
  }

  /** Only the stored outcome values matter, not the layout holding them:
      two models that agree cell by cell have the same windows. */
  lemma LayoutInvariance(m1: Defm, m2: Defm)
    requires Valid(m1) && Valid(m2)
    requires m1.ids == m2.ids && m1.order == m2.order && m1.yNcol == m2.yNcol && m1.startEnd == m2.startEnd
    requires forall r, k :: 0 <= r < |m1.ids| && 0 <= k < m1.yNcol ==> YAt(m1, m1.layout, r, k) == YAt(m2, m2.layout, r, k)
    ensures Init(m1) == Init(m2)
  {
    var ws1, ws2 := Init(m1), Init(m2);
    forall w | 0 <= w < |ws1|
      ensures ws1[w] == ws2[w]
    {
      SameInitSlot(m1, m2, w);
    }
  }

  /** Window `w` of `init` is the same in two models that agree cell by cell. */
  lemma SameInitSlot(m1: Defm, m2: Defm, w: nat)
    requires Valid(m1) && Valid(m2)
    requires m1.ids == m2.ids && m1.order == m2.order && m1.yNcol == m2.yNcol && m1.startEnd == m2.startEnd
    requires forall r, k :: 0 <= r < |m1.ids| && 0 <= k < m1.yNcol ==> YAt(m1, m1.layout, r, k) == YAt(m2, m2.layout, r, k)
    requires w < |Init(m1)|
    ensures w < |Init(m2)| && Init(m1)[w] == Init(m2)[w]
  {
    var i, p := WindowOf(m1, w);
    assert GlobalIndex(m2, i, p) == w;
    assert SegOk(m1.ids, m1.startEnd, i, |m1.ids|);
    SameCellsSameWindow(m1, m2, Start(m1.startEnd, i) + p);
  }

  lemma SameCellsSameWindow(m1: Defm, m2: Defm, first: nat)
    requires Shaped(m1) && Shaped(m2)
    requires m1.ids == m2.ids && m1.order == m2.order && m1.yNcol == m2.yNcol
    requires first + m1.order < |m1.ids|
    requires forall r, k :: 0 <= r < |m1.ids| && 0 <= k < m1.yNcol ==> YAt(m1, m1.layout, r, k) == YAt(m2, m2.layout, r, k)
    ensures BuildWindow(m1, m1.layout, first) == BuildWindow(m2, m2.layout, first)
  {
    var w1, w2 := BuildWindow(m1, m1.layout, first), BuildWindow(m2, m2.layout, first);
    forall o | 0 <= o <= m1.order
      ensures w1.rows[o] == w2.rows[o]
    {
      assert |w1.rows[o]| == |w2.rows[o]|;
    }
  }
}
