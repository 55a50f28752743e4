/** Where `DEFM::logodds` (defm-meat.hpp lines 365-408) puts its values: one
    slot per dataset row, NaN except at the current row of every window. The
    value itself is the log-odds of the model's conditional probability, a
    floating-point computation of the model base class; it is a parameter
    here: `score(w)` is what the method stores for window `w`. NaN is `None`. */
module LogOdds {
  import opened Results
  import opened Segmenter
  import opened Defm
  import opened Windows
  import Stats
  import Census

  /** The value the method stores for dataset row `r` when the window
      arrays are filled through `layout`: the score of the window whose
      current row is `r`, or NaN for the first `order` rows of a subject. */
  function Slot(m: Defm, layout: Layout, score: Window -> real, r: nat): Option<real>
    requires Valid(m) && r < |m.ids|
  {
    if Pos(m.ids, r) >= m.order then
      RowWindow(m, r);
      Some(score(BuildWindow(m, layout, r - m.order)))
    else None
  }

  /** The slots of every row before `upto`, NaN from `upto` on. */
  function SlotBefore(m: Defm, layout: Layout, score: Window -> real, upto: nat, r: nat): Option<real>
    requires Valid(m) && r < |m.ids|
  {
    if r < upto then Slot(m, layout, score, r) else None
  }

  /** Rows `start_i .. start_i + order - 1` have no window, so moving the
      filled boundary over them changes nothing. */
  lemma SkipHistory(m: Defm, layout: Layout, score: Window -> real, i: nat, r: nat)
    requires Valid(m) && i < m.Subjects() && r < |m.ids|
    ensures Start(m.startEnd, i) + m.order < |m.ids|
    ensures SlotBefore(m, layout, score, Start(m.startEnd, i), r) == SlotBefore(m, layout, score, Start(m.startEnd, i) + m.order, r)
  {
    var s := Start(m.startEnd, i);
    assert Len(m.startEnd, i) >= m.order + 1;
    RowCoordinates(m.ids, m.startEnd, m.order, i, m.order);
    if s <= r < s + m.order {
      RowCoordinates(m.ids, m.startEnd, m.order, i, r - s);
      assert s + (r - s) == r;
    }
  }

  /** The value written for offset `p` of subject `i` is the slot of its row
      `start_i + order + p`, which closes the window starting at
      `start_i + p`. */
  lemma WriteSlot(m: Defm, layout: Layout, score: Window -> real, i: nat, p: nat)
    requires Valid(m) && i < m.Subjects() && p < Len(m.startEnd, i) - m.order
    ensures Start(m.startEnd, i) + m.order + p < |m.ids|
    ensures Slot(m, layout, score, Start(m.startEnd, i) + m.order + p) ==
      Some(score(BuildWindow(m, layout, Start(m.startEnd, i) + p)))
  {
    RowCoordinates(m.ids, m.startEnd, m.order, i, m.order + p);
  }

  /** The loops of lines 371-404 with the window arrays filled through
      `layout`: one slot per row, all NaN, then for every subject and offset
      the score of the window at the row `M_order + start_i + n_proc`. */
  method LogOddsWith(m: Defm, layout: Layout, score: Window -> real) returns (res: seq<Option<real>>)
    requires Valid(m)
    ensures |res| == |m.ids|
    ensures forall r :: 0 <= r < |m.ids| ==> res[r] == Slot(m, layout, score, r)
  {
    res := seq(|m.ids|, _ => None);
    var i := 0;
    while i < m.Subjects()
      invariant i <= m.Subjects() && 0 <= RowsBefore(m.startEnd, i)
      invariant |res| == |m.ids|
      invariant forall r :: 0 <= r < |m.ids| ==> res[r] == SlotBefore(m, layout, score, RowsBefore(m.startEnd, i), r)
    {
      RowsBeforeIsStart(m.ids, m.startEnd, i);
      var start := Start(m.startEnd, i);
      forall r | 0 <= r < |m.ids|
        ensures res[r] == SlotBefore(m, layout, score, start + m.order, r)
      {
        SkipHistory(m, layout, score, i, r);
      }
      var p := 0;
      while p < Len(m.startEnd, i) - m.order
        invariant 0 <= p <= Len(m.startEnd, i) - m.order
        invariant |res| == |m.ids|
        invariant forall r :: 0 <= r < |m.ids| ==> res[r] == SlotBefore(m, layout, score, start + m.order + p, r)
      {
        WriteSlot(m, layout, score, i, p);
        var w := BuildWindow(m, layout, start + p);
        res := res[m.order + start + p := Some(score(w))];
        p := p + 1;
      }
      i := i + 1;
      RowsBeforeIsStart(m.ids, m.startEnd, i);
    }
    RowsBeforeIsStart(m.ids, m.startEnd, i);
  }

  /** `logodds` as intended: the window arrays read through the model's
      layout. */
  method LogOddsCorrected(m: Defm, score: Window -> real) returns (res: seq<Option<real>>)
    requires Valid(m)
    ensures |res| == |m.ids|
    ensures forall r :: 0 <= r < |m.ids| ==> res[r] == Slot(m, m.layout, score, r)
  {
    res := LogOddsWith(m, m.layout, score);
  }

  /** `logodds` as written: line 396 reads `Y[k * ID_length + row]`, the
      column-major position, whatever the model's layout. */
  method LogOddsAsWritten(m: Defm, score: Window -> real) returns (res: seq<Option<real>>)
    requires Valid(m)
    ensures |res| == |m.ids|
    ensures forall r :: 0 <= r < |m.ids| ==> res[r] == Slot(m, ColumnMajor, score, r)
  {
    res := LogOddsWith(m, ColumnMajor, score);
  }

  /** With the model's layout, row `r` holds a value exactly when the
      statistics mapping gives it a target row `k`, and the value is the
      score of window `k` of `init`. */
  lemma SlotMatchesStats(m: Defm, score: Window -> real, r: nat)
    requires Valid(m) && r < |m.ids|
    ensures Slot(m, m.layout, score, r).Some? <==> Stats.StatsReference(m.ids, m.order)[r].Some?
    ensures Stats.StatsReference(m.ids, m.order)[r].Some? ==>
      Stats.StatsReference(m.ids, m.order)[r].value < |Init(m)| &&
      Slot(m, m.layout, score, r) == Some(score(Init(m)[Stats.StatsReference(m.ids, m.order)[r].value]))
  {
    if Pos(m.ids, r) >= m.order {
      RowWindow(m, r);
      var i, q := Subject(m.ids, r), Pos(m.ids, r);
      RowSubject(m, r);
      Stats.ReferenceRowIsWindow(m, i, q);
      InitSlot(m, i, q - m.order);
    }
  }

  /** A score that reads cell `(0, 1)` of the window. */
  function FirstRowSecondColumn(w: Window): real {
    if 0 < |w.rows| && 1 < |w.rows[0]| then w.rows[0][1] as real else 0.0
  }

  /** On the two-row, row-major example with the score reading cell
      `(0, 1)` of the window, row 1 should hold 1 and the as-written
      column-major read gives 0. On a column-major model the two reads are
      the same by definition. */
  lemma AsWrittenMisreadsRowMajor()
    ensures Valid(Census.RowMajorExample())
    ensures Slot(Census.RowMajorExample(), RowMajor, FirstRowSecondColumn, 1) == Some(1.0)
    ensures Slot(Census.RowMajorExample(), ColumnMajor, FirstRowSecondColumn, 1) == Some(0.0)
  {
    Census.RowMajorExampleValid();
    var m := Census.RowMajorExample();
    assert Pos(m.ids, 1) == 1;
    BuildWindowCell(m, RowMajor, 0, 0, 1);
    BuildWindowCell(m, ColumnMajor, 0, 0, 1);
    assert YAt(m, RowMajor, 0, 1) == 1 && YAt(m, ColumnMajor, 0, 1) == 0;
  }
}
