/** The row mapping of `get_stats`: which row of the model's statistics
    target fills each dataset row of the result, or NA. The source carries two
    revisions of this loop (code.cpp lines 377-403, defm-object.cpp lines
    298-322) that disagree; each is modelled as written and the difference is
    stated exactly. The target values themselves are not modelled: a row is
    `Some(k)` when it is copied from target row `k`, `None` when it is NA. */
module Stats {
  import opened Results
  import opened Segmenter
  import opened Defm
  import opened Windows

  // ---------------------------------------------------------------------
  // Variant A (code.cpp lines 377-403)
  // ---------------------------------------------------------------------

  /** The loop of variant A from row `i` on, with the counters `i_effective`
      and `n_obs_i` as they stand before row `i`: an id change makes the row
      NA and restarts the subject counter at 1; a row whose counter is below
      the order is NA; any other row takes the next target row. */
  function LoopA(ids: seq<int>, order: nat, i: nat, iEff: nat, nObs: nat): (rows: seq<Option<nat>>)
    requires i <= |ids|
    ensures |rows| == |ids| - i
    decreases |ids| - i
  {
    if i == |ids| then []
    else if i > 0 && ids[i - 1] != ids[i] then [None] + LoopA(ids, order, i + 1, iEff, 1)
    else if nObs < order then [None] + LoopA(ids, order, i + 1, iEff, nObs + 1)
    else [Some(iEff)] + LoopA(ids, order, i + 1, iEff + 1, nObs + 1)
  }

  /** Variant A exactly as written. */
  function GetStatsAAsWritten(ids: seq<int>, order: nat): (rows: seq<Option<nat>>)
    ensures |rows| == |ids|
  {
    LoopA(ids, order, 0, 0, 0)
  }

  /** Rows before `i` that variant A fills: not an id change, and at least
      `order` earlier rows of the same subject. */
  function FilledBeforeA(ids: seq<int>, order: nat, i: nat): nat
    requires i <= |ids|
  {
    if i == 0 then 0
    else FilledBeforeA(ids, order, i - 1) + (if !IsBoundary(ids, i - 1) && Pos(ids, i - 1) >= order then 1 else 0)
  }

  /** The counter `n_obs_i` standing before row `i` is one more than the
      position of row `i - 1` in its subject. */
  function CounterBefore(ids: seq<int>, i: nat): nat
    requires i <= |ids|
  {
    if i == 0 then 0 else Pos(ids, i - 1) + 1
  }

  /** Row `r` of the loop started at `i` with consistent counters: NA at an id
      change or below the order, otherwise the count of filled rows before. */
  lemma {:induction false} LoopAAt(ids: seq<int>, order: nat, i: nat, r: nat)
    requires i <= r < |ids|
    ensures LoopA(ids, order, i, FilledBeforeA(ids, order, i), CounterBefore(ids, i))[r - i] ==
      (if IsBoundary(ids, r) || Pos(ids, r) < order then None else Some(FilledBeforeA(ids, order, r)))
    decreases r - i
  {
    LoopAUnfold(ids, order, i);
    if i < r {
      LoopAAt(ids, order, i + 1, r);
    }
  }

  /** One iteration of variant A from consistent counters: the row's value,
      then the loop from the next row with its consistent counters. */
  lemma LoopAUnfold(ids: seq<int>, order: nat, i: nat)
    requires i < |ids|
    ensures LoopA(ids, order, i, FilledBeforeA(ids, order, i), CounterBefore(ids, i)) ==
      [if IsBoundary(ids, i) || Pos(ids, i) < order then None else Some(FilledBeforeA(ids, order, i))] +
      LoopA(ids, order, i + 1, FilledBeforeA(ids, order, i + 1), CounterBefore(ids, i + 1))
  {
  }

  /** Variant A row by row: NA at an id change or when fewer than `order`
      rows of the subject precede; otherwise the rows fill the target in
      order, one target row per filled row. */
  lemma GetStatsAClosedForm(ids: seq<int>, order: nat, r: nat)
    requires r < |ids|
    ensures GetStatsAAsWritten(ids, order)[r] ==
      (if IsBoundary(ids, r) || Pos(ids, r) < order then None else Some(FilledBeforeA(ids, order, r)))
  {
    LoopAAt(ids, order, 0, r);
  }

  /** The reference mapping: row `r` carries the statistics of the window
      whose current row it is, when there is one. */
  function StatsReference(ids: seq<int>, order: nat): (rows: seq<Option<nat>>)
    ensures |rows| == |ids|
    ensures forall r :: 0 <= r < |ids| ==> rows[r] == ReferenceRow(ids, order, r)
  {
    seq(|ids|, r requires 0 <= r < |ids| => ReferenceRow(ids, order, r))
  }

  function ReferenceRow(ids: seq<int>, order: nat, r: nat): Option<nat>
    requires r < |ids|
  {
    if Pos(ids, r) >= order then Some(WindowRank(ids, order, r)) else None
  }

  /** With order at least 1 an id change already has position 0 < order, so
      variant A's filled-row count is the window rank. */
  lemma {:induction false} FilledBeforeAIsRank(ids: seq<int>, order: nat, i: nat)
    requires order >= 1 && i <= |ids|
    ensures FilledBeforeA(ids, order, i) == WindowRank(ids, order, i)
  {
    if i > 0 {
      FilledBeforeAIsRank(ids, order, i - 1);
    }
  }

  /** For every order of at least 1, variant A is the reference mapping. */
  lemma GetStatsAMatchesReference(ids: seq<int>, order: nat)
    requires order >= 1
    ensures GetStatsAAsWritten(ids, order) == StatsReference(ids, order)
  {
    forall r | 0 <= r < |ids|
      ensures GetStatsAAsWritten(ids, order)[r] == StatsReference(ids, order)[r]
    {
      GetStatsAClosedForm(ids, order, r);
      FilledBeforeAIsRank(ids, order, r);
    }
  }

  /** With order 0 every row is a window, but variant A still makes every id
      change NA and skips its window: on ids `[1, 2]` the second row is NA
      instead of reading target row 1. */
  lemma GetStatsAOrderZeroDropsBoundary()
    ensures GetStatsAAsWritten([1, 2], 0) == [Some(0), None]
    ensures StatsReference([1, 2], 0) == [Some(0), Some(1)]
  {
    assert Pos([1, 2], 1) == 0;
    assert WindowRank([1, 2], 0, 1) == 1;
  }

  /** Variant A with the id change only restarting the subject counter (at 0,
      the position of the new row) and then falling through to the order test,
      so that the window of a new subject's first row is kept when the order
      is 0. */
  function LoopACorrected(ids: seq<int>, order: nat, i: nat, iEff: nat, nObs: nat): (rows: seq<Option<nat>>)
    requires i <= |ids|
    ensures |rows| == |ids| - i
    decreases |ids| - i
  {
    if i == |ids| then []
    else
      var n := if i > 0 && ids[i - 1] != ids[i] then 0 else nObs;
      if n < order then [None] + LoopACorrected(ids, order, i + 1, iEff, n + 1)
      else [Some(iEff)] + LoopACorrected(ids, order, i + 1, iEff + 1, n + 1)
  }

  function GetStatsA(ids: seq<int>, order: nat): (rows: seq<Option<nat>>)
    ensures |rows| == |ids|
  {
    LoopACorrected(ids, order, 0, 0, 0)
  }

  lemma {:induction false} LoopACorrectedAt(ids: seq<int>, order: nat, i: nat, r: nat)
    requires i <= r < |ids|
    ensures LoopACorrected(ids, order, i, WindowRank(ids, order, i), CounterBefore(ids, i))[r - i] ==
      ReferenceRow(ids, order, r)
    decreases r - i
  {
    if i < r {
      LoopACorrectedAt(ids, order, i + 1, r);
    }
  }

  /** The corrected variant A is the reference mapping for every order. */
  lemma GetStatsAIsReference(ids: seq<int>, order: nat)
    ensures GetStatsA(ids, order) == StatsReference(ids, order)
  {
    forall r | 0 <= r < |ids|
      ensures GetStatsA(ids, order)[r] == StatsReference(ids, order)[r]
    {
      LoopACorrectedAt(ids, order, 0, r);
    }
  }

  /** The reference mapping reads, for each row that closes a window, exactly
      that window: the row is the window's current row and the target row is
      the window's position in `init`. */
  lemma ReferenceRowIsWindow(m: Defm, i: nat, q: nat)
    requires Valid(m) && i < m.Subjects() && m.order <= q < Len(m.startEnd, i)
    ensures Start(m.startEnd, i) + q < |m.ids|
    ensures StatsReference(m.ids, m.order)[Start(m.startEnd, i) + q] == Some(GlobalIndex(m, i, q - m.order))
    ensures GlobalIndex(m, i, q - m.order) < |Init(m)|
    ensures Init(m)[GlobalIndex(m, i, q - m.order)].rows[m.order] == WindowAt(m, i, q - m.order).rows[m.order]
  {
    RowCoordinates(m.ids, m.startEnd, m.order, i, q);
  }

  // ---------------------------------------------------------------------
  // Variant B (defm-object.cpp lines 298-322)
  // ---------------------------------------------------------------------

  /** The loop of variant B: an id change advances `i_effective` and sets the
      subject counter to 1, then every row goes through the order test; a
      filled row reads target row `i_effective`. */
  function LoopB(ids: seq<int>, order: nat, i: nat, iEff: nat, nObs: nat): (rows: seq<Option<nat>>)
    requires i <= |ids|
    ensures |rows| == |ids| - i
    decreases |ids| - i
  {
    if i == |ids| then []
    else
      var change := i > 0 && ids[i - 1] != ids[i];
      var e := if change then iEff + 1 else iEff;
      var n := if change then 1 else nObs;
      if n < order then [None] + LoopB(ids, order, i + 1, e, n + 1)
      else [Some(e)] + LoopB(ids, order, i + 1, e, n + 1)
  }

  /** Variant B exactly as written. */
  function GetStatsB(ids: seq<int>, order: nat): (rows: seq<Option<nat>>)
    ensures |rows| == |ids|
  {
    LoopB(ids, order, 0, 0, 0)
  }

  /** The counter variant B compares with the order at row `r`: the row's
      position, plus one in every subject but the first. */
  function CounterB(ids: seq<int>, r: nat): nat
    requires r < |ids|
  {
    Pos(ids, r) + (if Subject(ids, r) > 0 then 1 else 0)
  }

  lemma {:induction false} LoopBAt(ids: seq<int>, order: nat, i: nat, r: nat)
    requires i <= r < |ids|
    ensures LoopB(ids, order, i, if i == 0 then 0 else Subject(ids, i - 1), if i == 0 then 0 else CounterB(ids, i - 1) + 1)[r - i] ==
      (if CounterB(ids, r) < order then None else Some(Subject(ids, r)))
    decreases r - i
  {
    if i < r {
      LoopBAt(ids, order, i + 1, r);
    }
  }

  /** Variant B row by row: a row is NA when its position, plus one outside
      the first subject, is below the order; a filled row reads the target row
      numbered by its subject, so all filled rows of a subject read the same
      target row. */
  lemma GetStatsBClosedForm(ids: seq<int>, order: nat, r: nat)
    requires r < |ids|
    ensures GetStatsB(ids, order)[r] == (if CounterB(ids, r) < order then None else Some(Subject(ids, r)))
  {
    LoopBAt(ids, order, 0, r);
  }

  /** The two differences between the variants, for order at least 1. Every
      row variant A fills, variant B fills too, and a row is NA in A but
      filled in B exactly when it is row `order - 1` of a subject other than
      the first. The filled rows read different target rows: A the window
      rank, B the index of the row's subject. */
  lemma VariantsDiffer(ids: seq<int>, order: nat, r: nat)
    requires order >= 1 && r < |ids|
    ensures GetStatsAAsWritten(ids, order)[r].Some? ==> GetStatsB(ids, order)[r].Some?
    ensures GetStatsAAsWritten(ids, order)[r].None? && GetStatsB(ids, order)[r].Some? <==>
      Subject(ids, r) > 0 && Pos(ids, r) == order - 1
    ensures GetStatsAAsWritten(ids, order)[r].Some? ==> GetStatsAAsWritten(ids, order)[r] == Some(WindowRank(ids, order, r))
    ensures GetStatsB(ids, order)[r].Some? ==> GetStatsB(ids, order)[r] == Some(Subject(ids, r))
  {
    GetStatsAClosedForm(ids, order, r);
    GetStatsBClosedForm(ids, order, r);
    FilledBeforeAIsRank(ids, order, r);
  }

  /** Order 1. On two subjects of two rows each, variant A leaves the first
      row of each subject NA and reads target rows 0 and 1; variant B fills
      the first row of the second subject as well, and reads target row 0 for
      the first subject and target row 1 for both rows of the second. On a
      first subject of three rows the values part too: its last row reads
      target row 1 in A and target row 0 in B. */
  lemma VariantsExample()
    ensures GetStatsAAsWritten([7, 7, 9, 9], 1) == [None, Some(0), None, Some(1)]
    ensures GetStatsB([7, 7, 9, 9], 1) == [None, Some(0), Some(1), Some(1)]
    ensures GetStatsAAsWritten([7, 7, 7, 9, 9], 1) == [None, Some(0), Some(1), None, Some(2)]
    ensures GetStatsB([7, 7, 7, 9, 9], 1) == [None, Some(0), Some(0), Some(1), Some(1)]
  {
  }

  /** Variant B as written reads target row `i_effective`, the subject index,
      for every filled row of a subject, and also fills row `order - 1` of
      later subjects, which closes no window. On ids `[7, 7, 7, 9, 9]` at
      order 1, row 2 reads target row 0 where its window is target row 1,
      and row 3 reads target row 1 where it should be NA. */
  lemma GetStatsBMisreadsTarget()
    ensures GetStatsB([7, 7, 7, 9, 9], 1)[2] == Some(0)
    ensures StatsReference([7, 7, 7, 9, 9], 1)[2] == Some(1)
    ensures GetStatsB([7, 7, 7, 9, 9], 1)[3] == Some(1)
    ensures StatsReference([7, 7, 7, 9, 9], 1)[3] == None
    ensures GetStatsA([7, 7, 7, 9, 9], 1) == StatsReference([7, 7, 7, 9, 9], 1)
  {
    GetStatsBClosedForm([7, 7, 7, 9, 9], 1, 2);
    GetStatsBClosedForm([7, 7, 7, 9, 9], 1, 3);
    GetStatsAIsReference([7, 7, 7, 9, 9], 1);
  }
}
