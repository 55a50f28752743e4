/** Segmentation of the subject-id column into per-subject row ranges
    (the `DEFM` constructor), and the row-level vocabulary the rest of the
    model uses to talk about "row r is the q-th row of subject i".

    The segmentation is the flat `start_end` list of the engine: entry `2i` is
    the first row of subject `i`, entry `2i+1` its last row (both inclusive). */
module Segmenter {
  import opened Results

  // ---------------------------------------------------------------------
  // Accessors over the flat start/end list
  // ---------------------------------------------------------------------

  /** Number of complete `[start, end]` pairs. */
  function Count(se: seq<nat>): nat {
    |se| / 2
  }

  function Start(se: seq<nat>, i: nat): nat
    requires 2 * i < |se|
  {
    se[2 * i]
  }

  function End(se: seq<nat>, i: nat): nat
    requires 2 * i + 1 < |se|
  {
    se[2 * i + 1]
  }

  /** `nobs_i = end_i - start_i + 1`. */
  function Len(se: seq<nat>, i: nat): int
    requires 2 * i + 1 < |se|
  {
    End(se, i) - Start(se, i) + 1
  }

  predicate InSegment(se: seq<nat>, i: nat, r: nat)
    requires 2 * i + 1 < |se|
  {
    Start(se, i) <= r <= End(se, i)
  }

  /** Appending one pair leaves the earlier pairs in place. */
  lemma AppendPair(se: seq<nat>, a: nat, b: nat)
    requires |se| % 2 == 0
    ensures Count(se + [a, b]) == Count(se) + 1
    ensures Start(se + [a, b], Count(se)) == a && End(se + [a, b], Count(se)) == b
    ensures forall i :: 0 <= i < Count(se) ==> Start(se + [a, b], i) == Start(se, i) && End(se + [a, b], i) == End(se, i)
    ensures forall i :: 0 <= i < Count(se) ==> Len(se + [a, b], i) == Len(se, i)
  {
  }

  /** Appending a long-enough pair to long-enough pairs. */
  lemma LongEnoughAppend(se: seq<nat>, a: nat, b: nat, order: nat)
    requires |se| % 2 == 0 && LongEnough(se, order)
    requires b - a + 1 >= order + 1
    ensures LongEnough(se + [a, b], order)
  {
    AppendPair(se, a, b);
    forall i | 0 <= i < Count(se + [a, b])
      ensures Len(se + [a, b], i) >= order + 1
    {
      if i < Count(se) {
        assert Len(se, i) >= order + 1;
      }
    }
  }

  /** Row `r` opens a new subject: its id differs from the row before. */
  predicate IsBoundary(ids: seq<int>, r: nat) {
    0 < r < |ids| && ids[r - 1] != ids[r]
  }

  // ---------------------------------------------------------------------
  // What a correct segmentation is
  // ---------------------------------------------------------------------

  /** Pair `i` of `se` is a run of one id inside `[0, upto)`, directly followed
      by pair `i + 1`, and (unless it is the first) opens with an id change. */
  ghost predicate SegOk(ids: seq<int>, se: seq<nat>, i: nat, upto: nat)
    requires 2 * i + 1 < |se|
  {
    && Start(se, i) <= End(se, i) < upto <= |ids|
    && (2 * i + 3 < |se| ==> Start(se, i + 1) == End(se, i) + 1)
    && (i > 0 ==> IsBoundary(ids, Start(se, i)))
    && (forall r: nat :: Start(se, i) < r <= End(se, i) ==> ids[r - 1] == ids[r])
  }

  /** The pairs of `se` cover `[0, upto)` in order, each pair is a run of one
      id, and the id changes at every start but the first. */
  ghost predicate Tiles(ids: seq<int>, se: seq<nat>, upto: nat) {
    && |se| % 2 == 0
    && upto <= |ids|
    && (|se| == 0 <==> upto == 0)
    && (|se| > 0 ==> Start(se, 0) == 0 && End(se, Count(se) - 1) == upto - 1)
    && (forall i :: 0 <= i < Count(se) ==> SegOk(ids, se, i, upto))
  }

  /** `se` splits all rows of a non-empty id column into its maximal runs. */
  ghost predicate Partition(ids: seq<int>, se: seq<nat>) {
    |ids| >= 1 && Tiles(ids, se, |ids|)
  }

  /** Every subject has room for at least one Markov window. */
  ghost predicate LongEnough(se: seq<nat>, order: nat) {
    forall i :: 0 <= i < Count(se) ==> Len(se, i) >= order + 1
  }

  // ---------------------------------------------------------------------
  // The constructor's scan (defm-meat.hpp, lines 169-204)
  // ---------------------------------------------------------------------

  /** Loop state of the scan before row `row`: the closed pairs tile
      `[0, s)` and are long enough, and the open subject starting at
      `s = se[|se|-1]` is a run of one id reaching up to `row`. */
  ghost predicate ScanInv(ids: seq<int>, order: nat, row: nat, se: seq<nat>) {
    && 1 <= row <= |ids|
    && |se| % 2 == 1
    && Tiles(ids, se[..|se| - 1], se[|se| - 1])
    && LongEnough(se[..|se| - 1], order)
    && se[|se| - 1] < row
    && (se[|se| - 1] > 0 ==> IsBoundary(ids, se[|se| - 1]))
    && (forall r :: se[|se| - 1] < r < row ==> ids[r - 1] == ids[r])
  }

  /** A run `[from, to)` of one id that is maximal on both sides. */
  ghost predicate MaximalRun(ids: seq<int>, from: nat, to: nat) {
    && from <= to <= |ids|
    && (forall r :: from < r < to ==> ids[r - 1] == ids[r])
    && (from > 0 ==> IsBoundary(ids, from))
    && (to < |ids| ==> IsBoundary(ids, to))
  }

  /** The length error of line 188: a run too short for the Markov order. */
  ghost predicate ShortRunError(ids: seq<int>, order: nat, e: Error) {
    && e.ShortSegment?
    && e.needed == order + 1
    && e.rows < e.needed
    && e.rows <= e.row
    && MaximalRun(ids, e.row - e.rows, e.row)
  }

  /** Lines 174-200: walk the ids once, closing the open subject at every id
      change and failing when the closed subject is shorter than `order + 1`. */
  function Scan(ids: seq<int>, order: nat, row: nat, se: seq<nat>): (r: Result<seq<nat>>)
    requires |ids| >= 1 ==> ScanInv(ids, order, row, se)
    requires |ids| == 0 ==> row == 1 && se == [0]
    ensures r.Ok? && |ids| >= 1 ==> ScanInv(ids, order, |ids|, r.value)
    ensures r.Ok? && |ids| == 0 ==> r.value == [0]
    ensures r.Err? ==> ShortRunError(ids, order, r.error) && r.error.row < |ids|
    decreases |ids| - row
  {
    if row >= |ids| then Ok(se)
    else if ids[row] != ids[row - 1] then
      var rows := row - se[|se| - 1];
      if rows < order + 1 then Err(ShortSegment(row, rows, order + 1))
      else
        CloseRun(ids, order, row, se);
        Scan(ids, order, row + 1, se + [row - 1, row])
    else Scan(ids, order, row + 1, se)
  }

  /** Closing the open subject at an id change keeps the scan invariant. */
  lemma CloseRun(ids: seq<int>, order: nat, row: nat, se: seq<nat>)
    requires ScanInv(ids, order, row, se)
    requires row < |ids| && ids[row] != ids[row - 1]
    requires row - se[|se| - 1] >= order + 1
    ensures ScanInv(ids, order, row + 1, se + [row - 1, row])
  {
    var closed := se[..|se| - 1];
    var s := se[|se| - 1];
    var se' := se + [row - 1, row];
    assert se'[..|se'| - 1] == closed + [s, row - 1];
    AppendRun(ids, closed, s, row);
    LongEnoughAppend(closed, s, row - 1, order);
  }

  /** Appending the run `[s, upto)` to a tiling of `[0, s)` tiles `[0, upto)`. */
  lemma AppendRun(ids: seq<int>, closed: seq<nat>, s: nat, upto: nat)
    requires Tiles(ids, closed, s)
    requires s < upto <= |ids|
    requires s > 0 ==> IsBoundary(ids, s)
    requires forall r :: s < r < upto ==> ids[r - 1] == ids[r]
    ensures Tiles(ids, closed + [s, upto - 1], upto)
  {
    var c' := closed + [s, upto - 1];
    var k := Count(closed);
    assert Count(c') == k + 1;
    assert Start(c', k) == s && End(c', k) == upto - 1;
    forall i | 0 <= i < Count(c')
      ensures SegOk(ids, c', i, upto)
    {
      if i < k {
        assert SegOk(ids, closed, i, s);
        assert Start(c', i) == Start(closed, i) && End(c', i) == End(closed, i);
        if i + 1 < k {
          assert Start(c', i + 1) == Start(closed, i + 1);
        }
      }
    }
  }

  /** The segmentation exactly as the constructor computes it: the subject that
      is still open when the scan ends (line 202) is never length-checked, and
      an empty id column yields the pair `[0, 0u - 1u]`. */
  function SegmentAsWritten(ids: seq<int>, order: nat): (r: Result<seq<nat>>)
    ensures r.Ok? && |ids| >= 1 ==> Partition(ids, r.value)
    ensures r.Ok? && |ids| == 0 ==> r.value == [0, SIZE_MAX]
    ensures r.Ok? && |ids| >= 1 ==> forall i :: 0 <= i < Count(r.value) - 1 ==> Len(r.value, i) >= order + 1
    ensures r.Err? ==> ShortRunError(ids, order, r.error)
    ensures r.Err? ==> r.error.row < |ids|
  {
    var se :- Scan(ids, order, 1, [0]);
    if |ids| == 0 then Ok(se + [SIZE_MAX])
    else
      FinishScan(ids, order, se);
      var closed := se[..|se| - 1];
      AppendPair(closed, se[|se| - 1], |ids| - 1);
      assert LongEnough(closed, order);
      Ok(se + [|ids| - 1])
  }

  /** The segmentation with the length check applied to every subject,
      including the last one: this is the version the rest of the model uses. */
  function Segment(ids: seq<int>, order: nat): (r: Result<seq<nat>>)
    ensures r.Ok? ==> Partition(ids, r.value) && LongEnough(r.value, order)
    ensures r.Err? ==> ShortRunError(ids, order, r.error)
  {
    var se :- Scan(ids, order, 1, [0]);
    var rows := |ids| - se[|se| - 1];
    if rows < order + 1 then Err(ShortSegment(|ids|, rows, order + 1))
    else
      FinishScan(ids, order, se);
      LongEnoughAppend(se[..|se| - 1], se[|se| - 1], |ids| - 1, order);
      Ok(se + [|ids| - 1])
  }

  /** Where the corrected segmentation succeeds the as-written one gives the
      same pairs, and both report the same error from the scan. */
  lemma SegmentRefinesAsWritten(ids: seq<int>, order: nat)
    requires |ids| >= 1
    ensures Segment(ids, order).Ok? ==> SegmentAsWritten(ids, order) == Segment(ids, order)
    ensures SegmentAsWritten(ids, order).Err? ==> Segment(ids, order) == SegmentAsWritten(ids, order)
  {
  }

  /** Ids `[1, 1, 1, 2]` with order 2: the last subject has one row but needs
      three. The as-written segmentation accepts it, and the window count
      `nobs_i - M_order` of `init` for that subject wraps to `SIZE_MAX`; the
      corrected segmentation reports the short run. */
  lemma SegmentAsWrittenAcceptsShortLast()
    ensures SegmentAsWritten([1, 1, 1, 2], 2) == Ok([0, 2, 3, 3])
    ensures Len([0, 2, 3, 3], 1) == 1 && SizeSub(1, 2) == SIZE_MAX
    ensures Segment([1, 1, 1, 2], 2) == Err(ShortSegment(4, 1, 3))
  {
    var ids := [1, 1, 1, 2];
    assert Scan(ids, 2, 4, [0, 2, 3]) == Ok([0, 2, 3]);
    assert [0] + [2, 3] == [0, 2, 3];
    assert Scan(ids, 2, 3, [0]) == Ok([0, 2, 3]);
    assert Scan(ids, 2, 2, [0]) == Ok([0, 2, 3]);
    assert Scan(ids, 2, 1, [0]) == Ok([0, 2, 3]);
    assert [0, 2, 3] + [3] == [0, 2, 3, 3];
  }

  /** Line 202: closing the last open subject at the end of the ids. */
  lemma FinishScan(ids: seq<int>, order: nat, se: seq<nat>)
    requires |ids| >= 1 && ScanInv(ids, order, |ids|, se)
    ensures Partition(ids, se + [|ids| - 1])
    ensures se + [|ids| - 1] == se[..|se| - 1] + [se[|se| - 1], |ids| - 1]
    ensures Count(se + [|ids| - 1]) == Count(se[..|se| - 1]) + 1
  {
    AppendRun(ids, se[..|se| - 1], se[|se| - 1], |ids|);
    assert se + [|ids| - 1] == se[..|se| - 1] + [se[|se| - 1], |ids| - 1];
  }

  // ---------------------------------------------------------------------
  // Row-level vocabulary, defined from the ids alone
  // ---------------------------------------------------------------------

  /** How many rows of the same subject precede row `r`. */
  function Pos(ids: seq<int>, r: nat): nat
    requires r < |ids|
  {
    if r == 0 then 0 else if ids[r - 1] == ids[r] then Pos(ids, r - 1) + 1 else 0
  }

  /** Index of the subject row `r` belongs to: the id changes before it. */
  function Subject(ids: seq<int>, r: nat): nat
    requires r < |ids|
  {
    if r == 0 then 0 else if ids[r - 1] == ids[r] then Subject(ids, r - 1) else Subject(ids, r - 1) + 1
  }

  /** Number of rows before `r` that close a Markov window, i.e. that have at
      least `order` earlier rows of their own subject. */
  function WindowRank(ids: seq<int>, order: nat, r: nat): nat
    requires r <= |ids|
  {
    if r == 0 then 0
    else WindowRank(ids, order, r - 1) + (if Pos(ids, r - 1) >= order then 1 else 0)
  }

  /** Windows of the subjects before `i`: `sum_{k<i} (nobs_k - order)`. */
  function WindowsBefore(se: seq<nat>, order: nat, i: nat): int
    requires 2 * i <= |se| && |se| % 2 == 0
  {
    if i == 0 then 0 else WindowsBefore(se, order, i - 1) + Len(se, i - 1) - order
  }

  /** Rows of the subjects before `i`. */
  function RowsBefore(se: seq<nat>, i: nat): int
    requires 2 * i <= |se| && |se| % 2 == 0
  {
    if i == 0 then 0 else RowsBefore(se, i - 1) + Len(se, i - 1)
  }

  // ---------------------------------------------------------------------
  // Consequences of a correct segmentation
  // ---------------------------------------------------------------------

  /** The subjects cover the rows exactly once: the lengths before subject `i`
      add up to its start, and all lengths add up to the number of rows. */
  lemma {:induction false} RowsBeforeIsStart(ids: seq<int>, se: seq<nat>, i: nat)
    requires Partition(ids, se)
    requires i <= Count(se)
    ensures i < Count(se) ==> RowsBefore(se, i) == Start(se, i)
    ensures i == Count(se) ==> RowsBefore(se, i) == |ids|
  {
    if i > 0 {
      RowsBeforeIsStart(ids, se, i - 1);
      assert SegOk(ids, se, i - 1, |ids|);
    }
  }

  /** The windows before subject `i` are its start minus `order` per earlier
      subject; in total there are `rows - N * order` windows. */
  lemma {:induction false} WindowsBeforeClosedForm(ids: seq<int>, se: seq<nat>, order: nat, i: nat)
    requires Partition(ids, se)
    requires i <= Count(se)
    ensures WindowsBefore(se, order, i) == RowsBefore(se, i) - i * order
    ensures i == Count(se) ==> WindowsBefore(se, order, i) == |ids| - Count(se) * order
  {
    if i > 0 {
      WindowsBeforeClosedForm(ids, se, order, i - 1);
    }
    RowsBeforeIsStart(ids, se, i);
  }

  /** With long-enough subjects, the window counts before each subject grow
      by at least one per subject. */
  lemma {:induction false} WindowsBeforeMonotone(se: seq<nat>, order: nat, i: nat, j: nat)
    requires |se| % 2 == 0 && LongEnough(se, order)
    requires i <= j <= Count(se)
    ensures WindowsBefore(se, order, i) + (j - i) <= WindowsBefore(se, order, j)
    decreases j - i
  {
    if i < j {
      WindowsBeforeMonotone(se, order, i, j - 1);
    }
  }

  /** The q-th row of subject `i` has position `q`, belongs to subject `i`, and
      is preceded by `WindowsBefore(i) + max(0, q - order)` window-closing rows. */
  lemma {:induction false} RowCoordinates(ids: seq<int>, se: seq<nat>, order: nat, i: nat, q: nat)
    requires Partition(ids, se) && LongEnough(se, order)
    requires i < Count(se) && q < Len(se, i)
    ensures Start(se, i) + q < |ids|
    ensures Pos(ids, Start(se, i) + q) == q
    ensures Subject(ids, Start(se, i) + q) == i
    ensures WindowRank(ids, order, Start(se, i) + q) == WindowsBefore(se, order, i) + (if q >= order then q - order else 0)
    decreases i, q
  {
    var r := Start(se, i) + q;
    assert SegOk(ids, se, i, |ids|);
    if q > 0 {
      RowCoordinates(ids, se, order, i, q - 1);
    } else if i > 0 {
      RowCoordinates(ids, se, order, i - 1, Len(se, i - 1) - 1);
      assert SegOk(ids, se, i - 1, |ids|);
    }
  }

  /** Every row lies in exactly one subject. */
  lemma {:induction false} SegmentOf(ids: seq<int>, se: seq<nat>, r: nat) returns (i: nat)
    requires Partition(ids, se)
    requires r < |ids|
    ensures i < Count(se) && InSegment(se, i, r)
    ensures forall j :: 0 <= j < Count(se) && InSegment(se, j, r) ==> j == i
  {
    i := 0;
    while End(se, i) < r
      invariant i < Count(se) && Start(se, i) <= r
      decreases Count(se) - i
    {
      assert SegOk(ids, se, i, |ids|);
      i := i + 1;
    }
    forall j | 0 <= j < Count(se) && InSegment(se, j, r)
      ensures j == i
    {
      if j < i {
        StartsIncrease(ids, se, j + 1, i);
      } else if i < j {
        StartsIncrease(ids, se, i + 1, j);
      }
    }
  }

  /** Later subjects start after earlier subjects end. */
  lemma {:induction false} StartsIncrease(ids: seq<int>, se: seq<nat>, i: nat, j: nat)
    requires Partition(ids, se)
    requires 0 < i <= j < Count(se)
    ensures End(se, i - 1) < Start(se, j)
    decreases j - i
  {
    assert SegOk(ids, se, j - 1, |ids|);
    if i < j {
      StartsIncrease(ids, se, i, j - 1);
    }
  }
}
