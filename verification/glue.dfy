/** `new_defm`, the R entry point that builds a model (code.cpp lines 25-59;
    defm-object.cpp lines 24-58 is the same code). It checks the order
    against the number of observations, then the row counts of `Y` and `X`,
    and hands the R vectors to the constructor. R stores matrices column
    after column, so the model it builds reads `Y` column-major. */
module Glue {
  import opened Results
  import opened Segmenter
  import opened Defm
  import Terms

  /** R's `int` is 32 bits wide: `LENGTH(id)` and `order` are such values. */
  predicate IsInt32(x: int) {
    -0x8000_0000 <= x < 0x8000_0000
  }

  /** The checks as written: the order must be below the number of
      observations, then `Y` and `X` must have one row per observation; the
      order then reaches the constructor's `size_t` parameter, so a negative
      order becomes 2^64 plus the order. */
  function CheckedOrderAsWritten(nId: nat, yRows: nat, xRows: nat, order: int): (r: Result<nat>)
    requires IsInt32(nId) && IsInt32(order)
    ensures r.Ok? <==> order < nId && yRows == nId && xRows == nId
    ensures nId <= order ==> r == Err(OrderTooLarge)
    ensures order < nId && yRows != nId ==> r == Err(YRowsMismatch)
    ensures order < nId && yRows == nId && xRows != nId ==> r == Err(XRowsMismatch)
    ensures r.Ok? && order >= 0 ==> r.value == order
    ensures r.Ok? && order < 0 ==> r.value == SIZE_MODULUS + order
  {
    if nId <= order then Err(OrderTooLarge)
    else if nId != yRows then Err(YRowsMismatch)
    else if nId != xRows then Err(XRowsMismatch)
    else Ok(SizeOf(order))
  }

  /** The checks with a negative order rejected before anything else. */
  function CheckedOrder(nId: nat, yRows: nat, xRows: nat, order: int): (r: Result<nat>)
    requires IsInt32(nId) && IsInt32(order)
    ensures r.Ok? <==> 0 <= order < nId && yRows == nId && xRows == nId
    ensures order < 0 ==> r == Err(NegativeOrder)
    ensures r.Ok? ==> r.value == order
  {
    if order < 0 then Err(NegativeOrder)
    else CheckedOrderAsWritten(nId, yRows, xRows, order)
  }

  /** The two agree on every non-negative order. */
  lemma CheckedOrderAgrees(nId: nat, yRows: nat, xRows: nat, order: int)
    requires IsInt32(nId) && IsInt32(order) && order >= 0
    ensures CheckedOrder(nId, yRows, xRows, order) == CheckedOrderAsWritten(nId, yRows, xRows, order)
  {
  }

  /** As written, every negative order passes the checks, and the
      constructor's per-subject window count `nobs_i - M_order` becomes
      `nobs_i - order`, more windows than the subject has rows. The length
      test `n_rows_i < M_order + 1u` of the segmenter then depends on the
      order: at order -1, `M_order + 1u` is `SIZE_MAX + 1`, which wraps to 0,
      so no subject is ever too short; at order -2 and below it is
      `2^64 + order + 1`, more than any subject's row count, so every
      subject closed at an id change fails the test. */
  lemma NegativeOrderAsWritten(nObs: nat, order: int)
    requires IsInt32(nObs) && IsInt32(order) && order < 0
    ensures CheckedOrderAsWritten(nObs, nObs, nObs, order).Ok?
    ensures SizeSub(nObs, CheckedOrderAsWritten(nObs, nObs, nObs, order).value) == nObs - order > nObs
    ensures order == -1 ==> SizeAdd(CheckedOrderAsWritten(nObs, nObs, nObs, order).value, 1) == 0
    ensures order <= -2 ==> SizeAdd(CheckedOrderAsWritten(nObs, nObs, nObs, order).value, 1) == SIZE_MODULUS + order + 1 > nObs
    ensures CheckedOrder(nObs, nObs, nObs, order) == Err(NegativeOrder)
  {
  }

  /** `new_defm` with the corrected checks: the model is built from the id
      vector and the two matrices with the checked order and the column-major
      layout R uses. */
  function NewDefm(ids: seq<int>, y: Terms.Matrix<int>, x: Terms.Matrix<real>, order: int): (r: Result<Defm>)
    requires IsInt32(|ids|) && IsInt32(order)
    requires Terms.Shaped(y) && Terms.Shaped(x)
    ensures order < 0 ==> r == Err(NegativeOrder)
    ensures 0 <= order && |ids| <= order ==> r == Err(OrderTooLarge)
    ensures 0 <= order < |ids| && y.nrow != |ids| ==> r == Err(YRowsMismatch)
    ensures 0 <= order < |ids| && y.nrow == |ids| && x.nrow != |ids| ==> r == Err(XRowsMismatch)
    ensures r.Ok? ==> Valid(r.value) && r.value.order == order && r.value.layout == ColumnMajor
    ensures r.Ok? ==> r.value.ids == ids && r.value.yNcol == y.ncol && r.value.xNcol == x.ncol
    ensures r.Ok? ==> forall row, col :: 0 <= row < |ids| && 0 <= col < y.ncol ==>
      YAt(r.value, r.value.layout, row, col) == Terms.MatAt(y, row, col)
    ensures r.Err? && 0 <= order < |ids| && y.nrow == |ids| && x.nrow == |ids| ==> ShortRunError(ids, order, r.error)
  {
    var o :- CheckedOrder(|ids|, y.nrow, x.nrow, order);
    Construct(ids, y.cells, x.cells, y.ncol, x.ncol, o, ColumnMajor)
  }
}
