/** The structural key of a window (`keygen_defm`, defm-meat.hpp lines 4-29):
    windows with the same key share one support. The key is the shape followed
    by the history rows, so the current row and the covariates never take
    part in it. */
module Keys {
  import opened Windows
  import Flat

  /** `[nrow, ncol]` followed by rows `0 .. nrow-2`, row by row. */
  function Keygen(w: Window): (key: seq<int>)
    requires WellFormed(w) && w.nrow >= 1
    ensures |key| == 2 + w.ncol * (w.nrow - 1)
    ensures key[0] == w.nrow && key[1] == w.ncol
  {
    Flat.FlattenLength(w.rows[..w.nrow - 1], w.ncol);
    [w.nrow as int, w.ncol as int] + Flat.Flatten(w.rows[..w.nrow - 1])
  }

  /** Cell `(i, j)` of a history row sits at `2 + i * ncol + j` of the key. */
  lemma KeygenCell(w: Window, i: nat, j: nat)
    requires WellFormed(w) && i < w.nrow - 1 && j < w.ncol
    ensures i * w.ncol + j < |Keygen(w)| - 2
    ensures Flat.At(Keygen(w)[2..], w.ncol, i, j) == w.rows[i][j]
  {
    var hist := w.rows[..w.nrow - 1];
    assert Keygen(w)[2..] == Flat.Flatten(hist);
    Flat.FlattenAt(hist, w.ncol, i, j);
  }

  /** Two windows have the same key exactly when they have the same shape and
      the same history rows. */
  lemma KeygenEqual(a: Window, b: Window)
    requires WellFormed(a) && a.nrow >= 1
    requires WellFormed(b) && b.nrow >= 1
    ensures Keygen(a) == Keygen(b) <==>
      a.nrow == b.nrow && a.ncol == b.ncol && a.rows[..a.nrow - 1] == b.rows[..b.nrow - 1]
  {
    if Keygen(a) == Keygen(b) {
      assert a.nrow == Keygen(a)[0] == Keygen(b)[0] == b.nrow;
      assert a.ncol == Keygen(a)[1] == Keygen(b)[1] == b.ncol;
      var ha, hb := a.rows[..a.nrow - 1], b.rows[..b.nrow - 1];
      assert Flat.Flatten(ha) == Keygen(a)[2..] == Keygen(b)[2..] == Flat.Flatten(hb);
      Flat.FlattenInjective(ha, hb, a.ncol);
    }
  }

  /** Changing the current (last) row or the covariate anchor of a window
      leaves its key unchanged. */
  lemma KeygenIgnoresCurrentRow(w: Window, current: seq<int>, xRow: nat)
    requires WellFormed(w) && w.nrow >= 1 && |current| == w.ncol
    ensures WellFormed(w.(rows := w.rows[w.nrow - 1 := current], xRow := xRow))
    ensures Keygen(w.(rows := w.rows[w.nrow - 1 := current], xRow := xRow)) == Keygen(w)
  {
    var v := w.(rows := w.rows[w.nrow - 1 := current], xRow := xRow);
    assert v.rows[..v.nrow - 1] == w.rows[..w.nrow - 1];
  }
}
