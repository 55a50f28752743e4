/** The argument checks and conversions the R glue performs before handing a
    term or rule to the engine: the motif matrix of `term_defm_transition`
    (code.cpp lines 134-162) and `td_generic` (terms.cpp lines 99-131), the
    outcome indices of `td_logit_intercept` (terms.cpp lines 240-246) and the
    term index of `rule_constrain_support` (terms.cpp lines 297-298). What the
    engine then does with the converted values (the counters and rules) is not
    part of this model. */
module Terms {
  import opened Results
  import Flat

  /** `NA_integer_`, R's missing integer: the smallest 32-bit `int`. */
  const NA_INTEGER: int := -0x8000_0000

  /** An R matrix: `nrow` by `ncol` cells, stored column after column. */
  datatype Matrix<T> = Matrix(nrow: nat, ncol: nat, cells: seq<T>)

  predicate Shaped<T>(mat: Matrix<T>) {
    |mat.cells| == mat.nrow * mat.ncol
  }

  /** Cell `(i, j)`, at position `i + j * nrow` of the storage. */
  function MatAt<T>(mat: Matrix<T>, i: nat, j: nat): T
    requires Shaped(mat) && i < mat.nrow && j < mat.ncol
  {
    Flat.MulBound(j, i, mat.nrow, mat.ncol);
    mat.cells[Flat.Offset(j, mat.nrow) + i]
  }

  /** The values a motif cell may hold: NA (no constraint), 0 or 1. */
  predicate MotifValue(v: int) {
    v == NA_INTEGER || v == 0 || v == 1
  }

  /** A motif as the engine receives it: the storage positions of the
      constrained cells, and for each whether the outcome must be 1. */
  datatype Motif = Motif(coords: seq<nat>, signs: seq<bool>)

  // ---------------------------------------------------------------------
  // The conversion, cell by cell
  // ---------------------------------------------------------------------

  /** The motif read from the first `n` storage cells in storage order: an NA
      cell is skipped, a 0 or 1 appends its position and sign, and any other
      value stops the conversion with that value. */
  function MotifOf(cells: seq<int>, n: nat): Result<Motif>
    requires n <= |cells|
  {
    if n == 0 then Ok(Motif([], []))
    else
      var prev :- MotifOf(cells, n - 1);
      var v := cells[n - 1];
      if v == NA_INTEGER then Ok(prev)
      else if v != 0 && v != 1 then Err(InvalidMotifValue(v))
      else Ok(Motif(prev.coords + [n - 1], prev.signs + [v == 1]))
  }

  /** What a motif read from `cells[..n]` says about the cells: one sign per
      coordinate, strictly increasing coordinates below `n`, a coordinate for
      exactly the non-NA cells, and the sign true exactly on the cells holding 1. */
  ghost predicate Describes(mo: Motif, cells: seq<int>, n: nat)
    requires n <= |cells|
  {
    && |mo.coords| == |mo.signs|
    && (forall a, b :: 0 <= a < b < |mo.coords| ==> mo.coords[a] < mo.coords[b])
    && (forall a :: 0 <= a < |mo.coords| ==> mo.coords[a] < n)
    && (forall a :: 0 <= a < |mo.coords| ==> cells[mo.coords[a]] != NA_INTEGER)
    && (forall a :: 0 <= a < |mo.coords| ==> (mo.signs[a] <==> cells[mo.coords[a]] == 1))
    && (forall q :: 0 <= q < n && cells[q] != NA_INTEGER ==> q in mo.coords)
  }

  /** The conversion succeeds exactly when every cell is NA, 0 or 1. */
  lemma {:induction false} MotifOfOk(cells: seq<int>, n: nat)
    requires n <= |cells|
    ensures MotifOf(cells, n).Ok? <==> forall q :: 0 <= q < n ==> MotifValue(cells[q])
  {
    if n > 0 {
      MotifOfOk(cells, n - 1);
    }
  }

  /** A successful conversion describes the cells it read. */
  lemma {:induction false} MotifOfDescribes(cells: seq<int>, n: nat)
    requires n <= |cells| && MotifOf(cells, n).Ok?
    ensures Describes(MotifOf(cells, n).value, cells, n)
  {
    if n > 0 {
      MotifOfDescribes(cells, n - 1);
      var prev := MotifOf(cells, n - 1).value;
      if cells[n - 1] == NA_INTEGER {
        DescribesSkip(prev, cells, n - 1);
      } else {
        DescribesExtend(prev, cells, n - 1);
      }
    }
  }

  /** An NA cell adds nothing to the description. */
  lemma DescribesSkip(mo: Motif, cells: seq<int>, n: nat)
    requires n < |cells| && cells[n] == NA_INTEGER && Describes(mo, cells, n)
    ensures Describes(mo, cells, n + 1)
  {
  }

  /** A 0 or 1 cell extends the description by its position and sign. */
  lemma DescribesExtend(mo: Motif, cells: seq<int>, n: nat)
    requires n < |cells| && (cells[n] == 0 || cells[n] == 1) && Describes(mo, cells, n)
    ensures Describes(Motif(mo.coords + [n], mo.signs + [cells[n] == 1]), cells, n + 1)
  {
    var mo' := Motif(mo.coords + [n], mo.signs + [cells[n] == 1]);
    forall q | 0 <= q < n + 1 && cells[q] != NA_INTEGER
      ensures q in mo'.coords
    {
      if q < n {
        assert q in mo.coords;
      } else {
        assert mo'.coords[|mo.coords|] == q;
      }
    }
  }

  /** On failure the conversion reports the first cell that is neither NA,
      0 nor 1. */
  lemma {:induction false} MotifOfErr(cells: seq<int>, n: nat)
    requires n <= |cells|
    ensures MotifOf(cells, n).Err? ==>
      (exists q :: 0 <= q < n && FirstInvalid(cells, q) && MotifOf(cells, n).error == InvalidMotifValue(cells[q]))
  {
    if n > 0 {
      MotifOfErr(cells, n - 1);
      if MotifOf(cells, n - 1).Ok? && MotifOf(cells, n).Err? {
        MotifOfOk(cells, n - 1);
        assert FirstInvalid(cells, n - 1);
      }
    }
  }

  /** Cell `q` is the first one that is neither NA, 0 nor 1. */
  ghost predicate FirstInvalid(cells: seq<int>, q: nat)
    requires q < |cells|
  {
    !MotifValue(cells[q]) && forall p :: 0 <= p < q ==> MotifValue(cells[p])
  }

  /** Once the conversion has stopped, later cells do not change the error. */
  lemma {:induction false} MotifOfErrStays(cells: seq<int>, n: nat, n': nat)
    requires n <= n' <= |cells| && MotifOf(cells, n).Err?
    ensures MotifOf(cells, n') == MotifOf(cells, n)
    decreases n' - n
  {
    if n < n' {
      MotifOfErrStays(cells, n, n' - 1);
    }
  }

  // ---------------------------------------------------------------------
  // Round trip: the motif determines the cells
  // ---------------------------------------------------------------------

  /** The cells a motif stands for: NA everywhere, then 1 or 0 at each
      coordinate below `size`, by its sign. */
  function Rebuild(size: nat, mo: Motif): (cells: seq<int>)
    requires |mo.coords| == |mo.signs|
    ensures |cells| == size
    decreases |mo.coords|
  {
    if |mo.coords| == 0 then seq(size, _ => NA_INTEGER)
    else
      var k := |mo.coords| - 1;
      var prev := Rebuild(size, Motif(mo.coords[..k], mo.signs[..k]));
      if mo.coords[k] < size then prev[mo.coords[k] := if mo.signs[k] then 1 else 0] else prev
  }

  /** Growing the size by one cell adds one NA when every coordinate is
      below the old size. */
  lemma {:induction false} RebuildGrow(size: nat, mo: Motif)
    requires |mo.coords| == |mo.signs|
    requires forall a :: 0 <= a < |mo.coords| ==> mo.coords[a] < size
    ensures Rebuild(size + 1, mo) == Rebuild(size, mo) + [NA_INTEGER]
    decreases |mo.coords|
  {
    if |mo.coords| > 0 {
      var k := |mo.coords| - 1;
      var pre := Motif(mo.coords[..k], mo.signs[..k]);
      RebuildGrow(size, pre);
    }
  }

  /** The part of the description the round trip needs. */
  lemma MotifOfInRange(cells: seq<int>, n: nat)
    requires n <= |cells| && MotifOf(cells, n).Ok?
    ensures |MotifOf(cells, n).value.coords| == |MotifOf(cells, n).value.signs|
    ensures forall a :: 0 <= a < |MotifOf(cells, n).value.coords| ==> MotifOf(cells, n).value.coords[a] < n
  {
    MotifOfDescribes(cells, n);
  }

  /** Appending a coordinate below the size sets that one cell. */
  lemma RebuildSnoc(size: nat, mo: Motif, c: nat, b: bool)
    requires |mo.coords| == |mo.signs| && c < size
    ensures Rebuild(size, Motif(mo.coords + [c], mo.signs + [b])) == Rebuild(size, mo)[c := if b then 1 else 0]
  {
    var mo' := Motif(mo.coords + [c], mo.signs + [b]);
    var k := |mo.coords|;
    assert mo'.coords[..k] == mo.coords && mo'.signs[..k] == mo.signs;
  }

  /** A successful conversion loses nothing: the cells are recovered from the
      motif, NA included. */
  lemma {:induction false} MotifOfRebuild(cells: seq<int>, n: nat)
    requires n <= |cells| && MotifOf(cells, n).Ok?
    ensures |MotifOf(cells, n).value.coords| == |MotifOf(cells, n).value.signs|
    ensures Rebuild(n, MotifOf(cells, n).value) == cells[..n]
  {
    MotifOfInRange(cells, n);
    if n > 0 {
      var prev := MotifOf(cells, n - 1).value;
      MotifOfRebuild(cells, n - 1);
      MotifOfInRange(cells, n - 1);
      RebuildGrow(n - 1, prev);
      RebuildLastCell(cells, n, prev);
    }
  }

  /** The induction step of `MotifOfRebuild`: if the motif of the first
      `n - 1` cells rebuilds them, followed by an NA, then the motif of the
      first `n` cells rebuilds those. */
  lemma RebuildLastCell(cells: seq<int>, n: nat, prev: Motif)
    requires 0 < n <= |cells| && MotifOf(cells, n).Ok?
    requires MotifOf(cells, n - 1) == Ok(prev) && |prev.coords| == |prev.signs|
    requires Rebuild(n, prev) == cells[..n - 1] + [NA_INTEGER]
    ensures |MotifOf(cells, n).value.coords| == |MotifOf(cells, n).value.signs|
    ensures Rebuild(n, MotifOf(cells, n).value) == cells[..n]
  {
    var v := cells[n - 1];
    if v != NA_INTEGER {
      RebuildSnoc(n, prev, n - 1, v == 1);
      assert MotifOf(cells, n).value == Motif(prev.coords + [n - 1], prev.signs + [v == 1]);
    }
    assert cells[..n] == cells[..n - 1] + [v];
  }

  // ---------------------------------------------------------------------
  // The R entry points
  // ---------------------------------------------------------------------

  /** The checks and the conversion loop shared by `term_defm_transition`
      and `td_generic`: the matrix must have `order + 1` rows (checked first)
      and one column per outcome; the cells are then read column by column
      with the running position `loc`. */
  method MotifFromMatrix(order: nat, yNcol: nat, mat: Matrix<int>) returns (r: Result<Motif>)
    requires Shaped(mat)
    ensures mat.nrow != order + 1 ==> r == Err(MotifRowsMismatch)
    ensures mat.nrow == order + 1 && mat.ncol != yNcol ==> r == Err(MotifColsMismatch)
    ensures mat.nrow == order + 1 && mat.ncol == yNcol ==> r == MotifOf(mat.cells, |mat.cells|)
  {
    if mat.nrow != order + 1 {
      return Err(MotifRowsMismatch);
    }
    if mat.ncol != yNcol {
      return Err(MotifColsMismatch);
    }
    var coords: seq<nat> := [];
    var signs: seq<bool> := [];
    var loc: int := -1;
    var j := 0;
    assert |mat.cells| == mat.ncol * mat.nrow;
    while j < mat.ncol
      invariant j <= mat.ncol
      invariant loc + 1 == Flat.Offset(j, mat.nrow) <= |mat.cells|
      invariant MotifOf(mat.cells, loc + 1) == Ok(Motif(coords, signs))
    {
      var i := 0;
      while i < mat.nrow
        invariant i <= mat.nrow
        invariant loc + 1 == Flat.Offset(j, mat.nrow) + i <= |mat.cells|
        invariant MotifOf(mat.cells, loc + 1) == Ok(Motif(coords, signs))
      {
        Flat.MulBound(j, i, mat.nrow, mat.ncol);
        loc := loc + 1;
        var v := MatAt(mat, i, j);
        MotifStep(mat.cells, loc, coords, signs);
        if v == NA_INTEGER {
          i := i + 1;
          continue;
        }
        if v != 1 && v != 0 {
          return Err(InvalidMotifValue(v));
        }
        coords := coords + [loc];
        signs := signs + [v == 1];
        i := i + 1;
      }
      Flat.OffsetSucc(j, mat.nrow);
      Flat.MulMono(j + 1, mat.ncol, mat.nrow);
      j := j + 1;
    }
    r := Ok(Motif(coords, signs));
  }

  /** One cell of the loop: an NA cell leaves the motif as it is, a 0 or 1
      extends it, and any other value is the error of the whole conversion. */
  lemma MotifStep(cells: seq<int>, loc: nat, coords: seq<nat>, signs: seq<bool>)
    requires loc < |cells| && MotifOf(cells, loc) == Ok(Motif(coords, signs))
    ensures cells[loc] == NA_INTEGER ==> MotifOf(cells, loc + 1) == Ok(Motif(coords, signs))
    ensures cells[loc] == 0 || cells[loc] == 1 ==>
      MotifOf(cells, loc + 1) == Ok(Motif(coords + [loc], signs + [cells[loc] == 1]))
    ensures !MotifValue(cells[loc]) ==> MotifOf(cells, |cells|) == Err(InvalidMotifValue(cells[loc]))
  {
    if !MotifValue(cells[loc]) {
      MotifOfErrStays(cells, loc + 1, |cells|);
    }
  }

  /** Entry `a` is the first negative one. */
  ghost predicate FirstNegative(yIndices: seq<int>, a: nat)
    requires a < |yIndices|
  {
    yIndices[a] < 0 && forall b :: 0 <= b < a ==> yIndices[b] >= 0
  }

  /** `td_logit_intercept`: every entry of `y_indices` must be zero or
      positive (NA, the most negative `int`, is rejected too); the entries are
      passed on in order. The upper bound against the number of outcomes is
      not checked here. */
  function LogitInterceptIndices(yIndices: seq<int>): (r: Result<seq<nat>>)
    ensures r.Ok? <==> forall a :: 0 <= a < |yIndices| ==> yIndices[a] >= 0
    ensures r.Ok? ==> r.value == yIndices
    ensures r.Err? ==>
      (exists a :: 0 <= a < |yIndices| && FirstNegative(yIndices, a) && r.error == NegativeYIndex(yIndices[a]))
    decreases |yIndices|
  {
    if |yIndices| == 0 then Ok([])
    else if yIndices[0] < 0 then Err(NegativeYIndex(yIndices[0]))
    else
      var rest :- LogitInterceptIndices(yIndices[1..]);
      assert yIndices == [yIndices[0]] + yIndices[1..];
      Ok([yIndices[0]] + rest)
  }

  /** `rule_constrain_support`: the term index must not be negative. */
  function ConstrainSupportIndex(termIndex: int): (r: Result<nat>)
    ensures r.Ok? <==> termIndex >= 0
    ensures r.Ok? ==> r.value == termIndex
    ensures r.Err? ==> r.error == NegativeTermIndex
  {
    if termIndex < 0 then Err(NegativeTermIndex) else Ok(termIndex)
  }

  /** The order-1, two-outcome motif "outcome 0 switches from 0 to 1, outcome
      1 is free" is stored as positions 0 and 1 with signs false and true; a 2
      in the second cell stops the conversion. */
  lemma SwitchOnExample()
    ensures MotifOf([0, 1, NA_INTEGER, NA_INTEGER], 4).Ok?
    ensures MotifOf([0, 1, NA_INTEGER, NA_INTEGER], 4).value.coords == [0, 1]
    ensures MotifOf([0, 1, NA_INTEGER, NA_INTEGER], 4).value.signs == [false, true]
    ensures MotifOf([0, 2, NA_INTEGER, 1], 4) == Err(InvalidMotifValue(2))
  {
    var good := [0, 1, NA_INTEGER, NA_INTEGER];
    assert MotifOf(good, 0) == Ok(Motif([], []));
    assert MotifOf(good, 1).value.coords == [0];
    assert MotifOf(good, 2).value.coords == [0, 1];
    assert MotifOf(good, 4) == MotifOf(good, 3) == MotifOf(good, 2);
    var bad := [0, 2, NA_INTEGER, 1];
    assert MotifOf(bad, 1).Ok?;
    MotifOfErrStays(bad, 2, 4);
  }
}
