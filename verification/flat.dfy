/** Row-major concatenation of equally wide rows: the layout the engine uses
    whenever it appends the cells of a small matrix one row at a time (the
    structural key, the census tuples, the frequency-table data). */
module Flat {

  /** All rows have `width` entries. */
  ghost predicate Uniform<T>(xs: seq<seq<T>>, width: nat) {
    forall i :: 0 <= i < |xs| ==> |xs[i]| == width
  }

  /** The rows appended one after the other, first row first. */
  function Flatten<T>(xs: seq<seq<T>>): seq<T>
    decreases |xs|
  {
    if |xs| == 0 then [] else Flatten(xs[..|xs| - 1]) + xs[|xs| - 1]
  }

  /** Entry `(i, j)` of a row-major buffer of rows of width `width`. */
  function At<T>(s: seq<T>, width: nat, i: nat, j: nat): T
    requires j < width && i * width + j < |s|
  {
    s[i * width + j]
  }

  /** Cell `(i, j)` of a row-major `rows x width` buffer. */
  function Cell<T>(s: seq<T>, width: nat, rows: nat, i: nat, j: nat): T
    requires |s| == rows * width && i < rows && j < width
  {
    MulBound(i, j, width, rows);
    s[Offset(i, width) + j]
  }

  /** Flattening uniform rows gives `|xs| * width` entries. */
  lemma {:induction false} FlattenLength<T>(xs: seq<seq<T>>, width: nat)
    requires Uniform(xs, width)
    ensures |Flatten(xs)| == |xs| * width
    decreases |xs|
  {
    if |xs| > 0 {
      FlattenLength(xs[..|xs| - 1], width);
      assert |xs| * width == (|xs| - 1) * width + width;
    }
  }

  /** Entry `i * width + j` of the flattened rows is cell `j` of row `i`. */
  lemma {:induction false} FlattenAt<T>(xs: seq<seq<T>>, width: nat, i: nat, j: nat)
    requires Uniform(xs, width)
    requires i < |xs| && j < width
    ensures i * width + j < |Flatten(xs)|
    ensures At(Flatten(xs), width, i, j) == xs[i][j]
    decreases |xs|
  {
    var init := xs[..|xs| - 1];
    var n := |init|;
    FlattenLength(init, width);
    FlattenLength(xs, width);
    MulBound(i, j, width, |xs|);
    if i < n {
      FlattenAt(init, width, i, j);
      MulBound(i, j, width, n);
    } else {
      assert i * width == |Flatten(init)|;
    }
  }

  /** `i < n && j < w` place `i * w + j` inside `n * w`. */
  lemma MulBound(i: nat, j: nat, w: nat, n: nat)
    requires i < n && j < w
    ensures i * w + j < n * w
  {
    assert (i + 1) * w <= n * w by {
      MulMono(i + 1, n, w);
    }
  }

  /** Where row `row` of a row-major buffer of width `width` begins. Kept
      as a function so that offsets of equal rows are equal by congruence. */
  function Offset(row: nat, width: nat): nat {
    row * width
  }

  /** `skip` rows further on begins `skip * width` entries later. */
  lemma OffsetAdd(row: nat, skip: nat, width: nat)
    ensures Offset(row, width) + skip * width == Offset(row + skip, width)
  {
  }

  /** The next row begins `width` entries later. */
  lemma OffsetSucc(row: nat, width: nat)
    ensures Offset(row, width) + width == Offset(row + 1, width)
  {
  }

  lemma MulMono(a: nat, b: nat, w: nat)
    requires a <= b
    ensures a * w <= b * w
  {
  }

  /** `q * n + r` with `r < n` has quotient `q` and remainder `r`. */
  lemma DivModOf(x: nat, n: nat, q: nat, r: nat)
    requires 0 <= r < n && x == q * n + r
    ensures x / n == q && x % n == r
  {
    var q', r' := x / n, x % n;
    assert x == q' * n + r';
    if q' < q {
      MulMono(q' + 1, q, n);
      assert false;
    } else if q < q' {
      MulMono(q + 1, q', n);
      assert false;
    }
  }

  /** Flattening is injective on uniform rows of the same count and width. */
  lemma FlattenInjective<T>(xs: seq<seq<T>>, ys: seq<seq<T>>, width: nat)
    requires Uniform(xs, width) && Uniform(ys, width) && |xs| == |ys|
    requires Flatten(xs) == Flatten(ys)
    ensures xs == ys
  {
    forall i | 0 <= i < |xs|
      ensures xs[i] == ys[i]
    {
      assert |xs[i]| == width == |ys[i]|;
      forall j | 0 <= j < width
        ensures xs[i][j] == ys[i][j]
      {
        FlattenAt(xs, width, i, j);
        FlattenAt(ys, width, i, j);
      }
    }
  }
}
