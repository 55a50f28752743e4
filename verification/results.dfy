/** Failure-carrying results for the DEFM windowing layer.

    Every `throw` of the C++ engine and every `stop()` of the R glue becomes an
    `Err` carrying one of the `Error` cases below, named after the condition the
    source reports. Nothing is ever clamped or silently repaired. */
module Results {

  /** The error conditions of the modelled core, one case per raise site. */
  datatype Error =
      /** `std::length_error` of the constructor: the subject run that ends just
          before `row` has `rows` rows but the Markov model needs `needed`. */
    | ShortSegment(row: nat, rows: nat, needed: nat)
      /** `std::length_error` of `set_names`: the outcome-name list has the wrong length. */
    | YNamesLength(given: nat, expected: nat)
      /** `std::length_error` of `set_names`: the covariate-name list has the wrong length. */
    | XNamesLength(given: nat, expected: nat)
      /** `std::range_error` of `motif_census`: an outcome index is `>= Y_ncol`. */
    | MotifIndexOutOfRange(index: nat)
      /** `new_defm`: the order is not below the number of observations. */
    | OrderTooLarge
      /** `new_defm`: Y has a row count different from the length of `id`. */
    | YRowsMismatch
      /** `new_defm`: X has a row count different from the length of `id`. */
    | XRowsMismatch
      /** Motif matrix: row count is not the Markov order + 1. */
    | MotifRowsMismatch
      /** Motif matrix: column count is not the number of outcomes. */
    | MotifColsMismatch
      /** Motif matrix: a cell is neither NA, 0 nor 1. */
    | InvalidMotifValue(value: int)
      /** `td_logit_intercept`: an entry of `y_indices` is negative (NA included). */
    | NegativeYIndex(value: int)
      /** `rule_constrain_support`: `term_index` is negative. */
    | NegativeTermIndex
      /** Corrected `new_defm` only: a negative Markov order. */
    | NegativeOrder

  /** A value that may be missing: an NA cell, or a read outside a buffer. */
  datatype Option<+T> = None | Some(value: T)

  datatype Result<+T> = Ok(value: T) | Err(error: Error) {
    predicate IsFailure() {
      Err?
    }

    function PropagateFailure<U>(): Result<U>
      requires Err?
    {
      Err(error)
    }

    function Extract(): T
      requires Ok?
    {
      value
    }
  }

  /** `size_t` is 64 bits wide on the targets the package builds for. */
  const SIZE_MODULUS: int := 0x1_0000_0000_0000_0000

  /** `std::numeric_limits<size_t>::max()`, the value of `0u - 1u`. */
  const SIZE_MAX: nat := SIZE_MODULUS - 1

  /** Subtraction of two `size_t` values, wrapping modulo 2^64 as C++ does. */
  function SizeSub(a: nat, b: nat): (r: nat)
    requires a < SIZE_MODULUS && b < SIZE_MODULUS
    ensures r < SIZE_MODULUS
    ensures a >= b ==> r + b == a
    ensures a < b ==> r == SIZE_MODULUS - (b - a)
  {
    (a - b) % SIZE_MODULUS
  }

  /** Addition of two `size_t` values, wrapping modulo 2^64 as C++ does. */
  function SizeAdd(a: nat, b: nat): (r: nat)
    requires a < SIZE_MODULUS && b < SIZE_MODULUS
    ensures r < SIZE_MODULUS
    ensures a + b < SIZE_MODULUS ==> r == a + b
    ensures a + b >= SIZE_MODULUS ==> r + SIZE_MODULUS == a + b
  {
    (a + b) % SIZE_MODULUS
  }

  /** The conversion of a 32-bit `int` to `size_t`: a negative value becomes
      2^64 plus the value. */
  function SizeOf(x: int): (r: nat)
    requires -0x8000_0000 <= x < 0x8000_0000
    ensures r < SIZE_MODULUS
    ensures x >= 0 ==> r == x
    ensures x < 0 ==> r == SIZE_MODULUS + x
  {
    x % SIZE_MODULUS
  }
}
