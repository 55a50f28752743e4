# DEFM windowing core in Dafny

This project models the data-handling core of a discrete exponential-family
Markov model (DEFM). The model is built over panel data: an id column, an
integer outcome matrix `Y` and a real covariate matrix `X`. The core

- splits the id column into subjects;
- cuts each subject into Markov windows of `order + 1` consecutive outcome
  rows, reading the outcome buffer column-major or row-major;
- derives a structural key for each window;
- tallies motif tuples over the windows (the motif census);
- places per-window values back on dataset rows (`logodds`, `get_stats`);
- chains sampled windows in `simulate` and reads them back in `sim_defm`;
- checks the arguments that the R entry points (`new_defm`, the motif terms,
  `td_logit_intercept`, `rule_constrain_support`) pass on to the engine.

Everything is a pure function over immutable data, except the loops that
own a write cursor or mirror a C++ loop, which are methods: `Simulate` with
its steps `SimulateSubject` and `SimulateStep`, `SimDefm`, `LogOddsWith`
with its wrappers `LogOddsCorrected` and `LogOddsAsWritten`, and
`Terms.MotifFromMatrix`. Errors the source raises are `Err` values of `Results.Error`.
NA and NaN are `None`. The sampler and the floating-point score are
parameters.

Modules, one per file:

| module | file | what it holds |
|---|---|---|
| Results | results.dfy | errors, `Result`, `Option`, 64-bit `size_t` arithmetic |
| Decimal | decimal.dfy | `std::to_string` for naturals |
| Segmenter | segmenter.dfy | the id scan and row/subject bookkeeping |
| Flat | flat.dfy | flat buffers and offsets |
| Defm | defm.dfy | the model record, layouts, constructor, `set_names` |
| Windows | windows.dfy | `init`: the windows of every subject |
| Keys | keys.dfy | `keygen_defm` |
| FreqTable | freqtable.dfy | the tally the census fills |
| Census | census.dfy | `motif_census` and its R matrix |
| Stats | stats.dfy | the two `get_stats` row mappings |
| Simulate | simulate.dfy | `simulate` and `sim_defm` |
| LogOdds | logodds.dfy | `logodds` |
| Terms | terms.dfy | motif matrix conversion and term/rule argument checks |
| Glue | glue.dfy | `new_defm` |

Two observations that are not bugs, recorded because they are easy to miss.
First, the covariate view of a window is anchored at `start_i + n_proc`, the
first row of the window, and not at its current row. The model keeps that
anchor as `Window.xRow`. Second, `sim_defm` uses `-1` as the "not simulated"
sentinel, so a simulated value of `-1` is replaced by the data when `fill_t0`
is set. `Simulate.SimDefmCell` states this case as written.

## Model

| member | source | states |
|---|---|---|
| Segmenter.Segment | inst/include/barry/models/defm/defm-meat.hpp:169-204 | on success the pairs split the ids into their maximal runs and every run has at least `order + 1` rows; on failure the error names a maximal run that is too short |
| Segmenter.SegmentAsWritten | inst/include/barry/models/defm/defm-meat.hpp:169-204 | the constructor's scan as written: runs closed at an id change are checked, the run still open at the end is not (a failure always names a run that ends before the last row), and an empty id column gives the pair `[0, SIZE_MAX]` |
| Segmenter.Scan | inst/include/barry/models/defm/defm-meat.hpp:174-200 | the loop keeps the closed pairs tiling the rows seen so far; it fails exactly at an id change that closes a run shorter than `order + 1` |
| Segmenter.SegmentRefinesAsWritten | inst/include/barry/models/defm/defm-meat.hpp:169-204 | wherever the corrected segmentation succeeds, the as-written one returns the same pairs; both report the same scan error |
| Segmenter.SegmentAsWrittenAcceptsShortLast | inst/include/barry/models/defm/defm-meat.hpp:186-202 | ids `[1,1,1,2]` with order 2: as written the one-row last subject is accepted and its window count `1 - 2` wraps to `SIZE_MAX`; the corrected version rejects it |
| Segmenter.RowsBeforeIsStart | inst/include/barry/models/defm/defm-meat.hpp:169-204 | the subjects cover the rows exactly once and in order: the rows of the subjects before `i` add up to subject `i`'s first row, and all of them add up to the row count |
| Segmenter.WindowsBeforeClosedForm | inst/include/barry/models/defm/defm-meat.hpp:243-253 | the windows of the subjects before `i` number `start_i - i * order`; all windows number `n - N * order` |
| Segmenter.RowCoordinates | inst/include/barry/models/defm/defm-meat.hpp:247-253 | row `q` of subject `i` has position `q` in its subject, belongs to subject `i`, and its window rank is the windows before `i` plus `q - order` |
| Segmenter.SegmentOf | inst/include/barry/models/defm/defm-meat.hpp:169-204 | every row lies in exactly one subject |
| Segmenter.StartsIncrease | inst/include/barry/models/defm/defm-meat.hpp:169-204 | later subjects start after earlier ones end |
| Decimal.ParseNatToString | inst/include/barry/models/defm/defm-meat.hpp:207-211 | the decimal rendering used for default names reads back to the number |
| Decimal.NatToStringInjective | inst/include/barry/models/defm/defm-meat.hpp:207-211 | distinct numbers render to distinct strings |
| Defm.ElementIndexRoundTrip | inst/include/barry/models/defm/defm-meat.hpp:224-240 | both element-access formulas send cell `(i, j)` of an `nrow x ncol` matrix to a distinct position inside the buffer, and the cell is recovered from it |
| Defm.CellOfRoundTrip | inst/include/barry/models/defm/defm-meat.hpp:224-240 | every buffer position is the element-access position of exactly the cell recovered from it |
| Defm.DefaultNamesDistinct | inst/include/barry/models/defm/defm-meat.hpp:207-211 | the default names `y0, y1, ...` and `X0, X1, ...` have one per column, carry the prefix, and are pairwise distinct |
| Defm.Construct | inst/include/barry/models/defm/defm-meat.hpp:108-215 | the corrected constructor (Findings, first row): a successful construction keeps the data and dimensions, is segmented into subjects that all have at least `order + 1` rows, the last one included, and carries the default names; a failure is a too-short subject |
| Defm.SetNames | inst/include/barry/models/defm/defm-meat.hpp:410-425 | succeeds exactly when both lists match the column counts, the outcome list being checked first; on success only the names change |
| Windows.BuildWindow | inst/include/barry/models/defm/defm-meat.hpp:256-275 | a window has `order + 1` rows of `Y_ncol` cells and is anchored at its first dataset row |
| Windows.Init | inst/include/barry/models/defm/defm-meat.hpp:218-284 | `init` makes `n - N * order` windows, subject by subject and offset by offset; window `p` of subject `i` sits at position `WindowsBefore(i) + p` |
| Windows.InitSlot | inst/include/barry/models/defm/defm-meat.hpp:243-281 | window `p` of subject `i` is at its global index, inside `init` |
| Windows.WindowCell | inst/include/barry/models/defm/defm-meat.hpp:267-275 | cell `(o, k)` of window `p` of subject `i` is outcome cell `(start_i + p + o, k)` read through the model's layout |
| Windows.WindowOf | inst/include/barry/models/defm/defm-meat.hpp:243-281 | every window of `init` is window `p` of exactly one subject `i` |
| Windows.RowWindow | inst/include/barry/models/defm/defm-meat.hpp:243-281 | a row with at least `order` earlier rows in its subject is the current row of the window starting `order` rows earlier |
| Windows.LayoutInvariance | inst/include/barry/models/defm/defm-meat.hpp:224-275 | two models holding the same outcome values in different layouts have the same windows |
| Keys.Keygen | inst/include/barry/models/defm/defm-meat.hpp:4-29 | the key is `[nrow, ncol]` followed by the `(nrow - 1) * ncol` history cells |
| Keys.KeygenCell | inst/include/barry/models/defm/defm-meat.hpp:4-29 | history cell `(i, j)` sits at position `2 + i * ncol + j` of the key |
| Keys.KeygenEqual | inst/include/barry/models/defm/defm-meat.hpp:4-29 | two windows share a key exactly when they have the same shape and the same history rows |
| Keys.KeygenIgnoresCurrentRow | inst/include/barry/models/defm/defm-meat.hpp:4-29 | the current row and the covariate anchor never change the key |
| FreqTable.TabulateTallies | inst/include/barry/models/defm/defm-meat.hpp:336-355 | adding tuples one by one gives one entry per distinct tuple, each counted by its multiplicity, and the counts add up to the number of tuples |
| FreqTable.Find | inst/include/barry/models/defm/defm-meat.hpp:355 | the position found is the first entry holding the tuple, or the end when there is none |
| Census.CheckLocs | inst/include/barry/models/defm/defm-meat.hpp:331-334 | succeeds exactly when every index is a column of `Y`, and otherwise reports the first index out of range |
| Census.RawTupleIsProjection | inst/include/barry/models/defm/defm-meat.hpp:348-353 | the tuple read from the buffer is the window projected onto the requested columns, row by row |
| Census.TuplesMatchInit | inst/include/barry/models/defm/defm-meat.hpp:339-359 | read through the model's layout, the census tuples are the projections of the windows of `init`, in `init` order |
| Census.MotifCensus | inst/include/barry/models/defm/defm-meat.hpp:327-363 | with the model's layout: fails exactly on an out-of-range column; otherwise an exact tally of the projected windows of `init`, with counts adding up to the number of windows |
| Census.MotifCensusAsWritten | inst/include/barry/models/defm/defm-meat.hpp:327-363 | as written: the tally of the tuples read column-major whatever the layout |
| Census.AsWrittenAgreesColumnMajor | inst/include/barry/models/defm/defm-meat.hpp:353 | on a column-major model the as-written census is the corrected one |
| Census.AsWrittenMisreadsRowMajor | inst/include/barry/models/defm/defm-meat.hpp:353 | on a two-row row-major model the as-written census counts the tuple `[0, 0]` where the window holds `[1, 0]` |
| Census.FillMatrix | src/defm-object.cpp:348-354 | row `a` of the census matrix is entry `a`'s count followed by its tuple |
| Census.CensusNameAt | src/defm-object.cpp:356-366 | column `1 + o * |locs| + n` is named `"y"` + `o` + `locs[n]` |
| Census.CensusNamesDistinct | src/defm-object.cpp:356-366 | with single-digit window rows and distinct columns the names are distinct and differ from `"count"` |
| Census.CensusNamesCollide | src/defm-object.cpp:356-366 | with order 11 and columns `[1, 11]` two different cells are both named `"y111"` |
| Census.MotifCensusMatrix | src/defm-object.cpp:340-370 | the R result built on the corrected census, which is the source's on every column-major model, the only kind R builds (Census.AsWrittenAgreesColumnMajor): fails exactly on an out-of-range column; otherwise its column names are `Census.CensusNames(order, locs)` (`1 + (order + 1) * |locs|` of them, described by Census.CensusNameAt), and one row per census entry holding its count followed by its tuple, as wide as the names |
| Stats.GetStatsAClosedForm | src/code.cpp:377-403 | variant A makes a row NA at an id change or below the order, and otherwise gives it the next target row |
| Stats.GetStatsAMatchesReference | src/code.cpp:377-403 | for every order of at least 1, variant A gives each row the target row of the window whose current row it is |
| Stats.GetStatsAOrderZeroDropsBoundary | src/code.cpp:384-391 | at order 0 on ids `[1, 2]` variant A makes the second row NA where the reference reads target row 1 |
| Stats.GetStatsAIsReference | src/code.cpp:377-403 | the corrected variant A is the reference mapping for every order |
| Stats.ReferenceRowIsWindow | src/code.cpp:377-403 | the reference mapping gives the current row of window `p` of subject `i` the global index of that window |
| Stats.GetStatsBClosedForm | src/defm-object.cpp:298-322 | variant B makes a row NA when its position, plus one outside the first subject, is below the order; a filled row reads the target row numbered by its subject |
| Stats.VariantsDiffer | src/defm-object.cpp:298-322 | for order at least 1, B fills every row A fills, and B is filled where A is NA exactly on row `order - 1` of every subject but the first; filled rows read different target rows: A the window rank, B the index of the row's subject |
| Stats.VariantsExample | src/defm-object.cpp:298-322 | on ids `[7, 7, 9, 9]` with order 1 the variants give `[NA, 0, NA, 1]` and `[NA, 0, 1, 1]`; on ids `[7, 7, 7, 9, 9]` they give `[NA, 0, 1, NA, 2]` and `[NA, 0, 0, 1, 1]` |
| Stats.GetStatsBMisreadsTarget | src/defm-object.cpp:303-319 | on ids `[7, 7, 7, 9, 9]` at order 1, variant B gives row 2 target row 0 where its window is target row 1, and fills row 3, which closes no window; the corrected variant A is the reference there |
| Simulate.Shift | inst/include/barry/models/defm/defm-meat.hpp:71-83 | the next window drops the oldest row of the previous draw, appends a zero row, and is anchored at `start_i + proc_n` |
| Simulate.ChainShift | inst/include/barry/models/defm/defm-meat.hpp:57-92 | a subject's chain starts from its first data window; every later draw is made from the previous draw shifted by one row |
| Simulate.SimulateStep | inst/include/barry/models/defm/defm-meat.hpp:57-92 | one step draws the next window of the chain, writes its current row at `n_entry`, and advances the draw counter and the cursor by one row |
| Simulate.SimulateSubject | inst/include/barry/models/defm/defm-meat.hpp:52-100 | after one subject, every row of it from position `order` on holds its simulated row, and the cursor is at the subject's last row plus one |
| Simulate.Simulate | inst/include/barry/models/defm/defm-meat.hpp:39-106 | the first `order` rows of every subject keep their old values; every other row holds the current row of its subject's chain draw |
| Simulate.RestoreMatches | src/code.cpp:246-262 | refilling the simulated buffer cell by cell gives the intended `sim_defm` value: the simulated value, or the data at a history cell when `fill_t0` is set, or `-1` |
| Simulate.SimDefm | src/code.cpp:227-265 | `sim_defm` with the outcome matrix read through its layout: an `n x Y_ncol` matrix whose every cell is the simulated value, or the data or `-1` on the first `order` rows of a subject |
| Simulate.RestoreAsWrittenAgreesSquare | src/code.cpp:253-254 | the as-written refill is correct on a column-major model whose outcome matrix is square |
| Simulate.RestoreAsWrittenMisreads | src/code.cpp:253-254 | on a 3 x 2 column-major outcome matrix the as-written refill of cell `(0, 1)` reads 0 where the data holds 1 |
| Simulate.RestoreAsWrittenOutOfBounds | src/code.cpp:253-254 | on a 2 x 3 outcome matrix the as-written refill of cell `(0, 2)` reads outside the buffer |
| LogOdds.LogOddsCorrected | inst/include/barry/models/defm/defm-meat.hpp:365-408 | one slot per dataset row: NaN on the first `order` rows of a subject, otherwise the score of the window whose current row it is, read through the model's layout |
| LogOdds.LogOddsAsWritten | inst/include/barry/models/defm/defm-meat.hpp:365-408 | as written: the same slots with the windows read column-major whatever the layout |
| LogOdds.SlotMatchesStats | inst/include/barry/models/defm/defm-meat.hpp:365-408 | a row holds a value exactly when the `get_stats` reference mapping gives it a target row `k`, and the value is the score of window `k` of `init` |
| LogOdds.AsWrittenMisreadsRowMajor | inst/include/barry/models/defm/defm-meat.hpp:396 | on a two-row row-major model a score reading cell `(0, 1)` gives 1 as intended and 0 as written |
| Terms.MotifFromMatrix | src/code.cpp:134-162 | a matrix without `order + 1` rows fails first, then one without `Y_ncol` columns; otherwise the result is the cell-by-cell conversion in storage order |
| Terms.MotifOfOk | src/terms.cpp:108-128 | the conversion succeeds exactly when every cell is NA, 0 or 1 |
| Terms.MotifOfErr | src/terms.cpp:108-128 | a failed conversion reports the first cell that is neither NA, 0 nor 1 |
| Terms.MotifOfDescribes | src/terms.cpp:108-128 | the coordinates increase strictly, stay inside the matrix, and are exactly the non-NA cells; a sign is true exactly on a cell holding 1 |
| Terms.MotifOfRebuild | src/terms.cpp:108-128 | the conversion loses nothing: NA everywhere but the coordinates, and 1 or 0 there by the sign, gives back the matrix |
| Terms.SwitchOnExample | src/terms.cpp:108-128 | an order-1 two-outcome motif `[[0, NA], [1, NA]]` becomes coordinates `[0, 1]` with signs `[false, true]`; a 2 in a cell is the error |
| Terms.LogitInterceptIndices | src/terms.cpp:240-246 | succeeds exactly when no index is negative (NA included) and then passes the indices on unchanged; otherwise reports the first negative one |
| Terms.ConstrainSupportIndex | src/terms.cpp:297-298 | a term index is accepted exactly when it is not negative |
| Glue.CheckedOrderAsWritten | src/code.cpp:36-52 | as written: succeeds exactly when `order < n_id` and both matrices have `n_id` rows, checked in that order; a negative order reaches the engine as exactly `2^64 + order` |
| Glue.CheckedOrder | src/code.cpp:36-52 | the corrected checks also reject a negative order first; an accepted order reaches the engine unchanged |
| Glue.NegativeOrderAsWritten | src/code.cpp:36-52 | as written, every negative order passes and each subject gets `nobs_i - order` windows; the segment length test compares with 0 at order `-1` (never fails) and with `2^64 + order + 1`, more than the row count, at order `-2` and below (always fails) |
| Glue.NewDefm | src/code.cpp:25-59 | the corrected entry point (Findings, first and last rows): a negative order is rejected first, then the source's three checks in its order; on success a valid column-major model of the given order whose outcome cell `(r, k)` is the R matrix cell `(r, k)`; the only later failure is a too-short subject, the last subject included |

## Left out

- The sampler (`sample`, the model base class's support arrays and random engine) is a parameter `draw(window, drawNumber)`. The first draw of a subject samples from the support of its first data window. Later draws sample from the shifted previous draw. The draw number is the running `model_num`.
- Simulate.Simulate: does not model the R seed set up by `sim_defm` or the parameter vector `par`; both only feed the sampler.
- The log-odds value `log(p / (1 - p))` is floating point. It is a parameter `score(window)`, and NaN is `None`.
- The covariate cells of a window (`DEFMData`) are kept only as the anchor row `xRow`; covariates are never read by the modelled code.
- Counters, rules, `counter_transition`, `counter_generic`, `counter_logit_intercept` and `rule_constrain_support` of the engine are not modelled. The terms and rules are checked and converted, and the result is what the engine receives.
- `check_covar`, used by `td_generic` and `td_logit_intercept`, is not part of this model. The covariate index it resolves only feeds the counters.
- Terms.LogitInterceptIndices: the indices are not checked against the number of outcomes, because the source does not check them here.
- `td_formula`, `print`, `is_motif`, the accessors and `RcppExports.cpp` are out of scope. They parse or display rather than window.
- FreqTable.Add / FreqTable.Rows: the source of barry's `FreqTable` is not part of this model, so three of its behaviours are assumed: entries appear in the order their tuple was first added; two tuples share an entry only when they are equal, so a hash-keyed index is taken to merge exactly equal tuples; and `get_data()` lays each entry out as its count followed by its tuple. Census.MotifCensus, Census.FillMatrix and Census.MotifCensusMatrix rest on these assumptions.
- Copying versus borrowing the input buffers (`copy_data`) is not modelled. The model always owns its data.
- `get_stats` target values are not modelled. A row is the index of the target row it copies, or NA.
- Column names of `get_stats` and `sim_defm` are not modelled.
- Integer widths: R `int` values are bounded to 32 bits only where the source converts them (`new_defm`). Other sizes are unbounded naturals, and the `size_t` wrap is modelled where it changes behaviour (Findings 1 and 6).

## Findings

| source | as written | input that shows it | evidently intended | confidence | as-written member | corrected member |
|---|---|---|---|---|---|---|
| inst/include/barry/models/defm/defm-meat.hpp:186-202 | only subjects closed at an id change are length-checked; the last subject is not | ids `[1, 1, 1, 2]`, order 2: accepted, and `init` computes `1 - 2` windows, which wraps to `SIZE_MAX` | every subject has at least `order + 1` rows | not executed | Segmenter.SegmentAsWritten, Segmenter.SegmentAsWrittenAcceptsShortLast | Segmenter.Segment, Defm.Construct |
| src/code.cpp:384-391 | at an id change the row is made NA before the order test | ids `[1, 2]`, order 0: row 1 is NA | at order 0 every row is a window and gets its target row | not executed | Stats.GetStatsAAsWritten, Stats.GetStatsAOrderZeroDropsBoundary | Stats.GetStatsA, Stats.GetStatsAIsReference |
| inst/include/barry/models/defm/defm-meat.hpp:353 | the census reads `Y[k * ID_length + row]`, column-major, whatever the layout | a one-subject row-major model with outcome rows `(0, 1)` and `(0, 0)`, census of column 1: `[0, 0]` is counted instead of `[1, 0]` | the element access of `init` | not executed | Census.MotifCensusAsWritten, Census.AsWrittenMisreadsRowMajor | Census.MotifCensus, Census.TuplesMatchInit |
| inst/include/barry/models/defm/defm-meat.hpp:396 | `logodds` reads `Y[k * ID_length + row]`, column-major, whatever the layout | the same row-major model, a score reading window cell `(0, 1)`: row 1 gets 0 instead of 1 | the element access of `init` | not executed | LogOdds.LogOddsAsWritten, LogOdds.AsWrittenMisreadsRowMajor | LogOdds.LogOddsCorrected, LogOdds.SlotMatchesStats |
| src/code.cpp:253-254 | the `fill_t0` refill reads `Y[j * ncols + i]`, with the column count as the stride | 3 x 2 column-major `Y` with `Y(0, 1) = 1`, order 1: the refill of `(0, 1)` reads 0; a 2 x 3 `Y` reads outside the buffer at `(0, 2)` | `Y[j * nrows + i]` | not executed | Simulate.RestoreCellAsWritten, Simulate.RestoreAsWrittenMisreads, Simulate.RestoreAsWrittenOutOfBounds | Simulate.RestoreCell, Simulate.RestoreMatches, Simulate.SimDefm |
| src/code.cpp:36-52 | a negative order passes `n_id <= order` and becomes the `size_t` `2^64 + order` | order -1 with 5 rows: accepted as `SIZE_MAX`; a 5-row subject gets `5 - SIZE_MAX` = 6 windows, and `M_order + 1u` is 0 | a negative order is an error | not executed | Glue.CheckedOrderAsWritten, Glue.NegativeOrderAsWritten | Glue.CheckedOrder, Glue.NewDefm |
| src/defm-object.cpp:303-319 | variant B of `get_stats` reads target row `i_effective`, the subject index, for every filled row, and its counter restarts at 1 so row `order - 1` of later subjects is filled | ids `[7, 7, 7, 9, 9]`, order 1: row 2 reads target row 0 instead of 1, and row 3, which closes no window, reads target row 1 | each row reads the target row of the window it closes, NA when it closes none | not executed | Stats.GetStatsB, Stats.GetStatsBMisreadsTarget | Stats.GetStatsA, Stats.GetStatsAIsReference |

The code of the `new_defm` and `sim_defm` rows appears again in
src/defm-object.cpp (lines 35-42 for the argument checks, lines 174-175 for
the refill). Its `get_stats` is variant B (lines 298-322), a different loop
that does not drop the boundary row at order 0 but has defects of its own
(the last Findings row).

