# ViennaCL ILUT and autotuner parameter space, modelled in Dafny

This project models two parts of ViennaCL.

**The ILUT preconditioner's factorisation** (`viennacl/linalg/detail/ilu/ilut.hpp`).
It is Saad's Algorithm 10.6 ("Iterative Methods for Sparse Linear Systems", 1996).
- `ilut_tag` holds the budget of entries kept per row in each of L and U, and the drop tolerance. It is the class `IlutConfig.IlutTag`.
- `setup_w` loads one row of the system matrix into the sparse working vector `w` and computes the row's norm. It has two overloads: compressed-row buffers and a vector of `std::map` rows (module `RowAccess`).
- `precondition` factors the matrix row by row into `output`, a vector of sparse rows. Each row goes through three phases:
  - elimination against the finished rows above it;
  - ranking of the surviving entries by magnitude;
  - selection of the largest entries on either side of the diagonal, plus the diagonal itself.

The code lives in module `Ilut`. `output` is an `array<Row>` updated in place, and each loop of the source is its own method. Every method is proved equal to a function on values:
- module `IlutSpec` holds the elimination and ranking phases;
- module `IlutSelect` holds the selection phase;
- module `IlutFactor` holds the whole factorisation.

The lemmas state what the source promises about those functions.

**The autotuner's parameter space** (`viennacl/generator/autotune.hpp`).
- A `tuning_param` is a bounded `unsigned int` counter with an increment policy (`inc::mul_by_two` or `inc::add_one`). It returns to its minimum when it passes its maximum.
- A `tuning_config` is a name-ordered `std::map` of such counters, advanced like an odometer.

Both are classes whose methods update their fields in place (module `Tuning`, with `TuningParam` and `TuningConfig`). Each method is proved against a function on values in module `TuningSpec`. `unsigned int` arithmetic wraps modulo 2^32 (module `BoundedInts`).

Modelling decisions and behaviours of the code:
- Values are `real`. `setup_w` returns `sqrt(row_norm)`; the model keeps `row_norm`, the sum of squares. The drop test `|x| > tol * sqrt(row_norm)` is written in squares (`IlutSpec.Threshold.Exceeded`). `IlutSpec.ExceededIsDropTest` proves it equal to the source's test for the real square root. This includes a zero or negative tolerance.
- The `ilut_tag` constructor stores its arguments without validating them, and only the setters reject non-positive values. A negative tolerance therefore reaches `precondition`. Then every entry of a nonzero row passes the drop test, zeros included, and a stored zero that is ranked aborts the row as a singular factor (`IlutSpec.ZeroPassesOnlyNegativeTolerance`, `IlutFactor.FactorRowSpec`).
- The code keeps the diagonal whenever `w` holds column `i` ("do not drop diagonal element!", `ilut.hpp` line 191; "Diagonal entry is always kept", line 221), but it never checks that `w` holds it. A row whose working vector holds no diagonal entry after elimination is stored without one, and no error is raised for that row. A later row that needs it as a pivot reads `output[k][k]`. That lookup inserts a zero, so the factorisation aborts there "zero diagonal" and leaves that zero behind (`IlutFactor.WithZeroDiagonal`, `IlutFactor.FactorReportsZeroPivot`).
- The elimination walks `w` with a `std::map` iterator while inserting fill-in. Fill-in lands only right of the current column (`IlutSpec.EliminationStep`), so the iterator visits the same columns as a scan of columns `0, 1, …, i-1` that skips columns `w` does not store. `IlutSpec.Eliminate` is that scan. `Ilut.EliminateRow` jumps straight to the least stored column that is still pending, and `IlutSpec.EliminationSkips` proves the jump changes nothing.
- At a zero drop tolerance only zeros fail the drop test, so every nonzero multiplier is propagated. When the budget is no smaller than the ranking map, nothing is truncated either, and a completed row reproduces its matrix row exactly: `A[i][j]` is the sum of `L[i][k] * U[k][j]` over `k < i`, `k <= j`, plus `U[i][j]` from the diagonal on (`IlutFactor.ExactAtZeroTolerance`, in real arithmetic).
- Equal magnitudes in the ranking map are made unique by multiplying by 1.000001. So "the largest entries are kept" holds for the perturbed keys, which is how `temp_map` orders them (`IlutSelect.WrittenAreLargest`).
- `inc::add_one` at the largest `unsigned int` wraps to zero. Zero is not above `max`, so no reset happens and the counter drops to zero, below `min` whenever `min > 0` (`TuningSpec.IncCanDropBelowMin`).
- A doubling counter need not reach `is_max()`: with minimum 3 and maximum 10 it steps 3, 6, then 12 passes the maximum and it restarts at 3 (`TuningSpec.DoublingCanMissMax`). Because `mul_by_two` wraps modulo 2^32, whether the maximum is met depends on the wrapped values, not only on powers of two: with minimum 3000000000 and maximum 3410065408 the counter steps to 1705032704 and then lands on the maximum (`TuningSpec.DoublingWrapsOntoMax`). When the maximum is never met, `has_next()` stays true, and the benchmark loop `while (has_next()) update();` (`autotune.hpp` lines 264-265 and 273-274) need not end (`TuningSpec.BenchmarkLoopCanCycle`).

## Model

| member | source | states |
|---|---|---|
| IlutConfig.IlutTag.constructor | viennacl/linalg/detail/ilu/ilut.hpp:52-53 | both values are stored as given, defaults 20 and 1e-4, nothing validated |
| IlutConfig.IlutTag.SetDropTolerance | viennacl/linalg/detail/ilu/ilut.hpp:55-59 | the tolerance is replaced exactly when the new one is positive; the budget is unchanged |
| IlutConfig.IlutTag.SetEntriesPerRow | viennacl/linalg/detail/ilu/ilut.hpp:62-66 | the budget is replaced exactly when the new one is positive; the tolerance is unchanged |
| RowAccess.SetupWCompressed | viennacl/linalg/detail/ilu/ilut.hpp:90-98 | the loop assigns `w[col[b]] = val[b]` for each `b` of the row's span in buffer order and sums the squares of those values |
| RowAccess.LoadEntries | viennacl/linalg/detail/ilu/ilut.hpp:93-96 | the entries of a compressed row assigned into `w` in buffer order; `LoadEntriesSpec` gives its content |
| RowAccess.CompressedRow | viennacl/linalg/detail/ilu/ilut.hpp:90-98 | the span `[row_buffer[row], row_buffer[row+1])` loaded, with the sum of squares of its values |
| RowAccess.SumSqMap | viennacl/linalg/detail/ilu/ilut.hpp:110-111 | the sum of squares of a row in ascending key order, never negative |
| RowAccess.LoadRow | viennacl/linalg/detail/ilu/ilut.hpp:77-114 | the loaded row of either layout with its squared norm |
| RowAccess.LoadEntriesSpec | viennacl/linalg/detail/ilu/ilut.hpp:93-96 | loading adds exactly the listed columns; a column takes the value of its last occurrence; other columns keep their values |
| RowAccess.LoadEntriesDistinct | viennacl/linalg/detail/ilu/ilut.hpp:93-96 | with each column listed once, every listed column holds its own value |
| RowAccess.SetupWRowMaps | viennacl/linalg/detail/ilu/ilut.hpp:108-113 | `w` is exactly `A[row]`, and the norm is the sum of squares of its values |
| RowAccess.SumSqMapRemove | viennacl/linalg/detail/ilu/ilut.hpp:110-111 | the sum of squares of a map does not depend on the key the walk starts from: any key can be taken out first |
| RowAccess.SetupW | viennacl/linalg/detail/ilu/ilut.hpp:77-114 | for either layout, the result is the row loaded into an empty vector with its squared norm |
| RowAccess.SetupWOverloadsAgree | viennacl/linalg/detail/ilu/ilut.hpp:77-114 | for a compressed row that lists each column once, both overloads compute the same squared norm |
| IlutSpec.ExceededIsDropTest | viennacl/linalg/detail/ilu/ilut.hpp:169 | the squared test is `Abs(x) > tol * norm` for any non-negative `norm` whose square is the row's sum of squares, whatever the tolerance's sign |
| IlutSpec.Threshold.Exceeded | viennacl/linalg/detail/ilu/ilut.hpp:169 | `abs(x) > tau_i` with `tau_i = tol * sqrt(normSq)`, compared in squares; its equality with that test is `ExceededIsDropTest` |
| IlutSpec.ZeroPassesOnlyNegativeTolerance | viennacl/linalg/detail/ilu/ilut.hpp:191-196 | a zero passes the drop test exactly when the tolerance is negative and the row is nonzero |
| IlutSpec.PropagatedStep | viennacl/linalg/detail/ilu/ilut.hpp:172-176 | one more entry of row `k` updates `w[j]` only when `j > k`, reading a missing `w[j]` as zero, and leaves every other entry as it was |
| IlutSpec.Propagated | viennacl/linalg/detail/ilu/ilut.hpp:172-176 | the working vector after `w[j] -= m * output[k][j]` for every stored `j > k` of row `k`, closed form; `PropagatedStep` takes it apart entry by entry |
| IlutSpec.EliminationStep | viennacl/linalg/detail/ilu/ilut.hpp:165-177 | `w[k]` becomes the multiplier `w[k] / output[k][k]`. When the multiplier passes the drop test, each stored column `j > k` of row `k` becomes `w[j] - m * output[k][j]`, a missing `w[j]` read as zero. Otherwise only `w[k]` changes. Every other entry keeps its value, no key is removed, and new keys are exactly such columns `j > k` |
| IlutSpec.Eliminate | viennacl/linalg/detail/ilu/ilut.hpp:150-177 | failure happens only at a zero pivot `k` in the scanned range below `i`; success keeps every key of `w` and inserts only columns right of where the scan starts (the converse direction is `SuccessfulEliminationPivots`) |
| IlutSpec.EliminationOrder | viennacl/linalg/detail/ilu/ilut.hpp:150-154 | the columns the elimination reaches, in order; its properties are the lemmas below |
| IlutSpec.EliminationSkips | viennacl/linalg/detail/ilu/ilut.hpp:150-154 | columns that `w` does not store can be passed over without changing the result or the visiting order |
| IlutSpec.EliminationVisitsAscending | viennacl/linalg/detail/ilu/ilut.hpp:150-154 | the columns eliminated are in strictly ascending order, all in `[lo, i)` |
| IlutSpec.EliminationVisitsEveryKey | viennacl/linalg/detail/ilu/ilut.hpp:150-177 | a successful elimination has visited exactly the final keys of `w` below `i`, fill-in included |
| IlutSpec.EliminationStopsAtZeroPivot | viennacl/linalg/detail/ilu/ilut.hpp:157-163 | on failure, the last column visited is the zero pivot the error names |
| IlutSpec.EliminationSuccessMeansPivots | viennacl/linalg/detail/ilu/ilut.hpp:157-163 | on success, every column the elimination visited had a nonzero pivot |
| IlutSpec.SuccessfulEliminationPivots | viennacl/linalg/detail/ilu/ilut.hpp:157-163 | a visited column with a zero pivot aborts: after a successful elimination, every column below `i` that `w` holds has a nonzero pivot |
| IlutSpec.EliminationKeepsLeft | viennacl/linalg/detail/ilu/ilut.hpp:150-177 | the elimination from column `lo` on never changes a column left of `lo` |
| IlutSpec.Recombined | viennacl/linalg/detail/ilu/ilut.hpp:165-176 | the multipliers of columns `lo` to `hi - 1` times the entries of those finished rows in column `j` |
| IlutSpec.ProductEntry | viennacl/linalg/detail/ilu/ilut.hpp:165-176 | column `j` of row `i` of the product of the factors: `L[i][k] * U[k][j]` over `k < i` with `k <= j`, plus `U[i][j]` from the diagonal on |
| IlutSpec.StepRecombines | viennacl/linalg/detail/ilu/ilut.hpp:165-176 | with a zero drop tolerance one step is exact: `w[k]` is the multiplier times the pivot, and `w[j]` for `j > k` is its new value plus the multiplier times `output[k][j]` |
| IlutSpec.EliminationRecombines | viennacl/linalg/detail/ilu/ilut.hpp:150-177 | with a zero drop tolerance every column `j` of the loaded row is recovered from the eliminated vector and the finished rows, as in `ProductEntry` |
| IlutSpec.Perturb | viennacl/linalg/detail/ilu/ilut.hpp:198-199 | the perturbed key is at least the magnitude and is no key of the ranking map; the perturbation terminates |
| IlutSpec.Rank | viennacl/linalg/detail/ilu/ilut.hpp:186-201 | ranking can fail only as a singular factor of row `i` |
| IlutSpec.RankSpec | viennacl/linalg/detail/ilu/ilut.hpp:186-201 | ranking fails exactly when a ranked entry is zero. Otherwise each ranked column (above the threshold, or the diagonal) is added once under a fresh key at least its magnitude, with its value, and nothing present is overwritten |
| IlutSpec.RankedColsSplit | viennacl/linalg/detail/ilu/ilut.hpp:191 | an entry is ranked exactly when it passes the drop test or is the diagonal, column by column |
| IlutSpec.ColsInsert | viennacl/linalg/detail/ilu/ilut.hpp:200 | `temp_map[temp] = (k, w_k)` under a new key adds exactly column `k` |
| IlutSelect.SelectMerges | viennacl/linalg/detail/ilu/ilut.hpp:207-233 | writing into an existing row overwrites only the written columns, and `row_i[j] = …` leaves the row's other entries |
| IlutSelect.Select | viennacl/linalg/detail/ilu/ilut.hpp:207-233 | the reverse walk over `temp_map` writing into `row_i`, with the budget tests of both sides; `WrittenFromRanking`, `WrittenWithinBudget` and `WrittenAreLargest` state what it writes |
| IlutSelect.WrittenStep | viennacl/linalg/detail/ilu/ilut.hpp:207-233 | the walk writes the greatest-key entry, when its side's budget allows or it is the diagonal, then walks the rest |
| IlutSelect.WrittenFromRanking | viennacl/linalg/detail/ilu/ilut.hpp:207-233 | only ranked columns are written, each with its ranked value, and the diagonal is written exactly when it is ranked |
| IlutSelect.WrittenWithinBudget | viennacl/linalg/detail/ilu/ilut.hpp:213-232 | at most the remaining budget is written on each side of the diagonal |
| IlutSelect.SideInsert | viennacl/linalg/detail/ilu/ilut.hpp:217-229 | one written column adds at most one entry to its side |
| IlutSelect.LargerStep | viennacl/linalg/detail/ilu/ilut.hpp:207 | removing the greatest key removes one larger entry from the side it is on |
| IlutSelect.WrittenAreLargest | viennacl/linalg/detail/ilu/ilut.hpp:207-232 | an entry on one side is written exactly when the entries of that side with larger keys leave room in the budget, so the largest are kept in descending key order |
| IlutFactor.LoadedRows | viennacl/linalg/detail/ilu/ilut.hpp:146 | the factorisation sees each row of the matrix as `setup_w` loads it, one entry per row |
| IlutFactor.EliminatedRow | viennacl/linalg/detail/ilu/ilut.hpp:146-181 | row `i` loaded and eliminated against the rows already in the output |
| IlutFactor.RankedRow | viennacl/linalg/detail/ilu/ilut.hpp:185-202 | the ranking map of the eliminated row, or the error that aborts it |
| IlutFactor.FactorRow | viennacl/linalg/detail/ilu/ilut.hpp:146-233 | the entries written into row `i`, or the error; its properties are `FactorRowSpec` |
| IlutFactor.WithZeroDiagonal | viennacl/linalg/detail/ilu/ilut.hpp:157 | `output[k][k]` read through `operator[]` inserts a zero diagonal into row `k` when it has none |
| IlutFactor.FactorFrom | viennacl/linalg/detail/ilu/ilut.hpp:140-237 | the factorisation from row `i` on: each row is factored in turn and stops at the first abort; `FactorFromStep` unfolds one row |
| IlutFactor.FactorFromStep | viennacl/linalg/detail/ilu/ilut.hpp:140-237 | one row of the factorisation: it continues at the next row with the written entries merged into row `i`, or aborts; a zero pivot leaves a zero diagonal behind |
| IlutFactor.FactorFromAdvance | viennacl/linalg/detail/ilu/ilut.hpp:140-237 | a row factored as in `RowFactored` continues the factorisation with the next row, or is where it ends |
| IlutFactor.FactorRowSpec | viennacl/linalg/detail/ilu/ilut.hpp:157-233 | a row aborts exactly when the elimination meets a zero pivot or a ranked entry is zero; after a successful elimination every column below `i` that `w` holds has a nonzero pivot. Otherwise every written entry is a ranked entry of the eliminated vector with its value, nonzero; the diagonal is written exactly when the eliminated vector holds it; each side stays within the budget |
| IlutFactor.FactorRowShape | viennacl/linalg/detail/ilu/ilut.hpp:204-233 | a completed row holds no zero and at most `entriesPerRow` entries on either side of the diagonal |
| IlutFactor.FactorRowKeepsLargest | viennacl/linalg/detail/ilu/ilut.hpp:204-233 | within one row, a ranked entry is written exactly when fewer than `entriesPerRow` entries of its side rank above it |
| IlutFactor.WrittenIsEliminated | viennacl/linalg/detail/ilu/ilut.hpp:183-233 | with a zero drop tolerance and a budget no smaller than the ranking map, the written entries agree with the eliminated vector in every column: only zeros are dropped and nothing is truncated |
| IlutFactor.ExactAtZeroTolerance | viennacl/linalg/detail/ilu/ilut.hpp:146-233 | with a zero drop tolerance and a budget no smaller than the ranking map, a completed row reproduces the matrix row: `A[i][j]` equals `ProductEntry` of the written entries and the finished rows, for every column `j` |
| IlutFactor.FactorReportsZeroPivot | viennacl/linalg/detail/ilu/ilut.hpp:157-163 | a zero-pivot abort names the row being factored and an earlier row whose diagonal now reads zero; the number of rows is kept |
| IlutFactor.FactorShape | viennacl/linalg/detail/ilu/ilut.hpp:140-237 | into an empty output, a completed factorisation leaves earlier rows untouched, and every row holds no zero and stays within the budget on either side |
| IlutFactor.ShapedStep | viennacl/linalg/detail/ilu/ilut.hpp:209 | a row within its budget, followed by a completed factorisation of the later rows, gives a completed factorisation from that row |
| Ilut.PropagateRow | viennacl/linalg/detail/ilu/ilut.hpp:172-176 | the loop over row `k` computes exactly `Propagated` |
| Ilut.EliminateRow | viennacl/linalg/detail/ilu/ilut.hpp:150-181 | the loop computes `Eliminate`; on success the output is unchanged; on a zero pivot only the pivot row changes, gaining a zero diagonal |
| Ilut.UniqueKey | viennacl/linalg/detail/ilu/ilut.hpp:198-199 | the `*= 1.000001` loop computes `Perturb` |
| Ilut.RankRow | viennacl/linalg/detail/ilu/ilut.hpp:185-202 | the ranking loop computes `Rank` |
| Ilut.WriteRow | viennacl/linalg/detail/ilu/ilut.hpp:204-233 | only `output[i]` changes, and it becomes the reverse walk `Select` applied to the old row |
| Ilut.FactorRowInPlace | viennacl/linalg/detail/ilu/ilut.hpp:145-236 | one pass of the outer loop does what `RowFactored` describes and advances `FactorFrom` by one row |
| Ilut.Precondition | viennacl/linalg/detail/ilu/ilut.hpp:125-238 | the outcome and the final output are exactly those of `FactorFrom` from row 0 |
| BoundedInts.WrappingDouble | viennacl/generator/autotune.hpp:116 | `val *= 2` modulo 2^32, equal to `2 * val` below 2^31 |
| BoundedInts.WrappingSucc | viennacl/generator/autotune.hpp:119 | `val += 1` modulo 2^32, zero after the largest value |
| TuningSpec.Apply | viennacl/generator/autotune.hpp:113-121 | `add_one` increases the value exactly below the largest `unsigned int`, where it wraps to zero; `mul_by_two` increases it exactly when `0 < v < 2^31` |
| TuningSpec.AtMax | viennacl/generator/autotune.hpp:136 | `current >= max` |
| TuningSpec.NewParam | viennacl/generator/autotune.hpp:133 | a parameter at its minimum |
| TuningSpec.Inc | viennacl/generator/autotune.hpp:139-144 | `inc()` on values: the increment, or `min` with `true` when it passes `max`; `IncSpec` states it |
| TuningSpec.Reset | viennacl/generator/autotune.hpp:150 | `current` back to `min` |
| TuningSpec.IncSpec | viennacl/generator/autotune.hpp:139-144 | `inc()` keeps bounds and policy, wraps exactly when the increment passes `max`, then restarts at `min`, and otherwise takes the increment |
| TuningSpec.IncStaysBelowMax | viennacl/generator/autotune.hpp:139-144 | with `min <= max`, the value after `inc()` is at most `max` |
| TuningSpec.IncCanDropBelowMin | viennacl/generator/autotune.hpp:139-144 | `add_one` at the largest value gives zero without a reset, below `min` |
| TuningSpec.DoublingCanMissMax | viennacl/generator/autotune.hpp:136-144 | a doubling counter from 3 with maximum 10 returns to 3 without ever being at its maximum |
| TuningSpec.DoublingWrapsOntoMax | viennacl/generator/autotune.hpp:116-144 | a doubling counter from 3000000000 with maximum 3410065408 wraps to 1705032704 without a reset and then reaches its maximum |
| TuningSpec.AddParam | viennacl/generator/autotune.hpp:177-179 | the name is added; an existing name keeps its parameter; a new one starts at its minimum; others are untouched |
| TuningSpec.ResetAll | viennacl/generator/autotune.hpp:204-208 | the same names, each at its minimum |
| TuningSpec.HasNext | viennacl/generator/autotune.hpp:182-186 | some parameter is not at its maximum |
| TuningSpec.UpdateFrom | viennacl/generator/autotune.hpp:189-191 | the update loop over the pending names in order, stopping after the first that does not wrap; `UpdateIsOdometer` states it |
| TuningSpec.Update | viennacl/generator/autotune.hpp:189-191 | `update()` over all names |
| TuningSpec.UpdateIsOdometer | viennacl/generator/autotune.hpp:189-191 | a pending name is incremented exactly when every pending name before it wraps; other parameters are unchanged; no name is added or removed |
| TuningSpec.UpdateSpec | viennacl/generator/autotune.hpp:189-191 | `update()` on the whole map: the odometer over all names in `std::map` order |
| TuningSpec.BenchmarkLoopCanCycle | viennacl/generator/autotune.hpp:182-191 | `has_next()` can stay true while `update()` returns the configuration to where it started |
| StringOrder.Least | viennacl/generator/autotune.hpp:170 | the first name of a set in `std::string` order is in the set and before every other name |
| StringOrder.Less | viennacl/generator/autotune.hpp:170 | `std::string` order: character by character, a proper prefix first |
| StringOrder.LessTotal | viennacl/generator/autotune.hpp:170 | two different names are ordered one way or the other |
| Tuning.TuningParam.constructor | viennacl/generator/autotune.hpp:133 | a new parameter starts at `min` with its bounds and policy |
| Tuning.TuningParam.IsMax | viennacl/generator/autotune.hpp:136 | true exactly when `current >= max` |
| Tuning.TuningParam.Inc | viennacl/generator/autotune.hpp:139-144 | the new state and the result are `TuningSpec.Inc` of the old state |
| Tuning.TuningParam.Reset | viennacl/generator/autotune.hpp:150 | `current` becomes `min` |
| Tuning.TuningConfig.constructor | viennacl/generator/autotune.hpp:211 | the implicit default constructor: no parameters |
| Tuning.TuningConfig.AddTuningParam | viennacl/generator/autotune.hpp:177-179 | the new state is `AddParam` of the old; an existing name keeps its parameter object; distinct names keep distinct objects |
| Tuning.TuningConfig.HasNext | viennacl/generator/autotune.hpp:182-186 | the fold over the parameters is true exactly when some parameter is not at its maximum |
| Tuning.TuningConfig.Update | viennacl/generator/autotune.hpp:189-191 | the loop with its early `break` leaves exactly the state `TuningSpec.Update` of the old state; no name is added or removed |
| Tuning.TuningConfig.Reset | viennacl/generator/autotune.hpp:204-208 | the new state is `ResetAll` of the old; names unchanged |
| SparseKeys.LeastKey | viennacl/linalg/detail/ilu/ilut.hpp:150 | the next key of the ascending iteration: the least of the pending keys |
| SparseKeys.MaxKey | viennacl/linalg/detail/ilu/ilut.hpp:207 | the next key of the reverse iteration: the greatest of the remaining keys |

## Left out

- The `ilut_precond` classes (`ilut.hpp` lines 243-393): memory-handle switching, host/device copies and `cl_uint` conversion. Their `apply` calls triangular solvers whose source is not part of this model.
- The main-memory `assert`s and `extract_raw_pointer` in the compressed `setup_w`: the three buffers are plain arrays here. Their consistency (`WellFormed`) is a precondition, because the source reads them unchecked.
- The `assert` on the output size at `ilut.hpp` line 135 is the precondition `output.Length == Size1(A)` of `Ilut.Precondition`.
- Floating-point rounding: values are `real`. The exact effect of multiplying by `1.000001` on a `double` is therefore not modelled; in `real` arithmetic the key strictly grows, and the perturbation loop terminates.
- `std::sqrt`: the squared norm is kept and the drop test compares squares (see `IlutSpec.ExceededIsDropTest`).
- The exceptions are modelled as error results (`IlutSpec.IlutError`). The message written to `std::cerr` before the zero-diagonal exception is not modelled.
- `Timer`, `benchmark_impl` and both `benchmark` overloads of `autotune.hpp`: clocks, OpenCL compilation and execution, and console output.
- `tuning_config::is_invalid` and `get_current`: they delegate to a `ConfigT` that is not part of this model.
- Increment functions other than the two presets `inc::mul_by_two` and `inc::add_one`: a `tuning_param` holds a function pointer, and the model holds one of the two presets.
- The getters `get_drop_tolerance`, `get_entries_per_row` and `current()`: the fields are read directly.
- Name order: names are Dafny `string`s compared character by character (`StringOrder.Less`), while `std::string` compares bytes as `unsigned char`. The two orders agree on ASCII and on UTF-8 names; a name that is not valid UTF-8 has no representation in the model.
