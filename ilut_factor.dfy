/**
 * The whole factorisation as functions on values: row after row is loaded,
 * eliminated, ranked and its selected entries merged into the output row, until
 * a row aborts or every row is done.
 */
module IlutFactor {
  import opened Wrappers
  import opened RowAccess
  import opened IlutSpec
  import opened IlutSelect

  /** What the factorisation leaves behind: how it ended and the output rows. */
  datatype Factorization = Factorization(outcome: Outcome<IlutError>, rows: seq<Row>)

  /**
   * The rows of the system matrix as `setup_w` loads them, each with its squared
   * norm; the factorisation only reads the matrix through these.
   */
  function LoadedRows(A: SystemMatrix, n: nat): (r: seq<(Row, real)>)
    requires WellFormed(A) && n <= Size1(A)
    reads Footprint(A)
    ensures |r| == n && forall j :: 0 <= j < n ==> r[j] == LoadRow(A, j)
  {
    if n == 0 then [] else LoadedRows(A, n - 1) + [LoadRow(A, n - 1)]
  }

  /** The drop threshold of row `i`: the drop tolerance times the norm of the row. */
  function RowThreshold(loaded: seq<(Row, real)>, tol: real, i: nat): Threshold
    requires i < |loaded|
  {
    Threshold(tol, loaded[i].1)
  }

  /** The working vector of row `i` after the elimination phase. */
  function EliminatedRow(loaded: seq<(Row, real)>, tol: real, rows: seq<Row>, i: nat): Result<Row, IlutError>
    requires |rows| == |loaded| && i < |rows|
  {
    Eliminate(rows, i, RowThreshold(loaded, tol, i), loaded[i].0, 0)
  }

  /** The ranking map of row `i`. */
  function RankedRow(loaded: seq<(Row, real)>, tol: real, rows: seq<Row>, i: nat): Result<SortMap, IlutError>
    requires |rows| == |loaded| && i < |rows|
  {
    var w :- EliminatedRow(loaded, tol, rows, i);
    Rank(w, i, RowThreshold(loaded, tol, i), map[])
  }

  /** The entries written into output row `i`, or the error that aborts it. */
  function FactorRow(loaded: seq<(Row, real)>, epr: nat, tol: real, rows: seq<Row>, i: nat): Result<Row, IlutError>
    requires |rows| == |loaded| && i < |rows|
  {
    var tm :- RankedRow(loaded, tol, rows, i);
    Success(Written(tm, i, epr, 0, 0))
  }

  /** The rows after `output[k][k]` has inserted a zero diagonal into row `k` where it had none. */
  function WithZeroDiagonal(rows: seq<Row>, k: nat): seq<Row>
    requires k < |rows|
  {
    var diagonal: Row := rows[k][k := 0.0];
    rows[k := diagonal]
  }

  /**
   * Rows `i` onwards. A zero pivot in row `k` aborts after `output[k][k]` has
   * inserted a zero diagonal into row `k` (a `std::map` lookup by `[]` inserts
   * a missing key); a singular factor aborts with the output as it is.
   */
  function FactorFrom(loaded: seq<(Row, real)>, epr: nat, tol: real, rows: seq<Row>, i: nat): Factorization
    requires |rows| == |loaded| && i <= |rows|
    decreases |rows| - i
  {
    if i == |rows| then Factorization(Pass, rows)
    else
      match FactorRow(loaded, epr, tol, rows, i)
      case Failure(e) =>
        if e.ZeroDiagonal? && e.pivotRow < |rows| then
          Factorization(Fail(e), WithZeroDiagonal(rows, e.pivotRow))
        else Factorization(Fail(e), rows)
      case Success(written) => FactorFrom(loaded, epr, tol, rows[i := rows[i] + written], i + 1)
  }

  /** Factoring `rows` from row `i` on ends in `f`. */
  predicate Continues(loaded: seq<(Row, real)>, epr: nat, tol: real, rows: seq<Row>, i: nat, f: Factorization) {
    |rows| == |loaded| && i <= |rows| && FactorFrom(loaded, epr, tol, rows, i) == f
  }

  /** One row of `FactorFrom` unfolded, `r` being the outcome of row `i`. */
  lemma FactorFromStep(loaded: seq<(Row, real)>, epr: nat, tol: real, rows: seq<Row>, i: nat, r: Result<Row, IlutError>)
    requires |rows| == |loaded| && i < |rows| && r == FactorRow(loaded, epr, tol, rows, i)
    ensures r.Success? ==>
      FactorFrom(loaded, epr, tol, rows, i) == FactorFrom(loaded, epr, tol, rows[i := rows[i] + r.value], i + 1)
    ensures r.Failure? && r.error.ZeroDiagonal? ==>
      && r.error.pivotRow < |rows|
      && FactorFrom(loaded, epr, tol, rows, i) == Factorization(Fail(r.error), WithZeroDiagonal(rows, r.error.pivotRow))
    ensures r.Failure? && r.error.SingularFactor? ==>
      FactorFrom(loaded, epr, tol, rows, i) == Factorization(Fail(r.error), rows)
  {
  }

  /**
   * Row `i` factored into `rows2`: it completes exactly when `FactorRow` does,
   * its written entries merged into row `i`; an abort at a zero pivot leaves a
   * zero diagonal in the pivot row, a singular factor leaves the rows as they
   * were.
   */
  predicate RowFactored(loaded: seq<(Row, real)>, epr: nat, tol: real, rows: seq<Row>, i: nat,
                        outcome: Outcome<IlutError>, rows2: seq<Row>)
    requires |rows| == |loaded| && i < |rows|
  {
    var r := FactorRow(loaded, epr, tol, rows, i);
    && (outcome.Pass? <==> r.Success?)
    && (r.Success? ==> rows2 == rows[i := rows[i] + r.value])
    && (r.Failure? ==> outcome.error == r.error)
    && (r.Failure? && r.error.ZeroDiagonal? ==>
          r.error.pivotRow < |rows| && rows2 == WithZeroDiagonal(rows, r.error.pivotRow))
    && (r.Failure? && r.error.SingularFactor? ==> rows2 == rows)
  }

  /** A factored row continues `FactorFrom` with the next row, or is where it stops. */
  lemma FactorFromAdvance(loaded: seq<(Row, real)>, epr: nat, tol: real, rows: seq<Row>, i: nat,
                          outcome: Outcome<IlutError>, rows2: seq<Row>)
    requires |rows| == |loaded| && i < |rows|
    requires RowFactored(loaded, epr, tol, rows, i, outcome, rows2)
    ensures |rows2| == |rows|
    ensures outcome.Pass? ==> FactorFrom(loaded, epr, tol, rows, i) == FactorFrom(loaded, epr, tol, rows2, i + 1)
    ensures outcome.Fail? ==> FactorFrom(loaded, epr, tol, rows, i) == Factorization(outcome, rows2)
  {
    FactorFromStep(loaded, epr, tol, rows, i, FactorRow(loaded, epr, tol, rows, i));
  }

  /** Every stored entry is nonzero and at most `epr` entries lie on either side of the diagonal. */
  predicate RowShape(row: Row, i: nat, epr: nat) {
    && (forall c :: c in row ==> row[c] != 0.0)
    && |Side(row, i, true)| <= epr
    && |Side(row, i, false)| <= epr
  }

  /**
   * One row: it aborts exactly when a pivot it needs is zero or a ranked entry
   * is zero. Otherwise the written entries are elements of the eliminated
   * vector that pass the drop test or sit on the diagonal, all nonzero; the
   * diagonal is written exactly when the eliminated vector holds it; and at most
   * `epr` entries are written on either side.
   */
  lemma FactorRowSpec(loaded: seq<(Row, real)>, epr: nat, tol: real, rows: seq<Row>, i: nat)
    requires |rows| == |loaded| && i < |rows|
    ensures var r, e, th := FactorRow(loaded, epr, tol, rows, i), EliminatedRow(loaded, tol, rows, i), RowThreshold(loaded, tol, i);
      && (e.Failure? ==> r == Failure(e.error))
      && (e.Success? ==> forall k :: k in e.value && k < i ==> Get(rows[k], k) != 0.0)
      && (e.Success? ==> (r.Failure? <==> HasZeroRanked(e.value, i, th)))
      && (e.Success? && r.Failure? ==> r.error == SingularFactor(i))
    ensures var r, e, th := FactorRow(loaded, epr, tol, rows, i), EliminatedRow(loaded, tol, rows, i), RowThreshold(loaded, tol, i);
      r.Success? ==>
        && r.value.Keys <= RankedCols(e.value, i, th)
        && (forall c :: c in r.value ==> r.value[c] == e.value[c] && r.value[c] != 0.0)
        && (i in r.value <==> i in e.value)
        && RowShape(r.value, i, epr)
  {
    var e, th := EliminatedRow(loaded, tol, rows, i), RowThreshold(loaded, tol, i);
    if e.Success? {
      SuccessfulEliminationPivots(rows, i, th, loaded[i].0);
      var w := e.value;
      RankSpec(w, i, th, map[]);
      var rk := Rank(w, i, th, map[]);
      if rk.Success? {
        var tm := rk.value;
        assert Cols(map[]) == {};
        WrittenFromRanking(tm, i, epr, 0, 0);
        WrittenWithinBudget(tm, i, epr, 0, 0);
        var written := Written(tm, i, epr, 0, 0);
        assert FactorRow(loaded, epr, tol, rows, i) == Success(written);
        forall c | c in written ensures written[c] == w[c] && written[c] != 0.0 {
          var t :| t in tm && tm[t].col == c;
          assert t >= Abs(tm[t].value) && t > 0.0;
        }
        assert i in RankedCols(w, i, th) <==> i in w;
      }
    }
  }

  lemma FactorRowShape(loaded: seq<(Row, real)>, epr: nat, tol: real, rows: seq<Row>, i: nat)
    requires |rows| == |loaded| && i < |rows|
    requires FactorRow(loaded, epr, tol, rows, i).Success?
    ensures RowShape(FactorRow(loaded, epr, tol, rows, i).value, i, epr)
  {
    FactorRowSpec(loaded, epr, tol, rows, i);
  }

  /**
   * Within one row the largest entries are kept: an entry of the ranking map on
   * one side of the diagonal is written exactly when fewer than `epr` entries of
   * that side rank above it.
   */
  lemma FactorRowKeepsLargest(loaded: seq<(Row, real)>, epr: nat, tol: real, rows: seq<Row>, i: nat, t: real, lower: bool)
    requires |rows| == |loaded| && i < |rows|
    requires RankedRow(loaded, tol, rows, i).Success?
    requires var tm := RankedRow(loaded, tol, rows, i).value; t in tm && OnSide(tm[t].col, i, lower)
    ensures var tm := RankedRow(loaded, tol, rows, i).value;
      tm[t].col in FactorRow(loaded, epr, tol, rows, i).value <==> |Larger(tm, i, t, lower)| < epr
  {
    var e, th := EliminatedRow(loaded, tol, rows, i), RowThreshold(loaded, tol, i);
    RankSpec(e.value, i, th, map[]);
    WrittenAreLargest(RankedRow(loaded, tol, rows, i).value, i, epr, 0, 0, t, lower);
  }

  /**
   * With a zero drop tolerance and a budget that covers the whole ranking map,
   * a completed row drops only zeros and truncates nothing: the written
   * entries agree with the eliminated vector in every column.
   */
  lemma WrittenIsEliminated(loaded: seq<(Row, real)>, epr: nat, tol: real, rows: seq<Row>, i: nat)
    requires |rows| == |loaded| && i < |rows| && tol == 0.0
    requires RankedRow(loaded, tol, rows, i).Success? && |RankedRow(loaded, tol, rows, i).value| <= epr
    ensures FactorRow(loaded, epr, tol, rows, i).Success? && EliminatedRow(loaded, tol, rows, i).Success?
    ensures forall c :: Get(FactorRow(loaded, epr, tol, rows, i).value, c) == Get(EliminatedRow(loaded, tol, rows, i).value, c)
  {
    var e, th := EliminatedRow(loaded, tol, rows, i), RowThreshold(loaded, tol, i);
    var tm := RankedRow(loaded, tol, rows, i).value;
    var out := FactorRow(loaded, epr, tol, rows, i).value;
    FactorRowSpec(loaded, epr, tol, rows, i);
    RankSpec(e.value, i, th, map[]);
    assert Cols(map[]) == {};
    forall c: nat ensures Get(out, c) == Get(e.value, c) {
      if c in e.value && e.value[c] != 0.0 && c != i {
        assert c in RankedCols(e.value, i, th);
        var t :| t in tm && tm[t].col == c;
        LargerBelowSize(tm, i, t, c < i);
        FactorRowKeepsLargest(loaded, epr, tol, rows, i, t, c < i);
        assert c in out;
      }
    }
  }

  /**
   * Exactness at a zero drop tolerance: when nothing but zeros is dropped and
   * the budget covers the whole ranking map, the factors reproduce row `i` of
   * the matrix. Column `j` of the loaded row equals the sum of
   * `L[i][k] * U[k][j]` over the rows `k < i` with `k <= j`, plus `U[i][j]` on
   * and right of the diagonal, `L` and `U` being read from the written entries
   * and the finished rows (real arithmetic).
   */
  lemma ExactAtZeroTolerance(loaded: seq<(Row, real)>, epr: nat, tol: real, rows: seq<Row>, i: nat)
    requires |rows| == |loaded| && i < |rows| && tol == 0.0
    requires RankedRow(loaded, tol, rows, i).Success? && |RankedRow(loaded, tol, rows, i).value| <= epr
    ensures FactorRow(loaded, epr, tol, rows, i).Success?
    ensures forall j: nat :: Get(loaded[i].0, j) == ProductEntry(rows, FactorRow(loaded, epr, tol, rows, i).value, i, j)
  {
    var th := RowThreshold(loaded, tol, i);
    WrittenIsEliminated(loaded, epr, tol, rows, i);
    var wf := EliminatedRow(loaded, tol, rows, i).value;
    var out := FactorRow(loaded, epr, tol, rows, i).value;
    forall j: nat ensures Get(loaded[i].0, j) == ProductEntry(rows, out, i, j) {
      EliminationRecombines(rows, i, th, loaded[i].0, 0, wf, j);
      RecombinedAgrees(rows, out, wf, 0, if j < i then j + 1 else i, j);
    }
  }

  /**
   * An abort at a zero pivot names the row being factored, at or after `i`, and
   * an earlier row whose diagonal now reads zero; the number of rows is kept.
   */
  lemma {:induction false} FactorReportsZeroPivot(loaded: seq<(Row, real)>, epr: nat, tol: real, rows: seq<Row>, i: nat)
    requires |rows| == |loaded| && i <= |rows|
    ensures |FactorFrom(loaded, epr, tol, rows, i).rows| == |rows|
    ensures var f := FactorFrom(loaded, epr, tol, rows, i);
      f.outcome.Fail? && f.outcome.error.ZeroDiagonal? ==>
        && i <= f.outcome.error.row < |rows|
        && f.outcome.error.pivotRow < f.outcome.error.row
        && Get(f.rows[f.outcome.error.pivotRow], f.outcome.error.pivotRow) == 0.0
    decreases |rows| - i
  {
    if i < |rows| {
      var r := FactorRow(loaded, epr, tol, rows, i);
      FactorRowSpec(loaded, epr, tol, rows, i);
      if r.Success? {
        FactorReportsZeroPivot(loaded, epr, tol, rows[i := rows[i] + r.value], i + 1);
      } else if r.error.ZeroDiagonal? {
        var e := EliminatedRow(loaded, tol, rows, i);
        assert e.Failure? && r.error == e.error;
      }
    }
  }

  /**
   * When `f` completes, it has as many rows as `rows`, the rows before `i`
   * are those of `rows`, and every later row is within its budget with no zero
   * stored.
   */
  predicate ShapedFrom(f: Factorization, rows: seq<Row>, i: nat, epr: nat) {
    f.outcome.Pass? ==>
      && |f.rows| == |rows|
      && (forall j :: 0 <= j < i && j < |rows| ==> f.rows[j] == rows[j])
      && (forall j :: i <= j < |rows| ==> RowShape(f.rows[j], j, epr))
  }

  /**
   * The factorisation of rows `i` onwards into an output whose rows from `i` on
   * are empty: when it completes, the rows before `i` are untouched and every
   * later row is within its budget with no zero stored.
   */
  lemma {:induction false} FactorShape(loaded: seq<(Row, real)>, epr: nat, tol: real, rows: seq<Row>, i: nat)
    requires |rows| == |loaded| && i <= |rows|
    requires EmptyFrom(rows, i)
    ensures ShapedFrom(FactorFrom(loaded, epr, tol, rows, i), rows, i, epr)
    decreases |rows| - i
  {
    if i < |rows| {
      var r := FactorRow(loaded, epr, tol, rows, i);
      FactorFromStep(loaded, epr, tol, rows, i, r);
      if r.Success? {
        FactorRowShape(loaded, epr, tol, rows, i);
        var written := rows[i] + r.value;
        EmptyFromStep(rows, i, written);
        MergeIntoEmpty(rows[i], r.value);
        FactorShape(loaded, epr, tol, rows[i := written], i + 1);
        ShapedStep(FactorFrom(loaded, epr, tol, rows[i := written], i + 1), rows, i, written, epr);
      }
    }
  }

  /** The output rows from `i` on hold nothing yet. */
  predicate EmptyFrom(rows: seq<Row>, i: nat) {
    forall j :: i <= j < |rows| ==> rows[j] == map[]
  }

  lemma EmptyFromStep(rows: seq<Row>, i: nat, x: Row)
    requires i < |rows| && EmptyFrom(rows, i)
    ensures rows[i] == map[] && EmptyFrom(rows[i := x], i + 1)
  {
  }

  lemma MergeIntoEmpty(row: Row, written: Row)
    requires row == map[]
    ensures row + written == written
  {
  }

  /** A row within its budget followed by a completed factorisation of the rest. */
  lemma ShapedStep(f: Factorization, rows: seq<Row>, i: nat, written: Row, epr: nat)
    requires i < |rows| && RowShape(written, i, epr)
    requires ShapedFrom(f, rows[i := written], i + 1, epr)
    ensures ShapedFrom(f, rows, i, epr)
  {
  }
}
