/**
 * `precondition` of the ILUT preconditioner: the output rows are an array that
 * is updated in place, row after row. Each loop of the source is its own
 * method here, proved equal to the function of IlutSpec, IlutSelect or
 * IlutFactor that specifies it.
 */
module Ilut {
  import opened Wrappers
  import opened SparseKeys
  import opened RowAccess
  import opened IlutConfig
  import opened IlutSpec
  import opened IlutSelect
  import opened IlutFactor

  /** `w[j] -= m * rowK[j]` for every stored column `j > k` of row `k`, in ascending column order. */
  method PropagateRow(w0: Row, rowK: Row, k: nat, m: real) returns (w: Row)
    ensures w == Propagated(w0, rowK, k, m)
  {
    w := w0;
    var rest := rowK;
    ghost var done: Row := map[];
    SplitStart(rowK);
    assert Updates(w0, done, k, m) == map[];
    assert w0 + map[] == w0;
    while rest != map[]
      invariant Split(done, rest, rowK)
      invariant w == Propagated(w0, done, k, m)
      decreases rest.Keys
    {
      var j := LeastKey(rest.Keys);
      SplitStep(done, rest, rowK, j);
      PropagatedStep(w0, done, k, m, j, rest[j]);
      if j > k {
        w := w[j := Reduced(w, j, m, rest[j])];
      }
      done := done[j := rest[j]];
      rest := rest - {j};
    }
    SplitEnd(done, rowK);
  }

  /**
   * The elimination loop of row `i`: `w` is walked in ascending column order,
   * fill-in included, until the first column at or right of the diagonal. On a
   * zero pivot the lookup `output[k][k]` leaves a zero diagonal in row `k`.
   */
  method EliminateRow(output: array<Row>, i: nat, th: Threshold, w0: Row) returns (r: Result<Row, IlutError>)
    requires i <= output.Length
    modifies output
    ensures r == Eliminate(old(output[..]), i, th, w0, 0)
    ensures r.Success? ==> output[..] == old(output[..])
    ensures r.Failure? ==>
      r.error.pivotRow < output.Length && output[..] == WithZeroDiagonal(old(output[..]), r.error.pivotRow)
  {
    ghost var rows := output[..];
    var w := w0;
    var lo := 0;
    while Below(w.Keys, lo, i) != {}
      invariant lo <= i
      invariant output[..] == rows
      invariant Eliminate(rows, i, th, w, lo) == Eliminate(rows, i, th, w0, 0)
      decreases i - lo
    {
      var k := LeastKey(Below(w.Keys, lo, i));
      NothingStoredBefore(w, lo, i, k);
      EliminationSkips(rows, i, th, w, lo, k);
      var pivot := Get(output[k], k);
      if pivot == 0.0 {
        output[k] := output[k][k := 0.0];
        return Failure(ZeroDiagonal(i, k));
      }
      var entry := w[k] / pivot;
      w := w[k := entry];
      if th.Exceeded(entry) {
        w := PropagateRow(w, output[k], k, entry);
      }
      lo := k + 1;
    }
    NothingStoredBefore(w, lo, i, i);
    EliminationSkips(rows, i, th, w, lo, i);
    return Success(w);
  }

  /** `temp *= 1.000001` while `temp` is already a key of the ranking map. */
  method UniqueKey(keys: set<real>, t0: real) returns (t: real)
    requires t0 > 0.0
    ensures t == Perturb(keys, t0)
  {
    t := t0;
    while t in keys
      invariant t > 0.0
      invariant Perturb(keys, t) == Perturb(keys, t0)
      decreases set x | x in keys && x >= t
    {
      var t' := t * 1.000001;
      var above, above' := set x | x in keys && x >= t, set x | x in keys && x >= t';
      assert t' > t;
      assert above' <= above;
      assert t in above && t !in above';
      t := t';
    }
  }

  /** The ranking loop: every kept entry of `w`, in ascending column order, under a fresh magnitude key. */
  method RankRow(w: Row, i: nat, th: Threshold) returns (r: Result<SortMap, IlutError>)
    ensures r == Rank(w, i, th, map[])
  {
    var tm: SortMap := map[];
    var rest := w;
    while rest != map[]
      invariant Rank(rest, i, th, tm) == Rank(w, i, th, map[])
      decreases rest.Keys
    {
      var k := LeastKey(rest.Keys);
      var entry := rest[k];
      if th.Exceeded(entry) || k == i {
        var temp := Abs(entry);
        if temp == 0.0 {
          return Failure(SingularFactor(i));
        }
        temp := UniqueKey(tm.Keys, temp);
        tm := tm[temp := Entry(k, entry)];
      }
      rest := rest - {k};
    }
    return Success(tm);
  }

  /** The selection loop: the ranking map walked from its largest key down into row `i`. */
  method WriteRow(output: array<Row>, i: nat, tm: SortMap, epr: nat)
    requires i < output.Length
    modifies output
    ensures output[..] == old(output[..])[i := Select(tm, i, epr, old(output[i]), 0, 0)]
  {
    var rest := tm;
    var writtenL, writtenU := 0, 0;
    while rest.Keys != {}
      invariant output[..] == old(output[..])[i := output[i]]
      invariant Select(rest, i, epr, output[i], writtenL, writtenU) == Select(tm, i, epr, old(output[i]), 0, 0)
      decreases rest.Keys
    {
      var t := MaxKey(rest.Keys);
      var j, entry := rest[t].col, rest[t].value;
      if j < i {
        if writtenL < epr {
          output[i] := output[i][j := entry];
          writtenL := writtenL + 1;
        }
      } else if j == i {
        output[i] := output[i][j := entry];
      } else {
        if writtenU < epr {
          output[i] := output[i][j := entry];
          writtenU := writtenU + 1;
        }
      }
      rest := rest - {t};
    }
  }

  /**
   * One pass of the outer loop: row `i` is loaded, eliminated, ranked and
   * written into `output[i]`, or the row aborts.
   */
  method FactorRowInPlace(A: SystemMatrix, output: array<Row>, i: nat, epr: nat, tol: real, ghost loaded: seq<(Row, real)>)
    returns (outcome: Outcome<IlutError>)
    requires WellFormed(A) && i < Size1(A) && output.Length == |loaded|
    requires i < |loaded| && loaded[i] == LoadRow(A, i)
    modifies output
    ensures RowFactored(loaded, epr, tol, old(output[..]), i, outcome, output[..])
    ensures outcome.Pass? ==>
      FactorFrom(loaded, epr, tol, old(output[..]), i) == FactorFrom(loaded, epr, tol, output[..], i + 1)
    ensures outcome.Fail? ==>
      FactorFrom(loaded, epr, tol, old(output[..]), i) == Factorization(outcome, output[..])
  {
    ghost var rows := output[..];
    var w, normSq := SetupW(A, i);
    var th := Threshold(tol, normSq);
    var eliminated := EliminateRow(output, i, th, w);
    assert eliminated == EliminatedRow(loaded, tol, rows, i);
    if eliminated.Failure? {
      outcome := Fail(eliminated.error);
    } else {
      var ranked := RankRow(eliminated.value, i, th);
      assert ranked == RankedRow(loaded, tol, rows, i);
      if ranked.Failure? {
        outcome := Fail(ranked.error);
      } else {
        WriteRow(output, i, ranked.value, epr);
        SelectMerges(ranked.value, i, epr, rows[i], 0, 0);
        outcome := Pass;
      }
    }
    FactorFromAdvance(loaded, epr, tol, rows, i, outcome, output[..]);
  }

  /**
   * The ILUT factorisation of `A` into `output`, one row after another. The
   * result and the final output are exactly those of `FactorFrom`, whose
   * properties are proved in IlutFactor.
   */
  method Precondition(A: SystemMatrix, output: array<Row>, tag: IlutTag) returns (outcome: Outcome<IlutError>)
    requires WellFormed(A) && output.Length == Size1(A)
    modifies output
    ensures var f := FactorFrom(old(LoadedRows(A, Size1(A))), tag.entriesPerRow as nat, tag.dropTolerance, old(output[..]), 0);
      outcome == f.outcome && output[..] == f.rows
  {
    var epr, tol := tag.entriesPerRow as nat, tag.dropTolerance;
    ghost var loaded := LoadedRows(A, Size1(A));
    ghost var f := FactorFrom(loaded, epr, tol, output[..], 0);
    var i := 0;
    while i < Size1(A)
      invariant i <= output.Length
      invariant Continues(loaded, epr, tol, output[..], i, f)
    {
      outcome := FactorRowInPlace(A, output, i, epr, tol, loaded);
      if outcome.Fail? {
        return;
      }
      i := i + 1;
    }
    assert FactorFrom(loaded, epr, tol, output[..], i) == Factorization(Pass, output[..]);
    return Pass;
  }
}
