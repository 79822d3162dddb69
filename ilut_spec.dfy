/**
 * The ILUT factorisation (Saad, "Iterative Methods for Sparse Linear Systems",
 * Algorithm 10.6) as functions on values: the specification the imperative
 * `Ilut.Precondition` is proved against, and the lemmas about it.
 *
 * One row `i` goes through three phases:
 *  - elimination: the working vector `w` is scanned in ascending column order,
 *    fill-in included, and every column `k < i` is divided by the pivot of the
 *    finished row `k` and, when large enough, propagated through that row;
 *  - ranking: the surviving entries are keyed by magnitude, made unique;
 *  - selection: from the largest key down, at most `entriesPerRow` entries left
 *    of the diagonal, at most `entriesPerRow` right of it and the diagonal are
 *    written into row `i` of the output.
 */
module IlutSpec {
  import opened Wrappers
  import opened SparseKeys
  import opened RowAccess

  /** The two ways the factorisation aborts. */
  datatype IlutError =
    | ZeroDiagonal(row: nat, pivotRow: nat)  // "ILUT zero diagonal!" while eliminating `row`
    | SingularFactor(row: nat)               // "Triangular factor in ILUT singular!"

  function Abs(x: real): real {
    if x < 0.0 then -x else x
  }

  /**
   * The drop threshold of one row, `tau_i = dropTolerance * sqrt(rowNormSq)`,
   * kept as its two factors so that it is compared without a square root.
   */
  datatype Threshold = Threshold(dropTolerance: real, rowNormSq: real) {
    /** `|x| > tau_i` */
    predicate Exceeded(x: real) {
      if rowNormSq <= 0.0 || dropTolerance == 0.0 then x != 0.0
      else if dropTolerance < 0.0 then true
      else x * x > dropTolerance * dropTolerance * rowNormSq
    }
  }

  lemma SquaresOrdered(a: real, b: real)
    requires a >= 0.0 && b >= 0.0
    ensures a > b <==> a * a > b * b
  {
    if a > b {
      var d := a - b;
      assert a * a == b * b + d * (a + b);
      assert d * (a + b) > 0.0;
    } else {
      var d := b - a;
      assert b * b == a * a + d * (a + b);
      assert d * (a + b) >= 0.0;
    }
  }

  /** `Exceeded` is the drop test of the source for the real square root of the squared norm. */
  lemma ExceededIsDropTest(th: Threshold, x: real, norm: real)
    requires norm >= 0.0 && norm * norm == th.rowNormSq
    ensures th.Exceeded(x) <==> Abs(x) > th.dropTolerance * norm
  {
    var tol := th.dropTolerance;
    if norm == 0.0 || tol == 0.0 {
      assert tol * norm == 0.0;
    } else if tol < 0.0 {
      assert tol * norm < 0.0;
    } else {
      SquaresOrdered(Abs(x), tol * norm);
      assert Abs(x) * Abs(x) == x * x;
      assert (tol * norm) * (tol * norm) == tol * tol * (norm * norm);
    }
  }

  /**
   * A zero magnitude passes the drop test only when the tolerance is negative,
   * so with a non-negative tolerance only the diagonal can be ranked with
   * magnitude zero.
   */
  lemma ZeroPassesOnlyNegativeTolerance(th: Threshold)
    requires th.rowNormSq >= 0.0
    ensures th.Exceeded(0.0) <==> th.dropTolerance < 0.0 && th.rowNormSq > 0.0
  {
  }

  /** The keys of `s` in `[lo, hi)`. */
  function Below(s: set<nat>, lo: nat, hi: nat): set<nat> {
    set k | k in s && lo <= k < hi
  }

  /**
   * `w[j] -= m * rowK[j]` for every stored column `j > k` of row `k`, a
   * missing `w[j]` starting from zero; every other entry of `w` unchanged.
   */
  function Propagated(w: Row, rowK: Row, k: nat, m: real): Row {
    w + Updates(w, rowK, k, m)
  }

  /** The new values of the columns the propagation touches. */
  function Updates(w: Row, rowK: Row, k: nat, m: real): Row {
    map j | j in rowK && j > k :: Reduced(w, j, m, rowK[j])
  }

  /** `w[j] - m * x`, a missing `w[j]` read as zero. */
  function Reduced(w: Row, j: nat, m: real, x: real): real {
    Get(w, j) - m * x
  }

  /** One more stored entry of row `k`, as a change of the update map. */
  lemma UpdatesStep(w: Row, done: Row, k: nat, m: real, j: nat, v: real)
    requires j !in done
    ensures j !in Updates(w, done, k, m)
    ensures Updates(w, done[j := v], k, m) ==
      if j > k then Updates(w, done, k, m)[j := Reduced(w, j, m, v)] else Updates(w, done, k, m)
  {
    var u, u' := Updates(w, done, k, m), Updates(w, done[j := v], k, m);
    var e := if j > k then u[j := Reduced(w, j, m, v)] else u;
    forall c ensures c in u' <==> c in e {
      if c != j {
        assert c in done[j := v] <==> c in done;
      }
    }
    forall c | c in u' ensures u'[c] == e[c] {
      if c != j {
        assert done[j := v][c] == done[c];
      }
    }
  }

  /** One more stored entry of row `k` propagated. */
  lemma PropagatedStep(w: Row, done: Row, k: nat, m: real, j: nat, v: real)
    requires j !in done
    ensures Get(Propagated(w, done, k, m), j) == Get(w, j)
    ensures Propagated(w, done[j := v], k, m) ==
      if j > k then Propagated(w, done, k, m)[j := Reduced(w, j, m, v)] else Propagated(w, done, k, m)
  {
    UpdatesStep(w, done, k, m, j, v);
    var u := Updates(w, done, k, m);
    if j > k {
      var x := Reduced(w, j, m, v);
      assert w + u[j := x] == (w + u)[j := x];
    }
  }

  /** `row` split into the entries already `done` and those still to visit. */
  predicate Split(done: Row, rest: Row, row: Row) {
    done.Keys !! rest.Keys && done + rest == row
  }

  lemma SplitStart(row: Row)
    ensures Split(map[], row, row)
  {
    assert map[] + row == row;
  }

  lemma SplitStep(done: Row, rest: Row, row: Row, j: nat)
    requires Split(done, rest, row) && j in rest
    ensures j !in done && Split(done[j := rest[j]], rest - {j}, row)
  {
    var done', rest' := done[j := rest[j]], rest - {j};
    assert done' + rest' == done + rest;
  }

  lemma SplitEnd(done: Row, row: Row)
    requires Split(done, map[], row)
    ensures done == row
  {
    assert done + map[] == done;
  }

  /**
   * Column `k` of `w` eliminated with the finished row `k`: `w[k]` becomes the
   * multiplier `w[k] / pivot`, which is propagated through row `k` when it
   * exceeds the threshold. Only columns right of `k` can be inserted.
   */
  function EliminationStep(rowK: Row, k: nat, th: Threshold, w: Row): (r: Row)
    requires k in w && Get(rowK, k) != 0.0
    ensures w.Keys <= r.Keys
    ensures r[k] == w[k] / Get(rowK, k)
    ensures forall j :: j in r && j !in w ==> th.Exceeded(r[k]) && j in rowK && j > k
    ensures th.Exceeded(r[k]) ==> forall j :: j in rowK && j > k ==> j in r
    ensures forall j :: j in r && j != k ==>
      r[j] == if th.Exceeded(r[k]) && j in rowK && j > k then Get(w, j) - r[k] * rowK[j] else w[j]
    ensures !th.Exceeded(r[k]) ==> r == w[k := r[k]]
  {
    var m := w[k] / Get(rowK, k);
    var w1 := w[k := m];
    if th.Exceeded(m) then Propagated(w1, rowK, k, m) else w1
  }

  /**
   * The elimination phase of row `i` from column `lo` on, in ascending column
   * order up to the diagonal: a column stored in `w` is eliminated, a column
   * not stored is passed over. The propagation only inserts columns right of
   * the one being eliminated, so fill-in is reached later in the same scan.
   */
  function Eliminate(rows: seq<Row>, i: nat, th: Threshold, w: Row, lo: nat): (r: Result<Row, IlutError>)
    requires i <= |rows|
    ensures r.Failure? ==>
      && r.error.ZeroDiagonal? && r.error.row == i
      && lo <= r.error.pivotRow < i && Get(rows[r.error.pivotRow], r.error.pivotRow) == 0.0
    ensures r.Success? ==> w.Keys <= r.value.Keys
    ensures r.Success? ==> forall j :: j in r.value && j !in w ==> j > lo
    decreases i - lo
  {
    if lo >= i then Success(w)
    else if lo !in w then Eliminate(rows, i, th, w, lo + 1)
    else if Get(rows[lo], lo) == 0.0 then Failure(ZeroDiagonal(i, lo))
    else Eliminate(rows, i, th, EliminationStep(rows[lo], lo, th, w), lo + 1)
  }

  /** The columns the elimination phase eliminates, in the order it reaches them. */
  function EliminationOrder(rows: seq<Row>, i: nat, th: Threshold, w: Row, lo: nat): seq<nat>
    requires i <= |rows|
    decreases i - lo
  {
    if lo >= i then []
    else if lo !in w then EliminationOrder(rows, i, th, w, lo + 1)
    else if Get(rows[lo], lo) == 0.0 then [lo]
    else [lo] + EliminationOrder(rows, i, th, EliminationStep(rows[lo], lo, th, w), lo + 1)
  }

  /** Columns that `w` does not store change nothing: the scan may start at the next stored one. */
  lemma {:induction false} EliminationSkips(rows: seq<Row>, i: nat, th: Threshold, w: Row, lo: nat, k: nat)
    requires i <= |rows| && lo <= k <= i
    requires forall c :: lo <= c < k ==> c !in w
    ensures Eliminate(rows, i, th, w, lo) == Eliminate(rows, i, th, w, k)
    ensures EliminationOrder(rows, i, th, w, lo) == EliminationOrder(rows, i, th, w, k)
    decreases k - lo
  {
    if lo < k {
      EliminationSkips(rows, i, th, w, lo + 1, k);
    }
  }

  /** No column of `w` in `[lo, k)` when `k` is the least pending column, or no column is pending. */
  lemma NothingStoredBefore(w: Row, lo: nat, i: nat, k: nat)
    requires lo <= k <= i
    requires k == i ==> Below(w.Keys, lo, i) == {}
    requires k < i ==> forall j :: j in Below(w.Keys, lo, i) ==> k <= j
    ensures forall c :: lo <= c < k ==> c !in w
  {
    forall c | lo <= c < k ensures c !in w {
      var pending := c in Below(w.Keys, lo, i);
    }
  }

  predicate StrictlyAscending(t: seq<nat>) {
    forall a, b :: 0 <= a < b < |t| ==> t[a] < t[b]
  }

  predicate AllIn(t: seq<nat>, lo: nat, hi: nat) {
    forall a :: 0 <= a < |t| ==> lo <= t[a] < hi
  }

  /**
   * The elimination visits columns in strictly ascending order, all in
   * `[lo, i)`.
   */
  lemma {:induction false} EliminationVisitsAscending(rows: seq<Row>, i: nat, th: Threshold, w: Row, lo: nat)
    requires i <= |rows|
    ensures StrictlyAscending(EliminationOrder(rows, i, th, w, lo))
    ensures AllIn(EliminationOrder(rows, i, th, w, lo), lo, i)
    decreases i - lo
  {
    if lo < i {
      if lo !in w {
        EliminationVisitsAscending(rows, i, th, w, lo + 1);
      } else if Get(rows[lo], lo) != 0.0 {
        var w2 := EliminationStep(rows[lo], lo, th, w);
        EliminationVisitsAscending(rows, i, th, w2, lo + 1);
        ConsAscending(lo, EliminationOrder(rows, i, th, w2, lo + 1), i);
      }
    }
  }

  lemma ConsAscending(k: nat, t: seq<nat>, hi: nat)
    requires k < hi && StrictlyAscending(t) && AllIn(t, k + 1, hi)
    ensures StrictlyAscending([k] + t) && AllIn([k] + t, k, hi)
  {
    var t' := [k] + t;
    forall a, b | 0 <= a < b < |t'| ensures t'[a] < t'[b] {
      assert t'[b] == t[b - 1];
      if a > 0 {
        assert t'[a] == t[a - 1];
      }
    }
    forall a | 0 <= a < |t'| ensures k <= t'[a] < hi {
      if a > 0 {
        assert t'[a] == t[a - 1];
      }
    }
  }

  /** When the elimination fails, the last column it visited is the zero pivot. */
  lemma {:induction false} EliminationStopsAtZeroPivot(rows: seq<Row>, i: nat, th: Threshold, w: Row, lo: nat)
    requires i <= |rows|
    requires Eliminate(rows, i, th, w, lo).Failure?
    ensures var t := EliminationOrder(rows, i, th, w, lo);
      |t| > 0 && t[|t| - 1] == Eliminate(rows, i, th, w, lo).error.pivotRow
    decreases i - lo
  {
    if lo !in w {
      EliminationStopsAtZeroPivot(rows, i, th, w, lo + 1);
    } else if Get(rows[lo], lo) != 0.0 {
      var w2 := EliminationStep(rows[lo], lo, th, w);
      EliminationStopsAtZeroPivot(rows, i, th, w2, lo + 1);
      var t2 := EliminationOrder(rows, i, th, w2, lo + 1);
      assert ([lo] + t2)[|t2|] == t2[|t2| - 1];
    }
  }

  /** `t` lists exactly the keys of `w` in `[lo, hi)`. */
  predicate ListsKeys(t: seq<nat>, w: Row, lo: nat, hi: nat) {
    && (forall a :: 0 <= a < |t| ==> t[a] in w && lo <= t[a] < hi)
    && (forall x :: x in w && lo <= x < hi ==> x in t)
  }

  /**
   * A successful elimination has visited exactly the keys of the final `w` in
   * `[lo, i)`: fill-in inserted during the scan is visited as well.
   */
  lemma {:induction false} EliminationVisitsEveryKey(rows: seq<Row>, i: nat, th: Threshold, w: Row, lo: nat)
    requires i <= |rows|
    requires Eliminate(rows, i, th, w, lo).Success?
    ensures ListsKeys(EliminationOrder(rows, i, th, w, lo), Eliminate(rows, i, th, w, lo).value, lo, i)
    decreases i - lo
  {
    if lo < i {
      if lo !in w {
        EliminationVisitsEveryKey(rows, i, th, w, lo + 1);
        assert lo !in Eliminate(rows, i, th, w, lo + 1).value;
      } else {
        var w2 := EliminationStep(rows[lo], lo, th, w);
        EliminationVisitsEveryKey(rows, i, th, w2, lo + 1);
        var r := Eliminate(rows, i, th, w2, lo + 1).value;
        ConsListsKeys(EliminationOrder(rows, i, th, w2, lo + 1), r, lo, i);
      }
    }
  }

  /** A successful elimination met a nonzero pivot at every column it visited. */
  lemma {:induction false} EliminationSuccessMeansPivots(rows: seq<Row>, i: nat, th: Threshold, w: Row, lo: nat)
    requires i <= |rows|
    requires Eliminate(rows, i, th, w, lo).Success?
    ensures forall k :: k in EliminationOrder(rows, i, th, w, lo) ==> k < |rows| && Get(rows[k], k) != 0.0
    decreases i - lo
  {
    if lo < i {
      if lo !in w {
        EliminationSuccessMeansPivots(rows, i, th, w, lo + 1);
      } else {
        var w2 := EliminationStep(rows[lo], lo, th, w);
        EliminationSuccessMeansPivots(rows, i, th, w2, lo + 1);
      }
    }
  }

  /**
   * A visited column with a zero pivot aborts: a successful elimination leaves
   * only columns below `i` whose pivot rows have a nonzero diagonal.
   */
  lemma SuccessfulEliminationPivots(rows: seq<Row>, i: nat, th: Threshold, w: Row)
    requires i <= |rows|
    requires Eliminate(rows, i, th, w, 0).Success?
    ensures forall k :: k in Eliminate(rows, i, th, w, 0).value && k < i ==> Get(rows[k], k) != 0.0
  {
    EliminationVisitsEveryKey(rows, i, th, w, 0);
    EliminationSuccessMeansPivots(rows, i, th, w, 0);
  }

  /** The elimination writes only columns at or right of `lo`: every column left of it keeps its value. */
  lemma {:induction false} EliminationKeepsLeft(rows: seq<Row>, i: nat, th: Threshold, w: Row, lo: nat, c: nat)
    requires i <= |rows| && c < lo
    requires Eliminate(rows, i, th, w, lo).Success?
    ensures Get(Eliminate(rows, i, th, w, lo).value, c) == Get(w, c)
    decreases i - lo
  {
    if lo < i {
      if lo !in w {
        EliminationKeepsLeft(rows, i, th, w, lo + 1, c);
      } else {
        var w2 := EliminationStep(rows[lo], lo, th, w);
        EliminationKeepsLeft(rows, i, th, w2, lo + 1, c);
        assert Get(w2, c) == Get(w, c);
      }
    }
  }

  /**
   * The multipliers in `wf[lo..hi)` times column `j` of the finished rows
   * `lo` to `hi - 1`: the part of `L[i][..] * U[..][j]` those rows contribute.
   */
  function Recombined(rows: seq<Row>, wf: Row, lo: nat, hi: nat, j: nat): real
    requires hi <= |rows|
    decreases hi - lo
  {
    if lo >= hi then 0.0 else Get(wf, lo) * Get(rows[lo], j) + Recombined(rows, wf, lo + 1, hi, j)
  }

  /**
   * Column `j` of row `i` of the product of the factors, `wf` holding row `i`
   * of both: `L[i][k] * U[k][j]` over the rows `k < i` with `k <= j`, plus
   * `U[i][j]` on and right of the diagonal.
   */
  function ProductEntry(rows: seq<Row>, wf: Row, i: nat, j: nat): real
    requires i <= |rows|
  {
    Recombined(rows, wf, 0, if j < i then j + 1 else i, j) + (if j >= i then Get(wf, j) else 0.0)
  }

  /** Rows that agree on the columns `[lo, hi)` recombine to the same value. */
  lemma {:induction false} RecombinedAgrees(rows: seq<Row>, a: Row, b: Row, lo: nat, hi: nat, j: nat)
    requires hi <= |rows|
    requires forall c :: lo <= c < hi ==> Get(a, c) == Get(b, c)
    ensures Recombined(rows, a, lo, hi, j) == Recombined(rows, b, lo, hi, j)
    decreases hi - lo
  {
    if lo < hi {
      RecombinedAgrees(rows, a, b, lo + 1, hi, j);
    }
  }

  lemma DividedBack(x: real, p: real)
    requires p != 0.0
    ensures x / p * p == x
  {
  }

  /**
   * With a zero drop tolerance one step is exact: `w[k]` is the multiplier
   * times the pivot, and column `j > k` of `w` is its value after the step
   * plus the multiplier times row `k`'s entry, a zero multiplier contributing
   * nothing where it is not propagated. `m` is the multiplier as the rest of
   * the scan keeps it.
   */
  lemma StepRecombines(rowK: Row, k: nat, th: Threshold, w: Row, m: real, j: nat)
    requires k in w && Get(rowK, k) != 0.0
    requires th.dropTolerance == 0.0 && j >= k
    requires m == Get(EliminationStep(rowK, k, th, w), k)
    ensures j == k ==> Get(w, k) == m * Get(rowK, k)
    ensures j > k ==> Get(w, j) == Get(EliminationStep(rowK, k, th, w), j) + m * Get(rowK, j)
  {
    var w2 := EliminationStep(rowK, k, th, w);
    if j == k {
      DividedBack(w[k], Get(rowK, k));
    } else if m == 0.0 {
      assert w2 == w[k := m];
    } else {
      assert th.Exceeded(m);
    }
  }

  /**
   * Column `j` of `w` is recovered from the multipliers in `wf[lo..i)` and the
   * finished rows, plus `wf[j]` itself on and right of the diagonal.
   */
  predicate Recombines(rows: seq<Row>, w: Row, wf: Row, lo: nat, i: nat, j: nat)
    requires i <= |rows|
  {
    Get(w, j) == Recombined(rows, wf, lo, if j < i then j + 1 else i, j) + (if j >= i then Get(wf, j) else 0.0)
  }

  /** One column of the scan: it adds the multiplier `wf[lo]` times row `lo` to what the rest recombines. */
  lemma RecombinesStep(rows: seq<Row>, w: Row, w2: Row, wf: Row, lo: nat, i: nat, j: nat)
    requires lo < i <= |rows| && lo <= j
    requires j == lo ==> Get(w, lo) == Get(wf, lo) * Get(rows[lo], lo)
    requires j > lo ==> Get(w, j) == Get(w2, j) + Get(wf, lo) * Get(rows[lo], j)
    requires j > lo ==> Recombines(rows, w2, wf, lo + 1, i, j)
    ensures Recombines(rows, w, wf, lo, i, j)
  {
    var hi := if j < i then j + 1 else i;
    assert Recombined(rows, wf, lo, hi, j) == Get(wf, lo) * Get(rows[lo], j) + Recombined(rows, wf, lo + 1, hi, j);
  }

  /** An eliminated column, once the rest of the scan recombines: the scan from `lo` recombines too. */
  lemma EliminatedColumnRecombines(rows: seq<Row>, th: Threshold, w: Row, lo: nat, i: nat, wf: Row, j: nat)
    requires lo < i <= |rows| && lo <= j && th.dropTolerance == 0.0
    requires lo in w && Get(rows[lo], lo) != 0.0
    requires Get(wf, lo) == Get(EliminationStep(rows[lo], lo, th, w), lo)
    requires j > lo ==> Recombines(rows, EliminationStep(rows[lo], lo, th, w), wf, lo + 1, i, j)
    ensures Recombines(rows, w, wf, lo, i, j)
  {
    StepRecombines(rows[lo], lo, th, w, Get(wf, lo), j);
    RecombinesStep(rows, w, EliminationStep(rows[lo], lo, th, w), wf, lo, i, j);
  }

  /**
   * With a zero drop tolerance only a zero multiplier is not propagated, so
   * the elimination is exact: every column `j >= lo` of the working vector is
   * recovered from the eliminated vector `wf` and the finished rows, the
   * multipliers `wf[k]` standing below the diagonal and the rest of `wf`
   * on and right of it.
   */
  lemma {:induction false} EliminationRecombines(rows: seq<Row>, i: nat, th: Threshold, w: Row, lo: nat, wf: Row, j: nat)
    requires i <= |rows| && th.dropTolerance == 0.0 && lo <= j
    requires Eliminate(rows, i, th, w, lo) == Success(wf)
    ensures Recombines(rows, w, wf, lo, i, j)
    decreases i - lo
  {
    if lo < i {
      if lo !in w {
        EliminationKeepsLeft(rows, i, th, w, lo + 1, lo);
        if j > lo {
          EliminationRecombines(rows, i, th, w, lo + 1, wf, j);
        }
        RecombinesStep(rows, w, w, wf, lo, i, j);
      } else {
        var rowK := rows[lo];
        var w2 := EliminationStep(rowK, lo, th, w);
        EliminationKeepsLeft(rows, i, th, w2, lo + 1, lo);
        if j > lo {
          EliminationRecombines(rows, i, th, w2, lo + 1, wf, j);
        }
        EliminatedColumnRecombines(rows, th, w, lo, i, wf, j);
      }
    }
  }

  lemma ConsListsKeys(t: seq<nat>, w: Row, lo: nat, hi: nat)
    requires lo in w && lo < hi && ListsKeys(t, w, lo + 1, hi)
    ensures ListsKeys([lo] + t, w, lo, hi)
  {
    var t' := [lo] + t;
    forall a | 0 <= a < |t'| ensures t'[a] in w && lo <= t'[a] < hi {
      if a > 0 {
        assert t'[a] == t[a - 1];
      }
    }
    forall x | x in w && lo <= x < hi ensures x in t' {
      if x > lo {
        assert x in t;
      }
    }
  }

  /** An entry of the ranking map: the column and the value of a kept entry. */
  datatype Entry = Entry(col: nat, value: real)

  /** `temp_map`, keyed by (perturbed) magnitude. */
  type SortMap = map<real, Entry>

  /**
   * The key under which an entry of magnitude `t` is ranked: `t` multiplied by
   * 1.000001 until it is no key of the map. It is new and at least `t`.
   */
  function Perturb(keys: set<real>, t: real): (r: real)
    requires t > 0.0
    ensures r >= t && r !in keys
    decreases set x | x in keys && x >= t
  {
    if t !in keys then t
    else
      var t' := t * 1.000001;
      var above, above' := set x | x in keys && x >= t, set x | x in keys && x >= t';
      assert t' > t;
      assert above' <= above;
      assert t in above && t !in above';
      Perturb(keys, t')
  }

  /** The columns of `w` that enter the ranking: above the threshold, or the diagonal. */
  function RankedCols(w: Row, i: nat, th: Threshold): set<nat> {
    set k | k in w && (th.Exceeded(w[k]) || k == i)
  }

  /** A ranked entry of magnitude zero, which aborts the factorisation. */
  predicate HasZeroRanked(w: Row, i: nat, th: Threshold) {
    exists k :: k in RankedCols(w, i, th) && w[k] == 0.0
  }

  /** The ranking phase: `w` in ascending column order, every ranked entry added under a fresh key. */
  function Rank(w: Row, i: nat, th: Threshold, tm: SortMap): (r: Result<SortMap, IlutError>)
    ensures r.Failure? ==> r.error == SingularFactor(i)
    decreases w.Keys
  {
    if w == map[] then Success(tm)
    else
      var k := MinKey(w.Keys);
      var rest := w - {k};
      if th.Exceeded(w[k]) || k == i then
        var t := Abs(w[k]);
        if t == 0.0 then Failure(SingularFactor(i))
        else Rank(rest, i, th, tm[Perturb(tm.Keys, t) := Entry(k, w[k])])
      else Rank(rest, i, th, tm)
  }

  predicate ColsDistinct(tm: SortMap) {
    forall s, t :: s in tm && t in tm && s != t ==> tm[s].col != tm[t].col
  }

  function Cols(tm: SortMap): set<nat> {
    set t | t in tm :: tm[t].col
  }

  /**
   * Ranking aborts exactly when a ranked entry is zero. Otherwise every ranked
   * column is added exactly once, with its value and under a key at least its
   * magnitude, and nothing already in the map is overwritten.
   */
  lemma {:induction false} RankSpec(w: Row, i: nat, th: Threshold, tm: SortMap)
    requires ColsDistinct(tm)
    requires forall t :: t in tm ==> tm[t].col !in w
    ensures Rank(w, i, th, tm).Failure? <==> HasZeroRanked(w, i, th)
    ensures Rank(w, i, th, tm).Failure? ==> Rank(w, i, th, tm).error == SingularFactor(i)
    ensures var r := Rank(w, i, th, tm);
      r.Success? ==>
        && tm.Keys <= r.value.Keys
        && (forall t :: t in tm ==> r.value[t] == tm[t])
        && ColsDistinct(r.value)
        && Cols(r.value) == Cols(tm) + RankedCols(w, i, th)
        && (forall t :: t in r.value && t !in tm ==>
              && r.value[t].col in w
              && r.value[t].value == w[r.value[t].col]
              && t >= Abs(r.value[t].value)
              && t > 0.0)
    decreases w.Keys
  {
    if w != map[] {
      var k := MinKey(w.Keys);
      var rest := w - {k};
      var ranked := th.Exceeded(w[k]) || k == i;
      RankUnfolds(w, i, th, tm);
      RankedColsSplit(w, i, th);
      ZeroRankedSplit(w, i, th);
      if ranked {
        var a := Abs(w[k]);
        if a != 0.0 {
          var key := Perturb(tm.Keys, a);
          var tm' := tm[key := Entry(k, w[k])];
          ColsInsert(tm, key, Entry(k, w[k]));
          RankSpec(rest, i, th, tm');
        }
      } else {
        RankSpec(rest, i, th, tm);
      }
    }
  }

  /** One step of the ranking. */
  lemma RankUnfolds(w: Row, i: nat, th: Threshold, tm: SortMap)
    requires w != map[]
    ensures var k := MinKey(w.Keys);
      var rest := w - {k};
      Rank(w, i, th, tm) ==
        if th.Exceeded(w[k]) || k == i then
          if Abs(w[k]) == 0.0 then Failure(SingularFactor(i))
          else Rank(rest, i, th, tm[Perturb(tm.Keys, Abs(w[k])) := Entry(k, w[k])])
        else Rank(rest, i, th, tm)
  {
  }

  /** The ranked columns of `w` are those of `w` without its least key, and that key when it is ranked. */
  lemma RankedColsSplit(w: Row, i: nat, th: Threshold)
    requires w != map[]
    ensures var k := MinKey(w.Keys);
      RankedCols(w, i, th) ==
        RankedCols(w - {k}, i, th) + (if th.Exceeded(w[k]) || k == i then {k} else {})
  {
  }

  /** A zero is ranked in `w` exactly when it is the least key or is ranked in the rest. */
  lemma ZeroRankedSplit(w: Row, i: nat, th: Threshold)
    requires w != map[]
    ensures var k := MinKey(w.Keys);
      HasZeroRanked(w, i, th) <==>
        ((th.Exceeded(w[k]) || k == i) && w[k] == 0.0) || HasZeroRanked(w - {k}, i, th)
  {
    var k := MinKey(w.Keys);
    RankedColsSplit(w, i, th);
    if HasZeroRanked(w, i, th) {
      var z :| z in RankedCols(w, i, th) && w[z] == 0.0;
      if z != k {
        assert z in RankedCols(w - {k}, i, th);
      }
    }
    if HasZeroRanked(w - {k}, i, th) {
      var z :| z in RankedCols(w - {k}, i, th) && (w - {k})[z] == 0.0;
      assert z in RankedCols(w, i, th);
    }
    if (th.Exceeded(w[k]) || k == i) && w[k] == 0.0 {
      assert k in RankedCols(w, i, th);
    }
  }

  /** A new key adds its column to the columns of the map. */
  lemma ColsInsert(tm: SortMap, key: real, e: Entry)
    requires key !in tm
    ensures Cols(tm[key := e]) == Cols(tm) + {e.col}
  {
    var tm' := tm[key := e];
    forall c | c in Cols(tm') ensures c in Cols(tm) + {e.col} {
      var s :| s in tm' && tm'[s].col == c;
      if s != key { assert tm[s].col == c; }
    }
    forall c | c in Cols(tm) ensures c in Cols(tm') {
      var s :| s in tm && tm[s].col == c;
      assert tm'[s].col == c;
    }
    assert tm'[key].col == e.col;
  }
}
