/**
 * The selection phase of one ILUT row: the ranked entries are walked from the
 * largest key down and written into the output row, at most `entriesPerRow`
 * of them left of the diagonal, at most `entriesPerRow` right of it, and the
 * diagonal always.
 */
module IlutSelect {
  import opened SparseKeys
  import opened RowAccess
  import opened IlutSpec

  /** Left of the diagonal (`lower`) or right of it. */
  predicate OnSide(c: nat, i: nat, lower: bool) {
    if lower then c < i else c > i
  }

  /**
   * The reverse walk over the ranking map, starting from the row `row` with
   * `writtenL` and `writtenU` entries already written on either side.
   */
  function Select(tm: SortMap, i: nat, epr: nat, row: Row, writtenL: nat, writtenU: nat): Row
    decreases tm.Keys
  {
    if tm.Keys == {} then row
    else
      var t := MaxKey(tm.Keys);
      var e := tm[t];
      var rest := tm - {t};
      if e.col < i then
        if writtenL < epr then Select(rest, i, epr, row[e.col := e.value], writtenL + 1, writtenU)
        else Select(rest, i, epr, row, writtenL, writtenU)
      else if e.col == i then Select(rest, i, epr, row[e.col := e.value], writtenL, writtenU)
      else if writtenU < epr then Select(rest, i, epr, row[e.col := e.value], writtenL, writtenU + 1)
      else Select(rest, i, epr, row, writtenL, writtenU)
  }

  /** The entries the walk writes, whatever the row held before. */
  function Written(tm: SortMap, i: nat, epr: nat, writtenL: nat, writtenU: nat): Row {
    Select(tm, i, epr, map[], writtenL, writtenU)
  }

  /** The ranked entries on one side of the diagonal with a larger key than `t`. */
  function Larger(tm: SortMap, i: nat, t: real, lower: bool): set<real> {
    set s | s in tm && s > t && OnSide(tm[s].col, i, lower)
  }

  /** The columns of `row` on one side of the diagonal. */
  function Side(row: Row, i: nat, lower: bool): set<nat> {
    set c | c in row && OnSide(c, i, lower)
  }

  /** Writing into an existing row only overwrites the written columns. */
  lemma {:induction false} SelectMerges(tm: SortMap, i: nat, epr: nat, row: Row, writtenL: nat, writtenU: nat)
    ensures Select(tm, i, epr, row, writtenL, writtenU) == row + Written(tm, i, epr, writtenL, writtenU)
    decreases tm.Keys
  {
    if tm.Keys != {} {
      var t := MaxKey(tm.Keys);
      var e := tm[t];
      var rest := tm - {t};
      var c, v := e.col, e.value;
      var writes := c == i || (c < i && writtenL < epr) || (c > i && writtenU < epr);
      var wL := if c < i && writtenL < epr then writtenL + 1 else writtenL;
      var wU := if c > i && writtenU < epr then writtenU + 1 else writtenU;
      if writes {
        SelectMerges(rest, i, epr, row[c := v], wL, wU);
        SelectMerges(rest, i, epr, map[c := v], wL, wU);
        var x := Written(rest, i, epr, wL, wU);
        assert row[c := v] + x == row + (map[c := v] + x);
      } else {
        SelectMerges(rest, i, epr, row, wL, wU);
        SelectMerges(rest, i, epr, map[], wL, wU);
      }
    }
  }

  /** The walk over the ranking map minus its greatest key, as one step. */
  lemma WrittenStep(tm: SortMap, i: nat, epr: nat, writtenL: nat, writtenU: nat)
    requires tm.Keys != {}
    ensures var t := MaxKey(tm.Keys);
      var c, v := tm[t].col, tm[t].value;
      var wL := if c < i && writtenL < epr then writtenL + 1 else writtenL;
      var wU := if c > i && writtenU < epr then writtenU + 1 else writtenU;
      var x := Written(tm - {t}, i, epr, wL, wU);
      Written(tm, i, epr, writtenL, writtenU) ==
        if c == i || (c < i && writtenL < epr) || (c > i && writtenU < epr) then map[c := v] + x else x
  {
    var t := MaxKey(tm.Keys);
    var c, v := tm[t].col, tm[t].value;
    var wL := if c < i && writtenL < epr then writtenL + 1 else writtenL;
    var wU := if c > i && writtenU < epr then writtenU + 1 else writtenU;
    if c == i || (c < i && writtenL < epr) || (c > i && writtenU < epr) {
      SelectMerges(tm - {t}, i, epr, map[c := v], wL, wU);
    }
  }

  /**
   * Only ranked columns are written, each with its ranked value; the diagonal
   * is written whenever it is ranked.
   */
  lemma {:induction false} WrittenFromRanking(tm: SortMap, i: nat, epr: nat, writtenL: nat, writtenU: nat)
    requires ColsDistinct(tm)
    ensures var w := Written(tm, i, epr, writtenL, writtenU);
      && w.Keys <= Cols(tm)
      && (forall t :: t in tm && tm[t].col in w ==> w[tm[t].col] == tm[t].value)
      && (i in w <==> i in Cols(tm))
    decreases tm.Keys
  {
    if tm.Keys != {} {
      var t := MaxKey(tm.Keys);
      var c, v := tm[t].col, tm[t].value;
      var rest := tm - {t};
      var wL := if c < i && writtenL < epr then writtenL + 1 else writtenL;
      var wU := if c > i && writtenU < epr then writtenU + 1 else writtenU;
      WrittenStep(tm, i, epr, writtenL, writtenU);
      WrittenFromRanking(rest, i, epr, wL, wU);
      var x := Written(rest, i, epr, wL, wU);
      var w := Written(tm, i, epr, writtenL, writtenU);
      assert Cols(tm) == Cols(rest) + {c} by {
        forall d | d in Cols(tm) ensures d in Cols(rest) + {c} {
          var s :| s in tm && tm[s].col == d;
          if s != t { assert s in rest; }
        }
        forall d | d in Cols(rest) ensures d in Cols(tm) {
          var s :| s in rest && rest[s].col == d;
          assert tm[s].col == d;
        }
      }
      assert c !in Cols(rest);
      forall s | s in tm && tm[s].col in w ensures w[tm[s].col] == tm[s].value {
        if s != t {
          assert s in rest && rest[s] == tm[s];
          assert tm[s].col != c;
        }
      }
    }
  }

  /** Where the budgets start, at most what is left of them is written on either side. */
  lemma {:induction false} WrittenWithinBudget(tm: SortMap, i: nat, epr: nat, writtenL: nat, writtenU: nat)
    requires writtenL <= epr && writtenU <= epr
    ensures |Side(Written(tm, i, epr, writtenL, writtenU), i, true)| <= epr - writtenL
    ensures |Side(Written(tm, i, epr, writtenL, writtenU), i, false)| <= epr - writtenU
    decreases tm.Keys
  {
    if tm.Keys != {} {
      var t := MaxKey(tm.Keys);
      var c, v := tm[t].col, tm[t].value;
      var rest := tm - {t};
      var wL := if c < i && writtenL < epr then writtenL + 1 else writtenL;
      var wU := if c > i && writtenU < epr then writtenU + 1 else writtenU;
      WrittenStep(tm, i, epr, writtenL, writtenU);
      WrittenWithinBudget(rest, i, epr, wL, wU);
      var x := Written(rest, i, epr, wL, wU);
      var w := Written(tm, i, epr, writtenL, writtenU);
      if c == i || (c < i && writtenL < epr) || (c > i && writtenU < epr) {
        SideInsert(x, i, c, v, true);
        SideInsert(x, i, c, v, false);
      }
    }
  }

  lemma SideInsert(x: Row, i: nat, c: nat, v: real, lower: bool)
    ensures Side(map[c := v] + x, i, lower) ==
      Side(x, i, lower) + (if OnSide(c, i, lower) then {c} else {})
    ensures |Side(map[c := v] + x, i, lower)| <= |Side(x, i, lower)| + (if OnSide(c, i, lower) then 1 else 0)
  {
    var a, b := Side(map[c := v] + x, i, lower), Side(x, i, lower);
    var extra: set<nat> := if OnSide(c, i, lower) then {c} else {};
    forall d | d in a ensures d in b + extra {
      if d != c { assert d in x; }
    }
    forall d | d in b + extra ensures d in a {
    }
    assert a == b + extra;
  }

  /** The column of the greatest key is no column of the rest of the map. */
  lemma TopColumnUnique(tm: SortMap, top: real)
    requires ColsDistinct(tm) && top in tm
    ensures ColsDistinct(tm - {top})
    ensures tm[top].col !in Cols(tm - {top})
  {
  }

  lemma LargerStep(tm: SortMap, i: nat, t: real, lower: bool)
    requires tm.Keys != {} && t in tm && t != MaxKey(tm.Keys)
    ensures var top := MaxKey(tm.Keys);
      |Larger(tm, i, t, lower)| ==
        |Larger(tm - {top}, i, t, lower)| + (if OnSide(tm[top].col, i, lower) then 1 else 0)
  {
    var top := MaxKey(tm.Keys);
    var rest := tm - {top};
    var a, b := Larger(tm, i, t, lower), Larger(rest, i, t, lower);
    var extra: set<real> := if OnSide(tm[top].col, i, lower) then {top} else {};
    assert top > t;
    forall s | s in a ensures s in b + extra {
      if s != top { assert s in rest; }
    }
    forall s | s in b + extra ensures s in a {
      if s != top { assert rest[s] == tm[s]; }
    }
    assert a == b + extra;
    assert top !in b;
  }

  lemma {:induction false} SubsetNoLarger(a: set<real>, b: set<real>)
    requires a <= b
    ensures |a| <= |b|
    decreases |a|
  {
    if a != {} {
      var x := PickReal(a);
      SubsetNoLarger(a - {x}, b - {x});
    }
  }

  /** Fewer entries rank above `t` than the map holds, `t` itself not being one of them. */
  lemma LargerBelowSize(tm: SortMap, i: nat, t: real, lower: bool)
    requires t in tm
    ensures |Larger(tm, i, t, lower)| < |tm|
  {
    SubsetNoLarger(Larger(tm, i, t, lower), tm.Keys - {t});
  }

  /**
   * The walk keeps the largest entries: an entry on one side of the diagonal is
   * written exactly when fewer entries of that side with a larger key than its
   * own exhaust what is left of that side's budget.
   */
  lemma {:induction false} WrittenAreLargest(tm: SortMap, i: nat, epr: nat, writtenL: nat, writtenU: nat, t: real, lower: bool)
    requires ColsDistinct(tm)
    requires t in tm && OnSide(tm[t].col, i, lower)
    ensures tm[t].col in Written(tm, i, epr, writtenL, writtenU) <==>
      (if lower then writtenL else writtenU) + |Larger(tm, i, t, lower)| < epr
    decreases tm.Keys
  {
    var top := MaxKey(tm.Keys);
    var c := tm[top].col;
    var rest := tm - {top};
    var wL := if c < i && writtenL < epr then writtenL + 1 else writtenL;
    var wU := if c > i && writtenU < epr then writtenU + 1 else writtenU;
    WrittenStep(tm, i, epr, writtenL, writtenU);
    TopColumnUnique(tm, top);
    if t == top {
      assert Larger(tm, i, t, lower) == {};
      WrittenFromRanking(rest, i, epr, wL, wU);
    } else {
      WrittenAreLargest(rest, i, epr, wL, wU, t, lower);
      LargerStep(tm, i, t, lower);
      assert tm[t].col != c;
    }
  }
}
