/**
 * Ordered iteration over the keys of a map. A C++ `std::map` is walked in
 * ascending key order by its iterator and in descending order by its reverse
 * iterator; in this model each step takes the least (or the greatest) key of
 * what remains.
 */
module SparseKeys {

  /** A least element, found by descending from any element to a smaller one. */
  lemma {:induction false} LeastBelow(s: set<nat>, x: nat) returns (k: nat)
    requires x in s
    ensures k in s && forall j :: j in s ==> k <= j
    decreases x
  {
    if y :| y in s && y < x {
      k := LeastBelow(s, y);
    } else {
      k := x;
    }
  }

  lemma LeastExists(s: set<nat>)
    requires s != {}
    ensures exists k :: k in s && forall j :: j in s ==> k <= j
  {
    var x :| x in s;
    var k := LeastBelow(s, x);
  }

  /** The least key of a non-empty set of column indices. */
  function MinKey(s: set<nat>): (k: nat)
    requires s != {}
    ensures k in s
    ensures forall j :: j in s ==> k <= j
  {
    LeastExists(s);
    var k :| k in s && forall j :: j in s ==> k <= j;
    k
  }

  /**
   * The next key of an ascending walk: the least of the keys still pending,
   * computed by counting up from zero.
   */
  method LeastKey(s: set<nat>) returns (k: nat)
    requires s != {}
    ensures k in s
    ensures forall j :: j in s ==> k <= j
  {
    ghost var x :| x in s;
    k := 0;
    while k !in s
      invariant k <= x
      invariant forall j :: j in s ==> k <= j
      decreases x - k
    {
      k := k + 1;
    }
  }

  lemma PickReal(s: set<real>) returns (y: real)
    requires s != {}
    ensures y in s
  {
    if forall x :: x !in s {
      assert false;
    }
    y :| y in s;
  }

  /** A greatest element: the greater of any element and the greatest of the others. */
  lemma {:induction false} Greatest(s: set<real>) returns (t: real)
    requires s != {}
    ensures t in s && forall x :: x in s ==> x <= t
    decreases s
  {
    var y := PickReal(s);
    var rest := s - {y};
    if rest == {} {
      t := y;
      forall x | x in s ensures x <= t {
        assert x !in rest;
      }
    } else {
      var u := Greatest(rest);
      t := if y <= u then u else y;
      forall x | x in s ensures x <= t {
        if x != y {
          assert x in rest;
        }
      }
    }
  }

  lemma GreatestExists(s: set<real>)
    requires s != {}
    ensures exists t :: t in s && forall x :: x in s ==> x <= t
  {
    var t := Greatest(s);
  }

  /** The greatest key of a non-empty set of reals. */
  function MaxKey(s: set<real>): (t: real)
    requires s != {}
    ensures t in s
    ensures forall x :: x in s ==> x <= t
  {
    GreatestExists(s);
    var t :| t in s && forall x :: x in s ==> x <= t;
    t
  }
}
