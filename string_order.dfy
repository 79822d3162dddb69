/**
 * The order of `std::string` keys in a `std::map`: characters are compared
 * one by one, and a proper prefix comes first.
 */
module StringOrder {

  predicate Less(a: string, b: string)
    decreases |a|
  {
    if |a| == 0 then |b| > 0
    else if |b| == 0 then false
    else if a[0] != b[0] then a[0] < b[0]
    else Less(a[1..], b[1..])
  }

  lemma {:induction false} LessIrreflexive(a: string)
    ensures !Less(a, a)
    decreases |a|
  {
    if |a| > 0 { LessIrreflexive(a[1..]); }
  }

  lemma {:induction false} LessAsymmetric(a: string, b: string)
    requires Less(a, b)
    ensures !Less(b, a)
    decreases |a|
  {
    if |a| > 0 && |b| > 0 && a[0] == b[0] { LessAsymmetric(a[1..], b[1..]); }
  }

  lemma {:induction false} LessTransitive(a: string, b: string, c: string)
    requires Less(a, b) && Less(b, c)
    ensures Less(a, c)
    decreases |a|
  {
    if |a| > 0 && a[0] == b[0] && b[0] == c[0] { LessTransitive(a[1..], b[1..], c[1..]); }
  }

  lemma {:induction false} LessTotal(a: string, b: string)
    requires a != b
    ensures Less(a, b) || Less(b, a)
    decreases |a|
  {
    if |a| > 0 && |b| > 0 && a[0] == b[0] {
      assert a == [a[0]] + a[1..] && b == [b[0]] + b[1..];
      LessTotal(a[1..], b[1..]);
    }
  }

  lemma {:induction false} LeastExists(s: set<string>)
    requires s != {}
    ensures exists n :: n in s && forall m :: m in s && m != n ==> Less(n, m)
  {
    var x :| x in s;
    if s == {x} {
    } else {
      LeastExists(s - {x});
      var n :| n in s - {x} && forall m :: m in s - {x} && m != n ==> Less(n, m);
      LessTotal(x, n);
      if Less(x, n) {
        forall m | m in s && m != x ensures Less(x, m) {
          if m != n { LessTransitive(x, n, m); }
        }
      } else {
        assert forall m :: m in s && m != n ==> Less(n, m);
      }
    }
  }

  /** The first name of a non-empty set in `std::map` order. */
  function Least(s: set<string>): (n: string)
    requires s != {}
    ensures n in s
    ensures forall m :: m in s && m != n ==> Less(n, m)
  {
    LeastExists(s);
    forall a, b | Less(a, b) ensures !Less(b, a) { LessAsymmetric(a, b); }
    var n :| n in s && forall m :: m in s && m != n ==> Less(n, m);
    n
  }

  /** No name of the set comes before its first one. */
  lemma NothingBeforeLeast(s: set<string>)
    requires s != {}
    ensures forall x :: x in s ==> !Less(x, Least(s))
  {
    var n := Least(s);
    forall x | x in s ensures !Less(x, n) {
      if x == n {
        LessIrreflexive(x);
      } else {
        LessAsymmetric(n, x);
      }
    }
  }
}
