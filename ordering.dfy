/** The iteration order of the ordered containers the search server uses: a set of
    strings is visited in ascending lexicographic order, a map with integer keys in
    ascending key order.

    Strings compare character by character by code point; a proper prefix comes
    first.
 */
module Ordering {

  /** Lexicographic "strictly less than" on strings. */
  predicate Less(a: string, b: string)
    decreases |a|
  {
    if a == [] then b != []
    else b != [] && (a[0] < b[0] || (a[0] == b[0] && Less(a[1..], b[1..])))
  }

  /** The elements of `r` are in strictly ascending lexicographic order. */
  predicate Ascending(r: seq<string>) {
    forall i, j :: 0 <= i < j < |r| ==> Less(r[i], r[j])
  }

  lemma {:induction false} LessIrreflexive(a: string)
    ensures !Less(a, a)
    decreases |a|
  {
    if a != [] {
      LessIrreflexive(a[1..]);
    }
  }

  lemma {:induction false} LessTransitive(a: string, b: string, c: string)
    requires Less(a, b) && Less(b, c)
    ensures Less(a, c)
    decreases |a|
  {
    if a != [] && a[0] == b[0] && b[0] == c[0] {
      LessTransitive(a[1..], b[1..], c[1..]);
    }
  }

  /** Any two distinct strings are ordered one way or the other. */
  lemma {:induction false} LessTotal(a: string, b: string)
    ensures a == b || Less(a, b) || Less(b, a)
    decreases |a|
  {
    if a != [] && b != [] && a[0] == b[0] {
      LessTotal(a[1..], b[1..]);
      if a[1..] == b[1..] {
        assert a == [a[0]] + a[1..];
        assert b == [b[0]] + b[1..];
      }
    }
  }

  /** Every non-empty finite set of strings has a least element. */
  lemma {:induction false} LeastExists(s: set<string>)
    requires s != {}
    ensures exists m :: m in s && forall x :: x in s && x != m ==> Less(m, x)
    decreases |s|
  {
    var y :| y in s;
    var rest := s - {y};
    if rest == {} {
      assert forall x :: x in s && x != y ==> x in rest;
    } else {
      LeastExists(rest);
      var m :| m in rest && forall x :: x in rest && x != m ==> Less(m, x);
      LeastOfInsert(rest, m, y);
      var k := if Less(y, m) then y else m;
      assert rest + {y} == s;
      assert k in s && forall x :: x in s && x != k ==> Less(k, x);
    }
  }

  /** Adding `y` to a set with least element `m` gives a set whose least element is
      the smaller of the two. */
  lemma LeastOfInsert(s: set<string>, m: string, y: string)
    requires m in s && forall x :: x in s && x != m ==> Less(m, x)
    ensures var k := if Less(y, m) then y else m;
      k in s + {y} && forall x :: x in s + {y} && x != k ==> Less(k, x)
  {
    LessTotal(y, m);
    if Less(y, m) {
      forall x | x in s + {y} && x != y ensures Less(y, x) {
        if x != m {
          LessTransitive(y, m, x);
        }
      }
    }
  }

  /** The elements of a set of strings in ascending order, as `std::set<std::string>`
      hands them out: the least remaining element is taken each time. */
  method InOrder(s: set<string>) returns (r: seq<string>)
    ensures Ascending(r)
    ensures forall w :: w in r <==> w in s
  {
    r := [];
    var rest := s;
    while rest != {}
      invariant rest <= s
      invariant forall w :: w in r <==> w in s && w !in rest
      invariant Ascending(r)
      invariant forall i, x :: 0 <= i < |r| && x in rest ==> Less(r[i], x)
      decreases rest
    {
      LeastExists(rest);
      var m :| m in rest && forall x :: x in rest && x != m ==> Less(m, x);
      r := r + [m];
      rest := rest - {m};
    }
  }

  /** A non-empty set of integers has an element (stated once, for the choices below). */
  lemma IntElementExists(s: set<int>)
    requires s != {}
    ensures exists x :: x in s
  {
    if forall x :: x !in s {
      assert false;
    }
  }

  /** Every non-empty finite set of integers has a least element. */
  lemma {:induction false} IntLeastExists(s: set<int>)
    requires s != {}
    ensures exists m :: m in s && forall x :: x in s ==> m <= x
    decreases |s|
  {
    IntElementExists(s);
    var y :| y in s;
    var rest := s - {y};
    if rest == {} {
      assert s == {y};
    } else {
      IntLeastExists(rest);
      var m :| m in rest && forall x :: x in rest ==> m <= x;
      var k := if y < m then y else m;
      forall x | x in s ensures k <= x {
        if x != y { assert x in rest; }
      }
      assert k in s;
    }
  }
}
