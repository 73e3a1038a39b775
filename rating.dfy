/** Rating arithmetic of the search server: the average of a document's ratings,
    with C++ integer division, which truncates toward zero (Dafny's own `/` on `int`
    is Euclidean and rounds negative quotients the other way).
 */
module Rating {

  function Abs(x: int): nat {
    if x < 0 then -x else x
  }

  /** C++ `a / b` on `int`: the quotient rounded toward zero. The remainder
      `a - q * b` is smaller than the divisor in magnitude and, unless it is zero,
      has the sign of the dividend. These two facts determine `q`. */
  function TruncDiv(a: int, b: int): (q: int)
    requires b != 0
    ensures Abs(a - q * b) < Abs(b)
    ensures a - q * b == 0 || (a - q * b < 0 <==> a < 0)
  {
    var u := Abs(a) / Abs(b);
    TruncatedRemainder(a, b, u);
    if (a < 0) == (b < 0) then u else -u
  }

  /** The quotient of the magnitudes, given the sign of the operands, leaves a
      remainder with the dividend's sign and less than the divisor in magnitude. */
  lemma TruncatedRemainder(a: int, b: int, u: int)
    requires b != 0 && u == Abs(a) / Abs(b)
    ensures var q := if (a < 0) == (b < 0) then u else -u;
      Abs(a - q * b) < Abs(b) && (a - q * b == 0 || (a - q * b < 0 <==> a < 0))
  {
    var n, d := Abs(a), Abs(b);
    var r: int := n % d;
    assert n == u * d + r && 0 <= r < d;
    if a < 0 && b < 0 {
      assert a - u * b == -r;
    } else if a < 0 {
      assert a - (-u) * b == -r;
    } else if b < 0 {
      assert a - (-u) * b == r;
    } else {
      assert a - u * b == r;
    }
  }

  lemma {:induction false} MulNonNegative(x: nat, n: nat)
    ensures x * n >= 0
  {
    if x > 0 {
      MulNonNegative(x - 1, n);
      assert x * n == (x - 1) * n + n;
    }
  }

  /** Multiplying by a non-negative factor preserves `<=`. */
  lemma MulMonotonic(x: int, y: int, n: nat)
    requires x <= y
    ensures x * n <= y * n
  {
    MulNonNegative(y - x, n);
    assert y * n - x * n == (y - x) * n;
  }

  /** A non-zero multiple of `b` is at least as large as `b` in magnitude. */
  lemma MultipleAtLeast(k: int, b: int)
    requires k != 0
    ensures Abs(k * b) >= Abs(b)
  {
    var m := Abs(k);
    MulMonotonic(1, m, Abs(b));
    assert Abs(k * b) == m * Abs(b) by {
      if k < 0 && b < 0 { assert k * b == (-k) * (-b); }
      else if k < 0 { assert k * b == -((-k) * b); }
      else if b < 0 { assert k * b == -(k * (-b)); }
    }
  }

  /** The quotient is unique: any `q` with the two remainder properties is `TruncDiv(a, b)`. */
  lemma TruncDivUnique(a: int, b: int, q: int)
    requires b != 0
    requires Abs(a - q * b) < Abs(b)
    requires a - q * b == 0 || (a - q * b < 0 <==> a < 0)
    ensures q == TruncDiv(a, b)
  {
    var p := TruncDiv(a, b);
    var r, s := a - q * b, a - p * b;
    SameSignRemainders(a, r, s, Abs(b));
    if q != p {
      RemainderDifference(a, b, q, p);
      MultipleAtLeast(q - p, b);
    }
  }

  lemma RemainderDifference(a: int, b: int, q: int, p: int)
    ensures (a - p * b) - (a - q * b) == (q - p) * b
  {
  }

  /** Two remainders with the dividend's sign, both below `m` in magnitude, differ
      by less than `m`. */
  lemma SameSignRemainders(a: int, r: int, s: int, m: nat)
    requires Abs(r) < m && Abs(s) < m
    requires r == 0 || (r < 0 <==> a < 0)
    requires s == 0 || (s < 0 <==> a < 0)
    ensures Abs(s - r) < m
  {
  }

  /** Truncation differs from Dafny's Euclidean division on negative dividends. */
  lemma TruncDivOfNegative()
    ensures TruncDiv(-3, 2) == -1 && -3 / 2 == -2
    ensures TruncDiv(-7, 7) == -1
    ensures TruncDiv(3, 2) == 1
  {
  }

  function Sum(s: seq<int>): int {
    if s == [] then 0 else Sum(s[..|s| - 1]) + s[|s| - 1]
  }

  lemma SumSnoc(s: seq<int>, x: int)
    ensures Sum(s + [x]) == Sum(s) + x
  {
    assert (s + [x])[..|s|] == s;
  }

  /** The rating stored for a document: 0 without ratings, otherwise the sum of
      the ratings divided by their count, truncated toward zero. */
  function AverageRating(ratings: seq<int>): (avg: int)
    ensures |ratings| == 0 ==> avg == 0
    ensures var n := |ratings|; var rem := Sum(ratings) - avg * n;
      n > 0 ==> Abs(rem) < n && (rem == 0 || (rem < 0 <==> Sum(ratings) < 0))
  {
    if |ratings| == 0 then 0 else TruncDiv(Sum(ratings), |ratings|)
  }

  /** A sum of `n` values between `lo` and `hi` lies between `lo * n` and `hi * n`. */
  lemma {:induction false} SumBounds(s: seq<int>, lo: int, hi: int)
    requires forall i :: 0 <= i < |s| ==> lo <= s[i] <= hi
    ensures lo * |s| <= Sum(s) <= hi * |s|
  {
    if s != [] {
      var init := s[..|s| - 1];
      SumBounds(init, lo, hi);
      assert lo * |s| == lo * |init| + lo;
      assert hi * |s| == hi * |init| + hi;
    }
  }

  /** One step below `lo` costs a whole `n`. */
  lemma BelowByOne(q: int, lo: int, n: nat)
    requires q < lo
    ensures q * n + n <= lo * n
  {
    MulMonotonic(q, lo - 1, n);
    assert (lo - 1) * n + n == lo * n;
  }

  /** A truncated quotient of a value between `lo * n` and `hi * n` lies between
      `lo` and `hi`. */
  lemma QuotientWithinRange(a: int, n: nat, q: int, lo: int, hi: int)
    requires n > 0
    requires lo * n <= a <= hi * n
    requires Abs(a - q * n) < n
    ensures lo <= q <= hi
  {
    if q < lo {
      BelowByOne(q, lo, n);
    }
    if q > hi {
      BelowByOne(hi, q, n);
    }
  }

  /** The average of ratings between `lo` and `hi` is again between `lo` and `hi`:
      truncation toward zero never leaves the range of the ratings. */
  lemma AverageRatingWithinRange(ratings: seq<int>, lo: int, hi: int)
    requires |ratings| > 0
    requires forall i :: 0 <= i < |ratings| ==> lo <= ratings[i] <= hi
    ensures lo <= AverageRating(ratings) <= hi
  {
    SumBounds(ratings, lo, hi);
    QuotientWithinRange(Sum(ratings), |ratings|, TruncDiv(Sum(ratings), |ratings|), lo, hi);
  }

  /** The ratings of the implementation's own rating tests. */
  lemma AverageRatingExamples()
    ensures AverageRating([]) == 0
    ensures AverageRating([1, 2]) == 1
    ensures AverageRating([-1, -2]) == -1
    ensures AverageRating([1, 2, 3]) == 2
    ensures AverageRating([1, 10, 28, 60, 11, 11, 12321]) == 1777
    ensures AverageRating([545, 136, 548, 508, 797, 21005, 245]) == 3397
  {
    SumOfShortRatings();
    SumOfFirstTestRatings();
    SumOfSecondTestRatings();
    assert TruncDiv(12442, 7) == 1777;
    assert TruncDiv(23784, 7) == 3397;
  }

  lemma SumOfShortRatings()
    ensures Sum([1, 2]) == 3 && Sum([-1, -2]) == -3 && Sum([1, 2, 3]) == 6
  {
    SumSnoc([], 1);
    assert Sum([1]) == 1;
    SumSnoc([1], 2);
    assert Sum([1, 2]) == 3;
    SumSnoc([1, 2], 3);
    assert [1, 2] + [3] == [1, 2, 3];
    SumSnoc([], -1);
    assert Sum([-1]) == -1;
    SumSnoc([-1], -2);
  }

  lemma SumOfFirstTestRatings()
    ensures Sum([1, 10, 28, 60, 11, 11, 12321]) == 12442
  {
    SumSnoc([], 1);
    SumSnoc([1], 10);
    SumSnoc([1, 10], 28);
    assert [1, 10] + [28] == [1, 10, 28];
    SumSnoc([1, 10, 28], 60);
    assert [1, 10, 28] + [60] == [1, 10, 28, 60];
    SumSnoc([1, 10, 28, 60], 11);
    assert [1, 10, 28, 60] + [11] == [1, 10, 28, 60, 11];
    SumSnoc([1, 10, 28, 60, 11], 11);
    assert [1, 10, 28, 60, 11] + [11] == [1, 10, 28, 60, 11, 11];
    SumSnoc([1, 10, 28, 60, 11, 11], 12321);
    assert [1, 10, 28, 60, 11, 11] + [12321] == [1, 10, 28, 60, 11, 11, 12321];
  }

  lemma SumOfSecondTestRatings()
    ensures Sum([545, 136, 548, 508, 797, 21005, 245]) == 23784
  {
    SumSnoc([], 545);
    SumSnoc([545], 136);
    SumSnoc([545, 136], 548);
    assert [545, 136] + [548] == [545, 136, 548];
    SumSnoc([545, 136, 548], 508);
    assert [545, 136, 548] + [508] == [545, 136, 548, 508];
    SumSnoc([545, 136, 548, 508], 797);
    assert [545, 136, 548, 508] + [797] == [545, 136, 548, 508, 797];
    SumSnoc([545, 136, 548, 508, 797], 21005);
    assert [545, 136, 548, 508, 797] + [21005] == [545, 136, 548, 508, 797, 21005];
    SumSnoc([545, 136, 548, 508, 797, 21005], 245);
    assert [545, 136, 548, 508, 797, 21005] + [245] == [545, 136, 548, 508, 797, 21005, 245];
  }
}
