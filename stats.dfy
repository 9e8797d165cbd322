/**
 * The column statistics the aggregations use: sum, min, max, mean, median and
 * the sample standard deviation (divisor n - 1). The square root is supplied by
 * the caller as `root`; a standard deviation of fewer than two values is
 * missing (NaN), as pandas' `std` makes it.
 */
module Stats {
  import opened Wrappers
  import opened Sorting

  function Sum(s: seq<real>): real
  {
    if s == [] then 0.0 else s[0] + Sum(s[1..])
  }

  function Min(s: seq<real>): (m: real)
    requires |s| > 0
    ensures m in s
    ensures forall x :: x in s ==> m <= x
  {
    RealOrders();
    Largest(s, RealGe)
  }

  function Max(s: seq<real>): (m: real)
    requires |s| > 0
    ensures m in s
    ensures forall x :: x in s ==> x <= m
  {
    RealOrders();
    Largest(s, RealLe)
  }

  function Mean(s: seq<real>): real
    requires |s| > 0
  {
    Sum(s) / (|s| as real)
  }

  predicate RealLe(a: real, b: real) { a <= b }

  predicate RealGe(a: real, b: real) { a >= b }

  lemma RealOrders()
    ensures TotalPreorder(RealLe) && TotalPreorder(RealGe)
  {
  }

  /** Ascending order on a column with missing values, the missing ones last (pandas' default). */
  predicate NanLastLe(a: Option<real>, b: Option<real>)
  {
    b.None? || (a.Some? && a.value <= b.value)
  }

  /** The middle value of the sorted values, or the average of the two middle ones. */
  function Median(s: seq<real>): (m: real)
    requires |s| > 0
    ensures Min(s) <= m <= Max(s)
    ensures |s| % 2 == 1 ==> m in s
  {
    var t := SortBy(s, RealLe);
    var n := |t|;
    assert |t| == |multiset(t)| == |multiset(s)| == |s|;
    var hi, lo := t[n / 2], t[(n - 1) / 2];
    assert hi in multiset(t) && lo in multiset(t);
    assert hi in s && lo in s;
    if n % 2 == 1 then hi else (lo + hi) / 2.0
  }

  /** The sum of squared deviations from `c`. */
  function SquaredDeviations(s: seq<real>, c: real): (d: real)
    ensures d >= 0.0
  {
    if s == [] then 0.0
    else
      var e := s[0] - c;
      SquareNonNegative(e);
      e * e + SquaredDeviations(s[1..], c)
  }

  /** The sample variance, defined from two values on. */
  function SampleVariance(s: seq<real>): (v: real)
    requires |s| >= 2
    ensures v >= 0.0
  {
    var d, n := SquaredDeviations(s, Mean(s)), (|s| - 1) as real;
    QuotientNonNegative(d, n);
    d / n
  }

  /** pandas' `std`: the root of the sample variance; missing for fewer than two values. */
  function StdDev(s: seq<real>, root: real -> real): (r: Option<real>)
    ensures r.None? <==> |s| < 2
  {
    if |s| < 2 then None else Some(root(SampleVariance(s)))
  }

  // ---------------------------------------------------------------------------
  // Lemmas

  lemma SquareNonNegative(e: real)
    ensures e * e >= 0.0
  {
    if e < 0.0 {
      assert e * e == (-e) * (-e);
    }
  }

  lemma QuotientMonotone(a: real, b: real, n: real)
    requires a <= b && n > 0.0
    ensures a / n <= b / n
  {
    QuotientNonNegative(b - a, n);
    assert (b - a) / n == b / n - a / n;
  }

  lemma QuotientBetween(lo: real, hi: real, sum: real, n: real)
    requires n > 0.0 && n * lo <= sum <= n * hi
    ensures lo <= sum / n <= hi
  {
    QuotientMonotone(n * lo, sum, n);
    QuotientMonotone(sum, n * hi, n);
    ProductQuotient(lo, n);
    ProductQuotient(hi, n);
  }

  lemma ProductQuotient(x: real, n: real)
    requires n > 0.0
    ensures (n * x) / n == x
  {
  }

  lemma Distribute(m: real, x: real)
    ensures (m + 1.0) * x == m * x + x
  {
  }

  /** A non-negative number divided by a positive one is non-negative. */
  lemma QuotientNonNegative(x: real, n: real)
    requires x >= 0.0 && n > 0.0
    ensures x / n >= 0.0
  {
  }

  lemma {:induction false} SumBounds(s: seq<real>, lo: real, hi: real)
    requires forall x :: x in s ==> lo <= x <= hi
    ensures (|s| as real) * lo <= Sum(s) <= (|s| as real) * hi
  {
    if s != [] {
      assert s[0] in s;
      assert forall x :: x in s[1..] ==> x in s;
      SumBounds(s[1..], lo, hi);
      var n, m := |s| as real, (|s| - 1) as real;
      assert n == m + 1.0;
      Distribute(m, lo);
      Distribute(m, hi);
      assert n * lo == m * lo + lo && n * hi == m * hi + hi;
      assert Sum(s) == s[0] + Sum(s[1..]);
    }
  }

  /** The mean lies between any common lower and upper bound of the values. */
  lemma MeanBetween(s: seq<real>, lo: real, hi: real)
    requires |s| > 0
    requires forall x :: x in s ==> lo <= x <= hi
    ensures lo <= Mean(s) <= hi
  {
    SumBounds(s, lo, hi);
    QuotientBetween(lo, hi, Sum(s), |s| as real);
  }

  /** The mean lies between the minimum and the maximum. */
  lemma MeanBounds(s: seq<real>)
    requires |s| > 0
    ensures Min(s) <= Mean(s) <= Max(s)
  {
    MeanBetween(s, Min(s), Max(s));
  }

  /** Shifting every value by `c` shifts the sum by `|s| * c`. */
  lemma {:induction false} SumShift(s: seq<real>, c: real)
    ensures Sum(seq(|s|, i requires 0 <= i < |s| => s[i] - c)) == Sum(s) - (|s| as real) * c
  {
    var d := seq(|s|, i requires 0 <= i < |s| => s[i] - c);
    if s != [] {
      var d' := seq(|s| - 1, i requires 0 <= i < |s| - 1 => s[1..][i] - c);
      assert d[1..] == d';
      SumShift(s[1..], c);
      assert |s| as real == ((|s| - 1) as real) + 1.0;
      Distribute((|s| - 1) as real, c);
    }
  }

  /** Deviations from the mean sum to zero. */
  lemma DeviationsFromMeanSumToZero(s: seq<real>)
    requires |s| > 0
    ensures Sum(seq(|s|, i requires 0 <= i < |s| => s[i] - Mean(s))) == 0.0
  {
    SumShift(s, Mean(s));
    assert Mean(s) * (|s| as real) == Sum(s);
  }

  /** Values that are all positive have a positive mean. */
  lemma MeanPositive(s: seq<real>)
    requires |s| > 0
    requires forall x :: x in s ==> x > 0.0
    ensures Mean(s) > 0.0
  {
    MeanBounds(s);
    assert Min(s) in s;
  }
}
