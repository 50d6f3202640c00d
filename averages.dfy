/** `sum(xs) / len(xs)` over exact reals, and the bounds it keeps. */
module Averages {

  function Sum(xs: seq<real>): real {
    if xs == [] then 0.0 else xs[0] + Sum(xs[1..])
  }

  predicate AllWithin(xs: seq<real>, lo: real, hi: real) {
    forall i :: 0 <= i < |xs| ==> lo <= xs[i] <= hi
  }

  /** `[x] * n` */
  function Fill(x: real, n: nat): (r: seq<real>)
    ensures |r| == n && forall i :: 0 <= i < n ==> r[i] == x
  {
    seq(n, _ => x)
  }

  lemma {:induction false} SumWithin(xs: seq<real>, lo: real, hi: real)
    requires AllWithin(xs, lo, hi)
    ensures (|xs| as real) * lo <= Sum(xs) <= (|xs| as real) * hi
  {
    if xs != [] {
      SumWithin(xs[1..], lo, hi);
    }
  }

  /**
   * `_avg_conf`: the arithmetic mean, and `0.0` for an empty list. The mean
   * of values that lie in an interval lies in that interval.
   */
  function AvgConf(probs: seq<real>): (r: real)
    ensures probs == [] ==> r == 0.0
    ensures probs != [] ==> r * (|probs| as real) == Sum(probs)
    ensures AllWithin(probs, 0.0, 1.0) ==> 0.0 <= r <= 1.0
  {
    if probs == [] then 0.0
    else
      var n := |probs| as real;
      var r := Sum(probs) / n;
      if AllWithin(probs, 0.0, 1.0) then
        SumWithin(probs, 0.0, 1.0);
        assert 0.0 <= r <= 1.0 by { DivWithin(Sum(probs), n); }
        r
      else r
  }

  lemma DivWithin(s: real, n: real)
    requires n > 0.0 && 0.0 <= s <= n
    ensures 0.0 <= s / n <= 1.0
  {
  }

  /** The mean of values in `[lo, hi]` lies in `[lo, hi]` (any interval, not only `[0, 1]`). */
  lemma AvgConfWithin(probs: seq<real>, lo: real, hi: real)
    requires probs != [] && AllWithin(probs, lo, hi)
    ensures lo <= AvgConf(probs) <= hi
  {
    var n, m, s := |probs| as real, AvgConf(probs), Sum(probs);
    SumWithin(probs, lo, hi);
    ScaledBetween(m, n, s, lo, hi);
  }

  lemma ScaledBetween(m: real, n: real, s: real, lo: real, hi: real)
    requires n > 0.0 && m * n == s && n * lo <= s <= n * hi
    ensures lo <= m <= hi
  {
    assert (m - lo) * n >= 0.0 && (hi - m) * n >= 0.0;
  }

  /** Averaging a broadcast value gives that value back. */
  lemma AvgConfFill(x: real, n: nat)
    requires n > 0
    ensures AvgConf(Fill(x, n)) == x
  {
    AvgConfWithin(Fill(x, n), x, x);
  }
}
