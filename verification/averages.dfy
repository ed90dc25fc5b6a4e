/** `calc_average` and the two-argument `max` of the aggregator. */
module Averages {

  /** Python's `sum`: a left-to-right total starting from zero. */
  function Sum(xs: seq<real>): real {
    if xs == [] then 0.0 else Sum(xs[..|xs| - 1]) + xs[|xs| - 1]
  }

  function Least(xs: seq<real>): (m: real)
    requires |xs| > 0
    ensures m in xs
    ensures forall i :: 0 <= i < |xs| ==> m <= xs[i]
  {
    if |xs| == 1 then xs[0]
    else
      var prefix := xs[..|xs| - 1];
      assert xs == prefix + [xs[|xs| - 1]];
      var m := Least(prefix);
      if xs[|xs| - 1] < m then xs[|xs| - 1] else m
  }

  function Greatest(xs: seq<real>): (m: real)
    requires |xs| > 0
    ensures m in xs
    ensures forall i :: 0 <= i < |xs| ==> xs[i] <= m
  {
    if |xs| == 1 then xs[0]
    else
      var prefix := xs[..|xs| - 1];
      assert xs == prefix + [xs[|xs| - 1]];
      var m := Greatest(prefix);
      if m < xs[|xs| - 1] then xs[|xs| - 1] else m
  }

  /** A total of values that all lie in [lo, hi] lies between |xs| * lo and |xs| * hi. */
  lemma {:induction false} SumBetween(xs: seq<real>, lo: real, hi: real)
    requires forall i :: 0 <= i < |xs| ==> lo <= xs[i] <= hi
    ensures (|xs| as real) * lo <= Sum(xs) <= (|xs| as real) * hi
  {
    if xs != [] {
      SumBetween(xs[..|xs| - 1], lo, hi);
    }
  }

  /**
   * `calc_average(*values)`: `sum(values) / len(values)`. The source divides
   * by zero on an empty argument list; its one caller reports that as an
   * error before calling, hence the precondition.
   */
  function Mean(xs: seq<real>): (r: real)
    requires |xs| > 0
    ensures Least(xs) <= r <= Greatest(xs)
  {
    SumBetween(xs, Least(xs), Greatest(xs));
    QuotientBetween(Sum(xs), |xs| as real, Least(xs), Greatest(xs));
    Sum(xs) / (|xs| as real)
  }

  lemma QuotientBetween(s: real, n: real, lo: real, hi: real)
    requires n > 0.0 && n * lo <= s <= n * hi
    ensures lo <= s / n <= hi
  {
    var q := s / n;
    assert s == n * q;
    assert n * (q - lo) >= 0.0;
    assert n * (hi - q) >= 0.0;
  }

  /** Python's `max(a, b)`: the first argument unless the second is larger. */
  function Max(a: real, b: real): (m: real)
    ensures a <= m && b <= m
    ensures m == a || m == b
  {
    if a < b then b else a
  }
}
