/** Tests of a value against a multiple of a mean, on exact reals, and the
    integer comparisons they amount to. */
module Ratios {

  /** The mean `total / m` of positive quantities is positive, and `m` times
      it is the total. */
  lemma MeanTimesCount(total: real, m: real)
    requires m > 0.0 && total > 0.0
    ensures total / m > 0.0 && (total / m) * m == total
  {
  }

  /** `x / avg > r` is `x * m > r * (avg * m)`, for positive `avg` and `m`. */
  lemma AboveMean(x: real, avg: real, m: real, r: real)
    requires avg > 0.0 && m > 0.0
    ensures x / avg > r <==> x * m > r * (avg * m)
  {
    assert x / avg > r <==> x > r * avg;
    assert x > r * avg <==> x * m > r * avg * m;
  }

  lemma CastProduct(c: int, a: int, n: int)
    ensures (c * n * a) as real == (c as real) * ((a as real) * (n as real))
  {
  }

  /** `a / (t / n) > r` on exact reals, for positive `n` and `t`, as a
      comparison of `a * n` with `r * t`. */
  lemma MeanRatio(a: int, n: int, t: int, r: real)
    requires n > 0 && t > 0
    ensures (a as real) / ((t as real) / (n as real)) > r <==> (a as real) * (n as real) > r * (t as real)
  {
    var m, total, x := n as real, t as real, a as real;
    MeanTimesCount(total, m);
    AboveMean(x, total / m, m, r);
  }
}
