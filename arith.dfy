/**
 * Facts about integer division with a positive divisor, shared by the byte
 * codec, the numpy index wrap-around and the DRX code arithmetic.
 */
module Arith {

  /** Division with remainder has a unique answer. */
  lemma ModUnique(v: int, m: int, a: int, rem: int)
    requires m > 0 && v == a * m + rem && 0 <= rem < m
    ensures v % m == rem
  {
    var q, r := v / m, v % m;
    var d := a - q;
    assert d * m == r - rem by {
      assert v == q * m + r;
      assert a * m - q * m == d * m;
    }
    if d > 0 {
      MulAtLeast(d, m);
    } else if d < 0 {
      MulAtLeast(-d, m);
    }
  }

  lemma MulAtLeast(d: int, m: int)
    requires d >= 1 && m > 0
    ensures d * m >= m
  {
    assert d * m == (d - 1) * m + m;
  }
}
