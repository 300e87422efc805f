/** Small facts about integer division and real multiplication that the
    solver does not find on its own. */
module Arith {

  lemma MulLe(a: int, b: int, r: int)
    requires a <= b && r >= 0
    ensures a * r <= b * r
  {
  }

  /** Quotient and remainder are determined by any decomposition `i == q * r + m`
      with `0 <= m < r`. */
  lemma DivModUnique(i: int, r: int, q: int, m: int)
    requires r > 0 && 0 <= m < r && i == q * r + m
    ensures i / r == q && i % r == m
  {
    var q0, m0 := i / r, i % r;
    assert q0 * r + m0 == q * r + m;
    if q0 > q {
      MulLe(q + 1, q0, r);
    } else if q0 < q {
      MulLe(q0 + 1, q, r);
    }
  }

  lemma RealMulLt(a: real, b: real, r: real)
    requires a < b && r > 0.0
    ensures a * r < b * r
  {
  }

  lemma RealMulLe(a: real, b: real, r: real)
    requires a <= b && r > 0.0
    ensures a * r <= b * r
  {
  }

  lemma RealDivMul(x: real, r: real)
    requires r > 0.0
    ensures (x / r) * r == x
  {
  }

  lemma MulToReal(k: int, n: int)
    ensures (k * n) as real == k as real * n as real
  {
  }

  /** A whole number `k` with `k * rate <= i < (k + 1) * rate` is `i / rate` rounded down. */
  lemma RealFloor(k: int, i: int, rate: nat)
    requires rate > 0 && k * rate <= i < (k + 1) * rate
    ensures k as real <= i as real / rate as real < k as real + 1.0
  {
    var r := rate as real;
    var p := i as real / r;
    var lo, hi := k as real, (k + 1) as real;
    RealDivMul(i as real, r);
    MulToReal(k, rate);
    MulToReal(k + 1, rate);
    assert lo * r <= i as real < hi * r;
    if p < lo {
      RealMulLt(p, lo, r);
    } else if p >= hi {
      RealMulLe(hi, p, r);
    }
  }
}
