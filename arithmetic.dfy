/** Facts about Euclidean division and multiplication on integers that the
    countdown and the chunking arithmetic rely on. */
module Arithmetic {

  /** Integer division determined by its defining equation. */
  lemma DivUnique(a: int, m: int, q: int, r: int)
    requires m > 0 && 0 <= r < m && a == m * q + r
    ensures a / m == q && a % m == r
  {
    var q0, r0 := a / m, a % m;
    assert m * q + r == m * q0 + r0;
    assert m * (q - q0) == m * q - m * q0;
    MultipleBound(m, q - q0);
  }

  /** A non-zero multiple of `m` is at least `m` away from 0. */
  lemma MultipleBound(m: int, k: int)
    requires m > 0
    ensures k >= 1 ==> m * k >= m
    ensures k <= -1 ==> m * k <= -m
  {
    if k >= 1 {
      assert m * k == m * (k - 1) + m;
    } else if k <= -1 {
      assert m * k == m * (k + 1) - m;
    }
  }

  lemma MulLe(a: int, b: int, m: nat)
    requires a <= b
    ensures a * m <= b * m
  {
    assert b * m - a * m == (b - a) * m;
  }

  lemma MulSucc(a: int, m: int)
    ensures (a + 1) * m == a * m + m
  {
  }
}
