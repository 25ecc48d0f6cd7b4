/** Division of unbounded integers. */
module Arithmetic {
  lemma {:induction false} MulAtLeast(d: nat, a: int)
    ensures a >= 1 ==> d * a >= d
    ensures a <= -1 ==> d * a <= -1 * d
    decreases if a < 0 then -a else a
  {
    if a > 1 { MulAtLeast(d, a - 1); }
    if a < -1 { MulAtLeast(d, a + 1); }
  }

  /** A multiple of d strictly between -d and d is zero. */
  lemma SmallMultiple(d: nat, a: int)
    requires d > 0 && -1 * d < d * a < d
    ensures a == 0
  {
    MulAtLeast(d, a);
  }

  /** Euclidean division is unique. */
  lemma DivModUnique(x: int, d: nat, q: int, r: int)
    requires d > 0 && 0 <= r < d && x == d * q + r
    ensures x / d == q && x % d == r
  {
    assert x == d * (x / d) + x % d;
    assert d * (q - x / d) == d * q - d * (x / d);
    SmallMultiple(d, q - x / d);
  }
}
