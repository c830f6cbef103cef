/** Facts about products and quotients of integers that the solver needs spelled out. */
module Integers {

  function Abs(a: int): (r: int)
    ensures r >= 0 && (r == a || r == -a)
  {
    if a < 0 then -a else a
  }

  /** The only multiple of `g` strictly between `-g` and `g` is zero. */
  lemma SmallMultiple(d: int, g: int)
    requires -g < d * g < g
    ensures d == 0
  {
  }

  lemma CancelFactor(x: int, y: int, q: int)
    requires q != 0 && x * q == y * q
    ensures x == y
  {
  }

  /** Quotient and remainder are unique. */
  lemma DivUnique(x: int, d: int, q: int)
    requires d > 0 && 0 <= x - d * q < d
    ensures x / d == q
  {
    var p, r := x / d, x % d;
    assert x == d * p + r && 0 <= r < d;
    assert (p - q) * d == d * p - d * q;
    SmallMultiple(p - q, d);
  }
}
