/** Comparing framerates as fractions, after reduction by their greatest common divisor. */
module Framerate {
  import opened Integers

  /** Division and remainder of C: the quotient is truncated toward zero. */
  function Quot(a: int, b: int): (q: int)
    requires b != 0
  {
    var m := (if a < 0 then -a else a) / (if b < 0 then -b else b);
    if (a < 0) == (b < 0) then m else -m
  }

  function Rem(a: int, b: int): (r: int)
    requires b != 0
    ensures a == b * Quot(a, b) + r
    ensures -Abs(b) < r < Abs(b)
  {
    QuotBound(a, b);
    a - b * Quot(a, b)
  }

  function Sign(a: int): int
  {
    if a < 0 then -1 else if a > 0 then 1 else 0
  }

  lemma QuotBound(a: int, b: int)
    requires b != 0
    ensures -Abs(b) < a - b * Quot(a, b) < Abs(b)
  {
  }

  /** An exact multiple of a positive number divides back to the factor. */
  lemma QuotExact(p: int, g: int)
    requires g > 0
    ensures Quot(p * g, g) == p
  {
    if p >= 0 {
      ProductSign(p, g);
      DivUnique(p * g, g, p);
    } else {
      ProductSign(-p, g);
      DivUnique((-p) * g, g, -p);
      assert p * g == -((-p) * g);
    }
  }

  lemma ProductSign(p: int, g: int)
    requires g > 0 && p >= 0
    ensures p * g >= 0 && (p > 0 ==> p * g > 0)
  {
  }

  // ----- greatest common divisor -----

  function GcdOf(a: int, b: int): (g: nat)
    decreases Abs(b)
  {
    if b == 0 then Abs(a) else GcdOf(b, Rem(a, b))
  }

  /** It is a common divisor. */
  lemma {:induction false} GcdDivides(a: int, b: int) returns (p: int, q: int)
    ensures a == p * GcdOf(a, b) && b == q * GcdOf(a, b)
    decreases Abs(b)
  {
    hide Quot, Rem;
    if b == 0 {
      p, q := Sign(a), 0;
    } else {
      var r := Rem(a, b);
      var p', q' := GcdDivides(b, r);
      p, q := p' * Quot(a, b) + q', p';
      FactorOut(p', GcdOf(a, b), Quot(a, b), q');
    }
  }

  lemma FactorOut(p: int, g: int, k: int, q: int)
    ensures (p * g) * k + q * g == (p * k + q) * g
  {
  }

  /** It is an integer combination of both numbers, hence a multiple of every common divisor. */
  lemma {:induction false} Bezout(a: int, b: int) returns (s: int, t: int)
    ensures s * a + t * b == GcdOf(a, b)
    decreases Abs(b)
  {
    hide Quot, Rem;
    if b == 0 {
      s, t := Sign(a), 0;
    } else {
      var k, r := Quot(a, b), Rem(a, b);
      var s', t' := Bezout(b, r);
      s, t := t', s' - t' * k;
      BackSubstitute(s', t', b, k, r);
    }
  }

  lemma BackSubstitute(s: int, t: int, b: int, k: int, r: int)
    ensures t * (b * k + r) + (s - t * k) * b == s * b + t * r
  {
  }

  lemma GcdPositive(a: int, b: int)
    requires b != 0
    ensures GcdOf(a, b) > 0
  {
    hide GcdOf;
    var p, q := GcdDivides(a, b);
  }

  /** The loop of `_gcd`. */
  method Gcd(a: int, b: int) returns (g: nat)
    ensures g == GcdOf(a, b)
  {
    var x, y := a, b;
    while y != 0
      invariant GcdOf(x, y) == GcdOf(a, b)
      decreases Abs(y)
    {
      x, y := y, Rem(x, y);
    }
    g := Abs(x);
  }

  /** Every common divisor divides it. */
  lemma GcdGreatest(a: int, b: int, d: int, p: int, q: int)
    requires a == p * d && b == q * d
    ensures exists k :: GcdOf(a, b) == k * d
  {
    hide GcdOf;
    var s, t := Bezout(a, b);
    CombinationOf(s, p, t, q, d);
    assert GcdOf(a, b) == (s * p + t * q) * d;
  }

  lemma CombinationOf(s: int, p: int, t: int, q: int, d: int)
    ensures s * (p * d) + t * (q * d) == (s * p + t * q) * d
  {
  }

  // ----- reduced fractions -----

  /** `s*p + t*q == 1` witnesses that `p` and `q` have no common factor. */
  lemma ReducedIsCoprime(a: int, b: int, p: int, q: int) returns (s: int, t: int)
    requires b != 0 && a == p * GcdOf(a, b) && b == q * GcdOf(a, b)
    ensures s * p + t * q == 1
  {
    hide GcdOf;
    var g := GcdOf(a, b);
    GcdPositive(a, b);
    s, t := Bezout(a, b);
    CombinationOf(s, p, t, q, g);
    CancelFactor(s * p + t * q, 1, g);
  }

  /** If `p1/q1 == p2/q2` and `p1/q1` is reduced then `q1` divides `q2`. */
  lemma DenominatorDivides(p1: int, q1: int, p2: int, q2: int, s: int, t: int)
    requires s * p1 + t * q1 == 1 && p1 * q2 == p2 * q1
    ensures q2 == (s * p2 + t * q2) * q1
  {
  }

  lemma UnitProduct(u: int, v: int)
    requires u * v == 1
    ensures (u == 1 && v == 1) || (u == -1 && v == -1)
  {
  }

  /** Equal reduced fractions have the same terms, up to the sign of the denominators. */
  lemma ReducedFormsUnique(p1: int, q1: int, p2: int, q2: int, s1: int, t1: int, s2: int, t2: int)
    requires s1 * p1 + t1 * q1 == 1 && s2 * p2 + t2 * q2 == 1
    requires q1 != 0 && q2 != 0 && p1 * q2 == p2 * q1
    ensures (p1 == p2 && q1 == q2) || (p1 == -p2 && q1 == -q2)
  {
    var u, v := s1 * p2 + t1 * q2, s2 * p1 + t2 * q1;
    DenominatorDivides(p1, q1, p2, q2, s1, t1);
    DenominatorDivides(p2, q2, p1, q1, s2, t2);
    assert q1 == v * (u * q1) == (u * v) * q1;
    CancelFactor(u * v, 1, q1);
    UnitProduct(u, v);
    if u == 1 {
      CancelFactor(p1, p2, q1);
    } else {
      assert p1 * -q1 == (-p1) * q1;
      CancelFactor(-p1, p2, q1);
    }
  }

  lemma SignOfScaled(x: int, g: int)
    requires g > 0
    ensures Sign(x * g) == Sign(x)
  {
  }

  /** Reduction by positive numbers keeps the sign of the cross difference. */
  lemma CrossSign(p1: int, q1: int, g1: int, p2: int, q2: int, g2: int)
    requires g1 > 0 && g2 > 0
    ensures Sign((p1 * g1) * (q2 * g2) - (p2 * g2) * (q1 * g1)) == Sign(p1 * q2 - p2 * q1)
  {
  }

  /**
   `_compare_rate`. `fellThrough` tells whether control reached the final statement that the
   source marks as unreachable: exactly for equal fractions whose denominators differ in sign.
   */
  method CompareRate(aN: int, aD: int, bN: int, bD: int) returns (r: int, fellThrough: bool)
    ensures aD == 0 || bD == 0 ==> r == 0 && !fellThrough
    ensures aD != 0 && bD != 0 ==> r == Sign(aN * bD - bN * aD)
    ensures aD != 0 && bD != 0 ==> (fellThrough <==> aN * bD == bN * aD && (aD < 0) != (bD < 0))
  {
    if aD == 0 || bD == 0 {
      return 0, false;
    }
    var g1 := Gcd(aN, aD);
    ghost var p1, q1 := GcdDivides(aN, aD);
    GcdPositive(aN, aD);
    QuotExact(p1, g1);
    QuotExact(q1, g1);
    var an, ad := Quot(aN, g1), Quot(aD, g1);
    var g2 := Gcd(bN, bD);
    ghost var p2, q2 := GcdDivides(bN, bD);
    GcdPositive(bN, bD);
    QuotExact(p2, g2);
    QuotExact(q2, g2);
    var bn, bd := Quot(bN, g2), Quot(bD, g2);
    CrossSign(an, ad, g1, bn, bd, g2);
    SignOfScaled(ad, g1);
    SignOfScaled(bd, g2);

    if an == bn && ad == bd {
      return 0, false;
    }
    var num1, num2 := an * bd, bn * ad;
    if num1 < num2 {
      return -1, false;
    }
    if num1 > num2 {
      return 1, false;
    }
    ghost var s1, t1 := ReducedIsCoprime(aN, aD, an, ad);
    ghost var s2, t2 := ReducedIsCoprime(bN, bD, bn, bd);
    ReducedFormsUnique(an, ad, bn, bd, s1, t1, s2, t2);
    return 0, true;
  }

  /**
   Against the fractions themselves: the result has the sign of the true difference exactly
   when the denominators agree in sign or the fractions are equal.
   */
  lemma ExactIff(aN: int, aD: int, bN: int, bD: int, r: int)
    requires aD != 0 && bD != 0 && r == Sign(aN * bD - bN * aD)
    ensures var d := aN as real / aD as real - bN as real / bD as real;
            (r < 0 <==> d < 0.0) && (r > 0 <==> d > 0.0) <==> ((aD < 0) == (bD < 0) || aN * bD == bN * aD)
  {
  }

  /** 1/1 and -1/-1 reach the statement marked unreachable; 1/1 compares as less than 1/-1. */
  method SignWitness() returns (equal: int, fellThrough: bool, less: int)
    ensures equal == 0 && fellThrough
    ensures less == -1 && 1.0 / 1.0 - 1.0 / -1.0 > 0.0
  {
    equal, fellThrough := CompareRate(1, 1, -1, -1);
    var reached;
    less, reached := CompareRate(1, 1, 1, -1);
  }
}
