// Quotients, remainders and powers over an arbitrary base.
module Arithmetic {

  function Pow(base: nat, e: nat): (p: nat)
    ensures base > 0 ==> p > 0
  {
    if e == 0 then 1 else base * Pow(base, e - 1)
  }

  lemma MulSign(m: int, t: int)
    requires m > 0
    ensures t >= 1 ==> m * t >= m
    ensures t <= -1 ==> m * t <= -m
  {
    if t >= 1 {
      assert m * t == m + m * (t - 1);
    } else if t <= -1 {
      assert m * t == -m + m * (t + 1);
    }
  }

  lemma SubMul(m: int, p: int, q: int)
    ensures m * (p - q) == m * p - m * q
  {}

  /** Quotient and remainder are what the division equation says they are. */
  lemma DivModUnique(x: nat, m: nat, q: nat, r: nat)
    requires m > 0 && x == m * q + r && r < m
    ensures x / m == q && x % m == r
  {
    var p, s := x / m, x % m;
    assert x == m * p + s;
    SubMul(m, p, q);
    MulSign(m, p - q);
  }

  lemma Regroup(b: nat, p: nat, q: nat, s: nat, d: nat)
    ensures b * (p * q + s) + d == b * p * q + (b * s + d)
    ensures b * (q * p + s) + d == q * (b * p) + (b * s + d)
  {
    assert b * (p * q) == b * p * q;
    assert b * (q * p) == q * (b * p);
  }

  lemma SmallRemainder(b: nat, p: nat, s: nat, d: nat)
    requires d < b && s < p
    ensures b * s + d < b * p
  {
    SubMul(b, p, s);
    MulSign(b, p - s);
  }

  lemma TwoDivisions(x: nat, b: nat, p: nat, y: nat, d: nat, q: nat, s: nat, m: nat)
    requires x == b * y + d && y == p * q + s && d < b && s < p && m == b * p
    ensures m > 0 && x / m == q && x % m == b * s + d
  {
    MulSign(b, p);
    Regroup(b, p, q, s, d);
    SmallRemainder(b, p, s, d);
    DivModUnique(x, m, q, b * s + d);
  }

  lemma Division(x: nat, m: nat, q: nat, r: nat)
    requires m > 0 && q == x / m && r == x % m
    ensures x == m * q + r && r < m
  {}

  /** Taking off the last digit and then a factor p is taking off b * p at once. */
  lemma SplitLastDigit(x: nat, b: nat, p: nat, m: nat)
    requires b > 0 && p > 0 && m == b * p
    ensures m > 0
    ensures x % m == b * (x / b % p) + x % b
    ensures x / m == x / b / p
  {
    var y, d := x / b, x % b;
    var q, s := y / p, y % p;
    Division(x, b, y, d);
    Division(y, p, q, s);
    TwoDivisions(x, b, p, y, d, q, s, m);
  }
}
