/**
 Integer arithmetic shared by the models.
 */
module Arithmetic {

  function Min(a: int, b: int): int { if a < b then a else b }

  function Max(a: int, b: int): int { if a < b then b else a }

  function Abs(x: int): nat { if x < 0 then -x else x }

  /** Quotient and remainder are determined by their equation. */
  lemma DivisionIs(a: int, base: int, q: int, r: int)
    requires 0 < base && a == q * base + r && 0 <= r < base
    ensures a / base == q && a % base == r
  {
    assert a == (a / base) * base + a % base;
    StepsApart(q, a / base, base);
    StepsApart(a / base, q, base);
  }

  lemma StepsApart(x: int, y: int, base: int)
    requires 0 < base
    ensures x <= y ==> x * base <= y * base
    ensures x < y ==> x * base + base <= y * base
  {
    if x < y {
      var d := y - x - 1;
      assert 0 <= d * base;
      assert y * base == (x + 1 + d) * base == x * base + base + d * base;
    }
  }

  /** A quotient is below c exactly when its dividend is below c divisors. */
  lemma QuotientOrder(a: int, b: int, c: int)
    requires 0 < b
    ensures a / b < c <==> a < c * b
  {
    assert a == a / b * b + a % b && (a / b + 1) * b == a / b * b + b;
    StepsApart(a / b + 1, c, b);
    StepsApart(c, a / b, b);
  }

  function CeilingQuotient(a: int, b: int): int
    requires 0 < b
  {
    -(-a / b)
  }

  lemma CeilingBounds(a: int, b: int)
    requires 0 < b
    ensures (CeilingQuotient(a, b) - 1) * b < a <= CeilingQuotient(a, b) * b
  {
    assert -a == (-a / b) * b + -a % b;
    assert (CeilingQuotient(a, b) - 1) * b == -((-a / b) * b) - b;
  }

  function Pow2(n: nat): (p: nat)
    ensures 0 < p
  {
    if n == 0 then 1 else 2 * Pow2(n - 1)
  }

  // ----- greatest common divisors

  function Gcd(a: nat, b: nat): (g: nat)
    requires 0 < a || 0 < b
    ensures 0 < g
    decreases b
  {
    if b == 0 then a else Gcd(b, a % b)
  }

  lemma {:induction false} GcdDivides(a: nat, b: nat)
    requires 0 < a || 0 < b
    ensures a % Gcd(a, b) == 0 && b % Gcd(a, b) == 0
    decreases b
  {
    if b != 0 {
      GcdDivides(b, a % b);
      DividesThrough(a, b, Gcd(b, a % b));
    } else {
      DivisionIs(a, a, 1, 0);
      DivisionIs(0, a, 0, 0);
    }
  }

  /** What divides b and the remainder by b divides a. */
  lemma DividesThrough(a: int, b: int, g: int)
    requires 0 < b && 0 < g && b % g == 0 && a % b % g == 0
    ensures a % g == 0
  {
    var q, j, k := a / b, b / g, a % b / g;
    assert b == j * g && a % b == k * g && a == q * b + a % b;
    Combine(q, j, k, g);
    DivisionIs(a, g, q * j + k, 0);
  }

  lemma Combine(q: int, j: int, k: int, g: int)
    ensures q * (j * g) + k * g == (q * j + k) * g
  {
  }

  /** The divisor as a combination of its arguments. */
  lemma {:induction false} Bezout(a: nat, b: nat) returns (x: int, y: int)
    requires 0 < a || 0 < b
    ensures x * a + y * b == Gcd(a, b)
    decreases b
  {
    if b == 0 {
      x, y := 1, 0;
    } else {
      var u, v := Bezout(b, a % b);
      x, y := v, u - v * (a / b);
      assert a == a / b * b + a % b;
      Exchange(u, v, a / b, b, a % b);
    }
  }

  lemma Exchange(u: int, v: int, q: int, b: int, r: int)
    ensures v * (q * b + r) + (u - v * q) * b == u * b + v * r
  {
    assert (v * q) * b == v * (q * b);
  }
}
