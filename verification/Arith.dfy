/** Division facts with a symbolic divisor, which the solver does not find on its own. */
module Arith {
  lemma MulAtLeast(k: int, b: nat)
    ensures k >= 1 ==> k * b >= b
    ensures k <= -1 ==> k * b + b <= 0
  {
  }

  lemma DivModUnique(x: int, q: int, b: int, r: int)
    requires 0 <= r < b && x == q * b + r
    ensures x / b == q && x % b == r
  {
    var q', r' := x / b, x % b;
    assert (q - q') * b == r' - r;
    MulAtLeast(q - q', b);
  }

  lemma DivMod(x: int, b: int)
    requires 0 < b
    ensures x == x / b * b + x % b && 0 <= x % b < b
  {
  }

  lemma ModOfMultiple(q: int, b: int)
    requires 0 < b
    ensures (q * b) % b == 0
  {
    DivModUnique(q * b, q, b, 0);
  }

  lemma MultipleStep(n: nat, b: nat)
    requires 0 < b && n % b == 0
    ensures (n + b) % b == 0
    ensures n > 0 ==> n >= b && (n - b) % b == 0
  {
    var q := n / b;
    assert n == q * b;
    assert (q - 1) * b == n - b;
    assert (q + 1) * b == n + b;
    ModOfMultiple(q - 1, b);
    ModOfMultiple(q + 1, b);
    if 0 < n < b {
      DivModUnique(n, 0, b, n);
    }
  }

  /** Two multiples of `b` less than `b` apart are equal. */
  lemma MultipleGap(m: nat, n: nat, b: nat)
    requires 0 < b && m % b == 0 && n % b == 0 && m <= n < m + b
    ensures m == n
  {
    DivModUnique(n, m / b, b, n - m);
  }

  lemma DivMonotone(y: int, z: int, g: int)
    requires 0 < g && y <= z
    ensures y / g <= z / g
  {
    var p, q := y / g, z / g;
    assert (p - q) * g < g;
    MulAtLeast(p - q, g);
  }
}
