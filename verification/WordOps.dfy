/** Machine words: what is kept of a number, shifts, products and their bounds. */
module WordOps {
  import opened Arith

  const W32: nat := 0x1_0000_0000
  const W64: nat := 0x1_0000_0000_0000_0000

  lemma SmallMod(x: int, w: int)
    requires 0 <= x < w
    ensures x % w == x && x / w == 0
  {
    DivModUnique(x, 0, w, x);
  }

  lemma ModPlusOne(q: nat)
    ensures (q + 1) % W32 == (q % W32 + 1) % W32
  {
  }

  /** What a word of size `w` keeps of `x`. */
  function Wrap(x: nat, w: nat): nat
    requires w > 0
  {
    x % w
  }

  lemma NoWrap(x: nat, w: nat)
    requires x < w
    ensures Wrap(x, w) == x
  {
    SmallMod(x, w);
  }

  /** A right shift by the number of bits in `d`, a power of two. */
  function Shr(x: nat, d: nat): nat
    requires d > 0
  {
    x / d
  }

  function Mul(a: nat, b: nat): nat { a * b }

  lemma MulMonotone(a: int, b: int, c: int, d: int)
    requires 0 <= a <= c && 0 <= b <= d
    ensures 0 <= a * b <= c * d
  {
    assert a * b <= a * d;
    assert a * d <= c * d;
  }

  lemma MulFive(a: nat, b: nat)
    ensures Mul(a, b * 5) == 5 * Mul(a, b)
  {
  }

  lemma ModMultiple(y: int, k: int, p: int)
    requires p > 0
    ensures (y + p * k) % p == y % p
  {
    DivModUnique(y + p * k, y / p + k, p, y % p);
  }
}
