/** Powers, and arithmetic modulo a symbolic number. */
module Modular {
  import opened Bits
  import opened WordOps

  function Pow(r: nat, n: nat): nat {
    if n == 0 then 1 else r * Pow(r, n - 1)
  }

  lemma {:induction false} PowAdd(r: nat, m: nat, n: nat)
    ensures Pow(r, m + n) == Pow(r, m) * Pow(r, n)
  {
    if m > 0 {
      PowAdd(r, m - 1, n);
      assert r * (Pow(r, m - 1) * Pow(r, n)) == r * Pow(r, m - 1) * Pow(r, n);
    }
  }

  lemma {:induction false} Pow2Add(m: nat, n: nat)
    ensures Pow2(m + n) == Pow2(m) * Pow2(n)
  {
    if m > 0 {
      Pow2Add(m - 1, n);
    }
  }

  /** n modulo p, by adding or subtracting p. */
  function Residue(n: int, p: int): nat
    requires p > 0
    decreases if n < 0 then p - n else n
  {
    if n < 0 then Residue(n + p, p) else if n < p then n else Residue(n - p, p)
  }

  lemma {:induction false} ResidueIs(n: int, p: int)
    requires p > 0
    ensures Residue(n, p) == n % p
    decreases if n < 0 then p - n else n
  {
    if n < 0 {
      ResidueIs(n + p, p);
      ModMultiple(n, 1, p);
    } else if n < p {
      SmallMod(n, p);
    } else {
      ResidueIs(n - p, p);
      ModMultiple(n - p, 1, p);
    }
  }

  function Plus(x: int, y: int, p: int): nat
    requires p > 0
  {
    Residue(x + y, p)
  }

  function Minus(x: int, y: int, p: int): nat
    requires p > 0
  {
    Residue(x - y, p)
  }

  /** x times y modulo p: x added y times. */
  function Times(x: nat, y: nat, p: int): nat
    requires p > 0
  {
    if y == 0 then 0 else Plus(Times(x, y - 1, p), x, p)
  }

  /** The power e of x modulo p. */
  function Power(x: nat, e: nat, p: int): nat
    requires p > 0
  {
    if e == 0 then Residue(1, p) else Times(x, Power(x, e - 1, p), p)
  }

  lemma {:induction false} TimesIs(x: nat, y: nat, p: int)
    requires p > 0
    ensures Times(x, y, p) == x * y % p
  {
    if y == 0 {
      SmallMod(0, p);
    } else {
      hide Residue;
      TimesIs(x, y - 1, p);
      ResidueIs(x * (y - 1) % p + x, p);
      PlusReduced(x, x * (y - 1), p);
      assert x + x * (y - 1) == x * y;
    }
  }

  lemma {:induction false} PowerIs(x: nat, e: nat, p: int)
    requires p > 0
    ensures Power(x, e, p) == Pow(x, e) % p
  {
    if e == 0 {
      ResidueIs(1, p);
    } else {
      hide Residue, Times;
      PowerIs(x, e - 1, p);
      TimesIs(x, Pow(x, e - 1) % p, p);
      ModTimes(Pow(x, e - 1), 0, x, p);
      MulBack(x, Pow(x, e - 1), p);
    }
  }

  lemma MulBack(x: int, y: int, p: int)
    requires p > 0
    ensures x * (y % p) == (y % p + 0) * x && x * y == (y + 0) * x
  {
  }

  lemma ModTimes(x: int, c: int, r: int, p: int)
    requires p > 0
    ensures (x % p + c) * r % p == (x + c) * r % p
  {
    var q := x / p;
    assert (x + c) * r == (x % p + c) * r + p * (q * r);
    ModMultiple((x % p + c) * r, q * r, p);
  }

  lemma ProductMod(x: int, y: int, p: int)
    requires p > 0
    ensures (x % p) * (y % p) % p == x * y % p
  {
    var a := x % p;
    ModTimes(x, 0, y, p);
    assert a * y % p == x * y % p;
    ModTimes(y, 0, a, p);
    MulBack(a, y, p);
  }

  /** Reducing the operands first changes nothing. */
  lemma ReduceTimes(x: int, y: int, p: int)
    requires p > 0
    ensures Times(Residue(x, p), Residue(y, p), p) == x * y % p
  {
    hide Residue, Times;
    ResidueIs(x, p);
    ResidueIs(y, p);
    var a, b := x % p, y % p;
    TimesIs(a, b, p);
    ProductMod(x, y, p);
  }

  lemma ReducePlus(x: int, y: int, p: int)
    requires p > 0
    ensures Plus(Residue(x, p), Residue(y, p), p) == (x + y) % p
  {
    hide Residue;
    ResidueIs(x, p);
    ResidueIs(y, p);
    ResidueIs(x % p + y % p, p);
    SumMod(x, y, p);
  }

  lemma ReduceMinus(x: int, y: int, p: int)
    requires p > 0
    ensures Minus(Residue(x, p), Residue(y, p), p) == (x - y) % p
  {
    hide Residue;
    ResidueIs(x, p);
    ResidueIs(y, p);
    ResidueIs(x % p - y % p, p);
    DifferenceMod(x, y, p);
  }

  lemma SumMod(x: int, y: int, p: int)
    requires p > 0
    ensures (x % p + y % p) % p == (x + y) % p
  {
    assert x + y == x % p + y % p + p * (x / p + y / p);
    ModMultiple(x % p + y % p, x / p + y / p, p);
  }

  lemma DifferenceMod(x: int, y: int, p: int)
    requires p > 0
    ensures (x % p - y % p) % p == (x - y) % p
  {
    assert x - y == x % p - y % p + p * (x / p - y / p);
    ModMultiple(x % p - y % p, x / p - y / p, p);
  }

  /** a + c (a - b) and b + (c + 1) (a - b) are the same number. */
  lemma ShiftedMultiple(a: int, b: int, c: nat, p: int)
    requires p > 0
    ensures var e := Minus(a, b, p);
            Plus(a, Times(c, e, p), p) == Plus(b, Times(c + 1, e, p), p)
  {
    hide Residue, Times;
    var e := (a - b) % p;
    ResidueIs(a - b, p);
    TimesIs(c, e, p);
    TimesIs(c + 1, e, p);
    ResidueIs(a + c * e % p, p);
    ResidueIs(b + (c + 1) * e % p, p);
    PlusReduced(a, c * e, p);
    PlusReduced(b, (c + 1) * e, p);
    ShiftedSum(a, b, c, p);
  }

  lemma ShiftedSum(a: int, b: int, c: int, p: int)
    requires p > 0
    ensures var e := (a - b) % p;
            (a + c * e) % p == (b + (c + 1) * e) % p
  {
    var e, q := (a - b) % p, (a - b) / p;
    assert (c + 1) * e == c * e + e;
    assert a + c * e == b + (c + 1) * e + p * q;
    ModMultiple(b + (c + 1) * e, q, p);
  }

  lemma PlusReduced(a: int, s: int, p: int)
    requires p > 0
    ensures (a + s % p) % p == (a + s) % p
  {
    assert a + s == a + s % p + p * (s / p);
    ModMultiple(a + s % p, s / p, p);
  }
}
