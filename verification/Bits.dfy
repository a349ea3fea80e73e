/** Bitwise operations on natural numbers, for words whose arithmetic value matters. */
module Bits {
  import opened Arith

  function Pow2(k: nat): (p: nat)
    ensures p > 0
  {
    if k == 0 then 1 else 2 * Pow2(k - 1)
  }

  function And(x: nat, y: nat): nat {
    if x == 0 || y == 0 then 0
    else (if x % 2 == 1 && y % 2 == 1 then 1 else 0) + 2 * And(x / 2, y / 2)
  }

  function Or(x: nat, y: nat): nat {
    if x == 0 && y == 0 then 0
    else (if x % 2 == 1 || y % 2 == 1 then 1 else 0) + 2 * Or(x / 2, y / 2)
  }

  function XorBits(x: nat, y: nat): nat {
    if x == 0 && y == 0 then 0
    else (if x % 2 != y % 2 then 1 else 0) + 2 * XorBits(x / 2, y / 2)
  }

  /** The low `k` bits and the rest. */
  function Low(x: nat, k: nat): nat {
    if k == 0 then 0 else x % 2 + 2 * Low(x / 2, k - 1)
  }

  function High(x: nat, k: nat): nat {
    if k == 0 then x else High(x / 2, k - 1)
  }

  /** Halving a quotient is dividing by twice as much. */
  lemma HalveDiv(x: nat, p: nat)
    requires p > 0
    ensures x / (2 * p) == x / 2 / p
    ensures x % (2 * p) == x % 2 + 2 * (x / 2 % p)
  {
    var q, r := x / 2 / p, x / 2 % p;
    assert x == q * (2 * p) + (x % 2 + 2 * r);
    DivModUnique(x, q, 2 * p, x % 2 + 2 * r);
  }

  lemma {:induction false} LowHigh(x: nat, k: nat)
    ensures Low(x, k) == x % Pow2(k) && High(x, k) == x / Pow2(k)
  {
    if k > 0 {
      LowHigh(x / 2, k - 1);
      HalveDiv(x, Pow2(k - 1));
    }
  }

  lemma AndStep(x: nat, y: nat)
    ensures And(x, y) == (if x % 2 == 1 && y % 2 == 1 then 1 else 0) + 2 * And(x / 2, y / 2)
  {
  }

  lemma OrStep(x: nat, y: nat)
    ensures Or(x, y) == (if x % 2 == 1 || y % 2 == 1 then 1 else 0) + 2 * Or(x / 2, y / 2)
  {
  }

  lemma OrZero(b: nat)
    ensures Or(0, b) == b && Or(b, 0) == b
  {
  }

  lemma DoubleTimes(p: int, a: int)
    ensures (2 * p) * a == 2 * (p * a)
  {
  }

  /** A mask of `k` ones keeps the low `k` bits. */
  lemma {:induction false} AndOnes(x: nat, k: nat)
    ensures And(x, Pow2(k) - 1) == Low(x, k)
  {
    hide And;
    AndStep(x, Pow2(k) - 1);
    if k == 0 {
      AndZero(x / 2);
    } else {
      AndOnes(x / 2, k - 1);
      LastBit(1, Pow2(k - 1) - 1);
    }
  }

  /** A mask can be applied to the low `k` bits and to the rest. */
  lemma {:induction false} AndSplit(x: nat, y: nat, k: nat)
    ensures And(x, y) == And(Low(x, k), Low(y, k)) + Pow2(k) * And(High(x, k), High(y, k))
  {
    if k == 0 {
      assert And(Low(x, 0), Low(y, 0)) == 0;
    } else {
      hide And;
      AndSplit(x / 2, y / 2, k - 1);
      AndStep(x, y);
      LastBit(x % 2, Low(x / 2, k - 1));
      LastBit(y % 2, Low(y / 2, k - 1));
      AndStep(Low(x, k), Low(y, k));
      DoubleTimes(Pow2(k - 1), And(High(x, k), High(y, k)));
    }
  }

  /** Or-ing in bits above the highest bit of `a` adds them. */
  lemma {:induction false} OrDisjoint(a: nat, b: nat, k: nat)
    requires High(a, k) == 0 && Low(b, k) == 0
    ensures Or(a, b) == a + b
  {
    if k == 0 {
      OrZero(b);
    } else {
      OrDisjoint(a / 2, b / 2, k - 1);
      OrStep(a, b);
    }
  }

  lemma XorZero(x: nat)
    ensures XorBits(x, 0) == x
  {
  }

  lemma XorStep(x: nat, y: nat)
    ensures XorBits(x, y) == (if x % 2 != y % 2 then 1 else 0) + 2 * XorBits(x / 2, y / 2)
  {
  }

  lemma LastBit(b: nat, t: nat)
    requires b < 2
    ensures (b + 2 * t) % 2 == b && (b + 2 * t) / 2 == t
  {
  }

  lemma {:induction false} XorCancel(x: nat, y: nat)
    ensures XorBits(x, XorBits(x, y)) == y && XorBits(y, XorBits(x, y)) == x
    decreases x + y
  {
    if x > 0 || y > 0 {
      hide XorBits;
      XorCancel(x / 2, y / 2);
      XorStep(x, y);
      LastBit(if x % 2 != y % 2 then 1 else 0, XorBits(x / 2, y / 2));
      XorStep(x, XorBits(x, y));
      XorStep(y, XorBits(x, y));
    }
  }

  lemma {:induction false} XorBound(x: nat, y: nat, k: nat)
    requires x < Pow2(k) && y < Pow2(k)
    ensures XorBits(x, y) < Pow2(k)
  {
    if k > 0 {
      XorBound(x / 2, y / 2, k - 1);
    }
  }

  lemma {:induction false} XorCommutes(x: nat, y: nat)
    ensures XorBits(x, y) == XorBits(y, x)
    decreases x + y
  {
    if x > 0 || y > 0 {
      XorCommutes(x / 2, y / 2);
    }
  }

  lemma {:induction false} OrCommutes(x: nat, y: nat)
    ensures Or(x, y) == Or(y, x)
    decreases x + y
  {
    if x > 0 || y > 0 {
      OrCommutes(x / 2, y / 2);
    }
  }

  lemma AndZero(c: nat)
    ensures And(c, 0) == 0
  {
  }

  lemma Pow2At24()
    ensures Pow2(24) == 0x100_0000
  {
    assert Pow2(8) == 0x100;
    assert Pow2(16) == 0x1_0000;
  }
}
