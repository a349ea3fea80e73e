/** The ten-limb field arithmetic of curve25519.c, modulo 2^255 - 19. */
module FieldLimbs {
  import opened Arith
  import opened WordOps

  const P: nat := 0x7fff_ffff_ffff_ffff_ffff_ffff_ffff_ffff_ffff_ffff_ffff_ffff_ffff_ffff_ffff_ffed    // 2^255 - 19
  const M26: nat := 0x400_0000
  const M25: nat := 0x200_0000

  /** Limbs alternate between 26 and 25 bits. */
  datatype Fe = Fe(v0: nat, v1: nat, v2: nat, v3: nat, v4: nat, v5: nat, v6: nat, v7: nat, v8: nat, v9: nat)

  function Value(f: Fe): nat {
    f.v0 + 0x400_0000 * (f.v1 + 0x200_0000 * (f.v2 + 0x400_0000 * (f.v3 + 0x200_0000 * (f.v4
    + 0x400_0000 * (f.v5 + 0x200_0000 * (f.v6 + 0x400_0000 * (f.v7 + 0x200_0000 * (f.v8
    + 0x400_0000 * f.v9))))))))
  }

  const TIGHT26: nat := 0x480_0000    // 1.125 * 2^26
  const TIGHT25: nat := 0x240_0000    // 1.125 * 2^25
  const LOOSE26: nat := 0xd80_0000    // 3.375 * 2^26
  const LOOSE25: nat := 0x6c0_0000    // 3.375 * 2^25

  ghost predicate Within(f: Fe, even: nat, odd: nat) {
    && f.v0 <= even && f.v2 <= even && f.v4 <= even && f.v6 <= even && f.v8 <= even
    && f.v1 <= odd && f.v3 <= odd && f.v5 <= odd && f.v7 <= odd && f.v9 <= odd
  }

  /** What multiplication and carrying produce. */
  ghost predicate Tight(f: Fe) { Within(f, TIGHT26, TIGHT25) }

  /** What addition and subtraction produce, and multiplication accepts. */
  ghost predicate Loose(f: Fe) { Within(f, LOOSE26, LOOSE25) }

  lemma TightIsLoose(f: Fe)
    requires Tight(f)
    ensures Loose(f)
  {
  }

  // ---------- addition and subtraction ----------

  function Add(f: Fe, g: Fe): Fe {
    Wrapped(Fe(f.v0 + g.v0, f.v1 + g.v1, f.v2 + g.v2, f.v3 + g.v3, f.v4 + g.v4,
               f.v5 + g.v5, f.v6 + g.v6, f.v7 + g.v7, f.v8 + g.v8, f.v9 + g.v9), W32)
  }

  function Wrapped(s: Fe, w: nat): Fe
    requires w > 0
  {
    Fe(Wrap(s.v0, w), Wrap(s.v1, w), Wrap(s.v2, w), Wrap(s.v3, w), Wrap(s.v4, w),
       Wrap(s.v5, w), Wrap(s.v6, w), Wrap(s.v7, w), Wrap(s.v8, w), Wrap(s.v9, w))
  }

  lemma NoneWraps(s: Fe, even: nat, odd: nat, w: nat)
    requires Within(s, even, odd) && even < w && odd < w
    ensures Wrapped(s, w) == s
  {
    hide Wrap;
    NoWrap(s.v0, w);
    NoWrap(s.v1, w);
    NoWrap(s.v2, w);
    NoWrap(s.v3, w);
    NoWrap(s.v4, w);
    NoWrap(s.v5, w);
    NoWrap(s.v6, w);
    NoWrap(s.v7, w);
    NoWrap(s.v8, w);
    NoWrap(s.v9, w);
  }

  lemma AddValue(f: Fe, g: Fe)
    requires Tight(f) && Tight(g)
    ensures Loose(Add(f, g)) && Value(Add(f, g)) == Value(f) + Value(g)
  {
    hide Wrapped;
    NoneWraps(Fe(f.v0 + g.v0, f.v1 + g.v1, f.v2 + g.v2, f.v3 + g.v3, f.v4 + g.v4,
                 f.v5 + g.v5, f.v6 + g.v6, f.v7 + g.v7, f.v8 + g.v8, f.v9 + g.v9), LOOSE26, LOOSE25, W32);
  }

  /** Twice the modulus is added first, so that no limb goes below zero. */
  function Sub(f: Fe, g: Fe): Fe {
    Fe(Less(0x7ff_ffda, f.v0, g.v0), Less(0x3ff_fffe, f.v1, g.v1), Less(0x7ff_fffe, f.v2, g.v2),
       Less(0x3ff_fffe, f.v3, g.v3), Less(0x7ff_fffe, f.v4, g.v4), Less(0x3ff_fffe, f.v5, g.v5),
       Less(0x7ff_fffe, f.v6, g.v6), Less(0x3ff_fffe, f.v7, g.v7), Less(0x7ff_fffe, f.v8, g.v8),
       Less(0x3ff_fffe, f.v9, g.v9))
  }

  /** c + a - b in 32 bits */
  function Less(c: nat, a: nat, b: nat): nat {
    Wrap(c + a + W32 - Wrap(b, W32), W32)
  }

  lemma SubLimb(c: nat, a: nat, b: nat)
    requires b <= c + a < W32
    ensures Less(c, a, b) == c + a - b
  {
    NoWrap(b, W32);
    DivModUnique(c + a + W32 - b, 1, W32, c + a - b);
  }

  lemma SubValue(f: Fe, g: Fe)
    requires Tight(f) && Tight(g)
    ensures Loose(Sub(f, g)) && Value(Sub(f, g)) == Value(f) - Value(g) + 2 * P
  {
    hide Less;
    SubLimb(0x7ff_ffda, f.v0, g.v0);
    SubLimb(0x3ff_fffe, f.v1, g.v1);
    SubLimb(0x7ff_fffe, f.v2, g.v2);
    SubLimb(0x3ff_fffe, f.v3, g.v3);
    SubLimb(0x7ff_fffe, f.v4, g.v4);
    SubLimb(0x3ff_fffe, f.v5, g.v5);
    SubLimb(0x7ff_fffe, f.v6, g.v6);
    SubLimb(0x3ff_fffe, f.v7, g.v7);
    SubLimb(0x7ff_fffe, f.v8, g.v8);
    SubLimb(0x3ff_fffe, f.v9, g.v9);
  }

  // ---------- multiplication ----------

  /** A number whose part from bit 255 on is `hi`. */
  function Above255(lo: nat, hi: nat): nat {
    lo + 0x8000_0000_0000_0000_0000_0000_0000_0000_0000_0000_0000_0000_0000_0000_0000_0000 * hi
  }

  /** The sums of products of weight up to 2^230, and those of weight 2^255 and up. */
  function LowSums(f: Fe, g: Fe): Fe {
    Fe(Mul(f.v0, g.v0),
       Mul(f.v0, g.v1) + Mul(f.v1, g.v0),
       2 * Mul(f.v1, g.v1) + Mul(f.v0, g.v2) + Mul(f.v2, g.v0),
       Mul(f.v0, g.v3) + Mul(f.v1, g.v2) + Mul(f.v2, g.v1) + Mul(f.v3, g.v0),
       2 * (Mul(f.v1, g.v3) + Mul(f.v3, g.v1)) + Mul(f.v0, g.v4) + Mul(f.v2, g.v2) + Mul(f.v4, g.v0),
       Mul(f.v0, g.v5) + Mul(f.v1, g.v4) + Mul(f.v2, g.v3) + Mul(f.v3, g.v2) + Mul(f.v4, g.v1) + Mul(f.v5, g.v0),
       2 * (Mul(f.v1, g.v5) + Mul(f.v3, g.v3) + Mul(f.v5, g.v1))
       + Mul(f.v0, g.v6) + Mul(f.v2, g.v4) + Mul(f.v4, g.v2) + Mul(f.v6, g.v0),
       Mul(f.v0, g.v7) + Mul(f.v1, g.v6) + Mul(f.v2, g.v5) + Mul(f.v3, g.v4)
       + Mul(f.v4, g.v3) + Mul(f.v5, g.v2) + Mul(f.v6, g.v1) + Mul(f.v7, g.v0),
       2 * (Mul(f.v1, g.v7) + Mul(f.v3, g.v5) + Mul(f.v5, g.v3) + Mul(f.v7, g.v1))
       + Mul(f.v0, g.v8) + Mul(f.v2, g.v6) + Mul(f.v4, g.v4) + Mul(f.v6, g.v2) + Mul(f.v8, g.v0),
       Mul(f.v0, g.v9) + Mul(f.v1, g.v8) + Mul(f.v2, g.v7) + Mul(f.v3, g.v6) + Mul(f.v4, g.v5)
       + Mul(f.v5, g.v4) + Mul(f.v6, g.v3) + Mul(f.v7, g.v2) + Mul(f.v8, g.v1) + Mul(f.v9, g.v0))
  }

  function HighSums(f: Fe, g: Fe): Fe {
    Fe(2 * (Mul(f.v1, g.v9) + Mul(f.v3, g.v7) + Mul(f.v5, g.v5) + Mul(f.v7, g.v3) + Mul(f.v9, g.v1))
       + Mul(f.v2, g.v8) + Mul(f.v4, g.v6) + Mul(f.v6, g.v4) + Mul(f.v8, g.v2),
       Mul(f.v2, g.v9) + Mul(f.v3, g.v8) + Mul(f.v4, g.v7) + Mul(f.v5, g.v6)
       + Mul(f.v6, g.v5) + Mul(f.v7, g.v4) + Mul(f.v8, g.v3) + Mul(f.v9, g.v2),
       2 * (Mul(f.v3, g.v9) + Mul(f.v5, g.v7) + Mul(f.v7, g.v5) + Mul(f.v9, g.v3))
       + Mul(f.v4, g.v8) + Mul(f.v6, g.v6) + Mul(f.v8, g.v4),
       Mul(f.v4, g.v9) + Mul(f.v5, g.v8) + Mul(f.v6, g.v7) + Mul(f.v7, g.v6) + Mul(f.v8, g.v5) + Mul(f.v9, g.v4),
       2 * (Mul(f.v5, g.v9) + Mul(f.v7, g.v7) + Mul(f.v9, g.v5)) + Mul(f.v6, g.v8) + Mul(f.v8, g.v6),
       Mul(f.v6, g.v9) + Mul(f.v7, g.v8) + Mul(f.v8, g.v7) + Mul(f.v9, g.v6),
       2 * (Mul(f.v7, g.v9) + Mul(f.v9, g.v7)) + Mul(f.v8, g.v8),
       Mul(f.v8, g.v9) + Mul(f.v9, g.v8),
       2 * Mul(f.v9, g.v9),
       0)
  }

  /** 2^255 is 19 modulo P; lines 382-408 multiply by 19 with shifts. */
  function Fold(lo: Fe, hi: Fe): Fe {
    Fe(lo.v0 + 19 * hi.v0, lo.v1 + 19 * hi.v1, lo.v2 + 19 * hi.v2, lo.v3 + 19 * hi.v3, lo.v4 + 19 * hi.v4,
       lo.v5 + 19 * hi.v5, lo.v6 + 19 * hi.v6, lo.v7 + 19 * hi.v7, lo.v8 + 19 * hi.v8, lo.v9 + 19 * hi.v9)
  }

  /** Some doublings are done on 32-bit words, before the multiplication. */
  function Times(n: nat, x: nat): nat { Wrap(n * x, W32) }

  /** Sums of products in 64-bit arithmetic, in which wrapping early or late is the same. */
  function Sums(f: Fe, g: Fe): Fe {
    var lo := LowSums(f, g).(v2 := Mul(f.v1, Times(2, g.v1)) + Mul(f.v0, g.v2) + Mul(f.v2, g.v0));
    var hi := HighSums(f, g).(v8 := Mul(f.v9, Times(2, g.v9)));
    Wrapped(Fold(lo, hi), W64)
  }

  lemma RowBounds(a: nat, g: Fe, even: bool)
    requires a <= (if even then LOOSE26 else LOOSE25) && Loose(g)
    ensures var b := if even then 4 * UNIT else 2 * UNIT;
            && Mul(a, g.v0) <= b && Mul(a, g.v2) <= b && Mul(a, g.v4) <= b && Mul(a, g.v6) <= b && Mul(a, g.v8) <= b
            && 2 * Mul(a, g.v1) <= b && 2 * Mul(a, g.v3) <= b && 2 * Mul(a, g.v5) <= b && 2 * Mul(a, g.v7) <= b
            && 2 * Mul(a, g.v9) <= b
  {
    MulMonotone(a, g.v0, if even then LOOSE26 else LOOSE25, LOOSE26);
    MulMonotone(a, g.v1, if even then LOOSE26 else LOOSE25, LOOSE25);
    MulMonotone(a, g.v2, if even then LOOSE26 else LOOSE25, LOOSE26);
    MulMonotone(a, g.v3, if even then LOOSE26 else LOOSE25, LOOSE25);
    MulMonotone(a, g.v4, if even then LOOSE26 else LOOSE25, LOOSE26);
    MulMonotone(a, g.v5, if even then LOOSE26 else LOOSE25, LOOSE25);
    MulMonotone(a, g.v6, if even then LOOSE26 else LOOSE25, LOOSE26);
    MulMonotone(a, g.v7, if even then LOOSE26 else LOOSE25, LOOSE25);
    MulMonotone(a, g.v8, if even then LOOSE26 else LOOSE25, LOOSE26);
    MulMonotone(a, g.v9, if even then LOOSE26 else LOOSE25, LOOSE25);
  }

  const UNIT: nat := 0x2d_9000_0000_0000    // (3.375 * 2^25)^2

  lemma TimesExact(a: nat, n: nat, x: nat)
    requires x <= LOOSE26 && n <= 4
    ensures Mul(a, Times(n, x)) == n * Mul(a, x)
  {
    NoWrap(n * x, W32);
    assert a * (n * x) == n * (a * x);
  }

  /** No sum of products of loose limbs reaches 2^63. */
  lemma SumsExact(f: Fe, g: Fe)
    requires Loose(f) && Loose(g)
    ensures var s := Fold(LowSums(f, g), HighSums(f, g));
            Sums(f, g) == s && Bounded(s)
  {
    hide Mul, Wrapped, Times;
    TimesExact(f.v1, 2, g.v1);
    TimesExact(f.v9, 2, g.v9);
    RowBounds(f.v0, g, true);
    RowBounds(f.v1, g, false);
    RowBounds(f.v2, g, true);
    RowBounds(f.v3, g, false);
    RowBounds(f.v4, g, true);
    RowBounds(f.v5, g, false);
    RowBounds(f.v6, g, true);
    RowBounds(f.v7, g, false);
    RowBounds(f.v8, g, true);
    RowBounds(f.v9, g, false);
    NoneWraps(Fold(LowSums(f, g), HighSums(f, g)), BELOW63, BELOW63, W64);
  }

  const BELOW63: nat := 0x7fff_feff_ffff_ffff

  /** What the carries can take. */
  ghost predicate Bounded(s: Fe) { Within(s, BELOW63, BELOW63) }

  /** Five digits to the base 2^51, as the limbs of even or of odd number are, and the nine of a product. */
  datatype Five = Five(a: nat, b: nat, c: nat, d: nat, e: nat)
  datatype Nine = Nine(c0: nat, c1: nat, c2: nat, c3: nat, c4: nat, c5: nat, c6: nat, c7: nat, c8: nat)

  function Above(lo: nat, hi: nat): nat { lo + 0x8_0000_0000_0000 * hi }

  function Num5(x: Five): nat {
    Above(x.a, Above(x.b, Above(x.c, Above(x.d, x.e))))
  }

  function Num9(c: Nine): nat {
    Above(c.c0, Above(c.c1, Above(c.c2, Above(c.c3, Above(c.c4, Above(c.c5, Above(c.c6, Above(c.c7, c.c8))))))))
  }

  /** The products of two digits each, by the weight they have. */
  function Products(x: Five, y: Five): Nine {
    Nine(Mul(x.a, y.a),
         Mul(x.a, y.b) + Mul(x.b, y.a),
         Mul(x.a, y.c) + Mul(x.b, y.b) + Mul(x.c, y.a),
         Mul(x.a, y.d) + Mul(x.b, y.c) + Mul(x.c, y.b) + Mul(x.d, y.a),
         Mul(x.a, y.e) + Mul(x.b, y.d) + Mul(x.c, y.c) + Mul(x.d, y.b) + Mul(x.e, y.a),
         Mul(x.b, y.e) + Mul(x.c, y.d) + Mul(x.d, y.c) + Mul(x.e, y.b),
         Mul(x.c, y.e) + Mul(x.d, y.d) + Mul(x.e, y.c),
         Mul(x.d, y.e) + Mul(x.e, y.d),
         Mul(x.e, y.e))
  }

  function Scaled(x: Five, n: nat): Five {
    Five(Mul(x.a, n), Mul(x.b, n), Mul(x.c, n), Mul(x.d, n), Mul(x.e, n))
  }

  lemma ScaledDigit(x: nat, y: nat, n: nat)
    ensures Mul(Above(x, y), n) == Above(Mul(x, n), Mul(y, n))
  {
    var y': int := 0x8_0000_0000_0000 * y;
    assert (x + y') * n == x * n + y' * n;
    assert y' * n == 0x8_0000_0000_0000 * (y * n);
  }

  lemma ScaledValue(x: Five, n: nat)
    ensures Mul(Num5(x), n) == Num5(Scaled(x, n))
  {
    hide Mul, Above;
    ScaledDigit(x.d, x.e, n);
    ScaledDigit(x.c, Above(x.d, x.e), n);
    ScaledDigit(x.b, Above(x.c, Above(x.d, x.e)), n);
    ScaledDigit(x.a, Above(x.b, Above(x.c, Above(x.d, x.e))), n);
  }

  lemma MulCommutes(a: nat, b: nat)
    ensures Mul(a, b) == Mul(b, a)
  {
  }

  /** Multiplying digit by digit gives the product. */
  lemma ProductsValue(x: Five, y: Five)
    ensures Mul(Num5(x), Num5(y)) == Num9(Products(x, y))
  {
    hide Mul, Num5;
    var n := Num5(x);
    MulCommutes(n, Num5(y));
    ScaledValue(y, n);
    MulCommutes(y.a, n);
    MulCommutes(y.b, n);
    MulCommutes(y.c, n);
    MulCommutes(y.d, n);
    MulCommutes(y.e, n);
    ScaledValue(x, y.a);
    ScaledValue(x, y.b);
    ScaledValue(x, y.c);
    ScaledValue(x, y.d);
    ScaledValue(x, y.e);
    RowsToColumns(x, y);
  }

  lemma RowsToColumns(x: Five, y: Five)
    ensures Num5(Five(Num5(Scaled(x, y.a)), Num5(Scaled(x, y.b)), Num5(Scaled(x, y.c)), Num5(Scaled(x, y.d)),
                      Num5(Scaled(x, y.e)))) == Num9(Products(x, y))
  {
    hide Mul;
  }

  function Evens(f: Fe): Five { Five(f.v0, f.v2, f.v4, f.v6, f.v8) }

  function Odds(f: Fe): Five { Five(f.v1, f.v3, f.v5, f.v7, f.v9) }

  lemma ByParity(f: Fe)
    ensures Value(f) == Num5(Evens(f)) + 0x400_0000 * Num5(Odds(f))
  {
  }

  /** Two odd limbs have one bit more of weight between them than the digits do. */
  lemma ProductByParity(f: Fe, g: Fe)
    ensures Value(f) * Value(g)
         == Num9(Products(Evens(f), Evens(g))) + 0x10_0000_0000_0000 * Num9(Products(Odds(f), Odds(g)))
            + 0x400_0000 * (Num9(Products(Evens(f), Odds(g))) + Num9(Products(Odds(f), Evens(g))))
  {
    hide Value, Num5, Num9, Products, Evens, Odds, Mul;
    ByParity(f);
    ByParity(g);
    ProductsValue(Evens(f), Evens(g));
    ProductsValue(Evens(f), Odds(g));
    ProductsValue(Odds(f), Evens(g));
    ProductsValue(Odds(f), Odds(g));
    FourProducts(Num5(Evens(f)), Num5(Odds(f)), Num5(Evens(g)), Num5(Odds(g)));
  }

  lemma FourProducts(a: nat, b: nat, c: nat, d: nat)
    ensures (a + 0x400_0000 * b) * (c + 0x400_0000 * d)
         == Mul(a, c) + 0x10_0000_0000_0000 * Mul(b, d) + 0x400_0000 * (Mul(a, d) + Mul(b, c))
  {
    var m: int := 0x400_0000;
    var d' := m * d;
    assert (a + m * b) * (c + d') == a * c + a * d' + (m * b) * c + (m * b) * d';
    assert a * d' == m * (a * d);
    assert (m * b) * d' == m * m * (b * d);
  }

  /** The sums of the code are those products by weight. */
  lemma SumsByParity(f: Fe, g: Fe)
    ensures Above255(Value(LowSums(f, g)), Value(HighSums(f, g)))
         == Num9(Products(Evens(f), Evens(g))) + 0x10_0000_0000_0000 * Num9(Products(Odds(f), Odds(g)))
            + 0x400_0000 * (Num9(Products(Evens(f), Odds(g))) + Num9(Products(Odds(f), Evens(g))))
  {
    hide Mul, Value, LowSums, HighSums, Num9, Products;
    var lo, hi := LowSums(f, g), HighSums(f, g);
    ByParity(lo);
    ByParity(hi);
    EvenSums(f, g);
    OddSums(f, g);
  }

  lemma EvenColumns(f: Fe, g: Fe)
    ensures var lo, a, b := LowSums(f, g), Products(Evens(f), Evens(g)), Products(Odds(f), Odds(g));
            && lo.v0 == a.c0 && lo.v2 == a.c1 + 2 * b.c0 && lo.v4 == a.c2 + 2 * b.c1 && lo.v6 == a.c3 + 2 * b.c2
            && lo.v8 == a.c4 + 2 * b.c3
    ensures var hi, a, b := HighSums(f, g), Products(Evens(f), Evens(g)), Products(Odds(f), Odds(g));
            && hi.v0 == a.c5 + 2 * b.c4 && hi.v2 == a.c6 + 2 * b.c5 && hi.v4 == a.c7 + 2 * b.c6
            && hi.v6 == a.c8 + 2 * b.c7 && hi.v8 == 2 * b.c8
  {
    hide Mul;
  }

  lemma OddColumns(f: Fe, g: Fe)
    ensures var lo, a, b := LowSums(f, g), Products(Evens(f), Odds(g)), Products(Odds(f), Evens(g));
            && lo.v1 == a.c0 + b.c0 && lo.v3 == a.c1 + b.c1 && lo.v5 == a.c2 + b.c2 && lo.v7 == a.c3 + b.c3
            && lo.v9 == a.c4 + b.c4
    ensures var hi, a, b := HighSums(f, g), Products(Evens(f), Odds(g)), Products(Odds(f), Evens(g));
            && hi.v1 == a.c5 + b.c5 && hi.v3 == a.c6 + b.c6 && hi.v5 == a.c7 + b.c7 && hi.v7 == a.c8 + b.c8
            && hi.v9 == 0
  {
    hide Mul;
  }

  lemma EvenSums(f: Fe, g: Fe)
    ensures Above255(Num5(Evens(LowSums(f, g))), Num5(Evens(HighSums(f, g))))
         == Num9(Products(Evens(f), Evens(g)))
            + 0x10_0000_0000_0000 * Num9(Products(Odds(f), Odds(g)))
  {
    hide LowSums, HighSums, Products;
    EvenColumns(f, g);
  }

  lemma OddSums(f: Fe, g: Fe)
    ensures Above255(Num5(Odds(LowSums(f, g))), Num5(Odds(HighSums(f, g))))
         == Num9(Products(Evens(f), Odds(g))) + Num9(Products(Odds(f), Evens(g)))
  {
    hide LowSums, HighSums, Products;
    OddColumns(f, g);
  }

  /** The sums represent the product of the two numbers, up to multiples of P. */
  lemma SumsAreProduct(f: Fe, g: Fe)
    ensures Value(f) * Value(g) == Value(Fold(LowSums(f, g), HighSums(f, g))) + P * Value(HighSums(f, g))
  {
    hide Mul, Value, LowSums, HighSums, Fold, Num9, Products;
    ProductByParity(f, g);
    SumsByParity(f, g);
    FoldValue(LowSums(f, g), HighSums(f, g));
  }

  lemma FoldValue(lo: Fe, hi: Fe)
    ensures Value(Fold(lo, hi)) + P * Value(hi) == Above255(Value(lo), Value(hi))
  {
  }

  // ---------- carrying ----------

  /** The low bits of a 64-bit sum, cut to 32 bits first. */
  function Part(x: nat, m: nat): nat
    requires m > 0
  {
    Wrap(Wrap(x, W32), m)
  }

  lemma PartSplits(x: nat, m: nat)
    requires m == M26 || m == M25
    ensures x == m * Shr(x, m) + Part(x, m) && Part(x, m) < m
  {
    var q, r := x / W32, x % W32;
    DivModUnique(x, q * (W32 / m) + r / m, m, r % m);
  }

  /** Lines 409-453: the running sums, each with the carry of the one before. */
  function Running(s: Fe): Fe {
    var r1 := Wrap(Shr(s.v0, M26) + s.v1, W64);
    var r2 := Wrap(Shr(r1, M25) + s.v2, W64);
    var r3 := Wrap(Shr(r2, M26) + s.v3, W64);
    var r4 := Wrap(Shr(r3, M25) + s.v4, W64);
    var r5 := Wrap(Shr(r4, M26) + s.v5, W64);
    var r6 := Wrap(Shr(r5, M25) + s.v6, W64);
    var r7 := Wrap(Shr(r6, M26) + s.v7, W64);
    var r8 := Wrap(Shr(r7, M25) + s.v8, W64);
    Fe(s.v0, r1, r2, r3, r4, r5, r6, r7, r8, Wrap(Shr(r8, M26) + s.v9, W64))
  }

  /** What each leaves behind. */
  function Parts(r: Fe): Fe {
    Fe(Part(r.v0, M26), Part(r.v1, M25), Part(r.v2, M26), Part(r.v3, M25), Part(r.v4, M26),
       Part(r.v5, M25), Part(r.v6, M26), Part(r.v7, M25), Part(r.v8, M26), Part(r.v9, M25))
  }

  /** The last carry folded back into the first limbs. */
  function FoldCarry(t: Fe, carry: nat): Fe {
    var a := Wrap(t.v0 + Wrap(19 * carry, W64), W64);
    var u := Wrap(Wrap(Shr(a, M26), W32) + t.v1, W32);
    t.(v0 := Part(a, M26), v1 := Part(u, M25), v2 := Wrap(Shr(u, M25) + t.v2, W32))
  }

  function TopCarry(s: Fe): nat { Shr(Running(s).v9, M25) }

  function Carry(s: Fe): Fe {
    FoldCarry(Parts(Running(s)), TopCarry(s))
  }

  const SMALL_CARRY: nat := 0x40_0000_0000

  /** A running sum does not wrap, and its carry is small. */
  lemma RunningStep(c: nat, x: nat, m: nat)
    requires x <= BELOW63 && c <= SMALL_CARRY && (m == M26 || m == M25)
    ensures Wrap(c + x, W64) == c + x && Shr(c + x, m) <= SMALL_CARRY
  {
    NoWrap(c + x, W64);
  }

  lemma RunningExact(s: Fe)
    requires Bounded(s)
    ensures var r := Running(s);
            && r.v0 == s.v0
            && r.v1 == Shr(r.v0, M26) + s.v1 && r.v2 == Shr(r.v1, M25) + s.v2 && r.v3 == Shr(r.v2, M26) + s.v3
            && r.v4 == Shr(r.v3, M25) + s.v4 && r.v5 == Shr(r.v4, M26) + s.v5 && r.v6 == Shr(r.v5, M25) + s.v6
            && r.v7 == Shr(r.v6, M26) + s.v7 && r.v8 == Shr(r.v7, M25) + s.v8 && r.v9 == Shr(r.v8, M26) + s.v9
    ensures TopCarry(s) <= SMALL_CARRY
  {
    hide Wrap, Shr;
    var r := Running(s);
    RunningStep(0, s.v0, M26);
    RunningStep(Shr(r.v0, M26), s.v1, M25);
    RunningStep(Shr(r.v1, M25), s.v2, M26);
    RunningStep(Shr(r.v2, M26), s.v3, M25);
    RunningStep(Shr(r.v3, M25), s.v4, M26);
    RunningStep(Shr(r.v4, M26), s.v5, M25);
    RunningStep(Shr(r.v5, M25), s.v6, M26);
    RunningStep(Shr(r.v6, M26), s.v7, M25);
    RunningStep(Shr(r.v7, M25), s.v8, M26);
    RunningStep(Shr(r.v8, M26), s.v9, M25);
  }

  /** Cutting a running sum in two: x is the carry out times m, and the part. */
  lemma PartsValue(s: Fe)
    requires Bounded(s)
    ensures Tight(Parts(Running(s))) && Within(Parts(Running(s)), M26 - 1, M25 - 1)
    ensures Value(s) == Above255(Value(Parts(Running(s))), TopCarry(s))
  {
    hide Wrap, Shr, Part, Running;
    var r := Running(s);
    RunningExact(s);
    PartSplits(r.v0, M26);
    PartSplits(r.v1, M25);
    PartSplits(r.v2, M26);
    PartSplits(r.v3, M25);
    PartSplits(r.v4, M26);
    PartSplits(r.v5, M25);
    PartSplits(r.v6, M26);
    PartSplits(r.v7, M25);
    PartSplits(r.v8, M26);
    PartSplits(r.v9, M25);
  }

  lemma FoldCarryValue(t: Fe, carry: nat)
    requires Within(t, M26 - 1, M25 - 1) && carry <= SMALL_CARRY
    ensures Tight(FoldCarry(t, carry)) && Value(FoldCarry(t, carry)) == Value(t) + 19 * carry
  {
    hide Wrap, Shr, Part;
    NoWrap(19 * carry, W64);
    var a := t.v0 + 19 * carry;
    NoWrap(a, W64);
    PartSplits(a, M26);
    NoWrap(Shr(a, M26), W32);
    var u := Shr(a, M26) + t.v1;
    NoWrap(u, W32);
    PartSplits(u, M25);
    NoWrap(Shr(u, M25) + t.v2, W32);
  }

  /** The carries lose only multiples of P, never wrap, and leave tight limbs. */
  lemma CarryValue(s: Fe)
    requires Bounded(s)
    ensures Tight(Carry(s)) && Value(s) == Value(Carry(s)) + P * TopCarry(s)
  {
    hide Tight, Bounded, Running, Parts, FoldCarry, Value;
    RunningExact(s);
    PartsValue(s);
    FoldCarryValue(Parts(Running(s)), TopCarry(s));
  }

  // ---------- the field operations ----------

  /** fe_mul_impl */
  function FeMul(f: Fe, g: Fe): Fe {
    Carry(Sums(f, g))
  }

  ghost predicate Same(x: int, y: int) { x % P == y % P }

  lemma SameByMultiple(x: int, y: int, k: int)
    requires x == y + P * k
    ensures Same(x, y)
  {
    ModMultiple(y, k, P);
  }

  /** For all loose inputs: no overflow, tight limbs, and the product modulo P. */
  lemma FeMulIsProduct(f: Fe, g: Fe)
    requires Loose(f) && Loose(g)
    ensures Tight(FeMul(f, g)) && Same(Value(FeMul(f, g)), Value(f) * Value(g))
  {
    hide Loose, Tight, Bounded, Sums, Fold, LowSums, HighSums, Carry, TopCarry, Value, Same;
    var s := Fold(LowSums(f, g), HighSums(f, g));
    SumsExact(f, g);
    SumsAreProduct(f, g);
    CarryValue(s);
    SameByMultiple(Value(f) * Value(g), Value(FeMul(f, g)), TopCarry(s) + Value(HighSums(f, g)));
    SameSymmetric(Value(f) * Value(g), Value(FeMul(f, g)));
  }

  lemma SameSymmetric(x: int, y: int)
    requires Same(x, y)
    ensures Same(y, x)
  {
  }

  /** fe_mul_121666_impl, which is fe_mul_impl with the second operand 121666. */
  function FeMul121666(f: Fe): Fe {
    FeMul(f, Fe(121666, 0, 0, 0, 0, 0, 0, 0, 0, 0))
  }

  lemma FeMul121666IsMultiple(f: Fe)
    requires Loose(f)
    ensures Tight(FeMul121666(f)) && Same(Value(FeMul121666(f)), 121666 * Value(f))
  {
    hide FeMul, Same;
    var g := Fe(121666, 0, 0, 0, 0, 0, 0, 0, 0, 0);
    assert Value(g) == 121666;
    FeMulIsProduct(f, g);
  }

  // ---------- squaring ----------

  /** Lines 484-502: each product of two different limbs is taken once and doubled. */
  function SquareLow(f: Fe): Fe {
    Fe(Mul(f.v0, f.v0),
       Mul(f.v1, Times(2, f.v0)),
       2 * (Mul(f.v1, f.v1) + Mul(f.v0, f.v2)),
       2 * (Mul(f.v1, f.v2) + Mul(f.v0, f.v3)),
       Mul(f.v2, f.v2) + Mul(f.v3, Times(4, f.v1)) + Mul(f.v4, Times(2, f.v0)),
       2 * (Mul(f.v2, f.v3) + Mul(f.v1, f.v4) + Mul(f.v0, f.v5)),
       2 * (Mul(f.v3, f.v3) + Mul(f.v2, f.v4) + Mul(f.v0, f.v6) + Mul(f.v5, Times(2, f.v1))),
       2 * (Mul(f.v3, f.v4) + Mul(f.v2, f.v5) + Mul(f.v1, f.v6) + Mul(f.v0, f.v7)),
       Mul(f.v4, f.v4) + 2 * (Mul(f.v2, f.v6) + Mul(f.v0, f.v8) + 2 * (Mul(f.v1, f.v7) + Mul(f.v3, f.v5))),
       2 * (Mul(f.v4, f.v5) + Mul(f.v3, f.v6) + Mul(f.v2, f.v7) + Mul(f.v1, f.v8) + Mul(f.v0, f.v9)))
  }

  function SquareHigh(f: Fe): Fe {
    Fe(2 * (Mul(f.v5, f.v5) + Mul(f.v4, f.v6) + Mul(f.v2, f.v8) + 2 * (Mul(f.v3, f.v7) + Mul(f.v1, f.v9))),
       2 * (Mul(f.v5, f.v6) + Mul(f.v4, f.v7) + Mul(f.v3, f.v8) + Mul(f.v2, f.v9)),
       Mul(f.v6, f.v6) + 2 * (Mul(f.v4, f.v8) + 2 * (Mul(f.v5, f.v7) + Mul(f.v3, f.v9))),
       2 * (Mul(f.v6, f.v7) + Mul(f.v5, f.v8) + Mul(f.v4, f.v9)),
       2 * (Mul(f.v7, f.v7) + Mul(f.v6, f.v8) + Mul(f.v9, Times(2, f.v5))),
       2 * (Mul(f.v7, f.v8) + Mul(f.v6, f.v9)),
       Mul(f.v8, f.v8) + Mul(f.v9, Times(4, f.v7)),
       Mul(f.v9, Times(2, f.v8)),
       Mul(f.v9, Times(2, f.v9)),
       0)
  }

  /** fe_sqr_impl */
  function FeSqr(f: Fe): Fe {
    Carry(Wrapped(Fold(SquareLow(f), SquareHigh(f)), W64))
  }

  lemma SquareSums(f: Fe)
    requires Loose(f)
    ensures SquareLow(f) == LowSums(f, f) && SquareHigh(f) == HighSums(f, f)
  {
    hide Mul, Times;
    MulCommutes(f.v0, f.v1); MulCommutes(f.v0, f.v2); MulCommutes(f.v0, f.v3); MulCommutes(f.v0, f.v4);
    MulCommutes(f.v0, f.v5); MulCommutes(f.v0, f.v6); MulCommutes(f.v0, f.v7); MulCommutes(f.v0, f.v8);
    MulCommutes(f.v0, f.v9);
    MulCommutes(f.v1, f.v2); MulCommutes(f.v1, f.v3); MulCommutes(f.v1, f.v4); MulCommutes(f.v1, f.v5);
    MulCommutes(f.v1, f.v6); MulCommutes(f.v1, f.v7); MulCommutes(f.v1, f.v8); MulCommutes(f.v1, f.v9);
    MulCommutes(f.v2, f.v3); MulCommutes(f.v2, f.v4); MulCommutes(f.v2, f.v5); MulCommutes(f.v2, f.v6);
    MulCommutes(f.v2, f.v7); MulCommutes(f.v2, f.v8); MulCommutes(f.v2, f.v9);
    MulCommutes(f.v3, f.v4); MulCommutes(f.v3, f.v5); MulCommutes(f.v3, f.v6); MulCommutes(f.v3, f.v7);
    MulCommutes(f.v3, f.v8); MulCommutes(f.v3, f.v9);
    MulCommutes(f.v4, f.v5); MulCommutes(f.v4, f.v6); MulCommutes(f.v4, f.v7); MulCommutes(f.v4, f.v8);
    MulCommutes(f.v4, f.v9);
    MulCommutes(f.v5, f.v6); MulCommutes(f.v5, f.v7); MulCommutes(f.v5, f.v8); MulCommutes(f.v5, f.v9);
    MulCommutes(f.v6, f.v7); MulCommutes(f.v6, f.v8); MulCommutes(f.v6, f.v9);
    MulCommutes(f.v7, f.v8); MulCommutes(f.v7, f.v9);
    MulCommutes(f.v8, f.v9);
    TimesExact(f.v1, 2, f.v0); TimesExact(f.v3, 4, f.v1); TimesExact(f.v4, 2, f.v0); TimesExact(f.v5, 2, f.v1);
    TimesExact(f.v9, 2, f.v5); TimesExact(f.v9, 4, f.v7); TimesExact(f.v9, 2, f.v8); TimesExact(f.v9, 2, f.v9);
  }

  /** The squaring routine computes limb for limb what multiplying the element by itself computes. */
  lemma FeSqrIsFeMul(f: Fe)
    requires Loose(f)
    ensures FeSqr(f) == FeMul(f, f)
  {
    hide Carry, LowSums, HighSums, SquareLow, SquareHigh, Wrapped, Fold;
    SquareSums(f);
    SumsExact(f, f);
    NoneWraps(Fold(LowSums(f, f), HighSums(f, f)), BELOW63, BELOW63, W64);
  }
}
