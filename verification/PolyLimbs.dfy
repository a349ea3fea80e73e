/** The 26-bit limb arithmetic of poly1305.c, with every word operation wrapped explicitly. */
module PolyLimbs {
  import opened Arith
  import opened Bits
  import opened ByteStrings
  import opened LittleEndian
  import opened WordOps

  const P: nat := 0x3_ffff_ffff_ffff_ffff_ffff_ffff_ffff_fffb    // 2^130 - 5
  const M26: nat := 0x400_0000
  const W128: nat := 0x1_0000_0000_0000_0000_0000_0000_0000_0000

  /** An unsigned long has 32 or 64 bits. */
  ghost predicate Word(w: nat) { w == W32 || w == W64 }

  datatype Limbs = Limbs(a0: nat, a1: nat, a2: nat, a3: nat, a4: nat)

  function Above(lo: nat, hi: nat): nat { lo + 0x400_0000 * hi }

  function Value(h: Limbs): nat {
    Above(h.a0, Above(h.a1, Above(h.a2, Above(h.a3, h.a4))))
  }

  /** What every pass of the block loop leaves: all limbs 26 bits, the second with a little slack. */
  ghost predicate Tight(h: Limbs) {
    h.a0 < M26 && h.a1 < M26 + 64 && h.a2 < M26 && h.a3 < M26 && h.a4 < M26
  }

  ghost predicate Loose(h: Limbs) {
    h.a0 < 2 * M26 && h.a1 < 2 * M26 + 64 && h.a2 < 2 * M26 && h.a3 < 2 * M26 && h.a4 < 2 * M26
  }

  ghost predicate Small(r: Limbs) {
    r.a0 < M26 && r.a1 < M26 && r.a2 < M26 && r.a3 < M26 && r.a4 < M26
  }

  /** & 0x3ffffff */
  function Mask(x: nat): nat { x % M26 }

  // ---------- h += m[i] ----------

  function AddBlock(w: nat, h: Limbs, m: Bytes, hibit: nat): Limbs
    requires w > 0 && |m| == 16
  {
    var l := Loaded(m);
    Limbs(Wrap(h.a0 + l.a0, w), Wrap(h.a1 + l.a1, w), Wrap(h.a2 + l.a2, w), Wrap(h.a3 + l.a3, w),
          Wrap(h.a4 + Or(l.a4, hibit), w))
  }

  lemma OrHibit(x: nat, hibit: nat)
    requires x < 0x100_0000 && (hibit == 0 || hibit == 0x100_0000)
    ensures Or(x, hibit) == x + hibit
  {
    hide Or, Low, High;
    OrZero(x);
    LowHigh(x, 24);
    LowHigh(0x100_0000, 24);
    Pow2At24();
    SmallMod(x, 0x100_0000);
    OrDisjoint(x, 0x100_0000, 24);
  }

  /** A 32-bit load shifted right by 0, 2, 4, 6 or 8 bits, in terms of its bytes. */
  lemma Cut0(a: nat, b: nat, c: nat, d: nat)
    requires a < 256 && b < 256 && c < 256 && d < 256
    ensures Mask(a + 0x100 * b + 0x1_0000 * c + 0x100_0000 * d) == a + 0x100 * b + 0x1_0000 * c + 0x100_0000 * (d % 4)
  {
    var low := a + 0x100 * b + 0x1_0000 * c + 0x100_0000 * (d % 4);
    DivModUnique(a + 0x100 * b + 0x1_0000 * c + 0x100_0000 * d, d / 4, M26, low);
  }

  lemma Cut2(a: nat, b: nat, c: nat, d: nat)
    requires a < 256 && b < 256 && c < 256 && d < 256
    ensures Mask(Shr(a + 0x100 * b + 0x1_0000 * c + 0x100_0000 * d, 4)) ==
            a / 4 + 0x40 * b + 0x4000 * c + 0x400000 * (d % 16)
  {
    var u := a / 4 + 0x40 * b + 0x4000 * c + 0x400000 * d;
    DivModUnique(a + 0x100 * b + 0x1_0000 * c + 0x100_0000 * d, u, 4, a % 4);
    DivModUnique(u, d / 16, M26, a / 4 + 0x40 * b + 0x4000 * c + 0x400000 * (d % 16));
  }

  lemma Cut4(a: nat, b: nat, c: nat, d: nat)
    requires a < 256 && b < 256 && c < 256 && d < 256
    ensures Mask(Shr(a + 0x100 * b + 0x1_0000 * c + 0x100_0000 * d, 16)) ==
            a / 16 + 0x10 * b + 0x1000 * c + 0x100000 * (d % 64)
  {
    var u := a / 16 + 0x10 * b + 0x1000 * c + 0x100000 * d;
    DivModUnique(a + 0x100 * b + 0x1_0000 * c + 0x100_0000 * d, u, 16, a % 16);
    DivModUnique(u, d / 64, M26, a / 16 + 0x10 * b + 0x1000 * c + 0x100000 * (d % 64));
  }

  lemma Cut6(a: nat, b: nat, c: nat, d: nat)
    requires a < 256 && b < 256 && c < 256 && d < 256
    ensures Mask(Shr(a + 0x100 * b + 0x1_0000 * c + 0x100_0000 * d, 64)) ==
            a / 64 + 0x4 * b + 0x400 * c + 0x40000 * d
  {
    var u := a / 64 + 0x4 * b + 0x400 * c + 0x40000 * d;
    DivModUnique(a + 0x100 * b + 0x1_0000 * c + 0x100_0000 * d, u, 64, a % 64);
    SmallMod(u, M26);
  }

  lemma Cut8(a: nat, b: nat, c: nat, d: nat)
    requires a < 256 && b < 256 && c < 256 && d < 256
    ensures Shr(a + 0x100 * b + 0x1_0000 * c + 0x100_0000 * d, 256) == b + 0x100 * c + 0x1_0000 * d
  {
    DivModUnique(a + 0x100 * b + 0x1_0000 * c + 0x100_0000 * d, b + 0x100 * c + 0x1_0000 * d, 256, a);
  }

  function Loaded(m: Bytes): Limbs
    requires |m| == 16
  {
    Limbs(Mask(U32(m, 0)), Mask(Shr(U32(m, 3), 4)), Mask(Shr(U32(m, 6), 16)), Mask(Shr(U32(m, 9), 64)),
          Shr(U32(m, 12), 256))
  }

  /** Bytes 3, 6 and 9 are cut in two, at the bit with weight 4, 16 and 64. */
  datatype Cuts = Cuts(q3: nat, r3: nat, q6: nat, r6: nat, q9: nat, r9: nat)

  ghost predicate CutsOf(m: Bytes, c: Cuts) {
    && |m| == 16
    && Val(m[3]) == 4 * c.q3 + c.r3 && Val(m[6]) == 16 * c.q6 + c.r6 && Val(m[9]) == 64 * c.q9 + c.r9
    && c.r3 < 4 && c.r6 < 16 && c.r9 < 64
  }

  function CutBytes(m: Bytes): Cuts
    requires |m| == 16
  {
    Cuts(Val(m[3]) / 4, Val(m[3]) % 4, Val(m[6]) / 16, Val(m[6]) % 16, Val(m[9]) / 64, Val(m[9]) % 64)
  }

  lemma CutBytesCut(m: Bytes)
    requires |m| == 16
    ensures CutsOf(m, CutBytes(m))
  {
    hide Val;
    QuotRem(Val(m[3]));
    QuotRem(Val(m[6]));
    QuotRem(Val(m[9]));
  }

  lemma QuotRem(b: nat)
    ensures b == 4 * (b / 4) + b % 4 && b == 16 * (b / 16) + b % 16 && b == 64 * (b / 64) + b % 64
  {
  }

  function Limbs16(m: Bytes, c: Cuts): Limbs
    requires |m| == 16
  {
    Limbs(Val(m[0]) + 0x100 * Val(m[1]) + 0x1_0000 * Val(m[2]) + 0x100_0000 * c.r3,
          c.q3 + 0x40 * Val(m[4]) + 0x4000 * Val(m[5]) + 0x40_0000 * c.r6,
          c.q6 + 0x10 * Val(m[7]) + 0x1000 * Val(m[8]) + 0x10_0000 * c.r9,
          c.q9 + 4 * Val(m[10]) + 0x400 * Val(m[11]) + 0x4_0000 * Val(m[12]),
          Val(m[13]) + 0x100 * Val(m[14]) + 0x1_0000 * Val(m[15]))
  }

  lemma LoadedLow(m: Bytes)
    requires |m| == 16
    ensures var l, e := Loaded(m), Limbs16(m, CutBytes(m)); l.a0 == e.a0 && l.a1 == e.a1
  {
    hide Val, Mask, Shr;
    Cut0(Val(m[0]), Val(m[1]), Val(m[2]), Val(m[3]));
    Cut2(Val(m[3]), Val(m[4]), Val(m[5]), Val(m[6]));
  }

  lemma LoadedHigh(m: Bytes)
    requires |m| == 16
    ensures var l, e := Loaded(m), Limbs16(m, CutBytes(m)); l.a2 == e.a2 && l.a3 == e.a3 && l.a4 == e.a4
  {
    hide Val, Mask, Shr;
    Cut4(Val(m[6]), Val(m[7]), Val(m[8]), Val(m[9]));
    Cut6(Val(m[9]), Val(m[10]), Val(m[11]), Val(m[12]));
    Cut8(Val(m[12]), Val(m[13]), Val(m[14]), Val(m[15]));
  }

  lemma Limbs16Value(m: Bytes, c: Cuts)
    requires CutsOf(m, c)
    ensures Value(Limbs16(m, c)) == Le(m)
  {
    hide Val, Le;
    Le16(m);
  }

  lemma Limbs16Small(m: Bytes, c: Cuts)
    requires CutsOf(m, c)
    ensures Small(Limbs16(m, c)) && Limbs16(m, c).a4 < 0x100_0000
  {
    hide Val;
  }

  /** The five overlapping loads cut 16 bytes into limbs. */
  lemma LoadIsLe(m: Bytes)
    requires |m| == 16
    ensures Value(Loaded(m)) == Le(m)
    ensures Small(Loaded(m)) && Loaded(m).a4 < 0x100_0000
  {
    hide Val, Le, Loaded, Limbs16, Value, Small, CutsOf;
    LoadedLow(m);
    LoadedHigh(m);
    CutBytesCut(m);
    Limbs16Value(m, CutBytes(m));
    Limbs16Small(m, CutBytes(m));
  }

  lemma ValueAdds(g: Limbs, h: Limbs)
    ensures Value(Limbs(g.a0 + h.a0, g.a1 + h.a1, g.a2 + h.a2, g.a3 + h.a3, g.a4 + h.a4)) == Value(g) + Value(h)
  {
  }

  lemma HibitValue(h: Limbs)
    ensures Value(h.(a4 := h.a4 + 0x100_0000)) == Value(h) + W128
  {
  }

  lemma AddBlockValue(w: nat, h: Limbs, m: Bytes, last: bool)
    requires Word(w) && Tight(h) && |m| == 16
    ensures var h' := AddBlock(w, h, m, if last then 0 else 0x100_0000);
            && Loose(h')
            && Value(h') == Value(h) + Le(m) + if last then 0 else W128
  {
    hide Le, Or, Loaded, Value, Wrap;
    LoadIsLe(m);
    var l := Loaded(m);
    ValueAdds(h, l);
    HibitValue(Limbs(h.a0 + l.a0, h.a1 + l.a1, h.a2 + l.a2, h.a3 + l.a3, h.a4 + l.a4));
    OrHibit(l.a4, if last then 0 else 0x100_0000);
    NoWrap(h.a0 + l.a0, w);
    NoWrap(h.a1 + l.a1, w);
    NoWrap(h.a2 + l.a2, w);
    NoWrap(h.a3 + l.a3, w);
    NoWrap(h.a4 + l.a4 + if last then 0 else 0x100_0000, w);
  }

  // ---------- h *= r ----------

  function Products(w: nat, h: Limbs, r: Limbs): Limbs
    requires w > 0
  {
    var s1, s2, s3, s4 := Wrap(r.a1 * 5, w), Wrap(r.a2 * 5, w), Wrap(r.a3 * 5, w), Wrap(r.a4 * 5, w);
    Limbs(Wrap(Mul(h.a0, r.a0) + Mul(h.a1, s4) + Mul(h.a2, s3) + Mul(h.a3, s2) + Mul(h.a4, s1), W64),
          Wrap(Mul(h.a0, r.a1) + Mul(h.a1, r.a0) + Mul(h.a2, s4) + Mul(h.a3, s3) + Mul(h.a4, s2), W64),
          Wrap(Mul(h.a0, r.a2) + Mul(h.a1, r.a1) + Mul(h.a2, r.a0) + Mul(h.a3, s4) + Mul(h.a4, s3), W64),
          Wrap(Mul(h.a0, r.a3) + Mul(h.a1, r.a2) + Mul(h.a2, r.a1) + Mul(h.a3, r.a0) + Mul(h.a4, s4), W64),
          Wrap(Mul(h.a0, r.a4) + Mul(h.a1, r.a3) + Mul(h.a2, r.a2) + Mul(h.a3, r.a1) + Mul(h.a4, r.a0), W64))
  }

  /** The same sums without word sizes. */
  ghost function Exact(h: Limbs, r: Limbs): Limbs {
    Limbs(Mul(h.a0, r.a0) + 5 * Mul(h.a1, r.a4) + 5 * Mul(h.a2, r.a3) + 5 * Mul(h.a3, r.a2) + 5 * Mul(h.a4, r.a1),
          Mul(h.a0, r.a1) + Mul(h.a1, r.a0) + 5 * Mul(h.a2, r.a4) + 5 * Mul(h.a3, r.a3) + 5 * Mul(h.a4, r.a2),
          Mul(h.a0, r.a2) + Mul(h.a1, r.a1) + Mul(h.a2, r.a0) + 5 * Mul(h.a3, r.a4) + 5 * Mul(h.a4, r.a3),
          Mul(h.a0, r.a3) + Mul(h.a1, r.a2) + Mul(h.a2, r.a1) + Mul(h.a3, r.a0) + 5 * Mul(h.a4, r.a4),
          Mul(h.a0, r.a4) + Mul(h.a1, r.a3) + Mul(h.a2, r.a2) + Mul(h.a3, r.a1) + Mul(h.a4, r.a0))
  }

  lemma MulBound(a: nat, b: nat)
    requires a < 2 * M26 + 64 && b < M26
    ensures Mul(a, b) <= MAX
  {
    MulMonotone(a, b, 2 * M26 + 64, M26);
  }

  /** The largest product of a loose and a small limb. */
  const MAX: nat := 0x20_0001_0000_0000

  ghost predicate ProductBounds(d: Limbs) {
    d.a0 <= 21 * MAX && d.a1 <= 17 * MAX && d.a2 <= 13 * MAX && d.a3 <= 9 * MAX && d.a4 <= 5 * MAX
  }

  lemma ExactBounds(h: Limbs, r: Limbs)
    requires Loose(h) && Small(r)
    ensures ProductBounds(Exact(h, r))
  {
    hide Mul;
    MulBound(h.a0, r.a0); MulBound(h.a0, r.a1); MulBound(h.a0, r.a2); MulBound(h.a0, r.a3); MulBound(h.a0, r.a4);
    MulBound(h.a1, r.a0); MulBound(h.a1, r.a1); MulBound(h.a1, r.a2); MulBound(h.a1, r.a3); MulBound(h.a1, r.a4);
    MulBound(h.a2, r.a0); MulBound(h.a2, r.a1); MulBound(h.a2, r.a2); MulBound(h.a2, r.a3); MulBound(h.a2, r.a4);
    MulBound(h.a3, r.a0); MulBound(h.a3, r.a1); MulBound(h.a3, r.a2); MulBound(h.a3, r.a3); MulBound(h.a3, r.a4);
    MulBound(h.a4, r.a0); MulBound(h.a4, r.a1); MulBound(h.a4, r.a2); MulBound(h.a4, r.a3); MulBound(h.a4, r.a4);
  }

  /** No product or sum wraps, whichever word size the machine has. */
  lemma ProductsExact(w: nat, h: Limbs, r: Limbs)
    requires Word(w) && Loose(h) && Small(r)
    ensures Products(w, h, r) == Exact(h, r) && ProductBounds(Exact(h, r))
  {
    hide Mul, Wrap;
    ExactBounds(h, r);
    NoWrap(r.a1 * 5, w); NoWrap(r.a2 * 5, w); NoWrap(r.a3 * 5, w); NoWrap(r.a4 * 5, w);
    MulFive(h.a1, r.a4);    MulFive(h.a2, r.a3);    MulFive(h.a3, r.a2);    MulFive(h.a4, r.a1);
    MulFive(h.a2, r.a4);    MulFive(h.a3, r.a3);    MulFive(h.a4, r.a2);
    MulFive(h.a3, r.a4);    MulFive(h.a4, r.a3);
    MulFive(h.a4, r.a4);
    var e := Exact(h, r);
    NoWrap(e.a0, W64); NoWrap(e.a1, W64); NoWrap(e.a2, W64); NoWrap(e.a3, W64); NoWrap(e.a4, W64);
  }

  /** How often 2^130 - 5 is taken out when 2^130 is replaced by 5. */
  ghost function Excess(h: Limbs, r: Limbs): nat {
    Above(Mul(h.a1, r.a4) + Mul(h.a2, r.a3) + Mul(h.a3, r.a2) + Mul(h.a4, r.a1),
          Above(Mul(h.a2, r.a4) + Mul(h.a3, r.a3) + Mul(h.a4, r.a2),
                Above(Mul(h.a3, r.a4) + Mul(h.a4, r.a3), Mul(h.a4, r.a4))))
  }

  function Scaled(h: Limbs, n: nat): Limbs {
    Limbs(Mul(h.a0, n), Mul(h.a1, n), Mul(h.a2, n), Mul(h.a3, n), Mul(h.a4, n))
  }

  lemma ScaledLimb(x: nat, y: nat, n: nat)
    ensures Mul(Above(x, y), n) == Above(Mul(x, n), Mul(y, n))
  {
    var y': int := 0x400_0000 * y;
    assert (x + y') * n == x * n + y' * n;
    assert y' * n == 0x400_0000 * (y * n);
  }

  lemma ScaledValue(h: Limbs, n: nat)
    ensures Mul(Value(h), n) == Value(Scaled(h, n))
  {
    hide Mul, Above;
    ScaledLimb(h.a3, h.a4, n);
    ScaledLimb(h.a2, Above(h.a3, h.a4), n);
    ScaledLimb(h.a1, Above(h.a2, Above(h.a3, h.a4)), n);
    ScaledLimb(h.a0, Above(h.a1, Above(h.a2, Above(h.a3, h.a4))), n);
  }

  lemma MulCommutes(a: nat, b: nat)
    ensures Mul(a, b) == Mul(b, a)
  {
  }

  /** The five sums represent the product of the two numbers, up to multiples of 2^130 - 5. */
  lemma ExactIsProduct(h: Limbs, r: Limbs)
    ensures Value(h) * Value(r) == Value(Exact(h, r)) + P * Excess(h, r)
  {
    hide Mul, Above, Exact, Excess;
    RowsToColumns(h, r);
    var n := Value(h);
    MulIs(n, Value(r));
    MulCommutes(n, Value(r));
    ScaledValue(r, n);
    MulCommutes(r.a0, n);
    MulCommutes(r.a1, n);
    MulCommutes(r.a2, n);
    MulCommutes(r.a3, n);
    MulCommutes(r.a4, n);
    ScaledValue(h, r.a0);
    ScaledValue(h, r.a1);
    ScaledValue(h, r.a2);
    ScaledValue(h, r.a3);
    ScaledValue(h, r.a4);
  }

  lemma MulIs(a: nat, b: nat)
    ensures Mul(a, b) == a * b
  {
  }

  lemma RowsToColumns(h: Limbs, r: Limbs)
    ensures Value(Limbs(Value(Scaled(h, r.a0)), Value(Scaled(h, r.a1)), Value(Scaled(h, r.a2)),
                        Value(Scaled(h, r.a3)), Value(Scaled(h, r.a4))))
         == Value(Exact(h, r)) + P * Excess(h, r)
  {
    hide Mul;
  }

  // ---------- (partial) h %= p ----------

  /** One carry: the low 26 bits, and the next sum with the rest added. */
  function Keep(w: nat, d: nat): nat
    requires w > 0
  {
    Mask(Wrap(d, w))
  }

  function CarryOut(w: nat, d: nat): nat
    requires w > 0
  {
    Wrap(Shr(d, M26), w)
  }

  function Reduce(w: nat, d: Limbs): Limbs
    requires w > 0
  {
    var d1 := Wrap(d.a1 + CarryOut(w, d.a0), W64);
    var d2 := Wrap(d.a2 + CarryOut(w, d1), W64);
    var d3 := Wrap(d.a3 + CarryOut(w, d2), W64);
    var d4 := Wrap(d.a4 + CarryOut(w, d3), W64);
    var h0 := Wrap(Keep(w, d.a0) + Wrap(CarryOut(w, d4) * 5, w), w);
    Limbs(Mask(h0), Wrap(Keep(w, d1) + Shr(h0, M26), w), Keep(w, d2), Keep(w, d3), Keep(w, d4))
  }

  lemma SplitWord(x: nat)
    ensures x == 0x400_0000 * Shr(x, M26) + Mask(x) && Mask(x) < M26
  {
  }

  /** Below 2^58 nothing is lost when a sum is cut at 26 bits. */
  lemma CarryExact(w: nat, d: nat)
    requires Word(w) && d < 0x400_0000_0000_0000
    ensures d == 0x400_0000 * CarryOut(w, d) + Keep(w, d) && Keep(w, d) < M26
  {
    SplitWord(d);
    SmallMod(Shr(d, M26), w);
    if w == W32 {
      var q, r := d / W32, d % W32;
      DivModUnique(d, 64 * q + r / M26, M26, r % M26);
    } else {
      SmallMod(d, w);
    }
  }

  ghost function TopCarry(w: nat, d: Limbs): nat
    requires w > 0
  {
    var d1 := Wrap(d.a1 + CarryOut(w, d.a0), W64);
    var d2 := Wrap(d.a2 + CarryOut(w, d1), W64);
    var d3 := Wrap(d.a3 + CarryOut(w, d2), W64);
    var d4 := Wrap(d.a4 + CarryOut(w, d3), W64);
    CarryOut(w, d4)
  }

  /** The carries lose only multiples of 2^130 - 5 and leave tight limbs. */
  lemma ReduceValue(w: nat, d: Limbs)
    requires Word(w) && ProductBounds(d)
    ensures Tight(Reduce(w, d))
    ensures Value(d) == Value(Reduce(w, d)) + P * TopCarry(w, d)
  {
    hide Keep, CarryOut, Mask, Shr, Wrap, Value;
    CarryExact(w, d.a0);
    assert CarryOut(w, d.a0) <= 21 * (2 * M26 + 64);
    var d1 := d.a1 + CarryOut(w, d.a0);
    NoWrap(d1, W64);
    CarryExact(w, d1);
    assert CarryOut(w, d1) <= 17 * (2 * M26 + 64) + 64;
    var d2 := d.a2 + CarryOut(w, d1);
    NoWrap(d2, W64);
    CarryExact(w, d2);
    assert CarryOut(w, d2) <= 13 * (2 * M26 + 64) + 64;
    var d3 := d.a3 + CarryOut(w, d2);
    NoWrap(d3, W64);
    CarryExact(w, d3);
    assert CarryOut(w, d3) <= 9 * (2 * M26 + 64) + 64;
    var d4 := d.a4 + CarryOut(w, d3);
    NoWrap(d4, W64);
    CarryExact(w, d4);
    assert CarryOut(w, d4) <= 5 * (2 * M26 + 64) + 64;
    NoWrap(CarryOut(w, d4) * 5, w);
    var h0 := Keep(w, d.a0) + CarryOut(w, d4) * 5;
    NoWrap(h0, w);
    SplitWord(h0);
    NoWrap(Keep(w, d1) + Shr(h0, M26), w);
    ReduceIdentity(d, Keep(w, d.a0), Keep(w, d1), Keep(w, d2), Keep(w, d3), Keep(w, d4),
                   CarryOut(w, d.a0), CarryOut(w, d1), CarryOut(w, d2), CarryOut(w, d3), CarryOut(w, d4),
                   Mask(h0), Shr(h0, M26));
  }

  lemma ReduceIdentity(d: Limbs, k0: nat, k1: nat, k2: nat, k3: nat, k4: nat,
                       c0: nat, c1: nat, c2: nat, c3: nat, c4: nat, low: nat, c5: nat)
    requires d.a0 == 0x400_0000 * c0 + k0 && d.a1 + c0 == 0x400_0000 * c1 + k1 && d.a2 + c1 == 0x400_0000 * c2 + k2
    requires d.a3 + c2 == 0x400_0000 * c3 + k3 && d.a4 + c3 == 0x400_0000 * c4 + k4
             && k0 + c4 * 5 == 0x400_0000 * c5 + low
    ensures Value(d) == Value(Limbs(low, k1 + c5, k2, k3, k4)) + P * c4
  {
  }

  // ---------- one block ----------

  function BlockStep(w: nat, h: Limbs, r: Limbs, m: Bytes, hibit: nat): Limbs
    requires w > 0 && |m| == 16
  {
    Reduce(w, Products(w, AddBlock(w, h, m, hibit), r))
  }

  /** One pass of the block loop, for every state the loop can be in. */
  lemma BlockStepValue(w: nat, h: Limbs, r: Limbs, m: Bytes, last: bool)
    requires Word(w) && Tight(h) && Small(r) && |m| == 16
    ensures var h' := BlockStep(w, h, r, m, if last then 0 else 0x100_0000);
            && Tight(h')
            && Value(h') % P == (Value(h) + Le(m) + if last then 0 else W128) * Value(r) % P
  {
    hide Tight, Small, Loose, ProductBounds, AddBlock, Products, Reduce, Value, Le, Exact, Excess, TopCarry;
    AddBlockValue(w, h, m, last);
    var g := AddBlock(w, h, m, if last then 0 else 0x100_0000);
    ProductsExact(w, g, r);
    ExactIsProduct(g, r);
    var e := Exact(g, r);
    ReduceValue(w, e);
    ModMultiple(Value(e), Excess(g, r), P);
    ModMultiple(Value(Reduce(w, e)), TopCarry(w, e), P);
  }
}
