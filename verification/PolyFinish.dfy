/** poly1305_finish: full carry, conditional subtraction, packing and the final addition. */
module PolyFinish {
  import opened Arith
  import opened Bits
  import opened ByteStrings
  import opened LittleEndian
  import opened PolyLimbs
  import opened WordOps

  // ---------- fully carry h ----------

  /** Lines 220-228: the sums of the upper limbs, each with the carry of the one before. */
  function Carried(w: nat, h: Limbs): Limbs
    requires w > 0
  {
    var h2 := Wrap(h.a2 + Shr(h.a1, M26), w);
    var h3 := Wrap(h.a3 + Shr(h2, M26), w);
    Limbs(h.a0, h.a1, h2, h3, Wrap(h.a4 + Shr(h3, M26), w))
  }

  function FullCarry(w: nat, h: Limbs): Limbs
    requires w > 0
  {
    var t := Carried(w, h);
    var h0 := Wrap(h.a0 + Wrap(Shr(t.a4, M26) * 5, w), w);
    Limbs(Mask(h0), Wrap(Mask(t.a1) + Shr(h0, M26), w), Mask(t.a2), Mask(t.a3), Mask(t.a4))
  }

  lemma CarriedExact(w: nat, h: Limbs)
    requires Word(w) && Tight(h)
    ensures var t := Carried(w, h);
            && t.a0 == h.a0 && t.a1 == h.a1 && t.a2 == h.a2 + Shr(t.a1, M26) && t.a3 == h.a3 + Shr(t.a2, M26)
            && t.a4 == h.a4 + Shr(t.a3, M26)
            && Shr(t.a1, M26) <= 1 && Shr(t.a2, M26) <= 1 && Shr(t.a3, M26) <= 1 && Shr(t.a4, M26) <= 1
  {
    hide Mask, Shr, Wrap;
    var t := Carried(w, h);
    SplitWord(t.a1);
    NoWrap(h.a2 + Shr(t.a1, M26), w);
    SplitWord(t.a2);
    NoWrap(h.a3 + Shr(t.a2, M26), w);
    SplitWord(t.a3);
    NoWrap(h.a4 + Shr(t.a3, M26), w);
    SplitWord(t.a4);
  }

  /**
   * From the bounds the block loop keeps, one pass brings every limb below 2^26: a carry comes all the way round
   * to the second limb only if one went out of it, and then it has few bits left.
   */
  lemma FullCarryValue(w: nat, h: Limbs)
    requires Word(w) && Tight(h)
    ensures Small(FullCarry(w, h))
    ensures Value(FullCarry(w, h)) % P == Value(h) % P
  {
    hide Mask, Shr, Wrap, Value, Carried;
    CarriedExact(w, h);
    var t := Carried(w, h);
    SplitWord(t.a1);
    SplitWord(t.a2);
    SplitWord(t.a3);
    SplitWord(t.a4);
    var c4 := Shr(t.a4, M26);
    NoWrap(c4 * 5, w);
    var h0 := h.a0 + c4 * 5;
    NoWrap(h0, w);
    SplitWord(h0);
    NoWrap(Mask(t.a1) + Shr(h0, M26), w);
    FullCarryIdentity(h, FullCarry(w, h), Shr(t.a1, M26), Shr(t.a2, M26), Shr(t.a3, M26), c4, Shr(h0, M26));
    ModMultiple(Value(FullCarry(w, h)), c4, P);
  }

  lemma FullCarryIdentity(h: Limbs, g: Limbs, c1: nat, c2: nat, c3: nat, c4: nat, c0: nat)
    requires h.a1 + c0 == 0x400_0000 * c1 + g.a1 && h.a2 + c1 == 0x400_0000 * c2 + g.a2
    requires h.a3 + c2 == 0x400_0000 * c3 + g.a3 && h.a4 + c3 == 0x400_0000 * c4 + g.a4
    requires h.a0 + c4 * 5 == 0x400_0000 * c0 + g.a0
    ensures Value(h) == Value(g) + P * c4
  {
  }

  // ---------- compute h + -p, and select ----------

  /** h + 5 - 2^130 with the borrow left in the top limb. */
  function MinusP(w: nat, h: Limbs): Limbs
    requires w > M26
  {
    var g0 := Wrap(h.a0 + 5, w);
    var g1 := Wrap(h.a1 + Shr(g0, M26), w);
    var g2 := Wrap(h.a2 + Shr(g1, M26), w);
    var g3 := Wrap(h.a3 + Shr(g2, M26), w);
    Limbs(Mask(g0), Mask(g1), Mask(g2), Mask(g3), Wrap(h.a4 + Shr(g3, M26) + w - M26, w))
  }

  /** All ones if the top bit of `g4` is clear, else zero. */
  function SelectMask(w: nat, g4: nat): nat
    requires w > 1
  {
    Wrap(Shr(g4, w / 2) + w - 1, w)
  }

  function Select(mask: nat, w: nat, g: nat, h: nat): nat
    requires mask < w
  {
    Or(And(h, w - 1 - mask), And(g, mask))
  }

  function Canonical(w: nat, h: Limbs): Limbs
    requires w > M26
  {
    var g := MinusP(w, h);
    var mask := SelectMask(w, g.a4);
    assert mask < w;
    Limbs(Select(mask, w, g.a0, h.a0), Select(mask, w, g.a1, h.a1), Select(mask, w, g.a2, h.a2),
          Select(mask, w, g.a3, h.a3), Select(mask, w, g.a4, h.a4))
  }

  lemma AllOnes(x: nat, w: nat)
    requires Word(w) && x < w
    ensures And(x, w - 1) == x && And(x, 0) == 0
  {
    hide And, Low;
    var k := if w == W32 then 32 else 64;
    WordIsPow2();
    AndOnes(x, k);
    LowHigh(x, k);
    SmallMod(x, w);
    AndZero(x);
  }

  lemma WordIsPow2()
    ensures Pow2(32) == W32 && Pow2(64) == W64
  {
    assert Pow2(8) == 0x100;
    assert Pow2(16) == 0x1_0000;
    assert Pow2(24) == 0x100_0000;
    assert Pow2(32) == W32;
    assert Pow2(40) == 0x100_0000_0000;
    assert Pow2(48) == 0x1_0000_0000_0000;
    assert Pow2(56) == 0x100_0000_0000_0000;
  }

  lemma SelectIs(w: nat, mask: nat, g: nat, h: nat)
    requires Word(w) && g < w && h < w && (mask == 0 || mask == w - 1)
    ensures Select(mask, w, g, h) == if mask == 0 then h else g
  {
    hide And, Or;
    AllOnes(g, w);
    AllOnes(h, w);
    OrZero(h);
    OrZero(g);
  }

  lemma SelectMaskIs(w: nat, g4: nat)
    requires Word(w) && g4 < w
    ensures SelectMask(w, g4) == if g4 < w / 2 then w - 1 else 0
  {
    if g4 < w / 2 {
      SmallMod(g4, w / 2);
      SmallMod(w - 1, w);
    } else {
      DivModUnique(g4, 1, w / 2, g4 - w / 2);
      DivModUnique(w, 1, w, 0);
    }
  }

  lemma MinusPValue(w: nat, h: Limbs)
    requires Word(w) && Small(h)
    ensures var g := MinusP(w, h);
            && g.a0 < M26 && g.a1 < M26 && g.a2 < M26 && g.a3 < M26
            && if Value(h) >= P then Value(g) == Value(h) - P && g.a4 < M26 else g.a4 >= w - M26 && g.a4 < w
  {
    hide Mask, Shr, Wrap, Value;
    var g0 := h.a0 + 5;
    NoWrap(g0, w);
    SplitWord(g0);
    var g1 := h.a1 + Shr(g0, M26);
    NoWrap(g1, w);
    SplitWord(g1);
    var g2 := h.a2 + Shr(g1, M26);
    NoWrap(g2, w);
    SplitWord(g2);
    var g3 := h.a3 + Shr(g2, M26);
    NoWrap(g3, w);
    SplitWord(g3);
    var g4 := h.a4 + Shr(g3, M26);
    WrapTop(g4, w);
    MinusPIdentity(h, Mask(g0), Mask(g1), Mask(g2), Mask(g3), Shr(g0, M26), Shr(g1, M26), Shr(g2, M26), Shr(g3, M26));
    TopLimbDecides(h, Mask(g0), Mask(g1), Mask(g2), Mask(g3), g4);
  }

  /** The number reaches 2^130 - 5 exactly when adding 5 fills the top limb. */
  lemma TopLimbDecides(h: Limbs, k0: nat, k1: nat, k2: nat, k3: nat, top: nat)
    requires Value(h) + 5 == Value(Limbs(k0, k1, k2, k3, top)) && top <= M26
    requires k0 < M26 && k1 < M26 && k2 < M26 && k3 < M26
    ensures Value(h) >= P <==> top == M26
    ensures top == M26 ==> Value(Limbs(k0, k1, k2, k3, 0)) == Value(h) - P
  {
  }

  lemma WrapTop(g4: nat, w: nat)
    requires Word(w) && g4 <= M26
    ensures Wrap(g4 + w - M26, w) == if g4 == M26 then 0 else g4 + w - M26
  {
    if g4 == M26 {
      DivModUnique(w, 1, w, 0);
    } else {
      SmallMod(g4 + w - M26, w);
    }
  }

  lemma MinusPIdentity(h: Limbs, k0: nat, k1: nat, k2: nat, k3: nat, c0: nat, c1: nat, c2: nat, c3: nat)
    requires h.a0 + 5 == 0x400_0000 * c0 + k0 && h.a1 + c0 == 0x400_0000 * c1 + k1
    requires h.a2 + c1 == 0x400_0000 * c2 + k2 && h.a3 + c2 == 0x400_0000 * c3 + k3
    ensures Value(h) + 5 == Value(Limbs(k0, k1, k2, k3, h.a4 + c3))
  {
  }

  /** Carried limbs below 2^130 are brought to the residue below 2^130 - 5. */
  lemma CanonicalValue(w: nat, h: Limbs)
    requires Word(w) && Small(h)
    ensures Small(Canonical(w, h)) && Value(Canonical(w, h)) == Value(h) % P
  {
    hide Select, SelectMask, MinusP, Value;
    var g := MinusP(w, h);
    MinusPValue(w, h);
    SelectMaskIs(w, g.a4);
    var mask := SelectMask(w, g.a4);
    SelectIs(w, mask, g.a0, h.a0);
    SelectIs(w, mask, g.a1, h.a1);
    SelectIs(w, mask, g.a2, h.a2);
    SelectIs(w, mask, g.a3, h.a3);
    SelectIs(w, mask, g.a4, h.a4);
    SmallValue(h);
    if Value(h) >= P {
      DivModUnique(Value(h), 1, P, Value(h) - P);
    } else {
      SmallMod(Value(h), P);
    }
  }

  lemma SmallValue(h: Limbs)
    requires Small(h)
    ensures Value(h) < P + 5
  {
  }

  // ---------- h = h % (2^128) ----------

  datatype Words = Words(w0: nat, w1: nat, w2: nat, w3: nat)

  function WordsValue(x: Words): nat {
    x.w0 + 0x1_0000_0000 * x.w1 + 0x1_0000_0000_0000_0000 * x.w2 + 0x1_0000_0000_0000_0000_0000_0000 * x.w3
  }

  /** (lo | (x << k)) & 0xffffffff, with 2^k == p */
  function Glue(w: nat, lo: nat, x: nat, p: nat): nat
    requires w > 0
  {
    Wrap(Or(lo, Wrap(x * p, w)), W32)
  }

  function Pack(w: nat, h: Limbs): Words
    requires w > 0
  {
    Words(Glue(w, h.a0, h.a1, 0x400_0000),
          Glue(w, Shr(h.a1, 64), h.a2, 0x10_0000),
          Glue(w, Shr(h.a2, 0x1000), h.a3, 0x4000),
          Glue(w, Shr(h.a3, 0x4_0000), h.a4, 0x100))
  }

  lemma OrAbove(lo: nat, b: nat, k: nat, p: nat)
    requires Pow2(k) == p && lo < p && b % p == 0
    ensures Or(lo, b) == lo + b
  {
    hide Or, Low, High, Pow2;
    SmallMod(lo, p);
    LowHigh(lo, k);
    LowHigh(b, k);
    OrDisjoint(lo, b, k);
  }

  lemma WrapIs(x: nat, q: nat, w: nat, r: nat)
    requires r < w && x == q * w + r
    ensures Wrap(x, w) == r
  {
    DivModUnique(x, q, w, r);
  }

  /** x * p cut at 32 bits, with p * q == 2^32 */
  lemma ShiftCut(x: nat, p: nat, q: nat, d: nat, r: nat)
    requires 0 < p && p * q == W32 && r < q && x == d * q + r
    ensures x * p == d * W32 + p * r
    ensures 0 <= p * r <= W32 - p
    ensures (p * r) % p == 0 && (x * p) % p == 0
  {
    assert x * p == d * (p * q) + p * r;
    assert p * r <= p * (q - 1) == p * q - p;
    ModOfMultiple(r, p);
    ModOfMultiple(x, p);
  }

  lemma GlueIs(w: nat, lo: nat, x: nat, k: nat, p: nat, q: nat, d: nat, r: nat)
    requires Word(w) && Pow2(k) == p <= M26 && p * q == W32 && lo < p && x < M26 && r < q && x == d * q + r
    ensures Glue(w, lo, x, p) == lo + p * r
  {
    hide Or, Pow2, Wrap;
    ShiftCut(x, p, q, d, r);
    var c := p * r;
    if w == W32 {
      WrapIs(x * p, d, W32, c);
      OrAbove(lo, c, k, p);
      NoWrap(lo + c, W32);
    } else {
      MulMonotone(x, p, M26, M26);
      NoWrap(x * p, w);
      OrAbove(lo, x * p, k, p);
      WrapIs(lo + x * p, d, W32, lo + c);
    }
  }

  lemma PackValue(w: nat, h: Limbs)
    requires Word(w) && Small(h)
    ensures var x := Pack(w, h);
            && x.w0 < W32 && x.w1 < W32 && x.w2 < W32 && x.w3 < W32
            && WordsValue(x) == Value(h) % W128
  {
    hide Glue, Pow2;
    Pow2Shifts();
    PackShifts(h);
    GlueIs(w, h.a0, h.a1, 26, 0x400_0000, 64, h.a1 / 64, h.a1 % 64);
    GlueIs(w, Shr(h.a1, 64), h.a2, 20, 0x10_0000, 0x1000, h.a2 / 0x1000, h.a2 % 0x1000);
    GlueIs(w, Shr(h.a2, 0x1000), h.a3, 14, 0x4000, 0x4_0000, h.a3 / 0x4_0000, h.a3 % 0x4_0000);
    GlueIs(w, Shr(h.a3, 0x4_0000), h.a4, 8, 0x100, 0x100_0000, h.a4 / 0x100_0000, h.a4 % 0x100_0000);
    PackIdentity(h, h.a1 / 64, h.a1 % 64, h.a2 / 0x1000, h.a2 % 0x1000, h.a3 / 0x4_0000, h.a3 % 0x4_0000,
                 h.a4 / 0x100_0000, h.a4 % 0x100_0000);
  }

  lemma Pow2Shifts()
    ensures Pow2(26) == 0x400_0000 && Pow2(20) == 0x10_0000 && Pow2(14) == 0x4000 && Pow2(8) == 0x100
  {
    assert Pow2(8) == 0x100;
    assert Pow2(14) == 0x4000;
    assert Pow2(20) == 0x10_0000;
  }

  lemma PackShifts(h: Limbs)
    requires Small(h)
    ensures Shr(h.a1, 64) < 0x10_0000 && Shr(h.a2, 0x1000) < 0x4000 && Shr(h.a3, 0x4_0000) < 0x100
  {
  }

  lemma PackIdentity(h: Limbs, q1: nat, r1: nat, q2: nat, r2: nat, q3: nat, r3: nat, q4: nat, r4: nat)
    requires h.a0 < M26 && h.a1 == 64 * q1 + r1 && h.a2 == 0x1000 * q2 + r2 && h.a3 == 0x4_0000 * q3 + r3
             && h.a4 == 0x100_0000 * q4 + r4
    requires r1 < 64 && r2 < 0x1000 && r3 < 0x4_0000 && r4 < 0x100_0000 && q1 < 0x10_0000 && q2 < 0x4000 && q3 < 0x100
    ensures WordsValue(Words(h.a0 + 0x400_0000 * r1, q1 + 0x10_0000 * r2, q2 + 0x4000 * r3, q3 + 0x100 * r4))
            == Value(h) % W128
  {
    var x := WordsValue(Words(h.a0 + 0x400_0000 * r1, q1 + 0x10_0000 * r2, q2 + 0x4000 * r3, q3 + 0x100 * r4));
    assert Value(h) == W128 * q4 + x;
    assert x < W128;
    DivModUnique(Value(h), q4, W128, x);
  }

  // ---------- mac = (h + pad) % (2^128) ----------

  /** The sums `f` of lines 272-278, each with the carry of the one before. */
  function Sums(x: Words, pad: Words): Words {
    var f0 := Wrap(x.w0 + pad.w0, W64);
    var f1 := Wrap(x.w1 + pad.w1 + Shr(f0, W32), W64);
    var f2 := Wrap(x.w2 + pad.w2 + Shr(f1, W32), W64);
    var f3 := Wrap(x.w3 + pad.w3 + Shr(f2, W32), W64);
    Words(f0, f1, f2, f3)
  }

  function Mac(w: nat, h: Limbs, pad: Words): (mac: Bytes)
    requires w > M26
    ensures |mac| == 16
  {
    var f := Sums(Pack(w, Canonical(w, FullCarry(w, h))), pad);
    U32Bytes(Wrap(f.w0, w)) + U32Bytes(Wrap(f.w1, w)) + U32Bytes(Wrap(f.w2, w)) + U32Bytes(Wrap(f.w3, w))
  }

  ghost predicate Fits(x: Words) {
    x.w0 < W32 && x.w1 < W32 && x.w2 < W32 && x.w3 < W32
  }

  lemma SumsValue(x: Words, pad: Words)
    requires Fits(x) && Fits(pad)
    ensures var f := Sums(x, pad);
            WordsValue(Words(Wrap(f.w0, W32), Wrap(f.w1, W32), Wrap(f.w2, W32), Wrap(f.w3, W32)))
            == (WordsValue(x) + WordsValue(pad)) % W128
  {
    hide Wrap, Shr, WordsValue;
    var f0 := x.w0 + pad.w0;
    NoWrap(f0, W64);
    SplitHalf(f0);
    var f1 := x.w1 + pad.w1 + Shr(f0, W32);
    NoWrap(f1, W64);
    SplitHalf(f1);
    var f2 := x.w2 + pad.w2 + Shr(f1, W32);
    NoWrap(f2, W64);
    SplitHalf(f2);
    var f3 := x.w3 + pad.w3 + Shr(f2, W32);
    NoWrap(f3, W64);
    SplitHalf(f3);
    SumsIdentity(x, pad, Wrap(f0, W32), Wrap(f1, W32), Wrap(f2, W32), Wrap(f3, W32), Shr(f0, W32), Shr(f1, W32),
                 Shr(f2, W32), Shr(f3, W32));
  }

  lemma SplitHalf(f: nat)
    ensures f == W32 * Shr(f, W32) + Wrap(f, W32) && Wrap(f, W32) < W32
  {
  }

  lemma SumsIdentity(x: Words, pad: Words, r0: nat, r1: nat, r2: nat, r3: nat, c0: nat, c1: nat, c2: nat, c3: nat)
    requires x.w0 + pad.w0 == W32 * c0 + r0 && x.w1 + pad.w1 + c0 == W32 * c1 + r1
    requires x.w2 + pad.w2 + c1 == W32 * c2 + r2 && x.w3 + pad.w3 + c2 == W32 * c3 + r3
    requires r0 < W32 && r1 < W32 && r2 < W32 && r3 < W32
    ensures WordsValue(Words(r0, r1, r2, r3)) == (WordsValue(x) + WordsValue(pad)) % W128
  {
    var v := WordsValue(Words(r0, r1, r2, r3));
    assert WordsValue(x) + WordsValue(pad) == W128 * c3 + v && v < W128;
    DivModUnique(WordsValue(x) + WordsValue(pad), c3, W128, v);
  }

  lemma LowHalf(w: nat, f: nat)
    requires Word(w)
    ensures U32(U32Bytes(Wrap(f, w)), 0) == Wrap(f, W32)
  {
    hide U32, U32Bytes;
    U32RoundTrip(Wrap(f, w));
    if w == W64 {
      var q, r := f / W64, f % W64;
      DivModUnique(f, W32 * q + r / W32, W32, r % W32);
    }
  }

  /** poly1305_finish: the accumulator reduced mod 2^130 - 5, plus the pad, mod 2^128. */
  lemma MacValue(w: nat, h: Limbs, pad: Words)
    requires Word(w) && Tight(h) && Fits(pad)
    ensures Le(Mac(w, h, pad)) == (Value(h) % P + WordsValue(pad)) % W128
  {
    hide FullCarry, Canonical, Pack, Sums, Value, Wrap, U32Bytes, U32, Le, WordsValue;
    var c := FullCarry(w, h);
    FullCarryValue(w, h);
    CanonicalValue(w, c);
    var x := Pack(w, Canonical(w, c));
    PackValue(w, Canonical(w, c));
    SmallResidue(Value(Canonical(w, c)), WordsValue(pad));
    var f := Sums(x, pad);
    SumsValue(x, pad);
    var a, b, d, e := U32Bytes(Wrap(f.w0, w)), U32Bytes(Wrap(f.w1, w)), U32Bytes(Wrap(f.w2, w)),
        U32Bytes(Wrap(f.w3, w));
    LowHalf(w, f.w0);
    LowHalf(w, f.w1);
    LowHalf(w, f.w2);
    LowHalf(w, f.w3);
    Le16Of(a, b, d, e);
  }

  lemma SmallResidue(x: int, y: int)
    ensures (x % W128 + y) % W128 == (x + y) % W128
  {
    var s := x % W128 + y;
    DivModUnique(x + y, x / W128 + s / W128, W128, s % W128);
  }

  lemma U32Slice(s: Bytes, i: nat, t: Bytes)
    requires i + 4 <= |s| && |t| == 4 && s[i..i + 4] == t
    ensures U32(s, i) == U32(t, 0)
  {
    hide Val;
    assert s[i] == t[0] && s[i + 1] == t[1] && s[i + 2] == t[2] && s[i + 3] == t[3];
  }

  lemma Le16Of(a: Bytes, b: Bytes, c: Bytes, d: Bytes)
    requires |a| == |b| == |c| == |d| == 4
    ensures Le(a + b + c + d) == WordsValue(Words(U32(a, 0), U32(b, 0), U32(c, 0), U32(d, 0)))
  {
    hide U32, Le;
    var s := a + b + c + d;
    Le16(s);
    U32Slice(s, 0, a);
    U32Slice(s, 4, b);
    U32Slice(s, 8, c);
    U32Slice(s, 12, d);
  }
}
