/** poly1305_init: the clamped multiplier as limbs. */
module PolyKey {
  import opened Arith
  import opened Bits
  import opened ByteStrings
  import opened LittleEndian
  import opened PolyLimbs
  import opened WordOps

  function Low4(b: bv8): bv8 { b & 15 }

  function High6(b: bv8): bv8 { b & 252 }

  /** r as section 2.5.1 of RFC 8439 clamps it, byte by byte. */
  function Clamped(k: Bytes): (c: Bytes)
    requires |k| == 16
    ensures |c| == 16
  {
    [k[0], k[1], k[2], Low4(k[3]), High6(k[4]), k[5], k[6], Low4(k[7]),
     High6(k[8]), k[9], k[10], Low4(k[11]), High6(k[12]), k[13], k[14], Low4(k[15])]
  }

  /** r as poly1305_init computes it, limb by limb. */
  function InitR(key: Bytes): Limbs
    requires |key| >= 16
  {
    Limbs(And(U32(key, 0), 0x3ff_ffff),
          And(Shr(U32(key, 3), 4), 0x3ff_ff03),
          And(Shr(U32(key, 6), 16), 0x3ff_c0ff),
          And(Shr(U32(key, 9), 64), 0x3f0_3fff),
          And(Shr(U32(key, 12), 256), 0x00f_ffff))
  }

  lemma ClampedBytes(b: bv8)
    ensures Val(Low4(b)) == Val(b) % 16
    ensures Val(High6(b)) == 4 * (Val(b) / 4)
  {
  }

  lemma Pow2s()
    ensures Pow2(2) == 4 && Pow2(4) == 0x10 && Pow2(6) == 0x40 && Pow2(8) == 0x100 && Pow2(12) == 0x1000
            && Pow2(14) == 0x4000
    ensures Pow2(18) == 0x4_0000 && Pow2(20) == 0x10_0000 && Pow2(26) == M26
  {
    assert Pow2(8) == 0x100;
    assert Pow2(14) == 0x4000;
    assert Pow2(20) == 0x10_0000;
  }

  /** A mask made of `k` ones, and of `lo` ones below `hi` ones that begin at bit `k`. */
  lemma Ones(x: nat, k: nat, p: nat)
    requires Pow2(k) == p
    ensures And(x, p - 1) == x % p
  {
    hide And, Low, Pow2;
    AndOnes(x, k);
    LowHigh(x, k);
  }

  lemma TwoRuns(x: nat, mask: nat, k: nat, p: nat, lo: nat, l: nat, hi: nat, u: nat)
    requires Pow2(k) == p && Pow2(lo) == l && Pow2(hi) == u
    requires mask % p == l - 1 && mask / p == u - 1
    ensures And(x, mask) == x % p % l + p * (x / p % u)
  {
    hide And, Low, High, Pow2;
    AndSplit(x, mask, k);
    LowHigh(x, k);
    LowHigh(mask, k);
    Ones(Low(x, k), lo, l);
    Ones(High(x, k), hi, u);
  }

  lemma Mask0(x: nat)
    ensures And(x, 0x3ff_ffff) == Mask(x)
  {
    hide And, Pow2;
    Pow2s();
    Ones(x, 26, M26);
  }

  lemma Mask1(x: nat)
    ensures And(x, 0x3ff_ff03) == x % 0x100 % 4 + 0x100 * (x / 0x100 % 0x4_0000)
  {
    hide And, Pow2;
    Pow2s();
    TwoRuns(x, 0x3ff_ff03, 8, 0x100, 2, 4, 18, 0x4_0000);
  }

  lemma Mask2(x: nat)
    ensures And(x, 0x3ff_c0ff) == x % 0x4000 % 0x100 + 0x4000 * (x / 0x4000 % 0x1000)
  {
    hide And, Pow2;
    Pow2s();
    TwoRuns(x, 0x3ff_c0ff, 14, 0x4000, 8, 0x100, 12, 0x1000);
  }

  lemma Mask3(x: nat)
    ensures And(x, 0x3f0_3fff) == x % 0x10_0000 % 0x4000 + 0x10_0000 * (x / 0x10_0000 % 0x40)
  {
    hide And, Pow2;
    Pow2s();
    TwoRuns(x, 0x3f0_3fff, 20, 0x10_0000, 14, 0x4000, 6, 0x40);
  }

  lemma Mask4(x: nat)
    ensures And(x, 0x00f_ffff) == x % 0x10_0000
  {
    hide And, Pow2;
    Pow2s();
    Ones(x, 20, 0x10_0000);
  }

  // Each limb in terms of the four key bytes `a`, `b`, `c`, `d` it is loaded from.

  lemma Limb1(a: nat, b: nat, c: nat, d: nat)
    requires a < 256 && b < 256 && c < 256 && d < 256
    ensures And(Shr(a + 0x100 * b + 0x1_0000 * c + 0x100_0000 * d, 4), 0x3ff_ff03) ==
            a % 16 / 4 + 0x40 * (4 * (b / 4)) + 0x4000 * c + 0x40_0000 * (d % 16)
  {
    hide And;
    var u := a / 4 + 0x40 * b + 0x4000 * c + 0x40_0000 * d;
    DivModUnique(a + 0x100 * b + 0x1_0000 * c + 0x100_0000 * d, u, 4, a % 4);
    Mask1(u);
    DivModUnique(u, b / 4 + 0x40 * c + 0x4000 * d, 0x100, a / 4 + 0x40 * (b % 4));
    DivModUnique(b / 4 + 0x40 * c + 0x4000 * d, d / 16, 0x4_0000, b / 4 + 0x40 * c + 0x4000 * (d % 16));
    DivModUnique(a / 4 + 0x40 * (b % 4), a / 16 + 0x10 * (b % 4), 4, a % 16 / 4);
  }

  lemma Limb2(a: nat, b: nat, c: nat, d: nat)
    requires a < 256 && b < 256 && c < 256 && d < 256
    ensures And(Shr(a + 0x100 * b + 0x1_0000 * c + 0x100_0000 * d, 16), 0x3ff_c0ff) ==
            a / 16 + 0x10 * (b % 16) + 0x1000 * (4 * (c / 4)) + 0x10_0000 * (d % 64)
  {
    hide And;
    var u := a / 16 + 0x10 * b + 0x1000 * c + 0x10_0000 * d;
    DivModUnique(a + 0x100 * b + 0x1_0000 * c + 0x100_0000 * d, u, 16, a % 16);
    Mask2(u);
    var low := a / 16 + 0x10 * b + 0x1000 * (c % 4);
    DivModUnique(u, c / 4 + 0x40 * d, 0x4000, low);
    DivModUnique(low, b / 16 + 0x10 * (c % 4), 0x100, a / 16 + 0x10 * (b % 16));
    DivModUnique(c / 4 + 0x40 * d, d / 64, 0x1000, c / 4 + 0x40 * (d % 64));
  }

  lemma Limb3(a: nat, b: nat, c: nat, d: nat)
    requires a < 256 && b < 256 && c < 256 && d < 256
    ensures And(Shr(a + 0x100 * b + 0x1_0000 * c + 0x100_0000 * d, 64), 0x3f0_3fff) ==
            a / 64 + 4 * b + 0x400 * (c % 16) + 0x4_0000 * (4 * (d / 4))
  {
    hide And;
    var u := a / 64 + 4 * b + 0x400 * c + 0x4_0000 * d;
    DivModUnique(a + 0x100 * b + 0x1_0000 * c + 0x100_0000 * d, u, 64, a % 64);
    Mask3(u);
    var low := a / 64 + 4 * b + 0x400 * c + 0x4_0000 * (d % 4);
    DivModUnique(u, d / 4, 0x10_0000, low);
    DivModUnique(low, c / 16 + 0x10 * (d % 4), 0x4000, a / 64 + 4 * b + 0x400 * (c % 16));
    SmallMod(d / 4, 0x40);
  }

  lemma Limb4(a: nat, b: nat, c: nat, d: nat)
    requires a < 256 && b < 256 && c < 256 && d < 256
    ensures And(Shr(a + 0x100 * b + 0x1_0000 * c + 0x100_0000 * d, 256), 0x00f_ffff)
            == b + 0x100 * c + 0x1_0000 * (d % 16)
  {
    hide And;
    var u := b + 0x100 * c + 0x1_0000 * d;
    DivModUnique(a + 0x100 * b + 0x1_0000 * c + 0x100_0000 * d, u, 256, a);
    Mask4(u);
    DivModUnique(u, d / 16, 0x10_0000, b + 0x100 * c + 0x1_0000 * (d % 16));
  }

  lemma Limb0(a: nat, b: nat, c: nat, d: nat)
    requires a < 256 && b < 256 && c < 256 && d < 256
    ensures And(a + 0x100 * b + 0x1_0000 * c + 0x100_0000 * d, 0x3ff_ffff)
            == a + 0x100 * b + 0x1_0000 * c + 0x100_0000 * (d % 16 % 4)
  {
    hide And, Mask;
    Mask0(a + 0x100 * b + 0x1_0000 * c + 0x100_0000 * d);
    Cut0(a, b, c, d);
    Low2(d);
  }

  lemma Low2(d: nat)
    ensures d % 16 % 4 == d % 4
  {
  }

  // The limbs poly1305_init computes are those loaded from the clamped bytes.

  lemma InitLimb0(key: Bytes)
    requires |key| >= 16
    ensures InitR(key).a0 == Loaded(Clamped(key[..16])).a0
  {
    hide Val, And, Shr, Mask, Low4, High6;
    var c := Clamped(key[..16]);
    ClampedBytes(key[3]);
    Limb0(Val(key[0]), Val(key[1]), Val(key[2]), Val(key[3]));
    Cut0(Val(c[0]), Val(c[1]), Val(c[2]), Val(c[3]));
  }

  lemma InitLimb1(key: Bytes)
    requires |key| >= 16
    ensures InitR(key).a1 == Loaded(Clamped(key[..16])).a1
  {
    hide Val, And, Shr, Mask, Low4, High6;
    var c := Clamped(key[..16]);
    ClampedBytes(key[3]);
    ClampedBytes(key[4]);
    Limb1(Val(key[3]), Val(key[4]), Val(key[5]), Val(key[6]));
    Cut2(Val(c[3]), Val(c[4]), Val(c[5]), Val(c[6]));
  }

  lemma InitLimb2(key: Bytes)
    requires |key| >= 16
    ensures InitR(key).a2 == Loaded(Clamped(key[..16])).a2
  {
    hide Val, And, Shr, Mask, Low4, High6;
    var c := Clamped(key[..16]);
    ClampedBytes(key[7]);
    ClampedBytes(key[8]);
    Limb2(Val(key[6]), Val(key[7]), Val(key[8]), Val(key[9]));
    Cut4(Val(c[6]), Val(c[7]), Val(c[8]), Val(c[9]));
  }

  lemma InitLimb3(key: Bytes)
    requires |key| >= 16
    ensures InitR(key).a3 == Loaded(Clamped(key[..16])).a3
  {
    hide Val, And, Shr, Mask, Low4, High6;
    var c := Clamped(key[..16]);
    ClampedBytes(key[11]);
    ClampedBytes(key[12]);
    Limb3(Val(key[9]), Val(key[10]), Val(key[11]), Val(key[12]));
    Cut6(Val(c[9]), Val(c[10]), Val(c[11]), Val(c[12]));
  }

  lemma InitLimb4(key: Bytes)
    requires |key| >= 16
    ensures InitR(key).a4 == Loaded(Clamped(key[..16])).a4
  {
    hide Val, And, Shr, Mask, Low4, High6;
    var c := Clamped(key[..16]);
    ClampedBytes(key[12]);
    ClampedBytes(key[15]);
    Limb4(Val(key[12]), Val(key[13]), Val(key[14]), Val(key[15]));
    Cut8(Val(c[12]), Val(c[13]), Val(c[14]), Val(c[15]));
  }

  /** poly1305_init loads the clamped key: the five masks and RFC 8439's byte masks agree. */
  lemma InitRIsClamped(key: Bytes)
    requires |key| >= 16
    ensures Small(InitR(key)) && Value(InitR(key)) == Le(Clamped(key[..16]))
  {
    hide InitR, Loaded, Le, Value, Small, Clamped;
    InitLimb0(key);
    InitLimb1(key);
    InitLimb2(key);
    InitLimb3(key);
    InitLimb4(key);
    LoadIsLe(Clamped(key[..16]));
    assert InitR(key) == Loaded(Clamped(key[..16]));
  }

  // ---------- clamping is one mask of 128 bits ----------

  /** The mask of section 2.5.1, byte by byte. */
  function MaskByte(i: nat): bv8 { if i % 4 == 3 then 0x0f else if i % 4 == 0 && i > 0 then 0xfc else 0xff }

  const MASK: Bytes := seq(16, i requires 0 <= i < 16 => MaskByte(i))

  lemma MaskBytes(b: bv8)
    ensures And(Val(b), Val(255)) == Val(b)
    ensures And(Val(b), Val(15)) == Val(Low4(b))
    ensures And(Val(b), Val(252)) == Val(High6(b))
  {
    hide And, Low, High, Pow2, Low4, High6, Val;
    ClampedBytes(b);
    MaskVals();
    Pow2s();
    Ones(Val(b), 8, 256);
    Ones(Val(b), 4, 16);
    TopRun(Val(b));
  }

  lemma MaskVals()
    ensures Val(255) == 255 && Val(15) == 15 && Val(252) == 252
  {
  }

  lemma TopRun(v: nat)
    requires v < 256
    ensures And(v, 252) == 4 * (v / 4)
  {
    hide And, Low, High, Pow2;
    Pow2s();
    AndSplit(v, 252, 2);
    LowHigh(v, 2);
    LowHigh(252, 2);
    AndZero(Low(v, 2));
    Ones(v / 4, 6, 64);
  }

  /** A mask applied byte by byte. */
  lemma {:induction false} AndBytes(s: Bytes, m: Bytes, c: Bytes)
    requires |s| == |m| == |c|
    requires forall i :: 0 <= i < |s| ==> Val(c[i]) == And(Val(s[i]), Val(m[i]))
    ensures Le(c) == And(Le(s), Le(m))
  {
    if s != [] {
      hide And, Val, Low, High, Pow2;
      AndBytes(s[1..], m[1..], c[1..]);
      Pow2s();
      AndSplit(Le(s), Le(m), 8);
      ByteSplit(s);
      ByteSplit(m);
    }
  }

  lemma ByteSplit(s: Bytes)
    requires s != []
    ensures Low(Le(s), 8) == Val(s[0]) && High(Le(s), 8) == Le(s[1..])
  {
    hide Val, Low, High, Pow2;
    Pow2s();
    LowHigh(Le(s), 8);
    DivModUnique(Le(s), Le(s[1..]), 256, Val(s[0]));
  }

  lemma MaskValue()
    ensures Le(MASK) == 0x0fff_fffc_0fff_fffc_0fff_fffc_0fff_ffff
  {
    hide Le, U32, MASK;
    MaskWords();
    Le16(MASK);
  }

  lemma MaskWords()
    ensures |MASK| == 16 && U32(MASK, 0) == 0x0fff_ffff
    ensures U32(MASK, 4) == 0x0fff_fffc && U32(MASK, 8) == 0x0fff_fffc && U32(MASK, 12) == 0x0fff_fffc
  {
  }

  /** Three kinds of bytes: whole ones, the last of each word, and the first of each word but the first. */
  lemma ClampedAt(k: Bytes, i: nat)
    requires |k| == 16 && i < 16
    ensures MaskByte(i) == 0xff ==> Clamped(k)[i] == k[i]
    ensures MaskByte(i) == 0x0f ==> Clamped(k)[i] == Low4(k[i])
    ensures MaskByte(i) == 0xfc ==> Clamped(k)[i] == High6(k[i])
  {
    hide Low4, High6;
  }

  /** Clamping clears 22 bits of the number: those outside the mask of section 2.5.1. */
  lemma ClampIsMask(k: Bytes)
    requires |k| == 16
    ensures Le(Clamped(k)) == And(Le(k), 0x0fff_fffc_0fff_fffc_0fff_fffc_0fff_ffff)
  {
    hide And, Val, Le, Clamped, Low4, High6;
    MaskValue();
    MaskWords();
    forall i | 0 <= i < 16
      ensures Val(Clamped(k)[i]) == And(Val(k[i]), Val(MASK[i]))
    {
      ClampedAt(k, i);
      MaskBytes(k[i]);
    }
    AndBytes(k, MASK, Clamped(k));
  }
}
