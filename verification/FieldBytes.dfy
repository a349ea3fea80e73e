/** Encoding and decoding field elements of curve25519.c. */
module FieldBytes {
  import opened Arith
  import opened Bits
  import opened ByteStrings
  import opened LittleEndian
  import opened WordBits
  import opened WordOps
  import opened FieldLimbs

  const T255: nat := 0x8000_0000_0000_0000_0000_0000_0000_0000_0000_0000_0000_0000_0000_0000_0000_0000    // 2^255

  // ---------- fe_freeze ----------

  /** subborrow_u26 and subborrow_u25: the 32-bit difference a - b - c, cut to its low bits, and its sign. */
  method SubBorrow(c: nat, a: nat, b: nat, m: nat) returns (low: nat, borrow: nat)
    requires m == M26 || m == M25
    requires c <= 1 && b < m && a < b + m
    ensures a - b - c == low - m * borrow && borrow <= 1 && low < m
  {
    var x := Wrap(a + 2 * W32 - b - c, W32);
    low, borrow := Wrap(x, m), Shr(x, 0x8000_0000);
    var d := a - b - c;
    if d >= 0 {
      DivModUnique(d + 2 * W32, 2, W32, d);
      SmallMod(d, 0x8000_0000);
      SmallMod(d, m);
    } else {
      DivModUnique(d + 2 * W32, 1, W32, d + W32);
      DivModUnique(d + W32, 1, 0x8000_0000, d + 0x8000_0000);
      DivModUnique(d + W32, W32 / m - 1, m, d + m);
    }
  }

  /** addcarryx_u26 and addcarryx_u25: the sum a + b + c, cut to its low bits, and the bit above them. */
  method AddCarry(c: nat, a: nat, b: nat, m: nat) returns (low: nat, carry: nat)
    requires m == M26 || m == M25
    requires c <= 1 && a < m && b < m
    ensures a + b + c == low + m * carry && carry <= 1 && low < m
  {
    var x := Wrap(a + b + c, W32);
    low, carry := Wrap(x, m), Wrap(Shr(x, m), 2);
    NoWrap(a + b + c, W32);
    if x < m {
      SmallMod(x, m);
    } else {
      DivModUnique(x, 1, m, x - m);
    }
  }

  /** All limbs within 26 and 25 bits. */
  ghost predicate Reduced(f: Fe) { Within(f, M26 - 1, M25 - 1) }

  /** The limbs of P. */
  const LIMBS_OF_P := Fe(0x3ff_ffed, 0x1ff_ffff, 0x3ff_ffff, 0x1ff_ffff, 0x3ff_ffff,
                         0x1ff_ffff, 0x3ff_ffff, 0x1ff_ffff, 0x3ff_ffff, 0x1ff_ffff)

  /** x + y + c is z and the carry d, in an even or an odd limb. */
  ghost predicate Even(x: nat, y: nat, c: nat, z: nat, d: nat) { x + y + c == z + 0x400_0000 * d }

  ghost predicate Odd(x: nat, y: nat, c: nat, z: nat, d: nat) { x + y + c == z + 0x200_0000 * d }

  /** Limb by limb, x + y is z with the carries c. */
  ghost predicate Carries(x: Fe, y: Fe, z: Fe, c: Fe) {
    && Even(x.v0, y.v0, 0, z.v0, c.v0) && Odd(x.v1, y.v1, c.v0, z.v1, c.v1)
    && Even(x.v2, y.v2, c.v1, z.v2, c.v2) && Odd(x.v3, y.v3, c.v2, z.v3, c.v3)
    && Even(x.v4, y.v4, c.v3, z.v4, c.v4) && Odd(x.v5, y.v5, c.v4, z.v5, c.v5)
    && Even(x.v6, y.v6, c.v5, z.v6, c.v6) && Odd(x.v7, y.v7, c.v6, z.v7, c.v7)
    && Even(x.v8, y.v8, c.v7, z.v8, c.v8) && Odd(x.v9, y.v9, c.v8, z.v9, c.v9)
  }

  lemma CarriesAdd(x: Fe, y: Fe, z: Fe, c: Fe)
    requires Carries(x, y, z, c)
    ensures Value(x) + Value(y) == Above255(Value(z), c.v9)
  {
  }

  lemma ValueOfP()
    ensures Value(LIMBS_OF_P) == P && Above255(0, 1) == T255 && Value(Fe(0, 0, 0, 0, 0, 0, 0, 0, 0, 0)) == 0
  {
  }

  /** Subtract the modulus limb by limb; the last borrow tells whether that went below zero. */
  method MinusP(f: Fe) returns (g: Fe, borrow: nat)
    requires Tight(f)
    ensures Reduced(g) && borrow <= 1 && Value(g) == Value(f) - P + T255 * borrow
  {
    hide Value;
    var g0, b0 := SubBorrow(0, f.v0, 0x3ff_ffed, M26);
    var g1, b1 := SubBorrow(b0, f.v1, 0x1ff_ffff, M25);
    var g2, b2 := SubBorrow(b1, f.v2, 0x3ff_ffff, M26);
    var g3, b3 := SubBorrow(b2, f.v3, 0x1ff_ffff, M25);
    var g4, b4 := SubBorrow(b3, f.v4, 0x3ff_ffff, M26);
    var g5, b5 := SubBorrow(b4, f.v5, 0x1ff_ffff, M25);
    var g6, b6 := SubBorrow(b5, f.v6, 0x3ff_ffff, M26);
    var g7, b7 := SubBorrow(b6, f.v7, 0x1ff_ffff, M25);
    var g8, b8 := SubBorrow(b7, f.v8, 0x3ff_ffff, M26);
    var g9, b9 := SubBorrow(b8, f.v9, 0x1ff_ffff, M25);
    g, borrow := Fe(g0, g1, g2, g3, g4, g5, g6, g7, g8, g9), b9;
    ValueOfP();
    CarriesAdd(g, LIMBS_OF_P, f, Fe(b0, b1, b2, b3, b4, b5, b6, b7, b8, b9));
  }

  lemma MaskIs(c: nat, mask: nat)
    requires c < 0x400_0000 && (mask == 0 || mask == 0xffff_ffff)
    ensures And(c, mask) == if mask == 0 then 0 else c
  {
    hide And;
    MaskKeeps(c);
    AndZero(c);
  }

  /** Add the modulus under the mask; the last carry is dropped. */
  method PlusP(g: Fe, mask: nat) returns (h: Fe, ghost carry: nat)
    requires Reduced(g) && (mask == 0 || mask == 0xffff_ffff)
    ensures Reduced(h)
    ensures Value(h) + T255 * carry == Value(g) + if mask == 0 then 0 else P
  {
    hide Value, And;
    MaskIs(0x3ff_ffed, mask);
    MaskIs(0x1ff_ffff, mask);
    MaskIs(0x3ff_ffff, mask);
    var h0, c0 := AddCarry(0, g.v0, And(0x3ff_ffed, mask), M26);
    var h1, c1 := AddCarry(c0, g.v1, And(0x1ff_ffff, mask), M25);
    var h2, c2 := AddCarry(c1, g.v2, And(0x3ff_ffff, mask), M26);
    var h3, c3 := AddCarry(c2, g.v3, And(0x1ff_ffff, mask), M25);
    var h4, c4 := AddCarry(c3, g.v4, And(0x3ff_ffff, mask), M26);
    var h5, c5 := AddCarry(c4, g.v5, And(0x1ff_ffff, mask), M25);
    var h6, c6 := AddCarry(c5, g.v6, And(0x3ff_ffff, mask), M26);
    var h7, c7 := AddCarry(c6, g.v7, And(0x1ff_ffff, mask), M25);
    var h8, c8 := AddCarry(c7, g.v8, And(0x3ff_ffff, mask), M26);
    var h9, c9 := AddCarry(c8, g.v9, And(0x1ff_ffff, mask), M25);
    h, carry := Fe(h0, h1, h2, h3, h4, h5, h6, h7, h8, h9), c9;
    ValueOfP();
    ghost var p := if mask == 0 then Fe(0, 0, 0, 0, 0, 0, 0, 0, 0, 0) else LIMBS_OF_P;
    CarriesAdd(g, p, h, Fe(c0, c1, c2, c3, c4, c5, c6, c7, c8, c9));
  }

  lemma ValueBounds(f: Fe)
    ensures Tight(f) ==> Value(f) < 2 * P
    ensures Reduced(f) ==> Value(f) < P + 19
  {
  }

  /** Every tight element is brought to its only representative below P. */
  method Freeze(f: Fe) returns (h: Fe)
    requires Tight(f)
    ensures Reduced(h) && Value(h) == Value(f) % P
  {
    hide Value, Tight, Reduced;
    var g, borrow := MinusP(f);
    var mask := if borrow != 0 then 0xffff_ffff else 0;
    ghost var carry;
    h, carry := PlusP(g, mask);
    ValueBounds(f);
    ValueBounds(g);
    ValueBounds(h);
    if mask == 0 {
      DivModUnique(Value(f), 1, P, Value(f) - P);
    } else {
      SmallMod(Value(f), P);
    }
  }

  // ---------- fe_tobytes ----------

  /** (x >> s) | (y << k) as a byte, with 2^s == p and 2^k == q */
  function Join(x: nat, p: nat, y: nat, q: nat): bv8
    requires p > 0
  {
    Byte(Or(Shr(x, p), y * q))
  }

  /** The byte of `x` that begins at bit s, with 2^s == p */
  function Cut(x: nat, p: nat): bv8
    requires p > 0
  {
    Byte(Shr(x, p))
  }

  function PackFirst(h: Fe): (s: Bytes)
    ensures |s| == 16
  {
    [Cut(h.v0, 1), Cut(h.v0, 0x100), Cut(h.v0, 0x1_0000), Join(h.v0, 0x100_0000, h.v1, 4),
     Cut(h.v1, 0x40), Cut(h.v1, 0x4000), Join(h.v1, 0x40_0000, h.v2, 8),
     Cut(h.v2, 0x20), Cut(h.v2, 0x2000), Join(h.v2, 0x20_0000, h.v3, 32),
     Cut(h.v3, 0x8), Cut(h.v3, 0x800), Join(h.v3, 0x8_0000, h.v4, 64),
     Cut(h.v4, 0x4), Cut(h.v4, 0x400), Cut(h.v4, 0x4_0000)]
  }

  function PackSecond(h: Fe): (s: Bytes)
    ensures |s| == 16
  {
    [Cut(h.v5, 1), Cut(h.v5, 0x100), Cut(h.v5, 0x1_0000), Join(h.v5, 0x100_0000, h.v6, 2),
     Cut(h.v6, 0x80), Cut(h.v6, 0x8000), Join(h.v6, 0x80_0000, h.v7, 8),
     Cut(h.v7, 0x20), Cut(h.v7, 0x2000), Join(h.v7, 0x20_0000, h.v8, 16),
     Cut(h.v8, 0x10), Cut(h.v8, 0x1000), Join(h.v8, 0x10_0000, h.v9, 64),
     Cut(h.v9, 0x4), Cut(h.v9, 0x400), Cut(h.v9, 0x4_0000)]
  }

  lemma JoinIs(x: nat, p: nat, y: nat, k: nat, q: nat, r: nat)
    requires p > 0 && Pow2(k) == q && 0 < r && q * r == 256 && Shr(x, p) < q
    ensures Val(Join(x, p, y, q)) == Shr(x, p) + q * Wrap(y, r)
  {
    hide Or, Val, Byte, Shr, Low, High, Pow2;
    var a := Shr(x, p);
    var d, t := y / r, Wrap(y, r);
    ModOfMultiple(y, q);
    SmallMod(a, q);
    LowHigh(a, k);
    LowHigh(y * q, k);
    OrDisjoint(a, y * q, k);
    ByteVal(a + y * q);
    ScaleSplit(y, q, r, d, t);
    DivModUnique(a + y * q, d, 256, a + q * t);
  }

  lemma ScaleSplit(y: nat, q: nat, r: nat, d: nat, t: nat)
    requires q * r == 256 && y == d * r + t && t < r
    ensures y * q == d * 256 + q * t && q * t + q <= 256
  {
    assert y * q == d * (q * r) + q * t;
    assert q * t <= q * (r - 1);
    assert q * (r - 1) == q * r - q;
  }

  lemma Pow2s()
    ensures Pow2(1) == 2 && Pow2(2) == 4 && Pow2(3) == 8 && Pow2(4) == 16 && Pow2(5) == 32 && Pow2(6) == 64
  {
  }

  /** A limb is made of what the byte below takes of it, two whole bytes, and the rest. */
  lemma Digits(x: nat, r: nat, r8: nat, r16: nat)
    requires 0 < r && r8 == 256 * r && r16 == 256 * r8
    ensures x == Wrap(x, r) + r * Val(Cut(x, r)) + r8 * Val(Cut(x, r8)) + r16 * Shr(x, r16)
  {
    hide Val, Byte;
    var y, t := x / r, x % r;
    var z, u := y / 256, y % 256;
    ByteVal(y);
    NestedDiv(x, r, 256);
    NestedDiv(x, r8, 256);
    ByteVal(z);
    DigitsIdentity(x, r, y, t, z, u, z / 256, z % 256);
  }

  lemma NestedDiv(x: nat, r: nat, m: nat)
    requires r > 0 && m > 0
    ensures m * r > 0 && x / (m * r) == x / r / m
  {
    var y, t := x / r, x % r;
    var z, u := y / m, y % m;
    DivMod(x, r);
    DivMod(y, m);
    Regroup(z, m, u, r, t);
    DivModUnique(x, z, m * r, u * r + t);
  }

  lemma Regroup(z: nat, m: nat, u: nat, r: nat, t: nat)
    requires u < m && t < r
    ensures (z * m + u) * r + t == z * (m * r) + (u * r + t) && u * r + t < m * r
  {
    assert (z * m + u) * r == z * m * r + u * r;
    MulAtLeast(m - u, r);
    assert (m - u) * r == m * r - u * r;
  }

  lemma DigitsIdentity(x: int, r: int, y: int, t: int, z: int, u: int, w: int, v: int)
    requires x == y * r + t && y == z * 256 + u && z == w * 256 + v
    ensures x == t + r * u + 256 * r * v + 65536 * r * w
  {
  }

  /** The last limb of each half ends with a byte of its own. */
  lemma LastByte(x: nat, p: nat)
    requires p > 0 && Shr(x, p) < 256
    ensures Val(Cut(x, p)) == Shr(x, p)
  {
    hide Val, Byte;
    ByteVal(Shr(x, p));
    SmallMod(Shr(x, p), 256);
  }

  lemma TopBits(x: nat, p: nat, q: nat)
    requires p > 0 && x < q * p
    ensures Shr(x, p) < q
  {
    assert (x / p - q) * p < 0;
    MulAtLeast(x / p - q, p);
  }

  /** Four bytes of sixteen as a number. */
  ghost function Sum4(s: Bytes, i: nat): int
    requires i + 4 <= |s|
  {
    Val(s[i]) + 0x100 * Val(s[i + 1]) + 0x1_0000 * Val(s[i + 2]) + 0x100_0000 * Val(s[i + 3])
  }

  ghost function Sum16(s: Bytes): int
    requires |s| == 16
  {
    Sum4(s, 0) + 0x1_0000_0000 * (Sum4(s, 4) + 0x1_0000_0000 * (Sum4(s, 8) + 0x1_0000_0000 * Sum4(s, 12)))
  }

  /** Five limbs as a number, with odd limbs of weight `w` more than the even limbs below them. */
  ghost function Sum5(v0: int, v1: int, v2: int, v3: int, v4: int, w: int): int {
    v0 + w * v1 + 0x8_0000_0000_0000 * (v2 + w * v3 + 0x8_0000_0000_0000 * v4)
  }

  lemma FirstIdentity(v0: int, v1: int, v2: int, v3: int, v4: int, s: Bytes,
                      x0: int, x1: int, x2: int, x3: int, w1: int, w2: int, w3: int, w4: int)
    requires |s| == 16
    requires v0 == Val(s[0]) + 0x100 * Val(s[1]) + 0x1_0000 * (Val(s[2]) + 256 * x0) && Val(s[3]) == x0 + 4 * w1
    requires v1 == w1 + 64 * Val(s[4]) + 0x4000 * Val(s[5]) + 0x40_0000 * x1 && Val(s[6]) == x1 + 8 * w2
    requires v2 == w2 + 32 * Val(s[7]) + 0x2000 * Val(s[8]) + 0x20_0000 * x2 && Val(s[9]) == x2 + 32 * w3
    requires v3 == w3 + 8 * Val(s[10]) + 0x800 * Val(s[11]) + 0x8_0000 * x3 && Val(s[12]) == x3 + 64 * w4
    requires v4 == w4 + 4 * Val(s[13]) + 0x400 * Val(s[14]) + 0x4_0000 * Val(s[15])
    ensures Sum5(v0, v1, v2, v3, v4, M26) == Sum16(s)
  {
    hide Val;
  }

  lemma SecondIdentity(v0: int, v1: int, v2: int, v3: int, v4: int, s: Bytes,
                       x0: int, x1: int, x2: int, x3: int, w1: int, w2: int, w3: int, w4: int)
    requires |s| == 16
    requires v0 == Val(s[0]) + 0x100 * Val(s[1]) + 0x1_0000 * (Val(s[2]) + 256 * x0) && Val(s[3]) == x0 + 2 * w1
    requires v1 == w1 + 128 * Val(s[4]) + 0x8000 * Val(s[5]) + 0x80_0000 * x1 && Val(s[6]) == x1 + 8 * w2
    requires v2 == w2 + 32 * Val(s[7]) + 0x2000 * Val(s[8]) + 0x20_0000 * x2 && Val(s[9]) == x2 + 16 * w3
    requires v3 == w3 + 16 * Val(s[10]) + 0x1000 * Val(s[11]) + 0x10_0000 * x3 && Val(s[12]) == x3 + 64 * w4
    requires v4 == w4 + 4 * Val(s[13]) + 0x400 * Val(s[14]) + 0x4_0000 * Val(s[15])
    ensures Sum5(v0, v1, v2, v3, v4, M25) == Sum16(s)
  {
    hide Val;
  }

  lemma LeBytes(s: Bytes)
    requires |s| == 16
    ensures Le(s) == Sum16(s)
  {
    hide Val, Le;
    Le16(s);
  }

  /** What the bytes hold of a limb `x` whose low bits (below r) went to the byte before it. */
  lemma LimbSplits(x: nat, r: nat, r8: nat, r16: nat, y: nat, k: nat, q: nat, m: nat)
    requires 0 < r && r8 == 256 * r && r16 == 256 * r8
    requires Pow2(k) == q && 0 < m && q * m == 256 && x < q * r16
    ensures x == Wrap(x, r) + r * Val(Cut(x, r)) + r8 * Val(Cut(x, r8)) + r16 * Shr(x, r16)
    ensures Val(Join(x, r16, y, q)) == Shr(x, r16) + q * Wrap(y, m)
  {
    hide Val, Cut, Join, Shr, Pow2, Wrap;
    TopBits(x, r16, q);
    Digits(x, r, r8, r16);
    JoinIs(x, r16, y, k, q, m);
  }

  /** The same for the first limb of a half, which begins with whole bytes. */
  lemma FirstLimbSplits(x: nat, y: nat, k: nat, q: nat, m: nat)
    requires Pow2(k) == q && 0 < m && q * m == 256 && x < q * 0x100_0000
    ensures x == Val(Cut(x, 1)) + 0x100 * Val(Cut(x, 0x100))
                 + 0x1_0000 * (Val(Cut(x, 0x1_0000)) + 256 * Shr(x, 0x100_0000))
    ensures Val(Join(x, 0x100_0000, y, q)) == Shr(x, 0x100_0000) + q * Wrap(y, m)
  {
    hide Val, Cut, Join, Shr, Pow2, Wrap;
    TopBits(x, 0x100_0000, q);
    Digits(x, 1, 0x100, 0x1_0000);
    WholeByte(x);
    JoinIs(x, 0x100_0000, y, k, q, m);
  }

  /** The same for the last limb of a half, which ends with a byte of its own. */
  lemma LastLimbSplits(x: nat)
    requires x < 0x400_0000
    ensures x == Wrap(x, 4) + 4 * Val(Cut(x, 4)) + 0x400 * Val(Cut(x, 0x400)) + 0x4_0000 * Val(Cut(x, 0x4_0000))
  {
    hide Val, Cut, Shr, Wrap;
    TopBits(x, 0x4_0000, 256);
    Digits(x, 4, 0x400, 0x4_0000);
    LastByte(x, 0x4_0000);
  }

  /** A half of the encoding: five limbs as a number and as sixteen bytes. */
  lemma FirstHalf(h: Fe)
    requires Reduced(h)
    ensures Sum5(h.v0, h.v1, h.v2, h.v3, h.v4, M26) == Le(PackFirst(h))
  {
    hide Val, Cut, Join, Shr, Le, Pow2, Wrap, Sum5, Sum16;
    var s := PackFirst(h);
    LeBytes(s);
    Pow2s();
    FirstLimbSplits(h.v0, h.v1, 2, 4, 64);
    LimbSplits(h.v1, 64, 0x4000, 0x40_0000, h.v2, 3, 8, 32);
    LimbSplits(h.v2, 32, 0x2000, 0x20_0000, h.v3, 5, 32, 8);
    LimbSplits(h.v3, 8, 0x800, 0x8_0000, h.v4, 6, 64, 4);
    LastLimbSplits(h.v4);
    FirstIdentity(h.v0, h.v1, h.v2, h.v3, h.v4, s,
                  Shr(h.v0, 0x100_0000), Shr(h.v1, 0x40_0000), Shr(h.v2, 0x20_0000), Shr(h.v3, 0x8_0000),
                  Wrap(h.v1, 64), Wrap(h.v2, 32), Wrap(h.v3, 8), Wrap(h.v4, 4));
  }

  lemma SecondHalf(h: Fe)
    requires Reduced(h)
    ensures Sum5(h.v5, h.v6, h.v7, h.v8, h.v9, M25) == Le(PackSecond(h))
  {
    hide Val, Cut, Join, Shr, Le, Pow2, Wrap, Sum5, Sum16;
    var s := PackSecond(h);
    LeBytes(s);
    Pow2s();
    FirstLimbSplits(h.v5, h.v6, 1, 2, 128);
    LimbSplits(h.v6, 128, 0x8000, 0x80_0000, h.v7, 3, 8, 32);
    LimbSplits(h.v7, 32, 0x2000, 0x20_0000, h.v8, 4, 16, 16);
    LimbSplits(h.v8, 16, 0x1000, 0x10_0000, h.v9, 6, 64, 4);
    LastLimbSplits(h.v9);
    SecondIdentity(h.v5, h.v6, h.v7, h.v8, h.v9, s,
                   Shr(h.v5, 0x100_0000), Shr(h.v6, 0x80_0000), Shr(h.v7, 0x20_0000), Shr(h.v8, 0x10_0000),
                   Wrap(h.v6, 128), Wrap(h.v7, 32), Wrap(h.v8, 16), Wrap(h.v9, 4));
  }

  /** The first limb of a half begins with whole bytes. */
  lemma WholeByte(x: nat)
    ensures Wrap(x, 1) == 0
    ensures Shr(x, 0x1_0000) == Val(Cut(x, 0x1_0000)) + 256 * Shr(x, 0x100_0000)
  {
    hide Val, Byte;
    NestedDiv(x, 0x1_0000, 256);
    ByteVal(Shr(x, 0x1_0000));
  }

  /** Two halves of sixteen bytes. */
  lemma LeHalves(s: Bytes, t: Bytes)
    requires |s| == |t| == 16
    ensures Le(s + t) == Le(s) + 0x1_0000_0000_0000_0000_0000_0000_0000_0000 * Le(t)
  {
    LeConcat(s, t);
    hide Le;
    assert Pow256(8) == 0x1_0000_0000_0000_0000;
    assert Pow256(16) == 0x1_0000_0000_0000_0000_0000_0000_0000_0000;
  }

  lemma PackValue(h: Fe)
    requires Reduced(h)
    ensures Le(PackFirst(h) + PackSecond(h)) == Value(h)
  {
    hide PackFirst, PackSecond, Le, Reduced;
    FirstHalf(h);
    SecondHalf(h);
    LeHalves(PackFirst(h), PackSecond(h));
  }

  /** fe_tobytes writes the representative below P, least significant byte first. */
  method ToBytes(f: Fe) returns (s: Bytes)
    requires Tight(f)
    ensures |s| == 32 && Le(s) == Value(f) % P
  {
    hide PackFirst, PackSecond, Le, Value, Tight, Reduced;
    var h := Freeze(f);
    s := PackFirst(h) + PackSecond(h);
    PackValue(h);
  }

  // ---------- fe_frombytes ----------

  /** (a >> s) | (b << k): the high bits of one word below the low bits of the next. */
  lemma Weave(a: nat, p: nat, b: nat, k: nat, q: nat)
    requires 0 < p && Pow2(k) == q && p * q == W32 && a < W32
    ensures Shr(a, p) < q && Or(Shr(a, p), b * q) == Shr(a, p) + b * q
    ensures a == p * Shr(a, p) + Wrap(a, p) && Wrap(a, p) < p
  {
    hide Or, Low, High, Pow2;
    TopBits(a, p, q);
    var x := a / p;
    ModOfMultiple(b, q);
    SmallMod(x, q);
    LowHigh(x, k);
    LowHigh(b * q, k);
    OrDisjoint(x, b * q, k);
  }

  lemma MorePow2s()
    ensures Pow2(6) == 0x40 && Pow2(7) == 0x80 && Pow2(13) == 0x2000 && Pow2(19) == 0x8_0000 && Pow2(20) == 0x10_0000
  {
    assert Pow2(7) == 0x80;
    assert Pow2(13) == 0x2000;
  }

  lemma WrapBound(x: nat, m: nat)
    requires m > 0
    ensures x == m * Shr(x, m) + Wrap(x, m) && Wrap(x, m) < m
  {
  }

  /** fe_frombytes reads a number and drops its top bit. */
  method FromBytes(s: Bytes) returns (h: Fe)
    requires |s| == 32
    ensures Reduced(h) && Value(h) == Le(s) % T255
  {
    hide Or, Shr, Wrap, U32, Le, Pow2, Value;
    var a0, a1, a2, a3 := U32(s, 0), U32(s, 4), U32(s, 8), U32(s, 12);
    var a4, a5, a6, a7 := U32(s, 16), U32(s, 20), U32(s, 24), U32(s, 28);
    h := Fe(Wrap(a0, M26),
       Or(Shr(a0, 0x400_0000), Wrap(a1, 0x8_0000) * 0x40),
       Or(Shr(a1, 0x8_0000), Wrap(a2, 0x2000) * 0x2000),
       Or(Shr(a2, 0x2000), Wrap(a3, 0x40) * 0x8_0000),
       Shr(a3, 0x40),
       Wrap(a4, M25),
       Or(Shr(a4, 0x200_0000), Wrap(a5, 0x8_0000) * 0x80),
       Or(Shr(a5, 0x8_0000), Wrap(a6, 0x1000) * 0x2000),
       Or(Shr(a6, 0x1000), Wrap(a7, 0x40) * 0x10_0000),
       Wrap(Shr(a7, 0x40), M25));
    MorePow2s();
    WrapBound(a0, M26);
    Weave(a0, 0x400_0000, Wrap(a1, 0x8_0000), 6, 0x40);
    Weave(a1, 0x8_0000, Wrap(a2, 0x2000), 13, 0x2000);
    Weave(a2, 0x2000, Wrap(a3, 0x40), 19, 0x8_0000);
    WrapBound(a3, 0x40);
    TopBits(a3, 0x40, M26);
    WrapBound(a4, M25);
    Weave(a4, 0x200_0000, Wrap(a5, 0x8_0000), 7, 0x80);
    Weave(a5, 0x8_0000, Wrap(a6, 0x1000), 13, 0x2000);
    WrapBound(a6, 0x1000);
    Weave(a6, 0x1000, Wrap(a7, 0x40), 20, 0x10_0000);
    WrapBound(a7, 0x40);
    WrapBound(Shr(a7, 0x40), M25);
    FromBytesLe(s);
    FromBytesIdentity(h, a0, a1, a2, a3, a4, a5, a6, a7,
                      Shr(a0, 0x400_0000), Wrap(a1, 0x8_0000), Shr(a1, 0x8_0000), Wrap(a2, 0x2000),
                      Shr(a2, 0x2000), Wrap(a3, 0x40),
                      Shr(a4, 0x200_0000), Wrap(a5, 0x8_0000), Shr(a5, 0x8_0000), Wrap(a6, 0x1000),
                      Shr(a6, 0x1000), Wrap(a7, 0x40),
                      Shr(Shr(a7, 0x40), M25));
    ValueBelow(h);
    DivModUnique(Le(s), Shr(Shr(a7, 0x40), M25), T255, Value(h));
  }

  lemma ValueBelow(f: Fe)
    requires Reduced(f)
    ensures Value(f) < T255
  {
  }

  /** Four words of 32 bits as a number, and eight. */
  ghost function Words4(a: nat, b: nat, c: nat, d: nat): nat {
    a + 0x1_0000_0000 * (b + 0x1_0000_0000 * (c + 0x1_0000_0000 * d))
  }

  ghost function Words8(lo: nat, hi: nat): nat {
    lo + 0x1_0000_0000_0000_0000_0000_0000_0000_0000 * hi
  }

  lemma LeWords(s: Bytes)
    requires |s| == 16
    ensures Le(s) == Words4(U32(s, 0), U32(s, 4), U32(s, 8), U32(s, 12))
  {
    hide Le, U32;
    Le16(s);
  }

  lemma FromBytesLe(s: Bytes)
    requires |s| == 32
    ensures Le(s) == Words8(Words4(U32(s, 0), U32(s, 4), U32(s, 8), U32(s, 12)),
                            Words4(U32(s, 16), U32(s, 20), U32(s, 24), U32(s, 28)))
  {
    hide Le, U32, Words4;
    var lo, hi := s[..16], s[16..];
    assert s == lo + hi;
    LeHalves(lo, hi);
    LeWords(lo);
    LeWords(hi);
    U32Split(s);
  }

  lemma U32Split(s: Bytes)
    requires |s| == 32
    ensures U32(s[..16], 0) == U32(s, 0) && U32(s[..16], 4) == U32(s, 4)
    ensures U32(s[..16], 8) == U32(s, 8) && U32(s[..16], 12) == U32(s, 12)
    ensures U32(s[16..], 0) == U32(s, 16) && U32(s[16..], 4) == U32(s, 20)
    ensures U32(s[16..], 8) == U32(s, 24) && U32(s[16..], 12) == U32(s, 28)
  {
    hide Val;
  }

  lemma FromBytesIdentity(f: Fe, a0: nat, a1: nat, a2: nat, a3: nat, a4: nat, a5: nat, a6: nat, a7: nat,
                          q0: nat, r1: nat, q1: nat, r2: nat, q2: nat, r3: nat,
                          q4: nat, r5: nat, q5: nat, r6: nat, q6: nat, r7: nat, top: nat)
    requires a0 == 0x400_0000 * q0 + f.v0 && a1 == 0x8_0000 * q1 + r1 && a2 == 0x2000 * q2 + r2
    requires a3 == 0x40 * f.v4 + r3
    requires f.v1 == q0 + r1 * 0x40 && f.v2 == q1 + r2 * 0x2000 && f.v3 == q2 + r3 * 0x8_0000
    requires a4 == 0x200_0000 * q4 + f.v5 && a5 == 0x8_0000 * q5 + r5 && a6 == 0x1000 * q6 + r6
    requires f.v6 == q4 + r5 * 0x80 && f.v7 == q5 + r6 * 0x2000 && f.v8 == q6 + r7 * 0x10_0000
    requires a7 == 0x40 * (0x200_0000 * top + f.v9) + r7
    ensures Words8(Words4(a0, a1, a2, a3), Words4(a4, a5, a6, a7)) == top * T255 + Value(f)
  {
  }

  /** fe_frombytes after fe_tobytes: the only representative below P of the same number. */
  method DecodeEncode(f: Fe) returns (h: Fe)
    requires Tight(f)
    ensures Reduced(h) && Value(h) == Value(f) % P
  {
    hide Le, Value, Tight, Reduced;
    var s := ToBytes(f);
    h := FromBytes(s);
    SmallMod(Le(s), T255);
  }
}
