/** gmac.c: multiplication in GF(2^128) on 32-bit words, and GHASH. */
module Ghash {
  import opened Bits
  import opened ByteStrings
  import opened LittleEndian
  import opened WordBits
  import opened WordOps
  import opened GaloisField

  // ---------- blocks and words as polynomials ----------

  /** Bit i of a block, from the most significant bit of the first byte on. */
  function PolyOf(s: Bytes): Poly
    requires |s| == 16
  {
    seq(N, i requires 0 <= i < N => Bit(Val(s[i / 8]), 7 - i % 8))
  }

  datatype Words = Words(w0: nat, w1: nat, w2: nat, w3: nat) {
    predicate Fits() { w0 < W32 && w1 < W32 && w2 < W32 && w3 < W32 }

    function At(k: nat): nat { if k == 0 then w0 else if k == 1 then w1 else if k == 2 then w2 else w3 }
  }

  function PolyOfWords(v: Words): Poly {
    seq(N, i requires 0 <= i < N => Bit(v.At(i / 32), 31 - i % 32))
  }

  // ---------- the update of V ----------

  function Word(a: nat, w: nat): nat {
    Or(Wrap(a * 0x8000_0000, W32), w / 2)
  }

  function NextV(v: Words): Words {
    var mask := if v.w3 % 2 == 1 then 0xffff_ffff else 0;
    Words(XorBits(v.w0 / 2, And(0xe100_0000, mask)), Word(v.w0, v.w1), Word(v.w1, v.w2), Word(v.w2, v.w3))
  }

  /** 0xe1 */
  lemma LeadBits(u: nat)
    requires u < 8
    ensures Bit(225, u) == (u == 0 || u >= 5)
  {
    assert Bit(225, 0) && !Bit(225, 1) && !Bit(225, 2) && !Bit(225, 3);
    assert !Bit(225, 4) && Bit(225, 5) && Bit(225, 6) && Bit(225, 7);
  }

  /** The bits of 0xe1000000. */
  lemma ReductionBits(i: nat)
    requires i < 32
    ensures Bit(0xe100_0000, 31 - i) == Reduction()[i]
  {
    hide Pow2, High;
    var t := 31 - i;
    Pow2At24();
    if t < 24 {
      LowerBits(0, 225, t, 24);
      ZeroBits(t);
    } else {
      HighSplit(0xe100_0000, 24, t - 24);
      LowHigh(0xe100_0000, 24);
      LeadBits(t - 24);
    }
  }

  lemma {:induction false} ZeroBits(t: nat)
    ensures !Bit(0, t)
  {
    if t > 0 {
      ZeroBits(t - 1);
    }
  }

  lemma NextWord(a: nat, w: nat, t: nat)
    requires w < W32 && t < 32
    ensures Word(a, w) < W32 && Bit(Word(a, w), t) == if t == 31 then Bit(a, 0) else Bit(w, t + 1)
  {
    hide Or, Wrap;
    ShiftedIn(a, w);
    ShiftedInBits(w, a % 2, t);
  }

  lemma NextFirst(v: Words, t: nat)
    requires v.Fits() && t < 32
    ensures NextV(v).w0 < W32
    ensures Bit(NextV(v).w0, t) == ((t < 31 && Bit(v.w0, t + 1)) != (Bit(v.w3, 0) && Reduction()[31 - t]))
  {
    hide XorBits, And, Bit, Reduction, Word;
    var r := And(0xe100_0000, if v.w3 % 2 == 1 then 0xffff_ffff else 0);
    MaskKeeps(0xe100_0000);
    AndZero(0xe100_0000);
    XorFits(v.w0 / 2, r);
    BitXor(v.w0 / 2, r, t);
    ShiftedInBits(v.w0, 0, t);
    assert v.w0 / 2 + 0x8000_0000 * 0 == v.w0 / 2;
    ReductionBits(31 - t);
    ZeroBits(t);
    OddBit(v.w3);
  }

  lemma OddBit(w: nat)
    ensures Bit(w, 0) == (w % 2 == 1)
  {
  }

  lemma TimesXAt(p: Poly, i: nat)
    requires i < N
    ensures TimesX(p)[i] == ((i > 0 && p[i - 1]) != (p[N - 1] && Reduction()[i]))
  {
  }

  lemma WordsAt(v: Words, i: nat)
    requires i < N
    ensures PolyOfWords(v)[i] == Bit(v.At(i / 32), 31 - i % 32)
  {
  }

  lemma NextVAt(v: Words, i: nat)
    requires v.Fits() && i < N
    ensures PolyOfWords(NextV(v))[i] == TimesX(PolyOfWords(v))[i]
  {
    hide Word, Bit, XorBits, And, Reduction, PolyOfWords, TimesX;
    var k, t := i / 32, 31 - i % 32;
    TimesXAt(PolyOfWords(v), i);
    WordsAt(NextV(v), i);
    WordsAt(v, N - 1);
    ReductionHigh(i);
    if i > 0 {
      WordsAt(v, i - 1);
    }
    if k == 0 {
      NextFirst(v, t);
    } else {
      NextWord(v.At(k - 1), v.At(k), t);
    }
  }

  lemma NextFits(v: Words)
    requires v.Fits()
    ensures NextV(v).Fits()
  {
    hide Word, XorBits, And;
    NextFirst(v, 0);
    NextWord(v.w0, v.w1, 0);
    NextWord(v.w1, v.w2, 0);
    NextWord(v.w2, v.w3, 0);
  }

  lemma ReductionHigh(i: nat)
    requires i < N
    ensures i >= 32 ==> !Reduction()[i]
  {
  }

  /** One pass multiplies V by x. */
  lemma NextVIsTimesX(v: Words)
    requires v.Fits()
    ensures NextV(v).Fits() && PolyOfWords(NextV(v)) == TimesX(PolyOfWords(v))
  {
    hide PolyOfWords, TimesX, NextV;
    NextFits(v);
    forall i | 0 <= i < N
      ensures PolyOfWords(NextV(v))[i] == TimesX(PolyOfWords(v))[i]
    {
      NextVAt(v, i);
    }
  }

  // ---------- the update of Z ----------

  function NextZ(z: Words, v: Words, bit: bool): Words {
    var mask := if bit then 0xffff_ffff else 0;
    Words(XorBits(z.w0, And(v.w0, mask)), XorBits(z.w1, And(v.w1, mask)),
          XorBits(z.w2, And(v.w2, mask)), XorBits(z.w3, And(v.w3, mask)))
  }

  lemma MaskedXor(a: nat, b: nat, bit: bool, t: nat)
    requires a < W32 && b < W32
    ensures var r := XorBits(a, And(b, if bit then 0xffff_ffff else 0));
            r < W32 && Bit(r, t) == (Bit(a, t) != (bit && Bit(b, t)))
  {
    hide XorBits, And, Bit;
    MaskKeeps(b);
    AndZero(b);
    var m := if bit then b else 0;
    XorFits(a, m);
    BitXor(a, m, t);
    ZeroBits(t);
  }

  lemma PlusTimesAt(p: Poly, c: bool, q: Poly, i: nat)
    requires i < N
    ensures Plus(p, Times(c, q))[i] == (p[i] != (c && q[i]))
  {
  }

  lemma NextZIsPlus(z: Words, v: Words, bit: bool)
    requires z.Fits() && v.Fits()
    ensures NextZ(z, v, bit).Fits()
    ensures PolyOfWords(NextZ(z, v, bit)) == Plus(PolyOfWords(z), Times(bit, PolyOfWords(v)))
  {
    hide XorBits, And, Bit, PolyOfWords, Plus, Times;
    MaskedXor(z.w0, v.w0, bit, 0);
    MaskedXor(z.w1, v.w1, bit, 0);
    MaskedXor(z.w2, v.w2, bit, 0);
    MaskedXor(z.w3, v.w3, bit, 0);
    var p, q := PolyOfWords(NextZ(z, v, bit)), Plus(PolyOfWords(z), Times(bit, PolyOfWords(v)));
    forall i | 0 <= i < N
      ensures p[i] == q[i]
    {
      PlusTimesAt(PolyOfWords(z), bit, PolyOfWords(v), i);
      WordsAt(NextZ(z, v, bit), i);
      WordsAt(z, i);
      WordsAt(v, i);
      MaskedXor(z.At(i / 32), v.At(i / 32), bit, 31 - i % 32);
    }
  }

  // ---------- big-endian words ----------

  /** betoh32 of the word at offset i. */
  function Be32(s: Bytes, i: nat): (n: nat)
    requires i + 4 <= |s|
    ensures n < W32
  {
    U32([s[i + 3], s[i + 2], s[i + 1], s[i]], 0)
  }

  function WordsOf(s: Bytes): (v: Words)
    requires |s| == 16
    ensures v.Fits()
  {
    Words(Be32(s, 0), Be32(s, 4), Be32(s, 8), Be32(s, 12))
  }

  /** htobe32 */
  function Be32Bytes(w: nat): (s: Bytes)
    ensures |s| == 4
  {
    var b := U32Bytes(w);
    [b[3], b[2], b[1], b[0]]
  }

  function BytesOf(v: Words): (s: Bytes)
    ensures |s| == 16
  {
    Be32Bytes(v.w0) + Be32Bytes(v.w1) + Be32Bytes(v.w2) + Be32Bytes(v.w3)
  }

  lemma Be32RoundTrip(a: Bytes, w: nat, z: Bytes)
    requires w < W32
    ensures Be32(a + Be32Bytes(w) + z, |a|) == w
  {
    hide U32, U32Bytes;
    var b := U32Bytes(w);
    U32RoundTrip(w);
    SmallMod(w, W32);
    var s := a + Be32Bytes(w) + z;
    assert [s[|a| + 3], s[|a| + 2], s[|a| + 1], s[|a|]] == b;
  }

  lemma WordsOfBytesOf(v: Words)
    requires v.Fits()
    ensures WordsOf(BytesOf(v)) == v
  {
    hide Be32, Be32Bytes;
    var b0, b1, b2, b3 := Be32Bytes(v.w0), Be32Bytes(v.w1), Be32Bytes(v.w2), Be32Bytes(v.w3);
    var s := BytesOf(v);
    assert s == [] + b0 + (b1 + b2 + b3) == b0 + b1 + (b2 + b3) == (b0 + b1) + b2 + b3 == (b0 + b1 + b2) + b3 + [];
    Be32RoundTrip([], v.w0, b1 + b2 + b3);
    Be32RoundTrip(b0, v.w1, b2 + b3);
    Be32RoundTrip(b0 + b1, v.w2, b3);
    Be32RoundTrip(b0 + b1 + b2, v.w3, []);
  }

  lemma Be32Bit(s: Bytes, i: nat, t: nat)
    requires i + 4 <= |s| && t < 32
    ensures Bit(Be32(s, i), 31 - t) == Bit(Val(s[i + t / 8]), 7 - t % 8)
  {
    hide Bit, Val, U32, Le;
    var r := [s[i + 3], s[i + 2], s[i + 1], s[i]];
    LeStep4(r);
    assert r[4..] == [];
    LeEmpty();
    BitOfByte(r, 31 - t);
    assert (31 - t) / 8 == 3 - t / 8 && (31 - t) % 8 == 7 - t % 8;
  }

  lemma WordsOfIsPoly(s: Bytes)
    requires |s| == 16
    ensures PolyOfWords(WordsOf(s)) == PolyOf(s)
  {
    hide PolyOfWords, Bit, Val, Be32;
    forall i | 0 <= i < N
      ensures PolyOfWords(WordsOf(s))[i] == PolyOf(s)[i]
    {
      WordsAt(WordsOf(s), i);
      Be32Bit(s, 4 * (i / 32), i % 32);
      assert 4 * (i / 32) + i % 32 / 8 == i / 8 && i % 32 % 8 == i % 8;
    }
  }

  // ---------- ghash_gfmul ----------

  /** The field product of two blocks; `product` may be either of them. */
  method Gfmul(x: array<bv8>, y: array<bv8>, product: array<bv8>)
    requires x.Length == y.Length == product.Length == 16
    modifies product
    ensures PolyOf(product[..]) == Product(old(PolyOf(x[..])), old(PolyOf(y[..])))
  {
    hide PolyOfWords, NextV, NextZ, TimesXPow, Plus, Times, Zero, Partial, WordsOf, BytesOf, Bit, Val, Pow2;
    ghost var p, q := PolyOf(x[..]), PolyOf(y[..]);
    var v := WordsOf(y[..]);
    WordsOfIsPoly(y[..]);
    var z := Words(0, 0, 0, 0);
    ZeroWords();
    ProductStart(p, q);
    for i := 0 to N
      invariant z.Fits() && v.Fits() && x[..] == old(x[..])
      invariant PolyOfWords(z) == Partial(p, q, i) && PolyOfWords(v) == TimesXPow(q, i)
    {
      var bit := Bit(Val(x[i / 8]), 7 - i % 8);
      assert x[i / 8] == x[..][i / 8];
      NextZIsPlus(z, v, bit);
      PartialMore(p, q, i);
      z := NextZ(z, v, bit);
      NextVIsTimesX(v);
      PowMore(q, i);
      v := NextV(v);
    }
    Store(product, 0, BytesOf(z));
    WordsOfBytesOf(z);
    WordsOfIsPoly(BytesOf(z));
  }

  lemma ZeroWords()
    ensures Words(0, 0, 0, 0).Fits() && PolyOfWords(Words(0, 0, 0, 0)) == Zero()
  {
    hide Bit;
    forall i | 0 <= i < N
      ensures PolyOfWords(Words(0, 0, 0, 0))[i] == false
    {
      ZeroBits(31 - i % 32);
    }
  }

  lemma ProductStart(p: Poly, q: Poly)
    ensures Partial(p, q, 0) == Zero() && TimesXPow(q, 0) == q
  {
  }

  lemma PowMore(q: Poly, i: nat)
    ensures TimesXPow(q, i + 1) == TimesX(TimesXPow(q, i))
  {
  }

  // ---------- GHASH ----------

  /** Section 6.4: each block is added to the state, which is then multiplied by the subkey. */
  function Hash(h: Poly, y: Poly, m: Bytes): Poly
    requires |m| % 16 == 0
  {
    if m == [] then y else Product(Plus(Hash(h, y, m[..|m| - 16]), PolyOf(m[|m| - 16..])), h)
  }

  lemma HashMore(h: Poly, y: Poly, m: Bytes, b: Bytes)
    requires |m| % 16 == 0 && |b| == 16
    ensures |m + b| % 16 == 0 && Hash(h, y, m + b) == Product(Plus(Hash(h, y, m), PolyOf(b)), h)
  {
    assert (m + b)[..|m|] == m && (m + b)[|m|..] == b;
  }

  /** Cutting the input at a block boundary changes nothing. */
  lemma {:induction false} HashCut(h: Poly, y: Poly, m: Bytes, n: Bytes)
    requires |m| % 16 == 0 && |n| % 16 == 0
    ensures |m + n| % 16 == 0 && Hash(h, y, m + n) == Hash(h, Hash(h, y, m), n)
    decreases |n|
  {
    hide PolyOf, Product, Plus;
    if n == [] {
      assert m + n == m;
    } else {
      var k, b := n[..|n| - 16], n[|n| - 16..];
      HashCut(h, y, m, k);
      assert m + n == m + k + b && n == k + b;
      HashMore(h, y, m + k, b);
      HashMore(h, Hash(h, y, m), k, b);
    }
  }

  function Power(h: Poly, k: nat): Poly {
    if k == 0 then Unit(0) else Product(Power(h, k - 1), h)
  }

  /** X1 H^n + X2 H^(n-1) + ... + Xn H */
  function PowerSum(h: Poly, m: Bytes, n: nat): Poly
    requires |m| == 16 * n
  {
    if n == 0 then Zero() else Plus(Product(PolyOf(m[..16]), Power(h, n)), PowerSum(h, m[16..], n - 1))
  }

  lemma {:induction false} PowerSumMore(h: Poly, m: Bytes, n: nat, b: Bytes)
    requires |m| == 16 * n && |b| == 16
    ensures PowerSum(h, m + b, n + 1) == Product(Plus(PowerSum(h, m, n), PolyOf(b)), h)
  {
    hide PolyOf, Product, Plus, Zero, Unit;
    if n == 0 {
      assert m + b == b && b[..16] == b && b[16..] == [];
      PowerOne(h);
      PlusLaws(Product(PolyOf(b), h), Zero(), Zero());
      PlusLaws(Zero(), PolyOf(b), Zero());
      PlusLaws(PolyOf(b), Zero(), Zero());
    } else {
      var x, rest := PolyOf(m[..16]), m[16..];
      PowerSumMore(h, rest, n - 1, b);
      assert (m + b)[..16] == m[..16] && (m + b)[16..] == rest + b;
      ProductAssociates(x, Power(h, n), h);
      var s, t := Product(x, Power(h, n)), PowerSum(h, rest, n - 1);
      ProductDistributes(s, Plus(t, PolyOf(b)), h);
      PlusLaws(s, t, PolyOf(b));
    }
  }

  lemma PowerOne(h: Poly)
    ensures Power(h, 1) == h
  {
    hide Product, Unit;
    assert Power(h, 0) == Unit(0);
    ProductCommutes(Unit(0), h);
    ProductOne(h);
  }

  /** From a zero state GHASH is the polynomial with the blocks as coefficients, evaluated at the subkey. */
  lemma {:induction false} HashIsPowerSum(h: Poly, m: Bytes, n: nat)
    requires |m| == 16 * n
    ensures Hash(h, Zero(), m) == PowerSum(h, m, n)
  {
    hide PolyOf, Product, Plus, Zero;
    if n > 0 {
      var k, b := m[..|m| - 16], m[|m| - 16..];
      HashIsPowerSum(h, k, n - 1);
      HashMore(h, Zero(), k, b);
      PowerSumMore(h, k, n - 1, b);
      assert m == k + b;
    }
  }

  lemma PolyOfXor(a: Bytes, b: Bytes)
    requires |a| == |b| == 16
    ensures PolyOf(Xor(a, b)) == Plus(PolyOf(a), PolyOf(b))
  {
    hide Bit, Val, PolyOf, Plus, Xor;
    var p, q := PolyOf(Xor(a, b)), Plus(PolyOf(a), PolyOf(b));
    forall i | 0 <= i < N
      ensures p[i] == q[i]
    {
      PolyAt(Xor(a, b), i);
      PolyAt(a, i);
      PolyAt(b, i);
      PlusAt(PolyOf(a), PolyOf(b), i);
      ByteXor(a[i / 8], b[i / 8], 7 - i % 8);
    }
  }

  lemma PolyAt(s: Bytes, i: nat)
    requires |s| == 16 && i < N
    ensures i / 8 < 16 && PolyOf(s)[i] == Bit(Val(s[i / 8]), 7 - i % 8)
  {
    hide Bit, Val;
  }

  /** Bit 0 is the most significant bit of the first byte. */
  lemma PolyBit(s: Bytes, i: nat)
    requires |s| == 16 && i < N
    ensures PolyOf(s)[i] == (s[i / 8] & (128 >> (i % 8) as bv4) != 0)
  {
    hide Bit, Val, PolyOf;
    PolyAt(s, i);
    BitOf(s[i / 8], 7 - i % 8);
    TopDown(s[i / 8], i % 8);
  }

  lemma TopDown(b: bv8, k: nat)
    requires k < 8
    ensures Has(b, BitMask(7 - k)) == (b & (128 >> k as bv4) != 0)
  {
    assert 128 >> (0 as bv4) == 128 as bv8;
    assert k == 0 || k == 1 || k == 2 || k == 3 || k == 4 || k == 5 || k == 6 || k == 7;
  }

  lemma PlusAt(p: Poly, q: Poly, i: nat)
    requires i < N
    ensures Plus(p, q)[i] == (p[i] != q[i])
  {
  }

  /** GHASH_CTX; the state is kept in two places between calls. */
  class Ctx {
    const h: array<bv8>
    const s: array<bv8>
    const z: array<bv8>

    ghost predicate Valid()
      reads this, h, s, z
    {
      && h.Length == s.Length == z.Length == 16
      && h != s && h != z && s != z && s[..] == z[..]
    }

    constructor (key: Bytes)
      requires |key| == 16
      ensures Valid() && h[..] == key && PolyOf(z[..]) == Zero() && fresh(h) && fresh(s) && fresh(z)
    {
      h := new bv8[16](i requires 0 <= i < 16 => key[i]);
      s := new bv8[16](_ => 0);
      z := new bv8[16](_ => 0);
      new;
      assert h[..] == key;
      ZeroBlock(z[..]);
    }

    /** The body of the loop: `y` is the saved state at first, and the working state after that. */
    method Step(y: array<bv8>, b: Bytes)
      requires h.Length == s.Length == y.Length == |b| == 16 && h != s
      modifies s
      ensures PolyOf(s[..]) == Product(Plus(old(PolyOf(y[..])), PolyOf(b)), PolyOf(h[..]))
    {
      hide PolyOf, Product, Plus, Splice;
      PolyOfXor(y[..], b);
      SpliceWhole(s[..], Xor(y[..], b));
      Store(s, 0, Xor(y[..], b));
      Gfmul(s, h, s);
    }

    /** ghash_update_mi; a partial block at the end is ignored. */
    method Update(x: Bytes)
      requires Valid()
      modifies s, z
      ensures Valid() && h[..] == old(h[..])
      ensures PolyOf(z[..]) == Hash(PolyOf(h[..]), old(PolyOf(z[..])), Whole(x))
    {
      hide PolyOf, Product, Plus, Splice, Hash, First;
      ghost var k, y0 := PolyOf(h[..]), PolyOf(z[..]);
      var y := z;
      HashNothing(k, y0, x);
      for i := 0 to |x| / 16
        invariant if i == 0 then y == z && s[..] == z[..] else y == s
        invariant PolyOf(y[..]) == Hash(k, y0, First(x, i))
        modifies s
      {
        var b := x[16 * i..16 * i + 16];
        HashNext(k, y0, x, i);
        Step(y, b);
        y := s;
      }
      Save();
    }

    method Save()
      requires s.Length == z.Length == 16 && s != z
      modifies z
      ensures z[..] == s[..]
    {
      SpliceWhole(z[..], s[0..16]);
      Bcopy(s, 0, z, 0, 16);
    }
  }

  /** The first i blocks of x. */
  function First(x: Bytes, i: nat): (m: Bytes)
    requires 16 * i <= |x|
    ensures |m| % 16 == 0
  {
    x[..16 * i]
  }

  /** The whole blocks of x. */
  function Whole(x: Bytes): (m: Bytes)
    ensures |m| % 16 == 0
  {
    First(x, |x| / 16)
  }

  lemma HashNothing(h: Poly, y: Poly, x: Bytes)
    ensures Hash(h, y, First(x, 0)) == y
  {
  }

  lemma HashNext(h: Poly, y: Poly, x: Bytes, i: nat)
    requires 16 * i + 16 <= |x|
    ensures Hash(h, y, First(x, i + 1))
         == Product(Plus(Hash(h, y, First(x, i)), PolyOf(x[16 * i..16 * i + 16])), h)
  {
    hide PolyOf, Product, Plus, Hash;
    HashMore(h, y, First(x, i), x[16 * i..16 * i + 16]);
    assert First(x, i) + x[16 * i..16 * i + 16] == First(x, i + 1);
  }

  lemma ZeroBlock(b: Bytes)
    requires |b| == 16 && forall i :: 0 <= i < 16 ==> b[i] == 0
    ensures PolyOf(b) == Zero()
  {
    hide Bit;
    assert Val(0) == 0;
    forall i | 0 <= i < N
      ensures PolyOf(b)[i] == false
    {
      ZeroBits(7 - i % 8);
    }
  }
}
