/** Numbers as bytes, least significant first and, where it says so, most significant first. */
module LittleEndian {
  import opened ByteStrings

  function Val(b: bv8): (n: nat)
    ensures n < 256
  {
    b as nat
  }

  /** A byte from its bits, least significant first. */
  function FromBits(c0: bool, c1: bool, c2: bool, c3: bool, c4: bool, c5: bool, c6: bool, c7: bool): bv8 {
    (if c0 then 1 else 0) | (if c1 then 2 else 0) | (if c2 then 4 else 0) | (if c3 then 8 else 0)
    | (if c4 then 16 else 0) | (if c5 then 32 else 0) | (if c6 then 64 else 0) | (if c7 then 128 else 0)
  }

  function Weight(c: bool, w: nat): nat { if c then w else 0 }

  lemma FromBitsVal(c0: bool, c1: bool, c2: bool, c3: bool, c4: bool, c5: bool, c6: bool, c7: bool)
    ensures Val(FromBits(c0, c1, c2, c3, c4, c5, c6, c7))
         == Weight(c0, 1) + Weight(c1, 2) + Weight(c2, 4) + Weight(c3, 8)
            + Weight(c4, 16) + Weight(c5, 32) + Weight(c6, 64) + Weight(c7, 128)
  {
  }

  predicate Has(a: bv8, m: bv8) { a & m != 0 }

  lemma BitsOf(a: bv8)
    ensures a == FromBits(Has(a, 1), Has(a, 2), Has(a, 4), Has(a, 8), Has(a, 16), Has(a, 32), Has(a, 64), Has(a, 128))
  {
  }

  /** A byte's value is the sum of the weights of its bits. */
  lemma ValOfBits(a: bv8)
    ensures Val(a) == Weight(Has(a, 1), 1) + Weight(Has(a, 2), 2) + Weight(Has(a, 4), 4) + Weight(Has(a, 8), 8)
                      + Weight(Has(a, 16), 16) + Weight(Has(a, 32), 32)
                      + Weight(Has(a, 64), 64) + Weight(Has(a, 128), 128)
  {
    hide Val, FromBits, Weight, Has;
    BitsOf(a);
    FromBitsVal(Has(a, 1), Has(a, 2), Has(a, 4), Has(a, 8), Has(a, 16), Has(a, 32), Has(a, 64), Has(a, 128));
  }

  /** The mask of bit t of a byte. */
  function BitMask(t: nat): bv8 {
    if t == 0 then 1 else if t == 1 then 2 else if t == 2 then 4 else if t == 3 then 8
    else if t == 4 then 16 else if t == 5 then 32 else if t == 6 then 64 else 128
  }

  lemma HasFromBits(c0: bool, c1: bool, c2: bool, c3: bool, c4: bool, c5: bool, c6: bool, c7: bool, t: nat)
    requires t < 8
    ensures Has(FromBits(c0, c1, c2, c3, c4, c5, c6, c7), BitMask(t)) == [c0, c1, c2, c3, c4, c5, c6, c7][t]
  {
  }

  function Odd(n: nat): bool { n % 2 == 1 }

  /** (uint8_t)n */
  function Byte(n: nat): bv8 {
    FromBits(Odd(n), Odd(n / 2), Odd(n / 4), Odd(n / 8), Odd(n / 16), Odd(n / 32), Odd(n / 64), Odd(n / 128))
  }

  lemma EightBits(n: nat)
    ensures Weight(Odd(n), 1) + Weight(Odd(n / 2), 2) + Weight(Odd(n / 4), 4) + Weight(Odd(n / 8), 8)
            + Weight(Odd(n / 16), 16) + Weight(Odd(n / 32), 32) + Weight(Odd(n / 64), 64) + Weight(Odd(n / 128), 128)
         == n % 256
  {
    hide Weight, Odd;
    OddWeight(n, 1);
    OddWeight(n / 2, 2);
    OddWeight(n / 4, 4);
    OddWeight(n / 8, 8);
    OddWeight(n / 16, 16);
    OddWeight(n / 32, 32);
    OddWeight(n / 64, 64);
    OddWeight(n / 128, 128);
    BinaryDigits(n);
  }

  lemma OddWeight(n: nat, w: nat)
    ensures Weight(Odd(n), w) == w * (n % 2)
  {
  }

  lemma BinaryDigits(n: nat)
    ensures n % 2 + 2 * (n / 2 % 2) + 4 * (n / 4 % 2) + 8 * (n / 8 % 2)
            + 16 * (n / 16 % 2) + 32 * (n / 32 % 2) + 64 * (n / 64 % 2) + 128 * (n / 128 % 2) == n % 256
  {
    var a, b, c, d, e, f, g := n / 2, n / 4, n / 8, n / 16, n / 32, n / 64, n / 128;
    assert b == a / 2 && c == b / 2 && d == c / 2 && e == d / 2 && f == e / 2 && g == f / 2 && n / 256 == g / 2;
  }

  lemma ByteVal(n: nat)
    ensures Val(Byte(n)) == n % 256
  {
    hide Val, FromBits, Weight, Odd;
    FromBitsVal(Odd(n), Odd(n / 2), Odd(n / 4), Odd(n / 8), Odd(n / 16), Odd(n / 32), Odd(n / 64), Odd(n / 128));
    EightBits(n);
  }

  function Le(s: Bytes): nat {
    if s == [] then 0 else Val(s[0]) + 256 * Le(s[1..])
  }

  /** U8TO32 at offset `i` */
  function U32(s: Bytes, i: nat): (n: nat)
    requires i + 4 <= |s|
    ensures n < 0x1_0000_0000
  {
    Val(s[i]) + 0x100 * Val(s[i + 1]) + 0x1_0000 * Val(s[i + 2]) + 0x100_0000 * Val(s[i + 3])
  }

  /** U32TO8 */
  function U32Bytes(v: nat): (s: Bytes)
    ensures |s| == 4
  {
    [Byte(v), Byte(v / 0x100), Byte(v / 0x1_0000), Byte(v / 0x100_0000)]
  }

  lemma U32RoundTrip(v: nat)
    ensures U32(U32Bytes(v), 0) == v % 0x1_0000_0000
  {
    hide Val, Byte;
    ByteVal(v);
    ByteVal(v / 0x100);
    ByteVal(v / 0x1_0000);
    ByteVal(v / 0x100_0000);
    Digits(v);
  }

  lemma Digits(v: nat)
    ensures v % 0x100 + 0x100 * (v / 0x100 % 0x100) + 0x1_0000 * (v / 0x1_0000 % 0x100)
            + 0x100_0000 * (v / 0x100_0000 % 0x100) == v % 0x1_0000_0000
  {
    var a, b, c := v / 0x100, v / 0x1_0000, v / 0x100_0000;
    assert b == a / 0x100 && c == b / 0x100 && v / 0x1_0000_0000 == c / 0x100;
  }

  lemma LeStep4(s: Bytes)
    requires |s| >= 4
    ensures Le(s) == U32(s, 0) + 0x1_0000_0000 * Le(s[4..])
  {
    hide Val;
    assert s[1..][1..] == s[2..];
    assert s[2..][1..] == s[3..];
    assert s[3..][1..] == s[4..];
    assert Le(s[2..]) == Val(s[2]) + 256 * Le(s[3..]);
    assert Le(s[3..]) == Val(s[3]) + 256 * Le(s[4..]);
  }

  lemma Le16(s: Bytes)
    requires |s| == 16
    ensures Le(s) == U32(s, 0) + 0x1_0000_0000 * U32(s, 4) + 0x1_0000_0000_0000_0000 * U32(s, 8)
                     + 0x1_0000_0000_0000_0000_0000_0000 * U32(s, 12)
  {
    hide Val, Le, U32;
    LeStep4(s);
    LeStep4(s[4..]);
    assert s[4..][4..] == s[8..];
    LeStep4(s[8..]);
    assert s[8..][4..] == s[12..];
    LeStep4(s[12..]);
    assert s[12..][4..] == [];
    LeEmpty();
    U32At(s, 4);
    U32At(s, 8);
    U32At(s, 12);
  }

  lemma LeEmpty()
    ensures Le([]) == 0
  {
  }

  lemma U32At(s: Bytes, i: nat)
    requires i + 4 <= |s|
    ensures U32(s[i..], 0) == U32(s, i)
  {
  }

  /** Trailing zeros change nothing. */
  lemma {:induction false} LeZeros(s: Bytes, n: nat)
    ensures Le(s + seq(n, _ => 0)) == Le(s)
    decreases |s|, n
  {
    var z: Bytes := seq(n, _ => 0);
    if s != [] {
      assert (s + z)[1..] == s[1..] + z;
      LeZeros(s[1..], n);
    } else if n > 0 {
      assert s + z == z;
      assert z[1..] == seq(n - 1, _ => 0);
      assert [] + z[1..] == z[1..];
      LeZeros([], n - 1);
    }
  }

  function Pow256(n: nat): (p: nat)
    ensures p > 0
  {
    if n == 0 then 1 else 256 * Pow256(n - 1)
  }

  lemma {:induction false} LeConcat(s: Bytes, t: Bytes)
    ensures Le(s + t) == Le(s) + Pow256(|s|) * Le(t)
  {
    hide Val;
    if s == [] {
      assert s + t == t;
    } else {
      assert (s + t)[1..] == s[1..] + t;
      ConcatStep(s, t);
      LeConcat(s[1..], t);
      ScaleUp(Le(s[1..]), Pow256(|s| - 1), Le(t));
    }
  }

  lemma ConcatStep(s: Bytes, t: Bytes)
    requires s != []
    ensures Le(s + t) == Val(s[0]) + 256 * Le(s[1..] + t) && Le(s) == Val(s[0]) + 256 * Le(s[1..])
  {
    assert (s + t)[1..] == s[1..] + t;
  }

  lemma ScaleUp(a: int, p: int, n: int)
    ensures 256 * (a + p * n) == 256 * a + 256 * p * n
  {
  }

  lemma {:induction false} LeBound(s: Bytes)
    ensures Le(s) < Pow256(|s|)
  {
    hide Val;
    if s != [] {
      LeBound(s[1..]);
    }
  }

  lemma LeSingle(b: bv8)
    ensures Le([b]) == Val(b)
  {
    assert [b][1..] == [];
  }

  /** A number has one representation of each length. */
  lemma {:induction false} LeInjective(s: Bytes, t: Bytes)
    requires |s| == |t| && Le(s) == Le(t)
    ensures s == t
  {
    if s != [] {
      hide Val;
      FirstDigit(Val(s[0]), Val(t[0]), Le(s[1..]), Le(t[1..]));
      ValInjective(s[0], t[0]);
      LeInjective(s[1..], t[1..]);
      assert s == [s[0]] + s[1..] && t == [t[0]] + t[1..];
    }
  }

  lemma FirstDigit(a: int, b: int, x: int, y: int)
    requires 0 <= a < 256 && 0 <= b < 256 && a + 256 * x == b + 256 * y
    ensures a == b && x == y
  {
  }

  lemma ValInjective(a: bv8, b: bv8)
    requires Val(a) == Val(b)
    ensures a == b
  {
  }

  /** The k low bytes of n; htole64 is ToLe(n, 8). */
  function ToLe(n: nat, k: nat): (s: Bytes)
    ensures |s| == k
  {
    if k == 0 then [] else [Byte(n)] + ToLe(n / 256, k - 1)
  }

  lemma {:induction false} ToLeValue(n: nat, k: nat)
    requires n < Pow256(k)
    ensures Le(ToLe(n, k)) == n
  {
    if k > 0 {
      hide Val, Byte;
      ToLeValue(n / 256, k - 1);
      ByteVal(n);
      assert ToLe(n, k)[1..] == ToLe(n / 256, k - 1);
    }
  }

  // ---------- most significant byte first ----------

  function Be(s: Bytes): nat {
    if s == [] then 0 else 256 * Be(s[..|s| - 1]) + Val(s[|s| - 1])
  }

  lemma BeSnoc(s: Bytes, b: bv8)
    ensures Be(s + [b]) == 256 * Be(s) + Val(b)
  {
    assert (s + [b])[..|s|] == s;
  }

  /** The first byte counts most. */
  lemma {:induction false} BeCons(b: bv8, s: Bytes)
    ensures Be([b] + s) == Val(b) * Pow256(|s|) + Be(s) && Be(s) < Pow256(|s|)
  {
    hide Val;
    if s == [] {
      assert [b] + s == [] + [b];
      BeSnoc([], b);
    } else {
      var t, c := s[..|s| - 1], s[|s| - 1];
      BeCons(b, t);
      assert [b] + s == ([b] + t) + [c] && s == t + [c];
      BeSnoc([b] + t, c);
      BeSnoc(t, c);
      ScaleUp(Be(t), Val(b), Pow256(|t|));
      MoveFactor(Val(b), Pow256(|t|));
    }
  }

  lemma MoveFactor(a: int, p: int)
    ensures 256 * a * p == a * (256 * p)
  {
  }

  lemma {:induction false} BeInjective(s: Bytes, t: Bytes)
    requires |s| == |t| && Be(s) == Be(t)
    ensures s == t
  {
    if s != [] {
      hide Val;
      var n := |s| - 1;
      FirstDigit(Val(s[n]), Val(t[n]), Be(s[..n]), Be(t[..n]));
      ValInjective(s[n], t[n]);
      BeInjective(s[..n], t[..n]);
      assert s == s[..n] + [s[n]] && t == t[..n] + [t[n]];
    }
  }
}
