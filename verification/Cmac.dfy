/** cmac.c: the MAC of section 6.2 of NIST SP 800-38B, computed over updates of any size. */
module Cmac {
  import opened Arith
  import opened Bits
  import opened BlockCiphers
  import opened ByteStrings
  import opened HeldBack
  import opened LittleEndian
  import opened WordBits
  import opened WordOps

  // ---------- specification ----------

  /** The chaining value after whole blocks. */
  function Chain(e: Cipher, m: Bytes): (x: Bytes)
    requires BlockCipher(e) && |m| % 16 == 0
    ensures |x| == 16
  {
    if m == [] then seq(16, _ => 0)
    else e(Xor(Chain(e, m[..|m| - 16]), m[|m| - 16..]))
  }

  function ShiftByte(a: bv8, b: bv8): bv8 { (a << 1) | (b >> 7) }

  /** LSHIFT */
  function Shifted(v: Bytes): (r: Bytes)
    ensures |r| == |v|
  {
    seq(|v|, i requires 0 <= i < |v| => ShiftByte(v[i], if i + 1 < |v| then v[i + 1] else 0))
  }

  /** The doubling of section 6.1 that makes the subkeys. */
  function Subkey(k: Bytes): (r: Bytes)
    requires |k| == 16
    ensures |r| == 16
  {
    var s := Shifted(k);
    if k[0] & 0x80 != 0 then s[15 := s[15] ^ 0x87] else s
  }

  function Padded(b: Bytes): (r: Bytes)
    requires |b| < 16
    ensures |r| == 16
  {
    b + [0x80] + seq(15 - |b|, _ => 0)
  }

  /** The last block with its subkey: K1 when it is whole, K2 and padding when it is not. */
  function Masked(e: Cipher, b: Bytes): (r: Bytes)
    requires BlockCipher(e) && |b| <= 16
    ensures |r| == 16
  {
    var k1 := Subkey(e(seq(16, _ => 0)));
    if |b| == 16 then Xor(b, k1) else Xor(Padded(b), Subkey(k1))
  }

  function Mac(e: Cipher, m: Bytes): (t: Bytes)
    requires BlockCipher(e)
    ensures |t| == 16
  {
    var at := LastAt(|m|, 16);
    e(Xor(Chain(e, m[..at]), Masked(e, m[at..])))
  }

  // ---------- the shift is a doubling ----------

  /** The bit that a shift moves out of a byte. */
  function Carry(b: bv8): nat { Val(b) / 128 }

  lemma ShiftByteBits(a: bv8, b: bv8)
    ensures ShiftByte(a, b) ==
            FromBits(Has(b, 128), Has(a, 1), Has(a, 2), Has(a, 4), Has(a, 8), Has(a, 16), Has(a, 32), Has(a, 64))
  {
  }

  lemma TopBit(y: nat, c: bool)
    requires y < 128
    ensures (y + Weight(c, 128)) / 128 == Weight(c, 1) && 2 * (y + Weight(c, 128)) % 256 == 2 * y
  {
  }

  ghost function Low7(a: bv8): nat {
    Weight(Has(a, 1), 1) + Weight(Has(a, 2), 2) + Weight(Has(a, 4), 4) + Weight(Has(a, 8), 8)
    + Weight(Has(a, 16), 16) + Weight(Has(a, 32), 32) + Weight(Has(a, 64), 64)
  }

  lemma Low7Below128(a: bv8)
    ensures Low7(a) < 128
    ensures 2 * Low7(a) == Weight(Has(a, 1), 2) + Weight(Has(a, 2), 4) + Weight(Has(a, 4), 8) + Weight(Has(a, 8), 16)
                           + Weight(Has(a, 16), 32) + Weight(Has(a, 32), 64) + Weight(Has(a, 64), 128)
  {
    hide Has;
  }

  lemma ValSplits(a: bv8)
    ensures Val(a) == Low7(a) + Weight(Has(a, 128), 128)
  {
    hide Val, Has, Weight;
    ValOfBits(a);
  }

  lemma ShiftByteVal(a: bv8, b: bv8)
    ensures Val(ShiftByte(a, b)) == 2 * Val(a) % 256 + Carry(b)
  {
    hide Val, FromBits, Has, ShiftByte, Weight, Low7;
    ShiftByteBits(a, b);
    FromBitsVal(Has(b, 128), Has(a, 1), Has(a, 2), Has(a, 4), Has(a, 8), Has(a, 16), Has(a, 32), Has(a, 64));
    ValSplits(a);
    ValSplits(b);
    Low7Below128(a);
    Low7Below128(b);
    TopBit(Low7(a), Has(a, 128));
    TopBit(Low7(b), Has(b, 128));
  }

  /** The byte shifts double the number modulo 2^(8n), whatever bit comes in at the end. */
  lemma {:induction false} ShiftedDoubles(v: Bytes)
    ensures Be(Shifted(v)) == 2 * Be(v) % Pow256(|v|)
  {
    ShiftInDoubles(v, 0);
  }

  function ShiftIn(v: Bytes, b: bv8): (r: Bytes)
    ensures |r| == |v|
  {
    seq(|v|, i requires 0 <= i < |v| => ShiftByte(v[i], if i + 1 < |v| then v[i + 1] else b))
  }

  lemma {:induction false} ShiftInDoubles(v: Bytes, b: bv8)
    ensures Be(ShiftIn(v, b)) == (2 * Be(v) + Carry(b)) % Pow256(|v|)
  {
    if v != [] {
      hide Val, ShiftByte;
      var n := |v| - 1;
      ShiftInDoubles(v[..n], v[n]);
      assert ShiftIn(v, b)[..n] == ShiftIn(v[..n], v[n]);
      ShiftByteVal(v[n], b);
      ShiftIdentity(Be(v[..n]), Val(v[n]), Carry(b), Pow256(n));
    }
  }

  /** 256 ((2x + a / 128) mod p) + 2a mod 256 + c is 2 (256x + a) + c modulo 256p. */
  lemma ShiftIdentity(x: nat, a: nat, c: nat, p: nat)
    requires a < 256 && c <= 1 && p > 0
    ensures 256 * ((2 * x + a / 128) % p) + 2 * a % 256 + c == (2 * (256 * x + a) + c) % (256 * p)
  {
    var y := 2 * x + a / 128;
    var q, r := y / p, y % p;
    var low := 2 * a % 256 + c;
    assert 2 * (256 * x + a) + c == 256 * y + low;
    ScaleUp(r, p, q);
    assert 256 * y + low == q * (256 * p) + (256 * r + low);
    DivModUnique(256 * y + low, q, 256 * p, 256 * r + low);
  }

  // ---------- what the subkeys and the MAC are ----------

  lemma TopBitOf(b: bv8)
    ensures (b & 0x80 != 0) == (Val(b) >= 128)
  {
    hide Val, Weight;
    ValSplits(b);
    Low7Below128(b);
    assert Has(b, 128) == (b & 0x80 != 0);
    assert Weight(Has(b, 128), 128) == if Has(b, 128) then 128 else 0 by { WeightIs(Has(b, 128)); }
  }

  lemma WeightIs(c: bool)
    ensures Weight(c, 128) == if c then 128 else 0
  {
  }

  /** The first bit of a block is set when its number is at least 2^127. */
  lemma TopBitOfBlock(k: Bytes)
    requires |k| == 16
    ensures Be(k) < Pow256(16) && (k[0] & 0x80 != 0) == (2 * Be(k) >= Pow256(16))
  {
    hide Be, Val, Pow256;
    BeCons(k[0], k[1..]);
    assert k == [k[0]] + k[1..];
    TopBitOf(k[0]);
    assert Pow256(16) == 256 * Pow256(15) by { Pow256Step(15); }
    TopScale(Val(k[0]), Be(k[1..]), Pow256(15));
  }

  lemma Pow256Step(n: nat)
    ensures Pow256(n + 1) == 256 * Pow256(n)
  {
  }

  lemma TopScale(a: nat, x: nat, p: nat)
    requires a < 256 && x < p
    ensures a * p + x < 256 * p && (2 * (a * p + x) >= 256 * p <==> a >= 128)
  {
    if a >= 128 {
      MulMonotone(128, p, a, p);
    } else {
      MulMonotone(a + 1, p, 128, p);
    }
    MulMonotone(a + 1, p, 256, p);
  }

  /** Exclusive or with a byte changes the low bits only. */
  lemma XorLast(h: nat, v: nat, b: nat)
    requires v < 256 && b < 256
    ensures XorBits(256 * h + v, b) == 256 * h + XorBits(v, b)
  {
    hide XorBits;
    XorHigh(h, v, b, 8);
  }

  lemma {:induction false} XorHigh(h: nat, v: nat, b: nat, k: nat)
    requires v < Pow2(k) && b < Pow2(k)
    ensures XorBits(Pow2(k) * h + v, b) == Pow2(k) * h + XorBits(v, b)
  {
    if k == 0 {
      XorZero(h);
      XorZero(0);
    } else {
      hide XorBits;
      DoubleTimes(Pow2(k - 1), h);
      HalfOfSum(v, Pow2(k - 1) * h);
      XorStep(Pow2(k) * h + v, b);
      XorStep(v, b);
      XorHigh(h, v / 2, b / 2, k - 1);
    }
  }

  /** Multiplication by x modulo x^128 + x^7 + x^2 + x + 1, on numbers. */
  function Doubled(x: nat): nat {
    if 2 * x < Pow256(16) then 2 * x else XorBits(2 * x - Pow256(16), 0x87)
  }

  lemma SubkeyDoubles(k: Bytes)
    requires |k| == 16
    ensures Be(Subkey(k)) == Doubled(Be(k))
  {
    hide Be, Val, Pow256, ShiftByte, XorBits, Shifted;
    TopBitOfBlock(k);
    ShiftedDoubles(k);
    var s := Shifted(k);
    if k[0] & 0x80 != 0 {
      DivModUnique(2 * Be(k), 1, Pow256(16), 2 * Be(k) - Pow256(16));
      LastByte(s);
    } else {
      SmallMod(2 * Be(k), Pow256(16));
    }
  }

  lemma LastByte(s: Bytes)
    requires |s| == 16
    ensures Be(s[15 := s[15] ^ 0x87]) == XorBits(Be(s), 0x87)
  {
    hide Be, Val, XorBits;
    var b := s[15] ^ 0x87;
    assert s == s[..15] + [s[15]] && s[15 := b] == s[..15] + [b];
    BeSnoc(s[..15], s[15]);
    BeSnoc(s[..15], b);
    ValXor(s[15], 0x87);
    assert Val(0x87) == 0x87 by { ReductionByte(); }
    XorLast(Be(s[..15]), Val(s[15]), 0x87);
  }

  lemma ReductionByte()
    ensures Val(0x87) == 0x87
  {
  }

  /** How many blocks n bytes make; none make one. */
  function Blocks(n: nat): nat { if n == 0 then 1 else (n + 15) / 16 }

  /** Each value of `x` is the cipher of a block of the message combined with the one before, from zero on. */
  ghost predicate Chained(e: Cipher, m: Bytes, x: seq<Bytes>, n: nat)
    requires 16 * n <= |m|
  {
    && |x| > n && x[0] == seq(16, _ => 0) && (forall i :: 0 <= i <= n ==> |x[i]| == 16)
    && forall i :: 0 <= i < n ==> x[i + 1] == e(Xor(x[i], m[16 * i..16 * i + 16]))
  }

  lemma {:induction false} ChainedIs(e: Cipher, m: Bytes, x: seq<Bytes>, n: nat)
    requires BlockCipher(e) && 16 * n <= |m| && Chained(e, m, x, n)
    ensures |x| > n && x[n] == Chain(e, m[..16 * n])
  {
    if n > 0 {
      hide Chain, Xor;
      ChainedIs(e, m, x, n - 1);
      assert x[n] == e(Xor(x[n - 1], m[16 * (n - 1)..16 * (n - 1) + 16]));
      ChainMore(e, m[..16 * (n - 1)], m[16 * (n - 1)..16 * n]);
      assert m[..16 * n] == m[..16 * (n - 1)] + m[16 * (n - 1)..16 * n];
    }
  }

  /** Section 6.2: K1 goes with a whole last block, K2 with a one bit and zeros after a shorter one. */
  lemma MacIs(e: Cipher, m: Bytes, x: seq<Bytes>, k1: Bytes, k2: Bytes)
    requires BlockCipher(e) && |k1| == |k2| == 16
    requires Be(k1) == Doubled(Be(e(seq(16, _ => 0)))) && Be(k2) == Doubled(Be(k1))
    requires 16 * (Blocks(|m|) - 1) <= |m| && Chained(e, m, x, Blocks(|m|) - 1)
    ensures var n := Blocks(|m|) - 1;
            var rest := m[16 * n..];
            && |x[n]| == 16 && |rest| <= 16
            && Mac(e, m) == e(Xor(x[n], if |rest| == 16 then Xor(rest, k1)
                                        else Xor(rest + [0x80] + seq(15 - |rest|, _ => 0), k2)))
  {
    hide Chain, Xor, Be, Doubled, Subkey, LastAt, Chained;
    var n := Blocks(|m|) - 1;
    SubkeysAre(e, k1, k2);
    ChainedIs(e, m, x, n);
    LastAtIs(m, m[..16 * n], m[16 * n..], 16);
  }

  lemma SubkeysAre(e: Cipher, k1: Bytes, k2: Bytes)
    requires BlockCipher(e) && |k1| == |k2| == 16
    requires Be(k1) == Doubled(Be(e(seq(16, _ => 0)))) && Be(k2) == Doubled(Be(k1))
    ensures k1 == Subkey(e(seq(16, _ => 0))) && k2 == Subkey(k1)
  {
    hide Be, Doubled, Subkey;
    var l := e(seq(16, _ => 0));
    SubkeyDoubles(l);
    BeInjective(k1, Subkey(l));
    SubkeyDoubles(k1);
    BeInjective(k2, Subkey(k1));
  }

  // ---------- the code ----------

  /** LSHIFT(K, K) and the reduction after it, in place. */
  method Double(k: array<bv8>)
    requires k.Length == 16
    modifies k
    ensures k[..] == Subkey(old(k[..]))
  {
    hide ShiftByte;
    var top := k[0] & 0x80 != 0;
    for i := 0 to 15
      invariant forall j :: 0 <= j < 16 ==> k[j] == if j < i then ShiftByte(old(k[j]), old(k[j + 1])) else old(k[j])
    {
      k[i] := ShiftByte(k[i], k[i + 1]);
    }
    k[15] := ShiftByte(k[15], 0);
    assert k[..] == Shifted(old(k[..]));
    if top {
      k[15] := k[15] ^ 0x87;
    }
  }

  class Ctx {
    var x: Bytes
    const mLast: array<bv8>
    var mN: nat
    ghost var msg: Bytes

    /** The last block of what has been fed is held back; everything before it is in the chaining value. */
    ghost predicate Valid(e: Cipher)
      reads this, mLast
    {
      && BlockCipher(e) && mLast.Length == 16
      && mN == |msg| - LastAt(|msg|, 16)
      && mLast[..mN] == msg[LastAt(|msg|, 16)..]
      && x == Chain(e, msg[..LastAt(|msg|, 16)])
    }

    /** AES_CMAC_Init */
    constructor (e: Cipher)
      requires BlockCipher(e)
      ensures Valid(e) && msg == [] && fresh(mLast)
    {
      x, mN, msg := seq(16, _ => 0), 0, [];
      mLast := new bv8[16];
    }

    /** AES_CMAC_Update: any data, also none. */
    method Update(e: Cipher, data: Bytes)
      requires Valid(e)
      modifies this, mLast
      ensures Valid(e) && msg == old(msg) + data
    {
      hide Chain, LastAt, Splice, Xor;
      var d := data;
      ghost var done, held := msg[..LastAt(|msg|, 16)], msg[LastAt(|msg|, 16)..];
      msg := msg + data;
      if mN > 0 {
        var mlen := if 16 - mN < |d| then 16 - mN else |d|;
        SpliceEnds(mLast[..], mN, d[..mlen]);
        Store(mLast, mN, d[..mlen]);
        mN := mN + mlen;
        held := held + d[..mlen];
        assert d == d[..mlen] + d[mlen..];
        assert msg == done + held + d[mlen..];
        if mN < 16 || |d| == mlen {
          LastAtIs(msg, done, held, 16);
          return;
        }
        ChainMore(e, done, held);
        assert mLast[..] == mLast[..16];
        x := e(Xor(x, mLast[..]));
        done := done + held;
        d := d[mlen..];
      }
      Absorb(e, d, done);
    }

    /** Nothing is held back: whole blocks are chained, except the last one. */
    method Absorb(e: Cipher, data: Bytes, ghost first: Bytes)
      requires BlockCipher(e) && mLast.Length == 16 && |first| % 16 == 0 && x == Chain(e, first)
      requires msg == first + data && (first != [] ==> data != [])
      modifies `x, `mN, mLast
      ensures Valid(e)
    {
      hide Chain, LastAt, Splice, Xor;
      var d := data;
      ghost var done := first;
      while |d| > 16
        invariant msg == done + d && |done| % 16 == 0 && x == Chain(e, done)
        invariant done != [] ==> d != []
        modifies `x
      {
        ChainMore(e, done, d[..16]);
        x := e(Xor(x, d[..16]));
        done, d := done + d[..16], d[16..];
      }
      SpliceEnds(mLast[..], 0, d);
      Store(mLast, 0, d);
      mN := |d|;
      LastAtIs(msg, done, d, 16);
    }

    /** padding(M_last) */
    method Pad(ghost last: Bytes)
      requires mLast.Length == 16 && mN == |last| < 16 && mLast[..mN] == last
      modifies `mN, mLast
      ensures mLast[..] == Padded(last)
    {
      mLast[mN] := 0x80;
      mN := mN + 1;
      while mN < 16
        invariant |last| < mN <= 16 && mLast[..|last|] == last && mLast[|last|] == 0x80
        invariant forall j :: |last| < j < mN ==> mLast[j] == 0
      {
        mLast[mN] := 0;
        mN := mN + 1;
      }
    }

    /** The subkeys, and the last block with the right one of them. */
    method Mask(e: Cipher, ghost last: Bytes)
      requires BlockCipher(e) && mLast.Length == 16 && mN == |last| <= 16 && mLast[..mN] == last
      modifies `mN, mLast
      ensures mLast[..] == Masked(e, last)
    {
      hide Splice, Xor, Subkey, Padded;
      var k := new bv8[16](_ => 0);
      assert k[..] == seq(16, _ => 0);
      var l := e(k[..]);
      SpliceWhole(k[..], l);
      Store(k, 0, l);
      Double(k);
      if mN == 16 {
        assert mLast[..] == mLast[..16];
      } else {
        Double(k);
        Pad(last);
      }
      SpliceWhole(mLast[..], Xor(mLast[..], k[..]));
      Store(mLast, 0, Xor(mLast[..], k[..]));
    }

    /** AES_CMAC_Final: the MAC of everything passed to Update, however it was cut up. */
    method Final(e: Cipher) returns (digest: Bytes)
      requires Valid(e)
      modifies this, mLast
      ensures digest == Mac(e, old(msg))
    {
      hide Chain, LastAt, Xor, Masked;
      Mask(e, msg[LastAt(|msg|, 16)..]);
      x := Xor(x, mLast[..]);
      digest := e(x);
    }
  }

  lemma ChainMore(e: Cipher, m: Bytes, b: Bytes)
    requires BlockCipher(e) && |m| % 16 == 0 && |b| == 16
    ensures |m + b| % 16 == 0 && Chain(e, m + b) == e(Xor(Chain(e, m), b))
  {
    assert (m + b)[..|m|] == m && (m + b)[|m|..] == b;
  }
}
