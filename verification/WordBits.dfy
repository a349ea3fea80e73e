/** Single bits of words and of byte strings. */
module WordBits {
  import opened Arith
  import opened Bits
  import opened ByteStrings
  import opened LittleEndian
  import opened WordOps

  /** Bit t of k. */
  function Bit(k: nat, t: nat): bool { High(k, t) % 2 == 1 }

  lemma Halved(k: nat)
    ensures Pow2(k + 1) == 2 * Pow2(k)
  {
  }

  lemma Pow2At32()
    ensures Pow2(32) == W32
  {
    assert Pow2(8) == 0x100;
    assert Pow2(16) == 0x1_0000;
    assert Pow2(24) == 0x100_0000;
  }

  lemma MaskKeeps(x: nat)
    requires x < W32
    ensures And(x, 0xffff_ffff) == x
  {
    hide And, Low;
    Pow2At32();
    AndOnes(x, 32);
    LowHigh(x, 32);
    SmallMod(x, W32);
  }

  lemma XorFits(x: nat, y: nat)
    requires x < W32 && y < W32
    ensures XorBits(x, y) < W32
  {
    Pow2At32();
    XorBound(x, y, 32);
  }

  lemma {:induction false} LowerBits(v: nat, n: nat, t: nat, j: nat)
    requires t < j
    ensures Bit(v + Pow2(j) * n, t) == Bit(v, t)
  {
    hide Pow2;
    Halved(j - 1);
    DoubleTimes(Pow2(j - 1), n);
    HalfOfSum(v, Pow2(j - 1) * n);
    if t > 0 {
      LowerBits(v / 2, n, t - 1, j - 1);
    }
  }

  lemma HalfOfSum(v: nat, y: nat)
    ensures (v + 2 * y) / 2 == v / 2 + y && (v + 2 * y) % 2 == v % 2
  {
  }

  lemma {:induction false} HighSplit(x: nat, a: nat, b: nat)
    ensures High(x, a + b) == High(High(x, a), b)
  {
    if a > 0 {
      HighSplit(x / 2, a - 1, b);
    }
  }

  lemma {:induction false} BitOfByte(s: Bytes, t: nat)
    requires t < 8 * |s|
    ensures Bit(Le(s), t) == Bit(Val(s[t / 8]), t % 8)
  {
    hide Val, High, Pow2;
    var v, n := Val(s[0]), Le(s[1..]);
    BytePow2();
    if t < 8 {
      LowerBits(v, n, t, 8);
    } else {
      BitOfByte(s[1..], t - 8);
      HighSplit(Le(s), 8, t - 8);
      LowHigh(Le(s), 8);
      DivModUnique(Le(s), n, 256, v);
      assert (t - 8) / 8 == t / 8 - 1 && (t - 8) % 8 == t % 8;
    }
  }

  lemma BytePow2()
    ensures Pow2(8) == 256
  {
  }

  lemma {:induction false} BitXor(x: nat, y: nat, t: nat)
    ensures Bit(XorBits(x, y), t) == (Bit(x, t) != Bit(y, t))
  {
    hide XorBits;
    XorStep(x, y);
    if t > 0 {
      BitXor(x / 2, y / 2, t - 1);
    }
  }

  /** (a << 31) | (w >> 1): the last bit of one word above the others of the next. */
  lemma ShiftedIn(a: nat, w: nat)
    requires w < W32
    ensures Or(Wrap(a * 0x8000_0000, W32), w / 2) == w / 2 + 0x8000_0000 * (a % 2)
  {
    hide Or, Low, High;
    DivModUnique(a * 0x8000_0000, a / 2, W32, 0x8000_0000 * (a % 2));
    Pow2At31();
    LowHigh(w / 2, 31);
    LowHigh(0x8000_0000 * (a % 2), 31);
    OrDisjoint(w / 2, 0x8000_0000 * (a % 2), 31);
    OrCommutes(w / 2, 0x8000_0000 * (a % 2));
  }

  lemma Pow2At31()
    ensures Pow2(31) == 0x8000_0000
  {
    assert Pow2(8) == 0x100;
    assert Pow2(16) == 0x1_0000;
    assert Pow2(24) == 0x100_0000;
  }

  lemma ShiftedInBits(w: nat, c: nat, t: nat)
    requires w < W32 && c <= 1 && t < 32
    ensures Bit(w / 2 + 0x8000_0000 * c, t) == if t == 31 then c == 1 else Bit(w, t + 1)
  {
    hide High, Pow2;
    Pow2At31();
    if t < 31 {
      LowerBits(w / 2, c, t, 31);
      HighHalf(w, t);
    } else {
      LowHigh(w / 2 + 0x8000_0000 * c, 31);
      DivModUnique(w / 2 + 0x8000_0000 * c, c, 0x8000_0000, w / 2);
    }
  }

  lemma HighHalf(w: nat, t: nat)
    ensures High(w / 2, t) == High(w, t + 1)
  {
  }

  lemma ByteXor(a: bv8, b: bv8, t: nat)
    requires t < 8
    ensures Bit(Val(a ^ b), t) == (Bit(Val(a), t) != Bit(Val(b), t))
  {
    hide Bit, Val;
    BitOf(a, t);
    BitOf(b, t);
    BitOf(a ^ b, t);
    HasXor(a, b, t);
  }

  lemma HasXor(a: bv8, b: bv8, t: nat)
    ensures Has(a ^ b, BitMask(t)) == (Has(a, BitMask(t)) != Has(b, BitMask(t)))
  {
  }

  lemma BitOf(a: bv8, t: nat)
    requires t < 8
    ensures Bit(Val(a), t) == Has(a, BitMask(t))
  {
    hide Val, Has, FromBits, Bit, BitMask, Odd;
    var n := Val(a);
    ByteVal(n);
    SmallMod(n, 256);
    ValInjective(Byte(n), a);
    HasFromBits(Odd(n), Odd(n / 2), Odd(n / 4), Odd(n / 8), Odd(n / 16), Odd(n / 32), Odd(n / 64), Odd(n / 128), t);
    BitIs(n, t);
  }

  lemma BitIs(n: nat, t: nat)
    requires t < 8
    ensures Bit(n, t)
         == [Odd(n), Odd(n / 2), Odd(n / 4), Odd(n / 8), Odd(n / 16), Odd(n / 32), Odd(n / 64), Odd(n / 128)][t]
  {
    hide High;
    LowHigh(n, t);
    assert Pow2(0) == 1 && Pow2(1) == 2 && Pow2(2) == 4 && Pow2(3) == 8;
    assert Pow2(4) == 16 && Pow2(5) == 32 && Pow2(6) == 64 && Pow2(7) == 128;
  }

  /** Words with the same bits are equal. */
  lemma {:induction false} SameBits(x: nat, y: nat, k: nat)
    requires x < Pow2(k) && y < Pow2(k)
    requires forall t :: 0 <= t < k ==> Bit(x, t) == Bit(y, t)
    ensures x == y
  {
    if k > 0 {
      hide High;
      assert Bit(x, 0) == Bit(y, 0);
      LowestBit(x);
      LowestBit(y);
      forall t | 0 <= t < k - 1
        ensures Bit(x / 2, t) == Bit(y / 2, t)
      {
        HighHalf(x, t);
        HighHalf(y, t);
        assert Bit(x, t + 1) == Bit(y, t + 1);
      }
      SameBits(x / 2, y / 2, k - 1);
    }
  }

  lemma LowestBit(x: nat)
    ensures Bit(x, 0) == (x % 2 == 1)
  {
  }

  /** Exclusive or of bytes is exclusive or of their values. */
  lemma ValXor(a: bv8, b: bv8)
    ensures Val(a ^ b) == XorBits(Val(a), Val(b))
  {
    hide Bit, Val, XorBits, Pow2;
    BytePow2();
    XorBound(Val(a), Val(b), 8);
    forall t | 0 <= t < 8
      ensures Bit(Val(a ^ b), t) == Bit(XorBits(Val(a), Val(b)), t)
    {
      ByteXor(a, b, t);
      BitXor(Val(a), Val(b), t);
    }
    SameBits(Val(a ^ b), XorBits(Val(a), Val(b)), 8);
  }
}
