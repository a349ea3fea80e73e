/** Poly1305: the message authentication code of section 2.5 of RFC 8439, and poly1305.c's streaming form of it. */
module Poly1305 {
  import opened ByteStrings
  import opened LittleEndian
  import opened Modular
  import opened PolyLimbs
  import opened WordOps
  import opened PolyKey
  import opened PolyFinish

  // ---------- specification ----------

  /** Where the last block of a message of `n` bytes begins; it has 1 to 16 bytes. */
  function LastBlock(n: nat): (at: nat)
    requires n > 0
    ensures at < n <= at + 16 && at % 16 == 0
  {
    (n - 1) / 16 * 16
  }

  /** The accumulator: each block, with a one bit above it, is added and multiplied by r. */
  function Acc(r: nat, m: Bytes): nat {
    if m == [] then 0 else
      var at := LastBlock(|m|);
      (Acc(r, m[..at]) + Le(m[at..] + [1])) * r % P
  }

  function Tag(key: Bytes, m: Bytes): nat
    requires |key| == 32
  {
    (Acc(Le(Clamped(key[..16])), m) + Le(key[16..])) % W128
  }

  /** The blocks of a message as numbers. */
  function Coefficients(m: Bytes): seq<nat> {
    if m == [] then [] else
      var at := LastBlock(|m|);
      Coefficients(m[..at]) + [Le(m[at..] + [1])]
  }

  /** c[0] r^n + c[1] r^(n-1) + ... + c[n-1] r */
  function Polynomial(r: nat, c: seq<nat>): nat {
    if c == [] then 0 else c[0] * Pow(r, |c|) + Polynomial(r, c[1..])
  }

  lemma {:induction false} PolynomialSnoc(r: nat, c: seq<nat>, x: nat)
    ensures Polynomial(r, c + [x]) == (Polynomial(r, c) + x) * r
  {
    if c == [] {
      assert Pow(r, 1) == r * Pow(r, 0);
    } else {
      PolynomialSnoc(r, c[1..], x);
      assert (c + [x])[1..] == c[1..] + [x];
      SnocIdentity(c[0], Pow(r, |c|), Polynomial(r, c[1..]), x, r);
    }
  }

  lemma SnocIdentity(a: int, p: int, y: int, x: int, r: int)
    ensures a * (r * p) + (y + x) * r == (a * p + y + x) * r
  {
  }

  /** The accumulator is the polynomial with the blocks as coefficients, evaluated at r modulo 2^130 - 5. */
  lemma {:induction false} AccIsPolynomial(r: nat, m: Bytes)
    ensures Acc(r, m) == Polynomial(r, Coefficients(m)) % P
    decreases |m|
  {
    if m != [] {
      var at := LastBlock(|m|);
      AccIsPolynomial(r, m[..at]);
      PolynomialSnoc(r, Coefficients(m[..at]), Le(m[at..] + [1]));
      ModTimes(Polynomial(r, Coefficients(m[..at])), Le(m[at..] + [1]), r, P);
    }
  }

  /** Block i of a message: sixteen bytes, or what is left. */
  function BlockAt(m: Bytes, i: nat): (b: Bytes)
    requires 16 * i < |m|
    ensures 0 < |b| <= 16
  {
    if 16 * i + 16 <= |m| then m[16 * i..16 * i + 16] else m[16 * i..]
  }

  /** The coefficients are the blocks in order, each with a one byte above it. */
  lemma {:induction false} CoefficientsAt(m: Bytes, i: nat)
    ensures |Coefficients(m)| == (|m| + 15) / 16
    ensures 16 * i < |m| ==> Coefficients(m)[i] == Le(BlockAt(m, i)) + Pow256(|BlockAt(m, i)|)
    decreases |m|
  {
    hide Le, Pow256;
    if m != [] {
      var at := LastBlock(|m|);
      CoefficientsAt(m[..at], i);
      LastOf(m, at / 16);
      if 16 * i < at {
        assert BlockAt(m[..at], i) == BlockAt(m, i);
      } else if 16 * i < |m| {
        OneAbove(m[at..]);
      }
    }
  }

  lemma LastOf(m: Bytes, q: nat)
    requires 16 * q < |m| <= 16 * q + 16
    ensures (16 * q + 15) / 16 == q && (|m| + 15) / 16 == q + 1 && BlockAt(m, q) == m[16 * q..]
  {
  }

  lemma OneAbove(b: Bytes)
    ensures Le(b + [1]) == Le(b) + Pow256(|b|)
  {
    hide Le, Val, Pow256;
    LeConcat(b, [1]);
    LeSingle(1);
    OneIs();
  }

  lemma OneIs()
    ensures Val(1) == 1
  {
  }

  /** Section 2.5: the polynomial at the clamped first half of the key, plus the second half, in sixteen bytes. */
  lemma TagIs(k: Bytes, s: Bytes, m: Bytes)
    requires |k| == 16 && |s| == 16
    ensures Tag(k + s, m) == (Polynomial(Le(Clamped(k)), Coefficients(m)) % P + Le(s)) % Pow256(16)
  {
    hide Le, Clamped, Polynomial, Coefficients, Acc;
    AccIsPolynomial(Le(Clamped(k)), m);
    assert (k + s)[..16] == k && (k + s)[16..] == s;
    assert Pow256(8) == W64;
    assert Pow256(16) == W128;
  }

  lemma AccSnoc(r: nat, p: Bytes, b: Bytes)
    requires |p| % 16 == 0 && 0 < |b| <= 16
    ensures Acc(r, p + b) == (Acc(r, p) + Le(b + [1])) * r % P
  {
    hide Le;
    assert LastBlock(|p + b|) == |p|;
    assert (p + b)[..|p|] == p && (p + b)[|p|..] == b;
  }

  lemma LeFullBlock(b: Bytes)
    requires |b| == 16
    ensures Le(b + [1]) == Le(b) + W128
  {
    OneAbove(b);
    assert Pow256(8) == W64;
    assert Pow256(16) == W128;
  }

  // ---------- the code ----------

  function Multiplier(key: Bytes): nat
    requires |key| == 32
  {
    Le(Clamped(key[..16]))
  }

  /** The limbs hold the accumulator of `done` for `key`. */
  ghost predicate Holds(w: nat, key: Bytes, r: Limbs, h: Limbs, pad: Words, done: Bytes) {
    && Word(w) && |key| == 32 && |done| % 16 == 0
    && Small(r) && Value(r) == Multiplier(key) && Tight(h)
    && Fits(pad) && WordsValue(pad) == Le(key[16..])
    && Value(h) % P == Acc(Multiplier(key), done)
  }

  lemma HoldsNothing(w: nat, key: Bytes)
    requires Word(w) && |key| == 32
    ensures Holds(w, key, InitR(key), Limbs(0, 0, 0, 0, 0),
                  Words(U32(key, 16), U32(key, 20), U32(key, 24), U32(key, 28)), [])
  {
    hide InitR, Le, Clamped, U32, Small, WordsValue, Fits, Value, Tight, Acc;
    InitRIsClamped(key);
    PadIs(key);
    Empty(Multiplier(key));
  }

  lemma Empty(r: nat)
    ensures Value(Limbs(0, 0, 0, 0, 0)) % P == Acc(r, []) && Tight(Limbs(0, 0, 0, 0, 0))
  {
    hide Value, Acc, Tight;
    ZeroLimbs();
    AccEmpty(r);
    SmallMod(0, P);
  }

  lemma ZeroLimbs()
    ensures Value(Limbs(0, 0, 0, 0, 0)) == 0 && Tight(Limbs(0, 0, 0, 0, 0))
  {
  }

  lemma AccEmpty(r: nat)
    ensures Acc(r, []) == 0
  {
  }

  lemma HoldsMore(w: nat, key: Bytes, r: Limbs, h: Limbs, pad: Words, done: Bytes, b: Bytes)
    requires Holds(w, key, r, h, pad, done) && |b| == 16
    ensures Holds(w, key, r, BlockStep(w, h, r, b, 0x100_0000), pad, done + b)
  {
    hide Tight, Small, Value, Le, BlockStep, Acc, Clamped, WordsValue, Fits;
    BlockStepValue(w, h, r, b, false);
    ModTimes(Value(h), Le(b) + W128, Multiplier(key), P);
    LeFullBlock(b);
    AccSnoc(Multiplier(key), done, b);
  }

  /** The padded last block, processed without the one bit above it. */
  lemma HoldsLast(w: nat, key: Bytes, r: Limbs, h: Limbs, pad: Words, done: Bytes, part: Bytes)
    requires Holds(w, key, r, h, pad, done) && 0 < |part| < 16
    ensures var b := part + [1] + seq(15 - |part|, _ => 0);
            var h' := BlockStep(w, h, r, b, 0);
            Tight(h') && Value(h') % P == Acc(Multiplier(key), done + part)
  {
    hide Tight, Small, Value, Le, BlockStep, Acc, Clamped, WordsValue, Fits;
    var b := part + [1] + seq(15 - |part|, _ => 0);
    BlockStepValue(w, h, r, b, true);
    ModTimes(Value(h), Le(b), Multiplier(key), P);
    LeZeros(part + [1], 15 - |part|);
    AccSnoc(Multiplier(key), done, part);
  }

  /** poly1305_state; `w` is the size of an unsigned long. */
  class State {
    const w: nat
    var r: Limbs
    var h: Limbs
    var pad: Words
    var leftover: nat
    const buffer: array<bv8>
    var final: bool

    ghost var key: Bytes
    ghost var msg: Bytes

    ghost predicate Valid()
      reads this, buffer
    {
      && buffer.Length == 16 && !final
      && leftover < 16 && leftover <= |msg|
      && Holds(w, key, r, h, pad, msg[..|msg| - leftover])
      && buffer[..leftover] == msg[|msg| - leftover..]
    }

    /** poly1305_init */
    constructor (w: nat, key: Bytes)
      requires Word(w) && |key| == 32
      ensures Valid() && this.key == key && msg == [] && fresh(buffer)
    {
      hide Holds;
      this.w := w;
      r := InitR(key);
      h := Limbs(0, 0, 0, 0, 0);
      pad := Words(U32(key, 16), U32(key, 20), U32(key, 24), U32(key, 28));
      leftover, final := 0, false;
      buffer := new bv8[16];
      this.key, msg := key, [];
      new;
      HoldsNothing(w, key);
    }

    /** poly1305_blocks; with `final` set the one bit above the block is left out. */
    method Blocks(m: Bytes, ghost done: Bytes)
      requires Holds(w, key, r, h, pad, done)
      requires if final then |m| == 16 else |m| % 16 == 0
      modifies this`h
      ensures !final ==> Holds(w, key, r, h, pad, done + m)
      ensures final ==> h == BlockStep(w, old(h), r, m, 0)
    {
      hide Holds, BlockStep;
      var hibit := if final then 0 else 0x100_0000;
      var i := 0;
      assert done + m[..0] == done;
      assert Word(w) by { HoldsWord(w, key, r, h, pad, done); }
      while |m| - i >= 16
        invariant 0 <= i <= |m| && i % 16 == 0
        invariant !final ==> Holds(w, key, r, h, pad, done + m[..i])
        invariant final ==> h == if i == 0 then old(h) else BlockStep(w, old(h), r, m, 0)
      {
        var b := m[i..i + 16];
        if !final {
          HoldsMore(w, key, r, h, pad, done + m[..i], b);
          assert done + m[..i] + b == done + m[..i + 16];
        } else {
          assert b == m;
        }
        h := BlockStep(w, h, r, b, hibit);
        i := i + 16;
      }
      assert m[..i] == m;
    }

    /** poly1305_update */
    method Update(m0: Bytes)
      requires Valid()
      modifies this, buffer
      ensures Valid() && key == old(key) && msg == old(msg) + m0
    {
      hide Holds;
      var m := m0;
      msg := msg + m0;
      ghost var done := old(msg)[..|old(msg)| - leftover];
      assert msg == done + buffer[..leftover] + m;
      if leftover > 0 {
        var want := 16 - leftover;
        if want > |m| {
          want := |m|;
        }
        Fill(m, want);
        m := m[want..];
        assert msg == done + buffer[..leftover] + m;
        if leftover < 16 {
          Rest(msg, done, buffer[..leftover]);
          return;
        }
        Blocks(buffer[..16], done);
        done := done + buffer[..16];
        leftover := 0;
      }
      Aligned(m, done);
    }

    /** Lines 179-192: nothing is left over, so whole blocks go straight in and the rest is kept. */
    method Aligned(m: Bytes, ghost done: Bytes)
      requires buffer.Length == 16 && !final && leftover == 0 && msg == done + m
      requires Holds(w, key, r, h, pad, done)
      modifies this`h, this`leftover, buffer
      ensures Valid()
    {
      hide Holds;
      assert buffer[..0] == [];
      var want := 0;
      assert done + m[..0] == done;
      if |m| >= 16 {
        want := |m| - |m| % 16;
        Blocks(m[..want], done);
      }
      var rest := m[want..];
      if |rest| > 0 {
        Fill(rest, |rest|);
        assert rest[..|rest|] == rest;
      }
      assert msg == done + m[..want] + rest;
      Rest(msg, done + m[..want], rest);
    }

    /** The copying loops of poly1305_update: append the first `want` bytes of `m` to the buffer. */
    method Fill(m: Bytes, want: nat)
      requires buffer.Length == 16 && leftover + want <= 16 && want <= |m|
      modifies this`leftover, buffer
      ensures leftover == old(leftover) + want
      ensures buffer[..leftover] == old(buffer[..leftover]) + m[..want]
    {
      for i := 0 to want
        modifies buffer
        invariant buffer[..leftover + i] == old(buffer[..leftover]) + m[..i]
      {
        buffer[leftover + i] := m[i];
      }
      leftover := leftover + want;
    }

    /** poly1305_finish: the tag of everything passed to Update, however it was cut up. */
    method Finish() returns (mac: Bytes)
      requires Valid()
      modifies this, buffer
      ensures |mac| == 16 && Le(mac) == Tag(old(key), old(msg))
    {
      hide Tight, Small, Value, Le, Acc, WordsValue, Fits, Mac, BlockStep, Clamped;
      ghost var done := msg[..|msg| - leftover];
      ghost var part := msg[|msg| - leftover..];
      assert msg == done + part;
      if leftover > 0 {
        buffer[leftover] := 1;
        for i := leftover + 1 to 16
          modifies buffer
          invariant buffer[..leftover] == part && buffer[leftover] == 1
          invariant forall j :: leftover < j < i ==> buffer[j] == 0
        {
          buffer[i] := 0;
        }
        assert buffer[..16] == part + [1] + seq(15 - leftover, _ => 0);
        HoldsLast(w, key, r, h, pad, done, part);
        final := true;
        Blocks(buffer[..16], done);
      }
      assert leftover == 0 ==> done == msg;
      MacValue(w, h, pad);
      mac := Mac(w, h, pad);
      h, r, pad := Limbs(0, 0, 0, 0, 0), Limbs(0, 0, 0, 0, 0), Words(0, 0, 0, 0);
    }
  }

  lemma HoldsWord(w: nat, key: Bytes, r: Limbs, h: Limbs, pad: Words, done: Bytes)
    requires Holds(w, key, r, h, pad, done)
    ensures Word(w) && |done| % 16 == 0
  {
  }

  lemma Rest<T>(s: seq<T>, a: seq<T>, b: seq<T>)
    requires s == a + b
    ensures s[..|s| - |b|] == a && s[|s| - |b|..] == b
  {
  }

  lemma PadIs(key: Bytes)
    requires |key| == 32
    ensures var pad := Words(U32(key, 16), U32(key, 20), U32(key, 24), U32(key, 28));
            Fits(pad) && WordsValue(pad) == Le(key[16..])
  {
    hide Le, U32;
    Le16(key[16..]);
    U32Drop(key, 16, 0);
    U32Drop(key, 16, 4);
    U32Drop(key, 16, 8);
    U32Drop(key, 16, 12);
  }

  lemma U32Drop(s: Bytes, i: nat, j: nat)
    requires i + j + 4 <= |s|
    ensures U32(s[i..], j) == U32(s, i + j)
  {
  }
}
