/** blake2s.c: feeding blocks to the compression function (section 3.3 of RFC 7693) from updates of any size. */
module Blake2s {
  import opened Arith
  import opened Bits
  import opened ByteStrings
  import opened HeldBack
  import opened LittleEndian
  import opened WordOps

  // ---------- specification ----------

  /** The compression function: chaining value, block, the two counter words and the last-block flag. */
  type Compression = (seq<nat>, Bytes, nat, nat, bool) -> seq<nat>

  ghost predicate Compresses(f: Compression) {
    forall h: seq<nat>, b: Bytes, t0: nat, t1: nat, last: bool :: |h| == 8 && |b| == 64 ==> |f(h, b, t0, t1, last)| == 8
  }

  /** The offset counter of n bytes, as two 32-bit words. */
  function Low32(n: nat): nat { n % W32 }

  function High32(n: nat): nat { n / W32 % W32 }

  /** The chaining value after whole blocks; each block is compressed with the number of bytes up to its end. */
  function Hashed(f: Compression, h0: seq<nat>, m: Bytes): (h: seq<nat>)
    requires Compresses(f) && |h0| == 8 && |m| % 64 == 0
    ensures |h| == 8
  {
    if m == [] then h0
    else f(Hashed(f, h0, m[..|m| - 64]), m[|m| - 64..], Low32(|m|), High32(|m|), false)
  }

  function ZeroPadded(b: Bytes): (r: Bytes)
    requires |b| <= 64
    ensures |r| == 64
  {
    b + seq(64 - |b|, _ => 0)
  }

  const IV: seq<nat> := [0x6A09E667, 0xBB67AE85, 0x3C6EF372, 0xA54FF53A, 0x510E527F, 0x9B05688C, 0x1F83D9AB, 0x5BE0CD19]

  /** The parameter block: digest and key lengths, fan-out and depth one. */
  function Initial(outlen: nat, keylen: nat): (h: seq<nat>)
    ensures |h| == 8
  {
    IV[0 := XorBits(IV[0], Or(Or(0x0101_0000, 256 * keylen), outlen))]
  }

  /** The words of a chaining value, least significant byte first. */
  function WordBytes(h: seq<nat>): (s: Bytes)
    ensures |s| == 4 * |h|
  {
    if h == [] then [] else U32Bytes(h[0]) + WordBytes(h[1..])
  }

  function Digest(f: Compression, h0: seq<nat>, outlen: nat, m: Bytes): (d: Bytes)
    requires Compresses(f) && |h0| == 8 && outlen <= 32
    ensures |d| == outlen
  {
    var at := LastAt(|m|, 64);
    WordBytes(f(Hashed(f, h0, m[..at]), ZeroPadded(m[at..]), Low32(|m|), High32(|m|), true))[..outlen]
  }

  lemma HashedMore(f: Compression, h0: seq<nat>, m: Bytes, b: Bytes)
    requires Compresses(f) && |h0| == 8 && |m| % 64 == 0 && |b| == 64
    ensures |m + b| % 64 == 0
    ensures Hashed(f, h0, m + b) == f(Hashed(f, h0, m), b, Low32(|m + b|), High32(|m + b|), false)
  {
    assert (m + b)[..|m|] == m && (m + b)[|m|..] == b;
  }

  // ---------- the counter ----------

  /** blake2s_increment_counter: the second word takes the carry of the first. */
  function Incremented(t0: nat, t1: nat, inc: nat): (nat, nat) {
    var s := (t0 + inc) % W32;
    (s, (t1 + if s < inc then 1 else 0) % W32)
  }

  /** The two words count bytes modulo 2^64. */
  lemma CounterAdds(n: nat, inc: nat)
    requires inc < W32
    ensures Incremented(Low32(n), High32(n), inc) == (Low32(n + inc), High32(n + inc))
  {
    var q, r := n / W32, n % W32;
    if r + inc < W32 {
      DivModUnique(n + inc, q, W32, r + inc);
      SmallMod(r + inc, W32);
      SmallMod(q % W32, W32);
    } else {
      DivModUnique(n + inc, q + 1, W32, r + inc - W32);
      DivModUnique(r + inc, 1, W32, r + inc - W32);
      ModPlusOne(q);
    }
  }

  // ---------- what the parameters and the digest are ----------

  /** The initial words are the first 32 bits of the fractional parts of the square roots of the first primes. */
  lemma IvIsRoots(i: nat)
    requires i < 8
    ensures |IV| == 8
    ensures var p := [2, 3, 5, 7, 11, 13, 17, 19][i];
            var v := [1, 1, 2, 2, 3, 3, 4, 4][i] * W32 + IV[i];
            v * v <= p * W64 < (v + 1) * (v + 1) && IV[i] < W32
  {
    assert i == 0 || i == 1 || i == 2 || i == 3 || i == 4 || i == 5 || i == 6 || i == 7;
  }

  /** Section 2.5: bytes one to four of the parameter block are the two lengths and two ones. */
  lemma InitialIs(outlen: nat, keylen: nat)
    requires outlen < 256 && keylen < 256
    ensures Initial(outlen, keylen)[0] == XorBits(0x6A09_E667, outlen + 256 * keylen + 0x1_0000 + 0x100_0000)
    ensures Initial(outlen, keylen)[1..] == IV[1..]
  {
    hide XorBits, Or, Low, High;
    var o := 256 * keylen + 0x0101_0000;
    Pow2s();
    LowHigh(256 * keylen, 16);
    LowHigh(0x0101_0000, 16);
    OrDisjoint(256 * keylen, 0x0101_0000, 16);
    OrCommutes(256 * keylen, 0x0101_0000);
    LowHigh(outlen, 8);
    LowHigh(o, 8);
    OrDisjoint(outlen, o, 8);
    OrCommutes(outlen, o);
  }

  lemma Pow2s()
    ensures Pow2(8) == 0x100 && Pow2(16) == 0x1_0000
  {
    assert Pow2(8) == 0x100;
  }

  lemma {:induction false} WordBytesAt(h: seq<nat>, i: nat)
    requires i < 4 * |h|
    ensures Val(WordBytes(h)[i]) == h[i / 4] / Pow256(i % 4) % 256
  {
    hide Val, Byte;
    if i < 4 {
      assert Pow256(0) == 1 && Pow256(1) == 0x100 && Pow256(2) == 0x1_0000 && Pow256(3) == 0x100_0000;
      ByteVal(h[0] / Pow256(i));
      assert h[0] / 1 == h[0];
    } else {
      WordBytesAt(h[1..], i - 4);
    }
  }

  /** How many blocks n bytes make; none make one. */
  function Blocks(n: nat): nat { if n == 0 then 1 else (n + 63) / 64 }

  /** Each chaining value comes from the one before, a block, and the number of bytes up to the end of the block. */
  ghost predicate Chained(f: Compression, h0: seq<nat>, m: Bytes, c: seq<seq<nat>>, n: nat)
    requires 64 * n <= |m|
  {
    && |c| > n && c[0] == h0
    && forall j :: 0 <= j < n ==>
         var t := 64 * j + 64;
         c[j + 1] == f(c[j], m[64 * j..t], t % 0x1_0000_0000, t / 0x1_0000_0000 % 0x1_0000_0000, false)
  }

  lemma ChainedStart(f: Compression, h0: seq<nat>, m: Bytes, c: seq<seq<nat>>)
    requires Compresses(f) && |h0| == 8 && Chained(f, h0, m, c, 0)
    ensures |c| > 0 && c[0] == Hashed(f, h0, m[..0])
  {
  }

  lemma ChainedStep(f: Compression, h0: seq<nat>, m: Bytes, c: seq<seq<nat>>, k: nat)
    requires 64 * k + 64 <= |m| && Chained(f, h0, m, c, k + 1)
    ensures |c| > k + 1 && Chained(f, h0, m, c, k)
    ensures c[k + 1] == f(c[k], m[64 * k..64 * k + 64], Low32(64 * k + 64), High32(64 * k + 64), false)
  {
  }

  lemma {:induction false} ChainedIs(f: Compression, h0: seq<nat>, m: Bytes, c: seq<seq<nat>>, n: nat)
    requires Compresses(f) && |h0| == 8 && 64 * n <= |m| && Chained(f, h0, m, c, n)
    ensures |c| > n && c[n] == Hashed(f, h0, m[..64 * n])
  {
    hide Hashed, Chained, Low32, High32;
    if n == 0 {
      ChainedStart(f, h0, m, c);
    } else {
      var k := n - 1;
      ChainedStep(f, h0, m, c, k);
      ChainedIs(f, h0, m, c, k);
      var p, b := m[..64 * k], m[64 * k..64 * k + 64];
      HashedMore(f, h0, p, b);
      assert m[..64 * n] == p + b;
    }
  }

  /** Section 3.3: the last block is filled with zeros, counts all bytes, and gives the digest's bytes, lowest first. */
  lemma DigestIs(f: Compression, h0: seq<nat>, outlen: nat, m: Bytes, c: seq<seq<nat>>, i: nat)
    requires Compresses(f) && |h0| == 8 && i < outlen <= 32
    requires 64 * (Blocks(|m|) - 1) <= |m| && Chained(f, h0, m, c, Blocks(|m|) - 1)
    ensures var n := Blocks(|m|) - 1;
            && |c[n]| == 8 && |m[64 * n..]| <= 64
            && var h := f(c[n], m[64 * n..] + seq(64 - |m[64 * n..]|, _ => 0),
                          |m| % 0x1_0000_0000, |m| / 0x1_0000_0000 % 0x1_0000_0000, true);
               |h| == 8 && Val(Digest(f, h0, outlen, m)[i]) == h[i / 4] / Pow256(i % 4) % 256
  {
    hide Hashed, LastAt, Chained, WordBytes, Val, Pow256;
    var n := Blocks(|m|) - 1;
    ChainedIs(f, h0, m, c, n);
    LastAtIs(m, m[..64 * n], m[64 * n..], 64);
    var h := f(c[n], ZeroPadded(m[64 * n..]), Low32(|m|), High32(|m|), true);
    WordBytesAt(h, i);
  }

  // ---------- the code ----------

  class State {
    var h: seq<nat>
    var t0: nat
    var t1: nat
    var last: bool
    const buf: array<bv8>
    var buflen: nat
    var outlen: nat
    ghost var h0: seq<nat>
    ghost var msg: Bytes

    /** The chaining value and the counter of what has been compressed. */
    ghost predicate Holds(f: Compression, done: Bytes)
      reads this
    {
      && Compresses(f) && |h0| == 8 && |done| % 64 == 0 && !last && outlen <= 32
      && h == Hashed(f, h0, done) && t0 == Low32(|done|) && t1 == High32(|done|)
    }

    /** The last block of what has been fed is held back; everything before it has been compressed. */
    ghost predicate Valid(f: Compression)
      reads this, buf
    {
      && buf.Length == 64 && Holds(f, msg[..LastAt(|msg|, 64)])
      && buflen == |msg| - LastAt(|msg|, 64) && buf[..buflen] == msg[LastAt(|msg|, 64)..]
    }

    /** blake2s_init */
    constructor (f: Compression, outlen: nat)
      requires Compresses(f) && 0 < outlen <= 32
      ensures Valid(f) && msg == [] && h0 == Initial(outlen, 0) && this.outlen == outlen && fresh(buf)
    {
      hide Initial;
      h, h0, msg := Initial(outlen, 0), Initial(outlen, 0), [];
      t0, t1, last, buflen := 0, 0, false, 0;
      this.outlen := outlen;
      buf := new bv8[64];
    }

    /** blake2s_init_key: the key is the first block. */
    constructor Keyed(f: Compression, outlen: nat, key: Bytes)
      requires Compresses(f) && 0 < outlen <= 32 && 0 < |key| <= 32
      ensures Valid(f) && msg == ZeroPadded(key) && h0 == Initial(outlen, |key|) && this.outlen == outlen && fresh(buf)
    {
      hide Initial;
      h, h0, msg := Initial(outlen, |key|), Initial(outlen, |key|), [];
      t0, t1, last, buflen := 0, 0, false, 0;
      this.outlen := outlen;
      buf := new bv8[64];
      new;
      Update(f, ZeroPadded(key));
    }

    /** One pass of the loop of blake2s_compress. */
    method CompressOne(f: Compression, block: Bytes, inc: nat)
      requires Compresses(f) && |h| == 8 && |block| == 64
      modifies `h, `t0, `t1
      ensures (t0, t1) == Incremented(old(t0), old(t1), inc) && h == f(old(h), block, t0, t1, last)
    {
      t0 := (t0 + inc) % W32;
      t1 := (t1 + if t0 < inc then 1 else 0) % W32;
      h := f(h, block, t0, t1, last);
    }

    /** blake2s_compress on whole blocks. */
    method Compress(f: Compression, blocks: Bytes, nblocks: nat, ghost done: Bytes)
      requires Holds(f, done) && |blocks| == 64 * nblocks
      modifies `h, `t0, `t1
      ensures Holds(f, done + blocks)
    {
      hide Hashed, Low32, High32, Incremented;
      var i: nat, left: nat := 0, nblocks;
      assert done + blocks[..0] == done;
      while left > 0
        invariant left <= nblocks && i == 64 * (nblocks - left) && Holds(f, done + blocks[..i])
      {
        ghost var b := blocks[i..i + 64];
        CounterAdds(|done + blocks[..i]|, 64);
        HashedMore(f, h0, done + blocks[..i], b);
        CompressOne(f, blocks[i..i + 64], 64);
        assert done + blocks[..i] + b == done + blocks[..i + 64];
        i, left := i + 64, left - 1;
      }
      assert blocks[..i] == blocks;
    }

    /** blake2s_update: any data, also none. */
    method Update(f: Compression, data: Bytes)
      requires Valid(f)
      modifies this, buf
      ensures Valid(f) && msg == old(msg) + data && h0 == old(h0) && outlen == old(outlen)
    {
      hide Hashed, Low32, High32, LastAt, Splice;
      if |data| == 0 {
        assert msg == msg + data;
        return;
      }
      var d := data;
      ghost var done, held := msg[..LastAt(|msg|, 64)], msg[LastAt(|msg|, 64)..];
      msg := msg + data;
      var fill := 64 - buflen;
      if |d| > fill {
        SpliceEnds(buf[..], buflen, d[..fill]);
        Store(buf, buflen, d[..fill]);
        assert buf[..] == buf[..64] == held + d[..fill];
        Compress(f, buf[..], 1, done);
        done := done + (held + d[..fill]);
        buflen := 0;
        assert d == d[..fill] + d[fill..];
        d := d[fill..];
        held := [];
      }
      Feed(f, d, done, held);
    }

    /** Data that fits the buffer is kept; after a full buffer there may be more than fits. */
    method Feed(f: Compression, d: Bytes, ghost done: Bytes, ghost held: Bytes)
      requires Holds(f, done) && buf.Length == 64 && buflen == |held| <= 64 && buf[..buflen] == held
      requires d != [] && (|held| + |d| <= 64 || held == []) && msg == done + held + d
      modifies `h, `t0, `t1, `buflen, buf
      ensures Valid(f)
    {
      hide Hashed, Low32, High32, LastAt, Splice;
      if |d| > 64 {
        Direct(f, d, done);
      } else {
        SpliceEnds(buf[..], buflen, d);
        Store(buf, buflen, d);
        buflen := buflen + |d|;
        LastAtIs(msg, done, held + d, 64);
      }
    }

    /** Whole blocks go straight in, one less than strictly possible. */
    method Direct(f: Compression, data: Bytes, ghost done: Bytes)
      requires Holds(f, done) && buf.Length == 64 && buflen == 0 && |data| > 64 && msg == done + data
      modifies `h, `t0, `t1, `buflen, buf
      ensures Valid(f)
    {
      hide Hashed, Low32, High32, LastAt, Splice;
      var n := (|data| + 63) / 64 - 1;
      var rest := data[64 * n..];
      assert data == data[..64 * n] + rest;
      Compress(f, data[..64 * n], n, done);
      SpliceEnds(buf[..], 0, rest);
      Store(buf, 0, rest);
      buflen := |rest|;
      LastAtIs(msg, done + data[..64 * n], rest, 64);
    }

    /** blake2s_final: the digest of everything passed to Update, however it was cut up. */
    method Final(f: Compression) returns (out: Bytes)
      requires Valid(f)
      modifies this, buf
      ensures out == Digest(f, old(h0), old(outlen), old(msg))
    {
      hide Hashed, Low32, High32, LastAt, Splice, WordBytes;
      ghost var at, held := LastAt(|msg|, 64), msg[LastAt(|msg|, 64)..];
      last := true;
      SpliceEnds(buf[..], buflen, seq(64 - buflen, _ => 0));
      Store(buf, buflen, seq(64 - buflen, _ => 0));
      assert buf[..] == buf[..64] == ZeroPadded(held);
      CounterAdds(at, buflen);
      CompressOne(f, buf[..], buflen);
      out := WordBytes(h)[..outlen];
    }
  }
}
