/** chacha_private.h: the stream cipher around the block function. */
module Chacha {
  import opened Arith
  import opened ByteStrings
  import opened WordOps

  /** The block function: sixteen words to the 64 bytes of a key block. */
  type Core = seq<nat> -> Bytes

  ghost predicate BlockFunction(core: Core) {
    forall x: seq<nat> :: |x| == 16 ==> |core(x)| == 64
  }

  // ---------- specification ----------

  ghost predicate Input(x: seq<nat>) {
    |x| == 16 && x[12] < W32 && x[13] < W32
  }

  /** The block counter is a 64-bit number in words 12 and 13. */
  function Counter(x: seq<nat>): nat
    requires Input(x)
  {
    x[12] + W32 * x[13]
  }

  function WithCounter(x: seq<nat>, n: nat): (y: seq<nat>)
    requires |x| == 16
    ensures Input(y)
  {
    x[12 := n % W32][13 := n / W32 % W32]
  }

  /** Key block k of the stream. */
  function KeyBlock(core: Core, x: seq<nat>, k: nat): (b: Bytes)
    requires BlockFunction(core) && Input(x)
    ensures |b| == 64
  {
    core(WithCounter(x, Counter(x) + k))
  }

  /** Every byte is combined with its byte of the key stream. */
  function Crypt(core: Core, x: seq<nat>, m: Bytes): (c: Bytes)
    requires BlockFunction(core) && Input(x)
    ensures |c| == |m|
    ensures forall i :: 0 <= i < |m| ==> c[i] == m[i] ^ KeyBlock(core, x, i / 64)[i % 64]
  {
    seq(|m|, i requires 0 <= i < |m| => m[i] ^ KeyBlock(core, x, i / 64)[i % 64])
  }

  /** Encryption and decryption are the same operation. */
  lemma CryptUndoes(core: Core, x: seq<nat>, m: Bytes)
    requires BlockFunction(core) && Input(x)
    ensures Crypt(core, x, Crypt(core, x, m)) == m
  {
    hide KeyBlock;
    var c := Crypt(core, x, m);
    forall i | 0 <= i < |m|
      ensures Crypt(core, x, c)[i] == m[i]
    {
      XorByte(m[i], KeyBlock(core, x, i / 64)[i % 64]);
    }
  }

  lemma XorByte(a: bv8, b: bv8)
    ensures (a ^ b) ^ b == a
  {
  }

  /** Nothing of the stream depends on what comes later. */
  lemma CryptPrefix(core: Core, x: seq<nat>, m: Bytes, n: nat)
    requires BlockFunction(core) && Input(x) && n <= |m|
    ensures Crypt(core, x, m[..n]) == Crypt(core, x, m)[..n]
  {
    hide KeyBlock;
  }

  /** How many key blocks n bytes take. */
  function BlocksFor(n: nat): nat { (n + 63) / 64 }

  // ---------- the code ----------

  /** The two counter words after a block: word 13 takes the carry of word 12. */
  function Advanced(j: seq<nat>): seq<nat>
    requires Input(j)
  {
    var j12 := (j[12] + 1) % W32;
    if j12 == 0 then j[12 := 0][13 := (j[13] + 1) % W32] else j[12 := j12]
  }

  lemma AdvancedCounts(x: seq<nat>, n: nat)
    requires |x| == 16
    ensures Advanced(WithCounter(x, n)) == WithCounter(x, n + 1)
  {
    CounterStep(n);
  }

  lemma CounterStep(n: nat)
    ensures (n + 1) % W32 == (n % W32 + 1) % W32
    ensures (n + 1) / W32 % W32 == if (n + 1) % W32 == 0 then (n / W32 % W32 + 1) % W32 else n / W32 % W32
  {
    var q, r := n / W32, n % W32;
    if r + 1 < W32 {
      DivModUnique(n + 1, q, W32, r + 1);
      SmallMod(r + 1, W32);
    } else {
      DivModUnique(n + 1, q + 1, W32, 0);
      ModPlusOne(q);
    }
  }

  lemma SameCounter(x: seq<nat>)
    requires Input(x)
    ensures WithCounter(x, Counter(x)) == x
  {
    DivModUnique(Counter(x), x[13], W32, x[12]);
    SmallMod(x[13], W32);
  }

  /** A whole block: all of it is read before any of it is written, so `dst` may be `src`. */
  method XorBlock(ks: Bytes, src: array<bv8>, dst: array<bv8>, at: nat)
    requires |ks| == 64 && at + 64 <= src.Length && at + 64 <= dst.Length
    modifies dst
    ensures dst[..] == Splice(old(dst[..]), at, Xor(old(src[at..at + 64]), ks))
  {
    forall k | 0 <= k < 64 {
      dst[at + k] := src[at + k] ^ ks[k];
    }
  }

  /** The last, partial block goes through a local buffer whose other bytes hold anything. */
  method XorTail(ks: Bytes, src: array<bv8>, dst: array<bv8>, at: nat, n: nat)
    requires |ks| == 64 && n < 64 && at + n <= src.Length && at + n <= dst.Length
    modifies dst
    ensures dst[..] == Splice(old(dst[..]), at, Xor(old(src[at..at + n]), ks[..n]))
  {
    hide Splice, Xor;
    var tmp := new bv8[64];
    ghost var t, m := tmp[..], src[at..at + n];
    Store(tmp, 0, src[at..at + n]);
    XorBlock(ks, tmp, tmp, 0);
    TailIs(t, m, ks);
    assert tmp[..n] == tmp[..][..n];
    Store(dst, at, tmp[..n]);
  }

  lemma TailIs(t: Bytes, m: Bytes, ks: Bytes)
    requires |t| == |ks| == 64 && |m| < 64
    ensures var u := Splice(t, 0, m);
            u[0..64] == u && Splice(u, 0, Xor(u, ks))[..|m|] == Xor(m, ks[..|m|])
  {
  }

  lemma MoreStream(core: Core, x: seq<nat>, m: Bytes, k: nat, n: nat)
    requires BlockFunction(core) && Input(x) && 64 * k + n <= |m| && n <= 64
    ensures Crypt(core, x, m[..64 * k + n])
         == Crypt(core, x, m[..64 * k]) + Xor(m[64 * k..64 * k + n], KeyBlock(core, x, k)[..n])
  {
    hide Crypt, KeyBlock;
    var c := Crypt(core, x, m[..64 * k + n]);
    CryptPrefix(core, x, m[..64 * k + n], 64 * k);
    assert m[..64 * k + n][..64 * k] == m[..64 * k];
    forall i | 0 <= i < n
      ensures c[64 * k..][i] == m[64 * k + i] ^ KeyBlock(core, x, k)[i]
    {
      StreamAt(core, x, m[..64 * k + n], k, i);
    }
    assert c[64 * k..] == Xor(m[64 * k..64 * k + n], KeyBlock(core, x, k)[..n]);
    assert c == c[..64 * k] + c[64 * k..];
  }

  lemma StreamAt(core: Core, x: seq<nat>, m: Bytes, k: nat, i: nat)
    requires BlockFunction(core) && Input(x) && 64 * k + i < |m| && i < 64
    ensures Crypt(core, x, m)[64 * k + i] == m[64 * k + i] ^ KeyBlock(core, x, k)[i]
  {
    hide KeyBlock;
    DivModUnique(64 * k + i, k, 64, i);
  }

  class Ctx {
    var input: seq<nat>

    constructor (x: seq<nat>)
      ensures input == x
    {
      input := x;
    }

    /** chacha_encrypt_bytes: the stream of as many key blocks as it takes, and the counter moved past them. */
    method EncryptBytes(core: Core, src: array<bv8>, dst: array<bv8>, bytes: nat)
      requires BlockFunction(core) && Input(input) && bytes <= src.Length && bytes <= dst.Length
      modifies this, dst
      ensures dst[..] == Splice(old(dst[..]), 0, Crypt(core, old(input), old(src[..bytes])))
      ensures input == WithCounter(old(input), Counter(old(input)) + BlocksFor(bytes))
    {
      hide Crypt, WithCounter, Counter, KeyBlock, Advanced, Splice, Xor;
      ghost var x, d, s := input, dst[..], src[..];
      SameCounter(x);
      CryptNothing(core, x);
      SpliceNothing(d, 0);
      assert s[..0] == [];
      if bytes == 0 {
        return;
      }
      var j := input;
      var at: nat, left: nat := 0, bytes;
      ghost var k: nat := 0;
      while true
        invariant at == 64 * k && left == bytes - at && left > 0
        invariant j == WithCounter(x, Counter(x) + k)
        invariant dst[..] == Splice(d, 0, Crypt(core, x, s[..at])) && src[at..bytes] == s[at..bytes]
        modifies dst
        decreases left
      {
        KeyBlockIs(core, x, k);
        ghost var n := Least(left, 64);
        assert src[at..at + n] == src[at..bytes][..n];
        assert s[at + n..bytes] == s[at..bytes][n..] && src[at + n..bytes] == src[at..bytes][n..];
        XorStream(core(j), src, dst, at, left);
        StreamStep(core, x, d, s, k, bytes);
        AdvancedCounts(x, Counter(x) + k);
        j := Advanced(j);
        if left <= 64 {
          break;
        }
        at, left, k := at + 64, left - 64, k + 1;
      }
      input := j;
      BlocksAre(bytes, k);
    }
  }

  /** What is written for one pass of the loop. */
  function Least(a: nat, b: nat): nat { if a < b then a else b }

  lemma SpliceKeeps(s: Bytes, at: nat, t: Bytes, to: nat)
    requires at + |t| <= to <= |s|
    ensures Splice(s, at, t)[at + |t|..to] == s[at + |t|..to]
  {
  }

  method XorStream(ks: Bytes, src: array<bv8>, dst: array<bv8>, at: nat, left: nat)
    requires |ks| == 64 && at + left <= src.Length && at + left <= dst.Length
    modifies dst
    ensures var n := Least(left, 64);
            && dst[..] == Splice(old(dst[..]), at, Xor(old(src[at..at + n]), ks[..n]))
            && src[at + n..at + left] == old(src[at + n..at + left])
  {
    if left < 64 {
      XorTail(ks, src, dst, at, left);
      assert src[at + left..at + left] == old(src[at + left..at + left]);
    } else {
      ghost var d, x := dst[..], Xor(src[at..at + 64], ks);
      assert ks[..64] == ks;
      XorBlock(ks, src, dst, at);
      SpliceKeeps(d, at, x, at + left);
      if src == dst {
        assert src[at + 64..at + left] == dst[..][at + 64..at + left];
        assert d[at + 64..at + left] == old(src[at + 64..at + left]);
      }
    }
  }

  lemma StreamStep(core: Core, x: seq<nat>, d: Bytes, s: Bytes, k: nat, bytes: nat)
    requires BlockFunction(core) && Input(x) && 64 * k < bytes <= |d| && bytes <= |s|
    ensures var n := Least(bytes - 64 * k, 64);
            && s[64 * k..bytes][..n] == s[64 * k..64 * k + n]
            && Splice(Splice(d, 0, Crypt(core, x, s[..64 * k])), 64 * k,
                      Xor(s[64 * k..64 * k + n], KeyBlock(core, x, k)[..n]))
            == Splice(d, 0, Crypt(core, x, s[..64 * k + n]))
  {
    hide Crypt, KeyBlock, Splice, Xor;
    var n := Least(bytes - 64 * k, 64);
    MoreStream(core, x, s, k, n);
    SpliceAdjacent(d, 0, Crypt(core, x, s[..64 * k]), Xor(s[64 * k..64 * k + n], KeyBlock(core, x, k)[..n]));
  }

  lemma KeyBlockIs(core: Core, x: seq<nat>, k: nat)
    requires BlockFunction(core) && Input(x)
    ensures |WithCounter(x, Counter(x) + k)| == 16 && KeyBlock(core, x, k) == core(WithCounter(x, Counter(x) + k))
  {
  }

  lemma CryptNothing(core: Core, x: seq<nat>)
    requires BlockFunction(core) && Input(x)
    ensures Crypt(core, x, []) == []
  {
  }

  lemma BlocksAre(n: nat, k: nat)
    requires 64 * k < n <= 64 * k + 64
    ensures BlocksFor(n) == k + 1 && BlocksFor(0) == 0
  {
  }
}
