/** What swcr_encdec computes, stated on one flat byte string. */
module BlockMode {
  import opened Arith
  import opened ByteStrings

  /**
   * An enc_xform. The key schedule `S` is threaded through every call, as ciphers
   * with a reinit method keep their counter or tweak in it.
   */
  datatype Xform<!S(!new)> = Xform(
    blks: nat,
    ivlen: nat,
    stateful: bool,                      // the transform has a reinit method
    reinit: (S, Bytes) -> S,
    encrypt: (S, Bytes) -> (S, Bytes),
    decrypt: (S, Bytes) -> (S, Bytes))
  {
    ghost predicate Valid() {
      && 0 < blks <= MAX_BLOCK_LEN
      && ivlen <= MAX_BLOCK_LEN
      && (!stateful ==> ivlen == blks)
      && (forall s, b :: |b| == blks ==> |encrypt(s, b).1| == blks && |decrypt(s, b).1| == blks)
    }

    /** Decryption undoes encryption and moves the key schedule the same way. */
    ghost predicate Invertible() {
      && Valid()
      && (forall s, b :: |b| == blks ==> decrypt(s, encrypt(s, b).1) == (encrypt(s, b).0, b))
    }

    /** The key schedule is only read, as in all ciphers without a reinit method. */
    ghost predicate Stateless() {
      && Valid() && !stateful
      && (forall s, b :: |b| == blks ==> encrypt(s, b).0 == s && decrypt(s, b).0 == s)
    }
  }

  const MAX_BLOCK_LEN: nat := 64

  /** Key schedule and the block the next one is chained to. */
  datatype Chain<S> = Chain(sched: S, prev: Bytes)

  function Block<S(!new)>(xf: Xform<S>, enc: bool, c: Chain<S>, b: Bytes): (r: (Chain<S>, Bytes))
    requires xf.Valid() && |c.prev| == xf.blks == |b|
    ensures |r.0.prev| == xf.blks == |r.1|
  {
    if xf.stateful then
      var (s, o) := if enc then xf.encrypt(c.sched, b) else xf.decrypt(c.sched, b);
      (Chain(s, c.prev), o)
    else if enc then
      var (s, o) := xf.encrypt(c.sched, Xor(b, c.prev));
      (Chain(s, o), o)
    else
      var (s, o) := xf.decrypt(c.sched, b);
      (Chain(s, b), Xor(o, c.prev))
  }

  /** All the blocks of `d`, one after the other. */
  function Run<S(!new)>(xf: Xform<S>, enc: bool, c: Chain<S>, d: Bytes): (r: (Chain<S>, Bytes))
    requires xf.Valid() && |c.prev| == xf.blks && |d| % xf.blks == 0
    ensures |r.0.prev| == xf.blks && |r.1| == |d|
  {
    if d == [] then (c, []) else
      var m := DropBlock(xf.blks, |d|);
      var (c', o) := Run(xf, enc, c, d[..m]);
      var (c'', o') := Block(xf, enc, c', d[m..]);
      (c'', o + o')
  }

  function DropBlock(blks: nat, n: nat): (m: nat)
    requires 0 < n && 0 < blks && n % blks == 0
    ensures m + blks == n && m % blks == 0
  {
    MultipleStep(n, blks);
    n - blks
  }

  lemma RunSnoc<S(!new)>(xf: Xform<S>, enc: bool, c: Chain<S>, d: Bytes, b: Bytes)
    requires xf.Valid() && |c.prev| == xf.blks == |b| && |d| % xf.blks == 0
    ensures |d + b| % xf.blks == 0
    ensures var (c', o) := Run(xf, enc, c, d);
            var (c'', o') := Block(xf, enc, c', b);
            Run(xf, enc, c, d + b) == (c'', o + o')
  {
    MultipleStep(|d|, xf.blks);
    assert (d + b)[..|d|] == d;
    assert (d + b)[|d|..] == b;
  }

  /** Decrypting what was encrypted from the same chaining value gives the data back. */
  lemma {:induction false} RunInverts<S(!new)>(xf: Xform<S>, c: Chain<S>, d: Bytes)
    requires xf.Invertible() && |c.prev| == xf.blks && |d| % xf.blks == 0
    ensures var (c', o) := Run(xf, true, c, d);
            Run(xf, false, c, o) == (c', d)
    decreases |d|
  {
    if d != [] {
      var m := DropBlock(xf.blks, |d|);
      var (c', o) := Run(xf, true, c, d[..m]);
      var (c'', o') := Block(xf, true, c', d[m..]);
      RunInverts(xf, c, d[..m]);
      XorCancels(d[m..], c'.prev);
      RunSnoc(xf, false, c, o, o');
      assert d == d[..m] + d[m..];
    }
  }

  /** The block of `d` at `at`, and what chains it: the block before it or the IV. */
  function At(d: Bytes, at: nat, n: nat): Bytes
    requires at + n <= |d|
  {
    d[at..at + n]
  }

  function Before(iv: Bytes, d: Bytes, at: nat): (r: Bytes)
    requires at <= |d| && (at > 0 ==> |iv| <= at)
    ensures |r| == |iv|
  {
    if at == 0 then iv else d[at - |iv|..at]
  }

  lemma InPrefix(iv: Bytes, a: Bytes, b: Bytes, at: nat, n: nat)
    requires at + n <= |a| && (at > 0 ==> |iv| <= at)
    ensures At(a + b, at, n) == At(a, at, n)
    ensures Before(iv, a + b, at) == Before(iv, a, at)
  {
  }

  lemma AtEnd(iv: Bytes, a: Bytes, b: Bytes)
    requires a == [] || |iv| <= |a|
    ensures At(a + b, |a|, |b|) == b
    ensures Before(iv, a + b, |a|) == if a == [] then iv else a[|a| - |iv|..]
  {
  }

  /**
   * Cipher block chaining as textbooks write it: each ciphertext block is the
   * encryption of the plaintext block xored with the ciphertext block before it,
   * the IV standing before the first.
   */
  lemma {:induction false} RunIsCbcEncryption<S(!new)>(xf: Xform<S>, c: Chain<S>, d: Bytes, at: nat)
    requires xf.Stateless() && |c.prev| == xf.blks && |d| % xf.blks == 0
    requires at < |d| && at % xf.blks == 0
    ensures at + xf.blks <= |d| && (at > 0 ==> at >= xf.blks)
    ensures var e := Run(xf, true, c, d).1;
            At(e, at, xf.blks) == xf.encrypt(c.sched, Xor(At(d, at, xf.blks), Before(c.prev, e, at))).1
    decreases |d|
  {
    hide At, Before, Xor;
    MultipleStep(at, xf.blks);
    var m := DropBlock(xf.blks, |d|);
    assert d == d[..m] + d[m..];
    var (c', e) := Run(xf, true, c, d[..m]);
    var (c'', e') := Block(xf, true, c', d[m..]);
    RunLeaves(xf, c, d[..m]);
    if at < m {
      RunIsCbcEncryption(xf, c, d[..m], at);
      InPrefix(c.prev, d[..m], d[m..], at, xf.blks);
      InPrefix(c.prev, e, e', at, xf.blks);
    } else {
      MultipleGap(m, at, xf.blks);
      AtEnd(c.prev, d[..m], d[m..]);
      AtEnd(c.prev, e, e');
    }
  }

  /** And its decryption: the deciphered block xored with the ciphertext block before it. */
  lemma {:induction false} RunIsCbcDecryption<S(!new)>(xf: Xform<S>, c: Chain<S>, d: Bytes, at: nat)
    requires xf.Stateless() && |c.prev| == xf.blks && |d| % xf.blks == 0
    requires at < |d| && at % xf.blks == 0
    ensures at + xf.blks <= |d| && (at > 0 ==> at >= xf.blks)
    ensures At(Run(xf, false, c, d).1, at, xf.blks) ==
            Xor(xf.decrypt(c.sched, At(d, at, xf.blks)).1, Before(c.prev, d, at))
    decreases |d|
  {
    hide At, Before, Xor;
    MultipleStep(at, xf.blks);
    var m := DropBlock(xf.blks, |d|);
    assert d == d[..m] + d[m..];
    var (c', p) := Run(xf, false, c, d[..m]);
    var (c'', p') := Block(xf, false, c', d[m..]);
    RunLeaves(xf, c, d[..m]);
    if at < m {
      RunIsCbcDecryption(xf, c, d[..m], at);
      InPrefix(c.prev, d[..m], d[m..], at, xf.blks);
      InPrefix(c.prev, p, p', at, xf.blks);
    } else {
      MultipleGap(m, at, xf.blks);
      AtEnd(c.prev, d[..m], d[m..]);
      AtEnd(c.prev, p, p');
    }
  }

  /** The chaining value left behind is the last ciphertext block. */
  lemma {:induction false} RunLeaves<S(!new)>(xf: Xform<S>, c: Chain<S>, d: Bytes)
    requires xf.Stateless() && |c.prev| == xf.blks && |d| % xf.blks == 0
    ensures d == [] || |d| >= xf.blks
    ensures var (ce, e) := Run(xf, true, c, d);
            && ce.sched == c.sched
            && ce.prev == if d == [] then c.prev else e[|d| - xf.blks..]
    ensures var (cp, _) := Run(xf, false, c, d);
            && cp.sched == c.sched
            && cp.prev == if d == [] then c.prev else d[|d| - xf.blks..]
    decreases |d|
  {
    if d != [] {
      var m := DropBlock(xf.blks, |d|);
      RunLeaves(xf, c, d[..m]);
      var (c', o) := Run(xf, true, c, d[..m]);
      var (c'', o') := Block(xf, true, c', d[m..]);
      assert (o + o')[m..] == o';
    }
  }

  // ---------- transforms with a reinit method ----------

  /** The schedule that meets the block of `d` at `at`, when `s` meets the first. */
  function SchedAt<S(!new)>(xf: Xform<S>, enc: bool, s: S, d: Bytes, at: nat): S
    requires xf.Valid() && at <= |d| && at % xf.blks == 0
    decreases at
  {
    if at == 0 then s else
      var m := DropBlock(xf.blks, at);
      var p := SchedAt(xf, enc, s, d, m);
      if enc then xf.encrypt(p, d[m..at]).0 else xf.decrypt(p, d[m..at]).0
  }

  lemma {:induction false} SchedOfPrefix<S(!new)>(xf: Xform<S>, enc: bool, s: S, d: Bytes, n: nat, at: nat)
    requires xf.Valid() && at <= n <= |d| && at % xf.blks == 0
    ensures SchedAt(xf, enc, s, d[..n], at) == SchedAt(xf, enc, s, d, at)
    decreases at
  {
    if at > 0 {
      var m := DropBlock(xf.blks, at);
      SchedOfPrefix(xf, enc, s, d, n, m);
      assert d[..n][m..at] == d[m..at];
    }
  }

  /** Each block is turned over by the transform alone, with the schedule that the blocks before it left. */
  lemma {:induction false} RunIsStateful<S(!new)>(xf: Xform<S>, enc: bool, c: Chain<S>, d: Bytes, at: nat)
    requires xf.Valid() && xf.stateful && |c.prev| == xf.blks && |d| % xf.blks == 0
    requires at <= |d| && at % xf.blks == 0
    ensures Run(xf, enc, c, d).0.sched == SchedAt(xf, enc, c.sched, d, |d|)
    ensures at < |d| ==> at + xf.blks <= |d|
    ensures at < |d| ==>
              var s := SchedAt(xf, enc, c.sched, d, at);
              var b := At(d, at, xf.blks);
              At(Run(xf, enc, c, d).1, at, xf.blks) == if enc then xf.encrypt(s, b).1 else xf.decrypt(s, b).1
    decreases |d|
  {
    hide At;
    if d != [] {
      var m := DropBlock(xf.blks, |d|);
      var k, b := d[..m], d[m..];
      assert d == k + b && d[m..|d|] == b;
      var (c', o) := Run(xf, enc, c, k);
      var (_, o') := Block(xf, enc, c', b);
      SchedOfPrefix(xf, enc, c.sched, d, m, m);
      if at < m {
        RunIsStateful(xf, enc, c, k, at);
        SchedOfPrefix(xf, enc, c.sched, d, m, at);
        InPrefix(c.prev, k, b, at, xf.blks);
        InPrefix(c.prev, o, o', at, xf.blks);
      } else {
        RunIsStateful(xf, enc, c, k, 0);
        if at < |d| {
          MultipleGap(m, at, xf.blks);
          StatefulAtEnd(k, b);
          StatefulAtEnd(o, o');
        }
      }
    }
  }

  lemma StatefulAtEnd(a: Bytes, b: Bytes)
    ensures At(a + b, |a|, |b|) == b
  {
  }
}
