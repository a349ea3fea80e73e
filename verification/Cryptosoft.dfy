/** swcr_encdec of cryptosoft.c on scatter/gather buffers. */
module Cryptosoft {
  import opened Arith
  import opened ByteStrings
  import opened BlockMode
  import opened Uio

  /** The parts of a cryptodesc that swcr_encdec reads. */
  datatype Request = Request(
    encrypt: bool,
    ivPresent: bool,
    ivExplicit: bool,
    iv: Bytes,
    skip: nat,
    len: nat,
    inject: nat)

  datatype Status = Done | Einval | Panic

  // ---------- specification ----------

  /** How much of the requested range is turned over before the data run out. */
  function Covered(total: nat, skip: nat, len: nat, blks: nat): (n: nat)
    requires 0 < blks && skip <= total && len % blks == 0
    ensures n <= len && skip + n <= total && n % blks == 0
    ensures n == len || total < skip + n + blks
  {
    if skip + len <= total then len else
      var n := (total - skip) / blks * blks;
      ModOfMultiple((total - skip) / blks, blks);
      n
  }

  function FirstChain<S(!new)>(xf: Xform<S>, sched: S, iv: Bytes): (c: Chain<S>)
    requires xf.Valid() && |iv| == xf.ivlen
    ensures |c.prev| == xf.blks
  {
    if xf.stateful then Chain(xf.reinit(sched, iv), seq(xf.blks, _ => 0)) else Chain(sched, iv)
  }

  /** Outcome, key schedule and data once the IV is known. */
  function DataSpec<S(!new)>(xf: Xform<S>, r: Request, c: Chain<S>, cnt: nat, flat: Bytes): (Status, S, Bytes)
    requires xf.Valid() && |c.prev| == xf.blks && r.len % xf.blks == 0
  {
    if cnt == 0 || r.skip > |flat| then (Einval, c.sched, flat) else
      var n := Covered(|flat|, r.skip, r.len, xf.blks);
      var (c', o) := Run(xf, r.encrypt, c, flat[r.skip..r.skip + n]);
      var status := if n == r.len then Done else if r.skip + n == |flat| then Einval else Panic;
      (status, c'.sched, Splice(flat, r.skip, o))
  }

  /** The whole call, on `flat` data held in `cnt` iovecs. */
  function EncDecSpec<S(!new)>(xf: Xform<S>, r: Request, sched: S, rnd: Bytes, cnt: nat, flat: Bytes)
    : (Status, S, Bytes)
    requires xf.Valid() && |r.iv| == MAX_BLOCK_LEN && |rnd| == xf.ivlen
  {
    if r.len % xf.blks != 0 then (Einval, sched, flat)
    else if r.encrypt then
      var iv := if r.ivExplicit then r.iv[..xf.ivlen] else rnd;
      if r.ivPresent then DataSpec(xf, r, FirstChain(xf, sched, iv), cnt, flat)
      else if r.inject + xf.ivlen > |flat| then (Panic, sched, flat)
      else DataSpec(xf, r, FirstChain(xf, sched, iv), cnt, Splice(flat, r.inject, iv))
    else if r.ivExplicit then
      DataSpec(xf, r, FirstChain(xf, sched, r.iv[..xf.ivlen]), cnt, flat)
    else if r.inject + xf.ivlen > |flat| then (Panic, sched, flat)
    else DataSpec(xf, r, FirstChain(xf, sched, flat[r.inject..r.inject + xf.ivlen]), cnt, flat)
  }

  // ---------- what the specification promises ----------

  /** The call ends with 0 exactly when the range is whole blocks inside the data and the IV fits. */
  lemma DoneExactlyWhenInside<S(!new)>(xf: Xform<S>, r: Request, sched: S, rnd: Bytes, cnt: nat, flat: Bytes)
    requires xf.Valid() && |r.iv| == MAX_BLOCK_LEN && |rnd| == xf.ivlen
    ensures var touchesIv := if r.encrypt then !r.ivPresent else !r.ivExplicit;
            EncDecSpec(xf, r, sched, rnd, cnt, flat).0 == Done <==>
              && r.len % xf.blks == 0
              && (touchesIv ==> r.inject + xf.ivlen <= |flat|)
              && cnt > 0
              && r.skip + r.len <= |flat|
  {
  }

  /** And how it fails: with EINVAL for a bad length, no data or whole blocks only, and else with a panic. */
  lemma FailsExactly<S(!new)>(xf: Xform<S>, r: Request, sched: S, rnd: Bytes, cnt: nat, flat: Bytes)
    requires xf.Valid() && |r.iv| == MAX_BLOCK_LEN && |rnd| == xf.ivlen
    ensures var touchesIv := if r.encrypt then !r.ivPresent else !r.ivExplicit;
            EncDecSpec(xf, r, sched, rnd, cnt, flat).0 == Panic <==>
              && r.len % xf.blks == 0
              && ((touchesIv && r.inject + xf.ivlen > |flat|)
                  || (cnt > 0 && r.skip <= |flat| < r.skip + r.len && (|flat| - r.skip) % xf.blks != 0))
  {
    if r.len % xf.blks == 0 && r.skip <= |flat| < r.skip + r.len {
      DivMod(|flat| - r.skip, xf.blks);
    }
  }

  // ---------- what becomes of each block ----------

  /** The range holds the block at `at`, it is inside the data, and nothing goes wrong before. */
  ghost predicate Reached<S(!new)>(xf: Xform<S>, r: Request, cnt: nat, flat: Bytes, at: nat)
    requires xf.Valid()
  {
    && r.len % xf.blks == 0 && cnt > 0
    && ((if r.encrypt then !r.ivPresent else !r.ivExplicit) ==> r.inject + xf.ivlen <= |flat|)
    && at % xf.blks == 0 && at < r.len && r.skip + at + xf.blks <= |flat|
  }

  /** The bytes of `s` from `at` on, and the block before one, with the IV before the first. */
  function Part(s: Bytes, at: nat, n: nat): (r: Bytes)
    requires at + n <= |s|
    ensures |r| == n
  {
    s[at..at + n]
  }

  function Previous(iv: Bytes, s: Bytes, skip: nat, at: nat): (r: Bytes)
    requires skip + at <= |s| && (at > 0 ==> |iv| <= at)
    ensures |r| == |iv|
  {
    if at == 0 then iv else s[skip + at - |iv|..skip + at]
  }

  /** The block at `skip + at` of `out` is that of `data`, xored with the block of `out` before it and encrypted. */
  ghost predicate ChainEncrypted<S(!new)>(xf: Xform<S>, sched: S, iv: Bytes, data: Bytes, out: Bytes, skip: nat,
      at: nat)
  {
    && |out| == |data| && skip + at + xf.blks <= |data| && |iv| == xf.blks && (at > 0 ==> xf.blks <= at)
    && Part(out, skip + at, xf.blks)
       == xf.encrypt(sched, Xor(Part(data, skip + at, xf.blks), Previous(iv, out, skip, at))).1
  }

  /** It is that of `data`, decrypted and xored with the block of `data` before it. */
  ghost predicate ChainDecrypted<S(!new)>(xf: Xform<S>, sched: S, iv: Bytes, data: Bytes, out: Bytes, skip: nat,
      at: nat)
  {
    && |out| == |data| && skip + at + xf.blks <= |data| && |iv| == xf.blks && (at > 0 ==> xf.blks <= at)
    && var plain := xf.decrypt(sched, Part(data, skip + at, xf.blks)).1;
       |plain| == xf.blks && Part(out, skip + at, xf.blks) == Xor(plain, Previous(iv, data, skip, at))
  }

  /** It is that of `data`, turned over with the schedule that the blocks before it left, `s` being the first. */
  ghost predicate TurnedOver<S(!new)>(xf: Xform<S>, enc: bool, s: S, data: Bytes, out: Bytes, skip: nat, at: nat)
    requires xf.Valid()
  {
    && |out| == |data| && skip + at + xf.blks <= |data| && at % xf.blks == 0
    && var p := SchedAt(xf, enc, s, data[skip..], at);
       var b := Part(data, skip + at, xf.blks);
       Part(out, skip + at, xf.blks) == if enc then xf.encrypt(p, b).1 else xf.decrypt(p, b).1
  }

  lemma CoversReached(total: nat, skip: nat, len: nat, blks: nat, at: nat)
    requires 0 < blks && len % blks == 0 && at % blks == 0 && at < len && skip + at + blks <= total
    ensures at + blks <= Covered(total, skip, len, blks)
  {
    var n := Covered(total, skip, len, blks);
    if at <= n < at + blks {
      MultipleGap(at, n, blks);
    }
  }

  /** What DataSpec leaves when there are data and the range begins inside them. */
  lemma DataIs<S(!new)>(xf: Xform<S>, r: Request, c: Chain<S>, cnt: nat, data: Bytes)
    requires xf.Valid() && |c.prev| == xf.blks && r.len % xf.blks == 0 && cnt > 0 && r.skip <= |data|
    ensures var n := Covered(|data|, r.skip, r.len, xf.blks);
            var o := Run(xf, r.encrypt, c, data[r.skip..r.skip + n]).1;
            |o| == n && DataSpec(xf, r, c, cnt, data).2 == Splice(data, r.skip, o)
  {
    hide Splice, Run, Covered;
  }

  lemma PartsAre(iv: Bytes, d: Bytes, o: Bytes, data: Bytes, skip: nat, n: nat, at: nat, blks: nat)
    requires skip + n <= |data| && d == data[skip..skip + n] && |o| == n && at + blks <= n
    requires |iv| == blks && (at > 0 ==> blks <= at)
    ensures At(d, at, blks) == Part(data, skip + at, blks)
    ensures At(o, at, blks) == Part(Splice(data, skip, o), skip + at, blks)
    ensures Before(iv, d, at) == Previous(iv, data, skip, at)
    ensures Before(iv, o, at) == Previous(iv, Splice(data, skip, o), skip, at)
    ensures data[skip..][..n] == d
  {
    hide Splice;
    PartIs(d, o, data, skip, n, at, blks);
    if at > 0 {
      PartIs(d, o, data, skip, n, at - blks, blks);
    }
  }

  lemma PartIs(d: Bytes, o: Bytes, data: Bytes, skip: nat, n: nat, at: nat, m: nat)
    requires skip + n <= |data| && d == data[skip..skip + n] && |o| == n && at + m <= n
    ensures d[at..at + m] == data[skip + at..skip + at + m] && data[skip..][..n] == d
    ensures o[at..at + m] == Splice(data, skip, o)[skip + at..skip + at + m]
  {
    hide Splice;
    SplicePart(data, skip, o, at, m);
    SliceSlice(data, skip, n, at, m);
  }

  lemma SliceSlice<T>(s: seq<T>, skip: nat, n: nat, at: nat, m: nat)
    requires skip + n <= |s| && at + m <= n
    ensures s[skip..skip + n][at..at + m] == s[skip + at..skip + at + m]
    ensures s[skip..][..n] == s[skip..skip + n]
  {
    var d := s[skip..skip + n];
    var a, b := d[at..at + m], s[skip + at..skip + at + m];
    forall i | 0 <= i < m
      ensures a[i] == b[i]
    {
      assert d[at + i] == s[skip + (at + i)];
    }
    assert s[skip..][..n] == d;
  }

  lemma DataBlock<S(!new)>(xf: Xform<S>, r: Request, c: Chain<S>, cnt: nat, data: Bytes, at: nat)
    requires xf.Valid() && |c.prev| == xf.blks && Reached(xf, r, cnt, data, at)
    ensures xf.stateful ==> TurnedOver(xf, r.encrypt, c.sched, data, DataSpec(xf, r, c, cnt, data).2, r.skip, at)
    ensures xf.Stateless() ==>
              if r.encrypt then ChainEncrypted(xf, c.sched, c.prev, data, DataSpec(xf, r, c, cnt, data).2, r.skip, at)
              else ChainDecrypted(xf, c.sched, c.prev, data, DataSpec(xf, r, c, cnt, data).2, r.skip, at)
  {
    hide Splice, Run, Xor, SchedAt, Covered, At, Before, Part, Previous, DataSpec, Xform.Stateless;
    MultipleStep(at, xf.blks);
    var n := Covered(|data|, r.skip, r.len, xf.blks);
    CoversReached(|data|, r.skip, r.len, xf.blks, at);
    var d := data[r.skip..r.skip + n];
    var o := Run(xf, r.encrypt, c, d).1;
    DataIs(xf, r, c, cnt, data);
    PartsAre(c.prev, d, o, data, r.skip, n, at, xf.blks);
    if xf.stateful {
      RunIsStateful(xf, r.encrypt, c, d, at);
      SchedOfPrefix(xf, r.encrypt, c.sched, data[r.skip..], n, at);
    }
    if xf.Stateless() {
      if r.encrypt {
        RunIsCbcEncryption(xf, c, d, at);
      } else {
        RunIsCbcDecryption(xf, c, d, at);
      }
    }
  }

  /** The IV of each case, and the data once an IV to be injected is in its place. */
  lemma EncDecIs<S(!new)>(xf: Xform<S>, r: Request, sched: S, rnd: Bytes, cnt: nat, flat: Bytes, at: nat)
    requires xf.Valid() && |r.iv| == MAX_BLOCK_LEN && |rnd| == xf.ivlen
    requires Reached(xf, r, cnt, flat, at)
    ensures var iv := if r.ivExplicit then r.iv[..xf.ivlen]
                      else if r.encrypt then rnd else flat[r.inject..r.inject + xf.ivlen];
            var data := if r.encrypt && !r.ivPresent then Splice(flat, r.inject, iv) else flat;
            && |iv| == xf.ivlen && |data| == |flat|
            && EncDecSpec(xf, r, sched, rnd, cnt, flat) == DataSpec(xf, r, FirstChain(xf, sched, iv), cnt, data)
  {
    hide DataSpec, FirstChain;
  }

  /**
   * Every whole block of the range that is inside the data, for requests that succeed and those that fail further on.
   * The IV is the one given, or fresh random bytes, or what the data hold. A transform with a reinit method has its
   * schedule set up from it; any other does cipher block chaining with the IV before the first block.
   */
  lemma EncDecBlock<S(!new)>(xf: Xform<S>, r: Request, sched: S, rnd: Bytes, cnt: nat, flat: Bytes, at: nat)
    requires xf.Valid() && |r.iv| == MAX_BLOCK_LEN && |rnd| == xf.ivlen
    requires Reached(xf, r, cnt, flat, at)
    ensures var iv := if r.ivExplicit then r.iv[..xf.ivlen]
                      else if r.encrypt then rnd else flat[r.inject..r.inject + xf.ivlen];
            var data := if r.encrypt && !r.ivPresent then Splice(flat, r.inject, iv) else flat;
            var out := EncDecSpec(xf, r, sched, rnd, cnt, flat).2;
            && (xf.stateful ==> TurnedOver(xf, r.encrypt, xf.reinit(sched, iv), data, out, r.skip, at))
            && (xf.Stateless() && r.encrypt ==> ChainEncrypted(xf, sched, iv, data, out, r.skip, at))
            && (xf.Stateless() && !r.encrypt ==> ChainDecrypted(xf, sched, iv, data, out, r.skip, at))
  {
    hide Splice, EncDecSpec, DataSpec, TurnedOver, ChainEncrypted, ChainDecrypted;
    EncDecIs(xf, r, sched, rnd, cnt, flat, at);
    var iv := if r.ivExplicit then r.iv[..xf.ivlen]
              else if r.encrypt then rnd else flat[r.inject..r.inject + xf.ivlen];
    var data := if r.encrypt && !r.ivPresent then Splice(flat, r.inject, iv) else flat;
    DataBlock(xf, r, FirstChain(xf, sched, iv), cnt, data, at);
  }

  /** And what a successful call leaves of the key schedule, and outside the range. */
  lemma EncDecRest<S(!new)>(xf: Xform<S>, r: Request, sched: S, rnd: Bytes, cnt: nat, flat: Bytes)
    requires xf.Valid() && |r.iv| == MAX_BLOCK_LEN && |rnd| == xf.ivlen
    requires EncDecSpec(xf, r, sched, rnd, cnt, flat).0 == Done
    ensures r.skip + r.len <= |flat| && r.len % xf.blks == 0
    ensures var iv := if r.ivExplicit then r.iv[..xf.ivlen]
                      else if r.encrypt then rnd else flat[r.inject..r.inject + xf.ivlen];
            var data := if r.encrypt && !r.ivPresent then Splice(flat, r.inject, iv) else flat;
            var out := EncDecSpec(xf, r, sched, rnd, cnt, flat);
            && (xf.stateful ==>
                  out.1 == SchedAt(xf, r.encrypt, xf.reinit(sched, iv), data[r.skip..r.skip + r.len], r.len))
            && |out.2| == |data|
            && out.2[..r.skip] == data[..r.skip] && out.2[r.skip + r.len..] == data[r.skip + r.len..]
  {
    hide Splice, Run, SchedAt, DataSpec;
    DoneExactlyWhenInside(xf, r, sched, rnd, cnt, flat);
    var iv := if r.ivExplicit then r.iv[..xf.ivlen]
              else if r.encrypt then rnd else flat[r.inject..r.inject + xf.ivlen];
    var data := if r.encrypt && !r.ivPresent then Splice(flat, r.inject, iv) else flat;
    DataRest(xf, r, FirstChain(xf, sched, iv), cnt, data);
  }

  lemma DataRest<S(!new)>(xf: Xform<S>, r: Request, c: Chain<S>, cnt: nat, data: Bytes)
    requires xf.Valid() && |c.prev| == xf.blks && r.len % xf.blks == 0 && cnt > 0 && r.skip + r.len <= |data|
    ensures var out := DataSpec(xf, r, c, cnt, data);
            && (xf.stateful ==> out.1 == SchedAt(xf, r.encrypt, c.sched, data[r.skip..r.skip + r.len], r.len))
            && |out.2| == |data|
            && out.2[..r.skip] == data[..r.skip] && out.2[r.skip + r.len..] == data[r.skip + r.len..]
  {
    hide Run, SchedAt;
    if xf.stateful {
      RunIsStateful(xf, r.encrypt, c, data[r.skip..r.skip + r.len], r.len);
    }
  }

  lemma SplicePart<T>(s: seq<T>, at: nat, t: seq<T>, from: nat, n: nat)
    requires at + |t| <= |s| && from + n <= |t|
    ensures Splice(s, at, t)[at + from..at + from + n] == t[from..from + n]
  {
  }

  /** The IV an encryption uses, and the data it turns over once it has put the IV where it belongs. */
  function SealIv<S(!new)>(xf: Xform<S>, r: Request, rnd: Bytes): Bytes
    requires xf.Valid() && |r.iv| == MAX_BLOCK_LEN
  {
    if r.ivExplicit then r.iv[..xf.ivlen] else rnd
  }

  function Plaintext<S(!new)>(xf: Xform<S>, r: Request, rnd: Bytes, flat: Bytes): Bytes
    requires xf.Valid() && |r.iv| == MAX_BLOCK_LEN && |rnd| == xf.ivlen
    requires r.ivPresent || r.inject + xf.ivlen <= |flat|
  {
    if r.ivPresent then flat else Splice(flat, r.inject, SealIv(xf, r, rnd))
  }

  /** The same range the other way, with the IV from wherever `back` takes it. */
  ghost predicate Reverses(r: Request, back: Request) {
    && r.encrypt && !back.encrypt
    && back.skip == r.skip && back.len == r.len
    && |r.iv| == |back.iv| == MAX_BLOCK_LEN
  }

  /** `back` finds `iv`: in its own request, or in a place of the data that encryption left alone. */
  ghost predicate FindsIv<S(!new)>(xf: Xform<S>, back: Request, iv: Bytes, flat: Bytes)
    requires xf.Valid() && |back.iv| == MAX_BLOCK_LEN
  {
    if back.ivExplicit then back.iv[..xf.ivlen] == iv else
      && back.inject + xf.ivlen <= |flat|
      && (back.inject + xf.ivlen <= back.skip || back.skip + back.len <= back.inject)
      && flat[back.inject..back.inject + xf.ivlen] == iv
  }

  /**
   * Decryption restores the data whenever it finds the IV. The two calls may see the
   * data cut into `cnt` and `cnt'` iovecs in any two ways.
   */
  lemma DecryptRestores<S(!new)>(xf: Xform<S>, r: Request, back: Request, sched: S, rnd: Bytes, rnd': Bytes,
                                 cnt: nat, cnt': nat, flat: Bytes)
    requires xf.Invertible() && |rnd| == |rnd'| == xf.ivlen && Reverses(r, back) && cnt' > 0
    requires EncDecSpec(xf, r, sched, rnd, cnt, flat).0 == Done
    requires FindsIv(xf, back, SealIv(xf, r, rnd), Plaintext(xf, r, rnd, flat))
    ensures var sealed := EncDecSpec(xf, r, sched, rnd, cnt, flat);
            EncDecSpec(xf, back, sched, rnd', cnt', sealed.2) == (Done, sealed.1, Plaintext(xf, r, rnd, flat))
  {
    hide Splice, Run, FirstChain, DataSpec, Xform.Invertible;
    ValidWhenInvertible(xf);
    DoneExactlyWhenInside(xf, r, sched, rnd, cnt, flat);
    var flat1 := Plaintext(xf, r, rnd, flat);
    var c := FirstChain(xf, sched, SealIv(xf, r, rnd));
    DataRestores(xf, r, back, c, cnt, cnt', flat1);
    if !back.ivExplicit {
      DataLeaves(xf, r, c, cnt, flat1, back.inject);
    }
  }

  lemma ValidWhenInvertible<S(!new)>(xf: Xform<S>)
    requires xf.Invertible()
    ensures xf.Valid()
  {
  }

  /** Turning the range over and back. */
  lemma DataRestores<S(!new)>(xf: Xform<S>, r: Request, back: Request, c: Chain<S>, cnt: nat, cnt': nat, flat: Bytes)
    requires xf.Invertible() && |c.prev| == xf.blks && Reverses(r, back) && cnt > 0 && cnt' > 0
    requires r.len % xf.blks == 0 && r.skip + r.len <= |flat|
    ensures var sealed := DataSpec(xf, r, c, cnt, flat);
            && sealed.0 == Done && |sealed.2| == |flat|
            && DataSpec(xf, back, c, cnt', sealed.2) == (Done, sealed.1, flat)
  {
    hide Splice, Run;
    var d := flat[r.skip..r.skip + r.len];
    var (c', o) := Run(xf, true, c, d);
    RunInverts(xf, c, d);
    SpliceSlice(flat, r.skip, o);
    SpliceBack(flat, r.skip, o);
  }

  /** What lies outside the range stays as it was. */
  lemma DataLeaves<S(!new)>(xf: Xform<S>, r: Request, c: Chain<S>, cnt: nat, flat: Bytes, at: nat)
    requires xf.Valid() && |c.prev| == xf.blks && cnt > 0
    requires r.len % xf.blks == 0 && r.skip + r.len <= |flat| && at + xf.ivlen <= |flat|
    requires at + xf.ivlen <= r.skip || r.skip + r.len <= at
    ensures var sealed := DataSpec(xf, r, c, cnt, flat);
            |sealed.2| == |flat| && sealed.2[at..at + xf.ivlen] == flat[at..at + xf.ivlen]
  {
    hide Splice, Run;
    var (_, o) := Run(xf, r.encrypt, c, flat[r.skip..r.skip + r.len]);
    SpliceApart(flat, r.skip, o, at, xf.ivlen);
  }

  /** An injected IV is found again where it was put, outside the range or not at all. */
  lemma InjectedIvRestores<S(!new)>(xf: Xform<S>, r: Request, back: Request, sched: S, rnd: Bytes, rnd': Bytes,
                                    cnt: nat, cnt': nat, flat: Bytes)
    requires xf.Invertible() && |rnd| == |rnd'| == xf.ivlen && Reverses(r, back) && cnt' > 0
    requires !r.ivPresent && !back.ivExplicit && back.inject == r.inject
    requires r.inject + xf.ivlen <= r.skip || r.skip + r.len <= r.inject
    requires EncDecSpec(xf, r, sched, rnd, cnt, flat).0 == Done
    ensures var sealed := EncDecSpec(xf, r, sched, rnd, cnt, flat);
            EncDecSpec(xf, back, sched, rnd', cnt', sealed.2)
            == (Done, sealed.1, Splice(flat, r.inject, SealIv(xf, r, rnd)))
  {
    hide Splice, Run, FirstChain, EncDecSpec;
    DoneExactlyWhenInside(xf, r, sched, rnd, cnt, flat);
    SpliceSlice(flat, r.inject, SealIv(xf, r, rnd));
    DecryptRestores(xf, r, back, sched, rnd, rnd', cnt, cnt', flat);
  }

  /** Both calls given the same IV in the request, as the disk encryption of softraid_crypto.c does. */
  lemma ExplicitIvRestores<S(!new)>(xf: Xform<S>, r: Request, back: Request, sched: S, rnd: Bytes, rnd': Bytes,
                                    cnt: nat, cnt': nat, flat: Bytes)
    requires xf.Invertible() && |rnd| == |rnd'| == xf.ivlen && Reverses(r, back) && cnt' > 0
    requires r.ivPresent && r.ivExplicit && back.ivExplicit && back.iv == r.iv
    requires EncDecSpec(xf, r, sched, rnd, cnt, flat).0 == Done
    ensures var sealed := EncDecSpec(xf, r, sched, rnd, cnt, flat);
            EncDecSpec(xf, back, sched, rnd', cnt', sealed.2) == (Done, sealed.1, flat)
  {
    hide EncDecSpec;
    DecryptRestores(xf, r, back, sched, rnd, rnd', cnt, cnt', flat);
  }

  lemma SpliceSlice<T>(s: seq<T>, at: nat, t: seq<T>)
    requires at + |t| <= |s|
    ensures Splice(s, at, t)[at..at + |t|] == t
  {
  }

  lemma SpliceApart<T>(s: seq<T>, at: nat, t: seq<T>, from: nat, n: nat)
    requires at + |t| <= |s| && from + n <= |s|
    requires from + n <= at || at + |t| <= from
    ensures Splice(s, at, t)[from..from + n] == s[from..from + n]
  {
  }

  lemma SpliceBack<T>(s: seq<T>, at: nat, t: seq<T>)
    requires at + |t| <= |s|
    ensures Splice(Splice(s, at, t), at, s[at..at + |t|]) == s
  {
  }

  // ---------- the code ----------

  /** Where `ivp` points: one of the two local buffers or a block of the data itself. */
  datatype IvRef = Iv | Iv2 | InData(ind: nat, off: nat)

  ghost predicate Points(iovs: Iovecs, p: IvRef, n: nat) {
    p.InData? ==> p.ind < |iovs| && p.off + n <= iovs[p.ind].Length
  }

  function Target(iv: array<bv8>, iv2: array<bv8>, iovs: Iovecs, p: IvRef): (array<bv8>, nat)
    requires p.InData? ==> p.ind < |iovs|
  {
    match p
    case Iv => (iv, 0)
    case Iv2 => (iv2, 0)
    case InData(ind, off) => (iovs[ind], off)
  }

  ghost function Deref(iv: array<bv8>, iv2: array<bv8>, iovs: Iovecs, p: IvRef, n: nat): (r: Bytes)
    requires Points(iovs, p, n) && n <= iv.Length && n <= iv2.Length
    reads iv, iv2, iovs
    ensures |r| == n
  {
    var (a, at) := Target(iv, iv2, iovs, p);
    a[at..at + n]
  }

  method XorInto(dst: array<bv8>, at: nat, src: array<bv8>, from: nat, n: nat)
    requires at + n <= dst.Length && from + n <= src.Length
    requires dst != src || from + n <= at || at + n <= from
    modifies dst
    ensures dst[..] == old(Splice(dst[..], at, Xor(dst[at..at + n], src[from..from + n])))
  {
    hide Splice, Xor;
    ghost var d, e := dst[..], src[from..from + n];
    ghost var x := Xor(d[at..at + n], e);
    SpliceNone(d, at);
    for j := 0 to n
      invariant dst[..] == Splice(d, at, x[..j]) && src[from..from + n] == e
    {
      SpliceNext(d, at, x, j);
      assert src[from + j] == e[j];
      dst[at + j] := dst[at + j] ^ src[from + j];
      SpliceApart(d, at, x[..j + 1], if dst == src then from else 0, if dst == src then n else 0);
      assert src[from..from + n] == if dst == src then dst[..][from..from + n] else e;
    }
    assert x[..n] == x;
  }

  lemma SpliceNone<T>(s: seq<T>, at: nat)
    requires at <= |s|
    ensures Splice(s, at, []) == s
  {
  }

  lemma SpliceNext<T>(s: seq<T>, at: nat, t: seq<T>, j: nat)
    requires at + |t| <= |s| && j < |t|
    ensures var u := Splice(s, at, t[..j]);
            u[at + j] == s[at + j] && u[at + j := t[j]] == Splice(s, at, t[..j + 1])
  {
  }

  /** exf->encrypt or exf->decrypt, in place. */
  method Apply<S(!new)>(xf: Xform<S>, enc: bool, sched: S, buf: array<bv8>, at: nat) returns (sched': S)
    requires xf.Valid() && at + xf.blks <= buf.Length
    modifies buf
    ensures var b := old(buf[at..at + xf.blks]);
            var (s, o) := if enc then xf.encrypt(sched, b) else xf.decrypt(sched, b);
            sched' == s && |o| == xf.blks && buf[..] == Splice(old(buf[..]), at, o)
  {
    var b := buf[at..at + xf.blks];
    var (s, o) := if enc then xf.encrypt(sched, b) else xf.decrypt(sched, b);
    Store(buf, at, o);
    sched' := s;
  }

  lemma SpliceTwice<T>(s: seq<T>, at: nat, t: seq<T>, u: seq<T>)
    requires at + |t| <= |s| && |u| == |t|
    ensures Splice(Splice(s, at, t), at, u) == Splice(s, at, u)
    ensures Splice(s, at, t)[at..at + |t|] == t
  {
  }

  method XorEncrypt<S(!new)>(xf: Xform<S>, sched: S, buf: array<bv8>, at: nat, src: array<bv8>, from: nat)
    returns (sched': S)
    requires xf.Valid() && at + xf.blks <= buf.Length && from + xf.blks <= src.Length
    requires buf != src || from + xf.blks <= at
    modifies buf
    ensures var n := xf.blks;
            var (s, o) := xf.encrypt(sched, old(Xor(buf[at..at + n], src[from..from + n])));
            sched' == s && |o| == n && buf[..] == Splice(old(buf[..]), at, o)
  {
    hide Splice;
    var n := xf.blks;
    ghost var x := Xor(buf[at..at + n], src[from..from + n]);
    XorInto(buf, at, src, from, n);
    SpliceTwice(old(buf[..]), at, x, xf.encrypt(sched, x).1);
    sched' := Apply(xf, true, sched, buf, at);
  }

  method DecryptXor<S(!new)>(xf: Xform<S>, sched: S, buf: array<bv8>, at: nat, src: array<bv8>, from: nat)
    returns (sched': S)
    requires xf.Valid() && at + xf.blks <= buf.Length && from + xf.blks <= src.Length
    requires buf != src
    modifies buf
    ensures var n := xf.blks;
            var (s, o) := xf.decrypt(sched, old(buf[at..at + n]));
            sched' == s && |o| == n && buf[..] == Splice(old(buf[..]), at, Xor(o, src[from..from + n]))
  {
    hide Splice;
    var n := xf.blks;
    ghost var o := xf.decrypt(sched, buf[at..at + n]).1;
    sched' := Apply(xf, false, sched, buf, at);
    SpliceTwice(old(buf[..]), at, o, Xor(o, src[from..from + n]));
    XorInto(buf, at, src, from, n);
  }

  /** Is the block in a scratch buffer, or in place in an iovec? */
  datatype Place = Scratch | InIovec(ind: nat)

  /** Lines 305-316: encryption leaves `ivp` at the block it wrote, or at a copy of it. */
  method EncryptBlock<S(!new)>(xf: Xform<S>, sched: S, ghost prev: Bytes,
                               iv: array<bv8>, iv2: array<bv8>, ivp: IvRef, iovs: Iovecs,
                               place: Place, buf: array<bv8>, at: nat)
    returns (sched': S, ivp': IvRef)
    requires xf.Valid() && |prev| == xf.blks
    requires iv != iv2 && iv.Length == iv2.Length == MAX_BLOCK_LEN && iv !in iovs && iv2 !in iovs
    requires buf != iv && buf != iv2 && at + xf.blks <= buf.Length
    requires if place.Scratch? then buf !in iovs else place.ind < |iovs| && buf == iovs[place.ind]
    requires Points(iovs, ivp, xf.blks)
    requires ivp.InData? ==> iovs[ivp.ind] != buf || ivp.off + xf.blks <= at
    requires Deref(iv, iv2, iovs, ivp, xf.blks) == prev
    modifies buf, iv
    ensures var (s, o) := xf.encrypt(sched, Xor(old(buf[at..at + xf.blks]), prev));
            && sched' == s && |o| == xf.blks && buf[..] == Splice(old(buf[..]), at, o)
            && Points(iovs, ivp', xf.blks) && Deref(iv, iv2, iovs, ivp', xf.blks) == o
    ensures ivp' == if place.Scratch? then Iv else InData(place.ind, at)
  {
    hide Splice, Xor;
    var n := xf.blks;
    var (src, from) := Target(iv, iv2, iovs, ivp);
    ghost var o := xf.encrypt(sched, Xor(buf[at..at + n], prev)).1;
    sched' := XorEncrypt(xf, sched, buf, at, src, from);
    SpliceTwice(old(buf[..]), at, o, o);
    if place.Scratch? {
      Bcopy(buf, at, iv, 0, n);
      SpliceTwice(old(iv[..]), 0, o, o);
      ivp' := Iv;
    } else {
      ivp' := InData(place.ind, at);
    }
  }

  /** Lines 317-331: decryption saves the block in the local buffer that `ivp` does not point to. */
  method DecryptBlock<S(!new)>(xf: Xform<S>, sched: S, ghost prev: Bytes,
                               iv: array<bv8>, iv2: array<bv8>, ivp: IvRef, iovs: Iovecs,
                               buf: array<bv8>, at: nat)
    returns (sched': S, ivp': IvRef)
    requires xf.Valid() && |prev| == xf.blks && !ivp.InData?
    requires iv != iv2 && iv.Length == iv2.Length == MAX_BLOCK_LEN
    requires buf != iv && buf != iv2 && at + xf.blks <= buf.Length
    requires Deref(iv, iv2, iovs, ivp, xf.blks) == prev
    modifies buf, iv, iv2
    ensures var (s, o) := xf.decrypt(sched, old(buf[at..at + xf.blks]));
            && sched' == s && |o| == xf.blks && buf[..] == Splice(old(buf[..]), at, Xor(o, prev))
            && !ivp'.InData? && Deref(iv, iv2, iovs, ivp', xf.blks) == old(buf[at..at + xf.blks])
  {
    hide Splice, Xor;
    var n := xf.blks;
    ghost var b := buf[at..at + n];
    var (src, from) := Target(iv, iv2, iovs, ivp);
    var niv := if ivp == Iv then iv2 else iv;
    ivp' := if ivp == Iv then Iv2 else Iv;
    Bcopy(buf, at, niv, 0, n);
    SpliceTwice(old(niv[..]), 0, b, b);
    sched' := DecryptXor(xf, sched, buf, at, src, from);
  }

  /** One block, in place in `buf`, chained to what `ivp` points at. */
  method CryptBlock<S(!new)>(xf: Xform<S>, enc: bool, sched: S, ghost c: Chain<S>,
                             iv: array<bv8>, iv2: array<bv8>, ivp: IvRef, iovs: Iovecs,
                             place: Place, buf: array<bv8>, at: nat)
    returns (sched': S, ivp': IvRef)
    requires xf.Valid() && c.sched == sched && |c.prev| == xf.blks
    requires iv != iv2 && iv.Length == iv2.Length == MAX_BLOCK_LEN && iv !in iovs && iv2 !in iovs
    requires buf != iv && buf != iv2 && at + xf.blks <= buf.Length
    requires if place.Scratch? then buf !in iovs else place.ind < |iovs| && buf == iovs[place.ind]
    requires Points(iovs, ivp, xf.blks)
    requires ivp.InData? ==> iovs[ivp.ind] != buf || ivp.off + xf.blks <= at
    requires !xf.stateful ==> Deref(iv, iv2, iovs, ivp, xf.blks) == c.prev
    requires !enc ==> !ivp.InData?
    modifies buf, iv, iv2
    ensures var (c', o) := Block(xf, enc, c, old(buf[at..at + xf.blks]));
            && buf[..] == Splice(old(buf[..]), at, o)
            && sched' == c'.sched
            && Points(iovs, ivp', xf.blks)
            && (!xf.stateful ==> Deref(iv, iv2, iovs, ivp', xf.blks) == c'.prev)
    ensures xf.stateful ==> ivp' == ivp
    ensures !xf.stateful && place.Scratch? ==> !ivp'.InData?
    ensures ivp'.InData? ==> enc && (ivp' == ivp || (place.InIovec? && ivp' == InData(place.ind, at)))
  {
    hide Splice, Xor, Deref;
    if xf.stateful {
      sched' := Apply(xf, enc, sched, buf, at);
      ivp' := ivp;
    } else if enc {
      sched', ivp' := EncryptBlock(xf, sched, c.prev, iv, iv2, ivp, iovs, place, buf, at);
    } else {
      sched', ivp' := DecryptBlock(xf, sched, c.prev, iv, iv2, ivp, iovs, buf, at);
    }
  }

  /** The first `n` bytes from `skip` on have been turned over and nothing else touched. */
  ghost predicate Progress<S(!new)>(xf: Xform<S>, enc: bool, c0: Chain<S>, flat0: Bytes, skip: nat, n: nat,
                                    c: Chain<S>, flat: Bytes)
  {
    && xf.Valid() && |c0.prev| == xf.blks
    && skip + n <= |flat0| && n % xf.blks == 0
    && var (c', o) := Run(xf, enc, c0, flat0[skip..skip + n]);
       c == c' && flat == Splice(flat0, skip, o)
  }

  lemma ProgressStart<S(!new)>(xf: Xform<S>, enc: bool, c0: Chain<S>, flat0: Bytes, skip: nat)
    requires xf.Valid() && |c0.prev| == xf.blks && skip <= |flat0|
    ensures Progress(xf, enc, c0, flat0, skip, 0, c0, flat0)
  {
    SpliceNothing(flat0, skip);
  }

  lemma ProgressStep<S(!new)>(xf: Xform<S>, enc: bool, c0: Chain<S>, flat0: Bytes, skip: nat, n: nat,
                              c: Chain<S>, flat: Bytes)
    requires Progress(xf, enc, c0, flat0, skip, n, c, flat)
    requires skip + n + xf.blks <= |flat0|
    ensures |c.prev| == xf.blks && |flat| == |flat0|
    ensures var (c', o) := Block(xf, enc, c, flat[skip + n..skip + n + xf.blks]);
            Progress(xf, enc, c0, flat0, skip, n + xf.blks, c', Splice(flat, skip + n, o))
  {
    hide Splice, Run, Block;
    var d, b := flat0[skip..skip + n], flat0[skip + n..skip + n + xf.blks];
    var (_, done) := Run(xf, enc, c0, d);
    SpliceApart(flat0, skip, done, skip + n, xf.blks);
    var (c', o) := Block(xf, enc, c, b);
    RunSnoc(xf, enc, c0, d, b);
    SpliceAdjacent(flat0, skip, done, o);
    assert d + b == flat0[skip..skip + n + xf.blks];
  }

  /** Lines 294-335: a block that straddles iovecs is copied out, turned over and copied back. */
  method StraddlingBlock<S(!new)>(xf: Xform<S>, enc: bool, sched: S, ghost c: Chain<S>,
                                  iv: array<bv8>, iv2: array<bv8>, ivp: IvRef, iovs: Iovecs,
                                  pos: nat, blk: array<bv8>)
    returns (ok: bool, sched': S, ivp': IvRef)
    requires xf.Valid() && c.sched == sched && |c.prev| == xf.blks
    requires iv != iv2 && iv.Length == iv2.Length == blk.Length == MAX_BLOCK_LEN
    requires iv !in iovs && iv2 !in iovs && blk !in iovs && blk != iv && blk != iv2
    requires Disjoint(iovs) && Points(iovs, ivp, xf.blks) && (!enc ==> !ivp.InData?)
    requires !xf.stateful ==> Deref(iv, iv2, iovs, ivp, xf.blks) == c.prev
    requires xf.stateful ==> ivp == Iv
    modifies iovs, iv, iv2, blk
    ensures ok <==> pos + xf.blks <= |old(Flat(iovs))|
    ensures ok ==>
              var (c', o) := Block(xf, enc, c, old(Flat(iovs))[pos..pos + xf.blks]);
              && Flat(iovs) == Splice(old(Flat(iovs)), pos, o)
              && sched' == c'.sched
              && !ivp'.InData?
              && (!xf.stateful ==> Deref(iv, iv2, iovs, ivp', xf.blks) == c'.prev)
              && (xf.stateful ==> ivp' == Iv)
    ensures !ok ==> Flat(iovs) == old(Flat(iovs)) && sched' == sched
  {
    hide Splice, Flat, Block, Xor;
    ghost var flat := Flat(iovs);
    ok := CopyData(iovs, pos, xf.blks, blk);
    if !ok {
      return ok, sched, ivp;
    }
    ghost var b := flat[pos..pos + xf.blks];
    SpliceTwice(old(blk[..]), 0, b, b);
    assert blk[0..0 + xf.blks] == b;
    sched', ivp' := CryptBlock(xf, enc, sched, c, iv, iv2, ivp, iovs, Scratch, blk, 0);
    SpliceTwice(old(blk[..]), 0, b, Block(xf, enc, c, b).1);
    SpliceTwice(old(blk[..]), 0, Block(xf, enc, c, b).1, b);
    ok := CopyBack(iovs, pos, xf.blks, blk);
  }

  /** Lines 360-389: a block inside one iovec is turned over in place. */
  method BlockInPlace<S(!new)>(xf: Xform<S>, enc: bool, sched: S, ghost c: Chain<S>,
                               iv: array<bv8>, iv2: array<bv8>, ivp: IvRef, iovs: Iovecs,
                               ind: nat, k: nat)
    returns (sched': S, ivp': IvRef)
    requires xf.Valid() && c.sched == sched && |c.prev| == xf.blks
    requires iv != iv2 && iv.Length == iv2.Length == MAX_BLOCK_LEN && iv !in iovs && iv2 !in iovs
    requires Disjoint(iovs) && ind < |iovs| && k + xf.blks <= iovs[ind].Length
    requires Points(iovs, ivp, xf.blks) && (!enc ==> !ivp.InData?)
    requires ivp.InData? ==> Start(iovs, ivp.ind) + ivp.off + xf.blks <= Start(iovs, ind) + k
    requires !xf.stateful ==> Deref(iv, iv2, iovs, ivp, xf.blks) == c.prev
    requires xf.stateful ==> ivp == Iv
    modifies iovs[ind], iv, iv2
    ensures Start(iovs, ind) + k + xf.blks <= |old(Flat(iovs))|
    ensures var pos := Start(iovs, ind) + k;
            var (c', o) := Block(xf, enc, c, old(Flat(iovs))[pos..pos + xf.blks]);
            && Flat(iovs) == Splice(old(Flat(iovs)), pos, o)
            && sched' == c'.sched
            && Points(iovs, ivp', xf.blks) && (!enc ==> !ivp'.InData?)
            && (ivp'.InData? ==> Start(iovs, ivp'.ind) + ivp'.off + xf.blks <= pos + xf.blks)
            && (!xf.stateful ==> Deref(iv, iv2, iovs, ivp', xf.blks) == c'.prev)
            && (xf.stateful ==> ivp' == Iv)
  {
    hide Splice, Block, Xor, Deref;
    ghost var contents := Contents(iovs);
    FlatSlice(iovs, ind, k, xf.blks);
    ghost var b := iovs[ind][k..k + xf.blks];
    if ivp.InData? && iovs[ivp.ind] == iovs[ind] {
      assert ivp.ind == ind;
    }
    sched', ivp' := CryptBlock(xf, enc, sched, c, iv, iv2, ivp, iovs, InIovec(ind), iovs[ind], k);
    FlatAfterWrite(iovs, contents, ind, k, Block(xf, enc, c, b).1);
  }

  /** One call's fixed data: what is asked for and what the buffer held at the start. */
  datatype Task<!S(!new)> = Task(xf: Xform<S>, r: Request, c0: Chain<S>, flat0: Bytes)

  /** What holds between two blocks, with `i` bytes to go: memory and chaining pointer agree with `Progress`. */
  ghost predicate Between<S(!new)>(t: Task<S>, iv: array<bv8>, iv2: array<bv8>, iovs: Iovecs,
                                   c: Chain<S>, ivp: IvRef, count: nat, i: nat)
    reads iv, iv2, iovs
  {
    && t.xf.Valid() && |c.prev| == t.xf.blks
    && iv != iv2 && iv.Length == iv2.Length == MAX_BLOCK_LEN && iv !in iovs && iv2 !in iovs && Disjoint(iovs)
    && i <= t.r.len && i % t.xf.blks == 0 && count == t.r.skip + (t.r.len - i) <= |t.flat0| == Start(iovs, |iovs|)
    && Progress(t.xf, t.r.encrypt, t.c0, t.flat0, t.r.skip, t.r.len - i, c, Flat(iovs))
    && Points(iovs, ivp, t.xf.blks) && (!t.r.encrypt ==> !ivp.InData?)
    && (ivp.InData? ==> Start(iovs, ivp.ind) + ivp.off + t.xf.blks <= count)
    && (!t.xf.stateful ==> Deref(iv, iv2, iovs, ivp, t.xf.blks) == c.prev)
    && (t.xf.stateful ==> ivp == Iv)
  }

  lemma CoveredIs(total: nat, skip: nat, len: nat, blks: nat, n: nat)
    requires 0 < blks && len % blks == 0 && n % blks == 0
    requires n < len && skip + n <= total < skip + n + blks
    ensures Covered(total, skip, len, blks) == n
  {
    var m := Covered(total, skip, len, blks);
    if m == len {
      MultipleGap(n, len, blks);
    } else if n <= m {
      MultipleGap(n, m, blks);
    } else {
      MultipleGap(m, n, blks);
    }
  }

  /** Stopping after the last requested block, or where no whole block is left, is what `DataSpec` says. */
  lemma Outcome<S(!new)>(t: Task<S>, cnt: nat, c: Chain<S>, flat: Bytes, i: nat)
    requires t.xf.Valid() && t.r.len % t.xf.blks == 0 && i <= t.r.len && cnt > 0
    requires Progress(t.xf, t.r.encrypt, t.c0, t.flat0, t.r.skip, t.r.len - i, c, flat)
    requires i == 0 || |t.flat0| < t.r.skip + (t.r.len - i) + t.xf.blks
    ensures var status := if i == 0 then Done else if t.r.skip + (t.r.len - i) == |t.flat0| then Einval else Panic;
            DataSpec(t.xf, t.r, t.c0, cnt, t.flat0) == (status, c.sched, flat)
  {
    hide Splice, Run;
    if i > 0 {
      CoveredIs(|t.flat0|, t.r.skip, t.r.len, t.xf.blks, t.r.len - i);
    }
  }

  /** Lines 292-349 when the block at the cursor straddles iovecs. */
  method StraddlingStep<S(!new)>(ghost t: Task<S>, xf: Xform<S>, enc: bool, sched: S, ghost c: Chain<S>,
                                 iv: array<bv8>, iv2: array<bv8>, ivp: IvRef, iovs: Iovecs, count: nat, ghost i: nat)
    returns (ok: bool, sched': S, ghost c': Chain<S>, ivp': IvRef, ind: nat, k: nat)
    requires Between(t, iv, iv2, iovs, c, ivp, count, i) && xf == t.xf && enc == t.r.encrypt && sched == c.sched
    requires 0 < i && t.r.len % xf.blks == 0 && iovs != []
    modifies iovs, iv, iv2
    ensures ok <==> count + xf.blks <= |t.flat0|
    ensures ok ==> ind < |iovs| && k <= iovs[ind].Length && Start(iovs, ind) + k == count + xf.blks
    ensures ok ==>
              && 0 < xf.blks <= i && sched' == c'.sched
              && Between(t, iv, iv2, iovs, c', ivp', count + xf.blks, i - xf.blks)
    ensures !ok && count < Start(iovs, |iovs|) ==>
              DataSpec(xf, t.r, t.c0, |iovs|, t.flat0) == (Panic, sched', Flat(iovs))
  {
    hide Splice, Block, Flat, Run, Progress, Xor, Deref;
    MultipleStep(i, xf.blks);
    ghost var flat := Flat(iovs);
    var blk := new bv8[MAX_BLOCK_LEN];
    ok, sched', ivp' := StraddlingBlock(xf, enc, sched, c, iv, iv2, ivp, iovs, count, blk);
    if ok {
      ProgressStep(xf, enc, t.c0, t.flat0, t.r.skip, t.r.len - i, c, flat);
      c' := Block(xf, enc, c, flat[count..count + xf.blks]).0;
      var ind', k' := GetPtr(iovs, count + xf.blks);
      assert ind' != -1;   // the source returns EINVAL here; it cannot happen
      ind, k := ind', k';
    } else {
      c', ind, k := c, 0, 0;
      if count < Start(iovs, |iovs|) {
        Outcome(t, |iovs|, c, flat, i);
      }
    }
  }

  /** Lines 358-395: blocks that lie inside iovec `ind`, as long as there are any. */
  method IovecLoop<S(!new)>(ghost t: Task<S>, xf: Xform<S>, enc: bool, sched0: S, ghost cc: Chain<S>,
                            iv: array<bv8>, iv2: array<bv8>, ivp0: IvRef, iovs: Iovecs,
                            count0: nat, i0: nat, ind: nat, k0: nat)
    returns (sched: S, ghost c: Chain<S>, ivp: IvRef, count: nat, i: nat, k: nat)
    requires Between(t, iv, iv2, iovs, cc, ivp0, count0, i0) && xf == t.xf && enc == t.r.encrypt && sched0 == cc.sched
    requires ind < |iovs| && k0 <= iovs[ind].Length && count0 == Start(iovs, ind) + k0
    modifies iovs[ind], iv, iv2
    ensures Between(t, iv, iv2, iovs, c, ivp, count, i) && sched == c.sched
    ensures i <= i0 && k <= iovs[ind].Length && count == Start(iovs, ind) + k
    ensures i == 0 || iovs[ind].Length < k + xf.blks
    ensures i == i0 ==> k == k0 && (i0 > 0 ==> iovs[ind].Length < k0 + xf.blks)
  {
    hide Splice, Block, Flat, Run, Progress, Xor, Deref;
    sched, c, ivp, count, i, k := sched0, cc, ivp0, count0, i0, k0;
    while iovs[ind].Length >= k + xf.blks && i > 0
      invariant Between(t, iv, iv2, iovs, c, ivp, count, i) && sched == c.sched
      invariant i <= i0 && k <= iovs[ind].Length && count == Start(iovs, ind) + k
      invariant i == i0 ==> k == k0
      decreases i
    {
      MultipleStep(i, xf.blks);
      StartMonotone(iovs, ind + 1, |iovs|);
      ghost var flat := Flat(iovs);
      sched, ivp := BlockInPlace(xf, enc, sched, c, iv, iv2, ivp, iovs, ind, k);
      ProgressStep(xf, enc, t.c0, t.flat0, t.r.skip, t.r.len - i, c, flat);
      c := Block(xf, enc, c, flat[count..count + xf.blks]).0;
      count, k, i := count + xf.blks, k + xf.blks, i - xf.blks;
    }
  }

  lemma BetweenAtStart<S(!new)>(t: Task<S>, iv: array<bv8>, iv2: array<bv8>, iovs: Iovecs)
    requires t.xf.Valid() && |t.c0.prev| == t.xf.blks && t.r.len % t.xf.blks == 0
    requires iv != iv2 && iv.Length == iv2.Length == MAX_BLOCK_LEN && iv !in iovs && iv2 !in iovs && Disjoint(iovs)
    requires !t.xf.stateful ==> iv[..t.xf.blks] == t.c0.prev
    requires t.flat0 == Flat(iovs) && t.r.skip <= |t.flat0|
    ensures Between(t, iv, iv2, iovs, t.c0, Iv, t.r.skip, t.r.len)
  {
    ProgressStart(t.xf, t.r.encrypt, t.c0, t.flat0, t.r.skip);
  }

  lemma BetweenAtEnd<S(!new)>(t: Task<S>, iv: array<bv8>, iv2: array<bv8>, iovs: Iovecs,
                              c: Chain<S>, ivp: IvRef, count: nat, i: nat)
    requires Between(t, iv, iv2, iovs, c, ivp, count, i) && t.r.len % t.xf.blks == 0 && iovs != []
    requires i == 0 || count == Start(iovs, |iovs|)
    ensures DataSpec(t.xf, t.r, t.c0, |iovs|, t.flat0) == (if i == 0 then Done else Einval, c.sched, Flat(iovs))
  {
    hide Flat, Progress, Deref, DataSpec;
    Outcome(t, |iovs|, c, Flat(iovs), i);
  }

  /** Lines 290-409: the straddling block at the cursor, if any, the blocks inside its iovec, and the next iovec. */
  method Pass<S(!new)>(ghost t: Task<S>, xf: Xform<S>, enc: bool, sched0: S, ghost cc: Chain<S>,
                       iv: array<bv8>, iv2: array<bv8>, ivp0: IvRef, iovs: Iovecs,
                       count0: nat, i0: nat, ind0: nat, k0: nat)
    returns (status: Status, sched: S, ghost c: Chain<S>, ivp: IvRef, count: nat, i: nat, ind: nat, k: nat)
    requires Between(t, iv, iv2, iovs, cc, ivp0, count0, i0) && xf == t.xf && enc == t.r.encrypt && sched0 == cc.sched
    requires i0 > 0 && t.r.len % xf.blks == 0
    requires ind0 < |iovs| && k0 <= iovs[ind0].Length && count0 == Start(iovs, ind0) + k0
    modifies iovs, iv, iv2
    ensures status == Done ==>
              && ind < |iovs| && k <= iovs[ind].Length && count == Start(iovs, ind) + k
              && Between(t, iv, iv2, iovs, c, ivp, count, i) && sched == c.sched
              && (i < i0 || (i == i0 && ind > ind0))
    ensures status != Done ==> (status, sched, Flat(iovs)) == DataSpec(xf, t.r, t.c0, |iovs|, t.flat0)
  {
    hide *;
    status, sched, c, ivp, count, i, ind, k := Done, sched0, cc, ivp0, count0, i0, ind0, k0;
    if iovs[ind].Length < k + xf.blks && iovs[ind].Length != k {
      StartNext(iovs, ind);
      StartMonotone(iovs, ind + 1, |iovs|);
      var ok;
      ok, sched, c, ivp, ind, k := StraddlingStep(t, xf, enc, sched, c, iv, iv2, ivp, iovs, count, i);
      if !ok {
        status := Panic;
        return;
      }
      count, i := count + xf.blks, i - xf.blks;
      if i == 0 {
        return;
      }
    }
    sched, c, ivp, count, i, k := IovecLoop(t, xf, enc, sched, c, iv, iv2, ivp, iovs, count, i, ind, k);
    StartNext(iovs, ind);
    if i > 0 && k == iovs[ind].Length {
      k := 0;
      ind := ind + 1;
      if ind >= |iovs| {
        BetweenAtEnd(t, iv, iv2, iovs, c, ivp, count, i);
        status := Einval;
      }
    }
  }

  /** Lines 278-410: find the data and turn it over block by block. */
  method CryptData<S(!new)>(xf: Xform<S>, r: Request, sched0: S, ghost c0: Chain<S>,
                            iv: array<bv8>, iv2: array<bv8>, iovs: Iovecs)
    returns (status: Status, sched: S)
    requires xf.Valid() && c0.sched == sched0 && |c0.prev| == xf.blks && r.len % xf.blks == 0
    requires iv != iv2 && iv.Length == iv2.Length == MAX_BLOCK_LEN && iv !in iovs && iv2 !in iovs
    requires Disjoint(iovs)
    requires !xf.stateful ==> iv[..xf.blks] == c0.prev
    modifies iovs, iv, iv2
    ensures (status, sched, Flat(iovs)) == DataSpec(xf, r, c0, |iovs|, old(Flat(iovs)))
  {
    hide *;
    ghost var t := Task(xf, r, c0, Flat(iovs));
    var count: nat := r.skip;
    var ind: int, k: nat := GetPtr(iovs, count);
    if ind == -1 {
      NothingThere(t, |iovs|);
      return Einval, sched0;
    }
    var ivp := Iv;
    sched := sched0;
    ghost var c := c0;
    BetweenAtStart(t, iv, iv2, iovs);
    var i: nat := r.len;
    while i > 0
      invariant 0 <= ind < |iovs| && k <= iovs[ind].Length && count == Start(iovs, ind) + k
      invariant Between(t, iv, iv2, iovs, c, ivp, count, i) && sched == c.sched
      decreases i, |iovs| - ind
    {
      status, sched, c, ivp, count, i, ind, k :=
        Pass(t, xf, r.encrypt, sched, c, iv, iv2, ivp, iovs, count, i, ind, k);
      if status != Done {
        return;
      }
    }
    BetweenAtEnd(t, iv, iv2, iovs, c, ivp, count, 0);
    status := Done;
  }

  lemma NothingThere<S(!new)>(t: Task<S>, cnt: nat)
    requires t.xf.Valid() && |t.c0.prev| == t.xf.blks && t.r.len % t.xf.blks == 0
    requires cnt == 0 || t.r.skip > |t.flat0|
    ensures DataSpec(t.xf, t.r, t.c0, cnt, t.flat0) == (Einval, t.c0.sched, t.flat0)
  {
  }

  /** swcr_encdec with a scatter/gather buffer; `rnd` is what arc4random_buf would give. */
  method EncDec<S(!new)>(xf: Xform<S>, r: Request, sched0: S, rnd: Bytes, iovs: Iovecs)
    returns (status: Status, sched: S)
    requires xf.Valid() && |r.iv| == MAX_BLOCK_LEN && |rnd| == xf.ivlen && Disjoint(iovs)
    modifies iovs
    ensures var want := EncDecSpec(xf, r, sched0, rnd, |iovs|, old(Flat(iovs)));
            && status == want.0
            && (status != Panic ==> sched == want.1 && Flat(iovs) == want.2)
  {
    hide Splice, Run, DataSpec, Flat;
    sched := sched0;
    if r.len % xf.blks != 0 {
      return Einval, sched;
    }
    var iv, iv2 := new bv8[MAX_BLOCK_LEN], new bv8[MAX_BLOCK_LEN];
    ghost var flat := Flat(iovs);
    ghost var ivBytes;
    if r.encrypt {
      ivBytes := if r.ivExplicit then r.iv[..xf.ivlen] else rnd;
      SpliceTwice(iv[..], 0, ivBytes, ivBytes);
      Store(iv, 0, if r.ivExplicit then r.iv[..xf.ivlen] else rnd);
      if !r.ivPresent {
        var ok := CopyBack(iovs, r.inject, xf.ivlen, iv);
        if !ok {
          return Panic, sched;
        }
      }
    } else if r.ivExplicit {
      ivBytes := r.iv[..xf.ivlen];
      SpliceTwice(iv[..], 0, ivBytes, ivBytes);
      Store(iv, 0, r.iv[..xf.ivlen]);
    } else {
      ghost var before := iv[..];
      var ok := CopyData(iovs, r.inject, xf.ivlen, iv);
      if !ok {
        return Panic, sched;
      }
      ivBytes := flat[r.inject..r.inject + xf.ivlen];
      SpliceTwice(before, 0, ivBytes, ivBytes);
    }
    assert iv[..xf.ivlen] == iv[0..0 + xf.ivlen] == ivBytes;
    if xf.stateful {
      sched := xf.reinit(sched, iv[..xf.ivlen]);
    }
    status, sched := CryptData(xf, r, sched, FirstChain(xf, sched0, ivBytes), iv, iv2, iovs);
  }
}
