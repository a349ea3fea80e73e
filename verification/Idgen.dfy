/** idgen.c: identifiers that do not repeat within a key epoch or the next one. */
module Idgen {
  import opened Bits
  import opened ByteStrings
  import opened LittleEndian
  import opened WordOps

  const W15: nat := 0x8000
  const W16: nat := 0x1_0000
  const W31: nat := 0x8000_0000

  // ---------- the permutation of 31 bits ----------

  const FTABLE: Bytes := [
    0xa3, 0xd7, 0x09, 0x83, 0xf8, 0x48, 0xf6, 0xf4, 0xb3, 0x21, 0x15, 0x78, 0x99, 0xb1, 0xaf, 0xf9,
    0xe7, 0x2d, 0x4d, 0x8a, 0xce, 0x4c, 0xca, 0x2e, 0x52, 0x95, 0xd9, 0x1e, 0x4e, 0x38, 0x44, 0x28,
    0x0a, 0xdf, 0x02, 0xa0, 0x17, 0xf1, 0x60, 0x68, 0x12, 0xb7, 0x7a, 0xc3, 0xe9, 0xfa, 0x3d, 0x53,
    0x96, 0x84, 0x6b, 0xba, 0xf2, 0x63, 0x9a, 0x19, 0x7c, 0xae, 0xe5, 0xf5, 0xf7, 0x16, 0x6a, 0xa2,
    0x39, 0xb6, 0x7b, 0x0f, 0xc1, 0x93, 0x81, 0x1b, 0xee, 0xb4, 0x1a, 0xea, 0xd0, 0x91, 0x2f, 0xb8,
    0x55, 0xb9, 0xda, 0x85, 0x3f, 0x41, 0xbf, 0xe0, 0x5a, 0x58, 0x80, 0x5f, 0x66, 0x0b, 0xd8, 0x90,
    0x35, 0xd5, 0xc0, 0xa7, 0x33, 0x06, 0x65, 0x69, 0x45, 0x00, 0x94, 0x56, 0x6d, 0x98, 0x9b, 0x76,
    0x97, 0xfc, 0xb2, 0xc2, 0xb0, 0xfe, 0xdb, 0x20, 0xe1, 0xeb, 0xd6, 0xe4, 0xdd, 0x47, 0x4a, 0x1d,
    0x42, 0xed, 0x9e, 0x6e, 0x49, 0x3c, 0xcd, 0x43, 0x27, 0xd2, 0x07, 0xd4, 0xde, 0xc7, 0x67, 0x18,
    0x89, 0xcb, 0x30, 0x1f, 0x8d, 0xc6, 0x8f, 0xaa, 0xc8, 0x74, 0xdc, 0xc9, 0x5d, 0x5c, 0x31, 0xa4,
    0x70, 0x88, 0x61, 0x2c, 0x9f, 0x0d, 0x2b, 0x87, 0x50, 0x82, 0x54, 0x64, 0x26, 0x7d, 0x03, 0x40,
    0x34, 0x4b, 0x1c, 0x73, 0xd1, 0xc4, 0xfd, 0x3b, 0xcc, 0xfb, 0x7f, 0xab, 0xe6, 0x3e, 0x5b, 0xa5,
    0xad, 0x04, 0x23, 0x9c, 0x14, 0x51, 0x22, 0xf0, 0x29, 0x79, 0x71, 0x7e, 0xff, 0x8c, 0x0e, 0xe2,
    0x0c, 0xef, 0xbc, 0x72, 0x75, 0x6f, 0x37, 0xa1, 0xec, 0xd3, 0x8e, 0x62, 0x8b, 0x86, 0x10, 0xe8,
    0x08, 0x77, 0x11, 0xbe, 0x92, 0x4f, 0x24, 0xc5, 0x32, 0x36, 0x9d, 0xcf, 0xf3, 0xa6, 0xbb, 0xac,
    0x5e, 0x6c, 0xa9, 0x13, 0x57, 0x25, 0xb5, 0xe3, 0xbd, 0xa8, 0x3a, 0x01, 0x05, 0x59, 0x2a, 0x46]

  lemma TableSize()
    ensures |FTABLE| == 256
  {
  }

  function F(b: bv8): bv8 {
    TableSize();
    FTABLE[Val(b)]
  }

  function KeyByte(key: Bytes, o: nat): bv8
    requires |key| == 32
  {
    key[o % 32]
  }

  function Xor8(a: bv8, b: bv8): bv8 { a ^ b }

  function Word16(hi: bv8, lo: bv8): (v: nat)
    ensures v < W16
  {
    256 * Val(hi) + Val(lo)
  }

  /** idgen32_g */
  function G(key: Bytes, k: nat, w: nat): (v: nat)
    requires |key| == 32
    ensures v < W16
  {
    var g1, g2 := Byte(w / 256), Byte(w);
    var g3 := Xor8(F(Xor8(g2, KeyByte(key, 4 * k))), g1);
    var g4 := Xor8(F(Xor8(g3, KeyByte(key, 4 * k + 1))), g2);
    var g5 := Xor8(F(Xor8(g4, KeyByte(key, 4 * k + 2))), g3);
    var g6 := Xor8(F(Xor8(g5, KeyByte(key, 4 * k + 3))), g4);
    Word16(g5, g6)
  }

  const ROUNDS: nat := 31

  datatype Halves = Halves(wl: nat, wr: nat)

  /** 15 bits on the left, 16 on the right. */
  predicate Fits(h: Halves) { h.wl < W15 && h.wr < W16 }

  /** What round r mixes into one half from the other. */
  function Mix(key: Bytes, r: nat, w: nat): nat
    requires |key| == 32
  {
    XorBits(G(key, r, w), r)
  }

  function Round(key: Bytes, r: nat, h: Halves): Halves
    requires |key| == 32
  {
    if r % 2 == 0 then h.(wr := XorBits(h.wr, Mix(key, r, h.wl)))
    else h.(wl := XorBits(h.wl, Mix(key, r, h.wr) % W15))
  }

  /** Rounds 0 to n - 1 in order, and in reverse order. */
  function Rounds(key: Bytes, n: nat, h: Halves): Halves
    requires |key| == 32
  {
    if n == 0 then h else Round(key, n - 1, Rounds(key, n - 1, h))
  }

  function Unrounds(key: Bytes, n: nat, h: Halves): Halves
    requires |key| == 32
  {
    if n == 0 then h else Unrounds(key, n - 1, Round(key, n - 1, h))
  }

  function Split(x: nat): Halves { Halves(x / W16 % W15, x % W16) }

  function Join(h: Halves): nat { W16 * h.wl + h.wr }

  function Permute(key: Bytes, x: nat): nat
    requires |key| == 32
  {
    Join(Rounds(key, ROUNDS, Split(x)))
  }

  function Unpermute(key: Bytes, y: nat): nat
    requires |key| == 32
  {
    Join(Unrounds(key, ROUNDS, Split(y)))
  }

  lemma SplitJoin(h: Halves)
    requires Fits(h)
    ensures Split(Join(h)) == h && Join(h) < W31
  {
  }

  lemma JoinSplit(x: nat)
    requires x < W31
    ensures Fits(Split(x)) && Join(Split(x)) == x
  {
  }

  lemma WordPowers()
    ensures Pow2(15) == W15 && Pow2(16) == W16 && Pow2(31) == W31
  {
    assert Pow2(8) == 0x100;
    assert Pow2(15) == W15;
    assert Pow2(23) == 0x80_0000;
  }

  lemma XorUndoes(x: nat, y: nat)
    ensures XorBits(XorBits(x, y), y) == x
  {
    hide XorBits;
    XorCancel(y, x);
    XorCommutes(x, y);
    XorCommutes(XorBits(y, x), y);
  }

  lemma MixFits(key: Bytes, r: nat, w: nat)
    requires |key| == 32 && r < ROUNDS
    ensures Mix(key, r, w) < W16
  {
    hide XorBits, G, Pow2;
    WordPowers();
    XorBound(G(key, r, w), r, 16);
  }

  /** A round undoes itself and keeps the halves within their bits. */
  lemma RoundUndoes(key: Bytes, r: nat, h: Halves)
    requires |key| == 32 && r < ROUNDS && Fits(h)
    ensures Round(key, r, Round(key, r, h)) == h && Fits(Round(key, r, h))
  {
    hide Mix, XorBits, Pow2;
    WordPowers();
    MixFits(key, r, h.wl);
    var m, n := Mix(key, r, h.wl), Mix(key, r, h.wr) % W15;
    XorUndoes(h.wr, m);
    XorUndoes(h.wl, n);
    XorBound(h.wr, m, 16);
    XorBound(h.wl, n, 15);
  }

  lemma RoundsStep(key: Bytes, n: nat, h: Halves)
    requires |key| == 32
    ensures Rounds(key, 0, h) == h && Unrounds(key, 0, h) == h
    ensures n > 0 ==> Rounds(key, n, h) == Round(key, n - 1, Rounds(key, n - 1, h))
    ensures n > 0 ==> Unrounds(key, n, h) == Unrounds(key, n - 1, Round(key, n - 1, h))
  {
  }

  lemma {:induction false} RoundsUndo(key: Bytes, n: nat, h: Halves)
    requires |key| == 32 && n <= ROUNDS && Fits(h)
    ensures Unrounds(key, n, Rounds(key, n, h)) == h && Fits(Rounds(key, n, h))
  {
    hide Round, Fits, Rounds, Unrounds;
    RoundsStep(key, n, h);
    RoundsStep(key, n, Rounds(key, n, h));
    if n > 0 {
      RoundsUndo(key, n - 1, h);
      RoundUndoes(key, n - 1, Rounds(key, n - 1, h));
    }
  }

  lemma {:induction false} UnroundsUndo(key: Bytes, n: nat, h: Halves)
    requires |key| == 32 && n <= ROUNDS && Fits(h)
    ensures Rounds(key, n, Unrounds(key, n, h)) == h && Fits(Unrounds(key, n, h))
  {
    hide Round, Fits, Rounds, Unrounds;
    RoundsStep(key, n, h);
    RoundsStep(key, n, Unrounds(key, n, h));
    if n > 0 {
      RoundUndoes(key, n - 1, h);
      UnroundsUndo(key, n - 1, Round(key, n - 1, h));
    }
  }

  /** idgen32_permute is a bijection on 31 bits, whatever the key. */
  lemma PermuteIsBijective(key: Bytes, x: nat)
    requires |key| == 32 && x < W31
    ensures Permute(key, x) < W31 && Unpermute(key, Permute(key, x)) == x
    ensures Unpermute(key, x) < W31 && Permute(key, Unpermute(key, x)) == x
  {
    hide Split, Join, Rounds, Unrounds, Fits;
    JoinSplit(x);
    RoundsUndo(key, ROUNDS, Split(x));
    UnroundsUndo(key, ROUNDS, Split(x));
    SplitJoin(Rounds(key, ROUNDS, Split(x)));
    SplitJoin(Unrounds(key, ROUNDS, Split(x)));
  }

  /** The doubled rounds of the loop, and the odd one after it. */
  method PermuteLoop(key: Bytes, x: nat) returns (y: nat)
    requires |key| == 32
    ensures y == Permute(key, x)
  {
    hide Mix, Split, Join, XorBits;
    var h := Split(x);
    var i: nat, r: nat := 0, 0;
    while i < ROUNDS / 2
      invariant i <= ROUNDS / 2 && r == 2 * i && h == Rounds(key, r, Split(x))
    {
      h := h.(wr := XorBits(h.wr, Mix(key, r, h.wl)));
      assert h == Rounds(key, r + 1, Split(x));
      r := r + 1;
      h := h.(wl := XorBits(h.wl, Mix(key, r, h.wr) % W15));
      r := r + 1;
      i := i + 1;
    }
    h := h.(wr := XorBits(h.wr, Mix(key, r, h.wl)));
    y := Join(h);
  }

  // ---------- one call ----------

  const REKEY_LIMIT: nat := 0x6000_0000
  const REKEY_TIME: int := 600

  datatype State = State(counter: nat, offset: nat, hibit: nat, key: Bytes, rekeyTime: int)

  /** What the clock and the random source deliver to one pass of the loop: all of it is arbitrary. */
  datatype Env = Env(now: int, offset: nat, key: Bytes, later: int)

  predicate Sound(e: Env) { |e.key| == 32 && e.offset < W32 }

  /** idgen32_rekey */
  function Rekeyed(s: State, e: Env): State {
    State(0, e.offset, XorBits(s.hibit, W31), e.key, e.later + REKEY_TIME)
  }

  predicate Due(s: State, e: Env) {
    s.counter > REKEY_LIMIT || s.rekeyTime < e.now
  }

  /** Offset and counter are added as 32-bit words, and 31 bits are kept. */
  function Place(s: State): nat { (s.offset + s.counter) % W32 % W31 }

  function IdOf(s: State): nat
    requires |s.key| == 32
  {
    Or(s.hibit, Permute(s.key, Place(s)))
  }

  /** An identifier with the epoch it was made in and the counter it was made from. */
  datatype Issue = Issue(epoch: nat, at: nat, id: nat)

  datatype Trace = Trace(state: State, epoch: nat, issued: seq<Issue>)

  function Prepared(t: Trace, e: Env): Trace {
    if Due(t.state, e) then Trace(Rekeyed(t.state, e), t.epoch + 1, t.issued) else t
  }

  function Used(t: Trace): Trace {
    t.(state := t.state.(counter := t.state.counter + 1))
  }

  datatype Call = Call(first: Env, second: Env)

  /** One call of idgen32: a pass, and a second one when the first gives zero. */
  function Called(t: Trace, c: Call): Trace
    requires |t.state.key| == 32 && Sound(c.first) && Sound(c.second)
  {
    var u := Prepared(t, c.first);
    if IdOf(u.state) != 0 then Issued(u) else Issued(Prepared(Used(u), c.second))
  }

  function Issued(t: Trace): Trace
    requires |t.state.key| == 32
  {
    Used(t).(issued := t.issued + [Issue(t.epoch, t.state.counter, IdOf(t.state))])
  }

  // ---------- every run ----------

  predicate Ready(s: State) {
    |s.key| == 32 && s.counter <= REKEY_LIMIT + 1 && s.offset < W32 && (s.hibit == 0 || s.hibit == W31)
  }

  /** An identifier of this epoch comes from a counter already used; one of the epoch before has the other high bit. */
  ghost predicate Accounted(t: Trace, i: Issue)
    requires |t.state.key| == 32
  {
    && i.id != 0 && i.epoch <= t.epoch
    && (i.epoch == t.epoch ==> i.at < t.state.counter && i.id == IdOf(t.state.(counter := i.at)))
    && (i.epoch + 1 == t.epoch ==> TopOf(i.id) != t.state.hibit)
  }

  /** No identifier is zero, and none repeats within its epoch or the next one. */
  ghost predicate NoRepeats(s: seq<Issue>) {
    && (forall i :: 0 <= i < |s| ==> s[i].id != 0)
    && forall i, j :: 0 <= i < j < |s| ==>
         s[i].epoch <= s[j].epoch && (s[j].epoch <= s[i].epoch + 1 ==> s[i].id != s[j].id)
  }

  ghost predicate Inv(t: Trace) {
    && Ready(t.state) && NoRepeats(t.issued)
    && forall i :: 0 <= i < |t.issued| ==> Accounted(t, t.issued[i])
  }

  lemma OrTop(h: nat, x: nat)
    requires (h == 0 || h == W31) && x < W31
    ensures Or(h, x) == h + x
  {
    hide Or, Low, High, Pow2;
    if h == 0 {
      OrZero(x);
    } else {
      WordPowers();
      LowHigh(x, 31);
      LowHigh(h, 31);
      OrDisjoint(x, h, 31);
      OrCommutes(x, h);
    }
  }

  lemma FlipTop(h: nat)
    requires h == 0 || h == W31
    ensures XorBits(h, W31) == W31 - h
  {
    hide XorBits;
    XorZero(W31);
    XorCancel(W31, 0);
    XorCommutes(0, W31);
  }

  /** The high bit of a word made of a high bit and 31 bits. */
  function TopOf(id: nat): nat { id / W31 * W31 }

  lemma TopIs(h: nat, x: nat)
    requires (h == 0 || h == W31) && x < W31
    ensures TopOf(h + x) == h
  {
  }

  /** The high bit, and below it the permuted low 31 bits of offset plus counter. */
  lemma IdParts(s: State)
    requires Ready(s)
    ensures Place(s) < W31 && Permute(s.key, Place(s)) < W31
    ensures Place(s) == (s.offset + s.counter) % 0x8000_0000
    ensures IdOf(s) == s.hibit + Permute(s.key, Place(s)) && TopOf(IdOf(s)) == s.hibit
  {
    hide Permute, Unpermute, Or, TopOf;
    KeepsLow(s.offset + s.counter);
    PlaceBound(s);
    PermuteIsBijective(s.key, Place(s));
    OrTop(s.hibit, Permute(s.key, Place(s)));
    TopIs(s.hibit, Permute(s.key, Place(s)));
  }

  lemma PlaceBound(s: State)
    ensures Place(s) < W31
  {
  }

  /** Two counters of one epoch give two identifiers. */
  lemma CountersDiffer(s: State, a: nat)
    requires Ready(s) && a <= REKEY_LIMIT + 1 && a != s.counter
    ensures IdOf(s.(counter := a)) != IdOf(s)
  {
    hide Permute, Unpermute, Place, IdOf;
    var t := s.(counter := a);
    IdParts(s);
    IdParts(t);
    PermuteIsBijective(s.key, Place(s));
    PermuteIsBijective(s.key, Place(t));
    PlacesDiffer(s, a);
  }

  lemma PlacesDiffer(s: State, a: nat)
    requires Ready(s) && a <= REKEY_LIMIT + 1 && a != s.counter
    ensures Place(s.(counter := a)) != Place(s)
  {
    NearbyDiffer(s.offset + s.counter, s.offset + a);
    KeepsLow(s.offset + s.counter);
    KeepsLow(s.offset + a);
  }

  lemma NearbyDiffer(x: nat, y: nat)
    requires x != y && x < y + W31 && y < x + W31
    ensures x % W31 != y % W31
  {
  }

  lemma KeepsLow(x: nat)
    ensures x % W32 % W31 == x % W31
  {
  }

  lemma PreparedKeeps(t: Trace, e: Env)
    requires Inv(t) && Sound(e)
    ensures Inv(Prepared(t, e)) && Prepared(t, e).state.counter <= REKEY_LIMIT
  {
    hide IdOf, XorBits;
    FlipTop(t.state.hibit);
    if Due(t.state, e) {
      forall i | 0 <= i < |t.issued|
        ensures Accounted(Prepared(t, e), t.issued[i])
      {
        assert Accounted(t, t.issued[i]);
        if t.issued[i].epoch == t.epoch {
          IdParts(t.state.(counter := t.issued[i].at));
        }
      }
    }
  }

  lemma UsedKeeps(t: Trace)
    requires Inv(t) && t.state.counter <= REKEY_LIMIT
    ensures Inv(Used(t))
  {
    hide IdOf;
    forall i | 0 <= i < |t.issued|
      ensures Accounted(Used(t), t.issued[i])
    {
      assert Accounted(t, t.issued[i]);
      assert Used(t).state.(counter := t.issued[i].at) == t.state.(counter := t.issued[i].at);
    }
  }

  /** A new identifier differs from all those of its epoch and of the one before. */
  lemma NewDiffers(t: Trace, i: Issue)
    requires Ready(t.state) && Accounted(t, i) && t.state.counter <= REKEY_LIMIT
    ensures t.epoch <= i.epoch + 1 ==> i.id != IdOf(t.state)
  {
    hide IdOf, Permute, Place, TopOf;
    IdParts(t.state);
    if i.epoch == t.epoch {
      CountersDiffer(t.state, i.at);
    }
  }

  lemma IssuedKeeps(t: Trace)
    requires Inv(t) && t.state.counter <= REKEY_LIMIT && IdOf(t.state) != 0
    ensures Inv(Issued(t))
  {
    hide IdOf, Accounted, Used;
    UsedKeeps(t);
    var n := Issue(t.epoch, t.state.counter, IdOf(t.state));
    NewAccounted(t);
    forall i | 0 <= i < |t.issued|
      ensures Accounted(Issued(t), t.issued[i])
      ensures t.issued[i].epoch <= t.epoch && (t.epoch <= t.issued[i].epoch + 1 ==> t.issued[i].id != n.id)
    {
      assert Accounted(t, t.issued[i]);
      NewDiffers(t, t.issued[i]);
      IssuedAccounts(t, t.issued[i]);
    }
  }

  lemma NewAccounted(t: Trace)
    requires |t.state.key| == 32 && IdOf(t.state) != 0
    ensures Accounted(Issued(t), Issue(t.epoch, t.state.counter, IdOf(t.state)))
    ensures Issued(t).state == Used(t).state
  {
    hide IdOf;
    assert Issued(t).state.(counter := t.state.counter) == t.state;
  }

  lemma IssuedAccounts(t: Trace, i: Issue)
    requires |t.state.key| == 32 && Accounted(t, i)
    ensures Accounted(Issued(t), i) && i.epoch <= t.epoch
  {
    hide IdOf;
    assert Issued(t).state.(counter := i.at) == t.state.(counter := i.at);
  }

  /** When the first pass gives zero, the second does not: another place or the other high bit. */
  lemma SecondPassIsNonzero(t: Trace, e: Env)
    requires Inv(t) && Sound(e) && t.state.counter <= REKEY_LIMIT && IdOf(t.state) == 0
    ensures IdOf(Prepared(Used(t), e).state) != 0
  {
    hide IdOf, Permute, Place;
    var v := Used(t);
    UsedKeeps(t);
    PreparedKeeps(v, e);
    IdParts(t.state);
    IdParts(Prepared(v, e).state);
    FlipTop(0);
    if !Due(v.state, e) {
      CountersDiffer(v.state, t.state.counter);
      assert v.state.(counter := t.state.counter) == t.state;
    }
  }

  lemma CalledKeeps(t: Trace, c: Call)
    requires Inv(t) && Sound(c.first) && Sound(c.second)
    ensures Inv(Called(t, c))
  {
    hide IdOf, Inv, Prepared, Issued, Due;
    PreparedKeeps(t, c.first);
    var u := Prepared(t, c.first);
    InvReady(t);
    InvReady(u);
    if IdOf(u.state) != 0 {
      IssuedKeeps(u);
    } else {
      SecondPassIsNonzero(u, c.second);
      UsedKeeps(u);
      PreparedKeeps(Used(u), c.second);
      IssuedKeeps(Prepared(Used(u), c.second));
    }
  }

  lemma InvReady(t: Trace)
    requires Inv(t)
    ensures Ready(t.state)
  {
  }

  ghost predicate AllSound(calls: seq<Call>) {
    forall i :: 0 <= i < |calls| ==> Sound(calls[i].first) && Sound(calls[i].second)
  }

  /** idgen32_init, and any number of calls. */
  function Start(bit: bool, e: Env): Trace {
    Trace(Rekeyed(State(0, 0, if bit then W31 else 0, [], 0), e), 0, [])
  }

  ghost function Run(t: Trace, calls: seq<Call>): (u: Trace)
    requires Inv(t) && AllSound(calls)
    ensures Inv(u) && |u.issued| == |t.issued| + |calls|
  {
    if calls == [] then t else
      var u := Run(t, calls[..|calls| - 1]);
      CalledKeeps(u, calls[|calls| - 1]);
      Called(u, calls[|calls| - 1])
  }

  lemma StartIsSound(bit: bool, e: Env)
    requires Sound(e)
    ensures Inv(Start(bit, e))
  {
    hide XorBits;
    FlipTop(if bit then W31 else 0);
  }

  /** Over every run, with any clock and any randomness: no zero, and no repetition within an epoch or the next. */
  lemma RunNeverRepeats(bit: bool, e: Env, calls: seq<Call>)
    requires Sound(e) && AllSound(calls)
    ensures Inv(Start(bit, e))
    ensures var u := Run(Start(bit, e), calls);
            NoRepeats(u.issued) && |u.issued| == |calls| && u.state.counter <= 0x6000_0001
  {
    hide Run, Rekeyed;
    StartIsSound(bit, e);
  }

  // ---------- what the permutation and the rekeying are ----------

  /** Each of the last four bytes comes from the two before it, the table and a byte of the key. */
  ghost predicate Stepped(key: Bytes, k: nat, g: Bytes) {
    && |key| == 32 && |g| == 6 && |FTABLE| == 256
    && forall i :: 0 <= i < 4 ==> g[i + 2] == FTABLE[Val(g[i + 1] ^ key[(4 * k + i) % 32])] ^ g[i]
  }

  /** The round function takes a word's two bytes through four such steps. */
  lemma GIs(key: Bytes, k: nat, w: nat, g: Bytes)
    requires |key| == 32 && |g| == 6 && w == 256 * Val(g[0]) + Val(g[1]) && Stepped(key, k, g)
    ensures G(key, k, w) == 256 * Val(g[4]) + Val(g[5])
  {
    hide Val, FTABLE, F, Xor8, KeyByte, G, Stepped;
    GByte(key, k, 0, g);
    GByte(key, k, 1, g);
    GByte(key, k, 2, g);
    GByte(key, k, 3, g);
    GFrom(key, k, w, g);
  }

  lemma GFrom(key: Bytes, k: nat, w: nat, g: Bytes)
    requires |key| == 32 && |g| == 6 && w == 256 * Val(g[0]) + Val(g[1])
    requires g[2] == Xor8(F(Xor8(g[1], KeyByte(key, 4 * k))), g[0])
    requires g[3] == Xor8(F(Xor8(g[2], KeyByte(key, 4 * k + 1))), g[1])
    requires g[4] == Xor8(F(Xor8(g[3], KeyByte(key, 4 * k + 2))), g[2])
    requires g[5] == Xor8(F(Xor8(g[4], KeyByte(key, 4 * k + 3))), g[3])
    ensures G(key, k, w) == 256 * Val(g[4]) + Val(g[5])
  {
    hide Val, Byte, F, Xor8, KeyByte;
    BytesOf(w, g[0], g[1]);
  }

  lemma GByte(key: Bytes, k: nat, i: nat, g: Bytes)
    requires |key| == 32 && |g| == 6 && i < 4 && Stepped(key, k, g)
    ensures g[i + 2] == Xor8(F(Xor8(g[i + 1], KeyByte(key, 4 * k + i))), g[i])
  {
    hide Val, FTABLE;
    assert g[i + 2] == FTABLE[Val(g[i + 1] ^ key[(4 * k + i) % 32])] ^ g[i];
  }

  lemma BytesOf(w: nat, a: bv8, b: bv8)
    requires w == 256 * Val(a) + Val(b)
    ensures Byte(w / 256) == a && Byte(w) == b
  {
    hide Val, Byte;
    ByteVal(w / 256);
    ByteVal(w);
    assert w / 256 == Val(a) && w % 256 == Val(b) && Val(a) % 256 == Val(a);
    ValInjective(Byte(w / 256), a);
    ValInjective(Byte(w), b);
  }

  /** Rounds 0, 2, ..., 30 change the right 16 bits, rounds 1, 3, ..., 29 the left 15. */
  ghost predicate Rounded(key: Bytes, wl: seq<nat>, wr: seq<nat>, n: nat)
    requires |key| == 32
  {
    && |wl| > n && |wr| > n
    && forall r :: 0 <= r < n ==>
         if r % 2 == 0
         then wl[r + 1] == wl[r] && wr[r + 1] == XorBits(wr[r], XorBits(G(key, r, wl[r]), r))
         else wr[r + 1] == wr[r] && wl[r + 1] == XorBits(wl[r], XorBits(G(key, r, wr[r]), r) % 0x8000)
  }

  lemma {:induction false} RoundedIs(key: Bytes, wl: seq<nat>, wr: seq<nat>, n: nat)
    requires |key| == 32 && Rounded(key, wl, wr, n)
    ensures |wl| > n && |wr| > n && Halves(wl[n], wr[n]) == Rounds(key, n, Halves(wl[0], wr[0]))
  {
    if n > 0 {
      hide XorBits, G, Rounds;
      RoundedIs(key, wl, wr, n - 1);
      RoundsStep(key, n, Halves(wl[0], wr[0]));
      assert wl[n - 1 + 1] == wl[n] && wr[n - 1 + 1] == wr[n];
    }
  }

  lemma PermuteIs(key: Bytes, x: nat, wl: seq<nat>, wr: seq<nat>)
    requires |key| == 32 && x < W31 && Rounded(key, wl, wr, 31)
    requires x == 0x1_0000 * wl[0] + wr[0] && wr[0] < 0x1_0000
    ensures Permute(key, x) == 0x1_0000 * wl[31] + wr[31]
  {
    hide XorBits, G, Rounds, Rounded;
    RoundedIs(key, wl, wr, 31);
  }

  /** A key is given up exactly when more than 0x60000000 identifiers were made with it or its 600 seconds are over. */
  lemma KeyGivenUp(t: Trace, e: Env)
    requires Ready(t.state)
    ensures var u := Prepared(t, e);
            if t.state.counter > 0x6000_0000 || e.now > t.state.rekeyTime then
              && u.state == State(0, e.offset, 0x8000_0000 - t.state.hibit, e.key, e.later + 600)
              && u.epoch == t.epoch + 1 && u.issued == t.issued
            else u == t
  {
    hide XorBits;
    FlipTop(t.state.hibit);
  }

  /** A call issues the identifier of the state it left, before counting, in the epoch it left. */
  lemma CalledIs(t: Trace, c: Call)
    requires Inv(t) && Sound(c.first) && Sound(c.second)
    ensures var u := Called(t, c);
            && |u.issued| == |t.issued| + 1 && u.issued[..|t.issued|] == t.issued && u.state.counter > 0
            && var i := u.issued[|t.issued|];
               && i.epoch == u.epoch && i.at == u.state.counter - 1 && i.id == IdOf(u.state.(counter := i.at))
               && i.id != 0
  {
    hide IdOf, Inv, Due, Rekeyed, Issued;
    InvReady(t);
    PreparedKeeps(t, c.first);
    var u := Prepared(t, c.first);
    InvReady(u);
    if IdOf(u.state) != 0 {
      IssuedIs(u);
    } else {
      SecondPassIsNonzero(u, c.second);
      UsedKeeps(u);
      PreparedKeeps(Used(u), c.second);
      InvReady(Prepared(Used(u), c.second));
      IssuedIs(Prepared(Used(u), c.second));
    }
  }

  lemma IssuedIs(t: Trace)
    requires |t.state.key| == 32
    ensures Issued(t).issued == t.issued + [Issue(t.epoch, t.state.counter, IdOf(t.state))]
    ensures Issued(t).epoch == t.epoch && Issued(t).state.counter == t.state.counter + 1
    ensures Issued(t).state.(counter := t.state.counter) == t.state
  {
    hide IdOf;
  }

  // ---------- the generator ----------

  class Idgen32 {
    var counter: nat
    var offset: nat
    var hibit: nat
    var key: Bytes
    var rekeyTime: int
    ghost var epoch: nat
    ghost var issued: seq<Issue>

    /** The fields and the history of the calls. */
    ghost function View(): Trace
      reads this
    {
      Trace(State(counter, offset, hibit, key, rekeyTime), epoch, issued)
    }

    /** idgen32_init */
    constructor (bit: bool, e: Env)
      requires Sound(e)
      ensures View() == Start(bit, e) && Inv(View())
    {
      counter, offset, key, rekeyTime := 0, e.offset, e.key, e.later + REKEY_TIME;
      hibit := XorBits(if bit then W31 else 0, W31);
      epoch, issued := 0, [];
      new;
      StartIsSound(bit, e);
    }

    method Rekey(e: Env)
      modifies this
      ensures View() == Trace(Rekeyed(old(View()).state, e), old(epoch) + 1, old(issued))
    {
      counter := 0;
      hibit := XorBits(hibit, W31);
      offset := e.offset;
      key := e.key;
      rekeyTime := e.later + REKEY_TIME;
      epoch := epoch + 1;
    }

    /** The body of the loop in idgen32. */
    method Pass(e: Env) returns (ret: nat)
      requires |key| == 32 && Sound(e)
      modifies this
      ensures var u := Prepared(old(View()), e);
              View() == Used(u) && |u.state.key| == 32 && ret == IdOf(u.state)
    {
      hide XorBits, Permute;
      if counter > REKEY_LIMIT || rekeyTime < e.now {
        Rekey(e);
      }
      var y := PermuteLoop(key, (offset + counter) % W32 % W31);
      ret := Or(hibit, y);
      counter := counter + 1;
    }

    /** idgen32: the loop body runs at most twice, and the identifier is not among those of this epoch and the last. */
    method Next(c: Call) returns (ret: nat, passes: nat)
      requires Inv(View()) && Sound(c.first) && Sound(c.second)
      modifies this
      ensures View() == Called(old(View()), c) && Inv(View())
      ensures issued == old(issued) + [issued[|issued| - 1]] && issued[|issued| - 1].id == ret
      ensures ret != 0 && 1 <= passes <= 2
    {
      hide Inv, IdOf, XorBits, Prepared, Used;
      ghost var t := View();
      InvReady(t);
      ghost var u := Prepared(t, c.first);
      ghost var v := Prepared(Used(u), c.second);
      PreparedKeeps(t, c.first);
      InvReady(u);
      CalledKeeps(t, c);
      SameIssues(t, c);
      ghost var w := u;
      ret := Pass(c.first);
      passes := 1;
      while ret == 0
        invariant 1 <= passes <= 2 && |w.state.key| == 32 && View() == Used(w) && ret == IdOf(w.state)
        invariant w == if passes == 1 then u else v
        invariant passes == 2 ==> IdOf(u.state) == 0 && ret != 0
        decreases 2 - passes
      {
        SecondPassIsNonzero(u, c.second);
        UsedKey(u);
        ret := Pass(c.second);
        w, passes := v, passes + 1;
      }
      issued := issued + [Issue(w.epoch, w.state.counter, ret)];
      UsedKey(w);
      assert View() == Issued(w);
    }
  }

  lemma SameIssues(t: Trace, c: Call)
    ensures var u := Prepared(t, c.first);
            u.issued == t.issued && Used(u).issued == t.issued && Prepared(Used(u), c.second).issued == t.issued
  {
  }

  lemma UsedKey(t: Trace)
    ensures Used(t).state.key == t.state.key && Used(t).issued == t.issued
  {
  }
}
