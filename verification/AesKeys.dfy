/** The key schedule of aes.c, and with it AES from the bytes of a key as in FIPS 197. */
module AesKeys {
  import opened AesBits
  import opened Arith
  import opened ByteStrings
  import opened LittleEndian
  import A = Aes
  import F = Fips197
  import R = AesRounds

  // ---------- key expansion as in section 5.2 of FIPS 197 ----------

  function RotWord(w: Bytes): (r: Bytes)
    requires |w| == 4
    ensures |r| == 4
  {
    [w[1], w[2], w[3], w[0]]
  }

  ghost function SubWord(w: Bytes): (r: Bytes)
    requires |w| == 4
    ensures |r| == 4
  {
    hide F.SBox;
    [F.SBox(w[0]), F.SBox(w[1]), F.SBox(w[2]), F.SBox(w[3])]
  }

  /** x^(j-1) in GF(2^8) */
  function RoundConstant(j: int): bv8
    decreases j
  {
    if j <= 1 then 1 else F.Times(F.X02, RoundConstant(j - 1))
  }

  predicate KeySize(n: nat) { n == 16 || n == 24 || n == 32 }

  /** What word i - 1 contributes to word i. */
  ghost function Temp(nk: nat, i: nat, t: Bytes): (r: Bytes)
    requires nk > 0 && |t| == 4
    ensures |r| == 4
  {
    hide SubWord, RotWord;
    if i % nk == 0 then Xor(SubWord(RotWord(t)), [RoundConstant(i / nk), 0, 0, 0])
    else if nk > 6 && i % nk == 4 then SubWord(t)
    else t
  }

  /** Word i of the expanded key. */
  ghost function KeyWord(key: Bytes, i: nat): (w: Bytes)
    requires KeySize(|key|)
    ensures |w| == 4
  {
    hide Temp;
    var nk := |key| / 4;
    if i < nk then key[4 * i..4 * i + 4] else Xor(KeyWord(key, i - nk), Temp(nk, i, KeyWord(key, i - 1)))
  }

  function RoundsFor(len: nat): nat {
    if len == 16 then 10 else if len == 24 then 12 else if len == 32 then 14 else 0
  }

  /** The key of round u. */
  ghost function RoundKey(key: Bytes, u: nat): (k: Bytes)
    requires KeySize(|key|)
    ensures |k| == 16
  {
    KeyWord(key, 4 * u) + KeyWord(key, 4 * u + 1) + KeyWord(key, 4 * u + 2) + KeyWord(key, 4 * u + 3)
  }

  ghost function KeySchedule(key: Bytes): (ks: seq<Bytes>)
    requires KeySize(|key|)
    ensures |ks| == RoundsFor(|key|) + 1 && F.RoundKeys(ks)
  {
    seq(RoundsFor(|key|) + 1, u requires 0 <= u < RoundsFor(|key|) + 1 => RoundKey(key, u))
  }

  // ---------- operations on words, as bytes ----------

  /** (tmp << 24) | (tmp >> 8) */
  function Rotated(w: A.Word): A.Word {
    seq(32, r requires 0 <= r < 32 => (r >= 24 && w[r - 24]) || (r + 8 < 32 && w[r + 8]))
  }

  function XorWord(x: A.Word, y: A.Word): A.Word {
    seq(32, r requires 0 <= r < 32 => x[r] != y[r])
  }

  /** An unsigned char as a word. */
  function WordOfByte(b: bv8): A.Word { A.BitsOf(A.OctetOf(b)) + seq(24, _ => false) }

  lemma RotatedBytes(w: A.Word)
    ensures A.Enc32(Rotated(w)) == RotWord(A.Enc32(w))
  {
    hide A.ByteOf;
    var v := Rotated(w);
    assert A.OctetFrom(v, 0) == A.OctetFrom(w, 1);
    assert A.OctetFrom(v, 1) == A.OctetFrom(w, 2);
    assert A.OctetFrom(v, 2) == A.OctetFrom(w, 3);
    assert A.OctetFrom(v, 3) == A.OctetFrom(w, 0);
  }

  lemma XorWordBytes(x: A.Word, y: A.Word)
    ensures A.Enc32(XorWord(x, y)) == Xor(A.Enc32(x), A.Enc32(y))
  {
    hide A.ByteOf, A.OctetFrom, XorWord;
    XorWordByte(x, y, 0);
    XorWordByte(x, y, 1);
    XorWordByte(x, y, 2);
    XorWordByte(x, y, 3);
  }

  lemma XorWordByte(x: A.Word, y: A.Word, m: nat)
    requires m < 4
    ensures A.ByteOf(A.OctetFrom(XorWord(x, y), m)) == A.ByteOf(A.OctetFrom(x, m)) ^ A.ByteOf(A.OctetFrom(y, m))
  {
    hide A.ByteOf;
    assert A.OctetFrom(XorWord(x, y), m) == Plus(A.OctetFrom(x, m), A.OctetFrom(y, m));
    F.ByteOfPlus(A.OctetFrom(x, m), A.OctetFrom(y, m));
  }

  lemma FirstByte(b: bv8)
    ensures A.Enc32(WordOfByte(b)) == [b, 0, 0, 0]
  {
    hide A.ByteOf, A.OctetOf;
    var w := WordOfByte(b);
    assert A.OctetFrom(w, 0) == A.OctetOf(b);
    assert A.OctetFrom(w, 1) == ZERO && A.OctetFrom(w, 2) == ZERO && A.OctetFrom(w, 3) == ZERO;
    A.ByteOfOctet(b);
    ZeroByte();
  }

  lemma ZeroByte()
    ensures A.ByteOf(ZERO) == 0
  {
  }

  /** Byte m of a loaded word. */
  lemma LoadedByte(s: Bytes, i: nat, m: nat)
    requires i + 4 <= |s| && m < 4
    ensures A.OctetFrom(A.Dec32(s, i), m) == A.OctetOf(s[i + m])
  {
    hide A.Dec32, A.OctetOf;
    A.Dec32At(s, i, m, 0);
    A.Dec32At(s, i, m, 1);
    A.Dec32At(s, i, m, 2);
    A.Dec32At(s, i, m, 3);
    A.Dec32At(s, i, m, 4);
    A.Dec32At(s, i, m, 5);
    A.Dec32At(s, i, m, 6);
    A.Dec32At(s, i, m, 7);
  }

  lemma StoredLoaded(s: Bytes, i: nat)
    requires i + 4 <= |s|
    ensures A.Enc32(A.Dec32(s, i)) == s[i..i + 4]
  {
    hide A.Dec32, A.OctetOf, A.ByteOf, A.OctetFrom;
    forall m | 0 <= m < 4
      ensures A.ByteOf(A.OctetFrom(A.Dec32(s, i), m)) == s[i + m]
    {
      LoadedByte(s, i, m);
      A.ByteOfOctet(s[i + m]);
    }
  }

  lemma LoadedStored(w: A.Word, a: Bytes, z: Bytes)
    ensures A.Dec32(a + A.Enc32(w) + z, |a|) == w
  {
    hide A.Dec32, A.OctetOf, A.ByteOf, A.Enc32;
    var s := a + A.Enc32(w) + z;
    forall r | 0 <= r < 32
      ensures A.Dec32(s, |a|)[r] == w[r]
    {
      var m, k := r / 8, r % 8;
      A.Dec32At(s, |a|, m, k);
      A.Enc32At(w, m);
      assert s[|a| + m] == A.Enc32(w)[m];
      A.OctetOfByte(A.OctetFrom(w, m));
      OctetBits(w, m, k);
    }
  }

  lemma OctetBits(w: A.Word, m: nat, k: nat)
    requires m < 4 && k < 8
    ensures A.BitsOf(A.OctetFrom(w, m))[k] == w[8 * m + k]
  {
  }

  // ---------- sub_word ----------

  /** Rank 8 i + j after aes_ct_ortho is byte i of word j. */
  lemma RankIsByte(q: A.Slice, i: nat, j: nat)
    requires i < 4 && j < 8
    ensures A.OctetsOf(A.Ortho(q))[8 * i + j] == A.OctetFrom(q[j], i)
  {
    hide A.Ortho;
    A.OrthoAt(q, i, j, 0);
    A.OrthoAt(q, i, j, 1);
    A.OrthoAt(q, i, j, 2);
    A.OrthoAt(q, i, j, 3);
    A.OrthoAt(q, i, j, 4);
    A.OrthoAt(q, i, j, 5);
    A.OrthoAt(q, i, j, 6);
    A.OrthoAt(q, i, j, 7);
  }

  lemma SubBytesAt(s: R.State, r: nat)
    requires r < R.RANKS
    ensures R.SubBytes(s)[r] == SboxBits(s[r])
  {
    hide SboxBits;
  }

  lemma SubbedByte(x: A.Word, q: A.Slice, i: nat)
    requires i < 4 && q[0] == x
    ensures A.Enc32(A.Ortho(A.WordsOf(R.SubBytes(A.OctetsOf(A.Ortho(q)))))[0])[i] == F.SBox(A.Enc32(x)[i])
  {
    hide A.Ortho, A.WordsOf, A.OctetsOf, A.OctetFrom, A.ByteOf, SboxBits, F.SBox, A.Enc32, R.SubBytes;
    var s := A.OctetsOf(A.Ortho(q));
    RankIsByte(q, i, 0);
    A.StoreAt(R.SubBytes(s), 0, i);
    SubBytesAt(s, 8 * i);
    A.Enc32At(A.Ortho(A.WordsOf(R.SubBytes(s)))[0], i);
    A.Enc32At(x, i);
    F.SBoxIsCircuit(A.OctetFrom(x, i));
  }

  /** sub_word: the S-box on the four bytes, eight times over. */
  method SubWordOf(x: A.Word) returns (y: A.Word)
    ensures A.Enc32(y) == SubWord(A.Enc32(x))
  {
    hide A.Ortho, A.WordsOf, A.OctetsOf, R.SubBytes, F.SBox, A.Enc32;
    var q: A.Slice := seq(8, _ => x);
    SubbedByte(x, q, 0);
    SubbedByte(x, q, 1);
    SubbedByte(x, q, 2);
    SubbedByte(x, q, 3);
    q := A.Ortho(q);
    q := A.WordsOf(R.SubBytes(A.OctetsOf(q)));
    q := A.Ortho(q);
    y := q[0];
  }

  // ---------- aes_keysched_base ----------

  const RCON: Bytes := [0x01, 0x02, 0x04, 0x08, 0x10, 0x20, 0x40, 0x80, 0x1B, 0x36]

  /** Multiplication by x is a shift, with 0x1b for the bit that falls out. */
  lemma DoubledByte(b: bv8)
    ensures F.Times(F.X02, b) == (b << 1) ^ (if b & 0x80 != 0 then 0x1b else 0)
  {
    hide Product;
    F.By2(A.OctetOf(b));
  }

  lemma {:induction false} RconIs(k: nat)
    requires k < 10
    ensures |RCON| == 10 && RCON[k] == RoundConstant(k + 1)
  {
    hide F.Times;
    if k > 0 {
      RconIs(k - 1);
      DoubledByte(RCON[k - 1]);
    }
  }

  lemma FirstWords(key: Bytes, i: nat)
    requires KeySize(|key|) && 4 * i + 4 <= |key|
    ensures A.Enc32(A.Dec32(key, 4 * i)) == KeyWord(key, i)
  {
    hide A.Enc32, A.Dec32, Temp;
    StoredLoaded(key, 4 * i);
  }

  lemma NextWord(key: Bytes, i: nat)
    requires KeySize(|key|) && 4 * i >= |key|
    ensures KeyWord(key, i) == Xor(KeyWord(key, i - |key| / 4), Temp(|key| / 4, i, KeyWord(key, i - 1)))
  {
    hide Temp, Xor;
  }

  /** The body of the loop up to the last exclusive or: `j` is i mod nk and `k` one less than i / nk. */
  method TempOf(nk: nat, ghost i: nat, j: nat, k: nat, tmp: A.Word) returns (t: A.Word)
    requires nk > 4 || nk == 4
    requires j < nk && i == (k + 1) * nk + j && k < 10
    ensures A.Enc32(t) == Temp(nk, i, A.Enc32(tmp))
  {
    hide A.Enc32, SubWord, RotWord, Xor, Rotated, XorWord, RoundConstant, WordOfByte;
    DivModUnique(i, k + 1, nk, j);
    t := tmp;
    if j == 0 {
      t := Rotated(t);
      RotatedBytes(tmp);
      t := SubWordOf(t);
      RconIs(k);
      XorWordBytes(t, WordOfByte(RCON[k]));
      FirstByte(RCON[k]);
      t := XorWord(t, WordOfByte(RCON[k]));
    } else if nk > 6 && j == 4 {
      t := SubWordOf(t);
    }
  }

  /** aes_keysched_base */
  method KeyschedBase(skey: array<A.Word>, key: Bytes) returns (rounds: nat)
    requires skey.Length == 60
    modifies skey
    ensures rounds == RoundsFor(|key|)
    ensures rounds > 0 ==> forall m :: 0 <= m < 4 * (rounds + 1) ==> A.Enc32(skey[m]) == KeyWord(key, m)
  {
    hide A.Enc32, A.Dec32, Xor, Temp, KeyWord, XorWord;
    if |key| == 16 {
      rounds := 10;
    } else if |key| == 24 {
      rounds := 12;
    } else if |key| == 32 {
      rounds := 14;
    } else {
      return 0;
    }
    var nk, nkf := |key| / 4, 4 * (rounds + 1);
    for i := 0 to nk
      invariant forall m :: 0 <= m < i ==> A.Enc32(skey[m]) == KeyWord(key, m)
    {
      skey[i] := A.Dec32(key, 4 * i);
      FirstWords(key, i);
    }
    Schedule(skey, key, nk, nkf);
  }

  /** The loop over the words after those of the key. */
  method Schedule(skey: array<A.Word>, key: Bytes, nk: nat, nkf: nat)
    requires KeySize(|key|) && nk == |key| / 4 && nkf == 4 * (RoundsFor(|key|) + 1) && skey.Length == 60
    requires forall m :: 0 <= m < nk ==> A.Enc32(skey[m]) == KeyWord(key, m)
    modifies skey
    ensures forall m :: 0 <= m < nkf ==> A.Enc32(skey[m]) == KeyWord(key, m)
  {
    hide A.Enc32, Xor, Temp, KeyWord, XorWord;
    var tmp := skey[nk - 1];
    var i: nat, j: nat, k: nat := nk, 0, 0;
    while i < nkf
      invariant nk <= i <= nkf && j < nk && i == (k + 1) * nk + j && tmp == skey[i - 1]
      invariant forall m :: 0 <= m < i ==> A.Enc32(skey[m]) == KeyWord(key, m)
    {
      FewRounds(|key|, nk, nkf, i, j, k);
      tmp := TempOf(nk, i, j, k, tmp);
      XorWordBytes(skey[i - nk], tmp);
      NextWord(key, i);
      tmp := XorWord(skey[i - nk], tmp);
      skey[i] := tmp;
      i, j := i + 1, j + 1;
      if j == nk {
        assert (k + 2) * nk == (k + 1) * nk + nk;
        j, k := 0, k + 1;
      }
    }
  }

  lemma FewRounds(len: nat, nk: nat, nkf: nat, i: nat, j: nat, k: nat)
    requires KeySize(len) && nk == len / 4 && nkf == 4 * (RoundsFor(len) + 1) && i == (k + 1) * nk + j && i < nkf
    ensures k < 10
  {
    assert (k + 1) * nk == (k - 9) * nk + 10 * nk;
    MulAtLeast(k - 9, nk);
  }

  // ---------- the subkeys, compressed and expanded ----------

  /** (x & 0x55555555) | (y & 0xaaaaaaaa) */
  function Compress(x: A.Word, y: A.Word): A.Word {
    seq(32, r requires 0 <= r < 32 => (r % 2 == 0 && x[r]) || (r % 2 == 1 && y[r]))
  }

  /** The four words kept of a round key: its bits on one lane. */
  function Compressed(b: Bytes): (c: seq<A.Word>)
    requires |b| == 16
    ensures |c| == 4
  {
    var q := A.Ortho(A.Loaded(b, b));
    [Compress(q[0], q[1]), Compress(q[2], q[3]), Compress(q[4], q[5]), Compress(q[6], q[7])]
  }

  lemma CompressExpands(x: A.Word, y: A.Word)
    requires A.BothLanes(x) && A.BothLanes(y)
    ensures A.ExpandEven(Compress(x, y)) == x && A.ExpandOdd(Compress(x, y)) == y
  {
    hide A.ExpandEven, A.ExpandOdd;
    var w := Compress(x, y);
    forall r | 0 <= r < 32
      ensures A.ExpandEven(w)[r] == x[r] && A.ExpandOdd(w)[r] == y[r]
    {
      F.ExpandAt(w, r);
      PairOf(r);
      assert x[R.Twin(r)] == x[r] && y[R.Twin(r)] == y[r];
    }
  }

  lemma PairOf(r: nat)
    requires r < 32
    ensures (r - r % 2) % 2 == 0 && (r - r % 2 + 1) % 2 == 1 && r - r % 2 + 1 < 32
    ensures r - r % 2 == (if r % 2 == 0 then r else R.Twin(r))
    ensures r - r % 2 + 1 == (if r % 2 == 0 then R.Twin(r) else r)
  {
  }

  lemma WordAtRank(q: A.Slice, k: nat, r: nat)
    requires k < 8 && r < 32
    ensures q[k][r] == A.BitsOf(A.OctetsOf(q)[r])[k]
  {
  }

  /** A block loaded beside itself is the same on both lanes. */
  lemma TwiceLoaded(b: Bytes, k: nat)
    requires |b| == 16 && k < 8
    ensures A.BothLanes(A.Ortho(A.Loaded(b, b))[k])
  {
    hide A.Ortho, A.Loaded, A.OctetOf, A.OctetsOf, A.Source, A.BitsOf;
    var q := A.Ortho(A.Loaded(b, b));
    A.LoadInterleaves(b, b);
    forall r | 0 <= r < 32
      ensures 0 <= R.Twin(r) < 32 && q[k][R.Twin(r)] == q[k][r]
    {
      A.SourceOfTwins(b, b, r);
      WordAtRank(q, k, r);
      WordAtRank(q, k, R.Twin(r));
    }
  }

  lemma ExpandedPair(comp: seq<A.Word>, v: nat)
    requires v < |comp|
    ensures A.Expanded(comp)[2 * v] == A.ExpandEven(comp[v]) && A.Expanded(comp)[2 * v + 1] == A.ExpandOdd(comp[v])
  {
    hide A.ExpandEven, A.ExpandOdd, A.Expanded;
    var e := A.Expanded(comp);
    forall r | 0 <= r < 32
      ensures e[2 * v][r] == A.ExpandEven(comp[v])[r] && e[2 * v + 1][r] == A.ExpandOdd(comp[v])[r]
    {
      F.ExpandedAt(comp, v, r);
      F.ExpandAt(comp[v], r);
    }
  }

  /** What is compressed here and expanded there is the round key on both lanes. */
  lemma ExpandedKey(comp: seq<A.Word>, n: nat, u: nat, b: Bytes)
    requires |comp| == 4 * (n + 1) && u <= n && |b| == 16 && comp[4 * u..4 * u + 4] == Compressed(b)
    ensures A.RoundKeys(A.Expanded(comp), n)[u] == A.Interleaved(b, b)
  {
    hide A.Ortho, A.Loaded, A.OctetsOf, A.Interleaved, A.ExpandEven, A.ExpandOdd, A.Expanded, A.BothLanes, Compress;
    var q, e := A.Ortho(A.Loaded(b, b)), A.Expanded(comp);
    forall t | 0 <= t < 4
      ensures e[8 * u + 2 * t] == q[2 * t] && e[8 * u + 2 * t + 1] == q[2 * t + 1]
    {
      assert comp[4 * u + t] == Compressed(b)[t];
      ExpandedPair(comp, 4 * u + t);
      TwiceLoaded(b, 2 * t);
      TwiceLoaded(b, 2 * t + 1);
      CompressExpands(q[2 * t], q[2 * t + 1]);
    }
    EightWords(e[8 * u..8 * u + 8], q);
    A.LoadInterleaves(b, b);
  }

  lemma EightWords(e: seq<A.Word>, q: A.Slice)
    requires |e| == 8
    requires forall t :: 0 <= t < 4 ==> e[2 * t] == q[2 * t] && e[2 * t + 1] == q[2 * t + 1]
    ensures e == q
  {
    assert e[2 * 0] == q[2 * 0] && e[2 * 1] == q[2 * 1] && e[2 * 2] == q[2 * 2] && e[2 * 3] == q[2 * 3];
  }

  // ---------- aes_ct_keysched and the context ----------

  lemma LoadedTwice(w0: A.Word, w1: A.Word, w2: A.Word, w3: A.Word)
    ensures var b := A.Enc32(w0) + A.Enc32(w1) + A.Enc32(w2) + A.Enc32(w3);
            A.Loaded(b, b) == [w0, w0, w1, w1, w2, w2, w3, w3]
  {
    hide A.Enc32, A.Dec32;
    var b0, b1, b2, b3 := A.Enc32(w0), A.Enc32(w1), A.Enc32(w2), A.Enc32(w3);
    var b := b0 + b1 + b2 + b3;
    assert b == [] + b0 + (b1 + b2 + b3) == b0 + b1 + (b2 + b3) == b0 + b1 + b2 + b3 == b0 + b1 + b2 + b3 + [];
    LoadedStored(w0, [], b1 + b2 + b3);
    LoadedStored(w1, b0, b2 + b3);
    LoadedStored(w2, b0 + b1, b3);
    LoadedStored(w3, b0 + b1 + b2, []);
  }

  /** The body of the loop of aes_ct_keysched. */
  method Subkey(comp: array<A.Word>, u: nat, w0: A.Word, w1: A.Word, w2: A.Word, w3: A.Word)
    requires 4 * u + 4 <= comp.Length
    modifies comp
    ensures comp[..4 * u] == old(comp[..4 * u])
    ensures comp[4 * u..4 * u + 4] == Compressed(A.Enc32(w0) + A.Enc32(w1) + A.Enc32(w2) + A.Enc32(w3))
  {
    hide A.Ortho, A.Enc32, A.Loaded, Compress;
    var q: A.Slice := [w0, w0, w1, w1, w2, w2, w3, w3];
    LoadedTwice(w0, w1, w2, w3);
    q := A.Ortho(q);
    comp[4 * u] := Compress(q[0], q[1]);
    comp[4 * u + 1] := Compress(q[2], q[3]);
    comp[4 * u + 2] := Compress(q[4], q[5]);
    comp[4 * u + 3] := Compress(q[6], q[7]);
  }

  /** aes_ct_keysched; for a bad length the loop still runs once, on words that hold anything. */
  method Keysched(comp: array<A.Word>, key: Bytes) returns (rounds: nat)
    requires comp.Length == 60
    modifies comp
    ensures rounds == RoundsFor(|key|)
    ensures rounds > 0 ==>
              forall u :: 0 <= u <= rounds ==> comp[4 * u..4 * u + 4] == Compressed(RoundKey(key, u))
  {
    hide A.Enc32, KeyWord, Compressed;
    var skey := new A.Word[60];
    rounds := KeyschedBase(skey, key);
    for u := 0 to rounds + 1
      modifies comp
      invariant rounds > 0 ==>
                  forall v :: 0 <= v < u ==> comp[4 * v..4 * v + 4] == Compressed(RoundKey(key, v))
    {
      ghost var before := comp[..4 * u];
      Subkey(comp, u, skey[4 * u], skey[4 * u + 1], skey[4 * u + 2], skey[4 * u + 3]);
      if rounds > 0 {
        forall v | 0 <= v < u
          ensures comp[4 * v..4 * v + 4] == before[4 * v..4 * v + 4]
        {
          assert comp[4 * v..4 * v + 4] == comp[..4 * u][4 * v..4 * v + 4];
        }
      }
    }
  }

  /** AES_CTX */
  class Ctx {
    const sk: array<A.Word>
    const skExp: array<A.Word>
    var numRounds: nat

    ghost predicate Valid() {
      sk.Length == 60 && skExp.Length == 120 && sk != skExp
    }

    function Keys(): seq<R.State>
      requires Valid() && numRounds <= 14
      reads this, skExp
    {
      A.RoundKeys(skExp[..8 * (numRounds + 1)], numRounds)
    }

    /** The context holds the key schedule of `key`, on both lanes. */
    ghost predicate Keyed(key: Bytes)
      reads this, skExp
    {
      && Valid() && KeySize(|key|) && numRounds == RoundsFor(|key|)
      && R.Doubled(Keys()) && F.LaneKeys(Keys(), 0) == KeySchedule(key)
    }

    constructor ()
      ensures Valid() && fresh(sk) && fresh(skExp)
    {
      sk, skExp, numRounds := new A.Word[60], new A.Word[120], 0;
    }

    /** AES_Setkey */
    method Setkey(key: Bytes) returns (ret: int)
      requires Valid()
      modifies this, sk, skExp
      ensures ret == if KeySize(|key|) then 0 else -1
      ensures ret == 0 ==> Keyed(key)
    {
      hide RoundKey, Compressed, A.Expanded, A.RoundKeys, R.Doubled, F.LaneKeys;
      numRounds := Keysched(sk, key);
      if numRounds == 0 {
        return -1;
      }
      A.SkeyExpand(skExp, numRounds, sk);
      ghost var comp := sk[..4 * (numRounds + 1)];
      forall u | 0 <= u <= numRounds
        ensures comp[4 * u..4 * u + 4] == Compressed(RoundKey(key, u))
      {
        assert comp[4 * u..4 * u + 4] == sk[4 * u..4 * u + 4];
      }
      ScheduleIs(comp, numRounds, key);
      ret := 0;
    }

    /** AES_Encrypt_ECB and AES_Decrypt_ECB under a key: every block through the cipher of FIPS 197, also in place. */
    method EcbCrypt(enc: bool, src: array<bv8>, dst: array<bv8>, blocks: nat, ghost key: Bytes)
      requires Keyed(key) && 16 * blocks <= src.Length && 16 * blocks <= dst.Length
      modifies dst
      ensures forall i :: 0 <= i < blocks ==>
                dst[16 * i..16 * i + 16] == Fips(enc, key, old(src[16 * i..16 * i + 16]))
      ensures dst[16 * blocks..] == old(dst[16 * blocks..])
    {
      hide A.Ecb, F.Cipher, F.InvCipher, R.Doubled, F.LaneKeys, KeySchedule, A.RoundKeys;
      ghost var keys, p := Keys(), src[..16 * blocks];
      A.EcbCrypt(Keys(), numRounds, enc, src, dst, blocks);
      forall i | 0 <= i < blocks
        ensures dst[16 * i..16 * i + 16] == Fips(enc, key, old(src[16 * i..16 * i + 16]))
      {
        F.EcbIsFips(keys, numRounds, enc, p, blocks, i);
        assert p[16 * i..16 * i + 16] == old(src[16 * i..16 * i + 16]);
        assert dst[16 * i..16 * i + 16] == dst[..][16 * i..16 * i + 16];
      }
    }
  }

  /** Sections 5.1 to 5.3: the cipher or its inverse, under the expanded key. */
  ghost function Fips(enc: bool, key: Bytes, b: Bytes): (c: Bytes)
    requires KeySize(|key|) && |b| == 16
    ensures |c| == 16
  {
    if enc then F.Cipher(KeySchedule(key), RoundsFor(|key|), b) else F.InvCipher(KeySchedule(key), RoundsFor(|key|), b)
  }

  lemma ScheduleIs(comp: seq<A.Word>, n: nat, key: Bytes)
    requires KeySize(|key|) && n == RoundsFor(|key|) && |comp| == 4 * (n + 1)
    requires forall u :: 0 <= u <= n ==> comp[4 * u..4 * u + 4] == Compressed(RoundKey(key, u))
    ensures R.Doubled(A.RoundKeys(A.Expanded(comp), n))
    ensures F.LaneKeys(A.RoundKeys(A.Expanded(comp), n), 0) == KeySchedule(key)
  {
    hide RoundKey, Compressed, A.Expanded, A.RoundKeys, R.Doubled, A.Interleaved, A.Extracted;
    A.ExpandedIsDoubled(comp, n);
    var keys := A.RoundKeys(A.Expanded(comp), n);
    forall u | 0 <= u <= n
      ensures A.Extracted(keys[u], 0) == RoundKey(key, u)
    {
      ExpandedKey(comp, n, u, RoundKey(key, u));
      A.ExtractInterleaved(RoundKey(key, u), RoundKey(key, u));
    }
    assert |keys| == n + 1;
  }
}
