/** aes.c: two blocks at a time through the bitsliced cipher. */
module Aes {
  import opened Arith
  import opened BlockCiphers
  import opened ByteStrings
  import opened LittleEndian
  import opened AesBits
  import opened AesRounds

  // ---------- words ----------

  /** A 32-bit word, bit r at rank r. */
  type Word = w: seq<bool> | |w| == 32 witness seq(32, _ => false)

  type Slice = q: seq<Word> | |q| == 8 witness seq(8, _ => seq(32, _ => false))

  /** 0x55555555, 0x33333333 and 0x0f0f0f0f for s = 1, 2 and 4. */
  predicate LowMask(s: nat, r: nat) {
    if s == 1 then r % 2 == 0 else if s == 2 then r % 4 < 2 else r % 8 < 4
  }

  /** SWAPN: the first and the second word after it. */
  function SwapFirst(s: nat, x: Word, y: Word): Word {
    seq(32, r requires 0 <= r < 32 => (LowMask(s, r) && x[r]) || (r >= s && LowMask(s, r - s) && y[r - s]))
  }

  function SwapSecond(s: nat, x: Word, y: Word): Word {
    seq(32, r requires 0 <= r < 32 => (r + s < 32 && !LowMask(s, r + s) && x[r + s]) || (!LowMask(s, r) && y[r]))
  }

  /** SWAP2, SWAP4 and SWAP8 on the four pairs of words whose numbers differ by s. */
  function Layer(s: nat, q: Slice): Slice
    requires s == 1 || s == 2 || s == 4
  {
    seq(8, k requires 0 <= k < 8 =>
             if LowMask(s, k) then SwapFirst(s, q[k], q[k + s]) else SwapSecond(s, q[k - s], q[k]))
  }

  /** aes_ct_ortho */
  function Ortho(q: Slice): Slice { Layer(4, Layer(2, Layer(1, q))) }

  predicate Shift(s: nat) { s == 1 || s == 2 || s == 4 }

  lemma MaskNear(s: nat, r: nat)
    requires Shift(s)
    ensures LowMask(s, r) ==> !LowMask(s, r + s)
    ensures !LowMask(s, r) ==> r >= s && LowMask(s, r - s)
    ensures r >= s && LowMask(s, r - s) ==> !LowMask(s, r)
    ensures LowMask(s, r) && r < 32 ==> r + s < 32
    ensures LowMask(s, r) && r < 8 ==> r + s < 8
  {
    if s == 1 {
      Near1(r);
    } else if s == 2 {
      Near2(r);
    } else {
      Near4(r);
    }
  }

  lemma Near1(r: nat)
    ensures (r + 1) % 2 == 1 - r % 2 && (r >= 1 ==> (r - 1) % 2 == 1 - r % 2)
  {
  }

  lemma Near2(r: nat)
    ensures (r + 2) % 4 == (if r % 4 < 2 then r % 4 + 2 else r % 4 - 2)
    ensures r >= 2 ==> (r - 2) % 4 == (if r % 4 < 2 then r % 4 + 2 else r % 4 - 2)
  {
  }

  lemma Near4(r: nat)
    ensures (r + 4) % 8 == (if r % 8 < 4 then r % 8 + 4 else r % 8 - 4)
    ensures r >= 4 ==> (r - 4) % 8 == (if r % 8 < 4 then r % 8 + 4 else r % 8 - 4)
  {
  }

  /** Where a layer takes the bit of word k at rank r from. */
  lemma LayerAt(s: nat, q: Slice, k: nat, r: nat)
    requires Shift(s) && k < 8 && r < 32
    ensures LowMask(s, k) && !LowMask(s, r) ==> k + s < 8 && r >= s
    ensures !LowMask(s, k) && LowMask(s, r) ==> k >= s && r + s < 32
    ensures Layer(s, q)[k][r] == if LowMask(s, k) == LowMask(s, r) then q[k][r]
                                 else if LowMask(s, k) then q[k + s][r - s] else q[k - s][r + s]
  {
    hide LowMask;
    MaskNear(s, k);
    MaskNear(s, r);
    MaskNear(s, r + s);
  }

  /** Word 4a + 2b + c and rank 8i + 4d + 2e + f: each layer exchanges one bit of the two numbers. */
  lemma Layer4Bits(q: Slice, i: nat, a: nat, b: nat, c: nat, d: nat, e: nat, f: nat)
    requires i < 4 && a < 2 && b < 2 && c < 2 && d < 2 && e < 2 && f < 2
    ensures Layer(4, q)[4 * a + 2 * b + c][8 * i + 4 * d + 2 * e + f] == q[4 * d + 2 * b + c][8 * i + 4 * a + 2 * e + f]
  {
    hide Layer, LowMask;
    LayerAt(4, q, 4 * a + 2 * b + c, 8 * i + 4 * d + 2 * e + f);
    MaskBits(i, d, e, f);
    MaskBits(0, a, b, c);
  }

  lemma Layer2Bits(q: Slice, i: nat, a: nat, b: nat, c: nat, d: nat, e: nat, f: nat)
    requires i < 4 && a < 2 && b < 2 && c < 2 && d < 2 && e < 2 && f < 2
    ensures Layer(2, q)[4 * a + 2 * b + c][8 * i + 4 * d + 2 * e + f] == q[4 * a + 2 * e + c][8 * i + 4 * d + 2 * b + f]
  {
    hide Layer, LowMask;
    LayerAt(2, q, 4 * a + 2 * b + c, 8 * i + 4 * d + 2 * e + f);
    MaskBits(i, d, e, f);
    MaskBits(0, a, b, c);
  }

  lemma Layer1Bits(q: Slice, i: nat, a: nat, b: nat, c: nat, d: nat, e: nat, f: nat)
    requires i < 4 && a < 2 && b < 2 && c < 2 && d < 2 && e < 2 && f < 2
    ensures Layer(1, q)[4 * a + 2 * b + c][8 * i + 4 * d + 2 * e + f] == q[4 * a + 2 * b + f][8 * i + 4 * d + 2 * e + c]
  {
    hide Layer, LowMask;
    LayerAt(1, q, 4 * a + 2 * b + c, 8 * i + 4 * d + 2 * e + f);
    MaskBits(i, d, e, f);
    MaskBits(0, a, b, c);
  }

  lemma OrthoBits(q: Slice, i: nat, a: nat, b: nat, c: nat, d: nat, e: nat, f: nat)
    requires i < 4 && a < 2 && b < 2 && c < 2 && d < 2 && e < 2 && f < 2
    ensures Ortho(q)[4 * a + 2 * b + c][8 * i + 4 * d + 2 * e + f] == q[4 * d + 2 * e + f][8 * i + 4 * a + 2 * b + c]
  {
    hide Layer;
    Layer4Bits(Layer(2, Layer(1, q)), i, a, b, c, d, e, f);
    Layer2Bits(Layer(1, q), i, d, b, c, a, e, f);
    Layer1Bits(q, i, d, e, c, a, b, f);
  }

  lemma MaskBits(i: nat, a: nat, b: nat, c: nat)
    requires a < 2 && b < 2 && c < 2
    ensures var k := 8 * i + 4 * a + 2 * b + c;
            (LowMask(4, k) <==> a == 0) && (LowMask(2, k) <==> b == 0) && (LowMask(1, k) <==> c == 0)
  {
    var k := 8 * i + 4 * a + 2 * b + c;
    DivModUnique(k, i, 8, 4 * a + 2 * b + c);
    DivModUnique(k, 2 * i + a, 4, 2 * b + c);
    DivModUnique(k, 4 * i + 2 * a + b, 2, c);
  }

  /** Bit k of byte i of word j goes to bit j of byte i of word k: rows and columns are exchanged. */
  lemma OrthoAt(q: Slice, i: nat, j: nat, k: nat)
    requires i < 4 && j < 8 && k < 8
    ensures Ortho(q)[k][8 * i + j] == q[j][8 * i + k]
  {
    hide Ortho;
    OrthoBits(q, i, k / 4, k / 2 % 2, k % 2, j / 4, j / 2 % 2, j % 2);
  }

  /** aes_ct_ortho is its own inverse. */
  lemma OrthoUndoes(q: Slice)
    ensures Ortho(Ortho(q)) == q
  {
    hide Ortho;
    forall k | 0 <= k < 8
      ensures Ortho(Ortho(q))[k] == q[k]
    {
      forall r | 0 <= r < 32
        ensures Ortho(Ortho(q))[k][r] == q[k][r]
      {
        OrthoAt(Ortho(q), r / 8, r % 8, k);
        OrthoAt(q, r / 8, k, r % 8);
      }
    }
  }

  // ---------- loading and storing two blocks ----------

  function OctetOf(b: bv8): Octet {
    Octet(Has(b, 1), Has(b, 2), Has(b, 4), Has(b, 8), Has(b, 16), Has(b, 32), Has(b, 64), Has(b, 128))
  }

  function ByteOf(o: Octet): bv8 { FromBits(o.b0, o.b1, o.b2, o.b3, o.b4, o.b5, o.b6, o.b7) }

  function BitsOf(o: Octet): (w: seq<bool>)
    ensures |w| == 8
  {
    [o.b0, o.b1, o.b2, o.b3, o.b4, o.b5, o.b6, o.b7]
  }

  lemma ByteOfOctet(b: bv8)
    ensures ByteOf(OctetOf(b)) == b
  {
    LittleEndian.BitsOf(b);
  }

  lemma OctetOfByte(o: Octet)
    ensures OctetOf(ByteOf(o)) == o
  {
    hide FromBits, Has;
    HasFromBits(o.b0, o.b1, o.b2, o.b3, o.b4, o.b5, o.b6, o.b7, 0);
    HasFromBits(o.b0, o.b1, o.b2, o.b3, o.b4, o.b5, o.b6, o.b7, 1);
    HasFromBits(o.b0, o.b1, o.b2, o.b3, o.b4, o.b5, o.b6, o.b7, 2);
    HasFromBits(o.b0, o.b1, o.b2, o.b3, o.b4, o.b5, o.b6, o.b7, 3);
    HasFromBits(o.b0, o.b1, o.b2, o.b3, o.b4, o.b5, o.b6, o.b7, 4);
    HasFromBits(o.b0, o.b1, o.b2, o.b3, o.b4, o.b5, o.b6, o.b7, 5);
    HasFromBits(o.b0, o.b1, o.b2, o.b3, o.b4, o.b5, o.b6, o.b7, 6);
    HasFromBits(o.b0, o.b1, o.b2, o.b3, o.b4, o.b5, o.b6, o.b7, 7);
  }

  /** dec32le */
  function Dec32(s: Bytes, i: nat): Word
    requires i + 4 <= |s|
  {
    BitsOf(OctetOf(s[i])) + BitsOf(OctetOf(s[i + 1])) + BitsOf(OctetOf(s[i + 2])) + BitsOf(OctetOf(s[i + 3]))
  }

  lemma Dec32At(s: Bytes, i: nat, m: nat, k: nat)
    requires i + 4 <= |s| && m < 4 && k < 8
    ensures Dec32(s, i)[8 * m + k] == BitsOf(OctetOf(s[i + m]))[k]
  {
    hide OctetOf, BitsOf;
  }

  function OctetFrom(w: Word, m: nat): Octet
    requires m < 4
  {
    Octet(w[8 * m], w[8 * m + 1], w[8 * m + 2], w[8 * m + 3], w[8 * m + 4], w[8 * m + 5], w[8 * m + 6], w[8 * m + 7])
  }

  /** enc32le */
  function Enc32(w: Word): (s: Bytes)
    ensures |s| == 4
  {
    [ByteOf(OctetFrom(w, 0)), ByteOf(OctetFrom(w, 1)), ByteOf(OctetFrom(w, 2)), ByteOf(OctetFrom(w, 3))]
  }

  /** The words of the first block in q[0], q[2], q[4], q[6], those of the second in the others. */
  function Loaded(a: Bytes, b: Bytes): Slice
    requires |a| == |b| == 16
  {
    [Dec32(a, 0), Dec32(b, 0), Dec32(a, 4), Dec32(b, 4), Dec32(a, 8), Dec32(b, 8), Dec32(a, 12), Dec32(b, 12)]
  }

  function OctetsOf(q: Slice): State {
    seq(RANKS, r requires 0 <= r < RANKS =>
                 Octet(q[0][r], q[1][r], q[2][r], q[3][r], q[4][r], q[5][r], q[6][r], q[7][r]))
  }

  function WordsOf(s: State): Slice {
    [seq(32, r requires 0 <= r < 32 => s[r].b0), seq(32, r requires 0 <= r < 32 => s[r].b1),
     seq(32, r requires 0 <= r < 32 => s[r].b2), seq(32, r requires 0 <= r < 32 => s[r].b3),
     seq(32, r requires 0 <= r < 32 => s[r].b4), seq(32, r requires 0 <= r < 32 => s[r].b5),
     seq(32, r requires 0 <= r < 32 => s[r].b6), seq(32, r requires 0 <= r < 32 => s[r].b7)]
  }

  /** Row i of word j: a byte of the first block when j is even, of the second when it is odd. */
  function Source(a: Bytes, b: Bytes, i: nat, j: nat): bv8
    requires |a| == |b| == 16 && i < 4 && j < 8
  {
    if j % 2 == 0 then a[4 * (j / 2) + i] else b[4 * (j / 2) + i]
  }

  /** Row i, column c of the two blocks are at ranks 8 i + 2 c and 8 i + 2 c + 1. */
  function Interleaved(a: Bytes, b: Bytes): State
    requires |a| == |b| == 16
  {
    seq(RANKS, r requires 0 <= r < RANKS => OctetOf(Source(a, b, r / 8, r % 8)))
  }

  /** The block on the lane of parity p. */
  function Extracted(s: State, p: nat): (b: Bytes)
    requires p < 2
    ensures |b| == 16
  {
    seq(16, m requires 0 <= m < 16 => ByteOf(s[8 * (m % 4) + 2 * (m / 4) + p]))
  }

  lemma LoadAt(a: Bytes, b: Bytes, i: nat, j: nat, k: nat)
    requires |a| == |b| == 16 && i < 4 && j < 8 && k < 8
    ensures Ortho(Loaded(a, b))[k][8 * i + j] == BitsOf(OctetOf(Source(a, b, i, j)))[k]
  {
    hide Ortho, Dec32, OctetOf, BitsOf;
    OrthoAt(Loaded(a, b), i, j, k);
    Dec32At(if j % 2 == 0 then a else b, 4 * (j / 2), i, k);
  }

  lemma LoadRank(a: Bytes, b: Bytes, i: nat, j: nat)
    requires |a| == |b| == 16 && i < 4 && j < 8
    ensures OctetsOf(Ortho(Loaded(a, b)))[8 * i + j] == OctetOf(Source(a, b, i, j))
  {
    hide Ortho, Loaded, OctetOf, Source;
    LoadAt(a, b, i, j, 0);
    LoadAt(a, b, i, j, 1);
    LoadAt(a, b, i, j, 2);
    LoadAt(a, b, i, j, 3);
    LoadAt(a, b, i, j, 4);
    LoadAt(a, b, i, j, 5);
    LoadAt(a, b, i, j, 6);
    LoadAt(a, b, i, j, 7);
  }

  /** After aes_ct_ortho every rank holds one byte of one block. */
  lemma LoadInterleaves(a: Bytes, b: Bytes)
    requires |a| == |b| == 16
    ensures OctetsOf(Ortho(Loaded(a, b))) == Interleaved(a, b)
  {
    hide Ortho, Loaded, OctetOf, OctetsOf, Source;
    forall r | 0 <= r < RANKS
      ensures OctetsOf(Ortho(Loaded(a, b)))[r] == Interleaved(a, b)[r]
    {
      LoadRank(a, b, r / 8, r % 8);
      assert 8 * (r / 8) + r % 8 == r;
    }
  }

  lemma WordsAt(s: State, k: nat, r: nat)
    requires k < 8 && r < 32
    ensures WordsOf(s)[k][r] == BitsOf(s[r])[k]
  {
  }

  lemma StoreBit(s: State, j: nat, i: nat, k: nat)
    requires j < 8 && i < 4 && k < 8
    ensures Ortho(WordsOf(s))[j][8 * i + k] == BitsOf(s[8 * i + j])[k]
  {
    hide Ortho, WordsOf, BitsOf;
    OrthoAt(WordsOf(s), i, k, j);
    WordsAt(s, k, 8 * i + j);
  }

  lemma StoreAt(s: State, j: nat, i: nat)
    requires j < 8 && i < 4
    ensures OctetFrom(Ortho(WordsOf(s))[j], i) == s[8 * i + j]
  {
    hide Ortho, WordsOf;
    StoreBit(s, j, i, 0);
    StoreBit(s, j, i, 1);
    StoreBit(s, j, i, 2);
    StoreBit(s, j, i, 3);
    StoreBit(s, j, i, 4);
    StoreBit(s, j, i, 5);
    StoreBit(s, j, i, 6);
    StoreBit(s, j, i, 7);
  }

  /** Lines 695-703: the words of one lane, written out. */
  function Stored(q: Slice, p: nat): (b: Bytes)
    requires p < 2
    ensures |b| == 16
  {
    Enc32(q[p]) + Enc32(q[2 + p]) + Enc32(q[4 + p]) + Enc32(q[6 + p])
  }

  lemma StoredAt(q: Slice, p: nat, c: nat, i: nat)
    requires p < 2 && c < 4 && i < 4
    ensures Stored(q, p)[4 * c + i] == Enc32(q[2 * c + p])[i]
  {
    hide Enc32;
  }

  lemma Enc32At(w: Word, i: nat)
    requires i < 4
    ensures Enc32(w)[i] == ByteOf(OctetFrom(w, i))
  {
    hide ByteOf, OctetFrom;
  }

  lemma StoreExtracts(s: State, p: nat)
    requires p < 2
    ensures Stored(Ortho(WordsOf(s)), p) == Extracted(s, p)
  {
    hide Ortho, WordsOf, Stored, ByteOf, OctetFrom, Enc32;
    forall m | 0 <= m < 16
      ensures Stored(Ortho(WordsOf(s)), p)[m] == Extracted(s, p)[m]
    {
      var c, i := m / 4, m % 4;
      assert 4 * c + i == m;
      StoredAt(Ortho(WordsOf(s)), p, c, i);
      Enc32At(Ortho(WordsOf(s))[2 * c + p], i);
      StoreAt(s, 2 * c + p, i);
    }
  }

  // ---------- one block ----------

  function Crypted(keys: seq<State>, n: nat, enc: bool, s: State): State
    requires 0 < n < |keys|
  {
    if enc then Encrypted(keys, n, s) else Decrypted(keys, n, s)
  }

  function Zeros(): (b: Bytes)
    ensures |b| == 16
  {
    seq(16, _ => 0)
  }

  /** AES_Encrypt and AES_Decrypt: one block, with nothing beside it. */
  function Block(keys: seq<State>, n: nat, enc: bool, b: Bytes): (c: Bytes)
    requires 0 < n < |keys| && |b| == 16
    ensures |c| == 16
  {
    Extracted(Crypted(keys, n, enc, Interleaved(b, Zeros())), 0)
  }

  lemma ExtractedAgree(p: nat, s: State, t: State)
    requires p < 2 && Agree(p, s, t)
    ensures Extracted(s, p) == Extracted(t, p)
  {
    hide ByteOf;
    forall m | 0 <= m < 16
      ensures Extracted(s, p)[m] == Extracted(t, p)[m]
    {
      assert (8 * (m % 4) + 2 * (m / 4) + p) % 2 == p;
    }
  }

  lemma SourceOfFirst(a: Bytes, b: Bytes, c: Bytes, r: nat)
    requires |a| == |b| == |c| == 16 && r < RANKS && r % 2 == 0
    ensures Source(a, b, r / 8, r % 8) == Source(a, c, r / 8, r % 8)
  {
  }

  lemma InterleavedAgree(a: Bytes, b: Bytes, c: Bytes)
    requires |a| == |b| == |c| == 16
    ensures Agree(0, Interleaved(a, b), Interleaved(a, c))
  {
    hide Source, OctetOf;
    forall r | 0 <= r < RANKS && r % 2 == 0
      ensures Interleaved(a, b)[r] == Interleaved(a, c)[r]
    {
      SourceOfFirst(a, b, c, r);
    }
  }

  lemma SourceOfTwins(a: Bytes, b: Bytes, r: nat)
    requires |a| == |b| == 16 && r < RANKS
    ensures Twin(r) < RANKS && Source(a, b, Twin(r) / 8, Twin(r) % 8) == Source(b, a, r / 8, r % 8)
  {
    var t := Twin(r);
    assert t / 8 == r / 8 && t % 8 / 2 == r % 8 / 2;
    assert t % 8 % 2 != r % 8 % 2;
  }

  lemma InterleavedSwap(a: Bytes, b: Bytes)
    requires |a| == |b| == 16
    ensures SwapLanes(Interleaved(a, b)) == Interleaved(b, a)
  {
    hide Source, OctetOf, Twin;
    forall r | 0 <= r < RANKS
      ensures SwapLanes(Interleaved(a, b))[r] == Interleaved(b, a)[r]
    {
      SourceOfTwins(a, b, r);
    }
  }

  lemma ExtractedSwap(s: State)
    ensures Extracted(SwapLanes(s), 0) == Extracted(s, 1)
  {
    hide ByteOf;
    forall m | 0 <= m < 16
      ensures Extracted(SwapLanes(s), 0)[m] == Extracted(s, 1)[m]
    {
      assert Twin(8 * (m % 4) + 2 * (m / 4)) == 8 * (m % 4) + 2 * (m / 4) + 1;
    }
  }

  lemma CryptedAgree(keys: seq<State>, n: nat, enc: bool, s: State, t: State)
    requires 0 < n < |keys| && Agree(0, s, t)
    ensures Extracted(Crypted(keys, n, enc, s), 0) == Extracted(Crypted(keys, n, enc, t), 0)
  {
    hide Encrypted, Decrypted, Agree, Extracted;
    LanesDoNotInterfere(0, keys, n, s, t);
    ExtractedAgree(0, Crypted(keys, n, enc, s), Crypted(keys, n, enc, t));
  }

  /** With an expanded key, two blocks at once give what each gives alone. */
  lemma TwoAtOnce(keys: seq<State>, n: nat, enc: bool, a: Bytes, b: Bytes)
    requires 0 < n < |keys| && Doubled(keys) && |a| == |b| == 16
    ensures Extracted(Crypted(keys, n, enc, Interleaved(a, b)), 0) == Block(keys, n, enc, a)
    ensures Extracted(Crypted(keys, n, enc, Interleaved(a, b)), 1) == Block(keys, n, enc, b)
  {
    hide Encrypted, Decrypted, Agree, Extracted, Interleaved, SwapLanes, Doubled;
    InterleavedAgree(a, b, Zeros());
    CryptedAgree(keys, n, enc, Interleaved(a, b), Interleaved(a, Zeros()));
    InterleavedSwap(a, b);
    LanesDoTheSame(keys, n, Interleaved(a, b));
    ExtractedSwap(Crypted(keys, n, enc, Interleaved(a, b)));
    InterleavedAgree(b, a, Zeros());
    CryptedAgree(keys, n, enc, Interleaved(b, a), Interleaved(b, Zeros()));
  }

  lemma ExtractInterleaved(a: Bytes, b: Bytes)
    requires |a| == |b| == 16
    ensures Extracted(Interleaved(a, b), 0) == a
  {
    hide ByteOf, OctetOf, Source;
    forall m | 0 <= m < 16
      ensures Extracted(Interleaved(a, b), 0)[m] == a[m]
    {
      SourceAt(a, b, m);
      ByteOfOctet(a[m]);
    }
  }

  lemma SourceAt(a: Bytes, b: Bytes, m: nat)
    requires |a| == |b| == 16 && m < 16
    ensures var r := 8 * (m % 4) + 2 * (m / 4);
            r < RANKS && Source(a, b, r / 8, r % 8) == a[m]
  {
    var r := 8 * (m % 4) + 2 * (m / 4);
    assert r / 8 == m % 4 && r % 8 == 2 * (m / 4);
  }

  lemma RankOf(r: nat)
    requires r < RANKS && r % 2 == 0
    ensures var m := 4 * (r % 8 / 2) + r / 8;
            m < 16 && 8 * (m % 4) + 2 * (m / 4) == r
  {
  }

  lemma InterleaveExtracted(s: State, b: Bytes)
    requires |b| == 16
    ensures Agree(0, Interleaved(Extracted(s, 0), b), s)
  {
    hide ByteOf, OctetOf, Source;
    forall r | 0 <= r < RANKS && r % 2 == 0
      ensures Interleaved(Extracted(s, 0), b)[r] == s[r]
    {
      var m := 4 * (r % 8 / 2) + r / 8;
      RankOf(r);
      SourceAt(Extracted(s, 0), b, m);
      OctetOfByte(s[r]);
    }
  }

  /** Decrypting an encrypted block restores it, with any key. */
  lemma BlockUndone(keys: seq<State>, n: nat, b: Bytes)
    requires 0 < n < |keys| && |b| == 16
    ensures Block(keys, n, false, Block(keys, n, true, b)) == b
  {
    hide Encrypted, Decrypted, Agree, Extracted, Interleaved;
    var s := Interleaved(b, Zeros());
    var e := Encrypted(keys, n, s);
    InterleaveExtracted(e, Zeros());
    CryptedAgree(keys, n, false, Interleaved(Extracted(e, 0), Zeros()), e);
    DecryptUndoesEncrypt(keys, n, s);
    ExtractInterleaved(b, Zeros());
  }

  /** AES as a parameter of the modes built on it. */
  function AesCipher(keys: seq<State>, n: nat, enc: bool): Cipher
    requires 0 < n < |keys|
  {
    (b: Bytes) => if |b| == 16 then Block(keys, n, enc, b) else b
  }

  lemma AesIsInvertible(keys: seq<State>, n: nat)
    requires 0 < n < |keys|
    ensures Undoes(AesCipher(keys, n, false), AesCipher(keys, n, true))
  {
    hide Block;
    forall b: Bytes | |b| == 16
      ensures AesCipher(keys, n, false)(AesCipher(keys, n, true)(b)) == b
    {
      BlockUndone(keys, n, b);
    }
  }

  // ---------- many blocks ----------

  function Ecb(keys: seq<State>, n: nat, enc: bool, p: Bytes, k: nat): (c: Bytes)
    requires 0 < n < |keys| && |p| == 16 * k
    ensures |c| == |p|
  {
    if k == 0 then [] else Ecb(keys, n, enc, p[..16 * (k - 1)], k - 1) + Block(keys, n, enc, p[16 * (k - 1)..])
  }

  lemma EcbMore(keys: seq<State>, n: nat, enc: bool, p: Bytes, k: nat, b: Bytes)
    requires 0 < n < |keys| && |p| == 16 * k && |b| == 16
    ensures Ecb(keys, n, enc, p + b, k + 1) == Ecb(keys, n, enc, p, k) + Block(keys, n, enc, b)
  {
    hide Block;
    assert (p + b)[..16 * k] == p && (p + b)[16 * k..] == b;
  }

  /** AES_Decrypt_ECB undoes AES_Encrypt_ECB, for every number of blocks. */
  lemma {:induction false} EcbUndone(keys: seq<State>, n: nat, p: Bytes, k: nat)
    requires 0 < n < |keys| && |p| == 16 * k
    ensures Ecb(keys, n, false, Ecb(keys, n, true, p, k), k) == p
  {
    hide Block;
    if k > 0 {
      var q, b := p[..16 * (k - 1)], p[16 * (k - 1)..];
      EcbUndone(keys, n, q, k - 1);
      BlockUndone(keys, n, b);
      EcbMore(keys, n, false, Ecb(keys, n, true, q, k - 1), k - 1, Block(keys, n, true, b));
      assert p == q + b;
    }
  }

  // ---------- the expanded key ----------

  /** x &= 0x55555555, x | (x << 1): the even bits on both lanes. */
  function ExpandEven(w: Word): Word {
    seq(32, r requires 0 <= r < 32 => (r % 2 == 0 && w[r]) || (r >= 1 && (r - 1) % 2 == 0 && w[r - 1]))
  }

  /** y &= 0xaaaaaaaa, y | (y >> 1): the odd bits on both lanes. */
  function ExpandOdd(w: Word): Word {
    seq(32, r requires 0 <= r < 32 => (r % 2 == 1 && w[r]) || (r + 1 < 32 && (r + 1) % 2 == 1 && w[r + 1]))
  }

  function Expanded(comp: seq<Word>): (e: seq<Word>)
    ensures |e| == 2 * |comp|
  {
    if comp == [] then [] else
      var last := comp[|comp| - 1];
      Expanded(comp[..|comp| - 1]) + [ExpandEven(last), ExpandOdd(last)]
  }

  /** aes_ct_skey_expand */
  method SkeyExpand(skey: array<Word>, n: nat, comp: array<Word>)
    requires 4 * (n + 1) <= comp.Length && 8 * (n + 1) <= skey.Length && comp != skey
    modifies skey
    ensures skey[..8 * (n + 1)] == Expanded(comp[..4 * (n + 1)])
  {
    hide Expanded, ExpandEven, ExpandOdd;
    var u: nat, v: nat := 0, 0;
    ExpandedNothing();
    assert comp[..0] == [];
    while u < 4 * (n + 1)
      invariant u <= 4 * (n + 1) && v == 2 * u
      invariant skey[..v] == Expanded(comp[..u])
    {
      skey[v] := ExpandEven(comp[u]);
      skey[v + 1] := ExpandOdd(comp[u]);
      ExpandedMore(comp[..u], comp[u]);
      assert comp[..u + 1] == comp[..u] + [comp[u]];
      u, v := u + 1, v + 2;
    }
  }

  lemma ExpandedNothing()
    ensures Expanded([]) == []
  {
  }

  lemma ExpandedMore(c: seq<Word>, w: Word)
    ensures Expanded(c + [w]) == Expanded(c) + [ExpandEven(w), ExpandOdd(w)]
  {
    hide ExpandEven, ExpandOdd;
    assert (c + [w])[..|c|] == c;
  }

  /** The words of round u, as octets. */
  function RoundKeys(skey: seq<Word>, n: nat): (keys: seq<State>)
    requires |skey| == 8 * (n + 1)
    ensures |keys| == n + 1
  {
    seq(n + 1, u requires 0 <= u < n + 1 => OctetsOf(skey[8 * u..8 * u + 8]))
  }

  ghost predicate BothLanes(w: Word) {
    forall r :: 0 <= r < 32 ==> 0 <= Twin(r) < 32 && w[Twin(r)] == w[r]
  }

  lemma ExpandBothLanes(w: Word)
    ensures BothLanes(ExpandEven(w)) && BothLanes(ExpandOdd(w))
  {
  }

  lemma {:induction false} ExpandedBothLanes(c: seq<Word>, i: nat)
    requires i < 2 * |c|
    ensures BothLanes(Expanded(c)[i])
  {
    hide BothLanes, ExpandEven, ExpandOdd;
    var last := c[|c| - 1];
    ExpandBothLanes(last);
    if i < 2 * (|c| - 1) {
      ExpandedBothLanes(c[..|c| - 1], i);
    }
  }

  lemma OctetsBothLanes(q: Slice)
    requires forall k :: 0 <= k < 8 ==> BothLanes(q[k])
    ensures SwapLanes(OctetsOf(q)) == OctetsOf(q)
  {
    hide Twin;
    forall r | 0 <= r < RANKS
      ensures SwapLanes(OctetsOf(q))[r] == OctetsOf(q)[r]
    {
      assert BothLanes(q[0]) && BothLanes(q[1]) && BothLanes(q[2]) && BothLanes(q[3]);
      assert BothLanes(q[4]) && BothLanes(q[5]) && BothLanes(q[6]) && BothLanes(q[7]);
    }
  }

  /** Every expanded key holds each subkey on both lanes. */
  lemma ExpandedIsDoubled(comp: seq<Word>, n: nat)
    requires |comp| == 4 * (n + 1)
    ensures Doubled(RoundKeys(Expanded(comp), n))
  {
    hide BothLanes, Expanded, OctetsOf, SwapLanes;
    var e := Expanded(comp);
    forall u | 0 <= u < n + 1
      ensures SwapLanes(RoundKeys(e, n)[u]) == RoundKeys(e, n)[u]
    {
      var q := e[8 * u..8 * u + 8];
      forall k | 0 <= k < 8
        ensures BothLanes(q[k])
      {
        ExpandedBothLanes(comp, 8 * u + k);
      }
      OctetsBothLanes(q);
    }
  }

  // ---------- the code ----------

  /** aes_ct_bitslice_encrypt */
  method BitsliceEncrypt(n: nat, keys: seq<State>, s: State) returns (q: State)
    requires 0 < n < |keys|
    ensures q == Encrypted(keys, n, s)
  {
    hide SubBytes, ShiftRows, MixColumns, AddRoundKey;
    q := AddRoundKey(s, keys[0]);
    for u := 1 to n
      invariant q == Rounds(keys, u - 1, s)
    {
      q := SubBytes(q);
      q := ShiftRows(q);
      q := MixColumns(q);
      q := AddRoundKey(q, keys[u]);
    }
    q := SubBytes(q);
    q := ShiftRows(q);
    q := AddRoundKey(q, keys[n]);
  }

  /** aes_ct_bitslice_decrypt */
  method BitsliceDecrypt(n: nat, keys: seq<State>, s: State) returns (q: State)
    requires 0 < n < |keys|
    ensures q == Decrypted(keys, n, s)
  {
    hide InvSubBytes, InvShiftRows, InvMixColumns, AddRoundKey;
    q := AddRoundKey(s, keys[n]);
    var u := n - 1;
    ghost var t := q;
    while u > 0
      invariant 0 <= u < n && Unrounds(keys, u, q) == Unrounds(keys, n - 1, t)
    {
      q := InvShiftRows(q);
      q := InvSubBytes(q);
      q := AddRoundKey(q, keys[u]);
      q := InvMixColumns(q);
      u := u - 1;
    }
    q := InvShiftRows(q);
    q := InvSubBytes(q);
    q := AddRoundKey(q, keys[0]);
  }

  /** Two blocks through words, transposition, cipher and back. */
  method CryptPair(keys: seq<State>, n: nat, enc: bool, a: Bytes, b: Bytes) returns (c: Bytes, d: Bytes)
    requires 0 < n < |keys| && Doubled(keys) && |a| == |b| == 16
    ensures c == Block(keys, n, enc, a) && d == Block(keys, n, enc, b)
  {
    hide Ortho, Loaded, OctetsOf, WordsOf, Stored, Extracted, Interleaved, Encrypted, Decrypted, Doubled;
    var q := Ortho(Loaded(a, b));
    var s := OctetsOf(q);
    LoadInterleaves(a, b);
    if enc {
      s := BitsliceEncrypt(n, keys, s);
    } else {
      s := BitsliceDecrypt(n, keys, s);
    }
    q := Ortho(WordsOf(s));
    c, d := Stored(q, 0), Stored(q, 1);
    StoreExtracts(s, 0);
    StoreExtracts(s, 1);
    TwoAtOnce(keys, n, enc, a, b);
  }

  /** One pass of the loop: two blocks, or the last one with zeros beside it. */
  method Pass(keys: seq<State>, n: nat, enc: bool, src: array<bv8>, dst: array<bv8>, at: nat, left: nat)
    returns (m: nat)
    requires 0 < n < |keys| && Doubled(keys) && left > 0
    requires at + 16 * left <= src.Length && at + 16 * left <= dst.Length
    modifies dst
    ensures m == (if left > 1 then 2 else 1) && src[at + 16 * m..] == old(src[at + 16 * m..])
    ensures dst[..] == PassSpec(keys, n, enc, old(src[..]), old(dst[..]), at, m)
  {
    hide Block, Splice, Doubled;
    if left > 1 {
      var x, y := CryptPair(keys, n, enc, src[at..at + 16], src[at + 16..at + 32]);
      assert src[at..at + 16] == src[..][at..at + 16] && src[at + 16..at + 32] == src[..][at + 16..at + 32];
      assert src[at + 32..] == src[at + 16..][16..];
      Store(dst, at, x);
      assert src[at + 32..] == src[at + 16..][16..];
      Store(dst, at + 16, y);
      m := 2;
    } else {
      var x, _ := CryptPair(keys, n, enc, src[at..at + 16], Zeros());
      assert src[at..at + 16] == src[..][at..at + 16];
      Store(dst, at, x);
      m := 1;
    }
  }

  ghost function PassSpec(keys: seq<State>, n: nat, enc: bool, s: Bytes, d: Bytes, at: nat, m: nat): Bytes
    requires 0 < n < |keys| && (m == 1 || m == 2) && at + 16 * m <= |s| && at + 16 * m <= |d|
  {
    var e := Splice(d, at, Block(keys, n, enc, s[at..at + 16]));
    if m == 1 then e else Splice(e, at + 16, Block(keys, n, enc, s[at + 16..at + 32]))
  }

  /** A pass writes the same when the blocks before it have been overwritten. */
  lemma PassContinues(keys: seq<State>, n: nat, enc: bool, s: Bytes, t: Bytes, d: Bytes, k: nat, m: nat)
    requires 0 < n < |keys| && (m == 1 || m == 2) && 16 * (k + m) <= |s| == |t| && 16 * (k + m) <= |d|
    requires s[16 * k..] == t[16 * k..]
    ensures PassSpec(keys, n, enc, t, Splice(d, 0, Ecb(keys, n, enc, s[..16 * k], k)), 16 * k, m)
         == Splice(d, 0, Ecb(keys, n, enc, s[..16 * (k + m)], k + m))
  {
    hide Block, Ecb, Splice;
    assert t[16 * k..16 * k + 16] == t[16 * k..][..16] == s[16 * k..16 * k + 16];
    EcbStep(keys, n, enc, d, s, k);
    if m == 2 {
      assert t[16 * k + 16..16 * k + 32] == t[16 * k..][16..32] == s[16 * k + 16..16 * k + 32];
      EcbStep(keys, n, enc, d, s, k + 1);
    }
  }

  /** AES_Encrypt_ECB and AES_Decrypt_ECB, which differ in the cipher they call; `dst` may be `src`. */
  method EcbCrypt(keys: seq<State>, n: nat, enc: bool, src: array<bv8>, dst: array<bv8>, blocks: nat)
    requires 0 < n < |keys| && Doubled(keys) && 16 * blocks <= src.Length && 16 * blocks <= dst.Length
    modifies dst
    ensures dst[..] == Splice(old(dst[..]), 0, Ecb(keys, n, enc, old(src[..16 * blocks]), blocks))
  {
    hide Block, Ecb, Splice, Doubled, PassSpec;
    ghost var s, d := src[..], dst[..];
    var left: nat, at: nat := blocks, 0;
    ghost var k: nat := 0;
    EcbNothing(keys, n, enc);
    SpliceNothing(d, 0);
    assert s[..0] == [] && s[0..] == s == src[0..];
    while left > 0
      invariant k + left == blocks && at == 16 * k && src[at..] == s[at..]
      invariant dst[..] == Splice(d, 0, Ecb(keys, n, enc, s[..at], k))
    {
      PassContinues(keys, n, enc, s, src[..], d, k, if left > 1 then 2 else 1);
      ghost var t := src[at..];
      var m := Pass(keys, n, enc, src, dst, at, left);
      assert s[at + 16 * m..] == t[16 * m..];
      at, left, k := at + 16 * m, left - m, k + m;
    }
  }

  lemma EcbNothing(keys: seq<State>, n: nat, enc: bool)
    requires 0 < n < |keys|
    ensures Ecb(keys, n, enc, [], 0) == []
  {
  }

  lemma EcbStep(keys: seq<State>, n: nat, enc: bool, d: Bytes, p: Bytes, k: nat)
    requires 0 < n < |keys| && 16 * k + 16 <= |p| && 16 * k + 16 <= |d|
    ensures Splice(Splice(d, 0, Ecb(keys, n, enc, p[..16 * k], k)), 16 * k, Block(keys, n, enc, p[16 * k..16 * k + 16]))
         == Splice(d, 0, Ecb(keys, n, enc, p[..16 * k + 16], k + 1))
  {
    hide Block, Ecb, Splice;
    var b := p[16 * k..16 * k + 16];
    EcbMore(keys, n, enc, p[..16 * k], k, b);
    assert p[..16 * k] + b == p[..16 * k + 16];
    SpliceAdjacent(d, 0, Ecb(keys, n, enc, p[..16 * k], k), Block(keys, n, enc, b));
  }
}
