/** chachapoly.c: authenticated encryption as in section 2.8 of RFC 8439, with a 64-bit nonce. */
module ChachaPoly {
  import opened ByteStrings
  import opened LittleEndian
  import opened WordOps
  import opened Chacha
  import PolyLimbs
  import Poly1305

  // ---------- specification ----------

  /** "expand 32-byte k" */
  const SIGMA: Bytes := [0x65, 0x78, 0x70, 0x61, 0x6e, 0x64, 0x20, 0x33, 0x32, 0x2d, 0x62, 0x79, 0x74, 0x65, 0x20, 0x6b]

  /** chacha_keysetup and chacha_ivsetup without a counter. */
  function Setup(key: Bytes, nonce: nat): (x: seq<nat>)
    requires |key| == 32
    ensures Input(x) && Counter(x) == 0
  {
    var iv := ToLe(nonce, 8);
    [U32(SIGMA, 0), U32(SIGMA, 4), U32(SIGMA, 8), U32(SIGMA, 12),
     U32(key, 0), U32(key, 4), U32(key, 8), U32(key, 12), U32(key, 16), U32(key, 20), U32(key, 24), U32(key, 28),
     0, 0, U32(iv, 0), U32(iv, 4)]
  }

  function Zeros(n: nat): Bytes { seq(n, _ => 0) }

  /** The Poly1305 key comes from key block 0, the message is encrypted from key block 1 on. */
  function MacKey(core: Core, key: Bytes, nonce: nat): (k: Bytes)
    requires BlockFunction(core) && |key| == 32
    ensures |k| == 32
  {
    Crypt(core, Setup(key, nonce), Zeros(32))
  }

  function Stream(core: Core, key: Bytes, nonce: nat, m: Bytes): (c: Bytes)
    requires BlockFunction(core) && |key| == 32
    ensures |c| == |m|
  {
    Crypt(core, WithCounter(Setup(key, nonce), 1), m)
  }

  /** (0x10 - len) & 0xf */
  function Padding(len: nat): nat { (16 - len % 16) % 16 }

  function Padded(s: Bytes): (r: Bytes)
    ensures |r| % 16 == 0
  {
    s + Zeros(Padding(|s|))
  }

  /** What is authenticated: both strings padded to whole blocks, then their lengths. */
  function MacData(ad: Bytes, c: Bytes): Bytes {
    Padded(ad) + Padded(c) + ToLe(|ad|, 8) + ToLe(|c|, 8)
  }

  function TagBytes(core: Core, key: Bytes, nonce: nat, ad: Bytes, c: Bytes): (t: Bytes)
    requires BlockFunction(core) && |key| == 32
    ensures |t| == 16
  {
    ToLe(Poly1305.Tag(MacKey(core, key, nonce), MacData(ad, c)), 16)
  }

  /** Section 2.8: the ciphertext and its tag. */
  function Sealed(core: Core, key: Bytes, nonce: nat, ad: Bytes, p: Bytes): (s: Bytes)
    requires BlockFunction(core) && |key| == 32
    ensures |s| == |p| + 16
  {
    var c := Stream(core, key, nonce, p);
    c + TagBytes(core, key, nonce, ad, c)
  }

  datatype Option<T> = None | Some(value: T)

  function Opened(core: Core, key: Bytes, nonce: nat, ad: Bytes, s: Bytes): Option<Bytes>
    requires BlockFunction(core) && |key| == 32
  {
    if |s| < 16 then None else
      var c := s[..|s| - 16];
      if s[|s| - 16..] == TagBytes(core, key, nonce, ad, c) then Some(Stream(core, key, nonce, c)) else None
  }

  /** Opening what was sealed gives the plaintext. */
  lemma OpenUndoesSeal(core: Core, key: Bytes, nonce: nat, ad: Bytes, p: Bytes)
    requires BlockFunction(core) && |key| == 32
    ensures Opened(core, key, nonce, ad, Sealed(core, key, nonce, ad, p)) == Some(p)
  {
    hide TagBytes, Setup, Crypt;
    var c := Stream(core, key, nonce, p);
    var s := Sealed(core, key, nonce, ad, p);
    assert s[..|s| - 16] == c && s[|s| - 16..] == TagBytes(core, key, nonce, ad, c);
    CryptUndoes(core, WithCounter(Setup(key, nonce), 1), p);
  }

  /** Nothing else is opened: what gives a plaintext is that plaintext sealed. */
  lemma OpensOnlySealed(core: Core, key: Bytes, nonce: nat, ad: Bytes, s: Bytes, p: Bytes)
    requires BlockFunction(core) && |key| == 32
    ensures Opened(core, key, nonce, ad, s) == Some(p) <==> s == Sealed(core, key, nonce, ad, p)
  {
    hide TagBytes, Setup, Crypt;
    OpenUndoesSeal(core, key, nonce, ad, p);
    if Opened(core, key, nonce, ad, s) == Some(p) {
      var c := s[..|s| - 16];
      CryptUndoes(core, WithCounter(Setup(key, nonce), 1), c);
      assert Stream(core, key, nonce, p) == c && s == c + s[|s| - 16..];
    }
  }

  // ---------- what the definitions come to, in bytes ----------

  lemma Sigma(i: nat)
    requires i < 16
    ensures Val(SIGMA[i]) == "expand 32-byte k"[i] as int
  {
    if i < 8 {
      assert i == 0 || i == 1 || i == 2 || i == 3 || i == 4 || i == 5 || i == 6 || i == 7;
    } else {
      assert i == 8 || i == 9 || i == 10 || i == 11 || i == 12 || i == 13 || i == 14 || i == 15;
    }
  }

  /** Word j of a block of 64 bytes. */
  function WordAt(b: Bytes, j: nat): nat
    requires 4 * j + 4 <= |b|
  {
    Le(b[4 * j..4 * j + 4])
  }

  /** The input block: the constant, the key, the block counter and the nonce. */
  function InputBlock(key: Bytes, counter: nat, nonce: nat): (b: Bytes)
    requires |key| == 32
    ensures |b| == 64
  {
    SIGMA + key + ToLe(counter, 8) + ToLe(nonce, 8)
  }

  lemma WordIs(b: Bytes, j: nat)
    requires 4 * j + 4 <= |b|
    ensures WordAt(b, j) == U32(b, 4 * j)
  {
    hide Le, Val;
    LeStep4(b[4 * j..4 * j + 4]);
    LeEmpty();
    assert b[4 * j..4 * j + 4][4..] == [];
  }

  lemma ToLeParts(n: nat)
    ensures ToLe(n, 8) == U32Bytes(n) + U32Bytes(n / W32)
  {
    hide Byte, ToLe, U32Bytes;
    ToLeWord(n, 4);
    ToLeWord(n / W32, 0);
    assert ToLe(n / W32 / W32, 0) == [] by { NoBytes(n / W32 / W32); }
  }

  lemma NoBytes(n: nat)
    ensures ToLe(n, 0) == []
  {
  }

  lemma ToLeStep(n: nat, k: nat)
    ensures ToLe(n, k + 1) == [Byte(n)] + ToLe(n / 0x100, k)
  {
  }

  lemma ToLeWord(n: nat, k: nat)
    ensures ToLe(n, k + 4) == U32Bytes(n) + ToLe(n / W32, k)
  {
    hide Byte, ToLe;
    var a := n / 0x100;
    var b := a / 0x100;
    var c := b / 0x100;
    assert b == n / 0x1_0000 && c == n / 0x100_0000 && c / 0x100 == n / W32;
    ToLeStep(n, k + 3);
    ToLeStep(a, k + 2);
    ToLeStep(b, k + 1);
    ToLeStep(c, k);
  }

  lemma CounterWords(n: nat)
    ensures U32(ToLe(n, 8), 0) == n % W32 && U32(ToLe(n, 8), 4) == n / W32 % W32
  {
    hide U32Bytes, Val;
    ToLeParts(n);
    U32RoundTrip(n);
    U32RoundTrip(n / W32);
  }

  /** The words the block function is given are those of the input block. */
  lemma SetupIs(key: Bytes, nonce: nat, n: nat, j: nat)
    requires |key| == 32 && j < 16
    ensures WithCounter(Setup(key, nonce), n)[j] == WordAt(InputBlock(key, n, nonce), j)
  {
    hide Val, ToLe, SIGMA;
    var b := InputBlock(key, n, nonce);
    WordIs(b, j);
    CounterWords(n);
    BlockParts(key, n, nonce);
  }

  lemma BlockParts(key: Bytes, n: nat, nonce: nat)
    requires |key| == 32
    ensures |SIGMA| == 16
    ensures var b := InputBlock(key, n, nonce);
            && (forall i :: 0 <= i <= 12 ==> U32(b, i) == U32(SIGMA, i))
            && (forall i :: 0 <= i <= 28 ==> U32(b, 16 + i) == U32(key, i))
            && (forall i :: 0 <= i <= 4 ==> U32(b, 48 + i) == U32(ToLe(n, 8), i))
            && (forall i :: 0 <= i <= 4 ==> U32(b, 56 + i) == U32(ToLe(nonce, 8), i))
  {
    hide Val, ToLe;
  }

  function InputWords(key: Bytes, counter: nat, nonce: nat): (x: seq<nat>)
    requires |key| == 32
    ensures |x| == 16
  {
    seq(16, j requires 0 <= j < 16 => WordAt(InputBlock(key, counter, nonce), j))
  }

  lemma SetupWords(key: Bytes, nonce: nat, n: nat)
    requires |key| == 32
    ensures WithCounter(Setup(key, nonce), n) == InputWords(key, n, nonce)
  {
    hide Setup, WordAt, InputBlock;
    forall j | 0 <= j < 16
      ensures WithCounter(Setup(key, nonce), n)[j] == WordAt(InputBlock(key, n, nonce), j)
    {
      SetupIs(key, nonce, n, j);
    }
  }

  /** Byte i of the message meets byte i mod 64 of the block whose counter is 1 + i / 64. */
  lemma StreamIs(core: Core, key: Bytes, nonce: nat, m: Bytes, i: nat)
    requires BlockFunction(core) && |key| == 32 && i < |m|
    ensures |core(InputWords(key, 1 + i / 64, nonce))| == 64
    ensures Stream(core, key, nonce, m)[i] == m[i] ^ core(InputWords(key, 1 + i / 64, nonce))[i % 64]
  {
    hide Setup, InputWords;
    var x := WithCounter(Setup(key, nonce), 1);
    assert Counter(x) == 1;
    assert WithCounter(x, 1 + i / 64) == WithCounter(Setup(key, nonce), 1 + i / 64);
    SetupWords(key, nonce, 1 + i / 64);
  }

  /** The one-time key is the first half of the block whose counter is 0. */
  lemma MacKeyIs(core: Core, key: Bytes, nonce: nat)
    requires BlockFunction(core) && |key| == 32
    ensures |core(InputWords(key, 0, nonce))| == 64
    ensures MacKey(core, key, nonce) == core(InputWords(key, 0, nonce))[..32]
  {
    hide Setup, InputWords;
    var x := Setup(key, nonce);
    SameCounter(x);
    SetupWords(key, nonce, 0);
    assert forall i :: 0 <= i < 32 ==> MacKey(core, key, nonce)[i] == KeyBlock(core, x, 0)[i];
  }

  /** The first multiple of 16 that is not less than n. */
  function UpTo16(n: nat): nat { (n + 15) / 16 * 16 }

  /** Both strings begin at a multiple of 16 with zeros up to the next one, and two 64-bit lengths follow. */
  lemma MacDataIs(ad: Bytes, c: Bytes)
    requires |ad| < W64 && |c| < W64
    ensures var d, a, b := MacData(ad, c), UpTo16(|ad|), UpTo16(|ad|) + UpTo16(|c|);
            && |d| == b + 16 && |ad| <= a && a + |c| <= b
            && d[..|ad|] == ad && d[|ad|..a] == seq(a - |ad|, _ => 0)
            && d[a..a + |c|] == c && d[a + |c|..b] == seq(b - a - |c|, _ => 0)
            && Le(d[b..b + 8]) == |ad| && Le(d[b + 8..]) == |c|
  {
    hide Le, ToLe, UpTo16, Padding;
    PaddingFills(|ad|);
    PaddingFills(|c|);
    Length8(|ad|);
    Length8(|c|);
    SixParts(ad, Zeros(Padding(|ad|)), c, Zeros(Padding(|c|)), ToLe(|ad|, 8), ToLe(|c|, 8));
  }

  lemma SixParts(s: Bytes, y: Bytes, t: Bytes, z: Bytes, u: Bytes, v: Bytes)
    ensures var d, a, b := (s + y) + (t + z) + u + v, |s| + |y|, |s| + |y| + |t| + |z|;
            && d[..|s|] == s && d[|s|..a] == y && d[a..a + |t|] == t && d[a + |t|..b] == z
            && d[b..b + |u|] == u && d[b + |u|..] == v
  {
  }

  lemma PaddingFills(n: nat)
    ensures n + Padding(n) == UpTo16(n) && Padding(n) < 16
  {
  }

  lemma Length8(n: nat)
    requires n < W64
    ensures Le(ToLe(n, 8)) == n
  {
    hide Le, ToLe;
    assert Pow256(8) == W64;
    ToLeValue(n, 8);
  }

  /** What is sealed is the encrypted text and, in the last sixteen bytes, the tag of that text. */
  lemma SealedIs(core: Core, key: Bytes, nonce: nat, ad: Bytes, p: Bytes)
    requires BlockFunction(core) && |key| == 32
    ensures var s := Sealed(core, key, nonce, ad, p);
            && s[..|p|] == Stream(core, key, nonce, p)
            && Le(s[|p|..]) == Poly1305.Tag(MacKey(core, key, nonce), MacData(ad, s[..|p|]))
  {
    hide Stream, MacKey, MacData, Le, Poly1305.Tag, ToLe;
    var s, c := Sealed(core, key, nonce, ad, p), Stream(core, key, nonce, p);
    assert s[..|p|] == c && s[|p|..] == TagBytes(core, key, nonce, ad, c);
    TagFits(MacKey(core, key, nonce), MacData(ad, c));
    ToLeValue(Poly1305.Tag(MacKey(core, key, nonce), MacData(ad, c)), 16);
  }

  lemma TagFits(key: Bytes, m: Bytes)
    requires |key| == 32
    ensures Poly1305.Tag(key, m) < Pow256(16)
  {
    hide Le, Poly1305.Acc;
    assert Pow256(8) == W64;
    assert Pow256(16) == PolyLimbs.W128;
  }

  // ---------- what the code does with lengths: chacha_encrypt_bytes takes a 32-bit count ----------

  function Count32(n: nat): (r: nat)
    ensures r <= n
  {
    n % W32
  }

  /** The bytes of `dst` after the stream: those past the truncated length keep what they held. */
  function Body(core: Core, key: Bytes, nonce: nat, p: Bytes, d: Bytes): (c: Bytes)
    requires BlockFunction(core) && |key| == 32 && |p| <= |d|
    ensures |c| == |d|
  {
    Splice(d, 0, Stream(core, key, nonce, p[..Count32(|p|)]))
  }

  /** `dst` after chacha20poly1305_encrypt. */
  function AfterSeal(core: Core, key: Bytes, nonce: nat, ad: Bytes, p: Bytes, d: Bytes): Bytes
    requires BlockFunction(core) && |key| == 32 && |p| + 16 <= |d|
  {
    var c := Body(core, key, nonce, p, d);
    Splice(c, |p|, TagBytes(core, key, nonce, ad, c[..|p|]))
  }

  /** Below 2^32 bytes the code writes the standard's result; from there on the last byte is not encrypted. */
  lemma SealsExactlyBelow32Bits(core: Core, key: Bytes, nonce: nat, ad: Bytes, p: Bytes, d: Bytes)
    requires BlockFunction(core) && |key| == 32 && |p| + 16 <= |d|
    ensures |p| < W32 ==> AfterSeal(core, key, nonce, ad, p, d) == Splice(d, 0, Sealed(core, key, nonce, ad, p))
    ensures |p| >= W32 ==> AfterSeal(core, key, nonce, ad, p, d)[|p| - 1] == d[|p| - 1]
  {
    hide Stream, TagBytes;
    if |p| < W32 {
      SmallMod(|p|, W32);
      assert p[..|p|] == p;
      var c := Stream(core, key, nonce, p);
      assert Splice(d, 0, c)[..|p|] == c;
      SpliceAdjacent(d, 0, c, TagBytes(core, key, nonce, ad, c));
    }
  }

  /** `dst` after chacha20poly1305_decrypt. */
  function AfterOpen(core: Core, key: Bytes, nonce: nat, ad: Bytes, s: Bytes, d: Bytes): Bytes
    requires BlockFunction(core) && |key| == 32 && |s| <= |d| + 16
  {
    if Opened(core, key, nonce, ad, s).None? then d
    else Body(core, key, nonce, s[..|s| - 16], d)
  }

  /** A rejected text changes nothing; an accepted one of 2^32 bytes or more leaves the last byte as it was. */
  lemma OpensExactlyBelow32Bits(core: Core, key: Bytes, nonce: nat, ad: Bytes, s: Bytes, d: Bytes)
    requires BlockFunction(core) && |key| == 32 && |s| <= |d| + 16
    ensures match Opened(core, key, nonce, ad, s)
            case None => AfterOpen(core, key, nonce, ad, s, d) == d
            case Some(m) =>
              && (|m| < W32 ==> AfterOpen(core, key, nonce, ad, s, d) == Splice(d, 0, m))
              && (|m| >= W32 ==> AfterOpen(core, key, nonce, ad, s, d)[|m| - 1] == d[|m| - 1])
  {
    hide Stream, TagBytes;
    if |s| >= 16 && |s| - 16 < W32 {
      SmallMod(|s| - 16, W32);
      var c := s[..|s| - 16];
      assert c[..|c|] == c;
    }
  }

  /** Sealing into any buffer and opening into any other restores every plaintext of less than 2^32 bytes. */
  lemma OpenAfterSeal(core: Core, key: Bytes, nonce: nat, ad: Bytes, p: Bytes, d: Bytes, d': Bytes)
    requires BlockFunction(core) && |key| == 32 && |p| + 16 <= |d| && |p| <= |d'| && |p| < W32
    ensures |AfterSeal(core, key, nonce, ad, p, d)| == |d|
    ensures var s := AfterSeal(core, key, nonce, ad, p, d)[..|p| + 16];
            Opened(core, key, nonce, ad, s).Some? && AfterOpen(core, key, nonce, ad, s, d') == Splice(d', 0, p)
  {
    hide Opened, Sealed, AfterOpen;
    SealsExactlyBelow32Bits(core, key, nonce, ad, p, d);
    var s := Sealed(core, key, nonce, ad, p);
    assert Splice(d, 0, s)[..|p| + 16] == s;
    OpenUndoesSeal(core, key, nonce, ad, p);
    OpensExactlyBelow32Bits(core, key, nonce, ad, s, d');
  }

  lemma TagIs(core: Core, key: Bytes, nonce: nat, ad: Bytes, c: Bytes, mac: Bytes)
    requires BlockFunction(core) && |key| == 32 && |mac| == 16
    requires Le(mac) == Poly1305.Tag(MacKey(core, key, nonce), MacData(ad, c))
    ensures mac == TagBytes(core, key, nonce, ad, c)
  {
    hide Le, Poly1305.Tag, MacData, MacKey, ToLe;
    LeBound(mac);
    ToLeValue(Le(mac), 16);
    LeInjective(mac, ToLe(Le(mac), 16));
  }

  // ---------- the code ----------

  lemma FirstCounter(key: Bytes, nonce: nat)
    requires |key| == 32
    ensures WithCounter(Setup(key, nonce), Counter(Setup(key, nonce)) + BlocksFor(32))
            == WithCounter(Setup(key, nonce), 1)
  {
    hide Setup;
  }

  /** The key set-up and the additional data, common to both directions. */
  method Begin(core: Core, w: nat, key: Bytes, nonce: nat, ad: Bytes) returns (ctx: Ctx, poly: Poly1305.State)
    requires BlockFunction(core) && PolyLimbs.Word(w) && |key| == 32
    ensures fresh(ctx) && fresh(poly) && fresh(poly.buffer) && ctx.input == WithCounter(Setup(key, nonce), 1)
    ensures poly.Valid() && poly.key == MacKey(core, key, nonce) && poly.msg == Padded(ad)
  {
    hide Setup, Crypt, WithCounter, Counter, Poly1305.Holds, BlocksFor;
    ctx := new Ctx(Setup(key, nonce));
    var b0 := new bv8[32](_ => 0);
    assert b0[..] == b0[..32] == Zeros(32);
    FirstCounter(key, nonce);
    ctx.EncryptBytes(core, b0, b0, 32);
    assert b0[..] == MacKey(core, key, nonce);
    poly := new Poly1305.State(w, b0[..]);
    poly.Update(ad);
    poly.Update(Zeros(Padding(|ad|)));
    assert poly.msg == Padded(ad);
  }

  /** The ciphertext, the lengths, and the tag. */
  method End(core: Core, key: Bytes, nonce: nat, poly: Poly1305.State, ad: Bytes, c: Bytes) returns (mac: Bytes)
    requires BlockFunction(core) && |key| == 32
    requires poly.Valid() && poly.key == MacKey(core, key, nonce) && poly.msg == Padded(ad)
    modifies poly, poly.buffer
    ensures mac == TagBytes(core, key, nonce, ad, c)
  {
    hide MacKey, Poly1305.Holds, Poly1305.Tag, Padded, TagBytes;
    poly.Update(c);
    poly.Update(Zeros(Padding(|c|)));
    PaddedIs(c);
    assert poly.msg == Padded(ad) + Padded(c);
    poly.Update(ToLe(|ad|, 8) + ToLe(|c|, 8));
    assert poly.msg == MacData(ad, c);
    mac := poly.Finish();
    TagIs(core, key, nonce, ad, c, mac);
  }

  lemma PaddedIs(s: Bytes)
    ensures Padded(s) == s + Zeros(Padding(|s|))
  {
  }

  /** chacha20poly1305_encrypt; `dst` may be `src`. */
  method Seal(core: Core, w: nat, dst: array<bv8>, src: array<bv8>, srcLen: nat, ad: Bytes, nonce: nat, key: Bytes)
    requires BlockFunction(core) && PolyLimbs.Word(w) && |key| == 32
    requires srcLen <= src.Length && srcLen + 16 <= dst.Length
    modifies dst
    ensures dst[..] == AfterSeal(core, key, nonce, ad, old(src[..srcLen]), old(dst[..]))
  {
    hide Crypt, Setup, WithCounter, TagBytes, Splice, Padded, MacKey, BlocksFor, Counter, Count32;
    ghost var p := src[..srcLen];
    var ctx, poly := Begin(core, w, key, nonce, ad);
    assert p[..Count32(srcLen)] == src[..Count32(srcLen)];
    ctx.EncryptBytes(core, src, dst, Count32(srcLen));
    assert dst[..srcLen] == dst[..][..srcLen];
    var mac := End(core, key, nonce, poly, ad, dst[..srcLen]);
    Store(dst, srcLen, mac);
  }

  /** chacha20poly1305_decrypt: accepts exactly the right tags, and writes only then. */
  method Open(core: Core, w: nat, dst: array<bv8>, src: array<bv8>, srcLen: nat, ad: Bytes, nonce: nat, key: Bytes)
    returns (ok: bool)
    requires BlockFunction(core) && PolyLimbs.Word(w) && |key| == 32
    requires srcLen <= src.Length && srcLen <= dst.Length + 16
    modifies dst
    ensures ok == Opened(core, key, nonce, ad, old(src[..srcLen])).Some?
    ensures dst[..] == AfterOpen(core, key, nonce, ad, old(src[..srcLen]), old(dst[..]))
  {
    hide Crypt, Setup, WithCounter, TagBytes, Splice, Padded, MacKey, BlocksFor, Counter, Count32;
    if srcLen < 16 {
      return false;
    }
    ghost var s := src[..srcLen];
    var ctx, poly := Begin(core, w, key, nonce, ad);
    var dstLen := srcLen - 16;
    ghost var c := s[..dstLen];
    assert src[..dstLen] == c && src[dstLen..srcLen] == s[dstLen..];
    var mac := End(core, key, nonce, poly, ad, src[..dstLen]);
    ok := mac == src[dstLen..srcLen];
    if ok {
      assert src[..Count32(dstLen)] == c[..Count32(dstLen)];
      ctx.EncryptBytes(core, src, dst, Count32(dstLen));
    }
  }
}
