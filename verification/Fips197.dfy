/** The bitsliced AES of aes.c is the cipher of FIPS 197, written here on bytes and without the circuits. */
module Fips197 {
  import opened AesBits
  import opened Arith
  import opened ByteStrings
  import opened LittleEndian
  import R = AesRounds
  import A = Aes

  // ---------- the S-box ----------

  /** x is the multiplicative inverse of a, and zero for zero. */
  ghost predicate IsInverse(a: Octet, x: Octet) {
    Product(a, x) == (if a == ZERO then ZERO else ONE) && (a == ZERO ==> x == ZERO)
  }

  // What the circuit inverts to is the only inverse: by the top three bits of a.

  lemma OnlyInverse0(a: Octet, x: Octet)
    requires !a.b7 && !a.b6 && !a.b5 && IsInverse(a, x)
    ensures x == Inverse(a)
  {
  }

  lemma OnlyInverse1(a: Octet, x: Octet)
    requires !a.b7 && !a.b6 && a.b5 && IsInverse(a, x)
    ensures x == Inverse(a)
  {
  }

  lemma OnlyInverse2(a: Octet, x: Octet)
    requires !a.b7 && a.b6 && !a.b5 && IsInverse(a, x)
    ensures x == Inverse(a)
  {
  }

  lemma OnlyInverse3(a: Octet, x: Octet)
    requires !a.b7 && a.b6 && a.b5 && IsInverse(a, x)
    ensures x == Inverse(a)
  {
  }

  lemma OnlyInverse4(a: Octet, x: Octet)
    requires a.b7 && !a.b6 && !a.b5 && IsInverse(a, x)
    ensures x == Inverse(a)
  {
  }

  lemma OnlyInverse5(a: Octet, x: Octet)
    requires a.b7 && !a.b6 && a.b5 && IsInverse(a, x)
    ensures x == Inverse(a)
  {
  }

  lemma OnlyInverse6(a: Octet, x: Octet)
    requires a.b7 && a.b6 && !a.b5 && IsInverse(a, x)
    ensures x == Inverse(a)
  {
  }

  lemma OnlyInverse7(a: Octet, x: Octet)
    requires a.b7 && a.b6 && a.b5 && IsInverse(a, x)
    ensures x == Inverse(a)
  {
  }

  lemma OnlyInverse(a: Octet, x: Octet)
    requires IsInverse(a, x)
    ensures x == Inverse(a)
  {
    hide IsInverse, Inverse;
    if a.b7 {
      if a.b6 {
        if a.b5 { OnlyInverse7(a, x); } else { OnlyInverse6(a, x); }
      } else {
        if a.b5 { OnlyInverse5(a, x); } else { OnlyInverse4(a, x); }
      }
    } else {
      if a.b6 {
        if a.b5 { OnlyInverse3(a, x); } else { OnlyInverse2(a, x); }
      } else {
        if a.b5 { OnlyInverse1(a, x); } else { OnlyInverse0(a, x); }
      }
    }
  }

  lemma InverseExists(a: Octet)
    ensures exists x :: IsInverse(a, x)
  {
    hide Product, Inverse, SboxBits, Affine, Unaffine;
    SboxIsFips(a);
    assert IsInverse(a, Inverse(a));
  }

  lemma BeforeExists(a: Octet)
    ensures exists x :: Affine(x) == a
  {
    hide Affine, Unaffine;
    AffineUndone(a);
    assert Affine(Unaffine(a)) == a;
  }

  ghost function FieldInverse(a: Octet): (x: Octet)
    ensures IsInverse(a, x)
  {
    InverseExists(a);
    var x :| IsInverse(a, x);
    x
  }

  /** What the affine transformation takes to a. */
  ghost function BeforeAffine(a: Octet): (x: Octet)
    ensures Affine(x) == a
  {
    BeforeExists(a);
    var x :| Affine(x) == a;
    x
  }

  lemma AffineOnce(x: Octet)
    ensures Unaffine(Affine(x)) == x
  {
  }

  /** Section 5.1.1: the inverse, then the affine transformation. Section 5.3.2: the other way round. */
  ghost function SBox(b: bv8): bv8 { A.ByteOf(Affine(FieldInverse(A.OctetOf(b)))) }

  ghost function InvSBox(b: bv8): bv8 { A.ByteOf(FieldInverse(BeforeAffine(A.OctetOf(b)))) }

  lemma SBoxIsCircuit(a: Octet)
    ensures SBox(A.ByteOf(a)) == A.ByteOf(SboxBits(a))
    ensures InvSBox(A.ByteOf(a)) == A.ByteOf(InvSboxBits(a))
  {
    hide IsInverse, Affine, Unaffine, SboxBits, InvSboxBits, Inverse, Product, FieldInverse, BeforeAffine, A.ByteOf,
        A.OctetOf;
    A.OctetOfByte(a);
    OnlyInverse(a, FieldInverse(a));
    SboxIsFips(a);
    var x := BeforeAffine(a);
    AffineOnce(x);
    OnlyInverse(x, FieldInverse(x));
    InvCircuitInverts(a);
  }

  lemma InvCircuitInverts(a: Octet)
    ensures InvSboxBits(a) == Inverse(Unaffine(a))
  {
    hide SboxBits, Unaffine;
  }

  // ---------- the steps, on the sixteen bytes of a state: row r, column c is byte 4 c + r ----------

  ghost function SubBytes(s: Bytes): (t: Bytes)
    requires |s| == 16
    ensures |t| == 16
  {
    seq(16, m requires 0 <= m < 16 => SBox(s[m]))
  }

  ghost function InvSubBytes(s: Bytes): (t: Bytes)
    requires |s| == 16
    ensures |t| == 16
  {
    seq(16, m requires 0 <= m < 16 => InvSBox(s[m]))
  }

  function At(s: Bytes, r: nat, c: nat): bv8
    requires |s| == 16
  {
    s[4 * (c % 4) + r % 4]
  }

  /** Section 5.1.2: row r is rotated left by r. */
  function ShiftRows(s: Bytes): (t: Bytes)
    requires |s| == 16
    ensures |t| == 16
  {
    seq(16, m requires 0 <= m < 16 => At(s, m % 4, m / 4 + m % 4))
  }

  function InvShiftRows(s: Bytes): (t: Bytes)
    requires |s| == 16
    ensures |t| == 16
  {
    seq(16, m requires 0 <= m < 16 => At(s, m % 4, m / 4 + 4 - m % 4))
  }

  /** A byte times a constant in GF(2^8). */
  function Times(k: Octet, b: bv8): bv8 { A.ByteOf(Product(k, A.OctetOf(b))) }

  const X02 := Octet(false, true, false, false, false, false, false, false)
  const X03 := Octet(true, true, false, false, false, false, false, false)
  const X09 := Octet(true, false, false, true, false, false, false, false)
  const X0B := Octet(true, true, false, true, false, false, false, false)
  const X0D := Octet(true, false, true, true, false, false, false, false)
  const X0E := Octet(false, true, true, true, false, false, false, false)

  /** Section 5.1.3: each column times 2, 3, 1, 1. */
  function MixColumns(s: Bytes): (t: Bytes)
    requires |s| == 16
    ensures |t| == 16
  {
    seq(16, m requires 0 <= m < 16 =>
              Times(X02, At(s, m % 4, m / 4)) ^ Times(X03, At(s, m % 4 + 1, m / 4))
              ^ At(s, m % 4 + 2, m / 4) ^ At(s, m % 4 + 3, m / 4))
  }

  /** Section 5.3.3: each column times 14, 11, 13, 9. */
  function InvMixColumns(s: Bytes): (t: Bytes)
    requires |s| == 16
    ensures |t| == 16
  {
    seq(16, m requires 0 <= m < 16 =>
              Times(X0E, At(s, m % 4, m / 4)) ^ Times(X0B, At(s, m % 4 + 1, m / 4))
              ^ Times(X0D, At(s, m % 4 + 2, m / 4)) ^ Times(X09, At(s, m % 4 + 3, m / 4)))
  }

  // ---------- the cipher ----------

  ghost predicate RoundKeys(ks: seq<Bytes>) {
    forall u :: 0 <= u < |ks| ==> |ks[u]| == 16
  }

  /** Section 5.1 after `u` rounds. */
  ghost function Rounds(ks: seq<Bytes>, u: nat, b: Bytes): (s: Bytes)
    requires RoundKeys(ks) && u < |ks| && |b| == 16
    ensures |s| == 16
  {
    if u == 0 then Xor(b, ks[0]) else Xor(MixColumns(ShiftRows(SubBytes(Rounds(ks, u - 1, b)))), ks[u])
  }

  ghost function Cipher(ks: seq<Bytes>, n: nat, b: Bytes): (s: Bytes)
    requires RoundKeys(ks) && 0 < n < |ks| && |b| == 16
    ensures |s| == 16
  {
    Xor(ShiftRows(SubBytes(Rounds(ks, n - 1, b))), ks[n])
  }

  /** Section 5.3: rounds `u` down to 1. */
  ghost function InvRounds(ks: seq<Bytes>, u: nat, b: Bytes): (s: Bytes)
    requires RoundKeys(ks) && u < |ks| && |b| == 16
    ensures |s| == 16
  {
    if u == 0 then b else InvRounds(ks, u - 1, InvMixColumns(Xor(InvSubBytes(InvShiftRows(b)), ks[u])))
  }

  ghost function InvCipher(ks: seq<Bytes>, n: nat, b: Bytes): (s: Bytes)
    requires RoundKeys(ks) && 0 < n < |ks| && |b| == 16
    ensures |s| == 16
  {
    Xor(InvSubBytes(InvShiftRows(InvRounds(ks, n - 1, Xor(b, ks[n])))), ks[0])
  }

  // ---------- each lane of the bitsliced state goes through these steps ----------

  /** The rank of row r, column c on the lane of parity p. */
  function Rank(r: nat, c: nat, p: nat): nat { 8 * (r % 4) + 2 * (c % 4) + p }

  lemma LaneAt(s: R.State, p: nat, r: nat, c: nat)
    requires p < 2
    ensures Rank(r, c, p) < R.RANKS && At(A.Extracted(s, p), r, c) == A.ByteOf(s[Rank(r, c, p)])
  {
    hide A.ByteOf;
    var m := 4 * (c % 4) + r % 4;
    assert m % 4 == r % 4 && m / 4 == c % 4;
  }

  lemma LanesEqual(s: Bytes, t: Bytes)
    requires |s| == |t| == 16
    requires forall r, c :: 0 <= r < 4 && 0 <= c < 4 ==> At(s, r, c) == At(t, r, c)
    ensures s == t
  {
    forall m | 0 <= m < 16
      ensures s[m] == t[m]
    {
      assert At(s, m % 4, m / 4) == At(t, m % 4, m / 4);
    }
  }

  lemma SubLane(s: R.State, p: nat)
    requires p < 2
    ensures A.Extracted(R.SubBytes(s), p) == SubBytes(A.Extracted(s, p))
    ensures A.Extracted(R.InvSubBytes(s), p) == InvSubBytes(A.Extracted(s, p))
  {
    hide SBox, InvSBox, SboxBits, InvSboxBits, A.ByteOf;
    forall m | 0 <= m < 16
      ensures A.Extracted(R.SubBytes(s), p)[m] == SubBytes(A.Extracted(s, p))[m]
      ensures A.Extracted(R.InvSubBytes(s), p)[m] == InvSubBytes(A.Extracted(s, p))[m]
    {
      SBoxIsCircuit(s[8 * (m % 4) + 2 * (m / 4) + p]);
    }
  }

  /** The masks and shifts of aes_ct_shift_rows take each row where it belongs. */
  lemma RowSources(r: nat, c: nat, p: nat)
    requires r < 4 && c < 4 && p < 2
    ensures R.RowSource(Rank(r, c, p)) == Rank(r, c + r, p)
    ensures R.InvRowSource(Rank(r, c, p)) == Rank(r, c + 4 - r, p)
  {
    hide Rank;
    RankIs(r, c, p);
    RankIs(r, c + r, p);
    RankIs(r, c + 4 - r, p);
    Turned(c, r);
    Turned(c, 4 - r);
  }

  lemma RankIs(r: nat, c: nat, p: nat)
    requires r < 4
    ensures Rank(r, c, p) == 8 * r + 2 * (c % 4) + p
  {
  }

  lemma Turned(c: nat, n: nat)
    requires c < 4 && n <= 4
    ensures (c + n) % 4 == (if c + n < 4 then c + n else c + n - 4) && c % 4 == c
  {
  }

  lemma ShiftLane(s: R.State, p: nat)
    requires p < 2
    ensures A.Extracted(R.ShiftRows(s), p) == ShiftRows(A.Extracted(s, p))
    ensures A.Extracted(R.InvShiftRows(s), p) == InvShiftRows(A.Extracted(s, p))
  {
    hide A.ByteOf, A.Extracted, R.RowSource, R.InvRowSource, Rank, At;
    var b := A.Extracted(s, p);
    var x, y := A.Extracted(R.ShiftRows(s), p), A.Extracted(R.InvShiftRows(s), p);
    forall r, c | 0 <= r < 4 && 0 <= c < 4
      ensures At(x, r, c) == At(ShiftRows(b), r, c) && At(y, r, c) == At(InvShiftRows(b), r, c)
    {
      RowSources(r, c, p);
      LaneAt(R.ShiftRows(s), p, r, c);
      LaneAt(R.InvShiftRows(s), p, r, c);
      LaneAt(s, p, r, c + r);
      LaneAt(s, p, r, c + 4 - r);
      ShiftedAt(b, r, c);
    }
    LanesEqual(x, ShiftRows(b));
    LanesEqual(y, InvShiftRows(b));
  }

  /** Row r is rotated by r places, to the left and to the right. */
  lemma ShiftedAt(s: Bytes, r: nat, c: nat)
    requires |s| == 16 && r < 4 && c < 4
    ensures At(ShiftRows(s), r, c) == At(s, r, c + r) && At(InvShiftRows(s), r, c) == At(s, r, c + 4 - r)
  {
    hide At;
    AtIs(ShiftRows(s), r, c);
    AtIs(InvShiftRows(s), r, c);
  }

  lemma AtIs(s: Bytes, r: nat, c: nat)
    requires |s| == 16 && r < 4 && c < 4
    ensures (4 * c + r) % 4 == r && (4 * c + r) / 4 == c && At(s, r, c) == s[4 * c + r]
  {
  }

  lemma ByteOfPlus(x: Octet, y: Octet)
    ensures A.ByteOf(Plus(x, y)) == A.ByteOf(x) ^ A.ByteOf(y)
  {
    hide A.ByteOf, A.OctetOf;
    var a, b := A.ByteOf(x), A.ByteOf(y);
    A.OctetOfByte(x);
    A.OctetOfByte(y);
    OctetOfXor(a, b);
    A.ByteOfOctet(a ^ b);
  }

  lemma OctetOfXor(a: bv8, b: bv8)
    ensures A.OctetOf(a ^ b) == Plus(A.OctetOf(a), A.OctetOf(b))
  {
    hide Has;
    HasXor(a, b);
  }

  lemma HasXor(a: bv8, b: bv8)
    ensures Has(a ^ b, 1) == (Has(a, 1) != Has(b, 1)) && Has(a ^ b, 2) == (Has(a, 2) != Has(b, 2))
    ensures Has(a ^ b, 4) == (Has(a, 4) != Has(b, 4)) && Has(a ^ b, 8) == (Has(a, 8) != Has(b, 8))
    ensures Has(a ^ b, 16) == (Has(a, 16) != Has(b, 16)) && Has(a ^ b, 32) == (Has(a, 32) != Has(b, 32))
    ensures Has(a ^ b, 64) == (Has(a, 64) != Has(b, 64)) && Has(a ^ b, 128) == (Has(a, 128) != Has(b, 128))
  {
  }

  lemma AddLane(s: R.State, k: R.State, p: nat)
    requires p < 2
    ensures A.Extracted(R.AddRoundKey(s, k), p) == Xor(A.Extracted(s, p), A.Extracted(k, p))
  {
    hide A.ByteOf, Plus;
    forall m | 0 <= m < 16
      ensures A.Extracted(R.AddRoundKey(s, k), p)[m] == Xor(A.Extracted(s, p), A.Extracted(k, p))[m]
    {
      var q := 8 * (m % 4) + 2 * (m / 4) + p;
      ByteOfPlus(s[q], k[q]);
    }
  }

  /** A rotation by eight ranks goes to the next row. */
  lemma RowsAbove(r: nat, c: nat, p: nat)
    requires r < 4 && c < 4 && p < 2
    ensures R.Above(Rank(r, c, p), 8) == Rank(r + 1, c, p) && R.Above(Rank(r, c, p), 16) == Rank(r + 2, c, p)
    ensures R.Above(Rank(r, c, p), 24) == Rank(r + 3, c, p)
  {
    RankAbove(r, c, p, 1);
    RankAbove(r, c, p, 2);
    RankAbove(r, c, p, 3);
  }

  lemma RowIs(r: nat, c: nat, p: nat, row: nat)
    requires row < 4 && (r == row || r == row + 4)
    ensures Rank(r, c, p) == 8 * row + 2 * (c % 4) + p
  {
  }

  lemma RankAbove(r: nat, c: nat, p: nat, i: nat)
    requires r < 4 && c < 4 && p < 2 && i < 4
    ensures (Rank(r, c, p) + 8 * i) % 32 == Rank(r + i, c, p)
  {
    hide Rank;
    var k := if r + i < 4 then 0 else 1;
    var low := 2 * (c % 4) + p;
    RankIs(r, c, p);
    RowIs(r + i, c, p, r + i - 4 * k);
    DivModUnique(8 * (r + i) + low, k, 32, 8 * (r + i - 4 * k) + low);
  }

  lemma By2(a: Octet)
    ensures Product(X02, a) == Times2(a)
  {
  }

  lemma By3(a: Octet)
    ensures Product(X03, a) == Times3(a)
  {
  }

  lemma By9(a: Octet)
    ensures Product(X09, a) == Times9(a)
  {
    if a.b5 {
      assert Product(X09, a) == Times9(a);
    } else if a.b6 {
      assert Product(X09, a) == Times9(a);
    } else if a.b7 {
      assert Product(X09, a) == Times9(a);
    }
  }

  lemma By11(a: Octet)
    ensures Product(X0B, a) == Times11(a)
  {
    if a.b5 {
      assert Product(X0B, a) == Times11(a);
    } else if a.b6 {
      assert Product(X0B, a) == Times11(a);
    } else if a.b7 {
      assert Product(X0B, a) == Times11(a);
    }
  }

  lemma By13(a: Octet)
    ensures Product(X0D, a) == Times13(a)
  {
    if a.b5 {
      assert Product(X0D, a) == Times13(a);
    } else if a.b6 {
      assert Product(X0D, a) == Times13(a);
    } else if a.b7 {
      assert Product(X0D, a) == Times13(a);
    }
  }

  lemma By14(a: Octet)
    ensures Product(X0E, a) == Times14(a)
  {
    if a.b5 {
      assert Product(X0E, a) == Times14(a);
    } else if a.b6 {
      assert Product(X0E, a) == Times14(a);
    } else if a.b7 {
      assert Product(X0E, a) == Times14(a);
    }
  }

  lemma TimesIs(a: Octet)
    ensures Times(X02, A.ByteOf(a)) == A.ByteOf(Times2(a)) && Times(X03, A.ByteOf(a)) == A.ByteOf(Times3(a))
    ensures Times(X09, A.ByteOf(a)) == A.ByteOf(Times9(a)) && Times(X0B, A.ByteOf(a)) == A.ByteOf(Times11(a))
    ensures Times(X0D, A.ByteOf(a)) == A.ByteOf(Times13(a)) && Times(X0E, A.ByteOf(a)) == A.ByteOf(Times14(a))
  {
    hide Product, Times2, Times3, Times9, Times11, Times13, Times14, A.ByteOf, A.OctetOf;
    A.OctetOfByte(a);
    By2(a);
    By3(a);
    By9(a);
    By11(a);
    By13(a);
    By14(a);
  }

  lemma SumOfFour(w: Octet, x: Octet, y: Octet, z: Octet)
    ensures A.ByteOf(Plus(Plus(w, x), Plus(y, z))) == A.ByteOf(w) ^ A.ByteOf(x) ^ A.ByteOf(y) ^ A.ByteOf(z)
  {
    hide Plus, A.ByteOf;
    ByteOfPlus(Plus(w, x), Plus(y, z));
    ByteOfPlus(w, x);
    ByteOfPlus(y, z);
    XorFour(A.ByteOf(w), A.ByteOf(x), A.ByteOf(y), A.ByteOf(z));
  }

  lemma XorFour(w: bv8, x: bv8, y: bv8, z: bv8)
    ensures (w ^ x) ^ (y ^ z) == w ^ x ^ y ^ z
  {
  }

  lemma MixedAt(s: Bytes, r: nat, c: nat)
    requires |s| == 16 && r < 4 && c < 4
    ensures At(MixColumns(s), r, c)
         == Times(X02, At(s, r, c)) ^ Times(X03, At(s, r + 1, c)) ^ At(s, r + 2, c) ^ At(s, r + 3, c)
    ensures At(InvMixColumns(s), r, c)
         == Times(X0E, At(s, r, c)) ^ Times(X0B, At(s, r + 1, c)) ^ Times(X0D, At(s, r + 2, c))
            ^ Times(X09, At(s, r + 3, c))
  {
    hide At, Times;
    AtIs(MixColumns(s), r, c);
    AtIs(InvMixColumns(s), r, c);
  }

  lemma MixLaneAt(s: R.State, p: nat, r: nat, c: nat)
    requires p < 2 && r < 4 && c < 4
    ensures At(A.Extracted(R.MixColumns(s), p), r, c) == At(MixColumns(A.Extracted(s, p)), r, c)
    ensures At(A.Extracted(R.InvMixColumns(s), p), r, c) == At(InvMixColumns(A.Extracted(s, p)), r, c)
  {
    hide A.ByteOf, A.Extracted, R.MixColumns, R.InvMixColumns, MixColumns, InvMixColumns, Rank, At, Times, R.Above,
      MixBits, InvMixBits, Plus, Times2, Times3, Times9, Times11, Times13, Times14;
    var b := A.Extracted(s, p);
    LaneAt(s, p, r, c);
    LaneAt(s, p, r + 1, c);
    LaneAt(s, p, r + 2, c);
    LaneAt(s, p, r + 3, c);
    LaneAt(R.MixColumns(s), p, r, c);
    LaneAt(R.InvMixColumns(s), p, r, c);
    RowsAbove(r, c, p);
    R.MixAt(s, Rank(r, c, p));
    var w, x, y, z := s[Rank(r, c, p)], s[Rank(r + 1, c, p)], s[Rank(r + 2, c, p)], s[Rank(r + 3, c, p)];
    MixIs(w, x, y, z);
    InvMixIs(w, x, y, z);
    TimesIs(w);
    TimesIs(x);
    TimesIs(y);
    TimesIs(z);
    SumOfFour(Times2(w), Times3(x), y, z);
    SumOfFour(Times14(w), Times11(x), Times13(y), Times9(z));
    MixedAt(b, r, c);
  }

  lemma MixLane(s: R.State, p: nat)
    requires p < 2
    ensures A.Extracted(R.MixColumns(s), p) == MixColumns(A.Extracted(s, p))
    ensures A.Extracted(R.InvMixColumns(s), p) == InvMixColumns(A.Extracted(s, p))
  {
    hide A.Extracted, R.MixColumns, R.InvMixColumns, MixColumns, InvMixColumns, At;
    var b := A.Extracted(s, p);
    var x, y := A.Extracted(R.MixColumns(s), p), A.Extracted(R.InvMixColumns(s), p);
    forall r, c | 0 <= r < 4 && 0 <= c < 4
      ensures At(x, r, c) == At(MixColumns(b), r, c) && At(y, r, c) == At(InvMixColumns(b), r, c)
    {
      MixLaneAt(s, p, r, c);
    }
    LanesEqual(x, MixColumns(b));
    LanesEqual(y, InvMixColumns(b));
  }

  // ---------- the whole cipher ----------

  /** The round keys on one lane. */
  function LaneKeys(keys: seq<R.State>, p: nat): (ks: seq<Bytes>)
    requires p < 2
    ensures |ks| == |keys| && RoundKeys(ks)
  {
    seq(|keys|, u requires 0 <= u < |keys| => A.Extracted(keys[u], p))
  }

  lemma {:induction false} RoundsLane(keys: seq<R.State>, u: nat, s: R.State, p: nat)
    requires u < |keys| && p < 2
    ensures A.Extracted(R.Rounds(keys, u, s), p) == Rounds(LaneKeys(keys, p), u, A.Extracted(s, p))
  {
    hide A.Extracted, R.SubBytes, R.ShiftRows, R.MixColumns, R.AddRoundKey, SubBytes, ShiftRows, MixColumns, Xor;
    if u == 0 {
      AddLane(s, keys[0], p);
    } else {
      RoundsLane(keys, u - 1, s, p);
      var t := R.Rounds(keys, u - 1, s);
      SubLane(t, p);
      ShiftLane(R.SubBytes(t), p);
      MixLane(R.ShiftRows(R.SubBytes(t)), p);
      AddLane(R.MixColumns(R.ShiftRows(R.SubBytes(t))), keys[u], p);
    }
  }

  lemma {:induction false} InvRoundsLane(keys: seq<R.State>, u: nat, s: R.State, p: nat)
    requires u < |keys| && p < 2
    ensures A.Extracted(R.Unrounds(keys, u, s), p) == InvRounds(LaneKeys(keys, p), u, A.Extracted(s, p))
    decreases u
  {
    hide A.Extracted, R.InvSubBytes, R.InvShiftRows, R.InvMixColumns, R.AddRoundKey,
      InvSubBytes, InvShiftRows, InvMixColumns, Xor;
    if u > 0 {
      ShiftLane(s, p);
      SubLane(R.InvShiftRows(s), p);
      var t := R.InvSubBytes(R.InvShiftRows(s));
      AddLane(t, keys[u], p);
      MixLane(R.AddRoundKey(t, keys[u]), p);
      InvRoundsLane(keys, u - 1, R.InvMixColumns(R.AddRoundKey(t, keys[u])), p);
    }
  }

  /** What aes.c computes on each lane, for any state, round keys and number of rounds, is the cipher of FIPS 197. */
  lemma LaneIsFips(keys: seq<R.State>, n: nat, s: R.State, p: nat)
    requires 0 < n < |keys| && p < 2
    ensures A.Extracted(R.Encrypted(keys, n, s), p) == Cipher(LaneKeys(keys, p), n, A.Extracted(s, p))
    ensures A.Extracted(R.Decrypted(keys, n, s), p) == InvCipher(LaneKeys(keys, p), n, A.Extracted(s, p))
  {
    hide A.Extracted, R.Rounds, R.Unrounds, Rounds, InvRounds, R.SubBytes, R.ShiftRows, R.InvSubBytes, R.InvShiftRows,
      R.AddRoundKey, SubBytes, ShiftRows, InvSubBytes, InvShiftRows, Xor;
    RoundsLane(keys, n - 1, s, p);
    var t := R.Rounds(keys, n - 1, s);
    SubLane(t, p);
    ShiftLane(R.SubBytes(t), p);
    AddLane(R.ShiftRows(R.SubBytes(t)), keys[n], p);
    AddLane(s, keys[n], p);
    var v := R.AddRoundKey(s, keys[n]);
    InvRoundsLane(keys, n - 1, v, p);
    var w := R.Unrounds(keys, n - 1, v);
    ShiftLane(w, p);
    SubLane(R.InvShiftRows(w), p);
    AddLane(R.InvSubBytes(R.InvShiftRows(w)), keys[0], p);
  }

  /** AES_Encrypt and AES_Decrypt of one block. */
  lemma BlockIsFips(keys: seq<R.State>, n: nat, b: Bytes)
    requires 0 < n < |keys| && |b| == 16
    ensures A.Block(keys, n, true, b) == Cipher(LaneKeys(keys, 0), n, b)
    ensures A.Block(keys, n, false, b) == InvCipher(LaneKeys(keys, 0), n, b)
  {
    hide A.Extracted, A.Interleaved, R.Encrypted, R.Decrypted, Cipher, InvCipher;
    A.ExtractInterleaved(b, A.Zeros());
    LaneIsFips(keys, n, A.Interleaved(b, A.Zeros()), 0);
  }

  /** AES_Encrypt_ECB and AES_Decrypt_ECB: block i of the result is block i of the input through the cipher. */
  lemma EcbIsFips(keys: seq<R.State>, n: nat, enc: bool, p: Bytes, k: nat, i: nat)
    requires 0 < n < |keys| && |p| == 16 * k && i < k
    ensures A.Ecb(keys, n, enc, p, k)[16 * i..16 * i + 16]
         == if enc then Cipher(LaneKeys(keys, 0), n, p[16 * i..16 * i + 16])
            else InvCipher(LaneKeys(keys, 0), n, p[16 * i..16 * i + 16])
  {
    hide A.Block, Cipher, InvCipher;
    BlockIsFips(keys, n, p[16 * i..16 * i + 16]);
    EcbAt(keys, n, enc, p, k, i);
  }

  lemma {:induction false} EcbAt(keys: seq<R.State>, n: nat, enc: bool, p: Bytes, k: nat, i: nat)
    requires 0 < n < |keys| && |p| == 16 * k && i < k
    ensures A.Ecb(keys, n, enc, p, k)[16 * i..16 * i + 16] == A.Block(keys, n, enc, p[16 * i..16 * i + 16])
  {
    hide A.Block;
    var q := p[..16 * (k - 1)];
    var e := A.Ecb(keys, n, enc, q, k - 1);
    if i < k - 1 {
      EcbAt(keys, n, enc, q, k - 1, i);
      assert q[16 * i..16 * i + 16] == p[16 * i..16 * i + 16];
      assert A.Ecb(keys, n, enc, p, k)[16 * i..16 * i + 16] == e[16 * i..16 * i + 16];
    } else {
      assert p[16 * i..16 * i + 16] == p[16 * (k - 1)..];
    }
  }

  /** The expanded key: words 2 u and 2 u + 1 hold the even and the odd bits of word u, each on both lanes. */
  lemma {:induction false} ExpandedAt(comp: seq<A.Word>, u: nat, r: nat)
    requires u < |comp| && r < 32
    ensures A.Expanded(comp)[2 * u][r] == comp[u][r - r % 2]
    ensures A.Expanded(comp)[2 * u + 1][r] == comp[u][r - r % 2 + 1]
  {
    var last := comp[|comp| - 1];
    if u < |comp| - 1 {
      hide A.ExpandEven, A.ExpandOdd;
      ExpandedAt(comp[..|comp| - 1], u, r);
    } else {
      ExpandAt(last, r);
    }
  }

  lemma ExpandAt(w: A.Word, r: nat)
    requires r < 32
    ensures A.ExpandEven(w)[r] == w[r - r % 2] && A.ExpandOdd(w)[r] == w[r - r % 2 + 1]
  {
  }
}
