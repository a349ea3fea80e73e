/**
 * aes.c: the rounds on the bitsliced state, which holds two AES states side by side, on the even and on the odd ranks.
 */
module AesRounds {
  import opened AesBits
  import opened Arith
  import opened WordOps

  const RANKS: nat := 32

  /** The octet at each rank of the words q[0] to q[7]; an operation on all words is one on the octets of its ranks. */
  type State = s: seq<Octet> | |s| == RANKS witness seq(RANKS, _ => ZERO)

  // ---------- the steps ----------

  function SubBytes(s: State): State { seq(RANKS, r requires 0 <= r < RANKS => SboxBits(s[r])) }

  function InvSubBytes(s: State): State { seq(RANKS, r requires 0 <= r < RANKS => InvSboxBits(s[r])) }

  /** shift_rows: where rank r comes from, by the masks and shifts of lines 455-458. */
  function RowSource(r: nat): (q: nat)
    requires r < RANKS
    ensures q < RANKS
  {
    if r < 8 then r                 // 0x000000ff
    else if r < 14 then r + 2       // 0x0000fc00 >> 2
    else if r < 16 then r - 6       // 0x00000300 << 6
    else if r < 20 then r + 4       // 0x00f00000 >> 4
    else if r < 24 then r - 4       // 0x000f0000 << 4
    else if r < 26 then r + 6       // 0xc0000000 >> 6
    else r - 2                      // 0x3f000000 << 2
  }

  /** inv_shift_rows, by the masks and shifts of lines 596-599. */
  function InvRowSource(r: nat): (q: nat)
    requires r < RANKS
    ensures q < RANKS
  {
    if r < 8 then r                 // 0x000000ff
    else if r < 10 then r + 6       // 0x0000c000 >> 6
    else if r < 16 then r - 2       // 0x00003f00 << 2
    else if r < 20 then r + 4       // 0x00f00000 >> 4
    else if r < 24 then r - 4       // 0x000f0000 << 4
    else if r < 30 then r + 2       // 0xfc000000 >> 2
    else r - 6                      // 0x03000000 << 6
  }

  function ShiftRows(s: State): State { seq(RANKS, r requires 0 <= r < RANKS => s[RowSource(r)]) }

  function InvShiftRows(s: State): State { seq(RANKS, r requires 0 <= r < RANKS => s[InvRowSource(r)]) }

  /** A word rotated right by 8 has at rank r what was at rank r + 8. */
  function Above(r: nat, n: nat): nat { (r + n) % RANKS }

  function MixColumns(s: State): State {
    seq(RANKS, r requires 0 <= r < RANKS => MixBits(s[r], s[Above(r, 8)], s[Above(r, 16)], s[Above(r, 24)]))
  }

  function InvMixColumns(s: State): State {
    seq(RANKS, r requires 0 <= r < RANKS => InvMixBits(s[r], s[Above(r, 8)], s[Above(r, 16)], s[Above(r, 24)]))
  }

  function AddRoundKey(s: State, k: State): State {
    seq(RANKS, r requires 0 <= r < RANKS => Plus(s[r], k[r]))
  }

  // ---------- each step is undone ----------

  lemma SubBytesUndone(s: State)
    ensures InvSubBytes(SubBytes(s)) == s
  {
    hide SboxBits, InvSboxBits;
    forall r | 0 <= r < RANKS
      ensures InvSubBytes(SubBytes(s))[r] == s[r]
    {
      InvSboxInverts(s[r]);
    }
  }

  lemma ShiftRowsUndone(s: State)
    ensures InvShiftRows(ShiftRows(s)) == s
  {
  }

  lemma AboveAbove(r: nat, m: nat, n: nat)
    ensures Above(Above(r, m), n) == Above(r, m + n) && Above(r, n) < RANKS
    ensures Above(r, RANKS + n) == Above(r, n) && (r < RANKS ==> Above(r, RANKS) == r)
  {
    ModMultiple((r + m) % RANKS + n, (r + m) / RANKS, RANKS);
    ModMultiple(r + n, 1, RANKS);
    ModMultiple(r, 1, RANKS);
    if r < RANKS {
      SmallMod(r, RANKS);
    }
  }

  lemma MixAt(s: State, r: nat)
    requires r < RANKS
    ensures Above(r, 8) < RANKS && Above(r, 16) < RANKS && Above(r, 24) < RANKS
    ensures MixColumns(s)[r] == MixBits(s[r], s[Above(r, 8)], s[Above(r, 16)], s[Above(r, 24)])
    ensures InvMixColumns(s)[r] == InvMixBits(s[r], s[Above(r, 8)], s[Above(r, 16)], s[Above(r, 24)])
  {
    hide MixBits, InvMixBits;
  }

  lemma MixUndoneAt(s: State, r: nat)
    requires r < RANKS
    ensures InvMixColumns(MixColumns(s))[r] == s[r]
  {
    hide MixBits, InvMixBits, MixColumns, InvMixColumns, Above;
    MixAt(MixColumns(s), r);
    MixAt(s, r);
    AboveAbove(r, 8, 8);
    AboveAbove(r, 8, 16);
    AboveAbove(r, 8, 24);
    MixAt(s, Above(r, 8));
    AboveAbove(r, 16, 8);
    AboveAbove(r, 16, 16);
    AboveAbove(r, 16, 24);
    MixAt(s, Above(r, 16));
    AboveAbove(r, 24, 8);
    AboveAbove(r, 24, 16);
    AboveAbove(r, 24, 24);
    MixAt(s, Above(r, 24));
    InvMixInverts(s[r], s[Above(r, 8)], s[Above(r, 16)], s[Above(r, 24)]);
  }

  lemma MixColumnsUndone(s: State)
    ensures InvMixColumns(MixColumns(s)) == s
  {
    hide MixColumns, InvMixColumns;
    forall r | 0 <= r < RANKS
      ensures InvMixColumns(MixColumns(s))[r] == s[r]
    {
      MixUndoneAt(s, r);
    }
  }

  lemma AddRoundKeyUndone(s: State, k: State)
    ensures AddRoundKey(AddRoundKey(s, k), k) == s
  {
    hide Plus;
    forall r | 0 <= r < RANKS
      ensures AddRoundKey(AddRoundKey(s, k), k)[r] == s[r]
    {
      PlusCommutes(s[r], k[r]);
      CancelAround(k[r], s[r]);
    }
  }

  // ---------- the cipher ----------

  function Middle(s: State): State { ShiftRows(SubBytes(s)) }

  function Unmiddle(s: State): State { InvSubBytes(InvShiftRows(s)) }

  /** The state after add_round_key and u full rounds. */
  function Rounds(keys: seq<State>, u: nat, s: State): State
    requires u < |keys|
  {
    if u == 0 then AddRoundKey(s, keys[0]) else AddRoundKey(MixColumns(Middle(Rounds(keys, u - 1, s))), keys[u])
  }

  function Encrypted(keys: seq<State>, n: nat, s: State): State
    requires 0 < n < |keys|
  {
    AddRoundKey(Middle(Rounds(keys, n - 1, s)), keys[n])
  }

  /** Rounds u down to 1 of the decryption. */
  function Unrounds(keys: seq<State>, u: nat, s: State): State
    requires u < |keys|
  {
    if u == 0 then s else Unrounds(keys, u - 1, InvMixColumns(AddRoundKey(Unmiddle(s), keys[u])))
  }

  function Decrypted(keys: seq<State>, n: nat, s: State): State
    requires 0 < n < |keys|
  {
    AddRoundKey(Unmiddle(Unrounds(keys, n - 1, AddRoundKey(s, keys[n]))), keys[0])
  }

  lemma MiddleUndone(s: State)
    ensures Unmiddle(Middle(s)) == s
  {
    hide SubBytes, InvSubBytes, ShiftRows, InvShiftRows;
    ShiftRowsUndone(SubBytes(s));
    SubBytesUndone(s);
  }

  lemma {:induction false} RoundsUndone(keys: seq<State>, u: nat, s: State)
    requires u < |keys|
    ensures Unrounds(keys, u, Middle(Rounds(keys, u, s))) == Middle(AddRoundKey(s, keys[0]))
  {
    hide Middle, Unmiddle, MixColumns, InvMixColumns, AddRoundKey;
    if u > 0 {
      var m := Middle(Rounds(keys, u - 1, s));
      MiddleUndone(Rounds(keys, u, s));
      AddRoundKeyUndone(MixColumns(m), keys[u]);
      MixColumnsUndone(m);
      RoundsUndone(keys, u - 1, s);
    }
  }

  /** Decryption undoes encryption, for any round keys and any number of rounds. */
  lemma DecryptUndoesEncrypt(keys: seq<State>, n: nat, s: State)
    requires 0 < n < |keys|
    ensures Decrypted(keys, n, Encrypted(keys, n, s)) == s
  {
    hide Middle, Unmiddle, AddRoundKey, Rounds, Unrounds;
    AddRoundKeyUndone(Middle(Rounds(keys, n - 1, s)), keys[n]);
    RoundsUndone(keys, n - 1, s);
    MiddleUndone(AddRoundKey(s, keys[0]));
    AddRoundKeyUndone(s, keys[0]);
  }

  // ---------- the two lanes do not interfere ----------

  /** The two states agree on the ranks of parity p. */
  ghost predicate Agree(p: nat, s: State, t: State) {
    forall r :: 0 <= r < RANKS && r % 2 == p ==> s[r] == t[r]
  }

  lemma StepsAgree(p: nat, s: State, t: State)
    requires Agree(p, s, t)
    ensures Agree(p, SubBytes(s), SubBytes(t)) && Agree(p, InvSubBytes(s), InvSubBytes(t))
    ensures Agree(p, ShiftRows(s), ShiftRows(t)) && Agree(p, InvShiftRows(s), InvShiftRows(t))
  {
    hide SboxBits, InvSboxBits;
  }

  lemma AboveParity(r: nat, n: nat)
    requires n % 2 == 0
    ensures Above(r, n) % 2 == r % 2
  {
  }

  lemma MixAgreesAt(p: nat, s: State, t: State, r: nat)
    requires Agree(p, s, t) && r < RANKS && r % 2 == p
    ensures MixColumns(s)[r] == MixColumns(t)[r] && InvMixColumns(s)[r] == InvMixColumns(t)[r]
  {
    hide MixBits, InvMixBits, MixColumns, InvMixColumns, Above;
    MixAt(s, r);
    MixAt(t, r);
    AboveParity(r, 8);
    AboveParity(r, 16);
    AboveParity(r, 24);
  }

  lemma MixAgrees(p: nat, s: State, t: State)
    requires Agree(p, s, t)
    ensures Agree(p, MixColumns(s), MixColumns(t)) && Agree(p, InvMixColumns(s), InvMixColumns(t))
  {
    hide MixColumns, InvMixColumns;
    forall r | 0 <= r < RANKS && r % 2 == p
      ensures MixColumns(s)[r] == MixColumns(t)[r] && InvMixColumns(s)[r] == InvMixColumns(t)[r]
    {
      MixAgreesAt(p, s, t, r);
    }
  }

  lemma AddAgrees(p: nat, s: State, t: State, k: State)
    requires Agree(p, s, t)
    ensures Agree(p, AddRoundKey(s, k), AddRoundKey(t, k))
  {
    hide Plus;
  }

  lemma MiddleAgrees(p: nat, s: State, t: State)
    requires Agree(p, s, t)
    ensures Agree(p, Middle(s), Middle(t)) && Agree(p, Unmiddle(s), Unmiddle(t))
  {
    hide SubBytes, InvSubBytes, ShiftRows, InvShiftRows, Agree;
    StepsAgree(p, s, t);
    StepsAgree(p, SubBytes(s), SubBytes(t));
    StepsAgree(p, InvShiftRows(s), InvShiftRows(t));
  }

  lemma {:induction false} RoundsAgree(p: nat, keys: seq<State>, u: nat, s: State, t: State)
    requires u < |keys| && Agree(p, s, t)
    ensures Agree(p, Rounds(keys, u, s), Rounds(keys, u, t))
  {
    hide Middle, MixColumns, AddRoundKey, Agree;
    if u == 0 {
      AddAgrees(p, s, t, keys[0]);
    } else {
      RoundsAgree(p, keys, u - 1, s, t);
      var a, b := Rounds(keys, u - 1, s), Rounds(keys, u - 1, t);
      MiddleAgrees(p, a, b);
      MixAgrees(p, Middle(a), Middle(b));
      AddAgrees(p, MixColumns(Middle(a)), MixColumns(Middle(b)), keys[u]);
    }
  }

  lemma {:induction false} UnroundsAgree(p: nat, keys: seq<State>, u: nat, s: State, t: State)
    requires u < |keys| && Agree(p, s, t)
    ensures Agree(p, Unrounds(keys, u, s), Unrounds(keys, u, t))
    decreases u
  {
    hide Unmiddle, InvMixColumns, AddRoundKey, Agree;
    if u > 0 {
      MiddleAgrees(p, s, t);
      AddAgrees(p, Unmiddle(s), Unmiddle(t), keys[u]);
      var a, b := AddRoundKey(Unmiddle(s), keys[u]), AddRoundKey(Unmiddle(t), keys[u]);
      MixAgrees(p, a, b);
      UnroundsAgree(p, keys, u - 1, InvMixColumns(a), InvMixColumns(b));
    }
  }

  /** What comes out on one lane depends only on what goes in on that lane. */
  lemma LanesDoNotInterfere(p: nat, keys: seq<State>, n: nat, s: State, t: State)
    requires 0 < n < |keys| && Agree(p, s, t)
    ensures Agree(p, Encrypted(keys, n, s), Encrypted(keys, n, t))
    ensures Agree(p, Decrypted(keys, n, s), Decrypted(keys, n, t))
  {
    hide Middle, Unmiddle, AddRoundKey, Rounds, Unrounds, Agree;
    RoundsAgree(p, keys, n - 1, s, t);
    MiddleAgrees(p, Rounds(keys, n - 1, s), Rounds(keys, n - 1, t));
    AddAgrees(p, Middle(Rounds(keys, n - 1, s)), Middle(Rounds(keys, n - 1, t)), keys[n]);
    AddAgrees(p, s, t, keys[n]);
    var a, b := AddRoundKey(s, keys[n]), AddRoundKey(t, keys[n]);
    UnroundsAgree(p, keys, n - 1, a, b);
    MiddleAgrees(p, Unrounds(keys, n - 1, a), Unrounds(keys, n - 1, b));
    AddAgrees(p, Unmiddle(Unrounds(keys, n - 1, a)), Unmiddle(Unrounds(keys, n - 1, b)), keys[0]);
  }

  // ---------- and they do the same ----------

  /** The rank beside r, in the other lane. */
  function Twin(r: nat): nat { if r % 2 == 0 then r + 1 else r - 1 }

  function SwapLanes(s: State): State { seq(RANKS, r requires 0 <= r < RANKS => s[Twin(r)]) }

  /** An expanded key holds the same subkey on both lanes. */
  ghost predicate Doubled(keys: seq<State>) {
    forall u :: 0 <= u < |keys| ==> SwapLanes(keys[u]) == keys[u]
  }

  lemma SourceOfTwin(r: nat)
    requires r < RANKS
    ensures Twin(r) < RANKS && RowSource(Twin(r)) == Twin(RowSource(r))
            && InvRowSource(Twin(r)) == Twin(InvRowSource(r))
  {
  }

  lemma AboveTwin(r: nat, n: nat)
    requires r < RANKS && n % 2 == 0
    ensures Twin(r) < RANKS && Above(Twin(r), n) == Twin(Above(r, n)) && Twin(Above(r, n)) < RANKS
  {
    var q, m := (r + n) / 32, (r + n) % 32;
    assert m % 2 == r % 2;
    if r % 2 == 0 {
      DivModUnique(r + n + 1, q, 32, m + 1);
    } else {
      DivModUnique(r + n - 1, q, 32, m - 1);
    }
  }

  lemma StepsSwap(s: State)
    ensures SubBytes(SwapLanes(s)) == SwapLanes(SubBytes(s)) && InvSubBytes(SwapLanes(s)) == SwapLanes(InvSubBytes(s))
    ensures ShiftRows(SwapLanes(s)) == SwapLanes(ShiftRows(s))
            && InvShiftRows(SwapLanes(s)) == SwapLanes(InvShiftRows(s))
  {
    hide SboxBits, InvSboxBits, RowSource, InvRowSource;
    forall r | 0 <= r < RANKS
      ensures ShiftRows(SwapLanes(s))[r] == SwapLanes(ShiftRows(s))[r]
      ensures InvShiftRows(SwapLanes(s))[r] == SwapLanes(InvShiftRows(s))[r]
    {
      SourceOfTwin(r);
    }
  }

  lemma MixSwapsAt(s: State, r: nat)
    requires r < RANKS
    ensures MixColumns(SwapLanes(s))[r] == SwapLanes(MixColumns(s))[r]
    ensures InvMixColumns(SwapLanes(s))[r] == SwapLanes(InvMixColumns(s))[r]
  {
    hide MixBits, InvMixBits, MixColumns, InvMixColumns, Above, Twin;
    AboveTwin(r, 8);
    AboveTwin(r, 16);
    AboveTwin(r, 24);
    MixAt(SwapLanes(s), r);
    MixAt(s, Twin(r));
  }

  lemma MixSwaps(s: State)
    ensures MixColumns(SwapLanes(s)) == SwapLanes(MixColumns(s))
            && InvMixColumns(SwapLanes(s)) == SwapLanes(InvMixColumns(s))
  {
    hide MixColumns, InvMixColumns, SwapLanes;
    forall r | 0 <= r < RANKS
      ensures MixColumns(SwapLanes(s))[r] == SwapLanes(MixColumns(s))[r]
      ensures InvMixColumns(SwapLanes(s))[r] == SwapLanes(InvMixColumns(s))[r]
    {
      MixSwapsAt(s, r);
    }
  }

  lemma AddSwaps(s: State, k: State)
    requires SwapLanes(k) == k
    ensures AddRoundKey(SwapLanes(s), k) == SwapLanes(AddRoundKey(s, k))
  {
    hide Plus;
    forall r | 0 <= r < RANKS
      ensures AddRoundKey(SwapLanes(s), k)[r] == SwapLanes(AddRoundKey(s, k))[r]
    {
      assert SwapLanes(k)[r] == k[Twin(r)];
    }
  }

  lemma MiddleSwaps(s: State)
    ensures Middle(SwapLanes(s)) == SwapLanes(Middle(s)) && Unmiddle(SwapLanes(s)) == SwapLanes(Unmiddle(s))
  {
    hide SubBytes, InvSubBytes, ShiftRows, InvShiftRows, SwapLanes;
    StepsSwap(s);
    StepsSwap(SubBytes(s));
    StepsSwap(InvShiftRows(s));
  }

  lemma {:induction false} RoundsSwap(keys: seq<State>, u: nat, s: State)
    requires u < |keys| && Doubled(keys)
    ensures Rounds(keys, u, SwapLanes(s)) == SwapLanes(Rounds(keys, u, s))
  {
    hide Middle, MixColumns, AddRoundKey, SwapLanes;
    if u == 0 {
      AddSwaps(s, keys[0]);
    } else {
      RoundsSwap(keys, u - 1, s);
      var a := Rounds(keys, u - 1, s);
      MiddleSwaps(a);
      MixSwaps(Middle(a));
      AddSwaps(MixColumns(Middle(a)), keys[u]);
    }
  }

  lemma {:induction false} UnroundsSwap(keys: seq<State>, u: nat, s: State)
    requires u < |keys| && Doubled(keys)
    ensures Unrounds(keys, u, SwapLanes(s)) == SwapLanes(Unrounds(keys, u, s))
    decreases u
  {
    hide Unmiddle, InvMixColumns, AddRoundKey, SwapLanes;
    if u > 0 {
      MiddleSwaps(s);
      AddSwaps(Unmiddle(s), keys[u]);
      var a := AddRoundKey(Unmiddle(s), keys[u]);
      MixSwaps(a);
      UnroundsSwap(keys, u - 1, InvMixColumns(a));
    }
  }

  /** Exchanging the two blocks that go in exchanges the two that come out. */
  lemma LanesDoTheSame(keys: seq<State>, n: nat, s: State)
    requires 0 < n < |keys| && Doubled(keys)
    ensures Encrypted(keys, n, SwapLanes(s)) == SwapLanes(Encrypted(keys, n, s))
    ensures Decrypted(keys, n, SwapLanes(s)) == SwapLanes(Decrypted(keys, n, s))
  {
    hide Middle, Unmiddle, AddRoundKey, Rounds, Unrounds, SwapLanes;
    RoundsSwap(keys, n - 1, s);
    MiddleSwaps(Rounds(keys, n - 1, s));
    AddSwaps(Middle(Rounds(keys, n - 1, s)), keys[n]);
    AddSwaps(s, keys[n]);
    var a := AddRoundKey(s, keys[n]);
    UnroundsSwap(keys, n - 1, a);
    MiddleSwaps(Unrounds(keys, n - 1, a));
    AddSwaps(Unmiddle(Unrounds(keys, n - 1, a)), keys[0]);
  }
}
