/** The scalar multiplication of curve25519.c against the X25519 function of section 5 of RFC 7748. */
module Curve25519 {
  import opened Arith
  import opened Bits
  import opened ByteStrings
  import opened LittleEndian
  import opened WordBits
  import opened WordOps
  import opened FieldLimbs
  import opened FieldBytes
  import M = Modular

  // ---------- specification: numbers modulo p ----------

  datatype Pair = Pair(x2: nat, z2: nat, x3: nat, z3: nat)

  function CondSwap(swap: bool, r: Pair): Pair {
    if swap then Pair(r.x3, r.z3, r.x2, r.z2) else r
  }

  /** The body of the loop of section 5 of RFC 7748, with a24 = 121665. */
  function Rung(r: Pair, x1: nat, p: int): Pair
    requires p > 0
  {
    var a := M.Plus(r.x2, r.z2, p);
    var aa := M.Times(a, a, p);
    var b := M.Minus(r.x2, r.z2, p);
    var bb := M.Times(b, b, p);
    var e := M.Minus(aa, bb, p);
    var da := M.Times(M.Minus(r.x3, r.z3, p), a, p);
    var cb := M.Times(M.Plus(r.x3, r.z3, p), b, p);
    var s := M.Plus(da, cb, p);
    var d := M.Minus(da, cb, p);
    Pair(M.Times(aa, bb, p), M.Times(e, M.Plus(aa, M.Times(121665, e, p), p), p),
         M.Times(s, s, p), M.Times(x1, M.Times(d, d, p), p))
  }

  datatype Ladder = Ladder(at: Pair, swap: bool)

  const BITS: nat := 255

  /** The state of that loop after the bits BITS - 1 down to `t` of k. */
  function Climb(k: nat, x1: nat, t: nat, p: int): Ladder
    requires p > 0
    decreases BITS - t
  {
    if t >= BITS then Ladder(Pair(1, 0, x1, 1), false) else
      var l := Climb(k, x1, t + 1, p);
      Ladder(Rung(CondSwap(l.swap != Bit(k, t), l.at), x1, p), Bit(k, t))
  }

  /** X25519(k, u); the inverse of z2 is its power p - 2. */
  function X25519(k: nat, u: nat, p: int): nat
    requires p > 2
  {
    var l := Climb(k, u, 0, p);
    var r := CondSwap(l.swap, l.at);
    M.Times(r.x2, M.Power(r.z2, p - 2, p), p)
  }

  // ---------- field elements as numbers modulo P ----------

  /** Limbs of 26 and 25 bits in turn, least significant first. */
  ghost function Number(limbs: seq<nat>, wide: bool): nat {
    if limbs == [] then 0 else limbs[0] + (if wide then 0x400_0000 else 0x200_0000) * Number(limbs[1..], !wide)
  }

  /** The number modulo P that an element stands for. */
  ghost function Rep(f: Fe): nat { M.Residue(Number(Limbs(f), true), P) }

  ghost function Limbs(f: Fe): seq<nat> {
    [f.v0, f.v1, f.v2, f.v3, f.v4, f.v5, f.v6, f.v7, f.v8, f.v9]
  }

  lemma NumberIsValue(f: Fe)
    ensures Number(Limbs(f), true) == Value(f)
  {
    hide Number;
    UpperLimbs(f);
    var s := Limbs(f);
    NumberStep(s, 4);
    NumberStep(s, 3);
    NumberStep(s, 2);
    NumberStep(s, 1);
    NumberStep(s, 0);
  }

  lemma UpperLimbs(f: Fe)
    ensures Number(Limbs(f)[5..], false)
         == f.v5 + 0x200_0000 * (f.v6 + 0x400_0000 * (f.v7 + 0x200_0000 * (f.v8 + 0x400_0000 * f.v9)))
  {
    hide Number;
    var s := Limbs(f);
    NumberStep(s, 9);
    NumberStep(s, 8);
    NumberStep(s, 7);
    NumberStep(s, 6);
    NumberStep(s, 5);
  }

  lemma NumberStep(s: seq<nat>, i: nat)
    requires i < |s| == 10
    ensures Number(s[10..], true) == 0 && s[0..] == s
    ensures Number(s[i..], i % 2 == 0)
         == s[i] + (if i % 2 == 0 then 0x400_0000 else 0x200_0000) * Number(s[i + 1..], i % 2 == 1)
  {
    assert s[i..][1..] == s[i + 1..];
  }

  lemma RepIs(f: Fe)
    ensures Rep(f) == M.Residue(Value(f), P) == Value(f) % P < P
  {
    hide Value, Number, M.Residue;
    NumberIsValue(f);
    M.ResidueIs(Value(f), P);
  }

  /** fe_mul_tll, fe_mul_tlt and fe_mul_ttt */
  method Multiply(f: Fe, g: Fe) returns (h: Fe)
    requires Loose(f) && Loose(g)
    ensures Tight(h) && Rep(h) == M.Times(Rep(f), Rep(g), P)
  {
    hide FeMul, Value, Rep, Loose, Tight, M.Residue, M.Times;
    h := FeMul(f, g);
    FeMulIsProduct(f, g);
    RepIs(h);
    RepIs(f);
    RepIs(g);
    M.ReduceTimes(Value(f), Value(g), P);
  }

  /** fe_sq_tl and fe_sq_tt */
  method Square(f: Fe) returns (h: Fe)
    requires Loose(f)
    ensures Tight(h) && Rep(h) == M.Times(Rep(f), Rep(f), P)
  {
    hide FeMul, FeSqr, Value, Rep, Loose, Tight, M.Residue, M.Times;
    h := FeSqr(f);
    RepIs(h);
    FeSqrIsFeMul(f);
    FeMulIsProduct(f, f);
    RepIs(f);
    M.ReduceTimes(Value(f), Value(f), P);
  }

  /** fe_mul121666 */
  method Multiply121666(f: Fe) returns (h: Fe)
    requires Loose(f)
    ensures Tight(h) && Rep(h) == M.Times(121666, Rep(f), P)
  {
    hide FeMul121666, Value, Rep, Loose, Tight, M.Residue, M.Times;
    h := FeMul121666(f);
    RepIs(h);
    FeMul121666IsMultiple(f);
    RepIs(f);
    M.ReduceTimes(121666, Value(f), P);
    M.ResidueIs(121666, P);
    SmallMod(121666, P);
  }

  /** fe_add */
  method Sum(f: Fe, g: Fe) returns (h: Fe)
    requires Tight(f) && Tight(g)
    ensures Loose(h) && Rep(h) == M.Plus(Rep(f), Rep(g), P)
  {
    hide Add, Value, Rep, Loose, Tight, M.Residue, M.Plus;
    h := Add(f, g);
    RepIs(h);
    AddValue(f, g);
    RepIs(f);
    RepIs(g);
    M.ReducePlus(Value(f), Value(g), P);
  }

  /** fe_sub */
  method Difference(f: Fe, g: Fe) returns (h: Fe)
    requires Tight(f) && Tight(g)
    ensures Loose(h) && Rep(h) == M.Minus(Rep(f), Rep(g), P)
  {
    hide Sub, Value, Rep, Loose, Tight, M.Residue, M.Minus;
    h := Sub(f, g);
    RepIs(h);
    SubValue(f, g);
    ModMultiple(Value(f) - Value(g), 2, P);
    RepIs(f);
    RepIs(g);
    M.ReduceMinus(Value(f), Value(g), P);
  }

  // ---------- inversion ----------

  ghost predicate IsPower(f: Fe, z: nat, e: nat) {
    Loose(f) && Rep(f) == M.Power(z, e, P)
  }

  lemma TimesPowers(z: nat, d: nat, e: nat, p: nat)
    requires p > 0
    ensures M.Times(M.Power(z, d, p), M.Power(z, e, p), p) == M.Power(z, d + e, p)
  {
    hide M.Residue, M.Times, M.Pow, M.Power;
    M.PowerIs(z, d, p);
    M.PowerIs(z, e, p);
    M.PowerIs(z, d + e, p);
    M.ResidueIs(M.Pow(z, d), p);
    M.ResidueIs(M.Pow(z, e), p);
    M.ReduceTimes(M.Pow(z, d), M.Pow(z, e), p);
    M.PowAdd(z, d, e);
  }

  method MultiplyPowers(f: Fe, g: Fe, ghost z: nat, ghost d: nat, ghost e: nat) returns (h: Fe)
    requires IsPower(f, z, d) && IsPower(g, z, e)
    ensures Tight(h) && IsPower(h, z, d + e)
  {
    hide Tight, Loose, Rep, M.Power, M.Times, M.Residue;
    h := Multiply(f, g);
    TightIsLoose(h);
    TimesPowers(z, d, e, P);
  }

  method SquarePower(f: Fe, ghost z: nat, ghost e: nat) returns (h: Fe)
    requires IsPower(f, z, e)
    ensures Tight(h) && IsPower(h, z, e + e)
  {
    hide Tight, Loose, Rep, M.Power, M.Times, M.Residue;
    h := Square(f);
    TightIsLoose(h);
    TimesPowers(z, e, e, P);
  }

  ghost function Raised(e: nat, i: nat): nat { e * Pow2(i) }

  lemma RaisedStep(e: nat, i: nat)
    ensures Raised(e, 0) == e && Raised(e, i + 1) == Raised(e, i) + Raised(e, i)
  {
  }

  /** A squaring, and n - 1 more. */
  method Squarings(f: Fe, n: nat, ghost z: nat, ghost e: nat) returns (h: Fe)
    requires n >= 1 && IsPower(f, z, e)
    ensures Tight(h) && IsPower(h, z, Raised(e, n))
  {
    hide IsPower, Raised, Tight;
    h := SquarePower(f, z, e);
    RaisedStep(e, 0);
    var i: nat := 1;
    while i < n
      invariant 1 <= i <= n && Tight(h) && IsPower(h, z, Raised(e, i))
    {
      h := SquarePower(h, z, Raised(e, i));
      RaisedStep(e, i);
      i := i + 1;
    }
  }

  /** From z^(2^k - 1) and z^(2^n - 1) to z^(2^(k + n) - 1). */
  method Extend(f: Fe, g: Fe, k: nat, n: nat, ghost z: nat) returns (h: Fe)
    requires n >= 1 && IsPower(f, z, Pow2(k) - 1) && IsPower(g, z, Pow2(n) - 1)
    ensures Tight(h) && IsPower(h, z, Pow2(k + n) - 1)
  {
    hide Pow2, IsPower, Tight;
    var t := Squarings(f, n, z, Pow2(k) - 1);
    h := MultiplyPowers(t, g, z, Raised(Pow2(k) - 1, n), Pow2(n) - 1);
    M.Pow2Add(k, n);
    assert (Pow2(k) - 1) * Pow2(n) == Pow2(k) * Pow2(n) - Pow2(n);
  }

  lemma ModulusIs()
    ensures Pow2(255) == T255 == P + 19
  {
    hide Pow2;
    Doubled(8, 16, 0x100, 0x1_0000);
    Doubled(16, 32, 0x1_0000, 0x1_0000_0000);
    Doubled(32, 64, 0x1_0000_0000, 0x1_0000_0000_0000_0000);
    Doubled(64, 128, 0x1_0000_0000_0000_0000, 0x1_0000_0000_0000_0000_0000_0000_0000_0000);
    Doubled(128, 256, 0x1_0000_0000_0000_0000_0000_0000_0000_0000,
            0x1_0000_0000_0000_0000_0000_0000_0000_0000_0000_0000_0000_0000_0000_0000_0000_0000);
    Halved(255);
  }

  lemma Doubled(k: nat, k2: nat, p: nat, p2: nat)
    requires k2 == 2 * k && p2 == p * p
    ensures Pow2(8) == 0x100
    ensures Pow2(k) == p ==> Pow2(k2) == p2
  {
    M.Pow2Add(k, k);
  }

  /** fe_loose_invert raises to the power 2^255 - 21 exactly. */
  method Invert(f: Fe) returns (out: Fe)
    requires Loose(f)
    ensures Tight(out) && Rep(out) == M.Power(Rep(f), P - 2, P)
  {
    hide Tight, Loose, Value, M.Power, M.Times, M.Residue, Rep, IsPower, Pow2;
    ghost var z := Rep(f);
    FirstPower(f);
    var t0 := Squarings(f, 1, z, 1);
    SmallPowers();
    var t1 := Squarings(t0, 2, z, 2);
    t1 := MultiplyPowers(f, t1, z, 1, 8);
    t0 := MultiplyPowers(t0, t1, z, 2, 9);
    var t2 := Squarings(t0, 1, z, 11);
    t1 := MultiplyPowers(t1, t2, z, 9, 22);
    t1 := Extend(t1, t1, 5, 5, z);
    t2 := Extend(t1, t1, 10, 10, z);
    t2 := Extend(t2, t2, 20, 20, z);
    t1 := Extend(t2, t1, 40, 10, z);
    t2 := Extend(t1, t1, 50, 50, z);
    t2 := Extend(t2, t2, 100, 100, z);
    t1 := Extend(t2, t1, 200, 50, z);
    t1 := Squarings(t1, 5, z, Pow2(250) - 1);
    out := MultiplyPowers(t1, t0, z, Raised(Pow2(250) - 1, 5), 11);
    M.Pow2Add(250, 5);
    ModulusIs();
    IsPowerIs(out, z, P - 2);
  }

  lemma SmallPowers()
    ensures Pow2(1) == 2 && Pow2(2) == 4 && Pow2(5) == 32
  {
  }

  lemma FirstPower(f: Fe)
    requires Loose(f)
    ensures IsPower(f, Rep(f), 1)
  {
    hide Value, Rep, M.Residue, M.Power;
    RepIs(f);
    M.PowerIs(Rep(f), 1, P);
    assert M.Pow(Rep(f), 1) == Rep(f) * M.Pow(Rep(f), 0);
    SmallMod(Rep(f), P);
  }

  lemma IsPowerIs(f: Fe, z: nat, e: nat)
    requires IsPower(f, z, e)
    ensures Loose(f) && Rep(f) == M.Power(z, e, P)
  {
  }

  // ---------- the ladder ----------

  method SwapLimb(x: nat, y: nat, mask: nat) returns (x': nat, y': nat)
    requires x < W32 && y < W32 && (mask == 0 || mask == 0xffff_ffff)
    ensures x' == (if mask == 0 then x else y) && y' == (if mask == 0 then y else x)
  {
    hide XorBits, And;
    var t := XorBits(x, y);
    XorFits(x, y);
    XorCancel(x, y);
    MaskKeeps(t);
    AndZero(t);
    XorZero(x);
    XorZero(y);
    t := And(t, mask);
    x', y' := XorBits(x, t), XorBits(y, t);
  }

  /** fe_cswap exchanges the two elements, or leaves them, without a branch. */
  method Cswap(f: Fe, g: Fe, swap: bool) returns (f': Fe, g': Fe)
    requires Tight(f) && Tight(g)
    ensures if swap then f' == g && g' == f else f' == f && g' == g
  {
    var mask := if swap then 0xffff_ffff else 0;
    var a0, b0 := SwapLimb(f.v0, g.v0, mask);
    var a1, b1 := SwapLimb(f.v1, g.v1, mask);
    var a2, b2 := SwapLimb(f.v2, g.v2, mask);
    var a3, b3 := SwapLimb(f.v3, g.v3, mask);
    var a4, b4 := SwapLimb(f.v4, g.v4, mask);
    var a5, b5 := SwapLimb(f.v5, g.v5, mask);
    var a6, b6 := SwapLimb(f.v6, g.v6, mask);
    var a7, b7 := SwapLimb(f.v7, g.v7, mask);
    var a8, b8 := SwapLimb(f.v8, g.v8, mask);
    var a9, b9 := SwapLimb(f.v9, g.v9, mask);
    f' := Fe(a0, a1, a2, a3, a4, a5, a6, a7, a8, a9);
    g' := Fe(b0, b1, b2, b3, b4, b5, b6, b7, b8, b9);
  }

  /** Four field elements that represent a pair of points. */
  datatype Elements = Elements(x2: Fe, z2: Fe, x3: Fe, z3: Fe)

  ghost predicate AllTight(q: Elements) {
    Tight(q.x2) && Tight(q.z2) && Tight(q.x3) && Tight(q.z3)
  }

  ghost function Reps(q: Elements): Pair {
    Pair(Rep(q.x2), Rep(q.z2), Rep(q.x3), Rep(q.z3))
  }

  method CswapAll(q: Elements, swap: bool) returns (q': Elements)
    requires AllTight(q)
    ensures AllTight(q') && Reps(q') == CondSwap(swap, Reps(q))
  {
    hide Tight, Rep;
    var x2, x3 := Cswap(q.x2, q.x3, swap);
    var z2, z3 := Cswap(q.z2, q.z3, swap);
    q' := Elements(x2, z2, x3, z3);
  }

  /** The loop body's field operations, with 121666 on the smaller square for the RFC's 121665 on the larger. */
  method LadderStep(q: Elements, x1: Fe) returns (q': Elements)
    requires AllTight(q) && Tight(x1)
    ensures AllTight(q') && Reps(q') == Rung(Reps(q), Rep(x1), P)
  {
    hide Tight, Loose, Rep, M.Times, M.Plus, M.Minus;
    var tmp0l := Difference(q.x3, q.z3);
    var tmp1l := Difference(q.x2, q.z2);
    var x2l := Sum(q.x2, q.z2);
    var z2l := Sum(q.x3, q.z3);
    var z3 := Multiply(tmp0l, x2l);
    var z2 := Multiply(z2l, tmp1l);
    var tmp0 := Square(tmp1l);
    var tmp1 := Square(x2l);
    var x3l := Sum(z3, z2);
    z2l := Difference(z3, z2);
    TightIsLoose(tmp1);
    TightIsLoose(tmp0);
    var x2 := Multiply(tmp1, tmp0);
    tmp1l := Difference(tmp1, tmp0);
    z2 := Square(z2l);
    z3 := Multiply121666(tmp1l);
    var x3 := Square(x3l);
    tmp0l := Sum(tmp0, z3);
    M.ShiftedMultiple(Rep(tmp1), Rep(tmp0), 121665, P);
    TightIsLoose(x1);
    TightIsLoose(z2);
    z3 := Multiply(x1, z2);
    z2 := Multiply(tmp1l, tmp0l);
    q' := Elements(x2, z2, x3, z3);
  }

  // ---------- the scalar ----------

  function ClampFirst(b: bv8): bv8 { b & 248 }

  function ClampLast(b: bv8): bv8 { (b & 127) | 64 }

  /** curve25519_clamp_secret */
  function Clamp(s: Bytes): (e: Bytes)
    requires |s| == 32
    ensures |e| == 32
  {
    [ClampFirst(s[0])] + s[1..31] + [ClampLast(s[31])]
  }

  const T254: nat := 0x4000_0000_0000_0000_0000_0000_0000_0000_0000_0000_0000_0000_0000_0000_0000_0000    // 2^254

  lemma ClampedBytes(b: bv8)
    ensures Val(ClampFirst(b)) == Val(b) - Val(b) % 8
    ensures Val(ClampLast(b)) == 64 + Val(b) % 64
  {
  }

  /** A clamped scalar: the low three bits cleared, bit 254 set and what was above it dropped. */
  lemma ClampValue(s: Bytes)
    requires |s| == 32
    ensures Le(Clamp(s)) == T254 + Le(s) % T254 - Le(s) % 8
  {
    hide Val, Le, Pow256, ClampFirst, ClampLast;
    var m := s[1..31];
    Ends(s[0], m, s[31]);
    assert s == [s[0]] + m + [s[31]];
    Ends(ClampFirst(s[0]), m, ClampLast(s[31]));
    ClampedBytes(s[0]);
    ClampedBytes(s[31]);
    LeBound(m);
    Pow256s();
    ClampIdentity(Le(s), Val(s[0]), Le(m), Val(s[31]));
  }

  lemma Ends(a: bv8, m: Bytes, b: bv8)
    ensures Le([a] + m + [b]) == Val(a) + 256 * Le(m) + 256 * Pow256(|m|) * Val(b)
  {
    hide Val, Le;
    LeConcat([a] + m, [b]);
    LeConcat([a], m);
    LeSingle(a);
    LeSingle(b);
    assert Pow256(1) == 256 * Pow256(0);
  }

  const T240: nat := 0x1_0000_0000_0000_0000_0000_0000_0000_0000_0000_0000_0000_0000_0000_0000_0000    // 256^30

  lemma Pow256s()
    ensures Pow256(30) == T240
  {
    assert Pow256(10) == 0x1_0000_0000_0000_0000_0000;
    assert Pow256(20) == 0x1_0000_0000_0000_0000_0000_0000_0000_0000_0000_0000;
  }

  lemma ClampIdentity(n: nat, a: nat, m: nat, b: nat)
    requires n == a + 256 * m + 256 * T240 * b && a < 256 && m < T240
    ensures (a - a % 8) + 256 * m + 256 * T240 * (64 + b % 64) == T254 + n % T254 - n % 8
  {
    DivModUnique(n, b / 64, T254, a + 256 * m + 256 * T240 * (b % 64));
    DivModUnique(n, a / 8 + 32 * m + 32 * T240 * b, 8, a % 8);
  }

  // ---------- curve25519 ----------

  /** fe_0 and fe_1 */
  const ZERO := Fe(0, 0, 0, 0, 0, 0, 0, 0, 0, 0)
  const ONE := Fe(1, 0, 0, 0, 0, 0, 0, 0, 0, 0)

  lemma Constants()
    ensures Tight(ZERO) && Tight(ONE) && Rep(ZERO) == 0 && Rep(ONE) == 1
  {
  }

  lemma ReducedIsTight(f: Fe)
    requires Reduced(f)
    ensures Tight(f)
  {
  }

  lemma {:induction false} LeIsZero(s: Bytes)
    ensures Le(s) == 0 <==> s == seq(|s|, _ => 0)
  {
    if s == [] {
      assert s == seq(0, _ => 0);
    } else {
      var z: Bytes := seq(|s|, _ => 0);
      LeZeros([], |s|);
      assert [] + z == z;
      assert Le(z) == 0;
      if Le(s) == 0 {
        LeInjective(s, z);
      }
    }
  }

  /** For every scalar and point: the X25519 function, and whether the result is not zero. */
  method ScalarMult(scalar: Bytes, point: Bytes) returns (out: Bytes, nonzero: bool)
    requires |scalar| == 32 && |point| == 32
    ensures |out| == 32
    ensures Le(out) == X25519(T254 + Le(scalar) % T254 - Le(scalar) % 8, Le(point) % T255 % P, P)
    ensures nonzero <==> Le(out) != 0
  {
    hide Tight, Reduced, Rep, Rung, Le, Value, High, Pow2, M.Times, M.Power, M.Residue, Clamp;
    var e := Clamp(scalar);
    ClampValue(scalar);
    var x1 := FromBytes(point);
    ReducedIsTight(x1);
    Constants();
    var q := Elements(ONE, ZERO, x1, ONE);
    var swap := false;
    ghost var k := Le(e);
    ghost var u := Le(point) % T255 % P;
    RepIs(x1);
    var pos: int := 254;
    while pos >= 0
      invariant -1 <= pos <= 254 && AllTight(q)
      invariant Ladder(Reps(q), swap) == Climb(k, u, pos + 1, P)
    {
      var b := Shr(Val(e[pos / 8]), Pow2(pos % 8)) % 2 == 1;
      LowHigh(Val(e[pos / 8]), pos % 8);
      BitOfByte(e, pos);
      q := CswapAll(q, swap != b);
      swap := b;
      q := LadderStep(q, x1);
      pos := pos - 1;
    }
    q := CswapAll(q, swap);
    TightIsLoose(q.x2);
    TightIsLoose(q.z2);
    var z2 := Invert(q.z2);
    TightIsLoose(z2);
    var x2 := Multiply(q.x2, z2);
    out := ToBytes(x2);
    RepIs(x2);
    nonzero := out != seq(32, _ => 0);
    LeIsZero(out);
  }
}
