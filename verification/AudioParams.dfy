/** Block-size negotiation of audio.c: audio_gcd, audio_blksz_bytes, audio_setpar_blksz, audio_setpar_nblks. */
module AudioParams {
  import opened Arith
  import opened AudioRing
  import opened WordOps
  import Audio
  import AudioRuns

  const I31: nat := 0x8000_0000

  lemma Div(x: int, d: int)
    requires d > 0 && x % d == 0
    ensures x == (x / d) * d
  {
  }

  lemma CancelRight(a: int, b: int, g: int)
    requires g > 0 && a * g == b * g
    ensures a == b
  {
    assert (a - b) * g == 0;
    MulAtLeast(a - b, g);
  }

  /** `g` is the greatest common divisor of `a` and `b`, with Bezout's coefficients. */
  ghost predicate IsGcd(g: nat, a: nat, b: nat, u: int, v: int) {
    0 < g && a % g == 0 && b % g == 0 && g == u * a + v * b
  }

  function Euclid(a: nat, b: nat): nat
    decreases b
  {
    if b == 0 then a else Euclid(b, a % b)
  }

  /** audio_gcd */
  method Gcd(a0: nat, b0: nat) returns (a: nat)
    ensures a == Euclid(a0, b0)
  {
    a := a0;
    var b: nat := b0;
    while b > 0
      invariant Euclid(a, b) == Euclid(a0, b0)
      decreases b
    {
      var r := a % b;
      a := b;
      b := r;
    }
  }

  lemma Combine(a: int, b: int, g: int, p: int, q: int)
    requires b > 0 && g > 0 && g == p * b + q * (a % b)
    requires b % g == 0 && (a % b) % g == 0
    ensures g == q * a + (p - q * (a / b)) * b
    ensures a % g == 0
  {
    var k, r := a / b, a % b;
    assert a == k * b + r;
    assert q * a == q * k * b + q * r;
    Div(b, g);
    Div(r, g);
    assert k * b == k * (b / g) * g;
    assert (k * (b / g) + r / g) * g == a;
    ModOfMultiple(k * (b / g) + r / g, g);
  }

  /** Euclid's algorithm finds the greatest common divisor: it divides both and is a combination of them. */
  lemma {:induction false} EuclidIsGcd(a: nat, b: nat) returns (u: int, v: int)
    requires a > 0 || b > 0
    ensures IsGcd(Euclid(a, b), a, b, u, v)
    decreases b
  {
    if b == 0 {
      u, v := 1, 0;
      DivModUnique(a, 1, a, 0);
      DivModUnique(0, 0, a, 0);
    } else {
      var p, q := EuclidIsGcd(b, a % b);
      Combine(a, b, Euclid(a, b), p, q);
      u, v := q, p - q * (a / b);
    }
  }

  lemma CofactorDivides(a1: int, b1: int, g: int, u: int, v: int, n: int, q: int)
    requires g > 0 && b1 > 0
    requires g == u * (a1 * g) + v * (b1 * g) && n * (a1 * g) == q * (b1 * g)
    ensures n % b1 == 0
  {
    assert (u * a1 + v * b1) * g == 1 * g;
    CancelRight(u * a1 + v * b1, 1, g);
    assert (n * a1) * g == (q * b1) * g;
    CancelRight(n * a1, q * b1, g);
    calc {
      n;
      n * (u * a1 + v * b1);
      u * (n * a1) + n * v * b1;
      u * (q * b1) + n * v * b1;
      (u * q + n * v) * b1;
    }
    ModOfMultiple(u * q + n * v, b1);
  }

  /** `b` divides `n * a` exactly when `b / g` divides `n`. */
  lemma Cofactor(a: nat, b: nat, g: nat, u: int, v: int, n: nat)
    requires IsGcd(g, a, b, u, v) && b > 0
    ensures b / g > 0
    ensures (n * a) % b == 0 <==> n % (b / g) == 0
  {
    var a1, b1 := a / g, b / g;
    Div(a, g);
    Div(b, g);
    MulAtLeast(-b1, g);
    if (n * a) % b == 0 {
      Div(n * a, b);
      CofactorDivides(a1, b1, g, u, v, n, n * a / b);
    }
    if n % b1 == 0 {
      Div(n, b1);
      assert n * a == (n / b1 * a1) * b;
      ModOfMultiple(n / b1 * a1, b);
    }
  }

  /** The least number of frames of `f` bytes that fills whole units of `bytes` bytes. */
  function PerUnit(f: nat, bytes: nat): nat
    requires bytes > 0
  {
    var g := Euclid(f, bytes);
    if g == 0 then 0 else bytes / g
  }

  lemma PerUnitExact(f: nat, bytes: nat, n: nat)
    requires bytes > 0
    ensures Euclid(f, bytes) > 0 && 0 < PerUnit(f, bytes) <= bytes
    ensures bytes % PerUnit(f, bytes) == 0
    ensures (n * f) % bytes == 0 <==> n % PerUnit(f, bytes) == 0
  {
    var u, v := EuclidIsGcd(f, bytes);
    var g := Euclid(f, bytes);
    Cofactor(f, bytes, g, u, v, n);
    Div(bytes, g);
    var q := PerUnit(f, bytes);
    ModOfMultiple(g, q);
    assert bytes == g * q;
    MulAtLeast(g, q);
  }

  function Lcm(x: nat, y: nat): nat {
    var g := Euclid(x, y);
    if g == 0 then 0 else x * y / g
  }

  /** A number is a multiple of both exactly when it is a multiple of their least common multiple. */
  lemma LcmExact(x: nat, y: nat, n: nat)
    requires x > 0 && y > 0
    ensures Euclid(x, y) > 0 && Lcm(x, y) > 0
    ensures n % x == 0 && n % y == 0 <==> n % Lcm(x, y) == 0
  {
    var u, v := EuclidIsGcd(x, y);
    var g := Euclid(x, y);
    var y1 := y / g;
    Div(y, g);
    LcmIs(x, y1, g);
    MulAtLeast(x, y1);
    Cofactor(x, y, g, u, v, n / x);
    if n % x == 0 {
      Div(n, x);
      MultipleOfProduct(n, x, y1);
    }
    if n % (x * y1) == 0 {
      ProductDivides(n, x, y1);
    }
  }

  lemma MultipleOfProduct(n: nat, x: nat, y: nat)
    requires x > 0 && y > 0 && n % x == 0
    ensures x * y > 0
    ensures (n / x) % y == 0 ==> n % (x * y) == 0
  {
    Div(n, x);
    if (n / x) % y == 0 {
      Div(n / x, y);
      assert n == (n / x / y) * (x * y);
      ModOfMultiple(n / x / y, x * y);
    }
  }

  lemma ProductDivides(n: nat, x: nat, y: nat)
    requires x > 0 && y > 0 && x * y > 0 && n % (x * y) == 0
    ensures n % x == 0 && (n / x) % y == 0
  {
    var k := n / (x * y);
    Div(n, x * y);
    assert n == (k * y) * x;
    DivModUnique(n, k * y, x, 0);
    ModOfMultiple(k, y);
  }

  lemma LcmIs(x: nat, y1: nat, g: nat)
    requires g > 0
    ensures x * (y1 * g) / g == x * y1
  {
    assert x * (y1 * g) == (x * y1) * g;
    DivModUnique(x * (y1 * g), x * y1, g, 0);
  }

  /** Frames per block needed in each enabled direction; the other direction follows the enabled one. */
  function PlayUnits(play: bool, rec: bool, fp: nat, fr: nat, bytes: nat): nat
    requires bytes > 0
  {
    if play then PerUnit(fp, bytes) else PerUnit(fr, bytes)
  }

  function RecUnits(play: bool, rec: bool, fp: nat, fr: nat, bytes: nat): nat
    requires bytes > 0
  {
    if rec then PerUnit(fr, bytes) else PerUnit(fp, bytes)
  }

  /** `n` frames fill whole units of `bytes` bytes in every enabled direction. */
  ghost predicate Suits(play: bool, rec: bool, fp: nat, fr: nat, bytes: nat, n: nat)
    requires bytes > 0
  {
    (play ==> (n * fp) % bytes == 0) && (rec ==> (n * fr) % bytes == 0)
  }

  lemma LcmSuits(play: bool, rec: bool, fp: nat, fr: nat, bytes: nat, n: nat)
    requires bytes > 0 && (play || rec)
    ensures var np, nr := PlayUnits(play, rec, fp, fr, bytes), RecUnits(play, rec, fp, fr, bytes);
            && 0 < np <= bytes && 0 < nr <= bytes && Euclid(nr, np) > 0 && 0 < Lcm(nr, np) <= bytes
            && (Suits(play, rec, fp, fr, bytes, n) <==> n % Lcm(nr, np) == 0)
  {
    hide PerUnit, Lcm;
    var np, nr := PlayUnits(play, rec, fp, fr, bytes), RecUnits(play, rec, fp, fr, bytes);
    PerUnitExact(fp, bytes, n);
    PerUnitExact(fr, bytes, n);
    LcmExact(nr, np, n);
    LcmExact(nr, np, bytes);
    Div(bytes, Lcm(nr, np));
    MulAtLeast(bytes / Lcm(nr, np), Lcm(nr, np));
  }

  function ToInt(x: nat): int { if x < I31 then x else x - W32 }

  /**
   * audio_blksz_bytes, with `fp` and `fr` the bytes per play and record frame. Products are
   * 32 bits wide and the result is returned as a signed integer.
   */
  method BlkszBytes(play: bool, rec: bool, fp: nat, fr: nat, bytes: nat) returns (r: int)
    requires (play || rec) && 0 < bytes < I31
    ensures var np, nr := PlayUnits(play, rec, fp, fr, bytes), RecUnits(play, rec, fp, fr, bytes);
            (r > 0 && forall n: nat :: Suits(play, rec, fp, fr, bytes, n) <==> n % r == 0) <==> nr * np < W32
  {
    hide Lcm, Euclid, Suits, Combined;
    var np, nr;
    if play {
      var g := Gcd(fp, bytes);
      PerUnitExact(fp, bytes, 0);
      np := bytes / g;
      if !rec {
        nr := np;
      }
    }
    if rec {
      var g := Gcd(fr, bytes);
      PerUnitExact(fr, bytes, 0);
      nr := bytes / g;
      if !play {
        np := nr;
      }
    }
    LcmSuits(play, rec, fp, fr, bytes, 0);
    var g := Gcd(nr, np);
    r := ToInt(Combined(nr, np, g));
    CombinedIsLcm(nr, np, bytes);
    forall n: nat ensures Suits(play, rec, fp, fr, bytes, n) <==> n % Lcm(nr, np) == 0 {
      LcmSuits(play, rec, fp, fr, bytes, n);
    }
    if 0 < r < Lcm(nr, np) {
      DivModUnique(r, 0, Lcm(nr, np), r);
      DivModUnique(r, 1, r, 0);
      assert r % r == 0 && !Suits(play, rec, fp, fr, bytes, r);
    }
  }

  /** nr * np / gcd(nr, np) in 32-bit arithmetic */
  function Combined(nr: nat, np: nat, g: nat): nat
    requires g > 0
  {
    nr * np % W32 / g
  }

  lemma CombinedIsLcm(nr: nat, np: nat, bytes: nat)
    requires 0 < nr <= bytes && 0 < np <= bytes < W32
    ensures Euclid(nr, np) > 0
    ensures nr * np < W32 ==> Combined(nr, np, Euclid(nr, np)) == Lcm(nr, np)
    ensures nr * np >= W32 ==> Combined(nr, np, Euclid(nr, np)) < Lcm(nr, np)
  {
    var u, v := EuclidIsGcd(nr, np);
    var g := Euclid(nr, np);
    Div(np, g);
    MulAtLeast(np / g, g);
    var x := nr * np;
    if x < W32 {
      DivModUnique(x, 0, W32, x);
    } else {
      WrapShrinks(x, g);
    }
  }

  lemma WrapShrinks(x: nat, g: nat)
    requires x >= W32 && 0 < g < W32
    ensures x % W32 / g < x / g
  {
    DivMonotone(x % W32, x - g, g);
    DivModUnique(x - g, x / g - 1, g, x % g);
  }

  /** With frames of one byte a unit of n bytes takes n of them. */
  lemma UnitOfOne(n: nat)
    requires n > 0
    ensures Euclid(1, n) == 1 && PerUnit(1, n) == n
  {
    if n > 1 {
      SmallMod(1, n);
      assert Euclid(1, n) == Euclid(n, 1) == Euclid(1, n % 1);
    }
    assert n % 1 == 0;
    assert Euclid(1, 0) == 1;
  }

  lemma EuclidSelf(n: nat)
    requires n > 0
    ensures Euclid(n, n) == n && Lcm(n, n) == n
  {
    ModOfMultiple(1, n);
    assert Euclid(n, n) == Euclid(n, 0);
    DivModUnique(n * n, n, n, 0);
  }

  /** The 32-bit product does wrap, and then the result is 0 for units of 65536 bytes and 1 for 65537. */
  lemma BlkszWraps(fr: nat)
    ensures forall n: nat :: 0 < n ==> PlayUnits(true, false, 1, fr, n) == n == RecUnits(true, false, 1, fr, n)
    ensures 65536 * 65536 == W32 && Combined(65536, 65536, Euclid(65536, 65536)) == 0
    ensures 65537 * 65537 > W32 && Combined(65537, 65537, Euclid(65537, 65537)) == 1
  {
    forall n: nat | 0 < n ensures PerUnit(1, n) == n {
      UnitOfOne(n);
    }
    EuclidSelf(65536);
    EuclidSelf(65537);
  }

  datatype Error = Ok | Enodev | Eio | DivideFault

  /** What the driver and the caller ask for: bytes per frame, buffer sizes, block constraints. */
  datatype Ask = Ask(
    play: bool, rec: bool,
    fp: nat, fr: nat,             // bytes per play and record frame
    pdata: nat, rdata: nat,       // sizes of the two DMA buffers
    blkMult: nat,                 // round_blocksize(1), or 1
    blkMax: nat,                  // round_blocksize(AUDIO_BUFSZ), or AUDIO_BUFSZ
    rate: nat)
  {
    /** The numbers have 32 bits, and the device is open. */
    ghost predicate Valid() {
      && (play || rec)
      && fp < W32 && fr < W32 && blkMult < W32 && blkMax < W32 && rate < W32
    }

    predicate HasFrames() {
      (play ==> 0 < fp) && (rec ==> 0 < fr)
    }
  }

  /** The largest multiple of `m` not above `x`. */
  function Floor(x: nat, m: nat): (r: nat)
    requires m > 0
    ensures r <= x < r + m && r % m == 0
  {
    ModOfMultiple(x / m, m);
    x / m * m
  }

  /** Lines 803-818: the most frames a block may have, before rounding. */
  function MaxFrames(a: Ask): nat
    requires a.Valid() && a.HasFrames()
  {
    var m := MaxBytes(a);
    if a.play && a.rec then (if m / a.fp < m / a.fr then m / a.fp else m / a.fr)
    else if a.play then m / a.fp
    else m / a.fr
  }

  function MaxBytes(a: Ask): nat {
    var m := if a.play && a.blkMax > a.pdata / 2 then a.pdata / 2 else a.blkMax;
    if a.rec && m > a.rdata / 2 then a.rdata / 2 else m
  }

  lemma FramesFit(m: nat, f: nat, n: nat)
    requires f > 0 && n <= m / f
    ensures n * f <= m && n <= m
  {
    MulAtLeast(m / f - n, f);
    assert (m / f - n) * f == m / f * f - n * f;
    if n > 0 {
      MulAtMost(n, f);
    }
  }

  lemma MulAtMost(n: nat, f: nat)
    requires f > 0
    ensures n <= n * f
  {
  }

  lemma MaxFramesFit(a: Ask, n: nat)
    requires a.Valid() && a.HasFrames() && n <= MaxFrames(a)
    ensures SizesFit(a, n) && n < W32
  {
    if a.play {
      FramesFit(MaxBytes(a), a.fp, n);
    }
    if a.rec {
      FramesFit(MaxBytes(a), a.fr, n);
    }
  }

  /** Two blocks of `round` frames fit each buffer. */
  ghost predicate SizesFit(a: Ask, round: nat) {
    && (a.play ==> 2 * (round * a.fp) <= a.pdata && round * a.fp <= a.blkMax)
    && (a.rec ==> 2 * (round * a.fr) <= a.rdata && round * a.fr <= a.blkMax)
  }

  lemma FitsQuotient(n: nat, f: nat, m: nat)
    requires f > 0
    ensures n <= m / f <==> n * f <= m
  {
    if n <= m / f {
      FramesFit(m, f, n);
    } else {
      MulAtLeast(n - m / f - 1, f);
      assert (n - m / f - 1) * f == n * f - m / f * f - f;
    }
  }

  /** Two blocks of `bytes` fit each buffer in use, also that of the other direction. */
  predicate HalfFits(a: Ask, bytes: int) {
    bytes <= a.blkMax && (a.play ==> 2 * bytes <= a.pdata) && (a.rec ==> 2 * bytes <= a.rdata)
  }

  /** A block may have n frames exactly when the blocks of both directions take at most half of either buffer. */
  lemma MaxFramesIs(a: Ask, n: nat)
    requires a.Valid() && a.HasFrames()
    ensures n <= MaxFrames(a) <==> (a.play ==> HalfFits(a, n * a.fp)) && (a.rec ==> HalfFits(a, n * a.fr))
  {
    hide MaxBytes, HalfFits;
    if a.play {
      FitsQuotient(n, a.fp, MaxBytes(a));
      MaxBytesIs(a, n * a.fp);
    }
    if a.rec {
      FitsQuotient(n, a.fr, MaxBytes(a));
      MaxBytesIs(a, n * a.fr);
    }
  }

  lemma MaxBytesIs(a: Ask, bytes: int)
    ensures bytes <= MaxBytes(a) <==> HalfFits(a, bytes)
  {
  }

  /** A block size for the hardware: whole units, and at most half of each buffer. */
  ghost predicate GoodRound(a: Ask, round: nat)
    requires a.blkMult > 0
  {
    Suits(a.play, a.rec, a.fp, a.fr, a.blkMult, round) && SizesFit(a, round)
  }

  // ---------- the frame multiplier, in 32-bit arithmetic ----------

  function Nr(a: Ask): nat
    requires a.blkMult > 0
  {
    RecUnits(a.play, a.rec, a.fp, a.fr, a.blkMult)
  }

  function Np(a: Ask): nat
    requires a.blkMult > 0
  {
    PlayUnits(a.play, a.rec, a.fp, a.fr, a.blkMult)
  }

  /** The multiplier the code works with. */
  ghost function Mult(a: Ask): (m: nat)
    requires a.Valid() && a.blkMult > 0
    ensures m < W32
  {
    LcmSuits(a.play, a.rec, a.fp, a.fr, a.blkMult, 0);
    CombinedIsLcm(Nr(a), Np(a), a.blkMult);
    Combined(Nr(a), Np(a), Euclid(Nr(a), Np(a)))
  }

  /** The multiplier it should work with. */
  ghost function Least(a: Ask): (m: nat)
    requires a.Valid() && a.blkMult > 0
    ensures 0 < m <= a.blkMult
  {
    LcmSuits(a.play, a.rec, a.fp, a.fr, a.blkMult, 0);
    Lcm(Nr(a), Np(a))
  }

  /** They are the same exactly when the product of the two units has 32 bits. */
  lemma MultIsLeast(a: Ask)
    requires a.Valid() && a.blkMult > 0
    ensures Mult(a) <= Least(a) <= a.blkMult && 0 < Least(a)
    ensures Mult(a) == Least(a) <==> Nr(a) * Np(a) < W32
  {
    hide Lcm, Combined, Euclid, PlayUnits, RecUnits;
    LcmSuits(a.play, a.rec, a.fp, a.fr, a.blkMult, 0);
    CombinedIsLcm(Nr(a), Np(a), a.blkMult);
  }

  /** A division by zero: frames without bytes, or a multiplier that wrapped to zero. */
  ghost predicate Faults(a: Ask)
    requires a.Valid() && a.blkMult > 0
  {
    !a.HasFrames() || Mult(a) == 0
  }

  /** Block sizes in frames are multiples of `Mult` between `Lo` and `Hi`. */
  ghost function Hi(a: Ask): nat
    requires a.Valid() && a.blkMult > 0 && !Faults(a)
  {
    Floor(MaxFrames(a), Mult(a))
  }

  ghost function Lo(a: Ask): nat
    requires a.Valid() && a.blkMult > 0 && !Faults(a)
  {
    Floor((a.rate / 1000 + Mult(a) - 1) % W32, Mult(a))
  }

  /** The block size chosen when `round0` is asked for. */
  ghost function Chosen(a: Ask, round0: nat): nat
    requires a.Valid() && a.blkMult > 0 && !Faults(a)
  {
    Pick(round0, Lo(a), Hi(a), Mult(a))
  }

  /** The multiple of `m` next to `round0`, or the bound that it exceeds. */
  function Pick(round0: nat, lo: nat, hi: nat, m: nat): nat
    requires m > 0
  {
    var r := Floor((round0 + m / 2) % W32, m);
    if r > hi then hi else if r < lo then lo else r
  }

  /** The lower bound is positive exactly for a millisecond of frames whose sum with the multiplier does not wrap. */
  lemma LoPositive(a: Ask)
    requires a.Valid() && a.blkMult > 0 && !Faults(a)
    ensures Lo(a) > 0 <==> a.rate >= 1000 && a.rate / 1000 + Mult(a) - 1 < W32
  {
    hide Mult, Floor, MaxFrames;
    var m, x := Mult(a), a.rate / 1000 + Mult(a) - 1;
    if x < W32 {
      SmallMod(x, W32);
    } else {
      DivModUnique(x, 1, W32, x - W32);
    }
    if Lo(a) < m {
      MultipleBelow(Lo(a), m);
    }
  }

  lemma MultipleBelow(x: nat, m: nat)
    requires x < m && x % m == 0
    ensures x == 0
  {
    DivModUnique(x, 0, m, x);
  }

  /** Whatever is asked for, two blocks of the chosen size fit each buffer. */
  lemma ChosenFits(a: Ask, round0: nat)
    requires a.Valid() && a.blkMult > 0 && !Faults(a) && Lo(a) <= Hi(a)
    ensures Chosen(a, round0) % Mult(a) == 0 && Lo(a) <= Chosen(a, round0) <= Hi(a)
    ensures SizesFit(a, Chosen(a, round0))
  {
    hide Mult, MaxFrames, SizesFit;
    MaxFramesFit(a, Chosen(a, round0));
  }

  /** It is whole hardware units exactly when it is a multiple of the right multiplier. */
  lemma ChosenIsGood(a: Ask, round0: nat)
    requires a.Valid() && a.blkMult > 0 && !Faults(a) && Lo(a) <= Hi(a)
    ensures GoodRound(a, Chosen(a, round0)) <==> Chosen(a, round0) % Least(a) == 0
    ensures Nr(a) * Np(a) < W32 ==> GoodRound(a, Chosen(a, round0))
  {
    hide Mult, Chosen, SizesFit, Lcm, Suits, Faults;
    ChosenFits(a, round0);
    MultIsLeast(a);
    LcmSuits(a.play, a.rec, a.fp, a.fr, a.blkMult, Chosen(a, round0));
  }

  /** Every pick is a multiple of `l`: exactly when `m` is, or there is one pick only and it happens to be one. */
  lemma AllPicks(lo: nat, hi: nat, m: nat, l: nat)
    requires 0 < m <= l && m < W32 && lo <= hi < W32 && lo % m == 0 && hi % m == 0
    ensures (forall round0: nat :: round0 < W32 ==> Pick(round0, lo, hi, m) % l == 0)
       <==> m == l || (lo == hi && hi % l == 0)
  {
    if m == l {
      forall round0: nat ensures Pick(round0, lo, hi, m) % m == 0 {
      }
    } else {
      hide Floor;
      LowestPick(lo, hi, m);
      if lo < hi {
        var round0 := SecondPick(lo, hi, m);
        if lo % l == 0 {
          TwoMultiples(lo, m, l);
        }
      } else {
        forall round0: nat ensures Pick(round0, lo, hi, m) == hi {
        }
      }
    }
  }

  lemma TwoMultiples(x: nat, m: nat, l: nat)
    requires 0 < m < l && x % l == 0
    ensures (x + m) % l != 0
  {
    DivModUnique(x + m, x / l, l, m);
  }

  lemma LowestPick(lo: nat, hi: nat, m: nat)
    requires 0 < m < W32 && lo <= hi
    ensures Pick(0, lo, hi, m) == lo
  {
    hide Floor;
    SmallMod(m / 2, W32);
    MultipleBelow(Floor(m / 2, m), m);
  }

  lemma SecondPick(lo: nat, hi: nat, m: nat) returns (round0: nat)
    requires 0 < m < W32 && lo < hi < W32 && lo % m == 0 && hi % m == 0
    ensures round0 < W32 && Pick(round0, lo, hi, m) == lo + m
  {
    hide Floor;
    FloorOfMultiple(lo, hi, m);
    round0 := lo + m - m / 2;
    SmallMod(lo + m, W32);
    assert round0 + m / 2 == lo + m;
  }

  lemma FloorOfMultiple(x: nat, y: nat, m: nat)
    requires 0 < m && x % m == 0 && y % m == 0 && x < y
    ensures x + m <= y && Floor(x + m, m) == x + m
  {
    hide Floor;
    if y < x + m {
      MultipleGap(x, y, m);
    }
    MultipleStep(x, m);
    MultipleGap(Floor(x + m, m), x + m, m);
  }

  lemma RangeIs(a: Ask)
    requires a.Valid() && a.blkMult > 0 && !Faults(a)
    ensures 0 < Mult(a) && Lo(a) % Mult(a) == 0 && Hi(a) % Mult(a) == 0 && Hi(a) < W32
  {
    hide Mult, MaxFrames, SizesFit;
    MaxFramesFit(a, Hi(a));
  }

  /** A multiple is in range exactly when it fits and lasts a millisecond, unless the lower bound wrapped. */
  lemma RangeIsExact(a: Ask, n: nat)
    requires a.Valid() && a.blkMult > 0 && !Faults(a)
    requires a.rate / 1000 + Mult(a) - 1 < W32 && n % Mult(a) == 0
    ensures Lo(a) <= n <= Hi(a)
       <==> a.rate / 1000 <= n && (a.play ==> HalfFits(a, n * a.fp)) && (a.rec ==> HalfFits(a, n * a.fr))
  {
    hide Mult, MaxFrames, HalfFits, Floor, Faults;
    FramesThere(a);
    FaultsNot(a);
    MaxFramesIs(a, n);
    FloorIsLargest(MaxFrames(a), Mult(a), n);
    LowestMultiple(a.rate / 1000, Mult(a), n);
  }

  lemma FaultsNot(a: Ask)
    requires a.Valid() && a.blkMult > 0 && !Faults(a)
    ensures Mult(a) > 0
  {
  }

  lemma LowestMultiple(x: nat, m: nat, n: nat)
    requires m > 0 && n % m == 0 && x + m - 1 < W32
    ensures Floor((x + m - 1) % W32, m) <= n <==> x <= n
  {
    hide Floor;
    SmallMod(x + m - 1, W32);
    if n < Floor(x + m - 1, m) {
      MultiplesApart(n, Floor(x + m - 1, m), m);
    }
  }

  lemma FloorIsLargest(x: nat, m: nat, n: nat)
    requires m > 0 && n % m == 0
    ensures n <= x <==> n <= Floor(x, m)
  {
    hide Floor;
    if Floor(x, m) < n <= x {
      MultiplesApart(Floor(x, m), n, m);
    }
  }

  lemma MultiplesApart(x: nat, y: nat, m: nat)
    requires m > 0 && x % m == 0 && y % m == 0 && x < y
    ensures x + m <= y
  {
    if y < x + m {
      MultipleGap(x, y, m);
    }
  }

  /** No block size in range is nearer to the one asked for, unless rounding it up wrapped. */
  lemma ChosenIsNearest(a: Ask, round0: nat, n: nat)
    requires a.Valid() && a.blkMult > 0 && !Faults(a) && round0 + Mult(a) / 2 < W32
    requires n % Mult(a) == 0 && Lo(a) <= n <= Hi(a)
    ensures Lo(a) <= Chosen(a, round0) <= Hi(a)
    ensures if n <= round0 then n <= Chosen(a, round0) <= round0 + (round0 - n)
            else round0 - (n - round0) <= Chosen(a, round0) <= n
  {
    hide Mult, Floor, Lo, Hi, Faults;
    RangeIs(a);
    var m := Mult(a);
    SmallMod(round0 + m / 2, W32);
    var r := Floor(round0 + m / 2, m);
    if n < r {
      MultiplesApart(n, r, m);
    } else if r < n {
      MultiplesApart(r, n, m);
    }
  }

  lemma PickIsGood(a: Ask, round0: nat)
    requires a.Valid() && a.blkMult > 0 && !Faults(a) && Lo(a) <= Hi(a)
    ensures GoodRound(a, Chosen(a, round0)) <==> Pick(round0, Lo(a), Hi(a), Mult(a)) % Least(a) == 0
  {
    hide Mult, Pick, GoodRound, Least, Lo, Hi, Faults;
    RangeIs(a);
    ChosenIsGood(a, round0);
  }

  /**
   * When every block size the code accepts is good: exactly when the product does not wrap,
   * or the range holds one block size only and that happens to be good.
   */
  lemma AlwaysGoodExactlyWhen(a: Ask)
    requires a.Valid() && a.blkMult > 0 && !Faults(a) && Lo(a) <= Hi(a)
    ensures (forall round0: nat :: round0 < W32 ==> GoodRound(a, Chosen(a, round0)))
       <==> Nr(a) * Np(a) < W32 || (Lo(a) == Hi(a) && Hi(a) % Least(a) == 0)
  {
    hide Mult, Pick, GoodRound, Least, Lo, Hi, Faults, Chosen, Nr, Np;
    MultIsLeast(a);
    RangeIs(a);
    AllPicks(Lo(a), Hi(a), Mult(a), Least(a));
    forall round0: nat
      ensures GoodRound(a, Chosen(a, round0)) <==> Pick(round0, Lo(a), Hi(a), Mult(a)) % Least(a) == 0
    {
      PickIsGood(a, round0);
    }
  }

  /**
   * The failing family is not empty. With frames of one byte a hardware multiplier of 65536 makes the code divide
   * by 0, and one of 65537 makes it accept any number of frames.
   */
  lemma MultiplierWraps(a: Ask)
    requires a.Valid() && a.play && !a.rec && a.fp == 1
    ensures a.blkMult == 65536 ==> Nr(a) * Np(a) == W32 && Mult(a) == 0 && Faults(a)
    ensures a.blkMult == 65537 ==> Nr(a) * Np(a) > W32 && Mult(a) == 1 && Least(a) == 65537 && !Faults(a)
  {
    BlkszWraps(a.fr);
    EuclidSelf(65537);
  }

  /** Lines 779-793: the least multiplier of the number of frames per block, as far as it has 32 bits. */
  method FrameMultiplier(a: Ask) returns (mult: nat)
    requires a.Valid() && a.blkMult > 0
    ensures mult == Mult(a)
  {
    hide Euclid, Lcm, PerUnit, Combined;
    var np, nr;
    if a.play {
      var g := Gcd(a.fp, a.blkMult);
      PerUnitExact(a.fp, a.blkMult, 0);
      np := a.blkMult / g;
      UnitsAre(a);
      if !a.rec {
        nr := np;
      }
    }
    if a.rec {
      var g := Gcd(a.fr, a.blkMult);
      PerUnitExact(a.fr, a.blkMult, 0);
      nr := a.blkMult / g;
      UnitsAre(a);
      if !a.play {
        np := nr;
      }
    }
    var g := Gcd(nr, np);
    LcmSuits(a.play, a.rec, a.fp, a.fr, a.blkMult, 0);
    mult := Combined(nr, np, g);
  }

  /** audio_setpar_blksz without a set_blksz hook; `round0` is the block size asked for. */
  method SetparBlksz(a: Ask, round0: nat) returns (err: Error, round: nat)
    requires a.Valid() && round0 < W32
    ensures err == Enodev <==> a.blkMult == 0
    ensures err == DivideFault <==> a.blkMult > 0 && Faults(a)
    ensures err == Eio <==> a.blkMult > 0 && !Faults(a) && Hi(a) < Lo(a)
    ensures err == Ok ==> round == Chosen(a, round0) && SizesFit(a, round)
    ensures err == Ok && Nr(a) * Np(a) < W32 ==> GoodRound(a, round)
    ensures err == Ok ==> (a.rate >= 1000 && a.rate / 1000 + Mult(a) - 1 < W32 ==> round > 0)
  {
    hide Mult, MaxFrames, Floor, SizesFit, GoodRound, Nr, Np;
    round := round0;
    if a.blkMult == 0 {
      return Enodev, round;
    }
    var mult := FrameMultiplier(a);
    if !a.HasFrames() || mult == 0 {
      return DivideFault, round;
    }
    var max := Floor(MaxFrames(a), mult);
    var min := Floor((a.rate / 1000 + mult - 1) % W32, mult);
    if max < min {
      return Eio, round;
    }
    round := Floor((round + mult / 2) % W32, mult);
    if round > max {
      round := max;
    } else if round < min {
      round := min;
    }
    LoPositive(a);
    ChosenFits(a, round0);
    ChosenIsGood(a, round0);
    err := Ok;
  }

  lemma UnitsAre(a: Ask)
    requires a.Valid() && a.blkMult > 0
    ensures Euclid(a.fp, a.blkMult) > 0 ==> PerUnit(a.fp, a.blkMult) == a.blkMult / Euclid(a.fp, a.blkMult)
    ensures Euclid(a.fr, a.blkMult) > 0 ==> PerUnit(a.fr, a.blkMult) == a.blkMult / Euclid(a.fr, a.blkMult)
  {
  }

  /** The blocks that fit a buffer, as an unsigned int. */
  function FitBlocks(datalen: nat, blksz: nat): nat
    requires blksz > 0
  {
    datalen / blksz % W32
  }

  lemma FitBlocksIs(datalen: nat, blksz: nat)
    requires blksz > 0 && 2 * blksz <= datalen
    ensures 2 <= datalen / blksz && FitBlocks(datalen, blksz) <= datalen / blksz
    ensures datalen < W32 ==> FitBlocks(datalen, blksz) == datalen / blksz
  {
    DivMonotone(2 * blksz, datalen, blksz);
    DivModUnique(2 * blksz, 2, blksz, 0);
    var q := datalen / blksz;
    MulAtMost(q, blksz);
    if q < W32 {
      SmallMod(q, W32);
    }
  }

  /** audio_setpar_nblks without a set_nblks hook, for the play ring */
  method SetparNblks(datalen: nat, blksz: nat, nblks0: nat) returns (nblks: nat)
    requires blksz > 0 && 2 * blksz <= datalen
    ensures nblks <= datalen / blksz
    ensures nblks >= 2 <==> FitBlocks(datalen, blksz) >= 2 || nblks0 <= FitBlocks(datalen, blksz)
    ensures 2 <= nblks0 <= FitBlocks(datalen, blksz) ==> nblks == nblks0
    ensures nblks0 > FitBlocks(datalen, blksz) ==> nblks == FitBlocks(datalen, blksz)
    ensures nblks0 < 2 <= FitBlocks(datalen, blksz) ==> nblks == 2
  {
    FitBlocksIs(datalen, blksz);
    var max := FitBlocks(datalen, blksz);
    nblks := nblks0;
    if nblks > max {
      nblks := max;
    } else if nblks < 2 {
      nblks := 2;
    }
  }

  /** Lines 1033-1042: the rings for block size `blksz` and `nblks` blocks. */
  function NewRing(datalen: nat, blksz: nat, nblks: nat): Ring
    requires blksz > 0
  {
    Ring(datalen - datalen % blksz, nblks * blksz, blksz, 0, 0, 0, 0)
  }

  /** The ring takes as many whole blocks as the buffer has room for. */
  ghost predicate Covers(r: Ring, datalen: nat) {
    0 < r.blksz && r.klen % r.blksz == 0 && r.klen <= datalen < r.klen + r.blksz
  }

  /** It uses the blocks asked for, at least two and at most all. */
  ghost predicate Blocks(r: Ring, asked: nat) {
    r.ulen == (if asked * r.blksz > r.klen then r.klen else if asked < 2 then 2 * r.blksz else asked * r.blksz)
  }

  lemma NewRingCovers(datalen: nat, blksz: nat, nblks: nat)
    requires blksz > 0
    ensures Covers(NewRing(datalen, blksz, nblks), datalen)
  {
    ModOfMultiple(datalen / blksz, blksz);
    assert datalen - datalen % blksz == datalen / blksz * blksz;
  }

  lemma NewRingBlocks(datalen: nat, blksz: nat, nblks: nat, asked: nat)
    requires blksz > 0
    requires nblks == if asked > datalen / blksz then datalen / blksz else if asked < 2 then 2 else asked
    ensures Blocks(NewRing(datalen, blksz, nblks), asked)
  {
    var q := datalen / blksz;
    assert datalen - datalen % blksz == q * blksz;
    MulAtLeast(asked - q, blksz);
    MulAtLeast(q - asked, blksz);
    assert (asked - q) * blksz == asked * blksz - q * blksz;
  }

  lemma NewRingGeometry(datalen: nat, blksz: nat, nblks: nat)
    requires blksz > 0 && 2 <= nblks <= datalen / blksz && datalen < W64
    ensures NewRing(datalen, blksz, nblks).Geometry()
    ensures nblks == datalen / blksz ==> NewRing(datalen, blksz, nblks).ulen == NewRing(datalen, blksz, nblks).klen
  {
    var q := datalen / blksz;
    assert datalen - datalen % blksz == q * blksz;
    ModOfMultiple(q, blksz);
    ModOfMultiple(nblks, blksz);
    MulAtLeast(q - nblks, blksz);
    assert (q - nblks) * blksz == q * blksz - nblks * blksz;
    MulAtLeast(nblks - 2, blksz);
    assert (nblks - 2) * blksz == nblks * blksz - 2 * blksz;
  }

  /** What audio_open leaves behind: empty rings, DMA stopped, nobody reading or writing. */
  function Opened(a: Ask, hook: bool, play: Ring, rec: Ring): AudioRuns.System {
    AudioRuns.System(Audio.Device(a.play, a.rec, hook, false, 0, play, rec, Audio.History(0, 0, 0, 0, 0, 0, 0)),
                     AudioRuns.Idle, AudioRuns.Idle)
  }

  lemma OpenedIsSafe(a: Ask, hook: bool, play: Ring, rec: Ring)
    requires a.play ==> play.Geometry() && play.start == play.used == 0
    requires a.rec ==> rec.Geometry() && rec.ulen == rec.klen && rec.start == rec.used == 0
    ensures AudioRuns.Inv(Opened(a, hook, play, rec)) && AudioRuns.InPlace(Opened(a, hook, play, rec))
  {
    hide Multiple;
    AudioRuns.MultipleZero(play.blksz);
    AudioRuns.MultipleZero(rec.blksz);
  }

  lemma FramesThere(a: Ask)
    requires a.Valid() && a.blkMult > 0 && !Faults(a)
    ensures a.HasFrames()
  {
  }

  /**
   * audio_setpar from the block size on. A device it accepts starts out in a state every run keeps safe, and
   * its blocks are whole hardware units unless the multiplier wrapped; a block of no frames is divided by.
   */
  method Setpar(a: Ask, hook: bool, round0: nat, nblks0: nat) returns (err: Error, play: Ring, rec: Ring)
    requires a.Valid() && round0 < W32
    ensures err == Enodev <==> a.blkMult == 0
    ensures err == Eio <==> a.blkMult > 0 && !Faults(a) && Hi(a) < Lo(a)
    ensures err == DivideFault <==> a.blkMult > 0 && (Faults(a) || (Lo(a) <= Hi(a) && Chosen(a, round0) == 0))
    ensures err == Ok && a.play ==>
              0 < play.blksz == Chosen(a, round0) * a.fp && Covers(play, a.pdata)
              && (a.pdata < W32 ==> Blocks(play, nblks0))
              && (Nr(a) * Np(a) < W32 ==> play.blksz % a.blkMult == 0)
    ensures err == Ok && a.rec ==>
              0 < rec.blksz == Chosen(a, round0) * a.fr && Covers(rec, a.rdata)
              && (a.rdata < W32 ==> rec.ulen == rec.klen)
              && (Nr(a) * Np(a) < W32 ==> rec.blksz % a.blkMult == 0)
    ensures err == Ok && a.pdata < W32 && a.rdata < W32 ==>
            AudioRuns.Inv(Opened(a, hook, play, rec)) && AudioRuns.InPlace(Opened(a, hook, play, rec))
  {
    hide AudioRuns.Inv, AudioRuns.InPlace, Hi, Lo, Mult, Nr, Np, Ring.Geometry, Chosen, Faults, Covers, Blocks,
        FitBlocks;
    play, rec := Ring(0, 0, 0, 0, 0, 0, 0), Ring(0, 0, 0, 0, 0, 0, 0);
    var round;
    err, round := SetparBlksz(a, round0);
    if err != Ok {
      return;
    }
    if round == 0 {
      return DivideFault, play, rec;
    }
    FramesThere(a);
    if a.play {
      var blksz := round * a.fp;
      MulAtLeast(round, a.fp);
      var nblks := SetparNblks(a.pdata, blksz, nblks0);
      play := NewRing(a.pdata, blksz, nblks);
      NewRingCovers(a.pdata, blksz, nblks);
      if a.pdata < W32 {
        FitBlocksIs(a.pdata, blksz);
        NewRingBlocks(a.pdata, blksz, nblks, nblks0);
        NewRingGeometry(a.pdata, blksz, nblks);
      }
    }
    if a.rec {
      var blksz := round * a.fr;
      MulAtLeast(round, a.fr);
      FitBlocksIs(a.rdata, blksz);
      rec := NewRing(a.rdata, blksz, FitBlocks(a.rdata, blksz));
      NewRingCovers(a.rdata, blksz, FitBlocks(a.rdata, blksz));
      if a.rdata < W32 {
        NewRingGeometry(a.rdata, blksz, a.rdata / blksz);
      }
    }
    if a.pdata < W32 && a.rdata < W32 {
      OpenedIsSafe(a, hook, play, rec);
    }
  }
}
