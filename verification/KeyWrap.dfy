/** key_wrap.c: AES key wrap (sections 2.2.1 and 2.2.2 of RFC 3394) with any block permutation. */
module KeyWrap {
  import opened Arith
  import opened BlockCiphers
  import opened ByteStrings
  import opened LittleEndian

  const IV: Bytes := [0xa6, 0xa6, 0xa6, 0xa6, 0xa6, 0xa6, 0xa6, 0xa6]

  /** htobe64(t) in memory */
  function Be64(t: nat): (s: Bytes)
    ensures |s| == 8
  {
    [Byte(t / 0x100_0000_0000_0000), Byte(t / 0x1_0000_0000_0000), Byte(t / 0x100_0000_0000), Byte(t / 0x1_0000_0000),
     Byte(t / 0x100_0000), Byte(t / 0x1_0000), Byte(t / 0x100), Byte(t)]
  }

  // ---------- specification: the registers A and R[1] to R[n] as one byte string ----------

  function Put(w: Bytes, i: nat, b: Bytes): (r: Bytes)
    requires 1 <= i && 8 * i + 8 <= |w| && |b| == 16
    ensures |r| == |w|
  {
    Splice(Splice(w, 0, b[..8]), 8 * i, b[8..])
  }

  function Get(w: Bytes, i: nat): (b: Bytes)
    requires 1 <= i && 8 * i + 8 <= |w|
    ensures |b| == 16
  {
    w[..8] + w[8 * i..8 * i + 8]
  }

  /** The number of the step is mixed into the first half of a block. */
  function Number(b: Bytes, t: nat): (r: Bytes)
    requires |b| == 16
    ensures |r| == 16
  {
    Xor(b[..8], Be64(t)) + b[8..]
  }

  function WrapStep(e: Cipher, w: Bytes, i: nat, t: nat): (r: Bytes)
    requires BlockCipher(e) && 1 <= i && 8 * i + 8 <= |w|
    ensures |r| == |w|
  {
    Put(w, i, Number(e(Get(w, i)), t))
  }

  function UnwrapStep(d: Cipher, w: Bytes, i: nat, t: nat): (r: Bytes)
    requires BlockCipher(d) && 1 <= i && 8 * i + 8 <= |w|
    ensures |r| == |w|
  {
    Put(w, i, d(Number(Get(w, i), t)))
  }

  /** Step t works on R[i] with i = (t - 1) mod n + 1. */
  function Register(n: nat, t: nat): (i: nat)
    requires n >= 1 && t >= 1
    ensures 1 <= i <= n
  {
    (t - 1) % n + 1
  }

  /** Steps 1 to m. */
  function WrapSteps(e: Cipher, w: Bytes, n: nat, m: nat): (r: Bytes)
    requires BlockCipher(e) && |w| == 8 * n + 8 && (n == 0 ==> m == 0)
    ensures |r| == |w|
  {
    if m == 0 then w else WrapStep(e, WrapSteps(e, w, n, m - 1), Register(n, m), m)
  }

  /** Steps m to 1. */
  function UnwrapSteps(d: Cipher, w: Bytes, n: nat, m: nat): (r: Bytes)
    requires BlockCipher(d) && |w| == 8 * n + 8 && (n == 0 ==> m == 0)
    ensures |r| == |w|
    decreases m
  {
    if m == 0 then w else UnwrapSteps(d, UnwrapStep(d, w, Register(n, m), m), n, m - 1)
  }

  function Wrapped(e: Cipher, p: Bytes, n: nat): (c: Bytes)
    requires BlockCipher(e) && |p| == 8 * n
    ensures |c| == |p| + 8
  {
    WrapSteps(e, IV + p, n, 6 * n)
  }

  /** The register A and the plaintext. */
  function Unwrapped(d: Cipher, c: Bytes, n: nat): (w: Bytes)
    requires BlockCipher(d) && |c| == 8 * n + 8
    ensures |w| == |c|
  {
    UnwrapSteps(d, c, n, 6 * n)
  }

  // ---------- round trips ----------

  lemma PutIs(w: Bytes, i: nat, b: Bytes)
    requires 1 <= i && 8 * i + 8 <= |w| && |b| == 16
    ensures Put(w, i, b) == b[..8] + w[8..8 * i] + b[8..] + w[8 * i + 8..]
  {
  }

  lemma PartsOf(a: Bytes, m: Bytes, b: Bytes, z: Bytes)
    requires |a| == 8 && |b| == 8
    ensures var w := a + m + b + z;
            w[..8] == a && w[8..8 + |m|] == m && w[8 + |m|..16 + |m|] == b && w[16 + |m|..] == z
  {
  }

  lemma PutGet(w: Bytes, i: nat, b: Bytes)
    requires 1 <= i && 8 * i + 8 <= |w| && |b| == 16
    ensures Get(Put(w, i, b), i) == b && Put(Put(w, i, b), i, Get(w, i)) == w
  {
    hide Put;
    var a, m, z := w[..8], w[8..8 * i], w[8 * i + 8..];
    var v := Put(w, i, b);
    PutIs(w, i, b);
    PartsOf(b[..8], m, b[8..], z);
    assert b[..8] + b[8..] == b;
    var g := Get(w, i);
    PutIs(v, i, g);
    assert g[..8] == a && g[8..] == w[8 * i..8 * i + 8];
    assert w == a + m + w[8 * i..8 * i + 8] + z;
  }

  lemma NumberUndoes(b: Bytes, t: nat)
    requires |b| == 16
    ensures Number(Number(b, t), t) == b
  {
    hide Be64, Xor;
    XorCancels(b[..8], Be64(t));
    assert Number(b, t)[..8] == Xor(b[..8], Be64(t)) && Number(b, t)[8..] == b[8..];
    assert b == b[..8] + b[8..];
  }

  lemma StepUndoes(d: Cipher, e: Cipher, w: Bytes, i: nat, t: nat)
    requires Undoes(d, e) && 1 <= i && 8 * i + 8 <= |w|
    ensures UnwrapStep(d, WrapStep(e, w, i, t), i, t) == w
  {
    hide Put, Get, Number;
    var b := e(Get(w, i));
    PutGet(w, i, Number(b, t));
    NumberUndoes(b, t);
  }

  lemma StepRedoes(d: Cipher, e: Cipher, w: Bytes, i: nat, t: nat)
    requires Undoes(e, d) && 1 <= i && 8 * i + 8 <= |w|
    ensures WrapStep(e, UnwrapStep(d, w, i, t), i, t) == w
  {
    hide Put, Get, Number;
    var b := Get(w, i);
    PutGet(w, i, d(Number(b, t)));
    NumberUndoes(b, t);
  }

  lemma WrapMore(e: Cipher, w: Bytes, n: nat, m: nat)
    requires BlockCipher(e) && |w| == 8 * n + 8 && n > 0
    ensures WrapSteps(e, w, n, 0) == w
    ensures WrapSteps(e, w, n, m + 1) == WrapStep(e, WrapSteps(e, w, n, m), Register(n, m + 1), m + 1)
  {
  }

  lemma UnwrapMore(d: Cipher, w: Bytes, n: nat, m: nat)
    requires BlockCipher(d) && |w| == 8 * n + 8 && n > 0
    ensures UnwrapSteps(d, w, n, 0) == w
    ensures UnwrapSteps(d, w, n, m + 1) == UnwrapSteps(d, UnwrapStep(d, w, Register(n, m + 1), m + 1), n, m)
  {
  }

  lemma {:induction false} StepsUndo(d: Cipher, e: Cipher, w: Bytes, n: nat, m: nat)
    requires Undoes(d, e) && |w| == 8 * n + 8 && n > 0
    ensures UnwrapSteps(d, WrapSteps(e, w, n, m), n, m) == w
  {
    hide WrapSteps, UnwrapSteps, WrapStep, UnwrapStep, Register;
    var u := WrapSteps(e, w, n, m);
    if m == 0 {
      WrapMore(e, w, n, 0);
      UnwrapMore(d, u, n, 0);
    } else {
      WrapMore(e, w, n, m - 1);
      UnwrapMore(d, u, n, m - 1);
      StepsUndo(d, e, w, n, m - 1);
      StepUndoes(d, e, WrapSteps(e, w, n, m - 1), Register(n, m), m);
    }
  }

  lemma {:induction false} StepsRedo(d: Cipher, e: Cipher, w: Bytes, n: nat, m: nat)
    requires Undoes(e, d) && |w| == 8 * n + 8 && n > 0
    ensures WrapSteps(e, UnwrapSteps(d, w, n, m), n, m) == w
    decreases m
  {
    hide WrapSteps, UnwrapSteps, WrapStep, UnwrapStep, Register;
    var u := UnwrapSteps(d, w, n, m);
    if m == 0 {
      WrapMore(e, u, n, 0);
      UnwrapMore(d, w, n, 0);
    } else {
      WrapMore(e, u, n, m - 1);
      UnwrapMore(d, w, n, m - 1);
      StepRedoes(d, e, w, Register(n, m), m);
      StepsRedo(d, e, UnwrapStep(d, w, Register(n, m), m), n, m - 1);
    }
  }

  /** Unwrapping what was wrapped gives the initial value and the plaintext. */
  lemma UnwrapUndoesWrap(d: Cipher, e: Cipher, p: Bytes, n: nat)
    requires Undoes(d, e) && |p| == 8 * n
    ensures Unwrapped(d, Wrapped(e, p, n), n) == IV + p
  {
    if n > 0 {
      StepsUndo(d, e, IV + p, n, 6 * n);
    }
  }

  /** The integrity check passes exactly on what wrapping can give. */
  lemma AcceptsExactlyWraps(d: Cipher, e: Cipher, c: Bytes, n: nat)
    requires Undoes(d, e) && Undoes(e, d) && |c| == 8 * n + 8
    ensures Unwrapped(d, c, n)[..8] == IV <==> c == Wrapped(e, Unwrapped(d, c, n)[8..], n)
  {
    hide WrapSteps, UnwrapSteps;
    var w := Unwrapped(d, c, n);
    assert w == w[..8] + w[8..];
    UnwrapUndoesWrap(d, e, w[8..], n);
    assert (IV + w[8..])[..8] == IV;
    if n > 0 {
      StepsRedo(d, e, c, n, 6 * n);
    } else {
      NoSteps(d, e, c);
      NoSteps(d, e, IV + w[8..]);
    }
  }

  lemma NoSteps(d: Cipher, e: Cipher, w: Bytes)
    requires BlockCipher(d) && BlockCipher(e) && |w| == 8
    ensures UnwrapSteps(d, w, 0, 0) == w == WrapSteps(e, w, 0, 0)
  {
  }

  // ---------- the registers of RFC 3394, shifted ----------

  /** htobe64 keeps 64 bits, most significant byte first. */
  lemma Be64Is(t: nat)
    ensures Be(Be64(t)) == t % 0x1_0000_0000_0000_0000
  {
    hide Val, Byte, Be, Be64;
    var hi := t / 0x1_0000_0000;
    BeEight(Be64(t));
    Be64Parts(t);
    FourBytes(t);
    FourBytes(hi);
    Halves64(t);
  }

  lemma Be64Parts(t: nat)
    ensures var b, hi := Be64(t), t / 0x1_0000_0000;
            && b[7] == Byte(t) && b[6] == Byte(t / 0x100)
            && b[5] == Byte(t / 0x1_0000) && b[4] == Byte(t / 0x100_0000)
            && b[3] == Byte(hi) && b[2] == Byte(hi / 0x100)
            && b[1] == Byte(hi / 0x1_0000) && b[0] == Byte(hi / 0x100_0000)
  {
    hide Byte;
    Quotients(t);
  }

  lemma FourBytes(v: nat)
    ensures Val(Byte(v)) + 0x100 * Val(Byte(v / 0x100)) + 0x1_0000 * Val(Byte(v / 0x1_0000))
            + 0x100_0000 * Val(Byte(v / 0x100_0000)) == v % 0x1_0000_0000
  {
    hide Val, Byte;
    ByteVal(v);
    ByteVal(v / 0x100);
    ByteVal(v / 0x1_0000);
    ByteVal(v / 0x100_0000);
    Digits(v);
  }

  lemma Quotients(t: nat)
    ensures var hi := t / 0x1_0000_0000;
            && t / 0x100_0000_0000 == hi / 0x100 && t / 0x1_0000_0000_0000 == hi / 0x1_0000
            && t / 0x100_0000_0000_0000 == hi / 0x100_0000
  {
  }

  lemma Halves64(t: nat)
    ensures t % 0x1_0000_0000_0000_0000 == t / 0x1_0000_0000 % 0x1_0000_0000 * 0x1_0000_0000 + t % 0x1_0000_0000
  {
  }

  lemma BeEight(s: Bytes)
    requires |s| == 8
    ensures Be(s) == Val(s[7]) + 0x100 * Val(s[6]) + 0x1_0000 * Val(s[5]) + 0x100_0000 * Val(s[4])
                     + 0x1_0000_0000 * (Val(s[3]) + 0x100 * Val(s[2]) + 0x1_0000 * Val(s[1]) + 0x100_0000 * Val(s[0]))
  {
    hide Val, Be;
    BeFour(s, 4);
    BeFour(s, 0);
    assert s[..0] == [];
    BeNothing();
    assert s[..8] == s;
  }

  lemma BeFour(s: Bytes, n: nat)
    requires n + 4 <= |s|
    ensures Be(s[..n + 4]) == 0x1_0000_0000 * Be(s[..n]) + Val(s[n + 3]) + 0x100 * Val(s[n + 2])
                              + 0x1_0000 * Val(s[n + 1]) + 0x100_0000 * Val(s[n])
  {
    hide Val, Be;
    BeLast(s, n + 4);
    BeLast(s, n + 3);
    BeLast(s, n + 2);
    BeLast(s, n + 1);
  }

  lemma BeLast(s: Bytes, n: nat)
    requires 0 < n <= |s|
    ensures Be(s[..n]) == 256 * Be(s[..n - 1]) + Val(s[n - 1])
  {
    assert s[..n] == s[..n - 1] + [s[n - 1]];
    BeSnoc(s[..n - 1], s[n - 1]);
  }

  lemma BeNothing()
    ensures Be([]) == 0
  {
  }

  /**
   * Section 2.2.1 in its first form: every step encrypts A and the first register, mixes the number of the
   * step into the first half, and moves the registers down with the second half at the end.
   */
  function ShiftSteps(e: Cipher, w: Bytes, m: nat): (r: Bytes)
    requires BlockCipher(e) && |w| >= 16
    ensures |r| == |w|
  {
    if m == 0 then w else
      var v := ShiftSteps(e, w, m - 1);
      var b := e(v[..16]);
      Xor(b[..8], Be64(m)) + v[16..] + b[8..]
  }

  /** The registers from the one after the first q on, and then the first q. */
  function Turned(w: Bytes, q: nat): (r: Bytes)
    requires 8 * q + 8 <= |w|
    ensures |r| == |w|
  {
    w[..8] + w[8 * q + 8..] + w[8..8 * q + 8]
  }

  lemma ShiftMore(e: Cipher, w: Bytes, n: nat, q: nat, t: nat)
    requires BlockCipher(e) && |w| == 8 * n + 8 && q < n
    ensures var v, u := Turned(w, q), WrapStep(e, w, q + 1, t);
            var b := e(v[..16]);
            Xor(b[..8], Be64(t)) + v[16..] + b[8..] == Turned(u, if q + 1 == n then 0 else q + 1)
  {
    hide Xor, Be64, Put, Turned, Get;
    TurnedIs(w, q);
    var b := e(Get(w, q + 1));
    var a := Xor(b[..8], Be64(t));
    var x := Number(b, t);
    assert x[..8] == a && x[8..] == b[8..];
    PutIs(w, q + 1, x);
    PartsOf(a, w[8..8 * q + 8], b[8..], w[8 * q + 16..]);
    TurnParts(a, w[8..8 * q + 8], b[8..], w[8 * q + 16..], n, q);
  }

  lemma TurnedIs(w: Bytes, q: nat)
    requires 8 * q + 16 <= |w|
    ensures Turned(w, q)[..16] == Get(w, q + 1)
    ensures Turned(w, q)[16..] == w[8 * q + 16..] + w[8..8 * q + 8]
  {
  }

  lemma TurnParts(a: Bytes, m: Bytes, b: Bytes, z: Bytes, n: nat, q: nat)
    requires |a| == |b| == 8 && |m| == 8 * q && q < n && |z| == 8 * (n - q - 1)
    ensures a + (z + m) + b == Turned(a + m + b + z, if q + 1 == n then 0 else q + 1)
  {
    var u := a + m + b + z;
    if q + 1 < n {
      assert u[8..8 * q + 16] == m + b && u[8 * q + 16..] == z && u[..8] == a;
    } else {
      assert z == [] && u[8..] == m + b && u[..8] == a;
    }
  }

  /** After m steps the shifted registers are the indexed ones, turned by m. */
  lemma {:induction false} ShiftsAre(e: Cipher, w: Bytes, n: nat, m: nat)
    requires BlockCipher(e) && n > 0 && |w| == 8 * n + 8
    ensures m % n < n && ShiftSteps(e, w, m) == Turned(WrapSteps(e, w, n, m), m % n)
  {
    hide WrapStep, Turned, WrapSteps, Xor, Be64;
    if m == 0 {
      WrapMore(e, w, n, 0);
      DivModUnique(0, 0, n, 0);
      TurnedNone(w);
    } else {
      ShiftsAre(e, w, n, m - 1);
      WrapMore(e, w, n, m - 1);
      ShiftMore(e, WrapSteps(e, w, n, m - 1), n, (m - 1) % n, m);
      NextTurn(n, m);
    }
  }

  lemma TurnedNone(w: Bytes)
    requires |w| >= 8
    ensures Turned(w, 0) == w
  {
  }

  lemma NextTurn(n: nat, m: nat)
    requires n > 0 && m > 0
    ensures m % n == if (m - 1) % n + 1 == n then 0 else (m - 1) % n + 1
  {
    var q, r := (m - 1) / n, (m - 1) % n;
    if r + 1 == n {
      DivModUnique(m, q + 1, n, 0);
    } else {
      DivModUnique(m, q, n, r + 1);
    }
  }

  /** The wrapped text is what the standard's shifting registers hold after 6 n steps from A6A6A6A6A6A6A6A6. */
  lemma WrappedShifts(e: Cipher, p: Bytes, n: nat)
    requires BlockCipher(e) && n > 0 && |p| == 8 * n
    ensures Wrapped(e, p, n) == ShiftSteps(e, seq(8, _ => 0xa6) + p, 6 * n)
  {
    hide WrapSteps, Turned, ShiftSteps;
    assert IV == seq(8, _ => 0xa6);
    ShiftsAre(e, IV + p, n, 6 * n);
    ModOfMultiple(6, n);
    TurnedNone(WrapSteps(e, IV + p, n, 6 * n));
  }

  // ---------- the code, in one memory where P and C may overlap ----------

  lemma SpliceInside(m: Bytes, c: nat, w: Bytes, at: nat, x: Bytes)
    requires c + |w| <= |m| && at + |x| <= |w|
    ensures Splice(Splice(m, c, w), c + at, x) == Splice(m, c, Splice(w, at, x))
  {
  }

  lemma SpliceRead(m: Bytes, c: nat, w: Bytes, at: nat, n: nat)
    requires c + |w| <= |m| && at + n <= |w|
    ensures Splice(m, c, w)[c + at..c + at + n] == w[at..at + n]
  {
  }

  lemma RegisterIs(n: nat, j: nat, i: nat, m: nat)
    requires 1 <= i <= n && m == n * j + i
    ensures Register(n, m) == i
  {
    DivModUnique(m - 1, j, n, i - 1);
  }

  /** The body of the inner loop of aes_key_wrap, on registers that lie at `c` in memory. */
  method WrapInMemory(e: Cipher, mem: array<bv8>, c: nat, i: nat, t: nat, ghost m: Bytes, ghost w: Bytes)
    requires BlockCipher(e) && 1 <= i && 8 * i + 8 <= |w| && c + |w| <= mem.Length == |m|
    requires mem[..] == Splice(m, c, w)
    modifies mem
    ensures mem[..] == Splice(m, c, WrapStep(e, w, i, t))
  {
    hide Xor, Be64, Splice, WrapStep;
    var r := c + 8 * i;
    ReadRegisters(m, c, w, i);
    var b := e(mem[c..c + 8] + mem[r..r + 8]);
    Store(mem, c, Xor(b[..8], Be64(t)));
    Store(mem, r, b[8..]);
    WriteRegisters(e, m, c, w, i, t);
  }

  lemma ReadRegisters(m: Bytes, c: nat, w: Bytes, i: nat)
    requires 1 <= i && 8 * i + 8 <= |w| && c + |w| <= |m|
    ensures var s := Splice(m, c, w);
            s[c..c + 8] + s[c + 8 * i..c + 8 * i + 8] == Get(w, i)
  {
    hide Splice;
    SpliceRead(m, c, w, 0, 8);
    SpliceRead(m, c, w, 8 * i, 8);
  }

  lemma WriteRegisters(e: Cipher, m: Bytes, c: nat, w: Bytes, i: nat, t: nat)
    requires BlockCipher(e) && 1 <= i && 8 * i + 8 <= |w| && c + |w| <= |m|
    ensures var b := e(Get(w, i));
            Splice(Splice(Splice(m, c, w), c, Xor(b[..8], Be64(t))), c + 8 * i, b[8..])
            == Splice(m, c, WrapStep(e, w, i, t))
  {
    hide Xor, Be64, Splice, Get;
    var b := e(Get(w, i));
    var a := Xor(b[..8], Be64(t));
    assert Number(b, t)[..8] == a && Number(b, t)[8..] == b[8..];
    SpliceInside(m, c, w, 0, a);
    SpliceInside(m, c, Splice(w, 0, a), 8 * i, b[8..]);
  }

  lemma PlacePlaintext(m: Bytes, p: nat, n: nat, c: nat)
    requires p + 8 * n <= |m| && c + 8 * n + 8 <= |m|
    ensures Splice(Splice(m, c + 8, m[p..p + 8 * n]), c, IV) == Splice(m, c, IV + m[p..p + 8 * n])
  {
  }

  /** aes_key_wrap */
  method Wrap(e: Cipher, mem: array<bv8>, p: nat, n: nat, c: nat)
    requires BlockCipher(e) && p + 8 * n <= mem.Length && c + 8 * n + 8 <= mem.Length
    modifies mem
    ensures mem[..] == old(Splice(mem[..], c, Wrapped(e, mem[p..p + 8 * n], n)))
  {
    hide WrapStep, Register, WrapSteps, Splice;
    ghost var m := mem[..];
    ghost var w := IV + mem[p..p + 8 * n];
    Bcopy(mem, p, mem, c + 8, 8 * n);
    Store(mem, c, IV);
    PlacePlaintext(m, p, n, c);
    WrapNothing(e, w, n);
    var j: nat, t: nat := 0, 1;
    while j <= 5
      invariant j <= 6 && t == n * j + 1 && mem[..] == Splice(m, c, WrapSteps(e, w, n, t - 1))
    {
      var i: nat := 1;
      while i <= n
        invariant 1 <= i <= n + 1 && t == n * j + i && mem[..] == Splice(m, c, WrapSteps(e, w, n, t - 1))
      {
        WrapMore(e, w, n, t - 1);
        RegisterIs(n, j, i, t);
        WrapInMemory(e, mem, c, i, t, m, WrapSteps(e, w, n, t - 1));
        i, t := i + 1, t + 1;
      }
      assert n * j + n == n * (j + 1);
      j := j + 1;
    }
  }

  lemma WrapNothing(e: Cipher, w: Bytes, n: nat)
    requires BlockCipher(e) && |w| == 8 * n + 8
    ensures WrapSteps(e, w, n, 0) == w
  {
  }

  lemma UnwrapNothing(d: Cipher, w: Bytes, n: nat)
    requires BlockCipher(d) && |w| == 8 * n + 8
    ensures UnwrapSteps(d, w, n, 0) == w
  {
  }

  /** The body of the inner loop of aes_key_unwrap: A is local, R lies at `p`. */
  method UnwrapInMemory(d: Cipher, mem: array<bv8>, p: nat, i: nat, t: nat, a: Bytes, ghost m: Bytes, ghost w: Bytes)
    returns (a': Bytes)
    requires BlockCipher(d) && 1 <= i && 8 * i + 8 <= |w| && p + |w| - 8 <= mem.Length == |m|
    requires a == w[..8] && mem[..] == Splice(m, p, w[8..])
    modifies mem
    ensures a' == UnwrapStep(d, w, i, t)[..8] && mem[..] == Splice(m, p, UnwrapStep(d, w, i, t)[8..])
  {
    hide Xor, Be64, Splice, Put;
    var r := p + 8 * (i - 1);
    ReadLocal(m, p, w, i, t);
    var b := d(Xor(a, Be64(t)) + mem[r..r + 8]);
    a' := b[..8];
    Store(mem, r, b[8..]);
    SpliceInside(m, p, w[8..], 8 * (i - 1), b[8..]);
    PutParts(w, i, b);
  }

  lemma ReadLocal(m: Bytes, p: nat, w: Bytes, i: nat, t: nat)
    requires 1 <= i && 8 * i + 8 <= |w| && p + |w| - 8 <= |m|
    ensures var r := p + 8 * (i - 1);
            Xor(w[..8], Be64(t)) + Splice(m, p, w[8..])[r..r + 8] == Number(Get(w, i), t)
  {
    hide Xor, Be64, Splice;
    SpliceRead(m, p, w[8..], 8 * (i - 1), 8);
    AfterFirst(w, 8 * (i - 1), 8);
    var g := Get(w, i);
    assert g[..8] == w[..8] && g[8..] == w[8 * i..8 * i + 8];
  }

  lemma AfterFirst(w: Bytes, at: nat, n: nat)
    requires 8 + at + n <= |w|
    ensures w[8..][at..at + n] == w[8 + at..8 + at + n]
  {
  }

  lemma PutParts(w: Bytes, i: nat, b: Bytes)
    requires 1 <= i && 8 * i + 8 <= |w| && |b| == 16
    ensures Put(w, i, b)[..8] == b[..8] && Put(w, i, b)[8..] == Splice(w[8..], 8 * (i - 1), b[8..])
  {
    hide Put;
    PutIs(w, i, b);
    PartsOf(b[..8], w[8..8 * i], b[8..], w[8 * i + 8..]);
    assert w[8..][..8 * (i - 1)] == w[8..8 * i] && w[8..][8 * i..] == w[8 * i + 8..];
  }

  /** aes_key_unwrap; nonzero is returned exactly when A is not the initial value. */
  method Unwrap(d: Cipher, mem: array<bv8>, c: nat, p: nat, n: nat) returns (failed: bool)
    requires BlockCipher(d) && p + 8 * n <= mem.Length && c + 8 * n + 8 <= mem.Length
    modifies mem
    ensures var w := Unwrapped(d, old(mem[c..c + 8 * n + 8]), n);
            failed == (w[..8] != IV) && mem[..] == Splice(old(mem[..]), p, w[8..])
  {
    hide UnwrapStep, Register, UnwrapSteps, Splice;
    ghost var m := mem[..];
    ghost var w := mem[c..c + 8 * n + 8];
    ghost var all := Unwrapped(d, w, n);
    var a := mem[c..c + 8];
    Bcopy(mem, c + 8, mem, p, 8 * n);
    assert a == w[..8] && m[c + 8..c + 8 + 8 * n] == w[8..];
    var j: int, t: nat := 5, 6 * n;
    while j >= 0
      invariant -1 <= j <= 5 && t == n * (j + 1) && |w| == 8 * n + 8 && UnwrapSteps(d, w, n, t) == all
      invariant a == w[..8] && mem[..] == Splice(m, p, w[8..])
    {
      var i: nat := n;
      assert n * (j + 1) == n * j + n;
      while i >= 1
        invariant i <= n && t == n * j + i && |w| == 8 * n + 8 && UnwrapSteps(d, w, n, t) == all
        invariant a == w[..8] && mem[..] == Splice(m, p, w[8..])
      {
        UnwrapMore(d, w, n, t - 1);
        RegisterIs(n, j, i, t);
        a := UnwrapInMemory(d, mem, p, i, t, a, m, w);
        w := UnwrapStep(d, w, i, t);
        i, t := i - 1, t - 1;
      }
      j := j - 1;
    }
    UnwrapNothing(d, w, n);
    failed := a != IV;
  }
}
