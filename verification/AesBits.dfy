/** aes.c: the steps of a round on one rank of the bitsliced state, that is, on one byte of an AES state. */
module AesBits {
  /** The bits at one rank of the words q[0] to q[7]. */
  datatype Octet = Octet(b0: bool, b1: bool, b2: bool, b3: bool, b4: bool, b5: bool, b6: bool, b7: bool)

  const ZERO := Octet(false, false, false, false, false, false, false, false)

  function Plus(a: Octet, b: Octet): Octet {
    Octet(a.b0 != b.b0, a.b1 != b.b1, a.b2 != b.b2, a.b3 != b.b3,
          a.b4 != b.b4, a.b5 != b.b5, a.b6 != b.b6, a.b7 != b.b7)
  }

  /** aes_ct_bitslice_Sbox: the Boyar-Peralta circuit, on the eight bits of one rank. */
  function SboxBits(a: Octet): Octet {
    var y14 := a.b4 != a.b2; var y13 := a.b7 != a.b1; var y9 := a.b7 != a.b4; var y8 := a.b7 != a.b2;
    var t0 := a.b6 != a.b5; var y1 := t0 != a.b0; var y4 := y1 != a.b4; var y12 := y13 != y14;
    var y2 := y1 != a.b7; var y5 := y1 != a.b1; var y3 := y5 != y8; var t1 := a.b3 != y12;
    var y15 := t1 != a.b2; var y20 := t1 != a.b6; var y6 := y15 != a.b0; var y10 := y15 != t0;
    var y11 := y20 != y9; var y7 := a.b0 != y11; var y17 := y10 != y11; var y19 := y10 != y8;
    var y16 := t0 != y11; var y21 := y13 != y16; var y18 := a.b7 != y16; var t2 := y12 && y15;
    var t3 := y3 && y6; var t4 := t3 != t2; var t5 := y4 && a.b0; var t6 := t5 != t2;
    var t7 := y13 && y16; var t8 := y5 && y1; var t9 := t8 != t7; var t10 := y2 && y7;
    var t11 := t10 != t7; var t12 := y9 && y11; var t13 := y14 && y17; var t14 := t13 != t12;
    var t15 := y8 && y10; var t16 := t15 != t12; var t17 := t4 != t14; var t18 := t6 != t16;
    var t19 := t9 != t14; var t20 := t11 != t16; var t21 := t17 != y20; var t22 := t18 != y19;
    var t23 := t19 != y21; var t24 := t20 != y18; var t25 := t21 != t22; var t26 := t21 && t23;
    var t27 := t24 != t26; var t28 := t25 && t27; var t29 := t28 != t22; var t30 := t23 != t24;
    var t31 := t22 != t26; var t32 := t31 && t30; var t33 := t32 != t24; var t34 := t23 != t33;
    var t35 := t27 != t33; var t36 := t24 && t35; var t37 := t36 != t34; var t38 := t27 != t36;
    var t39 := t29 && t38; var t40 := t25 != t39; var t41 := t40 != t37; var t42 := t29 != t33;
    var t43 := t29 != t40; var t44 := t33 != t37; var t45 := t42 != t41; var z0 := t44 && y15;
    var z1 := t37 && y6; var z2 := t33 && a.b0; var z3 := t43 && y16; var z4 := t40 && y1;
    var z5 := t29 && y7; var z6 := t42 && y11; var z7 := t45 && y17; var z8 := t41 && y10;
    var z9 := t44 && y12; var z10 := t37 && y3; var z11 := t33 && y4; var z12 := t43 && y13;
    var z13 := t40 && y5; var z14 := t29 && y2; var z15 := t42 && y9; var z16 := t45 && y14;
    var z17 := t41 && y8; var t46 := z15 != z16; var t47 := z10 != z11; var t48 := z5 != z13;
    var t49 := z9 != z10; var t50 := z2 != z12; var t51 := z2 != z5; var t52 := z7 != z8;
    var t53 := z0 != z3; var t54 := z6 != z7; var t55 := z16 != z17; var t56 := z12 != t48;
    var t57 := t50 != t53; var t58 := z4 != t46; var t59 := z3 != t54; var t60 := t46 != t57;
    var t61 := z14 != t57; var t62 := t52 != t58; var t63 := t49 != t58; var t64 := z4 != t59;
    var t65 := t61 != t62; var t66 := z1 != t63; var s0 := t59 != t63; var s6 := t56 != !t62;
    var s7 := t48 != !t60; var t67 := t64 != t65; var s3 := t53 != t66; var s4 := t51 != t66;
    var s5 := t47 != t65; var s1 := t64 != !s3; var s2 := t55 != !t67;
    Octet(s7, s6, s5, s4, s3, s2, s1, s0)
  }

  /** B(x ^ 0x63), with B the inverse of the linear part of the S-box. */
  function Unaffine(a: Octet): Octet {
    var q0, q1, q5, q6 := !a.b0, !a.b1, !a.b5, !a.b6;
    var q2, q3, q4, q7 := a.b2, a.b3, a.b4, a.b7;
    Octet((q2 != q5) != q7, (q3 != q6) != q0, (q4 != q7) != q1, (q5 != q0) != q2,
          (q6 != q1) != q3, (q7 != q2) != q4, (q0 != q3) != q5, (q1 != q4) != q6)
  }

  /** aes_ct_bitslice_invSbox */
  function InvSboxBits(a: Octet): Octet {
    Unaffine(SboxBits(Unaffine(a)))
  }

  /** The two circuits are inverse to each other, for each of the 256 inputs. */
  lemma InvSboxInverts(a: Octet)
    ensures InvSboxBits(SboxBits(a)) == a
  {
    if a.b7 {
      if a.b6 {
        assert InvSboxBits(SboxBits(a)) == a;
      } else {
        assert InvSboxBits(SboxBits(a)) == a;
      }
    } else {
      if a.b6 {
        assert InvSboxBits(SboxBits(a)) == a;
      } else {
        assert InvSboxBits(SboxBits(a)) == a;
      }
    }
  }

  /** mix_columns at one rank: `b`, `c` and `d` are 8, 16 and 24 ranks above `a`. */
  function MixBits(a: Octet, b: Octet, c: Octet, d: Octet): Octet {
    var m0 := ((a.b7 != b.b7) != b.b0) != (c.b0 != d.b0);
    var m1 := ((((a.b0 != b.b0) != a.b7) != b.b7) != b.b1) != (c.b1 != d.b1);
    var m2 := ((a.b1 != b.b1) != b.b2) != (c.b2 != d.b2);
    var m3 := ((((a.b2 != b.b2) != a.b7) != b.b7) != b.b3) != (c.b3 != d.b3);
    var m4 := ((((a.b3 != b.b3) != a.b7) != b.b7) != b.b4) != (c.b4 != d.b4);
    var m5 := ((a.b4 != b.b4) != b.b5) != (c.b5 != d.b5);
    var m6 := ((a.b5 != b.b5) != b.b6) != (c.b6 != d.b6);
    var m7 := ((a.b6 != b.b6) != b.b7) != (c.b7 != d.b7);
    Octet(m0, m1, m2, m3, m4, m5, m6, m7)
  }

  /** inv_mix_columns at one rank. */
  function InvMixBits(a: Octet, b: Octet, c: Octet, d: Octet): Octet {
    var m0 := (((a.b5 != a.b6) != a.b7) != ((b.b0 != b.b5) != b.b7)) != (((c.b0 != c.b5) != c.b6) != (d.b0 != d.b5));
    var m1 := ((a.b0 != a.b5) != ((((b.b0 != b.b1) != b.b5) != b.b6) != b.b7))
        != (((c.b1 != c.b5) != c.b7) != ((d.b1 != d.b5) != d.b6));
    var m2 := (((a.b0 != a.b1) != a.b6) != (((b.b1 != b.b2) != b.b6) != b.b7))
        != (((c.b0 != c.b2) != c.b6) != ((d.b2 != d.b6) != d.b7));
    var m3 := (((((a.b0 != a.b1) != a.b2) != a.b5) != a.b6) != (((b.b0 != b.b2) != b.b3) != b.b5))
        != ((((((c.b0 != c.b1) != c.b3) != c.b5) != c.b6) != c.b7) != (((d.b0 != d.b3) != d.b5) != d.b7));
    var m4 := ((((a.b1 != a.b2) != a.b3) != a.b5) != (((((b.b1 != b.b3) != b.b4) != b.b5) != b.b6) != b.b7))
        != (((((c.b1 != c.b2) != c.b4) != c.b5) != c.b7) != (((d.b1 != d.b4) != d.b5) != d.b6));
    var m5 := ((((a.b2 != a.b3) != a.b4) != a.b6) != ((((b.b2 != b.b4) != b.b5) != b.b6) != b.b7))
        != ((((c.b2 != c.b3) != c.b5) != c.b6) != (((d.b2 != d.b5) != d.b6) != d.b7));
    var m6 := ((((a.b3 != a.b4) != a.b5) != a.b7) != (((b.b3 != b.b5) != b.b6) != b.b7))
        != ((((c.b3 != c.b4) != c.b6) != c.b7) != ((d.b3 != d.b6) != d.b7));
    var m7 := (((a.b4 != a.b5) != a.b6) != ((b.b4 != b.b6) != b.b7)) != (((c.b4 != c.b5) != c.b7) != (d.b4 != d.b7));
    Octet(m0, m1, m2, m3, m4, m5, m6, m7)
  }

  // ---------- multiplication by constants in GF(2^8) ----------

  function Times2(a: Octet): Octet {
    Octet(a.b7, a.b0 != a.b7, a.b1, a.b2 != a.b7, a.b3 != a.b7, a.b4, a.b5, a.b6)
  }

  function Times3(a: Octet): Octet { Plus(Times2(a), a) }

  function Times4(a: Octet): Octet { Times2(Times2(a)) }

  function Times8(a: Octet): Octet { Times2(Times4(a)) }

  function Times9(a: Octet): Octet { Plus(Times8(a), a) }

  function Times11(a: Octet): Octet { Plus(Times8(a), Times3(a)) }

  function Times13(a: Octet): Octet { Plus(Plus(Times8(a), Times4(a)), a) }

  function Times14(a: Octet): Octet { Plus(Plus(Times8(a), Times4(a)), Times2(a)) }

  // ---------- the S-box of FIPS 197 ----------

  /** The product in GF(2^8): that of the polynomials, reduced modulo x^8 + x^4 + x^3 + x + 1. */
  function Product(a: Octet, b: Octet): Octet {
    var c0 := (a.b0 && b.b0);
    var c1 := ((a.b0 && b.b1) != (a.b1 && b.b0));
    var c2 := (((a.b0 && b.b2) != (a.b1 && b.b1)) != (a.b2 && b.b0));
    var c3 := ((((a.b0 && b.b3) != (a.b1 && b.b2)) != (a.b2 && b.b1)) != (a.b3 && b.b0));
    var c4 := (((((a.b0 && b.b4) != (a.b1 && b.b3)) != (a.b2 && b.b2)) != (a.b3 && b.b1)) != (a.b4 && b.b0));
    var c5 := ((((((a.b0 && b.b5) != (a.b1 && b.b4)) != (a.b2 && b.b3)) != (a.b3 && b.b2)) != (a.b4 && b.b1))
        != (a.b5 && b.b0));
    var c6 := (((((((a.b0 && b.b6) != (a.b1 && b.b5)) != (a.b2 && b.b4)) != (a.b3 && b.b3)) != (a.b4 && b.b2))
        != (a.b5 && b.b1)) != (a.b6 && b.b0));
    var c7 := ((((((((a.b0 && b.b7) != (a.b1 && b.b6)) != (a.b2 && b.b5)) != (a.b3 && b.b4)) != (a.b4 && b.b3))
        != (a.b5 && b.b2)) != (a.b6 && b.b1)) != (a.b7 && b.b0));
    var c8 := (((((((a.b1 && b.b7) != (a.b2 && b.b6)) != (a.b3 && b.b5)) != (a.b4 && b.b4)) != (a.b5 && b.b3))
        != (a.b6 && b.b2)) != (a.b7 && b.b1));
    var c9 := ((((((a.b2 && b.b7) != (a.b3 && b.b6)) != (a.b4 && b.b5)) != (a.b5 && b.b4)) != (a.b6 && b.b3))
        != (a.b7 && b.b2));
    var c10 := (((((a.b3 && b.b7) != (a.b4 && b.b6)) != (a.b5 && b.b5)) != (a.b6 && b.b4)) != (a.b7 && b.b3));
    var c11 := ((((a.b4 && b.b7) != (a.b5 && b.b6)) != (a.b6 && b.b5)) != (a.b7 && b.b4));
    var c12 := (((a.b5 && b.b7) != (a.b6 && b.b6)) != (a.b7 && b.b5));
    var c13 := ((a.b6 && b.b7) != (a.b7 && b.b6));
    var c14 := (a.b7 && b.b7);
    Octet((((c0 != c8) != c13) != c12),
          ((((c1 != c9) != c14) != c8) != c12),
          (((c2 != c10) != c9) != c13),
          ((((((c3 != c11) != c10) != c14) != c8) != c13) != c12),
          ((((c4 != c11) != c9) != c14) != c8),
          (((c5 != c12) != c10) != c9),
          (((c6 != c13) != c11) != c10),
          (((c7 != c14) != c12) != c11))
  }

  const ONE := Octet(true, false, false, false, false, false, false, false)

  /** The affine transformation of section 5.1.1 of FIPS 197. */
  function Affine(a: Octet): Octet {
    Octet((((a.b0 != a.b4) != a.b5) != a.b6) != !a.b7, (((a.b1 != a.b5) != a.b6) != a.b7) != !a.b0,
          (((a.b2 != a.b6) != a.b7) != a.b0) != a.b1, (((a.b3 != a.b7) != a.b0) != a.b1) != a.b2,
          (((a.b4 != a.b0) != a.b1) != a.b2) != a.b3, (((a.b5 != a.b1) != a.b2) != a.b3) != !a.b4,
          (((a.b6 != a.b2) != a.b3) != a.b4) != !a.b5, (((a.b7 != a.b3) != a.b4) != a.b5) != a.b6)
  }

  lemma AffineUndone(a: Octet)
    ensures Affine(Unaffine(a)) == a
  {
    if a.b7 {
      assert Affine(Unaffine(a)) == a;
    } else if a.b6 {
      assert Affine(Unaffine(a)) == a;
    }
  }

  /** The octet the circuit applies the affine transformation to. */
  function Inverse(a: Octet): Octet { Unaffine(SboxBits(a)) }

  ghost predicate Inverted(a: Octet) {
    Product(a, Inverse(a)) == if a == ZERO then ZERO else ONE
  }

  lemma InverseInverts(a: Octet)
    ensures Inverted(a)
  {
    if a.b7 {
      if a.b6 {
        assert Inverted(a);
      } else {
        assert Inverted(a);
      }
    } else {
      if a.b6 {
        assert Inverted(a);
      } else {
        assert Inverted(a);
      }
    }
  }

  /**
   * The circuit is the S-box of section 5.1.1 of FIPS 197: the inverse in GF(2^8), zero for zero, then the affine
   * transformation.
   */
  lemma SboxIsFips(a: Octet)
    ensures SboxBits(a) == Affine(Inverse(a)) && Product(a, Inverse(a)) == (if a == ZERO then ZERO else ONE)
    ensures a == ZERO ==> Inverse(a) == ZERO
  {
    hide SboxBits, Affine, Unaffine, Product;
    AffineUndone(SboxBits(a));
    InverseInverts(a);
    ZeroIsKept();
  }

  lemma ZeroIsKept()
    ensures Inverse(ZERO) == ZERO
  {
  }

  /** mix_columns multiplies by 2, 3, 1, 1 and inv_mix_columns by 14, 11, 13, 9, as FIPS 197 has it. */
  lemma MixIs(a: Octet, b: Octet, c: Octet, d: Octet)
    ensures MixBits(a, b, c, d) == Plus(Plus(Times2(a), Times3(b)), Plus(c, d))
  {
  }

  lemma InvMixIs(a: Octet, b: Octet, c: Octet, d: Octet)
    ensures InvMixBits(a, b, c, d) == Plus(Plus(Times14(a), Times11(b)), Plus(Times13(c), Times9(d)))
  {
    hide InvMixBits, Times14, Times11, Times13, Times9, Plus;
    InvMixSplits(a, b, c, d);
    InvMix14(a);
    InvMix11(b);
    InvMix13(c);
    InvMix9(d);
  }

  lemma InvMixSplits(a: Octet, b: Octet, c: Octet, d: Octet)
    ensures InvMixBits(a, b, c, d)
         == Plus(Plus(InvMixBits(a, ZERO, ZERO, ZERO), InvMixBits(ZERO, b, ZERO, ZERO)),
                 Plus(InvMixBits(ZERO, ZERO, c, ZERO), InvMixBits(ZERO, ZERO, ZERO, d)))
  {
  }

  lemma InvMix14(a: Octet)
    ensures InvMixBits(a, ZERO, ZERO, ZERO) == Times14(a)
  {
    if a.b5 {
      assert InvMixBits(a, ZERO, ZERO, ZERO) == Times14(a);
    } else if a.b6 {
      assert InvMixBits(a, ZERO, ZERO, ZERO) == Times14(a);
    } else if a.b7 {
      assert InvMixBits(a, ZERO, ZERO, ZERO) == Times14(a);
    }
  }

  lemma InvMix11(b: Octet)
    ensures InvMixBits(ZERO, b, ZERO, ZERO) == Times11(b)
  {
    if b.b5 {
      assert InvMixBits(ZERO, b, ZERO, ZERO) == Times11(b);
    } else if b.b6 {
      assert InvMixBits(ZERO, b, ZERO, ZERO) == Times11(b);
    } else if b.b7 {
      assert InvMixBits(ZERO, b, ZERO, ZERO) == Times11(b);
    }
  }

  lemma InvMix13(c: Octet)
    ensures InvMixBits(ZERO, ZERO, c, ZERO) == Times13(c)
  {
    if c.b5 {
      assert InvMixBits(ZERO, ZERO, c, ZERO) == Times13(c);
    } else if c.b6 {
      assert InvMixBits(ZERO, ZERO, c, ZERO) == Times13(c);
    } else if c.b7 {
      assert InvMixBits(ZERO, ZERO, c, ZERO) == Times13(c);
    }
  }

  lemma InvMix9(d: Octet)
    ensures InvMixBits(ZERO, ZERO, ZERO, d) == Times9(d)
  {
    if d.b5 {
      assert InvMixBits(ZERO, ZERO, ZERO, d) == Times9(d);
    } else if d.b6 {
      assert InvMixBits(ZERO, ZERO, ZERO, d) == Times9(d);
    } else if d.b7 {
      assert InvMixBits(ZERO, ZERO, ZERO, d) == Times9(d);
    }
  }

  // ---------- inv_mix_columns inverts mix_columns ----------

  lemma PlusSwap(a: Octet, b: Octet, c: Octet, d: Octet)
    ensures Plus(Plus(a, b), Plus(c, d)) == Plus(Plus(a, c), Plus(b, d))
  {
  }

  lemma Times2Plus(a: Octet, b: Octet)
    ensures Times2(Plus(a, b)) == Plus(Times2(a), Times2(b))
  {
  }

  lemma Times4Plus(a: Octet, b: Octet)
    ensures Times4(Plus(a, b)) == Plus(Times4(a), Times4(b))
  {
    hide Times2, Plus;
    Times2Plus(a, b);
    Times2Plus(Times2(a), Times2(b));
  }

  lemma Times8Plus(a: Octet, b: Octet)
    ensures Times8(Plus(a, b)) == Plus(Times8(a), Times8(b))
  {
    hide Times2, Times4, Plus;
    Times4Plus(a, b);
    Times2Plus(Times4(a), Times4(b));
  }

  /** The multipliers are linear. */
  lemma TimesPlus(a: Octet, b: Octet)
    ensures Times9(Plus(a, b)) == Plus(Times9(a), Times9(b)) && Times11(Plus(a, b)) == Plus(Times11(a), Times11(b))
    ensures Times13(Plus(a, b)) == Plus(Times13(a), Times13(b)) && Times14(Plus(a, b)) == Plus(Times14(a), Times14(b))
  {
    hide Times2, Times4, Times8, Plus;
    Times2Plus(a, b);
    Times4Plus(a, b);
    Times8Plus(a, b);
    PlusSwap(Times8(a), Times8(b), a, b);
    PlusSwap(Times2(a), Times2(b), a, b);
    PlusSwap(Times8(a), Times8(b), Times3(a), Times3(b));
    PlusSwap(Times8(a), Times8(b), Times4(a), Times4(b));
    PlusSwap(Plus(Times8(a), Times4(a)), Plus(Times8(b), Times4(b)), a, b);
    PlusSwap(Plus(Times8(a), Times4(a)), Plus(Times8(b), Times4(b)), Times2(a), Times2(b));
  }

  lemma Telescope(a: Octet, b: Octet, c: Octet)
    ensures Plus(Plus(a, b), Plus(b, c)) == Plus(a, c)
  {
  }

  lemma CancelSecond(m: Octet, n: Octet, z: Octet)
    ensures Plus(Plus(m, z), Plus(n, z)) == Plus(m, n)
  {
    var c, d := Plus(Plus(m, z), Plus(n, z)), Plus(m, n);
    assert c.b0 == d.b0 && c.b1 == d.b1;
    assert c.b2 == d.b2 && c.b3 == d.b3;
    assert c.b4 == d.b4 && c.b5 == d.b5;
    assert c.b6 == d.b6 && c.b7 == d.b7;
  }

  lemma CancelAround(a: Octet, b: Octet)
    ensures Plus(Plus(a, b), a) == b
  {
  }

  lemma CancelFirst(a: Octet, b: Octet)
    ensures Plus(a, Plus(a, b)) == b
  {
  }

  lemma PlusSelf(a: Octet)
    ensures Plus(a, a) == ZERO
  {
  }

  lemma PlusCommutes(a: Octet, b: Octet)
    ensures Plus(a, b) == Plus(b, a)
  {
  }

  lemma Exchange(w: Octet, x: Octet, u: Octet, t: Octet)
    ensures Plus(Plus(w, x), Plus(u, t)) == Plus(Plus(u, x), Plus(w, t)) == Plus(Plus(w, t), Plus(u, x))
  {
    hide Plus;
    PlusCommutes(w, x);
    PlusSwap(x, w, u, t);
    PlusCommutes(x, u);
    PlusCommutes(Plus(u, x), Plus(w, t));
  }

  /** Sums in which everything but the first octet, or everything, occurs an even number of times. */
  lemma Cancel(x1: Octet, x2: Octet, x4: Octet, x8: Octet, x16: Octet)
    ensures Plus(Plus(Plus(Plus(x16, x8), x4), Plus(x8, Plus(x2, x1))),
                 Plus(Plus(Plus(x8, x4), x1), Plus(Plus(x16, x8), Plus(x2, x1)))) == x1
  {
    hide Plus;
    var u, v, r := Plus(x16, x8), Plus(x2, x1), Plus(x8, x4);
    var t := Plus(u, v);
    Exchange(u, x4, x8, v);
    PlusCommutes(r, t);
    CancelSecond(r, Plus(r, x1), t);
    CancelFirst(r, x1);
  }

  lemma Cancel2(x1: Octet, x2: Octet, x4: Octet, x8: Octet, x16: Octet)
    ensures Plus(Plus(Plus(Plus(Plus(x16, x8), Plus(x8, x4)), Plus(x4, x2)), Plus(x16, Plus(x4, x2))),
                 Plus(Plus(Plus(x8, x4), x1), Plus(x8, x1))) == ZERO
  {
    hide Plus;
    var w := Plus(x8, x4);
    Telescope(x16, x8, x4);
    CancelSecond(Plus(x16, x4), x16, Plus(x4, x2));
    CancelAround(x16, x4);
    CancelSecond(w, x8, x1);
    CancelAround(x8, x4);
    PlusSelf(x4);
  }

  lemma Cancel3(x1: Octet, x2: Octet, x4: Octet, x8: Octet, x16: Octet)
    ensures Plus(Plus(Plus(Plus(x8, x4), x2), Plus(Plus(x16, x8), Plus(Plus(x4, x2), Plus(x2, x1)))),
                 Plus(Plus(Plus(x16, x8), x2), Plus(x8, x1))) == ZERO
  {
    hide Plus;
    var u, w := Plus(x16, x8), Plus(x8, x4);
    Telescope(x4, x2, x1);
    Exchange(w, x2, u, Plus(x4, x1));
    Telescope(x8, x4, x1);
    PlusSelf(Plus(Plus(u, x2), Plus(x8, x1)));
  }

  lemma Cancel4(x1: Octet, x2: Octet, x4: Octet, x8: Octet, x16: Octet)
    ensures Plus(Plus(Plus(Plus(x8, x4), x2), Plus(x8, Plus(x2, x1))),
                 Plus(Plus(Plus(Plus(x16, x8), Plus(x8, x4)), Plus(x2, x1)), Plus(x16, x2))) == ZERO
  {
    hide Plus;
    var v, w := Plus(x2, x1), Plus(x8, x4);
    PlusSwap(w, x2, x8, v);
    CancelAround(x8, x4);
    CancelFirst(x2, x1);
    Telescope(x16, x8, x4);
    PlusSwap(Plus(x16, x4), v, x16, x2);
    CancelAround(x16, x4);
    CancelAround(x2, x1);
    PlusSelf(Plus(x4, x1));
  }

  /** The product of the two rows of coefficients is one: what is collected of each byte of the column. */
  lemma Coefficients(a: Octet)
    ensures Plus(Plus(Times14(Times2(a)), Times11(a)), Plus(Times13(a), Times9(Times3(a)))) == a
    ensures Plus(Plus(Times14(Times3(a)), Times11(Times2(a))), Plus(Times13(a), Times9(a))) == ZERO
    ensures Plus(Plus(Times14(a), Times11(Times3(a))), Plus(Times13(Times2(a)), Times9(a))) == ZERO
    ensures Plus(Plus(Times14(a), Times11(a)), Plus(Times13(Times3(a)), Times9(Times2(a)))) == ZERO
  {
    hide Times2, Plus;
    Times2Plus(Times2(a), a);
    Times4Plus(Times2(a), a);
    Times8Plus(Times2(a), a);
    var x2, x4, x8, x16 := Times2(a), Times4(a), Times8(a), Times8(Times2(a));
    Cancel(a, x2, x4, x8, x16);
    Cancel2(a, x2, x4, x8, x16);
    Cancel3(a, x2, x4, x8, x16);
    Cancel4(a, x2, x4, x8, x16);
  }

  ghost function Row(t0: Octet, t1: Octet, t2: Octet, t3: Octet): Octet {
    Plus(Plus(t0, t1), Plus(t2, t3))
  }

  /** Sixteen terms added by rows or by columns. */
  lemma {:induction false} Transposed(a: Octet, b: Octet, c: Octet, d: Octet, e: Octet, f: Octet, g: Octet, h: Octet,
                                      i: Octet, j: Octet, k: Octet, l: Octet, m: Octet, n: Octet, o: Octet, p: Octet)
    ensures Row(Row(a, b, c, d), Row(e, f, g, h), Row(i, j, k, l), Row(m, n, o, p))
         == Row(Row(a, e, i, m), Row(b, f, j, n), Row(c, g, k, o), Row(d, h, l, p))
  {
    hide Plus;
    RowsPlus(a, b, c, d, e, f, g, h);
    RowsPlus(i, j, k, l, m, n, o, p);
    RowsPlus(Plus(a, e), Plus(b, f), Plus(c, g), Plus(d, h), Plus(i, m), Plus(j, n), Plus(k, o), Plus(l, p));
  }

  lemma RowsPlus(a: Octet, b: Octet, c: Octet, d: Octet, e: Octet, f: Octet, g: Octet, h: Octet)
    ensures Plus(Row(a, b, c, d), Row(e, f, g, h)) == Row(Plus(a, e), Plus(b, f), Plus(c, g), Plus(d, h))
  {
    hide Plus;
    PlusSwap(Plus(a, b), Plus(c, d), Plus(e, f), Plus(g, h));
    PlusSwap(a, b, e, f);
    PlusSwap(c, d, g, h);
  }

  /** inv_mix_columns inverts mix_columns. */
  lemma InvMixInverts(a: Octet, b: Octet, c: Octet, d: Octet)
    ensures InvMixBits(MixBits(a, b, c, d), MixBits(b, c, d, a), MixBits(c, d, a, b), MixBits(d, a, b, c)) == a
  {
    hide Plus, MixBits, InvMixBits, Times2, Times3, Times9, Times11, Times13, Times14;
    MixIs(a, b, c, d);
    MixIs(b, c, d, a);
    MixIs(c, d, a, b);
    MixIs(d, a, b, c);
    InvMixIs(MixBits(a, b, c, d), MixBits(b, c, d, a), MixBits(c, d, a, b), MixBits(d, a, b, c));
    Linear4(Times2(a), Times3(b), c, d);
    Linear4(Times2(b), Times3(c), d, a);
    Linear4(Times2(c), Times3(d), a, b);
    Linear4(Times2(d), Times3(a), b, c);
    Transposed(Times14(Times2(a)), Times14(Times3(b)), Times14(c), Times14(d),
               Times11(a), Times11(Times2(b)), Times11(Times3(c)), Times11(d),
               Times13(a), Times13(b), Times13(Times2(c)), Times13(Times3(d)),
               Times9(Times3(a)), Times9(b), Times9(c), Times9(Times2(d)));
    Rearrange11(Times11(Times2(b)), Times11(Times3(c)), Times11(d), Times11(a));
    Rearrange13(Times13(Times2(c)), Times13(Times3(d)), Times13(a), Times13(b));
    Rearrange9(Times9(Times2(d)), Times9(Times3(a)), Times9(b), Times9(c));
    Coefficients(a);
    Coefficients(b);
    Coefficients(c);
    Coefficients(d);
    OnlyFirst(a);
  }

  lemma Linear4(a: Octet, b: Octet, c: Octet, d: Octet)
    ensures Times14(Row(a, b, c, d)) == Row(Times14(a), Times14(b), Times14(c), Times14(d))
    ensures Times11(Row(a, b, c, d)) == Row(Times11(a), Times11(b), Times11(c), Times11(d))
    ensures Times13(Row(a, b, c, d)) == Row(Times13(a), Times13(b), Times13(c), Times13(d))
    ensures Times9(Row(a, b, c, d)) == Row(Times9(a), Times9(b), Times9(c), Times9(d))
  {
    hide Plus, Times9, Times11, Times13, Times14;
    TimesPlus(Plus(a, b), Plus(c, d));
    TimesPlus(a, b);
    TimesPlus(c, d);
  }

  lemma Rearrange11(b: Octet, c: Octet, d: Octet, a: Octet)
    ensures Row(b, c, d, a) == Row(a, b, c, d)
  {
  }

  lemma Rearrange13(c: Octet, d: Octet, a: Octet, b: Octet)
    ensures Row(c, d, a, b) == Row(a, b, c, d)
  {
  }

  lemma Rearrange9(d: Octet, a: Octet, b: Octet, c: Octet)
    ensures Row(d, a, b, c) == Row(a, b, c, d)
  {
  }

  lemma OnlyFirst(a: Octet)
    ensures Row(a, ZERO, ZERO, ZERO) == a
  {
  }
}
