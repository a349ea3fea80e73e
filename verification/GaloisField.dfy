/**
 * GF(2^128) as in section 6.3 of NIST SP 800-38D: polynomials over GF(2), lowest degree first,
 * modulo x^128 + x^7 + x^2 + x + 1.
 */
module GaloisField {
  const N: nat := 128

  type Poly = p: seq<bool> | |p| == N witness seq(N, _ => false)

  function Plus(a: Poly, b: Poly): (r: Poly) {
    seq(N, i requires 0 <= i < N => a[i] != b[i])
  }

  function Zero(): Poly { seq(N, _ => false) }

  function Times(c: bool, a: Poly): Poly { if c then a else Zero() }

  /** x^128 is 1 + x + x^2 + x^7. */
  function Reduction(): Poly { [true, true, true, false, false, false, false, true] + seq(N - 8, _ => false) }

  function TimesX(v: Poly): Poly {
    Plus([false] + v[..N - 1], Times(v[N - 1], Reduction()))
  }

  function TimesXPow(v: Poly, k: nat): Poly {
    if k == 0 then v else TimesX(TimesXPow(v, k - 1))
  }

  /** The terms of degree below n of x, times y. */
  function Partial(x: Poly, y: Poly, n: nat): Poly
    requires n <= N
  {
    if n == 0 then Zero() else Plus(Partial(x, y, n - 1), Times(x[n - 1], TimesXPow(y, n - 1)))
  }

  function Product(x: Poly, y: Poly): Poly { Partial(x, y, N) }

  function Unit(k: nat): Poly { seq(N, i => i == k) }

  // ---------- addition ----------

  lemma PlusLaws(a: Poly, b: Poly, c: Poly)
    ensures Plus(a, b) == Plus(b, a) && Plus(a, Plus(b, c)) == Plus(Plus(a, b), c)
    ensures Plus(a, Zero()) == a && Plus(a, a) == Zero()
  {
  }

  /** (a + b) + (c + d) == (a + c) + (b + d) */
  lemma PlusSwap(a: Poly, b: Poly, c: Poly, d: Poly)
    ensures Plus(Plus(a, b), Plus(c, d)) == Plus(Plus(a, c), Plus(b, d))
  {
  }

  lemma TimesPlus(c: bool, a: Poly, b: Poly)
    ensures Times(c, Plus(a, b)) == Plus(Times(c, a), Times(c, b))
  {
    assert Plus(Zero(), Zero()) == Zero();
  }

  lemma PlusTimes(c: bool, d: bool, a: Poly)
    ensures Times(c != d, a) == Plus(Times(c, a), Times(d, a))
  {
    PlusLaws(a, a, a);
    PlusLaws(Zero(), a, a);
    assert Plus(Zero(), Zero()) == Zero();
  }

  // ---------- multiplication by x is linear ----------

  lemma ShiftPlus(a: Poly, b: Poly)
    ensures [false] + Plus(a, b)[..N - 1] == Plus([false] + a[..N - 1], [false] + b[..N - 1])
  {
  }

  lemma TimesXPlus(a: Poly, b: Poly)
    ensures TimesX(Plus(a, b)) == Plus(TimesX(a), TimesX(b))
  {
    var r := Reduction();
    ShiftPlus(a, b);
    assert Plus(a, b)[N - 1] == (a[N - 1] != b[N - 1]);
    hide Plus, Reduction, Times;
    PlusTimes(a[N - 1], b[N - 1], r);
    PlusSwap([false] + a[..N - 1], [false] + b[..N - 1], Times(a[N - 1], r), Times(b[N - 1], r));
  }

  lemma TimesXZero()
    ensures TimesX(Zero()) == Zero()
  {
  }

  lemma {:induction false} TimesXPowPlus(a: Poly, b: Poly, k: nat)
    ensures TimesXPow(Plus(a, b), k) == Plus(TimesXPow(a, k), TimesXPow(b, k))
  {
    hide Plus, TimesX;
    if k > 0 {
      TimesXPowPlus(a, b, k - 1);
      TimesXPlus(TimesXPow(a, k - 1), TimesXPow(b, k - 1));
    }
  }

  lemma {:induction false} TimesXPowZero(k: nat)
    ensures TimesXPow(Zero(), k) == Zero()
  {
    hide TimesX;
    if k > 0 {
      TimesXPowZero(k - 1);
      TimesXZero();
    }
  }

  lemma TimesXPowTimes(c: bool, a: Poly, k: nat)
    ensures TimesXPow(Times(c, a), k) == Times(c, TimesXPow(a, k))
  {
    TimesXPowZero(k);
  }

  lemma {:induction false} TimesXPowAdd(a: Poly, j: nat, k: nat)
    ensures TimesXPow(TimesXPow(a, j), k) == TimesXPow(a, j + k)
  {
    hide TimesX;
    if k > 0 {
      TimesXPowAdd(a, j, k - 1);
    }
  }

  lemma UnitStep(k: nat)
    requires k + 1 < N
    ensures TimesX(Unit(k)) == Unit(k + 1)
  {
  }

  lemma {:induction false} UnitIs(k: nat)
    requires k < N
    ensures TimesXPow(Unit(0), k) == Unit(k)
  {
    hide TimesX, Unit;
    if k > 0 {
      UnitIs(k - 1);
      UnitStep(k - 1);
    }
  }

  // ---------- multiplication ----------

  lemma PartialMore(x: Poly, y: Poly, n: nat)
    requires n < N
    ensures Partial(x, y, 0) == Zero()
    ensures Partial(x, y, n + 1) == Plus(Partial(x, y, n), Times(x[n], TimesXPow(y, n)))
  {
  }

  lemma PlusAt(a: Poly, b: Poly, i: nat)
    requires i < N
    ensures Plus(a, b)[i] == (a[i] != b[i])
  {
  }

  lemma {:induction false} PartialPlusLeft(a: Poly, b: Poly, y: Poly, n: nat)
    requires n <= N
    ensures Partial(Plus(a, b), y, n) == Plus(Partial(a, y, n), Partial(b, y, n))
  {
    hide Plus, TimesXPow, Times, Zero, Partial;
    if n == 0 {
      PartialMore(a, y, 0);
      PartialMore(b, y, 0);
      PartialMore(Plus(a, b), y, 0);
      PlusLaws(Zero(), Zero(), Zero());
    } else {
      var k := n - 1;
      PartialPlusLeft(a, b, y, k);
      PartialMore(a, y, k);
      PartialMore(b, y, k);
      PartialMore(Plus(a, b), y, k);
      PlusAt(a, b, k);
      PlusTimes(a[k], b[k], TimesXPow(y, k));
      PlusSwap(Partial(a, y, k), Partial(b, y, k), Times(a[k], TimesXPow(y, k)), Times(b[k], TimesXPow(y, k)));
    }
  }

  lemma {:induction false} PartialPlusRight(x: Poly, a: Poly, b: Poly, n: nat)
    requires n <= N
    ensures Partial(x, Plus(a, b), n) == Plus(Partial(x, a, n), Partial(x, b, n))
  {
    hide Plus, TimesXPow, Times, Zero, Partial;
    if n == 0 {
      PartialMore(x, a, 0);
      PartialMore(x, b, 0);
      PartialMore(x, Plus(a, b), 0);
      PlusLaws(Zero(), Zero(), Zero());
    } else {
      var k := n - 1;
      PartialPlusRight(x, a, b, k);
      PartialMore(x, a, k);
      PartialMore(x, b, k);
      PartialMore(x, Plus(a, b), k);
      TimesXPowPlus(a, b, k);
      TimesPlus(x[k], TimesXPow(a, k), TimesXPow(b, k));
      PlusSwap(Partial(x, a, k), Partial(x, b, k), Times(x[k], TimesXPow(a, k)), Times(x[k], TimesXPow(b, k)));
    }
  }

  /** A power of x may be taken out of a product. */
  lemma {:induction false} PartialShift(x: Poly, y: Poly, n: nat, k: nat)
    requires n <= N
    ensures Partial(x, TimesXPow(y, k), n) == TimesXPow(Partial(x, y, n), k)
  {
    hide Plus, TimesXPow, Times, Zero, Partial;
    if n == 0 {
      PartialMore(x, y, 0);
      PartialMore(x, TimesXPow(y, k), 0);
      TimesXPowZero(k);
    } else {
      var j := n - 1;
      PartialShift(x, y, j, k);
      PartialMore(x, y, j);
      PartialMore(x, TimesXPow(y, k), j);
      TimesXPowPlus(Partial(x, y, j), Times(x[j], TimesXPow(y, j)), k);
      TimesXPowTimes(x[j], TimesXPow(y, j), k);
      TimesXPowAdd(y, j, k);
      TimesXPowAdd(y, k, j);
    }
  }

  lemma {:induction false} PartialZero(x: Poly, n: nat)
    requires n <= N
    ensures Partial(x, Zero(), n) == Zero()
  {
    hide Plus, TimesXPow, Times, Zero, Partial;
    PartialMore(x, Zero(), 0);
    if n > 0 {
      PartialZero(x, n - 1);
      PartialMore(x, Zero(), n - 1);
      TimesXPowZero(n - 1);
      TimesZero(x[n - 1]);
      PlusLaws(Zero(), Zero(), Zero());
    }
  }

  lemma TimesZero(c: bool)
    ensures Times(c, Zero()) == Zero()
  {
  }

  lemma PartialScaled(x: Poly, c: bool, y: Poly, n: nat, k: nat)
    requires n <= N
    ensures Partial(x, Times(c, TimesXPow(y, k)), n) == Times(c, TimesXPow(Partial(x, y, n), k))
  {
    PartialShift(x, y, n, k);
    PartialZero(x, n);
  }

  /** 1 is the identity: the terms of x below degree n are those of x up to there. */
  lemma {:induction false} PartialOne(x: Poly, n: nat)
    requires n <= N
    ensures Partial(x, Unit(0), n) == seq(N, i requires 0 <= i < N => i < n && x[i])
  {
    PartialMore(x, Unit(0), 0);
    if n > 0 {
      hide Partial, TimesXPow;
      PartialOne(x, n - 1);
      PartialMore(x, Unit(0), n - 1);
      UnitIs(n - 1);
    }
  }

  lemma ProductOne(x: Poly)
    ensures Product(x, Unit(0)) == x
  {
    hide Partial, Unit;
    PartialOne(x, N);
  }

  /** The double sum over the terms of both factors can be taken in either order. */
  lemma {:induction false} PartialCommutes(x: Poly, y: Poly, n: nat, m: nat)
    requires n <= N && m <= N
    ensures Partial(x, Partial(y, Unit(0), m), n) == Partial(y, Partial(x, Unit(0), n), m)
  {
    hide Plus, TimesXPow, Times, Zero, Partial, Unit;
    var q := Partial(y, Unit(0), m);
    if n == 0 {
      PartialMore(x, q, 0);
      PartialMore(x, Unit(0), 0);
      PartialZero(y, m);
    } else {
      var k := n - 1;
      PartialCommutes(x, y, k, m);
      PartialMore(x, q, k);
      PartialMore(x, Unit(0), k);
      PartialPlusRight(y, Partial(x, Unit(0), k), Times(x[k], TimesXPow(Unit(0), k)), m);
      PartialScaled(y, x[k], Unit(0), m, k);
    }
  }

  /** The product is commutative. */
  lemma ProductCommutes(x: Poly, y: Poly)
    ensures Product(x, y) == Product(y, x)
  {
    hide Partial, Unit;
    ProductOne(x);
    ProductOne(y);
    PartialCommutes(x, y, N, N);
  }

  /** The product distributes over addition, which is exclusive or, on both sides. */
  lemma ProductDistributes(a: Poly, b: Poly, y: Poly)
    ensures Product(Plus(a, b), y) == Plus(Product(a, y), Product(b, y))
    ensures Product(y, Plus(a, b)) == Plus(Product(y, a), Product(y, b))
  {
    hide Partial, Plus;
    PartialPlusLeft(a, b, y, N);
    PartialPlusRight(y, a, b, N);
  }

  lemma ProductScaled(c: bool, y: Poly, k: nat, z: Poly)
    ensures Product(Times(c, TimesXPow(y, k)), z) == Times(c, TimesXPow(Product(y, z), k))
  {
    hide Partial, Times, TimesXPow;
    ProductCommutes(Times(c, TimesXPow(y, k)), z);
    ProductCommutes(y, z);
    PartialScaled(z, c, y, N, k);
  }

  lemma {:induction false} PartialAssociates(x: Poly, y: Poly, z: Poly, n: nat)
    requires n <= N
    ensures Product(Partial(x, y, n), z) == Partial(x, Product(y, z), n)
  {
    hide Plus, TimesXPow, Times, Zero, Partial, Product;
    if n == 0 {
      PartialMore(x, y, 0);
      PartialMore(x, Product(y, z), 0);
      ProductZero(z);
    } else {
      var k := n - 1;
      PartialAssociates(x, y, z, k);
      PartialMore(x, y, k);
      PartialMore(x, Product(y, z), k);
      ProductDistributes(Partial(x, y, k), Times(x[k], TimesXPow(y, k)), z);
      ProductScaled(x[k], y, k, z);
    }
  }

  lemma ProductZero(z: Poly)
    ensures Product(Zero(), z) == Zero()
  {
    hide Partial, Zero;
    ProductCommutes(Zero(), z);
    PartialZero(z, N);
  }

  /** The product is associative. */
  lemma ProductAssociates(x: Poly, y: Poly, z: Poly)
    ensures Product(Product(x, y), z) == Product(x, Product(y, z))
  {
    hide Partial;
    PartialAssociates(x, y, z, N);
  }

  // ---------- what the product is, on powers of x ----------

  lemma {:induction false} PartialUnit(i: nat, y: Poly, n: nat)
    requires i < N && n <= N
    ensures Partial(Unit(i), y, n) == if i < n then TimesXPow(y, i) else Zero()
  {
    hide Plus, TimesXPow, Zero, Partial;
    PartialMore(Unit(i), y, 0);
    if n > 0 {
      PartialUnit(i, y, n - 1);
      PartialMore(Unit(i), y, n - 1);
      PlusLaws(Zero(), Zero(), Zero());
      PlusLaws(TimesXPow(y, i), Zero(), Zero());
      PlusLaws(Zero(), TimesXPow(y, i), Zero());
    }
  }

  /** Exponents are added; the product of all polynomials follows, as it distributes over addition. */
  lemma UnitsMultiply(i: nat, j: nat)
    requires i + j < N
    ensures Product(Unit(i), Unit(j)) == Unit(i + j)
  {
    hide Partial, TimesXPow, Unit;
    PartialUnit(i, Unit(j), N);
    UnitIs(j);
    TimesXPowAdd(Unit(0), j, i);
    UnitIs(i + j);
  }

  /** x times x^127 is x^7 + x^2 + x + 1. */
  lemma UnitsReduce(k: nat)
    requires k < N
    ensures Product(Unit(1), Unit(N - 1))[k] == (k == 0 || k == 1 || k == 2 || k == 7)
  {
    hide Partial;
    PartialUnit(1, Unit(N - 1), N);
    assert TimesXPow(Unit(N - 1), 1) == TimesX(Unit(N - 1));
  }
}
