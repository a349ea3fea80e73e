/** What the rungs of the ladder of section 5 of RFC 7748 compute, in plain arithmetic, and what climbing them does. */
module Ladder {
  import opened Arith
  import opened Bits
  import opened WordBits
  import opened WordOps
  import FieldBytes
  import M = Modular
  import C = Curve25519

  // ---------- congruence modulo p ----------

  ghost predicate Cong(x: int, y: int, p: int)
    requires p > 0
  {
    x % p == y % p
  }

  lemma ReducedIsCong(x: int, p: int)
    requires p > 0
    ensures Cong(x % p, x, p)
  {
    M.PlusReduced(0, x, p);
  }

  lemma CongSum(x: int, x': int, y: int, y': int, p: int)
    requires p > 0 && Cong(x, x', p) && Cong(y, y', p)
    ensures Cong(x + y, x' + y', p) && Cong(x - y, x' - y', p)
  {
    M.SumMod(x, y, p);
    M.SumMod(x', y', p);
    M.DifferenceMod(x, y, p);
    M.DifferenceMod(x', y', p);
  }

  lemma CongProduct(x: int, x': int, y: int, y': int, p: int)
    requires p > 0 && Cong(x, x', p) && Cong(y, y', p)
    ensures Cong(x * y, x' * y', p)
  {
    M.ProductMod(x, y, p);
    M.ProductMod(x', y', p);
  }

  /** The field operations stand for the operations on numbers. */
  lemma PlusMinus(x: nat, x': int, y: nat, y': int, p: int)
    requires p > 0 && Cong(x, x', p) && Cong(y, y', p)
    ensures Cong(M.Plus(x, y, p), x' + y', p) && Cong(M.Minus(x, y, p), x' - y', p)
  {
    hide M.Residue;
    M.ResidueIs(x + y, p);
    M.ResidueIs(x - y, p);
    ReducedIsCong(x + y, p);
    ReducedIsCong(x - y, p);
    CongSum(x, x', y, y', p);
  }

  lemma Product(x: nat, x': int, y: nat, y': int, p: int)
    requires p > 0 && Cong(x, x', p) && Cong(y, y', p)
    ensures M.Times(x, y, p) == x' * y' % p && Cong(M.Times(x, y, p), x' * y', p)
  {
    hide M.Times;
    M.TimesIs(x, y, p);
    ReducedIsCong(x * y, p);
    CongProduct(x, x', y, y', p);
  }

  // ---------- one rung ----------

  function Square(x: int): int { x * x }

  /** The coordinates of twice a point, on the curve with coefficient 486662. */
  function DoubleX(x: int, z: int): int { Square(x * x - z * z) }

  function DoubleZ(x: int, z: int): int { 4 * (x * z) * (x * x + 486662 * (x * z) + z * z) }

  /** The coordinates of the sum of two points whose difference has the coordinate x1. */
  function AddX(x: int, z: int, x': int, z': int): int { 4 * Square(x * x' - z * z') }

  function AddZ(x1: int, x: int, z: int, x': int, z': int): int { 4 * x1 * Square(x * z' - z * x') }

  lemma Squares(x: int, z: int)
    ensures Square(x + z) == x * x + 2 * (x * z) + z * z && Square(x - z) == x * x - 2 * (x * z) + z * z
    ensures (x + z) * (x - z) == x * x - z * z
  {
  }

  lemma DoubleIdentity(x: int, z: int)
    ensures Square(x + z) * Square(x - z) == DoubleX(x, z)
    ensures var e := Square(x + z) - Square(x - z);
            e * (Square(x + z) + 121665 * e) == DoubleZ(x, z)
  {
    Squares(x, z);
    SquareOfProduct(x + z, x - z);
    var m := x * z;
    assert Square(x + z) - Square(x - z) == 4 * m;
    assert Square(x + z) + 121665 * (4 * m) == x * x + 486662 * m + z * z;
  }

  lemma SquareOfProduct(a: int, b: int)
    ensures Square(a * b) == Square(a) * Square(b)
  {
    calc {
      Square(a * b);
      (a * b) * (a * b);
      a * (b * (a * b));
      a * (a * (b * b));
      Square(a) * Square(b);
    }
  }

  lemma AddIdentity(x1: int, x: int, z: int, x': int, z': int)
    ensures var da, cb := (x' - z') * (x + z), (x' + z') * (x - z);
            && Square(da + cb) == AddX(x, z, x', z')
            && x1 * Square(da - cb) == AddZ(x1, x, z, x', z')
  {
    var da, cb := (x' - z') * (x + z), (x' + z') * (x - z);
    Spread(x, z, x', z');
    var s, d := x * x' - z * z', x * z' - z * x';
    assert da + cb == 2 * s;
    assert da - cb == -2 * d;
    SquareOfProduct(2, s);
    SquareOfProduct(-2, d);
    assert x1 * (4 * Square(d)) == 4 * x1 * Square(d);
  }

  lemma Spread(x: int, z: int, x': int, z': int)
    ensures (x' - z') * (x + z) == x * x' + z * x' - x * z' - z * z'
    ensures (x' + z') * (x - z) == x * x' - z * x' + x * z' - z * z'
  {
    assert (x' - z') * (x + z) == x' * (x + z) - z' * (x + z);
    assert (x' + z') * (x - z) == x' * (x - z) + z' * (x - z);
  }

  lemma RungDoubles(r: C.Pair, x1: nat, p: int)
    requires p > 0
    ensures C.Rung(r, x1, p).x2 == DoubleX(r.x2, r.z2) % p && C.Rung(r, x1, p).z2 == DoubleZ(r.x2, r.z2) % p
  {
    hide M.Plus, M.Minus, M.Times, Square, DoubleX, DoubleZ, Cong;
    var x: int, z: int := r.x2, r.z2;
    CongSelf(r.x2, p);
    CongSelf(r.z2, p);
    CongSelf(121665, p);
    PlusMinus(r.x2, x, r.z2, z, p);
    var a, b := M.Plus(r.x2, r.z2, p), M.Minus(r.x2, r.z2, p);
    var aa, bb := M.Times(a, a, p), M.Times(b, b, p);
    Product(a, x + z, a, x + z, p);
    Product(b, x - z, b, x - z, p);
    SquareIs(x + z);
    SquareIs(x - z);
    Product(aa, Square(x + z), bb, Square(x - z), p);
    PlusMinus(aa, Square(x + z), bb, Square(x - z), p);
    var e, e' := M.Minus(aa, bb, p), Square(x + z) - Square(x - z);
    Product(121665, 121665, e, e', p);
    PlusMinus(aa, Square(x + z), M.Times(121665, e, p), 121665 * e', p);
    Product(e, e', M.Plus(aa, M.Times(121665, e, p), p), Square(x + z) + 121665 * e', p);
    DoubleIdentity(x, z);
  }

  lemma RungAdds(r: C.Pair, x1: nat, p: int)
    requires p > 0
    ensures C.Rung(r, x1, p).x3 == AddX(r.x2, r.z2, r.x3, r.z3) % p
    ensures C.Rung(r, x1, p).z3 == AddZ(x1, r.x2, r.z2, r.x3, r.z3) % p
  {
    hide M.Plus, M.Minus, M.Times, Square, AddX, AddZ, Cong;
    var x: int, z: int, x': int, z': int := r.x2, r.z2, r.x3, r.z3;
    CongSelf(r.x2, p);
    CongSelf(r.z2, p);
    CongSelf(r.x3, p);
    CongSelf(r.z3, p);
    CongSelf(x1, p);
    PlusMinus(r.x2, x, r.z2, z, p);
    PlusMinus(r.x3, x', r.z3, z', p);
    var da := M.Times(M.Minus(r.x3, r.z3, p), M.Plus(r.x2, r.z2, p), p);
    var cb := M.Times(M.Plus(r.x3, r.z3, p), M.Minus(r.x2, r.z2, p), p);
    var da', cb' := (x' - z') * (x + z), (x' + z') * (x - z);
    Product(M.Minus(r.x3, r.z3, p), x' - z', M.Plus(r.x2, r.z2, p), x + z, p);
    Product(M.Plus(r.x3, r.z3, p), x' + z', M.Minus(r.x2, r.z2, p), x - z, p);
    PlusMinus(da, da', cb, cb', p);
    var s, d := M.Plus(da, cb, p), M.Minus(da, cb, p);
    Product(s, da' + cb', s, da' + cb', p);
    Product(d, da' - cb', d, da' - cb', p);
    SquareIs(da' + cb');
    SquareIs(da' - cb');
    Product(x1, x1, M.Times(d, d, p), Square(da' - cb'), p);
    AddIdentity(x1, x, z, x', z');
  }

  lemma CongSelf(x: int, p: int)
    requires p > 0
    ensures Cong(x, x, p)
  {
  }

  lemma SquareIs(x: int)
    ensures Square(x) == x * x
  {
  }

  // ---------- the whole ladder ----------

  /**
   * Whether a pair of numbers stands for a multiple of the point, for any notion that holds for the point and for
   * the neutral element and is kept by the doubling and the differential addition laws.
   */
  type Stands = (nat, nat, nat) -> bool

  ghost predicate KeepsDoubling(stands: Stands, p: int)
    requires p > 0
  {
    forall n: nat, x: nat, z: nat :: stands(n, x, z) ==> stands(2 * n, DoubleX(x, z) % p, DoubleZ(x, z) % p)
  }

  ghost predicate KeepsAddition(stands: Stands, x1: nat, p: int)
    requires p > 0
  {
    forall n: nat, m: nat, x: nat, z: nat, x': nat, z': nat :: stands(n, x, z) && stands(m, x', z') && m == n + 1 ==>
      stands(n + m, AddX(x, z, x', z') % p, AddZ(x1, x, z, x', z') % p)
  }

  ghost predicate Lawful(stands: Stands, x1: nat, p: int)
    requires p > 0
  {
    stands(0, 1, 0) && stands(1, x1, 1) && KeepsDoubling(stands, p) && KeepsAddition(stands, x1, p)
  }

  /** The two pairs of a ladder, as swap says, stand for n and n + 1 times the point. */
  ghost predicate Neighbours(stands: Stands, n: nat, r: C.Pair) {
    stands(n, r.x2, r.z2) && stands(n + 1, r.x3, r.z3)
  }

  lemma AdditionIsSymmetric(x1: int, x: int, z: int, x': int, z': int)
    ensures AddX(x, z, x', z') == AddX(x', z', x, z) && AddZ(x1, x, z, x', z') == AddZ(x1, x', z', x, z)
  {
    hide Square;
    assert x * x' == x' * x && z * z' == z' * z && x * z' == z' * x && z * x' == x' * z;
    SquareOfNegative(x * z' - z * x');
  }

  lemma SquareOfNegative(d: int)
    ensures Square(-d) == Square(d)
  {
  }

  lemma RungKeeps(stands: Stands, n: nat, r: C.Pair, bit: bool, x1: nat, p: int)
    requires p > 0 && Lawful(stands, x1, p) && Neighbours(stands, n, r)
    ensures Neighbours(stands, 2 * n + (if bit then 1 else 0), C.CondSwap(bit, C.Rung(C.CondSwap(bit, r), x1, p)))
  {
    hide C.Rung, DoubleX, DoubleZ, AddX, AddZ;
    var s := C.CondSwap(bit, r);
    RungDoubles(s, x1, p);
    RungAdds(s, x1, p);
    AdditionIsSymmetric(x1, r.x2, r.z2, r.x3, r.z3);
    assert KeepsDoubling(stands, p) && KeepsAddition(stands, x1, p);
    assert stands(n + (n + 1), AddX(r.x2, r.z2, r.x3, r.z3) % p, AddZ(x1, r.x2, r.z2, r.x3, r.z3) % p);
    if bit {
      assert stands(2 * (n + 1), DoubleX(r.x3, r.z3) % p, DoubleZ(r.x3, r.z3) % p);
    } else {
      assert stands(2 * n, DoubleX(r.x2, r.z2) % p, DoubleZ(r.x2, r.z2) % p);
    }
  }

  lemma NextBit(k: nat, t: nat)
    ensures High(k, t) == 2 * High(k, t + 1) + if Bit(k, t) then 1 else 0
  {
    hide High;
    LowHigh(k, t);
    LowHigh(k, t + 1);
    FieldBytes.NestedDiv(k, Pow2(t), 2);
  }

  /** After the bits 254 down to t of k the pairs stand for High(k, t), which is k >> t, and the number after it. */
  lemma {:induction false} ClimbIsMultiples(stands: Stands, k: nat, x1: nat, t: nat, p: int)
    requires p > 0 && k < Pow2(255) && t <= 255 && Lawful(stands, x1, p)
    ensures var l := C.Climb(k, x1, t, p);
            Neighbours(stands, High(k, t), C.CondSwap(l.swap, l.at))
    decreases 255 - t
  {
    hide C.Rung, C.Climb, C.CondSwap, Lawful, Neighbours, High, Pow2, Bit;
    ClimbStep(k, x1, t, p);
    if t == 255 {
      LowHigh(k, 255);
      SmallMod(k, Pow2(255));
      Beginning(stands, x1, p);
    } else {
      ClimbIsMultiples(stands, k, x1, t + 1, p);
      var l := C.Climb(k, x1, t + 1, p);
      NextBit(k, t);
      RungKeeps(stands, High(k, t + 1), C.CondSwap(l.swap, l.at), Bit(k, t), x1, p);
      SwapTwice(l.swap, Bit(k, t), l.at);
    }
  }

  lemma ClimbStep(k: nat, x1: nat, t: nat, p: int)
    requires p > 0 && t <= 255
    ensures t == 255 ==> C.Climb(k, x1, t, p) == C.Ladder(C.Pair(1, 0, x1, 1), false)
    ensures t < 255 ==>
              var l := C.Climb(k, x1, t + 1, p);
              C.Climb(k, x1, t, p) == C.Ladder(C.Rung(C.CondSwap(l.swap != Bit(k, t), l.at), x1, p), Bit(k, t))
  {
    hide C.Rung, C.CondSwap, Bit;
  }

  lemma Beginning(stands: Stands, x1: nat, p: int)
    requires p > 0 && Lawful(stands, x1, p)
    ensures Neighbours(stands, 0, C.CondSwap(false, C.Pair(1, 0, x1, 1)))
  {
  }

  lemma SwapTwice(a: bool, b: bool, r: C.Pair)
    ensures C.CondSwap(b, C.CondSwap(a, r)) == C.CondSwap(a != b, r)
  {
  }

  /** X25519 is x z^(p - 2) for a pair that stands for k times the point. */
  lemma X25519IsMultiple(stands: Stands, k: nat, u: nat, p: int) returns (x: nat, z: nat)
    requires p > 2 && k < Pow2(255) && Lawful(stands, u, p)
    ensures stands(k, x, z) && C.X25519(k, u, p) == x * M.Pow(z, p - 2) % p
  {
    hide Lawful, C.Climb, M.Times, M.Power, M.Pow;
    ClimbIsMultiples(stands, k, u, 0, p);
    var l := C.Climb(k, u, 0, p);
    var r := C.CondSwap(l.swap, l.at);
    x, z := r.x2, r.z2;
    assert High(k, 0) == k;
    M.PowerIs(z, p - 2, p);
    M.TimesIs(x, M.Power(z, p - 2, p), p);
    ReducedIsCong(M.Pow(z, p - 2), p);
    CongSelf(x, p);
    CongProduct(x, x, M.Power(z, p - 2, p), M.Pow(z, p - 2), p);
  }

  /** The scalar that curve25519 climbs: 255 bits, the highest of them set, a multiple of 8. */
  lemma ClampedScalar(n: nat)
    ensures var k := C.T254 + n % C.T254 - n % 8;
            C.T254 <= k < Pow2(255) && k % 8 == 0
  {
    hide Pow2;
    C.ModulusIs();
    var q, r := n / C.T254, n % C.T254;
    DivMod(n, C.T254);
    ClampedIdentity(n, q, r);
  }

  lemma ClampedIdentity(n: nat, q: nat, r: nat)
    requires n == q * 0x4000_0000_0000_0000_0000_0000_0000_0000_0000_0000_0000_0000_0000_0000_0000_0000 + r
    ensures n % 8 == r % 8
  {
    assert n == 8 * (q * 0x800_0000_0000_0000_0000_0000_0000_0000_0000_0000_0000_0000_0000_0000_0000_0000) + r;
  }
}
