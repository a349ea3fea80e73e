/** Byte strings shared by the models of the crypto code. */
module ByteStrings {
  type Bytes = seq<bv8>

  function Xor(a: Bytes, b: Bytes): (r: Bytes)
    requires |a| == |b|
    ensures |r| == |a|
    ensures forall i :: 0 <= i < |a| ==> r[i] == a[i] ^ b[i]
  {
    seq(|a|, i requires 0 <= i < |a| => a[i] ^ b[i])
  }

  lemma XorCancels(a: Bytes, b: Bytes)
    requires |a| == |b|
    ensures Xor(Xor(a, b), b) == a
  {
    forall i | 0 <= i < |a| ensures Xor(Xor(a, b), b)[i] == a[i] {
      assert (a[i] ^ b[i]) ^ b[i] == a[i];
    }
  }

  /** `s` with the elements from `at` on overwritten by `t`. */
  function Splice<T>(s: seq<T>, at: nat, t: seq<T>): (r: seq<T>)
    requires at + |t| <= |s|
    ensures |r| == |s|
  {
    s[..at] + t + s[at + |t|..]
  }

  lemma SpliceAdjacent<T>(s: seq<T>, at: nat, t: seq<T>, u: seq<T>)
    requires at + |t| + |u| <= |s|
    ensures Splice(Splice(s, at, t), at + |t|, u) == Splice(s, at, t + u)
  {
  }

  lemma SpliceNothing<T>(s: seq<T>, at: nat)
    requires at <= |s|
    ensures Splice(s, at, []) == s
  {
  }

  lemma SpliceWhole<T>(s: seq<T>, t: seq<T>)
    requires |s| == |t|
    ensures Splice(s, 0, t) == t
  {
  }

  lemma SpliceEnds<T>(s: seq<T>, at: nat, t: seq<T>)
    requires at + |t| <= |s|
    ensures Splice(s, at, t)[..at + |t|] == s[..at] + t
  {
  }

  lemma SpliceSlices<T>(s: seq<T>, at: nat, t: seq<T>, from: nat, m: nat, n: nat)
    requires at + m + n <= |s| && from + m + n <= |t|
    ensures Splice(Splice(s, at, t[from..from + m]), at + m, t[from + m..from + m + n])
         == Splice(s, at, t[from..from + m + n])
  {
  }

  lemma SpliceLeft<T>(a: seq<T>, b: seq<T>, at: nat, t: seq<T>)
    requires at + |t| <= |a|
    ensures Splice(a + b, at, t) == Splice(a, at, t) + b
  {
  }

  lemma SpliceRight<T>(a: seq<T>, b: seq<T>, at: nat, t: seq<T>)
    requires at + |t| <= |b|
    ensures Splice(a + b, |a| + at, t) == a + Splice(b, at, t)
  {
  }

  /** The memmove/bcopy of the C library; source and destination may overlap. */
  method Bcopy<T(0)>(src: array<T>, srcAt: nat, dst: array<T>, dstAt: nat, n: nat)
    requires srcAt + n <= src.Length && dstAt + n <= dst.Length
    modifies dst
    ensures dst[..] == old(Splice(dst[..], dstAt, src[srcAt..srcAt + n]))
  {
    var tmp := src[srcAt..srcAt + n];
    for i := 0 to n
      invariant forall j :: 0 <= j < dst.Length ==>
                  dst[j] == if dstAt <= j < dstAt + i then tmp[j - dstAt] else old(dst[j])
    {
      dst[dstAt + i] := tmp[i];
    }
  }

  /** memcpy from a local variable. */
  method Store(mem: array<bv8>, at: nat, b: Bytes)
    requires at + |b| <= mem.Length
    modifies mem
    ensures mem[..] == Splice(old(mem[..]), at, b)
    ensures mem[at + |b|..] == old(mem[at + |b|..])
  {
    forall k | 0 <= k < |b| {
      mem[at + k] := b[k];
    }
  }
}
