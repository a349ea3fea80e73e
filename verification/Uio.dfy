/** Scatter/gather lists and the routines of criov.c that walk them. */
module Uio {
  import opened ByteStrings

  /** The iovecs are the arrays themselves: distinct arrays are disjoint memory. */
  type Iovecs = seq<array<bv8>>

  ghost predicate Disjoint(iovs: Iovecs) {
    forall i, j :: 0 <= i < j < |iovs| ==> iovs[i] != iovs[j]
  }

  /** Position in the flattened data at which iovec `n` begins. */
  function Start(iovs: Iovecs, n: nat): nat
    requires n <= |iovs|
  {
    if n == 0 then 0 else Start(iovs, n - 1) + iovs[n - 1].Length
  }

  lemma StartNext(iovs: Iovecs, n: nat)
    requires n < |iovs|
    ensures Start(iovs, 0) == 0
    ensures Start(iovs, n + 1) == Start(iovs, n) + iovs[n].Length
  {
  }

  ghost function Contents(iovs: Iovecs): (c: seq<Bytes>)
    reads iovs
    ensures |c| == |iovs|
    ensures forall i :: 0 <= i < |iovs| ==> c[i] == iovs[i][..]
  {
    seq(|iovs|, i requires 0 <= i < |iovs| reads iovs => iovs[i][..])
  }

  ghost predicate Fits(iovs: Iovecs, c: seq<Bytes>) {
    |c| == |iovs| && forall i :: 0 <= i < |iovs| ==> |c[i]| == iovs[i].Length
  }

  /** The first `n` pieces, joined. */
  function Join(c: seq<Bytes>, n: nat): Bytes
    requires n <= |c|
  {
    if n == 0 then [] else Join(c, n - 1) + c[n - 1]
  }

  lemma JoinLength(iovs: Iovecs, c: seq<Bytes>, n: nat)
    requires Fits(iovs, c) && n <= |c|
    ensures |Join(c, n)| == Start(iovs, n)
  {
  }

  /** The data the list describes, as one byte string. */
  ghost function Flat(iovs: Iovecs): (r: Bytes)
    reads iovs
    ensures |r| == Start(iovs, |iovs|)
  {
    JoinLength(iovs, Contents(iovs), |iovs|);
    Join(Contents(iovs), |iovs|)
  }

  lemma StartMonotone(iovs: Iovecs, m: nat, n: nat)
    requires m <= n <= |iovs|
    ensures Start(iovs, m) <= Start(iovs, n)
  {
  }

  /** Part of iovec `ind` is the slice of the flattened data at its position. */
  lemma {:induction false} JoinSlice(iovs: Iovecs, c: seq<Bytes>, ind: nat, k: nat, count: nat, n: nat)
    requires Fits(iovs, c) && ind < n <= |c| && k + count <= |c[ind]|
    ensures Start(iovs, ind) + k + count <= Start(iovs, n) == |Join(c, n)|
    ensures var at := Start(iovs, ind) + k;
            Join(c, n)[at..at + count] == c[ind][k..k + count]
  {
    JoinLength(iovs, c, n);
    JoinLength(iovs, c, n - 1);
    if ind < n - 1 {
      JoinSlice(iovs, c, ind, k, count, n - 1);
    }
  }

  /** Overwriting part of one piece overwrites that part of the joined data. */
  lemma {:induction false} JoinUpdate(iovs: Iovecs, c: seq<Bytes>, ind: nat, k: nat, t: Bytes, n: nat)
    requires Fits(iovs, c) && ind < |c| && k + |t| <= |c[ind]| && n <= |c|
    ensures ind < n ==> Start(iovs, ind) + k + |t| <= Start(iovs, n) == |Join(c, n)|
    ensures var d := c[ind := Splice(c[ind], k, t)];
            Join(d, n) == if ind < n then Splice(Join(c, n), Start(iovs, ind) + k, t) else Join(c, n)
  {
    hide Splice;
    JoinLength(iovs, c, n);
    if n > 0 {
      JoinLength(iovs, c, n - 1);
      JoinUpdate(iovs, c, ind, k, t, n - 1);
      if ind < n - 1 {
        SpliceLeft(Join(c, n - 1), c[n - 1], Start(iovs, ind) + k, t);
      } else if ind == n - 1 {
        SpliceRight(Join(c, n - 1), c[ind], k, t);
      }
    }
  }

  lemma FlatSlice(iovs: Iovecs, ind: nat, k: nat, count: nat)
    requires ind < |iovs| && k + count <= iovs[ind].Length
    ensures Start(iovs, ind) + k + count <= |Flat(iovs)|
    ensures var at := Start(iovs, ind) + k;
            Flat(iovs)[at..at + count] == iovs[ind][k..k + count]
  {
    JoinSlice(iovs, Contents(iovs), ind, k, count, |iovs|);
  }

  /** `c` is what the iovecs held before part of iovec `ind` was overwritten by `t`. */
  lemma FlatAfterWrite(iovs: Iovecs, c: seq<Bytes>, ind: nat, k: nat, t: Bytes)
    requires Fits(iovs, c) && ind < |c| && k + |t| <= |c[ind]|
    requires iovs[ind][..] == Splice(c[ind], k, t)
    requires forall i :: 0 <= i < |c| && i != ind ==> iovs[i][..] == c[i]
    ensures Start(iovs, ind) + k + |t| <= |Join(c, |c|)|
    ensures Flat(iovs) == Splice(Join(c, |c|), Start(iovs, ind) + k, t)
  {
    hide Splice;
    assert Contents(iovs) == c[ind := Splice(c[ind], k, t)];
    JoinUpdate(iovs, c, ind, k, t, |c|);
  }

  /** cuio_getptr: the iovec and offset of a flat position, or -1. */
  method GetPtr(iovs: Iovecs, pos: nat) returns (ind: int, off: nat)
    ensures ind == -1 <==> iovs == [] || pos > Start(iovs, |iovs|)
    ensures ind != -1 ==>
              && 0 <= ind < |iovs|
              && off <= iovs[ind].Length
              && Start(iovs, ind) + off == pos
              && (off == iovs[ind].Length ==> pos == Start(iovs, |iovs|))
  {
    var loc: nat := pos;
    ind := 0;
    while ind < |iovs|
      invariant 0 <= ind <= |iovs|
      invariant Start(iovs, ind) + loc == pos
    {
      StartMonotone(iovs, ind + 1, |iovs|);
      var len := iovs[ind].Length;
      if len > loc {
        return ind, loc;
      }
      loc := loc - len;
      ind := ind + 1;
    }
    if ind > 0 && loc == 0 {
      ind := ind - 1;
      return ind, iovs[ind].Length;
    }
    return -1, 0;
  }

  /** The skip loop of the copying routines; `ok` is false where the source panics. */
  method Skip(iovs: Iovecs, pos: nat) returns (ok: bool, ind: nat, off: nat)
    ensures ok <==> pos <= |Flat(iovs)|
    ensures ok ==>
              && ind <= |iovs|
              && Start(iovs, ind) + off == pos
              && (off == 0 || (ind < |iovs| && off < iovs[ind].Length))
  {
    ok, ind, off := true, 0, pos;
    while off > 0
      invariant ind <= |iovs|
      invariant Start(iovs, ind) + off == pos
      decreases |iovs| - ind
    {
      if ind == |iovs| {
        return false, ind, off;
      }
      StartMonotone(iovs, ind + 1, |iovs|);
      if off < iovs[ind].Length {
        break;
      }
      off := off - iovs[ind].Length;
      ind := ind + 1;
    }
    StartMonotone(iovs, ind, |iovs|);
  }

  /** cuio_copydata; `ok` is false where the source panics. */
  method CopyData(iovs: Iovecs, pos: nat, len: nat, cp: array<bv8>) returns (ok: bool)
    requires len <= cp.Length && cp !in iovs
    modifies cp
    ensures ok <==> pos + len <= |Flat(iovs)|
    ensures ok ==> cp[..] == Splice(old(cp[..]), 0, Flat(iovs)[pos..pos + len])
  {
    hide Splice, Flat, Contents, Join;
    ghost var flat := Flat(iovs);
    var ind: nat, off: nat;
    ok, ind, off := Skip(iovs, pos);
    if !ok {
      return;
    }
    var done: nat := 0;
    SpliceNothing(cp[..], 0);
    assert flat[pos..pos] == [];
    while done < len
      invariant Flat(iovs) == flat
      invariant done <= len && ind <= |iovs| && pos + done <= |flat|
      invariant done < len ==> Start(iovs, ind) + off == pos + done
      invariant done < len ==> off == 0 || (ind < |iovs| && off < iovs[ind].Length)
      invariant cp[..] == Splice(old(cp[..]), 0, flat[pos..pos + done])
      decreases |iovs| - ind
    {
      if ind == |iovs| {
        return false;
      }
      var count := if iovs[ind].Length - off < len - done then iovs[ind].Length - off else len - done;
      FlatSlice(iovs, ind, off, count);
      SpliceSlices(old(cp[..]), 0, flat, pos, done, count);
      Bcopy(iovs[ind], off, cp, done, count);
      done := done + count;
      off := 0;
      ind := ind + 1;
    }
  }

  /** bcopy into part of one iovec. */
  method WritePart(iovs: Iovecs, ind: nat, off: nat, cp: array<bv8>, at: nat, count: nat)
    requires Disjoint(iovs) && ind < |iovs| && off + count <= iovs[ind].Length
    requires at + count <= cp.Length && cp !in iovs
    modifies iovs[ind]
    ensures Start(iovs, ind) + off + count <= |Flat(iovs)|
    ensures Flat(iovs) == Splice(old(Flat(iovs)), Start(iovs, ind) + off, cp[at..at + count])
  {
    hide Splice;
    ghost var c := Contents(iovs);
    Bcopy(cp, at, iovs[ind], off, count);
    FlatAfterWrite(iovs, c, ind, off, cp[at..at + count]);
  }

  /** cuio_copyback; `ok` is false where the source panics. */
  method CopyBack(iovs: Iovecs, pos: nat, len: nat, cp: array<bv8>) returns (ok: bool)
    requires Disjoint(iovs) && len <= cp.Length && cp !in iovs
    modifies iovs
    ensures ok <==> pos + len <= old(|Flat(iovs)|)
    ensures ok ==> Flat(iovs) == Splice(old(Flat(iovs)), pos, cp[0..len])
  {
    hide Splice, Flat, Contents, Join;
    ghost var flat := Flat(iovs);
    var ind: nat, off: nat;
    ok, ind, off := Skip(iovs, pos);
    if !ok {
      return;
    }
    var done: nat := 0;
    SpliceNothing(flat, pos);
    assert cp[0..0] == [];
    while done < len
      invariant done <= len && ind <= |iovs| && pos + done <= |flat|
      invariant done < len ==> Start(iovs, ind) + off == pos + done
      invariant done < len ==> off == 0 || (ind < |iovs| && off < iovs[ind].Length)
      invariant Flat(iovs) == Splice(flat, pos, cp[0..done])
      invariant unchanged(cp)
      decreases |iovs| - ind
    {
      if ind == |iovs| {
        return false;
      }
      var count := if iovs[ind].Length - off < len - done then iovs[ind].Length - off else len - done;
      WritePart(iovs, ind, off, cp, done, count);
      SpliceSlices(flat, pos, cp[..], 0, done, count);
      done := done + count;
      off := 0;
      ind := ind + 1;
    }
  }
}
