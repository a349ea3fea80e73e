/** The audio_buf ring of audio.c: positions and sizes in bytes. */
module AudioRing {
  import opened Arith
  import opened WordOps

  datatype Ring = Ring(
    klen: nat,      // size of the DMA FIFO
    ulen: nat,      // size of the userland FIFO
    blksz: nat,     // DMA block size
    start: nat,     // first byte used
    used: nat,      // bytes used
    pos: nat,       // bytes transferred, modulo 2^32
    xrun: nat)      // bytes lost by xruns, modulo 2^32
  {
    /** What the block-size negotiation establishes and every step keeps. */
    ghost predicate Geometry() {
      && 0 < blksz
      && Multiple(klen, blksz) && Multiple(ulen, blksz)
      && 2 * blksz <= ulen <= klen < W64
    }

    ghost predicate Valid() {
      Geometry() && used <= ulen && start < klen
    }

    /** Where the next byte is written. */
    function End(): nat {
      Advance(start, used, klen)
    }

    /** audio_buf_rdiscard */
    function Discard(count: nat): Ring
      requires count <= used
    {
      this.(used := used - count, start := Advance(start, count, klen))
    }

    /** audio_buf_wcommit */
    function Commit(count: nat): Ring {
      this.(used := used + count)
    }

    /** audio_buf_rgetblk: the bytes readable up to `ulen`, in a 64-bit word that wraps beyond it */
    function Readable(): nat {
      var room := (ulen - start) % W64;
      if used < room then used else room
    }

    /** audio_buf_wgetblk: the bytes writable without wrapping */
    function Writable(): nat
      requires used <= ulen && End() <= klen
    {
      if ulen - used < klen - End() then ulen - used else klen - End()
    }
  }

  function Advance(at: nat, count: nat, klen: nat): nat {
    if at + count >= klen then at + count - klen else at + count
  }

  /** Where data may lie beyond `ulen`, as in a play ring, all that is used counts as readable. */
  lemma ReadableIs(r: Ring)
    requires r.Valid()
    ensures r.Readable() == if r.start <= r.ulen && r.ulen - r.start < r.used then r.ulen - r.start else r.used
  {
    if r.start <= r.ulen {
      SmallMod(r.ulen - r.start, W64);
    } else {
      DivModUnique(r.ulen - r.start, -1, W64, W64 + r.ulen - r.start);
    }
  }

  function Wrap32(x: int): nat { x % 0x1_0000_0000 }

  ghost predicate Multiple(x: nat, b: nat) {
    0 < b && x % b == 0
  }

  lemma MultipleDiff(a: nat, b: nat, n: nat)
    requires b <= a && Multiple(a, n) && Multiple(b, n)
    ensures Multiple(a - b, n)
  {
    var p, q := a / n, b / n;
    assert a == p * n && b == q * n;
    assert (p - q) * n == a - b;
    ModOfMultiple(p - q, n);
  }

  /** An aligned position has a whole block before the end of the ring. */
  lemma AlignedFits(at: nat, klen: nat, n: nat)
    requires at < klen && Multiple(at, n) && Multiple(klen, n)
    ensures at + n <= klen
  {
    MultipleDiff(klen, at, n);
    MultipleStep(klen - at, n);
  }

  /** Moving an aligned position by one block keeps it aligned and inside. */
  lemma AdvanceAligned(at: nat, klen: nat, n: nat)
    requires at < klen && Multiple(at, n) && Multiple(klen, n)
    ensures Advance(at, n, klen) < klen && Multiple(Advance(at, n, klen), n)
  {
    AlignedFits(at, klen, n);
    MultipleStep(at, n);
    if at + n >= klen {
      MultipleDiff(at + n, klen, n);
    }
  }

  /** Discarding does not move the write position. */
  lemma DiscardKeepsEnd(r: Ring, count: nat)
    requires r.Valid() && count <= r.used
    ensures r.Discard(count).Valid()
    ensures r.Discard(count).End() == r.End() < r.klen
  {
  }

  /** Committing moves the write position and keeps the read position. */
  lemma CommitMovesEnd(r: Ring, count: nat)
    requires r.Valid() && r.used + count <= r.ulen
    ensures r.Commit(count).Valid()
    ensures r.Commit(count).End() == Advance(r.End(), count, r.klen)
  {
  }

  /** The fields of an audio_buf that the layer updates. */
  class AudioBuf {
    var klen: nat
    var ulen: nat
    var blksz: nat
    var start: nat
    var used: nat
    var pos: nat
    var xrun: nat

    ghost function State(): Ring
      reads this
    {
      Ring(klen, ulen, blksz, start, used, pos, xrun)
    }

    constructor (r: Ring)
      ensures State() == r
    {
      klen, ulen, blksz, start, used, pos, xrun := r.klen, r.ulen, r.blksz, r.start, r.used, r.pos, r.xrun;
    }

    /** audio_buf_rgetblk */
    method RGetBlk() returns (at: nat, count: nat)
      ensures at == start && count == State().Readable() <= used
      ensures State().Valid() && start <= ulen ==>
                && at + count <= ulen && (count == 0 <==> used == 0 || start == ulen)
                && (count == used || at + count == ulen)
    {
      if State().Valid() {
        ReadableIs(State());
      }
      count := (ulen - start) % W64;
      if count > used {
        count := used;
      }
      at := start;
    }

    /** audio_buf_rdiscard */
    method RDiscard(count: nat)
      requires count <= used
      modifies this
      ensures State() == old(State()).Discard(count)
    {
      used := used - count;
      start := start + count;
      if start >= klen {
        start := start - klen;
      }
    }

    /** audio_buf_wcommit */
    method WCommit(count: nat)
      modifies this
      ensures State() == old(State()).Commit(count)
    {
      used := used + count;
    }

    /** audio_buf_wgetblk */
    method WGetBlk() returns (at: nat, count: nat)
      requires State().Valid()
      ensures at == State().End() < klen && count == State().Writable()
      ensures used + count <= ulen && at + count <= klen
      ensures count == 0 <==> used == ulen
      ensures used + count == ulen || at + count == klen
    {
      var end := start + used;
      if end >= klen {
        end := end - klen;
      }
      var avail := ulen - used;
      count := klen - end;
      if count > avail {
        count := avail;
      }
      at := end;
    }
  }
}
