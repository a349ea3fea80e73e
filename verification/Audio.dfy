/** The interrupt handlers of audio.c, interleaved with one reader and one writer. */
module Audio {
  import opened Arith
  import opened AudioRing
  import opened WordOps

  /** What happened since DMA was started, in unbounded numbers. */
  datatype History = History(
    base: nat,        // bytes queued for playing when DMA started
    written: int,     // bytes added by the writer since then, less those drain trimmed
    played: nat,      // play blocks
    lostPlay: nat,    // play blocks replaced by silence
    captured: nat,    // record blocks
    lostRec: nat,     // record blocks dropped
    taken: nat)       // bytes taken by the reader

  datatype Device = Device(
    canPlay: bool,    // mode & AUMODE_PLAY
    canRec: bool,     // mode & AUMODE_RECORD
    hook: bool,       // the driver has an underrun method
    active: bool,
    offs: int,
    play: Ring,
    rec: Ring,
    hist: History)
  {
    /** Play and record positions are kept together by the interrupt handlers. */
    predicate Duplex() {
      canPlay && canRec && !hook
    }

    function PlayBlocks(): nat
      requires play.blksz > 0
    {
      play.klen / play.blksz
    }

    function RecBlocks(): nat
      requires rec.blksz > 0
    {
      rec.klen / rec.blksz
    }

    ghost predicate PlayShape() {
      && play.Valid()
      && Multiple(play.start, play.blksz)
      && (active ==> play.blksz <= play.used)
    }

    ghost predicate RecShape() {
      && rec.Valid()
      && rec.ulen == rec.klen
      && Multiple(rec.End(), rec.blksz)
      && rec.used + rec.blksz <= rec.ulen
      && (!active ==> rec.used == 0)
    }

    /** Every byte played was queued, written or silence; the counters count blocks. */
    ghost predicate PlayBooks() {
      active ==>
        && hist.base + hist.written + hist.lostPlay * play.blksz == hist.played * play.blksz + play.used
        && play.pos == Wrap32(hist.played * play.blksz)
        && play.xrun == Wrap32(hist.lostPlay * play.blksz)
    }

    /** Every byte captured was taken, dropped or is still there. */
    ghost predicate RecBooks() {
      active ==>
        && hist.captured * rec.blksz == hist.taken + hist.lostRec * rec.blksz + rec.used
        && rec.pos == Wrap32(hist.captured * rec.blksz)
        && rec.xrun == Wrap32(hist.lostRec * rec.blksz)
    }

    ghost predicate PlayOk() { PlayShape() && PlayBooks() }

    ghost predicate RecOk() { RecShape() && RecBooks() }

    ghost predicate Synced()
      requires play.blksz > 0 && rec.blksz > 0
    {
      offs == hist.captured - hist.played && -(RecBlocks() as int) < offs < PlayBlocks()
    }

    ghost predicate Ok() {
      && (canPlay ==> PlayOk())
      && (canRec ==> RecOk())
      && (Duplex() && active ==> Synced())
    }
  }

  // ---------- one block ----------

  /** Lines 521-533: the driver has consumed a play block, with silence added if too little is left. */
  function Played(p: Ring): Ring
    requires p.blksz <= p.used
  {
    var q := p.(pos := Wrap32(p.pos + p.blksz)).Discard(p.blksz);
    if q.used < q.blksz then q.(xrun := Wrap32(q.xrun + q.blksz)).Commit(q.blksz) else q
  }

  predicate Starved(p: Ring) { p.used < 2 * p.blksz }

  /** Lines 600-612: the driver has produced a record block; the oldest goes if too little room is left. */
  function Captured(r: Ring): Ring {
    var q := r.(pos := Wrap32(r.pos + r.blksz)).Commit(r.blksz);
    if q.used > q.ulen - q.blksz then q.(xrun := Wrap32(q.xrun + q.blksz)).Discard(q.blksz) else q
  }

  predicate Crammed(r: Ring) { r.used + 2 * r.blksz > r.ulen }

  function PlayBlock(d: Device): Device
    requires d.play.blksz <= d.play.used
  {
    var lost := if Starved(d.play) then 1 else 0;
    d.(play := Played(d.play), hist := d.hist.(played := d.hist.played + 1, lostPlay := d.hist.lostPlay + lost))
  }

  function RecBlock(d: Device): Device {
    var lost := if Crammed(d.rec) then 1 else 0;
    d.(rec := Captured(d.rec), hist := d.hist.(captured := d.hist.captured + 1, lostRec := d.hist.lostRec + lost))
  }

  lemma PlayedRing(p: Ring)
    requires p.Valid() && Multiple(p.start, p.blksz) && p.blksz <= p.used
    ensures var p' := Played(p);
            && p'.Valid() && Multiple(p'.start, p'.blksz) && p'.blksz <= p'.used <= p.used
            && p' == p.(start := p'.start, used := p'.used, pos := p'.pos, xrun := p'.xrun)
            && p'.End() == if Starved(p) then Advance(p.End(), p.blksz, p.klen) else p.End()
  {
    hide Multiple, Wrap32;
    AdvanceAligned(p.start, p.klen, p.blksz);
    DiscardKeepsEnd(p, p.blksz);
    CommitMovesEnd(p.Discard(p.blksz), p.blksz);
  }

  lemma CapturedRing(r: Ring)
    requires r.Valid() && r.ulen == r.klen && Multiple(r.End(), r.blksz) && r.used + r.blksz <= r.ulen
    ensures var r' := Captured(r);
            && r'.Valid() && Multiple(r'.End(), r'.blksz) && r.used <= r'.used <= r.ulen - r.blksz
            && r' == r.(start := r'.start, used := r'.used, pos := r'.pos, xrun := r'.xrun)
            && r'.start == if Crammed(r) then Advance(r.start, r.blksz, r.klen) else r.start
  {
    hide Multiple, Wrap32;
    AdvanceAligned(r.End(), r.klen, r.blksz);
    CommitMovesEnd(r, r.blksz);
    DiscardKeepsEnd(r.Commit(r.blksz), r.blksz);
  }

  /** A position moved on by `n` blocks. */
  function Shift(at: nat, n: nat, blksz: nat, klen: nat): nat {
    if n == 0 then at else Advance(Shift(at, n - 1, blksz, klen), blksz, klen)
  }

  lemma ShiftMore(at: nat, m: nat, n: nat, blksz: nat, klen: nat)
    ensures Shift(Shift(at, m, blksz, klen), n, blksz, klen) == Shift(at, m + n, blksz, klen)
  {
  }

  lemma WrapAdd(x: int, n: int)
    ensures Wrap32(Wrap32(x) + n) == Wrap32(x + n)
  {
  }

  /** Only the play side moves: `lost` blocks of silence went in and one block went out. */
  ghost predicate PlayMoved(d: Device, d': Device, n: nat) {
    && d' == d.(play := d'.play, offs := d'.offs,
                hist := d.hist.(played := d'.hist.played, lostPlay := d'.hist.lostPlay))
    && d'.play == d.play.(start := d'.play.start, used := d'.play.used, pos := d'.play.pos, xrun := d'.play.xrun)
    && d'.hist.played == d.hist.played + n
    && d'.hist.lostPlay >= d.hist.lostPlay
    && d'.play.used <= d.play.used
    && d'.play.End() == Shift(d.play.End(), d'.hist.lostPlay - d.hist.lostPlay, d.play.blksz, d.play.klen)
  }

  ghost predicate RecMoved(d: Device, d': Device, n: nat) {
    && d' == d.(rec := d'.rec, offs := d'.offs,
                hist := d.hist.(captured := d'.hist.captured, lostRec := d'.hist.lostRec))
    && d'.rec == d.rec.(start := d'.rec.start, used := d'.rec.used, pos := d'.rec.pos, xrun := d'.rec.xrun)
    && d'.hist.captured == d.hist.captured + n
    && d'.hist.lostRec >= d.hist.lostRec
    && d'.rec.used >= d.rec.used
    && d'.rec.start == Shift(d.rec.start, d'.hist.lostRec - d.hist.lostRec, d.rec.blksz, d.rec.klen)
  }

  lemma ShiftOne(at: nat, blksz: nat, klen: nat)
    ensures Shift(at, 1, blksz, klen) == Advance(at, blksz, klen)
  {
    assert Shift(at, 0, blksz, klen) == at;
  }

  /**
   * A play block keeps the ring, leaves at least as much room for the writer, and moves
   * the write position by exactly the blocks of silence it had to insert.
   */
  lemma PlayBlockKeepsShape(d: Device)
    requires d.PlayShape() && d.active
    ensures PlayBlock(d).PlayShape() && PlayMoved(d, PlayBlock(d), 1) && PlayBlock(d).offs == d.offs
  {
    hide Multiple, Played;
    PlayedRing(d.play);
    ShiftOne(d.play.End(), d.play.blksz, d.play.klen);
  }

  /**
   * A record block keeps the ring, leaves the reader at least as many bytes, and moves
   * the read position by exactly the blocks it had to drop.
   */
  lemma RecBlockKeepsShape(d: Device)
    requires d.RecShape() && d.active
    ensures RecBlock(d).RecShape() && RecMoved(d, RecBlock(d), 1) && RecBlock(d).offs == d.offs
  {
    hide Multiple, Captured;
    CapturedRing(d.rec);
    ShiftOne(d.rec.start, d.rec.blksz, d.rec.klen);
  }

  lemma PlayBlockKeepsBooks(d: Device)
    requires d.play.blksz <= d.play.used && d.PlayBooks()
    ensures PlayBlock(d).PlayBooks()
  {
    hide Wrap32;
    var b, h := d.play.blksz, d.hist;
    WrapAdd(h.played * b, b);
    WrapAdd(h.lostPlay * b, b);
    OneMore(h.played, b);
    OneMore(h.lostPlay, b);
  }

  lemma RecBlockKeepsBooks(d: Device)
    requires d.RecBooks()
    ensures RecBlock(d).RecBooks()
  {
    hide Wrap32;
    var b, h := d.rec.blksz, d.hist;
    WrapAdd(h.captured * b, b);
    WrapAdd(h.lostRec * b, b);
    OneMore(h.captured, b);
    OneMore(h.lostRec, b);
  }

  lemma OneMore(n: int, b: int)
    ensures (n + 1) * b == n * b + b
  {
  }

  // ---------- the interrupt handlers ----------

  lemma PlayMovedMore(d: Device, e: Device, f: Device, n: nat)
    requires PlayMoved(d, e, n) && PlayMoved(e, f, 1)
    ensures PlayMoved(d, f, n + 1)
  {
    hide Shift;
    ShiftMore(d.play.End(), e.hist.lostPlay - d.hist.lostPlay, f.hist.lostPlay - e.hist.lostPlay,
              d.play.blksz, d.play.klen);
  }

  lemma RecMovedMore(d: Device, e: Device, f: Device, n: nat)
    requires RecMoved(d, e, n) && RecMoved(e, f, 1)
    ensures RecMoved(d, f, n + 1)
  {
    hide Shift;
    ShiftMore(d.rec.start, e.hist.lostRec - d.hist.lostRec, f.hist.lostRec - e.hist.lostRec,
              d.rec.blksz, d.rec.klen);
  }

  function PlayBlocksN(d: Device, n: nat): (d': Device)
    requires d.PlayShape() && d.active
    ensures d'.PlayShape() && PlayMoved(d, d', n) && d'.offs == d.offs
  {
    if n == 0 then d else
      var e := PlayBlocksN(d, n - 1);
      PlayBlockKeepsShape(e);
      PlayMovedMore(d, e, PlayBlock(e), n - 1);
      PlayBlock(e)
  }

  function RecBlocksN(d: Device, n: nat): (d': Device)
    requires d.RecShape() && d.active
    ensures d'.RecShape() && RecMoved(d, d', n) && d'.offs == d.offs
  {
    if n == 0 then d else
      var e := RecBlocksN(d, n - 1);
      RecBlockKeepsShape(e);
      RecMovedMore(d, e, RecBlock(e), n - 1);
      RecBlock(e)
  }

  lemma RecBlocksNKeepBooks(d: Device, n: nat)
    requires d.RecShape() && d.active && d.RecBooks()
    ensures RecBlocksN(d, n).RecBooks()
  {
    if n > 0 {
      RecBlocksNKeepBooks(d, n - 1);
      RecBlockKeepsBooks(RecBlocksN(d, n - 1));
    }
  }

  lemma PlayBlocksNKeepBooks(d: Device, n: nat)
    requires d.PlayShape() && d.active && d.PlayBooks()
    ensures PlayBlocksN(d, n).PlayBooks()
  {
    if n > 0 {
      PlayBlocksNKeepBooks(d, n - 1);
      PlayBlockKeepsBooks(PlayBlocksN(d, n - 1));
    }
  }

  ghost predicate Shapes(d: Device) {
    (d.canPlay ==> d.PlayShape()) && (d.canRec ==> d.RecShape())
  }

  /** What a play interrupt does: catch up a whole record ring if it has fallen that far behind. */
  function PlayIntr(d: Device): Device
    requires Shapes(d)
  {
    if !d.canPlay || !d.active then d
    else if !d.Duplex() then PlayBlock(d)
    else if d.offs - 1 > -(d.RecBlocks() as int) then PlayBlock(d.(offs := d.offs - 1))
    else PlayBlock(RecBlocksN(d, d.RecBlocks()).(offs := d.offs - 1 + d.RecBlocks()))
  }

  function RecIntr(d: Device): Device
    requires Shapes(d)
  {
    if !d.canRec || !d.active then d
    else if !d.Duplex() then RecBlock(d)
    else if d.offs + 1 < d.PlayBlocks() then RecBlock(d.(offs := d.offs + 1))
    else RecBlock(PlayBlocksN(d, d.PlayBlocks()).(offs := d.offs + 1 - d.PlayBlocks()))
  }

  /** Silence is added, and a block dropped, exactly when less than another block would be left, or fit. */
  lemma LossesAreNeeded(d: Device)
    requires d.active
    ensures d.PlayShape() ==>
              var e := PlayBlock(d);
              var silent := if d.play.used < 2 * d.play.blksz then 1 else 0;
              && e.hist.lostPlay == d.hist.lostPlay + silent
              && e.play.used == d.play.used - d.play.blksz + silent * d.play.blksz
              && e.play.pos == (d.play.pos + d.play.blksz) % W32
              && e.play.xrun == if silent == 1 then (d.play.xrun + d.play.blksz) % W32 else d.play.xrun
    ensures d.RecShape() ==>
              var e := RecBlock(d);
              var dropped := if d.rec.used + 2 * d.rec.blksz > d.rec.ulen then 1 else 0;
              && e.hist.lostRec == d.hist.lostRec + dropped
              && e.rec.used == d.rec.used + d.rec.blksz - dropped * d.rec.blksz
              && e.rec.pos == (d.rec.pos + d.rec.blksz) % W32
              && e.rec.xrun == if dropped == 1 then (d.rec.xrun + d.rec.blksz) % W32 else d.rec.xrun
  {
    hide Multiple;
  }

  /** Catching up many blocks drops no more than it must, either. */
  lemma {:induction false} CatchUpDropsLittle(d: Device, n: nat)
    requires d.active
    ensures d.RecShape() ==>
              var e := RecBlocksN(d, n);
              e.hist.lostRec > d.hist.lostRec ==> e.rec.used + 2 * d.rec.blksz > d.rec.ulen
    ensures d.PlayShape() ==>
              var e := PlayBlocksN(d, n);
              e.hist.lostPlay > d.hist.lostPlay ==> e.play.used < 2 * d.play.blksz
  {
    hide Multiple, Shift, RecBlock, PlayBlock;
    if n > 0 {
      CatchUpDropsLittle(d, n - 1);
      if d.RecShape() {
        LossesAreNeeded(RecBlocksN(d, n - 1));
      }
      if d.PlayShape() {
        LossesAreNeeded(PlayBlocksN(d, n - 1));
      }
    }
  }

  /**
   * A play interrupt plays one block. If that would put the record position a whole ring behind, it first records
   * exactly one ring of blocks, and never any other number; the offset keeps the difference.
   */
  lemma PlayIntrCounts(d: Device)
    requires Shapes(d)
    ensures var e := PlayIntr(d);
            if !d.canPlay || !d.active then e == d else
              var caught := if d.Duplex() && d.offs - 1 <= -(d.RecBlocks() as int) then d.RecBlocks() else 0;
              var silent := if d.play.used < 2 * d.play.blksz then 1 else 0;
              && e.hist.played == d.hist.played + 1 && e.hist.captured == d.hist.captured + caught
              && e.hist.lostPlay == d.hist.lostPlay + silent
              && e.play.used == d.play.used - d.play.blksz + silent * d.play.blksz
              && (caught == 0 ==> e.rec == d.rec && e.hist.lostRec == d.hist.lostRec)
              && e.offs == if d.Duplex() then d.offs - 1 + caught else d.offs
  {
    hide Multiple, Shift, PlayBlock, RecBlock;
    if d.canPlay && d.active {
      if d.Duplex() && d.offs - 1 <= -(d.RecBlocks() as int) {
        var e := RecBlocksN(d, d.RecBlocks()).(offs := d.offs - 1 + d.RecBlocks());
        PlayBlockKeepsShape(e);
        LossesAreNeeded(e);
      } else {
        var e := if d.Duplex() then d.(offs := d.offs - 1) else d;
        PlayBlockKeepsShape(e);
        LossesAreNeeded(e);
      }
    }
  }

  /** A record interrupt records one block, and plays exactly one ring of blocks first if playing is that far behind. */
  lemma RecIntrCounts(d: Device)
    requires Shapes(d)
    ensures var e := RecIntr(d);
            if !d.canRec || !d.active then e == d else
              var caught := if d.Duplex() && d.offs + 1 >= d.PlayBlocks() then d.PlayBlocks() else 0;
              var dropped := if d.rec.used + 2 * d.rec.blksz > d.rec.ulen then 1 else 0;
              && e.hist.captured == d.hist.captured + 1 && e.hist.played == d.hist.played + caught
              && e.hist.lostRec == d.hist.lostRec + dropped
              && e.rec.used == d.rec.used + d.rec.blksz - dropped * d.rec.blksz
              && (caught == 0 ==> e.play == d.play && e.hist.lostPlay == d.hist.lostPlay)
              && e.offs == if d.Duplex() then d.offs + 1 - caught else d.offs
  {
    hide Multiple, Shift, PlayBlock, RecBlock;
    if d.canRec && d.active {
      if d.Duplex() && d.offs + 1 >= d.PlayBlocks() {
        var e := PlayBlocksN(d, d.PlayBlocks()).(offs := d.offs + 1 - d.PlayBlocks());
        RecBlockKeepsShape(e);
        LossesAreNeeded(e);
      } else {
        var e := if d.Duplex() then d.(offs := d.offs + 1) else d;
        RecBlockKeepsShape(e);
        LossesAreNeeded(e);
      }
    }
  }

  lemma SomeBlocks(r: Ring)
    requires r.Geometry()
    ensures r.klen / r.blksz >= 2
  {
    var q := r.klen / r.blksz;
    assert r.klen == q * r.blksz + r.klen % r.blksz;
    assert q <= 1 ==> q * r.blksz <= r.blksz;
  }

  lemma NoBlocks(d: Device)
    requires d.Duplex() && d.active && Shapes(d)
    ensures RecBlocksN(d, 0) == d == PlayBlocksN(d, 0)
  {
  }

  lemma Undisturbed(d: Device, j: nat)
    requires d.Duplex() && d.active && Shapes(d)
    ensures var e := RecBlocksN(d, j);
            && e.play == d.play && e.Duplex() && e.active && Shapes(e)
            && e.RecBlocks() == d.RecBlocks() && e.PlayBlocks() == d.PlayBlocks()
    ensures var e := PlayBlocksN(d, j);
            && e.rec == d.rec && e.Duplex() && e.active && Shapes(e)
            && e.RecBlocks() == d.RecBlocks() && e.PlayBlocks() == d.PlayBlocks()
  {
    hide Shift;
  }

  lemma NestedRecIntr(d: Device, j: nat)
    requires d.Duplex() && d.active && Shapes(d) && -(d.RecBlocks() as int) == d.offs - 1 && j < d.RecBlocks()
    ensures var e := RecBlocksN(d, j).(offs := d.offs - 1 + j);
            Shapes(e) && RecIntr(e) == RecBlocksN(d, j + 1).(offs := d.offs + j)
  {
    hide Captured, Played, Shift;
    SomeBlocks(d.play);
  }

  lemma NestedPlayIntr(d: Device, j: nat)
    requires d.Duplex() && d.active && Shapes(d) && d.offs + 1 == d.PlayBlocks() && j < d.PlayBlocks()
    ensures var e := PlayBlocksN(d, j).(offs := d.offs + 1 - j);
            Shapes(e) && PlayIntr(e) == PlayBlocksN(d, j + 1).(offs := d.offs - j)
  {
    hide Captured, Played, Shift;
    SomeBlocks(d.rec);
  }

  class AudioSoftc {
    const canPlay: bool
    const canRec: bool
    const hook: bool
    const play: AudioBuf
    const rec: AudioBuf
    var active: bool
    var offs: int
    ghost var hist: History

    ghost function State(): Device
      reads this, play, rec
    {
      Device(canPlay, canRec, hook, active, offs, play.State(), rec.State(), hist)
    }

    constructor (canPlay: bool, canRec: bool, hook: bool, play: AudioBuf, rec: AudioBuf)
      ensures !active && this.canPlay == canPlay && this.canRec == canRec && this.hook == hook
      ensures this.play == play && this.rec == rec
    {
      this.canPlay, this.canRec, this.hook, this.play, this.rec := canPlay, canRec, hook, play, rec;
      active, offs := false, 0;
      hist := History(0, 0, 0, 0, 0, 0, 0);
    }

    /** A handler may be entered with `offs` one past the bounds that hold between interrupts. */
    ghost predicate Ready(slackPlay: int, slackRec: int)
      reads this, play, rec
    {
      && play != rec
      && Shapes(State())
      && (State().Duplex() && active ==>
            -(State().RecBlocks() as int) - slackRec < offs < State().PlayBlocks() + slackPlay)
    }

    /** audio_pintr; `decreases` shows that it nests at most one level deep. */
    method PIntr()
      requires Ready(1, 0)
      modifies this, play, rec
      ensures State() == PlayIntr(old(State()))
      decreases if State().Duplex() && active && offs - 1 <= -(State().RecBlocks() as int) then 1 else 0
    {
      hide PlayBlock, RecBlock, Shift, PlayMoved, RecMoved, RecBlocksN, PlayBlocksN, Multiple;
      if !canPlay || !active {
        return;
      }
      if canRec && !hook {
        ghost var d := State();
        offs := offs - 1;
        var nblk := rec.klen / rec.blksz;
        var todo := -offs;
        if todo >= nblk {
          SomeBlocks(rec.State());
          DivModUnique(nblk, 1, nblk, 0);
          todo := todo - todo % nblk;
          ghost var j: nat := 0;
          NoBlocks(d);
          while todo > 0
            invariant 0 <= todo && j + todo == nblk
            invariant State() == RecBlocksN(d, j).(offs := d.offs - 1 + j)
          {
            NestedRecIntr(d, j);
            Undisturbed(d, j);
            SomeBlocks(d.play);
            todo := todo - 1;
            RIntr();
            j := j + 1;
          }
          Undisturbed(d, nblk);
        }
      }
      PlayOneBlock();
    }

    /** audio_rintr */
    method RIntr()
      requires Ready(0, 1)
      modifies this, play, rec
      ensures State() == RecIntr(old(State()))
      decreases if State().Duplex() && active && offs + 1 >= State().PlayBlocks() then 1 else 0
    {
      hide PlayBlock, RecBlock, Shift, PlayMoved, RecMoved, RecBlocksN, PlayBlocksN, Multiple;
      if !canRec || !active {
        return;
      }
      if canPlay && !hook {
        ghost var d := State();
        offs := offs + 1;
        var nblk := play.klen / play.blksz;
        var todo := offs;
        if todo >= nblk {
          SomeBlocks(play.State());
          DivModUnique(nblk, 1, nblk, 0);
          todo := todo - todo % nblk;
          ghost var j: nat := 0;
          NoBlocks(d);
          while todo > 0
            invariant 0 <= todo && j + todo == nblk
            invariant State() == PlayBlocksN(d, j).(offs := d.offs + 1 - j)
          {
            NestedPlayIntr(d, j);
            Undisturbed(d, j);
            SomeBlocks(d.rec);
            todo := todo - 1;
            PIntr();
            j := j + 1;
          }
          Undisturbed(d, nblk);
        }
      }
      RecOneBlock();
    }

    /** Lines 521-533 */
    method PlayOneBlock()
      requires play != rec && play.blksz <= play.used
      modifies this`hist, play
      ensures State() == PlayBlock(old(State()))
    {
      play.pos := Wrap32(play.pos + play.blksz);
      play.RDiscard(play.blksz);
      hist := hist.(played := hist.played + 1);
      if play.used < play.blksz {
        play.xrun := Wrap32(play.xrun + play.blksz);
        play.WCommit(play.blksz);
        hist := hist.(lostPlay := hist.lostPlay + 1);
      }
    }

    /** Lines 600-612 */
    method RecOneBlock()
      requires play != rec
      modifies this`hist, rec
      ensures State() == RecBlock(old(State()))
    {
      rec.pos := Wrap32(rec.pos + rec.blksz);
      rec.WCommit(rec.blksz);
      hist := hist.(captured := hist.captured + 1);
      if rec.used > rec.ulen - rec.blksz {
        rec.xrun := Wrap32(rec.xrun + rec.blksz);
        rec.RDiscard(rec.blksz);
        hist := hist.(lostRec := hist.lostRec + 1);
      }
    }
  }
}
