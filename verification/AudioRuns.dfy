/** Every interleaving of interrupts, one reader and one writer. */
module AudioRuns {
  import opened Arith
  import opened AudioRing
  import opened Audio
  import opened WordOps

  /**
   * Between taking a span and committing it a process holds no lock. It remembers how
   * many bytes it was promised, where the span was, and how many blocks had been lost.
   */
  datatype Phase = Idle | Holding(count: nat, at: nat, lost: nat)

  datatype System = System(dev: Device, reader: Phase, writer: Phase)

  datatype Action =
    | PlayInterrupt
    | RecInterrupt
    | ReaderGet(resid: nat)
    | ReaderCommit
    | ReaderFault
    | WriterGet(resid: nat)
    | WriterCommit
    | WriterFault
    | Start
    | Stop
    | DrainTrim(bpf: nat)
    | DrainPad

  function Min(a: nat, b: nat): nat { if a < b then a else b }

  ghost predicate Enabled(s: System, a: Action) {
    var d := s.dev;
    match a
    case PlayInterrupt | RecInterrupt => true
    case ReaderGet(resid) => d.canRec && s.reader.Idle? && resid > 0 && d.rec.used > 0
    case ReaderCommit => s.reader.Holding?
    case ReaderFault => s.reader.Holding?
    case WriterGet(resid) => d.canPlay && s.writer.Idle? && resid > 0 && d.play.used < d.play.ulen
    case WriterCommit => s.writer.Holding?
    case WriterFault => s.writer.Holding?
    case Start => !d.active && (d.canRec ==> d.rec.used == 0) && (d.canPlay ==> d.play.used == d.play.ulen)
    case Stop => d.active
    case DrainTrim(bpf) => d.canPlay && s.writer.Idle? && Multiple(d.play.blksz, bpf)
    case DrainPad => d.canPlay && s.writer.Idle? && !d.active
  }

  /** The bytes promised are there, and their span is inside the buffer. */
  ghost predicate ReaderOk(s: System) {
    s.reader.Holding? ==>
      && s.dev.canRec
      && 0 < s.reader.count <= s.dev.rec.used && s.reader.at + s.reader.count <= s.dev.rec.klen
  }

  /** The room promised is there, and its span is inside the buffer. */
  ghost predicate WriterOk(s: System) {
    s.writer.Holding? ==>
      && s.dev.canPlay
      && 0 < s.writer.count && s.dev.play.used + s.writer.count <= s.dev.play.ulen
      && s.writer.at + s.writer.count <= s.dev.play.klen
  }

  ghost predicate Inv(s: System) {
    s.dev.Ok() && ReaderOk(s) && WriterOk(s)
  }

  /** The span read is where data begin, but for the blocks dropped since it was taken. */
  ghost predicate ReaderInPlace(s: System) {
    s.reader.Holding? ==>
      var r, h := s.dev.rec, s.reader;
      h.lost <= s.dev.hist.lostRec && r.start == Shift(h.at, s.dev.hist.lostRec - h.lost, r.blksz, r.klen)
  }

  /** The span written is where data end, but for the blocks of silence added since it was taken. */
  ghost predicate WriterInPlace(s: System) {
    s.writer.Holding? ==>
      var p, h := s.dev.play, s.writer;
      h.lost <= s.dev.hist.lostPlay && p.End() == Shift(h.at, s.dev.hist.lostPlay - h.lost, p.blksz, p.klen)
  }

  ghost predicate InPlace(s: System) {
    ReaderInPlace(s) && WriterInPlace(s)
  }

  function Cleared(r: Ring): Ring {
    r.(start := 0, used := 0, pos := 0, xrun := 0)
  }

  /** The whole frames among `used` bytes. */
  function WholeFrames(used: nat, bpf: nat): (r: nat)
    requires bpf > 0
    ensures r <= used
  {
    used - used % bpf
  }

  function ReaderStep(s: System, a: Action): System
    requires Inv(s) && Enabled(s, a) && (a.ReaderGet? || a.ReaderCommit? || a.ReaderFault?)
  {
    var d := s.dev;
    match a
    case ReaderGet(resid) => s.(reader := Holding(Min(d.rec.Readable(), resid), d.rec.start, d.hist.lostRec))
    case ReaderCommit =>
      s.(dev := d.(rec := d.rec.Discard(s.reader.count), hist := d.hist.(taken := d.hist.taken + s.reader.count)),
         reader := Idle)
    case ReaderFault => s.(reader := Idle)
  }

  function WriterStep(s: System, a: Action): System
    requires Inv(s) && Enabled(s, a) && (a.WriterGet? || a.WriterCommit? || a.WriterFault?)
  {
    var d := s.dev;
    match a
    case WriterGet(resid) => s.(writer := Holding(Min(d.play.Writable(), resid), d.play.End(), d.hist.lostPlay))
    case WriterCommit =>
      s.(dev := d.(play := d.play.Commit(s.writer.count), hist := d.hist.(written := d.hist.written + s.writer.count)),
         writer := Idle)
    case WriterFault => s.(writer := Idle)
  }

  function Started(d: Device): Device {
    d.(active := true, offs := 0, play := d.play.(pos := 0, xrun := 0), rec := d.rec.(pos := 0, xrun := 0),
       hist := History(d.play.used, 0, 0, 0, 0, 0, 0))
  }

  function Stopped(d: Device): Device {
    d.(active := false,
       play := if d.canPlay then Cleared(d.play) else d.play,
       rec := if d.canRec then Cleared(d.rec) else d.rec)
  }

  function Trimmed(d: Device, bpf: nat): Device
    requires bpf > 0
  {
    var used := WholeFrames(d.play.used, bpf);
    d.(play := d.play.(used := used), hist := d.hist.(written := d.hist.written - (d.play.used - used)))
  }

  function Step(s: System, a: Action): System
    requires Inv(s) && Enabled(s, a)
  {
    match a
    case PlayInterrupt => s.(dev := PlayIntr(s.dev))
    case RecInterrupt => s.(dev := RecIntr(s.dev))
    case Start => s.(dev := Started(s.dev))
    case Stop => s.(dev := Stopped(s.dev))
    case DrainTrim(bpf) => s.(dev := Trimmed(s.dev, bpf))
    case DrainPad => s.(dev := s.dev.(play := s.dev.play.(used := s.dev.play.ulen)))
    case ReaderGet(_) => ReaderStep(s, a)
    case ReaderCommit => ReaderStep(s, a)
    case ReaderFault => ReaderStep(s, a)
    case WriterGet(_) => WriterStep(s, a)
    case WriterCommit => WriterStep(s, a)
    case WriterFault => WriterStep(s, a)
  }

  /** What an interrupt may do to the two rings, whatever it catches up on. */
  ghost predicate Interrupted(d: Device, d': Device) {
    && d' == d.(play := d'.play, rec := d'.rec, offs := d'.offs, hist := d'.hist)
    && d'.play == d.play.(start := d'.play.start, used := d'.play.used, pos := d'.play.pos, xrun := d'.play.xrun)
    && d'.rec == d.rec.(start := d'.rec.start, used := d'.rec.used, pos := d'.rec.pos, xrun := d'.rec.xrun)
    && (d.canPlay ==>
          && d'.play.used <= d.play.used && d'.hist.lostPlay >= d.hist.lostPlay
          && d'.play.End() == Shift(d.play.End(), d'.hist.lostPlay - d.hist.lostPlay, d.play.blksz, d.play.klen))
    && (d.canRec ==>
          && d'.rec.used >= d.rec.used && d'.hist.lostRec >= d.hist.lostRec
          && d'.rec.start == Shift(d.rec.start, d'.hist.lostRec - d.hist.lostRec, d.rec.blksz, d.rec.klen))
  }

  /** No interrupt takes back room promised to the writer or bytes promised to the reader. */
  lemma PlayIntrKeeps(d: Device)
    requires d.Ok()
    ensures PlayIntr(d).Ok() && Interrupted(d, PlayIntr(d))
  {
    hide Shift, PlayBlock, RecBlock, Multiple, Wrap32;
    ShiftNone(d);
    if d.canPlay && d.active {
      if d.Duplex() && d.offs - 1 <= -(d.RecBlocks() as int) {
        var n := d.RecBlocks();
        SomeBlocks(d.rec);
        SomeBlocks(d.play);
        RecBlocksNKeepBooks(d, n);
        var e := RecBlocksN(d, n).(offs := d.offs - 1 + n);
        PlayBlockKeepsShape(e);
        PlayBlockKeepsBooks(e);
        assert PlayIntr(d) == PlayBlock(e);
        assert PlayBlock(e).PlayOk();
        assert PlayBlock(e).RecShape();
        assert PlayBlock(e).RecBooks();
        assert PlayBlock(e).Synced();
      } else {
        var e := if d.Duplex() then d.(offs := d.offs - 1) else d;
        PlayBlockKeepsShape(e);
        PlayBlockKeepsBooks(e);
        assert PlayIntr(d) == PlayBlock(e);
        assert PlayBlock(e).PlayOk();
        assert d.canRec ==> PlayBlock(e).RecShape();
        assert d.canRec ==> PlayBlock(e).RecBooks();
        assert d.Duplex() ==> PlayBlock(e).Synced();
      }
    }
  }

  lemma ShiftNone(d: Device)
    ensures Shift(d.play.End(), 0, d.play.blksz, d.play.klen) == d.play.End()
    ensures Shift(d.rec.start, 0, d.rec.blksz, d.rec.klen) == d.rec.start
  {
  }

  lemma RecIntrKeeps(d: Device)
    requires d.Ok()
    ensures RecIntr(d).Ok() && Interrupted(d, RecIntr(d))
  {
    hide Shift, PlayBlock, RecBlock, Multiple, Wrap32;
    ShiftNone(d);
    if d.canRec && d.active {
      if d.Duplex() && d.offs + 1 >= d.PlayBlocks() {
        var n := d.PlayBlocks();
        SomeBlocks(d.rec);
        SomeBlocks(d.play);
        PlayBlocksNKeepBooks(d, n);
        var e := PlayBlocksN(d, n).(offs := d.offs + 1 - n);
        RecBlockKeepsShape(e);
        RecBlockKeepsBooks(e);
        assert RecIntr(d) == RecBlock(e);
        assert RecBlock(e).RecOk();
        assert RecBlock(e).PlayShape();
        assert RecBlock(e).PlayBooks();
        assert RecBlock(e).Synced();
      } else {
        var e := if d.Duplex() then d.(offs := d.offs + 1) else d;
        RecBlockKeepsShape(e);
        RecBlockKeepsBooks(e);
        assert RecIntr(d) == RecBlock(e);
        assert RecBlock(e).RecOk();
        assert d.canPlay ==> RecBlock(e).PlayShape();
        assert d.canPlay ==> RecBlock(e).PlayBooks();
        assert d.Duplex() ==> RecBlock(e).Synced();
      }
    }
  }

  lemma InterruptKeeps(s: System, a: Action)
    requires Inv(s) && (a.PlayInterrupt? || a.RecInterrupt?)
    ensures Inv(Step(s, a)) && Interrupted(s.dev, Step(s, a).dev)
    ensures InPlace(s) ==> InPlace(Step(s, a))
  {
    hide Shift, PlayIntr, RecIntr, Multiple, Wrap32;
    PlayIntrKeeps(s.dev);
    RecIntrKeeps(s.dev);
    var d, d' := s.dev, Step(s, a).dev;
    if s.reader.Holding? && ReaderInPlace(s) {
      ShiftMore(s.reader.at, d.hist.lostRec - s.reader.lost, d'.hist.lostRec - d.hist.lostRec, d.rec.blksz, d.rec.klen);
    }
    if s.writer.Holding? && WriterInPlace(s) {
      ShiftMore(s.writer.at, d.hist.lostPlay - s.writer.lost, d'.hist.lostPlay - d.hist.lostPlay,
                d.play.blksz, d.play.klen);
    }
  }

  lemma ReaderStepKeeps(s: System, a: Action)
    requires Inv(s) && Enabled(s, a) && (a.ReaderGet? || a.ReaderCommit? || a.ReaderFault?)
    ensures Inv(ReaderStep(s, a))
    ensures InPlace(s) ==> InPlace(ReaderStep(s, a))
  {
    hide Multiple, Wrap32, Ring.Readable;
    ShiftNone(s.dev);
    if a.ReaderGet? {
      ReadableIs(s.dev.rec);
    } else if a.ReaderCommit? {
      DiscardKeepsEnd(s.dev.rec, s.reader.count);
    }
  }

  lemma WriterStepKeeps(s: System, a: Action)
    requires Inv(s) && Enabled(s, a) && (a.WriterGet? || a.WriterCommit? || a.WriterFault?)
    ensures Inv(WriterStep(s, a))
    ensures InPlace(s) ==> InPlace(WriterStep(s, a))
  {
    hide Multiple, Wrap32;
    ShiftNone(s.dev);
    if a.WriterCommit? {
      CommitMovesEnd(s.dev.play, s.writer.count);
    }
  }

  lemma TrimLeavesABlock(used: nat, blksz: nat, bpf: nat)
    requires Multiple(blksz, bpf) && blksz <= used
    ensures blksz <= WholeFrames(used, bpf)
  {
    DivMonotone(blksz, used, bpf);
    MulMonotone(blksz / bpf, bpf, used / bpf, bpf);
  }

  lemma StartKeeps(s: System)
    requires Inv(s) && Enabled(s, Start)
    ensures Inv(Step(s, Start)) && (InPlace(s) ==> InPlace(Step(s, Start)))
  {
    hide Shift, Multiple;
    if s.dev.Duplex() {
      SomeBlocks(s.dev.play);
      SomeBlocks(s.dev.rec);
    }
  }

  /** A stop takes all bytes away from a reader that holds a span, and from it alone. */
  lemma StopKeeps(s: System)
    requires Inv(s) && Enabled(s, Stop)
    ensures Inv(Step(s, Stop)) <==> s.reader.Idle?
    ensures InPlace(s) ==>
              (WriterInPlace(Step(s, Stop)) <==> s.writer.Idle? || s.dev.play.End() == 0)
  {
    hide Shift, Multiple, Wrap32;
    MultipleZero(s.dev.play.blksz);
    MultipleZero(s.dev.rec.blksz);
  }

  lemma MultipleZero(b: nat)
    ensures b > 0 ==> Multiple(0, b)
  {
    if b > 0 {
      ModOfMultiple(0, b);
    }
  }

  lemma DrainKeeps(s: System, a: Action)
    requires Inv(s) && Enabled(s, a) && (a.DrainTrim? || a.DrainPad?)
    ensures Inv(Step(s, a)) && (InPlace(s) ==> InPlace(Step(s, a)))
  {
    hide Shift, WholeFrames, Wrap32;
    if a.DrainTrim? && s.dev.active {
      TrimLeavesABlock(s.dev.play.used, s.dev.play.blksz, a.bpf);
    }
  }

  /** Not a stop while a reader holds a span. */
  ghost predicate SparesReader(s: System, a: Action) {
    a.Stop? ==> s.reader.Idle?
  }

  /** Nor one while a writer holds a span anywhere but at the beginning of the ring. */
  ghost predicate SparesBoth(s: System, a: Action) {
    a.Stop? ==> s.reader.Idle? && (s.writer.Idle? || s.dev.play.End() == 0)
  }

  /** Which steps keep the bounds and what they promise: all but a stop under a reader. */
  lemma StepKeeps(s: System, a: Action)
    requires Inv(s) && Enabled(s, a)
    ensures Inv(Step(s, a)) <==> SparesReader(s, a)
    ensures InPlace(s) ==> (Inv(Step(s, a)) && InPlace(Step(s, a)) <==> SparesBoth(s, a))
  {
    hide Inv, InPlace, ReaderStep, WriterStep;
    if a.PlayInterrupt? || a.RecInterrupt? {
      InterruptKeeps(s, a);
    } else if a.ReaderGet? || a.ReaderCommit? || a.ReaderFault? {
      ReaderStepKeeps(s, a);
    } else if a.WriterGet? || a.WriterCommit? || a.WriterFault? {
      WriterStepKeeps(s, a);
    } else if a.Start? {
      StartKeeps(s);
    } else if a.Stop? {
      StopKeeps(s);
      StoppedReader(s);
    } else {
      DrainKeeps(s, a);
    }
  }

  lemma StoppedReader(s: System)
    requires Inv(s) && Enabled(s, Stop)
    ensures s.reader.Idle? ==> (InPlace(Step(s, Stop)) <==> WriterInPlace(Step(s, Stop)))
  {
    hide Inv, Shift;
  }

  /** audio_buf_rdiscard by a reader that finds less than it was promised, in 64-bit words. */
  function Underflowed(r: Ring, count: nat): Ring {
    r.(used := ((r.used as int) - count) % W64, start := Advance(r.start, count, r.klen))
  }

  /**
   * What comes of a stop under a reader: nothing is left of what it was promised, and its commit makes the
   * ring hold almost 2^64 bytes. The ring is out of bounds unless that is still no more than its length.
   */
  lemma StopUnderReader(s: System)
    requires Inv(s) && Enabled(s, Stop) && s.reader.Holding?
    ensures var r := Step(s, Stop).dev.rec;
            && r.used == 0 < s.reader.count
            && Underflowed(r, s.reader.count).used == W64 - s.reader.count
            && (Underflowed(r, s.reader.count).used <= r.ulen <==> r.ulen + s.reader.count >= W64)
  {
    hide Wrap32;
    DivModUnique(-(s.reader.count as int), -1, W64, W64 - s.reader.count);
  }

  /** `s'` comes from `s` by an enabled action; `Step` is defined on the states that satisfy `Inv`. */
  ghost predicate Follows(s: System, a: Action, s': System) {
    Inv(s) ==> Enabled(s, a) && s' == Step(s, a)
  }

  ghost predicate IsRun(ss: seq<System>, acts: seq<Action>) {
    && |ss| == |acts| + 1
    && Inv(ss[0]) && InPlace(ss[0])
    && forall i :: 0 <= i < |acts| ==> Follows(ss[i], acts[i], ss[i + 1])
  }

  const FOUR: Ring := Ring(4, 4, 1, 0, 0, 0, 0)
  const FRESH: History := History(0, 0, 0, 0, 0, 0, 0)

  /** A recording device with four blocks of one byte, `captured` of them recorded. */
  function Recording(active: bool, captured: nat): Device {
    Device(false, true, false, active, 0, FOUR, FOUR.(used := captured, pos := captured), FRESH.(captured := captured))
  }

  lemma RecordingStarts()
    ensures Inv(System(Recording(false, 0), Idle, Idle)) && Started(Recording(false, 0)) == Recording(true, 0)
    ensures Shapes(Recording(true, 0))
  {
  }

  lemma RecordsOne()
    requires Shapes(Recording(true, 0))
    ensures RecIntr(Recording(true, 0)) == Recording(true, 1)
  {
  }

  /** The state before a stop that underflows is soon reached: record, read, stop. */
  lemma ReaderLosesItsSpan() returns (ss: seq<System>, acts: seq<Action>)
    ensures IsRun(ss, acts) && acts == [Start, RecInterrupt, ReaderGet(1), Stop]
    ensures ss[3].reader == Holding(1, 0, 0) && !Inv(ss[4])
    ensures Underflowed(ss[4].dev.rec, 1).used == W64 - 1 > ss[4].dev.rec.ulen == 4
  {
    hide Inv, Started, RecIntr, Multiple, Wrap32, Shift, PlayIntr;
    var s0 := System(Recording(false, 0), Idle, Idle);
    RecordingStarts();
    StepKeeps(s0, Start);
    var s1 := Step(s0, Start);
    assert s1 == System(Recording(true, 0), Idle, Idle);
    RecordsOne();
    StepKeeps(s1, RecInterrupt);
    var s2 := Step(s1, RecInterrupt);
    ReadableIs(s2.dev.rec);
    StepKeeps(s2, ReaderGet(1));
    var s3 := Step(s2, ReaderGet(1));
    StepKeeps(s3, Stop);
    StopUnderReader(s3);
    ss, acts := [s0, s1, s2, s3, Step(s3, Stop)], [Start, RecInterrupt, ReaderGet(1), Stop];
  }

  /**
   * Every state up to the n-th keeps the rings, the promises, the books and the play/record offset
   * exactly when no stop so far came under a reader.
   */
  lemma RunIsSafe(ss: seq<System>, acts: seq<Action>, n: nat)
    requires IsRun(ss, acts) && n < |ss|
    ensures (forall i :: 0 <= i <= n ==> Inv(ss[i])) <==> (forall i :: 0 <= i < n ==> SparesReader(ss[i], acts[i]))
  {
    hide Inv, SparesReader;
    if n > 0 {
      RunIsSafe(ss, acts, n - 1);
      assert Follows(ss[n - 1], acts[n - 1], ss[n - 1 + 1]);
      if Inv(ss[n - 1]) {
        StepKeeps(ss[n - 1], acts[n - 1]);
      }
    }
  }

  /** And the spans stay where they were taken, too, exactly when no stop came under either process. */
  lemma RunKeepsPlaces(ss: seq<System>, acts: seq<Action>, n: nat)
    requires IsRun(ss, acts) && n < |ss|
    ensures (forall i :: 0 <= i <= n ==> Inv(ss[i]) && InPlace(ss[i]))
       <==> (forall i :: 0 <= i < n ==> SparesBoth(ss[i], acts[i]))
  {
    hide Inv, InPlace, SparesBoth;
    if n > 0 {
      RunKeepsPlaces(ss, acts, n - 1);
      assert Follows(ss[n - 1], acts[n - 1], ss[n - 1 + 1]);
      if Inv(ss[n - 1]) && InPlace(ss[n - 1]) {
        StepKeeps(ss[n - 1], acts[n - 1]);
      }
    }
  }

  /** What that says of the rings and of the two directions' positions. */
  lemma RingsStayInBounds(ss: seq<System>, acts: seq<Action>, n: nat)
    requires IsRun(ss, acts) && n < |ss|
    requires forall i :: 0 <= i < n ==> SparesReader(ss[i], acts[i])
    ensures var d := ss[n].dev;
            && (d.canPlay ==>
                  && d.play.used <= d.play.ulen <= d.play.klen && d.play.start < d.play.klen
                  && Multiple(d.play.start, d.play.blksz) && (d.active ==> d.play.blksz <= d.play.used))
            && (d.canRec ==>
                  && d.rec.used <= d.rec.ulen <= d.rec.klen && d.rec.start < d.rec.klen
                  && Multiple(d.rec.End(), d.rec.blksz))
            && (d.Duplex() && d.active ==>
                  && 0 < d.play.blksz && 0 < d.rec.blksz
                  && d.offs == d.hist.captured - d.hist.played
                  && -(d.RecBlocks() as int) < d.offs < d.PlayBlocks())
  {
    hide Multiple, Wrap32, Shift, SparesReader;
    RunIsSafe(ss, acts, n);
    assert Inv(ss[n]);
  }
}
