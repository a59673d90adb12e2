/** Every run of a read job, and the round trip through a write job. */
module EepRead {
  import opened Arith
  import opened Common
  import opened EepDevice
  import opened EepDriver
  import opened EepWorld
  import opened EepWrite

  function BufferOf(d: Driver, b: Buffer): seq<byte> {
    if b == UserBuffer then d.user else d.compare
  }

  /** The first `k` bytes of `buf` are those stored at `start`. */
  predicate PrefixRead(buf: seq<byte>, mem: seq<byte>, start: nat, k: nat) {
    k <= |buf| && start + k <= |mem| && buf[..k] == mem[start..start + k]
  }

  /** A read engine in progress on `job`, which is the job itself or a portion of a compare. */
  predicate Reading(w: World, t: Task, job: JobInfo) {
    && t.kind in {EepRead, EepCompare} && t.start + t.total <= |w.dev.mem|
    && t.total <= |BufferOf(w.drv, t.buffer)|
    && Engine(t, w.drv.bus, job)
    && !w.dev.wip
    && (!Broken(t, w.drv.bus, job) ==>
          PrefixRead(BufferOf(w.drv, t.buffer), w.dev.mem, t.start, Moved(t, w.drv.bus, job)))
  }

  /** Received bytes that continue the prefix lengthen it and touch only their own place. */
  lemma ChunkRead(buf: seq<byte>, mem: seq<byte>, start: nat, moved: nat, bytes: seq<byte>)
    requires PrefixRead(buf, mem, start, moved) && moved + |bytes| <= |buf|
    requires start + moved + |bytes| <= |mem|
    requires bytes == mem[start + moved..start + moved + |bytes|]
    ensures PrefixRead(Splice(buf, moved, bytes), mem, start, moved + |bytes|)
  {
    var r := Splice(buf, moved, bytes);
    assert r[..moved + |bytes|] == buf[..moved] + bytes;
  }

  function WithBuffer(d: Driver, b: Buffer, bytes: seq<byte>): Driver {
    if b == UserBuffer then d.(user := bytes) else d.(compare := bytes)
  }

  /** The bytes of a read sequence land at the place of its chunk. */
  lemma ReadLands(w: World, t: Task, job: JobInfo, ok: bool, sent: nat, noise: seq<byte>)
    requires Runnable(w) && Reading(w, t, job) && w.drv.bus.pending == Some(ReadSequence)
    ensures var bus, moved := w.drv.bus, Moved(t, w.drv.bus, job);
      var bytes := Received(w.dev, bus.addr, SentBytes(bus, ok, sent), ok, noise);
      && bus.addr == t.start + moved && moved + |bytes| <= moved + bus.length == t.total - job.left
      && CompleteRead(w, ok, sent, noise)
           == w.(drv := WithBuffer(w.drv.(bus := Released(bus, ReadSequence, ok)), t.buffer,
                                   Splice(BufferOf(w.drv, t.buffer), moved, bytes)))
  {
    ModSmall(w.drv.bus.addr, |w.dev.mem|);
  }

  /** The end of a read sequence stores bytes at the place of its chunk and nowhere else. */
  lemma ReadSequenceDone(w: World, t: Task, job: JobInfo, ok: bool, sent: nat, noise: seq<byte>)
    returns (buf: seq<byte>)
    requires Runnable(w) && Reading(w, t, job) && w.drv.bus.pending == Some(ReadSequence)
    ensures CompleteRead(w, ok, sent, noise)
         == w.(drv := WithBuffer(w.drv.(bus := Released(w.drv.bus, ReadSequence, ok)), t.buffer, buf))
    ensures |buf| == |BufferOf(w.drv, t.buffer)|
    ensures buf[t.total..] == BufferOf(w.drv, t.buffer)[t.total..]
    ensures ok ==> PrefixRead(buf, w.dev.mem, t.start, t.total - job.left)
  {
    var bus, before, moved := w.drv.bus, BufferOf(w.drv, t.buffer), Moved(t, w.drv.bus, job);
    var bytes := Received(w.dev, bus.addr, SentBytes(bus, ok, sent), ok, noise);
    ReadLands(w, t, job, ok, sent, noise);
    buf := Splice(before, moved, bytes);
    SpliceTail(before, moved, bytes, t.total);
    if ok {
      ReadInRange(w.dev.mem, bus.addr, bus.length);
      ChunkRead(before, w.dev.mem, t.start, moved, bytes);
    }
  }

  lemma SpliceTail(buf: seq<byte>, o: nat, bytes: seq<byte>, total: nat)
    requires o + |bytes| <= total <= |buf|
    ensures Splice(buf, o, bytes)[total..] == buf[total..]
  {
  }

  /** The end of a sequence keeps the read engine going; it changes only its own buffer,
      inside the bytes that it is meant to fill. */
  lemma SpiKeepsReading(w: World, t: Task, job: JobInfo, ok: bool, sent: nat, noise: seq<byte>)
    requires Runnable(w) && Reading(w, t, job) && w.drv.bus.pending.Some?
    ensures var w' := Next(w, SpiDone(ok, sent, noise));
      && Reading(w', t, job)
      && w' == w.(drv := WithBuffer(w.drv.(bus := w'.drv.bus), t.buffer, BufferOf(w'.drv, t.buffer)))
      && |BufferOf(w'.drv, t.buffer)| == |BufferOf(w.drv, t.buffer)|
      && BufferOf(w'.drv, t.buffer)[t.total..] == BufferOf(w.drv, t.buffer)[t.total..]
  {
    if w.drv.bus.pending.value == Cmd2Sequence {
      StatusSequenceDone(w, t, job, ok, sent, noise);
    } else {
      var _ := ReadSequenceDone(w, t, job, ok, sent, noise);
    }
  }

  /** What processJob may answer on a read engine. */
  predicate EngineAnswer(w: World, t: Task, job: JobInfo, s: Step) {
    match s.rv
    case SeqFailed => s.bus == w.drv.bus && s.bus.pending.None?
    case SeqPending => Reading(w.(drv := w.drv.(bus := s.bus)), t, s.job)
    case SeqOk =>
      && s.bus == w.drv.bus && s.bus.pending.None? && (job.initialOp || job.currSeq !in s.bus.failed)
      && s.job == job.(state := JobMain, mainState := EepNone, initialOp := false) && job.left == 0
      && PrefixRead(BufferOf(w.drv, t.buffer), w.dev.mem, t.start, t.total)
  }

  /** One call of processJob on a read engine. */
  lemma ProcessKeepsReading(w: World, t: Task, job: JobInfo, accept: bool)
    requires Reading(w, t, job)
    ensures EngineAnswer(w, t, job, ProcessJob(w.drv.bus, job, accept))
  {
    ProcessKeepsEngine(t, w.drv.bus, job, accept, false);
  }

  /** Facts that no event of a read job changes. */
  predicate ReadFrame(w: World, w0: World, t: Task) {
    && Runnable(w) && w.dev == w0.dev && AtRest(w0)
    && w.drv.cfg == w0.drv.cfg && |w.drv.compare| == CMP_BUFF_SIZE
    && w.drv.bus.sane && t.total <= |w.drv.user| && t.start + t.total <= |w.dev.mem|
  }

  /** What may be observed of a read job at any time. */
  predicate ReadOutcome(w: World, w0: World, t: Task, buf0: seq<byte>) {
    && ReadFrame(w, w0, t)
    && |w.drv.user| == |buf0| && w.drv.user[t.total..] == buf0[t.total..]
    && match w.drv.result
       case JobPending => w.drv.jobType == EepRead && t.buffer == UserBuffer && Reading(w, t, w.drv.job)
       case JobOk =>
         w.drv.bus.pending.None? && w.drv.status == Idle && w.drv.user[..t.total] == w.dev.mem[t.start..t.start + t.total]
       case JobFailed =>
         w.drv.bus.pending.None? && w.drv.status == Idle
       case JobCanceled => false
  }

  lemma EventKeepsReadOutcome(w: World, w0: World, t: Task, buf0: seq<byte>, e: Event)
    requires ReadFrame(w, w0, t) && ReadOutcome(w, w0, t, buf0)
    ensures ReadOutcome(Next(w, e), w0, t, buf0)
  {
    if w.drv.result == JobPending {
      match e
      case MainFunction(accept) => ProcessKeepsReading(w, t, w.drv.job, accept);
      case SpiDone(ok, sent, noise) =>
        if w.drv.bus.pending.Some? { SpiKeepsReading(w, t, w.drv.job, ok, sent, noise); }
      case ProgramDone =>
    }
  }

  lemma {:induction false} RunKeepsReadOutcome(w: World, w0: World, t: Task, buf0: seq<byte>, es: seq<Event>)
    requires ReadFrame(w, w0, t) && ReadOutcome(w, w0, t, buf0)
    ensures ReadOutcome(Run(w, es), w0, t, buf0)
    decreases |es|
  {
    if es != [] {
      EventKeepsReadOutcome(w, w0, t, buf0, es[0]);
      RunKeepsReadOutcome(Next(w, es[0]), w0, t, buf0, es[1..]);
    }
  }

  lemma ArmedForReading(w: World, addr: nat, data: seq<byte>, length: nat)
    requires AtRest(w) && length <= |data| && Admissible(w, addr, length)
    ensures var w' := Armed(w, EepRead, addr, data, length);
      w'.drv.result == JobPending
      && ReadOutcome(w', w, Task(EepRead, w.drv.cfg.base + addr, length, UserBuffer), data)
  {
  }

  /** Eep_Read followed by any run.  The device is never changed, bytes of the caller's buffer
      beyond `length` are never touched, and success means that the buffer holds the range. */
  lemma ReadIsFaithful(w: World, addr: nat, data: seq<byte>, length: nat, es: seq<Event>)
    requires AtRest(w) && length <= |data| && Admissible(w, addr, length)
    ensures var w' := Run(Armed(w, EepRead, addr, data, length), es);
      var start := w.drv.cfg.base + addr;
      && w'.drv.bus.sane && w'.dev == w.dev
      && |w'.drv.user| == |data| && w'.drv.user[length..] == data[length..]
      && (w'.drv.result == JobOk ==>
            AtRest(w') && w'.drv.user[..length] == w.dev.mem[start..start + length])
  {
    ArmedForReading(w, addr, data, length);
    var t := Task(EepRead, w.drv.cfg.base + addr, length, UserBuffer);
    RunKeepsReadOutcome(Armed(w, EepRead, addr, data, length), w, t, data, es);
  }

  /** The round trip: a write that completed, then a read of the same range that completed, gives
      back the written bytes, whatever the SPI handler and the device did in either job. */
  lemma WriteThenRead(w: World, addr: nat, data: seq<byte>, length: nat, writing: seq<Event>,
                      target: seq<byte>, reading: seq<Event>)
    requires AtRest(w) && length <= |data| && Admissible(w, addr, length)
    requires Run(Armed(w, EepWrite, addr, data, length), writing).drv.result == JobOk
    requires length <= |target|
    ensures var w1 := Run(Armed(w, EepWrite, addr, data, length), writing);
      && AtRest(w1) && Admissible(w1, addr, length)
      && var w2 := Run(Armed(w1, EepRead, addr, target, length), reading);
         w2.drv.result == JobOk ==> length <= |w2.drv.user| && w2.drv.user[..length] == data[..length]
  {
    WriteIsFaithful(w, addr, data, length, writing);
    var w1 := Run(Armed(w, EepWrite, addr, data, length), writing);
    ReadIsFaithful(w1, addr, target, length, reading);
    var start := w.drv.cfg.base + addr;
    assert Splice(w.dev.mem, start, data[..length])[start..start + length] == data[..length];
  }
}
