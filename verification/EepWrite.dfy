/** Every run of a write job, against every behaviour of the SPI handler and the device. */
module EepWrite {
  import opened Arith
  import opened Common
  import opened EepDevice
  import opened EepDriver
  import opened EepWorld

  /** A world in which a job may be started: nothing outstanding, the device not programming, and
      a configuration that describes this device. */
  predicate AtRest(w: World) {
    && Runnable(w)
    && w.drv.cfg.Valid()
    && w.drv.cfg.pageSize == w.dev.page
    && w.drv.cfg.base + w.drv.cfg.size <= |w.dev.mem|
    && w.drv.bus.pending.None? && w.drv.bus.sane
    && |w.drv.compare| == CMP_BUFF_SIZE
    && !w.dev.wip
  }

  /** The first `k` bytes of `src`, and nothing else, have been stored at `start`. */
  predicate PrefixStored(mem: seq<byte>, mem0: seq<byte>, start: nat, src: seq<byte>, k: nat) {
    k <= |src| && start + k <= |mem0| && mem == Splice(mem0, start, src[..k])
  }

  /** Facts that no event of a write job started in `w0` changes. */
  predicate WriteFrame(w: World, w0: World, t: Task, src: seq<byte>) {
    && Runnable(w) && AtRest(w0)
    && |w.dev.mem| == |w0.dev.mem| && w.dev.page == w0.dev.page
    && w.drv.cfg == w0.drv.cfg && |w.drv.compare| == CMP_BUFF_SIZE && w.drv.bus.sane
    && t.Valid() && t.kind == EepWrite && t.buffer == UserBuffer
    && t.start + t.total <= |w0.dev.mem|
    && w.drv.user == src && t.total <= |src|
  }

  /** A write job in progress. */
  ghost predicate Writing(w: World, w0: World, t: Task, src: seq<byte>) {
    && WriteFrame(w, w0, t, src)
    && w.drv.jobType == EepWrite
    && Engine(t, w.drv.bus, w.drv.job) && w.drv.job.pageSize == w.dev.page
    && Quiet(w.drv.bus, w.drv.job, w.dev.wip)
    && if Broken(t, w.drv.bus, w.drv.job)
       then exists k: nat :: k <= t.total && PrefixStored(w.dev.mem, w0.dev.mem, t.start, src, k)
       else PrefixStored(w.dev.mem, w0.dev.mem, t.start, src, Moved(t, w.drv.bus, w.drv.job))
  }

  /** What may be observed of a write job at any time. */
  ghost predicate WriteOutcome(w: World, w0: World, t: Task, src: seq<byte>) {
    match w.drv.result
    case JobPending => Writing(w, w0, t, src)
    case JobOk =>
      && WriteFrame(w, w0, t, src) && w.drv.bus.pending.None? && !w.dev.wip && w.drv.status == Idle
      && w.dev.mem == Splice(w0.dev.mem, t.start, src[..t.total])
    case JobFailed =>
      && WriteFrame(w, w0, t, src) && w.drv.bus.pending.None? && w.drv.status == Idle
      && exists k: nat :: k <= t.total && PrefixStored(w.dev.mem, w0.dev.mem, t.start, src, k)
    case JobCanceled => false
  }

  /** Programming the next bytes of the source, clipped to the page, extends the stored prefix. */
  lemma ChunkStored(mem: seq<byte>, mem0: seq<byte>, page: nat, start: nat, src: seq<byte>, moved: nat, chunk: nat,
                    n: nat)
    requires page > 0 && |mem0| % page == 0 && |mem| == |mem0| && start + moved < |mem0|
    requires n <= chunk && moved + chunk <= |src|
    requires PrefixStored(mem, mem0, start, src, moved)
    requires n <= page - (start + moved) % page
    ensures PrefixStored(Program(mem, page, start + moved, src[moved..moved + chunk][..n]), mem0, start, src, moved + n)
  {
    var data := src[moved..moved + chunk][..n];
    assert src[..moved] + data == src[..moved + n];
    ProgramWithinPage(mem, page, start + moved, data);
    SpliceAppend(mem0, start, src[..moved], data);
  }

  /** The end of a write sequence stores a prefix of its chunk, the whole chunk if it succeeded. */
  lemma WriteSequenceDone(w: World, w0: World, t: Task, src: seq<byte>, ok: bool, sent: nat)
    requires Writing(w, w0, t, src) && w.drv.bus.pending == Some(WriteSequence)
    ensures var w' := CompleteWrite(w, ok, sent);
      && w'.drv == w.drv.(bus := Released(w.drv.bus, WriteSequence, ok))
      && PrefixStored(w'.dev.mem, w0.dev.mem, t.start, src,
                      Moved(t, w.drv.bus, w.drv.job) + SentBytes(w.drv.bus, ok, sent))
  {
    var bus, moved := w.drv.bus, Moved(t, w.drv.bus, w.drv.job);
    ModSmall(bus.addr, |w0.dev.mem|);
    assert !w.dev.wip && Fetch(w.drv, bus.tx, bus.length) == Some(src[moved..moved + bus.length]);
    ChunkStored(w.dev.mem, w0.dev.mem, w.dev.page, t.start, src, moved, bus.length, SentBytes(bus, ok, sent));
  }

  lemma SpiKeepsWriting(w: World, w0: World, t: Task, src: seq<byte>, ok: bool, sent: nat, noise: seq<byte>)
    requires Writing(w, w0, t, src) && w.drv.bus.pending.Some?
    ensures Writing(Next(w, SpiDone(ok, sent, noise)), w0, t, src)
  {
    if w.drv.bus.pending.value == WriteSequence {
      WriteSequenceDone(w, w0, t, src, ok, sent);
    } else {
      StatusSequenceDone(w, t, w.drv.job, ok, sent, noise);
    }
  }

  lemma CallKeepsOutcome(w: World, w0: World, t: Task, src: seq<byte>, accept: bool)
    requires Writing(w, w0, t, src) && w.drv.result == JobPending
    ensures WriteOutcome(Next(w, MainFunction(accept)), w0, t, src)
  {
    ProcessKeepsEngine(t, w.drv.bus, w.drv.job, accept, w.dev.wip);
    var s := ProcessJob(w.drv.bus, w.drv.job, accept);
    var moved := Moved(t, w.drv.bus, w.drv.job);
    assert !Broken(t, w.drv.bus, w.drv.job) ==> PrefixStored(w.dev.mem, w0.dev.mem, t.start, src, moved);
    if s.rv == SeqPending && !Broken(t, s.bus, s.job) {
      assert !Broken(t, w.drv.bus, w.drv.job);
    }
  }

  lemma EventKeepsOutcome(w: World, w0: World, t: Task, src: seq<byte>, e: Event)
    requires Runnable(w) && WriteOutcome(w, w0, t, src)
    ensures WriteOutcome(Next(w, e), w0, t, src)
  {
    if w.drv.result == JobPending {
      match e
      case MainFunction(accept) => CallKeepsOutcome(w, w0, t, src, accept);
      case SpiDone(ok, sent, noise) =>
        if w.drv.bus.pending.Some? { SpiKeepsWriting(w, w0, t, src, ok, sent, noise); }
      case ProgramDone =>
    }
  }

  lemma {:induction false} RunKeepsOutcome(w: World, w0: World, t: Task, src: seq<byte>, es: seq<Event>)
    requires Runnable(w) && WriteOutcome(w, w0, t, src)
    ensures WriteOutcome(Run(w, es), w0, t, src)
    decreases |es|
  {
    if es != [] {
      EventKeepsOutcome(w, w0, t, src, es[0]);
      RunKeepsOutcome(Next(w, es[0]), w0, t, src, es[1..]);
    }
  }

  /** Eep_Write followed by any run.  Success is reported only when the device holds exactly the
      source bytes in the requested range, is unchanged elsewhere and is idle again; a failed job
      has stored some prefix of the source and nothing else; and the run never trips an ASSERT,
      leaves a buffer, or alters a buffer that the SPI handler still owns. */
  lemma WriteIsFaithful(w: World, addr: nat, data: seq<byte>, length: nat, es: seq<Event>)
    requires AtRest(w) && length <= |data| && Admissible(w, addr, length)
    ensures var w' := Run(Armed(w, EepWrite, addr, data, length), es);
      var start := w.drv.cfg.base + addr;
      && w'.drv.bus.sane
      && (w'.drv.result == JobOk ==>
            AtRest(w') && w'.drv.status == Idle && w'.drv.cfg == w.drv.cfg
            && w'.dev.mem == Splice(w.dev.mem, start, data[..length]))
      && (w'.drv.result == JobFailed ==>
            exists k: nat :: k <= length && PrefixStored(w'.dev.mem, w.dev.mem, start, data, k))
  {
    var w1 := Armed(w, EepWrite, addr, data, length);
    var t := Task(EepWrite, w.drv.cfg.base + addr, length, UserBuffer);
    ArmedForWriting(w, addr, data, length);
    RunKeepsOutcome(w1, w, t, data, es);
  }

  lemma ArmedForWriting(w: World, addr: nat, data: seq<byte>, length: nat)
    requires AtRest(w) && length <= |data| && Admissible(w, addr, length)
    ensures var w' := Armed(w, EepWrite, addr, data, length);
      w'.drv.result == JobPending
      && Writing(w', w, Task(EepWrite, w.drv.cfg.base + addr, length, UserBuffer), data)
  {
    assert w.dev.mem == Splice(w.dev.mem, w.drv.cfg.base + addr, data[..0]);
  }
}
