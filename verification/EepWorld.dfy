/** The driver together with its environment: an SPI handler that may refuse, delay or fail any
    sequence, and a device that stays busy for as long as it likes after each write. */
module EepWorld {
  import opened Arith
  import opened Common
  import opened EepDevice
  import opened EepDriver

  datatype World = World(drv: Driver, dev: Device)

  /** One thing that can happen: the scheduler calls Eep_MainFunction (`accept` is the answer that
      the SPI handler would give to a transmit), the outstanding sequence ends, or the device
      finishes programming.  A sequence that fails may have moved any number of bytes first. */
  datatype Event =
    | MainFunction(accept: bool)
    | SpiDone(ok: bool, sent: nat, noise: seq<byte>)
    | ProgramDone

  function Insane(d: Driver): Driver {
    d.(bus := d.bus.(sane := false))
  }

  /** The bytes that a transmit channel reads from the driver's memory. */
  function Fetch(d: Driver, p: Place, n: nat): (r: Option<seq<byte>>) {
    match p
    case At(UserBuffer, o) => if o + n <= |d.user| then Some(d.user[o..o + n]) else None
    case At(CompareBuffer, o) => if o + n <= |d.compare| then Some(d.compare[o..o + n]) else None
    case _ => None
  }

  /** The effect of received bytes on the driver's memory. */
  function Deliver(d: Driver, p: Place, bytes: seq<byte>): (r: Driver) {
    match p
    case Nowhere => Insane(d)
    case StatusByte =>
      if |bytes| == 0 then d
      else if |bytes| == 1 then d.(bus := d.bus.(status := bytes[0]))
      else Insane(d)
    case At(UserBuffer, o) =>
      if o + |bytes| <= |d.user| then d.(user := Splice(d.user, o, bytes)) else Insane(d)
    case At(CompareBuffer, o) =>
      if o + |bytes| <= |d.compare| then d.(compare := Splice(d.compare, o, bytes)) else Insane(d)
  }

  /** `n` bytes that nothing is known about; `noise` says which. */
  function Noise(noise: seq<byte>, n: nat): (r: seq<byte>)
    ensures |r| == n
  {
    seq(n, i requires 0 <= i => NoiseAt(noise, i))
  }

  function NoiseAt(noise: seq<byte>, i: nat): byte {
    if i < |noise| then noise[i] else 0
  }

  /** Bit 0 is Write-In-Progress; the others are arbitrary. */
  function StatusRegister(wip: bool, noise: seq<byte>): byte {
    2 * (NoiseAt(noise, 0) / 2) + if wip then 1 else 0
  }

  /** The bytes that a read sequence brings in. */
  function Received(dev: Device, a: nat, n: nat, ok: bool, noise: seq<byte>): (r: seq<byte>)
    requires |dev.mem| > 0
    ensures |r| == n
  {
    if ok && !dev.wip then ReadBytes(dev.mem, a, n) else Noise(noise, n)
  }

  /** The handler's state once sequence `s` has ended. */
  function Released(bus: Bus, s: Sequence, ok: bool): Bus {
    bus.(pending := None, failed := if ok then bus.failed else bus.failed + {s})
  }

  /** Bytes moved before the end of the outstanding sequence. */
  function SentBytes(bus: Bus, ok: bool, sent: nat): nat {
    if ok then bus.length else Min(sent, bus.length)
  }

  function CompleteWrite(w: World, ok: bool, sent: nat): (r: World)
    requires w.dev.Valid() && |w.dev.mem| > 0
    ensures r.dev.page == w.dev.page && |r.dev.mem| == |w.dev.mem|
  {
    var bus := w.drv.bus;
    var d := w.drv.(bus := Released(bus, WriteSequence, ok));
    var n := SentBytes(bus, ok, sent);
    var data := Fetch(d, bus.tx, bus.length);
    if bus.cmd != WRITE_INSTRUCTION || data.None? then World(Insane(d), w.dev)
    else if w.dev.wip || n == 0 then World(d, w.dev)
    else World(d, w.dev.(mem := Program(w.dev.mem, w.dev.page, bus.addr % |w.dev.mem|, data.value[..n]), wip := true))
  }

  function CompleteRead(w: World, ok: bool, sent: nat, noise: seq<byte>): (r: World)
    requires |w.dev.mem| > 0
  {
    var bus := w.drv.bus;
    var d := w.drv.(bus := Released(bus, ReadSequence, ok));
    var bytes := Received(w.dev, bus.addr % |w.dev.mem|, SentBytes(bus, ok, sent), ok, noise);
    w.(drv := if bus.cmd != READ_INSTRUCTION then Insane(d) else Deliver(d, bus.rx, bytes))
  }

  function CompleteStatus(w: World, ok: bool, sent: nat, noise: seq<byte>): (r: World) {
    var bus := w.drv.bus;
    var d := w.drv.(bus := Released(bus, Cmd2Sequence, ok));
    var bytes := if ok then [StatusRegister(w.dev.wip, noise)] else Noise(noise, SentBytes(bus, ok, sent));
    w.(drv := if bus.cmd != READ_STATUS_INSTRUCTION || bus.length != 1 then Insane(d) else Deliver(d, bus.rx, bytes))
  }

  /** The end of sequence `s`.  The handler reads command, address and data buffers only now, so a
      driver that touched them while the sequence was outstanding would be caught. */
  function Complete(w: World, s: Sequence, ok: bool, sent: nat, noise: seq<byte>): (r: World)
    requires w.dev.Valid() && |w.dev.mem| > 0
    ensures r.dev.page == w.dev.page && |r.dev.mem| == |w.dev.mem|
    ensures r.drv.job == w.drv.job && r.drv.readJob == w.drv.readJob
    ensures r.drv.result == w.drv.result && r.drv.bus.sent == w.drv.bus.sent
  {
    match s
    case WriteSequence => CompleteWrite(w, ok, sent)
    case ReadSequence => CompleteRead(w, ok, sent, noise)
    case Cmd2Sequence => CompleteStatus(w, ok, sent, noise)
  }

  /** A world in which every event is defined. */
  predicate Runnable(w: World) {
    w.dev.Valid() && |w.dev.mem| > 0 && w.drv.job.Ready() && w.drv.readJob.Ready()
  }

  /** The world right after Eep_Read, Eep_Write or Eep_Compare. */
  function Armed(w: World, kind: JobType, addr: nat, data: seq<byte>, length: nat): (r: World)
    requires Runnable(w) && w.drv.cfg.Valid()
    ensures Runnable(r)
  {
    w.(drv := Arm(w.drv, kind, addr, Some(data), length).0)
  }

  /** A request that an idle driver is to take: at least one byte, and all of them on the device. */
  predicate Admissible(w: World, addr: nat, length: nat) {
    w.drv.status == Idle && 1 <= length && addr + length <= w.drv.cfg.size
  }

  function Next(w: World, e: Event): (r: World)
    requires Runnable(w)
    ensures Runnable(r)
  {
    match e
    case MainFunction(accept) =>
      World(MainStep(w.drv, accept), w.dev)
    case SpiDone(ok, sent, noise) =>
      if w.drv.bus.pending.None? then w
      else Complete(w, w.drv.bus.pending.value, ok, sent, noise)
    case ProgramDone =>
      w.(dev := w.dev.(wip := false))
  }

  /** The world after a whole run. */
  function Run(w: World, es: seq<Event>): (r: World)
    requires Runnable(w)
    ensures Runnable(r)
    decreases |es|
  {
    if es == [] then w else Run(Next(w, es[0]), es[1..])
  }

  lemma {:induction false} RunAppend(w: World, es: seq<Event>, fs: seq<Event>)
    requires Runnable(w)
    ensures Run(w, es + fs) == Run(Run(w, es), fs)
    decreases |es|
  {
    if es == [] {
      assert es + fs == fs;
    } else {
      assert (es + fs)[1..] == es[1..] + fs;
      RunAppend(Next(w, es[0]), es[1..], fs);
    }
  }

  lemma RunOne(w: World, es: seq<Event>)
    requires Runnable(w) && |es| == 1
    ensures Run(w, es) == Next(w, es[0])
  {
    assert es[1..] == [];
  }

  lemma RunTwo(w: World, es: seq<Event>)
    requires Runnable(w) && |es| == 2
    ensures Run(w, es) == Next(Next(w, es[0]), es[1])
  {
    RunOne(Next(w, es[0]), es[1..]);
  }

  /** Nothing happens to the driver once its job has ended. */
  lemma {:induction false} EndedStays(w: World, es: seq<Event>)
    requires Runnable(w) && w.drv.result != JobPending && w.drv.bus.pending.None?
    ensures Run(w, es).drv == w.drv
    decreases |es|
  {
    if es != [] {
      EndedStays(Next(w, es[0]), es[1..]);
    }
  }

  // ---------------------------------------------------------------- the transfer invariant

  /** What an engine run is for: move `total` bytes between `start` on the device and the
      beginning of `buffer`. */
  datatype Task = Task(kind: JobType, start: nat, total: nat, buffer: Buffer) {
    predicate Valid() {
      kind in {EepRead, EepCompare, EepWrite} && start + total <= 0x1_0000
    }
  }

  /** While a main sequence is outstanding the shared buffers still describe exactly its chunk. */
  predicate InFlight(t: Task, bus: Bus, job: JobInfo)
    requires job.left <= t.total && job.Ready()
  {
    var moved := t.total - job.left;
    && 1 <= bus.length <= moved
    && bus.addr == t.start + moved - bus.length
    && (if t.kind == EepWrite
        then && bus.cmd == E2_WRITE && bus.tx == At(t.buffer, moved - bus.length)
             && job.mainState == EepWrite && bus.length <= job.pageSize - bus.addr % job.pageSize
        else bus.cmd == E2_READ && bus.rx == At(t.buffer, moved - bus.length))
  }

  /** The job structure and the SPI handler agree on how far task `t` has come. */
  predicate Engine(t: Task, bus: Bus, job: JobInfo) {
    && t.Valid() && bus.sane
    && job.mainState == t.kind && job.chunkSize > 0 && job.Ready()
    && job.left <= t.total
    && job.eepAddr == t.start + (t.total - job.left)
    && job.target == At(t.buffer, t.total - job.left)
    && (job.initialOp ==> job.state == JobMain && job.left == t.total)
    && (bus.pending.Some? ==> bus.pending.value == job.currSeq)
    && match job.state
       case JobMain => bus.pending.None?
       case JobReadStatus =>
         && job.currSeq in {MainSequence(t.kind), Cmd2Sequence}
         && (bus.pending.Some? ==> job.currSeq == MainSequence(t.kind) && InFlight(t, bus, job))
       case JobReadStatusResult =>
         && job.currSeq == Cmd2Sequence
         && (bus.pending.Some? ==> bus.cmd == E2_RDSR && bus.rx == StatusByte && bus.length == 1)
  }

  /** Bytes that have certainly been moved. */
  function Moved(t: Task, bus: Bus, job: JobInfo): (n: nat)
    requires Engine(t, bus, job)
  {
    t.total - job.left - if bus.pending == Some(MainSequence(t.kind)) then bus.length else 0
  }

  /** The last main sequence failed and the driver has not yet noticed. */
  predicate Broken(t: Task, bus: Bus, job: JobInfo) {
    && job.state == JobReadStatus && bus.pending.None?
    && job.currSeq == MainSequence(t.kind) && job.currSeq in bus.failed
  }

  /** The device is busy only where the driver is prepared for it. */
  predicate Quiet(bus: Bus, job: JobInfo, wip: bool) {
    wip ==>
      || (job.state == JobReadStatus && bus.pending.None?)
      || (job.state == JobReadStatusResult
          && (bus.pending.Some? || Cmd2Sequence in bus.failed || bus.status % 2 == 1))
  }

  /** What processJob may answer: it fails only if a sequence failed, it reports success only when
      every byte is moved and the device is idle, and otherwise it keeps the invariant. */
  predicate Answer(t: Task, bus: Bus, job: JobInfo, wip: bool, s: Step)
    requires Engine(t, bus, job)
  {
    match s.rv
    case SeqFailed => s.bus == bus && s.job == job && bus.pending.None?
    case SeqPending =>
      && Engine(t, s.bus, s.job) && Quiet(s.bus, s.job, wip) && !s.job.initialOp
      && s.job.pageSize == job.pageSize && s.job.chunkSize == job.chunkSize
      && Moved(t, s.bus, s.job) == Moved(t, bus, job)
      && (Broken(t, s.bus, s.job) ==> Broken(t, bus, job))
    case SeqOk =>
      && s.bus == bus && bus.pending.None? && job.left == 0 && !Broken(t, bus, job) && !wip
      && s.job == job.(state := JobMain, mainState := EepNone, initialOp := false)
      && (job.initialOp || job.currSeq !in bus.failed)
  }

  /** The JOB_MAIN case. */
  lemma MainAnswers(t: Task, bus: Bus, job: JobInfo, accept: bool)
    requires Engine(t, bus, job) && job.state == JobMain && !job.initialOp
    requires job.left == 0 ==> job.currSeq !in bus.failed
    ensures Answer(t, bus, job, false, StepMain(bus, job, accept)) && StepMain(bus, job, accept).done
  {
    if job.left > 0 {
      ModSmall(job.eepAddr, 0x1_0000);
    }
  }

  /** The JOB_READ_STATUS case. */
  lemma StatusAnswers(t: Task, bus: Bus, job: JobInfo, accept: bool, wip: bool)
    requires Engine(t, bus, job) && job.state == JobReadStatus && !job.initialOp && bus.pending.None?
    ensures Answer(t, bus, job, wip, StepReadStatus(bus, job, accept))
  {
  }

  /** One call of processJob. */
  lemma ProcessKeepsEngine(t: Task, bus: Bus, job: JobInfo, accept: bool, wip: bool)
    requires Engine(t, bus, job) && Quiet(bus, job, wip)
    ensures Answer(t, bus, job, wip, ProcessJob(bus, job, accept))
  {
    if job.initialOp {
      InitialAnswers(t, bus, job, accept);
    } else if bus.Result(job.currSeq) == SeqOk {
      match job.state
      case JobMain => MainAnswers(t, bus, job, accept);
      case JobReadStatus => StatusAnswers(t, bus, job, accept, wip);
      case JobReadStatusResult => ResultAnswers(t, bus, job, accept, wip);
    }
  }

  lemma InitialAnswers(t: Task, bus: Bus, job: JobInfo, accept: bool)
    requires Engine(t, bus, job) && job.initialOp
    ensures Answer(t, bus, job, false, ProcessJob(bus, job, accept))
  {
    var job1 := job.(initialOp := false);
    assert bus.(sane := true) == bus;
    assert ProcessJob(bus, job, accept) == StepMain(bus, job1, accept);
    if job.left > 0 {
      MainAnswers(t, bus, job1, accept);
    }
  }

  /** The JOB_READ_STATUS_RESULT case and the round of the loop that follows it. */
  lemma ResultAnswers(t: Task, bus: Bus, job: JobInfo, accept: bool, wip: bool)
    requires Engine(t, bus, job) && Quiet(bus, job, wip) && job.state == JobReadStatusResult && !job.initialOp
    requires bus.Result(job.currSeq) == SeqOk
    ensures Answer(t, bus, job, wip, LoopJob(bus, job, accept))
  {
    var job1 := StepStatusResult(bus, job).job;
    assert LoopJob(bus, job, accept) == LoopJob(bus, job1, accept) == StepJob(bus, job1, accept);
    if job1.state == JobMain {
      MainAnswers(t, bus, job1, accept);
    } else {
      StatusAnswers(t, bus, job1, accept, wip);
    }
  }

  /** The end of the status query changes nothing but the handler's state and the status byte. */
  lemma StatusSequenceDone(w: World, t: Task, job: JobInfo, ok: bool, sent: nat, noise: seq<byte>)
    requires Runnable(w) && Engine(t, w.drv.bus, job) && w.drv.bus.pending == Some(Cmd2Sequence)
    ensures var w' := CompleteStatus(w, ok, sent, noise);
      && w' == w.(drv := w.drv.(bus := w'.drv.bus))
      && w'.drv.bus.pending.None? && w'.drv.bus.sane
      && w'.drv.bus.failed == (if ok then w.drv.bus.failed else w.drv.bus.failed + {Cmd2Sequence})
      && Engine(t, w'.drv.bus, job) && !Broken(t, w'.drv.bus, job)
      && Moved(t, w'.drv.bus, job) == Moved(t, w.drv.bus, job)
      && Quiet(w'.drv.bus, job, w.dev.wip)
  {
    assert job.state == JobReadStatusResult;
  }

  /** The buffers handed to the SPI handler are not touched while it owns them: a call made while a
      sequence is outstanding does nothing. */
  lemma OwnedBuffersUntouched(t: Task, bus: Bus, job: JobInfo, accept: bool)
    requires Engine(t, bus, job) && bus.pending.Some?
    ensures ProcessJob(bus, job, accept) == Step(bus, job, SeqPending, true)
  {
  }
}
