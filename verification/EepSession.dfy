/** From power-on: initialisation, and jobs one after the other in a cooperative environment. */
module EepSession {
  import opened Common
  import opened EepDevice
  import opened EepDriver
  import opened EepWorld
  import opened EepWrite
  import opened EepRead
  import opened EepProgress
  import opened EepReadEnds
  import opened EepCompareEnds
  import opened EepFailure

  /** A device that a configuration describes. */
  predicate Fits(cfg: Config, dev: Device) {
    cfg.Valid() && dev.Valid() && |dev.mem| > 0 && dev.page == cfg.pageSize && cfg.base + cfg.size <= |dev.mem|
  }

  /** Eep_Init takes a driver out of zeroed memory to rest: every range of the device may be requested, no
      sequence is marked as failed and a compare job will find `firstTime` set. */
  lemma InitIsAtRest(cfg: Config, mode: Mode, dev: Device)
    requires Fits(cfg, dev) && !dev.wip
    ensures var w := World(Initialised(ZEROED, Some(cfg), mode), dev);
      && AtRest(w) && w.drv.firstTime && w.drv.result == JobOk && w.drv.cfg == cfg && w.drv.mode == mode
      && w.drv.bus.sent == [] && (forall kind :: Unfailed(w.drv.bus, kind))
      && forall addr: nat, length: nat :: Admissible(w, addr, length) <==> 1 <= length && addr + length <= cfg.size
  {
  }

  /** A busy driver keeps its job, and a missing configuration is not taken; otherwise the job, the statics
      and the state of the SPI handler survive a second initialisation. */
  lemma InitAgain(d: Driver, config: Option<Config>, mode: Mode)
    ensures var d' := Initialised(d, config, mode);
      if config.None? || d.status == Busy then d' == d
      else && d'.status == Idle && d'.result == JobOk && d'.mode == mode && d'.cfg == config.value
           && d' == d.(status := Idle, result := JobOk, mode := mode, cfg := config.value)
  {
  }

  /** Busy with a job of this kind, or idle with its result. */
  predicate Bookkeeping(d: Driver, kind: JobType) {
    match d.result
    case JobPending => d.status == Busy && d.jobType == kind
    case JobCanceled => false
    case _ => d.status == Idle && d.jobType == EepNone
  }

  /** In every run of a job, whatever handler and device do, the driver is busy exactly while the result is
      pending, and a job that has ended leaves it ready for the next request. */
  lemma {:induction false} StatusFollowsResult(w: World, kind: JobType, es: seq<Event>)
    requires Runnable(w) && IsTransfer(kind) && Bookkeeping(w.drv, kind)
    ensures Bookkeeping(Run(w, es).drv, kind)
    decreases |es|
  {
    if es != [] {
      var e := es[0];
      if e.MainFunction? {
        CallKeepsBooks(w.drv, kind, e.accept);
      } else if e.SpiDone? && w.drv.bus.pending.Some? {
        CompletionKeepsStatus(w, w.drv.bus.pending.value, e.ok, e.sent, e.noise);
      }
      StatusFollowsResult(Next(w, e), kind, es[1..]);
    }
  }

  lemma CallKeepsBooks(d: Driver, kind: JobType, accept: bool)
    requires d.job.Ready() && d.readJob.Ready() && IsTransfer(kind) && Bookkeeping(d, kind)
    ensures Bookkeeping(MainStep(d, accept), kind)
  {
    if d.result == JobPending {
      if kind == EepCompare {
        ConcludedKeepsBooks(Opened(d), ProcessJob(d.bus, Opened(d).readJob, accept));
      } else {
        TransferKeepsBooks(d, kind, accept);
      }
    }
  }

  lemma ConcludedKeepsBooks(d: Driver, s: Step)
    requires d.job.Ready() && s.job.Ready() && d.result == JobPending && Bookkeeping(d, EepCompare)
    ensures Bookkeeping(Concluded(d, s), EepCompare)
  {
  }

  lemma TransferKeepsBooks(d: Driver, kind: JobType, accept: bool)
    requires d.job.Ready() && d.result == JobPending && Bookkeeping(d, kind)
    ensures Bookkeeping(TransferStep(d, accept), kind)
  {
  }

  lemma CompletionKeepsStatus(w: World, s: Sequence, ok: bool, sent: nat, noise: seq<byte>)
    requires Runnable(w)
    ensures var d' := Complete(w, s, ok, sent, noise).drv;
      d'.status == w.drv.status && d'.result == w.drv.result && d'.jobType == w.drv.jobType
  {
    CompletionKeepsJob(w, s, ok, sent, noise);
  }

  /** An accepted job starts busy. */
  lemma JobIsBusyUntilItEnds(w: World, kind: JobType, addr: nat, data: seq<byte>, length: nat, es: seq<Event>)
    requires AtRest(w) && IsTransfer(kind) && Admissible(w, addr, length)
    ensures Bookkeeping(Run(Armed(w, kind, addr, data, length), es).drv, kind)
  {
    StatusFollowsResult(Armed(w, kind, addr, data, length), kind, es);
  }

  /** Read and write jobs leave the statics of a compare job alone. */
  lemma {:induction false} TransfersKeepStatics(w: World, es: seq<Event>)
    requires Runnable(w)
    requires w.drv.result == JobPending ==> w.drv.jobType == EepRead || w.drv.jobType == EepWrite
    ensures Run(w, es).drv.firstTime == w.drv.firstTime
    decreases |es|
  {
    if es != [] {
      var e := es[0];
      if e.SpiDone? && w.drv.bus.pending.Some? {
        CompletionKeepsJob(w, w.drv.bus.pending.value, e.ok, e.sent, e.noise);
      }
      TransfersKeepStatics(Next(w, e), es[1..]);
    }
  }

  /** A completed write leaves a driver at rest with the new contents and the old statics. */
  lemma WriteStep(w: World, addr: nat, data: seq<byte>) returns (n: nat, w': World)
    requires AtRest(w) && Admissible(w, addr, |data|)
    ensures w' == Run(Armed(w, EepWrite, addr, data, |data|), Rounds(n)) && w'.drv.result == JobOk
    ensures AtRest(w') && w'.drv.status == Idle && w'.drv.cfg == w.drv.cfg
    ensures w'.dev.mem == Splice(w.dev.mem, w.drv.cfg.base + addr, data) && w'.drv.firstTime == w.drv.firstTime
  {
    var c := WriteBlock(w.drv);
    n := 3 * Chunks(EepWrite, w.drv.cfg.base + addr, |data|, c, w.dev.page) + 1;
    WriteCompletes(w, addr, data, |data|);
    w' := Run(Armed(w, EepWrite, addr, data, |data|), Rounds(n));
    WriteIsDone(w, addr, data, Rounds(n), w');
  }

  lemma WriteIsDone(w: World, addr: nat, data: seq<byte>, es: seq<Event>, w': World)
    requires AtRest(w) && Admissible(w, addr, |data|)
    requires w' == Run(Armed(w, EepWrite, addr, data, |data|), es) && w'.drv.result == JobOk
    ensures AtRest(w') && w'.drv.status == Idle && w'.drv.cfg == w.drv.cfg
    ensures w'.dev.mem == Splice(w.dev.mem, w.drv.cfg.base + addr, data) && w'.drv.firstTime == w.drv.firstTime
  {
    WriteIsFaithful(w, addr, data, |data|, es);
    assert data[..|data|] == data;
    TransfersKeepStatics(Armed(w, EepWrite, addr, data, |data|), es);
  }

  /** A completed read of the same range gives the bytes back. */
  lemma ReadStep(w: World, addr: nat, target: seq<byte>, length: nat) returns (n: nat, w': World)
    requires AtRest(w) && Admissible(w, addr, length) && length <= |target|
    ensures w' == Run(Armed(w, EepRead, addr, target, length), Rounds(n)) && w'.drv.result == JobOk
    ensures var start := w.drv.cfg.base + addr;
      AtRest(w') && w'.dev == w.dev && w'.drv.user == w.dev.mem[start..start + length] + target[length..]
  {
    n := 3 * Chunks(EepRead, w.drv.cfg.base + addr, length, ReadBlock(w.drv), w.drv.job.pageSize) + 1;
    ReadCompletes(w, addr, target, length, n);
    ReadIsFaithful(w, addr, target, length, Rounds(n));
    w' := Run(Armed(w, EepRead, addr, target, length), Rounds(n));
  }

  /** The whole story on plain conditions: after initialisation from zeroed memory every write to a range of
      the device completes and changes exactly that range, a read of it completes with the same bytes, and a
      compare with them completes with OK. */
  lemma PowerOnSession(cfg: Config, mode: Mode, dev: Device, addr: nat, data: seq<byte>, target: seq<byte>)
    returns (n: nat, m: nat, k: nat, w1: World, w2: World)
    requires Fits(cfg, dev) && !dev.wip && 1 <= |data| <= |target| && addr + |data| <= cfg.size
    ensures var w := World(Initialised(ZEROED, Some(cfg), mode), dev);
      AtRest(w) && w1 == Run(Armed(w, EepWrite, addr, data, |data|), Rounds(n))
    ensures w1.drv.result == JobOk && w1.dev.mem == Splice(dev.mem, cfg.base + addr, data)
    ensures AtRest(w1) && w2 == Run(Armed(w1, EepRead, addr, target, |data|), Rounds(m))
    ensures w2.drv.result == JobOk && w2.dev == w1.dev && w2.drv.user == data + target[|data|..]
    ensures Run(Armed(w1, EepCompare, addr, data, |data|), Rounds(k)).drv.result == JobOk
  {
    var w := World(Initialised(ZEROED, Some(cfg), mode), dev);
    var start := cfg.base + addr;
    InitIsAtRest(cfg, mode, dev);
    n, w1 := WriteStep(w, addr, data);
    assert w1.dev.mem[start..start + |data|] == data;
    m, w2 := ReadStep(w1, addr, target, |data|);
    assert data[..|data|] == data;
    k := CompareIsDecided(w1, addr, data, |data|);
  }
}
