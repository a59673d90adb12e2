/** When does a job fail although none of its sequences did?  A call records the sequence that it wants to
    send even if the SPI handler refuses it, so the next call may read the result of an older job. */
module EepFailure {
  import opened Common
  import opened EepDriver
  import opened EepWorld
  import opened EepBusyStart

  /** No sequence fails in the run. */
  predicate Faultless(es: seq<Event>) {
    forall e | e in es && e.SpiDone? :: e.ok
  }

  /** Neither sequence of a job has failed when last sent. */
  predicate Unfailed(bus: Bus, kind: JobType) {
    MainSequence(kind) !in bus.failed && Cmd2Sequence !in bus.failed
  }

  predicate IsTransfer(kind: JobType) {
    kind == EepRead || kind == EepWrite || kind == EepCompare
  }

  /** The engine waits for a sequence of its own job. */
  predicate OwnSequence(kind: JobType, job: JobInfo) {
    && job.Ready() && (job.mainState == kind || job.mainState == EepNone)
    && (job.currSeq == MainSequence(kind) || job.currSeq == Cmd2Sequence)
  }

  lemma OwnStep(kind: JobType, bus: Bus, job: JobInfo, accept: bool)
    requires IsTransfer(kind) && OwnSequence(kind, job) && Unfailed(bus, kind)
    ensures var s := StepJob(bus, job, accept);
      s.rv != SeqFailed && Unfailed(s.bus, kind) && OwnSequence(kind, s.job)
  {
  }

  lemma {:induction false} OwnLoop(kind: JobType, bus: Bus, job: JobInfo, accept: bool)
    requires IsTransfer(kind) && OwnSequence(kind, job) && Unfailed(bus, kind)
    ensures var s := LoopJob(bus, job, accept);
      s.rv != SeqFailed && Unfailed(s.bus, kind) && OwnSequence(kind, s.job)
    decreases job.state == JobReadStatusResult
  {
    var s := StepJob(bus, job, accept);
    OwnStep(kind, bus, job, accept);
    if !s.done {
      OwnLoop(kind, s.bus, s.job, accept);
    }
  }

  lemma OwnProcess(kind: JobType, bus: Bus, job: JobInfo, accept: bool)
    requires IsTransfer(kind) && OwnSequence(kind, job) && Unfailed(bus, kind)
    ensures var s := ProcessJob(bus, job, accept);
      s.rv != SeqFailed && Unfailed(s.bus, kind) && OwnSequence(kind, s.job)
  {
    if job.initialOp {
      var b := bus.(sane := bus.sane && bus.Result(job.currSeq) != SeqPending && job.state == JobMain);
      OwnLoop(kind, b, job.(initialOp := false), accept);
    } else {
      OwnLoop(kind, bus, job, accept);
    }
  }

  /** A job that has not failed and will not unless a sequence does. */
  predicate NotFailing(w: World, kind: JobType) {
    && Runnable(w) && Unfailed(w.drv.bus, kind) && w.drv.result != JobFailed
    && (w.drv.result == JobPending ==>
          && w.drv.jobType == kind && OwnSequence(kind, w.drv.job)
          && (kind == EepCompare && !w.drv.firstTime ==> OwnSequence(kind, w.drv.readJob)))
  }

  lemma CompareNotFailing(w: World, accept: bool)
    requires NotFailing(w, EepCompare) && w.drv.result == JobPending
    ensures NotFailing(w.(drv := CompareStep(w.drv, accept)), EepCompare)
  {
    var d := Opened(w.drv);
    OwnProcess(EepCompare, d.bus, d.readJob, accept);
  }

  lemma CallNotFailing(w: World, kind: JobType, accept: bool)
    requires IsTransfer(kind) && NotFailing(w, kind)
    ensures NotFailing(Next(w, MainFunction(accept)), kind)
  {
    if w.drv.result == JobPending {
      if kind == EepCompare {
        CompareNotFailing(w, accept);
      } else {
        OwnProcess(kind, w.drv.bus, w.drv.job, accept);
      }
    }
  }

  /** What a job is judged by, apart from the results of the sequences, is the same in both drivers. */
  predicate SameJob(d: Driver, d': Driver) {
    && d'.status == d.status && d'.result == d.result && d'.jobType == d.jobType && d'.firstTime == d.firstTime
    && d'.job == d.job && d'.readJob == d.readJob
  }

  lemma WriteKeepsJob(w: World, ok: bool, sent: nat)
    requires Runnable(w)
    ensures var d' := CompleteWrite(w, ok, sent).drv;
      SameJob(w.drv, d') && d'.bus.(sane := true) == Released(w.drv.bus, WriteSequence, ok).(sane := true)
  {
  }

  lemma ReadKeepsJob(w: World, ok: bool, sent: nat, noise: seq<byte>)
    requires Runnable(w)
    ensures var d' := CompleteRead(w, ok, sent, noise).drv;
      SameJob(w.drv, d') && d'.bus.(sane := true, status := 0)
        == Released(w.drv.bus, ReadSequence, ok).(sane := true, status := 0)
  {
  }

  lemma StatusKeepsJob(w: World, ok: bool, sent: nat, noise: seq<byte>)
    requires Runnable(w)
    ensures var d' := CompleteStatus(w, ok, sent, noise).drv;
      SameJob(w.drv, d') && d'.bus.(sane := true, status := 0)
        == Released(w.drv.bus, Cmd2Sequence, ok).(sane := true, status := 0)
  {
  }

  /** The end of a sequence changes nothing that a job is judged by but the result of that sequence. */
  lemma CompletionKeepsJob(w: World, s: Sequence, ok: bool, sent: nat, noise: seq<byte>)
    requires Runnable(w)
    ensures var d' := Complete(w, s, ok, sent, noise).drv;
      && SameJob(w.drv, d') && d'.bus.failed == Released(w.drv.bus, s, ok).failed && d'.bus.pending.None?
  {
    match s
    case WriteSequence => WriteKeepsJob(w, ok, sent);
    case ReadSequence => ReadKeepsJob(w, ok, sent, noise);
    case Cmd2Sequence => StatusKeepsJob(w, ok, sent, noise);
  }

  lemma {:induction false} RunNotFailing(w: World, kind: JobType, es: seq<Event>)
    requires IsTransfer(kind) && NotFailing(w, kind) && Faultless(es)
    ensures NotFailing(Run(w, es), kind)
    decreases |es|
  {
    if es != [] {
      var e := es[0];
      if e.MainFunction? {
        CallNotFailing(w, kind, e.accept);
      } else if e.SpiDone? && w.drv.bus.pending.Some? {
        CompletionKeepsJob(w, w.drv.bus.pending.value, e.ok, e.sent, e.noise);
      }
      RunNotFailing(Next(w, e), kind, es[1..]);
    }
  }

  /** The promise that a job fails only if one of its own sequences did, for all data and all runs. */
  ghost predicate FailsOnlyOnFault(w: World, kind: JobType, addr: nat, length: nat)
    requires AtRestButBusy(w)
  {
    forall data: seq<byte>, es: seq<Event> | length <= |data| && Faultless(es) ::
      Run(Armed(w, kind, addr, data, length), es).drv.result != JobFailed
  }

  /** The engine of an accepted job, which for a compare job is that of its first portion. */
  function EngineOf(d: Driver, kind: JobType): JobInfo
    requires d.job.Ready() && d.readJob.Ready()
  {
    if kind == EepCompare then Opened(d).readJob else d.job
  }

  /** A call that fails because the recorded sequence is marked as failed. */
  lemma CallReadsOldResult(w: World, kind: JobType)
    requires IsTransfer(kind) && Runnable(w) && w.drv.result == JobPending && w.drv.jobType == kind
    requires kind == EepCompare ==> !w.drv.firstTime
    requires var j := EngineOf(w.drv, kind); !j.initialOp && j.currSeq in w.drv.bus.failed && w.drv.bus.pending.None?
    ensures Next(w, MainFunction(true)).drv.result == JobFailed
  {
  }

  /** A first call whose transmission is refused. */
  lemma RefusedCall(w: World, kind: JobType, addr: nat, data: seq<byte>, length: nat)
    requires AtRestButBusy(w) && IsTransfer(kind) && (kind == EepCompare ==> w.drv.firstTime)
    requires Admissible(w, addr, length)
    ensures var w' := Next(Armed(w, kind, addr, data, length), MainFunction(false));
      && w'.drv.result == JobPending && w'.drv.jobType == kind && (kind == EepCompare ==> !w'.drv.firstTime)
      && w'.drv.bus.failed == w.drv.bus.failed && w'.drv.bus.pending.None?
      && var j := EngineOf(w'.drv, kind); !j.initialOp && j.currSeq == MainSequence(kind)
  {
  }

  /** A first call whose transmission is taken. */
  lemma TakenCall(w: World, kind: JobType, addr: nat, data: seq<byte>, length: nat)
    requires AtRestButBusy(w) && IsTransfer(kind) && (kind == EepCompare ==> w.drv.firstTime)
    requires Admissible(w, addr, length)
    ensures var w' := Next(Armed(w, kind, addr, data, length), MainFunction(true));
      && w'.drv.result == JobPending && w'.drv.jobType == kind && (kind == EepCompare ==> !w'.drv.firstTime)
      && w'.drv.bus.failed == w.drv.bus.failed - {MainSequence(kind)}
      && w'.drv.bus.pending == Some(MainSequence(kind))
      && var j := EngineOf(w'.drv, kind);
         !j.initialOp && j.currSeq == MainSequence(kind) && j.state == JobReadStatus
  {
  }

  /** A refused status query. */
  lemma RefusedQuery(w: World, kind: JobType)
    requires IsTransfer(kind) && Runnable(w) && w.drv.result == JobPending && w.drv.jobType == kind
    requires kind == EepCompare ==> !w.drv.firstTime
    requires w.drv.bus.pending.None?
    requires var j := EngineOf(w.drv, kind);
      !j.initialOp && j.currSeq !in w.drv.bus.failed && j.state == JobReadStatus
    ensures var w' := Next(w, MainFunction(false));
      && w'.drv.result == JobPending && w'.drv.jobType == kind && (kind == EepCompare ==> !w'.drv.firstTime)
      && w'.drv.bus.failed == w.drv.bus.failed && w'.drv.bus.pending.None?
      && var j := EngineOf(w'.drv, kind); !j.initialOp && j.currSeq == Cmd2Sequence
  {
  }

  /** The main sequence of an older job had failed: two calls, nothing sent. */
  lemma OldMainFails(w: World, kind: JobType, addr: nat, data: seq<byte>, length: nat)
    requires AtRestButBusy(w) && IsTransfer(kind) && (kind == EepCompare ==> w.drv.firstTime)
    requires Admissible(w, addr, length) && MainSequence(kind) in w.drv.bus.failed
    ensures var w1 := Armed(w, kind, addr, data, length);
      Run(w1, [MainFunction(false), MainFunction(true)]).drv.result == JobFailed
  {
    var w1 := Armed(w, kind, addr, data, length);
    var w2 := Next(w1, MainFunction(false));
    RefusedCall(w, kind, addr, data, length);
    CallReadsOldResult(w2, kind);
    RunTwo(w1, [MainFunction(false), MainFunction(true)]);
  }

  /** The status query of an older job had failed: the first chunk goes out, then the job fails. */
  lemma OldQueryFails(w: World, kind: JobType, addr: nat, data: seq<byte>, length: nat)
    requires AtRestButBusy(w) && IsTransfer(kind) && (kind == EepCompare ==> w.drv.firstTime)
    requires Admissible(w, addr, length) && Cmd2Sequence in w.drv.bus.failed
    ensures var w1 := Armed(w, kind, addr, data, length);
      Run(w1, [MainFunction(true), SpiDone(true, 0, [])] + [MainFunction(false), MainFunction(true)]).drv.result
        == JobFailed
  {
    var w1 := Armed(w, kind, addr, data, length);
    var w2 := Next(w1, MainFunction(true));
    var w3 := Next(w2, SpiDone(true, 0, []));
    TakenCall(w, kind, addr, data, length);
    CompletionKeepsJob(w2, MainSequence(kind), true, 0, []);
    RefusedQuery(w3, kind);
    CallReadsOldResult(Next(w3, MainFunction(false)), kind);
    RunTwo(w1, [MainFunction(true), SpiDone(true, 0, [])]);
    RunTwo(w3, [MainFunction(false), MainFunction(true)]);
    RunAppend(w1, [MainFunction(true), SpiDone(true, 0, [])], [MainFunction(false), MainFunction(true)]);
  }

  /** Only its own faults make a job fail, in all runs, exactly if neither its main sequence nor the status
      query is marked as failed when it starts. */
  lemma FailsOnlyOnFaultExactly(w: World, kind: JobType, addr: nat, length: nat)
    requires AtRestButBusy(w) && IsTransfer(kind) && (kind == EepCompare ==> w.drv.firstTime)
    requires Admissible(w, addr, length)
    ensures FailsOnlyOnFault(w, kind, addr, length) <==> Unfailed(w.drv.bus, kind)
  {
    if Unfailed(w.drv.bus, kind) {
      forall data: seq<byte>, es: seq<Event> | length <= |data| && Faultless(es)
        ensures Run(Armed(w, kind, addr, data, length), es).drv.result != JobFailed
      {
        RunNotFailing(Armed(w, kind, addr, data, length), kind, es);
      }
    } else {
      var data: seq<byte> := seq(length, _ => 0);
      var es := OldResultFails(w, kind, addr, data, length);
    }
  }

  lemma OldResultFails(w: World, kind: JobType, addr: nat, data: seq<byte>, length: nat) returns (es: seq<Event>)
    requires AtRestButBusy(w) && IsTransfer(kind) && (kind == EepCompare ==> w.drv.firstTime)
    requires Admissible(w, addr, length) && !Unfailed(w.drv.bus, kind)
    ensures Faultless(es) && Run(Armed(w, kind, addr, data, length), es).drv.result == JobFailed
  {
    if MainSequence(kind) in w.drv.bus.failed {
      OldMainFails(w, kind, addr, data, length);
      es := [MainFunction(false), MainFunction(true)];
    } else {
      OldQueryFails(w, kind, addr, data, length);
      es := [MainFunction(true), SpiDone(true, 0, [])] + [MainFunction(false), MainFunction(true)];
    }
  }
}
