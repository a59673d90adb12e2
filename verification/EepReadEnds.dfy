/** What a cooperative environment makes of a read job: it completes with the bytes of the range. */
module EepReadEnds {
  import opened Common
  import opened EepDriver
  import opened EepWorld
  import opened EepWrite
  import opened EepRead
  import opened EepProgress

  /** The handler is free, nothing has failed and the last status query showed an idle device. */
  predicate Free(bus: Bus, job: JobInfo) {
    && bus.pending.None? && (job.initialOp || job.currSeq !in bus.failed)
    && (job.state == JobReadStatusResult ==> bus.status % 2 == 0)
  }

  /** One call of processJob on a free engine: it is done, or it sends a sequence and has come
      closer to the end. */
  lemma FreeCall(t: Task, bus: Bus, job: JobInfo)
    requires Engine(t, bus, job) && Free(bus, job)
    ensures var s := ProcessJob(bus, job, true);
      || s.rv == SeqOk
      || (&& s.rv == SeqPending && s.job.chunkSize == job.chunkSize && s.job.pageSize == job.pageSize
          && Rank(t.kind, s.job) < Rank(t.kind, job) && !s.job.initialOp
          && s.bus.pending.Some? && s.job.currSeq !in s.bus.failed)
  {
    SentWhenAccepted(t, bus, job);
    ProcessKeepsEngine(t, bus, job, true, false);
    if ProcessJob(bus, job, true).rv == SeqPending {
      CallAccounts(t, bus, job, true);
    }
  }

  /** The sequence completes and the engine is free again. */
  lemma FreeAgain(w: World, t: Task, job: JobInfo)
    requires Runnable(w) && Reading(w, t, job) && !job.initialOp
    requires w.drv.bus.pending.Some? && job.currSeq !in w.drv.bus.failed
    ensures var w' := Next(w, SpiDone(true, 0, []));
      && Reading(w', t, job) && Free(w'.drv.bus, job) && w'.dev == w.dev
      && w'.drv == WithBuffer(w.drv.(bus := w'.drv.bus), t.buffer, BufferOf(w'.drv, t.buffer))
  {
    SpiKeepsReading(w, t, job, true, 0, []);
    if w.drv.bus.pending.value == Cmd2Sequence {
      StatusSequenceDone(w, t, job, true, 0, []);
    } else {
      var _ := ReadSequenceDone(w, t, job, true, 0, []);
    }
  }

  /** A read job between two rounds. */
  predicate BetweenReads(w: World, t: Task) {
    && Runnable(w) && w.drv.result == JobPending && w.drv.jobType == EepRead && t.kind == EepRead
    && w.drv.job.chunkSize > 0 && Reading(w, t, w.drv.job) && Free(w.drv.bus, w.drv.job)
  }

  /** A round ends the job or sends a sequence. */
  lemma RoundOfRead(w: World, t: Task)
    requires BetweenReads(w, t)
    ensures var w' := Run(w, ROUND);
      || (w'.drv.result == JobOk && w'.drv.bus.pending.None?)
      || (BetweenReads(w', t) && Rank(EepRead, w'.drv.job) < Rank(EepRead, w.drv.job))
  {
    RunRound(w);
    var s := ProcessJob(w.drv.bus, w.drv.job, true);
    FreeCall(t, w.drv.bus, w.drv.job);
    ProcessKeepsReading(w, t, w.drv.job, true);
    if s.rv == SeqPending {
      RoundSendsRead(w, t, s);
    }
  }

  lemma RoundSendsRead(w: World, t: Task, s: Step)
    requires BetweenReads(w, t) && s == ProcessJob(w.drv.bus, w.drv.job, true) && s.rv == SeqPending
    requires EngineAnswer(w, t, w.drv.job, s) && !s.job.initialOp && s.job.chunkSize == w.drv.job.chunkSize
    requires s.bus.pending.Some? && s.job.currSeq !in s.bus.failed
    ensures var w2 := Next(Next(w, MainFunction(true)), SpiDone(true, 0, []));
      Next(w2, ProgramDone) == w2 && BetweenReads(w2, t) && w2.drv.job == s.job
  {
    FreeAgain(w.(drv := w.drv.(bus := s.bus, job := s.job)), t, s.job);
  }

  lemma {:induction false} ReadsComplete(w: World, t: Task, n: nat)
    requires BetweenReads(w, t) && n > Rank(EepRead, w.drv.job)
    ensures Run(w, Rounds(n)).drv.result == JobOk
    decreases n
  {
    RoundOfRead(w, t);
    OtherReads(w, Run(w, ROUND), t, n);
    OkAfterRound(w, n);
  }

  /** After one of `n` rounds the job is complete or the others complete it. */
  lemma {:induction false} OtherReads(w: World, w1: World, t: Task, n: nat)
    requires w.drv.job.chunkSize > 0 && n > Rank(EepRead, w.drv.job) && Runnable(w1)
    requires
      || (w1.drv.result == JobOk && w1.drv.bus.pending.None?)
      || (BetweenReads(w1, t) && Rank(EepRead, w1.drv.job) < Rank(EepRead, w.drv.job))
    ensures Run(w1, Rounds(n - 1)).drv.result == JobOk
    decreases n, 0
  {
    if w1.drv.result == JobOk {
      EndedStays(w1, Rounds(n - 1));
    } else {
      ReadsComplete(w1, t, n - 1);
    }
  }

  /** An armed read job is ready for its rounds. */
  lemma ArmedForReads(w: World, addr: nat, data: seq<byte>, length: nat)
    requires AtRest(w) && length <= |data| && Admissible(w, addr, length)
    ensures var w1 := Armed(w, EepRead, addr, data, length);
      var t := Task(EepRead, w.drv.cfg.base + addr, length, UserBuffer);
      && ReadBlock(w.drv) > 0 && BetweenReads(w1, t)
      && Rank(EepRead, w1.drv.job) == 3 * Chunks(EepRead, t.start, length, ReadBlock(w.drv), w.drv.job.pageSize)
  {
    ArmedForReading(w, addr, data, length);
  }

  lemma ReadIsStored(w: World, addr: nat, data: seq<byte>, length: nat, es: seq<Event>)
    requires AtRest(w) && length <= |data| && Admissible(w, addr, length)
    requires Run(Armed(w, EepRead, addr, data, length), es).drv.result == JobOk
    ensures var start, w' := w.drv.cfg.base + addr, Run(Armed(w, EepRead, addr, data, length), es);
      w'.dev == w.dev && w'.drv.user == w.dev.mem[start..start + length] + data[length..]
  {
    ReadIsFaithful(w, addr, data, length, es);
    var user := Run(Armed(w, EepRead, addr, data, length), es).drv.user;
    assert user == user[..length] + user[length..];
  }

  /** Every accepted read job is completed by a cooperative environment, in three rounds for each chunk and
      one more, with the bytes of the device. */
  lemma ReadCompletes(w: World, addr: nat, data: seq<byte>, length: nat, n: nat)
    requires AtRest(w) && length <= |data| && Admissible(w, addr, length)
    requires n > 3 * Chunks(EepRead, w.drv.cfg.base + addr, length, ReadBlock(w.drv), w.drv.job.pageSize)
    ensures var start, w' := w.drv.cfg.base + addr, Run(Armed(w, EepRead, addr, data, length), Rounds(n));
      && w'.drv.result == JobOk && w'.dev == w.dev
      && w'.drv.user == w.dev.mem[start..start + length] + data[length..]
  {
    ArmedForReads(w, addr, data, length);
    ReadsComplete(Armed(w, EepRead, addr, data, length), Task(EepRead, w.drv.cfg.base + addr, length, UserBuffer), n);
    ReadIsStored(w, addr, data, length, Rounds(n));
  }
}
