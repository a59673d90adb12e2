/** The same for read jobs: a busy device answers the first read with arbitrary bytes, and the driver
    only then looks at the Write-In-Progress bit. */
module EepBusyRead {
  import opened Common
  import opened EepDevice
  import opened EepDriver
  import opened EepWorld
  import opened EepRead
  import opened EepProgress
  import opened EepBusyStart

  /** A read job whose first byte has been delivered as `b`. */
  ghost predicate Garbled(w: World, t: Task, b: byte) {
    && Runnable(w) && w.drv.result == JobPending && w.drv.jobType == EepRead && !w.dev.wip
    && t.kind == EepRead && t.buffer == UserBuffer && t.start + t.total <= |w.dev.mem|
    && 1 <= t.total <= |w.drv.user| && w.drv.user[0] == b
    && Engine(t, w.drv.bus, w.drv.job) && !w.drv.job.initialOp
    && w.drv.job.currSeq !in w.drv.bus.failed
    && (w.drv.bus.pending == Some(ReadSequence) ==> Moved(t, w.drv.bus, w.drv.job) >= 1)
    && w.drv.job.left < t.total
  }

  ghost predicate GarbledBetween(w: World, t: Task, b: byte) {
    && Garbled(w, t, b) && w.drv.bus.pending.None?
    && (w.drv.job.state == JobReadStatusResult ==> w.drv.bus.status % 2 == 0)
  }

  lemma GarbledCall(w: World, t: Task, b: byte)
    requires GarbledBetween(w, t, b)
    ensures var w' := Next(w, MainFunction(true));
      && w'.dev == w.dev && w'.drv.user == w.drv.user
      && (if w'.drv.result == JobOk then w'.drv.bus.pending.None?
          else Garbled(w', t, b) && w'.drv.bus.pending.Some? && Rank(EepRead, w'.drv.job) < Rank(EepRead, w.drv.job))
  {
    ProcessKeepsEngine(t, w.drv.bus, w.drv.job, true, false);
    SentWhenAccepted(t, w.drv.bus, w.drv.job);
    if ProcessJob(w.drv.bus, w.drv.job, true).rv == SeqPending {
      CallAccounts(t, w.drv.bus, w.drv.job, true);
    }
  }

  /** Later chunks are stored behind the first byte. */
  lemma LaterChunk(w: World, t: Task, b: byte)
    requires Garbled(w, t, b) && w.drv.bus.pending == Some(ReadSequence)
    ensures var w' := CompleteRead(w, true, 0, []);
      && w' == w.(drv := w.drv.(bus := Released(w.drv.bus, ReadSequence, true), user := w'.drv.user))
      && |w'.drv.user| == |w.drv.user| && w'.drv.user[0] == b
  {
    var bus, moved := w.drv.bus, Moved(t, w.drv.bus, w.drv.job);
    var bytes := Received(w.dev, bus.addr % |w.dev.mem|, bus.length, true, []);
    assert Splice(w.drv.user, moved, bytes)[0] == w.drv.user[0];
  }

  lemma GarbledTransfer(w: World, t: Task, b: byte)
    requires Garbled(w, t, b) && w.drv.bus.pending.Some?
    ensures var w' := Next(Next(w, SpiDone(true, 0, [])), ProgramDone);
      GarbledBetween(w', t, b) && w'.drv.job == w.drv.job
  {
    if w.drv.bus.pending.value == Cmd2Sequence {
      StatusSequenceDone(w, t, w.drv.job, true, 0, []);
    } else {
      LaterChunk(w, t, b);
    }
  }

  lemma {:induction false} GarbledRounds(w: World, t: Task, b: byte, n: nat)
    requires GarbledBetween(w, t, b) && n > Rank(EepRead, w.drv.job)
    ensures var w' := Run(w, Rounds(n));
      w'.drv.result == JobOk && |w'.drv.user| > 0 && w'.drv.user[0] == b
    decreases n
  {
    var w1 := Next(w, MainFunction(true));
    GarbledCall(w, t, b);
    RunRound(w);
    RoundsStep(w, n);
    if w1.drv.result == JobOk {
      EndedWorldStays(Run(w, ROUND), Rounds(n - 1));
    } else {
      GarbledTransfer(w1, t, b);
      GarbledRounds(Run(w, ROUND), t, b, n - 1);
    }
  }

  /** The first command of a read job, sent while the device may be busy. */
  lemma FirstReadCommand(w: World, addr: nat, data: seq<byte>, length: nat)
    requires AtRestButBusy(w) && length <= |data| && Admissible(w, addr, length)
    ensures var w' := Next(Armed(w, EepRead, addr, data, length), MainFunction(true));
      var t := Task(EepRead, w.drv.cfg.base + addr, length, UserBuffer);
      && w' == w.(drv := w'.drv) && w'.drv.result == JobPending && w'.drv.jobType == EepRead
      && w'.drv.user == data && Engine(t, w'.drv.bus, w'.drv.job) && !w'.drv.job.initialOp
      && w'.drv.bus.pending == Some(ReadSequence) && w'.drv.job.left < length
      && w'.drv.job.currSeq !in w'.drv.bus.failed && Moved(t, w'.drv.bus, w'.drv.job) == 0
      && w'.drv.bus.length == Min(length, ReadBlock(w.drv))
  {
    var w1 := Armed(w, EepRead, addr, data, length);
    var t := Task(EepRead, w.drv.cfg.base + addr, length, UserBuffer);
    assert Engine(t, w1.drv.bus, w1.drv.job);
    assert w1.drv.bus.(sane := true) == w1.drv.bus;
    InitialAnswers(t, w1.drv.bus, w1.drv.job, true);
    SentWhenAccepted(t, w1.drv.bus, w1.drv.job);
  }

  /** The busy device answers it with noise. */
  lemma FirstBytesLost(w: World, t: Task, noise: seq<byte>)
    requires Runnable(w) && w.dev.wip && w.drv.result == JobPending && w.drv.jobType == EepRead
    requires t.kind == EepRead && t.buffer == UserBuffer && t.start + t.total <= |w.dev.mem| && t.total <= |w.drv.user|
    requires Engine(t, w.drv.bus, w.drv.job) && !w.drv.job.initialOp && w.drv.job.left < t.total
    requires w.drv.bus.pending == Some(ReadSequence) && w.drv.job.currSeq !in w.drv.bus.failed
    requires Moved(t, w.drv.bus, w.drv.job) == 0
    ensures var w' := Next(Next(w, SpiDone(true, 0, noise)), ProgramDone);
      GarbledBetween(w', t, NoiseAt(noise, 0)) && w'.drv.user == Splice(w.drv.user, 0, Noise(noise, w.drv.bus.length))
  {
    assert Splice(w.drv.user, 0, Noise(noise, w.drv.bus.length))[0] == NoiseAt(noise, 0);
  }

  /** A round in which a busy device answers with noise. */
  function NoisyRound(noise: seq<byte>): seq<Event> {
    [MainFunction(true), SpiDone(true, 0, noise), ProgramDone]
  }

  lemma RunThree(w: World, es: seq<Event>)
    requires Runnable(w) && |es| == 3
    ensures Run(w, es) == Next(Next(Next(w, es[0]), es[1]), es[2])
  {
    assert es[1..][0] == es[1] && es[1..][1..][0] == es[2] && es[1..][1..][1..] == [];
    var w1 := Next(w, es[0]);
    assert Run(w, es) == Run(w1, es[1..]);
    assert Run(w1, es[1..]) == Run(Next(w1, es[1]), es[1..][1..]);
  }

  /** Whatever the device delivers ends up in the caller's buffer as the first chunk. */
  lemma FirstReadGarbled(w: World, addr: nat, data: seq<byte>, length: nat, noise: seq<byte>)
    requires AtRestButBusy(w) && length <= |data| && Admissible(w, addr, length) && w.dev.wip
    ensures Min(length, ReadBlock(w.drv)) <= |data|
    ensures var w' := Run(Armed(w, EepRead, addr, data, length), NoisyRound(noise));
      && GarbledBetween(w', Task(EepRead, w.drv.cfg.base + addr, length, UserBuffer), NoiseAt(noise, 0))
      && w'.drv.user == Splice(data, 0, Noise(noise, Min(length, ReadBlock(w.drv))))
  {
    var w1 := Armed(w, EepRead, addr, data, length);
    FirstReadCommand(w, addr, data, length);
    FirstBytesLost(Next(w1, MainFunction(true)), Task(EepRead, w.drv.cfg.base + addr, length, UserBuffer), noise);
    RunThree(w1, NoisyRound(noise));
  }

  /** If a run of a job succeeds, the buffer holds the range. */
  predicate ReadBy(w: World, addr: nat, data: seq<byte>, length: nat, es: seq<Event>)
    requires AtRestButBusy(w)
  {
    var start, w' := w.drv.cfg.base + addr, Run(Armed(w, EepRead, addr, data, length), es);
    w'.drv.result == JobOk ==>
      && length <= |w'.drv.user| && start + length <= |w.dev.mem|
      && w'.drv.user[..length] == w.dev.mem[start..start + length]
  }

  /** The promise that success means read bytes, for all buffers and all runs of a job. */
  ghost predicate SuccessMeansRead(w: World, addr: nat, length: nat)
    requires AtRestButBusy(w)
  {
    forall data: seq<byte>, es: seq<Event> | length <= |data| :: ReadBy(w, addr, data, length, es)
  }

  /** A read job on a busy device that succeeds with a wrong first byte. */
  lemma BusyReadFails(w: World, addr: nat, data: seq<byte>, length: nat) returns (es: seq<Event>)
    requires AtRestButBusy(w) && length <= |data| && Admissible(w, addr, length) && w.dev.wip
    ensures var w' := Run(Armed(w, EepRead, addr, data, length), es);
      w'.drv.result == JobOk && |w'.drv.user| > 0 && w'.drv.user[0] != w.dev.mem[w.drv.cfg.base + addr]
  {
    var start := w.drv.cfg.base + addr;
    var b: byte := if w.dev.mem[start] == 0 then 1 else 0;
    var w1 := Armed(w, EepRead, addr, data, length);
    FirstReadGarbled(w, addr, data, length, [b]);
    var w2 := Run(w1, NoisyRound([b]));
    var n := Rank(EepRead, w2.drv.job) + 1;
    GarbledRounds(w2, Task(EepRead, start, length, UserBuffer), b, n);
    RunAppend(w1, NoisyRound([b]), Rounds(n));
    es := NoisyRound([b]) + Rounds(n);
  }

  lemma BusyReadIsWrong(w: World, addr: nat, data: seq<byte>, length: nat) returns (es: seq<Event>)
    requires AtRestButBusy(w) && length <= |data| && Admissible(w, addr, length) && w.dev.wip
    ensures !ReadBy(w, addr, data, length, es)
  {
    var start := w.drv.cfg.base + addr;
    es := BusyReadFails(w, addr, data, length);
    var user := Run(Armed(w, EepRead, addr, data, length), es).drv.user;
    assert length <= |user| ==> user[..length][0] != w.dev.mem[start..start + length][0];
  }

  /** The driver keeps that promise exactly if the device is idle when the job starts. */
  lemma IdleReadExactly(w: World, addr: nat, length: nat)
    requires AtRestButBusy(w) && Admissible(w, addr, length)
    ensures SuccessMeansRead(w, addr, length) <==> !w.dev.wip
  {
    if w.dev.wip {
      var data: seq<byte> := seq(length, _ => 0);
      var es := BusyReadIsWrong(w, addr, data, length);
    } else {
      forall data: seq<byte>, es: seq<Event> | length <= |data|
        ensures ReadBy(w, addr, data, length, es)
      {
        assert w.(dev := w.dev.(wip := false)) == w;
        ReadIsFaithful(w, addr, data, length, es);
      }
    }
  }
}
