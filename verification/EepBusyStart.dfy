/** Why a job must start on an idle device: the driver looks at the Write-In-Progress bit after a
    command, never before the first one, and a failed job can leave the device programming. */
module EepBusyStart {
  import opened Arith
  import opened Common
  import opened EepDevice
  import opened EepDriver
  import opened EepWorld
  import opened EepWrite
  import opened EepProgress

  /** A world as for a new job, except that the device may still be programming. */
  predicate AtRestButBusy(w: World) {
    AtRest(w.(dev := w.dev.(wip := false)))
  }

  /** Rewriting the bytes that are there changes nothing. */
  lemma SameBytesWritten(mem: seq<byte>, page: nat, a: nat, data: seq<byte>)
    requires page > 0 && |mem| % page == 0 && a < |mem| && |data| <= page - a % page
    requires a + |data| <= |mem| && data == mem[a..a + |data|]
    ensures Program(mem, page, a, data) == mem
  {
    ProgramWithinPage(mem, page, a, data);
    assert mem == mem[..a] + mem[a..a + |data|] + mem[a + |data|..];
  }

  lemma SamePart(user: seq<byte>, mem: seq<byte>, start: nat, total: nat, moved: nat, n: nat)
    requires 1 <= total <= |user| && start + total <= |mem| && 1 <= moved && moved + n <= total
    requires user[1..total] == mem[start + 1..start + total]
    ensures user[moved..moved + n] == mem[start + moved..start + moved + n]
  {
    forall k | moved <= k < moved + n
      ensures user[k] == mem[start + k]
    {
      assert user[1..total][k - 1] == mem[start + 1..start + total][k - 1];
    }
  }

  /** A write job whose first byte was lost and whose other bytes are already on the device. */
  ghost predicate Stale(w: World, mem: seq<byte>, t: Task) {
    && Runnable(w) && w.drv.result == JobPending && w.drv.jobType == EepWrite
    && w.dev.mem == mem && t.start + t.total <= |mem| && t.kind == EepWrite && t.buffer == UserBuffer
    && 1 <= t.total <= |w.drv.user| && w.drv.user[1..t.total] == mem[t.start + 1..t.start + t.total]
    && Engine(t, w.drv.bus, w.drv.job) && w.drv.job.pageSize == w.dev.page && !w.drv.job.initialOp
    && w.drv.job.currSeq !in w.drv.bus.failed
    && (w.drv.bus.pending == Some(WriteSequence) ==> Moved(t, w.drv.bus, w.drv.job) >= 1)
    && w.drv.job.left < t.total && !w.dev.wip
  }

  ghost predicate StaleBetween(w: World, mem: seq<byte>, t: Task) {
    && Stale(w, mem, t) && w.drv.bus.pending.None?
    && (w.drv.job.state == JobReadStatusResult ==> w.drv.bus.status % 2 == 0)
  }

  lemma StaleCall(w: World, mem: seq<byte>, t: Task)
    requires StaleBetween(w, mem, t)
    ensures var w' := Next(w, MainFunction(true));
      && w'.dev == w.dev
      && (if w'.drv.result == JobOk then w'.drv.bus.pending.None?
          else Stale(w', mem, t) && w'.drv.bus.pending.Some? && Rank(EepWrite, w'.drv.job) < Rank(EepWrite, w.drv.job))
  {
    ProcessKeepsEngine(t, w.drv.bus, w.drv.job, true, false);
    SentWhenAccepted(t, w.drv.bus, w.drv.job);
    if ProcessJob(w.drv.bus, w.drv.job, true).rv == SeqPending {
      CallAccounts(t, w.drv.bus, w.drv.job, true);
    }
  }

  /** The end of a write sequence rewrites what is there. */
  lemma StaleWriteDone(w: World, mem: seq<byte>, t: Task)
    requires Stale(w, mem, t) && w.drv.bus.pending == Some(WriteSequence)
    ensures CompleteWrite(w, true, 0)
         == World(w.drv.(bus := Released(w.drv.bus, WriteSequence, true)), w.dev.(wip := true))
  {
    var bus, moved, n := w.drv.bus, Moved(t, w.drv.bus, w.drv.job), w.drv.bus.length;
    ModSmall(bus.addr, |mem|);
    var data := w.drv.user[moved..moved + n];
    SamePart(w.drv.user, mem, t.start, t.total, moved, n);
    SameBytesWritten(mem, w.dev.page, bus.addr, data);
    assert Fetch(w.drv, bus.tx, n) == Some(data) && data[..n] == data;
  }

  lemma StaleTransfer(w: World, mem: seq<byte>, t: Task)
    requires Stale(w, mem, t) && w.drv.bus.pending.Some?
    ensures var w' := Next(Next(w, SpiDone(true, 0, [])), ProgramDone);
      StaleBetween(w', mem, t) && w'.drv.job == w.drv.job
  {
    if w.drv.bus.pending.value == Cmd2Sequence {
      StatusSequenceDone(w, t, w.drv.job, true, 0, []);
    } else {
      StaleWriteDone(w, mem, t);
    }
  }

  lemma {:induction false} StaleRounds(w: World, mem: seq<byte>, t: Task, n: nat)
    requires StaleBetween(w, mem, t) && n > Rank(EepWrite, w.drv.job)
    ensures Run(w, Rounds(n)).drv.result == JobOk && Run(w, Rounds(n)).dev.mem == mem
    decreases n
  {
    var w1 := Next(w, MainFunction(true));
    StaleCall(w, mem, t);
    RunRound(w);
    RoundsStep(w, n);
    if w1.drv.result == JobOk {
      EndedWorldStays(Run(w, ROUND), Rounds(n - 1));
    } else {
      StaleTransfer(w1, mem, t);
      StaleRounds(Run(w, ROUND), mem, t, n - 1);
    }
  }

  lemma {:induction false} EndedWorldStays(w: World, es: seq<Event>)
    requires Runnable(w) && w.drv.result != JobPending && w.drv.bus.pending.None?
    ensures Run(w, es).drv == w.drv && Run(w, es).dev.mem == w.dev.mem
    decreases |es|
  {
    if es != [] {
      EndedWorldStays(Next(w, es[0]), es[1..]);
    }
  }

  /** The first command of a job, sent while the device may be busy. */
  lemma FirstCommand(w: World, addr: nat, data: seq<byte>, length: nat)
    requires AtRestButBusy(w) && length <= |data| && Admissible(w, addr, length)
    ensures var w' := Next(Armed(w, EepWrite, addr, data, length), MainFunction(true));
      var t := Task(EepWrite, w.drv.cfg.base + addr, length, UserBuffer);
      && w' == w.(drv := w'.drv) && w'.drv.result == JobPending && w'.drv.jobType == EepWrite
      && w'.drv.user == data && w'.drv.cfg == w.drv.cfg && w'.drv.compare == w.drv.compare
      && Engine(t, w'.drv.bus, w'.drv.job) && w'.drv.job.pageSize == w.dev.page && !w'.drv.job.initialOp
      && w'.drv.bus.pending == Some(WriteSequence) && w'.drv.job.left < length
      && w'.drv.job.currSeq !in w'.drv.bus.failed && w'.drv.readJob == w.drv.readJob
  {
    var w1 := Armed(w, EepWrite, addr, data, length);
    var t := Task(EepWrite, w.drv.cfg.base + addr, length, UserBuffer);
    assert Engine(t, w1.drv.bus, w1.drv.job);
    assert w1.drv.bus.(sane := true) == w1.drv.bus;
    InitialAnswers(t, w1.drv.bus, w1.drv.job, true);
    SentWhenAccepted(t, w1.drv.bus, w1.drv.job);
  }

  /** A busy device ignores it. */
  lemma FirstRoundLost(w: World, addr: nat, data: seq<byte>, length: nat)
    requires AtRestButBusy(w) && w.dev.wip && length <= |data| && Admissible(w, addr, length)
    requires var start := w.drv.cfg.base + addr; data[1..length] == w.dev.mem[start + 1..start + length]
    ensures StaleBetween(Run(Armed(w, EepWrite, addr, data, length), ROUND), w.dev.mem,
                         Task(EepWrite, w.drv.cfg.base + addr, length, UserBuffer))
  {
    var w1 := Armed(w, EepWrite, addr, data, length);
    FirstIsAboutToBeLost(w, addr, data, length);
    RunRound(w1);
    LostWrite(Next(w1, MainFunction(true)), w.dev.mem, Task(EepWrite, w.drv.cfg.base + addr, length, UserBuffer));
  }

  /** The first command of a job whose other bytes are on the device is outstanding, and the device is busy. */
  predicate AboutToLose(w: World, mem: seq<byte>, t: Task) {
    && w.dev.wip && w.drv.bus.pending == Some(WriteSequence) && 1 <= t.total
    && Runnable(w) && w.drv.result == JobPending && w.drv.jobType == EepWrite
    && w.dev.mem == mem && t.start + t.total <= |mem| && t.kind == EepWrite && t.buffer == UserBuffer
    && t.total <= |w.drv.user| && w.drv.user[1..t.total] == mem[t.start + 1..t.start + t.total]
    && Engine(t, w.drv.bus, w.drv.job) && w.drv.job.pageSize == w.dev.page && !w.drv.job.initialOp
    && w.drv.job.currSeq !in w.drv.bus.failed && w.drv.job.left < t.total
  }

  lemma FirstIsAboutToBeLost(w: World, addr: nat, data: seq<byte>, length: nat)
    requires AtRestButBusy(w) && w.dev.wip && length <= |data| && Admissible(w, addr, length)
    requires var start := w.drv.cfg.base + addr; data[1..length] == w.dev.mem[start + 1..start + length]
    ensures AboutToLose(Next(Armed(w, EepWrite, addr, data, length), MainFunction(true)), w.dev.mem,
                        Task(EepWrite, w.drv.cfg.base + addr, length, UserBuffer))
  {
    FirstCommand(w, addr, data, length);
  }

  lemma LostWrite(w: World, mem: seq<byte>, t: Task)
    requires AboutToLose(w, mem, t)
    ensures StaleBetween(Next(Next(w, SpiDone(true, 0, [])), ProgramDone), mem, t)
  {
    assert Fetch(w.drv, w.drv.bus.tx, w.drv.bus.length).Some?;
    assert Next(w, SpiDone(true, 0, [])) == w.(drv := w.drv.(bus := Released(w.drv.bus, WriteSequence, true)));
  }

  /** The promise that success means stored bytes, for all data and all runs of a job. */
  ghost predicate SuccessMeansStored(w: World, addr: nat, length: nat)
    requires AtRestButBusy(w)
  {
    forall data: seq<byte>, es: seq<Event> | length <= |data| && w.drv.cfg.base + addr + length <= |w.dev.mem| ::
      var w' := Run(Armed(w, EepWrite, addr, data, length), es);
      w'.drv.result == JobOk ==> w'.dev.mem == Splice(w.dev.mem, w.drv.cfg.base + addr, data[..length])
  }

  /** A job for a busy device that succeeds without storing its data: they differ from the memory in
      their first byte only. */
  lemma BusyStartFails(w: World, addr: nat, length: nat) returns (data: seq<byte>, es: seq<Event>)
    requires AtRestButBusy(w) && Admissible(w, addr, length) && w.dev.wip
    ensures length <= |data|
    ensures var w' := Run(Armed(w, EepWrite, addr, data, length), es);
      w'.drv.result == JobOk && w'.dev.mem != Splice(w.dev.mem, w.drv.cfg.base + addr, data[..length])
  {
    data := OtherFirst(w.dev.mem, w.drv.cfg.base + addr, length);
    es := LostJobCompletes(w, addr, data, length);
  }

  lemma OtherFirst(mem: seq<byte>, start: nat, length: nat) returns (data: seq<byte>)
    requires 1 <= length && start + length <= |mem|
    ensures |data| == length && data[1..length] == mem[start + 1..start + length]
    ensures Splice(mem, start, data[..length]) != mem
  {
    var b: byte := if mem[start] == 0 then 1 else 0;
    data := [b] + mem[start + 1..start + length];
    assert data[..length] == data && Splice(mem, start, data)[start] == b;
  }

  lemma LostJobCompletes(w: World, addr: nat, data: seq<byte>, length: nat) returns (es: seq<Event>)
    requires AtRestButBusy(w) && w.dev.wip && length <= |data| && Admissible(w, addr, length)
    requires var start := w.drv.cfg.base + addr; data[1..length] == w.dev.mem[start + 1..start + length]
    ensures var w' := Run(Armed(w, EepWrite, addr, data, length), es);
      w'.drv.result == JobOk && w'.dev.mem == w.dev.mem
  {
    FirstRoundLost(w, addr, data, length);
    var w1 := Armed(w, EepWrite, addr, data, length);
    var w2 := Run(w1, ROUND);
    var n := Rank(EepWrite, w2.drv.job) + 1;
    StaleRounds(w2, w.dev.mem, Task(EepWrite, w.drv.cfg.base + addr, length, UserBuffer), n);
    RoundsStep(w1, n + 1);
    es := Rounds(n + 1);
  }

  /** The driver keeps that promise exactly if the device is idle when the job starts. */
  lemma IdleStartExactly(w: World, addr: nat, length: nat)
    requires AtRestButBusy(w) && Admissible(w, addr, length)
    ensures SuccessMeansStored(w, addr, length) <==> !w.dev.wip
  {
    var start := w.drv.cfg.base + addr;
    if w.dev.wip {
      var data, es := BusyStartFails(w, addr, length);
      assert Run(Armed(w, EepWrite, addr, data, length), es).drv.result == JobOk;
    } else {
      forall data: seq<byte>, es: seq<Event> | length <= |data|
        ensures var w' := Run(Armed(w, EepWrite, addr, data, length), es);
          w'.drv.result == JobOk ==> w'.dev.mem == Splice(w.dev.mem, start, data[..length])
      {
        assert w.(dev := w.dev.(wip := false)) == w;
        WriteIsFaithful(w, addr, data, length, es);
      }
    }
  }

  /** And a device that is busy is what a job leaves whose status query failed. */
  const FAILING: seq<Event> :=
    [MainFunction(true), SpiDone(true, 0, []), MainFunction(true), SpiDone(false, 0, []), MainFunction(true)]

  lemma RunFive(w: World)
    requires Runnable(w)
    ensures Run(w, FAILING)
         == Next(Next(Next(Next(Next(w, FAILING[0]), FAILING[1]), FAILING[2]), FAILING[3]), FAILING[4])
  {
    var es := FAILING;
    assert es[1..][1..] == es[2..] && es[2..][1..] == es[3..] && es[3..][1..] == es[4..] && es[4..][1..] == [];
    var w2 := Next(Next(w, es[0]), es[1]);
    assert Run(w, es) == Run(w2, es[2..]);
    var w4 := Next(Next(w2, es[2]), es[3]);
    assert Run(w2, es[2..]) == Run(w4, es[4..]);
    assert Run(Next(w4, es[4]), []) == Next(w4, es[4]);
  }

  lemma FailedJobLeavesBusyDevice(w: World, addr: nat, data: seq<byte>, length: nat)
    requires AtRest(w) && length <= |data| && Admissible(w, addr, length)
    ensures var w' := Run(Armed(w, EepWrite, addr, data, length), FAILING);
      w'.drv.result == JobFailed && w'.drv.status == Idle && w'.dev.wip && AtRestButBusy(w')
  {
    var w1 := Armed(w, EepWrite, addr, data, length);
    var t := Task(EepWrite, w.drv.cfg.base + addr, length, UserBuffer);
    RunFive(w1);
    FirstCommand(w, addr, data, length);
    ArmedForWriting(w, addr, data, length);
    var w2 := Next(w1, FAILING[0]);
    EventKeepsOutcome(w1, w, t, data, FAILING[0]);
    WriteSequenceDone(w2, w, t, data, true, 0);
    EventKeepsOutcome(w2, w, t, data, FAILING[1]);
    QueryFails(Next(w2, FAILING[1]), w, t, data);
  }

  lemma QueryFails(w3: World, w: World, t: Task, data: seq<byte>)
    requires Runnable(w3) && WriteOutcome(w3, w, t, data) && w3.drv.result == JobPending && w3.dev.wip
    requires w3.drv.bus.pending.None? && w3.drv.job.state == JobReadStatus
    requires !w3.drv.job.initialOp && w3.drv.job.currSeq !in w3.drv.bus.failed
    ensures var w' := Next(Next(Next(w3, FAILING[2]), FAILING[3]), FAILING[4]);
      w'.drv.result == JobFailed && w'.drv.status == Idle && w'.dev.wip && AtRestButBusy(w')
  {
    var w4 := Next(w3, FAILING[2]);
    assert w4.drv.bus.pending == Some(Cmd2Sequence) && w4.drv.job.currSeq == Cmd2Sequence;
    EventKeepsOutcome(w3, w, t, data, FAILING[2]);
    StatusSequenceDone(w4, t, w4.drv.job, false, 0, []);
    EventKeepsOutcome(w4, w, t, data, FAILING[3]);
    EventKeepsOutcome(Next(w4, FAILING[3]), w, t, data, FAILING[4]);
  }
}
