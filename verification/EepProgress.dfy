/** How many commands a write job sends, how long it can take, and that it can always finish. */
module EepProgress {
  import opened Arith
  import opened Common
  import opened EepDevice
  import opened EepDriver
  import opened EepWorld
  import opened EepWrite
  import opened EepRead

  /** Main operations needed for `left` bytes at `addr`. */
  function Chunks(kind: JobType, addr: nat, left: nat, chunkSize: nat, pageSize: nat): (n: nat)
    requires chunkSize > 0 && (kind == EepWrite ==> pageSize > 0)
    decreases left
  {
    if left == 0 then 0
    else
      var n := ChunkOf(kind, addr, left, chunkSize, pageSize);
      1 + Chunks(kind, addr + n, left - n, chunkSize, pageSize)
  }

  /** Page boundaries strictly inside [addr, addr + left). */
  function Boundaries(addr: nat, left: nat, pageSize: nat): (n: int)
    requires pageSize > 0 && left > 0
  {
    (addr + left - 1) / pageSize - addr / pageSize
  }

  lemma DivMono(a: nat, b: nat, p: nat)
    requires p > 0 && a <= b
    ensures a / p <= b / p
  {
    if b / p < a / p {
      MulMono(b / p + 1, a / p, p);
    }
  }

  /** Stepping to the start of the next page passes exactly one boundary. */
  lemma NextPage(addr: nat, p: nat)
    requires p > 0
    ensures (addr + (p - addr % p)) / p == addr / p + 1
  {
    DivModUnique(addr + (p - addr % p), p, addr / p + 1, 0);
  }

  /** Every chunk is a full block, ends at a page boundary inside the range, or is the last. */
  lemma {:induction false} ChunkBound(addr: nat, left: nat, c: nat, p: nat)
    requires c > 0 && p > 0 && left > 0
    ensures Chunks(EepWrite, addr, left, c, p) <= left / c + Boundaries(addr, left, p) + 1
    decreases left
  {
    var n := ChunkOf(EepWrite, addr, left, c, p);
    DivMono(addr, addr + left - 1, p);
    if n == left {
      assert left / c >= 0;
      assert Chunks(EepWrite, addr + n, 0, c, p) == 0;
    } else {
      ChunkBound(addr + n, left - n, c, p);
      if n == c {
        ModAdd(left, -1, c);
        DivMono(addr, addr + n, p);
      } else {
        NextPage(addr, p);
        DivMono(left - n, left, c);
      }
    }
  }

  // ---------------------------------------------------------------- the commands of a job

  /** The commands that move `left` bytes at `addr`. */
  function Tiles(kind: JobType, addr: nat, left: nat, chunkSize: nat, pageSize: nat): (r: seq<Command>)
    requires chunkSize > 0 && (kind == EepWrite ==> pageSize > 0)
    ensures |r| == Chunks(kind, addr, left, chunkSize, pageSize)
    decreases left
  {
    if left == 0 then []
    else
      var n := ChunkOf(kind, addr, left, chunkSize, pageSize);
      [Command(MainSequence(kind), addr, n)] + Tiles(kind, addr + n, left - n, chunkSize, pageSize)
  }

  /** The commands cover [addr, addr + n) from left to right: every byte is moved by exactly one. */
  predicate Tile(cs: seq<Command>, s: Sequence, addr: nat, n: nat) {
    if cs == [] then n == 0
    else
      && cs[0].sequence == s && cs[0].addr == addr && 0 < cs[0].length <= n
      && Tile(cs[1..], s, addr + cs[0].length, n - cs[0].length)
  }

  /** How many of the commands move the byte at `a`. */
  function Movers(cs: seq<Command>, a: nat): nat {
    if cs == [] then 0
    else (if cs[0].addr <= a < cs[0].addr + cs[0].length then 1 else 0) + Movers(cs[1..], a)
  }

  lemma {:induction false} TilesTile(kind: JobType, addr: nat, left: nat, chunkSize: nat, pageSize: nat)
    requires chunkSize > 0 && (kind == EepWrite ==> pageSize > 0)
    ensures Tile(Tiles(kind, addr, left, chunkSize, pageSize), MainSequence(kind), addr, left)
    decreases left
  {
    if left > 0 {
      var n := ChunkOf(kind, addr, left, chunkSize, pageSize);
      TilesTile(kind, addr + n, left - n, chunkSize, pageSize);
    }
  }

  /** Tiling means that each byte of the range is moved once and no other byte is moved. */
  lemma {:induction false} TileMovesOnce(cs: seq<Command>, s: Sequence, addr: nat, n: nat, a: nat)
    requires Tile(cs, s, addr, n)
    ensures Movers(cs, a) == if addr <= a < addr + n then 1 else 0
    decreases |cs|
  {
    if cs != [] {
      TileMovesOnce(cs[1..], s, addr + cs[0].length, n - cs[0].length, a);
    }
  }

  predicate Begins(a: seq<Command>, b: seq<Command>) {
    |a| <= |b| && a == b[..|a|]
  }

  // ---------------------------------------------------------------- accounting

  function StateRank(s: JobState): nat {
    match s case JobMain => 0 case JobReadStatusResult => 1 case JobReadStatus => 2
  }

  /** An upper bound on the useful calls still needed for a job of the given kind. */
  function Rank(kind: JobType, job: JobInfo): nat
    requires job.chunkSize > 0 && (kind == EepWrite ==> job.pageSize > 0)
  {
    3 * ChunksLeft(kind, job) + StateRank(job.state)
  }

  function ChunksLeft(kind: JobType, job: JobInfo): nat
    requires job.chunkSize > 0 && (kind == EepWrite ==> job.pageSize > 0)
  {
    Chunks(kind, job.eepAddr, job.left, job.chunkSize, job.pageSize)
  }

  function TilesLeft(kind: JobType, job: JobInfo): seq<Command>
    requires job.chunkSize > 0 && (kind == EepWrite ==> job.pageSize > 0)
  {
    Tiles(kind, job.eepAddr, job.left, job.chunkSize, job.pageSize)
  }

  /** A call that finds the SPI handler free. */
  predicate Effective(w: World, e: Event) {
    e.MainFunction? && w.drv.result == JobPending && w.drv.bus.pending.None?
  }

  /** Such a call is useful unless the transmit is refused or the device is still programming. */
  predicate Useful(w: World, e: Event) {
    && Effective(w, e) && e.accept
    && !(w.drv.job.state == JobReadStatusResult && w.drv.bus.status % 2 == 1)
  }

  function UsefulCalls(w: World, es: seq<Event>): nat
    requires Runnable(w)
    decreases |es|
  {
    if es == [] then 0 else (if Useful(w, es[0]) then 1 else 0) + UsefulCalls(Next(w, es[0]), es[1..])
  }

  function WastedCalls(w: World, es: seq<Event>): nat
    requires Runnable(w)
    decreases |es|
  {
    if es == [] then 0
    else (if Effective(w, es[0]) && !Useful(w, es[0]) then 1 else 0) + WastedCalls(Next(w, es[0]), es[1..])
  }

  /** The JOB_MAIN case sends the next command or nothing. */
  lemma MainAccounts(t: Task, bus: Bus, job: JobInfo, accept: bool)
    requires Engine(t, bus, job) && job.state == JobMain && job.left > 0
    ensures var s := StepMain(bus, job, accept);
      && s.job.chunkSize == job.chunkSize && s.job.pageSize == job.pageSize
      && s.bus.sent + TilesLeft(t.kind, s.job) == bus.sent + TilesLeft(t.kind, job)
      && (accept ==> Rank(t.kind, s.job) + 1 == Rank(t.kind, job))
      && (!accept ==> s.job.state == JobMain && Rank(t.kind, s.job) == Rank(t.kind, job))
  {
    ModSmall(job.eepAddr, 0x1_0000);
    var s := StepMain(bus, job, accept);
    if accept {
      var first := Command(MainSequence(t.kind), job.eepAddr, s.bus.length);
      assert s.bus.sent == bus.sent + [first];
      assert TilesLeft(t.kind, job) == [first] + TilesLeft(t.kind, s.job);
      assert bus.sent + ([first] + TilesLeft(t.kind, s.job)) == bus.sent + [first] + TilesLeft(t.kind, s.job);
    }
  }

  /** One effective call: a useful one lowers the rank, a wasted one raises it by at most one, and the
      commands sent followed by those left are always the same. */
  lemma CallAccounts(t: Task, bus: Bus, job: JobInfo, accept: bool)
    requires Engine(t, bus, job) && bus.pending.None?
    requires ProcessJob(bus, job, accept).rv == SeqPending
    ensures var s := ProcessJob(bus, job, accept);
      && s.job.chunkSize == job.chunkSize && s.job.pageSize == job.pageSize
      && s.bus.sent + TilesLeft(t.kind, s.job) == bus.sent + TilesLeft(t.kind, job)
      && (if accept && !(job.state == JobReadStatusResult && bus.status % 2 == 1)
          then Rank(t.kind, s.job) + 1 <= Rank(t.kind, job) else Rank(t.kind, s.job) <= Rank(t.kind, job) + 1)
  {
    var job0 := job.(initialOp := false);
    if job.initialOp {
      assert bus.(sane := true) == bus;
      assert ProcessJob(bus, job, accept) == StepMain(bus, job0, accept);
      MainAccounts(t, bus, job0, accept);
    } else {
      match job.state
      case JobMain => MainAccounts(t, bus, job, accept);
      case JobReadStatus =>
      case JobReadStatusResult =>
        var job1 := StepStatusResult(bus, job).job;
        assert LoopJob(bus, job, accept) == LoopJob(bus, job1, accept) == StepJob(bus, job1, accept);
        if job1.state == JobMain { MainAccounts(t, bus, job1, accept); }
    }
  }

  /** What one event does to commands sent, commands left and rank. */
  predicate Accounted(kind: JobType, w: World, e: Event, w': World)
    requires w.drv.job.chunkSize > 0 && (kind == EepWrite ==> w.drv.job.pageSize > 0)
  {
    match w'.drv.result
    case JobPending =>
      && w'.drv.job.chunkSize > 0 && (kind == EepWrite ==> w'.drv.job.pageSize > 0)
      && w'.drv.bus.sent + TilesLeft(kind, w'.drv.job) == w.drv.bus.sent + TilesLeft(kind, w.drv.job)
      && Rank(kind, w'.drv.job) + (if Useful(w, e) then 1 else 0)
           <= Rank(kind, w.drv.job) + if Effective(w, e) && !Useful(w, e) then 1 else 0
    case JobOk => w'.drv.bus.sent == w.drv.bus.sent + TilesLeft(kind, w.drv.job)
    case JobFailed => w'.drv.bus.sent == w.drv.bus.sent
    case JobCanceled => false
  }

  /** A read or write job in progress. */
  predicate Moving(w: World, t: Task) {
    && Runnable(w) && w.drv.result == JobPending && w.drv.jobType == t.kind && t.kind in {EepRead, EepWrite}
    && Engine(t, w.drv.bus, w.drv.job) && Quiet(w.drv.bus, w.drv.job, w.dev.wip)
  }

  lemma CallAccounted(w: World, t: Task, accept: bool)
    requires Moving(w, t)
    ensures Accounted(t.kind, w, MainFunction(accept), Next(w, MainFunction(accept)))
  {
    var s := ProcessJob(w.drv.bus, w.drv.job, accept);
    if w.drv.bus.pending.Some? {
      OwnedBuffersUntouched(t, w.drv.bus, w.drv.job, accept);
    } else if s.rv == SeqPending {
      CallAccounts(t, w.drv.bus, w.drv.job, accept);
    } else {
      ProcessKeepsEngine(t, w.drv.bus, w.drv.job, accept, w.dev.wip);
    }
  }

  lemma EventAccounts(w: World, t: Task, e: Event)
    requires Moving(w, t)
    ensures Accounted(t.kind, w, e, Next(w, e))
  {
    if e.MainFunction? {
      CallAccounted(w, t, e.accept);
    }
  }

  /** Accounts of a run: commands are sent in order and none twice, all of them on success. */
  predicate RunAccounted(kind: JobType, w: World, es: seq<Event>)
    requires Runnable(w) && w.drv.job.chunkSize > 0 && (kind == EepWrite ==> w.drv.job.pageSize > 0)
  {
    var sent, all := Run(w, es).drv.bus.sent, w.drv.bus.sent + TilesLeft(kind, w.drv.job);
    && Begins(sent, all)
    && (Run(w, es).drv.result == JobOk ==> sent == all)
    && (Run(w, es).drv.result == JobPending ==> UsefulCalls(w, es) <= Rank(kind, w.drv.job) + WastedCalls(w, es))
  }

  lemma AccountsBegin(sent: seq<Command>, left: seq<Command>)
    ensures Begins(sent, sent + left)
  {
  }

  /** One event in front of a run. */
  lemma AccountsExtend(t: Task, w: World, es: seq<Event>)
    requires Moving(w, t) && es != [] && Accounted(t.kind, w, es[0], Next(w, es[0]))
    requires var w1 := Next(w, es[0]);
      if w1.drv.result == JobPending
      then w1.drv.job.chunkSize > 0 && (t.kind == EepWrite ==> w1.drv.job.pageSize > 0) && RunAccounted(t.kind, w1, es[1..])
      else w1.drv.bus.pending.None?
    ensures RunAccounted(t.kind, w, es)
  {
    var w1 := Next(w, es[0]);
    if w1.drv.result != JobPending {
      EndedStays(w1, es[1..]);
      AccountsBegin(w.drv.bus.sent, TilesLeft(t.kind, w.drv.job));
    }
  }

  lemma {:induction false} WriteRunAccounts(w: World, w0: World, t: Task, src: seq<byte>, es: seq<Event>)
    requires Writing(w, w0, t, src) && w.drv.result == JobPending
    ensures RunAccounted(EepWrite, w, es)
    decreases |es|
  {
    if es == [] {
      AccountsBegin(w.drv.bus.sent, TilesLeft(EepWrite, w.drv.job));
    } else {
      EventAccounts(w, t, es[0]);
      EventKeepsOutcome(w, w0, t, src, es[0]);
      if Next(w, es[0]).drv.result == JobPending {
        WriteRunAccounts(Next(w, es[0]), w0, t, src, es[1..]);
      }
      AccountsExtend(t, w, es);
    }
  }

  lemma {:induction false} ReadRunAccounts(w: World, w0: World, t: Task, buf0: seq<byte>, es: seq<Event>)
    requires ReadOutcome(w, w0, t, buf0) && w.drv.result == JobPending && t.kind == EepRead
    ensures RunAccounted(EepRead, w, es)
    decreases |es|
  {
    if es == [] {
      AccountsBegin(w.drv.bus.sent, TilesLeft(EepRead, w.drv.job));
    } else {
      EventAccounts(w, t, es[0]);
      EventKeepsReadOutcome(w, w0, t, buf0, es[0]);
      if Next(w, es[0]).drv.result == JobPending {
        ReadRunAccounts(Next(w, es[0]), w0, t, buf0, es[1..]);
      }
      AccountsExtend(t, w, es);
    }
  }

  /** The block sizes that Eep_Write, and Eep_Read and Eep_Compare, pick. */
  function WriteBlock(d: Driver): nat {
    if d.mode == Fast then d.cfg.fastWrite else d.cfg.normalWrite
  }

  function ReadBlock(d: Driver): nat {
    if d.mode == Fast then d.cfg.fastRead else d.cfg.normalRead
  }

  /** Every run of a write job sends its commands in order and none twice: at most
      `length / block + boundaries + 1`, all of them on success, and together they write each byte of
      the range once.  A job that is still pending has had at most three useful calls per command more
      than it had calls wasted on refusals and on a busy device. */
  lemma WriteIsBounded(w: World, addr: nat, data: seq<byte>, length: nat, es: seq<Event>)
    requires AtRest(w) && length <= |data| && Admissible(w, addr, length)
    ensures var w1 := Armed(w, EepWrite, addr, data, length);
      var w' := Run(w1, es);
      var start, c, p := w.drv.cfg.base + addr, WriteBlock(w.drv), w.dev.page;
      && c > 0 && length > 0
      && var tiles := Tiles(EepWrite, start, length, c, p);
         && Tile(tiles, WriteSequence, start, length)
         && |tiles| <= length / c + Boundaries(start, length, p) + 1
         && Begins(w'.drv.bus.sent, w.drv.bus.sent + tiles)
         && (w'.drv.result == JobOk ==> w'.drv.bus.sent == w.drv.bus.sent + tiles)
         && (w'.drv.result == JobPending ==> UsefulCalls(w1, es) <= 3 * |tiles| + WastedCalls(w1, es))
  {
    ArmedForWriting(w, addr, data, length);
    var t := Task(EepWrite, w.drv.cfg.base + addr, length, UserBuffer);
    WriteRunAccounts(Armed(w, EepWrite, addr, data, length), w, t, data, es);
    ChunkBound(w.drv.cfg.base + addr, length, WriteBlock(w.drv), w.dev.page);
    TilesTile(EepWrite, w.drv.cfg.base + addr, length, WriteBlock(w.drv), w.dev.page);
  }

  /** Chunks of a read are full blocks but for the last. */
  lemma {:induction false} ReadChunks(kind: JobType, addr: nat, left: nat, c: nat, p: nat)
    requires c > 0 && kind != EepWrite
    ensures Chunks(kind, addr, left, c, p) == (left + c - 1) / c
    decreases left
  {
    if left == 0 {
      ModSmall(c - 1, c);
    } else if left <= c {
      DivModUnique(left + c - 1, c, 1, left - 1);
      assert Chunks(kind, addr + left, 0, c, p) == 0;
    } else {
      ReadChunks(kind, addr + c, left - c, c, p);
      ModAdd(left + c - 1, -1, c);
    }
  }

  /** The same for read jobs, which need exactly `length / block` commands, rounded up. */
  lemma ReadIsBounded(w: World, addr: nat, data: seq<byte>, length: nat, es: seq<Event>)
    requires AtRest(w) && length <= |data| && Admissible(w, addr, length)
    ensures var w1 := Armed(w, EepRead, addr, data, length);
      var w' := Run(w1, es);
      var start, c := w.drv.cfg.base + addr, ReadBlock(w.drv);
      && c > 0
      && var tiles := Tiles(EepRead, start, length, c, w.drv.job.pageSize);
         && Tile(tiles, ReadSequence, start, length)
         && |tiles| == (length + c - 1) / c
         && Begins(w'.drv.bus.sent, w.drv.bus.sent + tiles)
         && (w'.drv.result == JobOk ==> w'.drv.bus.sent == w.drv.bus.sent + tiles)
         && (w'.drv.result == JobPending ==> UsefulCalls(w1, es) <= 3 * |tiles| + WastedCalls(w1, es))
  {
    ArmedForReading(w, addr, data, length);
    var t := Task(EepRead, w.drv.cfg.base + addr, length, UserBuffer);
    ReadRunAccounts(Armed(w, EepRead, addr, data, length), w, t, data, es);
    ReadChunks(EepRead, w.drv.cfg.base + addr, length, ReadBlock(w.drv), w.drv.job.pageSize);
    TilesTile(EepRead, w.drv.cfg.base + addr, length, ReadBlock(w.drv), w.drv.job.pageSize);
  }

  // ---------------------------------------------------------------- completion

  /** One turn of an environment that takes every sequence, completes it and lets the device finish. */
  const ROUND: seq<Event> := [MainFunction(true), SpiDone(true, 0, []), ProgramDone]

  function Rounds(n: nat): (es: seq<Event>) {
    if n == 0 then [] else ROUND + Rounds(n - 1)
  }

  lemma RoundsStep(w: World, n: nat)
    requires Runnable(w) && n > 0
    ensures Run(w, Rounds(n)) == Run(Run(w, ROUND), Rounds(n - 1))
  {
    RunAppend(w, ROUND, Rounds(n - 1));
  }

  /** One round is its three events in turn. */
  lemma RunRound(w: World)
    requires Runnable(w)
    ensures Run(w, ROUND) == Next(Next(Next(w, MainFunction(true)), SpiDone(true, 0, [])), ProgramDone)
  {
    assert ROUND[1..] == [ROUND[1], ROUND[2]] && ROUND[1..][1..] == [ROUND[2]] && ROUND[1..][1..][1..] == [];
    var w3 := Next(Next(Next(w, MainFunction(true)), SpiDone(true, 0, [])), ProgramDone);
    assert Run(w3, []) == w3;
  }

  /** A write job between two rounds. */
  ghost predicate Between(w: World, w0: World, t: Task, src: seq<byte>) {
    && w.drv.result == JobPending && Writing(w, w0, t, src)
    && w.drv.bus.pending.None? && !w.dev.wip
    && (w.drv.job.initialOp || w.drv.job.currSeq !in w.drv.bus.failed)
    && (w.drv.job.state == JobReadStatusResult ==> w.drv.bus.status % 2 == 0)
  }

  lemma RoundProgresses(w: World, w0: World, t: Task, src: seq<byte>)
    requires Between(w, w0, t, src)
    ensures var w' := Run(w, ROUND);
      || (w'.drv.result == JobOk && w'.drv.bus.pending.None?)
      || (Between(w', w0, t, src) && Rank(EepWrite, w'.drv.job) < Rank(EepWrite, w.drv.job))
  {
    var w1 := Next(w, ROUND[0]);
    var w2 := Next(w1, ROUND[1]);
    RunRound(w);
    RoundCall(w, w0, t, src);
    if w1.drv.result == JobPending {
      EventKeepsOutcome(w1, w0, t, src, ROUND[1]);
      EventKeepsOutcome(w2, w0, t, src, ROUND[2]);
      RoundTransfer(w1, w0, t, src);
    }
  }

  lemma RoundCall(w: World, w0: World, t: Task, src: seq<byte>)
    requires Between(w, w0, t, src)
    ensures var w' := Next(w, MainFunction(true));
      || (w'.drv.result == JobOk && w'.drv.bus.pending.None?)
      || (&& w'.drv.result == JobPending && Writing(w', w0, t, src) && !w'.drv.job.initialOp
          && Rank(EepWrite, w'.drv.job) < Rank(EepWrite, w.drv.job) && w'.dev == w.dev
          && w'.drv.bus.pending.Some? && w'.drv.job.currSeq !in w'.drv.bus.failed)
  {
    EventKeepsOutcome(w, w0, t, src, MainFunction(true));
    EventAccounts(w, t, MainFunction(true));
    SentWhenAccepted(t, w.drv.bus, w.drv.job);
  }

  /** A call that finds handler and device ready either ends the job or sends a sequence. */
  lemma SentWhenAccepted(t: Task, bus: Bus, job: JobInfo)
    requires Engine(t, bus, job) && bus.pending.None? && (job.initialOp || job.currSeq !in bus.failed)
    ensures var s := ProcessJob(bus, job, true);
      s.rv == SeqOk || (s.rv == SeqPending && s.bus.pending.Some? && s.job.currSeq !in s.bus.failed)
  {
    if !job.initialOp && job.state == JobReadStatusResult {
      var job1 := StepStatusResult(bus, job).job;
      assert LoopJob(bus, job, true) == LoopJob(bus, job1, true) == StepJob(bus, job1, true);
    }
  }

  lemma RoundTransfer(w: World, w0: World, t: Task, src: seq<byte>)
    requires Writing(w, w0, t, src) && w.drv.result == JobPending && !w.drv.job.initialOp && !w.dev.wip
    requires w.drv.bus.pending.Some? && w.drv.job.currSeq !in w.drv.bus.failed
    ensures var w' := Next(Next(w, SpiDone(true, 0, [])), ProgramDone);
      && w'.drv.result == JobPending && w'.drv.job == w.drv.job
      && w'.drv.bus.pending.None? && !w'.dev.wip && w'.drv.job.currSeq !in w'.drv.bus.failed
      && (w.drv.job.state == JobReadStatusResult ==> w'.drv.bus.status % 2 == 0)
  {
    if w.drv.bus.pending.value == WriteSequence {
      WriteSequenceDone(w, w0, t, src, true, 0);
    } else {
      StatusSequenceDone(w, t, w.drv.job, true, 0, []);
    }
  }

  lemma {:induction false} RoundsComplete(w: World, w0: World, t: Task, src: seq<byte>, n: nat)
    requires Between(w, w0, t, src) && n > Rank(EepWrite, w.drv.job)
    ensures Run(w, Rounds(n)).drv.result == JobOk
    decreases n
  {
    RoundProgresses(w, w0, t, src);
    OtherRounds(w, Run(w, ROUND), w0, t, src, n);
    OkAfterRound(w, n);
  }

  /** After one of `n` rounds the job is complete or the others complete it. */
  lemma {:induction false} OtherRounds(w: World, w1: World, w0: World, t: Task, src: seq<byte>, n: nat)
    requires w.drv.job.chunkSize > 0 && w.drv.job.pageSize > 0 && n > Rank(EepWrite, w.drv.job) && Runnable(w1)
    requires
      || (w1.drv.result == JobOk && w1.drv.bus.pending.None?)
      || (Between(w1, w0, t, src) && Rank(EepWrite, w1.drv.job) < Rank(EepWrite, w.drv.job))
    ensures Run(w1, Rounds(n - 1)).drv.result == JobOk
    decreases n, 0
  {
    if w1.drv.result == JobOk {
      EndedStays(w1, Rounds(n - 1));
    } else {
      RoundsComplete(w1, w0, t, src, n - 1);
    }
  }

  lemma OkAfterRound(w: World, n: nat)
    requires Runnable(w) && n > 0 && Run(Run(w, ROUND), Rounds(n - 1)).drv.result == JobOk
    ensures Run(w, Rounds(n)).drv.result == JobOk
  {
    RoundsStep(w, n);
  }

  /** Every accepted write job is completed by a cooperative environment, with the right contents. */
  lemma WriteCompletes(w: World, addr: nat, data: seq<byte>, length: nat)
    requires AtRest(w) && length <= |data| && Admissible(w, addr, length)
    ensures var c := WriteBlock(w.drv);
      && c > 0
      && var n := 3 * Chunks(EepWrite, w.drv.cfg.base + addr, length, c, w.dev.page) + 1;
         var w' := Run(Armed(w, EepWrite, addr, data, length), Rounds(n));
         && w'.drv.result == JobOk
         && w'.dev.mem == Splice(w.dev.mem, w.drv.cfg.base + addr, data[..length])
  {
    var c := WriteBlock(w.drv);
    var n := 3 * Chunks(EepWrite, w.drv.cfg.base + addr, length, c, w.dev.page) + 1;
    var t := Task(EepWrite, w.drv.cfg.base + addr, length, UserBuffer);
    ArmedForWriting(w, addr, data, length);
    RoundsComplete(Armed(w, EepWrite, addr, data, length), w, t, data, n);
    WriteIsFaithful(w, addr, data, length, Rounds(n));
  }
}
