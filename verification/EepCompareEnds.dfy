/** What a cooperative environment makes of a compare job: equal ranges complete it, different ranges
    leave it pending for ever. */
module EepCompareEnds {
  import opened Common
  import opened EepDriver
  import opened EepWorld
  import opened EepWrite
  import opened EepRead
  import opened EepCompare
  import opened EepCompareReads
  import opened EepProgress
  import opened EepReadEnds

  /** A compare job between two rounds. */
  predicate BetweenRounds(w: World, w0: World, r: Range, src: seq<byte>) {
    && w.drv.result == JobPending && Comparing(w, w0, r, src) && SameBlock(w.drv)
    && if w.drv.firstTime then w.drv.bus.pending.None? else Free(w.drv.bus, w.drv.readJob)
  }

  /** An upper bound on the rounds still needed: three per command and one per further portion. */
  function CompareRank(d: Driver): nat
    requires SameBlock(d) && !d.firstTime
  {
    Rank(EepCompare, d.readJob) + 3 * |LaterTiles(d)| + Portions(d.job.left - d.readSize)
  }

  /** A later state of the same job. */
  predicate Closer(d: Driver, d': Driver) {
    SameBlock(d) && !d.firstTime && SameBlock(d') && !d'.firstTime && CompareRank(d') < CompareRank(d)
  }

  /** The job is over or has found a difference. */
  predicate Decided(w: World) {
    (w.drv.result == JobOk && w.drv.bus.pending.None?) || Mismatch(w)
  }

  /** The rank of a job whose current portion has just been opened, and of one whose portion is read. */
  lemma OpenedRank(d: Driver)
    requires d.job.chunkSize > 0 && !d.firstTime && d.job.state == JobMain && (d.readJob, d.readSize) == Portion(d)
    ensures SameBlock(d)
    ensures var n, j := Min(d.job.left, CMP_BUFF_SIZE), d.job;
      CompareRank(d) == 3 * Chunks(EepCompare, j.eepAddr, n, j.chunkSize, j.pageSize)
                      + 3 * |CompareTiles(j.eepAddr + n, j.left - n, j.chunkSize, j.pageSize)| + Portions(j.left - n)
  {
  }

  lemma ReadRank(d: Driver)
    requires SameBlock(d) && !d.firstTime
    ensures var a, l := d.job.eepAddr + d.readSize, d.job.left - d.readSize;
      CompareRank(d) >= 3 * |CompareTiles(a, l, d.job.chunkSize, d.job.pageSize)| + Portions(l)
  {
  }

  /** Opening the next portion costs nothing but its own round. */
  lemma NextPortionCloser(d: Driver, d': Driver)
    requires SameBlock(d) && !d.firstTime && d.readSize < d.job.left && d.job.state == JobMain
    requires !d'.firstTime && d'.job == Advance(d.job, d.readSize) && (d'.readJob, d'.readSize) == Portion(d')
    ensures Closer(d, d')
  {
    ReadRank(d);
    OpenedRank(d');
    NextPortion(d.job.eepAddr + d.readSize, d.job.left - d.readSize, d.job.chunkSize, d.job.pageSize);
  }

  /** A sequence sent for the portion brings the job closer too. */
  lemma SentCloser(d: Driver, d': Driver)
    requires SameBlock(d) && !d.firstTime && !d'.firstTime && d'.job == d.job && d'.readSize == d.readSize
    requires d'.readJob.chunkSize == d.readJob.chunkSize && d'.readJob.pageSize == d.readJob.pageSize
    requires Rank(EepCompare, d'.readJob) < Rank(EepCompare, d.readJob)
    ensures Closer(d, d')
  {
  }

  /** A round whose call ends the portion. */
  lemma RoundEndsPortion(w: World, w0: World, r: Range, src: seq<byte>, s: Step)
    requires BetweenRounds(w, w0, r, src) && !w.drv.firstTime && s.job.Ready() && s.rv == SeqOk
    requires EngineAnswer(w, PortionTask(w.drv), w.drv.readJob, s)
    ensures var w1 := w.(drv := Concluded(w.drv, s));
      && w1.drv.bus.pending.None? && !w1.dev.wip
      && (Decided(w1) || (BetweenRounds(w1, w0, r, src) && !w1.drv.firstTime && Closer(w.drv, w1.drv)))
  {
    ConcludedCall(w, w0, r, src, s);
    var d1 := w.drv.(bus := s.bus, readJob := s.job);
    if SameBytes(d1) && d1.readSize < d1.job.left {
      NextPortionCloser(w.drv, PortionDone(d1));
    }
  }

  /** A round whose call sends a sequence. */
  lemma RoundSends(w: World, w0: World, r: Range, src: seq<byte>, s: Step)
    requires BetweenRounds(w, w0, r, src) && !w.drv.firstTime && s.job.Ready() && s.rv == SeqPending
    requires EngineAnswer(w, PortionTask(w.drv), w.drv.readJob, s) && !s.job.initialOp
    requires s.bus.pending.Some? && s.job.currSeq !in s.bus.failed
    requires s.job.chunkSize == w.drv.readJob.chunkSize && s.job.pageSize == w.drv.readJob.pageSize
    ensures var w2 := Next(w.(drv := Concluded(w.drv, s)), SpiDone(true, 0, []));
      && !w2.dev.wip && BetweenRounds(w2, w0, r, src) && !w2.drv.firstTime
      && w2.drv.job == w.drv.job && w2.drv.readSize == w.drv.readSize && w2.drv.readJob == s.job
  {
    ConcludedCall(w, w0, r, src, s);
    FreeAgain(w.(drv := Concluded(w.drv, s)), PortionTask(w.drv), s.job);
  }

  lemma RoundOfPortion(w: World, w0: World, r: Range, src: seq<byte>)
    requires BetweenRounds(w, w0, r, src) && !w.drv.firstTime
    ensures var w' := Run(w, ROUND);
      Decided(w') || (BetweenRounds(w', w0, r, src) && !w'.drv.firstTime && Closer(w.drv, w'.drv))
  {
    RunRound(w);
    var t := PortionTask(w.drv);
    var s := ProcessJob(w.drv.bus, w.drv.readJob, true);
    FreeCall(t, w.drv.bus, w.drv.readJob);
    ProcessKeepsReading(w, t, w.drv.readJob, true);
    if s.rv == SeqOk {
      RoundEndsPortion(w, w0, r, src, s);
    } else {
      RoundSends(w, w0, r, src, s);
      SentCloser(w.drv, Run(w, ROUND).drv);
    }
  }

  lemma {:induction false} RoundsDecide(w: World, w0: World, r: Range, src: seq<byte>) returns (n: nat)
    requires BetweenRounds(w, w0, r, src) && !w.drv.firstTime
    ensures 0 < n <= CompareRank(w.drv) + 1 && Decided(Run(w, Rounds(n)))
    decreases CompareRank(w.drv)
  {
    RoundOfPortion(w, w0, r, src);
    var w1 := Run(w, ROUND);
    var m := 0;
    if !Decided(w1) {
      m := RoundsDecide(w1, w0, r, src);
    }
    n := m + 1;
    RoundsStep(w, n);
  }

  /** The rank of a job whose first portion has just been opened. */
  lemma FirstRank(d: Driver)
    requires SameBlock(d) && d.firstTime && d.job.Ready() && d.readJob.Ready() && 0 < d.job.left && d.job.state == JobMain
    ensures SameBlock(Opened(d))
    ensures CompareRank(Opened(d)) + 1 == 3 * CompareCount(d.job.left, d.job.chunkSize) + Portions(d.job.left)
  {
    CompareCounts(d.job.eepAddr, d.job.left, d.job.chunkSize, d.job.pageSize);
  }

  /** An armed compare job is ready for its rounds.  Setting up the first portion before the first call
      or in it makes no difference. */
  lemma ArmedForRounds(w: World, addr: nat, data: seq<byte>, length: nat)
    requires AtRest(w) && w.drv.firstTime && length <= |data| && Admissible(w, addr, length)
    ensures var w1 := Armed(w, EepCompare, addr, data, length);
      var w2 := w1.(drv := Opened(w1.drv));
      var r := Range(w.drv.cfg.base + addr, length);
      && CompareOutcome(w1, w, r, data) && w1.drv.result == JobPending && w1.drv.jobType == EepCompare
      && BetweenRounds(w2, w, r, data) && !w2.drv.firstTime
      && ReadBlock(w.drv) > 0
      && CompareRank(w2.drv) + 1 == 3 * CompareCount(length, ReadBlock(w.drv)) + Portions(length)
  {
    var r := Range(w.drv.cfg.base + addr, length);
    var w1 := Armed(w, EepCompare, addr, data, length);
    assert Comparing(w1, w, r, data);
    OpenedIsReading(w1, w, r, data);
    FirstRank(w1.drv);
  }

  /** Under a cooperative environment a compare job is decided: it completes if the ranges are equal;
      if they differ, it has found the difference, reports neither success nor failure, and no
      continuation of the run ever changes that. */
  lemma CompareIsDecided(w: World, addr: nat, data: seq<byte>, length: nat) returns (n: nat)
    requires AtRest(w) && w.drv.firstTime && length <= |data| && Admissible(w, addr, length)
    ensures var w' := Run(Armed(w, EepCompare, addr, data, length), Rounds(n));
      var r := Range(w.drv.cfg.base + addr, length);
      && CompareOutcome(w', w, r, data)
      && if data[..length] == w.dev.mem[r.start..r.start + length] then w'.drv.result == JobOk
         else w'.drv.result == JobPending && Mismatch(w') && forall es: seq<Event> :: Run(w', es) == w'
    ensures ReadBlock(w.drv) > 0 && n <= 3 * CompareCount(length, ReadBlock(w.drv)) + Portions(length)
  {
    n := ArmedIsDecided(w, addr, data, length);
    var w' := Run(Armed(w, EepCompare, addr, data, length), Rounds(n));
    DecidedForEver(w', w, Range(w.drv.cfg.base + addr, length), data);
  }

  lemma ArmedIsDecided(w: World, addr: nat, data: seq<byte>, length: nat) returns (n: nat)
    requires AtRest(w) && w.drv.firstTime && length <= |data| && Admissible(w, addr, length)
    ensures var w' := Run(Armed(w, EepCompare, addr, data, length), Rounds(n));
      Decided(w') && CompareOutcome(w', w, Range(w.drv.cfg.base + addr, length), data)
    ensures ReadBlock(w.drv) > 0 && n <= 3 * CompareCount(length, ReadBlock(w.drv)) + Portions(length)
  {
    var r := Range(w.drv.cfg.base + addr, length);
    var w1 := Armed(w, EepCompare, addr, data, length);
    ArmedForRounds(w, addr, data, length);
    n := RoundsDecide(w1.(drv := Opened(w1.drv)), w, r, data);
    OpenedRounds(w1, n);
    RunKeepsCompareOutcome(w1, w, r, data, Rounds(n));
  }

  lemma DecidedForEver(w: World, w0: World, r: Range, src: seq<byte>)
    requires CompareOutcome(w, w0, r, src) && Decided(w)
    ensures if src[..r.length] == w0.dev.mem[r.start..r.start + r.length] then w.drv.result == JobOk
      else w.drv.result == JobPending && Mismatch(w) && forall es: seq<Event> :: Run(w, es) == w
  {
    if Mismatch(w) {
      forall es: seq<Event>
        ensures Run(w, es) == w
      {
        MismatchIsForever(w, es);
      }
    }
  }

  lemma OpenedRounds(w: World, n: nat)
    requires Runnable(w) && w.drv.result == JobPending && w.drv.jobType == EepCompare && n > 0
    requires w.drv.job.Ready() && w.drv.readJob.Ready()
    ensures Run(w, Rounds(n)) == Run(w.(drv := Opened(w.drv)), Rounds(n))
  {
    var w2 := w.(drv := Opened(w.drv));
    assert Next(w, MainFunction(true)) == Next(w2, MainFunction(true));
    assert Rounds(n)[0] == MainFunction(true);
  }
}
