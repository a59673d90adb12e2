/** Exactly when success of a compare job that finds `firstTime` set means equal bytes: if the device is idle
    at the start.  A busy device answers the first read with arbitrary bytes. */
module EepCompareExact {
  import opened Common
  import opened EepDevice
  import opened EepDriver
  import opened EepWorld
  import opened EepCompare
  import opened EepProgress
  import opened EepCompareReads
  import opened EepCompareEnds
  import opened EepBusyStart
  import opened EepBusyRead
  import opened EepTwins

  /** The same world once the device has finished programming. */
  function Idled(w: World): World {
    w.(dev := w.dev.(wip := false))
  }

  // ---------------------------------------------------------------- a portion read from a busy device

  /** A portion has been opened and nothing of it has been read. */
  predicate Poised(w: World) {
    var d := w.drv;
    && Runnable(w) && d.result == JobPending && d.jobType == EepCompare && !d.firstTime
    && 0 < d.job.left && (d.readJob, d.readSize) == Portion(d) && d.readJob.initialOp
    && d.bus.pending.None? && SameBlock(d) && |d.compare| == CMP_BUFF_SIZE
    && Engine(PortionTask(d), d.bus, d.readJob)
  }

  /** Its first chunk. */
  function PortionChunk(d: Driver): nat {
    Min(d.readSize, d.readJob.chunkSize)
  }

  /** The first read of the portion goes out without a status query. */
  lemma PortionCommand(w: World)
    requires Poised(w)
    ensures var w' := Next(w, MainFunction(true));
      && w' == w.(drv := w.drv.(bus := w'.drv.bus, readJob := w'.drv.readJob))
      && w'.drv.readJob.chunkSize == w.drv.job.chunkSize && w'.drv.readJob.pageSize == w.drv.job.pageSize
      && Engine(PortionTask(w'.drv), w'.drv.bus, w'.drv.readJob) && !w'.drv.readJob.initialOp
      && w'.drv.readJob.state == JobReadStatus && w'.drv.readJob.left == w.drv.readSize - PortionChunk(w.drv)
      && w'.drv.bus.pending == Some(ReadSequence) && w'.drv.bus.length == PortionChunk(w.drv)
      && w'.drv.readJob.currSeq !in w'.drv.bus.failed
  {
    var d := w.drv;
    assert d.bus.(sane := true) == d.bus;
    InitialAnswers(PortionTask(d), d.bus, d.readJob, true);
  }

  /** The bytes that a busy device delivers for it. */
  lemma ChunkGarbled(w: World, noise: seq<byte>)
    requires Runnable(w) && w.dev.wip && |w.drv.compare| == CMP_BUFF_SIZE && w.drv.readSize <= CMP_BUFF_SIZE
    requires Engine(PortionTask(w.drv), w.drv.bus, w.drv.readJob) && !w.drv.readJob.initialOp
    requires w.drv.readJob.state == JobReadStatus && w.drv.readJob.left == w.drv.readSize - w.drv.bus.length
    requires w.drv.bus.pending == Some(ReadSequence)
    ensures var w' := Next(Next(w, SpiDone(true, 0, noise)), ProgramDone);
      var n := w.drv.bus.length;
      && n <= CMP_BUFF_SIZE
      && w'.drv == w.drv.(bus := Released(w.drv.bus, ReadSequence, true), compare := w'.drv.compare)
      && w'.dev == w.dev.(wip := false)
      && |w'.drv.compare| == CMP_BUFF_SIZE && w'.drv.compare[..n] == Noise(noise, n)
  {
    var n := w.drv.bus.length;
    assert Splice(w.drv.compare, 0, Noise(noise, n))[..n] == Noise(noise, n);
  }

  /** The world after the noisy round. */
  predicate AfterNoise(w: World, noise: seq<byte>, w2: World) {
    var n := PortionChunk(w.drv);
    && w2.dev == w.dev.(wip := false)
    && w2.drv == w.drv.(bus := w2.drv.bus, readJob := w2.drv.readJob, compare := w2.drv.compare)
    && w2.drv.readJob.chunkSize == w.drv.job.chunkSize && w2.drv.readJob.pageSize == w.drv.job.pageSize
    && Engine(PortionTask(w2.drv), w2.drv.bus, w2.drv.readJob) && w2.drv.bus.pending.None?
    && !w2.drv.readJob.initialOp && w2.drv.readJob.state == JobReadStatus && w2.drv.readJob.left == w2.drv.readSize - n
    && w2.drv.readJob.currSeq !in w2.drv.bus.failed
    && n <= |w2.drv.compare| == CMP_BUFF_SIZE && w2.drv.compare[..n] == Noise(noise, n)
  }

  lemma NoisyRoundDone(w: World, noise: seq<byte>)
    requires Poised(w) && w.dev.wip
    ensures AfterNoise(w, noise, Run(w, NoisyRound(noise)))
  {
    PortionCommand(w);
    ChunkGarbled(Next(w, MainFunction(true)), noise);
    RunThree(w, NoisyRound(noise));
  }

  /** What makes the noise look like a compare that is going to succeed: a device `mem` that holds it, on
      which everything before is as it should be, and which is otherwise like the real one. */
  predicate NoiseFits(w: World, noise: seq<byte>, mem: seq<byte>, v0: World, r: Range, src: seq<byte>) {
    var p, n := w.drv.job.eepAddr, PortionChunk(w.drv);
    && Comparing(OnDevice(Idled(w), mem), v0, r, src) && src[..r.length] == mem[r.start..r.start + r.length]
    && p + n <= |mem| && mem[p..p + n] == Noise(noise, n) && AgreeOn(mem, w.dev.mem, p + n, r.start + r.length)
  }

  lemma GarbledIsComparing(w: World, noise: seq<byte>, mem: seq<byte>, v0: World, r: Range, src: seq<byte>, w2: World)
    requires Poised(w) && NoiseFits(w, noise, mem, v0, r, src) && AfterNoise(w, noise, w2)
    ensures OnCourse(w2, mem, v0, r, src, w.drv.job.eepAddr + PortionChunk(w.drv))
  {
  }

  /** So the job succeeds after all. */
  lemma BusyPortionCompletes(w: World, noise: seq<byte>, mem: seq<byte>, v0: World, r: Range, src: seq<byte>)
    returns (k: nat)
    requires Poised(w) && w.dev.wip && NoiseFits(w, noise, mem, v0, r, src)
    ensures Run(w, NoisyRound(noise) + Rounds(k)).drv.result == JobOk
  {
    var w2 := Run(w, NoisyRound(noise));
    NoisyRoundDone(w, noise);
    GarbledIsComparing(w, noise, mem, v0, r, src, w2);
    k := CompletesHere(w2, mem, v0, r, src, w.drv.job.eepAddr + PortionChunk(w.drv));
    OkBehind(w, NoisyRound(noise), Rounds(k));
  }

  lemma NoiseIs(front: seq<byte>)
    ensures Noise(front, |front|) == front
  {
  }

  // ---------------------------------------------------------------- a job that finds firstTime set

  /** Opening the first portion before the first call or in it makes no difference. */
  lemma OpenedRun(w: World, es: seq<Event>)
    requires Runnable(w) && w.drv.result == JobPending && w.drv.jobType == EepCompare && es != [] && es[0].MainFunction?
    ensures Runnable(w.(drv := Opened(w.drv))) && Run(w, es) == Run(w.(drv := Opened(w.drv)), es)
  {
    assert Next(w, es[0]) == Next(w.(drv := Opened(w.drv)), es[0]);
  }

  /** An accepted job is ready to be misled by noise that its data agree with. */
  lemma ArmedIsPoised(w: World, addr: nat, data: seq<byte>, length: nat, mem: seq<byte>)
    requires AtRestButBusy(w) && w.drv.firstTime && length <= |data| && Admissible(w, addr, length)
    requires |mem| == |w.dev.mem|
    ensures var w1 := Armed(w, EepCompare, addr, data, length);
      var o := w1.(drv := Opened(w1.drv));
      && Poised(o) && o.drv.job.eepAddr == w.drv.cfg.base + addr
      && PortionChunk(o.drv) == Min(Min(length, CMP_BUFF_SIZE), ReadBlock(w.drv))
      && Comparing(OnDevice(Idled(o), mem), OnDevice(Idled(w), mem), Range(w.drv.cfg.base + addr, length), data)
  {
    ArmedForRounds(OnDevice(Idled(w), mem), addr, data, length);
  }

  /** A compare job on a busy device that succeeds on data that are not there. */
  lemma BusyCompareFails(w: World, addr: nat, length: nat) returns (data: seq<byte>, es: seq<Event>)
    requires AtRestButBusy(w) && w.dev.wip && w.drv.firstTime && Admissible(w, addr, length)
    ensures var start := w.drv.cfg.base + addr;
      && |data| == length && data != w.dev.mem[start..start + length]
      && Run(Armed(w, EepCompare, addr, data, length), es).drv.result == JobOk
  {
    var start, n := w.drv.cfg.base + addr, Min(Min(length, CMP_BUFF_SIZE), ReadBlock(w.drv));
    var front := OtherBytes(w.dev.mem, start, n);
    data := OtherFront(w.dev.mem, start, front, length);
    es := BusyRunCompletes(w, addr, data, length, front, Splice(w.dev.mem, start, data));
  }

  lemma OtherBytes(mem: seq<byte>, start: nat, n: nat) returns (front: seq<byte>)
    requires 1 <= n && start + n <= |mem|
    ensures |front| == n && front != mem[start..start + n]
  {
    var b: byte := if mem[start] == 0 then 1 else 0;
    front := seq(n, _ => b);
    assert front[0] != mem[start..start + n][0];
  }

  lemma BusyRunCompletes(w: World, addr: nat, data: seq<byte>, length: nat, front: seq<byte>, mem: seq<byte>)
    returns (es: seq<Event>)
    requires AtRestButBusy(w) && w.dev.wip && w.drv.firstTime
    requires length <= |data| && Admissible(w, addr, length) && |mem| == |w.dev.mem|
    requires |front| == Min(Min(length, CMP_BUFF_SIZE), ReadBlock(w.drv))
    requires var start := w.drv.cfg.base + addr;
      && mem[start..start + length] == data[..length] && mem[start..start + |front|] == front
      && AgreeOn(mem, w.dev.mem, start + |front|, start + length)
    ensures Run(Armed(w, EepCompare, addr, data, length), es).drv.result == JobOk
  {
    var w1, r := Armed(w, EepCompare, addr, data, length), Range(w.drv.cfg.base + addr, length);
    var o := w1.(drv := Opened(w1.drv));
    ArmedIsPoised(w, addr, data, length, mem);
    NoiseIs(front);
    var k := BusyPortionCompletes(o, front, mem, OnDevice(Idled(w), mem), r, data);
    es := NoisyRound(front) + Rounds(k);
    OpenedRun(w1, es);
  }

  /** For a job that finds `firstTime` set, success means equal bytes exactly if the device is idle when
      the job starts. */
  lemma IdleCompareExactly(w: World, addr: nat, length: nat)
    requires AtRestButBusy(w) && w.drv.firstTime && Admissible(w, addr, length)
    ensures SuccessMeansEqual(w, addr, length) <==> !w.dev.wip
  {
    var start := w.drv.cfg.base + addr;
    if w.dev.wip {
      var data, es := BusyCompareFails(w, addr, length);
      assert Run(Armed(w, EepCompare, addr, data, length), es).drv.result == JobOk && data[..length] == data;
    } else {
      forall data: seq<byte>, es: seq<Event> | length <= |data|
        ensures Run(Armed(w, EepCompare, addr, data, length), es).drv.result == JobOk ==>
          data[..length] == w.dev.mem[start..start + length]
      {
        assert w.(dev := w.dev.(wip := false)) == w;
        CompareIsSound(w, addr, data, length, es);
      }
    }
  }
}
