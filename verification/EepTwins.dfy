/** Devices that a compare job cannot tell apart: those that agree on what it has still to read. */
module EepTwins {
  import opened Arith
  import opened Common
  import opened EepDevice
  import opened EepDriver
  import opened EepWorld
  import opened EepRead
  import opened EepCompare
  import opened EepProgress
  import opened EepCompareEnds
  import opened EepBusyStart

  // ---------------------------------------------------------------- two devices, one driver

  /** The same world with other bytes on the device. */
  function OnDevice(w: World, mem: seq<byte>): World {
    w.(dev := w.dev.(mem := mem))
  }

  predicate AgreeOn(mem: seq<byte>, mem': seq<byte>, lo: nat, hi: nat) {
    |mem'| == |mem| && lo <= hi <= |mem| && mem'[lo..hi] == mem[lo..hi]
  }

  /** An outstanding sequence reads only between `lo` and `hi`. */
  predicate ReadsInside(bus: Bus, lo: nat, hi: nat) {
    match bus.pending
    case None => true
    case Some(s) => s != WriteSequence && (s == ReadSequence ==> lo <= bus.addr < bus.addr + bus.length <= hi)
  }

  lemma SameReceived(dev: Device, mem: seq<byte>, a: nat, n: nat, ok: bool, noise: seq<byte>, lo: nat, hi: nat)
    requires AgreeOn(dev.mem, mem, lo, hi) && lo <= a && a + n <= hi && |mem| > 0
    ensures Received(dev.(mem := mem), a, n, ok, noise) == Received(dev, a, n, ok, noise)
  {
    ReadInRange(dev.mem, a, n);
    ReadInRange(mem, a, n);
    AgreeInside(dev.mem, mem, lo, hi, a, n);
  }

  lemma AgreeInside(mem: seq<byte>, mem': seq<byte>, lo: nat, hi: nat, a: nat, n: nat)
    requires AgreeOn(mem, mem', lo, hi) && lo <= a && a + n <= hi
    ensures mem'[a..a + n] == mem[a..a + n]
  {
    forall k | a <= k < a + n
      ensures mem'[k] == mem[k]
    {
      assert mem'[lo..hi][k - lo] == mem[lo..hi][k - lo];
    }
  }

  lemma TwinRead(w: World, mem: seq<byte>, lo: nat, hi: nat, ok: bool, sent: nat, noise: seq<byte>)
    requires Runnable(w) && AgreeOn(w.dev.mem, mem, lo, hi)
    requires w.drv.bus.pending == Some(ReadSequence) && ReadsInside(w.drv.bus, lo, hi)
    ensures CompleteRead(OnDevice(w, mem), ok, sent, noise) == OnDevice(CompleteRead(w, ok, sent, noise), mem)
    ensures CompleteRead(w, ok, sent, noise).dev == w.dev
  {
    var bus := w.drv.bus;
    ModSmall(bus.addr, |mem|);
    SameReceived(w.dev, mem, bus.addr, SentBytes(bus, ok, sent), ok, noise, lo, hi);
  }

  /** A driver cannot tell devices apart that agree where it reads. */
  lemma TwinStep(w: World, mem: seq<byte>, lo: nat, hi: nat, e: Event)
    requires Runnable(w) && AgreeOn(w.dev.mem, mem, lo, hi) && ReadsInside(w.drv.bus, lo, hi)
    ensures Runnable(OnDevice(w, mem)) && Next(OnDevice(w, mem), e) == OnDevice(Next(w, e), mem)
    ensures Next(w, e).dev.mem == w.dev.mem
  {
    if e.SpiDone? && w.drv.bus.pending == Some(ReadSequence) {
      TwinRead(w, mem, lo, hi, e.ok, e.sent, e.noise);
    }
  }

  // ---------------------------------------------------------------- a compare job past some address

  /** The portion has been read up to `lo` at least. */
  predicate Beyond(d: Driver, lo: nat)
    requires Engine(PortionTask(d), d.bus, d.readJob)
  {
    lo <= d.job.eepAddr + Moved(PortionTask(d), d.bus, d.readJob)
  }

  /** A compare job that will not read below `lo` again. */
  predicate Tracked(w: World, w0: World, r: Range, src: seq<byte>, lo: nat) {
    && CompareOutcome(w, w0, r, src)
    && (Comparing(w, w0, r, src) && w.drv.result == JobPending ==> !w.drv.firstTime && Beyond(w.drv, lo))
  }

  lemma TrackedReadsInside(w: World, w0: World, r: Range, src: seq<byte>, lo: nat)
    requires Tracked(w, w0, r, src, lo)
    ensures ReadsInside(w.drv.bus, lo, r.start + r.length)
  {
  }

  /** A call does not go back. */
  lemma BeyondCall(d: Driver, s: Step, lo: nat)
    requires Engine(PortionTask(d), d.bus, d.readJob) && Beyond(d, lo) && d.result == JobPending && !d.firstTime
    requires d.job.Ready() && s.job.Ready() && Answer(PortionTask(d), d.bus, d.readJob, false, s)
    ensures var d' := Concluded(d, s);
      d'.result == JobPending && Engine(PortionTask(d'), d'.bus, d'.readJob) ==> !d'.firstTime && Beyond(d', lo)
  {
  }

  lemma TrackedStep(w: World, w0: World, r: Range, src: seq<byte>, lo: nat, e: Event)
    requires Tracked(w, w0, r, src, lo)
    ensures Tracked(Next(w, e), w0, r, src, lo)
  {
    EventKeepsCompareOutcome(w, w0, r, src, e);
    if Comparing(w, w0, r, src) && w.drv.result == JobPending {
      var t := PortionTask(w.drv);
      if e.MainFunction? {
        ProcessKeepsEngine(t, w.drv.bus, w.drv.readJob, e.accept, false);
        BeyondCall(w.drv, ProcessJob(w.drv.bus, w.drv.readJob, e.accept), lo);
      } else if e.SpiDone? && w.drv.bus.pending.Some? {
        SpiKeepsReading(w, t, w.drv.readJob, e.ok, e.sent, e.noise);
      }
    }
  }

  lemma {:induction false} TwinRun(w: World, w0: World, r: Range, src: seq<byte>, lo: nat, mem: seq<byte>,
                                   es: seq<Event>)
    requires Tracked(w, w0, r, src, lo) && AgreeOn(w.dev.mem, mem, lo, r.start + r.length)
    ensures Runnable(OnDevice(w, mem)) && Run(OnDevice(w, mem), es) == OnDevice(Run(w, es), mem)
    decreases |es|
  {
    TrackedReadsInside(w, w0, r, src, lo);
    TwinStep(w, mem, lo, r.start + r.length, ProgramDone);
    if es != [] {
      TwinStep(w, mem, lo, r.start + r.length, es[0]);
      TrackedStep(w, w0, r, src, lo, es[0]);
      TwinRun(Next(w, es[0]), w0, r, src, lo, mem, es[1..]);
    }
  }

  /** A job that finds its data on device `w`, and has got past `lo`, completes on every device that
      agrees with it from there on. */
  lemma CompletesOnTwin(w: World, w0: World, r: Range, src: seq<byte>, lo: nat, mem: seq<byte>) returns (n: nat)
    requires BetweenRounds(w, w0, r, src) && !w.drv.firstTime && Beyond(w.drv, lo)
    requires src[..r.length] == w.dev.mem[r.start..r.start + r.length]
    requires AgreeOn(w.dev.mem, mem, lo, r.start + r.length)
    ensures Runnable(OnDevice(w, mem)) && Run(OnDevice(w, mem), Rounds(n)).drv.result == JobOk
  {
    n := RoundsDecide(w, w0, r, src);
    RunKeepsCompareOutcome(w, w0, r, src, Rounds(n));
    TwinRun(w, w0, r, src, lo, mem, Rounds(n));
  }

  /** With `mem` on the device this would be a compare past `lo` that is going to succeed, and the real
      device agrees from `lo` on. */
  predicate OnCourse(w: World, mem: seq<byte>, v0: World, r: Range, src: seq<byte>, lo: nat) {
    var v := OnDevice(w, mem);
    && BetweenRounds(v, v0, r, src) && !v.drv.firstTime && Beyond(v.drv, lo)
    && src[..r.length] == mem[r.start..r.start + r.length] && AgreeOn(mem, w.dev.mem, lo, r.start + r.length)
  }

  /** The same told from the device that the driver really has. */
  lemma CompletesHere(w: World, mem: seq<byte>, v0: World, r: Range, src: seq<byte>, lo: nat) returns (n: nat)
    requires OnCourse(w, mem, v0, r, src, lo)
    ensures Runnable(w) && Run(w, Rounds(n)).drv.result == JobOk
  {
    n := CompletesOnTwin(OnDevice(w, mem), v0, r, src, lo, w.dev.mem);
    assert OnDevice(OnDevice(w, mem), w.dev.mem) == w;
  }

  /** The promise that success means equal bytes, for all data and all runs of a job. */
  ghost predicate SuccessMeansEqual(w: World, addr: nat, length: nat)
    requires AtRestButBusy(w)
  {
    var start := w.drv.cfg.base + addr;
    forall data: seq<byte>, es: seq<Event> | length <= |data| && start + length <= |w.dev.mem| ::
      Run(Armed(w, EepCompare, addr, data, length), es).drv.result == JobOk ==>
        data[..length] == w.dev.mem[start..start + length]
  }

  /** Data with other bytes at the front than the device. */
  lemma OtherFront(mem: seq<byte>, start: nat, front: seq<byte>, length: nat) returns (data: seq<byte>)
    requires |front| <= length && start + length <= |mem| && front != mem[start..start + |front|]
    ensures data == front + mem[start + |front|..start + length] && |data| == length && data[..length] == data
    ensures data != mem[start..start + length]
    ensures Splice(mem, start, data)[start..start + length] == data
    ensures AgreeOn(Splice(mem, start, data), mem, start + |front|, start + length)
  {
    data := front + mem[start + |front|..start + length];
    assert data[..|front|] == front;
    assert mem[start..start + length][..|front|] == mem[start..start + |front|];
    var mem' := Splice(mem, start, data);
    assert mem'[start + |front|..start + length] == mem[start + |front|..start + length];
  }

  lemma OkBehind(w: World, es: seq<Event>, fs: seq<Event>)
    requires Runnable(w) && Run(Run(w, es), fs).drv.result == JobOk
    ensures Run(w, es + fs).drv.result == JobOk
  {
    RunAppend(w, es, fs);
  }
}
