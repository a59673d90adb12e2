/** Every run of a compare job: portions of at most the compare buffer are read and checked. */
module EepCompare {
  import opened Common
  import opened EepDriver
  import opened EepWorld
  import opened EepWrite
  import opened EepRead

  /** The range that a compare job is about. */
  datatype Range = Range(start: nat, length: nat)

  /** Facts that no event of a compare job started in `w0` changes. */
  predicate CompareFrame(w: World, w0: World, r: Range, src: seq<byte>) {
    && Runnable(w) && AtRest(w0) && w.dev == w0.dev && w.drv.cfg == w0.drv.cfg
    && |w.drv.compare| == CMP_BUFF_SIZE && w.drv.bus.sane
    && w.drv.user == src && r.length <= |src|
    && r.start + r.length <= |w.dev.mem| && r.start + r.length <= 0x1_0000
  }

  /** The caller's job: it records the bytes already found equal and is never given to the engine. */
  predicate Checked(w: World, r: Range, src: seq<byte>)
    requires r.length <= |src| && r.start + r.length <= |w.dev.mem|
  {
    var job := w.drv.job;
    && 0 < job.left <= r.length && job.chunkSize > 0
    && job.mainState == EepCompare && job.state == JobMain && job.initialOp
    && var c := r.length - job.left;
       && job.eepAddr == r.start + c && job.target == At(UserBuffer, c)
       && src[..c] == w.dev.mem[r.start..r.start + c]
  }

  /** The transfer that reads the current portion. */
  function PortionTask(d: Driver): Task {
    Task(EepCompare, d.job.eepAddr, d.readSize, CompareBuffer)
  }

  /** A compare job in progress. */
  predicate Comparing(w: World, w0: World, r: Range, src: seq<byte>) {
    && CompareFrame(w, w0, r, src) && w.drv.jobType == EepCompare && Checked(w, r, src)
    && if w.drv.firstTime then w.drv.bus.pending.None?
       else w.drv.readSize == Min(w.drv.job.left, CMP_BUFF_SIZE) && Reading(w, PortionTask(w.drv), w.drv.readJob)
  }

  /** A portion has been read and differs from the caller's bytes. */
  predicate Mismatch(w: World) {
    && w.drv.result == JobPending && w.drv.jobType == EepCompare && !w.drv.firstTime
    && w.drv.bus.pending.None? && !w.dev.wip
    && w.drv.readJob.left == 0 && w.drv.readJob.state == JobMain && w.drv.readJob.mainState == EepNone
    && !w.drv.readJob.initialOp && w.drv.readJob.currSeq !in w.drv.bus.failed
    && InRange(w.drv) && !SameBytes(w.drv)
  }

  /** What may be observed of a compare job at any time. */
  predicate CompareOutcome(w: World, w0: World, r: Range, src: seq<byte>) {
    && CompareFrame(w, w0, r, src)
    && match w.drv.result
       case JobPending =>
         || Comparing(w, w0, r, src)
         || (&& Mismatch(w) && src[..r.length] != w.dev.mem[r.start..r.start + r.length]
             && Checked(w, r, src) && PrefixRead(w.drv.compare, w.dev.mem, w.drv.job.eepAddr, w.drv.readSize))
       case JobOk =>
         && w.drv.bus.pending.None? && w.drv.status == Idle && w.drv.firstTime
         && src[..r.length] == w.dev.mem[r.start..r.start + r.length]
       case JobFailed =>
         w.drv.bus.pending.None? && w.drv.status == Idle && w.drv.firstTime
       case JobCanceled => false
  }

  lemma OpenedIsReading(w: World, w0: World, r: Range, src: seq<byte>)
    requires Comparing(w, w0, r, src)
    ensures Comparing(w.(drv := Opened(w.drv)), w0, r, src)
  {
  }

  /** The check of a finished portion: equal bytes move the job on, different bytes are recorded as
      a mismatch of the whole ranges. */
  lemma PortionDoneKeepsOutcome(w: World, w0: World, r: Range, src: seq<byte>)
    requires CompareFrame(w, w0, r, src) && Checked(w, r, src)
    requires w.drv.result == JobPending && w.drv.jobType == EepCompare && !w.drv.firstTime
    requires w.drv.bus.pending.None? && !w.dev.wip && w.drv.readSize <= Min(w.drv.job.left, CMP_BUFF_SIZE)
    requires w.drv.readJob.left == 0 && w.drv.readJob.state == JobMain && w.drv.readJob.mainState == EepNone
    requires !w.drv.readJob.initialOp && w.drv.readJob.currSeq !in w.drv.bus.failed
    requires PrefixRead(w.drv.compare, w.dev.mem, w.drv.job.eepAddr, w.drv.readSize)
    ensures CompareOutcome(w.(drv := PortionDone(w.drv)), w0, r, src)
  {
    var n, c := w.drv.readSize, r.length - w.drv.job.left;
    assert InRange(w.drv) && src[c..c + n] == w.drv.user[c..c + n];
    if SameBytes(w.drv) {
      EqualSoFar(src, w.dev.mem, r.start, c, n);
      EqualPortion(w, w0, r, src);
    } else {
      DifferentPart(src, w.dev.mem, r, c, n);
    }
  }

  /** An equal portion ends the job or opens the next portion. */
  lemma EqualPortion(w: World, w0: World, r: Range, src: seq<byte>)
    requires CompareFrame(w, w0, r, src) && Checked(w, r, src) && InRange(w.drv) && SameBytes(w.drv)
    requires w.drv.result == JobPending && w.drv.jobType == EepCompare && !w.drv.firstTime
    requires w.drv.bus.pending.None? && !w.dev.wip
    requires var k := r.length - w.drv.job.left + w.drv.readSize; src[..k] == w.dev.mem[r.start..r.start + k]
    ensures CompareOutcome(w.(drv := PortionDone(w.drv)), w0, r, src)
  {
  }

  lemma EqualSoFar(src: seq<byte>, mem: seq<byte>, start: nat, c: nat, n: nat)
    requires c + n <= |src| && start + c + n <= |mem|
    requires src[..c] == mem[start..start + c] && src[c..c + n] == mem[start + c..start + c + n]
    ensures src[..c + n] == mem[start..start + c + n]
  {
    assert src[..c + n] == src[..c] + src[c..c + n];
    assert mem[start..start + c + n] == mem[start..start + c] + mem[start + c..start + c + n];
  }

  lemma DifferentPart(src: seq<byte>, mem: seq<byte>, r: Range, c: nat, n: nat)
    requires c + n <= r.length <= |src| && r.start + r.length <= |mem|
    requires src[c..c + n] != mem[r.start + c..r.start + c + n]
    ensures src[..r.length] != mem[r.start..r.start + r.length]
  {
    if src[..r.length] == mem[r.start..r.start + r.length] {
      forall k | c <= k < c + n
        ensures src[k] == mem[r.start + k]
      {
        assert src[..r.length][k] == mem[r.start..r.start + r.length][k];
      }
    }
  }

  lemma CallKeepsCompareOutcome(w: World, w0: World, r: Range, src: seq<byte>, accept: bool)
    requires Comparing(w, w0, r, src) && w.drv.result == JobPending
    ensures CompareOutcome(Next(w, MainFunction(accept)), w0, r, src)
  {
    OpenedIsReading(w, w0, r, src);
    OpenedCall(w.(drv := Opened(w.drv)), w0, r, src, accept);
    assert CompareStep(w.drv, accept) == CompareStep(Opened(w.drv), accept);
  }

  /** A call once the portion has been set up. */
  lemma OpenedCall(w: World, w0: World, r: Range, src: seq<byte>, accept: bool)
    requires Comparing(w, w0, r, src) && w.drv.result == JobPending && !w.drv.firstTime
    ensures CompareOutcome(w.(drv := CompareStep(w.drv, accept)), w0, r, src)
  {
    ProcessKeepsReading(w, PortionTask(w.drv), w.drv.readJob, accept);
    ConcludedCall(w, w0, r, src, ProcessJob(w.drv.bus, w.drv.readJob, accept));
  }

  lemma ConcludedCall(w: World, w0: World, r: Range, src: seq<byte>, s: Step)
    requires Comparing(w, w0, r, src) && w.drv.result == JobPending && !w.drv.firstTime
    requires s.job.Ready() && EngineAnswer(w, PortionTask(w.drv), w.drv.readJob, s)
    ensures CompareOutcome(w.(drv := Concluded(w.drv, s)), w0, r, src)
  {
    if s.rv == SeqOk {
      PortionDoneKeepsOutcome(w.(drv := w.drv.(bus := s.bus, readJob := s.job)), w0, r, src);
    }
  }

  /** A mismatch is never left: every call and every event reproduces the same world. */
  lemma MismatchIsFixed(w: World, e: Event)
    requires Runnable(w) && Mismatch(w)
    ensures Next(w, e) == w
  {
  }

  lemma {:induction false} MismatchIsForever(w: World, es: seq<Event>)
    requires Runnable(w) && Mismatch(w)
    ensures Run(w, es) == w
    decreases |es|
  {
    if es != [] {
      MismatchIsFixed(w, es[0]);
      MismatchIsForever(w, es[1..]);
    }
  }

  lemma EventKeepsCompareOutcome(w: World, w0: World, r: Range, src: seq<byte>, e: Event)
    requires CompareFrame(w, w0, r, src) && CompareOutcome(w, w0, r, src)
    ensures CompareOutcome(Next(w, e), w0, r, src)
  {
    if w.drv.result == JobPending {
      if Mismatch(w) {
        MismatchIsFixed(w, e);
      } else {
        match e
        case MainFunction(accept) => CallKeepsCompareOutcome(w, w0, r, src, accept);
        case SpiDone(ok, sent, noise) =>
          if w.drv.bus.pending.Some? {
            SpiKeepsReading(w, PortionTask(w.drv), w.drv.readJob, ok, sent, noise);
          }
        case ProgramDone =>
      }
    }
  }

  lemma {:induction false} RunKeepsCompareOutcome(w: World, w0: World, r: Range, src: seq<byte>, es: seq<Event>)
    requires CompareFrame(w, w0, r, src) && CompareOutcome(w, w0, r, src)
    ensures CompareOutcome(Run(w, es), w0, r, src)
    decreases |es|
  {
    if es != [] {
      EventKeepsCompareOutcome(w, w0, r, src, es[0]);
      RunKeepsCompareOutcome(Next(w, es[0]), w0, r, src, es[1..]);
    }
  }

  /** Eep_Compare followed by any run.  Device and caller's bytes are never changed and no read
      leaves the compare buffer; success means that every byte is equal; a portion is found
      different only if the ranges are. */
  lemma CompareIsSound(w: World, addr: nat, data: seq<byte>, length: nat, es: seq<Event>)
    requires AtRest(w) && w.drv.firstTime && length <= |data| && Admissible(w, addr, length)
    ensures var w' := Run(Armed(w, EepCompare, addr, data, length), es);
      var start := w.drv.cfg.base + addr;
      && w'.drv.bus.sane && w'.dev == w.dev && w'.drv.user == data
      && (w'.drv.result != JobPending ==> AtRest(w') && w'.drv.firstTime)
      && (w'.drv.result == JobOk ==> data[..length] == w.dev.mem[start..start + length])
      && (Mismatch(w') ==> data[..length] != w.dev.mem[start..start + length])
  {
    var r := Range(w.drv.cfg.base + addr, length);
    var w1 := Armed(w, EepCompare, addr, data, length);
    assert Comparing(w1, w, r, data);
    RunKeepsCompareOutcome(w1, w, r, data, es);
  }
}
