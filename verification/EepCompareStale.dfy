/** Compare jobs that find the statics of a cancelled mismatch: `firstTime` is clear and the compare buffer
    still holds a portion of the earlier job. */
module EepCompareStale {
  import opened Common
  import opened EepDevice
  import opened EepDriver
  import opened EepWorld
  import opened EepWrite
  import opened EepRead
  import opened EepCompare
  import opened EepProgress
  import opened EepCompareEnds
  import opened EepBusyStart
  import opened EepBusyRead
  import opened EepTwins
  import opened EepCompareExact

  // ---------------------------------------------------------------- the first call

  /** The statics that Eep_Cancel leaves behind after a mismatch: a finished read of a portion. */
  predicate StaleStatics(d: Driver) {
    && !d.firstTime && 1 <= d.readSize <= CMP_BUFF_SIZE
    && d.readJob.left == 0 && d.readJob.state == JobMain && d.readJob.mainState == EepNone
    && !d.readJob.initialOp && d.readJob.currSeq !in d.bus.failed
  }

  /** A compare job that finds them may be started. */
  predicate StaleStart(w: World, addr: nat, data: seq<byte>, length: nat) {
    && AtRestButBusy(w) && StaleStatics(w.drv)
    && length <= |data| && Admissible(w, addr, length)
  }

  /** Its first call checks the old contents of the compare buffer, whatever the device does meanwhile. */
  lemma StaleCompareCall(w: World, dev: Device, addr: nat, data: seq<byte>, length: nat, accept: bool)
    requires StaleStart(w, addr, data, length) && |dev.mem| > 0 && dev.page > 0 && |dev.mem| % dev.page == 0
    ensures var u := World(Armed(w, EepCompare, addr, data, length).drv, dev);
      Runnable(u) && Next(u, MainFunction(accept)) == u.(drv := PortionDone(u.drv))
  {
  }

  /** On a device that holds those contents, that is a compare like any other. */
  lemma StaleCompareOutcome(w: World, addr: nat, data: seq<byte>, length: nat, accept: bool)
    requires !w.dev.wip && StaleStart(w, addr, data, length)
    requires w.drv.readSize <= length
    requires PrefixRead(w.drv.compare, w.dev.mem, w.drv.cfg.base + addr, w.drv.readSize)
    ensures var w1 := Armed(w, EepCompare, addr, data, length);
      CompareOutcome(Next(w1, MainFunction(accept)), w, Range(w.drv.cfg.base + addr, length), data)
  {
    StaleCompareCall(w, w.dev, addr, data, length, accept);
    PortionDoneKeepsOutcome(Armed(w, EepCompare, addr, data, length), w, Range(w.drv.cfg.base + addr, length), data);
  }

  lemma {:induction false} StaleCompareSound(w: World, addr: nat, data: seq<byte>, length: nat, es: seq<Event>)
    requires !w.dev.wip && StaleStart(w, addr, data, length)
    requires w.drv.readSize <= length
    requires PrefixRead(w.drv.compare, w.dev.mem, w.drv.cfg.base + addr, w.drv.readSize)
    ensures var start, w' := w.drv.cfg.base + addr, Run(Armed(w, EepCompare, addr, data, length), es);
      w'.drv.bus.sane && (w'.drv.result == JobOk ==> data[..length] == w.dev.mem[start..start + length])
    decreases |es|
  {
    var w1 := Armed(w, EepCompare, addr, data, length);
    if es != [] {
      if es[0].MainFunction? {
        StaleCompareOutcome(w, addr, data, length, es[0].accept);
        RunKeepsCompareOutcome(Next(w1, es[0]), w, Range(w.drv.cfg.base + addr, length), data, es[1..]);
      } else {
        assert Next(w1, es[0]) == w1;
        StaleCompareSound(w, addr, data, length, es[1..]);
      }
    }
  }

  lemma SameFront(data: seq<byte>, mem: seq<byte>, start: nat, n: nat, length: nat)
    requires n <= length <= |data| && start + length <= |mem| && data[..length] == mem[start..start + length]
    ensures data[..n] == mem[start..start + n]
  {
    forall i | 0 <= i < n
      ensures data[i] == mem[start + i]
    {
      assert data[..length][i] == mem[start..start + length][i];
    }
  }

  /** After the first call on the imagined device the job is done or reads on behind the stale bytes. */
  lemma StaleIsComparing(w: World, addr: nat, data: seq<byte>, length: nat)
    requires !w.dev.wip && StaleStart(w, addr, data, length)
    requires w.drv.readSize <= length && data[..w.drv.readSize] == w.drv.compare[..w.drv.readSize]
    requires var start := w.drv.cfg.base + addr; data[..length] == w.dev.mem[start..start + length]
    ensures var r := Range(w.drv.cfg.base + addr, length);
      var w2 := Next(Armed(w, EepCompare, addr, data, length), MainFunction(true));
      || w2.drv.result == JobOk
      || (BetweenRounds(w2, w, r, data) && !w2.drv.firstTime && Beyond(w2.drv, r.start + w.drv.readSize))
  {
    var start, n := w.drv.cfg.base + addr, w.drv.readSize;
    SameFront(data, w.dev.mem, start, n, length);
    StaleCompareCall(w, w.dev, addr, data, length, true);
    StaleCompareOutcome(w, addr, data, length, true);
    var w1 := Armed(w, EepCompare, addr, data, length);
    assert data[0..n] == data[..n] && InRange(w1.drv) && SameBytes(w1.drv);
  }

  lemma StaleOnCourse(w: World, addr: nat, data: seq<byte>, length: nat, mem: seq<byte>)
    requires !w.dev.wip && StaleStart(w, addr, data, length)
    requires w.drv.readSize <= length && data[..w.drv.readSize] == w.drv.compare[..w.drv.readSize]
    requires var start := w.drv.cfg.base + addr;
      && AgreeOn(mem, w.dev.mem, start + w.drv.readSize, start + length) && mem[start..start + length] == data[..length]
    ensures var r := Range(w.drv.cfg.base + addr, length);
      var w2 := Next(Armed(w, EepCompare, addr, data, length), MainFunction(true));
      w2.drv.result == JobOk || OnCourse(w2, mem, OnDevice(w, mem), r, data, r.start + w.drv.readSize)
  {
    TwinCall(w, addr, data, length, mem);
    StaleIsComparing(OnDevice(w, mem), addr, data, length);
  }

  /** A request and a call do not look at the device. */
  lemma TwinCall(w: World, addr: nat, data: seq<byte>, length: nat, mem: seq<byte>)
    requires Runnable(w) && w.drv.cfg.Valid() && |mem| == |w.dev.mem|
    ensures Runnable(OnDevice(w, mem))
    ensures Next(Armed(OnDevice(w, mem), EepCompare, addr, data, length), MainFunction(true))
         == OnDevice(Next(Armed(w, EepCompare, addr, data, length), MainFunction(true)), mem)
  {
  }

  lemma StaleRunCompletes(w: World, addr: nat, data: seq<byte>, length: nat, mem: seq<byte>) returns (es: seq<Event>)
    requires !w.dev.wip && StaleStart(w, addr, data, length)
    requires w.drv.readSize <= length && data[..w.drv.readSize] == w.drv.compare[..w.drv.readSize]
    requires var start := w.drv.cfg.base + addr;
      && AgreeOn(mem, w.dev.mem, start + w.drv.readSize, start + length) && mem[start..start + length] == data[..length]
    ensures Run(Armed(w, EepCompare, addr, data, length), es).drv.result == JobOk
  {
    var r, w1 := Range(w.drv.cfg.base + addr, length), Armed(w, EepCompare, addr, data, length);
    var w2 := Next(w1, MainFunction(true));
    StaleOnCourse(w, addr, data, length, mem);
    es := [MainFunction(true)];
    RunOne(w1, es);
    if w2.drv.result != JobOk {
      var k := CompletesHere(w2, mem, OnDevice(w, mem), r, data, r.start + w.drv.readSize);
      OkBehind(w1, es, Rounds(k));
      es := es + Rounds(k);
    }
  }

  /** Stale bytes that the device does not hold make a compare succeed on data that are not there. */
  lemma StaleCompareFails(w: World, addr: nat, length: nat) returns (data: seq<byte>, es: seq<Event>)
    requires AtRestButBusy(w) && !w.dev.wip && StaleStatics(w.drv) && Admissible(w, addr, length)
    requires w.drv.readSize <= length
    requires !PrefixRead(w.drv.compare, w.dev.mem, w.drv.cfg.base + addr, w.drv.readSize)
    ensures var start := w.drv.cfg.base + addr;
      && |data| == length && data != w.dev.mem[start..start + length]
      && Run(Armed(w, EepCompare, addr, data, length), es).drv.result == JobOk
  {
    var start, n := w.drv.cfg.base + addr, w.drv.readSize;
    data := OtherFront(w.dev.mem, start, w.drv.compare[..n], length);
    assert data[..n] == w.drv.compare[..n];
    es := StaleRunCompletes(w, addr, data, length, Splice(w.dev.mem, start, data));
  }

  // ---------------------------------------------------------------- exactly when the promise is kept

  /** A job no longer than the stale portion is decided by its first call, busy device or not. */
  lemma {:induction false} StaleWholeSound(w: World, dev: Device, addr: nat, data: seq<byte>, length: nat,
                                           es: seq<Event>)
    requires StaleStart(w, addr, data, length) && w.drv.readSize == length
    requires PrefixRead(w.drv.compare, w.dev.mem, w.drv.cfg.base + addr, length)
    requires |dev.mem| > 0 && dev.page > 0 && |dev.mem| % dev.page == 0
    ensures var u := World(Armed(w, EepCompare, addr, data, length).drv, dev);
      var start := w.drv.cfg.base + addr;
      && Runnable(u) && Run(u, es).drv.bus.sane
      && (Run(u, es).drv.result == JobOk ==> data[..length] == w.dev.mem[start..start + length])
    decreases |es|
  {
    var u := World(Armed(w, EepCompare, addr, data, length).drv, dev);
    if es == [] {
    } else if es[0].MainFunction? {
      StaleCompareCall(w, dev, addr, data, length, es[0].accept);
      assert u.drv.user[0..length] == data[..length];
      if data[..length] == w.drv.compare[..length] {
        EndedStays(Next(u, es[0]), es[1..]);
      } else {
        assert Next(u, es[0]) == u;
        StaleWholeSound(w, dev, addr, data, length, es[1..]);
      }
    } else {
      StaleWholeSound(w, Next(u, es[0]).dev, addr, data, length, es[1..]);
    }
  }

  /** A job shorter than the stale portion makes the first call compare beyond the caller's bytes. */
  lemma StaleShortJob(w: World, addr: nat, data: seq<byte>, length: nat, accept: bool)
    requires StaleStart(w, addr, data, length) && w.drv.readSize > length
    ensures !Run(Armed(w, EepCompare, addr, data, length), [MainFunction(accept)]).drv.bus.sane
  {
    StaleCompareCall(w, w.dev, addr, data, length, accept);
    RunOne(Armed(w, EepCompare, addr, data, length), [MainFunction(accept)]);
  }

  /** The first call has accepted a stale portion that is on the device; a busy device now answers the
      first read of the next portion. */
  lemma StaleIsPoised(w: World, addr: nat, data: seq<byte>, length: nat, mem: seq<byte>)
    requires StaleStart(w, addr, data, length) && w.drv.readSize < length && |mem| == |w.dev.mem|
    requires data[..w.drv.readSize] == w.drv.compare[..w.drv.readSize]
    requires var start := w.drv.cfg.base + addr; data[..length] == mem[start..start + length]
    ensures var w2 := Next(Armed(w, EepCompare, addr, data, length), MainFunction(true));
      && Poised(w2) && w2.dev == w.dev && w2.drv.job.eepAddr == w.drv.cfg.base + addr + w.drv.readSize
      && PortionChunk(w2.drv) == NextChunk(w.drv, length)
      && Comparing(OnDevice(Idled(w2), mem), OnDevice(Idled(w), mem), Range(w.drv.cfg.base + addr, length), data)
  {
    var v := OnDevice(Idled(w), mem);
    var w1 := Armed(w, EepCompare, addr, data, length);
    StaleCompareCall(w, w.dev, addr, data, length, true);
    StaleCompareCall(v, v.dev, addr, data, length, true);
    StaleIsComparing(v, addr, data, length);
    assert data[0..w.drv.readSize] == data[..w.drv.readSize] && InRange(w1.drv) && SameBytes(w1.drv);
  }

  /** The first read behind the stale portion. */
  function NextChunk(d: Driver, length: nat): nat
    requires d.readSize <= length
  {
    Min(Min(length - d.readSize, CMP_BUFF_SIZE), ReadBlock(d))
  }

  lemma StaleNoiseFits(w: World, addr: nat, data: seq<byte>, length: nat, front: seq<byte>, mem: seq<byte>, w2: World)
    requires StaleStart(w, addr, data, length) && w.drv.readSize < length && |mem| == |w.dev.mem|
    requires data[..w.drv.readSize] == w.drv.compare[..w.drv.readSize] && |front| == NextChunk(w.drv, length)
    requires var start := w.drv.cfg.base + addr;
      var p := start + w.drv.readSize;
      && data[..length] == mem[start..start + length] && mem[p..p + |front|] == front
      && AgreeOn(mem, w.dev.mem, p + |front|, start + length)
    requires w2 == Next(Armed(w, EepCompare, addr, data, length), MainFunction(true))
    ensures Poised(w2) && w2.dev == w.dev
    ensures NoiseFits(w2, front, mem, OnDevice(Idled(w), mem), Range(w.drv.cfg.base + addr, length), data)
  {
    StaleIsPoised(w, addr, data, length, mem);
    NoiseIs(front);
  }

  lemma StaleBusyCompletes(w: World, addr: nat, data: seq<byte>, length: nat, front: seq<byte>, mem: seq<byte>)
    returns (es: seq<Event>)
    requires StaleStart(w, addr, data, length) && w.dev.wip && w.drv.readSize < length && |mem| == |w.dev.mem|
    requires data[..w.drv.readSize] == w.drv.compare[..w.drv.readSize] && |front| == NextChunk(w.drv, length)
    requires var start := w.drv.cfg.base + addr;
      var p := start + w.drv.readSize;
      && data[..length] == mem[start..start + length] && mem[p..p + |front|] == front
      && AgreeOn(mem, w.dev.mem, p + |front|, start + length)
    ensures Run(Armed(w, EepCompare, addr, data, length), es).drv.result == JobOk
  {
    var w1, r := Armed(w, EepCompare, addr, data, length), Range(w.drv.cfg.base + addr, length);
    var w2 := Next(w1, MainFunction(true));
    StaleNoiseFits(w, addr, data, length, front, mem, w2);
    var k := BusyPortionCompletes(w2, front, mem, OnDevice(Idled(w), mem), r, data);
    es := OkAfterCall(w1, NoisyRound(front) + Rounds(k));
  }

  lemma OkAfterCall(w: World, fs: seq<Event>) returns (es: seq<Event>)
    requires Runnable(w) && Run(Next(w, MainFunction(true)), fs).drv.result == JobOk
    ensures Run(w, es).drv.result == JobOk
  {
    es := [MainFunction(true)] + fs;
    assert es[0] == MainFunction(true) && es[1..] == fs;
  }

  /** Data that agree with the device on `n` bytes and differ in the `m` bytes behind. */
  lemma OtherMiddle(mem: seq<byte>, start: nat, n: nat, m: nat, length: nat) returns (front: seq<byte>, data: seq<byte>)
    requires 1 <= m && n + m <= length && start + length <= |mem|
    ensures |front| == m && |data| == length && data[..length] == data && data != mem[start..start + length]
    ensures data[..n] == mem[start..start + n]
    ensures var mem', p := Splice(mem, start, data), start + n;
      && |mem'| == |mem| && mem'[start..start + length] == data && mem'[p..p + m] == front
      && AgreeOn(mem', mem, p + m, start + length)
  {
    front := OtherBytes(mem, start + n, m);
    var both := mem[start..start + n] + front;
    assert both[n..] == front && mem[start..start + n + m][n..] == mem[start + n..start + n + m];
    data := OtherFront(mem, start, both, length);
    assert data[..n] == both[..n];
    assert Splice(mem, start, data)[start + n..start + n + m] == data[n..n + m] == front;
  }

  /** On a busy device it is the second portion that may be noise. */
  lemma StaleBusyFails(w: World, addr: nat, length: nat) returns (data: seq<byte>, es: seq<Event>)
    requires AtRestButBusy(w) && StaleStatics(w.drv) && Admissible(w, addr, length)
    requires w.dev.wip && w.drv.readSize < length
    requires PrefixRead(w.drv.compare, w.dev.mem, w.drv.cfg.base + addr, w.drv.readSize)
    ensures var start := w.drv.cfg.base + addr;
      && |data| == length && data != w.dev.mem[start..start + length]
      && Run(Armed(w, EepCompare, addr, data, length), es).drv.result == JobOk
  {
    var start, front := w.drv.cfg.base + addr, [];
    front, data := OtherMiddle(w.dev.mem, start, w.drv.readSize, NextChunk(w.drv, length), length);
    es := StaleBusyCompletes(w, addr, data, length, front, Splice(w.dev.mem, start, data));
  }

  /** A device that does not hold the stale portion may just as well finish programming first. */
  lemma StaleFails(w: World, addr: nat, length: nat) returns (data: seq<byte>, es: seq<Event>)
    requires AtRestButBusy(w) && StaleStatics(w.drv) && Admissible(w, addr, length)
    requires w.drv.readSize <= length
    requires !PrefixRead(w.drv.compare, w.dev.mem, w.drv.cfg.base + addr, w.drv.readSize)
    ensures var start := w.drv.cfg.base + addr;
      && |data| == length && data != w.dev.mem[start..start + length]
      && Run(Armed(w, EepCompare, addr, data, length), es).drv.result == JobOk
  {
    data, es := StaleCompareFails(Idled(w), addr, length);
    var w1 := Armed(w, EepCompare, addr, data, length);
    RunOne(w1, [ProgramDone]);
    assert Next(w1, ProgramDone) == Armed(Idled(w), EepCompare, addr, data, length);
    OkBehind(w1, [ProgramDone], es);
    es := [ProgramDone] + es;
  }

  /** The promise of a compare job, for all data and all runs: it stays inside the caller's bytes, and
      success means equal bytes. */
  ghost predicate CompareKept(w: World, addr: nat, length: nat)
    requires AtRestButBusy(w)
  {
    forall data: seq<byte>, es: seq<Event> | length <= |data| :: KeptBy(w, addr, data, length, es)
  }

  ghost predicate KeptBy(w: World, addr: nat, data: seq<byte>, length: nat, es: seq<Event>)
    requires AtRestButBusy(w) && length <= |data|
  {
    var start, w' := w.drv.cfg.base + addr, Run(Armed(w, EepCompare, addr, data, length), es);
    && w'.drv.bus.sane
    && (w'.drv.result == JobOk ==> start + length <= |w.dev.mem| && data[..length] == w.dev.mem[start..start + length])
  }

  /** What a caller could check beforehand. */
  predicate StaleIsHarmless(w: World, addr: nat, length: nat) {
    var start, n := w.drv.cfg.base + addr, w.drv.readSize;
    && n <= length && PrefixRead(w.drv.compare, w.dev.mem, start, n)
    && (w.dev.wip ==> n == length)
  }

  lemma HarmlessIsKept(w: World, addr: nat, data: seq<byte>, length: nat, es: seq<Event>)
    requires StaleStart(w, addr, data, length) && StaleIsHarmless(w, addr, length)
    ensures KeptBy(w, addr, data, length, es)
  {
    var w1 := Armed(w, EepCompare, addr, data, length);
    if w.drv.readSize == length {
      StaleWholeSound(w, w.dev, addr, data, length, es);
      assert World(w1.drv, w.dev) == w1;
    } else {
      StaleCompareSound(w, addr, data, length, es);
    }
  }

  lemma HarmfulIsBroken(w: World, addr: nat, length: nat) returns (data: seq<byte>, es: seq<Event>)
    requires AtRestButBusy(w) && StaleStatics(w.drv) && Admissible(w, addr, length)
    requires !StaleIsHarmless(w, addr, length)
    ensures |data| == length && !KeptBy(w, addr, data, length, es)
  {
    if w.drv.readSize > length {
      data, es := seq(length, _ => 0), [MainFunction(true)];
      StaleShortJob(w, addr, data, length, true);
    } else if PrefixRead(w.drv.compare, w.dev.mem, w.drv.cfg.base + addr, w.drv.readSize) {
      data, es := StaleBusyFails(w, addr, length);
      WrongIsNotKept(w, addr, data, length, es);
    } else {
      data, es := StaleFails(w, addr, length);
      WrongIsNotKept(w, addr, data, length, es);
    }
  }

  lemma WrongIsNotKept(w: World, addr: nat, data: seq<byte>, length: nat, es: seq<Event>)
    requires AtRestButBusy(w) && Admissible(w, addr, length) && |data| == length
    requires data != w.dev.mem[w.drv.cfg.base + addr..w.drv.cfg.base + addr + length]
    requires Run(Armed(w, EepCompare, addr, data, length), es).drv.result == JobOk
    ensures !KeptBy(w, addr, data, length, es)
  {
    assert data[..length] == data;
  }

  /** With the statics of a cancelled mismatch the promise is kept exactly if the job is at least as long
      as the stale portion, the device holds that portion at the new address, and the device is idle or
      the job no longer than the portion. */
  lemma StaleCompareExactly(w: World, addr: nat, length: nat)
    requires AtRestButBusy(w) && StaleStatics(w.drv) && Admissible(w, addr, length)
    ensures CompareKept(w, addr, length) <==> StaleIsHarmless(w, addr, length)
  {
    if StaleIsHarmless(w, addr, length) {
      forall data: seq<byte>, es: seq<Event> | length <= |data|
        ensures KeptBy(w, addr, data, length, es)
      {
        HarmlessIsKept(w, addr, data, length, es);
      }
    } else {
      var data, es := HarmfulIsBroken(w, addr, length);
    }
  }

  // ---------------------------------------------------------------- how a driver gets there

  /** A compare job, `n` cooperative rounds, and Eep_Cancel. */
  function ComparedAndCanceled(w: World, addr: nat, data: seq<byte>, length: nat, n: nat): World
    requires AtRest(w)
  {
    var w1 := Run(Armed(w, EepCompare, addr, data, length), Rounds(n));
    w1.(drv := Canceled(w1.drv))
  }

  /** What Eep_Cancel makes of a mismatch. */
  predicate StaleAfter(w2: World, w: World, r: Range) {
    && AtRest(w2) && StaleStatics(w2.drv) && w2.dev == w.dev && w2.drv.cfg == w.drv.cfg
    && w2.drv.status == Idle && w2.drv.result == JobCanceled
    && PrefixRead(w2.drv.compare, w.dev.mem, w2.drv.job.eepAddr, w2.drv.readSize)
    && r.start <= w2.drv.job.eepAddr && w2.drv.job.eepAddr + w2.drv.readSize <= r.start + r.length <= |w.dev.mem|
  }

  lemma CanceledMismatch(w1: World, w: World, r: Range, src: seq<byte>)
    requires CompareOutcome(w1, w, r, src) && Mismatch(w1)
    ensures StaleAfter(w1.(drv := Canceled(w1.drv)), w, r)
  {
    DifferentBytes(w1.drv);
  }

  /** Such a driver is reached from every resting one: compare different bytes, then cancel. */
  lemma MismatchThenCancel(w: World, addr: nat, data: seq<byte>, length: nat) returns (n: nat, w2: World)
    requires AtRest(w) && w.drv.firstTime && length <= |data| && Admissible(w, addr, length)
    requires data[..length] != w.dev.mem[w.drv.cfg.base + addr..w.drv.cfg.base + addr + length]
    ensures w2 == ComparedAndCanceled(w, addr, data, length, n)
    ensures StaleAfter(w2, w, Range(w.drv.cfg.base + addr, length))
  {
    var w1;
    n, w1 := FindMismatch(w, addr, data, length);
    CanceledMismatch(w1, w, Range(w.drv.cfg.base + addr, length), data);
    w2 := w1.(drv := Canceled(w1.drv));
  }

  lemma FindMismatch(w: World, addr: nat, data: seq<byte>, length: nat) returns (n: nat, w1: World)
    requires AtRest(w) && w.drv.firstTime && length <= |data| && Admissible(w, addr, length)
    requires data[..length] != w.dev.mem[w.drv.cfg.base + addr..w.drv.cfg.base + addr + length]
    ensures w1 == Run(Armed(w, EepCompare, addr, data, length), Rounds(n))
    ensures Mismatch(w1) && CompareOutcome(w1, w, Range(w.drv.cfg.base + addr, length), data)
  {
    n := ArmedIsDecided(w, addr, data, length);
    w1 := Run(Armed(w, EepCompare, addr, data, length), Rounds(n));
  }

  lemma DifferentBytes(d: Driver)
    requires InRange(d) && !SameBytes(d)
    ensures d.readSize >= 1
  {
  }

  /** With the driver in `w2` and the device as in `w`, run `es` of a compare job ends with OK on data that
      are not on the device. */
  ghost predicate Misled(w: World, w2: World, addr: nat, data: seq<byte>, length: nat, es: seq<Event>) {
    var start := w.drv.cfg.base + addr;
    && AtRest(w2) && w2.dev == w.dev && Admissible(w2, addr, length)
    && Run(Armed(w2, EepCompare, addr, data, length), es).drv.result == JobOk
    && start + length <= |w.dev.mem| && |data| == length && data != w.dev.mem[start..start + length]
  }

  /** The byte at `at` does not occur in the range. */
  predicate NewByte(mem: seq<byte>, r: Range, at: nat) {
    at < |mem| && r.start + r.length <= |mem| && mem[at] !in mem[r.start..r.start + r.length]
  }

  /** The whole story: compare a range with other bytes than are there, cancel, and a compare of a second
      place succeeds although its bytes are different.  It needs no more than a byte at the second place
      that does not occur in the first range. */
  lemma CancelledCompareMisleads(w: World, addr: nat, data: seq<byte>, length: nat, addr2: nat, length2: nat)
    returns (n: nat, w2: World, data2: seq<byte>, es: seq<Event>)
    requires AtRest(w) && w.drv.firstTime && length <= |data| && Admissible(w, addr, length)
    requires length <= length2 && addr2 + length2 <= w.drv.cfg.size
    requires data[..length] != w.dev.mem[w.drv.cfg.base + addr..w.drv.cfg.base + addr + length]
    requires NewByte(w.dev.mem, Range(w.drv.cfg.base + addr, length), w.drv.cfg.base + addr2)
    ensures w2 == ComparedAndCanceled(w, addr, data, length, n) && Misled(w, w2, addr2, data2, length2, es)
  {
    n, w2 := MismatchThenCancel(w, addr, data, length);
    data2, es := MisleadsAfterCancel(w, w2, Range(w.drv.cfg.base + addr, length), addr2, length2);
  }

  lemma MisleadsAfterCancel(w: World, w2: World, r: Range, addr2: nat, length2: nat)
    returns (data2: seq<byte>, es: seq<Event>)
    requires StaleAfter(w2, w, r) && r.length <= length2 && addr2 + length2 <= w.drv.cfg.size
    requires NewByte(w.dev.mem, r, w.drv.cfg.base + addr2)
    ensures Misled(w, w2, addr2, data2, length2, es)
  {
    var start2, p, k := w.drv.cfg.base + addr2, w2.drv.job.eepAddr, w2.drv.readSize;
    assert w2.drv.compare[..k][0] == w.dev.mem[p..p + k][0] == w.dev.mem[r.start..r.start + r.length][p - r.start];
    assert w2.drv.compare[..k][0] != w.dev.mem[start2..start2 + k][0];
    data2, es := StaleCompareFails(w2, addr2, length2);
  }
}
