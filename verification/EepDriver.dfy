/** The EEPROM driver: job information, the SPI handler it talks to, and the two entry points that
    a scheduler calls, one to arm a job and one to advance it.

    The step functions describe one call; the class `Eep` performs the call on its fields. */
module EepDriver {
  import opened Common

  const E2_WRITE: byte := 0x2
  const E2_READ: byte := 0x3
  const E2_RDSR: byte := 0x5

  /** Length of the static compare buffer, SPI_EB_MAX_LENGTH. */
  const CMP_BUFF_SIZE := 64

  datatype Sequence = Cmd2Sequence | ReadSequence | WriteSequence

  datatype SeqResult = SeqOk | SeqPending | SeqFailed

  datatype JobState = JobMain | JobReadStatus | JobReadStatusResult

  datatype JobType = EepNone | EepCompare | EepErase | EepRead | EepWrite

  datatype Status = Uninit | Idle | Busy

  datatype JobResult = JobOk | JobPending | JobFailed | JobCanceled

  datatype Mode = Slow | Fast

  datatype Buffer = UserBuffer | CompareBuffer

  /** What a data channel may point at: nothing, the status byte, or a place in a buffer. */
  datatype Place = Nowhere | StatusByte | At(buffer: Buffer, offset: nat)

  datatype Config = Config(
    base: nat, size: nat, pageSize: nat,
    fastRead: nat, fastWrite: nat, normalRead: nat, normalWrite: nat)
  {
    predicate Valid() {
      && 0 < pageSize
      && 0 < fastRead && 0 < fastWrite && 0 < normalRead && 0 < normalWrite
      && base + size <= 0x1_0000
    }
  }

  /** Eep_JobInfoType. */
  datatype JobInfo = JobInfo(
    target: Place, eepAddr: nat, left: nat, state: JobState, mainState: JobType,
    currSeq: Sequence, chunkSize: nat, pageSize: nat, initialOp: bool)
  {
    /** The page arithmetic of a write job divides by its page size. */
    predicate Ready() {
      mainState == EepWrite ==> pageSize > 0
    }
  }

  /** A read or write sequence that the SPI handler accepted: its device address and its bytes. */
  datatype Command = Command(sequence: Sequence, addr: nat, length: nat)

  /** The external buffers shared with the SPI handler, and the state of that handler.
      `sent` lists the accepted read and write sequences; `sane` is cleared when an ASSERT of the
      driver fails, when a transfer leaves its buffer or when a sequence carries the wrong command. */
  datatype Bus = Bus(
    cmd: byte, status: byte, addr: nat, tx: Place, rx: Place, length: nat,
    pending: Option<Sequence>, failed: set<Sequence>, sent: seq<Command>, sane: bool)
  {
    /** Spi_GetSequenceResult. */
    function Result(s: Sequence): SeqResult {
      if pending == Some(s) then SeqPending else if s in failed then SeqFailed else SeqOk
    }

    /** Spi_SetupEB on the data channel. */
    function SetupData(t: Place, r: Place, n: nat): Bus {
      this.(tx := t, rx := r, length := n)
    }

    /** Spi_AsyncTransmit; the handler refuses when it is busy or when the environment says so. */
    function Transmit(s: Sequence, accept: bool): Bus {
      if accept && pending.None?
      then this.(pending := Some(s), failed := failed - {s},
                 sent := if s == Cmd2Sequence then sent else sent + [Command(s, addr, length)])
      else this
    }
  }

  /** Eep_Global together with the statics of Eep_MainFunction and the memory they point into. */
  datatype Driver = Driver(
    cfg: Config, status: Status, result: JobResult, jobType: JobType, mode: Mode, bus: Bus,
    job: JobInfo, readJob: JobInfo, firstTime: bool, readSize: nat,
    user: seq<byte>, compare: seq<byte>)

  function Min(a: nat, b: nat): nat {
    if a <= b then a else b
  }

  const IDLE_BUS := Bus(0, 0, 0, Nowhere, Nowhere, 0, None, {}, [], true)

  const NO_JOB := JobInfo(Nowhere, 0, 0, JobMain, EepNone, Cmd2Sequence, 0, 0, false)

  /** Zeroed memory before Eep_Init; there is no configuration yet. */
  const ZEROED :=
    Driver(Config(0, 0, 0, 0, 0, 0, 0), Uninit, JobOk, EepNone, Slow, IDLE_BUS, NO_JOB, NO_JOB, true, 0, [],
           seq(CMP_BUFF_SIZE, _ => 0))

  /** Eep_Init: a NULL configuration or a busy driver is rejected.  Job and statics are not reset. */
  function Initialised(d: Driver, config: Option<Config>, defaultMode: Mode): Driver {
    if config.None? || d.status == Busy then d
    else d.(cfg := config.value, status := Idle, result := JobOk, mode := defaultMode)
  }

  // ---------------------------------------------------------------- processJob

  /** Bytes moved by the next main operation. */
  function ChunkOf(kind: JobType, addr: nat, left: nat, chunkSize: nat, pageSize: nat): (n: nat)
    requires kind == EepWrite ==> pageSize > 0
    ensures n <= left && (left > 0 && chunkSize > 0 ==> n > 0)
  {
    var c := Min(left, chunkSize);
    if kind == EepWrite then Min(c, pageSize - addr % pageSize) else c
  }

  function MainSequence(kind: JobType): Sequence {
    if kind == EepWrite then WriteSequence else ReadSequence
  }

  datatype Step = Step(bus: Bus, job: JobInfo, rv: SeqResult, done: bool)

  /** case JOB_READ_STATUS. */
  function StepReadStatus(bus: Bus, job: JobInfo, accept: bool): Step {
    var ok := accept && bus.pending.None?;
    var b := bus.SetupData(Nowhere, StatusByte, 1).(cmd := E2_RDSR).Transmit(Cmd2Sequence, accept);
    Step(b, job.(currSeq := Cmd2Sequence, state := if ok then JobReadStatusResult else JobReadStatus),
         SeqPending, true)
  }

  /** case JOB_READ_STATUS_RESULT. */
  function StepStatusResult(bus: Bus, job: JobInfo): Step {
    Step(bus, job.(state := if bus.status % 2 == 1 then JobReadStatus else JobMain), SeqPending, false)
  }

  /** case JOB_MAIN. */
  function StepMain(bus: Bus, job: JobInfo, accept: bool): (s: Step)
    requires job.Ready()
    ensures s.job.Ready()
  {
    if job.left == 0 then
      Step(bus, job.(mainState := EepNone), SeqOk, true)
    else if job.mainState !in {EepRead, EepCompare, EepWrite} then
      Step(bus.(addr := job.eepAddr % 0x1_0000, sane := bus.sane && job.mainState == EepErase),
           job, SeqPending, true)
    else
      var n := ChunkOf(job.mainState, job.eepAddr, job.left, job.chunkSize, job.pageSize);
      var write := job.mainState == EepWrite;
      var s := MainSequence(job.mainState);
      var ok := accept && bus.pending.None?;
      var b := bus.(addr := job.eepAddr % 0x1_0000, cmd := if write then E2_WRITE else E2_READ)
                  .SetupData(if write then job.target else Nowhere,
                             if write then Nowhere else job.target, n)
                  .Transmit(s, accept);
      var j := job.(currSeq := s);
      Step(b, if ok then Advance(j, n).(state := JobReadStatus) else j, SeqPending, true)
  }

  function Advance(job: JobInfo, n: nat): JobInfo
    requires n <= job.left
  {
    job.(eepAddr := job.eepAddr + n, left := job.left - n, target := Shift(job.target, n))
  }

  function Shift(p: Place, n: nat): Place {
    if p.At? then At(p.buffer, p.offset + n) else p
  }

  function StepJob(bus: Bus, job: JobInfo, accept: bool): (s: Step)
    requires job.Ready()
    ensures s.job.Ready()
  {
    match job.state
    case JobReadStatus => StepReadStatus(bus, job, accept)
    case JobReadStatusResult => StepStatusResult(bus, job)
    case JobMain => StepMain(bus, job, accept)
  }

  /** The do-while loop: only the status-result case asks for another round. */
  function LoopJob(bus: Bus, job: JobInfo, accept: bool): (s: Step)
    requires job.Ready()
    ensures s.job.Ready()
    decreases job.state == JobReadStatusResult
  {
    var s := StepJob(bus, job, accept);
    if s.done then s else LoopJob(s.bus, s.job, accept)
  }

  /** processJob. */
  function ProcessJob(bus: Bus, job: JobInfo, accept: bool): (s: Step)
    requires job.Ready()
    ensures s.job.Ready()
  {
    var rv := bus.Result(job.currSeq);
    if job.initialOp then
      var b := bus.(sane := bus.sane && rv != SeqPending && job.state == JobMain);
      LoopJob(b, job.(initialOp := false), accept)
    else if rv != SeqOk then
      Step(bus, job, rv, true)
    else
      LoopJob(bus, job, accept)
  }

  // ---------------------------------------------------------------- entry points

  /** Eep_Read, Eep_Write and Eep_Compare: `kind` says which.  A missing buffer is a NULL pointer. */
  function Arm(d: Driver, kind: JobType, addr: nat, data: Option<seq<byte>>, length: nat): (r: (Driver, bool))
  {
    if d.status == Uninit || d.status == Busy || data.None? || addr >= d.cfg.size
       || length < 1 || d.cfg.size - addr < length
    then (d, false)
    else
      var chunk := match (kind, d.mode)
        case (EepWrite, Fast) => d.cfg.fastWrite
        case (EepWrite, Slow) => d.cfg.normalWrite
        case (_, Fast) => d.cfg.fastRead
        case (_, Slow) => d.cfg.normalRead;
      var page := if kind == EepRead then d.job.pageSize else d.cfg.pageSize;
      var job := JobInfo(At(UserBuffer, 0), addr + d.cfg.base, length, JobMain, kind,
                         MainSequence(kind), chunk, page, true);
      (d.(status := Busy, result := JobPending, jobType := kind, job := job, user := data.value), true)
  }

  /** A request is taken exactly if the driver is idle, a buffer is given and the range is not empty and on
      the device; the last byte of the device is included.  A rejected request changes nothing.  A taken
      one leaves a pending job for exactly that range and buffer, with the block size of the mode. */
  lemma ArmExactly(d: Driver, kind: JobType, addr: nat, data: Option<seq<byte>>, length: nat)
    requires kind in {EepRead, EepWrite, EepCompare}
    ensures var (d', ok) := Arm(d, kind, addr, data, length);
      && (ok <==> d.status == Idle && data.Some? && 1 <= length && addr + length <= d.cfg.size)
      && if !ok then d' == d
         else
           && d'.status == Busy && d'.result == JobPending && d'.jobType == d'.job.mainState == kind
           && d'.user == data.value && d'.job.target == At(UserBuffer, 0)
           && d'.job.eepAddr == d.cfg.base + addr && d'.job.left == length
           && d'.job.chunkSize == (if d.mode == Fast then if kind == EepWrite then d.cfg.fastWrite else d.cfg.fastRead
                                   else if kind == EepWrite then d.cfg.normalWrite else d.cfg.normalRead)
           && d'.(status := d.status, result := d.result, jobType := d.jobType, job := d.job, user := d.user) == d
  {
  }

  function Finish(d: Driver, r: JobResult): Driver {
    d.(result := r, jobType := EepNone, status := Idle)
  }

  /** Eep_Cancel.  It does not reset the statics of a compare job. */
  function Canceled(d: Driver): Driver {
    d.(result := if d.result == JobPending then JobCanceled else d.result, status := Idle)
  }

  /** A driver may take requests again after a cancel.  Only a pending job is marked as cancelled, and from
      then on calls of the scheduler do nothing until the next request. */
  lemma CancelExactly(d: Driver, accept: bool)
    requires d.job.Ready() && d.readJob.Ready()
    ensures var d' := Canceled(d);
      && d'.status == Idle && d' == d.(status := Idle, result := d'.result)
      && (d'.result == JobCanceled <==> d.result == JobPending || d.result == JobCanceled)
      && (d'.result != JobCanceled ==> d'.result == d.result) && MainStep(d', accept) == d'
  {
  }

  /** The read job for the next portion of a compare job. */
  function Portion(d: Driver): (r: (JobInfo, nat)) {
    var n := Min(d.job.left, CMP_BUFF_SIZE);
    (d.job.(left := n, target := At(CompareBuffer, 0)), n)
  }

  /** The ranges that memcmp looks at lie inside the two buffers, and the portion inside the job. */
  predicate InRange(d: Driver) {
    && d.job.target.At?
    && d.readSize <= d.job.left
    && d.readSize <= |d.compare|
    && d.job.target.offset + d.readSize <= |d.user|
  }

  /** memcmp between the compare buffer and the caller's bytes. */
  predicate SameBytes(d: Driver)
    requires InRange(d)
  {
    d.compare[..d.readSize] == d.user[d.job.target.offset..d.job.target.offset + d.readSize]
  }

  /** What happens to a compare job once its current portion has been read. */
  function PortionDone(d: Driver): (r: Driver)
    requires d.job.Ready() && d.readJob.Ready()
    ensures r.job.Ready() && r.readJob.Ready()
  {
    if !InRange(d) then d.(bus := d.bus.(sane := false))
    else if !SameBytes(d) then d
    else
      var d1 := d.(job := Advance(d.job, d.readSize));
      if d1.job.left == 0 then Finish(d1, JobOk).(firstTime := true)
      else
        var (j, n) := Portion(d1);
        d1.(readJob := j, readSize := n)
  }

  /** Eep_MainFunction, case EEP_COMPARE. */
  function CompareStep(d: Driver, accept: bool): (r: Driver)
    requires d.job.Ready() && d.readJob.Ready()
    ensures r.job.Ready() && r.readJob.Ready()
  {
    var d1 := Opened(d);
    Concluded(d1, ProcessJob(d1.bus, d1.readJob, accept))
  }

  /** The first call turns the caller's job into a read of its first portion. */
  function Opened(d: Driver): (r: Driver)
    requires d.job.Ready() && d.readJob.Ready()
    ensures r.job.Ready() && r.readJob.Ready()
  {
    if d.firstTime
    then d.(readJob := Portion(d).0, readSize := Portion(d).1, firstTime := false)
    else d
  }

  /** A compare call after processJob has answered `s`. */
  function Concluded(d: Driver, s: Step): (r: Driver)
    requires d.job.Ready() && s.job.Ready()
    ensures r.job.Ready() && r.readJob.Ready()
  {
    var d1 := d.(bus := s.bus, readJob := s.job);
    match s.rv
    case SeqPending => d1
    case SeqFailed => Finish(d1, JobFailed).(firstTime := true)
    case SeqOk => PortionDone(d1)
  }

  /** Eep_MainFunction, cases EEP_ERASE, EEP_READ and EEP_WRITE. */
  function TransferStep(d: Driver, accept: bool): (r: Driver)
    requires d.job.Ready()
    ensures r.job.Ready() && r.readJob == d.readJob
  {
    var s := ProcessJob(d.bus, d.job, accept);
    var d1 := d.(bus := s.bus, job := s.job);
    match s.rv
    case SeqOk => Finish(d1, JobOk)
    case SeqPending => d1
    case SeqFailed => Finish(d1, JobFailed)
  }

  /** Eep_MainFunction. */
  function MainStep(d: Driver, accept: bool): (r: Driver)
    requires d.job.Ready() && d.readJob.Ready()
    ensures r.job.Ready() && r.readJob.Ready()
  {
    if d.result != JobPending then d
    else match d.jobType
      case EepCompare => CompareStep(d, accept)
      case EepNone => d.(bus := d.bus.(sane := false))
      case _ => TransferStep(d, accept)
  }

  // ---------------------------------------------------------------- the driver object

  class Eep {
    var cfg: Config
    var status: Status
    var result: JobResult
    var jobType: JobType
    var mode: Mode
    var bus: Bus
    var job: JobInfo
    var readJob: JobInfo
    var firstTime: bool
    var readSize: nat
    var user: seq<byte>
    var compare: seq<byte>

    function State(): Driver
      reads this
    {
      Driver(cfg, status, result, jobType, mode, bus, job, readJob, firstTime, readSize, user, compare)
    }

    /** Zeroed memory, with nothing outstanding on the SPI handler. */
    constructor ()
      ensures State() == ZEROED
    {
      cfg := Config(0, 0, 0, 0, 0, 0, 0);
      status, result, jobType, mode := Uninit, JobOk, EepNone, Slow;
      bus := IDLE_BUS;
      job, readJob := NO_JOB, NO_JOB;
      firstTime, readSize := true, 0;
      user, compare := [], seq(CMP_BUFF_SIZE, _ => 0);
    }

    /** Eep_Init. */
    method Init(config: Option<Config>, defaultMode: Mode)
      modifies this
      ensures State() == Initialised(old(State()), config, defaultMode)
    {
      if config.None? || status == Busy {
        return;
      }
      cfg := config.value;
      status, result := Idle, JobOk;
      mode := defaultMode;
    }

    /** Eep_AsyncTransmit; `accept` is the SPI handler's willingness to take the sequence. */
    method AsyncTransmit(s: Sequence, j: JobInfo, accept: bool) returns (j': JobInfo, ok: bool)
      modifies this`bus
      ensures j' == j.(currSeq := s)
      ensures bus == old(bus).Transmit(s, accept)
      ensures ok == (accept && old(bus).pending.None?)
    {
      j' := j.(currSeq := s);
      ok := accept && bus.pending.None?;
      bus := bus.Transmit(s, accept);
    }

    /** processJob.  The loop body runs at most twice, and not at all while a sequence is outstanding or
        after one has failed. */
    method Process(j0: JobInfo, accept: bool) returns (j: JobInfo, rv: SeqResult, ghost rounds: nat)
      requires j0.Ready()
      modifies this`bus
      ensures var s := ProcessJob(old(bus), j0, accept);
              bus == s.bus && j == s.job && rv == s.rv
      ensures rounds <= 2
      ensures rounds == 0 <==> !j0.initialOp && old(bus).Result(j0.currSeq) != SeqOk
      ensures rounds == 2 <==>
        j0.state == JobReadStatusResult && (j0.initialOp || old(bus).Result(j0.currSeq) == SeqOk)
    {
      j, rounds := j0, 0;
      rv := bus.Result(j.currSeq);
      if j.initialOp {
        bus := bus.(sane := bus.sane && rv != SeqPending && j.state == JobMain);
        j := j.(initialOp := false);
      } else if rv != SeqOk {
        return;
      }
      rv := SeqPending;

      ghost var goal := LoopJob(bus, j, accept);
      var done := false;
      while !done
        invariant j.Ready()
        invariant if done then goal == Step(bus, j, rv, true)
                  else rv == SeqPending && goal == LoopJob(bus, j, accept)
        invariant rounds == 0 ==> !done && j.state == j0.state
        invariant rounds == 1 ==> if j0.state == JobReadStatusResult then !done && j.state != JobReadStatusResult else done
        invariant rounds == 2 ==> done && j0.state == JobReadStatusResult
        invariant rounds <= 2
        decreases 2 - rounds
      {
        rounds := rounds + 1;
        match j.state {
          case JobReadStatus =>
            bus := bus.SetupData(Nowhere, StatusByte, 1);
            bus := bus.(cmd := E2_RDSR);
            var ok;
            j, ok := AsyncTransmit(Cmd2Sequence, j, accept);
            done := true;
            j := j.(state := if ok then JobReadStatusResult else JobReadStatus);
          case JobReadStatusResult =>
            // The Write-In-Progress bit.
            j := j.(state := if bus.status % 2 == 1 then JobReadStatus else JobMain);
          case JobMain =>
            done := true;
            if j.left > 0 {
              j := MainOperation(j, accept);
            } else {
              j := j.(mainState := EepNone);
              rv := SeqOk;
            }
        }
      }
    }

    /** The JOB_MAIN case with bytes left: set up and send one chunk. */
    method MainOperation(j0: JobInfo, accept: bool) returns (j: JobInfo)
      requires j0.Ready() && j0.state == JobMain && j0.left > 0
      modifies this`bus
      ensures Step(bus, j, SeqPending, true) == StepMain(old(bus), j0, accept)
    {
      j := j0;
      var chunkSize := if j.left <= j.chunkSize then j.left else j.chunkSize;
      bus := bus.(addr := j.eepAddr % 0x1_0000);
      var ok := false;
      match j.mainState {
        case EepErase =>
        case EepRead | EepCompare =>
          bus := bus.(cmd := E2_READ);
          bus := bus.SetupData(Nowhere, j.target, chunkSize);
          j, ok := AsyncTransmit(ReadSequence, j, accept);
        case EepWrite =>
          var sizeLeftInPage := j.pageSize - j.eepAddr % j.pageSize;
          if chunkSize > sizeLeftInPage {
            chunkSize := sizeLeftInPage;
          }
          bus := bus.(cmd := E2_WRITE, addr := j.eepAddr % 0x1_0000);
          bus := bus.SetupData(j.target, Nowhere, chunkSize);
          j, ok := AsyncTransmit(WriteSequence, j, accept);
        case EepNone =>
          bus := bus.(sane := false);
      }
      if ok {
        j := j.(eepAddr := j.eepAddr + chunkSize);
        j := j.(target := Shift(j.target, chunkSize));
        j := j.(left := j.left - chunkSize, state := JobReadStatus);
      }
    }

    /** Eep_Read, Eep_Write and Eep_Compare. */
    method Start(kind: JobType, addr: nat, data: Option<seq<byte>>, length: nat) returns (ok: bool)
      requires kind in {EepRead, EepWrite, EepCompare}
      modifies this
      ensures ok <==> old(status) == Idle && data.Some? && 1 <= length && addr + length <= cfg.size
      ensures (State(), ok) == Arm(old(State()), kind, addr, data, length)
    {
      if status == Uninit || status == Busy || data.None? || addr >= cfg.size {
        return false;
      }
      if !(length >= 1 && cfg.size - addr >= length) {
        return false;
      }
      status, result, jobType := Busy, JobPending, kind;
      var chunk;
      if mode == Fast {
        chunk := if kind == EepWrite then cfg.fastWrite else cfg.fastRead;
      } else {
        chunk := if kind == EepWrite then cfg.normalWrite else cfg.normalRead;
      }
      job := job.(chunkSize := chunk, initialOp := true, currSeq := MainSequence(kind));
      if kind != EepRead {
        job := job.(pageSize := cfg.pageSize);
      }
      job := job.(eepAddr := addr + cfg.base, target := At(UserBuffer, 0), left := length);
      job := job.(state := JobMain, mainState := kind);
      user := data.value;
      return true;
    }

    /** Eep_MainFunction. */
    method MainFunction(accept: bool)
      requires job.Ready() && readJob.Ready()
      modifies this
      ensures State() == MainStep(old(State()), accept)
    {
      if result == JobPending {
        match jobType {
          case EepCompare =>
            MainCompare(accept);
          case EepErase | EepRead | EepWrite =>
            MainTransfer(accept);
          case EepNone =>
            bus := bus.(sane := false);
        }
      }
    }

    /** The cases EEP_ERASE, EEP_READ and EEP_WRITE. */
    method MainTransfer(accept: bool)
      requires job.Ready()
      modifies this
      ensures State() == TransferStep(old(State()), accept)
    {
      var j, rv, _ := Process(job, accept);
      job := j;
      if rv == SeqOk {
        result, jobType, status := JobOk, EepNone, Idle;
      } else if rv != SeqPending {
        result, jobType, status := JobFailed, EepNone, Idle;
      }
    }

    /** Eep_Cancel. */
    method Cancel()
      modifies this
      ensures State() == Canceled(old(State()))
    {
      if result == JobPending {
        result := JobCanceled;
      }
      status := Idle;
    }

    method MainCompare(accept: bool)
      requires job.Ready() && readJob.Ready()
      modifies this
      ensures State() == CompareStep(old(State()), accept)
    {
      if firstTime {
        OpenPortion();
        firstTime := false;
      }
      assert State() == Opened(old(State()));
      ghost var s := ProcessJob(bus, readJob, accept);
      ghost var before := State();
      var j, rv, _ := Process(readJob, accept);
      readJob := j;
      assert State() == before.(bus := s.bus, readJob := s.job);
      if rv == SeqOk {
        FinishPortion();
      } else if rv != SeqPending {
        firstTime := true;
        result, jobType, status := JobFailed, EepNone, Idle;
      }
    }

    /** The tail of a compare call: check the portion just read and set up the next one. */
    method FinishPortion()
      requires job.Ready() && readJob.Ready()
      modifies this
      ensures State() == PortionDone(old(State()))
    {
      if !InRange(State()) {
        bus := bus.(sane := false);
      } else if compare[..readSize] != user[job.target.offset..job.target.offset + readSize] {
        // Only reported: the job stays pending.
      } else {
        job := job.(target := Shift(job.target, readSize));
        job := job.(eepAddr := job.eepAddr + readSize, left := job.left - readSize);
        if job.left == 0 {
          result, jobType, status := JobOk, EepNone, Idle;
          firstTime := true;
        } else {
          OpenPortion();
        }
      }
    }

    /** Copies the caller's job into the read job, cut down to what the compare buffer holds. */
    method OpenPortion()
      modifies this`readJob, this`readSize
      ensures (readJob, readSize) == Portion(old(State()))
    {
      readJob := job;
      readSize := if job.left <= CMP_BUFF_SIZE then job.left else CMP_BUFF_SIZE;
      readJob := readJob.(left := readSize, target := At(CompareBuffer, 0));
    }
  }
}
