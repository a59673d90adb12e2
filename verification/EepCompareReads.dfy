/** The reads of a compare job: its portions, and the chunks of each, move every byte once. */
module EepCompareReads {
  import opened Common
  import opened EepDriver
  import opened EepWorld
  import opened EepWrite
  import opened EepCompare
  import opened EepProgress

  /** The commands of a compare job: those of one portion behind those of the other. */
  function CompareTiles(addr: nat, left: nat, chunkSize: nat, pageSize: nat): (r: seq<Command>)
    requires chunkSize > 0
    decreases left
  {
    if left == 0 then []
    else
      var n := Min(left, CMP_BUFF_SIZE);
      Tiles(EepCompare, addr, n, chunkSize, pageSize) + CompareTiles(addr + n, left - n, chunkSize, pageSize)
  }

  lemma {:induction false} TileAppend(a: seq<Command>, b: seq<Command>, s: Sequence, addr: nat, n: nat, m: nat)
    requires Tile(a, s, addr, n) && Tile(b, s, addr + n, m)
    ensures Tile(a + b, s, addr, n + m)
    decreases |a|
  {
    if a == [] {
      assert a + b == b;
    } else {
      assert (a + b)[1..] == a[1..] + b;
      TileAppend(a[1..], b, s, addr + a[0].length, n - a[0].length, m);
    }
  }

  lemma {:induction false} CompareTilesTile(addr: nat, left: nat, c: nat, p: nat)
    requires c > 0
    ensures Tile(CompareTiles(addr, left, c, p), ReadSequence, addr, left)
    decreases left
  {
    if left > 0 {
      var n := Min(left, CMP_BUFF_SIZE);
      TilesTile(EepCompare, addr, n, c, p);
      CompareTilesTile(addr + n, left - n, c, p);
      TileAppend(Tiles(EepCompare, addr, n, c, p), CompareTiles(addr + n, left - n, c, p), ReadSequence, addr, n, left - n);
    }
  }

  /** Portions of a compare of `left` bytes. */
  function Portions(left: nat): nat {
    (left + 63) / 64
  }

  /** How many commands that takes. */
  function CompareCount(length: nat, c: nat): nat
    requires c > 0
  {
    (length / 64) * ((64 + c - 1) / c) + (length % 64 + c - 1) / c
  }

  /** Full portions need `64 / c` commands each, rounded up, and the last one as many as it needs. */
  lemma {:induction false} CompareChunks(addr: nat, q: nat, rest: nat, c: nat, p: nat, per: nat)
    requires c > 0 && rest < CMP_BUFF_SIZE && per == (CMP_BUFF_SIZE + c - 1) / c
    ensures |CompareTiles(addr, CMP_BUFF_SIZE * q + rest, c, p)| == q * per + (rest + c - 1) / c
    decreases q
  {
    if q == 0 {
      LastPortion(addr, rest, c, p);
    } else {
      FullPortion(addr, CMP_BUFF_SIZE * q + rest, c, p);
      CompareChunks(addr + CMP_BUFF_SIZE, q - 1, rest, c, p, per);
      assert CMP_BUFF_SIZE * q + rest - CMP_BUFF_SIZE == CMP_BUFF_SIZE * (q - 1) + rest;
      MulStep(q, per);
    }
  }

  lemma MulStep(q: nat, per: nat)
    requires q > 0
    ensures q * per == (q - 1) * per + per
  {
  }

  lemma LastPortion(addr: nat, left: nat, c: nat, p: nat)
    requires c > 0 && left < CMP_BUFF_SIZE
    ensures |CompareTiles(addr, left, c, p)| == (left + c - 1) / c
  {
    ReadChunks(EepCompare, addr, left, c, p);
    if left > 0 {
      assert CompareTiles(addr + left, 0, c, p) == [];
    }
  }

  lemma FullPortion(addr: nat, left: nat, c: nat, p: nat)
    requires c > 0 && left >= CMP_BUFF_SIZE
    ensures |CompareTiles(addr, left, c, p)|
         == (CMP_BUFF_SIZE + c - 1) / c + |CompareTiles(addr + CMP_BUFF_SIZE, left - CMP_BUFF_SIZE, c, p)|
  {
    ReadChunks(EepCompare, addr, CMP_BUFF_SIZE, c, p);
  }

  lemma NextPortion(addr: nat, left: nat, c: nat, p: nat)
    requires c > 0 && left > 0
    ensures var n := Min(left, CMP_BUFF_SIZE);
      && |CompareTiles(addr, left, c, p)| == Chunks(EepCompare, addr, n, c, p) + |CompareTiles(addr + n, left - n, c, p)|
      && Portions(left) == 1 + Portions(left - n)
  {
  }

  lemma CompareCounts(addr: nat, length: nat, c: nat, p: nat)
    requires c > 0
    ensures |CompareTiles(addr, length, c, p)| == CompareCount(length, c)
  {
    CompareChunks(addr, length / CMP_BUFF_SIZE, length % CMP_BUFF_SIZE, c, p, (CMP_BUFF_SIZE + c - 1) / c);
  }

  // ---------------------------------------------------------------- accounting

  /** The portion is read with the block size of the job. */
  predicate SameBlock(d: Driver) {
    && d.job.chunkSize > 0
    && (!d.firstTime ==>
          d.readSize <= d.job.left && d.readJob.chunkSize == d.job.chunkSize && d.readJob.pageSize == d.job.pageSize)
  }

  /** The commands behind those of the current portion. */
  function LaterTiles(d: Driver): seq<Command>
    requires SameBlock(d) && !d.firstTime
  {
    CompareTiles(d.job.eepAddr + d.readSize, d.job.left - d.readSize, d.job.chunkSize, d.job.pageSize)
  }

  /** The commands that are still to be sent. */
  function Outstanding(d: Driver): seq<Command>
    requires SameBlock(d)
  {
    if d.firstTime then CompareTiles(d.job.eepAddr, d.job.left, d.job.chunkSize, d.job.pageSize)
    else TilesLeft(EepCompare, d.readJob) + LaterTiles(d)
  }

  /** What one call does to the commands sent and outstanding. */
  predicate CompareAccounted(d: Driver, d': Driver)
    requires SameBlock(d)
  {
    match d'.result
    case JobPending =>
      SameBlock(d') && d'.bus.sent + Outstanding(d') == d.bus.sent + Outstanding(d)
    case JobOk => d'.bus.sent == d.bus.sent + Outstanding(d)
    case JobFailed => d'.bus.sent == d.bus.sent
    case JobCanceled => false
  }

  /** Setting up the first portion sends nothing. */
  lemma OpenedAccounts(d: Driver)
    requires SameBlock(d) && d.job.Ready() && d.readJob.Ready() && 0 < d.job.left
    ensures SameBlock(Opened(d)) && Outstanding(Opened(d)) == Outstanding(d) && Opened(d).bus == d.bus
  {
  }

  /** The end of a portion sends nothing either. */
  lemma PortionAccounts(d: Driver)
    requires SameBlock(d) && !d.firstTime && d.result == JobPending && d.job.Ready() && d.readJob.Ready()
    requires d.readJob.left == 0
    ensures CompareAccounted(d, PortionDone(d))
  {
    var d' := PortionDone(d);
    assert Outstanding(d) == LaterTiles(d) by {
      assert TilesLeft(EepCompare, d.readJob) == [];
    }
    if InRange(d) && SameBytes(d) {
      if d.readSize < d.job.left {
        assert LaterTiles(d) == Outstanding(d');
      } else {
        assert LaterTiles(d) == [];
      }
    }
  }

  /** A call that keeps the engine going. */
  lemma PendingAccounts(d: Driver, s: Step)
    requires SameBlock(d) && !d.firstTime && d.result == JobPending && s.job.Ready() && d.job.Ready()
    requires s.rv == SeqPending && s.job.chunkSize == d.readJob.chunkSize && s.job.pageSize == d.readJob.pageSize
    requires s.bus.sent + TilesLeft(EepCompare, s.job) == d.bus.sent + TilesLeft(EepCompare, d.readJob)
    ensures CompareAccounted(d, Concluded(d, s))
  {
    var later, before, after := LaterTiles(d), TilesLeft(EepCompare, d.readJob), TilesLeft(EepCompare, s.job);
    assert s.bus.sent + (after + later) == (s.bus.sent + after) + later;
    assert d.bus.sent + (before + later) == (d.bus.sent + before) + later;
  }

  /** What one call of processJob does to the commands of the portion. */
  lemma EngineAccounts(t: Task, bus: Bus, job: JobInfo, accept: bool)
    requires Engine(t, bus, job) && Quiet(bus, job, false)
    ensures var s := ProcessJob(bus, job, accept);
      if s.rv == SeqPending
      then && s.job.chunkSize == job.chunkSize && s.job.pageSize == job.pageSize
           && s.bus.sent + TilesLeft(t.kind, s.job) == bus.sent + TilesLeft(t.kind, job)
      else s.bus == bus && (s.rv == SeqOk ==>
             s.job.left == job.left == 0 && s.job.chunkSize == job.chunkSize && s.job.pageSize == job.pageSize)
  {
    ProcessKeepsEngine(t, bus, job, accept, false);
    if bus.pending.Some? {
      OwnedBuffersUntouched(t, bus, job, accept);
    } else if ProcessJob(bus, job, accept).rv == SeqPending {
      CallAccounts(t, bus, job, accept);
    }
  }

  /** A call that finds the portion read. */
  lemma ReadAccounts(d: Driver, s: Step)
    requires SameBlock(d) && !d.firstTime && d.result == JobPending && s.job.Ready() && d.job.Ready()
    requires s.rv == SeqOk && s.bus == d.bus && s.job.left == d.readJob.left == 0
    requires s.job.chunkSize == d.readJob.chunkSize && s.job.pageSize == d.readJob.pageSize
    ensures CompareAccounted(d, Concluded(d, s))
  {
    var d1 := d.(bus := s.bus, readJob := s.job);
    PortionAccounts(d1);
    SameOutstanding(d, d1);
    assert Concluded(d, s) == PortionDone(d1);
  }

  lemma SameOutstanding(d: Driver, d1: Driver)
    requires SameBlock(d) && !d.firstTime && d1 == d.(readJob := d1.readJob) && SameBlock(d1)
    requires d1.readJob.left == d.readJob.left == 0
    ensures Outstanding(d1) == Outstanding(d)
  {
    assert TilesLeft(EepCompare, d.readJob) == [] == TilesLeft(EepCompare, d1.readJob);
  }

  /** A call on an opened portion after processJob has answered `s`. */
  lemma ConcludedAccounts(d: Driver, s: Step)
    requires SameBlock(d) && !d.firstTime && d.result == JobPending && s.job.Ready() && d.job.Ready()
    requires if s.rv == SeqPending
      then && s.job.chunkSize == d.readJob.chunkSize && s.job.pageSize == d.readJob.pageSize
           && s.bus.sent + TilesLeft(EepCompare, s.job) == d.bus.sent + TilesLeft(EepCompare, d.readJob)
      else s.bus == d.bus && (s.rv == SeqOk ==>
             s.job.left == d.readJob.left == 0 && s.job.chunkSize == d.readJob.chunkSize && s.job.pageSize == d.readJob.pageSize)
    ensures CompareAccounted(d, Concluded(d, s))
  {
    if s.rv == SeqPending {
      PendingAccounts(d, s);
    } else if s.rv == SeqOk {
      ReadAccounts(d, s);
    }
  }

  lemma OpenedCallAccounts(w: World, w0: World, r: Range, src: seq<byte>, accept: bool)
    requires Comparing(w, w0, r, src) && w.drv.result == JobPending && !w.drv.firstTime && SameBlock(w.drv)
    ensures CompareAccounted(w.drv, CompareStep(w.drv, accept))
  {
    EngineAccounts(PortionTask(w.drv), w.drv.bus, w.drv.readJob, accept);
    ConcludedAccounts(w.drv, ProcessJob(w.drv.bus, w.drv.readJob, accept));
  }

  lemma EventCompareAccounts(w: World, w0: World, r: Range, src: seq<byte>, e: Event)
    requires Comparing(w, w0, r, src) && w.drv.result == JobPending && SameBlock(w.drv)
    ensures CompareAccounted(w.drv, Next(w, e).drv)
  {
    if e.MainFunction? {
      OpenedAccounts(w.drv);
      OpenedIsReading(w, w0, r, src);
      OpenedCallAccounts(w.(drv := Opened(w.drv)), w0, r, src, e.accept);
      assert CompareStep(w.drv, e.accept) == CompareStep(Opened(w.drv), e.accept);
    }
  }

  lemma {:induction false} CompareRunAccounts(w: World, w0: World, r: Range, src: seq<byte>, es: seq<Event>)
    requires CompareOutcome(w, w0, r, src) && w.drv.result == JobPending && SameBlock(w.drv)
    ensures var sent, all := Run(w, es).drv.bus.sent, w.drv.bus.sent + Outstanding(w.drv);
      Begins(sent, all) && (Run(w, es).drv.result == JobOk ==> sent == all)
    decreases |es|
  {
    AccountsBegin(w.drv.bus.sent, Outstanding(w.drv));
    if Mismatch(w) {
      MismatchIsForever(w, es);
    } else if es != [] {
      var w1 := Next(w, es[0]);
      EventCompareAccounts(w, w0, r, src, es[0]);
      EventKeepsCompareOutcome(w, w0, r, src, es[0]);
      if w1.drv.result == JobPending {
        CompareRunAccounts(w1, w0, r, src, es[1..]);
      } else {
        EndedStays(w1, es[1..]);
      }
    }
  }

  /** Every run of a compare job sends the reads of its portions in order and none twice, all of them on
      success, and together they read each byte of the range once. */
  lemma CompareIsBounded(w: World, addr: nat, data: seq<byte>, length: nat, es: seq<Event>)
    requires AtRest(w) && w.drv.firstTime && length <= |data| && Admissible(w, addr, length)
    ensures var w' := Run(Armed(w, EepCompare, addr, data, length), es);
      var start, c := w.drv.cfg.base + addr, ReadBlock(w.drv);
      && c > 0
      && var tiles := CompareTiles(start, length, c, w.dev.page);
         && Tile(tiles, ReadSequence, start, length)
         && |tiles| == CompareCount(length, c)
         && Begins(w'.drv.bus.sent, w.drv.bus.sent + tiles)
         && (w'.drv.result == JobOk ==> w'.drv.bus.sent == w.drv.bus.sent + tiles)
  {
    var r, c := Range(w.drv.cfg.base + addr, length), ReadBlock(w.drv);
    ArmedIsOutstanding(w, addr, data, length);
    CompareRunAccounts(Armed(w, EepCompare, addr, data, length), w, r, data, es);
    CompareTilesTile(r.start, length, c, w.dev.page);
    CompareCounts(r.start, length, c, w.dev.page);
  }

  /** An armed compare job has all its reads before it. */
  lemma ArmedIsOutstanding(w: World, addr: nat, data: seq<byte>, length: nat)
    requires AtRest(w) && w.drv.firstTime && length <= |data| && Admissible(w, addr, length)
    ensures var w1, r := Armed(w, EepCompare, addr, data, length), Range(w.drv.cfg.base + addr, length);
      && CompareOutcome(w1, w, r, data) && w1.drv.result == JobPending && SameBlock(w1.drv)
      && w1.drv.bus.sent == w.drv.bus.sent && ReadBlock(w.drv) > 0
      && Outstanding(w1.drv) == CompareTiles(r.start, length, ReadBlock(w.drv), w.dev.page)
  {
    assert Comparing(Armed(w, EepCompare, addr, data, length), w, Range(w.drv.cfg.base + addr, length), data);
  }
}
