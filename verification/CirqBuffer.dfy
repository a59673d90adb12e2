/** The circular buffer: fixed-size byte records in one block of memory, two pointers that wrap when
    they meet the end of the block, and a count. */
module CirqBuffer {
  import opened Arith
  import opened Common

  type Record = seq<byte>

  /** CirqBufferType; pointers are offsets from the start of the block. */
  datatype Ring = Ring(
    maxCnt: nat, dataSize: nat, bufEnd: nat, currCnt: nat, head: nat, tail: nat, mem: seq<byte>)

  // ---------------------------------------------------------------- the operations

  function InitRing(mem: seq<byte>, maxCnt: nat, dataSize: nat): Ring {
    Ring(maxCnt, dataSize, dataSize * maxCnt, 0, 0, 0, mem)
  }

  /** A pointer moved by one record: it wraps only if it meets the end exactly. */
  function Step(r: Ring, p: nat): nat {
    if p + r.dataSize == r.bufEnd then 0 else p + r.dataSize
  }

  function Load(r: Ring, p: nat): (d: Record)
    requires p + r.dataSize <= |r.mem|
  {
    r.mem[p..p + r.dataSize]
  }

  function Store(r: Ring, p: nat, d: Record): (r': Ring)
    requires p + |d| <= |r.mem|
  {
    r.(mem := r.mem[..p] + d + r.mem[p + |d|..])
  }

  function Push(r: Ring, d: Record): (a: (Ring, bool))
    requires r.head + |d| <= |r.mem|
  {
    if r.currCnt == r.maxCnt then (r, false)
    else (Store(r, r.head, d).(head := Step(r, r.head), currCnt := r.currCnt + 1), true)
  }

  function Pop(r: Ring): (a: (Ring, Option<Record>))
    requires r.tail + r.dataSize <= |r.mem| || r.currCnt == 0
  {
    if r.currCnt == 0 then (r, None)
    else (r.(tail := Step(r, r.tail), currCnt := r.currCnt - 1), Some(Load(r, r.tail)))
  }

  function PushLock(r: Ring): (a: (Ring, Option<nat>)) {
    if r.currCnt == r.maxCnt then (r, None) else (r.(head := Step(r, r.head)), Some(r.head))
  }

  function PopLock(r: Ring): (a: (Ring, Option<nat>)) {
    if r.currCnt == 0 then (r, None) else (r.(tail := Step(r, r.tail)), Some(r.tail))
  }

  function PushRelease(r: Ring): Ring {
    r.(currCnt := (r.currCnt + 1) % U32)
  }

  function PopRelease(r: Ring): Ring {
    r.(currCnt := (r.currCnt - 1) % U32)
  }

  function Walk(r: Ring, p: nat, n: nat): nat {
    if n == 0 then p else Step(r, Walk(r, p, n - 1))
  }

  function Peek(r: Ring, offset: nat): Option<nat> {
    if r.currCnt == 0 || offset > r.currCnt then None else Some(Walk(r, r.tail, offset))
  }

  // ---------------------------------------------------------------- slots

  /** The slot `k` places after slot `t`. */
  function Slot(r: Ring, t: nat, k: nat): nat
    requires t < r.maxCnt && k <= r.maxCnt
  {
    if t + k < r.maxCnt then t + k else t + k - r.maxCnt
  }

  /** Where slot `s` starts. */
  function Place(r: Ring, s: nat): nat {
    Span(s, r.dataSize)
  }

  /** The block holds exactly `maxCnt` records. */
  predicate Block(r: Ring) {
    r.maxCnt > 0 && |r.mem| == r.bufEnd == Place(r, r.maxCnt)
  }

  lemma InitBlock(mem: seq<byte>, maxCnt: nat, dataSize: nat)
    requires maxCnt > 0 && |mem| == dataSize * maxCnt
    ensures Block(InitRing(mem, maxCnt, dataSize))
  {
    SpanIsProduct(maxCnt, dataSize);
  }

  lemma SlotFits(r: Ring, s: nat)
    requires Block(r) && s < r.maxCnt
    ensures Place(r, s) + r.dataSize <= |r.mem|
  {
    SpanApart(s, r.maxCnt, r.dataSize);
  }

  /** The wrap by equality always fires: stepping from a slot gives the next slot, cyclically. */
  lemma StepIsNextSlot(r: Ring, s: nat)
    requires Block(r) && s < r.maxCnt
    ensures Step(r, Place(r, s)) == Place(r, Slot(r, s, 1))
  {
    assert Place(r, s + 1) == Place(r, s) + r.dataSize;
    if s + 1 < r.maxCnt {
      SpanApart(s + 1, r.maxCnt, r.dataSize);
      if r.dataSize == 0 {
        SpanIsProduct(s + 1, 0);
      }
    }
  }

  predicate PointersApart(r: Ring, p: nat, q: nat) {
    p + r.dataSize <= q || q + r.dataSize <= p
  }

  /** Different slots do not overlap. */
  lemma SlotsApart(r: Ring, s: nat, u: nat)
    requires s != u
    ensures PointersApart(r, Place(r, s), Place(r, u))
  {
    if s < u { SpanApart(s, u, r.dataSize); } else { SpanApart(u, s, r.dataSize); }
  }

  function AtSlot(r: Ring, s: nat): (d: Record)
    requires Block(r) && s < r.maxCnt
    ensures |d| == r.dataSize
  {
    SlotFits(r, s);
    Load(r, Place(r, s))
  }

  /** The `n` records from slot `t` on. */
  function Records(r: Ring, t: nat, n: nat): (ds: seq<Record>)
    requires Block(r) && t < r.maxCnt && n <= r.maxCnt
    ensures |ds| == n
  {
    seq(n, k requires 0 <= k < n => AtSlot(r, Slot(r, t, k)))
  }

  /** A load after a store sees the stored record at its place, and what was there before apart from it. */
  lemma LoadAfterStore(r: Ring, p: nat, d: Record, q: nat)
    requires |d| == r.dataSize && p + |d| <= |r.mem| && q + r.dataSize <= |r.mem|
    requires p == q || PointersApart(r, p, q)
    ensures var r' := Store(r, p, d);
      |r'.mem| == |r.mem| && Load(r', q) == if p == q then d else Load(r, q)
  {
    var r' := Store(r, p, d);
    if p == q {
      assert Load(r', q) == d;
    } else {
      assert Load(r', q) == Load(r, q);
    }
  }

  /** The same for slots. */
  lemma StoreThenSlot(r: Ring, s: nat, d: Record, u: nat)
    requires Block(r) && s < r.maxCnt && |d| == r.dataSize && u < r.maxCnt
    ensures Place(r, s) + |d| <= |r.mem|
    ensures var r' := Store(r, Place(r, s), d);
      Block(r') && AtSlot(r', u) == if u == s then d else AtSlot(r, u)
  {
    SlotFits(r, s);
    SlotFits(r, u);
    if u != s {
      SlotsApart(r, s, u);
      if Place(r, s) == Place(r, u) {
        EmptyRecords(r, s, d, u);
      }
    }
    LoadAfterStore(r, Place(r, s), d, Place(r, u));
  }

  /** Slots that share their place hold empty records. */
  lemma EmptyRecords(r: Ring, s: nat, d: Record, u: nat)
    requires Block(r) && s < r.maxCnt && u < r.maxCnt && u != s && |d| == r.dataSize && Place(r, s) == Place(r, u)
    ensures d == AtSlot(r, u) == []
  {
    SlotsApart(r, s, u);
  }

  lemma StoreAtSlot(r: Ring, s: nat, d: Record)
    requires Block(r) && s < r.maxCnt && |d| == r.dataSize
    ensures Place(r, s) + |d| <= |r.mem|
    ensures var r' := Store(r, Place(r, s), d);
      Block(r') && AtSlot(r', s) == d
      && forall u: nat | u < r.maxCnt && u != s :: AtSlot(r', u) == AtSlot(r, u)
  {
    StoreThenSlot(r, s, d, s);
    forall u: nat | u < r.maxCnt && u != s
      ensures AtSlot(Store(r, Place(r, s), d), u) == AtSlot(r, u)
    {
      StoreThenSlot(r, s, d, u);
    }
  }

  // ---------------------------------------------------------------- push and pop as a bounded queue

  /** The oldest record is in slot `t` and the free slots start where the records end. */
  predicate Shape(r: Ring, t: nat) {
    && Block(r) && t < r.maxCnt && r.currCnt <= r.maxCnt
    && r.tail == Place(r, t)
    && r.head == Place(r, Slot(r, t, r.currCnt))
  }

  function Contents(r: Ring, t: nat): seq<Record>
    requires Shape(r, t)
  {
    Records(r, t, r.currCnt)
  }

  /** Filling the slot behind the records appends. */
  lemma RecordsAppend(r: Ring, t: nat, n: nat, d: Record)
    requires Block(r) && t < r.maxCnt && n < r.maxCnt && |d| == r.dataSize
    ensures Place(r, Slot(r, t, n)) + |d| <= |r.mem|
    ensures var r' := Store(r, Place(r, Slot(r, t, n)), d);
      Block(r') && Records(r', t, n) == Records(r, t, n) && Records(r', t, n + 1) == Records(r, t, n) + [d]
  {
    StoreAtSlot(r, Slot(r, t, n), d);
    var r' := Store(r, Place(r, Slot(r, t, n)), d);
    assert Records(r', t, n) == Records(r, t, n);
  }

  lemma RecordsTail(r: Ring, t: nat, n: nat)
    requires Block(r) && t < r.maxCnt && 0 < n <= r.maxCnt
    ensures Records(r, t, n)[1..] == Records(r, Slot(r, t, 1), n - 1)
  {
  }

  lemma PushAppends(r: Ring, t: nat, d: Record)
    requires Shape(r, t) && |d| == r.dataSize
    ensures r.head + |d| <= |r.mem|
    ensures var (r', ok) := Push(r, d);
      && Shape(r', t) && (ok <==> r.currCnt < r.maxCnt)
      && Contents(r', t) == if ok then Contents(r, t) + [d] else Contents(r, t)
  {
    SlotFits(r, Slot(r, t, r.currCnt));
    if r.currCnt < r.maxCnt {
      StepIsNextSlot(r, Slot(r, t, r.currCnt));
      RecordsAppend(r, t, r.currCnt, d);
      var r1 := Store(r, r.head, d);
      assert Records(Push(r, d).0, t, r.currCnt + 1) == Records(r1, t, r.currCnt + 1);
    }
  }

  lemma PopRemovesOldest(r: Ring, t: nat)
    requires Shape(r, t)
    ensures r.tail + r.dataSize <= |r.mem|
    ensures var (r', d) := Pop(r);
      if r.currCnt == 0 then r' == r && d == None
      else Shape(r', Slot(r, t, 1)) && d == Some(Contents(r, t)[0]) && Contents(r', Slot(r, t, 1)) == Contents(r, t)[1..]
  {
    SlotFits(r, t);
    if r.currCnt > 0 {
      StepIsNextSlot(r, t);
      RecordsTail(r, t, r.currCnt);
      var r' := Pop(r).0;
      assert Records(r', Slot(r, t, 1), r.currCnt - 1) == Records(r, Slot(r, t, 1), r.currCnt - 1);
    }
  }

  lemma {:induction false} WalkIsSlot(r: Ring, t: nat, k: nat)
    requires Block(r) && t < r.maxCnt && k <= r.maxCnt
    ensures Walk(r, Place(r, t), k) == Place(r, Slot(r, t, k))
  {
    if k > 0 {
      WalkIsSlot(r, t, k - 1);
      StepIsNextSlot(r, Slot(r, t, k - 1));
    }
  }

  /** Peek addresses the k-th oldest record; one place further it still answers, with the slot that
      the next push fills (the oldest record, if the buffer is full) instead of NULL. */
  lemma PeekAddresses(r: Ring, t: nat, k: nat)
    requires Shape(r, t)
    ensures k < r.currCnt ==> Peek(r, k).Some? && Peek(r, k).value + r.dataSize <= |r.mem|
                              && Load(r, Peek(r, k).value) == Contents(r, t)[k]
    ensures Peek(r, r.currCnt) == if r.currCnt == 0 then None else Some(r.head)
    ensures Peek(r, k) == None <==> k > r.currCnt || r.currCnt == 0
  {
    WalkIsSlot(r, t, r.currCnt);
    if k < r.currCnt {
      WalkIsSlot(r, t, k);
      SlotFits(r, Slot(r, t, k));
    }
  }

  // ---------------------------------------------------------------- lock and release

  /** A whole push in place: lock, fill the slot handed out, release. */
  function PushInPlace(r: Ring, d: Record): (a: (Ring, bool))
    requires r.head + |d| <= |r.mem|
  {
    var (r1, p) := PushLock(r);
    if p.None? then (r1, false) else (PushRelease(Store(r1, p.value, d)), true)
  }

  /** A whole pop in place: lock, read the slot handed out, release. */
  function PopInPlace(r: Ring): (a: (Ring, Option<Record>))
    requires r.tail + r.dataSize <= |r.mem|
  {
    var (r1, p) := PopLock(r);
    if p.None? then (r1, None) else (PopRelease(r1), Some(Load(r1, p.value)))
  }

  /** Lock, fill and release appends the record and counts it; a full buffer hands out nothing. */
  lemma PushInPlaceAppends(r: Ring, t: nat, d: Record)
    requires Shape(r, t) && |d| == r.dataSize && r.maxCnt < U32
    ensures r.head + |d| <= |r.mem|
    ensures var (r', ok) := PushInPlace(r, d);
      && Shape(r', t) && (ok <==> r.currCnt < r.maxCnt)
      && Contents(r', t) == (if ok then Contents(r, t) + [d] else Contents(r, t))
      && r'.currCnt == |Contents(r', t)| == |Contents(r, t)| + (if ok then 1 else 0)
  {
    PushAppends(r, t, d);
    if r.currCnt < r.maxCnt {
      ModSmall(r.currCnt + 1, U32);
      assert PushInPlace(r, d).0 == Push(r, d).0;
    }
  }

  /** Lock and release removes the oldest record and counts it out; an empty buffer hands out nothing. */
  lemma PopInPlaceRemoves(r: Ring, t: nat)
    requires Shape(r, t) && r.maxCnt < U32
    ensures r.tail + r.dataSize <= |r.mem|
    ensures var (r', d) := PopInPlace(r);
      if r.currCnt == 0 then r' == r && d == None
      else && Shape(r', Slot(r, t, 1)) && d == Some(Contents(r, t)[0])
           && Contents(r', Slot(r, t, 1)) == Contents(r, t)[1..]
           && r'.currCnt == |Contents(r', Slot(r, t, 1))| == |Contents(r, t)| - 1
  {
    PopRemovesOldest(r, t);
    if r.currCnt > 0 {
      ModSmall(r.currCnt - 1, U32);
      assert PopInPlace(r).0 == Pop(r).0;
    }
  }

  // ---------------------------------------------------------------- runs of push and pop

  /** A push or pop with a copy, or in place by lock and release. */
  datatype Op = OpPush(d: Record, inPlace: bool) | OpPop(inPlace: bool)

  datatype Answer = Pushed | Full | Popped(d: Record) | Empty | Fault

  /** A bounded queue. */
  function FifoStep(max: nat, q: seq<Record>, op: Op): (seq<Record>, Answer) {
    match op
    case OpPush(d, _) => if |q| == max then (q, Full) else (q + [d], Pushed)
    case OpPop(_) => if q == [] then (q, Empty) else (q[1..], Popped(q[0]))
  }

  function FifoRun(max: nat, q: seq<Record>, ops: seq<Op>): (seq<Record>, seq<Answer>)
    decreases |ops|
  {
    if ops == [] then (q, [])
    else
      var (q1, a) := FifoStep(max, q, ops[0]);
      var (q2, answers) := FifoRun(max, q1, ops[1..]);
      (q2, [a] + answers)
  }

  predicate Fits(r: Ring, ops: seq<Op>) {
    forall i | 0 <= i < |ops| :: ops[i].OpPush? ==> |ops[i].d| == r.dataSize
  }

  /** The same on the ring; an access outside the block would answer `Fault`. */
  function RingStep(r: Ring, op: Op): (Ring, Answer) {
    match op
    case OpPush(d, inPlace) =>
      if r.head + |d| > |r.mem| then (r, Fault)
      else var (r', ok) := if inPlace then PushInPlace(r, d) else Push(r, d); (r', if ok then Pushed else Full)
    case OpPop(inPlace) =>
      if r.tail + r.dataSize > |r.mem| then (r, Fault)
      else var (r', d) := if inPlace then PopInPlace(r) else Pop(r); (r', if d.Some? then Popped(d.value) else Empty)
  }

  function RingRun(r: Ring, ops: seq<Op>): (Ring, seq<Answer>)
    decreases |ops|
  {
    if ops == [] then (r, [])
    else
      var (r1, a) := RingStep(r, ops[0]);
      var (r2, answers) := RingRun(r1, ops[1..]);
      (r2, [a] + answers)
  }

  /** Every sequence of pushes and pops, with a copy or in place, behaves as on a bounded first-in first-out
      queue. */
  lemma {:induction false} RunsRefineFifo(r: Ring, t: nat, ops: seq<Op>) returns (t': nat)
    requires Shape(r, t) && Fits(r, ops) && r.maxCnt < U32
    ensures var (r', answers) := RingRun(r, ops);
      Shape(r', t') && FifoRun(r.maxCnt, Contents(r, t), ops) == (Contents(r', t'), answers)
    decreases |ops|
  {
    if ops == [] {
      t' := t;
    } else {
      var t1 := StepRefinesFifo(r, t, ops[0]);
      t' := RunsRefineFifo(RingStep(r, ops[0]).0, t1, ops[1..]);
    }
  }

  lemma StepRefinesFifo(r: Ring, t: nat, op: Op) returns (t': nat)
    requires Shape(r, t) && (op.OpPush? ==> |op.d| == r.dataSize) && r.maxCnt < U32
    ensures var (r', a) := RingStep(r, op);
      && Shape(r', t') && r'.maxCnt == r.maxCnt && r'.dataSize == r.dataSize
      && FifoStep(r.maxCnt, Contents(r, t), op) == (Contents(r', t'), a)
  {
    if op.OpPush? {
      t' := t;
      PushAppends(r, t, op.d);
      PushInPlaceAppends(r, t, op.d);
    } else {
      t' := if r.currCnt == 0 then t else Slot(r, t, 1);
      PopRemovesOldest(r, t);
      PopInPlaceRemoves(r, t);
    }
  }

  /** An initialised buffer is empty, so all runs from it behave as from an empty queue. */
  lemma InitIsEmpty(mem: seq<byte>, maxCnt: nat, dataSize: nat)
    requires maxCnt > 0 && |mem| == dataSize * maxCnt
    ensures Shape(InitRing(mem, maxCnt, dataSize), 0) && Contents(InitRing(mem, maxCnt, dataSize), 0) == []
  {
    InitBlock(mem, maxCnt, dataSize);
  }

  lemma InitRunsRefineFifo(mem: seq<byte>, maxCnt: nat, dataSize: nat, ops: seq<Op>)
    requires 0 < maxCnt < U32 && |mem| == dataSize * maxCnt
    requires forall i | 0 <= i < |ops| :: ops[i].OpPush? ==> |ops[i].d| == dataSize
    ensures RingRun(InitRing(mem, maxCnt, dataSize), ops).1 == FifoRun(maxCnt, [], ops).1
  {
    InitIsEmpty(mem, maxCnt, dataSize);
    var _ := RunsRefineFifo(InitRing(mem, maxCnt, dataSize), 0, ops);
  }

  // ---------------------------------------------------------------- the buffer object

  class Buffer {
    const maxCnt: nat
    const dataSize: nat
    const bufEnd: nat
    const block: array<byte>
    var currCnt: nat
    var head: nat
    var tail: nat

    ghost function State(): Ring
      reads this, block
    {
      Ring(maxCnt, dataSize, bufEnd, currCnt, head, tail, block[..])
    }

    /** CirqBuff_Init on a block of `max` records of `size` bytes. */
    constructor (buffer: array<byte>, max: nat, size: nat)
      requires buffer.Length == size * max
      ensures block == buffer && State() == InitRing(buffer[..], max, size)
    {
      block, maxCnt, dataSize, bufEnd := buffer, max, size, size * max;
      currCnt, head, tail := 0, 0, 0;
    }

    /** The pointer update shared by all operations. */
    method Advance(p: nat) returns (q: nat)
      ensures q == Step(State(), p)
    {
      q := p + dataSize;
      if q == bufEnd {
        q := 0;
      }
    }

    /** CirqBuffPush. */
    method PushRecord(d: Record) returns (rv: int)
      requires |d| == dataSize && head + dataSize <= block.Length
      modifies this, block
      ensures (State(), rv == 0) == Push(old(State()), d) && (rv == 0 || rv == 1)
    {
      if currCnt == maxCnt {
        return 1;
      }
      ghost var before := block[..];
      forall i | 0 <= i < |d| {
        block[head + i] := d[i];
      }
      assert block[..] == before[..head] + d + before[head + |d|..];
      head := Advance(head);
      currCnt := currCnt + 1;
      return 0;
    }

    /** CirqBuffPop. */
    method PopRecord() returns (rv: int, d: Record)
      requires tail + dataSize <= block.Length
      modifies this
      ensures (State(), if rv == 0 then Some(d) else None) == Pop(old(State())) && (rv == 0 || rv == 1)
    {
      if currCnt == 0 {
        return 1, [];
      }
      d := block[tail..tail + dataSize];
      tail := Advance(tail);
      currCnt := currCnt - 1;
      rv := 0;
    }

    /** CirqBuff_PushLock. */
    method LockPush() returns (p: Option<nat>)
      modifies this
      ensures (State(), p) == PushLock(old(State()))
    {
      if currCnt == maxCnt {
        return None;
      }
      p := Some(head);
      head := Advance(head);
    }

    /** CirqBuff_PopLock. */
    method LockPop() returns (p: Option<nat>)
      modifies this
      ensures (State(), p) == PopLock(old(State()))
    {
      if currCnt == 0 {
        return None;
      }
      p := Some(tail);
      tail := Advance(tail);
    }

    /** CirqBuff_PushRelease, on a 32-bit count. */
    method ReleasePush()
      modifies this
      ensures State() == PushRelease(old(State()))
    {
      currCnt := (currCnt + 1) % U32;
    }

    /** CirqBuff_PopRelease, on a 32-bit count. */
    method ReleasePop()
      modifies this
      ensures State() == PopRelease(old(State()))
    {
      currCnt := (currCnt - 1) % U32;
    }

    /** CirqBuff_Peek. */
    method PeekRecord(offset: nat) returns (p: Option<nat>)
      ensures p == Peek(State(), offset)
    {
      if currCnt == 0 || offset > currCnt {
        return None;
      }
      var dataPtr := tail;
      for i := 0 to offset
        invariant dataPtr == Walk(State(), tail, i)
      {
        dataPtr := Advance(dataPtr);
      }
      p := Some(dataPtr);
    }
  }
}
