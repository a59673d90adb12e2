/** Lock and release: one producer and one consumer work on the slots of a circular buffer in place,
    in any interleaving of their steps. */
module CirqProtocol {
  import opened Common
  import opened CirqBuffer

  /** A release loads the count, and stores it changed: here the loaded value, and whether the other side
      has stored since. */
  datatype Register = Register(count: nat, overtaken: bool)

  /** The buffer, the pointer that each side holds between lock and release, the count that each side has
      loaded for its release, the records released by the producer with their places, and the records
      released by the consumer. */
  datatype System = System(
    ring: Ring, producer: Option<nat>, consumer: Option<nat>,
    pushing: Option<Register>, popping: Option<Register>,
    released: seq<Record>, places: seq<nat>, consumed: seq<Record>)

  /** Each side alternates lock and release; while it holds a slot the producer may fill it.  The
      increment and decrement of a release are not protected: they are a load and a store. */
  datatype Step =
    | LockForPush | Fill(d: Record) | LoadForPush | StoreForPush
    | LockForPop | LoadForPop | StoreForPop

  /** The steps that the two sides may take. */
  predicate Allowed(s: System, a: Step) {
    match a
    case LockForPush => s.producer.None?
    case Fill(d) => s.producer.Some? && s.pushing.None? && |d| == s.ring.dataSize
    case LoadForPush => s.producer.Some? && s.pushing.None?
    case StoreForPush => s.producer.Some? && s.pushing.Some?
    case LockForPop => s.consumer.None?
    case LoadForPop => s.consumer.Some? && s.popping.None?
    case StoreForPop => s.consumer.Some? && s.popping.Some?
  }

  /** The record at a place, if it lies in the block. */
  function LoadAt(r: Ring, p: nat): Record {
    if p + r.dataSize <= |r.mem| then Load(r, p) else []
  }

  function StoreAt(r: Ring, p: nat, d: Record): Ring {
    if p + |d| <= |r.mem| then Store(r, p, d) else r
  }

  function Overtaken(g: Option<Register>): Option<Register> {
    if g.Some? then Some(g.value.(overtaken := true)) else None
  }

  function Take(s: System, a: Step): (s': System)
    requires Allowed(s, a)
  {
    match a
    case LockForPush => var (r, p) := PushLock(s.ring); s.(ring := r, producer := p)
    case Fill(d) => s.(ring := StoreAt(s.ring, s.producer.value, d))
    case LoadForPush => s.(pushing := Some(Register(s.ring.currCnt, false)))
    case StoreForPush =>
      s.(ring := s.ring.(currCnt := (s.pushing.value.count + 1) % U32), producer := None, pushing := None,
         popping := Overtaken(s.popping), released := s.released + [LoadAt(s.ring, s.producer.value)],
         places := s.places + [s.producer.value])
    case LockForPop => var (r, p) := PopLock(s.ring); s.(ring := r, consumer := p)
    case LoadForPop => s.(popping := Some(Register(s.ring.currCnt, false)))
    case StoreForPop =>
      s.(ring := s.ring.(currCnt := (s.popping.value.count - 1) % U32), consumer := None, popping := None,
         pushing := Overtaken(s.pushing), consumed := s.consumed + [LoadAt(s.ring, s.consumer.value)])
  }

  /** A release that is not interrupted is the release of the buffer: one more record, or one less. */
  lemma WholePushRelease(s: System)
    requires s.producer.Some? && s.pushing.None?
    ensures Take(Take(s, LoadForPush), StoreForPush).ring == PushRelease(s.ring)
    ensures Take(Take(s, LoadForPush), StoreForPush).ring.currCnt == (s.ring.currCnt + 1) % U32
  {
  }

  lemma WholePopRelease(s: System)
    requires s.consumer.Some? && s.popping.None?
    ensures Take(Take(s, LoadForPop), StoreForPop).ring == PopRelease(s.ring)
    ensures Take(Take(s, LoadForPop), StoreForPop).ring.currCnt == (s.ring.currCnt - 1) % U32
  {
  }

  /** A schedule in which each side keeps to its own order of steps. */
  predicate Disciplined(s: System, steps: seq<Step>)
    decreases |steps|
  {
    steps == [] || (Allowed(s, steps[0]) && Disciplined(Take(s, steps[0]), steps[1..]))
  }

  function After(s: System, steps: seq<Step>): System
    requires Disciplined(s, steps)
    decreases |steps|
  {
    if steps == [] then s else After(Take(s, steps[0]), steps[1..])
  }

  /** CirqBuff_Init, nothing locked. */
  function Start(mem: seq<byte>, maxCnt: nat, dataSize: nat): System {
    System(InitRing(mem, maxCnt, dataSize), None, None, None, None, [], [], [])
  }

  // ---------------------------------------------------------------- the promise

  /** What the protocol promises in a state, whatever the count says: the held slots lie in the block
      and apart from each other; records come out as they went in and in order; and the records that
      are still to come out lie untouched, apart from the producer's slot. */
  predicate Promise(s: System) {
    && (s.producer.Some? ==> s.producer.value + s.ring.dataSize <= |s.ring.mem|)
    && (s.consumer.Some? ==> s.consumer.value + s.ring.dataSize <= |s.ring.mem|)
    && (s.producer.Some? && s.consumer.Some? ==> PointersApart(s.ring, s.producer.value, s.consumer.value))
    && |s.consumed| <= |s.released| == |s.places| && s.consumed == s.released[..|s.consumed|]
    && forall k | |s.consumed| <= k < |s.places| ::
         && LoadAt(s.ring, s.places[k]) == s.released[k]
         && (s.producer.Some? ==> PointersApart(s.ring, s.producer.value, s.places[k]))
  }

  /** It is kept in every state of a run. */
  predicate PromiseKept(s: System, steps: seq<Step>)
    requires Disciplined(s, steps)
    decreases |steps|
  {
    Promise(s) && (steps != [] ==> PromiseKept(Take(s, steps[0]), steps[1..]))
  }

  // ---------------------------------------------------------------- the layout of the slots

  function Held(p: Option<nat>): nat {
    if p.Some? then 1 else 0
  }

  /** `n` records are live, the oldest in slot `t`.  The consumer's slot is that one, the producer's is
      the first behind the live ones.  The count is not part of this. */
  predicate Layout(s: System, t: nat, n: nat) {
    var r := s.ring;
    && Block(r) && t < r.maxCnt < U32
    && Held(s.consumer) <= n && n + Held(s.producer) <= r.maxCnt
    && r.tail == Place(r, Slot(r, t, Held(s.consumer)))
    && r.head == Place(r, Slot(r, t, n + Held(s.producer)))
    && (s.consumer.Some? ==> s.consumer.value == Place(r, t))
    && (s.producer.Some? ==> s.producer.value == Place(r, Slot(r, t, n)))
    && s.released == s.consumed + Records(r, t, n)
    && |s.places| == |s.released| && s.places[|s.consumed|..] == Places(r, t, n)
  }

  /** The places of `n` slots from slot `t` on. */
  function Places(r: Ring, t: nat, n: nat): (ps: seq<nat>)
    requires t < r.maxCnt && n <= r.maxCnt
    ensures |ps| == n
  {
    seq(n, k requires 0 <= k < n => Place(r, Slot(r, t, k)))
  }

  lemma LayoutKeepsPromise(s: System, t: nat, n: nat)
    requires Layout(s, t, n)
    ensures Promise(s)
  {
    var r := s.ring;
    SlotFits(r, t);
    if s.producer.Some? {
      SlotFits(r, Slot(r, t, n));
      if s.consumer.Some? {
        SlotsApart(r, Slot(r, t, n), t);
      }
    }
    forall k | |s.consumed| <= k < |s.places|
      ensures LoadAt(r, s.places[k]) == s.released[k]
      ensures s.producer.Some? ==> PointersApart(r, s.producer.value, s.places[k])
    {
      LivePlace(s, t, n, k - |s.consumed|);
    }
  }

  /** A live record is at its place, apart from the producer's. */
  lemma LivePlace(s: System, t: nat, n: nat, k: nat)
    requires Layout(s, t, n) && k < n
    ensures var i := |s.consumed| + k;
      && i < |s.places| && LoadAt(s.ring, s.places[i]) == s.released[i]
      && (s.producer.Some? ==> PointersApart(s.ring, s.producer.value, s.places[i]))
  {
    var r, u := s.ring, Slot(s.ring, t, k);
    SlotFits(r, u);
    assert s.released[|s.consumed| + k] == Records(r, t, n)[k] == AtSlot(r, u);
    assert s.places[|s.consumed| + k] == s.places[|s.consumed|..][k] == Place(r, u);
    if s.producer.Some? {
      SlotsApart(r, Slot(r, t, n), u);
    }
  }

  /** Records and places do not depend on pointers and count. */
  lemma SameRecords(r: Ring, r': Ring, t: nat, n: nat)
    requires Block(r) && r'.mem == r.mem && r'.dataSize == r.dataSize && r'.maxCnt == r.maxCnt && r'.bufEnd == r.bufEnd
    requires t < r.maxCnt && n <= r.maxCnt
    ensures Records(r', t, n) == Records(r, t, n) && Places(r', t, n) == Places(r, t, n)
  {
  }

  lemma LockForPushLayout(s: System, t: nat, n: nat)
    requires Layout(s, t, n) && s.producer.None? && (s.ring.currCnt == s.ring.maxCnt || n < s.ring.maxCnt)
    ensures Layout(Take(s, LockForPush), t, n)
  {
    var r := s.ring;
    if r.currCnt != r.maxCnt {
      StepIsNextSlot(r, Slot(r, t, n));
      SameRecords(r, PushLock(r).0, t, n);
    }
  }

  lemma FillLayout(s: System, t: nat, n: nat, d: Record)
    requires Layout(s, t, n) && Allowed(s, Fill(d))
    ensures Layout(Take(s, Fill(d)), t, n)
  {
    SlotFits(s.ring, Slot(s.ring, t, n));
    RecordsAppend(s.ring, t, n, d);
    assert Places(Take(s, Fill(d)).ring, t, n) == Places(s.ring, t, n);
  }

  lemma StoreForPushLayout(s: System, t: nat, n: nat)
    requires Layout(s, t, n) && Allowed(s, StoreForPush)
    ensures Layout(Take(s, StoreForPush), t, n + 1)
  {
    var r, s' := s.ring, Take(s, StoreForPush);
    SlotFits(r, Slot(r, t, n));
    SameRecords(r, s'.ring, t, n + 1);
    assert Records(r, t, n + 1) == Records(r, t, n) + [AtSlot(r, Slot(r, t, n))];
    assert s'.released == s.consumed + Records(r, t, n + 1);
    assert Places(r, t, n + 1) == Places(r, t, n) + [Place(r, Slot(r, t, n))];
    assert s'.places[|s.consumed|..] == s.places[|s.consumed|..] + [s.producer.value];
  }

  lemma LockForPopLayout(s: System, t: nat, n: nat)
    requires Layout(s, t, n) && s.consumer.None? && (s.ring.currCnt == 0 || n > 0)
    ensures Layout(Take(s, LockForPop), t, n)
  {
    var r := s.ring;
    StepIsNextSlot(r, t);
    SameRecords(r, PopLock(r).0, t, n);
  }

  /** Moving the oldest record behind those consumed. */
  lemma FirstRecord(r: Ring, t: nat, n: nat, consumed: seq<Record>)
    requires Block(r) && t < r.maxCnt && 0 < n <= r.maxCnt
    ensures consumed + Records(r, t, n) == consumed + [AtSlot(r, t)] + Records(r, Slot(r, t, 1), n - 1)
  {
    RecordsTail(r, t, n);
    assert Records(r, t, n) == [AtSlot(r, t)] + Records(r, t, n)[1..];
  }

  lemma SlotBehind(r: Ring, t: nat, k: nat)
    requires t < r.maxCnt && k < r.maxCnt
    ensures Slot(r, Slot(r, t, 1), k) == Slot(r, t, k + 1)
  {
  }

  lemma StoreForPopLayout(s: System, t: nat, n: nat)
    requires Layout(s, t, n) && Allowed(s, StoreForPop)
    ensures Layout(Take(s, StoreForPop), Slot(s.ring, t, 1), n - 1)
  {
    var r, s' := s.ring, Take(s, StoreForPop);
    SlotFits(r, t);
    FirstRecord(r, t, n, s.consumed);
    SameRecords(r, s'.ring, Slot(r, t, 1), n - 1);
    SlotBehind(r, t, n - 1);
    SlotBehind(r, t, n + Held(s.producer) - 1);
    PlacesTail(r, t, n);
    assert s'.places[|s'.consumed|..] == s.places[|s.consumed|..][1..];
  }

  lemma PlacesTail(r: Ring, t: nat, n: nat)
    requires t < r.maxCnt && 0 < n <= r.maxCnt
    ensures Places(r, t, n)[1..] == Places(r, Slot(r, t, 1), n - 1)
  {
    forall k | 0 <= k < n - 1
      ensures Places(r, t, n)[1..][k] == Places(r, Slot(r, t, 1), n - 1)[k]
    {
      SlotBehind(r, t, k);
    }
  }

  // ---------------------------------------------------------------- the count

  /** What a loaded count says about the present one: it is equal, unless the other side has stored. */
  predicate Registers(s: System) {
    && (s.pushing.Some? ==>
          s.producer.Some?
          && var g := s.pushing.value;
             if g.overtaken then s.ring.currCnt < g.count < s.ring.maxCnt else g.count == s.ring.currCnt)
    && (s.popping.Some? ==>
          s.consumer.Some?
          && var g := s.popping.value;
             if g.overtaken then 1 <= g.count < s.ring.currCnt else g.count == s.ring.currCnt)
  }

  /** The count is the number of live records. */
  predicate Inv(s: System, t: nat) {
    Layout(s, t, s.ring.currCnt) && Registers(s)
  }

  /** A store on top of another store since the load undoes that one. */
  predicate Clean(s: System, a: Step)
    requires Allowed(s, a)
  {
    && (a.StoreForPush? ==> !s.pushing.value.overtaken)
    && (a.StoreForPop? ==> !s.popping.value.overtaken)
  }

  /** The slot of the oldest record after step `a`. */
  function Oldest(s: System, t: nat, a: Step): nat
    requires Inv(s, t)
  {
    if a.StoreForPop? && s.consumer.Some? then Slot(s.ring, t, 1) else t
  }

  lemma StepKeepsRegisters(s: System, t: nat, a: Step)
    requires Inv(s, t) && Allowed(s, a) && Clean(s, a)
    ensures Registers(Take(s, a))
  {
  }

  lemma StepKeepsInv(s: System, t: nat, a: Step)
    requires Inv(s, t) && Allowed(s, a) && Clean(s, a)
    ensures Inv(Take(s, a), Oldest(s, t, a))
  {
    StepKeepsRegisters(s, t, a);
    StepKeepsLayout(s, t, a);
  }

  lemma StepKeepsLayout(s: System, t: nat, a: Step)
    requires Inv(s, t) && Allowed(s, a) && Clean(s, a)
    ensures Layout(Take(s, a), Oldest(s, t, a), Take(s, a).ring.currCnt)
  {
    if a.LockForPop? || a.StoreForPop? {
      PopStepLayout(s, t, a);
    } else {
      PushStepLayout(s, t, a);
    }
  }

  lemma PushStepLayout(s: System, t: nat, a: Step)
    requires Inv(s, t) && Allowed(s, a) && Clean(s, a) && !a.LockForPop? && !a.StoreForPop?
    ensures Layout(Take(s, a), t, Take(s, a).ring.currCnt)
  {
    var n := s.ring.currCnt;
    if a.LockForPush? {
      LockForPushLayout(s, t, n);
    } else if a.Fill? {
      FillLayout(s, t, n, a.d);
    } else if a.StoreForPush? {
      StoreForPushLayout(s, t, n);
    } else {
      LoadLayout(s, t, n, a);
    }
  }

  lemma PopStepLayout(s: System, t: nat, a: Step)
    requires Inv(s, t) && Allowed(s, a) && Clean(s, a) && (a.LockForPop? || a.StoreForPop?)
    ensures Layout(Take(s, a), Oldest(s, t, a), Take(s, a).ring.currCnt)
  {
    if a.LockForPop? {
      LockForPopLayout(s, t, s.ring.currCnt);
    } else {
      StoreForPopLayout(s, t, s.ring.currCnt);
    }
  }

  lemma LoadLayout(s: System, t: nat, n: nat, a: Step)
    requires Layout(s, t, n) && Allowed(s, a) && (a.LoadForPush? || a.LoadForPop?)
    ensures Layout(Take(s, a), t, n)
  {
  }

  /** No release of one side falls between the load and the store of a release of the other. */
  predicate CleanRun(s: System, steps: seq<Step>)
    requires Disciplined(s, steps)
    decreases |steps|
  {
    steps != [] ==> Clean(s, steps[0]) && CleanRun(Take(s, steps[0]), steps[1..])
  }

  lemma {:induction false} CleanKeepsPromise(s: System, t: nat, steps: seq<Step>)
    requires Inv(s, t) && Disciplined(s, steps) && CleanRun(s, steps)
    ensures PromiseKept(s, steps)
    decreases |steps|
  {
    LayoutKeepsPromise(s, t, s.ring.currCnt);
    if steps != [] {
      StepKeepsInv(s, t, steps[0]);
      CleanKeepsPromise(Take(s, steps[0]), Oldest(s, t, steps[0]), steps[1..]);
    }
  }

  lemma StartInv(mem: seq<byte>, maxCnt: nat, dataSize: nat)
    requires 0 < maxCnt < U32 && |mem| == dataSize * maxCnt
    ensures Inv(Start(mem, maxCnt, dataSize), 0)
  {
    InitBlock(mem, maxCnt, dataSize);
  }

  // ---------------------------------------------------------------- a wrong count breaks the promise

  /** Neither side holds a slot or a count. */
  predicate Idle(s: System) {
    s.producer.None? && s.consumer.None? && s.pushing.None? && s.popping.None?
  }

  const PUSH: seq<Step> := [LockForPush, LoadForPush, StoreForPush]
  const POP: seq<Step> := [LockForPop, LoadForPop, StoreForPop]

  /** A whole push by an undisturbed producer. */
  lemma PushWhole(s: System, t: nat, n: nat)
    requires Idle(s) && Layout(s, t, n) && n < s.ring.maxCnt && s.ring.currCnt < s.ring.maxCnt
    ensures Disciplined(s, PUSH)
    ensures var s' := After(s, PUSH);
      Idle(s') && Layout(s', t, n + 1) && s'.ring.currCnt == s.ring.currCnt + 1
      && s'.ring.maxCnt == s.ring.maxCnt && s'.ring.dataSize == s.ring.dataSize
  {
    var s1 := Take(s, LockForPush);
    var s2 := Take(s1, LoadForPush);
    LockForPushLayout(s, t, n);
    StoreForPushLayout(s2, t, n);
    ThreeSteps(s, PUSH);
  }

  lemma FirstStep(s: System, steps: seq<Step>)
    requires steps != [] && Allowed(s, steps[0]) && Disciplined(Take(s, steps[0]), steps[1..])
    ensures Disciplined(s, steps) && After(s, steps) == After(Take(s, steps[0]), steps[1..])
  {
  }

  lemma ThreeSteps(s: System, steps: seq<Step>)
    requires |steps| == 3 && Allowed(s, steps[0])
    requires Allowed(Take(s, steps[0]), steps[1]) && Allowed(Take(Take(s, steps[0]), steps[1]), steps[2])
    ensures Disciplined(s, steps) && After(s, steps) == Take(Take(Take(s, steps[0]), steps[1]), steps[2])
  {
    assert steps[1..][0] == steps[1] && steps[1..][1..] == [steps[2]] && [steps[2]][1..] == [];
    var s1 := Take(s, steps[0]);
    FirstStep(Take(s1, steps[1]), [steps[2]]);
    FirstStep(s1, steps[1..]);
    FirstStep(s, steps);
  }

  /** A whole pop by an undisturbed consumer takes one record out, if the count is not zero. */
  lemma PopWhole(s: System)
    requires Idle(s) && 0 < s.ring.currCnt < U32
    ensures Disciplined(s, POP)
    ensures var s' := After(s, POP);
      && Idle(s') && |s'.consumed| == |s.consumed| + 1 && s'.released == s.released
      && s'.ring.currCnt == s.ring.currCnt - 1
  {
    ThreeSteps(s, POP);
  }

  lemma PopWholeLayout(s: System, t: nat, n: nat)
    requires Idle(s) && Layout(s, t, n) && 0 < n && 0 < s.ring.currCnt < U32
    ensures Disciplined(s, POP) && Layout(After(s, POP), Slot(s.ring, t, 1), n - 1)
  {
    var s1 := Take(s, LockForPop);
    var s2 := Take(s1, LoadForPop);
    LockForPopLayout(s, t, n);
    StoreForPopLayout(s2, t, n);
    ThreeSteps(s, POP);
  }

  lemma {:induction false} AfterAppend(s: System, a: seq<Step>, b: seq<Step>)
    requires Disciplined(s, a) && Disciplined(After(s, a), b)
    ensures Disciplined(s, a + b) && After(s, a + b) == After(After(s, a), b)
    decreases |a|
  {
    if a == [] {
      assert a + b == b;
    } else {
      assert (a + b)[0] == a[0] && (a + b)[1..] == a[1..] + b;
      AfterAppend(Take(s, a[0]), a[1..], b);
    }
  }

  lemma OneStep(s: System, steps: seq<Step>)
    requires |steps| == 1 && Allowed(s, steps[0])
    ensures Disciplined(s, steps) && After(s, steps) == Take(s, steps[0])
  {
    assert steps[1..] == [];
  }

  /** Fewer counted than live: the producer fills the buffer and is then handed the oldest live slot. */
  lemma {:induction false} Overfill(s: System, t: nat, n: nat) returns (more: seq<Step>)
    requires Idle(s) && Layout(s, t, n) && s.ring.currCnt < n && s.ring.dataSize > 0
    ensures Disciplined(s, more) && Atomic(more) && !Promise(After(s, more))
    decreases s.ring.maxCnt - n
  {
    if n == s.ring.maxCnt {
      more := [LockForPush];
      OneStep(s, more);
      assert After(s, more).producer == Some(Place(s.ring, t));
      assert s.places[|s.consumed|] == s.places[|s.consumed|..][0] == Place(s.ring, t);
      AtomicOther(more);
    } else {
      PushWhole(s, t, n);
      var rest := Overfill(After(s, PUSH), t, n + 1);
      more := PUSH + rest;
      AfterAppend(s, PUSH, rest);
      AtomicPush(rest);
    }
  }

  /** More counted than live: the consumer takes out more records than went in. */
  lemma {:induction false} Underrun(s: System, t: nat, n: nat) returns (more: seq<Step>)
    requires Idle(s) && Layout(s, t, n) && n < s.ring.currCnt < U32
    ensures Disciplined(s, more) && Atomic(more) && !Promise(After(s, more))
    decreases n
  {
    PopWhole(s);
    if n == 0 {
      more := POP;
      assert POP + [] == POP;
      AtomicPop([]);
    } else {
      PopWholeLayout(s, t, n);
      var rest := Underrun(After(s, POP), Slot(s.ring, t, 1), n - 1);
      more := POP + rest;
      AfterAppend(s, POP, rest);
      AtomicPop(rest);
    }
  }

  /** Releases with nothing between their load and their store, as under an interrupt lock. */
  predicate Atomic(steps: seq<Step>)
    decreases |steps|
  {
    || steps == []
    || (!steps[0].LoadForPush? && !steps[0].StoreForPush? && !steps[0].LoadForPop? && !steps[0].StoreForPop?
        && Atomic(steps[1..]))
    || (|steps| > 1 && steps[0].LoadForPush? && steps[1].StoreForPush? && Atomic(steps[2..]))
    || (|steps| > 1 && steps[0].LoadForPop? && steps[1].StoreForPop? && Atomic(steps[2..]))
  }

  lemma AtomicOther(steps: seq<Step>)
    requires |steps| == 1 && (steps[0].LockForPush? || steps[0].LockForPop?)
    ensures Atomic(steps)
  {
    assert steps[1..] == [];
  }

  lemma AtomicPush(rest: seq<Step>)
    requires Atomic(rest)
    ensures Atomic(PUSH + rest)
  {
    var steps := PUSH + rest;
    assert steps[1..][0] == LoadForPush && steps[1..][1] == StoreForPush && steps[1..][2..] == rest;
  }

  lemma AtomicPop(rest: seq<Step>)
    requires Atomic(rest)
    ensures Atomic(POP + rest)
  {
    var steps := POP + rest;
    assert steps[1..][0] == LoadForPop && steps[1..][1] == StoreForPop && steps[1..][2..] == rest;
  }

  /** Every store on top of another one can be continued to a broken promise. */
  lemma TornStoreIsFatal(s: System, t: nat, a: Step) returns (more: seq<Step>)
    requires Inv(s, t) && Allowed(s, a) && !Clean(s, a) && s.ring.dataSize > 0
    ensures Disciplined(Take(s, a), more) && !Promise(After(Take(s, a), more))
  {
    if a.StoreForPush? {
      more := TornPushIsFatal(s, t);
    } else {
      more := TornPopIsFatal(s, t);
    }
  }

  lemma TwoSteps(s: System, steps: seq<Step>)
    requires |steps| == 2 && Allowed(s, steps[0]) && Allowed(Take(s, steps[0]), steps[1])
    ensures Disciplined(s, steps) && After(s, steps) == Take(Take(s, steps[0]), steps[1])
  {
    assert steps[1..][0] == steps[1] && steps[1..][1..] == [];
    OneStep(Take(s, steps[0]), steps[1..]);
  }

  /** The consumer finishes what it has begun. */
  lemma FinishPop(s: System, t: nat, n: nat) returns (steps: seq<Step>, s': System)
    requires Layout(s, t, n) && s.consumer.Some? && s.producer.None? && s.pushing.None?
    ensures Disciplined(s, steps) && s' == After(s, steps)
    ensures Idle(s') && Layout(s', Slot(s.ring, t, 1), n - 1) && s'.ring.dataSize == s.ring.dataSize
    ensures s'.ring.currCnt == ((if s.popping.Some? then s.popping.value.count else s.ring.currCnt) - 1) % U32
  {
    if s.popping.Some? {
      steps := [StoreForPop];
      OneStep(s, steps);
      StoreForPopLayout(s, t, n);
    } else {
      steps := [LoadForPop, StoreForPop];
      LoadLayout(s, t, n, LoadForPop);
      StoreForPopLayout(Take(s, LoadForPop), t, n);
      TwoSteps(s, steps);
    }
    s' := After(s, steps);
  }

  /** The producer finishes what it has begun. */
  lemma FinishPush(s: System, t: nat, n: nat) returns (steps: seq<Step>, s': System)
    requires Layout(s, t, n) && s.producer.Some? && s.consumer.None? && s.popping.None?
    ensures Disciplined(s, steps) && s' == After(s, steps)
    ensures Idle(s') && Layout(s', t, n + 1) && s'.ring.dataSize == s.ring.dataSize
    ensures s'.ring.currCnt == ((if s.pushing.Some? then s.pushing.value.count else s.ring.currCnt) + 1) % U32
  {
    if s.pushing.Some? {
      steps := [StoreForPush];
      OneStep(s, steps);
      StoreForPushLayout(s, t, n);
    } else {
      steps := [LoadForPush, StoreForPush];
      LoadLayout(s, t, n, LoadForPush);
      StoreForPushLayout(Take(s, LoadForPush), t, n);
      TwoSteps(s, steps);
    }
    s' := After(s, steps);
  }

  /** An idle system with a wrong count. */
  lemma WrongCountIsFatal(s: System, t: nat, n: nat) returns (more: seq<Step>)
    requires Idle(s) && Layout(s, t, n) && s.ring.currCnt != n && s.ring.currCnt < U32 && s.ring.dataSize > 0
    ensures Disciplined(s, more) && Atomic(more) && !Promise(After(s, more))
  {
    if s.ring.currCnt < n {
      more := Overfill(s, t, n);
    } else {
      more := Underrun(s, t, n);
    }
  }

  /** A torn push leaves the count too high; a pop that was in progress then makes it too low. */
  lemma TornPushIsFatal(s: System, t: nat) returns (more: seq<Step>)
    requires Inv(s, t) && Allowed(s, StoreForPush) && !Clean(s, StoreForPush) && s.ring.dataSize > 0
    ensures Disciplined(Take(s, StoreForPush), more) && !Promise(After(Take(s, StoreForPush), more))
  {
    var n, s1 := s.ring.currCnt, Take(s, StoreForPush);
    StoreForPushLayout(s, t, n);
    assert n + 1 < s1.ring.currCnt < U32;
    more := TooHighIsFatal(s1, t, n + 1);
  }

  lemma TooHighIsFatal(s: System, t: nat, n: nat) returns (more: seq<Step>)
    requires Layout(s, t, n) && s.producer.None? && s.pushing.None? && s.ring.dataSize > 0
    requires n < s.ring.currCnt < U32 && (s.popping.Some? ==> s.consumer.Some? && 1 <= s.popping.value.count < n)
    ensures Disciplined(s, more) && !Promise(After(s, more))
  {
    if s.consumer.None? {
      more := WrongCountIsFatal(s, t, n);
    } else {
      var first, s' := FinishPop(s, t, n);
      var rest := WrongCountIsFatal(s', Slot(s.ring, t, 1), n - 1);
      more := first + rest;
      AfterAppend(s, first, rest);
    }
  }

  /** A torn pop leaves the count too low; a push that was in progress then makes it too high. */
  lemma TornPopIsFatal(s: System, t: nat) returns (more: seq<Step>)
    requires Inv(s, t) && Allowed(s, StoreForPop) && !Clean(s, StoreForPop) && s.ring.dataSize > 0
    ensures Disciplined(Take(s, StoreForPop), more) && !Promise(After(Take(s, StoreForPop), more))
  {
    var n, s1 := s.ring.currCnt, Take(s, StoreForPop);
    StoreForPopLayout(s, t, n);
    assert s1.ring.currCnt < n - 1;
    more := TooLowIsFatal(s1, Slot(s.ring, t, 1), n - 1);
  }

  lemma TooLowIsFatal(s: System, t: nat, n: nat) returns (more: seq<Step>)
    requires Layout(s, t, n) && s.consumer.None? && s.popping.None? && s.ring.dataSize > 0
    requires s.ring.currCnt < n
    requires s.pushing.Some? ==> s.producer.Some? && n < s.pushing.value.count < s.ring.maxCnt
    ensures Disciplined(s, more) && !Promise(After(s, more))
  {
    if s.producer.None? {
      more := WrongCountIsFatal(s, t, n);
    } else {
      var first, s' := FinishPush(s, t, n);
      var rest := WrongCountIsFatal(s', t, n + 1);
      more := first + rest;
      AfterAppend(s, first, rest);
    }
  }

  /** Every disciplined run that is not clean has a beginning that can be continued to a broken promise. */
  lemma {:induction false} TornRunIsFatal(s: System, t: nat, steps: seq<Step>) returns (k: nat, more: seq<Step>)
    requires Inv(s, t) && Disciplined(s, steps) && !CleanRun(s, steps) && s.ring.dataSize > 0
    ensures k <= |steps| && Disciplined(s, steps[..k] + more) && !Promise(After(s, steps[..k] + more))
    decreases |steps|
  {
    var s1 := Take(s, steps[0]);
    if Clean(s, steps[0]) {
      StepKeepsInv(s, t, steps[0]);
      var j;
      j, more := TornRunIsFatal(s1, Oldest(s, t, steps[0]), steps[1..]);
      k := j + 1;
      Continued(s, steps, j, more);
    } else {
      more := TornStoreIsFatal(s, t, steps[0]);
      k := 1;
      assert steps[1..][..0] + more == more;
      Continued(s, steps, 0, more);
    }
  }

  /** A continuation seen from one step earlier. */
  lemma Continued(s: System, steps: seq<Step>, j: nat, more: seq<Step>)
    requires steps != [] && j < |steps| && Allowed(s, steps[0])
    requires Disciplined(Take(s, steps[0]), steps[1..][..j] + more)
    ensures Disciplined(s, steps[..j + 1] + more)
    ensures After(s, steps[..j + 1] + more) == After(Take(s, steps[0]), steps[1..][..j] + more)
  {
    var all := steps[..j + 1] + more;
    assert all[0] == steps[0] && all[1..] == steps[1..][..j] + more;
  }

  // ---------------------------------------------------------------- exactly when the promise is kept

  /** A way to go on: each side finishes the release that it has begun, then releases are atomic. */
  predicate Settles(s: System, more: seq<Step>)
    requires Disciplined(s, more)
    decreases |more|
  {
    if s.pushing.None? && s.popping.None? then Atomic(more)
    else more != [] ==>
           (more[0].StoreForPush? || more[0].StoreForPop?) && Settles(Take(s, more[0]), more[1..])
  }

  ghost predicate Resilient(s: System) {
    forall more | Disciplined(s, more) && Settles(s, more) :: PromiseKept(s, more)
  }

  /** In every state of the run, every way to settle keeps the promise. */
  ghost predicate ResilientRun(s: System, steps: seq<Step>)
    requires Disciplined(s, steps)
    decreases |steps|
  {
    Resilient(s) && (steps != [] ==> ResilientRun(Take(s, steps[0]), steps[1..]))
  }

  /** At no time have both sides loaded the count for a release. */
  predicate Overlaps(s: System) {
    s.pushing.Some? && s.popping.Some?
  }

  predicate NoOverlap(s: System, steps: seq<Step>)
    requires Disciplined(s, steps)
    decreases |steps|
  {
    !Overlaps(s) && (steps != [] ==> NoOverlap(Take(s, steps[0]), steps[1..]))
  }

  /** No loaded count has been overtaken. */
  predicate Fresh(s: System) {
    (s.pushing.Some? ==> !s.pushing.value.overtaken) && (s.popping.Some? ==> !s.popping.value.overtaken)
  }

  lemma {:induction false} AtomicKeepsPromise(s: System, t: nat, steps: seq<Step>)
    requires Inv(s, t) && Disciplined(s, steps) && Atomic(steps) && s.pushing.None? && s.popping.None?
    ensures PromiseKept(s, steps)
    decreases |steps|
  {
    LayoutKeepsPromise(s, t, s.ring.currCnt);
    if steps != [] {
      var a, s1, t1 := steps[0], Take(s, steps[0]), Oldest(s, t, steps[0]);
      StepKeepsInv(s, t, a);
      if a.LoadForPush? || a.LoadForPop? {
        assert steps[1..][0] == steps[1] && steps[1..][1..] == steps[2..];
        LayoutKeepsPromise(s1, t1, s1.ring.currCnt);
        StepKeepsInv(s1, t1, steps[1]);
        AtomicKeepsPromise(Take(s1, steps[1]), Oldest(s1, t1, steps[1]), steps[2..]);
      } else {
        AtomicKeepsPromise(s1, t1, steps[1..]);
      }
    }
  }

  lemma SettledIsAtomic(s: System, more: seq<Step>)
    requires Disciplined(s, more) && Settles(s, more) && s.pushing.None? && s.popping.None?
    ensures Atomic(more)
  {
  }

  lemma FreshIsResilient(s: System, t: nat)
    requires Inv(s, t) && Fresh(s) && !Overlaps(s)
    ensures Resilient(s)
  {
    forall more | Disciplined(s, more) && Settles(s, more)
      ensures PromiseKept(s, more)
    {
      if s.pushing.None? && s.popping.None? {
        AtomicKeepsPromise(s, t, more);
      } else {
        LayoutKeepsPromise(s, t, s.ring.currCnt);
        if more != [] {
          var s1 := Take(s, more[0]);
          StepKeepsInv(s, t, more[0]);
          SettledIsAtomic(s1, more[1..]);
          AtomicKeepsPromise(s1, Oldest(s, t, more[0]), more[1..]);
        }
      }
    }
  }

  /** Two releases in progress at once: however they finish, one of them is lost. */
  lemma OverlapIsFatal(s: System, t: nat) returns (more: seq<Step>)
    requires Inv(s, t) && Overlaps(s) && Fresh(s) && s.ring.dataSize > 0
    ensures Disciplined(s, more) && Settles(s, more) && !Promise(After(s, more))
  {
    var n, s1 := s.ring.currCnt, Take(s, StoreForPush);
    StoreForPushLayout(s, t, n);
    var s2 := Take(s1, StoreForPop);
    StoreForPopLayout(s1, t, n + 1);
    var rest := WrongCountIsFatal(s2, Slot(s.ring, t, 1), n);
    more := [StoreForPush, StoreForPop] + rest;
    assert more[1..][0] == StoreForPop && more[1..][1..] == rest;
    FirstStep(s1, more[1..]);
    FirstStep(s, more);
    assert Settles(s1, more[1..]);
  }

  lemma {:induction false} KeptAtEnd(s: System, steps: seq<Step>)
    requires Disciplined(s, steps) && PromiseKept(s, steps)
    ensures Promise(After(s, steps))
    decreases |steps|
  {
    if steps != [] {
      KeptAtEnd(Take(s, steps[0]), steps[1..]);
    }
  }

  lemma OverlapIsNotResilient(s: System, t: nat)
    requires Inv(s, t) && Overlaps(s) && Fresh(s) && s.ring.dataSize > 0
    ensures !Resilient(s)
  {
    var more := OverlapIsFatal(s, t);
    if PromiseKept(s, more) {
      KeptAtEnd(s, more);
    }
  }

  lemma {:induction false} ResilientExactly(s: System, t: nat, steps: seq<Step>)
    requires Inv(s, t) && Fresh(s) && Disciplined(s, steps) && s.ring.dataSize > 0
    ensures ResilientRun(s, steps) <==> NoOverlap(s, steps)
    decreases |steps|
  {
    if Overlaps(s) {
      OverlapIsNotResilient(s, t);
    } else {
      FreshIsResilient(s, t);
      if steps != [] {
        StepKeepsInv(s, t, steps[0]);
        ResilientExactly(Take(s, steps[0]), Oldest(s, t, steps[0]), steps[1..]);
      }
    }
  }

  /** For every interleaving from an initialised buffer: the promise is kept in all its states, however
      the sides settle from there, exactly if no two releases ever overlap. */
  lemma InterleavingsResilientExactly(mem: seq<byte>, maxCnt: nat, dataSize: nat, steps: seq<Step>)
    requires 0 < maxCnt < U32 && dataSize > 0 && |mem| == dataSize * maxCnt
    requires Disciplined(Start(mem, maxCnt, dataSize), steps)
    ensures ResilientRun(Start(mem, maxCnt, dataSize), steps) <==> NoOverlap(Start(mem, maxCnt, dataSize), steps)
  {
    StartInv(mem, maxCnt, dataSize);
    ResilientExactly(Start(mem, maxCnt, dataSize), 0, steps);
  }

  /** An interleaving without a torn store keeps the promise; one with a torn store has a beginning that
      can be continued to a broken promise. */
  lemma InterleavingsTorn(mem: seq<byte>, maxCnt: nat, dataSize: nat, steps: seq<Step>)
    returns (k: nat, more: seq<Step>)
    requires 0 < maxCnt < U32 && dataSize > 0 && |mem| == dataSize * maxCnt
    requires Disciplined(Start(mem, maxCnt, dataSize), steps)
    ensures var s := Start(mem, maxCnt, dataSize);
      if CleanRun(s, steps) then PromiseKept(s, steps)
      else k <= |steps| && Disciplined(s, steps[..k] + more) && !Promise(After(s, steps[..k] + more))
  {
    var s := Start(mem, maxCnt, dataSize);
    StartInv(mem, maxCnt, dataSize);
    if CleanRun(s, steps) {
      CleanKeepsPromise(s, 0, steps);
      k, more := 0, [];
    } else {
      k, more := TornRunIsFatal(s, 0, steps);
    }
  }

  /** With atomic releases every interleaving of the two sides keeps the promise. */
  lemma EveryInterleavingIsSafe(mem: seq<byte>, maxCnt: nat, dataSize: nat, steps: seq<Step>)
    requires 0 < maxCnt < U32 && |mem| == dataSize * maxCnt
    requires Disciplined(Start(mem, maxCnt, dataSize), steps) && Atomic(steps)
    ensures PromiseKept(Start(mem, maxCnt, dataSize), steps)
  {
    StartInv(mem, maxCnt, dataSize);
    AtomicKeepsPromise(Start(mem, maxCnt, dataSize), 0, steps);
  }

  // ---------------------------------------------------------------- one interleaving that goes wrong

  /** A pop is released between the load and the store of a push. */
  const TORN: seq<Step> :=
    [LockForPush, LockForPop, LoadForPush, LoadForPop, StoreForPop, StoreForPush]

  lemma RunFrom(s: System, steps: seq<Step>, i: nat)
    requires i < |steps| && Allowed(s, steps[i]) && Disciplined(Take(s, steps[i]), steps[i + 1..])
    ensures Disciplined(s, steps[i..]) && After(s, steps[i..]) == After(Take(s, steps[i]), steps[i + 1..])
  {
    assert steps[i..][0] == steps[i] && steps[i..][1..] == steps[i + 1..];
  }

  /** From one record on, with nothing locked, it leaves one record counted twice. */
  lemma TornFromOne(s: System)
    requires Idle(s) && s.ring.currCnt == 1 && s.ring.maxCnt >= 2
    ensures Disciplined(s, TORN)
    ensures var s' := After(s, TORN);
      && Idle(s') && s'.ring.currCnt == 2
      && |s'.released| == |s.released| + 1 && |s'.consumed| == |s.consumed| + 1
  {
    var s1 := Take(s, TORN[0]);
    var s2 := Take(s1, TORN[1]);
    var s3 := Take(s2, TORN[2]);
    var s4 := Take(s3, TORN[3]);
    var s5 := Take(s4, TORN[4]);
    assert TORN[6..] == [] && TORN[0..] == TORN;
    RunFrom(s5, TORN, 5); RunFrom(s4, TORN, 4); RunFrom(s3, TORN, 3);
    RunFrom(s2, TORN, 2); RunFrom(s1, TORN, 1); RunFrom(s, TORN, 0);
  }

  /** After a push, the torn interleaving and two pops, three records have come out of a buffer into which
      two were put. */
  lemma TornRelease(mem: seq<byte>, maxCnt: nat, dataSize: nat)
    requires 2 <= maxCnt < U32 && |mem| == dataSize * maxCnt
    ensures var s, steps := Start(mem, maxCnt, dataSize), PUSH + (TORN + (POP + POP));
      && Disciplined(s, steps) && |After(s, steps).released| == 2 && |After(s, steps).consumed| == 3
      && !Promise(After(s, steps))
  {
    var s := Start(mem, maxCnt, dataSize);
    StartInv(mem, maxCnt, dataSize);
    PushWhole(s, 0, 0);
    var s1 := After(s, PUSH);
    OnePush(s);
    TornFromOne(s1);
    var s2 := After(s1, TORN);
    PopWhole(s2);
    PopWhole(After(s2, POP));
    AfterAppend(s2, POP, POP);
    AfterAppend(s1, TORN, POP + POP);
    AfterAppend(s, PUSH, TORN + (POP + POP));
  }

  lemma OnePush(s: System)
    requires Idle(s) && s.ring.currCnt < s.ring.maxCnt
    ensures Disciplined(s, PUSH)
    ensures |After(s, PUSH).released| == |s.released| + 1 && After(s, PUSH).consumed == s.consumed
  {
    ThreeSteps(s, PUSH);
  }
}
