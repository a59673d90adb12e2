/** The sleep service: absolute deadlines modulo 2^32, compared with the tick counter for equality on
    every tick, against a plain countdown per task. */
module Sleep {
  import opened Common

  datatype Entry = Entry(timeout: nat, active: bool, mask: nat)

  /** timeoutlist and ticks. */
  datatype Table = Table(ticks: nat, entries: seq<Entry>)

  /** SetEvent(task, mask). */
  datatype Event = Event(task: nat, mask: nat)

  /** SleepInit, Sleep, and one turn of SleepTask. */
  datatype Step = Init | Sleep(nofTicks: nat, task: nat, mask: nat) | Tick

  function Effective(nofTicks: nat): nat {
    if nofTicks == 0 then 1 else nofTicks
  }

  function Armed(t: Table, nofTicks: nat, task: nat, mask: nat): Table {
    if task < |t.entries|
    then t.(entries := t.entries[task := Entry((t.ticks + Effective(nofTicks)) % U32, true, mask)])
    else t
  }

  predicate Due(e: Entry, ticks: nat) {
    e.active && e.timeout == ticks
  }

  /** The entries after the scan of one tick. */
  function Scanned(es: seq<Entry>, ticks: nat): seq<Entry> {
    seq(|es|, i requires 0 <= i < |es| => if Due(es[i], ticks) then es[i].(active := false) else es[i])
  }

  /** The events of the first `n` entries in that scan. */
  function ScanEvents(es: seq<Entry>, ticks: nat, n: nat): seq<Event>
    requires n <= |es|
  {
    if n == 0 then []
    else
      var earlier := ScanEvents(es, ticks, n - 1);
      if Due(es[n - 1], ticks) then earlier + [Event(n - 1, es[n - 1].mask)] else earlier
  }

  function Next(t: Table, s: Step): (r: (Table, seq<Event>)) {
    match s
    case Init => (t.(entries := seq(|t.entries|, i requires 0 <= i < |t.entries| => t.entries[i].(active := false))), [])
    case Sleep(n, task, mask) => (Armed(t, n, task, mask), [])
    case Tick =>
      var now := (t.ticks + 1) % U32;
      (Table(now, Scanned(t.entries, now)), ScanEvents(t.entries, now, |t.entries|))
  }

  /** The table after a run and the events of each step. */
  function Run(t: Table, steps: seq<Step>): (r: (Table, seq<seq<Event>>))
    ensures |r.1| == |steps|
    decreases |steps|
  {
    if steps == [] then (t, [])
    else
      var (t1, events) := Next(t, steps[0]);
      var (t2, log) := Run(t1, steps[1..]);
      (t2, [events] + log)
  }

  // ---------------------------------------------------------------- the service object

  class Service {
    var ticks: nat
    const timeoutlist: array<Entry>

    ghost function State(): Table
      reads this, timeoutlist
    {
      Table(ticks, timeoutlist[..])
    }

    /** Zeroed statics for `tasks` tasks. */
    constructor (tasks: nat)
      ensures fresh(timeoutlist)
      ensures State() == Zeroed(tasks)
    {
      ticks := 0;
      timeoutlist := new Entry[tasks](_ => Entry(0, false, 0));
    }

    method SleepInit()
      modifies timeoutlist
      ensures State() == Next(old(State()), Init).0
    {
      for i := 0 to timeoutlist.Length
        invariant forall k | 0 <= k < i :: timeoutlist[k] == old(timeoutlist[k]).(active := false)
        invariant forall k | i <= k < timeoutlist.Length :: timeoutlist[k] == old(timeoutlist[k])
      {
        timeoutlist[i] := timeoutlist[i].(active := false);
      }
    }

    method SleepFor(nofTicks: nat, task: nat, mask: nat)
      modifies timeoutlist
      ensures State() == Next(old(State()), Sleep(nofTicks, task, mask)).0
    {
      var n := nofTicks;
      if n == 0 {
        n := 1;
      }
      if task < timeoutlist.Length {
        timeoutlist[task] := Entry((ticks + n) % U32, true, mask);
      }
    }

    /** The body of the SleepTask loop; the calls of SetEvent are returned. */
    method OnTick() returns (events: seq<Event>)
      modifies this, timeoutlist
      ensures (State(), events) == Next(old(State()), Tick)
    {
      ticks := (ticks + 1) % U32;
      events := [];
      ghost var before := timeoutlist[..];
      for i := 0 to timeoutlist.Length
        invariant ticks == (old(ticks) + 1) % U32
        invariant forall k | 0 <= k < i :: timeoutlist[k] == Scanned(before, ticks)[k]
        invariant forall k | i <= k < timeoutlist.Length :: timeoutlist[k] == before[k]
        invariant events == ScanEvents(before, ticks, i)
      {
        if timeoutlist[i].active && timeoutlist[i].timeout == ticks {
          timeoutlist[i] := timeoutlist[i].(active := false);
          events := events + [Event(i, timeoutlist[i].mask)];
        }
      }
      assert timeoutlist[..] == Scanned(before, ticks);
    }
  }

  // ---------------------------------------------------------------- the countdown

  datatype Counter = Counter(left: nat, mask: nat)

  /** What a reader expects: ticks left per sleeping task. */
  function CountNext(c: seq<Option<Counter>>, s: Step): (r: (seq<Option<Counter>>, seq<Event>)) {
    match s
    case Init => (seq(|c|, _ => None), [])
    case Sleep(n, task, mask) =>
      (if task < |c| then c[task := Some(Counter(if n == 0 then 1 else n, mask))] else c, [])
    case Tick => (seq(|c|, i requires 0 <= i < |c| => Counted(c[i])), CountEvents(c, |c|))
  }

  predicate LastTick(k: Option<Counter>) {
    k.Some? && k.value.left <= 1
  }

  function Counted(k: Option<Counter>): Option<Counter> {
    if k.None? || LastTick(k) then None else Some(k.value.(left := k.value.left - 1))
  }

  function CountEvents(c: seq<Option<Counter>>, n: nat): seq<Event>
    requires n <= |c|
  {
    if n == 0 then []
    else
      var earlier := CountEvents(c, n - 1);
      if LastTick(c[n - 1]) then earlier + [Event(n - 1, c[n - 1].value.mask)] else earlier
  }

  /** An entry stands for a counter: the deadline is `left` ticks ahead, modulo 2^32. */
  predicate Matches(ticks: nat, e: Entry, c: Option<Counter>) {
    match c
    case None => !e.active
    case Some(k) => e.active && e.mask == k.mask && 1 <= k.left < U32 && e.timeout == (ticks + k.left) % U32
  }

  predicate MatchesAll(ticks: nat, es: seq<Entry>, c: seq<Option<Counter>>) {
    |es| == |c| && forall i | 0 <= i < |es| :: Matches(ticks, es[i], c[i])
  }

  predicate Refines(t: Table, c: seq<Option<Counter>>) {
    t.ticks < U32 && MatchesAll(t.ticks, t.entries, c)
  }

  /** The deadline equals the counter after one tick exactly if one tick was left. */
  lemma DueWhenCountedDown(ticks: nat, left: nat)
    requires ticks < U32 && 1 <= left < U32
    ensures (ticks + left) % U32 == (ticks + 1) % U32 <==> left == 1
    ensures (ticks + left) % U32 == ((ticks + 1) % U32 + (left - 1)) % U32
  {
  }

  lemma EntryRefines(ticks: nat, e: Entry, k: Option<Counter>)
    requires ticks < U32 && Matches(ticks, e, k)
    ensures var now := (ticks + 1) % U32;
      && (Due(e, now) <==> LastTick(k))
      && Matches(now, if Due(e, now) then e.(active := false) else e, Counted(k))
  {
    if k.Some? {
      DueWhenCountedDown(ticks, k.value.left);
    }
  }

  lemma {:induction false} EventsRefine(ticks: nat, es: seq<Entry>, c: seq<Option<Counter>>, n: nat)
    requires ticks < U32 && MatchesAll(ticks, es, c) && n <= |es|
    ensures ScanEvents(es, (ticks + 1) % U32, n) == CountEvents(c, n)
  {
    if n > 0 {
      EventsRefine(ticks, es, c, n - 1);
      EntryRefines(ticks, es[n - 1], c[n - 1]);
    }
  }

  lemma StepRefines(t: Table, c: seq<Option<Counter>>, s: Step)
    requires Refines(t, c) && (s.Sleep? ==> s.nofTicks < U32)
    ensures Refines(Next(t, s).0, CountNext(c, s).0) && Next(t, s).1 == CountNext(c, s).1
  {
    if s.Tick? {
      EventsRefine(t.ticks, t.entries, c, |c|);
      forall i | 0 <= i < |c|
        ensures Matches((t.ticks + 1) % U32, Scanned(t.entries, (t.ticks + 1) % U32)[i], Counted(c[i]))
      {
        EntryRefines(t.ticks, t.entries[i], c[i]);
      }
    }
  }

  /** The zeroed statics, and any table after SleepInit, stand for a countdown with nobody asleep. */
  lemma InitRefines(t: Table)
    requires t.ticks < U32
    ensures Refines(Next(t, Init).0, seq(|t.entries|, _ => None))
  {
  }

  /** Sleeping times are 32-bit. */
  predicate Bounded(steps: seq<Step>) {
    forall i | 0 <= i < |steps| :: steps[i].Sleep? ==> steps[i].nofTicks < U32
  }

  function CountRun(c: seq<Option<Counter>>, steps: seq<Step>): (r: (seq<Option<Counter>>, seq<seq<Event>>))
    ensures |r.1| == |steps|
    decreases |steps|
  {
    if steps == [] then (c, [])
    else
      var (c1, events) := CountNext(c, steps[0]);
      var (c2, log) := CountRun(c1, steps[1..]);
      (c2, [events] + log)
  }

  /** Every run of the deadline table sets the same events at the same steps as the countdown, across
      any number of wraps of the tick counter. */
  lemma {:induction false} RunRefinesCountdown(t: Table, c: seq<Option<Counter>>, steps: seq<Step>)
    requires Refines(t, c) && Bounded(steps)
    ensures Refines(Run(t, steps).0, CountRun(c, steps).0) && Run(t, steps).1 == CountRun(c, steps).1
    decreases |steps|
  {
    if steps != [] {
      StepRefines(t, c, steps[0]);
      RunRefinesCountdown(Next(t, steps[0]).0, CountNext(c, steps[0]).0, steps[1..]);
    }
  }

  // ---------------------------------------------------------------- when a task wakes up

  /** No step initialises the service or sends `task` to sleep again. */
  predicate Untouched(steps: seq<Step>, task: nat) {
    forall i | 0 <= i < |steps| :: !steps[i].Init? && (steps[i].Sleep? ==> steps[i].task != task)
  }

  function Ticks(steps: seq<Step>): nat {
    if steps == [] then 0 else (if steps[0].Tick? then 1 else 0) + Ticks(steps[1..])
  }

  /** The events of `task`. */
  function Of(events: seq<Event>, task: nat): seq<Event> {
    if events == [] then []
    else
      var last := events[|events| - 1];
      var earlier := Of(events[..|events| - 1], task);
      if last.task == task then earlier + [last] else earlier
  }

  predicate Silent(log: seq<seq<Event>>, task: nat) {
    forall i | 0 <= i < |log| :: Of(log[i], task) == []
  }

  lemma OfAppend(events: seq<Event>, e: Event, task: nat)
    ensures Of(events + [e], task) == if e.task == task then Of(events, task) + [e] else Of(events, task)
  {
    assert (events + [e])[..|events|] == events;
  }

  /** A tick sets at most one event per task, when its counter has come down to one. */
  lemma {:induction false} TickOf(c: seq<Option<Counter>>, n: nat, task: nat)
    requires n <= |c|
    ensures Of(CountEvents(c, n), task) ==
      if task < n && LastTick(c[task]) then [Event(task, c[task].value.mask)] else []
  {
    if n > 0 {
      TickOf(c, n - 1, task);
      if LastTick(c[n - 1]) {
        OfAppend(CountEvents(c, n - 1), Event(n - 1, c[n - 1].value.mask), task);
      }
    }
  }

  /** An untouched counter runs down with the ticks and stays silent until it is used up. */
  lemma {:induction false} CountsDown(c: seq<Option<Counter>>, task: nat, k: Counter, steps: seq<Step>)
    requires task < |c| && c[task] == Some(k) && Untouched(steps, task) && Ticks(steps) < k.left
    ensures var (c', log) := CountRun(c, steps);
      task < |c'| && c'[task] == Some(k.(left := k.left - Ticks(steps))) && Silent(log, task)
    decreases |steps|
  {
    if steps != [] {
      TickOf(c, |c|, task);
      var c1 := CountNext(c, steps[0]).0;
      var k1 := if steps[0].Tick? then k.(left := k.left - 1) else k;
      assert Untouched(steps[1..], task);
      CountsDown(c1, task, k1, steps[1..]);
    }
  }

  /** A task that does not sleep gets no event. */
  lemma {:induction false} StaysAwake(c: seq<Option<Counter>>, task: nat, steps: seq<Step>)
    requires task < |c| && c[task] == None && Untouched(steps, task)
    ensures Silent(CountRun(c, steps).1, task)
    decreases |steps|
  {
    if steps != [] {
      TickOf(c, |c|, task);
      assert Untouched(steps[1..], task);
      StaysAwake(CountNext(c, steps[0]).0, task, steps[1..]);
    }
  }

  lemma WakesFrom(t: Table, c: seq<Option<Counter>>, n: nat, task: nat, mask: nat, before: seq<Step>, after: seq<Step>)
    requires Refines(t, c) && n < U32 && task < |c| && Bounded(before) && Bounded(after)
    requires Untouched(before, task) && Untouched(after, task)
    requires Ticks(before) + 1 == if n == 0 then 1 else n
    ensures var t1 := Next(t, Sleep(n, task, mask)).0;
      var (t2, quiet) := Run(t1, before);
      var (t3, wake) := Next(t2, Tick);
      Silent(quiet, task) && Of(wake, task) == [Event(task, mask)] && Silent(Run(t3, after).1, task)
  {
    var s := Sleep(n, task, mask);
    StepRefines(t, c, s);
    var t1, c1 := Next(t, s).0, CountNext(c, s).0;
    RunRefinesCountdown(t1, c1, before);
    CountsDown(c1, task, Counter(if n == 0 then 1 else n, mask), before);
    var t2, c2 := Run(t1, before).0, CountRun(c1, before).0;
    StepRefines(t2, c2, Tick);
    TickOf(c2, |c2|, task);
    var t3, c3 := Next(t2, Tick).0, CountNext(c2, Tick).0;
    RunRefinesCountdown(t3, c3, after);
    StaysAwake(c3, task, after);
  }

  /** The statics before the first call. */
  function Zeroed(tasks: nat): Table {
    Table(0, seq(tasks, _ => Entry(0, false, 0)))
  }

  /** In every reachable state: a task that is sent to sleep for `n` ticks and is not armed again gets its
      event, with its own mask, on the n-th later tick (the first, if `n` is zero) and on no other. */
  lemma WakesOnTime(tasks: nat, history: seq<Step>, n: nat, task: nat, mask: nat, before: seq<Step>, after: seq<Step>)
    requires n < U32 && task < tasks && Bounded(history) && Bounded(before) && Bounded(after)
    requires Untouched(before, task) && Untouched(after, task)
    requires Ticks(before) + 1 == if n == 0 then 1 else n
    ensures var t1 := Next(Run(Zeroed(tasks), history).0, Sleep(n, task, mask)).0;
      var (t2, quiet) := Run(t1, before);
      var (t3, wake) := Next(t2, Tick);
      Silent(quiet, task) && Of(wake, task) == [Event(task, mask)] && Silent(Run(t3, after).1, task)
  {
    var c := seq(tasks, _ => None);
    RunRefinesCountdown(Zeroed(tasks), c, history);
    CountRunLength(c, history);
    WakesFrom(Run(Zeroed(tasks), history).0, CountRun(c, history).0, n, task, mask, before, after);
  }

  lemma {:induction false} CountRunLength(c: seq<Option<Counter>>, steps: seq<Step>)
    ensures |CountRun(c, steps).0| == |c|
    decreases |steps|
  {
    if steps != [] {
      CountRunLength(CountNext(c, steps[0]).0, steps[1..]);
    }
  }

  /** Calling SleepInit silences a task until it is sent to sleep again. */
  lemma SilentAfterInit(tasks: nat, history: seq<Step>, task: nat, after: seq<Step>)
    requires task < tasks && Bounded(history) && Bounded(after) && Untouched(after, task)
    ensures Silent(Run(Next(Run(Zeroed(tasks), history).0, Init).0, after).1, task)
  {
    var c := seq(tasks, _ => None);
    RunRefinesCountdown(Zeroed(tasks), c, history);
    CountRunLength(c, history);
    var t, c1 := Run(Zeroed(tasks), history).0, CountRun(c, history).0;
    StepRefines(t, c1, Init);
    RunRefinesCountdown(Next(t, Init).0, CountNext(c1, Init).0, after);
    StaysAwake(CountNext(c1, Init).0, task, after);
  }
}
