/** BSD tail queues.  A head and an entry have the same two words: a forward link, and the address
    of a forward link (of the previous element, or for a head of the last one).  An address of a
    forward link is represented by the object that holds the link, so one class serves for both
    and the cast of an entry to a head is the identity. */
module TailQueue {
  import opened Sequences

  class Link {
    var next: Link?
    var prev: Link

    /** A link that refers to itself, as TAILQ_INIT leaves a head. */
    constructor ()
      ensures next == null && prev == this
    {
      next, prev := null, this;
    }
  }

  /** `head` heads a queue whose entries are `es`: forward links run through them, each back link
      holds the address of the forward link that leads to its entry, and the head holds the address
      of the last forward link. */
  ghost predicate Queue(head: Link, es: seq<Link>)
    reads head, es
  {
    && head !in es
    && (forall i, j | 0 <= i < j < |es| :: es[i] != es[j])
    && (if es == [] then head.next == null && head.prev == head
        else && head.next == es[0] && es[0].prev == head
             && es[|es| - 1].next == null && head.prev == es[|es| - 1])
    && (forall i {:trigger es[i].next} | 0 <= i < |es| - 1 :: es[i].next == es[i + 1])
    && (forall i {:trigger es[i].prev} | 1 <= i < |es| :: es[i].prev == es[i - 1])
  }

  // ---------------------------------------------------------------- reading

  /** TAILQ_EMPTY. */
  method Empty(head: Link, ghost es: seq<Link>) returns (r: bool)
    requires Queue(head, es)
    ensures r <==> es == []
  {
    r := head.next == null;
  }

  /** TAILQ_FIRST. */
  method First(head: Link, ghost es: seq<Link>) returns (r: Link?)
    requires Queue(head, es)
    ensures r == if es == [] then null else es[0]
  {
    r := head.next;
  }

  /** TAILQ_NEXT. */
  method Next(elm: Link, ghost head: Link, ghost es: seq<Link>, ghost k: nat) returns (r: Link?)
    requires Queue(head, es) && k < |es| && elm == es[k]
    ensures r == if k + 1 < |es| then es[k + 1] else null
  {
    r := elm.next;
  }

  /** TAILQ_LAST: the last forward link viewed as a head; its back link leads to the link before. */
  method Last(head: Link, ghost es: seq<Link>) returns (r: Link?)
    requires Queue(head, es)
    ensures r == if es == [] then null else es[|es| - 1]
  {
    r := head.prev.prev.next;
    assert |es| > 1 ==> es[|es| - 2].next == es[|es| - 1];
  }

  /** TAILQ_PREV: for the first entry the link before is the head, whose own back link leads to the
      last entry and its null forward link. */
  method Prev(elm: Link, ghost head: Link, ghost es: seq<Link>, ghost k: nat) returns (r: Link?)
    requires Queue(head, es) && k < |es| && elm == es[k]
    ensures r == if k == 0 then null else es[k - 1]
  {
    r := elm.prev.prev.next;
    assert k > 1 ==> es[k - 2].next == es[k - 1];
  }

  // ---------------------------------------------------------------- changing

  /** TAILQ_INIT. */
  method Init(head: Link)
    modifies head
    ensures Queue(head, [])
  {
    head.next := null;
    head.prev := head;
  }

  /** TAILQ_INSERT_HEAD. */
  method InsertHead(head: Link, ghost es: seq<Link>, elm: Link)
    requires Queue(head, es) && elm != head && elm !in es
    modifies head, elm, es
    ensures Queue(head, [elm] + es)
  {
    elm.next := head.next;
    if elm.next != null {
      head.next.prev := elm;
    } else {
      head.prev := elm;
    }
    head.next := elm;
    elm.prev := head;
  }

  /** TAILQ_INSERT_TAIL. */
  method InsertTail(head: Link, ghost es: seq<Link>, elm: Link)
    requires Queue(head, es) && elm != head && elm !in es
    modifies head, elm, es
    ensures Queue(head, es + [elm])
  {
    elm.next := null;
    elm.prev := head.prev;
    head.prev.next := elm;
    head.prev := elm;
  }

  /** TAILQ_INSERT_AFTER. */
  method InsertAfter(head: Link, ghost es: seq<Link>, ghost k: nat, listelm: Link, elm: Link)
    requires Queue(head, es) && k < |es| && listelm == es[k] && elm != head && elm !in es
    modifies head, elm, es
    ensures Queue(head, es[..k + 1] + [elm] + es[k + 1..])
  {
    elm.next := listelm.next;
    if elm.next != null {
      elm.next.prev := elm;
    } else {
      head.prev := elm;
    }
    listelm.next := elm;
    elm.prev := listelm;
  }

  /** TAILQ_INSERT_BEFORE, which does not mention the head. */
  method InsertBefore(listelm: Link, elm: Link, ghost head: Link, ghost es: seq<Link>, ghost k: nat)
    requires Queue(head, es) && k < |es| && listelm == es[k] && elm != head && elm !in es
    modifies head, elm, es
    ensures Queue(head, es[..k] + [elm] + es[k..])
  {
    elm.prev := listelm.prev;
    elm.next := listelm;
    listelm.prev.next := elm;
    listelm.prev := elm;
    ghost var fs := es[..k] + [elm] + es[k..];
    assert fs[k] == elm && fs[k + 1] == listelm && (k > 0 ==> fs[k - 1] == es[k - 1]);
    assert forall i | 0 <= i < k :: fs[i] == es[i];
    assert forall i | k < i < |fs| :: fs[i] == es[i - 1];
  }

  /** TAILQ_REMOVE; the removed entry keeps its links. */
  method Remove(head: Link, ghost es: seq<Link>, ghost k: nat, elm: Link)
    requires Queue(head, es) && k < |es| && elm == es[k]
    modifies head, es
    ensures Queue(head, es[..k] + es[k + 1..])
    ensures elm.next == old(elm.next) && elm.prev == old(elm.prev)
  {
    if elm.next != null {
      elm.next.prev := elm.prev;
    } else {
      head.prev := elm.prev;
    }
    elm.prev.next := elm.next;
  }

  /** TAILQ_CONCAT. */
  method Concat(head1: Link, ghost es1: seq<Link>, head2: Link, ghost es2: seq<Link>)
    requires Queue(head1, es1) && Queue(head2, es2)
    requires head1 != head2 && head1 !in es2 && head2 !in es1
    requires forall i, j | 0 <= i < |es1| && 0 <= j < |es2| :: es1[i] != es2[j]
    modifies head1, es1, head2, es2
    ensures Queue(head1, es1 + es2) && Queue(head2, [])
  {
    if head2.next != null {
      head1.prev.next := head2.next;
      head2.next.prev := head1.prev;
      head1.prev := head2.prev;
      Init(head2);
    }
  }

  // ---------------------------------------------------------------- traversals

  /** TAILQ_FOREACH. */
  method Foreach(head: Link, ghost es: seq<Link>) returns (visited: seq<Link>)
    requires Queue(head, es)
    ensures visited == es
  {
    visited := [];
    ghost var k := 0;
    var v := First(head, es);
    while v != null
      invariant 0 <= k <= |es| && visited == es[..k]
      invariant v == if k < |es| then es[k] else null
      decreases |es| - k
    {
      visited := visited + [v];
      v := Next(v, head, es, k);
      k := k + 1;
    }
  }

  /** TAILQ_FOREACH_REVERSE visits the entries of TAILQ_FOREACH in the opposite order. */
  method ForeachReverse(head: Link, ghost es: seq<Link>) returns (visited: seq<Link>)
    requires Queue(head, es)
    ensures visited == Reverse(es)
  {
    visited := [];
    ghost var k := |es|;
    assert es[..k] == es;
    var v := Last(head, es);
    while v != null
      invariant 0 <= k <= |es| && visited + Reverse(es[..k]) == Reverse(es)
      invariant v == if k > 0 then es[k - 1] else null
      decreases k
    {
      assert es[..k] == es[..k - 1] + [es[k - 1]];
      ReverseAppend(es[..k - 1], es[k - 1]);
      assert visited + Reverse(es[..k]) == visited + [es[k - 1]] + Reverse(es[..k - 1]);
      visited := visited + [v];
      v := Prev(v, head, es, k - 1);
      k := k - 1;
    }
  }

  // ---------------------------------------------------------------- every run

  datatype Op =
    | OpInsertHead(elm: Link)
    | OpInsertTail(elm: Link)
    | OpInsertAfter(listelm: Link, elm: Link)
    | OpInsertBefore(listelm: Link, elm: Link)
    | OpRemove(listelm: Link)

  ghost function IndexOf(es: seq<Link>, l: Link): (k: nat)
    requires l in es
    ensures k < |es| && es[k] == l
  {
    var k: nat :| k < |es| && es[k] == l; k
  }

  /** A call that a program may make: new entries are not yet queued, named entries are. */
  ghost predicate Enabled(head: Link, es: seq<Link>, op: Op) {
    && (!op.OpRemove? ==> op.elm != head && op.elm !in es)
    && (op.OpInsertAfter? || op.OpInsertBefore? || op.OpRemove? ==> op.listelm in es)
  }

  /** The effect of a call on the mathematical sequence. */
  ghost function Apply(head: Link, es: seq<Link>, op: Op): seq<Link>
    requires Enabled(head, es, op)
  {
    match op
    case OpInsertHead(e) => [e] + es
    case OpInsertTail(e) => es + [e]
    case OpInsertAfter(l, e) => es[..IndexOf(es, l) + 1] + [e] + es[IndexOf(es, l) + 1..]
    case OpInsertBefore(l, e) => es[..IndexOf(es, l)] + [e] + es[IndexOf(es, l)..]
    case OpRemove(l) => es[..IndexOf(es, l)] + es[IndexOf(es, l) + 1..]
  }

  lemma ApplyMembers(head: Link, es: seq<Link>, op: Op)
    requires Enabled(head, es, op)
    ensures forall l | l in Apply(head, es, op) :: l in es || (!op.OpRemove? && l == op.elm)
  {
  }

  ghost function NewLinks(op: Op): set<Link> {
    if op.OpRemove? then {} else {op.elm}
  }

  method Perform(head: Link, ghost es: seq<Link>, op: Op)
    requires Queue(head, es) && Enabled(head, es, op)
    modifies head, es, NewLinks(op)
    ensures Queue(head, Apply(head, es, op))
  {
    match op
    case OpInsertHead(e) => InsertHead(head, es, e);
    case OpInsertTail(e) => InsertTail(head, es, e);
    case OpInsertAfter(l, e) => InsertAfter(head, es, IndexOf(es, l), l, e);
    case OpInsertBefore(l, e) => InsertBefore(l, e, head, es, IndexOf(es, l));
    case OpRemove(l) => Remove(head, es, IndexOf(es, l), l);
  }

  // ---------------------------------------------------------------- programs over any number of queues

  /** The entries of each queue, by its head. */
  type Queues = map<Link, seq<Link>>

  /** Initialisation of a head, a call on a queue, or the concatenation of one queue to another. */
  datatype Call = Create(head: Link) | On(head: Link, op: Op) | Join(head: Link, from: Link)

  ghost function Members(qs: Queues): (ls: set<Link>)
    ensures forall h, l | h in qs && l in qs[h] :: l in ls
  {
    set h, l | h in qs && l in qs[h] :: l
  }

  /** Two queues share no link, heads included. */
  ghost predicate Separate(h1: Link, es1: seq<Link>, h2: Link, es2: seq<Link>) {
    && h1 != h2 && h1 !in es2 && h2 !in es1
    && forall l | l in es1 :: l !in es2
  }

  ghost predicate AllSeparate(qs: Queues) {
    && (forall h | h in qs :: h !in qs[h])
    && forall h1, h2 | h1 in qs && h2 in qs && h1 != h2 :: Separate(h1, qs[h1], h2, qs[h2])
  }

  /** A link that no queue uses. */
  ghost predicate Unused(qs: Queues, l: Link) {
    l !in qs && l !in Members(qs)
  }

  ghost predicate CallEnabled(qs: Queues, c: Call) {
    match c
    case Create(h) => h !in Members(qs)
    case On(h, op) => h in qs && Enabled(h, qs[h], op) && (!op.OpRemove? ==> Unused(qs, op.elm))
    case Join(h, from) => h in qs && from in qs && h != from
  }

  /** The effect of a call on the mathematical sequences. */
  ghost function ApplyCall(qs: Queues, c: Call): Queues
    requires CallEnabled(qs, c)
  {
    match c
    case Create(h) => qs[h := []]
    case On(h, op) => qs[h := Apply(h, qs[h], op)]
    case Join(h, from) => qs[h := qs[h] + qs[from]][from := []]
  }

  ghost predicate WellFormed(qs: Queues, calls: seq<Call>)
    decreases |calls|
  {
    calls == [] || (CallEnabled(qs, calls[0]) && WellFormed(ApplyCall(qs, calls[0]), calls[1..]))
  }

  ghost function ApplyAll(qs: Queues, calls: seq<Call>): Queues
    requires WellFormed(qs, calls)
    decreases |calls|
  {
    if calls == [] then qs else ApplyAll(ApplyCall(qs, calls[0]), calls[1..])
  }

  /** The links that a call may touch besides those of the queues. */
  ghost function CallLinks(c: Call): set<Link> {
    match c
    case Create(h) => {h}
    case On(_, op) => NewLinks(op)
    case Join(_, _) => {}
  }

  ghost function Links(calls: seq<Call>): set<Link> {
    if calls == [] then {} else CallLinks(calls[0]) + Links(calls[1..])
  }

  // ---- separation

  /** Changing the entries of one queue keeps all separate, if the new entries are old or unused. */
  lemma UpdateSeparate(qs: Queues, h: Link, es: seq<Link>)
    requires AllSeparate(qs) && h !in Members(qs) && h !in es
    requires forall l | l in es :: (h in qs && l in qs[h]) || Unused(qs, l)
    ensures AllSeparate(qs[h := es])
  {
    forall h2 | h2 in qs && h2 != h
      ensures Separate(h, es, h2, qs[h2]) && Separate(h2, qs[h2], h, es)
    {
      UpdateSeparateOne(qs, h, es, h2);
    }
  }

  lemma UpdateSeparateOne(qs: Queues, h: Link, es: seq<Link>, h2: Link)
    requires AllSeparate(qs) && h !in Members(qs) && h !in es && h2 in qs && h2 != h
    requires forall l | l in es :: (h in qs && l in qs[h]) || Unused(qs, l)
    ensures Separate(h, es, h2, qs[h2]) && Separate(h2, qs[h2], h, es)
  {
    if h in qs {
      assert Separate(h, qs[h], h2, qs[h2]);
    }
  }

  lemma JoinSeparate(qs: Queues, h: Link, from: Link)
    requires AllSeparate(qs) && h in qs && from in qs && h != from
    ensures AllSeparate(qs[h := qs[h] + qs[from]][from := []])
  {
    assert Separate(h, qs[h], from, qs[from]);
    forall h2 | h2 in qs && h2 != h && h2 != from
      ensures Separate(h, qs[h] + qs[from], h2, qs[h2]) && Separate(h2, qs[h2], h, qs[h] + qs[from])
      ensures Separate(from, [], h2, qs[h2]) && Separate(h2, qs[h2], from, [])
    {
      assert Separate(h, qs[h], h2, qs[h2]) && Separate(from, qs[from], h2, qs[h2]);
    }
  }

  lemma HeadIsNoMember(qs: Queues, h: Link)
    requires AllSeparate(qs) && h in qs
    ensures h !in Members(qs)
  {
    forall h2 | h2 in qs
      ensures h !in qs[h2]
    {
      if h2 != h { assert Separate(h, qs[h], h2, qs[h2]); }
    }
  }

  method PerformCreate(ghost qs: Queues, h: Link)
    requires AllSeparate(qs) && (forall h2 | h2 in qs :: Queue(h2, qs[h2])) && h !in Members(qs)
    modifies h
    ensures Queue(h, []) && forall h2 | h2 in qs && h2 != h :: Queue(h2, qs[h2])
  {
    Init(h);
  }

  method PerformOn(ghost qs: Queues, h: Link, op: Op)
    requires AllSeparate(qs) && (forall h2 | h2 in qs :: Queue(h2, qs[h2]))
    requires h in qs && Enabled(h, qs[h], op) && (!op.OpRemove? ==> Unused(qs, op.elm))
    modifies h, qs[h], NewLinks(op)
    ensures Queue(h, Apply(h, qs[h], op)) && forall h2 | h2 in qs && h2 != h :: Queue(h2, qs[h2])
  {
    ghost var es := qs[h];
    Perform(h, es, op);
    forall h2 | h2 in qs && h2 != h
      ensures Queue(h2, qs[h2])
    {
      ghost var os := qs[h2];
      assert old(Queue(h2, os)) && Separate(h, es, h2, os);
      assert forall i | 0 <= i < |os| :: os[i] in os && os[i] != h && os[i] !in es && os[i] !in NewLinks(op);
    }
  }

  method PerformJoin(ghost qs: Queues, h: Link, from: Link)
    requires AllSeparate(qs) && (forall h2 | h2 in qs :: Queue(h2, qs[h2]))
    requires h in qs && from in qs && h != from
    modifies h, qs[h], from, qs[from]
    ensures Queue(h, qs[h] + qs[from]) && Queue(from, [])
    ensures forall h2 | h2 in qs && h2 != h && h2 != from :: Queue(h2, qs[h2])
  {
    ghost var es1, es2 := qs[h], qs[from];
    assert Separate(h, es1, from, es2);
    forall i, j | 0 <= i < |es1| && 0 <= j < |es2|
      ensures es1[i] != es2[j]
    {
      assert es1[i] in es1 && es2[j] in es2;
    }
    Concat(h, es1, from, es2);
    forall h2 | h2 in qs && h2 != h && h2 != from
      ensures Queue(h2, qs[h2])
    {
      ghost var os := qs[h2];
      assert old(Queue(h2, os)) && Separate(h, es1, h2, os) && Separate(from, es2, h2, os);
      assert forall i | 0 <= i < |os| :: os[i] in os && os[i] != h && os[i] != from && os[i] !in es1 && os[i] !in es2;
    }
  }

  /** Calls keep all queues separate. */
  lemma CallSeparate(qs: Queues, c: Call)
    requires AllSeparate(qs) && CallEnabled(qs, c)
    ensures AllSeparate(ApplyCall(qs, c))
  {
    match c
    case Create(h) => UpdateSeparate(qs, h, []);
    case On(h, op) =>
      ApplyMembers(h, qs[h], op);
      HeadIsNoMember(qs, h);
      UpdateSeparate(qs, h, Apply(h, qs[h], op));
    case Join(h, from) => JoinSeparate(qs, h, from);
  }

  method PerformCall(ghost qs: Queues, c: Call)
    requires AllSeparate(qs) && (forall h | h in qs :: Queue(h, qs[h])) && CallEnabled(qs, c)
    modifies qs.Keys, Members(qs), CallLinks(c)
    ensures AllSeparate(ApplyCall(qs, c)) && forall h | h in ApplyCall(qs, c) :: Queue(h, ApplyCall(qs, c)[h])
  {
    CallSeparate(qs, c);
    match c
    case Create(h) => PerformCreate(qs, h);
    case On(h, op) => PerformOn(qs, h, op);
    case Join(h, from) => PerformJoin(qs, h, from);
  }

  lemma CallMembers(qs: Queues, c: Call)
    requires CallEnabled(qs, c)
    ensures ApplyCall(qs, c).Keys <= qs.Keys + CallLinks(c)
    ensures Members(ApplyCall(qs, c)) <= Members(qs) + CallLinks(c)
  {
    if c.On? {
      ApplyMembers(c.head, qs[c.head], c.op);
    }
  }

  /** Every well-formed sequence of calls on any number of queues leaves queues whose entries are those
      of the mathematical sequences. */
  method PerformAll(ghost qs: Queues, calls: seq<Call>)
    requires AllSeparate(qs) && (forall h | h in qs :: Queue(h, qs[h])) && WellFormed(qs, calls)
    modifies qs.Keys, Members(qs), Links(calls)
    ensures AllSeparate(ApplyAll(qs, calls)) && forall h | h in ApplyAll(qs, calls) :: Queue(h, ApplyAll(qs, calls)[h])
    decreases |calls|
  {
    if calls != [] {
      PerformCall(qs, calls[0]);
      CallMembers(qs, calls[0]);
      PerformAll(ApplyCall(qs, calls[0]), calls[1..]);
    }
  }
}
