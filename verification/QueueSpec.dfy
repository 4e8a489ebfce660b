/**
 What the queue of src/dll/dll_queue.c is for: entries leave by priority, and in order of arrival within
 one priority. Stated over runs of operations on a sequence whose entries carry their arrival number.
 */
module QueueSpec {
  import opened Endian

  /** dl_queue_entry_t; the frame buffer and the user context are opaque pointers. */
  datatype Entry = Entry(frame: int, length: u16, priority: nat, userData: int, timestamp: nat)

  /** The place after the last entry whose priority is at least p; the search starts at the back. */
  function Position(q: seq<Entry>, p: nat): (k: nat)
    ensures k <= |q|
    ensures k > 0 ==> q[k - 1].priority >= p
    ensures forall i :: k <= i < |q| ==> q[i].priority < p
  {
    if q == [] then 0
    else if q[|q| - 1].priority >= p then |q|
    else Position(q[..|q| - 1], p)
  }

  lemma {:induction false} PositionUnique(q: seq<Entry>, p: nat, k: nat)
    requires k <= |q| && (k > 0 ==> q[k - 1].priority >= p)
    requires forall i :: k <= i < |q| ==> q[i].priority < p
    ensures Position(q, p) == k
  {
    if k < |q| {
      PositionUnique(q[..|q| - 1], p, k);
    }
  }

  /** A sequence with e in its place and the rest of q around it is q with e inserted. */
  lemma InsertIs(q: seq<Entry>, e: Entry, r: seq<Entry>)
    requires |r| == |q| + 1 && r[Position(q, e.priority)] == e
    requires forall k :: 0 <= k < Position(q, e.priority) ==> r[k] == q[k]
    requires forall k :: Position(q, e.priority) < k < |r| ==> r[k] == q[k - 1]
    ensures r == Insert(q, e)
  {
  }

  function Insert(q: seq<Entry>, e: Entry): seq<Entry> {
    var k := Position(q, e.priority);
    q[..k] + [e] + q[k..]
  }

  function Enqueued(q: seq<Entry>, e: Entry, byPriority: bool): seq<Entry> {
    if byPriority then Insert(q, e) else q + [e]
  }

  // ---------- Runs ----------

  datatype Arrival = Arrival(entry: Entry, number: nat)

  datatype Op = Enqueue(entry: Entry) | Dequeue | Peek | Flush

  /** A queue together with the history of what was accepted, delivered and flushed. */
  datatype History = History(queue: seq<Arrival>, accepted: seq<Arrival>, delivered: seq<Arrival>, flushed: seq<Arrival>)

  function Entries(q: seq<Arrival>): (es: seq<Entry>)
    ensures |es| == |q| && forall i :: 0 <= i < |q| ==> es[i] == q[i].entry
  {
    seq(|q|, i requires 0 <= i < |q| => q[i].entry)
  }

  function InsertArrival(q: seq<Arrival>, a: Arrival, byPriority: bool): seq<Arrival> {
    var k := if byPriority then Position(Entries(q), a.entry.priority) else |q|;
    q[..k] + [a] + q[k..]
  }

  function Step(h: History, op: Op, capacity: nat, byPriority: bool): History {
    match op
    case Enqueue(e) =>
      if |h.queue| >= capacity then h
      else
        var a := Arrival(e, |h.accepted|);
        h.(queue := InsertArrival(h.queue, a, byPriority), accepted := h.accepted + [a])
    case Dequeue =>
      if h.queue == [] then h else h.(queue := h.queue[1..], delivered := h.delivered + [h.queue[0]])
    case Peek => h
    case Flush => h.(queue := [], flushed := h.flushed + h.queue)
  }

  function Run(ops: seq<Op>, capacity: nat, byPriority: bool): History {
    if ops == [] then History([], [], [], [])
    else Step(Run(ops[..|ops| - 1], capacity, byPriority), ops[|ops| - 1], capacity, byPriority)
  }

  /** a must leave before b: higher priority first, earlier arrival within a priority. */
  predicate Before(a: Arrival, b: Arrival, byPriority: bool) {
    if byPriority && a.entry.priority != b.entry.priority then a.entry.priority > b.entry.priority
    else a.number < b.number
  }

  /** In one priority class (or in the whole queue when priorities are off) a arrived first. */
  predicate ArrivedFirst(a: Arrival, b: Arrival, byPriority: bool) {
    (byPriority && a.entry.priority != b.entry.priority) || a.number < b.number
  }

  ghost predicate Ordered(q: seq<Arrival>, byPriority: bool) {
    forall i, j :: 0 <= i < j < |q| ==> Before(q[i], q[j], byPriority)
  }

  ghost predicate DeliveredInOrder(h: History, byPriority: bool) {
    && (forall i, j :: 0 <= i < j < |h.delivered| ==> ArrivedFirst(h.delivered[i], h.delivered[j], byPriority))
    && (forall i, j :: 0 <= i < |h.delivered| && 0 <= j < |h.queue| ==>
          ArrivedFirst(h.delivered[i], h.queue[j], byPriority))
  }

  ghost predicate Numbered(h: History) {
    && (forall i :: 0 <= i < |h.accepted| ==> h.accepted[i].number == i)
    && (forall i :: 0 <= i < |h.queue| ==> h.queue[i].number < |h.accepted|)
    && (forall i :: 0 <= i < |h.delivered| ==> h.delivered[i].number < |h.accepted|)
  }

  ghost predicate Conserved(h: History) {
    multiset(h.accepted) == multiset(h.queue) + multiset(h.delivered) + multiset(h.flushed)
  }

  ghost predicate Invariant(h: History, capacity: nat, byPriority: bool) {
    && |h.queue| <= capacity
    && Numbered(h)
    && Ordered(h.queue, byPriority)
    && DeliveredInOrder(h, byPriority)
    && Conserved(h)
  }

  lemma InsertMultiset(q: seq<Arrival>, a: Arrival, byPriority: bool)
    ensures multiset(InsertArrival(q, a, byPriority)) == multiset(q) + multiset{a}
  {
    var k := if byPriority then Position(Entries(q), a.entry.priority) else |q|;
    assert q == q[..k] + q[k..];
  }

  /** Where a new arrival goes: after everything that leaves before it, in front of the rest. */
  lemma InsertPlace(q: seq<Arrival>, a: Arrival, byPriority: bool) returns (k: nat)
    requires Ordered(q, byPriority)
    requires forall i :: 0 <= i < |q| ==> q[i].number < a.number
    ensures k <= |q| && InsertArrival(q, a, byPriority) == q[..k] + [a] + q[k..]
    ensures forall i :: 0 <= i < k ==> Before(q[i], a, byPriority)
    ensures forall i :: k <= i < |q| ==> Before(a, q[i], byPriority)
  {
    k := if byPriority then Position(Entries(q), a.entry.priority) else |q|;
    assert byPriority && k > 0 ==> Entries(q)[k - 1].priority >= a.entry.priority;
    forall i | 0 <= i < k
      ensures Before(q[i], a, byPriority)
    {
      assert i < k - 1 ==> Before(q[i], q[k - 1], byPriority);
    }
    forall i | k <= i < |q|
      ensures Before(a, q[i], byPriority)
    {
      assert Entries(q)[i].priority < a.entry.priority;
    }
  }

  lemma InsertKeepsOrder(q: seq<Arrival>, a: Arrival, byPriority: bool)
    requires Ordered(q, byPriority)
    requires forall i :: 0 <= i < |q| ==> q[i].number < a.number
    ensures Ordered(InsertArrival(q, a, byPriority), byPriority)
  {
    hide Before, InsertArrival;
    var k := InsertPlace(q, a, byPriority);
    var r := q[..k] + [a] + q[k..];
    forall i, j | 0 <= i < j < |r|
      ensures Before(r[i], r[j], byPriority)
    {
      assert i != k ==> r[i] == q[if i < k then i else i - 1];
      assert j != k ==> r[j] == q[if j < k then j else j - 1];
    }
  }

  lemma InsertMembers(q: seq<Arrival>, a: Arrival, byPriority: bool)
    ensures var r := InsertArrival(q, a, byPriority);
      |r| == |q| + 1 && forall i :: 0 <= i < |r| ==> r[i] == a || exists j :: 0 <= j < |q| && r[i] == q[j]
  {
    hide Position;
    var k := if byPriority then Position(Entries(q), a.entry.priority) else |q|;
    var r := InsertArrival(q, a, byPriority);
    forall i | 0 <= i < |r| && i != k
      ensures exists j :: 0 <= j < |q| && r[i] == q[j]
    {
      var j := if i < k then i else i - 1;
      assert r[i] == q[j];
    }
  }

  lemma EnqueueKeepsInvariant(h: History, e: Entry, capacity: nat, byPriority: bool)
    requires Invariant(h, capacity, byPriority) && |h.queue| < capacity
    ensures Invariant(Step(h, Enqueue(e), capacity, byPriority), capacity, byPriority)
  {
    hide Ordered, Before, InsertArrival;
    var a := Arrival(e, |h.accepted|);
    var h' := Step(h, Enqueue(e), capacity, byPriority);
    InsertMultiset(h.queue, a, byPriority);
    InsertKeepsOrder(h.queue, a, byPriority);
    InsertMembers(h.queue, a, byPriority);
    assert multiset(h'.accepted) == multiset(h.accepted) + multiset{a};
  }

  lemma DequeueKeepsInvariant(h: History, capacity: nat, byPriority: bool)
    requires Invariant(h, capacity, byPriority) && h.queue != []
    ensures Invariant(Step(h, Dequeue, capacity, byPriority), capacity, byPriority)
  {
    var h' := Step(h, Dequeue, capacity, byPriority);
    assert h.queue == [h.queue[0]] + h.queue[1..];
    forall j | 0 <= j < |h'.queue|
      ensures ArrivedFirst(h.queue[0], h'.queue[j], byPriority)
    {
      assert Before(h.queue[0], h.queue[j + 1], byPriority);
    }
    assert DeliveredInOrder(h', byPriority);
    assert Conserved(h');
  }

  lemma StepKeepsInvariant(h: History, op: Op, capacity: nat, byPriority: bool)
    requires Invariant(h, capacity, byPriority)
    ensures Invariant(Step(h, op, capacity, byPriority), capacity, byPriority)
  {
    match op
    case Enqueue(e) =>
      if |h.queue| < capacity {
        EnqueueKeepsInvariant(h, e, capacity, byPriority);
      }
    case Dequeue =>
      if h.queue != [] {
        DequeueKeepsInvariant(h, capacity, byPriority);
      }
    case Peek =>
    case Flush =>
  }

  /** Whatever was enqueued, dequeued, peeked and flushed, the invariant holds. */
  lemma {:induction false} RunKeepsInvariant(ops: seq<Op>, capacity: nat, byPriority: bool)
    ensures Invariant(Run(ops, capacity, byPriority), capacity, byPriority)
  {
    if ops != [] {
      RunKeepsInvariant(ops[..|ops| - 1], capacity, byPriority);
      StepKeepsInvariant(Run(ops[..|ops| - 1], capacity, byPriority), ops[|ops| - 1], capacity, byPriority);
    }
  }

  /** A dequeue hands out the earliest-arrived of the highest-priority entries waiting. */
  lemma DequeueTakesBest(ops: seq<Op>, capacity: nat, byPriority: bool)
    requires Run(ops, capacity, byPriority).queue != []
    ensures var h := Run(ops, capacity, byPriority);
      var h' := Run(ops + [Dequeue], capacity, byPriority);
      && h'.delivered == h.delivered + [h.queue[0]]
      && forall i :: 0 < i < |h.queue| ==>
           (byPriority ==> h.queue[0].entry.priority >= h.queue[i].entry.priority)
           && ((byPriority ==> h.queue[0].entry.priority == h.queue[i].entry.priority) ==>
                 h.queue[0].number < h.queue[i].number)
  {
    RunKeepsInvariant(ops, capacity, byPriority);
    assert (ops + [Dequeue])[..|ops|] == ops;
    var h := Run(ops, capacity, byPriority);
    forall i | 0 < i < |h.queue|
      ensures Before(h.queue[0], h.queue[i], byPriority)
    {
    }
  }

  /** After any run every accepted entry is, exactly once, waiting, delivered or flushed, and of any two deliveries of
      one priority the earlier arrival came first. */
  lemma NothingLostOrOvertaken(ops: seq<Op>, capacity: nat, byPriority: bool)
    ensures var h := Run(ops, capacity, byPriority);
      && multiset(h.accepted) == multiset(h.queue) + multiset(h.delivered) + multiset(h.flushed)
      && forall i, j :: 0 <= i < j < |h.delivered| ==>
           (byPriority ==> h.delivered[i].entry.priority == h.delivered[j].entry.priority) ==>
             h.delivered[i].number < h.delivered[j].number
  {
    RunKeepsInvariant(ops, capacity, byPriority);
    var h := Run(ops, capacity, byPriority);
    forall i, j | 0 <= i < j < |h.delivered|
      ensures ArrivedFirst(h.delivered[i], h.delivered[j], byPriority)
    {
    }
  }

  /** Arrival numbers are bookkeeping only: without them a run does what the plain queue does. */
  lemma EntriesOfInsert(q: seq<Arrival>, a: Arrival, byPriority: bool)
    ensures Entries(InsertArrival(q, a, byPriority)) == Enqueued(Entries(q), a.entry, byPriority)
  {
    var k := if byPriority then Position(Entries(q), a.entry.priority) else |q|;
    assert Entries(q[..k]) == Entries(q)[..k] && Entries(q[k..]) == Entries(q)[k..];
  }

  /** What one more operation does: an entry is accepted exactly if there is room, a flush leaves nothing waiting, and a
      look changes nothing. */
  lemma OperationsDo(ops: seq<Op>, capacity: nat, byPriority: bool, e: Entry)
    ensures var h := Run(ops, capacity, byPriority);
      var h' := Run(ops + [Enqueue(e)], capacity, byPriority);
      if |h.queue| < capacity then
        |h'.queue| == |h.queue| + 1 && h'.accepted == h.accepted + [Arrival(e, |h.accepted|)]
        && h'.delivered == h.delivered && h'.flushed == h.flushed
      else h' == h
    ensures var h := Run(ops, capacity, byPriority);
      && Run(ops + [Peek], capacity, byPriority) == h
      && Run(ops + [Flush], capacity, byPriority) == History([], h.accepted, h.delivered, h.flushed + h.queue)
      && (h.queue == [] ==> Run(ops + [Dequeue], capacity, byPriority) == h)
  {
    assert (ops + [Enqueue(e)])[..|ops|] == ops && (ops + [Peek])[..|ops|] == ops;
    assert (ops + [Flush])[..|ops|] == ops && (ops + [Dequeue])[..|ops|] == ops;
  }
}
