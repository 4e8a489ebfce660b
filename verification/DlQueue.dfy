/**
 The ring buffer of src/dll/dll_queue.c: head and tail wrap around, priority insertion shifts entries in
 place. Its contents are read from head, and every operation is the corresponding step of QueueSpec.
 */
module DlQueue {
  import opened Wrappers
  import opened Frame
  import opened QueueSpec

  /** x % capacity, for an x at most one lap ahead. */
  function Wrap(x: nat, capacity: nat): nat
    requires capacity > 0 && x < 2 * capacity
  {
    if x < capacity then x else x - capacity
  }

  lemma WrapIsModulo(x: nat, capacity: nat)
    requires capacity > 0 && x < 2 * capacity
    ensures Wrap(x, capacity) == x % capacity
  {
    if x >= capacity {
      assert x == capacity + (x - capacity);
    }
  }

  /** The slot of the k-th waiting entry. */
  function Slot(head: nat, k: nat, capacity: nat): (slot: nat)
    requires head < capacity && k <= capacity
    ensures slot < capacity
  {
    Wrap(head + k, capacity)
  }

  /** The waiting entries of a ring, from its head. */
  function Unrolled(slots: seq<Entry>, head: nat, count: nat): (q: seq<Entry>)
    requires head < |slots| && count <= |slots|
    ensures |q| == count
  {
    seq(count, k requires 0 <= k < count => slots[Slot(head, k, |slots|)])
  }

  /** (slot + 1) % capacity */
  function Next(slot: nat, capacity: nat): nat
    requires slot < capacity
  {
    Wrap(slot + 1, capacity)
  }

  /** (slot + capacity - 1) % capacity */
  function Previous(slot: nat, capacity: nat): nat
    requires slot < capacity
  {
    Wrap(slot + capacity - 1, capacity)
  }

  class Queue {
    const entries: array<Entry>
    const capacity: nat
    const enablePriority: bool
    var count: nat
    var head: nat
    var tail: nat
    /** Everything that has happened to the queue. */
    ghost var history: History

    ghost predicate Shaped()
      reads `count, `head, `tail
    {
      0 < capacity <= 0xFFFF && entries.Length == capacity && count <= capacity && head < capacity && tail == Slot(head, count, capacity)
    }

    function Contents(): (q: seq<Entry>)
      requires Shaped()
      reads `count, `head, `tail, entries
      ensures |q| == count
    {
      Unrolled(entries[..], head, count)
    }

    lemma ContentsElements()
      requires Shaped()
      ensures forall k :: 0 <= k < count ==> Contents()[k] == entries[Slot(head, k, capacity)]
    {
    }

    ghost predicate Valid()
      reads this, entries
      ensures Valid() ==> Shaped()
    {
      && Shaped()
      && Contents() == Entries(history.queue)
      && Invariant(history, capacity, enablePriority)
    }

    /** dl_queue_create for a non-zero capacity */
    constructor (size: nat, byPriority: bool)
      requires 0 < size <= 0xFFFF
      ensures Valid() && fresh(entries) && capacity == size && enablePriority == byPriority
      ensures history == History([], [], [], []) && Contents() == []
    {
      entries := new Entry[size](_ => Entry(0, 0, 0, 0, 0));
      capacity, enablePriority := size, byPriority;
      count, head, tail := 0, 0, 0;
      history := History([], [], [], []);
    }

    /** insert_with_priority, on a queue that is not full */
    method InsertWithPriority(e: Entry)
      requires Shaped() && count < capacity
      modifies this`count, this`tail, entries
      ensures Shaped() && Contents() == Insert(old(Contents()), e)
    {
      hide Contents, Position, Insert;
      var position := FindPosition(e);
      ghost var at := Position(Contents(), e.priority);
      ghost var before := Contents();
      ContentsElements();
      MakeRoom(position, at);
      entries[position] := e;
      tail := Next(tail, capacity);
      count := count + 1;
      ContentsElements();
      InsertIs(before, e, Contents());
    }

    /** Lines 76-83: move the entries from the insertion slot to the tail one slot back. */
    method MakeRoom(position: nat, ghost at: nat)
      requires Shaped() && count < capacity && at <= count && position == Slot(head, at, capacity)
      modifies entries
      ensures forall k :: 0 <= k < at ==> entries[Slot(head, k, capacity)] == old(entries[Slot(head, k, capacity)])
      ensures forall k :: at < k <= count ==> entries[Slot(head, k, capacity)] == old(entries[Slot(head, k - 1, capacity)])
    {
      var shift := tail;
      ghost var gap := count;
      while shift != position
        invariant at <= gap <= count && shift == Slot(head, gap, capacity)
        invariant forall k :: 0 <= k < gap ==> entries[Slot(head, k, capacity)] == old(entries[Slot(head, k, capacity)])
        invariant forall k :: gap < k <= count ==> entries[Slot(head, k, capacity)] == old(entries[Slot(head, k - 1, capacity)])
        decreases gap
      {
        var previous := Previous(shift, capacity);
        entries[shift] := entries[previous];
        shift := previous;
        gap := gap - 1;
      }
    }

    /** Lines 55-74: search backwards from the tail for the slot to insert at. */
    method FindPosition(e: Entry) returns (position: nat)
      requires Shaped() && count < capacity
      ensures position == Slot(head, Position(Contents(), e.priority), capacity)
    {
      hide Contents, Position;
      ContentsElements();
      if count == 0 {
        PositionUnique(Contents(), e.priority, 0);
        return tail;
      }
      position := tail;
      ghost var q := Contents();
      var search := Previous(tail, capacity);
      var i := 0;
      while i < count
        invariant 0 <= i < count && search == Slot(head, count - 1 - i, capacity)
        invariant forall k :: count - i <= k < count ==> q[k].priority < e.priority
      {
        assert entries[search] == q[count - 1 - i];
        if entries[search].priority >= e.priority {
          position := Next(search, capacity);
          PositionUnique(q, e.priority, count - i);
          return;
        }
        if search == head {
          position := head;
          PositionUnique(q, e.priority, 0);
          return;
        }
        search := Previous(search, capacity);
        i := i + 1;
      }
    }

    /** dl_queue_enqueue */
    method EnqueueEntry(e: Entry) returns (status: DlStatus)
      requires Valid()
      modifies this, entries
      ensures Valid()
      ensures status == if old(count) >= capacity then Error else Success
      ensures history == Step(old(history), Enqueue(e), capacity, enablePriority)
      ensures Contents() == if status.Success? then Enqueued(old(Contents()), e, enablePriority) else old(Contents())
    {
      hide Contents, Insert, InsertArrival, Invariant;
      if count >= capacity {
        return Error;
      }
      assert |history.queue| == count;
      EntriesOfInsert(history.queue, Arrival(e, |history.accepted|), enablePriority);
      StepKeepsInvariant(history, Enqueue(e), capacity, enablePriority);
      if enablePriority {
        InsertWithPriority(e);
      } else {
        AppendEntry(e);
      }
      history := Step(history, Enqueue(e), capacity, enablePriority);
      status := Success;
    }

    /** Lines 164-166: the queue without priorities. */
    method AppendEntry(e: Entry)
      requires Shaped() && count < capacity
      modifies this`count, this`tail, entries
      ensures Shaped() && Contents() == old(Contents()) + [e]
    {
      hide Contents;
      ghost var before := Contents();
      ContentsElements();
      entries[tail] := e;
      tail := Next(tail, capacity);
      count := count + 1;
      ContentsElements();
      assert forall k :: 0 <= k < count ==> Contents()[k] == (before + [e])[k];
    }

    /** dl_queue_dequeue */
    method DequeueEntry() returns (status: DlStatus, e: Option<Entry>)
      requires Valid()
      modifies this
      ensures Valid()
      ensures status == if old(count) == 0 then Error else Success
      ensures history == Step(old(history), Dequeue, capacity, enablePriority)
      ensures status.Success? ==> e.Some? && old(Contents()) == [e.value] + Contents()
      ensures status.Error? ==> e == None && Contents() == old(Contents())
    {
      hide Contents, Invariant;
      if count == 0 {
        return Error, None;
      }
      StepKeepsInvariant(history, Dequeue, capacity, enablePriority);
      ContentsElements();
      status, e := Success, Some(entries[head]);
      head := Next(head, capacity);
      count := count - 1;
      history := Step(history, Dequeue, capacity, enablePriority);
      ContentsElements();
    }

    /** dl_queue_peek */
    method PeekEntry() returns (status: DlStatus, e: Option<Entry>)
      requires Valid()
      ensures status == if count == 0 then Error else Success
      ensures e == if count == 0 then None else Some(Contents()[0])
      ensures history == Step(history, Peek, capacity, enablePriority)
    {
      if count == 0 {
        return Error, None;
      }
      return Success, Some(entries[head]);
    }

    /** dl_queue_flush */
    method FlushEntries()
      requires Valid()
      modifies this
      ensures Valid() && Contents() == []
      ensures history == Step(old(history), Flush, capacity, enablePriority)
    {
      StepKeepsInvariant(history, Flush, capacity, enablePriority);
      count, head, tail := 0, 0, 0;
      history := Step(history, Flush, capacity, enablePriority);
    }
  }
}
