/** coe_sdo_upload of src/al/coe.c: expedited, or segments with alternating toggles into the caller's buffer. */
module SdoUpload {
  import opened Wrappers
  import opened Endian
  import opened Coe
  import opened Copies
  import opened Mailboxes

  /** The largest capacity at which bytes_received + segment_size cannot wrap: 2^32 - 7. */
  const SAFE_CAPACITY := 0xFFFF_FFF9

  /** The arguments of the call; capacity is what *size holds on entry. */
  datatype Query = Query(index: nat, subindex: nat, capacity: u32)

  datatype Request = Initiate(index: nat, subindex: nat) | Segment(toggle: nat)

  datatype Phase = SendInitiate | AwaitInitiate | SendSegment | AwaitSegment | Finished(status: Status)

  /** What an accepted segment carried beside its bytes. */
  datatype Mark = Mark(toggle: nat, last: bool)

  datatype Master = Master(phase: Phase, received: u32, toggle: nat, copies: seq<Copy<Mark>>)

  function Start(q: Query): Master {
    Master(if q.capacity == 0 then Finished(InvalidParam) else SendInitiate, 0, 0, [])
  }

  function OnInitiateResponse(q: Query, m: Master, r: Message): Master {
    if !r.IsResponse(8) then m
    else if InitSpecifier(r.command) == ABORT then m.(phase := Finished(Abort))
    else if r.index != q.index || r.subindex != q.subindex then m
    else if InitExpedited(r.command) == 1 then OnExpedited(q, m, r.payload[..4 - InitUnused(r.command)])
    else if r.size > q.capacity then m.(phase := Finished(Error))
    else Master(SendSegment, 0, 0, [])
  }

  function OnExpedited(q: Query, m: Master, value: seq<byte>): Master
    requires |value| <= 4
  {
    if |value| > q.capacity then m.(phase := Finished(Error))
    else Master(Finished(Success), |value|, 0, [Copy(0, value, Mark(0, true))])
  }

  function OnSegmentResponse(q: Query, m: Master, r: Message): Master {
    if !r.IsResponse(8) then m
    else if SegmentSpecifier(r.command) == ABORT then m.(phase := Finished(Abort))
    else if SegmentToggle(r.command) != m.toggle then m.(phase := Finished(Error))
    else OnSegment(q, m, SegmentLast(r.command) == 1, r.payload[..7 - SegmentUnused(r.command)])
  }

  /** An expected segment: rejected if the 32-bit sum exceeds the capacity, else copied and the toggle bit flipped. */
  function OnSegment(q: Query, m: Master, last: bool, bytes: seq<byte>): Master
    requires |bytes| <= 7
  {
    var sum := (m.received + |bytes|) % WORD;
    if sum > q.capacity then m.(phase := Finished(Error))
    else Master(if !last && sum < q.capacity then SendSegment else Finished(Success), sum, 1 - m.toggle % 2,
                m.copies + [Copy(m.received, bytes, Mark(m.toggle, last))])
  }

  /** One step of the call: the new state and what was put into the mailbox. */
  function Step(q: Query, m: Master, e: Answer): (Master, seq<Request>) {
    match m.phase
    case SendInitiate =>
      if e.sendOk then (m.(phase := AwaitInitiate), [Initiate(q.index, q.subindex)]) else (m.(phase := Finished(Error)), [])
    case AwaitInitiate =>
      (match e.poll
       case TimedOut => m.(phase := Finished(Timeout))
       case Nothing => m
       case Arrived(r) => OnInitiateResponse(q, m, r), [])
    case SendSegment =>
      if e.sendOk then (m.(phase := AwaitSegment), [Segment(m.toggle)]) else (m.(phase := Finished(Error)), [])
    case AwaitSegment =>
      (match e.poll
       case TimedOut => m.(phase := Finished(Timeout))
       case Nothing => m
       case Arrived(r) => OnSegmentResponse(q, m, r), [])
    case Finished(_) => (m, [])
  }

  /** The call under a script of answers; it is still running if the script ends first. */
  function Run(q: Query, m: Master, script: seq<Answer>): (Master, seq<Request>)
    decreases |script|
  {
    if m.phase.Finished? || script == [] then (m, [])
    else
      var (m1, out1) := Step(q, m, script[0]);
      var (m2, out2) := Run(q, m1, script[1..]);
      (m2, out1 + out2)
  }

  // ---------- Any server: what success means ----------

  /** Toggles alternate from 0, and none but the final copy is marked last. */
  ghost predicate Alternating(copies: seq<Copy<Mark>>) {
    forall i :: 0 <= i < |copies| ==> copies[i].mark.toggle == i % 2 && (i + 1 < |copies| ==> !copies[i].mark.last)
  }

  ghost predicate Sound(q: Query, m: Master) {
    && EndToEnd(m.copies) && Inside(q.capacity, m.copies) && Alternating(m.copies)
    && m.received == |Joined(m.copies)| && m.received <= q.capacity
    && (m.phase.SendInitiate? || m.phase.AwaitInitiate? ==> m.copies == [] && 0 < q.capacity)
    && (m.phase.SendSegment? || m.phase.AwaitSegment? ==>
          && m.toggle == |m.copies| % 2 && m.received < q.capacity
          && forall i :: 0 <= i < |m.copies| ==> !m.copies[i].mark.last)
    && (m.phase == Finished(Success) ==>
          m.copies != [] && (m.copies[|m.copies| - 1].mark.last || m.received == q.capacity))
  }

  lemma AlternatingAppend(copies: seq<Copy<Mark>>, c: Copy<Mark>)
    requires Alternating(copies) && (forall i :: 0 <= i < |copies| ==> !copies[i].mark.last)
    requires c.mark.toggle == |copies| % 2
    ensures Alternating(copies + [c])
  {
  }

  /** Below the safe capacity the sum does not wrap. */
  lemma NoWrap(q: Query, received: u32, n: nat)
    requires received < q.capacity <= SAFE_CAPACITY && n <= 7
    ensures (received + n) % WORD == received + n
  {
  }

  /** A segment that fits is taken. */
  lemma SegmentFits(q: Query, m: Master, last: bool, bytes: seq<byte>)
    requires |bytes| <= 7 && m.received + |bytes| <= q.capacity
    ensures OnSegment(q, m, last, bytes) ==
      Master(if !last && m.received + |bytes| < q.capacity then SendSegment else Finished(Success), m.received + |bytes|,
             1 - m.toggle % 2, m.copies + [Copy(m.received, bytes, Mark(m.toggle, last))])
  {
  }

  /** A segment that passes the check and is copied inside the capacity has not wrapped the sum. */
  lemma SegmentInside(q: Query, m: Master, last: bool, bytes: seq<byte>)
    requires |bytes| <= 7 && (m.received + |bytes|) % WORD <= q.capacity
    requires Inside(q.capacity, OnSegment(q, m, last, bytes).copies)
    ensures m.received + |bytes| <= q.capacity
  {
    var c := Copy(m.received, bytes, Mark(m.toggle, last));
    assert OnSegment(q, m, last, bytes).copies[|m.copies|] == c;
  }

  lemma SegmentKeepsSound(q: Query, m: Master, last: bool, bytes: seq<byte>)
    requires Sound(q, m) && m.phase.AwaitSegment? && |bytes| <= 7
    requires Inside(q.capacity, OnSegment(q, m, last, bytes).copies)
    ensures Sound(q, OnSegment(q, m, last, bytes))
  {
    hide Joined, EndToEnd, Inside, Alternating;
    if (m.received + |bytes|) % WORD <= q.capacity {
      SegmentInside(q, m, last, bytes);
      SegmentFits(q, m, last, bytes);
      var c := Copy(m.received, bytes, Mark(m.toggle, last));
      AppendCopy(q.capacity, m.copies, c);
      AlternatingAppend(m.copies, c);
    }
  }

  lemma SegmentStaysInside(q: Query, m: Master, last: bool, bytes: seq<byte>)
    requires Sound(q, m) && m.phase.AwaitSegment? && |bytes| <= 7 && q.capacity <= SAFE_CAPACITY
    ensures Inside(q.capacity, OnSegment(q, m, last, bytes).copies)
  {
    hide Joined, EndToEnd, Alternating;
    NoWrap(q, m.received, |bytes|);
  }

  lemma ExpeditedKeepsSound(q: Query, m: Master, value: seq<byte>)
    requires Sound(q, m) && m.phase.AwaitInitiate? && |value| <= 4
    ensures Sound(q, OnExpedited(q, m, value))
  {
    hide Joined, EndToEnd, Inside, Alternating;
    var c := Copy(0, value, Mark(0, true));
    NoCopies(m.copies, q.capacity);
    assert [] + [c] == [c];
    if |value| <= q.capacity {
      AppendCopy(q.capacity, [], c);
      AlternatingAppend([], c);
    }
  }

  /** Up to the safe capacity no step copies past it. */
  lemma StepStaysInside(q: Query, m: Master, e: Answer)
    requires Sound(q, m) && q.capacity <= SAFE_CAPACITY
    ensures Inside(q.capacity, Step(q, m, e).0.copies)
  {
    hide Joined, EndToEnd, Alternating;
    if m.phase.AwaitSegment? && e.poll.Arrived? {
      hide OnSegment;
      var r := e.poll.message;
      SegmentStaysInside(q, m, SegmentLast(r.command) == 1, r.payload[..7 - SegmentUnused(r.command)]);
    }
  }

  lemma StepKeepsSound(q: Query, m: Master, e: Answer)
    requires Sound(q, m) && Inside(q.capacity, Step(q, m, e).0.copies)
    ensures Sound(q, Step(q, m, e).0)
  {
    hide Joined, EndToEnd, Inside, Alternating;
    EmptyIsSound(q);
    if m.phase.AwaitSegment? && e.poll.Arrived? {
      hide OnSegment;
      var r := e.poll.message;
      if r.IsResponse(8) && SegmentSpecifier(r.command) != ABORT && SegmentToggle(r.command) == m.toggle {
        SegmentKeepsSound(q, m, SegmentLast(r.command) == 1, r.payload[..7 - SegmentUnused(r.command)]);
      }
    } else if m.phase.AwaitInitiate? && e.poll.Arrived? {
      hide OnExpedited;
      var r := e.poll.message;
      ExpeditedKeepsSound(q, m, r.payload[..4 - InitUnused(r.command)]);
    }
  }

  lemma EmptyIsSound(q: Query)
    ensures |Joined<Mark>([])| == 0 && EndToEnd<Mark>([]) && Inside<Mark>(q.capacity, []) && Alternating([])
  {
  }

  /** The call has copied nothing before it reads segments. */
  predicate Begun(m: Master) {
    m.phase.SendInitiate? || m.phase.AwaitInitiate? ==> m.copies == []
  }

  lemma StepExtends(q: Query, m: Master, e: Answer)
    requires Begun(m)
    ensures Begun(Step(q, m, e).0) && m.copies <= Step(q, m, e).0.copies
  {
  }

  /** Copies are only added. */
  lemma {:induction false} RunExtends(q: Query, m: Master, script: seq<Answer>)
    requires Begun(m)
    ensures m.copies <= Run(q, m, script).0.copies
    decreases |script|
  {
    hide Step;
    if !m.phase.Finished? && script != [] {
      StepExtends(q, m, script[0]);
      RunExtends(q, Step(q, m, script[0]).0, script[1..]);
    }
  }

  lemma InsidePrefix(capacity: nat, copies: seq<Copy<Mark>>, longer: seq<Copy<Mark>>)
    requires copies <= longer && Inside(capacity, longer)
    ensures Inside(capacity, copies)
  {
    forall i | 0 <= i < |copies|
      ensures copies[i] == longer[i]
    {
    }
  }

  lemma {:induction false} RunKeepsSound(q: Query, m: Master, script: seq<Answer>)
    requires Sound(q, m) && Inside(q.capacity, Run(q, m, script).0.copies)
    ensures Sound(q, Run(q, m, script).0)
    decreases |script|
  {
    if !m.phase.Finished? && script != [] {
      var m' := Step(q, m, script[0]).0;
      StepExtends(q, m, script[0]);
      RunExtends(q, m', script[1..]);
      hide Step, Sound, Inside;
      InsidePrefix(q.capacity, m'.copies, Run(q, m', script[1..]).0.copies);
      StepKeepsSound(q, m, script[0]);
      RunKeepsSound(q, m', script[1..]);
    }
  }

  lemma {:induction false} RunStaysInside(q: Query, m: Master, script: seq<Answer>)
    requires Sound(q, m) && q.capacity <= SAFE_CAPACITY
    ensures Inside(q.capacity, Run(q, m, script).0.copies)
    decreases |script|
  {
    hide Step, Inside;
    if m.phase.Finished? || script == [] {
      assert Inside(q.capacity, m.copies);
    } else {
      StepStaysInside(q, m, script[0]);
      StepKeepsSound(q, m, script[0]);
      RunStaysInside(q, Step(q, m, script[0]).0, script[1..]);
    }
  }

  /** The call under this script makes no copy past the capacity. */
  ghost predicate Fits(q: Query, script: seq<Answer>) {
    Inside(q.capacity, Run(q, Start(q), script).0.copies)
  }

  /** Against any server: if no copy leaves the buffer, and below 2^32 - 6 none does, success means that the caller has the
      alternately toggled segments, end to end. */
  lemma SuccessMeansConcatenation(q: Query, script: seq<Answer>)
    ensures var m := Run(q, Start(q), script).0;
      && (q.capacity <= SAFE_CAPACITY ==> Fits(q, script))
      && (Fits(q, script) && m.phase == Finished(Success) ==>
            && EndToEnd(m.copies) && Alternating(m.copies) && m.received == |Joined(m.copies)|
            && m.copies != [] && (m.copies[|m.copies| - 1].mark.last || m.received == q.capacity))
  {
    if q.capacity <= SAFE_CAPACITY {
      RunStaysInside(q, Start(q), script);
    }
    if Fits(q, script) {
      RunKeepsSound(q, Start(q), script);
    }
  }

  // ---------- The exact capacity up to which no server makes the call write past the buffer ----------

  ghost predicate NeverPastCapacity(capacity: u32) {
    forall index: nat, subindex: nat, script: seq<Answer> ::
      Inside(capacity, Run(Query(index, subindex, capacity), Start(Query(index, subindex, capacity)), script).0.copies)
  }

  lemma {:induction false} RunAppend(q: Query, m: Master, first: seq<Answer>, second: seq<Answer>)
    ensures Run(q, m, first + second).0 == Run(q, Run(q, m, first).0, second).0
    decreases |first|
  {
    if first == [] {
      assert first + second == second;
    } else if !m.phase.Finished? {
      assert (first + second)[1..] == first[1..] + second;
      RunAppend(q, Step(q, m, first[0]).0, first[1..], second);
    }
  }

  /** A server's answer with n bytes of segment data, not the last. */
  function SegmentAnswer(toggle: nat, n: nat): Answer
    requires n <= 7
  {
    Event(true, Arrived(Message(true, 10, SDO_RESPONSE, SegmentCommandOf(toggle, 7 - n, false), 0, 0, 0, NO_BYTES)))
  }

  lemma TwoSteps(q: Query, m: Master, e1: Answer, e2: Answer)
    requires !m.phase.Finished? && !Step(q, m, e1).0.phase.Finished?
    ensures Run(q, m, [e1, e2]).0 == Step(q, Step(q, m, e1).0, e2).0
  {
    hide Step;
    var m1 := Step(q, m, e1).0;
    var m2 := Step(q, m1, e2).0;
    assert [e1, e2][1..] == [e2];
    assert Run(q, m1, [e2]).0 == Run(q, m2, []).0;
  }

  lemma AnswerTaken(q: Query, m: Master, n: nat)
    requires m.phase.SendSegment? && m.toggle <= 1 && n <= 7 && (m.received + n) % WORD <= q.capacity
    ensures var e := SegmentAnswer(m.toggle, n);
      && Step(q, m, e).0 == m.(phase := AwaitSegment)
      && Step(q, m.(phase := AwaitSegment), e).0 == OnSegment(q, m, false, NO_BYTES[..n])
  {
    SegmentCommandFields(m.toggle, 7 - n, false);
    hide SegmentCommandOf, SegmentToggle, SegmentUnused, SegmentLast, SegmentSpecifier, OnSegment;
    var m1 := m.(phase := AwaitSegment);
    var r := SegmentAnswer(m.toggle, n).poll.message;
    assert OnSegmentResponse(q, m1, r) == OnSegment(q, m1, false, r.payload[..n]);
    SameSegment(q, m, m1, NO_BYTES[..n]);
  }

  lemma SameSegment(q: Query, m: Master, m1: Master, bytes: seq<byte>)
    requires |bytes| <= 7 && m1 == m.(phase := AwaitSegment)
    ensures (m.received + |bytes|) % WORD <= q.capacity ==> OnSegment(q, m, false, bytes) == OnSegment(q, m1, false, bytes)
  {
  }

  lemma OneSegment(q: Query, m: Master, n: nat)
    requires m.phase.SendSegment? && m.toggle <= 1 && n <= 7 && (m.received + n) % WORD <= q.capacity
    ensures var m' := Run(q, m, [SegmentAnswer(m.toggle, n), SegmentAnswer(m.toggle, n)]).0;
      && m'.phase == (if (m.received + n) % WORD < q.capacity then SendSegment else Finished(Success))
      && m'.toggle == 1 - m.toggle && m'.received == (m.received + n) % WORD
      && |m'.copies| == |m.copies| + 1 && m'.copies[|m.copies|].at == m.received && |m'.copies[|m.copies|].bytes| == n
  {
    hide SegmentAnswer, Step, Run;
    var e := SegmentAnswer(m.toggle, n);
    AnswerTaken(q, m, n);
    TwoSteps(q, m, e, e);
  }

  lemma EmptyRun(q: Query, m: Master)
    ensures Run(q, m, []).0 == m
  {
  }

  lemma {:induction false} ManySegments(q: Query, m: Master, k: nat) returns (script: seq<Answer>)
    requires m.phase.SendSegment? && m.toggle <= 1 && m.received + 7 * k < q.capacity
    ensures var m' := Run(q, m, script).0;
      m'.phase.SendSegment? && m'.toggle <= 1 && m'.received == m.received + 7 * k
    decreases k
  {
    hide Run, SegmentAnswer;
    if k == 0 {
      assert Run(q, m, []).0 == m by {
        EmptyRun(q, m);
      }
      return [];
    }
    var e := SegmentAnswer(m.toggle, 7);
    OneSegment(q, m, 7);
    var m1 := Run(q, m, [e, e]).0;
    var rest := ManySegments(q, m1, k - 1);
    script := [e, e] + rest;
    RunAppend(q, m, [e, e], rest);
  }

  /** From 2^32 - 6 on: segments up to offset 2^32 - 7, then a full one whose end wraps to 0 and passes the check. */
  lemma WrapsPastCapacity(index: nat, subindex: nat, capacity: u32) returns (script: seq<Answer>)
    requires capacity > SAFE_CAPACITY
    ensures var q := Query(index, subindex, capacity); !Inside(capacity, Run(q, Start(q), script).0.copies)
  {
    var q := Query(index, subindex, capacity);
    hide Run, SegmentAnswer;
    var e0 := Event(true, Arrived(Message(true, 10, SDO_RESPONSE, 2, index, subindex, 0, NO_BYTES)));
    TwoSteps(q, Start(q), e0, e0);
    var m := Run(q, Start(q), [e0, e0]).0;
    assert m == Master(SendSegment, 0, 0, []);
    var full := ManySegments(q, m, 613566755);
    RunAppend(q, Start(q), [e0, e0], full);
    var x := Run(q, m, full).0;
    OneSegment(q, x, 4);
    var s4 := SegmentAnswer(x.toggle, 4);
    var y := Run(q, x, [s4, s4]).0;
    RunAppend(q, Start(q), [e0, e0] + full, [s4, s4]);
    OneSegment(q, y, 7);
    var s7 := SegmentAnswer(y.toggle, 7);
    var z := Run(q, y, [s7, s7]).0;
    RunAppend(q, Start(q), [e0, e0] + full + [s4, s4], [s7, s7]);
    script := [e0, e0] + full + [s4, s4] + [s7, s7];
    assert z.copies[|y.copies|].at + |z.copies[|y.copies|].bytes| > q.capacity;
  }

  /** The overflow check keeps every server inside the buffer exactly up to a capacity of 2^32 - 7. */
  lemma StaysInsideIff(capacity: u32)
    ensures NeverPastCapacity(capacity) <==> capacity <= SAFE_CAPACITY
  {
    if capacity <= SAFE_CAPACITY {
      forall index: nat, subindex: nat, script: seq<Answer>
        ensures Inside(capacity, Run(Query(index, subindex, capacity), Start(Query(index, subindex, capacity)), script).0.copies)
      {
        SuccessMeansConcatenation(Query(index, subindex, capacity), script);
      }
    } else {
      var script := WrapsPastCapacity(0, 0, capacity);
    }
  }

  // ---------- The call, in place ----------

  /** The buffer holds what state m has received, over what it held before. */
  ghost predicate Holds(q: Query, m: Master, before: seq<byte>, now: seq<byte>) {
    Sound(q, m) && q.capacity == |before| && now == Overlay(before, Joined(m.copies))
  }

  /** The call has run to the end of the script, or returned with this status and size; the buffer holds the copies. */
  ghost predicate EndsWith(q: Query, script: seq<Answer>, before: seq<byte>, now: seq<byte>, outbox: seq<Request>,
                           status: Option<Status>, size: u32) {
    var (m, out) := Run(q, Start(q), script);
    && outbox == out && status == (if m.phase.Finished? then Some(m.phase.status) else None)
    && size == (if status == Some(Success) then m.received else q.capacity)
    && Holds(q, m, before, now)
  }

  /** The call in state m with script rest ends where the whole call was going to end. */
  ghost predicate OnTrack(q: Query, script: seq<Answer>, m: Master, done: seq<Request>, rest: seq<Answer>) {
    && Run(q, Start(q), script).0 == Run(q, m, rest).0
    && Run(q, Start(q), script).1 == done + Run(q, m, rest).1
  }

  lemma Advance(q: Query, script: seq<Answer>, m: Master, done: seq<Request>, rest: seq<Answer>)
    requires OnTrack(q, script, m, done, rest) && rest != [] && !m.phase.Finished? && Begun(m) && Fits(q, script)
    ensures var (m', out) := Step(q, m, rest[0]);
      OnTrack(q, script, m', done + out, rest[1..]) && Begun(m') && Inside(q.capacity, m'.copies)
  {
    var (m', out) := Step(q, m, rest[0]);
    assert done + (out + Run(q, m', rest[1..]).1) == (done + out) + Run(q, m', rest[1..]).1;
    StepExtends(q, m, rest[0]);
    RunExtends(q, m', rest[1..]);
    hide Step, Inside;
    InsidePrefix(q.capacity, m'.copies, Run(q, m', rest[1..]).0.copies);
  }

  lemma Returned(q: Query, script: seq<Answer>, m: Master, before: seq<byte>, now: seq<byte>, done: seq<Request>, rest: seq<Answer>)
    requires OnTrack(q, script, m, done, rest) && (m.phase.Finished? || rest == []) && Holds(q, m, before, now)
    ensures EndsWith(q, script, before, now, done, if m.phase.Finished? then Some(m.phase.status) else None,
                     if m.phase == Finished(Success) then m.received else q.capacity)
  {
    assert done + [] == done;
  }

  /** How a receive loop ends: the call goes on, or it returns (or the script ends). */
  datatype Wait = Continue | Return(status: Option<Status>, size: u32)

  /** Lines 457-531: wait for the initiate response. */
  method AwaitInitiateResponse(q: Query, buffer: array<byte>, box: Mailbox<Poll, Request>, ghost script: seq<Answer>)
    returns (w: Wait)
    requires 0 < q.capacity == buffer.Length && Fits(q, script)
    requires OnTrack(q, script, Master(AwaitInitiate, 0, 0, []), box.outbox, box.script)
    modifies buffer, box
    ensures w.Continue? ==> buffer[..] == old(buffer[..]) && OnTrack(q, script, Master(SendSegment, 0, 0, []), box.outbox, box.script)
    ensures w.Return? ==> EndsWith(q, script, old(buffer[..]), buffer[..], box.outbox, w.status, w.size)
  {
    hide Run, OnTrack, EndsWith, Sound, Holds, Fits;
    ghost var before := buffer[..];
    ghost var m := Master(AwaitInitiate, 0, 0, []);
    NothingYet(q, m, before);
    while true
      invariant m == Master(AwaitInitiate, 0, 0, []) && OnTrack(q, script, m, box.outbox, box.script)
      invariant buffer[..] == before && Holds(q, m, before, buffer[..])
      decreases |box.script|
    {
      if box.script == [] {
        Returned(q, script, m, before, buffer[..], box.outbox, box.script);
        return Return(None, q.capacity);
      }
      Advance(q, script, m, box.outbox, box.script);
      m := Step(q, m, box.script[0]).0;
      var poll := box.Receive();
      assert box.outbox + [] == box.outbox;
      if poll.TimedOut? {
        NothingYet(q, m, before);
        Returned(q, script, m, before, buffer[..], box.outbox, box.script);
        return Return(Some(Timeout), q.capacity);
      }
      if poll.Arrived? && poll.message.IsResponse(8) {
        var r := poll.message;
        if InitSpecifier(r.command) == ABORT {
          NothingYet(q, m, before);
          Returned(q, script, m, before, buffer[..], box.outbox, box.script);
          return Return(Some(Abort), q.capacity);
        }
        if r.index == q.index && r.subindex == q.subindex {
          if InitExpedited(r.command) == 1 {
            var size := 4 - InitUnused(r.command);
            if size > q.capacity {
              NothingYet(q, m, before);
              Returned(q, script, m, before, buffer[..], box.outbox, box.script);
              return Return(Some(Error), q.capacity);
            }
            CopyInto(buffer, 0, r.payload[..size]);
            ExpeditedHolds(q, m, before, r.payload[..size]);
            Returned(q, script, m, before, buffer[..], box.outbox, box.script);
            return Return(Some(Success), size);
          }
          if r.size > q.capacity {
            NothingYet(q, m, before);
            Returned(q, script, m, before, buffer[..], box.outbox, box.script);
            return Return(Some(Error), q.capacity);
          }
          return Continue;
        }
      }
    }
  }

  /** Before anything is copied the buffer is as it was. */
  lemma NothingYet(q: Query, m: Master, before: seq<byte>)
    requires |before| == q.capacity > 0 && m.copies == [] && m.received == 0 && m.toggle == 0 && m.phase != Finished(Success)
    ensures Holds(q, m, before, before)
  {
    assert Joined(m.copies) == [];
  }

  lemma ExpeditedHolds(q: Query, m: Master, before: seq<byte>, value: seq<byte>)
    requires |value| <= 4 && |value| <= q.capacity == |before| && 0 < q.capacity
    requires m == Master(Finished(Success), |value|, 0, [Copy(0, value, Mark(0, true))])
    ensures Holds(q, m, before, Splice(before, 0, value))
  {
    var m0 := Master(AwaitInitiate, 0, 0, []);
    NothingYet(q, m0, before);
    ExpeditedKeepsSound(q, m0, value);
    var c := Copy(0, value, Mark(0, true));
    JoinedAppend([], c);
    hide Joined, Sound;
    assert [] + [c] == m.copies;
    OverlayExtends(before, [], value);
    assert Overlay(before, []) == before;
    assert Joined<Mark>([]) == [] by {
      EmptyIsSound(q);
    }
    assert [] + value == value;
  }

  /** Lines 573-642: wait for one segment and copy it. */
  method AwaitSegmentResponse(q: Query, box: Mailbox<Poll, Request>, ghost m: Master, received: u32, toggle: nat,
                              ghost before: seq<byte>, buffer: array<byte>, ghost script: seq<Answer>)
    returns (w: Wait, last: bool, bytes: seq<byte>, ghost next: Master)
    requires q.capacity == buffer.Length && Fits(q, script) && toggle <= 1
    requires m.phase.AwaitSegment? && m.received == received && m.toggle == toggle
    requires Holds(q, m, before, buffer[..]) && OnTrack(q, script, m, box.outbox, box.script)
    modifies buffer, box
    ensures |bytes| <= 7 && |box.script| <= |old(box.script)|
    ensures w.Continue? ==> && next == OnSegment(q, m, last, bytes) && received + |bytes| <= q.capacity
                            && Holds(q, next, before, buffer[..]) && OnTrack(q, script, next, box.outbox, box.script)
    ensures w.Return? ==> EndsWith(q, script, before, buffer[..], box.outbox, w.status, w.size)
  {
    hide Run, OnTrack, EndsWith, Sound, Holds, Fits;
    next, last, bytes := m, false, [];
    while true
      invariant next == m && OnTrack(q, script, m, box.outbox, box.script) && bytes == []
      invariant |box.script| <= |old(box.script)|
      invariant Holds(q, m, before, buffer[..])
      decreases |box.script|
    {
      if box.script == [] {
        Returned(q, script, m, before, buffer[..], box.outbox, box.script);
        w := Return(None, q.capacity);
        return;
      }
      Advance(q, script, m, box.outbox, box.script);
      next := Step(q, m, box.script[0]).0;
      var poll := box.Receive();
      assert box.outbox + [] == box.outbox;
      if poll.TimedOut? {
        StillHolds(q, m, next, before, buffer[..]);
        Returned(q, script, next, before, buffer[..], box.outbox, box.script);
        w := Return(Some(Timeout), q.capacity);
        return;
      }
      if poll.Arrived? && poll.message.IsResponse(8) {
        var r := poll.message;
        if SegmentSpecifier(r.command) == ABORT {
          StillHolds(q, m, next, before, buffer[..]);
          Returned(q, script, next, before, buffer[..], box.outbox, box.script);
          w := Return(Some(Abort), q.capacity);
          return;
        }
        if SegmentToggle(r.command) != toggle {
          StillHolds(q, m, next, before, buffer[..]);
          Returned(q, script, next, before, buffer[..], box.outbox, box.script);
          w := Return(Some(Error), q.capacity);
          return;
        }
        var size := 7 - SegmentUnused(r.command);
        if (received + size) % WORD > q.capacity {
          StillHolds(q, m, next, before, buffer[..]);
          Returned(q, script, next, before, buffer[..], box.outbox, box.script);
          w := Return(Some(Error), q.capacity);
          return;
        }
        last, bytes := SegmentLast(r.command) == 1, r.payload[..size];
        SegmentHolds(q, m, before, buffer[..], last, bytes);
        CopyInto(buffer, received, bytes);
        return Continue, last, bytes, next;
      }
    }
  }

  lemma SentHolds(q: Query, m: Master, before: seq<byte>, now: seq<byte>)
    requires Holds(q, m, before, now) && m.phase.SendSegment?
    ensures Holds(q, m.(phase := AwaitSegment), before, now) && Holds(q, m.(phase := Finished(Error)), before, now)
  {
  }

  /** A return with an error leaves the copies made so far. */
  lemma StillHolds(q: Query, m: Master, next: Master, before: seq<byte>, now: seq<byte>)
    requires Holds(q, m, before, now) && next.copies == m.copies && next.received == m.received
    requires next.phase.Finished? && next.phase != Finished(Success)
    ensures Holds(q, next, before, now)
  {
  }

  lemma SegmentHolds(q: Query, m: Master, before: seq<byte>, now: seq<byte>, last: bool, bytes: seq<byte>)
    requires Holds(q, m, before, now) && m.phase.AwaitSegment? && |bytes| <= 7
    requires (m.received + |bytes|) % WORD <= q.capacity && Inside(q.capacity, OnSegment(q, m, last, bytes).copies)
    ensures |now| == q.capacity && m.received + |bytes| <= q.capacity
    ensures Holds(q, OnSegment(q, m, last, bytes), before, Splice(now, m.received, bytes))
  {
    SegmentKeepsSound(q, m, last, bytes);
    SegmentInside(q, m, last, bytes);
    SegmentFits(q, m, last, bytes);
    assert m.received == |Joined(m.copies)|;
    hide OnSegment, Sound, Joined;
    JoinedAppend(m.copies, Copy(m.received, bytes, Mark(m.toggle, last)));
    OverlayExtends(before, Joined(m.copies), bytes);
  }

  /** coe_sdo_upload, on scripts whose copies all lie in the buffer; the others have no defined outcome. No status means
      that the script ended before the call returned. */
  method Upload(q: Query, buffer: array<byte>, box: Mailbox<Poll, Request>) returns (status: Option<Status>, size: u32)
    requires buffer.Length == q.capacity && Fits(q, box.script) && box.outbox == []
    modifies buffer, box
    ensures EndsWith(q, old(box.script), old(buffer[..]), buffer[..], box.outbox, status, size)
  {
    ghost var script, before := box.script, buffer[..];
    if q.capacity == 0 {
      assert Joined<Mark>([]) == [];
      return Some(InvalidParam), q.capacity;
    }
    ghost var m := Start(q);
    NothingYet(q, m, before);
    if box.script == [] {
      return None, q.capacity;
    }
    Advance(q, script, m, [], box.script);
    m := Step(q, m, box.script[0]).0;
    NothingYet(q, m, before);
    var ok := box.Send(Initiate(q.index, q.subindex));
    if !ok {
      Returned(q, script, m, before, buffer[..], box.outbox, box.script);
      return Some(Error), q.capacity;
    }
    var w := AwaitInitiateResponse(q, buffer, box, script);
    if w.Return? {
      return w.status, w.size;
    }
    status, size := ReceiveSegments(q, buffer, box, script);
  }

  /** Lines 533-650: request one segment after the other until one is marked last or the buffer is full. */
  method ReceiveSegments(q: Query, buffer: array<byte>, box: Mailbox<Poll, Request>, ghost script: seq<Answer>)
    returns (status: Option<Status>, size: u32)
    requires 0 < q.capacity == buffer.Length && Fits(q, script)
    requires OnTrack(q, script, Master(SendSegment, 0, 0, []), box.outbox, box.script)
    modifies buffer, box
    ensures EndsWith(q, script, old(buffer[..]), buffer[..], box.outbox, status, size)
  {
    hide Run, OnTrack, EndsWith, Sound, Holds, Fits;
    ghost var before := buffer[..];
    var received: u32, toggle, last := 0, 0, false;
    ghost var m := Master(SendSegment, 0, 0, []);
    NothingYet(q, m, before);
    while !last && received < q.capacity
      invariant OnTrack(q, script, m, box.outbox, box.script) && Holds(q, m, before, buffer[..])
      invariant m.received == received && m.toggle == toggle && (toggle == 0 || toggle == 1)
      invariant m.phase == if !last && received < q.capacity then SendSegment else Finished(Success)
      decreases |box.script|
    {
      if box.script == [] {
        Returned(q, script, m, before, buffer[..], box.outbox, box.script);
        return None, q.capacity;
      }
      Advance(q, script, m, box.outbox, box.script);
      SentHolds(q, m, before, buffer[..]);
      m := Step(q, m, box.script[0]).0;
      var ok := box.Send(Segment(toggle));
      assert box.outbox + [] == box.outbox;
      if !ok {
        Returned(q, script, m, before, buffer[..], box.outbox, box.script);
        return Some(Error), q.capacity;
      }
      var w, final, bytes;
      w, final, bytes, m := AwaitSegmentResponse(q, box, m, received, toggle, before, buffer, script);
      if w.Return? {
        return w.status, w.size;
      }
      received, last := received + |bytes|, final;
      toggle := 1 - toggle;
    }
    Returned(q, script, m, before, buffer[..], box.outbox, box.script);
    status, size := Some(Success), received;
  }
}
