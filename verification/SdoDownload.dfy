/** coe_sdo_download of src/al/coe.c: expedited up to four bytes, else initiate and alternating segments. */
module SdoDownload {
  import opened Wrappers
  import opened Endian
  import opened Coe
  import opened Mailboxes

  /** The arguments of the call. */
  datatype Job = Job(index: nat, subindex: nat, data: seq<byte>)

  datatype Request =
    | Initiate(index: nat, subindex: nat, expedited: bool, unused: nat, size: nat, value: seq<byte>)
    | Segment(toggle: nat, unused: nat, last: bool, bytes: seq<byte>)

  datatype Phase = SendInitiate | AwaitInitiate | SendSegment | AwaitSegment | Finished(status: Status)

  datatype Master = Master(phase: Phase, sent: nat, toggle: nat)

  function Padded(data: seq<byte>, n: nat): seq<byte>
    requires |data| <= n
  {
    data + seq(n - |data|, _ => 0)
  }

  function InitiateRequest(job: Job): Request {
    if |job.data| <= 4 then Initiate(job.index, job.subindex, true, (4 - |job.data|) % 4, 0, Padded(job.data, 4))
    else Initiate(job.index, job.subindex, false, 0, |job.data|, [])
  }

  /** The segment for the bytes from sent on. */
  function SegmentRequest(job: Job, sent: nat, toggle: nat): Request
    requires sent < |job.data|
  {
    var size := if |job.data| - sent > 7 then 7 else |job.data| - sent;
    Segment(toggle, 7 - size, sent + size >= |job.data|, job.data[sent..sent + size])
  }

  function Start(job: Job): Master {
    if |job.data| == 0 then Master(Finished(InvalidParam), 0, 0) else Master(SendInitiate, 0, 0)
  }

  predicate Sound(job: Job, m: Master) {
    (m.phase.SendSegment? || m.phase.AwaitSegment? ==> m.sent < |job.data|)
  }

  function OnInitiateResponse(job: Job, m: Master, r: Message): Master {
    if !r.IsResponse(4) then m
    else if InitSpecifier(r.command) == ABORT then m.(phase := Finished(Abort))
    else if r.index != job.index || r.subindex != job.subindex then m
    else if |job.data| <= 4 then m.(phase := Finished(Success))
    else Master(SendSegment, 0, 0)
  }

  function OnSegmentResponse(job: Job, m: Master, r: Message): Master
    requires m.sent < |job.data|
  {
    if !r.IsResponse(1) then m
    else if SegmentSpecifier(r.command) == ABORT then m.(phase := Finished(Abort))
    else if SegmentToggle(r.command) != m.toggle then m.(phase := Finished(Error))
    else AfterSegment(job, m.sent, m.toggle)
  }

  /** The acknowledged segment counts as sent, and the toggle bit flips. */
  function AfterSegment(job: Job, sent: nat, toggle: nat): Master
    requires sent < |job.data|
  {
    var size := if |job.data| - sent > 7 then 7 else |job.data| - sent;
    Master(if sent + size < |job.data| then SendSegment else Finished(Success), sent + size, 1 - toggle % 2)
  }

  /** One step of the call: the new state and what was put into the mailbox. */
  function Step(job: Job, m: Master, e: Answer): (r: (Master, seq<Request>))
    requires Sound(job, m)
    ensures Sound(job, r.0)
  {
    match m.phase
    case SendInitiate =>
      if e.sendOk then (m.(phase := AwaitInitiate), [InitiateRequest(job)])
      else (m.(phase := Finished(if |job.data| <= 4 then Error else MailboxStatus)), [])
    case AwaitInitiate =>
      (match e.poll
       case TimedOut => m.(phase := Finished(Timeout))
       case Nothing => m
       case Arrived(r) => OnInitiateResponse(job, m, r), [])
    case SendSegment =>
      if e.sendOk then (m.(phase := AwaitSegment), [SegmentRequest(job, m.sent, m.toggle)])
      else (m.(phase := Finished(Error)), [])
    case AwaitSegment =>
      (match e.poll
       case TimedOut => m.(phase := Finished(Timeout))
       case Nothing => m
       case Arrived(r) => OnSegmentResponse(job, m, r), [])
    case Finished(_) => (m, [])
  }

  /** The call under a script of events; it returns when it is finished and is still running when the script ends. */
  function Run(job: Job, m: Master, events: seq<Answer>): (r: (Master, seq<Request>))
    requires Sound(job, m)
    ensures Sound(job, r.0)
    decreases |events|
  {
    if m.phase.Finished? || events == [] then (m, [])
    else
      var (m1, out1) := Step(job, m, events[0]);
      var (m2, out2) := Run(job, m1, events[1..]);
      (m2, out1 + out2)
  }

  /** The call has run to the end of the script, or returned with this status. */
  ghost predicate EndsWith(job: Job, script: seq<Answer>, outbox: seq<Request>, status: Option<Status>) {
    var (m, out) := Run(job, Start(job), script);
    outbox == out && status == if m.phase.Finished? then Some(m.phase.status) else None
  }

  /** The call in state m with script rest ends where the whole call was going to end. */
  ghost predicate OnTrack(job: Job, script: seq<Answer>, m: Master, done: seq<Request>, rest: seq<Answer>) {
    Sound(job, Start(job)) && Sound(job, m)
    && Run(job, Start(job), script).0 == Run(job, m, rest).0
    && Run(job, Start(job), script).1 == done + Run(job, m, rest).1
  }

  lemma Advance(job: Job, script: seq<Answer>, m: Master, done: seq<Request>, rest: seq<Answer>)
    requires OnTrack(job, script, m, done, rest) && rest != [] && !m.phase.Finished?
    ensures var (m', out) := Step(job, m, rest[0]); OnTrack(job, script, m', done + out, rest[1..])
  {
    var (m', out) := Step(job, m, rest[0]);
    assert done + (out + Run(job, m', rest[1..]).1) == (done + out) + Run(job, m', rest[1..]).1;
  }

  lemma Returned(job: Job, script: seq<Answer>, m: Master, done: seq<Request>, rest: seq<Answer>)
    requires OnTrack(job, script, m, done, rest) && (m.phase.Finished? || rest == [])
    ensures EndsWith(job, script, done, if m.phase.Finished? then Some(m.phase.status) else None)
  {
    assert done + [] == done;
  }

  /** How a receive loop ends: with the expected response, or with the call returning (or the script ending). */
  datatype Wait = Continue | Return(status: Option<Status>)

  /** Lines 126-178, and 340-393 for an expedited transfer: wait for the initiate response. */
  method AwaitInitiateResponse(job: Job, box: Mailbox<Poll, Request>, ghost script: seq<Answer>) returns (w: Wait)
    requires OnTrack(job, script, Master(AwaitInitiate, 0, 0), box.outbox, box.script)
    modifies box
    ensures w.Continue? ==> |job.data| > 4 && OnTrack(job, script, Master(SendSegment, 0, 0), box.outbox, box.script)
    ensures w.Return? ==> EndsWith(job, script, box.outbox, w.status)
  {
    hide Run;
    ghost var m := Master(AwaitInitiate, 0, 0);
    while true
      invariant m == Master(AwaitInitiate, 0, 0) && OnTrack(job, script, m, box.outbox, box.script)
      decreases |box.script|
    {
      if box.script == [] {
        Returned(job, script, m, box.outbox, box.script);
        return Return(None);
      }
      Advance(job, script, m, box.outbox, box.script);
      m := Step(job, m, box.script[0]).0;
      var poll := box.Receive();
      assert box.outbox + [] == box.outbox;
      if poll.TimedOut? {
        Returned(job, script, m, box.outbox, box.script);
        return Return(Some(Timeout));
      }
      if poll.Arrived? && poll.message.IsResponse(4) {
        if InitSpecifier(poll.message.command) == ABORT {
          Returned(job, script, m, box.outbox, box.script);
          return Return(Some(Abort));
        }
        if poll.message.index == job.index && poll.message.subindex == job.subindex {
          if |job.data| <= 4 {
            Returned(job, script, m, box.outbox, box.script);
            return Return(Some(Success));
          }
          return Continue;
        }
      }
    }
  }

  /** Lines 216-271: wait for the acknowledgement of one segment. */
  method AwaitSegmentResponse(job: Job, box: Mailbox<Poll, Request>, sent: nat, toggle: nat, ghost next: Master, ghost script: seq<Answer>)
    returns (w: Wait)
    requires sent < |job.data| && toggle <= 1
    requires OnTrack(job, script, Master(AwaitSegment, sent, toggle), box.outbox, box.script)
    requires next == AfterSegment(job, sent, toggle)
    modifies box
    ensures w.Continue? ==> OnTrack(job, script, next, box.outbox, box.script)
    ensures w.Return? ==> EndsWith(job, script, box.outbox, w.status)
  {
    hide Run;
    ghost var m := Master(AwaitSegment, sent, toggle);
    while true
      invariant m == Master(AwaitSegment, sent, toggle) && OnTrack(job, script, m, box.outbox, box.script)
      decreases |box.script|
    {
      if box.script == [] {
        Returned(job, script, m, box.outbox, box.script);
        return Return(None);
      }
      Advance(job, script, m, box.outbox, box.script);
      m := Step(job, m, box.script[0]).0;
      var poll := box.Receive();
      assert box.outbox + [] == box.outbox;
      if poll.TimedOut? {
        Returned(job, script, m, box.outbox, box.script);
        return Return(Some(Timeout));
      }
      if poll.Arrived? && poll.message.IsResponse(1) {
        if SegmentSpecifier(poll.message.command) == ABORT {
          Returned(job, script, m, box.outbox, box.script);
          return Return(Some(Abort));
        }
        if SegmentToggle(poll.message.command) != toggle {
          Returned(job, script, m, box.outbox, box.script);
          return Return(Some(Error));
        }
        return Continue;
      }
    }
  }

  /** coe_sdo_download. No status means that the script ended before the call returned. */
  method Download(job: Job, box: Mailbox<Poll, Request>) returns (status: Option<Status>)
    requires box.outbox == []
    modifies box
    ensures EndsWith(job, old(box.script), box.outbox, status)
  {
    ghost var script := box.script;
    if |job.data| == 0 {
      return Some(InvalidParam);
    }
    ghost var m := Start(job);
    if box.script == [] {
      return None;
    }
    Advance(job, script, m, [], box.script);
    m := Step(job, m, box.script[0]).0;
    var ok := box.Send(InitiateRequest(job));
    if !ok {
      Returned(job, script, m, box.outbox, box.script);
      return Some(if |job.data| <= 4 then Error else MailboxStatus);
    }
    var w := AwaitInitiateResponse(job, box, script);
    if w.Return? {
      return w.status;
    }
    status := SendSegments(job, box, script);
  }

  /** Lines 181-278: one segment after the other, each acknowledged. */
  method SendSegments(job: Job, box: Mailbox<Poll, Request>, ghost script: seq<Answer>) returns (status: Option<Status>)
    requires |job.data| > 4 && OnTrack(job, script, Master(SendSegment, 0, 0), box.outbox, box.script)
    modifies box
    ensures EndsWith(job, script, box.outbox, status)
  {
    hide Run, OnTrack, EndsWith;
    var sent, toggle := 0, 0;
    ghost var m := Master(SendSegment, 0, 0);
    while sent < |job.data|
      invariant sent <= |job.data| && (toggle == 0 || toggle == 1)
      invariant OnTrack(job, script, m, box.outbox, box.script)
      invariant m == Master(if sent < |job.data| then SendSegment else Finished(Success), sent, toggle)
    {
      var size := if |job.data| - sent > 7 then 7 else |job.data| - sent;
      if box.script == [] {
        Returned(job, script, m, box.outbox, box.script);
        return None;
      }
      Advance(job, script, m, box.outbox, box.script);
      m := Step(job, m, box.script[0]).0;
      var last := sent + size >= |job.data|;
      var ok := box.Send(Segment(toggle, 7 - size, last, job.data[sent..sent + size]));
      assert box.outbox + [] == box.outbox;
      if !ok {
        Returned(job, script, m, box.outbox, box.script);
        return Some(Error);
      }
      m := AfterSegment(job, sent, toggle);
      var w := AwaitSegmentResponse(job, box, sent, toggle, m, script);
      if w.Return? {
        return w.status;
      }
      sent := sent + size;
      toggle := 1 - toggle;
    }
    Returned(job, script, m, box.outbox, box.script);
    status := Some(Success);
  }
}
