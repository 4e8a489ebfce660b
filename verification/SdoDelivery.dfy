/**
 An SDO download over a mailbox that keeps order but may lose or duplicate any message, with a server that starts over
 on an initiate request, appends a segment only when its toggle bit is the expected one, and may refuse any request.
 */
module SdoDelivery {
  import opened Endian
  import opened Channels
  import opened Coe
  import opened Mailboxes
  import opened SdoDownload

  // ---------- The server ----------

  datatype Received = Received(toggle: nat, last: bool, bytes: seq<byte>)

  /** announced: the size that the last initiate request of a segmented download showed. */
  datatype Server = Server(open: bool, toggle: nat, log: seq<Received>, stored: seq<byte>, complete: bool, announced: nat)

  function InitiateResponse(index: nat, subindex: nat): Message {
    Message(true, 6, SDO_RESPONSE, 3, index, subindex, 0, NO_BYTES)
  }

  /** Download segment response: specifier 1 in the top three bits, toggle in the lowest. */
  function SegmentResponse(toggle: nat): Message {
    Message(true, 3, SDO_RESPONSE, 32 + toggle % 2, 0, 0, 0, NO_BYTES)
  }

  function AbortResponse(): Message {
    Message(true, 10, SDO_RESPONSE, 0x80, 0, 0, 0x0503_0000, NO_BYTES)
  }

  function Serve(s: Server, r: Request): (Server, Message) {
    match r
    case Initiate(index, subindex, expedited, unused, size, value) =>
      var begun := if expedited && unused <= |value| then Server(false, 0, [], value[..|value| - unused], true, s.announced)
                    else Server(true, 0, [], [], false, size);
      (begun, InitiateResponse(index, subindex))
    case Segment(toggle, unused, last, bytes) =>
      if s.open && toggle == s.toggle then
        (Server(!last, 1 - toggle % 2, s.log + [Received(toggle, last, bytes)], s.stored + bytes, last, s.announced),
         SegmentResponse(toggle))
      else (s, AbortResponse())
  }

  /** How the server refuses a request: the command byte of the abort, the object that it names, and whether it refuses
      segments too or only initiate requests. */
  datatype Refusal = Refusal(command: nat, index: nat, subindex: nat, segments: bool)

  function RefusalResponse(f: Refusal): Message {
    Message(true, 10, SDO_RESPONSE, f.command, f.index, f.subindex, 0, NO_BYTES)
  }

  /** What the server decides about a request that it takes up; a refusal may end the transfer that is open. */
  datatype Verdict = Serves | Refuses | RefusesAndCloses

  function Respond(s: Server, r: Request, f: Refusal, v: Verdict): (Server, Message) {
    if v.Serves? || (r.Segment? && !f.segments) then Serve(s, r)
    else (if v.Refuses? then s else s.(open := false), RefusalResponse(f))
  }

  // ---------- The system ----------

  datatype System = System(master: Master, requests: seq<Request>, responses: seq<Message>, server: Server, refusal: Refusal)

  datatype Action =
    | MasterStep(sendOk: bool, timedOut: bool)  // an empty poll when there is nothing to send
    | MasterReceive
    | Deliver(reply: bool, verdict: Verdict)
    | LoseRequest(at: nat)
    | LoseResponse(at: nat)
    | DuplicateRequest(at: nat)
    | DuplicateResponse(at: nat)
    | Unrelated(message: Message)

  predicate IsAwaiting(m: Master) {
    m.phase.AwaitInitiate? || m.phase.AwaitSegment?
  }

  predicate Enabled(y: System, a: Action) {
    match a
    case MasterStep(_, _) => true
    case MasterReceive => IsAwaiting(y.master) && y.responses != []
    case Deliver(_, _) => y.requests != []
    case LoseRequest(at) => at < |y.requests|
    case LoseResponse(at) => at < |y.responses|
    case DuplicateRequest(at) => at < |y.requests|
    case DuplicateResponse(at) => at < |y.responses|
    case Unrelated(m) => !m.IsResponse(1)
  }

  function Next(job: Job, y: System, a: Action): System
    requires Sound(job, y.master) && Enabled(y, a)
  {
    match a
    case MasterStep(sendOk, timedOut) =>
      var (m, out) := Step(job, y.master, Event(sendOk, if timedOut then TimedOut else Nothing));
      y.(master := m, requests := y.requests + out)
    case MasterReceive =>
      var (m, out) := Step(job, y.master, Event(true, Arrived(y.responses[0])));
      y.(master := m, requests := y.requests + out, responses := y.responses[1..])
    case Deliver(reply, verdict) =>
      var (s, r) := Respond(y.server, y.requests[0], y.refusal, verdict);
      y.(requests := y.requests[1..], server := s, responses := if reply then y.responses + [r] else y.responses)
    case LoseRequest(at) => y.(requests := Without(y.requests, at))
    case LoseResponse(at) => y.(responses := Without(y.responses, at))
    case DuplicateRequest(at) => y.(requests := Twice(y.requests, at))
    case DuplicateResponse(at) => y.(responses := Twice(y.responses, at))
    case Unrelated(m) => y.(responses := y.responses + [m])
  }

  function Initial(job: Job, server: Server, refusal: Refusal): System {
    System(Start(job), [], [], server, refusal)
  }

  /** y is reachable by the actions, each enabled when it is taken. */
  ghost predicate Reaches(job: Job, x: System, actions: seq<Action>, y: System)
    decreases |actions|
  {
    if actions == [] then x == y
    else Sound(job, x.master) && Enabled(x, actions[0]) && Reaches(job, Next(job, x, actions[0]), actions[1..], y)
  }

  // ---------- What the server should hold ----------

  function ExpectedSegment(data: seq<byte>, k: nat): Received
    requires 7 * k < |data|
  {
    Received(k % 2, k + 1 == SegmentCount(|data|), SegmentBytes(data, k))
  }

  function ExpectedLog(data: seq<byte>, n: nat): (log: seq<Received>)
    requires n <= SegmentCount(|data|)
    ensures |log| == n
  {
    seq(n, k requires 0 <= k < n => ExpectedSegment(data, k))
  }

  /** The k-th segment request of the job. */
  function KthRequest(job: Job, k: nat): Request
    requires 7 * k < |job.data|
  {
    SegmentRequest(job, 7 * k, k % 2)
  }

  ghost predicate ServerAt(job: Job, s: Server, n: nat) {
    && n <= SegmentCount(|job.data|) && s.announced == |job.data|
    && s.log == ExpectedLog(job.data, n)
    && s.stored == job.data[..if 7 * n < |job.data| then 7 * n else |job.data|]
    && (s.open <==> n < SegmentCount(|job.data|))
    && (s.complete <==> n == SegmentCount(|job.data|))
    && (s.open ==> s.toggle == n % 2)
  }

  // ---------- The invariant ----------

  ghost predicate IsAck(r: Message, toggle: nat) {
    r.IsResponse(1) && SegmentSpecifier(r.command) != ABORT && SegmentToggle(r.command) == toggle
  }

  /** No SDO response is under way. */
  ghost predicate Quiet(responses: seq<Message>) {
    forall i :: 0 <= i < |responses| ==> !responses[i].IsResponse(1)
  }

  /** The refusal reads as an abort of the initiate request, or as an answer about another object. Of more than four
      bytes it also reads as an abort of a segment, or else as an acknowledgement with toggle 1, and then no refused
      segment may be the last one. */
  predicate SafeRefusal(job: Job, f: Refusal) {
    && (InitSpecifier(f.command) == ABORT || f.index != job.index || f.subindex != job.subindex)
    && (|job.data| > 4 ==>
          || SegmentSpecifier(f.command) == ABORT
          || (SegmentToggle(f.command) == 1 && (f.segments ==> SegmentCount(|job.data|) % 2 == 1)))
  }

  /** No transfer is open, and the last one has not been completed. */
  predicate Closed(s: Server) {
    !s.open && !s.complete
  }

  /** The only responses under way answer the initiate request. */
  ghost predicate OnlyInitiateResponses(job: Job, f: Refusal, responses: seq<Message>) {
    forall i :: 0 <= i < |responses| && responses[i].IsResponse(1) ==>
      responses[i] == InitiateResponse(job.index, job.subindex) || responses[i] == RefusalResponse(f)
  }

  /** The server has answered the initiate request: ready for segment 0, or done if the transfer was expedited. */
  ghost predicate Initiated(job: Job, s: Server) {
    if |job.data| <= 4 then s.complete && s.stored == job.data else ServerBefore(job, s, 0)
  }

  /** The server has taken the segments before k, or has closed the transfer. */
  ghost predicate ServerBefore(job: Job, s: Server, k: nat) {
    ServerAt(job, s, k) || Closed(s)
  }

  /** The server has taken segment k, and may have closed the transfer since. */
  ghost predicate ServerAfter(job: Job, s: Server, k: nat) {
    ServerAt(job, s, k + 1) || (Closed(s) && 7 * (k + 1) < |job.data|)
  }

  ghost predicate InitiateInvariant(job: Job, y: System) {
    && (forall i :: 0 <= i < |y.requests| ==> y.requests[i] == InitiateRequest(job))
    && OnlyInitiateResponses(job, y.refusal, y.responses)
    && (NoneAre(y.responses, InitiateResponse(job.index, job.subindex)) || Initiated(job, y.server))
  }

  /** The request before the one for segment k. */
  function OldRequest(job: Job, k: nat): Request
    requires 7 * k < |job.data|
  {
    if k == 0 then InitiateRequest(job) else KthRequest(job, k - 1)
  }

  /** Requests under way while segment k is current: copies of the one before, then copies of k. */
  ghost predicate RequestsOk(job: Job, requests: seq<Request>, k: nat)
    requires 7 * k < |job.data|
  {
    && (forall i :: 0 <= i < |requests| ==> requests[i] == KthRequest(job, k) || requests[i] == OldRequest(job, k))
    && (forall i, j :: 0 <= i < j < |requests| && requests[i] == KthRequest(job, k) ==> requests[j] == KthRequest(job, k))
  }

  /** A refusal that reads as an acknowledgement. */
  ghost predicate FalseAck(f: Refusal, r: Message) {
    r == RefusalResponse(f) && IsAck(r, 1)
  }

  ghost predicate TrueAck(f: Refusal, r: Message, toggle: nat) {
    r != RefusalResponse(f) && IsAck(r, toggle)
  }

  /** While segment k is current, acknowledgements of the old toggle precede those of k. When k is even a refusal may
      have come since, but none between two copies of an acknowledgement; when k is odd it reads as one of k. Initiate
      requests are refused only before segment 0 is taken. */
  ghost predicate ResponsesOk(f: Refusal, responses: seq<Message>, k: nat) {
    if k % 2 == 0 then
      && (forall i, j :: 0 <= i < j < |responses| && IsAck(responses[i], 0) ==> !TrueAck(f, responses[j], 1))
      && (forall i, j, l :: 0 <= i < j < l < |responses| && IsAck(responses[i], 0) && IsAck(responses[l], 0) ==>
            !FalseAck(f, responses[j]))
      && (!f.segments ==>
            forall i, j :: 0 <= i < j < |responses| && IsAck(responses[i], 0) ==> !FalseAck(f, responses[j]))
    else
      && (forall i, j :: 0 <= i < j < |responses| && IsAck(responses[i], 1) ==> !IsAck(responses[j], 0))
      && (!f.segments ==> forall i :: 0 <= i < |responses| ==> !FalseAck(f, responses[i]))
  }

  ghost predicate NoTrueAck(f: Refusal, responses: seq<Message>, toggle: nat) {
    forall i :: 0 <= i < |responses| ==> !TrueAck(f, responses[i], toggle)
  }

  ghost predicate UnderWay(job: Job, y: System, k: nat) {
    && |job.data| > 4 && 7 * k < |job.data|
    && RequestsOk(job, y.requests, k) && ResponsesOk(y.refusal, y.responses, k)
  }

  /** Segment k is current and not sent yet: the server holds k segments, and nothing about k is under way. */
  ghost predicate BeforeSend(job: Job, y: System, k: nat) {
    && UnderWay(job, y, k)
    && ServerBefore(job, y.server, k)
    && NoneAre(y.requests, KthRequest(job, k)) && NoTrueAck(y.refusal, y.responses, k % 2)
  }

  /** Segment k has been sent: the server has taken it, and then no older request is left, or it has not,
      and then no acknowledgement of it exists. */
  ghost predicate AfterSend(job: Job, y: System, k: nat) {
    && UnderWay(job, y, k)
    && (|| (ServerBefore(job, y.server, k) && NoTrueAck(y.refusal, y.responses, k % 2))
        || (ServerAfter(job, y.server, k) && NoneAre(y.requests, OldRequest(job, k))))
  }

  /** Requests when segment k - 1 is not taken but k is current, with toggle 0: older ones with toggle 0, then copies of
      k - 1, then of k if that has been sent. */
  ghost predicate LateRequests(job: Job, requests: seq<Request>, k: nat, sent: bool)
    requires 0 < k && 7 * k < |job.data|
  {
    && (forall i :: 0 <= i < |requests| ==>
          requests[i].Segment? && (requests[i].toggle == 0 || requests[i] == KthRequest(job, k - 1)))
    && (forall i, j :: 0 <= i < j < |requests| && requests[i].toggle == 1 && requests[j].toggle == 0 ==>
          sent && requests[j] == KthRequest(job, k))
    && (forall i, j, l :: 0 <= i < j < l < |requests| && requests[i].toggle == 1 && requests[j].toggle == 0 ==>
          requests[l].toggle == 0)
  }

  /** A refusal was taken for the acknowledgement of segment k - 1; the server has not taken that segment, or has closed
      the transfer, and no acknowledgement of k can come before it has. */
  ghost predicate Late(job: Job, y: System, k: nat, sent: bool) {
    && |job.data| > 4 && 0 < k && k % 2 == 0 && 7 * k < |job.data| && y.refusal.segments
    && LateRequests(job, y.requests, k, sent)
    && (forall i :: 0 <= i < |y.responses| ==> !IsAck(y.responses[i], 0))
    && (ServerAt(job, y.server, k - 1) || Closed(y.server))
  }

  /** After the last acknowledgement only copies of old segments can still be under way. */
  ghost predicate Delivered(job: Job, y: System) {
    if |job.data| <= 4 then
      && y.server.complete && y.server.stored == job.data
      && forall i :: 0 <= i < |y.requests| ==> y.requests[i] == InitiateRequest(job)
    else
      && ServerAt(job, y.server, SegmentCount(|job.data|))
      && forall i :: 0 <= i < |y.requests| ==> y.requests[i].Segment?
  }

  ghost predicate Invariant(job: Job, y: System) {
    && Sound(job, y.master) && SafeRefusal(job, y.refusal)
    && match y.master.phase
       case SendInitiate => |job.data| > 0 && y.requests == [] && Quiet(y.responses)
       case AwaitInitiate => |job.data| > 0 && InitiateInvariant(job, y)
       case SendSegment => y.master.sent % 7 == 0 && y.master.toggle == y.master.sent / 7 % 2
                           && (BeforeSend(job, y, y.master.sent / 7) || Late(job, y, y.master.sent / 7, false))
       case AwaitSegment => y.master.sent % 7 == 0 && y.master.toggle == y.master.sent / 7 % 2
                            && (AfterSend(job, y, y.master.sent / 7) || Late(job, y, y.master.sent / 7, true))
       case Finished(status) => status == Success ==> |job.data| > 0 && Delivered(job, y)
  }

  // ---------- Losing and duplicating keep what is under way in order ----------

  lemma RequestsDrawn(job: Job, from: seq<Request>, to: seq<Request>, f: seq<nat>, k: nat)
    requires 7 * k < |job.data| && RequestsOk(job, from, k) && Drawn(from, to, f)
    ensures RequestsOk(job, to, k)
  {
    forall i, j | 0 <= i < j < |to| && to[i] == KthRequest(job, k)
      ensures to[j] == KthRequest(job, k)
    {
      assert f[i] == f[j] || f[i] < f[j];
    }
  }

  lemma ResponsesDrawn(f: Refusal, from: seq<Message>, to: seq<Message>, g: seq<nat>, k: nat)
    requires ResponsesOk(f, from, k) && Drawn(from, to, g)
    ensures ResponsesOk(f, to, k)
    ensures forall t :: NoTrueAck(f, from, t) ==> NoTrueAck(f, to, t)
  {
    AcksDiffer(f);
    hide IsAck, RefusalResponse;
    if k % 2 == 0 {
      OrderDrawn(from, to, g, r => IsAck(r, 0), r => TrueAck(f, r, 1));
      BetweenDrawn(f, from, to, g);
      if !f.segments {
        OrderDrawn(from, to, g, r => IsAck(r, 0), r => FalseAck(f, r));
      }
    } else {
      OrderDrawn(from, to, g, r => IsAck(r, 1), r => IsAck(r, 0));
    }
  }

  lemma AcksDiffer(f: Refusal)
    ensures forall r: Message :: IsAck(r, 0) ==> !IsAck(r, 1) && !TrueAck(f, r, 1) && !FalseAck(f, r)
  {
  }

  /** That no q comes behind a p is kept when no message is both. */
  lemma OrderDrawn(from: seq<Message>, to: seq<Message>, g: seq<nat>, p: Message -> bool, q: Message -> bool)
    requires Drawn(from, to, g) && (forall r: Message :: !(p(r) && q(r)))
    requires forall i, j :: 0 <= i < j < |from| && p(from[i]) ==> !q(from[j])
    ensures forall i, j :: 0 <= i < j < |to| && p(to[i]) ==> !q(to[j])
  {
    forall i, j | 0 <= i < j < |to| && p(to[i])
      ensures !q(to[j])
    {
      assert g[i] == g[j] || g[i] < g[j];
    }
  }

  lemma BetweenDrawn(f: Refusal, from: seq<Message>, to: seq<Message>, g: seq<nat>)
    requires Drawn(from, to, g)
    requires forall i, j, l :: 0 <= i < j < l < |from| && IsAck(from[i], 0) && IsAck(from[l], 0) ==> !FalseAck(f, from[j])
    ensures forall i, j, l :: 0 <= i < j < l < |to| && IsAck(to[i], 0) && IsAck(to[l], 0) ==> !FalseAck(f, to[j])
  {
    AcksDiffer(f);
    hide IsAck, FalseAck;
    forall i, j, l | 0 <= i < j < l < |to| && IsAck(to[i], 0) && IsAck(to[l], 0)
      ensures !FalseAck(f, to[j])
    {
      assert g[i] <= g[j] <= g[l];
    }
  }

  lemma UnderWayDrawn(job: Job, y: System, k: nat, requests: seq<Request>, f: seq<nat>, responses: seq<Message>, g: seq<nat>)
    requires UnderWay(job, y, k) && Drawn(y.requests, requests, f) && Drawn(y.responses, responses, g)
    ensures UnderWay(job, y.(requests := requests, responses := responses), k)
    ensures forall t :: NoTrueAck(y.refusal, y.responses, t) ==> NoTrueAck(y.refusal, responses, t)
  {
    RequestsDrawn(job, y.requests, requests, f, k);
    ResponsesDrawn(y.refusal, y.responses, responses, g, k);
  }

  lemma LateDrawn(job: Job, y: System, k: nat, sent: bool, requests: seq<Request>, f: seq<nat>, responses: seq<Message>, g: seq<nat>)
    requires Late(job, y, k, sent) && Drawn(y.requests, requests, f) && Drawn(y.responses, responses, g)
    ensures Late(job, y.(requests := requests, responses := responses), k, sent)
  {
    hide IsAck, KthRequest, ServerAt;
    forall i, j | 0 <= i < j < |requests| && requests[i].toggle == 1 && requests[j].toggle == 0
      ensures sent && requests[j] == KthRequest(job, k)
    {
      assert f[i] < f[j];
    }
    forall i, j, l | 0 <= i < j < l < |requests| && requests[i].toggle == 1 && requests[j].toggle == 0
      ensures requests[l].toggle == 0
    {
      assert f[i] < f[j] <= f[l];
    }
  }

  /** Losing and duplicating keep the invariant. */
  lemma DrawnKeepsInvariant(job: Job, y: System, requests: seq<Request>, f: seq<nat>, responses: seq<Message>, g: seq<nat>)
    requires Invariant(job, y)
    requires Drawn(y.requests, requests, f) && Drawn(y.responses, responses, g)
    ensures Invariant(job, y.(requests := requests, responses := responses))
  {
    var k := y.master.sent / 7;
    hide UnderWay, Late, ServerAt, ServerBefore, ServerAfter, NoTrueAck, InitiateRequest, InitiateResponse, RefusalResponse;
    match y.master.phase
    case SendInitiate => DrawnFromNothing(y.requests, requests, f);
    case AwaitInitiate =>
    case SendSegment =>
      if BeforeSend(job, y, k) {
        UnderWayDrawn(job, y, k, requests, f, responses, g);
      } else {
        LateDrawn(job, y, k, false, requests, f, responses, g);
      }
    case AwaitSegment =>
      if AfterSend(job, y, k) {
        UnderWayDrawn(job, y, k, requests, f, responses, g);
      } else {
        LateDrawn(job, y, k, true, requests, f, responses, g);
      }
    case Finished(status) =>
  }

  // ---------- Every action keeps the invariant ----------

  lemma SegmentFacts(job: Job, k: nat)
    requires 7 * k < |job.data|
    ensures KthRequest(job, k).toggle == k % 2 && KthRequest(job, k).bytes == SegmentBytes(job.data, k)
    ensures KthRequest(job, k).last <==> k + 1 == SegmentCount(|job.data|)
    ensures OldRequest(job, k).Initiate? || OldRequest(job, k).toggle == 1 - k % 2
    ensures OldRequest(job, k) != KthRequest(job, k)
    ensures k + 1 < SegmentCount(|job.data|) ==> 7 * (k + 1) < |job.data|
  {
    SegmentCountBounds(|job.data|, k);
    SegmentCountBounds(|job.data|, k + 1);
  }

  lemma ServeNext(job: Job, s: Server, k: nat)
    requires 7 * k < |job.data| && ServerAt(job, s, k)
    ensures ServerAt(job, Serve(s, KthRequest(job, k)).0, k + 1)
    ensures Serve(s, KthRequest(job, k)).1 == SegmentResponse(k % 2)
  {
    SegmentFacts(job, k);
    SegmentCountBounds(|job.data|, k);
    var s' := Serve(s, KthRequest(job, k)).0;
    assert s'.log == ExpectedLog(job.data, k + 1);
    var n := SegmentEnd(|job.data|, k);
    assert job.data[..7 * k] + job.data[7 * k..n] == job.data[..n];
  }

  lemma ServeOther(job: Job, s: Server, k: nat, n: nat)
    requires 7 * k < |job.data| && ServerAt(job, s, n) && n % 2 != k % 2
    ensures Serve(s, KthRequest(job, k)) == (s, AbortResponse())
  {
    SegmentFacts(job, k);
  }

  /** An answer to segment k, or no acknowledgement at all. */
  lemma AppendResponse(f: Refusal, responses: seq<Message>, r: Message, k: nat)
    requires ResponsesOk(f, responses, k)
    requires (r == SegmentResponse(k % 2) && NoTrueAck(f, responses, k % 2)) || (!IsAck(r, 0) && !IsAck(r, 1))
    requires !IsAck(RefusalResponse(f), 0)
    ensures ResponsesOk(f, responses + [r], k)
    ensures !IsAck(r, k % 2) && NoTrueAck(f, responses, k % 2) ==> NoTrueAck(f, responses + [r], k % 2)
  {
    SegmentResponseFields(k % 2);
    hide IsAck, SegmentResponse, RefusalResponse;
  }

  lemma SegmentResponseFields(toggle: nat)
    requires toggle <= 1
    ensures IsAck(SegmentResponse(toggle), toggle) && !IsAck(SegmentResponse(toggle), 1 - toggle)
    ensures !IsAck(AbortResponse(), 0) && !IsAck(AbortResponse(), 1)
  {
    assert SegmentSpecifier(AbortResponse().command) == ABORT;
    assert SegmentSpecifier(SegmentResponse(toggle).command) == 1 && SegmentToggle(SegmentResponse(toggle).command) == toggle;
  }

  /** A copy of the initiate request makes the server start over; its answer reads as the old toggle of segment 0. */
  lemma ServeInitiate(job: Job, s: Server, f: Refusal, responses: seq<Message>)
    requires |job.data| > 0
    ensures Initiated(job, Serve(s, InitiateRequest(job)).0)
    ensures Serve(s, InitiateRequest(job)).1 == InitiateResponse(job.index, job.subindex)
    ensures !IsAck(InitiateResponse(job.index, job.subindex), 0)
    ensures NoTrueAck(f, responses, 0) && ResponsesOk(f, responses, 0) && !IsAck(RefusalResponse(f), 0) ==>
              ResponsesOk(f, responses + [InitiateResponse(job.index, job.subindex)], 0)
              && NoTrueAck(f, responses + [InitiateResponse(job.index, job.subindex)], 0)
  {
    assert SegmentToggle(InitiateResponse(job.index, job.subindex).command) == 1;
    assert ExpectedLog(job.data, 0) == [];
    assert job.data[..0] == [];
    hide RefusalResponse;
  }

  /** A refusal is no acknowledgement with toggle 0. */
  lemma RefusalIsNoAck(job: Job, f: Refusal)
    requires SafeRefusal(job, f) && |job.data| > 4
    ensures !IsAck(RefusalResponse(f), 0)
  {
  }

  /** A refusal of a segment, or of an initiate request while segment 0 is not taken. */
  lemma AppendRefusal(job: Job, f: Refusal, responses: seq<Message>, k: nat)
    requires SafeRefusal(job, f) && |job.data| > 4 && ResponsesOk(f, responses, k)
    requires f.segments || (k == 0 && NoTrueAck(f, responses, 0))
    ensures ResponsesOk(f, responses + [RefusalResponse(f)], k)
    ensures NoTrueAck(f, responses, k % 2) ==> NoTrueAck(f, responses + [RefusalResponse(f)], k % 2)
  {
    RefusalIsNoAck(job, f);
    hide IsAck, RefusalResponse, SafeRefusal;
  }

  /** What a refusal leaves of the server. */
  lemma ClosingServer(job: Job, s: Server, k: nat)
    requires |job.data| > 0
    ensures ServerBefore(job, s, k) && 7 * k < |job.data| ==> ServerBefore(job, s.(open := false), k)
    ensures ServerAfter(job, s, k) && 7 * k < |job.data| ==> ServerAfter(job, s.(open := false), k)
  {
    SegmentCountBounds(|job.data|, k);
    SegmentCountBounds(|job.data|, k + 1);
    if ServerAt(job, s, k + 1) && 7 * (k + 1) >= |job.data| {
      assert s.(open := false) == s;
    }
  }

  /** Delivering an old request changes nothing that matters. */
  lemma DeliverOld(job: Job, y: System, k: nat, reply: bool, verdict: Verdict)
    requires SafeRefusal(job, y.refusal) && Sound(job, y.master)
    requires UnderWay(job, y, k) && ServerBefore(job, y.server, k) && NoTrueAck(y.refusal, y.responses, k % 2)
    requires y.requests != [] && y.requests[0] == OldRequest(job, k)
    ensures var z := Next(job, y, Deliver(reply, verdict));
      ServerBefore(job, z.server, k) && ResponsesOk(y.refusal, z.responses, k) && NoTrueAck(y.refusal, z.responses, k % 2)
  {
    var f := y.refusal;
    RefusalIsNoAck(job, f);
    SegmentFacts(job, k);
    SegmentResponseFields(k % 2);
    if verdict.Serves? || (k > 0 && !f.segments) {
      if k == 0 {
        ServeInitiate(job, y.server, f, y.responses);
      } else {
        ServeOld(job, y.server, k);
        AppendResponse(f, y.responses, AbortResponse(), k);
      }
    } else {
      ClosingServer(job, y.server, k);
      AppendRefusal(job, f, y.responses, k);
    }
    hide IsAck, ResponsesOk, RequestsOk, ServerBefore, Serve, NoTrueAck, InitiateResponse, RefusalResponse, AbortResponse, SafeRefusal;
  }

  lemma ServeOld(job: Job, s: Server, k: nat)
    requires 0 < k && 7 * k < |job.data| && ServerBefore(job, s, k)
    ensures Serve(s, KthRequest(job, k - 1)) == (s, AbortResponse())
  {
    if ServerAt(job, s, k) {
      ServeOther(job, s, k - 1, k);
    }
  }

  lemma DeliverBeforeSend(job: Job, y: System, k: nat, reply: bool, verdict: Verdict)
    requires SafeRefusal(job, y.refusal) && BeforeSend(job, y, k) && y.requests != [] && Sound(job, y.master)
    ensures BeforeSend(job, Next(job, y, Deliver(reply, verdict)), k)
  {
    var f := DrawnTail(y.requests);
    RequestsDrawn(job, y.requests, y.requests[1..], f, k);
    assert y.requests[0] != KthRequest(job, k);
    DeliverOld(job, y, k, reply, verdict);
    hide ResponsesOk, ServerBefore, NoTrueAck, Respond;
  }

  /** What the server makes of segment k when it is not before it, or is closed. */
  lemma ServeAgain(job: Job, s: Server, k: nat)
    requires 7 * k < |job.data| && (ServerAfter(job, s, k) || Closed(s))
    ensures Serve(s, KthRequest(job, k)) == (s, AbortResponse())
  {
    if ServerAt(job, s, k + 1) {
      ServeOther(job, s, k, k + 1);
    }
  }

  /** The first of the requests is one for segment k, so no older one is left. */
  lemma OnlyCurrent(job: Job, requests: seq<Request>, k: nat)
    requires 7 * k < |job.data| && RequestsOk(job, requests, k) && requests != [] && requests[0] == KthRequest(job, k)
    ensures RequestsOk(job, requests[1..], k) && NoneAre(requests[1..], OldRequest(job, k))
  {
    var f := DrawnTail(requests);
    RequestsDrawn(job, requests, requests[1..], f, k);
    SegmentFacts(job, k);
    forall i | 0 <= i < |requests| - 1
      ensures requests[1..][i] == KthRequest(job, k)
    {
      assert requests[i + 1] == KthRequest(job, k);
    }
  }

  lemma DeliverCurrent(job: Job, y: System, k: nat, reply: bool, verdict: Verdict)
    requires SafeRefusal(job, y.refusal) && AfterSend(job, y, k) && Sound(job, y.master)
    requires y.requests != [] && y.requests[0] == KthRequest(job, k)
    ensures AfterSend(job, Next(job, y, Deliver(reply, verdict)), k)
  {
    var f := y.refusal;
    OnlyCurrent(job, y.requests, k);
    RefusalIsNoAck(job, f);
    SegmentResponseFields(k % 2);
    if !verdict.Serves? && f.segments {
      ClosingServer(job, y.server, k);
      AppendRefusal(job, f, y.responses, k);
    } else if ServerAt(job, y.server, k) && NoTrueAck(f, y.responses, k % 2) {
      ServeNext(job, y.server, k);
      AppendResponse(f, y.responses, SegmentResponse(k % 2), k);
    } else {
      ServeAgain(job, y.server, k);
      AppendResponse(f, y.responses, AbortResponse(), k);
    }
    hide IsAck, ResponsesOk, RequestsOk, ServerAt, Closed, Serve, NoTrueAck, SegmentResponse, RefusalResponse, AbortResponse, SafeRefusal;
  }

  lemma DeliverAfterSend(job: Job, y: System, k: nat, reply: bool, verdict: Verdict)
    requires SafeRefusal(job, y.refusal) && AfterSend(job, y, k) && y.requests != [] && Sound(job, y.master)
    ensures AfterSend(job, Next(job, y, Deliver(reply, verdict)), k)
  {
    if y.requests[0] == KthRequest(job, k) {
      DeliverCurrent(job, y, k, reply, verdict);
    } else {
      var f := DrawnTail(y.requests);
      RequestsDrawn(job, y.requests, y.requests[1..], f, k);
      DeliverOld(job, y, k, reply, verdict);
      hide ResponsesOk, ServerBefore, NoTrueAck, Respond;
    }
  }

  // ---------- While a refusal has been taken for an acknowledgement ----------

  lemma LateTail(job: Job, requests: seq<Request>, k: nat, sent: bool)
    requires 0 < k && 7 * k < |job.data| && LateRequests(job, requests, k, sent) && requests != []
    ensures LateRequests(job, requests[1..], k, sent)
  {
    hide KthRequest;
    var rest := requests[1..];
    forall i | 0 <= i < |rest|
      ensures rest[i] == requests[i + 1]
    {
    }
  }

  /** The server catches up: behind a copy of segment k - 1 only copies of it and of k are left. */
  lemma CatchesUp(job: Job, requests: seq<Request>, k: nat, sent: bool)
    requires 0 < k && k % 2 == 0 && 7 * k < |job.data| && LateRequests(job, requests, k, sent)
    requires requests != [] && requests[0].toggle == 1
    ensures requests[0] == KthRequest(job, k - 1)
    ensures RequestsOk(job, requests[1..], k) && (!sent ==> NoneAre(requests[1..], KthRequest(job, k)))
  {
    SegmentFacts(job, k);
    SegmentFacts(job, k - 1);
    hide KthRequest;
    var rest := requests[1..];
    forall i | 0 <= i < |rest|
      ensures rest[i] == KthRequest(job, k - 1) || (sent && rest[i] == KthRequest(job, k))
      ensures forall j :: i < j < |rest| && rest[i] == KthRequest(job, k) ==> rest[j] == KthRequest(job, k)
    {
      assert rest[i] == requests[i + 1];
      forall j | i < j < |rest| && rest[i] == KthRequest(job, k)
        ensures rest[j] == KthRequest(job, k)
      {
        assert rest[j] == requests[j + 1];
      }
    }
  }

  lemma NoAckIsOk(f: Refusal, responses: seq<Message>, k: nat)
    requires k % 2 == 0 && forall i :: 0 <= i < |responses| ==> !IsAck(responses[i], 0)
    ensures ResponsesOk(f, responses, k) && NoTrueAck(f, responses, 0)
  {
    hide IsAck;
  }

  lemma DeliverLate(job: Job, y: System, k: nat, sent: bool, reply: bool, verdict: Verdict)
    requires SafeRefusal(job, y.refusal) && Late(job, y, k, sent) && y.requests != [] && Sound(job, y.master)
    ensures var z := Next(job, y, Deliver(reply, verdict));
      Late(job, z, k, sent) || (if sent then AfterSend(job, z, k) else BeforeSend(job, z, k))
  {
    var z := Next(job, y, Deliver(reply, verdict));
    RefusalIsNoAck(job, y.refusal);
    SegmentResponseFields(1);
    LateTail(job, y.requests, k, sent);
    LateServer(job, y.server, y.requests[0], k);
    ClosingServer(job, y.server, k - 1);
    if verdict.Serves? && y.requests[0].toggle == 1 && ServerAt(job, y.server, k - 1) {
      CatchesUp(job, y.requests, k, sent);
      ServeNext(job, y.server, k - 1);
      assert forall i :: 0 <= i < |z.responses| ==> !IsAck(z.responses[i], 0);
      NoAckIsOk(y.refusal, z.responses, k);
      hide *;
      CaughtUp(job, z, k, sent);
    } else {
      hide IsAck, LateRequests, ServerAt, RefusalResponse, SegmentResponse, AbortResponse, Serve, SafeRefusal;
    }
  }

  lemma CaughtUp(job: Job, z: System, k: nat, sent: bool)
    requires |job.data| > 4 && k % 2 == 0 && 7 * k < |job.data| && ServerAt(job, z.server, k)
    requires RequestsOk(job, z.requests, k) && (!sent ==> NoneAre(z.requests, KthRequest(job, k)))
    requires ResponsesOk(z.refusal, z.responses, k) && NoTrueAck(z.refusal, z.responses, 0)
    ensures if sent then AfterSend(job, z, k) else BeforeSend(job, z, k)
  {
    hide RequestsOk, ResponsesOk, ServerAt, NoTrueAck, KthRequest;
  }

  /** A server that waits for segment k - 1 takes nothing with toggle 0, and a closed one nothing at all. */
  lemma LateServer(job: Job, s: Server, r: Request, k: nat)
    requires 0 < k && k % 2 == 0 && 7 * k < |job.data| && (ServerAt(job, s, k - 1) || Closed(s))
    requires r.Segment? && (r.toggle == 0 || r == KthRequest(job, k - 1))
    ensures Closed(s) || r.toggle == 0 ==> Serve(s, r) == (s, AbortResponse())
    ensures Closed(s) || Closed(s.(open := false))
  {
    SegmentCountBounds(|job.data|, k - 1);
  }

  lemma DeliverInitiate(job: Job, y: System, reply: bool, verdict: Verdict)
    requires |job.data| > 0 && InitiateInvariant(job, y) && y.requests != [] && Sound(job, y.master)
    ensures InitiateInvariant(job, Next(job, y, Deliver(reply, verdict)))
  {
    ServeInitiate(job, y.server, y.refusal, y.responses);
    ClosingServer(job, y.server, 0);
    hide ServerBefore, Serve, RefusalResponse, InitiateResponse, IsAck;
  }

  lemma DeliverFinished(job: Job, y: System, reply: bool, verdict: Verdict)
    requires |job.data| > 0 && Delivered(job, y) && y.requests != [] && Sound(job, y.master)
    ensures Delivered(job, Next(job, y, Deliver(reply, verdict)))
  {
    if |job.data| <= 4 {
      ServeInitiate(job, y.server, y.refusal, y.responses);
    } else {
      assert y.requests[0].Segment? && !y.server.open;
      assert y.server.(open := false) == y.server;
      assert Serve(y.server, y.requests[0]).0 == y.server;
    }
  }

  lemma DeliverKeepsInvariant(job: Job, y: System, reply: bool, verdict: Verdict)
    requires Invariant(job, y) && y.requests != []
    ensures Invariant(job, Next(job, y, Deliver(reply, verdict)))
  {
    var k := y.master.sent / 7;
    hide SafeRefusal, InitiateInvariant, BeforeSend, AfterSend, Late, Delivered, Respond;
    match y.master.phase
    case SendInitiate =>
    case AwaitInitiate => DeliverInitiate(job, y, reply, verdict);
    case SendSegment =>
      if BeforeSend(job, y, k) {
        DeliverBeforeSend(job, y, k, reply, verdict);
      } else {
        DeliverLate(job, y, k, false, reply, verdict);
      }
    case AwaitSegment =>
      if AfterSend(job, y, k) {
        DeliverAfterSend(job, y, k, reply, verdict);
      } else {
        DeliverLate(job, y, k, true, reply, verdict);
      }
    case Finished(status) =>
      if status == Success {
        DeliverFinished(job, y, reply, verdict);
      }
  }

  lemma SendKeepsInvariant(job: Job, y: System, timedOut: bool)
    requires Invariant(job, y) && y.master.phase.SendSegment?
    ensures Invariant(job, Next(job, y, MasterStep(true, timedOut)))
  {
    var k := y.master.sent / 7;
    var z := Next(job, y, MasterStep(true, timedOut));
    assert z.requests == y.requests + [KthRequest(job, k)];
    SegmentFacts(job, k);
    if BeforeSend(job, y, k) {
      hide ResponsesOk, ServerBefore, NoTrueAck, KthRequest;
      assert AfterSend(job, z, k);
    } else {
      hide IsAck, ServerAt, KthRequest;
      assert Late(job, z, k, true);
    }
  }

  lemma MasterStepKeepsInvariant(job: Job, y: System, sendOk: bool, timedOut: bool)
    requires Invariant(job, y)
    ensures Invariant(job, Next(job, y, MasterStep(sendOk, timedOut)))
  {
    var z := Next(job, y, MasterStep(sendOk, timedOut));
    match y.master.phase
    case SendInitiate =>
      if sendOk {
        assert z.requests == [InitiateRequest(job)];
      }
    case AwaitInitiate => assert z.requests == y.requests;
    case SendSegment =>
      if sendOk {
        SendKeepsInvariant(job, y, timedOut);
      }
    case AwaitSegment => assert z.requests == y.requests;
    case Finished(_) => assert z.requests == y.requests;
  }

  lemma ReceiveInitiate(job: Job, y: System)
    requires Invariant(job, y) && y.master.phase.AwaitInitiate? && y.responses != []
    ensures Invariant(job, Next(job, y, MasterReceive))
  {
    var z := Next(job, y, MasterReceive);
    assert z.requests == y.requests;
    var r := y.responses[0];
    if r == InitiateResponse(job.index, job.subindex) {
      assert Initiated(job, y.server);
      assert InitSpecifier(r.command) == 3;
      if |job.data| > 4 {
        TransferBegins(job, y, z);
      }
    }
  }

  lemma TransferBegins(job: Job, y: System, z: System)
    requires |job.data| > 4 && SafeRefusal(job, y.refusal) && InitiateInvariant(job, y) && y.responses != []
    requires y.responses[0] == InitiateResponse(job.index, job.subindex)
    requires z == y.(master := z.master, responses := y.responses[1..])
    ensures BeforeSend(job, z, 0)
  {
    RefusalIsNoAck(job, y.refusal);
    ServeInitiate(job, y.server, y.refusal, []);
    forall i | 0 <= i < |z.responses|
      ensures !IsAck(z.responses[i], 0)
    {
      assert z.responses[i] == y.responses[i + 1];
    }
    hide IsAck, RefusalResponse, InitiateResponse, KthRequest;
    NoAckIsOk(y.refusal, z.responses, 0);
  }

  /** A true acknowledgement lets the master move on: the server has had the segment, and nothing newer is under way. */
  lemma AcknowledgedMovesOn(job: Job, y: System, k: nat)
    requires AfterSend(job, y, k) && y.responses != [] && TrueAck(y.refusal, y.responses[0], k % 2)
    ensures ServerAfter(job, y.server, k)
    ensures forall i :: 0 <= i < |y.requests| ==> y.requests[i] == KthRequest(job, k)
  {
    hide TrueAck, KthRequest, ResponsesOk, ServerBefore, ServerAfter;
  }

  /** What is left behind an acknowledgement of segment k. */
  lemma BehindAck(f: Refusal, responses: seq<Message>, k: nat)
    requires ResponsesOk(f, responses, k) && responses != [] && IsAck(responses[0], k % 2)
    ensures ResponsesOk(f, responses[1..], k + 1) && NoTrueAck(f, responses[1..], (k + 1) % 2)
    ensures k % 2 == 1 ==> forall i :: 0 <= i < |responses[1..]| ==> !IsAck(responses[1..][i], 0)
  {
    AcksDiffer(f);
    hide IsAck, RefusalResponse;
    var rest := responses[1..];
    if k % 2 == 0 {
      assert forall i :: 0 <= i < |rest| ==> rest[i] == responses[i + 1] && !TrueAck(f, rest[i], 1);
      forall i, j | 0 <= i < j < |rest| && IsAck(rest[i], 1)
        ensures !IsAck(rest[j], 0)
      {
        assert FalseAck(f, rest[i]);
        assert rest[i] == responses[i + 1] && rest[j] == responses[j + 1];
      }
    } else {
      assert forall i :: 0 <= i < |rest| ==> rest[i] == responses[i + 1] && !IsAck(rest[i], 0);
    }
  }

  lemma NextSegmentReady(job: Job, y: System, k: nat, master: Master)
    requires AfterSend(job, y, k) && y.responses != [] && TrueAck(y.refusal, y.responses[0], k % 2)
    requires 7 * (k + 1) < |job.data|
    ensures BeforeSend(job, y.(responses := y.responses[1..], master := master), k + 1)
  {
    AcknowledgedMovesOn(job, y, k);
    SegmentFacts(job, k);
    SegmentFacts(job, k + 1);
    BehindAck(y.refusal, y.responses, k);
    assert KthRequest(job, k + 1) != KthRequest(job, k);
    hide ResponsesOk, NoTrueAck, ServerAt, KthRequest, IsAck;
  }

  /** A refusal is taken for the acknowledgement of segment k, which is odd and not the last. */
  lemma FalselyMovesOn(job: Job, y: System, k: nat, master: Master)
    requires SafeRefusal(job, y.refusal) && AfterSend(job, y, k) && k % 2 == 1
    requires y.responses != [] && FalseAck(y.refusal, y.responses[0])
    ensures 7 * (k + 1) < |job.data|
    ensures var z := y.(responses := y.responses[1..], master := master);
      BeforeSend(job, z, k + 1) || Late(job, z, k + 1, false)
  {
    SegmentFacts(job, k);
    SegmentCountBounds(|job.data|, k);
    OddIsNotLast(job, y, k);
    BehindAck(y.refusal, y.responses, k);
    SegmentFacts(job, k + 1);
    OldRequests(job, y.requests, k);
    if ServerAfter(job, y.server, k) && NoneAre(y.requests, OldRequest(job, k)) {
      assert KthRequest(job, k + 1) != KthRequest(job, k);
      hide ResponsesOk, NoTrueAck, ServerAt, KthRequest, IsAck, SafeRefusal;
    } else {
      hide ResponsesOk, NoTrueAck, ServerAt, KthRequest, IsAck, SafeRefusal, LateRequests;
    }
  }

  lemma OddIsNotLast(job: Job, y: System, k: nat)
    requires SafeRefusal(job, y.refusal) && |job.data| > 4 && k % 2 == 1 && 7 * k < |job.data|
    requires ResponsesOk(y.refusal, y.responses, k) && y.responses != [] && FalseAck(y.refusal, y.responses[0])
    ensures y.refusal.segments && 7 * (k + 1) < |job.data|
  {
    SegmentCountBounds(|job.data|, k);
  }

  lemma OldRequests(job: Job, requests: seq<Request>, k: nat)
    requires k % 2 == 1 && 7 * (k + 1) < |job.data| && RequestsOk(job, requests, k)
    ensures LateRequests(job, requests, k + 1, false)
  {
    SegmentFacts(job, k);
    SegmentFacts(job, k - 1);
    hide KthRequest;
  }

  /** A response that does not acknowledge segment k ends the call or is skipped. */
  lemma ReceiveOther(job: Job, y: System, k: nat)
    requires Sound(job, y.master) && y.master.phase.AwaitSegment? && y.master.toggle == k % 2
    requires y.responses != [] && !IsAck(y.responses[0], k % 2)
    ensures var z := Next(job, y, MasterReceive);
      z.master.phase == Finished(Abort) || z.master.phase == Finished(Error) || z == y.(responses := y.responses[1..])
  {
    assert y.requests + [] == y.requests;
  }

  lemma ReceiveSegment(job: Job, y: System)
    requires Invariant(job, y) && y.master.phase.AwaitSegment? && y.responses != []
    ensures Invariant(job, Next(job, y, MasterReceive))
  {
    var k := y.master.sent / 7;
    var z := Next(job, y, MasterReceive);
    var r := y.responses[0];
    if IsAck(r, k % 2) {
      assert AfterSend(job, y, k);
      assert z == y.(responses := y.responses[1..], master := AfterSegment(job, y.master.sent, y.master.toggle)) by {
        assert y.requests + [] == y.requests;
      }
      SegmentCountBounds(|job.data|, k);
      ReceiveAck(job, y, z, k);
    } else {
      ReceiveOther(job, y, k);
      if z == y.(responses := y.responses[1..]) {
        var f := Identity(y.requests);
        var g := DrawnTail(y.responses);
        hide Invariant, Next;
        DrawnKeepsInvariant(job, y, y.requests, f, y.responses[1..], g);
      }
    }
  }

  lemma ReceiveAck(job: Job, y: System, z: System, k: nat)
    requires SafeRefusal(job, y.refusal) && AfterSend(job, y, k) && Sound(job, y.master) && y.master.phase.AwaitSegment?
    requires y.master.sent == 7 * k && y.responses != [] && IsAck(y.responses[0], k % 2)
    requires z == y.(responses := y.responses[1..], master := AfterSegment(job, 7 * k, k % 2))
    ensures Invariant(job, z)
  {
    SegmentCountBounds(|job.data|, k);
    hide IsAck, BeforeSend, Late, ServerAt, RefusalResponse;
    if y.responses[0] == RefusalResponse(y.refusal) {
      assert k % 2 == 1 by {
        RefusalIsNoAck(job, y.refusal);
      }
      FalselyMovesOn(job, y, k, z.master);
    } else {
      AcknowledgedMovesOn(job, y, k);
      if 7 * (k + 1) < |job.data| {
        NextSegmentReady(job, y, k, z.master);
      }
    }
    hide AfterSend, SafeRefusal;
  }

  lemma UnrelatedKeepsInvariant(job: Job, y: System, m: Message)
    requires Invariant(job, y) && !m.IsResponse(1)
    ensures Invariant(job, Next(job, y, Unrelated(m)))
  {
    var k := y.master.sent / 7;
    if y.master.phase.SendSegment? || y.master.phase.AwaitSegment? {
      RefusalIsNoAck(job, y.refusal);
      if ResponsesOk(y.refusal, y.responses, k) {
        AppendResponse(y.refusal, y.responses, m, k);
      }
      hide SafeRefusal, ResponsesOk, RequestsOk, LateRequests, ServerAt, SegmentSpecifier, SegmentToggle;
    }
  }

  lemma NextKeepsInvariant(job: Job, y: System, a: Action)
    requires Invariant(job, y) && Enabled(y, a)
    ensures Invariant(job, Next(job, y, a))
  {
    match a
    case MasterStep(sendOk, timedOut) => MasterStepKeepsInvariant(job, y, sendOk, timedOut);
    case MasterReceive =>
      if y.master.phase.AwaitInitiate? {
        ReceiveInitiate(job, y);
      } else {
        ReceiveSegment(job, y);
      }
    case Deliver(reply, verdict) => DeliverKeepsInvariant(job, y, reply, verdict);
    case LoseRequest(at) =>
      var f := DrawnWithout(y.requests, at);
      var g := Identity(y.responses);
      DrawnKeepsInvariant(job, y, Without(y.requests, at), f, y.responses, g);
    case LoseResponse(at) =>
      var f := Identity(y.requests);
      var g := DrawnWithout(y.responses, at);
      DrawnKeepsInvariant(job, y, y.requests, f, Without(y.responses, at), g);
    case DuplicateRequest(at) =>
      var f := DrawnTwice(y.requests, at);
      var g := Identity(y.responses);
      DrawnKeepsInvariant(job, y, Twice(y.requests, at), f, y.responses, g);
    case DuplicateResponse(at) =>
      var f := Identity(y.requests);
      var g := DrawnTwice(y.responses, at);
      DrawnKeepsInvariant(job, y, y.requests, f, Twice(y.responses, at), g);
    case Unrelated(m) => UnrelatedKeepsInvariant(job, y, m);
  }

  lemma {:induction false} ReachableInvariant(job: Job, x: System, actions: seq<Action>, y: System)
    requires Invariant(job, x) && Reaches(job, x, actions, y)
    ensures Invariant(job, y)
    decreases |actions|
  {
    if actions != [] {
      NextKeepsInvariant(job, x, actions[0]);
      ReachableInvariant(job, Next(job, x, actions[0]), actions[1..], y);
    }
  }

  /** The server holds exactly these bytes; a segmented transfer was announced with their number and arrived as ceil(size / 7) segments with alternating
      toggles, only the last one marked last. */
  ghost predicate HasArrived(data: seq<byte>, s: Server) {
    && s.complete && s.stored == data
    && (|data| > 4 ==>
          && s.announced == |s.stored|
          && |s.log| == SegmentCount(|data|)
          && forall k :: 0 <= k < |s.log| ==>
               && s.log[k].toggle == k % 2
               && (s.log[k].last <==> k + 1 == |s.log|)
               && 7 * k < |data| && s.log[k].bytes == data[7 * k..SegmentEnd(|data|, k)])
  }

  /** When the download reports success, the data has arrived, if the server's refusals are safe. */
  lemma SuccessMeansDelivered(job: Job, server: Server, refusal: Refusal, actions: seq<Action>, y: System)
    requires job.data != [] && SafeRefusal(job, refusal)
    requires Reaches(job, Initial(job, server, refusal), actions, y)
    requires y.master.phase == Finished(Success)
    ensures HasArrived(job.data, y.server)
  {
    ReachableInvariant(job, Initial(job, server, refusal), actions, y);
    var n := SegmentCount(|job.data|);
    SegmentCountBounds(|job.data|, n);
    if |job.data| > 4 {
      forall k | 0 <= k < |y.server.log|
        ensures 7 * k < |job.data| && y.server.log[k] == ExpectedSegment(job.data, k)
      {
        SegmentCountBounds(|job.data|, k);
      }
    }
  }

  // ---------- Runs that exist ----------

  lemma Prepend(job: Job, x: System, a: Action, rest: seq<Action>, y: System)
    requires Sound(job, x.master) && Enabled(x, a) && Reaches(job, Next(job, x, a), rest, y)
    ensures Reaches(job, x, [a] + rest, y)
  {
    assert ([a] + rest)[1..] == rest;
  }

  lemma ThreeSteps(job: Job, x0: System, a0: Action, x1: System, a1: Action, x2: System, a2: Action, rest: seq<Action>, y: System)
    requires Sound(job, x0.master) && Enabled(x0, a0) && x1 == Next(job, x0, a0)
    requires Sound(job, x1.master) && Enabled(x1, a1) && x2 == Next(job, x1, a1)
    requires Sound(job, x2.master) && Enabled(x2, a2) && Reaches(job, Next(job, x2, a2), rest, y)
    ensures Reaches(job, x0, [a0] + ([a1] + ([a2] + rest)), y)
  {
    hide Next, Reaches, Sound;
    Prepend(job, x2, a2, rest, y);
    Prepend(job, x1, a1, [a2] + rest, y);
    Prepend(job, x0, a0, [a1] + ([a2] + rest), y);
  }

  /** The undisturbed exchange of segment k, with a server that expects its toggle. */
  lemma SegmentExchange(job: Job, s: Server, f: Refusal, k: nat) returns (x1: System, x2: System, x3: System)
    requires |job.data| > 4 && 7 * k < |job.data| && s.open && s.toggle == k % 2
    ensures var x0 := System(Master(SendSegment, 7 * k, k % 2), [], [], s, f);
      && x1 == Next(job, x0, MasterStep(true, false)) && Sound(job, x1.master)
      && x1.requests != [] && x2 == Next(job, x1, Deliver(true, Serves)) && Sound(job, x2.master)
      && x2.responses != [] && IsAwaiting(x2.master) && x3 == Next(job, x2, MasterReceive)
    ensures x3 == System(AfterSegment(job, 7 * k, k % 2), [], [], Serve(s, KthRequest(job, k)).0, f)
    ensures |x3.server.stored| == |s.stored| + SegmentEnd(|job.data|, k) - 7 * k
    ensures x3.server.open <==> SegmentEnd(|job.data|, k) < |job.data|
    ensures x3.server.toggle == (k + 1) % 2 && x3.server.complete == !x3.server.open
  {
    SegmentFacts(job, k);
    SegmentCountBounds(|job.data|, k);
    var x0 := System(Master(SendSegment, 7 * k, k % 2), [], [], s, f);
    x1 := Next(job, x0, MasterStep(true, false));
    assert x1 == System(Master(AwaitSegment, 7 * k, k % 2), [KthRequest(job, k)], [], s, f);
    x2 := Next(job, x1, Deliver(true, Serves));
    assert SegmentSpecifier(SegmentResponse(k % 2).command) == 1 && SegmentToggle(SegmentResponse(k % 2).command) == k % 2;
    assert x2 == System(Master(AwaitSegment, 7 * k, k % 2), [], [SegmentResponse(k % 2)], Serve(s, KthRequest(job, k)).0, f);
    x3 := Next(job, x2, MasterReceive);
  }

  /** From segment k on, every segment is exchanged undisturbed. */
  lemma {:induction false} RestRuns(job: Job, s: Server, f: Refusal, k: nat) returns (actions: seq<Action>, y: System)
    requires |job.data| > 4 && 7 * k < |job.data| && s.open && s.toggle == k % 2
    ensures Reaches(job, System(Master(SendSegment, 7 * k, k % 2), [], [], s, f), actions, y)
    ensures y.master.phase == Finished(Success) && |y.server.stored| == |s.stored| + |job.data| - 7 * k
    decreases |job.data| - 7 * k
  {
    hide Next, Serve;
    var x0 := System(Master(SendSegment, 7 * k, k % 2), [], [], s, f);
    var x1, x2, x3 := SegmentExchange(job, s, f, k);
    var rest: seq<Action>;
    if 7 * (k + 1) < |job.data| {
      rest, y := RestRuns(job, x3.server, f, k + 1);
      assert x3 == System(Master(SendSegment, 7 * (k + 1), (k + 1) % 2), [], [], x3.server, f);
    } else {
      rest, y := [], x3;
    }
    ThreeSteps(job, x0, MasterStep(true, false), x1, Deliver(true, Serves), x2, MasterReceive, rest, y);
    actions := [MasterStep(true, false)] + ([Deliver(true, Serves)] + ([MasterReceive] + rest));
  }

  /** The initiate request is sent, answered or refused, and the answer read. */
  lemma Opening(job: Job, server: Server, f: Refusal, verdict: Verdict, rest: seq<Action>, y: System) returns (actions: seq<Action>)
    requires job.data != []
    requires var (s, r) := Respond(server, InitiateRequest(job), f, verdict);
      Reaches(job, System(OnInitiateResponse(job, Master(AwaitInitiate, 0, 0), r), [], [], s, f), rest, y)
    ensures Reaches(job, Initial(job, server, f), actions, y)
  {
    hide Reaches;
    var (s, r) := Respond(server, InitiateRequest(job), f, verdict);
    var x0 := Initial(job, server, f);
    var x1 := Next(job, x0, MasterStep(true, false));
    assert x1 == System(Master(AwaitInitiate, 0, 0), [InitiateRequest(job)], [], server, f);
    var x2 := Next(job, x1, Deliver(true, verdict));
    assert x2 == System(Master(AwaitInitiate, 0, 0), [], [r], s, f);
    var x3 := Next(job, x2, MasterReceive);
    assert x3 == System(OnInitiateResponse(job, Master(AwaitInitiate, 0, 0), r), [], [], s, f);
    ThreeSteps(job, x0, MasterStep(true, false), x1, Deliver(true, verdict), x2, MasterReceive, rest, y);
    actions := [MasterStep(true, false)] + ([Deliver(true, verdict)] + ([MasterReceive] + rest));
  }

  /** Every non-empty object can be downloaded: some run of the system ends in success. */
  lemma DownloadCanSucceed(job: Job, server: Server, refusal: Refusal) returns (actions: seq<Action>, y: System)
    requires job.data != []
    ensures Reaches(job, Initial(job, server, refusal), actions, y) && y.master.phase == Finished(Success)
  {
    var (s, r) := Serve(server, InitiateRequest(job));
    var m := OnInitiateResponse(job, Master(AwaitInitiate, 0, 0), r);
    var rest: seq<Action>;
    if |job.data| > 4 {
      rest, y := RestRuns(job, s, refusal, 0);
    } else {
      rest, y := [], System(m, [], [], s, refusal);
    }
    actions := Opening(job, server, refusal, Serves, rest, y);
  }

  // ---------- Exactly which refusals are safe ----------

  ghost predicate AlwaysDelivers(job: Job, f: Refusal) {
    forall server: Server, actions: seq<Action>, y: System ::
      Reaches(job, Initial(job, server, f), actions, y) && y.master.phase == Finished(Success) ==> HasArrived(job.data, y.server)
  }

  /** A refusal that names the object and does not read as an abort is taken for the server's consent. */
  lemma RefusalTakenForConsent(job: Job, f: Refusal) returns (server: Server, actions: seq<Action>, y: System)
    requires job.data != [] && InitSpecifier(f.command) != ABORT && f.index == job.index && f.subindex == job.subindex
    ensures Reaches(job, Initial(job, server, f), actions, y)
    ensures y.master.phase == Finished(Success) && !HasArrived(job.data, y.server)
  {
    var rest: seq<Action>;
    if |job.data| > 4 {
      // a server in the middle of another download goes on with it
      server := Server(true, 0, [], [0], false, 0);
      rest, y := RestRuns(job, server, f, 0);
    } else {
      server := Server(false, 0, [], [], false, 0);
      rest, y := [], System(Master(Finished(Success), 0, 0), [], [], server, f);
    }
    actions := Opening(job, server, f, Refuses, rest, y);
  }

  /** The abort command byte that include/ethercat/coe.h documents is such a refusal: a refused write of up to four
      bytes is reported as a success. */
  lemma RefusedWriteReportsSuccess(job: Job, segments: bool) returns (actions: seq<Action>, y: System)
    requires 1 <= |job.data| <= 4
    ensures var server := Server(false, 0, [], [], false, 0);
      Reaches(job, Initial(job, server, Refusal(0x80, job.index, job.subindex, segments)), actions, y) && y.server == server
    ensures y.master.phase == Finished(Success) && y.server.stored != job.data
  {
    var server, f := Server(false, 0, [], [], false, 0), Refusal(0x80, job.index, job.subindex, segments);
    y := System(Master(Finished(Success), 0, 0), [], [], server, f);
    actions := Opening(job, server, f, Refuses, [], y);
  }

  /** Answers to copies of the initiate request, in turn consent and refusal. */
  function Token(job: Job, f: Refusal, i: nat): Message {
    if i % 2 == 0 then InitiateResponse(job.index, job.subindex) else RefusalResponse(f)
  }

  function InTurn(i: nat): Verdict {
    if i % 2 == 0 then Serves else Refuses
  }

  function Tokens(job: Job, f: Refusal, from: nat, n: nat): (responses: seq<Message>)
    requires from <= n
    ensures |responses| == n - from
  {
    seq(n - from, i requires 0 <= i < n - from => Token(job, f, from + i))
  }

  /** The answer after the one that opened the transfer acknowledges segment 0, and so on. */
  lemma TokenAcknowledges(job: Job, f: Refusal, k: nat)
    requires SegmentSpecifier(f.command) != ABORT && SegmentToggle(f.command) == 0
    ensures IsAck(Token(job, f, k + 1), k % 2)
  {
    assert SegmentSpecifier(3) == 0 && SegmentToggle(3) == 1;
  }

  /** Segment k is sent and lost, and the next answer is taken for its acknowledgement. */
  lemma FalseAcknowledgement(job: Job, f: Refusal, s: Server, k: nat, n: nat) returns (x1: System, x2: System, x3: System)
    requires |job.data| > 4 && 7 * k < |job.data| && k + 1 < n
    requires SegmentSpecifier(f.command) != ABORT && SegmentToggle(f.command) == 0
    ensures var x0 := System(Master(SendSegment, 7 * k, k % 2), [], Tokens(job, f, k + 1, n), s, f);
      && x1 == Next(job, x0, MasterStep(true, false)) && Sound(job, x1.master)
      && x1.requests != [] && x2 == Next(job, x1, LoseRequest(0)) && Sound(job, x2.master)
      && x2.responses != [] && IsAwaiting(x2.master) && x3 == Next(job, x2, MasterReceive)
    ensures x3 == System(AfterSegment(job, 7 * k, k % 2), [], Tokens(job, f, k + 2, n), s, f)
  {
    TokenAcknowledges(job, f, k);
    var x0 := System(Master(SendSegment, 7 * k, k % 2), [], Tokens(job, f, k + 1, n), s, f);
    x1 := Next(job, x0, MasterStep(true, false));
    assert x1 == System(Master(AwaitSegment, 7 * k, k % 2), [KthRequest(job, k)], Tokens(job, f, k + 1, n), s, f);
    x2 := Next(job, x1, LoseRequest(0));
    assert x2 == System(Master(AwaitSegment, 7 * k, k % 2), [], Tokens(job, f, k + 1, n), s, f);
    hide Token;
    x3 := Next(job, x2, MasterReceive);
    assert Tokens(job, f, k + 1, n)[1..] == Tokens(job, f, k + 2, n);
  }

  lemma {:induction false} FalseAcknowledgements(job: Job, f: Refusal, s: Server, k: nat, n: nat) returns (actions: seq<Action>, y: System)
    requires |job.data| > 4 && 7 * k < |job.data| && n == SegmentCount(|job.data|) + 1
    requires SegmentSpecifier(f.command) != ABORT && SegmentToggle(f.command) == 0
    ensures Reaches(job, System(Master(SendSegment, 7 * k, k % 2), [], Tokens(job, f, k + 1, n), s, f), actions, y)
    ensures y.master.phase == Finished(Success) && y.server == s
    decreases |job.data| - 7 * k
  {
    SegmentCountBounds(|job.data|, k);
    AfterSegmentIs(job, k);
    hide *;
    var x0 := System(Master(SendSegment, 7 * k, k % 2), [], Tokens(job, f, k + 1, n), s, f);
    var x1, x2, x3 := FalseAcknowledgement(job, f, s, k, n);
    var rest: seq<Action>;
    if 7 * (k + 1) < |job.data| {
      rest, y := FalseAcknowledgements(job, f, s, k + 1, n);
    } else {
      rest, y := [], x3;
      ReachesItself(job, x3);
    }
    ThreeSteps(job, x0, MasterStep(true, false), x1, LoseRequest(0), x2, MasterReceive, rest, y);
    actions := [MasterStep(true, false)] + ([LoseRequest(0)] + ([MasterReceive] + rest));
  }

  lemma AfterSegmentIs(job: Job, k: nat)
    requires 7 * k < |job.data|
    ensures AfterSegment(job, 7 * k, k % 2) ==
      if 7 * (k + 1) < |job.data| then Master(SendSegment, 7 * (k + 1), (k + 1) % 2)
      else Master(Finished(Success), |job.data|, (k + 1) % 2)
  {
  }

  lemma ReachesItself(job: Job, x: System)
    ensures Reaches(job, x, [], x)
  {
  }

  /** While the master waits for the first answer, a copy of its request is answered, and one is left. */
  lemma CopyAnswered(job: Job, f: Refusal, s: Server, i: nat) returns (x1: System, x2: System)
    requires |job.data| > 4 && !s.complete
    ensures var x0 := System(Master(AwaitInitiate, 0, 0), [InitiateRequest(job)], Tokens(job, f, 0, i), s, f);
      && x1 == Next(job, x0, DuplicateRequest(0)) && x1.requests != [] && Sound(job, x1.master)
      && x2 == Next(job, x1, Deliver(true, InTurn(i)))
    ensures x2 == System(Master(AwaitInitiate, 0, 0), [InitiateRequest(job)], Tokens(job, f, 0, i + 1), x2.server, f)
    ensures !x2.server.complete
  {
    var x0 := System(Master(AwaitInitiate, 0, 0), [InitiateRequest(job)], Tokens(job, f, 0, i), s, f);
    x1 := Next(job, x0, DuplicateRequest(0));
    assert x1.requests == [InitiateRequest(job), InitiateRequest(job)];
    x2 := Next(job, x1, Deliver(true, InTurn(i)));
    assert Tokens(job, f, 0, i) + [Token(job, f, i)] == Tokens(job, f, 0, i + 1);
    assert x2.requests == [InitiateRequest(job)];
  }

  /** With all answers under way the last copy is lost and the first answer opens the transfer. */
  lemma TransferOpened(job: Job, f: Refusal, s: Server, n: nat) returns (x1: System, x2: System)
    requires |job.data| > 4 && n > 0
    ensures var x0 := System(Master(AwaitInitiate, 0, 0), [InitiateRequest(job)], Tokens(job, f, 0, n), s, f);
      && x1 == Next(job, x0, LoseRequest(0)) && Sound(job, x1.master)
      && x1.responses != [] && IsAwaiting(x1.master) && x2 == Next(job, x1, MasterReceive)
    ensures x2 == System(Master(SendSegment, 0, 0), [], Tokens(job, f, 1, n), s, f)
  {
    var x0 := System(Master(AwaitInitiate, 0, 0), [InitiateRequest(job)], Tokens(job, f, 0, n), s, f);
    x1 := Next(job, x0, LoseRequest(0));
    assert x1 == System(Master(AwaitInitiate, 0, 0), [], Tokens(job, f, 0, n), s, f);
    assert InitSpecifier(3) == 3;
    x2 := Next(job, x1, MasterReceive);
    assert Tokens(job, f, 0, n)[1..] == Tokens(job, f, 1, n);
  }

  lemma {:induction false} CopiesAnswered(job: Job, f: Refusal, s: Server, i: nat, n: nat) returns (actions: seq<Action>, y: System)
    requires |job.data| > 4 && !s.complete && i <= n == SegmentCount(|job.data|) + 1
    requires SegmentSpecifier(f.command) != ABORT && SegmentToggle(f.command) == 0
    ensures Reaches(job, System(Master(AwaitInitiate, 0, 0), [InitiateRequest(job)], Tokens(job, f, 0, i), s, f), actions, y)
    ensures y.master.phase == Finished(Success) && !y.server.complete
    decreases n - i
  {
    hide Next, SegmentSpecifier, SegmentToggle, Tokens;
    var x0 := System(Master(AwaitInitiate, 0, 0), [InitiateRequest(job)], Tokens(job, f, 0, i), s, f);
    var rest: seq<Action>;
    if i == n {
      var x1, x2 := TransferOpened(job, f, s, n);
      rest, y := FalseAcknowledgements(job, f, s, 0, n);
      Prepend(job, x1, MasterReceive, rest, y);
      Prepend(job, x0, LoseRequest(0), [MasterReceive] + rest, y);
      actions := [LoseRequest(0)] + ([MasterReceive] + rest);
    } else {
      var x1, x2 := CopyAnswered(job, f, s, i);
      rest, y := CopiesAnswered(job, f, x2.server, i + 1, n);
      Prepend(job, x1, Deliver(true, InTurn(i)), rest, y);
      Prepend(job, x0, DuplicateRequest(0), [Deliver(true, InTurn(i))] + rest, y);
      actions := [DuplicateRequest(0)] + ([Deliver(true, InTurn(i))] + rest);
    }
  }

  /** A late refusal that does not read as an abort of a segment, with toggle 0, is taken for an acknowledgement: a
      download succeeds of which the server holds nothing. */
  lemma RefusalTakenForAcknowledgement(job: Job, f: Refusal) returns (server: Server, actions: seq<Action>, y: System)
    requires |job.data| > 4 && SegmentSpecifier(f.command) != ABORT && SegmentToggle(f.command) == 0
    ensures Reaches(job, Initial(job, server, f), actions, y)
    ensures y.master.phase == Finished(Success) && !HasArrived(job.data, y.server)
  {
    hide SegmentSpecifier, SegmentToggle;
    server := Server(false, 0, [], [], false, 0);
    var x0 := Initial(job, server, f);
    var x1 := Next(job, x0, MasterStep(true, false));
    assert x1 == System(Master(AwaitInitiate, 0, 0), [InitiateRequest(job)], Tokens(job, f, 0, 0), server, f);
    var rest;
    rest, y := CopiesAnswered(job, f, server, 0, SegmentCount(|job.data|) + 1);
    Prepend(job, x0, MasterStep(true, false), rest, y);
    actions := [MasterStep(true, false)] + rest;
  }

  /** The last segment is sent and refused, and the refusal is taken for its acknowledgement. */
  lemma RefusedExchange(job: Job, s: Server, f: Refusal, k: nat) returns (x1: System, x2: System, x3: System)
    requires |job.data| > 4 && 7 * k < |job.data|
    requires f.segments && SegmentSpecifier(f.command) != ABORT && SegmentToggle(f.command) == k % 2
    ensures var x0 := System(Master(SendSegment, 7 * k, k % 2), [], [], s, f);
      && x1 == Next(job, x0, MasterStep(true, false)) && Sound(job, x1.master)
      && x1.requests != [] && x2 == Next(job, x1, Deliver(true, Refuses)) && Sound(job, x2.master)
      && x2.responses != [] && IsAwaiting(x2.master) && x3 == Next(job, x2, MasterReceive)
    ensures x3 == System(AfterSegment(job, 7 * k, k % 2), [], [], s, f)
  {
    var x0 := System(Master(SendSegment, 7 * k, k % 2), [], [], s, f);
    x1 := Next(job, x0, MasterStep(true, false));
    assert x1 == System(Master(AwaitSegment, 7 * k, k % 2), [KthRequest(job, k)], [], s, f);
    x2 := Next(job, x1, Deliver(true, Refuses));
    assert x2 == System(Master(AwaitSegment, 7 * k, k % 2), [], [RefusalResponse(f)], s, f);
    x3 := Next(job, x2, MasterReceive);
  }

  lemma {:induction false} RunsToRefusal(job: Job, s: Server, f: Refusal, k: nat) returns (actions: seq<Action>, y: System)
    requires |job.data| > 4 && 7 * k < |job.data| && s.open && !s.complete && s.toggle == k % 2
    requires f.segments && SegmentSpecifier(f.command) != ABORT && SegmentToggle(f.command) == (SegmentCount(|job.data|) - 1) % 2
    ensures Reaches(job, System(Master(SendSegment, 7 * k, k % 2), [], [], s, f), actions, y)
    ensures y.master.phase == Finished(Success) && !y.server.complete
    decreases |job.data| - 7 * k
  {
    SegmentCountBounds(|job.data|, k);
    hide Next, Serve, SegmentSpecifier, SegmentToggle;
    var x0 := System(Master(SendSegment, 7 * k, k % 2), [], [], s, f);
    var rest: seq<Action>;
    if 7 * (k + 1) < |job.data| {
      var x1, x2, x3 := SegmentExchange(job, s, f, k);
      rest, y := RunsToRefusal(job, x3.server, f, k + 1);
      assert x3 == System(Master(SendSegment, 7 * (k + 1), (k + 1) % 2), [], [], x3.server, f);
      ThreeSteps(job, x0, MasterStep(true, false), x1, Deliver(true, Serves), x2, MasterReceive, rest, y);
      actions := [MasterStep(true, false)] + ([Deliver(true, Serves)] + ([MasterReceive] + rest));
    } else {
      var x1, x2, x3 := RefusedExchange(job, s, f, k);
      y := x3;
      ThreeSteps(job, x0, MasterStep(true, false), x1, Deliver(true, Refuses), x2, MasterReceive, [], y);
      actions := [MasterStep(true, false)] + ([Deliver(true, Refuses)] + ([MasterReceive] + []));
    }
  }

  /** A server that refuses only the last segment, when the refusal has its toggle: the download succeeds without it. */
  lemma RefusedLastSegmentReportsSuccess(job: Job, f: Refusal) returns (server: Server, actions: seq<Action>, y: System)
    requires |job.data| > 4 && f.segments && SegmentSpecifier(f.command) != ABORT
    requires SegmentToggle(f.command) == (SegmentCount(|job.data|) - 1) % 2
    ensures Reaches(job, Initial(job, server, f), actions, y)
    ensures y.master.phase == Finished(Success) && !y.server.complete
  {
    server := Server(false, 0, [], [], false, 0);
    var (s, r) := Serve(server, InitiateRequest(job));
    var rest;
    rest, y := RunsToRefusal(job, s, f, 0);
    actions := Opening(job, server, f, Serves, rest, y);
  }

  /** Success means delivery, from every state of the server and over every run, if and only if a refusal reads as an
      abort or names another object, and, for a segmented transfer, is not taken for an acknowledgement that is missed. */
  lemma AlwaysDeliversIff(job: Job, f: Refusal)
    requires job.data != []
    ensures AlwaysDelivers(job, f) <==> SafeRefusal(job, f)
  {
    hide Reaches, HasArrived;
    if SafeRefusal(job, f) {
      forall server: Server, actions: seq<Action>, y: System
        | Reaches(job, Initial(job, server, f), actions, y) && y.master.phase == Finished(Success)
        ensures HasArrived(job.data, y.server)
      {
        SuccessMeansDelivered(job, server, f, actions, y);
      }
    } else if InitSpecifier(f.command) != ABORT && f.index == job.index && f.subindex == job.subindex {
      var server, actions, y := RefusalTakenForConsent(job, f);
      assert !AlwaysDelivers(job, f);
    } else if SegmentToggle(f.command) == 0 {
      var server, actions, y := RefusalTakenForAcknowledgement(job, f);
      assert !AlwaysDelivers(job, f);
    } else {
      LastIsOdd(job, f);
      var server, actions, y := RefusedLastSegmentReportsSuccess(job, f);
      assert !AlwaysDelivers(job, f) by {
        IncompleteIsNotArrived(job, y.server);
      }
    }
  }

  lemma LastIsOdd(job: Job, f: Refusal)
    requires SegmentToggle(f.command) != 0 && SegmentCount(|job.data|) % 2 == 0 && job.data != []
    ensures SegmentToggle(f.command) == (SegmentCount(|job.data|) - 1) % 2
  {
  }

  lemma IncompleteIsNotArrived(job: Job, s: Server)
    requires !s.complete
    ensures !HasArrived(job.data, s)
  {
  }

  /** Reading as an abort of the initiate request is not enough: command byte 4 does, and as a segment response it
      acknowledges segment 0. */
  lemma AbortOfInitiateIsNotEnough(job: Job, segments: bool)
    requires |job.data| > 4
    ensures InitSpecifier(4) == ABORT && !AlwaysDelivers(job, Refusal(4, job.index, job.subindex, segments))
  {
    AlwaysDeliversIff(job, Refusal(4, job.index, job.subindex, segments));
  }
}
