/**
 An SDO upload over a mailbox that keeps order but may lose or duplicate any message, from a server that answers
 the initiate request with the object or the start of a segmented transfer, and each expected segment request with the
 next seven bytes, or refuses. A server need not say how long the object is (section 7.2.4.3 of CiA 301).
 */
module SdoFetch {
  import opened Endian
  import opened Coe
  import opened Copies
  import opened Mailboxes
  import opened SdoUpload
  import Channel = Channels

  // ---------- The server ----------

  type Content = s: seq<byte> | |s| < WORD

  /** An abort message: the command byte, the object that it names, and the abort code. */
  datatype AbortMessage = AbortMessage(command: nat, index: nat, subindex: nat, code: u32)

  /** Specifier 4 in the top three bits, so that it reads as an abort while segments are awaited. */
  type Refusal = a: AbortMessage | SegmentSpecifier(a.command) == ABORT witness AbortMessage(0x80, 0, 0, 0)

  /** What the server holds, whether it sends one to four bytes in the initiate response, whether that shows a size, and
      how it refuses. */
  datatype Object = Object(content: Content, expedites: bool, sized: bool, refusal: Refusal)
  {
    predicate Expedited() {
      expedites && 1 <= |content| <= 4
    }
  }

  /** An upload in progress: whether one is open, the next expected toggle, and the segments served. */
  datatype Server = Server(open: bool, toggle: nat, served: nat)

  /** The first bytes of s, filled up to seven. */
  function Filled(s: seq<byte>): Block
    requires |s| <= 7
  {
    s + seq(7 - |s|, _ => 0)
  }

  /** Specifier 2 in the low three bits, the unused count in bits 4 and 5, expedited in bit 6, size shown in bit 7;
      without a size there is no unused count. */
  function InitiateCommand(o: Object): nat {
    2 + (if o.Expedited() then 64 else 0) + (if o.sized then 128 else 0)
    + (if o.Expedited() && o.sized then 16 * (4 - |o.content|) else 0)
  }

  /** The seven bytes behind the command byte of an initiate response that shows no size: index, subindex, and a
      reserved word of zero. */
  function InitiateBytes(q: Query): Block {
    BytesOfU16(q.index % 0x1_0000) + [ToByte(q.subindex % 0x100)] + [0, 0, 0, 0]
  }

  function InitiateResponse(q: Query, o: Object): Message {
    Message(true, 10, SDO_RESPONSE, InitiateCommand(o), q.index, q.subindex,
            if o.Expedited() || !o.sized then 0 else |o.content|,
            if o.Expedited() then Filled(o.content) else InitiateBytes(q))
  }

  predicate HasSegment(content: seq<byte>, k: nat) {
    k == 0 || 7 * k < |content|
  }

  predicate IsLastSegment(content: seq<byte>, k: nat) {
    7 * k + 7 >= |content|
  }

  function ObjectSegment(content: seq<byte>, k: nat): (bytes: seq<byte>)
    requires HasSegment(content, k)
    ensures |bytes| <= 7
  {
    content[7 * k..SegmentEnd(|content|, k)]
  }

  /** Toggle in bit 0, the unused count in bits 1 to 3, last in bit 4, specifier 0 above. */
  function SegmentCommand(content: seq<byte>, k: nat): nat
    requires HasSegment(content, k)
  {
    SegmentCommandOf(k % 2, 7 - |ObjectSegment(content, k)|, IsLastSegment(content, k))
  }

  function SegmentResponse(content: seq<byte>, k: nat): Message
    requires HasSegment(content, k)
  {
    Message(true, 10, SDO_RESPONSE, SegmentCommand(content, k), 0, 0, 0, Filled(ObjectSegment(content, k)))
  }

  function AbortResponse(): Message {
    Message(true, 10, SDO_RESPONSE, 0x80, 0, 0, 0x0503_0000, NO_BYTES)
  }

  function Serve(q: Query, o: Object, s: Server, r: Request): (Server, Message) {
    match r
    case Initiate(_, _) => (Server(!o.Expedited(), 0, 0), InitiateResponse(q, o))
    case Segment(toggle) =>
      if s.open && toggle == s.toggle && HasSegment(o.content, s.served) then
        (Server(!IsLastSegment(o.content, s.served), 1 - toggle % 2, s.served + 1), SegmentResponse(o.content, s.served))
      else (s, AbortResponse())
  }

  function RefusalResponse(f: Refusal): Message {
    Message(true, 10, SDO_RESPONSE, f.command, f.index, f.subindex, f.code, NO_BYTES)
  }

  /** What the server decides about a request that it takes up; a refusal may end the transfer that is open. */
  datatype Verdict = Serves | Refuses | RefusesAndCloses

  function Respond(q: Query, o: Object, s: Server, r: Request, v: Verdict): (Server, Message) {
    match v
    case Serves => Serve(q, o, s, r)
    case Refuses => (s, RefusalResponse(o.refusal))
    case RefusesAndCloses => (s.(open := false), RefusalResponse(o.refusal))
  }

  // ---------- The system ----------

  datatype System = System(master: Master, requests: seq<Request>, responses: seq<Message>, server: Server)

  datatype Action =
    | MasterStep(sendOk: bool, timedOut: bool)  // an empty poll when there is nothing to send
    | MasterReceive
    | Deliver(reply: bool, verdict: Verdict)
    | LoseRequest(at: nat)
    | LoseResponse(at: nat)
    | DuplicateRequest(at: nat)
    | DuplicateResponse(at: nat)
    | Unrelated(message: Message)

  predicate Duplicates(a: Action) {
    a.DuplicateRequest? || a.DuplicateResponse?
  }

  predicate IsAwaiting(m: Master) {
    m.phase.AwaitInitiate? || m.phase.AwaitSegment?
  }

  predicate Enabled(y: System, a: Action) {
    match a
    case MasterStep(_, _) => true
    case MasterReceive => IsAwaiting(y.master) && y.responses != []
    case Deliver(_, _) => y.requests != []
    case LoseRequest(at) => at < |y.requests|
    case LoseResponse(at) => at < |y.responses|
    case DuplicateRequest(at) => at < |y.requests|
    case DuplicateResponse(at) => at < |y.responses|
    case Unrelated(m) => !m.IsResponse(8)
  }

  function Next(q: Query, o: Object, y: System, a: Action): System
    requires Enabled(y, a)
  {
    match a
    case MasterStep(sendOk, timedOut) =>
      var (m, out) := Step(q, y.master, Event(sendOk, if timedOut then TimedOut else Nothing));
      y.(master := m, requests := y.requests + out)
    case MasterReceive =>
      var (m, out) := Step(q, y.master, Event(true, Arrived(y.responses[0])));
      y.(master := m, requests := y.requests + out, responses := y.responses[1..])
    case Deliver(reply, verdict) =>
      var (s, r) := Respond(q, o, y.server, y.requests[0], verdict);
      y.(requests := y.requests[1..], server := s, responses := if reply then y.responses + [r] else y.responses)
    case LoseRequest(at) => y.(requests := Channel.Without(y.requests, at))
    case LoseResponse(at) => y.(responses := Channel.Without(y.responses, at))
    case DuplicateRequest(at) => y.(requests := Channel.Twice(y.requests, at))
    case DuplicateResponse(at) => y.(responses := Channel.Twice(y.responses, at))
    case Unrelated(m) => y.(responses := y.responses + [m])
  }

  function Initial(q: Query, server: Server): System {
    System(Start(q), [], [], server)
  }

  /** y is reachable by the actions, each enabled when it is taken, and none of them a duplication unless it may be. */
  ghost predicate Reaches(q: Query, o: Object, dup: bool, x: System, actions: seq<Action>, y: System)
    decreases |actions|
  {
    if actions == [] then x == y
    else
      Enabled(x, actions[0]) && (Duplicates(actions[0]) ==> dup) && Reaches(q, o, dup, Next(q, o, x, actions[0]), actions[1..], y)
  }

  /** The call reports success with exactly the object and its length. */
  ghost predicate HasObject(o: Object, m: Master) {
    Joined(m.copies) == o.content && m.received == |o.content|
  }

  /** Whatever server state the call meets and whatever happens, success means that the caller has the object. */
  ghost predicate AlwaysFetches(q: Query, o: Object, dup: bool) {
    forall server: Server, actions: seq<Action>, y: System ::
      Reaches(q, o, dup, Initial(q, server), actions, y) && y.master.phase == Finished(Success) ==> HasObject(o, y.master)
  }

  /** The master does not go on when its initiate request is refused: the refusal reads as an abort there too, or names
      another object, or its code is too big for a size. */
  predicate Declines(q: Query, f: Refusal) {
    InitSpecifier(f.command) == ABORT || f.index != q.index || f.subindex != q.subindex || f.code > q.capacity
  }

  /** When that is so, if refusals are understood: the size is shown, or the buffer cannot be filled by what is not the object. Without a size an
      expedited answer is taken for four bytes, a transfer also ends when the buffer is full, and a repeated initiate
      response reads as a segment of six bytes. */
  predicate Safe(q: Query, o: Object, dup: bool) {
    var size := |o.content|;
    || o.sized
    || (o.Expedited() && (size == 4 || q.capacity < 4))
    || (!o.Expedited() && (q.capacity % 7 != 0 || q.capacity == 0 || size <= q.capacity) && (dup ==> RepeatIsHarmless(q, o)))
  }

  /** The six misread bytes are the object, or leave no way to end in success. */
  predicate RepeatIsHarmless(q: Query, o: Object) {
    && (q.capacity == 6 ==> o.content == InitiateBytes(q)[..6])
    && (|o.content| > 7 ==> q.capacity + 1 < |o.content| && q.capacity % 7 != 6)
  }

  // ---------- The invariant ----------

  /** The bytes of the object up to the start of segment k have been taken; or, behind a misread initiate response, as
      many but one. */
  ghost predicate Reading(q: Query, o: Object, m: Master, k: nat, misread: bool) {
    && !o.Expedited() && m.toggle == k % 2
    && if misread then k >= 1 && !o.sized && m.received == 7 * k - 1 && q.capacity != 6
       else HasSegment(o.content, k) && (o.sized ==> |o.content| <= q.capacity)
            && m.received == 7 * k && Joined(m.copies) == o.content[..7 * k]
  }

  function Position(m: Master): nat {
    (m.received + 1) / 7
  }

  predicate Misread(m: Master) {
    m.received % 7 == 6
  }

  /** The server has served k segments and is open unless the last of them was. */
  ghost predicate ServerAt(o: Object, s: Server, k: nat) {
    && s.served == k && s.toggle == k % 2 && (s.open <==> HasSegment(o.content, k))
  }

  /** The server has not met the request for segment k, or has closed the transfer. */
  ghost predicate ServerBefore(o: Object, s: Server, k: nat, misread: bool) {
    ServerAt(o, s, k) || (misread && k == 1 && ServerAt(o, s, 0)) || !s.open
  }

  /** A message the master takes for a segment with this toggle. */
  ghost predicate IsData(r: Message, toggle: nat) {
    r.IsResponse(8) && SegmentSpecifier(r.command) != ABORT && SegmentToggle(r.command) == toggle
  }

  ghost predicate IsSegment(o: Object, r: Message, k: nat) {
    HasSegment(o.content, k) && r == SegmentResponse(o.content, k)
  }

  ghost predicate NoSegment(o: Object, responses: seq<Message>, k: nat) {
    forall i :: 0 <= i < |responses| ==> !IsSegment(o, responses[i], k)
  }

  function KthRequest(k: nat): Request {
    Segment(k % 2)
  }

  /** A request from before the one for segment k. */
  predicate IsOld(q: Query, r: Request, k: nat, misread: bool) {
    if k == 0 then r == Initiate(q.index, q.subindex)
    else r == KthRequest(k - 1) || (misread && k == 1 && r == Initiate(q.index, q.subindex))
  }

  /** Requests under way while segment k is current: older ones, then copies of k. */
  ghost predicate RequestsOk(q: Query, requests: seq<Request>, k: nat, misread: bool) {
    && (forall i :: 0 <= i < |requests| ==> requests[i] == KthRequest(k) || IsOld(q, requests[i], k, misread))
    && (forall i, j :: 0 <= i < j < |requests| && requests[i] == KthRequest(k) ==> requests[j] == KthRequest(k))
  }

  /** Data with the toggle of k is segment k itself, or a repeated initiate response while k is 0; and no data with the
      old toggle comes after it. */
  ghost predicate ResponsesOk(q: Query, o: Object, responses: seq<Message>, k: nat) {
    && (forall i :: 0 <= i < |responses| && IsData(responses[i], k % 2) ==>
          IsSegment(o, responses[i], k) || (k == 0 && responses[i] == InitiateResponse(q, o)))
    && (forall i, j :: 0 <= i < j < |responses| && IsData(responses[i], k % 2) ==> !IsData(responses[j], 1 - k % 2))
    && (k == 0 ==> forall i :: 0 <= i < |responses| ==> !IsData(responses[i], 1))
  }

  /** Without duplication the one initiate request has been answered and its answer read. */
  ghost predicate Settled(q: Query, o: Object, dup: bool, y: System, k: nat, misread: bool) {
    !dup ==>
      && !misread
      && (k == 0 && !o.sized ==>
            Channel.NoneAre(y.requests, Initiate(q.index, q.subindex)) && Channel.NoneAre(y.responses, InitiateResponse(q, o)))
  }

  ghost predicate UnderWay(q: Query, o: Object, dup: bool, y: System, k: nat, misread: bool) {
    && Reading(q, o, y.master, k, misread) && Settled(q, o, dup, y, k, misread)
    && RequestsOk(q, y.requests, k, misread) && ResponsesOk(q, o, y.responses, k)
  }

  ghost predicate BeforeSend(q: Query, o: Object, dup: bool, y: System, k: nat, misread: bool) {
    && UnderWay(q, o, dup, y, k, misread)
    && ServerBefore(o, y.server, k, misread) && Channel.NoneAre(y.requests, KthRequest(k)) && NoSegment(o, y.responses, k)
  }

  ghost predicate AfterSend(q: Query, o: Object, dup: bool, y: System, k: nat, misread: bool) {
    && UnderWay(q, o, dup, y, k, misread)
    && (|| (ServerBefore(o, y.server, k, misread) && NoSegment(o, y.responses, k))
        || ((ServerAt(o, y.server, k + 1) || !y.server.open) && forall i :: 0 <= i < |y.requests| ==> y.requests[i] == KthRequest(k)))
  }

  ghost predicate NoResponses(responses: seq<Message>) {
    forall i :: 0 <= i < |responses| ==> !responses[i].IsResponse(8)
  }

  /** One initiate request or one SDO response, not both. */
  ghost predicate Once(requests: seq<Request>, responses: seq<Message>) {
    && |requests| <= 1 && (requests != [] ==> NoResponses(responses))
    && forall i, j :: 0 <= i < j < |responses| ==> !(responses[i].IsResponse(8) && responses[j].IsResponse(8))
  }

  /** No SDO response is under way but answers to the initiate request, and these only once the server has begun. */
  ghost predicate Initiating(q: Query, o: Object, dup: bool, y: System) {
    && y.master.copies == []
    && (forall i :: 0 <= i < |y.requests| ==> y.requests[i] == Initiate(q.index, q.subindex))
    && (forall i :: 0 <= i < |y.responses| && y.responses[i].IsResponse(8) ==>
          || y.responses[i] == RefusalResponse(o.refusal)
          || (y.responses[i] == InitiateResponse(q, o) && (o.Expedited() || ServerBefore(o, y.server, 0, false))))
    && (!dup ==> Once(y.requests, y.responses))
  }

  ghost predicate Invariant(q: Query, o: Object, dup: bool, y: System) {
    match y.master.phase
    case SendInitiate => y.master.copies == [] && y.requests == [] && NoResponses(y.responses)
    case AwaitInitiate => Initiating(q, o, dup, y)
    case SendSegment => BeforeSend(q, o, dup, y, Position(y.master), Misread(y.master))
    case AwaitSegment => AfterSend(q, o, dup, y, Position(y.master), Misread(y.master))
    case Finished(status) => status == Success ==> HasObject(o, y.master)
  }

  // ---------- What the master makes of the server's messages ----------

  lemma InitiateFields(o: Object)
    ensures var c := InitiateCommand(o);
      && InitSpecifier(c) == 2 && (InitExpedited(c) == 1 <==> o.Expedited()) && SegmentToggle(c) == 0
      && (o.Expedited() ==> InitUnused(c) == if o.sized then 4 - |o.content| else 0)
      && (!o.Expedited() && o.sized ==> SegmentSpecifier(c) == ABORT)
      && (!o.Expedited() && !o.sized ==> SegmentSpecifier(c) == 0 && SegmentUnused(c) == 1 && SegmentLast(c) == 0)
  {
  }

  lemma SegmentFields(content: seq<byte>, k: nat)
    requires HasSegment(content, k)
    ensures var c := SegmentCommand(content, k);
      && SegmentToggle(c) == k % 2 && SegmentUnused(c) == 7 - |ObjectSegment(content, k)|
      && (SegmentLast(c) == 1 <==> IsLastSegment(content, k)) && SegmentSpecifier(c) == 0
  {
    SegmentCommandFields(k % 2, 7 - |ObjectSegment(content, k)|, IsLastSegment(content, k));
  }

  lemma SegmentIsData(o: Object, r: Message, k: nat)
    requires IsSegment(o, r, k)
    ensures IsData(r, k % 2) && !IsData(r, 1 - k % 2)
  {
    SegmentFields(o.content, k);
    hide SegmentCommand, SegmentToggle, SegmentSpecifier;
  }

  lemma AbortIsNoData(q: Query, o: Object)
    ensures (forall t :: !IsData(AbortResponse(), t)) && AbortResponse() != InitiateResponse(q, o)
    ensures (forall t :: !IsData(RefusalResponse(o.refusal), t))
    ensures !o.Expedited() && !o.sized ==> RefusalResponse(o.refusal) != InitiateResponse(q, o)
  {
    InitiateFields(o);
    hide InitiateCommand;
  }

  /** A repeated answer to the initiate request of a segmented upload reads as an abort if it shows the size, else as
      data with toggle 0; it never equals a segment. */
  lemma RepeatedInitiate(q: Query, o: Object)
    requires !o.Expedited()
    ensures !IsData(InitiateResponse(q, o), 1) && (IsData(InitiateResponse(q, o), 0) <==> !o.sized)
    ensures forall k :: !IsSegment(o, InitiateResponse(q, o), k)
  {
    InitiateFields(o);
    forall k | HasSegment(o.content, k)
      ensures InitiateCommand(o) != SegmentCommand(o.content, k)
    {
      SegmentFields(o.content, k);
      hide InitiateCommand, SegmentCommand, SegmentToggle, SegmentUnused, SegmentLast, SegmentSpecifier;
    }
    hide InitiateCommand, SegmentCommand, SegmentToggle, SegmentUnused, SegmentLast, SegmentSpecifier;
  }

  // ---------- Losing and duplicating keep what is under way in order ----------

  lemma RequestsDrawn(q: Query, from: seq<Request>, to: seq<Request>, f: seq<nat>, k: nat, misread: bool)
    requires RequestsOk(q, from, k, misread) && Channel.Drawn(from, to, f)
    ensures RequestsOk(q, to, k, misread)
  {
    forall i, j | 0 <= i < j < |to| && to[i] == KthRequest(k)
      ensures to[j] == KthRequest(k)
    {
      assert f[i] == f[j] || f[i] < f[j];
    }
  }

  lemma ResponsesDrawn(q: Query, o: Object, from: seq<Message>, to: seq<Message>, f: seq<nat>, k: nat)
    requires ResponsesOk(q, o, from, k) && Channel.Drawn(from, to, f)
    ensures ResponsesOk(q, o, to, k)
    ensures NoSegment(o, from, k) ==> NoSegment(o, to, k)
  {
    hide IsSegment, InitiateResponse, SegmentSpecifier, SegmentToggle, Message.IsResponse;
    forall i, j | 0 <= i < j < |to| && IsData(to[i], k % 2)
      ensures !IsData(to[j], 1 - k % 2)
    {
      assert f[i] == f[j] || f[i] < f[j];
    }
  }

  lemma UnderWayDrawn(q: Query, o: Object, dup: bool, y: System, k: nat, misread: bool, requests: seq<Request>, f: seq<nat>,
                      responses: seq<Message>, g: seq<nat>)
    requires UnderWay(q, o, dup, y, k, misread)
    requires Channel.Drawn(y.requests, requests, f) && Channel.Drawn(y.responses, responses, g)
    ensures UnderWay(q, o, dup, y.(requests := requests, responses := responses), k, misread)
    ensures NoSegment(o, y.responses, k) ==> NoSegment(o, responses, k)
  {
    RequestsDrawn(q, y.requests, requests, f, k, misread);
    ResponsesDrawn(q, o, y.responses, responses, g, k);
    hide Reading, RequestsOk, ResponsesOk, InitiateResponse;
  }

  lemma DrawnKeepsInvariant(q: Query, o: Object, dup: bool, y: System, requests: seq<Request>, f: seq<nat>,
                            responses: seq<Message>, g: seq<nat>)
    requires Invariant(q, o, dup, y)
    requires Channel.Drawn(y.requests, requests, f) && Channel.Drawn(y.responses, responses, g)
    requires Once(y.requests, y.responses) && !dup ==> Once(requests, responses)
    ensures Invariant(q, o, dup, y.(requests := requests, responses := responses))
  {
    hide UnderWay, InitiateResponse, ServerAt, ServerBefore, Once, Message.IsResponse;
    match y.master.phase
    case SendInitiate => Channel.DrawnFromNothing(y.requests, requests, f);
    case AwaitInitiate =>
    case SendSegment =>
      UnderWayDrawn(q, o, dup, y, Position(y.master), Misread(y.master), requests, f, responses, g);
    case AwaitSegment =>
      UnderWayDrawn(q, o, dup, y, Position(y.master), Misread(y.master), requests, f, responses, g);
    case Finished(status) =>
  }

  lemma OnceWithoutRequest(requests: seq<Request>, responses: seq<Message>, at: nat)
    requires Once(requests, responses) && at < |requests|
    ensures Once(Channel.Without(requests, at), responses)
  {
    hide Message.IsResponse;
  }

  lemma OnceWithoutResponse(requests: seq<Request>, responses: seq<Message>, at: nat)
    requires Once(requests, responses) && at < |responses|
    ensures Once(requests, Channel.Without(responses, at))
  {
    hide Message.IsResponse;
    var rest := Channel.Without(responses, at);
    forall i | 0 <= i < |rest|
      ensures rest[i] == responses[if i < at then i else i + 1]
    {
    }
  }

  // ---------- Every action keeps the invariant ----------

  /** A response from before segment k is served. */
  lemma AppendOld(q: Query, o: Object, responses: seq<Message>, r: Message, k: nat)
    requires ResponsesOk(q, o, responses, k) && NoSegment(o, responses, k) && !IsSegment(o, r, k)
    requires !IsData(r, k % 2) || (k == 0 && r == InitiateResponse(q, o))
    requires k == 0 ==> !IsData(r, 1)
    ensures ResponsesOk(q, o, responses + [r], k) && NoSegment(o, responses + [r], k)
  {
    hide IsData, IsSegment, InitiateResponse;
  }

  /** Segment k, or no data. */
  lemma AppendNew(q: Query, o: Object, responses: seq<Message>, r: Message, k: nat)
    requires ResponsesOk(q, o, responses, k) && (IsSegment(o, r, k) || forall t :: !IsData(r, t))
    ensures ResponsesOk(q, o, responses + [r], k)
    ensures NoSegment(o, responses, k) && !IsSegment(o, r, k) ==> NoSegment(o, responses + [r], k)
  {
    if IsSegment(o, r, k) {
      SegmentIsData(o, r, k);
    }
    hide IsData, IsSegment, InitiateResponse;
  }

  /** What a server that has not met request k makes of an older one. */
  lemma ServeOld(q: Query, o: Object, s: Server, r: Request, k: nat, misread: bool, v: Verdict)
    requires !o.Expedited() && ServerBefore(o, s, k, misread) && IsOld(q, r, k, misread)
    ensures var (s', m) := Respond(q, o, s, r, v);
      && ServerBefore(o, s', k, misread) && !IsSegment(o, m, k)
      && (!IsData(m, k % 2) || (k == 0 && m == InitiateResponse(q, o))) && (k == 0 ==> !IsData(m, 1))
  {
    RepeatedInitiate(q, o);
    AbortIsNoData(q, o);
    hide InitiateResponse, AbortResponse, SegmentResponse, RefusalResponse, IsData;
    var m := Respond(q, o, s, r, v).1;
    if m != InitiateResponse(q, o) && m != AbortResponse() && v == Serves {
      assert IsSegment(o, m, k - 1);
      SegmentIsData(o, m, k - 1);
    }
    if IsSegment(o, m, k) {
      SegmentIsData(o, m, k);
    }
  }

  lemma DeliverOld(q: Query, o: Object, dup: bool, y: System, k: nat, misread: bool, reply: bool, v: Verdict)
    requires UnderWay(q, o, dup, y, k, misread) && ServerBefore(o, y.server, k, misread) && NoSegment(o, y.responses, k)
    requires y.requests != [] && IsOld(q, y.requests[0], k, misread)
    ensures var z := Next(q, o, y, Deliver(reply, v));
      UnderWay(q, o, dup, z, k, misread) && ServerBefore(o, z.server, k, misread) && NoSegment(o, z.responses, k)
  {
    var (s, r) := Respond(q, o, y.server, y.requests[0], v);
    ServeOld(q, o, y.server, y.requests[0], k, misread, v);
    AppendOld(q, o, y.responses, r, k);
    var f := Channel.DrawnTail(y.requests);
    RequestsDrawn(q, y.requests, y.requests[1..], f, k, misread);
    assert k == 0 && !o.sized ==> dup;
    hide Respond, ServerBefore, ResponsesOk, RequestsOk, NoSegment, InitiateResponse, Reading;
  }

  /** What the server makes of request k, when only copies of it are left behind. */
  lemma ServeCurrent(q: Query, o: Object, s: Server, k: nat, misread: bool)
    requires ServerBefore(o, s, k, misread) || ServerAt(o, s, k + 1)
    ensures var (s', m) := Serve(q, o, s, KthRequest(k));
      && (if ServerAt(o, s, k) && HasSegment(o.content, k) then ServerAt(o, s', k + 1) && IsSegment(o, m, k)
          else s' == s && m == AbortResponse())
  {
    hide SegmentResponse, AbortResponse;
  }

  lemma SegmentIsNotInitiate(q: Query, o: Object, k: nat)
    requires !o.Expedited() && HasSegment(o.content, k)
    ensures SegmentResponse(o.content, k) != InitiateResponse(q, o)
  {
    RepeatedInitiate(q, o);
    hide SegmentResponse, InitiateResponse;
    assert !IsSegment(o, InitiateResponse(q, o), k);
  }

  lemma DeliverCurrent(q: Query, o: Object, dup: bool, y: System, k: nat, misread: bool, reply: bool, v: Verdict)
    requires AfterSend(q, o, dup, y, k, misread) && y.requests != [] && y.requests[0] == KthRequest(k)
    ensures AfterSend(q, o, dup, Next(q, o, y, Deliver(reply, v)), k, misread)
  {
    var r := Respond(q, o, y.server, y.requests[0], v).1;
    ServeCurrent(q, o, y.server, k, misread);
    AbortIsNoData(q, o);
    if HasSegment(o.content, k) {
      SegmentIsNotInitiate(q, o, k);
    }
    if IsSegment(o, r, k) {
      SegmentIsData(o, r, k);
    }
    AppendNew(q, o, y.responses, r, k);
    var f := Channel.DrawnTail(y.requests);
    RequestsDrawn(q, y.requests, y.requests[1..], f, k, misread);
    forall i | 0 <= i < |y.requests| - 1
      ensures y.requests[1..][i] == KthRequest(k)
    {
      assert y.requests[i + 1] == KthRequest(k);
    }
    hide Serve, ServerAt, ResponsesOk, RequestsOk, InitiateResponse, SegmentResponse, AbortResponse, RefusalResponse, Reading, IsData;
  }

  lemma DeliverInitiate(q: Query, o: Object, dup: bool, y: System, reply: bool, v: Verdict)
    requires Initiating(q, o, dup, y) && y.requests != []
    ensures Initiating(q, o, dup, Next(q, o, y, Deliver(reply, v)))
  {
    assert y.requests[0] == Initiate(q.index, q.subindex);
    hide InitiateCommand, InitiateBytes;
  }

  lemma DeliverKeepsInvariant(q: Query, o: Object, dup: bool, y: System, reply: bool, v: Verdict)
    requires Invariant(q, o, dup, y) && y.requests != []
    ensures Invariant(q, o, dup, Next(q, o, y, Deliver(reply, v)))
  {
    var k, misread := Position(y.master), Misread(y.master);
    hide Position, Misread, Initiating, UnderWay, ServerBefore, ServerAt, NoSegment, NoResponses, Respond;
    match y.master.phase
    case SendInitiate =>
    case AwaitInitiate => DeliverInitiate(q, o, dup, y, reply, v);
    case SendSegment =>
      FirstIsOld(q, o, dup, y, k, misread);
      DeliverOld(q, o, dup, y, k, misread, reply, v);
    case AwaitSegment =>
      if y.requests[0] == KthRequest(k) {
        DeliverCurrent(q, o, dup, y, k, misread, reply, v);
      } else {
        FirstIsOld(q, o, dup, y, k, misread);
        DeliverOld(q, o, dup, y, k, misread, reply, v);
      }
    case Finished(status) =>
  }

  lemma FirstIsOld(q: Query, o: Object, dup: bool, y: System, k: nat, misread: bool)
    requires UnderWay(q, o, dup, y, k, misread) && y.requests != [] && y.requests[0] != KthRequest(k)
    ensures IsOld(q, y.requests[0], k, misread)
  {
    hide Reading, Settled, ResponsesOk;
  }

  lemma SendsSegment(q: Query, o: Object, dup: bool, y: System, k: nat, misread: bool, m: Master)
    requires BeforeSend(q, o, dup, y, k, misread) && m == y.master.(phase := AwaitSegment)
    ensures AfterSend(q, o, dup, y.(master := m, requests := y.requests + [KthRequest(k)]), k, misread)
  {
    hide ResponsesOk, ServerBefore, NoSegment, InitiateResponse, HasSegment, Joined;
  }

  lemma MasterStepKeepsInvariant(q: Query, o: Object, dup: bool, y: System, sendOk: bool, timedOut: bool)
    requires Invariant(q, o, dup, y)
    ensures Invariant(q, o, dup, Next(q, o, y, MasterStep(sendOk, timedOut)))
  {
    var z := Next(q, o, y, MasterStep(sendOk, timedOut));
    if y.master.phase.SendSegment? {
      var k, misread := Position(y.master), Misread(y.master);
      assert y.master.toggle == k % 2;
      hide BeforeSend, AfterSend, Initiating;
      if sendOk {
        SendsSegment(q, o, dup, y, k, misread, z.master);
      }
    } else {
      hide UnderWay, InitiateResponse, ServerBefore, NoSegment, Message.IsResponse, ServerAt;
      assert !y.master.phase.SendInitiate? ==> z.requests == y.requests;
    }
  }

  // ---------- The answer to the initiate request ----------

  /** An expedited answer is read as the object, or as four bytes if it shows no size. */
  lemma ReadsExpedited(q: Query, o: Object, m: Master)
    requires o.Expedited()
    ensures OnInitiateResponse(q, m, InitiateResponse(q, o)) ==
      OnExpedited(q, m, if o.sized then o.content else Filled(o.content)[..4])
  {
    InitiateFields(o);
    hide InitiateCommand, InitSpecifier, InitUnused, InitExpedited, OnExpedited, InitiateBytes;
    assert Filled(o.content)[..|o.content|] == o.content;
  }

  lemma OneCopy(value: seq<byte>)
    ensures Joined([Copy(0, value, Mark(0, true))]) == value
  {
    JoinedAppend([], Copy(0, value, Mark(0, true)));
    assert [] + [Copy(0, value, Mark(0, true))] == [Copy(0, value, Mark(0, true))];
    assert Joined<Mark>([]) == [] by {
      EmptyIsSound(Query(0, 0, 0));
    }
  }

  lemma ExpeditedGives(q: Query, o: Object, m: Master)
    requires o.Expedited() && m.phase.AwaitInitiate? && (o.sized || |o.content| == 4 || q.capacity < 4)
    ensures var m' := OnInitiateResponse(q, m, InitiateResponse(q, o));
      m'.phase.Finished? && (m'.phase == Finished(Success) ==> HasObject(o, m'))
  {
    ReadsExpedited(q, o, m);
    OneCopy(o.content);
    assert |o.content| == 4 ==> Filled(o.content)[..4] == o.content;
    hide OnInitiateResponse, InitiateResponse, Joined;
  }

  lemma SegmentedBegins(q: Query, o: Object, dup: bool, y: System, z: System)
    requires Initiating(q, o, dup, y) && y.responses != [] && y.responses[0] == InitiateResponse(q, o) && !o.Expedited()
    requires y.responses[0] != RefusalResponse(o.refusal) && (o.sized ==> |o.content| <= q.capacity)
    requires z == y.(master := Master(SendSegment, 0, 0, []), responses := y.responses[1..])
    ensures BeforeSend(q, o, dup, z, 0, false)
  {
    RepeatedInitiate(q, o);
    AbortIsNoData(q, o);
    RefusalIsNoSegment(o);
    assert y.responses[0].IsResponse(8);
    assert Joined<Mark>([]) == o.content[..0];
    forall i | 0 <= i < |z.responses|
      ensures z.responses[i].IsResponse(8) ==>
        z.responses[i] == InitiateResponse(q, o) || z.responses[i] == RefusalResponse(o.refusal)
      ensures !dup ==> !z.responses[i].IsResponse(8)
    {
      assert z.responses[i] == y.responses[i + 1];
    }
    hide InitiateResponse, RefusalResponse, Joined, ServerAt;
  }

  lemma RefusalIsNoSegment(o: Object)
    ensures forall k :: !IsSegment(o, RefusalResponse(o.refusal), k)
  {
    forall k: nat
      ensures !IsSegment(o, RefusalResponse(o.refusal), k)
    {
      if HasSegment(o.content, k) {
        SegmentFields(o.content, k);
        hide SegmentCommand, SegmentSpecifier;
      }
    }
  }

  lemma ReceiveInitiate(q: Query, o: Object, dup: bool, y: System)
    requires Declines(q, o.refusal) && Safe(q, o, dup)
    requires Initiating(q, o, dup, y) && y.master.phase.AwaitInitiate? && y.responses != []
    ensures Invariant(q, o, dup, Next(q, o, y, MasterReceive))
  {
    var z := Next(q, o, y, MasterReceive);
    assert z.requests == y.requests;
    if y.responses[0] == RefusalResponse(o.refusal) {
      RefusalDeclines(q, o, y.master);
      StillInitiating(q, o, dup, y, y.(responses := y.responses[1..]));
      hide Initiating, RefusalResponse;
    } else if y.responses[0].IsResponse(8) {
      assert y.responses[0] == InitiateResponse(q, o);
      if o.Expedited() {
        ExpeditedGives(q, o, y.master);
      } else {
        BeginsOrFails(q, o, y.master);
        if o.sized ==> |o.content| <= q.capacity {
          SegmentedBegins(q, o, dup, y, z);
        }
        hide BeforeSend, InitiateResponse;
      }
    } else {
      StillInitiating(q, o, dup, y, z);
    }
  }

  /** A refused initiate request ends the call, or the refusal is skipped. */
  lemma RefusalDeclines(q: Query, o: Object, m: Master)
    requires Declines(q, o.refusal)
    ensures var m' := OnInitiateResponse(q, m, RefusalResponse(o.refusal));
      m' == m || m' == m.(phase := Finished(Abort)) || m' == m.(phase := Finished(Error))
  {
    SpecifierBits(o.refusal.command);
    hide InitSpecifier, InitExpedited, SegmentSpecifier;
  }

  /** Specifier 4 in the top three bits leaves the expedited bit clear. */
  lemma SpecifierBits(command: nat)
    requires SegmentSpecifier(command) == ABORT
    ensures InitExpedited(command) == 0
  {
    var high, low := command / 32 / 8, command % 32;
    assert command / 32 == 8 * high + 4;
    assert command == 64 * (4 * high + 2) + low;
    assert command / 64 == 4 * high + 2;
  }

  lemma BeginsOrFails(q: Query, o: Object, m: Master)
    requires !o.Expedited()
    ensures OnInitiateResponse(q, m, InitiateResponse(q, o)) ==
      if o.sized && |o.content| > q.capacity then m.(phase := Finished(Error)) else Master(SendSegment, 0, 0, [])
  {
    InitiateFields(o);
    hide InitiateCommand, InitSpecifier, InitUnused, InitExpedited, InitiateBytes;
  }

  lemma StillInitiating(q: Query, o: Object, dup: bool, y: System, z: System)
    requires Initiating(q, o, dup, y) && y.responses != [] && z == y.(responses := y.responses[1..])
    ensures Initiating(q, o, dup, z)
  {
    hide InitiateResponse, RefusalResponse, ServerAt, Message.IsResponse;
  }

  // ---------- A segment arrives ----------

  /** What the caller is getting: the object, or its tail behind a misread initiate response. */
  function Text(q: Query, o: Object, misread: bool): seq<byte>
    requires misread ==> |o.content| >= 7
  {
    if misread then InitiateBytes(q)[..6] + o.content[7..] else o.content
  }

  lemma ReadsSegment(q: Query, content: seq<byte>, m: Master, k: nat)
    requires HasSegment(content, k) && m.toggle == k % 2
    ensures OnSegmentResponse(q, m, SegmentResponse(content, k)) == OnSegment(q, m, IsLastSegment(content, k), ObjectSegment(content, k))
  {
    SegmentFields(content, k);
    hide SegmentCommand, SegmentToggle, SegmentUnused, SegmentLast, SegmentSpecifier, OnSegment, IsLastSegment, IsData;
    var bytes := ObjectSegment(content, k);
    assert Filled(bytes)[..|bytes|] == bytes;
  }

  lemma SegmentPlaces(content: seq<byte>, k: nat)
    requires HasSegment(content, k)
    ensures 7 * k <= |content|
    ensures 7 * k + |ObjectSegment(content, k)| == if IsLastSegment(content, k) then |content| else 7 * (k + 1)
    ensures !IsLastSegment(content, k) ==> HasSegment(content, k + 1) && 7 * (k + 1) < |content|
    ensures content[..7 * k] + ObjectSegment(content, k) == if IsLastSegment(content, k) then content else content[..7 * (k + 1)]
  {
  }

  /** The sum does not wrap while it stays below the length of an object. */
  lemma TakesBytes(q: Query, m: Master, last: bool, bytes: seq<byte>)
    requires |bytes| <= 7 && m.received + |bytes| < WORD
    ensures OnSegment(q, m, last, bytes) ==
      if m.received + |bytes| > q.capacity then m.(phase := Finished(Error))
      else Master(if !last && m.received + |bytes| < q.capacity then SendSegment else Finished(Success), m.received + |bytes|,
                  1 - m.toggle % 2, m.copies + [Copy(m.received, bytes, Mark(m.toggle, last))])
    ensures m.received + |bytes| <= q.capacity ==> Joined(OnSegment(q, m, last, bytes).copies) == Joined(m.copies) + bytes
  {
    JoinedAppend(m.copies, Copy(m.received, bytes, Mark(m.toggle, last)));
    hide Joined;
  }

  /** The master takes segment k where it belongs. */
  lemma TakeSegment(q: Query, o: Object, m: Master, k: nat)
    requires Reading(q, o, m, k, false)
    requires o.sized || q.capacity % 7 != 0 || q.capacity == 0 || |o.content| <= q.capacity
    ensures var m' := OnSegmentResponse(q, m, SegmentResponse(o.content, k));
      || (m'.phase.Finished? && (m'.phase == Finished(Success) ==> HasObject(o, m')))
      || (m'.phase == SendSegment && Reading(q, o, m', k + 1, false))
  {
    ReadsSegment(q, o.content, m, k);
    SegmentPlaces(o.content, k);
    var bytes := ObjectSegment(o.content, k);
    TakesBytes(q, m, IsLastSegment(o.content, k), bytes);
    SevenDivides(k + 1);
    hide OnSegmentResponse, SegmentResponse, OnSegment, ObjectSegment, IsLastSegment, Joined, HasSegment;
  }

  lemma SevenDivides(k: nat)
    ensures 7 * k % 7 == 0 && (k > 0 ==> (7 * k - 1) % 7 == 6)
  {
  }

  /** The master takes segment k one byte too early. */
  lemma TakeShifted(q: Query, o: Object, m: Master, k: nat)
    requires Reading(q, o, m, k, true) && HasSegment(o.content, k) && RepeatIsHarmless(q, o)
    ensures var m' := OnSegmentResponse(q, m, SegmentResponse(o.content, k));
      m'.phase == Finished(Error) || (m'.phase == SendSegment && Reading(q, o, m', k + 1, true))
  {
    ReadsSegment(q, o.content, m, k);
    SegmentPlaces(o.content, k);
    var bytes := ObjectSegment(o.content, k);
    TakesBytes(q, m, IsLastSegment(o.content, k), bytes);
    SevenDivides(k + 1);
    hide OnSegmentResponse, SegmentResponse, OnSegment, ObjectSegment, IsLastSegment, Joined;
  }

  /** The master takes a repeated initiate response for six bytes. */
  lemma TakeRepeat(q: Query, o: Object, m: Master)
    requires Reading(q, o, m, 0, false) && !o.sized
    ensures var m' := OnSegmentResponse(q, m, InitiateResponse(q, o));
      if q.capacity < 6 then m' == m.(phase := Finished(Error))
      else m'.received == 6 && Joined(m'.copies) == InitiateBytes(q)[..6] && m'.toggle == 1
           && m'.phase == if q.capacity == 6 then Finished(Success) else SendSegment
  {
    InitiateFields(o);
    TakesBytes(q, m, false, InitiateBytes(q)[..6]);
    hide InitiateCommand, SegmentToggle, SegmentUnused, SegmentLast, SegmentSpecifier, OnSegment, InitiateBytes, Joined;
  }

  /** Data of the current toggle is behind all requests older than k, unless it is a repeated initiate response. */
  lemma NextSegmentReady(q: Query, o: Object, dup: bool, y: System, k: nat, misread: bool, m: Master, misread': bool)
    requires AfterSend(q, o, dup, y, k, misread) && y.responses != [] && IsData(y.responses[0], k % 2)
    requires IsSegment(o, y.responses[0], k) || (k == 0 && misread')
    requires Reading(q, o, m, k + 1, misread') && (misread ==> misread') && (misread' ==> dup)
    ensures BeforeSend(q, o, dup, y.(responses := y.responses[1..], master := m), k + 1, misread')
  {
    var rest := y.responses[1..];
    assert 1 - k % 2 == (k + 1) % 2;
    NoneBehind(q, o, y.responses, k);
    if !NoSegment(o, rest, k + 1) {
      var i :| 0 <= i < |rest| && IsSegment(o, rest[i], k + 1);
      SegmentIsData(o, rest[i], k + 1);
    }
    hide Reading, IsData, IsSegment, ServerAt, HasSegment;
    assert ResponsesOk(q, o, rest, k + 1);
    forall i | 0 <= i < |y.requests|
      ensures IsOld(q, y.requests[i], k + 1, misread') && y.requests[i] != KthRequest(k + 1)
    {
    }
  }

  lemma NoneBehind(q: Query, o: Object, responses: seq<Message>, k: nat)
    requires ResponsesOk(q, o, responses, k) && responses != [] && IsData(responses[0], k % 2)
    ensures forall i :: 0 <= i < |responses[1..]| ==> !IsData(responses[1..][i], (k + 1) % 2)
  {
    hide IsData, IsSegment, InitiateResponse;
    var rest := responses[1..];
    forall i | 0 <= i < |rest|
      ensures !IsData(rest[i], (k + 1) % 2)
    {
      assert rest[i] == responses[i + 1];
      assert (k + 1) % 2 == 1 - k % 2;
    }
  }

  lemma ReceiveIs(q: Query, o: Object, y: System)
    requires y.master.phase.AwaitSegment? && y.responses != []
    ensures Next(q, o, y, MasterReceive) ==
      y.(responses := y.responses[1..], master := OnSegmentResponse(q, y.master, y.responses[0]))
  {
    assert y.requests + [] == y.requests;
  }

  lemma PositionOf(q: Query, o: Object, m: Master, k: nat, misread: bool)
    requires Reading(q, o, m, k, misread)
    ensures Position(m) == k && Misread(m) == misread
  {
  }

  lemma SendingInvariant(q: Query, o: Object, dup: bool, z: System, k: nat, misread: bool)
    requires z.master.phase == SendSegment && BeforeSend(q, o, dup, z, k, misread)
    ensures Invariant(q, o, dup, z)
  {
    PositionOf(q, o, z.master, k, misread);
  }

  lemma FinishedInvariant(q: Query, o: Object, dup: bool, z: System)
    requires z.master.phase.Finished? && (z.master.phase == Finished(Success) ==> HasObject(o, z.master))
    ensures Invariant(q, o, dup, z)
  {
  }

  /** The first response, if it is data of the current toggle. */
  lemma FirstData(q: Query, o: Object, dup: bool, y: System, k: nat, misread: bool)
    requires AfterSend(q, o, dup, y, k, misread) && y.responses != [] && IsData(y.responses[0], k % 2)
    ensures Reading(q, o, y.master, k, misread) && !o.Expedited() && (misread ==> dup && !o.sized)
    ensures IsSegment(o, y.responses[0], k) || (k == 0 && !misread && !o.sized && dup && y.responses[0] == InitiateResponse(q, o))
  {
    RepeatedInitiate(q, o);
    hide IsData, IsSegment, InitiateResponse, RequestsOk, ServerAt, Joined;
  }

  lemma ReceiveSegmentData(q: Query, o: Object, dup: bool, y: System, k: nat, misread: bool)
    requires Safe(q, o, dup) && AfterSend(q, o, dup, y, k, misread) && y.master.phase.AwaitSegment?
    requires y.responses != [] && IsData(y.responses[0], k % 2) && IsSegment(o, y.responses[0], k)
    ensures Invariant(q, o, dup, Next(q, o, y, MasterReceive))
  {
    ReceiveIs(q, o, y);
    FirstData(q, o, dup, y, k, misread);
    assert HasSegment(o.content, k) && y.responses[0] == SegmentResponse(o.content, k);
    hide *;
    var m := OnSegmentResponse(q, y.master, y.responses[0]);
    var z := y.(responses := y.responses[1..], master := m);
    SafeMeans(q, o, dup);
    if misread {
      TakeShifted(q, o, y.master, k);
    } else {
      TakeSegment(q, o, y.master, k);
    }
    if m.phase.Finished? {
      FinishedInvariant(q, o, dup, z);
    } else {
      NextSegmentReady(q, o, dup, y, k, misread, m, misread);
      SendingInvariant(q, o, dup, z, k + 1, misread);
    }
  }

  lemma SafeMeans(q: Query, o: Object, dup: bool)
    requires Safe(q, o, dup) && !o.Expedited()
    ensures o.sized || q.capacity % 7 != 0 || q.capacity == 0 || |o.content| <= q.capacity
    ensures dup && !o.sized ==> RepeatIsHarmless(q, o)
  {
    hide RepeatIsHarmless;
  }

  lemma ReceiveRepeat(q: Query, o: Object, dup: bool, y: System)
    requires Safe(q, o, dup) && AfterSend(q, o, dup, y, 0, false) && y.master.phase.AwaitSegment?
    requires y.responses != [] && IsData(y.responses[0], 0) && y.responses[0] == InitiateResponse(q, o)
    ensures Invariant(q, o, dup, Next(q, o, y, MasterReceive))
  {
    ReceiveIs(q, o, y);
    FirstData(q, o, dup, y, 0, false);
    RepeatedInitiate(q, o);
    assert dup && !o.sized;
    SafeMeans(q, o, dup);
    TakeRepeat(q, o, y.master);
    var m := OnSegmentResponse(q, y.master, y.responses[0]);
    var z := y.(responses := y.responses[1..], master := m);
    hide OnSegmentResponse, InitiateResponse, Joined, InitiateBytes, AfterSend, BeforeSend, IsData;
    if !m.phase.Finished? {
      NextSegmentReady(q, o, dup, y, 0, false, m, true);
      SendingInvariant(q, o, dup, z, 1, true);
    }
  }

  /** Whatever else arrives ends the call or is skipped. */
  lemma ReceiveOther(q: Query, o: Object, dup: bool, y: System, k: nat, misread: bool)
    requires AfterSend(q, o, dup, y, k, misread) && y.master.phase.AwaitSegment?
    requires y.responses != [] && !IsData(y.responses[0], k % 2)
    ensures var z := Next(q, o, y, MasterReceive);
      z.master.phase == Finished(Abort) || z.master.phase == Finished(Error)
      || (z.master == y.master && AfterSend(q, o, dup, z, k, misread))
  {
    ReceiveIs(q, o, y);
    var f := Channel.Identity(y.requests);
    var g := Channel.DrawnTail(y.responses);
    UnderWayDrawn(q, o, dup, y, k, misread, y.requests, f, y.responses[1..], g);
    PositionOf(q, o, y.master, k, misread);
    assert y.master.toggle == k % 2;
    hide Next, UnderWay, ServerBefore, ServerAt, NoSegment, OnSegment, SegmentToggle, SegmentUnused, SegmentLast, SegmentSpecifier;
  }

  lemma ReceiveSegment(q: Query, o: Object, dup: bool, y: System)
    requires Safe(q, o, dup) && Invariant(q, o, dup, y) && y.master.phase.AwaitSegment? && y.responses != []
    ensures Invariant(q, o, dup, Next(q, o, y, MasterReceive))
  {
    var k, misread := Position(y.master), Misread(y.master);
    hide Safe, Position, Misread, Next, AfterSend, BeforeSend, IsData, IsSegment, InitiateResponse;
    if IsData(y.responses[0], k % 2) {
      FirstData(q, o, dup, y, k, misread);
      if IsSegment(o, y.responses[0], k) {
        ReceiveSegmentData(q, o, dup, y, k, misread);
      } else {
        ReceiveRepeat(q, o, dup, y);
      }
    } else {
      ReceiveOther(q, o, dup, y, k, misread);
    }
  }

  lemma UnrelatedKeepsInvariant(q: Query, o: Object, dup: bool, y: System, m: Message)
    requires Invariant(q, o, dup, y) && !m.IsResponse(8)
    ensures Invariant(q, o, dup, Next(q, o, y, Unrelated(m)))
  {
    var k, misread := Position(y.master), Misread(y.master);
    if y.master.phase.SendSegment? || y.master.phase.AwaitSegment? {
      AppendUnrelated(q, o, dup, y, k, misread, m);
      hide Position, Misread, UnderWay, ServerBefore, ServerAt, NoSegment;
    } else {
      hide InitiateResponse, ServerAt, Message.IsResponse;
    }
  }

  lemma AppendUnrelated(q: Query, o: Object, dup: bool, y: System, k: nat, misread: bool, m: Message)
    requires UnderWay(q, o, dup, y, k, misread) && !m.IsResponse(8)
    ensures UnderWay(q, o, dup, y.(responses := y.responses + [m]), k, misread)
    ensures NoSegment(o, y.responses, k) ==> NoSegment(o, y.responses + [m], k)
  {
    AppendNew(q, o, y.responses, m, k);
    hide Reading, ResponsesOk, RequestsOk;
  }

  lemma NextKeepsInvariant(q: Query, o: Object, dup: bool, y: System, a: Action)
    requires Declines(q, o.refusal) && Safe(q, o, dup) && Invariant(q, o, dup, y) && Enabled(y, a) && (Duplicates(a) ==> dup)
    ensures Invariant(q, o, dup, Next(q, o, y, a))
  {
    match a
    case MasterStep(sendOk, timedOut) => MasterStepKeepsInvariant(q, o, dup, y, sendOk, timedOut);
    case MasterReceive =>
      if y.master.phase.AwaitInitiate? {
        ReceiveInitiate(q, o, dup, y);
      } else {
        ReceiveSegment(q, o, dup, y);
      }
    case Deliver(reply, verdict) => DeliverKeepsInvariant(q, o, dup, y, reply, verdict);
    case Unrelated(m) => UnrelatedKeepsInvariant(q, o, dup, y, m);
    case _ => ChannelKeepsInvariant(q, o, dup, y, a);
  }

  /** A message is lost or duplicated. */
  lemma ChannelKeepsInvariant(q: Query, o: Object, dup: bool, y: System, a: Action)
    requires Invariant(q, o, dup, y) && Enabled(y, a) && (Duplicates(a) ==> dup)
    requires a.LoseRequest? || a.LoseResponse? || Duplicates(a)
    ensures Invariant(q, o, dup, Next(q, o, y, a))
  {
    var z := Next(q, o, y, a);
    var f, g;
    match a {
      case LoseRequest(at) =>
        f := Channel.DrawnWithout(y.requests, at);
        g := Channel.Identity(y.responses);
        if Once(y.requests, y.responses) {
          OnceWithoutRequest(y.requests, y.responses, at);
        }
      case LoseResponse(at) =>
        f := Channel.Identity(y.requests);
        g := Channel.DrawnWithout(y.responses, at);
        if Once(y.requests, y.responses) {
          OnceWithoutResponse(y.requests, y.responses, at);
        }
      case DuplicateRequest(at) =>
        f := Channel.DrawnTwice(y.requests, at);
        g := Channel.Identity(y.responses);
      case DuplicateResponse(at) =>
        f := Channel.Identity(y.requests);
        g := Channel.DrawnTwice(y.responses, at);
    }
    hide Invariant, Once, Channel.Drawn, Channel.Without, Channel.Twice;
    DrawnKeepsInvariant(q, o, dup, y, z.requests, f, z.responses, g);
    assert z == y.(requests := z.requests, responses := z.responses);
  }

  lemma {:induction false} ReachableInvariant(q: Query, o: Object, dup: bool, x: System, actions: seq<Action>, y: System)
    requires Declines(q, o.refusal) && Safe(q, o, dup) && Invariant(q, o, dup, x) && Reaches(q, o, dup, x, actions, y)
    ensures Invariant(q, o, dup, y)
    decreases |actions|
  {
    hide Safe, Declines, Invariant, Next, Duplicates;
    if actions != [] {
      NextKeepsInvariant(q, o, dup, x, actions[0]);
      ReachableInvariant(q, o, dup, Next(q, o, x, actions[0]), actions[1..], y);
    }
  }

  /** When the upload reports success, the caller has exactly the server's object, and *size is its length; without
      exception if the server shows the size and its refusals are understood. */
  lemma SuccessMeansObject(q: Query, o: Object, dup: bool, server: Server, actions: seq<Action>, y: System)
    requires Declines(q, o.refusal) && Safe(q, o, dup) && Reaches(q, o, dup, Initial(q, server), actions, y)
    requires y.master.phase == Finished(Success)
    ensures Joined(y.master.copies) == o.content && y.master.received == |o.content|
  {
    hide Safe, Declines, Next, Duplicates;
    ReachableInvariant(q, o, dup, Initial(q, server), actions, y);
  }

  // ---------- Runs that end in success ----------

  lemma Prepend(q: Query, o: Object, dup: bool, x: System, a: Action, rest: seq<Action>, y: System)
    requires Enabled(x, a) && (Duplicates(a) ==> dup) && Reaches(q, o, dup, Next(q, o, x, a), rest, y)
    ensures Reaches(q, o, dup, x, [a] + rest, y)
  {
    assert ([a] + rest)[1..] == rest;
  }

  /** The call is about to ask for segment k, and has this text so far. */
  ghost predicate Asking(q: Query, o: Object, m: Master, k: nat, misread: bool) {
    && m.phase.SendSegment? && m.toggle == k % 2 && HasSegment(o.content, k) && (misread ==> k >= 1)
    && m.received == Before(k, misread) < q.capacity
    && Joined(m.copies) == Text(q, o, misread)[..m.received]
  }

  /** What has been received before segment k. */
  function Before(k: nat, misread: bool): nat
    requires misread ==> k >= 1
  {
    if misread then 7 * k - 1 else 7 * k
  }

  lemma TextGrows(q: Query, o: Object, k: nat, misread: bool)
    requires HasSegment(o.content, k) && (misread ==> k >= 1)
    ensures var text, bytes := Text(q, o, misread), ObjectSegment(o.content, k);
      && |text| == (if misread then |o.content| - 1 else |o.content|) && Before(k, misread) + |bytes| <= |text|
      && text[..Before(k, misread)] + bytes == text[..Before(k, misread) + |bytes|]
      && (if IsLastSegment(o.content, k) then Before(k, misread) + |bytes| == |text|
          else Before(k, misread) + |bytes| == Before(k + 1, misread) < |text| && HasSegment(o.content, k + 1))
  {
    var bytes := ObjectSegment(o.content, k);
    SegmentPlaces(o.content, k);
    var end := 7 * k + |bytes|;
    assert o.content[7 * k..end] == bytes;
    if misread {
      Behind(InitiateBytes(q)[..6], o.content, 7 * k, end);
    } else {
      Behind([], o.content, 7 * k, end);
    }
    hide InitiateBytes, ObjectSegment, IsLastSegment;
  }

  /** A part of s that is still there when the front of s has been replaced by one shorter by a byte, or by nothing. */
  lemma Behind(front: seq<byte>, s: seq<byte>, from: nat, to: nat)
    requires from <= to <= |s| && (front == [] || |front| + 1 <= from)
    ensures var text := if front == [] then s else front + s[|front| + 1..];
      var gone := if front == [] then 0 else 1;
      text[..from - gone] + s[from..to] == text[..to - gone]
  {
  }

  /** The undisturbed exchange of segment k, when there is room for it. */
  lemma SegmentExchange(q: Query, o: Object, m: Master, s: Server, k: nat, misread: bool) returns (x1: System, x2: System, x3: System)
    requires Asking(q, o, m, k, misread) && ServerAt(o, s, k)
    requires Before(k, misread) + |ObjectSegment(o.content, k)| <= q.capacity
    ensures var x0 := System(m, [], [], s);
      && x1 == Next(q, o, x0, MasterStep(true, false))
      && x1.requests != [] && x2 == Next(q, o, x1, Deliver(true, Serves))
      && x2.responses != [] && IsAwaiting(x2.master) && x3 == Next(q, o, x2, MasterReceive)
    ensures x3 == System(x3.master, [], [], x3.server) && ServerAt(o, x3.server, k + 1)
    ensures var end := Before(k, misread) + |ObjectSegment(o.content, k)|;
      && x3.master.received == end && end <= |Text(q, o, misread)|
      && Joined(x3.master.copies) == Text(q, o, misread)[..end]
      && if IsLastSegment(o.content, k) || end == q.capacity then x3.master.phase == Finished(Success)
         else Asking(q, o, x3.master, k + 1, misread)
  {
    var x0 := System(m, [], [], s);
    x1 := Next(q, o, x0, MasterStep(true, false));
    var m1 := m.(phase := AwaitSegment);
    assert x1 == System(m1, [KthRequest(k)], [], s);
    x2 := Next(q, o, x1, Deliver(true, Serves));
    ServeCurrent(q, o, s, k, misread);
    var s2 := Serve(q, o, s, KthRequest(k)).0;
    assert x2 == System(m1, [], [SegmentResponse(o.content, k)], s2);
    x3 := Next(q, o, x2, MasterReceive);
    ReceiveIs(q, o, x2);
    var bytes := ObjectSegment(o.content, k);
    ReadsSegment(q, o.content, m1, k);
    TakesBytes(q, m1, IsLastSegment(o.content, k), bytes);
    TextGrows(q, o, k, misread);
    hide Next, Serve, ObjectSegment, OnSegment, OnSegmentResponse, SegmentResponse, IsLastSegment, Joined, Text, ServerAt;
  }

  /** Undisturbed, the call goes on to the end of the text, or of a buffer that is filled by whole segments. */
  lemma {:induction false} RestRuns(q: Query, o: Object, dup: bool, m: Master, s: Server, k: nat, misread: bool)
    returns (actions: seq<Action>, y: System)
    requires Asking(q, o, m, k, misread) && ServerAt(o, s, k)
    requires |Text(q, o, misread)| <= q.capacity || FilledBySegments(q, misread)
    ensures Reaches(q, o, dup, System(m, [], [], s), actions, y) && y.master.phase == Finished(Success)
    ensures y.master.received == (if |Text(q, o, misread)| <= q.capacity then |Text(q, o, misread)| else q.capacity)
    ensures Joined(y.master.copies) == Text(q, o, misread)[..y.master.received]
    decreases |o.content| - 7 * k
  {
    TextGrows(q, o, k, misread);
    if FilledBySegments(q, misread) {
      RoomForNext(q, k, misread);
    }
    hide *;
    var x0 := System(m, [], [], s);
    var x1, x2, x3 := SegmentExchange(q, o, m, s, k, misread);
    var rest: seq<Action>;
    if x3.master.phase.Finished? {
      rest, y := [], x3;
      ReachesItself(q, o, dup, x3);
    } else {
      Longer(o, k);
      rest, y := RestRuns(q, o, dup, x3.master, x3.server, k + 1, misread);
    }
    Steps(q, o, dup, x0, Serves, x1, x2, x3, rest, y);
    actions := [MasterStep(true, false)] + ([Deliver(true, Serves)] + ([MasterReceive] + rest));
  }

  /** The capacity is where some segment ends that is not the last. */
  predicate FilledBySegments(q: Query, misread: bool) {
    q.capacity % 7 == if misread then 6 else 0
  }

  lemma RoomForNext(q: Query, k: nat, misread: bool)
    requires (misread ==> k >= 1) && Before(k, misread) < q.capacity && FilledBySegments(q, misread)
    ensures Before(k + 1, misread) <= q.capacity
  {
  }

  lemma Longer(o: Object, k: nat)
    requires HasSegment(o.content, k + 1)
    ensures 7 * (k + 1) < |o.content|
  {
  }

  lemma ReachesItself(q: Query, o: Object, dup: bool, x: System)
    ensures Reaches(q, o, dup, x, [], x)
  {
  }

  /** Send, deliver, receive, and what follows. */
  lemma Steps(q: Query, o: Object, dup: bool, x0: System, v: Verdict, x1: System, x2: System, x3: System, rest: seq<Action>, y: System)
    requires x1 == Next(q, o, x0, MasterStep(true, false)) && x1.requests != [] && x2 == Next(q, o, x1, Deliver(true, v))
    requires x2.responses != [] && IsAwaiting(x2.master) && x3 == Next(q, o, x2, MasterReceive)
    requires Reaches(q, o, dup, x3, rest, y)
    ensures Reaches(q, o, dup, x0, [MasterStep(true, false)] + ([Deliver(true, v)] + ([MasterReceive] + rest)), y)
  {
    hide Next, Reaches;
    Prepend(q, o, dup, x2, MasterReceive, rest, y);
    Prepend(q, o, dup, x1, Deliver(true, v), [MasterReceive] + rest, y);
    Prepend(q, o, dup, x0, MasterStep(true, false), [Deliver(true, v)] + ([MasterReceive] + rest), y);
  }

  /** The initiate request, answered and read. */
  lemma InitiateExchange(q: Query, o: Object, server: Server) returns (x1: System, x2: System, x3: System)
    requires 0 < q.capacity
    ensures var x0 := Initial(q, server);
      && x1 == Next(q, o, x0, MasterStep(true, false))
      && x1.requests != [] && x2 == Next(q, o, x1, Deliver(true, Serves))
      && x2.responses != [] && IsAwaiting(x2.master) && x3 == Next(q, o, x2, MasterReceive)
    ensures x2 == System(Master(AwaitInitiate, 0, 0, []), [], [InitiateResponse(q, o)], Server(!o.Expedited(), 0, 0))
    ensures x3 == System(OnInitiateResponse(q, x2.master, InitiateResponse(q, o)), [], [], x2.server)
  {
    hide InitiateCommand, InitiateBytes;
    x1 := Next(q, o, Initial(q, server), MasterStep(true, false));
    assert x1 == System(Master(AwaitInitiate, 0, 0, []), [Initiate(q.index, q.subindex)], [], server);
    x2 := Next(q, o, x1, Deliver(true, Serves));
    x3 := Next(q, o, x2, MasterReceive);
  }

  lemma AsksFirst(q: Query, o: Object)
    requires 0 < q.capacity
    ensures Asking(q, o, Master(SendSegment, 0, 0, []), 0, false) && ServerAt(o, Server(true, 0, 0), 0)
  {
    assert Joined<Mark>([]) == Text(q, o, false)[..0];
  }

  /** What the undisturbed call returns: the object, or what fills the buffer. */
  lemma SegmentedRuns(q: Query, o: Object, dup: bool, server: Server) returns (actions: seq<Action>, y: System)
    requires 0 < q.capacity && !o.Expedited()
    requires |o.content| <= q.capacity || (!o.sized && FilledBySegments(q, false))
    ensures Reaches(q, o, dup, Initial(q, server), actions, y) && y.master.phase == Finished(Success)
    ensures y.master.received == (if |o.content| <= q.capacity then |o.content| else q.capacity)
    ensures Joined(y.master.copies) == o.content[..y.master.received]
  {
    assert Text(q, o, false) == o.content;
    hide *;
    var x1, x2, x3 := InitiateExchange(q, o, server);
    BeginsOrFails(q, o, x2.master);
    AsksFirst(q, o);
    var rest;
    rest, y := RestRuns(q, o, dup, x3.master, x3.server, 0, false);
    Steps(q, o, dup, Initial(q, server), Serves, x1, x2, x3, rest, y);
    actions := [MasterStep(true, false)] + ([Deliver(true, Serves)] + ([MasterReceive] + rest));
  }

  lemma ExpeditedRuns(q: Query, o: Object, dup: bool, server: Server) returns (actions: seq<Action>, y: System)
    requires o.Expedited() && (if o.sized then |o.content| else 4) <= q.capacity
    ensures Reaches(q, o, dup, Initial(q, server), actions, y) && y.master.phase == Finished(Success)
    ensures y.master.received == if o.sized then |o.content| else 4
  {
    var x1, x2, x3 := InitiateExchange(q, o, server);
    ReadsExpedited(q, o, x2.master);
    hide Next, OnInitiateResponse, InitiateResponse;
    ReachesItself(q, o, dup, x3);
    Steps(q, o, dup, Initial(q, server), Serves, x1, x2, x3, [], x3);
    actions, y := [MasterStep(true, false)] + ([Deliver(true, Serves)] + ([MasterReceive] + [])), x3;
  }

  /** Every object that fits can be uploaded, even without duplication; an expedited answer without a size needs room for
      four bytes. */
  lemma UploadCanSucceed(q: Query, o: Object, server: Server) returns (actions: seq<Action>, y: System)
    requires 0 < q.capacity && |o.content| <= q.capacity && (o.Expedited() && !o.sized ==> 4 <= q.capacity)
    ensures Reaches(q, o, false, Initial(q, server), actions, y) && y.master.phase == Finished(Success)
  {
    hide Reaches;
    if o.Expedited() {
      actions, y := ExpeditedRuns(q, o, false, server);
    } else {
      actions, y := SegmentedRuns(q, o, false, server);
    }
  }

  // ---------- Runs that succeed with something else ----------

  /** An object that shows no size and is longer than a buffer of whole segments is cut to the buffer, undisturbed and
      with success. */
  lemma TruncatedUploadSucceeds(q: Query, o: Object, server: Server) returns (actions: seq<Action>, y: System)
    requires !o.sized && !o.Expedited() && 0 < q.capacity < |o.content| && q.capacity % 7 == 0
    ensures Reaches(q, o, false, Initial(q, server), actions, y) && y.master.phase == Finished(Success)
    ensures y.master.received == q.capacity && Joined(y.master.copies) == o.content[..q.capacity]
  {
    hide Reaches;
    actions, y := SegmentedRuns(q, o, false, server);
  }

  /** The initiate response comes twice, and the second is taken for segment 0; the server's answer to the request for it
      is lost. */
  lemma RepeatExchange(q: Query, o: Object, server: Server)
    returns (x1: System, x2: System, x3: System, x4: System, x5: System, x6: System)
    requires 6 <= q.capacity && !o.sized && !o.Expedited()
    ensures var x0 := Initial(q, server);
      && x1 == Next(q, o, x0, MasterStep(true, false)) && x1.requests != [] && x2 == Next(q, o, x1, Deliver(true, Serves))
      && |x2.responses| > 0 && x3 == Next(q, o, x2, DuplicateResponse(0))
      && x3.responses != [] && IsAwaiting(x3.master) && x4 == Next(q, o, x3, MasterReceive)
      && x5 == Next(q, o, x4, MasterStep(true, false))
      && x5.responses != [] && IsAwaiting(x5.master) && x6 == Next(q, o, x5, MasterReceive)
    ensures x6 == System(x6.master, [KthRequest(0)], [], Server(true, 0, 0))
    ensures x6.master.received == 6 && Joined(x6.master.copies) == InitiateBytes(q)[..6] && x6.master.toggle == 1
    ensures x6.master.phase == if q.capacity == 6 then Finished(Success) else SendSegment
  {
    var x3';
    x1, x2, x3' := InitiateExchange(q, o, server);
    var r := InitiateResponse(q, o);
    BeginsOrFails(q, o, x2.master);
    hide InitiateResponse, OnInitiateResponse;
    x3 := Next(q, o, x2, DuplicateResponse(0));
    assert x3 == System(x2.master, [], [r, r], x2.server);
    x4 := Next(q, o, x3, MasterReceive);
    assert x4 == System(Master(SendSegment, 0, 0, []), [], [r], x2.server);
    x5 := Next(q, o, x4, MasterStep(true, false));
    assert x5 == System(Master(AwaitSegment, 0, 0, []), [KthRequest(0)], [r], x2.server);
    x6 := Next(q, o, x5, MasterReceive);
    ReceiveIs(q, o, x5);
    assert Joined<Mark>([]) == o.content[..0];
    TakeRepeat(q, o, x5.master);
  }

  lemma RepeatSteps(q: Query, o: Object, x0: System, x1: System, x2: System, x3: System, x4: System, x5: System, x6: System,
                    rest: seq<Action>, y: System) returns (actions: seq<Action>)
    requires x1 == Next(q, o, x0, MasterStep(true, false)) && x1.requests != [] && x2 == Next(q, o, x1, Deliver(true, Serves))
    requires |x2.responses| > 0 && x3 == Next(q, o, x2, DuplicateResponse(0))
    requires x3.responses != [] && IsAwaiting(x3.master) && x4 == Next(q, o, x3, MasterReceive)
    requires x5 == Next(q, o, x4, MasterStep(true, false))
    requires x5.responses != [] && IsAwaiting(x5.master) && x6 == Next(q, o, x5, MasterReceive)
    requires Reaches(q, o, true, x6, rest, y)
    ensures Reaches(q, o, true, x0, actions, y)
  {
    hide Next, Reaches;
    Prepend(q, o, true, x5, MasterReceive, rest, y);
    Prepend(q, o, true, x4, MasterStep(true, false), [MasterReceive] + rest, y);
    actions := [MasterStep(true, false)] + ([MasterReceive] + rest);
    Prepend(q, o, true, x3, MasterReceive, actions, y);
    Prepend(q, o, true, x2, DuplicateResponse(0), [MasterReceive] + actions, y);
    actions := [DuplicateResponse(0)] + ([MasterReceive] + actions);
    Prepend(q, o, true, x1, Deliver(true, Serves), actions, y);
    Prepend(q, o, true, x0, MasterStep(true, false), [Deliver(true, Serves)] + actions, y);
    actions := [MasterStep(true, false)] + ([Deliver(true, Serves)] + actions);
  }

  lemma ServesUnheard(q: Query, o: Object, m: Master) returns (x: System)
    requires 6 < q.capacity && |o.content| > 7
    requires m.phase == SendSegment && m.received == 6 && m.toggle == 1 && Joined(m.copies) == InitiateBytes(q)[..6]
    ensures x == Next(q, o, System(m, [KthRequest(0)], [], Server(true, 0, 0)), Deliver(false, Serves))
    ensures x == System(m, [], [], x.server) && ServerAt(o, x.server, 1) && Asking(q, o, m, 1, true)
  {
    hide SegmentResponse, InitiateBytes, Joined;
    x := Next(q, o, System(m, [KthRequest(0)], [], Server(true, 0, 0)), Deliver(false, Serves));
    assert InitiateBytes(q)[..6] == Text(q, o, true)[..6];
  }

  /** A repeated initiate response that shows no size stands in for the first segment, and the call succeeds with six
      bytes of that message, followed by the object from its eighth byte on. */
  lemma RepeatTakenForSegment(q: Query, o: Object, server: Server) returns (actions: seq<Action>, y: System)
    requires !o.sized && !o.Expedited()
    requires q.capacity == 6 || (|o.content| > 7 && (|o.content| <= q.capacity + 1 || q.capacity % 7 == 6))
    ensures Reaches(q, o, true, Initial(q, server), actions, y) && y.master.phase == Finished(Success)
    ensures if q.capacity == 6 then Joined(y.master.copies) == InitiateBytes(q)[..6]
            else y.master.received < |o.content| && Joined(y.master.copies) == (InitiateBytes(q)[..6] + o.content[7..])[..y.master.received]
    ensures y.master.received == if q.capacity == 6 || |o.content| > q.capacity + 1 then q.capacity else |o.content| - 1
  {
    AtLeastSix(q.capacity);
    hide Next, Reaches, InitiateBytes, Asking, ServerAt, Joined;
    var x1, x2, x3, x4, x5, x6 := RepeatExchange(q, o, server);
    var rest;
    if q.capacity == 6 {
      rest, y := [], x6;
      ReachesItself(q, o, true, x6);
    } else {
      var x7 := ServesUnheard(q, o, x6.master);
      rest, y := RestRuns(q, o, true, x6.master, x7.server, 1, true);
      Prepend(q, o, true, x6, Deliver(false, Serves), rest, y);
      rest := [Deliver(false, Serves)] + rest;
    }
    actions := RepeatSteps(q, o, Initial(q, server), x1, x2, x3, x4, x5, x6, rest, y);
  }

  lemma AtLeastSix(capacity: u32)
    ensures capacity % 7 == 6 ==> capacity >= 6
  {
  }

  // ---------- The exact condition ----------

  lemma OthersSucceed(q: Query, o: Object, dup: bool)
    requires !Safe(q, o, dup)
    ensures !AlwaysFetches(q, o, dup)
  {
    hide Reaches, InitiateBytes, Joined;
    var server := Server(false, 0, 0);
    var actions, y;
    if o.Expedited() {
      actions, y := ExpeditedRuns(q, o, dup, server);
    } else if q.capacity % 7 == 0 && 0 < q.capacity < |o.content| {
      actions, y := SegmentedRuns(q, o, dup, server);
    } else {
      actions, y := RepeatTakenForSegment(q, o, server);
      if q.capacity == 6 {
        assert |o.content| == 6 ==> o.content != InitiateBytes(q)[..6];
      }
    }
    assert y.master.phase == Finished(Success) && !HasObject(o, y.master);
  }

  /** If refusals are understood, success always means the object exactly if it is safe. */
  lemma AlwaysFetchesIff(q: Query, o: Object, dup: bool)
    requires Declines(q, o.refusal)
    ensures AlwaysFetches(q, o, dup) <==> Safe(q, o, dup)
  {
    hide Reaches, Safe;
    if Safe(q, o, dup) {
      forall server: Server, actions: seq<Action>, y: System
        | Reaches(q, o, dup, Initial(q, server), actions, y) && y.master.phase == Finished(Success)
        ensures HasObject(o, y.master)
      {
        SuccessMeansObject(q, o, dup, server, actions, y);
      }
    } else {
      OthersSucceed(q, o, dup);
    }
  }

  /** A refusal that is taken for consent: a server in the middle of a transfer goes on with it, and its last segment is
      taken for the object. */
  lemma RefusalTakenForConsent(q: Query, o: Object, dup: bool) returns (server: Server, actions: seq<Action>, y: System)
    requires 0 < q.capacity && !Declines(q, o.refusal) && |o.content| == 15
    ensures Reaches(q, o, dup, Initial(q, server), actions, y) && y.master.phase == Finished(Success)
    ensures y.master.received == 1
  {
    server := Server(true, 0, 2);
    var x0 := Initial(q, server);
    var x1 := Next(q, o, x0, MasterStep(true, false));
    assert x1 == System(Master(AwaitInitiate, 0, 0, []), [Initiate(q.index, q.subindex)], [], server);
    var x2 := Next(q, o, x1, Deliver(true, Refuses));
    assert x2 == System(Master(AwaitInitiate, 0, 0, []), [], [RefusalResponse(o.refusal)], server);
    var x3 := Next(q, o, x2, MasterReceive);
    SpecifierBits(o.refusal.command);
    var m := Master(SendSegment, 0, 0, []);
    assert x3 == System(m, [], [], server);
    var x4 := Next(q, o, x3, MasterStep(true, false));
    assert x4 == System(m.(phase := AwaitSegment), [KthRequest(2)], [], server);
    var x5 := Next(q, o, x4, Deliver(true, Serves));
    ServeCurrent(q, o, server, 2, false);
    assert x5 == System(m.(phase := AwaitSegment), [], [SegmentResponse(o.content, 2)], x5.server);
    var x6 := Next(q, o, x5, MasterReceive);
    ReceiveIs(q, o, x5);
    ReadsSegment(q, o.content, x5.master, 2);
    TakesBytes(q, x5.master, true, ObjectSegment(o.content, 2));
    y := x6;
    hide *;
    ReachesItself(q, o, dup, y);
    Steps(q, o, dup, x3, Serves, x4, x5, x6, [], y);
    var rest := [MasterStep(true, false)] + ([Deliver(true, Serves)] + ([MasterReceive] + []));
    Steps(q, o, dup, x0, Refuses, x1, x2, x3, rest, y);
    actions := [MasterStep(true, false)] + ([Deliver(true, Refuses)] + ([MasterReceive] + rest));
  }

  /** The buffers for which that is so whatever object a server of this kind holds. */
  predicate SafeForAll(q: Query, expedites: bool, sized: bool, dup: bool) {
    || sized
    || q.capacity < 4
    || (!expedites && if dup then q.capacity < 6 else q.capacity % 7 != 0)
  }

  lemma EveryObjectIff(q: Query, expedites: bool, sized: bool, f: Refusal, dup: bool)
    ensures (forall content: Content :: AlwaysFetches(q, Object(content, expedites, sized, f), dup))
       <==> q.capacity == 0 || (Declines(q, f) && SafeForAll(q, expedites, sized, dup))
  {
    hide Reaches, InitiateBytes, Declines;
    if q.capacity == 0 {
      forall content: Content
        ensures AlwaysFetches(q, Object(content, expedites, sized, f), dup)
      {
        NoBufferNoSuccess(q, Object(content, expedites, sized, f), dup);
      }
    } else if !Declines(q, f) {
      var o := Object(seq(15, _ => 0), expedites, sized, f);
      var server, actions, y := RefusalTakenForConsent(q, o, dup);
      assert !HasObject(o, y.master);
      assert !AlwaysFetches(q, o, dup);
    } else {
      hide AlwaysFetches;
      forall content: Content
        ensures AlwaysFetches(q, Object(content, expedites, sized, f), dup) <==> Safe(q, Object(content, expedites, sized, f), dup)
      {
        AlwaysFetchesIff(q, Object(content, expedites, sized, f), dup);
      }
      if !SafeForAll(q, expedites, sized, dup) {
        var size := if expedites then 1 else if dup then (if q.capacity == 6 then 0 else 8) else q.capacity + 1;
        var content := seq(size, _ => 0);
        assert !Safe(q, Object(content, expedites, sized, f), dup);
      }
    }
  }

  lemma NoBufferNoSuccess(q: Query, o: Object, dup: bool)
    requires q.capacity == 0
    ensures AlwaysFetches(q, o, dup)
  {
    forall server: Server, actions: seq<Action>, y: System | Reaches(q, o, dup, Initial(q, server), actions, y)
      ensures y.master.phase == Finished(InvalidParam)
    {
      StaysFinished(q, o, dup, Initial(q, server), actions, y);
    }
    hide Reaches;
  }

  lemma {:induction false} StaysFinished(q: Query, o: Object, dup: bool, x: System, actions: seq<Action>, y: System)
    requires Reaches(q, o, dup, x, actions, y) && x.master.phase == Finished(InvalidParam)
    ensures y.master.phase == Finished(InvalidParam)
    decreases |actions|
  {
    if actions != [] {
      StaysFinished(q, o, dup, Next(q, o, x, actions[0]), actions[1..], y);
    }
  }
}
