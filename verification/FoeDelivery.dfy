/**
 foe_write against the slave of FoeTransfer over two channels that keep order but may lose or duplicate any message:
 packets and answers travel apart, and a slave may be busy at any time.
 */
module FoeDelivery {
  import opened Endian
  import opened Wrappers
  import opened Copies
  import opened Channels
  import opened Foe
  import opened FoeTransfer
  import FoeRead
  import FoeWrite

  // ---------- The system ----------

  /** awaiting: the writer's packet has gone out, and its answer has not been read. */
  datatype Network = Network(writer: Writer, awaiting: bool, requests: seq<Packet>, responses: seq<Message>, slave: Slave)

  datatype Action =
    | WriterSends
    | WriterFails(late: bool)
    | WriterReads
    | WriterGivesUp(broken: bool)
    | Deliver(busy: bool, reply: bool)
    | LoseRequest(at: nat)
    | LoseResponse(at: nat)
    | DuplicateRequest(at: nat)
    | DuplicateResponse(at: nat)
    | Unrelated(message: Message)

  predicate Enabled(y: Network, a: Action) {
    match a
    case WriterSends => !y.awaiting && !y.writer.phase.Finished?
    case WriterFails(_) => !y.awaiting && !y.writer.phase.Finished?
    case WriterReads => y.awaiting && y.responses != []
    case WriterGivesUp(_) => y.awaiting
    case Deliver(_, _) => y.requests != []
    case LoseRequest(at) => at < |y.requests|
    case LoseResponse(at) => at < |y.responses|
    case DuplicateRequest(at) => at < |y.requests|
    case DuplicateResponse(at) => at < |y.responses|
    case Unrelated(m) => !Parse(m).Ack?
  }

  /** What the writer puts into the mailbox in this turn: the same whatever it then receives, so that a turn of foe_write
      can be taken in two steps. */
  function Current(job: Job, m: Writer): (p: Packet)
    requires FoeWrite.Sound(job, m) && !m.phase.Finished?
    ensures forall r: Reception :: FoeWrite.Step(job, m, Turn(false, true, r)).1 == [p]
  {
    if m.phase.Requesting? then WriteRequest(job.filename) else FoeWrite.NextPacket(job, m)
  }

  function Next(q: FoeRead.Query, job: Job, y: Network, a: Action): (z: Network)
    requires FoeWrite.Sound(job, y.writer) && Enabled(y, a)
    ensures FoeWrite.Sound(job, z.writer)
  {
    match a
    case WriterSends => y.(awaiting := true, requests := y.requests + [Current(job, y.writer)])
    case WriterFails(late) => y.(writer := FoeWrite.Step(job, y.writer, Turn(late, false, NoMessage)).0)
    case WriterReads =>
      y.(writer := FoeWrite.Step(job, y.writer, Turn(false, true, Received(y.responses[0]))).0, awaiting := false,
         responses := y.responses[1..])
    case WriterGivesUp(broken) =>
      y.(writer := FoeWrite.Step(job, y.writer, Turn(false, true, if broken then Broken else NoMessage)).0, awaiting := false)
    case Deliver(busy, reply) =>
      var (s, r) := if busy then (y.slave, BusyMessage()) else Serve(q, y.slave, y.requests[0]);
      y.(requests := y.requests[1..], slave := s, responses := if reply then y.responses + [r] else y.responses)
    case LoseRequest(at) => y.(requests := Without(y.requests, at))
    case LoseResponse(at) => y.(responses := Without(y.responses, at))
    case DuplicateRequest(at) => y.(requests := Twice(y.requests, at))
    case DuplicateResponse(at) => y.(responses := Twice(y.responses, at))
    case Unrelated(m) => y.(responses := y.responses + [m])
  }

  function Beginning(job: Job, slave: Slave): Network {
    Network(FoeWrite.Start(job), false, [], [], slave)
  }

  /** y is reachable by the actions, each enabled when it is taken. */
  ghost predicate Reaches(q: FoeRead.Query, job: Job, x: Network, actions: seq<Action>, y: Network)
    decreases |actions|
  {
    if actions == [] then x == y
    else
      FoeWrite.Sound(job, x.writer) && Enabled(x, actions[0])
      && Reaches(q, job, Next(q, job, x, actions[0]), actions[1..], y)
  }

  // ---------- The invariant ----------

  /** The slave has taken the first packets of the file, as many as its expected number says. */
  ghost predicate HasTaken(data: FoeWrite.Content, s: Slave) {
    && s.Storing? && 1 <= s.file.expected <= FoeWrite.PacketCount(|data|) + 1
    && var taken := s.file.expected - 1;
       && Joined(s.file.copies) == data[..Smaller(512 * taken, |data|)]
       && (s.file.phase.Waiting? ==> s.file.received == 512 * taken <= |data|)
       && (s.file.phase == FoeRead.Finished(Success) <==>
             taken == FoeWrite.PacketCount(|data|) && |data| % 512 != 0)
  }

  function Taken(s: Slave): int
    requires s.Storing?
  {
    s.file.expected - 1
  }

  /** Packets under way: copies of the write request only while nothing is taken, then packets of the file up to top. */
  ghost predicate RequestsOk(job: Job, requests: seq<Packet>, top: nat, taken: int)
    requires top <= FoeWrite.PacketCount(|job.data|)
  {
    && (forall i :: 0 <= i < |requests| ==>
          (requests[i] == WriteRequest(job.filename) && taken == 0)
          || (requests[i].DataPacket? && 1 <= requests[i].number <= top
              && requests[i] == FoeWrite.KthPacket(job.data, requests[i].number)))
    && (forall i, j :: 0 <= i < j < |requests| && requests[i].DataPacket? ==> requests[j].DataPacket?)
  }

  /** Acknowledgements under way are of packets that the slave has taken. */
  ghost predicate AcksUpTo(responses: seq<Message>, taken: int) {
    forall i :: 0 <= i < |responses| && Parse(responses[i]).Ack? ==> Parse(responses[i]).number <= taken
  }

  ghost predicate Running(job: Job, y: Network, top: nat) {
    && top <= FoeWrite.PacketCount(|job.data|)
    && HasTaken(job.data, y.slave) && Taken(y.slave) <= top
    && RequestsOk(job, y.requests, top, Taken(y.slave)) && AcksUpTo(y.responses, Taken(y.slave))
  }

  /** The write request is under way: an acknowledgement means that the slave has opened an empty file. */
  ghost predicate Opening(job: Job, y: Network) {
    && (forall i :: 0 <= i < |y.requests| ==> y.requests[i] == WriteRequest(job.filename))
    && ((forall i :: 0 <= i < |y.responses| ==> !Parse(y.responses[i]).Ack?)
        || (AcksUpTo(y.responses, 0) && HasTaken(job.data, y.slave) && Taken(y.slave) == 0))
  }

  ghost predicate Invariant(job: Job, y: Network) {
    && FoeWrite.Counted(job, y.writer)
    && match y.writer.phase
       case Requesting => Opening(job, y) && (!y.awaiting ==> y.requests == [])
       case Sending =>
         Running(job, y, y.writer.number) && Taken(y.slave) >= y.writer.number - 1
       case Finished(status) =>
         status == Success ==>
           Running(job, y, FoeWrite.PacketCount(|job.data|)) && Taken(y.slave) == FoeWrite.PacketCount(|job.data|)
  }

  // ---------- What the slave makes of a packet ----------

  lemma EmptyHasTaken(data: FoeWrite.Content)
    requires data != []
    ensures HasTaken(data, Storing(EmptyFile())) && Taken(Storing(EmptyFile())) == 0
  {
  }

  lemma Small(k: nat)
    requires k < WORD
    ensures k % WORD == k
  {
  }

  /** The expected packet, with room for it. */
  lemma TakesExpected(q: FoeRead.Query, data: FoeWrite.Content, s: Slave, end: nat, body: Body)
    requires HasTaken(data, s) && s.file.phase.Waiting? && Taken(s) < FoeWrite.PacketCount(|data|)
    requires end == FoeWrite.ChunkEnd(|data|, s.file.received) <= q.capacity && body == data[s.file.received..end]
    ensures var (file, acks) := FoeRead.OnData(q, s.file, s.file.expected, body, true);
      acks == [AckPacket(s.file.expected)] && HasTaken(data, Storing(file)) && Taken(Storing(file)) == Taken(s) + 1
  {
    var k := s.file.expected;
    ChunkFacts(|data|, k);
    FoeRead.AcceptedData(q, s.file, k, body, true);
    Small(k + 1);
    hide FoeRead.OnData, FoeWrite.ChunkEnd, FoeWrite.PacketCount, Joined;
    JoinedAppend(s.file.copies, Copy(s.file.received, body, k));
    assert data[..s.file.received] + body == data[..end];
    assert data[..|data|] == data;
  }

  /** The expected packet, without room for it. */
  lemma NoRoomForExpected(q: FoeRead.Query, data: FoeWrite.Content, s: Slave, end: nat, body: Body)
    requires HasTaken(data, s) && s.file.phase.Waiting? && Taken(s) < FoeWrite.PacketCount(|data|)
    requires end == FoeWrite.ChunkEnd(|data|, s.file.received) > q.capacity && body == data[s.file.received..end]
    ensures FoeRead.OnData(q, s.file, s.file.expected, body, true) == (s.file.(phase := FoeRead.Finished(InvalidParam)), [])
  {
    assert s.file.received + |body| == end <= |data|;
  }

  /** The expected packet: taken if there is room for it, else the file is closed. */
  lemma ServeExpected(q: FoeRead.Query, data: FoeWrite.Content, s: Slave)
    requires HasTaken(data, s) && s.file.phase.Waiting? && Taken(s) < FoeWrite.PacketCount(|data|)
    ensures var (s', r) := Serve(q, s, FoeWrite.KthPacket(data, s.file.expected));
      || (HasTaken(data, s') && Taken(s') == Taken(s) + 1 && r == AckMessage(s.file.expected))
      || (HasTaken(data, s') && Taken(s') == Taken(s) && r == ErrorMessage())
  {
    ChunkFacts(|data|, s.file.expected);
    var end := FoeWrite.ChunkEnd(|data|, s.file.received);
    var body := data[s.file.received..end];
    assert FoeWrite.KthPacket(data, s.file.expected) == DataPacket(s.file.expected, body);
    hide FoeRead.OnData, FoeWrite.ChunkEnd, FoeWrite.KthPacket, Joined;
    if end <= q.capacity {
      TakesExpected(q, data, s, end, body);
    } else {
      NoRoomForExpected(q, data, s, end, body);
    }
  }

  /** Where packet k of the file lies. */
  lemma ChunkFacts(size: nat, k: nat)
    requires 1 <= k <= FoeWrite.PacketCount(size) && size < WORD
    ensures var at := 512 * (k - 1);
      var end := FoeWrite.ChunkEnd(size, at);
      && at < size && end == Smaller(512 * k, size) && k + 1 < WORD
      && (k < FoeWrite.PacketCount(size) ==> end == 512 * k && end - at == 512)
      && (k == FoeWrite.PacketCount(size) ==> end == size && (end - at < 512 <==> size % 512 != 0))
  {
  }

  /** Any other packet of the file changes nothing that is stored. */
  lemma ServeOther(q: FoeRead.Query, data: FoeWrite.Content, s: Slave, k: u32)
    requires HasTaken(data, s) && 1 <= k <= FoeWrite.PacketCount(|data|)
    requires !s.file.phase.Waiting? || k != s.file.expected
    ensures var (s', r) := Serve(q, s, FoeWrite.KthPacket(data, k));
      HasTaken(data, s') && Taken(s') == Taken(s) && r == ErrorMessage()
  {
  }

  lemma ServePacket(q: FoeRead.Query, data: FoeWrite.Content, s: Slave, k: u32)
    requires HasTaken(data, s) && 1 <= k <= FoeWrite.PacketCount(|data|)
    ensures var (s', r) := Serve(q, s, FoeWrite.KthPacket(data, k));
      && HasTaken(data, s') && Taken(s) <= Taken(s') && (Taken(s') == Taken(s) || (Taken(s') == k && Taken(s) == k - 1))
      && (r == ErrorMessage() || (r == AckMessage(k) && k <= Taken(s')))
  {
    hide Serve, HasTaken;
    assert s.Storing? by {
      IsStoring(data, s);
    }
    if s.file.phase.Waiting? && k == s.file.expected {
      ServeExpected(q, data, s);
    } else {
      ServeOther(q, data, s, k);
    }
  }

  lemma IsStoring(data: FoeWrite.Content, s: Slave)
    requires HasTaken(data, s)
    ensures s.Storing? && Taken(s) >= 0
  {
  }

  // ---------- Every action keeps the invariant ----------

  lemma RequestsDrawn(job: Job, from: seq<Packet>, to: seq<Packet>, f: seq<nat>, top: nat, taken: int)
    requires top <= FoeWrite.PacketCount(|job.data|) && RequestsOk(job, from, top, taken) && Drawn(from, to, f)
    ensures RequestsOk(job, to, top, taken)
  {
    forall i, j | 0 <= i < j < |to| && to[i].DataPacket?
      ensures to[j].DataPacket?
    {
      assert f[i] == f[j] || f[i] < f[j];
    }
  }

  lemma RunningDrawn(job: Job, y: Network, top: nat, requests: seq<Packet>, f: seq<nat>, responses: seq<Message>, g: seq<nat>)
    requires Running(job, y, top) && Drawn(y.requests, requests, f) && Drawn(y.responses, responses, g)
    ensures Running(job, y.(requests := requests, responses := responses), top)
  {
    RequestsDrawn(job, y.requests, requests, f, top, Taken(y.slave));
  }

  lemma OpeningDrawn(job: Job, y: Network, requests: seq<Packet>, f: seq<nat>, responses: seq<Message>, g: seq<nat>)
    requires Opening(job, y) && Drawn(y.requests, requests, f) && Drawn(y.responses, responses, g)
    ensures Opening(job, y.(requests := requests, responses := responses))
  {
  }

  lemma DrawnKeepsInvariant(job: Job, y: Network, requests: seq<Packet>, f: seq<nat>, responses: seq<Message>, g: seq<nat>)
    requires Invariant(job, y) && Drawn(y.requests, requests, f) && Drawn(y.responses, responses, g)
    ensures Invariant(job, y.(requests := requests, responses := responses))
  {
    hide Running, Opening, Drawn, FoeWrite.Counted;
    match y.writer.phase
    case Requesting =>
      OpeningDrawn(job, y, requests, f, responses, g);
      DrawnFromNothing(y.requests, requests, f);
    case Sending => RunningDrawn(job, y, y.writer.number, requests, f, responses, g);
    case Finished(status) =>
      if status == Success {
        RunningDrawn(job, y, FoeWrite.PacketCount(|job.data|), requests, f, responses, g);
      }
  }

  /** What is under way behind a DATA packet fits whatever the slave takes of it; behind a write request, an empty file. */
  lemma TailOk(job: Job, requests: seq<Packet>, top: nat, taken: int, more: int)
    requires top <= FoeWrite.PacketCount(|job.data|) && RequestsOk(job, requests, top, taken) && requests != []
    requires requests[0].DataPacket? || taken == more
    ensures RequestsOk(job, requests[1..], top, more)
  {
    var f := DrawnTail(requests);
    RequestsDrawn(job, requests, requests[1..], f, top, taken);
    if requests[0].DataPacket? {
      forall i | 0 <= i < |requests| - 1
        ensures requests[1..][i].DataPacket?
      {
        assert requests[i + 1].DataPacket?;
      }
    }
  }

  /** The slave with what it made of the first request. */
  lemma ServedRuns(job: Job, y: Network, top: nat, s: Slave, r: Message, z: Network)
    requires Running(job, y, top) && y.requests != [] && HasTaken(job.data, s)
    requires Taken(y.slave) <= Taken(s) <= top && (y.requests[0].DataPacket? || Taken(s) == Taken(y.slave))
    requires Parse(r).Ack? ==> Parse(r).number <= Taken(s)
    requires z.requests == y.requests[1..] && z.slave == s && (z.responses == y.responses || z.responses == y.responses + [r])
    ensures Running(job, z, top)
  {
    hide HasTaken, RequestsOk, AcksUpTo, FoeWrite.PacketCount;
    IsStoring(job.data, y.slave);
    IsStoring(job.data, s);
    TailOk(job, y.requests, top, Taken(y.slave), Taken(s));
    AcksGrow(y.responses, Taken(y.slave), r, Taken(s));
  }

  /** The first packet under way is the write request of an empty file, or one of the file's packets. */
  lemma FirstRequest(job: Job, y: Network, top: nat)
    requires Running(job, y, top) && y.requests != []
    ensures HasTaken(job.data, y.slave) && top <= FoeWrite.PacketCount(|job.data|) && 0 <= Taken(y.slave) <= top
    ensures var p := y.requests[0];
      (p == WriteRequest(job.filename) && Taken(y.slave) == 0)
      || (p.DataPacket? && 1 <= p.number <= top && p == FoeWrite.KthPacket(job.data, p.number))
  {
  }

  /** A packet taken, refused or put off. */
  lemma DeliverRunning(q: FoeRead.Query, job: Job, y: Network, top: nat, busy: bool, reply: bool)
    requires Running(job, y, top) && y.requests != [] && FoeWrite.Sound(job, y.writer) && job.data != []
    ensures var z := Next(q, job, y, Deliver(busy, reply)); Running(job, z, top) && Taken(z.slave) >= Taken(y.slave)
  {
    FirstRequest(job, y, top);
    IsStoring(job.data, y.slave);
    var z := Next(q, job, y, Deliver(busy, reply));
    var p := y.requests[0];
    hide Running, HasTaken, FoeWrite.KthPacket, FoeWrite.PacketCount;
    if busy {
      ServedRuns(job, y, top, y.slave, BusyMessage(), z);
    } else if p.DataPacket? {
      hide Serve;
      ServePacket(q, job.data, y.slave, p.number);
      var (s, r) := Serve(q, y.slave, p);
      ServedRuns(job, y, top, s, r, z);
    } else {
      EmptyHasTaken(job.data);
      ServedRuns(job, y, top, Storing(EmptyFile()), AckMessage(0), z);
    }
  }

  lemma AcksGrow(responses: seq<Message>, taken: int, r: Message, more: int)
    requires AcksUpTo(responses, taken) && taken <= more && (Parse(r).Ack? ==> Parse(r).number <= more)
    ensures AcksUpTo(responses, more) && AcksUpTo(responses + [r], more)
  {
  }

  lemma DeliverOpening(q: FoeRead.Query, job: Job, y: Network, busy: bool, reply: bool)
    requires Opening(job, y) && y.requests != [] && FoeWrite.Sound(job, y.writer) && job.data != []
    ensures Opening(job, Next(q, job, y, Deliver(busy, reply)))
  {
    assert y.requests[0] == WriteRequest(job.filename);
    if !busy {
      EmptyHasTaken(job.data);
    }
  }

  lemma DeliverKeepsInvariant(q: FoeRead.Query, job: Job, y: Network, busy: bool, reply: bool)
    requires job.data != [] && Invariant(job, y) && y.requests != []
    ensures Invariant(job, Next(q, job, y, Deliver(busy, reply)))
  {
    hide Running, Opening, Serve, HasTaken, FoeWrite.PacketCount;
    match y.writer.phase
    case Requesting => DeliverOpening(q, job, y, busy, reply);
    case Sending =>
      DeliverRunning(q, job, y, y.writer.number, busy, reply);
      RunningFacts(job, y, y.writer.number);
      RunningFacts(job, Next(q, job, y, Deliver(busy, reply)), y.writer.number);
    case Finished(status) =>
      if status == Success {
        DeliverRunning(q, job, y, FoeWrite.PacketCount(|job.data|), busy, reply);
        RunningFacts(job, y, FoeWrite.PacketCount(|job.data|));
        RunningFacts(job, Next(q, job, y, Deliver(busy, reply)), FoeWrite.PacketCount(|job.data|));
      }
  }

  lemma RunningFacts(job: Job, y: Network, top: nat)
    requires Running(job, y, top)
    ensures y.slave.Storing? && top <= FoeWrite.PacketCount(|job.data|) && Taken(y.slave) <= top
  {
  }

  lemma SendsKeepsInvariant(q: FoeRead.Query, job: Job, y: Network)
    requires Invariant(job, y) && Enabled(y, WriterSends)
    ensures Invariant(job, Next(q, job, y, WriterSends))
  {
    var z := Next(q, job, y, WriterSends);
    if y.writer.phase.Sending? {
      FoeWrite.SendingPacket(job, y.writer);
      AppendPacket(job, y.requests, y.writer.number, Taken(y.slave), Current(job, y.writer));
      hide HasTaken, FoeWrite.KthPacket, FoeWrite.NextPacket, RequestsOk;
    }
  }

  lemma AppendPacket(job: Job, requests: seq<Packet>, top: u32, taken: int, p: Packet)
    requires 1 <= top <= FoeWrite.PacketCount(|job.data|) && RequestsOk(job, requests, top, taken)
    requires p == FoeWrite.KthPacket(job.data, top)
    ensures RequestsOk(job, requests + [p], top, taken)
  {
    hide FoeWrite.PacketCount;
  }

  /** Packets up to a number are packets up to a larger one. */
  lemma RaiseTop(job: Job, y: Network, top: nat, more: nat)
    requires Running(job, y, top) && top <= more <= FoeWrite.PacketCount(|job.data|)
    ensures Running(job, y, more)
  {
  }

  /** The current packet is acknowledged: the slave has taken it. */
  lemma ReadsAck(q: FoeRead.Query, job: Job, y: Network)
    requires Invariant(job, y) && y.writer.phase.Sending? && Enabled(y, WriterReads)
    requires Parse(y.responses[0]) == Ack(y.writer.number)
    ensures Invariant(job, Next(q, job, y, WriterReads))
  {
    var z := Next(q, job, y, WriterReads);
    FoeWrite.SendingPacket(job, y.writer);
    FoeWrite.StepKeepsCounted(job, y.writer, Turn(false, true, Received(y.responses[0])));
    var top := y.writer.number;
    AckedIsTaken(job, y, top);
    TailRuns(job, y, top);
    var rest := y.(responses := y.responses[1..]);
    hide Running;
    NextTop(job, y.writer);
    RaiseTop(job, rest, top, if z.writer.phase.Sending? then top + 1 else top);
    SameRunning(job, rest, z, if z.writer.phase.Sending? then top + 1 else top);
  }

  lemma AckedIsTaken(job: Job, y: Network, top: nat)
    requires Running(job, y, top) && y.responses != [] && Parse(y.responses[0]) == Ack(top)
    ensures Taken(y.slave) == top
  {
  }

  lemma TailRuns(job: Job, y: Network, top: nat)
    requires Running(job, y, top) && y.responses != []
    ensures Running(job, y.(responses := y.responses[1..]), top)
  {
    var f := Identity(y.requests);
    var g := DrawnTail(y.responses);
    RunningDrawn(job, y, top, y.requests, f, y.responses[1..], g);
  }

  lemma SameRunning(job: Job, y: Network, z: Network, top: nat)
    requires Running(job, y, top) && z.requests == y.requests && z.responses == y.responses && z.slave == y.slave
    ensures Running(job, z, top)
  {
  }

  /** The packet after the current one exists exactly if bytes are left. */
  lemma NextTop(job: Job, m: Writer)
    requires FoeWrite.Counted(job, m) && m.phase.Sending?
    ensures FoeWrite.ChunkEnd(|job.data|, m.sent) < |job.data| ==> m.number + 1 <= FoeWrite.PacketCount(|job.data|)
    ensures FoeWrite.ChunkEnd(|job.data|, m.sent) == |job.data| ==> m.number == FoeWrite.PacketCount(|job.data|)
    ensures FoeWrite.ChunkEnd(|job.data|, m.sent) <= |job.data| && m.number + 1 < WORD
  {
  }

  /** A BUSY answer is retried or ends the call; whatever else is read ends it. */
  lemma ReadsOther(q: FoeRead.Query, job: Job, y: Network)
    requires Invariant(job, y) && y.writer.phase.Sending? && Enabled(y, WriterReads)
    requires Parse(y.responses[0]) != Ack(y.writer.number)
    ensures Invariant(job, Next(q, job, y, WriterReads))
  {
    var z := Next(q, job, y, WriterReads);
    FoeWrite.StepKeepsCounted(job, y.writer, Turn(false, true, Received(y.responses[0])));
    TailRuns(job, y, y.writer.number);
    hide Running;
    if z.writer.phase.Sending? {
      SameRunning(job, y.(responses := y.responses[1..]), z, y.writer.number);
    }
  }

  lemma ReadsOpening(q: FoeRead.Query, job: Job, y: Network)
    requires Invariant(job, y) && y.writer.phase.Requesting? && Enabled(y, WriterReads)
    ensures Invariant(job, Next(q, job, y, WriterReads))
  {
    var z := Next(q, job, y, WriterReads);
    FoeWrite.StepKeepsCounted(job, y.writer, Turn(false, true, Received(y.responses[0])));
    if z.writer.phase.Sending? {
      assert Parse(y.responses[0]).Ack?;
      OpenedRuns(job, y, z);
    }
  }

  lemma OpenedRuns(job: Job, y: Network, z: Network)
    requires Opening(job, y) && y.responses != [] && Parse(y.responses[0]).Ack? && job.data != []
    requires z.requests == y.requests && z.responses == y.responses[1..] && z.slave == y.slave
    ensures Running(job, z, 1) && Taken(z.slave) == 0
  {
    hide HasTaken;
  }

  lemma GivesUpKeepsInvariant(q: FoeRead.Query, job: Job, y: Network, a: Action)
    requires Invariant(job, y) && Enabled(y, a) && (a.WriterFails? || a.WriterGivesUp?)
    ensures Invariant(job, Next(q, job, y, a))
  {
    hide Running, Opening;
    if y.writer.phase == FoeWrite.Finished(Success) {
      SameRunning(job, y, Next(q, job, y, a), FoeWrite.PacketCount(|job.data|));
    }
  }

  lemma UnrelatedKeepsInvariant(q: FoeRead.Query, job: Job, y: Network, m: Message)
    requires Invariant(job, y) && !Parse(m).Ack?
    ensures Invariant(job, Next(q, job, y, Unrelated(m)))
  {
    hide HasTaken, FoeWrite.PacketCount;
  }

  lemma NextKeepsInvariant(q: FoeRead.Query, job: Job, y: Network, a: Action)
    requires job.data != [] && Invariant(job, y) && Enabled(y, a)
    ensures Invariant(job, Next(q, job, y, a))
  {
    hide Invariant, Next, Serve;
    assert FoeWrite.Counted(job, y.writer) by {
      InvariantCounts(job, y);
    }
    match a
    case WriterSends => SendsKeepsInvariant(q, job, y);
    case WriterFails(_) => GivesUpKeepsInvariant(q, job, y, a);
    case WriterGivesUp(_) => GivesUpKeepsInvariant(q, job, y, a);
    case WriterReads => ReadsKeepsInvariant(q, job, y);
    case Deliver(busy, reply) => DeliverKeepsInvariant(q, job, y, busy, reply);
    case Unrelated(m) => UnrelatedKeepsInvariant(q, job, y, m);
    case LoseRequest(at) =>
      var f := DrawnWithout(y.requests, at);
      var g := Identity(y.responses);
      DrawnKeepsInvariant(job, y, Without(y.requests, at), f, y.responses, g);
      ChannelAction(q, job, y, a);
    case LoseResponse(at) =>
      var f := Identity(y.requests);
      var g := DrawnWithout(y.responses, at);
      DrawnKeepsInvariant(job, y, y.requests, f, Without(y.responses, at), g);
      ChannelAction(q, job, y, a);
    case DuplicateRequest(at) =>
      var f := DrawnTwice(y.requests, at);
      var g := Identity(y.responses);
      DrawnKeepsInvariant(job, y, Twice(y.requests, at), f, y.responses, g);
      ChannelAction(q, job, y, a);
    case DuplicateResponse(at) =>
      var f := Identity(y.requests);
      var g := DrawnTwice(y.responses, at);
      DrawnKeepsInvariant(job, y, y.requests, f, Twice(y.responses, at), g);
      ChannelAction(q, job, y, a);
  }

  lemma InvariantCounts(job: Job, y: Network)
    requires Invariant(job, y)
    ensures FoeWrite.Counted(job, y.writer)
  {
  }

  lemma ReadsKeepsInvariant(q: FoeRead.Query, job: Job, y: Network)
    requires job.data != [] && Invariant(job, y) && Enabled(y, WriterReads)
    ensures Invariant(job, Next(q, job, y, WriterReads))
  {
    if y.writer.phase.Requesting? {
      ReadsOpening(q, job, y);
    } else if y.writer.phase.Finished? {
      FinishedReads(q, job, y);
    } else if Parse(y.responses[0]) == Ack(y.writer.number) {
      ReadsAck(q, job, y);
    } else {
      ReadsOther(q, job, y);
    }
  }

  lemma FinishedReads(q: FoeRead.Query, job: Job, y: Network)
    requires Invariant(job, y) && Enabled(y, WriterReads) && y.writer.phase.Finished?
    ensures Invariant(job, Next(q, job, y, WriterReads))
  {
    var z := Next(q, job, y, WriterReads);
    if y.writer.phase.status == Success {
      TailRuns(job, y, FoeWrite.PacketCount(|job.data|));
      SameRunning(job, y.(responses := y.responses[1..]), z, FoeWrite.PacketCount(|job.data|));
      hide Running;
    }
  }

  lemma ChannelAction(q: FoeRead.Query, job: Job, y: Network, a: Action)
    requires FoeWrite.Sound(job, y.writer) && Enabled(y, a)
    requires a.LoseRequest? || a.LoseResponse? || a.DuplicateRequest? || a.DuplicateResponse?
    ensures Next(q, job, y, a) == y.(
      requests := if a.LoseRequest? then Without(y.requests, a.at) else if a.DuplicateRequest? then Twice(y.requests, a.at) else y.requests,
      responses := if a.LoseResponse? then Without(y.responses, a.at) else if a.DuplicateResponse? then Twice(y.responses, a.at) else y.responses)
  {
  }

  lemma {:induction false} ReachableInvariant(q: FoeRead.Query, job: Job, x: Network, actions: seq<Action>, y: Network)
    requires job.data != [] && Invariant(job, x) && Reaches(q, job, x, actions, y)
    ensures Invariant(job, y)
    decreases |actions|
  {
    hide Invariant, Next;
    if actions != [] {
      NextKeepsInvariant(q, job, x, actions[0]);
      ReachableInvariant(q, job, Next(q, job, x, actions[0]), actions[1..], y);
    }
  }

  /** Whatever the channels lose or duplicate, and however often the slave is busy: when the write reports success, the
      slave holds exactly the file, and has seen its end exactly if the length is not a multiple of 512. */
  lemma SuccessMeansDelivered(q: FoeRead.Query, job: Job, slave: Slave, actions: seq<Action>, y: Network)
    requires Reaches(q, job, Beginning(job, slave), actions, y) && y.writer.phase == FoeWrite.Finished(Success)
    ensures y.slave.Storing? && Joined(y.slave.file.copies) == job.data
    ensures y.slave.file.phase == FoeRead.Finished(Success) <==> |job.data| % 512 != 0
  {
    FoeWrite.StartIsCounted(job);
    var x := Beginning(job, slave);
    if job.data == [] || !NameOk(job.filename) {
      StaysFinished(q, job, x, actions, y);
    } else {
      ReachableInvariant(q, job, x, actions, y);
      WholeFile(|job.data|);
      assert job.data[..|job.data|] == job.data;
    }
  }

  lemma WholeFile(size: nat)
    ensures 512 * FoeWrite.PacketCount(size) >= size
  {
  }

  lemma {:induction false} StaysFinished(q: FoeRead.Query, job: Job, x: Network, actions: seq<Action>, y: Network)
    requires Reaches(q, job, x, actions, y) && x.writer.phase == FoeWrite.Finished(InvalidParam)
    ensures y.writer.phase == FoeWrite.Finished(InvalidParam)
    decreases |actions|
  {
    if actions != [] {
      FinishedStep(q, job, x, actions[0]);
      StaysFinished(q, job, Next(q, job, x, actions[0]), actions[1..], y);
    }
  }

  lemma FinishedStep(q: FoeRead.Query, job: Job, x: Network, a: Action)
    requires FoeWrite.Sound(job, x.writer) && Enabled(x, a) && x.writer.phase.Finished?
    ensures Next(q, job, x, a).writer == x.writer
  {
  }

  // ---------- Undisturbed, this is the exchange of FoeTransfer ----------

  lemma Prepend(q: FoeRead.Query, job: Job, x: Network, a: Action, rest: seq<Action>, y: Network)
    requires FoeWrite.Sound(job, x.writer) && Enabled(x, a) && Reaches(q, job, Next(q, job, x, a), rest, y)
    ensures Reaches(q, job, x, [a] + rest, y)
  {
    assert ([a] + rest)[1..] == rest;
  }

  /** A packet that is served, or met with BUSY, and its answer. */
  lemma ExchangeInSteps(q: FoeRead.Query, job: Job, w: Writer, s: Slave, busy: bool) returns (x1: Network, x2: Network, x3: Network)
    requires FoeWrite.Sound(job, w) && !w.phase.Finished?
    ensures var x0 := Network(w, false, [], [], s);
      && Enabled(x0, WriterSends) && x1 == Next(q, job, x0, WriterSends)
      && Enabled(x1, Deliver(busy, true)) && x2 == Next(q, job, x1, Deliver(busy, true))
      && Enabled(x2, WriterReads) && x3 == Next(q, job, x2, WriterReads)
      && var z := Exchange(q, job, System(w, s), if busy then AnsweredBusy else Served);
         x3 == Network(z.writer, false, [], [], z.slave)
  {
    var x0 := Network(w, false, [], [], s);
    x1 := Next(q, job, x0, WriterSends);
    assert x1 == Network(w, true, [Current(job, w)], [], s);
    x2 := Next(q, job, x1, Deliver(busy, true));
    hide Serve, FoeWrite.Step;
    x3 := Next(q, job, x2, WriterReads);
  }

  lemma {:induction false} TransferInSteps(q: FoeRead.Query, job: Job, y: System, fates: seq<Fate>) returns (actions: seq<Action>)
    requires FoeWrite.Sound(job, y.writer)
    requires forall i :: 0 <= i < |fates| ==> fates[i].Served? || fates[i].AnsweredBusy?
    ensures var z := Transfer(q, job, y, fates);
      Reaches(q, job, Network(y.writer, false, [], [], y.slave), actions, Network(z.writer, false, [], [], z.slave))
    decreases |fates|
  {
    hide Next, Exchange;
    if fates == [] {
      actions := [];
    } else if y.writer.phase.Finished? {
      FinishedStays(q, job, y, fates);
      actions := [];
    } else {
      var busy := fates[0].AnsweredBusy?;
      var x0 := Network(y.writer, false, [], [], y.slave);
      var x1, x2, x3 := ExchangeInSteps(q, job, y.writer, y.slave, busy);
      var rest := TransferInSteps(q, job, Exchange(q, job, y, fates[0]), fates[1..]);
      var z := Transfer(q, job, y, fates);
      var end := Network(z.writer, false, [], [], z.slave);
      Prepend(q, job, x2, WriterReads, rest, end);
      Prepend(q, job, x1, Deliver(busy, true), [WriterReads] + rest, end);
      Prepend(q, job, x0, WriterSends, [Deliver(busy, true)] + ([WriterReads] + rest), end);
      actions := [WriterSends] + ([Deliver(busy, true)] + ([WriterReads] + rest));
    }
  }

  /** Every file that fits can be written: some run of the system ends in success. */
  lemma WriteCanSucceed(q: FoeRead.Query, job: Job) returns (actions: seq<Action>, y: Network)
    requires 0 < |job.data| <= q.capacity && NameOk(job.filename)
    ensures Reaches(q, job, Beginning(job, Idle), actions, y) && y.writer.phase == FoeWrite.Finished(Success)
  {
    hide Reaches, Transfer;
    var counts: seq<nat> := seq(FoeWrite.PacketCount(|job.data|), _ => 0);
    var fates := [Served] + PacketFates(counts);
    ServedFromStart(q, job, counts);
    OnlyServedOrBusy(counts);
    actions := TransferInSteps(q, job, FoeTransfer.Initial(job), fates);
    var z := Transfer(q, job, FoeTransfer.Initial(job), fates);
    y := Network(z.writer, false, [], [], z.slave);
  }

  lemma {:induction false} OnlyServedOrBusy(counts: seq<nat>)
    ensures forall i :: 0 <= i < |PacketFates(counts)| ==> PacketFates(counts)[i].Served? || PacketFates(counts)[i].AnsweredBusy?
    decreases |counts|
  {
    if counts != [] {
      OnlyServedOrBusy(counts[1..]);
    }
  }
}
