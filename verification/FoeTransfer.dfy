/**
 foe_write against a slave that stores with the receive rule of foe_read and answers BUSY when it likes: the two
 are inverse, and a receiver sees the end of the file exactly when its length is not a multiple of 512.
 */
module FoeTransfer {
  import opened Endian
  import opened Copies
  import opened Foe
  import FoeRead
  import FoeWrite

  type Job = FoeWrite.Job
  type Writer = FoeWrite.Writer
  type Reader = FoeRead.Reader

  // ---------- The slave ----------

  /** The slave's side of the file: none before the write request. */
  datatype Slave = Idle | Storing(file: Reader)

  /** What happens to one packet: it is served, answered BUSY, lost, or its answer is lost. */
  datatype Fate = Served | AnsweredBusy | LostRequest | LostAnswer

  function EmptyFile(): Reader {
    FoeRead.Reader(FoeRead.Waiting, 0, 1, [])
  }

  function AckMessage(number: u32): Message {
    Message(4, number, [])
  }

  function BusyMessage(): Message {
    Message(6, 0, [])
  }

  function ErrorMessage(): Message {
    Message(5, 0, [])
  }

  /** A served packet: the write request opens an empty file, DATA goes through the receive rule of foe_read. */
  function Serve(q: FoeRead.Query, s: Slave, p: Packet): (Slave, Message) {
    match p
    case WriteRequest(_) => (Storing(EmptyFile()), AckMessage(0))
    case DataPacket(number, body) =>
      if s.Idle? || !s.file.phase.Waiting? || |body| > 512 then (s, ErrorMessage())
      else
        var (file, acks) := FoeRead.OnData(q, s.file, number, body, true);
        (Storing(file), if acks == [AckPacket(number)] then AckMessage(number) else ErrorMessage())
    case ReadRequest(_) => (s, ErrorMessage())
    case AckPacket(_) => (s, ErrorMessage())
  }

  // ---------- Writer and slave together ----------

  datatype System = System(writer: Writer, slave: Slave)

  /** The turn the writer sees when its current packet meets its fate. */
  function FateTurn(q: FoeRead.Query, job: Job, y: System, fate: Fate): Turn
    requires FoeWrite.Sound(job, y.writer) && !y.writer.phase.Finished?
  {
    var p := if y.writer.phase.Requesting? then WriteRequest(job.filename) else FoeWrite.NextPacket(job, y.writer);
    Turn(false, true,
         if fate.Served? then Received(Serve(q, y.slave, p).1) else if fate.AnsweredBusy? then Received(BusyMessage()) else NoMessage)
  }

  /** One packet of the writer meets its fate, and the writer what the mailbox then holds. */
  function Exchange(q: FoeRead.Query, job: Job, y: System, fate: Fate): (z: System)
    requires FoeWrite.Sound(job, y.writer)
    ensures FoeWrite.Sound(job, z.writer)
  {
    if y.writer.phase.Finished? then y
    else
      var p := if y.writer.phase.Requesting? then WriteRequest(job.filename) else FoeWrite.NextPacket(job, y.writer);
      var slave := if fate.Served? || fate.LostAnswer? then Serve(q, y.slave, p).0 else y.slave;
      System(FoeWrite.Step(job, y.writer, FateTurn(q, job, y, fate)).0, slave)
  }

  function Transfer(q: FoeRead.Query, job: Job, y: System, fates: seq<Fate>): (z: System)
    requires FoeWrite.Sound(job, y.writer)
    ensures FoeWrite.Sound(job, z.writer)
    decreases |fates|
  {
    if fates == [] then y else Transfer(q, job, Exchange(q, job, y, fates[0]), fates[1..])
  }

  function Initial(job: Job): System {
    System(FoeWrite.Start(job), Idle)
  }

  /** The slave holds the first bytes of the file, up to the packet before number. */
  ghost predicate Stores(job: Job, s: Slave, sent: nat, number: u32) {
    && s.Storing? && s.file.phase.Waiting? && sent <= |job.data|
    && s.file.received == sent && s.file.expected == number && Joined(s.file.copies) == job.data[..sent]
  }

  /** All bytes are stored; the file is closed exactly if the last packet was short. */
  ghost predicate StoredAll(job: Job, s: Slave) {
    && s.Storing? && Joined(s.file.copies) == job.data && s.file.received == |job.data|
    && s.file.phase == if |job.data| % 512 != 0 then FoeRead.Finished(Success) else FoeRead.Waiting
  }

  /** The slave keeps up with the writer, as long as it has room. */
  ghost predicate Invariant(q: FoeRead.Query, job: Job, y: System) {
    && FoeWrite.Counted(job, y.writer)
    && (y.writer.phase.Sending? ==>
          Stores(job, y.slave, y.writer.sent, y.writer.number) && y.writer.sent <= q.capacity)
    && (y.writer.phase == FoeWrite.Finished(Success) ==> StoredAll(job, y.slave) && |job.data| <= q.capacity)
  }

  /** What the receive rule makes of the next chunk. */
  lemma TakesChunk(q: FoeRead.Query, job: Job, file: Reader, sent: nat, number: u32)
    requires Stores(job, Storing(file), sent, number) && sent < |job.data| && sent % 512 == 0 && number + 1 < WORD
    requires FoeWrite.ChunkEnd(|job.data|, sent) <= q.capacity
    ensures var end := FoeWrite.ChunkEnd(|job.data|, sent);
      var (file', acks) := FoeRead.OnData(q, file, number, job.data[sent..end], true);
      && acks == [AckPacket(number)]
      && (end < |job.data| ==> Stores(job, Storing(file'), end, number + 1))
      && (end == |job.data| ==> StoredAll(job, Storing(file')))
  {
    var end := FoeWrite.ChunkEnd(|job.data|, sent);
    var body := job.data[sent..end];
    FoeRead.AcceptedData(q, file, number, body, true);
    LastIsShort(|job.data|, sent);
    hide FoeRead.OnData, FoeWrite.ChunkEnd, Joined;
    JoinedAppend(file.copies, Copy(file.received, body, number));
    assert job.data[..sent] + body == job.data[..end];
    assert job.data[..|job.data|] == job.data;
  }

  /** The slave takes the current packet if it has room for it. */
  lemma TakesPacket(q: FoeRead.Query, job: Job, m: Writer, s: Slave)
    requires FoeWrite.Counted(job, m) && m.phase.Sending? && Stores(job, s, m.sent, m.number)
    requires FoeWrite.ChunkEnd(|job.data|, m.sent) <= q.capacity
    ensures var (s', answer) := Serve(q, s, FoeWrite.NextPacket(job, m));
      var end := FoeWrite.ChunkEnd(|job.data|, m.sent);
      && answer == AckMessage(m.number)
      && (end < |job.data| ==> Stores(job, s', end, m.number + 1))
      && (end == |job.data| ==> StoredAll(job, s'))
  {
    FoeWrite.SendingPacket(job, m);
    TakesChunk(q, job, s.file, m.sent, m.number);
    hide FoeRead.OnData, StoredAll, Joined;
  }

  /** Without room the slave answers with an error. */
  lemma RefusesPacket(q: FoeRead.Query, job: Job, m: Writer, s: Slave)
    requires FoeWrite.Counted(job, m) && m.phase.Sending? && Stores(job, s, m.sent, m.number)
    requires FoeWrite.ChunkEnd(|job.data|, m.sent) > q.capacity
    ensures Serve(q, s, FoeWrite.NextPacket(job, m)).1 == ErrorMessage()
  {
    FoeWrite.SendingPacket(job, m);
  }

  lemma LastIsShort(size: nat, sent: nat)
    requires sent < size && sent % 512 == 0
    ensures var end := FoeWrite.ChunkEnd(size, sent);
      && (end < size ==> end - sent == 512)
      && (end == size ==> (end - sent < 512 <==> size % 512 != 0))
  {
  }

  lemma ExchangeKeepsInvariant(q: FoeRead.Query, job: Job, y: System, fate: Fate)
    requires Invariant(q, job, y)
    ensures Invariant(q, job, Exchange(q, job, y, fate))
  {
    if !y.writer.phase.Finished? {
      FoeWrite.StepKeepsCounted(job, y.writer, FateTurn(q, job, y, fate));
    }
    if y.writer.phase.Sending? {
      FoeWrite.SendingPacket(job, y.writer);
      if FoeWrite.ChunkEnd(|job.data|, y.writer.sent) <= q.capacity {
        TakesPacket(q, job, y.writer, y.slave);
      } else {
        RefusesPacket(q, job, y.writer, y.slave);
      }
      hide FoeWrite.NextPacket, FoeWrite.Counted, FoeWrite.ChunkEnd, Serve, Stores, StoredAll;
      var z := Exchange(q, job, y, fate);
    }
  }

  lemma {:induction false} TransferKeepsInvariant(q: FoeRead.Query, job: Job, y: System, fates: seq<Fate>)
    requires Invariant(q, job, y)
    ensures Invariant(q, job, Transfer(q, job, y, fates))
    decreases |fates|
  {
    if fates != [] {
      ExchangeKeepsInvariant(q, job, y, fates[0]);
      TransferKeepsInvariant(q, job, Exchange(q, job, y, fates[0]), fates[1..]);
    }
  }

  /** However packets and answers fare, a write that reports success has stored exactly the file, and the receiver
      has seen its end exactly when the length is not a multiple of 512. */
  lemma SuccessMeansStored(q: FoeRead.Query, job: Job, fates: seq<Fate>)
    ensures var y := Transfer(q, job, Initial(job), fates);
      y.writer.phase == FoeWrite.Finished(Success) ==>
        && y.slave.Storing? && Joined(y.slave.file.copies) == job.data
        && (y.slave.file.phase == FoeRead.Finished(Success) <==> |job.data| % 512 != 0)
        && (y.slave.file.phase == FoeRead.Waiting <==> |job.data| % 512 == 0)
        && |job.data| <= q.capacity
  {
    FoeWrite.StartIsCounted(job);
    TransferKeepsInvariant(q, job, Initial(job), fates);
  }

  // ---------- How many BUSY answers a write survives ----------

  function BusyFates(n: nat): seq<Fate> {
    seq(n, _ => AnsweredBusy)
  }

  /** Each packet is answered BUSY as often as its count says, and then served. */
  function PacketFates(counts: seq<nat>): seq<Fate> {
    if counts == [] then [] else BusyFates(counts[0]) + [Served] + PacketFates(counts[1..])
  }

  predicate AllWithinLimit(counts: seq<nat>) {
    forall i :: 0 <= i < |counts| ==> counts[i] <= 50
  }

  lemma {:induction false} TransferAppend(q: FoeRead.Query, job: Job, y: System, first: seq<Fate>, second: seq<Fate>)
    requires FoeWrite.Sound(job, y.writer)
    ensures Transfer(q, job, y, first + second) == Transfer(q, job, Transfer(q, job, y, first), second)
    decreases |first|
  {
    hide Exchange;
    if first == [] {
      assert first + second == second;
    } else {
      assert (first + second)[1..] == first[1..] + second;
      TransferAppend(q, job, Exchange(q, job, y, first[0]), first[1..], second);
    }
  }

  lemma {:induction false} FinishedStays(q: FoeRead.Query, job: Job, y: System, fates: seq<Fate>)
    requires y.writer.phase.Finished?
    ensures Transfer(q, job, y, fates) == y
    decreases |fates|
  {
    if fates != [] {
      FinishedStays(q, job, y, fates[1..]);
    }
  }

  lemma {:induction false} BusyRun(q: FoeRead.Query, job: Job, y: System, n: nat)
    requires FoeWrite.Sound(job, y.writer) && y.writer.phase.Sending? && y.writer.busy <= 50
    ensures var z := Transfer(q, job, y, BusyFates(n));
      if y.writer.busy + n <= 50 then z == y.(writer := y.writer.(busy := y.writer.busy + n))
      else z.writer.phase == FoeWrite.Finished(Busy)
    decreases n
  {
    if n > 0 {
      assert BusyFates(n)[1..] == BusyFates(n - 1);
      var z := Exchange(q, job, y, AnsweredBusy);
      assert z.slave == y.slave && z.writer == y.writer.(busy := y.writer.busy + 1, phase := z.writer.phase);
      if y.writer.busy + 1 <= 50 {
        BusyRun(q, job, z, n - 1);
      } else {
        FinishedStays(q, job, z, BusyFates(n - 1));
      }
    }
  }

  lemma ServedMovesOn(q: FoeRead.Query, job: Job, y: System)
    requires Invariant(q, job, y) && y.writer.phase.Sending? && |job.data| <= q.capacity
    ensures var z := Exchange(q, job, y, Served);
      var end := FoeWrite.ChunkEnd(|job.data|, y.writer.sent);
      && Invariant(q, job, z) && z.writer.sent == end && z.writer.busy == 0
      && z.writer.phase == if end < |job.data| then FoeWrite.Sending else FoeWrite.Finished(Success)
  {
    ExchangeKeepsInvariant(q, job, y, Served);
    TakesPacket(q, job, y.writer, y.slave);
    hide FoeWrite.NextPacket, Serve, Invariant;
  }

  lemma {:induction false} PacketsRun(q: FoeRead.Query, job: Job, y: System, counts: seq<nat>)
    requires Invariant(q, job, y) && y.writer.phase.Sending? && y.writer.busy == 0 && |job.data| <= q.capacity
    requires |counts| == FoeWrite.PacketCount(|job.data| - y.writer.sent)
    ensures Transfer(q, job, y, PacketFates(counts)).writer.phase
         == FoeWrite.Finished(if AllWithinLimit(counts) then Success else Busy)
    decreases |counts|
  {
    FoeWrite.CountAfter(|job.data|, y.writer.sent);
    var n := counts[0];
    BusyRun(q, job, y, n);
    var z := Transfer(q, job, y, BusyFates(n));
    TransferAppend(q, job, y, BusyFates(n) + [Served], PacketFates(counts[1..]));
    TransferAppend(q, job, y, BusyFates(n), [Served]);
    if n > 50 {
      FinishedStays(q, job, z, [Served]);
      FinishedStays(q, job, z, PacketFates(counts[1..]));
    } else {
      WithinLimitTail(counts);
      BusyKeepsInvariant(q, job, y, n);
      ServedMovesOn(q, job, z);
      var w := Exchange(q, job, z, Served);
      OneFate(q, job, z, Served);
      hide *;
      if w.writer.phase.Sending? {
        PacketsRun(q, job, w, counts[1..]);
      } else {
        FinishedStays(q, job, w, PacketFates(counts[1..]));
        NoneLeft(counts[1..], |job.data| - w.writer.sent);
      }
    }
  }

  lemma OneFate(q: FoeRead.Query, job: Job, y: System, fate: Fate)
    requires FoeWrite.Sound(job, y.writer)
    ensures Transfer(q, job, y, [fate]) == Exchange(q, job, y, fate)
  {
    assert [fate][1..] == [];
  }

  lemma BusyKeepsInvariant(q: FoeRead.Query, job: Job, y: System, n: nat)
    requires Invariant(q, job, y) && y.writer.phase.Sending? && n <= 50
    ensures Invariant(q, job, y.(writer := y.writer.(busy := n)))
  {
  }

  lemma WithinLimitTail(counts: seq<nat>)
    requires counts != [] && counts[0] <= 50
    ensures AllWithinLimit(counts) <==> AllWithinLimit(counts[1..])
  {
    if AllWithinLimit(counts[1..]) {
      forall i | 0 <= i < |counts|
        ensures counts[i] <= 50
      {
        assert i > 0 ==> counts[i] == counts[1..][i - 1];
      }
    }
  }

  lemma NoneLeft(counts: seq<nat>, rest: nat)
    requires |counts| == FoeWrite.PacketCount(rest) && rest == 0
    ensures AllWithinLimit(counts)
  {
  }

  lemma ServedFromStart(q: FoeRead.Query, job: Job, counts: seq<nat>)
    requires 0 < |job.data| <= q.capacity && NameOk(job.filename)
    requires |counts| == FoeWrite.PacketCount(|job.data|)
    ensures Transfer(q, job, Initial(job), [Served] + PacketFates(counts)).writer.phase
         == FoeWrite.Finished(if AllWithinLimit(counts) then Success else Busy)
  {
    FoeWrite.StartIsCounted(job);
    var y := Initial(job);
    var z := Exchange(q, job, y, Served);
    ExchangeKeepsInvariant(q, job, y, Served);
    assert z.writer == FoeWrite.Writer(FoeWrite.Sending, 0, 1, 0);
    OneFate(q, job, y, Served);
    TransferAppend(q, job, y, [Served], PacketFates(counts));
    PacketsRun(q, job, z, counts);
  }

  /** With every packet answered BUSY some times and then served, the write succeeds if and only if the file fits the
      receiver and no packet is answered BUSY more than 50 times in a row; a file that fits else ends with BUSY. */
  lemma BusyAnswersAreSurvivedIff(q: FoeRead.Query, job: Job, counts: seq<nat>)
    requires job.data != [] && NameOk(job.filename)
    requires |counts| == FoeWrite.PacketCount(|job.data|)
    ensures var phase := Transfer(q, job, Initial(job), [Served] + PacketFates(counts)).writer.phase;
      && (phase == FoeWrite.Finished(Success) <==> AllWithinLimit(counts) && |job.data| <= q.capacity)
      && (|job.data| <= q.capacity && !AllWithinLimit(counts) ==> phase == FoeWrite.Finished(Busy))
  {
    SuccessMeansStored(q, job, [Served] + PacketFates(counts));
    if |job.data| <= q.capacity {
      ServedFromStart(q, job, counts);
    }
  }

  /** Some exchange makes the write succeed. */
  ghost predicate CanSucceed(q: FoeRead.Query, job: Job) {
    exists fates: seq<Fate> :: Transfer(q, job, Initial(job), fates).writer.phase == FoeWrite.Finished(Success)
  }

  /** A write can succeed if and only if the file fits the receiver. */
  lemma WriteCanSucceedIff(q: FoeRead.Query, job: Job)
    requires job.data != [] && NameOk(job.filename)
    ensures CanSucceed(q, job) <==> |job.data| <= q.capacity
  {
    if |job.data| <= q.capacity {
      var counts: seq<nat> := seq(FoeWrite.PacketCount(|job.data|), _ => 0);
      ServedFromStart(q, job, counts);
    }
    forall fates: seq<Fate> | Transfer(q, job, Initial(job), fates).writer.phase == FoeWrite.Finished(Success)
      ensures |job.data| <= q.capacity
    {
      SuccessMeansStored(q, job, fates);
    }
  }

  // ---------- foe_read takes back what foe_write sends ----------

  /** The DATA packets of a file from byte sent on, as a peer of foe_read sends them, one per turn. */
  function DataTurns(data: FoeWrite.Content, sent: nat): seq<Turn>
    requires sent <= |data| && (sent % 512 == 0 || sent == |data|)
    decreases |data| - sent
  {
    if sent == |data| then []
    else
      var end := FoeWrite.ChunkEnd(|data|, sent);
      [Turn(false, true, Received(Message(3, sent / 512 + 1, data[sent..end])))] + DataTurns(data, end)
  }

  /** The file is received, or does not fit. */
  ghost predicate ReadResult(q: FoeRead.Query, job: Job, file: Reader) {
    if |job.data| <= q.capacity then StoredAll(job, Storing(file)) else file.phase == FoeRead.Finished(InvalidParam)
  }

  lemma {:induction false} ReadsFrom(q: FoeRead.Query, job: Job, file: Reader, sent: nat)
    requires sent < |job.data| && sent % 512 == 0 && Stores(job, Storing(file), sent, sent / 512 + 1)
    ensures ReadResult(q, job, FoeRead.Run(q, file, DataTurns(job.data, sent)).0)
    decreases |job.data| - sent
  {
    var number := sent / 512 + 1;
    var turns := DataTurns(job.data, sent);
    var end := FoeWrite.ChunkEnd(|job.data|, sent);
    assert turns[1..] == DataTurns(job.data, end);
    var file' := FoeRead.Step(q, file, turns[0]).0;
    assert file' == FoeRead.OnData(q, file, number, job.data[sent..end], true).0;
    assert FoeRead.Run(q, file, turns).0 == FoeRead.Run(q, file', turns[1..]).0 by {
      hide FoeRead.Step, FoeRead.OnData;
    }
    if end <= q.capacity {
      TakesChunk(q, job, file, sent, number);
      hide FoeRead.Step, FoeRead.OnData, StoredAll;
      if end < |job.data| {
        ReadsFrom(q, job, file', end);
      } else {
        assert FoeRead.Run(q, file', []).0 == file';
      }
    } else {
      assert file'.phase == FoeRead.Finished(InvalidParam);
      assert FoeRead.Run(q, file', turns[1..]).0 == file';
    }
  }

  /** foe_read fed with the packets of a file gives back the file if it fits, and returns exactly when its length is
      not a multiple of 512; otherwise it is still waiting with all of it received. */
  lemma ReadTakesBackWritten(q: FoeRead.Query, job: Job)
    requires job.data != [] && NameOk(q.filename)
    ensures var m := FoeRead.Run(q, FoeRead.Start(q), [Turn(false, true, NoMessage)] + DataTurns(job.data, 0)).0;
      if |job.data| <= q.capacity then
        && Joined(m.copies) == job.data && m.received == |job.data|
        && m.phase == if |job.data| % 512 != 0 then FoeRead.Finished(Success) else FoeRead.Waiting
      else m.phase == FoeRead.Finished(InvalidParam)
  {
    var t := Turn(false, true, NoMessage);
    assert ([t] + DataTurns(job.data, 0))[1..] == DataTurns(job.data, 0);
    if q.capacity > 0 {
      assert FoeRead.Step(q, FoeRead.Start(q), t).0 == EmptyFile();
      assert Joined(EmptyFile().copies) == job.data[..0];
      ReadsFrom(q, job, EmptyFile(), 0);
    }
  }
}
