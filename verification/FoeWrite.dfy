/** foe_write of src/al/foe.c: numbered DATA packets, each sent until acknowledged, with bounded BUSY retries. */
module FoeWrite {
  import opened Endian
  import opened Wrappers
  import opened Foe

  /** A file whose length is a uint32_t. */
  type Content = s: seq<byte> | |s| < WORD

  datatype Job = Job(filename: string, data: Content)

  datatype Phase = Requesting | Sending | Finished(status: Status)

  datatype Writer = Writer(phase: Phase, sent: nat, number: u32, busy: nat)

  function Start(job: Job): Writer {
    Writer(if job.data == [] || !NameOk(job.filename) then Finished(InvalidParam) else Requesting, 0, 1, 0)
  }

  function ChunkEnd(size: nat, sent: nat): nat {
    if size - sent > MAX_DATA then sent + MAX_DATA else size
  }

  predicate Sound(job: Job, m: Writer) {
    m.phase.Requesting? || m.phase.Sending? ==> m.sent < |job.data|
  }

  /** The packet for the bytes from sent on. */
  function NextPacket(job: Job, m: Writer): Packet
    requires m.sent < |job.data|
  {
    DataPacket(m.number, job.data[m.sent..ChunkEnd(|job.data|, m.sent)])
  }

  /** The answer to the write request has to acknowledge packet 0. */
  function OnFirstReply(job: Job, m: Writer, p: Parsed): Writer {
    match p
    case Failed(status) => m.(phase := Finished(status))
    case Ack(number) => m.(phase := if number == 0 then Sending else Finished(Error))
    case Data(_, _) => m.(phase := Finished(Error))
    case Retry => m.(phase := Finished(Error))
  }

  function OnReply(job: Job, m: Writer, p: Parsed): Writer
    requires m.sent < |job.data|
  {
    match p
    case Failed(status) => m.(phase := Finished(status))
    case Data(_, _) => m.(phase := Finished(Error))
    case Ack(number) =>
      if number != m.number then m.(phase := Finished(Error))
      else
        var sent := ChunkEnd(|job.data|, m.sent);
        Writer(if sent < |job.data| then Sending else Finished(Success), sent, (m.number + 1) % WORD, 0)
    case Retry => m.(phase := if m.busy + 1 > MAX_BUSY_RETRIES then Finished(Busy) else Sending, busy := m.busy + 1)
  }

  /** One turn: the new state and what was put into the mailbox. */
  function Step(job: Job, m: Writer, t: Turn): (r: (Writer, seq<Packet>))
    requires Sound(job, m)
    ensures Sound(job, r.0) && !r.0.phase.Requesting?
  {
    match m.phase
    case Requesting =>
      if !t.sendOk then (m.(phase := Finished(MailboxError)), [])
      else (OnFirstReply(job, m, Reply(t.reception)), [WriteRequest(job.filename)])
    case Sending =>
      if t.late then (m.(phase := Finished(Timeout)), [])
      else if !t.sendOk then (m.(phase := Finished(MailboxError)), [])
      else (OnReply(job, m, Reply(t.reception)), [NextPacket(job, m)])
    case Finished(_) => (m, [])
  }

  /** The call under a script of turns; it is still running if the script ends first. */
  function Run(job: Job, m: Writer, turns: seq<Turn>): (Writer, seq<Packet>)
    requires Sound(job, m)
    decreases |turns|
  {
    if m.phase.Finished? || turns == [] then (m, [])
    else
      var (m1, out1) := Step(job, m, turns[0]);
      var (m2, out2) := Run(job, m1, turns[1..]);
      (m2, out1 + out2)
  }

  // ---------- Termination: whatever the slave answers ----------

  function PacketCount(size: nat): nat {
    (size + MAX_DATA - 1) / MAX_DATA
  }

  /** Turns still possible: 51 for each packet not acknowledged, less the retries used on the current one. */
  function Fuel(job: Job, m: Writer): int
    requires Sound(job, m)
  {
    match m.phase
    case Requesting => 1 + (MAX_BUSY_RETRIES + 1) * PacketCount(|job.data|)
    case Sending => (MAX_BUSY_RETRIES + 1) * PacketCount(|job.data| - m.sent) - m.busy
    case Finished(_) => 0
  }

  /** The counters of a running call fit together: whole packets are sent, numbered from 1. */
  ghost predicate Counted(job: Job, m: Writer) {
    && Sound(job, m)
    && (m.phase.Requesting? ==> m.sent == 0 && m.number == 1 && m.busy == 0)
    && (m.phase.Sending? ==> m.busy <= MAX_BUSY_RETRIES && m.number >= 1 && m.sent == MAX_DATA * (m.number - 1))
  }

  lemma StartIsCounted(job: Job)
    ensures Counted(job, Start(job))
  {
  }

  lemma CountAfter(size: nat, sent: nat)
    requires sent < size
    ensures PacketCount(size - sent) == 1 + PacketCount(size - ChunkEnd(size, sent))
  {
  }

  lemma StepKeepsCounted(job: Job, m: Writer, t: Turn)
    requires Counted(job, m) && !m.phase.Finished?
    ensures Counted(job, Step(job, m, t).0)
  {
  }

  /** Every turn burns fuel, and what it sends costs one turn. */
  lemma StepBurnsFuel(job: Job, m: Writer, t: Turn)
    requires Counted(job, m) && !m.phase.Finished?
    ensures 0 <= Fuel(job, Step(job, m, t).0) < Fuel(job, m) && |Step(job, m, t).1| <= 1
  {
    CountAfter(|job.data|, m.sent);
  }

  lemma {:induction false} RunWithinFuel(job: Job, m: Writer, turns: seq<Turn>)
    requires Counted(job, m)
    ensures var (m', out) := Run(job, m, turns);
      && Fuel(job, m) >= 0 && |out| <= Fuel(job, m) && Counted(job, m')
      && (|turns| >= Fuel(job, m) ==> m'.phase.Finished?)
    decreases |turns|
  {
    hide Step, Fuel;
    if m.phase.Finished? || turns == [] {
      FuelIsPositive(job, m);
    } else {
      StepKeepsCounted(job, m, turns[0]);
      StepBurnsFuel(job, m, turns[0]);
      RunWithinFuel(job, Step(job, m, turns[0]).0, turns[1..]);
    }
  }

  lemma FuelIsPositive(job: Job, m: Writer)
    requires Counted(job, m)
    ensures if m.phase.Finished? then Fuel(job, m) == 0 else Fuel(job, m) > 0
  {
    if m.phase.Sending? {
      CountAfter(|job.data|, m.sent);
    }
  }

  /** Whatever the slave answers, the call ends within 1 + 51 * ceil(size / 512) turns, and the write request is
      followed by at most 51 * ceil(size / 512) DATA messages. */
  lemma WriteTerminates(job: Job, turns: seq<Turn>)
    ensures var (m, out) := Run(job, Start(job), turns);
      && (|turns| >= 1 + 51 * PacketCount(|job.data|) ==> m.phase.Finished?)
      && |out| <= 1 + 51 * PacketCount(|job.data|)
  {
    StartIsCounted(job);
    RunWithinFuel(job, Start(job), turns);
  }

  // ---------- What is sent ----------

  /** Packet number k of the file, from 1. */
  function KthPacket(data: Content, k: u32): Packet
    requires 1 <= k <= PacketCount(|data|)
  {
    DataPacket(k, data[MAX_DATA * (k - 1)..ChunkEnd(|data|, MAX_DATA * (k - 1))])
  }

  /** Packets of the file, from the first on, each once or repeated in place, never more than 51 times. */
  ghost predicate InOrder(data: Content, out: seq<Packet>) {
    && (forall i :: 0 <= i < |out| ==>
          out[i].DataPacket? && 1 <= out[i].number <= PacketCount(|data|) && out[i] == KthPacket(data, out[i].number))
    && (out != [] ==> out[0].number == 1)
    && (forall i :: 0 <= i < |out| - 1 ==> out[i].number <= out[i + 1].number <= out[i].number + 1)
    && (forall i :: 0 <= i < |out| - (MAX_BUSY_RETRIES + 1) ==> out[i].number < out[i + (MAX_BUSY_RETRIES + 1)].number)
  }

  /** The DATA packets so far: complete up to the current one, which ends them as often as it met BUSY. */
  ghost predicate Sent(job: Job, m: Writer, out: seq<Packet>) {
    && InOrder(job.data, out)
    && (m.phase.Requesting? ==> out == [])
    && (m.phase.Sending? ==>
          && m.busy <= |out|
          && (forall i :: |out| - m.busy <= i < |out| ==> out[i].number == m.number)
          && (forall i :: 0 <= i < |out| - m.busy ==> out[i].number < m.number)
          && (|out| > m.busy ==> out[|out| - m.busy - 1].number == m.number - 1)
          && (|out| == m.busy ==> m.number == 1))
    && (m.phase == Finished(Success) ==> out != [] && out[|out| - 1].number == PacketCount(|job.data|))
  }

  lemma SendingPacket(job: Job, m: Writer)
    requires Counted(job, m) && m.phase.Sending?
    ensures 1 <= m.number <= PacketCount(|job.data|) && NextPacket(job, m) == KthPacket(job.data, m.number)
    ensures ChunkEnd(|job.data|, m.sent) == |job.data| ==> m.number == PacketCount(|job.data|)
    ensures m.number + 1 < WORD
  {
  }

  /** The current packet goes out once more. */
  lemma AppendCurrent(job: Job, m: Writer, out: seq<Packet>)
    requires Counted(job, m) && m.phase.Sending? && Sent(job, m, out)
    ensures InOrder(job.data, out + [NextPacket(job, m)])
  {
    hide KthPacket, PacketCount;
    SendingPacket(job, m);
    var p := NextPacket(job, m);
    hide NextPacket, Counted;
    var longer := out + [p];
    var i := |longer| - 1 - (MAX_BUSY_RETRIES + 1);
    assert i >= 0 ==> longer[i].number < m.number;
    if |out| > 0 {
      assert longer[|out| - 1] == out[|out| - 1];
    }
  }

  /** The packet was acknowledged: the next one is current, and none of it has gone out. */
  lemma AcknowledgedKeepsSent(job: Job, m: Writer, out: seq<Packet>, p: Packet)
    requires Counted(job, m) && m.phase.Sending? && Sent(job, m, out) && p == NextPacket(job, m)
    ensures Sent(job, OnReply(job, m, Ack(m.number)), out + [p])
  {
    AppendCurrent(job, m, out);
    SendingPacket(job, m);
    hide InOrder, KthPacket, PacketCount;
    assert (out + [p])[|out|] == p;
  }

  /** The slave was busy: the packet goes out again, and counts among the last ones. */
  lemma RetryKeepsSent(job: Job, m: Writer, out: seq<Packet>, p: Packet)
    requires Counted(job, m) && m.phase.Sending? && Sent(job, m, out) && p == NextPacket(job, m)
    ensures Sent(job, OnReply(job, m, Retry), out + [p])
  {
    AppendCurrent(job, m, out);
    hide InOrder, KthPacket, PacketCount;
    var longer := out + [p];
    assert |out| > m.busy ==> longer[|longer| - (m.busy + 1) - 1] == out[|out| - m.busy - 1];
  }

  lemma EndKeepsSent(job: Job, m: Writer, out: seq<Packet>, status: Status)
    requires InOrder(job.data, out) && status != Success
    ensures Sent(job, m.(phase := Finished(status)), out)
  {
  }

  lemma StepKeepsSent(job: Job, m: Writer, t: Turn, out: seq<Packet>)
    requires Counted(job, m) && m.phase.Sending? && Sent(job, m, out)
    ensures var (m', more) := Step(job, m, t); Sent(job, m', out + more)
  {
    hide InOrder, NextPacket;
    AppendCurrent(job, m, out);
    AcknowledgedKeepsSent(job, m, out, NextPacket(job, m));
    RetryKeepsSent(job, m, out, NextPacket(job, m));
    assert out + [] == out;
    var (m', more) := Step(job, m, t);
    hide Sent, Counted;
    if m'.phase.Finished? && m'.phase.status != Success {
      EndKeepsSent(job, m', out + more, m'.phase.status);
    }
  }

  lemma {:induction false} RunKeepsSent(job: Job, m: Writer, turns: seq<Turn>, out: seq<Packet>)
    requires Counted(job, m) && !m.phase.Requesting? && Sent(job, m, out)
    ensures var (m', more) := Run(job, m, turns); Sent(job, m', out + more)
    decreases |turns|
  {
    hide Step, Sent;
    if m.phase.Finished? || turns == [] {
      assert out + [] == out;
    } else {
      var (m1, out1) := Step(job, m, turns[0]);
      StepKeepsCounted(job, m, turns[0]);
      StepKeepsSent(job, m, turns[0], out);
      RunKeepsSent(job, m1, turns[1..], out + out1);
      var (m2, out2) := Run(job, m1, turns[1..]);
      assert (out + out1) + out2 == out + (out1 + out2);
    }
  }

  /** After the first turn the call is sending, or has failed. */
  lemma FirstTurn(job: Job, t: Turn)
    requires Start(job).phase.Requesting?
    ensures var (m, out) := Step(job, Start(job), t);
      (m == Writer(Sending, 0, 1, 0) && out == [WriteRequest(job.filename)]) || (m.phase.Finished? && m.phase.status != Success)
  {
  }

  lemma NothingSent(job: Job, m: Writer)
    requires Counted(job, m) && m.phase.Sending? && m.number == 1 && m.busy == 0
    ensures Sent(job, m, [])
  {
  }

  lemma SuccessSent(job: Job, m: Writer, out: seq<Packet>)
    requires Sent(job, m, out) && m.phase == Finished(Success)
    ensures InOrder(job.data, out) && out != [] && out[|out| - 1].DataPacket? && out[|out| - 1].number == PacketCount(|job.data|)
  {
  }

  /** Success means that the slave was sent the whole file: the request, then every packet from 1 to the last in
      order, a repeated one only where it stood, and none more than 51 times. */
  lemma SuccessMeansSent(job: Job, turns: seq<Turn>)
    requires Run(job, Start(job), turns).0.phase == Finished(Success)
    ensures var out := Run(job, Start(job), turns).1;
      && |out| >= 2 && out[0] == WriteRequest(job.filename) && InOrder(job.data, out[1..])
      && out[|out| - 1].DataPacket? && out[|out| - 1].number == PacketCount(|job.data|)
  {
    var m0 := Start(job);
    FirstTurn(job, turns[0]);
    hide InOrder, NextPacket, Sent, Step;
    var (m1, out1) := Step(job, m0, turns[0]);
    var (m2, out2) := Run(job, m1, turns[1..]);
    assert Run(job, m0, turns) == (m2, out1 + out2);
    assert m1.phase.Sending?;
    NothingSent(job, m1);
    RunKeepsSent(job, m1, turns[1..], []);
    assert [] + out2 == out2 && (out1 + out2)[1..] == out2;
    SuccessSent(job, m2, out2);
  }

  // ---------- The call ----------

  /** The call has run to the end of the script, or returned with this status. */
  ghost predicate EndsWith(job: Job, turns: seq<Turn>, outbox: seq<Packet>, status: Option<Status>) {
    var (m, out) := Run(job, Start(job), turns);
    outbox == out && status == if m.phase.Finished? then Some(m.phase.status) else None
  }

  /** The call in state m with script rest ends where the whole call was going to end. */
  ghost predicate OnTrack(job: Job, turns: seq<Turn>, m: Writer, done: seq<Packet>, rest: seq<Turn>) {
    && Sound(job, m)
    && Run(job, Start(job), turns).0 == Run(job, m, rest).0
    && Run(job, Start(job), turns).1 == done + Run(job, m, rest).1
  }

  lemma Advance(job: Job, turns: seq<Turn>, m: Writer, done: seq<Packet>, rest: seq<Turn>)
    requires OnTrack(job, turns, m, done, rest) && rest != [] && !m.phase.Finished?
    ensures var (m', out) := Step(job, m, rest[0]); OnTrack(job, turns, m', done + out, rest[1..])
  {
    var (m', out) := Step(job, m, rest[0]);
    assert done + (out + Run(job, m', rest[1..]).1) == (done + out) + Run(job, m', rest[1..]).1;
  }

  lemma Returned(job: Job, turns: seq<Turn>, m: Writer, done: seq<Packet>, rest: seq<Turn>)
    requires OnTrack(job, turns, m, done, rest) && (m.phase.Finished? || rest == [])
    ensures EndsWith(job, turns, done, if m.phase.Finished? then Some(m.phase.status) else None)
  {
    assert done + [] == done;
  }

  /** foe_write. No status means that the script ended before the call returned. */
  method Write(job: Job, link: Link) returns (status: Option<Status>)
    requires link.outbox == []
    modifies link
    ensures EndsWith(job, old(link.script), link.outbox, status)
  {
    ghost var turns := link.script;
    ghost var m := Start(job);
    if job.data == [] || !NameOk(job.filename) {
      return Some(InvalidParam);
    }
    if link.script == [] {
      return None;
    }
    Advance(job, turns, m, [], link.script);
    m := Step(job, m, link.script[0]).0;
    var ok := link.Send(WriteRequest(job.filename));
    var reply := Reply(link.script[0].reception);
    link.EndTurn();
    if !ok {
      Returned(job, turns, m, link.outbox, link.script);
      return Some(MailboxError);
    }
    if reply.Failed? {
      Returned(job, turns, m, link.outbox, link.script);
      return Some(reply.status);
    }
    if !reply.Ack? || reply.number != 0 {
      Returned(job, turns, m, link.outbox, link.script);
      return Some(Error);
    }
    status := SendFile(job, link, turns);
  }

  /** Lines 504-576: one packet per turn until all bytes are acknowledged. */
  method SendFile(job: Job, link: Link, ghost turns: seq<Turn>) returns (status: Option<Status>)
    requires 0 < |job.data| && OnTrack(job, turns, Writer(Sending, 0, 1, 0), link.outbox, link.script)
    modifies link
    ensures EndsWith(job, turns, link.outbox, status)
  {
    hide Run, OnTrack, EndsWith;
    ghost var m := Writer(Sending, 0, 1, 0);
    var sent: nat, number: u32, busy: nat := 0, 1, 0;
    while sent < |job.data|
      invariant sent <= |job.data| && m == Writer(if sent < |job.data| then Sending else Finished(Success), sent, number, busy)
      invariant OnTrack(job, turns, m, link.outbox, link.script)
      decreases |link.script|
    {
      if link.script == [] {
        Returned(job, turns, m, link.outbox, link.script);
        return None;
      }
      var turn := link.script[0];
      Advance(job, turns, m, link.outbox, link.script);
      m := Step(job, m, turn).0;
      assert link.outbox + [] == link.outbox;
      if turn.late {
        link.EndTurn();
        Returned(job, turns, m, link.outbox, link.script);
        return Some(Timeout);
      }
      var size := if |job.data| - sent > MAX_DATA then MAX_DATA else |job.data| - sent;
      var ok := link.Send(DataPacket(number, job.data[sent..sent + size]));
      link.EndTurn();
      if !ok {
        Returned(job, turns, m, link.outbox, link.script);
        return Some(MailboxError);
      }
      match Reply(turn.reception)
      case Failed(error) =>
        Returned(job, turns, m, link.outbox, link.script);
        return Some(error);
      case Data(_, _) =>
        Returned(job, turns, m, link.outbox, link.script);
        return Some(Error);
      case Ack(acknowledged) =>
        if acknowledged != number {
          Returned(job, turns, m, link.outbox, link.script);
          return Some(Error);
        }
        sent := sent + size;
        number := (number + 1) % WORD;
        busy := 0;
      case Retry =>
        busy := busy + 1;
        if busy > MAX_BUSY_RETRIES {
          Returned(job, turns, m, link.outbox, link.script);
          return Some(Busy);
        }
    }
    Returned(job, turns, m, link.outbox, link.script);
    status := Some(Success);
  }
}
