/**
 foe_read and foe_write told from outside: which messages they put out, what each turn leads to, and that a busy peer only
 takes time. Stated over whole runs, with the opcodes and numbers of the protocol.
 */
module FoeOutcome {
  import opened Endian
  import opened Copies
  import opened Foe
  import FoeRead
  import FoeWrite
  import FoeTransfer

  /** The turn brings a message with this opcode. */
  predicate Brings(t: Turn, opcode: nat) {
    t.reception.Received? && t.reception.message.Message? && t.reception.message.opcode == opcode
  }

  /** How a turn without ACK, DATA or BUSY ends the call: 3 is DATA, 4 is ACK, 6 is BUSY. */
  function FailureOf(r: Reception): Status {
    match r
    case NoMessage => Timeout
    case Broken => MailboxError
    case Received(m) => if m.Short? then InvalidParam else Error
  }

  // ---------- foe_read ----------

  predicate IsBusy(t: Turn) {
    !t.late && Brings(t, 6)
  }

  /** The turns that are not answered BUSY in time. */
  function WithoutBusy(turns: seq<Turn>): seq<Turn> {
    if turns == [] then []
    else if IsBusy(turns[0]) then WithoutBusy(turns[1..])
    else [turns[0]] + WithoutBusy(turns[1..])
  }

  lemma BusyStays(q: FoeRead.Query, m: FoeRead.Reader, t: Turn)
    requires m.phase.Waiting? && IsBusy(t)
    ensures FoeRead.Step(q, m, t) == (m, [])
  {
  }

  lemma {:induction false} RunWithoutBusy(q: FoeRead.Query, m: FoeRead.Reader, turns: seq<Turn>)
    requires !m.phase.Requesting?
    ensures FoeRead.Run(q, m, turns) == FoeRead.Run(q, m, WithoutBusy(turns))
    decreases |turns|
  {
    if !m.phase.Finished? && turns != [] {
      var (m1, out1) := FoeRead.Step(q, m, turns[0]);
      assert !m1.phase.Requesting?;
      RunWithoutBusy(q, m1, turns[1..]);
      if IsBusy(turns[0]) {
        BusyStays(q, m, turns[0]);
        assert [] + FoeRead.Run(q, m, turns[1..]).1 == FoeRead.Run(q, m, turns[1..]).1;
      } else {
        assert ([turns[0]] + WithoutBusy(turns[1..]))[1..] == WithoutBusy(turns[1..]);
      }
    }
  }

  /** After the request, turns that bring BUSY in time can be left out: status, copies and messages are the same. */
  lemma BusyTurnsChangeNothing(q: FoeRead.Query, first: Turn, turns: seq<Turn>)
    ensures FoeRead.Run(q, FoeRead.Start(q), [first] + turns) == FoeRead.Run(q, FoeRead.Start(q), [first] + WithoutBusy(turns))
  {
    assert ([first] + turns)[1..] == turns && ([first] + WithoutBusy(turns))[1..] == WithoutBusy(turns);
    var m := FoeRead.Start(q);
    if !m.phase.Finished? {
      RunWithoutBusy(q, FoeRead.Step(q, m, first).0, turns);
    }
  }

  /** foe_read fed with a file's packets and any number of BUSY answers between them gives back the file, and returns
      exactly if its length is not a multiple of 512. */
  lemma ReadOutlastsBusy(q: FoeRead.Query, data: FoeWrite.Content, turns: seq<Turn>)
    requires data != [] && 0 < |q.filename| < 256 && WithoutBusy(turns) == FoeTransfer.DataTurns(data, 0)
    ensures var m := FoeRead.Run(q, FoeRead.Start(q), [Turn(false, true, NoMessage)] + turns).0;
      if |data| <= q.capacity then
        && Joined(m.copies) == data && m.received == |data|
        && m.phase == if |data| % 512 != 0 then FoeRead.Finished(Success) else FoeRead.Waiting
      else m.phase == FoeRead.Finished(InvalidParam)
  {
    BusyTurnsChangeNothing(q, Turn(false, true, NoMessage), turns);
    FoeTransfer.ReadTakesBackWritten(q, FoeWrite.Job(q.filename, data));
  }

  lemma {:induction false} ReadSplits(q: FoeRead.Query, m: FoeRead.Reader, first: seq<Turn>, second: seq<Turn>)
    ensures var (m1, out1) := FoeRead.Run(q, m, first);
      var (m2, out2) := FoeRead.Run(q, m1, second);
      FoeRead.Run(q, m, first + second) == (m2, out1 + out2)
    decreases |first|
  {
    hide FoeRead.Step;
    var none: seq<Packet> := [];
    assert none + none == none;
    if first == [] {
      assert first + second == second;
      assert [] + FoeRead.Run(q, m, second).1 == FoeRead.Run(q, m, second).1;
    } else if !m.phase.Finished? {
      assert (first + second)[1..] == first[1..] + second;
      var (m1, out1) := FoeRead.Step(q, m, first[0]);
      ReadSplits(q, m1, first[1..], second);
      var (m2, out2) := FoeRead.Run(q, m1, first[1..]);
      assert (out1 + out2) + FoeRead.Run(q, m2, second).1 == out1 + (out2 + FoeRead.Run(q, m2, second).1);
    }
  }

  lemma OneMoreRead(q: FoeRead.Query, before: seq<Turn>, t: Turn)
    ensures var (m, out) := FoeRead.Run(q, FoeRead.Start(q), before);
      !m.phase.Finished? ==>
        FoeRead.Run(q, FoeRead.Start(q), before + [t]) == (FoeRead.Step(q, m, t).0, out + FoeRead.Step(q, m, t).1)
  {
    var (m, out) := FoeRead.Run(q, FoeRead.Start(q), before);
    ReadSplits(q, FoeRead.Start(q), before, [t]);
    hide FoeRead.Step;
    if !m.phase.Finished? {
      assert [t][1..] == [];
      var (m', more) := FoeRead.Step(q, m, t);
      assert FoeRead.Run(q, m', []) == (m', []);
      assert more + [] == more;
    }
  }

  /** The call expects packets in turn, and has acknowledged all it has taken. */
  ghost predicate Progress(q: FoeRead.Query, m: FoeRead.Reader, out: seq<Packet>) {
    match m.phase
    case Requesting => m.copies == [] && m.received == 0 && m.expected == 1 && out == []
    case Waiting =>
      && m.expected == (|m.copies| + 1) % 0x1_0000_0000
      && |out| == |m.copies| + 1 && out[0] == ReadRequest(q.filename)
      && forall i :: 1 <= i < |out| ==> out[i] == AckPacket(i % 0x1_0000_0000)
    case Finished(_) => true
  }

  lemma NextNumber(k: nat)
    ensures (k % 0x1_0000_0000 + 1) % 0x1_0000_0000 == (k + 1) % 0x1_0000_0000
  {
  }

  lemma StepProgresses(q: FoeRead.Query, m: FoeRead.Reader, t: Turn, out: seq<Packet>)
    requires Progress(q, m, out)
    ensures var (m', more) := FoeRead.Step(q, m, t); Progress(q, m', out + more)
  {
    NextNumber(|m.copies| + 1);
    assert out + [] == out;
  }

  lemma {:induction false} RunProgresses(q: FoeRead.Query, m: FoeRead.Reader, turns: seq<Turn>, out: seq<Packet>)
    requires Progress(q, m, out)
    ensures var (m', more) := FoeRead.Run(q, m, turns); Progress(q, m', out + more)
    decreases |turns|
  {
    hide FoeRead.Step, Progress;
    if m.phase.Finished? || turns == [] {
      assert out + [] == out;
    } else {
      var (m1, out1) := FoeRead.Step(q, m, turns[0]);
      StepProgresses(q, m, turns[0], out);
      RunProgresses(q, m1, turns[1..], out + out1);
      assert (out + out1) + FoeRead.Run(q, m1, turns[1..]).1 == out + (out1 + FoeRead.Run(q, m1, turns[1..]).1);
    }
  }

  /** The call is refused exactly if there is no room or the name is empty or has 256 characters or more; else it asks for
      the file by its name, and ends if the mailbox does not take that. */
  lemma ReadBegins(q: FoeRead.Query, t: Turn)
    ensures FoeRead.Start(q).phase ==
      if q.capacity == 0 || |q.filename| == 0 || |q.filename| >= 256 then FoeRead.Finished(InvalidParam) else FoeRead.Requesting
    ensures FoeRead.Start(q).phase.Requesting? ==>
      var (m, out) := FoeRead.Run(q, FoeRead.Start(q), [t]);
      && m.phase == (if t.sendOk then FoeRead.Waiting else FoeRead.Finished(MailboxError))
      && out == if t.sendOk then [ReadRequest(q.filename)] else []
  {
    OneMoreRead(q, [], t);
    assert [] + [t] == [t];
  }

  /** What a turn makes of a waiting call that expects this packet. */
  ghost predicate Decides(q: FoeRead.Query, m: FoeRead.Reader, number: u32, t: Turn, m': FoeRead.Reader, more: seq<Packet>) {
    if t.late then m' == m.(phase := FoeRead.Finished(Timeout)) && more == []
    else if Brings(t, 6) then m' == m && more == []
    else if !Brings(t, 3) then m' == m.(phase := FoeRead.Finished(FailureOf(t.reception))) && more == []
    else
      var p := t.reception.message;
      var sum := (m.received + |p.body|) % 0x1_0000_0000;
      if p.number != number then m' == m.(phase := FoeRead.Finished(Error)) && more == []
      else if sum > q.capacity then m' == m.(phase := FoeRead.Finished(InvalidParam)) && more == []
      else
        && m'.received == sum && m'.copies == m.copies + [Copy(m.received, p.body, number)]
        && more == (if t.sendOk then [AckPacket(number)] else [])
        && m'.phase ==
             if !t.sendOk then FoeRead.Finished(MailboxError)
             else if |p.body| < 512 then FoeRead.Finished(Success)
             else FoeRead.Waiting
  }

  lemma StepDecides(q: FoeRead.Query, m: FoeRead.Reader, t: Turn)
    requires m.phase.Waiting?
    ensures var (m', more) := FoeRead.Step(q, m, t); Decides(q, m, m.expected, t, m', more)
  {
  }

  /** What each turn of a waiting call leads to, in terms of the packets taken so far. */
  lemma ReadTurnDecides(q: FoeRead.Query, before: seq<Turn>, t: Turn)
    requires FoeRead.Run(q, FoeRead.Start(q), before).0.phase.Waiting?
    ensures var (m, out) := FoeRead.Run(q, FoeRead.Start(q), before);
      var (m', out') := FoeRead.Run(q, FoeRead.Start(q), before + [t]);
      out <= out' && Decides(q, m, (|m.copies| + 1) % 0x1_0000_0000, t, m', out'[|out|..])
  {
    OneMoreRead(q, before, t);
    RunProgresses(q, FoeRead.Start(q), before, []);
    var (m, out) := FoeRead.Run(q, FoeRead.Start(q), before);
    assert [] + out == out;
    StepDecides(q, m, t);
    hide FoeRead.Run, FoeRead.Step, Decides;
    var more := FoeRead.Step(q, m, t).1;
    assert (out + more)[|out|..] == more;
  }

  // ---------- foe_write ----------

  lemma {:induction false} WriteSplits(job: FoeWrite.Job, m: FoeWrite.Writer, first: seq<Turn>, second: seq<Turn>)
    requires FoeWrite.Sound(job, m)
    ensures FoeWrite.Sound(job, FoeWrite.Run(job, m, first).0)
    ensures var (m1, out1) := FoeWrite.Run(job, m, first);
      var (m2, out2) := FoeWrite.Run(job, m1, second);
      FoeWrite.Run(job, m, first + second) == (m2, out1 + out2)
    decreases |first|
  {
    hide FoeWrite.Step;
    var none: seq<Packet> := [];
    assert none + none == none;
    if first == [] {
      assert first + second == second;
      assert [] + FoeWrite.Run(job, m, second).1 == FoeWrite.Run(job, m, second).1;
    } else if !m.phase.Finished? {
      assert (first + second)[1..] == first[1..] + second;
      var (m1, out1) := FoeWrite.Step(job, m, first[0]);
      WriteSplits(job, m1, first[1..], second);
      var (m2, out2) := FoeWrite.Run(job, m1, first[1..]);
      assert (out1 + out2) + FoeWrite.Run(job, m2, second).1 == out1 + (out2 + FoeWrite.Run(job, m2, second).1);
    }
  }

  lemma OneMoreWrite(job: FoeWrite.Job, before: seq<Turn>, t: Turn)
    ensures var (m, out) := FoeWrite.Run(job, FoeWrite.Start(job), before);
      FoeWrite.Sound(job, m)
      && (!m.phase.Finished? ==>
            FoeWrite.Run(job, FoeWrite.Start(job), before + [t])
              == (FoeWrite.Step(job, m, t).0, out + FoeWrite.Step(job, m, t).1))
  {
    var (m, out) := FoeWrite.Run(job, FoeWrite.Start(job), before);
    WriteSplits(job, FoeWrite.Start(job), before, [t]);
    hide FoeWrite.Step;
    if !m.phase.Finished? {
      assert [t][1..] == [];
      var (m', more) := FoeWrite.Step(job, m, t);
      assert FoeWrite.Run(job, m', []) == (m', []);
      assert more + [] == more;
    }
  }

  function Cut(size: nat, end: nat): nat {
    if end < size then end else size
  }

  /** DATA packet number k of the file: 512 bytes, or what is left. */
  function PacketOf(data: FoeWrite.Content, k: u32): Packet
    requires k >= 1 && 512 * (k - 1) < |data|
  {
    DataPacket(k, data[512 * (k - 1)..Cut(|data|, 512 * k)])
  }

  /** The call is refused exactly if there are no bytes or the name is empty or has 256 characters or more; else it asks to
      write the file by its name, and goes on exactly if packet 0 is acknowledged. */
  lemma WriteBegins(job: FoeWrite.Job, t: Turn)
    ensures FoeWrite.Start(job).phase ==
      if job.data == [] || |job.filename| == 0 || |job.filename| >= 256 then FoeWrite.Finished(InvalidParam)
      else FoeWrite.Requesting
    ensures FoeWrite.Start(job).phase.Requesting? ==>
      var (m, out) := FoeWrite.Run(job, FoeWrite.Start(job), [t]);
      && out == (if t.sendOk then [WriteRequest(job.filename)] else [])
      && if !t.sendOk then m.phase == FoeWrite.Finished(MailboxError)
         else if Brings(t, 4) && t.reception.message.number == 0 then m == FoeWrite.Writer(FoeWrite.Sending, 0, 1, 0)
         else m.phase == FoeWrite.Finished(FailureOf(t.reception))
  {
    OneMoreWrite(job, [], t);
    assert [] + [t] == [t];
  }

  lemma RunIsCounted(job: FoeWrite.Job, turns: seq<Turn>)
    ensures FoeWrite.Counted(job, FoeWrite.Run(job, FoeWrite.Start(job), turns).0)
  {
    FoeWrite.StartIsCounted(job);
    FoeWrite.RunWithinFuel(job, FoeWrite.Start(job), turns);
  }

  /** What each turn of a sending call leads to: the current packet goes out unless the deadline or the mailbox ends the
      call; its acknowledgement moves on to the next one or ends it, and the fifty-first BUSY in a row ends it. */
  lemma WriteTurnDecides(job: FoeWrite.Job, before: seq<Turn>, t: Turn)
    requires FoeWrite.Run(job, FoeWrite.Start(job), before).0.phase.Sending?
    ensures var (m, out) := FoeWrite.Run(job, FoeWrite.Start(job), before);
      var (m', out') := FoeWrite.Run(job, FoeWrite.Start(job), before + [t]);
      var k := m.number;
      && k >= 1 && m.sent == 512 * (k - 1) < |job.data|
      && out' == (if t.late || !t.sendOk then out else out + [PacketOf(job.data, k)])
      && if t.late then m'.phase == FoeWrite.Finished(Timeout)
         else if !t.sendOk then m'.phase == FoeWrite.Finished(MailboxError)
         else if Brings(t, 6) then
           if m.busy < 50 then m' == m.(busy := m.busy + 1) else m'.phase == FoeWrite.Finished(Busy)
         else if !Brings(t, 4) then m'.phase == FoeWrite.Finished(FailureOf(t.reception))
         else if t.reception.message.number != k then m'.phase == FoeWrite.Finished(Error)
         else if |job.data| <= 512 * k then m'.phase == FoeWrite.Finished(Success)
         else m' == FoeWrite.Writer(FoeWrite.Sending, 512 * k, k + 1, 0)
  {
    OneMoreWrite(job, before, t);
    RunIsCounted(job, before);
    var out := FoeWrite.Run(job, FoeWrite.Start(job), before).1;
    assert out + [] == out;
    hide FoeWrite.Run;
  }
}
