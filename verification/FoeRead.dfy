/** foe_read of src/al/foe.c: consecutively numbered DATA packets into the caller's buffer, each acknowledged. */
module FoeRead {
  import opened Endian
  import opened Wrappers
  import opened Copies
  import opened Foe

  /** The largest capacity at which received_bytes + packet_data_size cannot wrap: 2^32 - 513. */
  const SAFE_CAPACITY := 0xFFFF_FDFF

  /** The arguments of the call; capacity is what *size holds on entry. */
  datatype Query = Query(filename: string, capacity: u32)

  datatype Phase = Requesting | Waiting | Finished(status: Status)

  /** The copies are marked with their packet numbers. */
  datatype Reader = Reader(phase: Phase, received: u32, expected: u32, copies: seq<Copy<u32>>)

  function Start(q: Query): Reader {
    Reader(if q.capacity == 0 || !NameOk(q.filename) then Finished(InvalidParam) else Requesting, 0, 1, [])
  }

  /** A DATA packet: checked against the expected number and the capacity, copied, acknowledged. */
  function OnData(q: Query, m: Reader, number: u32, body: Body, sendOk: bool): (Reader, seq<Packet>) {
    var sum := (m.received + |body|) % WORD;
    if number != m.expected then (m.(phase := Finished(Error)), [])
    else if sum > q.capacity then (m.(phase := Finished(InvalidParam)), [])
    else
      var copies := m.copies + [Copy(m.received, body, number)];
      if !sendOk then (Reader(Finished(MailboxError), sum, m.expected, copies), [])
      else (Reader(if |body| < MAX_DATA then Finished(Success) else Waiting, sum, (m.expected + 1) % WORD, copies), [AckPacket(number)])
  }

  /** One turn: the new state and what was put into the mailbox. */
  function Step(q: Query, m: Reader, t: Turn): (Reader, seq<Packet>) {
    match m.phase
    case Requesting =>
      if t.sendOk then (m.(phase := Waiting), [ReadRequest(q.filename)]) else (m.(phase := Finished(MailboxError)), [])
    case Waiting =>
      if t.late then (m.(phase := Finished(Timeout)), [])
      else (match Reply(t.reception)
            case Failed(status) => (m.(phase := Finished(status)), [])
            case Data(number, body) => OnData(q, m, number, body, t.sendOk)
            case Retry => (m, [])
            case Ack(_) => (m.(phase := Finished(Error)), []))
    case Finished(_) => (m, [])
  }

  /** The call under a script of turns; it is still running if the script ends first. */
  function Run(q: Query, m: Reader, turns: seq<Turn>): (Reader, seq<Packet>)
    decreases |turns|
  {
    if m.phase.Finished? || turns == [] then (m, [])
    else
      var (m1, out1) := Step(q, m, turns[0]);
      var (m2, out2) := Run(q, m1, turns[1..]);
      (m2, out1 + out2)
  }

  // ---------- Any peer: what success means ----------

  /** Packets are numbered 1, 2, 3 ..., and all but the final one are full. */
  ghost predicate Numbered(copies: seq<Copy<u32>>) {
    forall i :: 0 <= i < |copies| ==>
      copies[i].mark == i + 1 && |copies[i].bytes| <= MAX_DATA && (i + 1 < |copies| ==> |copies[i].bytes| == MAX_DATA)
  }

  ghost predicate AllFull(copies: seq<Copy<u32>>) {
    forall i :: 0 <= i < |copies| ==> |copies[i].bytes| == MAX_DATA
  }

  /** The request, then the acknowledgements of packets 1 to n. */
  function Acknowledged(filename: string, n: nat): seq<Packet>
    requires n < WORD
  {
    [ReadRequest(filename)] + seq(n, i requires 0 <= i < n => AckPacket(i + 1))
  }

  ghost predicate Sound(q: Query, m: Reader) {
    && EndToEnd(m.copies) && Inside(q.capacity, m.copies) && Numbered(m.copies)
    && m.received == |Joined(m.copies)| && m.received <= q.capacity
    && (m.phase.Requesting? ==> m.copies == [])
    && (!m.phase.Finished? ==>
          m.expected == |m.copies| + 1 && m.received == MAX_DATA * |m.copies| && AllFull(m.copies))
    && (m.phase == Finished(Success) ==> m.copies != [] && |m.copies[|m.copies| - 1].bytes| < MAX_DATA)
  }

  /** What has been put into the mailbox by a call that is running or has succeeded. */
  ghost predicate Sent(q: Query, m: Reader, out: seq<Packet>) {
    && |m.copies| < WORD
    && (m.phase.Requesting? ==> out == [])
    && (m.phase.Waiting? || m.phase == Finished(Success) ==> out == Acknowledged(q.filename, |m.copies|))
  }

  /** Below the safe capacity the sum does not wrap. */
  lemma NoWrap(q: Query, m: Reader, n: nat)
    requires m.received <= q.capacity <= SAFE_CAPACITY && n <= MAX_DATA && m.received == MAX_DATA * |m.copies|
    ensures (m.received + n) % WORD == m.received + n
  {
  }

  /** A sum that fits the capacity does not wrap either, and the packet numbers never do. */
  lemma FittingSum(q: Query, m: Reader, n: nat)
    requires m.received <= q.capacity && m.received == MAX_DATA * |m.copies|
    ensures m.received + n <= q.capacity ==> (m.received + n) % WORD == m.received + n
    ensures |m.copies| + 2 < WORD
  {
  }

  lemma NumberedAppend(copies: seq<Copy<u32>>, c: Copy<u32>)
    requires Numbered(copies) && AllFull(copies) && c.mark == |copies| + 1 && |c.bytes| <= MAX_DATA
    ensures Numbered(copies + [c]) && (|c.bytes| == MAX_DATA ==> AllFull(copies + [c]))
  {
  }

  lemma AcknowledgedAppend(filename: string, n: nat)
    requires n + 1 < WORD
    ensures Acknowledged(filename, n) + [AckPacket(n + 1)] == Acknowledged(filename, n + 1)
  {
  }

  /** A packet that fits is copied, and acknowledged if the mailbox takes the acknowledgement. */
  lemma AcceptedData(q: Query, m: Reader, number: u32, body: Body, sendOk: bool)
    requires number == m.expected && m.received + |body| <= q.capacity
    ensures OnData(q, m, number, body, sendOk) ==
      (Reader(if !sendOk then Finished(MailboxError) else if |body| < MAX_DATA then Finished(Success) else Waiting,
              m.received + |body|, if sendOk then (m.expected + 1) % WORD else m.expected,
              m.copies + [Copy(m.received, body, number)]),
       if sendOk then [AckPacket(number)] else [])
  {
  }

  lemma RejectedData(q: Query, m: Reader, number: u32, body: Body, sendOk: bool)
    requires number != m.expected || (m.received + |body|) % WORD > q.capacity
    ensures OnData(q, m, number, body, sendOk)
         == (m.(phase := Finished(if number != m.expected then Error else InvalidParam)), [])
  {
  }

  /** A packet that passes the check and is copied inside the capacity has not wrapped the sum. */
  lemma DataInside(q: Query, m: Reader, body: Body, sendOk: bool)
    requires (m.received + |body|) % WORD <= q.capacity
    requires Inside(q.capacity, OnData(q, m, m.expected, body, sendOk).0.copies)
    ensures m.received + |body| <= q.capacity
  {
    assert OnData(q, m, m.expected, body, sendOk).0.copies[|m.copies|] == Copy(m.received, body, m.expected);
  }

  /** Without a copy past the capacity, a DATA packet is taken exactly if it is the expected one and fits. */
  lemma DataTaken(q: Query, m: Reader, number: u32, body: Body, sendOk: bool)
    requires Sound(q, m) && m.phase.Waiting? && Inside(q.capacity, OnData(q, m, number, body, sendOk).0.copies)
    ensures m.expected + 1 < WORD && |m.copies| + 2 < WORD
    ensures OnData(q, m, number, body, sendOk) ==
      if number != m.expected then (m.(phase := Finished(Error)), [])
      else if m.received + |body| > q.capacity then (m.(phase := Finished(InvalidParam)), [])
      else
        (Reader(if !sendOk then Finished(MailboxError) else if |body| < MAX_DATA then Finished(Success) else Waiting,
                m.received + |body|, if sendOk then m.expected + 1 else m.expected,
                m.copies + [Copy(m.received, body, number)]),
         if sendOk then [AckPacket(number)] else [])
  {
    SoundReceived(q, m);
    WaitingExpects(q, m);
    FittingSum(q, m, |body|);
    hide Sound, Inside, OnData;
    if number == m.expected && (m.received + |body|) % WORD <= q.capacity {
      DataInside(q, m, body, sendOk);
      AcceptedData(q, m, number, body, sendOk);
    } else {
      RejectedData(q, m, number, body, sendOk);
    }
  }

  /** Up to the safe capacity no packet is copied past it. */
  lemma DataStaysInside(q: Query, m: Reader, number: u32, body: Body, sendOk: bool)
    requires Sound(q, m) && m.phase.Waiting? && q.capacity <= SAFE_CAPACITY
    ensures Inside(q.capacity, OnData(q, m, number, body, sendOk).0.copies)
  {
    SoundReceived(q, m);
    NoWrap(q, m, |body|);
    hide Joined, EndToEnd, Numbered, AllFull;
  }

  lemma CopyKeepsSound(q: Query, m: Reader, c: Copy<u32>, next: Reader)
    requires Sound(q, m) && m.phase.Waiting?
    requires c.at == m.received && c.mark == m.expected && |c.bytes| <= MAX_DATA && m.received + |c.bytes| <= q.capacity
    requires next.copies == m.copies + [c] && next.received == m.received + |c.bytes|
    requires next.phase == Finished(MailboxError) || (next.phase == Finished(Success) && |c.bytes| < MAX_DATA)
             || (next.phase == Waiting && |c.bytes| == MAX_DATA && next.expected == m.expected + 1)
    ensures Sound(q, next)
  {
    hide Joined, EndToEnd, Inside, Numbered, AllFull;
    AppendCopy(q.capacity, m.copies, c);
    NumberedAppend(m.copies, c);
    assert next.copies[|m.copies|] == c;
  }

  lemma EndKeepsSound(q: Query, m: Reader, phase: Phase)
    requires Sound(q, m) && phase.Finished? && phase != Finished(Success)
    ensures Sound(q, m.(phase := phase))
  {
  }

  lemma DataKeepsSound(q: Query, m: Reader, number: u32, body: Body, sendOk: bool)
    requires Sound(q, m) && m.phase.Waiting? && Inside(q.capacity, OnData(q, m, number, body, sendOk).0.copies)
    ensures Sound(q, OnData(q, m, number, body, sendOk).0)
  {
    DataTaken(q, m, number, body, sendOk);
    hide *;
    var next := OnData(q, m, number, body, sendOk).0;
    if number != m.expected || m.received + |body| > q.capacity {
      EndKeepsSound(q, m, next.phase);
    } else {
      CopyKeepsSound(q, m, Copy(m.received, body, number), next);
    }
  }

  lemma DataKeepsSent(q: Query, m: Reader, number: u32, body: Body, sendOk: bool, out: seq<Packet>)
    requires Sound(q, m) && m.phase.Waiting? && Inside(q.capacity, OnData(q, m, number, body, sendOk).0.copies)
    requires Sent(q, m, out)
    ensures var (m', more) := OnData(q, m, number, body, sendOk); Sent(q, m', out + more)
  {
    DataTaken(q, m, number, body, sendOk);
    WaitingExpects(q, m);
    hide Sound, Acknowledged, OnData;
    AcknowledgedAppend(q.filename, |m.copies|);
    assert out + [] == out;
  }

  lemma WaitingExpects(q: Query, m: Reader)
    requires Sound(q, m) && m.phase.Waiting?
    ensures m.expected == |m.copies| + 1
  {
  }

  lemma StepKeepsSound(q: Query, m: Reader, t: Turn, out: seq<Packet>)
    requires Sound(q, m) && Inside(q.capacity, Step(q, m, t).0.copies) && Sent(q, m, out)
    ensures var (m', more) := Step(q, m, t); Sound(q, m') && Sent(q, m', out + more)
  {
    hide Joined, EndToEnd, Inside, Numbered, AllFull, OnData;
    assert out + [] == out;
    if m.phase.Waiting? && !t.late && Reply(t.reception).Data? {
      var p := Reply(t.reception);
      DataKeepsSound(q, m, p.number, p.body, t.sendOk);
      DataKeepsSent(q, m, p.number, p.body, t.sendOk, out);
    }
  }

  lemma StepStaysInside(q: Query, m: Reader, t: Turn)
    requires Sound(q, m) && q.capacity <= SAFE_CAPACITY
    ensures Inside(q.capacity, Step(q, m, t).0.copies)
  {
    hide Joined, EndToEnd, Numbered, AllFull, OnData;
    if m.phase.Waiting? && Reply(t.reception).Data? {
      var p := Reply(t.reception);
      DataStaysInside(q, m, p.number, p.body, t.sendOk);
    }
  }

  lemma StepExtends(q: Query, m: Reader, t: Turn)
    ensures m.copies <= Step(q, m, t).0.copies
  {
  }

  /** Copies are only added. */
  lemma {:induction false} RunExtends(q: Query, m: Reader, turns: seq<Turn>)
    ensures m.copies <= Run(q, m, turns).0.copies
    decreases |turns|
  {
    hide Step;
    if !m.phase.Finished? && turns != [] {
      StepExtends(q, m, turns[0]);
      RunExtends(q, Step(q, m, turns[0]).0, turns[1..]);
    }
  }

  lemma InsidePrefix(capacity: nat, copies: seq<Copy<u32>>, longer: seq<Copy<u32>>)
    requires copies <= longer && Inside(capacity, longer)
    ensures Inside(capacity, copies)
  {
    forall i | 0 <= i < |copies|
      ensures copies[i] == longer[i]
    {
    }
  }

  lemma {:induction false} RunKeepsSound(q: Query, m: Reader, turns: seq<Turn>, out: seq<Packet>)
    requires Sound(q, m) && Inside(q.capacity, Run(q, m, turns).0.copies) && Sent(q, m, out)
    ensures var (m', more) := Run(q, m, turns); Sound(q, m') && Sent(q, m', out + more)
    decreases |turns|
  {
    hide Sound, Sent, Step, Inside;
    if m.phase.Finished? || turns == [] {
      assert out + [] == out;
    } else {
      var (m1, out1) := Step(q, m, turns[0]);
      RunExtends(q, m1, turns[1..]);
      InsidePrefix(q.capacity, m1.copies, Run(q, m1, turns[1..]).0.copies);
      StepKeepsSound(q, m, turns[0], out);
      RunKeepsSound(q, m1, turns[1..], out + out1);
      var (m2, out2) := Run(q, m1, turns[1..]);
      assert (out + out1) + out2 == out + (out1 + out2);
    }
  }

  lemma {:induction false} RunStaysInside(q: Query, m: Reader, turns: seq<Turn>, out: seq<Packet>)
    requires Sound(q, m) && q.capacity <= SAFE_CAPACITY && Sent(q, m, out)
    ensures Inside(q.capacity, Run(q, m, turns).0.copies)
    decreases |turns|
  {
    hide Sent, Step, Inside, Joined, EndToEnd, Numbered, AllFull;
    if !m.phase.Finished? && turns != [] {
      var (m1, out1) := Step(q, m, turns[0]);
      StepStaysInside(q, m, turns[0]);
      StepKeepsSound(q, m, turns[0], out);
      RunStaysInside(q, m1, turns[1..], out + out1);
    }
  }

  /** The call under this script makes no copy past the capacity. */
  ghost predicate Fits(q: Query, turns: seq<Turn>) {
    Inside(q.capacity, Run(q, Start(q), turns).0.copies)
  }

  lemma StartIsSound(q: Query)
    ensures Sound(q, Start(q)) && Sent(q, Start(q), [])
  {
    NoCopies(Start(q).copies, q.capacity);
  }

  /** Against any peer: if no copy leaves the buffer, and below 2^32 - 512 none does, success means the caller has the
      payloads numbered 1 to k without gaps, all but the last exactly full, every one acknowledged. */
  lemma SuccessMeansNumbered(q: Query, turns: seq<Turn>)
    ensures var (m, out) := Run(q, Start(q), turns);
      && (q.capacity <= SAFE_CAPACITY ==> Fits(q, turns))
      && (Fits(q, turns) && m.phase == Finished(Success) ==>
            && m.received == |Joined(m.copies)| && EndToEnd(m.copies) && Numbered(m.copies)
            && m.copies != [] && |m.copies[|m.copies| - 1].bytes| < MAX_DATA
            && |m.copies| < WORD && out == Acknowledged(q.filename, |m.copies|))
  {
    StartIsSound(q);
    if q.capacity <= SAFE_CAPACITY {
      RunStaysInside(q, Start(q), turns, []);
    }
    if Fits(q, turns) {
      RunKeepsSound(q, Start(q), turns, []);
      assert [] + Run(q, Start(q), turns).1 == Run(q, Start(q), turns).1;
    }
  }

  // ---------- The exact capacity up to which no peer makes the call write past the buffer ----------

  ghost predicate NeverPastCapacity(capacity: u32) {
    forall filename: string, turns: seq<Turn> ::
      Inside(capacity, Run(Query(filename, capacity), Start(Query(filename, capacity)), turns).0.copies)
  }

  function FullBody(): (b: Body)
    ensures |b| == MAX_DATA
  {
    seq(MAX_DATA, _ => 0)
  }

  function FullTurn(number: u32): Turn {
    Turn(false, true, Received(Message(OP_DATA, number, FullBody())))
  }

  lemma {:induction false} RunSnoc(q: Query, m: Reader, turns: seq<Turn>, t: Turn)
    requires !Run(q, m, turns).0.phase.Finished?
    ensures Run(q, m, turns + [t]).0 == Step(q, Run(q, m, turns).0, t).0
    decreases |turns|
  {
    hide Step;
    if turns == [] {
      assert turns + [t] == [t] && [t][1..] == [];
      var m1 := Step(q, m, t).0;
      assert Run(q, m1, []).0 == m1;
    } else {
      assert (turns + [t])[1..] == turns[1..] + [t];
      RunSnoc(q, Step(q, m, turns[0]).0, turns[1..], t);
    }
  }

  /** The k-th full packet in a row. */
  lemma FullStep(q: Query, m: Reader)
    requires m.phase.Waiting? && (m.received + MAX_DATA) % WORD <= q.capacity
    ensures var m' := Step(q, m, FullTurn(m.expected)).0;
      && m'.phase.Waiting? && m'.received == (m.received + MAX_DATA) % WORD && m'.expected == (m.expected + 1) % WORD
      && m'.copies == m.copies + [Copy(m.received, FullBody(), m.expected)]
  {
  }

  lemma {:induction false} FullPackets(q: Query, k: nat) returns (turns: seq<Turn>)
    requires NameOk(q.filename) && 0 < q.capacity && MAX_DATA * k <= q.capacity
    ensures var m := Run(q, Start(q), turns).0;
      m.phase.Waiting? && m.received == MAX_DATA * k && m.expected == k + 1
    decreases k
  {
    if k == 0 {
      var t := Turn(false, true, NoMessage);
      turns := [] + [t];
      assert Run(q, Start(q), []).0 == Start(q);
      RunSnoc(q, Start(q), [], t);
    } else {
      var before := FullPackets(q, k - 1);
      hide Run, Step, FullTurn;
      var m := Run(q, Start(q), before).0;
      FullStep(q, m);
      turns := before + [FullTurn(m.expected)];
      RunSnoc(q, Start(q), before, FullTurn(m.expected));
    }
  }

  /** From 2^32 - 512 on: full packets up to that offset, then one more, whose end wraps to 0 and passes the check. */
  lemma WrapsPastCapacity(filename: string, capacity: u32) returns (turns: seq<Turn>)
    requires NameOk(filename) && capacity > SAFE_CAPACITY
    ensures var q := Query(filename, capacity); !Inside(capacity, Run(q, Start(q), turns).0.copies)
  {
    var q := Query(filename, capacity);
    var before := FullPackets(q, 8388607);
    hide Run, Step, FullTurn;
    var m := Run(q, Start(q), before).0;
    FullStep(q, m);
    turns := before + [FullTurn(m.expected)];
    RunSnoc(q, Start(q), before, FullTurn(m.expected));
    var m' := Run(q, Start(q), turns).0;
    assert m'.copies[|m.copies|] == Copy(m.received, FullBody(), m.expected);
    assert m.received + |FullBody()| == WORD;
  }

  /** The overflow check keeps every peer inside the buffer exactly up to a capacity of 2^32 - 513. */
  lemma StaysInsideIff(capacity: u32)
    ensures NeverPastCapacity(capacity) <==> capacity <= SAFE_CAPACITY
  {
    if capacity <= SAFE_CAPACITY {
      forall filename: string, turns: seq<Turn>
        ensures Inside(capacity, Run(Query(filename, capacity), Start(Query(filename, capacity)), turns).0.copies)
      {
        SuccessMeansNumbered(Query(filename, capacity), turns);
      }
    } else {
      var turns := WrapsPastCapacity("f", capacity);
    }
  }

  // ---------- The call, in place ----------

  /** The buffer holds what state m has received, over what it held before. */
  ghost predicate Holds(q: Query, m: Reader, before: seq<byte>, now: seq<byte>) {
    Sound(q, m) && q.capacity == |before| && now == Overlay(before, Joined(m.copies))
  }

  /** The call has run to the end of the script, or returned with this status and size; the buffer holds the copies. */
  ghost predicate EndsWith(q: Query, turns: seq<Turn>, before: seq<byte>, now: seq<byte>, outbox: seq<Packet>,
                           status: Option<Status>, size: u32) {
    var (m, out) := Run(q, Start(q), turns);
    && outbox == out && status == (if m.phase.Finished? then Some(m.phase.status) else None)
    && size == (if m.phase == Finished(Success) then m.received else q.capacity)
    && Holds(q, m, before, now)
  }

  /** The call in state m with script rest ends where the whole call was going to end. */
  ghost predicate OnTrack(q: Query, turns: seq<Turn>, m: Reader, done: seq<Packet>, rest: seq<Turn>) {
    && Run(q, Start(q), turns).0 == Run(q, m, rest).0
    && Run(q, Start(q), turns).1 == done + Run(q, m, rest).1
  }

  lemma Advance(q: Query, turns: seq<Turn>, m: Reader, done: seq<Packet>, rest: seq<Turn>)
    requires OnTrack(q, turns, m, done, rest) && rest != [] && !m.phase.Finished? && Fits(q, turns)
    ensures var (m', out) := Step(q, m, rest[0]);
      OnTrack(q, turns, m', done + out, rest[1..]) && Inside(q.capacity, m'.copies)
  {
    var (m', out) := Step(q, m, rest[0]);
    assert done + (out + Run(q, m', rest[1..]).1) == (done + out) + Run(q, m', rest[1..]).1;
    RunExtends(q, m', rest[1..]);
    hide Step, Inside;
    InsidePrefix(q.capacity, m'.copies, Run(q, m', rest[1..]).0.copies);
  }

  lemma Returned(q: Query, turns: seq<Turn>, m: Reader, before: seq<byte>, now: seq<byte>, done: seq<Packet>, rest: seq<Turn>)
    requires OnTrack(q, turns, m, done, rest) && (m.phase.Finished? || rest == []) && Holds(q, m, before, now)
    ensures EndsWith(q, turns, before, now, done, if m.phase.Finished? then Some(m.phase.status) else None,
                     if m.phase == Finished(Success) then m.received else q.capacity)
  {
    assert done + [] == done;
  }

  /** A step that copies nothing. */
  lemma StillHolds(q: Query, m: Reader, phase: Phase, before: seq<byte>, now: seq<byte>)
    requires Holds(q, m, before, now)
    requires (m.phase.Requesting? && phase.Waiting?) || (phase.Finished? && phase != Finished(Success))
    ensures Holds(q, m.(phase := phase), before, now)
  {
  }

  lemma DataHolds(q: Query, m: Reader, before: seq<byte>, now: seq<byte>, number: u32, body: Body, sendOk: bool)
    requires Holds(q, m, before, now) && m.phase.Waiting?
    requires number == m.expected && (m.received + |body|) % WORD <= q.capacity
    requires Inside(q.capacity, OnData(q, m, number, body, sendOk).0.copies)
    ensures |now| == q.capacity && m.received + |body| <= q.capacity
    ensures Holds(q, OnData(q, m, number, body, sendOk).0, before, Splice(now, m.received, body))
  {
    SoundReceived(q, m);
    DataInside(q, m, body, sendOk);
    DataKeepsSound(q, m, number, body, sendOk);
    AcceptedData(q, m, number, body, sendOk);
    hide Sound, Joined, OnData;
    JoinedAppend(m.copies, Copy(m.received, body, number));
    OverlayExtends(before, Joined(m.copies), body);
  }

  lemma SoundReceived(q: Query, m: Reader)
    requires Sound(q, m) && m.phase.Waiting?
    ensures m.received == |Joined(m.copies)| <= q.capacity && m.received == MAX_DATA * |m.copies|
  {
  }

  /** foe_read, on scripts whose copies all lie in the buffer; the others have no defined outcome. No status means that
      the script ended before the call returned. */
  method Read(q: Query, buffer: array<byte>, link: Link) returns (status: Option<Status>, size: u32)
    requires buffer.Length == q.capacity && Fits(q, link.script) && link.outbox == []
    modifies buffer, link
    ensures EndsWith(q, old(link.script), old(buffer[..]), buffer[..], link.outbox, status, size)
  {
    ghost var turns, before := link.script, buffer[..];
    ghost var m := Start(q);
    StartIsSound(q);
    NoCopies(m.copies, q.capacity);
    if q.capacity == 0 || !NameOk(q.filename) {
      return Some(InvalidParam), q.capacity;
    }
    if link.script == [] {
      return None, q.capacity;
    }
    Advance(q, turns, m, [], link.script);
    var ok := link.Send(ReadRequest(q.filename));
    link.EndTurn();
    StillHolds(q, m, if ok then Waiting else Finished(MailboxError), before, buffer[..]);
    m := m.(phase := if ok then Waiting else Finished(MailboxError));
    if !ok {
      Returned(q, turns, m, before, buffer[..], link.outbox, link.script);
      return Some(MailboxError), q.capacity;
    }
    status, size := ReceiveFile(q, buffer, link, m, turns, before);
  }

  /** Lines 348-432: one message per turn until a packet shorter than the maximum. */
  method ReceiveFile(q: Query, buffer: array<byte>, link: Link, ghost start: Reader, ghost turns: seq<Turn>, ghost before: seq<byte>)
    returns (status: Option<Status>, size: u32)
    requires buffer.Length == q.capacity && Fits(q, turns)
    requires start == Reader(Waiting, 0, 1, []) && OnTrack(q, turns, start, link.outbox, link.script)
    requires Holds(q, start, before, buffer[..])
    modifies buffer, link
    ensures EndsWith(q, turns, before, buffer[..], link.outbox, status, size)
  {
    hide Run, OnTrack, EndsWith, Sound, Holds, OnData, Fits;
    ghost var m := start;
    var completed, received: u32, expected: u32 := false, 0, 1;
    while !completed
      invariant OnTrack(q, turns, m, link.outbox, link.script) && Holds(q, m, before, buffer[..])
      invariant m.phase == (if completed then Finished(Success) else Waiting) && m.received == received && m.expected == expected
      decreases |link.script|, !completed
    {
      if link.script == [] {
        Returned(q, turns, m, before, buffer[..], link.outbox, link.script);
        return None, q.capacity;
      }
      ghost var t := link.script[0];
      if link.script[0].late {
        FailedTurn(q, turns, m, before, buffer[..], link.outbox, link.script, Timeout);
        link.EndTurn();
        return Some(Timeout), q.capacity;
      }
      match Reply(link.script[0].reception)
      case Failed(error) =>
        FailedTurn(q, turns, m, before, buffer[..], link.outbox, link.script, error);
        link.EndTurn();
        return Some(error), q.capacity;
      case Ack(_) =>
        FailedTurn(q, turns, m, before, buffer[..], link.outbox, link.script, Error);
        link.EndTurn();
        return Some(Error), q.capacity;
      case Retry =>
        Advance(q, turns, m, link.outbox, link.script);
        assert link.outbox + [] == link.outbox;
        link.EndTurn();
      case Data(number, body) =>
        if number != expected {
          RejectedTurn(q, turns, m, before, buffer[..], link.outbox, link.script, number, body);
          link.EndTurn();
          return Some(Error), q.capacity;
        }
        if (received + |body|) % WORD > q.capacity {
          RejectedTurn(q, turns, m, before, buffer[..], link.outbox, link.script, number, body);
          link.EndTurn();
          return Some(InvalidParam), q.capacity;
        }
        Advance(q, turns, m, link.outbox, link.script);
        DataHolds(q, m, before, buffer[..], number, body, t.sendOk);
        CopyInto(buffer, received, body);
        received := received + |body|;
        AcceptedData(q, m, number, body, t.sendOk);
        m := OnData(q, m, number, body, t.sendOk).0;
        var ok := link.Send(AckPacket(number));
        link.EndTurn();
        assert link.outbox + [] == link.outbox;
        if !ok {
          Returned(q, turns, m, before, buffer[..], link.outbox, link.script);
          return Some(MailboxError), q.capacity;
        }
        expected := (expected + 1) % WORD;
        completed := |body| < MAX_DATA;
    }
    Returned(q, turns, m, before, buffer[..], link.outbox, link.script);
    return Some(Success), received;
  }

  /** A turn that ends the call with an error. */
  lemma FailedTurn(q: Query, turns: seq<Turn>, m: Reader, before: seq<byte>, now: seq<byte>, done: seq<Packet>, rest: seq<Turn>,
                   error: Status)
    requires OnTrack(q, turns, m, done, rest) && rest != [] && m.phase.Waiting? && Holds(q, m, before, now) && Fits(q, turns)
    requires Step(q, m, rest[0]) == (m.(phase := Finished(error)), []) && error != Success
    ensures EndsWith(q, turns, before, now, done, Some(error), q.capacity)
  {
    hide Step, Run, OnTrack, Holds, EndsWith;
    Advance(q, turns, m, done, rest);
    assert done + [] == done;
    StillHolds(q, m, Finished(error), before, now);
    Returned(q, turns, m.(phase := Finished(error)), before, now, done, rest[1..]);
  }

  lemma RejectedTurn(q: Query, turns: seq<Turn>, m: Reader, before: seq<byte>, now: seq<byte>, done: seq<Packet>, rest: seq<Turn>,
                     number: u32, body: Body)
    requires OnTrack(q, turns, m, done, rest) && rest != [] && m.phase.Waiting? && Holds(q, m, before, now) && Fits(q, turns)
    requires !rest[0].late && Reply(rest[0].reception) == Data(number, body)
    requires number != m.expected || (m.received + |body|) % WORD > q.capacity
    ensures EndsWith(q, turns, before, now, done, Some(if number != m.expected then Error else InvalidParam), q.capacity)
  {
    hide Run, OnTrack, Holds, EndsWith;
    FailedTurn(q, turns, m, before, now, done, rest, if number != m.expected then Error else InvalidParam);
  }
}
