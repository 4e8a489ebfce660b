/**
 coe_sdo_upload told from outside: which messages it puts out, what each event of the mailbox leads to, and what it
 waits through. Stated over whole runs, in the terms of the messages and with the numbers of the protocol.
 */
module SdoUploadOutcome {
  import opened Endian
  import opened Coe
  import opened Copies
  import opened SdoUpload

  /** A CoE SDO response that is long enough for its eight bytes. */
  predicate IsSdoResponse(e: Answer) {
    e.poll.Arrived? && e.poll.message.isCoe && e.poll.message.length >= 10 && e.poll.message.service == 3
  }

  predicate NamesObject(q: Query, e: Answer)
    requires e.poll.Arrived?
  {
    e.poll.message.index == q.index && e.poll.message.subindex == q.subindex
  }

  /** What a wait passes over: nothing, no response, and, waiting for the initiate response, one about another object. */
  ghost predicate Passed(q: Query, m: Master, e: Answer) {
    && (m.phase.AwaitInitiate? || m.phase.AwaitSegment?)
    && (|| e.poll.Nothing?
        || (e.poll.Arrived? && !IsSdoResponse(e))
        || (m.phase.AwaitInitiate? && e.poll.Arrived? && e.poll.message.command % 8 != 4 && !NamesObject(q, e)))
  }

  lemma {:induction false} RunSplits(q: Query, m: Master, first: seq<Answer>, second: seq<Answer>)
    ensures var (m1, out1) := Run(q, m, first);
      var (m2, out2) := Run(q, m1, second);
      Run(q, m, first + second) == (m2, out1 + out2)
    decreases |first|
  {
    hide Step;
    var none: seq<Request> := [];
    assert none + none == none;
    if first == [] {
      assert first + second == second;
      assert [] + Run(q, m, second).1 == Run(q, m, second).1;
    } else if !m.phase.Finished? {
      assert (first + second)[1..] == first[1..] + second;
      var (m1, out1) := Step(q, m, first[0]);
      RunSplits(q, m1, first[1..], second);
      var (m2, out2) := Run(q, m1, first[1..]);
      assert (out1 + out2) + Run(q, m2, second).1 == out1 + (out2 + Run(q, m2, second).1);
    }
  }

  lemma PassedStays(q: Query, m: Master, e: Answer)
    requires Passed(q, m, e)
    ensures Step(q, m, e) == (m, []) && !m.phase.Finished?
  {
  }

  lemma {:induction false} WaitsThrough(q: Query, m: Master, passed: seq<Answer>)
    requires forall i :: 0 <= i < |passed| ==> Passed(q, m, passed[i])
    ensures Run(q, m, passed) == (m, [])
    decreases |passed|
  {
    var none: seq<Request> := [];
    assert none + none == none;
    if passed != [] {
      PassedStays(q, m, passed[0]);
      hide Step, Passed;
      WaitsThrough(q, m, passed[1..]);
    }
  }

  /** Empty polls and messages that are not the awaited response, wherever they come in a wait, change nothing: not the
      status, not the copies and not the messages put out. */
  lemma PassedChangeNothing(q: Query, before: seq<Answer>, passed: seq<Answer>, after: seq<Answer>)
    requires forall i :: 0 <= i < |passed| ==> Passed(q, Run(q, Start(q), before).0, passed[i])
    ensures Run(q, Start(q), before + passed + after) == Run(q, Start(q), before + after)
  {
    var (m, out) := Run(q, Start(q), before);
    RunSplits(q, Start(q), before + passed, after);
    RunSplits(q, Start(q), before, passed);
    RunSplits(q, Start(q), before, after);
    WaitsThrough(q, m, passed);
    assert out + [] == out;
  }

  // ---------- The messages ----------

  /** The initiate request for the object, then segment requests with the toggle in turn. */
  ghost predicate InSequence(q: Query, out: seq<Request>) {
    && (out != [] ==> out[0] == Initiate(q.index, q.subindex))
    && (forall i :: 1 <= i < |out| ==> out[i] == Segment((i - 1) % 2))
  }

  /** How far the call is, by what it has put out. */
  ghost predicate Progress(q: Query, m: Master, out: seq<Request>) {
    && InSequence(q, out)
    && match m.phase
       case SendInitiate => out == [] && m.copies == []
       case AwaitInitiate => |out| == 1 && m.copies == []
       case SendSegment => |out| >= 1 && m.toggle == (|out| - 1) % 2
       case AwaitSegment => |out| >= 2 && m.toggle == (|out| - 2) % 2
       case Finished(_) => true
  }

  lemma StepProgresses(q: Query, m: Master, e: Answer, out: seq<Request>)
    requires Progress(q, m, out)
    ensures var (m', more) := Step(q, m, e); Progress(q, m', out + more)
  {
    assert out + [] == out;
  }

  lemma {:induction false} RunProgresses(q: Query, m: Master, script: seq<Answer>, out: seq<Request>)
    requires Progress(q, m, out)
    ensures var (m', more) := Run(q, m, script); Progress(q, m', out + more)
    decreases |script|
  {
    hide Step, Progress;
    if m.phase.Finished? || script == [] {
      assert out + [] == out;
    } else {
      var (m1, out1) := Step(q, m, script[0]);
      StepProgresses(q, m, script[0], out);
      RunProgresses(q, m1, script[1..], out + out1);
      assert (out + out1) + Run(q, m1, script[1..]).1 == out + (out1 + Run(q, m1, script[1..]).1);
    }
  }

  lemma StartProgresses(q: Query, script: seq<Answer>)
    ensures var (m, out) := Run(q, Start(q), script); Progress(q, m, out)
  {
    RunProgresses(q, Start(q), script, []);
    assert [] + Run(q, Start(q), script).1 == Run(q, Start(q), script).1;
  }

  /** In every run the messages put out are the initiate request and the segment requests in turn. */
  lemma MessagesAreInSequence(q: Query, script: seq<Answer>)
    ensures InSequence(q, Run(q, Start(q), script).1)
  {
    StartProgresses(q, script);
  }

  // ---------- What each event leads to ----------

  lemma OneMore(q: Query, before: seq<Answer>, e: Answer)
    ensures var (m, out) := Run(q, Start(q), before);
      !m.phase.Finished? ==> Run(q, Start(q), before + [e]) == (Step(q, m, e).0, out + Step(q, m, e).1)
  {
    var (m, out) := Run(q, Start(q), before);
    RunSplits(q, Start(q), before, [e]);
    hide Step;
    if !m.phase.Finished? {
      assert [e][1..] == [];
      var (m', more) := Step(q, m, e);
      assert Run(q, m', []) == (m', []);
      assert more + [] == more;
    }
  }

  /** The call is refused at once exactly if there is no room. */
  lemma RefusedIffNoRoom(q: Query)
    ensures Start(q).phase == (if q.capacity == 0 then Finished(InvalidParam) else SendInitiate)
    ensures Start(q).received == 0 && Start(q).copies == []
  {
  }

  /** A call that is about to send goes on to wait exactly if the mailbox takes the message. */
  lemma SendDecides(q: Query, before: seq<Answer>, e: Answer)
    requires Run(q, Start(q), before).0.phase in {SendInitiate, SendSegment}
    ensures var (m, out) := Run(q, Start(q), before);
      var (m', out') := Run(q, Start(q), before + [e]);
      && |out'| == |out| + (if e.sendOk then 1 else 0) && m'.copies == m.copies && m'.received == m.received
      && m'.phase ==
           if !e.sendOk then Finished(Error) else if m.phase.SendInitiate? then AwaitInitiate else AwaitSegment
  {
    OneMore(q, before, e);
  }

  /** While it waits for the initiate response: an expedited answer about the object ends the call with its bytes if they
      fit, and any other answer about it starts the segments if the size it shows fits. */
  lemma InitiateWaitDecides(q: Query, before: seq<Answer>, e: Answer)
    requires Run(q, Start(q), before).0.phase.AwaitInitiate?
    ensures var (m, out) := Run(q, Start(q), before);
      var (m', out') := Run(q, Start(q), before + [e]);
      && out' == out && m.copies == []
      && (if e.poll.TimedOut? then m' == m.(phase := Finished(Timeout))
          else if Passed(q, m, e) then m' == m
          else
            var r := e.poll.message;
            if r.command % 8 == 4 then m' == m.(phase := Finished(Abort))
            else if r.command / 64 % 2 == 1 then
              var bytes := r.payload[..4 - r.command / 16 % 4];
              if |bytes| > q.capacity then m' == m.(phase := Finished(Error))
              else m'.phase == Finished(Success) && m'.received == |bytes| && Joined(m'.copies) == bytes
            else if r.size > q.capacity then m' == m.(phase := Finished(Error))
            else m'.phase == SendSegment && m'.received == 0 && m'.copies == [])
  {
    OneMore(q, before, e);
    StartProgresses(q, before);
    var (m, out) := Run(q, Start(q), before);
    assert out + [] == out;
    if e.poll.Arrived? {
      var bytes := e.poll.message.payload[..4 - InitUnused(e.poll.message.command)];
      OneBlock(bytes);
    }
    hide Joined, Run, InSequence;
  }

  lemma OneBlock(bytes: seq<byte>)
    ensures Joined([Copy(0, bytes, Mark(0, true))]) == bytes
  {
    var none: seq<Copy<Mark>> := [];
    JoinedAppend(none, Copy(0, bytes, Mark(0, true)));
    assert none + [Copy(0, bytes, Mark(0, true))] == [Copy(0, bytes, Mark(0, true))];
    assert Joined(none) == [];
  }

  /** While it waits for a segment: a segment with the toggle of the last request is copied behind the bytes received if
      the 32-bit sum fits, and ends the call if it is the last or fills the buffer. */
  lemma SegmentWaitDecides(q: Query, before: seq<Answer>, e: Answer)
    requires Run(q, Start(q), before).0.phase.AwaitSegment?
    ensures var (m, out) := Run(q, Start(q), before);
      var (m', out') := Run(q, Start(q), before + [e]);
      && out' == out && |out| >= 2
      && (if e.poll.TimedOut? then m' == m.(phase := Finished(Timeout))
          else if Passed(q, m, e) then m' == m
          else
            var r := e.poll.message;
            if r.command / 32 % 8 == 4 then m' == m.(phase := Finished(Abort))
            else if r.command % 2 != |out| % 2 then m' == m.(phase := Finished(Error))
            else
              var bytes := r.payload[..7 - r.command / 2 % 8];
              var sum := (m.received + |bytes|) % 0x1_0000_0000;
              if sum > q.capacity then m' == m.(phase := Finished(Error))
              else
                && m'.received == sum && |m'.copies| == |m.copies| + 1 && m'.copies[..|m.copies|] == m.copies
                && m'.copies[|m.copies|].at == m.received && m'.copies[|m.copies|].bytes == bytes
                && m'.phase == if r.command / 16 % 2 == 1 || sum == q.capacity then Finished(Success) else SendSegment)
  {
    OneMore(q, before, e);
    StartProgresses(q, before);
    var (m, out) := Run(q, Start(q), before);
    assert out + [] == out;
    hide Run, InSequence;
  }
}
