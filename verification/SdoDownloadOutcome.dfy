/**
 coe_sdo_download told from outside: which messages it puts out, what each event of the mailbox leads to, and what it
 waits through. Stated over whole runs, in the terms of the messages and with the numbers of the protocol.
 */
module SdoDownloadOutcome {
  import opened Coe
  import opened SdoDownload

  /** A CoE SDO response that is long enough for a structure of this size. */
  predicate IsSdoResponse(e: Answer, size: nat) {
    e.poll.Arrived? && e.poll.message.isCoe && e.poll.message.length >= 2 + size && e.poll.message.service == 3
  }

  /** What the wait for the initiate response passes over: nothing, no response, or one about another object. */
  predicate PassedByInitiate(job: Job, e: Answer) {
    || e.poll.Nothing?
    || (e.poll.Arrived? && !IsSdoResponse(e, 4))
    || (IsSdoResponse(e, 4) && e.poll.message.command % 8 != 4
        && (e.poll.message.index != job.index || e.poll.message.subindex != job.subindex))
  }

  /** What the wait for a segment response passes over. */
  predicate PassedBySegment(e: Answer) {
    e.poll.Nothing? || (e.poll.Arrived? && !IsSdoResponse(e, 1))
  }

  ghost predicate Passed(job: Job, m: Master, e: Answer) {
    (m.phase.AwaitInitiate? && PassedByInitiate(job, e)) || (m.phase.AwaitSegment? && PassedBySegment(e))
  }

  lemma {:induction false} RunSplits(job: Job, m: Master, first: seq<Answer>, second: seq<Answer>)
    requires Sound(job, m)
    ensures var (m1, out1) := Run(job, m, first);
      var (m2, out2) := Run(job, m1, second);
      Run(job, m, first + second) == (m2, out1 + out2)
    decreases |first|
  {
    hide Step;
    var none: seq<Request> := [];
    assert none + none == none;
    if first == [] {
      assert first + second == second;
      assert [] + Run(job, m, second).1 == Run(job, m, second).1;
    } else if !m.phase.Finished? {
      assert (first + second)[1..] == first[1..] + second;
      var (m1, out1) := Step(job, m, first[0]);
      RunSplits(job, m1, first[1..], second);
      var (m2, out2) := Run(job, m1, first[1..]);
      assert (out1 + out2) + Run(job, m2, second).1 == out1 + (out2 + Run(job, m2, second).1);
    }
  }

  lemma PassedStays(job: Job, m: Master, e: Answer)
    requires Sound(job, m) && Passed(job, m, e)
    ensures Step(job, m, e) == (m, []) && !m.phase.Finished?
  {
  }

  lemma {:induction false} WaitsThrough(job: Job, m: Master, passed: seq<Answer>)
    requires Sound(job, m) && forall i :: 0 <= i < |passed| ==> Passed(job, m, passed[i])
    ensures Run(job, m, passed) == (m, [])
    decreases |passed|
  {
    var none: seq<Request> := [];
    assert none + none == none;
    if passed != [] {
      PassedStays(job, m, passed[0]);
      hide Step, Passed;
      WaitsThrough(job, m, passed[1..]);
    }
  }

  /** Empty polls and messages that are not the awaited response, wherever they come in a wait, change nothing: not the
      status, and not the messages put out. */
  lemma PassedChangeNothing(job: Job, before: seq<Answer>, passed: seq<Answer>, after: seq<Answer>)
    requires forall i :: 0 <= i < |passed| ==> Passed(job, Run(job, Start(job), before).0, passed[i])
    ensures Run(job, Start(job), before + passed + after) == Run(job, Start(job), before + after)
  {
    var (m, out) := Run(job, Start(job), before);
    RunSplits(job, Start(job), before + passed, after);
    RunSplits(job, Start(job), before, passed);
    RunSplits(job, Start(job), before, after);
    WaitsThrough(job, m, passed);
    assert out + [] == out;
  }

  // ---------- The messages ----------

  function Cut(size: nat, end: nat): nat {
    if end < size then end else size
  }

  /** The first message: the object, and its bytes if there are at most four, else how many there are. */
  predicate IsFirst(job: Job, r: Request) {
    && r.Initiate? && r.index == job.index && r.subindex == job.subindex
    && if |job.data| <= 4 then
         && r.expedited && r.size == 0 && r.unused == 4 - |job.data| && |r.value| == 4 && r.value[..|job.data|] == job.data
         && (forall i :: |job.data| <= i < 4 ==> r.value[i] == 0)
       else !r.expedited && r.unused == 0 && r.size == |job.data| && r.value == []
  }

  /** Segment k: the next seven bytes or what is left, the toggle in turn, how many bytes are unused, and whether it ends. */
  predicate IsSegment(job: Job, r: Request, k: nat) {
    && 7 * k < |job.data| && r.Segment? && r.toggle == k % 2
    && r.bytes == job.data[7 * k..Cut(|job.data|, 7 * k + 7)] && r.unused == 7 - |r.bytes|
    && (r.last <==> |job.data| <= 7 * k + 7)
  }

  ghost predicate InSequence(job: Job, out: seq<Request>) {
    && (out != [] ==> IsFirst(job, out[0]))
    && (forall i :: 1 <= i < |out| ==> IsSegment(job, out[i], i - 1))
    && (|out| > 1 ==> |job.data| > 4)
  }

  /** How far the call is, by what it has put out. */
  ghost predicate Progress(job: Job, m: Master, out: seq<Request>) {
    && Sound(job, m) && InSequence(job, out)
    && match m.phase
       case SendInitiate => out == [] && job.data != []
       case AwaitInitiate => |out| == 1 && job.data != []
       case SendSegment =>
         |job.data| > 4 && |out| >= 1 && m.sent == 7 * (|out| - 1) && m.toggle == (|out| - 1) % 2
       case AwaitSegment =>
         |job.data| > 4 && |out| >= 2 && m.sent == 7 * (|out| - 2) && m.toggle == (|out| - 2) % 2
       case Finished(_) => true
  }

  lemma AppendInSequence(job: Job, out: seq<Request>, r: Request)
    requires InSequence(job, out) && (if out == [] then IsFirst(job, r) else |job.data| > 4 && IsSegment(job, r, |out| - 1))
    ensures InSequence(job, out + [r])
  {
    hide IsFirst, IsSegment;
  }

  lemma StepProgresses(job: Job, m: Master, e: Answer, out: seq<Request>)
    requires Progress(job, m, out)
    ensures var (m', more) := Step(job, m, e); Progress(job, m', out + more)
  {
    var (m', more) := Step(job, m, e);
    assert out + [] == out;
    if m.phase.SendInitiate? && e.sendOk {
      AppendInSequence(job, out, InitiateRequest(job));
    } else if m.phase.SendSegment? && e.sendOk {
      AppendInSequence(job, out, SegmentRequest(job, m.sent, m.toggle));
    }
    hide InSequence;
  }

  lemma {:induction false} RunProgresses(job: Job, m: Master, script: seq<Answer>, out: seq<Request>)
    requires Progress(job, m, out)
    ensures var (m', more) := Run(job, m, script); Progress(job, m', out + more)
    decreases |script|
  {
    assert Sound(job, m);
    hide Step, Progress;
    if m.phase.Finished? || script == [] {
      assert out + [] == out;
    } else {
      var (m1, out1) := Step(job, m, script[0]);
      StepProgresses(job, m, script[0], out);
      assert Sound(job, m1);
      RunProgresses(job, m1, script[1..], out + out1);
      assert (out + out1) + Run(job, m1, script[1..]).1 == out + (out1 + Run(job, m1, script[1..]).1);
    }
  }

  lemma StartProgresses(job: Job, script: seq<Answer>)
    ensures var (m, out) := Run(job, Start(job), script); Progress(job, m, out)
  {
    RunProgresses(job, Start(job), script, []);
    assert [] + Run(job, Start(job), script).1 == Run(job, Start(job), script).1;
  }

  /** In every run: the first message names the object and announces its size or carries its bytes, and the others are its
      segments in order. */
  lemma MessagesAreInSequence(job: Job, script: seq<Answer>)
    ensures InSequence(job, Run(job, Start(job), script).1)
  {
    StartProgresses(job, script);
  }

  // ---------- What each event leads to ----------

  /** The call is refused at once exactly if there are no bytes. */
  lemma RefusedIffEmpty(job: Job)
    ensures Start(job).phase == (if job.data == [] then Finished(InvalidParam) else SendInitiate)
  {
  }

  /** A call that is about to send goes on to wait exactly if the mailbox takes the message. */
  lemma SendDecides(job: Job, before: seq<Answer>, e: Answer)
    requires Run(job, Start(job), before).0.phase in {SendInitiate, SendSegment}
    ensures var (m, out) := Run(job, Start(job), before);
      var (m', out') := Run(job, Start(job), before + [e]);
      && |out'| == |out| + (if e.sendOk then 1 else 0)
      && m'.phase ==
           if m.phase.SendInitiate? then
             if e.sendOk then AwaitInitiate else Finished(if |job.data| <= 4 then Error else MailboxStatus)
           else if e.sendOk then AwaitSegment else Finished(Error)
  {
    OneMore(job, before, e);
  }

  lemma OneMore(job: Job, before: seq<Answer>, e: Answer)
    ensures var (m, out) := Run(job, Start(job), before);
      !m.phase.Finished? ==>
        Run(job, Start(job), before + [e]) == (Step(job, m, e).0, out + Step(job, m, e).1)
  {
    var (m, out) := Run(job, Start(job), before);
    RunSplits(job, Start(job), before, [e]);
    hide Step;
    if !m.phase.Finished? {
      assert [e][1..] == [];
      var (m', more) := Step(job, m, e);
      assert Run(job, m', []) == (m', []);
      assert more + [] == more;
    }
  }

  /** While it waits for the initiate response, the deadline, an abort and an answer about its object end the wait, and
      nothing else does. */
  lemma InitiateWaitDecides(job: Job, before: seq<Answer>, e: Answer)
    requires Run(job, Start(job), before).0.phase.AwaitInitiate?
    ensures var (m, out) := Run(job, Start(job), before);
      var (m', out') := Run(job, Start(job), before + [e]);
      && out' == out
      && m'.phase ==
           if e.poll.TimedOut? then Finished(Timeout)
           else if PassedByInitiate(job, e) then AwaitInitiate
           else if e.poll.message.command % 8 == 4 then Finished(Abort)
           else if |job.data| <= 4 then Finished(Success)
           else SendSegment
  {
    OneMore(job, before, e);
    var out := Run(job, Start(job), before).1;
    assert out + [] == out;
  }

  /** While it waits for the answer to a segment, the deadline, an abort and any other answer end the wait; the segment
      counts as delivered exactly if its toggle comes back, and the last one ends the call. */
  lemma SegmentWaitDecides(job: Job, before: seq<Answer>, e: Answer)
    requires Run(job, Start(job), before).0.phase.AwaitSegment?
    ensures var (m, out) := Run(job, Start(job), before);
      var (m', out') := Run(job, Start(job), before + [e]);
      && out' == out && |out| >= 2
      && m'.phase ==
           if e.poll.TimedOut? then Finished(Timeout)
           else if PassedBySegment(e) then AwaitSegment
           else if e.poll.message.command / 32 % 8 == 4 then Finished(Abort)
           else if e.poll.message.command % 2 != |out| % 2 then Finished(Error)
           else if |job.data| <= 7 * (|out| - 1) then Finished(Success)
           else SendSegment
  {
    OneMore(job, before, e);
    StartProgresses(job, before);
    var (m, out) := Run(job, Start(job), before);
    assert out + [] == out;
    hide InSequence, Run;
  }
}
