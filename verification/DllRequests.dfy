/**
 The data link API as its callers see it: which of their requests goes out next, what the counters count, and which
 calls succeed. Stated over every run of calls, on the requests themselves.
 */
module DllRequests {
  import opened Wrappers
  import opened Frame
  import opened QueueSpec
  import opened DllSpec

  // ---------- Which request goes out next ----------

  /** The earliest request of the highest priority. */
  function Best(p: seq<SendRequest>): (b: nat)
    requires p != []
    ensures b < |p| && (forall i :: 0 <= i < |p| ==> p[i].priority <= p[b].priority)
    ensures forall i :: 0 <= i < b ==> p[i].priority < p[b].priority
  {
    var n := |p| - 1;
    if n == 0 then 0
    else if p[n].priority > p[Best(p[..n])].priority then n
    else Best(p[..n])
  }

  function Without(p: seq<SendRequest>, at: nat): seq<SendRequest>
    requires at < |p|
  {
    p[..at] + p[at + 1..]
  }

  /** A frame is taken from the TX queue by this call. */
  predicate TakesFrame(d: Dll, op: DllOp) {
    op.ProcessTx? && d.initialized && d.running && Waiting(d.tx) > 0
  }

  /** The accepted requests that have neither been handed out nor flushed, in order of acceptance. */
  function Pending(ops: seq<DllOp>): (p: seq<SendRequest>)
    ensures Waiting(After(ops).tx) == 0 ==> p == []
  {
    if ops == [] || Waiting(After(ops).tx) == 0 then []
    else
      var before, op := ops[..|ops| - 1], ops[|ops| - 1];
      if op.Send? && Do(After(before), op).1 == Success && op.request.Some? then Pending(before) + [op.request.value]
      else if TakesFrame(After(before), op) && Pending(before) != [] then Without(Pending(before), Best(Pending(before)))
      else Pending(before)
  }

  /** The entry carries what the caller gave. */
  predicate Carries(e: Entry, r: SendRequest) {
    r.frame == Some(e.frame) && e.length == r.length && e.priority == r.priority && e.userData == r.userData && e.timestamp == 0
  }

  ghost predicate AllFramed(p: seq<SendRequest>) {
    forall i :: 0 <= i < |p| ==> p[i].Valid()
  }

  /** The requests queued one after the other. */
  function Queued(p: seq<SendRequest>): seq<Entry>
    requires AllFramed(p)
  {
    if p == [] then [] else Insert(Queued(p[..|p| - 1]), p[|p| - 1].ToEntry())
  }

  lemma InsertInFront(q: seq<Entry>, e: Entry)
    requires forall i :: 0 <= i < |q| ==> q[i].priority < e.priority
    ensures Insert(q, e) == [e] + q
  {
    assert Position(q, e.priority) == 0;
  }

  lemma InsertBehind(q: seq<Entry>, e: Entry)
    requires q != [] && q[0].priority >= e.priority
    ensures Insert(q, e)[0] == q[0] && Insert(q, e)[1..] == Insert(q[1..], e)
  {
    var k := Position(q, e.priority);
    assert k > 0;
    PositionUnique(q[1..], e.priority, k - 1);
    hide Position;
    Regroup(q, k, e);
  }

  lemma Regroup(q: seq<Entry>, k: nat, e: Entry)
    requires 0 < k <= |q|
    ensures (q[..k] + [e] + q[k..])[0] == q[0]
    ensures (q[..k] + [e] + q[k..])[1..] == q[1..][..k - 1] + [e] + q[1..][k - 1..]
  {
  }

  lemma {:induction false} QueuedSize(p: seq<SendRequest>)
    requires AllFramed(p)
    ensures |Queued(p)| == |p|
    decreases |p|
  {
    if p != [] {
      QueuedSize(p[..|p| - 1]);
    }
  }

  /** The head of the queue has the highest priority. */
  lemma {:induction false} HeadIsHighest(p: seq<SendRequest>)
    requires AllFramed(p) && p != []
    ensures forall i :: 0 <= i < |Queued(p)| ==> Queued(p)[i].priority <= Queued(p)[0].priority
    decreases |p|
  {
    var n := |p| - 1;
    QueuedSize(p[..n]);
    var q, e := Queued(p[..n]), p[n].ToEntry();
    if n > 0 {
      HeadIsHighest(p[..n]);
    }
  }

  lemma BestOfMore(p: seq<SendRequest>)
    requires |p| > 1
    ensures var n := |p| - 1;
      var q := p[..n];
      if p[n].priority > q[Best(q)].priority then Best(p) == n && Without(p, Best(p)) == q
      else Best(p) == Best(q) && Without(p, Best(p)) == Without(q, Best(q)) + [p[n]] && p[Best(p)] == q[Best(q)]
  {
  }

  lemma OneRequest(p: seq<SendRequest>)
    requires |p| == 1 && AllFramed(p)
    ensures Best(p) == 0 && Without(p, 0) == [] && Queued(p) == [p[0].ToEntry()] && Queued([]) == []
  {
    assert p[..0] == [];
    InsertInFront([], p[0].ToEntry());
  }

  lemma EntryCarries(r: SendRequest)
    requires r.Valid()
    ensures Carries(r.ToEntry(), r)
  {
  }

  /** The queue's first entry is the best request, and without it the queue is that of the others. */
  lemma {:induction false} FirstIsBest(p: seq<SendRequest>)
    requires AllFramed(p) && p != []
    ensures Queued(p) != [] && Carries(Queued(p)[0], p[Best(p)]) && AllFramed(Without(p, Best(p)))
    ensures Queued(p)[1..] == Queued(Without(p, Best(p)))
    decreases |p|
  {
    var n := |p| - 1;
    if n == 0 {
      OneRequest(p);
      EntryCarries(p[0]);
    } else {
      var q, r := p[..n], p[n];
      assert AllFramed(q) && r.Valid() && p == q + [r];
      hide *;
      FirstIsBest(q);
      BestOfMore(p);
      EntryCarries(r);
      LastRequest(p, q, r);
      if r.priority > q[Best(q)].priority {
        assert ([r.ToEntry()] + Queued(q))[1..] == Queued(q);
      }
    }
  }

  /** The last request goes to the front of the queue or behind its head. */
  lemma LastRequest(p: seq<SendRequest>, q: seq<SendRequest>, r: SendRequest)
    requires p == q + [r] && q != [] && AllFramed(q) && r.Valid()
    requires Queued(q) != [] && Carries(Queued(q)[0], q[Best(q)]) && AllFramed(Without(q, Best(q)))
    requires Queued(q)[1..] == Queued(Without(q, Best(q)))
    ensures AllFramed(p) && Queued(p) != []
    ensures if r.priority > q[Best(q)].priority then Queued(p) == [r.ToEntry()] + Queued(q)
            else Queued(p)[0] == Queued(q)[0] && AllFramed(Without(q, Best(q)) + [r])
                 && Queued(p)[1..] == Queued(Without(q, Best(q)) + [r])
  {
    assert p[..|q|] == q;
    Unfold(p);
    QueuedSize(p);
    var rest := Without(q, Best(q));
    hide Best, Without, Queued, Insert;
    if r.priority > q[Best(q)].priority {
      HeadIsHighest(q);
      InsertInFront(Queued(q), r.ToEntry());
    } else {
      InsertBehind(Queued(q), r.ToEntry());
      assert (rest + [r])[..|rest|] == rest;
      Unfold(rest + [r]);
    }
  }

  lemma Unfold(p: seq<SendRequest>)
    requires AllFramed(p) && p != []
    ensures Queued(p) == Insert(Queued(p[..|p| - 1]), p[|p| - 1].ToEntry())
  {
  }

  /** The TX queue of the state is that of the pending requests. */
  ghost predicate Represents(d: Dll, p: seq<SendRequest>) {
    AllFramed(p) && (if d.tx.Live? then d.tx.queue == Queued(p) else p == [])
  }

  lemma AfterAppend(ops: seq<DllOp>)
    requires ops != []
    ensures After(ops) == Do(After(ops[..|ops| - 1]), ops[|ops| - 1]).0
  {
    var before, op := ops[..|ops| - 1], ops[|ops| - 1];
    assert ops == before + [op];
    RunConcat(POWER_ON, before, [op]);
    assert [op][1..] == [];
    assert RunFrom(After(before), [op]) == RunFrom(Do(After(before), op).0, []);
  }

  /** What a call makes of the TX queue. */
  lemma QueueStep(d: Dll, op: DllOp)
    requires Consistent(d)
    ensures var (d', status) := Do(d, op);
      if op.Send? && status == Success then
        op.request.Some? && op.request.value.Valid() && d.tx.Live? && d'.tx.Live?
        && d'.tx.queue == Insert(d.tx.queue, op.request.value.ToEntry())
      else if TakesFrame(d, op) then d.tx.Live? && d'.tx.Live? && d'.tx.queue == d.tx.queue[1..]
      else Waiting(d'.tx) == 0 || d'.tx == d.tx
  {
    hide Insert, SendRequest.ToEntry;
  }

  lemma StepRepresents(d: Dll, op: DllOp, p: seq<SendRequest>, d': Dll, p': seq<SendRequest>)
    requires Consistent(d) && Represents(d, p) && d' == Do(d, op).0 && Consistent(d')
    requires p' == if Waiting(d'.tx) == 0 then []
                   else if op.Send? && Do(d, op).1 == Success && op.request.Some? then p + [op.request.value]
                   else if TakesFrame(d, op) && p != [] then Without(p, Best(p))
                   else p
    ensures Represents(d', p')
  {
    QueueStep(d, op);
    QueuedSize(p);
    if Waiting(d'.tx) == 0 {
    } else if op.Send? && Do(d, op).1 == Success {
      assert p'[..|p|] == p;
      Unfold(p');
    } else if TakesFrame(d, op) {
      FirstIsBest(p);
    }
    hide Do, Queued, Insert, Consistent;
  }

  lemma {:induction false} RunRepresents(ops: seq<DllOp>)
    ensures Consistent(After(ops)) && Represents(After(ops), Pending(ops))
    decreases |ops|
  {
    RunKeepsConsistent(POWER_ON, ops);
    hide Consistent, Do;
    if ops == [] {
      assert Represents(POWER_ON, []);
    } else {
      var before, op := ops[..|ops| - 1], ops[|ops| - 1];
      RunRepresents(before);
      AfterAppend(ops);
      hide Represents, Waiting, TakesFrame;
      StepRepresents(After(before), op, Pending(before), After(ops), Pending(ops));
    }
  }

  /** In every run of calls: as many frames wait as requests are pending, and the frame that dl_process_tx_queue hands to
      the HAL carries the frame, length, priority and user data of the earliest of the highest priority among them. */
  lemma HandsOutBest(ops: seq<DllOp>, bufferOk: bool, sendOk: bool)
    ensures Waiting(After(ops).tx) == |Pending(ops)|
    ensures Pending(ops) != [] ==>
      var d := After(ops);
      var d' := Do(d, ProcessTx(bufferOk, sendOk)).0;
      && d.tx.Live? && d'.tx.Live? && d.tx.queue != [] && d.tx.queue[1..] == d'.tx.queue
      && Carries(d.tx.queue[0], Pending(ops)[Best(Pending(ops))])
      && Pending(ops + [ProcessTx(bufferOk, sendOk)]) == Without(Pending(ops), Best(Pending(ops)))
  {
    RunRepresents(ops);
    var p := Pending(ops);
    QueuedSize(p);
    if p != [] {
      var op := ProcessTx(bufferOk, sendOk);
      assert (ops + [op])[..|ops|] == ops;
      AfterAppend(ops + [op]);
      FirstIsBest(p);
      QueuedSize(Without(p, Best(p)));
      QueueStep(After(ops), op);
      Handed(ops, op);
    }
    hide Queued, Insert, Consistent, Do;
  }

  lemma Handed(ops: seq<DllOp>, op: DllOp)
    requires op.ProcessTx? && Pending(ops) != [] && Consistent(After(ops)) && (ops + [op])[..|ops|] == ops
    ensures TakesFrame(After(ops), op)
    ensures Waiting(After(ops + [op]).tx) > 0 ==> Pending(ops + [op]) == Without(Pending(ops), Best(Pending(ops)))
    ensures Waiting(After(ops + [op]).tx) == 0 ==> Pending(ops + [op]) == []
  {
    hide After, Do;
  }

  // ---------- What the counters count ----------

  /** The statistics start anew: a reset of them, or an initialization that is tried. */
  predicate ClearsStatistics(d: Dll, op: DllOp) {
    || (op.ResetStatistics? && d.state != Uninitialized)
    || (op.Init? && d.state == Uninitialized && GoodConfig(op.config))
  }

  predicate GoodConfig(config: Option<Config>) {
    config.Some? && config.value.restValid && 4 <= config.value.txQueueSize <= 1024 && 4 <= config.value.rxQueueSize <= 1024
  }

  predicate GoodRequest(request: Option<SendRequest>) {
    request.Some? && request.value.frame.Some? && 1 <= request.value.length <= 1518
  }

  predicate IsFull(h: Handle) {
    h.Live? && |h.queue| >= h.capacity
  }

  /** By one call: a frame that the HAL took, one that it did not take, and a good request that met a full queue. */
  function Counted(ops: seq<DllOp>): Statistics {
    if ops == [] then Statistics(0, 0, 0)
    else
      var before, op := ops[..|ops| - 1], ops[|ops| - 1];
      var c, d := Counted(before), After(before);
      var started := d.state == Ready || d.state == Running;
      if ClearsStatistics(d, op) then Statistics(0, 0, 0)
      else if op.ProcessTx? && started && Waiting(d.tx) > 0 then
        if op.bufferOk && op.sendOk then c.(framesSent := c.framesSent + 1) else c.(sendErrors := c.sendErrors + 1)
      else if op.Send? && GoodRequest(op.request) && started && IsFull(d.tx) then c.(txOverflows := c.txOverflows + 1)
      else c
  }

  lemma StatisticsStep(d: Dll, op: DllOp)
    requires Consistent(d) && d.state != Faulted
    ensures var s, s' := d.statistics, Do(d, op).0.statistics;
      var started := d.state == Ready || d.state == Running;
      s' ==
        if ClearsStatistics(d, op) then Statistics(0, 0, 0)
        else if op.ProcessTx? && started && Waiting(d.tx) > 0 then
          if op.bufferOk && op.sendOk then s.(framesSent := s.framesSent + 1) else s.(sendErrors := s.sendErrors + 1)
        else if op.Send? && GoodRequest(op.request) && started && IsFull(d.tx) then s.(txOverflows := s.txOverflows + 1)
        else s
  {
    hide Insert;
  }

  /** In every run of calls the statistics count exactly the frames that the HAL took, those that it did not take, and the
      requests that met a full queue, since they were last cleared. */
  lemma {:induction false} StatisticsAreCounts(ops: seq<DllOp>)
    ensures After(ops).statistics == Counted(ops)
    decreases |ops|
  {
    if ops != [] {
      var before := ops[..|ops| - 1];
      StatisticsAreCounts(before);
      RunKeepsConsistent(POWER_ON, before);
      NeverFaulted(POWER_ON, before);
      AfterAppend(ops);
      StatisticsStep(After(before), ops[|ops| - 1]);
      hide Consistent, Do;
    }
  }

  // ---------- Which calls succeed ----------

  lemma Reachable(ops: seq<DllOp>)
    ensures Consistent(After(ops)) && After(ops).state != Faulted
  {
    RunKeepsConsistent(POWER_ON, ops);
    NeverFaulted(POWER_ON, ops);
    hide Do, Consistent;
  }

  /** dl_init succeeds exactly from UNINITIALIZED with a good configuration and all resources, and starts from nothing;
      refused, it changes nothing, and failing, it leaves no usable queue. */
  lemma InitSucceedsIff(ops: seq<DllOp>, config: Option<Config>, txAllocated: bool, rxAllocated: bool, halOk: bool)
    ensures var d := After(ops);
      var (d', status) := Do(d, Init(config, txAllocated, rxAllocated, halOk));
      && (status == Success <==> d.state == Uninitialized && GoodConfig(config) && txAllocated && rxAllocated && halOk)
      && (status == InvalidParam <==> d.state == Uninitialized && !GoodConfig(config))
      && (status == Success ==>
            d' == Dll(Initialized, Initialized, true, false, Live(config.value.txQueueSize, []),
                      Live(config.value.rxQueueSize, []), Statistics(0, 0, 0), 0, 0, 0))
      && (d.state != Uninitialized || status == InvalidParam ==> d' == d)
      && (d.state == Uninitialized && status == Error ==>
            d'.state == Uninitialized && !d'.tx.Live? && !d'.rx.Live?
            && (d'.tx.Freed? <==> txAllocated) && (d'.rx.Freed? <==> txAllocated && rxAllocated))
  {
    Reachable(ops);
  }

  /** dl_start and dl_shutdown: exactly from INITIALIZED, and from INITIALIZED or READY. */
  lemma StartAndShutdownSucceedIff(ops: seq<DllOp>)
    ensures var d := After(ops);
      var (d', status) := Do(d, Start);
      (status == Success <==> d.state == Initialized)
      && d' == if d.state == Initialized then d.(state := Ready, moduleState := Ready, running := true) else d
    ensures var d := After(ops);
      var (d', status) := Do(d, Shutdown);
      && (status == Success <==> d.state == Initialized || d.state == Ready)
      && (if status == Success then d'.state == Uninitialized && d'.tx == d'.rx == Null && d'.statistics == d.statistics
          else d' == d)
  {
    Reachable(ops);
  }

  /** dl_send_req: a good request in READY or RUNNING, with room in the TX queue. */
  lemma SendSucceedsIff(ops: seq<DllOp>, request: Option<SendRequest>)
    ensures var d := After(ops);
      var (d', status) := Do(d, Send(request));
      var started := d.state == Ready || d.state == Running;
      && (status == InvalidParam <==> !GoodRequest(request))
      && (status == Success <==> GoodRequest(request) && started && !IsFull(d.tx))
      && (status == Success ==> d'.state == Running && Waiting(d'.tx) == Waiting(d.tx) + 1 && d'.accepted == d.accepted + 1)
      && (status != Success ==> d' == d.(statistics := d'.statistics))
  {
    Reachable(ops);
    var d := After(ops);
    if request.Some? && GoodRequest(request) && d.tx.Live? {
      assert |Insert(d.tx.queue, request.value.ToEntry())| == |d.tx.queue| + 1;
    }
    hide Insert;
  }

  /** dl_process_tx_queue, the flushes and dl_reset_statistics. */
  lemma ServiceSucceedsIff(ops: seq<DllOp>, bufferOk: bool, sendOk: bool)
    ensures var d := After(ops);
      var started := d.state == Ready || d.state == Running;
      && (Do(d, ProcessTx(bufferOk, sendOk)).1 == Success <==> started && (Waiting(d.tx) == 0 || (bufferOk && sendOk)))
      && (Do(d, FlushTx).1 == Success <==> d.state != Uninitialized)
      && (Do(d, FlushRx).1 == Success <==> d.state != Uninitialized)
      && (Do(d, ResetStatistics).1 == Success <==> d.state != Uninitialized)
    ensures var d := After(ops);
      d.state != Uninitialized ==>
        && Waiting(Do(d, FlushTx).0.tx) == 0 && Do(d, FlushTx).0.flushed == d.flushed + Waiting(d.tx)
        && Waiting(Do(d, FlushRx).0.rx) == 0
        && Do(d, ResetStatistics).0.statistics == Statistics(0, 0, 0) && Do(d, ResetStatistics).0.baseline == Waiting(d.tx)
  {
    Reachable(ops);
  }

  /** Only dl_init and dl_shutdown replace the queues: any other call keeps both, with their capacities, and what waits in
      them but for the frame it handles, or everything if it flushes. */
  lemma QueuesAreKept(ops: seq<DllOp>, op: DllOp)
    requires !op.Init? && !op.Shutdown?
    ensures var d, d' := After(ops), Do(After(ops), op).0;
      && d'.tx.Live? == d.tx.Live? && d'.rx.Live? == d.rx.Live?
      && (d.tx.Live? && d.rx.Live? ==> d'.tx.capacity == d.tx.capacity && d'.rx.capacity == d.rx.capacity)
      && (op.FlushTx? && d.initialized ==> Waiting(d'.tx) == 0 && d'.rx == d.rx)
      && (op.FlushRx? && d.initialized ==> Waiting(d'.rx) == 0 && d'.tx == d.tx)
      && (op.Stop? && (d.state == Ready || d.state == Running) ==> Waiting(d'.tx) == Waiting(d'.rx) == 0)
      && (op.Send? || op.ProcessTx? ==> d'.rx == d.rx)
      && (op.Start? || op.Reset? || op.ResetStatistics? ==> d'.tx == d.tx && d'.rx == d.rx)
  {
    Reachable(ops);
    hide Insert;
  }
}
