/**
 The API state machine of the data link layer as a step function on values: src/dll/dll_init.c,
 src/dll/dll_control.c, src/dll/dll_tx.c and the transition table of src/dll/dll_state.c. What malloc and
 the HAL answer is part of the operation. Properties are stated over every run of operations.
 */
module DllSpec {
  import opened Wrappers
  import opened Endian
  import opened Frame
  import opened QueueSpec

  datatype DlState = Uninitialized | Initialized | Ready | Running | Faulted

  /** transition_table; the fifth state is DL_STATE_ERROR. */
  predicate TransitionValid(from: DlState, to: DlState) {
    match from
    case Uninitialized => to in {Uninitialized, Initialized, Faulted}
    case Initialized => to in {Uninitialized, Initialized, Ready, Faulted}
    case Ready => to in {Initialized, Ready, Running, Faulted}
    case Running => to in {Ready, Running, Faulted}
    case Faulted => to in {Initialized, Faulted}
  }

  /** A state can be kept, or fail; else neighbours in the order of start-up can follow each other, and from the error state
      there is a way back to INITIALIZED only. */
  lemma TransitionsAre(from: DlState, to: DlState)
    ensures TransitionValid(from, to) <==>
      || to == from || to == Faulted
      || (from == Uninitialized && to == Initialized) || (from == Initialized && to in {Uninitialized, Ready})
      || (from == Ready && to in {Initialized, Running}) || (from == Running && to == Ready)
      || (from == Faulted && to == Initialized)
  {
  }

  /** A queue pointer: never created, destroyed but not cleared, or usable. */
  datatype Handle = Null | Freed | Live(capacity: nat, queue: seq<Entry>)

  datatype Config = Config(txQueueSize: nat, rxQueueSize: nat, restValid: bool)
  {
    /** dl_config_validate; frame size, cycle time, ports and MAC address are one flag. */
    predicate Valid() {
      restValid && 4 <= txQueueSize <= 1024 && 4 <= rxQueueSize <= 1024
    }
  }

  datatype Statistics = Statistics(framesSent: nat, sendErrors: nat, txOverflows: nat)

  const NO_STATISTICS := Statistics(0, 0, 0)

  /** dl_send_req_t; a missing frame is a null pointer. */
  datatype SendRequest = SendRequest(frame: Option<int>, length: u16, priority: nat, userData: int)
  {
    predicate Valid() {
      frame.Some? && 0 < length <= MAX_FRAME_SIZE
    }

    function ToEntry(): Entry
      requires Valid()
    {
      Entry(frame.value, length, priority, userData, 0)
    }
  }

  datatype DllOp =
    | Init(config: Option<Config>, txAllocated: bool, rxAllocated: bool, halOk: bool)
    | Shutdown
    | Start
    | Stop
    | Reset
    | Send(request: Option<SendRequest>)
    | ProcessTx(bufferOk: bool, sendOk: bool)
    | FlushTx
    | FlushRx
    | ResetStatistics

  /** The global context, the state module, and what happened since the last statistics reset. */
  datatype Dll = Dll(state: DlState, moduleState: DlState, initialized: bool, running: bool,
                     tx: Handle, rx: Handle, statistics: Statistics,
                     accepted: nat, flushed: nat, baseline: nat)

  const POWER_ON := Dll(Uninitialized, Uninitialized, false, false, Null, Null, NO_STATISTICS, 0, 0, 0)

  function Waiting(h: Handle): nat {
    if h.Live? then |h.queue| else 0
  }

  function Emptied(h: Handle): Handle {
    if h.Live? then h.(queue := []) else h
  }

  /** dl_state_set: new module state and whether it was accepted. */
  function StateSet(d: Dll, to: DlState): (Dll, bool) {
    if TransitionValid(d.moduleState, to) then (d.(moduleState := to), true) else (d, false)
  }

  function DoFlushTx(d: Dll): (Dll, DlStatus) {
    if !d.initialized || !d.tx.Live? then (d, Error)
    else (d.(tx := Emptied(d.tx), flushed := d.flushed + Waiting(d.tx)), Success)
  }

  function DoFlushRx(d: Dll): (Dll, DlStatus) {
    if !d.initialized || !d.rx.Live? then (d, Error)
    else (d.(rx := Emptied(d.rx)), Success)
  }

  function DoResetStatistics(d: Dll): (Dll, DlStatus) {
    if !d.initialized then (d, Error)
    else (d.(statistics := NO_STATISTICS, accepted := 0, flushed := 0, baseline := Waiting(d.tx)), Success)
  }

  /** Both queues and the HAL, on a cleared context. */
  function Create(d: Dll, config: Config, txAllocated: bool, rxAllocated: bool, halOk: bool): (Dll, bool) {
    if !txAllocated then (d, false)
    else if !rxAllocated then (d.(tx := Freed), false)
    else if !halOk then (d.(tx := Freed, rx := Freed), false)
    else (d.(tx := Live(config.txQueueSize, []), rx := Live(config.rxQueueSize, []), initialized := true), true)
  }

  function DoInit(d: Dll, config: Option<Config>, txAllocated: bool, rxAllocated: bool, halOk: bool): (Dll, DlStatus) {
    if d.initialized then (d, Error)
    else if config.None? || !config.value.Valid() then (d, InvalidParam)
    else
      var (created, ok) := Create(POWER_ON, config.value, txAllocated, rxAllocated, halOk);
      if !ok then (created, Error)
      else
        var (entered, allowed) := StateSet(created, Initialized);
        if !allowed then (entered.(tx := Freed, rx := Freed, initialized := false), Error)
        else (entered.(state := entered.moduleState), Success)
  }

  /** The move back to INITIALIZED with which dl_stop and dl_reset end. */
  function EnterInitialized(d: Dll): (Dll, DlStatus) {
    var (entered, ok) := StateSet(d, Initialized);
    if !ok then (entered, Error) else (entered.(state := entered.moduleState, running := false), Success)
  }

  function DoStart(d: Dll): (Dll, DlStatus) {
    if !d.initialized || d.state != Initialized then (d, Error)
    else
      var (entered, ok) := StateSet(d, Ready);
      if !ok then (entered, Error) else (entered.(state := entered.moduleState, running := true), Success)
  }

  function DoStop(d: Dll): (Dll, DlStatus) {
    if !d.initialized || (d.state != Ready && d.state != Running) then (d, Error)
    else EnterInitialized(DoFlushRx(DoFlushTx(d).0).0)
  }

  function DoReset(d: Dll): (Dll, DlStatus) {
    if !d.initialized || d.state != Faulted then (d, Error)
    else EnterInitialized(DoResetStatistics(DoFlushRx(DoFlushTx(d).0).0).0)
  }

  function DoShutdown(d: Dll): (Dll, DlStatus) {
    if !d.initialized || (d.state != Initialized && d.state != Ready) then (d, Error)
    else
      var stopped := if d.running then DoStop(d).0 else d;
      var entered := StateSet(stopped.(tx := Null, rx := Null), Uninitialized).0;
      (entered.(state := entered.moduleState, initialized := false), Success)
  }

  function DoSend(d: Dll, request: Option<SendRequest>): (Dll, DlStatus) {
    if request.None? || !request.value.Valid() then (d, InvalidParam)
    else if !d.initialized || (d.state != Ready && d.state != Running) then (d, Error)
    else if !d.tx.Live? || |d.tx.queue| >= d.tx.capacity then
      (d.(statistics := d.statistics.(txOverflows := d.statistics.txOverflows + 1)), Error)
    else
      var queued := d.(tx := d.tx.(queue := Insert(d.tx.queue, request.value.ToEntry())), accepted := d.accepted + 1);
      if queued.state == Ready then
        var entered := StateSet(queued, Running).0;
        (entered.(state := entered.moduleState), Success)
      else (queued, Success)
  }

  function DoProcessTx(d: Dll, bufferOk: bool, sendOk: bool): (Dll, DlStatus) {
    if !d.initialized || !d.running || d.tx.Freed? then (d, Error)
    else if Waiting(d.tx) == 0 then (d, Success)
    else
      var taken := d.(tx := d.tx.(queue := d.tx.queue[1..]));
      if bufferOk && sendOk then
        (taken.(statistics := d.statistics.(framesSent := d.statistics.framesSent + 1)), Success)
      else
        (taken.(statistics := d.statistics.(sendErrors := d.statistics.sendErrors + 1)), Error)
  }

  function Do(d: Dll, op: DllOp): (Dll, DlStatus) {
    match op
    case Init(config, txAllocated, rxAllocated, halOk) => DoInit(d, config, txAllocated, rxAllocated, halOk)
    case Shutdown => DoShutdown(d)
    case Start => DoStart(d)
    case Stop => DoStop(d)
    case Reset => DoReset(d)
    case Send(request) => DoSend(d, request)
    case ProcessTx(bufferOk, sendOk) => DoProcessTx(d, bufferOk, sendOk)
    case FlushTx => DoFlushTx(d)
    case FlushRx => DoFlushRx(d)
    case ResetStatistics => DoResetStatistics(d)
  }

  function RunFrom(d: Dll, ops: seq<DllOp>): Dll
    decreases |ops|
  {
    if ops == [] then d else RunFrom(Do(d, ops[0]).0, ops[1..])
  }

  /** The state after any sequence of API calls since power-on. */
  function After(ops: seq<DllOp>): Dll {
    RunFrom(POWER_ON, ops)
  }

  // ---------- The reachable states ----------

  ghost predicate Consistent(d: Dll) {
    && d.state == d.moduleState
    && (d.initialized <==> d.state != Uninitialized)
    && (d.running <==> d.state == Ready || d.state == Running)
    && (d.initialized ==> d.tx.Live? && d.rx.Live?)
    && (!d.initialized ==> !d.tx.Live?)
    && (d.tx.Live? ==> |d.tx.queue| <= d.tx.capacity)
    // frames wait only while running
    && (Waiting(d.tx) > 0 ==> d.state == Running)
  }

  /** Nothing is lost silently: every accepted frame was sent, failed, is waiting, or was flushed. */
  ghost predicate Conserved(d: Dll) {
    d.baseline + d.accepted == d.statistics.framesSent + d.statistics.sendErrors + Waiting(d.tx) + d.flushed
  }

  lemma StepKeepsConsistent(d: Dll, op: DllOp)
    requires Consistent(d) && Conserved(d)
    ensures Consistent(Do(d, op).0) && Conserved(Do(d, op).0)
  {
  }

  lemma {:induction false} RunKeepsConsistent(d: Dll, ops: seq<DllOp>)
    requires Consistent(d) && Conserved(d)
    ensures Consistent(RunFrom(d, ops)) && Conserved(RunFrom(d, ops))
    decreases |ops|
  {
    if ops != [] {
      StepKeepsConsistent(d, ops[0]);
      RunKeepsConsistent(Do(d, ops[0]).0, ops[1..]);
    }
  }

  lemma NeverFaultedStep(d: Dll, op: DllOp)
    requires Consistent(d) && d.state != Faulted
    ensures Do(d, op).0.state != Faulted
  {
  }

  lemma {:induction false} NeverFaulted(d: Dll, ops: seq<DllOp>)
    requires Consistent(d) && Conserved(d) && d.state != Faulted
    ensures RunFrom(d, ops).state != Faulted
    decreases |ops|
  {
    if ops != [] {
      StepKeepsConsistent(d, ops[0]);
      NeverFaultedStep(d, ops[0]);
      NeverFaulted(Do(d, ops[0]).0, ops[1..]);
    }
  }

  /** The two copies of the state agree, the flags mean what they say, and both queues exist, after any calls. */
  lemma ReachableStates(ops: seq<DllOp>)
    ensures var d := After(ops);
      && d.state == d.moduleState
      && (d.initialized <==> d.state != Uninitialized)
      && (d.running <==> d.state == Ready || d.state == Running)
      && (d.initialized ==> d.tx.Live? && d.rx.Live?)
  {
    RunKeepsConsistent(POWER_ON, ops);
  }

  /** Frame conservation since the last statistics reset, after any calls and any HAL outcomes. */
  lemma FramesConserved(ops: seq<DllOp>)
    ensures var d := After(ops);
      d.baseline + d.accepted == d.statistics.framesSent + d.statistics.sendErrors + Waiting(d.tx) + d.flushed
  {
    RunKeepsConsistent(POWER_ON, ops);
  }

  /** No call ever enters the error state, so dl_reset always refuses and changes nothing. */
  lemma ResetIsNeverPossible(ops: seq<DllOp>)
    ensures After(ops).state != Faulted
    ensures Do(After(ops), Reset) == (After(ops), Error)
  {
    NeverFaulted(POWER_ON, ops);
  }

  /** dl_stop leaves the started states if and only if no frame was ever accepted since dl_start. */
  lemma StopSucceedsIffReady(ops: seq<DllOp>)
    ensures Do(After(ops), Stop).1 == Success <==> After(ops).state == Ready
    ensures After(ops).state == Running ==>
      var (d, status) := Do(After(ops), Stop);
      status == Error && d.state == Running && d.running && Waiting(d.tx) == 0
      && d.flushed == After(ops).flushed + Waiting(After(ops).tx)
  {
    RunKeepsConsistent(POWER_ON, ops);
  }

  lemma RunningStep(d: Dll, op: DllOp)
    requires Consistent(d) && Conserved(d) && d.state == Running
    ensures Do(d, op).0.state == Running
  {
  }

  /** Once a frame has been accepted, no sequence of calls leaves RUNNING: stop, shutdown, reset and init all fail. */
  lemma {:induction false} RunningIsForever(d: Dll, ops: seq<DllOp>)
    requires Consistent(d) && Conserved(d) && d.state == Running
    ensures RunFrom(d, ops).state == Running
    decreases |ops|
  {
    if ops != [] {
      RunningStep(d, ops[0]);
      StepKeepsConsistent(d, ops[0]);
      RunningIsForever(Do(d, ops[0]).0, ops[1..]);
    }
  }

  lemma {:induction false} RunConcat(d: Dll, a: seq<DllOp>, b: seq<DllOp>)
    ensures RunFrom(d, a + b) == RunFrom(RunFrom(d, a), b)
    decreases |a|
  {
    if a == [] {
      assert a + b == b;
    } else {
      assert (a + b)[1..] == a[1..] + b;
      RunConcat(Do(d, a[0]).0, a[1..], b);
    }
  }

  /** The documentation promises RUNNING to READY on dl_stop; after an accepted frame the state is RUNNING for good. */
  lemma AcceptedFrameCommits(before: seq<DllOp>, request: SendRequest, later: seq<DllOp>)
    requires Do(After(before), Send(Some(request))).1 == Success
    ensures After(before + [Send(Some(request))] + later).state == Running
  {
    RunKeepsConsistent(POWER_ON, before);
    var d := Do(After(before), Send(Some(request))).0;
    StepKeepsConsistent(After(before), Send(Some(request)));
    RunConcat(POWER_ON, before, [Send(Some(request))]);
    RunConcat(POWER_ON, before + [Send(Some(request))], later);
    assert RunFrom(After(before), [Send(Some(request))]) == d;
    RunningIsForever(d, later);
  }

  /** The failing stop happens: power on, init, start, one frame, stop. */
  lemma StopAfterFrameFails(config: Config, request: SendRequest)
    requires config.Valid() && request.Valid()
    ensures var ready := [Init(Some(config), true, true, true), Start];
      && After(ready).state == Ready && Do(After(ready), Stop).1 == Success
      && Do(After(ready), Send(Some(request))).1 == Success
      && var d := After(ready + [Send(Some(request))]);
         && d.state == Running && Waiting(d.tx) == 1
         && var (stopped, status) := Do(d, Stop);
            status == Error && stopped.state == Running && Waiting(stopped.tx) == 0 && stopped.flushed == 1
  {
    var init, send := Init(Some(config), true, true, true), Send(Some(request));
    var d0 := Do(POWER_ON, init).0;
    var d1 := Do(d0, Start).0;
    assert [init, Start][1..] == [Start] && [Start][1..] == [];
    assert RunFrom(d0, [Start]) == RunFrom(d1, []);
    assert After([init, Start]) == d1;
    RunConcat(POWER_ON, [init, Start], [send]);
    assert [send][1..] == [];
    assert RunFrom(d1, [send]) == RunFrom(Do(d1, send).0, []);
    assert |Insert([], request.ToEntry())| == 1;
  }

  /** A queue is empty whenever dl_shutdown succeeds, so shutting down never drops a frame. */
  lemma ShutdownDropsNothing(ops: seq<DllOp>)
    requires Do(After(ops), Shutdown).1 == Success
    ensures Waiting(After(ops).tx) == 0 && Do(After(ops), Shutdown).0.state == Uninitialized
  {
    RunKeepsConsistent(POWER_ON, ops);
  }
}
