/**
 The data link layer context as the C code keeps it: one mutable object with its state flags, its two ring
 buffers and its counters. Every API method takes the step that DllSpec.Do describes.
 */
module Dll {
  import opened Wrappers
  import opened Frame
  import opened QueueSpec
  import opened DlQueue
  import Spec = DllSpec

  datatype Pointer = NullPointer | Dangling | Usable

  function HandleOf(p: Pointer, capacity: nat, contents: seq<Entry>): Spec.Handle {
    match p
    case NullPointer => Spec.Null
    case Dangling => Spec.Freed
    case Usable => Spec.Live(capacity, contents)
  }

  class DataLink {
    var state: Spec.DlState
    /** current_state of src/dll/dll_state.c */
    var moduleState: Spec.DlState
    var initialized: bool
    var running: bool
    /** The queue objects, and whether the C pointers are null, dangling, or refer to them. */
    var txQueue: Queue
    var rxQueue: Queue
    var txPointer: Pointer
    var rxPointer: Pointer
    var statistics: Spec.Statistics
    ghost var accepted: nat
    ghost var flushed: nat
    ghost var baseline: nat

    ghost predicate QueuesOk()
      reads this, txQueue, txQueue.entries, rxQueue, rxQueue.entries
    {
      && txQueue != rxQueue && txQueue.entries != rxQueue.entries
      && txQueue.Valid() && txQueue.enablePriority
      && rxQueue.Valid() && !rxQueue.enablePriority
    }

    ghost predicate Valid()
      reads this, txQueue, txQueue.entries, rxQueue, rxQueue.entries
    {
      && QueuesOk()
      && Spec.Consistent(View()) && Spec.Conserved(View())
    }

    ghost function View(): Spec.Dll
      requires txQueue.Shaped() && rxQueue.Shaped()
      reads this, txQueue, txQueue.entries, rxQueue, rxQueue.entries
    {
      Spec.Dll(state, moduleState, initialized, running,
               HandleOf(txPointer, txQueue.capacity, txQueue.Contents()),
               HandleOf(rxPointer, rxQueue.capacity, rxQueue.Contents()), statistics, accepted, flushed, baseline)
    }

    constructor ()
      ensures Valid() && View() == Spec.POWER_ON
      ensures fresh(txQueue) && fresh(txQueue.entries) && fresh(rxQueue) && fresh(rxQueue.entries)
    {
      txQueue := new Queue(1, true);
      rxQueue := new Queue(1, false);
      state, moduleState, initialized, running := Spec.Uninitialized, Spec.Uninitialized, false, false;
      txPointer, rxPointer := NullPointer, NullPointer;
      statistics, accepted, flushed, baseline := Spec.NO_STATISTICS, 0, 0, 0;
    }

    /** dl_state_set */
    method StateSet(to: Spec.DlState) returns (ok: bool)
      modifies this`moduleState
      ensures ok == Spec.TransitionValid(old(moduleState), to)
      ensures moduleState == if ok then to else old(moduleState)
    {
      ok := Spec.TransitionValid(moduleState, to);
      if ok {
        moduleState := to;
      }
    }

    /** dl_state_set and the copy of its result, for a transition whose status the caller ignores. */
    method SetState(to: Spec.DlState)
      requires txQueue.Shaped() && rxQueue.Shaped()
      modifies this`state, this`moduleState
      ensures View() == old(View()).(moduleState := moduleState, state := moduleState)
      ensures moduleState == if Spec.TransitionValid(old(moduleState), to) then to else old(moduleState)
    {
      hide Queue.Contents;
      var ok := StateSet(to);
      state := moduleState;
    }

    /** dl_flush_tx_queue */
    method FlushTxQueue() returns (status: DlStatus)
      requires Valid()
      modifies this`flushed, txQueue, txQueue.entries
      ensures Valid() && (View(), status) == Spec.DoFlushTx(old(View()))
    {
      hide Queue.Contents, Queue.Valid, Invariant, Step, Insert, Spec.Consistent, Spec.Conserved;
      Spec.StepKeepsConsistent(View(), Spec.FlushTx);
      if !initialized {
        return Error;
      }
      flushed := flushed + |txQueue.Contents()|;
      txQueue.FlushEntries();
      status := Success;
    }

    /** dl_flush_rx_queue */
    method FlushRxQueue() returns (status: DlStatus)
      requires Valid()
      modifies rxQueue, rxQueue.entries
      ensures Valid() && (View(), status) == Spec.DoFlushRx(old(View()))
    {
      hide Queue.Contents, Queue.Valid, Invariant, Step, Insert, Spec.Consistent, Spec.Conserved;
      Spec.StepKeepsConsistent(View(), Spec.FlushRx);
      if !initialized {
        return Error;
      }
      rxQueue.FlushEntries();
      status := Success;
    }

    /** dl_reset_statistics */
    method ResetStatistics() returns (status: DlStatus)
      requires Valid()
      modifies this`statistics, this`accepted, this`flushed, this`baseline
      ensures Valid() && (View(), status) == Spec.DoResetStatistics(old(View()))
    {
      hide Queue.Contents, Queue.Valid, Invariant, Step, Insert, Spec.Consistent, Spec.Conserved;
      Spec.StepKeepsConsistent(View(), Spec.ResetStatistics);
      if !initialized {
        return Error;
      }
      statistics := Spec.NO_STATISTICS;
      accepted, flushed, baseline := 0, 0, |txQueue.Contents()|;
      status := Success;
    }

    /** The end of dl_stop and dl_reset. */
    method EnterInitialized() returns (status: DlStatus)
      requires txQueue.Shaped() && rxQueue.Shaped()
      modifies this`state, this`moduleState, this`running
      ensures txQueue.Shaped() && rxQueue.Shaped()
      ensures (View(), status) == Spec.EnterInitialized(old(View()))
    {
      var ok := StateSet(Spec.Initialized);
      if !ok {
        return Error;
      }
      state := moduleState;
      running := false;
      status := Success;
    }

    /** dl_start */
    method Start() returns (status: DlStatus)
      requires Valid()
      modifies this`state, this`moduleState, this`running
      ensures Valid() && (View(), status) == Spec.DoStart(old(View()))
    {
      hide Queue.Contents, Queue.Valid, Invariant, Step, Insert, Spec.Consistent, Spec.Conserved;
      Spec.StepKeepsConsistent(View(), Spec.Start);
      if !initialized || state != Spec.Initialized {
        return Error;
      }
      var ok := StateSet(Spec.Ready);
      if !ok {
        return Error;
      }
      state := moduleState;
      running := true;
      status := Success;
    }

    /** dl_stop: the queues are flushed before the transition is attempted. */
    method Stop() returns (status: DlStatus)
      requires Valid()
      modifies this`state, this`moduleState, this`running, this`flushed, txQueue, txQueue.entries, rxQueue, rxQueue.entries
      ensures Valid() && (View(), status) == Spec.DoStop(old(View()))
    {
      hide Queue.Contents, Queue.Valid, Invariant, Step, Insert, Spec.Consistent, Spec.Conserved, Spec.EnterInitialized;
      hide Spec.DoFlushTx, Spec.DoFlushRx, Spec.DoResetStatistics;
      Spec.StepKeepsConsistent(View(), Spec.Stop);
      if !initialized || (state != Spec.Ready && state != Spec.Running) {
        return Error;
      }
      var txStatus := FlushTxQueue();
      var rxStatus := FlushRxQueue();
      status := EnterInitialized();
    }

    /** dl_reset */
    method Reset() returns (status: DlStatus)
      requires Valid()
      modifies this, txQueue, txQueue.entries, rxQueue, rxQueue.entries
      ensures Valid() && (View(), status) == Spec.DoReset(old(View()))
    {
      hide Queue.Contents, Queue.Valid, Invariant, Step, Insert, Spec.Consistent, Spec.Conserved, Spec.EnterInitialized;
      hide Spec.DoFlushTx, Spec.DoFlushRx, Spec.DoResetStatistics;
      Spec.StepKeepsConsistent(View(), Spec.Reset);
      if !initialized || state != Spec.Faulted {
        return Error;
      }
      var txStatus := FlushTxQueue();
      var rxStatus := FlushRxQueue();
      var resetStatus := ResetStatistics();
      status := EnterInitialized();
    }

    /** memset of the context, and dl_state_init */
    method Clear()
      requires QueuesOk()
      modifies this
      ensures txQueue == old(txQueue) && rxQueue == old(rxQueue)
      ensures QueuesOk() && View() == Spec.POWER_ON
    {
      hide Queue.Contents, Queue.Valid, Queue.Shaped, Invariant;
      state, moduleState, initialized, running := Spec.Uninitialized, Spec.Uninitialized, false, false;
      txPointer, rxPointer := NullPointer, NullPointer;
      statistics, accepted, flushed, baseline := Spec.NO_STATISTICS, 0, 0, 0;
    }

    /** Lines 60-97 of dl_init. */
    method Create(config: Spec.Config, txAllocated: bool, rxAllocated: bool, halOk: bool) returns (ok: bool)
      requires QueuesOk() && config.Valid() && View() == Spec.POWER_ON
      modifies this`txQueue, this`rxQueue, this`txPointer, this`rxPointer, this`initialized
      ensures QueuesOk() && (View(), ok) == Spec.Create(Spec.POWER_ON, config, txAllocated, rxAllocated, halOk)
      ensures txQueue == old(txQueue) || (fresh(txQueue) && fresh(txQueue.entries))
      ensures rxQueue == old(rxQueue) || (fresh(rxQueue) && fresh(rxQueue.entries))
    {
      hide Queue.Contents, Queue.Valid, Invariant;
      if !txAllocated {
        return false;
      }
      if !rxAllocated {
        txPointer := Dangling;
        return false;
      }
      if !halOk {
        txPointer, rxPointer := Dangling, Dangling;
        return false;
      }
      txQueue := new Queue(config.txQueueSize, true);
      rxQueue := new Queue(config.rxQueueSize, false);
      txPointer, rxPointer := Usable, Usable;
      initialized := true;
      assert txQueue.Contents() == [] && rxQueue.Contents() == [];
      ok := true;
    }

    /** dl_init; the last three arguments are what malloc and hal_init answer. */
    method Init(config: Option<Spec.Config>, txAllocated: bool, rxAllocated: bool, halOk: bool) returns (status: DlStatus)
      requires Valid()
      modifies this
      ensures Valid() && (View(), status) == Spec.DoInit(old(View()), config, txAllocated, rxAllocated, halOk)
      ensures txQueue == old(txQueue) || (fresh(txQueue) && fresh(txQueue.entries))
      ensures rxQueue == old(rxQueue) || (fresh(rxQueue) && fresh(rxQueue.entries))
    {
      hide Queue.Contents, Queue.Valid, Invariant, Step, Insert, Spec.Consistent, Spec.Conserved, Spec.Create, HandleOf;
      Spec.StepKeepsConsistent(View(), Spec.Init(config, txAllocated, rxAllocated, halOk));
      if initialized {
        return Error;
      }
      if config.None? || !config.value.Valid() {
        return InvalidParam;
      }
      Clear();
      var created := Create(config.value, txAllocated, rxAllocated, halOk);
      if !created {
        return Error;
      }
      // the transition from UNINITIALIZED is always allowed
      SetState(Spec.Initialized);
      status := Success;
    }

    /** dl_shutdown */
    method Shutdown() returns (status: DlStatus)
      requires Valid()
      modifies this, txQueue, txQueue.entries, rxQueue, rxQueue.entries
      ensures Valid() && (View(), status) == Spec.DoShutdown(old(View()))
    {
      hide Queue.Contents, Queue.Valid, Invariant, Step, Insert, Spec.Consistent, Spec.Conserved, Spec.DoStop;
      Spec.StepKeepsConsistent(View(), Spec.Shutdown);
      if !initialized || (state != Spec.Initialized && state != Spec.Ready) {
        return Error;
      }
      if running {
        var stopStatus := Stop();
      }
      DestroyQueues();
      SetState(Spec.Uninitialized);
      initialized := false;
      status := Success;
    }

    /** dl_queue_destroy for both queues, and their pointers cleared */
    method DestroyQueues()
      requires txQueue.Shaped() && rxQueue.Shaped()
      modifies this`txPointer, this`rxPointer
      ensures View() == old(View()).(tx := Spec.Null, rx := Spec.Null)
    {
      hide Queue.Contents;
      txPointer, rxPointer := NullPointer, NullPointer;
    }

    /** dl_send_req */
    method Send(request: Option<Spec.SendRequest>) returns (status: DlStatus)
      requires Valid()
      modifies this, txQueue, txQueue.entries, rxQueue, rxQueue.entries
      ensures Valid() && (View(), status) == Spec.DoSend(old(View()), request)
    {
      hide Queue.Contents, Queue.Valid, Invariant, Step, Insert, Spec.Consistent, Spec.Conserved;
      Spec.StepKeepsConsistent(View(), Spec.Send(request));
      if request.None? || !request.value.Valid() {
        return InvalidParam;
      }
      if !initialized || (state != Spec.Ready && state != Spec.Running) {
        return Error;
      }
      if txQueue.count >= txQueue.capacity {
        statistics := statistics.(txOverflows := statistics.txOverflows + 1);
        return Error;
      }
      ghost var before := View();
      var queued := txQueue.EnqueueEntry(request.value.ToEntry());
      accepted := accepted + 1;
      assert View() == before.(tx := before.tx.(queue := Insert(before.tx.queue, request.value.ToEntry())),
                               accepted := before.accepted + 1);
      if state == Spec.Ready {
        SetState(Spec.Running);
      }
      status := Success;
    }

    /** dll_process_tx_queue; the arguments are what the HAL answers. The frame handed to it is the queue's first. */
    method ProcessTxQueue(bufferOk: bool, sendOk: bool) returns (status: DlStatus, handed: Option<Entry>)
      requires Valid()
      modifies this`statistics, txQueue, txQueue.entries, rxQueue, rxQueue.entries
      ensures Valid() && (View(), status) == Spec.DoProcessTx(old(View()), bufferOk, sendOk)
      ensures handed.Some? ==> old(View()).tx.Live? && old(View()).tx.queue == [handed.value] + View().tx.queue
      ensures handed.None? ==> View().tx == old(View()).tx
    {
      hide Queue.Contents, Queue.Valid, Invariant, Step, Insert, Spec.Consistent, Spec.Conserved;
      Spec.StepKeepsConsistent(View(), Spec.ProcessTx(bufferOk, sendOk));
      if !initialized || !running {
        return Error, None;
      }
      if txQueue.count == 0 {
        return Success, None;
      }
      var taken, e := txQueue.DequeueEntry();
      if !bufferOk || !sendOk {
        statistics := statistics.(sendErrors := statistics.sendErrors + 1);
        return Error, e;
      }
      statistics := statistics.(framesSent := statistics.framesSent + 1);
      return Success, e;
    }
  }
}
