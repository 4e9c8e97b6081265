/** The module-level state of src/ic_bluetooth.c and what each operation that changes it
    does, as functions of the state before the call: ic_ble_module_init, ic_bluetooth_disable,
    ic_bluetooth_enable, on_ble_evt and on_conn_params_evt. The class in ble_module.dfy
    performs these steps in place; the lemmas here are about sequences of them. */
module Lifecycle {
  import opened BleTypes
  import opened EventPolicy
  import opened Dispatch

  /** m_module_initialized, m_ble_power_down, m_conn_handle, and whether m_ble_tast_handle
      holds a task. */
  datatype ModState = ModState(initialized: bool, powerDown: bool, connHandle: ConnHandle, taskCreated: bool)

  /** The state at reset. */
  const Boot: ModState := ModState(false, false, BLE_CONN_HANDLE_INVALID, false)

  /** The outcome of a public API call: the new state, the calls it made and how it ended. */
  datatype ApiStep = ApiStep(next: ModState, calls: seq<Action>, exit: Exit)

  /** The outcome of an event handler: the new state and the calls it made. */
  datatype EvtStep = EvtStep(next: ModState, calls: seq<Action>)

  /** ic_ble_module_init. `taskCreateOk` is whether xTaskCreate returns pdPASS. */
  function ModuleInit(s: ModState, taskCreateOk: bool): (r: ApiStep)
    // idempotent: once initialised, nothing is re-run and success is reported
    ensures s.initialized ==> r == ApiStep(s, [], Returned(IcSuccess))
    // otherwise the assets are initialised first
    ensures !s.initialized ==> |r.calls| >= 2 && r.calls[0] == InitAssets
    // a task is created only when none exists, and resumed only when one does
    ensures CreateBleTask in r.calls <==> !s.initialized && !s.taskCreated
    // the exact calls and state of each first-call branch
    ensures !s.initialized && !s.taskCreated ==>
      r.calls == [InitAssets, CreateBleTask] + (if taskCreateOk then [] else [Fault(NRF_ERROR_NO_MEM)])
    ensures !s.initialized && s.taskCreated ==> r.calls == [InitAssets, ResumeBleTask]
    ensures !s.initialized && (s.taskCreated || taskCreateOk) ==>
      r.next == s.(initialized := true, taskCreated := true)
    ensures ResumeBleTask in r.calls <==> !s.initialized && s.taskCreated
    // the call returns only with success, and then the module is initialised
    ensures r.exit != Returned(IcError) && r.exit != Returned(IcNotInitialized)
    ensures r.exit == Returned(IcSuccess) ==> r.next.initialized
    ensures !s.initialized && r.exit == Returned(IcSuccess) ==> r.next.taskCreated
    // a task that cannot be created ends in the fault handler with "no memory"
    ensures r.exit == NoReturn <==> !s.initialized && !s.taskCreated && !taskCreateOk
    ensures r.exit == NoReturn ==> Faulted(r.calls) && r.calls[|r.calls| - 1] == Fault(NRF_ERROR_NO_MEM)
    ensures WellEnded(r.calls) && (Halted(r.calls) <==> r.exit == NoReturn)
    // the power state and the link are not touched
    ensures r.next.powerDown == s.powerDown && r.next.connHandle == s.connHandle
  {
    if s.initialized then ApiStep(s, [], Returned(IcSuccess))
    else if !s.taskCreated then
      if taskCreateOk then
        ApiStep(s.(initialized := true, taskCreated := true), [InitAssets, CreateBleTask], Returned(IcSuccess))
      else
        ApiStep(s, [InitAssets, CreateBleTask, Fault(NRF_ERROR_NO_MEM)], NoReturn)
    else
      ApiStep(s.(initialized := true), [InitAssets, ResumeBleTask], Returned(IcSuccess))
  }

  /** ic_bluetooth_disable. `advStopResult` is what sd_ble_gap_adv_stop returns; the result
      of sd_ble_gap_disconnect is not looked at. */
  function Disable(s: ModState, advStopResult: ErrCode): (r: ApiStep)
    ensures !s.initialized ==> r == ApiStep(s, [], Returned(IcNotInitialized))
    ensures s.initialized ==> r.next.powerDown && r.next.connHandle == BLE_CONN_HANDLE_INVALID
    ensures s.initialized ==> r.next.initialized && r.next.taskCreated == s.taskCreated
    // a held link is ended as if its user had terminated it, and that always succeeds
    ensures s.initialized && s.connHandle != BLE_CONN_HANDLE_INVALID ==>
      r.calls == [GapDisconnect(s.connHandle, BLE_HCI_REMOTE_USER_TERMINATED_CONNECTION)]
      && r.exit == Returned(IcSuccess)
    // without a link, advertising is stopped and its failure is reported
    ensures s.initialized && s.connHandle == BLE_CONN_HANDLE_INVALID ==>
      r.calls == [GapAdvStop]
      && (r.exit == Returned(IcError) <==> advStopResult != NRF_SUCCESS)
      && (r.exit == Returned(IcSuccess) <==> advStopResult == NRF_SUCCESS)
    ensures WellEnded(r.calls) && !Halted(r.calls) && r.exit.Returned?
  {
    if !s.initialized then ApiStep(s, [], Returned(IcNotInitialized))
    else if s.connHandle != BLE_CONN_HANDLE_INVALID then
      ApiStep(s.(powerDown := true, connHandle := BLE_CONN_HANDLE_INVALID),
              [GapDisconnect(s.connHandle, BLE_HCI_REMOTE_USER_TERMINATED_CONNECTION)],
              Returned(IcSuccess))
    else
      ApiStep(s.(powerDown := true), [GapAdvStop],
              Returned(if advStopResult != NRF_SUCCESS then IcError else IcSuccess))
  }

  /** ic_bluetooth_enable. The results of pm_peers_delete and ble_advertising_start are not
      looked at. */
  function Enable(s: ModState): (r: ApiStep)
    ensures !s.initialized ==> r == ApiStep(s, [], Returned(IcNotInitialized))
    // the bonds are deleted before fast advertising starts, and success is reported
    ensures s.initialized ==>
      r.next == s.(powerDown := false) && r.calls == [PeersDelete, AdvertisingStartFast]
      && r.exit == Returned(IcSuccess)
    ensures WellEnded(r.calls) && !Halted(r.calls)
  {
    if !s.initialized then ApiStep(s, [], Returned(IcNotInitialized))
    else ApiStep(s.(powerDown := false), [PeersDelete, AdvertisingStartFast], Returned(IcSuccess))
  }

  /** The state change of on_ble_evt: a connection records its handle; nothing else,
      not even a disconnection, changes the state. */
  function RecordHandle(s: ModState, evt: BleEvt): (next: ModState)
    ensures evt.GapConnected? ==> next.connHandle == evt.connHandle
    ensures !evt.GapConnected? ==> next.connHandle == s.connHandle
    ensures next.initialized == s.initialized && next.powerDown == s.powerDown
    ensures next.taskCreated == s.taskCreated
  {
    if evt.GapConnected? then s.(connHandle := evt.connHandle) else s
  }

  /** on_ble_evt: the state change and the calls. */
  function OnBleEvt(s: ModState, evt: BleEvt, callResult: ErrCode): (r: EvtStep)
    ensures r.next == RecordHandle(s, evt)
    ensures r.calls == OnBleEvtCalls(evt, callResult)
    ensures WellEnded(r.calls) && (Halted(r.calls) <==> Faulted(r.calls))
  {
    EvtStep(RecordHandle(s, evt), OnBleEvtCalls(evt, callResult))
  }

  /** on_conn_params_evt: a failed negotiation disconnects the recorded link. */
  function OnConnParamsEvt(s: ModState, evt: ConnParamsEvt, callResult: ErrCode): (r: EvtStep)
    ensures r.next == s
    ensures evt.ConnParamsFailed? ==>
      |r.calls| > 0 && r.calls[0] == GapDisconnect(s.connHandle, BLE_HCI_CONN_INTERVAL_UNACCEPTABLE)
    ensures evt.ConnParamsFailed? ==>
      r.calls == [GapDisconnect(s.connHandle, BLE_HCI_CONN_INTERVAL_UNACCEPTABLE)] + ErrorCheck(callResult)
    ensures evt.ConnParamsFailed? ==> (Faulted(r.calls) <==> callResult != NRF_SUCCESS)
    ensures evt.ConnParamsSucceeded? ==> r.calls == []
    ensures r.calls == ConnParamsEvtCalls(evt, s.connHandle, callResult)
    ensures WellEnded(r.calls) && (Halted(r.calls) <==> Faulted(r.calls))
  {
    EvtStep(s, ConnParamsEvtCalls(evt, s.connHandle, callResult))
  }

  // ---------------------------------------------------------------------------------------
  // Sequences of operations
  // ---------------------------------------------------------------------------------------

  /** An operation on the controller, with the SDK results it meets. */
  datatype Op =
    | InitOp(taskCreateOk: bool)
    | DisableOp(advStopResult: ErrCode)
    | EnableOp
    | BleEvtOp(evt: BleEvt, callResult: ErrCode)
    | ConnParamsEvtOp(cpEvt: ConnParamsEvt, callResult: ErrCode)

  /** The outcome of one operation or of a sequence of them. */
  datatype Outcome = Outcome(next: ModState, calls: seq<Action>)

  function Apply(s: ModState, op: Op): (o: Outcome)
    ensures WellEnded(o.calls)
  {
    match op
    case InitOp(ok) => var r := ModuleInit(s, ok); Outcome(r.next, r.calls)
    case DisableOp(res) => var r := Disable(s, res); Outcome(r.next, r.calls)
    case EnableOp => var r := Enable(s); Outcome(r.next, r.calls)
    case BleEvtOp(evt, res) => var r := OnBleEvt(s, evt, res); Outcome(r.next, r.calls)
    case ConnParamsEvtOp(evt, res) => var r := OnConnParamsEvt(s, evt, res); Outcome(r.next, r.calls)
  }

  /** Operations performed one after the other until one halts the device. */
  function Run(s: ModState, ops: seq<Op>): Outcome
    decreases |ops|
  {
    if ops == [] then Outcome(s, [])
    else
      var o := Apply(s, ops[0]);
      if Halted(o.calls) then o
      else
        var rest := Run(o.next, ops[1..]);
        Outcome(rest.next, o.calls + rest.calls)
  }

  /** A task exists exactly when the module is initialised. */
  predicate Consistent(s: ModState) {
    s.taskCreated == s.initialized
  }

  /** From a consistent state (the boot state is one) the state stays consistent, the
      recorded calls are well ended, and the resume branch of ic_ble_module_init is never
      taken: nothing clears m_module_initialized, so a task handle never outlives it. */
  lemma {:induction false} RunKeepsConsistent(s: ModState, ops: seq<Op>)
    requires Consistent(s)
    ensures Consistent(Run(s, ops).next)
    ensures WellEnded(Run(s, ops).calls)
    ensures ResumeBleTask !in Run(s, ops).calls
    decreases |ops|
  {
    if ops != [] {
      var o := Apply(s, ops[0]);
      assert Consistent(o.next) && ResumeBleTask !in o.calls;
      if !Halted(o.calls) {
        RunKeepsConsistent(o.next, ops[1..]);
        WellEndedAppend(o.calls, Run(o.next, ops[1..]).calls);
      }
    }
  }

  /** Power-down is latched: once set, only ic_bluetooth_enable clears it. */
  lemma {:induction false} PowerDownLatched(s: ModState, ops: seq<Op>)
    requires s.powerDown
    requires forall i :: 0 <= i < |ops| ==> !ops[i].EnableOp?
    ensures Run(s, ops).next.powerDown
    decreases |ops|
  {
    if ops != [] {
      var o := Apply(s, ops[0]);
      if !Halted(o.calls) {
        PowerDownLatched(o.next, ops[1..]);
      }
    }
  }

  /** After ic_bluetooth_disable, and until ic_bluetooth_enable, ble_evt_dispatch hands no
      event to the advertising module. */
  lemma DisableCutsAdvertising(s: ModState, advStopResult: ErrCode, ops: seq<Op>)
    requires s.initialized
    requires forall i :: 0 <= i < |ops| ==> !ops[i].EnableOp?
    ensures AdvertisingHandler !in BleEvtDispatchOrder(Run(Disable(s, advStopResult).next, ops).next.powerDown)
  {
    PowerDownLatched(Disable(s, advStopResult).next, ops);
    BleEvtDispatchOrderReceivers(Run(Disable(s, advStopResult).next, ops).next.powerDown);
  }

  /** The link handle the module holds is the one it started with, the invalid handle, or
      the handle of a connection event it received. */
  lemma {:induction false} HandleComesFromConnection(s: ModState, ops: seq<Op>)
    ensures var h := Run(s, ops).next.connHandle;
      h == s.connHandle || h == BLE_CONN_HANDLE_INVALID
      || exists i :: 0 <= i < |ops| && ops[i].BleEvtOp? && ops[i].evt == GapConnected(h)
    decreases |ops|
  {
    if ops != [] {
      var o := Apply(s, ops[0]);
      if !Halted(o.calls) {
        HandleComesFromConnection(o.next, ops[1..]);
        var h := Run(s, ops).next.connHandle;
        if exists i :: 0 <= i < |ops| - 1 && ops[1..][i].BleEvtOp? && ops[1..][i].evt == GapConnected(h) {
          var i :| 0 <= i < |ops| - 1 && ops[1..][i].BleEvtOp? && ops[1..][i].evt == GapConnected(h);
          assert ops[i + 1] == ops[1..][i];
        } else if h == o.next.connHandle && h != s.connHandle && h != BLE_CONN_HANDLE_INVALID {
          assert ops[0].BleEvtOp? && ops[0].evt == GapConnected(h);
        }
      }
    }
  }

  // ---------------------------------------------------------------------------------------
  // The link handle across connection and disconnection events
  // ---------------------------------------------------------------------------------------

  /** The state after a series of BLE events, as on_ble_evt records it. */
  function TrackLinks(s: ModState, evts: seq<BleEvt>): ModState
    decreases |evts|
  {
    if evts == [] then s else TrackLinks(RecordHandle(s, evts[0]), evts[1..])
  }

  /** The handle of the last connection event in a series, if there is one. */
  function LastConnected(evts: seq<BleEvt>): Option<ConnHandle>
    decreases |evts|
  {
    if evts == [] then None
    else if evts[|evts| - 1].GapConnected? then Some(evts[|evts| - 1].connHandle)
    else LastConnected(evts[..|evts| - 1])
  }

  /** As written, the handle is that of the last connection, whether or not the link has
      since been closed. */
  lemma {:induction false} TrackLinksKeepsLastConnection(s: ModState, evts: seq<BleEvt>)
    ensures TrackLinks(s, evts).connHandle ==
      match LastConnected(evts) case Some(h) => h case None => s.connHandle
    ensures TrackLinks(s, evts) == s.(connHandle := TrackLinks(s, evts).connHandle)
    decreases |evts|
  {
    if evts != [] {
      var n := |evts| - 1;
      TrackLinksSnoc(s, evts[..n], evts[n]);
      assert evts[..n] + [evts[n]] == evts;
      TrackLinksKeepsLastConnection(s, evts[..n]);
    }
  }

  /** Handling one more event at the end of a series. */
  lemma {:induction false} TrackLinksSnoc(s: ModState, evts: seq<BleEvt>, evt: BleEvt)
    ensures TrackLinks(s, evts + [evt]) == RecordHandle(TrackLinks(s, evts), evt)
    decreases |evts|
  {
    if evts != [] {
      assert (evts + [evt])[1..] == evts[1..] + [evt];
      TrackLinksSnoc(RecordHandle(s, evts[0]), evts[1..], evt);
    }
  }

  /** The step on_ble_evt evidently intends: a disconnection forgets the handle, as the
      handle's own comment ("handle of the current connection") says. */
  function RecordHandleIntended(s: ModState, evt: BleEvt): (next: ModState)
    ensures evt.GapConnected? ==> next.connHandle == evt.connHandle
    ensures evt.GapDisconnected? ==> next.connHandle == BLE_CONN_HANDLE_INVALID
    ensures !evt.GapConnected? && !evt.GapDisconnected? ==> next == RecordHandle(s, evt)
    ensures next.initialized == s.initialized && next.powerDown == s.powerDown
    ensures next.taskCreated == s.taskCreated
  {
    match evt
    case GapConnected(h) => s.(connHandle := h)
    case GapDisconnected(_) => s.(connHandle := BLE_CONN_HANDLE_INVALID)
    case _ => s
  }

  function TrackLinksIntended(s: ModState, evts: seq<BleEvt>): ModState
    decreases |evts|
  {
    if evts == [] then s else TrackLinksIntended(RecordHandleIntended(s, evts[0]), evts[1..])
  }

  /** The last connection or disconnection event of a series, if there is one. */
  function LastLinkEvent(evts: seq<BleEvt>): Option<BleEvt>
    decreases |evts|
  {
    if evts == [] then None
    else if evts[|evts| - 1].GapConnected? || evts[|evts| - 1].GapDisconnected? then Some(evts[|evts| - 1])
    else LastLinkEvent(evts[..|evts| - 1])
  }

  lemma {:induction false} TrackLinksIntendedSnoc(s: ModState, evts: seq<BleEvt>, evt: BleEvt)
    ensures TrackLinksIntended(s, evts + [evt]) == RecordHandleIntended(TrackLinksIntended(s, evts), evt)
    decreases |evts|
  {
    if evts != [] {
      assert (evts + [evt])[1..] == evts[1..] + [evt];
      TrackLinksIntendedSnoc(RecordHandleIntended(s, evts[0]), evts[1..], evt);
    }
  }

  /** With the intended step, a handle is held exactly while the last link event is a
      connection, and it is that connection's handle. */
  lemma {:induction false} TrackLinksIntendedFollowsLink(s: ModState, evts: seq<BleEvt>)
    ensures TrackLinksIntended(s, evts).connHandle ==
      match LastLinkEvent(evts)
      case None => s.connHandle
      case Some(e) => if e.GapConnected? then e.connHandle else BLE_CONN_HANDLE_INVALID
    ensures TrackLinksIntended(s, evts) == s.(connHandle := TrackLinksIntended(s, evts).connHandle)
    decreases |evts|
  {
    if evts != [] {
      var n := |evts| - 1;
      TrackLinksIntendedSnoc(s, evts[..n], evts[n]);
      assert evts[..n] + [evts[n]] == evts;
      TrackLinksIntendedFollowsLink(s, evts[..n]);
    }
  }

  /** As written: after a link is opened and then closed by the peer, ic_bluetooth_disable
      disconnects the stale handle and never stops advertising. */
  lemma StaleHandleAfterPeerDisconnect(s: ModState, h: ConnHandle, advStopResult: ErrCode)
    requires s.initialized && h != BLE_CONN_HANDLE_INVALID
    ensures var after := TrackLinks(s, [GapConnected(h), GapDisconnected(h)]);
      after.connHandle == h
      && Disable(after, advStopResult).calls == [GapDisconnect(h, BLE_HCI_REMOTE_USER_TERMINATED_CONNECTION)]
      && GapAdvStop !in Disable(after, advStopResult).calls
  {
    TrackLinksKeepsLastConnection(s, [GapConnected(h), GapDisconnected(h)]);
    assert [GapConnected(h), GapDisconnected(h)][..1] == [GapConnected(h)];
    assert [GapConnected(h)][..0] == [];
  }

  /** With the intended step: whenever the last link event is a disconnection,
      ic_bluetooth_disable stops advertising and asks for no disconnection. */
  lemma DisableAfterDisconnectIntended(s: ModState, evts: seq<BleEvt>, advStopResult: ErrCode)
    requires s.initialized
    requires LastLinkEvent(evts).Some? && LastLinkEvent(evts).value.GapDisconnected?
    ensures Disable(TrackLinksIntended(s, evts), advStopResult).calls == [GapAdvStop]
  {
    TrackLinksIntendedFollowsLink(s, evts);
  }
}
