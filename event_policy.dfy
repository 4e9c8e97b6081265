/** The stateless event-policy decisions of src/ic_bluetooth.c: the Peer Manager bonding and
    security policy (pm_evt_handler), the calls on_ble_evt makes (GATT timeouts, user memory
    requests, the RW-authorize reply), on_conn_params_evt and on_adv_evt. Each is a function
    from the event and the result of the one checked SDK call the handler may make to the list
    of calls it performs. */
module EventPolicy {
  import opened BleTypes

  // ---------------------------------------------------------------------------------------
  // Peer Manager policy (pm_evt_handler)
  // ---------------------------------------------------------------------------------------

  /** The fds_gc results that the policy leaves to be retried on the next STORAGE_FULL. */
  predicate GcRetryable(err: ErrCode) {
    err == FDS_ERR_BUSY || err == FDS_ERR_NO_SPACE_IN_QUEUES
  }

  /** The Peer Manager events that report an error and so carry an error code. */
  predicate CarriesError(evt: PmEvt) {
    evt.PeerDataUpdateFailed? || evt.PeerDeleteFailed? || evt.PeersDeleteFailed? || evt.ErrorUnexpected?
  }

  /** When the Peer Manager policy gives up and sends the device to the fault handler:
      garbage collection failed for a reason other than a busy flash or full queues,
      advertising could not be restarted after the bonds were deleted, or an error event
      carried a non-success code. */
  predicate PmFatal(evt: PmEvt, callResult: ErrCode) {
    (evt.StorageFull? && callResult != NRF_SUCCESS && !GcRetryable(callResult))
    || (evt.PeersDeleteSucceeded? && callResult != NRF_SUCCESS)
    || (CarriesError(evt) && evt.error != NRF_SUCCESS)
  }

  /** pm_evt_handler. `callResult` is what fds_gc returns for STORAGE_FULL and what
      ble_advertising_start returns for PEERS_DELETE_SUCCEEDED. */
  function PmEvtHandler(evt: PmEvt, callResult: ErrCode): (calls: seq<Action>)
    ensures WellEnded(calls) && (Halted(calls) <==> Faulted(calls))
    ensures Faulted(calls) <==> PmFatal(evt, callResult)
    // re-pairing is never allowed, and the answer goes to the requesting link
    ensures forall a :: a in calls && a.ConnSecConfigReply? ==> !a.allowRepairing
    ensures evt.ConnSecConfigReq? ==> calls == [ConnSecConfigReply(evt.connHandle, false)]
    // which event leads to which SDK call
    ensures FdsGc in calls <==> evt.StorageFull?
    ensures evt.StorageFull? ==> calls[0] == FdsGc
    // the exact calls of each event that makes one, and the code a fault carries
    ensures evt.StorageFull? ==>
      calls == [FdsGc] + (if PmFatal(evt, callResult) then [Fault(callResult)] else [])
    ensures evt.PeersDeleteSucceeded? ==> calls == [AdvertisingStartFast] + ErrorCheck(callResult)
    ensures evt.LocalDbCacheApplyFailed? ==> calls == [LocalDatabaseHasChanged]
    ensures CarriesError(evt) ==> calls == ErrorCheck(evt.error)
    ensures AdvertisingStartFast in calls <==> evt.PeersDeleteSucceeded?
    ensures LocalDatabaseHasChanged in calls <==> evt.LocalDbCacheApplyFailed?
    ensures (exists h :: ConnSecConfigReply(h, false) in calls) <==> evt.ConnSecConfigReq?
    // events that are only logged, or not handled at all
    ensures (!evt.ConnSecConfigReq? && !evt.StorageFull? && !evt.PeersDeleteSucceeded?
             && !evt.LocalDbCacheApplyFailed? && !CarriesError(evt)) ==> calls == []
  {
    match evt
    case ConnSecConfigReq(h) => [ConnSecConfigReply(h, false)]
    case StorageFull =>
      if GcRetryable(callResult) then [FdsGc] else [FdsGc] + ErrorCheck(callResult)
    case PeersDeleteSucceeded => [AdvertisingStartFast] + ErrorCheck(callResult)
    case LocalDbCacheApplyFailed => [LocalDatabaseHasChanged]
    case PeerDataUpdateFailed(e) => ErrorCheck(e)
    case PeerDeleteFailed(e) => ErrorCheck(e)
    case PeersDeleteFailed(e) => ErrorCheck(e)
    case ErrorUnexpected(e) => ErrorCheck(e)
    case _ => []
  }

  /** A run of Peer Manager events, each handled with the matching call result, until the
      first fault, after which nothing runs. */
  function PmRun(evts: seq<PmEvt>, results: seq<ErrCode>): seq<Action>
    requires |evts| == |results|
  {
    if evts == [] then []
    else
      var calls := PmEvtHandler(evts[0], results[0]);
      if Faulted(calls) then calls else calls + PmRun(evts[1..], results[1..])
  }

  /** A full bond store is retried on every recurrence: as long as each garbage collection
      reports success, a busy flash or full queues, every STORAGE_FULL event runs garbage
      collection once more and the device never faults. */
  lemma {:induction false} StorageFullRetriedOnRecurrence(results: seq<ErrCode>)
    requires forall i :: 0 <= i < |results| ==> results[i] == NRF_SUCCESS || GcRetryable(results[i])
    ensures PmRun(seq(|results|, _ => StorageFull), results) == seq(|results|, _ => FdsGc)
  {
    if results != [] {
      var evts := seq(|results|, _ => StorageFull);
      assert evts[1..] == seq(|results| - 1, _ => StorageFull);
      StorageFullRetriedOnRecurrence(results[1..]);
      assert PmEvtHandler(StorageFull, results[0]) == [FdsGc];
      assert seq(|results|, _ => FdsGc) == [FdsGc] + seq(|results| - 1, _ => FdsGc);
    }
  }

  /** A run faults exactly when one of its events is fatal. */
  lemma {:induction false} PmRunFaultsOnFirstFatal(evts: seq<PmEvt>, results: seq<ErrCode>)
    requires |evts| == |results|
    ensures Faulted(PmRun(evts, results)) <==> exists i :: 0 <= i < |evts| && PmFatal(evts[i], results[i])
  {
    if evts != [] {
      var calls := PmEvtHandler(evts[0], results[0]);
      if !Faulted(calls) {
        PmRunFaultsOnFirstFatal(evts[1..], results[1..]);
        var rest := PmRun(evts[1..], results[1..]);
        FaultedAppend(calls, rest);
        if exists i :: 0 <= i < |evts| && PmFatal(evts[i], results[i]) {
          var i :| 0 <= i < |evts| && PmFatal(evts[i], results[i]);
          assert i > 0 && PmFatal(evts[1..][i - 1], results[1..][i - 1]);
        }
        if exists i :: 0 <= i < |evts| - 1 && PmFatal(evts[1..][i], results[1..][i]) {
          var i :| 0 <= i < |evts| - 1 && PmFatal(evts[1..][i], results[1..][i]);
          assert PmFatal(evts[i + 1], results[i + 1]);
        }
      }
    }
  }

  /** A run's calls are well ended: nothing follows a fault. */
  lemma {:induction false} PmRunWellEnded(evts: seq<PmEvt>, results: seq<ErrCode>)
    requires |evts| == |results|
    ensures WellEnded(PmRun(evts, results))
  {
    if evts != [] {
      var calls := PmEvtHandler(evts[0], results[0]);
      if !Faulted(calls) {
        PmRunWellEnded(evts[1..], results[1..]);
        assert !Halted(calls);
        WellEndedAppend(calls, PmRun(evts[1..], results[1..]));
      }
    }
  }

  // ---------------------------------------------------------------------------------------
  // BLE_GATTS_EVT_RW_AUTHORIZE_REQUEST
  // ---------------------------------------------------------------------------------------

  /** The queued-write operations the controller answers. */
  predicate QueuedWriteOp(op: Byte) {
    op == BLE_GATTS_OP_PREP_WRITE_REQ || op == BLE_GATTS_OP_EXEC_WRITE_REQ_NOW
    || op == BLE_GATTS_OP_EXEC_WRITE_REQ_CANCEL
  }

  /** The reply on_ble_evt sends to an RW-authorize request, if any: queued writes are
      refused as unsupported, with a reply of the request's own kind. */
  function RwAuthorizeReply(req: AuthorizeRequest): (r: Option<AuthorizeReply>)
    ensures r.Some? <==> req.reqType != AuthorizeInvalid && QueuedWriteOp(req.writeOp)
    ensures r.Some? ==> r.value.replyType == req.reqType
    ensures r.Some? ==> r.value.gattStatus == APP_FEATURE_NOT_SUPPORTED
  {
    if req.reqType != AuthorizeInvalid && QueuedWriteOp(req.writeOp) then
      Some(AuthorizeReply(if req.reqType == AuthorizeWrite then AuthorizeWrite else AuthorizeRead,
                          APP_FEATURE_NOT_SUPPORTED))
    else None
  }

  // ---------------------------------------------------------------------------------------
  // on_ble_evt (the calls; the handle it records belongs to the lifecycle state)
  // ---------------------------------------------------------------------------------------

  /** The SDK calls on_ble_evt makes. `callResult` is the result of that call, checked by
      APP_ERROR_CHECK. */
  function OnBleEvtCalls(evt: BleEvt, callResult: ErrCode): (calls: seq<Action>)
    ensures WellEnded(calls) && !(exists i :: 0 <= i < |calls| && calls[i].SystemOff?)
    // a timeout disconnects the event's own link, as if its user had ended it
    ensures evt.GattcTimeout? || evt.GattsTimeout? ==>
      calls == [GapDisconnect(evt.connHandle, BLE_HCI_REMOTE_USER_TERMINATED_CONNECTION)] + ErrorCheck(callResult)
    ensures forall a :: a in calls && a.GapDisconnect? ==>
      (evt.GattcTimeout? || evt.GattsTimeout?) && a.handle == evt.connHandle
    ensures evt.UserMemRequest? ==> calls == [UserMemReply(evt.connHandle)] + ErrorCheck(callResult)
    // connect and disconnect make no call at all
    ensures evt.GapConnected? || evt.GapDisconnected? || evt.OtherBleEvt? ==> calls == []
    // the authorize reply goes to the requesting link
    ensures evt.RwAuthorizeRequest? ==>
      match RwAuthorizeReply(evt.request)
      case None => calls == []
      case Some(reply) => calls == [RwAuthorizeReplyCall(evt.connHandle, reply)] + ErrorCheck(callResult)
    ensures Faulted(calls) ==> callResult != NRF_SUCCESS
  {
    match evt
    case GapDisconnected(_) => []
    case GapConnected(_) => []
    case GattcTimeout(h) =>
      [GapDisconnect(h, BLE_HCI_REMOTE_USER_TERMINATED_CONNECTION)] + ErrorCheck(callResult)
    case GattsTimeout(h) =>
      [GapDisconnect(h, BLE_HCI_REMOTE_USER_TERMINATED_CONNECTION)] + ErrorCheck(callResult)
    case UserMemRequest(h) => [UserMemReply(h)] + ErrorCheck(callResult)
    case RwAuthorizeRequest(h, req) =>
      (match RwAuthorizeReply(req)
       case Some(reply) => [RwAuthorizeReplyCall(h, reply)] + ErrorCheck(callResult)
       case None => [])
    case OtherBleEvt(_) => []
  }

  // ---------------------------------------------------------------------------------------
  // on_conn_params_evt
  // ---------------------------------------------------------------------------------------

  /** on_conn_params_evt: a failed negotiation ends the stored link with "unacceptable
      connection interval"; every other event is ignored. */
  function ConnParamsEvtCalls(evt: ConnParamsEvt, storedHandle: ConnHandle, callResult: ErrCode): (calls: seq<Action>)
    ensures WellEnded(calls)
    ensures calls != [] <==> evt.ConnParamsFailed?
    ensures evt.ConnParamsFailed? ==>
      calls[0] == GapDisconnect(storedHandle, BLE_HCI_CONN_INTERVAL_UNACCEPTABLE)
      && (Faulted(calls) <==> callResult != NRF_SUCCESS)
    ensures evt.ConnParamsFailed? ==>
      calls == [GapDisconnect(storedHandle, BLE_HCI_CONN_INTERVAL_UNACCEPTABLE)] + ErrorCheck(callResult)
  {
    if evt == ConnParamsFailed then
      [GapDisconnect(storedHandle, BLE_HCI_CONN_INTERVAL_UNACCEPTABLE)] + ErrorCheck(callResult)
    else []
  }

  // ---------------------------------------------------------------------------------------
  // on_adv_evt and sleep_mode_enter
  // ---------------------------------------------------------------------------------------

  /** on_adv_evt. `callResult` is what sd_power_system_off reports if it returns at all. */
  function AdvEvtCalls(evt: AdvEvt, callResult: ErrCode): (calls: seq<Action>)
    ensures WellEnded(calls)
    ensures calls != [] <==> evt.AdvEvtIdle?
    // advertising going idle switches the system off; the code after that request runs
    // only when the request fails, and then it faults
    ensures Halted(calls) <==> evt.AdvEvtIdle?
    ensures evt.AdvEvtIdle? ==> calls[0] == SystemOff && (Faulted(calls) <==> callResult != NRF_SUCCESS)
    // the fault carries the system-off request's own result
    ensures evt.AdvEvtIdle? ==> calls == [SystemOff] + ErrorCheck(callResult)
  {
    match evt
    case AdvEvtFast => []
    case AdvEvtIdle => [SystemOff] + ErrorCheck(callResult)
    case OtherAdvEvt(_) => []
  }
}
