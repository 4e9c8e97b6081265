/** Types, constants and effects shared by the model of the NeuroOn BLE connectivity
    controller (src/ic_bluetooth.c).

    Every call the controller makes into the Nordic SoftDevice or SDK is represented by an
    `Action` value; a handler's effect is the list of actions it performs, in order. The
    SDK's error codes are inputs. A failing `APP_ERROR_CHECK` is the action `Fault`: the
    application's fault handler does not return, so nothing after it runs. */
module BleTypes {

  datatype Option<+T> = None | Some(value: T)

  /** uint8_t, uint16_t and uint32_t of the C code. */
  type Byte = x: int | 0 <= x < 0x100
  type ErrCode = x: int | 0 <= x < 0x1_0000_0000
  type ConnHandle = x: int | 0 <= x < 0x1_0000

  /** nrf_error.h */
  const NRF_SUCCESS: ErrCode := 0
  const NRF_ERROR_NO_MEM: ErrCode := 4

  /** fds.h (Nordic SDK 12): the two garbage-collection results the Peer Manager policy retries. */
  const FDS_ERR_NO_SPACE_IN_QUEUES: ErrCode := 8
  const FDS_ERR_BUSY: ErrCode := 14

  /** ble_types.h: the handle value meaning "no connection". */
  const BLE_CONN_HANDLE_INVALID: ConnHandle := 0xFFFF

  /** HCI disconnect reasons (ble_hci.h, Bluetooth Core error codes). */
  const BLE_HCI_REMOTE_USER_TERMINATED_CONNECTION: Byte := 0x13
  const BLE_HCI_CONN_INTERVAL_UNACCEPTABLE: Byte := 0x3B

  /** GATT status of the RW-authorize reply: BLE_GATT_STATUS_ATTERR_APP_BEGIN + 2. */
  const BLE_GATT_STATUS_ATTERR_APP_BEGIN: int := 0x0180
  const APP_FEATURE_NOT_SUPPORTED: int := BLE_GATT_STATUS_ATTERR_APP_BEGIN + 2

  /** GATTS write operation codes (ble_gatts.h). */
  const BLE_GATTS_OP_INVALID: Byte := 0x00
  const BLE_GATTS_OP_WRITE_REQ: Byte := 0x01
  const BLE_GATTS_OP_WRITE_CMD: Byte := 0x02
  const BLE_GATTS_OP_SIGN_WRITE_CMD: Byte := 0x03
  const BLE_GATTS_OP_PREP_WRITE_REQ: Byte := 0x04
  const BLE_GATTS_OP_EXEC_WRITE_REQ_CANCEL: Byte := 0x05
  const BLE_GATTS_OP_EXEC_WRITE_REQ_NOW: Byte := 0x06

  /** Return codes of the module's public API (ic_return_val_e). */
  datatype IcRet = IcSuccess | IcError | IcNotInitialized

  /** How a public API call ends: it returns a code, or a failed error check sends control
      into the fault handler, which does not return. */
  datatype Exit = Returned(code: IcRet) | NoReturn

  /** BLE_GATTS_AUTHORIZE_TYPE_* */
  datatype AuthorizeType = AuthorizeInvalid | AuthorizeRead | AuthorizeWrite

  /** An RW-authorize request. `writeOp` is the `op` byte read through the request's `write`
      view; the C code reads it whatever the request type is. */
  datatype AuthorizeRequest = AuthorizeRequest(reqType: AuthorizeType, writeOp: Byte)

  /** The reply parameters passed to sd_ble_gatts_rw_authorize_reply. */
  datatype AuthorizeReply = AuthorizeReply(replyType: AuthorizeType, gattStatus: int)

  /** BLE stack events that on_ble_evt distinguishes; every other event id is `OtherBleEvt`. */
  datatype BleEvt =
    | GapConnected(connHandle: ConnHandle)
    | GapDisconnected(connHandle: ConnHandle)
    | GattcTimeout(connHandle: ConnHandle)
    | GattsTimeout(connHandle: ConnHandle)
    | UserMemRequest(connHandle: ConnHandle)
    | RwAuthorizeRequest(connHandle: ConnHandle, request: AuthorizeRequest)
    | OtherBleEvt(id: nat)

  /** Peer Manager events (pm_evt_id_t) with the parameters pm_evt_handler reads. */
  datatype PmEvt =
    | BondedPeerConnected(connHandle: ConnHandle)
    | ConnSecSucceeded(connHandle: ConnHandle)
    | ConnSecFailed(connHandle: ConnHandle)
    | ConnSecConfigReq(connHandle: ConnHandle)
    | StorageFull
    | PeersDeleteSucceeded
    | LocalDbCacheApplyFailed
    | PeerDataUpdateFailed(error: ErrCode)
    | PeerDeleteFailed(error: ErrCode)
    | PeersDeleteFailed(error: ErrCode)
    | ErrorUnexpected(error: ErrCode)
    | ConnSecStart
    | PeerDataUpdateSucceeded
    | PeerDeleteSucceeded
    | LocalDbCacheApplied
    | ServiceChangedIndSent
    | ServiceChangedIndConfirmed

  /** Connection Parameters module events (ble_conn_params_evt_type_t). */
  datatype ConnParamsEvt = ConnParamsSucceeded | ConnParamsFailed

  /** Advertising module events (ble_adv_evt_t); the ones on_adv_evt ignores are `OtherAdvEvt`. */
  datatype AdvEvt = AdvEvtFast | AdvEvtIdle | OtherAdvEvt(id: nat)

  /** The SDK calls the controller makes, and the fault path. */
  datatype Action =
    | InitAssets                     // init_assets: stack, Peer Manager, GAP, services, advertising
    | CreateBleTask                  // xTaskCreate(ble_stack_thread, ...)
    | ResumeBleTask                  // RESUME_TASK(m_ble_tast_handle)
    | GapDisconnect(handle: ConnHandle, reason: Byte)
    | GapAdvStop
    | PeersDelete
    | AdvertisingStartFast
    | ConnSecConfigReply(handle: ConnHandle, allowRepairing: bool)
    | FdsGc
    | LocalDatabaseHasChanged
    | UserMemReply(handle: ConnHandle)
    | RwAuthorizeReplyCall(handle: ConnHandle, reply: AuthorizeReply)
    | SystemOff                      // sd_power_system_off: does not return when it succeeds
    | Fault(code: ErrCode)           // APP_ERROR_CHECK / APP_ERROR_HANDLER: does not return

  /** A list of calls that one run of a handler can produce: a fault is the last action, and
      the only thing that can follow a system-off request is the fault raised when that
      request fails. */
  predicate WellEnded(calls: seq<Action>) {
    forall i :: 0 <= i < |calls| - 1 ==> !calls[i].Fault? && (calls[i].SystemOff? ==> calls[i + 1].Fault?)
  }

  /** A list of calls after which the device is no longer running this code: it faulted, or
      it was switched off (waking up from system-off resets the device). */
  predicate Halted(calls: seq<Action>) {
    |calls| > 0 && (calls[|calls| - 1].Fault? || calls[|calls| - 1].SystemOff?)
  }

  /** A list of calls whose run ends in the fault handler. */
  predicate Faulted(calls: seq<Action>) {
    |calls| > 0 && calls[|calls| - 1].Fault?
  }

  /** APP_ERROR_CHECK(err): nothing on success, the fault path with that code otherwise. */
  function ErrorCheck(err: ErrCode): seq<Action> {
    if err == NRF_SUCCESS then [] else [Fault(err)]
  }

  /** Two lists of calls joined: the first one must not have halted the device. */
  lemma WellEndedAppend(first: seq<Action>, second: seq<Action>)
    requires WellEnded(first) && WellEnded(second)
    requires !Halted(first)
    ensures WellEnded(first + second)
  {
    var all := first + second;
    forall i | 0 <= i < |all| - 1
      ensures !all[i].Fault? && (all[i].SystemOff? ==> all[i + 1].Fault?)
    {
      if i >= |first| {
        assert all[i] == second[i - |first|] && all[i + 1] == second[i + 1 - |first|];
      } else if i == |first| - 1 {
        assert all[i] == first[|first| - 1];
      } else {
        assert all[i] == first[i] && all[i + 1] == first[i + 1];
      }
    }
  }

  /** Two lists of calls joined end in a fault as the second does, or as the first does when
      the second is empty. */
  lemma FaultedAppend(first: seq<Action>, second: seq<Action>)
    ensures Faulted(first + second) <==> if second == [] then Faulted(first) else Faulted(second)
  {
    if second == [] {
      assert first + second == first;
    } else {
      assert (first + second)[|first + second| - 1] == second[|second| - 1];
    }
  }
}
