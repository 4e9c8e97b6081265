/** The controller of src/ic_bluetooth.c as an object: its module-level variables are the
    fields, and each public call or event handler updates them in place and appends the SDK
    calls it makes to `log`. Every method is proved to perform exactly the step that
    Lifecycle defines for the state it starts from. */
module BleModule {
  import opened BleTypes
  import opened EventPolicy
  import opened Dispatch
  import Lifecycle

  class BleController {
    var moduleInitialized: bool    // m_module_initialized
    var blePowerDown: bool         // m_ble_power_down
    var connHandle: ConnHandle     // m_conn_handle
    var bleTaskCreated: bool       // m_ble_tast_handle != NULL
    var log: seq<Action>           // the SDK calls made so far

    /** The module state the fields hold. */
    function State(): Lifecycle.ModState
      reads this
    {
      Lifecycle.ModState(moduleInitialized, blePowerDown, connHandle, bleTaskCreated)
    }

    /** The static initialisers: not initialised, powered up, no link, no task. */
    constructor ()
      ensures State() == Lifecycle.Boot && log == []
    {
      moduleInitialized := false;
      blePowerDown := false;
      connHandle := BLE_CONN_HANDLE_INVALID;
      bleTaskCreated := false;
      log := [];
    }

    /** ic_ble_module_init. */
    method ModuleInit(taskCreateOk: bool) returns (exit: Exit)
      modifies this
      ensures var r := Lifecycle.ModuleInit(old(State()), taskCreateOk);
        State() == r.next && log == old(log) + r.calls && exit == r.exit
    {
      if moduleInitialized {
        return Returned(IcSuccess);
      }
      log := log + [InitAssets];
      if !bleTaskCreated {
        log := log + [CreateBleTask];
        if !taskCreateOk {
          log := log + [Fault(NRF_ERROR_NO_MEM)];
          return NoReturn;
        }
        bleTaskCreated := true;
      } else {
        log := log + [ResumeBleTask];
      }
      moduleInitialized := true;
      return Returned(IcSuccess);
    }

    /** ic_bluetooth_disable. */
    method Disable(advStopResult: ErrCode) returns (ret: IcRet)
      modifies this
      ensures var r := Lifecycle.Disable(old(State()), advStopResult);
        State() == r.next && log == old(log) + r.calls && Returned(ret) == r.exit
    {
      if !moduleInitialized {
        return IcNotInitialized;
      }
      var errCode := NRF_SUCCESS;
      blePowerDown := true;
      if connHandle != BLE_CONN_HANDLE_INVALID {
        log := log + [GapDisconnect(connHandle, BLE_HCI_REMOTE_USER_TERMINATED_CONNECTION)];
        connHandle := BLE_CONN_HANDLE_INVALID;
      } else {
        log := log + [GapAdvStop];
        errCode := advStopResult;
      }
      ret := if errCode != NRF_SUCCESS then IcError else IcSuccess;
    }

    /** ic_bluetooth_enable. */
    method Enable() returns (ret: IcRet)
      modifies this
      ensures var r := Lifecycle.Enable(old(State()));
        State() == r.next && log == old(log) + r.calls && Returned(ret) == r.exit
    {
      if !moduleInitialized {
        return IcNotInitialized;
      }
      blePowerDown := false;
      log := log + [PeersDelete];
      log := log + [AdvertisingStartFast];
      return IcSuccess;
    }

    /** on_ble_evt. `returned` is false when a failed error check sent control to the fault
        handler. */
    method OnBleEvt(evt: BleEvt, callResult: ErrCode) returns (returned: bool)
      modifies this
      ensures var r := Lifecycle.OnBleEvt(old(State()), evt, callResult);
        State() == r.next && log == old(log) + r.calls && (returned <==> !Faulted(r.calls))
    {
      var calls := OnBleEvtCalls(evt, callResult);
      if evt.GapConnected? {
        connHandle := evt.connHandle;
      }
      log := log + calls;
      returned := !Faulted(calls);
    }

    /** on_conn_params_evt. */
    method OnConnParamsEvt(evt: ConnParamsEvt, callResult: ErrCode) returns (returned: bool)
      modifies this
      ensures var r := Lifecycle.OnConnParamsEvt(old(State()), evt, callResult);
        State() == r.next && log == old(log) + r.calls && (returned <==> !Faulted(r.calls))
    {
      var calls := ConnParamsEvtCalls(evt, connHandle, callResult);
      log := log + calls;
      returned := !Faulted(calls);
    }

    /** ble_evt_dispatch: the handlers reached, in order, and on_ble_evt's effect when it is
        reached. `foreignHalt` names the library handler, if any, that does not return for
        this event because a callback it invokes faulted or switched the system off; a fault
        in on_ble_evt stops the dispatch there too. */
    method BleEvtDispatch(evt: BleEvt, callResult: ErrCode, foreignHalt: Option<BleHandler>)
      returns (reached: seq<BleHandler>)
      modifies this
      ensures var r := Lifecycle.OnBleEvt(old(State()), evt, callResult);
        ReachedUntilHalt(reached, BleEvtDispatchOrder(old(blePowerDown)), foreignHalt, Faulted(r.calls))
        // on_ble_evt, fourth in the order, runs exactly when the dispatch gets that far
        && (|reached| >= 4 ==> State() == r.next && log == old(log) + r.calls)
        && (|reached| < 4 ==> State() == old(State()) && log == old(log))
    {
      ghost var order := BleEvtDispatchOrder(blePowerDown);
      ghost var r := Lifecycle.OnBleEvt(State(), evt, callResult);
      ghost var appFaulted := Faulted(r.calls);
      reached := [ConnStateHandler];
      if foreignHalt == Some(ConnStateHandler) {
        assert reached == order[..1];
        ReachedPrefix(reached, order, 1, foreignHalt, appFaulted);
        return;
      }
      reached := reached + [PmHandler];
      if foreignHalt == Some(PmHandler) {
        assert reached == order[..2];
        ReachedPrefix(reached, order, 2, foreignHalt, appFaulted);
        return;
      }
      reached := reached + [ConnParamsHandler];
      if foreignHalt == Some(ConnParamsHandler) {
        assert reached == order[..3];
        ReachedPrefix(reached, order, 3, foreignHalt, appFaulted);
        return;
      }
      reached := reached + [AppHandler];
      assert reached == order[..4];
      var returned := OnBleEvt(evt, callResult);
      if !returned {
        ReachedPrefix(reached, order, 4, foreignHalt, appFaulted);
        return;
      }
      var rest := DispatchAfterApp(blePowerDown, foreignHalt);
      ReachedAppend(reached, rest, order, foreignHalt, appFaulted);
      reached := reached + rest;
    }
  }
}
