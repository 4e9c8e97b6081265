# NeuroOn BLE connectivity controller — a Dafny model

This project models the Bluetooth Low Energy controller of the NeuroOn wearable firmware,
`src/ic_bluetooth.c`. The controller sits between the application and the Nordic SoftDevice
and SDK. It covers:

- the module's lifecycle: initialisation, radio power-down and power-up, and tracking of the
  one link handle;
- the fixed order in which stack events are fanned out to the SDK modules and services;
- the event policies: Peer Manager bonding and security, GATT timeouts, RW-authorize replies,
  connection-parameter failures, and advertising going idle;
- the serial-number string published by the Device Information Service.

Every call into the SoftDevice or SDK is an `Action` value, and a handler's effect is the list
of actions it performs, in order. The SDK's return codes are inputs. A failing
`APP_ERROR_CHECK` (or `APP_ERROR_HANDLER`) is the action `Fault(code)`. The application's
fault handler does not return, so nothing runs after it: `WellEnded` says that a fault is
always the last action.

Files:

- `ble_types.dfy` (`BleTypes`): the constants, events, actions and error-check helpers.
- `event_policy.dfy` (`EventPolicy`): the stateless decision tables, as functions from an
  event and a call result to a list of actions.
- `dispatch.dfy` (`Dispatch`): the order of `ble_evt_dispatch` and `sys_evt_dispatch`.
- `serial_number.dfy` (`SerialNumber`): the serial digit table. `EncodeSerial` fills a byte
  array in a loop.
- `lifecycle.dfy` (`Lifecycle`): the module state and each operation as a function of the old
  state, with lemmas about sequences of operations.
- `ble_module.dfy` (`BleModule`): the class `BleController`. Its fields are the C module
  variables, and each method is proved to perform exactly the `Lifecycle` step.

## Model

| member | source | states |
|---|---|---|
| EventPolicy.PmEvtHandler | src/ic_bluetooth.c:136-228 | A Peer Manager event faults exactly in three cases: garbage collection fails other than busy or queues-full, advertising cannot be restarted after bonds were deleted, or an error event carries a non-success code. Re-pairing is always refused, on the event's own handle. Each event makes exactly its calls. STORAGE_FULL runs `fds_gc`, then faults with that call's code exactly when it is fatal. PEERS_DELETE_SUCCEEDED starts fast advertising, then error-checks that start. LOCAL_DB_CACHE_APPLY_FAILED reports a changed database and nothing else. An error event makes only the error check of its own code. Every other event makes no call. |
| EventPolicy.StorageFullRetriedOnRecurrence | src/ic_bluetooth.c:170-182 | While garbage collection reports success, busy or queues-full, each recurring STORAGE_FULL runs `fds_gc` again and the device never faults. |
| EventPolicy.PmRunFaultsOnFirstFatal | src/ic_bluetooth.c:136-228 | A run of Peer Manager events ends in the fault handler if and only if one of its events is fatal. |
| EventPolicy.PmRunWellEnded | src/ic_bluetooth.c:136-228 | In a run of Peer Manager events nothing follows a fault: the fault handler does not return. |
| EventPolicy.RwAuthorizeReply | src/ic_bluetooth.c:509-536 | A reply is sent exactly when the request type is valid and the write op is a prepare, execute-now or execute-cancel. The reply has the request's own type (write stays write, read stays read), and its status is always APP_FEATURE_NOT_SUPPORTED. |
| EventPolicy.OnBleEvtCalls | src/ic_bluetooth.c:473-550 | A GATT client or server timeout disconnects the event's own handle with "remote user terminated". No other event disconnects. A user memory request is answered on its link. Connect, disconnect and unknown events make no call. The authorize reply goes to the requesting link. A fault happens only when the checked call failed. |
| EventPolicy.ConnParamsEvtCalls | src/ic_bluetooth.c:381-390 | Only a FAILED negotiation makes a call. Its calls are exactly a disconnect of the stored handle with "connection interval unacceptable", then the error check of that disconnect, which faults exactly when the call fails. |
| EventPolicy.AdvEvtCalls | src/ic_bluetooth.c:427-467 | Only advertising going idle makes a call, and it halts the device: its calls are exactly system-off, then the error check of that request's own result, so it faults with that code exactly when the request fails. |
| Dispatch.BleEvtDispatchOrder | src/ic_bluetooth.c:578-593 | Whatever the power state, the first four handlers are connection state, Peer Manager, connection parameters and then the application, and at least four more handlers follow. What they are is stated by `BleEvtDispatchOrderSorted`, `BleEvtDispatchOrderReceivers` and `DispatchOrderUnique`. |
| Dispatch.BleEvtDispatchOrderSorted | src/ic_bluetooth.c:578-593 | The handlers are invoked in strict pipeline order, so none is invoked twice: connection state, Peer Manager, connection parameters, the application, advertising, then the services. |
| Dispatch.BleEvtDispatchOrderReceivers | src/ic_bluetooth.c:586-588 | The advertising module is in the order if and only if the radio is not powered down. Every other handler is always in it. |
| Dispatch.DispatchOrderUnique | src/ic_bluetooth.c:578-593 | Any strictly stage-ordered list holding exactly the handlers that receive events in a power state is the dispatch order. |
| Dispatch.DispatchAfterApp | src/ic_bluetooth.c:586-592 | After `on_ble_evt` returns, the handlers that run are the rest of the dispatch order for the power state, up to and including the first library handler that does not return. |
| Dispatch.ReachedUntilHaltUnique | src/ic_bluetooth.c:578-593 | The handlers reached by a dispatch are determined by the order and by which handler does not return. |
| Dispatch.ReachedWithoutHaltIsOrder | src/ic_bluetooth.c:578-593 | When every handler returns, the dispatch reaches the whole order. |
| Dispatch.SysEvtDispatchOrder | src/ic_bluetooth.c:558-569 | fstorage is called before the advertising module, and nothing else is called. |
| SerialNumber.DigitTable | src/ic_bluetooth.c:279-293 | The initial table has fourteen entries, with both CRC slots zero. |
| SerialNumber.SerialTableDigits | src/ic_bluetooth.c:279-298 | For fields in range, every entry is 0..9, and each digit pair or quadruple recombines to its field (for example, 10·tab[0] + tab[1] is the manufacturer). Entries 12 and 13 are crc/10 and crc%10, where the CRC is computed over the table with those slots zero. |
| SerialNumber.RenderedDigits | src/ic_bluetooth.c:300-302 | Every character printed from a digit table is one of '0'..'9', and it reads back as its entry. |
| SerialNumber.SerialRoundTrip | src/ic_bluetooth.c:279-302 | The serial string of in-range fields parses back to the same fields, and its CRC digits check. |
| SerialNumber.ParseSerialOnlyEncoding | src/ic_bluetooth.c:279-302 | Conversely, any string that parses to some fields is exactly the serial string of those fields. |
| SerialNumber.BuildTable | src/ic_bluetooth.c:279-298 | The array built on the stack, with its CRC slots overwritten, holds the serial table, and every entry is a digit. |
| SerialNumber.PrintDigits | src/ic_bluetooth.c:300-302 | The loop writes each table entry's digit character at its own index. The byte after the last one is NUL, and the rest of the buffer is untouched. |
| SerialNumber.PrintedSerial | src/ic_bluetooth.c:279-302 | The characters printed from the serial table are the serial string: none is NUL, and they parse back to the fields. |
| SerialNumber.EncodeSerial | src/ic_bluetooth.c:266-302 | The loop leaves the first fourteen bytes of the buffer holding the serial string: all digit characters, none NUL, and parsing back to the fields. Byte 14 is the terminating NUL, and the rest of the buffer is untouched. |
| Lifecycle.ModuleInit | src/ic_bluetooth.c:766-784 | Once initialised, a call changes nothing, calls nothing and returns success. Otherwise the calls are exactly: the asset initialisation, then either the task creation (when no task exists) or the task resumption (when one does). A failed creation adds a fault with NO_MEM and nothing more. On return the module is initialised. Power state and link are untouched. |
| Lifecycle.Disable | src/ic_bluetooth.c:786-803 | Before init it returns NOT_INITIALIZED and changes nothing. Otherwise it powers down. With a handle held, it disconnects that handle with "remote user terminated", invalidates the handle and returns success. Without a handle, it stops advertising and returns ERROR exactly when that stop fails. |
| Lifecycle.Enable | src/ic_bluetooth.c:805-812 | Before init it returns NOT_INITIALIZED and changes nothing. Otherwise it only clears power-down, deletes the bonds and then starts fast advertising, and returns success whatever those calls report. |
| Lifecycle.RecordHandle | src/ic_bluetooth.c:479-486 | A connection event records its handle. Every other event, including a disconnection, leaves the state unchanged. |
| Lifecycle.OnBleEvt | src/ic_bluetooth.c:473-550 | on_ble_evt is the handle update together with the calls, and it halts only by a fault. |
| Lifecycle.OnConnParamsEvt | src/ic_bluetooth.c:381-390 | The state is unchanged, and the calls are those of the connection-parameter policy for the recorded handle. A failed negotiation disconnects that handle and faults exactly when the disconnect fails. A successful one makes no call. |
| Lifecycle.RunKeepsConsistent | src/ic_bluetooth.c:766-784 | From boot, any sequence of operations keeps "task exists if and only if initialised", its calls are well ended, and the resume-task branch is never taken. |
| Lifecycle.PowerDownLatched | src/ic_bluetooth.c:786-812 | Once powered down, the module stays powered down through any operations other than enable. |
| Lifecycle.DisableCutsAdvertising | src/ic_bluetooth.c:582-592 | After disable, and until enable, `ble_evt_dispatch` hands no event to the advertising module. |
| Lifecycle.HandleComesFromConnection | src/ic_bluetooth.c:483-486 | The held handle is always the initial one, the invalid one, or the handle of a connection event received. |
| Lifecycle.TrackLinksKeepsLastConnection | src/ic_bluetooth.c:479-486 | As written, after any series of BLE events the held handle is that of the last connection event, even if that link has since been closed. Nothing else changes. |
| Lifecycle.StaleHandleAfterPeerDisconnect | src/ic_bluetooth.c:479-481 | After a connect and a peer disconnect, disable sends a disconnect for the stale handle and never stops advertising. |
| Lifecycle.RecordHandleIntended | src/ic_bluetooth.c:479-486 | The corrected step: a connection records its handle, and a disconnection invalidates it. |
| Lifecycle.TrackLinksIntendedFollowsLink | src/ic_bluetooth.c:479-486 | With the corrected step, the held handle is that of the last link event when it was a connection, and invalid when it was a disconnection. |
| Lifecycle.DisableAfterDisconnectIntended | src/ic_bluetooth.c:786-803 | With the corrected step, disable after a disconnection stops advertising and sends no disconnect. |
| BleModule.BleController.constructor | src/ic_bluetooth.c:93-97 | The static initialisers: not initialised, powered up, no link, no task, no calls. |
| BleModule.BleController.ModuleInit | src/ic_bluetooth.c:766-784 | Performs `Lifecycle.ModuleInit` in place: the new fields, the appended calls and the exit are those of that step. |
| BleModule.BleController.Disable | src/ic_bluetooth.c:786-803 | Performs `Lifecycle.Disable` in place: the new fields, the appended calls and the return code are those of that step. |
| BleModule.BleController.Enable | src/ic_bluetooth.c:805-812 | Performs `Lifecycle.Enable` in place: the new fields, the appended calls and the return code are those of that step. |
| BleModule.BleController.OnBleEvt | src/ic_bluetooth.c:473-550 | Performs `Lifecycle.OnBleEvt` in place, and reports whether control came back from the fault path. |
| BleModule.BleController.OnConnParamsEvt | src/ic_bluetooth.c:381-390 | Performs `Lifecycle.OnConnParamsEvt` in place, using the stored handle. |
| BleModule.BleController.BleEvtDispatch | src/ic_bluetooth.c:578-593 | The handlers reached are the dispatch order for the power state at entry, up to and including the first one that does not return. That is `on_ble_evt` when its error check faulted, or the library handler named as halting. `on_ble_evt`'s step is applied exactly when the dispatch reaches it. If a library handler before it halts, the fields and the log are unchanged. |

## Left out

- FreeRTOS plumbing is not modelled: the semaphore, `ble_new_event_handler`, `ble_stack_thread` and the event loop are concurrency. Task creation and resumption appear only as logged actions.
- Lifecycle.ModuleInit: the error checks inside `init_assets` are taken to succeed. These are stack, Peer Manager, GAP, services, connection-parameter and advertising initialisation, and the first `ble_advertising_start`. `init_assets` is the single action `InitAssets`.
- The constant configuration of the init structs (GAP, advertising, Peer Manager security, DIS strings) and the DFU event handler are not modelled. They only fill library structures or log.
- `NRF_LOG_*` output is not modelled.
- The `BLE_GATTS_EVT_EXCHANGE_MTU_REQUEST` case is not modelled. It is compiled only for SoftDevice API version 3, and such events fall under `OtherBleEvt`.
- The connection-parameter retry count is not modelled. The count is kept inside the SDK's `ble_conn_params` library, not in this file.
- SerialNumber.EncodeSerial: `crc6_calculate` is not part of this model. It is a function parameter, assumed to return less than 100 so that both CRC digits index the digit table.
- SerialNumber.EncodeSerial: fields must be in range (two digits, four for `sn`). Most larger values make a table entry of 10 or more, which indexes past `_digits` (undefined behaviour in the C code). Some wrap instead: a quotient that the `uint8_t` cast of `serial_tab` brings below 10 gives a wrong serial without error. For example, a manufacturer of 2565 is stored as the entries 0 and 5 and printed as "05". `InRange` excludes both kinds.
- SerialNumber.EncodeSerial: the buffer is assumed longer than fourteen bytes, because `IC_CHAR_MAX_LEN` is not part of this model.
- SerialNumber.EncodeSerial: `snprintf`'s size argument is `sizeof(m_serial_buf-i)`, the size of an address and at least 2, so each call writes one character and a NUL. The DIS registration that follows is left out.
- `src/ic_ble_service.h`, `src/ic_driver_acc.h` and `src/ic_service_time.h` hold only declarations, so no behaviour is modelled for them.
- `main.c` is not modelled: scheduler start, GPIO power sequences, the LED task, and what the fault handler does (a reset, or in a `DEBUG` build a save-and-stop). The model only uses the fact that the fault handler does not return.
- `IC_SUCCESS` is taken to equal `NRF_SUCCESS` (0), because `ic_common_types.h` is not part of this model. `ic_bluetooth_enable` returns `NRF_SUCCESS`, so it is read as `IcSuccess`.
- The library and service handlers that `ble_evt_dispatch` calls are foreign code. They can call back into `pm_evt_handler`, `on_conn_params_evt` and `on_adv_evt`, which can fault or switch the system off. The model keeps only their position in the order and whether they return, which is the input `foreignHalt`. Their own effects, including those callbacks' actions, are not part of `BleEvtDispatch`'s log.
- BleModule.BleController: the class performs the steps as written. The corrected handle step is used only by `TrackLinksIntended` and the lemmas about it (see Findings).

## Findings

| source | as written | input that shows it | evidently intended | confidence | as-written member | corrected member |
|---|---|---|---|---|---|---|
| src/ic_bluetooth.c:479-481, 792-799 | `BLE_GAP_EVT_DISCONNECTED` only logs. `m_conn_handle` keeps the closed link's handle, and `ic_bluetooth_disable` treats it as a live link. | After init: CONNECTED(h), then DISCONNECTED(h), then `ic_bluetooth_disable`. The disable sends `sd_ble_gap_disconnect(h, …)` for a link that no longer exists and skips `sd_ble_gap_adv_stop`, so advertising, restarted after the disconnect, keeps running while the radio is meant to be powered down. | The disconnection resets the handle to `BLE_CONN_HANDLE_INVALID`, so that disable then stops advertising. | medium, not executed | Lifecycle.StaleHandleAfterPeerDisconnect | Lifecycle.RecordHandleIntended |
