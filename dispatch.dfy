/** The fixed fan-out order of ble_evt_dispatch and sys_evt_dispatch in src/ic_bluetooth.c. */
module Dispatch {
  import opened BleTypes

  /** The handlers ble_evt_dispatch passes a BLE stack event to. `AppHandler` is the
      controller's own on_ble_evt. */
  datatype BleHandler =
    | ConnStateHandler     // ble_conn_state_on_ble_evt
    | PmHandler            // pm_on_ble_evt
    | ConnParamsHandler    // ble_conn_params_on_ble_evt
    | AppHandler           // on_ble_evt
    | AdvertisingHandler   // ble_advertising_on_ble_evt
    | IccsHandler          // ble_iccs_on_ble_evt
    | MainHandler          // main_on_ble_evt
    | DfuHandler           // ble_dfu_on_ble_evt
    | BasHandler           // ble_icbas_on_ble_evt

  /** The handlers sys_evt_dispatch passes a system event to. */
  datatype SysHandler = FstorageHandler | AdvertisingSysHandler

  /** Each BLE handler's stage in the pipeline: connection state first, so that every later
      handler sees it up to date; the Peer Manager and the connection-parameter module before
      the application; the advertising module after the application; the services last. */
  function Stage(h: BleHandler): nat {
    match h
    case ConnStateHandler => 0
    case PmHandler => 1
    case ConnParamsHandler => 2
    case AppHandler => 3
    case AdvertisingHandler => 4
    case IccsHandler => 5
    case MainHandler => 6
    case DfuHandler => 7
    case BasHandler => 8
  }

  /** Whether a handler receives events in the given power state: the advertising module is
      cut off while the radio is powered down. */
  predicate Receives(h: BleHandler, powerDown: bool) {
    h != AdvertisingHandler || !powerDown
  }

  /** The handlers ble_evt_dispatch invokes, in order. */
  function BleEvtDispatchOrder(powerDown: bool): (hs: seq<BleHandler>)
    // the application comes fourth, whatever the power state
    ensures |hs| >= 8 && hs[..4] == [ConnStateHandler, PmHandler, ConnParamsHandler, AppHandler]
  {
    [ConnStateHandler, PmHandler, ConnParamsHandler, AppHandler]
    + (if powerDown then [] else [AdvertisingHandler])
    + [IccsHandler, MainHandler, DfuHandler, BasHandler]
  }

  /** The dispatch order is strictly ordered by stage, so no handler is invoked twice. */
  lemma BleEvtDispatchOrderSorted(powerDown: bool)
    ensures var hs := BleEvtDispatchOrder(powerDown);
      forall i, j :: 0 <= i < j < |hs| ==> Stage(hs[i]) < Stage(hs[j])
  {
  }

  /** The dispatch order holds exactly the handlers that receive events in the power state. */
  lemma BleEvtDispatchOrderReceivers(powerDown: bool)
    ensures forall h :: h in BleEvtDispatchOrder(powerDown) <==> Receives(h, powerDown)
  {
  }

  /** The handlers sys_evt_dispatch invokes, in order: fstorage settles pending flash
      operations before the advertising module asks whether any are outstanding. */
  function SysEvtDispatchOrder(): (hs: seq<SysHandler>)
    ensures |hs| == 2 && hs[0] == FstorageHandler && hs[1] == AdvertisingSysHandler
  {
    [FstorageHandler, AdvertisingSysHandler]
  }

  /** Whether a handler does not return for an event: on_ble_evt when its error check
      failed, a library handler when it was named as the one whose callback halted the
      device (the Peer Manager, connection-parameter and advertising modules call back into
      pm_evt_handler, on_conn_params_evt and on_adv_evt, which can fault or switch the
      system off). */
  predicate Halts(h: BleHandler, foreignHalt: Option<BleHandler>, appFaulted: bool) {
    if h == AppHandler then appFaulted else foreignHalt == Some(h)
  }

  /** `reached` is the part of `order` that runs: a prefix of it, in which no handler but the
      last one halts, and which stops short of the whole order only at a handler that halts. */
  predicate ReachedUntilHalt(reached: seq<BleHandler>, order: seq<BleHandler>,
                             foreignHalt: Option<BleHandler>, appFaulted: bool) {
    |reached| <= |order| && reached == order[..|reached|]
    && (forall i :: 0 <= i < |reached| - 1 ==> !Halts(reached[i], foreignHalt, appFaulted))
    && (|reached| < |order| ==> |reached| > 0 && Halts(reached[|reached| - 1], foreignHalt, appFaulted))
  }

  /** A prefix of the order ending at the first handler that halts, or the whole order when
      none halts, is what runs. */
  lemma ReachedPrefix(reached: seq<BleHandler>, order: seq<BleHandler>, k: nat, foreignHalt: Option<BleHandler>, appFaulted: bool)
    requires 0 < k <= |order| && reached == order[..k]
    requires forall i :: 0 <= i < k - 1 ==> !Halts(order[i], foreignHalt, appFaulted)
    requires k < |order| ==> Halts(order[k - 1], foreignHalt, appFaulted)
    ensures ReachedUntilHalt(reached, order, foreignHalt, appFaulted)
  {
  }

  /** The halting facts of a run, stated on the order itself. */
  lemma ReachedFacts(reached: seq<BleHandler>, order: seq<BleHandler>,
                     foreignHalt: Option<BleHandler>, appFaulted: bool)
    requires ReachedUntilHalt(reached, order, foreignHalt, appFaulted)
    ensures forall i :: 0 <= i < |reached| - 1 ==> !Halts(order[i], foreignHalt, appFaulted)
    ensures |reached| < |order| ==> |reached| > 0 && Halts(order[|reached| - 1], foreignHalt, appFaulted)
  {
    forall i | 0 <= i < |reached| - 1
      ensures !Halts(order[i], foreignHalt, appFaulted)
    {
      assert reached[i] == order[i];
    }
  }

  /** A run of the first `k` handlers of the order, none of which halted, followed by a run
      of the rest of the order, is a run of the whole order. */
  lemma ReachedAppend(front: seq<BleHandler>, rest: seq<BleHandler>, order: seq<BleHandler>,
                      foreignHalt: Option<BleHandler>, appFaulted: bool)
    requires 0 < |front| <= |order| && front == order[..|front|]
    requires forall i :: 0 <= i < |front| ==> !Halts(front[i], foreignHalt, appFaulted)
    requires ReachedUntilHalt(rest, order[|front|..], foreignHalt, appFaulted)
    ensures ReachedUntilHalt(front + rest, order, foreignHalt, appFaulted)
  {
    var reached := front + rest;
    assert order == front + order[|front|..];
    assert reached == order[..|reached|];
    forall i | 0 <= i < |reached| - 1
      ensures !Halts(reached[i], foreignHalt, appFaulted)
    {
      if i >= |front| {
        assert reached[i] == rest[i - |front|];
      }
    }
  }

  /** The part of ble_evt_dispatch after on_ble_evt has returned: the advertising module,
      unless the radio is powered down, then the four services, up to the first library
      handler that does not return. */
  method DispatchAfterApp(powerDown: bool, foreignHalt: Option<BleHandler>)
    returns (rest: seq<BleHandler>)
    ensures ReachedUntilHalt(rest, BleEvtDispatchOrder(powerDown)[4..], foreignHalt, false)
  {
    ghost var order := BleEvtDispatchOrder(powerDown)[4..];
    rest := [];
    if !powerDown {
      rest := [AdvertisingHandler];
      if foreignHalt == Some(AdvertisingHandler) {
        ReachedPrefix(rest, order, 1, foreignHalt, false);
        return;
      }
    }
    ghost var n := |rest|;
    rest := rest + [IccsHandler];
    if foreignHalt == Some(IccsHandler) {
      ReachedPrefix(rest, order, n + 1, foreignHalt, false);
      return;
    }
    rest := rest + [MainHandler];
    if foreignHalt == Some(MainHandler) {
      ReachedPrefix(rest, order, n + 2, foreignHalt, false);
      return;
    }
    rest := rest + [DfuHandler];
    if foreignHalt == Some(DfuHandler) {
      ReachedPrefix(rest, order, n + 3, foreignHalt, false);
      return;
    }
    rest := rest + [BasHandler];
    ReachedPrefix(rest, order, n + 4, foreignHalt, false);
  }

  /** The handlers that run are determined by the order and by which handler halts. */
  lemma ReachedUntilHaltUnique(r1: seq<BleHandler>, r2: seq<BleHandler>, order: seq<BleHandler>,
                               foreignHalt: Option<BleHandler>, appFaulted: bool)
    requires ReachedUntilHalt(r1, order, foreignHalt, appFaulted)
    requires ReachedUntilHalt(r2, order, foreignHalt, appFaulted)
    ensures r1 == r2
  {
    ReachedFacts(r1, order, foreignHalt, appFaulted);
    ReachedFacts(r2, order, foreignHalt, appFaulted);
  }

  /** When no handler halts, the whole order runs. */
  lemma ReachedWithoutHaltIsOrder(reached: seq<BleHandler>, order: seq<BleHandler>)
    requires ReachedUntilHalt(reached, order, None, false)
    ensures reached == order
  {
  }

  /** A list of handlers invoked in stage order with no repeats, holding exactly the handlers
      that receive events in a power state, is the dispatch order: the two facts determine
      the order completely. */
  lemma {:induction false} DispatchOrderUnique(hs: seq<BleHandler>, powerDown: bool)
    requires forall i, j :: 0 <= i < j < |hs| ==> Stage(hs[i]) < Stage(hs[j])
    requires forall h :: h in hs <==> Receives(h, powerDown)
    ensures hs == BleEvtDispatchOrder(powerDown)
  {
    var order := BleEvtDispatchOrder(powerDown);
    BleEvtDispatchOrderSorted(powerDown);
    BleEvtDispatchOrderReceivers(powerDown);
    SortedByStageUnique(hs, order);
  }

  /** Two lists strictly sorted by stage with the same members are equal. */
  lemma {:induction false} SortedByStageUnique(xs: seq<BleHandler>, ys: seq<BleHandler>)
    requires forall i, j :: 0 <= i < j < |xs| ==> Stage(xs[i]) < Stage(xs[j])
    requires forall i, j :: 0 <= i < j < |ys| ==> Stage(ys[i]) < Stage(ys[j])
    requires forall h :: h in xs <==> h in ys
    ensures xs == ys
  {
    if xs == [] || ys == [] {
      HasMember(xs);
      HasMember(ys);
    } else {
      // the heads are both the member of least stage
      assert xs[0] in ys && ys[0] in xs;
      var i :| 0 <= i < |ys| && ys[i] == xs[0];
      var j :| 0 <= j < |xs| && xs[j] == ys[0];
      assert Stage(xs[0]) <= Stage(xs[j]);
      assert Stage(ys[0]) <= Stage(ys[i]);
      assert xs[0] == ys[0];
      forall h ensures h in xs[1..] <==> h in ys[1..] {
        if h in xs[1..] {
          var k :| 1 <= k < |xs| && xs[k] == h;
          assert Stage(xs[0]) < Stage(h);
          assert h in xs && h in ys;
          var m :| 0 <= m < |ys| && ys[m] == h;
          assert ys[1..][m - 1] == h;
        }
        if h in ys[1..] {
          var k :| 1 <= k < |ys| && ys[k] == h;
          assert Stage(ys[0]) < Stage(h);
          assert h in ys && h in xs;
          var m :| 0 <= m < |xs| && xs[m] == h;
          assert xs[1..][m - 1] == h;
        }
      }
      SortedByStageUnique(xs[1..], ys[1..]);
    }
  }

  lemma HasMember(s: seq<BleHandler>)
    ensures s != [] ==> exists h :: h in s
  {
    if s != [] {
      assert s[0] in s;
    }
  }
}
