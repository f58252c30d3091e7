/**
 * Configuration bookkeeping of one DPDK device: elements register RX and TX
 * queues before the devices are initialized, and initialization fills in
 * defaults and checks the result against the limits the hardware reports.
 */
module Device {
  import opened Slots

  /** Descriptor ring size used when no element asked for one. */
  const DEF_DEV_RXDESC: nat := 256
  const DEF_DEV_TXDESC: nat := 256

  datatype Dir = RX | TX

  /** The errors `add_queue` and `initialize_device` report. */
  datatype DeviceError =
    | ConfiguredAfterInit
    | PromiscDisagreement
    | DescDisagreement(dir: Dir)
    | SharedQueue(dir: Dir)
    | TooManyQueues(dir: Dir)
    | DescOutOfRange(dir: Dir)

  datatype Outcome = Ok | Error(err: DeviceError)

  /** The queue-related part of a device's `info` record. */
  datatype DevInfo = DevInfo(
    promisc: bool,
    nRxDescs: nat,
    nTxDescs: nat,
    rxQueues: seq<bool>,
    txQueues: seq<bool>)
  {
    function Queues(dir: Dir): seq<bool> {
      if dir == RX then rxQueues else txQueues
    }

    function Descs(dir: Dir): nat {
      if dir == RX then nRxDescs else nTxDescs
    }
  }

  /** A freshly constructed device: nothing registered yet. */
  const EmptyInfo := DevInfo(false, 0, 0, [], [])

  /**
   * What registration keeps true of a device: a direction without queues has
   * no descriptor count yet, and promiscuous mode is only ever asked for
   * together with an RX queue.
   */
  predicate Consistent(info: DevInfo) {
    && (|info.rxQueues| == 0 ==> info.nRxDescs == 0 && !info.promisc)
    && (|info.txQueues| == 0 ==> info.nTxDescs == 0)
  }

  /** The outcome of a registration, the record afterwards and the queue id. */
  datatype Registration = Registration(outcome: Outcome, info: DevInfo, queueId: nat)

  /**
   * `add_queue`, stated all-or-nothing: the first disagreement with earlier
   * registrations is reported and the record is left as it was; otherwise
   * promiscuous mode is or-ed in (RX only), a nonzero descriptor count is
   * stored and the queue slot is claimed.
   */
  function AddQueueSpec(info: DevInfo, initialized: bool, dir: Dir, queueId: nat,
                        promisc: bool, nDesc: nat): (res: Registration)
    // a refused registration changes nothing, not even the caller's id
    ensures res.outcome.Error? ==> res.info == info && res.queueId == queueId
    ensures initialized ==> res.outcome == Error(ConfiguredAfterInit)
    ensures !initialized && dir == RX && |info.rxQueues| > 0 && promisc != info.promisc ==>
      res.outcome == Error(PromiscDisagreement)
    // promiscuous mode is never switched off, and TX never touches it
    ensures info.promisc ==> res.info.promisc
    ensures dir == TX ==> res.info.promisc == info.promisc
    ensures res.outcome.Ok? && dir == RX ==> res.info.promisc == (info.promisc || promisc)
    // descriptor counts: 0 means "no opinion"; a different count is a conflict
    // once the direction has queues
    ensures nDesc == 0 ==> res.info.Descs(dir) == info.Descs(dir)
    ensures res.outcome.Ok? && nDesc > 0 ==> res.info.Descs(dir) == nDesc
    ensures !initialized && nDesc > 0 && nDesc != info.Descs(dir) && |info.Queues(dir)| > 0 ==>
      res.outcome.Error?
    ensures !initialized && (dir == TX || |info.rxQueues| == 0 || promisc == info.promisc)
            && nDesc > 0 && nDesc != info.Descs(dir) && |info.Queues(dir)| > 0 ==>
      res.outcome == Error(DescDisagreement(dir))
    // once nothing else disagrees, the registration succeeds exactly when the
    // queue is free, and is otherwise refused as shared
    ensures !initialized && (dir == TX || |info.rxQueues| == 0 || promisc == info.promisc)
            && (nDesc == 0 || nDesc == info.Descs(dir) || |info.Queues(dir)| == 0) ==>
      && (res.outcome.Ok? <==> !(queueId > 0 && Taken(info.Queues(dir), queueId)))
      && (res.outcome == Error(SharedQueue(dir)) <==> queueId > 0 && Taken(info.Queues(dir), queueId))
    // the queue table: the requested (or first free) slot is claimed
    ensures res.outcome.Ok? ==>
      && (queueId > 0 ==> res.queueId == queueId)
      && (queueId == 0 ==> res.queueId == FirstFree(info.Queues(dir)))
      && res.info.Queues(dir) == Claim(info.Queues(dir), res.queueId)
    // the other direction is untouched, and so is its descriptor count
    ensures res.info.Queues(if dir == RX then TX else RX) == info.Queues(if dir == RX then TX else RX)
    ensures res.info.Descs(if dir == RX then TX else RX) == info.Descs(if dir == RX then TX else RX)
    ensures Consistent(info) ==> Consistent(res.info)
  {
    var queues := info.Queues(dir);
    var id := if queueId == 0 then FirstFree(queues) else queueId;
    if initialized then
      Registration(Error(ConfiguredAfterInit), info, queueId)
    else if dir == RX && |queues| > 0 && promisc != info.promisc then
      Registration(Error(PromiscDisagreement), info, queueId)
    else if nDesc > 0 && nDesc != info.Descs(dir) && |queues| > 0 then
      Registration(Error(DescDisagreement(dir)), info, queueId)
    else if Taken(queues, id) then
      Registration(Error(SharedQueue(dir)), info, queueId)
    else
      var descs := if nDesc > 0 then nDesc else info.Descs(dir);
      var updated :=
        if dir == RX then info.(promisc := info.promisc || promisc, nRxDescs := descs, rxQueues := Claim(queues, id))
        else info.(nTxDescs := descs, txQueues := Claim(queues, id));
      Registration(Ok, updated, id)
  }

  /** The limits `rte_eth_dev_info_get` reports for a port. */
  datatype DevLimits = DevLimits(
    maxRxQueues: nat,
    maxTxQueues: nat,
    rxDescMin: nat,
    rxDescMax: nat,
    txDescMin: nat,
    txDescMax: nat)

  /**
   * The defaulting step of `initialize_device`: at least one queue per
   * direction, and a descriptor count of 0 becomes the default.
   */
  function WithDefaults(info: DevInfo): (r: DevInfo)
    ensures |r.rxQueues| >= 1 && |r.txQueues| >= 1
    ensures r.nRxDescs > 0 && r.nTxDescs > 0
    ensures |info.rxQueues| > 0 ==> r.rxQueues == info.rxQueues
    ensures |info.txQueues| > 0 ==> r.txQueues == info.txQueues
    ensures |info.rxQueues| == 0 ==> r.rxQueues == [false]
    ensures |info.txQueues| == 0 ==> r.txQueues == [false]
    ensures info.nRxDescs == 0 ==> r.nRxDescs == DEF_DEV_RXDESC
    // an empty RX vector resets the RX count to the default, whatever was stored
    ensures |info.rxQueues| == 0 ==> r.nRxDescs == DEF_DEV_RXDESC
    ensures info.nTxDescs == 0 ==> r.nTxDescs == DEF_DEV_TXDESC
    // on a record built by registration, a requested count always survives
    ensures Consistent(info) && info.nRxDescs > 0 ==> r.nRxDescs == info.nRxDescs
    // a stored RX count survives whenever there is an RX queue to keep it
    ensures |info.rxQueues| > 0 && info.nRxDescs > 0 ==> r.nRxDescs == info.nRxDescs
    ensures info.nTxDescs > 0 ==> r.nTxDescs == info.nTxDescs
    ensures r.promisc == info.promisc
  {
    var rxQueues := if |info.rxQueues| == 0 then Resize(info.rxQueues, 1) else info.rxQueues;
    var nRx := if |info.rxQueues| == 0 then DEF_DEV_RXDESC else info.nRxDescs;
    var txQueues := if |info.txQueues| == 0 then Resize(info.txQueues, 1) else info.txQueues;
    DevInfo(info.promisc,
            if nRx == 0 then DEF_DEV_RXDESC else nRx,
            if info.nTxDescs == 0 then DEF_DEV_TXDESC else info.nTxDescs,
            rxQueues, txQueues)
  }

  /**
   * The range checks of `initialize_device`, in their order: queue counts
   * against the device maximum, then descriptor counts against the device's
   * [min, max] interval.
   */
  function CheckLimits(info: DevInfo, lim: DevLimits): (r: Outcome)
    ensures r == Ok <==>
      && |info.rxQueues| <= lim.maxRxQueues
      && |info.txQueues| <= lim.maxTxQueues
      && lim.rxDescMin <= info.nRxDescs <= lim.rxDescMax
      && lim.txDescMin <= info.nTxDescs <= lim.txDescMax
    // each error names a violated limit, and every limit checked before it holds
    ensures r == Error(TooManyQueues(RX)) <==> |info.rxQueues| > lim.maxRxQueues
    ensures r == Error(TooManyQueues(TX)) <==>
      |info.rxQueues| <= lim.maxRxQueues && |info.txQueues| > lim.maxTxQueues
    ensures r == Error(DescOutOfRange(RX)) <==>
      && |info.rxQueues| <= lim.maxRxQueues && |info.txQueues| <= lim.maxTxQueues
      && !(lim.rxDescMin <= info.nRxDescs <= lim.rxDescMax)
    ensures r == Error(DescOutOfRange(TX)) <==>
      && |info.rxQueues| <= lim.maxRxQueues && |info.txQueues| <= lim.maxTxQueues
      && lim.rxDescMin <= info.nRxDescs <= lim.rxDescMax
      && !(lim.txDescMin <= info.nTxDescs <= lim.txDescMax)
    ensures r.Error? ==> r.err.TooManyQueues? || r.err.DescOutOfRange?
  {
    if |info.rxQueues| > lim.maxRxQueues then Error(TooManyQueues(RX))
    else if |info.txQueues| > lim.maxTxQueues then Error(TooManyQueues(TX))
    else if info.nRxDescs < lim.rxDescMin || info.nRxDescs > lim.rxDescMax then Error(DescOutOfRange(RX))
    else if info.nTxDescs < lim.txDescMin || info.nTxDescs > lim.txDescMax then Error(DescOutOfRange(TX))
    else Ok
  }

  /** One DPDK port and the configuration elements asked of it. */
  class DPDKDevice {
    const portId: int
    var promisc: bool
    var nRxDescs: nat
    var nTxDescs: nat
    var rxQueues: seq<bool>
    var txQueues: seq<bool>

    /** The `info` record as a value. */
    function Info(): DevInfo
      reads this
    {
      DevInfo(promisc, nRxDescs, nTxDescs, rxQueues, txQueues)
    }

    constructor (portId: int)
      ensures this.portId == portId
      ensures Info() == EmptyInfo
    {
      this.portId := portId;
      promisc, nRxDescs, nTxDescs := false, 0, 0;
      rxQueues, txQueues := [], [];
    }

    /**
     * `add_queue`: updates the record field by field in the order the
     * source does, returning at the first conflict; `initialized` is the
     * process-wide "devices already initialized" flag, and the returned id
     * is the caller's `queue_id` afterwards. Proved to behave as the
     * all-or-nothing AddQueueSpec.
     */
    method AddQueue(initialized: bool, dir: Dir, queueId: nat, wantPromisc: bool, nDesc: nat)
      returns (r: Outcome, id: nat)
      modifies this
      ensures Registration(r, Info(), id) ==
              AddQueueSpec(old(Info()), initialized, dir, queueId, wantPromisc, nDesc)
    {
      id := queueId;
      if initialized {
        return Error(ConfiguredAfterInit), id;
      }
      if dir == RX {
        if |rxQueues| > 0 && wantPromisc != promisc {
          return Error(PromiscDisagreement), id;
        }
        promisc := promisc || wantPromisc;
        if nDesc > 0 {
          if nDesc != nRxDescs && |rxQueues| > 0 {
            return Error(DescDisagreement(RX)), id;
          }
          nRxDescs := nDesc;
        }
        var ok;
        rxQueues, id, ok := SetSlot(rxQueues, id);
        if !ok {
          return Error(SharedQueue(RX)), id;
        }
      } else {
        if nDesc > 0 {
          if nDesc != nTxDescs && |txQueues| > 0 {
            return Error(DescDisagreement(TX)), id;
          }
          nTxDescs := nDesc;
        }
        var ok;
        txQueues, id, ok := SetSlot(txQueues, id);
        if !ok {
          return Error(SharedQueue(TX)), id;
        }
      }
      r := Ok;
    }

    /** `add_rx_queue`: an RX registration. */
    method AddRxQueue(initialized: bool, queueId: nat, wantPromisc: bool, nDesc: nat)
      returns (r: Outcome, id: nat)
      modifies this
      ensures Registration(r, Info(), id) ==
              AddQueueSpec(old(Info()), initialized, RX, queueId, wantPromisc, nDesc)
    {
      r, id := AddQueue(initialized, RX, queueId, wantPromisc, nDesc);
    }

    /** `add_tx_queue`: a TX registration, which never asks for promiscuous mode. */
    method AddTxQueue(initialized: bool, queueId: nat, nDesc: nat)
      returns (r: Outcome, id: nat)
      modifies this
      ensures Registration(r, Info(), id) ==
              AddQueueSpec(old(Info()), initialized, TX, queueId, false, nDesc)
    {
      r, id := AddQueue(initialized, TX, queueId, false, nDesc);
    }

    /**
     * The part of `initialize_device` before the device is configured:
     * rewrites the record's defaults in place, then checks it against the
     * limits the device reports.
     */
    method InitializeDevice(lim: DevLimits) returns (r: Outcome)
      modifies this
      ensures Info() == WithDefaults(old(Info()))
      ensures r == CheckLimits(Info(), lim)
    {
      if |rxQueues| == 0 {
        rxQueues := Resize(rxQueues, 1);
        nRxDescs := DEF_DEV_RXDESC;
      }
      if |txQueues| == 0 {
        txQueues := Resize(txQueues, 1);
      }
      if nRxDescs == 0 {
        nRxDescs := DEF_DEV_RXDESC;
      }
      if nTxDescs == 0 {
        nTxDescs := DEF_DEV_TXDESC;
      }
      if |rxQueues| > lim.maxRxQueues {
        return Error(TooManyQueues(RX));
      }
      if |txQueues| > lim.maxTxQueues {
        return Error(TooManyQueues(TX));
      }
      if nRxDescs < lim.rxDescMin || nRxDescs > lim.rxDescMax {
        return Error(DescOutOfRange(RX));
      }
      if nTxDescs < lim.txDescMin || nTxDescs > lim.txDescMax {
        return Error(DescOutOfRange(TX));
      }
      r := Ok;
    }
  }

  /** After initialization every registration is refused and changes nothing. */
  lemma AfterInitNothingChanges(info: DevInfo, dir: Dir, queueId: nat, promisc: bool, nDesc: nat)
    ensures AddQueueSpec(info, true, dir, queueId, promisc, nDesc) ==
            Registration(Error(ConfiguredAfterInit), info, queueId)
  {
  }

  /**
   * Repeating a successful registration in the same direction: asking again
   * for the explicit id just obtained is refused as a shared queue, and an
   * automatic request is granted a different queue.
   */
  lemma {:induction false} RepeatedRegistration(info: DevInfo, dir: Dir, queueId: nat, promisc: bool, nDesc: nat)
    requires Consistent(info)
    requires AddQueueSpec(info, false, dir, queueId, promisc, nDesc).outcome.Ok?
    ensures var first := AddQueueSpec(info, false, dir, queueId, promisc, nDesc);
            first.queueId > 0 ==>
              AddQueueSpec(first.info, false, dir, first.queueId, promisc, nDesc).outcome == Error(SharedQueue(dir))
    ensures var first := AddQueueSpec(info, false, dir, queueId, promisc, nDesc);
            var again := AddQueueSpec(first.info, false, dir, 0, promisc, nDesc);
            again.outcome.Ok? && again.queueId != first.queueId
  {
    var first := AddQueueSpec(info, false, dir, queueId, promisc, nDesc);
    if queueId == 0 {
      AutoSlotsIncrease(info.Queues(dir));
    }
  }

  /** Every record built by registrations from a fresh device is consistent. */
  lemma RegistrationsKeepConsistent(info: DevInfo, initialized: bool, dir: Dir, queueId: nat,
                                    promisc: bool, nDesc: nat)
    requires Consistent(info)
    ensures Consistent(AddQueueSpec(info, initialized, dir, queueId, promisc, nDesc).info)
    ensures Consistent(EmptyInfo)
  {
  }
}
