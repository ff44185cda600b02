/**
 * Telemetry a node reports about itself: device-metrics samples that grow
 * its time series and local-stats messages that overwrite its counters.
 */
module Metrics {
  import opened Wrappers
  import opened Mesh
  import opened Seqs

  datatype DeviceMetrics = DeviceMetrics(channelUtilization: Option<real>, airUtilTx: Option<real>)

  datatype LocalStats = LocalStats(
    numPacketsTx: Option<int>,
    numPacketsRx: Option<int>,
    numPacketsRxBad: Option<int>,
    numRxDupe: Option<int>,
    numTxRelay: Option<int>,
    numTxRelayCanceled: Option<int>)

  /** A decoded telemetry message; each part is `None` when the message lacks it. */
  datatype Telemetry = Telemetry(time: Option<int>, deviceMetrics: Option<DeviceMetrics>, localStats: Option<LocalStats>)

  /** The three time series of a node have one entry per sample. */
  predicate SeriesAligned(n: Node)
  {
    |n.channelUtilization| == |n.timestamps| && |n.airUtilTx| == |n.timestamps|
  }

  predicate StrictlyIncreasing(s: seq<int>)
  {
    forall i, j :: 0 <= i < j < |s| ==> s[i] < s[j]
  }

  /** A device-metrics sample is kept when it carries a time newer than the last one recorded. */
  predicate TakesSample(n: Node, t: Telemetry)
  {
    t.deviceMetrics.Some? && t.time.Some? &&
    (|n.timestamps| == 0 || t.time.value > n.timestamps[|n.timestamps| - 1])
  }

  function OrElse(o: Option<int>, dflt: int): int
  {
    match o
    case Some(v) => v
    case None => dflt
  }

  function ValueOr(o: Option<real>): real
  {
    match o
    case Some(v) => v
    case None => 0.0
  }

  /** `m` equals `n` except, possibly, in its time series and counters. */
  predicate SameIdentity(m: Node, n: Node)
  {
    m == n.(timestamps := m.timestamps, channelUtilization := m.channelUtilization, airUtilTx := m.airUtilTx,
            numPacketsTx := m.numPacketsTx, numPacketsRx := m.numPacketsRx, numPacketsRxBad := m.numPacketsRxBad,
            numRxDupe := m.numRxDupe, numTxRelay := m.numTxRelay, numTxRelayCanceled := m.numTxRelayCanceled)
  }

  /** The node after it processed one of its own telemetry messages. */
  function Ingest(n: Node, t: Telemetry): (m: Node)
    ensures SameIdentity(m, n)
    ensures SeriesAligned(n) ==> SeriesAligned(m)
    ensures StrictlyIncreasing(n.timestamps) ==> StrictlyIncreasing(m.timestamps)
    ensures TakesSample(n, t) ==>
      && m.timestamps == n.timestamps + [t.time.value]
      && m.channelUtilization == n.channelUtilization + [ValueOr(t.deviceMetrics.value.channelUtilization)]
      && m.airUtilTx == n.airUtilTx + [ValueOr(t.deviceMetrics.value.airUtilTx)]
    ensures !TakesSample(n, t) ==>
      m.timestamps == n.timestamps && m.channelUtilization == n.channelUtilization && m.airUtilTx == n.airUtilTx
    ensures t.deviceMetrics.Some? || t.localStats.None? ==>
      && m.numPacketsTx == n.numPacketsTx && m.numPacketsRx == n.numPacketsRx
      && m.numPacketsRxBad == n.numPacketsRxBad && m.numRxDupe == n.numRxDupe
      && m.numTxRelay == n.numTxRelay && m.numTxRelayCanceled == n.numTxRelayCanceled
    ensures t.deviceMetrics.None? && t.localStats.Some? ==>
      var s := t.localStats.value;
      && m.numPacketsTx == OrElse(s.numPacketsTx, n.numPacketsTx)
      && m.numPacketsRx == OrElse(s.numPacketsRx, n.numPacketsRx)
      && m.numPacketsRxBad == OrElse(s.numPacketsRxBad, n.numPacketsRxBad)
      && m.numRxDupe == OrElse(s.numRxDupe, n.numRxDupe)
      && m.numTxRelay == OrElse(s.numTxRelay, n.numTxRelay)
      && m.numTxRelayCanceled == OrElse(s.numTxRelayCanceled, n.numTxRelayCanceled)
  {
    match t.deviceMetrics
    case Some(dm) =>
      if t.time.Some? && (|n.timestamps| == 0 || t.time.value > n.timestamps[|n.timestamps| - 1]) then
        n.(timestamps := n.timestamps + [t.time.value],
           channelUtilization := n.channelUtilization + [ValueOr(dm.channelUtilization)],
           airUtilTx := n.airUtilTx + [ValueOr(dm.airUtilTx)])
      else n
    case None =>
      match t.localStats
      case None => n
      case Some(s) =>
        n.(numPacketsTx := OrElse(s.numPacketsTx, n.numPacketsTx),
           numPacketsRx := OrElse(s.numPacketsRx, n.numPacketsRx),
           numPacketsRxBad := OrElse(s.numPacketsRxBad, n.numPacketsRxBad),
           numRxDupe := OrElse(s.numRxDupe, n.numRxDupe),
           numTxRelay := OrElse(s.numTxRelay, n.numTxRelay),
           numTxRelayCanceled := OrElse(s.numTxRelayCanceled, n.numTxRelayCanceled))
  }

  /**
   * Routes a telemetry message to the first node whose hardware id is its
   * sender; a message from an unknown sender changes nothing.
   */
  function OnReceiveMetrics(nodes: seq<Node>, from: int, t: Telemetry): (r: seq<Node>)
    ensures |r| == |nodes|
    ensures forall i :: 0 <= i < |nodes| && nodes[i].hwId != from ==> r[i] == nodes[i]
    ensures forall i :: (0 <= i < |nodes| && nodes[i].hwId == from &&
                         (forall j :: 0 <= j < i ==> nodes[j].hwId != from)) ==> r[i] == Ingest(nodes[i], t)
    ensures forall i :: (0 <= i < |nodes| && (exists j :: 0 <= j < i && nodes[j].hwId == from)) ==> r[i] == nodes[i]
  {
    match FirstIndex(nodes, (n: Node) => n.hwId == from)
    case None => nodes
    case Some(i) => nodes[i := Ingest(nodes[i], t)]
  }

  /** Ingesting any sequence of telemetry keeps the time series aligned and strictly increasing. */
  lemma {:induction false} IngestAllKeepsSeries(n: Node, ts: seq<Telemetry>)
    requires SeriesAligned(n) && StrictlyIncreasing(n.timestamps)
    ensures var m := IngestAll(n, ts); SeriesAligned(m) && StrictlyIncreasing(m.timestamps)
    ensures |IngestAll(n, ts).timestamps| <= |n.timestamps| + |ts|
    decreases |ts|
  {
    if |ts| > 0 {
      IngestAllKeepsSeries(Ingest(n, ts[0]), ts[1..]);
    }
  }

  function IngestAll(n: Node, ts: seq<Telemetry>): Node
    decreases |ts|
  {
    if |ts| == 0 then n else IngestAll(Ingest(n, ts[0]), ts[1..])
  }

  /** A sample no newer than the last recorded one is dropped: nothing about the node changes. */
  lemma StaleSampleDropped(n: Node, t: Telemetry)
    requires t.deviceMetrics.Some? && t.time.Some?
    requires t.time.value in n.timestamps && StrictlyIncreasing(n.timestamps)
    ensures Ingest(n, t) == n
  {
  }
}
