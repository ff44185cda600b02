/**
 * The link budget between two simulated nodes and the receiver selection the
 * relay performs for every transmission.
 */
module LinkBudget {
  import opened Wrappers
  import opened Mesh
  import opened Seqs

  /**
   * Session radio constants: transmit power, noise level, the sensitivity of
   * the selected modem preset and the carrier frequency.
   */
  datatype Radio = Radio(ptx: real, noiseLevel: real, sensitivity: real, freq: real)

  /**
   * The physical-layer helpers of the simulator, kept uninterpreted: the 3-D
   * distance `(x1, x2, y1, y2, z1, z2)` and the path-loss estimate
   * `(distance, frequency, txHeight, rxHeight)`.
   */
  datatype Phy = Phy(
    calcDist: (real, real, real, real, real, real) -> real,
    estimatePathLoss: (real, real, real, real) -> real)

  function PathLoss(phy: Phy, radio: Radio, tx: Node, rx: Node): real
  {
    phy.estimatePathLoss(phy.calcDist(tx.x, rx.x, tx.y, rx.y, tx.z, rx.z), radio.freq, tx.z, rx.z)
  }

  /** Received signal strength of `tx`'s transmission at `rx`, in dBm. */
  function Rssi(phy: Phy, radio: Radio, tx: Node, rx: Node): real
  {
    radio.ptx + tx.antennaGain + rx.antennaGain - PathLoss(phy, radio, tx, rx)
  }

  function Snr(phy: Phy, radio: Radio, tx: Node, rx: Node): real
  {
    Rssi(phy, radio, tx, rx) - radio.noiseLevel
  }

  /** `rx` can decode `tx` when the signal reaches the modem's sensitivity. */
  predicate Delivered(phy: Phy, radio: Radio, tx: Node, rx: Node)
  {
    Rssi(phy, radio, tx, rx) >= radio.sensitivity
  }

  /** `Delivered` as a test on the receiver alone. */
  function ReachedBy(phy: Phy, radio: Radio, tx: Node): Node -> bool
  {
    (rx: Node) => Delivered(phy, radio, tx, rx)
  }

  /** Reference definition of the receivers of a transmission: the qualifying candidates, in order. */
  function Qualifying(phy: Phy, radio: Radio, tx: Node, candidates: seq<Node>): seq<Node>
  {
    Filter(candidates, ReachedBy(phy, radio, tx))
  }

  /** The candidates the relay offers a transmission to: every node but the transmitter. */
  function OtherNodes(nodes: seq<Node>, tx: Node): (others: seq<Node>)
    ensures forall k :: 0 <= k < |others| ==> others[k].nodeId != tx.nodeId && others[k] in nodes
    ensures forall j :: 0 <= j < |nodes| && nodes[j].nodeId != tx.nodeId ==> nodes[j] in others
  {
    Filter(nodes, (n: Node) => n.nodeId != tx.nodeId)
  }

  /**
   * Walks the candidates once and keeps, in order, those whose RSSI reaches
   * the sensitivity, together with their RSSI and SNR.
   */
  method CalcReceivers(phy: Phy, radio: Radio, tx: Node, receivers: seq<Node>)
    returns (rxs: seq<Node>, rssis: seq<real>, snrs: seq<real>)
    ensures |rssis| == |rxs| && |snrs| == |rxs|
    ensures rxs == Qualifying(phy, radio, tx, receivers)
    ensures forall k :: 0 <= k < |rxs| ==> rssis[k] == Rssi(phy, radio, tx, rxs[k]) && rssis[k] >= radio.sensitivity
    ensures forall k :: 0 <= k < |rxs| ==> snrs[k] == rssis[k] - radio.noiseLevel
  {
    rxs, rssis, snrs := [], [], [];
    var i := 0;
    while i < |receivers|
      invariant 0 <= i <= |receivers|
      invariant |rssis| == |rxs| && |snrs| == |rxs|
      invariant rxs == Qualifying(phy, radio, tx, receivers[..i])
      invariant forall k :: 0 <= k < |rxs| ==> rssis[k] == Rssi(phy, radio, tx, rxs[k]) && rssis[k] >= radio.sensitivity
      invariant forall k :: 0 <= k < |rxs| ==> snrs[k] == rssis[k] - radio.noiseLevel
    {
      var rx := receivers[i];
      FilterSnoc(receivers, i, ReachedBy(phy, radio, tx));
      var rssi := radio.ptx + tx.antennaGain + rx.antennaGain - PathLoss(phy, radio, tx, rx);
      var snr := rssi - radio.noiseLevel;
      assert ReachedBy(phy, radio, tx)(rx) <==> rssi >= radio.sensitivity;
      if rssi >= radio.sensitivity {
        rxs := rxs + [rx];
        rssis := rssis + [rssi];
        snrs := snrs + [snr];
      }
      i := i + 1;
    }
    assert receivers[..i] == receivers;
  }

  /**
   * The receiver list keeps exactly the candidates that qualify: every kept
   * node reaches the sensitivity, every dropped one falls short, and the
   * kept ones appear in candidate order.
   */
  lemma QualifyingIsExactSelection(phy: Phy, radio: Radio, tx: Node, candidates: seq<Node>)
    ensures var rxs, idx := Qualifying(phy, radio, tx, candidates),
                            FilterIndices(candidates, ReachedBy(phy, radio, tx));
      && |idx| == |rxs|
      && (forall k :: 0 <= k < |rxs| ==> idx[k] < |candidates| && rxs[k] == candidates[idx[k]])
      && (forall k, l :: 0 <= k < l < |idx| ==> idx[k] < idx[l])
      && (forall j :: 0 <= j < |candidates| && j !in idx ==>
            Rssi(phy, radio, tx, candidates[j]) < radio.sensitivity)
      && (forall k :: 0 <= k < |rxs| ==> Rssi(phy, radio, tx, rxs[k]) >= radio.sensitivity)
  {
    FilterIsSelection(candidates, ReachedBy(phy, radio, tx));
  }

  /**
   * Each direction of a link is computed from its own transmitter and
   * receiver: when the path-loss estimate depends on which end is higher,
   * `a` can reach `b` while `b` cannot reach `a`.
   */
  lemma AsymmetricLink()
    ensures var phy := Phy((x1: real, x2: real, y1: real, y2: real, z1: real, z2: real) => 0.0,
                           (d: real, f: real, hTx: real, hRx: real) => if hTx > hRx then 100.0 else 130.0);
            var radio := Radio(20.0, -120.0, -100.0, 868.0);
            var a := Node(0, 16, 4403, 0.0, 0.0, 10.0, false, false, false, 3, 0.0, false,
                          None, [], [], [], 0, 0, 0, 0, 0, 0);
            var b := a.(nodeId := 1, hwId := 17, tcpPort := 4404, z := 1.0);
            Delivered(phy, radio, a, b) && !Delivered(phy, radio, b, a)
  {
  }
}
