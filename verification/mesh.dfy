/**
 * The records the relay works on: the simulated nodes, the packet dictionaries
 * delivered by the node processes, and the constants of the harness.
 */
module Mesh {
  import opened Wrappers

  /** Hardware id of node `n` is `n + HW_ID_OFFSET`. */
  const HW_ID_OFFSET: int := 16
  /** TCP port of node `n` is `n + TCP_PORT_OFFSET`. */
  const TCP_PORT_OFFSET: int := 4403
  /** The mesh library's broadcast destination address. */
  const BROADCAST_NUM: int := 0xFFFF_FFFF
  /** The hop limit node firmware uses unless configured otherwise. */
  const DEFAULT_HOP_LIMIT: int := 3

  type Byte = x: int | 0 <= x < 256
  type Bytes = seq<Byte>

  /** An opaque handle to the TCP interface of a node process. */
  type Iface = nat

  /**
   * One simulated node: identity, radio parameters, role flags, the
   * connection handle (Python `None` before connecting) and the telemetry it
   * reported.
   */
  datatype Node = Node(
    nodeId: int,
    hwId: int,
    tcpPort: int,
    x: real, y: real, z: real,
    isRouter: bool,
    isRepeater: bool,
    isClientMute: bool,
    hopLimit: int,
    antennaGain: real,
    neighborInfo: bool,
    iface: Option<Iface>,
    timestamps: seq<int>,
    channelUtilization: seq<real>,
    airUtilTx: seq<real>,
    numPacketsTx: int,
    numPacketsRx: int,
    numPacketsRxBad: int,
    numRxDupe: int,
    numTxRelay: int,
    numTxRelayCanceled: int)

  /** The `decoded.simulator` sub-dictionary of a relayed packet. */
  datatype SimulatorInfo = SimulatorInfo(portnum: string)

  /** The `decoded` sub-dictionary of a packet. */
  datatype Decoded = Decoded(
    portnum: string,
    payload: Bytes,
    requestId: Option<int>,
    wantResponse: Option<bool>,
    simulator: Option<SimulatorInfo>)

  /**
   * A packet as the mesh library hands it to a subscriber: the mandatory
   * routing fields plus the optional keys, each `None` when the dictionary
   * lacks it. `simulatorKey` says whether the dictionary has a top-level
   * `simulator` key.
   */
  datatype Packet = Packet(
    to: int,
    from: int,
    id: int,
    decoded: Decoded,
    priority: Option<string>,
    wantAck: Option<bool>,
    hopLimit: Option<int>,
    hopStart: Option<int>,
    viaMqtt: Option<bool>,
    channel: Option<int>,
    simulatorKey: bool)

  /**
   * A `MeshPacket` envelope as built for a node or for the client: the fields
   * the relay sets, each optional one `None` when it was left unset.
   */
  datatype Envelope = Envelope(
    to: int,
    from: int,
    id: int,
    portnum: string,
    payload: Bytes,
    wantAck: Option<bool>,
    hopLimit: Option<int>,
    hopStart: Option<int>,
    viaMqtt: Option<bool>,
    requestId: Option<int>,
    wantResponse: Option<bool>,
    channel: Option<int>,
    rxRssi: Option<int>,
    rxSnr: Option<real>)
}
