/**
 * The relationship label a route diagnostic gives to one logged copy of a
 * packet, seen on the hop from transmitter `tx` to receiver `rx`.
 */
module Relationship {
  import opened Wrappers
  import opened Mesh
  import opened Seqs

  datatype Label =
    | OriginalMessage
    | RealAck
    | Response
    | ForwardingRealAck
    | ForwardingResponse
    | ImplicitAck
    | Rebroadcast
    | ForwardingMessage

  /**
   * The label of `p` on the hop `tx -> rx`. `None` stands for the lookup
   * error the diagnostic raises when a key it reads is missing: `priority`
   * for a response sent by the transmitter itself, `decoded.simulator` for a
   * forwarded response.
   */
  function Classify(p: Packet, tx: Node, rx: Node): Option<Label>
  {
    if p.from == tx.hwId then
      if p.decoded.requestId.Some? then
        match p.priority
        case None => None
        case Some(prio) => Some(if prio == "ACK" then RealAck else Response)
      else Some(OriginalMessage)
    else if p.decoded.requestId.Some? then
      match p.decoded.simulator
      case None => None
      case Some(sim) => Some(if sim.portnum == "ROUTING_APP" then ForwardingRealAck else ForwardingResponse)
    else if p.from == rx.hwId then Some(ImplicitAck)
    else if p.to == BROADCAST_NUM then Some(Rebroadcast)
    else Some(ForwardingMessage)
  }

  /** The keys the classification reads are present. */
  predicate HasKeys(p: Packet, tx: Node)
  {
    && (p.from == tx.hwId && p.decoded.requestId.Some? ==> p.priority.Some?)
    && (p.from != tx.hwId && p.decoded.requestId.Some? ==> p.decoded.simulator.Some?)
  }

  /** The facts about a packet copy that decide its label. */
  datatype Facts = Facts(
    fromTx: bool, hasRequest: bool, ackPriority: bool,
    routingApp: bool, fromRx: bool, toBroadcast: bool)

  function FactsOf(p: Packet, tx: Node, rx: Node): Facts
  {
    Facts(
      p.from == tx.hwId,
      p.decoded.requestId.Some?,
      p.priority == Some("ACK"),
      p.decoded.simulator == Some(SimulatorInfo("ROUTING_APP")),
      p.from == rx.hwId,
      p.to == BROADCAST_NUM)
  }

  /** One row of the decision table: a condition on the facts and the label it gives. */
  datatype Row = Row(holds: Facts -> bool, gives: Label)

  /** The decision table, read top to bottom; the first row that holds decides. */
  function Table(): seq<Row>
  {
    [ Row((f: Facts) => f.fromTx && !f.hasRequest, OriginalMessage),
      Row((f: Facts) => f.fromTx && f.hasRequest && f.ackPriority, RealAck),
      Row((f: Facts) => f.fromTx && f.hasRequest, Response),
      Row((f: Facts) => f.hasRequest && f.routingApp, ForwardingRealAck),
      Row((f: Facts) => f.hasRequest, ForwardingResponse),
      Row((f: Facts) => f.fromRx, ImplicitAck),
      Row((f: Facts) => f.toBroadcast, Rebroadcast),
      Row((f: Facts) => true, ForwardingMessage) ]
  }

  /** The label of the first table row that holds for `f`. */
  function TableLabel(f: Facts): Label
  {
    match FirstIndex(Table(), (r: Row) => r.holds(f))
    case Some(k) => Table()[k].gives
    case None => ForwardingMessage
  }

  /** The classification fails exactly when a key it reads is missing. */
  lemma ClassifyTotal(p: Packet, tx: Node, rx: Node)
    ensures Classify(p, tx, rx).Some? <==> HasKeys(p, tx)
  {
  }

  /** Whenever it succeeds, the classification is the label the decision table gives. */
  lemma ClassifyFollowsTable(p: Packet, tx: Node, rx: Node)
    requires HasKeys(p, tx)
    ensures Classify(p, tx, rx) == Some(TableLabel(FactsOf(p, tx, rx)))
  {
    var f := FactsOf(p, tx, rx);
    var t := Table();
    var k: nat :=
      if f.fromTx && !f.hasRequest then 0
      else if f.fromTx && f.hasRequest && f.ackPriority then 1
      else if f.fromTx && f.hasRequest then 2
      else if f.hasRequest && f.routingApp then 3
      else if f.hasRequest then 4
      else if f.fromRx then 5
      else if f.toBroadcast then 6
      else 7;
    assert t[k].holds(f);
    assert forall j :: 0 <= j < k ==> !t[j].holds(f);
    FirstIndexUnique(t, (r: Row) => r.holds(f), k);
  }

  /** A copy seen on a hop away from its sender that echoes the receiver's own packet is an implicit ACK, and only then. */
  lemma ImplicitAckExactly(p: Packet, tx: Node, rx: Node)
    ensures Classify(p, tx, rx) == Some(ImplicitAck) <==>
      p.from != tx.hwId && p.decoded.requestId.None? && p.from == rx.hwId
  {
  }
}
