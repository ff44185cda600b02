/**
 * The relay's handler for a packet a node process put on the air: log it
 * under a logical message id, work out who hears it, and deliver a copy to
 * each of them.
 */
module Sim {
  import opened Wrappers
  import opened Mesh
  import opened Addressing
  import opened LinkBudget
  import opened Correlator
  import opened Relay

  /** The session: the nodes, the packet log, and the packets drawn on the route plot. */
  datatype Session = Session(nodes: seq<Node>, log: State, plotted: seq<Logged>)

  /** What handling one packet produced: the new session, the deliveries made, and the error raised if any. */
  datatype Outcome = Outcome(session: Session, sends: seq<Send>, error: Option<RelayError>)

  /** Every delivery goes to a node that hears `tx`, tagged as simulated radio traffic, stamped with that link's signal values, carrying `p`. */
  ghost predicate DeliversTo(sends: seq<Send>, phy: Phy, radio: Radio, tx: Node, rxs: seq<Node>, p: Packet)
  {
    && |sends| == |rxs|
    && forall k :: 0 <= k < |sends| ==>
         && sends[k].receiver == rxs[k]
         && sends[k].envelope.rxRssi == Some(TruncToInt(Rssi(phy, radio, tx, rxs[k])))
         && sends[k].envelope.rxSnr == Some(Snr(phy, radio, tx, rxs[k]))
         && sends[k].envelope.portnum == SIMULATOR_APP
         && Carries(sends[k].envelope, p)
  }

  /**
   * The relay step for a known transmitter: select the receivers among the
   * other nodes and deliver a copy to each, or refuse an oversized payload.
   */
  method RelayTransmission(nodes: seq<Node>, tx: Node, p: Packet, phy: Phy, radio: Radio, payloadLimit: nat)
    returns (route: Route, sent: Result<seq<Send>, RelayError>)
    ensures route.transmitter == tx
    ensures route.receivers == Qualifying(phy, radio, tx, OtherNodes(nodes, tx))
    ensures |route.rssis| == |route.receivers| && |route.snrs| == |route.receivers|
    ensures forall k :: 0 <= k < |route.receivers| ==>
      && route.receivers[k].nodeId != tx.nodeId
      && Delivered(phy, radio, tx, route.receivers[k])
      && route.rssis[k] == Rssi(phy, radio, tx, route.receivers[k])
      && route.snrs[k] == Snr(phy, radio, tx, route.receivers[k])
    ensures sent.Err? <==> |p.decoded.payload| > payloadLimit
    ensures sent.Ok? ==> DeliversTo(sent.value, phy, radio, tx, route.receivers, p)
  {
    var candidates := OtherNodes(nodes, tx);
    var rxs, rssis, snrs := CalcReceivers(phy, radio, tx, candidates);
    forall k | 0 <= k < |rxs|
      ensures rxs[k].nodeId != tx.nodeId
    {
      assert rxs[k] in candidates;
    }
    route := Route(tx, rxs, rssis, snrs);
    sent := ForwardPacket(rxs, p, rssis, snrs, payloadLimit);
  }

  /**
   * Handles packet `p` received from the node connected on `portNumber`.
   * The packet is always logged; when the port belongs to a known node, the
   * route is attached to the log entry and the copies are delivered, unless
   * the payload is too big, in which case nothing is delivered and the error
   * propagates before the packet is plotted.
   */
  method OnReceive(s: Session, portNumber: int, p: Packet, phy: Phy, radio: Radio, payloadLimit: nat)
    returns (o: Outcome)
    ensures var step := Correlate(s.log, p);
      && o.session.nodes == s.nodes
      && o.session.log.messageId == step.state.messageId
      && |o.session.log.messages| == |s.log.messages| + 1
      && o.session.log.messages[..|s.log.messages|] == s.log.messages
      && o.session.log.messages[|s.log.messages|].packet == p
      && o.session.log.messages[|s.log.messages|].localId == step.localId
    ensures Valid(s.log) ==> Valid(o.session.log)
    ensures FindByPort(s.nodes, portNumber).None? ==>
      o.sends == [] && o.error.None? && o.session.plotted == s.plotted &&
      o.session.log.messages[|s.log.messages|].route.None?
    ensures FindByPort(s.nodes, portNumber).Some? ==>
      var tx := s.nodes[FindByPort(s.nodes, portNumber).value];
      var route := o.session.log.messages[|s.log.messages|].route;
      && route.Some? && route.value.transmitter == tx
      && route.value.receivers == Qualifying(phy, radio, tx, OtherNodes(s.nodes, tx))
      && |route.value.rssis| == |route.value.receivers| && |route.value.snrs| == |route.value.receivers|
      && forall k :: 0 <= k < |route.value.receivers| ==>
           && route.value.rssis[k] == Rssi(phy, radio, tx, route.value.receivers[k])
           && route.value.snrs[k] == Snr(phy, radio, tx, route.value.receivers[k])
    ensures o.error.Some? <==> FindByPort(s.nodes, portNumber).Some? && |p.decoded.payload| > payloadLimit
    ensures o.error.Some? ==> o.sends == [] && o.session.plotted == s.plotted
    ensures FindByPort(s.nodes, portNumber).Some? && o.error.None? ==>
      var tx := s.nodes[FindByPort(s.nodes, portNumber).value];
      && o.session.plotted == s.plotted + [o.session.log.messages[|s.log.messages|]]
      && DeliversTo(o.sends, phy, radio, tx, Qualifying(phy, radio, tx, OtherNodes(s.nodes, tx)), p)
  {
    var step := Correlate(s.log, p);
    var log := step.state;
    var n := |s.log.messages|;
    if Valid(s.log) {
      CorrelatePreservesValid(s.log, p);
    }
    match FindByPort(s.nodes, portNumber) {
      case None =>
        return Outcome(Session(s.nodes, log, s.plotted), [], None);
      case Some(t) =>
        var route, sent := RelayTransmission(s.nodes, s.nodes[t], p, phy, radio, payloadLimit);
        var entry := log.messages[n].(route := Some(route));
        var logged := State(log.messages[n := entry], log.messageId);
        assert logged.messages[..n] == s.log.messages;
        if Valid(s.log) {
          ValidIgnoresRoutes(log, logged);
        }
        match sent {
          case Err(e) =>
            return Outcome(Session(s.nodes, logged, s.plotted), [], Some(e));
          case Ok(sends) =>
            return Outcome(Session(s.nodes, logged, s.plotted + [entry]), sends, None);
        }
    }
  }
}
