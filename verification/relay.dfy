/**
 * The two ways a packet leaves the relay: the per-receiver copies handed to
 * the node processes that hear a transmission, and the generic copy handed to
 * an external client.
 */
module Relay {
  import opened Wrappers
  import opened Mesh

  /** The port number the relay uses for its own traffic between nodes. */
  const SIMULATOR_APP: string := "SIMULATOR_APP"

  /** One `_sendToRadio` call: the envelope delivered to a receiver's connection. */
  datatype Send = Send(receiver: Node, envelope: Envelope)

  datatype RelayError = PayloadTooBig

  /** Python's `int()` of a float: truncation toward zero. */
  function TruncToInt(r: real): (i: int)
    ensures r >= 0.0 ==> i as real <= r < i as real + 1.0
    ensures r < 0.0 ==> i as real - 1.0 < r <= i as real
  {
    if r >= 0.0 then r.Floor else -((-r).Floor)
  }

  /** Truncation is not flooring: a weak negative signal rounds up, not down. */
  lemma TruncIsNotFloor()
    ensures TruncToInt(-90.5) == -90
    ensures (-90.5).Floor == -91
  {
  }

  /**
   * `e` carries the routing metadata of `p` unchanged, and each optional key
   * of `p` is set in `e` exactly when `p` has it.
   */
  predicate Carries(e: Envelope, p: Packet)
  {
    && e.to == p.to && e.from == p.from && e.id == p.id
    && e.payload == p.decoded.payload
    && e.wantAck == p.wantAck && e.hopLimit == p.hopLimit && e.hopStart == p.hopStart
    && e.viaMqtt == p.viaMqtt && e.channel == p.channel
    && e.requestId == p.decoded.requestId && e.wantResponse == p.decoded.wantResponse
  }

  /** The envelope built from `p` with port number `portnum` and no reception values. */
  function EnvelopeOf(p: Packet, portnum: string): (e: Envelope)
    ensures Carries(e, p) && e.portnum == portnum
    ensures e.rxRssi.None? && e.rxSnr.None?
  {
    Envelope(p.to, p.from, p.id, portnum, p.decoded.payload,
             p.wantAck, p.hopLimit, p.hopStart, p.viaMqtt,
             p.decoded.requestId, p.decoded.wantResponse, p.channel,
             None, None)
  }

  /**
   * Delivers a transmitted packet to each receiver, stamped with that
   * receiver's signal values. An oversized payload is refused before
   * anything is sent.
   */
  method ForwardPacket(receivers: seq<Node>, p: Packet, rssis: seq<real>, snrs: seq<real>, payloadLimit: nat)
    returns (r: Result<seq<Send>, RelayError>)
    requires |rssis| == |receivers| && |snrs| == |receivers|
    ensures r.Err? <==> |p.decoded.payload| > payloadLimit
    ensures r.Ok? ==> |r.value| == |receivers|
    ensures r.Ok? ==> forall i :: 0 <= i < |receivers| ==>
      && r.value[i].receiver == receivers[i]
      && Carries(r.value[i].envelope, p)
      && r.value[i].envelope.portnum == SIMULATOR_APP
      && r.value[i].envelope.rxRssi == Some(TruncToInt(rssis[i]))
      && r.value[i].envelope.rxSnr == Some(snrs[i])
  {
    if |p.decoded.payload| > payloadLimit {
      return Err(PayloadTooBig);
    }
    var base := EnvelopeOf(p, SIMULATOR_APP);
    var sends: seq<Send> := [];
    var i := 0;
    while i < |receivers|
      invariant 0 <= i <= |receivers|
      invariant |sends| == i
      invariant forall k :: 0 <= k < i ==>
        sends[k] == Send(receivers[k], base.(rxRssi := Some(TruncToInt(rssis[k])), rxSnr := Some(snrs[k])))
    {
      var copy := base.(rxRssi := Some(TruncToInt(rssis[i])), rxSnr := Some(snrs[i]));
      sends := sends + [Send(receivers[i], copy)];
      i := i + 1;
    }
    return Ok(sends);
  }

  /**
   * The copy of a node's packet offered to the external client; `None` for
   * the relay's own traffic, which the client must not see twice.
   */
  function CopyPacket(p: Packet): (r: Option<Envelope>)
    ensures r.None? <==> p.simulatorKey || p.decoded.portnum == SIMULATOR_APP
    ensures r.Some? ==> Carries(r.value, p) && r.value.portnum == p.decoded.portnum
    ensures r.Some? ==> r.value.rxRssi.None? && r.value.rxSnr.None?
  {
    if p.simulatorKey || p.decoded.portnum == SIMULATOR_APP then None
    else Some(EnvelopeOf(p, p.decoded.portnum))
  }

  /** The client copy and a relayed copy differ only in port number and reception values. */
  lemma CopyMatchesRelayedCopy(p: Packet)
    requires CopyPacket(p).Some?
    ensures CopyPacket(p).value ==
      EnvelopeOf(p, SIMULATOR_APP).(portnum := p.decoded.portnum, rxRssi := None, rxSnr := None)
  {
  }
}
