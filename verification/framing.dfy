/**
 * The stream framing used towards an external client: two start bytes, a
 * 16-bit big-endian length, then the serialised frame.
 */
module Framing {
  import opened Wrappers
  import opened Mesh
  import opened Relay

  const START1: Byte := 0x94
  const START2: Byte := 0xC3

  /**
   * The 4-byte header for a frame of `len` bytes: the start bytes, then
   * `(len >> 8) & 0xFF` and `len & 0xFF`.
   */
  function Header(len: nat): (h: Bytes)
    ensures |h| == 4 && h[0] == START1 && h[1] == START2
    ensures len < 0x1_0000 ==> h[2] as int * 256 + h[3] as int == len
  {
    [START1, START2, (len / 256) % 256, len % 256]
  }

  function Frame(payload: Bytes): Bytes
  {
    Header(|payload|) + payload
  }

  /** Reads one complete frame back: checks the start bytes and that the length matches. */
  function ParseFrame(f: Bytes): (r: Option<Bytes>)
    ensures r.Some? ==> |f| >= 4 && f[0] == START1 && f[1] == START2 && r.value == f[4..]
    ensures r.Some? ==> f[2] as int * 256 + f[3] as int == |r.value|
  {
    if |f| >= 4 && f[0] == START1 && f[1] == START2 && f[2] as int * 256 + f[3] as int == |f| - 4
    then Some(f[4..])
    else None
  }

  /** Every frame shorter than 64 KiB reads back as exactly its payload. */
  lemma FrameRoundTrip(payload: Bytes)
    requires |payload| < 0x1_0000
    ensures ParseFrame(Frame(payload)) == Some(payload)
  {
    var f := Frame(payload);
    assert f[4..] == payload;
  }

  /** The length field has 16 bits: a 64 KiB payload gets the header of an empty one. */
  lemma HeaderWrapsAt64KiB()
    ensures Header(0x1_0000) == Header(0)
  {
  }

  /**
   * The bytes written to the client for a packet received from a node: only
   * traffic of the node on port 4403 is mirrored, as one frame around the
   * serialised client copy. `serialize` stands for the protobuf encoder.
   */
  function OnReceiveAll(portNumber: int, p: Packet, serialize: Envelope -> Bytes): (out: Option<Bytes>)
    ensures out.Some? <==> portNumber == 4403 && CopyPacket(p).Some?
  {
    if portNumber == 4403 then
      match CopyPacket(p)
      case None => None
      case Some(e) => Some(Frame(serialize(e)))
    else None
  }

  /** What the client reads out of a mirrored frame is the serialised client copy of the packet. */
  lemma ClientReadsCopy(portNumber: int, p: Packet, serialize: Envelope -> Bytes)
    requires OnReceiveAll(portNumber, p, serialize).Some?
    requires |serialize(CopyPacket(p).value)| < 0x1_0000
    ensures ParseFrame(OnReceiveAll(portNumber, p, serialize).value) == Some(serialize(CopyPacket(p).value))
  {
    FrameRoundTrip(serialize(CopyPacket(p).value));
  }
}
