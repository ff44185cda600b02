/**
 * Node identity: node index to hardware id and TCP port, node construction,
 * lookups by hardware id and TCP port, and the `!xxxxxxxx` destination string.
 */
module Addressing {
  import opened Wrappers
  import opened Mesh
  import opened Seqs

  function NodeIdToHwId(id: int): int
  {
    id + HW_ID_OFFSET
  }

  function TcpPortOf(id: int): int
  {
    id + TCP_PORT_OFFSET
  }

  /** A node's entry in a scenario file. */
  datatype NodeSetup = NodeSetup(
    x: real, y: real, z: real,
    isRouter: bool, isRepeater: bool, isClientMute: bool,
    hopLimit: int, antennaGain: real, neighborInfo: bool)

  /**
   * The global defaults used for a node without a scenario entry; `x`/`y` is
   * the random position drawn for it.
   */
  datatype Defaults = Defaults(x: real, y: real, height: real, router: bool, hopLimit: int, gain: real)

  /** A freshly constructed node: not connected, no telemetry, all counters zero. */
  function NewNode(nodeId: int, hwId: int, port: int, setup: Option<NodeSetup>, dflt: Defaults): (n: Node)
    ensures n.nodeId == nodeId && n.hwId == hwId && n.tcpPort == port
    ensures n.iface.None? && n.timestamps == [] && n.channelUtilization == [] && n.airUtilTx == []
    ensures n.numPacketsTx == 0 && n.numPacketsRx == 0 && n.numPacketsRxBad == 0
    ensures n.numRxDupe == 0 && n.numTxRelay == 0 && n.numTxRelayCanceled == 0
    ensures setup.Some? ==>
      && n.x == setup.value.x && n.y == setup.value.y && n.z == setup.value.z
      && n.isRouter == setup.value.isRouter && n.isRepeater == setup.value.isRepeater
      && n.isClientMute == setup.value.isClientMute && n.neighborInfo == setup.value.neighborInfo
      && n.hopLimit == setup.value.hopLimit && n.antennaGain == setup.value.antennaGain
    ensures setup.None? ==>
      && n.x == dflt.x && n.y == dflt.y && n.z == dflt.height
      && n.isRouter == dflt.router && !n.isRepeater && !n.isClientMute && !n.neighborInfo
      && n.hopLimit == dflt.hopLimit && n.antennaGain == dflt.gain
  {
    match setup
    case Some(c) =>
      Node(nodeId, hwId, port, c.x, c.y, c.z, c.isRouter, c.isRepeater, c.isClientMute,
           c.hopLimit, c.antennaGain, c.neighborInfo, None, [], [], [], 0, 0, 0, 0, 0, 0)
    case None =>
      Node(nodeId, hwId, port, dflt.x, dflt.y, dflt.height, dflt.router, false, false,
           dflt.hopLimit, dflt.gain, false, None, [], [], [], 0, 0, 0, 0, 0, 0)
  }

  /** The node list of a session: node `n` is built from entry `n`. */
  function InitNodes(setups: seq<Option<NodeSetup>>, dflts: seq<Defaults>): (nodes: seq<Node>)
    requires |dflts| == |setups|
    ensures |nodes| == |setups|
    ensures forall i :: 0 <= i < |nodes| ==>
      nodes[i].nodeId == i && nodes[i].hwId == NodeIdToHwId(i) && nodes[i].tcpPort == TcpPortOf(i)
    ensures forall i :: 0 <= i < |nodes| ==> nodes[i].iface.None?
    ensures forall i :: 0 <= i < |nodes| ==>
      nodes[i] == NewNode(i, NodeIdToHwId(i), TcpPortOf(i), setups[i], dflts[i])
  {
    seq(|setups|, i requires 0 <= i < |setups| =>
      NewNode(i, NodeIdToHwId(i), TcpPortOf(i), setups[i], dflts[i]))
  }

  /** The node list as the harness builds it (before any removal). */
  ghost predicate WellNumbered(nodes: seq<Node>)
  {
    forall i :: 0 <= i < |nodes| ==>
      nodes[i].nodeId == i && nodes[i].hwId == NodeIdToHwId(i) && nodes[i].tcpPort == TcpPortOf(i)
  }

  /** Position of the first node with hardware id `hwId`. */
  function FindByHwId(nodes: seq<Node>, hwId: int): Option<nat>
  {
    FirstIndex(nodes, (n: Node) => n.hwId == hwId)
  }

  /** Position of the first node listening on TCP port `port`. */
  function FindByPort(nodes: seq<Node>, port: int): Option<nat>
  {
    FirstIndex(nodes, (n: Node) => n.tcpPort == port)
  }

  /**
   * The interface of the first node whose hardware id belongs to node id `id`;
   * `None` when there is no such node or it is not connected.
   */
  function GetNodeIfaceById(nodes: seq<Node>, id: int): (r: Option<Iface>)
    ensures r.Some? ==> exists i :: 0 <= i < |nodes| && nodes[i].hwId == NodeIdToHwId(id) && nodes[i].iface == r
    ensures forall i :: (0 <= i < |nodes| && nodes[i].hwId == NodeIdToHwId(id) &&
                        (forall j :: 0 <= j < i ==> nodes[j].hwId != NodeIdToHwId(id))) ==> r == nodes[i].iface
    ensures (forall i :: 0 <= i < |nodes| ==> nodes[i].hwId != NodeIdToHwId(id)) ==> r.None?
  {
    match FindByHwId(nodes, NodeIdToHwId(id))
    case None => None
    case Some(i) => nodes[i].iface
  }

  /** In a freshly numbered node list, node id `id` is found exactly at position `id`. */
  lemma FindInNumbered(nodes: seq<Node>, id: int)
    requires WellNumbered(nodes)
    ensures 0 <= id < |nodes| ==> FindByHwId(nodes, NodeIdToHwId(id)) == Some(id)
    ensures !(0 <= id < |nodes|) ==> FindByHwId(nodes, NodeIdToHwId(id)).None?
    ensures 0 <= id < |nodes| ==> FindByPort(nodes, TcpPortOf(id)) == Some(id)
  {
    if 0 <= id < |nodes| {
      assert nodes[id].hwId == NodeIdToHwId(id);
      assert nodes[id].tcpPort == TcpPortOf(id);
    }
  }

  // ---------------------------------------------------------------------
  // Hexadecimal strings and the `!xxxxxxxx` destination form
  // ---------------------------------------------------------------------

  function HexChar(d: nat): char
    requires d < 16
  {
    "0123456789abcdef"[d]
  }

  predicate IsHexChar(c: char)
  {
    '0' <= c <= '9' || 'a' <= c <= 'f'
  }

  function HexCharValue(c: char): (d: nat)
    requires IsHexChar(c)
    ensures d < 16
  {
    if '0' <= c <= '9' then (c - '0') as nat else (c - 'a') as nat + 10
  }

  /** Lower-case hexadecimal digits of `n` without leading zeros (`"0"` for zero). */
  function HexDigits(n: nat): (s: string)
    ensures |s| >= 1
    ensures forall k :: 0 <= k < |s| ==> IsHexChar(s[k])
    ensures n > 0 ==> s[0] != '0'
    ensures s[|s| - 1] == HexChar(n % 16)
    decreases n
  {
    if n < 16 then [HexChar(n)] else HexDigits(n / 16) + [HexChar(n % 16)]
  }

  /** The value of a string of hexadecimal digits (most significant first). */
  function HexValue(s: string): nat
    requires forall k :: 0 <= k < |s| ==> IsHexChar(s[k])
  {
    if |s| == 0 then 0 else HexValue(s[..|s| - 1]) * 16 + HexCharValue(s[|s| - 1])
  }

  lemma {:induction false} HexCharRoundTrip(d: nat)
    requires d < 16
    ensures HexCharValue(HexChar(d)) == d
  {
    assert "0123456789abcdef"[d] as int - '0' as int == d || "0123456789abcdef"[d] as int - 'a' as int + 10 == d;
  }

  /** Reading back the digits of `n` gives `n`. */
  lemma {:induction false} HexRoundTrip(n: nat)
    ensures HexValue(HexDigits(n)) == n
    decreases n
  {
    var s := HexDigits(n);
    HexCharRoundTrip(n % 16);
    if n >= 16 {
      HexRoundTrip(n / 16);
      assert s[..|s| - 1] == HexDigits(n / 16);
    }
  }

  function Pow16(k: nat): nat
  {
    if k == 0 then 1 else 16 * Pow16(k - 1)
  }

  /** A value below 16^k has at most k digits. */
  lemma {:induction false} HexDigitsLength(n: nat, k: nat)
    requires 1 <= k && n < Pow16(k)
    ensures |HexDigits(n)| <= k
    decreases k
  {
    if n >= 16 {
      assert k >= 2;
      HexDigitsLength(n / 16, k - 1);
    }
  }

  /** `c` repeated `k` times; no characters when `k <= 0`, as Python's `c * k`. */
  function Repeat(c: char, k: int): (s: string)
    ensures |s| == if k <= 0 then 0 else k
    ensures forall j :: 0 <= j < |s| ==> s[j] == c
    decreases k
  {
    if k <= 0 then [] else [c] + Repeat(c, k - 1)
  }

  /** Python's `hex(n)`. */
  function PyHex(n: int): string
  {
    if n < 0 then "-0x" + HexDigits(-n) else "0x" + HexDigits(n)
  }

  /** Number of leading characters of `s` that belong to `cs`. */
  function LeadIn(s: string, cs: set<char>): (k: nat)
    ensures k <= |s|
    ensures forall j :: 0 <= j < k ==> s[j] in cs
    ensures k < |s| ==> s[k] !in cs
  {
    if |s| == 0 || s[0] !in cs then 0 else 1 + LeadIn(s[1..], cs)
  }

  /** Number of trailing characters of `s` that belong to `cs`. */
  function TrailIn(s: string, cs: set<char>): (k: nat)
    ensures k <= |s|
    ensures forall j :: |s| - k <= j < |s| ==> s[j] in cs
    ensures k < |s| ==> s[|s| - k - 1] !in cs
  {
    if |s| == 0 || s[|s| - 1] !in cs then 0 else 1 + TrailIn(s[..|s| - 1], cs)
  }

  /**
   * Python's `s.strip(chars)`: every character of `chars` is removed from
   * both ends, whatever order they come in.
   */
  function Strip(s: string, cs: set<char>): (r: string)
    ensures exists i, j :: (0 <= i <= j <= |s| && r == s[i..j] &&
                            (forall k :: 0 <= k < i ==> s[k] in cs) && (forall k :: j <= k < |s| ==> s[k] in cs))
    ensures |r| > 0 ==> r[0] !in cs && r[|r| - 1] !in cs
  {
    var i := LeadIn(s, cs);
    var t := s[i..];
    var j := TrailIn(t, cs);
    assert forall k :: i + |t| - j <= k < |s| ==> s[k] == t[k - i];
    s[i..i + |t| - j]
  }

  /** `nodeIdToDest` as written: `'!'` + zero padding to 8 + `hex(hwId).strip('0x')`. */
  function NodeIdToDest(id: int): string
  {
    var v := Strip(PyHex(NodeIdToHwId(id)), {'0', 'x'});
    "!" + Repeat('0', 8 - |v|) + v
  }

  /**
   * The destination form the mesh library uses for node number `hwId`:
   * `'!'` + eight lower-case hex digits of the 32-bit node number.
   */
  function NodeIdToDestIntended(id: int): (d: string)
    ensures |d| == 9 && d[0] == '!'
    ensures forall k :: 1 <= k < |d| ==> IsHexChar(d[k])
  {
    var n := NodeIdToHwId(id) % 0x1_0000_0000;
    var h := HexDigits(n);
    assert Pow16(8) == 0x1_0000_0000;
    HexDigitsLength(n, 8);
    "!" + Repeat('0', 8 - |h|) + h
  }

  /** Reads a `!xxxxxxxx` destination back to a node number. */
  function ParseDest(d: string): Option<nat>
  {
    if |d| >= 2 && d[0] == '!' && forall k :: 1 <= k < |d| ==> IsHexChar(d[k])
    then Some(HexValue(d[1..]))
    else None
  }

  lemma {:induction false} HexValueZeroPrefix(k: nat, h: string)
    requires forall j :: 0 <= j < |h| ==> IsHexChar(h[j])
    ensures forall j :: 0 <= j < |Repeat('0', k) + h| ==> IsHexChar((Repeat('0', k) + h)[j])
    ensures HexValue(Repeat('0', k) + h) == HexValue(h)
    decreases |h|
  {
    var z := Repeat('0', k);
    if |h| == 0 {
      assert z + h == z;
      HexValueZeros(k);
    } else {
      var s := z + h;
      assert s[..|s| - 1] == z + h[..|h| - 1];
      assert s[|s| - 1] == h[|h| - 1];
      HexValueZeroPrefix(k, h[..|h| - 1]);
    }
  }

  lemma {:induction false} HexValueZeros(k: nat)
    ensures forall j :: 0 <= j < |Repeat('0', k)| ==> IsHexChar(Repeat('0', k)[j])
    ensures HexValue(Repeat('0', k)) == 0
    decreases k
  {
    if k > 0 {
      var z := Repeat('0', k);
      assert z[..|z| - 1] == Repeat('0', k - 1);
      HexValueZeros(k - 1);
    }
  }

  /** The intended destination string names exactly the 32-bit node number of `id`. */
  lemma DestIntendedRoundTrip(id: int)
    ensures ParseDest(NodeIdToDestIntended(id)) == Some(NodeIdToHwId(id) % 0x1_0000_0000)
  {
    var n := NodeIdToHwId(id) % 0x1_0000_0000;
    var h := HexDigits(n);
    var d := NodeIdToDestIntended(id);
    assert d[1..] == Repeat('0', 8 - |h|) + h;
    HexValueZeroPrefix(if 8 - |h| <= 0 then 0 else 8 - |h|, h);
    HexRoundTrip(n);
  }

  lemma StripOfHex16()
    ensures Strip(PyHex(16), {'0', 'x'}) == "1"
  {
    assert HexDigits(1) == "1";
    assert HexDigits(16) == "10";
    var s := PyHex(16);
    assert s == "0x10";
    assert s[1..] == "x10" && s[2..] == "10";
    assert LeadIn(s[2..], {'0', 'x'}) == 0;
    assert LeadIn(s, {'0', 'x'}) == 2;
    var t: string := "10";
    assert t[..1] == "1";
    assert TrailIn(t[..1], {'0', 'x'}) == 0;
    assert TrailIn(t, {'0', 'x'}) == 1;
  }

  lemma Repeat7()
    ensures Repeat('0', 7) == "0000000"
  {
    assert Repeat('0', 0) == "";
    assert Repeat('0', 1) == "0";
    assert Repeat('0', 2) == "00";
    assert Repeat('0', 3) == "000";
    assert Repeat('0', 4) == "0000";
    assert Repeat('0', 5) == "00000";
    assert Repeat('0', 6) == "000000";
  }

  lemma DestOfNodeZero()
    ensures NodeIdToDest(0) == "!" + Repeat('0', 7) + "1"
  {
    StripOfHex16();
    assert Strip(PyHex(NodeIdToHwId(0)), {'0', 'x'}) == "1";
  }

  lemma ParseZeroPaddedOne()
    ensures ParseDest("!" + Repeat('0', 7) + "1") == Some(1)
  {
    var d := "!" + Repeat('0', 7) + "1";
    assert d[1..] == Repeat('0', 7) + "1";
    HexValueZeroPrefix(7, "1");
    assert HexValue("1") == 1 by {
      assert "1"[..0] == "";
    }
    assert forall k :: 1 <= k < |d| ==> IsHexChar(d[k]);
  }

  /** Node 0 (hardware id 16, `0x10`) loses its trailing zero and is addressed as node number 1. */
  lemma DestAsWrittenLosesTrailingZero()
    ensures NodeIdToDest(0) == "!00000001"
    ensures ParseDest(NodeIdToDest(0)) == Some(1)
  {
    DestOfNodeZero();
    Repeat7();
    ParseZeroPaddedOne();
  }

  lemma LeadInOfHex(n: nat)
    requires n > 0
    ensures LeadIn(PyHex(n), {'0', 'x'}) == 2
  {
    var h := HexDigits(n);
    var s := PyHex(n);
    assert s[1..] == "x" + h && s[2..] == h;
    assert LeadIn(s[2..], {'0', 'x'}) == 0;
  }

  lemma TrailInOfHexDigits(n: nat)
    requires n % 16 != 0
    ensures TrailIn(HexDigits(n), {'0', 'x'}) == 0
  {
    var h := HexDigits(n);
    assert h[|h| - 1] == HexChar(n % 16);
  }

  /** For a positive value whose last hex digit is not zero, stripping only removes `0x`. */
  lemma StripOfHex(n: nat)
    requires n > 0 && n % 16 != 0
    ensures Strip(PyHex(n), {'0', 'x'}) == HexDigits(n)
  {
    var s := PyHex(n);
    LeadInOfHex(n);
    assert s[2..] == HexDigits(n);
    TrailInOfHexDigits(n);
  }

  /** Proof step kept apart so that the modulus is not unfolded inside the string proof below. */
  lemma SmallMod(n: int, m: int)
    requires 0 <= n < m
    ensures n % m == n
  {
  }

  /**
   * The two forms agree whenever nothing but the `0x` prefix is stripped:
   * for every 32-bit hardware id whose last hex digit is not zero.
   */
  lemma DestAsWrittenAgreesOffMultiplesOf16(id: int)
    requires 0 < NodeIdToHwId(id) < 0x1_0000_0000
    requires NodeIdToHwId(id) % 16 != 0
    ensures NodeIdToDest(id) == NodeIdToDestIntended(id)
  {
    var n := NodeIdToHwId(id);
    StripOfHex(n);
    var h := HexDigits(n);
    assert NodeIdToDest(id) == "!" + Repeat('0', 8 - |h|) + h;
    SmallMod(n, 0x1_0000_0000);
    assert NodeIdToDestIntended(id) == "!" + Repeat('0', 8 - |h|) + h;
  }
}
