# Meshtasticator interactive relay — Dafny model

The interactive simulator runs every mesh node as its own firmware process and
connects to each one over TCP. The processes cannot hear each other, so the
harness acts as the shared radio medium. When a node transmits, the harness:

- logs the packet under a logical message id;
- works out which other nodes hear it from a link budget;
- hands each of them a copy stamped with that link's RSSI and SNR.

The harness can also mirror node 0's traffic to an external client as
length-prefixed frames. It also pushes the initial configuration to each node,
ingests the nodes' telemetry, and accepts shell commands.

This project models that core in `lib/interactive.py` as pure functions over
immutable records. Three of the source's loops are methods with loop
invariants: receiver selection, envelope fan-out and message-text
reconstruction. The other loops are recursive functions: the node lookups such
as `getNodeIfaceById`, and the list comprehensions. Sends and admin requests
are returned as traces.

| file | module | what it models |
|---|---|---|
| wrappers.dfy | Wrappers | `Option`, `Result` |
| mesh.dfy | Mesh | nodes, packet dictionaries, `MeshPacket` envelopes, harness constants |
| seqs.dfy | Seqs | first-match search (`next(...)`) and list-comprehension filtering |
| addressing.dfy | Addressing | node id ↔ hardware id/port, node construction, `getNodeIfaceById`, `nodeIdToDest` |
| link_budget.dfy | LinkBudget | RSSI/SNR link budget and `calcReceivers` |
| correlator.dfy | Correlator | logical message ids (`onReceive`, lines 656-671) |
| relationship.dfy | Relationship | the relationship label drawn on route plots |
| relay.dfy | Relay | `forwardPacket`, `copyPacket` |
| framing.dfy | Framing | client frame header and `onReceiveAll` |
| metrics.dfy | Metrics | `onReceiveMetrics` |
| decimal.dfy | Decimal | `str(int)` / `int(str)` |
| node_config.dfy | NodeConfig | `setConfig` requests and reboot decision |
| commands.dfy | Commands | `do_broadcast`, `do_DM`, `do_remove` |
| sim.dfy | Sim | the whole `onReceive` handler |
| scenario.dfy | Scenario | a three-node example session |

Decibel values are `real`. The simulator's distance function and path-loss
estimator are uninterpreted function fields of `LinkBudget.Phy`. The protobuf
encoder is the `serialize` parameter of `Framing.OnReceiveAll`.

In these places the code behaves in ways a reader might not expect, and the
model does what the code does:

- An orphan response is logged with no logical id, and no fallback id is
  allocated.
- If the first logged copy with a packet's id is itself an orphan, the packet
  gets a NEW id.
- The client frame has no length check, and its 16-bit length field wraps.
- `copyPacket` tests for a `simulator` key at the top level of the packet.

## Model

| member | source | states |
|---|---|---|
| Seqs.FirstIndex | lib/interactive.py:659 | the first-match search returns the first position whose element matches, and `None` exactly when nothing matches |
| Seqs.Filter | lib/interactive.py:678 | a list comprehension keeps only matching elements, loses none of them, and never grows |
| Seqs.FilterIsSelection | lib/interactive.py:763-771 | a filter result is the input read at a strictly increasing list of positions, and those positions are exactly the matching ones |
| Addressing.NewNode | lib/interactive.py:27-60 | a new node has its id, hardware id and port, is unconnected, and has empty time series and zero counters. With a scenario entry, position, router/repeater/client-mute flags, hop limit, antenna gain and neighbor info are taken from it. Without one, position is the drawn position at the default height, the router flag, hop limit and gain are the defaults, and it is neither repeater, client-mute nor neighbor-info |
| Addressing.InitNodes | lib/interactive.py:367-369 | node n of a session is built from the n-th scenario entry and defaults, with id n, hardware id n+16 and TCP port n+4403, and starts unconnected |
| Addressing.GetNodeIfaceById | lib/interactive.py:636-640 | returns the interface of the first node with hardware id id+16, and `None` when no node has it |
| Addressing.FindInNumbered | lib/interactive.py:367-369 | in a freshly numbered session, lookup by hardware id or by port finds node `id` at position `id`, and finds nothing for ids outside the session |
| Addressing.Strip | lib/interactive.py:644 | `str.strip(chars)` returns a contiguous slice; everything removed from either end belongs to `chars`, and the result neither starts nor ends with one of them |
| Addressing.DestAsWrittenLosesTrailingZero | lib/interactive.py:643-645 | as written, node 0 (hardware id 0x10) is addressed as `!00000001`, i.e. node number 1 |
| Addressing.DestAsWrittenAgreesOffMultiplesOf16 | lib/interactive.py:643-645 | as written, the destination is correct for every 32-bit hardware id whose last hex digit is not 0 |
| Addressing.DestIntendedRoundTrip | lib/interactive.py:643-645 | the corrected `!xxxxxxxx` destination parses back to the node's 32-bit hardware id |
| LinkBudget.OtherNodes | lib/interactive.py:678 | the candidate receivers are all the nodes except those with the transmitter's node id |
| LinkBudget.CalcReceivers | lib/interactive.py:759-772 | returns three lists of equal length: the receivers are exactly the qualifying candidates in candidate order; each RSSI is PTX + both antenna gains − path loss and reaches the sensitivity; each SNR is RSSI − noise level |
| LinkBudget.QualifyingIsExactSelection | lib/interactive.py:763-771 | kept receivers preserve candidate order and reach the sensitivity; every dropped candidate's RSSI is below it |
| LinkBudget.AsymmetricLink | lib/interactive.py:764-768 | each direction of a link is computed independently: with a height-dependent path loss, A reaches B while B does not reach A |
| Correlator.LocalIdOf | lib/interactive.py:659 | the id found is that of the first logged packet with the given packet id; no matching packet gives `None` |
| Correlator.Correlate | lib/interactive.py:656-671 | every packet is appended to the log. A response takes the id of the packet it answers and never allocates. Any other packet reuses the id of an earlier copy. A new id (counter + 1) is taken exactly when neither applies, and only then does the counter move |
| Correlator.InitialValid | lib/interactive.py:347-348 | the empty log with counter −1 satisfies the id invariant |
| Correlator.CorrelatePreservesValid | lib/interactive.py:657-671 | logging a packet keeps the invariant: ids lie in [0, counter], none in that range is skipped, and each newly allocated id is larger than every id logged before it (never reused) |
| Correlator.RunPreservesValid | lib/interactive.py:656-671 | the id invariant holds after any sequence of received packets |
| Correlator.RunLogsEveryPacket | lib/interactive.py:670-671 | a run appends every packet in arrival order after the existing log, and the counter never decreases |
| Correlator.ValidIgnoresRoutes | lib/interactive.py:680-681 | attaching transmitter/receiver data to a logged packet does not affect the id invariant |
| Correlator.ResponseJoinsAnsweredMessage | lib/interactive.py:657-662 | a response gets the id of the first logged packet it answers, whatever else was logged, and the counter is unchanged |
| Correlator.OrphanResponse | lib/interactive.py:657-662 | a response to a packet never logged gets no id and allocates nothing |
| Relationship.ClassifyTotal | lib/interactive.py:232-252 | classification yields a label exactly when the keys it reads (`priority`, `decoded.simulator`) are present |
| Relationship.ClassifyFollowsTable | lib/interactive.py:222-252 | the label is the first row that holds in the eight-row precedence table (original, real ACK, response, forwarded real ACK, forwarded response, implicit ACK, rebroadcast, forwarded message) |
| Relationship.ImplicitAckExactly | lib/interactive.py:245-247 | a copy is an implicit ACK iff it is not from the transmitter, answers no request, and comes from the receiver |
| Relay.TruncToInt | lib/interactive.py:553 | `int()` of a float truncates toward zero: the result is within 1 of the value, on the zero side |
| Relay.TruncIsNotFloor | lib/interactive.py:553 | an RSSI of −90.5 is stamped −90, not floored to −91 |
| Relay.EnvelopeOf | lib/interactive.py:531-551 | the envelope keeps `to`/`from`/`id`/payload. Each optional field is set iff the packet has it, with its value. No reception values are set |
| Relay.ForwardPacket | lib/interactive.py:523-557 | an oversized payload is refused with an empty trace. Otherwise there is exactly one send per receiver, in order. Copy i carries the packet's metadata with port SIMULATOR_APP, `rx_rssi = int(rssis[i])` and `rx_snr = snrs[i]` |
| Relay.CopyPacket | lib/interactive.py:559-594 | returns `None` exactly for relay traffic (a `simulator` key, or port SIMULATOR_APP). Otherwise it preserves metadata and the original port, and sets each optional field iff present |
| Relay.CopyMatchesRelayedCopy | lib/interactive.py:570-589 | the client copy differs from a relayed copy only in port number and reception values |
| Framing.Header | lib/interactive.py:734 | the header is 4 bytes: 0x94, 0xC3, then two bytes that give back the length (`hi*256+lo`) when it is below 65536 |
| Framing.ParseFrame | lib/interactive.py:734-735 | a frame is accepted only with both start bytes and a length field equal to the payload length |
| Framing.FrameRoundTrip | lib/interactive.py:734-735 | a frame whose payload is under 64 KiB parses back to exactly that payload |
| Framing.HeaderWrapsAt64KiB | lib/interactive.py:734 | the length field has 16 bits: a 65536-byte payload gets the header of an empty one |
| Framing.OnReceiveAll | lib/interactive.py:726-735 | bytes go to the client exactly for traffic of the node on port 4403 that `copyPacket` accepts |
| Framing.ClientReadsCopy | lib/interactive.py:731-735 | what the client parses out of a mirrored frame is the serialised client copy |
| Metrics.Ingest | lib/interactive.py:697-723 | a device-metrics sample is appended to all three series iff it has a time newer than the last one (missing values become 0). The series stay aligned and strictly increasing. Local stats overwrite exactly the counters they carry. Nothing else about the node changes |
| Metrics.OnReceiveMetrics | lib/interactive.py:686-723 | only the first node whose hardware id is the sender is updated. Every other node is unchanged, including later nodes with the same hardware id, and an unknown sender changes nothing |
| Metrics.IngestAllKeepsSeries | lib/interactive.py:702-709 | after any sequence of telemetry, the three series have equal length and the timestamps are strictly increasing |
| Metrics.StaleSampleDropped | lib/interactive.py:701-702 | a sample whose time is already recorded leaves the node unchanged |
| Decimal.PyStrRoundTrip | lib/interactive.py:71-72 | `int(str(n)) == n` for every integer, so the node names pushed to a node encode its id |
| NodeConfig.RoleOf | lib/interactive.py:81-101 | at most one role is chosen, with precedence router > repeater > client-mute |
| NodeConfig.SetConfig | lib/interactive.py:67-119 | the first request sets owner names "Node n" / "n", the last sends the position, and in between there is exactly one request per non-default hop limit, role flag and neighbor info |
| NodeConfig.RequestsInOrder | lib/interactive.py:70-117 | the requests go out in the order owner, hop limit, role, neighbor info, position, each at most once. Neighbor info is enabled with a 30-second interval exactly when the node has it |
| NodeConfig.RebootIffRestartingChange | lib/interactive.py:68-110 | a reboot is required iff some pushed change needs a restart (a role or neighbor info), iff the node is router, repeater, client-mute or has neighbor info |
| NodeConfig.HopLimitAndRoleSent | lib/interactive.py:74-101 | a hop-limit request is sent iff the hop limit is not 3. A node with a role flag is sent its highest-precedence role, and no role request is sent for anything else. At most one role request is sent |
| Commands.Split | lib/interactive.py:799 | `line.split()` yields only non-empty, blank-free words |
| Commands.SplitLayout | lib/interactive.py:799 | the line is exactly the words of `line.split()`, in order, separated by runs of blanks, with at least one blank between two words |
| Commands.LayoutIsSplit | lib/interactive.py:799 | conversely, any way of reading a line as blank-free words separated by blanks gives exactly `line.split()`, so the words are the maximal non-blank runs |
| Commands.SplitJoin | lib/interactive.py:807-810 | splitting words joined by single blanks gives the same words back |
| Commands.TextFrom | lib/interactive.py:807-810 | the loop that rebuilds the message text gives the arguments from `start` on, joined by single blanks |
| Commands.TextKeepsWords | lib/interactive.py:830-833 | the rebuilt text splits back into exactly the words typed after the node ids |
| Commands.DoBroadcast | lib/interactive.py:796-812 | a send happens iff there are at least two arguments, the first parses as an integer, and that node has an interface. The send is a broadcast from that interface with the remaining words as text |
| Commands.DoDM | lib/interactive.py:815-835 | a send happens iff there are at least three arguments and both node ids parse and resolve. It goes from the sender to hardware id to+16 with want-ack set, carrying the remaining words |
| Commands.Remove | lib/interactive.py:909-922 | the corrected removal closes the interface found for the id and takes that same node out of the list; an unknown id changes nothing |
| Commands.RemoveTakesOutThatNode | lib/interactive.py:916-922 | in a freshly numbered session, the corrected removal deletes exactly node `id` |
| Commands.RemoveAsWrittenDropsWrongNode | lib/interactive.py:922 | as written, `remove 0` then `remove 1` on three nodes closes node 1 but deletes node 2 from the list |
| Sim.RelayTransmission | lib/interactive.py:676-682 | the route holds exactly the qualifying other nodes with their RSSI/SNR. An oversized payload is an error. Otherwise each receiver gets one copy stamped with its own link values |
| Sim.OnReceive | lib/interactive.py:656-683 | the packet is always logged with the correlator's id, and the id invariant is kept. An unknown port delivers and plots nothing. A known transmitter gets its route attached: the qualifying other nodes with each link's RSSI and SNR. Oversize raises before any delivery and before plotting; otherwise every qualifying node gets its copy and the packet is plotted |
| Scenario.OnlyBHearsA | lib/interactive.py:759-772 | with A and B close and C far away, only B hears A |
| Scenario.BroadcastIsOriginal | lib/interactive.py:232-239 | A's broadcast opens message 0 and is an original on the hop to B |
| Scenario.AnswerJoinsBroadcast | lib/interactive.py:657-662 | B's answer joins message 0 without allocating and is a response on the hop back to A |

## Left out

- Process bootstrapping (Docker containers, terminals, `os.system`, start-up sleeps, lines 372-443) and argument/YAML parsing (468-499): operating-system I/O.
- The initial-connect error path that closes all nodes and exits (445-465), `reconnectNodes` (502-520) and `closeNodes` (775-786): sleep-based retries and teardown through the mesh library's TCP interface, whose code is not part of this model.
- The bridge threads `nodeReader`/`clientReader` (738-757) and the client socket accept: concurrent byte copying over sockets.
- pubsub subscriptions, protobuf `SerializeToString`/`ParseFromString`/`MessageToDict`, and the mesh library's `_sendAdmin`, `sendText`, `sendData`, `sendPosition`, `writeChannel`. Their results are modelled as traces and records, and the encoder is a parameter.
- `addAdminChannel` (122-131): writes a fixed admin channel through the mesh library, with no logic of its own.
- `sendPing`, `traceRoute`, `requestPosition`, `requestLocalStats` and `sendFromTo` (615-634, 652-653): each looks up the sender's interface with `getNodeIfaceById`, without checking the result, and makes one call into the mesh library.
- `showNodes` (597-604): prints the node database of `self.nodes[id]`, indexed by list position, or of every node; this is output only.
- The commands `ping`, `traceroute` and `reqPos` (838-894): each requires exactly two arguments, then checks both ids like `DoDM` and calls one of the helpers above.
- The command `nodes` (896-907): checks each argument on its own, skips unknown ids, and calls `showNodes` for the rest; this is output only.
- The commands `plot` (925-935) and `exit` (937-940): `plot` requests local stats when collisions are emulated and then draws the plots; `exit` calls `closeNodes`. Both plotting and teardown are left out above.
- All plotting: `initRoutes`, the arrow and annotation drawing, `hover`, `plotMetrics`, and the per-(transmitter, receiver) arc counting (199-216). The counting uses `dict.fromkeys(..., [])`, so one list is shared by all transmitters. Only the label logic of `plotRoute` is modelled.
- `print` output, including the "message ID =" hints and the "Could not find requestId" message.
- NodeConfig.SetConfig: the position request carries no coordinates. The float lat/lon conversion (112-117) is left out.
- LinkBudget.CalcReceivers: distance and path loss are uninterpreted. The `real` arithmetic ignores floating-point rounding.
- Relay.ForwardPacket: `DATA_PAYLOAD_LEN` belongs to the mesh library and is the `payloadLimit` parameter. The payload is taken as already serialised bytes. The method requires receivers, RSSIs and SNRs of equal length (as `calcReceivers` produces them). The partial delivery and `IndexError` for shorter lists are not modelled. `rx_snr` float32 rounding and the int32 range of `rx_rssi` are not modelled. The method assumes every value converts into its protobuf field; in the source an out-of-range `to`/`from`/`id` (535-537) raises before anything is sent.
- Relay.CopyPacket: assumes every value converts into its protobuf field. In the source, a `portnum` that is not a port name, or `to`/`from`/`id` outside the uint32 range (572-575), raise inside the `try` and the copy is `None`; the model returns the copy. The model's packet always has `to`, `from`, `id`, `decoded.portnum` and `decoded.payload`, so missing keys do not arise.
- Relationship.ClassifyTotal: only the label logic is modelled. The unconditional read of `decoded.simulator.portnum` when the annotation text is drawn (line 261) is not.
- Metrics.Ingest: `float()`/`int()` conversion of telemetry values is not modelled, and values are taken as already numeric.
- Decimal.PyStrRoundTrip: `int()` is modelled for an optional sign followed by ASCII digits. Underscores, non-ASCII digits and surrounding blanks are not modelled.
- Commands.Split: the separators are Python's ASCII whitespace: space, tab, newline, vertical tab, form feed, carriage return and the separators 0x1C-0x1F. Non-ASCII Unicode whitespace (such as U+0085 or U+00A0) is not modelled.
- Commands.DoBroadcast: a non-numeric node id ends the shell with a `ValueError` in the source (`int(arguments[0])`). Here it is the error `NotANumber`.
- Commands.DoDM: a non-numeric sender or receiver id (`int(arguments[0])`, `int(arguments[1])`, 822 and 826) ends the shell with a `ValueError` in the source. Here it is the error `NotANumber`.

## Findings

| source | as written | input that shows it | evidently intended | confidence | as-written member | corrected member |
|---|---|---|---|---|---|---|
| lib/interactive.py:644 | `hex(hwId).strip('0x')` strips the characters `0` and `x` from both ends, so trailing zero digits are lost | node 0: hardware id 16 = `0x10` becomes `!00000001` (node number 1) | `!00000010`, the eight-digit hex node number | high (not executed) | Addressing.DestAsWrittenLosesTrailingZero | Addressing.DestIntendedRoundTrip |
| lib/interactive.py:922 | `del self.sim.nodes[nodeId]` deletes by list position, but the node was looked up by hardware id | three nodes, `remove 0` then `remove 1`: node 1's interface is closed, node 2 leaves the list and the closed node 1 stays | delete the node whose interface was closed | medium (not executed) | Commands.RemoveAsWrittenDropsWrongNode | Commands.Remove |
