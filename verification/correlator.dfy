/**
 * Message correlation: every packet a node puts on the air is logged with a
 * logical message id that threads originals, forwarded copies, responses and
 * acknowledgements together.
 */
module Correlator {
  import opened Wrappers
  import opened Mesh
  import opened Seqs

  /** Who transmitted a logged packet and who heard it, with the signal values of each receiver. */
  datatype Route = Route(transmitter: Node, receivers: seq<Node>, rssis: seq<real>, snrs: seq<real>)

  /**
   * A logged packet, the logical message it joined (`None` for an orphan
   * response) and its route once the relay has computed it.
   */
  datatype Logged = Logged(packet: Packet, localId: Option<int>, route: Option<Route>)

  /** The log of packets and the last logical id handed out. */
  datatype State = State(messages: seq<Logged>, messageId: int)

  /** The state of a new session: nothing logged, no id handed out yet. */
  const Initial: State := State([], -1)

  /**
   * The logical id of the first logged packet whose packet id is `pid`; `None`
   * when no logged packet has that id or the first one that does is an orphan.
   */
  function LocalIdOf(messages: seq<Logged>, pid: int): (r: Option<int>)
    ensures r.Some? ==> exists k :: 0 <= k < |messages| && messages[k].packet.id == pid && messages[k].localId == r
    ensures forall k :: (0 <= k < |messages| && messages[k].packet.id == pid &&
                         (forall j :: 0 <= j < k ==> messages[j].packet.id != pid)) ==> r == messages[k].localId
    ensures (forall k :: 0 <= k < |messages| ==> messages[k].packet.id != pid) ==> r.None?
  {
    match FirstIndex(messages, (m: Logged) => m.packet.id == pid)
    case None => None
    case Some(k) => messages[k].localId
  }

  /** A packet that neither answers a request nor repeats a logged packet id starts a new message. */
  predicate StartsMessage(st: State, p: Packet)
  {
    p.decoded.requestId.None? && LocalIdOf(st.messages, p.id).None?
  }

  /** The logical id the packet is logged under and the state afterwards. */
  datatype Step = Step(state: State, localId: Option<int>)

  /**
   * Logs one transmitted packet. A response joins the message of the packet it
   * answers (or none); any other packet joins the message of an earlier copy
   * with the same packet id, or else gets the next logical id.
   */
  function Correlate(st: State, p: Packet): (r: Step)
    ensures r.state.messages == st.messages + [Logged(p, r.localId, None)]
    ensures StartsMessage(st, p) ==> r.localId == Some(st.messageId + 1) && r.state.messageId == st.messageId + 1
    ensures !StartsMessage(st, p) ==> r.state.messageId == st.messageId
    ensures p.decoded.requestId.Some? ==> r.localId == LocalIdOf(st.messages, p.decoded.requestId.value)
    ensures !StartsMessage(st, p) && p.decoded.requestId.None? ==> r.localId == LocalIdOf(st.messages, p.id)
  {
    var (mId, counter) :=
      match p.decoded.requestId
      case Some(req) => (LocalIdOf(st.messages, req), st.messageId)
      case None =>
        match LocalIdOf(st.messages, p.id)
        case Some(existing) => (Some(existing), st.messageId)
        case None => (Some(st.messageId + 1), st.messageId + 1);
    Step(State(st.messages + [Logged(p, mId, None)], counter), mId)
  }

  /** Logs a sequence of packets in arrival order. */
  function Run(st: State, ps: seq<Packet>): State
    decreases |ps|
  {
    if |ps| == 0 then st else Run(Correlate(st, ps[0]).state, ps[1..])
  }

  /** The log's logical ids never exceed the counter and no id in `[0, messageId]` is skipped. */
  ghost predicate IdsInRange(st: State)
  {
    && st.messageId >= -1
    && (forall j :: 0 <= j < |st.messages| && st.messages[j].localId.Some? ==>
          0 <= st.messages[j].localId.value <= st.messageId)
    && (forall v :: 0 <= v <= st.messageId ==> Used(st.messages, v))
  }

  /** Logical id `v` is carried by some logged packet. */
  ghost predicate Used(messages: seq<Logged>, v: int)
  {
    exists j :: 0 <= j < |messages| && messages[j].localId == Some(v)
  }

  /** Position `j` is where the logical id it carries first appears in the log. */
  ghost predicate FirstUse(messages: seq<Logged>, j: int)
    requires 0 <= j < |messages|
  {
    messages[j].localId.Some? && forall i :: 0 <= i < j ==> messages[i].localId != messages[j].localId
  }

  /** Every newly allocated id is larger than any id logged before it: ids are never reused. */
  ghost predicate FreshIdsIncrease(messages: seq<Logged>)
  {
    forall i, j :: 0 <= i < j < |messages| && messages[i].localId.Some? && FirstUse(messages, j) ==>
      messages[i].localId.value < messages[j].localId.value
  }

  ghost predicate Valid(st: State)
  {
    IdsInRange(st) && FreshIdsIncrease(st.messages)
  }

  lemma InitialValid()
    ensures Valid(Initial)
  {
  }

  /** Appending a packet under the next logical id, and advancing the counter, keeps the log valid. */
  lemma {:induction false} AppendFreshValid(st: State, l: Logged)
    requires Valid(st) && l.localId == Some(st.messageId + 1)
    ensures Valid(State(st.messages + [l], st.messageId + 1))
  {
    var ms := st.messages + [l];
    var n := |st.messages|;
    assert forall j :: 0 <= j < n ==> ms[j] == st.messages[j];
    forall v | 0 <= v <= st.messageId + 1
      ensures Used(ms, v)
    {
      if v == st.messageId + 1 {
        assert ms[n].localId == Some(v);
      } else {
        assert Used(st.messages, v);
        var j :| 0 <= j < n && st.messages[j].localId == Some(v);
        assert ms[j].localId == Some(v);
      }
    }
    forall i, j | 0 <= i < j < |ms| && ms[i].localId.Some? && FirstUse(ms, j)
      ensures ms[i].localId.value < ms[j].localId.value
    {
      if j < n {
        assert FirstUse(st.messages, j);
      }
    }
  }

  /** Appending a packet under no id or under an id already logged keeps the log valid. */
  lemma {:induction false} AppendKnownValid(st: State, l: Logged, k: nat)
    requires Valid(st)
    requires l.localId.None? || (k < |st.messages| && st.messages[k].localId == l.localId)
    ensures Valid(State(st.messages + [l], st.messageId))
  {
    var ms := st.messages + [l];
    var n := |st.messages|;
    assert forall j :: 0 <= j < n ==> ms[j] == st.messages[j];
    if l.localId.Some? {
      assert ms[k].localId == ms[n].localId;
      assert !FirstUse(ms, n);
    }
    forall v | 0 <= v <= st.messageId
      ensures Used(ms, v)
    {
      assert Used(st.messages, v);
      var j :| 0 <= j < n && st.messages[j].localId == Some(v);
      assert ms[j].localId == Some(v);
    }
    assert IdsInRange(State(ms, st.messageId));
    forall i, j | 0 <= i < j < |ms| && ms[i].localId.Some? && FirstUse(ms, j)
      ensures ms[i].localId.value < ms[j].localId.value
    {
      assert j < n;
      assert FirstUse(st.messages, j);
    }
  }

  /** Logging one packet keeps the log valid. */
  lemma {:induction false} CorrelatePreservesValid(st: State, p: Packet)
    requires Valid(st)
    ensures Valid(Correlate(st, p).state)
  {
    var r := Correlate(st, p);
    var l := Logged(p, r.localId, None);
    if StartsMessage(st, p) {
      AppendFreshValid(st, l);
    } else if r.localId.Some? {
      var k :| 0 <= k < |st.messages| && st.messages[k].localId == r.localId;
      AppendKnownValid(st, l, k);
    } else {
      AppendKnownValid(st, l, 0);
    }
  }

  /** Any run from a valid state ends valid. */
  lemma {:induction false} RunPreservesValid(st: State, ps: seq<Packet>)
    requires Valid(st)
    ensures Valid(Run(st, ps))
    decreases |ps|
  {
    if |ps| > 0 {
      CorrelatePreservesValid(st, ps[0]);
      RunPreservesValid(Correlate(st, ps[0]).state, ps[1..]);
    }
  }

  /** A run logs every packet, in arrival order, after what was logged before; the counter never drops. */
  lemma {:induction false} RunLogsEveryPacket(st: State, ps: seq<Packet>)
    ensures |Run(st, ps).messages| == |st.messages| + |ps|
    ensures Run(st, ps).messages[..|st.messages|] == st.messages
    ensures forall k :: 0 <= k < |ps| ==> Run(st, ps).messages[|st.messages| + k].packet == ps[k]
    ensures Run(st, ps).messageId >= st.messageId
    decreases |ps|
  {
    if |ps| > 0 {
      var st1 := Correlate(st, ps[0]).state;
      RunLogsEveryPacket(st1, ps[1..]);
      var fin := Run(st1, ps[1..]);
      assert fin.messages[..|st.messages|] == fin.messages[..|st1.messages|][..|st.messages|];
      forall k | 0 <= k < |ps|
        ensures fin.messages[|st.messages| + k].packet == ps[k]
      {
        if k == 0 {
          assert fin.messages[|st.messages|] == fin.messages[..|st1.messages|][|st.messages|];
        } else {
          assert ps[1..][k - 1] == ps[k];
        }
      }
    }
  }

  /** Validity only looks at the logical ids: attaching routes to logged packets keeps it. */
  lemma ValidIgnoresRoutes(st: State, st2: State)
    requires Valid(st)
    requires st2.messageId == st.messageId && |st2.messages| == |st.messages|
    requires forall j :: 0 <= j < |st.messages| ==> st2.messages[j].localId == st.messages[j].localId
    ensures Valid(st2)
  {
    forall v | 0 <= v <= st2.messageId
      ensures Used(st2.messages, v)
    {
      assert Used(st.messages, v);
      var j :| 0 <= j < |st.messages| && st.messages[j].localId == Some(v);
      assert st2.messages[j].localId == Some(v);
    }
    forall i, j | 0 <= i < j < |st2.messages| && st2.messages[i].localId.Some? && FirstUse(st2.messages, j)
      ensures st2.messages[i].localId.value < st2.messages[j].localId.value
    {
      assert FirstUse(st.messages, j);
    }
  }

  /**
   * A response resolves to the logical id of the first logged packet it answers,
   * whatever unrelated packets were logged before or after that one.
   */
  lemma ResponseJoinsAnsweredMessage(st: State, p: Packet, k: nat)
    requires k < |st.messages|
    requires p.decoded.requestId == Some(st.messages[k].packet.id)
    requires forall j :: 0 <= j < k ==> st.messages[j].packet.id != st.messages[k].packet.id
    ensures Correlate(st, p).localId == st.messages[k].localId
    ensures Correlate(st, p).state.messageId == st.messageId
  {
  }

  /** A response to a packet that was never logged is an orphan and allocates nothing. */
  lemma OrphanResponse(st: State, p: Packet)
    requires p.decoded.requestId.Some?
    requires forall j :: 0 <= j < |st.messages| ==> st.messages[j].packet.id != p.decoded.requestId.value
    ensures Correlate(st, p).localId.None?
    ensures Correlate(st, p).state.messageId == st.messageId
  {
  }
}
