/**
 * A three-node session: A and B are in range of each other, C is out of
 * range of both. A broadcasts, B answers.
 */
module Scenario {
  import opened Wrappers
  import opened Mesh
  import opened Seqs
  import opened Addressing
  import opened LinkBudget
  import opened Correlator
  import opened Relationship

  function At(id: nat, x: real): Node
  {
    Node(id, NodeIdToHwId(id), TcpPortOf(id), x, 0.0, 1.0, false, false, false, 3, 0.0, false,
         Some(id), [], [], [], 0, 0, 0, 0, 0, 0)
  }

  /** Distance along the x axis; path loss of 100 dB plus one per unit of distance. */
  function LinePhy(): Phy
  {
    Phy((x1: real, x2: real, y1: real, y2: real, z1: real, z2: real) => if x1 >= x2 then x1 - x2 else x2 - x1,
        (d: real, f: real, hTx: real, hRx: real) => 100.0 + d)
  }

  function LineRadio(): Radio
  {
    Radio(20.0, -120.0, -100.0, 868.0)
  }

  function Broadcast(): Packet
  {
    Packet(BROADCAST_NUM, 16, 100,
           Decoded("SIMULATOR_APP", [], None, None, Some(SimulatorInfo("TEXT_MESSAGE_APP"))),
           None, None, Some(3), Some(3), None, None, false)
  }

  function Answer(): Packet
  {
    Packet(16, 17, 200,
           Decoded("SIMULATOR_APP", [], Some(100), None, Some(SimulatorInfo("TEXT_MESSAGE_APP"))),
           Some("DEFAULT"), None, Some(3), Some(3), None, None, false)
  }

  lemma OnlyBHearsA()
    ensures Qualifying(LinePhy(), LineRadio(), At(0, 0.0), OtherNodes([At(0, 0.0), At(1, 1.0), At(2, 100.0)], At(0, 0.0)))
            == [At(1, 1.0)]
  {
    var a, b, c := At(0, 0.0), At(1, 1.0), At(2, 100.0);
    var all := [a, b, c];
    var p := (n: Node) => n.nodeId != a.nodeId;
    assert all[..2][..1] == [a] && all[..2] == [a, b] && all[..3] == all;
    assert [a][..0] == [];
    assert Filter([a], p) == [];
    assert Filter([a, b], p) == [b];
    assert Filter(all, p) == [b, c];
    var q := ReachedBy(LinePhy(), LineRadio(), a);
    assert q(b) && !q(c);
    assert [b, c][..1] == [b] && [b][..0] == [];
    assert Filter([b], q) == [b];
  }

  /** A's broadcast opens logical message 0 and is an original on the hop to B. */
  lemma BroadcastIsOriginal()
    ensures Correlate(Initial, Broadcast()).localId == Some(0)
    ensures Classify(Broadcast(), At(0, 0.0), At(1, 1.0)) == Some(OriginalMessage)
  {
  }

  /** B's answer joins logical message 0 and is a response on the hop back to A. */
  lemma AnswerJoinsBroadcast()
    ensures var st := Correlate(Initial, Broadcast()).state;
      && Correlate(st, Answer()).localId == Some(0)
      && Correlate(st, Answer()).state.messageId == 0
    ensures Classify(Answer(), At(1, 1.0), At(0, 0.0)) == Some(Response)
  {
    var st := Correlate(Initial, Broadcast()).state;
    assert st.messages[0].packet.id == 100;
  }
}
