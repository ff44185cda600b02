/**
 * The configuration pushed to a node process right after it is connected,
 * and whether the process must restart for it to take effect.
 */
module NodeConfig {
  import opened Wrappers
  import opened Mesh
  import opened Decimal

  datatype Role = Router | Repeater | ClientMute

  /** One administrative request sent to a node, in the order the harness sends them. */
  datatype AdminAction =
    | SetOwner(longName: string, shortName: string)
    | SetHopLimit(hopLimit: int)
    | SetRole(role: Role)
    | EnableNeighborInfo(updateInterval: int)
    | SendPosition

  /** The neighbor-info broadcast interval the harness configures, in seconds. */
  const NEIGHBOR_INFO_INTERVAL: int := 30

  datatype ConfigPush = ConfigPush(actions: seq<AdminAction>, requiresReboot: bool)

  /** The single device role a node gets: router over repeater over client-mute. */
  function RoleOf(n: Node): (r: Option<Role>)
    ensures r == Some(Router) <==> n.isRouter
    ensures r == Some(Repeater) <==> !n.isRouter && n.isRepeater
    ensures r == Some(ClientMute) <==> !n.isRouter && !n.isRepeater && n.isClientMute
  {
    if n.isRouter then Some(Router)
    else if n.isRepeater then Some(Repeater)
    else if n.isClientMute then Some(ClientMute)
    else None
  }

  /** A change that only takes effect once the node process restarts. */
  predicate NeedsRestart(a: AdminAction)
  {
    a.SetRole? || a.EnableNeighborInfo?
  }

  /** The requests sent to node `n` and whether it has to be rebooted afterwards. */
  function SetConfig(n: Node): (c: ConfigPush)
    ensures |c.actions| >= 2
    ensures c.actions[0] == SetOwner("Node " + PyStr(n.nodeId), PyStr(n.nodeId))
    ensures c.actions[|c.actions| - 1] == SendPosition
    ensures |c.actions| == 2 + (if n.hopLimit != DEFAULT_HOP_LIMIT then 1 else 0)
                             + (if RoleOf(n).Some? then 1 else 0) + (if n.neighborInfo then 1 else 0)
  {
    var owner := [SetOwner("Node " + PyStr(n.nodeId), PyStr(n.nodeId))];
    var hop := if n.hopLimit != DEFAULT_HOP_LIMIT then [SetHopLimit(n.hopLimit)] else [];
    var role := match RoleOf(n) case Some(r) => [SetRole(r)] case None => [];
    var neighbor := if n.neighborInfo then [EnableNeighborInfo(NEIGHBOR_INFO_INTERVAL)] else [];
    var reboot := n.isRouter || n.isRepeater || n.isClientMute || n.neighborInfo;
    ConfigPush(owner + hop + role + neighbor + [SendPosition], reboot)
  }

  /**
   * A node is rebooted exactly when one of the changes pushed to it needs a
   * restart, which happens exactly when it has a role flag or neighbor info.
   */
  lemma RebootIffRestartingChange(n: Node)
    ensures SetConfig(n).requiresReboot <==>
      exists i :: 0 <= i < |SetConfig(n).actions| && NeedsRestart(SetConfig(n).actions[i])
    ensures SetConfig(n).requiresReboot <==> n.isRouter || n.isRepeater || n.isClientMute || n.neighborInfo
  {
    var c := SetConfig(n);
    var k := 1 + (if n.hopLimit != DEFAULT_HOP_LIMIT then 1 else 0);
    if RoleOf(n).Some? {
      assert NeedsRestart(c.actions[k]);
    } else if n.neighborInfo {
      assert NeedsRestart(c.actions[k]);
    } else {
      assert forall i :: 0 <= i < |c.actions| ==> !NeedsRestart(c.actions[i]);
    }
  }

  /**
   * The hop limit is sent exactly when it differs from the firmware default;
   * a node with a role flag is sent exactly one role, the one of highest
   * precedence, and a node without one is sent none.
   */
  lemma HopLimitAndRoleSent(n: Node)
    ensures (exists i :: 0 <= i < |SetConfig(n).actions| && SetConfig(n).actions[i] == SetHopLimit(n.hopLimit))
            <==> n.hopLimit != DEFAULT_HOP_LIMIT
    ensures forall i, r :: 0 <= i < |SetConfig(n).actions| && SetConfig(n).actions[i] == SetRole(r) ==>
              RoleOf(n) == Some(r)
    ensures forall i, j :: 0 <= i < j < |SetConfig(n).actions| ==>
              !(SetConfig(n).actions[i].SetRole? && SetConfig(n).actions[j].SetRole?)
    ensures RoleOf(n).Some? ==>
              exists i :: 0 <= i < |SetConfig(n).actions| && SetConfig(n).actions[i] == SetRole(RoleOf(n).value)
  {
    var c := SetConfig(n);
    var k := 1 + (if n.hopLimit != DEFAULT_HOP_LIMIT then 1 else 0);
    if n.hopLimit != DEFAULT_HOP_LIMIT {
      assert c.actions[1] == SetHopLimit(n.hopLimit);
    }
    if RoleOf(n).Some? {
      assert c.actions[k] == SetRole(RoleOf(n).value);
    }
  }

  /** Where a request comes in the order the harness sends them. */
  function Stage(a: AdminAction): nat
  {
    match a
    case SetOwner(_, _) => 0
    case SetHopLimit(_) => 1
    case SetRole(_) => 2
    case EnableNeighborInfo(_) => 3
    case SendPosition => 4
  }

  /**
   * The requests go out as owner, hop limit, role, neighbor info, position,
   * each at most once; neighbor info, with a 30-second interval, is sent
   * exactly when the node has it enabled.
   */
  lemma RequestsInOrder(n: Node)
    ensures forall i, j :: 0 <= i < j < |SetConfig(n).actions| ==>
              Stage(SetConfig(n).actions[i]) < Stage(SetConfig(n).actions[j])
    ensures (exists i :: 0 <= i < |SetConfig(n).actions| &&
               SetConfig(n).actions[i] == EnableNeighborInfo(NEIGHBOR_INFO_INTERVAL))
            <==> n.neighborInfo
    ensures forall i :: 0 <= i < |SetConfig(n).actions| && SetConfig(n).actions[i].EnableNeighborInfo? ==>
              SetConfig(n).actions[i].updateInterval == NEIGHBOR_INFO_INTERVAL
  {
    var c := SetConfig(n);
    var k := 1 + (if n.hopLimit != DEFAULT_HOP_LIMIT then 1 else 0) + (if RoleOf(n).Some? then 1 else 0);
    if n.neighborInfo {
      assert c.actions[k] == EnableNeighborInfo(NEIGHBOR_INFO_INTERVAL);
    }
  }
}
