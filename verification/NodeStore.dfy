/** The server's node store (server/internal/store/store.go, server/internal/model/model.go):
    a map from UUID to node. Times are in nanoseconds. */
module NodeStore {
  import opened Wrappers
  import opened Text

  const RUNNING := "running"
  const COMPLETED := "completed"
  const FAILED := "failed"
  const CANCELLED := "cancelled"
  const CONVERGED := "node restarted or interrupted; state converged automatically"

  datatype Deploy = Deploy(
    imageID: string, targetDisk: string, startedAt: int, endedAt: Option<int>,
    result: string, bytesWritten: int, error: string)

  /** The fields a registration overwrites. */
  datatype Info = Info(
    hostname: string, mac: string, ip: string, architecture: string, bootMode: string,
    kernelVersion: string, alpineVersion: string, agentVersion: string, agentPort: int,
    agentURL: string, origin: string, networkMode: string, networkStatus: string,
    managementIF: string, netmask: string, gateway: string, dns: seq<string>, lastError: string)

  datatype Node = Node(uuid: string, info: Info, firstSeen: int, lastSeen: int, deploys: seq<Deploy>) {
    predicate Online(now: int, timeout: int) {
      now - lastSeen < timeout
    }

    function LastResult(): string {
      if deploys == [] then "" else deploys[|deploys| - 1].result
    }

    predicate DeployedEver() {
      |deploys| > 0
    }
  }

  datatype Status = OnlineStatus | OfflineStatus

  datatype Lifecycle = Offline | Deploying | BootseedOnline | LifeCompleted | LifeFailed

  datatype NodeView = NodeView(node: Node, status: Status, lastResult: string, deployedEver: bool, lifecycle: Lifecycle)

  function MakeNodeView(n: Node, now: int, timeout: int): NodeView {
    var status := if n.Online(now, timeout) then OnlineStatus else OfflineStatus;
    var last := n.LastResult();
    var lifecycle :=
      if status.OnlineStatus? && last == RUNNING then Deploying
      else if status.OnlineStatus? then BootseedOnline
      else if last == COMPLETED then LifeCompleted
      else if last == FAILED then LifeFailed
      else if last == CANCELLED then LifeFailed
      else Offline;
    NodeView(n, status, last, n.DeployedEver(), lifecycle)
  }

  type Nodes = map<string, Node>

  function Normalize(info: Info): Info {
    var origin := TrimSpace(info.origin);
    info.(origin := origin, hostname := if origin == "bootseed-enter" then info.hostname else "")
  }

  function SetLast(ds: seq<Deploy>, d: Deploy): seq<Deploy>
    requires ds != []
  {
    ds[|ds| - 1 := d]
  }

  /** A record still running when its node registers again is closed as cancelled. */
  function Converge(ds: seq<Deploy>, now: int): seq<Deploy> {
    if ds != [] && ds[|ds| - 1].result == RUNNING then
      var d := ds[|ds| - 1];
      SetLast(ds, d.(endedAt := Some(now), result := CANCELLED, error := if d.error == "" then CONVERGED else d.error))
    else ds
  }

  function RegisterSpec(nodes: Nodes, node: Node, now: int): Nodes {
    var info := Normalize(node.info);
    if node.uuid == "" then nodes
    else if node.uuid !in nodes then nodes[node.uuid := Node(node.uuid, info, now, now, node.deploys)]
    else
      var cur := nodes[node.uuid];
      nodes[cur.uuid := cur.(info := info, lastSeen := now, deploys := Converge(cur.deploys, now))]
  }

  function HeartbeatSpec(nodes: Nodes, uuid: string, now: int): Nodes {
    if uuid !in nodes then nodes
    else nodes[nodes[uuid].uuid := nodes[uuid].(lastSeen := now)]
  }

  function DeployStartSpec(nodes: Nodes, uuid: string, imageID: string, target: string, now: int): Nodes {
    if uuid !in nodes then nodes
    else
      var n := nodes[uuid];
      nodes[n.uuid := n.(lastSeen := now,
                         deploys := n.deploys + [Deploy(imageID, target, now, None, RUNNING, 0, "")])]
  }

  function EndRecord(ds: seq<Deploy>, result: string, bytes: int, msg: string, now: int): seq<Deploy> {
    if ds == [] then ds
    else SetLast(ds, ds[|ds| - 1].(endedAt := Some(now), result := result, bytesWritten := bytes, error := msg))
  }

  function DeployEndSpec(nodes: Nodes, uuid: string, result: string, bytes: int, msg: string, now: int): Nodes {
    if uuid !in nodes then nodes
    else
      var n := nodes[uuid];
      nodes[n.uuid := n.(lastSeen := now, deploys := EndRecord(n.deploys, result, bytes, msg, now),
                         info := n.info.(lastError := msg))]
  }

  function DeleteSpec(nodes: Nodes, uuid: string): Nodes {
    nodes - {uuid}
  }

  /** Every key is the UUID of the node stored under it, and no key is empty. */
  ghost predicate Keyed(nodes: Nodes) {
    "" !in nodes && forall k :: k in nodes ==> nodes[k].uuid == k
  }

  ghost predicate SortedByLastSeen(views: seq<NodeView>) {
    forall i, j :: 0 <= i < j < |views| ==> views[i].node.lastSeen >= views[j].node.lastSeen
  }

  /** The views list the given keys, each once, as Get shows them. */
  ghost predicate Lists(views: seq<NodeView>, keys: set<string>, nodes: Nodes, now: int, timeout: int) {
    && keys <= nodes.Keys
    && (forall i :: 0 <= i < |views| ==>
          views[i].node.uuid in keys && views[i] == MakeNodeView(nodes[views[i].node.uuid], now, timeout))
    && (forall i, j :: 0 <= i < j < |views| ==> views[i].node.uuid != views[j].node.uuid)
    && (forall k :: k in keys ==> exists i :: 0 <= i < |views| && views[i].node.uuid == k)
  }

  class Store {
    var nodes: Nodes

    constructor ()
      ensures nodes == map[]
    {
      nodes := map[];
    }

    /** Fails on an empty key, which the database refuses. */
    method Register(node: Node, now: int) returns (ok: bool)
      requires Keyed(nodes)
      modifies this
      ensures ok == (node.uuid != "")
      ensures nodes == RegisterSpec(old(nodes), node, now) && Keyed(nodes)
    {
      var n := node.(info := Normalize(node.info));
      if n.uuid !in nodes {
        n := n.(firstSeen := now, lastSeen := now);
        ok := Put(n);
      } else {
        var cur := nodes[n.uuid];
        cur := cur.(info := n.info, lastSeen := now);
        if |cur.deploys| > 0 {
          var d := cur.deploys[|cur.deploys| - 1];
          if d.result == RUNNING {
            d := d.(endedAt := Some(now), result := CANCELLED);
            if d.error == "" {
              d := d.(error := CONVERGED);
            }
            cur := cur.(deploys := SetLast(cur.deploys, d));
          }
        }
        ok := Put(cur);
      }
    }

    method Put(n: Node) returns (ok: bool)
      modifies this
      ensures ok == (n.uuid != "")
      ensures nodes == if ok then old(nodes)[n.uuid := n] else old(nodes)
    {
      ok := n.uuid != "";
      if ok {
        nodes := nodes[n.uuid := n];
      }
    }

    method Delete(uuid: string)
      requires Keyed(nodes)
      modifies this
      ensures nodes == DeleteSpec(old(nodes), uuid) && Keyed(nodes)
    {
      nodes := nodes - {uuid};
    }

    method Heartbeat(uuid: string, now: int)
      requires Keyed(nodes)
      modifies this
      ensures nodes == HeartbeatSpec(old(nodes), uuid, now) && Keyed(nodes)
    {
      if uuid in nodes {
        var n := nodes[uuid];
        n := n.(lastSeen := now);
        var _ := Put(n);
      }
    }

    method DeployStart(uuid: string, imageID: string, target: string, now: int)
      requires Keyed(nodes)
      modifies this
      ensures nodes == DeployStartSpec(old(nodes), uuid, imageID, target, now) && Keyed(nodes)
    {
      if uuid in nodes {
        var n := nodes[uuid];
        n := n.(lastSeen := now);
        n := n.(deploys := n.deploys + [Deploy(imageID, target, now, None, RUNNING, 0, "")]);
        var _ := Put(n);
      }
    }

    method DeployEnd(uuid: string, result: string, bytes: int, errMsg: string, now: int)
      requires Keyed(nodes)
      modifies this
      ensures nodes == DeployEndSpec(old(nodes), uuid, result, bytes, errMsg, now) && Keyed(nodes)
    {
      if uuid in nodes {
        var n := nodes[uuid];
        n := n.(lastSeen := now);
        if |n.deploys| > 0 {
          var d := n.deploys[|n.deploys| - 1];
          d := d.(endedAt := Some(now), result := result, bytesWritten := bytes, error := errMsg);
          n := n.(deploys := SetLast(n.deploys, d));
        }
        n := n.(info := n.info.(lastError := errMsg));
        var _ := Put(n);
      }
    }

    method Get(uuid: string, now: int, timeout: int) returns (view: Option<NodeView>)
      ensures view == if uuid in nodes then Some(MakeNodeView(nodes[uuid], now, timeout)) else None
    {
      if uuid in nodes {
        view := Some(MakeNodeView(nodes[uuid], now, timeout));
      } else {
        view := None;
      }
    }

    /** Every stored node once, exactly as Get shows it, most recently seen first. */
    method List(now: int, timeout: int) returns (views: seq<NodeView>)
      requires Keyed(nodes)
      ensures Lists(views, nodes.Keys, nodes, now, timeout)
      ensures SortedByLastSeen(views)
    {
      var out := [];
      var left := nodes.Keys;
      while left != {}
        invariant left <= nodes.Keys
        invariant Lists(out, nodes.Keys - left, nodes, now, timeout)
        decreases left
      {
        var k :| k in left;
        ListsInsert(out, nodes.Keys - left, nodes, now, timeout, k, |out|);
        out := Insert(out, |out|, MakeNodeView(nodes[k], now, timeout));
        assert nodes.Keys - (left - {k}) == (nodes.Keys - left) + {k};
        left := left - {k};
      }
      assert nodes.Keys - left == nodes.Keys;
      views := SortViews(out, nodes.Keys, nodes, now, timeout);
    }
  }

  function Insert(views: seq<NodeView>, p: nat, v: NodeView): (r: seq<NodeView>)
    requires p <= |views|
    ensures |r| == |views| + 1 && r[p] == v
    ensures forall i :: 0 <= i < p ==> r[i] == views[i]
    ensures forall i :: p < i < |r| ==> r[i] == views[i - 1]
  {
    views[..p] + [v] + views[p..]
  }

  /** Inserting one more key's view keeps the list complete and without repetition. */
  lemma ListsInsert(views: seq<NodeView>, keys: set<string>, nodes: Nodes, now: int, timeout: int, k: string, p: nat)
    requires Keyed(nodes) && Lists(views, keys, nodes, now, timeout) && k in nodes && k !in keys && p <= |views|
    ensures Lists(Insert(views, p, MakeNodeView(nodes[k], now, timeout)), keys + {k}, nodes, now, timeout)
  {
    var r := Insert(views, p, MakeNodeView(nodes[k], now, timeout));
    forall i | 0 <= i < |r|
      ensures r[i].node.uuid in keys + {k} && r[i] == MakeNodeView(nodes[r[i].node.uuid], now, timeout)
      ensures i != p ==> r[i].node.uuid != k
    {
      if i != p {
        var j := if i < p then i else i - 1;
        assert r[i] == views[j] && views[j].node.uuid in keys;
      }
    }
    InsertDistinct(views, r, p);
    InsertComplete(views, keys, r, k, p);
  }

  ghost predicate Inserted(views: seq<NodeView>, r: seq<NodeView>, p: nat) {
    && p <= |views| && |r| == |views| + 1
    && (forall i :: 0 <= i < p ==> r[i] == views[i])
    && (forall i :: p < i < |r| ==> r[i] == views[i - 1])
  }

  lemma InsertDistinct(views: seq<NodeView>, r: seq<NodeView>, p: nat)
    requires Inserted(views, r, p)
    requires forall i, j :: 0 <= i < j < |views| ==> views[i].node.uuid != views[j].node.uuid
    requires forall i :: 0 <= i < |r| && i != p ==> r[i].node.uuid != r[p].node.uuid
    ensures forall i, j :: 0 <= i < j < |r| ==> r[i].node.uuid != r[j].node.uuid
  {
    forall i, j | 0 <= i < j < |r|
      ensures r[i].node.uuid != r[j].node.uuid
    {
      if i != p && j != p {
        var a := if i < p then i else i - 1;
        var b := if j < p then j else j - 1;
        assert r[i] == views[a] && r[j] == views[b];
      }
    }
  }

  lemma InsertComplete(views: seq<NodeView>, keys: set<string>, r: seq<NodeView>, k: string, p: nat)
    requires Inserted(views, r, p) && r[p].node.uuid == k
    requires forall key :: key in keys ==> exists i :: 0 <= i < |views| && views[i].node.uuid == key
    ensures forall key :: key in keys + {k} ==> exists i :: 0 <= i < |r| && r[i].node.uuid == key
  {
    forall key | key in keys + {k}
      ensures exists i :: 0 <= i < |r| && r[i].node.uuid == key
    {
      if key != k {
        var i :| 0 <= i < |views| && views[i].node.uuid == key;
        assert r[if i < p then i else i + 1] == views[i];
      }
    }
  }

  lemma InsertSorted(views: seq<NodeView>, p: nat, v: NodeView)
    requires SortedByLastSeen(views) && p <= |views|
    requires forall i :: 0 <= i < p ==> views[i].node.lastSeen >= v.node.lastSeen
    requires forall i :: p <= i < |views| ==> views[i].node.lastSeen < v.node.lastSeen
    ensures SortedByLastSeen(Insert(views, p, v))
  {
  }

  /** Stands for sort.Slice: a sorted rearrangement of a list of distinct views. */
  method SortViews(out: seq<NodeView>, ghost keys: set<string>, ghost nodes: Nodes, now: int, timeout: int)
    returns (views: seq<NodeView>)
    requires Keyed(nodes) && Lists(out, keys, nodes, now, timeout)
    ensures Lists(views, keys, nodes, now, timeout) && SortedByLastSeen(views)
  {
    views := [];
    ghost var sorted: set<string> := {};
    for n := 0 to |out|
      invariant Lists(views, sorted, nodes, now, timeout) && SortedByLastSeen(views)
      invariant sorted <= keys
      invariant forall i :: 0 <= i < n ==> out[i].node.uuid in sorted
      invariant forall i :: n <= i < |out| ==> out[i].node.uuid !in sorted
    {
      var v := out[n];
      var p := InsertionPoint(views, v);
      ListsInsert(views, sorted, nodes, now, timeout, v.node.uuid, p);
      InsertSorted(views, p, v);
      views := Insert(views, p, v);
      sorted := sorted + {v.node.uuid};
    }
    assert sorted == keys;
  }

  method InsertionPoint(views: seq<NodeView>, v: NodeView) returns (p: nat)
    requires SortedByLastSeen(views)
    ensures p <= |views|
    ensures forall i :: 0 <= i < p ==> views[i].node.lastSeen >= v.node.lastSeen
    ensures forall i :: p <= i < |views| ==> views[i].node.lastSeen < v.node.lastSeen
  {
    p := 0;
    while p < |views| && views[p].node.lastSeen >= v.node.lastSeen
      invariant p <= |views|
      invariant forall i :: 0 <= i < p ==> views[i].node.lastSeen >= v.node.lastSeen
    {
      p := p + 1;
    }
  }
}
