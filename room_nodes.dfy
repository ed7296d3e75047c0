/** The room node as the editor holds it: an object whose id lists are
    updated in place, found by id in the graph's node list. Each method's
    effect on the whole graph is tied to the value-level functions of
    RoomGraph through Snapshot. */
module RoomNodes {
  import opened Options
  import opened Sequences
  import opened RoomNodeTypes
  import opened RoomGraph

  class RoomNode {
    /** Assigned once by Init and never changed. */
    const id: string
    var roomType: RoomNodeType
    /** parentRoomNodeIDList */
    var parents: seq<string>
    /** childRoomNodeIDList */
    var children: seq<string>
    /** The room node type list, passed in instead of being fetched from the
        GameResources singleton. */
    const roomNodeTypeList: seq<RoomNodeType>

    /** Init: a node with the given fresh id (Guid.NewGuid() in the source),
        the given type and no edges. */
    constructor (id: string, roomType: RoomNodeType, roomNodeTypeList: seq<RoomNodeType>)
      ensures this.id == id && this.roomType == roomType && this.roomNodeTypeList == roomNodeTypeList
      ensures parents == [] && children == []
    {
      this.id := id;
      this.roomType := roomType;
      this.parents := [];
      this.children := [];
      this.roomNodeTypeList := roomNodeTypeList;
    }

    /** The node's logical content as a value. */
    function State(): NodeState
      reads this
    {
      NodeState(id, roomType, parents, children)
    }

    /** The names offered by the type dropdown: entry i is the name of type i
        when that type is displayed in the editor, and null (None) otherwise. */
    method GetRoomNodeTypesToDisplay() returns (roomArray: array<Option<string>>)
      ensures fresh(roomArray) && roomArray.Length == |roomNodeTypeList|
      ensures forall i :: 0 <= i < roomArray.Length ==>
        roomArray[i] == if roomNodeTypeList[i].displayInNodeGraphEditor then Some(roomNodeTypeList[i].name) else None
    {
      roomArray := new Option<string>[|roomNodeTypeList|](_ => None);
      for i := 0 to |roomNodeTypeList|
        invariant forall m :: 0 <= m < i ==>
          roomArray[m] == if roomNodeTypeList[m].displayInNodeGraphEditor then Some(roomNodeTypeList[m].name) else None
        invariant forall m :: i <= m < roomArray.Length ==> roomArray[m] == None
      {
        if roomNodeTypeList[i].displayInNodeGraphEditor {
          roomArray[i] := Some(roomNodeTypeList[i].name);
        }
      }
    }

    /** Whether the node with id childID may become a child of this node. The
        source dereferences the looked-up node without a null check, so the
        id must name a node of the graph. */
    method IsChildRoomValid(graph: seq<RoomNode>, childID: string, maxChildCorridors: nat) returns (valid: bool)
      requires childID in Ids(graph)
      ensures valid == CanAdopt(State(), GetRoomNode(graph, childID).value.State(), BossConnected(Snapshot(graph)), maxChildCorridors)
    {
      var roomNode := GetRoomNode(graph, childID).value;

      var isConnectedBossNodeAlready := false;
      for k := 0 to |graph|
        invariant isConnectedBossNodeAlready <==> exists m :: 0 <= m < k && IsConnectedBoss(graph[m].State())
      {
        var node := graph[k];
        if node.roomType.isBossRoom && |node.parents| > 0 {
          isConnectedBossNodeAlready := true;
        }
      }
      assert isConnectedBossNodeAlready == BossConnected(Snapshot(graph));

      if roomNode.roomType.isBossRoom && isConnectedBossNodeAlready {
        return false;
      }
      if roomNode.roomType.isNone {
        return false;
      }
      if childID in children {
        return false;
      }
      if id == childID {
        return false;
      }
      if childID in parents {
        return false;
      }
      if |roomNode.parents| > 0 {
        return false;
      }
      if roomNode.roomType.isCorridor && roomType.isCorridor {
        return false;
      }
      if !roomNode.roomType.isCorridor && !roomType.isCorridor {
        return false;
      }
      if roomNode.roomType.isCorridor && |children| >= maxChildCorridors {
        return false;
      }
      if roomNode.roomType.isEntrance {
        return false;
      }
      if !roomNode.roomType.isCorridor && |children| > 0 {
        return false;
      }
      return true;
    }

    /** Appends childID to the child list when IsChildRoomValid accepts it.
        Only this node's child list changes; the child's parent list is left
        to the caller. */
    method AddChildIDToRoomNode(graph: seq<RoomNode>, childID: string, maxChildCorridors: nat) returns (added: bool)
      requires childID in Ids(graph)
      modifies this
      ensures added == old(CanAdopt(State(), GetRoomNode(graph, childID).value.State(),
                                    BossConnected(Snapshot(graph)), maxChildCorridors))
      ensures children == if added then old(children) + [childID] else old(children)
      ensures parents == old(parents) && roomType == old(roomType)
    {
      added := IsChildRoomValid(graph, childID, maxChildCorridors);
      if added {
        children := children + [childID];
      }
    }

    /** Appends parentID to the parent list, without any check, and reports
        success. */
    method AddParentIDToRoomNode(parentID: string) returns (added: bool)
      modifies this
      ensures added
      ensures parents == old(parents) + [parentID]
      ensures children == old(children) && roomType == old(roomType)
    {
      parents := parents + [parentID];
      return true;
    }

    /** Removes the first occurrence of childID from the child list; reports
        whether there was one. */
    method RemoveChildIDFromRoomNode(childID: string) returns (removed: bool)
      modifies this
      ensures removed == (childID in old(children))
      ensures children == RemoveFirst(old(children), childID)
      ensures parents == old(parents) && roomType == old(roomType)
    {
      if childID in children {
        children := RemoveFirst(children, childID);
        return true;
      }
      return false;
    }

    /** Removes the first occurrence of parentID from the parent list; reports
        whether there was one. */
    method RemoveParentIDFromRoomNode(parentID: string) returns (removed: bool)
      modifies this
      ensures removed == (parentID in old(parents))
      ensures parents == RemoveFirst(old(parents), parentID)
      ensures children == old(children) && roomType == old(roomType)
    {
      if parentID in parents {
        parents := RemoveFirst(parents, parentID);
        return true;
      }
      return false;
    }

    /** The type selection part of Draw. A node that has a parent, or is the
        entrance, shows its type as a label and nothing changes. Otherwise the
        node takes the type picked in the dropdown (`selection`, an index into
        the type list); when that flips corridor-ness or newly makes it a boss
        room, every child found in the graph is removed from the child list
        and this node's id is removed from that child's parent list, walking
        the child list backwards. Ids that name no node stay. The previous
        type is the current one: the source finds its index in the type list,
        and fails when it is not there. */
    method SelectRoomNodeType(graph: seq<RoomNode>, selection: nat)
      requires NoDuplicates(Ids(graph)) && this in graph
      requires parents == [] && !roomType.isEntrance ==> selection < |roomNodeTypeList|
      requires parents == [] && !roomType.isEntrance ==> roomType in roomNodeTypeList
      modifies graph
      ensures old(parents) != [] || old(roomType).isEntrance ==> Snapshot(graph) == old(Snapshot(graph))
      ensures old(parents) == [] && !old(roomType).isEntrance ==>
        Snapshot(graph) == SelectType(old(Snapshot(graph)), IndexOf(Ids(graph), id), roomNodeTypeList[selection])
    {
      ghost var k := IndexOf(Ids(graph), id);
      NodeAt(graph, this);
      if |parents| > 0 || roomType.isEntrance {
        return;
      }

      var previous := roomType;
      SetRoomType(graph, roomNodeTypeList[selection]);
      if SeversChildren(previous, roomType) {
        if |children| > 0 {
          SeverFoundChildren(graph);
        } else {
          SeverLoopStart(Snapshot(graph), k);
          SeverLoopEnd(Snapshot(graph), k, [], Snapshot(graph));
        }
      }
    }

    /** The assignment of the picked type to this node; no other node and
        no other field changes. */
    method SetRoomType(graph: seq<RoomNode>, t: RoomNodeType)
      requires NoDuplicates(Ids(graph)) && this in graph
      modifies this
      ensures roomType == t && parents == old(parents) && children == old(children)
      ensures Snapshot(graph) == old(Snapshot(graph))[IndexOf(Ids(graph), id) := old(State()).(roomType := t)]
    {
      ghost var S0 := Snapshot(graph);
      roomType := t;
      SnapshotOneChanged(graph, this, S0);
    }

    /** The body of the severing loop for a child found in the graph: the
        child's id leaves this node's child list, then this node's id leaves
        the child's parent list. */
    method DisconnectChild(graph: seq<RoomNode>, child: RoomNode)
      requires NoDuplicates(Ids(graph)) && this in graph && child in graph
      modifies this, child
      ensures Snapshot(graph) == Disconnect(old(Snapshot(graph)), IndexOf(Ids(graph), id), IndexOf(Ids(graph), child.id))
      ensures children == RemoveFirst(old(children), child.id)
    {
      ghost var S0 := Snapshot(graph);
      var _ := RemoveChildIDFromRoomNode(child.id);
      SnapshotOneChanged(graph, this, S0);
      ghost var S1 := Snapshot(graph);
      var _ := child.RemoveParentIDFromRoomNode(id);
      SnapshotOneChanged(graph, child, S1);
    }

    /** The backward loop of Draw over the child list: each child id that
        names a node of the graph is removed here, and this node's id is
        removed from that node's parent list. */
    method SeverFoundChildren(graph: seq<RoomNode>)
      requires NoDuplicates(Ids(graph)) && this in graph && parents == []
      modifies graph
      ensures Snapshot(graph) == SeverChildren(old(Snapshot(graph)), IndexOf(Ids(graph), id))
    {
      ghost var S0 := Snapshot(graph);
      ghost var k := IndexOf(Ids(graph), id);
      NodeAt(graph, this);
      SeverLoopStart(S0, k);
      var i := |children| - 1;
      while i >= 0
        invariant SeverLoop(S0, k, i, children, Snapshot(graph))
      {
        var found := GetRoomNode(graph, children[i]);
        if found.Some? {
          var child := found.value;
          ghost var c := IndexOf(Ids(graph), children[i]);
          ghost var before := children;
          ghost var S := Snapshot(graph);
          assert child == graph[c] && S0[c].id == children[i] by {
            assert IdsOf(S0)[c] == Ids(graph)[c];
          }
          DisconnectChild(graph, child);
          SeverLoopFound(S0, k, i, before, S, c);
        } else {
          SeverLoopMissing(S0, k, i, children, Snapshot(graph));
        }
        i := i - 1;
      }
      SeverLoopEnd(S0, k, children, Snapshot(graph));
    }
  }

  /** The ids of the graph's nodes, in list order. */
  function Ids(graph: seq<RoomNode>): (ids: seq<string>)
    ensures |ids| == |graph| && forall k {:trigger graph[k]} :: 0 <= k < |graph| ==> ids[k] == graph[k].id
  {
    seq(|graph|, k requires 0 <= k < |graph| => graph[k].id)
  }

  /** RoomNodeGraphSO.GetRoomNode (not part of this model) as a search of the
      node list: the first node with that id, or None when there is none. */
  function GetRoomNode(graph: seq<RoomNode>, id: string): (r: Option<RoomNode>)
    ensures id in Ids(graph) ==> r == Some(graph[IndexOf(Ids(graph), id)])
    ensures id !in Ids(graph) ==> r == None
  {
    if graph == [] then None
    else if graph[0].id == id then
      assert Ids(graph)[0] == id;
      Some(graph[0])
    else
      assert Ids(graph) == [graph[0].id] + Ids(graph[1..]);
      assert id in Ids(graph) ==> IndexOf(Ids(graph), id) == IndexOf(Ids(graph[1..]), id) + 1;
      GetRoomNode(graph[1..], id)
  }

  /** When every node of the graph other than n still has the state it had
      in the earlier snapshot S0, the snapshot differs from S0 at n's index
      only. */
  lemma SnapshotOneChanged(graph: seq<RoomNode>, n: RoomNode, S0: seq<NodeState>)
    requires NoDuplicates(Ids(graph)) && n in graph && |S0| == |graph|
    requires forall j :: 0 <= j < |graph| && graph[j] != n ==> S0[j] == graph[j].State()
    ensures Snapshot(graph) == S0[IndexOf(Ids(graph), n.id) := n.State()]
  {
    var k := IndexOf(Ids(graph), n.id);
    NodeAt(graph, n);
    forall j | 0 <= j < |graph| ensures Snapshot(graph)[j] == S0[k := n.State()][j] {
      if j != k {
        assert Ids(graph)[j] != Ids(graph)[k];
      }
    }
  }

  /** The whole graph as a value. */
  ghost function Snapshot(graph: seq<RoomNode>): (S: seq<NodeState>)
    reads graph
    ensures |S| == |graph| && forall k :: 0 <= k < |graph| ==> S[k] == graph[k].State()
    ensures IdsOf(S) == Ids(graph)
  {
    seq(|graph|, k requires 0 <= k < |graph| reads graph => graph[k].State())
  }

  /** With unique ids, a node of the list sits at the position of its id. */
  lemma NodeAt(graph: seq<RoomNode>, n: RoomNode)
    requires NoDuplicates(Ids(graph)) && n in graph
    ensures graph[IndexOf(Ids(graph), n.id)] == n
  {
    var j :| 0 <= j < |graph| && graph[j] == n;
    assert Ids(graph)[j] == n.id;
  }

  /** The caller protocol for drawing an edge from parent to the node with id
      childID (the caller itself is not part of this model): AddChildIDToRoomNode
      on the parent and, only when it returns true, AddParentIDToRoomNode on
      the child. On a graph that keeps the invariant, it keeps it. */
  method TryConnect(graph: seq<RoomNode>, parent: RoomNode, childID: string, maxChildCorridors: nat)
    returns (connected: bool)
    requires NoDuplicates(Ids(graph)) && parent in graph && childID in Ids(graph)
    modifies graph
    ensures connected == old(CanAdopt(parent.State(), GetRoomNode(graph, childID).value.State(),
                                      BossConnected(Snapshot(graph)), maxChildCorridors))
    ensures Snapshot(graph) == Connect(old(Snapshot(graph)), IndexOf(Ids(graph), parent.id),
                                       IndexOf(Ids(graph), childID), maxChildCorridors)
    ensures Invariant(old(Snapshot(graph)), maxChildCorridors) ==> Invariant(Snapshot(graph), maxChildCorridors)
  {
    ghost var S0 := Snapshot(graph);
    ghost var p := IndexOf(Ids(graph), parent.id);
    ghost var c := IndexOf(Ids(graph), childID);
    NodeAt(graph, parent);
    connected := parent.AddChildIDToRoomNode(graph, childID, maxChildCorridors);
    SnapshotOneChanged(graph, parent, S0);
    if connected {
      var child := GetRoomNode(graph, childID).value;
      ghost var S1 := Snapshot(graph);
      var _ := child.AddParentIDToRoomNode(parent.id);
      SnapshotOneChanged(graph, child, S1);
    } else {
      assert S0[p := parent.State()] == S0;
    }
    if Invariant(S0, maxChildCorridors) {
      ConnectPreservesInvariant(S0, p, c, maxChildCorridors);
    }
  }
}
