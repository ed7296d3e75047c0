/** The room node graph as a value: one NodeState per node, in the order of
    the graph's node list. Every operation of RoomNode is specified here as a
    function from the graph before to the graph after, and the graph
    invariant that connection validity is meant to keep is proved about
    those functions. */
module RoomGraph {
  import opened Sequences
  import opened RoomNodeTypes

  /** The logical content of a room node: its id, its type and its two id
      lists (parentRoomNodeIDList, childRoomNodeIDList). */
  datatype NodeState = NodeState(
    id: string,
    roomType: RoomNodeType,
    parents: seq<string>,
    children: seq<string>)

  /** The ids of the graph's nodes, in list order. */
  function IdsOf(S: seq<NodeState>): seq<string> {
    seq(|S|, k requires 0 <= k < |S| => S[k].id)
  }

  /** A boss room that already hangs under some parent. */
  predicate IsConnectedBoss(n: NodeState) {
    n.roomType.isBossRoom && |n.parents| > 0
  }

  /** The flag isConnectedBossNodeAlready that IsChildRoomValid computes by
      scanning every node of the graph. */
  predicate BossConnected(S: seq<NodeState>) {
    exists k :: 0 <= k < |S| && IsConnectedBoss(S[k])
  }

  /** The checks of IsChildRoomValid, in the source's order, once the
      candidate `cand` has been looked up. `bossConnected` is the result of
      the graph-wide scan. */
  predicate CanAdopt(parent: NodeState, cand: NodeState, bossConnected: bool, maxChildCorridors: nat)
    ensures CanAdopt(parent, cand, bossConnected, maxChildCorridors) ==>
      && cand.id != parent.id
      && cand.parents == []
      && parent.roomType.isCorridor != cand.roomType.isCorridor
      && (parent.roomType.isCorridor ==> parent.children == [])
      && (cand.roomType.isCorridor ==> |parent.children| < maxChildCorridors)
  {
    && !(cand.roomType.isBossRoom && bossConnected)
    && !cand.roomType.isNone
    && cand.id !in parent.children
    && parent.id != cand.id
    && cand.id !in parent.parents
    && |cand.parents| == 0
    && !(cand.roomType.isCorridor && parent.roomType.isCorridor)
    && !(!cand.roomType.isCorridor && !parent.roomType.isCorridor)
    && !(cand.roomType.isCorridor && |parent.children| >= maxChildCorridors)
    && !cand.roomType.isEntrance
    && !(!cand.roomType.isCorridor && |parent.children| > 0)
  }

  /** The graph after node p tries to adopt node c under the caller protocol:
      p.AddChildIDToRoomNode(c.id) and, only when that returns true,
      c.AddParentIDToRoomNode(p.id). */
  function Connect(S: seq<NodeState>, p: nat, c: nat, maxChildCorridors: nat): (r: seq<NodeState>)
    requires p < |S| && c < |S|
    ensures |r| == |S| && IdsOf(r) == IdsOf(S)
    ensures forall j :: 0 <= j < |S| ==> r[j].roomType == S[j].roomType
    ensures forall j :: 0 <= j < |S| && j != p && j != c ==> r[j] == S[j]
  {
    if CanAdopt(S[p], S[c], BossConnected(S), maxChildCorridors) then
      var S1 := S[p := S[p].(children := S[p].children + [S[c].id])];
      S1[c := S1[c].(parents := S1[c].parents + [S[p].id])]
    else
      S
  }

  /** The pair of removals Draw performs for one child: c's id leaves p's
      child list, then p's id leaves c's parent list. */
  function Disconnect(S: seq<NodeState>, p: nat, c: nat): (r: seq<NodeState>)
    requires p < |S| && c < |S|
    ensures |r| == |S| && IdsOf(r) == IdsOf(S)
    ensures forall j :: 0 <= j < |S| ==> r[j].roomType == S[j].roomType
    ensures forall j :: 0 <= j < |S| && j != p && j != c ==> r[j] == S[j]
    ensures p != c ==> r[p].parents == S[p].parents && r[c].children == S[c].children
    ensures |r[p].children| == if S[c].id in S[p].children then |S[p].children| - 1 else |S[p].children|
  {
    var S1 := S[p := S[p].(children := RemoveFirst(S[p].children, S[c].id))];
    S1[c := S1[c].(parents := RemoveFirst(S1[c].parents, S[p].id))]
  }

  /** The child severing of Draw on node k: every child id that names a node
      of the graph leaves k's child list (absent ids stay, in order), and each
      node loses k's id from its parent list once per occurrence of its own
      id in k's child list. */
  function SeverChildren(S: seq<NodeState>, k: nat): (r: seq<NodeState>)
    requires k < |S|
    ensures |r| == |S| && IdsOf(r) == IdsOf(S)
    ensures forall j :: 0 <= j < |S| ==> r[j].roomType == S[j].roomType
    ensures forall x :: x in r[k].children <==> x in S[k].children && x !in IdsOf(S)
    ensures forall j :: 0 <= j < |S| && j != k ==> r[j].children == S[j].children
  {
    var n := S[k];
    var r := seq(|S|, j requires 0 <= j < |S| =>
      var m := S[j].(parents := RemoveN(S[j].parents, n.id, multiset(n.children)[S[j].id]));
      if j == k then m.(children := KeepAbsent(n.children, IdsOf(S))) else m);
    assert IdsOf(r) == IdsOf(S);
    r
  }

  /** The graph part way through the severing loop of node k, when k's child
      list has come down to C: each node has lost k's id from its parent list
      once for every occurrence of its own id already taken out of the child
      list. */
  function PartlySevered(S: seq<NodeState>, k: nat, C: seq<string>): seq<NodeState>
    requires k < |S|
  {
    var n := S[k];
    var removed := multiset(n.children) - multiset(C);
    seq(|S|, j requires 0 <= j < |S| =>
      var m := S[j].(parents := RemoveN(S[j].parents, n.id, removed[S[j].id]));
      if j == k then m.(children := C) else m)
  }

  /** Before the loop nothing is severed. */
  lemma PartlySeveredStart(S: seq<NodeState>, k: nat)
    requires k < |S|
    ensures PartlySevered(S, k, S[k].children) == S
  {
    var r := PartlySevered(S, k, S[k].children);
    forall j | 0 <= j < |S| ensures r[j] == S[j] {
      assert (multiset(S[k].children) - multiset(S[k].children))[S[j].id] == 0;
    }
  }

  /** One iteration of the loop: disconnecting k from a child c whose id is
      still in the remaining list C takes one occurrence of that id out of C. */
  lemma PartlySeveredStep(S: seq<NodeState>, k: nat, C: seq<string>, c: nat)
    requires k < |S| && c < |S| && UniqueIds(S) && S[k].parents == []
    requires S[c].id in C && multiset(C) <= multiset(S[k].children)
    ensures Disconnect(PartlySevered(S, k, C), k, c) == PartlySevered(S, k, RemoveFirst(C, S[c].id))
  {
    var x := S[c].id;
    var C' := RemoveFirst(C, x);
    RemoveFirstMultiset(C, x);
    var L := multiset(S[k].children);
    var before := PartlySevered(S, k, C);
    var after := PartlySevered(S, k, C');
    var d := Disconnect(before, k, c);
    assert (L - multiset(C'))[x] == (L - multiset(C))[x] + 1;
    forall j | 0 <= j < |S| ensures d[j] == after[j] {
      if j == c {
        if c == k {
          RemoveNEmpty(S[k].id, (L - multiset(C'))[x]);
          RemoveNEmpty(S[k].id, (L - multiset(C))[x]);
        }
      } else {
        assert S[j].id != x by { assert IdsOf(S)[j] != IdsOf(S)[c]; }
        assert (L - multiset(C'))[S[j].id] == (L - multiset(C))[S[j].id];
      }
    }
  }

  /** When only ids that name no node are left, the loop has done what
      SeverChildren describes. */
  lemma PartlySeveredEnd(S: seq<NodeState>, k: nat, C: seq<string>)
    requires k < |S|
    requires C == KeepAbsent(S[k].children, IdsOf(S))
    ensures PartlySevered(S, k, C) == SeverChildren(S, k)
  {
    var r := PartlySevered(S, k, C);
    forall j | 0 <= j < |S| ensures r[j] == SeverChildren(S, k)[j] {
      var x := S[j].id;
      assert x in IdsOf(S) && x !in C by { assert IdsOf(S)[j] == x; }
      assert (multiset(S[k].children) - multiset(C))[x] == multiset(S[k].children)[x];
    }
  }

  /** The state of the severing loop of node k when i is the next index to
      look at and the child list has come down to C: the graph S is the
      partly severed one, C keeps the same ids that name no node, and every
      entry after i names no node. */
  ghost predicate SeverLoop(S0: seq<NodeState>, k: nat, i: int, C: seq<string>, S: seq<NodeState>)
    requires k < |S0|
  {
    && -1 <= i < |C|
    && S == PartlySevered(S0, k, C)
    && multiset(C) <= multiset(S0[k].children)
    && KeepAbsent(C, IdsOf(S0)) == KeepAbsent(S0[k].children, IdsOf(S0))
    && forall m :: i < m < |C| ==> C[m] !in IdsOf(S0)
  }

  /** The loop starts at the last index of the whole child list. */
  lemma SeverLoopStart(S0: seq<NodeState>, k: nat)
    requires k < |S0|
    ensures SeverLoop(S0, k, |S0[k].children| - 1, S0[k].children, S0)
  {
    PartlySeveredStart(S0, k);
  }

  /** An iteration whose entry names node c disconnects k from c. */
  lemma SeverLoopFound(S0: seq<NodeState>, k: nat, i: int, C: seq<string>, S: seq<NodeState>, c: nat)
    requires k < |S0| && c < |S0| && UniqueIds(S0) && S0[k].parents == []
    requires SeverLoop(S0, k, i, C, S) && 0 <= i && S0[c].id == C[i]
    ensures SeverLoop(S0, k, i - 1, RemoveFirst(C, C[i]), Disconnect(S, k, c))
  {
    assert IdsOf(S0)[c] == C[i];
    PartlySeveredStep(S0, k, C, c);
    RemoveFirstMultiset(C, C[i]);
    KeepAbsentRemoveFirst(C, C[i], IdsOf(S0));
    RemoveFirstSuffix(C, i, IdsOf(S0));
  }

  /** An iteration whose entry names no node changes nothing. */
  lemma SeverLoopMissing(S0: seq<NodeState>, k: nat, i: int, C: seq<string>, S: seq<NodeState>)
    requires k < |S0| && SeverLoop(S0, k, i, C, S) && 0 <= i && C[i] !in IdsOf(S0)
    ensures SeverLoop(S0, k, i - 1, C, S)
  {
  }

  /** When the index has run off the front, the loop has severed every edge
      SeverChildren describes. */
  lemma SeverLoopEnd(S0: seq<NodeState>, k: nat, C: seq<string>, S: seq<NodeState>)
    requires k < |S0| && SeverLoop(S0, k, -1, C, S)
    ensures S == SeverChildren(S0, k)
  {
    KeepAbsentAll(C, IdsOf(S0));
    PartlySeveredEnd(S0, k, C);
  }

  /** The type selection of Draw on node k: a node with a parent, or the
      entrance, keeps its type; otherwise it takes newType, and its child
      edges are severed when the change flips corridor-ness or newly makes it
      a boss room. */
  function SelectType(S: seq<NodeState>, k: nat, newType: RoomNodeType): (r: seq<NodeState>)
    requires k < |S|
    ensures |r| == |S| && IdsOf(r) == IdsOf(S)
    ensures r[k].roomType == if |S[k].parents| > 0 || S[k].roomType.isEntrance then S[k].roomType else newType
    ensures forall j :: 0 <= j < |S| && j != k ==> r[j].roomType == S[j].roomType && r[j].children == S[j].children
  {
    var n := S[k];
    if |n.parents| > 0 || n.roomType.isEntrance then S
    else
      var S1 := S[k := n.(roomType := newType)];
      if SeversChildren(n.roomType, newType) then SeverChildren(S1, k) else S1
  }

  /** A freshly initialised node appended to the node list: a given id, a
      type and no edges. */
  function AddNode(S: seq<NodeState>, id: string, roomType: RoomNodeType): (r: seq<NodeState>)
    ensures |r| == |S| + 1 && IdsOf(r) == IdsOf(S) + [id]
    ensures forall j :: 0 <= j < |S| ==> r[j] == S[j]
    ensures r[|S|].id == id && r[|S|].roomType == roomType
    ensures r[|S|].parents == [] && r[|S|].children == []
  {
    S + [NodeState(id, roomType, [], [])]
  }

  /** The node-local part of the graph invariant. */
  predicate NodeInvariant(n: NodeState, maxChildCorridors: nat) {
    && NoDuplicates(n.children)
    && |n.parents| <= 1
    && n.id !in n.children
    && (|n.parents| > 0 ==> !n.roomType.isNone && !n.roomType.isEntrance)
    && (if n.roomType.isCorridor then |n.children| <= 1 else |n.children| <= maxChildCorridors)
  }

  /** Node ids are unique (the ids are GUIDs). */
  predicate UniqueIds(S: seq<NodeState>) {
    NoDuplicates(IdsOf(S))
  }

  /** Every node satisfies NodeInvariant. */
  predicate NodesValid(S: seq<NodeState>, maxChildCorridors: nat) {
    forall a :: 0 <= a < |S| ==> NodeInvariant(S[a], maxChildCorridors)
  }

  /** No adjacency list names an id that is not in the graph. */
  predicate Closed(S: seq<NodeState>) {
    && (forall a, x :: 0 <= a < |S| && x in S[a].children ==> x in IdsOf(S))
    && (forall a, x :: 0 <= a < |S| && x in S[a].parents ==> x in IdsOf(S))
  }

  /** b is a child of a exactly when a is a parent of b. */
  predicate Reciprocal(S: seq<NodeState>) {
    forall a, b :: 0 <= a < |S| && 0 <= b < |S| ==>
      (S[b].id in S[a].children <==> S[a].id in S[b].parents)
  }

  /** Every edge joins a corridor and a non-corridor. */
  predicate Alternating(S: seq<NodeState>) {
    forall a, b :: 0 <= a < |S| && 0 <= b < |S| && S[b].id in S[a].children ==>
      S[a].roomType.isCorridor != S[b].roomType.isCorridor
  }

  /** At most one boss room has a parent. */
  predicate SingleConnectedBoss(S: seq<NodeState>) {
    forall a, b :: 0 <= a < |S| && 0 <= b < |S| && IsConnectedBoss(S[a]) && IsConnectedBoss(S[b]) ==>
      a == b
  }

  /** What a graph built only through the connection rules looks like: unique
      ids, no dangling ids, reciprocal edges, every edge between a corridor
      and a non-corridor, at most one parent per node, and at most one boss
      room with a parent. */
  predicate Invariant(S: seq<NodeState>, maxChildCorridors: nat) {
    && UniqueIds(S)
    && NodesValid(S, maxChildCorridors)
    && Closed(S)
    && Reciprocal(S)
    && Alternating(S)
    && SingleConnectedBoss(S)
  }

  /** IsChildRoomValid, restated: the candidate is accepted exactly when it
      is another node, not yet a child or a parent of this one, has no parent,
      is neither unassigned nor the entrance, exactly one of the two is a
      corridor, the fan-out allows it (a corridor candidate needs fewer than
      maxChildCorridors children, any other candidate needs none), and a boss
      room only while no boss room is connected. */
  lemma CanAdoptCharacterization(parent: NodeState, cand: NodeState, bossConnected: bool, maxChildCorridors: nat)
    ensures CanAdopt(parent, cand, bossConnected, maxChildCorridors) <==>
      && cand.id != parent.id
      && cand.id !in parent.children
      && cand.id !in parent.parents
      && cand.parents == []
      && !cand.roomType.isNone
      && !cand.roomType.isEntrance
      && (parent.roomType.isCorridor != cand.roomType.isCorridor)
      && (cand.roomType.isCorridor ==> |parent.children| < maxChildCorridors)
      && (!cand.roomType.isCorridor ==> parent.children == [])
      && (cand.roomType.isBossRoom ==> !bossConnected)
  {
  }

  /** A boss room is never adopted while some boss room of the graph already
      has a parent. */
  lemma BossRoomRejected(S: seq<NodeState>, p: nat, c: nat, maxChildCorridors: nat)
    requires p < |S| && c < |S|
    requires S[c].roomType.isBossRoom
    requires exists k :: 0 <= k < |S| && S[k].roomType.isBossRoom && |S[k].parents| > 0
    ensures Connect(S, p, c, maxChildCorridors) == S
  {
  }

  /** How a successful connection changes the graph: p gains c as its last
      child, c gains p as its only parent, nothing else changes. */
  predicate ConnectShape(S: seq<NodeState>, r: seq<NodeState>, p: nat, c: nat) {
    && p < |S| && c < |S| && p != c && |r| == |S|
    && r[p] == S[p].(children := S[p].children + [S[c].id])
    && r[c] == S[c].(parents := [S[p].id])
    && (forall j :: 0 <= j < |S| && j != p && j != c ==> r[j] == S[j])
  }

  lemma ConnectHasShape(S: seq<NodeState>, p: nat, c: nat, maxChildCorridors: nat)
    requires p < |S| && c < |S|
    requires CanAdopt(S[p], S[c], BossConnected(S), maxChildCorridors)
    ensures ConnectShape(S, Connect(S, p, c, maxChildCorridors), p, c)
    ensures IdsOf(Connect(S, p, c, maxChildCorridors)) == IdsOf(S)
  {
  }

  lemma ConnectKeepsNodesValid(S: seq<NodeState>, r: seq<NodeState>, p: nat, c: nat, maxChildCorridors: nat)
    requires ConnectShape(S, r, p, c) && NodesValid(S, maxChildCorridors)
    requires CanAdopt(S[p], S[c], BossConnected(S), maxChildCorridors)
    ensures NodesValid(r, maxChildCorridors)
  {
    forall a | 0 <= a < |r| ensures NodeInvariant(r[a], maxChildCorridors) {
      assert NodeInvariant(S[a], maxChildCorridors);
    }
  }

  lemma ConnectKeepsReciprocal(S: seq<NodeState>, r: seq<NodeState>, p: nat, c: nat)
    requires ConnectShape(S, r, p, c) && UniqueIds(S) && Reciprocal(S)
    requires S[c].parents == [] && S[c].id !in S[p].children
    ensures Reciprocal(r)
  {
    forall a, b | 0 <= a < |r| && 0 <= b < |r|
      ensures r[b].id in r[a].children <==> r[a].id in r[b].parents
    {
      assert r[a].id == S[a].id && r[b].id == S[b].id;
      if a == p && b == c {
      } else if a == p {
        assert S[b].id != S[c].id by { assert IdsOf(S)[b] != IdsOf(S)[c]; }
      } else if b == c {
        assert S[a].id != S[p].id by { assert IdsOf(S)[a] != IdsOf(S)[p]; }
      }
    }
  }

  lemma ConnectKeepsAlternating(S: seq<NodeState>, r: seq<NodeState>, p: nat, c: nat)
    requires ConnectShape(S, r, p, c) && UniqueIds(S) && Alternating(S)
    requires S[p].roomType.isCorridor != S[c].roomType.isCorridor
    ensures Alternating(r)
  {
    forall a, b | 0 <= a < |r| && 0 <= b < |r| && r[b].id in r[a].children
      ensures r[a].roomType.isCorridor != r[b].roomType.isCorridor
    {
      assert r[a].roomType == S[a].roomType && r[b].roomType == S[b].roomType && r[b].id == S[b].id;
      if a == p && S[b].id == S[c].id {
        assert IdsOf(S)[b] == IdsOf(S)[c];
      }
    }
  }

  lemma ConnectKeepsSingleConnectedBoss(S: seq<NodeState>, r: seq<NodeState>, p: nat, c: nat)
    requires ConnectShape(S, r, p, c) && SingleConnectedBoss(S)
    requires S[c].roomType.isBossRoom ==> !BossConnected(S)
    ensures SingleConnectedBoss(r)
  {
    forall a, b | 0 <= a < |r| && 0 <= b < |r| && IsConnectedBoss(r[a]) && IsConnectedBoss(r[b])
      ensures a == b
    {
      if a != c && b != c {
        assert IsConnectedBoss(S[a]) && IsConnectedBoss(S[b]);
      }
    }
  }

  /** Connecting keeps the graph invariant: this is what the eleven checks
      of IsChildRoomValid are for. In particular a node never gains a second
      parent and a child list never gains a duplicate. */
  lemma ConnectPreservesInvariant(S: seq<NodeState>, p: nat, c: nat, maxChildCorridors: nat)
    requires p < |S| && c < |S|
    requires Invariant(S, maxChildCorridors)
    ensures Invariant(Connect(S, p, c, maxChildCorridors), maxChildCorridors)
  {
    if CanAdopt(S[p], S[c], BossConnected(S), maxChildCorridors) {
      var r := Connect(S, p, c, maxChildCorridors);
      ConnectHasShape(S, p, c, maxChildCorridors);
      ConnectKeepsNodesValid(S, r, p, c, maxChildCorridors);
      ConnectKeepsReciprocal(S, r, p, c);
      ConnectKeepsAlternating(S, r, p, c);
      ConnectKeepsSingleConnectedBoss(S, r, p, c);
      assert Closed(r) by {
        assert IdsOf(S)[c] == S[c].id && IdsOf(S)[p] == S[p].id;
      }
    }
  }

  /** Disconnecting the pair that a successful connection just joined gives
      back the graph before it: the removals of Draw undo AddChildIDToRoomNode
      followed by AddParentIDToRoomNode. */
  lemma DisconnectUndoesConnect(S: seq<NodeState>, p: nat, c: nat, maxChildCorridors: nat)
    requires p < |S| && c < |S|
    requires CanAdopt(S[p], S[c], BossConnected(S), maxChildCorridors)
    ensures Disconnect(Connect(S, p, c, maxChildCorridors), p, c) == S
  {
    var r := Connect(S, p, c, maxChildCorridors);
    ConnectHasShape(S, p, c, maxChildCorridors);
    RemoveFirstAfterAppend(S[p].children, S[c].id);
    RemoveFirstAfterAppend([], S[p].id);
    var d := Disconnect(r, p, c);
    assert d[p] == S[p];
    assert d[c] == S[c];
  }

  /** How a severing type change looks on a graph that keeps the invariant:
      node k takes the new type and loses every child, each former child
      loses its only parent, and nothing else changes. */
  predicate SeverShape(S: seq<NodeState>, r: seq<NodeState>, k: nat, newType: RoomNodeType) {
    && k < |S| && |r| == |S|
    && r[k] == NodeState(S[k].id, newType, [], [])
    && (forall j :: 0 <= j < |S| && j != k ==>
          r[j] == S[j].(parents := if S[j].id in S[k].children then [] else S[j].parents))
  }

  lemma SeverHasShape(S: seq<NodeState>, k: nat, newType: RoomNodeType, maxChildCorridors: nat)
    requires k < |S| && NodesValid(S, maxChildCorridors) && Closed(S) && Reciprocal(S)
    requires S[k].parents == []
    ensures SeverShape(S, SeverChildren(S[k := S[k].(roomType := newType)], k), k, newType)
  {
    var n := S[k];
    var S1 := S[k := n.(roomType := newType)];
    var r := SeverChildren(S1, k);
    assert IdsOf(S1) == IdsOf(S);
    assert NodeInvariant(n, maxChildCorridors);
    assert forall x :: x in n.children ==> x in IdsOf(S);
    KeepAbsentNone(n.children, IdsOf(S));
    forall j | 0 <= j < |S|
      ensures r[j].parents == if j != k && S[j].id in n.children then [] else S[j].parents
    {
      assert NodeInvariant(S[j], maxChildCorridors);
      SeverParentsAt(S, k, j, maxChildCorridors);
    }
  }

  /** A node's parent list after severing k: a child of k had k as its only
      parent and is left with none; any other node keeps its parents. */
  lemma SeverParentsAt(S: seq<NodeState>, k: nat, j: nat, maxChildCorridors: nat)
    requires k < |S| && j < |S|
    requires NodeInvariant(S[k], maxChildCorridors) && NodeInvariant(S[j], maxChildCorridors)
    requires S[j].id in S[k].children ==> S[k].id in S[j].parents
    ensures RemoveN(S[j].parents, S[k].id, multiset(S[k].children)[S[j].id]) ==
            if S[j].id in S[k].children then [] else S[j].parents
  {
    NoDuplicatesCount(S[k].children, S[j].id);
    if S[j].id in S[k].children {
      assert S[j].parents == [S[k].id];
      assert RemoveN(S[j].parents, S[k].id, 1) == RemoveFirst(S[j].parents, S[k].id);
    }
  }

  lemma SeverKeepsNodesValid(S: seq<NodeState>, r: seq<NodeState>, k: nat, newType: RoomNodeType, maxChildCorridors: nat)
    requires SeverShape(S, r, k, newType) && NodesValid(S, maxChildCorridors)
    ensures NodesValid(r, maxChildCorridors)
  {
    forall a | 0 <= a < |r| ensures NodeInvariant(r[a], maxChildCorridors) {
      assert NodeInvariant(S[a], maxChildCorridors);
    }
  }

  lemma SeverKeepsReciprocal(S: seq<NodeState>, r: seq<NodeState>, k: nat, newType: RoomNodeType, maxChildCorridors: nat)
    requires SeverShape(S, r, k, newType) && UniqueIds(S) && Reciprocal(S) && S[k].parents == []
    requires NodesValid(S, maxChildCorridors)
    ensures Reciprocal(r)
  {
    forall a, b | 0 <= a < |r| && 0 <= b < |r|
      ensures r[b].id in r[a].children <==> r[a].id in r[b].parents
    {
      assert r[a].id == S[a].id && r[b].id == S[b].id;
      if a != k && b != k && S[b].id in S[k].children {
        assert S[k].id in S[b].parents;
        assert NodeInvariant(S[b], maxChildCorridors);
        assert S[a].id != S[k].id by { assert IdsOf(S)[a] != IdsOf(S)[k]; }
      }
    }
  }

  lemma SeverKeepsAlternating(S: seq<NodeState>, r: seq<NodeState>, k: nat, newType: RoomNodeType)
    requires SeverShape(S, r, k, newType) && Reciprocal(S) && Alternating(S) && S[k].parents == []
    ensures Alternating(r)
  {
    forall a, b | 0 <= a < |r| && 0 <= b < |r| && r[b].id in r[a].children
      ensures r[a].roomType.isCorridor != r[b].roomType.isCorridor
    {
      assert a != k;
      assert S[b].id in S[a].children;
    }
  }

  lemma SeverKeepsSingleConnectedBoss(S: seq<NodeState>, r: seq<NodeState>, k: nat, newType: RoomNodeType)
    requires SeverShape(S, r, k, newType) && SingleConnectedBoss(S)
    ensures SingleConnectedBoss(r)
  {
    forall a, b | 0 <= a < |r| && 0 <= b < |r| && IsConnectedBoss(r[a]) && IsConnectedBoss(r[b])
      ensures a == b
    {
      assert a != k && b != k;
      assert IsConnectedBoss(S[a]) && IsConnectedBoss(S[b]);
    }
  }

  /** A type change that keeps corridor-ness touches no edge: node k has no
      parent, so only its own type changes. */
  lemma RetypeKeepsInvariant(S: seq<NodeState>, k: nat, newType: RoomNodeType, maxChildCorridors: nat)
    requires k < |S| && Invariant(S, maxChildCorridors)
    requires S[k].parents == [] && S[k].roomType.isCorridor == newType.isCorridor
    ensures Invariant(S[k := S[k].(roomType := newType)], maxChildCorridors)
  {
    var r := S[k := S[k].(roomType := newType)];
    assert IdsOf(r) == IdsOf(S);
    assert NodesValid(r, maxChildCorridors) by {
      forall a | 0 <= a < |r| ensures NodeInvariant(r[a], maxChildCorridors) {
        assert NodeInvariant(S[a], maxChildCorridors);
      }
    }
    assert SingleConnectedBoss(r) by {
      forall a, b | 0 <= a < |r| && 0 <= b < |r| && IsConnectedBoss(r[a]) && IsConnectedBoss(r[b])
        ensures a == b
      {
        assert IsConnectedBoss(S[a]) && IsConnectedBoss(S[b]);
      }
    }
  }

  /** The type selection of Draw keeps the graph invariant. */
  lemma SelectTypePreservesInvariant(S: seq<NodeState>, k: nat, newType: RoomNodeType, maxChildCorridors: nat)
    requires k < |S| && Invariant(S, maxChildCorridors)
    ensures Invariant(SelectType(S, k, newType), maxChildCorridors)
  {
    var n := S[k];
    if |n.parents| == 0 && !n.roomType.isEntrance {
      if SeversChildren(n.roomType, newType) {
        var r := SelectType(S, k, newType);
        SeverHasShape(S, k, newType, maxChildCorridors);
        assert IdsOf(r) == IdsOf(S) by {
          assert forall j :: 0 <= j < |S| ==> r[j].id == S[j].id;
        }
        SeverKeepsNodesValid(S, r, k, newType, maxChildCorridors);
        SeverKeepsReciprocal(S, r, k, newType, maxChildCorridors);
        SeverKeepsAlternating(S, r, k, newType);
        SeverKeepsSingleConnectedBoss(S, r, k, newType);
      } else {
        RetypeKeepsInvariant(S, k, newType, maxChildCorridors);
      }
    }
  }

  /** On a graph that keeps the invariant, a severing type change leaves the
      node with no child and no node with it as a parent: every edge out of it
      is gone on both sides. */
  lemma SelectTypeSeversAllEdges(S: seq<NodeState>, k: nat, newType: RoomNodeType, maxChildCorridors: nat)
    requires k < |S| && Invariant(S, maxChildCorridors)
    requires S[k].parents == [] && !S[k].roomType.isEntrance
    requires SeversChildren(S[k].roomType, newType)
    ensures SelectType(S, k, newType)[k].children == []
    ensures SelectType(S, k, newType)[k].roomType == newType
    ensures forall j :: 0 <= j < |S| ==> S[k].id !in SelectType(S, k, newType)[j].parents
  {
    var r := SelectType(S, k, newType);
    SeverHasShape(S, k, newType, maxChildCorridors);
    forall j | 0 <= j < |S| ensures S[k].id !in r[j].parents {
    }
  }

  /** Appending a freshly initialised node under an unused id keeps the graph
      invariant. */
  lemma AddNodePreservesInvariant(S: seq<NodeState>, id: string, roomType: RoomNodeType, maxChildCorridors: nat)
    requires Invariant(S, maxChildCorridors) && id !in IdsOf(S)
    ensures Invariant(AddNode(S, id, roomType), maxChildCorridors)
  {
    var r := AddNode(S, id, roomType);
    assert IdsOf(r) == IdsOf(S) + [id];
    assert NodesValid(r, maxChildCorridors) by {
      forall a | 0 <= a < |r| ensures NodeInvariant(r[a], maxChildCorridors) {
        if a < |S| { assert NodeInvariant(S[a], maxChildCorridors); }
      }
    }
    assert Reciprocal(r) by {
      forall a, b | 0 <= a < |r| && 0 <= b < |r|
        ensures r[b].id in r[a].children <==> r[a].id in r[b].parents
      {
      }
    }
    assert Alternating(r) by {
      forall a, b | 0 <= a < |r| && 0 <= b < |r| && r[b].id in r[a].children
        ensures r[a].roomType.isCorridor != r[b].roomType.isCorridor
      {
      }
    }
  }

  /** The lock of Draw: a node with a parent, or the entrance, keeps its
      type and the graph stays as it is; any other node takes the picked
      type, and when that type does not sever, nothing else changes. */
  lemma SelectTypeLock(S: seq<NodeState>, k: nat, newType: RoomNodeType)
    requires k < |S|
    ensures |SelectType(S, k, newType)| == |S|
    ensures |S[k].parents| > 0 || S[k].roomType.isEntrance ==> SelectType(S, k, newType) == S
    ensures |S[k].parents| == 0 && !S[k].roomType.isEntrance ==> SelectType(S, k, newType)[k].roomType == newType
    ensures |S[k].parents| == 0 && !S[k].roomType.isEntrance && !SeversChildren(S[k].roomType, newType) ==>
      SelectType(S, k, newType) == S[k := S[k].(roomType := newType)]
  {
  }

  /** Re-picking the current type, which Draw does on every repaint where
      the dropdown is left alone, changes nothing in the graph. */
  lemma SelectTypeRepickCurrent(S: seq<NodeState>, k: nat)
    requires k < |S|
    ensures SelectType(S, k, S[k].roomType) == S
  {
  }

  /** On any graph, a severing type change keeps exactly the child ids that
      name no node, and a node that is not a child keeps its parent list. */
  lemma SelectTypeKeepsUnknownChildren(S: seq<NodeState>, k: nat, newType: RoomNodeType)
    requires k < |S| && S[k].parents == [] && !S[k].roomType.isEntrance
    requires SeversChildren(S[k].roomType, newType)
    ensures forall x :: x in SelectType(S, k, newType)[k].children <==> x in S[k].children && x !in IdsOf(S)
    ensures forall j :: 0 <= j < |S| && S[j].id !in S[k].children ==>
      SelectType(S, k, newType)[j].parents == S[j].parents
  {
    var S1 := S[k := S[k].(roomType := newType)];
    assert IdsOf(S1) == IdsOf(S);
    forall j | 0 <= j < |S| && S[j].id !in S[k].children
      ensures SelectType(S, k, newType)[j].parents == S[j].parents
    {
      assert multiset(S[k].children)[S[j].id] == 0;
    }
  }
}
