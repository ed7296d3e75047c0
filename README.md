# Room node graph: connection rules and type changes

This project models the room node of the dungeon-graph editor of
MyDungeonGunnerCourse (`RoomNodeSO`). It covers:

- the rule that decides whether one room node may become the child of
  another (`IsChildRoomValid`, used by `AddChildIDToRoomNode`);
- the four id-list mutators;
- the list of type names offered by the type dropdown
  (`GetRoomNodeTypesToDisplay`);
- the part of `Draw` that changes a node's type and, when the change flips
  corridor-ness or newly makes the node a boss room, cuts every edge to its
  children.

The model has four modules:

- `Sequences` (`sequences.dfy`): the operations of
  `List<string>` that the node uses: `Contains` as `in`, `Add` as append,
  and `Remove` as `RemoveFirst`. `IndexOf` (the position of the first
  occurrence) is a helper the proofs use to find a node or an id; the
  source does not call it.
- `RoomNodeTypes` (`room_node_types.dfy`): the room node type as a value,
  and the condition under which a type change severs the children.
- `RoomGraph` (`room_graph.dfy`): the graph as a value, one `NodeState` per
  node in the order of the node list. Every operation is also a function
  from the graph before to the graph after: `Connect`, `Disconnect`,
  `SeverChildren`, `SelectType` and `AddNode`. The graph invariant that the
  connection rules keep is stated here (`Invariant`) and proved about those
  functions.
- `RoomNodes` (`room_nodes.dfy`): the `RoomNode` class whose id lists are
  updated in place, with the graph's node list as a `seq<RoomNode>`. The
  methods that act on a single node (`AddChildIDToRoomNode`,
  `AddParentIDToRoomNode`, `RemoveChildIDFromRoomNode`,
  `RemoveParentIDFromRoomNode`) state their effect on that node's fields,
  framed by `modifies this`; `IsChildRoomValid` and
  `GetRoomNodeTypesToDisplay` change no node. The methods that act on the
  graph (`SelectRoomNodeType`, `SetRoomType`, `DisconnectChild`,
  `SeverFoundChildren`, `TryConnect`) state their effect on the whole graph
  through `Snapshot(graph)`, the graph read as a value, as the matching
  `RoomGraph` function, so the lemmas proved there apply to them.

Decisions that follow the code:

- **Fan-out.**
  - A non-corridor node may take corridor children while it has fewer
    than `maxChildCorridors` children.
  - A corridor node may take a (non-corridor) child only while it has no
    child at all.
  - This follows `RoomNodeSO.cs:221` and `:227`: the bound of line 221
    applies to corridor candidates, so it limits the corridor children of
    a room, and line 227 lets a corridor take a room only while it has no
    child.
- **Previous type.** `Draw` finds the previous type by looking up the
  current type in the type list (`FindIndex`). The model uses the current
  type directly and requires it to be in the list, which is where the
  source would fail.
- **Connecting.** `AddChildIDToRoomNode` only updates the parent's child
  list. The caller is expected to call `AddParentIDToRoomNode` on the child
  when it returns true. That caller is not part of this model, so the
  protocol is modelled as `TryConnect` and `Connect`.
- **Boss rooms.** The source's field `isBosRoom` is called `isBossRoom`
  here.

## Model

| member | source | states |
|---|---|---|
| RoomNodes.RoomNode.constructor | Assets/Scripts/NodeGraph/RoomNodeSO.cs:25-36 | Init: the node gets the given id and type, the shared type list, and empty parent and child lists |
| RoomNodes.RoomNode.GetRoomNodeTypesToDisplay | Assets/Scripts/NodeGraph/RoomNodeSO.cs:84-95 | a fresh array as long as the type list; entry i holds type i's name exactly when that type is displayed in the editor, and is null (None) otherwise |
| RoomNodes.RoomNode.IsChildRoomValid | Assets/Scripts/NodeGraph/RoomNodeSO.cs:186-232 | the loop over the node list computes the "boss room already connected" flag; the result is exactly CanAdopt of this node, the looked-up candidate and that flag; nothing changes (no modifies clause) |
| RoomNodes.RoomNode.AddChildIDToRoomNode | Assets/Scripts/NodeGraph/RoomNodeSO.cs:176-184 | returns true exactly when the candidate is valid; on true the child list becomes the old one plus childID, on false it is unchanged; the parent list, the type and every other node are untouched |
| RoomNodes.RoomNode.AddParentIDToRoomNode | Assets/Scripts/NodeGraph/RoomNodeSO.cs:234-238 | always returns true and appends parentID to the parent list without any check; the child list and type are untouched |
| RoomNodes.RoomNode.RemoveChildIDFromRoomNode | Assets/Scripts/NodeGraph/RoomNodeSO.cs:240-248 | returns whether the id was in the child list; the child list loses exactly its first occurrence (unchanged when absent); the parent list and type are untouched |
| RoomNodes.RoomNode.RemoveParentIDFromRoomNode | Assets/Scripts/NodeGraph/RoomNodeSO.cs:250-258 | returns whether the id was in the parent list; the parent list loses exactly its first occurrence (unchanged when absent); the child list and type are untouched |
| RoomNodes.RoomNode.SelectRoomNodeType | Assets/Scripts/NodeGraph/RoomNodeSO.cs:43-73 | a node with a parent, or the entrance, only shows a label and the graph is unchanged (no selection is needed then); otherwise the whole graph after the type selection of Draw equals SelectType of the graph before, for this node and the picked type |
| RoomNodes.RoomNode.SetRoomType | Assets/Scripts/NodeGraph/RoomNodeSO.cs:53 | the assignment of the picked type changes this node's type and nothing else in the graph |
| RoomNodes.RoomNode.DisconnectChild | Assets/Scripts/NodeGraph/RoomNodeSO.cs:63-69 | one iteration for a found child: the graph becomes Disconnect of the graph before (the child id leaves this node's child list, then this node's id leaves the child's parent list) |
| RoomNodes.RoomNode.SeverFoundChildren | Assets/Scripts/NodeGraph/RoomNodeSO.cs:59-71 | the backward loop over the child list leaves the graph equal to SeverChildren of the graph when the loop started |
| RoomNodes.GetRoomNode | Assets/Scripts/NodeGraph/RoomNodeSO.cs:188 | the lookup by id returns the first node of the node list with that id, and None when no node has it |
| RoomNodes.TryConnect | Assets/Scripts/NodeGraph/RoomNodeSO.cs:176-184 | the caller protocol (add child, then add parent on success) returns whether the candidate was valid, leaves the graph equal to Connect of the graph before, and keeps the graph invariant |
| RoomGraph.CanAdopt | Assets/Scripts/NodeGraph/RoomNodeSO.cs:197-230 | the eleven checks of IsChildRoomValid in source order, once the candidate is looked up; an accepted candidate is another node without a parent, exactly one of the two is a corridor, a corridor parent has no child yet, and a corridor candidate finds fewer than maxChildCorridors children (the full if-and-only-if is CanAdoptCharacterization) |
| RoomNodeTypes.SeversChildren | Assets/Scripts/NodeGraph/RoomNodeSO.cs:49-57 | a type change that keeps both the corridor flag and the boss-room flag never severs; in particular re-picking the current type, which Draw does on every repaint where the dropdown is left alone, never severs |
| RoomGraph.Connect | Assets/Scripts/NodeGraph/RoomNodeSO.cs:176-184 | the graph after the caller protocol (add child on the parent, then add parent on the child only on success): same length and ids, no node's type changes, and every node other than the two is untouched |
| RoomGraph.Disconnect | Assets/Scripts/NodeGraph/RoomNodeSO.cs:67-69 | the pair of removals for one child: same length and ids, no type changes, every node other than the two is untouched, the parent keeps its parent list and the child its child list, and the parent's child list shrinks by one exactly when it held the child id |
| RoomGraph.SeverChildren | Assets/Scripts/NodeGraph/RoomNodeSO.cs:59-71 | the graph after the severing loop: same length and ids, no type changes, the node keeps exactly its child ids that name no node, and no other node's child list changes |
| RoomGraph.SelectType | Assets/Scripts/NodeGraph/RoomNodeSO.cs:43-73 | the graph after the type selection of Draw: same length and ids; the node's type becomes the picked one unless it has a parent or is the entrance; no other node's type or child list changes |
| Sequences.RemoveFirst | Assets/Scripts/NodeGraph/RoomNodeSO.cs:244 | List.Remove: a list without the element is returned as it is, and one with it becomes exactly one shorter (which entry goes is RemoveFirstAt) |
| RoomGraph.CanAdoptCharacterization | Assets/Scripts/NodeGraph/RoomNodeSO.cs:186-232 | a candidate is accepted if and only if: it is another node; it is neither a child nor a parent of this node; it has no parent; it is neither unassigned (none) nor the entrance; exactly one of the two is a corridor; a corridor candidate finds fewer than maxChildCorridors children and any other candidate finds none; and a boss-room candidate finds no boss room already connected |
| RoomGraph.BossRoomRejected | Assets/Scripts/NodeGraph/RoomNodeSO.cs:190-198 | while some boss room of the graph has a parent, connecting any boss-room candidate leaves the graph unchanged |
| RoomGraph.ConnectPreservesInvariant | Assets/Scripts/NodeGraph/RoomNodeSO.cs:203-228 | on a graph that keeps the invariant, connecting keeps it. In particular: no node gets a second parent; no child list gets a duplicate; the edges stay reciprocal and between a corridor and a non-corridor; at most one boss room has a parent |
| RoomGraph.DisconnectUndoesConnect | Assets/Scripts/NodeGraph/RoomNodeSO.cs:240-258 | after a successful connection, removing the child id from the parent and the parent id from the child gives back the graph before the connection |
| RoomGraph.AddNode | Assets/Scripts/NodeGraph/Editor/RoomNodeGraphEditor.cs:106-108 | appending a created node: one node more, the ids are the old ones plus the new id, every old node is untouched, and the new last node has the given id and type and no edges |
| RoomGraph.SelectTypeRepickCurrent | Assets/Scripts/NodeGraph/RoomNodeSO.cs:49-57 | selecting the type the node already has leaves the whole graph unchanged |
| RoomGraph.SelectTypeLock | Assets/Scripts/NodeGraph/RoomNodeSO.cs:43-53 | a node with a parent, or the entrance, keeps its type and the graph is unchanged; any other node takes the picked type; if that change does not sever, nothing else changes |
| RoomGraph.SelectTypeKeepsUnknownChildren | Assets/Scripts/NodeGraph/RoomNodeSO.cs:59-71 | on any graph, after a severing type change the node keeps exactly the child ids that name no node of the graph, and every node that is not its child keeps its parent list |
| RoomGraph.SelectTypeSeversAllEdges | Assets/Scripts/NodeGraph/RoomNodeSO.cs:55-71 | on a graph that keeps the invariant, a severing type change leaves the node with the new type, no child, and no node with it as a parent |
| RoomGraph.SelectTypePreservesInvariant | Assets/Scripts/NodeGraph/RoomNodeSO.cs:43-73 | the type selection of Draw keeps the graph invariant |
| RoomGraph.RetypeKeepsInvariant | Assets/Scripts/NodeGraph/RoomNodeSO.cs:53 | changing the type of a node without parents, keeping its corridor-ness, keeps the graph invariant |
| RoomGraph.AddNodePreservesInvariant | Assets/Scripts/NodeGraph/Editor/RoomNodeGraphEditor.cs:101-114 | appending a freshly initialised node (no edges) under an unused id keeps the graph invariant |
| RoomGraph.SeverLoopStart | Assets/Scripts/NodeGraph/RoomNodeSO.cs:61 | the severing loop starts at the last child index with nothing severed |
| RoomGraph.SeverLoopFound | Assets/Scripts/NodeGraph/RoomNodeSO.cs:63-69 | for a child id that names a node, disconnecting the two takes the loop one step back while keeping its invariant |
| RoomGraph.SeverLoopMissing | Assets/Scripts/NodeGraph/RoomNodeSO.cs:63-65 | a child id that names no node is skipped and stays in the child list |
| RoomGraph.SeverLoopEnd | Assets/Scripts/NodeGraph/RoomNodeSO.cs:59-71 | when the index has passed the front of the list, the graph is SeverChildren of the graph before the loop |
| Sequences.RemoveFirstMultiset | Assets/Scripts/NodeGraph/RoomNodeSO.cs:244 | removing a present id takes exactly one occurrence of it out of the list and keeps every other element as often as before |
| Sequences.RemoveFirstAfterAppend | Assets/Scripts/NodeGraph/RoomNodeSO.cs:236 | removing an id that was absent and then appended gives back the original list |
| Sequences.RemoveFirstNoDuplicates | Assets/Scripts/NodeGraph/RoomNodeSO.cs:254 | removing an id from a list without duplicates keeps it free of duplicates and leaves the id absent |
| Sequences.RemoveFirstAt | Assets/Scripts/NodeGraph/RoomNodeSO.cs:244 | after removing the first occurrence, entries before it keep their positions and later ones move one place to the front |

## Left out

- The editor user interface is not modelled. This covers the rectangle, dragging (`DragNode`), the mouse event handlers, selection, `GUILayout`, `LabelField` and `SetDirty`. It is drawing and input handling, not graph logic.
- The dropdown of `Draw` (`EditorGUILayout.Popup`) is user input. It becomes the `selection` parameter of `SelectRoomNodeType`, an index into the type list.
- `GameResources.Instance.roomNodeTypeList`, a singleton, becomes the `roomNodeTypeList` argument of the constructor.
- `Settings.maxChildCorridors` is not part of this model. It is a `nat` parameter wherever the fan-out rule is used.
- `Guid.NewGuid()` is randomness. The id is a constructor argument, and ids are assumed unique (`NoDuplicates(Ids(graph))`), which a GUID makes true in practice.
- `RoomNodeGraphSO` is not part of this model. Its node list is a `seq<RoomNode>` argument, and its `GetRoomNode` is the first match by id.
- `RoomNodeTypeSO` and `RoomNodeTypeListSO` are not part of this model. A type is a value, and types are compared by value, not by object identity.
- Asset saving and `AssetDatabase` calls in the editor are left out.
- RoomNodes.RoomNode.IsChildRoomValid: requires the candidate id to name a node of the graph, because the source dereferences the result of `GetRoomNode` without a null check and fails for an unknown id.
- RoomNodes.RoomNode.AddChildIDToRoomNode: requires the candidate id to name a node of the graph, for the same reason.
- RoomNodes.TryConnect: requires the candidate id to name a node of the graph and the parent to be in the graph. It models the assumed caller protocol (child list first, parent list only on success), because the real caller is not part of this model.
- RoomNodes.RoomNode.SelectRoomNodeType: requires the current type to be in the type list when the node is editable. The source's `FindIndex` returns -1 otherwise, and indexing with -1 throws.
- RoomNodes.RoomNode.SelectRoomNodeType: requires the picked index to be inside the type list when the node is editable. This is what the dropdown produces; a locked node makes no selection.
- RoomNodes.RoomNode.GetRoomNodeTypesToDisplay: the source leaves the entries of hidden types null; the model writes None there.
