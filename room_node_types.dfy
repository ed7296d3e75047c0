/** The room node type descriptor. RoomNodeTypeSO itself is not part of this
    model; its fields are the ones RoomNodeSO reads. */
module RoomNodeTypes {

  /** One entry of the room node type list: a display name and capability
      flags. Compared by value. */
  datatype RoomNodeType = RoomNodeType(
    name: string,
    displayInNodeGraphEditor: bool,
    isEntrance: bool,
    isCorridor: bool,
    isBossRoom: bool,
    isNone: bool)

  /** The test in Draw that decides whether changing a node's type from
      `from` to `to` severs the node's child edges: corridor-ness flips in
      either direction, or the node newly becomes a boss room. A change that
      keeps both flags, in particular re-picking the current type as every
      repaint of Draw does, never severs. */
  predicate SeversChildren(from: RoomNodeType, to: RoomNodeType)
    ensures from.isCorridor == to.isCorridor && from.isBossRoom == to.isBossRoom ==> !SeversChildren(from, to)
  {
    || (from.isCorridor && !to.isCorridor)
    || (!from.isCorridor && to.isCorridor)
    || (!from.isBossRoom && to.isBossRoom)
  }
}
