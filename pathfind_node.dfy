/**
 * model/pathfind_node.rb: a node of a path search. The searcher keeps its
 * nodes in an arena, so `tile` is a slot of the grid's tile arena and
 * `parent` the index of the node this one was reached from.
 */
module PathfindNodes {
  import opened Wrappers

  datatype PathfindNode = PathfindNode(tile: nat, parent: Option<nat>, costFromStart: int, totalCost: int)

  /**
   * PathfindNode.new(tile): the node stands on the given tile, both costs
   * are 0 and it has no parent, so it is the root of any chain of parents.
   */
  function NewNode(tile: nat): (n: PathfindNode)
    ensures n.tile == tile
    ensures n.costFromStart == 0 && n.totalCost == 0
    ensures n.parent.None?
  {
    PathfindNode(tile, None, 0, 0)
  }
}
