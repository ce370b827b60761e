/**
 * The reference graph of the transformer: call nodes with their creating edge.
 * Java's object graph (parent, left sibling, children) is kept in an arena: a
 * sequence of nodes addressed by index, where a parent and a left sibling always
 * come before the node itself.
 */
module Graph {
  import opened Wrappers

  datatype EdgeType = Normal | Self | Return

  /** The edge that created a node: the message name and its kind. */
  datatype Edge = Edge(name: string, edgeType: EdgeType)

  /**
   * A call node. `name` is the name of the lifeline the node stands on;
   * `createEdge` is the message that leads to it.
   */
  datatype Node = Node(
    name: string,
    createEdge: Edge,
    isReply: bool,
    parent: Option<nat>,
    leftSibling: Option<nat>,
    children: seq<nat>)

  type Tree = seq<Node>

  /** Parent and left-sibling links point backwards; child links stay in the arena. */
  predicate WellFormed(t: Tree) {
    forall i :: 0 <= i < |t| ==>
      && (t[i].parent.Some? ==> t[i].parent.value < i)
      && (t[i].leftSibling.Some? ==> t[i].leftSibling.value < i)
      && (forall k :: 0 <= k < |t[i].children| ==> t[i].children[k] < |t|)
  }

  predicate IsSelf(t: Tree, i: nat)
    requires i < |t|
  {
    t[i].createEdge.edgeType == Self
  }
}
