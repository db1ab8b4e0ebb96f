/** The generic node of the program dependence graph (PDGNodeBase): the
    wrapped value and four vectors, the connected nodes and the connecting
    edges on each side, kept aligned position by position. */
module PdgBase {
  import opened Wrappers

  /** A dependence edge; the model only needs its identity. */
  class PdgEdge {
    constructor () {
    }
  }

  /** The DOT-printing state of a node; the model only needs its identity. */
  class PrintState {
    constructor () {
    }
  }

  /** The pairs `(xs[i], ys[i])`, in order. */
  ghost function Zip<A, B>(xs: seq<A>, ys: seq<B>): (r: seq<(A, B)>)
    requires |xs| == |ys|
    ensures |r| == |xs|
    ensures forall i :: 0 <= i < |xs| ==> r[i] == (xs[i], ys[i])
  {
    if xs == [] then [] else Zip(xs[..|xs| - 1], ys[..|ys| - 1]) + [(xs[|xs| - 1], ys[|ys| - 1])]
  }

  /** Zipping two sequences extended by one element each extends the pairs by one. */
  lemma {:induction false} ZipSnoc<A, B>(xs: seq<A>, ys: seq<B>, x: A, y: B)
    requires |xs| == |ys|
    ensures Zip(xs + [x], ys + [y]) == Zip(xs, ys) + [(x, y)]
  {
    assert (xs + [x])[..|xs|] == xs;
    assert (ys + [y])[..|ys|] == ys;
  }

  /** A node wrapping a value of type `N`; `theNode == None` is the null node. */
  class PdgNode<N> {
    var theNode: Option<N>
    var outgoingNodes: seq<PdgNode?<N>>
    var incomingNodes: seq<PdgNode?<N>>
    var outgoingEdges: seq<PdgEdge?>
    var incomingEdges: seq<PdgEdge?>
    var printState: PrintState?

    /** The node and edge vectors of each side are aligned. */
    ghost predicate Valid()
      reads this
    {
      |outgoingNodes| == |outgoingEdges| && |incomingNodes| == |incomingEdges|
    }

    /** Each incoming node with the edge it arrives by. */
    ghost function IncomingPairs(): (r: seq<(PdgNode?<N>, PdgEdge?)>)
      reads this
      requires Valid()
      ensures |r| == |incomingNodes|
    {
      Zip(incomingNodes, incomingEdges)
    }

    /** Each outgoing node with the edge it leaves by. */
    ghost function OutgoingPairs(): (r: seq<(PdgNode?<N>, PdgEdge?)>)
      reads this
      requires Valid()
      ensures |r| == |outgoingNodes|
    {
      Zip(outgoingNodes, outgoingEdges)
    }

    /** The default constructor: a null node without neighbours. */
    constructor Empty()
      ensures Valid() && GetNode() == None
      ensures outgoingNodes == [] && incomingNodes == [] && outgoingEdges == [] && incomingEdges == []
    {
      theNode := None;
      outgoingNodes, incomingNodes := [], [];
      outgoingEdges, incomingEdges := [], [];
      printState := null;
    }

    /** The constructor from a (possibly null) value: `GetNode` returns it. */
    constructor (node: Option<N>)
      ensures Valid() && GetNode() == node
      ensures outgoingNodes == [] && incomingNodes == [] && outgoingEdges == [] && incomingEdges == []
    {
      theNode := node;
      outgoingNodes, incomingNodes := [], [];
      outgoingEdges, incomingEdges := [], [];
      printState := null;
    }

    function GetNode(): Option<N>
      reads this
    {
      theNode
    }

    /** Records `node` as a predecessor reached by `edge`: both incoming
        vectors grow by one, in step, and the outgoing side is untouched. */
    method AddIncomingNode(node: PdgNode?<N>, edge: PdgEdge?)
      requires Valid()
      modifies `incomingNodes, `incomingEdges
      ensures Valid()
      ensures incomingNodes == old(incomingNodes) + [node] && incomingEdges == old(incomingEdges) + [edge]
      ensures IncomingPairs() == old(IncomingPairs()) + [(node, edge)]
      ensures GetEdgeFromNodeIterator(|old(incomingNodes)|, true) == edge
      ensures outgoingNodes == old(outgoingNodes) && outgoingEdges == old(outgoingEdges)
    {
      ZipSnoc(incomingNodes, incomingEdges, node, edge);
      incomingNodes := incomingNodes + [node];
      incomingEdges := incomingEdges + [edge];
    }

    /** Records `node` as a successor reached by `edge`: both outgoing
        vectors grow by one, in step, and the incoming side is untouched. */
    method AddOutgoingNode(node: PdgNode?<N>, edge: PdgEdge?)
      requires Valid()
      modifies `outgoingNodes, `outgoingEdges
      ensures Valid()
      ensures outgoingNodes == old(outgoingNodes) + [node] && outgoingEdges == old(outgoingEdges) + [edge]
      ensures OutgoingPairs() == old(OutgoingPairs()) + [(node, edge)]
      ensures GetEdgeFromNodeIterator(|old(outgoingNodes)|, false) == edge
      ensures incomingNodes == old(incomingNodes) && incomingEdges == old(incomingEdges)
    {
      ZipSnoc(outgoingNodes, outgoingEdges, node, edge);
      outgoingNodes := outgoingNodes + [node];
      outgoingEdges := outgoingEdges + [edge];
    }

    /** The edge that connects the node at position `target` of the incoming
        (when `incomingEdge`) or outgoing node vector; `target` stands for the
        iterator, whose distance from the vector's start is the position. */
    function GetEdgeFromNodeIterator(target: nat, incomingEdge: bool := false): (r: PdgEdge?)
      reads this
      requires Valid()
      requires target < if incomingEdge then |incomingNodes| else |outgoingNodes|
      ensures incomingEdge ==> IncomingPairs()[target] == (incomingNodes[target], r)
      ensures !incomingEdge ==> OutgoingPairs()[target] == (outgoingNodes[target], r)
    {
      if incomingEdge then incomingEdges[target] else outgoingEdges[target]
    }

    /** Replaces the print state; nothing else changes. */
    method AddPrintState(state: PrintState?)
      modifies `printState
      ensures GetPrintState() == state
    {
      printState := state;
    }

    function GetPrintState(): PrintState?
      reads this
    {
      printState
    }
  }
}
