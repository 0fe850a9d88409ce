/** The selection scenario of the library's own test: select nodes 0 and 1
    and the first edge of a graph, extract, then drop the edge from a copy
    and extract again. The base graph is any graph whose nodes 0 and 1
    weigh "a" and "b" and whose first edge reference is edge 0 from node 0
    to node 1 with an empty weight. */
module SelectionTest {
  import opened Graphs
  import opened Extraction
  import opened Overlays

  /** The graph `first` describes: nodes "a" and "b" joined by an edge with
      an empty weight, in either of the two node orders. */
  predicate IsAB(first: seq<Element<string, string>>, nodeOrder: seq<nat>) {
    if nodeOrder == [0, 1] then first == [Node("a"), Node("b"), Edge("", 0, 1)]
    else first == [Node("b"), Node("a"), Edge("", 1, 0)]
  }

  /** Either order of nodes 0 and 1 enumerates the selected node set. */
  lemma OrdersEnumerate(nodeOrder: seq<nat>)
    requires nodeOrder == [0, 1] || nodeOrder == [1, 0]
    ensures Enumerates(nodeOrder, {0, 1})
  {
  }

  /** The node half of the extraction for either order of nodes 0 and 1. */
  lemma NodesAB(weights: map<nat, string>, nodeOrder: seq<nat>)
    requires 0 in weights && weights[0] == "a" && 1 in weights && weights[1] == "b"
    requires nodeOrder == [0, 1] || nodeOrder == [1, 0]
    ensures NodeElements<nat, string, string>(weights, nodeOrder)
            == if nodeOrder == [0, 1] then [Node("a"), Node("b")] else [Node("b"), Node("a")]
  {
    var ns := NodeElements<nat, string, string>(weights, nodeOrder);
    NodeElementsAt<nat, string, string>(weights, nodeOrder, 0);
    NodeElementsAt<nat, string, string>(weights, nodeOrder, 1);
    assert ns == [ns[0], ns[1]];
  }

  /** With both endpoints selected, the extraction is the two nodes and the
      edge between them, whichever node comes first. */
  lemma ExtractAB(weights: map<nat, string>, refs: map<nat, EdgeRef<nat, nat, string>>, nodeOrder: seq<nat>)
    requires 0 in weights && weights[0] == "a" && 1 in weights && weights[1] == "b"
    requires refs == map[0 := EdgeRef(0, 0, 1, "")]
    requires nodeOrder == [0, 1] || nodeOrder == [1, 0]
    ensures IsAB(Extract(weights, refs, nodeOrder, [0]), nodeOrder)
  {
    var idx := Indexes(nodeOrder);
    IndexesDense(nodeOrder);
    assert 0 in idx && 1 in idx;
    NodesAB(weights, nodeOrder);
    assert EdgeElements<nat, nat, string, string>(refs, idx, [0][1..]) == [];
    assert EdgeElements<nat, nat, string, string>(refs, idx, [0]) == [Edge("", idx[0], idx[1])];
  }

  /** With no edge selected, the extraction is just the two nodes. */
  lemma ExtractNodesOnly(weights: map<nat, string>, refs: map<nat, EdgeRef<nat, nat, string>>, nodeOrder: seq<nat>)
    requires 0 in weights && weights[0] == "a" && 1 in weights && weights[1] == "b"
    requires nodeOrder == [0, 1] || nodeOrder == [1, 0]
    ensures Extract(weights, refs, nodeOrder, [])
            == if nodeOrder == [0, 1] then [Node("a"), Node("b")] else [Node("b"), Node("a")]
  {
    NodesAB(weights, nodeOrder);
    assert Extract(weights, refs, nodeOrder, []) == NodeElements<nat, string, string>(weights, nodeOrder) + [];
  }

  /** The selection the scenario builds: nodes 0 and 1 and the first edge. */
  method SelectAB(g: Graph<nat, nat, string, string>) returns (selection: Selection<nat, nat, string, string>)
    requires |g.edgeList| > 0 && g.edgeList[0] == EdgeRef(0, 0, 1, "")
    ensures fresh(selection) && selection.Valid() && selection.graph == g
    ensures selection.nodes.Keys == {0, 1} && selection.edges.Keys == {0}
    ensures selection.edgeRefs == map[0 := EdgeRef(0, 0, 1, "")]
  {
    selection := NewSelection(g);
    SelectNode(selection, 0);
    SelectEdge(selection, g.edgeList[0]);
    SelectNode(selection, 1);
  }

  /** The first extraction: both nodes and the edge between them. */
  method ExtractSelected(selection: Selection<nat, nat, string, string>, nodeOrder: seq<nat>)
    returns (first: seq<Element<string, string>>)
    requires selection.Valid()
    requires selection.nodes.Keys == {0, 1} && selection.edges.Keys == {0}
    requires selection.edgeRefs == map[0 := EdgeRef(0, 0, 1, "")]
    requires 0 in selection.graph.nodeWeights && selection.graph.nodeWeights[0] == "a"
    requires 1 in selection.graph.nodeWeights && selection.graph.nodeWeights[1] == "b"
    requires nodeOrder == [0, 1] || nodeOrder == [1, 0]
    ensures IsAB(first, nodeOrder)
  {
    OrdersEnumerate(nodeOrder);
    var it := selection.OverlayedElements(nodeOrder, [0]);
    first := Drain(it);
    ExtractAB(selection.graph.nodeWeights, selection.edgeRefs, nodeOrder);
  }

  /** The second extraction, from a copy with the edge removed: the two
      nodes alone. */
  method ExtractWithoutEdge(selection: Selection<nat, nat, string, string>, nodeOrder: seq<nat>)
    returns (second: seq<Element<string, string>>)
    requires selection.Valid()
    requires selection.nodes.Keys == {0, 1} && selection.edges.Keys == {0}
    requires 0 in selection.graph.nodeWeights && selection.graph.nodeWeights[0] == "a"
    requires 1 in selection.graph.nodeWeights && selection.graph.nodeWeights[1] == "b"
    requires nodeOrder == [0, 1] || nodeOrder == [1, 0]
    ensures second == if nodeOrder == [0, 1] then [Node("a"), Node("b")] else [Node("b"), Node("a")]
  {
    OrdersEnumerate(nodeOrder);
    var selection1 := selection.Clone();
    selection1.RemoveEdge(0);
    var it := selection1.OverlayedElements(nodeOrder, []);
    second := Drain(it);
    ExtractNodesOnly(selection1.graph.nodeWeights, selection1.edgeRefs, nodeOrder);
  }

  /** `first` and `second` are what the two extractions produce; the node
      orders stand for the two hash-map enumerations. `again` extracts the
      original selection once more after its clone lost the edge: the
      clone's edit leaves the original untouched. */
  method TestSelection(g: Graph<nat, nat, string, string>, nodeOrder1: seq<nat>, nodeOrder2: seq<nat>)
    returns (first: seq<Element<string, string>>, second: seq<Element<string, string>>,
             again: seq<Element<string, string>>)
    requires 0 in g.nodeWeights && g.nodeWeights[0] == "a"
    requires 1 in g.nodeWeights && g.nodeWeights[1] == "b"
    requires |g.edgeList| > 0 && g.edgeList[0] == EdgeRef(0, 0, 1, "")
    requires nodeOrder1 == [0, 1] || nodeOrder1 == [1, 0]
    requires nodeOrder2 == [0, 1] || nodeOrder2 == [1, 0]
    ensures IsAB(first, nodeOrder1)
    ensures second == if nodeOrder2 == [0, 1] then [Node("a"), Node("b")] else [Node("b"), Node("a")]
    ensures again == first
  {
    var selection := SelectAB(g);
    first := ExtractSelected(selection, nodeOrder1);
    second := ExtractWithoutEdge(selection, nodeOrder2);
    again := ExtractSelected(selection, nodeOrder1);
  }
}
