/** The overlay store, its extraction iterator and the unit-payload selection. */
module Overlays {
  import opened Graphs
  import opened Extraction

  /** Annotations on a read-only base graph: an overlay weight per annotated
      node, an overlay weight per annotated edge, and the edge reference cached
      for each annotated edge. */
  class Overlay<N(==), E(==), NW, EW, NOW, EOW> {
    var nodes: map<N, NOW>
    var edges: map<E, EOW>
    var edgeRefs: map<E, EdgeRef<N, E, EW>>
    const graph: Graph<N, E, NW, EW>

    /** The cache holds a reference for exactly the annotated edges, each
        filed under its own id. */
    ghost predicate Valid()
      reads this
    {
      edges.Keys == edgeRefs.Keys && forall e :: e in edgeRefs ==> edgeRefs[e].id == e
    }

    /** An empty overlay bound to `g`. */
    constructor (g: Graph<N, E, NW, EW>)
      ensures Valid()
      ensures graph == g && nodes == map[] && edges == map[] && edgeRefs == map[]
    {
      nodes, edges, edgeRefs := map[], map[], map[];
      graph := g;
    }

    /** An independent copy of the three maps, bound to the same base graph. */
    method Clone() returns (c: Overlay<N, E, NW, EW, NOW, EOW>)
      ensures fresh(c)
      ensures c.graph == graph && c.nodes == nodes && c.edges == edges && c.edgeRefs == edgeRefs
    {
      c := new Overlay(graph);
      c.nodes, c.edges, c.edgeRefs := nodes, edges, edgeRefs;
    }

    /** Annotates (or re-annotates) the edge `edge.id`, caching `edge`. */
    method OverlayEdge(edge: EdgeRef<N, E, EW>, eow: EOW)
      modifies this
      ensures old(Valid()) ==> Valid()
      ensures edges == old(edges)[edge.id := eow] && edgeRefs == old(edgeRefs)[edge.id := edge]
      ensures nodes == old(nodes)
    {
      edges := edges[edge.id := eow];
      edgeRefs := edgeRefs[edge.id := edge];
    }

    /** Annotates (or re-annotates) node `node`; only the latest weight is kept. */
    method OverlayNode(node: N, now: NOW)
      modifies this
      ensures old(Valid()) ==> Valid()
      ensures nodes == old(nodes)[node := now]
      ensures |nodes| == if node in old(nodes) then |old(nodes)| else |old(nodes)| + 1
      ensures edges == old(edges) && edgeRefs == old(edgeRefs)
    {
      nodes := nodes[node := now];
    }

    /** Drops the annotation of edge `edge` and its cached reference; a no-op
        when the edge was never annotated. */
    method RemoveEdge(edge: E)
      modifies this
      ensures old(Valid()) ==> Valid()
      ensures edges == old(edges) - {edge} && edgeRefs == old(edgeRefs) - {edge}
      ensures edge !in old(edges) ==> edges == old(edges)
      ensures |edges| == if edge in old(edges) then |old(edges)| - 1 else |old(edges)|
      ensures nodes == old(nodes)
    {
      edges := edges - {edge};
      edgeRefs := edgeRefs - {edge};
    }

    /** Drops the annotation of node `node` only: edges that have it as an
        endpoint stay annotated. A no-op when the node was never annotated. */
    method RemoveNode(node: N)
      modifies this
      ensures old(Valid()) ==> Valid()
      ensures nodes == old(nodes) - {node}
      ensures node !in old(nodes) ==> nodes == old(nodes)
      ensures |nodes| == if node in old(nodes) then |old(nodes)| - 1 else |old(nodes)|
      ensures edges == old(edges) && edgeRefs == old(edgeRefs)
    {
      nodes := nodes - {node};
    }

    /** The colour attribute the renderer is given for base-graph node `id`. */
    function NodeAttr(id: N): (a: string)
      reads this
      ensures a == "color = red" <==> id in nodes
      ensures a == "color = black" <==> id !in nodes
    {
      "color = " + if id in nodes then "red" else "black"
    }

    /** The colour attribute the renderer is given for base-graph edge `id`. */
    function EdgeAttr(id: E): (a: string)
      reads this
      ensures a == "color = red" <==> id in edges
      ensures a == "color = black" <==> id !in edges
    {
      "color = " + if id in edges then "red" else "black"
    }

    /** A fresh element stream over the current annotations. `nodeOrder` and
        `edgeOrder` are the orders in which the two hash maps are enumerated. */
    method OverlayedElements(nodeOrder: seq<N>, edgeOrder: seq<E>) returns (it: OverlayedItems<N, E, NW, EW, NOW, EOW>)
      requires Valid()
      requires Enumerates(nodeOrder, nodes.Keys) && Enumerates(edgeOrder, edges.Keys)
      requires nodes.Keys <= graph.nodeWeights.Keys
      ensures fresh(it) && it.overlay == this && it.Valid()
      ensures it.Remaining() == Extract(graph.nodeWeights, edgeRefs, nodeOrder, edgeOrder)
    {
      it := new OverlayedItems(this, nodeOrder, edgeOrder);
    }
  }

  /** The two-phase element stream of an overlay: first the annotated nodes,
      each given the next dense index, then the annotated edges whose two
      endpoints were indexed. */
  class OverlayedItems<N(==), E(==), NW, EW, NOW, EOW> {
    const overlay: Overlay<N, E, NW, EW, NOW, EOW>
    const nodeOrder: seq<N>
    const edgeOrder: seq<E>
    var phase: Phase
    var nodeIndexes: map<N, nat>

    /** Every lookup the stream makes succeeds, and `nodeIndexes` indexes
        exactly the nodes visited so far. */
    ghost predicate Valid()
      reads this, overlay
    {
      && Resolvable(overlay.graph.nodeWeights, overlay.edgeRefs, nodeOrder, edgeOrder)
      && InRange(phase, nodeOrder, edgeOrder)
      && nodeIndexes == Indexes(if phase.Nodes? then nodeOrder[..phase.cursor] else nodeOrder)
    }

    /** The elements the stream has yet to produce. */
    ghost function Remaining(): seq<Element<NW, EW>>
      reads this, overlay
      requires Valid()
    {
      Pending(overlay.graph.nodeWeights, overlay.edgeRefs, nodeOrder, edgeOrder, phase, nodeIndexes)
    }

    constructor (o: Overlay<N, E, NW, EW, NOW, EOW>, nodeOrder: seq<N>, edgeOrder: seq<E>)
      requires o.Valid()
      requires Enumerates(nodeOrder, o.nodes.Keys) && Enumerates(edgeOrder, o.edges.Keys)
      requires o.nodes.Keys <= o.graph.nodeWeights.Keys
      ensures overlay == o && this.nodeOrder == nodeOrder && this.edgeOrder == edgeOrder
      ensures phase == Nodes(0) && nodeIndexes == map[]
      ensures Valid()
      ensures Remaining() == Extract(o.graph.nodeWeights, o.edgeRefs, nodeOrder, edgeOrder)
    {
      overlay := o;
      this.nodeOrder := nodeOrder;
      this.edgeOrder := edgeOrder;
      phase := Nodes(0);
      nodeIndexes := map[];
      assert nodeOrder[..0] == [];
      PendingStart<N, E, NW, EW>(o.graph.nodeWeights, o.edgeRefs, nodeOrder, edgeOrder, map[]);
    }

    /** Produces the next element, or None once the edges are exhausted. */
    method Next() returns (r: Option<Element<NW, EW>>)
      requires Valid()
      modifies this
      ensures Valid()
      ensures old(Remaining()) == [] ==> r == None && Remaining() == []
      ensures old(Remaining()) != [] ==> r.Some? && old(Remaining()) == [r.value] + Remaining()
    {
      ghost var weights, refs := overlay.graph.nodeWeights, overlay.edgeRefs;
      if phase.Nodes? {
        var i := phase.cursor;
        if i < |nodeOrder| {
          var node := nodeOrder[i];
          IndexesStep(nodeOrder, i);
          PendingNode<N, E, NW, EW>(weights, refs, nodeOrder, edgeOrder, i, nodeIndexes, nodeIndexes[node := |nodeIndexes|]);
          nodeIndexes := nodeIndexes[node := |nodeIndexes|];
          phase := Nodes(i + 1);
          return Some(Node(overlay.graph.nodeWeights[node]));
        }
        assert nodeOrder[..i] == nodeOrder;
        PendingSwitch<N, E, NW, EW>(weights, refs, nodeOrder, edgeOrder, nodeIndexes);
        phase := Edges(0);
      }
      ghost var before := Remaining();
      var j := phase.cursor;
      while j < |edgeOrder|
        invariant j <= |edgeOrder|
        invariant phase.Edges? && Valid()
        invariant Pending(weights, refs, nodeOrder, edgeOrder, Edges(j), nodeIndexes) == before
        decreases |edgeOrder| - j
      {
        var edgeRef := overlay.edgeRefs[edgeOrder[j]];
        PendingEdge<N, E, NW, EW>(weights, refs, nodeOrder, edgeOrder, j, nodeIndexes);
        j := j + 1;
        var newEdge := EdgeElement<N, E, NW, EW>(nodeIndexes, edgeRef);
        if newEdge.Some? {
          phase := Edges(j);
          return newEdge;
        }
      }
      assert edgeOrder[j..] == [];
      phase := Edges(j);
      return None;
    }
  }

  /** Consumes a stream to the end, as a graph builder does: the elements
      collected are exactly those the stream had left. */
  method Drain<N, E, NW, EW, NOW, EOW>(it: OverlayedItems<N, E, NW, EW, NOW, EOW>) returns (out: seq<Element<NW, EW>>)
    requires it.Valid()
    modifies it
    ensures it.Valid() && it.Remaining() == []
    ensures out == old(it.Remaining())
  {
    out := [];
    ghost var all := it.Remaining();
    while true
      invariant it.Valid() && all == out + it.Remaining()
      decreases |it.Remaining()|
    {
      var x := it.Next();
      if x.None? {
        return;
      }
      out := out + [x.value];
    }
  }

  /** An overlay whose annotations carry no data: only membership matters. */
  type Selection<N(==), E(==), NW, EW> = Overlay<N, E, NW, EW, (), ()>

  /** An empty selection over `g`. */
  method NewSelection<N(==), E(==), NW, EW>(g: Graph<N, E, NW, EW>) returns (s: Selection<N, E, NW, EW>)
    ensures fresh(s) && s.Valid()
    ensures s.graph == g && s.nodes == map[] && s.edges == map[] && s.edgeRefs == map[]
  {
    s := new Overlay(g);
  }

  /** Marks node `node` as selected. */
  method SelectNode<N, E, NW, EW>(s: Selection<N, E, NW, EW>, node: N)
    modifies s
    ensures old(s.Valid()) ==> s.Valid()
    ensures s.nodes == old(s.nodes)[node := ()]
    ensures s.edges == old(s.edges) && s.edgeRefs == old(s.edgeRefs)
  {
    s.OverlayNode(node, ());
  }

  /** Marks edge `edge.id` as selected, caching `edge`. */
  method SelectEdge<N, E, NW, EW>(s: Selection<N, E, NW, EW>, edge: EdgeRef<N, E, EW>)
    modifies s
    ensures old(s.Valid()) ==> s.Valid()
    ensures s.edges == old(s.edges)[edge.id := ()] && s.edgeRefs == old(s.edgeRefs)[edge.id := edge]
    ensures s.nodes == old(s.nodes)
  {
    s.OverlayEdge(edge, ());
  }
}
