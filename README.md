# petgraph-overlay, modelled in Dafny

An overlay is a set of annotations on a read-only base graph. It stores
three hash maps:

- `nodes`: an overlay weight for each annotated node id;
- `edges`: an overlay weight for each annotated edge id;
- `edge_refs`: the cached edge reference of each annotated edge.

Nodes and edges can be annotated and removed. The overlay can also be
streamed as graph-construction elements. That stream is a two-phase
iterator:

1. It visits the annotated nodes. Each node gets the next dense index, and
   the node element carries the base graph's weight for it.
2. It visits the annotated edges. It keeps only those whose two endpoints
   were indexed, and rewrites each kept edge's endpoints as those indices.

A `Selection` is an overlay whose annotations carry no data.

The model has four modules:

- `Graphs` (`graphs.dfy`) holds the base graph and the elements:
  - the base graph is a map of node weights plus a list of edge references;
  - edge references are `EdgeRef`;
  - stream items are `Element`.
  
  It also defines what counts as an enumeration order of a hash map's key
  set (`Enumerates`), and proves that such an order is exactly as long as
  the key set is large (`EnumeratesSize`).
- `Extraction` (`extraction.dfy`) holds the pure specification of the stream:
  - `Indexes` is the index map built over a visit order;
  - `NodeElements` and `EdgeElements` are the two phases;
  - `EdgeElement` is the endpoint lookup for one cached edge reference. It
    yields an edge element only when both endpoints have an index;
  - `Extract` is the whole stream;
  - `Survivors` is an independent filter definition of which edges survive;
  - `Pending` is what is left from a cursor position.
  
  The lemmas about these functions are also in this module.
- `Overlays` (`overlay.dfy`) holds the imperative part:
  - class `Overlay` has three map fields and the mutating methods;
  - class `OverlayedItems` is the iterator, with a `Phase` cursor and a
    `nodeIndexes` map field. Its `Next` is proved against `Remaining()`,
    which is the pure `Pending` of its state;
  - `Drain` plays the graph builder that consumes a whole stream;
  - the `Selection` operations are modelled as methods.
- `SelectionTest` (`selection_test.dfy`) holds the library's selection test.
  It is stated for any base graph whose nodes 0 and 1 weigh "a" and "b" and
  whose first edge reference is edge 0 from node 0 to node 1, with an empty
  weight.

Hash-map iteration order is unspecified in the source. It appears in the
model as two explicit parameters, `nodeOrder` and `edgeOrder`, which must
enumerate the key sets of `nodes` and `edges`. Every property holds for
every such order.

## Model

| member | source | states |
|---|---|---|
| Extraction.Indexes | src/lib.rs:129-130 | the `node_indexes` map after visiting a sequence of nodes: each visited id is inserted at the map's size before the insertion; no contract of its own, its properties are in IndexesDense and IndexesStep |
| Extraction.IndexesDense | src/lib.rs:127-130 | visiting distinct node ids gives each the index of its visit position; the indices are exactly 0 .. n-1, and the index map's keys are exactly the visited ids |
| Extraction.IndexesStep | src/lib.rs:129-130 | one more visited node extends the index map by that node, at the map's size before the insertion |
| Extraction.NodeElements | src/lib.rs:127-134 | the nodes phase produces exactly one element per visited node |
| Extraction.NodeElementsAt | src/lib.rs:131-133 | the k-th node element carries the base graph's weight of the k-th visited node, not the overlay weight |
| Extraction.EdgeElements | src/lib.rs:138-163 | the edges phase produces at most one element per annotated edge |
| Extraction.EdgeElement | src/lib.rs:145-156 | the endpoint lookup for one cached edge reference: an Edge with the cached weight and the two endpoints' indices when both are indexed, nothing otherwise; no contract of its own, its properties are in EdgeElementsAreSurvivors and PendingEdge |
| Extraction.Survivors | src/lib.rs:143-163 | an annotated edge is kept if and only if both of its cached endpoints have an index |
| Extraction.EdgeElementsAreSurvivors | src/lib.rs:138-163 | the edges phase produces exactly one element per kept edge, in order; each is an Edge with the cached weight and the endpoints' indices |
| Extraction.Extract | src/lib.rs:126-172 | the whole stream that `overlayed_elements` (src/lib.rs:49-55) starts: the node elements in visit order, then the edge elements over the index map of all the nodes; no contract of its own, its properties are in ExtractShape, ExtractBound and EndpointClosure |
| Extraction.ExtractShape | src/lib.rs:126-172 | all node elements come before any edge element; the stream's length is the visited-node count plus the kept-edge count, so at most the two enumerations' lengths together; each edge element's indices point back at its base endpoints |
| Extraction.ExtractBound | src/lib.rs:126-172 | for enumerations of the `nodes` and `edges` key sets, the stream has at most `\|nodes\| + \|edges\|` elements |
| Extraction.EndpointClosure | src/lib.rs:138-163 | under the key-set invariant, an annotated edge is in the stream if and only if both its endpoints are annotated nodes; every annotated edge is either produced or skipped |
| Extraction.PendingStart | src/lib.rs:49-55 | a freshly created stream has the whole extraction pending |
| Extraction.PendingNode | src/lib.rs:127-134 | in the nodes phase, the next element is the current node's element, and the rest is what is pending from the next node |
| Extraction.PendingSwitch | src/lib.rs:135 | exhausting the nodes switches to the edges phase, from the first edge, with every node indexed, and loses no element |
| Extraction.PendingEdge | src/lib.rs:138-163 | in the edges phase, the current edge contributes its element when both endpoints are indexed and nothing otherwise; then the rest follows |
| Overlays.Overlay.constructor | src/lib.rs:11-20 | an overlay starts with three empty maps and satisfies the key-set invariant |
| Overlays.Overlay.Clone | src/lib.rs:11 | a clone is a fresh object with the same three maps and the same base graph |
| Overlays.Overlay.OverlayEdge | src/lib.rs:56-59 | inserts or overwrites under the edge's own id in both `edges` and `edge_refs`; `nodes` is unchanged; the key-set invariant is preserved |
| Overlays.Overlay.OverlayNode | src/lib.rs:60-62 | inserts or overwrites so that only the latest weight is kept; the node count grows by one exactly when the node is new; other entries and both edge maps are unchanged; the invariant is preserved |
| Overlays.Overlay.RemoveEdge | src/lib.rs:63-66 | deletes the key from both edge maps; removing an absent key is a no-op; `nodes` is unchanged; the invariant is preserved |
| Overlays.Overlay.RemoveNode | src/lib.rs:67-69 | deletes only that node's key and does not cascade to its edges; removing an absent key is a no-op |
| Overlays.Overlay.NodeAttr | src/lib.rs:100-108 | the renderer's node colour is "red" exactly when the node is annotated, and "black" otherwise |
| Overlays.Overlay.EdgeAttr | src/lib.rs:90-98 | the renderer's edge colour is "red" exactly when the edge is annotated, and "black" otherwise |
| Overlays.Overlay.OverlayedElements | src/lib.rs:49-55 | a fresh stream over this overlay, whose remaining elements are the whole extraction for the given enumeration orders |
| Overlays.OverlayedItems.constructor | src/lib.rs:49-55 | the stream starts in the nodes phase at the first node, with an empty index map |
| Overlays.OverlayedItems.Next | src/lib.rs:126-173 | when elements remain, the result is the first remaining element and the rest remains; when none remain, the result is None and it stays None on every later call |
| Overlays.Drain | src/lib.rs:222-223 | consuming a stream to the end collects exactly the elements it had left |
| Overlays.NewSelection | src/lib.rs:184-191 | a new selection is empty and bound to the given graph |
| Overlays.SelectEdge | src/lib.rs:192-194 | selecting an edge is `OverlayEdge` with a unit payload |
| Overlays.SelectNode | src/lib.rs:195-197 | selecting a node is `OverlayNode` with a unit payload |
| SelectionTest.NodesAB | src/lib.rs:217-219 | the two selected nodes yield the elements "a" and "b", in the enumeration order |
| SelectionTest.ExtractAB | src/lib.rs:217-224 | with nodes 0 and 1 and edge 0 selected, the extraction is "a" and "b" joined by an edge from "a" to "b" with an empty weight, in either node order |
| SelectionTest.ExtractNodesOnly | src/lib.rs:226-232 | with no edge selected, the extraction is the nodes "a" and "b" alone |
| SelectionTest.SelectAB | src/lib.rs:212-216 | the scenario's selection holds nodes 0 and 1 and edge 0 |
| SelectionTest.ExtractSelected | src/lib.rs:221-225 | the first extraction is the graph a -> b |
| SelectionTest.ExtractWithoutEdge | src/lib.rs:226-233 | after a clone drops edge 0, its extraction is the two nodes without the edge |
| SelectionTest.TestSelection | src/lib.rs:211-234 | the whole test: the first extraction matches a -> b, and the second matches the two nodes alone, for every pair of hash-map orders; extracting the original again after its clone lost the edge gives the first result once more, so the clone is independent |

## Left out

- Rendering (`draw_overlayed`, src/lib.rs:86-111) calls into a foreign graph renderer. Only the two colour attributes it receives are modelled, as `NodeAttr` and `EdgeAttr`.
- The petgraph trait machinery (`GraphBase`, `Data`, `DataMap`, `IntoEdgeReferences`, `EdgeRef`) is replaced by type parameters and the `Graph` and `EdgeRef` datatypes.
- Hash-map hashing and its concrete iteration order are not modelled. Each map is enumerated in an arbitrary order that is passed in as a parameter.
- Rust lifetimes and borrowing are not modelled, and neither is the clone of the phase and of the edge iterator (src/lib.rs:138, 159, 166). While a stream is alive, the borrow checker freezes the overlay. In the model this appears only as `Next` requiring `Valid()`, which reads the overlay.
- Overlays.Overlay.OverlayedElements: the source unwraps the base graph's node-weight lookup (src/lib.rs:132). It panics in the `next()` call that reaches a missing node, after the nodes before it have been produced. The model instead refuses the whole extraction up front: it requires every annotated node to be in the base graph.
- Overlays.OverlayedItems.Next: the `edge_refs.get` lookup has a failure branch that returns None early (src/lib.rs:165-167). The iterator saves its advanced position first, so a later `next()` would carry on from the next edge. The model leaves that branch out, because under the key-set invariant it cannot be taken. The model indexes the cache directly.
- `Element`, `Graph::from_elements` and `is_isomorphic_matching` belong to petgraph and are not part of this model. A built graph is represented by the element sequence it is built from. Isomorphism to the expected graph is stated as equality up to the order in which the two nodes are enumerated.
- The test's base graph, `petgraph_examples::directed_graph_with_cycle`, is not part of this model. The scenario is stated for any graph with the node weights and first edge the test relies on.
- The `usize` index counter is unbounded in the model. Overflow could only happen with more annotated nodes than addressable memory.
