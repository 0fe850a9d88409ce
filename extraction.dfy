/** What extracting an overlay yields: the whole element stream of
    `overlayed_elements`, as a function of the base graph, the cached edge
    references and the order in which the two hash maps are enumerated. */
module Extraction {
  import opened Graphs

  /** The node-index map built while visiting the annotated nodes in order `s`:
      each visited id is inserted with the map's size before the insertion. */
  function Indexes<N(==)>(s: seq<N>): (m: map<N, nat>)
    decreases |s|
  {
    if s == [] then map[]
    else
      var m := Indexes(s[..|s| - 1]);
      m[s[|s| - 1] := |m|]
  }

  /** Visiting distinct ids gives the dense indices 0 .. |s| - 1 in visit order. */
  lemma {:induction false} IndexesDense<N>(s: seq<N>)
    requires Distinct(s)
    ensures forall n :: n in Indexes(s) <==> n in s
    ensures |Indexes(s)| == |s|
    ensures forall i :: 0 <= i < |s| ==> Indexes(s)[s[i]] == i
    ensures forall n :: n in Indexes(s) ==> Indexes(s)[n] < |s| && s[Indexes(s)[n]] == n
  {
    if s != [] {
      var p, last := s[..|s| - 1], s[|s| - 1];
      assert s == p + [last];
      assert Distinct(p);
      IndexesDense(p);
      assert last !in p;
      var m := Indexes(p);
      assert Indexes(s) == m[last := |m|];
      forall i | 0 <= i < |s|
        ensures Indexes(s)[s[i]] == i
      {
        if i < |p| {
          assert s[i] == p[i] && s[i] != last;
        }
      }
    }
  }

  /** Visiting one more id extends the index map by that id, at the next index. */
  lemma IndexesStep<N>(s: seq<N>, i: nat)
    requires i < |s|
    ensures Indexes(s[..i + 1]) == Indexes(s[..i])[s[i] := |Indexes(s[..i])|]
  {
    assert s[..i + 1][..i] == s[..i];
  }

  /** The node elements, one per visited id, each carrying the BASE graph's
      weight for that id. */
  function NodeElements<N(==), NW, EW>(weights: map<N, NW>, s: seq<N>): (r: seq<Element<NW, EW>>)
    requires forall n :: n in s ==> n in weights
    ensures |r| == |s|
  {
    if s == [] then [] else [Node(weights[s[0]])] + NodeElements(weights, s[1..])
  }

  /** The `k`-th node element carries the base graph's weight of the `k`-th
      visited id. */
  lemma {:induction false} NodeElementsAt<N, NW, EW>(weights: map<N, NW>, s: seq<N>, k: nat)
    requires forall n :: n in s ==> n in weights
    requires k < |s|
    ensures NodeElements<N, NW, EW>(weights, s)[k] == Node(weights[s[k]])
  {
    if k > 0 {
      NodeElementsAt<N, NW, EW>(weights, s[1..], k - 1);
    }
  }

  /** The element built from one cached edge reference: an edge between the
      indices of its endpoints when both were indexed, nothing otherwise. */
  function EdgeElement<N(==), E, NW, EW>(idx: map<N, nat>, ref: EdgeRef<N, E, EW>): Option<Element<NW, EW>>
  {
    if ref.source in idx then
      if ref.target in idx then Some(Edge(ref.weight, idx[ref.source], idx[ref.target])) else None
    else None
  }

  /** The edge elements built while visiting the annotated edges in order `s`;
      edges with an unindexed endpoint are skipped. */
  function EdgeElements<N(==), E(==), NW, EW>(refs: map<E, EdgeRef<N, E, EW>>, idx: map<N, nat>, s: seq<E>): (r: seq<Element<NW, EW>>)
    requires forall e :: e in s ==> e in refs
    ensures |r| <= |s|
  {
    if s == [] then []
    else
      match EdgeElement<N, E, NW, EW>(idx, refs[s[0]])
      case Some(x) => [x] + EdgeElements(refs, idx, s[1..])
      case None => EdgeElements(refs, idx, s[1..])
  }

  /** The ids, in visit order, of the edges that survive extraction. */
  function Survivors<N(==), E(==), EW>(refs: map<E, EdgeRef<N, E, EW>>, idx: map<N, nat>, s: seq<E>): (r: seq<E>)
    requires forall e :: e in s ==> e in refs
    ensures |r| <= |s|
    ensures forall e :: e in r ==> e in s && refs[e].source in idx && refs[e].target in idx
    ensures forall e :: e in s && refs[e].source in idx && refs[e].target in idx ==> e in r
  {
    if s == [] then []
    else if refs[s[0]].source in idx && refs[s[0]].target in idx then [s[0]] + Survivors(refs, idx, s[1..])
    else Survivors(refs, idx, s[1..])
  }

  /** `el` is the edge element of cached reference `ref`: both endpoints are
      indexed, and it joins their indices with the reference's weight. */
  ghost predicate EdgeOf<N, E, NW, EW>(idx: map<N, nat>, ref: EdgeRef<N, E, EW>, el: Element<NW, EW>) {
    ref.source in idx && ref.target in idx && el == Edge(ref.weight, idx[ref.source], idx[ref.target])
  }

  /** The edge elements are exactly the surviving edges, in order, each with
      its cached weight and the indices of its endpoints. */
  lemma {:induction false} EdgeElementsAreSurvivors<N, E, NW, EW>(refs: map<E, EdgeRef<N, E, EW>>, idx: map<N, nat>, s: seq<E>)
    requires forall e :: e in s ==> e in refs
    ensures |EdgeElements<N, E, NW, EW>(refs, idx, s)| == |Survivors(refs, idx, s)|
    ensures forall k :: 0 <= k < |Survivors(refs, idx, s)| ==>
              EdgeOf(idx, refs[Survivors(refs, idx, s)[k]], EdgeElements<N, E, NW, EW>(refs, idx, s)[k])
  {
    if s != [] {
      var tail := s[1..];
      EdgeElementsAreSurvivors<N, E, NW, EW>(refs, idx, tail);
      var ee, surv := EdgeElements<N, E, NW, EW>(refs, idx, tail), Survivors(refs, idx, tail);
      var all, survs := EdgeElements<N, E, NW, EW>(refs, idx, s), Survivors(refs, idx, s);
      var ref := refs[s[0]];
      if ref.source in idx && ref.target in idx {
        assert all == [Edge(ref.weight, idx[ref.source], idx[ref.target])] + ee;
        assert survs == [s[0]] + surv;
        forall k | 0 < k < |survs|
          ensures EdgeOf(idx, refs[survs[k]], all[k])
        {
          assert survs[k] == surv[k - 1] && all[k] == ee[k - 1];
        }
      } else {
        assert all == ee && survs == surv;
      }
    }
  }

  /** Every node id in `nodeOrder` has a base-graph weight and every edge id
      in `edgeOrder` a cached reference: the lookups of the stream succeed. */
  ghost predicate Resolvable<N, E, NW, EW>(weights: map<N, NW>, refs: map<E, EdgeRef<N, E, EW>>,
                                           nodeOrder: seq<N>, edgeOrder: seq<E>) {
    && (forall n :: n in nodeOrder ==> n in weights)
    && (forall e :: e in edgeOrder ==> e in refs)
  }

  /** The whole stream: every node element first, then the edge elements,
      with node indices assigned over the node visit order. */
  function Extract<N(==), E(==), NW, EW>(weights: map<N, NW>, refs: map<E, EdgeRef<N, E, EW>>,
                                         nodeOrder: seq<N>, edgeOrder: seq<E>): seq<Element<NW, EW>>
    requires Resolvable(weights, refs, nodeOrder, edgeOrder)
  {
    NodeElements(weights, nodeOrder) + EdgeElements(refs, Indexes(nodeOrder), edgeOrder)
  }

  /** Which of the two maps a stream is visiting, as a cursor into its order. */
  datatype Phase = Nodes(cursor: nat) | Edges(cursor: nat)

  /** The cursor lies within the order it points into. */
  ghost predicate InRange<N, E>(phase: Phase, nodeOrder: seq<N>, edgeOrder: seq<E>) {
    match phase
    case Nodes(i) => i <= |nodeOrder|
    case Edges(j) => j <= |edgeOrder|
  }

  /** The elements a stream at `phase`, with index map `idx`, has yet to produce. */
  ghost function Pending<N, E, NW, EW>(weights: map<N, NW>, refs: map<E, EdgeRef<N, E, EW>>,
                                       nodeOrder: seq<N>, edgeOrder: seq<E>,
                                       phase: Phase, idx: map<N, nat>): seq<Element<NW, EW>>
    requires Resolvable(weights, refs, nodeOrder, edgeOrder)
    requires InRange(phase, nodeOrder, edgeOrder)
  {
    match phase
    case Nodes(i) => NodeElements<N, NW, EW>(weights, nodeOrder)[i..] + EdgeElements(refs, Indexes(nodeOrder), edgeOrder)
    case Edges(j) => EdgeElements(refs, idx, edgeOrder[j..])
  }

  /** A fresh stream has the whole extraction pending. */
  lemma PendingStart<N, E, NW, EW>(weights: map<N, NW>, refs: map<E, EdgeRef<N, E, EW>>,
                                   nodeOrder: seq<N>, edgeOrder: seq<E>, idx: map<N, nat>)
    requires Resolvable(weights, refs, nodeOrder, edgeOrder)
    ensures Pending<N, E, NW, EW>(weights, refs, nodeOrder, edgeOrder, Nodes(0), idx)
            == Extract(weights, refs, nodeOrder, edgeOrder)
  {
    assert NodeElements<N, NW, EW>(weights, nodeOrder)[0..] == NodeElements<N, NW, EW>(weights, nodeOrder);
  }

  /** Visiting node `i` produces its node element first. The index maps
      `idx` and `idx'` are free: the nodes phase does not consult them. */
  lemma PendingNode<N, E, NW, EW>(weights: map<N, NW>, refs: map<E, EdgeRef<N, E, EW>>,
                                  nodeOrder: seq<N>, edgeOrder: seq<E>, i: nat, idx: map<N, nat>, idx': map<N, nat>)
    requires Resolvable(weights, refs, nodeOrder, edgeOrder)
    requires i < |nodeOrder|
    ensures Pending<N, E, NW, EW>(weights, refs, nodeOrder, edgeOrder, Nodes(i), idx)
            == [Node(weights[nodeOrder[i]])] + Pending<N, E, NW, EW>(weights, refs, nodeOrder, edgeOrder, Nodes(i + 1), idx')
  {
    var ns := NodeElements<N, NW, EW>(weights, nodeOrder);
    var es := EdgeElements<N, E, NW, EW>(refs, Indexes(nodeOrder), edgeOrder);
    NodeElementsAt<N, NW, EW>(weights, nodeOrder, i);
    assert ns[i..] + es == [ns[i]] + (ns[i + 1..] + es);
  }

  /** Once the nodes are exhausted the edges are pending, over the index map
      of all the nodes. */
  lemma PendingSwitch<N, E, NW, EW>(weights: map<N, NW>, refs: map<E, EdgeRef<N, E, EW>>,
                                    nodeOrder: seq<N>, edgeOrder: seq<E>, idx: map<N, nat>)
    requires Resolvable(weights, refs, nodeOrder, edgeOrder)
    ensures Pending<N, E, NW, EW>(weights, refs, nodeOrder, edgeOrder, Nodes(|nodeOrder|), idx)
            == Pending<N, E, NW, EW>(weights, refs, nodeOrder, edgeOrder, Edges(0), Indexes(nodeOrder))
  {
    var ns := NodeElements<N, NW, EW>(weights, nodeOrder);
    var es := EdgeElements<N, E, NW, EW>(refs, Indexes(nodeOrder), edgeOrder);
    assert ns[|nodeOrder|..] + es == es;
    assert edgeOrder[0..] == edgeOrder;
  }

  /** Visiting edge `j` produces its edge element, if it has one, first. */
  lemma PendingEdge<N, E, NW, EW>(weights: map<N, NW>, refs: map<E, EdgeRef<N, E, EW>>,
                                  nodeOrder: seq<N>, edgeOrder: seq<E>, j: nat, idx: map<N, nat>)
    requires Resolvable(weights, refs, nodeOrder, edgeOrder)
    requires j < |edgeOrder|
    ensures var el := EdgeElement<N, E, NW, EW>(idx, refs[edgeOrder[j]]);
            Pending<N, E, NW, EW>(weights, refs, nodeOrder, edgeOrder, Edges(j), idx)
            == (if el.Some? then [el.value] else []) + Pending<N, E, NW, EW>(weights, refs, nodeOrder, edgeOrder, Edges(j + 1), idx)
  {
    assert edgeOrder[j..][0] == edgeOrder[j] && edgeOrder[j..][1..] == edgeOrder[j + 1..];
  }

  /** The stream holds one node element per annotated node, in visit order and
      with the base graph's weight, then one edge element per surviving edge,
      whose endpoint indices point at the node elements of its base endpoints;
      so it is never longer than the two maps together. */
  lemma ExtractShape<N, E, NW, EW>(weights: map<N, NW>, refs: map<E, EdgeRef<N, E, EW>>,
                                   nodeOrder: seq<N>, edgeOrder: seq<E>)
    requires Distinct(nodeOrder)
    requires Resolvable(weights, refs, nodeOrder, edgeOrder)
    ensures var x := Extract(weights, refs, nodeOrder, edgeOrder);
            |x| == |nodeOrder| + |Survivors(refs, Indexes(nodeOrder), edgeOrder)| &&
            |x| <= |nodeOrder| + |edgeOrder|
    ensures var x := Extract(weights, refs, nodeOrder, edgeOrder);
            forall k :: 0 <= k < |nodeOrder| ==> x[k] == Node(weights[nodeOrder[k]])
    ensures var x := Extract(weights, refs, nodeOrder, edgeOrder);
            var surv := Survivors(refs, Indexes(nodeOrder), edgeOrder);
            forall k :: 0 <= k < |surv| ==>
              var el := x[|nodeOrder| + k];
              el.Edge? && el.source < |nodeOrder| && el.target < |nodeOrder| &&
              nodeOrder[el.source] == refs[surv[k]].source &&
              nodeOrder[el.target] == refs[surv[k]].target &&
              el.edgeWeight == refs[surv[k]].weight
  {
    var idx := Indexes(nodeOrder);
    IndexesDense(nodeOrder);
    EdgeElementsAreSurvivors<N, E, NW, EW>(refs, idx, edgeOrder);
    var ns := NodeElements<N, NW, EW>(weights, nodeOrder);
    var es := EdgeElements<N, E, NW, EW>(refs, idx, edgeOrder);
    var x := Extract(weights, refs, nodeOrder, edgeOrder);
    var surv := Survivors(refs, idx, edgeOrder);
    assert x == ns + es;
    forall k | 0 <= k < |nodeOrder|
      ensures x[k] == Node(weights[nodeOrder[k]])
    {
      NodeElementsAt<N, NW, EW>(weights, nodeOrder, k);
    }
    forall k | 0 <= k < |surv|
      ensures var el := x[|nodeOrder| + k];
              el.Edge? && el.source < |nodeOrder| && el.target < |nodeOrder| &&
              nodeOrder[el.source] == refs[surv[k]].source &&
              nodeOrder[el.target] == refs[surv[k]].target &&
              el.edgeWeight == refs[surv[k]].weight
    {
      var ref := refs[surv[k]];
      assert EdgeOf(idx, ref, es[k]);
      assert x[|nodeOrder| + k] == es[k];
    }
  }

  /** The stream is never longer than the two annotation maps together. */
  lemma ExtractBound<N, E, NW, EW, NOW, EOW>(nodes: map<N, NOW>, edges: map<E, EOW>,
                                             weights: map<N, NW>, refs: map<E, EdgeRef<N, E, EW>>,
                                             nodeOrder: seq<N>, edgeOrder: seq<E>)
    requires Enumerates(nodeOrder, nodes.Keys)
    requires Enumerates(edgeOrder, edges.Keys)
    requires Resolvable(weights, refs, nodeOrder, edgeOrder)
    ensures |Extract(weights, refs, nodeOrder, edgeOrder)| <= |nodes| + |edges|
  {
    ExtractShape<N, E, NW, EW>(weights, refs, nodeOrder, edgeOrder);
    EnumeratesSize(nodeOrder, nodes.Keys);
    EnumeratesSize(edgeOrder, edges.Keys);
  }

  /** Endpoint closure: an annotated edge survives extraction iff both its
      endpoints are annotated nodes. */
  lemma EndpointClosure<N, E, EW, NOW, EOW>(nodes: map<N, NOW>, edges: map<E, EOW>,
                                           refs: map<E, EdgeRef<N, E, EW>>,
                                           nodeOrder: seq<N>, edgeOrder: seq<E>)
    requires Enumerates(nodeOrder, nodes.Keys)
    requires Enumerates(edgeOrder, edges.Keys)
    requires edges.Keys == refs.Keys
    ensures forall e :: e in edges ==>
              (e in Survivors(refs, Indexes(nodeOrder), edgeOrder) <==>
               refs[e].source in nodes && refs[e].target in nodes)
  {
    IndexesDense(nodeOrder);
  }
}
