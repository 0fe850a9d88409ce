/** The read-only base graph the overlay annotates, and the elements a graph
    builder consumes. The base graph stands for any petgraph graph: node ids,
    edge ids and weights are type parameters. */
module Graphs {

  datatype Option<+T> = None | Some(value: T)

  /** A graph's edge reference: the edge's own id, its endpoints and its weight. */
  datatype EdgeRef<N, E, EW> = EdgeRef(id: E, source: N, target: N, weight: EW)

  /** The base graph: the weight of every node, and its edge references in
      enumeration order. It is never changed by an overlay. */
  datatype Graph<N(==), E, NW, EW> = Graph(nodeWeights: map<N, NW>, edgeList: seq<EdgeRef<N, E, EW>>)

  /** A graph-construction element: a node with its weight, or an edge between
      the builder-local indices of two nodes added before it. */
  datatype Element<NW, EW> =
    | Node(nodeWeight: NW)
    | Edge(edgeWeight: EW, source: nat, target: nat)

  /** No element of `s` occurs twice. */
  ghost predicate Distinct<T>(s: seq<T>) {
    forall i, j :: 0 <= i < j < |s| ==> s[i] != s[j]
  }

  /** `s` lists every element of `keys` exactly once: one enumeration order of
      a hash map's key set. */
  ghost predicate Enumerates<T>(s: seq<T>, keys: set<T>) {
    && Distinct(s)
    && (forall x :: x in s ==> x in keys)
    && (forall x :: x in keys ==> x in s)
  }

  /** An enumeration of a key set is exactly as long as the set is large. */
  lemma {:induction false} EnumeratesSize<T>(s: seq<T>, keys: set<T>)
    requires Enumerates(s, keys)
    ensures |s| == |keys|
    decreases |s|
  {
    if s != [] {
      var rest, smaller := s[1..], keys - {s[0]};
      assert Distinct(rest) by {
        forall i, j | 0 <= i < j < |rest|
          ensures rest[i] != rest[j]
        {
          assert rest[i] == s[i + 1] && rest[j] == s[j + 1];
        }
      }
      forall x | x in rest
        ensures x in smaller
      {
        var k :| 0 <= k < |rest| && rest[k] == x;
        assert s[k + 1] == x && s[0] != s[k + 1];
      }
      forall x | x in smaller
        ensures x in rest
      {
        assert x in s && x != s[0];
        var k :| 0 <= k < |s| && s[k] == x;
        assert rest[k - 1] == x;
      }
      EnumeratesSize(rest, smaller);
      assert s[0] in keys;
    }
  }
}
