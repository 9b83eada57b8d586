/**
 * The networkx graph as the analysis code sees it: node ids, the edge list
 * networkx reports, and the degree dictionary in its iteration order.
 * networkx itself is not modelled; these values are inputs.
 */
module Graphs {
  import opened Sequences

  /** Node identifiers are string ids (authors or papers). */
  type NodeId = string

  /** An edge as networkx lists it; an undirected graph lists each edge once. */
  type Edge = (NodeId, NodeId)

  /** The items of the degree dictionary: (node, degree) pairs in the dictionary's iteration order. */
  type DegreeItems = seq<(NodeId, nat)>

  /** The node ids of a degree dictionary, in its order. */
  function Keys(items: DegreeItems): (r: seq<NodeId>)
    ensures |r| == |items|
    ensures forall i :: 0 <= i < |items| ==> r[i] == items[i].0
  {
    if items == [] then [] else [items[0].0] + Keys(items[1..])
  }

  /** How many endpoints of `edges` are `v`: networkx's degree, where a self-loop counts twice. */
  function EndpointCount(edges: seq<Edge>, v: NodeId): nat {
    if edges == [] then 0
    else (if edges[0].0 == v then 1 else 0) + (if edges[0].1 == v then 1 else 0)
         + EndpointCount(edges[1..], v)
  }

  /** The sum of the endpoint counts of the listed nodes. */
  function DegreeSum(nodes: seq<NodeId>, edges: seq<Edge>): nat {
    if nodes == [] then 0 else EndpointCount(edges, nodes[0]) + DegreeSum(nodes[1..], edges)
  }

  /** The sum of the degrees stored in a degree dictionary. */
  function DegreeTotal(items: DegreeItems): nat {
    if items == [] then 0 else items[0].1 + DegreeTotal(items[1..])
  }

  /** The degree dictionary of the graph with node list `nodes` and edge list `edges`. */
  predicate DegreesOf(items: DegreeItems, nodes: seq<NodeId>, edges: seq<Edge>) {
    Keys(items) == nodes
    && forall i :: 0 <= i < |items| ==> items[i].1 == EndpointCount(edges, items[i].0)
  }

  /** Every edge joins two listed nodes. */
  predicate EndpointsListed(nodes: seq<NodeId>, edges: seq<Edge>) {
    forall i :: 0 <= i < |edges| ==> edges[i].0 in nodes && edges[i].1 in nodes
  }

  // Removing the first edge lowers the degree sum by the multiplicities of its endpoints.
  lemma {:induction false} DegreeSumFirstEdge(nodes: seq<NodeId>, edges: seq<Edge>)
    requires edges != []
    ensures DegreeSum(nodes, edges)
         == multiset(nodes)[edges[0].0] + multiset(nodes)[edges[0].1] + DegreeSum(nodes, edges[1..])
  {
    if nodes != [] {
      DegreeSumFirstEdge(nodes[1..], edges);
      assert nodes == [nodes[0]] + nodes[1..];
    }
  }

  lemma {:induction false} DistinctOnce(nodes: seq<NodeId>, x: NodeId)
    requires Distinct(nodes) && x in nodes
    ensures multiset(nodes)[x] == 1
  {
    DistinctMultiplicity(nodes);
  }

  /**
   * The handshake lemma the comment at backend.py line 40 relies on: over the
   * distinct nodes of a graph, the degrees add up to twice the number of edges.
   */
  lemma {:induction false} Handshake(nodes: seq<NodeId>, edges: seq<Edge>)
    requires Distinct(nodes)
    requires EndpointsListed(nodes, edges)
    ensures DegreeSum(nodes, edges) == 2 * |edges|
  {
    if edges != [] {
      DegreeSumFirstEdge(nodes, edges);
      DistinctOnce(nodes, edges[0].0);
      DistinctOnce(nodes, edges[0].1);
      assert EndpointsListed(nodes, edges[1..]) by {
        forall i | 0 <= i < |edges[1..]|
          ensures edges[1..][i].0 in nodes && edges[1..][i].1 in nodes
        {
          assert edges[1..][i] == edges[i + 1];
        }
      }
      Handshake(nodes, edges[1..]);
    } else {
      DegreeSumNoEdges(nodes);
    }
  }

  lemma {:induction false} DegreeSumNoEdges(nodes: seq<NodeId>)
    ensures DegreeSum(nodes, []) == 0
  {
    if nodes != [] {
      DegreeSumNoEdges(nodes[1..]);
    }
  }

  /** When the dictionary holds each node's endpoint count, its degrees sum to `DegreeSum`. */
  lemma {:induction false} DegreeTotalIsDegreeSum(items: DegreeItems, edges: seq<Edge>)
    requires forall i :: 0 <= i < |items| ==> items[i].1 == EndpointCount(edges, items[i].0)
    ensures DegreeTotal(items) == DegreeSum(Keys(items), edges)
  {
    if items != [] {
      DegreeTotalIsDegreeSum(items[1..], edges);
      assert Keys(items)[1..] == Keys(items[1..]);
    }
  }

  /** The degrees of a graph's degree dictionary sum to twice its number of edges. */
  lemma DegreeTotalHandshake(items: DegreeItems, nodes: seq<NodeId>, edges: seq<Edge>)
    requires Distinct(nodes)
    requires DegreesOf(items, nodes, edges)
    requires EndpointsListed(nodes, edges)
    ensures DegreeTotal(items) == 2 * |edges|
  {
    DegreeTotalIsDegreeSum(items, edges);
    Handshake(nodes, edges);
  }
}
