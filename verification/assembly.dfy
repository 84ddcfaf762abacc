/** The graph assembly of `TerritoryBalancingProblem.__post_init__`: one node
    per row of the reindexed table, weighted by the truncated demand, then
    the built edges. */
module Assembly {
  import opened EdgeBuilder
  import opened Graphs

  /** `range(n)`: the positional index of the reindexed table. */
  function Range(n: nat): (r: seq<Node>)
    ensures |r| == n && forall k :: 0 <= k < n ==> r[k] == k
  {
    seq(n, k requires 0 <= k < n => k)
  }

  /** `G.add_nodes_from(df.index)` followed by `G.nodes[i]['weight'] = w[i]`:
      the nodes `0..|w|-1`, node `k` weighted `w[k]`, and no edges. */
  function Nodes(w: seq<int>): (g: Graph)
    ensures g.nodes == Range(|w|) && g.edges == map[]
    ensures forall u :: u in NodeSet(g) <==> 0 <= u < |w|
    ensures forall u :: u in g.weight <==> 0 <= u < |w|
    ensures forall k :: 0 <= k < |w| ==> g.weight[k] == w[k]
    ensures WellFormed(g)
  {
    var g := Graph(Range(|w|), map k | 0 <= k < |w| :: w[k], map[]);
    assert forall u :: u in NodeSet(g) <==> 0 <= u < |w| by {
      forall u | u in NodeSet(g)
        ensures 0 <= u < |w|
      {
        var k :| 0 <= k < |w| && g.nodes[k] == u;
      }
      forall u | 0 <= u < |w|
        ensures u in NodeSet(g)
      {
        assert g.nodes[u] == u;
      }
    }
    g
  }

  /** `G.add_weighted_edges_from(edges)` on the weighted nodes. */
  function Assemble(w: seq<int>, es: seq<Edge>): (g: Graph)
    ensures WellFormed(g)
    ensures forall u :: u in g.weight <==> 0 <= u < |w|
    ensures forall k :: 0 <= k < |w| ==> g.weight[k] == w[k]
    ensures forall u :: u in NodeSet(g) <==> 0 <= u < |w| || u in EndPoints(es)
  {
    AddEdges(Nodes(w), es)
  }

  /** When every edge joins two rows, the nodes are exactly the rows, in
      order. */
  lemma AssembleNodes(w: seq<int>, es: seq<Edge>)
    requires forall n :: 0 <= n < |es| ==> 0 <= es[n].i < |w| && 0 <= es[n].j < |w|
    ensures Assemble(w, es).nodes == Range(|w|)
  {
    EndPointsWithin(es, NodeSet(Nodes(w)));
  }

  /** The graph has an edge exactly where the list has one. */
  lemma AssembleKeys(w: seq<int>, es: seq<Edge>, k: (Node, Node))
    ensures k in Assemble(w, es).edges <==> Mentions(es, k)
  {
    AddEdgesKeys(Nodes(w), es, k);
  }

  /** With no pair listed twice, every listed edge keeps its weight. */
  lemma AssembleWeights(w: seq<int>, es: seq<Edge>, n: nat)
    requires n < |es|
    requires forall a, b :: 0 <= a < b < |es| ==> Key(es[a].i, es[a].j) != Key(es[b].i, es[b].j)
    ensures Key(es[n].i, es[n].j) in Assemble(w, es).edges
    ensures Assemble(w, es).edges[Key(es[n].i, es[n].j)] == es[n].weight
  {
    AddEdgesWeight(Nodes(w), es, n);
  }
}
