/** `connect_components`: while the graph is disconnected, every component
    but the largest gets one bridge edge, from the node outside it nearest to
    one of its centre nodes, to its own node nearest to that outside node.
    The grid distance and the random choice among centre nodes are
    parameters. */
module Repair {
  import opened Wrappers
  import opened Sorting
  import opened Grid
  import opened Similarity
  import opened EdgeBuilder
  import opened Graphs
  import opened Components

  /** The initial "shortest distance" of both nearest-node searches. */
  const Sentinel := 99999

  /** The columns of the reindexed table that the repair reads through
      `df.loc[n, ...]`: the geoid and the score of row `n`. */
  datatype Frame = Frame(geoid: seq<Geoid>, score: seq<real>)

  /** Every node names a row of the frame, and so does the default node 0. */
  ghost predicate Covers(t: Frame, g: Graph) {
    && |t.geoid| == |t.score| && |t.geoid| > 0
    && forall u :: u in NodeSet(g) ==> 0 <= u < |t.geoid|
  }

  /** All node-to-node distances are below the sentinel. */
  ghost predicate Near(g: Graph, t: Frame, distance: (Geoid, Geoid) -> int) {
    forall u, v :: u in NodeSet(g) && v in NodeSet(g) && 0 <= u < |t.geoid| && 0 <= v < |t.geoid| ==>
      Dist(t, distance, u, v) < Sentinel
  }

  /** What `random.choice` may return: a member of any non-empty set. */
  ghost predicate Picks(choice: set<Node> -> Node) {
    forall s :: s != {} ==> choice(s) in s
  }

  // ---------------------------------------------------------------------
  // Nearest-node search

  /** Position `k` holds the first least value of `d`. */
  ghost predicate FirstLeast(d: seq<int>, k: int) {
    && 0 <= k < |d|
    && (forall j :: 0 <= j < k ==> d[k] < d[j])
    && (forall j :: k < j < |d| ==> d[k] <= d[j])
  }

  /** The search loop `if dist < shortest_dist: shortest_dist = dist;
      closest = n`, run over `cands` (with distances `d`) from the given
      best so far. */
  function ClosestFrom(cands: seq<Node>, d: seq<int>, best: Node, bestDist: int): (r: (Node, int))
    requires |cands| == |d|
    ensures r == (best, bestDist) || r.0 in cands
    decreases |cands|
  {
    if cands == [] then (best, bestDist)
    else if d[0] < bestDist then ClosestFrom(cands[1..], d[1..], cands[0], d[0])
    else ClosestFrom(cands[1..], d[1..], best, bestDist)
  }

  /** The search keeps its start when nothing beats it, and otherwise ends at
      the first candidate of least distance. */
  lemma {:induction false} ClosestFromSpec(cands: seq<Node>, d: seq<int>, best: Node, bestDist: int)
    requires |cands| == |d|
    ensures (forall j :: 0 <= j < |d| ==> bestDist <= d[j]) ==> ClosestFrom(cands, d, best, bestDist) == (best, bestDist)
    ensures (exists j :: 0 <= j < |d| && d[j] < bestDist) ==>
              exists k :: FirstLeast(d, k) && ClosestFrom(cands, d, best, bestDist) == (cands[k], d[k])
    decreases |cands|
  {
    if cands != [] {
      var r := ClosestFrom(cands, d, best, bestDist);
      var nb, nd := if d[0] < bestDist then cands[0] else best, if d[0] < bestDist then d[0] else bestDist;
      ClosestFromSpec(cands[1..], d[1..], nb, nd);
      assert forall j :: 0 <= j < |d| - 1 ==> d[1..][j] == d[j + 1];
      if exists j :: 0 <= j < |d| - 1 && d[1..][j] < nd {
        var k :| FirstLeast(d[1..], k) && r == (cands[1..][k], d[1..][k]);
        assert FirstLeast(d, k + 1);
      } else if d[0] < bestDist {
        assert FirstLeast(d, 0);
      }
    }
  }

  /** Both searches of a bridge: start at node 0 with the sentinel. */
  function ClosestNode(cands: seq<Node>, d: seq<int>): (r: (Node, int))
    requires |cands| == |d|
    ensures r == (0, Sentinel) || r.0 in cands
    ensures (forall j :: 0 <= j < |d| ==> Sentinel <= d[j]) ==> r == (0, Sentinel)
    ensures (exists j :: 0 <= j < |d| && d[j] < Sentinel) ==> exists k :: FirstLeast(d, k) && r == (cands[k], d[k])
  {
    ClosestFromSpec(cands, d, 0, Sentinel);
    ClosestFrom(cands, d, 0, Sentinel)
  }

  /** Every listed node names a row of the frame. */
  predicate Rows(t: Frame, ns: seq<Node>) {
    forall k :: 0 <= k < |ns| ==> 0 <= ns[k] < |t.geoid|
  }

  /** Listed nodes of the graph name rows of a covering frame. */
  lemma GraphRows(t: Frame, g: Graph, ns: seq<Node>)
    requires Covers(t, g) && forall x :: x in ns ==> x in NodeSet(g)
    ensures Rows(t, ns)
  {
    forall k | 0 <= k < |ns|
      ensures 0 <= ns[k] < |t.geoid|
    {
      assert ns[k] in ns;
    }
  }

  /** `distance(df.loc[u, geoid], df.loc[v, geoid])`. */
  function Dist(t: Frame, distance: (Geoid, Geoid) -> int, u: Node, v: Node): int
    requires 0 <= u < |t.geoid| && 0 <= v < |t.geoid|
  {
    distance(t.geoid[u], t.geoid[v])
  }

  /** The distances from the row of `from` to the rows of `cands`. */
  function Dists(t: Frame, distance: (Geoid, Geoid) -> int, from: Node, cands: seq<Node>): (d: seq<int>)
    requires 0 <= from < |t.geoid| && Rows(t, cands)
    ensures |d| == |cands|
    ensures forall k :: 0 <= k < |cands| ==> d[k] == Dist(t, distance, from, cands[k])
  {
    seq(|cands|, k requires 0 <= k < |cands| => Dist(t, distance, from, cands[k]))
  }

  /** One nearest-node search: from the row of `from`, over `cands`. */
  function Nearest(t: Frame, distance: (Geoid, Geoid) -> int, from: Node, cands: seq<Node>): (n: Node)
    requires 0 <= from < |t.geoid| && Rows(t, cands)
    ensures n == 0 || n in cands
  {
    ClosestNode(cands, Dists(t, distance, from, cands)).0
  }

  /** When some candidate lies within the sentinel, the search ends at a
      candidate, and no candidate is nearer than it. */
  lemma NearestIsNearest(t: Frame, distance: (Geoid, Geoid) -> int, from: Node, cands: seq<Node>, q: nat)
    requires 0 <= from < |t.geoid| && Rows(t, cands)
    requires q < |cands| && Dist(t, distance, from, cands[q]) < Sentinel
    ensures var n := Nearest(t, distance, from, cands);
            && n in cands && 0 <= n < |t.geoid|
            && forall p :: 0 <= p < |cands| ==> Dist(t, distance, from, n) <= Dist(t, distance, from, cands[p])
  {
    var d := Dists(t, distance, from, cands);
    ClosestFromSpec(cands, d, 0, Sentinel);
    assert d[q] < Sentinel;
    var k :| FirstLeast(d, k) && ClosestFrom(cands, d, 0, Sentinel) == (cands[k], d[k]);
    assert cands[k] in cands;
  }

  /** When no candidate lies within the sentinel, the search returns the
      default node 0. */
  lemma NearestDefault(t: Frame, distance: (Geoid, Geoid) -> int, from: Node, cands: seq<Node>)
    requires 0 <= from < |t.geoid| && Rows(t, cands)
    requires forall p :: 0 <= p < |cands| ==> Sentinel <= Dist(t, distance, from, cands[p])
    ensures Nearest(t, distance, from, cands) == 0
  {
    var d := Dists(t, distance, from, cands);
    assert forall j :: 0 <= j < |d| ==> Sentinel <= d[j];
  }

  /** `[n for n in nodes if n not in s]`. */
  function Outside(nodes: seq<Node>, s: set<Node>): (r: seq<Node>)
    ensures forall x :: x in r <==> x in nodes && x !in s
  {
    if nodes == [] then []
    else (if nodes[0] in s then [] else [nodes[0]]) + Outside(nodes[1..], s)
  }

  // ---------------------------------------------------------------------
  // One pass

  /** The bridge of component `s` searched from its centre node `centre`:
      `(G_closest_node, S_closest_node, weight)`. The nodes of `s` are
      visited in ascending order. */
  function Bridge(g: Graph, t: Frame, distance: (Geoid, Geoid) -> int, exp: real -> real, s: set<Node>, centre: Node): (e: Edge)
    requires Covers(t, g) && ValidExp(exp) && s in Comps(g) && centre in NodeSet(g)
    ensures 0 <= e.i < |t.geoid| && 0 <= e.j < |t.geoid|
    ensures e.weight == Weight(exp, t.score[e.i], t.score[e.j])
    ensures e.i == 0 || (e.i in NodeSet(g) && e.i !in s)
    ensures e.j == 0 || (e.j in s && e.j in NodeSet(g))
  {
    CompsMember(g, s);
    var out := Outside(g.nodes, s);
    var ins := SetToSeq(s);
    GraphRows(t, g, out);
    GraphRows(t, g, ins);
    var gc := Nearest(t, distance, centre, out);
    var sc := Nearest(t, distance, gc, ins);
    Edge(gc, sc, Weight(exp, t.score[gc], t.score[sc]))
  }

  /** When some node outside `s` is within the sentinel of the centre, the
      bridge starts at an outside node nearest to the centre. */
  lemma BridgeLeaves(g: Graph, t: Frame, distance: (Geoid, Geoid) -> int, exp: real -> real, s: set<Node>, centre: Node, m: Node)
    requires Covers(t, g) && ValidExp(exp) && s in Comps(g) && centre in NodeSet(g)
    requires m in NodeSet(g) && m !in s && Dist(t, distance, centre, m) < Sentinel
    ensures var e := Bridge(g, t, distance, exp, s, centre);
            && e.i in NodeSet(g) && e.i !in s
            && forall n :: n in NodeSet(g) && n !in s ==> Dist(t, distance, centre, e.i) <= Dist(t, distance, centre, n)
  {
    var e := Bridge(g, t, distance, exp, s, centre);
    CompsMember(g, s);
    var out := Outside(g.nodes, s);
    GraphRows(t, g, out);
    var q :| 0 <= q < |out| && out[q] == m;
    NearestIsNearest(t, distance, centre, out, q);
    forall n | n in NodeSet(g) && n !in s
      ensures Dist(t, distance, centre, e.i) <= Dist(t, distance, centre, n)
    {
      var p :| 0 <= p < |out| && out[p] == n;
    }
  }

  /** When some node of `s` is within the sentinel of the bridge's start, the
      bridge ends at a node of `s` nearest to that start. */
  lemma BridgeReturns(g: Graph, t: Frame, distance: (Geoid, Geoid) -> int, exp: real -> real, s: set<Node>, centre: Node, m: Node)
    requires Covers(t, g) && ValidExp(exp) && s in Comps(g) && centre in NodeSet(g)
    requires var e := Bridge(g, t, distance, exp, s, centre);
             m in s && Dist(t, distance, e.i, m) < Sentinel
    ensures var e := Bridge(g, t, distance, exp, s, centre);
            && e.j in s
            && forall n :: n in s ==> Dist(t, distance, e.i, e.j) <= Dist(t, distance, e.i, n)
  {
    var e := Bridge(g, t, distance, exp, s, centre);
    CompsMember(g, s);
    var ins := SetToSeq(s);
    GraphRows(t, g, ins);
    var q :| 0 <= q < |ins| && ins[q] == m;
    NearestIsNearest(t, distance, e.i, ins, q);
    forall n | n in s
      ensures Dist(t, distance, e.i, e.j) <= Dist(t, distance, e.i, n)
    {
      var p :| 0 <= p < |ins| && ins[p] == n;
    }
  }

  /** Components are non-empty sets of nodes. */
  lemma CompsMember(g: Graph, c: set<Node>)
    requires c in Comps(g)
    ensures c != {} && c <= NodeSet(g)
  {
    var u := Rep(g, c);
  }

  /** `random.choice(nx.center(S))`. */
  function CentreOf(g: Graph, choice: set<Node> -> Node, c: set<Node>): (v: Node)
    requires Picks(choice) && c in Comps(g)
    ensures v in c && v in NodeSet(g)
    ensures forall w :: w in c ==> Ecc(g, v) <= Ecc(g, w)
  {
    CompsMember(g, c);
    CenterNonEmpty(g, c);
    choice(Center(g, c))
  }

  /** The bridges of the listed components, in order. */
  function Bridges(g: Graph, t: Frame, distance: (Geoid, Geoid) -> int, exp: real -> real,
                   choice: set<Node> -> Node, comps: seq<set<Node>>): (es: seq<Edge>)
    requires Covers(t, g) && ValidExp(exp) && Picks(choice)
    requires forall k :: 0 <= k < |comps| ==> comps[k] in Comps(g)
    ensures |es| == |comps|
    ensures forall k :: 0 <= k < |comps| ==>
              es[k] == Bridge(g, t, distance, exp, comps[k], CentreOf(g, choice, comps[k]))
    ensures forall k :: 0 <= k < |comps| ==> es[k].i in NodeSet(g) + {0} && es[k].j in NodeSet(g) + {0}
  {
    seq(|comps|, k requires 0 <= k < |comps| =>
      Bridge(g, t, distance, exp, comps[k], CentreOf(g, choice, comps[k])))
  }

  /** The `new_edges` of one pass: a bridge for every component after the
      largest, in the order of `sorted(..., key=len, reverse=True)`. */
  function PassEdges(g: Graph, t: Frame, distance: (Geoid, Geoid) -> int, exp: real -> real,
                     choice: set<Node> -> Node): (es: seq<Edge>)
    requires Covers(t, g) && ValidExp(exp) && Picks(choice)
    ensures g.nodes != [] ==> |es| == |Comps(g)| - 1
    ensures forall n :: 0 <= n < |es| ==> es[n].i in NodeSet(g) + {0} && es[n].j in NodeSet(g) + {0}
  {
    if g.nodes == [] then []
    else
      CompsNonEmpty(g);
      var sorted := SortedComponents(g);
      assert forall k :: 0 <= k < |sorted| - 1 ==> sorted[1..][k] in Comps(g) by {
        forall k | 0 <= k < |sorted| - 1
          ensures sorted[1..][k] in Comps(g)
        {
          assert sorted[k + 1] in sorted;
        }
      }
      Bridges(g, t, distance, exp, choice, sorted[1..])
  }

  /** One pass of the loop body: `G.add_weighted_edges_from(new_edges)`.
      Every bridge ends at a node or at the default node 0, so the pass adds
      no node but 0; it keeps the node weights and every edge key. */
  function Pass(g: Graph, t: Frame, distance: (Geoid, Geoid) -> int, exp: real -> real,
                choice: set<Node> -> Node): (r: Graph)
    requires Covers(t, g) && ValidExp(exp) && Picks(choice)
    ensures r.weight == g.weight
    ensures NodeSet(g) <= NodeSet(r) <= NodeSet(g) + {0}
    ensures 0 in NodeSet(g) ==> r.nodes == g.nodes
    ensures forall k :: k in g.edges ==> k in r.edges
  {
    var es := PassEdges(g, t, distance, exp, choice);
    EndPointsWithin(es, NodeSet(g) + {0});
    assert forall k :: k in g.edges ==> k in AddEdges(g, es).edges by {
      forall k | k in g.edges
        ensures k in AddEdges(g, es).edges
      {
        AddEdgesKeys(g, es, k);
      }
    }
    AddEdges(g, es)
  }

  /** The k-th new edge bridges the (k+1)-th component, no larger than the
      first: it leaves that component from a node outside it nearest to a
      centre node, and comes back to the component's node nearest to that. */
  lemma PassEdgeBridges(g: Graph, t: Frame, distance: (Geoid, Geoid) -> int, exp: real -> real,
                        choice: set<Node> -> Node, k: nat)
    requires Covers(t, g) && ValidExp(exp) && Picks(choice) && Near(g, t, distance)
    requires k < |PassEdges(g, t, distance, exp, choice)|
    ensures var sorted := SortedComponents(g);
            var e := PassEdges(g, t, distance, exp, choice)[k];
            && k + 1 < |sorted| && |sorted[k + 1]| <= |sorted[0]|
            && sorted[k + 1] in Comps(g)
            && e.i in NodeSet(g) && e.i !in sorted[k + 1]
            && e.j in sorted[k + 1]
            && e.weight == Weight(exp, t.score[e.i], t.score[e.j])
  {
    var sorted := SortedComponents(g);
    PassEdgeIs(g, t, distance, exp, choice, k);
    var c := sorted[k + 1];
    var centre := CentreOf(g, choice, c);
    var o := OtherComp(g, c);
    BridgeLeaves(g, t, distance, exp, c, centre, o);
    BridgeReturns(g, t, distance, exp, c, centre, centre);
  }

  /** The k-th new edge is the bridge of the (k+1)-th component by size. */
  lemma PassEdgeIs(g: Graph, t: Frame, distance: (Geoid, Geoid) -> int, exp: real -> real,
                   choice: set<Node> -> Node, k: nat)
    requires Covers(t, g) && ValidExp(exp) && Picks(choice)
    requires k < |PassEdges(g, t, distance, exp, choice)|
    ensures var sorted := SortedComponents(g);
            && k + 1 < |sorted| && |sorted[k + 1]| <= |sorted[0]| && sorted[k + 1] in Comps(g)
            && PassEdges(g, t, distance, exp, choice)[k]
               == Bridge(g, t, distance, exp, sorted[k + 1], CentreOf(g, choice, sorted[k + 1]))
  {
    var sorted := SortedComponents(g);
    assert sorted[k + 1] in sorted;
  }

  /** With two components or more, some node lies outside any one of them. */
  lemma OtherComp(g: Graph, c: set<Node>) returns (o: Node)
    requires c in Comps(g) && |Comps(g)| >= 2
    ensures o in NodeSet(g) && o !in c
  {
    var ci := Rep(g, c);
    RemoveCard(Comps(g), c);
    var other := PickAny(Comps(g) - {c});
    o := Rep(g, other);
    if o in c {
      CompSame(g, ci, o);
      assert false;
    }
  }

  /** Under `Near`, every bridge joins two components that were apart. */
  lemma BridgeCrosses(g: Graph, t: Frame, distance: (Geoid, Geoid) -> int, exp: real -> real,
                      choice: set<Node> -> Node, k: nat)
    requires Covers(t, g) && ValidExp(exp) && Picks(choice) && Near(g, t, distance)
    requires k < |PassEdges(g, t, distance, exp, choice)|
    ensures var e := PassEdges(g, t, distance, exp, choice)[k];
            && e.i in NodeSet(g) && e.j in NodeSet(g)
            && Comp(g, e.i) != Comp(g, e.j)
            && !Adjacent(g, e.i, e.j)
  {
    var e := PassEdges(g, t, distance, exp, choice)[k];
    PassEdgeBridges(g, t, distance, exp, choice, k);
    var c := SortedComponents(g)[k + 1];
    CompsMember(g, c);
    var u := Rep(g, c);
    CompSame(g, u, e.j);
    if Adjacent(g, e.i, e.j) {
      AdjacentSameComp(g, e.i, e.j);
      assert false;
    }
  }

  /** The similarity weight of the rows of a key. */
  function KeyWeight(t: Frame, exp: real -> real, k: (Node, Node)): int
    requires ValidExp(exp)
  {
    if 0 <= k.0 < |t.score| && 0 <= k.1 < |t.score| then Weight(exp, t.score[k.0], t.score[k.1]) else 0
  }

  /** Every edge of `es` joins two components of `g` and carries the
      similarity weight of its endpoints. */
  ghost predicate Crossing(g: Graph, t: Frame, exp: real -> real, es: seq<Edge>)
    requires ValidExp(exp)
  {
    forall n :: 0 <= n < |es| ==>
      && es[n].i in NodeSet(g) && es[n].j in NodeSet(g)
      && Comp(g, es[n].i) != Comp(g, es[n].j)
      && es[n].weight == KeyWeight(t, exp, Key(es[n].i, es[n].j))
  }

  /** Every edge in `h` that `g` lacks joins two components of `g` and
      carries the similarity weight of its endpoints. */
  ghost predicate AddedCross(g: Graph, h: Graph, t: Frame, exp: real -> real)
    requires ValidExp(exp)
  {
    forall k :: k in h.edges && k !in g.edges ==>
      && k.0 < k.1 && k.0 in NodeSet(g) && k.1 in NodeSet(g)
      && Comp(g, k.0) != Comp(g, k.1)
      && h.edges[k] == KeyWeight(t, exp, k)
  }

  /** Under `Near`, the bridges of a pass are crossing edges. */
  lemma PassEdgesCross(g: Graph, t: Frame, distance: (Geoid, Geoid) -> int, exp: real -> real,
                       choice: set<Node> -> Node)
    requires Covers(t, g) && ValidExp(exp) && Picks(choice) && Near(g, t, distance)
    ensures Crossing(g, t, exp, PassEdges(g, t, distance, exp, choice))
  {
    var es := PassEdges(g, t, distance, exp, choice);
    forall n | 0 <= n < |es|
      ensures es[n].i in NodeSet(g) && es[n].j in NodeSet(g)
      ensures Comp(g, es[n].i) != Comp(g, es[n].j)
      ensures es[n].weight == KeyWeight(t, exp, Key(es[n].i, es[n].j))
    {
      PassEdgeCrosses(g, t, distance, exp, choice, n);
    }
  }

  /** Under `Near`, the k-th bridge of a pass is a crossing edge. */
  lemma PassEdgeCrosses(g: Graph, t: Frame, distance: (Geoid, Geoid) -> int, exp: real -> real,
                        choice: set<Node> -> Node, k: nat)
    requires Covers(t, g) && ValidExp(exp) && Picks(choice) && Near(g, t, distance)
    requires k < |PassEdges(g, t, distance, exp, choice)|
    ensures var e := PassEdges(g, t, distance, exp, choice)[k];
            && e.i in NodeSet(g) && e.j in NodeSet(g)
            && Comp(g, e.i) != Comp(g, e.j)
            && e.weight == KeyWeight(t, exp, Key(e.i, e.j))
  {
    var e := PassEdges(g, t, distance, exp, choice)[k];
    BridgeCrosses(g, t, distance, exp, choice, k);
    PassEdgeBridges(g, t, distance, exp, choice, k);
    EdgeKeyWeight(t, exp, e);
  }

  /** An edge weighted by the similarity of its ends carries the weight of
      its key, whichever way round it was listed. */
  lemma EdgeKeyWeight(t: Frame, exp: real -> real, e: Edge)
    requires ValidExp(exp) && 0 <= e.i < |t.score| && 0 <= e.j < |t.score|
    requires e.weight == Weight(exp, t.score[e.i], t.score[e.j])
    ensures e.weight == KeyWeight(t, exp, Key(e.i, e.j))
  {
    if e.j < e.i {
      WeightSymmetric(exp, t.score[e.i], t.score[e.j]);
    }
  }

  /** Adding crossing edges keeps every node, every node weight and every
      edge with its weight. */
  lemma CrossingKeeps(g: Graph, t: Frame, exp: real -> real, es: seq<Edge>)
    requires ValidExp(exp) && Crossing(g, t, exp, es)
    ensures var h := AddEdges(g, es);
            && h.nodes == g.nodes && h.weight == g.weight
            && forall k :: k in g.edges ==> k in h.edges && h.edges[k] == g.edges[k]
  {
    EndPointsWithin(es, NodeSet(g));
    forall k | k in g.edges
      ensures k in AddEdges(g, es).edges && AddEdges(g, es).edges[k] == g.edges[k]
    {
      if Mentions(es, k) {
        var e :| e in es && Key(e.i, e.j) == k;
        var n :| 0 <= n < |es| && es[n] == e;
        AdjacentSameComp(g, e.i, e.j);
        assert false;
      }
      AddEdgesKeepsWeight(g, es, k);
    }
  }

  /** Adding crossing edges adds only crossing edges, even when two of them
      share a key. */
  lemma CrossingAdds(g: Graph, t: Frame, exp: real -> real, es: seq<Edge>)
    requires ValidExp(exp) && Crossing(g, t, exp, es)
    ensures AddedCross(g, AddEdges(g, es), t, exp)
  {
    var h := AddEdges(g, es);
    forall k | k in h.edges && k !in g.edges
      ensures k.0 < k.1 && k.0 in NodeSet(g) && k.1 in NodeSet(g) && Comp(g, k.0) != Comp(g, k.1)
      ensures h.edges[k] == KeyWeight(t, exp, k)
    {
      AddEdgesKeys(g, es, k);
      CrossingKey(g, t, exp, es, k);
    }
  }

  /** A key some crossing edge uses joins two components of `g`, and is
      stored with the similarity weight. */
  lemma CrossingKey(g: Graph, t: Frame, exp: real -> real, es: seq<Edge>, k: (Node, Node))
    requires ValidExp(exp) && Crossing(g, t, exp, es) && Mentions(es, k)
    ensures k.0 < k.1 && k.0 in NodeSet(g) && k.1 in NodeSet(g) && Comp(g, k.0) != Comp(g, k.1)
    ensures k in AddEdges(g, es).edges && AddEdges(g, es).edges[k] == KeyWeight(t, exp, k)
  {
    var e :| e in es && Key(e.i, e.j) == k;
    var n :| 0 <= n < |es| && es[n] == e;
    assert Comp(g, e.i) != Comp(g, e.j);
    if e.i < e.j {
      assert k == (e.i, e.j);
    } else {
      assert k == (e.j, e.i);
    }
    var f := (k: (Node, Node)) => KeyWeight(t, exp, k);
    forall m | 0 <= m < |es|
      ensures es[m].weight == f(Key(es[m].i, es[m].j))
    {
    }
    AddEdgesStoredBy(g, es, f, k);
  }

  /** Adding at least one crossing edge merges two components. */
  lemma CrossingMerges(g: Graph, t: Frame, exp: real -> real, es: seq<Edge>)
    requires ValidExp(exp) && Crossing(g, t, exp, es) && es != []
    ensures |Comps(AddEdges(g, es))| < |Comps(g)|
  {
    var h := AddEdges(g, es);
    CrossingKeeps(g, t, exp, es);
    var e := es[0];
    assert e in es;
    AddEdgesKeys(g, es, Key(e.i, e.j));
    CompsShrinkStrict(g, h, e.i, e.j);
  }

  /** What the repair may do to `g` to reach `h`: keep every node, node
      weight and edge, and add only edges that join two components of `g`,
      weighted by similarity. */
  ghost predicate Repaired(g: Graph, h: Graph, t: Frame, exp: real -> real)
    requires ValidExp(exp)
  {
    && h.nodes == g.nodes && h.weight == g.weight
    && (forall k :: k in g.edges ==> k in h.edges && h.edges[k] == g.edges[k])
    && AddedCross(g, h, t, exp)
  }

  /** A pass over a disconnected repair of `g` is again a repair of `g`, with
      fewer components. */
  lemma PassRepairs(g: Graph, h: Graph, t: Frame, distance: (Geoid, Geoid) -> int, exp: real -> real,
                    choice: set<Node> -> Node)
    requires Covers(t, g) && ValidExp(exp) && Picks(choice) && Near(g, t, distance)
    requires g.nodes != [] && Repaired(g, h, t, exp) && !Connected(h)
    ensures Covers(t, h) && Near(h, t, distance)
    ensures var next := Pass(h, t, distance, exp, choice);
            Repaired(g, next, t, exp) && |Comps(next)| < |Comps(h)|
  {
    assert NodeSet(h) == NodeSet(g);
    var es := PassEdges(h, t, distance, exp, choice);
    var next := AddEdges(h, es);
    CompsNonEmpty(h);
    PassEdgesCross(h, t, distance, exp, choice);
    CrossingKeeps(h, t, exp, es);
    CrossingAdds(h, t, exp, es);
    CrossingMerges(h, t, exp, es);
    RepairedTrans(g, h, next, t, exp);
  }

  /** A repair of a repair is a repair. */
  lemma RepairedTrans(g: Graph, h: Graph, n: Graph, t: Frame, exp: real -> real)
    requires ValidExp(exp) && Repaired(g, h, t, exp) && Repaired(h, n, t, exp)
    ensures Repaired(g, n, t, exp)
  {
    assert NodeSet(h) == NodeSet(g);
    assert Extends(g, h);
    forall k | k in n.edges && k !in g.edges
      ensures k.0 < k.1 && k.0 in NodeSet(g) && k.1 in NodeSet(g) && Comp(g, k.0) != Comp(g, k.1)
      ensures n.edges[k] == KeyWeight(t, exp, k)
    {
      if k !in h.edges {
        CompsApart(g, h, k.0, k.1);
      }
    }
  }

  /** `connect_components`: add a pass of bridges while the graph is
      disconnected. `is_connected` raises on a graph without nodes. Each pass
      merges at least two components, so there are fewer passes than
      components. */
  method ConnectComponents(g: Graph, t: Frame, distance: (Geoid, Geoid) -> int, exp: real -> real,
                           choice: set<Node> -> Node) returns (r: Result<Graph>, passes: nat)
    requires Covers(t, g) && ValidExp(exp) && Picks(choice) && Near(g, t, distance)
    ensures r.Failure? <==> g.nodes == []
    ensures r.Failure? ==> r.error == EmptyGraph
    ensures r.Success? ==> Connected(r.value) && Repaired(g, r.value, t, exp) && passes < |Comps(g)|
    ensures Connected(g) ==> r == Success(g) && passes == 0
  {
    if g.nodes == [] {
      return Failure(EmptyGraph), 0;
    }
    CompsNonEmpty(g);
    var h := g;
    passes := 0;
    while !Connected(h)
      invariant Repaired(g, h, t, exp)
      invariant 1 <= |Comps(h)| && passes + |Comps(h)| <= |Comps(g)|
      invariant passes == 0 ==> h == g
      decreases |Comps(h)|
    {
      PassRepairs(g, h, t, distance, exp, choice);
      var next := Pass(h, t, distance, exp, choice);
      CompsNonEmpty(next);
      h, passes := next, passes + 1;
    }
    return Success(h), passes;
  }
}
