/** The repair loop of `connect_components` when two cells are not within the
    sentinel distance 99999 of each other. Both searches of a bridge start
    from node 0 at distance 99999, so when no candidate beats that they keep
    node 0. On two far-apart cells the only bridge is then the self-loop
    (0, 0): no components merge, and `while not nx.is_connected(G)` never
    ends. Beside it, the search the code evidently intends, one that starts
    from its first candidate, always returns a nearest candidate, and it
    agrees with the code's search wherever some candidate is within the
    sentinel, which `Near` guarantees for every search of the repair. */
module RepairStall {
  import opened Sorting
  import opened Grid
  import opened Similarity
  import opened EdgeBuilder
  import opened Graphs
  import opened Components
  import opened Repair

  // ---------------------------------------------------------------------
  // The searches as written: a counterexample

  /** A grid distance under which no two distinct cells are within the
      sentinel. */
  function FarApart(a: Geoid, b: Geoid): (d: int)
    ensures d < Sentinel <==> a == b
  {
    if a == b then 0 else 100000
  }

  /** The frame of two rows with geoids 10 and 20 and equal scores. */
  function TwoRows(): (t: Frame)
    ensures |t.geoid| == 2 && |t.score| == 2
    ensures t.geoid[0] != t.geoid[1] && t.score[0] == t.score[1]
  {
    Frame([10, 20], [0.0, 0.0])
  }

  /** Nodes 0 and 1, with no edge but perhaps the self-loop (0, 0). */
  ghost predicate TwoApart(g: Graph) {
    g.nodes == [0, 1] && forall k :: k in g.edges ==> k == (0, 0)
  }

  /** Such a graph has the components {0} and {1}, and the two rows cover
      it. */
  lemma TwoApartComps(g: Graph)
    requires TwoApart(g)
    ensures Covers(TwoRows(), g)
    ensures Comp(g, 0) == {0} && Comp(g, 1) == {1}
    ensures Comps(g) == {{0}, {1}} && |Comps(g)| == 2 && !Connected(g)
  {
    assert NodeSet(g) == {0, 1};
    assert Closed(g, {0}) && Closed(g, {1});
    CompLeast(g, 0, {0});
    CompLeast(g, 1, {1});
    assert Comps(g) == {{0}, {1}};
    assert {0} != {1} by {
      assert 1 !in {0};
    }
  }

  /** Every bridge over two far-apart cells is the self-loop (0, 0): the
      first search finds nothing below the sentinel and keeps node 0, and
      the second, from node 0, ends at node 0. */
  lemma SelfLoopBridge(g: Graph, exp: real -> real, s: set<Node>, centre: Node)
    requires TwoApart(g) && ValidExp(exp) && s in Comps(g) && centre in s
    ensures Covers(TwoRows(), g)
    ensures Bridge(g, TwoRows(), FarApart, exp, s, centre) == Edge(0, 0, 2000)
  {
    TwoApartComps(g);
    var t := TwoRows();
    var out := Outside(g.nodes, s);
    var ins := SetToSeq(s);
    GraphRows(t, g, out);
    GraphRows(t, g, ins);
    forall p | 0 <= p < |out|
      ensures Sentinel <= Dist(t, FarApart, centre, out[p])
    {
      assert out[p] in out;
    }
    NearestDefault(t, FarApart, centre, out);
    if s == {0} {
      assert ins == [0] by {
        assert 0 in ins && |ins| == 1;
      }
      NearestIsNearest(t, FarApart, 0, ins, 0);
    } else {
      assert s == {1};
      assert ins == [1] by {
        assert 1 in ins && |ins| == 1;
      }
      NearestDefault(t, FarApart, 0, ins);
    }
  }

  /** A pass over two far-apart cells lists only the self-loop (0, 0). */
  lemma SelfLoopPass(g: Graph, exp: real -> real, choice: set<Node> -> Node)
    requires TwoApart(g) && ValidExp(exp) && Picks(choice)
    ensures Covers(TwoRows(), g)
    ensures var es := PassEdges(g, TwoRows(), FarApart, exp, choice);
            |es| == 1 && es[0] == Edge(0, 0, 2000)
  {
    TwoApartComps(g);
    var es := PassEdges(g, TwoRows(), FarApart, exp, choice);
    assert |es| == 1;
    PassEdgeIs(g, TwoRows(), FarApart, exp, choice, 0);
    var c := SortedComponents(g)[1];
    SelfLoopBridge(g, exp, c, CentreOf(g, choice, c));
  }

  /** After a pass the two cells are still apart, and the only edge is the
      self-loop. */
  lemma PassStalls(g: Graph, exp: real -> real, choice: set<Node> -> Node)
    requires TwoApart(g) && ValidExp(exp) && Picks(choice)
    ensures Covers(TwoRows(), g)
    ensures var h := Pass(g, TwoRows(), FarApart, exp, choice);
            && TwoApart(h) && !Connected(h)
            && h == Graph(g.nodes, g.weight, map[(0, 0) := 2000])
  {
    SelfLoopPass(g, exp, choice);
    var es := PassEdges(g, TwoRows(), FarApart, exp, choice);
    AddOneEdge(g, es);
    AddSelfLoop(g);
    TwoApartComps(Pass(g, TwoRows(), FarApart, exp, choice));
  }

  /** Adding a list of one edge is adding that edge. */
  lemma AddOneEdge(g: Graph, es: seq<Edge>)
    requires |es| == 1
    ensures AddEdges(g, es) == AddEdge(g, es[0])
  {
    assert es[1..] == [];
  }

  /** Adding the self-loop (0, 0) to the two cells leaves it as their only
      edge. */
  lemma AddSelfLoop(g: Graph)
    requires TwoApart(g)
    ensures AddEdge(g, Edge(0, 0, 2000)) == Graph(g.nodes, g.weight, map[(0, 0) := 2000])
  {
    var m := g.edges[(0, 0) := 2000];
    assert m.Keys == {(0, 0)};
    assert m == map[(0, 0) := 2000];
  }

  /** The graph after `n` passes of the loop body. */
  function Passes(g: Graph, exp: real -> real, choice: set<Node> -> Node, n: nat): (h: Graph)
    requires TwoApart(g) && ValidExp(exp) && Picks(choice)
    ensures TwoApart(h) && !Connected(h)
    ensures n > 0 ==> h == Graph(g.nodes, g.weight, map[(0, 0) := 2000])
    decreases n
  {
    PassStalls(g, exp, choice);
    if n == 0 then g
    else Passes(Pass(g, TwoRows(), FarApart, exp, choice), exp, choice, n - 1)
  }

  /** As written, the loop never ends on two cells 100000 apart: after the
      first pass every pass gives back the same graph, which holds only the
      self-loop and is not connected. */
  lemma LoopNeverEnds(exp: real -> real, choice: set<Node> -> Node, n: nat)
    requires ValidExp(exp) && Picks(choice)
    ensures var g := Graph([0, 1], map[0 := 5, 1 := 5], map[]);
            && Covers(TwoRows(), g) && !Connected(g)
            && PassEdges(g, TwoRows(), FarApart, exp, choice) == [Edge(0, 0, 2000)]
            && !Connected(Passes(g, exp, choice, n))
            && Passes(g, exp, choice, n + 1) == Passes(g, exp, choice, 1)
  {
    var g := Graph([0, 1], map[0 := 5, 1 := 5], map[]);
    TwoApartComps(g);
    SelfLoopPass(g, exp, choice);
    Singleton(PassEdges(g, TwoRows(), FarApart, exp, choice));
    var h := Passes(g, exp, choice, n);
  }

  lemma Singleton(es: seq<Edge>)
    requires |es| == 1
    ensures es == [es[0]]
  {
  }

  // ---------------------------------------------------------------------
  // The search as intended

  /** The nearest-node search started from its first candidate, as a search
      from an unbounded "shortest distance" would run. */
  function FirstCandidate(cands: seq<Node>, d: seq<int>): (r: (Node, int))
    requires |cands| == |d| && cands != []
    ensures exists k :: FirstLeast(d, k) && r == (cands[k], d[k])
  {
    FirstCandidateLeast(cands, d);
    ClosestFrom(cands[1..], d[1..], cands[0], d[0])
  }

  /** Starting from the first candidate, the search ends at the first least
      one. */
  lemma FirstCandidateLeast(cands: seq<Node>, d: seq<int>)
    requires |cands| == |d| && cands != []
    ensures exists k :: FirstLeast(d, k) && ClosestFrom(cands[1..], d[1..], cands[0], d[0]) == (cands[k], d[k])
  {
    var r := ClosestFrom(cands[1..], d[1..], cands[0], d[0]);
    ClosestFromSpec(cands[1..], d[1..], cands[0], d[0]);
    assert forall j :: 0 <= j < |d| - 1 ==> d[1..][j] == d[j + 1];
    if exists j :: 0 <= j < |d| - 1 && d[1..][j] < d[0] {
      var k :| FirstLeast(d[1..], k) && r == (cands[1..][k], d[1..][k]);
      assert FirstLeast(d, k + 1);
    } else {
      assert FirstLeast(d, 0);
    }
  }

  /** At most one position holds the first least value. */
  lemma FirstLeastUnique(d: seq<int>, k: int, m: int)
    requires FirstLeast(d, k) && FirstLeast(d, m)
    ensures k == m
  {
    var dk, dm := d[k], d[m];
    if k < m {
      assert false;
    } else if m < k {
      assert false;
    }
  }

  /** When some candidate is within the sentinel, the code's search and the
      intended one return the same node at the same distance. */
  lemma FirstCandidateAgrees(cands: seq<Node>, d: seq<int>, q: nat)
    requires |cands| == |d| && q < |d| && d[q] < Sentinel
    ensures ClosestNode(cands, d) == FirstCandidate(cands, d)
  {
    var r := ClosestNode(cands, d);
    assert d[q] < Sentinel;
    assert exists j :: 0 <= j < |d| && d[j] < Sentinel;
    var k :| FirstLeast(d, k) && r == (cands[k], d[k]);
    var m :| FirstLeast(d, m) && FirstCandidate(cands, d) == (cands[m], d[m]);
    FirstLeastUnique(d, k, m);
  }

  /** Under `Near`, every search of a bridge has a candidate within the
      sentinel, so the code's searches are the intended ones. */
  lemma NearSearchesAgree(g: Graph, t: Frame, distance: (Geoid, Geoid) -> int, from: Node, cands: seq<Node>)
    requires Covers(t, g) && Near(g, t, distance)
    requires from in NodeSet(g) && cands != [] && forall x :: x in cands ==> x in NodeSet(g)
    ensures Rows(t, cands) && 0 <= from < |t.geoid|
    ensures ClosestNode(cands, Dists(t, distance, from, cands)) == FirstCandidate(cands, Dists(t, distance, from, cands))
  {
    GraphRows(t, g, cands);
    assert cands[0] in cands;
    FirstCandidateAgrees(cands, Dists(t, distance, from, cands), 0);
  }
}
