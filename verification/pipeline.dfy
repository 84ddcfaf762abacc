/** `solve_territory_balancing` up to the solver, with the graph
    construction of `TerritoryBalancingProblem.__post_init__`: rank and sort
    the rows, build the edge list, normalise the demands, assemble the graph
    and connect it. */
module Pipeline {
  import opened Wrappers
  import opened Sorting
  import opened Grid
  import opened Similarity
  import opened Table
  import opened EdgeBuilder
  import opened Demand
  import opened Graphs
  import opened Repair
  import opened Assembly

  /** The state `__post_init__` leaves: the table in node order, its
      normalised demands, and the graph handed to the partitioner. */
  datatype Problem = Problem(cells: seq<Cell>, demand: seq<real>, graph: Graph)

  /** `df.demand.values`. */
  function DemandColumn(cells: seq<Cell>): (d: seq<real>)
    ensures |d| == |cells| && forall k :: 0 <= k < |cells| ==> d[k] == cells[k].demand
  {
    seq(|cells|, k requires 0 <= k < |cells| => cells[k].demand)
  }

  /** The geoid and score columns, read by position through `df.loc`. */
  function FrameOf(cells: seq<Cell>): (t: Frame)
    ensures |t.geoid| == |cells| && |t.score| == |cells|
    ensures forall k :: 0 <= k < |cells| ==> t.geoid[k] == cells[k].geoid && t.score[k] == cells[k].score
  {
    Frame(seq(|cells|, k requires 0 <= k < |cells| => cells[k].geoid),
          seq(|cells|, k requires 0 <= k < |cells| => cells[k].score))
  }

  /** The grid distance between any two geoids of the table is below the
      sentinel of the nearest-node searches. */
  ghost predicate WithinReach(distance: (Geoid, Geoid) -> int, rows: seq<Row>) {
    forall a, b :: 0 <= a < |rows| && 0 <= b < |rows| ==> distance(rows[a].geoid, rows[b].geoid) < Sentinel
  }

  /** Every edge joins two rows, the lower position first, weighted by the
      similarity of their scores. */
  ghost predicate SimilarityEdges(g: Graph, t: Frame, exp: real -> real)
    requires ValidExp(exp)
  {
    forall k :: k in g.edges ==>
      0 <= k.0 < k.1 < |t.score| && g.edges[k] == Weight(exp, t.score[k.0], t.score[k.1])
  }

  /** The ranked and sorted table. */
  function Ranked(rows: seq<Row>): (cells: seq<Cell>)
    ensures |cells| == |rows|
  {
    SortByNode(DenseRank(rows))
  }

  /** A cell carries some row's values. */
  ghost predicate FromRow(c: Cell, rows: seq<Row>) {
    exists k :: 0 <= k < |rows| && c.geoid == rows[k].geoid && c.demand == rows[k].demand && c.score == rows[k].score
  }

  /** Ranking and sorting keeps every cell a row. */
  lemma RankedFromRows(rows: seq<Row>)
    ensures forall j :: 0 <= j < |rows| ==> FromRow(Ranked(rows)[j], rows)
  {
    var ranked := DenseRank(rows);
    var cells := Ranked(rows);
    forall j | 0 <= j < |rows|
      ensures FromRow(cells[j], rows)
    {
      assert cells[j] in multiset(ranked);
      var k :| 0 <= k < |ranked| && ranked[k] == cells[j];
    }
  }

  /** The sort key that compares geoids. */
  function GeoidKey(c: Cell): (int, int) {
    (c.geoid, 0)
  }

  /** The ranked table repeats a geoid exactly when the rows do. */
  lemma RankedDistinct(rows: seq<Row>)
    ensures DistinctCellGeoids(Ranked(rows)) <==> DistinctGeoids(rows)
  {
    var ranked := DenseRank(rows);
    var cells := Ranked(rows);
    if DistinctGeoids(rows) {
      assert DistinctKeys(ranked, GeoidKey);
      PermutationDistinctKeys(ranked, cells, GeoidKey);
    }
    if DistinctCellGeoids(cells) {
      assert DistinctKeys(cells, GeoidKey);
      PermutationDistinctKeys(cells, ranked, GeoidKey);
      forall a, b | 0 <= a < b < |rows|
        ensures rows[a].geoid != rows[b].geoid
      {
        assert GeoidKey(ranked[a]) != GeoidKey(ranked[b]);
      }
    }
  }

  /** Without repeated geoids, the ranked table has node `k` at position `k`
      and its geoids ascend. */
  lemma RankedOrder(rows: seq<Row>)
    requires DistinctGeoids(rows)
    ensures forall k :: 0 <= k < |rows| ==> Ranked(rows)[k].node == k
    ensures forall a, b :: 0 <= a < b < |rows| ==> Ranked(rows)[a].geoid < Ranked(rows)[b].geoid
  {
    SortedRankedPositions(rows);
    SortedRankedGeoidsAscend(rows);
  }

  /** On a table in node order with ascending geoids, every built edge joins
      two positions, the lower first, weighted by their scores. */
  lemma BuiltEdgesInRange(cells: seq<Cell>, kring: Geoid -> set<Geoid>, exp: real -> real)
    requires ValidExp(exp)
    requires forall k :: 0 <= k < |cells| ==> cells[k].node == k
    requires forall a, b :: 0 <= a < b < |cells| ==> cells[a].geoid < cells[b].geoid
    requires ComputeWeightedEdgesIndex(cells, kring, exp).Success?
    ensures var es := ComputeWeightedEdgesIndex(cells, kring, exp).value;
            forall n :: 0 <= n < |es| ==>
              && 0 <= es[n].i < es[n].j < |cells|
              && es[n].weight == Weight(exp, cells[es[n].i].score, cells[es[n].j].score)
  {
    var es := ComputeWeightedEdgesIndex(cells, kring, exp).value;
    forall n | 0 <= n < |es|
      ensures 0 <= es[n].i < es[n].j < |cells|
      ensures es[n].weight == Weight(exp, cells[es[n].i].score, cells[es[n].j].score)
    {
      BuiltEdgeSound(cells, kring, exp, es[n]);
      var a, b :| 0 <= a < |cells| && 0 <= b < |cells| &&
                  cells[b].geoid in kring(cells[a].geoid) && cells[a].geoid < cells[b].geoid &&
                  es[n] == EdgeTo(cells[a], cells[b], exp);
      if b <= a {
        assert false;
      }
    }
  }

  /** Edges that each join two rows, lower first, with the similarity weight
      give a graph whose nodes are the rows and whose edges all do so. */
  lemma AssembledSimilar(w: seq<int>, es: seq<Edge>, t: Frame, exp: real -> real)
    requires ValidExp(exp) && |t.score| == |w|
    requires forall n :: 0 <= n < |es| ==>
               && 0 <= es[n].i < es[n].j < |w|
               && es[n].weight == Weight(exp, t.score[es[n].i], t.score[es[n].j])
    ensures Assemble(w, es).nodes == Range(|w|)
    ensures SimilarityEdges(Assemble(w, es), t, exp)
  {
    AssembleNodes(w, es);
    var g := Assemble(w, es);
    forall k | k in g.edges
      ensures 0 <= k.0 < k.1 < |t.score| && g.edges[k] == Weight(exp, t.score[k.0], t.score[k.1])
    {
      AssembleKeys(w, es, k);
      AssembledKey(w, es, t, exp, k);
    }
  }

  /** A key some listed edge uses joins two rows, lower first, and is stored
      with the similarity weight. */
  lemma AssembledKey(w: seq<int>, es: seq<Edge>, t: Frame, exp: real -> real, k: (Node, Node))
    requires ValidExp(exp) && |t.score| == |w|
    requires forall n :: 0 <= n < |es| ==>
               && 0 <= es[n].i < es[n].j < |w|
               && es[n].weight == Weight(exp, t.score[es[n].i], t.score[es[n].j])
    requires Mentions(es, k)
    ensures 0 <= k.0 < k.1 < |t.score|
    ensures k in Assemble(w, es).edges && Assemble(w, es).edges[k] == Weight(exp, t.score[k.0], t.score[k.1])
  {
    var e :| e in es && Key(e.i, e.j) == k;
    var n :| 0 <= n < |es| && es[n] == e;
    assert k == (e.i, e.j);
    var f := (k: (Node, Node)) => KeyWeight(t, exp, k);
    forall m | 0 <= m < |es|
      ensures es[m].weight == f(Key(es[m].i, es[m].j))
    {
      assert Key(es[m].i, es[m].j) == (es[m].i, es[m].j);
    }
    AddEdgesStoredBy(Nodes(w), es, f, k);
  }

  /** A repair keeps a graph of similarity edges one. */
  lemma RepairedSimilar(g0: Graph, g: Graph, t: Frame, exp: real -> real)
    requires ValidExp(exp) && Repaired(g0, g, t, exp) && SimilarityEdges(g0, t, exp)
    requires forall u :: u in NodeSet(g0) ==> 0 <= u < |t.score|
    ensures SimilarityEdges(g, t, exp)
  {
  }

  /** The repair's preconditions hold of the assembled graph. */
  lemma RepairReady(rows: seq<Row>, cells: seq<Cell>, g0: Graph, distance: (Geoid, Geoid) -> int)
    requires |cells| == |rows| > 0
    requires forall j :: 0 <= j < |cells| ==> FromRow(cells[j], rows)
    requires WithinReach(distance, rows)
    requires g0.nodes == Range(|rows|)
    ensures Covers(FrameOf(cells), g0)
    ensures Near(g0, FrameOf(cells), distance)
  {
    var t := FrameOf(cells);
    forall u | u in NodeSet(g0)
      ensures 0 <= u < |t.geoid|
    {
      var k :| 0 <= k < |g0.nodes| && g0.nodes[k] == u;
    }
    forall u, v | u in NodeSet(g0) && v in NodeSet(g0) && 0 <= u < |t.geoid| && 0 <= v < |t.geoid|
      ensures Dist(t, distance, u, v) < Sentinel
    {
      assert FromRow(cells[u], rows) && FromRow(cells[v], rows);
      var a :| 0 <= a < |rows| && cells[u].geoid == rows[a].geoid && cells[u].demand == rows[a].demand && cells[u].score == rows[a].score;
      var b :| 0 <= b < |rows| && cells[v].geoid == rows[b].geoid && cells[v].demand == rows[b].demand && cells[v].score == rows[b].score;
    }
  }

  /** The table in node order: node `k` at position `k`, geoids ascending,
      every cell one of the rows. */
  ghost predicate InOrder(rows: seq<Row>, cells: seq<Cell>) {
    && |cells| == |rows|
    && (forall k :: 0 <= k < |cells| ==> cells[k].node == k)
    && (forall a, b :: 0 <= a < b < |cells| ==> cells[a].geoid < cells[b].geoid)
    && (forall k :: 0 <= k < |cells| ==> FromRow(cells[k], rows))
  }

  /** Every listed edge joins two positions of the table, the lower first,
      weighted by the similarity of their scores. */
  ghost predicate EdgesBetween(cells: seq<Cell>, es: seq<Edge>, exp: real -> real)
    requires ValidExp(exp)
  {
    forall n :: 0 <= n < |es| ==>
      && 0 <= es[n].i < es[n].j < |cells|
      && es[n].weight == Weight(exp, cells[es[n].i].score, cells[es[n].j].score)
  }

  /** Every pair of ring neighbours, in geoid order, is listed. */
  ghost predicate RingListed(cells: seq<Cell>, kring: Geoid -> set<Geoid>, es: seq<Edge>) {
    forall a, b :: 0 <= a < b < |cells| && cells[b].geoid in kring(cells[a].geoid) ==> Mentions(es, (a, b))
  }

  /** What a successful construction promises about the rows it was given. */
  ghost predicate ProblemReady(rows: seq<Row>, kring: Geoid -> set<Geoid>, exp: real -> real, p: Problem)
    requires ValidExp(exp)
  {
    var n := |rows|;
    && InOrder(rows, p.cells) && |p.demand| == n
    && Normalise(DemandColumn(p.cells)) == Success(p.demand)
    && p.graph.nodes == Range(n)
    && (forall k :: 0 <= k < n ==> k in p.graph.weight && p.graph.weight[k] == Trunc(p.demand[k]))
    && Connected(p.graph)
    && SimilarityEdges(p.graph, FrameOf(p.cells), exp)
    && (forall a, b :: 0 <= a < b < n && p.cells[b].geoid in kring(p.cells[a].geoid) ==> (a, b) in p.graph.edges)
  }

  /** Without repeated geoids, ranking and sorting puts the table in node
      order. */
  lemma RankedInOrder(rows: seq<Row>)
    requires DistinctGeoids(rows)
    ensures InOrder(rows, Ranked(rows))
  {
    RankedFromRows(rows);
    RankedOrder(rows);
  }

  /** On a table in node order, the built list holds every pair of ring
      neighbours. */
  lemma BuiltRingListed(cells: seq<Cell>, kring: Geoid -> set<Geoid>, exp: real -> real)
    requires ValidExp(exp)
    requires forall k :: 0 <= k < |cells| ==> cells[k].node == k
    requires forall a, b :: 0 <= a < b < |cells| ==> cells[a].geoid < cells[b].geoid
    requires ComputeWeightedEdgesIndex(cells, kring, exp).Success?
    ensures RingListed(cells, kring, ComputeWeightedEdgesIndex(cells, kring, exp).value)
  {
    var es := ComputeWeightedEdgesIndex(cells, kring, exp).value;
    forall a, b | 0 <= a < b < |cells| && cells[b].geoid in kring(cells[a].geoid)
      ensures Mentions(es, (a, b))
    {
      BuiltEdgeComplete(cells, kring, exp, a, b);
      var e := EdgeTo(cells[a], cells[b], exp);
      assert Key(e.i, e.j) == (a, b);
    }
  }

  /** The ranked table of distinct geoids is in node order, a second sort
      leaves it as it is, and its built edges join rows by similarity and
      list every pair of ring neighbours. */
  lemma RankedReady(rows: seq<Row>, kring: Geoid -> set<Geoid>, exp: real -> real)
    requires ValidExp(exp) && DistinctGeoids(rows)
    requires ComputeWeightedEdgesIndex(Ranked(rows), kring, exp).Success?
    ensures InOrder(rows, Ranked(rows)) && SortByNode(Ranked(rows)) == Ranked(rows)
    ensures EdgesBetween(Ranked(rows), ComputeWeightedEdgesIndex(Ranked(rows), kring, exp).value, exp)
    ensures RingListed(Ranked(rows), kring, ComputeWeightedEdgesIndex(Ranked(rows), kring, exp).value)
  {
    var cells := Ranked(rows);
    RankedInOrder(rows);
    BuiltEdgesInRange(cells, kring, exp);
    BuiltRingListed(cells, kring, exp);
    ResortIsIdentity(cells);
  }

  /** The repair can run on the assembled graph of a table in node order. */
  lemma ConnectReady(rows: seq<Row>, cells: seq<Cell>, es: seq<Edge>, w: seq<int>,
                     distance: (Geoid, Geoid) -> int, exp: real -> real)
    requires ValidExp(exp) && |rows| > 0 && |w| == |rows|
    requires InOrder(rows, cells) && EdgesBetween(cells, es, exp)
    requires WithinReach(distance, rows)
    ensures Assemble(w, es).nodes == Range(|rows|)
    ensures SimilarityEdges(Assemble(w, es), FrameOf(cells), exp)
    ensures Covers(FrameOf(cells), Assemble(w, es))
    ensures Near(Assemble(w, es), FrameOf(cells), distance)
  {
    AssembledSimilar(w, es, FrameOf(cells), exp);
    RepairReady(rows, cells, Assemble(w, es), distance);
  }

  /** A ring pair listed in the edges is joined after any repair. */
  lemma RingJoined(cells: seq<Cell>, kring: Geoid -> set<Geoid>, es: seq<Edge>, w: seq<int>,
                   graph: Graph, exp: real -> real)
    requires ValidExp(exp) && RingListed(cells, kring, es)
    requires Repaired(Assemble(w, es), graph, FrameOf(cells), exp)
    ensures forall a, b :: 0 <= a < b < |cells| && cells[b].geoid in kring(cells[a].geoid) ==> (a, b) in graph.edges
  {
    forall a, b | 0 <= a < b < |cells| && cells[b].geoid in kring(cells[a].geoid)
      ensures (a, b) in graph.edges
    {
      AssembleKeys(w, es, (a, b));
    }
  }

  /** What the construction promises, from the results of its steps. */
  lemma Ready(rows: seq<Row>, cells: seq<Cell>, kring: Geoid -> set<Geoid>, exp: real -> real,
              es: seq<Edge>, demand: seq<real>, graph: Graph)
    requires ValidExp(exp) && InOrder(rows, cells) && RingListed(cells, kring, es)
    requires Normalise(DemandColumn(cells)) == Success(demand)
    requires Assemble(NodeWeights(demand), es).nodes == Range(|rows|)
    requires SimilarityEdges(Assemble(NodeWeights(demand), es), FrameOf(cells), exp)
    requires Connected(graph) && Repaired(Assemble(NodeWeights(demand), es), graph, FrameOf(cells), exp)
    ensures ProblemReady(rows, kring, exp, Problem(cells, demand, graph))
  {
    var g0 := Assemble(NodeWeights(demand), es);
    RepairedSimilar(g0, graph, FrameOf(cells), exp);
    RingJoined(cells, kring, es, NodeWeights(demand), graph, exp);
  }

  /** The assembly and repair of `__post_init__` on a table in node order
      with its built edges: the graph is connected, keeps every built edge,
      and weighs each node by its truncated demand. */
  method AssembleAndConnect(rows: seq<Row>, table: seq<Cell>, es: seq<Edge>, demand: seq<real>,
                            kring: Geoid -> set<Geoid>, distance: (Geoid, Geoid) -> int,
                            exp: real -> real, choice: set<Node> -> Node)
    returns (p: Problem)
    requires ValidExp(exp) && Picks(choice) && |rows| >= 2 && WithinReach(distance, rows)
    requires InOrder(rows, table) && EdgesBetween(table, es, exp) && RingListed(table, kring, es)
    requires Normalise(DemandColumn(table)) == Success(demand)
    ensures ProblemReady(rows, kring, exp, p)
    ensures p.cells == table && p.demand == demand
  {
    var w := NodeWeights(demand);
    ConnectReady(rows, table, es, w, distance, exp);
    var g0 := Assemble(w, es);
    var connected, passes := ConnectComponents(g0, FrameOf(table), distance, exp, choice);
    if connected.Failure? {
      assert false;
    }
    var graph := connected.value;
    Ready(rows, table, kring, exp, es, demand, graph);
    return Problem(table, demand, graph);
  }

  /** With mutual library rings, any two ring-adjacent cells of a
      constructed problem are distinct and joined, whichever of them has the
      larger geoid. */
  lemma NeighboursJoined(rows: seq<Row>, tag: string, lib: Libraries, exp: real -> real, p: Problem, a: nat, b: nat)
    requires ValidExp(exp) && (tag == "h3" || tag == "quadbin")
    requires SymmetricRing(if tag == "h3" then lib.h3KRing else lib.quadbinKRing)
    requires ProblemReady(rows, GetFunctions(tag, lib).value.kring, exp, p)
    requires a < |rows| && b < |rows|
    requires p.cells[b].geoid in GetFunctions(tag, lib).value.kring(p.cells[a].geoid)
    ensures a != b && Key(a, b) in p.graph.edges
  {
    var ring := if tag == "h3" then lib.h3KRing else lib.quadbinKRing;
    var kring := GetFunctions(tag, lib).value.kring;
    RingWithoutCentreSymmetric(ring);
    assert kring == RingWithoutCentre(ring);
    if b < a {
      assert p.cells[a].geoid in kring(p.cells[b].geoid);
    }
  }

  /** The construction once the grid functions are chosen: repeated geoids
      raise when the edge list is built, then a failed `int(nparts)` raises
      when the problem is constructed, then fewer than two rows raise in
      `__post_init__`; otherwise the graph is built and connected. `nparts`
      is the outcome of `int(input['nparts'])`. The table is sorted a second
      time by `__post_init__`, which changes nothing. */
  method BuildWith(rows: seq<Row>, adapter: Adapter, nparts: Result<int>, exp: real -> real,
                   choice: set<Node> -> Node)
    returns (r: Result<Problem>)
    requires ValidExp(exp) && Picks(choice)
    requires DistinctGeoids(rows) && nparts.Success? && |rows| >= 2 ==> WithinReach(adapter.distance, rows)
    ensures r.Success? <==> DistinctGeoids(rows) && nparts.Success? && |rows| >= 2
    ensures !DistinctGeoids(rows) ==> r == Failure(DuplicateGeoid)
    ensures DistinctGeoids(rows) && nparts.Failure? ==> r == Failure(nparts.error)
    ensures DistinctGeoids(rows) && nparts.Success? && |rows| < 2 ==> r == Failure(UndefinedSpread)
    ensures r.Success? ==> ProblemReady(rows, adapter.kring, exp, r.value)
  {
    var cells := Ranked(rows);
    RankedDistinct(rows);
    var es :- ComputeWeightedEdgesIndex(cells, adapter.kring, exp);
    if nparts.Failure? {
      return Failure(nparts.error);
    }
    RankedReady(rows, adapter.kring, exp);
    var table := SortByNode(cells);
    var demand :- Normalise(DemandColumn(table));
    var p := AssembleAndConnect(rows, table, es, demand, adapter.kring, adapter.distance, exp, choice);
    return Success(p);
  }

  /** `solve_territory_balancing` up to the solver: unsupported grid types,
      repeated geoids, a failed `int(nparts)` and fewer than two rows raise,
      in that order; otherwise the graph is built and connected. */
  method BuildProblem(rows: seq<Row>, tag: string, lib: Libraries, nparts: Result<int>,
                      exp: real -> real, choice: set<Node> -> Node)
    returns (r: Result<Problem>)
    requires ValidExp(exp) && Picks(choice)
    requires GetFunctions(tag, lib).Success? && DistinctGeoids(rows) && nparts.Success? && |rows| >= 2 ==>
               WithinReach(GetFunctions(tag, lib).value.distance, rows)
    ensures r.Success? <==> (tag == "h3" || tag == "quadbin") && DistinctGeoids(rows) && nparts.Success? && |rows| >= 2
    ensures tag != "h3" && tag != "quadbin" ==> r == Failure(UnsupportedGridType)
    ensures (tag == "h3" || tag == "quadbin") && !DistinctGeoids(rows) ==> r == Failure(DuplicateGeoid)
    ensures (tag == "h3" || tag == "quadbin") && DistinctGeoids(rows) && nparts.Failure? ==> r == Failure(nparts.error)
    ensures (tag == "h3" || tag == "quadbin") && DistinctGeoids(rows) && nparts.Success? && |rows| < 2 ==>
              r == Failure(UndefinedSpread)
    ensures r.Success? ==> ProblemReady(rows, GetFunctions(tag, lib).value.kring, exp, r.value)
  {
    var adapter :- GetFunctions(tag, lib);
    r := BuildWith(rows, adapter, nparts, exp, choice);
  }
}
