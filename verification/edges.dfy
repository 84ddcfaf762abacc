/** `compute_weighted_edges_index`: the weighted adjacency list of the cell
    table, one edge per pair of table cells that are ring neighbours, each
    unordered pair kept once through the geoid order `a_id < b_id`, sorted by
    `(i, j)`. */
module EdgeBuilder {
  import opened Wrappers
  import opened Grid
  import opened Sorting
  import opened Similarity
  import opened Table

  /** A row of the edge list: node ids `i`, `j` and the similarity weight. */
  datatype Edge = Edge(i: int, j: int, weight: int)

  function EdgeKey(e: Edge): (int, int) {
    (e.i, e.j)
  }

  /** The edge from cell `a` to cell `b`, weighted by their scores. */
  function EdgeTo(a: Cell, b: Cell, exp: real -> real): (e: Edge)
    requires ValidExp(exp)
    ensures e.i == a.node && e.j == b.node
    ensures e.weight == Weight(exp, a.score, b.score)
  {
    Edge(a.node, b.node, Weight(exp, a.score, b.score))
  }

  /** Each key of the map is the geoid of the cell it maps to. */
  ghost predicate KeyedByGeoid(m: map<Geoid, Cell>) {
    forall g :: g in m ==> m[g].geoid == g
  }

  /** `set_index('geoid')[['node', 'score']].to_dict('index')` for a table
      without repeated geoids: the cell of each geoid. */
  function GridMap(cells: seq<Cell>): (m: map<Geoid, Cell>)
    requires DistinctCellGeoids(cells)
    ensures KeyedByGeoid(m)
    ensures forall g :: g in m <==> exists k :: 0 <= k < |cells| && cells[k].geoid == g
    ensures forall k :: 0 <= k < |cells| ==> cells[k].geoid in m && m[cells[k].geoid] == cells[k]
  {
    if |cells| == 0 then map[]
    else
      var last := cells[|cells| - 1];
      var m := GridMap(cells[..|cells| - 1]);
      assert forall k :: 0 <= k < |cells| - 1 ==> cells[..|cells| - 1][k] == cells[k];
      m[last.geoid := last]
  }

  /** Whether the ring cell `b` of cell `a` yields an edge: it is in the table
      and follows `a` in geoid order. */
  predicate Kept(a: Cell, b: Geoid, m: map<Geoid, Cell>) {
    b in m && a.geoid < b
  }

  /** The edges of cell `a` towards the ring cells enumerated by `ring`. */
  function RowEdges(a: Cell, ring: seq<Geoid>, m: map<Geoid, Cell>, exp: real -> real): (es: seq<Edge>)
    requires ValidExp(exp)
    ensures forall e :: e in es ==> e.i == a.node && 1000 <= e.weight <= 2000
  {
    if ring == [] then []
    else
      var here := if Kept(a, ring[0], m) then [EdgeTo(a, m[ring[0]], exp)] else [];
      here + RowEdges(a, ring[1..], m, exp)
  }

  lemma {:induction false} RowEdgesSound(a: Cell, ring: seq<Geoid>, m: map<Geoid, Cell>, exp: real -> real, e: Edge)
    requires ValidExp(exp) && e in RowEdges(a, ring, m, exp)
    ensures exists b :: b in ring && Kept(a, b, m) && e == EdgeTo(a, m[b], exp)
  {
    if !(Kept(a, ring[0], m) && e == EdgeTo(a, m[ring[0]], exp)) {
      RowEdgesSound(a, ring[1..], m, exp, e);
      var b :| b in ring[1..] && Kept(a, b, m) && e == EdgeTo(a, m[b], exp);
      assert b in ring;
    }
  }

  lemma {:induction false} RowEdgesComplete(a: Cell, ring: seq<Geoid>, m: map<Geoid, Cell>, exp: real -> real, b: Geoid)
    requires ValidExp(exp) && b in ring && Kept(a, b, m)
    ensures EdgeTo(a, m[b], exp) in RowEdges(a, ring, m, exp)
  {
    if b != ring[0] {
      RowEdgesComplete(a, ring[1..], m, exp, b);
    }
  }

  /** The list comprehension of the builder, over the table in row order and
      over each ring in ascending geoid order. */
  function Candidates(cells: seq<Cell>, m: map<Geoid, Cell>, kring: Geoid -> set<Geoid>, exp: real -> real): (es: seq<Edge>)
    requires ValidExp(exp)
    ensures forall e :: e in es ==> 1000 <= e.weight <= 2000
  {
    if cells == [] then []
    else RowEdges(cells[0], SetToSeq(kring(cells[0].geoid)), m, exp) + Candidates(cells[1..], m, kring, exp)
  }

  /** A candidate comes from a table cell and a kept cell of its ring. */
  ghost predicate FromRing(cells: seq<Cell>, m: map<Geoid, Cell>, kring: Geoid -> set<Geoid>, exp: real -> real, e: Edge)
    requires ValidExp(exp)
  {
    exists k, b :: 0 <= k < |cells| && b in kring(cells[k].geoid) && Kept(cells[k], b, m) && e == EdgeTo(cells[k], m[b], exp)
  }

  lemma {:induction false} CandidatesSound(cells: seq<Cell>, m: map<Geoid, Cell>, kring: Geoid -> set<Geoid>, exp: real -> real, e: Edge)
    requires ValidExp(exp) && e in Candidates(cells, m, kring, exp)
    ensures FromRing(cells, m, kring, exp, e)
  {
    var ring := SetToSeq(kring(cells[0].geoid));
    if e in RowEdges(cells[0], ring, m, exp) {
      RowEdgesSound(cells[0], ring, m, exp, e);
      var b :| b in ring && Kept(cells[0], b, m) && e == EdgeTo(cells[0], m[b], exp);
      assert b in kring(cells[0].geoid);
    } else {
      CandidatesSound(cells[1..], m, kring, exp, e);
      var k, b :| 0 <= k < |cells[1..]| && b in kring(cells[1..][k].geoid) && Kept(cells[1..][k], b, m) &&
                  e == EdgeTo(cells[1..][k], m[b], exp);
      assert cells[1..][k] == cells[k + 1];
    }
  }

  lemma {:induction false} CandidatesComplete(cells: seq<Cell>, m: map<Geoid, Cell>, kring: Geoid -> set<Geoid>, exp: real -> real, k: nat, b: Geoid)
    requires ValidExp(exp) && k < |cells| && b in kring(cells[k].geoid) && Kept(cells[k], b, m)
    ensures EdgeTo(cells[k], m[b], exp) in Candidates(cells, m, kring, exp)
  {
    if k == 0 {
      RowEdgesComplete(cells[0], SetToSeq(kring(cells[0].geoid)), m, exp, b);
    } else {
      assert cells[1..][k - 1] == cells[k];
      CandidatesComplete(cells[1..], m, kring, exp, k - 1, b);
    }
  }

  /** `compute_weighted_edges_index(df, kring)`: raises on a table that repeats a
      geoid (`to_dict('index')` refuses a non-unique index); otherwise the
      candidate edges sorted by `(i, j)`, each weighing between 1000 and 2000. */
  function ComputeWeightedEdgesIndex(cells: seq<Cell>, kring: Geoid -> set<Geoid>, exp: real -> real): (r: Result<seq<Edge>>)
    requires ValidExp(exp)
    ensures r.Failure? <==> !DistinctCellGeoids(cells)
    ensures r.Failure? ==> r.error == DuplicateGeoid
    ensures r.Success? ==> SortedBy(r.value, EdgeKey)
    ensures r.Success? ==> multiset(r.value) == multiset(Candidates(cells, GridMap(cells), kring, exp))
    ensures r.Success? ==> forall e :: e in r.value ==> 1000 <= e.weight <= 2000
  {
    if !DistinctCellGeoids(cells) then Failure(DuplicateGeoid)
    else
      var es := Candidates(cells, GridMap(cells), kring, exp);
      var sorted := SortBy(es, EdgeKey);
      assert forall e :: e in sorted ==> e in es by {
        forall e | e in sorted ensures e in es {
          assert e in multiset(sorted);
        }
      }
      Success(sorted)
  }

  /** Every built edge joins a table cell `a` to a table cell `b` of its ring
      that follows it in geoid order, with the weight of their scores. */
  lemma BuiltEdgeSound(cells: seq<Cell>, kring: Geoid -> set<Geoid>, exp: real -> real, e: Edge)
    requires ValidExp(exp)
    requires ComputeWeightedEdgesIndex(cells, kring, exp).Success?
    requires e in ComputeWeightedEdgesIndex(cells, kring, exp).value
    ensures exists a, b :: 0 <= a < |cells| && 0 <= b < |cells| &&
              cells[b].geoid in kring(cells[a].geoid) && cells[a].geoid < cells[b].geoid &&
              e == EdgeTo(cells[a], cells[b], exp)
  {
    var m := GridMap(cells);
    assert e in multiset(ComputeWeightedEdgesIndex(cells, kring, exp).value);
    CandidatesSound(cells, m, kring, exp, e);
    var k, g :| 0 <= k < |cells| && g in kring(cells[k].geoid) && Kept(cells[k], g, m) && e == EdgeTo(cells[k], m[g], exp);
    var b :| 0 <= b < |cells| && cells[b].geoid == g;
    assert m[g] == cells[b];
  }

  /** Every pair of table cells `a`, `b` with `b` in the ring of `a` and
      `a_id < b_id` gives a built edge. */
  lemma BuiltEdgeComplete(cells: seq<Cell>, kring: Geoid -> set<Geoid>, exp: real -> real, a: nat, b: nat)
    requires ValidExp(exp)
    requires ComputeWeightedEdgesIndex(cells, kring, exp).Success?
    requires a < |cells| && b < |cells|
    requires cells[b].geoid in kring(cells[a].geoid) && cells[a].geoid < cells[b].geoid
    ensures EdgeTo(cells[a], cells[b], exp) in ComputeWeightedEdgesIndex(cells, kring, exp).value
  {
    var m := GridMap(cells);
    CandidatesComplete(cells, m, kring, exp, a, cells[b].geoid);
    var e := EdgeTo(cells[a], cells[b], exp);
    assert e in multiset(Candidates(cells, m, kring, exp));
  }

  /** With a symmetric ring, any two ring-adjacent table cells are joined by an
      edge, directed from the smaller geoid to the larger. */
  lemma AdjacentCellsJoined(cells: seq<Cell>, kring: Geoid -> set<Geoid>, exp: real -> real, a: nat, b: nat)
    requires ValidExp(exp) && SymmetricRing(kring)
    requires ComputeWeightedEdgesIndex(cells, kring, exp).Success?
    requires a < |cells| && b < |cells| && cells[b].geoid in kring(cells[a].geoid)
    ensures cells[a].geoid < cells[b].geoid ==> EdgeTo(cells[a], cells[b], exp) in ComputeWeightedEdgesIndex(cells, kring, exp).value
    ensures cells[b].geoid < cells[a].geoid ==> EdgeTo(cells[b], cells[a], exp) in ComputeWeightedEdgesIndex(cells, kring, exp).value
  {
    if cells[a].geoid < cells[b].geoid {
      BuiltEdgeComplete(cells, kring, exp, a, b);
    } else if cells[b].geoid < cells[a].geoid {
      assert cells[a].geoid in kring(cells[b].geoid);
      BuiltEdgeComplete(cells, kring, exp, b, a);
    }
  }

  /** When node order follows geoid order (as the dense rank makes it), every
      built edge has `i < j`: no self-loops, and each edge points up. */
  lemma BuiltEdgesAscend(cells: seq<Cell>, kring: Geoid -> set<Geoid>, exp: real -> real)
    requires ValidExp(exp)
    requires ComputeWeightedEdgesIndex(cells, kring, exp).Success?
    requires forall p, q :: 0 <= p < |cells| && 0 <= q < |cells| && cells[p].geoid < cells[q].geoid ==>
               cells[p].node < cells[q].node
    ensures forall e :: e in ComputeWeightedEdgesIndex(cells, kring, exp).value ==> e.i < e.j
  {
    forall e | e in ComputeWeightedEdgesIndex(cells, kring, exp).value
      ensures e.i < e.j
    {
      BuiltEdgeSound(cells, kring, exp, e);
    }
  }

  /** No two map entries share a node id. */
  ghost predicate NodeInjective(m: map<Geoid, Cell>) {
    forall x, y :: x in m && y in m && x != y ==> m[x].node != m[y].node
  }

  lemma {:induction false} RowEdgesDistinctKeys(a: Cell, ring: seq<Geoid>, m: map<Geoid, Cell>, exp: real -> real)
    requires ValidExp(exp) && StrictlyIncreasing(ring) && NodeInjective(m)
    ensures DistinctKeys(RowEdges(a, ring, m, exp), EdgeKey)
  {
    if ring != [] {
      var here := if Kept(a, ring[0], m) then [EdgeTo(a, m[ring[0]], exp)] else [];
      var rest := RowEdges(a, ring[1..], m, exp);
      RowEdgesDistinctKeys(a, ring[1..], m, exp);
      forall x, y | x in here && y in rest
        ensures EdgeKey(x) != EdgeKey(y)
      {
        RowEdgesSound(a, ring[1..], m, exp, y);
        var b :| b in ring[1..] && Kept(a, b, m) && y == EdgeTo(a, m[b], exp);
        var k :| 0 <= k < |ring[1..]| && ring[1..][k] == b;
        assert ring[k + 1] == b;
      }
      DistinctKeysConcat(here, rest, EdgeKey);
    }
  }

  lemma {:induction false} CandidatesDistinctKeys(cells: seq<Cell>, m: map<Geoid, Cell>, kring: Geoid -> set<Geoid>, exp: real -> real)
    requires ValidExp(exp) && NodeInjective(m)
    requires forall p, q :: 0 <= p < q < |cells| ==> cells[p].node != cells[q].node
    ensures DistinctKeys(Candidates(cells, m, kring, exp), EdgeKey)
  {
    if cells != [] {
      var here := RowEdges(cells[0], SetToSeq(kring(cells[0].geoid)), m, exp);
      var rest := Candidates(cells[1..], m, kring, exp);
      RowEdgesDistinctKeys(cells[0], SetToSeq(kring(cells[0].geoid)), m, exp);
      assert forall p, q :: 0 <= p < q < |cells[1..]| ==> cells[1..][p] == cells[p + 1] && cells[1..][q] == cells[q + 1];
      CandidatesDistinctKeys(cells[1..], m, kring, exp);
      forall x, y | x in here && y in rest
        ensures EdgeKey(x) != EdgeKey(y)
      {
        CandidatesSound(cells[1..], m, kring, exp, y);
        var k, b :| 0 <= k < |cells[1..]| && b in kring(cells[1..][k].geoid) && Kept(cells[1..][k], b, m) &&
                    y == EdgeTo(cells[1..][k], m[b], exp);
        assert y.i == cells[k + 1].node;
      }
      DistinctKeysConcat(here, rest, EdgeKey);
    }
  }

  /** When no two cells share a node id, the built list is strictly sorted by
      `(i, j)`: no `(i, j)` occurs twice. */
  lemma BuiltEdgesStrictlySorted(cells: seq<Cell>, kring: Geoid -> set<Geoid>, exp: real -> real)
    requires ValidExp(exp)
    requires ComputeWeightedEdgesIndex(cells, kring, exp).Success?
    requires forall p, q :: 0 <= p < q < |cells| ==> cells[p].node != cells[q].node
    ensures var es := ComputeWeightedEdgesIndex(cells, kring, exp).value;
            forall p, q :: 0 <= p < q < |es| ==> KeyLt(EdgeKey(es[p]), EdgeKey(es[q]))
  {
    var m := GridMap(cells);
    forall x, y | x in m && y in m && x != y
      ensures m[x].node != m[y].node
    {
      var p :| 0 <= p < |cells| && cells[p].geoid == x;
      var q :| 0 <= q < |cells| && cells[q].geoid == y;
      if p < q {
        assert cells[p].node != cells[q].node;
      } else {
        assert cells[q].node != cells[p].node;
      }
    }
    CandidatesDistinctKeys(cells, m, kring, exp);
    var es := ComputeWeightedEdgesIndex(cells, kring, exp).value;
    PermutationDistinctKeys(Candidates(cells, m, kring, exp), es, EdgeKey);
    SortedDistinctStrict(es, EdgeKey);
  }
}
