/** The cell table of main.py: rows of (geoid, demand, score) and the node id
    each row receives from the dense rank of its geoid. */
module Table {
  import opened Grid
  import opened Sorting

  /** One input row. */
  datatype Row = Row(geoid: Geoid, demand: real, score: real)

  /** A row with its node id. */
  datatype Cell = Cell(geoid: Geoid, demand: real, score: real, node: nat)

  function GeoidSet(rows: seq<Row>): set<Geoid> {
    set r | r in rows :: r.geoid
  }

  predicate DistinctGeoids(rows: seq<Row>) {
    forall a, b | 0 <= a < b < |rows| :: rows[a].geoid != rows[b].geoid
  }

  predicate DistinctCellGeoids(cells: seq<Cell>) {
    forall a, b | 0 <= a < b < |cells| :: cells[a].geoid != cells[b].geoid
  }

  /** The distinct geoids smaller than `g`: the dense rank of `g`, less one. */
  ghost function Below(rows: seq<Row>, g: Geoid): set<Geoid> {
    set x | x in GeoidSet(rows) && x < g
  }

  /** The position of `x` in a sequence that holds it. */
  function IndexOf(s: seq<int>, x: int): (k: nat)
    requires x in s
    ensures k < |s| && s[k] == x
  {
    if s[0] == x then 0 else 1 + IndexOf(s[1..], x)
  }

  /** In an ascending sequence, the position of an element counts the elements below it. */
  lemma RankIsCountBelow(s: seq<int>, k: nat)
    requires StrictlyIncreasing(s) && k < |s|
    ensures |set y | y in s && y < s[k]| == k
  {
    assert (set y | y in s && y < s[k]) == (set y | y in s[..k]) by {
      forall y | y in s && y < s[k]
        ensures y in s[..k]
      {
        var m :| 0 <= m < |s| && s[m] == y;
        assert m < k;
        assert s[..k][m] == y;
      }
    }
    DistinctCard(s[..k]);
  }

  /** A geoid's position among the distinct geoids, in ascending order, is
      the count of those below it. */
  lemma PositionIsRank(rows: seq<Row>, g: Geoid)
    requires g in GeoidSet(rows)
    ensures IndexOf(SetToSeq(GeoidSet(rows)), g) == |Below(rows, g)|
  {
    var order := SetToSeq(GeoidSet(rows));
    var n := IndexOf(order, g);
    RankIsCountBelow(order, n);
    assert Below(rows, g) == set y | y in order && y < order[n];
  }

  /** `df['geoid'].rank(method='dense').astype(int) - 1`: every row is numbered by
      the count of distinct geoids below its own. */
  function DenseRank(rows: seq<Row>): (cells: seq<Cell>)
    ensures |cells| == |rows|
    ensures forall k :: 0 <= k < |rows| ==>
              && cells[k].geoid == rows[k].geoid
              && cells[k].demand == rows[k].demand
              && cells[k].score == rows[k].score
              && cells[k].node == |Below(rows, rows[k].geoid)|
  {
    var order := SetToSeq(GeoidSet(rows));
    var cells := seq(|rows|, k requires 0 <= k < |rows| =>
      Cell(rows[k].geoid, rows[k].demand, rows[k].score, IndexOf(order, rows[k].geoid)));
    assert forall k :: 0 <= k < |rows| ==> cells[k].node == |Below(rows, rows[k].geoid)| by {
      forall k | 0 <= k < |rows|
        ensures cells[k].node == |Below(rows, rows[k].geoid)|
      {
        assert rows[k] in rows;
        PositionIsRank(rows, rows[k].geoid);
      }
    }
    cells
  }

  /** The ranking preserves the geoid order both ways, and equal geoids share a node. */
  lemma DenseRankOrder(rows: seq<Row>, a: nat, b: nat)
    requires a < |rows| && b < |rows|
    ensures rows[a].geoid < rows[b].geoid <==> DenseRank(rows)[a].node < DenseRank(rows)[b].node
    ensures rows[a].geoid == rows[b].geoid <==> DenseRank(rows)[a].node == DenseRank(rows)[b].node
  {
    var ga, gb := rows[a].geoid, rows[b].geoid;
    if ga < gb {
      assert ga in Below(rows, gb) && ga !in Below(rows, ga);
      assert Below(rows, ga) < Below(rows, gb);
    } else if gb < ga {
      assert gb in Below(rows, ga) && gb !in Below(rows, gb);
      assert Below(rows, gb) < Below(rows, ga);
    }
  }

  function NodeIds(cells: seq<Cell>): set<int> {
    set c | c in cells :: c.node
  }

  /** Every node id is below the number of distinct geoids. */
  lemma DenseRankBelowCount(rows: seq<Row>, k: nat)
    requires k < |rows|
    ensures DenseRank(rows)[k].node < |GeoidSet(rows)|
  {
    var g := rows[k].geoid;
    assert g in GeoidSet(rows);
    assert Below(rows, g) <= GeoidSet(rows) - {g};
  }

  /** Every number below the count of distinct geoids is some row's node id. */
  lemma DenseRankOnto(rows: seq<Row>, n: nat)
    requires n < |GeoidSet(rows)|
    ensures exists k :: 0 <= k < |rows| && DenseRank(rows)[k].node == n
  {
    var order := SetToSeq(GeoidSet(rows));
    var g := order[n];
    assert g in GeoidSet(rows);
    var r :| r in rows && r.geoid == g;
    var k :| 0 <= k < |rows| && rows[k] == r;
    RankIsCountBelow(order, n);
    assert Below(rows, g) == set y | y in order && y < order[n];
    assert DenseRank(rows)[k].node == n;
  }

  /** The node ids are exactly 0, 1, ..., d - 1 for d distinct geoids. */
  lemma DenseRankRange(rows: seq<Row>)
    ensures forall n :: n in NodeIds(DenseRank(rows)) <==> 0 <= n < |GeoidSet(rows)|
  {
    var cells := DenseRank(rows);
    forall c | c in cells
      ensures c.node < |GeoidSet(rows)|
    {
      var k :| 0 <= k < |cells| && cells[k] == c;
      DenseRankBelowCount(rows, k);
    }
    forall n | 0 <= n < |GeoidSet(rows)|
      ensures n in NodeIds(cells)
    {
      DenseRankOnto(rows, n);
      var k :| 0 <= k < |rows| && cells[k].node == n;
      assert cells[k] in cells;
    }
  }

  function NodeKey(c: Cell): (int, int) {
    (c.node, 0)
  }

  /** `df.sort_values("node")`. */
  function SortByNode(cells: seq<Cell>): (r: seq<Cell>)
    ensures SortedBy(r, NodeKey)
    ensures multiset(r) == multiset(cells)
    ensures |r| == |cells|
  {
    SortBy(cells, NodeKey)
  }

  /** A strictly ascending sequence of n values below n is 0, 1, ..., n - 1. */
  lemma {:induction false} AscendingBelowLengthIsIdentity(s: seq<int>)
    requires StrictlyIncreasing(s)
    requires forall k :: 0 <= k < |s| ==> 0 <= s[k] < |s|
    ensures forall k :: 0 <= k < |s| ==> s[k] == k
  {
    if |s| > 0 {
      var last := |s| - 1;
      var init := s[..last];
      forall k | 0 <= k < |init|
        ensures 0 <= init[k] < |init|
      {
        assert init[k] == s[k] < s[last] < |s|;
      }
      AscendingBelowLengthIsIdentity(init);
      if last > 0 {
        assert s[last - 1] == last - 1;
      }
    }
  }

  /** Without repeats, there are as many distinct geoids as rows. */
  lemma DistinctGeoidCount(rows: seq<Row>)
    requires DistinctGeoids(rows)
    ensures |GeoidSet(rows)| == |rows|
  {
    var gs := seq(|rows|, k requires 0 <= k < |rows| => rows[k].geoid);
    DistinctCard(gs);
    assert GeoidSet(rows) == set x | x in gs by {
      forall x | x in GeoidSet(rows)
        ensures x in gs
      {
        var r :| r in rows && r.geoid == x;
        var k :| 0 <= k < |rows| && rows[k] == r;
        assert gs[k] == x;
      }
    }
  }

  /** Sorting the ranked rows of a table without repeated geoids puts the
      node ids in strictly ascending order. */
  lemma SortedRankedNodesAscend(rows: seq<Row>)
    requires DistinctGeoids(rows)
    ensures forall a, b :: 0 <= a < b < |rows| ==>
              SortByNode(DenseRank(rows))[a].node < SortByNode(DenseRank(rows))[b].node
  {
    var cells := DenseRank(rows);
    var sorted := SortByNode(cells);
    forall a, b | 0 <= a < b < |cells|
      ensures NodeKey(cells[a]) != NodeKey(cells[b])
    {
      DenseRankOrder(rows, a, b);
    }
    PermutationDistinctKeys(cells, sorted, NodeKey);
    SortedDistinctStrict(sorted, NodeKey);
  }

  /** A rearrangement of n cells whose node ids lie below n and ascend strictly
      holds node k at position k. */
  lemma AscendingNodesArePositions(cells: seq<Cell>, sorted: seq<Cell>)
    requires multiset(sorted) == multiset(cells) && |sorted| == |cells|
    requires forall p :: 0 <= p < |cells| ==> cells[p].node < |cells|
    requires forall a, b :: 0 <= a < b < |sorted| ==> sorted[a].node < sorted[b].node
    ensures forall k :: 0 <= k < |sorted| ==> sorted[k].node == k
  {
    var nodes := seq(|sorted|, k requires 0 <= k < |sorted| => sorted[k].node);
    forall k | 0 <= k < |nodes|
      ensures 0 <= nodes[k] < |nodes|
    {
      assert sorted[k] in multiset(cells);
      var p :| 0 <= p < |cells| && cells[p] == sorted[k];
    }
    AscendingBelowLengthIsIdentity(nodes);
    forall k | 0 <= k < |sorted|
      ensures sorted[k].node == k
    {
      assert nodes[k] == sorted[k].node;
    }
  }

  /** After ranking and sorting, a table without repeated geoids has its row
      positions equal to its node ids: what `df.loc[node, ...]` relies on. */
  lemma SortedRankedPositions(rows: seq<Row>)
    requires DistinctGeoids(rows)
    ensures forall k :: 0 <= k < |rows| ==> SortByNode(DenseRank(rows))[k].node == k
  {
    var cells := DenseRank(rows);
    SortedRankedNodesAscend(rows);
    DistinctGeoidCount(rows);
    forall p | 0 <= p < |cells|
      ensures cells[p].node < |cells|
    {
      DenseRankBelowCount(rows, p);
    }
    AscendingNodesArePositions(cells, SortByNode(cells));
  }

  /** A rearrangement of cells keeps any agreement between node order and geoid order. */
  lemma AscendingNodesAscendingGeoids(cells: seq<Cell>, sorted: seq<Cell>)
    requires multiset(sorted) == multiset(cells)
    requires forall p, q :: 0 <= p < |cells| && 0 <= q < |cells| && cells[p].node < cells[q].node ==>
               cells[p].geoid < cells[q].geoid
    requires forall a, b :: 0 <= a < b < |sorted| ==> sorted[a].node < sorted[b].node
    ensures forall a, b :: 0 <= a < b < |sorted| ==> sorted[a].geoid < sorted[b].geoid
  {
    forall a, b | 0 <= a < b < |sorted|
      ensures sorted[a].geoid < sorted[b].geoid
    {
      assert sorted[a] in multiset(cells) && sorted[b] in multiset(cells);
      var p :| 0 <= p < |cells| && cells[p] == sorted[a];
      var q :| 0 <= q < |cells| && cells[q] == sorted[b];
    }
  }

  /** After ranking and sorting, the geoids of a table without repeats ascend. */
  lemma SortedRankedGeoidsAscend(rows: seq<Row>)
    requires DistinctGeoids(rows)
    ensures forall a, b :: 0 <= a < b < |rows| ==>
              SortByNode(DenseRank(rows))[a].geoid < SortByNode(DenseRank(rows))[b].geoid
  {
    var cells := DenseRank(rows);
    SortedRankedNodesAscend(rows);
    forall p, q | 0 <= p < |cells| && 0 <= q < |cells| && cells[p].node < cells[q].node
      ensures cells[p].geoid < cells[q].geoid
    {
      DenseRankOrder(rows, p, q);
    }
    AscendingNodesAscendingGeoids(cells, SortByNode(cells));
  }

  /** Sorting a table whose row positions already equal its node ids changes
      nothing: the second `sort_values("node")` of `__post_init__`. */
  lemma ResortIsIdentity(cells: seq<Cell>)
    requires forall k :: 0 <= k < |cells| ==> cells[k].node == k
    ensures SortByNode(cells) == cells
  {
    var sorted := SortByNode(cells);
    assert DistinctKeys(cells, NodeKey);
    PermutationDistinctKeys(cells, sorted, NodeKey);
    SortedDistinctStrict(sorted, NodeKey);
    AscendingNodesArePositions(cells, sorted);
    forall k | 0 <= k < |cells|
      ensures sorted[k] == cells[k]
    {
      assert sorted[k] in multiset(cells);
      var p :| 0 <= p < |cells| && cells[p] == sorted[k];
    }
  }
}
