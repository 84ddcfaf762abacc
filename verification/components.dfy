/** What `connect_components` asks of networkx about one graph: the list of
    connected components in discovery order, that list sorted by size
    (largest first), and the centre of a component — its nodes of least
    eccentricity. */
module Components {
  import opened Sorting
  import opened Graphs

  /** Whether `u` lies in one of the listed components. */
  predicate Seen(found: seq<set<Node>>, u: Node) {
    exists k :: 0 <= k < |found| && u in found[k]
  }

  ghost predicate NoRepeats(s: seq<set<Node>>) {
    forall p, q :: 0 <= p < q < |s| ==> s[p] != s[q]
  }

  /** `found` lists, once each, the components of the first `i` nodes. */
  ghost predicate ListsFirst(g: Graph, i: nat, found: seq<set<Node>>)
    requires i <= |g.nodes|
  {
    && NoRepeats(found)
    && (forall c :: c in found ==> exists j :: 0 <= j < i && c == Comp(g, g.nodes[j]))
    && (forall j :: 0 <= j < i ==> Comp(g, g.nodes[j]) in found)
  }

  /** Seeing a node is holding its component. */
  lemma SeenIsListed(g: Graph, i: nat, found: seq<set<Node>>, u: Node)
    requires i <= |g.nodes| && ListsFirst(g, i, found) && u in NodeSet(g)
    ensures Seen(found, u) <==> Comp(g, u) in found
  {
    if Seen(found, u) {
      var k :| 0 <= k < |found| && u in found[k];
      assert found[k] in found;
      var j :| 0 <= j < i && found[k] == Comp(g, g.nodes[j]);
      CompSame(g, g.nodes[j], u);
    }
    if Comp(g, u) in found {
      var k :| 0 <= k < |found| && found[k] == Comp(g, u);
      assert u in found[k];
    }
  }

  /** `for v in G: if v not in seen: yield the component of v`, from node `i` on. */
  function Discover(g: Graph, i: nat, found: seq<set<Node>>): (r: seq<set<Node>>)
    requires i <= |g.nodes| && ListsFirst(g, i, found)
    ensures ListsFirst(g, |g.nodes|, r)
    decreases |g.nodes| - i
  {
    if i == |g.nodes| then found
    else
      var u := g.nodes[i];
      SeenIsListed(g, i, found, u);
      if Seen(found, u) then Discover(g, i + 1, found)
      else Discover(g, i + 1, found + [Comp(g, u)])
  }

  /** `nx.connected_components(G)`: each component once, in the order of its
      first node. */
  function ComponentList(g: Graph): (r: seq<set<Node>>)
    ensures NoRepeats(r)
    ensures forall c :: c in r <==> c in Comps(g)
    ensures |r| == |Comps(g)|
  {
    var r := Discover(g, 0, []);
    forall c | c in Comps(g)
      ensures c in r
    {
      var u :| u in g.nodes && c == Comp(g, u);
      var j :| 0 <= j < |g.nodes| && g.nodes[j] == u;
    }
    DistinctCard(r);
    assert (set x | x in r) == Comps(g);
    r
  }

  /** The sort key of `sorted(..., key=len, reverse=True)`: larger first. */
  function BySize(c: set<Node>): (int, int) {
    (-|c|, 0)
  }

  /** The components, largest first; equal sizes keep discovery order. */
  function SortedComponents(g: Graph): (r: seq<set<Node>>)
    ensures forall c :: c in r <==> c in Comps(g)
    ensures |r| == |Comps(g)|
    ensures forall p, q :: 0 <= p < q < |r| ==> |r[p]| >= |r[q]|
  {
    var r := SortBy(ComponentList(g), BySize);
    SameMembers(ComponentList(g), r);
    r
  }

  // ---------------------------------------------------------------------
  // Eccentricity and centre

  /** The nodes at most `k` edges away from `v`. */
  function Ball(g: Graph, v: Node, k: nat): (b: set<Node>)
    requires v in NodeSet(g)
    ensures v in b && b <= NodeSet(g)
  {
    if k == 0 then {v}
    else
      var prev := Ball(g, v, k - 1);
      assert Step(g, prev) <= NodeSet(g);
      Step(g, prev)
  }

  /** Balls never leave the component. */
  lemma {:induction false} BallInComp(g: Graph, v: Node, k: nat)
    requires v in NodeSet(g)
    ensures Ball(g, v, k) <= Comp(g, v)
  {
    if k > 0 {
      BallInComp(g, v, k - 1);
      CompClosed(g, v);
      StepInside(g, Ball(g, v, k - 1), Comp(g, v));
    }
  }

  /** A ball that is not yet the whole component still grows. */
  lemma BallGrows(g: Graph, v: Node, k: nat)
    requires v in NodeSet(g) && Ball(g, v, k) != Comp(g, v)
    ensures !(Step(g, Ball(g, v, k)) <= Ball(g, v, k))
  {
    var b := Ball(g, v, k);
    BallInComp(g, v, k);
    if Step(g, b) <= b {
      assert Closed(g, b);
      CompLeast(g, v, b);
      assert false;
    }
  }

  /** The least radius, from `k` on, whose ball is the whole component. */
  function EccFrom(g: Graph, v: Node, k: nat): (e: nat)
    requires v in NodeSet(g)
    ensures e >= k && Ball(g, v, e) == Comp(g, v)
    decreases |NodeSet(g) - Ball(g, v, k)|
  {
    if Ball(g, v, k) == Comp(g, v) then k
    else
      BallGrows(g, v, k);
      StepProgress(g, Ball(g, v, k));
      EccFrom(g, v, k + 1)
  }

  /** No radius below the one found covers the component. */
  lemma {:induction false} EccFromLeast(g: Graph, v: Node, k: nat, j: nat)
    requires v in NodeSet(g) && k <= j < EccFrom(g, v, k)
    ensures Ball(g, v, j) != Comp(g, v)
    decreases EccFrom(g, v, k) - k
  {
    assert Ball(g, v, k) != Comp(g, v);
    if j > k {
      EccFromStep(g, v, k);
      EccFromLeast(g, v, k + 1, j);
    }
  }

  lemma EccFromStep(g: Graph, v: Node, k: nat)
    requires v in NodeSet(g) && Ball(g, v, k) != Comp(g, v)
    ensures EccFrom(g, v, k) == EccFrom(g, v, k + 1)
  {
    BallGrows(g, v, k);
    StepProgress(g, Ball(g, v, k));
  }

  /** `eccentricity(S, v)`: the greatest distance from `v` to a node of its
      component, i.e. the least radius whose ball is the whole component. */
  function Ecc(g: Graph, v: Node): (e: nat)
    requires v in NodeSet(g)
    ensures Ball(g, v, e) == Comp(g, v)
  {
    EccFrom(g, v, 0)
  }

  /** The eccentricity is the least radius whose ball is the whole component:
      some node of the component lies farther than any smaller radius. */
  lemma EccLeast(g: Graph, v: Node, j: nat)
    requires v in NodeSet(g) && j < Ecc(g, v)
    ensures Ball(g, v, j) != Comp(g, v)
  {
    EccFromLeast(g, v, 0, j);
  }

  /** `center(S)`: the nodes of `c` whose eccentricity is least. */
  function Center(g: Graph, c: set<Node>): (r: set<Node>)
    requires c <= NodeSet(g)
    ensures r <= c
    ensures forall v, w :: v in r && w in c ==> Ecc(g, v) <= Ecc(g, w)
    ensures forall v :: v in c && (forall w :: w in c ==> Ecc(g, v) <= Ecc(g, w)) ==> v in r
  {
    set v | v in c && forall w | w in c :: Ecc(g, v) <= Ecc(g, w)
  }

  /** A non-empty component has a centre. */
  lemma CenterNonEmpty(g: Graph, c: set<Node>)
    requires c <= NodeSet(g) && c != {}
    ensures Center(g, c) != {}
  {
    var eccs := set v | v in c :: Ecc(g, v);
    var v0 := PickAny(c);
    assert Ecc(g, v0) in eccs;
    var m := SetMin(eccs);
    var v :| v in c && Ecc(g, v) == m;
    assert forall w :: w in c ==> Ecc(g, w) in eccs;
    assert v in Center(g, c);
  }
}
