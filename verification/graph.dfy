/** The slice of an undirected networkx `Graph` the planner uses: nodes in
    insertion order, a weight per node, weighted edges stored once per
    unordered pair, and connected components. */
module Graphs {
  import opened Sorting
  import opened EdgeBuilder

  type Node = int

  /** The storage key of the undirected edge {u, v}. */
  function Key(u: Node, v: Node): (k: (Node, Node))
    ensures k.0 <= k.1
    ensures (k.0 == u && k.1 == v) || (k.0 == v && k.1 == u)
  {
    if u <= v then (u, v) else (v, u)
  }

  lemma KeySymmetric(u: Node, v: Node)
    ensures Key(u, v) == Key(v, u)
  {
  }

  datatype Graph = Graph(nodes: seq<Node>, weight: map<Node, int>, edges: map<(Node, Node), int>)

  function NodeSet(g: Graph): set<Node> {
    set x | x in g.nodes
  }

  /** No node is listed twice and every edge joins two listed nodes. */
  ghost predicate WellFormed(g: Graph) {
    && (forall i, j :: 0 <= i < j < |g.nodes| ==> g.nodes[i] != g.nodes[j])
    && (forall k :: k in g.edges ==> k.0 <= k.1 && k.0 in g.nodes && k.1 in g.nodes)
  }

  predicate Adjacent(g: Graph, u: Node, v: Node) {
    Key(u, v) in g.edges
  }

  function AppendNew(ns: seq<Node>, u: Node): (r: seq<Node>)
    ensures (set x | x in r) == (set x | x in ns) + {u}
    ensures |ns| <= |r| && r[..|ns|] == ns
    ensures (forall i, j :: 0 <= i < j < |ns| ==> ns[i] != ns[j]) ==>
              forall i, j :: 0 <= i < j < |r| ==> r[i] != r[j]
  {
    if u in ns then ns else ns + [u]
  }

  /** `add_edge(u, v, weight=w)`: adds any missing endpoint after the present
      nodes and sets the weight of {u, v}, replacing an earlier one. */
  function AddEdge(g: Graph, e: Edge): (r: Graph)
    ensures NodeSet(r) == NodeSet(g) + {e.i, e.j}
    ensures e.i in NodeSet(g) && e.j in NodeSet(g) ==> r.nodes == g.nodes
    ensures r.weight == g.weight
    ensures Key(e.i, e.j) in r.edges && r.edges[Key(e.i, e.j)] == e.weight
    ensures forall k :: k in r.edges <==> k in g.edges || k == Key(e.i, e.j)
    ensures forall k :: k in g.edges && k != Key(e.i, e.j) ==> r.edges[k] == g.edges[k]
    ensures WellFormed(g) ==> WellFormed(r)
  {
    var ns := AppendNew(AppendNew(g.nodes, e.i), e.j);
    Graph(ns, g.weight, g.edges[Key(e.i, e.j) := e.weight])
  }

  /** The endpoints of a list of edges. */
  function EndPoints(es: seq<Edge>): set<Node> {
    if es == [] then {} else {es[0].i, es[0].j} + EndPoints(es[1..])
  }

  /** Whether some edge of `es` is stored under key `k`. */
  predicate Mentions(es: seq<Edge>, k: (Node, Node)) {
    exists e :: e in es && Key(e.i, e.j) == k
  }

  /** `add_weighted_edges_from(es)`: the edges one after another. */
  function AddEdges(g: Graph, es: seq<Edge>): (r: Graph)
    ensures NodeSet(r) == NodeSet(g) + EndPoints(es)
    ensures EndPoints(es) <= NodeSet(g) ==> r.nodes == g.nodes
    ensures r.weight == g.weight
    ensures WellFormed(g) ==> WellFormed(r)
    decreases |es|
  {
    if es == [] then g
    else AddEdges(AddEdge(g, es[0]), es[1..])
  }

  /** Adding edges adds exactly their keys. */
  lemma {:induction false} AddEdgesKeys(g: Graph, es: seq<Edge>, k: (Node, Node))
    ensures k in AddEdges(g, es).edges <==> k in g.edges || Mentions(es, k)
    decreases |es|
  {
    if es != [] {
      AddEdgesKeys(AddEdge(g, es[0]), es[1..], k);
      if Mentions(es, k) && k !in g.edges && k != Key(es[0].i, es[0].j) {
        var e :| e in es && Key(e.i, e.j) == k;
        assert e in es[1..];
      }
      if Mentions(es[1..], k) {
        var e :| e in es[1..] && Key(e.i, e.j) == k;
        assert e in es;
      }
    }
  }

  /** Adding edges changes no weight stored under a key they do not use. */
  lemma {:induction false} AddEdgesKeepsWeight(g: Graph, es: seq<Edge>, k: (Node, Node))
    requires k in g.edges && !Mentions(es, k)
    ensures k in AddEdges(g, es).edges && AddEdges(g, es).edges[k] == g.edges[k]
    decreases |es|
  {
    if es != [] {
      assert es[0] in es;
      assert forall e :: e in es[1..] ==> e in es;
      AddEdgesKeepsWeight(AddEdge(g, es[0]), es[1..], k);
    }
  }

  /** When no two edges share a key, each edge's weight is the one stored. */
  lemma {:induction false} AddEdgesWeight(g: Graph, es: seq<Edge>, n: nat)
    requires n < |es|
    requires forall a, b :: 0 <= a < b < |es| ==> Key(es[a].i, es[a].j) != Key(es[b].i, es[b].j)
    ensures Key(es[n].i, es[n].j) in AddEdges(g, es).edges
    ensures AddEdges(g, es).edges[Key(es[n].i, es[n].j)] == es[n].weight
    decreases |es|
  {
    var k := Key(es[n].i, es[n].j);
    if n == 0 {
      forall e | e in es[1..]
        ensures Key(e.i, e.j) != k
      {
        var b :| 0 <= b < |es[1..]| && es[1..][b] == e;
        assert es[b + 1] == e;
      }
      AddEdgesKeepsWeight(AddEdge(g, es[0]), es[1..], k);
    } else {
      assert es[1..][n - 1] == es[n];
      AddEdgesWeight(AddEdge(g, es[0]), es[1..], n - 1);
    }
  }

  /** Edges whose endpoints all lie in `s` have no other endpoints. */
  lemma {:induction false} EndPointsWithin(es: seq<Edge>, s: set<Node>)
    requires forall n :: 0 <= n < |es| ==> es[n].i in s && es[n].j in s
    ensures EndPoints(es) <= s
    decreases |es|
  {
    if es != [] {
      assert forall n :: 0 <= n < |es| - 1 ==> es[1..][n] == es[n + 1];
      EndPointsWithin(es[1..], s);
    }
  }

  /** When every edge's weight is a function `f` of its key, so is every
      weight the edges store, whichever of two same-keyed edges comes last. */
  lemma {:induction false} AddEdgesStoredBy(g: Graph, es: seq<Edge>, f: ((Node, Node)) -> int, k: (Node, Node))
    requires forall n :: 0 <= n < |es| ==> es[n].weight == f(Key(es[n].i, es[n].j))
    requires Mentions(es, k)
    ensures k in AddEdges(g, es).edges && AddEdges(g, es).edges[k] == f(k)
    decreases |es|
  {
    var h := AddEdge(g, es[0]);
    assert forall n :: 0 <= n < |es| - 1 ==> es[1..][n] == es[n + 1];
    if Mentions(es[1..], k) {
      AddEdgesStoredBy(h, es[1..], f, k);
    } else {
      var e :| e in es && Key(e.i, e.j) == k;
      if e != es[0] {
        assert e in es[1..];
      }
      AddEdgesKeepsWeight(h, es[1..], k);
    }
  }

  // ---------------------------------------------------------------------
  // Connected components

  /** No edge leaves `c`. */
  ghost predicate Closed(g: Graph, c: set<Node>) {
    forall u, v :: u in c && v in NodeSet(g) && Adjacent(g, u, v) ==> v in c
  }

  /** `s` together with the nodes adjacent to it. */
  function Step(g: Graph, s: set<Node>): (r: set<Node>)
    ensures s <= r
    ensures forall v :: v in r <==> v in s || (v in NodeSet(g) && exists u :: u in s && Adjacent(g, u, v))
  {
    s + (set u, v | u in s && v in g.nodes && Adjacent(g, u, v) :: v)
  }

  /** `Step` stays inside any closed set it starts in. */
  lemma StepInside(g: Graph, s: set<Node>, c: set<Node>)
    requires s <= c && Closed(g, c)
    ensures Step(g, s) <= c
  {
  }

  lemma {:induction false} SubsetCard<T>(a: set<T>, b: set<T>)
    requires a <= b
    ensures |a| <= |b|
    decreases |a|
  {
    if a != {} {
      var y :| y in a;
      SubsetCard(a - {y}, b - {y});
    }
  }

  lemma RemoveCard<T>(s: set<T>, x: T)
    requires x in s
    ensures |s - {x}| == |s| - 1
  {
    assert s == (s - {x}) + {x};
  }

  lemma ProperSubsetCard<T>(a: set<T>, b: set<T>, x: T)
    requires a <= b && x in b && x !in a
    ensures |a| < |b|
  {
    SubsetCard(a, b - {x});
  }

  /** A step that adds a node shrinks the set of nodes left to reach. */
  lemma StepProgress(g: Graph, s: set<Node>)
    requires s <= NodeSet(g) && !(Step(g, s) <= s)
    ensures Step(g, s) <= NodeSet(g)
    ensures |NodeSet(g) - Step(g, s)| < |NodeSet(g) - s|
  {
    var t := Step(g, s);
    var x :| x in t && x !in s;
    ProperSubsetCard(NodeSet(g) - t, NodeSet(g) - s, x);
  }

  /** The nodes reachable from `s`. */
  function Closure(g: Graph, s: set<Node>): (r: set<Node>)
    requires s <= NodeSet(g)
    ensures s <= r <= NodeSet(g)
    decreases |NodeSet(g) - s|
  {
    var t := Step(g, s);
    if t <= s then s
    else
      StepProgress(g, s);
      Closure(g, t)
  }

  /** No edge leaves the closure. */
  lemma {:induction false} ClosureClosed(g: Graph, s: set<Node>)
    requires s <= NodeSet(g)
    ensures Closed(g, Closure(g, s))
    decreases |NodeSet(g) - s|
  {
    var t := Step(g, s);
    if !(t <= s) {
      StepProgress(g, s);
      ClosureClosed(g, t);
    }
  }

  /** The closure is the least closed set containing `s`. */
  lemma {:induction false} ClosureLeast(g: Graph, s: set<Node>, c: set<Node>)
    requires s <= NodeSet(g) && s <= c && Closed(g, c)
    ensures Closure(g, s) <= c
    decreases |NodeSet(g) - s|
  {
    var t := Step(g, s);
    if !(t <= s) {
      StepInside(g, s, c);
      StepProgress(g, s);
      ClosureLeast(g, t, c);
    }
  }

  /** The connected component of `u`. */
  function Comp(g: Graph, u: Node): (c: set<Node>)
    requires u in NodeSet(g)
    ensures u in c && c <= NodeSet(g)
  {
    Closure(g, {u})
  }

  /** No edge leaves a component. */
  lemma CompClosed(g: Graph, u: Node)
    requires u in NodeSet(g)
    ensures Closed(g, Comp(g, u))
  {
    ClosureClosed(g, {u});
  }

  /** The component of `u` lies inside every closed set containing `u`. */
  lemma CompLeast(g: Graph, u: Node, c: set<Node>)
    requires u in NodeSet(g) && u in c && Closed(g, c)
    ensures Comp(g, u) <= c
  {
    ClosureLeast(g, {u}, c);
  }

  /** Nodes of one component share it: the components partition the nodes. */
  lemma CompSame(g: Graph, u: Node, v: Node)
    requires u in NodeSet(g) && v in Comp(g, u)
    ensures Comp(g, v) == Comp(g, u)
  {
    var cu, cv := Comp(g, u), Comp(g, v);
    CompClosed(g, u);
    CompClosed(g, v);
    CompLeast(g, v, cu);
    if u !in cv {
      var rest := cu - cv;
      forall x, y | x in rest && y in NodeSet(g) && Adjacent(g, x, y)
        ensures y in rest
      {
        if y in cv {
          KeySymmetric(x, y);
          assert Adjacent(g, y, x);
        }
      }
      assert v in cv && v in cu && u in rest;
      CompLeast(g, u, rest);
      assert false;
    }
    CompLeast(g, u, cv);
  }

  /** Adjacent nodes share their component. */
  lemma AdjacentSameComp(g: Graph, u: Node, v: Node)
    requires u in NodeSet(g) && v in NodeSet(g) && Adjacent(g, u, v)
    ensures Comp(g, u) == Comp(g, v)
  {
    CompSame(g, u, v);
  }

  /** `connected_components(G)`, as a set. */
  function Comps(g: Graph): set<set<Node>> {
    set u | u in g.nodes :: Comp(g, u)
  }

  /** `is_connected(G)` for a graph with at least one node. */
  predicate Connected(g: Graph) {
    |Comps(g)| == 1
  }

  lemma CompsNonEmpty(g: Graph)
    requires g.nodes != []
    ensures |Comps(g)| >= 1
  {
    assert Comp(g, g.nodes[0]) in Comps(g);
  }

  /** Connected means every node reaches every other. */
  lemma ConnectedMeansOneComp(g: Graph, u: Node, v: Node)
    requires Connected(g) && u in NodeSet(g) && v in NodeSet(g)
    ensures v in Comp(g, u)
  {
    var cu, cv := Comp(g, u), Comp(g, v);
    assert cu in Comps(g) && cv in Comps(g);
    assert |Comps(g) - {cu}| == 0;
    assert cv !in Comps(g) - {cu};
  }

  /** A non-empty graph in which every node reaches every other is
      connected. */
  lemma OneCompMeansConnected(g: Graph)
    requires g.nodes != []
    requires forall u, v :: u in NodeSet(g) && v in NodeSet(g) ==> v in Comp(g, u)
    ensures Connected(g)
  {
    var u0 := g.nodes[0];
    var c := Comp(g, u0);
    forall d | d in Comps(g)
      ensures d == c
    {
      var v :| v in g.nodes && d == Comp(g, v);
      CompSame(g, u0, v);
    }
    assert c in Comps(g);
    assert Comps(g) == {c};
  }

  /** `h` has the nodes of `g` and at least its edges. */
  ghost predicate Extends(g: Graph, h: Graph) {
    NodeSet(h) == NodeSet(g) && forall k :: k in g.edges ==> k in h.edges
  }

  /** Nodes apart after adding edges were apart before. */
  lemma CompsApart(g: Graph, h: Graph, a: Node, b: Node)
    requires Extends(g, h) && a in NodeSet(g) && b in NodeSet(g)
    requires Comp(h, a) != Comp(h, b)
    ensures Comp(g, a) != Comp(g, b)
  {
    if Comp(g, a) == Comp(g, b) {
      CompGrows(g, h, a);
      CompSame(h, a, b);
      assert false;
    }
  }

  /** Adding edges only merges components. */
  lemma CompGrows(g: Graph, h: Graph, u: Node)
    requires Extends(g, h) && u in NodeSet(g)
    ensures Comp(g, u) <= Comp(h, u)
  {
    CompClosed(h, u);
    CompLeast(g, u, Comp(h, u));
  }

  /** The component of `h` that the component `c` of `g` falls into. */
  ghost function Lift(g: Graph, h: Graph, c: set<Node>): set<Node> {
    if c != {} && PickAny(c) in NodeSet(h) then Comp(h, PickAny(c)) else {}
  }

  lemma LiftComp(g: Graph, h: Graph, u: Node)
    requires Extends(g, h) && u in NodeSet(g)
    ensures Lift(g, h, Comp(g, u)) == Comp(h, u)
  {
    var p := PickAny(Comp(g, u));
    CompGrows(g, h, u);
    CompSame(h, u, p);
  }

  /** A map from `s` onto `t` cannot make `t` larger than `s`. */
  lemma {:induction false} ImageCard<A, B>(s: set<A>, t: set<B>, f: A -> B)
    requires forall x :: x in s ==> f(x) in t
    requires forall y :: y in t ==> exists x :: x in s && f(x) == y
    ensures |t| <= |s|
    decreases |s|
  {
    if s == {} {
      assert forall y :: y !in t;
      assert t == {};
    } else {
      var x :| x in s;
      var s' := s - {x};
      if exists x' :: x' in s' && f(x') == f(x) {
        ImageCard(s', t, f);
      } else {
        forall y | y in t - {f(x)}
          ensures exists x' :: x' in s' && f(x') == y
        {
          var w :| w in s && f(w) == y;
        }
        ImageCard(s', t - {f(x)}, f);
      }
    }
  }

  /** A node whose component is `d`. */
  ghost function Rep(g: Graph, d: set<Node>): (u: Node)
    requires d in Comps(g)
    ensures u in NodeSet(g) && d == Comp(g, u)
  {
    var u :| u in g.nodes && d == Comp(g, u); u
  }

  lemma CompIn(g: Graph, u: Node)
    requires u in NodeSet(g)
    ensures Comp(g, u) in Comps(g)
  {
    assert u in g.nodes;
  }

  /** Adding edges never adds components. */
  lemma CompsShrink(g: Graph, h: Graph)
    requires Extends(g, h)
    ensures |Comps(h)| <= |Comps(g)|
  {
    LiftInto(g, h);
    LiftOnto(g, h);
    ImageCard(Comps(g), Comps(h), c => Lift(g, h, c));
  }

  lemma LiftInto(g: Graph, h: Graph)
    requires Extends(g, h)
    ensures forall c :: c in Comps(g) ==> Lift(g, h, c) in Comps(h)
  {
    forall c | c in Comps(g)
      ensures Lift(g, h, c) in Comps(h)
    {
      var u := Rep(g, c);
      LiftComp(g, h, u);
      CompIn(h, u);
    }
  }

  /** Every component of `h` is the lift of a component of `g`. */
  lemma LiftOnto(g: Graph, h: Graph)
    requires Extends(g, h)
    ensures forall d :: d in Comps(h) ==> exists c :: c in Comps(g) && Lift(g, h, c) == d
  {
    forall d | d in Comps(h)
      ensures exists c :: c in Comps(g) && Lift(g, h, c) == d
    {
      var u := Rep(h, d);
      LiftComp(g, h, u);
      CompIn(g, u);
    }
  }

  /** A node of `a`'s component may be replaced by `b`: same component in `h`. */
  lemma Redirect(g: Graph, h: Graph, a: Node, b: Node, u: Node)
    requires Extends(g, h)
    requires a in NodeSet(g) && b in NodeSet(g) && Adjacent(h, a, b) && Comp(g, a) != Comp(g, b)
    requires u in NodeSet(g)
    ensures var w := if Comp(g, u) == Comp(g, a) then b else u;
            Comp(g, w) != Comp(g, a) && Comp(h, w) == Comp(h, u)
  {
    if Comp(g, u) == Comp(g, a) {
      AdjacentSameComp(h, a, b);
      CompGrows(g, h, a);
      CompSame(g, a, u);
      CompSame(h, a, u);
    }
  }

  /** When an added edge joins the components of `a` and `b`, every component
      of `h` is already the lift of one other than `a`'s. */
  lemma LiftOntoWithout(g: Graph, h: Graph, a: Node, b: Node)
    requires Extends(g, h)
    requires a in NodeSet(g) && b in NodeSet(g) && Adjacent(h, a, b) && Comp(g, a) != Comp(g, b)
    ensures forall d :: d in Comps(h) ==> exists c :: c in Comps(g) - {Comp(g, a)} && Lift(g, h, c) == d
  {
    var ca := Comp(g, a);
    forall d | d in Comps(h)
      ensures exists c :: c in Comps(g) - {ca} && Lift(g, h, c) == d
    {
      var u := Rep(h, d);
      var w := if Comp(g, u) == ca then b else u;
      Redirect(g, h, a, b, u);
      CompIn(g, w);
      LiftComp(g, h, w);
      assert Comp(g, w) in Comps(g) - {ca} && Lift(g, h, Comp(g, w)) == d;
    }
  }

  /** An added edge between two components of `g` removes at least one. */
  lemma CompsShrinkStrict(g: Graph, h: Graph, a: Node, b: Node)
    requires Extends(g, h)
    requires a in NodeSet(g) && b in NodeSet(g) && Adjacent(h, a, b) && Comp(g, a) != Comp(g, b)
    ensures |Comps(h)| < |Comps(g)|
  {
    LiftInto(g, h);
    LiftOntoWithout(g, h, a, b);
    ImageCard(Comps(g) - {Comp(g, a)}, Comps(h), c => Lift(g, h, c));
    CompIn(g, a);
    RemoveCard(Comps(g), Comp(g, a));
  }
}
