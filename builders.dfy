/**
 * The graph builders of `main.py`. Each one creates an empty networkx graph and fills it with
 * `add_node`/`add_edge` calls; `inspect` reads a graph back as its node list and edge list.
 *
 * Every builder is a method on a fresh `MutableGraph`, proved to leave exactly the graph a
 * specification function describes; the lemmas beside it state what that graph is.
 */
module Builders {
  import opened Counting
  import opened Graphs

  /** `nx.Graph()`. */
  function Empty<N(==,!new)>(): (g: Graph<N>)
    ensures g.Valid() && g.Vertices() == {} && g.Edges() == {}
  {
    Graph([], map[])
  }

  /** `inspect(graph)`: the node list and the edge list, both in networkx order. The node list
      names every vertex once, and the edge list names every edge once and nothing else. */
  function Inspect<N(==,!new)>(g: Graph<N>): (info: (seq<N>, seq<(N, N)>))
    requires g.Valid()
    ensures NoDup(info.0) && Elements(info.0) == g.Vertices()
    ensures EdgeSetOf(info.1) == g.Edges() && UniqueEdges(info.1)
    ensures |info.1| == |g.Edges()|
  {
    g.EdgeListIsEdges();
    (g.nodes, g.EdgeList())
  }

  // ---------------------------------------------------------------- build

  /** The graph `build(vertices, edges)` returns. */
  function BuildGraph<N(==,!new)>(vertices: seq<N>, edges: seq<(N, N)>): Graph<N> {
    Empty().AddNodes(vertices).AddEdges(edges)
  }

  /** `build(vertices, edges)`. */
  method Build<N(==,!new)>(vertices: seq<N>, edges: seq<(N, N)>) returns (g: MutableGraph<N>)
    ensures fresh(g) && g.Value() == BuildGraph(vertices, edges)
  {
    g := new MutableGraph();
    g.AddNodesFrom(vertices);
    g.AddEdgesFrom(edges);
  }

  /** The built graph has the given vertices plus every endpoint of the given edges, in order
      of first mention, and exactly the given edges as unordered pairs. */
  lemma BuildSpec<N(!new)>(vertices: seq<N>, edges: seq<(N, N)>)
    ensures BuildGraph(vertices, edges).Valid()
    ensures BuildGraph(vertices, edges).Vertices() == Elements(vertices) + Elements(Endpoints(edges))
    ensures BuildGraph(vertices, edges).Edges() == EdgeSetOf(edges)
    ensures BuildGraph(vertices, edges).nodes == AppendNew([], vertices + Endpoints(edges))
  {
    var h := Empty<N>().AddNodes(vertices);
    Empty<N>().AddNodesSpec(vertices);
    assert BuildGraph(vertices, edges).Valid() && BuildGraph(vertices, edges).Edges() == EdgeSetOf(edges) by {
      h.AddEdgesSpec(edges);
    }
    assert BuildGraph(vertices, edges).Vertices() == Elements(vertices) + Elements(Endpoints(edges)) by {
      h.AddEdgesVertices(edges);
    }
    assert BuildGraph(vertices, edges).nodes == AppendNew([], vertices + Endpoints(edges)) by {
      h.AddEdgesNodes(edges);
      AppendNewConcat([], vertices, Endpoints(edges));
    }
  }

  // ---------------------------------------------------------------- merge

  /** The graph `merge(*graphs)` returns: each argument's nodes, then its edges, in turn. */
  function MergeGraph<N(==,!new)>(gs: seq<Graph<N>>): Graph<N>
    decreases |gs|
  {
    if gs == [] then Empty()
    else
      var last := gs[|gs| - 1];
      MergeGraph(gs[..|gs| - 1]).AddNodes(last.nodes).AddEdges(last.EdgeList())
  }

  /** `merge(*graphs)`. */
  method Merge<N(==,!new)>(gs: seq<Graph<N>>) returns (g: MutableGraph<N>)
    ensures fresh(g) && g.Value() == MergeGraph(gs)
  {
    g := new MutableGraph();
    for i := 0 to |gs|
      invariant g.Value() == MergeGraph(gs[..i])
    {
      g.AddNodesFrom(gs[i].nodes);
      g.AddEdgesFrom(gs[i].EdgeList());
      assert gs[..i + 1][..i] == gs[..i];
    }
    assert gs[..|gs|] == gs;
  }

  ghost function UnionVertices<N(!new)>(gs: seq<Graph<N>>): set<N> {
    set h, v | h in gs && v in h.adj :: v
  }

  ghost function UnionEdges<N(!new)>(gs: seq<Graph<N>>): set<set<N>> {
    set h, e | h in gs && e in h.Edges() :: e
  }

  lemma UnionLast<N(!new)>(gs: seq<Graph<N>>)
    requires gs != []
    ensures UnionVertices(gs) == UnionVertices(gs[..|gs| - 1]) + gs[|gs| - 1].Vertices()
    ensures UnionEdges(gs) == UnionEdges(gs[..|gs| - 1]) + gs[|gs| - 1].Edges()
  {
    var init, last := gs[..|gs| - 1], gs[|gs| - 1];
    assert gs == init + [last];
    forall v | v in UnionVertices(gs) ensures v in UnionVertices(init) + last.Vertices() {
      var h :| h in gs && v in h.adj;
    }
    forall e | e in UnionEdges(gs) ensures e in UnionEdges(init) + last.Edges() {
      var h :| h in gs && e in h.Edges();
    }
  }

  /** The endpoints of a graph's own edges are its vertices. */
  lemma EdgeListEndpoints<N(!new)>(g: Graph<N>)
    requires g.Valid()
    ensures Elements(Endpoints(g.EdgeList())) <= g.Vertices()
  {
    forall x | x in Endpoints(g.EdgeList()) ensures x in g.adj {
      var e := EndpointOf(g.EdgeList(), x);
      g.EdgeListMem(e);
    }
  }

  /** The merged graph's edges are the union of the arguments' edges; with no argument it is
      the empty graph. */
  lemma {:induction false} MergeSpec<N(!new)>(gs: seq<Graph<N>>)
    requires forall h :: h in gs ==> h.Valid()
    ensures MergeGraph(gs).Valid()
    ensures MergeGraph(gs).Edges() == UnionEdges(gs)
    decreases |gs|
  {
    if gs != [] {
      var init, last := gs[..|gs| - 1], gs[|gs| - 1];
      assert forall h :: h in init ==> h in gs;
      MergeSpec(init);
      UnionLast(gs);
      var h := MergeGraph(init);
      var h1 := h.AddNodes(last.nodes);
      h.AddNodesSpec(last.nodes);
      h1.AddEdgesSpec(last.EdgeList());
      last.EdgeListIsEdges();
    }
  }

  /** The merged graph's vertices are the union of the arguments' vertices. */
  lemma {:induction false} MergeVertices<N(!new)>(gs: seq<Graph<N>>)
    requires forall h :: h in gs ==> h.Valid()
    ensures MergeGraph(gs).Vertices() == UnionVertices(gs)
    decreases |gs|
  {
    if gs != [] {
      var init, last := gs[..|gs| - 1], gs[|gs| - 1];
      assert forall h :: h in init ==> h in gs;
      MergeVertices(init);
      UnionLast(gs);
      var h := MergeGraph(init);
      var h1 := h.AddNodes(last.nodes);
      h.AddNodesVertices(last.nodes);
      last.NodesAreVertices();
      h1.AddEdgesVertices(last.EdgeList());
      EdgeListEndpoints(last);
    }
  }

  /** The order of the arguments, and repeated arguments, do not matter. */
  lemma MergeOrderIrrelevant<N(!new)>(gs: seq<Graph<N>>, hs: seq<Graph<N>>)
    requires forall h :: h in gs ==> h.Valid()
    requires forall h :: h in gs <==> h in hs
    ensures MergeGraph(gs).Vertices() == MergeGraph(hs).Vertices()
    ensures MergeGraph(gs).Edges() == MergeGraph(hs).Edges()
  {
    MergeSpec(gs);
    MergeSpec(hs);
    MergeVertices(gs);
    MergeVertices(hs);
    assert UnionVertices(gs) == UnionVertices(hs);
    assert UnionEdges(gs) == UnionEdges(hs);
  }

  // ---------------------------------------------------------------- path

  /** The consecutive pairs of `l`: `(l[i], l[i + 1])` for `i in range(len(l) - 1)`. */
  function PathPairs<N>(l: seq<N>): (r: seq<(N, N)>)
    ensures |l| == 0 ==> |r| == 0
    ensures |l| > 0 ==> |r| == |l| - 1
    ensures forall i :: 0 <= i < |r| ==> r[i] == (l[i], l[i + 1])
  {
    if |l| < 2 then [] else seq(|l| - 1, i requires 0 <= i < |l| - 1 => (l[i], l[i + 1]))
  }

  /** The edge between `l[i]` and `l[i + 1]`. */
  function Step<N(!new)>(l: seq<N>, i: int): set<N>
    requires 0 <= i < |l| - 1
  {
    Pair(l[i], l[i + 1])
  }

  /** The edges of the path through `l`. */
  function PathEdges<N(!new)>(l: seq<N>): set<set<N>> {
    set i | 0 <= i < |l| - 1 :: Step(l, i)
  }

  /** The graph `path(l)` returns. */
  function PathGraph<N(==,!new)>(l: seq<N>): Graph<N> {
    Empty().AddNodes(l).AddEdges(PathPairs(l))
  }

  /** `path(l)`. */
  method Path<N(==,!new)>(l: seq<N>) returns (g: MutableGraph<N>)
    ensures fresh(g) && g.Value() == PathGraph(l)
  {
    g := new MutableGraph();
    g.AddNodesFrom(l);
    ghost var base := g.Value();
    var i := 0;
    while i + 1 < |l|
      invariant 0 <= i && (i <= |l| - 1 || i == 0)
      invariant g.Value() == base.AddEdges(PathPairs(l)[..i])
    {
      base.AddEdgesStep(PathPairs(l), i);
      g.AddEdge(l[i], l[i + 1]);
      i := i + 1;
    }
    assert PathPairs(l)[..i] == PathPairs(l);
  }

  /** The path's vertices are the listed nodes, and its edges are exactly the consecutive
      pairs; a single node gives one vertex and no edge. */
  lemma PathSpec<N(!new)>(l: seq<N>)
    ensures PathGraph(l).Valid()
    ensures PathGraph(l).Vertices() == Elements(l)
    ensures PathGraph(l).Edges() == PathEdges(l)
  {
    var ps := PathPairs(l);
    var h := Empty<N>().AddNodes(l);
    assert h.Valid() && h.Vertices() == Elements(l) && h.Edges() == {} by {
      Empty<N>().AddNodesSpec(l);
    }
    assert PathGraph(l).Vertices() == Elements(l) by {
      h.AddEdgesVertices(ps);
      PathEndpoints(l);
    }
    assert PathGraph(l).Valid() && PathGraph(l).Edges() == PathEdges(l) by {
      h.AddEdgesSpec(ps);
      PathPairsEdges(l);
    }
  }

  /** The path's node order is the listed order, repeats dropped. */
  lemma PathNodes<N(!new)>(l: seq<N>)
    ensures PathGraph(l).nodes == AppendNew([], l)
  {
    var ps := PathPairs(l);
    var h := Empty<N>().AddNodes(l);
    Empty<N>().AddNodesSpec(l);
    h.AddEdgesNodes(ps);
    PathEndpoints(l);
    AppendNewPresent(h.nodes, Endpoints(ps));
  }

  lemma PathEndpoints<N(!new)>(l: seq<N>)
    ensures forall x :: x in Endpoints(PathPairs(l)) ==> x in l
  {
    forall x | x in Endpoints(PathPairs(l)) ensures x in l {
      var e := EndpointOf(PathPairs(l), x);
    }
  }

  lemma PathPairsEdges<N(!new)>(l: seq<N>)
    ensures EdgeSetOf(PathPairs(l)) == PathEdges(l)
  {
    var ps := PathPairs(l);
    forall e | e in EdgeSetOf(ps) ensures e in PathEdges(l) {
      var p :| p in ps && e == Pair(p.0, p.1);
      var i :| 0 <= i < |ps| && ps[i] == p;
      assert e == Step(l, i);
    }
    forall i | 0 <= i < |l| - 1 ensures Step(l, i) in EdgeSetOf(ps) {
      assert ps[i] in ps;
    }
  }

  // ---------------------------------------------------------------- cycle

  /** The index after `i` around a cycle of length `n`. */
  function Next(i: int, n: int): int {
    if i + 1 == n then 0 else i + 1
  }

  /** The index before `i` around a cycle of length `n`. */
  function Prev(i: int, n: int): int {
    if i == 0 then n - 1 else i - 1
  }

  lemma NextMod(i: int, n: int)
    requires 0 <= i < n
    ensures (i + 1) % n == Next(i, n)
  {
  }

  /** The pairs `(l[i], l[(i + 1) % len(l)])` for `i in range(len(l))`. */
  function CyclePairs<N>(l: seq<N>): (r: seq<(N, N)>)
    ensures |r| == |l|
    ensures forall i :: 0 <= i < |l| ==> r[i] == (l[i], l[Next(i, |l|)])
  {
    seq(|l|, i requires 0 <= i < |l| => (l[i], l[Next(i, |l|)]))
  }

  /** The edge from `l[i]` to the node after it around the cycle. */
  function Around<N(!new)>(l: seq<N>, i: int): set<N>
    requires 0 <= i < |l|
  {
    Pair(l[i], l[Next(i, |l|)])
  }

  /** The edges of the cycle through `l`. */
  function CycleEdges<N(!new)>(l: seq<N>): set<set<N>> {
    set i | 0 <= i < |l| :: Around(l, i)
  }

  /** The graph `cycle(l)` returns. */
  function CycleGraph<N(==,!new)>(l: seq<N>): Graph<N> {
    Empty().AddNodes(l).AddEdges(CyclePairs(l))
  }

  /** `cycle(l)`. */
  method Cycle<N(==,!new)>(l: seq<N>) returns (g: MutableGraph<N>)
    ensures fresh(g) && g.Value() == CycleGraph(l)
  {
    g := new MutableGraph();
    g.AddNodesFrom(l);
    ghost var base := g.Value();
    ghost var ps := CyclePairs(l);
    for i := 0 to |l|
      invariant g.Value() == base.AddEdges(ps[..i])
    {
      var j := (i + 1) % |l|;
      NextMod(i, |l|);
      base.AddEdgesStep(ps, i);
      g.AddEdge(l[i], l[j]);
    }
    assert ps[..|l|] == ps;
  }

  lemma CyclePairsEdges<N(!new)>(l: seq<N>)
    ensures EdgeSetOf(CyclePairs(l)) == CycleEdges(l)
    ensures forall x :: x in Endpoints(CyclePairs(l)) ==> x in l
  {
    var ps := CyclePairs(l);
    forall e | e in EdgeSetOf(ps) ensures e in CycleEdges(l) {
      var p :| p in ps && e == Pair(p.0, p.1);
      var i :| 0 <= i < |ps| && ps[i] == p;
      assert e == Around(l, i);
    }
    forall i | 0 <= i < |l| ensures Around(l, i) in EdgeSetOf(ps) {
      assert ps[i] in ps;
    }
    forall x | x in Endpoints(ps) ensures x in l {
      var e := EndpointOf(ps, x);
    }
  }

  /** The cycle's vertices are the listed nodes and its edges join each node to the next one
      around, the last to the first. */
  lemma CycleSpec<N(!new)>(l: seq<N>)
    ensures CycleGraph(l).Valid()
    ensures CycleGraph(l).Vertices() == Elements(l)
    ensures CycleGraph(l).Edges() == CycleEdges(l)
  {
    var ps := CyclePairs(l);
    var h := Empty<N>().AddNodes(l);
    assert h.Valid() && h.Vertices() == Elements(l) && h.Edges() == {} by {
      Empty<N>().AddNodesSpec(l);
    }
    assert CycleGraph(l).Vertices() == Elements(l) by {
      h.AddEdgesVertices(ps);
      CyclePairsEdges(l);
    }
    assert CycleGraph(l).Valid() && CycleGraph(l).Edges() == CycleEdges(l) by {
      h.AddEdgesSpec(ps);
      CyclePairsEdges(l);
    }
  }

  /** The cycle's node order is the listed order, repeats dropped. */
  lemma CycleNodes<N(!new)>(l: seq<N>)
    ensures CycleGraph(l).nodes == AppendNew([], l)
  {
    var ps := CyclePairs(l);
    var h := Empty<N>().AddNodes(l);
    Empty<N>().AddNodesSpec(l);
    h.AddEdgesNodes(ps);
    CyclePairsEdges(l);
    AppendNewPresent(h.nodes, Endpoints(ps));
  }

  /** A one-node cycle is a single self-loop, which networkx counts twice in the degree. */
  lemma CycleOfOne<N(!new)>(x: N)
    ensures CycleGraph([x]).Edges() == {{x}}
    ensures CycleGraph([x]).Degree(x) == 2
  {
    CycleSpec([x]);
    var g := CycleGraph([x]);
    assert Around([x], 0) == {x};
    assert CycleEdges([x]) == {{x}};
    g.NeighborsAreEdges(x, x);
    assert x in g.adj[x];
    forall w | w in g.adj[x] ensures w == x {
      g.NeighborsAreEdges(x, w);
      assert Pair(x, w) == {x};
    }
    assert Elements(g.adj[x]) == {x};
    NoDupCard(g.adj[x]);
  }

  /** On distinct nodes, `l[k]` lies on exactly the edges around `k` and around the index
      before it. */
  lemma OnAround<N(!new)>(l: seq<N>, k: int, i: int)
    requires NoDup(l) && |l| >= 2 && 0 <= k < |l| && 0 <= i < |l|
    ensures l[k] in Around(l, i) <==> k == i || k == Next(i, |l|)
  {
  }

  /** With three or more distinct nodes, the cycle edges at `l[k]` join it to the nodes before
      and after it, and to nothing else. */
  lemma CycleEdgesAt<N(!new)>(l: seq<N>, k: int, w: N)
    requires NoDup(l) && |l| >= 3 && 0 <= k < |l|
    ensures Pair(l[k], w) in CycleEdges(l) <==> w == l[Next(k, |l|)] || w == l[Prev(k, |l|)]
  {
    var n := |l|;
    assert Around(l, k) == Pair(l[k], l[Next(k, n)]);
    assert Around(l, Prev(k, n)) == Pair(l[k], l[Prev(k, n)]);
    if Pair(l[k], w) in CycleEdges(l) {
      var i :| 0 <= i < n && Pair(l[k], w) == Around(l, i);
      OnAround(l, k, i);
      assert l[i] != l[Next(i, n)];
      assert l[i] in Pair(l[k], w) && l[Next(i, n)] in Pair(l[k], w);
      assert k == i || i == Prev(k, n);
    }
  }

  /** With three or more distinct nodes, the neighbours of `l[k]` are exactly the nodes before
      and after it around the cycle. */
  lemma CycleNeighbors<N(!new)>(l: seq<N>, k: int, w: N)
    requires NoDup(l) && |l| >= 3 && 0 <= k < |l|
    ensures w in CycleGraph(l).Neighbors(l[k]) <==> w == l[Next(k, |l|)] || w == l[Prev(k, |l|)]
  {
    CycleSpec(l);
    CycleGraph(l).NeighborsAreEdges(l[k], w);
    CycleEdgesAt(l, k, w);
  }

  /** In a cycle through three or more distinct nodes every vertex has degree 2. */
  lemma CycleDegree<N(!new)>(l: seq<N>, k: int)
    requires NoDup(l) && |l| >= 3 && 0 <= k < |l|
    ensures CycleGraph(l).Degree(l[k]) == 2
  {
    var n := |l|;
    var g := CycleGraph(l);
    var ns := g.Neighbors(l[k]);
    assert NoDup(ns) by {
      CycleSpec(l);
    }
    forall w ensures w in ns <==> w in {l[Next(k, n)], l[Prev(k, n)]} {
      CycleNeighbors(l, k, w);
    }
    assert Elements(ns) == {l[Next(k, n)], l[Prev(k, n)]};
    assert l[Next(k, n)] != l[Prev(k, n)];
    NoDupCard(ns);
    CycleNeighbors(l, k, l[k]);
  }

  /** A cycle through three or more distinct nodes has exactly as many edges as nodes. */
  lemma CycleEdgeCount<N(!new)>(l: seq<N>)
    requires NoDup(l) && |l| >= 3
    ensures |CycleGraph(l).Edges()| == |l|
    ensures CycleGraph(l).NumberOfEdges() == |l|
  {
    var n := |l|;
    var ps := CyclePairs(l);
    forall i, j | 0 <= i < j < n ensures Pair(ps[i].0, ps[i].1) != Pair(ps[j].0, ps[j].1) {
      OnAround(l, i, j);
      OnAround(l, Next(i, n), j);
      assert Pair(ps[i].0, ps[i].1) == Around(l, i);
      assert Pair(ps[j].0, ps[j].1) == Around(l, j);
      if i == Next(j, n) {
        assert l[Next(i, n)] in Around(l, i) && l[Next(i, n)] !in Around(l, j);
      } else {
        assert l[i] in Around(l, i) && l[i] !in Around(l, j);
      }
    }
    assert UniqueEdges(ps);
    UniqueEdgesCard(ps);
    CyclePairsEdges(l);
    CycleSpec(l);
    CycleGraph(l).EdgeListIsEdges();
  }

  // ---------------------------------------------------------------- star

  /** The graph `star(hub, leaves)` returns: the hub, then each leaf and its edge to the hub. */
  function StarGraph<N(==,!new)>(hub: N, leaves: seq<N>): Graph<N>
    decreases |leaves|
  {
    if leaves == [] then Empty().AddNode(hub)
    else
      var last := leaves[|leaves| - 1];
      StarGraph(hub, leaves[..|leaves| - 1]).AddNode(last).AddEdge(hub, last)
  }

  /** `star(hub, leaves)`. */
  method Star<N(==,!new)>(hub: N, leaves: seq<N>) returns (g: MutableGraph<N>)
    ensures fresh(g) && g.Value() == StarGraph(hub, leaves)
  {
    g := new MutableGraph();
    g.AddNode(hub);
    for i := 0 to |leaves|
      invariant g.Value() == StarGraph(hub, leaves[..i])
    {
      g.AddNode(leaves[i]);
      g.AddEdge(hub, leaves[i]);
      assert leaves[..i + 1][..i] == leaves[..i];
    }
    assert leaves[..|leaves|] == leaves;
  }

  /** The edges from the hub to each leaf. */
  function Spokes<N(!new)>(hub: N, leaves: seq<N>): set<set<N>> {
    set x | x in leaves :: Pair(hub, x)
  }

  lemma SpokesLast<N(!new)>(hub: N, leaves: seq<N>)
    requires leaves != []
    ensures Spokes(hub, leaves) == Spokes(hub, leaves[..|leaves| - 1]) + {Pair(hub, leaves[|leaves| - 1])}
  {
    assert leaves == leaves[..|leaves| - 1] + [leaves[|leaves| - 1]];
  }

  /** The star is a valid graph whose edges join the hub to each leaf. */
  lemma {:induction false} StarSpec<N(!new)>(hub: N, leaves: seq<N>)
    ensures StarGraph(hub, leaves).Valid()
    ensures StarGraph(hub, leaves).Edges() == Spokes(hub, leaves)
    decreases |leaves|
  {
    if leaves == [] {
      Empty<N>().AddNodeSpec(hub);
    } else {
      var init, last := leaves[..|leaves| - 1], leaves[|leaves| - 1];
      StarSpec(hub, init);
      var h := StarGraph(hub, init);
      h.AddNodeSpec(last);
      h.AddNode(last).AddEdgeSpec(hub, last);
      SpokesLast(hub, leaves);
    }
  }

  /** The star's vertices are the hub and the leaves, even with no leaf. */
  lemma {:induction false} StarVertices<N(!new)>(hub: N, leaves: seq<N>)
    ensures StarGraph(hub, leaves).Vertices() == {hub} + Elements(leaves)
    decreases |leaves|
  {
    if leaves != [] {
      StarVertices(hub, leaves[..|leaves| - 1]);
      ElementsLast(leaves);
    }
  }

  /** The star's node order is the hub, then the leaves by first mention. */
  lemma {:induction false} StarNodes<N(!new)>(hub: N, leaves: seq<N>)
    ensures StarGraph(hub, leaves).nodes == AppendNew([hub], leaves)
    decreases |leaves|
  {
    if leaves == [] {
      assert AppendNew([], [hub]) == [hub];
    } else {
      var init, last := leaves[..|leaves| - 1], leaves[|leaves| - 1];
      var h := StarGraph(hub, init);
      StarNodes(hub, init);
      assert h.Valid() by {
        StarSpec(hub, init);
      }
      h.AddNodeSpec(last);
      h.AddNode(last).AddEdgeSpec(hub, last);
      AppendNewLast([hub], leaves);
      var r := AppendNew([hub], leaves);
      AppendNewSpec([hub], leaves);
      assert hub in Elements(r) && last in Elements(r);
      AppendNewPresent(r, [hub, last]);
    }
  }

  // ---------------------------------------------------------------- complete_k

  /** `range(0, n)`. */
  function Range(n: int): (r: seq<int>)
    ensures |r| == if n < 0 then 0 else n
    ensures forall i :: 0 <= i < |r| ==> r[i] == i
  {
    if n <= 0 then [] else seq(n, i => i)
  }

  /** The pairs `(i, j)` for `j in range(0, hi)` with `j != i`: one pass of the inner loop. */
  function RowPairs(i: int, hi: int): seq<(int, int)>
    decreases hi
  {
    if hi <= 0 then [] else RowPairs(i, hi - 1) + if i != hi - 1 then [(i, hi - 1)] else []
  }

  /** The pairs the nested loops of `complete_k(n)` add while `node < hi`. */
  function Rows(hi: int, n: int): seq<(int, int)>
    decreases hi
  {
    if hi <= 0 then [] else Rows(hi - 1, n) + RowPairs(hi - 1, n)
  }

  lemma {:induction false} RowPairsMem(i: int, hi: int, p: (int, int))
    ensures p in RowPairs(i, hi) <==> p.0 == i && 0 <= p.1 < hi && p.1 != i
    decreases hi
  {
    if hi > 0 {
      RowPairsMem(i, hi - 1, p);
    }
  }

  lemma {:induction false} RowsMem(hi: int, n: int, p: (int, int))
    ensures p in Rows(hi, n) <==> 0 <= p.0 < hi && 0 <= p.1 < n && p.0 != p.1
    decreases hi
  {
    if hi > 0 {
      RowsMem(hi - 1, n, p);
      RowPairsMem(hi - 1, n, p);
      assert p in Rows(hi, n) <==> p in Rows(hi - 1, n) || p in RowPairs(hi - 1, n);
    }
  }

  /** The graph `complete_k(n)` returns. */
  function CompleteGraph(n: int): Graph<int> {
    Empty().AddNodes(Range(n)).AddEdges(Rows(n, n))
  }

  /** One pass of the inner loop body: the pair `(node, neighbor)` is added unless the two are
      equal. */
  lemma InnerStep(base: Graph<int>, node: int, neighbor: nat, n: int)
    ensures node != neighbor ==>
      base.AddEdges(Rows(node, n) + RowPairs(node, neighbor + 1)) ==
      base.AddEdges(Rows(node, n) + RowPairs(node, neighbor)).AddEdge(node, neighbor)
    ensures node == neighbor ==>
      base.AddEdges(Rows(node, n) + RowPairs(node, neighbor + 1)) ==
      base.AddEdges(Rows(node, n) + RowPairs(node, neighbor))
  {
    var done := Rows(node, n) + RowPairs(node, neighbor);
    if node != neighbor {
      assert Rows(node, n) + RowPairs(node, neighbor + 1) == done + [(node, neighbor)];
      base.AddEdgesSnoc(done, (node, neighbor));
    } else {
      assert Rows(node, n) + RowPairs(node, neighbor + 1) == done;
    }
  }

  lemma OuterStep(node: nat, n: int)
    ensures Rows(node + 1, n) == Rows(node, n) + RowPairs(node, n)
    ensures Rows(node, n) + RowPairs(node, 0) == Rows(node, n)
  {
  }

  /** `complete_k(n)`. */
  method CompleteK(n: int) returns (g: MutableGraph<int>)
    ensures fresh(g) && g.Value() == CompleteGraph(n)
  {
    g := new MutableGraph();
    g.AddNodesFrom(Range(n));
    ghost var base := g.Value();
    assert base == Empty().AddNodes(Range(n));
    var m := if n < 0 then 0 else n;
    assert Rows(m, n) == Rows(n, n);
    for node := 0 to m
      invariant g.Value() == base.AddEdges(Rows(node, n))
    {
      OuterStep(node, n);
      for neighbor := 0 to n
        invariant g.Value() == base.AddEdges(Rows(node, n) + RowPairs(node, neighbor))
      {
        InnerStep(base, node, neighbor, n);
        if node != neighbor {
          g.AddEdge(node, neighbor);
        }
      }
    }
  }

  /** The pairs `(j, v)` for `0 <= j < v`. */
  function SpokePairs(v: int): (r: seq<(int, int)>)
    ensures |r| == if v < 0 then 0 else v
  {
    if v <= 0 then [] else seq(v, j => (j, v))
  }

  /** Every pair `(i, j)` with `0 <= i < j < n`, once. */
  function OrderedPairs(n: int): seq<(int, int)>
    decreases n
  {
    if n <= 0 then [] else OrderedPairs(n - 1) + SpokePairs(n - 1)
  }

  lemma {:induction false} OrderedPairsMem(n: int, p: (int, int))
    ensures p in OrderedPairs(n) <==> 0 <= p.0 < p.1 < n
    decreases n
  {
    if n > 0 {
      OrderedPairsMem(n - 1, p);
      if p.1 == n - 1 && 0 <= p.0 < n - 1 {
        assert SpokePairs(n - 1)[p.0] == p;
      }
    }
  }

  lemma AddTriangle(prev: int, total: int, n: int)
    requires 2 * prev == (n - 1) * (n - 2) && total == prev + (n - 1)
    ensures 2 * total == n * (n - 1)
  {
  }

  lemma {:induction false} OrderedPairsLength(n: nat)
    ensures 2 * |OrderedPairs(n)| == n * (n - 1)
  {
    if n > 0 {
      OrderedPairsLength(n - 1);
      AddTriangle(|OrderedPairs(n - 1)|, |OrderedPairs(n)|, n);
    }
  }

  lemma {:induction false} OrderedPairsUnique(n: nat)
    ensures UniqueEdges(OrderedPairs(n))
  {
    if n > 0 {
      OrderedPairsUnique(n - 1);
      var sp := SpokePairs(n - 1);
      forall i, j | 0 <= i < j < |sp| ensures Pair(sp[i].0, sp[i].1) != Pair(sp[j].0, sp[j].1) {
        assert sp[i].0 in Pair(sp[i].0, sp[i].1) && sp[i].0 !in Pair(sp[j].0, sp[j].1);
      }
      forall x, y | x in OrderedPairs(n - 1) && y in sp ensures Pair(x.0, x.1) != Pair(y.0, y.1) {
        OrderedPairsMem(n - 1, x);
        assert y.1 in Pair(y.0, y.1) && y.1 !in Pair(x.0, x.1);
      }
      ConcatUnique(OrderedPairs(n - 1), sp);
    }
  }

  /** The complete graph's edges are the pairs of distinct vertices below `n`. */
  lemma CompleteEdgeSet(n: int)
    ensures EdgeSetOf(Rows(n, n)) == EdgeSetOf(OrderedPairs(n))
  {
    forall e | e in EdgeSetOf(Rows(n, n)) ensures e in EdgeSetOf(OrderedPairs(n)) {
      var p :| p in Rows(n, n) && e == Pair(p.0, p.1);
      RowsMem(n, n, p);
      if p.0 < p.1 {
        OrderedPairsMem(n, p);
      } else {
        OrderedPairsMem(n, (p.1, p.0));
        assert e == Pair(p.1, p.0);
      }
    }
    forall e | e in EdgeSetOf(OrderedPairs(n)) ensures e in EdgeSetOf(Rows(n, n)) {
      var p :| p in OrderedPairs(n) && e == Pair(p.0, p.1);
      OrderedPairsMem(n, p);
      RowsMem(n, n, p);
    }
  }

  /** The graph before the loops: the vertices `0 .. n - 1`, in order, and no edge. */
  lemma CompleteBase(n: int)
    ensures Empty<int>().AddNodes(Range(n)).Valid()
    ensures Empty<int>().AddNodes(Range(n)).nodes == Range(n)
    ensures Empty<int>().AddNodes(Range(n)).Edges() == {}
  {
    Empty<int>().AddNodesSpec(Range(n));
    AppendNewDistinct(Range(n));
  }

  /** `complete_k(n)` is a valid graph whose vertices are `0 .. n - 1`, in that order. */
  lemma CompleteSpec(n: int)
    ensures CompleteGraph(n).Valid()
    ensures CompleteGraph(n).nodes == Range(n)
  {
    var h := Empty<int>().AddNodes(Range(n));
    CompleteBase(n);
    assert CompleteGraph(n).Valid() by {
      h.AddEdgesSpec(Rows(n, n));
    }
    h.AddEdgesNodes(Rows(n, n));
    var r := Range(n);
    var ends := Endpoints(Rows(n, n));
    forall x | x in ends ensures x in r {
      var p := EndpointOf(Rows(n, n), x);
      RowsMem(n, n, p);
      assert r[x] == x;
    }
    AppendNewPresent(r, ends);
  }

  /** The edges of `complete_k(n)` are the pairs the loops add. */
  lemma CompleteEdges(n: int)
    ensures CompleteGraph(n).Valid()
    ensures CompleteGraph(n).Edges() == EdgeSetOf(Rows(n, n))
  {
    CompleteBase(n);
    Empty<int>().AddNodes(Range(n)).AddEdgesSpec(Rows(n, n));
  }

  /** The loops add an edge between `i` and `j` exactly when the two differ. */
  lemma RowsPair(n: int, i: int, j: int)
    requires 0 <= i < n && 0 <= j < n
    ensures Pair(i, j) in EdgeSetOf(Rows(n, n)) <==> i != j
  {
    RowsMem(n, n, (i, j));
    forall p | p in Rows(n, n) && i == j ensures Pair(p.0, p.1) != Pair(i, j) {
      RowsMem(n, n, p);
      assert p.0 in Pair(p.0, p.1) && p.1 in Pair(p.0, p.1) && p.0 != p.1;
    }
  }

  /** In `complete_k(n)` every two distinct vertices are adjacent and no vertex has a
      self-loop. */
  lemma CompleteAdjacency(n: int, i: int, j: int)
    requires 0 <= i < n && 0 <= j < n
    ensures j in CompleteGraph(n).Neighbors(i) <==> i != j
  {
    CompleteEdges(n);
    CompleteGraph(n).NeighborsAreEdges(i, j);
    RowsPair(n, i, j);
  }

  /** `complete_k(n)` has n(n - 1)/2 edges. */
  lemma CompleteEdgeCount(n: nat)
    ensures 2 * |CompleteGraph(n).Edges()| == n * (n - 1)
    ensures 2 * CompleteGraph(n).NumberOfEdges() == n * (n - 1)
  {
    var g := CompleteGraph(n);
    CompleteEdges(n);
    CompleteEdgeSet(n);
    OrderedPairsUnique(n);
    UniqueEdgesCard(OrderedPairs(n));
    OrderedPairsLength(n);
    g.EdgeListIsEdges();
  }
}
