/**
 * The undirected graph of the networkx library, as far as the repository's scripts use it.
 *
 * networkx stores a graph as a dictionary from each node to the dictionary of its neighbours.
 * Python dictionaries remember insertion order, so a graph has a node order (the order in
 * which nodes were first added) and, per node, a neighbour order (the order in which edges
 * to that node were first added). Both orders are observable: `G.nodes()`, `G.neighbors(v)`
 * and `G.edges()` report in them. `Graph` is the value of such a graph; `MutableGraph` is the
 * object that `add_node` and `add_edge` change in place.
 */
module Graphs {
  import opened Counting

  /** The unordered pair {a, b}: an undirected edge, or a self-loop when a == b. */
  function Pair<N(==,!new)>(a: N, b: N): set<N> {
    {a, b}
  }

  /** The undirected edges named by a list of endpoint pairs. */
  function EdgeSetOf<N(==,!new)>(es: seq<(N, N)>): set<set<N>> {
    set e | e in es :: Pair(e.0, e.1)
  }

  /** The endpoints of a list of pairs, in the order `add_edges_from` meets them. */
  function Endpoints<N(==,!new)>(es: seq<(N, N)>): (r: seq<N>)
    ensures |r| == 2 * |es|
  {
    if es == [] then [] else Endpoints(es[..|es| - 1]) + [es[|es| - 1].0, es[|es| - 1].1]
  }

  /** An edge of `es` that `x` is an endpoint of. */
  lemma {:induction false} EndpointOf<N(!new)>(es: seq<(N, N)>, x: N) returns (e: (N, N))
    requires x in Endpoints(es)
    ensures e in es && (x == e.0 || x == e.1)
    decreases |es|
  {
    var init, last := es[..|es| - 1], es[|es| - 1];
    if x in Endpoints(init) {
      e := EndpointOf(init, x);
      assert es[..|es| - 1] == init;
    } else {
      e := last;
    }
  }

  lemma ElementsConcat<T>(a: seq<T>, b: seq<T>)
    ensures Elements(a + b) == Elements(a) + Elements(b)
  {
  }

  lemma ElementsLast<T>(a: seq<T>)
    requires a != []
    ensures Elements(a) == Elements(a[..|a| - 1]) + {a[|a| - 1]}
  {
    assert a == a[..|a| - 1] + [a[|a| - 1]];
    ElementsConcat(a[..|a| - 1], [a[|a| - 1]]);
  }

  /** `ns` extended, in order, by the elements of `vs` it does not hold yet: the node list after
      adding the nodes `vs` one by one. */
  function AppendNew<N(==,!new)>(ns: seq<N>, vs: seq<N>): seq<N>
  {
    if vs == [] then ns
    else
      var p := AppendNew(ns, vs[..|vs| - 1]);
      if vs[|vs| - 1] in p then p else p + [vs[|vs| - 1]]
  }

  /** The extended list starts with `ns`, holds exactly the elements of `ns` and `vs`, and has
      no repeats when `ns` has none. */
  lemma {:induction false} AppendNewSpec<N(!new)>(ns: seq<N>, vs: seq<N>)
    ensures |ns| <= |AppendNew(ns, vs)| && AppendNew(ns, vs)[..|ns|] == ns
    ensures Elements(AppendNew(ns, vs)) == Elements(ns) + Elements(vs)
    ensures NoDup(ns) ==> NoDup(AppendNew(ns, vs))
    decreases |vs|
  {
    if vs != [] {
      var p := AppendNew(ns, vs[..|vs| - 1]);
      AppendNewSpec(ns, vs[..|vs| - 1]);
      ElementsLast(vs);
      assert Elements(p + [vs[|vs| - 1]]) == Elements(p) + {vs[|vs| - 1]};
      assert (p + [vs[|vs| - 1]])[..|ns|] == p[..|ns|];
    }
  }

  lemma {:induction false} AppendNewConcat<N(!new)>(ns: seq<N>, a: seq<N>, b: seq<N>)
    ensures AppendNew(ns, a + b) == AppendNew(AppendNew(ns, a), b)
    decreases |b|
  {
    if b == [] {
      assert a + b == a;
    } else {
      assert (a + b)[..|a + b| - 1] == a + b[..|b| - 1];
      AppendNewConcat(ns, a, b[..|b| - 1]);
    }
  }

  lemma AppendNewLast<N(!new)>(ns: seq<N>, vs: seq<N>)
    requires vs != []
    ensures AppendNew(ns, vs) == AppendNew(AppendNew(ns, vs[..|vs| - 1]), [vs[|vs| - 1]])
  {
    assert [vs[|vs| - 1]][..0] == [];
  }

  /** A list without repeats, added to an empty list, comes out unchanged. */
  lemma {:induction false} AppendNewDistinct<N(!new)>(vs: seq<N>)
    requires NoDup(vs)
    ensures AppendNew([], vs) == vs
    decreases |vs|
  {
    if vs != [] {
      var init := vs[..|vs| - 1];
      AppendNewDistinct(init);
      assert vs[|vs| - 1] !in init;
      assert init + [vs[|vs| - 1]] == vs;
    }
  }

  /** Appending elements that are all present changes nothing. */
  lemma {:induction false} AppendNewPresent<N(!new)>(ns: seq<N>, vs: seq<N>)
    requires forall x :: x in vs ==> x in ns
    ensures AppendNew(ns, vs) == ns
    decreases |vs|
  {
    if vs != [] {
      AppendNewPresent(ns, vs[..|vs| - 1]);
      assert vs[|vs| - 1] in vs;
    }
  }

  /** No two entries of `es` name the same undirected edge. */
  predicate UniqueEdges<N(==,!new)>(es: seq<(N, N)>) {
    forall i, j :: 0 <= i < j < |es| ==> Pair(es[i].0, es[i].1) != Pair(es[j].0, es[j].1)
  }

  lemma EdgeSetOfLast<N(!new)>(es: seq<(N, N)>)
    requires es != []
    ensures EdgeSetOf(es) == EdgeSetOf(es[..|es| - 1]) + {Pair(es[|es| - 1].0, es[|es| - 1].1)}
  {
    var init, x := es[..|es| - 1], es[|es| - 1];
    assert es == init + [x];
    var l, r := EdgeSetOf(es), EdgeSetOf(init) + {Pair(x.0, x.1)};
    forall e | e in l ensures e in r {
      var p :| p in es && e == Pair(p.0, p.1);
    }
    forall e | e in r ensures e in l {
      if e != Pair(x.0, x.1) {
        var p :| p in init && e == Pair(p.0, p.1);
        assert p in es;
      } else {
        assert x in es;
      }
    }
  }

  /** A list that names each undirected edge once has one entry per edge. */
  lemma {:induction false} UniqueEdgesCard<N(!new)>(es: seq<(N, N)>)
    requires UniqueEdges(es)
    ensures |EdgeSetOf(es)| == |es|
  {
    if es != [] {
      var init, last := es[..|es| - 1], es[|es| - 1];
      assert UniqueEdges(init) by {
        forall i, j | 0 <= i < j < |init| ensures Pair(init[i].0, init[i].1) != Pair(init[j].0, init[j].1) {
          assert init[i] == es[i] && init[j] == es[j];
        }
      }
      UniqueEdgesCard(init);
      EdgeSetOfLast(es);
      forall p | p in init ensures Pair(p.0, p.1) != Pair(last.0, last.1) {
        var i :| 0 <= i < |init| && init[i] == p;
        assert es[i] == p && es[|es| - 1] == last;
      }
    }
  }

  /** `[(v, w) for w in ws if w not in seen]`: the part of `G.edges()` that node `v` reports. */
  function Later<N(==,!new)>(v: N, ws: seq<N>, seen: seq<N>): seq<(N, N)>
  {
    if ws == [] then []
    else
      var rest := Later(v, ws[1..], seen);
      if ws[0] in seen then rest else [(v, ws[0])] + rest
  }

  lemma {:induction false} LaterSpec<N(!new)>(v: N, ws: seq<N>, seen: seq<N>)
    ensures forall e :: e in Later(v, ws, seen) <==> e.0 == v && e.1 in ws && e.1 !in seen
    ensures NoDup(ws) ==> UniqueEdges(Later(v, ws, seen))
  {
    if ws != [] {
      LaterSpec(v, ws[1..], seen);
      assert ws == [ws[0]] + ws[1..];
      assert NoDup(ws) ==> NoDup(ws[1..]) && ws[0] !in ws[1..];
    }
  }

  /** An undirected graph: nodes in insertion order and, per node, its neighbours in the order
      the edges to it were added. */
  datatype Graph<N(==,!new)> = Graph(nodes: seq<N>, adj: map<N, seq<N>>)
  {
    /** The shape networkx maintains: every node once, the adjacency dictionary keyed by exactly
        the nodes, neighbour lists without repeats, and every edge recorded at both ends. */
    ghost predicate Valid() {
      && NoDup(nodes)
      && (forall v :: v in adj <==> v in nodes)
      && (forall v :: v in adj ==> NoDup(adj[v]))
      && (forall v, w :: v in adj && w in adj[v] ==> w in adj && v in adj[w])
    }

    function Vertices(): set<N> {
      adj.Keys
    }

    /** `G.neighbors(v)`, in neighbour order (empty for a node the graph does not have). */
    function Neighbors(v: N): seq<N> {
      if v in adj then adj[v] else []
    }

    /** The undirected edges, as unordered pairs. */
    function Edges(): set<set<N>> {
      set v, w | v in adj && w in adj[v] :: Pair(v, w)
    }

    /** `G.add_node(v)`: a node that is already present is left where it is. */
    function AddNode(v: N): (g: Graph<N>)
      ensures g.adj.Keys == adj.Keys + {v}
    {
      if v in adj then this else Graph(nodes + [v], adj[v := []])
    }

    /** Record `w` as a neighbour of `v` unless it already is one. */
    function Link(v: N, w: N): (g: Graph<N>)
      requires v in adj
      ensures g.nodes == nodes && g.adj.Keys == adj.Keys
    {
      if w in adj[v] then this else Graph(nodes, adj[v := adj[v] + [w]])
    }

    /** `G.add_edge(u, v)`: adds the missing endpoints, then records each end at the other. */
    function AddEdge(u: N, v: N): (g: Graph<N>)
      ensures g.adj.Keys == adj.Keys + {u, v}
    {
      var h := AddNode(u).AddNode(v);
      h.Link(u, v).Link(v, u)
    }

    /** `G.add_nodes_from(vs)`: `add_node` for each element in turn. */
    function AddNodes(vs: seq<N>): Graph<N>
      decreases |vs|
    {
      if vs == [] then this else AddNodes(vs[..|vs| - 1]).AddNode(vs[|vs| - 1])
    }

    /** `G.add_edges_from(es)`: `add_edge` for each pair in turn. */
    function AddEdges(es: seq<(N, N)>): Graph<N>
      decreases |es|
    {
      if es == [] then this else AddEdges(es[..|es| - 1]).AddEdge(es[|es| - 1].0, es[|es| - 1].1)
    }

    /** Adding a node keeps the graph well formed, appends the node to the node order if it
        is new, and changes no adjacency list and no edge. */
    lemma AddNodeSpec(v: N)
      requires Valid()
      ensures AddNode(v).Valid()
      ensures AddNode(v).nodes == AppendNew(nodes, [v])
      ensures AddNode(v).Vertices() == Vertices() + {v}
      ensures AddNode(v).Edges() == Edges()
      ensures forall u :: u in adj ==> AddNode(v).adj[u] == adj[u]
    {
      assert [v][..0] == [];
      if v !in adj {
        var g := AddNode(v);
        forall e | e in g.Edges() ensures e in Edges() {
          var a, b :| a in g.adj && b in g.adj[a] && e == Pair(a, b);
        }
      }
    }

    lemma LinkSpec(v: N, w: N)
      requires v in adj
      ensures Link(v, w).Edges() == Edges() + {Pair(v, w)}
      ensures w in Link(v, w).adj[v]
      ensures forall x, y :: x in adj && y in adj[x] ==> y in Link(v, w).adj[x]
      ensures forall x, y :: x in adj && y in Link(v, w).adj[x] ==> y in adj[x] || (x == v && y == w)
      ensures forall x :: x in adj && NoDup(adj[x]) ==> NoDup(Link(v, w).adj[x])
    {
      var g := Link(v, w);
      if w in adj[v] {
        assert Pair(v, w) in Edges();
      } else {
        forall e | e in g.Edges() ensures e in Edges() + {Pair(v, w)} {
          var a, b :| a in g.adj && b in g.adj[a] && e == Pair(a, b);
          if a == v && b !in adj[v] {
            assert b == w;
          }
        }
        assert w in g.adj[v];
      }
    }

    /** Both directions of an edge between two present nodes, as `add_edge` records them. */
    static lemma LinkBoth(h: Graph<N>, u: N, v: N)
      requires h.Valid() && u in h.adj && v in h.adj
      ensures h.Link(u, v).Link(v, u).Valid()
      ensures h.Link(u, v).Link(v, u).Edges() == h.Edges() + {Pair(u, v)}
    {
      var h1 := h.Link(u, v);
      var g := h1.Link(v, u);
      h.LinkSpec(u, v);
      h1.LinkSpec(v, u);
      assert Pair(v, u) == Pair(u, v);
      forall x, y | x in g.adj && y in g.adj[x] ensures y in g.adj && x in g.adj[y] {
        if y in h.adj[x] {
          assert x in h.adj[y];
          assert x in h1.adj[y];
        }
      }
    }

    /** Adding an edge keeps the graph well formed, appends its new endpoints to the node order
        (u first), and adds exactly the edge {u, v}. */
    lemma AddEdgeSpec(u: N, v: N)
      requires Valid()
      ensures AddEdge(u, v).Valid()
      ensures AddEdge(u, v).nodes == AppendNew(nodes, [u, v])
      ensures AddEdge(u, v).Vertices() == Vertices() + {u, v}
      ensures AddEdge(u, v).Edges() == Edges() + {Pair(u, v)}
    {
      var h0 := AddNode(u);
      var h := h0.AddNode(v);
      AddNodeSpec(u);
      h0.AddNodeSpec(v);
      AppendNewConcat(nodes, [u], [v]);
      assert [u] + [v] == [u, v];
      LinkBoth(h, u, v);
    }

    /** `add_nodes_from` keeps the graph well formed, appends the new nodes in order of first
        occurrence, and adds no edge. */
    lemma {:induction false} AddNodesSpec(vs: seq<N>)
      requires Valid()
      ensures AddNodes(vs).Valid()
      ensures AddNodes(vs).nodes == AppendNew(nodes, vs)
      ensures AddNodes(vs).Vertices() == Vertices() + Elements(vs)
      ensures AddNodes(vs).Edges() == Edges()
      decreases |vs|
    {
      if vs != [] {
        var init, last := vs[..|vs| - 1], vs[|vs| - 1];
        var h := AddNodes(init);
        AddNodesSpec(init);
        h.AddNodeSpec(last);
        ElementsLast(vs);
        AppendNewLast(nodes, vs);
      }
    }

    /** `add_edges_from` keeps the graph well formed and adds exactly the listed edges. */
    lemma {:induction false} AddEdgesSpec(es: seq<(N, N)>)
      requires Valid()
      ensures AddEdges(es).Valid()
      ensures AddEdges(es).Edges() == Edges() + EdgeSetOf(es)
      decreases |es|
    {
      if es != [] {
        var init, last := es[..|es| - 1], es[|es| - 1];
        var h := AddEdges(init);
        AddEdgesSpec(init);
        h.AddEdgeSpec(last.0, last.1);
        EdgeSetOfLast(es);
      }
    }

    /** `add_edges_from` appends the endpoints not yet present to the node order, in the order
        they are met. */
    lemma {:induction false} AddEdgesNodes(es: seq<(N, N)>)
      requires Valid()
      ensures AddEdges(es).nodes == AppendNew(nodes, Endpoints(es))
      decreases |es|
    {
      if es != [] {
        var init, last := es[..|es| - 1], es[|es| - 1];
        var h := AddEdges(init);
        AddEdgesNodes(init);
        assert h.Valid() by {
          AddEdgesSpec(init);
        }
        h.AddEdgeSpec(last.0, last.1);
        assert Endpoints(es) == Endpoints(init) + [last.0, last.1];
        AppendNewConcat(nodes, Endpoints(init), [last.0, last.1]);
      }
    }

    /** `add_nodes_from` adds exactly the listed vertices. */
    lemma {:induction false} AddNodesVertices(vs: seq<N>)
      ensures AddNodes(vs).Vertices() == Vertices() + Elements(vs)
      decreases |vs|
    {
      if vs != [] {
        AddNodesVertices(vs[..|vs| - 1]);
        ElementsLast(vs);
      }
    }

    /** `add_edges_from` adds every endpoint as a vertex, and no other vertex. */
    lemma {:induction false} AddEdgesVertices(es: seq<(N, N)>)
      ensures AddEdges(es).Vertices() == Vertices() + Elements(Endpoints(es))
      decreases |es|
    {
      if es != [] {
        var init, last := es[..|es| - 1], es[|es| - 1];
        AddEdgesVertices(init);
        assert Endpoints(es) == Endpoints(init) + [last.0, last.1];
        ElementsConcat(Endpoints(init), [last.0, last.1]);
      }
    }

    /** Adding the pairs of `a + b` is adding those of `a`, then those of `b`. */
    lemma {:induction false} AddEdgesConcat(a: seq<(N, N)>, b: seq<(N, N)>)
      ensures AddEdges(a + b) == AddEdges(a).AddEdges(b)
      decreases |b|
    {
      if b == [] {
        assert a + b == a;
      } else {
        assert (a + b)[..|a + b| - 1] == a + b[..|b| - 1];
        AddEdgesConcat(a, b[..|b| - 1]);
      }
    }

    lemma AddEdgesSnoc(es: seq<(N, N)>, e: (N, N))
      ensures AddEdges(es + [e]) == AddEdges(es).AddEdge(e.0, e.1)
    {
      assert (es + [e])[..|es|] == es;
    }

    /** Adding the first `i + 1` pairs is adding the first `i`, then pair `i`. */
    lemma AddEdgesStep(es: seq<(N, N)>, i: nat)
      requires i < |es|
      ensures AddEdges(es[..i + 1]) == AddEdges(es[..i]).AddEdge(es[i].0, es[i].1)
    {
      assert es[..i + 1][..i] == es[..i];
    }

    lemma AddNodesStep(vs: seq<N>, i: nat)
      requires i < |vs|
      ensures AddNodes(vs[..i + 1]) == AddNodes(vs[..i]).AddNode(vs[i])
    {
      assert vs[..i + 1][..i] == vs[..i];
    }

    /** In a valid graph the node list holds exactly the vertices. */
    lemma NodesAreVertices()
      requires Valid()
      ensures Elements(nodes) == Vertices()
    {
    }

    /** `G.degree(v)`: a self-loop counts twice. */
    function Degree(v: N): nat {
      |Neighbors(v)| + if v in Neighbors(v) then 1 else 0
    }

    /** The edges reported by nodes `nodes[i..]`: `G.edges()` lists, node by node in node
        order, the pairs (v, w) for the neighbours w of v that come no earlier than v. */
    function EdgesFrom(i: nat): seq<(N, N)>
      decreases |nodes| - i
    {
      if i >= |nodes| then []
      else Later(nodes[i], Neighbors(nodes[i]), nodes[..i]) + EdgesFrom(i + 1)
    }

    /** Node `nodes[j]` reports the pair `e`. */
    ghost predicate ReportedAt(j: int, e: (N, N)) {
      0 <= j < |nodes| && e.0 == nodes[j] && e.1 in Neighbors(nodes[j]) && e.1 !in nodes[..j]
    }

    lemma {:induction false} EdgesFromSpec(i: nat, e: (N, N))
      ensures e in EdgesFrom(i) <==> exists j :: i <= j && ReportedAt(j, e)
      decreases |nodes| - i
    {
      if i < |nodes| {
        EdgesFromSpec(i + 1, e);
        LaterSpec(nodes[i], Neighbors(nodes[i]), nodes[..i]);
        if e in Later(nodes[i], Neighbors(nodes[i]), nodes[..i]) {
          assert ReportedAt(i, e);
        }
        if exists j :: i <= j && ReportedAt(j, e) {
          var j :| i <= j && ReportedAt(j, e);
          if j > i {
            assert i + 1 <= j;
          }
        }
      }
    }

    /** A pair reported by a node of a valid graph is an edge between two vertices. */
    lemma ReportedEdge(j: int, e: (N, N))
      requires Valid() && ReportedAt(j, e)
      ensures e.0 in adj && e.1 in adj && Pair(e.0, e.1) in Edges()
    {
      assert e.0 == nodes[j] && nodes[j] in nodes;
      assert e.1 in adj[e.0];
    }

    /** The node that reports a pair of the edge list. */
    lemma ReporterOf(e: (N, N)) returns (j: int)
      requires e in EdgeList()
      ensures ReportedAt(j, e)
    {
      EdgesFromSpec(0, e);
      j :| 0 <= j && ReportedAt(j, e);
    }

    /** Every reported pair is an edge between two vertices. */
    lemma EdgeListMem(e: (N, N))
      requires Valid() && e in EdgeList()
      ensures e.0 in adj && e.1 in adj && Pair(e.0, e.1) in Edges()
    {
      var j := ReporterOf(e);
      ReportedEdge(j, e);
    }

    /** `list(G.edges())`. */
    function EdgeList(): seq<(N, N)> {
      EdgesFrom(0)
    }

    /** `G.number_of_edges()`. */
    function NumberOfEdges(): nat {
      |EdgeList()|
    }

    /** No endpoint of an edge reported by `nodes[i..]` is one of `nodes[..i]`. */
    lemma {:induction false} EdgesFromLate(i: nat, e: (N, N))
      requires Valid()
      requires e in EdgesFrom(i)
      ensures e.0 !in nodes[..i] && e.1 !in nodes[..i]
    {
      EdgesFromSpec(i, e);
      var j :| i <= j && ReportedAt(j, e);
      assert e.1 !in nodes[..i] by {
        assert forall x :: x in nodes[..i] ==> x in nodes[..j];
      }
      forall k | 0 <= k < i ensures nodes[k] != e.0 {
        assert nodes[k] != nodes[j];
      }
    }

    lemma {:induction false} EdgesFromUnique(i: nat)
      requires Valid()
      ensures UniqueEdges(EdgesFrom(i))
      decreases |nodes| - i
    {
      if i < |nodes| {
        var block := Later(nodes[i], Neighbors(nodes[i]), nodes[..i]);
        var rest := EdgesFrom(i + 1);
        EdgesFromUnique(i + 1);
        assert NoDup(Neighbors(nodes[i]));
        LaterSpec(nodes[i], Neighbors(nodes[i]), nodes[..i]);
        forall x, y | x in block && y in rest ensures Pair(x.0, x.1) != Pair(y.0, y.1) {
          EdgesFromLate(i + 1, y);
          assert nodes[i] in nodes[..i + 1];
          assert x.0 in Pair(x.0, x.1);
        }
        ConcatUnique(block, rest);
      }
    }

    /** `G.edges()` names every undirected edge exactly once: as a set it is `Edges()`, and no
        two of its entries are the same edge. */
    lemma EdgeListIsEdges()
      requires Valid()
      ensures EdgeSetOf(EdgeList()) == Edges()
      ensures UniqueEdges(EdgeList())
      ensures NumberOfEdges() == |Edges()|
    {
      EdgesFromUnique(0);
      UniqueEdgesCard(EdgeList());
      forall e | e in EdgeSetOf(EdgeList()) ensures e in Edges() {
        var p :| p in EdgeList() && e == Pair(p.0, p.1);
        EdgesFromSpec(0, p);
        var j :| 0 <= j && ReportedAt(j, p);
      }
      forall e | e in Edges() ensures e in EdgeSetOf(EdgeList()) {
        var a, b :| a in adj && b in adj[a] && e == Pair(a, b);
        var ia :| 0 <= ia < |nodes| && nodes[ia] == a;
        assert b in adj;
        var ib :| 0 <= ib < |nodes| && nodes[ib] == b;
        if ia <= ib {
          assert b !in nodes[..ia];
          assert ReportedAt(ia, (a, b));
          EdgesFromSpec(0, (a, b));
        } else {
          assert a !in nodes[..ib];
          assert ReportedAt(ib, (b, a));
          EdgesFromSpec(0, (b, a));
          assert Pair(b, a) == e;
        }
      }
    }

    /** In a valid graph, `w` is a neighbour of `v` exactly when {v, w} is an edge. */
    lemma NeighborsAreEdges(v: N, w: N)
      requires Valid()
      ensures w in Neighbors(v) <==> Pair(v, w) in Edges()
    {
      if Pair(v, w) in Edges() {
        var a, b :| a in adj && b in adj[a] && Pair(v, w) == Pair(a, b);
        assert v in Pair(a, b) && w in Pair(a, b) && a in Pair(v, w) && b in Pair(v, w);
      }
    }
  }

  lemma ConcatUnique<N(!new)>(a: seq<(N, N)>, b: seq<(N, N)>)
    requires UniqueEdges(a) && UniqueEdges(b)
    requires forall x, y :: x in a && y in b ==> Pair(x.0, x.1) != Pair(y.0, y.1)
    ensures UniqueEdges(a + b)
  {
    var c := a + b;
    forall i, j | 0 <= i < j < |c| ensures Pair(c[i].0, c[i].1) != Pair(c[j].0, c[j].1) {
      if j < |a| {
        assert c[i] == a[i] && c[j] == a[j];
      } else if i >= |a| {
        assert c[i] == b[i - |a|] && c[j] == b[j - |a|];
      } else {
        assert c[i] in a && c[j] in b;
      }
    }
  }

  /** A networkx `Graph` object, changed in place by `add_node`, `add_edge`,
      `add_nodes_from` and `add_edges_from`. Each method leaves the graph that the corresponding
      `Graph` function computes from the old one, so the lemmas about those functions (validity
      kept, vertices and edges added) carry over to the object. */
  class MutableGraph<N(==,!new)> {
    var nodes: seq<N>
    var adj: map<N, seq<N>>

    /** The graph the object currently holds. */
    function Value(): Graph<N>
      reads this
    {
      Graph(nodes, adj)
    }

    /** `nx.Graph()`: the empty graph. */
    constructor ()
      ensures Value() == Graph([], map[])
    {
      nodes := [];
      adj := map[];
    }

    method AddNode(v: N)
      modifies this
      ensures Value() == old(Value()).AddNode(v)
    {
      if v !in adj {
        nodes := nodes + [v];
        adj := adj[v := []];
      }
    }

    /** Record `w` as a neighbour of `v` unless it already is one: one half of `add_edge`. */
    method Link(v: N, w: N)
      requires v in adj
      modifies this
      ensures Value() == old(Value()).Link(v, w)
    {
      if w !in adj[v] {
        adj := adj[v := adj[v] + [w]];
      }
    }

    method AddEdge(u: N, v: N)
      modifies this
      ensures Value() == old(Value()).AddEdge(u, v)
    {
      AddNode(u);
      AddNode(v);
      Link(u, v);
      Link(v, u);
    }

    method AddNodesFrom(vs: seq<N>)
      modifies this
      ensures Value() == old(Value()).AddNodes(vs)
    {
      for i := 0 to |vs|
        invariant Value() == old(Value()).AddNodes(vs[..i])
      {
        old(Value()).AddNodesStep(vs, i);
        AddNode(vs[i]);
      }
      assert vs[..|vs|] == vs;
    }

    method AddEdgesFrom(es: seq<(N, N)>)
      modifies this
      ensures Value() == old(Value()).AddEdges(es)
    {
      for i := 0 to |es|
        invariant Value() == old(Value()).AddEdges(es[..i])
      {
        old(Value()).AddEdgesStep(es, i);
        AddEdge(es[i].0, es[i].1);
      }
      assert es[..|es|] == es;
    }
  }
}
