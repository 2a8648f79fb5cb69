/**
 * The labelling front ends of CP.py: `graceful`, `sigmapm` and `labeling_1_to_k` state
 * integer constraint systems over vertex labels and hand them to a solver, then copy the
 * graph, attach the solver's labels as the node attribute `label` and rename every node
 * to its label.
 *
 * The solver is an oracle passed in as a parameter: either no model, or a model that
 * satisfies the constraints. Node names are integers here, which is what the labels are.
 */
module Labeling {
  import opened Wrappers
  import opened Counting
  import opened Graphs

  /** The ways the front ends raise instead of returning. */
  datatype Error =
    | NonBipartite   // `sigmapm`'s ValueError for a component that is not bipartite
    | EmptyDistinct  // z3's `Distinct()` with no argument, for a graph without nodes
    | ZeroDivision   // `% (2 * m)` with m = 0 in `labeling_1_to_k`

  datatype Result<T> = Ok(value: T) | Err(error: Error)

  function Abs(x: int): nat {
    if x < 0 then -x else x
  }

  /** A graph whose nodes may carry an integer `label` attribute. Edges are unordered pairs;
      the order of each node's neighbours is not kept. */
  datatype LabeledGraph = LabeledGraph(nodes: seq<int>, edges: set<set<int>>, labels: map<int, int>)

  /** The two endpoints of an unordered pair are determined up to order, so is their
      distance. */
  lemma PairAbs(a: int, b: int, x: int, y: int)
    requires Pair(a, b) == Pair(x, y)
    ensures Abs(a - b) == Abs(x - y)
  {
    assert a in Pair(x, y) && b in Pair(x, y);
    assert x in Pair(a, b) && y in Pair(a, b);
  }

  // ---------------------------------------------------------------- rename_nodes_by_labels

  /** `graph.nodes[v].get("label", v)`. */
  function NewName(labels: map<int, int>, v: int): int {
    if v in labels then labels[v] else v
  }

  function MapNames(labels: map<int, int>, vs: seq<int>): seq<int> {
    seq(|vs|, i requires 0 <= i < |vs| => NewName(labels, vs[i]))
  }

  function RenamedEdge(labels: map<int, int>, e: set<int>): set<int> {
    set x | x in e :: NewName(labels, x)
  }

  /** The node attributes after `relabel_nodes`: each new node takes the attributes of the last
      node, in node order, that was renamed to it. */
  function RenamedLabels(nodes: seq<int>, labels: map<int, int>): map<int, int>
    decreases |nodes|
  {
    if nodes == [] then map[]
    else
      var m := RenamedLabels(nodes[..|nodes| - 1], labels);
      var v := nodes[|nodes| - 1];
      if v in labels then m[labels[v] := labels[v]] else m - {v}
  }

  /** `rename_nodes_by_labels(graph)`: `nx.relabel_nodes` with the mapping from each node to
      its label, or to itself when it has none. Nodes renamed alike merge. */
  function Rename(h: LabeledGraph): (r: LabeledGraph)
    ensures NoDup(r.nodes) && Elements(r.nodes) == Elements(MapNames(h.labels, h.nodes))
    ensures forall w :: w in r.labels ==> r.labels[w] == w
    ensures r.labels.Keys <= Elements(r.nodes)
  {
    AppendNewSpec([], MapNames(h.labels, h.nodes));
    RenamedLabelsSpec(h.nodes, h.labels);
    LabeledGraph(
      AppendNew([], MapNames(h.labels, h.nodes)),
      set e | e in h.edges :: RenamedEdge(h.labels, e),
      RenamedLabels(h.nodes, h.labels))
  }

  lemma RenamedPair(labels: map<int, int>, a: int, b: int)
    ensures RenamedEdge(labels, Pair(a, b)) == Pair(NewName(labels, a), NewName(labels, b))
  {
  }

  /** After renaming, a node that carries a label is named by it, and every labelled node is
      one of the new names. */
  lemma {:induction false} RenamedLabelsSpec(nodes: seq<int>, labels: map<int, int>)
    ensures forall w :: w in RenamedLabels(nodes, labels) ==> RenamedLabels(nodes, labels)[w] == w
    ensures RenamedLabels(nodes, labels).Keys <= Elements(MapNames(labels, nodes))
    ensures (forall v :: v in nodes ==> v in labels) ==>
      RenamedLabels(nodes, labels).Keys == Elements(MapNames(labels, nodes))
    decreases |nodes|
  {
    if nodes != [] {
      var init, v := nodes[..|nodes| - 1], nodes[|nodes| - 1];
      RenamedLabelsSpec(init, labels);
      assert MapNames(labels, nodes) == MapNames(labels, init) + [NewName(labels, v)];
      ElementsLast(MapNames(labels, nodes));
      if forall v :: v in nodes ==> v in labels {
        assert forall u :: u in init ==> u in nodes;
      }
    }
  }

  /** Renaming when every label already names its node keeps the labels of the listed nodes. */
  lemma {:induction false} RenamedLabelsFixed(nodes: seq<int>, labels: map<int, int>)
    requires forall w :: w in labels ==> labels[w] == w
    ensures RenamedLabels(nodes, labels) == map w | w in labels && w in Elements(nodes) :: labels[w]
    decreases |nodes|
  {
    if nodes != [] {
      var init, v := nodes[..|nodes| - 1], nodes[|nodes| - 1];
      RenamedLabelsFixed(init, labels);
      ElementsLast(nodes);
    }
  }

  /** When every label names its node, renaming changes no name. */
  lemma MapNamesFixed(labels: map<int, int>, vs: seq<int>)
    requires forall w :: w in labels ==> labels[w] == w
    ensures MapNames(labels, vs) == vs
  {
  }

  /** `rename_nodes_by_labels` is idempotent: after one renaming every labelled node is named
      by its label, so a second renaming maps each node to itself. This makes the repeated
      renaming inside the decode loop of `labeling_1_to_k` harmless. */
  lemma RenameIdempotent(h: LabeledGraph)
    ensures Rename(Rename(h)) == Rename(h)
  {
    var h1 := Rename(h);
    assert forall w :: w in h1.labels ==> h1.labels[w] == w by {
      RenamedLabelsSpec(h.nodes, h.labels);
    }
    assert AppendNew([], MapNames(h1.labels, h1.nodes)) == h1.nodes by {
      MapNamesFixed(h1.labels, h1.nodes);
      AppendNewSpec([], MapNames(h.labels, h.nodes));
      AppendNewDistinct(h1.nodes);
    }
    assert RenamedLabels(h1.nodes, h1.labels) == h1.labels by {
      RenamedLabelsSpec(h.nodes, h.labels);
      AppendNewSpec([], MapNames(h.labels, h.nodes));
      RenamedLabelsFixed(h1.nodes, h1.labels);
    }
    assert (set e | e in h1.edges :: RenamedEdge(h1.labels, e)) == h1.edges by {
      forall e | e in h1.edges ensures RenamedEdge(h1.labels, e) == e {
      }
    }
  }

  // ---------------------------------------------------------------- attaching a labelling

  /** `graph.copy()` followed by `nx.set_node_attributes(copy, labels, "label")`: nodes of the
      graph that the labelling covers get its value; other keys are ignored. */
  function Attach(g: Graph<int>, labels: map<int, int>): (r: LabeledGraph)
    ensures r.nodes == g.nodes && r.edges == g.Edges()
    ensures r.labels.Keys == labels.Keys * g.adj.Keys
    ensures forall v :: v in r.labels ==> r.labels[v] == labels[v]
  {
    LabeledGraph(g.nodes, g.Edges(), map v | v in labels && v in g.adj :: labels[v])
  }

  /** The edge `e` after renaming its endpoints. */
  function Relabel(labels: map<int, int>, e: (int, int)): set<int> {
    Pair(NewName(labels, e.0), NewName(labels, e.1))
  }

  /** Every vertex has a label in [lo, hi]. */
  ghost predicate InRange(g: Graph<int>, labels: map<int, int>, lo: int, hi: int) {
    forall v :: v in g.adj ==> v in labels && lo <= labels[v] <= hi
  }

  /** z3's `Distinct` over the vertex labels. */
  ghost predicate Distinct(g: Graph<int>, labels: map<int, int>) {
    forall v, w :: v in g.adj && w in g.adj && v in labels && w in labels && v != w ==>
      labels[v] != labels[w]
  }

  /** The length variable of edge `e`, `Abs(labels[a] - labels[b])`. */
  function EdgeLength(labels: map<int, int>, e: (int, int)): int {
    if e.0 in labels && e.1 in labels then Abs(labels[e.0] - labels[e.1]) else 0
  }

  /** Every edge length lies in [1, hi]. */
  ghost predicate LengthsBounded(labels: map<int, int>, es: seq<(int, int)>, hi: int) {
    forall i :: 0 <= i < |es| ==> 1 <= EdgeLength(labels, es[i]) <= hi
  }

  /** Different edges have different lengths. */
  ghost predicate LengthsDistinct(labels: map<int, int>, es: seq<(int, int)>) {
    forall i, j :: 0 <= i < |es| && 0 <= j < |es| && es[i] != es[j] ==>
      EdgeLength(labels, es[i]) != EdgeLength(labels, es[j])
  }

  /** The renamed copy of a graph under a labelling that gives every vertex a label, different
      vertices different labels: the nodes are the labels in the same order, every node is
      named by its label, and each edge is the pair of its endpoints' labels. */
  lemma RenameAttachNodes(g: Graph<int>, labels: map<int, int>)
    requires g.Valid() && (forall v :: v in g.adj ==> v in labels) && Distinct(g, labels)
    ensures |Rename(Attach(g, labels)).nodes| == |g.nodes|
    ensures forall i :: 0 <= i < |g.nodes| ==> Rename(Attach(g, labels)).nodes[i] == labels[g.nodes[i]]
    ensures NoDup(Rename(Attach(g, labels)).nodes)
    ensures forall x :: x in Rename(Attach(g, labels)).nodes ==>
      x in Rename(Attach(g, labels)).labels && Rename(Attach(g, labels)).labels[x] == x
  {
    var a := Attach(g, labels);
    var ns := MapNames(a.labels, g.nodes);
    assert NoDup(ns) by {
      forall i, j | 0 <= i < j < |ns| ensures ns[i] != ns[j] {
        assert g.nodes[i] in g.adj && g.nodes[j] in g.adj;
      }
    }
    AppendNewDistinct(ns);
    RenamedLabelsSpec(g.nodes, a.labels);
  }

  /** Each edge of the renamed copy comes from an edge of the graph, with the same length. */
  lemma RenameAttachEdge(g: Graph<int>, labels: map<int, int>, x: int, y: int) returns (i: nat)
    requires g.Valid() && (forall v :: v in g.adj ==> v in labels)
    requires Pair(x, y) in Rename(Attach(g, labels)).edges
    ensures i < |g.EdgeList()| && Pair(x, y) == Relabel(labels, g.EdgeList()[i])
    ensures Abs(x - y) == EdgeLength(labels, g.EdgeList()[i])
  {
    var a := Attach(g, labels);
    var es := g.EdgeList();
    var e :| e in g.Edges() && RenamedEdge(a.labels, e) == Pair(x, y);
    var p: (int, int);
    assert exists p :: p in es && e == Pair(p.0, p.1) by {
      g.EdgeListIsEdges();
    }
    p :| p in es && e == Pair(p.0, p.1);
    i :| 0 <= i < |es| && es[i] == p;
    assert p.0 in labels && p.1 in labels && Pair(x, y) == Pair(labels[p.0], labels[p.1]) by {
      g.EdgeListMem(p);
      RenamedPair(a.labels, p.0, p.1);
    }
    PairAbs(labels[p.0], labels[p.1], x, y);
  }

  /** Each edge of the graph appears, renamed, in the renamed copy. */
  lemma RenameAttachHasEdge(g: Graph<int>, labels: map<int, int>, i: nat)
    requires g.Valid() && (forall v :: v in g.adj ==> v in labels)
    requires i < |g.EdgeList()|
    ensures g.EdgeList()[i].0 in labels && g.EdgeList()[i].1 in labels
    ensures Relabel(labels, g.EdgeList()[i]) in Rename(Attach(g, labels)).edges
  {
    var a := Attach(g, labels);
    var p := g.EdgeList()[i];
    g.EdgeListMem(p);
    RenamedPair(a.labels, p.0, p.1);
  }

  /** m distinct lengths in [1, m] on m edges are exactly the lengths 1 .. m. */
  lemma LengthsBijection(labels: map<int, int>, es: seq<(int, int)>)
    requires UniqueEdges(es) && LengthsBounded(labels, es, |es|) && LengthsDistinct(labels, es)
    ensures Elements(seq(|es|, i requires 0 <= i < |es| => EdgeLength(labels, es[i]))) ==
      Interval(1, |es| + 1)
  {
    var ls := seq(|es|, i requires 0 <= i < |es| => EdgeLength(labels, es[i]));
    assert NoDup(ls) by {
      forall i, j | 0 <= i < j < |ls| ensures ls[i] != ls[j] {
        assert Pair(es[i].0, es[i].1) != Pair(es[j].0, es[j].1);
      }
    }
    NoDupCard(ls);
    IntervalCard(1, |es| + 1);
    SubsetOfSameSize(Elements(ls), Interval(1, |es| + 1));
  }

  /** Some edge of `edges` joins two nodes `d` apart. */
  ghost predicate HasLength(edges: set<set<int>>, d: int) {
    exists x, y :: Pair(x, y) in edges && Abs(x - y) == d
  }

  /** The renamed copy's edges have the lengths of the labelling's edge constraints. */
  lemma RenamedLengthsBounded(g: Graph<int>, labels: map<int, int>, hi: int)
    requires g.Valid() && (forall v :: v in g.adj ==> v in labels)
    requires LengthsBounded(labels, g.EdgeList(), hi)
    ensures forall x, y :: Pair(x, y) in Rename(Attach(g, labels)).edges ==> 1 <= Abs(x - y) <= hi
  {
    forall x, y | Pair(x, y) in Rename(Attach(g, labels)).edges ensures 1 <= Abs(x - y) <= hi {
      var i := RenameAttachEdge(g, labels, x, y);
    }
  }

  /** With m distinct lengths in [1, m] on m edges, every length in [1, m] occurs in the
      renamed copy. */
  lemma RenamedLengthsCovered(g: Graph<int>, labels: map<int, int>)
    requires g.Valid() && (forall v :: v in g.adj ==> v in labels)
    requires LengthsBounded(labels, g.EdgeList(), g.NumberOfEdges())
    requires LengthsDistinct(labels, g.EdgeList())
    ensures forall d :: 1 <= d <= g.NumberOfEdges() ==> HasLength(Rename(Attach(g, labels)).edges, d)
  {
    var es := g.EdgeList();
    var ls := seq(|es|, i requires 0 <= i < |es| => EdgeLength(labels, es[i]));
    assert Elements(ls) == Interval(1, |es| + 1) by {
      g.EdgeListIsEdges();
      LengthsBijection(labels, es);
    }
    forall d | 1 <= d <= |es| ensures HasLength(Rename(Attach(g, labels)).edges, d) {
      assert d in Elements(ls);
      var i :| 0 <= i < |es| && ls[i] == d;
      RenameAttachHasEdge(g, labels, i);
      var x, y := labels[es[i].0], labels[es[i].1];
      assert Pair(x, y) in Rename(Attach(g, labels)).edges && Abs(x - y) == d;
    }
  }

  /** No two edges of `edges` have the same length. */
  ghost predicate LengthsUnique(edges: set<set<int>>) {
    forall x, y, x', y' :: Pair(x, y) in edges && Pair(x', y') in edges && Abs(x - y) == Abs(x' - y') ==>
      Pair(x, y) == Pair(x', y')
  }

  /** With lengths distinct on the graph's edges, no two edges of the renamed copy share a
      length. */
  lemma RenamedLengthsUnique(g: Graph<int>, labels: map<int, int>)
    requires g.Valid() && (forall v :: v in g.adj ==> v in labels)
    requires LengthsDistinct(labels, g.EdgeList())
    ensures LengthsUnique(Rename(Attach(g, labels)).edges)
  {
    var h := Rename(Attach(g, labels));
    var es := g.EdgeList();
    forall x, y, x', y' | Pair(x, y) in h.edges && Pair(x', y') in h.edges && Abs(x - y) == Abs(x' - y')
      ensures Pair(x, y) == Pair(x', y')
    {
      var i := RenameAttachEdge(g, labels, x, y);
      var j := RenameAttachEdge(g, labels, x', y');
      assert es[i] == es[j] by {
        assert EdgeLength(labels, es[i]) == EdgeLength(labels, es[j]);
      }
    }
  }

  // ---------------------------------------------------------------- graceful

  /** The constraints `graceful` gives the solver, for a graph with m edges: labels in [0, m],
      distinct, every edge length in [1, m] and no two edges of the same length. */
  ghost predicate GracefulConstraints(g: Graph<int>, labels: map<int, int>) {
    && InRange(g, labels, 0, g.NumberOfEdges())
    && Distinct(g, labels)
    && LengthsBounded(labels, g.EdgeList(), g.NumberOfEdges())
    && LengthsDistinct(labels, g.EdgeList())
  }

  /** `graceful(graph)`, with `model` the solver's answer: no model, or one that satisfies the
      constraints. */
  function Graceful(g: Graph<int>, model: Option<map<int, int>>): (r: Result<Option<LabeledGraph>>)
    requires g.Valid()
    requires model.Some? ==> GracefulConstraints(g, model.value)
    ensures r.Err? <==> g.nodes == []
    ensures r.Err? ==> r.error == EmptyDistinct
    ensures r.Ok? ==> (r.value.Some? <==> model.Some?)
  {
    if g.nodes == [] then Err(EmptyDistinct)
    else if model.None? then Ok(None)
    else Ok(Some(Rename(Attach(g, model.value))))
  }

  /** A graph `graceful` returns is named by its labels: m + 1 or fewer distinct values in
      [0, m], one per vertex of the input, whose edge lengths run through 1 .. m, each once. */
  lemma GracefulSound(g: Graph<int>, model: Option<map<int, int>>)
    requires g.Valid()
    requires model.Some? ==> GracefulConstraints(g, model.value)
    requires Graceful(g, model).Ok? && Graceful(g, model).value.Some?
    ensures var h := Graceful(g, model).value.value;
      && NoDup(h.nodes) && |h.nodes| == |g.nodes|
      && (forall x :: x in h.nodes ==> 0 <= x <= g.NumberOfEdges() && x in h.labels && h.labels[x] == x)
  {
    var labels := model.value;
    RenameAttachNodes(g, labels);
    var h := Rename(Attach(g, labels));
    forall x | x in h.nodes ensures 0 <= x <= g.NumberOfEdges() {
      var i :| 0 <= i < |h.nodes| && h.nodes[i] == x;
      assert g.nodes[i] in g.adj;
    }
  }

  /** The edge lengths of a graph `graceful` returns are in bijection with 1 .. m. */
  lemma GracefulLengths(g: Graph<int>, model: Option<map<int, int>>)
    requires g.Valid()
    requires model.Some? ==> GracefulConstraints(g, model.value)
    requires Graceful(g, model).Ok? && Graceful(g, model).value.Some?
    ensures var h := Graceful(g, model).value.value;
      && (forall x, y :: Pair(x, y) in h.edges ==> 1 <= Abs(x - y) <= g.NumberOfEdges())
      && (forall d :: 1 <= d <= g.NumberOfEdges() ==> HasLength(h.edges, d))
      && LengthsUnique(h.edges)
  {
    RenamedLengthsBounded(g, model.value, g.NumberOfEdges());
    RenamedLengthsCovered(g, model.value);
    RenamedLengthsUnique(g, model.value);
  }

  // ---------------------------------------------------------------- sigmapm

  /** `side` is one colour class of a proper 2-colouring: every edge has exactly one endpoint
      in it. This is what the union of the first sets `nx.bipartite.sets` returns for each
      connected component is. */
  ghost predicate ProperSide(g: Graph<int>, side: set<int>) {
    forall v, w :: v in g.adj && w in g.Neighbors(v) ==> (v in side <==> w !in side)
  }

  ghost predicate IsBipartite(g: Graph<int>) {
    exists side :: ProperSide(g, side)
  }

  function Below(labels: map<int, int>, a: int, b: int): bool {
    a in labels && b in labels && labels[a] < labels[b]
  }

  /** The ordering constraints: for each listed edge `(a, b)`, `a`'s label is the smaller when
      `a` is in `side`, `b`'s otherwise. */
  ghost predicate Oriented(labels: map<int, int>, es: seq<(int, int)>, side: set<int>) {
    forall i :: 0 <= i < |es| ==>
      if es[i].0 in side then Below(labels, es[i].0, es[i].1) else Below(labels, es[i].1, es[i].0)
  }

  /** The constraints `sigmapm` gives the solver, for a graph with m edges and the colour class
      `side`: labels in [0, 2m - 3], distinct, ordered along each edge, every edge length in
      [1, m] and no two edges of the same length. */
  ghost predicate SigmaConstraints(g: Graph<int>, side: set<int>, labels: map<int, int>) {
    && InRange(g, labels, 0, 2 * g.NumberOfEdges() - 3)
    && Distinct(g, labels)
    && Oriented(labels, g.EdgeList(), side)
    && LengthsBounded(labels, g.EdgeList(), g.NumberOfEdges())
    && LengthsDistinct(labels, g.EdgeList())
  }

  /** `sigmapm(graph)`. `side` is what `nx.bipartite.sets` yields over the components (`None`
      when it raises), and `model` the solver's answer. The empty `Distinct` raises before the
      bipartition is looked at. */
  function Sigmapm(g: Graph<int>, side: Option<set<int>>, model: Option<map<int, int>>)
    : (r: Result<Option<LabeledGraph>>)
    requires g.Valid()
    requires side.Some? ==> ProperSide(g, side.value)
    requires side.None? ==> !IsBipartite(g)
    requires model.Some? && side.Some? ==> SigmaConstraints(g, side.value, model.value)
    ensures r == Err(EmptyDistinct) <==> g.nodes == []
    ensures r == Err(NonBipartite) <==> g.nodes != [] && !IsBipartite(g)
    ensures r.Ok? ==> (r.value.Some? <==> model.Some?)
  {
    if g.nodes == [] then Err(EmptyDistinct)
    else if side.None? then Err(NonBipartite)
    else if model.None? then Ok(None)
    else Ok(Some(Rename(Attach(g, model.value))))
  }

  /** A graph `sigmapm` returns is named by its labels: distinct values in [0, 2m - 3], one per
      vertex of the input, whose edge lengths run through 1 .. m, each once. */
  lemma SigmapmSound(g: Graph<int>, side: Option<set<int>>, model: Option<map<int, int>>)
    requires g.Valid()
    requires side.Some? ==> ProperSide(g, side.value)
    requires side.None? ==> !IsBipartite(g)
    requires model.Some? && side.Some? ==> SigmaConstraints(g, side.value, model.value)
    requires Sigmapm(g, side, model).Ok? && Sigmapm(g, side, model).value.Some?
    ensures var h := Sigmapm(g, side, model).value.value;
      && NoDup(h.nodes) && |h.nodes| == |g.nodes|
      && (forall x :: x in h.nodes ==> 0 <= x <= 2 * g.NumberOfEdges() - 3 && x in h.labels && h.labels[x] == x)
      && (forall x, y :: Pair(x, y) in h.edges ==> 1 <= Abs(x - y) <= g.NumberOfEdges())
      && (forall d :: 1 <= d <= g.NumberOfEdges() ==> HasLength(h.edges, d))
      && LengthsUnique(h.edges)
  {
    var labels := model.value;
    RenameAttachNodes(g, labels);
    var h := Rename(Attach(g, labels));
    forall x | x in h.nodes ensures 0 <= x <= 2 * g.NumberOfEdges() - 3 {
      var i :| 0 <= i < |h.nodes| && h.nodes[i] == x;
      assert g.nodes[i] in g.adj;
    }
    RenamedLengthsBounded(g, labels, g.NumberOfEdges());
    RenamedLengthsCovered(g, labels);
    RenamedLengthsUnique(g, labels);
  }

  /** Along every edge of a `sigmapm` labelling, the endpoint in the colour class has the
      smaller label, whichever way round the edge is listed. */
  lemma SigmapmOrientation(g: Graph<int>, side: set<int>, labels: map<int, int>, a: int, b: int)
    requires g.Valid() && ProperSide(g, side) && SigmaConstraints(g, side, labels)
    requires Pair(a, b) in g.Edges() && a in side
    ensures Below(labels, a, b)
  {
    var es := g.EdgeList();
    g.EdgeListIsEdges();
    var p :| p in es && Pair(a, b) == Pair(p.0, p.1);
    g.EdgeListMem(p);
    assert p.1 in g.Neighbors(p.0) by {
      g.NeighborsAreEdges(p.0, p.1);
    }
    assert a in Pair(p.0, p.1) && b in Pair(p.0, p.1) && p.0 in Pair(a, b) && p.1 in Pair(a, b);
  }

  /** A graph with a vertex has a `sigmapm` labelling only when it has at least two edges: the
      label range [0, 2m - 3] is empty otherwise. */
  lemma SigmapmNeedsTwoEdges(g: Graph<int>, side: set<int>, labels: map<int, int>)
    requires g.Valid() && g.nodes != [] && SigmaConstraints(g, side, labels)
    ensures g.NumberOfEdges() >= 2
  {
    var v := g.nodes[0];
    assert v in g.adj;
    assert 0 <= labels[v] <= 2 * g.NumberOfEdges() - 3;
  }

  // ---------------------------------------------------------------- labeling_1_to_k: arithmetic

  /** `k = r // 2 if r % 2 == 0 else (r - 1) // 2`: both branches give the floor of r / 2. */
  function HalfOf(r: int): (k: int)
    ensures 2 * k <= r < 2 * k + 2
  {
    if r % 2 == 0 then r / 2 else (r - 1) / 2
  }

  /** Division with remainder has one answer. */
  lemma ModUnique(x: int, n: int, q: int, rest: int)
    requires n > 0 && 0 <= rest < n && x == n * q + rest
    ensures x % n == rest && x / n == q
  {
    var d := q - x / n;
    assert n * d == x % n - rest;
  }

  /** Two numbers leave the same remainder exactly when n divides their difference. */
  lemma SameRemainder(a: int, b: int, n: int)
    requires n > 0
    ensures a % n == b % n <==> (a - b) % n == 0
  {
    var qa, qb := a / n, b / n;
    if a % n == b % n {
      assert a - b == n * (qa - qb) + 0;
      ModUnique(a - b, n, qa - qb, 0);
    }
    if (a - b) % n == 0 {
      var t := (a - b) / n;
      assert a == n * (qb + t) + b % n;
      ModUnique(a, n, qb + t, b % n);
    }
  }

  /** The short-circuit `(r ** 2) % (2 * m) != r % (2 * m)`, for m > 0 (Python's `%` with a
      positive divisor agrees with Dafny's). */
  function FailsDivisibility(r: int, m: int): bool
    requires m > 0
  {
    (r * r) % (2 * m) != r % (2 * m)
  }

  /** The short-circuit fires exactly when 2m does not divide r(r - 1). */
  lemma DivisibilityTest(r: int, m: int)
    requires m > 0
    ensures FailsDivisibility(r, m) <==> (r * (r - 1)) % (2 * m) != 0
  {
    assert r * r - r == r * (r - 1);
    SameRemainder(r * r, r, 2 * m);
  }

  /** The ℓ* constraints of one edge: `0 <= star < m`, `star == sum - m * q` and `q >= 0`. */
  predicate StarOk(sum: int, m: int, star: int, q: int) {
    0 <= star < m && star == sum - m * q && q >= 0
  }

  /** The quotient encoding pins ℓ* to the label sum mod m, and it can be met exactly when the
      sum is not negative. */
  lemma StarIsSumMod(sum: int, m: int, star: int, q: int)
    requires m > 0
    ensures StarOk(sum, m, star, q) <==> sum >= 0 && star == sum % m && q == sum / m
  {
    if StarOk(sum, m, star, q) {
      ModUnique(sum, m, q, star);
      assert m * q >= 0;
    }
    if sum >= 0 && star == sum % m && q == sum / m {
      assert sum == m * q + star;
    }
  }

  // ---------------------------------------------------------------- labeling_1_to_k: constraints

  /** `construct_kG(G, k)`: k copies of G (none when k is not positive). */
  function ConstructKG(g: Graph<int>, k: int): (copies: seq<Graph<int>>)
    ensures |copies| == if k < 0 then 0 else k
    ensures forall i :: 0 <= i < |copies| ==> copies[i] == g
  {
    if k <= 0 then [] else seq(k, _ => g)
  }

  /** The solver's values for one copy: its vertex labels and, for each edge in edge-list
      order, the ℓ* variable and its quotient. */
  datatype CopyModel = CopyModel(labels: map<int, int>, star: seq<int>, quot: seq<int>)

  /** The sum of the labels of the ends of `e`. */
  function LabelSum(labels: map<int, int>, e: (int, int)): int {
    if e.0 in labels && e.1 in labels then labels[e.0] + labels[e.1] else 0
  }

  /** ℓ of edge j in copy i. */
  function Ell(sols: seq<CopyModel>, es: seq<(int, int)>, i: int, j: int): int {
    if 0 <= i < |sols| && 0 <= j < |es| then EdgeLength(sols[i].labels, es[j]) else 0
  }

  /** ℓ* of edge j in copy i. */
  function EllStar(sols: seq<CopyModel>, i: int, j: int): int {
    if 0 <= i < |sols| && 0 <= j < |sols[i].star| then sols[i].star[j] else -1
  }

  /** The constraints on one copy, for a graph with m edges and k = ⌊r/2⌋: labels in
      [0, 2m + r - 1] and distinct, every edge length in [1, k], and each edge's ℓ* given by
      the quotient encoding. */
  ghost predicate CopyConstraints(g: Graph<int>, r: int, k: int, c: CopyModel) {
    var m, es := g.NumberOfEdges(), g.EdgeList();
    && InRange(g, c.labels, 0, 2 * m + r - 1)
    && Distinct(g, c.labels)
    && LengthsBounded(c.labels, es, k)
    && |c.star| == m && |c.quot| == m
    && forall j :: 0 <= j < m ==> StarOk(LabelSum(c.labels, es[j]), m, c.star[j], c.quot[j])
  }

  /** Disjointness: edges of two different copies never share both ℓ and ℓ*. Edges of the
      same copy are not constrained. */
  ghost predicate Disjoint(sols: seq<CopyModel>, es: seq<(int, int)>) {
    forall i, i', j, j' :: 0 <= i < i' < |sols| && 0 <= j < |es| && 0 <= j' < |es| ==>
      !(Ell(sols, es, i, j) == Ell(sols, es, i', j') && EllStar(sols, i, j) == EllStar(sols, i', j'))
  }

  /** Some edge of some copy realises the pair (ℓ, ℓ*). */
  ghost predicate Realised(sols: seq<CopyModel>, es: seq<(int, int)>, ell: int, ellStar: int) {
    exists i, j :: 0 <= i < |sols| && 0 <= j < |es| && Ell(sols, es, i, j) == ell && EllStar(sols, i, j) == ellStar
  }

  /** Coverage: every pair in [1, k] x [0, m) is realised. */
  ghost predicate Covered(sols: seq<CopyModel>, es: seq<(int, int)>, k: int) {
    forall ell, ellStar :: 1 <= ell <= k && 0 <= ellStar < |es| ==> Realised(sols, es, ell, ellStar)
  }

  /** Everything `labeling_1_to_k(G, r)` asks of the solver, one model per copy. */
  ghost predicate LabelingConstraints(g: Graph<int>, r: int, sols: seq<CopyModel>) {
    var k := HalfOf(r);
    && |sols| == k
    && (forall i :: 0 <= i < |sols| ==> CopyConstraints(g, r, k, sols[i]))
    && Disjoint(sols, g.EdgeList())
    && Covered(sols, g.EdgeList(), k)
  }

  /** ℓ* of each edge is the sum of its end labels mod m. */
  lemma EllStarIsSumMod(g: Graph<int>, r: int, sols: seq<CopyModel>, i: int, j: int)
    requires g.Valid() && LabelingConstraints(g, r, sols)
    requires 0 <= i < |sols| && 0 <= j < g.NumberOfEdges()
    ensures EllStar(sols, i, j) == LabelSum(sols[i].labels, g.EdgeList()[j]) % g.NumberOfEdges()
  {
    var c := sols[i];
    assert CopyConstraints(g, r, HalfOf(r), c);
    StarIsSumMod(LabelSum(c.labels, g.EdgeList()[j]), g.NumberOfEdges(), c.star[j], c.quot[j]);
  }

  /** The pair (ℓ, ℓ*) of each edge instance (copy, edge). */
  function PairOf(sols: seq<CopyModel>, es: seq<(int, int)>): ((int, int)) -> (int, int) {
    (p: (int, int)) => (Ell(sols, es, p.0, p.1), EllStar(sols, p.0, p.1))
  }

  /** Every instance's pair lies in [1, k] x [0, m). */
  lemma PairsInGrid(g: Graph<int>, r: int, sols: seq<CopyModel>)
    requires |sols| == HalfOf(r)
    requires forall i :: 0 <= i < |sols| ==> CopyConstraints(g, r, HalfOf(r), sols[i])
    ensures Image(Rectangle(0, |sols|, 0, |g.EdgeList()|), PairOf(sols, g.EdgeList())) <=
      Rectangle(1, |sols| + 1, 0, |g.EdgeList()|)
  {
    var es := g.EdgeList();
    var k, m := |sols|, |es|;
    var f := PairOf(sols, es);
    forall p | p in Rectangle(0, k, 0, m) ensures f(p) in Rectangle(1, k + 1, 0, m) {
      RectMem(0, k, 0, m, p);
      assert CopyConstraints(g, r, HalfOf(r), sols[p.0]);
      assert 1 <= Ell(sols, es, p.0, p.1) <= k;
      assert StarOk(LabelSum(sols[p.0].labels, es[p.1]), m, sols[p.0].star[p.1], sols[p.0].quot[p.1]);
      RectMem(1, k + 1, 0, m, f(p));
    }
  }

  /** Coverage: every pair of the grid is some instance's pair. */
  lemma GridCovered(sols: seq<CopyModel>, es: seq<(int, int)>)
    requires Covered(sols, es, |sols|)
    ensures Rectangle(1, |sols| + 1, 0, |es|) <= Image(Rectangle(0, |sols|, 0, |es|), PairOf(sols, es))
  {
    var k, m := |sols|, |es|;
    forall q | q in Rectangle(1, k + 1, 0, m) ensures q in Image(Rectangle(0, k, 0, m), PairOf(sols, es)) {
      RectMem(1, k + 1, 0, m, q);
      assert Realised(sols, es, q.0, q.1);
      var a, b :| 0 <= a < k && 0 <= b < m && Ell(sols, es, a, b) == q.0 && EllStar(sols, a, b) == q.1;
      RectMem(0, k, 0, m, (a, b));
      assert PairOf(sols, es)((a, b)) == q;
    }
  }

  /** There are as many edge instances as grid pairs, k * m. */
  lemma GridSizes(k: nat, m: nat)
    ensures |Rectangle(0, k, 0, m)| == |Rectangle(1, k + 1, 0, m)| == k * m
  {
    RectangleCard(0, k, 0, m);
    RectangleCard(1, k + 1, 0, m);
  }

  /** The k copies have k * m edge instances and coverage asks for k * m different pairs, so
      every pair (ℓ, ℓ*) is realised by exactly one edge of one copy: the pairs differ even
      between edges of the same copy, which disjointness alone does not say. */
  lemma ExactlyOnce(g: Graph<int>, r: int, sols: seq<CopyModel>, i: int, j: int, i': int, j': int)
    requires LabelingConstraints(g, r, sols)
    requires 0 <= i < |sols| && 0 <= j < |g.EdgeList()|
    requires 0 <= i' < |sols| && 0 <= j' < |g.EdgeList()|
    requires Ell(sols, g.EdgeList(), i, j) == Ell(sols, g.EdgeList(), i', j')
    requires EllStar(sols, i, j) == EllStar(sols, i', j')
    ensures i == i' && j == j'
  {
    var es := g.EdgeList();
    var k, m := |sols|, |es|;
    var inst := Rectangle(0, k, 0, m);
    var f := PairOf(sols, es);
    var grid := Rectangle(1, k + 1, 0, m);
    assert Image(inst, f) == grid by {
      PairsInGrid(g, r, sols);
      GridCovered(sols, es);
    }
    GridSizes(k, m);
    FullImageInjective(inst, f);
    RectMem(0, k, 0, m, (i, j));
    RectMem(0, k, 0, m, (i', j'));
    assert f((i, j)) == f((i', j'));
  }

  // ---------------------------------------------------------------- labeling_1_to_k: decoding

  /** The copies the decode loop returns: copy i of G with the labels of model i, renamed. */
  function Decode(g: Graph<int>, sols: seq<CopyModel>): (copies: seq<LabeledGraph>)
    ensures |copies| == |sols|
    ensures forall i :: 0 <= i < |copies| ==> Rename(copies[i]) == copies[i]
  {
    assert forall i :: 0 <= i < |sols| ==>
      Rename(Rename(Attach(g, sols[i].labels))) == Rename(Attach(g, sols[i].labels)) by {
      forall i | 0 <= i < |sols| {
        RenameIdempotent(Attach(g, sols[i].labels));
      }
    }
    seq(|sols|, i requires 0 <= i < |sols| => Rename(Attach(g, sols[i].labels)))
  }

  /** `[rename_nodes_by_labels(g) for g in labeled_copies]`. */
  function RenameAll(hs: seq<LabeledGraph>): (r: seq<LabeledGraph>)
    ensures |r| == |hs|
    ensures forall i :: 0 <= i < |r| ==> r[i] == Rename(hs[i])
    ensures forall i :: 0 <= i < |r| ==> Rename(r[i]) == r[i]
  {
    assert forall i :: 0 <= i < |hs| ==> Rename(Rename(hs[i])) == Rename(hs[i]) by {
      forall i | 0 <= i < |hs| {
        RenameIdempotent(hs[i]);
      }
    }
    seq(|hs|, i requires 0 <= i < |hs| => Rename(hs[i]))
  }

  /** Each decoded copy is named by its labels: distinct values in [0, 2m + r - 1], one per
      vertex of G, and every edge joins two labels at most k apart. */
  lemma DecodeSound(g: Graph<int>, r: int, sols: seq<CopyModel>, i: int)
    requires g.Valid() && LabelingConstraints(g, r, sols)
    requires 0 <= i < |sols|
    ensures var h := Decode(g, sols)[i];
      && NoDup(h.nodes) && |h.nodes| == |g.nodes|
      && (forall x :: x in h.nodes ==>
            0 <= x <= 2 * g.NumberOfEdges() + r - 1 && x in h.labels && h.labels[x] == x)
      && (forall x, y :: Pair(x, y) in h.edges ==> 1 <= Abs(x - y) <= HalfOf(r))
  {
    var labels := sols[i].labels;
    assert CopyConstraints(g, r, HalfOf(r), sols[i]);
    RenameAttachNodes(g, labels);
    var h := Rename(Attach(g, labels));
    forall x | x in h.nodes ensures 0 <= x <= 2 * g.NumberOfEdges() + r - 1 {
      var j :| 0 <= j < |h.nodes| && h.nodes[j] == x;
      assert g.nodes[j] in g.adj;
    }
    RenamedLengthsBounded(g, labels, HalfOf(r));
  }

  /** `labeling_1_to_k(G, r)`, with `model` the solver's answer: no model, or one labelling per
      copy that satisfies the constraints. With k <= 0 nothing is constrained and the solver
      always succeeds, so `model` is not consulted. */
  method Labeling1ToK(g: Graph<int>, r: int, model: Option<seq<CopyModel>>)
    returns (res: Result<Option<seq<LabeledGraph>>>)
    requires g.Valid()
    requires model.Some? ==> LabelingConstraints(g, r, model.value)
    ensures HalfOf(r) <= 0 ==> res == Ok(Some([]))
    ensures HalfOf(r) > 0 && g.NumberOfEdges() == 0 ==> res == Err(ZeroDivision)
    ensures HalfOf(r) > 0 && g.NumberOfEdges() > 0 && FailsDivisibility(r, g.NumberOfEdges()) ==>
      res == Ok(None)
    ensures HalfOf(r) > 0 && g.NumberOfEdges() > 0 && !FailsDivisibility(r, g.NumberOfEdges()) ==>
      res == if model.None? then Ok(None) else Ok(Some(Decode(g, model.value)))
  {
    var m := g.NumberOfEdges();
    var k := HalfOf(r);
    if k > 0 {
      if m == 0 {
        return Err(ZeroDivision);
      }
      if (r * r) % (2 * m) != r % (2 * m) {
        return Ok(None);
      }
    }
    var copies := ConstructKG(g, k);
    if k <= 0 {
      var labeled := DecodeCopies(copies, []);
      return Ok(Some(labeled));
    }
    if model.None? {
      return Ok(None);
    }
    var sols := model.value;
    assert |sols| == k;
    var labeled := DecodeCopies(copies, sols);
    assert labeled == Decode(g, sols);
    return Ok(Some(labeled));
  }

  /** The decode loop of `labeling_1_to_k`: copy i receives the labels of model i, is appended,
      and the whole list renamed again. Renaming is idempotent, so each copy ends up renamed
      once. */
  method DecodeCopies(copies: seq<Graph<int>>, sols: seq<CopyModel>) returns (labeled: seq<LabeledGraph>)
    requires |copies| == |sols|
    ensures |labeled| == |sols|
    ensures forall i :: 0 <= i < |sols| ==> labeled[i] == Rename(Attach(copies[i], sols[i].labels))
  {
    labeled := [];
    var i := 0;
    while i < |sols|
      invariant 0 <= i <= |sols| && |labeled| == i
      invariant forall j :: 0 <= j < i ==> labeled[j] == Rename(Attach(copies[j], sols[j].labels))
    {
      labeled := labeled + [Attach(copies[i], sols[i].labels)];
      labeled := RenameAll(labeled);
      forall j | 0 <= j < i ensures labeled[j] == Rename(Attach(copies[j], sols[j].labels)) {
        RenameIdempotent(Attach(copies[j], sols[j].labels));
      }
      i := i + 1;
    }
  }
}
