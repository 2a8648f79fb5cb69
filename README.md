# Graph labelling toolkit — Dafny model

This project models the core of a small Python toolkit for experimenting with graph labellings.

- It builds graphs (paths, cycles, stars, complete graphs, merges of graphs) on top of networkx.
- It asks the z3 solver for graceful labellings, σ±-style labellings and (1-2-…-k)-labellings of k copies of a graph.
- It renames every node of a labelled graph to its label.
- It computes what the display draws:
  - edge lengths and mod-7 sublabels;
  - the layout of a tree along its longest path;
  - the table of sublabels bucketed by edge length;
  - the 3×3 grid of sorted edge lengths.

The Dafny modules follow the three source files:

| module | file | models |
|---|---|---|
| `Graphs` | `graphs.dfy` | The networkx undirected graph, as far as the scripts use it. `Graph` is the value: nodes in insertion order and neighbours in insertion order, so that `G.nodes()`, `G.neighbors(v)` and `G.edges()` report in networkx order. `MutableGraph` is the object that `add_node`/`add_edge` change in place. |
| `Builders` | `builders.dfy` | The graph builders and `inspect` of `main.py`. Each builder is a method on a fresh `MutableGraph`, proved to leave exactly the graph that a specification function describes. Lemmas state what that graph's vertices, edges, node order and degrees are. |
| `Labeling` | `labeling.dfy` | `CP.py`: `rename_nodes_by_labels`, `graceful`, `sigmapm`, `construct_kG` and `labeling_1_to_k`. The solver is an oracle parameter: either no model, or a model satisfying exactly the constraints the function states. |
| `DisplayLabels` | `display_labels.dfy` | The label arithmetic of the drawing code: the edge length, the edge sublabel, and the vertex label and sublabel. |
| `TreeLayout` | `tree_layout.dfy` | `find_longest_path` (a breadth-first search from every node) and `arrange_tree`. |
| `Charts` | `charts.dfy` | The per-graph tables of the display: the edge-length buckets, and the sorted grid of edge lengths. |
| `Counting` | `counting.dfy` | Cardinality lemmas (intervals, rectangles, images of sets) used by the proofs. |
| `Wrappers` | `wrappers.dfy` | `Option`. |

Where a comment in the source disagrees with the code next to it, the model follows the code:

- **`labeling_1_to_k`'s label bound.** The comment at `CP.py:141` says {0, …, 2m − 3}. The constraint at `CP.py:145` is [0, 2m + r − 1], and the model uses the constraint.

## Model

| member | source | states |
|---|---|---|
| Graphs.Graph.AddNodeSpec | main.py:91 | `add_node` keeps the graph well formed. It appends a new node to the node order, leaves a present node where it is, and adds no edge. |
| Graphs.Graph.AddEdgeSpec | main.py:94 | `add_edge(u, v)` keeps the graph well formed, appends its missing endpoints in order, and adds exactly the edge {u, v}. |
| Graphs.Graph.AddNodesSpec | main.py:56 | `add_nodes_from` keeps the graph well formed, appends the new nodes in order of first mention, and adds no edge. |
| Graphs.Graph.AddEdgesSpec | main.py:57 | `add_edges_from` keeps the graph well formed and adds exactly the listed edges. |
| Graphs.Graph.AddEdgesNodes | main.py:57 | `add_edges_from` appends the endpoints not yet present to the node order, in the order the pairs name them. |
| Graphs.Graph.EdgeListIsEdges | main.py:41 | `list(G.edges)` names every undirected edge exactly once. As a set it is the edge set, and `number_of_edges` is its size. |
| Graphs.Graph.NeighborsAreEdges | graph_visualization.py:25 | In a valid graph, `w` is a neighbour of `v` exactly when {v, w} is an edge. |
| Graphs.MutableGraph.AddNode | main.py:91 | The object afterwards holds its former graph value with the node added. |
| Graphs.MutableGraph.AddEdge | main.py:94 | The object afterwards holds its former graph value with the edge added. |
| Graphs.MutableGraph.AddNodesFrom | main.py:56 | The object afterwards holds its former graph value with the nodes added in turn. |
| Graphs.MutableGraph.AddEdgesFrom | main.py:57 | The object afterwards holds the graph value with the pairs added in turn. |
| Builders.Inspect | main.py:39-47 | The node list holds every vertex exactly once. The edge list names every edge exactly once, so its length is the number of edges. |
| Builders.Build | main.py:50-58 | Returns a fresh graph object holding exactly `BuildGraph(vertices, edges)`. |
| Builders.BuildSpec | main.py:50-58 | The built graph is well formed. Its vertices are the listed vertices plus every edge endpoint, and its edges are exactly the listed pairs. Its node order is the vertices, then the endpoints, repeats dropped. |
| Builders.Merge | main.py:61-67 | Returns a fresh graph object holding exactly `MergeGraph(graphs)`. |
| Builders.MergeSpec | main.py:61-67 | The merged graph is well formed, and its edges are the union of the arguments' edges. |
| Builders.MergeVertices | main.py:61-67 | The merged graph's vertices are the union of the arguments' vertices. |
| Builders.MergeOrderIrrelevant | main.py:61-67 | Reordering or repeating the arguments changes neither the vertices nor the edges. |
| Builders.Path | main.py:70-76 | Returns a fresh graph object holding exactly `PathGraph(l)`. |
| Builders.PathSpec | main.py:70-76 | The path graph is well formed. Its vertices are the listed nodes, and its edges are exactly {l[i], l[i+1]}. |
| Builders.PathNodes | main.py:73 | The path's node order is the listed order, repeats dropped. |
| Builders.Cycle | main.py:79-85 | Returns a fresh graph object holding exactly `CycleGraph(l)`. |
| Builders.CycleSpec | main.py:79-85 | The cycle graph is well formed. Its vertices are the listed nodes, and its edges join each node to the next one around, modulo the length. |
| Builders.CycleNodes | main.py:82 | The cycle's node order is the listed order, repeats dropped. |
| Builders.CycleOfOne | main.py:83-84 | A one-node cycle is a single self-loop, of degree 2. |
| Builders.CycleNeighbors | main.py:83-84 | With three or more distinct nodes, the neighbours of `l[k]` are exactly the nodes before and after it around the cycle. |
| Builders.CycleDegree | main.py:83-84 | With three or more distinct nodes, every vertex has degree 2. |
| Builders.CycleEdgeCount | main.py:83-84 | With three or more distinct nodes, there are as many edges as nodes. |
| Builders.Star | main.py:88-95 | Returns a fresh graph object holding exactly `StarGraph(hub, leaves)`. |
| Builders.StarSpec | main.py:88-95 | The star is well formed, and its edges join the hub to each leaf. |
| Builders.StarVertices | main.py:88-95 | The star's vertices are the hub and the leaves, even with no leaf. |
| Builders.StarNodes | main.py:91-93 | The star's node order is the hub, then the leaves by first mention. |
| Builders.CompleteK | main.py:98-105 | Returns a fresh graph object holding exactly `CompleteGraph(n)`. The nested loops are carried by invariants. |
| Builders.CompleteSpec | main.py:98-100 | `complete_k(n)` is well formed, with node order 0 … n − 1. |
| Builders.RowsPair | main.py:101-104 | The loops add an edge between `i` and `j` exactly when they differ. |
| Builders.CompleteAdjacency | main.py:101-104 | Two vertices are adjacent exactly when they differ, so there is no self-loop. |
| Builders.CompleteEdgeCount | main.py:98-105 | `complete_k(n)` has n(n − 1)/2 edges. |
| Labeling.Rename | CP.py:5-8 | The renamed graph's nodes are the new names of the old nodes, each once. Every remaining label is the name of its own node. |
| Labeling.Attach | CP.py:195-196 | The copy has the graph's nodes and edges. Exactly the graph's nodes that the labelling covers carry a label, and it is the labelling's value. |
| Labeling.RenameAll | CP.py:204 | Graph i of the result is graph i of the input renamed, and a further renaming leaves each of them unchanged. |
| Labeling.Decode | CP.py:189-205 | There is one decoded copy per model, and each is already renamed: renaming it again changes nothing. |
| Labeling.RenamedLabelsSpec | CP.py:5-8 | After renaming, each node's label is its own name. When every node had a label, the nodes are exactly the labels. |
| Labeling.MapNamesFixed | CP.py:7 | When every label is its own node's name, the renaming changes no node. |
| Labeling.RenameIdempotent | CP.py:5-8 | Renaming an already renamed graph changes nothing. |
| Labeling.RenameAttachNodes | CP.py:68-71 | With distinct labels on every node, the renamed copy has one node per original node. Node i becomes that node's label, the names are distinct, and each is labelled by itself. |
| Labeling.RenameAttachEdge | CP.py:68-71 | Every edge {x, y} of the renamed copy is the image of some original edge, and \|x − y\| is that edge's length under the labels. |
| Labeling.RenameAttachHasEdge | CP.py:68-71 | The image of every original edge is an edge of the renamed copy. |
| Labeling.LengthsBijection | CP.py:90-102 | m distinct edge lengths in [1, m] are exactly the set {1, …, m}. |
| Labeling.RenamedLengthsCovered | CP.py:90-102 | Under the graceful length constraints, every length 1 … m occurs on some edge of the renamed graph. |
| Labeling.RenamedLengthsUnique | CP.py:98-102 | Distinct edges of the renamed graph have distinct lengths. |
| Labeling.Graceful | CP.py:77-112 | Raises (z3's `Distinct()` with no argument) exactly for a graph without nodes. Otherwise it returns a labelled graph exactly when the solver gives a model. |
| Labeling.GracefulSound | CP.py:81-88 | The returned graph's nodes are distinct, one per original node, each in [0, m] and labelled by itself. |
| Labeling.GracefulLengths | CP.py:90-102 | Every edge length of the returned graph is in [1, m], every length 1 … m occurs, and no two edges share a length. |
| Labeling.Sigmapm | CP.py:20-74 | Raises on a graph without nodes. Otherwise it raises ValueError exactly for a graph that is not bipartite, and returns a labelled graph exactly when the solver gives a model. |
| Labeling.SigmapmSound | CP.py:24-63 | The returned graph's nodes are distinct, one per original node, each in [0, 2m − 3]. Its edge lengths are in [1, m], cover 1 … m, and are pairwise distinct. |
| Labeling.SigmapmOrientation | CP.py:44-49 | Every edge leaving the side A that contains `a` has the smaller label at `a`. |
| Labeling.SigmapmNeedsTwoEdges | CP.py:27 | The label range [0, 2m − 3] is non-empty only when m ≥ 2, so a graph with nodes and fewer edges has no model. |
| Labeling.HalfOf | CP.py:130 | k = ⌊r / 2⌋ for every integer r: 2k ≤ r < 2k + 2. |
| Labeling.DivisibilityTest | CP.py:133 | The early exit `r² mod 2m ≠ r mod 2m` holds exactly when 2m does not divide r(r − 1). |
| Labeling.StarIsSumMod | CP.py:162-166 | The quotient encoding forces ℓ* to be (label sum) mod m and q to be its quotient. |
| Labeling.ConstructKG | CP.py:115-117 | There are k copies (none for k < 0), each equal to G. |
| Labeling.EllStarIsSumMod | CP.py:162-166 | In every model, ℓ* of each edge of each copy is the sum of its end labels mod m. |
| Labeling.PairsInGrid | CP.py:155-167 | Every (copy, edge) instance yields a pair (ℓ, ℓ*) in [1, k] × [0, m). |
| Labeling.GridCovered | CP.py:179-185 | The coverage constraint makes every pair of [1, k] × [0, m) the pair of some instance. |
| Labeling.ExactlyOnce | CP.py:169-185 | In every model, two instances with the same (ℓ, ℓ*) are the same instance. The range and coverage constraints alone force this, because k·m instances cover all k·m pairs; the disjointness constraints are implied. |
| Labeling.DecodeSound | CP.py:189-205 | Each decoded copy has distinct node names, one per vertex of G, each in [0, 2m + r − 1] and labelled by itself. Every edge joins two names at most k apart. |
| Labeling.DecodeCopies | CP.py:192-205 | Copy i ends up as G with model i's labels attached, renamed once, even though the loop renames the whole list on every pass. |
| Labeling.Labeling1ToK | CP.py:120-208 | For k ≤ 0 it returns the empty list. With m = 0 it raises ZeroDivisionError. A failed divisibility test gives None. Otherwise it gives None without a model, and the decoded copies with one. |
| DisplayLabels.FloorModSpec | graph_visualization.py:79-83 | Python's `%` leaves a remainder with the sign of the divisor and smaller in size, with a quotient to match. |
| DisplayLabels.EdgeLengthSymmetric | graph_visualization.py:77 | The edge length does not depend on the order of the ends. |
| DisplayLabels.EdgeLengthRange | graph_visualization.py:349 | For ends in [0, mod), the length is in [0, mod / 2], and 0 exactly when the ends are equal. |
| DisplayLabels.EdgeLength | graph_visualization.py:77 | The length is "∞" exactly when an end is infinite. Otherwise it is one of the two ways around, \|x − y\| or mod − \|x − y\|, and no longer than either. |
| DisplayLabels.EdgeSublabel | graph_visualization.py:78-83 | The sublabel is NaN exactly when both ends are infinite. Otherwise it is a residue in [0, 7) congruent mod 7 to the sum of the finite ends. |
| DisplayLabels.EdgeSublabelSymmetric | graph_visualization.py:78-83 | The sublabel does not depend on the order of the ends. |
| DisplayLabels.VertexLabel | graph_visualization.py:115 | The label is "∞" exactly for the infinite node, and missing (Python raises) exactly for a finite node with mod = 0. Otherwise it is the node mod `mod` in Python's sense: it differs from the node by a multiple of mod and lies in [0, mod) for positive mod and in (mod, 0] for negative mod. |
| DisplayLabels.VertexSublabel | graph_visualization.py:116 | The subscript is empty exactly for the infinite node. Otherwise it is a residue in [0, 7) congruent to the node mod 7. |
| TreeLayout.Expand | graph_visualization.py:25-31 | One pass over a node's neighbours keeps the search invariant: queue entries are paths from the start, and every visited node is queued or has all its neighbours visited. |
| TreeLayout.BfsLongestPath | graph_visualization.py:19-32 | Returns `[]` exactly when the start has no other neighbour. Otherwise it returns a simple path of at least two nodes along edges, beginning at the start. |
| TreeLayout.FindLongestPath | graph_visualization.py:34-39 | Returns the first of the per-node search results of greatest length. It is `[]` exactly when no node has another neighbour, and otherwise a simple path of at least two nodes. |
| TreeLayout.PlacePath | graph_visualization.py:49-51 | Path node i is placed at (start_x + i·x_spacing, start_y), and other positions are kept. x ends at start_x + \|path\|·x_spacing. |
| TreeLayout.NewLeavesSpec | graph_visualization.py:56-57 | The nodes hung below a path node are exactly its neighbours that had no position, each once. |
| TreeLayout.NewLeavesPrefix | graph_visualization.py:56 | The nodes hung for the first j neighbours are a prefix of those hung for all of them, so the hanging order is the neighbour order. |
| TreeLayout.PlacedBeforeSpec | graph_visualization.py:54-59 | After path nodes 0 … n − 1, the placed nodes are those of the first loop plus every neighbour of those path nodes. |
| TreeLayout.HungFrom | graph_visualization.py:54-59 | Every neighbour of a path node that the first loop left unplaced hangs below that path node or an earlier one. |
| TreeLayout.FirstAdjacent | graph_visualization.py:54-59 | A node hung below path node k is an unplaced neighbour of it, and of no earlier path node. |
| TreeLayout.LeavesDisjoint | graph_visualization.py:57-58 | No node hangs below two path nodes. |
| TreeLayout.PlaceLeaves | graph_visualization.py:55-59 | The new positions are exactly the neighbours that had none, in neighbour order, in the path node's column at leaf_y = start_y + y_spacing, start_y + 2·y_spacing, … with no gap. Earlier positions are kept. |
| TreeLayout.PlaceBranches | graph_visualization.py:54-59 | The placed nodes afterwards are those of the first loop plus the neighbours of all path nodes. Below each path node its own hung nodes stand in its column, one y_spacing apart with no gap. Earlier positions are kept. |
| TreeLayout.PlaceLeftovers | graph_visualization.py:62-65 | The nodes not yet placed are stacked in one column at x, one y_spacing apart from start_y, each once. Nothing else changes. |
| TreeLayout.Arrange | graph_visualization.py:45-67 | Every vertex gets a position. The path lies on the start row. Below each path node hang exactly its neighbours first placed there, in the column of the path node, one y_spacing apart, in neighbour order. The leftovers are exactly the vertices that are neither given, nor on the path, nor adjacent to it; they fill the next column, each once. Positions off the path that the caller gave are kept. |
| TreeLayout.BranchPosition | graph_visualization.py:54-59 | A neighbour of path node i that neither the caller nor the path placed sits in the column of the first path node k ≤ i adjacent to it, at start_y + (j + 1)·y_spacing, where j is its index among the nodes hung there. |
| TreeLayout.ArrangeTree | graph_visualization.py:43-67 | The path used is the longest-path search's result: the first per-node search result of greatest length, or `[]` when no node has another neighbour. The positions are exactly those that `Arrange` states. |
| Charts.BucketSnoc | graph_visualization.py:358-361 | Appending an edge appends its sublabel to its own length's bucket and to no other. |
| Charts.BucketsCoverEdges | graph_visualization.py:345-361 | When the distinct keys include every edge length, the buckets together hold every edge once. |
| Charts.BucketSublabels | graph_visualization.py:343-363 | `T` lists each edge's length in edge order. Each bucket holds, in edge order, the sublabels of the edges of that length. The keys are 8, 9, 10, "∞", then new lengths in order of first appearance, and the bucket sizes add up to the number of edges. |
| Charts.InsertSpec | graph_visualization.py:153 | Inserting into a sorted list keeps it sorted and adds exactly that element. |
| Charts.Sort | graph_visualization.py:153 | The sort returns a sorted permutation of its input, with "∞" after every finite length. |
| Charts.SortedUnique | graph_visualization.py:153 | Any two sorted permutations are equal, so the result does not depend on the sorting algorithm. |
| Charts.SlotInverse | graph_visualization.py:156-159 | Both position tables place the ranks 0 … 6 in seven distinct cells, leaving cells 6 and 8 free. |
| Charts.FillGrid | graph_visualization.py:154-166 | The sorted lengths of ranks 0 … 5 go to their table position and rank 6 to cell 7. Later lengths are dropped, and untouched cells stay empty. |
| Charts.GridPlacement | graph_visualization.py:156-166 | The j-th smallest length (j < 7) lands in the cell of rank j. |
| Charts.GridAscending | graph_visualization.py:151-166 | The filled cells read in ascending order: row by row when there are more than four distinct lengths, column by column otherwise. |

## Left out

- **Solver.** The z3 solver is not modelled. Each front end takes the solver's answer as a parameter: no model, or a model satisfying the constraints the code states. Whether a model exists is not decided.
- **Bipartition.** `nx.connected_components` and `nx.bipartite.sets` (CP.py:33-42) become one parameter: a side A meeting every edge once, or none exactly when the graph is not bipartite.
- **Colouring and isomorphism.** `is_tripartite` (greedy colouring), `is_isomorphic_to_any`, tree generation and `generate_tripartite_c5` are library searches outside the core.
- **I/O.** The pygame display loop, the rendering and dragging code, `generate_latex`'s file output, the `print` calls and the example scripts are I/O.
- **Relabelled graphs.** A relabelled graph is a value of nodes, edge set and labels. The neighbour order of a graph after `nx.relabel_nodes` is not modelled.
- **Labeling.** Node names are integers, which is what the labels are.
- **Builders.Merge.** It takes graph values rather than graph objects.
- **Labeling.Labeling1ToK.** For k ≤ 0 the code builds an empty constraint system, which z3 always satisfies. The model returns the empty list without consulting the oracle.
- **Extracted methods.** `DecodeCopies`, `Expand`, `PlaceLeaves`, `PlaceBranches` and `PlaceLeftovers` are loops of the source given their own methods, each with the contract its loop needs.
- **TreeLayout.BfsLongestPath.** Because of the strict `>` at graph_visualization.py:30, the search keeps the first enqueued path of greatest length. For the star s–a, s–b searched from s it returns [s, a]. The model proves that the result is a simple path from the start along edges. It does not prove that the path is the longest one from the start, because the layout uses only the path property.
- **TreeLayout.ArrangeTree.** It returns the updated position map instead of changing the caller's dictionary in place. `visualize` shares one `pos` across components (graph_visualization.py:314), ignores the return value (graph_visualization.py:324), then reads `pos[node]` (graph_visualization.py:325) and stores `pos` (graph_visualization.py:328). In the model the caller must pass the returned map on in place of its own.
- **TreeLayout.PlaceLeftovers.** The order of `remaining_nodes` is set iteration order, which Python does not fix. The model returns it as `leftover` and proves only that it lists each remaining node once.
- **TreeLayout.BfsLongestPath: start node.** It requires the start node to be in the graph. The source only ever calls it with `g.nodes()`.
- **Infinite labels.** `math.inf` is a datatype case rather than a float. The NaN of `inf % 7` is a value of its own.
- **TreeLayout.Arrange: spacing.** The spacing defaults of 50 are ordinary parameters.
