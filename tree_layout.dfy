/**
 * The tree layout of graph_visualization.py:18-67: a breadth-first search that keeps, from
 * one start node, the first path it enqueues of greatest length; the first longest such path
 * over all start nodes; and the position dictionary that places that path on one row, its other neighbours
 * below it and every node left over in one more column.
 */
module TreeLayout {
  import opened Counting
  import opened Graphs

  /** `p` walks along edges of `g` without repeating a node. */
  ghost predicate IsPath<N(!new)>(g: Graph<N>, p: seq<N>) {
    |p| >= 1 && NoDup(p) && forall i :: 0 <= i < |p| - 1 ==> p[i + 1] in g.Neighbors(p[i])
  }

  /** `v` has no neighbour other than itself (at most a self-loop). */
  ghost predicate Lonely<N(!new)>(g: Graph<N>, v: N) {
    forall w :: w in g.Neighbors(v) ==> w == v
  }

  /** Every neighbour of `v` is in `seen`. */
  ghost predicate Closed<N(!new)>(g: Graph<N>, v: N, seen: set<N>) {
    forall w :: w in g.Neighbors(v) ==> w in seen
  }

  /** What the search from `start` promises: nothing when `start` has no other neighbour,
      otherwise a path of at least two nodes that starts at `start`. */
  ghost predicate BfsResult<N(!new)>(g: Graph<N>, start: N, p: seq<N>) {
    (p == [] <==> Lonely(g, start)) &&
    (p != [] ==> IsPath(g, p) && p[0] == start && |p| >= 2)
  }

  /** The nodes waiting in the queue. */
  function Queued<N>(queue: seq<(N, seq<N>)>): set<N> {
    set q | q in queue :: q.0
  }

  /** A queue entry: a path from `start` that ends at the entry's node and stays inside `seen`. */
  ghost predicate Entry<N(!new)>(g: Graph<N>, start: N, seen: set<N>, q: (N, seq<N>)) {
    IsPath(g, q.1) && q.1[0] == start && q.1[|q.1| - 1] == q.0 && Elements(q.1) <= seen
  }

  /** The state of the search, the queue's closure aside: the visited nodes are vertices and
      include `start`, every queue entry is a path from `start` through visited nodes, the
      longest path so far is one too, and it is empty exactly while nothing but `start` has
      been visited — which is all that can happen when `start` is lonely. */
  ghost predicate Frontier<N(!new)>(g: Graph<N>, start: N, visited: set<N>, queue: seq<(N, seq<N>)>, maxPath: seq<N>) {
    && visited <= g.Vertices() && start in visited
    && (forall q :: q in queue ==> Entry(g, start, visited, q))
    && (maxPath != [] ==> IsPath(g, maxPath) && maxPath[0] == start && |maxPath| >= 2)
    && (maxPath == [] <==> visited == {start})
    && (Lonely(g, start) ==> visited == {start})
  }

  /** Every visited node other than `node` is waiting in the queue or has all its neighbours
      visited. */
  ghost predicate ClosedBut<N(!new)>(g: Graph<N>, visited: set<N>, queue: seq<(N, seq<N>)>, node: N) {
    forall v :: v in visited ==> v in Queued(queue) || v == node || Closed(g, v, visited)
  }

  /** The closure invariant of breadth-first search: every visited node waits in the queue or
      has all its neighbours visited. */
  ghost predicate ClosedAll<N(!new)>(g: Graph<N>, visited: set<N>, queue: seq<(N, seq<N>)>) {
    forall v :: v in visited ==> v in Queued(queue) || Closed(g, v, visited)
  }

  /** Enqueueing an unvisited neighbour of the node being expanded keeps the search state. */
  lemma VisitStep<N(!new)>(g: Graph<N>, start: N, visited: set<N>, queue: seq<(N, seq<N>)>, maxPath: seq<N>,
                           node: N, path: seq<N>, neighbor: N)
    requires g.Valid()
    requires Frontier(g, start, visited, queue, maxPath) && Entry(g, start, visited, (node, path))
    requires neighbor in g.Neighbors(node) && neighbor !in visited
    ensures Frontier(g, start, visited + {neighbor}, queue + [(neighbor, path + [neighbor])],
                     if |path + [neighbor]| > |maxPath| then path + [neighbor] else maxPath)
    ensures Entry(g, start, visited + {neighbor}, (node, path))
  {
    var visited', path' := visited + {neighbor}, path + [neighbor];
    assert node in Elements(path);
    assert neighbor in g.adj;
    assert !Lonely(g, start) by {
      if node == start {
        assert neighbor in g.Neighbors(start) && neighbor != start;
      } else {
        assert node in visited && visited != {start};
      }
    }
    assert IsPath(g, path') by {
      forall i | 0 <= i < |path'| - 1 ensures path'[i + 1] in g.Neighbors(path'[i]) {
        if i < |path| - 1 {
          assert path'[i] == path[i] && path'[i + 1] == path[i + 1];
        }
      }
      forall i, j | 0 <= i < j < |path'| ensures path'[i] != path'[j] {
        if j == |path| {
          assert path'[i] in Elements(path);
        } else {
          assert path'[i] == path[i] && path'[j] == path[j];
        }
      }
    }
    assert Elements(path') == Elements(path) + {neighbor};
    forall q | q in queue + [(neighbor, path')] ensures Entry(g, start, visited', q) {
      if q in queue {
        assert Entry(g, start, visited, q);
      }
    }
  }

  /** Enqueueing an unvisited neighbour keeps the closure of the other visited nodes. */
  lemma ClosedVisit<N(!new)>(g: Graph<N>, visited: set<N>, queue: seq<(N, seq<N>)>, node: N, neighbor: N, path: seq<N>)
    requires ClosedBut(g, visited, queue, node)
    ensures ClosedBut(g, visited + {neighbor}, queue + [(neighbor, path)], node)
  {
    forall v | v in visited + {neighbor}
      ensures v in Queued(queue + [(neighbor, path)]) || v == node || Closed(g, v, visited + {neighbor})
    {
      if v == neighbor {
        assert (neighbor, path) in queue + [(neighbor, path)];
      } else if v in Queued(queue) {
        var q :| q in queue && q.0 == v;
        assert q in queue + [(neighbor, path)];
      }
    }
  }

  /** Popping the head of the queue keeps the search state and leaves the popped node the
      only one that may be open. */
  lemma PopStep<N(!new)>(g: Graph<N>, start: N, visited: set<N>, queue: seq<(N, seq<N>)>, maxPath: seq<N>)
    requires queue != [] && Frontier(g, start, visited, queue, maxPath) && ClosedAll(g, visited, queue)
    ensures Frontier(g, start, visited, queue[1..], maxPath) && Entry(g, start, visited, queue[0])
    ensures ClosedBut(g, visited, queue[1..], queue[0].0)
  {
    forall q | q in queue[1..] ensures Entry(g, start, visited, q) {
      assert q in queue;
    }
    forall v | v in visited ensures v in Queued(queue[1..]) || v == queue[0].0 || Closed(g, v, visited) {
      if v in Queued(queue) && v != queue[0].0 {
        var q :| q in queue && q.0 == v;
        var k :| 0 <= k < |queue| && queue[k] == q;
        assert queue[1..][k - 1] == q;
      }
    }
  }

  /** Once all of the expanded node's neighbours are visited, every visited node is closed or
      queued again. */
  lemma ExpandDone<N(!new)>(g: Graph<N>, visited: set<N>, queue: seq<(N, seq<N>)>, node: N)
    requires ClosedBut(g, visited, queue, node) && Closed(g, node, visited)
    ensures ClosedAll(g, visited, queue)
  {
  }

  /** When the queue runs dry, the longest path found is what the search promises. */
  lemma BfsDone<N(!new)>(g: Graph<N>, start: N, visited: set<N>, maxPath: seq<N>)
    requires Frontier(g, start, visited, [], maxPath) && ClosedAll(g, visited, [])
    ensures BfsResult(g, start, maxPath)
  {
    if !Lonely(g, start) {
      var w :| w in g.Neighbors(start) && w != start;
      assert Closed(g, start, visited);
      assert w in visited;
    }
  }

  /** The search starts with `start` visited and queued on its own. */
  lemma BfsStart<N(!new)>(g: Graph<N>, start: N)
    requires start in g.adj
    ensures Frontier(g, start, {start}, [(start, [start])], [])
    ensures ClosedAll(g, {start}, [(start, [start])])
  {
    assert Queued([(start, [start])]) == {start};
    assert Elements([start]) == {start};
  }

  /** Fewer unseen vertices after `seen` grows. */
  lemma SeenGrows<N>(all: set<N>, seen: set<N>, seen': set<N>, v: N)
    requires seen <= seen' && v in seen' && v !in seen && v in all
    ensures |all - seen'| < |all - seen|
  {
    assert all - seen' <= (all - seen) - {v};
    SubsetCard(all - seen', (all - seen) - {v});
  }

  /**
   * The inner loop of `bfs_longest_path_length`: expand `node`, reached along `path`, by
   * marking and enqueueing each of its unvisited neighbours in neighbour order, and keeping
   * each new path that is longer than the longest so far.
   */
  method Expand<N(!new)>(g: Graph<N>, start: N, node: N, path: seq<N>,
                         visited: set<N>, queue: seq<(N, seq<N>)>, maxPath: seq<N>)
    returns (visited': set<N>, queue': seq<(N, seq<N>)>, maxPath': seq<N>)
    requires g.Valid()
    requires Frontier(g, start, visited, queue, maxPath) && Entry(g, start, visited, (node, path))
    requires ClosedBut(g, visited, queue, node)
    ensures Frontier(g, start, visited', queue', maxPath') && ClosedAll(g, visited', queue')
    ensures visited <= visited' && (visited' == visited ==> queue' == queue)
  {
    visited', queue', maxPath' := visited, queue, maxPath;
    var ns := g.Neighbors(node);
    for j := 0 to |ns|
      invariant visited <= visited' && (visited' == visited ==> queue' == queue)
      invariant Frontier(g, start, visited', queue', maxPath')
      invariant Entry(g, start, visited', (node, path))
      invariant ClosedBut(g, visited', queue', node)
      invariant Elements(ns[..j]) <= visited'
    {
      var neighbor := ns[j];
      assert Elements(ns[..j + 1]) == Elements(ns[..j]) + {neighbor} by {
        assert ns[..j + 1] == ns[..j] + [neighbor];
      }
      if neighbor !in visited' {
        VisitStep(g, start, visited', queue', maxPath', node, path, neighbor);
        ClosedVisit(g, visited', queue', node, neighbor, path + [neighbor]);
        visited' := visited' + {neighbor};
        var newPath := path + [neighbor];
        queue' := queue' + [(neighbor, newPath)];
        if |newPath| > |maxPath'| {
          maxPath' := newPath;
        }
      }
    }
    assert Closed(g, node, visited') by {
      assert ns[..|ns|] == ns;
    }
    ExpandDone(g, visited', queue', node);
  }

  /**
   * `bfs_longest_path_length(start)`: a breadth-first search from `start` that marks nodes
   * visited as it enqueues them and keeps the longest path it has enqueued (the first one of
   * each length).
   */
  method BfsLongestPath<N(!new)>(g: Graph<N>, start: N) returns (maxPath: seq<N>)
    requires g.Valid() && start in g.adj
    ensures BfsResult(g, start, maxPath)
  {
    var visited := {start};
    var queue := [(start, [start])];
    maxPath := [];
    BfsStart(g, start);
    while queue != []
      invariant Frontier(g, start, visited, queue, maxPath)
      invariant ClosedAll(g, visited, queue)
      decreases |g.Vertices() - visited|, |queue|
    {
      var node, path := queue[0].0, queue[0].1;
      ghost var visited0 := visited;
      PopStep(g, start, visited, queue, maxPath);
      visited, queue, maxPath := Expand(g, start, node, path, visited, queue[1..], maxPath);
      if visited != visited0 {
        var v :| v in visited && v !in visited0;
        SeenGrows(g.Vertices(), visited0, visited, v);
      }
    }
    BfsDone(g, start, visited, maxPath);
  }

  /**
   * `find_longest_path(g)`: the search from every node in node order, keeping the first
   * longest result. `found` holds the result of each search and `at` the node whose result
   * is kept.
   */
  method FindLongestPath<N(!new)>(g: Graph<N>) returns (longest: seq<N>, ghost found: seq<seq<N>>, ghost at: nat)
    requires g.Valid()
    ensures |found| == |g.nodes|
    ensures forall i :: 0 <= i < |found| ==> BfsResult(g, g.nodes[i], found[i])
    ensures forall i :: 0 <= i < |found| ==> |found[i]| <= |longest|
    ensures longest != [] ==> at < |found| && longest == found[at] && forall k :: 0 <= k < at ==> |found[k]| < |longest|
    ensures longest != [] ==> IsPath(g, longest) && |longest| >= 2
    ensures longest == [] <==> forall v :: v in g.adj ==> Lonely(g, v)
  {
    longest, found, at := [], [], 0;
    for i := 0 to |g.nodes|
      invariant |found| == i
      invariant forall k :: 0 <= k < i ==> BfsResult(g, g.nodes[k], found[k])
      invariant forall k :: 0 <= k < i ==> |found[k]| <= |longest|
      invariant longest != [] ==> at < i && longest == found[at] && forall k :: 0 <= k < at ==> |found[k]| < |longest|
    {
      assert g.nodes[i] in g.adj;
      var path := BfsLongestPath(g, g.nodes[i]);
      found := found + [path];
      if |path| > |longest| {
        longest, at := path, i;
      }
    }
    if longest == [] {
      forall v | v in g.adj ensures Lonely(g, v) {
        var k :| 0 <= k < |g.nodes| && g.nodes[k] == v;
        assert BfsResult(g, g.nodes[k], found[k]);
      }
    } else {
      assert BfsResult(g, g.nodes[at], found[at]);
      assert !Lonely(g, g.nodes[at]);
    }
  }

  // ---------------------------------------------------------------------------------------
  // arrange_tree
  // ---------------------------------------------------------------------------------------

  /** One more spacing moves one slot further. */
  lemma NextSlot(base: int, k: int, step: int)
    ensures base + (k + 1) * step == base + k * step + step
  {
  }

  /** `pos'` keeps every position of `pos` and may add more. */
  ghost predicate Extends<N>(pos: map<N, (int, int)>, pos': map<N, (int, int)>) {
    pos.Keys <= pos'.Keys && forall v :: v in pos ==> pos'[v] == pos[v]
  }

  /** Node i of `path` stands on the row `y`, i spacings right of `x`. */
  ghost predicate OnRow<N>(pos: map<N, (int, int)>, path: seq<N>, x: int, y: int, xSpacing: int) {
    forall i :: 0 <= i < |path| ==> path[i] in pos && pos[path[i]] == (x + i * xSpacing, y)
  }

  /** Every position the caller gave to a node off the path is still there. */
  ghost predicate Kept<N>(pos0: map<N, (int, int)>, pos: map<N, (int, int)>, path: seq<N>) {
    forall v :: v in pos0 && v !in path ==> v in pos && pos[v] == pos0[v]
  }

  lemma OnRowExtends<N>(pos: map<N, (int, int)>, pos': map<N, (int, int)>, path: seq<N>, x: int, y: int, xSpacing: int)
    requires OnRow(pos, path, x, y, xSpacing) && Extends(pos, pos')
    ensures OnRow(pos', path, x, y, xSpacing)
  {
    forall i | 0 <= i < |path| ensures path[i] in pos' && pos'[path[i]] == (x + i * xSpacing, y) {
      assert path[i] in pos;
    }
  }

  lemma KeptExtends<N>(pos0: map<N, (int, int)>, pos: map<N, (int, int)>, pos': map<N, (int, int)>, path: seq<N>)
    requires Kept(pos0, pos, path) && Extends(pos, pos')
    ensures Kept(pos0, pos', path)
  {
    forall v | v in pos0 && v !in path ensures v in pos' && pos'[v] == pos0[v] {
      assert v in pos;
    }
  }

  /** The first loop of `arrange_tree`: path node i goes to (startX + i·xSpacing, startY),
      over any position it had; `x` ends one spacing past the last path node. */
  method PlacePath<N(!new)>(path: seq<N>, pos0: map<N, (int, int)>, startX: int, startY: int, xSpacing: int)
    returns (pos: map<N, (int, int)>, x: int)
    requires NoDup(path)
    ensures pos.Keys == pos0.Keys + Elements(path)
    ensures OnRow(pos, path, startX, startY, xSpacing)
    ensures Kept(pos0, pos, path)
    ensures x == startX + |path| * xSpacing
  {
    pos, x := pos0, startX;
    for i := 0 to |path|
      invariant pos.Keys == pos0.Keys + Elements(path[..i])
      invariant forall k :: 0 <= k < i ==> pos[path[k]] == (startX + k * xSpacing, startY)
      invariant forall v :: v in pos0 && v !in path[..i] ==> pos[v] == pos0[v]
      invariant x == startX + i * xSpacing
    {
      assert path[..i + 1] == path[..i] + [path[i]];
      assert forall k :: 0 <= k < i ==> path[k] != path[i];
      pos := pos[path[i] := (x, startY)];
      NextSlot(startX, i, xSpacing);
      x := x + xSpacing;
    }
    assert path[..|path|] == path;
  }

  /** The nodes of `ns` not in `placed`, each once, in the order `ns` meets them: the nodes the
      inner loop of `arrange_tree` gives a position below one path node. */
  ghost function NewLeaves<N>(ns: seq<N>, placed: set<N>): seq<N>
    decreases |ns|
  {
    if ns == [] then []
    else
      var init := NewLeaves(ns[..|ns| - 1], placed);
      var x := ns[|ns| - 1];
      if x in placed || x in init then init else init + [x]
  }

  /** One more neighbour is appended to the new leaves unless it is placed or already one. */
  lemma NewLeavesSnoc<N>(ns: seq<N>, placed: set<N>, j: nat)
    requires j < |ns|
    ensures NewLeaves(ns[..j + 1], placed) ==
      if ns[j] in placed || ns[j] in NewLeaves(ns[..j], placed) then NewLeaves(ns[..j], placed)
      else NewLeaves(ns[..j], placed) + [ns[j]]
  {
    assert ns[..j + 1][..j] == ns[..j];
  }

  /** The new leaves are the unplaced nodes of `ns`, each once. */
  lemma {:induction false} NewLeavesSpec<N>(ns: seq<N>, placed: set<N>)
    ensures NoDup(NewLeaves(ns, placed))
    ensures Elements(NewLeaves(ns, placed)) == Elements(ns) - placed
    decreases |ns|
  {
    if ns != [] {
      var init, x := ns[..|ns| - 1], ns[|ns| - 1];
      NewLeavesSpec(init, placed);
      ElementsLast(ns);
      var leaves := NewLeaves(init, placed);
      if !(x in placed || x in leaves) {
        NoDupSnoc(leaves, x);
        ElementsConcat(leaves, [x]);
      }
    }
  }

  /** The new leaves of a prefix of `ns` are a prefix of those of `ns`: a neighbour met earlier
      is placed earlier. */
  lemma {:induction false} NewLeavesPrefix<N>(ns: seq<N>, placed: set<N>, j: nat)
    requires j <= |ns|
    ensures NewLeaves(ns[..j], placed) <= NewLeaves(ns, placed)
    decreases |ns|
  {
    if j < |ns| {
      var init := ns[..|ns| - 1];
      assert init[..j] == ns[..j];
      NewLeavesPrefix(init, placed, j);
    } else {
      assert ns[..j] == ns;
    }
  }

  /** The nodes with a position once the second loop of `arrange_tree` has handled path nodes
      `0 .. i - 1`, starting from the keys `keys1` the first loop left. */
  ghost function PlacedBefore<N(!new)>(tree: Graph<N>, path: seq<N>, keys1: set<N>, i: nat): set<N>
    requires i <= |path|
    decreases i, 0
  {
    if i == 0 then keys1
    else PlacedBefore(tree, path, keys1, i - 1) + Elements(Leaves(tree, path, keys1, i - 1))
  }

  /** The nodes hung below path node `i`, top to bottom. */
  ghost function Leaves<N(!new)>(tree: Graph<N>, path: seq<N>, keys1: set<N>, i: nat): seq<N>
    requires i < |path|
    decreases i, 1
  {
    NewLeaves(tree.Neighbors(path[i]), PlacedBefore(tree, path, keys1, i))
  }

  /** The neighbours of path nodes `0 .. n - 1`. */
  ghost function AllNeighbors<N(!new)>(tree: Graph<N>, path: seq<N>, n: nat): set<N>
    requires n <= |path|
  {
    if n == 0 then {} else AllNeighbors(tree, path, n - 1) + Elements(tree.Neighbors(path[n - 1]))
  }

  lemma {:induction false} AllNeighborsMem<N(!new)>(tree: Graph<N>, path: seq<N>, n: nat, k: nat, w: N)
    requires k < n <= |path|
    ensures w in tree.Neighbors(path[k]) ==> w in AllNeighbors(tree, path, n)
    decreases n
  {
    if k < n - 1 {
      AllNeighborsMem(tree, path, n - 1, k, w);
    }
  }

  lemma {:induction false} AllNeighborsInGraph<N(!new)>(tree: Graph<N>, path: seq<N>, n: nat)
    requires tree.Valid() && n <= |path|
    ensures AllNeighbors(tree, path, n) <= tree.Vertices()
    decreases n
  {
    if n > 0 {
      AllNeighborsInGraph(tree, path, n - 1);
      forall w | w in tree.Neighbors(path[n - 1]) ensures w in tree.adj {
        NeighborInGraph(tree, path[n - 1], w);
      }
    }
  }

  /** After path nodes `0 .. n - 1` the placed nodes are those of the first loop and every
      neighbour of those path nodes. */
  lemma {:induction false} PlacedBeforeSpec<N(!new)>(tree: Graph<N>, path: seq<N>, keys1: set<N>, n: nat)
    requires n <= |path|
    ensures PlacedBefore(tree, path, keys1, n) == keys1 + AllNeighbors(tree, path, n)
    decreases n
  {
    if n > 0 {
      PlacedBeforeSpec(tree, path, keys1, n - 1);
      NewLeavesSpec(tree.Neighbors(path[n - 1]), PlacedBefore(tree, path, keys1, n - 1));
    }
  }

  /** A node placed by the second loop hangs below some path node before `n`. */
  lemma {:induction false} PlacedFrom<N(!new)>(tree: Graph<N>, path: seq<N>, keys1: set<N>, n: nat, w: N) returns (k: nat)
    requires n <= |path| && w in PlacedBefore(tree, path, keys1, n) && w !in keys1
    ensures k < n && w in Leaves(tree, path, keys1, k)
    decreases n
  {
    if w in Elements(Leaves(tree, path, keys1, n - 1)) {
      k := n - 1;
    } else {
      k := PlacedFrom(tree, path, keys1, n - 1, w);
    }
  }

  /** Every neighbour of path node `i` that the first loop left without a position hangs below
      path node `i` or an earlier one. */
  lemma HungFrom<N(!new)>(tree: Graph<N>, path: seq<N>, keys1: set<N>, i: nat, w: N) returns (k: nat)
    requires i < |path| && w in tree.Neighbors(path[i]) && w !in keys1
    ensures k <= i && w in Leaves(tree, path, keys1, k)
  {
    AllNeighborsMem(tree, path, i + 1, i, w);
    PlacedBeforeSpec(tree, path, keys1, i + 1);
    k := PlacedFrom(tree, path, keys1, i + 1, w);
  }

  /** A node hung below path node `k` is a neighbour of it without a position from the first
      loop, and no earlier path node is adjacent to it: it hangs from the first adjacent one. */
  lemma FirstAdjacent<N(!new)>(tree: Graph<N>, path: seq<N>, keys1: set<N>, k: nat, w: N)
    requires k < |path| && w in Leaves(tree, path, keys1, k)
    ensures w in tree.Neighbors(path[k]) && w !in keys1
    ensures forall k' :: 0 <= k' < k ==> w !in tree.Neighbors(path[k'])
  {
    NewLeavesSpec(tree.Neighbors(path[k]), PlacedBefore(tree, path, keys1, k));
    assert w in Elements(Leaves(tree, path, keys1, k));
    PlacedBeforeSpec(tree, path, keys1, k);
    forall k' | 0 <= k' < k ensures w !in tree.Neighbors(path[k']) {
      AllNeighborsMem(tree, path, k, k', w);
    }
  }

  /** No node hangs below two path nodes. */
  lemma LeavesDisjoint<N(!new)>(tree: Graph<N>, path: seq<N>, keys1: set<N>, k: nat, k': nat, w: N)
    requires k < |path| && k' < |path|
    requires w in Leaves(tree, path, keys1, k) && w in Leaves(tree, path, keys1, k')
    ensures k == k'
  {
    FirstAdjacent(tree, path, keys1, k, w);
    FirstAdjacent(tree, path, keys1, k', w);
  }

  /** The nodes of `col` stand in one column at `x`, node j at j spacings below `startY`. */
  ghost predicate Column<N>(pos: map<N, (int, int)>, col: seq<N>, x: int, startY: int, ySpacing: int) {
    forall j :: 0 <= j < |col| ==> col[j] in pos && pos[col[j]] == (x, startY + j * ySpacing)
  }

  /** Placing a new node one slot below the column extends it. */
  lemma ColumnSnoc<N>(pos: map<N, (int, int)>, col: seq<N>, node: N, x: int, startY: int, ySpacing: int)
    requires Column(pos, col, x, startY, ySpacing) && node !in col
    ensures Column(pos[node := (x, startY + |col| * ySpacing)], col + [node], x, startY, ySpacing)
    ensures startY + |col + [node]| * ySpacing == startY + |col| * ySpacing + ySpacing
  {
    var pos', col' := pos[node := (x, startY + |col| * ySpacing)], col + [node];
    forall j | 0 <= j < |col'| ensures col'[j] in pos' && pos'[col'[j]] == (x, startY + j * ySpacing) {
      if j < |col| {
        assert col'[j] == col[j] && col[j] != node;
      } else {
        assert col'[j] == node && j == |col|;
      }
    }
    NextSlot(startY, |col|, ySpacing);
  }

  /** Positions added later do not move a column. */
  lemma ColumnExtends<N>(pos: map<N, (int, int)>, pos': map<N, (int, int)>, col: seq<N>, x: int, startY: int, ySpacing: int)
    requires Column(pos, col, x, startY, ySpacing) && Extends(pos, pos')
    ensures Column(pos', col, x, startY, ySpacing)
  {
    forall j | 0 <= j < |col| ensures col[j] in pos' && pos'[col[j]] == (x, startY + j * ySpacing) {
      assert col[j] in pos;
    }
  }

  lemma ExtendsTrans<N>(pos: map<N, (int, int)>, pos': map<N, (int, int)>, pos'': map<N, (int, int)>)
    requires Extends(pos, pos') && Extends(pos', pos'')
    ensures Extends(pos, pos'')
  {
    forall v | v in pos ensures pos''[v] == pos[v] {
      assert v in pos';
    }
  }

  /** The state of the inner loop of `arrange_tree` after the neighbours `ns[..j]`: the new
      leaves among them stand in a column at `x` from `y0` down, `leafY` is the next free slot,
      and the positions held before the loop are unchanged. */
  ghost predicate Stacking<N>(ns: seq<N>, j: nat, pos: map<N, (int, int)>, pos': map<N, (int, int)>,
                              x: int, y0: int, ySpacing: int, leafY: int) {
    && j <= |ns|
    && pos'.Keys == pos.Keys + Elements(NewLeaves(ns[..j], pos.Keys))
    && Extends(pos, pos')
    && Column(pos', NewLeaves(ns[..j], pos.Keys), x, y0, ySpacing)
    && leafY == y0 + |NewLeaves(ns[..j], pos.Keys)| * ySpacing
  }

  /** A neighbour that already has a position is passed over. */
  lemma StackSkip<N>(ns: seq<N>, j: nat, pos: map<N, (int, int)>, pos': map<N, (int, int)>,
                     x: int, y0: int, ySpacing: int, leafY: int)
    requires Stacking(ns, j, pos, pos', x, y0, ySpacing, leafY) && j < |ns| && ns[j] in pos'
    ensures Stacking(ns, j + 1, pos, pos', x, y0, ySpacing, leafY)
  {
    NewLeavesSnoc(ns, pos.Keys, j);
    assert NewLeaves(ns[..j + 1], pos.Keys) == NewLeaves(ns[..j], pos.Keys);
  }

  /** A neighbour without a position goes in the next free slot. */
  lemma StackPush<N>(ns: seq<N>, j: nat, pos: map<N, (int, int)>, pos': map<N, (int, int)>,
                     x: int, y0: int, ySpacing: int, leafY: int)
    requires Stacking(ns, j, pos, pos', x, y0, ySpacing, leafY) && j < |ns| && ns[j] !in pos'
    ensures Stacking(ns, j + 1, pos, pos'[ns[j] := (x, leafY)], x, y0, ySpacing, leafY + ySpacing)
  {
    var leaves := NewLeaves(ns[..j], pos.Keys);
    NewLeavesSnoc(ns, pos.Keys, j);
    assert ns[j] !in leaves;
    assert NewLeaves(ns[..j + 1], pos.Keys) == leaves + [ns[j]];
    ElementsConcat(leaves, [ns[j]]);
    ColumnSnoc(pos', leaves, ns[j], x, y0, ySpacing);
    var pos'' := pos'[ns[j] := (x, leafY)];
    forall v | v in pos ensures v in pos'' && pos''[v] == pos[v] {
      assert v in pos';
    }
  }

  /** The inner loop of the second loop of `arrange_tree`: the neighbours of `node` that have no
      position yet go in a column below it, from one spacing under `startY` down, in neighbour
      order; no earlier position moves. */
  method PlaceLeaves<N(!new)>(tree: Graph<N>, node: N, pos: map<N, (int, int)>, startY: int, ySpacing: int)
    returns (pos': map<N, (int, int)>)
    requires node in pos
    ensures pos'.Keys == pos.Keys + Elements(NewLeaves(tree.Neighbors(node), pos.Keys))
    ensures Extends(pos, pos')
    ensures Column(pos', NewLeaves(tree.Neighbors(node), pos.Keys), pos[node].0, startY + ySpacing, ySpacing)
  {
    var leafY := startY + ySpacing;
    var ns := tree.Neighbors(node);
    pos' := pos;
    assert ns[..0] == [];
    for j := 0 to |ns|
      invariant Stacking(ns, j, pos, pos', pos[node].0, startY + ySpacing, ySpacing, leafY)
    {
      var neighbor := ns[j];
      if neighbor !in pos' {
        assert pos'[node] == pos[node];
        StackPush(ns, j, pos, pos', pos[node].0, startY + ySpacing, ySpacing, leafY);
        pos' := pos'[neighbor := (pos'[node].0, leafY)];
        leafY := leafY + ySpacing;
      } else {
        StackSkip(ns, j, pos, pos', pos[node].0, startY + ySpacing, ySpacing, leafY);
      }
    }
    assert ns[..|ns|] == ns;
  }

  /** The state of the second loop of `arrange_tree` after path nodes `0 .. i - 1`: exactly the
      nodes `PlacedBefore(i)` have positions, those of the first loop unchanged, and below each
      path node handled so far hang its leaves. */
  ghost predicate Hung<N(!new)>(tree: Graph<N>, path: seq<N>, pos1: map<N, (int, int)>, pos: map<N, (int, int)>,
                                i: nat, startY: int, ySpacing: int) {
    && i <= |path| && Elements(path) <= pos1.Keys
    && pos.Keys == PlacedBefore(tree, path, pos1.Keys, i)
    && Extends(pos1, pos)
    && forall k :: 0 <= k < i ==>
      path[k] in pos1 && Column(pos, Leaves(tree, path, pos1.Keys, k), pos1[path[k]].0, startY + ySpacing, ySpacing)
  }

  /** Hanging the leaves of path node `i` moves on to path node `i + 1`. */
  lemma HungStep<N(!new)>(tree: Graph<N>, path: seq<N>, pos1: map<N, (int, int)>, prev: map<N, (int, int)>,
                          pos: map<N, (int, int)>, i: nat, startY: int, ySpacing: int)
    requires Hung(tree, path, pos1, prev, i, startY, ySpacing) && i < |path|
    requires pos.Keys == prev.Keys + Elements(NewLeaves(tree.Neighbors(path[i]), prev.Keys))
    requires Extends(prev, pos)
    requires path[i] in prev
    requires Column(pos, NewLeaves(tree.Neighbors(path[i]), prev.Keys), prev[path[i]].0, startY + ySpacing, ySpacing)
    ensures Hung(tree, path, pos1, pos, i + 1, startY, ySpacing)
  {
    assert path[i] in Elements(path);
    ExtendsTrans(pos1, prev, pos);
    forall k | 0 <= k < i + 1
      ensures path[k] in pos1
      ensures Column(pos, Leaves(tree, path, pos1.Keys, k), pos1[path[k]].0, startY + ySpacing, ySpacing)
    {
      assert path[k] in Elements(path);
      if k < i {
        ColumnExtends(prev, pos, Leaves(tree, path, pos1.Keys, k), pos1[path[k]].0, startY + ySpacing, ySpacing);
      }
    }
  }

  /** The second loop of `arrange_tree`: below each path node in turn, in a column at its x, the
      neighbours that have no position yet. */
  method PlaceBranches<N(!new)>(tree: Graph<N>, path: seq<N>, pos1: map<N, (int, int)>, startY: int, ySpacing: int)
    returns (pos: map<N, (int, int)>)
    requires Elements(path) <= pos1.Keys
    ensures pos.Keys == PlacedBefore(tree, path, pos1.Keys, |path|)
    ensures Extends(pos1, pos)
    ensures forall k :: 0 <= k < |path| ==>
      path[k] in pos1 && Column(pos, Leaves(tree, path, pos1.Keys, k), pos1[path[k]].0, startY + ySpacing, ySpacing)
  {
    pos := pos1;
    for i := 0 to |path|
      invariant Hung(tree, path, pos1, pos, i, startY, ySpacing)
    {
      ghost var prev := pos;
      assert path[i] in Elements(path);
      pos := PlaceLeaves(tree, path[i], pos, startY, ySpacing);
      HungStep(tree, path, pos1, prev, pos, i, startY, ySpacing);
    }
  }

  /** The third loop of `arrange_tree`: the tree nodes that still have no position, in an
      order the model leaves open (Python iterates a set), stacked at `x` from `startY` down.
      `leftover` is that order. */
  method PlaceLeftovers<N(!new)>(tree: Graph<N>, pos2: map<N, (int, int)>, x: int, startY: int, ySpacing: int)
    returns (pos: map<N, (int, int)>, leftover: seq<N>)
    ensures NoDup(leftover) && Elements(leftover) == tree.Vertices() - pos2.Keys
    ensures pos.Keys == pos2.Keys + tree.Vertices()
    ensures Extends(pos2, pos)
    ensures Column(pos, leftover, x, startY, ySpacing)
  {
    var remaining := tree.Vertices() - pos2.Keys;
    var y := startY;
    pos, leftover := pos2, [];
    while remaining != {}
      invariant NoDup(leftover) && Elements(leftover) !! remaining
      invariant Elements(leftover) + remaining == tree.Vertices() - pos2.Keys
      invariant pos.Keys == pos2.Keys + Elements(leftover)
      invariant forall v :: v in pos2 ==> pos[v] == pos2[v]
      invariant Column(pos, leftover, x, startY, ySpacing)
      invariant y == startY + |leftover| * ySpacing
    {
      var node :| node in remaining;
      assert node !in Elements(leftover);
      assert Elements(leftover + [node]) == Elements(leftover) + {node};
      NoDupSnoc(leftover, node);
      ColumnSnoc(pos, leftover, node, x, startY, ySpacing);
      pos := pos[node := (x, y)];
      leftover := leftover + [node];
      remaining := remaining - {node};
      y := y + ySpacing;
    }
  }

  /** Both ends of an edge of a valid graph are nodes of it. */
  lemma NeighborInGraph<N(!new)>(g: Graph<N>, u: N, w: N)
    requires g.Valid() && w in g.Neighbors(u)
    ensures u in g.adj && w in g.adj
  {
  }

  /** A path of at least two nodes in a valid graph lies inside the graph. */
  lemma PathInGraph<N(!new)>(g: Graph<N>, p: seq<N>)
    requires g.Valid() && IsPath(g, p) && |p| >= 2
    ensures Elements(p) <= g.Vertices()
  {
    forall v | v in Elements(p) ensures v in g.adj {
      var i :| 0 <= i < |p| && p[i] == v;
      if i == 0 {
        assert p[1] in g.Neighbors(p[0]);
      } else {
        assert p[i] in g.Neighbors(p[i - 1]);
      }
    }
  }

  /** How the key sets of the three loops add up: positions given by the caller, the path,
      the branches and the leftovers together cover the caller's keys and every tree node. */
  lemma KeysAddUp<N>(nodes: set<N>, keys0: set<N>, onPath: set<N>, branched: set<N>,
                     keys1: set<N>, keys2: set<N>, keys: set<N>, left: set<N>)
    requires onPath <= nodes && branched <= nodes
    requires keys1 == keys0 + onPath && keys2 == keys1 + branched
    requires left == nodes - keys2 && keys == keys2 + nodes
    ensures keys == keys0 + nodes && left == nodes - keys0 - onPath - branched
  {
  }


  /** Below path node k, in its column at `startX + k·xSpacing`, hang `Leaves(k)` from one
      spacing under the path's row down. */
  ghost predicate Branches<N(!new)>(tree: Graph<N>, path: seq<N>, keys1: set<N>, pos: map<N, (int, int)>,
                                    startX: int, startY: int, xSpacing: int, ySpacing: int) {
    forall k :: 0 <= k < |path| ==>
      Column(pos, Leaves(tree, path, keys1, k), startX + k * xSpacing, startY + ySpacing, ySpacing)
  }

  /** The columns the second loop hung keep their place through the third loop. */
  lemma BranchesFrom<N(!new)>(tree: Graph<N>, path: seq<N>, pos1: map<N, (int, int)>, pos2: map<N, (int, int)>,
                              pos: map<N, (int, int)>, startX: int, startY: int, xSpacing: int, ySpacing: int)
    requires OnRow(pos1, path, startX, startY, xSpacing) && Extends(pos2, pos)
    requires forall k :: 0 <= k < |path| ==>
      path[k] in pos1 && Column(pos2, Leaves(tree, path, pos1.Keys, k), pos1[path[k]].0, startY + ySpacing, ySpacing)
    ensures Branches(tree, path, pos1.Keys, pos, startX, startY, xSpacing, ySpacing)
  {
    forall k | 0 <= k < |path|
      ensures Column(pos, Leaves(tree, path, pos1.Keys, k), startX + k * xSpacing, startY + ySpacing, ySpacing)
    {
      ColumnExtends(pos2, pos, Leaves(tree, path, pos1.Keys, k), pos1[path[k]].0, startY + ySpacing, ySpacing);
    }
  }

  /**
   * The three loops of `arrange_tree` for a given path `path` without repeats inside the tree:
   * node i of the path on the row `startY` at `startX + i·xSpacing`; below each path node, in
   * its column, its neighbours that still have no position (`Leaves`); every tree node still
   * without a position in one more column past the path (`leftover` gives their order). Every
   * tree node ends with a position and positions off the path that the caller gave are kept.
   */
  method Arrange<N(!new)>(tree: Graph<N>, path: seq<N>, pos0: map<N, (int, int)>, startX: int, startY: int, xSpacing: int, ySpacing: int)
    returns (pos: map<N, (int, int)>, leftover: seq<N>)
    requires tree.Valid() && NoDup(path) && Elements(path) <= tree.Vertices()
    ensures pos.Keys == pos0.Keys + tree.Vertices()
    ensures OnRow(pos, path, startX, startY, xSpacing)
    ensures Kept(pos0, pos, path)
    ensures Branches(tree, path, pos0.Keys + Elements(path), pos, startX, startY, xSpacing, ySpacing)
    ensures NoDup(leftover)
    ensures Elements(leftover) == tree.Vertices() - pos0.Keys - Elements(path) - AllNeighbors(tree, path, |path|)
    ensures Column(pos, leftover, startX + |path| * xSpacing, startY, ySpacing)
  {
    var pos1, x := PlacePath(path, pos0, startX, startY, xSpacing);
    var pos2 := PlaceBranches(tree, path, pos1, startY, ySpacing);
    PlacedBeforeSpec(tree, path, pos1.Keys, |path|);
    AllNeighborsInGraph(tree, path, |path|);
    pos, leftover := PlaceLeftovers(tree, pos2, x, startY, ySpacing);
    KeysAddUp(tree.Vertices(), pos0.Keys, Elements(path), AllNeighbors(tree, path, |path|),
              pos1.Keys, pos2.Keys, pos.Keys, Elements(leftover));
    OnRowExtends(pos1, pos2, path, startX, startY, xSpacing);
    OnRowExtends(pos2, pos, path, startX, startY, xSpacing);
    KeptExtends(pos0, pos1, pos2, path);
    KeptExtends(pos0, pos2, pos, path);
    BranchesFrom(tree, path, pos1, pos2, pos, startX, startY, xSpacing, ySpacing);
  }

  /** Where the layout puts a neighbour `w` of path node `i` that neither the caller nor the path
      placed: in the column of the first path node `k` adjacent to it, as the (j+1)-th node
      hung there. */
  lemma BranchPosition<N(!new)>(tree: Graph<N>, path: seq<N>, pos0: map<N, (int, int)>, pos: map<N, (int, int)>,
                                startX: int, startY: int, xSpacing: int, ySpacing: int, i: nat, w: N)
    returns (k: nat, j: nat)
    requires Branches(tree, path, pos0.Keys + Elements(path), pos, startX, startY, xSpacing, ySpacing)
    requires i < |path| && w in tree.Neighbors(path[i]) && w !in pos0 && w !in path
    ensures k <= i && w in tree.Neighbors(path[k])
    ensures forall k' :: 0 <= k' < k ==> w !in tree.Neighbors(path[k'])
    ensures j < |Leaves(tree, path, pos0.Keys + Elements(path), k)| && Leaves(tree, path, pos0.Keys + Elements(path), k)[j] == w
    ensures w in pos && pos[w] == (startX + k * xSpacing, startY + (j + 1) * ySpacing)
  {
    var keys1 := pos0.Keys + Elements(path);
    k := HungFrom(tree, path, keys1, i, w);
    FirstAdjacent(tree, path, keys1, k, w);
    var leaves := Leaves(tree, path, keys1, k);
    j :| 0 <= j < |leaves| && leaves[j] == w;
    assert Column(pos, leaves, startX + k * xSpacing, startY + ySpacing, ySpacing);
    NextSlot(startY, j, ySpacing);
  }

  /**
   * `arrange_tree(tree, pos, start_x, start_y, x_spacing, y_spacing)`: `Arrange` along the path
   * that `find_longest_path` keeps. `found` holds the result of the search from each node; the
   * path is the first of them of greatest length, `found[at]`; it is empty exactly when no node
   * has a neighbour other than itself.
   */
  method ArrangeTree<N(!new)>(tree: Graph<N>, pos0: map<N, (int, int)>, startX: int, startY: int, xSpacing: int, ySpacing: int)
    returns (pos: map<N, (int, int)>, path: seq<N>, leftover: seq<N>, ghost found: seq<seq<N>>, ghost at: nat)
    requires tree.Valid()
    ensures |found| == |tree.nodes|
    ensures forall i :: 0 <= i < |found| ==> BfsResult(tree, tree.nodes[i], found[i]) && |found[i]| <= |path|
    ensures path == [] <==> forall v :: v in tree.adj ==> Lonely(tree, v)
    ensures path != [] ==> at < |found| && path == found[at] && forall k :: 0 <= k < at ==> |found[k]| < |path|
    ensures path != [] ==> IsPath(tree, path) && |path| >= 2
    ensures pos.Keys == pos0.Keys + tree.Vertices()
    ensures OnRow(pos, path, startX, startY, xSpacing)
    ensures Kept(pos0, pos, path)
    ensures Branches(tree, path, pos0.Keys + Elements(path), pos, startX, startY, xSpacing, ySpacing)
    ensures NoDup(leftover)
    ensures Elements(leftover) == tree.Vertices() - pos0.Keys - Elements(path) - AllNeighbors(tree, path, |path|)
    ensures Column(pos, leftover, startX + |path| * xSpacing, startY, ySpacing)
  {
    path, found, at := FindLongestPath(tree);
    assert Elements(path) <= tree.Vertices() by {
      if path != [] {
        PathInGraph(tree, path);
      }
    }
    pos, leftover := Arrange(tree, path, pos0, startX, startY, xSpacing, ySpacing);
  }
}
