/**
 * The two tables the display keeps per graph (graph_visualization.py:342-363 and 151-166):
 * the edge sublabels bucketed by edge length, and the 3×3 grid of sorted edge lengths.
 */
module Charts {
  import opened Wrappers
  import opened Counting
  import opened DisplayLabels
  import opened Graphs

  // ---------------------------------------------------------------------------------------
  // Bucketing sublabels by length
  // ---------------------------------------------------------------------------------------

  /** The keys the bucket dictionary starts with, in insertion order: 8, 9, 10 and "∞". */
  function InitialKeys(): seq<Label> {
    [Fin(8), Fin(9), Fin(10), Inf]
  }

  /** The sublabels of the edges whose length is `d`, in edge order. */
  function Bucket(mod: int, edges: seq<(Label, Label)>, d: Label): seq<Sublabel> {
    if edges == [] then []
    else
      (if EdgeLength(mod, edges[0].0, edges[0].1) == d then [EdgeSublabel(edges[0].0, edges[0].1)] else [])
      + Bucket(mod, edges[1..], d)
  }

  /** Appending an edge appends its sublabel to its own length's bucket and to no other. */
  lemma {:induction false} BucketSnoc(mod: int, edges: seq<(Label, Label)>, e: (Label, Label), d: Label)
    ensures Bucket(mod, edges + [e], d)
         == Bucket(mod, edges, d) + (if EdgeLength(mod, e.0, e.1) == d then [EdgeSublabel(e.0, e.1)] else [])
  {
    if edges != [] {
      assert (edges + [e])[1..] == edges[1..] + [e];
      BucketSnoc(mod, edges[1..], e, d);
    }
  }

  /** The bucket sizes summed over `keys`. */
  function SumSizes(keys: seq<Label>, buckets: map<Label, seq<Sublabel>>): nat
    requires forall d :: d in keys ==> d in buckets
  {
    if keys == [] then 0 else |buckets[keys[0]]| + SumSizes(keys[1..], buckets)
  }

  /** The sizes of the buckets of `edges` summed over `keys`. */
  function TotalSize(mod: int, keys: seq<Label>, edges: seq<(Label, Label)>): nat {
    if keys == [] then 0 else |Bucket(mod, edges, keys[0])| + TotalSize(mod, keys[1..], edges)
  }

  /** One more edge adds one to the total when its length is one of the (distinct) keys. */
  lemma {:induction false} TotalSizeCons(mod: int, keys: seq<Label>, e: (Label, Label), edges: seq<(Label, Label)>)
    requires NoDup(keys)
    ensures TotalSize(mod, keys, [e] + edges)
         == TotalSize(mod, keys, edges) + (if EdgeLength(mod, e.0, e.1) in keys then 1 else 0)
  {
    if keys != [] {
      assert ([e] + edges)[1..] == edges;
      assert NoDup(keys[1..]) by {
        forall i, j | 0 <= i < j < |keys[1..]| ensures keys[1..][i] != keys[1..][j] {
          assert keys[1..][i] == keys[i + 1] && keys[1..][j] == keys[j + 1];
        }
      }
      TotalSizeCons(mod, keys[1..], e, edges);
      if EdgeLength(mod, e.0, e.1) == keys[0] {
        assert EdgeLength(mod, e.0, e.1) !in keys[1..];
      }
    }
  }

  /** When the distinct keys include every edge length, the buckets hold every edge once. */
  lemma {:induction false} BucketsCoverEdges(mod: int, keys: seq<Label>, edges: seq<(Label, Label)>)
    requires NoDup(keys)
    requires forall i :: 0 <= i < |edges| ==> EdgeLength(mod, edges[i].0, edges[i].1) in keys
    ensures TotalSize(mod, keys, edges) == |edges|
  {
    if edges == [] {
      assert TotalSize(mod, keys, []) == 0 by { EmptyTotal(mod, keys); }
    } else {
      assert edges == [edges[0]] + edges[1..];
      TotalSizeCons(mod, keys, edges[0], edges[1..]);
      BucketsCoverEdges(mod, keys, edges[1..]);
    }
  }

  /** With no edges every bucket is empty. */
  lemma {:induction false} EmptyTotal(mod: int, keys: seq<Label>)
    ensures TotalSize(mod, keys, []) == 0
  {
    if keys != [] {
      EmptyTotal(mod, keys[1..]);
    }
  }

  /** Summing the stored buckets is summing the buckets they equal. */
  lemma {:induction false} SumSizesIsTotal(mod: int, keys: seq<Label>, buckets: map<Label, seq<Sublabel>>, edges: seq<(Label, Label)>)
    requires forall d :: d in keys ==> d in buckets && buckets[d] == Bucket(mod, edges, d)
    ensures SumSizes(keys, buckets) == TotalSize(mod, keys, edges)
  {
    if keys != [] {
      SumSizesIsTotal(mod, keys[1..], buckets, edges);
    }
  }

  /** `keys` lists the keys of `buckets` once each in insertion order: the initial four, then
      the lengths met so far that are not among them, in order of first appearance. */
  ghost predicate KeysMatch(keys: seq<Label>, buckets: map<Label, seq<Sublabel>>, lengths: seq<Label>) {
    keys == AppendNew(InitialKeys(), lengths) &&
    NoDup(keys) && |keys| >= 4 && keys[..4] == InitialKeys() &&
    Elements(keys) == buckets.Keys == Elements(InitialKeys()) + Elements(lengths)
  }

  /** Meeting a length either updates its bucket or appends it as a new key. */
  lemma KeysStep(keys: seq<Label>, buckets: map<Label, seq<Sublabel>>, lengths: seq<Label>, le: Label, v: seq<Sublabel>)
    requires KeysMatch(keys, buckets, lengths)
    ensures le in buckets ==> KeysMatch(keys, buckets[le := v], lengths + [le])
    ensures le !in buckets ==> KeysMatch(keys + [le], buckets[le := v], lengths + [le])
  {
    assert Elements(lengths + [le]) == Elements(lengths) + {le};
    assert (lengths + [le])[..|lengths|] == lengths;
    assert le in buckets <==> le in keys by {
      assert le in keys <==> le in Elements(keys);
    }
    if le !in buckets {
      assert (keys + [le])[..4] == keys[..4];
      assert Elements(keys + [le]) == Elements(keys) + {le};
    }
  }

  /** `buckets` holds the bucket of each of its keys, and every length without a key has an
      empty bucket. */
  ghost predicate BucketsMatch(mod: int, edges: seq<(Label, Label)>, buckets: map<Label, seq<Sublabel>>) {
    (forall d :: d in buckets ==> buckets[d] == Bucket(mod, edges, d)) &&
    (forall d :: d !in buckets ==> Bucket(mod, edges, d) == [])
  }

  /** One step of the loop: append the sublabel to the existing bucket, or open a new one. */
  lemma BucketsStep(mod: int, edges: seq<(Label, Label)>, e: (Label, Label), buckets: map<Label, seq<Sublabel>>)
    requires BucketsMatch(mod, edges, buckets)
    ensures EdgeLength(mod, e.0, e.1) in buckets ==>
      BucketsMatch(mod, edges + [e], buckets[EdgeLength(mod, e.0, e.1) := buckets[EdgeLength(mod, e.0, e.1)] + [EdgeSublabel(e.0, e.1)]])
    ensures EdgeLength(mod, e.0, e.1) !in buckets ==>
      BucketsMatch(mod, edges + [e], buckets[EdgeLength(mod, e.0, e.1) := [EdgeSublabel(e.0, e.1)]])
  {
    forall d ensures Bucket(mod, edges + [e], d)
                  == Bucket(mod, edges, d) + (if EdgeLength(mod, e.0, e.1) == d then [EdgeSublabel(e.0, e.1)] else []) {
      BucketSnoc(mod, edges, e, d);
    }
  }

  /** The state of the loop over `G.edges()` after its first `i` edges. */
  ghost predicate Scanned(mod: int, edges: seq<(Label, Label)>, i: nat, lengths: seq<Label>, keys: seq<Label>, buckets: map<Label, seq<Sublabel>>) {
    i <= |edges| && |lengths| == i &&
    (forall j :: 0 <= j < i ==> lengths[j] == EdgeLength(mod, edges[j].0, edges[j].1)) &&
    KeysMatch(keys, buckets, lengths) &&
    BucketsMatch(mod, edges[..i], buckets)
  }

  /** One pass of the loop keeps its state. */
  lemma ScanStep(mod: int, edges: seq<(Label, Label)>, i: nat, lengths: seq<Label>, keys: seq<Label>, buckets: map<Label, seq<Sublabel>>, le: Label, sub: Sublabel)
    requires Scanned(mod, edges, i, lengths, keys, buckets) && i < |edges|
    requires le == EdgeLength(mod, edges[i].0, edges[i].1) && sub == EdgeSublabel(edges[i].0, edges[i].1)
    ensures le in buckets ==> Scanned(mod, edges, i + 1, lengths + [le], keys, buckets[le := buckets[le] + [sub]])
    ensures le !in buckets ==> Scanned(mod, edges, i + 1, lengths + [le], keys + [le], buckets[le := [sub]])
  {
    assert edges[..i + 1] == edges[..i] + [edges[i]];
    BucketsStep(mod, edges[..i], edges[i], buckets);
    if le in buckets {
      KeysStep(keys, buckets, lengths, le, buckets[le] + [sub]);
    } else {
      KeysStep(keys, buckets, lengths, le, [sub]);
    }
  }

  /** Once every edge is scanned, the buckets hold every edge once. */
  lemma ScanDone(mod: int, edges: seq<(Label, Label)>, lengths: seq<Label>, keys: seq<Label>, buckets: map<Label, seq<Sublabel>>)
    requires Scanned(mod, edges, |edges|, lengths, keys, buckets)
    ensures forall d :: d in buckets ==> buckets[d] == Bucket(mod, edges, d)
    ensures SumSizes(keys, buckets) == |edges|
  {
    assert edges[..|edges|] == edges;
    forall d | d in keys ensures d in buckets && buckets[d] == Bucket(mod, edges, d) {
      assert d in Elements(keys);
    }
    SumSizesIsTotal(mod, keys, buckets, edges);
    forall i | 0 <= i < |edges| ensures EdgeLength(mod, edges[i].0, edges[i].1) in keys {
      assert lengths[i] in Elements(lengths);
      assert lengths[i] in Elements(keys);
    }
    BucketsCoverEdges(mod, keys, edges);
  }

  /**
   * The loop over `G.edges()`: the list of edge lengths, and the dictionary from length to
   * sublabels, whose keys are kept in insertion order in `keys`: the initial four, then each
   * new length where it first appears.
   */
  method BucketSublabels(mod: int, edges: seq<(Label, Label)>)
    returns (lengths: seq<Label>, keys: seq<Label>, buckets: map<Label, seq<Sublabel>>)
    ensures |lengths| == |edges|
    ensures forall i :: 0 <= i < |edges| ==> lengths[i] == EdgeLength(mod, edges[i].0, edges[i].1)
    ensures keys == AppendNew(InitialKeys(), lengths)
    ensures KeysMatch(keys, buckets, lengths)
    ensures forall d :: d in buckets ==> buckets[d] == Bucket(mod, edges, d)
    ensures SumSizes(keys, buckets) == |edges|
  {
    lengths := [];
    keys := InitialKeys();
    buckets := map[Fin(8) := [], Fin(9) := [], Fin(10) := [], Inf := []];
    for i := 0 to |edges|
      invariant Scanned(mod, edges, i, lengths, keys, buckets)
    {
      var le := EdgeLength(mod, edges[i].0, edges[i].1);
      var sub := EdgeSublabel(edges[i].0, edges[i].1);
      ScanStep(mod, edges, i, lengths, keys, buckets, le, sub);
      if le in buckets {
        buckets := buckets[le := buckets[le] + [sub]];
      } else {
        buckets := buckets[le := [sub]];
        keys := keys + [le];
      }
      lengths := lengths + [le];
    }
    ScanDone(mod, edges, lengths, keys, buckets);
  }

  // ---------------------------------------------------------------------------------------
  // The grid of sorted lengths
  // ---------------------------------------------------------------------------------------

  /** The sort key `float('inf') if x == '∞' else x`: "∞" after every finite length. */
  predicate Le(a: Label, b: Label) {
    b.Inf? || (a.Fin? && a.n <= b.n)
  }

  predicate SortedLabels(s: seq<Label>) {
    forall i, j :: 0 <= i < j < |s| ==> Le(s[i], s[j])
  }

  function Insert(x: Label, s: seq<Label>): (r: seq<Label>)
    ensures |r| == |s| + 1
  {
    if s == [] || Le(x, s[0]) then [x] + s else [s[0]] + Insert(x, s[1..])
  }

  /** `sorted(T, key=...)`, written as an insertion sort: the input sorted, as a
      permutation. */
  function Sort(s: seq<Label>): (r: seq<Label>)
    ensures |r| == |s|
    ensures SortedLabels(r)
    ensures multiset(r) == multiset(s)
  {
    if s == [] then []
    else
      InsertSpec(s[0], Sort(s[1..]));
      assert s == [s[0]] + s[1..];
      Insert(s[0], Sort(s[1..]))
  }

  /** A sorted tail headed by a lower bound of all of it is sorted. */
  lemma SortedCons(h: Label, t: seq<Label>)
    requires SortedLabels(t)
    requires forall j :: 0 <= j < |t| ==> Le(h, t[j])
    ensures SortedLabels([h] + t)
  {
    var r := [h] + t;
    forall i, j | 0 <= i < j < |r| ensures Le(r[i], r[j]) {
      assert r[j] == t[j - 1];
      if i > 0 {
        assert r[i] == t[i - 1];
      }
    }
  }

  lemma SortedTail(s: seq<Label>)
    requires SortedLabels(s) && s != []
    ensures SortedLabels(s[1..])
    ensures forall j :: 0 <= j < |s[1..]| ==> Le(s[0], s[1..][j])
  {
    forall i, j | 0 <= i < j < |s[1..]| ensures Le(s[1..][i], s[1..][j]) {
      assert s[1..][i] == s[i + 1] && s[1..][j] == s[j + 1];
    }
    forall j | 0 <= j < |s[1..]| ensures Le(s[0], s[1..][j]) {
      assert s[1..][j] == s[j + 1];
    }
  }

  /** The head of a sorted sequence comes first among its elements. */
  lemma SortedHead(s: seq<Label>, x: Label)
    requires SortedLabels(s) && x in multiset(s)
    ensures Le(s[0], x)
  {
    var k :| 0 <= k < |s| && s[k] == x;
    if k > 0 {
      assert Le(s[0], s[k]);
    }
  }

  /** Inserting into a sorted sequence adds one element and keeps it sorted. */
  lemma {:induction false} InsertSpec(x: Label, s: seq<Label>)
    requires SortedLabels(s)
    ensures multiset(Insert(x, s)) == multiset(s) + multiset{x}
    ensures SortedLabels(Insert(x, s))
  {
    if s == [] || Le(x, s[0]) {
      assert forall j :: 0 <= j < |s| ==> Le(x, s[j]) by {
        if s != [] {
          SortedTail(s);
        }
      }
      SortedCons(x, s);
    } else {
      var t := Insert(x, s[1..]);
      SortedTail(s);
      InsertSpec(x, s[1..]);
      assert multiset(s) == multiset{s[0]} + multiset(s[1..]) by {
        assert s == [s[0]] + s[1..];
      }
      forall j | 0 <= j < |t| ensures Le(s[0], t[j]) {
        assert t[j] in multiset(t);
        if t[j] != x {
          assert t[j] in multiset(s[1..]);
          var k :| 0 <= k < |s[1..]| && s[1..][k] == t[j];
        }
      }
      SortedCons(s[0], t);
    }
  }

  /** Two sorted sequences with the same elements are equal, so the stable sort the display
      uses gives the same list as any other sort. */
  lemma {:induction false} SortedUnique(a: seq<Label>, b: seq<Label>)
    requires SortedLabels(a) && SortedLabels(b) && multiset(a) == multiset(b)
    ensures a == b
  {
    if a != [] {
      assert |b| == |a| by { assert |multiset(a)| == |multiset(b)|; }
      SortedTail(a);
      SortedTail(b);
      assert multiset(a) == multiset{a[0]} + multiset(a[1..]) by { assert a == [a[0]] + a[1..]; }
      assert multiset(b) == multiset{b[0]} + multiset(b[1..]) by { assert b == [b[0]] + b[1..]; }
      SortedHead(b, a[0]);
      SortedHead(a, b[0]);
      assert a[0] == b[0];
      assert multiset(a[1..]) == multiset(a) - multiset{a[0]};
      assert multiset(b[1..]) == multiset(b) - multiset{b[0]};
      SortedUnique(a[1..], b[1..]);
      assert a == [a[0]] + a[1..] && b == [b[0]] + b[1..];
    }
  }

  /** The grid cells that the first seven sorted lengths go to: row by row when there are
      more than four distinct lengths, column by column otherwise (cell `row * 3 + col`). */
  function Positions(wide: bool): seq<nat> {
    if wide then [0, 1, 2, 3, 4, 5, 7] else [0, 3, 1, 4, 2, 5, 7]
  }

  /** The inverse of `Positions`: the rank of the sorted length shown in cell `c`, or 7 for
      the two cells (6 and 8) that no rank reaches. */
  function Slot(wide: bool, c: nat): nat {
    if c == 6 || c == 8 then 7
    else if c == 7 then 6
    else if wide || c == 5 then c
    else if c < 3 then 2 * c
    else 2 * (c - 3) + 1
  }

  /** `Slot` and `Positions` are inverse bijections between the ranks 0..6 and the cells other
      than 6 and 8. */
  lemma SlotInverse(wide: bool)
    ensures forall j :: 0 <= j < 7 ==> Positions(wide)[j] < 9 && Slot(wide, Positions(wide)[j]) == j
    ensures forall c :: 0 <= c < 9 && Slot(wide, c) < 7 ==> Positions(wide)[Slot(wide, c)] == c
    ensures Slot(wide, 6) == 7 && Slot(wide, 8) == 7
  {
  }

  function Min(a: int, b: int): int {
    if a < b then a else b
  }

  /** `cells` is the grid for the lengths `t`: the cell of rank j (j < 7) holds the j-th
      sorted length when there is one, and every other cell is empty. */
  predicate IsGrid(t: seq<Label>, cells: seq<Option<Label>>) {
    |cells| == 9 &&
    forall c :: 0 <= c < 9 ==>
      cells[c] == if Slot(|Elements(t)| > 4, c) < Min(|t|, 7) then Some(Sort(t)[Slot(|Elements(t)| > 4, c)]) else None
  }

  /**
   * The grid fill: the i-th sorted length goes to `positions[i]` for i < 6 and to cell 7 for
   * i == 6; later ones are dropped and untouched cells stay empty (`None`).
   */
  method FillGrid(t: seq<Label>) returns (cells: seq<Option<Label>>)
    ensures IsGrid(t, cells)
    ensures cells[6] == None && cells[8] == None
  {
    var sorted := Sort(t);
    var wide := |Elements(t)| > 4;
    var positions := Positions(wide);
    SlotInverse(wide);
    var grid := new Option<Label>[9](_ => None);
    for i := 0 to |sorted|
      invariant forall c :: 0 <= c < 9 ==> grid[c] == if Slot(wide, c) < Min(i, 7) then Some(sorted[Slot(wide, c)]) else None
    {
      if i < 6 {
        grid[positions[i]] := Some(sorted[i]);
      } else if i == 6 {
        grid[7] := Some(sorted[i]);
      }
    }
    cells := grid[..];
  }

  /** Every one of the first seven sorted lengths lands in its cell of `Positions`. */
  lemma GridPlacement(t: seq<Label>, cells: seq<Option<Label>>, j: int)
    requires IsGrid(t, cells)
    requires 0 <= j < |t| && j < 7
    ensures cells[Positions(|Elements(t)| > 4)[j]] == Some(Sort(t)[j])
  {
    SlotInverse(|Elements(t)| > 4);
  }

  /** The number of cell `c` when the grid is read column by column. */
  function ColumnMajor(c: nat): nat {
    (c % 3) * 3 + c / 3
  }

  /** The filled cells read in ascending order: row by row when more than four distinct lengths
      make the grid wide; otherwise column by column through the top two rows, and then
      cell 7 (row 2, column 1). */
  lemma GridAscending(t: seq<Label>, cells: seq<Option<Label>>, c: nat, c': nat)
    requires IsGrid(t, cells)
    requires c < 9 && c' < 9 && cells[c].Some? && cells[c'].Some?
    requires if |Elements(t)| > 4 then c < c'
             else (c' == 7 && c != 7) || (c < 6 && c' < 6 && ColumnMajor(c) < ColumnMajor(c'))
    ensures Le(cells[c].value, cells[c'].value)
  {
    var wide := |Elements(t)| > 4;
    assert Slot(wide, c) < Min(|t|, 7) && Slot(wide, c') < Min(|t|, 7);
    assert Slot(wide, c) < Slot(wide, c');
  }
}
