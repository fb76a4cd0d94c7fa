/** The bag builders: each walks the graph, or the result of a graph
    algorithm run on it, and counts feature strings in a dictionary. */
module Bags {
  import opened Text
  import opened Counting
  import opened Graphs
  import opened Wrappers

  /** `if key not in bag: bag[key] = 0` and `bag[key] += 1`, which every
      builder writes inline. */
  method Increment(bag: Bag, key: string) returns (bag': Bag)
    ensures bag' == Add(bag, key, 1)
  {
    bag' := bag;
    if key !in bag' {
      bag' := bag'[key := 0];
    }
    bag' := bag'[key := bag'[key] + 1];
  }

  // ---------------------------------------------------------------------------
  // Bag of nodes

  /** Each node adds 1 to its label. */
  method BagOfNodes(g: Graph) returns (bag: Bag)
    ensures bag == Tally(g.labels)
    ensures forall l :: l in bag <==> l in g.labels
    ensures forall l :: l in bag ==> bag[l] == multiset(g.labels)[l]
    ensures Weight(bag) == |g.labels|
  {
    bag := map[];
    for i := 0 to |g.labels|
      invariant bag == Tally(g.labels[..i])
    {
      var key := g.labels[i];
      TallyStep(g.labels, i);
      bag := Increment(bag, key);
    }
    assert g.labels[..|g.labels|] == g.labels;
    TallyCounts(g.labels);
    TallyWeight(g.labels);
  }

  // ---------------------------------------------------------------------------
  // Bag of edges

  /** `"%s-%s" % (label(i), label(j))`. When neither label contains "-",
      the key splits back into the two labels. */
  function EdgeKey(g: Graph, e: (nat, nat)): (r: string)
    requires e.0 < |g.labels| && e.1 < |g.labels|
    ensures '-' !in g.labels[e.0] && '-' !in g.labels[e.1] ==> Split(r, '-') == [g.labels[e.0], g.labels[e.1]]
  {
    var parts := [g.labels[e.0], g.labels[e.1]];
    assert Join("-", parts) == g.labels[e.0] + "-" + g.labels[e.1] by { assert parts[1..] == [g.labels[e.1]]; }
    JoinSplits(parts, '-');
    g.labels[e.0] + "-" + g.labels[e.1]
  }

  /** The keys of the edges, in edge order. */
  function EdgeKeys(g: Graph): (r: seq<string>)
    requires Valid(g)
    ensures |r| == |g.edges|
    ensures forall e :: 0 <= e < |g.edges| ==> r[e] == EdgeKey(g, g.edges[e])
  {
    seq(|g.edges|, e requires 0 <= e < |g.edges| => EdgeKey(g, g.edges[e]))
  }

  /** The key of edge e is its two labels joined by "-". */
  lemma EdgeKeyOf(g: Graph, e: nat)
    requires Valid(g) && e < |g.edges|
    ensures EdgeKeys(g)[e] == g.labels[g.edges[e].0] + "-" + g.labels[g.edges[e].1]
  {
  }

  /** Each edge adds 1 to the labels of its ends joined by "-". */
  method BagOfEdges(g: Graph) returns (bag: Bag)
    requires Valid(g)
    ensures bag == Tally(EdgeKeys(g))
    ensures forall k :: k in bag <==> exists e :: 0 <= e < |g.edges| && EdgeKey(g, g.edges[e]) == k
    ensures forall k :: k in bag ==> bag[k] == multiset(EdgeKeys(g))[k]
    ensures Weight(bag) == |g.edges|
  {
    ghost var keys := EdgeKeys(g);
    bag := map[];
    for e := 0 to |g.edges|
      invariant bag == Tally(keys[..e])
    {
      var (i, j) := g.edges[e];
      var key := g.labels[i] + "-" + g.labels[j];
      EdgeKeyOf(g, e);
      TallyStep(keys, e);
      bag := Increment(bag, key);
    }
    assert keys[..|g.edges|] == keys;
    EdgeTally(g);
  }

  /** The tally of the edge keys holds the key of every edge and no other,
      each counted as often as it occurs, one per edge in all. */
  lemma EdgeTally(g: Graph)
    requires Valid(g)
    ensures forall k :: k in Tally(EdgeKeys(g)) <==> exists e :: 0 <= e < |g.edges| && EdgeKey(g, g.edges[e]) == k
    ensures forall k :: k in Tally(EdgeKeys(g)) ==> Tally(EdgeKeys(g))[k] == multiset(EdgeKeys(g))[k]
    ensures Weight(Tally(EdgeKeys(g))) == |g.edges|
  {
    var keys := EdgeKeys(g);
    TallyCounts(keys);
    TallyWeight(keys);
    forall k | k in Tally(keys)
      ensures exists e :: 0 <= e < |g.edges| && EdgeKey(g, g.edges[e]) == k
    {
      var e :| 0 <= e < |keys| && keys[e] == k;
    }
    forall k | exists e :: 0 <= e < |g.edges| && EdgeKey(g, g.edges[e]) == k
      ensures k in Tally(keys)
    {
      var e :| 0 <= e < |g.edges| && EdgeKey(g, g.edges[e]) == k;
      assert keys[e] == k;
    }
  }

  // ---------------------------------------------------------------------------
  // Bag of neighborhoods

  /** `label(i) + ":" + '-'.join(sorted(labels of the reachable nodes))`.
      The key starts with the source's label and ":"; when no reachable
      node's label contains "-", the rest splits back into the sorted labels. */
  function NeighborhoodKey(g: Graph, row: Row): (r: string)
    requires RowInGraph(g, row)
    ensures |g.labels[row.source]| < |r| && r[..|g.labels[row.source]| + 1] == g.labels[row.source] + ":"
    ensures |row.targets| > 0 && (forall t :: 0 <= t < |row.targets| ==> '-' !in g.labels[row.targets[t].node]) ==>
      Split(r[|g.labels[row.source]| + 1..], '-') == Sort(Labels(g, TargetNodes(row.targets)))
  {
    var head, ls := g.labels[row.source] + ":", Labels(g, TargetNodes(row.targets));
    var tail := Join("-", Sort(ls));
    assert (head + tail)[..|head|] == head && (head + tail)[|head|..] == tail;
    SortedJoinSplits(ls, '-');
    head + tail
  }

  /** The keys each source contributes: none when it reaches no node, its
      neighborhood key otherwise. */
  function NeighborhoodGroups(g: Graph, rows: seq<Row>): (r: seq<seq<string>>)
    requires PathsInGraph(g, rows)
    ensures |r| == |rows|
    ensures forall i :: 0 <= i < |rows| ==>
      r[i] == if |rows[i].targets| == 0 then [] else [NeighborhoodKey(g, rows[i])]
  {
    seq(|rows|, i requires 0 <= i < |rows| =>
      if |rows[i].targets| == 0 then [] else [NeighborhoodKey(g, rows[i])])
  }

  /** A source with no reachable node adds nothing; every other source adds 1
      to its neighborhood key. */
  method BagOfNeighborhoods(g: Graph, rows: seq<Row>) returns (bag: Bag)
    requires PathsInGraph(g, rows)
    ensures bag == Tally(Flatten(NeighborhoodGroups(g, rows)))
    ensures forall k :: k in bag <==>
      exists i :: 0 <= i < |rows| && |rows[i].targets| > 0 && NeighborhoodKey(g, rows[i]) == k
    ensures Weight(bag) == NonEmptyRows(rows)
  {
    ghost var groups := NeighborhoodGroups(g, rows);
    bag := map[];
    for r := 0 to |rows|
      invariant bag == Tally(Flatten(groups[..r]))
    {
      FlattenSnoc(groups, r);
      var row := rows[r];
      var reachable := TargetNodes(row.targets);
      if |reachable| == 0 {
        assert Flatten(groups[..r + 1]) == Flatten(groups[..r]);
        continue;
      }
      var ns := Labels(g, reachable);
      var key := g.labels[row.source] + ":" + Join("-", Sort(ns));
      assert groups[r] == [key];
      bag := Increment(bag, key);
      TallySnoc(Flatten(groups[..r]), key);
    }
    assert groups[..|rows|] == groups;
    ghost var keys := Flatten(groups);
    TallyCounts(keys);
    TallyWeight(keys);
    FlattenLength(groups);
    NeighborhoodCount(g, rows);
    forall k | k in bag
      ensures exists i :: 0 <= i < |rows| && |rows[i].targets| > 0 && NeighborhoodKey(g, rows[i]) == k
    {
      var i := NeighborhoodKeySource(g, rows, k);
    }
    forall i | 0 <= i < |rows| && |rows[i].targets| > 0
      ensures NeighborhoodKey(g, rows[i]) in bag
    {
      NeighborhoodKeyProduced(g, rows, i);
    }
  }

  /** A source with a reachable node produces its key. */
  lemma NeighborhoodKeyProduced(g: Graph, rows: seq<Row>, i: nat)
    requires PathsInGraph(g, rows) && i < |rows| && |rows[i].targets| > 0
    ensures NeighborhoodKey(g, rows[i]) in Flatten(NeighborhoodGroups(g, rows))
  {
    FlattenHas(NeighborhoodGroups(g, rows), i, 0);
  }

  /** Every key produced is the key of a source with a reachable node. */
  lemma NeighborhoodKeySource(g: Graph, rows: seq<Row>, k: string) returns (i: nat)
    requires PathsInGraph(g, rows) && k in Flatten(NeighborhoodGroups(g, rows))
    ensures i < |rows| && |rows[i].targets| > 0 && NeighborhoodKey(g, rows[i]) == k
  {
    var j;
    i, j := FlattenSource(NeighborhoodGroups(g, rows), k);
  }

  /** One key for each source with a reachable node. */
  lemma {:induction false} NeighborhoodCount(g: Graph, rows: seq<Row>)
    requires PathsInGraph(g, rows)
    ensures TotalLength(NeighborhoodGroups(g, rows)) == NonEmptyRows(rows)
  {
    if |rows| > 0 {
      var n := |rows| - 1;
      var groups := NeighborhoodGroups(g, rows);
      assert PathsInGraph(g, rows[..n]);
      NeighborhoodCount(g, rows[..n]);
      assert NeighborhoodGroups(g, rows[..n]) == groups[..n];
      FlattenSnoc(groups, n);
      assert groups[..n + 1] == groups;
    }
  }

  /** The neighborhood key depends only on the source's label and on which
      nodes are reachable, not on the order they are listed in. */
  lemma NeighborhoodKeyOfPermutation(g: Graph, row1: Row, row2: Row)
    requires RowInGraph(g, row1) && RowInGraph(g, row2)
    requires g.labels[row1.source] == g.labels[row2.source]
    requires multiset(TargetNodes(row1.targets)) == multiset(TargetNodes(row2.targets))
    ensures NeighborhoodKey(g, row1) == NeighborhoodKey(g, row2)
  {
    LabelsOfPermutation(g, TargetNodes(row1.targets), TargetNodes(row2.targets));
    SortedJoinOfPermutation("-", Labels(g, TargetNodes(row1.targets)), Labels(g, TargetNodes(row2.targets)));
  }

  /** A source that reaches only itself, as every source does with cutoff 0,
      has the key `label(i):label(i)`. */
  lemma SelfNeighborhood(g: Graph, row: Row)
    requires RowInGraph(g, row) && TargetNodes(row.targets) == [row.source]
    ensures NeighborhoodKey(g, row) == g.labels[row.source] + ":" + g.labels[row.source]
  {
    var l := g.labels[row.source];
    assert Labels(g, [row.source]) == [l];
    assert Sort([l]) == [l] by { assert [l][1..] == []; }
  }

  // ---------------------------------------------------------------------------
  // Bag of reachabilities

  /** `"%s:%s" % (label(i), label(j))`. When neither label contains ":",
      the key splits back into the two labels. */
  function ReachKey(g: Graph, i: nat, j: nat): (r: string)
    requires i < |g.labels| && j < |g.labels|
    ensures ':' !in g.labels[i] && ':' !in g.labels[j] ==> Split(r, ':') == [g.labels[i], g.labels[j]]
  {
    var parts := [g.labels[i], g.labels[j]];
    assert Join(":", parts) == g.labels[i] + ":" + g.labels[j] by { assert parts[1..] == [g.labels[j]]; }
    JoinSplits(parts, ':');
    g.labels[i] + ":" + g.labels[j]
  }

  /** The keys of one source's targets, in target order. */
  function ReachRow(g: Graph, row: Row): (r: seq<string>)
    requires RowInGraph(g, row)
    ensures |r| == |row.targets|
    ensures forall t :: 0 <= t < |row.targets| ==> r[t] == ReachKey(g, row.source, row.targets[t].node)
  {
    seq(|row.targets|, t requires 0 <= t < |row.targets| => ReachKey(g, row.source, TargetNodes(row.targets)[t]))
  }

  function ReachGroups(g: Graph, rows: seq<Row>): (r: seq<seq<string>>)
    requires PathsInGraph(g, rows)
    ensures |r| == |rows|
    ensures forall i :: 0 <= i < |rows| ==> r[i] == ReachRow(g, rows[i])
  {
    seq(|rows|, i requires 0 <= i < |rows| => ReachRow(g, rows[i]))
  }

  /** Each (i, j) entry adds 1 to `label(i):label(j)`. */
  method BagOfReachabilities(g: Graph, rows: seq<Row>) returns (bag: Bag)
    requires PathsInGraph(g, rows)
    ensures bag == Tally(Flatten(ReachGroups(g, rows)))
    ensures forall k :: k in bag <==>
      exists i, t :: 0 <= i < |rows| && 0 <= t < |rows[i].targets|
                     && ReachKey(g, rows[i].source, rows[i].targets[t].node) == k
    ensures Weight(bag) == PairCount(rows)
  {
    ghost var groups := ReachGroups(g, rows);
    bag := map[];
    for r := 0 to |rows|
      invariant bag == Tally(Flatten(groups[..r]))
    {
      FlattenSnoc(groups, r);
      var row := rows[r];
      var reachable := TargetNodes(row.targets);
      if |reachable| == 0 {
        assert Flatten(groups[..r + 1]) == Flatten(groups[..r]);
        continue;
      }
      bag := AddReachRow(g, row, bag, Flatten(groups[..r]));
    }
    assert groups[..|rows|] == groups;
    ghost var keys := Flatten(groups);
    TallyCounts(keys);
    TallyWeight(keys);
    FlattenLength(groups);
    ReachCount(g, rows);
    forall k | k in bag
      ensures exists i, t :: 0 <= i < |rows| && 0 <= t < |rows[i].targets|
                             && ReachKey(g, rows[i].source, rows[i].targets[t].node) == k
    {
      var i, t := ReachKeySource(g, rows, k);
    }
    forall i, t | 0 <= i < |rows| && 0 <= t < |rows[i].targets|
      ensures ReachKey(g, rows[i].source, rows[i].targets[t].node) in bag
    {
      ReachKeyProduced(g, rows, i, t);
    }
  }

  /** The inner loop: each target of one source adds 1 to its key. */
  method AddReachRow(g: Graph, row: Row, bag: Bag, ghost done: seq<string>) returns (bag': Bag)
    requires RowInGraph(g, row) && bag == Tally(done)
    ensures bag' == Tally(done + ReachRow(g, row))
  {
    ghost var keys := ReachRow(g, row);
    var reachable := TargetNodes(row.targets);
    bag' := bag;
    assert done + keys[..0] == done;
    for t := 0 to |reachable|
      invariant bag' == Tally(done + keys[..t])
    {
      var key := g.labels[row.source] + ":" + g.labels[reachable[t]];
      assert key == keys[t];
      TallyStepAfter(done, keys, t);
      bag' := Increment(bag', key);
    }
    assert keys[..|reachable|] == keys;
  }

  lemma ReachKeyProduced(g: Graph, rows: seq<Row>, i: nat, t: nat)
    requires PathsInGraph(g, rows) && i < |rows| && t < |rows[i].targets|
    ensures ReachKey(g, rows[i].source, rows[i].targets[t].node) in Flatten(ReachGroups(g, rows))
  {
    FlattenHas(ReachGroups(g, rows), i, t);
  }

  lemma ReachKeySource(g: Graph, rows: seq<Row>, k: string) returns (i: nat, t: nat)
    requires PathsInGraph(g, rows) && k in Flatten(ReachGroups(g, rows))
    ensures i < |rows| && t < |rows[i].targets| && ReachKey(g, rows[i].source, rows[i].targets[t].node) == k
  {
    i, t := FlattenSource(ReachGroups(g, rows), k);
  }

  /** One key per (i, j) entry. */
  lemma {:induction false} ReachCount(g: Graph, rows: seq<Row>)
    requires PathsInGraph(g, rows)
    ensures TotalLength(ReachGroups(g, rows)) == PairCount(rows)
  {
    if |rows| > 0 {
      var n := |rows| - 1;
      var groups := ReachGroups(g, rows);
      assert PathsInGraph(g, rows[..n]);
      ReachCount(g, rows[..n]);
      assert ReachGroups(g, rows[..n]) == groups[..n];
      FlattenSnoc(groups, n);
      assert groups[..n + 1] == groups;
    }
  }

  // ---------------------------------------------------------------------------
  // Bag of shortest paths

  /** `'-'.join(labels along the path)`. A one-node path gives its label;
      when no label contains "-", the key splits back into the labels along
      the path. */
  function PathKey(g: Graph, path: seq<nat>): (r: string)
    requires InGraph(g, path)
    ensures |path| == 1 ==> r == g.labels[path[0]]
    ensures |path| > 0 && (forall k :: 0 <= k < |path| ==> '-' !in g.labels[path[k]]) ==> Split(r, '-') == Labels(g, path)
  {
    JoinSplits(Labels(g, path), '-');
    Join("-", Labels(g, path))
  }

  /** The trivial path from a node to itself gives the node's label. */
  lemma TrivialPathKey(g: Graph, i: nat)
    requires i < |g.labels|
    ensures InGraph(g, [i]) && PathKey(g, [i]) == g.labels[i]
  {
    assert Labels(g, [i]) == [g.labels[i]];
  }

  /** The keys of one source's paths, in target order. */
  function PathRow(g: Graph, row: Row): (r: seq<string>)
    requires RowInGraph(g, row)
    ensures |r| == |row.targets|
    ensures forall t :: 0 <= t < |row.targets| ==> r[t] == PathKey(g, row.targets[t].path)
  {
    seq(|row.targets|, t requires 0 <= t < |row.targets| => PathKey(g, row.targets[t].path))
  }

  function PathGroups(g: Graph, rows: seq<Row>): (r: seq<seq<string>>)
    requires PathsInGraph(g, rows)
    ensures |r| == |rows|
    ensures forall i :: 0 <= i < |rows| ==> r[i] == PathRow(g, rows[i])
  {
    seq(|rows|, i requires 0 <= i < |rows| => PathRow(g, rows[i]))
  }

  /** Each (i, j) entry adds 1 to the labels along its path joined by "-". */
  method BagOfShortestPaths(g: Graph, rows: seq<Row>) returns (bag: Bag)
    requires PathsInGraph(g, rows)
    ensures bag == Tally(Flatten(PathGroups(g, rows)))
    ensures forall k :: k in bag <==>
      exists i, t :: 0 <= i < |rows| && 0 <= t < |rows[i].targets| && PathKey(g, rows[i].targets[t].path) == k
    ensures Weight(bag) == PairCount(rows)
  {
    ghost var groups := PathGroups(g, rows);
    bag := map[];
    for r := 0 to |rows|
      invariant bag == Tally(Flatten(groups[..r]))
    {
      FlattenSnoc(groups, r);
      var row := rows[r];
      bag := AddPathRow(g, row, bag, Flatten(groups[..r]));
    }
    assert groups[..|rows|] == groups;
    ghost var keys := Flatten(groups);
    TallyCounts(keys);
    TallyWeight(keys);
    FlattenLength(groups);
    PathCount(g, rows);
    forall k | k in bag
      ensures exists i, t :: 0 <= i < |rows| && 0 <= t < |rows[i].targets| && PathKey(g, rows[i].targets[t].path) == k
    {
      var i, t := PathKeySource(g, rows, k);
    }
    forall i, t | 0 <= i < |rows| && 0 <= t < |rows[i].targets|
      ensures PathKey(g, rows[i].targets[t].path) in bag
    {
      PathKeyProduced(g, rows, i, t);
    }
  }

  /** The key of a source's t-th path is its labels joined by "-". */
  lemma PathRowKey(g: Graph, row: Row, t: nat)
    requires RowInGraph(g, row) && t < |row.targets|
    ensures PathRow(g, row)[t] == Join("-", Labels(g, row.targets[t].path))
  {
  }

  /** The inner loop: each path of one source adds 1 to its key. */
  method AddPathRow(g: Graph, row: Row, bag: Bag, ghost done: seq<string>) returns (bag': Bag)
    requires RowInGraph(g, row) && bag == Tally(done)
    ensures bag' == Tally(done + PathRow(g, row))
  {
    ghost var keys := PathRow(g, row);
    bag' := bag;
    assert done + keys[..0] == done;
    for t := 0 to |row.targets|
      invariant bag' == Tally(done + keys[..t])
    {
      var path := Labels(g, row.targets[t].path);
      var key := Join("-", path);
      PathRowKey(g, row, t);
      TallyStepAfter(done, keys, t);
      bag' := Increment(bag', key);
    }
    assert keys[..|row.targets|] == keys;
  }

  lemma PathKeyProduced(g: Graph, rows: seq<Row>, i: nat, t: nat)
    requires PathsInGraph(g, rows) && i < |rows| && t < |rows[i].targets|
    ensures PathKey(g, rows[i].targets[t].path) in Flatten(PathGroups(g, rows))
  {
    FlattenHas(PathGroups(g, rows), i, t);
  }

  lemma PathKeySource(g: Graph, rows: seq<Row>, k: string) returns (i: nat, t: nat)
    requires PathsInGraph(g, rows) && k in Flatten(PathGroups(g, rows))
    ensures i < |rows| && t < |rows[i].targets| && PathKey(g, rows[i].targets[t].path) == k
  {
    i, t := FlattenSource(PathGroups(g, rows), k);
  }

  /** One key per (i, j) entry. */
  lemma {:induction false} PathCount(g: Graph, rows: seq<Row>)
    requires PathsInGraph(g, rows)
    ensures TotalLength(PathGroups(g, rows)) == PairCount(rows)
  {
    if |rows| > 0 {
      var n := |rows| - 1;
      var groups := PathGroups(g, rows);
      assert PathsInGraph(g, rows[..n]);
      PathCount(g, rows[..n]);
      assert PathGroups(g, rows[..n]) == groups[..n];
      FlattenSnoc(groups, n);
      assert groups[..n + 1] == groups;
    }
  }

  // ---------------------------------------------------------------------------
  // Bag of components

  /** `'-'.join(sorted(labels of the component's nodes))`. When no label
      contains "-", the key splits back into the sorted labels. */
  function ComponentKey(g: Graph, c: seq<nat>): (r: string)
    requires InGraph(g, c)
    ensures |c| > 0 && (forall k :: 0 <= k < |c| ==> '-' !in g.labels[c[k]]) ==> Split(r, '-') == Sort(Labels(g, c))
  {
    SortedJoinSplits(Labels(g, c), '-');
    Join("-", Sort(Labels(g, c)))
  }

  /** The keys of the components, in the order they come. */
  function ComponentKeys(g: Graph, comps: seq<seq<nat>>): (r: seq<string>)
    requires NodesInGraph(g, comps)
    ensures |r| == |comps|
    ensures forall c :: 0 <= c < |comps| ==> r[c] == ComponentKey(g, comps[c])
  {
    seq(|comps|, c requires 0 <= c < |comps| => ComponentKey(g, comps[c]))
  }

  /** Each component adds 1 to its key. */
  method BagOfComponents(g: Graph, comps: seq<seq<nat>>) returns (bag: Bag)
    requires NodesInGraph(g, comps)
    ensures bag == Tally(ComponentKeys(g, comps))
    ensures forall k :: k in bag <==> exists c :: 0 <= c < |comps| && ComponentKey(g, comps[c]) == k
    ensures forall k :: k in bag ==> bag[k] == multiset(ComponentKeys(g, comps))[k]
    ensures Weight(bag) == |comps|
  {
    ghost var keys := ComponentKeys(g, comps);
    bag := map[];
    for c := 0 to |comps|
      invariant bag == Tally(keys[..c])
    {
      var ns := Labels(g, comps[c]);
      var key := Join("-", Sort(ns));
      assert key == keys[c];
      TallyStep(keys, c);
      bag := Increment(bag, key);
    }
    assert keys[..|comps|] == keys;
    TallyCounts(keys);
    TallyWeight(keys);
  }

  /** The key of a component does not depend on the order its nodes are
      listed in. */
  lemma ComponentKeyOfPermutation(g: Graph, c1: seq<nat>, c2: seq<nat>)
    requires InGraph(g, c1) && InGraph(g, c2)
    requires multiset(c1) == multiset(c2)
    ensures ComponentKey(g, c1) == ComponentKey(g, c2)
  {
    LabelsOfPermutation(g, c1, c2);
    SortedJoinOfPermutation("-", Labels(g, c1), Labels(g, c2));
  }

  /** `bag_of_strongly_connected_components`, given the components that
      `strongly_connected_components(graph)` yields: they split the nodes, and
      two nodes with edges both ways lie in the same one. */
  method BagOfStronglyConnectedComponents(g: Graph, comps: seq<seq<nat>>) returns (bag: Bag)
    requires Valid(g) && Partition(g, comps) && MutualEdgesTogether(g, comps)
    ensures bag == Tally(ComponentKeys(g, comps))
    ensures Weight(bag) == |comps| <= |g.labels|
    ensures |g.labels| > 0 ==> Weight(bag) > 0
    ensures HasMutualEdges(g) ==> Weight(bag) < |g.labels|
  {
    bag := BagOfComponents(g, comps);
    ComponentCount(g, comps, None);
    PartitionNonEmpty(g, comps);
    if HasMutualEdges(g) {
      FewerWithMutualEdges(g, comps);
    }
  }

  /** `bag_of_weakly_connected_components`, given the components that
      `weakly_connected_components(graph)` yields: they split the nodes, and
      the two ends of every edge lie in the same one. */
  method BagOfWeaklyConnectedComponents(g: Graph, comps: seq<seq<nat>>) returns (bag: Bag)
    requires Valid(g) && Partition(g, comps) && EdgesTogether(g, comps)
    ensures bag == Tally(ComponentKeys(g, comps))
    ensures Weight(bag) == |comps| <= |g.labels|
    ensures |g.labels| > 0 ==> Weight(bag) > 0
    ensures HasProperEdge(g) ==> Weight(bag) < |g.labels|
  {
    bag := BagOfComponents(g, comps);
    ComponentCount(g, comps, None);
    PartitionNonEmpty(g, comps);
    if HasProperEdge(g) {
      FewerWithProperEdge(g, comps);
    }
  }

  /** `bag_of_attracting_components`, given the components that
      `attracting_components(graph)` yields: disjoint non-empty node sets that
      no edge leaves. */
  method BagOfAttractingComponents(g: Graph, comps: seq<seq<nat>>) returns (bag: Bag)
    requires Valid(g) && ComponentsInGraph(g, comps) && Disjoint(comps) && Closed(g, comps)
    ensures bag == Tally(ComponentKeys(g, comps))
    ensures Weight(bag) == |comps| <= |g.labels|
    ensures HasProperEdgeFrom(g, comps) ==> Weight(bag) < |g.labels|
  {
    bag := BagOfComponents(g, comps);
    ComponentCount(g, comps, None);
    if HasProperEdgeFrom(g, comps) {
      FewerWithEdgeFrom(g, comps);
    }
  }
}
