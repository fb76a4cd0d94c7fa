/** The inputs of the bag builders: a labelled digraph whose nodes have been
    renumbered 0 to n - 1, and the results of the graph algorithms the
    builders call, taken as they come. */
module Graphs {
  import opened Wrappers

  /** Node i carries the label `labels[i]`; `edges` lists the directed edges
      as `graph.edges()` yields them. */
  datatype Graph = Graph(labels: seq<string>, edges: seq<(nat, nat)>)

  /** Every edge joins two nodes of the graph. */
  predicate Valid(g: Graph)
  {
    forall e :: 0 <= e < |g.edges| ==> g.edges[e].0 < |g.labels| && g.edges[e].1 < |g.labels|
  }

  /** Every node listed is a node of the graph, so its label can be looked up. */
  predicate InGraph(g: Graph, ns: seq<nat>)
  {
    forall k :: 0 <= k < |ns| ==> ns[k] < |g.labels|
  }

  /** The labels of the nodes listed, in the same order. */
  function Labels(g: Graph, ns: seq<nat>): (r: seq<string>)
    requires InGraph(g, ns)
    ensures |r| == |ns|
    ensures forall k :: 0 <= k < |ns| ==> r[k] == g.labels[ns[k]]
  {
    seq(|ns|, k requires 0 <= k < |ns| => g.labels[ns[k]])
  }

  /** Removing the node at position p removes its label once. */
  lemma LabelsRemoveAt(g: Graph, b: seq<nat>, p: nat) returns (rest: seq<nat>)
    requires InGraph(g, b) && p < |b|
    ensures InGraph(g, rest) && |rest| == |b| - 1
    ensures multiset(b) == multiset(rest) + multiset{b[p]}
    ensures multiset(Labels(g, b)) == multiset(Labels(g, rest)) + multiset{g.labels[b[p]]}
  {
    var front, x, back := b[..p], b[p], b[p + 1..];
    assert b == front + [x] + back;
    rest := front + back;
    assert InGraph(g, rest) by {
      forall k | 0 <= k < |rest| ensures rest[k] < |g.labels| {
        if k < p { assert rest[k] == b[k]; } else { assert rest[k] == b[k + 1]; }
      }
    }
    var lb, lr := Labels(g, b), Labels(g, rest);
    assert lb == lb[..p] + [lb[p]] + lb[p + 1..];
    assert lr == lb[..p] + lb[p + 1..];
  }

  lemma MultisetCancel(a: multiset<nat>, b: multiset<nat>, x: nat)
    requires a + multiset{x} == b + multiset{x}
    ensures a == b
  {
    forall y
      ensures a[y] == b[y]
    {
      assert (a + multiset{x})[y] == (b + multiset{x})[y];
    }
  }

  /** Listing the same nodes in another order lists the same labels in
      another order. */
  lemma {:induction false} LabelsOfPermutation(g: Graph, a: seq<nat>, b: seq<nat>)
    requires InGraph(g, a) && InGraph(g, b)
    requires multiset(a) == multiset(b)
    ensures multiset(Labels(g, a)) == multiset(Labels(g, b))
    decreases |a|
  {
    if |a| == 0 {
      assert |b| == 0 by { assert |multiset(b)| == 0; }
    } else {
      var x := a[0];
      assert x in multiset(b) by { assert x in multiset(a); }
      var p :| 0 <= p < |b| && b[p] == x;
      var rest := LabelsRemoveAt(g, b, p);
      var tail := LabelsRemoveAt(g, a, 0);
      MultisetCancel(multiset(tail), multiset(rest), x);
      LabelsOfPermutation(g, tail, rest);
    }
  }

  // ---------------------------------------------------------------------------
  // The result of all_pairs_shortest_path(graph, cutoff)

  /** One entry `paths[i][j]`: the target j and the node path to it. */
  datatype Target = Target(node: nat, path: seq<nat>)

  /** `paths[i]`: the source i and its targets, in iteration order. */
  datatype Row = Row(source: nat, targets: seq<Target>)

  /** The targets' nodes, in iteration order: `paths[i].keys()`. */
  function TargetNodes(ts: seq<Target>): (r: seq<nat>)
    ensures |r| == |ts|
    ensures forall k :: 0 <= k < |ts| ==> r[k] == ts[k].node
  {
    seq(|ts|, k requires 0 <= k < |ts| => ts[k].node)
  }

  /** Every node a row mentions is a node of the graph. */
  predicate RowInGraph(g: Graph, row: Row)
  {
    && row.source < |g.labels|
    && InGraph(g, TargetNodes(row.targets))
    && forall t :: 0 <= t < |row.targets| ==> InGraph(g, row.targets[t].path)
  }

  predicate PathsInGraph(g: Graph, rows: seq<Row>)
  {
    forall r :: 0 <= r < |rows| ==> RowInGraph(g, rows[r])
  }

  /** The number of (i, j) entries. */
  function PairCount(rows: seq<Row>): nat
  {
    if |rows| == 0 then 0 else PairCount(rows[..|rows| - 1]) + |rows[|rows| - 1].targets|
  }

  /** The number of sources with at least one target. */
  function NonEmptyRows(rows: seq<Row>): nat
  {
    if |rows| == 0 then 0
    else NonEmptyRows(rows[..|rows| - 1]) + if |rows[|rows| - 1].targets| == 0 then 0 else 1
  }

  // ---------------------------------------------------------------------------
  // The result of the *_components(graph) algorithms

  /** Every node of every component is a node of the graph. */
  predicate NodesInGraph(g: Graph, comps: seq<seq<nat>>)
  {
    forall c :: 0 <= c < |comps| ==> InGraph(g, comps[c])
  }

  /** Each component is a non-empty list of nodes of the graph. */
  predicate ComponentsInGraph(g: Graph, comps: seq<seq<nat>>)
  {
    NodesInGraph(g, comps) && forall c :: 0 <= c < |comps| ==> |comps[c]| > 0
  }

  /** No node is in two components. */
  predicate Disjoint(comps: seq<seq<nat>>)
  {
    forall a, b, x :: 0 <= a < b < |comps| && x in comps[a] ==> x !in comps[b]
  }

  /** Some component holds both u and v. */
  predicate Together(comps: seq<seq<nat>>, u: nat, v: nat)
  {
    exists c :: 0 <= c < |comps| && u in comps[c] && v in comps[c]
  }

  /** Every node of the graph is in some component. */
  predicate Covers(g: Graph, comps: seq<seq<nat>>)
  {
    forall x: nat :: x < |g.labels| ==> Together(comps, x, x)
  }

  /** The components split the nodes of the graph: each node is in exactly one. */
  predicate Partition(g: Graph, comps: seq<seq<nat>>)
  {
    ComponentsInGraph(g, comps) && Disjoint(comps) && Covers(g, comps)
  }

  /** Edges u -> v and v -> u join nodes of the same component. */
  predicate MutualEdgesTogether(g: Graph, comps: seq<seq<nat>>)
  {
    forall e, f ::
      0 <= e < |g.edges| && 0 <= f < |g.edges| && g.edges[e].0 == g.edges[f].1 && g.edges[e].1 == g.edges[f].0
      ==> Together(comps, g.edges[e].0, g.edges[e].1)
  }

  /** Two distinct nodes have edges both ways. */
  predicate HasMutualEdges(g: Graph)
  {
    exists e, f ::
      0 <= e < |g.edges| && 0 <= f < |g.edges| && g.edges[e].0 == g.edges[f].1 && g.edges[e].1 == g.edges[f].0
      && g.edges[e].0 != g.edges[e].1
  }

  /** Every edge joins nodes of the same component. */
  predicate EdgesTogether(g: Graph, comps: seq<seq<nat>>)
  {
    forall e :: 0 <= e < |g.edges| ==> Together(comps, g.edges[e].0, g.edges[e].1)
  }

  /** Some edge joins two distinct nodes. */
  predicate HasProperEdge(g: Graph)
  {
    exists e :: 0 <= e < |g.edges| && g.edges[e].0 != g.edges[e].1
  }

  /** No edge leaves a component. */
  predicate Closed(g: Graph, comps: seq<seq<nat>>)
  {
    forall e, c :: 0 <= e < |g.edges| && 0 <= c < |comps| && g.edges[e].0 in comps[c] ==> g.edges[e].1 in comps[c]
  }

  /** Some edge from a node of a component goes to another node. */
  predicate HasProperEdgeFrom(g: Graph, comps: seq<seq<nat>>)
  {
    exists e, c :: 0 <= e < |g.edges| && 0 <= c < |comps| && g.edges[e].0 in comps[c] && g.edges[e].0 != g.edges[e].1
  }

  /** The nodes in the components. */
  function NodeSet(comps: seq<seq<nat>>): set<nat>
  {
    if |comps| == 0 then {} else NodeSet(comps[..|comps| - 1]) + Members(comps[|comps| - 1])
  }

  /** The nodes of one component. */
  function Members(c: seq<nat>): (r: set<nat>)
    ensures forall x :: x in r <==> x in c
  {
    set x | x in c
  }

  lemma {:induction false} NodeSetIn(g: Graph, comps: seq<seq<nat>>)
    requires ComponentsInGraph(g, comps)
    ensures forall x :: x in NodeSet(comps) ==> x < |g.labels|
  {
    if |comps| > 0 {
      NodeSetIn(g, comps[..|comps| - 1]);
    }
  }

  lemma {:induction false} NodeSetHas(comps: seq<seq<nat>>, c: nat, x: nat)
    requires c < |comps| && x in comps[c]
    ensures x in NodeSet(comps)
  {
    if c < |comps| - 1 {
      NodeSetHas(comps[..|comps| - 1], c, x);
    }
  }

  /** Disjoint non-empty components cover at least as many nodes as there
      are components, and one more when some component has two nodes. */
  lemma {:induction false} NodeSetSize(comps: seq<seq<nat>>, big: Option<nat>)
    requires forall c :: 0 <= c < |comps| ==> |comps[c]| > 0
    requires Disjoint(comps)
    requires big.Some? ==> big.value < |comps| && exists u, v :: u in comps[big.value] && v in comps[big.value] && u != v
    ensures |NodeSet(comps)| >= |comps| + (if big.Some? then 1 else 0)
  {
    if |comps| > 0 {
      var n := |comps| - 1;
      var init, last := comps[..n], comps[n];
      var s := Members(last);
      LastDisjoint(comps);
      if big == Some(n) {
        var u, v :| u in last && v in last && u != v;
        TwoMembers(s, u, v);
        NodeSetSize(init, None);
      } else {
        assert big.Some? ==> init[big.value] == comps[big.value];
        NodeSetSize(init, big);
      }
    }
  }

  /** The last of disjoint non-empty components adds at least one new node. */
  lemma LastDisjoint(comps: seq<seq<nat>>)
    requires |comps| > 0 && |comps[|comps| - 1]| > 0 && Disjoint(comps)
    ensures NodeSet(comps) == NodeSet(comps[..|comps| - 1]) + Members(comps[|comps| - 1])
    ensures NodeSet(comps[..|comps| - 1]) * Members(comps[|comps| - 1]) == {}
    ensures |Members(comps[|comps| - 1])| >= 1
  {
    var n := |comps| - 1;
    var init, s := comps[..n], Members(comps[n]);
    assert comps[n][0] in s;
    forall x | x in NodeSet(init) ensures x !in s {
      var c := NodeSetOwner(init, x);
      assert x in comps[c];
    }
  }

  /** A set with two distinct members has at least two. */
  lemma TwoMembers(s: set<nat>, u: nat, v: nat)
    requires u in s && v in s && u != v
    ensures |s| >= 2
  {
    assert s == {u} + (s - {u});
    assert v in s - {u};
  }

  /** A node in the components is in one of them. */
  lemma {:induction false} NodeSetOwner(comps: seq<seq<nat>>, x: nat) returns (c: nat)
    requires x in NodeSet(comps)
    ensures c < |comps| && x in comps[c]
  {
    var n := |comps| - 1;
    if x in comps[n] {
      c := n;
    } else {
      c := NodeSetOwner(comps[..n], x);
    }
  }

  /** The nodes below n. */
  function Range(n: nat): (r: set<nat>)
    ensures forall x: nat :: x in r <==> x < n
    ensures |r| == n
  {
    if n == 0 then {} else Range(n - 1) + {n - 1}
  }

  /** Disjoint non-empty components of a graph are at most as many as its
      nodes, and fewer when one of them has two nodes. */
  lemma ComponentCount(g: Graph, comps: seq<seq<nat>>, big: Option<nat>)
    requires ComponentsInGraph(g, comps) && Disjoint(comps)
    requires big.Some? ==> big.value < |comps| && exists u, v :: u in comps[big.value] && v in comps[big.value] && u != v
    ensures |comps| + (if big.Some? then 1 else 0) <= |g.labels|
  {
    NodeSetSize(comps, big);
    NodeSetIn(g, comps);
    var all := Range(|g.labels|);
    assert NodeSet(comps) <= all;
    assert all == NodeSet(comps) + (all - NodeSet(comps));
  }

  /** Components that split a graph with a node are at least one. */
  lemma PartitionNonEmpty(g: Graph, comps: seq<seq<nat>>)
    requires Partition(g, comps)
    ensures |g.labels| > 0 ==> |comps| > 0
  {
    if |g.labels| > 0 {
      assert Together(comps, 0, 0);
    }
  }

  /** Two distinct nodes in one component leave fewer components than nodes. */
  lemma TwoInOne(g: Graph, comps: seq<seq<nat>>, u: nat, v: nat)
    requires ComponentsInGraph(g, comps) && Disjoint(comps)
    requires Together(comps, u, v) && u != v
    ensures |comps| < |g.labels|
  {
    var c: nat :| c < |comps| && u in comps[c] && v in comps[c];
    ComponentCount(g, comps, Some(c));
  }

  /** Strongly connected components are fewer than the nodes when two
      distinct nodes have edges both ways. */
  lemma FewerWithMutualEdges(g: Graph, comps: seq<seq<nat>>)
    requires ComponentsInGraph(g, comps) && Disjoint(comps) && MutualEdgesTogether(g, comps)
    requires HasMutualEdges(g)
    ensures |comps| < |g.labels|
  {
    var e, f :| 0 <= e < |g.edges| && 0 <= f < |g.edges| && g.edges[e].0 == g.edges[f].1
      && g.edges[e].1 == g.edges[f].0 && g.edges[e].0 != g.edges[e].1;
    TwoInOne(g, comps, g.edges[e].0, g.edges[e].1);
  }

  /** Weakly connected components are fewer than the nodes when some edge
      joins two distinct nodes. */
  lemma FewerWithProperEdge(g: Graph, comps: seq<seq<nat>>)
    requires ComponentsInGraph(g, comps) && Disjoint(comps) && EdgesTogether(g, comps)
    requires HasProperEdge(g)
    ensures |comps| < |g.labels|
  {
    var e :| 0 <= e < |g.edges| && g.edges[e].0 != g.edges[e].1;
    TwoInOne(g, comps, g.edges[e].0, g.edges[e].1);
  }

  /** Attracting components are fewer than the nodes when an edge leaves a
      node of one of them for another node. */
  lemma FewerWithEdgeFrom(g: Graph, comps: seq<seq<nat>>)
    requires ComponentsInGraph(g, comps) && Disjoint(comps) && Closed(g, comps)
    requires HasProperEdgeFrom(g, comps)
    ensures |comps| < |g.labels|
  {
    var e, c :| 0 <= e < |g.edges| && 0 <= c < |comps| && g.edges[e].0 in comps[c] && g.edges[e].0 != g.edges[e].1;
    assert Together(comps, g.edges[e].0, g.edges[e].1);
    TwoInOne(g, comps, g.edges[e].0, g.edges[e].1);
  }
}
