/**
  * What the Graph operations of Graph.cpp compute, stated as functions over
  * adjacency lists and edge lists, with the properties proved about them.
  * The imperative methods in graph.dfy are proved equal to these functions.
  *
  * An adjacency list `g[v]` holds the ids v has an arc to, in insertion
  * order; the value `Sentinel` (-1) appears in the sink's list only, to mark
  * "the sink has been reached" for the breadth-first search.
  */
module GraphSpec {
  import opened Sequences
  import opened FlowEdge

  type AdjacencyLists = seq<seq<int>>

  /** SINK_NODE_INDEX: the entry createResidualGraph places in the sink's list. */
  const Sentinel: int := -1

  /** Every entry is a node id of the graph or the sentinel. */
  ghost predicate ArcsInRange(g: AdjacencyLists)
  {
    forall v, x :: 0 <= v < |g| && x in g[v] ==> x == Sentinel || 0 <= x < |g|
  }

  /** ArcsInRange, and the sentinel occurs in the sink's list only. */
  ghost predicate WellFormed(g: AdjacencyLists, sink: int)
  {
    && ArcsInRange(g)
    && forall v :: 0 <= v < |g| && v != sink ==> Sentinel !in g[v]
  }

  /** The list begins with the sentinel, as the sink's list does once createResidualGraph has run. */
  predicate StartsWithSentinel(s: seq<int>)
  {
    |s| > 0 && s[0] == Sentinel
  }

  /** A graph whose lists are subsequences of the lists of g. */
  ghost predicate IsSubgraph(a: AdjacencyLists, g: AdjacencyLists)
  {
    |a| == |g| && forall v :: 0 <= v < |g| ==> IsSubsequence(a[v], g[v])
  }

  /** Erasing arcs keeps a graph well formed. */
  lemma SubgraphWellFormed(a: AdjacencyLists, g: AdjacencyLists, sink: int)
    requires IsSubgraph(a, g) && WellFormed(g, sink)
    ensures WellFormed(a, sink)
  {
    forall v | 0 <= v < |a|
      ensures forall x :: x in a[v] ==> x in g[v]
    {
      SubsequenceMultiset(a[v], g[v]);
      forall x | x in a[v] ensures x in g[v] {
        assert multiset(a[v])[x] > 0;
      }
    }
  }

  // ------------------------------------------------------------------
  // createResidualGraph
  // ------------------------------------------------------------------

  /** `vector::resize(n)` on a list of lists: keep the first n, pad with empty lists. */
  function Resize(g: AdjacencyLists, n: nat): (r: AdjacencyLists)
    ensures |r| == n
    ensures forall v :: 0 <= v < n ==> r[v] == (if v < |g| then g[v] else [])
  {
    if |g| >= n then g[..n] else g + seq(n - |g|, _ => [])
  }

  /** The ids lo, lo+1, ..., hi-1 in increasing order. */
  function Range(lo: int, hi: int): (r: seq<int>)
    ensures |r| == if lo <= hi then hi - lo else 0
    ensures forall k :: 0 <= k < |r| ==> r[k] == lo + k
    decreases hi - lo
  {
    if hi <= lo then [] else Range(lo, hi - 1) + [hi - 1]
  }

  /** Destinations of the edges leaving v, in edge-list order. */
  function Targets(edges: seq<Edge>, v: int): seq<int>
  {
    if edges == [] then []
    else
      var last := edges[|edges| - 1];
      Targets(edges[..|edges| - 1], v) + (if last.source == v then [last.destination] else [])
  }

  /** x is a target of v exactly when some edge goes from v to x. */
  lemma {:induction false} TargetsMembers(edges: seq<Edge>, v: int, x: int)
    ensures x in Targets(edges, v) <==> exists k :: 0 <= k < |edges| && edges[k].source == v && edges[k].destination == x
    decreases |edges|
  {
    if edges != [] {
      var n := |edges| - 1;
      var prefix := edges[..n];
      TargetsMembers(prefix, v, x);
      if x in Targets(prefix, v) {
        var k :| 0 <= k < |prefix| && prefix[k].source == v && prefix[k].destination == x;
        assert edges[k] == prefix[k];
      }
      if exists k :: 0 <= k < |edges| && edges[k].source == v && edges[k].destination == x {
        var k :| 0 <= k < |edges| && edges[k].source == v && edges[k].destination == x;
        if k < n {
          assert prefix[k] == edges[k];
        }
      }
    }
  }

  /**
    * The lists createResidualGraph builds for `total` original nodes over the
    * lists it finds (`base`, resized to total+2): source 0 gets the left half
    * 1..total/2, each edge's source gets the edge's destination, each node of
    * the right half gets the sink total+1, and the sink gets the sentinel,
    * appended in that order.
    */
  function ResidualGraphOf(base: AdjacencyLists, total: nat, edges: seq<Edge>): (r: AdjacencyLists)
    ensures |r| == total + 2
  {
    var left := total / 2;
    var b := Resize(base, total + 2);
    seq(total + 2, v requires 0 <= v < total + 2 =>
      b[v]
      + (if v == 0 then Range(1, left + 1) else [])
      + Targets(edges, v)
      + (if left < v <= total then [total + 1] else [])
      + (if v == total + 1 then [Sentinel] else []))
  }

  /** The arcs 0->1, ..., 0->hi-1 appended to the source's list, in increasing order. */
  function AddFromSource(g: AdjacencyLists, hi: int): (r: AdjacencyLists)
    requires |g| > 0
    ensures |r| == |g|
    decreases hi
  {
    if hi <= 1 then g
    else
      var r := AddFromSource(g, hi - 1);
      r[0 := r[0] + [hi - 1]]
  }

  /** The source's list gains 1..hi-1 at its end; the others are unchanged. */
  lemma {:induction false} AddFromSourceLists(g: AdjacencyLists, hi: int)
    requires |g| > 0
    ensures forall v :: 0 <= v < |g| ==>
      AddFromSource(g, hi)[v] == g[v] + (if v == 0 then Range(1, hi) else [])
    decreases hi
  {
    if hi > 1 {
      AddFromSourceLists(g, hi - 1);
      assert Range(1, hi) == Range(1, hi - 1) + [hi - 1];
    }
  }

  /** The edges' arcs appended one by one in edge-list order, each destination to its source's list. */
  function AddArcs(g: AdjacencyLists, edges: seq<Edge>): (r: AdjacencyLists)
    requires forall k :: 0 <= k < |edges| ==> 0 <= edges[k].source < |g|
    ensures |r| == |g|
  {
    if edges == [] then g
    else
      var e := edges[|edges| - 1];
      var r := AddArcs(g, edges[..|edges| - 1]);
      r[e.source := r[e.source] + [e.destination]]
  }

  /** Appending the arcs adds to each list exactly its targets, in edge-list order. */
  lemma {:induction false} AddArcsTargets(g: AdjacencyLists, edges: seq<Edge>)
    requires forall k :: 0 <= k < |edges| ==> 0 <= edges[k].source < |g|
    ensures forall v :: 0 <= v < |g| ==> AddArcs(g, edges)[v] == g[v] + Targets(edges, v)
    decreases |edges|
  {
    if edges != [] {
      var n := |edges| - 1;
      var e := edges[n];
      AddArcsTargets(g, edges[..n]);
      forall v | 0 <= v < |g| ensures AddArcs(g, edges)[v] == g[v] + Targets(edges, v) {
        var step: seq<int> := if e.source == v then [e.destination] else [];
        assert Targets(edges, v) == Targets(edges[..n], v) + step;
        assert AddArcs(g, edges)[v] == AddArcs(g, edges[..n])[v] + step;
      }
    }
  }

  /** The arc to `sink` appended to each list lo..hi-1, in increasing order. */
  function AddToSink(g: AdjacencyLists, lo: int, hi: int, sink: int): (r: AdjacencyLists)
    requires 0 <= lo && hi <= |g|
    ensures |r| == |g|
    decreases hi - lo
  {
    if hi <= lo then g
    else
      var r := AddToSink(g, lo, hi - 1, sink);
      r[hi - 1 := r[hi - 1] + [sink]]
  }

  /** Each list in lo..hi-1 gains the sink at its end; the others are unchanged. */
  lemma {:induction false} AddToSinkLists(g: AdjacencyLists, lo: int, hi: int, sink: int)
    requires 0 <= lo && hi <= |g|
    ensures forall v :: 0 <= v < |g| ==>
      AddToSink(g, lo, hi, sink)[v] == g[v] + (if lo <= v < hi then [sink] else [])
    decreases hi - lo
  {
    if hi > lo {
      AddToSinkLists(g, lo, hi - 1, sink);
    }
  }

  /** The four stages of createResidualGraph compose to ResidualGraphOf. */
  lemma ResidualGraphStages(base: AdjacencyLists, total: nat, edges: seq<Edge>)
    requires forall k :: 0 <= k < |edges| ==> 0 <= edges[k].source < total + 2
    ensures var b := Resize(base, total + 2);
      var withSink := AddToSink(AddArcs(AddFromSource(b, total / 2 + 1), edges), total / 2 + 1, total + 1, total + 1);
      withSink[total + 1 := withSink[total + 1] + [Sentinel]] == ResidualGraphOf(base, total, edges)
  {
    var b := Resize(base, total + 2);
    var withSource := AddFromSource(b, total / 2 + 1);
    var withEdges := AddArcs(withSource, edges);
    var withSink := AddToSink(withEdges, total / 2 + 1, total + 1, total + 1);
    var r := withSink[total + 1 := withSink[total + 1] + [Sentinel]];
    var expected := ResidualGraphOf(base, total, edges);
    forall v | 0 <= v < total + 2 ensures r[v] == expected[v] {
      ResidualGraphStageAt(base, total, edges, v);
    }
  }

  /** One list of ResidualGraphStages. */
  lemma ResidualGraphStageAt(base: AdjacencyLists, total: nat, edges: seq<Edge>, v: int)
    requires forall k :: 0 <= k < |edges| ==> 0 <= edges[k].source < total + 2
    requires 0 <= v < total + 2
    ensures var b := Resize(base, total + 2);
      var withSink := AddToSink(AddArcs(AddFromSource(b, total / 2 + 1), edges), total / 2 + 1, total + 1, total + 1);
      withSink[total + 1 := withSink[total + 1] + [Sentinel]][v] == ResidualGraphOf(base, total, edges)[v]
  {
    var b := Resize(base, total + 2);
    var withSource := AddFromSource(b, total / 2 + 1);
    var withEdges := AddArcs(withSource, edges);
    var withSink := AddToSink(withEdges, total / 2 + 1, total + 1, total + 1);
    var expected := ResidualGraphOf(base, total, edges);
    AddFromSourceLists(b, total / 2 + 1);
    AddArcsTargets(withSource, edges);
    AddToSinkLists(withEdges, total / 2 + 1, total + 1, total + 1);
    var fromSource: seq<int> := if v == 0 then Range(1, total / 2 + 1) else [];
    var toSink: seq<int> := if total / 2 < v <= total then [total + 1] else [];
    var sentinel: seq<int> := if v == total + 1 then [Sentinel] else [];
    assert expected[v] == b[v] + fromSource + Targets(edges, v) + toSink + sentinel;
    assert withSource[v] == b[v] + fromSource;
    assert withEdges[v] == withSource[v] + Targets(edges, v);
    assert withSink[v] == withEdges[v] + toSink;
    assert withSink[total + 1 := withSink[total + 1] + [Sentinel]][v] == withSink[v] + sentinel;
  }

  /** No edge leaves v: v has no targets. */
  lemma NoTargets(edges: seq<Edge>, v: int)
    requires forall k :: 0 <= k < |edges| ==> edges[k].source != v
    ensures Targets(edges, v) == []
  {
    if Targets(edges, v) != [] {
      TargetsMembers(edges, v, Targets(edges, v)[0]);
    }
  }

  /**
    * Built from scratch over edges between original nodes 1..total: the
    * source's list is exactly 1..total/2, a left node's list is its edge
    * targets, a right node's list is its edge targets followed by the sink,
    * and the sink's list is exactly the sentinel.
    */
  lemma ResidualGraphShape(total: nat, edges: seq<Edge>)
    requires forall k :: 0 <= k < |edges| ==> 1 <= edges[k].source <= total
    ensures var r := ResidualGraphOf([], total, edges);
      && |r| == total + 2
      && r[0] == Range(1, total / 2 + 1)
      && (forall v :: 1 <= v <= total / 2 ==> r[v] == Targets(edges, v))
      && (forall v :: total / 2 < v <= total ==> r[v] == Targets(edges, v) + [total + 1])
      && r[total + 1] == [Sentinel]
  {
    var r := ResidualGraphOf([], total, edges);
    var left := total / 2;
    var b := Resize([], total + 2);
    NoTargets(edges, 0);
    NoTargets(edges, total + 1);
    assert b[0] == [] && b[total + 1] == [];
    assert r[0] == Range(1, left + 1) by {
      assert r[0] == b[0] + Range(1, left + 1) + Targets(edges, 0) + [] + [];
    }
    assert r[total + 1] == [Sentinel] by {
      assert r[total + 1] == b[total + 1] + [] + Targets(edges, total + 1) + [] + [Sentinel];
    }
    forall v | 1 <= v <= total
      ensures r[v] == Targets(edges, v) + (if left < v then [total + 1] else [])
    {
      assert b[v] == [];
      assert r[v] == b[v] + [] + Targets(edges, v) + (if left < v then [total + 1] else []) + [];
    }
  }

  /** Built from scratch over edges between original nodes, the residual graph is well formed. */
  lemma ResidualGraphWellFormed(total: nat, edges: seq<Edge>)
    requires forall k :: 0 <= k < |edges| ==> 1 <= edges[k].source <= total && 1 <= edges[k].destination <= total
    ensures WellFormed(ResidualGraphOf([], total, edges), total + 1)
  {
    var r := ResidualGraphOf([], total, edges);
    ResidualGraphShape(total, edges);
    forall v, x | 0 <= v < |r| && x in r[v]
      ensures 0 <= x < |r| || (x == Sentinel && v == total + 1)
    {
      if x in Targets(edges, v) {
        TargetsMembers(edges, v, x);
      }
    }
  }

  // ------------------------------------------------------------------
  // updateResidualGraph
  // ------------------------------------------------------------------

  /** Reverse the first arc u->v, if there is one: it leaves u's list and v gets the arc v->u. */
  function ReverseArc(g: AdjacencyLists, u: int, v: int): (r: AdjacencyLists)
    requires 0 <= u < |g| && 0 <= v < |g|
    ensures |r| == |g|
  {
    if Find(g[u], v) < |g[u]| then
      var g1 := g[u := RemoveFirst(g[u], v)];
      g1[v := g1[v] + [u]]
    else g
  }

  /** Every node of the path is a node of g. */
  ghost predicate PathInRange(g: AdjacencyLists, path: seq<int>)
  {
    forall k :: 0 <= k < |path| ==> 0 <= path[k] < |g|
  }

  /** ReverseArc applied to each consecutive pair of the path, first pair first. */
  function ReverseAlongPath(g: AdjacencyLists, path: seq<int>): (r: AdjacencyLists)
    requires PathInRange(g, path)
    ensures |r| == |g|
    decreases |path|
  {
    if |path| < 2 then g
    else
      var n := |path| - 1;
      ReverseArc(ReverseAlongPath(g, path[..n]), path[n - 1], path[n])
  }

  /** The arc in v's list is exactly the one taken out of u's: reversing keeps the number of arcs. */
  lemma ReverseArcKeepsArcCount(g: AdjacencyLists, u: int, v: int)
    requires 0 <= u < |g| && 0 <= v < |g|
    ensures SumOfLengths(ReverseArc(g, u, v)) == SumOfLengths(g)
  {
    if Find(g[u], v) < |g[u]| {
      var g1 := g[u := RemoveFirst(g[u], v)];
      RemoveFirstProperties(g[u], v);
      SumOfLengthsUpdate(g, u, RemoveFirst(g[u], v));
      SumOfLengthsUpdate(g1, v, g1[v] + [u]);
    }
  }

  /** updateResidualGraph never changes the total number of arcs. */
  lemma {:induction false} ReverseAlongPathKeepsArcCount(g: AdjacencyLists, path: seq<int>)
    requires PathInRange(g, path)
    ensures SumOfLengths(ReverseAlongPath(g, path)) == SumOfLengths(g)
    decreases |path|
  {
    if |path| >= 2 {
      var n := |path| - 1;
      ReverseAlongPathKeepsArcCount(g, path[..n]);
      ReverseArcKeepsArcCount(ReverseAlongPath(g, path[..n]), path[n - 1], path[n]);
    }
  }

  /**
    * What one reversal does to the lists: only u's and v's change. u's list
    * loses its first v and nothing else, keeping its order, and v's list gains
    * u at its end; on a self-loop (u == v) both happen to the one list.
    */
  lemma ReverseArcEffect(g: AdjacencyLists, u: int, v: int)
    requires 0 <= u < |g| && 0 <= v < |g|
    ensures var r := ReverseArc(g, u, v);
      && (v !in g[u] ==> r == g)
      && (v in g[u] && u != v ==>
            && r[u] == RemoveFirst(g[u], v)
            && multiset(r[u]) == multiset(g[u]) - multiset{v}
            && IsSubsequence(r[u], g[u])
            && r[v] == g[v] + [u])
      && (v in g[u] && u == v ==>
            && r[u] == RemoveFirst(g[u], u) + [u]
            && multiset(r[u]) == multiset(g[u]))
      && (forall w :: 0 <= w < |g| && w != u && w != v ==> r[w] == g[w])
  {
    RemoveFirstProperties(g[u], v);
  }

  /** Reversing arcs along a path inside the graph keeps the graph well formed. */
  lemma {:induction false} ReverseAlongPathWellFormed(g: AdjacencyLists, sink: int, path: seq<int>)
    requires WellFormed(g, sink) && PathInRange(g, path)
    ensures WellFormed(ReverseAlongPath(g, path), sink)
    decreases |path|
  {
    if |path| >= 2 {
      var n := |path| - 1;
      var h := ReverseAlongPath(g, path[..n]);
      ReverseAlongPathWellFormed(g, sink, path[..n]);
      var u, v := path[n - 1], path[n];
      if Find(h[u], v) < |h[u]| {
        var r := ReverseArc(h, u, v);
        var g1 := h[u := RemoveFirst(h[u], v)];
        assert r == g1[v := g1[v] + [u]];
        RemoveFirstProperties(h[u], v);
        SubsequenceMultiset(RemoveFirst(h[u], v), h[u]);
        forall w, x | 0 <= w < |r| && x in r[w] ensures x in h[w] || x == u {
          if !(w == v && x == u) {
            assert x in g1[w];
            if w == u {
              assert multiset(g1[u])[x] > 0;
            }
          }
        }
      }
    }
  }

  /** Reversals never disturb the sentinel at the head of the sink's list. */
  lemma {:induction false} ReverseAlongPathKeepsSentinelFirst(g: AdjacencyLists, sink: int, path: seq<int>)
    requires PathInRange(g, path) && 0 <= sink < |g| && StartsWithSentinel(g[sink])
    ensures StartsWithSentinel(ReverseAlongPath(g, path)[sink])
    decreases |path|
  {
    if |path| >= 2 {
      var n := |path| - 1;
      var h := ReverseAlongPath(g, path[..n]);
      ReverseAlongPathKeepsSentinelFirst(g, sink, path[..n]);
      var u, v := path[n - 1], path[n];
      var i := Find(h[u], v);
      if u == sink && i < |h[u]| {
        assert i != 0;
        assert RemoveFirst(h[u], v)[0] == Sentinel;
      }
    }
  }

  // ------------------------------------------------------------------
  // updateLevelGraph
  // ------------------------------------------------------------------

  /** Erase the first arc u->v of u's list, if there is one. */
  function PruneArc(g: AdjacencyLists, u: int, v: int): (r: AdjacencyLists)
    requires 0 <= u < |g|
    ensures |r| == |g|
  {
    g[u := RemoveFirst(g[u], v)]
  }

  /** PruneArc applied to each consecutive pair of the path, first pair first. */
  function PruneAlongPath(g: AdjacencyLists, path: seq<int>): (r: AdjacencyLists)
    requires PathInRange(g, path)
    ensures |r| == |g|
    decreases |path|
  {
    if |path| < 2 then g
    else
      var n := |path| - 1;
      PruneArc(PruneAlongPath(g, path[..n]), path[n - 1], path[n])
  }

  /** updateLevelGraph only erases: every list ends as a subsequence of what it was. */
  lemma {:induction false} PruneAlongPathIsSubgraph(g: AdjacencyLists, path: seq<int>)
    requires PathInRange(g, path)
    ensures IsSubgraph(PruneAlongPath(g, path), g)
    decreases |path|
  {
    if |path| < 2 {
      forall v | 0 <= v < |g| ensures IsSubsequence(g[v], g[v]) {
        SubsequenceReflexive(g[v]);
      }
    } else {
      var n := |path| - 1;
      var h := PruneAlongPath(g, path[..n]);
      PruneAlongPathIsSubgraph(g, path[..n]);
      var r := PruneArc(h, path[n - 1], path[n]);
      forall v | 0 <= v < |g| ensures IsSubsequence(r[v], g[v]) {
        if v == path[n - 1] {
          RemoveFirstProperties(h[v], path[n]);
          SubsequenceTransitive(r[v], h[v], g[v]);
        }
      }
    }
  }

  /** On each pair (u, v) of the path the arc count falls by one exactly when u's list held v. */
  lemma PruneArcCount(g: AdjacencyLists, u: int, v: int)
    requires 0 <= u < |g|
    ensures SumOfLengths(PruneArc(g, u, v)) == SumOfLengths(g) - (if v in g[u] then 1 else 0)
  {
    RemoveFirstProperties(g[u], v);
    SumOfLengthsUpdate(g, u, RemoveFirst(g[u], v));
  }

  // ------------------------------------------------------------------
  // removeNodeAndIncomingEdges
  // ------------------------------------------------------------------

  /**
    * n's list cleared, then the first occurrence of n erased from every list
    * (n's own list is empty by then).
    */
  function RemoveIncoming(g: AdjacencyLists, n: int): (r: AdjacencyLists)
    requires 0 <= n < |g|
    ensures |r| == |g|
  {
    var cleared := g[n := []];
    seq(|g|, i requires 0 <= i < |g| => RemoveFirst(cleared[i], n))
  }

  /**
    * After removing n: n's list is empty, every other list lost at most its
    * first n and nothing else, in the same order.
    */
  lemma RemoveIncomingEffect(g: AdjacencyLists, n: int)
    requires 0 <= n < |g|
    ensures var r := RemoveIncoming(g, n);
      && r[n] == []
      && IsSubgraph(r, g)
      && forall i :: 0 <= i < |g| && i != n ==>
           multiset(r[i]) == multiset(g[i]) - multiset{n}
  {
    var r := RemoveIncoming(g, n);
    forall i | 0 <= i < |g|
      ensures IsSubsequence(r[i], g[i])
      ensures i != n ==> multiset(r[i]) == multiset(g[i]) - multiset{n}
    {
      if i == n {
        assert r[i] == [];
        assert IsSubsequence([], g[i]) by {
          if g[i] != [] {
            EmptyIsSubsequence(g[i]);
          }
        }
      } else {
        RemoveFirstProperties(g[i], n);
      }
    }
  }

  lemma {:induction false} EmptyIsSubsequence(b: seq<int>)
    ensures IsSubsequence([], b)
    decreases |b|
  {
    if b != [] {
      EmptyIsSubsequence(b[1..]);
    }
  }

  // ------------------------------------------------------------------
  // augmentFlow
  // ------------------------------------------------------------------

  /** The edge joins u and v, in either direction. */
  predicate Touches(e: Edge, u: int, v: int)
  {
    (e.source == u && e.destination == v) || (e.source == v && e.destination == u)
  }

  /** One pair of augmentFlow: every edge u->v gets flow, every edge v->u loses it. */
  function AugmentArc(edges: seq<Edge>, u: int, v: int): (r: seq<Edge>)
    ensures |r| == |edges|
  {
    seq(|edges|, j requires 0 <= j < |edges| =>
      if edges[j].source == u && edges[j].destination == v then edges[j].SetFlow(true)
      else if edges[j].source == v && edges[j].destination == u then edges[j].SetFlow(false)
      else edges[j])
  }

  /** AugmentArc applied to each consecutive pair of the path, first pair first. */
  function AugmentAlongPath(edges: seq<Edge>, path: seq<int>): (r: seq<Edge>)
    ensures |r| == |edges|
    ensures forall j :: 0 <= j < |edges| ==>
      r[j].source == edges[j].source && r[j].destination == edges[j].destination
    decreases |path|
  {
    if |path| < 2 then edges
    else
      var n := |path| - 1;
      AugmentArc(AugmentAlongPath(edges, path[..n]), path[n - 1], path[n])
  }

  /** An edge no pair of the path touches keeps its flag. */
  lemma {:induction false} AugmentUntouched(edges: seq<Edge>, path: seq<int>, j: nat)
    requires j < |edges|
    requires forall i :: 0 <= i < |path| - 1 ==> !Touches(edges[j], path[i], path[i + 1])
    ensures AugmentAlongPath(edges, path)[j] == edges[j]
    decreases |path|
  {
    if |path| >= 2 {
      var n := |path| - 1;
      AugmentUntouched(edges, path[..n], j);
      assert !Touches(edges[j], path[n - 1], path[n]);
    }
  }

  /**
    * An edge's flag ends as set by the last pair of the path that touches it:
    * true when that pair runs along the edge, false when it runs against it.
    */
  lemma {:induction false} AugmentLastTouch(edges: seq<Edge>, path: seq<int>, j: nat, i: nat)
    requires j < |edges| && i < |path| - 1
    requires Touches(edges[j], path[i], path[i + 1])
    requires forall k :: i < k < |path| - 1 ==> !Touches(edges[j], path[k], path[k + 1])
    ensures AugmentAlongPath(edges, path)[j].flow == (edges[j].source == path[i] && edges[j].destination == path[i + 1])
    decreases |path|
  {
    var n := |path| - 1;
    if i < n - 1 {
      AugmentLastTouch(edges, path[..n], j, i);
      assert !Touches(edges[j], path[n - 1], path[n]);
    }
  }

  /**
    * Along a path without repeated nodes every pair touches its own edges
    * only: each edge u->v of a pair (u, v) ends with flow, each edge v->u without.
    */
  lemma AugmentSimplePath(edges: seq<Edge>, path: seq<int>, j: nat, i: nat)
    requires forall a, b :: 0 <= a < b < |path| ==> path[a] != path[b]
    requires j < |edges| && i < |path| - 1
    requires Touches(edges[j], path[i], path[i + 1])
    ensures edges[j].source == path[i] && edges[j].destination == path[i + 1] ==> AugmentAlongPath(edges, path)[j].flow
    ensures edges[j].source == path[i + 1] && edges[j].destination == path[i] ==> !AugmentAlongPath(edges, path)[j].flow
  {
    forall k | i < k < |path| - 1
      ensures !Touches(edges[j], path[k], path[k + 1])
    {
      assert path[k] != path[i] && path[k + 1] != path[i];
    }
    AugmentLastTouch(edges, path, j, i);
  }

  // ------------------------------------------------------------------
  // The matching read off the edges
  // ------------------------------------------------------------------

  /** Number of edges whose flag is set. */
  function FlowCount(edges: seq<Edge>): (n: nat)
    ensures n <= |edges|
  {
    if edges == [] then 0
    else FlowCount(edges[..|edges| - 1]) + (if edges[|edges| - 1].flow then 1 else 0)
  }

  /** Positions of the edges whose flag is set. */
  ghost function FlowPositions(edges: seq<Edge>): set<int>
  {
    set j | 0 <= j < |edges| && edges[j].flow
  }

  /** FlowCount counts exactly the flow-carrying edges. */
  lemma {:induction false} FlowCountIsCardinality(edges: seq<Edge>)
    ensures FlowCount(edges) == |FlowPositions(edges)|
    decreases |edges|
  {
    if edges != [] {
      var n := |edges| - 1;
      FlowCountIsCardinality(edges[..n]);
      assert FlowPositions(edges) == FlowPositions(edges[..n]) + (if edges[n].flow then {n} else {});
    }
  }
}
