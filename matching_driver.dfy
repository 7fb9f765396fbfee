/**
  * P3.cpp: the driver of the matching program. It builds the graph from the
  * parsed input, adds the source and the sink, and runs phases: each phase
  * builds the level graph and then walks it from the source, advancing along
  * the first arc of the current node, retreating (and removing the node) at
  * a dead end, and augmenting along the path when the sink is reached. The
  * matches are the edges that end with flow.
  */
module MatchingDriver {
  import opened FlowNode
  import opened FlowEdge
  import opened GraphSpec
  import opened LevelSearch
  import opened FlowGraph

  /** The edge pairs name input nodes 1..n, as the input file promises. */
  ghost predicate PairsInRange(n: int, pairs: seq<(int, int)>)
  {
    forall k :: 0 <= k < |pairs| ==> 1 <= pairs[k].0 <= n && 1 <= pairs[k].1 <= n
  }

  /**
    * The node and edge loading of main: input node i gets id i + 1 and level
    * 0, and the 1-based pair (s, d) becomes the edge s->d without flow, read
    * through getNode(s - 1) and getNode(d - 1).
    */
  method BuildGraph(names: seq<string>, pairs: seq<(int, int)>) returns (graph: Graph)
    requires PairsInRange(|names|, pairs)
    ensures fresh(graph)
    ensures |graph.nodes| == |names| && forall i :: 0 <= i < |names| ==> graph.nodes[i] == Node(names[i], i + 1, 0)
    ensures |graph.edges| == |pairs|
    ensures forall k :: 0 <= k < |pairs| ==> graph.edges[k] == Edge(pairs[k].0, pairs[k].1, false)
    ensures graph.residualGraph == [] && graph.levelGraph == []
  {
    graph := new Graph();
    var i := 0;
    while i < |names|
      invariant 0 <= i <= |names|
      invariant |graph.nodes| == i && forall j :: 0 <= j < i ==> graph.nodes[j] == Node(names[j], j + 1, 0)
      invariant graph.edges == [] && graph.residualGraph == [] && graph.levelGraph == []
    {
      var newNode := Node(names[i], i + 1, 0);
      graph.AddNode(newNode);
      i := i + 1;
    }
    var k := 0;
    while k < |pairs|
      invariant 0 <= k <= |pairs|
      invariant |graph.nodes| == |names| && forall j :: 0 <= j < |names| ==> graph.nodes[j] == Node(names[j], j + 1, 0)
      invariant |graph.edges| == k && forall j :: 0 <= j < k ==> graph.edges[j] == Edge(pairs[j].0, pairs[j].1, false)
      invariant graph.residualGraph == [] && graph.levelGraph == []
    {
      var sourceIndex := pairs[k].0 - 1;
      var destinationIndex := pairs[k].1 - 1;
      graph.AddEdge(graph.GetNode(sourceIndex).index, graph.GetNode(destinationIndex).index, false);
      k := k + 1;
    }
  }

  /** Built from edges between input nodes, the residual graph is well formed and the sink's list begins with the sentinel. */
  lemma InitialResidualReady(n: nat, edges: seq<Edge>)
    requires forall k :: 0 <= k < |edges| ==> 1 <= edges[k].source <= n && 1 <= edges[k].destination <= n
    ensures WellFormed(ResidualGraphOf([], n, edges), n + 1)
    ensures StartsWithSentinel(ResidualGraphOf([], n, edges)[n + 1])
  {
    ResidualGraphShape(n, edges);
    ResidualGraphWellFormed(n, edges);
  }

  /**
    * Between phases: node k has id k, there is one residual list per node,
    * the residual graph is well formed for the sink, and the sink's list
    * begins with the sentinel.
    */
  ghost predicate Ready(graph: Graph, sink: int)
    reads graph
  {
    sink >= 1 && |graph.nodes| == sink + 1 && |graph.residualGraph| == sink + 1
    && (forall k :: 0 <= k < |graph.nodes| ==> graph.nodes[k].index == k)
    && WellFormed(graph.residualGraph, sink) && StartsWithSentinel(graph.residualGraph[sink])
  }

  /**
    * During the walk of one phase: Ready, a well-formed level graph of the
    * same size, the current node in range, and a path of nodes in range that
    * is empty only at the source and otherwise starts at it.
    */
  ghost predicate Walking(graph: Graph, sink: int, current: int, path: seq<int>)
    reads graph
  {
    Ready(graph, sink) && |graph.levelGraph| == sink + 1 && WellFormed(graph.levelGraph, sink)
    && 0 <= current <= sink
    && PathInRange(graph.levelGraph, path)
    && (path == [] ==> current == 0)
    && (path != [] ==> path[0] == 0)
  }

  /**
    * One pass of the inner loop's body. At the sink the path plus the sink is
    * handed to augmentFlow, updateResidualGraph and updateLevelGraph, in that
    * order, and the walk restarts at the source with an empty path. Elsewhere
    * a node with no level-graph arc is removed with its incoming arcs and the
    * walk steps back to the last node of the path; otherwise the node is
    * pushed on the path and the walk moves to the first entry of its list.
    */
  method SearchStep(graph: Graph, sink: int, current: int, path: seq<int>) returns (current': int, path': seq<int>)
    requires Walking(graph, sink, current, path) && graph.levelGraph[0] != []
    modifies graph
    ensures Walking(graph, sink, current', path')
    ensures graph.nodes == old(graph.nodes)
    ensures current == sink ==>
      var augmenting := path + [sink];
      && |augmenting| >= 2 && augmenting[0] == 0 && augmenting[|augmenting| - 1] == sink
      && graph.edges == AugmentAlongPath(old(graph.edges), augmenting)
      && graph.residualGraph == ReverseAlongPath(old(graph.residualGraph), augmenting)
      && graph.levelGraph == PruneAlongPath(old(graph.levelGraph), augmenting)
      && current' == 0 && path' == []
    ensures current != sink && old(graph.levelGraph)[current] == [] ==>
      && path != [] && current' == path[|path| - 1] && path' == path[..|path| - 1]
      && graph.levelGraph == RemoveIncoming(old(graph.levelGraph), current)
      && graph.edges == old(graph.edges) && graph.residualGraph == old(graph.residualGraph)
    ensures current != sink && old(graph.levelGraph)[current] != [] ==>
      && current' == old(graph.levelGraph)[current][0] && path' == path + [current]
      && graph.edges == old(graph.edges) && graph.residualGraph == old(graph.residualGraph)
      && graph.levelGraph == old(graph.levelGraph)
  {
    if current == sink {
      var augmenting := path + [current];
      assert path != [];
      graph.AugmentFlow(augmenting);
      ReverseAlongPathWellFormed(graph.residualGraph, sink, augmenting);
      ReverseAlongPathKeepsSentinelFirst(graph.residualGraph, sink, augmenting);
      graph.UpdateResidualGraph(augmenting);
      PruneAlongPathIsSubgraph(graph.levelGraph, augmenting);
      SubgraphWellFormed(PruneAlongPath(graph.levelGraph, augmenting), graph.levelGraph, sink);
      graph.UpdateLevelGraph(augmenting);
      current' := 0;
      path' := [];
    } else if graph.LevelGraphAt(current) == [] {
      assert current != 0;
      RemoveIncomingEffect(graph.levelGraph, current);
      SubgraphWellFormed(RemoveIncoming(graph.levelGraph, current), graph.levelGraph, sink);
      graph.RemoveNodeAndIncomingEdges(current);
      current' := path[|path| - 1];
      path' := path[..|path| - 1];
    } else {
      var next := graph.LevelGraphAt(current)[0];
      assert next in graph.levelGraph[current];
      path' := path + [current];
      current' := next;
    }
  }

  /** The edges keep their number and their endpoints; only flags may change. */
  ghost predicate SameEndpoints(edges: seq<Edge>, edges': seq<Edge>)
  {
    |edges'| == |edges|
    && forall j :: 0 <= j < |edges| ==> edges'[j].source == edges[j].source && edges'[j].destination == edges[j].destination
  }

  /**
    * The phase loop of main: createLevelGraph, then the walk while the
    * source's level-graph list is non-empty, both loops sharing `fuel`
    * passes. `finished` is set exactly when the loop ends because
    * createLevelGraph returned false; the search of that call, from the node
    * list `init` it started with, then never queued the sink. Otherwise the
    * loop stopped only because the fuel ran out.
    */
  method RunPhases(graph: Graph, sink: int, fuel: nat) returns (finished: bool, fuelLeft: nat, ghost init: seq<Node>)
    requires Ready(graph, sink)
    modifies graph
    ensures Ready(graph, sink)
    ensures SameEndpoints(old(graph.edges), graph.edges)
    ensures fuelLeft <= fuel && (!finished ==> fuelLeft == 0)
    ensures finished ==>
      && SearchInput(init, graph.residualGraph)
      && var r := Search(Start(init, graph.residualGraph));
         && !r.found
         && forall k :: 0 <= k < |r.queued| ==> r.queued[k].index != sink
  {
    finished := false;
    init := graph.nodes;
    fuelLeft := fuel;
    while fuelLeft > 0
      invariant Ready(graph, sink) && !finished
      invariant SameEndpoints(old(graph.edges), graph.edges)
      invariant fuelLeft <= fuel
      decreases fuelLeft
    {
      fuelLeft := fuelLeft - 1;
      ghost var before := graph.nodes;
      ghost var res := graph.residualGraph;
      var pathExists, order := graph.CreateLevelGraph();
      ghost var r := Search(Start(before, res));
      assert graph.residualGraph == res && graph.nodes == r.nodes && graph.levelGraph == r.level && pathExists == r.found;
      PhaseStarts(before, res, sink);
      if !pathExists {
        init := before;
        SearchFindsSinkIffReached(before, res, sink);
        finished := true;
        break;
      }
      var current := graph.GetNode(0).index;
      assert Walking(graph, sink, current, []);
      fuelLeft := WalkLevelGraph(graph, sink, current, fuelLeft);
    }
  }

  /** After createLevelGraph on a Ready graph, the nodes keep their ids and the level graph is well formed. */
  lemma PhaseStarts(init: seq<Node>, res: AdjacencyLists, sink: int)
    requires sink >= 1 && |init| == sink + 1 && |res| == sink + 1
    requires forall k :: 0 <= k < |init| ==> init[k].index == k
    requires WellFormed(res, sink)
    ensures SearchInput(init, res)
    ensures var r := Search(Start(init, res));
      && |r.nodes| == sink + 1 && |r.level| == sink + 1
      && (forall k :: 0 <= k < |r.nodes| ==> r.nodes[k].index == k)
      && WellFormed(r.level, sink)
  {
    LevelGraphIsPrunedResidual(init, res);
    SubgraphWellFormed(Search(Start(init, res)).level, res, sink);
  }

  /**
    * The inner loop of one phase: from the source, search steps while fuel
    * is left and the source still has a level-graph arc. With fuel left, the
    * walk ended because the source's level-graph list ran empty.
    */
  method WalkLevelGraph(graph: Graph, sink: int, start: int, fuel: nat) returns (fuelLeft: nat)
    requires Walking(graph, sink, start, [])
    modifies graph
    ensures Ready(graph, sink)
    ensures SameEndpoints(old(graph.edges), graph.edges)
    ensures fuelLeft <= fuel
    ensures |graph.levelGraph| == sink + 1 && (fuelLeft > 0 ==> graph.levelGraph[0] == [])
  {
    fuelLeft := fuel;
    var current := start;
    var path: seq<int> := [];
    while fuelLeft > 0 && graph.LevelGraphAt(0) != []
      invariant Walking(graph, sink, current, path)
      invariant SameEndpoints(old(graph.edges), graph.edges)
      invariant fuelLeft <= fuel
      decreases fuelLeft
    {
      fuelLeft := fuelLeft - 1;
      current, path := SearchStep(graph, sink, current, path);
    }
  }

  /** The match count of main: the number of edges with flow. */
  method CountMatches(graph: Graph) returns (matchCount: nat)
    ensures matchCount == FlowCount(graph.edges)
  {
    matchCount := 0;
    var i := 0;
    while i < |graph.edges|
      invariant 0 <= i <= |graph.edges|
      invariant matchCount == FlowCount(graph.edges[..i])
    {
      assert graph.edges[..i + 1][..i] == graph.edges[..i];
      if graph.edges[i].flow {
        matchCount := matchCount + 1;
      }
      i := i + 1;
    }
    assert graph.edges[..|graph.edges|] == graph.edges;
  }

  /**
    * main, from the parsed input on: load the graph, add the source and the
    * sink, run the phases, count the matches. The edges keep the endpoints
    * of their input pairs, and the count is the number of edges with flow.
    */
  method MatchBipartite(names: seq<string>, pairs: seq<(int, int)>, fuel: nat)
    returns (graph: Graph, finished: bool, matchCount: nat)
    requires PairsInRange(|names|, pairs)
    ensures |graph.edges| == |pairs|
    ensures forall k :: 0 <= k < |pairs| ==>
      graph.edges[k].source == pairs[k].0 && graph.edges[k].destination == pairs[k].1
    ensures matchCount == FlowCount(graph.edges)
  {
    graph := BuildGraph(names, pairs);
    var nodeCount := |names|;
    ghost var loaded := graph.edges;
    graph.CreateResidualGraph();
    assert graph.residualGraph == ResidualGraphOf([], nodeCount, loaded);
    InitialResidualReady(nodeCount, loaded);
    assert Ready(graph, nodeCount + 1);
    ghost var init;
    var fuelLeft;
    finished, fuelLeft, init := RunPhases(graph, nodeCount + 1, fuel);
    assert SameEndpoints(loaded, graph.edges);
    matchCount := CountMatches(graph);
  }
}
