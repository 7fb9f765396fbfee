/**
  * Graph.cpp: the graph object of the matching program. It owns the node
  * list, the edge list, the residual graph and the level graph, and its
  * methods edit them in place. Each method is proved to leave the state
  * that a function of GraphSpec describes, and to leave the rest alone.
  */
module FlowGraph {
  import opened Sequences
  import opened FlowNode
  import opened FlowEdge
  import opened GraphSpec
  import opened LevelSearch

  class Graph {
    var nodes: seq<Node>
    var edges: seq<Edge>
    var residualGraph: AdjacencyLists
    var levelGraph: AdjacencyLists

    /** An empty graph. */
    constructor ()
      ensures nodes == [] && edges == [] && residualGraph == [] && levelGraph == []
    {
      nodes := [];
      edges := [];
      residualGraph := [];
      levelGraph := [];
    }

    /** addNode: the node is appended to the node list. */
    method AddNode(node: Node)
      modifies this
      ensures nodes == old(nodes) + [node]
      ensures edges == old(edges) && residualGraph == old(residualGraph) && levelGraph == old(levelGraph)
    {
      nodes := nodes + [node];
    }

    /** getNode, for an index in range. */
    function GetNode(index: int): Node
      reads this
      requires 0 <= index < |nodes|
    {
      nodes[index]
    }

    /** addEdge: an edge with the given endpoints and flag is appended to the edge list. */
    method AddEdge(source: int, destination: int, hasFlow: bool)
      modifies this
      ensures edges == old(edges) + [Edge(source, destination, hasFlow)]
      ensures nodes == old(nodes) && residualGraph == old(residualGraph) && levelGraph == old(levelGraph)
    {
      var edge := Edge(source, destination, hasFlow);
      edges := edges + [edge];
    }

    /** getLevelGraphAt, for an index in range. */
    function LevelGraphAt(index: int): seq<int>
      reads this
      requires 0 <= index < |levelGraph|
    {
      levelGraph[index]
    }

    /**
      * createResidualGraph: with N nodes in the list, the lists are resized to
      * N+2 and filled as ResidualGraphOf says; a source with id 0 is put in
      * front of the node list and a sink with id N+1 at its end.
      */
    method CreateResidualGraph()
      requires forall k :: 0 <= k < |edges| ==> 0 <= edges[k].source < |nodes| + 2
      modifies this
      ensures residualGraph == ResidualGraphOf(old(residualGraph), |old(nodes)|, edges)
      ensures nodes == [Node("", 0, 0)] + old(nodes) + [Node("", |old(nodes)| + 1, 0)]
      ensures edges == old(edges) && levelGraph == old(levelGraph)
    {
      var totalNodes := |nodes|;
      var leftPartition := totalNodes / 2;
      var totalResidualGraphNodes := totalNodes + 2;
      residualGraph := Resize(residualGraph, totalResidualGraphNodes);

      AppendSourceArcs(leftPartition + 1);
      AppendEdgeArcs();
      AppendSinkArcs(leftPartition + 1, totalNodes + 1);

      // sink -> sentinel
      var sinkNodeIndex := totalNodes + 1;
      residualGraph := residualGraph[sinkNodeIndex := residualGraph[sinkNodeIndex] + [Sentinel]];
      ResidualGraphStages(old(residualGraph), totalNodes, edges);
      assert residualGraph == ResidualGraphOf(old(residualGraph), totalNodes, edges);

      var sourceNode := Node("", 0, 0);
      nodes := [sourceNode] + nodes;
      var sinkNode := Node("", sinkNodeIndex, 0);
      nodes := nodes + [sinkNode];
    }

    /** The first loop of createResidualGraph: source -> 1, ..., hi-1. */
    method AppendSourceArcs(hi: int)
      requires |residualGraph| > 0 && hi >= 1
      modifies this
      ensures residualGraph == AddFromSource(old(residualGraph), hi)
      ensures nodes == old(nodes) && edges == old(edges) && levelGraph == old(levelGraph)
    {
      var i := 1;
      ghost var start := residualGraph;
      while i < hi
        invariant 1 <= i <= hi
        invariant nodes == old(nodes) && edges == old(edges) && levelGraph == old(levelGraph)
        invariant residualGraph == AddFromSource(start, i)
      {
        residualGraph := residualGraph[0 := residualGraph[0] + [i]];
        i := i + 1;
      }
    }

    /** The second loop of createResidualGraph: one arc per edge, in edge-list order. */
    method AppendEdgeArcs()
      requires forall k :: 0 <= k < |edges| ==> 0 <= edges[k].source < |residualGraph|
      modifies this
      ensures nodes == old(nodes) && edges == old(edges) && levelGraph == old(levelGraph)
      ensures residualGraph == AddArcs(old(residualGraph), edges)
    {
      var i := 0;
      ghost var start := residualGraph;
      while i < |edges|
        invariant 0 <= i <= |edges|
        invariant nodes == old(nodes) && edges == old(edges) && levelGraph == old(levelGraph)
        invariant residualGraph == AddArcs(start, edges[..i])
      {
        var edge := edges[i];
        assert edges[..i + 1][..i] == edges[..i];
        residualGraph := residualGraph[edge.source := residualGraph[edge.source] + [edge.destination]];
        i := i + 1;
      }
      assert edges[..|edges|] == edges;
    }

    /** The third loop of createResidualGraph: lo, ..., hi-1 -> sink, where the sink is hi. */
    method AppendSinkArcs(lo: int, hi: int)
      requires 0 <= lo <= hi < |residualGraph|
      modifies this
      ensures residualGraph == AddToSink(old(residualGraph), lo, hi, hi)
      ensures nodes == old(nodes) && edges == old(edges) && levelGraph == old(levelGraph)
    {
      var i := lo;
      ghost var start := residualGraph;
      while i < hi
        invariant lo <= i <= hi
        invariant nodes == old(nodes) && edges == old(edges) && levelGraph == old(levelGraph)
        invariant residualGraph == AddToSink(start, lo, i, hi)
      {
        residualGraph := residualGraph[i := residualGraph[i] + [hi]];
        i := i + 1;
      }
    }

    /**
      * updateResidualGraph: for each consecutive pair (u, v) of the path, the
      * first arc u->v, if any, is taken out of u's list and v gets the arc v->u.
      */
    method UpdateResidualGraph(augmentingPath: seq<int>)
      requires |augmentingPath| >= 1
      requires PathInRange(residualGraph, augmentingPath)
      modifies this
      ensures residualGraph == ReverseAlongPath(old(residualGraph), augmentingPath)
      ensures nodes == old(nodes) && edges == old(edges) && levelGraph == old(levelGraph)
    {
      var i := 0;
      while i < |augmentingPath| - 1
        invariant 0 <= i <= |augmentingPath| - 1
        invariant residualGraph == ReverseAlongPath(old(residualGraph), augmentingPath[..i + 1])
        invariant nodes == old(nodes) && edges == old(edges) && levelGraph == old(levelGraph)
      {
        var currentNode := augmentingPath[i];
        var nextNode := augmentingPath[i + 1];
        var it := Find(residualGraph[currentNode], nextNode);
        if it < |residualGraph[currentNode]| {
          residualGraph := residualGraph[currentNode := Delete(residualGraph[currentNode], it)];
          residualGraph := residualGraph[nextNode := residualGraph[nextNode] + [currentNode]];
        }
        assert augmentingPath[..i + 2][..i + 1] == augmentingPath[..i + 1];
        i := i + 1;
      }
      assert augmentingPath[..|augmentingPath|] == augmentingPath;
    }

    /**
      * createLevelGraph. With no nodes it reports false and changes nothing.
      * Otherwise the level graph starts as a copy of the residual graph and a
      * breadth-first search from node 0 sets levels and erases arcs, leaving
      * the node records, the level graph and the result that `Search` in
      * level_search.dfy describes (the properties are the lemmas there).
      *
      * The ghost `order` is every node copy pushed on the queue, in push order.
      */
    method CreateLevelGraph() returns (hasPathToSink: bool, ghost order: seq<Node>)
      requires |residualGraph| == |nodes|
      requires forall k :: 0 <= k < |nodes| ==> nodes[k].index == k
      requires ArcsInRange(residualGraph)
      modifies this
      ensures residualGraph == old(residualGraph) && edges == old(edges)
      ensures old(nodes) == [] ==> !hasPathToSink && order == [] && nodes == old(nodes) && levelGraph == old(levelGraph)
      ensures old(nodes) != [] ==>
        var r := Search(Start(old(nodes), residualGraph));
        nodes == r.nodes && levelGraph == r.level && hasPathToSink == r.found && order == r.queued
    {
      if nodes == [] {
        hasPathToSink := false;
        order := [];
        return;
      }
      ghost var final := Search(Start(nodes, residualGraph));
      hasPathToSink := false;
      levelGraph := residualGraph;
      var visited := seq(|nodes|, _ => false);
      var nodeQueue := [nodes[0]];
      order := [nodes[0]];
      assert SearchState(nodes, visited, levelGraph, nodeQueue, order, hasPathToSink) == Start(old(nodes), residualGraph);

      while nodeQueue != []
        invariant residualGraph == old(residualGraph) && edges == old(edges)
        invariant Shaped(SearchState(nodes, visited, levelGraph, nodeQueue, order, hasPathToSink))
        invariant Search(SearchState(nodes, visited, levelGraph, nodeQueue, order, hasPathToSink)) == final
        decreases CountFalse(visited), |nodeQueue|
      {
        var currentNode := nodeQueue[0];
        var currentIndex := currentNode.index;
        nodeQueue := nodeQueue[1..];
        ghost var popped := SearchState(nodes, visited, levelGraph, nodeQueue, order, hasPathToSink);
        ScanFromShaped(popped, currentNode, 0);
        visited, nodeQueue, order, hasPathToSink := ScanAdjacencyList(currentNode, visited, nodeQueue, order, hasPathToSink);
        CountFalseMark(visited, currentIndex);
        visited := visited[currentIndex := true];
      }
    }

    /**
      * The inner loop of createLevelGraph: the scan of the dequeued copy
      * `currentNode`'s level-graph list, which updates the node records and
      * the level graph in place and returns the updated flags, queue and
      * result. It is exactly `ScanFrom` from entry 0. As in the source the
      * scan index advances after an erase, so the entry that moves into the
      * erased slot is not looked at; the scan stops at the list's current
      * length.
      */
    method ScanAdjacencyList(currentNode: Node, visited: seq<bool>, nodeQueue: seq<Node>, ghost order: seq<Node>,
                             hasPathToSink: bool)
      returns (visited': seq<bool>, nodeQueue': seq<Node>, ghost order': seq<Node>, hasPathToSink': bool)
      requires Shaped(SearchState(nodes, visited, levelGraph, nodeQueue, order, hasPathToSink))
      requires 0 <= currentNode.index < |nodes|
      modifies this
      ensures SearchState(nodes, visited', levelGraph, nodeQueue', order', hasPathToSink')
        == ScanFrom(SearchState(old(nodes), visited, old(levelGraph), nodeQueue, order, hasPathToSink), currentNode, 0)
      ensures residualGraph == old(residualGraph) && edges == old(edges)
    {
      ghost var scanned := ScanFrom(SearchState(nodes, visited, levelGraph, nodeQueue, order, hasPathToSink), currentNode, 0);
      visited', nodeQueue', order', hasPathToSink' := visited, nodeQueue, order, hasPathToSink;
      var currentLevel := currentNode.level;
      var currentIndex := currentNode.index;
      var i := 0;
      while i < |levelGraph[currentIndex]|
        invariant residualGraph == old(residualGraph) && edges == old(edges)
        invariant 0 <= currentIndex < |nodes|
        invariant Shaped(SearchState(nodes, visited', levelGraph, nodeQueue', order', hasPathToSink'))
        invariant ScanFrom(SearchState(nodes, visited', levelGraph, nodeQueue', order', hasPathToSink'), currentNode, i) == scanned
        decreases |levelGraph[currentIndex]| - i
      {
        var adjacentIndex := levelGraph[currentIndex][i];
        assert adjacentIndex in levelGraph[currentIndex];
        if adjacentIndex == Sentinel {
          hasPathToSink' := true;
          break;
        } else if !visited'[adjacentIndex] {
          visited' := visited'[adjacentIndex := true];
          nodes := nodes[adjacentIndex := nodes[adjacentIndex].SetLevel(currentLevel + 1)];
          nodeQueue' := nodeQueue' + [nodes[adjacentIndex]];
          order' := order' + [nodes[adjacentIndex]];
        } else if nodes[adjacentIndex].level < currentLevel + 1 {
          // the erase; the entry that slides into slot i is skipped by the increment below
          DeleteKeepsArcsInRange(levelGraph, currentIndex, i);
          levelGraph := levelGraph[currentIndex := Delete(levelGraph[currentIndex], i)];
        }
        i := i + 1;
      }
    }

    /**
      * updateLevelGraph: for each consecutive pair (u, v) of the path, the
      * first arc u->v, if any, is erased from u's level-graph list.
      */
    method UpdateLevelGraph(augmentingPath: seq<int>)
      requires |augmentingPath| >= 1
      requires PathInRange(levelGraph, augmentingPath)
      modifies this
      ensures levelGraph == PruneAlongPath(old(levelGraph), augmentingPath)
      ensures nodes == old(nodes) && edges == old(edges) && residualGraph == old(residualGraph)
    {
      var i := 0;
      while i < |augmentingPath| - 1
        invariant 0 <= i <= |augmentingPath| - 1
        invariant levelGraph == PruneAlongPath(old(levelGraph), augmentingPath[..i + 1])
        invariant nodes == old(nodes) && edges == old(edges) && residualGraph == old(residualGraph)
      {
        var currentNode := augmentingPath[i];
        var nextNode := augmentingPath[i + 1];
        var it := Find(levelGraph[currentNode], nextNode);
        if it < |levelGraph[currentNode]| {
          levelGraph := levelGraph[currentNode := Delete(levelGraph[currentNode], it)];
        }
        assert augmentingPath[..i + 2][..i + 1] == augmentingPath[..i + 1];
        i := i + 1;
      }
      assert augmentingPath[..|augmentingPath|] == augmentingPath;
    }

    /**
      * augmentFlow: for each consecutive pair (u, v) of the path, a scan of the
      * whole edge list sets the flag of every edge u->v and clears the flag of
      * every edge v->u.
      */
    method AugmentFlow(augmentingPath: seq<int>)
      requires |augmentingPath| >= 1
      modifies this
      ensures edges == AugmentAlongPath(old(edges), augmentingPath)
      ensures nodes == old(nodes) && residualGraph == old(residualGraph) && levelGraph == old(levelGraph)
    {
      var i := 0;
      while i < |augmentingPath| - 1
        invariant 0 <= i <= |augmentingPath| - 1
        invariant edges == AugmentAlongPath(old(edges), augmentingPath[..i + 1])
        invariant nodes == old(nodes) && residualGraph == old(residualGraph) && levelGraph == old(levelGraph)
      {
        var currentNode := augmentingPath[i];
        var nextNode := augmentingPath[i + 1];
        ghost var before := edges;
        var j := 0;
        while j < |edges|
          invariant 0 <= j <= |edges| == |before|
          invariant forall k :: 0 <= k < j ==> edges[k] == AugmentArc(before, currentNode, nextNode)[k]
          invariant forall k :: j <= k < |edges| ==> edges[k] == before[k]
          invariant nodes == old(nodes) && residualGraph == old(residualGraph) && levelGraph == old(levelGraph)
        {
          var edge := edges[j];
          if edge.source == currentNode && edge.destination == nextNode {
            edges := edges[j := edge.SetFlow(true)];
          } else if edge.source == nextNode && edge.destination == currentNode {
            edges := edges[j := edge.SetFlow(false)];
          }
          j := j + 1;
        }
        assert augmentingPath[..i + 2][..i + 1] == augmentingPath[..i + 1];
        i := i + 1;
      }
      assert augmentingPath[..|augmentingPath|] == augmentingPath;
    }

    /**
      * removeNodeAndIncomingEdges: the node's level-graph list is cleared,
      * then the first occurrence of the node, if any, is erased from every list.
      */
    method RemoveNodeAndIncomingEdges(nodeIndex: int)
      requires 0 <= nodeIndex < |levelGraph|
      modifies this
      ensures levelGraph == RemoveIncoming(old(levelGraph), nodeIndex)
      ensures nodes == old(nodes) && edges == old(edges) && residualGraph == old(residualGraph)
    {
      levelGraph := levelGraph[nodeIndex := []];
      ghost var cleared := levelGraph;
      var i := 0;
      while i < |levelGraph|
        invariant 0 <= i <= |levelGraph| == |cleared|
        invariant forall k :: 0 <= k < i ==> levelGraph[k] == RemoveFirst(cleared[k], nodeIndex)
        invariant forall k :: i <= k < |levelGraph| ==> levelGraph[k] == cleared[k]
        invariant nodes == old(nodes) && edges == old(edges) && residualGraph == old(residualGraph)
      {
        var it := Find(levelGraph[i], nodeIndex);
        if it < |levelGraph[i]| {
          levelGraph := levelGraph[i := Delete(levelGraph[i], it)];
        }
        i := i + 1;
      }
    }
  }
}
