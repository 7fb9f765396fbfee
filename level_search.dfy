/**
  * What createLevelGraph computes, as functions over a value that holds the
  * search's state, and what is proved about it.
  *
  * `ScanFrom` is the scan of one dequeued node's list from entry i on, and
  * `Search` the whole queue loop; the method in graph.dfy is proved to leave
  * exactly the state `Search(Start(...))` describes. The lemmas at the end
  * state the search's properties for every input; the predicates before them
  * are the invariant those lemmas are proved with.
  */
module LevelSearch {
  import opened Sequences
  import opened FlowNode
  import opened GraphSpec

  /**
    * The search's state: the node records (the search writes their levels),
    * the visited flags, the level graph being pruned, the queue, every copy
    * ever pushed on the queue in push order (`queued`, which the source does
    * not keep; it records the trace), and whether the sentinel was met.
    */
  datatype SearchState = SearchState(nodes: seq<Node>, visited: seq<bool>, level: AdjacencyLists,
                                     queue: seq<Node>, queued: seq<Node>, found: bool)

  /** Number of entries still false: the nodes the search has not seen yet. */
  function CountFalse(s: seq<bool>): nat
  {
    if s == [] then 0 else CountFalse(s[..|s| - 1]) + (if s[|s| - 1] then 0 else 1)
  }

  /** Marking an entry true lowers the count by one exactly when it was false. */
  lemma {:induction false} CountFalseMark(s: seq<bool>, i: nat)
    requires i < |s|
    ensures CountFalse(s[i := true]) == CountFalse(s) - (if s[i] then 0 else 1)
    decreases |s|
  {
    var n := |s| - 1;
    if i < n {
      assert s[i := true][..n] == s[..n][i := true];
      CountFalseMark(s[..n], i);
    } else {
      assert s[i := true][..n] == s[..n];
    }
  }

  /** Erasing an entry keeps every list's targets in range. */
  lemma DeleteKeepsArcsInRange(g: AdjacencyLists, v: int, i: nat)
    requires ArcsInRange(g) && 0 <= v < |g| && i < |g[v]|
    ensures ArcsInRange(g[v := Delete(g[v], i)])
  {
    var r := g[v := Delete(g[v], i)];
    DeleteMultiset(g[v], i);
    forall u, x | 0 <= u < |r| && x in r[u] ensures x == Sentinel || 0 <= x < |r| {
      if u == v {
        assert multiset(r[u])[x] > 0;
        assert x in g[u];
      }
    }
  }

  /** The facts the search needs to index its arrays: sizes agree, ids are positions, targets are in range. */
  ghost predicate Shaped(st: SearchState)
  {
    |st.visited| == |st.nodes| && |st.level| == |st.nodes|
    && (forall k :: 0 <= k < |st.nodes| ==> st.nodes[k].index == k)
    && ArcsInRange(st.level)
    && (forall k :: 0 <= k < |st.queue| ==> 0 <= st.queue[k].index < |st.nodes|)
  }

  /** The search starts from a copy of the residual graph, nothing visited, and node 0 queued. */
  function Start(init: seq<Node>, res: AdjacencyLists): SearchState
    requires |init| >= 1
  {
    SearchState(init, seq(|init|, _ => false), res, [init[0]], [init[0]], false)
  }

  /** Marks node v visited. */
  function Mark(st: SearchState, v: int): SearchState
    requires 0 <= v < |st.visited|
  {
    st.(visited := st.visited[v := true])
  }

  /**
    * The scan of the list of the dequeued copy `cur`, from entry i on. The
    * sentinel sets `found` and ends the scan; an unvisited neighbour is marked,
    * given level cur.level + 1 and queued; an arc to a visited neighbour whose
    * level is below cur.level + 1 is erased, and the scan goes on at i + 1, so
    * the entry that moved into slot i is not looked at. The scan stops at the
    * list's current length.
    */
  function ScanFrom(st: SearchState, cur: Node, i: nat): SearchState
    requires Shaped(st) && 0 <= cur.index < |st.nodes|
    decreases |st.level[cur.index]| - i
  {
    var list := st.level[cur.index];
    if i >= |list| then st
    else
      var adjacent := list[i];
      assert adjacent in st.level[cur.index];
      if adjacent == Sentinel then st.(found := true)
      else if !st.visited[adjacent] then
        var reached := st.nodes[adjacent].SetLevel(cur.level + 1);
        ScanFrom(st.(nodes := st.nodes[adjacent := reached], visited := st.visited[adjacent := true],
                     queue := st.queue + [reached], queued := st.queued + [reached]), cur, i + 1)
      else if st.nodes[adjacent].level < cur.level + 1 then
        DeleteKeepsArcsInRange(st.level, cur.index, i);
        ScanFrom(st.(level := st.level[cur.index := Delete(list, i)]), cur, i + 1)
      else
        ScanFrom(st, cur, i + 1)
  }

  /** The scan keeps the shape, and it either sees a new node or leaves the flags and the queue as they were. */
  lemma {:induction false} ScanFromShaped(st: SearchState, cur: Node, i: nat)
    requires Shaped(st) && 0 <= cur.index < |st.nodes|
    ensures var r := ScanFrom(st, cur, i);
      Shaped(r) && |r.nodes| == |st.nodes|
      && CountFalse(r.visited) <= CountFalse(st.visited)
      && (CountFalse(r.visited) == CountFalse(st.visited) ==> r.queue == st.queue)
    decreases |st.level[cur.index]| - i
  {
    var list := st.level[cur.index];
    if i < |list| {
      var adjacent := list[i];
      assert adjacent in st.level[cur.index];
      if adjacent == Sentinel {
      } else if !st.visited[adjacent] {
        var reached := st.nodes[adjacent].SetLevel(cur.level + 1);
        var next := st.(nodes := st.nodes[adjacent := reached], visited := st.visited[adjacent := true],
                        queue := st.queue + [reached], queued := st.queued + [reached]);
        CountFalseMark(st.visited, adjacent);
        assert CountFalse(next.visited) == CountFalse(st.visited) - 1;
        ScanFromShaped(next, cur, i + 1);
        assert ScanFrom(st, cur, i) == ScanFrom(next, cur, i + 1);
      } else if st.nodes[adjacent].level < cur.level + 1 {
        DeleteKeepsArcsInRange(st.level, cur.index, i);
        var next := st.(level := st.level[cur.index := Delete(list, i)]);
        assert next.visited == st.visited && next.queue == st.queue;
        ScanFromShaped(next, cur, i + 1);
        assert ScanFrom(st, cur, i) == ScanFrom(next, cur, i + 1);
      } else {
        ScanFromShaped(st, cur, i + 1);
      }
    }
  }

  /** The queue loop: dequeue, scan that copy's list, mark it visited, until the queue is empty. */
  function Search(st: SearchState): SearchState
    requires Shaped(st)
    decreases CountFalse(st.visited), |st.queue|
  {
    if st.queue == [] then st
    else
      var cur := st.queue[0];
      var scanned := ScanFrom(st.(queue := st.queue[1..]), cur, 0);
      ScanFromShaped(st.(queue := st.queue[1..]), cur, 0);
      CountFalseMark(scanned.visited, cur.index);
      Search(Mark(scanned, cur.index))
  }

  /** The scan of cur's list from entry i, with cur marked visited at its end. */
  function ScanAndMark(st: SearchState, cur: Node, i: nat): SearchState
    requires Shaped(st) && 0 <= cur.index < |st.nodes|
  {
    ScanFromShaped(st, cur, i);
    Mark(ScanFrom(st, cur, i), cur.index)
  }

  /** The search runs until its queue is empty. */
  lemma {:induction false} SearchDrainsQueue(st: SearchState)
    requires Shaped(st)
    ensures Search(st).queue == []
    decreases CountFalse(st.visited), |st.queue|
  {
    if st.queue != [] {
      var cur := st.queue[0];
      var scanned := ScanFrom(st.(queue := st.queue[1..]), cur, 0);
      ScanFromShaped(st.(queue := st.queue[1..]), cur, 0);
      CountFalseMark(scanned.visited, cur.index);
      SearchDrainsQueue(Mark(scanned, cur.index));
    }
  }

  /** What createLevelGraph demands of its graph: a node list with ids 0.., and one residual list per node. */
  ghost predicate SearchInput(init: seq<Node>, res: AdjacencyLists)
  {
    |init| >= 1 && |res| == |init| && ArcsInRange(res)
    && forall k :: 0 <= k < |init| ==> init[k].index == k
  }

  // ---------------------------------------------------------------------
  // The invariant. `init` is the node list before the search, `res` the
  // residual graph, `order` the copies queued so far and d the number of
  // them dequeued. Each fact about one copy, node or list is a predicate of
  // its own over the fields it reads, so a proof uses the instances it names.

  /** Copies dequeued so far. */
  function Taken(st: SearchState): int
  {
    |st.queued| - |st.queue|
  }

  /** Some queued copy of node v carries level lvl. */
  ghost predicate HasCopy(order: seq<Node>, v: int, lvl: int)
  {
    exists k :: 0 <= k < |order| && order[k].index == v && order[k].level == lvl
  }

  /** The copy order[k] was reached from a copy dequeued before it (among the first d), one level further. */
  ghost predicate HasParent(res: AdjacencyLists, order: seq<Node>, k: int, d: int)
  {
    0 <= k < |order|
    && exists j :: 0 <= j < k && j < d && 0 <= order[j].index < |res|
         && order[k].index in res[order[j].index] && order[k].level == order[j].level + 1
  }

  /** A copy of node v is among the first d dequeued. */
  ghost predicate Dequeued(order: seq<Node>, d: int, v: int)
  {
    exists k :: 0 <= k < d && k < |order| && order[k].index == v
  }

  /** An arc v->w may be gone: a copy of v was dequeued and a copy of w was queued at no greater level. */
  ghost predicate ErasedBehind(order: seq<Node>, d: int, v: int, w: int)
  {
    exists a, b :: 0 <= a < d && a < |order| && 0 <= b < |order|
      && order[a].index == v && order[b].index == w && order[b].level <= order[a].level
  }

  /** One of the first d copies had the sentinel in its residual list. */
  ghost predicate SentinelSeen(res: AdjacencyLists, order: seq<Node>, d: int)
  {
    exists k :: 0 <= k < d && k < |order| && 0 <= order[k].index < |res| && Sentinel in res[order[k].index]
  }

  /** Copy k, after the first, is its node's current record, visited, and has a parent. */
  ghost predicate CopyOk(res: AdjacencyLists, nodes: seq<Node>, visited: seq<bool>, order: seq<Node>, d: int, k: int)
  {
    1 <= k < |order| ==>
      var v := order[k].index;
      0 <= v < |nodes| && v < |visited| && nodes[v] == order[k] && visited[v] && HasParent(res, order, k, d)
  }

  /** A visited node's level is that of one of its copies; an unvisited node keeps its initial record. */
  ghost predicate VisitOk(init: seq<Node>, nodes: seq<Node>, visited: seq<bool>, order: seq<Node>, v: int)
  {
    0 <= v < |init| && v < |nodes| && v < |visited| ==>
      (visited[v] ==> HasCopy(order, v, nodes[v].level))
      && (!visited[v] ==> nodes[v] == init[v])
  }

  /** The list of v is whole unless v was dequeued, and an arc of it is gone only as ErasedBehind allows. */
  ghost predicate ListOk(res: AdjacencyLists, level: AdjacencyLists, order: seq<Node>, d: int, v: int)
  {
    0 <= v < |res| && v < |level| ==>
      (!Dequeued(order, d, v) ==> level[v] == res[v])
      && forall w :: multiset(level[v])[w] < multiset(res[v])[w] ==> ErasedBehind(order, d, v, w)
  }

  /** If copy k's residual list begins with the sentinel, the result is set. */
  ghost predicate SentinelOk(res: AdjacencyLists, order: seq<Node>, found: bool, k: int)
  {
    0 <= k < |order| && 0 <= order[k].index < |res| && StartsWithSentinel(res[order[k].index]) ==> found
  }

  /** Sizes, ids and names, the pruned level graph, and the queue as the undequeued tail of `queued`. */
  ghost predicate Frame(init: seq<Node>, res: AdjacencyLists, st: SearchState)
  {
    Shaped(st)
    && |init| >= 1 && |res| == |init| && |st.nodes| == |init| && ArcsInRange(res)
    && (forall k :: 0 <= k < |init| ==> st.nodes[k].name == init[k].name)
    && IsSubgraph(st.level, res)
    && |st.queue| <= |st.queued| && st.queue == st.queued[Taken(st)..]
  }

  /** The queued copies: node 0's initial record first, then copies that each have a parent. */
  ghost predicate Trace(init: seq<Node>, res: AdjacencyLists, st: SearchState, d: int)
  {
    var order := st.queued;
    |order| >= 1 && 0 <= d <= |order| && |init| >= 1 && order[0] == init[0]
    && (d == 0 ==> st.nodes == init && |order| == 1)
    && (forall k :: 0 <= k < |order| ==> 0 <= order[k].index < |init|)
    && (forall k :: CopyOk(res, st.nodes, st.visited, order, d, k))
    && (forall v :: VisitOk(init, st.nodes, st.visited, order, v))
  }

  /** Every list is pruned only as ListOk allows. */
  ghost predicate Pruning(res: AdjacencyLists, st: SearchState, d: int)
  {
    forall v :: ListOk(res, st.level, st.queued, d, v)
  }

  /** `found` only after the sentinel was in a dequeued list; a scanned list that begins with it sets `found`. */
  ghost predicate Detection(res: AdjacencyLists, st: SearchState, d: int, scanned: int)
  {
    (st.found ==> SentinelSeen(res, st.queued, d))
    && forall k :: 0 <= k < scanned ==> SentinelOk(res, st.queued, st.found, k)
  }

  /** The invariant between two dequeues. */
  ghost predicate Between(init: seq<Node>, res: AdjacencyLists, st: SearchState)
  {
    Frame(init, res, st)
    && Trace(init, res, st, Taken(st))
    && Pruning(res, st, Taken(st))
    && Detection(res, st, Taken(st), Taken(st))
  }

  /** The invariant while the list of the last dequeued copy `cur` is scanned, before its entry i. */
  ghost predicate Scanning(init: seq<Node>, res: AdjacencyLists, st: SearchState, cur: Node, i: nat)
  {
    Frame(init, res, st)
    && Trace(init, res, st, Taken(st))
    && Taken(st) >= 1 && cur == st.queued[Taken(st) - 1]
    && Pruning(res, st, Taken(st))
    && Detection(res, st, Taken(st), Taken(st) - 1)
    && (StartsWithSentinel(res[cur.index]) ==> st.found || (i == 0 && st.level[cur.index] == res[cur.index]))
    && (st.visited[cur.index] || st.nodes[cur.index] == cur)
  }

  // ---------------------------------------------------------------------
  // Facts about the first d copies survive queuing more copies and
  // dequeuing more of them.

  /** `order'` extends `order`, and at least as many copies are dequeued. */
  ghost predicate Grows(order: seq<Node>, order': seq<Node>, d: int, d': int)
  {
    |order| <= |order'| && order == order'[..|order|] && d <= d'
  }

  lemma ParentGrows(res: AdjacencyLists, order: seq<Node>, order': seq<Node>, k: int, d: int, d': int)
    requires Grows(order, order', d, d') && HasParent(res, order, k, d)
    ensures HasParent(res, order', k, d')
  {
    var j :| 0 <= j < k && j < d && 0 <= order[j].index < |res|
      && order[k].index in res[order[j].index] && order[k].level == order[j].level + 1;
    assert order'[j] == order[j] && order'[k] == order[k];
  }

  lemma CopyGrows(order: seq<Node>, order': seq<Node>, v: int, lvl: int)
    requires Grows(order, order', 0, 0) && HasCopy(order, v, lvl)
    ensures HasCopy(order', v, lvl)
  {
    var k :| 0 <= k < |order| && order[k].index == v && order[k].level == lvl;
    assert order'[k] == order[k];
  }

  lemma ErasedGrows(order: seq<Node>, order': seq<Node>, d: int, d': int, v: int, w: int)
    requires Grows(order, order', d, d') && ErasedBehind(order, d, v, w)
    ensures ErasedBehind(order', d', v, w)
  {
    var a, b :| 0 <= a < d && a < |order| && 0 <= b < |order|
      && order[a].index == v && order[b].index == w && order[b].level <= order[a].level;
    assert order'[a] == order[a] && order'[b] == order[b];
  }

  lemma DequeuedGrows(order: seq<Node>, order': seq<Node>, d: int, d': int, v: int)
    requires Grows(order, order', d, d') && Dequeued(order, d, v)
    ensures Dequeued(order', d', v)
  {
    var k :| 0 <= k < d && k < |order| && order[k].index == v;
    assert order'[k] == order[k];
  }

  lemma SeenGrows(res: AdjacencyLists, order: seq<Node>, order': seq<Node>, d: int, d': int)
    requires Grows(order, order', d, d') && SentinelSeen(res, order, d)
    ensures SentinelSeen(res, order', d')
  {
    var k :| 0 <= k < d && k < |order| && 0 <= order[k].index < |res| && Sentinel in res[order[k].index];
    assert order'[k] == order[k];
  }

  /** Queuing a copy does not add to the first d when d is no more than were queued. */
  lemma DequeuedKept(order: seq<Node>, order': seq<Node>, d: int, v: int)
    requires Grows(order, order', d, d) && d <= |order| && Dequeued(order', d, v)
    ensures Dequeued(order, d, v)
  {
    var k :| 0 <= k < d && k < |order'| && order'[k].index == v;
    assert order'[k] == order[k];
  }

  // ---------------------------------------------------------------------
  // One lemma per step of the search.

  lemma StartKeeps(init: seq<Node>, res: AdjacencyLists)
    requires SearchInput(init, res)
    ensures Between(init, res, Start(init, res))
  {
    var st := Start(init, res);
    forall v | 0 <= v < |res| ensures IsSubsequence(res[v], res[v]) {
      SubsequenceReflexive(res[v]);
    }
    assert st.queue == st.queued[0..];
    forall v ensures ListOk(res, st.level, st.queued, 0, v) {
    }
    forall v ensures VisitOk(init, st.nodes, st.visited, st.queued, v) {
    }
    forall k ensures CopyOk(res, st.nodes, st.visited, st.queued, 0, k) {
    }
  }

  lemma DequeueKeeps(init: seq<Node>, res: AdjacencyLists, st: SearchState)
    requires Between(init, res, st) && st.queue != []
    ensures Scanning(init, res, st.(queue := st.queue[1..]), st.queue[0], 0)
  {
    var d := Taken(st);
    var order := st.queued;
    var st' := st.(queue := st.queue[1..]);
    var cur := st.queue[0];
    assert cur == order[d];
    assert Taken(st') == d + 1;
    assert st'.queue == order[d + 1..];
    var d1 := d + 1;
    assert Grows(order, order, d, d1);
    forall k ensures CopyOk(res, st.nodes, st.visited, order, d1, k) {
      assert CopyOk(res, st.nodes, st.visited, order, d, k);
      if 1 <= k < |order| {
        ParentGrows(res, order, order, k, d, d1);
      }
    }
    forall v ensures ListOk(res, st.level, order, d1, v) {
      assert ListOk(res, st.level, order, d, v);
      if 0 <= v < |res| {
        if !Dequeued(order, d1, v) && Dequeued(order, d, v) {
          DequeuedGrows(order, order, d, d1, v);
        }
        forall w | multiset(st.level[v])[w] < multiset(res[v])[w] ensures ErasedBehind(order, d1, v, w) {
          ErasedGrows(order, order, d, d1, v, w);
        }
      }
    }
    if st.found {
      SeenGrows(res, order, order, d, d + 1);
    }
    assert ListOk(res, st.level, order, d, cur.index);
    if StartsWithSentinel(res[cur.index]) && !st.found && Dequeued(order, d, cur.index) {
      var k :| 0 <= k < d && k < |order| && order[k].index == cur.index;
      assert SentinelOk(res, order, st.found, k);
    }
    if d >= 1 {
      assert CopyOk(res, st.nodes, st.visited, order, d, d);
    }
  }

  lemma SentinelKeeps(init: seq<Node>, res: AdjacencyLists, st: SearchState, cur: Node, i: nat)
    requires Scanning(init, res, st, cur, i)
    requires i < |st.level[cur.index]| && st.level[cur.index][i] == Sentinel
    ensures Scanning(init, res, st.(found := true), cur, i)
  {
    SubsequenceContains(st.level[cur.index], res[cur.index], Sentinel);
    assert st.queued[Taken(st) - 1] == cur;
    assert SentinelSeen(res, st.queued, Taken(st));
  }

  lemma DiscoverKeeps(init: seq<Node>, res: AdjacencyLists, st: SearchState, cur: Node, i: nat)
    requires Scanning(init, res, st, cur, i)
    requires i < |st.level[cur.index]|
    requires var x := st.level[cur.index][i]; x != Sentinel && 0 <= x < |st.nodes| && !st.visited[x]
    ensures var x := st.level[cur.index][i];
      var reached := st.nodes[x].SetLevel(cur.level + 1);
      Scanning(init, res, st.(nodes := st.nodes[x := reached], visited := st.visited[x := true],
                              queue := st.queue + [reached], queued := st.queued + [reached]), cur, i + 1)
  {
    var x := st.level[cur.index][i];
    SubsequenceContains(st.level[cur.index], res[cur.index], x);
    var reached := st.nodes[x].SetLevel(cur.level + 1);
    var nodes' := st.nodes[x := reached];
    var visited' := st.visited[x := true];
    var order := st.queued;
    var order' := order + [reached];
    var st' := st.(nodes := nodes', visited := visited', queue := st.queue + [reached], queued := order');
    var d := Taken(st);
    assert Taken(st') == d;
    assert st'.queue == order'[d..];
    assert order'[d - 1] == cur;
    assert cur.index < |res| && x in res[cur.index];
    DiscoverCopies(res, st.nodes, st.visited, order, d, cur, x, reached, nodes', visited', order');
    DiscoverVisits(init, st.nodes, st.visited, order, x, reached, nodes', visited', order');
    QueuedKeepsPruning(res, st.level, order, reached, d);
    QueuedKeepsDetection(res, order, reached, st.found, d);
  }

  /** Queuing the copy `reached` of an unvisited target x of cur keeps every copy's record, flag and parent. */
  lemma DiscoverCopies(res: AdjacencyLists, nodes: seq<Node>, visited: seq<bool>, order: seq<Node>, d: int,
                       cur: Node, x: int, reached: Node,
                       nodes': seq<Node>, visited': seq<bool>, order': seq<Node>)
    requires 1 <= d <= |order| && order[d - 1] == cur
    requires 0 <= cur.index < |res| && x in res[cur.index]
    requires 0 <= x < |nodes| && x < |visited| && !visited[x]
    requires reached.index == x && reached.level == cur.level + 1
    requires nodes' == nodes[x := reached] && visited' == visited[x := true] && order' == order + [reached]
    requires forall k :: CopyOk(res, nodes, visited, order, d, k)
    ensures forall k :: CopyOk(res, nodes', visited', order', d, k)
  {
    assert Grows(order, order', d, d);
    forall k ensures CopyOk(res, nodes', visited', order', d, k) {
      if 1 <= k < |order| {
        assert CopyOk(res, nodes, visited, order, d, k);
        assert order'[k] == order[k];
        ParentGrows(res, order, order', k, d, d);
      } else if k == |order| {
        assert HasParent(res, order', k, d) by {
          assert order'[d - 1] == cur && order'[k] == reached;
        }
      }
    }
  }

  /** Marking x visited with the record `reached`, queued last, keeps every node's record matched by a copy. */
  lemma DiscoverVisits(init: seq<Node>, nodes: seq<Node>, visited: seq<bool>, order: seq<Node>, x: int, reached: Node,
                       nodes': seq<Node>, visited': seq<bool>, order': seq<Node>)
    requires 0 <= x < |nodes| && x < |visited| && reached.index == x
    requires nodes' == nodes[x := reached] && visited' == visited[x := true] && order' == order + [reached]
    requires forall v :: VisitOk(init, nodes, visited, order, v)
    ensures forall v :: VisitOk(init, nodes', visited', order', v)
  {
    assert Grows(order, order', 0, 0);
    forall v ensures VisitOk(init, nodes', visited', order', v) {
      assert VisitOk(init, nodes, visited, order, v);
      if v == x {
        assert order'[|order|] == reached;
      } else if 0 <= v < |init| && v < |nodes| && v < |visited| && visited[v] {
        CopyGrows(order, order', v, nodes[v].level);
      }
    }
  }

  /** Queuing one more copy keeps every list pruned as ListOk allows. */
  lemma QueuedKeepsPruning(res: AdjacencyLists, level: AdjacencyLists, order: seq<Node>, reached: Node, d: int)
    requires 0 <= d <= |order|
    requires forall v :: ListOk(res, level, order, d, v)
    ensures forall v :: ListOk(res, level, order + [reached], d, v)
  {
    var order' := order + [reached];
    assert Grows(order, order', d, d);
    forall v ensures ListOk(res, level, order', d, v) {
      assert ListOk(res, level, order, d, v);
      if 0 <= v < |res| && v < |level| {
        if Dequeued(order', d, v) {
          DequeuedKept(order, order', d, v);
        }
        forall w | multiset(level[v])[w] < multiset(res[v])[w] ensures ErasedBehind(order', d, v, w) {
          ErasedGrows(order, order', d, d, v, w);
        }
      }
    }
  }

  /** Queuing one more copy keeps what is known about the sentinel. */
  lemma QueuedKeepsDetection(res: AdjacencyLists, order: seq<Node>, reached: Node, found: bool, d: int)
    requires 1 <= d <= |order|
    requires found ==> SentinelSeen(res, order, d)
    requires forall k :: 0 <= k < d - 1 ==> SentinelOk(res, order, found, k)
    ensures found ==> SentinelSeen(res, order + [reached], d)
    ensures forall k :: 0 <= k < d - 1 ==> SentinelOk(res, order + [reached], found, k)
  {
    var order' := order + [reached];
    assert Grows(order, order', d, d);
    if found {
      SeenGrows(res, order, order', d, d);
    }
    forall k | 0 <= k < d - 1 ensures SentinelOk(res, order', found, k) {
      assert SentinelOk(res, order, found, k);
      assert order'[k] == order[k];
    }
  }

  /**
    * Erasing entry i of c's list keeps that list as ListOk allows when a
    * dequeued copy a of c sits no lower than a copy b of the entry's target.
    */
  lemma EraseListOk(res: AdjacencyLists, level: AdjacencyLists, order: seq<Node>, d: int, c: int, i: nat, a: int, b: int)
    requires 0 <= c < |res| && c < |level| && i < |level[c]|
    requires ListOk(res, level, order, d, c)
    requires 0 <= a < d && a < |order| && 0 <= b < |order|
    requires order[a].index == c && order[b].index == level[c][i] && order[b].level <= order[a].level
    ensures ListOk(res, level[c := Delete(level[c], i)], order, d, c)
  {
    var x := level[c][i];
    var level' := level[c := Delete(level[c], i)];
    DeleteMultiset(level[c], i);
    assert Dequeued(order, d, c);
    forall w | multiset(level'[c])[w] < multiset(res[c])[w] ensures ErasedBehind(order, d, c, w) {
      if w == x && multiset(level[c])[w] >= multiset(res[c])[w] {
        assert order[a].index == c && order[b].index == w;
      }
    }
  }

  lemma EraseKeeps(init: seq<Node>, res: AdjacencyLists, st: SearchState, cur: Node, i: nat)
    requires Scanning(init, res, st, cur, i)
    requires i < |st.level[cur.index]|
    requires var x := st.level[cur.index][i];
      x != Sentinel && 0 <= x < |st.nodes| && st.visited[x] && st.nodes[x].level < cur.level + 1
    ensures Scanning(init, res, st.(level := st.level[cur.index := Delete(st.level[cur.index], i)]), cur, i + 1)
  {
    var c := cur.index;
    var x := st.level[c][i];
    var level' := st.level[c := Delete(st.level[c], i)];
    var d := Taken(st);
    var order := st.queued;
    DeleteKeepsArcsInRange(st.level, c, i);
    DeleteIsSubsequence(st.level[c], i);
    SubsequenceTransitive(Delete(st.level[c], i), st.level[c], res[c]);
    assert IsSubgraph(level', res);
    assert order[d - 1].index == c;
    assert VisitOk(init, st.nodes, st.visited, order, x);
    var b :| 0 <= b < |order| && order[b].index == x && order[b].level == st.nodes[x].level;
    forall v ensures ListOk(res, level', order, d, v) {
      if v == c {
        EraseListOk(res, st.level, order, d, c, i, d - 1, b);
      } else {
        assert ListOk(res, st.level, order, d, v);
      }
    }
  }

  lemma PassKeeps(init: seq<Node>, res: AdjacencyLists, st: SearchState, cur: Node, i: nat)
    requires Scanning(init, res, st, cur, i)
    requires i < |st.level[cur.index]| && st.level[cur.index][i] != Sentinel
    ensures Scanning(init, res, st, cur, i + 1)
  {
  }

  lemma FinishKeeps(init: seq<Node>, res: AdjacencyLists, st: SearchState, cur: Node, i: nat)
    requires Scanning(init, res, st, cur, i)
    requires st.found || i >= |st.level[cur.index]|
    ensures Between(init, res, Mark(st, cur.index))
  {
    var c := cur.index;
    var visited' := st.visited[c := true];
    var d := Taken(st);
    var order := st.queued;
    assert order[d - 1] == cur;
    forall k ensures CopyOk(res, st.nodes, visited', order, d, k) {
      assert CopyOk(res, st.nodes, st.visited, order, d, k);
    }
    forall v ensures VisitOk(init, st.nodes, visited', order, v) {
      assert VisitOk(init, st.nodes, st.visited, order, v);
    }
    forall k | 0 <= k < d ensures SentinelOk(res, order, st.found, k) {
      if k < d - 1 {
        assert SentinelOk(res, order, st.found, k);
      }
    }
  }

  /** The scan of one list keeps the invariant, with the scanned node marked at its end. */
  lemma {:induction false} ScanKeeps(init: seq<Node>, res: AdjacencyLists, st: SearchState, cur: Node, i: nat)
    requires Scanning(init, res, st, cur, i)
    ensures Between(init, res, ScanAndMark(st, cur, i))
    decreases |st.level[cur.index]| - i, 1
  {
    var list := st.level[cur.index];
    if i >= |list| {
      FinishKeeps(init, res, st, cur, i);
    } else {
      var x := list[i];
      SubsequenceContains(list, res[cur.index], x);
      if x == Sentinel {
        SentinelKeeps(init, res, st, cur, i);
        FinishKeeps(init, res, st.(found := true), cur, i);
      } else if !st.visited[x] {
        ScanKeepsDiscover(init, res, st, cur, i);
      } else if st.nodes[x].level < cur.level + 1 {
        ScanKeepsErase(init, res, st, cur, i);
      } else {
        PassKeeps(init, res, st, cur, i);
        ScanKeeps(init, res, st, cur, i + 1);
      }
    }
  }

  /** ScanKeeps when entry i is a node not yet visited. */
  lemma {:induction false} ScanKeepsDiscover(init: seq<Node>, res: AdjacencyLists, st: SearchState, cur: Node, i: nat)
    requires Scanning(init, res, st, cur, i)
    requires i < |st.level[cur.index]|
    requires var x := st.level[cur.index][i]; x != Sentinel && 0 <= x < |st.nodes| && !st.visited[x]
    ensures Between(init, res, ScanAndMark(st, cur, i))
    decreases |st.level[cur.index]| - i, 0
  {
    var x := st.level[cur.index][i];
    DiscoverKeeps(init, res, st, cur, i);
    var reached := st.nodes[x].SetLevel(cur.level + 1);
    ScanKeeps(init, res, st.(nodes := st.nodes[x := reached], visited := st.visited[x := true],
                             queue := st.queue + [reached], queued := st.queued + [reached]), cur, i + 1);
  }

  /** ScanKeeps when entry i is an arc to a visited node of a lower level. */
  lemma {:induction false} ScanKeepsErase(init: seq<Node>, res: AdjacencyLists, st: SearchState, cur: Node, i: nat)
    requires Scanning(init, res, st, cur, i)
    requires i < |st.level[cur.index]|
    requires var x := st.level[cur.index][i];
      x != Sentinel && 0 <= x < |st.nodes| && st.visited[x] && st.nodes[x].level < cur.level + 1
    ensures Between(init, res, ScanAndMark(st, cur, i))
    decreases |st.level[cur.index]| - i, 0
  {
    EraseKeeps(init, res, st, cur, i);
    ScanKeeps(init, res, st.(level := st.level[cur.index := Delete(st.level[cur.index], i)]), cur, i + 1);
  }

  /** The whole search keeps the invariant. */
  lemma {:induction false} SearchKeeps(init: seq<Node>, res: AdjacencyLists, st: SearchState)
    requires Between(init, res, st)
    ensures Between(init, res, Search(st))
    decreases CountFalse(st.visited), |st.queue|
  {
    if st.queue != [] {
      var cur := st.queue[0];
      var popped := st.(queue := st.queue[1..]);
      DequeueKeeps(init, res, st);
      ScanKeeps(init, res, popped, cur, 0);
      ScanFromShaped(popped, cur, 0);
      var scanned := ScanFrom(popped, cur, 0);
      CountFalseMark(scanned.visited, cur.index);
      assert Mark(scanned, cur.index) == ScanAndMark(popped, cur, 0);
      SearchKeeps(init, res, Mark(scanned, cur.index));
    }
  }

  /** The invariant holds when the queue has run empty, with every queued copy dequeued. */
  lemma SearchEnds(init: seq<Node>, res: AdjacencyLists)
    requires SearchInput(init, res)
    ensures var r := Search(Start(init, res)); Between(init, res, r) && Taken(r) == |r.queued|
  {
    StartKeeps(init, res);
    SearchKeeps(init, res, Start(init, res));
    SearchDrainsQueue(Start(init, res));
  }

  // ---------------------------------------------------------------------
  // What createLevelGraph establishes.

  /**
    * The level graph is the residual graph with arcs erased: every list is a
    * subsequence of its residual list, and the list of a node the search never
    * reached is whole, as is that node's record. Ids and names are kept.
    */
  lemma LevelGraphIsPrunedResidual(init: seq<Node>, res: AdjacencyLists)
    requires SearchInput(init, res)
    ensures var r := Search(Start(init, res));
      |r.nodes| == |init| && |r.level| == |init|
      && (forall k :: 0 <= k < |init| ==> r.nodes[k].index == k && r.nodes[k].name == init[k].name)
      && IsSubgraph(r.level, res)
      && (forall v :: 0 <= v < |init| && (forall k :: 0 <= k < |r.queued| ==> r.queued[k].index != v) ==>
            r.nodes[v] == init[v] && r.level[v] == res[v])
  {
    SearchEnds(init, res);
    var r := Search(Start(init, res));
    forall v | 0 <= v < |init| && (forall k :: 0 <= k < |r.queued| ==> r.queued[k].index != v)
      ensures r.nodes[v] == init[v] && r.level[v] == res[v]
    {
      assert VisitOk(init, r.nodes, r.visited, r.queued, v);
      assert ListOk(res, r.level, r.queued, Taken(r), v);
      assert !HasCopy(r.queued, v, r.nodes[v].level);
      assert !Dequeued(r.queued, Taken(r), v);
    }
  }

  /**
    * Levels are assigned along residual arcs: node 0 is queued first with its
    * own record, and each later copy is the node's final record and was reached
    * from an earlier copy whose level is one less.
    */
  lemma SearchAssignsLevels(init: seq<Node>, res: AdjacencyLists)
    requires SearchInput(init, res)
    ensures var r := Search(Start(init, res));
      |r.queued| >= 1 && r.queued[0] == init[0] && |r.nodes| == |init|
      && (forall k :: 0 <= k < |r.queued| ==> 0 <= r.queued[k].index < |init|)
      && (forall k :: 1 <= k < |r.queued| ==> r.nodes[r.queued[k].index] == r.queued[k])
      && (forall k :: 1 <= k < |r.queued| ==>
            (exists j :: 0 <= j < k && r.queued[k].index in res[r.queued[j].index]
               && r.queued[k].level == r.queued[j].level + 1))
  {
    SearchEnds(init, res);
    var r := Search(Start(init, res));
    forall k | 1 <= k < |r.queued|
      ensures r.nodes[r.queued[k].index] == r.queued[k]
      ensures exists j :: (0 <= j < k && r.queued[k].index in res[r.queued[j].index]
                            && r.queued[k].level == r.queued[j].level + 1)
    {
      assert CopyOk(res, r.nodes, r.visited, r.queued, Taken(r), k);
    }
  }

  /**
    * An arc v->w is missing from the level graph only if a copy of v was
    * scanned and a copy of w had been queued at a level no greater than it.
    */
  lemma SearchErasesOnlyBackArcs(init: seq<Node>, res: AdjacencyLists)
    requires SearchInput(init, res)
    ensures var r := Search(Start(init, res));
      |r.level| == |res|
      && forall v, w :: 0 <= v < |res| && multiset(r.level[v])[w] < multiset(res[v])[w] ==>
        (exists a, b :: 0 <= a < |r.queued| && 0 <= b < |r.queued| && r.queued[a].index == v
           && r.queued[b].index == w && r.queued[b].level <= r.queued[a].level)
  {
    SearchEnds(init, res);
    var r := Search(Start(init, res));
    forall v, w | 0 <= v < |res| && multiset(r.level[v])[w] < multiset(res[v])[w]
      ensures exists a, b :: (0 <= a < |r.queued| && 0 <= b < |r.queued| && r.queued[a].index == v
                               && r.queued[b].index == w && r.queued[b].level <= r.queued[a].level)
    {
      assert ListOk(res, r.level, r.queued, Taken(r), v);
    }
  }

  /**
    * The result: true only if the sentinel was in the residual list of a node
    * the search reached, and true whenever a reached node's list begins with it.
    * The sentinel sits at the head of the sink's list and nowhere else once
    * createResidualGraph has run, and reversals keep it there
    * (ReverseAlongPathKeepsSentinelFirst), so SearchFindsSinkIffReached turns
    * this into "true exactly when the sink was reached".
    */
  lemma SearchDetectsSentinel(init: seq<Node>, res: AdjacencyLists)
    requires SearchInput(init, res)
    ensures var r := Search(Start(init, res));
      (forall k :: 0 <= k < |r.queued| ==> 0 <= r.queued[k].index < |res|)
      && (r.found ==> exists k :: 0 <= k < |r.queued| && Sentinel in res[r.queued[k].index])
      && (forall k :: 0 <= k < |r.queued| && StartsWithSentinel(res[r.queued[k].index]) ==> r.found)
  {
    SearchEnds(init, res);
    var r := Search(Start(init, res));
    forall k | 0 <= k < |r.queued| && StartsWithSentinel(res[r.queued[k].index]) ensures r.found {
      assert SentinelOk(res, r.queued, r.found, k);
    }
  }

  /**
    * On a residual graph where only the sink's list holds the sentinel and
    * that list begins with it (as createResidualGraph builds it), the result
    * is true exactly when the sink was reached.
    */
  lemma SearchFindsSinkIffReached(init: seq<Node>, res: AdjacencyLists, sink: int)
    requires SearchInput(init, res) && WellFormed(res, sink) && 0 <= sink < |res|
    requires StartsWithSentinel(res[sink])
    ensures var r := Search(Start(init, res));
      r.found <==> exists k :: 0 <= k < |r.queued| && r.queued[k].index == sink
  {
    SearchDetectsSentinel(init, res);
  }
}
