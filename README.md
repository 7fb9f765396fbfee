# Bipartite matching and stable matching, modelled in Dafny

This project models the algorithmic core of two programs of the repository.

**Bipartite matching by layered augmenting paths** (`p3-network-flow-bipartite-matching`).
A `Graph` object owns four pieces of state: a node list, an edge list, a residual
adjacency structure and a level adjacency structure. Its methods edit them in place.
- `createResidualGraph` adds a source 0 and a sink N+1, wires them to the two halves, and puts the sentinel -1 in the sink's list.
- `createLevelGraph` copies the residual graph and runs a breadth-first search over it. The search assigns levels, erases arcs to nodes that were already reached, and reports whether a dequeued node's list held the sentinel.
- The driver in `P3.cpp` runs phases. Each phase walks the level graph from the source. At a dead end it retreats and removes the node. When it reaches the sink it augments along the path, by flipping edge flags, reversing residual arcs and pruning level arcs.
- The number of matches is the number of edges whose flow flag is set.

**Gale–Shapley stable matching** (`p1-stable-matching`).
- `People` holds each person's preference queue of pet numbers and a `matchedPet` array.
- `Pet` holds each pet's preference list, a rank table built from it, and a `matchedPeople` array.
- `performStableMatching` keeps a queue of free people. The front person proposes to the next pet in their own queue. The pet keeps whichever of its current person and the proposer it ranks better.

The model follows the form of the code:
- `Graph`, `People` and `Pet` are classes whose methods change their fields. Their loops are Dafny loops with invariants.
- `Node` and `Edge` are value records (`datatype`s). Their setters are functions that return the updated record.
- Each state-changing method is proved equal to a function over values: `ResidualGraphOf`, `ReverseAlongPath`, `Search`, `PruneAlongPath`, `AugmentAlongPath`, `RemoveIncoming` or `Proposal`.
- What the source promises is proved as lemmas about those functions: arc counts, subsequence pruning, "nothing else changes", level assignment, sentinel detection, and the invariant, termination measure and stability of the proposal loop.

The files:
- `sequences.dfy`: sequence helpers (first-occurrence search and deletion, subsequences, sums of lengths, a counting argument).
- `flow_node.dfy`, `flow_edge.dfy`: the `Node` and `Edge` records.
- `graph_spec.dfy`: the value-level meaning of the `Graph` operations.
- `level_search.dfy`: the breadth-first search of `createLevelGraph` and its invariant.
- `graph.dfy`: the `Graph` class.
- `matching_driver.dfy`: `P3.cpp`.
- `people.dfy`, `pet.dfy`: the `People` and `Pet` classes.
- `stable_matching.dfy`: the proposal loop and its invariant.

Inputs are taken as already parsed. The matching driver takes the node names and the 1-based edge pairs. The stable-matching objects start in the state that `loadData` leaves.

## Model

| member | source | states |
|---|---|---|
| FlowEdge.Edge.SetFlow | p3-network-flow-bipartite-matching/Edge.cpp:69-72 | after setFlow(b) the flag is b and neither endpoint changes |
| FlowNode.Node.SetName | p3-network-flow-bipartite-matching/Node.cpp:79-82 | only the name changes, to the given one |
| FlowNode.Node.SetIndex | p3-network-flow-bipartite-matching/Node.cpp:90-93 | only the index changes, to the given one |
| FlowNode.Node.SetLevel | p3-network-flow-bipartite-matching/Node.cpp:101-104 | afterwards the level is the given one; name and index are unchanged |
| FlowNode.DefaultNode | p3-network-flow-bipartite-matching/Node.cpp:21 | the default node has name "", index 0 and level 0 |
| FlowGraph.Graph.constructor | p3-network-flow-bipartite-matching/Graph.cpp:25 | a new graph has no nodes, no edges and empty residual and level graphs |
| FlowGraph.Graph.AddNode | p3-network-flow-bipartite-matching/Graph.cpp:41 | the node is appended to the node list; nothing else changes |
| FlowGraph.Graph.AddEdge | p3-network-flow-bipartite-matching/Graph.cpp:81-86 | an edge with exactly the given endpoints and flag is appended; nothing else changes |
| FlowGraph.Graph.CreateResidualGraph | p3-network-flow-bipartite-matching/Graph.cpp:103-145 | the residual graph becomes ResidualGraphOf the old lists, with N+2 lists; the node list gains the source (id 0) in front and the sink (id N+1) at the end; edges and level graph are unchanged |
| FlowGraph.Graph.AppendSourceArcs | p3-network-flow-bipartite-matching/Graph.cpp:114-117 | the source's list gains 1..N/2 in increasing order |
| FlowGraph.Graph.AppendEdgeArcs | p3-network-flow-bipartite-matching/Graph.cpp:120-126 | each edge's destination is appended to its source's list, in edge-list order |
| FlowGraph.Graph.AppendSinkArcs | p3-network-flow-bipartite-matching/Graph.cpp:129-132 | each node of the right half gains the sink at the end of its list |
| FlowGraph.Graph.UpdateResidualGraph | p3-network-flow-bipartite-matching/Graph.cpp:153-177 | the residual graph becomes ReverseAlongPath of the old one (first arc u->v reversed for each consecutive pair, if present); nothing else changes |
| FlowGraph.Graph.CreateLevelGraph | p3-network-flow-bipartite-matching/Graph.cpp:186-248 | with no nodes: returns false and changes nothing; otherwise nodes, level graph and result are those of Search from the start state; the residual graph and the edges are never written |
| FlowGraph.Graph.ScanAdjacencyList | p3-network-flow-bipartite-matching/Graph.cpp:216-241 | the scan of one dequeued node's list (sentinel, discovery, erase of a back arc, index advancing past an erase) leaves exactly the state ScanFrom computes |
| FlowGraph.Graph.UpdateLevelGraph | p3-network-flow-bipartite-matching/Graph.cpp:256-277 | the level graph becomes PruneAlongPath of the old one (first arc u->v erased for each pair, if present); nothing else changes |
| FlowGraph.Graph.AugmentFlow | p3-network-flow-bipartite-matching/Graph.cpp:315-342 | the edge list becomes AugmentAlongPath of the old one; nodes, residual and level graph are unchanged |
| FlowGraph.Graph.RemoveNodeAndIncomingEdges | p3-network-flow-bipartite-matching/Graph.cpp:350-367 | the level graph becomes RemoveIncoming of the old one; nodes, edges and residual graph are unchanged |
| GraphSpec.Resize | p3-network-flow-bipartite-matching/Graph.cpp:111 | resizing keeps the first lists and pads with empty lists to the new length |
| GraphSpec.TargetsMembers | p3-network-flow-bipartite-matching/Graph.cpp:120-126 | x is listed among v's edge targets exactly when some edge goes from v to x |
| GraphSpec.ResidualGraphOf | p3-network-flow-bipartite-matching/Graph.cpp:108-136 | the residual graph for N nodes has N+2 lists |
| GraphSpec.AddFromSourceLists | p3-network-flow-bipartite-matching/Graph.cpp:114-117 | only the source's list changes, gaining 1..hi-1 at its end |
| GraphSpec.AddArcsTargets | p3-network-flow-bipartite-matching/Graph.cpp:120-126 | appending the edges adds to each list exactly its targets, in edge-list order |
| GraphSpec.AddToSinkLists | p3-network-flow-bipartite-matching/Graph.cpp:129-132 | exactly the lists lo..hi-1 gain the sink at their end |
| GraphSpec.ResidualGraphStages | p3-network-flow-bipartite-matching/Graph.cpp:106-136 | the resize and the four append stages, in source order, compose to ResidualGraphOf |
| GraphSpec.ResidualGraphShape | p3-network-flow-bipartite-matching/Graph.cpp:106-136 | built from scratch: list 0 is exactly [1..N/2], a left node's list is its edge targets, a right node's list is its edge targets then N+1, and list N+1 is exactly [-1] |
| GraphSpec.ResidualGraphWellFormed | p3-network-flow-bipartite-matching/Graph.cpp:106-136 | built from scratch over edges between input nodes: every entry is a node id, and -1 occurs only in the sink's list |
| GraphSpec.SubgraphWellFormed | p3-network-flow-bipartite-matching/Graph.cpp:237-240 | erasing arcs from a well-formed graph keeps it well formed |
| GraphSpec.ReverseArcEffect | p3-network-flow-bipartite-matching/Graph.cpp:164-175 | if v is not in u's list nothing changes; otherwise u's list loses exactly its first v (as std::find picks it) and keeps its order, v's list gains u at its end, and on a self-loop u == v the one list loses its first u and gains u at its end; every other list is unchanged |
| GraphSpec.ReverseArcKeepsArcCount | p3-network-flow-bipartite-matching/Graph.cpp:164-175 | one reversal keeps the total number of arcs |
| GraphSpec.ReverseAlongPathKeepsArcCount | p3-network-flow-bipartite-matching/Graph.cpp:156-176 | updateResidualGraph keeps the total number of arcs |
| GraphSpec.ReverseAlongPathWellFormed | p3-network-flow-bipartite-matching/Graph.cpp:156-176 | reversing along a path inside the graph keeps it well formed |
| GraphSpec.ReverseAlongPathKeepsSentinelFirst | p3-network-flow-bipartite-matching/Graph.cpp:156-176 | the sentinel at the head of the sink's list stays at its head |
| GraphSpec.PruneAlongPathIsSubgraph | p3-network-flow-bipartite-matching/Graph.cpp:258-276 | updateLevelGraph only erases: every list ends as a subsequence of what it was |
| GraphSpec.PruneArcCount | p3-network-flow-bipartite-matching/Graph.cpp:267-275 | one pruning lowers the arc count by one exactly when u's list held v |
| GraphSpec.RemoveIncomingEffect | p3-network-flow-bipartite-matching/Graph.cpp:353-366 | n's list ends empty; every other list loses at most one n and nothing else, keeping its order |
| GraphSpec.AugmentAlongPath | p3-network-flow-bipartite-matching/Graph.cpp:318-341 | the edge count and every edge's endpoints are unchanged |
| GraphSpec.AugmentUntouched | p3-network-flow-bipartite-matching/Graph.cpp:318-341 | an edge that no pair of the path joins keeps its flag |
| GraphSpec.AugmentLastTouch | p3-network-flow-bipartite-matching/Graph.cpp:318-341 | an edge's flag ends as the last pair joining it sets it: true along the pair, false against it |
| GraphSpec.AugmentSimplePath | p3-network-flow-bipartite-matching/Graph.cpp:318-341 | along a path without repeats, every edge u->v of a pair gets flow and every edge v->u loses it |
| GraphSpec.FlowCountIsCardinality | p3-network-flow-bipartite-matching/P3.cpp:137-150 | the count is the number of edges whose flag is set |
| LevelSearch.CountFalseMark | p3-network-flow-bipartite-matching/Graph.cpp:244 | marking an unvisited node lowers the number of unvisited nodes by one, which bounds the search |
| LevelSearch.SearchEnds | p3-network-flow-bipartite-matching/Graph.cpp:208-246 | the search invariant holds when the queue runs empty, with every queued copy dequeued |
| LevelSearch.LevelGraphIsPrunedResidual | p3-network-flow-bipartite-matching/Graph.cpp:199-239 | every level-graph list is a subsequence of its residual list; ids and names are kept; a node never reached keeps its record and its whole list |
| LevelSearch.SearchAssignsLevels | p3-network-flow-bipartite-matching/Graph.cpp:206-234 | node 0 is queued first; every later queued copy is the node's final record, reached along a residual arc from an earlier copy one level lower |
| LevelSearch.SearchErasesOnlyBackArcs | p3-network-flow-bipartite-matching/Graph.cpp:236-240 | an arc v->w is missing only if v was scanned and w had been queued at a level no greater than v's |
| LevelSearch.SearchDetectsSentinel | p3-network-flow-bipartite-matching/Graph.cpp:222-227 | the result is true only if a reached node's residual list held -1, and it is true whenever a reached node's list begins with -1 |
| LevelSearch.SearchFindsSinkIffReached | p3-network-flow-bipartite-matching/Graph.cpp:222-227 | on a graph whose sink list alone holds -1, at its head, the result is true exactly when the sink was reached |
| MatchingDriver.BuildGraph | p3-network-flow-bipartite-matching/P3.cpp:54-81 | input node i gets id i+1 and level 0; the 1-based pair (s,d) becomes the edge s->d without flow, in input order |
| MatchingDriver.InitialResidualReady | p3-network-flow-bipartite-matching/P3.cpp:86 | the residual graph built from the input is well formed and the sink's list begins with -1 |
| MatchingDriver.PhaseStarts | p3-network-flow-bipartite-matching/P3.cpp:91 | after createLevelGraph the nodes keep their ids and the level graph is well formed |
| MatchingDriver.SearchStep | p3-network-flow-bipartite-matching/P3.cpp:107-131 | at the sink, the path plus the sink (length at least 2, from 0 to N+1) goes through augmentFlow, updateResidualGraph and updateLevelGraph in that order, and the walk restarts at 0 with an empty path; at a dead end the node is removed with its incoming arcs and the path shrinks by exactly its last element, which becomes current; otherwise the node is pushed and current becomes the first entry of its list; a non-empty path starts at 0 |
| MatchingDriver.WalkLevelGraph | p3-network-flow-bipartite-matching/P3.cpp:104-133 | the walk keeps the graph ready for the next phase and keeps every edge's endpoints; when it stops with fuel left, the source's level-graph list is empty, the loop's exit condition |
| MatchingDriver.RunPhases | p3-network-flow-bipartite-matching/P3.cpp:88-134 | the loop stops as finished only when createLevelGraph returned false, and that search never reached the sink; otherwise it stopped only because the fuel was spent; edges keep their endpoints |
| MatchingDriver.CountMatches | p3-network-flow-bipartite-matching/P3.cpp:137-150 | the match count is the number of edges with flow |
| MatchingDriver.MatchBipartite | p3-network-flow-bipartite-matching/P3.cpp:54-150 | the edges keep the endpoints of the input pairs, and the reported count is the number of edges with flow |
| PeopleGroup.People.constructor | p1-stable-matching/People.cpp:135-150 | after loading, each of the count people has their queue in file order and matchedPet is all -1 |
| PeopleGroup.People.GetPeoplePreference | p1-stable-matching/People.cpp:66-77 | for a valid index with a non-empty queue, returns the front and pops it, with no other queue changed and the total of remaining preferences down by one; otherwise returns -1 and changes nothing |
| PeopleGroup.People.SetMatchedPet | p1-stable-matching/People.cpp:84-97 | afterwards getMatchedPet(i) is the given pet; other entries and fields are unchanged |
| PetGroup.RankRow | p1-stable-matching/Pet.cpp:135-145 | the rank row has one entry per person |
| PetGroup.RankRowAt | p1-stable-matching/Pet.cpp:131-146 | an unlisted person has rank 0; a listed one has the 1-based position of the last entry naming them |
| PetGroup.RankRowInverse | p1-stable-matching/Pet.cpp:131-146 | for a list without repeats the rank row is its inverse: ranks[pref[j]-1] == j+1 |
| PetGroup.BuildRankRow | p1-stable-matching/Pet.cpp:131-150 | the rank loop over an array produces exactly RankRow |
| PetGroup.Pet.constructor | p1-stable-matching/Pet.cpp:100-154 | after loading, every pet's rank row is the rank table of its list, and matchedPeople is all -1 |
| PetGroup.Pet.SetMatchedPerson | p1-stable-matching/Pet.cpp:66-79 | afterwards getMatchedPerson(i) is the given person; other entries and fields are unchanged |
| PetGroup.Pet.ComparePetPreferenceRank | p1-stable-matching/Pet.cpp:86-93 | the comparison is strict: the current person never wins against themselves |
| PetGroup.Pet.ComparePrefersEarlier | p1-stable-matching/Pet.cpp:86-93 | for a list without repeats, the pet prefers the proposer exactly when the proposer comes earlier in its list than its current person |
| StableMatching.InitialProposing | p1-stable-matching/StableMatching.cpp:25-29 | with nobody matched and the queue 0..n-1, the loop invariant holds |
| StableMatching.ProposingInverse | p1-stable-matching/StableMatching.cpp:55-72 | under the loop invariant matchedPet[p] == q exactly when matchedPeople[q] == p |
| StableMatching.ProposingStable | p1-stable-matching/StableMatching.h:9-10 | with the queue empty, everybody is matched, the arrays are mutual inverses, and no person and pet prefer each other to their partners |
| StableMatching.ExhaustedAllMatched | p1-stable-matching/StableMatching.cpp:42-50 | when every person lists every pet, a person with no preference left implies everybody is matched, so a free person never runs out |
| StableMatching.RequeueKeeps | p1-stable-matching/StableMatching.cpp:62-78 | popping the front and queueing a newly free person keeps each free person queued exactly once |
| StableMatching.AcceptKeeps | p1-stable-matching/StableMatching.cpp:55-61 | a free pet taking the proposer keeps the loop invariant |
| StableMatching.ReplaceMatches | p1-stable-matching/StableMatching.cpp:62-72 | when the pet trades up, both arrays still agree for every person and pet |
| StableMatching.ReplaceKeeps | p1-stable-matching/StableMatching.cpp:62-72 | a pet trading up, with its old person freed and queued, keeps the loop invariant |
| StableMatching.RejectKeeps | p1-stable-matching/StableMatching.cpp:73-78 | a pet keeping its person, with the proposer queued again, keeps the loop invariant |
| StableMatching.ProposalKeeps | p1-stable-matching/StableMatching.cpp:35-78 | one proposal keeps the loop invariant: the arrays agree, every person is queued or matched and never both, and every pet a person proposed to holds someone it ranks no worse |
| StableMatching.ProposalImproves | p1-stable-matching/StableMatching.cpp:35-71 | one proposal uses up exactly one preference, and a matched pet stays matched and only changes to a person it ranks strictly better |
| StableMatching.Propose | p1-stable-matching/StableMatching.cpp:35-78 | one pass of the loop body: it reports exhaustion exactly when the front person's queue is empty, changing nothing then; otherwise the objects and the queue end as Proposal says |
| StableMatching.PerformStableMatching | p1-stable-matching/StableMatching.cpp:22-82 | the queue starts as 0..n-1 and the loop ends by the remaining-preferences measure; the arrays end as mutual inverses; on true everybody is matched and there is no blocking pair; on false some free person has no preference left; when every person lists every pet it returns true |

## Left out

- Parsing and output: `loadData`, the file reading of `P3.cpp`, `displayData`, the match print-out, timing, diagnostics and `exit` calls are not modelled. Inputs are given as parsed sequences, and the objects start in the loaded state.
- `getNode` and `getLevelGraphAt` fall back to element 0 for an index out of range. The model requires an index in range instead.
- `GetNode`, `LevelGraphAt`, `GetPeopleCount`, `GetMatchedPet`, `IsValidPeopleIndex`, `GetPetCount` and `GetMatchedPerson` are plain accessors and carry no contract of their own.
- The getters of `Node` and `Edge` are field reads of the records.
- RunPhases: the two loops of `P3.cpp` run on a shared `fuel` bound. Termination of the phase loop and maximality of the matching are not proved: the level-graph erase can leave back arcs, so the code gives no termination argument.
- MatchBipartite: does not state that the edges with flow form a matching (no input node an endpoint of two of them). This is a global result of the phase loop. The back arcs that the level-graph scan can leave mean the code has no per-step invariant from which it would follow, so only the per-step effects of augmentation are proved.
- WalkLevelGraph: states that the graph stays ready, that the edges keep their endpoints, and the exit condition when fuel is left. It does not state the final graph as a function of the starting one. Each of its steps is specified exactly by SearchStep.
- Levels that strictly increase along every level-graph arc are not proved. The scan of `createLevelGraph` skips the entry that slides into an erased slot, and the model keeps that skip.
- The out-of-bounds reads that the fixed loop bound of `createLevelGraph` (Graph.cpp:217) can cause after an erase are not modelled. The model's scan stops at the list's current length.
- `updateResidualGraph`, `updateLevelGraph` and `augmentFlow` underflow on an empty path. The model requires a path of at least one node, and the driver always passes at least two.
- `createLevelGraph` requires `createResidualGraph` to have run: one residual list per node, node k with id k, arcs in range.
- CreateResidualGraph requires every edge's source to be an id below N+2. Under that requirement the source's own indexing is in range.
- PerformStableMatching requires the loaded state: every preference entry in 1..n, nobody matched, and n rank rows of n entries. It assumes as many pets as people, as the input files provide. The requires excludes entries outside 1..n. In the source, an entry -1 is popped by `getPeoplePreference` and makes `performStableMatching` return false early (People.cpp:66-77, StableMatching.cpp:42-50), without indexing anything; any other entry outside 1..n (0, above n, or a negative entry other than -1) would index the pet arrays out of range.
- The stability result is stated against the pets' rank rows. For a list with repeats or omissions, `loadData` gives an unlisted person rank 0, which compares as best. ComparePrefersEarlier ties ranks to list order only for lists without repeats.
- Where the code and the design description differ, the model follows the code:
  - `removeNodeAndIncomingEdges` erases only the first occurrence of the node from each list, not every occurrence.
  - The breadth-first scan advances its index after an erase.
- Names are carried in `Node` but play no part in any proof.
- The closest-pair program is not part of this model: it works on floating-point coordinates and `sqrt`.
