# Utopia EDA: partitioning, topological order, structural hashing

A Dafny model of four pieces of Utopia EDA, with proofs about them.

**Fiduccia-Mattheyses partitioning** (`src/util/fm.cpp`). `Hypergraphs` says what a hypergraph in CSR form, a side
assignment and the cut are, and defines the gain of a move as the cut before minus the cut after. `EdgeGains` relates
that to what `countGain` adds up, `RepeatedPins` says how much the two differ on edges that list a node more than
once, `GainCorrections` is about the corrections of `gainUpdate`, and `CorrectionLimits` about the hypergraphs on
which they are right. `FmRuns` describes greedy move logs, passes and runs as relations on values and proves what
holds for every one of them. `Balance` is about the balance window, `Tables`, `GainBuckets` and `GreedyPicks` about
the data a pass keeps up to date. `HeldGains` gives the buckets, in their order, as a function of the moves,
`PickedRuns` the log, the passes and the run that follow from it, and `BucketOrder` how ties between nodes are broken.
`FmAlgo` is the class itself, whose methods are proved to compute just these. `FmClient` puts it together the way
`test/util/fm_test.cpp` uses it; `CutRaised` is a problem that the algorithm makes worse, `IndexOverrun` one on which
it leaves its buckets.

FMAlgo is covered on every well-formed hypergraph, up to the point where the source indexes outside its buckets or
overflows a sum; its methods then say that the outcome is undefined. On all hypergraphs the outcome is determined,
moves and runs respect the window, and areas and table are exact. What the gains promise holds, and nothing is
undefined, if no edge lists a node twice, unless it is the only node of the edge or the edge has three pins
(`RepeatedPins.CorrectablePins`). All that `src/gate/transformer/hmetis.cpp` exports are of this kind
(`RepeatedPins.ShortEdgesCorrectable`).

**Hypergraphs** (`src/util/partition_hgraph.h`, `.cpp`). `PartitionHgraph` has the class with its two cut counters and
the generator of linked edges; `LinkedEdges` proves what the generator promises.

**Topological order** (`src/util/graph.h`). `Graphs` has the graph concept and what the sort promises,
`TopologicalSort` the explicit-stack search, `Traversal` the traversals built on it. Cyclic graphs, sources that are
not nodes of the graph and sources with incoming edges are all in scope.

**Netlist nodes** (`src/base/model/node.h`, `hash.h`, `signal.h`, `link.h`, with the gate symbols of
`src/gate/model`). `Netlist` has nodes as values and proves that links stay the inverse of inputs; `Nodes` has the
classes that update them in place; `GateFunctions` the meaning of gates, `GateAgreement` and `MajorityAgreement` when
two lists of inputs give a gate the same meaning; `Hashing` the lossy key, `hasSignature` and the lookup;
`KeyPrecision` what key and signature tell together; `NetSharing` how nets share gates through the table, and
`MisleadingHits` runs in which the lookup goes wrong. `Sequences` has what several modules use of sequences and sets.

`dafny verify dfyconfig.toml` checks the whole project.

## What turned out not to hold

- *A pass can raise the cut.* When the best prefix sum is negative the code keeps all tentative moves
  (`src/util/fm.cpp:60-62`). `FmRuns.PassNeverWorsensIff` says exactly when a pass raises the cut. An instance is
  `CutRaised.RunRaisesCut`: two nodes of weight 1 joined by one edge, at the ratio 0.375 of `test/util/fm_test.cpp`,
  start uncut and end cut in every run. It cannot happen from sides where some node fits whose gain is not negative
  (`FmRuns.GainfulStart`), nor when the window admits every partition (`FmRuns.WideWindowNeverWorsens`), and only in
  the last pass of a run (`FmRuns.OnlyLastRaises`).
- *The computed gain is wrong for repeated pins.* A gate that drives itself is exported as an edge with the same pin
  twice (`src/gate/transformer/hmetis.cpp`). `EdgeGains.CountGainExact` says exactly when the computed gain is the
  true one; it is never above it. If the pins can be corrected it falls short by a number that depends on the node
  only (`RepeatedPins.ComputedGainFallsShort`), so that a pass with Gm >= 0 lowers the cut by Gm or more.
- *Corrections are wrong when an edge of four or more pins repeats one of several nodes.* They are right for all sides
  and moves exactly when there is no such edge (`CorrectionLimits.CorrectionsExactIff`). Otherwise the gains drift,
  even out of the buckets: over one edge with the pins 1, 1, 0, 0 every pass at ratio 0.5 asks for bucket 5 of 0..4
  (`IndexOverrun.LogLeavesBuckets`, `NextPinLeavesBuckets`).
- *Acyclic graphs can be misordered.* All sources are on the stack before the search starts, so a source that reaches
  one listed before it can come out behind it. `Graphs.LinearExtensionIff` says exactly when the result is a linear
  extension, whatever the sources are, and `Traversal.SortMisorders` is an instance. The graph of subnets at
  `src/gate/model/gnet.cpp:566-601` can have sources with incoming edges.
- *A hit of the hash table can be something else.* `hasSignature` compares sets. What it accepts is a permutation of
  the request exactly when neither list repeats an input (`Hashing.AcceptedIsPermutationIff`). For AND, OR, NAND and
  NOR it computes what was requested under the same condition (`Hashing.AcceptedAgreesIff`), for a majority gate also
  when one input has the majority in both lists (`MajorityAgreement.AcceptedMajorityIff`), and for XOR and XNOR when
  the inputs occur equally often up to even numbers (`GateAgreement.AgreeOnParity`). Stale entries are not needed for
  that: with three or more inputs the key does not tell repeated inputs of a commutative function, nor the order of
  the inputs of another one, and it tells both up to two (`KeyPrecision.FreshExactIff`).
  `MisleadingHits.ShareRewired`, `ShareRepeated` (for every commutative gate) and `ShareReordered` are instances.
- *The edge count of the generator* is |V| / (step - 1) rounded up, where the comment at
  `src/util/partition_hgraph.h:48` has no rounding; and adding linked edges to a hypergraph whose edges have pins
  breaks the offsets (`PartitionHgraph.AddedToExistingIff`).

## Model

| member | source | states |
|---|---|---|
| Hypergraphs.CutMeansDifferentSides | src/util/partition_hgraph.h:75-89 | an edge is cut exactly when two of its pins are on different sides |
| Hypergraphs.CutCountsEdges | src/util/partition_hgraph.h:75-89 | the cut is the size of the set of cut edges |
| Hypergraphs.CutComplement | src/util/partition_hgraph.h:75-89 | moving every node to the other side leaves the cut as it was |
| Hypergraphs.CountOnFlip | src/util/fm.cpp:159-169 | moving a node shifts as many pins of an edge as the edge has occurrences of the node |
| EdgeGains.CountGainExact | src/util/fm.cpp:111-121 | the sum of countGain never exceeds the cut difference a move makes, and equals it exactly when every edge with repeated occurrences of the node has another pin on either side; distinct pins suffice |
| EdgeGains.SelfLoopMiscounted | src/util/fm.cpp:111-121 | a net with the same pin twice is given gain -2 where moving the node changes nothing |
| EdgeGains.AdjacentEntries | src/util/fm.cpp:240-248 | an adjacency list has every edge as often as the node occurs among its pins |
| EdgeGains.AdjacentAscending | src/util/fm.cpp:240-248 | an adjacency list is ascending, strictly so with distinct pins |
| RepeatedPins.ComputedGainFallsShort | src/util/fm.cpp:111-121 | if no edge of four or more pins repeats one of several nodes, the computed gain is the true one less a number that depends on the node only |
| RepeatedPins.ShortEdgesCorrectable | src/gate/transformer/hmetis.cpp:34-41 | edges of at most three pins, self-loops included, can be corrected |
| GainCorrections.CorrectedExactly | src/util/fm.cpp:183-204 | the corrections for an edge, read once for every occurrence of the moved node, are the change of the gain computed for it |
| GainCorrections.TermElsewhere | src/util/fm.cpp:183-189 | edges without the moved node, and nodes outside the edge, need no correction |
| GainCorrections.CorrectionsExact | src/util/fm.cpp:180-217 | all corrections after a move take the gain computed before it to the gain computed after it |
| GainCorrections.CorrectionsBound | src/util/fm.cpp:206-212 | between two readings of edges every gain stays within plus or minus the degree, so bucket indices stay in range and -1 is unambiguous |
| GainCorrections.CorrectedOne | src/util/fm.cpp:186-213 | between two pins as well |
| CorrectionLimits.CorrectionsExactIff | src/util/fm.cpp:180-217 | the corrections are right for all sides, all moves and all other nodes exactly when no edge lists a node twice, unless it is the only one or the edge has three pins |
| CorrectionLimits.MissBothWays | src/util/fm.cpp:183-204 | when a node leaves all others and when it joins them, the errors of several edges do not cancel out both times |
| FmRuns.AreaFlip | src/util/fm.cpp:162-163 | a move changes the area of either side by the weight of the node |
| FmRuns.AreasAddUp | src/util/fm.cpp:81-96 | the two areas add up to the total weight |
| FmRuns.BestIsUnique | src/util/fm.cpp:219-232 | largest sum, then largest slack, then shortest prefix determine the result of bestMoves |
| FmRuns.PrefixAccounting | src/util/fm.cpp:147-169 | the cut falls by at least the gains of any prefix of the move log; by exactly these with distinct pins, and by these and what the moved nodes' gains leave out if the pins can be corrected |
| FmRuns.PrefixBounds | src/util/fm.cpp:219-232 | prefix sums stay within plus or minus the number of edges, or below minus that by no more than the gains leave out |
| FmRuns.LogFlipsLocked | src/util/fm.cpp:47-58 | no node moves twice in a pass, and exactly the moved nodes have changed sides |
| FmRuns.FullPassDoesNotLose | src/util/fm.cpp:47-62 | a pass that moves every node does not raise the cut; with distinct pins its gains add up to 0 and its best prefix does not lose |
| FmRuns.RaisingPassStoppedEarly | src/util/fm.cpp:47-62 | a pass raises the cut only when an unlocked node was left because none fits the window |
| FmRuns.NegativeBestStoppedEarly | src/util/fm.cpp:47-62 | with distinct pins Gm < 0 after some move happens only in that case |
| FmRuns.PassAccounting | src/util/fm.cpp:59-62 | a pass with Gm >= 0 lowers the cut by Gm or more; with distinct pins by Gm if it is rolled back, and by the sum of all gains otherwise |
| FmRuns.PassNeverWorsensIff | src/util/fm.cpp:59-62 | no pass with Gm >= 0 raises the cut; with distinct pins a pass with Gm < 0 does exactly when something moved, and otherwise exactly when all gains and what they leave out add up to less than 0 |
| FmRuns.BestFromStart | src/util/fm.cpp:47-62 | no node that fits at the start of a pass has a larger gain than its best prefix |
| FmRuns.GainfulStart | src/util/fm.cpp:47-62 | if some node fits at the start of a pass and its gain is not negative, the pass lowers the cut by that gain or more |
| FmRuns.PassKeepsWindow | src/util/fm.cpp:123-145 | a pass that moves anything ends inside the balance window |
| FmRuns.RunAccounting | src/util/fm.cpp:31-63 | the cut at the end of a run is the initial cut minus what the passes gained |
| FmRuns.ImprovingPasses | src/util/fm.cpp:31-63 | every pass after which the loop goes on lowers the cut by at least 1 |
| FmRuns.OnlyLastRaises | src/util/fm.cpp:31-63 | every pass of a run but the last lowers the cut |
| FmRuns.RaisedByLast | src/util/fm.cpp:31-63 | a run that ends with a larger cut did so in a last pass with Gm < 0 |
| FmRuns.StoppedWithoutGain | src/util/fm.cpp:31-63 | when a run stops by itself, no move that fits at the start of its last pass gains more than Gm <= 0; with distinct pins none lowers the cut |
| FmRuns.RunLength | src/util/fm.cpp:31-63 | at most initial cut + 1 passes run, whatever the parameter passes |
| FmRuns.PassLimitIrrelevant | src/util/fm.cpp:31-63 | limits above the initial cut + 1 stop a run alike |
| FmRuns.RunKeepsWindow | src/util/fm.cpp:18-64 | a run ends inside the window if it started there or moved anything |
| FmRuns.WideWindowNeverWorsens | src/util/fm.cpp:18-64 | if the window admits every partition, no run ends with a larger cut than it started with |
| Balance.MaxOfIsMaximum | src/util/fm.cpp:66-74 | the largest weight bounds all weights and is one of them, unless they are all below 0 |
| Balance.WindowIsAroundTarget | src/util/fm.cpp:66-79 | the window starts at the target rounded up less the largest weight, and ends at the target truncated plus it |
| Balance.MiddleIsTruncation | src/util/fm.cpp:77-84 | the middle of the window is the target area, truncated |
| Balance.FilledBounds | src/util/fm.cpp:81-96 | side 0 stops growing within one weight of the middle and reaches it if the total does |
| Balance.InitialBalance | src/util/fm.cpp:66-96 | the initial partition is inside the window exactly when the window meets [0, total]; a ratio between 0 and 1 makes it so |
| GainBuckets.EraseKeepsOrder | src/util/fm.cpp:153 | erasing a node leaves the nodes in front of it and behind it in their order |
| GainBuckets.Lock | src/util/fm.cpp:153-155 | the node leaves its bucket, whose other nodes keep their order, and is marked locked; every other unlocked node stays in exactly one bucket, at its index |
| GainBuckets.Rebucket | src/util/fm.cpp:209-212 | the node moves to the front of the other bucket, all others keep their order; the bucket invariant is kept |
| FmAlgo.FMAlgo.constructor | src/util/fm.cpp:11-16 | the window of the ratio, and sides and areas of the initial partition |
| FmAlgo.FMAlgo.BalanceCriterion | src/util/fm.cpp:66-79 | lower is the least integer not below the target less the largest weight, upper the target truncated plus it, and the largest weight is one of the weights unless they are all below 0 |
| FmAlgo.FMAlgo.RandPartition | src/util/fm.cpp:81-96 | nodes go to side 0 as long as its area is below the middle; the areas are those of the sides |
| FmAlgo.FMAlgo.CountAdjacentList | src/util/fm.cpp:240-248 | every node gets its adjacency list, repeated pins included |
| FmAlgo.FMAlgo.CountDistribution | src/util/fm.cpp:98-109 | the table holds the number of pins of every edge on either side |
| FmAlgo.FMAlgo.CountGain | src/util/fm.cpp:111-121 | the returned gain is at most the cut difference of the move, equal to it exactly under the condition of CountGainExact, and less by a number that depends on the node only if the pins can be corrected |
| FmAlgo.FMAlgo.MoveNode | src/util/fm.cpp:159-169 | the node changes sides, and areas and table are exact for the new sides |
| FmAlgo.FMAlgo.CountMinCriterion | src/util/fm.cpp:171-178 | the distance from the area after the move to the nearer end of the window, nonnegative exactly when the move fits |
| FmAlgo.FMAlgo.MaxGain | src/util/fm.cpp:123-145 | the first bucket with a node that fits, and in it the last of the nodes with most slack; -1 exactly when no node fits |
| GreedyPicks.PickIsGreedy | src/util/fm.cpp:123-145 | from exact buckets that is an unlocked fitting node of maximum computed gain, and of maximum slack among those |
| HeldGains.InitialInBuckets | src/util/fm.cpp:36-46 | on any hypergraph a pass starts with every node in the one bucket of its computed gain |
| HeldGains.PinsInBuckets | src/util/fm.cpp:186-214 | on any hypergraph, while no index has left the buckets, every unlocked node is in the one bucket of its index and has been corrected once for every occurrence |
| HeldGains.EdgesExact | src/util/fm.cpp:180-217 | if the pins can be corrected, gainUpdate takes the gains computed before a move to those computed after it and stays inside the buckets |
| HeldGains.HoldingOutside | src/util/fm.cpp:47-58 | a pass that has left the buckets does not come back into them |
| PickedRuns.PickedHolding | src/util/fm.cpp:47-58 | on any hypergraph no node moves twice in a pass, the locked nodes are those in no bucket, and each move ends inside the window |
| BucketOrder.HoldingOrdered | src/util/fm.cpp:36-58 | on any hypergraph the nodes of a bucket are ordered by their last visit, latest first: all nodes in turn at the start, then the pins of the critical edges of each moved node |
| BucketOrder.LongestWaitingMoves | src/util/fm.cpp:123-145 | of the nodes of equal gain and slack maxGain takes the one visited before all others |
| PickedRuns.LogUnique | src/util/fm.cpp:47-58 | the log of a pass is determined by the sides it starts from, ties between nodes included |
| PickedRuns.OutcomeUnique | src/util/fm.cpp:18-64 | so is the whole run, and whether and where it becomes undefined |
| PickedRuns.PickedRunKeepsWindow | src/util/fm.cpp:18-64 | on any hypergraph a run that starts inside the window ends inside it |
| PickedRuns.PickedIsGreedy | src/util/fm.cpp:47-58 | if the pins can be corrected, the moves picked from the buckets are greedy choices, and the buckets hold the computed gains |
| PickedRuns.PickedIsDefined | src/util/fm.cpp:33-62 | if the sums fit as well, no index leaves the buckets and no sum the range of int |
| PickedRuns.PickedRunIsRun | src/util/fm.cpp:18-64 | the run is then one of those that FmRuns is about |
| FmAlgo.FMAlgo.TempMove | src/util/fm.cpp:147-157 | the step logged has gain and slack of before the move; the node is locked and moved |
| FmAlgo.FMAlgo.GainUpdate | src/util/fm.cpp:180-217 | on any hypergraph the buckets become those of HeldGains.AfterEdges, or an index leaves them; if the pins can be corrected and the bucket of every unlocked node was the gain countGain computes before the move, it is the one it computes after the move |
| FmAlgo.FMAlgo.UpdateEdge | src/util/fm.cpp:185-216 | the same for one entry of the adjacency list: gains corrected for earlier entries become those corrected for this one as well |
| FmAlgo.FMAlgo.UpdatePins | src/util/fm.cpp:186-214 | the pins of any edge are corrected once per occurrence, in order, until an index leaves the buckets |
| GainCorrections.CorrectionsFit | src/util/fm.cpp:185-212 | with all pins of one more edge corrected, the gains account for that edge, and all bucket indices are in range |
| FmAlgo.FMAlgo.FillBuckets | src/util/fm.cpp:36-46 | at the start of a pass every node is unlocked and in the bucket of its computed gain, later nodes in front of earlier ones |
| FmAlgo.FMAlgo.MoveGreedily | src/util/fm.cpp:33-58 | on any hypergraph the moves of a pass are the log that PickedRuns determines, up to its end or the first index outside; if the pins can be corrected they are greedy choices until no unlocked node fits |
| FmAlgo.FMAlgo.PickAndMove | src/util/fm.cpp:47-58 | one round adds the picked move, or there is none |
| FmAlgo.FMAlgo.BestMoves | src/util/fm.cpp:219-232 | the largest prefix sum, then the largest slack, then the shortest prefix, unless a sum leaves int |
| FmAlgo.FMAlgo.ConfirmMoves | src/util/fm.cpp:234-238 | sides, areas and table are again what they were after move m |
| FmAlgo.FMAlgo.RunPass | src/util/fm.cpp:33-62 | on any hypergraph the determined pass, with rollback when Gm >= 0, or exactly why it is undefined; if the pins can be corrected and the sums fit, a defined greedy pass |
| FmAlgo.FMAlgo.SetMaxDegree | src/util/fm.cpp:21-25 | maxDegree is at least every degree, and is one unless it was larger already |
| FmAlgo.FMAlgo.Fm | src/util/fm.cpp:18-64 | on any hypergraph the determined run of passes, which stops by itself or at the limit, with areas and table exact, or exactly why its last pass is undefined; if the pins can be corrected and the sums fit, a defined run of greedy passes |
| CutRaised.PassOverPair | src/util/fm.cpp:59-62 | every pass over two joined nodes in the window [0, 1] loses 1 and keeps the move |
| CutRaised.RunRaisesCut | src/util/fm.cpp:18-64 | at ratio 0.375 every run of at least one pass over the pair turns a cut of 0 into a cut of 1 |
| CutRaised.FmRaisesCut | src/util/fm.cpp:18-64 | the algorithm performs such a run, whatever the limit |
| IndexOverrun.DoubledNotCorrectable | src/util/fm.cpp:183-204 | one edge with the pins 1, 1, 0, 0 is not corrected properly |
| IndexOverrun.NextPinLeavesBuckets | src/util/fm.cpp:186-213 | after the first move there and one round over the edge, the other node is in bucket 4 and its next correction asks for bucket 5 of 0..4 |
| IndexOverrun.LogLeavesBuckets | src/util/fm.cpp:47-58 | every log of a pass from the initial sides at ratio 0.5 leaves the buckets |
| IndexOverrun.LeavesBuckets | src/util/fm.cpp:18-64 | the algorithm is undefined on that hypergraph and ratio, whatever the limit |
| FmClient.Partition | test/util/fm_test.cpp:35-48 | on any hypergraph, if defined, the sides are those of the determined run, the number reported is their cut, and with nonnegative weights and a ratio between 0 and 1 they are balanced; if the pins can be corrected and the sums fit it is defined and at most initial cut + 1 passes ran |
| PartitionHgraph.TableCountsCut | src/util/partition_hgraph.cpp:80-88 | an exact table, with its edges numbered from 1, counts the cut edges |
| PartitionHgraph.HyperGraph.CountCutSet | src/util/partition_hgraph.h:75-89 | counting over sides gives the number of edges with pins on both sides |
| PartitionHgraph.BothSidesCountsColumns | src/util/partition_hgraph.cpp:80-88 | on any table the counter is the size of the set of columns with no zero |
| PartitionHgraph.HyperGraph.CountCutSetOfTable | src/util/partition_hgraph.cpp:80-88 | counting over any table gives the number of columns with no zero, which for the table of any sides is the cut of those sides |
| PartitionHgraph.HyperGraph.AddLinkedEdges | src/util/partition_hgraph.cpp:70-78 | what is appended to the offsets and to the pins |
| PartitionHgraph.AddedToExistingIff | src/util/partition_hgraph.cpp:70-78 | adding to a well-formed hypergraph keeps it well-formed exactly when no edge has a pin, that is, when there are no pins if the offsets span them all |
| LinkedEdges.LinkedWellFormed | src/util/partition_hgraph.cpp:70-78 | the generated hypergraph is well-formed |
| LinkedEdges.LinkedPins | src/util/partition_hgraph.h:47-53 | every edge has step nodes with consecutive numbers, counted round the end |
| LinkedEdges.LinkedChain | src/util/partition_hgraph.h:47-53 | the last node of an edge is the first node of the next one |
| LinkedEdges.LinkedDistinctIff | src/util/partition_hgraph.cpp:70-78 | the pins of the edges are distinct exactly when step is at most the number of nodes |
| LinkedEdges.EveryNodeCovered | src/util/partition_hgraph.h:47-53 | every node is on some edge |
| LinkedEdges.LinkedConnected | src/util/partition_hgraph.h:47-53 | any two nodes are joined by a walk along edges |
| LinkedEdges.EdgeCountIsCeiling | src/util/partition_hgraph.h:47-53 | the number of edges is n / (step - 1) for n nodes, rounded up |
| Graphs.OnlyFeedbackBackwards | src/util/graph.h:36-98 | without late edges an edge comes out backwards only if its target reaches its source, on cyclic graphs too |
| Graphs.LinearExtensionIff | src/util/graph.h:36-98 | the result is a linear extension exactly when the reachable part is acyclic and no node that a source reaches without passing an earlier one has an edge to an earlier one; for sources of any kind |
| Graphs.ListedInOrder | src/util/graph.h:51-59 | there are no such edges if no source reaches one listed before it, and only then if the sources are nodes of the graph |
| Graphs.ListedInOrderSorts | src/util/graph.h:36-98 | an acyclic graph is sorted if no source reaches one listed before it |
| Graphs.NoIncomingEdges | src/util/graph.h:51-59 | distinct sources without incoming edges are listed in order |
| TopologicalSort.PushKeepsSearching | src/util/graph.h:69-84 | scheduling a successor keeps the search invariant |
| TopologicalSort.BackEdgeExcused | src/util/graph.h:61-93 | an edge from the top of the stack back to the stack closes a cycle or leads to a source still waiting |
| TopologicalSort.PopKeepsSearching | src/util/graph.h:86-92 | finishing a node keeps the search invariant |
| TopologicalSort.PopParent | src/util/graph.h:69-92 | a finished node that is no source was reached from a node on the stack, from one in front of it, or from a source outside the graph |
| TopologicalSort.RootFinished | src/util/graph.h:86-92 | when a source leaves the stack, all it reaches without passing an earlier one is finished |
| TopologicalSort.FindUnvisited | src/util/graph.h:66-84 | the scan stops at the first accepted edge to an unvisited node, or has shown that there is none |
| TopologicalSort.Sort | src/util/graph.h:38-98 | every reachable node once, only excused edges backwards, what a source reaches first behind all earlier sources, every other node behind one it was reached from, nothing written past the front; the final assertion holds exactly when every node is reachable |
| Traversal.TraverseNodes | src/util/graph.h:100-109 | the node handler is called in the order of the sort |
| Traversal.CallsHandleAll | src/util/graph.h:117-122 | every listed node is handled once, in order, every out edge of these once, and nothing else |
| Traversal.TraverseNodesAndEdges | src/util/graph.h:111-124 | the calls of both handlers, in order, and how many there are |
| Traversal.EdgeHandledBetween | src/util/graph.h:111-124 | when edges go forward, an edge is handled after the node it leaves and before the node it leads to |
| Traversal.LateSourceMisordered | src/util/graph.h:54-59 | an acyclic graph whose every result has an edge backwards |
| Traversal.SortMisorders | src/util/graph.h:38-98 | the sort of that graph is complete and has an edge backwards |
| Traversal.OutsideSourceHarmless | src/util/graph.h:54-59 | a source outside the graph that reaches one listed before it does no harm |
| Netlist.SetInputsKeepsDefUse | src/base/model/node.h:131-160 | rewiring a node, repeated inputs and self-inputs included, keeps links the inverse of inputs |
| Netlist.AllocateKeepsDefUse | src/base/model/node.h:106-116 | allocating a node keeps links the inverse of inputs |
| Netlist.SetInputsWiring | src/base/model/node.h:131-160 | rewiring changes the inputs of the node only; every node keeps its other links in order and gets those to the new inputs at the end, by ascending input |
| Netlist.AllocateWiring | src/base/model/node.h:106-116 | a new node has the given function and inputs, and every node gets its links to it at the end |
| Netlist.ElsewhereInOrder | src/base/model/node.h:142-160 | the links kept are those to other nodes, in their order |
| Netlist.ElsewherePart | src/base/model/node.h:142-160 | and exactly these |
| Netlist.UsesInOrderPart | src/base/model/node.h:137-153 | the links added are the uses at the inputs of the node, by ascending input |
| Netlist.FanoutIsArity | src/base/model/node.h:87-93 | total fanout equals total arity |
| Nodes.Node.AppendLink | src/base/model/node.h:137-140 | the link to the given input is added at the end |
| Nodes.Node.RemoveLink | src/base/model/node.h:142-146 | no link equal to the given one is left, all others occur as often as before and in the same order |
| Netlist.RemovedIsWithout | src/base/model/node.h:142-146 | there is exactly one list like that |
| Nodes.Storage.Allocate | src/base/model/node.h:106-116 | the node gets the next identifier, function and inputs; others keep theirs and get their links to it at the end; links stay the inverse of inputs |
| Nodes.Storage.SetFunc | src/base/model/node.h:127-129 | the function changes and nothing else |
| Nodes.Storage.SetInputs | src/base/model/node.h:131-135 | the inputs of this node change and no others; links to it are replaced at the end of each list, and stay the inverse of inputs |
| Nodes.Storage.AppendLinks | src/base/model/node.h:148-153 | every driver of the node gets its link |
| Nodes.Storage.RemoveLinks | src/base/model/node.h:155-160 | every driver of the node loses its link |
| Nodes.Storage.Add | src/base/model/node.h:207-216 | the key of now has an entry; a new entry is for this node and net, and every old entry is kept |
| Nodes.Storage.Get | src/base/model/node.h:173-205 | nothing for requests without inputs except constants, its input for an identity, and otherwise exactly the node under the key that passes the check |
| NetSharing.EnterAndAsk | src/base/model/node.h:173-216 | a node entered under a new key answers the request for its own function and inputs exactly when these do not repeat, constants and inverters included |
| NetSharing.EnterAndAskElsewhere | src/base/model/node.h:173-216 | a node entered for one net only does not answer another net |
| GateFunctions.CommutativeOnSets | src/gate/model/gsymbol.h:44-57 | a commutative gate has the same value for duplicate-free inputs in any order |
| GateFunctions.EvalFolds | src/gate/model/gsymbol.h:44-57 | conjunction, disjunction and sum modulo 2 input by input, and their negations |
| GateFunctions.EvalOfOne | src/gate/model/gsymbol.h:38-49 | every gate of one input is that input, negation its negation |
| GateFunctions.EvalMajority | src/gate/model/gsymbol.h:56-57 | the majority of three |
| GateAgreement.AgreeOnElements | src/gate/model/gsymbol.h:44-57 | AND, OR, NAND and NOR compute the same from two lists of inputs exactly when these have the same elements |
| GateAgreement.AgreeOnParity | src/gate/model/gsymbol.h:44-57 | XOR and XNOR do exactly when each input occurs in both lists an even or in both an odd number of times |
| Hashing.MakeKey | src/base/model/hash.h:28-49 | the key has the net, the code of the function and the number of inputs modulo 2^16, and the base-37 polynomial modulo 2^64 of the identifiers, ascending for a commutative function |
| Hashing.PolyIsHorner | src/base/model/hash.h:42-46 | wrapping around at every step is wrapping around once at the end |
| Hashing.KeysTellApart | src/base/model/hash.h:51-57 | equal keys are of the same net, of the same function for codes below 2^16, and of the same number of inputs modulo 2^16 |
| Hashing.SortPart | src/base/model/hash.h:38-40 | sorting is ascending and keeps every number as often as it was there |
| Hashing.KeyIgnoresOrder | src/base/model/hash.h:33-47 | the key of a commutative function is the same for all orders of its inputs |
| Hashing.CheckSignature | src/base/model/node.h:69-81 | same function, same number of inputs, and no more different inputs in both lists than that |
| Hashing.AcceptedIsPermutationIff | src/base/model/node.h:69-81 | what hasSignature accepts is a permutation of the request exactly when neither list repeats an input |
| Hashing.AcceptsIffPermutation | src/base/model/node.h:69-81 | on lists without repetitions hasSignature decides whether the inputs agree up to order |
| Hashing.PermutationAcceptedIff | src/base/model/node.h:69-81 | a permutation of the inputs is accepted exactly when no input repeats |
| Hashing.AcceptedAgreesIff | src/base/model/node.h:69-81 | for AND, OR, NAND and NOR what hasSignature accepts computes the requested value exactly when neither list repeats an input |
| MajorityAgreement.AcceptedMajorityIff | src/base/model/node.h:69-81 | an accepted majority gate computes the requested value exactly when neither list repeats an input or one input has the majority in both |
| MajorityAgreement.SomeDominates | src/base/model/node.h:69-81 | two majority gates that agree and are accepted, but have different inputs, have such an input |
| Hashing.SharedComputesSame | src/base/model/node.h:69-81 | with at most one input, or a commutative function and no repeated inputs, what hasSignature accepts computes the requested value |
| Hashing.RepeatedInputsMisjudged | src/base/model/node.h:69-81 | the inputs (1, 1) are accepted for (1, 2), and AND of them is something else |
| Hashing.RepeatedInputsCancel | src/base/model/node.h:69-81 | the inputs (2, 2) are accepted for (1, 1), and XOR of them is the same |
| MisleadingHits.ShareRewired | src/base/model/node.h:131-216 | a storage in which a gate entered as AND(1, 2) has become AND(1, 1), and the lookup of AND(1, 2) still yields it |
| MisleadingHits.RepetitionsDisagree | src/base/model/node.h:69-81 | every commutative gate differs on the inputs (0, 1, 1) and (0, 0, 38); the majority is node 1 and node 0 |
| MisleadingHits.ShareRepeated | src/base/model/node.h:173-216 | for every commutative gate a storage with a fresh entry for (0, 0, 38), in which the lookup for (0, 1, 1) yields it |
| MisleadingHits.ShareReordered | src/base/model/node.h:173-216 | a storage with a fresh entry for a flip-flop, in which the lookup for another order of its inputs yields it |
| Hashing.LookupSound | src/base/model/node.h:173-205 | a hit has the value of the requested gate under every consistent valuation, stale entry or not, for at most one input and for commutative functions without repeated inputs |
| KeyPrecision.FreshPairIsExact | src/base/model/hash.h:28-49 | with at most two 32-bit inputs and an entry not stale, a hit has the very inputs requested, in order or sorted, repeated or not |
| KeyPrecision.FreshPermutationIff | src/base/model/hash.h:28-49 | for a commutative function an entry not stale is a permutation of the request exactly when no input repeats, and always with at most two |
| KeyPrecision.FreshExactIff | src/base/model/hash.h:28-49 | key and signature tell the inputs, in order or as a multiset, among all lists of n 32-bit identifiers exactly when n <= 2 |
| KeyPrecision.OrdersCollide | src/base/model/hash.h:28-49 | for each number of inputs from three on, two orders without repetitions that share key and signature |
| KeyPrecision.RepetitionsCollide | src/base/model/hash.h:28-49 | for each number of inputs from three on, two lists for a commutative function that share key and signature and are no permutations |
| Hashing.AddedIsFoundIff | src/base/model/node.h:207-216 | a commutative gate entered under a new key is found by the permutations of its inputs exactly when they do not repeat |
| Hashing.AddedIsFoundByItselfIff | src/base/model/node.h:181-216 | a node entered under a new key is found for its own inputs exactly when they do not repeat, whatever its function |
| Hashing.OtherNetsDoNotShare | src/base/model/hash.h:51-57 | a node that is in the table only for one net does not answer requests of another |

## Left out

- Integer overflow in weights, areas and gains: areas and gains are unbounded here. The prefix sums of bestMoves are
  shown to stay in the range of int, so that the INT_MIN sentinel is not confused, if the number of edges and what the
  gains leave out are together at most INT_MAX (FmRuns.SumsFit); with distinct pins that is the number of edges.
- Floating-point rounding of r * total: the ratio is an exact real.
- What the source does after it has indexed outside its buckets or overflowed a sum: the methods of FMAlgo report it
  and stop.
- List iterators (ptrBucket): an iterator stands for the one occurrence of its node in its bucket.
- In-out parameters of a pass (gain, ptrGain, order) are passed in and returned as values.
- PartitionHgraph.HyperGraph.AddLinkedEdges: requires step >= 2; with step 1 the source does not terminate, and with
  step 0 its counter wraps around.
- PartitionHgraph.HyperGraph.CountCutSet: requires every edge to have a pin at its offset, which the source reads
  unconditionally.
- Random edges and weights, reading and printing of hypergraphs. setRndEdges (src/util/partition_hgraph.cpp:42-62)
  keeps a node it has drawn twice, so that its edges need not be correctable.
- TopologicalSort.Sort: requires distinct sources, and sources exactly when there are nodes, which the source asserts.
  The result array is filled with a given value first, and the final assertion is reported as front == 0.
- Containers of sources and edges without a fixed order: both are sequences here, in iteration order.
- The second constructor of Node, which replaces a node at an existing identifier.
- setInputs with a list that is the node's own input list.
- Identifiers are unbounded in Netlist; Storage.Allocate requires that the next one fits 32 bits, and the results of
  KeyPrecision that two inputs are told apart require it of the inputs.
- KeyPrecision.FreshExactIff: does not speak of the largest arities, within 36 of 2^32.
- Clock events and delays: links and keys look only at the node of a signal, and so does the model. LookupSound speaks
  of nodes all of whose inputs are continuous.
- Hashing.MakeKey: std::hash of a number is taken to be the number itself. Soundness of a hit does not depend on it.
- Switching structural hashing off (the template parameter StructHash).
- The nets, optimisers and checkers built on top of these pieces.
