# Sea routing with contraction hierarchies and hub labels: verification model

This project models the preprocessing and the routers of the sea routing application in Dafny and proves that they
answer shortest-path questions exactly. `dafny verify dfyconfig.toml` checks all of it.

The application contracts the nodes of a grid graph level by level, each level a whole independent set at once, adds
shortcuts found by witness searches, builds hub labels from the top level down, flattens everything into offset arrays,
and answers queries by joining two sorted labels and unpacking shortcuts into a path. A plain Dijkstra router over the
original graph is the reference. The model keeps the form of the program: classes with the same fields and methods, the
same loops and branches, arrays shifted in place where the program does so.

## How the files fit together

- `Graphs`, `Routes`, `Search`, `Contraction`, `HubLabels`: the theory. Walks, distances, what a search knows, what
  contracting an independent set preserves, which hubs a label must hold.
- `Sequences`: what it means to keep some places of a sequence in order, used wherever order matters.
- `IntArrays`, `IntStack`, `IntArraySet`, `OrderedIntSet`, `Heaps`, `DistanceHeap`, `DijkstraHeap`, `Grid`: the data
  structures, each refining an abstract value (a sequence, a set, a priority map, a sliced edge list).
- `DijkstraRouter`: the reference router.
- `Networks`, `EdgeStore`, `DynamicGrid`, `Shortcuts`, `WitnessSearch`, `SearchColumns`, `CHDijkstra`, `Stages`,
  `MergeOrder`, `LevelSelection`, `LabelCreator`: the contraction. `Stages` states on values what holds between levels
  and proves that one level keeps it; `Shortcuts` and `MergeOrder` say which shortcuts are found and placed, in order.
- `LabelColumns`, `LabelFunction`, `LabelBuilding`, `LabelEntries`, `Labels`, `HLDijkstra`: the label of one node.
  `LabelEntries` tells each entry without the steps that compute it. `LabelBatches`, `Interleavings`, `LabelSchedule`:
  the order in which labels are calculated, and why it does not matter in a batch.
- `HubLNodes`, `HubLEdges`: flattening. `LabelJoin`, `Unpacking`, `HubLRouter`: queries and paths. `UpwardSearch`,
  `TempLabels`, `MixedRouter`: queries when the lowest levels have no labels.
- `Pipeline`: everything together. `ParallelEdges`: an input on which labels go wrong.

## What is proved

1. Contracting a level keeps every distance between survivors, so every later core has the original distances.
2. A witness search emits a shortcut exactly when the way over the node is a shortest one, ties included, in spite of
   the check every ten steps and of stale slots in the columns.
3. Every label holds exactly the peaks of its node at exact distances, hence every query is exact, if and only if the
   edges skipped by the branch at HLDijkstra.java:72-74 do no harm (`SkipsHarmless`). It suffices that the first listed
   edge to each end is a shortest connection (`FirstsShortest`), and `ParallelEdges` carries an input through contraction
   and labelling on which it fails.
4. The route put together from the two sides of the hub is a path over original edges whose length is the distance, and
   both routers agree.
5. For every number of levels without labels the distance is still exact.
6. The labels are a function of the hierarchy: however the threads of a batch interleave, the same table is left behind,
   first edges included. Each entry is its seed or the earliest of the shortest ways that the neighbours offer.
7. The numbers drawn determine all levels: a node left when a level begins goes into it exactly if no node of the level
   before it in the shuffled order is its neighbour in that core.

## What callers must provide

- Node ids below `Integer.MAX_VALUE`, no self-loops, positive lengths.
- A symmetric graph in which there are as many listed edges from x to y as from y to x (the repository's README.md:57-60
  asks for a bidirectional graph; the repair of missing reverse edges at import is not part of this model).
- For exact labels: at every node the first listed edge to each end is a shortest connection (or, weaker and exact,
  `HarmlessAbove`).
- For the routers: distances small enough for an int (`Fits`, `SumsFit`, `DistancesFit`). Integers are unbounded in the
  model; under these conditions the final distances and sums stay below `Integer.MAX_VALUE`.
- The random numbers of the shuffle are a parameter; each is below the number of nodes less one, as drawn by the
  program. A graph of exactly one node has no such numbers: the program throws there.

## Where the code and its comments differ

- A found shortcut is a record of five ints, not four (CHDijkstra.java:95-96 against 151-155).
- `Edges.addShortcutEdge` calls its parameters first and second part, but is passed the second part first
  (LabelCreator.java:99-100); `HubLEdges` reads the table accordingly. The model follows the order of the data.

## Model

| member | source | states |
|---|---|---|
| Contraction.ContractionKeepsDistances | src/main/java/de/fmi/searouter/hublablecreation/LabelCreator.java:46-110 | contracting a whole independent set at once keeps reachability and distance between every two survivors, provided each tight pair over a vanishing node has its shortcut and nothing shorter than the truth is added |
| Contraction.NoLonger | src/main/java/de/fmi/searouter/hublablecreation/CHDijkstra.java:204-210 | a shortest walk between survivors is matched by one that avoids all contracted nodes; this is where ties must count as tight |
| Contraction.NoShorter | src/main/java/de/fmi/searouter/hublablecreation/LabelCreator.java:87-104 | no walk of the new core is shorter than the distance in the old one |
| WitnessSearch.EmissionIsExact | src/main/java/de/fmi/searouter/hublablecreation/CHDijkstra.java:111-214 | the search from s emits the shortcut to y over v if and only if some pair of edges s-v-y is as long as the s-y distance, ties included |
| WitnessSearch.EmittedIsTight | src/main/java/de/fmi/searouter/hublablecreation/CHDijkstra.java:132-158 | the two edges recorded for an emitted shortcut form a shortest way of the recorded length |
| WitnessSearch.TightIsEmitted | src/main/java/de/fmi/searouter/hublablecreation/CHDijkstra.java:204-210 | every shortest way over v is emitted although another equally short way may have been found first |
| WitnessSearch.TightPairFlips | src/main/java/de/fmi/searouter/hublablecreation/LabelCreator.java:87-104 | a shortcut is called for in one direction exactly when it is in the other, with equal length |
| WitnessSearch.VisitKeeps | src/main/java/de/fmi/searouter/hublablecreation/CHDijkstra.java:186-212 | one relaxation with the tie rule keeps the search invariant: realised distances, recorded edges consistent, the preferred node recorded on ties |
| WitnessSearch.VisitLooks | src/main/java/de/fmi/searouter/hublablecreation/CHDijkstra.java:194-210 | case by case, what one relaxation does to the rows: new, nearer, equally near and preferred, equally near and not, farther |
| CHDijkstras.CHDijkstra.constructor | src/main/java/de/fmi/searouter/hublablecreation/CHDijkstra.java:111-121 | a new thread has found nothing and emitted nothing |
| CHDijkstras.CHDijkstra.AddNodeIfNecessary | src/main/java/de/fmi/searouter/hublablecreation/CHDijkstra.java:222-241 | the id is afterwards at the returned index of the sorted id column; a new id has a row without a distance, whatever the other columns held there |
| CHDijkstras.CHDijkstra.VisitColumns | src/main/java/de/fmi/searouter/hublablecreation/CHDijkstra.java:190-210 | the row of the end changes if it is new, nearer, or as near and reached from the preferred node, and otherwise stays, recorded edge included; the node visited is marked final, no other row changes, and the answer tells whether there was an improvement |
| CHDijkstras.CHDijkstra.NextStep | src/main/java/de/fmi/searouter/hublablecreation/CHDijkstra.java:177-214 | one step settles one more node and keeps the search; false if and only if nothing is open |
| CHDijkstras.CHDijkstra.MultipleNextSteps | src/main/java/de/fmi/searouter/hublablecreation/CHDijkstra.java:164-170 | exactly ten more nodes are settled, or fewer and nothing is open any more |
| CHDijkstras.CHDijkstra.AllNodesFound | src/main/java/de/fmi/searouter/hublablecreation/CHDijkstra.java:261-271 | yes exactly if every node has a row marked final |
| CHDijkstras.CHDijkstra.NextCalc | src/main/java/de/fmi/searouter/hublablecreation/CHDijkstra.java:111-126 | the whole search ends with every neighbour settled, in spite of the check every ten steps and of what earlier searches left in the columns |
| CHDijkstras.CHDijkstra.AddShortcuts | src/main/java/de/fmi/searouter/hublablecreation/CHDijkstra.java:132-158 | from the start node, exactly one shortcut for each listed neighbour to which the way over the node is a shortest one, in the order of the neighbours, each with two edges that form such a way |
| CHDijkstras.CHDijkstra.ContractNode | src/main/java/de/fmi/searouter/hublablecreation/CHDijkstra.java:70-90 | one block of shortcuts for every neighbour as start, in order, and none below two edges; so every shortest way over the node, in both directions, has its shortcut |
| CHDijkstras.CHDijkstra.Run | src/main/java/de/fmi/searouter/hublablecreation/CHDijkstra.java:67-92 | the shortcuts of a thread are those over its nodes, node after node: justified and complete for all of them |
| Shortcuts.TooFewEdges | src/main/java/de/fmi/searouter/hublablecreation/CHDijkstra.java:74-77 | with fewer than two edges no shortcut is called for |
| Shortcuts.OfNodeCovers | src/main/java/de/fmi/searouter/hublablecreation/CHDijkstra.java:82-90 | in a symmetric graph the blocks of all starts hold a shortcut for every shortest way over the node, and only such |
| SearchColumns.RowColumns.OpenHolds | src/main/java/de/fmi/searouter/hublablecreation/CHDijkstra.java:225-238 | shifting all five columns for a new id keeps every other row aligned with its id |
| SearchColumns.RowColumns.Lookup | src/main/java/de/fmi/searouter/hublablecreation/CHDijkstra.java:193 | binary search over the id column finds exactly the recorded nodes |
| EdgeStores.EdgeStore.constructor | src/main/java/de/fmi/searouter/hublablecreation/Edges.java:68-78 | the table starts with the original edges only |
| EdgeStores.EdgeStore.GetDest | src/main/java/de/fmi/searouter/hublablecreation/Edges.java:40-47 | the end of an original edge or shortcut by its id |
| EdgeStores.EdgeStore.GetDist | src/main/java/de/fmi/searouter/hublablecreation/Edges.java:54-61 | the length of an original edge or shortcut by its id |
| EdgeStores.EdgeStore.AddShortcutEdge | src/main/java/de/fmi/searouter/hublablecreation/Edges.java:89-105 | appends one edge whose length is the sum of its two older parts, second part first in the table, and returns its id |
| EdgeStores.AppendComposed | src/main/java/de/fmi/searouter/hublablecreation/Edges.java:94-103 | every shortcut stays composed of two older edges that meet in the middle |
| DynamicGrids.DynamicGrid.constructor | src/main/java/de/fmi/searouter/hublablecreation/DynamicGrid.java:34-39 | current and all lists start equal |
| DynamicGrids.DynamicGrid.AddEdge | src/main/java/de/fmi/searouter/hublablecreation/DynamicGrid.java:84-97 | the id is appended to both lists of the node and to no other |
| DynamicGrids.DynamicGrid.RemoveBackwardsEdge | src/main/java/de/fmi/searouter/hublablecreation/DynamicGrid.java:104-115 | the first edge back to the start is taken out: at its place stands the last id, unless it was the last itself, the list is one shorter, and every other place and list is as before |
| DynamicGrids.DynamicGrid.RemoveNode | src/main/java/de/fmi/searouter/hublablecreation/DynamicGrid.java:121-127 | the edges opposite to the node's own are taken out one by one in the order of its list, and then its list is emptied; no current edge touches the node, every other id stands in its list as often as before, and edge counts are balanced again |
| DynamicGrids.BackwardEdgeLeft | src/main/java/de/fmi/searouter/hublablecreation/DynamicGrid.java:104-111 | in a balanced grid the search for a backward edge always finds one, so the position is never -1 |
| DynamicGrids.StrippedBalanced | src/main/java/de/fmi/searouter/hublablecreation/DynamicGrid.java:121-127 | after removing a node there are again as many edges from x to y as from y to x |
| DynamicGrids.CountSwapOut | src/main/java/de/fmi/searouter/hublablecreation/DynamicGrid.java:113-114 | replacing an edge by the last one lowers exactly one count |
| Stages.LevelStep | src/main/java/de/fmi/searouter/hublablecreation/LabelCreator.java:46-110 | one level keeps the whole invariant: symmetric balanced core without loops, original distances between survivors, exact shortcuts, exact already-table, core of each past level, and each node listing exactly the core edges of its level |
| Stages.NextExact | src/main/java/de/fmi/searouter/hublablecreation/LabelCreator.java:46-110 | after a level the distances between survivors are still those of the original graph |
| Stages.NextContracts | src/main/java/de/fmi/searouter/hublablecreation/LabelCreator.java:87-109 | shortcuts from the old snapshot plus removal are a contraction in the sense of the theory |
| Stages.MergeAdd | src/main/java/de/fmi/searouter/hublablecreation/LabelCreator.java:99-102 | a new shortcut has the original distance as length and joins two survivors that are not in the level |
| Stages.MergeSkip | src/main/java/de/fmi/searouter/hublablecreation/LabelCreator.java:96-98 | skipping a pair that has a shortcut loses nothing: the earlier edge is still there and as long |
| Stages.PairHasEdge | src/main/java/de/fmi/searouter/hublablecreation/LabelCreator.java:92-103 | a pair of survivors in the already-table has its edge, of exactly the distance, in the current grid |
| Stages.MergedSymmetric | src/main/java/de/fmi/searouter/hublablecreation/LabelCreator.java:87-104 | after merging, every edge has its partner of equal length |
| Stages.MergedBalanced | src/main/java/de/fmi/searouter/hublablecreation/LabelCreator.java:87-104 | after merging, edge counts are equal both ways for every pair |
| Stages.CutGraph | src/main/java/de/fmi/searouter/hublablecreation/LabelCreator.java:106-109 | removing the level removes exactly the edges at its nodes |
| Stages.ListsDone | src/main/java/de/fmi/searouter/hublablecreation/DynamicGrid.java:84-127 | the list of all edges of a node does not change once it is contracted |
| Stages.ListsAlive | src/main/java/de/fmi/searouter/hublablecreation/DynamicGrid.java:84-97 | the list of all edges of a survivor holds its current edges and edges to contracted nodes, nothing else |
| Stages.FirstInv | src/main/java/de/fmi/searouter/hublablecreation/LabelCreator.java:115-140 | a symmetric, positive, loop-free, balanced input meets the invariant before the first level |
| Stages.FinalShape | src/main/java/de/fmi/searouter/hublablecreation/LabelCreator.java:58-61 | no edge ever stored at a node joins two nodes of the same level |
| Stages.FinalFromCores | src/main/java/de/fmi/searouter/hublablecreation/LabelCreator.java:46-110 | as edges, the upward edges among all edges of a node are those it has in the core of its level |
| Stages.FinalLastLists | src/main/java/de/fmi/searouter/hublablecreation/DynamicGrid.java:84-127 | by ids and counts: the upward edges among all edges ever listed at a node are exactly the ids in its current list at the moment of contraction, each as often, and no downward edge was left in that list |
| Stages.ContractedClimbs | src/main/java/de/fmi/searouter/hublablecreation/LabelCreator.java:115-149 | when all nodes are contracted, every peak of a node is reached over an upward edge that starts a shortest walk |
| Stages.KeptIsExact | src/main/java/de/fmi/searouter/hublablecreation/HLDijkstra.java:66-71 | the edge a label keeps for an end is the first original edge to that end, or an exact shortcut appended behind the original edges |
| Stages.EdgesShortestIsMore | src/main/java/de/fmi/searouter/hublablecreation/HLDijkstra.java:66-74 | if every original edge is a shortest connection, the first listed ones are |
| Stages.FirstEdgesAreHarmless | src/main/java/de/fmi/searouter/hublablecreation/HLDijkstra.java:66-74 | if at every node the first listed original edge to each end is a shortest connection, skipping further edges does no harm |
| LevelSelection.PickOne | src/main/java/de/fmi/searouter/hublablecreation/LabelCreator.java:49-64 | picking an unmarked node keeps the level independent and the marks exact |
| LevelSelection.GreedyStep | src/main/java/de/fmi/searouter/hublablecreation/LabelCreator.java:49-51 | the flags tell exactly whether the next node of the order is picked |
| LevelSelection.GreedyFollows | src/main/java/de/fmi/searouter/hublablecreation/LabelCreator.java:49-65 | going through the order picks exactly the nodes left that have no picked neighbour before them, in the order in which they stand |
| LevelSelection.OrderIsMaximal | src/main/java/de/fmi/searouter/hublablecreation/LabelCreator.java:49-65 | picking greedily from an order of all nodes leaves every node picked or next to a picked one |
| LevelSelection.ThreadsCover | src/main/java/de/fmi/searouter/hublablecreation/LabelCreator.java:72-85 | what the threads found for the nodes dealt to them, taken together, is all there is to find for the level |
| LevelSelection.NextContiguous | src/main/java/de/fmi/searouter/hublablecreation/LabelCreator.java:142-148 | levels are numbered without gaps and each holds a node |
| LevelSelection.LevelsGoOn | src/main/java/de/fmi/searouter/hublablecreation/LabelCreator.java:142-148 | one more level keeps what holds for all levels before: a node left when a level begins goes into it exactly if no node of the level before it in the order is its neighbour in the core |
| LevelSelection.MaximalNotEmpty | src/main/java/de/fmi/searouter/hublablecreation/LabelCreator.java:143 | while nodes are left, a level is not empty |
| LevelSelection.SwapKeepsOrder | src/main/java/de/fmi/searouter/hublablecreation/LabelCreator.java:131-133 | a swap keeps a permutation a permutation |
| LevelSelection.ShuffleIsUnique | src/main/java/de/fmi/searouter/hublablecreation/LabelCreator.java:126-134 | the numbers drawn determine the order |
| LabelCreators.LabelCreator.constructor | src/main/java/de/fmi/searouter/hublablecreation/LabelCreator.java:116-140 | nothing is contracted at first and the invariant holds |
| LabelCreators.LabelCreator.MarkNeighbours | src/main/java/de/fmi/searouter/hublablecreation/LabelCreator.java:54-61 | exactly the node and the ends of its current edges are marked in addition |
| LabelCreators.LabelCreator.SelectLevel | src/main/java/de/fmi/searouter/hublablecreation/LabelCreator.java:47-65 | of the nodes left, picks in the shuffled order exactly those that no picked node before them has an edge to; they form a maximal independent set of the current graph, each node once, and flags, levels and the remaining count are set for exactly these nodes |
| LabelCreators.LabelCreator.DistributeNodes | src/main/java/de/fmi/searouter/hublablecreation/LabelCreator.java:72-74 | thread t gets exactly the nodes whose number in the level is t modulo sixteen, in order |
| LabelCreators.LabelCreator.RunThread | src/main/java/de/fmi/searouter/hublablecreation/LabelCreator.java:76-85 | a thread changes nothing but itself and finds all shortcuts over its nodes, node after node |
| LabelCreators.LabelCreator.FindShortcuts | src/main/java/de/fmi/searouter/hublablecreation/LabelCreator.java:67-85 | every thread finds, node after node, the shortcuts over the nodes dealt to it |
| LabelCreators.LabelCreator.MergeShortcut | src/main/java/de/fmi/searouter/hublablecreation/LabelCreator.java:93-102 | the next shortcut is placed behind all others if its pair has none yet, and skipped otherwise; it counts as merged either way |
| LabelCreators.LabelCreator.MergeShortcuts | src/main/java/de/fmi/searouter/hublablecreation/LabelCreator.java:87-104 | thread after thread, of the shortcuts with the same ends the first one is placed unless an earlier level placed one: edges and parts are appended in this order, and exactly the pairs merged are registered in addition |
| MergeOrders.MergeNextInOrder | src/main/java/de/fmi/searouter/hublablecreation/LabelCreator.java:92-103 | placing or skipping one more shortcut keeps the table in the order of first occurrences |
| LabelCreators.LabelCreator.RemoveNodes | src/main/java/de/fmi/searouter/hublablecreation/LabelCreator.java:106-109 | the nodes of the level are taken out one after another, the last one first, and exactly their edges are gone from the current lists |
| LabelCreators.LabelCreator.MergeLevel | src/main/java/de/fmi/searouter/hublablecreation/LabelCreator.java:67-104 | all shortcuts of the level are found and merged in order |
| LabelCreators.LabelCreator.FinishLevel | src/main/java/de/fmi/searouter/hublablecreation/LabelCreator.java:106-109 | the nodes leave the grid and the invariant holds again at the next level |
| LabelCreators.LabelCreator.CalcNextLvl | src/main/java/de/fmi/searouter/hublablecreation/LabelCreator.java:46-110 | one level: of the nodes left exactly those that no picked node before them has an edge to get this level, a maximal independent set; no node gets a second level, the invariant holds again, lists only grow by ids of new edges at their end, and fewer nodes are left |
| LabelCreators.LabelCreator.Shuffle | src/main/java/de/fmi/searouter/hublablecreation/LabelCreator.java:126-134 | place after place exchanges its node with the place drawn while all other places keep theirs, and the outcome is a permutation whatever is drawn |
| LabelCreators.LabelCreator.CalculateCH | src/main/java/de/fmi/searouter/hublablecreation/LabelCreator.java:115-149 | terminates with every node contracted; for every level, a node left when it begins goes into it exactly if the core has no edge to it from a node of the level before it in the shuffled order; original edges keep ids and places |
| HubLabels.QueriesExactIffSkipsHarmless | src/main/java/de/fmi/searouter/hublablecreation/HLDijkstra.java:66-74 | all queries between labelled nodes are exact if and only if, wherever a parallel edge was skipped, some kept edge starts an equally short connection |
| HubLabels.BuiltIsCanonical | src/main/java/de/fmi/searouter/hublablecreation/HLDijkstra.java:42-143 | merging and pruning leaves exactly the peaks of a node (nodes that no node on a shortest walk to them exceeds in level), at their exact distances, although pruning uses <= on a shrinking set |
| HubLabels.CoveringLabelsAnswer | src/main/java/de/fmi/searouter/router/HubLRouter.java:120-162 | labels that hold all peaks exactly and nothing unrealised answer every query exactly |
| HubLabels.WitnessIsHigher | src/main/java/de/fmi/searouter/hublablecreation/Labels.java:69-94 | a witness against an exact entry lies strictly above its hub on a shortest walk, so peaks are never pruned |
| HubLabels.BuiltFromTheTop | src/main/java/de/fmi/searouter/hublablecreation/HLDijkstra.java:77-109 | built from the top level down, every label is exact |
| HubLabels.FollowEntry | src/main/java/de/fmi/searouter/router/HubLRouter.java:196-205 | the edge of an entry leads to a higher node whose label holds the same hub at a distance lower by exactly the length of the edge |
| HubLabels.HubsAreHigher | src/main/java/de/fmi/searouter/hublablecreation/HLDijkstra.java:59-61 | a hub other than the node itself has a higher level |
| HubLabels.CanonicalIsUnique | src/main/java/de/fmi/searouter/hublablecreation/HLDijkstra.java:129-143 | there is only one set of hubs and distances a label can have |
| HubLabels.BuiltTablesAgree | src/main/java/de/fmi/searouter/hublablecreation/HLDijkstra.java:66-106 | any two tables built from the top down agree on hubs and distances above a level where skips do no harm, whichever of equally good first edges they store |
| HubLabels.CoresClimb | src/main/java/de/fmi/searouter/hublablecreation/LabelCreator.java:46-110 | exact cores of all levels reach every peak over an upward edge |
| HubLabels.ExactEdgesAreHarmless | src/main/java/de/fmi/searouter/hublablecreation/HLDijkstra.java:72-74 | if the kept upward edges, each the first to its end, are shortest connections, skipping the others does no harm |
| ParallelEdges.LongerParallelEdgeMisleads | src/main/java/de/fmi/searouter/hublablecreation/HLDijkstra.java:72-74 | two nodes joined by edges of length 2 and 1, the longer listed first: every other condition holds, and the labels answer 2 instead of 1 |
| ParallelEdges.MisleadingRun | src/main/java/de/fmi/searouter/hublablecreation/LabelCreator.java:126-195 | whatever numbers are drawn, contracting and labelling that input ends in just these levels and labels |
| LabelBuilding.SeedFirst | src/main/java/de/fmi/searouter/hublablecreation/HLDijkstra.java:62-71 | the first upward edge to an end becomes its entry |
| LabelBuilding.SeedSkip | src/main/java/de/fmi/searouter/hublablecreation/HLDijkstra.java:72-74 | a further edge to the same end changes no entry |
| LabelBuilding.OfferLeads | src/main/java/de/fmi/searouter/hublablecreation/HLDijkstra.java:79-109 | an entry taken over from the label of a neighbour starts with the edge kept for that neighbour and is realised behind it |
| LabelBuilding.MergeDone | src/main/java/de/fmi/searouter/hublablecreation/HLDijkstra.java:42-109 | after all neighbours, the label is at least as good as every kept edge combined with the label of its end |
| LabelBuilding.MergedIsSound | src/main/java/de/fmi/searouter/hublablecreation/HLDijkstra.java:42-121 | every entry of a stored label is realised by a walk and leads to a higher node, whatever was skipped |
| LabelBuilding.PruneDrop | src/main/java/de/fmi/searouter/hublablecreation/HLDijkstra.java:134-138 | dropping an entry leaves the verdict on the entries checked before unchanged |
| LabelBuilding.PruneDone | src/main/java/de/fmi/searouter/hublablecreation/HLDijkstra.java:129-143 | what was dropped had a witness, and what is left has none among what is left |
| LabelBuilding.LabelForIsBuilt | src/main/java/de/fmi/searouter/hublablecreation/HLDijkstra.java:42-121 | from sound labels of higher nodes, what is calculated for a node is a merged and pruned label |
| LabelBuilding.BuiltStable | src/main/java/de/fmi/searouter/hublablecreation/LabelCreator.java:160-194 | changing labels at or below a node's level does not touch what its label was built from |
| LabelFunction.LabelHubs | src/main/java/de/fmi/searouter/hublablecreation/HLDijkstra.java:59-106 | whatever is stored at a level and below it, the hubs of a label calculated there are the node itself and higher nodes |
| LabelFunction.LabelStable | src/main/java/de/fmi/searouter/hublablecreation/HLDijkstra.java:42-143 | the label of a node, first edges included, is a function of the labels of higher nodes alone |
| LabelFunction.MergeTakesShorter | src/main/java/de/fmi/searouter/hublablecreation/HLDijkstra.java:91-108 | in merging one label an entry no longer than the way over the neighbour stays as it is, edge included, and any other becomes that way |
| LabelEntries.SeedHasFirsts | src/main/java/de/fmi/searouter/hublablecreation/HLDijkstra.java:46-77 | seeds are the node's own entry and, for each higher neighbour, the first edge listed to it with its length |
| LabelEntries.UpEndsKept | src/main/java/de/fmi/searouter/hublablecreation/HLDijkstra.java:54-65 | the neighbours to merge are the ends of the upward edges, in the order of the list |
| LabelEntries.MergeKeepsEarliest | src/main/java/de/fmi/searouter/hublablecreation/HLDijkstra.java:79-109 | after merging, the entry of a hub is its seed or, if some neighbour offers a shorter way, the way and first edge of the earliest neighbour that offers the least distance |
| LabelEntries.PruneKeepsExactly | src/main/java/de/fmi/searouter/hublablecreation/HLDijkstra.java:129-143 | a hub stays exactly if it is the node itself or has no witness among the hubs left when its turn comes, in rising order |
| LabelEntries.LabelEntry | src/main/java/de/fmi/searouter/hublablecreation/HLDijkstra.java:42-143 | which hubs the label of a node holds, with which distance and which first edge |
| LabelColumns.Columns.PutHolds | src/main/java/de/fmi/searouter/hublablecreation/HLDijkstra.java:66-71 | inserting at the same index keeps the three columns one strictly sorted map |
| LabelColumns.Columns.DropHolds | src/main/java/de/fmi/searouter/hublablecreation/HLDijkstra.java:135-137 | removing at the same index keeps the three columns one strictly sorted map |
| LabelColumns.LabelTable.constructor | src/main/java/de/fmi/searouter/hublablecreation/HLDijkstra.java:33-35 | the three sets start empty |
| LabelColumns.LabelTable.NoteWay | src/main/java/de/fmi/searouter/hublablecreation/HLDijkstra.java:89-108 | an entry at no greater distance leaves everything as it was, edge included; otherwise the entry becomes the way offered |
| LabelColumns.LabelTable.RemoveAtIdx | src/main/java/de/fmi/searouter/hublablecreation/HLDijkstra.java:135-137 | exactly the entry at the index is gone from all three sets |
| LabelStores.Labels.constructor | src/main/java/de/fmi/searouter/hublablecreation/Labels.java:22-26 | no node has a label at first |
| LabelStores.Labels.AddLabels | src/main/java/de/fmi/searouter/hublablecreation/Labels.java:53-57 | exactly the label of one node is set |
| LabelStores.Labels.IsRedundant | src/main/java/de/fmi/searouter/hublablecreation/Labels.java:69-94 | true if and only if the two labels have a hub other than the checked one in common over which the way is no longer than the checked distance |
| HLDijkstras.HLDijkstra.constructor | src/main/java/de/fmi/searouter/hublablecreation/HLDijkstra.java:29-36 | a thread knows its share of the order and has empty sets |
| HLDijkstras.HLDijkstra.SeedEdge | src/main/java/de/fmi/searouter/hublablecreation/HLDijkstra.java:56-75 | one edge is ignored, entered or skipped, as its level and its end demand |
| HLDijkstras.HLDijkstra.MergeLabelsOf | src/main/java/de/fmi/searouter/hublablecreation/HLDijkstra.java:79-109 | every entry no longer than the way over the neighbour stays as it is, edge included; every other one becomes that way, over the first edge to the neighbour |
| HLDijkstras.HLDijkstra.MergeLabels | src/main/java/de/fmi/searouter/hublablecreation/HLDijkstra.java:42-109 | the sets hold the seeded entries after merging the labels of all upper neighbours in order |
| HLDijkstras.HLDijkstra.RemoveRedundancies | src/main/java/de/fmi/searouter/hublablecreation/HLDijkstra.java:129-143 | scanning by position while deleting is the same as checking hub after hub in rising order against what is left |
| HLDijkstras.HLDijkstra.CalcLabels | src/main/java/de/fmi/searouter/hublablecreation/HLDijkstra.java:42-121 | stores for the node exactly the label that follows from the stored labels, entry by entry and edge by edge, and changes no other label |
| HLDijkstras.HLDijkstra.Run | src/main/java/de/fmi/searouter/hublablecreation/HLDijkstra.java:149-153 | the labels become what calculating exactly the nodes of the share, one after another, makes of them |
| LabelBatches.SinkSwap | src/main/java/de/fmi/searouter/hublablecreation/LabelCreator.java:213-218 | exchanging neighbours in the wrong order carries the lowest node on and keeps the permutation |
| LabelBatches.CutDone | src/main/java/de/fmi/searouter/hublablecreation/LabelCreator.java:222-233 | the change indices cut the order into runs of one level each, levels falling from run to run |
| LabelBatches.BatchLevel | src/main/java/de/fmi/searouter/hublablecreation/LabelCreator.java:222-234 | run number k holds the level k below the top one |
| LabelBatches.BatchCount | src/main/java/de/fmi/searouter/hublablecreation/LabelCreator.java:156-159 | there are exactly as many batches as levels |
| LabelSchedules.SortByLevel | src/main/java/de/fmi/searouter/hublablecreation/LabelCreator.java:209-220 | the order is sorted in place by falling level, is still a permutation, and nodes of one level keep their order |
| LabelSchedules.FindChanges | src/main/java/de/fmi/searouter/hublablecreation/LabelCreator.java:222-234 | the change indices found cut the order into one batch per level |
| LabelSchedules.CreateHLCalcOrder | src/main/java/de/fmi/searouter/hublablecreation/LabelCreator.java:202-235 | all nodes by falling level, and by rising id within a level, with the indices where each level begins |
| LabelSchedules.ShareOut | src/main/java/de/fmi/searouter/hublablecreation/LabelCreator.java:165-181 | with more nodes than threads sixteen shares of equal size, the last one with the rest; otherwise one share for each node; they tile the batch |
| LabelSchedules.RunBatch | src/main/java/de/fmi/searouter/hublablecreation/LabelCreator.java:163-194 | the shares together calculate exactly the nodes of the batch |
| LabelSchedules.BatchIsLevel | src/main/java/de/fmi/searouter/hublablecreation/LabelCreator.java:159-164 | batch i holds exactly the nodes of the level i below the top one |
| LabelSchedules.CalcLabels | src/main/java/de/fmi/searouter/hublablecreation/LabelCreator.java:154-195 | the labels of all but the lowest given number of levels are those that every schedule of the threads leads to |
| Interleavings.BatchStep | src/main/java/de/fmi/searouter/hublablecreation/LabelCreator.java:183-193 | whichever nodes of a level are finished already, one more node gets the same label |
| Interleavings.RunIsBatch | src/main/java/de/fmi/searouter/hublablecreation/HLDijkstra.java:149-153 | calculating nodes of one level one after another gives each the label that follows from the table at the beginning |
| Interleavings.ViewIsFirst | src/main/java/de/fmi/searouter/hublablecreation/LabelCreator.java:160-194 | what a thread sees of higher nodes is what stood there when the batch began, although its view may mix moments and may show half-written labels of its own level |
| Interleavings.EveryInterleavingAgrees | src/main/java/de/fmi/searouter/hublablecreation/LabelCreator.java:183-193 | however threads interleave in a batch, the table they leave is the same, first edges included |
| Interleavings.OrdersAgree | src/main/java/de/fmi/searouter/hublablecreation/LabelCreator.java:165-193 | any two orders of the nodes of a batch, with any views, leave the same table |
| Interleavings.EveryScheduleAgrees | src/main/java/de/fmi/searouter/hublablecreation/LabelCreator.java:154-195 | however threads interleave in each of the batches, the labels of the whole calculation are the same |
| Interleavings.DownToIsBuilt | src/main/java/de/fmi/searouter/hublablecreation/LabelCreator.java:154-195 | these labels are what merging and pruning make of higher ones, on every labelled level |
| Interleavings.DownToLow | src/main/java/de/fmi/searouter/hublablecreation/LabelCreator.java:159-160 | nodes on the levels that are left out have no labels |
| Interleavings.DownToFollows | src/main/java/de/fmi/searouter/hublablecreation/LabelCreator.java:154-195 | every label of a labelled level is the one that follows from the labels in the same table |
| HubLData.FilterUp | src/main/java/de/fmi/searouter/hublabeldata/HubLNodes.java:169-183 | in-place deletion while scanning leaves exactly the edges to higher levels, in order |
| HubLData.UpOnlyMembers | src/main/java/de/fmi/searouter/hublabeldata/HubLNodes.java:171-181 | what the filter keeps are exactly the listed edges that lead to a higher level |
| HubLData.UpOnlyKeeps | src/main/java/de/fmi/searouter/hublabeldata/HubLNodes.java:169-183 | what the filter keeps are the upward edges in the order of the list |
| Sequences.KeepsIsUnique | src/main/java/de/fmi/searouter/hublabeldata/HubLNodes.java:169-183 | there is only one list that keeps the given places in order |
| HubLData.Flatten | src/main/java/de/fmi/searouter/hublabeldata/HubLNodes.java:187-199 | slice i of the flat array is exactly list i |
| HubLData.InitEdgeInfo | src/main/java/de/fmi/searouter/hublabeldata/HubLNodes.java:151-200 | between the offsets of a labelled node stands nothing, and between those of a node without label its upward edges in order; with labels on all levels no edge is stored |
| HubLData.LabelsAreIn | src/main/java/de/fmi/searouter/hublabeldata/HubLNodes.java:223-257 | slice i of the three label columns is exactly node i's label, and one more entry stands behind it |
| HubLData.InitLabelInfo | src/main/java/de/fmi/searouter/hublabeldata/HubLNodes.java:205-261 | every label is found in its slice, and reading one entry too far stays in bounds |
| HubLData.HubLNodes.constructor | src/main/java/de/fmi/searouter/hublabeldata/HubLNodes.java:129-261 | levels, edge slices and label slices are those of the hierarchy; labelled nodes have no edges, and with labels on all levels no edge is stored |
| HubLEdgeData.HubLEdges.constructor | src/main/java/de/fmi/searouter/hublabeldata/HubLEdges.java:71-92 | ends, lengths and parts are those of the edge table, originals first |
| HubLEdgeData.HubLEdges.PartsLead | src/main/java/de/fmi/searouter/hublabeldata/HubLEdges.java:52-66 | the first part starts where the shortcut starts, the second ends where it ends, they meet, are older, and add up to its length |
| Unpacking.UnpackIsChain | src/main/java/de/fmi/searouter/router/HubLRouter.java:217-226 | unpacking an edge ends, and gives original edges from its start to its end that add up to its length |
| Unpacking.PendingSplit | src/main/java/de/fmi/searouter/router/HubLRouter.java:219-222 | replacing a shortcut on the stack by its parts changes nothing of what is still to come, in either order of pushing |
| Unpacking.NodesOfBack | src/main/java/de/fmi/searouter/router/HubLRouter.java:231-244 | the reversed right half, read as ends of its edges and then the destination, are the nodes of the walk back |
| Unpacking.HalvesMakeRoute | src/main/java/de/fmi/searouter/router/HubLRouter.java:213-245 | left half without its last node, reversed right half and destination are the nodes of one walk over original edges, as long as both halves |
| Unpacking.SidesMakeRoute | src/main/java/de/fmi/searouter/router/HubLRouter.java:213-245 | the same from the edges found on both sides, shortcuts included |
| LabelJoin.JoinMeet | src/main/java/de/fmi/searouter/router/HubLRouter.java:139-150 | at equal hubs the better of old and new sum is kept and both sides advance |
| LabelJoin.JoinPass | src/main/java/de/fmi/searouter/router/HubLRouter.java:151-157 | the smaller of two different hubs is not common and can be passed |
| LabelJoin.JoinAnswers | src/main/java/de/fmi/searouter/router/HubLRouter.java:138-162 | a finished merge join over labels that answer queries gives the exact distance, and no hub exactly when there is no route |
| HubLRouters.HubLRouter.constructor | src/main/java/de/fmi/searouter/router/HubLRouter.java:77-92 | the stacks are empty and apart |
| HubLRouters.HubLRouter.BestCommonLabel | src/main/java/de/fmi/searouter/router/HubLRouter.java:120-158 | of the best common hubs the one with the least id, its two positions, and no index out of bounds in spite of reading ahead |
| HubLRouters.HubLRouter.LabelIndex | src/main/java/de/fmi/searouter/router/HubLRouter.java:198-200 | the binary search for the hub in the slice never misses |
| HubLRouters.ClimbOn | src/main/java/de/fmi/searouter/router/HubLRouter.java:196-205 | following an entry makes the chain of edges longer by one, still on the way to the hub, one level or more up |
| HubLRouters.HubLRouter.GetEdges | src/main/java/de/fmi/searouter/router/HubLRouter.java:196-205 | terminates at the hub, with edges on the stack that add up to the distance |
| HubLRouters.HubLRouter.SideEdges | src/main/java/de/fmi/searouter/router/HubLRouter.java:164-178 | the edges of one side lead from the end to the hub over exactly the entry's distance |
| HubLRouters.HubLRouter.ExpandStep | src/main/java/de/fmi/searouter/router/HubLRouter.java:218-226 | one pop either gives the end of an original edge or replaces a shortcut by its parts |
| HubLRouters.HubLRouter.DrainLeft | src/main/java/de/fmi/searouter/router/HubLRouter.java:215-227 | gives the ends of all original edges behind the left edges, in order |
| HubLRouters.HubLRouter.DrainRight | src/main/java/de/fmi/searouter/router/HubLRouter.java:231-243 | gives the ends of all original edges behind the right edges, in reverse order |
| HubLRouters.HubLRouter.CalculateRoute | src/main/java/de/fmi/searouter/router/HubLRouter.java:213-245 | the node stack is the left half without the hub, the reversed right half, and the destination |
| HubLRouters.HubLRouter.Reset | src/main/java/de/fmi/searouter/router/HubLRouter.java:58-72 | all stacks are empty |
| HubLRouters.HubLRouter.Route2Lbl | src/main/java/de/fmi/searouter/router/HubLRouter.java:120-188 | no route exactly when there is none; otherwise a path over original edges from start to destination whose length is the distance and the answer |
| UpwardSearch.LiftOne | src/main/java/de/fmi/searouter/router/HubLRouter.java:628-663 | offering one upward edge keeps every entry realised and every settled node final |
| UpwardSearch.ReachesLabelled | src/main/java/de/fmi/searouter/router/HubLRouter.java:621-664 | on the way to any peak, the search has found the peak itself or a labelled node at its exact distance |
| UpwardSearch.JoinedCovers | src/main/java/de/fmi/searouter/router/HubLRouter.java:592-700 | after merging the labels of the labelled nodes found, the temporary label holds every peak exactly and nothing unrealised |
| UpwardSearch.HeapsAfter | src/main/java/de/fmi/searouter/router/HubLRouter.java:637-656 | an improvement goes to the heap of its node, and both heaps stay in step with the label |
| TempLabels.TempSearch.LookAtEdges | src/main/java/de/fmi/searouter/router/HubLRouter.java:625-663 | all upward edges of a node are looked at, up to where the next slice begins |
| TempLabels.TempSearch.SearchUp | src/main/java/de/fmi/searouter/router/HubLRouter.java:612-664 | terminates with all upward edges of all unlabelled nodes found accounted for |
| TempLabels.TempSearch.JoinLabelOf | src/main/java/de/fmi/searouter/router/HubLRouter.java:677-698 | the label of a labelled node found is merged at the distance it was found at |
| TempLabels.TempSearch.CalcTempLabels | src/main/java/de/fmi/searouter/router/HubLRouter.java:592-700 | the temporary label covers its node |
| MixedRouters.BestCommonHub | src/main/java/de/fmi/searouter/router/HubLRouter.java:305-325 | of the best common hubs of two labels, stored or temporary, the one with the least id, with one dummy behind each |
| MixedRouters.MixedRouter.LabelOf | src/main/java/de/fmi/searouter/router/HubLRouter.java:257-269 | a stored label where there is one and a temporary one otherwise, covering the node either way |
| MixedRouters.MixedRouter.Distance | src/main/java/de/fmi/searouter/router/HubLRouter.java:255-272 | the exact distance, or that there is no route, for any number of levels without labels and any two nodes |
| Search.RelaxKeeps | src/main/java/de/fmi/searouter/router/DijkstraRouter.java:77-96 | one relaxation keeps realised distances and changes no settled node |
| Search.ExactDistance | src/main/java/de/fmi/searouter/router/DijkstraRouter.java:71-75 | a node taken off the heap has its exact distance, so the early exit is right |
| Search.Exhausted | src/main/java/de/fmi/searouter/router/DijkstraRouter.java:67-97 | when the heap runs empty exactly the reachable nodes have been found |
| DijkstraRouters.DijkstraRouter.constructor | src/main/java/de/fmi/searouter/router/DijkstraRouter.java:25-34 | the arrays are as large as the graph |
| DijkstraRouters.DijkstraRouter.ExpandEdge | src/main/java/de/fmi/searouter/router/DijkstraRouter.java:79-96 | one edge out of the node taken off the heap is relaxed unless its end is touched; the predecessor changes only for a shorter way |
| DijkstraRouters.DijkstraRouter.Step | src/main/java/de/fmi/searouter/router/DijkstraRouter.java:67-96 | one round settles the nearest open node; finding the destination ends the search with its exact distance |
| DijkstraRouters.DijkstraRouter.RunSearch | src/main/java/de/fmi/searouter/router/DijkstraRouter.java:67-97 | terminates, and finds the destination exactly when it is reachable |
| DijkstraRouters.DijkstraRouter.ReadPath | src/main/java/de/fmi/searouter/router/DijkstraRouter.java:101-112 | reading predecessors back terminates and gives the nodes of a shortest walk in order |
| DijkstraRouters.DijkstraRouter.Route | src/main/java/de/fmi/searouter/router/DijkstraRouter.java:57-121 | no route exactly when there is none; otherwise a path from start to destination whose length is the distance and minimal over all walks |
| Grids.Grid.constructor | src/main/java/de/fmi/searouter/dijkstragrid/Grid.java:268-274 | counting and summing up in place gives offsets whose slices are exactly the edges of each node |
| Grids.Grid.SliceGrows | src/main/java/de/fmi/searouter/router/DijkstraRouter.java:77-78 | walking a slice meets exactly the edges that start at the node |
| DijkstraHeaps.DijkstraHeap.ResetState | src/main/java/de/fmi/searouter/router/DijkstraHeap.java:37-42 | the heap is empty and no id has a position |
| DijkstraHeaps.DijkstraHeap.GetNext | src/main/java/de/fmi/searouter/router/DijkstraHeap.java:57-66 | takes off the root, an id of least key; the last id is sifted down from there, the others keep heap order, and only the position of the one taken is left stale |
| DijkstraHeaps.DijkstraHeap.Add | src/main/java/de/fmi/searouter/router/DijkstraHeap.java:73-86 | an id whose key was lowered outside, or a new one, is sifted up to its place; only ids never taken off may be added |
| DijkstraHeaps.DijkstraHeap.HeapifyTopDown | src/main/java/de/fmi/searouter/router/DijkstraHeap.java:93-115 | refines sifting down |
| DijkstraHeaps.DijkstraHeap.HeapifyBottomUp | src/main/java/de/fmi/searouter/router/DijkstraHeap.java:122-138 | refines sifting up |
| Heaps.SiftUpRestores | src/main/java/de/fmi/searouter/utils/DistanceHeap.java:160-176 | sifting up repairs a heap whose one key was lowered |
| Heaps.SiftUpMoves | src/main/java/de/fmi/searouter/utils/DistanceHeap.java:160-176 | sifting up moves exactly the ancestors with greater keys down by one place each |
| Heaps.ChangeKeySifts | src/main/java/de/fmi/searouter/utils/DistanceHeap.java:103-108 | after a key was changed and sifted up there is a heap exactly if the key is not above those of its children |
| Heaps.SiftDownRestores | src/main/java/de/fmi/searouter/utils/DistanceHeap.java:131-153 | sifting down repairs a heap whose root was replaced |
| Heaps.SiftDownMoves | src/main/java/de/fmi/searouter/utils/DistanceHeap.java:131-153 | sifting down moves up, one place each, exactly the elements on the way to nearer children, the left one on ties |
| Heaps.RootIsLeast | src/main/java/de/fmi/searouter/utils/DistanceHeap.java:79-80 | the root of a heap has a least key |
| DistanceHeaps.DistanceHeap.constructor | src/main/java/de/fmi/searouter/utils/DistanceHeap.java:44-54 | a new heap is the empty priority map |
| DistanceHeaps.DistanceHeap.Reset | src/main/java/de/fmi/searouter/utils/DistanceHeap.java:60-64 | afterwards the heap is the empty priority map |
| DistanceHeaps.DistanceHeap.IsEmpty | src/main/java/de/fmi/searouter/utils/DistanceHeap.java:70-72 | empty if and only if the priority map is |
| DistanceHeaps.DistanceHeap.GetNext | src/main/java/de/fmi/searouter/utils/DistanceHeap.java:79-96 | removes an id of least distance from the priority map, though three arrays shift after the sift |
| DistanceHeaps.DistanceHeap.Add | src/main/java/de/fmi/searouter/utils/DistanceHeap.java:103-124 | sets exactly the distance of one id, new, lowered or raised; the heap order survives if and only if the distance is not raised above that of a child |
| DistanceHeaps.DistanceHeap.HeapifyTopDown | src/main/java/de/fmi/searouter/utils/DistanceHeap.java:131-153 | refines sifting down, with positions looked up in the sorted table |
| DistanceHeaps.DistanceHeap.HeapifyBottomUp | src/main/java/de/fmi/searouter/utils/DistanceHeap.java:160-176 | refines sifting up, with positions looked up in the sorted table |
| DistanceHeaps.DistanceHeap.SwapPlaces | src/main/java/de/fmi/searouter/utils/DistanceHeap.java:183-194 | swapping two places keeps positions inverse to the heap array |
| DistanceHeaps.DistanceHeap.Grow | src/main/java/de/fmi/searouter/utils/DistanceHeap.java:199-207 | growing changes neither contents nor padding |
| DistanceHeaps.InsertLocated | src/main/java/de/fmi/searouter/utils/DistanceHeap.java:114-120 | shifting the table for a new id keeps every position right |
| DistanceHeaps.RemoveLocated | src/main/java/de/fmi/searouter/utils/DistanceHeap.java:89-93 | closing the gap in the table keeps every position right |
| OrderedIntSets.OrderedIntSet.constructor | src/main/java/de/fmi/searouter/utils/OrderedIntSet.java:29-38 | an empty set, padded so that the whole array can be searched |
| OrderedIntSets.OrderedIntSet.InsertTail | src/main/java/de/fmi/searouter/utils/OrderedIntSet.java:45-51 | appends one element |
| OrderedIntSets.OrderedIntSet.RemoveAtIdx | src/main/java/de/fmi/searouter/utils/OrderedIntSet.java:58-62 | removes exactly the element at the index and pads the place behind the last one |
| OrderedIntSets.OrderedIntSet.InsertAtIdx | src/main/java/de/fmi/searouter/utils/OrderedIntSet.java:71-78 | inserts one element at the index |
| OrderedIntSets.OrderedIntSet.InsertSorted | src/main/java/de/fmi/searouter/utils/OrderedIntSet.java:86-100 | -1 exactly when the element is there; otherwise it is inserted in order at the returned index |
| OrderedIntSets.OrderedIntSet.GetIdx | src/main/java/de/fmi/searouter/utils/OrderedIntSet.java:129-131 | the index of the element, or its insertion point as a negative number |
| OrderedIntSets.OrderedIntSet.UpdateValue | src/main/java/de/fmi/searouter/utils/OrderedIntSet.java:138-140 | replaces exactly one element |
| OrderedIntSets.OrderedIntSet.MakeSpace | src/main/java/de/fmi/searouter/utils/OrderedIntSet.java:147-156 | makes room without changing the contents |
| OrderedIntSets.OrderedIntSet.Clear | src/main/java/de/fmi/searouter/utils/OrderedIntSet.java:161-167 | removes everything and restores the padding |
| IntStacks.IntStack.Push | src/main/java/de/fmi/searouter/utils/IntStack.java:62-68 | adds one element on top |
| IntStacks.IntStack.Pop | src/main/java/de/fmi/searouter/utils/IntStack.java:53-56 | takes the newest element |
| IntStacks.IntStack.PopFifo | src/main/java/de/fmi/searouter/utils/IntStack.java:42-46 | takes the oldest element |
| IntStacks.IntStack.IsEmpty | src/main/java/de/fmi/searouter/utils/IntStack.java:74-77 | empty exactly when nothing is left to pop from either end |
| IntStacks.IntStack.Clear | src/main/java/de/fmi/searouter/utils/IntStack.java:32-35 | nothing is left |
| IntArraySets.IntArraySet.Contains | src/main/java/de/fmi/searouter/utils/IntArraySet.java:33-35 | true if and only if the element was added |
| IntArraySets.IntArraySet.Add | src/main/java/de/fmi/searouter/utils/IntArraySet.java:41-55 | adds one element to the set; adding it again changes nothing |
| IntArraySets.InsertAddsOne | src/main/java/de/fmi/searouter/utils/IntArraySet.java:51-54 | inserting at the insertion point adds exactly one element |
| IntArrays.BinarySearch | src/main/java/de/fmi/searouter/utils/DistanceHeap.java:82 | binary search over a padded array finds the element or its insertion point among the used places |
| Pipeline.Contract | src/main/java/de/fmi/searouter/hublablecreation/LabelCreator.java:115-149 | from a good input, contraction leaves a hierarchy over which labels can be built, without gaps between levels; the levels are those that the shuffled order gives |
| Pipeline.Preprocess | src/main/java/de/fmi/searouter/hublablecreation/LabelCreator.java:260-289 | contraction, labels and flattening hand over exactly what the routers need, with the levels that the shuffled order gives and the labels that follow from them; with shortest original edges, no skipped edge does harm |
| Pipeline.HandoverAnswersIffHarmless | src/main/java/de/fmi/searouter/router/HubLRouter.java:120-162 | the labels handed over answer every query exactly if and only if skipping parallel edges did no harm |
| Pipeline.AskBoth | src/main/java/de/fmi/searouter/router/HubLRouter.java:102-111 | the hub label router and the plain router both return a shortest path or both none, and agree on the distance |
| Pipeline.AskMixed | README.md:13-17 | interpolation: for every number of levels without labels the distance is the one the plain router finds |
| Pipeline.PreprocessAndRoute | src/main/java/de/fmi/searouter/router/HubLRouter.java:101-111 | from the original graph to the answer: the route found after preprocessing is a shortest path |
| Routes.RoutesAgree | src/main/java/de/fmi/searouter/router/DijkstraRouter.java:115-119 | two right answers to one question agree on existence and length |
| Routes.RouteVisitsOnce | src/main/java/de/fmi/searouter/router/HubLRouter.java:213-245 | with positive lengths a shortest route visits every node, the hub among them, at most once |

## Left out

- Paths when levels without labels are configured: `addEdges` (HubLRouter.java:557-584) drains its stack in push order and so returns the edges in the wrong order when two or more of them are followed below the labelled levels, which takes at least two levels without labels; distances are proved for these configurations, paths for the configured case without such levels. The `addInfo` column, which only serves these paths, is not modelled.
- Overflow: ints are unbounded; the conditions above keep the answers in range, but intermediate temporary distances in `TempLabels` are not bounded.
- MixedRouters.MixedRouter.Distance: does not return a path, for the reason given first; it chooses between stored and temporary labels for each end, which covers the four methods `route2Lbl`, `routeLeftLbl`, `routeRightLbl` and `route0Lbl` at once.
- LabelCreators.LabelCreator.RunThread: threads run one after another; they read a snapshot that none of them changes and write only their own lists.
- HLDijkstras.HLDijkstra.Run: threads of a batch run one after another here; `Interleavings` proves that every other interleaving, with reads at any moments, leaves the same labels.
- LabelCreators.LabelCreator.CalculateCH: the random generator itself, and the timing and progress output.
- DynamicGrids.DynamicGrid.AddEdge: does not model the growth of the two arrays before the id is stored (growCurrent, growAll), as the lists are sequences.
- HubLRouters.HubLRouter.Reset: clears the four stacks; the heap and the temporary label sets, which the program clears there as well, are cleared by `TempSearch.ClearAll` before each search.
- Growth and capacity of the arrays of `CHDijkstra`, `DynamicGrid`, `Edges` and `Labels`: these columns are sequences in fields that the methods reassign; slots behind the used part of the columns of a witness search hold arbitrary values where the program would read what is left there. In-place arrays with padding and growth are modelled in `OrderedIntSet`, `IntStack`, `IntArraySet`, `DistanceHeap`, `DijkstraHeap`, the offset array of `Grid`, the bubble sort and the flattening.
- The `alreadyShortcut` tables are sets in `LabelCreator`; that `IntArraySet` implements a set is proved on its own.
- The three parallel sets of `HLDijkstra` and `HubLRouter` are held in one object, `LabelTable`, whose methods apply each change to all three.
- The temporary file of `initLabelInfo`: values go from the old columns to the new ones directly.
- Import and repair of .fmi files, `HubLStore`, `CHData`, `TmpLabelData` and other serialization: I/O.
- Coastlines, grid creation, coordinates and nearest-node search: floating-point geometry without an exact statement.
- REST controller, frontend, PBF import, GeoJSON output and `RoutingResult` coordinates: plumbing.
