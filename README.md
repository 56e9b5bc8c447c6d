# mappertools core, modelled in Dafny

This project models the graph- and list-based core of *mappertools*, a toolkit of
utilities around Mapper graphs (topological summaries whose nodes are clusters of
observations):

- **Entity lookup and core/shell decomposition** (`features/core.py`, also copied in
  `features/flare_balls.py`). A node of a subset H is *core* when all of its neighbours
  lie in H, and *shell* otherwise.
- **Per-entity flareness** (`features/flare_balls.py`). The nodes holding an entity are
  split into core and shell. The model computes shortest distances from the shell
  inside the entity's subgraph, and one value per connected component of the core:
  +∞ when some node of the component is unreachable, otherwise its largest distance.
  It also models the three-way sorting of `compute_all_flareness` and the
  classification part of `flareness_report`.
- **The persistence flare forest** (`features/flare_tree.py`). Nodes are swept by
  ascending centrality. A node with no lower neighbour in any root tree gives birth to
  a flare. Otherwise the oldest touching root tree absorbs the others: each absorbed
  flare gets its death stamp and becomes a subtree. The trees are kept in an arena
  class (`FlareTree.Forest`) whose `seq` fields the methods update.
- **The flare record and the elder search** (`features/flares.py`): a class with
  `terminate`, and the strict-minimum scan of `find_elder_flare`.
- **Clustering labels** (`mapper/clustering.py`) and **hierarchical thresholds**
  (`mapper/hierarchical_clustering.py`). This covers `_clusters_to_labels`,
  `cluster_number_to_threshold` and the search loop of
  `statistic_heuristic_hierarchical`. In the search, `fcluster` and the statistic are
  function parameters.
- **Graph cleaning and attribute annotation** (`outputs/text_dump.py`,
  `text_dump.py`). This covers `kmapper_clean_graph` on dictionary graphs and the
  `nxmapper_append_*` functions. Those run on a networkx graph, modelled as the class
  `TextDump.NxGraph`: one attribute dictionary per node and one per edge.

Two networkx services the core calls are modelled by reference definitions of their
own, each with its properties proved:

- `connected_components`: module `Components`, a closure over neighbours;
- `multi_source_dijkstra_path_length`: module `ShortestPaths`, rounds of relaxation
  proved equal to the least walk weight.

Python's `sorted(..., key=...)` is module `Sorting`.

Modules:

- `Graphs`: the shared vocabulary. It holds the graph value (node order, adjacency
  lists, membership sets), `Option`, the naturals and reals extended with +∞, walks,
  and the first-strict-minimum scan.
- `CoreShell`, `FlareBalls`, `Components`, `ShortestPaths`, `Sorting`, `FlareTree`,
  `Flares`, `Clustering`, `Hierarchical`, `TextDump`: one per component above.
- `FlareBallsExamples`: the flareness examples of the test suite, on a line of nodes
  cut before a given node. The three graphs of the tests are instances of it.
  `FlareTree` ends with the flare-tree examples of the test suite in the same way.

Where the source's behaviour and its tests or docstrings differ, the model follows the
code:

- `compute_flareness` returns only the list, although its tests unpack a pair.
- The cleaning keeps a surviving link list as a set difference, so its order is not
  the original order.
- `nxmapper_append_basic_data` reads the edge's `count` for the weight even when
  counts are off. The model returns the error outcome there, as the code raises
  `KeyError`.

## Model

| member | source | states |
|---|---|---|
| CoreShell.NodesContaining | mappertools/features/core.py:34-35 | a node is listed iff it is a graph node whose membership holds the entity; the list keeps graph iteration order |
| CoreShell.Containing | mappertools/features/flare_balls.py:4-5 | the nodes of a list that hold the entity are exactly those listed, in list order |
| CoreShell.ComputeCoreShell | mappertools/features/core.py:57-68 | the nested for-else loop returns exactly the core list and the shell list of H, in H's order |
| CoreShell.CoreShellMembership | mappertools/features/core.py:59-66 | a node of H is in core iff every neighbour lies in H, and in shell iff some neighbour lies outside H |
| CoreShell.CoreShellCover | mappertools/features/core.py:57-68 | core and shell together hold every element of H exactly as often as H does (multiset equality) |
| CoreShell.CoreShellOrder | mappertools/features/core.py:59-66 | both lists are subsequences of H, so H's order is kept |
| CoreShell.CoreShellDisjoint | mappertools/features/flare_balls.py:8-20 | for H without duplicates, neither list repeats a node and no node is both core and shell |
| CoreShell.IsolatedIsCore | mappertools/features/core.py:60-66 | a node of H without neighbours is core and not shell (the for-else branch) |
| CoreShell.FullSubsetHasNoShell | mappertools/tests/test_flare_balls.py:21-27 | with H the whole node list, shell is empty and core is every node |
| CoreShell.PathGraphCoreShell | mappertools/tests/test_flare_balls.py:11-18 | on the path 0-1-2-3-4 with H = {0, 1, 2}, core is [0, 1] and shell is [2] |
| Components.Closure | mappertools/features/flare_balls.py:44 | the closure contains its seeds, stays inside the node set and is closed under neighbours there |
| Components.ReachIffClosure | mappertools/features/flare_balls.py:44 | y lies in the closure of {x} iff a walk inside the node set joins x to y |
| Components.SameComponentIffConnected | mappertools/features/flare_balls.py:44 | for a member x of a component, y is in that component iff a walk inside the core joins x and y |
| Components.ComponentsPartition | mappertools/features/flare_balls.py:44 | every core node lies in some component, and any two components are disjoint |
| Components.ComponentsWithin | mappertools/features/flare_balls.py:44 | every component is non-empty and made of core nodes |
| ShortestPaths.DistanceSound | mappertools/features/flare_balls.py:41-42 | a reached node's distance is the weight of some walk to it from a shell node inside the subgraph |
| ShortestPaths.DistanceOptimal | mappertools/features/flare_balls.py:41-42 | the end of any walk from the shell is reached, and its distance is at most that walk's weight |
| ShortestPaths.DistanceIsShortest | mappertools/features/flare_balls.py:41-42 | a node is reached iff a walk from the shell reaches it, and its distance is a walk weight no larger than any other walk's |
| ShortestPaths.SourceAtZero | mappertools/features/flare_balls.py:41-42 | every shell node is at distance 0 |
| FlareBalls.MemberDistances | mappertools/features/flare_balls.py:39-42 | with an empty shell the distance table stays empty |
| FlareBalls.ComponentValue | mappertools/features/flare_balls.py:45-52 | the value is +∞ iff some node of the component has no distance; otherwise it is attained by a node and bounds every node's distance |
| FlareBalls.ComputeComponentValue | mappertools/features/flare_balls.py:45-52 | the running maximum with early break equals ComponentValue, whatever order the set is visited in |
| FlareBalls.ComputeFlareness | mappertools/features/flare_balls.py:26-53 | the method returns FlarenessOf: None without member nodes, else one entry per core component in component order |
| FlareBalls.ComputeComponentValues | mappertools/features/flare_balls.py:43-52 | the outer loop over the components gives, in component order, exactly one ComponentValue each |
| FlareBalls.FlarenessNotFound | mappertools/features/flare_balls.py:26-31 | the result is None iff no graph node holds the entity |
| FlareBalls.FlarenessLength | mappertools/features/flare_balls.py:44-53 | there is one entry per connected component of the core, and an empty core gives [] |
| FlareBalls.DistanceIffReachable | mappertools/features/flare_balls.py:38-42 | a member node has a distance iff a walk inside the entity's subgraph reaches it from the shell |
| FlareBalls.FlarenessEntry | mappertools/features/flare_balls.py:45-52 | entry k is +∞ iff some node of component k is unreachable from the shell; a finite entry is the largest shortest distance over the component |
| FlareBalls.EmptyShellAllInfinite | mappertools/features/flare_balls.py:39-42 | with an empty shell every entry is +∞ |
| FlareBallsExamples.LineHolders | mappertools/features/flare_balls.py:4-5 | on the line, the nodes among the first k that hold the entity of nodes 1 up are all of them when node 0 holds it too, and all but node 0 otherwise, in node order |
| FlareBallsExamples.LineCoreShell | mappertools/features/core.py:57-68 | on a line cut at 2 or beyond, with H the nodes from 1 the core is the nodes from 2 and the shell [1]; with H every node the core is every node and the shell empty |
| FlareBallsExamples.LineComponents | mappertools/features/flare_balls.py:44 | the core of a cut line has one component below the cut and, when the cut is inside, one from the cut up |
| FlareBallsExamples.LineDistanceBelow | mappertools/features/flare_balls.py:41-42 | a node below the cut is reached from the shell node 1, within its position minus one |
| FlareBallsExamples.LineDistanceAbove | mappertools/features/flare_balls.py:41-42 | a reached node lies below the cut, at least its position minus one away |
| FlareBallsExamples.LineFlareness | mappertools/features/flare_balls.py:26-53 | on a line cut before node cut (3 ≤ cut ≤ n) where only node 0 lacks the entity, the result is [cut − 2], followed by +∞ when the cut is inside |
| FlareBallsExamples.LineIsland | mappertools/features/flare_balls.py:26-53 | on such a line where every node holds the entity, the result is [+∞], or [+∞, +∞] when the cut is inside |
| FlareBallsExamples.LineGraphFlareness | mappertools/features/flare_balls.py:26-53 | the line graph itself is a valid graph and gives the flare result above |
| FlareBallsExamples.LineGraphIsland | mappertools/features/flare_balls.py:26-53 | the line graph itself is a valid graph and gives the island result above |
| FlareBallsExamples.FlarenessPath | mappertools/tests/test_flare_balls.py:44-59 | path_graph(6) with node 0 holding 'bar' and the rest 'foo': the result for 'foo' is [4] |
| FlareBallsExamples.FlarenessIsland | mappertools/tests/test_flare_balls.py:61-68 | path_graph(6) with every node holding 'foo': the result is [+∞] |
| FlareBallsExamples.FlarenessFlareAndIsland | mappertools/tests/test_flare_balls.py:71-80 | path_graph(6) beside path_graph(4), node 0 holding 'bar': the result is [4, +∞], two entries forming the set {4, +∞} |
| FlareBalls.HasIsland | mappertools/features/flare_balls.py:72-73 | true iff some entry is +∞ |
| FlareBalls.HasFlare | mappertools/features/flare_balls.py:75-76 | true iff some entry is finite |
| FlareBalls.IsPureIsland | mappertools/features/flare_balls.py:78-79 | true iff the list is non-empty and has no finite entry |
| FlareBalls.AllInfinite | mappertools/features/flare_balls.py:79 | true iff every entry is +∞ (true on the empty list, as numpy's alltrue) |
| FlareBalls.OutcomeOfFlareness | mappertools/features/flare_balls.py:60-67 | the outcome of compute_flareness's result (None, empty or non-empty) is read off the graph: no member nodes, an empty core, or a non-empty core |
| FlareBalls.WithOutcomeMembers | mappertools/features/flare_balls.py:60-67 | an entity is listed under an outcome iff it is one of the members and has that outcome |
| FlareBalls.WithOutcomeOrder | mappertools/features/flare_balls.py:62-65 | each outcome list keeps the order of the members |
| FlareBalls.FirstSeen | mappertools/features/flare_balls.py:59-67 | the dictionary keys are the entities of the list, each once (order of first insertion) |
| FlareBalls.ComputeAllFlareness | mappertools/features/flare_balls.py:56-69 | not_found and not_flare_nor_island are the members with those outcomes, in order with repeats; the dictionary holds exactly the members whose result is non-empty, each mapped to its result |
| FlareBalls.ClassOf | mappertools/features/flare_balls.py:88-95 | pure island iff non-empty and all +∞; both iff some finite and some +∞; flare iff non-empty and all finite; unclassified iff empty |
| FlareBalls.WithClassMembers | mappertools/features/flare_balls.py:88-95 | an entity is listed under a class iff it is a dictionary key whose entry has that class |
| FlareBalls.WithClassOrder | mappertools/features/flare_balls.py:88-95 | each class list keeps the dictionary order |
| FlareBalls.MaxFinite | mappertools/features/flare_balls.py:97 | the sort key bounds every finite entry and is one of them when one exists |
| FlareBalls.ClassifyFlareness | mappertools/features/flare_balls.py:85-97 | pure_island and both are the class lists in dictionary order; flare is the flare-only list sorted by largest entry |
| FlareBalls.ReportPartition | mappertools/features/flare_balls.py:88-97 | an entity with a non-empty entry ends in exactly one of pure_island, both and the sorted flare list |
| Sorting.SortBy | mappertools/features/flare_balls.py:97 | the result is sorted by the key and is a permutation of the input |
| Sorting.Insert | mappertools/features/flare_balls.py:97 | inserting into a sorted list keeps it sorted and adds exactly that element |
| Sorting.InsertStable | mappertools/features/flare_balls.py:97 | the inserted element goes in front of the entries of its own key, whose order is kept |
| Sorting.SortByStable | mappertools/features/flare_tree.py:68 | the entries of any one key keep their relative order, as Python's sort is stable |
| Sorting.SortByUniform | mappertools/features/flare_tree.py:68 | a list whose keys are all equal is left as it is |
| FlareTree.Forest.constructor | mappertools/features/flare_tree.py:67 | an empty forest with no roots |
| FlareTree.Forest.Iter | mappertools/features/flare_tree.py:32-36 | the iteration yields only trees of the arena |
| FlareTree.Forest.IterMembers | mappertools/features/flare_tree.py:32-36 | a tree is yielded iff it lies below the iterated tree |
| FlareTree.Forest.IterDistinct | mappertools/features/flare_tree.py:32-36 | the iteration starts with the tree itself and yields every tree at most once |
| FlareTree.Forest.Contains | mappertools/features/flare_tree.py:38-41 | true iff some flare of a tree below holds the node |
| FlareTree.Forest.Intersects | mappertools/features/flare_tree.py:43-46 | true iff some item lies in the tree |
| FlareTree.Forest.AddSubtree | mappertools/features/flare_tree.py:48-53 | raises iff the tree already has a parent, changing nothing then; otherwise it sets the parent and appends the child, nothing else changing |
| FlareTree.Forest.NewTree | mappertools/features/flare_tree.py:76-77 | appends a root tree whose flare holds only the node, with birth (value, node) and no death |
| FlareTree.Forest.Candidates | mappertools/features/flare_tree.py:72 | the candidates are the root trees that touch one of the neighbours, in root order |
| FlareTree.Forest.Elder | mappertools/features/flare_tree.py:79 | Python's min: the first candidate of least birth value, whose birth is at most every candidate's |
| FlareTree.Forest.FirstIsOldest | mappertools/features/flare_tree.py:79 | when births grow with the index, the first ascending candidate has the least birth |
| FlareTree.Forest.Absorb | mappertools/features/flare_tree.py:81-84 | the tree leaves the roots, gets the death stamp and becomes the elder's child; nothing else changes |
| FlareTree.Forest.Merge | mappertools/features/flare_tree.py:80-84 | every candidate but the elder dies at the stamp and is adopted by the elder; the roots lose exactly those |
| FlareTree.Forest.Grow | mappertools/features/flare_tree.py:85 | the elder's node set gains the node; the links and roots are unchanged |
| FlareTree.Forest.Birth | mappertools/features/flare_tree.py:74-77 | appends a flare holding only the node, born at (value, node) and alive; its tree gets no parent and no children and becomes a root; the new index is returned |
| FlareTree.Forest.Absorption | mappertools/features/flare_tree.py:78-85 | the elder is the first candidate; the others die at (value, node) and become its children, and the elder takes the node |
| FlareTree.Forest.Step | mappertools/features/flare_tree.py:70-85 | candidates are the root trees touching the lower neighbours; with none, the arena grows by one root tree as in Birth; otherwise the other candidates die at (value, node) and become the first candidate's children, it takes the node, and the roots lose exactly them |
| FlareTree.Forest.SweptTouching | mappertools/features/flare_tree.py:70-74 | during the sweep, no root tree touches the node's lower neighbours iff none of its neighbours was swept before it |
| FlareTree.Forest.Visit | mappertools/features/flare_tree.py:69-85 | one node keeps the sweep invariant and extends the tally: the flares are born, in sweep order, exactly at the swept nodes none of whose neighbours was swept earlier, and every death is stamped at a swept node that is not a birth node, with its centrality |
| FlareTree.Forest.Advance | mappertools/features/flare_tree.py:68-85 | one loop iteration extends the swept prefix of the order by its next node and keeps the tally |
| FlareTree.Forest.AliveIffRoot | mappertools/features/flare_tree.py:81-84 | a flare has no death iff its tree is still a root |
| FlareTree.Forest.Sweep | mappertools/features/flare_tree.py:68-88 | succeeds iff every lookup succeeds; then the flares partition the nodes, no death precedes its birth, a flare is alive iff its tree is a root, and the tally holds for the whole order (a flare per birth node, in order, deaths at swept non-birth nodes) |
| FlareTree.Forest.UnpackFlares | mappertools/features/flare_tree.py:60-61 | the flares of all trees of all roots: as many as were born, each flare listed |
| FlareTree.Forest.UnpackKeeps | mappertools/features/flare_tree.py:60-61 | unpacking keeps the partition of the nodes and the death bounds |
| FlareTree.Forest.FirstUnpackedAlive | mappertools/features/flare_tree.py:60-61 | the first unpacked flare is a root's own flare, so it is alive |
| FlareTree.Forest.Reported | mappertools/features/flare_tree.py:60-61 | the unpacked list partitions the nodes with no early death, has one flare per birth node, each birth node starting one of them, every death stamped at a swept non-birth node, and its first flare alive |
| FlareTree.BirthNodeAt | mappertools/features/flare_tree.py:72-77 | a node none of whose neighbours comes earlier in the order is a birth node |
| FlareTree.BirthNodeIsolated | mappertools/features/flare_tree.py:72-77 | every birth node sits at a position of the order where none of its neighbours came earlier |
| FlareTree.BirthNodesDistinct | mappertools/features/flare_tree.py:68 | an order without repeats has birth nodes without repeats |
| FlareTree.TallyBirth | mappertools/features/flare_tree.py:74-77 | a birth at a node with no earlier neighbour extends the tally by the new flare |
| FlareTree.TallyMerge | mappertools/features/flare_tree.py:78-85 | a merge at a node with an earlier neighbour, keeping every birth and stamping some deaths (value, node), extends the tally |
| FlareTree.TallyReordered | mappertools/features/flare_tree.py:60-61 | any listing that covers every flare keeps the count, the birth nodes and the death stamps |
| FlareTree.SweepOrder | mappertools/features/flare_tree.py:68 | every node once, in ascending centrality |
| FlareTree.LowerNeighbors | mappertools/features/flare_tree.py:70 | exactly the neighbours whose centrality is at most the node's |
| FlareTree.FlareDetect | mappertools/features/flare_tree.py:64-90 | fails iff some centrality or adjacency lookup fails; otherwise the flares split the nodes, none dying below its birth; there is one flare per birth node (a node none of whose neighbours comes earlier in the sweep), each birth node starts one, every death is stamped at a swept non-birth node with its centrality, and the first flare is alive |
| FlareTree.SweepOrderSorted | mappertools/features/flare_tree.py:68 | the sweep order is sorted by centrality |
| FlareTree.UniformPathFlares | mappertools/tests/test_flare_tree.py:6-13 | on path_graph(n) with one centrality for all, every lookup succeeds, the sweep keeps node order, there is exactly one birth node, and a single flare splitting the nodes holds all n of them (n = 10 in the test) |
| FlareTree.PeakedBirths | mappertools/features/flare_tree.py:68-77 | on a path whose centrality climbs strictly from both ends to the middle, exactly two nodes are born |
| FlareTree.PeakedPathBirth | mappertools/features/flare_tree.py:68-77 | on such a path, a node is born iff it is one of the two ends |
| FlareTree.HarmonicPathFlares | mappertools/tests/test_flare_tree.py:15-18 | with the harmonic centrality of path_graph(n), n ≥ 3, every lookup succeeds and exactly two nodes are born (n = 10 in the test) |
| FlareTree.HubBirths | mappertools/features/flare_tree.py:68-77 | on a star with n leaves whose hub is strictly more central than every leaf, exactly n nodes are born |
| FlareTree.HubStarBirth | mappertools/features/flare_tree.py:68-77 | on such a star, a node is born iff it is a leaf |
| FlareTree.HarmonicStarFlares | mappertools/tests/test_flare_tree.py:20-26 | with the harmonic centrality of star_graph(n), n ≥ 2, every lookup succeeds and exactly n nodes are born (n = 10 in the test) |
| Flares.Flare.constructor | mappertools/features/flares.py:7-16 | nodes {node}, the given birth, no death, originator node, no terminator, not finished |
| Flares.Flare.Terminate | mappertools/features/flares.py:18-21 | sets death, terminator and finished and keeps the nodes, birth and originator |
| Flares.Births | mappertools/features/flares.py:29-30 | the births of the candidates, in candidate order |
| Flares.FindElderFlare | mappertools/features/flares.py:25-33 | None iff every candidate's birth is +∞ (so also with no candidates); otherwise the first candidate holding the strict minimum |
| Clustering.Width | mappertools/mapper/clustering.py:71 | the padding width w is the least with n ≤ 10^w, which is ⌈log10 n⌉ |
| Clustering.ParseDecimalOf | mappertools/mapper/clustering.py:71 | the numeral of a cluster number reads back as that number |
| Clustering.LabelsDistinct | mappertools/mapper/clustering.py:70-71 | equal labels within one clustering mean equal cluster numbers |
| Clustering.LabelWidth | mappertools/mapper/clustering.py:70-71 | with two or more clusters every label is the prefix, an underscore when the prefix is non-empty, and exactly Width(n) digits |
| Clustering.ClustersToLabels | mappertools/mapper/clustering.py:67-80 | fails iff some entry is not a valid Python index into the labels; else one label per entry, each the label of the last cluster holding that slot or "none" |
| Clustering.LastHoldingIs | mappertools/mapper/clustering.py:75-78 | the last cluster holding a slot is the one whose label the slot keeps |
| Clustering.SharedLabel | mappertools/tests/test_clustering.py:8-15 | every slot of a cluster that no later cluster holds gets that cluster's label |
| Clustering.UnassignedLabel | mappertools/mapper/clustering.py:74 | a slot no cluster holds keeps "none" |
| Graphs.PySlot | mappertools/mapper/clustering.py:78 | Python list indexing: defined iff -n ≤ i < n, and then a slot below n |
| Hierarchical.ClusterNumberToThreshold | mappertools/mapper/hierarchical_clustering.py:13-18 | None exactly when the distances go down somewhere (the AssertionError) or k ≤ −len (the IndexError); otherwise for 1 ≤ k ≤ len the k-th distance from the end, for −len < k ≤ 0 the distance at index −k as Python's negative indexing gives it, and for k > len −∞ |
| Hierarchical.ThresholdOfReversed | mappertools/tests/test_hierarchical_clustering.py:29-33 | asking for i + 1 clusters gives the i-th distance of the reversed list |
| Hierarchical.ThresholdMonotone | mappertools/mapper/hierarchical_clustering.py:15-18 | on non-decreasing distances, more clusters never need a higher threshold |
| Hierarchical.DescendingUniqueSpec | mappertools/mapper/hierarchical_clustering.py:114 | the visited thresholds are the distinct merge distances, strictly descending |
| Hierarchical.InsertDescendingSpec | mappertools/mapper/hierarchical_clustering.py:114 | inserting keeps a list strictly descending and adds exactly that value |
| Hierarchical.CountOnes | mappertools/mapper/hierarchical_clustering.py:112 | the default labelling has one cluster |
| Hierarchical.AcceptedBounds | mappertools/mapper/hierarchical_clustering.py:116-120 | every scored threshold is visited and cuts into between 2 and min(k_max, N - 1) clusters |
| Hierarchical.AcceptedStops | mappertools/mapper/hierarchical_clustering.py:119-120 | nothing at or after the first threshold with too many clusters is scored |
| Hierarchical.Scores | mappertools/mapper/hierarchical_clustering.py:121 | one statistic per scored threshold, of its labelling |
| Hierarchical.Keep | mappertools/mapper/hierarchical_clustering.py:122-124 | replaces the best only on a strict decrease and keeps the scan state |
| Hierarchical.Search | mappertools/mapper/hierarchical_clustering.py:111-126 | k counts the returned labels; the default when nothing was kept, else the labelling at the first strict minimum of the scores |
| Hierarchical.StatisticHeuristic | mappertools/mapper/hierarchical_clustering.py:108-126 | k counts the labels; all-ones with k = 1 when no score is finite; otherwise the labelling of the first least-scoring threshold |
| TextDump.SelectSpec | mappertools/outputs/text_dump.py:258 | the selected list has no repeats and holds exactly the list's elements in the set |
| TextDump.CleanGraph | mappertools/outputs/text_dump.py:245-260 | kept nodes are exactly those with at least the minimum of members; deleted keys leave the links; a surviving list holds, once each, its targets minus the deleted clusters |
| TextDump.CleanKeepsLinksClosed | mappertools/outputs/text_dump.py:254-258 | if links only name clusters before cleaning, they do so after |
| TextDump.CleanEmptiedLinks | mappertools/text_dump.py:95-96 | a surviving key whose targets were all deleted stays, with an empty list |
| TextDump.CleanIdempotent | mappertools/text_dump.py:83-98 | nothing is left to delete, and cleaning again keeps the nodes, link keys and link target sets |
| TextDump.IntListRoundTrip | mappertools/outputs/text_dump.py:115 | writing a list of integers as a value and reading it back give the list, both ways |
| TextDump.Annotate | mappertools/outputs/text_dump.py:29-35 | annotation keeps the membership attribute |
| TextDump.AnnotateKeys | mappertools/outputs/text_dump.py:29-35 | the annotated dictionary has the original keys plus the extra-data keys |
| TextDump.AnnotateWritten | mappertools/outputs/text_dump.py:30-35 | each key holds its transform (identity when none) of the members' data in membership order |
| TextDump.AnnotateUntouched | mappertools/outputs/text_dump.py:34-35 | attributes that are not extra-data keys keep their values |
| TextDump.AnnotateStep | mappertools/outputs/text_dump.py:29-35 | one more key is one more pass over the dictionaries |
| TextDump.NxGraph.constructor | mappertools/outputs/text_dump.py:17-19 | a graph with the given node and edge dictionaries |
| TextDump.NxGraph.PutNodes | mappertools/outputs/text_dump.py:34-35 | every node's dictionary gets the key set from its members' data; edges unchanged |
| TextDump.NxGraph.AppendNodeMemberData | mappertools/outputs/text_dump.py:15-37 | fails iff some node has a member index missing from some data map (Python's KeyError); on success every node's dictionary becomes its annotation by all extra-data keys; the set of nodes and the edges are unchanged either way |
| TextDump.NxGraph.PutEdges | mappertools/outputs/text_dump.py:83-84 | every edge's dictionary gets the key set from its members' data; nodes unchanged |
| TextDump.NxGraph.AppendEdgeMemberData | mappertools/outputs/text_dump.py:64-86 | fails iff some edge has a member index missing from some data map (Python's KeyError); on success every edge's dictionary becomes its annotation by all extra-data keys; the set of edges and the nodes are unchanged either way |
| TextDump.NxGraph.AppendBasicData | mappertools/outputs/text_dump.py:111-125 | succeeds iff every edge's weight can be computed; then each edge holds its basic data and, with counts, each node its count |
| TextDump.EdgePass | mappertools/outputs/text_dump.py:112-120 | succeeds iff every edge's step succeeds, and then each edge holds its step's result; the key set is kept |
| TextDump.CountNodes | mappertools/outputs/text_dump.py:123-125 | each node gets count set to the length of its membership |
| TextDump.EdgeBasicFacts | mappertools/outputs/text_dump.py:113-120 | with counts and weights, edge membership is the intersection once each, count its size, weight count / union size in [0, 1]; weights without counts or a numeric count fail |
| TextDump.RatioAtMostOne | mappertools/outputs/text_dump.py:120 | an intersection count over a positive union size lies in [0, 1] |
| TextDump.FixtureNodeData | mappertools/tests/test_nxmapper.py:20-28 | without transforms the two fixture nodes hold their members' colours and days, in membership order |
| TextDump.FixtureFirstNodeTransformed | mappertools/tests/test_nxmapper.py:31-40 | with the join and min transforms node 1 holds "redgreenblack" and 10 |
| TextDump.FixtureSecondNodeTransformed | mappertools/tests/test_nxmapper.py:31-40 | with the join and min transforms node 2 holds "greenblueblack" and 20 |

## Left out

- Printing (`print` in `compute_flareness`, `flare_detect` and `flareness_report`, and `print_all`): output only; it changes no state the model keeps.
- `flare_detect` in features/flares.py: it unpacks `enumerate` the wrong way round, so it raises once a flare exists. The flare record and `find_elder_flare` are modelled.
- `nxmapper_append_centrality_flare_numbers` and the `cen_flares` branch of `nxmapper_append_basic_data`: they call networkx centralities and pass a `prune_threshold` argument that `flare_detect` does not accept.
- `isinstance(centrality, str)` in `flare_detect`: the centrality is always given as a map.
- The `children` argument of the `FlareTree` constructor: that path leaves `children` unset. Only the default path is modelled.
- networkx's `path_graph`, `star_graph`, `disjoint_union` and `harmonic_centrality`, used by the tests: they are not part of this model. The test graphs and centralities are written out from their definitions instead (`FlareTree.PathGraph`, `FlareTree.StarGraph`, `FlareTree.PathHarmonic`, `FlareTree.StarHarmonic`, `FlareBallsExamples.Line`); the nodes' `unique_members` lists are sets there.
- FlareTree.HarmonicPathFlares, FlareTree.HarmonicStarFlares: they state how many flares `flare_detect` returns (via the birth nodes of FlareDetect's contract), as the tests do, and not which nodes each flare holds.
- Python set iteration order:
  - root trees are iterated in creation order, so the elder is the first oldest candidate;
  - a core component is iterated in any order (`ComputeComponentValue` is proved for every order);
  - a cleaned link list and an edge membership are listed in first-occurrence order (`Select`).
- FlareBalls.ComputeFlareness: the member nodes are taken in graph order, while Python takes the iteration order of `set(...)`. Only the order of the entries depends on it, not the value of each component's entry.
- ShortestPaths: edge weights are natural numbers given as a function of the two endpoints. Float weights and networkx's edge-data argument are not modelled.
- Components.Closure: a reference definition of `connected_components`; component order is the order of each component's first core node, which networkx leaves to its own iteration order.
- Clustering.Width: the width is the integer ⌈log10 n⌉. Python computes it with floating-point `math.log`, which can differ at exact powers of ten.
- Clustering.ClustersToLabels: requires the prefix to hold no `{` or `}`, since `str.format` would read those as fields of its own.
- Hierarchical.StatisticHeuristic: `k_max` is an integer (not None or infinity); the statistic returns a real or +∞ (NaN is not modelled); `fcluster` and the statistic are parameters.
- TextDump.Gather: a data map is a map from integer indices. Negative list indices into a data list are not modelled.
- TextDump.NxGraph.AppendNodeMemberData: an extra-data key named `membership` is excluded, since overwriting it would change the later passes. Every node must carry a membership list of integers (a missing one makes Python iterate None).
- TextDump.NxGraph.AppendNodeMemberData, TextDump.NxGraph.AppendEdgeMemberData: on failure they state nothing about the dictionaries beyond their keys. Python leaves the earlier keys, and the nodes or edges visited before the missing index, already updated.
- TextDump.NxGraph.AppendEdgeMemberData: every edge must carry a membership list of integers, as `nxmapper_append_basic_data` writes it.
- TextDump.NxGraph.AppendBasicData: on failure it states nothing about the dictionaries. Python leaves the edges before the failing one updated; EdgePass returns that partial map, but the method does not promise it.
- The deep copy in `kmapper_clean_graph`: the graph is a value, so the input cannot change.
