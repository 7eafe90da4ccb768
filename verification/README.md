# CiteDelta, verified

A Dafny model of the parts of CiteDelta that have to be right: the HNSW graph index, the durable
job queue and the ingestion it drives, the inverted index, and the exact scan, IVF, post-filter and
rank fusion around them. `dafny verify dfyconfig.toml` checks all of it.

Code that changes things step by step is written as methods and classes with loops; each is proved
against a function or relation on values, and the promises are lemmas about those. Distances and
scores are exact reals, arbitrary functions of the rows; dates and clock instants are integers.

| module | what it holds |
|---|---|
| Seqs, Heaps, Graphs | lists without repetition, `heapq` on pairs, layers as adjacency maps and their paths |
| LayerSearch, Descent, HnswSearch | best-first search of one layer, the descent, what a search guarantees |
| Neighbours, Wiring, HnswInsert, Orphans | neighbour selection, reverse links with pruning and orphan protection, insertion, a run that orphans a node |
| UnionFind, Repair | path halving, components, closest-pair bridges |
| Csr, Hnsw | persistence, and the index object |
| Nearest, Brute, Ivf, Strategies, PostFilterTies | the k nearest as a relation, the exact scan, IVF-Flat, post-filtering |
| Queue, QueueRuns, QueueSafety | the jobs table and its statements, every interleaving of them, what no interleaving breaks |
| Timeline, Corpus, Ingest, IngestRuns, Planning | validity intervals, the corpus tables, the snapshot handler, convergence, the plan |
| IngestSystem, Fleet, PlannedRuns | queue and corpus together, the worker loops as steps of many slots, and both from the plan on |
| Varint, Inverted, LexicalFile, LexicalIndex | LEB128, inversion, the file format, its writer and reader |
| Bm25, Bm25Laws | ranking, and what moves a score |
| Fusion, CloseSums, Hybrid, Retrieve | reciprocal rank fusion, how close two sums can be, two lists and the gate, hybrid search |
| EndToEnd | builds, files and searches run one after the other, against the exact scan or the documents |

## Main results

- Every sequence of insertions keeps every layer symmetric, simple, nested and within budget; repair
  then connects layer 0 with exactly (components - 1) closest-pair bridges; a search at full effort
  answers the filtered exact scan's distances, from any entry point.
- The layer search is deterministic in the neighbour lists, so a loaded index answers exactly as the
  saved one, at any effort.
- Over every interleaving of claims, expiries, heartbeats, crashes, nacks, reaps and requeues, tokens
  are issued once and never before a job is due, stale tokens change nothing, each job is acked at most
  once, and claims are counted.
- From the records on, a fleet of workers, with slots dying at any statement, leaves the corpus a
  sequential run of the plan leaves, with no version ever lacking its chunks. It takes that snapshots
  agree on a section's text throughout one interval (`IngestRuns.SnapshotsAgree`), and tables into which
  the plan's jobs can commit (`IngestRuns.Compatible`, which `IngestRuns.AllCommitExactly` shows is
  exactly that).
- The first pass of neighbour selection keeps a candidate exactly when no node kept before it is nearer to
  it than the base (`Neighbours.FirstPassExactly`).
- For any strictly monotone logarithm the rarer of two terms scores more, and for one positive above 1 a
  score rises with the count of a term and falls with the length of the document (`Bm25Laws`).
- Opening what `build_index` wrote gives back every id, length, term, frequency and postings list;
  filtered search is the unfiltered ranking restricted, with index-free BM25 scores.
- IVF at full probe equals the exact scan; two searches of one index with more probes never answer
  farther, filtered or when no tied centroid distance spans the two cuts.
- Fusion is the sum over names of best ranks in any order of the lists; flooring is faithful to two lists
  exactly up to length 972; agreement beats one list exactly up to 61 candidates; the gate passes
  exactly on agreement, two ranks r and s with (r + 10)(s + 10) <= 2500, at any number of candidates.

## Where the code and its words differ

- `packages/citedelta/src/citedelta/index/hnsw.py:245-246` says orphan protection keeps every node at
  degree 1 or more. It does unless all members of the full list hang on that neighbour alone
  (`Wiring.OrphanedExactlyWhen`), which inserting rows of unit length reaches for every m
  (`Orphans.InsertUntilOrphaned`, and every such run by `Orphans.RunOrphans`);
  the repair pass reconnects such nodes (`Orphans.ConnectedLeavesNone`).
- `packages/citedelta/src/citedelta/answer/gate.py:14-21` reads the threshold as one confident retriever
  or two mildly positive ones. One retriever alone scores at most 1/61, below 0.02, and never passes
  (`Hybrid.FortyIsEnough`, `Hybrid.GateExactly`).
- `packages/citedelta/src/citedelta/fusion.py:69-71` says flooring never merges two distinct sums. It
  can: two lists first at rank 973 (`Hybrid.TwoListsMerge`, `Hybrid.OrdersExactlyUpTo972`), one list first
  at rank 1000941 (`Hybrid.SeparatesExactlyUpTo`).
- A larger over-fetch can answer less when rows tie at the cut and `np.argpartition`, whose documentation
  leaves the order of equal elements undefined, takes others of them (`PostFilterTies.CanBeShorter`);
  `PostFilterTies.LargerFetchNeverShorter` says exactly when no such choice can.
- `packages/citedelta/src/citedelta/index/lexical.py:144` writes lengths as 32-bit unsigned numbers, but
  opening narrows them to int32 and ids to int64: files past 2^31 or 2^63 are written and do not open
  (`LexicalIndex.OpenOfBuild`, example `LexicalIndex.LargeIdDoesNotOpen`).
- `packages/citedelta/src/citedelta/ecfr/timeline.py:28` keeps the first of records with equal dates, so
  the removed flag, unlike the dates, depends on record order exactly when records of the earliest issue
  date disagree on it (`Timeline.FlagFixedExactlyWhen`, `Timeline.TimelineFixedExactlyWhen`).
- `packages/citedelta/src/citedelta/fusion.py:36-41` takes any damping constant; a negative one divides by
  zero on some lists and raises (`Fusion.ReciprocalRankFusion` says which, example
  `Fusion.NegativeDampingRaises`).
- `packages/citedelta/src/citedelta/store/corpus.py:160-166` makes re-running ingestion a no-op for what is
  there, and so keeps an open-ended version open-ended after its section was amended: the date of the
  amendment then overlaps it and raises at every attempt (`IngestRuns.ShadowedForGood`,
  `IngestSystem.ShadowedNeverCommits`).

## Model

| member | source | states |
|---|---|---|
| `LayerSearch.SearchLayer` | packages/citedelta/src/citedelta/index/hnsw.py:98-175 | answers exactly the ef best admissible nodes of everything visited, follows edges only, terminates; unless the budget stopped it every node seen but not expanded is beaten by a full answer; visits stay below budget plus the largest degree; the answer is the one the neighbour lists determine |
| `LayerSearch.Turn` | packages/citedelta/src/citedelta/index/hnsw.py:147-172 | one turn of the loop keeps the frontier (every node seen is expanded, waiting or beaten) and is the turn the neighbour lists determine |
| `LayerSearch.Meet` | packages/citedelta/src/citedelta/index/hnsw.py:158-169 | the inner loop over unvisited neighbours keeps the results the ef best admissible seen and loses no candidate that could still matter |
| `LayerSearch.Seed` | packages/citedelta/src/citedelta/index/hnsw.py:129-142 | entry points seed the candidates, the admissible ones alone the results |
| `LayerSearch.OfferKeeps` | packages/citedelta/src/citedelta/index/hnsw.py:166-169 | push and pop-on-overflow keeps the ef best and forgets only what ef held answers beat |
| `LayerSearch.StopKeeps` | packages/citedelta/src/citedelta/index/hnsw.py:149-150 | when the nearest candidate is further than the worst of ef answers, so is every candidate: stopping loses nothing |
| `LayerSearch.StopsExactly` | packages/citedelta/src/citedelta/index/hnsw.py:147-158 | left before a candidate strictly farther than the worst of ef answers, and then unchanged; at any other the neighbours are visited |
| `LayerSearch.MeetsExactly` | packages/citedelta/src/citedelta/index/hnsw.py:158-169 | a neighbour no nearer than the worst of ef answers is skipped; any other is pushed and, if admissible, answers, in place of the worst of ef |
| `LayerSearch.HeapAnswers` | packages/citedelta/src/citedelta/index/hnsw.py:175-175 | the un-negated result heap lists min(ef, admissible seen) distinct nodes, none beaten by one left out |
| `LayerSearch.FindsOnce` | packages/citedelta/src/citedelta/index/hnsw.py:98-175 | the layer search is deterministic: layers with the same neighbour lists in the same order give the same list after the same visits |
| `HnswSearch.NoNearerNeighbour` | packages/citedelta/src/citedelta/index/hnsw.py:147-175 | at any ef: no admissible neighbour of a returned node is both missing and nearer than the worst returned |
| `HnswSearch.SeesEverything` | packages/citedelta/src/citedelta/index/hnsw.py:427-463 | with ef covering the admissible nodes and budget at least n - 1, layer 0 connected, every admissible node is seen, whatever the entry point |
| `HnswSearch.AnswersNearest` | packages/citedelta/src/citedelta/index/hnsw.py:467-474 | sorting by (distance, id) and cutting gives the k nearest admissible nodes seen |
| `HnswSearch.SearchGraph` | packages/citedelta/src/citedelta/index/hnsw.py:445-474 | the whole search: unfiltered descent, filtered bounded layer 0, sort and cut; the k nearest of what was seen, and of everything at full effort |
| `HnswSearch.SearchOnce` | packages/citedelta/src/citedelta/index/hnsw.py:427-474 | graphs with equal neighbour lists answer every search alike |
| `Descent.GreedyWalk` | packages/citedelta/src/citedelta/index/hnsw.py:339-340 | an unfiltered ef = 1 search never answers an empty list, and rests on a node no neighbour of which is nearer |
| `Descent.Descend` | packages/citedelta/src/citedelta/index/hnsw.py:458-459 | the express lanes end on a node that lives on the layer below, a local minimum of the last lane |
| `Descent.DescentOnce` | packages/citedelta/src/citedelta/index/hnsw.py:458-459 | the descent is determined by the neighbour lists |
| `Neighbours.SelectNeighbours` | packages/citedelta/src/citedelta/index/hnsw.py:177-203 | the two passes compute the selection function |
| `Neighbours.SelectionIsChoice` | packages/citedelta/src/citedelta/index/hnsw.py:177-203 | the selection has min(m, candidates) distinct candidates |
| `Neighbours.SelectionIsDiverse` | packages/citedelta/src/citedelta/index/hnsw.py:182-203 | no kept candidate is nearer to one kept before it than to the base (at the distances themselves); the backfill takes the nearest passed over |
| `Neighbours.FirstPassExactly` | packages/citedelta/src/citedelta/index/hnsw.py:182-191 | the first pass keeps a candidate exactly when there is room and no node kept of the nearer candidates is nearer to it than the base |
| `Neighbours.NearDuplicateSkipped` | packages/citedelta/src/citedelta/index/hnsw.py:188-203 | of three candidates at 0.1, 0.11 and 0.5, the first two 0.01 apart, the first and the third are selected |
| `Wiring.LinkBackKeeps` | packages/citedelta/src/citedelta/index/hnsw.py:352-404 | one round of reverse linking, pruning included, leaves exactly one edge fewer to reverse and keeps lists simple and within budget |
| `Wiring.CutKeeps` | packages/citedelta/src/citedelta/index/hnsw.py:355-394 | pruning an overfull list keeps budget-many distinct members of it, the inserted node always among them |
| `Wiring.CutSelects` | packages/citedelta/src/citedelta/index/hnsw.py:361-394 | it keeps the members selected by their distances to the neighbour, the new node in the last place if it was not one; others come in only if this is their one edge, for members that have another |
| `Wiring.LinksBack` | packages/citedelta/src/citedelta/index/hnsw.py:350-405 | with room the list only grows by the new node; a cut list is the pruned one, and exactly who was cut forgets the neighbour |
| `Wiring.OrphanedExactlyWhen` | packages/citedelta/src/citedelta/index/hnsw.py:374-404 | a cut strips some member of its last edge if and only if every member of the full list hangs on that neighbour alone; the new node never loses its edge |
| `Orphans.StarInsert` | packages/citedelta/src/citedelta/index/hnsw.py:322-404 | under any distances by which row 0 is nearest to the row inserted: a star of n leaves becomes one of n + 1 while the hub's list has room, and loses a leaf's only edge once it is full |
| `Orphans.RunOrphans` | packages/citedelta/src/citedelta/index/hnsw.py:245-246 | every run of 2m + 2 insertions with one candidate looked for, all levels 0 and row 0 nearest to all others, whatever its searches did, leaves a node without an edge |
| `Orphans.RowsAreApart` | packages/citedelta/src/citedelta/index/vector.py:85-94 | rows of unit length with exactly the distances of such a run: 2/5 to row 0 and 16/25 to each other |
| `Orphans.InsertUntilOrphaned` | packages/citedelta/src/citedelta/index/hnsw.py:245-246 | the index inserting those unit rows, for every m of 2 or more, ends with such a node: orphan protection alone does not keep degree 1 |
| `Orphans.ConnectedLeavesNone` | packages/citedelta/src/citedelta/index/hnsw.py:242-248 | after the repair no node of two or more is without an edge |
| `Wiring.WiredSound` | packages/citedelta/src/citedelta/index/hnsw.py:347-404 | wiring a node in keeps a layer symmetric, without self-loops or repeats, closed and within budget, and adds that node only |
| `Wiring.Wire` | packages/citedelta/src/citedelta/index/hnsw.py:347-404 | the loop over the neighbours computes the wiring function |
| `HnswInsert.InsertKeepsLayers` | packages/citedelta/src/citedelta/index/hnsw.py:322-414 | every insertion keeps: each edge reversed, no self-loop or repeat, endpoints on the layer, layer l holds exactly the nodes of level l or more, lists within m (2m on layer 0), entry on the top layer |
| `HnswInsert.LayersNested` | packages/citedelta/src/citedelta/index/hnsw.py:322-414 | every node of a layer is on the layer below |
| `HnswInsert.WiredFromAbove` | packages/citedelta/src/citedelta/index/hnsw.py:338-408 | each layer is searched with ef_construction from the nodes found above it, the topmost from the local minimum the descent ended on; the new node gets the selection of what was found, up to m, on layer 0 up to 2m |
| `HnswInsert.InsertNode` | packages/citedelta/src/citedelta/index/hnsw.py:322-414 | an insertion searches each layer from the answer above and wires in the selection of what it found; the entry moves exactly when the top level grows |
| `Hnsw.HnswIndex.Insert` | packages/citedelta/src/citedelta/index/hnsw.py:322-414 | the same on the fields of the index, whose invariant it keeps |
| `Hnsw.HnswIndex.InsertAll` | packages/citedelta/src/citedelta/index/hnsw.py:227-228 | the rows are inserted one after the other in the order of their numbers (the graph ends a run of such insertions), with the invariant intact |
| `UnionFind.Find` | packages/citedelta/src/citedelta/index/hnsw.py:265-269 | path halving terminates, returns the root, and changes no root |
| `UnionFind.Union` | packages/citedelta/src/citedelta/index/hnsw.py:271-274 | merges exactly the two classes |
| `UnionFind.UnionEdges` | packages/citedelta/src/citedelta/index/hnsw.py:276-278 | afterwards two nodes have one root exactly when a path links them |
| `UnionFind.GroupByRoot` | packages/citedelta/src/citedelta/index/hnsw.py:280-282 | groups every node under its root, once |
| `Repair.ClosestPair` | packages/citedelta/src/citedelta/index/hnsw.py:294-308 | the 512-row chunks find a closest pair between the component and the largest one |
| `Repair.BridgeAll` | packages/citedelta/src/citedelta/index/hnsw.py:291-313 | one closest-pair bridge a component, each keeping the layer symmetric and simple |
| `Repair.BridgedConnected` | packages/citedelta/src/citedelta/index/hnsw.py:291-313 | once each other component is bridged to the largest, the layer is connected |
| `Repair.RepairLayer` | packages/citedelta/src/citedelta/index/hnsw.py:258-313 | the layer ends connected and symmetric, with exactly (components - 1) bridges, each a closest pair to the largest component |
| `Hnsw.HnswIndex.RepairConnectivity` | packages/citedelta/src/citedelta/index/hnsw.py:242-320 | the same on the fields; upper layers untouched |
| `Hnsw.HnswIndex.Build` | packages/citedelta/src/citedelta/index/hnsw.py:207-240 | unequal lengths are refused and change nothing; otherwise the built index is layered, repaired and searchable |
| `Hnsw.HnswIndex.BuildLayers` | packages/citedelta/src/citedelta/index/hnsw.py:215-232 | from an empty graph a run of the insertions of all rows, then the repair of layer 0 |
| `Hnsw.HnswIndex.Search` | packages/citedelta/src/citedelta/index/hnsw.py:427-474 | k nearest of the nodes seen, in (distance, id) order, under their external ids; the layer-0 search runs at max(effort, k), at max(ef_search, k) when effort is missing or zero; of all admissible nodes at full effort; visit bound; determined by the graph |
| `EndToEnd.HnswAgainstScan` | packages/citedelta/tests/test_index_conformance.py:115-201 | built over the same rows, graph and exact scan answer the same distances, filtered or not, when effort (ef_search when it is missing or zero) or k reaches the admissible rows and the visit budget all rows |
| `Csr.SaveLayer` | packages/citedelta/src/citedelta/index/hnsw.py:509-517 | indptr and indices hold every node's list, in order |
| `Csr.LoadLayer` | packages/citedelta/src/citedelta/index/hnsw.py:538-546 | reads the rows back, dropping empty ones |
| `Csr.LoadOfSave` | packages/citedelta/src/citedelta/index/hnsw.py:509-546 | every node's neighbour list comes back in order; a dropped empty list reads as empty |
| `Hnsw.HnswIndex.Save` | packages/citedelta/src/citedelta/index/hnsw.py:490-523 | the archive holds every layer, with -1 for a missing entry |
| `Hnsw.HnswIndex.Load` | packages/citedelta/src/citedelta/index/hnsw.py:525-548 | the fields of a loaded index; the visit budget is the default |
| `Hnsw.SaveLoad` | packages/citedelta/src/citedelta/index/hnsw.py:490-548 | load of save: same neighbour lists, entry and top level, and still searchable |
| `EndToEnd.SaveThenLoad` | packages/citedelta/tests/test_index_conformance.py:137-159 | built, saved and loaded, an index with the default visit budget returns exactly the same hits for any query, effort and filter |
| `Nearest.GrowingPool` | packages/citedelta/src/citedelta/index/brute.py:52-97 | over a larger pool the i-th nearest distance can only shrink |
| `Nearest.SameDistances` | packages/citedelta/src/citedelta/index/brute.py:86-97 | the distance list of the k nearest is unique however ties are cut |
| `Nearest.HitsInOrder` | packages/citedelta/src/citedelta/index/brute.py:95-97 | hits come by distance, and at one distance by external id |
| `Brute.ArgPartition` | packages/citedelta/src/citedelta/index/brute.py:88-88 | some k positions with the k least keys |
| `Brute.PickedAdmissible` | packages/citedelta/src/citedelta/index/brute.py:77-88 | masking with infinity and cutting at the admissible count never picks an inadmissible row |
| `Brute.ScanAnswers` | packages/citedelta/src/citedelta/index/brute.py:75-97 | every hit is an admissible row under its id at its distance to the query, and no admissible row left out is nearer |
| `Strategies.KeptAlike` | packages/citedelta/src/citedelta/index/vector.py:97-112 | filtering hits by external id is filtering rows by the compiled mask, which is what makes filters independent of an index's row order |
| `Brute.Scan` | packages/citedelta/src/citedelta/index/brute.py:75-97 | the k nearest admissible rows, exactly, in (distance, id) order |
| `Brute.BruteForceIndex.Search` | packages/citedelta/src/citedelta/index/brute.py:52-97 | the same as a method of the index, with its empty cases |
| `Strategies.PostFilterSearch` | packages/citedelta/src/citedelta/bench/strategies.py:24-45 | the slice up to k of the admissible rows of an unfiltered fetch of max(k * overfetch, k), for any k |
| `Strategies.PostNearest` | packages/citedelta/src/citedelta/bench/strategies.py:24-45 | what it keeps are the nearest admissible rows, possibly fewer than k |
| `Strategies.PostFilterIsPrefix` | packages/citedelta/src/citedelta/bench/strategies.py:24-45 | its distance list is a prefix of the filtered scan's, and all of it once k * overfetch covers the corpus |
| `EndToEnd.PostFilterAgainstScan` | packages/citedelta/src/citedelta/bench/strategies.py:24-45 | beside the filtered scan on one index: a prefix of its distances, all of them at full fetch |
| `PostFilterTies.CanBeShorter` | packages/citedelta/src/citedelta/bench/strategies.py:44-45 | a larger over-fetch can answer less: three tied rows, k = 1 |
| `PostFilterTies.NeverShorterExactlyWhen` | packages/citedelta/src/citedelta/bench/strategies.py:44-45 | never shorter, however ties are taken, exactly when the cut moves outward or the tie counts at the common cut leave no way to keep fewer |
| `PostFilterTies.LargerFetchNeverShorter` | packages/citedelta/src/citedelta/bench/strategies.py:44-45 | the same for real fetches of any sizes f <= f': a larger fetch never answers less exactly when it covers the corpus, its last distance is greater, or the tie counts at that distance forbid it |
| `PostFilterTies.KeptBounds` | packages/citedelta/src/citedelta/bench/strategies.py:44-45 | how many a fetch keeps lies between two bounds computed from the counts at its cut |
| `PostFilterTies.MostReached` | packages/citedelta/src/citedelta/bench/strategies.py:44-45 | and the upper bound is reached by some tie choice |
| `PostFilterTies.FewestReached` | packages/citedelta/src/citedelta/bench/strategies.py:44-45 | as is the lower |
| `Ivf.Assign` | packages/citedelta/src/citedelta/index/kmeans.py:43-54 | every row labelled with a nearest centroid, batch by batch |
| `Ivf.ArgSortStable` | packages/citedelta/src/citedelta/index/ivf.py:111-111 | a permutation of the rows by label, ties in row order |
| `Ivf.SearchSorted` | packages/citedelta/src/citedelta/index/ivf.py:114-116 | the offsets where each label starts |
| `Ivf.SlicesPartition` | packages/citedelta/src/citedelta/index/ivf.py:108-116 | the slices partition the rows: each row in exactly the cell of its label |
| `Ivf.IvfFlatIndex.Build` | packages/citedelta/src/citedelta/index/ivf.py:92-116 | permutes (id, vector) pairs; every row lies in the slice of a nearest centroid; the centroids kept are those of k-means |
| `Ivf.ProbeUntilK` | packages/citedelta/src/citedelta/index/ivf.py:184-225 | stops at the first prefix of the cell order with enough probes and enough admissible rows, and collects exactly its admissible rows |
| `Ivf.IvfFlatIndex.Search` | packages/citedelta/src/citedelta/index/ivf.py:143-182 | k nearest of the rows collected from the cells walked, in (distance, id) order; effort cells, default_probe when it is missing or zero, a sixteenth of them without either, between one and all, are walked, more only under a filter; the cells are a prefix of the one cell order |
| `Ivf.FilteredAnswer` | packages/citedelta/src/citedelta/index/ivf.py:168-182 | filtered search returns exactly min(k, admissible) rows, none inadmissible |
| `Ivf.GrowsExactlyWhen` | packages/citedelta/src/citedelta/index/ivf.py:163-166 | without a filter the cells of more probes include those of fewer, however ties are cut, exactly when no distance is tied from the last cell of the smaller probe to the first the larger leaves out |
| `Ivf.MoreProbesNoFarther` | packages/citedelta/src/citedelta/index/ivf.py:143-182 | no i-th distance grows with nprobe: under any filter, and without one when no tie spans the two cuts |
| `EndToEnd.IvfMoreEffort` | packages/citedelta/tests/test_ivf.py:49-70 | two searches of one index at non-zero efforts e <= e': the second gives at least as many hits, none farther, under a filter or when no tie spans the two cuts |
| `Ivf.AllProbesExact` | packages/citedelta/src/citedelta/index/ivf.py:196-202 | with every cell probed the pool is every admissible row, filtered or not |
| `Ivf.IvfMatchesScan` | packages/citedelta/src/citedelta/index/ivf.py:143-182 | and the distance list equals the exact scan's on the unpermuted rows |
| `EndToEnd.IvfAgainstScan` | packages/citedelta/tests/test_index_conformance.py:115-201 | built over the same rows and fully probed, IVF and exact scan answer the same distances, under any set of admissible ids |
| `Queue.LineIsOrdered` | packages/substrate/src/substrate/queue/queue.py:21-43 | the claim sees exactly the claimable unlocked rows, once each, by priority, time and id |
| `Queue.JobQueue.Enqueue` | packages/substrate/src/substrate/queue/queue.py:98-118 | None exactly when a row of the queue has the key, and then nothing changes; otherwise one fresh pending row of the spec, due when the spec says or now, under the next id |
| `Queue.EnqueueIsStep` | packages/substrate/src/substrate/queue/queue.py:98-118 | and what it promises leaves one table only: the one every run of QueueRuns steps to |
| `Queue.JobQueue.EnqueueMany` | packages/substrate/src/substrate/queue/queue.py:120-127 | all specs in order, counting rows made |
| `Queue.JobQueue.Reap` | packages/substrate/src/substrate/queue/queue.py:48-59 | exactly the expired running rows without attempts left are dead and unclaimed, keeping an earlier error; no other row changes |
| `Queue.ReapIsStep` | packages/substrate/src/substrate/queue/queue.py:48-59 | and that determines the table |
| `Queue.JobQueue.Claim` | packages/substrate/src/substrate/queue/queue.py:21-43 | reports up to limit unlocked rows of the queue that are pending or running, due and with attempts left, by priority, then due time, then id; none left out before a row taken and none at all while there is room; each leased with one attempt and one epoch more; no other row changes |
| `Queue.ClaimIsStep` | packages/substrate/src/substrate/queue/queue.py:21-43 | and that determines which rows and the table |
| `Queue.JobQueue.Heartbeat` | packages/substrate/src/substrate/queue/queue.py:137-156 | true exactly for the epoch of a running row, whose lease alone is extended; otherwise nothing changes |
| `Queue.HeartbeatIsStep` | packages/substrate/src/substrate/queue/queue.py:137-156 | and that determines the table |
| `Queue.JobQueue.Ack` | packages/substrate/src/substrate/queue/queue.py:160-175 | true exactly for the epoch of a running row, which has then succeeded with its error cleared; otherwise nothing changes |
| `Queue.AckIsStep` | packages/substrate/src/substrate/queue/queue.py:160-175 | and that determines the table |
| `Queue.JobQueue.Nack` | packages/substrate/src/substrate/queue/queue.py:177-220 | the fenced row is dead when out of attempts, otherwise pending after the delay, with the error kept; no other row changes |
| `Queue.NackIsStep` | packages/substrate/src/substrate/queue/queue.py:177-220 | and that determines the table |
| `Queue.JobQueue.RequeueDead` | packages/substrate/src/substrate/queue/queue.py:245-262 | the dead rows finished first, unfinished last, as many as there are up to the limit, are pending at once with all attempts back and their epoch kept; no other row changes |
| `Queue.RequeueIsStep` | packages/substrate/src/substrate/queue/queue.py:245-262 | and that determines the table |
| `QueueRuns.StepKeeps` | packages/substrate/src/substrate/queue/queue.py:84-262 | every statement, by anyone, keeps: lease_epoch = requeues * max_attempts + attempts, attempts within max, pending below max, dead at max, keys unique, logs in step |
| `QueueRuns.RunKeeps` | packages/substrate/src/substrate/queue/queue.py:84-262 | hence every reachable state has it |
| `QueueSafety.TokensUnique` | packages/substrate/src/substrate/queue/queue.py:21-43 | over every interleaving each (job, epoch) token is issued once, later ones higher |
| `QueueSafety.AckedOnce` | packages/substrate/src/substrate/queue/queue.py:160-175 | each job is acked successfully at most once, under its latest token |
| `QueueSafety.StaleForever` | packages/substrate/src/substrate/queue/queue.py:137-220 | a token that is not the latest, or the latest of a job that is not running (acked, nacked, reaped, dead), changes nothing ever again, whatever is claimed or revived later |
| `QueueSafety.FencedWasIssued` | packages/substrate/src/substrate/queue/queue.py:137-220 | the fence admits only tokens a claim issued |
| `QueueSafety.LatestClaimantAcks` | packages/substrate/src/substrate/queue/queue.py:160-175 | among honest clients the one that acks is the one that claimed last; no time check is needed |
| `QueueSafety.LeaseHolds` | packages/substrate/src/substrate/queue/queue.py:137-156 | until the lease lapses nobody else can change a running row |
| `QueueSafety.ClaimsBounded` | packages/substrate/src/substrate/queue/queue.py:21-59 | claimed at most max_attempts * (1 + requeues) times |
| `QueueSafety.ExactlyOneGuard` | packages/substrate/src/substrate/queue/queue.py:21-59 | for every expired unfinished job exactly one of the claim guard and the reap guard holds |
| `QueueSafety.NothingLost` | packages/substrate/src/substrate/queue/queue.py:131-135 | after reap and an unobstructed claim no unfinished job is left expired |
| `QueueSafety.NotDueUntouched` | packages/substrate/src/substrate/queue/queue.py:21-43 | no claim changes or issues a token for a row not yet due, in whatever state |
| `QueueSafety.NoTokenEarly` | packages/substrate/src/substrate/queue/queue.py:21-43 | in every run a pending job stays as it is, with no token issued, until its time |
| `QueueSafety.NackedWaits` | packages/substrate/src/substrate/queue/queue.py:177-220 | so a nacked job with attempts left is claimed by nobody before its delay is over |
| `QueueSafety.ClaimsInOrder` | packages/substrate/src/substrate/queue/queue.py:28-31 | no claim takes a row without, or before, a free one of higher priority, or due earlier, or of smaller id |
| `QueueSafety.SkipLockedSerializes` | packages/substrate/src/substrate/queue/queue.py:21-43 | two claims at once, the second skipping locked rows, choose what they would one after the other |
| `QueueSafety.EnqueuedTaken` | packages/substrate/src/substrate/queue/queue.py:98-127 | after a plan is enqueued every key of it is taken, and no earlier row changed |
| `QueueSafety.ReplanAddsNothing` | packages/substrate/src/substrate/queue/queue.py:98-127 | enqueueing the same plan again, however late, adds no job |
| `Timeline.BestIsEarliest` | packages/citedelta/src/citedelta/ecfr/timeline.py:25-29 | of the records of one valid date one with the earliest issue date is kept |
| `Timeline.BuildTimelines` | packages/citedelta/src/citedelta/ecfr/timeline.py:10-47 | every section with a record gets the timeline of its dates |
| `Timeline.IntervalsDisjoint` | packages/citedelta/src/citedelta/ecfr/timeline.py:35-45 | intervals are non-empty and disjoint |
| `Timeline.OverlapsExactly` | alembic/versions/6e4bc42d9a10_corpus_bitemporal_sections_and_chunks.py:84-89 | non-empty intervals overlap exactly when some day lies in both |
| `Timeline.CoversOnce` | packages/citedelta/src/citedelta/ecfr/timeline.py:35-45 | every day from the first effective date on lies in exactly one interval, no earlier day in any |
| `Timeline.OrderFree` | packages/citedelta/src/citedelta/ecfr/timeline.py:23-47 | (from, to, earliest issue date) do not depend on record order |
| `Timeline.FlagFixedExactlyWhen` | packages/citedelta/src/citedelta/ecfr/timeline.py:28-29 | the removed flag of a section's date is the same for every order of the records exactly when all its records of the earliest issue date carry one flag |
| `Timeline.TimelineFixedExactlyWhen` | packages/citedelta/src/citedelta/ecfr/timeline.py:23-47 | and the whole timeline of a section is the same for every order exactly when that holds at each of its dates |
| `Timeline.OrderDecidesRemoved` | packages/citedelta/src/citedelta/ecfr/timeline.py:28-29 | two records for which the order decides |
| `Timeline.IntervalCovering` | packages/citedelta/src/citedelta/ecfr/timeline.py:50-60 | the early-return scan is the covering function |
| `Timeline.CoversOwnStart` | packages/citedelta/src/citedelta/ecfr/timeline.py:50-60 | an interval is the one that covers its own start |
| `Corpus.WithChunksIs` | packages/citedelta/src/citedelta/store/corpus.py:201-225 | a new version gets exactly its section's chunks, the first of each ordinal; others keep theirs |
| `Corpus.WithVersionAdds` | packages/citedelta/src/citedelta/store/corpus.py:152-225 | unless a constraint raises, the section's row is there afterwards, the old one if there was one, and no other row changes |
| `Corpus.CorpusStore.InsertSectionVersion` | packages/citedelta/src/citedelta/store/corpus.py:152-199 | ON CONFLICT covers the natural key alone; the CHECK and the exclusion constraint raise |
| `Corpus.RefusedExactly` | alembic/versions/6e4bc42d9a10_corpus_bitemporal_sections_and_chunks.py:66-89 | the constraints raise exactly for an empty interval, or for one sharing a day with a version of the section none of whose versions starts with it |
| `Corpus.BodyJoins` | packages/citedelta/src/citedelta/ingest.py:133-133 | the text a version is hashed from: of one chunk its own; two runs of chunks join with one newline |
| `Corpus.CorpusStore.InsertChunks` | packages/citedelta/src/citedelta/store/corpus.py:201-225 | row by row, skipping taken ordinals; counts rows offered |
| `Ingest.Handle` | packages/citedelta/src/citedelta/ingest.py:111-146 | one transaction, undone when a constraint raises; the counters are not undone |
| `Ingest.BySectionIn` | packages/citedelta/src/citedelta/ingest.py:115-115 | the section map holds a listed interval of the section, if there is one |
| `IngestRuns.HandledAdds` | packages/citedelta/src/citedelta/ingest.py:126-144 | a planned snapshot never raises and adds exactly the rows it offers under free keys |
| `IngestRuns.CommitSettles` | packages/citedelta/src/citedelta/ingest.py:126-144 | a commit settles its date; a repeat leaves the corpus as it was |
| `IngestRuns.Converges` | packages/citedelta/src/citedelta/ingest.py:111-146 | any two commit histories of the same jobs, in any order and with any repeats, end with the same versions and chunks |
| `Planning.SortedDatesIs` | packages/citedelta/src/citedelta/ingest.py:74-74 | sorted keeps every requested date, repeats too |
| `Planning.PlanIngest` | packages/citedelta/src/citedelta/ingest.py:72-97 | one job a target, keyed by its date, listing exactly the intervals in force on it |
| `Planning.PlannedIsSane` | alembic/versions/6e4bc42d9a10_corpus_bitemporal_sections_and_chunks.py:66-67 | the intervals of one plan are non-empty and those of one section equal or disjoint |
| `IngestRuns.CommittedExactly` | packages/citedelta/src/citedelta/ingest.py:126-144 | a handler's transaction raises exactly when a section it parsed is blocked: its interval is empty, or its key is free and an overlapping version is there |
| `IngestRuns.AllCommitExactly` | packages/citedelta/src/citedelta/ingest.py:126-144 | every job of a plan commits into the tables exactly when they are compatible with it: no parsed section blocked |
| `IngestRuns.HandledOneAdds` | alembic/versions/6e4bc42d9a10_corpus_bitemporal_sections_and_chunks.py:80-89 | into compatible tables no insert of a plan violates the no-overlap constraint, and the tables stay compatible |
| `IngestRuns.ShadowedForGood` | alembic/versions/6e4bc42d9a10_corpus_bitemporal_sections_and_chunks.py:80-89 | a section whose new interval starts inside an older version blocks its job, and no commit of any other job changes that |
| `Planning.DefaultPlanListsAll` | packages/citedelta/src/citedelta/ingest.py:74-97 | with default targets every interval is listed by the job for its own start date |
| `IngestSystem.ActKeeps` | packages/citedelta/src/citedelta/ingest.py:106-148 | queue steps and commits keep: every succeeded job has committed, and the corpus is exactly what the committed dates offer |
| `IngestSystem.NeverPartial` | packages/citedelta/src/citedelta/ingest.py:126-144 | at every point of every run each row is an old one or complete with all its chunks |
| `IngestSystem.ShadowedNeverCommits` | packages/citedelta/src/citedelta/store/corpus.py:160-166 | so in every run the date that lists such a section never commits |
| `IngestSystem.EndsAsSequential` | packages/citedelta/src/citedelta/ingest.py:106-148 | with crashes, repeats, stale workers and re-planning: once every date is enqueued and every job has succeeded, the corpus is the sequential run's |
| `Fleet.MoveKeeps` | packages/substrate/src/substrate/queue/worker.py:89-138 | every step of any slot keeps: tokens held were issued, a finished slot has committed, no two slots hold one token, processed counts every ack |
| `Fleet.TwoEmptyPolls` | packages/substrate/src/substrate/queue/worker.py:89-102 | two polls of a quiet queue in a row end a draining slot, the first never, and a slot that does not drain goes on |
| `Fleet.TakesOne` | packages/substrate/src/substrate/queue/worker.py:89-102 | a poll that finds a free job leases exactly one to the slot, which then holds just its token; no other row changes |
| `Fleet.HandlerEnds` | packages/substrate/src/substrate/queue/worker.py:111-124 | a handler commits, or raises and leaves the database alone |
| `Fleet.BeatsWhileHeld` | packages/substrate/src/substrate/queue/worker.py:126-138 | from the claim until past ack or nack the slot extends its lease, while the fence is open |
| `Fleet.DiesOrStops` | packages/substrate/src/substrate/queue/worker.py:89-124 | death at any point leaves the database alone; a stop lets the job in hand finish |
| `Fleet.FinishCounts` | packages/substrate/src/substrate/queue/worker.py:104-124 | an ack ends the job if its lease still stands, is counted once either way, and the slot polls again |
| `Fleet.GiveUpCounts` | packages/substrate/src/substrate/queue/worker.py:104-124 | a failure postpones the job by the delay, or kills it after its last attempt, if its lease still stands, and is counted once |
| `Fleet.ClaimIsNew` | packages/substrate/src/substrate/queue/worker.py:89-102 | a slot's claim brings a token nobody ever held |
| `Fleet.CrewRefines` | packages/substrate/src/substrate/queue/worker.py:89-138 | every run of a worker fleet is a run of lawful actions on the same database |
| `Fleet.CrewEndsAsSequential` | packages/substrate/src/substrate/queue/worker.py:76-138 | so what holds of those runs holds however many slots run, die and start again |
| `PlannedRuns.PlanAndEnqueue` | packages/citedelta/src/citedelta/ingest.py:72-97 | planning and enqueueing in one: every target has its work with the intervals in force on it, and the table is the one enqueueing the targets' specs in order makes |
| `PlannedRuns.PlanForCrew` | packages/citedelta/src/citedelta/ingest.py:72-101 | planned into an empty table, the rows are those a fleet that starts there finds |
| `PlannedRuns.EnqueueMovesMake` | packages/substrate/src/substrate/queue/queue.py:120-127 | the planner's one transaction leaves what enqueueing spec by spec leaves |
| `PlannedRuns.PlannedEndsAsSequential` | packages/citedelta/src/citedelta/ingest.py:72-148 | from records to corpus: a fleet that works off what the planner enqueued leaves, once every job has succeeded, what the targets leave one after the other |
| `Varint.WriteVarint` | packages/citedelta/src/citedelta/index/varint.py:6-24 | appends the LEB128 bytes; negative numbers write nothing and fail |
| `Varint.ReadVarint` | packages/citedelta/src/citedelta/index/varint.py:27-37 | the loop with result and shift reads the number recursion reads; truncation is an error |
| `Varint.RoundTrip` | packages/citedelta/src/citedelta/index/varint.py:6-37 | reading inverts writing at any offset with anything before and after |
| `Varint.Canonical` | packages/citedelta/src/citedelta/index/varint.py:6-37 | writing what was read gives the same bytes exactly unless the last byte was a padding zero |
| `Varint.Size` | packages/citedelta/src/citedelta/index/varint.py:6-24 | at most n bytes exactly for numbers below 128 to the n |
| `Inverted.PostingsExact` | packages/citedelta/src/citedelta/index/lexical.py:89-96 | ascending, exactly the documents with the term, with their counts |
| `Inverted.Invert` | packages/citedelta/src/citedelta/index/lexical.py:85-96 | ids, lengths and every postings list of the corpus |
| `Inverted.SortTerms` | packages/citedelta/src/citedelta/index/lexical.py:106-106 | every term once, in byte order |
| `Inverted.LessAt` | packages/citedelta/src/citedelta/index/lexical.py:106-106 | byte order is decided at the first difference, a beginning of a term being less |
| `LexicalFile.ListRoundTrip` | packages/citedelta/src/citedelta/index/lexical.py:106-113 | decoding the gaps gives the list back |
| `LexicalFile.DictionaryRoundTrip` | packages/citedelta/src/citedelta/index/lexical.py:117-122 | the dictionary loop reads every entry back |
| `LexicalFile.EntriesLead` | packages/citedelta/src/citedelta/index/lexical.py:106-122 | each entry's offset and length lead to its term's bytes in the blob |
| `LexicalFile.FileRoundTrip` | packages/citedelta/src/citedelta/index/lexical.py:124-148 | opening a written file gives back its tables and dictionary, unless an id needs 64 bits or a length 32 |
| `LexicalFile.FileStarts` | packages/citedelta/src/citedelta/index/lexical.py:124-148 | every file starts with CDLXIDX1 and version 1 in four bytes, lowest first |
| `LexicalFile.PostingsRoundTrip` | packages/citedelta/src/citedelta/index/lexical.py:256-270 | each list reads back exactly; an unknown term has none |
| `LexicalIndex.WriteTerms` | packages/citedelta/src/citedelta/index/lexical.py:102-122 | the loop that grows blob and dictionary together |
| `LexicalIndex.BuildIndex` | packages/citedelta/src/citedelta/index/lexical.py:83-148 | the bytes of the documents' file, or the struct error exactly when a number does not fit |
| `LexicalIndex.Open` | packages/citedelta/src/citedelta/index/lexical.py:199-240 | the checks in order, the tables and the dictionary, term bytes that are not UTF-8 refused |
| `LexicalIndex.ReadPostings` | packages/citedelta/src/citedelta/index/lexical.py:256-270 | the generator's loop |
| `LexicalIndex.OpenOfBuild` | packages/citedelta/src/citedelta/index/lexical.py:83-240 | the built file opens exactly when ids are below 2^63 and lengths below 2^31, and then gives back ids, lengths, every (term, df) and every postings list |
| `LexicalIndex.LargeIdDoesNotOpen` | packages/citedelta/src/citedelta/index/lexical.py:140-150 | one empty document with an id from 2^63 on is written and does not open |
| `LexicalIndex.FileUnique` | packages/citedelta/src/citedelta/index/lexical.py:83-148 | the bytes depend on the documents alone, not on counter order |
| `LexicalIndex.TwoDocuments` | packages/citedelta/src/citedelta/index/lexical.py:83-148 | the file of documents 7, "a a", and 300, "b a" |
| `LexicalFile.TwoDocumentBytes` | packages/citedelta/src/citedelta/index/lexical.py:124-148 | all its 100 bytes: header, ids, lengths, dictionary, gaps and counts |
| `LexicalIndex.AverageIs` | packages/citedelta/src/citedelta/index/lexical.py:98-99 | the average length times the number of documents is the sum of the lengths |
| `LexicalIndex.TotalJoins` | packages/citedelta/src/citedelta/index/lexical.py:98-99 | the sum of lengths is additive |
| `Bm25.Search` | packages/citedelta/src/citedelta/index/lexical.py:280-322 | the first k of the complete ranking of admissible documents, by the average length the index keeps |
| `EndToEnd.BuildOpenSearch` | packages/citedelta/tests/test_lexical_index.py:129-175 | documents to file to index to hits: the first k of the BM25 ranking of the admissible documents, by the average the file keeps; none exactly when an id, length or count does not fit |
| `Bm25.FilteredIsRestricted` | packages/citedelta/src/citedelta/index/lexical.py:288-322 | the filtered ranking is, as a list, the unfiltered one restricted to admissible documents |
| `Bm25.TermDone` | packages/citedelta/src/citedelta/index/lexical.py:311-316 | a traversed list has added its gain to exactly the admissible documents with the term |
| `Bm25.ScoreSign` | packages/citedelta/src/citedelta/index/lexical.py:305-316 | a score is positive exactly when the document has a query term |
| `Bm25Laws.RarerScoresMore` | packages/citedelta/src/citedelta/index/lexical.py:272-316 | for any monotone logarithm: of two terms with equal counts in documents of equal length the one in fewer documents scores at least as much, more for a strict logarithm |
| `Bm25Laws.OftenerScoresMore` | packages/citedelta/src/citedelta/index/lexical.py:314-316 | of two documents of equal length the one with the term more often scores more |
| `Bm25Laws.ShorterScoresMore` | packages/citedelta/src/citedelta/index/lexical.py:314-316 | of two documents with the term equally often the shorter scores more |
| `Bm25Laws.GainRises` | packages/citedelta/src/citedelta/index/lexical.py:314-316 | a gain rises strictly with the count and stays below 2.2 times the weight |
| `Bm25Laws.GainFalls` | packages/citedelta/src/citedelta/index/lexical.py:314-316 | a gain falls strictly with the length of the document |
| `Bm25Laws.GainAtAverage` | packages/citedelta/src/citedelta/index/lexical.py:314-316 | at the average length the gain is idf * tf * 2.2 / (tf + 1.2) |
| `Bm25Laws.RankedByRarity` | packages/citedelta/src/citedelta/index/lexical.py:280-322 | of three documents and a query of two terms the one with the rare term is the first hit |
| `Bm25Laws.RankedByLength` | packages/citedelta/src/citedelta/index/lexical.py:280-322 | of two documents with a term once, one of one term and one of two, the shorter is the first hit |
| `Bm25.DenominatorPositive` | packages/citedelta/src/citedelta/index/lexical.py:314-316 | no division by zero |
| `Bm25.HitsAreReal` | packages/citedelta/tests/test_lexical_index.py:65-89 | every hit is an admissible matching document with its index-free BM25 score, positive |
| `Bm25.DfBound` | packages/citedelta/src/citedelta/index/lexical.py:199-240 | the stored document frequency is the number of documents with the term |
| `Bm25.CompileFilter` | packages/citedelta/src/citedelta/index/lexical.py:275-278 | the mask over internal positions |
| `Fusion.FuseOne` | packages/citedelta/src/citedelta/fusion.py:52-61 | the loop body, subtract-and-re-add included, keeps every score the sum over names of 1 / (k + best rank) |
| `Fusion.BestRanksLeast` | packages/citedelta/src/citedelta/fusion.py:55-61 | exactly the names that list an id, each with its least position |
| `Fusion.RrfTakes` | packages/citedelta/src/citedelta/fusion.py:48-61 | the sum does not depend on the order of the names |
| `Fusion.ReciprocalRankFusion` | packages/citedelta/src/citedelta/fusion.py:36-77 | for any damping constant: exactly the listed ids, by floored score then id; limit gives a prefix (a negative one counts from the end); None exactly when some k + rank the loop divides by is zero |
| `Fusion.DampedIsSafe` | packages/citedelta/src/citedelta/fusion.py:36-61 | with k of zero or more nothing is divided by zero |
| `Fusion.NegativeDampingRaises` | packages/citedelta/src/citedelta/fusion.py:36-61 | one list of one id and a damping constant of -1 do |
| `Fusion.FusionOrderFree` | packages/citedelta/src/citedelta/fusion.py:36-77 | unchanged by any permutation of the lists |
| `Hybrid.FaithfulExactlyUpTo972` | packages/citedelta/src/citedelta/fusion.py:12-15 | flooring keeps order and distinctness of all sums of two lists exactly when neither can be longer than 972 |
| `CloseSums.CloseSumsSmall` | packages/citedelta/src/citedelta/fusion.py:66-71 | why: two fractions (d + e) / (d * e) with denominators 61 to 1032 that differ by one over the product of their denominators have that product at most 1e12 |
| `Hybrid.TwoListsMerge` | packages/citedelta/src/citedelta/fusion.py:69-71 | ranks (973, 928) and (951, 949) have different sums and one floor |
| `Hybrid.SeparatesExactlyUpTo` | packages/citedelta/src/citedelta/fusion.py:69-71 | ranks of one list are told apart exactly up to rank 1000940 |
| `Hybrid.OrdersExactlyUpTo972` | packages/citedelta/src/citedelta/fusion.py:72-77 | the fused order is that of the exact sums, ties by id, in every fusion of two lists up to a length exactly if that is at most 972; at 973 two lists show the smaller sum first |
| `Hybrid.AgreementWinsExactlyUpTo61` | packages/citedelta/src/citedelta/retrieve.py:61-72 | every chunk found by both is before every chunk found by one, in every fusion, exactly with up to 61 candidates a list: at 62, 2/122 ties with 1/61 |
| `Hybrid.GateExactly` | packages/citedelta/src/citedelta/answer/gate.py:10-45 | for any limit: the gate passes exactly when it is shown a hit and some chunk is ranked well enough by both, and then its top hit is such a chunk; a limit of 1 or more shows it a hit exactly when either list has one |
| `Hybrid.FortyIsEnough` | packages/citedelta/src/citedelta/answer/gate.py:10-21 | ranks of 40 or better from both always pass; one retriever alone never does |
| `Hybrid.AgreedExactly` | packages/citedelta/src/citedelta/answer/gate.py:10-45 | two ranks r and s in the lists pass exactly when (r + 10) * (s + 10) is at most 2500 |
| `Hybrid.EqualRanks` | packages/citedelta/src/citedelta/answer/gate.py:10-45 | the same rank from both passes exactly up to 40 |
| `Retrieve.HybridSearch` | packages/citedelta/src/citedelta/retrieve.py:35-76 | over the exact scan: fuses the first candidates of the admissible lexical ranking with the nearest admissible rows, both under one admissible set; every hit is admissible and the answer is a slice of the fused ranking |
| `Retrieve.HybridSearchGraph` | packages/citedelta/src/citedelta/retrieve.py:35-76 | the same over HNSW, its side the nearest of the admissible rows the walk saw, all of them at full effort and budget |
| `Retrieve.HybridSearchCells` | packages/citedelta/src/citedelta/retrieve.py:35-76 | the same over IVF, its side min(candidates, admissible) rows of the probed cells, the exact ones at full probe |

## Left out

- Floating-point rounding: exact reals throughout, so the float noise that `_floor12` absorbs does not arise.
- Random level draws, k-means++ seeding and the Lloyd iterations: levels and centroids are arbitrary inputs; only the final assignment, which the cells rest on, is modelled.
- The array order inside `heapq`: a heap is its ascending list, so layer-search answers come in that order before sorting.
- HNSW with m below 2 or ef_construction below 1: the constructor requires the sizes the builds use.
- int32 and int64 widths of the saved HNSW arrays, the npz container, mmap, fsync and rename.
- `_bailout_edges`: not reset between builds; bridges are counted a pass.
- The logarithm of BM25 is any function positive above 1, and the double in the file header any eight bytes that keep the average's sign; tokenizer, NFKC and UTF-8 are an arbitrary sequence of terms a document, each its own bytes, and an arbitrary predicate on bytes.
- `np.argsort` of tied centroid distances: taken to list the smaller cell first; numpy's own fixed choice may be another.
- Bm25.CompileFilter: does not model the overflow of filter ids past int64, because admissible ids come from the corpus.
- Interleaving inside one handler transaction, deadlocks between transactions, and gaps in identity columns: a handler's transaction is one step.
- Superseded versions and recorded times of the bitemporal tables, and the as-of reads: ingestion writes current beliefs only.
- Worker._loop and its neighbours are steps of a state machine, not a method, because another worker may act at every await; sleeping and signal delivery are free choices of when a step happens.
- `stats` and `dead_letters`, the order of RETURNING, updated_at, the length and distribution of the retry jitter (any delay is allowed).
- The worker's ack and its counter are one step, as are nack and counter: a crash between the two loses a count with the process.
- `date.isoformat` is any function that gives different dates different keys; snapshots are any function of the date.
- Liveness and fairness of workers: guards and counting bounds instead.
- HTTP, templates, command line, LLM and embedding adapters, pgvector and tsvector baselines, designator parsing, benchmarks: plumbing, foreign engines or heuristics.
