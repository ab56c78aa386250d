# OxGraph: verified models of the graph algorithms, the property-graph store and its query layer

A Dafny 4.11 model of the parts of OxGraph whose correctness is not local to one function:

- **Induced-subgraph algorithms** (`Topology`, `DepthFirst`, `Scc`, `Components`, `Toposort`, `TieRule`, `LongestPath`, `Sssp`): iterative
  Tarjan with explicit frames, union-find with path halving and an 8-bit rank, Kahn's sort, the longest path of a DAG
  and breadth-first distances. Their loops and arrays are methods; their results are global facts about reachability,
  connectedness, acyclicity and optimality of the induced subgraph.
- **The store's indexes** (`Values`, `Index`, `OverlayIndex`, `Overlay`, `Writer`, `Postings`, `EqualityPostings`): an
  added/removed overlay over an immutable base, kept by the write overlay and the write transaction above it, always
  answers like a scan of the visible records; the persisted directory-and-pool form answers like the owned maps.
- **The log** (`Bytes`, `Wal`, `WalRecovery`, `MutationLog`, `Durability`, `WireFormat`): records, replay, crash recovery as a state
  machine, the way back from committed bytes to the overlay a reopened store shows, and the writer, the log and
  recovery joined over whole runs of transactions; and what stands where in the stored bytes.
- **PageRank over reals** (`RankMath`, `PageRank`, `HyperPageRank`, `Convergence`): conservation and contraction of the
  power iteration for graphs and hypergraphs, and exactly when it converges.
- **Layout and query** (`Csr`, `Projection`, `Query`): the counting-sort CSR freeze and its transpose, the graph
  projection built on it, and the predicate parser with its two execution plans.

`Options` and `Ordered` hold shared vocabulary. `dafny verify dfyconfig.toml` checks the whole project.

## How to read it

Each algorithm is a method (or a class, where the source keeps mutable state) proved against a specification function
or predicate in the same module, and the lemmas say what that specification means. The chains that matter:

- `Scc`: `TarjanScratch`'s methods are equal to steps on a value; `StepKeepsInv` carries one invariant through every
  turn of the walk; `WalkIsDecomposition` reads the partition off it. `StepKeepsTrace` does the same for the order of
  discovery and of completion that `DepthFirst` defines, and `DecompositionIsUnique` says that nothing is left open.
- `Components`: `Find` and `Union` are specified by the vector of representatives, which halving never changes;
  `SoundAndComplete` turns that vector into weak connectedness, and `UniteAll` fixes the representatives, hence the
  order of the groups.
- `Toposort`, `TieRule`: `TopologicalSort` states the order it returns, `OrderIsUnique` that there is no other, and
  `FollowsInputIff` exactly when that order follows the documented rule for ties.
- `Index`, `OverlayIndex`, `Overlay`, `Writer`, `MutationLog`: `Agrees` says that all five merged posting maps equal the
  scans of the visible records. Every mutator keeps it, every lookup uses it, `WriteTransaction` guarantees its
  preconditions by keeping referential integrity, and `OpenOverlay` re-establishes it from the replayed log.
- `WalRecovery`: `ReplayIsExact` characterises replay; `EveryRunRecovers` is the safety of all runs of appends,
  failures, crashes and recoveries.
- `Durability`: over runs of whole transactions with crashes, `OpeningFindsCommitted` says that the log holds the
  acknowledged transactions and `Reopen` that reopening shows the base with exactly those applied.
- `RankMath`: one abstract walk; `PageRank` and `HyperPageRank` show that accepted inputs are such walks and that the
  loops compute its iterates, which follow the PageRank equation (`OrbitEquation`). `ConvergesIffBoundWithin` and `ConvergesIffDamped` decide convergence.
- `Query`: the recursive descent parses exactly a grammar, which is unambiguous; printing and parsing are inverse where
  they can be; and the rows are those that the parsed predicate selects.
- `Projection`: `IsProjection` relates a projection to the selected relations' incidences, and leaves one projection.

## Where the code and its documentation differ

The model follows the code.

- `crates/oxgraph-algo/src/toposort.rs:45-46` documents that ready elements follow input order. The queue is first in,
  first out, so elements follow the moment they became ready, and input order only decides among the initial sources.
  `Toposort.TopologicalSort` states the order that holds. `TieRule.InputOrderFails` gives an input for which the
  documented one does not, and `TieRule.FollowsInputIff` the exact condition on the graph and the list under which it
  does.
- `crates/oxgraph-db/src/wal.rs:546-548` says that a failed append never leaves an interior torn record, but truncation
  errors are swallowed and the next commit reuses the failed one's sequence number. `AppendOverResidue` gives the
  outcome for every residue: the acknowledged commit is recovered, silently lost (`AcknowledgedCommitLost`), or the
  store no longer opens (`AcknowledgedCommitBlocksOpening`). The runs of `EveryRunRecovers` include such appends, and
  its promise holds wherever no commit is buried behind a residue.
- `crates/oxgraph-db/src/wal.rs:390-392` says that a failing record with a well-formed one after it is loud. A damaged
  length field that points past the end of the log is taken for a torn tail instead (`OverlongLengthHidesTheNext`, with
  concrete frames in `DocumentedLoudnessFails`); `DamageIsLoudIffFollowed` is exact about every kind of damage.
- `tombstone_incidence_inner` withdraws an incidence's property postings only if its record is visible. Called for an
  invisible incidence with properties it would leave the index behind the records; a write transaction never does
  (`Writer.WriteTransaction.Valid`), and `TombstoneIncidenceInner` states the exact condition.
- `validate_config` accepts damping 1, for which no iteration count need suffice. `ConvergesIffDamped` gives the
  condition under which one does.
- A comparison whose key is an opening parenthesis cannot be written in the query language; `PrintedParsesBack` is
  exact about it.

## Assumptions

- `usize` is 64 bits wide; an element bound is at most the `UNVISITED` sentinel. Element identifiers are their dense
  indices.
- The checksum is an uninterpreted function with the append law of a running checksum (the law CRC-32C has); nothing
  is claimed about which damage it detects.
- Recovery cuts the log to the length that replay reports (`crates/oxgraph-db/src/database/open.rs:113-117`).
- PageRank arithmetic is over reals, where every finiteness test succeeds.
- Whether bytes are UTF-8, how names resolve in the catalog and how literals parse are parameters of the members that
  need them. Ordered maps are given as their ascending rows, and the nested property maps as one map from subject and
  key. Sizes of posting pools and texts fit a 64-bit word, as memory does.

## Model

| member | source | states |
|---|---|---|
| Topology.Distinct | crates/oxgraph-algo/src/scc.rs:226-234 | The membership pass keeps exactly the in-bound listed elements, each once |
| Topology.DistinctKeepsInputOrder | crates/oxgraph-algo/src/scc.rs:228-234 | Kept elements appear in the order of their first occurrence in the input |
| Topology.CollectMembers | crates/oxgraph-algo/src/scc.rs:225-240 | The loop that marks members: duplicates and out-of-bound elements are dropped, the marker is the induced subgraph's |
| Topology.ReachIsInduced | crates/oxgraph-algo/src/scc.rs:60-75 | Reachability runs through members only |
| Topology.ClosedUnderReach | crates/oxgraph-algo/src/scc.rs:60-75 | A set that induced edges do not leave contains everything reachable from it |
| Scc.MemberSuccessors | crates/oxgraph-algo/src/scc.rs:60-74 | The member successors of a member are exactly its induced edges' targets; edges to non-members are ignored |
| Scc.CounterBelowSentinel | crates/oxgraph-algo/src/scc.rs:81-100 | Whenever a member is still to be discovered, the counter is below the number of members, so never the UNVISITED sentinel |
| Scc.DiscoverKeepsInv | crates/oxgraph-algo/src/scc.rs:81-100 | Discovering a member keeps the whole walk invariant and visits exactly one more element |
| Scc.RelaxKeepsInv | crates/oxgraph-algo/src/scc.rs:108-126 | Relaxing the top frame by a visited successor keeps the invariant; a successor already emitted changes no lowlink |
| Scc.AdvanceKeepsInv | crates/oxgraph-algo/src/scc.rs:108-126 | A turn that meets a visited successor keeps the invariant, in both of its branches |
| Scc.NonRootReachesParent | crates/oxgraph-algo/src/scc.rs:158-177 | A finished node whose lowlink is below its order has a parent frame and reaches it |
| Scc.FinishNonRootKeepsInv | crates/oxgraph-algo/src/scc.rs:158-177 | Finishing a non-root hands its lowlink to the parent and keeps the invariant |
| Scc.PoppedSuffix | crates/oxgraph-algo/src/scc.rs:133-150 | The popping loop emits exactly the stack above and including the root, in pop order |
| Scc.PropagationIsHarmless | crates/oxgraph-algo/src/scc.rs:158-177 | When a root is finished, its lowlink exceeds the parent's, so the propagation after the component was popped changes nothing |
| Scc.RootIsClosed | crates/oxgraph-algo/src/scc.rs:158-177 | Every edge out of the component being popped stays in it or leads to a component emitted before |
| Scc.FinishRootKeepsInv | crates/oxgraph-algo/src/scc.rs:158-177 | Popping a component keeps the invariant: what was emitted is a class of mutual reachability, in reverse topological order |
| Scc.ReachStaysInFirst | crates/oxgraph-algo/src/scc.rs:218-257 | From a component one reaches only components emitted no later |
| Scc.SameComponentIffMutual | crates/oxgraph-algo/src/scc.rs:218-257 | Two members share a component exactly when each reaches the other through members |
| Scc.WalkIsDecomposition | crates/oxgraph-algo/src/scc.rs:218-257 | When every member is visited and no frame is left, the emitted components partition the members and are the mutual-reachability classes, each edge between two of them leading to the earlier one |
| Scc.StepKeepsInv | crates/oxgraph-algo/src/scc.rs:185-204 | Every turn of the explicit-stack walk (discover, advance or finish) keeps the invariant and makes progress |
| Scc.TarjanScratch.constructor | crates/oxgraph-algo/src/scc.rs:241-248 | All elements unvisited, stack and components empty, counter 0 |
| Scc.TarjanScratch.Discover | crates/oxgraph-algo/src/scc.rs:81-100 | Stores order and lowlink, pushes on the stack and the frame, advances the counter, and changes nothing else |
| Scc.TarjanScratch.Relax | crates/oxgraph-algo/src/scc.rs:108-126 | Lowers one lowlink to the minimum; every other is unchanged |
| Scc.TarjanScratch.Advance | crates/oxgraph-algo/src/scc.rs:108-126 | Discovers an unvisited successor, relaxes by one on the stack, ignores an emitted one |
| Scc.TarjanScratch.PopComponent | crates/oxgraph-algo/src/scc.rs:133-150 | The loop empties the stack down to the root and appends one component |
| Scc.TarjanScratch.Finish | crates/oxgraph-algo/src/scc.rs:158-177 | Pops the frame, pops a component at a root, then propagates the lowlink to the parent frame |
| DepthFirst.DiscoveryIsUnique | crates/oxgraph-algo/src/scc.rs:185-204 | There is only one depth-first discovery order: each element is the first new connection of the latest element that has one, or else the first new one of the list |
| DepthFirst.CompletesOneWay | crates/oxgraph-algo/src/scc.rs:208-209 | Of two elements at most one is completed before the other |
| Scc.TopFindsFirst | crates/oxgraph-algo/src/scc.rs:108-126 | The top frame is about to look at its first connection, in the order of the view, that was not discovered yet |
| Scc.YoungerIsSpent | crates/oxgraph-algo/src/scc.rs:158-177 | Whatever was discovered after the top frame has no connection left to follow |
| Scc.DiscoverKeepsTrace | crates/oxgraph-algo/src/scc.rs:81-100 | A discovery extends the depth-first order, and every frame has been busy since it was pushed |
| Scc.RootIsSpent | crates/oxgraph-algo/src/scc.rs:158-177 | When a root is finished, nothing found since it has a connection left to follow |
| Scc.PoppedDescends | crates/oxgraph-algo/src/scc.rs:133-150 | The popped component lists its members from the last discovered down to its root |
| Scc.CompletionKeepsTrace | crates/oxgraph-algo/src/scc.rs:158-177 | Popping a component records its completion, after every component completed before it |
| Scc.StepKeepsTrace | crates/oxgraph-algo/src/scc.rs:185-204 | Every turn of the walk keeps the discovery order and the completion times |
| Scc.WalkIsInOrder | crates/oxgraph-algo/src/scc.rs:208-209 | After the walk the discovery order is depth-first and complete, components are in stack-pop order and stand in completion order |
| Scc.DecompositionIsUnique | crates/oxgraph-algo/src/scc.rs:206-222 | The view and the list determine the result: the components, their order and the order inside them |
| Scc.TarjanScratch.Visit | crates/oxgraph-algo/src/scc.rs:185-204 | One walk terminates with no frame left, keeps the invariant and the trace, and visits at least its start and everything visited before |
| Scc.StronglyConnectedComponents | crates/oxgraph-algo/src/scc.rs:218-257 | For every graph and element list the result partitions the deduplicated in-bound members into the strongly connected components of the induced subgraph, sinks first; each lists its members in stack-pop order, from the last discovered down, and the components stand in completion order |
| Ordered.ListingIsUnique | crates/oxgraph-algo/src/components.rs:89-94 | A set has only one ascending listing, so iterating an ordered set or map is deterministic |
| Ordered.Listing | crates/oxgraph-algo/src/components.rs:89-94 | Ascending iteration lists every element exactly once |
| Components.HalvedKeepsRoots | crates/oxgraph-algo/src/components.rs:19-25 | Path halving keeps ranks rising along parent links and moves no representative |
| Components.Find | crates/oxgraph-algo/src/components.rs:19-25 | Terminates, returns the representative, and changes no element's representative while it rewrites links |
| Components.RankBelow64 | crates/oxgraph-algo/src/components.rs:32-46 | A root of rank r stands for at least 2^r indices, so with a 64-bit bound no rank reaches 64 and the u8 increment cannot overflow |
| Components.LinkedRoots | crates/oxgraph-algo/src/components.rs:32-46 | Hanging one root below another joins exactly their two classes |
| Components.LinkedKeepsHeavy | crates/oxgraph-algo/src/components.rs:32-46 | Linking by rank keeps every root of rank r standing for at least 2^r indices |
| Components.LinkByRank | crates/oxgraph-algo/src/components.rs:32-46 | The three rank cases keep the forest and its weights, and join the two classes under one of the two roots |
| Components.Union | crates/oxgraph-algo/src/components.rs:32-46 | Merges exactly the classes of its two arguments, whatever halving happened on the way |
| Components.UniteMerges | crates/oxgraph-algo/src/components.rs:32-46 | On representatives, uniting two elements joins exactly their two classes |
| Components.UniteElects | crates/oxgraph-algo/src/components.rs:32-46 | The joined class is represented by the root of higher rank, by the left one among equals, whose rank then grows by one |
| Components.UnionKeepsSound | crates/oxgraph-algo/src/components.rs:79-87 | Uniting the ends of an induced edge never merges elements that are not connected |
| Components.SoundAndComplete | crates/oxgraph-algo/src/components.rs:77-87 | Once every induced edge is united, two members share a representative exactly when they are weakly connected |
| Components.UniteEdges | crates/oxgraph-algo/src/components.rs:77-87 | The loop over members and their connections ends in that state, with the representatives that uniting the edges in scanning order gives |
| Components.UniteAllScans | crates/oxgraph-algo/src/components.rs:77-87 | All unions together are one scan of the connections between members, in the order of the list and then of the connections, each with its source on the left |
| Components.SelectIsConnectedTo | crates/oxgraph-algo/src/components.rs:89-94 | The members under one representative are the members connected to it, in input order |
| Components.CollectGroups | crates/oxgraph-algo/src/components.rs:89-94 | The groups are those of the members' representatives, in ascending representative order; halving on the way moves none |
| Components.GroupsAreGrouping | crates/oxgraph-algo/src/components.rs:89-94 | The collected groups partition the members into weakly connected groups |
| Components.GroupingIsUnique | crates/oxgraph-algo/src/components.rs:53-55 | The representatives leave no choice: groups, their order and the order inside them are determined |
| Components.ConnectedComponents | crates/oxgraph-algo/src/components.rs:59-95 | Members share a group exactly when weakly connected in the induced subgraph; groups partition the members, keep input order inside and ascend by their union-find representatives, so the graph and the list determine the result |
| Toposort.CountIndegrees | crates/oxgraph-algo/src/toposort.rs:77-85 | Every member's indegree is the number of edges into it from members, parallel edges counted with multiplicity |
| Toposort.PendingExpand | crates/oxgraph-algo/src/toposort.rs:95-107 | Expanding a node lowers a member's pending edge count by exactly its multiplicity |
| Toposort.RelaxMember | crates/oxgraph-algo/src/toposort.rs:97-106 | A decrement never underflows; a member joins the queue exactly when its last pending edge is relaxed |
| Toposort.StartExpansion | crates/oxgraph-algo/src/toposort.rs:94-97 | The element taken from the queue has only expanded predecessors |
| Toposort.Expand | crates/oxgraph-algo/src/toposort.rs:95-107 | One expansion decrements indegrees along every connection and appends the members that become ready, in connection order |
| Toposort.QueueSources | crates/oxgraph-algo/src/toposort.rs:87-92 | The queue starts with the members without predecessors, in input order |
| Toposort.StuckIsCyclic | crates/oxgraph-algo/src/toposort.rs:109-113 | A nonempty set in which every element has a predecessor contains a cycle |
| Toposort.LeftoverIsCyclic | crates/oxgraph-algo/src/toposort.rs:109-113 | If the queue runs dry early, the induced subgraph has a cycle |
| Toposort.ForwardIsAcyclic | crates/oxgraph-algo/src/toposort.rs:109-113 | If every induced edge runs forward in a complete order, there is no cycle |
| Toposort.Conclude | crates/oxgraph-algo/src/toposort.rs:109-113 | The length test decides acyclicity exactly, and the order it lets through is topological |
| Toposort.TopologicalSort | crates/oxgraph-algo/src/toposort.rs:59-114 | Ok exactly when the induced subgraph is acyclic; the order lists every member once, every induced edge forward, first ready first |
| TieRule.OrderIsUnique | crates/oxgraph-algo/src/toposort.rs:43-46 | The order TopologicalSort states is the only one: the result is determined by the graph and the input order |
| TieRule.PathBelowLevel | crates/oxgraph-algo/src/toposort.rs:69-115 | A member's level bounds every induced path that ends there |
| TieRule.LevelHasPath | crates/oxgraph-algo/src/toposort.rs:69-115 | and some induced path has exactly that length, so levels are longest path lengths |
| TieRule.LevelsExist | crates/oxgraph-algo/src/toposort.rs:109-115 | Whenever the sort succeeds, the members have levels |
| TieRule.LevelsAscend | crates/oxgraph-algo/src/toposort.rs:94-107 | The queue empties level by level |
| TieRule.FollowsInputIff | crates/oxgraph-algo/src/toposort.rs:45-46 | The documented tie rule (elements ready together follow input order) holds of the returned order if and only if the graph and the list meet InputOrdered: in each level earlier-listed members have earlier-listed latest predecessors, and the last-listed of one level is connected to, or listed before, the first-listed of the next |
| TieRule.InputOrderFails | crates/oxgraph-algo/src/toposort.rs:45-46 | A graph where it fails: with connections 2 to 1 and 3 to 0 the order is 2, 3, 1, 0, though 1 and 0 are ready together and 0 is listed first |
| LongestPath.RelaxNode | crates/oxgraph-algo/src/longest_path_dag.rs:101-107 | One node's relaxation with the strict comparison, non-members included |
| LongestPath.NodeRelaxedKeeps | crates/oxgraph-algo/src/longest_path_dag.rs:94-108 | Relaxing nodes in topological order keeps lengths and predecessors justified; what was written to non-members plays no part |
| LongestPath.LengthsBoundPaths | crates/oxgraph-algo/src/longest_path_dag.rs:94-108 | A member's recorded length bounds every induced path that ends there |
| LongestPath.RelaxAll | crates/oxgraph-algo/src/longest_path_dag.rs:89-108 | After the loop every member is relaxed and the chosen end is the earliest of maximal length in topological order |
| LongestPath.FirstPredecessor | crates/oxgraph-algo/src/longest_path_dag.rs:101-107 | The recorded predecessor is a real induced edge and beats every predecessor earlier in the order |
| LongestPath.WalkBack | crates/oxgraph-algo/src/longest_path_dag.rs:110-115 | The predecessor walk from the end terminates and stays among members |
| LongestPath.WalkIsLongest | crates/oxgraph-algo/src/longest_path_dag.rs:94-117 | Reversed, the walk is an induced path with distinct members, and no induced path is longer |
| LongestPath.LongestPathIsUnique | crates/oxgraph-algo/src/longest_path_dag.rs:94-117 | Ties leave no choice: the order, itself determined, leaves one such path |
| LongestPath.LongestPathDag | crates/oxgraph-algo/src/longest_path_dag.rs:70-118 | Err exactly when the induced subgraph has a cycle; otherwise a longest induced path, ending at the earliest maximal member of the topological order; empty for no members |
| Sssp.DistancesAscend | crates/oxgraph-algo/src/sssp.rs:51-64 | Distances are listed in non-decreasing order |
| Sssp.HopHasPath | crates/oxgraph-algo/src/sssp.rs:51-64 | Each listed distance is the length of a real induced path from the source |
| Sssp.PathIsListed | crates/oxgraph-algo/src/sssp.rs:51-64 | Every induced path from the source ends at a listed member, at a distance no greater than its length |
| Sssp.ScanIsShortest | crates/oxgraph-algo/src/sssp.rs:51-64 | A completed scan lists exactly the reachable members, each once, at their minimum hop count |
| Sssp.DistancesAreUnique | crates/oxgraph-algo/src/sssp.rs:22-28 | The view and the members determine the listing, its distances and its order |
| Sssp.ScanRow | crates/oxgraph-algo/src/sssp.rs:54-63 | Scanning one element's connections queues the members met first there, one hop further, and keeps the layering |
| Sssp.ShortestPathLengths | crates/oxgraph-algo/src/sssp.rs:27-65 | Empty exactly when the source is not a member; otherwise the true shortest distances to exactly the reachable members |
| Bytes.DecodeEncoded | crates/oxgraph-db/src/wire.rs:756-805 | Little-endian fields read back what was written |
| Bytes.EncodeDecoded | crates/oxgraph-db/src/wire.rs:756-805 | and every byte string is the encoding of what it reads as |
| Bytes.WordsRoundTrip | crates/oxgraph-db/src/freeze.rs:675-702 | A run of 64-bit words reads back |
| Bytes.WordsCanonical | crates/oxgraph-db/src/freeze.rs:675-702 | and has only one encoding |
| Wal.RecordCrcCoversRest | crates/oxgraph-db/src/wal.rs:136-140 | The stored checksum is that of the record with its own field cut out |
| Wal.CrcPatch | crates/oxgraph-db/src/wal.rs:156-191 | Writing the checksum into its field changes no other byte |
| Wal.EncodeCommit | crates/oxgraph-db/src/wal.rs:156-191 | The bytes written are the frame's record, and an error exactly when its length does not fit 32 bits |
| Wal.DecodeOps | crates/oxgraph-db/src/wal.rs:231-242 | Splits a validated record into its operations and trailing blob |
| Wal.Replay | crates/oxgraph-db/src/wal.rs:398-431 | The loop computes the frames and length of the maximal valid prefix, or the error of the first loud record; the frontier is the last frame's sequence number and transaction, and 0 without frames |
| WalRecovery.HeaderRoundTrip | crates/oxgraph-db/src/wire.rs:756-775 | Record headers read back |
| WalRecovery.HeaderCanonical | crates/oxgraph-db/src/wire.rs:756-775 | and have one encoding |
| WalRecovery.OpsRoundTrip | crates/oxgraph-db/src/wal.rs:231-242 | Operation arrays read back |
| WalRecovery.OpsCanonical | crates/oxgraph-db/src/wal.rs:231-242 | and have one encoding |
| WalRecovery.ParseRecord | crates/oxgraph-db/src/wal.rs:271-375 | A whole record at the head of the buffer is parsed back, whatever follows it |
| WalRecovery.ParseTorn | crates/oxgraph-db/src/wal.rs:271-353 | Every proper prefix of a record is a torn tail, never an error |
| WalRecovery.ParseInverse | crates/oxgraph-db/src/wal.rs:271-375 | Whatever parses as a frame is byte for byte that frame's record, and follows the cursor |
| WalRecovery.ReplayAppended | crates/oxgraph-db/src/wal.rs:398-431 | Replaying appended records followed by a torn tail returns exactly those frames and their length |
| WalRecovery.ReplayedIsAppended | crates/oxgraph-db/src/wal.rs:398-431 | Whenever replay succeeds, re-encoding its frames reproduces the valid prefix byte for byte |
| WalRecovery.ReplayIsExact | crates/oxgraph-db/src/wal.rs:398-431 | Replay returns frames and a length if and only if those frames' records, with ascending sequence numbers, are that prefix and what follows is a torn tail |
| WalRecovery.ReplayPasses | crates/oxgraph-db/src/wal.rs:398-431 | Replay passes over appended records, whatever stands behind them |
| WalRecovery.ReplayOfValidPrefix | crates/oxgraph-db/src/wal.rs:398-431 | Replaying the prefix of the reported length gives the same outcome |
| WalRecovery.CompleteCountIsMaximal | crates/oxgraph-db/src/wal.rs:398-431 | The number of whole records before a cut is the largest that fits |
| WalRecovery.CutRecoversCompleteRecords | crates/oxgraph-db/src/wal.rs:821-849 | A log cut at any byte replays to exactly the records wholly before the cut |
| WalRecovery.DamageErrorNames | crates/oxgraph-db/src/wal.rs:252-353 | A damaged header is reported for its generation if that differs although the magic is right, and as corrupt at its sequence number otherwise |
| WalRecovery.ParseDamaged | crates/oxgraph-db/src/wal.rs:252-353 | A full header that fails the magic, generation, framing or checksum test is that error exactly when its length field lies between the framing and the end of the log with bytes behind it, and the end of the log otherwise |
| WalRecovery.DamageIsLoudIffFollowed | crates/oxgraph-db/src/wal.rs:252-353 | Behind valid records, such damage makes replay fail with that error exactly when it is followed, and otherwise replay returns exactly the records before it |
| WalRecovery.ParseRegressed | crates/oxgraph-db/src/wal.rs:252-353 | A whole record whose sequence number does not advance is an error |
| WalRecovery.OverlongLengthHidesTheNext | crates/oxgraph-db/src/wal.rs:377-392 | A damaged length that runs past the end of the log silently hides the well-formed record behind it |
| WalRecovery.DocumentedLoudnessFails | crates/oxgraph-db/src/wal.rs:377-392 | Concrete frames for which damage followed by a well-formed record is not an error, against the documentation |
| WalRecovery.DeltaLog.AppendCommit | crates/oxgraph-db/src/wal.rs:531-544 | Acknowledges exactly a fully written and synced record; on failure the file is rolled back if truncation works, and keeps a partial record if it does not |
| WalRecovery.DeltaLog.RollbackTo | crates/oxgraph-db/src/wal.rs:554-557 | Truncates, or leaves the file as it was when truncation fails |
| WalRecovery.DurableReplays | crates/oxgraph-db/src/database/open.rs:108-117 | In a durable store replay succeeds, and its frames are what the valid prefix encodes |
| WalRecovery.StepKeepsDurable | crates/oxgraph-db/src/wal.rs:531-557 | Every append, failure (leaving any prefix of its record when truncation fails too), crash and recovery keeps the store durable and forgets no acknowledged commit, except an append behind what a failed one left |
| WalRecovery.RecoveryIsDurable | crates/oxgraph-db/src/database/open.rs:108-117 | A recovery that opens the store makes it durable again whatever was left |
| WalRecovery.EveryRunRecovers | crates/oxgraph-db/src/wal.rs:398-557 | At every point of every run at which no commit is buried behind a residue, replay succeeds with the acknowledged commits in order, plus the one in flight exactly when it was wholly written |
| WalRecovery.AppendOverResidue | crates/oxgraph-db/src/wal.rs:546-557 | What replay makes of a commit appended behind the first k bytes of a failed one with its sequence number: recovered for k = 0, an error for the whole record, an error or silently lost as the spliced header's damage is followed or not, and otherwise the spliced record |
| WalRecovery.ResidueHeader | crates/oxgraph-db/src/wal.rs:546-557 | When that spliced header is damaged and when it is followed, in terms of k, the two lengths and the checksum of the spliced bytes |
| WalRecovery.RecoveredOverResidue | crates/oxgraph-db/src/wal.rs:546-557 | When replay succeeds, the new commit is among the recovered ones if and only if its record stands at the residue's place |
| WalRecovery.AcknowledgedCommitLost | crates/oxgraph-db/src/wal.rs:546-557 | A commit that is reported durable and shorter than what is missing of the failed one is not in the error-free replay |
| WalRecovery.AcknowledgedCommitBlocksOpening | crates/oxgraph-db/src/wal.rs:546-557 | When the failed record was wholly written, the next acknowledged commit makes every later replay an error |
| WalRecovery.AcknowledgedCommitLostWitness | crates/oxgraph-db/src/wal.rs:546-557 | Concrete frames for which that happens |
| MutationLog.MutationRoundTrip | crates/oxgraph-db/src/overlay/write.rs:178-330 | Decoding a logged mutation gives it back, an incidence's role included, wherever its text landed in the blob |
| MutationLog.FlagsRoundTrip | crates/oxgraph-db/src/wire.rs:970-983 | Two 16-bit tags packed into one flag word come apart again |
| MutationLog.TakeFrame | crates/oxgraph-db/src/overlay/write.rs:149-153 | The frame is the logged operations with the id watermark last, and their interned text |
| MutationLog.BlobAround | crates/oxgraph-db/src/overlay/log.rs:56-90 | Each mutation's text sits in the blob between what was interned before and after it |
| MutationLog.FrameDecodes | crates/oxgraph-db/src/overlay/write.rs:178-243 | Operation i of a frame decodes to mutation i of the log it was taken from |
| MutationLog.ApplyFrame | crates/oxgraph-db/src/overlay/write.rs:178-243 | Replaying a frame brings the overlay to what the log left visible, index included, and reports its watermark |
| MutationLog.RecoveredIsPastAll | crates/oxgraph-db/src/database/open.rs:122-138 | The recovered watermark is past the base's and every committed one |
| MutationLog.FoldFrames | crates/oxgraph-db/src/database/open.rs:120-138 | Folding all frames over the base rebuilds what the transactions left, in order |
| MutationLog.RecoveredIsGreatest | crates/oxgraph-db/src/database/open.rs:122-138 | Every allocator is recovered as the greatest of the base's watermark and the frames', one of which it is |
| MutationLog.OpenOverlay | crates/oxgraph-db/src/database/open.rs:108-140 | After opening, the visible state is the base with every committed log applied, every index lookup agrees with it, and every allocator resumes exactly at the greatest watermark recorded |
| Durability.SerialFolds | crates/oxgraph-db/src/database/open.rs:120-138 | Transactions each written on what the ones before it left are frames that opening folds back |
| Durability.Commit | crates/oxgraph-db/src/database/writer.rs:828-876 | Nothing to log leaves the file alone, a frame too large is refused; otherwise the frame of exactly the delta's log, closed by exactly its allocators and the catalog's, is appended, acknowledged exactly when wholly written and synced |
| Durability.StepKeepsConsistent | crates/oxgraph-db/src/database/writer.rs:828-875 | Each commit, crash and recovery keeps the log a serial history of transactions over the base, and forgets none that was acknowledged |
| Durability.EveryDbRun | crates/oxgraph-db/src/database/writer.rs:828-875 | and so does every run that buries no commit behind a residue |
| Durability.OpeningFindsCommitted | crates/oxgraph-db/src/database/open.rs:99-140 | In every such run replay finds the acknowledged transactions in order, plus the one in flight exactly when it was wholly written |
| Durability.Frontier | crates/oxgraph-db/src/database/open.rs:120-135 | Numbering goes on from the last frame's sequence number, or the superblock's, and from the greatest transaction id |
| Durability.Reopen | crates/oxgraph-db/src/database/open.rs:99-160 | Reopening at any point of such a run shows the base with exactly those transactions applied, indexes agreeing; ids and numbers go on exactly where the furthest of the base and those transactions left them |
| WireFormat.LowBytesFirst | crates/oxgraph-db/src/wire.rs:755-775 | Stored numbers are little-endian |
| WireFormat.WordAt | crates/oxgraph-db/src/freeze.rs:675-702 | Words follow one another, eight bytes each |
| WireFormat.OperationLayout | crates/oxgraph-db/src/wire.rs:795-806 | An operation is its kind, its flags and nine words |
| WireFormat.HeaderLayout | crates/oxgraph-db/src/wire.rs:756-775 | Each header field has its place and width |
| WireFormat.MagicBytes | crates/oxgraph-db/src/wire.rs:737 | The magic as four bytes |
| WireFormat.RecordLayout | crates/oxgraph-db/src/wire.rs:740-775 | A record is forty bytes of header, eighty for every operation, and the blob; its checksum is that of all but its own field |
| WireFormat.MutationWords | crates/oxgraph-db/src/wire.rs:807-856 | Kind and words of every logged creation, tombstone, label and type |
| WireFormat.PropertyWords | crates/oxgraph-db/src/wire.rs:857-876 | Kind, tags and words of a property set or removed, for every type of value |
| WireFormat.WatermarkWords | crates/oxgraph-db/src/wire.rs:912-922 | The nine allocators in one operation |
| WireFormat.OtherKinds | crates/oxgraph-db/src/overlay/write.rs:218-247 | A kind that is not of the format is corrupt; relation labels and catalog entries are not followed further |
| WireFormat.SectionLayout | crates/oxgraph-db/src/freeze.rs:675-702 | A posting section is two lengths, the directory and the pool |
| WireFormat.SimpleEntryWords | crates/oxgraph-db/src/wire.rs:624-640 | A directory entry is key, offset and length |
| WireFormat.EqualityEntryWords | crates/oxgraph-db/src/wire.rs:653-672 | An equality entry is key, type tag, scalar, place of the text and place of the subjects |
| WireFormat.ValueWords | crates/oxgraph-db/src/wire.rs:513-540 | Tags and scalars of values: flags as 0 and 1, numbers in two's complement |
| WireFormat.SubjectWordsAt | crates/oxgraph-db/src/wire.rs:542-582 | A subject is its family's number, 0, 1 or 2, and its id |
| Values.BytesOrder | crates/oxgraph-db/src/value.rs:36-44 | Text compares bytewise: a strict total order |
| Values.ValueOrder | crates/oxgraph-db/src/value.rs:36-44 | Boolean before Integer before Text: a strict total order |
| Values.BytesLessIsLexicographic | crates/oxgraph-db/src/value.rs:36-44 | Texts compare at the first byte that differs, a proper prefix being less |
| Values.ValuesCompareByTypeThenPayload | crates/oxgraph-db/src/value.rs:36-44 | Values of different types compare by type, numbers as numbers, false before true, texts by bytes |
| Values.PairOrder | crates/oxgraph-db/src/index.rs:430-456 | Pairs of key and value are ordered by key, then value |
| Values.SubjectOrder | crates/oxgraph-db/src/state.rs:174-181 | Subjects are ordered by family, then id |
| Values.SubjectsAndPairsCompare | crates/oxgraph-db/src/state.rs:159-181 | Elements before relations before incidences and then by id; pairs by key and then by value |
| Values.LeastValue | crates/oxgraph-db/src/value.rs:36-44 | Boolean(false) is the least value, so a key's postings begin at it |
| Index.PostingFacts | crates/oxgraph-db/src/index.rs:1464-1474 | Inserting or removing one member changes exactly one posting by exactly that member, and no empty posting is left behind |
| Index.DeltaKept | crates/oxgraph-db/src/index.rs:957-967 | Added and removed stay disjoint per posting, through every mutator |
| Index.DeltaStep | crates/oxgraph-db/src/index.rs:1483-1501 | A mutator changes the merged posting of exactly one key by exactly one member |
| Index.Collect | crates/oxgraph-db/src/index.rs:284-335 | Filing every record under each of its keys gives each key exactly its records |
| Index.CollectProperties | crates/oxgraph-db/src/index.rs:284-335 | The equality map holds a subject under a pair exactly when the subject carries it |
| Index.CollectTypes | crates/oxgraph-db/src/index.rs:284-335 | The type map is the scan of the relations |
| Index.CollectByElement | crates/oxgraph-db/src/index.rs:284-335 | The adjacency of every element is the scan of the incidences |
| Index.CollectByRelation | crates/oxgraph-db/src/index.rs:284-335 | and so is that of every relation |
| Index.FromRecords | crates/oxgraph-db/src/index.rs:284-335 | All five maps of a fresh base index equal the scans of its records |
| Index.RangePostings | crates/oxgraph-db/src/index.rs:723-747 | The owned range scan lists exactly the postings of the key with a value in range, ascending; none when the bounds cross |
| Index.KeyPostings | crates/oxgraph-db/src/index.rs:749-770 | The owned key scan lists exactly the postings of the key, ascending |
| OverlayIndexes.LabelAdded | crates/oxgraph-db/src/index.rs:1099-1102 | Merged label postings follow the record change |
| OverlayIndexes.TypeAdded | crates/oxgraph-db/src/index.rs:1128-1141 | Merged type postings follow a relation gaining a type |
| OverlayIndexes.TypeRemoved | crates/oxgraph-db/src/index.rs:1148-1152 | and losing it |
| OverlayIndexes.EqualityAdded | crates/oxgraph-db/src/index.rs:1031-1034 | Merged equality postings follow a property set to a value no other value hides |
| OverlayIndexes.EqualityRemoved | crates/oxgraph-db/src/index.rs:1042-1050 | and a property withdrawn |
| OverlayIndexes.ElementEndAdded | crates/oxgraph-db/src/index.rs:1110-1120 | Adjacency follows a created incidence if and only if its id was free or already had this element |
| OverlayIndexes.RelationEndAdded | crates/oxgraph-db/src/index.rs:1110-1120 | and likewise for the relation end |
| OverlayIndexes.OverlayIndex.constructor | crates/oxgraph-db/src/index.rs:1010-1023 | An empty overlay agrees with the records its base was built from |
| OverlayIndexes.OverlayIndex.Clone | crates/oxgraph-db/src/index.rs:973-1002 | A copy holds the same deltas |
| OverlayIndexes.OverlayIndex.AddEquality | crates/oxgraph-db/src/index.rs:1031-1034 | One posting gains one subject |
| OverlayIndexes.OverlayIndex.RemoveEquality | crates/oxgraph-db/src/index.rs:1042-1050 | One posting loses one subject |
| OverlayIndexes.OverlayIndex.OnSetProperty | crates/oxgraph-db/src/index.rs:1062-1075 | Fed the visible previous value, keeps every lookup equal to the scan of the changed records |
| OverlayIndexes.OverlayIndex.OnRemoveProperty | crates/oxgraph-db/src/index.rs:1083-1092 | Keeps agreement when a property is removed |
| OverlayIndexes.OverlayIndex.OnAddElementLabel | crates/oxgraph-db/src/index.rs:1099-1102 | Keeps agreement when a visible element gains a label |
| OverlayIndexes.OverlayIndex.OnCreateIncidence | crates/oxgraph-db/src/index.rs:1110-1120 | Keeps agreement exactly when the incidence id was free or already joined this relation and element |
| OverlayIndexes.OverlayIndex.RemoveRelationType | crates/oxgraph-db/src/index.rs:1148-1152 | Withdraws one type posting |
| OverlayIndexes.OverlayIndex.OnSetRelationType | crates/oxgraph-db/src/index.rs:1128-1141 | Fed the visible previous type, keeps agreement when the type changes |
| OverlayIndexes.OverlayIndex.WithdrawSubjectProperties | crates/oxgraph-db/src/index.rs:1220-1228 | The loop withdraws every posting the subject carries and no other |
| OverlayIndexes.OverlayIndex.OnTombstoneElement | crates/oxgraph-db/src/index.rs:1161-1172 | Keeps agreement when an element goes with its labels and properties |
| OverlayIndexes.OverlayIndex.OnTombstoneRelation | crates/oxgraph-db/src/index.rs:1181-1191 | Keeps agreement when a relation goes with its type and properties |
| OverlayIndexes.OverlayIndex.OnTombstoneIncidence | crates/oxgraph-db/src/index.rs:1199-1212 | Keeps agreement when a visible incidence goes with its properties |
| OverlayIndexes.OverlayIndex.ElementsWith | crates/oxgraph-db/src/index.rs:1236-1246 | Equals the scan of the records for the label, ascending, without duplicates |
| OverlayIndexes.OverlayIndex.RelationsWith | crates/oxgraph-db/src/index.rs:1254-1268 | Equals the scan of the records for the type |
| OverlayIndexes.OverlayIndex.ElementIncidences | crates/oxgraph-db/src/index.rs:1276-1288 | Equals the scan of the incidences on the element |
| OverlayIndexes.OverlayIndex.RelationIncidences | crates/oxgraph-db/src/index.rs:1296-1310 | Equals the scan of the incidences of the relation |
| OverlayIndexes.OverlayIndex.PropertyEqual | crates/oxgraph-db/src/index.rs:1350-1363 | Equals the scan for subjects carrying the pair |
| OverlayIndexes.OverlayIndex.PropertyRange | crates/oxgraph-db/src/index.rs:1377-1405 | Equals the scan for subjects whose value is neither below the one bound nor above the other, so none when the bounds cross |
| OverlayIndexes.OverlayIndex.PropertyKeySubjects | crates/oxgraph-db/src/index.rs:1320-1342 | Lists every subject that has the key with its value, ascending by subject |
| OverlayIndexes.OverlayIndex.PropertyCompositeEqual | crates/oxgraph-db/src/index.rs:1419-1448 | Equals the scan for subjects carrying every pair; none for no pairs |
| OverlayIndexes.KeptSubjects | crates/oxgraph-db/src/index.rs:1377-1410 | Base postings in range, each masked by the removals from it |
| OverlayIndexes.RangeIsGathered | crates/oxgraph-db/src/index.rs:1377-1410 | Masked base postings and additions in range together are the scan, although each posting is masked on its own |
| OverlayIndexes.KeptValues | crates/oxgraph-db/src/index.rs:1320-1345 | Every value kept from the base is the subject's visible one |
| OverlayIndexes.KeyIsGathered | crates/oxgraph-db/src/index.rs:1320-1345 | What was kept and joined is exactly the visible property of every subject that has the key |
| OverlayIndexes.Intersection | crates/oxgraph-db/src/index.rs:1419-1445 | Intersecting smallest first and stopping early gives the intersection of all |
| Overlay.RunsJoin | crates/oxgraph-db/src/database/open.rs:122-135 | Running two logs one after the other is running their concatenation |
| Overlay.Lookup | crates/oxgraph-db/src/overlay/write.rs:546-640 | A delta entry overrides or hides the base record; without one the base shows through |
| Overlay.ClearedIsStripped | crates/oxgraph-db/src/overlay/write.rs:854-862 | Clearing a subject in the delta hides exactly its properties |
| Overlay.SubjectOverlaid | crates/oxgraph-db/src/overlay/write.rs:646-669 | A subject's own base properties merged with its own delta entries are its visible properties |
| Overlay.Merge | crates/oxgraph-db/src/overlay/write.rs:646-672 | A set overrides the base value, a removal masks it |
| Overlay.UnlabelledAgreement | crates/oxgraph-db/src/overlay/write.rs:256-265 | Recreating an element without touching the index is harmless exactly when it had no label |
| Overlay.UntypedAgreement | crates/oxgraph-db/src/overlay/write.rs:266-276 | Recreating a relation without touching the index is harmless exactly when it had no type |
| Overlay.StrippedAgreement | crates/oxgraph-db/src/overlay/write.rs:835-870 | Dropping a subject's properties without touching the index is harmless exactly when it had none |
| Overlay.TrackedPrefix | crates/oxgraph-db/src/overlay/write.rs:178-250 | A log whose mutations the index follows does so at every prefix |
| Overlay.WriteOverlay.constructor | crates/oxgraph-db/src/overlay/write.rs:79-100 | A fresh overlay shows the base and its index agrees |
| Overlay.WriteOverlay.FromOverlay | crates/oxgraph-db/src/overlay/write.rs:112-128 | A writer seeded from a published overlay shows the same state with an empty log |
| Overlay.WriteOverlay.SetNextIds | crates/oxgraph-db/src/overlay/write.rs:530-532 | Sets the watermark and nothing else |
| Overlay.WriteOverlay.TombstoneElementInner | crates/oxgraph-db/src/overlay/write.rs:781-788 | The element and its properties disappear; the index agrees |
| Overlay.WriteOverlay.TombstoneRelationInner | crates/oxgraph-db/src/overlay/write.rs:807-815 | The relation and its properties disappear; the index agrees |
| Overlay.WriteOverlay.TombstoneIncidenceInner | crates/oxgraph-db/src/overlay/write.rs:835-845 | The incidence and its properties disappear; the index agrees exactly when the incidence was visible or had no property |
| Overlay.WriteOverlay.AddElementLabelInner | crates/oxgraph-db/src/overlay/write.rs:893-914 | A visible element gains the label, an absent one nothing; the index agrees |
| Overlay.WriteOverlay.SetRelationTypeInner | crates/oxgraph-db/src/overlay/write.rs:978-1006 | A visible relation changes its type, an absent one nothing; the index agrees |
| Overlay.WriteOverlay.SetPropertyInner | crates/oxgraph-db/src/overlay/write.rs:1065-1075 | The property becomes visible with the value; the index agrees |
| Overlay.WriteOverlay.RemovePropertyInner | crates/oxgraph-db/src/overlay/write.rs:1107-1116 | The property disappears; the index agrees |
| Overlay.WriteOverlay.InsertElement | crates/oxgraph-db/src/overlay/write.rs:256-265 | Replayed creation: a bare element; the index agrees exactly when it had no label |
| Overlay.WriteOverlay.InsertRelation | crates/oxgraph-db/src/overlay/write.rs:266-276 | Replayed creation: an untyped relation; the index agrees exactly when it had no type |
| Overlay.WriteOverlay.InsertIncidence | crates/oxgraph-db/src/overlay/write.rs:277-292 | Replayed creation: an incidence; the index agrees exactly when its id was free or already joined this relation and element |
| Overlay.WriteOverlay.ApplyReplayOp | crates/oxgraph-db/src/overlay/write.rs:178-243 | Applies one decoded mutation; the index stays in agreement exactly when it was tracked |
| Overlay.WriteOverlay.Replay | crates/oxgraph-db/src/overlay/write.rs:178-243 | Replaying a log rebuilds the state its writer saw, index included |
| Overlay.WriteOverlay.NewElement | crates/oxgraph-db/src/overlay/write.rs:680-694 | A fresh id from the watermark, or nothing at all when it is exhausted; logged |
| Overlay.WriteOverlay.NewRelation | crates/oxgraph-db/src/overlay/write.rs:705-720 | A fresh id from the watermark, or nothing at all when it is exhausted; logged |
| Overlay.WriteOverlay.NewIncidence | crates/oxgraph-db/src/overlay/write.rs:731-757 | A fresh id from the watermark with its ends, or nothing at all; logged and indexed |
| Overlay.WriteOverlay.Record | crates/oxgraph-db/src/overlay/write.rs:769-1125 | Every other mutation is applied and logged; a set of the value already visible does neither |
| Overlay.WriteOverlay.VisibleSubjectProperties | crates/oxgraph-db/src/overlay/write.rs:646-672 | A subject's merged properties |
| Writer.CascadeKeepsIntegrity | crates/oxgraph-db/src/database/writer.rs:381-430 | Cascading deletes leave no incidence with a missing end and no property without its subject |
| Writer.ElementLeavesWith | crates/oxgraph-db/src/database/writer.rs:381-405 | Exactly the incidences on an element are gone with it, and exactly the properties of these and of it |
| Writer.RelationLeavesWith | crates/oxgraph-db/src/database/writer.rs:410-430 | and likewise for a relation |
| Writer.ElementCascade | crates/oxgraph-db/src/database/writer.rs:381-405 | Tombstoning the incidences the adjacency index lists, after the element, removes exactly the element with everything attached |
| Writer.RelationCascade | crates/oxgraph-db/src/database/writer.rs:410-430 | and likewise for a relation |
| Writer.WriteTransaction.constructor | crates/oxgraph-db/src/database/writer.rs:30-55 | A transaction begins on a valid overlay with referential integrity |
| Writer.WriteTransaction.CreateElement | crates/oxgraph-db/src/database/writer.rs:333-335 | Exactly the next id, which is fresh, as an element without labels; IdOverflow exactly when the watermark is exhausted |
| Writer.WriteTransaction.CreateRelation | crates/oxgraph-db/src/database/writer.rs:346-348 | Exactly the next id, which is fresh, as an untyped relation; IdOverflow exactly when the watermark is exhausted |
| Writer.WriteTransaction.CreateIncidence | crates/oxgraph-db/src/database/writer.rs:360-370 | Refused exactly for the first of an unknown relation, an unknown element, an unregistered role and exhausted ids; a refusal changes nothing, success adds the next id, which is fresh, with these ends |
| Writer.WriteTransaction.TombstoneElement | crates/oxgraph-db/src/database/writer.rs:381-399 | Removes the element, its properties, its incidences and theirs; refused exactly for an unknown element, changing nothing |
| Writer.WriteTransaction.TombstoneRelation | crates/oxgraph-db/src/database/writer.rs:410-427 | Removes the relation, its properties, its incidences and theirs; refused exactly for an unknown relation |
| Writer.WriteTransaction.TombstoneIncidences | crates/oxgraph-db/src/database/writer.rs:381-430 | The cascade loop: every incidence is still visible when its turn comes |
| Writer.WriteTransaction.TombstoneIncidence | crates/oxgraph-db/src/database/writer.rs:438-443 | Removes one visible incidence with its properties; refused exactly for an unknown one |
| Writer.WriteTransaction.AddElementLabel | crates/oxgraph-db/src/database/writer.rs:454-464 | Adds the label to a visible element; refused exactly for the first of an unknown element and an unregistered label, changing nothing |
| Writer.WriteTransaction.SetRelationType | crates/oxgraph-db/src/database/writer.rs:496-506 | Changes a visible relation's type; refused exactly for the first of an unknown relation and an unregistered type, changing nothing |
| Writer.WriteTransaction.SetProperty | crates/oxgraph-db/src/database/writer.rs:518-553 | Sets the property of a visible subject; refused exactly for the first of an unknown subject, an unregistered key, a key of another family and a value of another type; nothing is logged when the value is already there, and stored values keep their keys' family and type |
| Writer.WriteTransaction.RemoveProperty | crates/oxgraph-db/src/database/writer.rs:564-576 | Removes the property of a visible subject; refused exactly for the first of an unknown subject and an unregistered key, changing nothing |
| Postings.RowsOf | crates/oxgraph-db/src/freeze.rs:675-702 | Iterating an ordered posting map gives ascending rows of ascending members |
| Postings.FlatSlice | crates/oxgraph-db/src/freeze.rs:675-702 | Row j lies in the pool right after the rows before it |
| Postings.EncodeSimple | crates/oxgraph-db/src/freeze.rs:675-700 | Directory and pool hold exactly the rows of the map, each right behind the ones before it |
| Postings.SimpleLookup | crates/oxgraph-db/src/index.rs:584-613 | Binary search and one slice give the row of the key, or nothing when there is none |
| Postings.AnswersAreOwned | crates/oxgraph-db/src/index.rs:615-685 | For every key the persisted answer is the owned map's |
| Postings.SplitFramed | crates/oxgraph-db/src/freeze.rs:900-934 | Splitting a framed section gives back directory and pool |
| Postings.FramedSplit | crates/oxgraph-db/src/freeze.rs:900-934 | and whatever splits is a framed section, up to ignored trailing bytes |
| Postings.SimpleEntriesRoundTrip | crates/oxgraph-db/src/wire.rs:624-640 | Directory entries read back |
| Postings.SimpleReadsBack | crates/oxgraph-db/src/freeze.rs:866-934 | A written section opens as its directory and pool |
| Postings.WriteSimple | crates/oxgraph-db/src/freeze.rs:675-702 | A posting map written as a section opens as a directory and pool that hold its rows; an empty map as an empty section |
| Postings.ValidateSimple | crates/oxgraph-db/src/index.rs:530-540 | Accepts exactly the directories whose every entry slices inside the pool |
| EqualityPostings.CastRoundTrip | crates/oxgraph-db/src/freeze.rs:716-773 | A signed integer stored as an unsigned word reads back |
| EqualityPostings.SubjectPair | crates/oxgraph-db/src/wire.rs:560-582 | A subject's kind and id words decode to it |
| EqualityPostings.DecodeSubjects | crates/oxgraph-db/src/index.rs:774-787 | Decodes whole pairs in order, skipping unknown kinds |
| EqualityPostings.KnownPairs | crates/oxgraph-db/src/index.rs:774-787 | What is decoded are exactly the pairs of a known kind, in order |
| EqualityPostings.WordsDecode | crates/oxgraph-db/src/index.rs:774-787 | Decoding what was written gives the subjects back |
| EqualityPostings.EncodeEquality | crates/oxgraph-db/src/freeze.rs:716-773 | Directory, pool and text hold exactly the rows, whatever the value type, each right behind the ones before it |
| EqualityPostings.EncodeSubjects | crates/oxgraph-db/src/freeze.rs:716-773 | Kind and id of every subject, in order |
| EqualityPostings.EntryHoldsOn | crates/oxgraph-db/src/freeze.rs:716-773 | Appending to the pools disturbs no earlier entry |
| EqualityPostings.EqualitySubjects | crates/oxgraph-db/src/index.rs:687-710 | Binary search over reconstructed pairs finds the row of the pair, or nothing |
| EqualityPostings.KeyLowerBound | crates/oxgraph-db/src/index.rs:795-801 | The first entry whose key is not below the key |
| EqualityPostings.RangePostings | crates/oxgraph-db/src/index.rs:809-842 | The directory run of a key in a value range is the selected rows, in order |
| EqualityPostings.KeyPostings | crates/oxgraph-db/src/index.rs:844-862 | The directory run of a key is the selected rows, in order |
| EqualityPostings.KeptRows | crates/oxgraph-db/src/index.rs:809-862 | Selected rows are exactly those of the key and range, still ascending |
| EqualityPostings.KeptLists | crates/oxgraph-db/src/index.rs:809-862 | Selected rows list exactly the selected postings of the map |
| EqualityPostings.PostingsAreUnique | crates/oxgraph-db/src/index.rs:19-26 | Two listings of the same postings are equal entry by entry |
| EqualityPostings.PersistedSlicesAreOwned | crates/oxgraph-db/src/index.rs:723-862 | Persisted range and key scans deliver exactly what the owned ones do |
| EqualityPostings.SubjectsAreOwned | crates/oxgraph-db/src/index.rs:687-710 | For every pair the persisted probe answers with the owned map's posting |
| EqualityPostings.ValidateEquality | crates/oxgraph-db/src/index.rs:554-576 | Accepts exactly the directories whose every entry slices inside the pool and reconstructs a pair |
| EqualityPostings.HeldIsWellFormed | crates/oxgraph-db/src/index.rs:554-582 | What was written validates |
| EqualityPostings.EqualityEntriesRoundTrip | crates/oxgraph-db/src/wire.rs:653-672 | Directory entries read back |
| EqualityPostings.EqualityReadsBack | crates/oxgraph-db/src/freeze.rs:866-934 | A written section opens as its directory and pool |
| EqualityPostings.WriteEquality | crates/oxgraph-db/src/freeze.rs:716-773 | An equality map written as section and text opens as one that holds its rows |
| Csr.CountRows | crates/oxgraph-csr/src/build.rs:1028-1036 | Counting gives each node its number of outgoing edges |
| Csr.PrefixSums | crates/oxgraph-csr/src/build.rs:1037-1041 | The running sum turns counts into row starts |
| Csr.PlaceEdges | crates/oxgraph-csr/src/build.rs:1047-1061 | Distributing edges in id order fills every row ascending and disturbs no other |
| Csr.FreezeTopology | crates/oxgraph-csr/src/build.rs:1019-1070 | Succeeds exactly when the edge count fits the index type; rows are then the stable counting sort of the edge table |
| Csr.FrozenRow | crates/oxgraph-csr/src/build.rs:1125-1141 | Row n lists exactly the edges with source n in ascending id, and the grouped targets match the edge table |
| Csr.FrozenSlot | crates/oxgraph-csr/src/build.rs:1019-1070 | Every slot belongs to a row and holds one of its edges with its target |
| Csr.FrozenIsPermutation | crates/oxgraph-csr/src/build.rs:1019-1070 | Edge ids are a permutation of the edges |
| Csr.FrozenIsUnique | crates/oxgraph-csr/src/build.rs:1019-1070 | The edge table determines the frozen arrays |
| Csr.GraphBuilder.constructor | crates/oxgraph-csr/src/build.rs:203-210 | An empty builder |
| Csr.GraphBuilder.AddNode | crates/oxgraph-csr/src/build.rs:222-229 | The next dense id, or overflow exactly when it does not fit; nothing else changes |
| Csr.GraphBuilder.AddEdge | crates/oxgraph-csr/src/build.rs:242-256 | Refuses an unknown source, then an unknown target, then an id overflow; otherwise appends the edge |
| Csr.GraphBuilder.Freeze | crates/oxgraph-csr/src/build.rs:288-294 | The frozen form of the edges added, in insertion order |
| Csr.Transpose | crates/oxgraph-csr/src/build.rs:642-650 | The frozen form of the swapped edge table, edge ids kept |
| Csr.TransposeTwice | crates/oxgraph-csr/src/build.rs:642-650 | Transposing twice gives back the same arrays |
| Csr.TransposeSwapsRows | crates/oxgraph-csr/src/build.rs:642-650 | An edge is in row m and in transposed row n exactly when it runs from m to n |
| Csr.Validate | crates/oxgraph-csr/src/lib.rs:453-488 | Reports nothing exactly for well-formed offsets and targets, and otherwise the first issue in checking order |
| Csr.FrozenPassesValidation | crates/oxgraph-csr/src/lib.rs:489-501 | The frozen arrays, which skip validation, would pass it |
| Csr.SuccessorsAgree | crates/oxgraph-csr/src/lib.rs:981-984 | Slicing grouped targets and mapping edge ids yield the same successors, in insertion order, parallel edges included |
| Projection.GraphEndpoints | crates/oxgraph-db/src/projection.rs:1106-1142 | The source is the element of the only incidence with the source role and the target that of the only one with the target role; otherwise the first incidence to repeat a role is reported for it, source before target, or a role that no incidence has |
| Projection.EdgeOrRefused | crates/oxgraph-db/src/projection.rs:1106-1142 | A relation that is an edge is never refused |
| Projection.GraphProjectionBuilder.constructor | crates/oxgraph-db/src/projection.rs:218-228 | A builder that projects nothing |
| Projection.GraphProjectionBuilder.InternElement | crates/oxgraph-db/src/projection.rs:1145-1157 | Returns the element's local id, numbering a new one next; fails exactly for a new one when 32-bit ids are used up |
| Projection.GraphProjectionBuilder.PushRelation | crates/oxgraph-db/src/projection.rs:230-256 | Adds one relation as the next edge, or fails for a bad endpoint or exhausted ids |
| Projection.GraphProjectionBuilder.Finish | crates/oxgraph-db/src/projection.rs:257-302 | The finished projection of everything pushed |
| Projection.FreezeEndpoints | crates/oxgraph-db/src/projection.rs:257-302 | Rebuilding the edges on the CSR builder freezes them |
| Projection.Grouped | crates/oxgraph-db/src/projection.rs:343-367 | Splits a flat array into its rows, or fails exactly when some row is out of bounds |
| Projection.RowsMatch | crates/oxgraph-db/src/projection.rs:484-499 | Out-edges and successors (in-edges and predecessors) correspond position by position |
| Projection.FromState | crates/oxgraph-db/src/projection.rs:162-173 | A projection that is built has inverse local and canonical maps, numbers elements by first use, source before target, and lists each selected relation once, under its source and target; otherwise the first selected relation that is no edge is reported, or ids ran out |
| Projection.ProjectionIsUnique | crates/oxgraph-db/src/projection.rs:162-302 | The selected relations determine the projection: numbering, edges and adjacency |
| RankMath.SpreadSum | crates/oxgraph-algo/src/pagerank.rs:299-327 | Spreading a rank adds it times the fractions, nowhere else |
| RankMath.SpreadDist | crates/oxgraph-algo/src/pagerank.rs:299-327 | Spreading two ranks moves two vectors apart by at most the difference of the ranks |
| RankMath.SweepConserves | crates/oxgraph-algo/src/pagerank.rs:2011-2057 | What a sweep delivers plus what dangles is what it took |
| RankMath.SweepDist | crates/oxgraph-algo/src/pagerank.rs:2011-2057 | Two sweeps, with what dangles, differ by no more than their inputs |
| RankMath.StepConserves | crates/oxgraph-algo/src/pagerank.rs:2265-2294 | An iteration takes distributions to distributions: nonnegative, mass exactly 1 over visible states, 0 elsewhere |
| RankMath.StepContracts | crates/oxgraph-algo/src/pagerank.rs:2249-2294 | An iteration brings any two vectors closer in L1 by the damping factor |
| RankMath.FirstStep | crates/oxgraph-algo/src/pagerank.rs:1950-1968 | The first iteration from the teleport vector moves at most twice the damping |
| RankMath.PushIsPull | crates/oxgraph-algo/src/pagerank.rs:2011-2057 | Handing ranks on along every row is gathering them at every state |
| RankMath.StepEquation | crates/oxgraph-algo/src/pagerank.rs:2265-2294 | An iteration is the PageRank equation: the damped inflow, and the teleport share of what damping withholds and what dangles |
| RankMath.OrbitEquation | crates/oxgraph-algo/src/pagerank.rs:2011-2057 | Each iterate follows from the one before by that equation |
| RankMath.StationaryIffSolution | crates/oxgraph-algo/src/pagerank.rs:2011-2057 | Stationary vectors are exactly its solutions |
| RankMath.OrbitConserves | crates/oxgraph-algo/src/pagerank.rs:2011-2057 | Every iterate is a distribution |
| RankMath.DeltaShrinks | crates/oxgraph-algo/src/pagerank.rs:2011-2057 | Each L1 change is at most the damping factor times the one before |
| RankMath.DeltaBound | crates/oxgraph-algo/src/pagerank.rs:2011-2057 | The k-th change is at most 2 d^k |
| RankMath.PowBernoulli | crates/oxgraph-algo/src/pagerank.rs:2011-2057 | Powers below 1 shrink at least as fast as Bernoulli's bound |
| RankMath.PowFalls | crates/oxgraph-algo/src/pagerank.rs:2011-2057 | Powers of a damping never rise |
| RankMath.BoundVanishes | crates/oxgraph-algo/src/pagerank.rs:2011-2057 | For damping below 1 and a positive tolerance, every iteration count from some k on suffices |
| RankMath.NearStationary | crates/oxgraph-algo/src/pagerank.rs:2011-2057 | An iterate lies within d/(1-d) times its last change of any stationary vector |
| RankMath.StationaryIsUnique | crates/oxgraph-algo/src/pagerank.rs:2011-2057 | Below damping 1 there is at most one stationary vector |
| PageRank.RowIsOk | crates/oxgraph-algo/src/pagerank.rs:280-388 | A row accepted by either rule spreads the whole rank by nonnegative fractions over visible targets |
| PageRank.RowFollowsRule | crates/oxgraph-algo/src/pagerank.rs:280-388 | Uniformly, the shares of the edges to visible targets are equal and make one; by weight, each is to one as its weight to all the weight |
| PageRank.ErrorIsFirst | crates/oxgraph-algo/src/pagerank.rs:280-388 | A row is refused for its first edge with a target out of bounds or, when weights count, a negative weight to a visible target |
| PageRank.DistributeOutgoing | crates/oxgraph-algo/src/pagerank.rs:280-388 | The two passes add each visible target its share by the rule and return what dangles; the first bad edge is the error |
| PageRank.AddShares | crates/oxgraph-algo/src/pagerank.rs:299-388 | The second pass adds exactly the shares |
| PageRank.AcceptedMembers | crates/oxgraph-algo/src/pagerank.rs:1717-1762 | Accepted lists have no duplicate, are in bounds, and have no negative personalization |
| PageRank.MemberErrorIsFirst | crates/oxgraph-algo/src/pagerank.rs:1717-1762 | A list is refused for its first member that is out of bounds, repeated or given a negative value |
| PageRank.PlaceMember | crates/oxgraph-algo/src/pagerank.rs:1717-1762 | One member: out of bounds, then duplicate, then bad value; otherwise its value is copied and it is marked |
| PageRank.FillPersonalization | crates/oxgraph-algo/src/pagerank.rs:1717-1762 | The loop copies exactly the members' values, marks exactly the members, and sums them |
| PageRank.BuildPersonalization | crates/oxgraph-algo/src/pagerank.rs:1717-1762 | The teleport vector is a distribution over the members proportional to what was given; errors exactly as listed |
| PageRank.Normalized | crates/oxgraph-algo/src/pagerank.rs:1922-1937 | Dividing by the sum leaves a distribution |
| PageRank.InitializeRanks | crates/oxgraph-algo/src/pagerank.rs:1950-1968 | Ranks start at the teleport vector |
| PageRank.GraphRowsOk | crates/oxgraph-algo/src/pagerank.rs:2011-2057 | Every row of an accepted graph is a proper row |
| PageRank.GraphErrorIsFirst | crates/oxgraph-algo/src/pagerank.rs:2011-2057 | A graph is refused for the first listed element with a refused row |
| PageRank.Sweep | crates/oxgraph-algo/src/pagerank.rs:2011-2040 | One pass collects every rank's shares and the dangling mass |
| PageRank.ApplyTeleport | crates/oxgraph-algo/src/pagerank.rs:2265-2294 | The in-place update is the damped step, and the returned number its L1 change |
| PageRank.IterateGraph | crates/oxgraph-algo/src/pagerank.rs:2011-2057 | Returns at the first change within tolerance, or NonConverged with the last change when iterations run out; the ranks are that iterate |
| PageRank.SettlesWell | crates/oxgraph-algo/src/pagerank.rs:2011-2057 | Whatever the outcome the ranks are a distribution; iterations enough for the damping always converge; a converged result is near every stationary distribution |
| PageRank.AcceptedWalk | crates/oxgraph-algo/src/pagerank.rs:1312-1352 | An accepted graph is a proper walk whose rows follow the rule over the listed elements and which teleports in proportion to what was given |
| PageRank.PagerankGraph | crates/oxgraph-algo/src/pagerank.rs:1312-1352 | Refuses bad configurations, buffers and personalization in checking order, then iterates such a walk |
| Convergence.CycleIsWalk | crates/oxgraph-algo/src/pagerank.rs:2011-2057 | Two elements connected to each other, all teleport on one, are a proper walk for every damping |
| Convergence.BoundIsAttained | crates/oxgraph-algo/src/pagerank.rs:2011-2057 | On it the k-th change is exactly 2 d^k, so the general bound cannot be improved |
| Convergence.ConvergesIffBoundWithin | crates/oxgraph-algo/src/pagerank.rs:2011-2057 | Every proper walk converges under a configuration if and only if 2 d^maxIterations is within the tolerance |
| Convergence.NeverWithin | crates/oxgraph-algo/src/pagerank.rs:2041-2057 | Otherwise the two-cycle uses up its iterations and ends in NonConverged |
| Convergence.ConvergesIffDamped | crates/oxgraph-algo/src/pagerank.rs:1620-1635 | Some iteration count, and every larger one, suffices for every proper walk if and only if damping is below 1 and the tolerance positive, or damping is 0, or the tolerance at least 2 |
| HyperPageRank.HyperRowsOk | crates/oxgraph-algo/src/pagerank.rs:470-650 | Rows of elements (to relations) and relations (to elements) are proper rows of one walk over both families |
| HyperPageRank.StatesDistinct | crates/oxgraph-algo/src/pagerank.rs:1846-1920 | Element and relation states do not collide |
| HyperPageRank.SweepElements | crates/oxgraph-algo/src/pagerank.rs:2067-2139 | Elements hand their ranks to relations |
| HyperPageRank.SweepRelations | crates/oxgraph-algo/src/pagerank.rs:2067-2139 | Relations hand theirs to elements; together the two legs are one sweep over all states |
| HyperPageRank.SweepBoth | crates/oxgraph-algo/src/pagerank.rs:2067-2139 | Both legs collect what one sweep would, with its dangling mass, or the first error |
| HyperPageRank.ApplyFamily | crates/oxgraph-algo/src/pagerank.rs:2358-2405 | The in-place update of one family |
| HyperPageRank.ApplyHyperTeleport | crates/oxgraph-algo/src/pagerank.rs:2358-2405 | Updating elements, then relations, is one damped step with its L1 change |
| HyperPageRank.BuildHyperPersonalization | crates/oxgraph-algo/src/pagerank.rs:1833-1920 | The teleport vector over both families is a distribution; errors exactly as listed |
| HyperPageRank.FilledIsDistribution | crates/oxgraph-algo/src/pagerank.rs:1833-1920 | Both families filled and divided by one sum |
| HyperPageRank.HyperRowsFollow | crates/oxgraph-algo/src/pagerank.rs:470-650 | Elements spread their rank over relations and relations over elements, by the rule |
| HyperPageRank.HyperWalkOk | crates/oxgraph-algo/src/pagerank.rs:1499-1563 | An accepted hypergraph is a proper walk that follows the rule on both sides and teleports in proportion to what was given, so the graph theorems apply |
| HyperPageRank.InitializeHyperRanks | crates/oxgraph-algo/src/pagerank.rs:1974-2001 | Both families start at their teleport values |
| HyperPageRank.IterateHypergraph | crates/oxgraph-algo/src/pagerank.rs:2067-2139 | As for graphs, over elements and relations together |
| HyperPageRank.PagerankHypergraph | crates/oxgraph-algo/src/pagerank.rs:1499-1563 | Refuses bad inputs in checking order, then iterates such a walk |
| Query.ParseOr | crates/oxgraph-db/src/query.rs:572-584 | The loop with its moving cursor computes the specified parse, error and cursor |
| Query.ParseAnd | crates/oxgraph-db/src/query.rs:587-599 | as ParseOr, for conjunctions |
| Query.ParseFactor | crates/oxgraph-db/src/query.rs:602-639 | as ParseOr, for a group or a comparison |
| Query.FactorCompletes | crates/oxgraph-db/src/query.rs:602-639 | A spelled group or comparison is parsed to its meaning, consuming exactly its tokens |
| Query.AndCompletes | crates/oxgraph-db/src/query.rs:587-600 | A spelled conjunction is parsed to its meaning, to the left |
| Query.OrCompletes | crates/oxgraph-db/src/query.rs:572-585 | A spelled disjunction is parsed to its meaning, AND binding tighter |
| Query.OrSounds | crates/oxgraph-db/src/query.rs:572-585 | Whatever was parsed is a sentence with that meaning, of exactly the consumed tokens |
| Query.AndSounds | crates/oxgraph-db/src/query.rs:587-600 | as OrSounds, for conjunctions |
| Query.FactorSounds | crates/oxgraph-db/src/query.rs:602-639 | as OrSounds, for factors |
| Query.ParsesExactlyTheGrammar | crates/oxgraph-db/src/query.rs:553-639 | The clause parses to a tree if and only if it is a sentence of the grammar with that meaning |
| Query.SentencesMeanOneThing | crates/oxgraph-db/src/query.rs:553-639 | The grammar is unambiguous |
| Query.SentencesArePrintable | crates/oxgraph-db/src/query.rs:602-639 | No parsed tree has an opening parenthesis as a key |
| Query.PrintedParsesBack | crates/oxgraph-db/src/query.rs:240-247 | The parenthesized printing parses back to its tree if and only if no key is an opening parenthesis |
| Query.KeywordsInAnyCase | crates/oxgraph-db/src/query.rs:440-447 | Keywords are recognised in any mixture of case |
| Query.OperatorsSpelled | crates/oxgraph-db/src/query.rs:641-653 | The five operators |
| Query.ShortClauses | crates/oxgraph-db/src/query.rs:623-639 | A clause that ends early names what is missing; another operator is refused |
| Query.UnclosedGroup | crates/oxgraph-db/src/query.rs:602-620 | A group that is not closed is unbalanced |
| Query.TrailingToken | crates/oxgraph-db/src/query.rs:553-570 | A sentence with another token behind it is refused for it |
| Query.ParseElementWhere | crates/oxgraph-db/src/query.rs:553-569 | Trailing tokens are refused; a lone equality becomes the index probe, anything else a filter |
| Query.FilterElements | crates/oxgraph-db/src/query.rs:251-265 | The scan keeps exactly the elements that satisfy the predicate, ascending; a missing property satisfies nothing |
| Query.ScanElementsWithProperty | crates/oxgraph-db/src/query.rs:806-823 | The probe lists exactly the element subjects carrying the value, ascending |
| Query.HoldsIsStands | crates/oxgraph-db/src/query.rs:390-402 | An operator compares the stored value with the literal in the order of values |
| Query.BoundSelects | crates/oxgraph-db/src/query.rs:251-265 | Binding keeps the meaning: a comparison selects what has the named property standing so to the literal, a conjunction what both sides do, a disjunction what either does |
| Query.BindFailsFirst | crates/oxgraph-db/src/query.rs:655-684 | Binding fails with the first comparison from the left whose name, literal or type does not |
| Query.ProbeIsFilter | crates/oxgraph-db/src/query.rs:806-838 | Probe and filter have the same rows if and only if no absent element carries the value |
| Query.RunWhere | crates/oxgraph-db/src/query.rs:553-838 | Whichever plan ran, the rows are exactly the visible elements that the parsed predicate selects, ascending; otherwise the parse error or that of the first comparison that does not bind |

## Left out

- File access, fsync, renames, locks, memory maps, the superblock and its two-phase publication.
- The checksum's polynomial, and hence any claim of corruption detection.
- Floating-point rounding and overflow in PageRank.
- `Arc` sharing and copy-on-write: `OverlayIndexes.OverlayIndex.Clone` copies values.
- Breadth-first traversal views, bounded walks and `GRAPH WALK` queries; the other OxQL commands, plan explanation and
  result formatting.
- Hypergraph projection arrays, the BCSR layout, weighted and property-carrying CSR builders, snapshot export.
- Registering catalog entries, labels on relations, schemas, index and projection definitions, and their log operations; a write transaction reads a given catalog of roles, labels, types and keys.
- The merge iterators behind a state view: the model uses the merged maps they enumerate.
- The width-generic index traits: one maximum per index type stands for them.
- Python, PostgreSQL, command-line and daemon bindings.
- Csr.Validate: offsets and targets are sequences of naturals, so words that do not convert to `usize` are not modelled.
- Projection.FromState: exhausted ids are stated to need at least 2^31 - 1 relations, not exactly which.
- PageRank.DistributeOutgoing: an index or weight error does not say which family (element or relation) it came from, and relation and incidence index bounds are not modelled.
- HyperPageRank.PagerankHypergraph: the sum of the two bounds is taken not to overflow.
- WalRecovery.EveryRunRecovers: promises nothing between an append behind a residue and the next recovery that opens the store, because nothing holds there; the outcome of such an append is AppendOverResidue.
- Durability.Commit: takes the sequence number as given; its overflow and the automatic checkpoint after a commit are not modelled.
- Durability.Reopen: likewise stated for runs that bury no commit.
- Postings.SimpleLookup: stated for directories that hold the rows of a map, which is what the writer produces; a validated directory in another order is not modelled.
- EqualityPostings.EqualitySubjects: likewise stated for directories that hold the rows of a map.
- EqualityPostings.RangePostings: likewise.
- EqualityPostings.KeyPostings: likewise.
- MutationLog.ApplyFrame: takes a frame as the log of a transaction that the index follows; `Durability` shows that recovered frames are such logs, and frames with foreign or corrupt operations are not followed further.
- MutationLog.FoldFrames: likewise.
- MutationLog.OpenOverlay: likewise; `Durability.Reopen` discharges that assumption for every run.
- The composition of the five directory validations in `from_sections` is left as the per-directory validators.
- Overlay lookups read the owned base maps; that the borrowed base answers alike is stated by `AnswersAreOwned`, `SubjectsAreOwned` and `PersistedSlicesAreOwned`.
