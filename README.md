# SCC-DAG partition graph and partitioner, modelled in Dafny

This project models the SCC-DAG partitioning engine of NOELLE, and the generic
PDG node that its graphs are built from.

- **Partition graph** (`SCCDAGPartition`). A directed graph whose nodes are sets
  of SCCs. It keeps a map from every tracked SCC to the set that holds it, and
  at most one edge per ordered pair of sets. It builds itself from an initial
  cover of disjoint SCC sets and a parent map. Its operations:
  - merge a group of sets into one fresh set;
  - collapse every cycle of sets into one set;
  - emit the sets parents-first.
- **Partitioner** (`SCCDAGPartitioner`). The policy layer on top:
  - a walk of the root loop's CFG that numbers the tracked SCCs in program
    order (`resetPartitioner`);
  - the ancestor test `isMergeIntroducingCycle`;
  - neighbour queries;
  - pairwise and bulk merges;
  - the two merge passes, for loop-carried memory dependences and for LCSSA
    phis.
- **PDG node** (`PDGNodeBase`). A wrapped value plus four vectors: incoming and
  outgoing nodes, and incoming and outgoing edges, aligned position by position.

Files:

- `wrappers.dfy`: `Option` and `Result`.
- `set_graph.dfy` (module `SetGraph`). Set handles and edges, and paths and
  reachability. It also holds the forward search and the mutual-reachability
  classes that stand in for LLVM's `scc_iterator`.
- `partition.dfy` (module `SccDagPartition`). The class `Partition`, for
  `SCCDAGPartition`.
- `loop_cfg.dfy` (module `LoopCfg`). The loop, CFG and dependence inputs, and
  the value-level description of the program-order numbering.
- `partitioner.dfy` (module `SccDagPartitioner`). The class `Partitioner`, for
  `SCCDAGPartitioner`.
- `pdg_base.dfy` (module `PdgBase`). The class `PdgNode`, for `PDGNodeBase`.

Modelling choices:

- **Ids and handles.** SCCs and values are `nat` ids. A set is a `nat` handle.
  - Each merge mints the next unused handle, as `new SCCSet()` does.
  - `members` maps a live handle to its SCCs.
  - `sccToSet` is the SCC-to-set map.
- **Edges.** They are a sequence of `(parent, child)` handle pairs, so the
  "edge already present" test before `addEdge` has a meaning. `Valid()` says
  three things:
  - the sequence has no duplicates;
  - both ends of every edge are live sets;
  - `members` and `sccToSet` are inverse to each other.
- **The base graph.** It is not part of this model. Its primitives are given
  their plain meaning:
  - `addNode` and `addEdge` add an entry;
  - `fetchEdges` tests membership;
  - `removeNode` drops the node's incident edges as well.
- **Inputs.** SCC membership of values, the loop tree, the CFG (successors,
  instructions and phis per block) and the loop-carried dependences are plain
  values passed in.
- **Failures.** The source's fatal `assert`s become error results:
  - `setOfSCC` returns `Option`;
  - the depth order returns a `Result`;
  - `resetPartitioner`, `mergePairOfSCCs`, `mergeAllPairs` and the LCSSA pass
    return `ok`;
  - the loop-carried pass has no failure case. Like the LCSSA pass, it also
    returns, as a ghost, the set of SCC pairs it asked to merge.

Three places where the code does something its comments or its callers'
expectations do not suggest. The model follows the code in each:

- **Self-edges.** When an SCC and one of its parents lie in the same set, the
  constructor adds the edge `selfSet -> selfSet`. Nothing at
  `SCCDAGPartition.cpp:51-57` skips a parent in the SCC's own set.
- **No rewiring.** The comment at `SCCDAGPartition.cpp:110-116` says that
  `mergeSets` moves each incoming and outgoing edge of a merged set onto the
  merged set. The code adds none:
  - Before each `addEdge`, the guard at :128 (and at :139) looks for an edge
    between the neighbour and the *old* set.
  - That edge always exists, because it is the edge being iterated, so the
    `addEdge` at :129 (and at :140) is never reached.
  - Had it been reached, it would have linked the old set, not the merged one.

  So the merged set starts with no edges, and the edges of the merged sets
  simply disappear. Example:
  - The sets are `{S1}`, `{S2}`, `{S3}` and `{S4}`, with edges
    `S1 -> S2 -> S3 -> S1` and `S3 -> S4`.
  - `collapseCycles` merges `{S1}`, `{S2}` and `{S3}` into one set.
  - That leaves two sets, `{S1, S2, S3}` and `{S4}`, with no edge between them,
    although `S4` depends on `S3`.
- **Depth order.** The comment at `SCCDAGPartition.cpp:257-259` says the final
  count check fails only when a cycle blocked the traversal. But a set is
  enqueued once per emitted parent, so it can be emitted twice (diamond
  `A->B`, `A->C`, `B->D`, `C->D`). The check can then fail on an acyclic graph.
  This is reported as `CountMismatch`. The parents-first property is still
  proved for what was emitted, and on an acyclic graph every set is proved to
  be emitted.

## Model

| member | source | states |
|---|---|---|
| SccDagPartition.Partition.constructor | src/loops/src/SCCDAGPartition.cpp:16-60 | Each initial set gets handle i and exactly that set's SCCs. The tracked SCCs are exactly the union of the initial sets. Every edge comes from a tracked (SCC, parent) pair. Every such pair whose ends are both tracked yields the edge parentSet -> selfSet, self-edges included. Edges are never duplicated, through Valid. |
| SccDagPartition.Partition.AddInitialSets | src/loops/src/SCCDAGPartition.cpp:25-33 | One node per initial set, holding that set's SCCs. Every SCC of an initial set maps to its node. The result is well formed and has no edges. |
| SccDagPartition.Partition.AddDependenceEdges | src/loops/src/SCCDAGPartition.cpp:43-59 | Every edge added joins the sets of a tracked SCC and of one of its tracked parents. Every such parent/child pair does get its edge, and no pair gets two. |
| SccDagPartition.Partition.AddParentEdges | src/loops/src/SCCDAGPartition.cpp:51-58 | Covers the parents of one SCC. Old edges stay. Every tracked parent's set gets an edge to selfSet, and still only wanted edges exist. |
| SccDagPartition.InitialDone | src/loops/src/SCCDAGPartition.cpp:25-33 | After all initial sets are inserted, the SCC map and the members are mutually inverse and every handle issued is below the set count. The tracked SCCs are the union of the initial sets, because the sets are disjoint. |
| SccDagPartition.Partition.IsIncludedInPartitioning | src/loops/src/SCCDAGPartition.cpp:84-86 | True exactly when some live set holds the SCC. |
| SccDagPartition.Partition.SetOfScc | src/loops/src/SCCDAGPartition.cpp:79-82 | Defined exactly when IsIncludedInPartitioning holds, and None otherwise (the assert). The set it returns holds the SCC, and it is the only live set that does. |
| SccDagPartition.Partition.SccOfValue | src/loops/src/SCCDAGPartition.cpp:75-77 | The SCC of a value, or None when the value has no SCC. |
| SccDagPartition.Partition.NumNodes | src/loops/src/SCCDAGPartition.cpp:284-286 | The number of live sets (the `numNodes` that `numberOfPartitions` returns). |
| SccDagPartition.Partition.TopLevelNodes | src/loops/src/SCCDAGPartition.cpp:214 | The live sets with no incoming edge. |
| SccDagPartition.Partition.MergeSets | src/loops/src/SCCDAGPartition.cpp:93-152 | The fresh set holds the union of the merged sets' SCCs, and each of those SCCs is remapped to it. The merged sets are removed. Every other set and SCC mapping is unchanged. The edges become the old edges minus those touching a merged set, so none is created. Well-formedness is preserved. |
| SccDagPartition.MergeKeepsWellFormed | src/loops/src/SCCDAGPartition.cpp:93-152 | Merging any group of live sets into a fresh handle keeps the maps inverse and keeps edges deduplicated and between live sets. |
| SccDagPartition.Partition.MergeInto | src/loops/src/SCCDAGPartition.cpp:100-151 | States the members, the SCC map and the edges after remapping, rewiring and removal, in terms of the state before them. |
| SccDagPartition.Partition.RemapToMergedSet | src/loops/src/SCCDAGPartition.cpp:100-108 | The SCCs collected are the union of the merged sets. Exactly those SCCs now map to the new set. |
| SccDagPartition.Partition.RemoveMergedNodes | src/loops/src/SCCDAGPartition.cpp:147-151 | The merged sets are gone from members, and so is every edge touching them. |
| SccDagPartition.Partition.CollapseCycles | src/loops/src/SCCDAGPartition.cpp:154-209 | Two SCCs share a set afterwards exactly when their sets were the same or mutually reachable before, in both directions. Afterwards no two distinct sets are mutually reachable. No edge is created. A set that lay on no cycle (a group of size 1) is kept as it was. Every live set afterwards is either such a set, unchanged, or a fresh, non-empty set holding exactly the SCCs of one whole cycle of sets. On a graph with no cycle between sets, nothing changes. |
| SccDagPartition.Partition.CollapseGroup | src/loops/src/SCCDAGPartition.cpp:203-208 | One iteration of the merge loop. A group of two or more sets is merged, and a smaller group is skipped. It keeps the loop invariant, including that every set issued so far holds one whole cycle. |
| SccDagPartition.KeptOnNoCycle | src/loops/src/SCCDAGPartition.cpp:203-206 | A set that no group of size > 1 contains lies on no cycle with another set. |
| SccDagPartition.MergedGroupIsCycle | src/loops/src/SCCDAGPartition.cpp:189-205 | Merging a group of two or more sets yields a non-empty set holding exactly the SCCs of that group's cycle. |
| SccDagPartition.FreshAfterMerge | src/loops/src/SCCDAGPartition.cpp:203-208 | A merge step keeps every issued set a whole cycle. |
| SccDagPartition.CollapsedSetsDone | src/loops/src/SCCDAGPartition.cpp:203-208 | After the loop, every live set is an original set on no cycle, unchanged, or an issued set holding one whole cycle. |
| SccDagPartition.CollapseAcyclicNoop | src/loops/src/SCCDAGPartition.cpp:154-209 | On a graph with no cycle between sets, every group has size 1, so the collapse leaves the SCC map, the sets and the edges as they were. |
| SccDagPartition.CollapseDone | src/loops/src/SCCDAGPartition.cpp:203-208 | Once every detected group has been merged, the collapse properties hold with respect to the snapshot taken before any merge. This includes the exact join: SCCs share a set exactly when their old sets were equal or mutually reachable. |
| SccDagPartition.MergeKeepsNoCycle | src/loops/src/SCCDAGPartition.cpp:93-152 | Merging sets of a graph with no cycle between sets leaves a graph with no cycle between sets, because the merge only drops edges. |
| SccDagPartition.CollapseAfterAcyclicMerge | src/loops/src/SCCDAGPartition.cpp:88-91 | On a graph with no cycle between sets, the collapse after a merge joins nothing more: two SCCs share a set exactly when their sets were equal or both among the merged. |
| SccDagPartition.NoCycleAfterCollapse | src/loops/src/SCCDAGPartition.cpp:177-208 | Dropping the edges of all groups of size > 1 from a cycle-group cover leaves no two distinct sets mutually reachable. |
| SetGraph.CycleGroups | src/loops/src/SCCDAGPartition.cpp:161-201 | The groups cover every node. They are pairwise disjoint, because of the visited checks, and each group is a whole mutual-reachability class. |
| SetGraph.ReachableFrom | src/loops/src/SCCDAGPartition.cpp:177 | The nodes reachable from the entry, exactly. |
| SetGraph.MutualClass | src/loops/src/SCCDAGPartition.cpp:182-193 | The nodes mutually reachable with y, exactly. |
| SccDagPartition.Partition.MergeSetsAndCollapseResultingCycles | src/loops/src/SCCDAGPartition.cpp:88-91 | All SCCs of the given sets end in one set. SCCs that were together stay together. Exactly the cycles left after the merge are joined: SCCs share a set exactly when their sets after the merge were equal or mutually reachable. On a graph with no cycle between sets, SCCs share a set exactly when their sets were equal or both merged. No two distinct sets are mutually reachable afterwards. No edge is created. Measured against the state just after the merge, every live set is a set on no cycle, unchanged, or a fresh set holding one whole cycle. On a graph with no cycle between sets, the result is exactly that of the merge alone. |
| SccDagPartition.Partition.GetDepthOrderedSets | src/loops/src/SCCDAGPartition.cpp:211-264 | NoRootNodes exactly when no set lacks parents (the assert at 215). On success, exactly numNodes live sets are emitted. Whatever is emitted, on success or CountMismatch, is live and parents-first, and no emitted set lies on a cycle. On a graph with a topological rank (no cycle), every live set is emitted. |
| SccDagPartition.EmitKeepsParentsFirst | src/loops/src/SCCDAGPartition.cpp:231-249 | Appending a set whose parents have all been emitted keeps the output parents-first. |
| SccDagPartition.EmittedAfterAncestors | src/loops/src/SCCDAGPartition.cpp:231-249 | In a parents-first output, every proper ancestor of an emitted set was emitted before it. |
| SccDagPartition.EmittedNotOnCycle | src/loops/src/SCCDAGPartition.cpp:231-249 | In a parents-first output, no emitted set is its own proper ancestor, so none lies on a cycle. |
| SccDagPartition.ReadyAfterSkip | src/loops/src/SCCDAGPartition.cpp:231-242 | Dropping a queue head whose parents are not all emitted loses no set that is ready to be emitted. |
| SccDagPartition.ReadyAfterEmit | src/loops/src/SCCDAGPartition.cpp:243-254 | After emitting the head and enqueueing its children not yet encountered, every set whose parents are all emitted is still in the queue. |
| SccDagPartition.RankAtLeast | src/loops/src/SCCDAGPartition.cpp:225-256 | When the queue runs dry on a ranked graph, every set not emitted has a rank of at least n, for every n. |
| SccDagPartition.AllEmitted | src/loops/src/SCCDAGPartition.cpp:225-256 | When the queue runs dry on a ranked graph, every set has been emitted. |
| SccDagPartition.AncestorsGrow | src/loops/src/SCCDAGPartition.cpp:223-255 | Along an edge between distinct sets of a graph with no cycle between sets, the child's proper ancestors strictly contain the parent's. |
| SccDagPartition.AcyclicHasRank | src/loops/src/SCCDAGPartition.cpp:257-262 | A graph with no cycle between two sets and no self-edge has a topological rank, defined on every set (the number of proper ancestors). So once the merges have ensured the first condition, and provided no set has a self-edge (a self-edge on a set never merged survives them), the depth order covers every set and IsMergeIntroducingCycle can be called. |
| SccDagPartition.AllEncountered | src/loops/src/SCCDAGPartition.cpp:238-242 | True exactly when every parent is already encountered. |
| SccDagPartition.EnqueueChildren | src/loops/src/SCCDAGPartition.cpp:250-254 | The queue grows by the children not yet encountered, in order. Duplicates are possible. |
| SccDagPartition.EnqueueAll | src/loops/src/SCCDAGPartition.cpp:217-221 | The queue holds exactly the roots, each once. |
| SccDagPartition.Partition.RemoveNode | src/loops/src/SCCDAGPartition.cpp:147-151 | The set is removed, together with its incident edges. |
| SetGraph.DropIncident | src/loops/src/SCCDAGPartition.cpp:147-151 | An edge survives exactly when neither end is removed. |
| SetGraph.DropIncidentKeepsDistinct | src/loops/src/SCCDAGPartition.cpp:147-151 | Removing nodes keeps the edge list free of duplicates. |
| SccDagPartitioner.Partitioner.constructor | src/loops/src/SCCDAGPartition.cpp:266-278 | Builds the partition from the inputs, with the partition constructor's contract: set i holds exactly initial set i, the next handle is the set count, and the edges are exactly the wanted parent-to-child set edges, self-edges included. allLoops is the descendants plus the root loop. The debug numbering afterwards has one slot per tracked SCC, and an SCC is numbered exactly when it is tracked and occurs in the root loop. The index and the slots are inverse to each other. |
| SccDagPartitioner.FreshNumbering | src/loops/src/SCCDAGPartition.cpp:288-393 | Covers a fresh numbering. Index membership holds exactly for tracked SCCs that occur in a block of the loop reachable from the header. Slots and indices agree in both directions. The count check passes exactly when every tracked SCC occurs. |
| SccDagPartitioner.Partitioner.ResetPartitioner | src/loops/src/SCCDAGPartition.cpp:288-393 | Numbers the SCCs in program-forward order. The walk visits each block once, the header first, and every later block after one of its predecessors. It visits exactly the loop blocks reachable from the header inside the loop. The recorded SCCs are the distinct tracked SCCs in visit and instruction order. The index and order vectors are updated accordingly, with the rest of the order vector resized. ok holds exactly when the index covers every tracked SCC (the mismatch check at 385-390). |
| SccDagPartitioner.Partitioner.Walk | src/loops/src/SCCDAGPartition.cpp:312-380 | The stack walk visits each block at most once, the header first and every later block after one of its predecessors. It visits exactly the blocks reached from the header within the loop. The numbering it builds is the deduplicated trace of tracked SCCs. |
| SccDagPartitioner.Partitioner.WalkStep | src/loops/src/SCCDAGPartition.cpp:321-379 | One pop of the top of the stack. A block outside the loop or already visited is dropped and nothing else changes. Otherwise it is appended to the visit, and the stack becomes the rest plus its unvisited successors in order. The walk invariant is kept and the measure decreases. |
| SccDagPartitioner.PushUnvisited | src/loops/src/SCCDAGPartition.cpp:375-379 | The stack grows by the successors not yet visited, in successor order. |
| SccDagPartitioner.Partitioner.VisitBlock | src/loops/src/SCCDAGPartition.cpp:346-379 | Marks the block visited and appends it to the visit, records its SCCs, and pushes its unvisited successors in successor order (the block itself counts as visited), keeping the walk invariant. |
| SccDagPartitioner.WalkVisitOrder | src/loops/src/SCCDAGPartition.cpp:321-379 | Visiting the popped block keeps the program-forward order. Every block left on the stack or pushed is the header or a successor of a visited block. |
| SccDagPartitioner.VisitAfterPredecessor | src/loops/src/SCCDAGPartition.cpp:315-346 | The first block visited is the header, pushed at :315. Every later one was pushed as a successor of a block visited before it. |
| SccDagPartitioner.Partitioner.RecordSccs | src/loops/src/SCCDAGPartition.cpp:351-370 | The recorded sequence is extended by the block's not-yet-seen tracked SCCs, keeping the numbering consistent. |
| SccDagPartitioner.Partitioner.RecordValue | src/loops/src/SCCDAGPartition.cpp:356-369 | One instruction: an untracked or already encountered SCC is skipped. Otherwise it takes slot `count` and index `count`. |
| SccDagPartitioner.Partitioner.NumberOfSccs | src/loops/src/SCCDAGPartition.cpp:296-299 | The sum of the set sizes, which equals the number of tracked SCCs. |
| LoopCfg.RecordedSccs | src/loops/src/SCCDAGPartition.cpp:327-369 | An SCC is recorded by the walk exactly when it is tracked and occurs in a loop block reachable from the header. |
| LoopCfg.ClosedSetHoldsReached | src/loops/src/SCCDAGPartition.cpp:375-380 | A block set closed under in-loop successors and holding the header holds every block reached from the header. |
| LoopCfg.CountMatches | src/loops/src/SCCDAGPartition.cpp:385 | For distinct tracked SCCs, the count equals the number of tracked SCCs exactly when every tracked SCC was recorded. |
| LoopCfg.Resize | src/loops/src/SCCDAGPartition.cpp:300 | `resize` keeps the first entries and pads with empty slots to the new length. |
| SccDagPartitioner.Partitioner.IsMergeIntroducingCycle | src/loops/src/SCCDAGPartition.cpp:395-418 | True exactly when A is a proper ancestor of B or B of A, through incoming edges. The condition is symmetric in A and B. |
| SccDagPartitioner.IsAncestor | src/loops/src/SCCDAGPartition.cpp:396-415 | The breadth-first search over parents returns true exactly when parentTarget is a proper ancestor of target. The graph must be acyclic. |
| SccDagPartitioner.EnqueueParents | src/loops/src/SCCDAGPartition.cpp:407-411 | Returns true exactly when parentTarget is a direct parent. Otherwise it enqueues all parents, and the rank-weighted queue measure decreases. |
| SccDagPartitioner.Partitioner.GetParents | src/loops/src/SCCDAGPartition.cpp:424-433 | Exactly the sets with an edge into the set. |
| SccDagPartitioner.Partitioner.GetChildren | src/loops/src/SCCDAGPartition.cpp:435-444 | Exactly the sets with an edge from the set. |
| SccDagPartitioner.Partitioner.GetSets | src/loops/src/SCCDAGPartition.cpp:446-452 | Exactly the live sets. |
| SccDagPartitioner.Partitioner.GetRoots | src/loops/src/SCCDAGPartition.cpp:454-460 | Exactly the live sets with no incoming edge. |
| SccDagPartitioner.Partitioner.GetDepthOrderedSets | src/loops/src/SCCDAGPartition.cpp:462-464 | The partition's depth order. NoRootNodes exactly when no set lacks parents. On success, exactly numNodes sets are emitted. Whatever is emitted is live and parents-first, and no emitted set lies on a cycle. On a graph with a topological rank, every live set is emitted. |
| SccDagPartitioner.Partitioner.NumberOfPartitions | src/loops/src/SCCDAGPartition.cpp:284-286 | The number of live sets. |
| SccDagPartitioner.Partitioner.MergePair | src/loops/src/SCCDAGPartition.cpp:466-471 | Returns a live set that now holds every SCC of A and of B. SCCs that were together stay together, the graph has no cycle between sets, and no edge is created. On a graph with no cycle between sets, nothing else is joined: the returned set holds exactly the SCCs of A and B, and other SCCs share a set exactly when they did before. |
| SccDagPartitioner.JoinedPairSet | src/loops/src/SCCDAGPartition.cpp:466-471 | Once sets A and B are joined, the set of an SCC of A holds every SCC of A and B. If nothing else was joined, it holds no other SCC. |
| SccDagPartitioner.Partitioner.MergePairOfSccs | src/loops/src/SCCDAGPartition.cpp:474-479 | ok exactly when both SCCs are tracked (setOfSCC's assert). Then they share a set. On a graph with no cycle between sets, only their two sets are joined. A pair already in one set leaves the graph unchanged. Acyclicity is kept and no edge is created. |
| SccDagPartitioner.Partitioner.MergeAllPairs | src/loops/src/SCCDAGPartition.cpp:473-481 | ok exactly when every pair is tracked. Then every pair shares a set, and so do any two SCCs linked by a chain of pairs and old sets. On a graph with no cycle between sets, two SCCs share a set only when such a chain links them. If every pair already shared a set, nothing changes. Togetherness is kept, no edge is created and acyclicity is kept. |
| SccDagPartitioner.MergedPairsStep | src/loops/src/SCCDAGPartition.cpp:473-481 | A merge step keeps every earlier pair together and extends the merged-pairs invariant by the new pair, including the bound that only linked SCCs share a set. |
| SccDagPartitioner.Partitioner.MergeNextPair | src/loops/src/SCCDAGPartition.cpp:475-479 | One loop iteration of mergeAllPairs. On ok the merged-pairs invariant covers one more pair. Otherwise the pair was never tracked, the invariant stands and the state is unchanged. |
| SccDagPartitioner.LinkedSameSet | src/loops/src/SCCDAGPartition.cpp:473-481 | Two SCCs in one set, or forming a pair, are linked. |
| SccDagPartitioner.LinkedJoin | src/loops/src/SCCDAGPartition.cpp:473-481 | Two chains joined by a step form one chain: linking is transitive through a step. |
| SccDagPartitioner.OnlyLinkedStart | src/loops/src/SCCDAGPartition.cpp:473-481 | Before any merge, SCCs share a set only if they are linked. |
| SccDagPartitioner.OnlyLinkedMono | src/loops/src/SCCDAGPartition.cpp:473-481 | More pairs link at least the same SCCs. |
| SccDagPartitioner.OnlyLinkedStep | src/loops/src/SCCDAGPartition.cpp:475-479 | Joining just the two sets of a pair keeps "share a set only if linked", with the pair added. |
| SccDagPartitioner.ChainTogether | src/loops/src/SCCDAGPartition.cpp:473-481 | When all pairs share a set and old sets are kept together, every chain ends in the set it starts in. |
| SccDagPartitioner.LinkedTogether | src/loops/src/SCCDAGPartition.cpp:473-481 | Under the same conditions, any two linked SCCs share a set. |
| SccDagPartitioner.CollectLoopCarriedPairs | src/loops/src/SCCDAGPartition.cpp:488-509 | The pairs collected are exactly those of memory dependences of the root loop or a descendant whose two SCCs are tracked and differ. |
| SccDagPartitioner.AddDependencePairs | src/loops/src/SCCDAGPartition.cpp:490-508 | For one loop: exactly the pairs of its memory dependences between distinct tracked SCCs are added. |
| SccDagPartitioner.LoopCarriedPairUnion | src/loops/src/SCCDAGPartition.cpp:489-509 | A pair is loop-carried for a set of loops with one more loop exactly when it is loop-carried for the loops or for the added one. |
| SccDagPartitioner.Partitioner.MergeLoopCarriedDependencies | src/loops/src/SCCDAGPartition.cpp:483-512 | Every such loop-carried memory pair ends in one set. The returned ghost set is exactly those pairs, and on a graph with no cycle between sets only SCCs linked through them share a set. Togetherness is kept, no edge is created and acyclicity is kept. |
| SccDagPartitioner.CollectLcssaPhis | src/loops/src/SCCDAGPartition.cpp:520-529 | Exactly the phis of the exit blocks of the non-root loops. The root loop is skipped. |
| SccDagPartitioner.AddExitPhis | src/loops/src/SCCDAGPartition.cpp:524-528 | The phis of every exit block of one loop are added. |
| SccDagPartitioner.CollectLcssaPairs | src/loops/src/SCCDAGPartition.cpp:534-545 | Exactly the pairs (producer, phi SCC) for incoming values with a tracked SCC. A value with no SCC, or an untracked one, is skipped. |
| SccDagPartitioner.AddIncomingPairs | src/loops/src/SCCDAGPartition.cpp:536-544 | For one phi, exactly one pair per incoming value whose SCC is tracked. |
| SccDagPartitioner.LcssaPairsMeaning | src/loops/src/SCCDAGPartition.cpp:534-547 | Translates "all LCSSA pairs tracked and together" into facts about every LCSSA phi, in both directions. The collected pairs are exactly those some LCSSA phi asks for. |
| SccDagPartitioner.Partitioner.MergeLcssaPhisWithTheValuesTheyPropagate | src/loops/src/SCCDAGPartition.cpp:514-548 | ok exactly when every LCSSA phi with a tracked incoming value has a tracked SCC itself. Then the phi ends in the same set as each such value. The returned ghost set is exactly the pairs the LCSSA phis ask for, and on a graph with no cycle between sets only SCCs linked through them share a set. Togetherness is kept, no edge is created and acyclicity is kept. |
| SccDagPartition.SccOf | src/loops/src/SCCDAGPartition.cpp:75-77 | The SCC of a value exactly when the value has one, and None otherwise. Partition.SccOfValue and the LCSSA pass both use it. |
| PdgBase.PdgNode.Empty | analysis/include/PDGBase.hpp:20 | The default node wraps null and has empty, aligned vectors. |
| PdgBase.PdgNode.constructor | analysis/include/PDGBase.hpp:21 | The node wraps its argument, which GetNode returns, and has empty, aligned vectors. |
| PdgBase.PdgNode.AddIncomingNode | analysis/include/PDGBase.hpp:39-42 | The node and the edge are appended in lockstep, so the incoming pairs grow by exactly (node, edge). The new position's edge is the new edge. The outgoing vectors are unchanged. |
| PdgBase.PdgNode.AddOutgoingNode | analysis/include/PDGBase.hpp:44-47 | The same for the outgoing side, with the incoming vectors unchanged. |
| PdgBase.PdgNode.GetEdgeFromNodeIterator | analysis/include/PDGBase.hpp:49-53 | For a valid position on the chosen side (outgoing by default, as in the source), returns the edge paired with the node at that position. |
| PdgBase.ZipSnoc | analysis/include/PDGBase.hpp:39-47 | Extending both aligned vectors by one extends their pairing by that pair. |
| PdgBase.PdgNode.AddPrintState | analysis/include/PDGBase.hpp:55-59 | GetPrintState afterwards returns the state set. Only the print state may change. |

## Left out

- Printing and diagnostics: `SCCSet::print`, the `errs()` traces in
  `collapseCycles` and `resetPartitioner`, and `PDGNodeBase::toString`. They
  produce text only.
- Destructors and `delete`. Handles are never reused, so a retired handle
  stands for freed memory.
- The commented-out code at the end of `SCCDAGPartition.cpp`.
- `PDGEdge`'s members. They are declared without bodies in the header;
  `PdgEdge` keeps only its identity.
- `getPartitionGraph`. It returns the pointer; callers of the model use the
  `partition` field directly.
- The iterator accessors of `PDGNodeBase` (begin/end of the four vectors). The
  vectors are the fields themselves, and an iterator is its position.
- LLVM's `scc_iterator` and `DGGraphWrapper`. They are replaced by the
  mutual-reachability classes of `SetGraph.CycleGroups`. The source collects
  the groups in a `std::set` of pointers (SCCDAGPartition.cpp:159) and merges
  them in that set's order (:203), the order of their addresses. The model
  merges them in the order `CycleGroups` produces. The final partition does not
  depend on the order, because the groups are disjoint.
- Iteration order over `unordered_set` and `std::set`. The model picks an
  arbitrary element (`:|`), so every proved property holds for any order.
- `Partitioner.IsMergeIntroducingCycle` and `IsAncestor`: require a ghost
  topological rank of the graph, because the breadth-first search at
  SCCDAGPartition.cpp:396-415 has no visited set. On any graph it still returns
  true when `parentTarget` is an ancestor of `target`. It runs forever when
  `parentTarget` is not an ancestor and a cycle lies among the ancestors of
  `target`. The model proves the result for acyclic graphs only.
- `Partitioner.MergePair`: the source reads `setA` after `mergeSets` has freed
  it. The model picks an SCC of A before the merge and looks up its set
  afterwards, and so requires A to be non-empty.
- `Partition.GetDepthOrderedSets`: does not claim that the result is free of
  duplicates, or that the count check passes on every acyclic graph. Neither
  holds for the code (the diamond case).
- `Partition.constructor`, `Partition.AddInitialSets`, `InitialDone` and
  `Partitioner.constructor`: require the initial sets to be pairwise disjoint, as a partition of the SCCs is. The source's
  loop (SCCDAGPartition.cpp:25-33) also runs on overlapping sets. There
  `insert` keeps an SCC's first mapping (:31), so an SCC in two sets would map
  to the first set while both sets list it. The model does not cover that
  case.
- `Partitioner.constructor`: the source asserts after `resetPartitioner`; the
  model carries on whether or not the count matches, and states the numbering
  either way.
- `Partitioner.ResetPartitioner`: `SCCDebugIndex` is never cleared in the
  source. The model updates the old index by the new numbering, and `resize`
  keeps old slots beyond the new entries.
- `PdgNode` constructors set the print state to null. The source leaves
  `printState` uninitialised.
- `Partition.TransferEdges`, `Partition.TransferIncoming` and
  `Partition.TransferOutgoing` (the rewiring loops of `mergeSets`) carry no
  postcondition. They may modify nothing, and their only `addEdge` is shown to
  be unreachable, so that they leave the state as it was is enforced by their
  frames.
- `PdgNode.GetNode` and `PdgNode.GetPrintState` are plain reads specified through
  the constructors and `AddPrintState`.
- Integer widths: the source's `uint64_t` and `int` counters are unbounded
  `nat`s here. No realistic graph reaches their limits.
