# A verified model of pmacct's tables and transformations

pmacct accounts network traffic. At its centre are a few index structures and
transformations that have to be exact: the networks table, which maps an
address to the most specific prefix of a file; the flow and fragment tables,
which follow conversations and fragmented datagrams with a bounded number of
nodes; the in-memory table of counters; the packet filter machine; the purge
loops of the database and message broker plugins; and Base64. This project
models them in Dafny and proves what they are for.

Code that works step by step is modelled by methods with loops, on arrays and
objects, each proved against a specification; the lemmas then say what the
specification means. Linked nodes live in an explicit memory, a map from
pointers to nodes, so that following a pointer to a freed node would be a
failed proof.

| file | what it holds |
|---|---|
| `NetPrefix`, `NetSort`, `NetForest`, `NetHierarchy`, `NetNesting`, `NetFlatten`, `NetMatch`, `NetFile`, `NetworksTable` | the networks table: the lookup of any address, after any lookups, is longest-prefix match over the lines of the file |
| `Options`, `Traffic`, `Selection` | optional results, amounts of traffic, elements chosen by their positions |
| `LinkedTable` | hash chains threaded by a second list, shared by the next two |
| `FlowRules`, `FlowSimulation`, `FlowPhases`, `FlowTable`, `FlowRun` | the flow table: well formed over all runs; its answers told by the packets alone; forgetting is unobservable for non-TCP traffic |
| `FragmentTable`, `FragmentRun` | the fragment table: sorted by deadline, so that the early stop of a prune is exact; what it forgets is never missed |
| `AcctTable`, `AcctClasses`, `Classifier` | counters per key, conservation of traffic moved between classes, hand-over of accumulators |
| `BpfFilter`, `BpfLanguage`, `BpfExecution`, `BpfAcceptance`, `BpfCompiler` | accepted filter programs run safely to an end; compiled rules return their values |
| `SqlPurge`, `KafkaPurge` | nothing lost, nothing written twice, messages that fit |
| `Base64` | round trip, line length, exact size of the buffer |

`dafny verify dfyconfig.toml` checks everything.

## What turned out not to hold

* The nesting limit of the networks table is met by every file without
  repeated prefixes. Repeated prefixes nest in each other, and a file with more
  than 129 nested rows overruns the array of open parents; `LoadableExactly`
  is the exact condition, in terms of the file, and `RepeatedRowOverruns` a
  family of files that meet it or not.
* Forgetting flows can be observed by TCP traffic: in a flow that is kept, the
  FIN of one end, which lives longer than a RST, makes the other direction live
  again after it had expired (`TcpForgettingObservable`, `ObservedByTcp`). For
  all other protocols it cannot be observed (`UnobservableExactly`).
* A prune of the fragment table that empties the list leaves the sentinel
  pointing to a freed node; the next prune follows it unless a fragment was
  entered in between. `PruneOldFragments` says exactly when this happens, from
  the deadlines before the prune, `DanglingReadsFreed` what it means, and
  `EmergencyLeavesDangling` reaches it.
* The comment of the filter validator says that jumps are forward. The code
  accepts an unconditional jump backwards, as long as it does not leave the
  program; `ForwardExactly` gives the condition, `AcceptedLoop` a program that
  never ends.
* Moving traffic between classes loses or invents bytes and packets exactly in
  the cases `BytesConserved`, `PacketsConserved` and `LostExactly` name; over
  whole runs, `RunBytesExactly` and `RunPacketsExactly`. Runs that show it are
  `BytesInvented`, `PacketsInvented` (accumulated packets without accumulated
  bytes are credited without being taken from class zero) and `TransferLost`.
* With class accounting a key can come to have two elements: a transfer frees
  the class-zero element, and the walk takes it over although the class has an
  element further on (`TwoElements`). `RunUniqueExactly` says exactly when.
* The comparison of accounting elements computes, but does not use, the
  result for tunnel data. Records that differ in tunnel data only are kept
  apart exactly when their signatures differ (`TunnelsApartExactly`); if not,
  one element holds the sums of both (`TunnelsMerged`).

## Model

| member | source | states |
|---|---|---|
| `NetPrefix.RowInterval` | src/net_aggr.c:475-485 | the masked comparison of an address with a row tells whether the address lies before, in or after the interval of the prefix; in particular a row covers exactly the addresses of its interval |
| `NetPrefix.Laminar` | src/net_aggr.c:264-276 | any two prefixes are nested or disjoint |
| `NetPrefix.CoveredLiesInside` | src/net_aggr.c:264-276 | in table order a row whose network is covered by an earlier row lies inside that row and is no less specific |
| `NetPrefix.CoverTransitive` | src/net_aggr.c:264-276 | coverage is transitive along the table order, down to single addresses |
| `NetPrefix.CoverConvex` | src/net_aggr.c:264-276 | what covers an address beyond a later row covers that row too |
| `NetSort.MergedSorted` | src/net_aggr.c:439-455 | merging two sorted halves gives a sorted sequence |
| `NetSort.MergedMultiset` | src/net_aggr.c:436-455 | the merge is a permutation of the two halves together |
| `NetSort.MergedStable` | src/net_aggr.c:443-455 | rows with equal network and mask keep their order, left half first |
| `NetSort.MergeHeads` | src/net_aggr.c:439-451 | the in-place loop writes a prefix of the merge, what is left of the halves is the rest of it, and the table outside is untouched |
| `NetSort.CopyRest` | src/net_aggr.c:453-455 | the clean-up loops copy the rest of a half and nothing else |
| `NetSort.Merge` | src/net_aggr.c:423-459 | the two halves of the array are replaced by their merge, everything outside stays |
| `NetSort.MergeHalves` | src/net_aggr.c:399-417 | sorting halves stably and merging them sorts the whole stably |
| `NetSort.MergeSort` | src/net_aggr.c:399-417 | the range becomes sorted by network and mask, a permutation of what it was, stable, and nothing outside the range changes |
| `NetHierarchy.Contiguous` | src/net_aggr.c:264-276 | after sorting, what a row covers is contiguous behind it: the break of the nesting scan loses nothing |
| `NetHierarchy.CoveredIsDeeper` | src/net_aggr.c:263-277 | a covered row is nested more deeply than the row that covers it |
| `NetHierarchy.FirstUncovered` | src/net_aggr.c:263-277 | the first row that is not covered is nested no more deeply |
| `NetHierarchy.DepthsAreLevels` | src/net_aggr.c:285-297 | nesting depths start at zero and rise by at most one per row |
| `NetHierarchy.CoverIsDescent` | src/net_aggr.c:263-297 | row j covers row i if and only if all levels between them exceed the level of j: the levels alone give the forest of prefixes |
| `NetHierarchy.DistinctDepth` | src/net_aggr.c:263-277 | with distinct prefixes the level of a row is at most its prefix length, hence at most 32 |
| `NetHierarchy.PrevBoundExact` | src/net_aggr.c:48-48 | with the 8-bit levels pass 4a leaves, the array of 128 open parents is indexed inside its bounds if and only if no row is nested more than 128 levels deep |
| `NetHierarchy.DeepOverruns` | src/net_aggr.c:308-318 | a row nested more deeply makes the loop leave the array, at a row whose level has not wrapped yet |
| `NetHierarchy.RaiseCovered` | src/net_aggr.c:267-275 | one row of the scan with its early break raises exactly the levels of the rows it covers |
| `NetHierarchy.BuildLevels` | src/net_aggr.c:256-277 | pass 4a leaves in every row the number of earlier rows that cover it, modulo the 8 bits of a level |
| `NetHierarchy.CountRoots` | src/net_aggr.c:279-284 | pass 4b counts exactly the rows without a parent |
| `NetHierarchy.CountDirect` | src/net_aggr.c:288-295 | the recount with its early break counts exactly the direct children |
| `NetHierarchy.CountChildren` | src/net_aggr.c:285-297 | pass 4c leaves in every row the number of its direct children |
| `NetForest.ParentLevel` | src/net_aggr.c:285-297 | a root is a row of level zero, any other row is one level below its parent |
| `NetForest.ChildTest` | src/net_aggr.c:291-294 | until a row of the same level comes, the rows one level deeper are exactly the children |
| `NetForest.BlocksAdjacent` | src/net_aggr.c:298-322 | the blocks of children follow each other in the order of their parents, without gaps |
| `NetForest.SlotInBlock` | src/net_aggr.c:298-322 | every row's slot lies in its parent's block, and the block lies in the table |
| `NetForest.SlotInjective` | src/net_aggr.c:298-322 | no slot is written for two rows |
| `NetForest.SlotSurjective` | src/net_aggr.c:298-322 | every slot of the table is written for some row |
| `NetForest.ChildOnThePath` | src/net_aggr.c:487-494 | a row below a parent is a child of it or below exactly such a child |
| `NetNesting.NestingPermuted` | src/net_aggr.c:41-48 | the nesting of a row counted over the file does not depend on the order of the file |
| `NetNesting.NestingAndDepth` | src/net_aggr.c:263-277 | the deepest level after sorting is one less than the greatest number of file rows above a row, itself included |
| `NetNesting.LoadableExactly` | src/net_aggr.c:298-322 | flattening with the 8-bit levels stays inside its array of open parents if and only if no row of the file has more than 129 rows above it, itself included |
| `NetNesting.RepeatedRowOverruns` | src/net_aggr.c:298-322 | a file that repeats one line n times stays inside if and only if n is less than 130 |
| `NetNesting.DistinctAlwaysLoads` | src/net_aggr.c:298-322 | a file without repeated prefixes always stays inside it |
| `NetFlatten.FlatIsPermutation` | src/net_aggr.c:298-322 | the flattened table holds exactly the sorted rows, each as often |
| `NetFlatten.NextSlot` | src/net_aggr.c:308-319 | the three branches of the loop (same level, child, back to an open level) all find the slot of the next row |
| `NetFlatten.ProgressStep` | src/net_aggr.c:308-321 | one iteration keeps what is known of the slots written, the next free block and the open parents |
| `NetFlatten.PlaceRow` | src/net_aggr.c:307-321 | one iteration of step 5a, with current, next and prev carried over, does this |
| `NetFlatten.Flatten` | src/net_aggr.c:298-322 | every sorted row ends in its slot, knowing start and size of the block of its children, or having no such pointer |
| `NetMatch.LongestMatchMeaning` | src/net_aggr.c:461-504 | the reference: no answer if and only if no row covers the address; otherwise a covering row of greatest length, the last one of its prefix in the file |
| `NetMatch.StableSameMatch` | src/net_aggr.c:247-249 | stable sorting does not change the longest match of any address |
| `NetMatch.SortedMatch` | src/net_aggr.c:247-249 | in the sorted table the longest match is the last row that covers the address |
| `NetMatch.EntryIsChild` | src/net_aggr.c:308-319 | every entry of a block is the next child of the parent the block belongs to |
| `NetMatch.BlockIsSearchable` | src/net_aggr.c:473-485 | every block is sorted and none of its entries covers another |
| `NetMatch.ParentCoversBlock` | src/net_aggr.c:310-314 | a parent covers every entry of the block it points to, is no more specific, and comes before it |
| `NetMatch.NothingInBlock` | src/net_aggr.c:502-503 | if no entry of the block of a parent covers the address, nothing below that parent does |
| `NetMatch.DescendInto` | src/net_aggr.c:487-499 | if an entry covers the address, the answer is the answer below it, or the entry |
| `NetFile.RowOf` | src/net_aggr.c:228-231 | a line becomes an aligned row of its length that covers its address |
| `NetFile.RowStands` | src/net_aggr.c:228-231 | its network is the address divided by the span of the prefix and multiplied again, its mask the 32-bit mask of that length, and it carries peer AS, AS and next hop of the line |
| `NetFile.ReadRows` | src/net_aggr.c:217-245 | the table holds, in file order, the rows of exactly the lines with a mask up to 32, told by their positions in the file; without any, the single zero row |
| `NetFile.CoversIsHolds` | src/net_aggr.c:475-485 | a row matches an address if and only if address and line agree on the bits of the prefix |
| `NetFile.MatchIsFileAnswer` | src/net_aggr.c:461-504 | the longest match over the rows, in terms of the lines: none if and only if no line holds the address; otherwise the data of the longest line that holds it, the last of these; the zero row if no line is usable |
| `NetFile.NtohlReversesBytes` | src/net_aggr.c:464-464 | the first byte of an address in memory is its most significant one |
| `NetworksTable.LevelsFit` | src/net_aggr.c:263-277 | on a table that can be loaded the 8-bit levels do not wrap |
| `NetworksTable.BuildTable` | src/net_aggr.c:247-322 | sorting, nesting and flattening yield the flattened form of a stable rearrangement of the rows |
| `NetworksTable.LoadNetworks` | src/net_aggr.c:217-322 | the same, from the lines of the file, whose rows are those of ReadRows |
| `NetworksTable.FindInBlock` | src/net_aggr.c:473-487 | the binary search finds an entry of the block that covers the address, and none exactly when none covers it |
| `NetworksTable.BinSearch` | src/net_aggr.c:461-504 | a remembered answer is returned and the cache kept; otherwise the answer is that of the block, and it is all that is left in the cache: the "no match" of an inner call does not survive an outer match |
| `NetworksTable.BelowEntry` | src/net_aggr.c:487-499 | what the recursive call searches is the block of a child, further on in the table |
| `NetworksTable.CacheInsert` | src/net_aggr.c:506-513 | exactly one slot is overwritten, with key and result |
| `NetworksTable.CacheSearch` | src/net_aggr.c:515-522 | the result of the slot if its key is the one asked for, else nothing |
| `NetworksTable.RootAnswer` | src/net_aggr.c:461-504 | the answer of the root block is the longest match over the rows of the file |
| `NetworksTable.SoundAfter` | src/net_aggr.c:506-522 | remembering a true answer keeps every remembered answer true |
| `NetworksTable.ClearCache` | src/net_aggr.c:362-363 | zeroed slots answer nothing, for address 0 either |
| `NetworksTable.Networks.constructor` | src/net_aggr.c:217-363 | loading a file the first time gives a table that stands for its lines, and an empty cache of the configured size, or 99991 |
| `NetworksTable.Networks.Reload` | src/net_aggr.c:217-363 | loading again replaces the lines and empties the cache |
| `NetworksTable.Networks.Lookup` | src/net_aggr.c:461-504 | after any sequence of lookups: none if and only if no line of the file holds the address; otherwise the entry carries network, length, peer AS, AS and next hop of the longest line that holds it, the last of these; the table with its cache stays sound |
| `LinkedTable.RemoveNode` | src/ip_flow.c:285-302 | taking a node out of its chain and off the list, in all cases of the code, keeps both lists doubly linked and on the same nodes |
| `LinkedTable.AddNode` | src/ip_flow.c:218-257 | linking a new node behind the end of its chain, or into an empty bucket, and behind the end of the list keeps the structure |
| `LinkedTable.MoveNode` | src/ip_flow.c:223-231 | moving a node to the end of the list keeps the structure |
| `LinkedTable.UnlinkFromChain` | src/ip_flow.c:284-294 | the four cases of unlinking a node from its bucket chain, as RemoveNode speaks of them |
| `LinkedTable.UnlinkFromList` | src/ip_flow.c:296-301 | the two cases of unlinking a node from the list |
| `LinkedTable.LinkNew` | src/ip_flow.c:216-257 | a new node behind the end of its chain, or in an empty bucket, and behind the end of the list, as AddNode speaks of it |
| `LinkedTable.MoveToEnd` | src/ip_flow.c:224-230 | the pointer updates of a node moved to the end of the list, as MoveNode speaks of them |
| `LinkedTable.RemovedKeeps` | src/ip_flow.c:285-306 | removal frees exactly the node and changes no data or bucket of the others |
| `FlowRules.BothDirections` | src/ip_flow.c:320-350 | both directions of a conversation have one key, and the same direction index if and only if the two ends are identical |
| `FlowRules.KeyIsConversation` | src/ip_flow.c:320-350 | two packets have one key if and only if they have the same ends, in one order or the other, and the same protocol |
| `FlowRules.EvaluateKeepsMortal` | src/ip_flow.c:96-127 | the TCP state machine keeps: non-zero remembered flags contain SYN, FIN or RST |
| `FlowPhases.Handshake` | src/ip_flow.c:96-127 | whatever the state of a flow: SYN one way, SYN and ACK the other way, then a plain packet the first way clears the flags of both directions if its sequence number is one more than that of the SYN, modulo 2^32, and leaves them as they are otherwise |
| `FlowPhases.NextPacket` | src/ip_flow.c:149-183 | over any run, the next packet of a conversation is new if and only if its direction has expired by then, whether the flow has been kept or forgotten |
| `FlowPhases.AnswerAfterFlags` | src/ip_flow.c:377-394 | over any run, after a packet with SYN, FIN or RST the next one of its direction is new if and only if more than 60, 30 or 10 seconds have passed |
| `FlowPhases.AnswerAfterHandshake` | src/ip_flow.c:100-113 | over any run, after the three packets of a handshake the next packet is new if and only if more time has passed than is configured for established connections; 60 seconds if the third sequence number does not follow |
| `FlowPhases.AnswerAfterClose` | src/ip_flow.c:121-124 | over any run, FIN or RST also limits the other direction to 30 or 10 seconds |
| `FlowPhases.AnswerAfterFresh` | src/ip_flow.c:129-136 | over any run, a new direction that starts with a plain packet lasts as long as an established connection: nothing is remembered of it |
| `FlowPhases.AnswerAfterPlain` | src/ip_flow.c:156-164 | over any run, a plain packet in time prolongs the phase of its direction |
| `FlowPhases.IdealIsFresh` | src/ip_flow.c:389-391 | for other protocols a packet is new if and only if no packet of its direction came within the lifetime before it |
| `FlowPhases.AnswersExactly` | src/ip_flow.c:82-183 | all of these for all packets of a run in which none is skipped |
| `FlowRules.NoImmortalFlow` | src/ip_flow.c:363-394 | then each direction has expired once the longest configured or fixed lifetime has passed since its last packet |
| `FlowRules.ExpiryIsFinal` | src/ip_flow.c:377-394 | a direction without packets stays expired |
| `FlowRules.TouchedIsMortal` | src/ip_flow.c:155-175 | a packet of a known flow, stale direction or not, keeps its key and the flags invariant |
| `FlowRules.CreatedIsMortal` | src/ip_flow.c:259-267 | so does the first packet of a flow |
| `FlowTable.RemoveFlow` | src/ip_flow.c:285-306 | removing the node of a flow removes its key from the table and nothing else |
| `FlowTable.AddFlow` | src/ip_flow.c:189-267 | adding a node for an absent key adds that flow and nothing else |
| `FlowTable.ReuseFlow` | src/ip_flow.c:223-236 | reusing a node replaces its flow by the new one and nothing else |
| `FlowTable.AbsentFromChain` | src/ip_flow.c:149-183 | a key that is not in the chain of its bucket is nowhere in the table |
| `FlowTable.FlowPerNode` | src/ip_flow.c:185-271 | there are as many flows as nodes besides the sentinel: no two nodes share a key |
| `FlowTable.Table.constructor` | src/ip_flow.c:52-80 | a well formed empty table with the whole budget of nodes |
| `FlowTable.Table.Remove` | src/ip_flow.c:284-306 | one pruned node: its flow is gone, its node returned to the budget, the rest unchanged |
| `FlowTable.Table.PruneOldFlows` | src/ip_flow.c:273-318 | a prune removes exactly the flows expired in both directions, keeps the order of the list, and ends with the right last pointer |
| `FlowTable.Table.Search` | src/ip_flow.c:152-179 | the node with the key if there is one; otherwise no node has it, the candidate is the first expired node of the chain, there is none only if the chain has no expired node, and the end of the chain is found |
| `FlowTable.Table.Allocate` | src/ip_flow.c:200-257 | one node of the budget is spent and the new flow is in the table |
| `FlowTable.Table.Reuse` | src/ip_flow.c:223-236 | the expired flow is replaced by the new one, the budget unchanged |
| `FlowTable.Table.CreateFlow` | src/ip_flow.c:185-271 | out of nodes: no flow, and a prune at most once a minute; else one expired flow of the bucket gives way, or a new node is taken if the bucket has none |
| `FlowTable.Table.FindFlow` | src/ip_flow.c:138-183 | a known flow is updated and is new exactly if its direction had expired; an unknown one is created or skipped |
| `FlowTable.Table.Handle` | src/ip_flow.c:82-94 | one packet, with the periodic prune before it, is one step of the table seen as a map from keys to flows; links, unique keys and mortality are kept, and free nodes plus flows is constant |
| `FlowSimulation.RecordSimilar` | src/ip_flow.c:138-183 | one handled packet keeps the table similar to one that never forgets, and a non-TCP packet gets the same answer from both |
| `FlowSimulation.RunSimilar` | src/ip_flow.c:138-318 | over any run with a non-decreasing clock past the lifetime and no packet skipped, both stay similar |
| `FlowSimulation.ForgettingUnobservable` | src/ip_flow.c:138-318 | the new-flow answers to non-TCP packets over any such run are those of the table that never prunes or reuses |
| `FlowSimulation.EnoughNodes` | src/ip_flow.c:190-198 | no packet is skipped if there are at least as many nodes as conversations in the run |
| `FlowSimulation.TcpForgettingObservable` | src/ip_flow.c:96-127 | for TCP this is false whatever the lifetimes: a run of four packets in which the forgetting table answers differently |
| `FlowSimulation.UnobservableExactly` | src/ip_flow.c:138-318 | forgetting is unobservable by the packets of a protocol, over all runs as above, if and only if the protocol is not TCP |
| `FlowRun.ObservedByTcp` | src/ip_flow.c:82-127 | the linked table with its periodic prune does run the four packets, and answers the last differently |
| `FlowRun.AnswersIdeal` | src/ip_flow.c:82-94 | a run of handled packets has the answers of the table that never forgets |
| `FlowRun.HandleAll` | src/ip_flow.c:82-94 | the same of the linked table itself: over any sequence of packets with a clock that does not go back and a node per conversation, its answers are those the packets alone determine: the lifetimes of the TCP phases, the handshake, and for other protocols, past the lifetime, that no packet of the direction came within it |
| `FragmentTable.AddFragment` | src/ip_frag.c:165-208 | a new node at the end of the list keeps it sorted by deadline |
| `FragmentTable.ReuseFragment` | src/ip_frag.c:178-187 | so does a node reused with a new deadline: it is moved to the end |
| `FragmentTable.FreeFront` | src/ip_frag.c:241-258 | freeing the front node of the list keeps the chains and the order of the rest |
| `FragmentTable.StopIsExact` | src/ip_frag.c:238-262 | because of the order, once the front node is not stale no node is |
| `FragmentTable.Fragments.constructor` | src/ip_frag.c:51-62 | an empty table with the whole budget |
| `FragmentTable.Fragments.FreeNode` | src/ip_frag.c:243-256 | one node leaves its chain and returns to the budget |
| `FragmentTable.Fragments.FreeStale` | src/ip_frag.c:236-262 | the loop stops at a node that is not stale or at the end of the list, budget plus nodes unchanged |
| `FragmentTable.EmptiedExactly` | src/ip_frag.c:236-262 | a prune empties the list if and only if every node was past the limit |
| `FragmentTable.Fragments.PruneOldFragments` | src/ip_frag.c:231-269 | exactly the nodes with a deadline before the limit are freed; the sentinel is left pointing to freed memory if and only if the list had nodes and all their deadlines were before the limit |
| `FragmentTable.Fragments.DanglingReadsFreed` | src/ip_frag.c:236-236 | in that state, and in no other, the sentinel points to memory that is not allocated |
| `FragmentTable.Fragments.Search` | src/ip_frag.c:83-131 | a live node with the key is found if there is one; otherwise the node proposed for reuse is the dead one with the key if there is one, else the first stale node of the chain, and none only if the chain has no stale node |
| `FragmentTable.Fragments.Allocate` | src/ip_frag.c:165-208 | the new node is the end of the list with the latest deadline, nothing else changes |
| `FragmentTable.Fragments.Reuse` | src/ip_frag.c:178-208 | the dead node becomes the end of the list with the new key and deadline |
| `FragmentTable.Fragments.CreateFragment` | src/ip_frag.c:141-213 | a fragment that is not known is entered at the end of the list while there are nodes; when they have run out it is skipped, after a prune at most once a minute, which leaves the sentinel dangling if and only if all nodes are stale |
| `FragmentTable.Fragments.FindFragment` | src/ip_frag.c:75-139 | a fragment is known exactly if a node has its key and a later deadline, and then nothing changes; else it is created |
| `FragmentTable.KeyPerNode` | src/ip_frag.c:141-213 | each node besides the sentinel has a key of its own |
| `FragmentTable.Fragments.Handle` | src/ip_frag.c:64-73 | a periodic prune frees exactly the nodes past its limit; the fragment is known exactly if a node alive has its key; else it is entered with a new deadline, nothing else changing, or skipped exactly when as many keys are in the table as there are nodes; order, links and budget are kept, and the sentinel dangles only after an emergency prune. A periodic prune follows the dangling pointer exactly in the case excluded |
| `FragmentRun.HandledSimilar` | src/ip_frag.c:64-139 | one handled fragment is known exactly if it is known to a table that keeps all deadlines, and unless it is skipped the two stay similar |
| `FragmentRun.HandleAll` | src/ip_frag.c:64-213 | over any sequence of fragments with a clock that does not go back, up to the first one skipped for want of nodes, each is known exactly if it is known to a table that never prunes or reuses; none is skipped if there are more nodes than keys |
| `FragmentTable.EmergencyLeavesDangling` | src/ip_frag.c:146-153 | that case is reached: with one node, a second fragment a hundred seconds later makes the emergency prune empty the list |
| `AcctTable.FirstSlot` | src/acct.c:212-363 | the walk stops at the first element that matches or is free, else at the end |
| `AcctTable.FirstMatch` | src/acct.c:67-74 | the search stops at the first element that matches, else at the end |
| `AcctTable.PlacedTotals` | src/acct.c:186-485 | crediting raises the total bytes and packets of the table by the amounts, or leaves it as it is when there is no room |
| `AcctTable.InsertedTotals` | src/acct.c:148-485 | the totals after any insertion: less what is taken from class zero, plus what is credited if there is room |
| `AcctTable.BytesConserved` | src/acct.c:148-206 | an insertion with room raises the total bytes by the bytes of the record itself if and only if nothing is accumulated (or classes are not counted), or a classed record finds no class-zero element, or one that holds at least what is accumulated |
| `AcctTable.PacketsConserved` | src/acct.c:148-206 | the same for packets, which are moved only if accumulated bytes are not zero |
| `AcctTable.DroppedLosesDebit` | src/acct.c:364-382 | without room the record is dropped, and the bytes and packets taken from class zero before are gone |
| `AcctTable.LostExactly` | src/acct.c:148-382 | an insertion lowers the total bytes, or packets, if and only if there is no room and some have been taken from class zero |
| `AcctTable.FoundInTidy` | src/acct.c:67-74 | in a table reached without class accounting the element of a key is found by search, walk and shortcut alike, and holds the counters of the key |
| `AcctTable.ShortcutHarmless` | src/acct.c:186-210 | in such a table the shortcut through the element used last never changes the result |
| `AcctTable.PlacedRepresents` | src/acct.c:186-485 | crediting adds the amounts to the counters of the key; it drops them exactly if the key is absent, its bucket in use and memory exhausted |
| `AcctTable.RunHoldsSums` | src/acct.c:124-485 | after any run the table has at most one element per key, and its counters are the sums over the accounted records of that key |
| `AcctTable.OnlyAbsentDropped` | src/acct.c:364-382 | a record is dropped only if no record of its key has been accounted before |
| `AcctTable.RunFindsSums` | src/acct.c:31-75 | after any run a search for the key of an accounted record finds the element with the sums of that key |
| `AcctTable.TunnelsApartExactly` | src/acct.c:112-121 | over any run, two accounted records that differ in tunnel data only have different elements if and only if their signatures differ: the comparison does not use the result for tunnel data |
| `AcctTable.TunnelsMerged` | src/acct.c:112-121 | a run of two records with different tunnel data and one signature, after which one element holds the sum of both |
| `AcctClasses.TransferExactly` | src/acct.c:148-173 | a classed record with accumulated bytes takes bytes, packets and flows from the element of its key without a class, as far as it holds them, and changes no other element; any other record takes nothing |
| `AcctClasses.CreditedExactly` | src/acct.c:197-201 | the amounts credited: those of the record, and those accumulated unless there was no element to take them from |
| `AcctClasses.PlacedExactly` | src/acct.c:186-485 | crediting changes exactly one element: that of the key; else the first unused one of its chain; else a new one if there is memory; else none |
| `AcctClasses.MemoryExactly` | src/acct.c:364-388 | a request is granted while there is memory, and takes exactly one element of it |
| `AcctClasses.RunBytesExactly` | src/acct.c:148-206 | over any run with class accounting and room, the total bytes are at all times the sum of the own bytes of the records if and only if every step keeps bytes in the sense of BytesConserved |
| `AcctClasses.RunPacketsExactly` | src/acct.c:148-206 | the same for packets |
| `AcctClasses.BytesInvented` | src/acct.c:165-169 | two records from the empty table: class zero holds fewer bytes than were accumulated, and the difference is invented |
| `AcctClasses.PacketsInvented` | src/acct.c:151-151 | two records from the empty table: accumulated packets without bytes are credited a second time |
| `AcctClasses.TransferLost` | src/acct.c:364-382 | two records from the empty table: without memory the transferred bytes and packets are lost |
| `AcctClasses.PlacedUnique` | src/acct.c:212-355 | where every key has one element, crediting keeps it so if and only if it does not take over a free element in front of the element of the key without the shortcut hitting |
| `AcctClasses.RunUniqueExactly` | src/acct.c:124-485 | over any run, with class accounting or without, every key has at all times one element if and only if no step takes over too early |
| `AcctClasses.TwoElements` | src/acct.c:148-355 | four records from the empty table with class accounting, after which one key has two elements |
| `AcctTable.Accounting.constructor` | src/imt_plugin.c:166-180 | zeroed buckets, no element used yet |
| `AcctTable.Accounting.Search` | src/acct.c:31-75 | the first element of the chain of the bucket with the signature and the primitives |
| `AcctTable.Accounting.Debit` | src/acct.c:151-173 | the accumulated amounts are taken from the class-zero element, as far as it holds them, or given up if there is none |
| `AcctTable.Accounting.Place` | src/acct.c:186-485 | shortcut, walk with reuse of free elements, and allocation have together the effect the lemmas above speak of |
| `AcctTable.Accounting.RequestElement` | src/acct.c:364-388 | memory comes from the current pool or a new one; once a request fails, all later ones do |
| `AcctTable.Accounting.Insert` | src/acct.c:124-485 | an insertion is the transfer from class zero followed by crediting |
| `BpfFilter.Validate` | src/bpf_filter.c:519-557 | a program is accepted if and only if all jumps stay inside, ST and LD scratch indices are valid, no constant division is by zero, and the last instruction returns |
| `BpfFilter.StepOfAccepted` | src/bpf_filter.c:225-505 | an instruction of any accepted program stays inside, moves forward if and only if it is not an unconditional jump with a negative offset, never divides by zero, and fails if and only if it is LDX or STX with an index outside the scratch memory |
| `BpfFilter.ForwardExactly` | src/bpf_filter.c:536-542 | all jumps of an accepted program go forward if and only if no unconditional jump has a negative offset |
| `BpfFilter.RunStaysInside` | src/bpf_filter.c:225-505 | a run of any accepted program never leaves the program and never divides by zero; it can fail only by LDX or STX with an index out of range |
| `BpfFilter.RunAdvances` | src/bpf_filter.c:225-505 | with forward jumps the counter is at least n after n instructions |
| `BpfFilter.AcceptedRunsToEnd` | src/bpf_filter.c:225-505 | on any packet and any scratch contents an accepted program with forward jumps ends within as many instructions as it has; it returns or is aborted if its LDX and STX indices are in range |
| `BpfFilter.Filter` | src/bpf_filter.c:195-505 | the loop of the interpreter ends, with the outcome of that run, which is a failure only by LDX or STX with an index out of range; without a program every packet is accepted |
| `BpfLanguage.DecodeOfCode` | src/bpf_filter.c:225-505 | the codes composed of class, size, mode, operation and source bits are the ones the interpreter takes for these instructions |
| `BpfLanguage.KnownCodes` | src/bpf_filter.c:225-505 | it knows no other codes |
| `BpfLanguage.OtherCodesAbort` | src/bpf_filter.c:229-233 | and aborts on any other |
| `BpfExecution.CompileRuns` | src/bpf_filter.c:225-505 | compiled code of an expression, wherever it sits, computes the value of the expression on the packet, or rejects the packet if a load fails or a divisor is zero, and keeps the variables in scratch memory |
| `BpfExecution.RuleRuns` | src/bpf_filter.c:225-505 | compiled code of a rule returns the value of the rule |
| `BpfAcceptance.RuleClosed` | src/bpf_filter.c:519-557 | compiled code of a rule only jumps forward and inside, and ends by returning |
| `BpfAcceptance.ClosedIsAccepted` | src/bpf_filter.c:519-557 | such code is accepted by the validator |
| `BpfCompiler.CompiledReturnsValue` | src/bpf_filter.c:195-557 | the program a rule is compiled to is accepted and, on every packet and whatever is in scratch memory, returns the value of the rule; the language uses every instruction with every comparison, operation, size and source operand |
| `BpfCompiler.FilterPacket` | src/bpf_filter.c:195-557 | compiling, validating and interpreting a rule gives its value |
| `BpfFilter.AcceptedLoop` | src/bpf_filter.c:510-518 | the validator accepts a program that jumps back to itself and never ends |
| `Base64.AlphabetIs` | src/base64.c:20-20 | the alphabet is A to Z, a to z, 0 to 9, plus and slash |
| `Base64.DecodesExactly` | src/base64.c:105-108 | exactly its characters and the padding are decoded, each to its place in the alphabet, the padding to zero |
| `Base64.KeptExactly` | src/base64.c:125-128 | the characters decoded are those at exactly the positions of alphabet and padding |
| `Base64.QuadIsDigits` | src/base64.c:54-57 | three bytes become the four digits in base 64 of the number they make, most significant first |
| `Base64.TailIsDigits` | src/base64.c:66-76 | one or two bytes become two or three such digits, shifted to the left, and padding |
| `Base64.DecodedRoundTrip` | src/base64.c:99-150 | characters without padding are determined by the bytes they are decoded to: encoding these gives the characters back |
| `Base64.TableInvertsAlphabet` | src/base64.c:20-20 | the decoding table inverts the alphabet, which has neither padding nor newline |
| `Base64.QuadBack` | src/base64.c:54-57 | decoding the four characters of three bytes returns the three bytes |
| `Base64.TailBack` | src/base64.c:66-78 | decoding a padded group returns its one or two bytes followed by zeros |
| `Base64.LinesVanish` | src/base64.c:105-149 | skipping what is not in the alphabet undoes the line breaks |
| `Base64.PlainBack` | src/base64.c:122-147 | decoded groups are the input followed by as many zeros as the padding takes off |
| `Base64.RoundTrip` | src/base64.c:33-150 | decoding the encoding of any byte string returns it |
| `Base64.EncodedFits` | src/base64.c:53-83 | no line has more than 72 characters before its newline |
| `Base64.EncodedLength` | src/base64.c:53-83 | the exact length of the text: four characters per started group, a newline per started line |
| `Base64.BufferFits` | src/base64.c:42-45 | text and terminator fit the buffer, and fill it if and only if the length is 1 modulo 3 and the last line is not full |
| `Base64.EncodeGroups` | src/base64.c:53-64 | the loop writes the encoding of all full groups with their line breaks, inside the buffer |
| `Base64.Encode` | src/base64.c:33-87 | the buffer holds the encoding and a zero byte after it, no write is outside |
| `Base64.CountKept` | src/base64.c:110-114 | the first pass counts the characters that are not skipped |
| `Base64.DecodeGroups` | src/base64.c:124-140 | the second pass writes the bytes of all groups, inside the buffer |
| `Base64.Decode` | src/base64.c:99-150 | no result if and only if the characters do not make whole groups; otherwise the decoded bytes without the padding |
| `SqlPurge.RoundShrinks` | src/mysql_plugin.c:503-513 | the first element belongs to its own round, so the pending queue shrinks in every round |
| `SqlPurge.Round` | src/mysql_plugin.c:493-522 | a round takes the elements of its table, or all without splitting, writes the valid ones, and leaves the others in order |
| `SqlPurge.TakenAllExactly` | src/mysql_plugin.c:516-518 | what a round without splitting writes: to the one table, the elements at exactly the valid positions of the queue, in order |
| `SqlPurge.RoundsExactly` | src/mysql_plugin.c:451-536 | what all rounds write: each table gets the elements at exactly its valid positions of the queue, in order, with one round per table name |
| `SqlPurge.Purge` | src/mysql_plugin.c:420-536 | an empty purge does nothing; with a fixed or per-purge table there is one round, which writes exactly the valid elements to it in the order of the cache; with a table per element every table gets exactly its valid elements in the order of the cache, nothing else is written, and there are as many rounds as table names |
| `SqlPurge.EveryTableComplete` | src/mysql_plugin.c:451-536 | every table gets exactly its valid elements, each once, in queue order |
| `SqlPurge.OwnTable` | src/mysql_plugin.c:503-518 | nothing is written to a table that is not its own, and no invalid element is written |
| `SqlPurge.RoundPerName` | src/mysql_plugin.c:451-536 | there are exactly as many rounds as distinct table names |
| `KafkaPurge.PackedText` | src/kafka_plugin.c:530-587 | the messages together are the text of all their lines |
| `KafkaPurge.AllDelivered` | src/kafka_plugin.c:582-586 | if all sends succeed, every line in a message is counted |
| `KafkaPurge.Purge` | src/kafka_plugin.c:450-623 | the lines at exactly the committed positions of the queue are packed in order into messages, none ended while the next line was taken to fit; each message with its terminator fits the buffer if no line is empty, and exceeds it by at most one character otherwise; the count is the number of lines in messages whose send succeeded; a failed send ends the purge, only the line that did not fit any more being sent; elements are left only then; the plugin exits only on a line that does not fit |
| `KafkaPurge.EmptyLineOverflows` | src/kafka_plugin.c:531-533 | an empty line counts nothing although its newline is written: a message with its terminator that exceeds the buffer |
| `KafkaPurge.AllSent` | src/kafka_plugin.c:450-623 | if all sends succeed the messages together are the newline-terminated lines of all committed elements in queue order, and the count is the number of these elements |
| `Classifier.FlowDirection.constructor` | src/classifier.c:197-207 | a direction that has seen no packet |
| `Classifier.FlowDirection.InitAccumulators` | src/classifier.c:197-218 | a new flow starts with empty accumulators, all attempts, and the inherited class if there is one |
| `Classifier.FlowDirection.HandleAccumulators` | src/classifier.c:220-265 | accumulating, discarding and handing over, with the widths of the accumulators |
| `Classifier.FlowDirection.Evaluate` | src/classifier.c:121-195 | the short circuit and the classification step of one packet |
| `Classifier.AccumulatorsAre` | src/classifier.c:220-259 | before a class is seen the accumulators are the sums over all packets so far, pending fragment sums included, modulo their widths; or nothing once the attempts have run out |
| `Classifier.NothingBefore` | src/classifier.c:227-259 | nothing is handed over before a class is seen |
| `Classifier.HandedAtFirstClass` | src/classifier.c:260-264 | the first packet that sees a class takes all of the sums, or nothing if the attempts had run out |
| `Classifier.ClassExactly` | src/classifier.c:132-195 | over any run, the class of every packet: the one given to its direction last; if none was given, the one the classifiers found first while attempts lasted; otherwise none |
| `Classifier.ClassAtFirst` | src/classifier.c:171-189 | the first packet that sees a class gets the given one, or else the one found |
| `Classifier.ClassAfter` | src/classifier.c:137-147 | from there on the class is that of the latest packet that was given one, or unchanged |
| `Classifier.HandedExactly` | src/classifier.c:220-265 | over any run, what is handed over with every packet: the sums before it if it is the first that sees a class and attempts had not run out, else nothing |
| `Classifier.Classify` | src/classifier.c:121-265 | the object, packet after packet, gives these classes and hands these amounts over |
| `Classifier.NothingAfter` | src/classifier.c:260-264 | no later packet takes anything: what was accumulated is handed over at most once |

## Left out

- Reading and tokenising the networks file, I/O errors with the rollback to the previous table, and running out of memory; the model starts from numbered lines.
- The IPv6 twins of the networks, flow and fragment tables, which repeat the IPv4 code on wider addresses.
- Detection of default routes in the networks table, and the functions that copy fields of a matched entry into a packet's primitives.
- NetworksTable.Networks.Lookup: byte order conversion is that of a little-endian machine.
- NetworksTable.BuildTable: a file beyond the nesting limit of NetNesting.LoadableExactly is excluded, since the code overruns an array on it.
- NetworksTable.LoadNetworks: the same.
- NetworksTable.Networks.constructor: the same.
- NetworksTable.Networks.Reload: the same.
- NetHierarchy.BuildLevels: the counter of children kept by the same pass is not modelled; pass 4c overwrites it.
- FlowTable.Table.Handle: the clock counts whole seconds and does not wrap; the microseconds, the hook into the classifiers and the chains of classifier contexts are not modelled. The hash is an arbitrary function into the buckets, of which there are at most 65536, since a node keeps its bucket in 16 bits.
- FlowSimulation.ForgettingUnobservable: not for TCP packets, for which it is false.
- FlowPhases.AnswersExactly: for runs in which no packet is skipped for want of nodes; handshakes that take more than 60 seconds are not covered.
- FragmentTable.Fragments.FindFragment: what a node holds besides key and deadline (first fragment seen, transport header, sums of early fragments) and the answer derived from it are not modelled; the clock stays below 2^32 less the prune interval.
- FragmentTable.Fragments.Handle: excludes a periodic prune that would follow the dangling pointer, since the code then reads freed memory.
- AcctTable.Accounting.Insert: resets of counters and of the table, and the time stamps compared with them, are not modelled; neither are TCP flags, flow types and wrap-around of counters. Primitives other than the class are one value.
- AcctTable.PlacedRepresents: for records with bytes or packets; an element whose counters are zero may be taken over by another key.
- AcctTable.RunHoldsSums: for such records, and without class accounting, with which it is false (AcctClasses.TwoElements).
- AcctTable.OnlyAbsentDropped: the same.
- AcctTable.RunFindsSums: the same.
- AcctTable.TunnelsApartExactly: the same.
- BpfFilter.Filter: packet loads are a function of size and offset, shifts by 32 bits and more an arbitrary function, since C leaves them open; the kernel's buffer chains are not modelled. Programs with a negative unconditional offset are excluded, since the loop need not end on them.
- BpfFilter.AcceptedRunsToEnd: the same programs are excluded; BpfFilter.AcceptedLoop is one that does not end.
- BpfFilter.RunAdvances: the same.
- BpfFilter.Validate: an empty program is excluded, since the code reads the instruction before it.
- Base64.Encode: sizes do not wrap; a failing or empty allocation is not modelled.
- SqlPurge.Purge: queries succeed; multi-value buffers, locks and the creation of tables are not modelled, nor a queue that preprocessing has emptied.
- KafkaPurge.Purge: that messages fit the buffer is stated for elements whose JSON text is not empty, as the JSON library makes them; KafkaPurge.EmptyLineOverflows shows why. Avro output, topics with variables, sending line by line, and purge markers are not modelled.
- Classifier.FlowDirection.Evaluate: classes are what regular expressions, shared objects, connection tracking and the other direction are said to give; payload preprocessing and context chains are not modelled.
- The query server of the memory plugin, the other broker and database plugins (which repeat the purge loops), configuration, logging and the capture loop.
