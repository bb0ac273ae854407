# libop in Dafny

libop is a C support library for an IRC server. This project models its hardest parts and proves what they promise, for
all inputs and all runs:

- **Replicated state and clocks.** A delta OR-Set over a compressed causal context (`CausalContext`, `OrSetSpec`, `OrSet`,
  and `OrSetCluster`, where replica objects carry out the runs), vector clocks (`VClockSpec`, `VClockWire`, `VClock`) and hybrid
  logical clocks (`Hlc`), over runs of any number of replicas whose happens-before relation is defined once, in `Causality`.
- **Lock-free queues.** The bounded multi-producer multi-consumer queue (`Mpmc`), the completion queue (`Async`) and the log
  stack with its wake-up flag (`AsyncLog`). Each is a state machine whose steps are single atomic loads, stores, exchanges and
  compare-and-swaps of one thread; the theorems are about every interleaving.
- **Index structures.** The Robin Hood table with backward-shift deletion and deletion during iteration (`RobinHood`, `Htab`),
  the left-leaning red-black interval tree (`IntervalTree` on values, `IntervalNodes` relinking nodes in place), the graph with
  incrementally kept in-degrees (`Graph`), Kahn's sort (`TopoSort`) on the circular buffer (`Deque`), and Dijkstra with lazy
  deletion (`ShortestPath`) on the binary heap (`BinaryHeap`, `PriorityQueue`).
- **Scheduler and allocator.** The event heap with back-indices (`Events`), and the slab heap with its intrusive free list and
  per-thread magazines (`SlabLayout`, `Balloc`, `BlockHeap`).
- **Streams and text.** Streaming SHA-256 and SHA-512 (`ShaSpec`, `Sha`), the IPv6 printer and parser (`InetSpec`,
  `InetRoundTrip`, `Inet`) with a grammar of addresses to hold the parser against (`InetGrammar`), and line assembly (`Linebuf`).
  `ByteOrder`, `Ring` and `Common` hold what these share.

Code that updates things in place is modelled in place: classes with their fields, arrays, loops with invariants, and a table
of node records for the linked interval tree. Each such method is proved against a function or an invariant, and the promise
itself is proved about those. `dafny verify dfyconfig.toml` checks everything.

## Where the code does not do what its text says

The model follows the code. Each of these is proved together with the exact condition under which the promise does hold.

- The OR-Set merge rule stated at src/crdt.c:138-145 has a third term, the dots both sides hold, that the code lacks:
  delivering an add again can delete its element (`OrSetSpec.RedeliveryLosesElement`, `OrSetSpec.Redelivery`).
- The queue of include/op_mpmc.h accepts capacity 1, where a second push overwrites the first
  (`Mpmc.CapacityOneOverwrites`, `Mpmc.BoundedIffTwoSlots`).
- The comment at src/async_log.c:283-286 says the final drain picks up enqueues still in flight; it need not
  (`AsyncLog.LostMessage`, `AsyncLog.StopDelivers`).
- The causal order promised at include/op_hlc.h:5-9 fails when the 16-bit counter wraps (`Hlc.StallWraps`,
  `Hlc.OrderedIffNoWrap`).
- Vector clocks stop telling causality exactly when some event's past involves more than 32 servers
  (`VClockSpec.RelayConfuses`, `VClockSpec.OrderIffFits`), and a merge is then no upper bound (`VClockSpec.MergeIsLub`).
- op_inet_ntop prints an IPv4-compatible address as a bare quad, which op_inet_pton reads as a mapped one
  (`InetRoundTrip.CompatComesBackMapped`, `InetRoundTrip.RoundTripIff`).
- The comment at src/commio.c:2252-2256 promises success only for addresses of section 2.2 of RFC 1884, but inet_pton6 skips any
  character it does not know and a dot at the end, and takes any number of leading zeros (`InetGrammar.JunkAccepted`,
  `InetGrammar.AcceptedIffAddress`).
- The comment at src/linebuf.c:172-174 says that an overlong line is passed over whole; what is cut off becomes a line of its own
  when it comes in a later call, and a long CR/LF run leaves NUL bytes behind (`Linebuf.LongLineSplits`, `Linebuf.FieldsIffFits`).
- A frequency of -1 jitters to a delay of 0, so such an event is due again as soon as it has fired
  (`Events.DueNoMoreIff`, `Events.DelayPositive`).
- The SHA-256 byte counter misses a carry for some calls of 2^32 bytes and more (`ShaSpec.CarryMissed`,
  `ShaSpec.AddedExactly`).

## Model

| member | source | states |
|---|---|---|
| `CausalContext.FindReplica` | include/op_crdt.h:91-97 | the index of the one frontier of a replica, or a negative number exactly when the context knows nothing of it |
| `CausalContext.Contains` | include/op_crdt.h:70-85 | true exactly for the dots the compressed context stands for: those at or below their replica's frontier and those in the overflow list |
| `CausalContext.PullIn` | include/op_crdt.h:114-117 | moving the overflow dot just above a frontier into it (and the last overflow dot into the gap) leaves the set of dots unchanged |
| `CausalContext.Cc.Compact` | include/op_crdt.h:109-122 | compaction terminates, keeps the set of dots and the known replicas, and leaves no overflow dot directly above the frontier |
| `CausalContext.Cc.Add` | include/op_crdt.h:88-127 | the set of dots grows by exactly the added dot whenever the fixed arrays have room for it, and is untouched otherwise; nothing else is ever gained or lost |
| `CausalContext.Cc.MergeFrontier` | include/op_crdt.h:139-151 | one source frontier makes exactly its own dots covered, or changes nothing when the replica table is full |
| `CausalContext.Cc.MergeFrontiers` | include/op_crdt.h:133-152 | no covered dot is lost and none invented; with room for all replicas everything the source frontiers cover is covered afterwards |
| `CausalContext.Cc.MergeOverflow` | include/op_crdt.h:153-156 | overflow dots of the source arrive and nothing else does, including through the compaction an added dot can set off |
| `CausalContext.Cc.Merge` | include/op_crdt.h:130-157 | always between the old set of dots and the union of both sets, and equal to the union when the replicas and overflow dots the target lacks fit beside those it has |
| `OrSet.Find` | src/crdt.c:14-24 | the index of the entry with the key, or a negative number exactly when no entry has it |
| `OrSet.KeepOutside` | src/crdt.c:157-172 | the dots outside a context are kept, once each, and all of them when the fixed array has room |
| `OrSet.Surviving` | src/crdt.c:202-206 | in-place filtering of a dot array keeps exactly the dots outside the context |
| `OrSet.DropEntry` | src/crdt.c:131 | moving the last entry into a gap removes exactly the live pairs of that key |
| `OrSet.OrSet.constructor` | src/crdt.c:41-49 | an empty set with an empty context |
| `OrSet.OrSet.Add` | src/crdt.c:58-109 | the delta is one fresh dot for the key with just that dot as context; the live pairs are exactly the old ones and the new one, less the key's oldest dot when it has four already; the context gains the dot exactly when it has room; an overlong key changes nothing and yields an empty delta |
| `OrSet.OrSet.Remove` | src/crdt.c:111-132 | removes exactly the key and the delta's context is exactly the dots the replica held for it; the local context does not shrink |
| `OrSet.OrSet.Apply` | src/crdt.c:134-218 | with room, the replica becomes the abstract merge of its state with the delta, for both kinds of delta; without, its keys are still exactly those of the abstract merge, and its dots and context no more than the merge's |
| `OrSet.OrSet.MergeExisting` | src/crdt.c:150-180 | with room, the key keeps its dots outside the delta's context plus the delta's dots outside the local one; other keys are untouched and a key left without dots goes; without room the keys are the same and no other dots appear |
| `OrSet.OrSet.MergeNew` | src/crdt.c:181-197 | a key not held before appears with exactly the delta's dots outside the local context, if any |
| `OrSet.OrSet.DropCovered` | src/crdt.c:198-214 | a remove-only delta takes away exactly the live pairs whose dot its context covers, although entries move while the loop runs |
| `OrSetSpec.FirstDelivery` | src/crdt.c:134-218 | merging a delta for the first time keeps the description of a replica by the deltas it has applied: live are the dots added and not removed, observed are the dots mentioned |
| `OrSetSpec.StepKeepsInv` | src/crdt.c:58-218 | local adds under any counter above those the replica has used, local removes and first deliveries, in any order, removes ahead of their adds included, keep that description at every replica |
| `OrSetSpec.RunKeepsInv` | src/crdt.c:58-218 | the description holds in every state of every run |
| `OrSetSpec.Convergence` | src/crdt.c:134-218 | in every run, two replicas that have applied the same set of deltas have the same live pairs and the same context |
| `OrSetSpec.AddWins` | src/crdt.c:138-145 | in every run, a key is present at a replica exactly when some applied add of it is not covered by an applied remove: concurrent removes do not win |
| `OrSetSpec.Redelivery` | src/crdt.c:138-180 | merging a delta a second time changes nothing if and only if it is a remove or none of its dots is live for its key any more; the comment's third term (dots in both) is missing from the code |
| `OrSetSpec.RedeliveryLosesElement` | src/crdt.c:157-180 | delivering an add to the replica that made it deletes the element |
| `OrSetCluster.Cluster.Take` | src/crdt.c:58-218 | one step of a run carried out by the replica objects: their states are again those of the abstract system after the step |
| `OrSetCluster.Cluster.Replay` | src/crdt.c:58-218 | for every list of steps, the objects follow a run of the abstract system step by step, up to the first step that does not fit their fixed arrays |
| `OrSetCluster.Converge` | src/crdt.c:58-218 | replica objects that have applied the same deltas end in the same state, whatever steps were taken |
| `Mpmc.StepKeepsInv` | include/op_mpmc.h:70-124 | every atomic step of any pusher or popper keeps the invariant tying slot sequence numbers, claimed positions and each thread's place in its loop |
| `Mpmc.RunKeepsInv` | include/op_mpmc.h:45-124 | the invariant holds in every state of every interleaving from an initialised queue with at least two slots |
| `Mpmc.Delivery` | include/op_mpmc.h:70-124 | in every interleaving tail <= head <= tail + capacity, and the item popped at a position is the item pushed at that position |
| `Mpmc.OneWriterOneReader` | include/op_mpmc.h:81-88 | in every interleaving a slot is written only for a position not written before and only after the reader of one lap earlier released it, and read only for a published position not read before |
| `Mpmc.PopReadsItem` | include/op_mpmc.h:113 | what a popper reads from its slot is the item pushed at its position |
| `Mpmc.FullAndEmptyAreReal` | include/op_mpmc.h:90-91 | a push reports full only when the slot one lap back is still unreleased, a pop reports empty only when its position is unpublished, at the moment of the load that decides |
| `Mpmc.CapacityOneOverwrites` | include/op_mpmc.h:45-61 | a run of two pushes on a queue of capacity one, which initialisation accepts, in which the second push overwrites the first item unread |
| `Mpmc.BoundedIffTwoSlots` | include/op_mpmc.h:45-61 | for the capacities initialisation accepts, head <= tail + capacity in all runs if and only if the capacity is at least two |
| `IntervalTree.FixupInsertShape` | src/itree.c:121-129 | fixup after an insertion below restores equal black height and left-leaning shape, for every colour pattern insertion can leave |
| `IntervalTree.InsertShape` | src/itree.c:133-167 | insertion keeps the black height and the shape; the one blemish it may leave is a red root over a red left child, and only under a red root |
| `IntervalTree.MoveRedLeftShape` | src/itree.c:171-182 | borrowing to the left makes the left child deletable and keeps black height, for both cases of the sibling; the right child is there |
| `IntervalTree.MoveRedRightShape` | src/itree.c:184-194 | the mirror image, where the right child may come out with a red right child |
| `IntervalTree.FixupShape` | src/itree.c:121-129 | fixup over two children in shape yields a tree in shape, and for a red root one that is in shape once blackened |
| `IntervalTree.FixupOk` | src/itree.c:71-129 | rotations, colour flips and aug keep the search order, the stored intervals and exact max_end |
| `IntervalTree.InsertOk` | src/itree.c:133-167 | insertion keeps the search order and exact max_end and adds exactly one copy of the interval |
| `IntervalTree.DelMin` | src/itree.c:203-218 | removing the minimum keeps black height and shape and leaves a black root black |
| `IntervalTree.DelMinOk` | src/itree.c:196-218 | it takes out exactly the minimum node's segments and leaves only larger keys, in order and with exact max_end |
| `IntervalTree.Del` | src/itree.c:224-316 | for every tree in shape, although its root is not coloured red first: the result is in shape once blackened, in order, with exact max_end, and short of one copy of the interval exactly when it was stored, which is what the flag says |
| `IntervalTree.DelLeft` | src/itree.c:230-236 | the same on the way to the left, where borrowing may be needed |
| `IntervalTree.DelRight` | src/itree.c:237-315 | the same on the way to the right, from a tree in shape or one with just a red right child |
| `IntervalTree.DelHere` | src/itree.c:242-268 | a node without right child has no left child either; it loses the segment or goes |
| `IntervalTree.DelSegment` | src/itree.c:273-308 | an inner node loses one segment; one that loses its last takes over its successor's, and no other interval is gained or lost |
| `IntervalTree.MaxEndExact` | src/itree.c:71-82 | max_end is the largest end stored in the subtree: an upper bound, and attained |
| `IntervalTree.InOrderSorted` | src/itree.c:336-355 | the in-order listing is ascending in lo |
| `IntervalTree.QueryIsScan` | src/itree.c:336-355 | pruning on max_end and lo is invisible: any callback, whenever it declines, is shown exactly what a scan of the full ascending list would show it |
| `IntervalTree.ScanExtremes` | src/itree.c:323-355 | a callback that never declines is shown all overlapping intervals, one that always does just the first |
| `IntervalTree.InsertValid` | src/itree.c:396-406 | an insertion at the root keeps a valid tree and adds one copy to the multiset of intervals |
| `IntervalTree.DeleteValid` | src/itree.c:408-420 | a deletion at the root keeps a valid tree, and the multiset loses one copy of the interval if it had one |
| `IntervalNodes.RotatedLeft` | src/itree.c:86-97 | the pointer assignments of a rotation turn the linked tree into the rotated one on the same nodes, sharing nothing |
| `IntervalNodes.RotatedRight` | src/itree.c:99-110 | the mirror image |
| `IntervalNodes.Unchain` | src/itree.c:245-257 | unlinks the first copy of the segment and says whether there was one |
| `IntervalNodes.CopyChain` | src/itree.c:296-304 | the copy by prepending is the chain reversed |
| `IntervalNodes.VisitSegs` | src/itree.c:323-334 | shows the overlapping segments of one node in chain order until the callback declines |
| `IntervalNodes.LargestHi` | src/itree.c:71-82 | the largest end in a chain |
| `IntervalNodes.AllLinked` | src/itree.c:203-316 | an operation that stays within its tree leaves no node of the tree's memory outside it: freed nodes are gone and none is leaked |
| `IntervalNodes.Itree.Augment` | src/itree.c:71-82 | recomputes one node's max_end from its chain and its children and touches nothing else |
| `IntervalNodes.Itree.TurnLeft` | src/itree.c:86-97 | in place on linked nodes: the left rotation of the tree, on the same nodes, no node outside touched, no missing child followed |
| `IntervalNodes.Itree.TurnRight` | src/itree.c:99-110 | the mirror image |
| `IntervalNodes.Itree.Flip` | src/itree.c:112-118 | in place: the colours of a node and its two children flipped, nothing else |
| `IntervalNodes.Itree.FixupAt` | src/itree.c:121-129 | in place: exactly the fixup of the tree, on the same nodes |
| `IntervalNodes.Itree.InsertAt` | src/itree.c:133-167 | in place: exactly the insertion into the tree; nodes outside the subtree are untouched and the only new node is linked |
| `IntervalNodes.Itree.MoveLeft` | src/itree.c:171-182 | in place: exactly the borrowing to the left, on the same nodes |
| `IntervalNodes.Itree.MoveRight` | src/itree.c:184-194 | in place: exactly the borrowing to the right, on the same nodes |
| `IntervalNodes.Itree.MinAt` | src/itree.c:196-200 | key and chain of the leftmost node |
| `IntervalNodes.Itree.DelMinAt` | src/itree.c:203-218 | in place: exactly the removal of the minimum; the freed node has no children, so nothing below it is lost |
| `IntervalNodes.Itree.DelAt` | src/itree.c:224-316 | in place: exactly the deletion of the tree with the same flag, touching no node outside the subtree, freeing just the nodes that go, and never following a missing child |
| `IntervalNodes.Itree.DelHereAt` | src/itree.c:242-268 | in place: the case without right child |
| `IntervalNodes.Itree.DelSegmentAt` | src/itree.c:273-308 | in place: the segment removal at an inner node |
| `IntervalNodes.Itree.Steal` | src/itree.c:290-307 | in place: key and copied chain of the successor move up and its node goes |
| `IntervalNodes.Itree.QueryAt` | src/itree.c:336-355 | the linked tree answers a query as its value does |
| `IntervalNodes.Itree.constructor` | src/itree.c:379-387 | an empty tree |
| `IntervalNodes.Itree.Insert` | src/itree.c:396-406 | -1 and no change when hi < lo; otherwise 1, one more copy of the interval, and key order, left-leaning red-black shape, exact max_end, the count and the node set all hold again |
| `IntervalNodes.Itree.Delete` | src/itree.c:408-420 | 1 exactly when the interval was stored, one copy fewer then and the same multiset otherwise, with the whole invariant kept |
| `IntervalNodes.Itree.Overlap` | src/itree.c:430-437 | exactly the stored intervals meeting [a, b], in ascending lo; none when a > b |
| `IntervalNodes.Itree.FirstStab` | src/itree.c:451-457 | nothing exactly when no stored interval contains the point, otherwise the first match in ascending lo |
| `RobinHood.Chain` | src/htab.c:90-112 | under the displacement invariant, every slot between an entry's ideal bucket and the entry is occupied by an entry at least as displaced as the probe |
| `RobinHood.EarlyExit` | src/htab.c:132-133 | so an empty slot or a less displaced entry at probe distance d proves that no entry with this ideal bucket sits at distance d or beyond |
| `RobinHood.SwapStep` | src/htab.c:172-181 | placing the carried entry over a less displaced one and carrying that on keeps the displacement invariant, distinct keys and the set of entries |
| `RobinHood.AdvanceStep` | src/htab.c:183-184 | moving on keeps the invariant of the probe and comes nearer to the empty slot that ends it |
| `RobinHood.ShiftDisplaced` | src/htab.c:198-224 | backward shift up to the first empty slot or entry at home keeps the displacement invariant at every slot |
| `RobinHood.ShiftEntries` | src/htab.c:198-224 | backward shift removes exactly the deleted entry |
| `RobinHood.SomeEmpty` | src/htab.c:145-152 | fewer distinct entries than slots: there is an empty slot |
| `Htab.InsertSlot` | src/htab.c:153-186 | the swap chain terminates at an empty slot, adds exactly the entry and keeps the displacement invariant and distinct keys |
| `Htab.Rehash` | src/htab.c:228-245 | the new array holds exactly the old entries under the displacement invariant |
| `Htab.ShiftBack` | src/htab.c:203-221 | the loop terminates, having shifted back exactly the run of displaced entries after the hole |
| `Htab.Htab.constructor` | src/htab.c:258-276 | an empty map |
| `Htab.Htab.FindIdx` | src/htab.c:119-141 | the slot of the key, or a negative number only when the map does not have it: the early exit misses nothing and the probe ends |
| `Htab.Htab.Get` | src/htab.c:505-511 | the value the map binds the key to, if any |
| `Htab.Htab.Resize` | src/htab.c:228-245 | the map is unchanged |
| `Htab.Htab.MaybeGrow` | src/htab.c:248-254 | the map is unchanged and the load is below three quarters, so a free slot exists |
| `Htab.Htab.AddNew` | src/htab.c:445-449 | the map gains exactly this binding and the table stays valid, also when it grows |
| `Htab.Htab.Overwrite` | src/htab.c:433-440 | the value changes, the stored key does not |
| `Htab.Htab.Set` | src/htab.c:427-450 | the map is updated at the key; 0 and the old value when it was there (the key stored first is kept), 1 otherwise |
| `Htab.Htab.GetOrSet` | src/htab.c:484-501 | the stored value if there is one, otherwise the given one, which is then stored |
| `Htab.Htab.DelAt` | src/htab.c:198-224 | the map loses exactly the key of the slot and the count follows |
| `Htab.Htab.Del` | src/htab.c:460-472 | the map without the key, and the value it had |
| `Htab.Htab.Compact` | src/htab.c:548-554 | the map is unchanged and the array is at its minimum or at most about twice what half load needs |
| `Htab.Htab.IterNext` | src/htab.c:572-593 | the next occupied slot, with only empty ones in between, or the end |
| `Htab.Htab.IterDel` | src/htab.c:607-622 | removes the entry last returned and rewinds by one; a second call without advancing changes nothing |
| `Htab.StillSeen` | src/htab.c:595-606 | backward shift moves no entry the iterator has not returned to a place it has passed, around the array end included |
| `Htab.Htab.Sweep` | src/htab.c:558-622 | for any rule which entries to delete: iteration with deletion terminates, returns every entry present at the start at least once and nothing else, and what is left is exactly what the rule did not strike |
| `Ring.WrapIsMod` | src/htab.c:93 | the index arithmetic of all rings is the remainder by the capacity, which is what masking with a power of two less one gives |
| `Ring.NextPow2` | src/htab.c:65-79 | a power of two, at least the minimum and the number asked for, and less than twice that number |
| `BinaryHeap.SiftUpRestores` | src/pqueue.c:67-81 | sifting up an entry that is too small for its place restores heap order and permutes the entries |
| `BinaryHeap.SiftDownRestores` | src/pqueue.c:87-109 | sifting down an entry that is too large does too, from any starting index |
| `BinaryHeap.LeastOfAll` | src/pqueue.c:161-181 | the root of a heap is least among all entries |
| `BinaryHeap.PushedHeap` | src/pqueue.c:142-159 | appending and sifting up gives a heap with one more entry |
| `BinaryHeap.RemovedHeap` | src/pqueue.c:183-204 | filling any gap with the last entry and sifting it up and then down gives a heap with one entry fewer |
| `PriorityQueue.PQueue.SwapSlots` | src/pqueue.c:44-50 | two slots exchanged, the rest as it was |
| `PriorityQueue.PQueue.SiftUp` | src/pqueue.c:67-81 | does to the one-based array what the sift up proved above does to the sequence |
| `PriorityQueue.PQueue.SiftDown` | src/pqueue.c:87-109 | does to the one-based array what the sift down proved above does to the sequence |
| `PriorityQueue.PQueue.Resize` | src/pqueue.c:56-61 | the entries survive the change of array |
| `PriorityQueue.PQueue.Push` | src/pqueue.c:142-159 | heap order is kept and the bag of entries gains exactly this one |
| `PriorityQueue.PQueue.Pop` | src/pqueue.c:161-181 | an entry no larger than any other leaves the bag, nothing else does, and heap order is kept also when the array shrinks; nothing from an empty queue |
| `PriorityQueue.PQueue.Remove` | src/pqueue.c:183-204 | true exactly when the entry was there; one copy of it leaves the bag and heap order is kept |
| `Deque.Deque.constructor` | src/deque.c:67-74 | an empty sequence |
| `Deque.Deque.Grow` | src/deque.c:47-63 | the sequence survives the move of a wrapped-around buffer into one of twice the size |
| `Deque.Deque.PushBack` | src/deque.c:105-112 | the sequence is extended at its end, also when the buffer has to grow |
| `Deque.Deque.PopFront` | src/deque.c:133-142 | the first element is returned and the rest of the sequence stays |
| `Graph.FindEdge` | src/graph.c:71-78 | the index of the edge to a target, or a negative number exactly when there is none |
| `Graph.Graph.constructor` | src/graph.c:97-110 | an empty graph |
| `Graph.Graph.AddNode` | src/graph.c:131-158 | a dead id, recycled or new, comes to life without edges; all in-degrees, the edge count, the live count and the free list stay exact |
| `Graph.Graph.AddEdge` | src/graph.c:216-234 | -1 and no change for a dead end; otherwise the arc has the weight, 0 when it was there and 1 when it is new, self-loops included, with all counts exact |
| `Graph.Graph.DelEdge` | src/graph.c:236-246 | 1 and the arc gone exactly when both ends live and it existed, with all counts exact |
| `Graph.Graph.DelNode` | src/graph.c:179-212 | the node and every arc into or out of it go, nothing else does, and all in-degrees and counts are exact afterwards, self-loops included |
| `Graph.Graph.Unhook` | src/graph.c:185-209 | the state of the node table once a node is taken out, with the edge count equal to the number of arcs left |
| `TopoSort.OrderedIsAcyclic` | src/graph.c:361-405 | a graph that has a topological order has no directed cycle |
| `TopoSort.ClosedSetHasCycle` | src/graph.c:404 | a non-empty set of nodes each of which has a predecessor in the set contains a directed cycle |
| `TopoSort.RelaxStep` | src/graph.c:391-398 | lowering one in-degree keeps the bookkeeping: working in-degrees count the predecessors not output yet, and the queue holds exactly the nodes with none |
| `TopoSort.Finished` | src/graph.c:404 | with an empty queue, as many nodes output as live means a valid order of all live nodes and no cycle; any other number means a cycle |
| `TopoSort.Sort` | src/graph.c:361-405 | -1 if and only if the live graph has a directed cycle; otherwise the number of live nodes and, as far as the output array reaches, a topological order of them |
| `TopoSort.CycleCheck` | src/graph.c:407-416 | true if and only if the live graph has a directed cycle |
| `ShortestPath.LeastIsExact` | src/graph.c:467-474 | the least queue entry of an unfinished node carries that node's current distance, so stale entries are never used |
| `ShortestPath.RelaxedKeeps` | src/graph.c:483-498 | relaxing one edge keeps the invariant: tentative distances are weights of real paths, and settled nodes are relaxed |
| `ShortestPath.ArrivalIsLeast` | src/graph.c:476-480 | the distance at which the target is popped is at most the weight of every path and is the weight of one |
| `ShortestPath.NoArrival` | src/graph.c:463 | a queue that empties first means there is no path |
| `ShortestPath.Work.TakeLeast` | src/graph.c:467-474 | pops a least entry and marks its node unless that was done before |
| `ShortestPath.Work.RelaxEdge` | src/graph.c:485-497 | overwrites distance and predecessor and pushes an entry exactly when the edge shortens the way to an unfinished node |
| `ShortestPath.Work.RelaxAll` | src/graph.c:482-498 | all edges of the node relaxed: the invariant of the search holds again |
| `ShortestPath.Work.Run` | src/graph.c:465-499 | the search terminates, with the least weight on arrival and with INT64_MAX only when there is no path |
| `ShortestPath.PrevStepsBack` | src/graph.c:510-517 | following the predecessors from the target walks the found path backwards, so the trace terminates |
| `ShortestPath.Backtrace` | src/graph.c:508-526 | writes the last part of the path that fits, in forward order: all of it when the array is large enough |
| `ShortestPath.Shortest` | src/graph.c:436-532 | for non-negative weights whose sums fit: the least weight over all paths, INT64_MAX exactly when there is none or an end is dead, and in the array a real path of that weight |
| `Causality.KnownIsCausality` | include/op_vclock.h:65-94 | counting, per server, the events in an event's causal past tells happens-before: one event's counts are at most another's exactly when it is in its past |
| `VClockSpec.TickKeeps` | include/op_vclock.h:65-78 | a tick adds one to exactly the server's own counter, unless the table is full and lacks it |
| `VClockSpec.MergedExact` | include/op_vclock.h:81-94 | a merge within the capacity is the component-wise maximum |
| `VClockSpec.MergeIsLub` | include/op_vclock.h:81-94 | a merge is an upper bound of both clocks if and only if the servers of both fit, and then the least one |
| `VClockSpec.EntriesLeIsLe` | include/op_vclock.h:109-121 | comparing the listed entries is comparing all counters, absent ones as zero |
| `VClockSpec.ClockExact` | include/op_vclock.h:65-94 | in every run, as long as an event's past involves at most 32 servers, its clock counts exactly the events in its past |
| `VClockSpec.PastKeysMeaning` | include/op_vclock.h:65-94 | the servers a past involves, computed step by step, are those of the events that happen before |
| `VClockSpec.FitTellsOrder` | include/op_vclock.h:104-127 | when every past fits, cmp returns -1 exactly for happens-before, 1 for its converse, 0 for the same event and 2 exactly for concurrency |
| `VClockSpec.MisfitConfuses` | include/op_vclock.h:89-92 | the first event whose past does not fit has a direct predecessor that cmp no longer reports as before it |
| `VClockSpec.NoRoomForNewcomer` | include/op_vclock.h:72-92 | a server whose first event hears of 32 others comes out with a clock equal to the one it received |
| `VClockSpec.RelayConfuses` | include/op_vclock.h:72-92 | a run in which 33 servers pass a message on: it is a run, it does not fit, and cmp calls its last two events equal although one happens before the other |
| `VClockSpec.OrderIffFits` | include/op_vclock.h:104-127 | for every run: cmp tells causality for all pairs of events if and only if no event's past involves more than 32 servers |
| `VClockSpec.FewServers` | include/op_vclock.h:30 | a run over at most 32 servers fits |
| `VClockWire.ShiftedIsBigEndian` | include/op_vclock.h:137-159 | the eight shifts write a counter in big-endian order |
| `VClockWire.GatheredIsValue` | include/op_vclock.h:162-183 | the eight shifts back read a big-endian number |
| `VClockWire.DecodeEncode` | include/op_vclock.h:137-183 | decoding an encoded clock, whatever follows it, gives back the clock and its length |
| `VClockWire.EncodeDecode` | include/op_vclock.h:137-183 | whatever decodes is the encoding of the result: the format is canonical |
| `VClock.VClock.constructor` | include/op_vclock.h:42 | an empty clock |
| `VClock.VClock.Find` | include/op_vclock.h:45-53 | the first entry of the server, or -1 |
| `VClock.VClock.GetCounter` | include/op_vclock.h:56-61 | the server's counter, 0 when absent |
| `VClock.VClock.Tick` | include/op_vclock.h:65-78 | the tick of the clock value, with its return value: 0 when the table is full |
| `VClock.VClock.Merge` | include/op_vclock.h:81-94 | the merge of the two clock values; merging a clock into itself changes nothing |
| `VClock.VClock.Cmp` | include/op_vclock.h:104-127 | the comparison of the two clock values |
| `VClock.VClock.Encode` | include/op_vclock.h:137-159 | 0 and an untouched buffer when it is too small, otherwise exactly the wire form and nothing past it |
| `VClock.VClock.Decode` | include/op_vclock.h:162-183 | 0 and an untouched clock on a short or overlong input, otherwise the decoded clock and the bytes consumed |
| `Hlc.Lexicographic` | include/op_hlc.h:37-44 | packed timestamps compare as wall time first and logical counter second |
| `Hlc.Cmp` | include/op_hlc.h:47-52 | the sign of that comparison, 0 only for equal timestamps |
| `Hlc.TickAdvances` | include/op_hlc.h:68-79 | a tick gives a larger timestamp if and only if it neither wraps the logical counter nor drops wall bits |
| `Hlc.TickClears` | include/op_hlc.h:68-79 | for walls under 48 bits: larger exactly when the counter does not wrap, with the wall the maximum of both |
| `Hlc.ReceiveClears` | include/op_hlc.h:90-114 | a receive gives a timestamp above both inputs if and only if the counter it increments is not at its maximum |
| `Hlc.Clock.Tick` | include/op_hlc.h:68-79 | the stored and returned timestamp are the tick of the old one |
| `Hlc.Clock.Recv` | include/op_hlc.h:90-114 | the stored and returned timestamp are the receive of the old and the remote one |
| `Hlc.WallIsMaxNow` | include/op_hlc.h:5-9 | in every run the wall part of an event is the running maximum of the clock readings that led to it, and stays within 48 bits |
| `Hlc.MaxNowWitness` | include/op_hlc.h:5-9 | that largest reading is the reading of an event in its past |
| `Hlc.MaxNowBounds` | include/op_hlc.h:5-9 | no clock read in the causal past of an event is larger than that |
| `Hlc.WallIsLargestRead` | include/op_hlc.h:5-9 | in every run the wall part of an event was read in its causal past and nothing larger was |
| `Hlc.LogicalBound` | include/op_hlc.h:5-9 | in every run the logical part is at most the length of the longest causal chain ending in the event |
| `Hlc.DepthBoundsChains` | include/op_hlc.h:5-9 | no causal chain ending in an event is longer than its depth |
| `Hlc.DepthIsAChain` | include/op_hlc.h:5-9 | and one is as long |
| `Hlc.OrderedIffNoWrap` | include/op_hlc.h:5-9 | for every run: happens-before always means a strictly smaller timestamp if and only if no event increments a logical counter that is at its maximum |
| `Hlc.ShortChainsOrdered` | include/op_hlc.h:15 | so runs whose causal chains are shorter than 65536 are ordered |
| `Hlc.StallWraps` | include/op_hlc.h:15 | 65536 events of one node under a stopped physical clock are not |
| `Async.StepKeepsInv` | src/async.c:93-324 | every atomic step of submitters, workers and the draining thread keeps the invariant over links, owners, posts and counts |
| `Async.RunKeepsInv` | src/async.c:93-324 | it holds in every state of every interleaving |
| `Async.NoUseAfterFree` | src/async.c:103-111 | in every interleaving no step reads or writes a freed node, the link a producer stores was still empty, and no sentinel is freed twice |
| `Async.InOrderOnce` | src/async.c:290-324 | in every interleaving the completions delivered so far are the first ones in the order of the tail exchanges, each task once and only tasks that asked for it, and the pending count is the number of tasks submitted and not finished |
| `Async.HistoryGrows` | src/async.c:103-104 | the order of exchanges and the deliveries only ever grow at their ends |
| `Async.EmptyMeansAll` | src/async.c:298-303 | when no producer is between exchange and link store, a drain that finds nothing has delivered everything |
| `Async.DrainEmpties` | src/async.c:290-324 | once every producer has done its link store, a drain left to run delivers all posted completions and leaves head at tail |
| `Async.NoLostWakeup` | src/async.c:113-124 | in every interleaving, a completion waiting while the main thread is away means the notification is pending or some producer is still about to write it |
| `AsyncLog.StepKeepsInv` | src/async_log.c:148-238 | every atomic step of producers, the writer and the stopping thread keeps the invariant over stack, detached list, reversed list, flag and wake fd |
| `AsyncLog.RunKeepsInv` | src/async_log.c:148-238 | it holds in every state of every interleaving |
| `AsyncLog.InCasOrder` | src/async_log.c:178-206 | in every interleaving, the delivered messages followed by those reversed, detached and stacked are exactly the pushed ones in CAS order |
| `AsyncLog.NoLostWakeup` | src/async_log.c:164-167 | in every interleaving, a non-empty stack while the writer sleeps means the wake fd is signalled or a producer is still inside enqueue |
| `AsyncLog.NoUseAfterFree` | src/async_log.c:189-205 | no step of the writer or of a producer touches a freed entry |
| `AsyncLog.LateIsLost` | src/async_log.c:235-237 | what is pushed after the final detach is never delivered |
| `AsyncLog.StopDelivers` | src/async_log.c:277-297 | when the writer exits, everything pushed has been delivered if and only if nothing was pushed after its final detach |
| `AsyncLog.QuietStopDelivers` | src/async_log.c:283-292 | a stop with no enqueue under way and the hook removed loses nothing |
| `AsyncLog.InFlightIsLost` | src/async_log.c:283-286 | any enqueue still short of its CAS at the final detach can go on to lose its message |
| `AsyncLog.LostMessage` | src/async_log.c:283-286 | a full run in which a message enqueued before the stop is lost, against what the comment promises |
| `SlabLayout.CarrySurvives` | src/balloc.c:64 | adding one to a number always leaves a bit outside it, whatever the number: the step that makes rounding up work for strides that are no power of two |
| `SlabLayout.SixteenUp` | src/balloc.c:189 | rounding up the sixteen-byte slab header with the mask of any stride gives a multiple of sixteen |
| `SlabLayout.StrideFits` | src/balloc.c:187 | the stride is the least multiple of the pointer size that holds an element |
| `SlabLayout.LayoutSound` | src/balloc.c:148-201 | for every element size and count the heap accepts and every power-of-two page size: the first element starts past the header and aligned, the stride holds an element, and all elements end inside the mapping |
| `SlabLayout.ElementInside` | src/balloc.c:166-172 | each element lies between the slab header and the end of the mapping |
| `SlabLayout.ElementAligned` | src/balloc.c:166-172 | each element is pointer-aligned in an aligned mapping |
| `SlabLayout.ElementsApart` | src/balloc.c:166-172 | elements of one slab are a stride apart |
| `SlabLayout.ElementsDistinct` | src/balloc.c:148-174 | all elements of all slabs are different, as many as slabs times elements per slab |
| `Balloc.RefillMoves` | src/balloc.c:483-499 | a refill moves elements from the free list to the magazine, adding just those of new slabs, with nfree and nused exact |
| `Balloc.FlushMoves` | src/balloc.c:502-513 | a flush moves elements back, with nfree and nused exact |
| `Balloc.StepKeepsInv` | src/balloc.c:483-634 | refill, flush, pop and push by any thread keep the invariant |
| `Balloc.RunKeepsInv` | src/balloc.c:537-634 | it holds after every run of allocs and frees by any threads |
| `Balloc.ExactlyOnePlace` | src/balloc.c:537-634 | in every run each element of each slab is in exactly one of the free list, one thread's magazine or the callers' hands, nothing else is anywhere, nfree is the length of the free list and nfree + nused the number of elements |
| `Balloc.HeldApart` | src/balloc.c:537-634 | in every run two different elements in callers' hands do not overlap and lie inside a slab clear of its header |
| `BlockHeap.Magazine.Add` | src/balloc.c:492-496 | appends to the magazine |
| `BlockHeap.Magazine.Drop` | src/balloc.c:553 | takes the last one from the magazine |
| `BlockHeap.Heap.constructor` | src/balloc.c:176-201 | a heap without slabs |
| `BlockHeap.Heap.Grow` | src/balloc.c:148-174 | the intrusive list gains the slab's elements, lowest address first to be taken |
| `BlockHeap.Heap.Refill` | src/balloc.c:483-499 | the refill of the abstract heap on the intrusive list, growing as needed |
| `BlockHeap.Heap.FlushOut` | src/balloc.c:502-513 | the flush of the abstract heap on the intrusive list |
| `BlockHeap.Heap.Alloc` | src/balloc.c:537-581 | the last element of the magazine, refilled first when it is empty; no element only when memory runs out |
| `BlockHeap.Heap.Free` | src/balloc.c:583-634 | the element joins the magazine, half of which is flushed first when it is full |
| `ShaSpec.ZeroBytesLeast` | src/crypt.c:213 | the number of zero bytes in the padding is the least that makes whole blocks, as sections 5.1.1 and 5.1.2 of FIPS 180-4 ask |
| `ShaSpec.BlocksSplit` | src/crypt.c:118-183 | folding the block function over whole blocks can be cut at any block boundary |
| `ShaSpec.AddedWord` | src/crypt.c:584-586 | the two-word byte counter adds a length below one word exactly, modulo two words |
| `ShaSpec.AddedExactly` | src/crypt.c:132-134 | for SHA-256 the counter is exact if and only if the length is below 2^32 or the low word is passed only once |
| `ShaSpec.AddedRight` | src/crypt.c:132-134 | under the same guard it is exact for both widths |
| `ShaSpec.CarryMissed` | src/crypt.c:132-134 | a single aligned call of 2^33 bytes is counted as 2^32 |
| `ShaSpec.LengthField` | src/crypt.c:216-220 | the two shifted words are the bit length of the message in big-endian order |
| `Sha.Ctx.constructor` | src/crypt.c:186-199 | an empty message |
| `Sha.Ctx.ProcessBlock` | src/crypt.c:118-183 | folds the block function over whole blocks and counts their bytes |
| `Sha.Ctx.FillBuffer` | src/crypt.c:233-250 | input goes to a part-full buffer first and whole blocks leave it; the buffer never overflows and no byte is lost or doubled |
| `Sha.Ctx.SlowBlocks` | src/crypt.c:259-265 | unaligned input, block by block through the buffer, at least one byte left |
| `Sha.Ctx.FastBlocks` | src/crypt.c:266-271 | aligned input, all whole blocks at once, for any length the byte counter takes |
| `Sha.Ctx.KeepTail` | src/crypt.c:275-288 | the tail is kept, processed if it is a whole block |
| `Sha.Ctx.ProcessBytes` | src/crypt.c:230-289 | the message so far is extended by the input: for any length at an unaligned pointer, and at an aligned one for any whose whole blocks the byte counter counts right |
| `Sha.CountedEnough` | src/crypt.c:230-289 | a call under a word, or one that passes the low word once, is counted right whatever is in the buffer |
| `Sha.PadFits` | src/crypt.c:209-222 | the bytes finish feeds to the block function are exactly the rest of the padded message, one or two blocks that fit the buffer |
| `Sha.Ctx.Finish` | src/crypt.c:202-228 | the fold of the block function over the padded whole message |
| `Sha.Stream` | src/crypt.c:202-289 | for every way of cutting a message into calls and every alignment of each, SHA-256 and SHA-512: the one-shot hash of the concatenation, as long as no aligned call is one the byte counter miscounts |
| `Events.DelayBounds` | src/event.c:171-180 | a jittered delay lies between the floor of two thirds of the period and four thirds of it, for every random draw |
| `Events.DelayPositive` | src/event.c:171-180 | the delay is positive if and only if the frequency is neither 0 nor -1 |
| `Events.SettledAnywhere` | src/event.c:160-163 | sifting up and then sifting down from wherever the entry is afterwards restores heap order after any change of one key |
| `Events.Scheduler.constructor` | src/event.c:436-444 | no events |
| `Events.Scheduler.SiftUp` | src/event.c:83-96 | heap order restored upwards as for the plain sequence, every back-index exact, no event changed |
| `Events.Scheduler.SiftDown` | src/event.c:103-125 | heap order restored downwards as for the plain sequence, every back-index exact, no event changed |
| `Events.Scheduler.Push` | src/event.c:130-140 | one more event; heap order and back-indices hold |
| `Events.Scheduler.RemoveAt` | src/event.c:147-163 | exactly the event at the index goes; heap order and back-indices hold |
| `Events.Scheduler.Update` | src/event.c:457-471 | one event gets frequency and deadline; heap order and back-indices hold |
| `Events.Scheduler.Delete` | src/event.c:248-258 | one event is marked dead, nothing moves |
| `Events.Scheduler.Compact` | src/event.c:404-426 | exactly the module's events go and all back-indices are exact |
| `Events.Scheduler.Rebuild` | src/event.c:510-512 | sifting down from the middle to the root makes any array a heap, back-indices exact |
| `Events.Scheduler.Purge` | src/event.c:397-434 | exactly the module's events go and heap order and back-indices hold; no module, no change |
| `Events.Scheduler.SetBack` | src/event.c:498-513 | every deadline is set back, not below zero, and heap order and back-indices hold |
| `Events.Scheduler.Callback` | src/event.c:348 | exactly the callback's additions, updates and marks, whatever it adds, updates and marks; heap order and back-indices hold |
| `Events.Scheduler.UpdateAll` | src/event.c:457-471 | a callback's updates, one after the other, as the reference does them |
| `Events.Scheduler.FireRoot` | src/event.c:347-365 | the table afterwards is exactly the one the reference firing gives: additions, updates, marks, and the fired event gone or at now plus its delay, wherever the callback has moved it |
| `Events.DueNoMoreIff` | src/event.c:359-365 | a repeating event that has fired, and that its callback neither deletes nor updates, is due no more if and only if its frequency is not -1; with -1 it is due again at once and the run would not end |
| `Events.FireBoth` | src/event.c:334-365 | firing gives the same table but for dead entries whether or not dead entries were reaped before: lazy deletion is invisible |
| `Events.FireKeeps` | src/event.c:347-365 | firing keeps the account of who has run and leaves fewer events due |
| `Events.ReapKeeps` | src/event.c:334-342 | so does reaping a dead event |
| `Events.Scheduler.Run` | src/event.c:321-367 | terminates with every deadline in the future; every live event due at the start fires exactly once unless a callback deletes it or puts it off first, nothing else fires, in non-decreasing order of deadlines; and the final table is, but for reaped dead entries, the one that firing those events one after the other gives |
| `InetRoundTrip.QuadRoundTrip` | src/commio.c:1944-2250 | every IPv4 address printed as a dotted quad parses back |
| `InetRoundTrip.BestIsLongest` | src/commio.c:2034-2063 | the run chosen for :: is a longest run of two or more zero words and the first such, and none is chosen when there is none |
| `InetRoundTrip.PlainRoundTrip` | src/commio.c:2068-2106 | every address printed in groups, with a leading, inner, trailing or no zero run, parses back |
| `InetRoundTrip.QuadRoundTrip6` | src/commio.c:2085-2093 | every address printed with an embedded dotted quad parses back |
| `InetRoundTrip.Ntop6RoundTrip` | src/commio.c:2007-2363 | inet_pton6 undoes inet_ntop6 on all 16-byte addresses |
| `InetRoundTrip.QuadBecomesMapped` | src/commio.c:2372-2379 | a dotted quad parsed as IPv6 is the mapped address |
| `InetRoundTrip.RoundTripIff` | src/commio.c:2163-2385 | op_inet_pton undoes op_inet_ntop on an IPv6 address if and only if it is not IPv4-compatible |
| `InetRoundTrip.CompatComesBackMapped` | src/commio.c:2171-2175 | ::1.2.3.4 comes back as ::ffff:1.2.3.4 |
| `Inet.FindBest` | src/commio.c:2034-2063 | the run the specification names |
| `Inet.PrintWord` | src/commio.c:2071-2101 | one round of the printing loop, with its three exits |
| `Inet.Print6` | src/commio.c:2007-2106 | the text the specification names |
| `Inet.ToText` | src/commio.c:2163-2181 | the text, or nothing: for an address printed as a bare quad exactly when the size is below 16, even if the text would fit, otherwise exactly when the buffer is too small for the text and its NUL |
| `Inet.Parse4` | src/commio.c:2210-2250 | accepts exactly the quads the specification accepts and with its value |
| `Inet.ShiftTail` | src/commio.c:2341-2358 | moves the bytes after :: to the end and zeros the gap, in place |
| `Inet.Finish6` | src/commio.c:2334-2361 | completes the last group and the :: gap, and refuses an address that does not fill 16 bytes |
| `Inet.Parse6` | src/commio.c:2266-2363 | accepts exactly the texts the specification accepts and with its value; which of these are addresses is said by `InetGrammar.AcceptedIffAddress` |
| `Inet.FromText` | src/commio.c:2365-2385 | tries the dotted quad first |
| `InetGrammar.AddressAccepted` | src/commio.c:2252-2363 | every text of the three forms of section 2.2 of RFC 4291, given by a grammar without a parser, is accepted with the bytes it stands for |
| `InetGrammar.CleanIsAddress` | src/commio.c:2252-2363 | an accepted text made only of hexadecimal digits, colons and inner dots, with at most four digits in a row and three beside a dot, is such an address, and its value is what it stands for |
| `InetGrammar.AcceptedIffAddress` | src/commio.c:2252-2256 | for every text: it is an address if and only if it is accepted and clean in that sense |
| `InetGrammar.JunkAccepted` | src/commio.c:2321-2331 | ::1%g and ::1. are accepted as ::1, and neither is an address |
| `Linebuf.FieldsKeepContent` | src/linebuf.c:123-157 | the fields of a stream are non-empty, free of CR and LF, and together with the open rest are the stream without its CRs and LFs |
| `Linebuf.FeedConcat` | src/linebuf.c:277-316 | the fields of a stream do not depend on where it is cut |
| `Linebuf.SkipCrlf` | src/linebuf.c:136-157 | one piece: content up to the first CR or LF and the whole run after it, at least one byte |
| `Linebuf.StripEnd` | src/linebuf.c:229-238 | strips exactly the CR/LF run |
| `Linebuf.Copy` | src/linebuf.c:176-244 | appends the content of one piece to an open line and closes it when the piece ends in a run; a piece that overflows fills the line, blanks the CRs and LFs at its end and closes it; a closed line takes nothing |
| `Linebuf.BufHead.constructor` | src/linebuf.c:248-253 | no lines |
| `Linebuf.BufHead.TakePiece` | src/linebuf.c:289-313 | one piece moves from the input to the open or a new line, whatever its length, and len and numlines follow |
| `Linebuf.BufHead.Parse` | src/linebuf.c:277-316 | all input is taken, piece by piece, lines handed out plus lines held stay the lines there have been, len and numlines match the queue, and the count is the number of logical lines in the data |
| `Linebuf.BufHead.DoneLine` | src/linebuf.c:102-121 | the first line leaves the queue, and len and numlines follow |
| `Linebuf.BufHead.Get` | src/linebuf.c:327-379 | the next non-empty line, as much of it as the buffer takes, or nothing exactly when all complete lines have been handed out; a buffer of one byte drops them all |
| `Linebuf.BufHead.Drain` | src/linebuf.c:327-379 | repeated gets hand out exactly the complete lines not yet handed out |
| `Linebuf.Session` | src/linebuf.c:277-379 | for every cut of every stream and every interleaving of parses and gets, the lines returned are the complete lines the calls make, cut to the buffer, and these are the complete non-empty fields of the stream when it fits |
| `Linebuf.LinesFit` | src/linebuf.c:277-316 | when every line fits with its CR/LF run, or fills the buffer exactly, the lines are the fields of the stream for any cut into calls |
| `Linebuf.FieldsIffFits` | src/linebuf.c:176-316 | for every stream: the lines are its complete fields whatever the cut into calls if and only if it fits in that sense |
| `Linebuf.LongLineSplits` | src/linebuf.c:172-214 | the same overlong line gives one line in one call and two in two calls |

## Left out

- Mpmc, Async, AsyncLog: atomics are sequentially consistent and counters are natural numbers; weak memory orders and the wrap of 64-bit counters are not modelled.
- OrSet.OrSet.Apply: beyond the fixed capacities (four dots per key, 32 replicas, 64 overflow dots) it says which keys remain and bounds dots and context, not which dots are dropped; `CanMerge` is the guard, and it counts only what is missing on each side.
- CausalContext.Cc.Merge: its guard counts what the target lacks before the merge; a merge that only just fits because compaction frees overflow slots on the way is not covered, since that depends on the order of the dots.
- OrSetCluster.Cluster.Replay: stops at the first step that a replica's fixed arrays cannot take.
- OrSetSpec.Convergence: speaks of runs in which each replica merges each delta at most once; `OrSetSpec.Redelivery` says what a second delivery does.
- VClockSpec.OrderIffFits: for runs of fewer than 2^64 events, so that no counter wraps.
- Hlc.OrderedIffNoWrap: for physical clocks under 48 bits, the range the header gives.
- IntervalTree.QueryIsScan: the order among intervals with equal lo is whatever the chain holds; it depends on the history of the tree.
- IntervalNodes.Itree: chains of segments are sequences in the node record, and node memory is a table of records; allocation does not fail.
- Htab.Htab.Set: keys are compared by their text, with one hash function per table; the string, case-folding and pointer hash functions are parameters.
- Htab: op_htab_merge, whose behaviour without a callback differs from its comment, op_htab_foreach and the statistics walk.
- Ring.NextPow2: the power of two is computed by doubling, not by the bit-smearing of the source.
- ShortestPath.Shortest: asks for the non-negative weights include/op_graph.h demands and for sums below INT64_MAX; larger ones overflow a signed addition, which C leaves undefined, and an equal one cannot be told from no path.
- ShortestPath.Work.Run: the same.
- Graph: breadth-first and depth-first traversal and the accessors, which would only add easy members.
- Async.DrainEmpties: callbacks do not call the drain again; the thread pool is a bag of tasks.
- AsyncLog.StopDelivers: the writer callback is present and does not log.
- Balloc.ExactlyOnePlace: callers free only what they hold, once; shared-memory heaps, destroying a heap and its generation counter, and the poison checks are not modelled.
- Balloc: mmap is a supply of mappings that do not overlap; the content of elements other than the free-list word is not modelled.
- Sha.Ctx.ProcessBytes: asks that an aligned call be one the byte counter counts right, which `ShaSpec.AddedExactly` shows to be exact; the block function and the start values are parameters, shifts and ors of the length words are sums, and the byte swap of the digest words is left out.
- Events.Scheduler.Run: callbacks are given as what they add, update and delete; they add only later events and update to neither 0 nor -1, and no live event due at the start has frequency -1, because the run would otherwise not end or fire an event twice; op_run_one_event and the backend timers are not modelled, and time is unbounded.
- Events: entries live in a table keyed by an identifier; the wrappers that clamp delays or choose frequencies are left out as easy.
- Inet.ToText: address family is always IPv6; the IPv4 branches are the dotted-quad functions themselves.
- Linebuf.BufHead.Get: parsed lines only, no partial reads.
- Linebuf: raw mode, reference counts and the write side.
- PriorityQueue.PQueue.Pop: entries are compared by an integer key; the order among equal keys is not specified.
- The I/O backends, sockets and TLS, coroutines, seccomp, HyperLogLog and Bloom filters, LWW registers and grow-only counters, and the library's simpler containers.
