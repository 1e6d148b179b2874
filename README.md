# Capacitated assignment core, modelled in Dafny

This project models the combinatorial core of a capacitated facility-location
program. Four pieces are covered.

- **The allocation step of `Solver`** (solver.cpp, records in solver.hpp).
  This is a successive-shortest-path min-cost-flow engine. It assigns every
  customer to a facility, and no facility serves more than the shared
  capacity `u`. The model is the class `Solver.Solver`:
  - customers and facilities are sequences of records;
  - the source's pointers (`flow_parent`, `dij_parent`, `heap_node`) are
    indices;
  - the Fibonacci heap is a second object the solver owns.

  The methods cover `optimize_x` (the resets), `ssp_algorithm`,
  `increase_flow`, `supply`, `dij_init`, `dij_reinit`, `has_path` and
  `dij_algorithm`, and each states its effect on the whole state.
  `Solver.SupplyPost` states what one `supply` call does:
  - exactly one facility with spare capacity gains a customer;
  - a full facility on the way keeps its outflow and changes its customer;
  - a failure changes no assignment;
  - every tree link met on the way is cleared.

  The invariant `Valid` is established by `DijInit`. `DijInit` starts from
  the shape and the flow counts that `ResetFlow` leaves; `ResetFlow` clears
  the flow but not the tree links. The other public methods keep `Valid`.
  `Supply` keeps only the shape and the tree links, because a recursive call
  leaves the counts broken until its caller reassigns the customer. `Solver.SupplyKeepsValid` restores the counts at the top call.
  `Valid` says:
  - no facility exceeds `u`;
  - every `outflow` counts the customers assigned to that facility;
  - tree links agree with the flow;
  - heap nodes agree with the distances.

  `has_path` is related to an independent reference definition: a walk up
  the tree to a facility with spare capacity.
- **The Fibonacci heap of heap.hpp** (`FibHeap.Heap`). Nodes live in an arena
  map. The class keeps the source's structures:
  - the degree-indexed `roots` table;
  - the `phi` marks and the cascading cuts of `iter`;
  - the `zeros` side list for keys that are already 0.

  A ghost height map ranks every node below its parent. It makes the
  cascade terminate, and it proves that the least root is the least node.
- **The partition enumerator of partitions.cpp**. `Partitions.Backtrack` and
  `Partitions.ApplyToAllPartitions` keep the stack `s` beside the block
  list `p`. It is proved that:
  - the partitions handed to `f` are exactly the partitions of
    {0, ..., n-1};
  - each is handed over once;
  - their stacks appear in strictly increasing lexicographic order.
- **The capacity-aware iterator of partition.cpp**
  (`PartitionIterator.Partition`). It keeps the two views `_x` and `_v`.
  `NextPartition` is proved to move to the lexicographically greatest legal
  partition below the current one, or to wrap to the all-singletons
  partition when there is none.

Both partition files describe a partition by a restricted growth string.
The module `Rgs` holds those strings, the block list each one stands for,
and the lexicographic order.

Doubles are modelled by `Numbers.Num`, which has four cases:
- exact reals;
- the two infinities;
- NaN.

It follows IEEE 754 for `+`, `-` and `<`, so a NaN or an infinite
distance behaves as in the source. Rounding is not modelled.

The heap is heap.hpp's Fibonacci heap. `supply` recurses, and so does the
model.

Where the source is defective, the model does the following:
- solver.cpp:211 pushes a customer object into a vector of customer
  pointers, which does not compile. The model collects the customer's
  index, which is the evident intent.
- partition.hpp:13 calls the class `Instance`, while partition.cpp defines
  `Partition::`. The model follows partition.cpp.
- The source's `CHECK` only prints (common.cpp:14-15). Every `CHECK` of the
  core is modelled as a precondition, and each one is proved to hold where
  the source reaches it:
  - partition.cpp:109 and 121;
  - the subset checks of partition.cpp:126 and 133.

## Model

| member | source | states |
|---|---|---|
| Records.Dist | solver.hpp:73 | the squared distance is never negative, and it is 0 for a point paired with itself |
| Records.DistSymmetric | solver.hpp:73 | dist(p, q) == dist(q, p) |
| Records.FacilityLessOrder | solver.hpp:90 | `operator<` on facilities is irreflexive, asymmetric and transitive. It is total up to equal distances when neither distance is NaN. |
| Records.FacilityLessByDistance | solver.hpp:90 | facilities compare as their `dij_dist` do, whatever their other fields |
| Numbers.Add | solver.cpp:221 | IEEE addition: NaN absorbs; opposite infinities give NaN; otherwise an infinity wins |
| Numbers.Neg | solver.cpp:225 | negation keeps NaN and finiteness, which subtraction relies on |
| Numbers.NaNUnordered | solver.cpp:226-236 | `<` with a NaN operand is false both ways, so a NaN distance never replaces a tentative distance |
| Numbers.LessTransitive | solver.hpp:90 | `<` on doubles is transitive |
| Numbers.LessTotal | solver.hpp:90 | without NaN, exactly one of a < b, a == b and b < a holds |
| Numbers.NotLessTransitive | solver.hpp:90 | without NaN, "not below" is transitive, which the minimum scan relies on |
| Flow.AllAssigned | solver.hpp:83-84 | the number of assigned customers (`flow_parent` set) is at most the number of customers. It equals it exactly when every customer is assigned. |
| Flow.TotalFlow | solver.hpp:96-97 | when every `outflow` counts the customers whose `flow_parent` is that facility, the outflows add up to the number of assigned customers |
| Flow.CountReassign | solver.cpp:144-148 | reassigning one customer lowers the old facility's count by one and raises the new one's by one; no other count changes |
| Flow.InfiniteCosts | solver.cpp:221-225 | a path cost computed from an infinite distance is infinite or NaN, directly or through a shortcut |
| Flow.InfiniteRelaxed | solver.cpp:221-236 | an edge out of a facility at infinite distance can improve nothing |
| Flow.RelaxedStays | solver.cpp:217-240 | an edge that can improve nothing stays so while distances are only lowered and its source keeps its distance |
| Flow.Up | solver.cpp:197-199 | the facility two tree links above g (through `f->dij_parent->dij_parent`) is a facility index |
| Flow.ReachHasPath | solver.cpp:191-204 | `has_path` is true wherever the reference holds: a facility with spare capacity lies within k tree steps up |
| Flow.HasPathReach | solver.cpp:191-204 | if every facility at distance 0 reaches spare capacity within K steps, then `has_path` with k steps implies the reference with k + K steps |
| Flow.HasPathExact | solver.cpp:191-204 | under that condition, `has_path` with at least as many steps as facilities is exactly the reference |
| Flow.ReachBound | solver.cpp:197-199 | a facility with spare capacity reachable up the tree is reachable in fewer steps than there are facilities, so a bounded recursion suffices |
| FibHeap.Heap.constructor | heap.hpp:104 | a new heap is valid, with no nodes, no roots and no zeros |
| FibHeap.Heap.Push | heap.hpp:74-84 | `Node::push`: c becomes the first child of p and gets parent p; `size` (the child list length) grows by one; nothing else changes |
| FibHeap.Heap.Pop | heap.hpp:87-101 | `Node::pop`: c leaves its parent's child list and loses its parent; nothing else changes |
| FibHeap.Heap.Add | heap.hpp:107-115 | `add` gives a fresh node with the content and key. A key of 0 goes to the back of `zeros` and leaves `roots` unchanged. Any other key is planted. Every old node keeps its content and key, and the heap stays valid. |
| FibHeap.Heap.Plant | heap.hpp:180-198 | `plant` files the loose tree n by its degree, linking with the occupant of an occupied slot until a slot is free. Afterwards n is no longer loose: every root outside `zeros` sits in the slot of its degree, and heap order holds. Every other loose tree is untouched, and no content or key changes. |
| FibHeap.Heap.Link | heap.hpp:188-196 | two trees of equal degree d are linked: n stays on top exactly when its key is below m's (on a tie m is the parent). The parent has degree d + 1 and is the one loose tree left to plant. |
| FibHeap.Heap.Iter | heap.hpp:118-134 | `iter` restores the heap invariant after a child was cut from n, whatever n is. An unmarked non-root becomes marked, and nothing else changes. Every loose tree is untouched, and no content or key changes. |
| FibHeap.Heap.CutMarked | heap.hpp:125-129 | for a marked non-root: after cutting, cascading and replanting, the invariant holds again; every loose tree is untouched, and no content or key changes |
| FibHeap.Heap.Detach | heap.hpp:126-127 | `pop` of a non-root: the node becomes a loose tree. Its former parent p, one child short, is what `iter` continues with, ranked above every loose tree. No content or key changes. |
| FibHeap.Heap.Decrease | heap.hpp:137-145 | the heap stays valid, and its entries are the old ones with h's key lowered to k. On a root only that key changes, and the root table is kept. |
| FibHeap.Heap.Cut | heap.hpp:139-141 | the first half of `decrease` on a non-root: the node is cut with its new key, and its parent is left for `iter` |
| FibHeap.Heap.ExtractMin | heap.hpp:148-177 | None exactly when `zeros` is empty and every root slot is empty, i.e. when the heap holds nothing. Otherwise the last `zeros` entry comes first. Failing that, a node whose key no node in the heap undercuts is removed. Every other node keeps its content and key. |
| FibHeap.Heap.FindMin | heap.hpp:156-164 | the scan over `roots` finds a root that no node of the heap undercuts, or reports that all slots are empty, which means the heap is empty |
| FibHeap.Heap.PlantFirstChild | heap.hpp:167-173 | one round of the child loop: the first child of the extracted node is detached and planted |
| FibHeap.Heap.DeleteRoot | heap.hpp:165-176 | the extracted root leaves its slot, all its children are replanted, and the node is deleted; no other node changes its content or key |
| FibHeap.MinOfRoots | heap.hpp:156-161 | when no root undercuts m, no node of the heap does: heap order makes the minimum of the roots global |
| FibHeap.RootAbove | heap.hpp:190-195 | every node has a root above it whose key is not greater |
| FibHeap.EmptyRoots | heap.hpp:162-164 | with `zeros` empty and every slot empty, the heap holds no node |
| FibHeap.KeyDown | heap.hpp:137-145 | lowering the key of a root keeps the heap invariant |
| FibHeap.PushKeeps | heap.hpp:190-195 | linking under the node with the smaller key keeps heap order and the ranking |
| FibHeap.PopKeeps | heap.hpp:87-101 | cutting a child keeps the invariant, with the child loose and its parent one slot high |
| FibHeap.MergeKeeps | heap.hpp:188-196 | linking the tree from slot d with a loose tree of degree d keeps the invariant, and the new tree has degree d + 1 |
| FibHeap.RootPlace | heap.hpp:183-186 | a loose tree put into its free (or new) slot restores the invariant |
| FibHeap.RootTake | heap.hpp:188-189 | emptying slot d makes its tree loose |
| FibHeap.AddZeroNode | heap.hpp:108-110 | a new node with key 0 appended to `zeros` keeps the invariant |
| FibHeap.AddLoose | heap.hpp:108-112 | a new node with any other key is a loose tree waiting to be planted |
| FibHeap.DeleteZero | heap.hpp:150-154 | removing the last `zeros` entry keeps the invariant |
| FibHeap.DeleteLoose | heap.hpp:174-175 | deleting the childless extracted node keeps the invariant |
| FibHeap.RemoveOnce | heap.hpp:89-96 | unlinking a node from a sibling list without repeats removes exactly that entry |
| FibHeap.PhiKeeps | heap.hpp:131 | setting or clearing a `phi` mark keeps the invariant |
| FibHeap.ShiftDrop | heap.hpp:122 | a root one slot high whose old slot was cleared is an ordinary root again |
| Rgs.Place | partitions.cpp:58-63 | `push_back` into block j, or a new singleton block when j is the number of blocks: block j gains the element at its back, and the other blocks are kept |
| Rgs.BlocksOf | partitions.cpp:11-12 | the block list of a restricted growth string has one block per block index used |
| Rgs.BlocksOfDescribes | partition.hpp:32-34 | the string and its block list describe one partition: element m lies in block s[m], blocks list their elements in increasing order, and no block is empty |
| Rgs.RgsExtend | partitions.cpp:56-64 | appending an index at most the number of blocks keeps restricted growth, and the block list grows by `Place` |
| Rgs.UnplaceLast | partitions.cpp:49-54 | popping the last element from the back of its block, and dropping the last block if that empties it, gives the block list of the shorter string |
| Rgs.LastPlacedAtBack | partition.cpp:126-133 | the last element sits at the back of its block, and a block it is alone in is the last block |
| Rgs.UnplaceAfterPlace | partition.cpp:95-137 | `place(j)` followed by `unplace()` restores the block list |
| Partitions.Backtrack | partitions.cpp:36-68 | `backtrack` keeps s and p in step. The new stack is lexicographically above the old one, and the complete stacks below it are exactly those up to the old one. An empty stack means none is left. |
| Partitions.BumpStep | partitions.cpp:56-65 | moving the popped element one block up gives a restricted growth stack, its block list, and the successor of the old stack |
| Partitions.FrontierPop | partitions.cpp:52-56 | popping an element that cannot move up loses no unvisited stack |
| Partitions.FrontierBump | partitions.cpp:56-65 | the stacks below the bumped stack are those up to the old one |
| Partitions.PendingPush | partitions.cpp:17-24 | pushing element s.size() into block 0 leaves the set of stacks still to visit unchanged |
| Partitions.PendingShrinks | partitions.cpp:13-15 | each call of `backtrack` strictly shrinks the set of stacks still to visit, so the loop ends |
| Partitions.ApplyToAllPartitions | partitions.cpp:6-34 | `f` receives the block list of each stack it is called with. Those stacks strictly increase lexicographically and include every restricted growth string of length n, so every partition is handed over. For n = 0 the source starts from {{0}} and behaves as for n = 1, and so does the model. |
| Partitions.CallsDistinct | partitions.cpp:28-31 | no partition is handed to `f` twice |
| Partitions.BlocksOfInjective | partitions.cpp:11-12 | different stacks of one length describe different partitions |
| PartitionIterator.LegalSnoc | partition.cpp:114 | placing into subset j is legal exactly when the rest was legal and subset j now fits the capacity |
| PartitionIterator.LegalPrefix | partition.cpp:73-76 | a prefix of a legal string is legal, so an illegal move cannot be completed legally |
| PartitionIterator.CompletedShape | partition.cpp:139-144 | filling up with singletons gives a restricted growth string of length n that extends the given one |
| PartitionIterator.CompletedLegal | partition.cpp:139-144 | filling a legal prefix with singletons stays legal when a singleton fits |
| PartitionIterator.CompletedGreatest | partition.cpp:68-72 | filling with singletons gives the lexicographically greatest complete string with that prefix |
| PartitionIterator.CompletedSingletons | partition.cpp:70-72 | filling the empty string gives the all-singletons partition |
| PartitionIterator.FirstIsSingletons | partition.cpp:89-93 | as many subsets as elements holds exactly for the all-singletons partition |
| PartitionIterator.SkipIllegal | partition.cpp:73-76 | an illegal move to a lower subset skips no legal partition |
| PartitionIterator.SkipZero | partition.cpp:81-82 | unplacing an element of subset 0 skips no legal partition |
| PartitionIterator.SkipNone | partition.cpp:83-84 | after a legal move every legal partition below the start is below the new prefix or extends it |
| PartitionIterator.WrapResult | partition.cpp:70-72 | when nothing legal lies below, the all-singletons partition is the answer |
| PartitionIterator.MoveResult | partition.cpp:68-86 | completing the greatest legal prefix below s with singletons gives the next partition |
| PartitionIterator.WalkStart | partition.cpp:79 | the walk starts at the current partition |
| PartitionIterator.WalkPrefixLegal | partition.cpp:81-83 | during the walk, the part before the last element is legal |
| PartitionIterator.WalkIllegal | partition.cpp:73-83 | after an illegal move the walk goes on from the new string |
| PartitionIterator.WalkZero | partition.cpp:81-82 | after unplacing from subset 0 the walk goes on from the shorter string |
| PartitionIterator.WalkFound | partition.cpp:83-84 | a legal move ends the walk at the greatest legal prefix below the start |
| PartitionIterator.WalkPlaced | partition.cpp:83-84 | after a move to the lower subset the walk has ended (if it was legal) or goes on |
| PartitionIterator.WalkEmpty | partition.cpp:70-79 | a walk that empties `_x` means nothing legal lies below the start |
| PartitionIterator.Partition.constructor | partition.cpp:12-29 | a new iterator holds the all-singletons partition of the n customers, with capacity `_u` |
| PartitionIterator.Partition.Place | partition.cpp:95-115 | `place(i)` appends i to `_x` and the element to subset i, or to a new singleton subset when i is the number of subsets. It returns whether subset i fits the capacity, and so whether the whole partition stayed legal. An illegal placement is kept. |
| PartitionIterator.Partition.Unplace | partition.cpp:117-137 | `unplace()` removes the last element from `_x` and from the back of its subset, deletes the subset if it becomes empty (it is then the last one), and returns that subset's index |
| PartitionIterator.Partition.CreateSingletonSubsets | partition.cpp:139-144 | each unplaced element k opens a new subset, numbered in order, until `_x` is complete |
| PartitionIterator.Partition.IsFirstPartition | partition.cpp:89-93 | true exactly when there are as many subsets as elements, i.e. for the all-singletons partition |
| PartitionIterator.Partition.StepBack | partition.cpp:79-85 | one round of the loop: the walk either stops at the greatest legal prefix, or goes on with a strictly smaller string |
| PartitionIterator.Partition.TryBelow | partition.cpp:82-84 | the element taken from subset i+1 goes into subset i. If the walk stops there, the string is the greatest legal prefix below the start; otherwise the walk goes on from it. |
| PartitionIterator.Partition.NextPartition | partition.cpp:67-87 | from a legal complete partition, `next_partition` moves to the lexicographically greatest legal partition below it, or wraps to all singletons when there is none; the two views stay in step |
| Solver.Solver.constructor | solver.cpp:10-24 | one customer per point of D and one facility per point of I, in order, with an empty heap (the other fields get the starting values listed under Left out) |
| Solver.Solver.OptimizeX | solver.cpp:59-69 | resets all assignments, outflows and potentials, then runs the algorithm. When it finishes, every customer is assigned, no facility exceeds u, and the outflows add up to the number of customers. |
| Solver.Solver.ResetFlow | solver.cpp:61-67 | every `flow_parent` cleared, every `outflow` and `pi` set to 0, nothing else changed |
| Solver.Solver.SspAlgorithm | solver.cpp:99-127 | starting from an empty assignment, the invariant is kept. When the loop ends because nobody is unsupplied, every customer is assigned, no outflow exceeds u, and the outflows add up to the number of customers. |
| Solver.Solver.AllCustomers | solver.cpp:105-108 | the unsupplied list starts as every customer, once each |
| Solver.Solver.Round | solver.cpp:110-117 | one round keeps the invariant. Afterwards the unsupplied list is exactly the unassigned customers, and every unqueued facility is at infinite distance. |
| Solver.Solver.UpdatePotentials | solver.cpp:112-115 | every facility's `pi` grows by its `dij_dist`, which becomes 0; nothing else changes |
| Solver.Solver.IncreaseFlow | solver.cpp:129-138 | a customer leaves `unsupplied` exactly when it became assigned. The rest stay, without repeats and in any order. The assigned count rises by the number removed, and customers outside the list keep their status. |
| Solver.SwapPop | solver.cpp:132-133 | swapping entry i with the back and popping removes exactly that entry and keeps the others, without repeats |
| Solver.Solver.Supply | solver.cpp:140-155 | base case: spare capacity at the tree facility assigns c there, and that outflow rises by one. Full facility: c takes the place of the facility's tree customer, who is supplied recursively, and that outflow stays. Success raises exactly one outflow with spare capacity by one. Failure changes no assignment or outflow. Tree links are only cleared. A missing link is the source's null dereference. |
| Solver.SupplyMissing | solver.cpp:141-143 | with no tree link at c, `supply` dereferences null; modelled as a failure that changes nothing |
| Solver.SupplyBase | solver.cpp:141-146 | spare capacity: c is assigned to its tree facility, whose outflow rises by one, and c's tree link is cleared |
| Solver.SupplyDeadEnd | solver.cpp:147-153 | a full facility without a tree link: the links of c and of f are cleared and nothing else changes |
| Solver.SupplyHandOver | solver.cpp:147-150 | after the recursive success, c takes f's place: f's outflow is unchanged, f's old customer moved on, and exactly one facility gained a customer |
| Solver.SupplyFailed | solver.cpp:147-153 | a failed recursive call leaves every assignment and outflow as it was; f's link is cleared |
| Solver.UnlinkKeepsTrees | solver.cpp:142 | clearing c's link keeps the tree consistent and removes c from the customers with a link, which is the termination measure of `supply` |
| Solver.SupplyKeepsValid | solver.cpp:140-155 | after `supply` on an unassigned customer, outflows still count assignments and the assigned count rises by one exactly on success |
| Solver.SupplyShaped | solver.cpp:143-150 | `supply` keeps every outflow at most u and the heap links intact |
| Solver.Solver.DijInit | solver.cpp:157-172 | every customer gets infinite distance and no parent, and every facility loses its parent. A facility with spare capacity gets distance 0 and a heap node. A full one gets infinite distance and no node. |
| Solver.Solver.ClearCustomers | solver.cpp:158-161 | every customer gets infinite distance and no parent |
| Solver.Solver.InitFacility | solver.cpp:162-171 | one facility set up as `dij_init` does |
| Solver.Solver.DijReinit | solver.cpp:174-189 | unsupplied customers get infinite distance. A facility is queued at distance 0 exactly when it reaches a facility with spare capacity up the tree. Every other facility gets infinite distance and no node. |
| Solver.Solver.ForgetDistances | solver.cpp:176-182 | the first two loops of `dij_reinit`: distances of the listed customers and of every facility become infinite, and no facility has a node |
| Solver.Solver.Enqueue | solver.cpp:185-186 | the facility gets distance 0 and a node in the heap |
| Solver.Solver.DijAlgorithm | solver.cpp:206-243 | distances are only lowered and the flow is untouched. When the heap runs empty, no facility is queued, and every edge from a facility through a customer the pass visits can improve nothing. |
| Solver.Solver.NotIgnoredCustomers | solver.cpp:207-213 | the visited customers, in increasing order, are exactly those unassigned or assigned to a facility whose distance is not 0 |
| Solver.Solver.TakeMin | solver.cpp:215-216 | `extract_min` and the clearing of the facility's `heap_node`; None exactly when the heap is empty |
| Solver.Solver.RelaxAll | solver.cpp:217-241 | after the inner loop every edge from the extracted facility through a visited customer is relaxed, and edges relaxed before stay so |
| Solver.Solver.RelaxStep | solver.cpp:217-240 | one customer of the inner loop joins the relaxed edges, and the edges already relaxed stay so |
| Solver.Solver.RelaxCustomer | solver.cpp:218-240 | skips a customer assigned to f. Otherwise a distance is overwritten only by a strictly smaller cost. Through an assigned customer, the cost is shortcut to its facility f2 and f2 is queued or decreased. The edge is relaxed afterwards. |
| Solver.RelaxEffect | solver.cpp:217-240 | the relaxation only lowers distances, changes only distances and parents, keeps the tree consistent, and changes nothing when the edge was already relaxed |
| Solver.RelaxKeepsRelaxed | solver.cpp:217-240 | relaxing one more edge keeps every edge relaxed before, out of facilities not queued |
| Solver.HeapOrder | solver.hpp:90 | for facilities linked to heap nodes, the heap's key order is `Facility::operator<`, and a key counts as zero (filed in `zeros` by `add`) exactly when `is_minimal_possible` holds |
| Solver.Solver.Shortcut | solver.cpp:226-235 | f2 gets the smaller cost and parent c, c gets parent f, and f2 is added to or decreased in the heap |
| Solver.Solver.Requeue | solver.cpp:230-234 | a queued facility is decreased in place and keeps its node; an unqueued one is added |

## Left out

- Solver.Solver.SspAlgorithm: the source loops until nobody is unsupplied.
  The model runs at most `fuel` rounds, and Dijkstra passes of at most
  `fuel` extractions. It returns `OutOfFuel` otherwise. Termination and the
  minimality of the final cost are not proved.
- Solver.Solver.OptimizeX: the same bound as `SspAlgorithm`.
- Solver.Solver.DijAlgorithm: proved to leave no improvable edge among those
  it visits. That edges out of already extracted facilities stay relaxed is
  proved. That the distances are shortest-path distances is not stated,
  because that needs non-negative reduced costs (Johnson potentials), which
  the source does not maintain for doubles either.
- Flow.HasPath: the recursion of `has_path` is bounded by a `fuel` argument.
  With at least as many steps as facilities it equals the reference
  (`Flow.HasPathExact`). The solver's invariant does not exclude a cycle of
  tree links among full facilities. Such a cycle needs a negative
  reduced-cost cycle, which the potentials are meant to rule out. On such a
  cycle the source's `has_path` recurses without end, while the model
  answers false and `Solver.Solver.DijReinit` leaves those facilities
  unqueued. Acyclicity of the tree is not proved.
- Solver.Solver.constructor: the source's constructors (solver.cpp:10-24,
  solver.hpp:77-79 and 86-88) leave `dij_dist`, `dij_parent`,
  `flow_parent`, `pi`, `heap_node` and `outflow` uninitialised. The model
  gives them starting values: infinite distance, no links, potential 0,
  outflow 0. This is harmless, because `optimize_x` and `dij_init` overwrite
  every one of them before it is read (solver.cpp:59-69 and 157-172).
- Solver.Solver.Supply: when a customer has no tree link, the source
  dereferences null (solver.cpp:141-143). The model returns `MissingParent`,
  and `SspAlgorithm` then returns `Crashed`. This happens when no facility
  with spare capacity is reachable, e.g. when `u` times the number of
  facilities is below the number of customers.
- Solver.Solver.DijReinit: requires the heap to be empty. `dij_algorithm`
  always leaves it empty, and the source's `heap_node = nullptr` would
  otherwise strand live nodes.
- Solver.Solver.InitFacility: a facility's `heap_node` may still name a node
  from before. That node is dropped as the source drops it, without being
  freed.
- Records.Dist: that the distance is 0 only for equal points is not stated.
- FibHeap.Heap.Decrease: the source reads the new key through the content
  (`content->dij_dist`). The model passes it explicitly and stores keys in
  the nodes.
- FibHeap.Heap.Add: requires a key other than NaN, and so does
  FibHeap.Heap.Decrease. With NaN keys `operator<` is no order, and the
  solver never queues one: it adds a facility at distance 0, and it
  decreases only to a distance that compared below another.
- PartitionIterator.Partition.Place: requires an unplaced element, which
  every caller in partition.cpp guarantees. The source would otherwise place
  an element beyond `_D`.
- The constructor's `facility_cost` and the `_cost` field serve only
  `compute_cost` and `solve`, and they are left out with them.
- Children are a sequence per node. The `first`/`next`/`prev` sibling links
  are that sequence's head and neighbours, and `size` is its length.
- `Heap::free_zeros` and the `new`/`delete` of nodes are memory management.
  Nodes are added to and removed from the arena instead.
- PartitionIterator.Partition.NextPartition: the result is characterised
  when the current partition is complete and legal and a single element
  fits the capacity. Otherwise only the two views staying in step is
  stated.
- The double capacity `_u` of partition.cpp is `Unbounded` when it is
  infinite (the default `U_DEFAULT`). Otherwise it is its integer part,
  since a subset size is compared with it. A NaN capacity is not modelled.
- Rounding of doubles: finite values are exact reals, and overflow to
  infinity is not modelled.
- The Lloyd outer loop (`Solver::solve`), `optimize_I` and `compute_cost`
  are floating-point numerics and are not part of this model.
- Progress timing and every printing routine are clock and text output.
- TSPLIB file reading (`loadFromTSPLIB`) and the command-line parsing of
  main.cpp are input.
- `Partition::update_facilities` and `Partition::cost` use `barycenter`,
  which is not part of this model, and floating sums.
- instance.cpp, point.cpp and graph.cpp are outside the core.
