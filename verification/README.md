# SeamlessStack: a verified model of its core data structures and protocols

SeamlessStack is a storage stack written in C. This project models, in Dafny, the parts of it that carry the most
state and the most branching, and proves what they are for:

- the left-leaning 2-3 red-black trees generated by `oss/rb.h`, with the fixed-size path array that insert and remove
  wind down and unwind, and the job-id map of sfs built on them
  (`Zipper`, `LlrbModel`, `LlrbHeap`, `LlrbPath`, `RbTree`, `RbIter`, `JobIdTree`);
- the red-black tree with parent pointers and two sentinels of `oss/rbtree/red_black_tree.c`
  (`ClrsLinks`, `ClrsModel`, `ClrsHeap`, `ClrsOrder`, `ClrsTree`, `ClrsQuery`);
- the adaptive replacement cache of `oss/arc/arc.c`: its self-tuning targets (`ArcTargets`), its lists, counters and
  space totals (`ArcBooks`, `ArcCache`), how headers move between its states (`ArcMoves`), what its eviction scan comes
  to (`ArcScan`), its hash table (`ArcHash`), the second-level device written as a ring (`L2Device`, `L2Feed`) and reads
  from that device (`L2Reads`, `L2Tests`);
- the thread pool of `common/src/sstack_thread_pool.c`, as a protocol (`PoolModel`), by the rules its threads follow
  (`PoolRules`) and as the code of its critical sections (`PoolHeap`);
- the CRC of `oss/crc/crc.c` (`Crc`);
- the circular list of `common/include/bds_slab/bds_list.h` and the job queues of `sfs/src/sfs_job.c` (`JobList`).

Code that changes things in place is modelled by classes, arrays and loops. Each such method is proved against a
function on values (a tree with the identity of its nodes, a path through it, a map, a sequence, a record of counters),
and the laws are proved about those functions. Whole runs are sequences of steps, each a stretch of code under a lock,
or between two looks at what others may change where there is none. `Sequences` holds what several modules use.

## What holds, and what does not

Most of what the code is meant to guarantee holds for every input and every run. The following does not, and each has a
concrete failing case and the exact condition under which the code is right:

- **The ring of the second-level device.** The test for nearing the end of the device subtracts twice the distance from
  the end in unsigned arithmetic. When twice the write size exceeds the end of the device that wraps around, eviction
  stops short, and a later write runs over buffers that are still listed. Every run is safe if and only if twice the
  write size is at most the end of the device, or the device is so small that every eviction clears all of it
  (`L2Device.DeviceSafety`, `L2Device.OverrunFails`). Reads from addresses on the device see what was written for their
  headers, in every run, under the same condition and no other (`L2Reads.PlacedReadSafety`, `L2Reads.PlacedReadFails`).
- **Reads from the second-level device.** A header selected for writing is on the list before it has an address. A
  reader that notes the address in between, and gets to the flags after the write is over, reads from address zero.
  Only the assertion on the address in `arc_read` notices, and only where assertions are compiled in. A read whose
  sectors reach the caller saw what was written for its header if and only if the address it noted is one on the
  device, or there was nothing on the device to read (`L2Reads.L2ReadSafety`, `L2Reads.EarlyReadFails`).
- **The tests before such a read.** They are made without a lock. A write that fails between the test of `b_l2hdr` and
  that of the flags takes the L2 header away without a mark, and an eviction after the test of the flags takes it away
  with a mark that nobody looks at any more. In every run on every device, the reader goes on with a null pointer if and
  only if one of the two happens (`L2Tests.NullRead`), and on every device both can (`L2Tests.FailedWriteNull`,
  `L2Tests.EvictionNull`).
- **The targets.** `arc_c_min + to_free` and `reserve * 4` can wrap around, which takes `arc_c` out of its bounds, lowers
  it on a reservation or raises it on a shrink. Whatever the state, every run of calls that reserve and free no more
  than given numbers of bytes is right if and only if the first number is less than a quarter of the word size, unless
  `arc_c_max` is zero, and the second, plus the whole pages of `arc_c_min`, is less than the word size, unless
  `arc_c_min` and `arc_c_max` are equal (`ArcTargets.RunsRight`, `ArcTargets.WrapsAround`). The bounds hold initially if
  and only if the minimum computed is not above the maximum (`ArcTargets.InitialInBounds`).
- **The direction of a ghost hit.** A hit in the MRU ghost list is meant to raise `arc_p`, one in the MFU ghost list to
  lower it. Since `arc_p` is clipped on one side only, the first lowers it when it is above `arc_c` less a sixteenth,
  and the second raises it when it is below that sixteenth, then and only then (`ArcTargets.GhostDirection`).
- **Failed reads that several wait for.** `arc_read_done` makes the copies for further readers before it deals with the
  error. For a block that was not cached this breaks the assertion of `arc_buf_clone` that the header is not anonymous,
  if and only if the read fails and two or more have asked for the block by then, whatever else happens in the meantime
  (`ArcCache.Cache.ReadThrough`). The first of them to drop its reference breaks the assertion of `arc_buf_remove_ref`,
  if and only if there is more than one (`ArcCache.Cache.BufRemoveRef`, `ArcCache.SharedReadFails`); and the first to
  release its buffer makes `arc_release` give back a hash lock it has not taken, if and only if there is more than one
  (`ArcCache.Cache.Release`, `ArcCache.SharedReleaseFails`). The counters stay right all the same.
- **Buffers freed while they are written.** `arc_buf_free` provides for that, but `arc_write_done` asserts that there is
  a reference left. In every run that fails if and only if, between the beginning of the write and its end, the buffer
  is freed or its reference dropped (`ArcCache.Cache.WriteThrough`, `ArcCache.FreedWriteFails`).

## Model

| member | source | states |
|---|---|---|
| RbTree.RbTree.constructor | oss/rb.h:117-121 | a new tree is valid and empty, with a black sentinel of its own |
| RbTree.RbTree.Search | oss/rb.h:317-334 | finds the node with the key if there is one anywhere in the tree, and null otherwise |
| LlrbModel.PlugBalanced | oss/rb.h:357-398 | a path and a subtree of fitting black height make a balanced tree: no right-leaning red link, no two reds in a row, equal black heights, black root |
| LlrbModel.BalancedFits | oss/rb.h:344-354 | conversely, every position in a balanced tree is a path and a subtree that fit |
| LlrbModel.InsertStepKeeps | oss/rb.h:357-398 | one iteration of the unwind loop of insert keeps the loop invariant (one possible violation, at the subtree on the path), and an early return leaves a balanced tree |
| LlrbModel.InsertUnwindBalanced | oss/rb.h:357-401 | unwinding any path from a subtree that meets the invariant ends in a balanced tree |
| LlrbModel.InsertUnwindInOrder | oss/rb.h:357-401 | the unwind of insert does not change the order of the nodes |
| LlrbModel.RemoveStepKeeps | oss/rb.h:501-736 | one iteration of the unwind loop of remove, in each of its cases and on each side, either restores the balance of the whole tree or passes on a subtree that is one black short and black on top |
| LlrbModel.RemoveUnwindBalanced | oss/rb.h:500-739 | unwinding from a pruned black node ends in a balanced tree with a black root |
| LlrbModel.RemoveUnwindInOrder | oss/rb.h:500-739 | the unwind of remove does not change the order of the nodes |
| LlrbModel.RemoveUnwound | oss/rb.h:500-739 | every path that is one short has the siblings the rotations need, so that the unwind is the step repeated until it returns |
| LlrbModel.RenameOk | oss/rb.h:436-464 | putting the successor in the place of the node, with the node's colour, keeps the path fit |
| LlrbModel.LastEntry | oss/rb.h:465-497 | what the asserts on the last node of the path say: its only child, if any, is on its left and red while it is black itself; without children, a red one can be cut off as it is, and a black one leaves the path one short |
| LlrbHeap.SubBounds | oss/rb.h:337-354 | a subtree of black height h has at least 2^h - 1 nodes and is at most 2h + 1 deep |
| LlrbHeap.HeightBound | oss/rb.h:337-354 | a balanced tree of n nodes, where n + 1 < 2^(k+1), is at most 2k deep |
| LlrbHeap.PathFits | oss/rb.h:337-354 | the path array has an entry to spare for every tree that fits in a 64-bit address space |
| LlrbHeap.InsertFixLeft | oss/rb.h:359-373 | the assignments of the left branch turn the heap image of the subtree into that of the step on trees |
| LlrbHeap.InsertFixRight | oss/rb.h:374-396 | the same for the right branch |
| LlrbHeap.RemoveFixLeft | oss/rb.h:503-599 | the same for the four cases of the left branch of remove, including which of climb, return and relink follows |
| LlrbHeap.RemoveFixRightRed | oss/rb.h:605-657 | the same for a red left sibling |
| LlrbHeap.RemoveFixRightBlack | oss/rb.h:658-734 | the same for a black left sibling |
| LlrbHeap.InsertUnwindStep | oss/rb.h:357-398 | one iteration on the heap: links, rebalances and tells whether to go on, exactly as the step on trees |
| LlrbHeap.RemoveUnwindStep | oss/rb.h:501-736 | the same for remove |
| LlrbPath.WindStep | oss/rb.h:412-433 | one iteration of a wind loop records a comparison that is not zero and the next node, and stays inside the array |
| LlrbPath.InsertIteration | oss/rb.h:357-398 | one iteration of the unwind loop of insert on the path array |
| LlrbPath.RemoveIteration | oss/rb.h:501-736 | one iteration of the unwind loop of remove on the path array, with the assertion that the comparison is not zero |
| LlrbPath.TakePlace | oss/rb.h:437-449 | the successor gets the links and the colour of the node, the node the colour of the successor |
| LlrbPath.SuccessorPath | oss/rb.h:412-436 | the path through the successor goes left all the way below the node, and ends at the node itself only when it has no right subtree |
| LlrbPath.InsertStart | oss/rb.h:341-355 | the state in which the unwind loop of insert starts meets its invariant |
| LlrbPath.PlaceSplit | oss/rb.h:335-402 | the place of a node is between all smaller and all greater keys |
| LlrbPath.DropSplit | oss/rb.h:403-740 | taking a node out leaves what was before it and what was after it |
| RbTree.RbTree.Wind | oss/rb.h:342-354 | the wind loop ends at the one place where the key belongs, with the path to it in the array |
| RbTree.RbTree.UnwindInsert | oss/rb.h:356-398 | the loop with its early returns computes exactly the unwind on trees |
| RbTree.RbTree.EndInsert | oss/rb.h:356-401 | with the root set and made black, the heap holds exactly the unwound tree: balanced, same order, all nodes |
| RbTree.RbTree.Insert | oss/rb.h:335-402 | the tree stays valid and holds exactly one more node, at its place in the order |
| RbTree.RbTree.WindTo | oss/rb.h:409-434 | the path to the node, so that the assert after the loop holds |
| RbTree.RbTree.WindToSuccessor | oss/rb.h:420-431 | the path goes on one step right, then left to the end |
| RbTree.RbTree.SwapWithSuccessor | oss/rb.h:436-464 | node and successor change places in the heap, on the path and in the root, also when the successor is the right child |
| RbTree.RbTree.SpliceOut | oss/rb.h:466-484 | a red left child takes the place of the node, black, and the tree is balanced |
| RbTree.RbTree.PruneLast | oss/rb.h:485-500 | a red node is cut off without further ado, a black one starts the unwind; either way the tree is balanced in the end |
| RbTree.RbTree.RemoveIterate | oss/rb.h:501-736 | one iteration with the relinking of the entry above, or of the root |
| RbTree.RbTree.UnwindRemove | oss/rb.h:500-739 | the loop computes exactly the unwind on trees: balanced, same nodes in order, with the root set; no comparison on the path is zero |
| RbTree.RbTree.RemoveOuter | oss/rb.h:465-497 | removing a node without a right child leaves a balanced, sorted tree without that node |
| RbTree.RbTree.RemoveInner | oss/rb.h:436-464 | removing a node with a successor below it does the same |
| RbTree.RbTree.Remove | oss/rb.h:403-740 | the tree stays valid, exactly that node is gone, and the order of the others is unchanged |
| RbIter.IterRecurse | oss/rb.h:741-756 | calls back on the nodes of the subtree in order, up to the first that makes it stop |
| RbIter.IterStart | oss/rb.h:757-781 | the same from the start node on |
| RbIter.Iter | oss/rb.h:782-796 | visits exactly the suffix of the order from the start, or all of it, up to and including the node that stops it, whose answer is returned |
| RbIter.ReverseIterRecurse | oss/rb.h:797-812 | the mirror image of IterRecurse |
| RbIter.ReverseIterStart | oss/rb.h:813-838 | the mirror image of IterStart |
| RbIter.ReverseIter | oss/rb.h:839-854 | visits exactly the prefix of the order up to the start, backwards |
| RbIter.UntilSays | oss/rb.h:741-796 | the nodes visited are a prefix on all of which but the last the callback goes on, complete unless it stops, and the answer is that of the last |
| RbIter.FromSays | oss/rb.h:757-781 | the part from a node on is the suffix that begins with it |
| JobIdTree.MapHas | sfs/include/sfs_jobid_tree.h:57-78 | the map read off a sequence of nodes has exactly the keys of its nodes |
| JobIdTree.MapPlace | sfs/include/sfs_jobid_tree.h:140-168 | putting a node in its place in the order is an update of the map |
| JobIdTree.MapDrop | sfs/include/sfs_jobid_tree.h:178-213 | taking a node out of the order removes its key from the map |
| JobIdTree.JobTree.Search | sfs/include/sfs_jobid_tree.h:81-81 | looks up the map, both when the id is there and when it is not |
| JobIdTree.JobTree.MapInsert | sfs/include/sfs_jobid_tree.h:140-168 | adds the job under its id to the map and changes nothing else in it |
| JobIdTree.JobTree.MapRemove | sfs/include/sfs_jobid_tree.h:178-213 | removes the id from the map; an absent id leaves the map alone |
| JobIdTree.JobTree.Run | sfs/include/sfs_jobid_tree.h:140-213 | every sequence of operations on the tree does what the same operations do on a map |
| ClrsTree.RedBlackTree.constructor | oss/rbtree/red_black_tree.c:23-49 | the two sentinels make a valid empty tree |
| ClrsTree.RedBlackTree.LeftRotate | oss/rbtree/red_black_tree.c:68-103 | the pointers are those of the rotated tree, parent links included; same nodes, same order; nil is not disturbed |
| ClrsTree.RedBlackTree.RightRotate | oss/rbtree/red_black_tree.c:123-157 | the mirror image |
| ClrsTree.RedBlackTree.FindPlace | oss/rbtree/red_black_tree.c:180-190 | the descent ends after all keys that are not greater and before all greater ones |
| ClrsOrder.InsertedAt | oss/rbtree/red_black_tree.c:180-190 | the place of a new node is behind all keys that are not greater and before all greater ones |
| ClrsTree.RedBlackTree.InsertHelp | oss/rbtree/red_black_tree.c:174-202 | the new node is a leaf, after all nodes with equal keys |
| ClrsModel.PushedInserting | oss/rbtree/red_black_tree.c:237-244 | a red uncle: the violation moves two levels up |
| ClrsModel.OuterRb | oss/rbtree/red_black_tree.c:245-248 | an inner child is turned outwards without any other violation |
| ClrsModel.SettledInserting | oss/rbtree/red_black_tree.c:249-251 | an outer child: after the rotation there is no violation left |
| ClrsTree.RedBlackTree.InsertStep | oss/rbtree/red_black_tree.c:236-270 | one iteration of the loop, on both sides, keeps its invariant and gets closer to the root |
| ClrsTree.RedBlackTree.FixInsert | oss/rbtree/red_black_tree.c:235-271 | the loop ends in a balanced tree over the same nodes in the same order |
| ClrsTree.RedBlackTree.Insert | oss/rbtree/red_black_tree.c:224-278 | the tree stays valid; the node is inserted after its equals; all other nodes keep their place |
| ClrsModel.LiftedDeleting | oss/rbtree/red_black_tree.c:509-514 | a red sibling: after the rotation the sibling is black and the path is still one short |
| ClrsModel.FadedDeleting | oss/rbtree/red_black_tree.c:515-517 | a black sibling with black children: the shortage moves up |
| ClrsModel.OutwardDeleting | oss/rbtree/red_black_tree.c:519-524 | a red near child is turned outwards |
| ClrsModel.RestoredBalanced | oss/rbtree/red_black_tree.c:525-529 | a red far child: the whole tree is balanced again |
| ClrsModel.FinishBalanced | oss/rbtree/red_black_tree.c:557-557 | the loop may stop at a red node, which is made black, or at the root |
| ClrsTree.RedBlackTree.DeleteStep | oss/rbtree/red_black_tree.c:506-556 | one iteration, on both sides, the parent read again after each rotation, even nil's: either the tree is balanced and the loop is left through the saved root, or the invariant holds closer to the root |
| ClrsTree.RedBlackTree.DeleteFixUp | oss/rbtree/red_black_tree.c:502-562 | from a path that is one black short to a balanced tree over the same nodes, although the root is read only once and may be rotated down |
| ClrsTree.RedBlackTree.Splice | oss/rbtree/red_black_tree.c:588-597 | a node with at most one child is taken out, and its child, even nil, gets its parent |
| ClrsTree.RedBlackTree.TakePlace | oss/rbtree/red_black_tree.c:609-618 | the successor gets the links and the colour of the node it replaces |
| ClrsTree.RedBlackTree.Excise | oss/rbtree/red_black_tree.c:588-606 | the node leaves the order, and the tree is repaired before anything else happens |
| ClrsTree.RedBlackTree.Delete | oss/rbtree/red_black_tree.c:581-630 | the tree stays valid, with all invariants, and exactly the given node object is gone; all others keep identity, key, info and order |
| ClrsTree.RedBlackTree.Successor | oss/rbtree/red_black_tree.c:294-313 | the next node in the order, or nil after the last |
| ClrsQuery.Predecessor | oss/rbtree/red_black_tree.c:329-348 | the node before in the order, or nil before the first |
| ClrsQuery.ForthAndBack | oss/rbtree/red_black_tree.c:294-348 | successor and predecessor are inverse to one another wherever there is a node to step to |
| ClrsQuery.ExactQuery | oss/rbtree/red_black_tree.c:467-483 | null only if no node has the key; otherwise the highest node with it, below which all others with that key are |
| ClrsQuery.LastUpto | oss/rbtree/red_black_tree.c:651-658 | the last node in the order whose key is not above the bound |
| ClrsQuery.Enumerate | oss/rbtree/red_black_tree.c:644-664 | the stack holds exactly the nodes with keys in the range, duplicates included, in order from the top |
| ClrsOrder.BetweenSlice | oss/rbtree/red_black_tree.c:644-664 | in a sorted order the nodes in a range of keys are one stretch |
| L2Device.EvictKeeps | oss/arc/arc.c:4759-4843 | what eviction leaves is a suffix of the list, and of the buffers before the hand from the last sweep only those beyond the address it clears |
| L2Device.EvictStep | oss/arc/arc.c:4723-4848 | eviction keeps the ring invariant and clears the stretch before the hand |
| L2Device.Evicts | oss/arc/arc.c:4745-4797 | on every device, also where the test for the end wraps around: an eviction takes the longest stretch of oldest buffers that start between the hand and the distance asked for, or the end of the device if twice that distance reaches it; nothing in the first sweep |
| L2Device.EvictsExactly | oss/arc/arc.c:4723-4848 | at any time in any run on a device of at least twice the write size, a buffer goes if and only if it is ahead of the hand and no farther than the distance, or ahead of a hand within twice the distance of the end |
| L2Device.Writes | oss/arc/arc.c:5032-5109 | the hand moves behind what is placed, and returns to the start, ending the first sweep, if and only if another write of that size would reach the end |
| L2Device.PlacedRange | oss/arc/arc.c:5032-5085 | the buffers of a write lie one after the other from the hand on, within the target size |
| L2Device.WriteStep | oss/arc/arc.c:4861-5113 | a write after an eviction of the same size is inside the device, hits no listed buffer, and keeps the ring invariant, also when the hand returns to the start |
| L2Device.DropStep | oss/arc/arc.c:1677-1686 | headers that leave the list for other reasons do not disturb the ring |
| L2Device.RunSafe | oss/arc/arc.c:4723-5113 | from a state that meets the invariant every run is safe |
| L2Device.OverrunFails | oss/arc/arc.c:4745-4753 | a run of feeds that writes over a listed buffer, on every device that is not big enough |
| L2Device.DeviceSafety | oss/arc/arc.c:4723-5113 | every run of feed steps is safe if and only if the device is big enough for its write size |
| L2Feed.L2ArcDev.Evict | oss/arc/arc.c:4723-4848 | the loop over the list from its tail does what the step of the run model says |
| L2Feed.L2ArcDev.Select | oss/arc/arc.c:4919-5011 | the headers put on the list are the longest prefix of the candidates that stays within the target |
| L2Feed.L2ArcDev.WriteBuffers | oss/arc/arc.c:4861-5113 | selection, placement and the move of the hand together do what the step of the run model says |
| L2Feed.ChosenPrefix | oss/arc/arc.c:4951-4955 | the selection loop stops where the running total would exceed the target |
| L2Reads.EvictGood | oss/arc/arc.c:4795-4840 | eviction marks every read in progress of a header it takes off the list, and keeps the invariant of the protocol |
| L2Reads.SelectGood | oss/arc/arc.c:4973-4999 | a selected header is marked as being written before it can be read |
| L2Reads.PlaceGood | oss/arc/arc.c:5032-5085 | placement gives every selected header a range of its own, and starts the write of its sectors |
| L2Reads.FlushGood | oss/arc/arc.c:5068-5072 | a sector reaching the device does not disturb any read that counts |
| L2Reads.WriteDoneGood | oss/arc/arc.c:4518-4596 | after a completed write its headers may be read |
| L2Reads.WriteFailedGood | oss/arc/arc.c:4568-4583 | after a failed write its headers are off the list, also for a reader that has found one there |
| L2Reads.ReleaseGood | oss/arc/arc.c:1677-1686 | a header may leave the list on its own |
| L2Reads.ReaderGood | oss/arc/arc.c:3263-3350 | the reader's own steps keep the invariant: noting the address, testing the L2 header, testing the flags, using the L2 header, sampling sectors, completing |
| L2Reads.ActGood | oss/arc/arc.c:4518-4848 | every step of every participant keeps the invariant |
| L2Reads.ReadEnds | oss/arc/arc.c:4602-4674 | how a read ends, on whatever device: with the block from the main pool, or else when all its sectors have been read and no eviction has marked it; a marked or failed read never reaches the caller |
| L2Reads.DeliveredRead | oss/arc/arc.c:4602-4674 | in every such state, a step by which a read is over other than by the main pool hands over its header's own bytes if and only if the address it noted is on the device, or it had no sectors |
| L2Reads.L2ReadSafety | oss/arc/arc.c:3263-3303 | the same for every step of every run on every device big enough for its write size, without relying on the checksum |
| L2Reads.EarlyReadFails | oss/arc/arc.c:3263-3303 | on every device there is a run in which the caller gets a read that did not see its header's bytes |
| L2Reads.PlacedReadFails | oss/arc/arc.c:4745-4753 | on every other device, a run in which a read from an address on the device is written over and reaches the caller |
| L2Reads.PlacedReadSafety | oss/arc/arc.c:3263-3303 | all reads that reach the caller with an address on the device, in all runs, saw their own bytes if and only if the device is big enough for its write size |
| L2Tests.RunBeside | oss/arc/arc.c:4518-4848 | whatever the others do while a header is being read, and while its reader gets its sectors, the read is marked if and only if an eviction took the L2 header, and there is one left if and only if neither an eviction nor a failed write took it |
| L2Tests.NullRead | oss/arc/arc.c:3301-3350 | in every run on every device, the reader uses an L2 header that is gone if and only if a failed write took it between the two tests, or an eviction after the second |
| L2Tests.FailedWriteNull | oss/arc/arc.c:4568-4583 | on every device, a run in which a failed write does |
| L2Tests.EvictionNull | oss/arc/arc.c:4795-4840 | on every device, a run in which an eviction does |
| L2Tests.TestPassed | oss/arc/arc.c:3265-3301 | in every run on every device, the test of the L2 header is passed if and only if nothing has taken it since the address was noted; otherwise the block comes from the main pool |
| L2Tests.FlagsPassed | oss/arc/arc.c:3301-3303 | the test of the flags is passed if and only if the header is not being written and no eviction has taken the L2 header since |
| L2Tests.ReadPassed | oss/arc/arc.c:4636-4669 | a read that is over reaches the caller if and only if no eviction has taken the L2 header since it was issued; otherwise it is issued again to the main pool |
| L2Tests.FlagTells | oss/arc/arc.c:4973-4999 | in every run in which no lock is missed, a header with an L2 header is flagged if and only if it is selected for a write or being written |
| L2Tests.EvictTidies | oss/arc/arc.c:4823-4841 | an eviction that takes the L2 header also clears a flag left over from a failed write |
| PoolModel.QueueInv | common/src/sstack_thread_pool.c:371-391 | queueing a job keeps the invariant, whether it wakes a worker, creates one or does neither |
| PoolModel.WorkInv | common/src/sstack_thread_pool.c:195-252 | a critical section of a worker, from any of its entry points, keeps the invariant |
| PoolModel.FinishInv | common/src/sstack_thread_pool.c:143-164 | so does the end of a job |
| PoolModel.ExitInv | common/src/sstack_thread_pool.c:116-129 | so does a job that ends its thread, with the worker created in its place |
| PoolModel.WaitInv | common/src/sstack_thread_pool.c:394-403 | so does waiting for the pool |
| PoolModel.StepInv | common/src/sstack_thread_pool.c:116-403 | so does every step of every thread, timeouts and spurious wake-ups included |
| PoolModel.NeverStranded | common/src/sstack_thread_pool.c:185-254 | while there is a job in the queue some worker is not asleep |
| PoolModel.OnePlace | common/src/sstack_thread_pool.c:195-252 | every accepted job is exactly one of queued, running and done |
| PoolModel.PoolSafety | common/src/sstack_thread_pool.c:116-403 | in every run of every pool that can be created: no stranded work, jobs start in the order of acceptance, every job is in one place, counters and active list match the workers, the maximum is kept, and no waiter sleeps while the pool is quiet |
| PoolModel.StepLoad | common/src/sstack_thread_pool.c:195-252 | every step of a worker uses up some of a finite load |
| PoolModel.SomeoneWorks | common/src/sstack_thread_pool.c:195-252 | while the pool is not quiet some worker can take a step |
| PoolModel.EveryJobGetsDone | common/src/sstack_thread_pool.c:116-403 | from any reachable state the workers, in whatever order, stop after finitely many steps, and then every accepted job is done and nobody waits |
| PoolRules.Creates | common/src/sstack_thread_pool.c:296-350 | a pool is created if and only if its minimum is not above its maximum and that is at least one; it is empty and without threads |
| PoolRules.EveryStep | common/src/sstack_thread_pool.c:116-403 | at any time in any run: a job queued while no worker is idle adds a thread unless there are as many as there may be, and otherwise wakes one that sleeps; a worker without work leaves if and only if there are more threads than the minimum and it has waited its time or is not to wait, waits with a limit if and only if there are more and it has not, and without one if and only if there are not; a thread that a job ended is replaced if and only if there is work; who waits is let go if and only if the pool is quiet |
| PoolRules.MinimumKept | common/src/sstack_thread_pool.c:185-254 | in every run without jobs that end their threads, the number of threads stays at the minimum or above once it is there, and until then does not fall |
| PoolHeap.ThreadPool.constructor | common/src/sstack_thread_pool.c:296-350 | an empty pool; head is null iff tail is null, here and in every state, by Valid |
| PoolHeap.ThreadPool.Queue | common/src/sstack_thread_pool.c:371-391 | the code does what the step says, and the job is last in the linked queue |
| PoolHeap.ThreadPool.NotifyWaiters | common/src/sstack_thread_pool.c:131-138 | waiters are woken exactly when the queue and the active list are empty |
| PoolHeap.ThreadPool.TakeJob | common/src/sstack_thread_pool.c:218-229 | the first job leaves the queue, and the worker enters the active list at its head |
| PoolHeap.ThreadPool.Unlink | common/src/sstack_thread_pool.c:153-161 | the walk through the active list takes out the worker and nothing else |
| PoolHeap.ThreadPool.JobCleanup | common/src/sstack_thread_pool.c:143-164 | the code does what the step says |
| PoolHeap.ThreadPool.Pass | common/src/sstack_thread_pool.c:195-252 | one pass of the worker's loop from any entry point: what it does, and when it goes round again |
| PoolHeap.ThreadPool.Section | common/src/sstack_thread_pool.c:195-252 | the critical section up to the next wait, job or exit does what the step says |
| PoolHeap.ThreadPool.WorkerCleanup | common/src/sstack_thread_pool.c:116-129 | the thread count drops, and a new worker is asked for exactly when there are jobs and room |
| PoolHeap.ThreadPool.MustWait | common/src/sstack_thread_pool.c:394-403 | the caller blocks, with the flag set, exactly while the pool is not quiet |
| ArcTargets.GhostHits | oss/arc/arc.c:2616-2639 | a hit in the MRU ghost list raises the target by the size times the strength, up to its cap; a hit in the MFU ghost list lowers it by the same rule, down to its floor; as long as the product fits an int |
| ArcTargets.GhostDirection | oss/arc/arc.c:2616-2639 | a ghost hit moves arc_p towards its list if and only if arc_p is not beyond the cap or floor on that side already |
| ArcTargets.MultIsStrength | oss/arc/arc.c:2624-2635 | the strength is the quotient of the ghost sizes, between 1 and 10 |
| ArcTargets.Grows | oss/arc/arc.c:2642-2661 | when the target size grows and by how much, and that only anonymous data takes arc_p along |
| ArcTargets.Adapts | oss/arc/arc.c:2606-2661 | arc_adapt as a whole, from every state: nothing for a header in the L2 cache only; otherwise arc_c grows by the size asked for, up to arc_c_max, when the cache is within two blocks of it; arc_p follows ghost hits, and apart from that only anonymous data, by just as much |
| ArcTargets.Reserves | oss/arc/arc.c:3909-3910 | below the wrap a reservation raises arc_c to four times its size, but not above arc_c_max, and leaves all else; nothing changes when the cache may not grow |
| ArcTargets.Outgrows | oss/arc/arc.c:2785-2791 | arc_p rises by the size, or as far as arc_c |
| ArcTargets.ShrinkTo | oss/arc/arc.c:2327-2347 | without a wrap the target becomes what is left, or the cache's size if that is smaller, but not less than the minimum; it does get smaller; arc_p loses a thirty-second, or is half of arc_c when that is less; at the minimum nothing changes |
| ArcTargets.ShrinkRight | oss/arc/arc.c:2327-2347 | a shrink stays in bounds and does not raise arc_c if and only if there is nothing to shrink, or arc_c_min plus the bytes to free does not wrap around, or the cache is no larger than its target |
| ArcTargets.ModestRight | oss/arc/arc.c:2606-2661 | below the limits, from any state in bounds, every call of adapt, shrink, tempreserve and get_data_buf keeps `arc_c_min <= arc_c <= arc_c_max` and `arc_p <= arc_c`, a reservation does not lower arc_c and a shrink does not raise it |
| ArcTargets.ImmodestWrong | oss/arc/arc.c:3909-3910 | above them there is a state and a call for which that fails |
| ArcTargets.RunsRight | oss/arc/arc.c:2327-2347 | every run of calls up to given sizes, from every state in bounds, is right if and only if the sizes are below the limits, whatever the bounds, equal ones and zero included |
| ArcTargets.WrapsAround | oss/arc/arc.c:3909-3910 | a reservation that lowers arc_c to zero, and a request for a whole number of pages that raises it above its maximum |
| ArcTargets.InitialInBounds | oss/arc/arc.c:4007-4056 | the bounds hold after initialisation if and only if the minimum computed is not above the maximum |
| ArcTargets.InitialSays | oss/arc/arc.c:4007-4056 | the targets after initialisation: the tunables where they are sensible, otherwise shares of the memory |
| ArcBooks.MovedTallied | oss/arc/arc.c:1265-1350 | if each counter changes by what one header's share in it changes, all counters remain sums over all headers |
| ArcBooks.RefTallied | oss/arc/arc.c:1159-1211 | the list and size changes of a reference count that leaves or reaches zero keep the tally |
| ArcBooks.CountTallied | oss/arc/arc.c:1583-1649 | so do those of one buffer more or less |
| ArcBooks.StateTallied | oss/arc/arc.c:1265-1350 | so do those of a change of state, and what it does to the resident sizes is known |
| ArcBooks.AtLeast | oss/arc/arc.c:1159-1350 | no counter is below any header's share in it, so that no subtraction goes below zero |
| ArcBooks.Covers | oss/arc/arc.c:1378-1406 | what is counted covers every single block and L2 header, so that it can be given back |
| ArcBooks.ScanSheds | oss/arc/arc.c:1868-2019 | a scan takes buffers only from unreferenced resident headers of the list's type; those that lose their last one become ghosts, all others stay as they are |
| ArcScan.RobsAll | oss/arc/arc.c:1931-1988 | without a limit, exactly the unreferenced headers on the list without I/O in progress lose as many buffers as could be locked, and those that lose their last become ghosts of that list |
| ArcScan.Stops | oss/arc/arc.c:1868-2019 | with a limit, the same for the headers up to the one with which the state has lost that many bytes, no further and no less; a block is kept for the caller if and only if one of them has one of that size and is not being written to the L2 cache |
| ArcMoves.StepSide | oss/arc/arc.c:2799-2932 | after every operation a block is on the MFU side if and only if the operation promotes it, or it was there and the operation does not demote it |
| ArcMoves.FrequentSince | oss/arc/arc.c:2799-2932 | in every run, a block is on the MFU list or a ghost of it if and only if a demand access after some time, or one that found it as a ghost, or any that found it in the L2 cache only, has put it there, and it has not been released, read in vain, found as a ghost by a prefetch, or forgotten since |
| ArcMoves.LeftAlone | oss/arc/arc.c:1883-1988 | in every run, a header nobody operates on is kept, and eviction takes it from the MRU list to the MRU ghosts, or from the MFU list to the MFU ghosts, and nowhere else |
| ArcCache.Cache.AddReference | oss/arc/arc.c:1159-1187 | the new header table; lists, counters and totals stay in step; the bytes that leave the list are more than none |
| ArcCache.Cache.RemoveReference | oss/arc/arc.c:1189-1211 | the same, and the count left; a header that goes on a list has buffers |
| ArcCache.Cache.ChangeState | oss/arc/arc.c:1265-1350 | the same for a change of state, for all pairs of states, under the four assertions at its start |
| ArcCache.Cache.Relist | oss/arc/arc.c:1278-1330 | the list moves and the two deltas of a change of state, ghosts included |
| ArcCache.Cache.SpaceConsume | oss/arc/arc.c:1352-1376 | which totals grow, by the kind of space; their sum stays right |
| ArcCache.Cache.SpaceReturn | oss/arc/arc.c:1378-1406 | which totals shrink, with the assertions that arc_meta_used and arc_size are large enough |
| ArcCache.Cache.Enough | oss/arc/arc.c:1400-1404 | these assertions hold for every block and L2 header that is given back |
| ArcCache.Cache.Construct | oss/arc/arc.c:930-957 | the space of a header or buffer that is constructed |
| ArcCache.Cache.Destruct | oss/arc/arc.c:964-984 | and of one that is destructed, again with the assertions |
| ArcCache.Cache.Consume | oss/arc/arc.c:1352-1376 | space of others is counted as metadata |
| ArcCache.Cache.Return | oss/arc/arc.c:1378-1406 | and given back |
| ArcCache.Cache.BufDestroy | oss/arc/arc.c:1583-1649 | one buffer less; a recycled block leaves the totals as they are |
| ArcCache.Cache.HdrDestroy | oss/arc/arc.c:1651-1723 | the header is gone, with its buffers and its L2 header, and nothing else |
| ArcCache.Cache.EvictHdr | oss/arc/arc.c:1931-1988 | as many buffers go as can be locked; the header becomes a ghost exactly when none is left; how much was evicted and whether a block was stolen |
| ArcCache.Cache.Evict | oss/arc/arc.c:1868-2019 | the loop does what the scan on values does, stops when enough has been evicted, and steals at most one block |
| ArcCache.Cache.Retarget | oss/arc/arc.c:2606-2661 | the targets become those of adapt; the ghost size it divides by is not zero |
| ArcCache.Cache.MakeRoom | oss/arc/arc.c:2703-2749 | targets adjusted; exactly the headers the scan of the chosen list leaves, if eviction is needed; a stolen block is owed to the caller |
| ArcCache.Cache.Victims | oss/arc/arc.c:2729-2749 | the four cases: what goes to the MRU list takes from the MFU list if and only if the recently used have not used up their share and there is enough, and the other way round |
| ArcCache.Cache.Rooms | oss/arc/arc.c:2668-2751 | room is made if and only if the cache may not grow, is above its target or holds too much metadata; then by exactly the tries it takes for one block |
| ArcCache.Cache.Goals | oss/arc/arc.c:2606-2661 | the targets arc_adapt sets, in plain arithmetic, from the ghost sizes and arc_size of the cache |
| ArcCache.Cache.Outgrown | oss/arc/arc.c:2785-2791 | when and how arc_p follows anonymous data |
| ArcCache.Cache.GetDataBuf | oss/arc/arc.c:2703-2793 | the header gets one block, new or stolen, and the totals count it once; the other headers are exactly those left by the scan of the list chosen, and the targets those of adapt and of anonymous data that outgrew arc_p |
| ArcCache.Cache.BufAlloc | oss/arc/arc.c:1408-1441 | a new anonymous header with one buffer and one reference |
| ArcCache.Cache.ReadMiss | oss/arc/arc.c:3196-3225 | a new header waits for the block, with a reference unless it is a prefetch |
| ArcCache.Cache.Access | oss/arc/arc.c:2799-2932 | the state arc_access moves a header to |
| ArcCache.Cache.ReadHit | oss/arc/arc.c:3155-3177 | one reference more, one buffer more if there was none to spare, and the access counted |
| ArcCache.Cache.Touch | oss/arc/arc.c:3172-3177 | a read by nobody in particular counts as an access |
| ArcCache.Cache.Join | oss/arc/arc.c:3122-3148 | a reader joining a read in progress adds a reference, and no buffer yet |
| ArcCache.Cache.ReadGhost | oss/arc/arc.c:3226-3263 | a ghost gets a block, becomes resident and waits for the data; a demand read adds the reference |
| ArcCache.Cache.ReadDone | oss/arc/arc.c:2958-3083 | everybody who waits has a buffer afterwards; the header is in the cache, or anonymous after an error, or gone if then nobody waits; when the assertion on copies fails |
| ArcCache.Cache.ReadThrough | oss/arc/arc.c:2958-3083 | a read of a new block from beginning to end with any operations in between: the assertion on copies fails if and only if the read does and two or more wait for it |
| ArcCache.Cache.CopyAll | oss/arc/arc.c:3015-3026 | one copy for each further reader that waits, and what may happen to other headers meanwhile |
| ArcCache.Cache.WriteBegin | oss/arc/arc.c:3729-3755 | an anonymous header is being written |
| ArcCache.Cache.WriteDone | oss/arc/arc.c:3769-3844 | it joins the MRU list or stays anonymous, and no other header changes |
| ArcCache.Cache.WriteThrough | oss/arc/arc.c:3729-3844 | a write from beginning to end with any operations in between: the assertion at the end fails if and only if one of them frees the buffer or drops its reference |
| ArcCache.Cache.Discard | oss/arc/arc.c:3811-3814 | the header of a block that was overwritten is gone, and nothing else |
| ArcCache.SharedReadFails | oss/arc/arc.c:3017-3044 | in every cache, two readers and a failed read break both assertions |
| ArcCache.SharedReleaseFails | oss/arc/arc.c:3562-3645 | in every cache, after such a read a release gives back a lock that was not taken |
| ArcCache.FreedWriteFails | oss/arc/arc.c:1750-1763 | in every cache, a buffer freed while it is written breaks the assertion of arc_write_done |
| ArcCache.Cache.BufFree | oss/arc/arc.c:1725-1770 | what a dropped reference does to buffers and header, cached, being written or anonymous |
| ArcCache.Cache.BufRemoveRef | oss/arc/arc.c:1772-1805 | the same for a buffer that may have a callback, with the assertion at the end, and when the one for anonymous headers fails |
| ArcCache.Cache.EvictGhost | oss/arc/arc.c:2073-2090 | a ghost is forgotten, or kept as L2-only exactly when it has an L2 header |
| ArcCache.Cache.BufEvict | oss/arc/arc.c:3474-3551 | a buffer goes, and with the last one the header becomes a ghost |
| ArcCache.Cache.Release | oss/arc/arc.c:3559-3692 | the buffer is anonymous afterwards, with a header of its own if it was shared, and the L2 header is gone; the reference count decides, as in the code, and no counter goes below zero; it gives back a lock it has not taken if and only if it was one of several on an anonymous header |
| ArcCache.Cache.TakeAway | oss/arc/arc.c:3619-3636 | the counters of the header that is left, by its reference count |
| ArcCache.Cache.AddL2 | oss/arc/arc.c:4973-4999 | the L2 header and its space |
| ArcCache.Cache.L2Evict | oss/arc/arc.c:4795-4840 | a header that is only in the L2 cache goes with its L2 header; others lose it |
| ArcCache.Cache.L2Fail | oss/arc/arc.c:4568-4578 | a failed L2 write takes the L2 header, whatever the state |
| ArcCache.Cache.Audit | oss/arc/arc.c:1159-1406 | what Valid says: a header is on its list iff it is unreferenced and not anonymous; list and state sizes are the sums over the headers; data size is anonymous + MRU + MFU; header and L2 space are those of the headers; arc_size and arc_meta_used are the sums of their parts; and none of them is negative |
| ArcCache.Cache.Step | oss/arc/arc.c:930-4840 | every operation, applied when its caller may apply it, keeps all of that, and the targets in bounds; which headers vanish and which state every other is in afterwards, by rules on the headers alone; a header with I/O in progress that it does not end keeps its state, and its references but for readers that join and writers that let go |
| ArcCache.Cache.Run | oss/arc/arc.c:930-4840 | so does every run of operations: misses, hits, joined reads, their completion and failure, writes, evictions, releases, L2 headers, space |
| ArcHash.HashTable.constructor | oss/arc/arc.c:987-1003 | an empty table |
| ArcHash.HashTable.Find | oss/arc/arc.c:809-827 | looks up the map from identities to headers |
| ArcHash.HashTable.Insert | oss/arc/arc.c:835-869 | returns the header that is there, or adds the new one to the map; hash_elements and hash_chains stay exact, by Valid |
| ArcHash.HashTable.Remove | oss/arc/arc.c:871-895 | takes exactly that header out of the map, and the counters stay exact |
| ArcHash.RefinesInsert | oss/arc/arc.c:835-869 | a header put in front of its own bucket: each header still exactly once, in its bucket, and the map updated |
| ArcHash.RefinesRemove | oss/arc/arc.c:871-895 | a header cut out of its bucket: the map without its identity |
| ArcHash.LongUpdate | oss/arc/arc.c:857-863 | how the number of buckets of length two or more changes with one bucket |
| Crc.Reflect | oss/crc/crc.c:56-80 | the loop reverses the low bits |
| Crc.ReflectTwice | oss/crc/crc.c:56-80 | reflecting twice changes nothing |
| Crc.StepsXor | oss/crc/crc.c:115-128 | division is linear |
| Crc.DivideBits | oss/crc/crc.c:115-128 | the inner loop does eight steps of division |
| Crc.CrcInit | oss/crc/crc.c:155-197 | entry d of the table is the remainder of d followed by 24 zero bits |
| Crc.LookupDivides | oss/crc/crc.c:222-226 | a table lookup does what eight steps of division do |
| Crc.RevSteps | oss/crc/crc.h:57-63 | bit reversal turns division by the polynomial into division by the reflected polynomial of RFC 1952 |
| Crc.RevDivide | oss/crc/crc.c:105-128 | dividing in a reflected byte is, mirrored, the update of section 8 of RFC 1952 |
| Crc.SlowIsRfc | oss/crc/crc.c:94-136 | for every message the reflected and inverted remainder is the CRC-32 of RFC 1952 |
| Crc.CheckValue | oss/crc/crc.h:57-63 | the CRC of the digits from 1 to 9 is the check value given with the polynomial |
| Crc.CrcSlow | oss/crc/crc.c:94-136 | the bitwise loop computes the CRC-32 of RFC 1952 of every message |
| Crc.CrcFast | oss/crc/crc.c:211-233 | with the table from CrcInit the table-driven loop computes the same |
| JobList.Init | common/include/bds_slab/bds_list.h:25-28 | an empty ring |
| JobList.AddBetween | common/include/bds_slab/bds_list.h:35-43 | the entry is between its neighbours, the ring well formed in both directions |
| JobList.AddFront | common/include/bds_slab/bds_list.h:53-56 | the entry is first |
| JobList.AddTail | common/include/bds_slab/bds_list.h:67-70 | the entry is last |
| JobList.Delete | common/include/bds_slab/bds_list.h:79-98 | the entry is out, all others in the same order |
| JobList.Search | sfs/src/sfs_job.c:363-373 | the first job with the id, or the head if there is none |
| JobList.WithoutSays | sfs/src/sfs_job.c:363-381 | exactly the first job with the id goes and all others keep their order |
| JobList.JobQueues.constructor | sfs/src/sfs_job.c:228-253 | two empty queues |
| JobList.JobQueues.Enqueue | sfs/src/sfs_job.c:299-323 | the job is last in the queue of its priority, or -1 and no change |
| JobList.JobQueues.Dequeue | sfs/src/sfs_job.c:336-383 | exactly the first job with the id leaves the queue, or -1 and no change |
| JobList.JobQueues.Run | sfs/src/sfs_job.c:299-383 | after every run of both the queues are well-formed rings and hold what the same operations leave of two sequences |

## Left out

- RbTree.RbTree.Insert: requires keys that are new, as the assert in the wind loop does, and fewer than 2^63 - 1 nodes, more than a 64-bit address space can hold; keys are integers, standing for any total order.
- RbTree.RbTree.Remove: requires a node that is in the tree, as the assert after the wind loop does.
- RbIter.Iter: callbacks are functions of the node that do not change the tree and do not answer with the sentinel.
- rb.h: the macros first, last, next, prev, nsearch and psearch are declared in a prototype only, and are not part of this model.
- JobIdTree.JobTree.MapInsert: allocation of the node succeeds; the spinlock is not modelled.
- ClrsTree.RedBlackTree.Insert: the node is allocated by the caller; keys are integers, standing for the comparison function of the tree; key and info of a node are immutable, as the code never assigns them afterwards.
- ClrsQuery.Enumerate: the stack is a sequence; joining of stacks, destruction and printing of trees are not part of this model.
- L2Device.DeviceSafety: addresses are in sectors of 512 bytes and the device is smaller than 2^63 bytes; write sizes do not increase during a run and leave room on the device; which candidates are offered is up to the environment.
- L2Device.DeviceSafety: the sweep that evicts everything when a device is removed is not part of this model, nor is the flag for a header about to be freed, which nothing in the repository sets.
- L2Reads.L2ReadSafety: for devices that are big enough; PlacedReadSafety says what holds on the others. Checksums, compression and decompression are not modelled.
- L2Tests.NullRead: the uses of the L2 header after the test of the flags are taken together at the last of them; one that is gone by then does not come back while its header is being read, so a null pointer met earlier is still one there.
- PoolModel.EveryJobGetsDone: every job function returns or exits its thread, and creating a thread succeeds.
- PoolModel.PoolSafety: destruction of the pool, signal masks and cancellation are not part of this model.
- ArcTargets.GhostHits: says nothing about products that do not fit an int, and is for ghost sizes whose quotient does; blocks of at most 128 KiB are far from that, and ModestRight covers all sizes.
- ArcTargets.Adapts: for caches of less than 2^63 bytes; SPA_MAXBLOCKSHIFT, which is not part of the repository, is taken to be 17.
- ArcTargets.RunsRight: the tunables stay as they are after initialisation, a page has 4096 bytes, and the memory throttle of tempreserve is not modelled.
- ArcCache.Cache.Evict: the lists are sets; the order in which headers are tried, the locks that could be taken and the prefetch and write flags that make it skip one are given as a sequence of attempts.
- ArcCache.Cache.ReadHit: which buffer is available, whether the access comes long enough after the last and whether the header is marked as prefetched are given; it says what may happen to other headers, not to which ones it happens, which is in GetDataBuf.
- ArcCache.Cache.ReadMiss: whoever reads without a callback prefetches, and the other way round; prefetches with a callback are not modelled, nor is a reader that asks for neither and could never give its reference back.
- ArcCache.Cache.ReadDone: the header is still in the hash table, as nothing in the repository takes it out while it is being read; the I/O itself is left out.
- ArcCache.Cache.BufFree: its two tests for I/O in progress see the same, so that a write does not end in between; buffers waiting for the user's eviction callback no longer count.
- ArcCache.Cache.WriteBegin: of an anonymous header with one buffer; the rewrites of headers that are not anonymous, which scrubbing does, are not modelled, nor are those of buffers left by failed reads, the only anonymous headers with more than one.
- ArcCache.Cache.WriteThrough: the errors of the write and the three ways to find the block cached already are given as whether it joins the cache.
- ArcCache.Cache.Destruct: that a buffer is not in use when it is destructed is up to the kmem cache.
- ArcHash.HashTable.Insert: the hash function is a parameter and the identity of a header does not change while it is in the table; the statistic for the longest chain is left out.
- Crc.CrcFast: at the intended width of 32 bits; where unsigned long has 64 bits the table and the shifts are those of another code.
- JobList.JobQueues.Enqueue: the queue of the lowest priority is left out, since the initialisation loop stops before it; so is the spinlock.
- get_next_job_id, the file locks of sfs_lock_tree.h, the comparator of sfs_storage_tree.h and the dispatcher of sfs.c: uniqueness, exclusion or totality do not hold of them over long runs.
- Erasure coding, inode and extent serialisation, policies, the command line, the slab allocator and all of FUSE, sockets, databases and mounting: input and output, or unfinished.
