# Proofs about a small RISC-V kernel

This project models the parts of the kernel that carry hard invariants and proves that they
keep them: the intrusive red-black tree, the CFS scheduler and the epoll interest set that
are built on it, the heap allocator, the block and inode layer, the B-tree, and the decimal
loops of `printf`. `dafny verify dfyconfig.toml` checks all of it.

Conventions. A pointer is an integer name and NULL is `NIL`; a node keeps its name for as long
as it exists, so callers may hold it across erasures. Code that updates fields in place is a
class; each method says what it does to an abstract value (an in-order sequence, a state
machine, a block list, a finite map, a flat byte string), and the theorems are about that
value. Machine words are integers with the wrap-around written out.

| files | source | what they hold |
|---|---|---|
| `RbShape`, `RbMemory`, `RbTree` | `rbtree.c` | trees with a focus, cells that spell out a tree, the class |
| `CfsModel`, `CfsRuns`, `CfsTheorems`, `CfsFloor`, `Cfs`, `CfsSystem` | `cfs.c` | state machine, its runs, fairness and accounting, min_vruntime, the class, machine and class in lockstep |
| `HeapModel`, `Heap`, `HeapRuns` | `kernel.c` | block lists, the allocator on an array of words, runs with a ledger of grants |
| `EpollModel`, `Epoll` | `epoll.c` | finite map of interests, the class |
| `Bitmap`, `InodeModel`, `InodeFs` | `inode.c` | bitmaps, block ownership and flat contents, the class |
| `BTreeModel`, `BTreeSplit`, `BTreeListing`, `BTree` | `btree.c` | node-local invariant, splits, in-order lists, the class |
| `Decimal` | `common.c`, `kernel.c` | digit loops and `str_to_int` |

## What is proved

**Red-black tree.** Erasing any node of any valid tree gives a valid tree (black root, no red
edge below red, equal black heights, parent links right) whose in-order sequence lost exactly
that node; inserting a red leaf and recolouring keeps the sequence. The sibling and the
grandparent that the code dereferences exist because the colour invariant says so, and both
fix-up loops end. The height is at most `2 * log2(n + 1)`.

**CFS.** The class that works on the tree, the cached leftmost node and the counters runs in
lockstep with a state machine over sorted queues. In every run a task is queued once and ready,
or is the one running task; ties are first-in first-out; before the clock wraps each charge
is exactly one tick and the charges add up; min_vruntime moves by a law stated on the tasks
alone, and no task falls behind the one it was created at; no queued task starves, with a bound
on its wait in ticks.

**Heap.** After any calls the blocks tile the heap, the live payloads are those granted and not
yet freed, disjoint, untouched and no smaller than asked for, and there is at most one pair of
adjacent free blocks.

**Inode layer.** Every block has one owner, both bitmaps and both counters are exact, files are
dense, and reading, writing and truncating agree with a flat byte string while all other files
keep their bytes. For every offset it is decided whether a write keeps the invariant.

**epoll.** The tree refines a finite map from descriptor to interest; waiting reports the first
events in ascending order of descriptor; closing frees every item once.

**B-tree.** For every even order the store is one ordered tree with all leaves at one depth;
search, insertion, deletion and traversal agree with a finite map.

## Where the code does less than it seems to

- The preemption test subtracts unsigned numbers, so a current task that is behind the first
  queued one is preempted too. `PreemptExact` says exactly when the current task stays.
- `kfree` makes one pass and does not look again at a block it merged. `PassCompleteIff` says
  exactly when that coalesces everything, and `IncompleteRun` gives four calls after which
  nothing is live and the heap is still in two blocks.
- A request above `2^32 - 8` bytes is rounded to zero: `RoundedCovers`.
- `inode_read` clips with a 32-bit sum. When it wraps, the bytes after the end of the file in
  its last block are returned: `ReadClippedIff`.
- A write past the allocated blocks leaves a hole in the pointers or a size without blocks,
  unless it stores a byte in the first missing block: `InodeFs.FileSystem.Write` says exactly
  when the invariant is kept. A write into that block past the end of the file shows what a
  truncation left behind in the last block.
- Freeing a block that nobody owns makes `free_blocks` wrong: `InodeFs.FileSystem.BlockFree`.
- `btree.h` sets order 5, for which `btree_split_child` reads one slot past its arrays.
  `EvenOrderIff` says that exactly the even orders are safe, and the class takes one of those.
- `btree_delete` refuses a key held by an inner node: `BTrees.BTree.Delete`.
- `num_nodes` of the B-tree, documented as a number of nodes, counts pairs.
- Heap payloads are aligned to four bytes and not always to eight, because a header has twelve:
  `AlignedIff` says exactly when they are, and that the first one is not.

## Model

| member | source | states |
|---|---|---|
| RbTrees.RbTree.RotateLeft | rbtree.c:30-50 | rewrites exactly the cells of the pivot, its right child, the moved subtree and the parent, including the root pointer |
| RbTrees.RbTree.RotateRight | rbtree.c:53-73 | the mirror image |
| RbShape.RotationKeeps | rbtree.c:30-73 | both rotations keep the in-order sequence, the set of nodes and their distinctness |
| RbTrees.RbTree.InsertColor | rbtree.c:76-136 | a red leaf linked into any hole of a valid tree: afterwards the tree is red-black again and has the same nodes in the same order |
| RbShape.ClimbRed | rbtree.c:79-82 | a red parent has a black grandparent, so `gparent` is never NULL where it is dereferenced |
| RbTrees.RbTree.Insert | rbtree.c:76-136 | linking a node and rebalancing puts exactly that node into the in-order sequence at the hole and writes no cell outside the tree |
| RbTrees.RbTree.First | rbtree.c:139-149 | the first node of the in-order sequence, NULL exactly for the empty tree |
| RbTrees.RbTree.Next | rbtree.c:152-171 | the node that follows in the in-order sequence, or NULL after the last |
| RbTrees.RbTree.Enumerate | rbtree.c:139-171 | starting at the first node and following successors until NULL visits every node once, in order |
| RbTrees.RbTree.EraseColor | rbtree.c:174-244 | a subtree one black node short anywhere in a tree: the loop ends, never meets a missing sibling, and leaves a valid tree with the same nodes in the same order |
| RbShape.BorrowedLeftRedBlack | rbtree.c:194-208 | a sibling with a red child makes up for the missing black node and the loop may stop |
| RbShape.BorrowedRightRedBlack | rbtree.c:224-238 | the mirror image |
| RbTrees.RbTree.EraseOne | rbtree.c:251-320 | a node with at most one child is replaced by that child and the tree stays valid |
| RbTrees.RbTree.EraseTwo | rbtree.c:255-301 | a node with two children is replaced by its successor, which keeps its name, and the tree stays valid |
| RbTrees.RbTree.Erase | rbtree.c:247-321 | any node of any valid tree: the tree stays red-black, exactly that node leaves the in-order sequence, and no cell outside the tree is written |
| RbShape.PlugRedBlack | rbtree.c:76-136 | a red-black subtree in a matching context makes a whole red-black tree |
| RbShape.UnplugRedBlack | rbtree.c:174-244 | taking a subtree out of a valid tree leaves a subtree and a context that agree on the black height |
| RbShape.HeightLogarithmic | rbtree.c:76-136 | the height of a valid tree of n nodes is at most twice the logarithm of n + 1 |
| CfsScheduler.Cfs.constructor | cfs.c:73-91 | an empty tree and the initial state of the machine |
| CfsScheduler.Cfs.FindLink | cfs.c:106-117 | the descent ends in the hole behind all tasks that are not later, and reports whether it only went left; it visits at most twice the logarithm of nr_running + 1 nodes |
| CfsScheduler.Cfs.Enqueue | cfs.c:94-149 | the tree, the leftmost cache, the counters and the entity end as the machine's insertion into the sorted queue |
| CfsScheduler.Cfs.Dequeue | cfs.c:152-176 | the same for removal; the leftmost cache moves to the successor exactly when the first task leaves |
| CfsScheduler.Cfs.PickNextTask | cfs.c:179-189 | the cached node is the first of the queue |
| CfsScheduler.Cfs.UpdateMinVruntime | cfs.c:51-70 | the clamped minimum of the current and the first task, never decreasing |
| CfsScheduler.Cfs.UpdateCurr | cfs.c:192-213 | charges the current task from its start time with the machine's wrapped arithmetic |
| CfsScheduler.Cfs.Tick | cfs.c:225-266 | one tick of the class is one tick of the machine |
| CfsScheduler.Cfs.CreateProcess | cfs.c:269-310 | one creation of the class is one creation of the machine |
| CfsSystem.Execute | cfs.c:94-310 | after any sequence of calls the class shows the state of the machine's run; leftmost, nr_running and total_weight are its first task, size and weight |
| CfsRuns.TickShape | cfs.c:225-266 | a tick keeps the invariant and does one of four things: nothing, dispatch, keep, or swap the current task with the first |
| CfsRuns.CreateShape | cfs.c:269-310 | creation takes the first unused slot; the new task is ready, queued behind its equals, at the present min_vruntime, with the given nice and its weight and no time charged; min_vruntime and a full table do not change |
| CfsRuns.InitInv | cfs.c:73-91 | the initial state has no task and a min_vruntime and clock of zero |
| CfsRuns.StepKeeps | cfs.c:225-310 | a step is one tick or one creation, and keeps: each task is unused, or queued once and ready, or the sole running task; the queue is sorted |
| CfsModel.WeightSteps | cfs.c:32-36 | nice 0 weighs 1024, one step of nice changes the weight by a factor between 1.2 and 1.28, and values beyond the limits are clamped |
| CfsModel.WeightFalls | cfs.c:32-36 | a larger nice within the limits has a smaller weight |
| CfsModel.ScaledExact | cfs.c:39-48 | the scaled delta is the exact rounded quotient while the product fits 32 bits, and the delta itself for the unit weight or a large delta |
| CfsModel.ChargedAdds | cfs.c:192-213 | a first charge only notes the time, a later one adds the time since to the run time and its scaled value to the vruntime |
| CfsRuns.TickChargeExact | cfs.c:39-48 | for every weight the 32-bit product of a one-tick charge does not wrap, and the charge is positive and bounded |
| CfsRuns.ChargedExact | cfs.c:192-213 | a running task whose start time is the clock is charged exactly one tick |
| CfsRuns.TickInStep | cfs.c:225-266 | a tick keeps the running task's start time equal to the clock |
| CfsTheorems.Accounting | cfs.c:24-48 | in every run before the clock wraps, the run time of all tasks together is one tick for each tick entered with a current task |
| CfsTheorems.FifoTies | cfs.c:94-149 | in every run the queue is in order of vruntime, and of arrival among equals |
| CfsTheorems.PreemptExact | cfs.c:216-222 | the unsigned test keeps the current task if and only if it is at most one granule ahead, or so far behind that the difference wraps into the granule |
| CfsTheorems.MinVruntimeExact | cfs.c:51-70 | the updated min_vruntime is the larger of the old one and the least vruntime among the current and all queued tasks |
| CfsFloor.TickMin | cfs.c:225-266 | after a tick min_vruntime is the larger of what it was and the least vruntime of the tasks queued afterwards and of a current task that stayed |
| CfsFloor.MinInRuns | cfs.c:51-310 | the same in every run before the clock wraps; a creation leaves min_vruntime alone and starts the task there |
| CfsFloor.RunAtMost | cfs.c:192-310 | after n calls no vruntime has passed n times the largest charge |
| CfsFloor.NeverBehindBirth | cfs.c:269-310 | in every run of less than 2^64 over the largest charge calls no task is behind the min_vruntime at its creation |
| CfsTheorems.TurnTaken | cfs.c:39-48 | a charge of one tick takes one turn of a task that has any left |
| CfsTheorems.WaitingTick | cfs.c:225-266 | seen from a waiting task, each tick keeps its vruntime and, once the first tick is over, takes a turn from the others and leaves the current task at most one granule ahead |
| CfsTheorems.NoStarvation | cfs.c:225-266 | a queued task becomes current within two ticks more than the sum over the other tasks of their slack divided by their charge, rounded up, and no charge is below 11536; the clock must have room for that many ticks, and one charge must fit above the current task and above the waiting one |
| CfsSystem.NoStarvationInRuns | cfs.c:192-266 | the same in the state after any run in which the clock has not wrapped, with the room asked for in that state only |
| CfsSystem.NoStarvationByCount | cfs.c:192-266 | the same with the room stated in the number of calls |
| KernelHeap.Heap.constructor | kernel.c:245-252 | one free block that fills the heap |
| KernelHeap.Heap.FindFit | kernel.c:262-263 | the walk stops at the first free block that is large enough, or at NULL when there is none |
| KernelHeap.Heap.Kmalloc | kernel.c:254-283 | headers end as the list of the model's first fit with a split; no word of a live payload is written |
| KernelHeap.Heap.Coalesce | kernel.c:290-299 | the walk over headers is the single pass of the model; no word of a live payload is written |
| KernelHeap.Heap.Kfree | kernel.c:285-300 | marks the block free and makes the pass; every other live payload keeps its words |
| KernelHeap.Heap.Stats | kernel.c:302-318 | the counts are those of the list, and free bytes, used bytes and headers add up to the heap |
| HeapModel.PassHalves | kernel.c:290-299 | one pass at least halves the number of adjacent free pairs |
| HeapModel.PassOfRun | kernel.c:290-299 | a run of k free blocks becomes a run of k / 2 rounded up, independently of what follows |
| HeapModel.PassCompleteIff | kernel.c:290-299 | the pass leaves no adjacent free pair if and only if no three free blocks stand in a row |
| HeapModel.PassIncomplete | kernel.c:285-300 | freeing the block between two free ones leaves an adjacent pair |
| HeapModel.IncompleteRun | kernel.c:285-300 | two allocations and their two frees leave the whole heap free in two blocks |
| HeapModel.KmallocKeeps | kernel.c:254-283 | the blocks still tile the heap in whole words with at most one adjacent free pair |
| HeapModel.KfreeKeeps | kernel.c:285-300 | the same for kfree of any listed block |
| HeapModel.RunFragmentation | kernel.c:254-300 | in every run there are never three free blocks in a row, and once nothing is live at most two blocks |
| HeapModel.KmallocLive | kernel.c:254-283 | success adds one live payload at the returned address, of the rounded size and at most one header more, and moves or resizes no other |
| HeapModel.KfreeLive | kernel.c:285-300 | exactly the freed payload leaves the list of live ones |
| HeapModel.LiveDisjoint | kernel.c:245-300 | live payloads lie in the heap, in address order, with room for a header between them |
| HeapModel.RoundedCovers | kernel.c:257 | the rounded size covers the request if and only if the request is at most 2^32 - 8 |
| HeapModel.KmallocFails | kernel.c:254-283 | a request fails if and only if it is zero or no free block has the rounded size, and then nothing changes |
| HeapModel.AlignedIff | kernel.c:254-283 | a payload lies at a multiple of four, and at a multiple of eight if and only if an odd number of the blocks before it have a size that is one; the first lies at 12 |
| HeapRuns.RunSound | kernel.c:245-300 | in every run the blocks tile the heap with at most one adjacent free pair, the live payloads are exactly the grants not yet freed, and none is below its request (up to 2^32 - 8) |
| HeapRuns.LedgerStep | kernel.c:254-300 | kmalloc adds exactly the address it returns, with its request and a payload of the rounded size and at most a header more; kfree takes exactly its pointer away |
| HeapRuns.GrantsApart | kernel.c:245-300 | in every run two live payloads are a header apart and inside the heap |
| HeapRuns.GrantStays | kernel.c:254-300 | no call but its own kfree moves, resizes or drops a live payload |
| HeapRuns.Execute | kernel.c:245-300 | every legal sequence of calls on the heap in place ends in the blocks of the model's run |
| Epoll.EpollInstance.FindItem | epoll.c:56-72 | the node for the descriptor, NULL only if it is not watched, in logarithmically many steps |
| Epoll.EpollInstance.FindLink | epoll.c:80-93 | the descent ends in the hole between smaller and larger descriptors, or finds a duplicate, in logarithmically many steps |
| Epoll.EpollInstance.InsertItem | epoll.c:75-114 | a new descriptor adds one binding; a watched one is refused and nothing changes |
| Epoll.EpollInstance.Ctl | epoll.c:117-198 | code 1 binds a new descriptor if memory was got, 2 unbinds and 3 rebinds a watched one, each with result 0, and everything else is refused with -1 and no change; num_items is the size of the map |
| Epoll.ToEvents | epoll.c:209-221 | bit by bit, which descriptor flag raises which event, and no other bit |
| EpollModel.ReportExact | epoll.c:222-262 | an event is reported if and only if some bit is raised and asked for, with exactly those bits and the data of the interest |
| EpollModel.ReadyExact | epoll.c:248-264 | the reported events are one for each descriptor that has something to report, in order |
| Epoll.EpollInstance.PollFds | epoll.c:201-228 | every item's returned events are those raised and asked for; the interests stay the same |
| Epoll.EpollInstance.Wait | epoll.c:231-271 | reports, in ascending order of descriptor, the first maxevents watched descriptors with a bit both raised and asked for, each with exactly those bits and its data, and writes no more of the buffer |
| Epoll.EpollInstance.Close | epoll.c:274-302 | every item is erased and freed exactly once, in order, and the tree ends empty although each successor is taken before its predecessor is erased |
| Bitmaps.FindFree | inode.c:61-68 | the first clear bit of a range, or -1 if and only if there is none |
| Bitmaps.Set | inode.c:46-48 | exactly one bit is added |
| Bitmaps.Clear | inode.c:51-53 | exactly one bit is taken away |
| InodeFs.FileSystem.constructor | inode.c:71-99 | no block owned, no inode in use, all counters full |
| InodeFs.FileSystem.BlockAlloc | inode.c:164-183 | the lowest block nobody owns, zeroed, with no other byte changed; 0 if and only if all blocks but the reserved one are owned |
| InodeFs.FileSystem.BlockFree | inode.c:186-193 | exactly that block loses its owner and the counter is raised; a number that names no block is ignored; bitmap and counter stay exact if and only if the block had an owner or the number names none |
| InodeFs.FileSystem.InodeAlloc | inode.c:102-133 | the first inode not in use becomes an empty file; NULL if and only if all are in use; other files keep their bytes |
| InodeFs.FileSystem.InodeFree | inode.c:136-156 | the inode and all its blocks are free again; other files keep their bytes |
| InodeFs.FileSystem.Read | inode.c:209-254 | the buffer gets the clipped slice of the file when the sum does not wrap, and the slice of the raw blocks in any case; nothing past it is written |
| InodeFs.FileSystem.Write | inode.c:257-309 | at any offset: all invariants are kept if and only if the offset lies within the blocks, or in the first missing one and there is data and a free block; then the contents become old prefix, data, old suffix, and past the end of the file the gap shows the raw bytes of the last block and then zeros; a short count means the largest file or no free block; other files always keep their bytes |
| InodeFs.FileSystem.Truncate | inode.c:312-335 | the contents are cut to a prefix, the blocks past it are counted free, other files keep their bytes; growing is refused silently |
| InodeModel.NoSharing | inode.c:164-193 | no block is owned by two slots |
| InodeModel.ReadClippedIff | inode.c:214-216 | a read stays inside the file if and only if the sum does not wrap or the file ends with its block |
| InodeModel.OneMoreRound | inode.c:265-301 | rounds compose: in order they patch the padded raw bytes, and from a sparse start the first empty slot stays a hole |
| InodeModel.BadEnd | inode.c:280-306 | a sparse write, or one that stores nothing past the blocks, ends with a hole or with a size beyond the blocks |
| InodeFs.WriteEnd | inode.c:257-309 | the invariant after the whole write holds if and only if the write fits, and what the contents are then |
| InodeModel.WrittenContents | inode.c:257-309 | patching the raw blocks and raising the size is the flat law of writing |
| InodeModel.TrimContents | inode.c:312-335 | dropping the blocks past the new size leaves a prefix of the contents |
| BTreeModel.EvenOrderIff | btree.c:74-80 | the split reads inside its arrays, and no key is lost, if and only if the order is even |
| BTreeModel.SpansOnce | btree.c:35-65 | at each level at most one subtree can contain a key |
| BTreeModel.KeyOnce | btree.c:35-65 | a key sits in one node only |
| BTreeModel.Depth | btree.c:147-184 | following parent links from a node reaches the root after height minus level steps and not before, so all leaves have one depth |
| BTrees.BTree.Search | btree.c:35-65 | the value of the key in the map, NULL if and only if the key is absent |
| BTrees.BTree.SplitChild | btree.c:68-109 | the loops over keys, values, children and parent pointers end in the split store |
| BTreeSplit.SplitKeeps | btree.c:68-109 | splitting a full child keeps order, intervals, levels, key counts and parent links of every node of the store |
| BTreeSplit.SplitHolds | btree.c:68-109 | a split neither loses nor adds a pair |
| BTrees.BTree.InsertNonFull | btree.c:112-144 | the recursion adds exactly the pair and keeps the whole store well formed |
| BTrees.BTree.Insert | btree.c:147-184 | an absent key is added to the map and nothing else changes; a present one is refused; the height grows by at most one |
| BTrees.BTree.Delete | btree.c:275-305 | returns 0 if and only if a leaf holds the key, and then exactly that pair is gone; otherwise nothing changes |
| BTrees.BTree.RemovePair | btree.c:261-272 | the shifted leaf has lost exactly the pair |
| BTrees.BTree.Traverse | btree.c:308-328 | lists exactly the pairs of the map by strictly ascending key |
| BTreeListing.InsertionListed | btree.c:147-184 | after an insertion the in-order list is the sorted insertion of the pair |
| BTreeListing.DeletionListed | btree.c:275-305 | after a deletion the in-order list has lost exactly the pair of the key |
| Decimal.DigitsCanonical | common.c:28-68 | the notation has no leading zero and denotes the number |
| Decimal.CanonicalUnique | common.c:28-68 | it is the only such notation |
| Decimal.PrintByDivisor | common.c:56-68 | the divisor loops print the notation of every word, although the divisor is multiplied modulo the word size |
| Decimal.PrintSigned | common.c:28-47 | a minus sign exactly for negative values, then the canonical notation of the magnitude, for every signed word, the least one included |
| Decimal.PrintByBuffer | common.c:74-96 | the reversed buffer prints the notation of every 64-bit word; it never fills |
| Decimal.PrintSignedByBuffer | common.c:97-123 | the same for every signed 64-bit word |
| Decimal.DenotesUnique | common.c:28-123 | two values print alike if and only if they are the same |
| Decimal.StrToInt | kernel.c:560-567 | the value of the leading digits, and no intermediate result overflows when that value fits |
| Decimal.ReadBack | kernel.c:560-567 | reading back a printed number gives the number, whatever text follows |

## Left out

- InodeFs.FileSystem.Write: a NULL data pointer is not modelled; where the invariant is lost, the contract gives the size, the count and the other files, and not the contents.
- InodeFs.FileSystem.InodeAlloc: does not model the B-tree insertion of the inode number; likewise InodeFree and its deletion, whose result the code ignores.
- BTrees.BTree.Insert: assumes that `kmalloc` succeeds, that the value is not NULL and that the order is even; with a failed allocation the code overruns a full node.
- CfsTheorems.NoStarvation: assumes that no task is created meanwhile, and room for the clock and for one charge as its row says.
- Decimal.StrToInt: assumes that the value fits an `int`; signed overflow is undefined in C.
- KernelHeap.Heap.Kfree: assumes NULL or the payload of a listed block; wild pointers are not modelled.
- Bitmap words are sets of bit positions, so single-bit masks are set operations.
- Tree nodes and epoll items live in a map from names to cells; their addresses are not places in the heap of `kernel.c`, and `kmalloc` for them is a parameter or a fresh name.
- Nodes of the B-tree are values that the loops rewrite slot by slot and then store; stores of single words are not observed in between.
- The polled state of a descriptor is an arbitrary function of it, fixed for one call of `epoll_wait`; an edge-trigger flag and the ready list are stored but unused by the code.
- The table of epoll instances and the descriptor table around `epoll_ctl`: array lookups.
- `context_switch`, CSR access, UART and SBI calls: hardware.
- File operations by name: they rest on hash uniqueness and on deletions that `btree_delete` refuses.
- `btree_merge_children`, `get_predecessor` and `get_successor` are never called; `btree_destroy` and `btree_print` would be easy.
- Indirect blocks, timestamps, permissions and link counts: stored but unused.
- The flat file table, the input ring buffer, the round-robin scheduler, `alloc_pages`, the shell, the format dispatcher of `printf` and hexadecimal output: easy beside the rest.
