# SPEAD receiver library: verified model

The repository implements version 4 of SPEAD, a protocol that sends groups of items ("heaps") as UDP packets, in the
flavour with 64-bit item pointers and 40-bit addresses, together with the data structures its multi-process receiver
and its signal-processing modules are built on. This project models those parts in Dafny, in the form the C and OpenCL
code has (linked nodes, arrays and counters changed in place, loops and state machines), and proves what they promise.

| modules | what they model |
|---|---|
| `AvlShape`, `AvlRotations`, `AvlSteps`, `AvlRemoval`, `AvlTrees`, `AvlIndex` | the AVL tree with parent links: insertion, deletion in three cases, rotations, search, explicit-stack walk, destruction along parent links |
| `Rings`, `Bits`, `Dft`, `PairRounds`, `BitFlips`, `Radix2Fft` | the in-place radix-2 FFT over any commutative ring: butterfly passes, flip map, bit-reversal swaps, and every interleaving of their work items |
| `SpeadLayout`, `HeapStore`, `TableOrder`, `Fragments`, `Packetizer` | the wire layout, packet objects, the bank and the hash tables, and the sender's state machine |
| `Reassembly`, `Receiver`, `HeapRoundTrip` | the receiver: byte counting, two stacks for the item lengths, the resumable copy, and the end-to-end theorem |
| `SpeadHeaps`, `SpeadRoundTrip` | the second reassembly path: the offset-sorted packet list and its finalisation, and its own end-to-end theorem |
| `FutexMutex` | the three-state futex mutex: the two calls as one thread runs them, and as steps of any number of threads |
| `ReceivePool`, `PoolHeaps` | the receive workers around the bank and the tables, in every interleaving; what becomes of one packet, and which heaps meet in one table |
| `SharedMemory` | the allocator whose free lists are filed in an AVL tree that lives in its own blocks |
| `XorQueues`, `PriorityQueues` | the queue linked by exclusive-or, and the priority queue of such queues |
| `ClosestPair`, `Motions` | divide-and-conquer closest pair against the brute force, and what its distance is |
| `Sequences` | sequences without repetition, positions found in a rearrangement, and reversal, as several modules need them |

Trees, paths, chains and states are described by values, kept as ghost fields beside the real fields; `Valid()` ties the
two together, and a method's contract says how the value changes. Wherever a property fails in some family of inputs
the contract is an if-and-only-if: the traversal of the xor-linked queue, the oversized allocation, the closest pair
with equal x on both sides of a cut, and the priority queue made in a block that is not zero. One more property fails:
a table need not hold one heap only, since a packet that displaces another heap is stored in a table left without an
owner; it holds for as long as no packet has displaced a heap.

## Model

| member | source | states |
|---|---|---|
| AvlTrees.AvlTree.Add | src/avltree.c:651-788 | inserting keeps exact stored balances in {-1,0,1}, search order, parent links, root and count; a new key is inserted at its place in the key order and nothing else moves in that order; a present key leaves the tree untouched |
| AvlTrees.AvlTree.Delete | src/avltree.c:816-1028 | deleting any node, in all three cases and through every rebalance on the way up, keeps the same invariant, takes exactly that node out of the key order, clears its links and decrements the count |
| AvlTrees.AvlTree.DeleteKey | src/avltree.c:1119-1132 | succeeds exactly when the key is present; then one node with that key is gone, otherwise nothing has changed |
| AvlTrees.AvlTree.Find | src/avltree.c:1067-1106 | returns a node with the key, or null exactly when there is none, after as many steps as it stands levels below the root, a number s with Fib(s + 2) at most the node count plus one |
| AvlTrees.AvlTree.GetMax | src/avltree.c:1030-1053 | the last node in key order, whose key no other exceeds; null exactly for the empty tree |
| AvlTrees.AvlTree.Walk | src/avltree.c:151-248 | the explicit-stack walk terminates and calls back on every node once, in key order |
| AvlTrees.AvlTree.Destroy | src/avltree.c:1134-1203 | destruction along parent links terminates, frees every node exactly once, children before parents, in post-order |
| AvlSteps.AbsorbGrowth | src/avltree.c:720-779 | the upward loop of insertion: from a subtree grown by one below a path that still stores the old balances to a subtree with exact balances below a path that fits it, same nodes in the same order |
| AvlSteps.HeightBound | src/avltree.c:1067-1106 | a tree with exact balances of height h has at least Fib(h + 2) - 1 nodes |
| AvlRemoval.AbsorbLoss | src/avltree.c:960-1027 | the upward loop of deletion with its stop flag: from a subtree that may have shrunk to a whole tree with exact balances, same nodes in the same order |
| AvlRemoval.RemoveWithoutRight | src/avltree.c:826-867 | case 1: a node without right child is spliced out and its left subtree hangs in its place; the loop goes on exactly when the parent was out of balance before |
| AvlRemoval.ReplaceByRight | src/avltree.c:871-904 | case 2: the right child without left child takes the node's place, sides and balance |
| AvlRemoval.ReplaceBySuccessor | src/avltree.c:906-957 | case 3: the leftmost node of the right subtree is unlinked and takes the node's place; where the upward loop starts and whether it is needed |
| AvlRemoval.LeftExists | src/avltree.c:906-919 | in case 3 an exact balance guarantees the left child that the code dereferences unguarded |
| AvlRotations.Rebalance | src/avltree.c:594-649 | the rotation chosen by the stored balances, done in place, leaves memory linked as the rebalanced tree hanging where the old one hung |
| AvlRotations.RebalancedIsAvl | src/avltree.c:380-649 | a tree whose root alone is off by two has the grandchild the rotation needs, becomes exactly balanced, and loses one level unless its heavier child was even |
| AvlRotations.RotationsKeepContent | src/avltree.c:380-592 | every rotation keeps the node set, the key order and the separateness of nodes |
| Radix2Fft.Radix2Transform | gpu/radix2_po2_kernel.cl:77-204 | for every length 2^p with p at least 1, over a commutative ring with w^(N/2) = -1, sizing, all passes and all swaps leave the array holding sum over i of x[i] w^(ij) in natural order; exactly the other lengths are refused, array unchanged |
| Radix2Fft.AnySchedulesTransform | gpu/radix2_po2_kernel.cl:77-204 | the same for any interleaving: each pass under any schedule of its work items' reads and writes, then any schedule of the swaps, leave that transform |
| Radix2Fft.AnyButterflySchedule | gpu/radix2_po2_kernel.cl:93-140 | one pass: whatever the order of the work items' reads and writes, the memory afterwards is the sequential pass |
| Radix2Fft.AnySwapSchedule | gpu/radix2_po2_kernel.cl:178-204 | whatever the order of reads and writes of the swaps, cell i ends with the value of cell rev(i) |
| Radix2Fft.InPlaceFft | gpu/radix2_po2_kernel.cl:77-142 | the kernel's loops over passes and work items, with span and stride halved and doubled in place, compute the recursive passes |
| Radix2Fft.ButterfliesDisjoint | gpu/radix2_po2_kernel.cl:29-40 | the cell pairs of a pass's work items are in range and pairwise disjoint |
| Radix2Fft.ButterfliesCover | gpu/radix2_po2_kernel.cl:29-40 | every cell is the first or second cell of some work item's pair, the one its position in its block says |
| Radix2Fft.IsPowerOf2Exact | gpu/shared.c:818-821 | the test x & (x - 1) accepts exactly the powers of two |
| Radix2Fft.PowerOf2 | gpu/shared.c:825-833 | the shifting loop returns the exponent p with 2^p <= x < 2^(p+1) |
| Dft.PassesComputeDft | gpu/radix2_po2_kernel.cl:45-142 | for the passes as a function on sequences (`Radix2Fft.InPlaceFft` ties the kernel's array to it): cell rev(j) holds the polynomial with coefficients x evaluated at w^j |
| BitFlips.FlipCountExact | gpu/radix2_po2_fft.c:201-216 | the closed form N/2 - 2^(ceil(p/2)-1) is the number of i with i < rev(i), for every p at least 1 |
| BitFlips.FlipsDisjoint | gpu/radix2_po2_kernel.cl:144-175 | the swap pairs are in range and disjoint, so they commute |
| BitFlips.FlipsReverse | gpu/radix2_po2_kernel.cl:178-204 | applying the swaps is the bit-reversal permutation, fixed points and all |
| BitFlips.BitFlipSetup | gpu/radix2_po2_kernel.cl:144-175 | the setup loop terminates with the map filled exactly by the pairs i < rev(i) in order of i |
| BitFlips.ReverseBits | gpu/radix2_po2_kernel.cl:152-161 | the shifting loop reverses the low bits of i |
| PairRounds.AnyInterleaving | gpu/radix2_po2_kernel.cl:93-140 | for any round of disjoint pairs, every interleaving of the items' two reads and two writes ends in the same memory |
| PairRounds.SchedulesAgree | gpu/radix2_po2_kernel.cl:93-140 | two schedules that both finish a round started from one memory leave the same memory |
| PairRounds.CanFinish | gpu/radix2_po2_kernel.cl:93-140 | wherever a round stands, some schedule finishes it, in exactly as many steps as there are reads and writes left |
| Rings.ComplexIsCommutativeRing | gpu/radix2_po2_kernel.cl:45-74 | exact complex numbers with the kernel's product satisfy every ring law the theorem assumes |
| Rings.ComplexProduct | gpu/radix2_po2_kernel.cl:125-126 | the kernel's product is the complex one: i squares to -1, real numbers and i multiply as they look, and a number times its conjugate is the square of its size |
| Rings.OnlyProduct | gpu/radix2_po2_kernel.cl:125-126 | no other product on pairs of reals has these properties and satisfies the ring laws |
| Dft.FourPoints | gpu/radix2_po2_kernel.cl:112-126 | the kernel's twiddle for four points, -i, is a root as the transform theorem asks for, and the transform of four points in real components |
| SpeadLayout.BytesRoundTrip | src/spead_packet.h:73-77 | a number that fits n bytes, written in network byte order, reads back as that number |
| SpeadLayout.BytesOfValue | src/spead_packet.h:73-77 | the other direction: every byte string is the network form of the number it reads as |
| SpeadLayout.PointerRoundTrip | src/spead_packet.h:71-77 | building an item pointer from mode, 23-bit id and 40-bit address and reading it back gives the same fields |
| SpeadLayout.WordRoundTrip | src/spead_packet.h:71-77 | every 64-bit word is the item pointer built from its three fields |
| SpeadLayout.HeaderRoundTrip | src/spead_packet.h:61-69 | a built header is accepted and gives back its 16-bit item count |
| SpeadLayout.HeaderExactly | src/spead_packet.h:61-69 | a word is accepted exactly when its upper four bytes are magic, version and the two widths |
| SpeadLayout.SetWordReads | src/spead_packet.h:73-77 | after writing word n, word n reads back and every other word is unchanged |
| HeapStore.Packet.UnpackHeader | src/spead_packet.c:110-126 | accepts exactly the headers with the right magic, version and widths; item count and payload start follow, nothing changes on refusal |
| HeapStore.Packet.UnpackItems | src/spead_packet.c:131-149 | heap count, heap length, payload offset and payload length are those of the last pointer with the reserved id, if there is one |
| HeapStore.UnpackMessage | src/spead_packet.c:110-149 | a buffer that encodes a message is read back as exactly that message, and refused exactly when its header is wrong |
| HeapStore.WireSuffices | src/net.c:543-595 | the bytes up to the end of the payload are enough to read the message back |
| HeapStore.HashTable.AddObject | src/hash.c:335-395 | appends the object to the bucket of its offset, or refuses an offset outside the table and changes nothing |
| HeapStore.HashTable.Empty | src/hash.c:131-192 | every stored object goes to the bank, last first, on top of what was there, and the table is as new |
| TableOrder.IndexMonotone | src/spead.c:49-115 | the bucket index does not decrease with the payload offset |
| TableOrder.IndexInRange | src/spead.c:49-115 | the bucket of an offset within the heap is inside the table |
| TableOrder.IndexSeparates | src/spead.c:49-115 | with pkt_size * (t_len - 1) >= heap_len, offsets a packet apart get different buckets |
| TableOrder.ConcatOnePerBucket | src/hash.c:586-660 | with one packet per bucket at increasing indices the traversal visits the packets in offset order, whatever the order of insertion |
| Fragments.PiecesTile | src/spead.c:343-603 | the fragments of a heap carry all item bytes in order; all but the last are full, none of a non-empty heap is empty |
| Fragments.PayloadsArePrefix | src/spead.c:343-603 | the payloads of the first k packets are the first bytes of the heap |
| Packetizer.PacketizeItemGroup | src/spead.c:310-610 | the state machine terminates; with a positive packet size and room for a full payload it sends one faithful packet per fragment, in order, as long as the bank has objects, and otherwise nothing; what the bank then holds, including the object a failure keeps |
| Packetizer.Packetizer.Step | src/spead.c:343-603 | every state transition keeps the sender's invariant and brings the machine closer to its end in a fixed order of offset, item, remaining bytes and state |
| Reassembly.LengthsTile | src/spead.c:984-1019 | lengths recovered backwards, each up to the next direct item or the end, are non-negative and add up to the payload plus eight bytes per immediate item |
| Reassembly.ItemStartsThere | src/spead.c:1021-1199 | copying the items one after the other by these lengths takes for each exactly the bytes its pointer means |
| Reassembly.ArenaSuffices | src/itemgroup.c:29-125 | the arena sized from the payload and the immediate items is never too small for the next item |
| Receiver.CoalesceItems | src/spead.c:898-962 | the walk over the table pushes the user pointers of all packets in traversal order, and counts the payload bytes |
| Receiver.FunnelLengths | src/spead.c:984-1019 | pouring the pointers into the second stack gives each its length and restores item order, first item on top |
| Receiver.ItemGroup.NewItem | src/itemgroup.c:81-125 | succeeds exactly for a positive size that still fits the arena; the cursor moves by the size and the header, and a refusal changes nothing |
| Receiver.Copier.SingleTraverse | src/hash.c:468-584 | one call of the resumable walk appends the next bytes of the heap to the item in hand, at least one, and asks to be called again exactly while the item is short |
| Receiver.Copier.CopyItem | src/spead.c:1021-1127 | over any number of calls and packet borders the item receives exactly the next bytes of the heap, and the walk rests where the next item starts |
| Receiver.FunnelConvert | src/spead.c:1129-1199 | the second funnel never fails on an orderly heap and turns every pointer into its item |
| Receiver.ProcessItems | src/spead.c:1201-1293 | a complete heap yields the item group its packets mean: one item for each pointer that means any bytes, in order, with its id and mode; a direct one has the bytes up to the next direct pointer, an immediate one its value in eight bytes, least significant first; the stacks are empty again |
| Reassembly.OutputsMean | src/spead.c:1129-1199 | what the receiver's rules give out of an orderly heap is what its pointers mean, and a descriptor is seen exactly when an item has its id |
| Receiver.StorePacket | src/spead.c:1301-1447 | full outcome of storing a packet: refused bucket, still collecting with the new counts, or, on reaching the heap length, the heap's item group, with the ids and values its pointers mean, the table emptied and every object back in the bank |
| Receiver.GetTable | src/spead.c:125-185 | a table of another heap is emptied into the bank and, as the code has it, left without an owner |
| HeapRoundTrip.TransferHeap | src/spead.c:310-610 | end to end: any item group in the encoding's domain, packetized and delivered packet by packet in any order into an empty table with pkt_size * (t_len - 1) >= heap_len, gives exactly one item group, the non-empty items in order with identical ids and bytes |
| HeapRoundTrip.ReceiveHeap | src/spead.c:1301-1524 | the receiving half over all delivery orders, with every packet object back in the bank |
| HeapRoundTrip.OutputsAreItems | src/spead.c:1129-1199 | what the receiver's rules make of the sender's pointers and bytes is the non-empty items, and a descriptor is recognised exactly when one was sent |
| HeapRoundTrip.BucketsSpread | src/spead.c:49-115 | all fragments of a heap have different buckets inside the table, in fragment order |
| HeapRoundTrip.SenderSizing | src/tx.c:352-361 | the pattern sender's c / pkt + 2 buckets (src/tx.c:511) meet that bound for the heap of two rounded halves of c bytes, and one heap needs fewer objects than that |
| SpeadHeaps.SpeadHeap.AddPacket | src/spead_packet.c:210-253 | links the packet at its place among the offsets, refuses packets without items or of another heap, and answers whether the heap is whole |
| SpeadHeaps.SpeadHeap.AddPackets | src/spead_packet.c:210-253 | adding the packets of one heap one by one gives the list of AddedAll |
| SpeadHeaps.AnyOrder | src/spead_packet.c:210-253 | packets with distinct offsets give the same list in every order of arrival |
| SpeadHeaps.SpeadHeap.GotAllPackets | src/spead_packet.c:255-279 | the remembered or recomputed answer is right: 1 exactly when the payloads are contiguous from the head packet to the heap length |
| SpeadHeaps.SpeadHeap.ReadBytes | src/spead_packet.c:372-391 | the single forward cursor reads for every offset the byte found for it, zero where there is none, and reports a gap exactly when there is one |
| SpeadHeaps.ByteOfCover | src/spead_packet.c:372-391 | among packets that do not overlap, the byte found for an offset is that of the packet covering it, and none is found exactly where none covers |
| SpeadHeaps.ValidItems | src/spead_packet.c:362-391 | a direct item is valid if and only if its end does not come before its start and every offset of it is covered |
| SpeadHeaps.SpeadHeap.Finalize | src/spead_packet.c:281-420 | one item, in list order, for each pointer whose id is not 1, 3, 4 or 6, with that id: an immediate one is its address in five bytes, a direct one the bytes up to the next direct pointer, zero where none arrived, valid exactly when all did; a missing heap length is taken from the last packet |
| SpeadRoundTrip.ReceiveGroup | src/spead_packet.c:210-420 | end to end: the packets of an item group, added in any order of arrival, are found whole, and finalising gives back every item, empty ones too, valid and with its id and bytes, beside one heap length per packet |
| SpeadHeaps.WholeHeapItems | src/spead_packet.c:281-420 | on a whole heap that starts at 0, every item is valid and its bytes are those the first reassembly path extracts |
| FutexMutex.LockMutex | src/mutex.c:22-50 | the locking call, whatever words its accesses find: each access is the step the protocol takes there, and the call comes back only with the mutex |
| FutexMutex.UnlockMutex | src/mutex.c:52-81 | the unlocking call in the same way, up to its early return or its wake |
| FutexMutex.RunKeepsInv | src/mutex.c:22-82 | for any number of threads and any interleaving of single reads, stores and atomic operations: one owner at most, the word is 0 exactly without owner, and whoever sleeps is announced by the word 2 or looked after |
| FutexMutex.MutualExclusion | src/mutex.c:22-82 | in every state of every run at most one thread is in the critical section |
| FutexMutex.NoLostWakeup | src/mutex.c:22-82 | while a thread sleeps, the word is 2 with an owner, or some thread is still before its wake or its exchange of 2 |
| FutexMutex.StepRefinesLock | src/mutex.c:22-82 | every step is a step of an abstract lock: taken only when free, given back only by its holder |
| FutexMutex.OnlyThroughHolding | src/mutex.c:22-50 | in every run a thread that is in the locking call gets out of it only into the critical section, also one that sleeps and is woken |
| FutexMutex.FailedAttempt | src/mutex.c:26-36 | a failed attempt leaves the word as it is and leads to the next, the hundredth to the exchange of 2 or straight to the wait |
| FutexMutex.NobodyToHandTo | src/mutex.c:62-69 | a round of the hand-over loop that finds the word 0 leads to the next, the two-hundredth to the wake |
| FutexMutex.CallsBegin | src/mutex.c:22-60 | from outside a thread starts the locking call, and from the critical section the unlocking call, at its beginning |
| FutexMutex.SomeoneSleeps | src/mutex.c:26-47 | threads do sleep: a run in which one sleeps while another holds the mutex |
| FutexMutex.NeverStuck | src/mutex.c:22-82 | every run extends to one in which all threads have left, and in the extension no thread leaves its sleep unless an unlocker wakes it |
| ReceivePool.RunKeepsInv | src/server.c:314-376 | over every interleaving of any number of workers each packet object is in exactly one place (bank, one table, one worker's hand), l_len is the bank's length, no two workers are at one table, and every table not being emptied has counted exactly the payload it stores |
| ReceivePool.StepConserves | src/hash.c:131-192 | popping, pushing, storing and emptying one object at a time make, lose or double no object |
| ReceivePool.CompleteMeansAllPayload | src/spead.c:1355-1369 | in every run a heap is taken for complete exactly when the payload stored in its table adds up to the heap length |
| ReceivePool.NothingLost | src/hash.c:398-452 | whenever all workers are idle and no table stores a packet, the bank holds every object once |
| PoolHeaps.StoresPacket | src/spead.c:1351-1356 | the packet of an undisturbed worker ends up last in the table its heap number says, modulo the number of tables, counted once; nothing else has changed but the bank |
| PoolHeaps.CompletesHeap | src/spead.c:1355-1369 | the packet that makes the count reach the heap length leaves the worker with all objects of the heap |
| PoolHeaps.TakesOver | src/spead.c:149-172 | a packet that finds another heap in its slot takes that heap's objects in hand first |
| PoolHeaps.PutsBackAll | src/hash.c:131-192 | they all go back to the bank, one at a time, and the table is as new |
| PoolHeaps.NothingReceived | src/server.c:336-346 | when nothing is received the object goes back and the state is as before |
| PoolHeaps.Refused | src/server.c:348-358 | a refused packet's object goes back, and the worker stops |
| PoolHeaps.NoBucket | src/spead.c:1347-1353 | a packet without a bucket: its object goes back, the table keeps the owner it was just given, and the worker stops |
| PoolHeaps.StopsOrWaits | src/server.c:316-323 | at an empty bank a worker stops; at a table another worker has it waits |
| PoolHeaps.RunFits | src/spead.c:112-172 | in every run each stored object is in its heap's slot, and all but the first object of a table are of the heap that owns it |
| PoolHeaps.OneHeapPerTable | src/spead.c:149-172 | as long as no packet has displaced another heap, every table stores packets of its owner only |
| PoolHeaps.ForeignByteCounts | src/spead.c:149-172 | otherwise not: a run of three packets in which a heap is taken for complete with another heap's byte counted as its own |
| SharedMemory.SharedMem.Malloc | src/sharedmem.c:230-326 | hands out the block of that size freed last, and then no region changes; or else the next bytes of the current region if they fit, and otherwise the first bytes of exactly one new region in front of it; changes nothing else; blocks stay inside their regions if and only if the block was reused, fits the current region or is no larger than a new region |
| SharedMemory.SharedMem.Free | src/sharedmem.c:328-399 | exactly the given block leaves the program's hands and is first on the list of its size; list heads and tree nodes the call allocates for itself come from no live block; too small a size takes nothing back and costs one list head |
| SharedMemory.SharedMem.Write | src/sharedmem.c:328-399 | any writes inside a block in use leave all free lists, and the whole allocator, intact |
| SharedMemory.SharedMem.AddRegion | src/sharedmem.c:107-140 | a new region becomes the current one in front of the old ones; size 0 is refused |
| SharedMemory.SharedMem.constructor | src/sharedmem.c:142-197 | the first region with the tree's own block in it satisfies the invariant |
| SharedMemory.OneBlockPerByte | src/sharedmem.c:230-399 | every used byte of every region belongs to exactly one block, with one owner: the program, the allocator's own tree and list heads, or a free list |
| SharedMemory.WriteSound | src/sharedmem.c:230-399 | writes within a block that is on no free list keep every list linked through its own blocks |
| XorQueues.Queue.Enqueue | src/queue.c:212-256 | appends the value at the back and keeps every node storing the exclusive-or of its neighbours |
| XorQueues.Queue.Dequeue | src/queue.c:259-292 | takes the oldest value, or fails exactly on the empty queue; the rest stays linked |
| XorQueues.Traverse | src/queue.c:294-318 | visits the chain in order, and all of it if and only if no inner node stores its own address |
| XorQueues.LinkedBackwards | src/queue.c:294-318 | from its back the chain reads as the reversed chain |
| XorQueues.TraversalStopsEarly | src/queue.c:306-307 | three nodes at 0x10, 0x30, 0x20 make the traversal stop at the second |
| XorQueues.SharedBitNeverEnds | src/queue.c:294-318 | where all addresses share a set bit the traversal is complete |
| PriorityQueues.PriorityQueue.constructor | src/queue.c:50-70 | pq_highest keeps what its block held, and the new queue satisfies its invariant if and only if that is null |
| PriorityQueues.PriorityQueue.Insert | src/queue.c:84-148 | the value joins the end of its priority's queue, made and filed if new; a new priority 0 is refused; pq_highest stays the largest priority in the tree |
| PriorityQueues.PriorityQueue.PullHighest | src/queue.c:151-209 | the exact outcome of a pull in terms of the queues per priority, with codes 0, -1 and -2, and pq_highest again the maximum |
| PriorityQueues.PullServesHighest | src/queue.c:151-209 | a successful pull returns the oldest value of the highest priority that has any, and no other value is touched |
| PriorityQueues.FailuresBounded | src/queue.c:176-202 | while some queue has a value, pulls fail at most as often in a row as there are queues of higher priority, and the value stays |
| ClosestPair.BruteForce | utils/proximity_search.c:29-44 | the least squared distance over all pairs below the limit, with a pair that attains it |
| ClosestPair.Closest | utils/proximity_search.c:46-108 | finds the least distance of the pairs it takes into account; for the same points sorted by x and by y with distinct x at every cut, that of all pairs, with a pair that attains it |
| ClosestPair.ClosestUnique | utils/proximity_search.c:29-108 | the two searches agree: the minimum depends on neither the order of the points nor the way it was found |
| ClosestPair.DistinctXIsClean | utils/proximity_search.c:46-64 | pairwise distinct x is enough for distinct x at every cut |
| ClosestPair.ClosestExactly | utils/proximity_search.c:46-108 | for a list sorted by x and any limit above 1: the search finds the brute force's minimum for every choice of the heights if and only if no cut has the same x on both its sides |
| ClosestPair.UncleanMisses | utils/proximity_search.c:59-64 | whenever some cut has the same x on both sides, heights exist with two neighbours in the list 1 apart while every pair the search takes into account, whatever the order of equal heights, is at least 4 apart |
| ClosestPair.BestIsAttained | utils/proximity_search.c:46-108 | ties or not, the answer is the distance of two of the points, or the limit: it can be too large, never too small |
| ClosestPair.TieAtCutMissed | utils/proximity_search.c:59-64 | nine points with a tie at the cut whose closest pair, one apart, is missed: everything compared is ten apart or more |
| ClosestPair.ScanStrip | utils/proximity_search.c:79-104 | the scan with shrinking distance and a right cursor that only moves on leaves no left and right point of the strip closer than its answer |
| Motions.DistIsSquaredDistance | utils/proximity_search.c:10-14 | the distance both searches use is kept by every turn and shift of the plane and is the square of the difference along the x axis |
| Motions.OnlyDistance | utils/proximity_search.c:10-14 | no other measure has these properties |
| Motions.MovedClosest | utils/proximity_search.c:29-108 | turning and shifting all points leaves the least distance, and so either search's answer, as it was |

## Left out

- Comparators and destructors of the AVL tree: keys are integers, callbacks that free keys or data are not called, and the insertion's independent link writes are grouped into small methods.
- AvlTrees.AvlTree.Destroy: the tree's own block and its dangling root pointer, which the caller must not use afterwards, are not modelled.
- Rounding: samples are ring elements and twiddles powers of w; the bucket index is the exact floor of po * (t_len - 1) / heap_len; the item size of the pattern sender is the exact ceiling; distances are reals and the square root is any function that squares back.
- The scope of the OpenCL barrier: it is taken to separate whole rounds, as the kernel assumes. The precomputed butterfly map is replaced by the indices it stores.
- HeapRoundTrip.TransferHeap: user items with ids 1 to 4 or 6, ids of 2^23 and more, heaps of 2^40 bytes and more and item counts over 16 bits are outside the encoding; each packet is delivered once, and no other heap uses the same slot.
- Receiver.StorePacket: the callback pipeline, the stream-termination flag, statistics and the processing of descriptors are not modelled; the messages its packets mean are a ghost parameter.
- Receiver.ProcessItems: buckets with several packets, packets without payload in a non-empty heap and duplicate packets, for which the resumable walk re-reads a bucket or starts over, are excluded by Complete.
- SpeadLayout.PointerRoundTrip: words are natural numbers, shifts are multiplications and masks remainders; the conversion to network byte order is the byte sequence itself, and immediate values are read on a little-endian host.
- HeapStore.Packet.UnpackItems: item counts whose pointers reach beyond the packet buffer.
- Pools of allocated stack nodes, items and packets: creating an object always succeeds.
- SpeadRoundTrip.ReceiveGroup: heaps of 2^40 bytes and more, and items with ids 1, 3, 4 and 6, which this path never hands on.
- FutexMutex.LockMutex: the words the accesses find are a parameter, as long as the call has been watched.
- SpeadHeaps.SpeadHeap.AddPacket: a packet's unpacked fields are constants, and the linked list of finished items is a sequence.
- FutexMutex.RunKeepsInv: memory is sequentially consistent and system calls do not fail with EINVAL.
- ReceivePool.RunKeepsInv: the mutexes of bank and tables are taken as locks; processing of a complete heap, which reads the table only, is one step; the flag that processing is under way is never seen set by another worker and is omitted.
- SharedMemory.SharedMem.Malloc: concurrent use (the free tree is not locked), failing mmap and the removal of all regions at exit. A pointer is a region and an offset, so distinct regions never overlap, and the words modelled in memory are the links.
- XorQueues.Queue.Enqueue: the node's block is a parameter that is never NULL; with a failed allocation the code loses the back of the queue. Dequeued nodes are never freed, as in the code.
- PriorityQueues.PriorityQueue.Insert: destroying queues and the failure exits after a failed allocation.
- Receiver.GetTable: the slot is the caller's table; that it is the heap number modulo the backlog is stated in PoolHeaps.StoresPacket.
- TableOrder.IndexMonotone: stated for the exact floor of po * (t_len - 1) / heap_len, not the float quotient.
- TableOrder.IndexInRange: stated for the exact floor, as above.
- TableOrder.IndexSeparates: stated for the exact floor, as above.
- HeapRoundTrip.BucketsSpread: stated for the exact floor, as above.
- HeapRoundTrip.SenderSizing: stated for the exact ceiling of the item size, which the source takes of a float quotient.
- Receiver.Copier.SingleTraverse: tables with several packets in a bucket, as for Receiver.ProcessItems above.
- Receiver.Copier.CopyItem: tables with several packets in a bucket, as for Receiver.ProcessItems above.
- Dft.PassesComputeDft: about sequences; Radix2Fft.Radix2Transform states it for the kernel's array.
- ClosestPair.Closest: the buffer's memory, and the limit that stands for MAXDOUBLE.
- Sockets, processes, signals, select loops, files, modules, command lines, statistics, OpenCL and CUDA host calls, transposition, dedispersion, murmur, itoa, haversine, perlin and the other utilities.
