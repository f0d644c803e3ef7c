# libhl: a verified model

libhl is a C library of in-place data structures. This project models its hardest parts in Dafny
and proves what they keep over every call and every run:

- **Search trees** (`LinkedTree`, `RedBlack`, `RbTree`, `Balance`, `AvlTree`): red-black insertion,
  including the fix-up that repaints the grandparent and adds its own pair again, and AVL removal
  with its upward rebalancing loop. Nodes are heap objects with left, right and parent links; a
  ghost tree and a ghost path (`Ctx`) describe the heap around the node a function works on.
- **Linked list** (`LinkedList`, `ListSort`): the doubly linked list with its cached cursor, and
  the quicksort that swaps values and relinks entries.
- **Hash table** (`HtStatus`, `HashTable`): the status word as a transition system over any number
  of threads, and the table itself, called one operation at a time, as a map that survives growth.
- **Ring queue** (`RQueue`): the closed ring of pages with a HEAD flag inside a `next` pointer and
  a reader page outside the ring.
- **Binomial heap** (`BinHeap`, `HeapMerge`, `MergeOrders`): insertion as a binary counter, removal
  of the extremum, and the three-way merge loop.
- **Reference counting** (`RefCntProtocol`, `RefCnt`): the `count`/`updating` protocol under
  interleaving, and the free list with calls taken one at a time.
- **Byte ring buffer** (`RingBuf`).

`Order` holds the comparator laws and association sequences, `Sequences` sequences without
repetition, `Numbers` powers of two and counting in sets, `Wrappers` an option type.

Conventions. The comparator is an arbitrary function whose only assumed property is that it is a
total order (a total preorder for `list_sort` and the heap); it is stated through a predicate per
triple of keys so that proofs name the triples they use. The hash is an arbitrary function.
Allocation always succeeds. A `void *` value is an opaque non-null value, and a missing one is
`None`. Free callbacks append to a `freed` sequence. Ghost histories (`accepted`, `returned`,
`dropped`, ...) exist only to state conservation.

## Findings

- `binheap_merge` in MIN mode does not keep heap order: src/binheap.c:679 compares with `cmp >= 0`
  where the other places use HAS_PRECEDENCE. Insertion alone is enough to get there: 15 copies of one
  key in one heap and 21 copies of a larger key in the other always fail
  (`MergeOrders.InsertedMergeFails`). `HeapMerge.MergeExact` states exactly when the result is
  heap-ordered (no iteration reaches that comparison in MIN mode with keys that compare different).
  Two conditions that do not look at keys always suffice: no two roots of one order meet while a
  carry is in hand (`MergeOrders.OrdersSuffice`; for heaps built by insertion this is a condition on
  the two counts, `MergeOrders.CountsSuffice`), or one heap has at most one tree
  (`HeapMerge.SingleTreeMerges`).
- The list `binheap_merge` returns is in general not the binary form of its count. For two lists with
  increasing root orders its root orders never decrease (`HeapMerge.MergedRising`), but one node and
  seven nodes merge into two roots of order 2 (`MergeOrders.NotBinary`). They increase strictly exactly
  if no iteration gives out a root whose successor in its list has the same order
  (`HeapMerge.MergedIncreasing`).
- `remove_entry` on position 0 of a list with one entry leaves `tail` pointing at the removed entry
  (src/linklist.c:556-559); every other call keeps the list well formed. No caller in
  src/linklist.c makes that call: `fetch_entry` sends position 0 to `shift_entry`, and
  `destroy_entry` is only given entries whose list is already unset.
- `refcnt_create` computes the free list size in 32 bits (src/refcnt.c:47). The free list can hold
  every node that may wait on it exactly if `threshold + threshold / 2 < 2^31`.
- The status word of the hash table counts readers. With a word of `width` values, exclusion holds
  in all runs of `n` threads exactly if `3 + n < width`: 2^32 values in a default build, 256 where
  USE_PACKED_STRUCTURES packs the enum into one byte, so that 253 readers break it.
- src/avltree.h documents -1 for a failed `avlt_remove`; the code returns 0 for an absent key too.
  src/hashtable.h says that HT_SIZE_MIN is used for an initial size of 0; the code uses it for
  every smaller size. The model follows the code.

## Model

| member | source | states |
|---|---|---|
| `LinkedTree.DescendCorrect` | src/rbtree.c:192-237 | the search path from any place ends at the node holding the key or at the empty place between its neighbours, and the path and the place put together are the same tree |
| `LinkedTree.SortedWalk` | src/avltree.c:428-470 | the recursive in-order walk with a continue-only callback visits exactly the in-order contents and returns their number |
| `LinkedTree.RotateRightLinks` | src/rbtree.c:240-266 | the pointer writes of a right rotation turn the links of one ghost tree into those of the rotated one and touch nothing else |
| `LinkedTree.RotateLeftLinks` | src/rbtree.c:269-294 | the same for a left rotation |
| `RedBlack.PlugRB` | src/rbtree.c:326-371 | a path and a subtree that agree in black height and do not clash in colour make a red-black tree with a black root |
| `RedBlack.SizeLowerBound` | src/rbtree.c:297-374 | a red-black tree of black height b has at least 2^b - 1 pairs and is at most 2b (+1) high |
| `RbTree.PlacedContents` | src/rbtree.c:196-236 | putting a pair where the search for its key ends keeps search order and changes the map at that key only |
| `RbTree.Rbt.constructor` | src/rbtree.c:37-46 | an empty valid tree |
| `RbTree.Rbt.AddInternal` | src/rbtree.c:192-237 | replaces the node at the key or hangs a red leaf in its place, all other links unchanged; 1 and 0 tell the two apart; the replaced value is freed exactly if it differs |
| `RbTree.Rbt.RotateRight` | src/rbtree.c:240-266 | with a left child: the heap holds the rotated subtree in the same place, the root pointer follows, the node set is unchanged; without one the node is cut off and becomes the root |
| `RbTree.Rbt.RotateLeft` | src/rbtree.c:269-294 | the mirror image |
| `RbTree.Rbt.Relatives` | src/rbtree.c:150-168 | two levels below the root or deeper, rbt_grandparent and rbt_uncle return the grandparent and the sibling of the parent |
| `RbTree.RecolorRB` | src/rbtree.c:341-347 | repainting under a red uncle moves the single possible red-red violation two levels up and keeps black heights |
| `RbTree.OuterRB` | src/rbtree.c:358-365 | the rotation of case 5 removes the violation and keeps black heights |
| `RbTree.InnerRB` | src/rbtree.c:350-356 | case 4 turns an inner grandchild into an outer one |
| `RbTree.Rbt.FocusSearch` | src/rbtree.c:346 | adding the grandparent's own pair again finds the grandparent and leaves the map as it is |
| `RbTree.Rbt.RepairRecolor` | src/rbtree.c:341-347 | the recursive call restores a valid tree with the same map; it terminates because the place is two levels nearer the root |
| `RbTree.Rbt.Repair` | src/rbtree.c:335-370 | from one red-red violation, cases 3 to 5 restore a valid red-black tree with the same map |
| `RbTree.Rbt.Add` | src/rbtree.c:297-374 | from a valid tree, or one whose only violation is at the added key: a valid tree (search order, parent links, black root, no red-red edge, equal black heights), the map updated at the key, 1 exactly for a present key, and the old value freed exactly once if it differs |
| `RbTree.Rbt.FindInternal` | src/rbtree.c:377-394 | the recursion returns the node at the end of the search path |
| `RbTree.Rbt.Find` | src/rbtree.c:397-405 | returns the value the map holds for the key, and -1 exactly for an absent key |
| `RbTree.Rbt.WalkSorted` | src/rbtree.c:141-147 | visits the pairs of the map in strictly ascending key order, each once, and returns their number |
| `RbTree.Rbt.ValidHeight` | src/rbtree.c:297-374 | 2^height <= (n + 1)^2 for n pairs, that is height <= 2 log2(n + 1) |
| `RbTree.LastAdded` | src/rbtree.c:297-374 | the map a run of additions is compared with holds exactly the added keys, each with its last value |
| `RbTree.AddRun` | src/rbtree.c:297-374 | any run of additions on an empty tree ends in a valid tree holding the last value added for every key, within the height bound |
| `Balance.FixRightAvl` | src/avltree.c:146-153 | single or double rotation at a node that is two levels heavier on the right gives a balanced subtree with exact stored heights, of the old height or one less |
| `Balance.FixLeftAvl` | src/avltree.c:154-161 | the mirror image |
| `Balance.FixSame` | src/avltree.c:146-161 | the rotations keep contents and nodes |
| `Balance.RaiseLoose` | src/avltree.c:162-169 | one level up, the next node is again at most two levels out of balance |
| `Balance.DescendAvl` | src/avltree.c:308-317 | every place of a valid AVL tree has a balanced path above it |
| `Balance.ComposeAvl` | src/avltree.c:319-343 | the same for the place of the in-order neighbour below a node |
| `AvlTree.Avlt.RotateLeft` | src/avltree.c:57-85 | links and all four stored heights after the rotation, including the height written into the parent; nothing happens without a right child |
| `AvlTree.Avlt.RotateRight` | src/avltree.c:88-117 | the mirror image |
| `AvlTree.Avlt.BalanceStep` | src/avltree.c:143-169 | one iteration keeps contents and nodes, restores balance below, and lowers the measure (at most two visits per level) |
| `AvlTree.Avlt.Balance` | src/avltree.c:140-171 | from a tree loose at one place the loop terminates with a balanced tree with exact stored heights and the same contents, and a correct root pointer |
| `AvlTree.Avlt.FindNext` | src/avltree.c:278-289 | the node found has no left child and nothing of the right subtree precedes it |
| `AvlTree.Avlt.FindPrev` | src/avltree.c:292-303 | the mirror image |
| `AvlTree.Avlt.Victim` | src/avltree.c:319-343 | with two children the pairs are exchanged with a neighbour in key order; without the node then chosen the contents are exactly the other pairs |
| `AvlTree.Avlt.Detach` | src/avltree.c:347-372 | unlinking a node with at most one child leaves exactly the other links |
| `AvlTree.Avlt.Unlink` | src/avltree.c:345-373 | unlinking and rebalancing gives a valid AVL tree holding exactly the other pairs |
| `AvlTree.Avlt.RemovePure` | src/avltree.c:306-385 | dropping the found pair from the sorted contents removes exactly its key from the map |
| `AvlTree.Avlt.Remove` | src/avltree.c:306-385 | from any valid AVL search tree: a valid AVL search tree with exact heights whose map lacks exactly the key; the value is handed out or freed, never both; always 0 |
| `AvlTree.Avlt.WalkSorted` | src/avltree.c:473-480 | visits the map in strictly ascending key order and returns its size |
| `LinkedList.List.PopEntry` | src/linklist.c:236-260 | the last entry leaves, detached; the rest stays linked both ways and the cursor stays correct |
| `LinkedList.List.PushEntry` | src/linklist.c:266-288 | the entry is last, knows its list, and the cursor stays correct |
| `LinkedList.List.ShiftEntry` | src/linklist.c:294-320 | the first entry leaves, detached; the cursor position moves down with its entry |
| `LinkedList.List.UnshiftEntry` | src/linklist.c:327-351 | the entry is first; the cursor position moves up with its entry |
| `LinkedList.List.InsertEntry` | src/linklist.c:357-401 | the entry is at the position; positions beyond the end are filled with NULL values first |
| `LinkedList.List.PickEntry` | src/linklist.c:407-457 | the entry at the position whichever of the four walks is taken, and it becomes the cursor; null exactly beyond the end |
| `LinkedList.List.FetchEntry` | src/linklist.c:464-474 | exactly the entry at the position leaves, from any position |
| `LinkedList.List.MoveEntry` | src/linklist.c:476-496 | the sequence operation "take out, put in" for positions in range, with padding beyond the end, and -1 without change for a missing source |
| `LinkedList.List.SwapEntries` | src/linklist.c:499-523 | exactly the two positions are exchanged, entries and values; -1 exactly for equal positions |
| `LinkedList.SwapSteps` | src/linklist.c:504-516 | moving hi to lo and then lo + 1 to hi exchanges the two, for every sequence |
| `LinkedList.List.RemoveEntry` | src/linklist.c:547-582 | exactly the entry leaves; the list is well formed afterwards if and only if the call was not for position 0 of a list with one entry |
| `ListSort.SwapValues` | src/linklist.c:1027-1034 | exactly the two values change places |
| `ListSort.MoveBefore` | src/linklist.c:1065-1087 | the relinking is the sequence operation "entry i2 to position ip", with head and tail following |
| `ListSort.MoveAfter` | src/linklist.c:1098-1120 | the relinking is the sequence operation "entry i1 to position ip", with head and tail following |
| `ListSort.PartitionRound` | src/linklist.c:1062-1137 | each of the three cases keeps the partition invariant, permutes entries and values of the segment only, and shrinks the unscanned part |
| `ListSort.Partition` | src/linklist.c:1051-1139 | the loop terminates with values not below the pivot before it and not above it behind it, as a permutation of the segment |
| `ListSort.Assemble` | src/linklist.c:1158-1162 | sorting both sides of a partitioned segment sorts the segment |
| `ListSort.QuickSort` | src/linklist.c:1037-1163 | terminates; the segment is in comparator order, entries and values are permuted within the segment only, the list stays linked both ways |
| `ListSort.Sort` | src/linklist.c:1166-1174 | a permutation in which the comparator is >= 0 for every earlier/later pair, in a well-formed list, with the cursor dropped |
| `ListSort.SortBuilt` | src/linklist.c:1166-1174 | so for every list built by push and unshift, from the values pushed |
| `HtStatus.AdvanceLocal` | src/hashtable.c:297-336 | the effect of every branch of the protocol on the status word, seen from one thread |
| `HtStatus.StepSafe` | src/hashtable.c:289-391 | one atomic step of one thread keeps exclusion and the balance of what each thread did to the word |
| `HtStatus.RunSafe` | src/hashtable.c:289-391 | in every run: below IDLE there is exactly one exclusive holder, of the kind the status names, and no active reader; otherwise there is none and the status is IDLE plus the number of active readers |
| `HtStatus.ExclusiveAlone` | src/hashtable.c:156-185 | inside an exclusive window no other thread is in any window, and the CAS that ends it succeeds (also src/hashtable.c:282, 375, 383) |
| `HtStatus.OutsideBalanced` | src/hashtable.c:328-336 | a thread outside has lowered the status exactly as often as it raised it, however often its CAS failed; with all threads outside the status is IDLE |
| `HtStatus.AcquireDecides` | src/hashtable.c:356-383 | an idle word admits an exclusive holder and takes its code; any other word is left alone, growing gives up and the others stay; the release makes the word idle (also src/hashtable.c:156, 185, 203, 282) |
| `HtStatus.HolderReachable` | src/hashtable.c:356-383 | every kind of holder is reachable from an idle table in two steps and leaves an idle table in a third |
| `HtStatus.ReaderGetsIn` | src/hashtable.c:298-320 | with no exclusive holder, a reader left alone is in its window within five steps wherever it was on its way in, and the word is one higher |
| `HtStatus.ReaderGetsOut` | src/hashtable.c:328-336 | a reader left alone leaves its window within four steps, whatever it took the word to be, and the word is one lower |
| `HtStatus.ReaderWaits` | src/hashtable.c:298-320 | while there is an exclusive holder a reader on its way in stays out and leaves the word alone, for any number of steps |
| `HtStatus.SafeIffCountable` | src/hashtable.c:51-58 | exclusion holds in all runs of n threads if and only if the word can count them, for every width of the word (src/hashtable.c:12-16 packs it into a byte) |
| `HashTable.Table.constructor` | src/hashtable.c:115-145 | an empty table of at least HT_SIZE_MIN slots |
| `HashTable.LookupDecides` | src/hashtable.c:420-430 | searching the bucket of the hash decides membership in the map |
| `HashTable.Table.FindItem` | src/hashtable.c:420-430 | the first item with the key, if there is one |
| `HashTable.Table.CreateBucket` | src/hashtable.c:342-391 | a new bucket list is registered once and changes nothing stored |
| `HashTable.Table.Set` | src/hashtable.c:394-522 | -1 and no change for an empty key, 1 and no change for "if not exists" on a present key, else 0 and the key holds the new data; the previous value returned or freed once; unique keys, exact count; the table grows exactly if the new count exceeds 4/3 of the size and the maximum allows it |
| `HashTable.Table.MoveBucket` | src/hashtable.c:244-274 | the inner loop moves exactly the pairs of one old bucket |
| `HashTable.Table.Grow` | src/hashtable.c:198-287 | twice the size, at most the maximum; every pair in the bucket of its hash again, no lookup changed |
| `HashTable.Table.Get` | src/hashtable.c:573-613 | the value the map holds for the key, none exactly for an absent key |
| `HashTable.Table.Exists` | src/hashtable.c:782-785 | true exactly for present keys |
| `HashTable.Table.Delete` | src/hashtable.c:702-724 | removes exactly the key, if present and if an expected value matches; -1 and no change otherwise; the value returned or freed once |
| `HashTable.Table.Clear` | src/hashtable.c:154-186 | empty table, count 0, and the value of every key given up exactly once |
| `HashTable.LastWrite` | src/hashtable.c:394-522 | in every run a key holds the data of the last call that decided it, if that was a set, nothing if it was a deletion or a clear, and what it held before if no call did |
| `HashTable.Table.Replay` | src/hashtable.c:394-522 | any run of set, delete and clear leaves what the same run leaves of a plain map |
| `RQueue.Queue.constructor` | src/rqueue.c:192-262 | a closed ring of size + 1 pages (size at least 2), one reader page outside it, the flag only before head |
| `RQueue.SwapIn` | src/rqueue.c:335-367 | the reader page takes the place of the head page in the ring and the next page becomes head, flag included |
| `RQueue.AdvanceFlag` | src/rqueue.c:554-566 | the head advance of an overwriting write moves the flag one page on |
| `RQueue.UpdateValue` | src/rqueue.c:425-435 | the page holds the new value and the replaced one is handed back |
| `RQueue.Queue.NeverSkips` | src/rqueue.c:488-491 | commit equals the tail only if the tail is the head, so the branch that skips a page never fires |
| `RQueue.Queue.FullFlag` | src/rqueue.c:520-521 | the flag is on the tail's next pointer exactly when the queue holds size values |
| `RQueue.Queue.Read` | src/rqueue.c:294-423 | the oldest value, NULL exactly when empty; ring, flag and conservation kept |
| `RQueue.Queue.Write` | src/rqueue.c:437-638 | appended if there is room; full and blocking: -2 and nothing changes; full and overwriting: only the oldest value is dropped; replaced values freed once |
| `RQueue.Queue.Destroy` | src/rqueue.c:272-292 | afterwards every accepted value was returned by one read or freed once |
| `RQueue.AccountMeaning` | src/rqueue.c:425-435 | the conservation invariant kept by every call: accepted values = returned + dropped + held, as multisets |
| `RQueue.Queue.Replay` | src/rqueue.c:192-638 | any run of reads, writes and mode switches computes what a bounded FIFO computes |
| `RQueue.FifoOrder` | src/rqueue.c:192-638 | in every run the queue holds the values accepted last, and the values read are earlier ones, in order, each at most once |
| `RQueue.BlockingLosesNothing` | src/rqueue.c:437-638 | in blocking mode accepted = returned + held, as sequences |
| `BinHeap.RootPrecedes` | src/binheap.c:23-27 | the root of a heap-ordered tree precedes all its keys |
| `BinHeap.JoinFacts` | src/binheap.c:425-431 | linking under the root with precedence keeps heap order and contents |
| `BinHeap.BinomialSize` | src/binheap.c:397-407 | a tree whose child i is binomial of order i has 2^order nodes |
| `BinHeap.BinaryForm` | src/binheap.c:410-448 | with increasing orders, a root of order n exists exactly if bit n of the total is set |
| `BinHeap.Heap.MaxMin` | src/binheap.c:231-254 | the last maximal root of a MAX heap, the first minimal root of a MIN heap |
| `BinHeap.Heap.Carry` | src/binheap.c:423-436 | exactly the leading trees of orders 0, 1, ..., k - 1 are taken in, one after the other |
| `BinHeap.Folded` | src/binheap.c:423-436 | what that makes of the list of roots: heap order, contents, size and the binary counter |
| `BinHeap.Heap.Insert` | src/binheap.c:410-448 | heap order, exact multiset and count, extremal head; the new tree comes first and the trees it did not take in stay; strictly increasing binomial orders are kept |
| `BinHeap.Heap.BinaryCount` | src/binheap.c:410-448 | while the trees are binomial with increasing orders, the sum of 2^order is count, and a root of order n exists exactly if bit n of count is set |
| `BinHeap.Heap.InsertAll` | src/binheap.c:410-448 | after any run of insertions the root list is the binary form of count |
| `BinHeap.Heap.FindChild` | src/binheap.c:142-174 | the last extremal child |
| `BinHeap.Heap.Promote` | src/binheap.c:333-358 | the last extremal child, with its siblings as further children in their order, is heap-ordered and holds exactly the children's contents |
| `BinHeap.Heap.DeleteExtremum` | src/binheap.c:537-568 | removes one entry whose key compares >= (MAX) or <= (MIN) to all others; heap order, multiset, count and extremal head kept, the other roots in place; -1 exactly when empty |
| `BinHeap.Heap.Drain` | src/binheap.c:381-395 | everything comes out once, in descending (MAX) or ascending (MIN) order |
| `HeapMerge.NextSmaller` | src/binheap.c:595-704 | every iteration leaves fewer trees to deal with |
| `HeapMerge.CarryGoes` | src/binheap.c:597-653 | which tree takes the carry in, which is given out, and when the carry itself is |
| `HeapMerge.NextTally` | src/binheap.c:595-704 | no iteration loses or duplicates an entry, in any carry, swap or match case |
| `HeapMerge.NextSound` | src/binheap.c:595-704 | an iteration keeps heap order if and only if the guard of the failing branch is false; a broken tree stays broken |
| `HeapMerge.MergeExact` | src/binheap.c:578-719 | the merged list is heap-ordered if and only if both lists are and no iteration slips; in MAX mode none does |
| `HeapMerge.MergedRising` | src/binheap.c:578-719 | two lists with increasing root orders merge into one whose root orders never decrease, in either mode and whatever the keys |
| `HeapMerge.MergedIncreasing` | src/binheap.c:578-719 | they increase strictly if and only if no iteration gives out a root whose successor in its list has the same order |
| `HeapMerge.SingleTreeMerges` | src/binheap.c:578-719 | in either mode a heap with at most one tree merges correctly |
| `HeapMerge.MergeTrees` | src/binheap.c:590-704 | the loop terminates with the list and the remainders the step function leads to |
| `HeapMerge.Merge` | src/binheap.c:578-719 | null for different modes; otherwise the union of both multisets, the sum of both counts, and heap order under the first heap's callback exactly when the second heap has it and no iteration slips; root orders never decrease if those of both heaps increase |
| `MergeOrders.NextFollows` | src/binheap.c:595-704 | until two roots of one order meet with a carry in hand, the orders after an iteration depend on the orders before it alone |
| `MergeOrders.OrdersSuffice` | src/binheap.c:578-719 | without such a meeting, decided on the two sequences of root orders, the merged list is heap-ordered in either mode whatever the keys |
| `MergeOrders.OrdersDecide` | src/binheap.c:578-719 | without such a meeting the orders of the merged roots are a function of the two sequences |
| `MergeOrders.IncreasingOrders` | src/binheap.c:410-448 | strictly increasing root orders are the bits of the total weight |
| `MergeOrders.CountsSuffice` | src/binheap.c:578-719 | for heaps built by insertion the condition is one on the two counts |
| `MergeOrders.CountsDecide` | src/binheap.c:578-719 | for heaps built by insertion the merged root orders are a function of the two counts |
| `MergeOrders.NotBinary` | src/binheap.c:578-719 | one node and seven nodes merge into two roots of order 2 |
| `MergeOrders.MinMergeFails` | src/binheap.c:676-684 | any two binomial MIN forests of 15 nodes with one root key and 21 nodes with a larger one merge into a list that is not heap-ordered |
| `MergeOrders.InsertedMergeFails` | src/binheap.c:578-719 | the same from the calls: 15 and 21 insertions and one merge |
| `RefCntProtocol.AccessInv` | src/refcnt.c:125-149 | every atomic access keeps: updating is set by one owning thread or by the node being out of use, never both |
| `RefCntProtocol.QueuedAtMostOnce` | src/refcnt.c:88-149 | in every interleaving the node reaches the free list at most once between two returns of new_node, no thread can queue a queued node, and the CAS that takes updating back succeeds |
| `RefCntProtocol.DecidedByCount` | src/refcnt.c:135-145 | in every run a thread about to queue the node has read a count of 0 since it set updating, and a thread about to take updating back has read another count |
| `RefCntProtocol.ReleaseAlone` | src/refcnt.c:125-149 | a release nobody interrupts lowers the count by one, not below 0, and queues an unmarked node exactly if the count is 0 then; nothing else changes |
| `RefCntProtocol.RetainAlone` | src/refcnt.c:88-108 | a retain nobody interrupts raises the count by one, unless the node is marked with count 0 |
| `RefCntProtocol.Recycled` | src/refcnt.c:190-204 | a queued node comes back through collector, pool and new_node with count 1 and unmarked; a node in use is left alone |
| `RefCntProtocol.LostForGood` | src/refcnt.c:73-74 | a node that found the free list or the pool full never comes back |
| `RefCntProtocol.SwapCounts` | src/refcnt.c:152-164 | compare_and_swap_ref moves the counts by one each way |
| `RefCnt.CapacityExact` | src/refcnt.c:47-50 | the free list can hold threshold + 1 nodes if and only if threshold + threshold / 2 < 2^31 |
| `RefCnt.NeverLosesExact` | src/refcnt.c:47-50 | no run of terminations overflows the free list if and only if that sum does not overflow |
| `RefCnt.Context.NeverFull` | src/refcnt.c:125-149 | under that condition no terminated node is lost, and between calls the free list stays within the threshold |
| `RefCnt.Context.Gc` | src/refcnt.c:58-76 | exactly the oldest nodes beyond the limit are collected, in order, each pointer released once; as many of them as fit join the pool, in order; no node waits twice |
| `RefCnt.Context.ReleaseRef` | src/refcnt.c:124-149 | terminated exactly if the node was unmarked and its count reaches 0; the free list is a FIFO of terminated nodes, and what is collected from it joins the pool in order |
| `RefCnt.Context.NewNode` | src/refcnt.c:189-204 | the oldest pooled node or a new one, reset, and waiting nowhere afterwards |
| `RingBuf.Rbuf.constructor` | src/rbuf.c:20-39 | an empty blocking buffer, of 4096 bytes for size 0 |
| `RingBuf.Rbuf.OffsetsAgree` | src/rbuf.c:54-132 | (rfx + used) mod size = wfx mod size in every valid state |
| `RingBuf.Rbuf.Skip` | src/rbuf.c:53-67 | drops exactly the oldest bytes |
| `RingBuf.Rbuf.Read` | src/rbuf.c:69-84 | returns and drops exactly the oldest bytes, across the wrap |
| `RingBuf.Rbuf.Store` | src/rbuf.c:118-131 | the one or two block copies append exactly the input |
| `RingBuf.Rbuf.Write` | src/rbuf.c:86-132 | blocking: appends what fits and says how much; overwriting: the last size bytes of old contents followed by input, and all input counts as written |
| `RingBuf.Rbuf.Clear` | src/rbuf.c:149-153 | empties the buffer |
| `RingBuf.Rbuf.Replay` | src/rbuf.c:54-132 | any run of write, read, skip, clear and mode switches computes what a byte queue computes |
| `RingBuf.BlockingReadsBack` | src/rbuf.c:69-132 | a run of blocking writes and reads reads back exactly the accepted bytes, in order |

## Left out

- LinkedList.List.SwapEntries: only for positions in range; the source dereferences a missing entry otherwise.
- LinkedList.List.PickEntry: list lengths and positions are unbounded; the `int` and `unsigned int` counters of the source are not modelled.
- ListSort.Sort: only for lists whose entries know their list, that is entries that came in by push or unshift.
- LinkedTree.SortedWalk: callbacks that stop the walk or delete the visited node are not modelled.
- RbTree.Rbt.WalkSorted: only the callback that always continues.
- AvlTree.Avlt.WalkSorted: only the callback that always continues.
- BinHeap.Heap.Insert: trees are values in a list of roots and `head` is an index into it; children arrays, parent pointers and node identity are not modelled.
- HeapMerge.Merge: merging a heap with itself is not covered, where both shifts take from one list and the count doubles; operations on a merged heap are not covered, since its nodes keep their old heap pointers and its head is unset.
- HashTable.Table.Set: bucket lists are sequences and slots a sequence; list entries as heap objects are not modelled, nor data lengths and `ht_set_copy`.
- HashTable.Table.Delete: an expected value is compared as a whole, its length included.
- RefCnt.Context.ReleaseRef: free list and pool are bounded sequences instead of `RQueue` objects, the terminate callback is a no-op, and link marks of deref_link are ignored.
- RefCntProtocol.QueuedAtMostOnce: whether a queue accepts a write, and when collector and allocator run, are arbitrary choices of the environment.
- RQueue.Queue.Write: calls are atomic, so the retry branches that only a concurrent change can reach are absent; back-off, statistics and memory ordering are left out.
- `rbt_remove` and the deleting walk: the leaf and two-child cases neither repaint nor update the root, so there is no balance claim to prove.
- `avlt_add`: its splice branches do not keep search order in general; the AVL results start from any valid tree.
- Opposite extremum, deletion by key and key changes in the heap: greedy descent without sift-down.
- `ht_unset`, iteration over the table, and linearizability of its contents under concurrency.
- `slice_foreach_value` with removal, tagged values and slices of the list.
- `rbuf_find`, `rbuf_read_until`, `rbuf_copy`, `rbuf_move`.
- src/skiplist.c, src/pqueue.c, src/queue.c, src/fbuf.c, src/trie.c, src/graph.c.
- Mutexes and spinlocks, allocation failure, debug printers, concrete comparators and default key arithmetic.
