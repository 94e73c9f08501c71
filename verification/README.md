# Radix tree, IDR allocator and HotRing, verified

Two data structures of the repository, modelled in Dafny and proved correct: the reference radix tree with its tags,
iterators, IDR allocator and lockless lookup (`radix_tree/radix-tree-ref.c`, `radix_tree/lib-radix-tree.h`), and the
HotRing hash table (`hotring/`). `dafny verify dfyconfig.toml` checks the whole project.

## How the radix tree is modelled

* `Words` - shifts, masks and 64-bit wrap-around. All shifts are multiples of 6, so `>>` is repeated division by 64 and
  wrap-around is written out with `% WORD`.
* `TreeHeap` - a tree as a value: a map from nodes to records, with what it means for pointers (`Shape`), contents
  (`MapOk`) and counters (`CountOk`) to be right. A record's `prefix` is ghost information: node n covers exactly the
  indices k with `k >> (n.shift + 6) == n.prefix`.
* `TreeSteps`, `TreeTags` - what one group of pointer stores or one bit does to that value, and that it keeps the
  invariant. The sequential code and the lockless protocol both take these steps.
* `Canonical` - what the tag bits mean, and that a minimal tree is a function of its contents and marks.
* `RadixTree` - classes `Node`, `Root` and `Preload`, updated in place. The ghost fields `t`, `M` and `K` of a root are its
  tree, its contents as a map, and the set of indices each tag marks. `Root.Ok` ties the fields to `t` and says that `t`
  is right for `M` and `K`; `Root.Valid` adds that it is minimal: no empty node, no root whose only child is in slot 0.
  An insertion that runs out of memory leaves a root that is `Ok` and perhaps not minimal; lookups, iteration, gang
  lookups and allocation ask for `Ok` only.
* The ghost field `freed` of a root records the nodes passed to `radix_tree_node_free`. `Root.Ok` says that no node of the
  tree is among them, and the function `Root.At` requires that a node is not. The iterator, the deletion itself and
  `idr_destroy` load every field of a node through `At`.
* The ghost fields `made` and `failures` of a `Preload` count the nodes it has given out and the allocations that have
  failed, so that a method can say that -ENOMEM stands for a failed allocation, and for nothing else.
* `Iter`, `Iteration` - the iterator, the chunk search, next-slot, gang lookups, deletion while iterating.
* `Idr` - `idr_get_free` and an allocation; `IdrRuns` - any sequence of allocations and removals; `Destroy` - `idr_destroy`
  and the walk that frees all nodes.
* `Histories` - sequences of operations on a root, and that two which come to the same map and marks leave the same tree.
* `Lockless` - one writer, any number of readers and a reclaimer as a transition system. Every pointer store of the
  writer and every pointer load of a reader is one step; node memory stays readable after the node left the tree, until
  it is reclaimed; `hist` is the list of the contents at each moment. `LocklessGang` adds a gang lookup that runs under
  the read lock of one of the readers, with one step for each load. `LocklessShape` says what shape the writer leaves,
  and `LocklessRuns` what the operations come to, among other steps and alone.

## How HotRing is modelled

* `RingOrder` - rotations of sorted sequences, which is what a bucket looks like from its head.
* `RingHeap`, `RingSplit` - nodes as a map from node to fields, rings as sequences from the head, and what insertion,
  removal of the head, and the cut of a rehash do to them.
* `HotRing` - classes `HashNode` and `Table` with search, insertion and removal of the head. The ghost fields `mem` and
  `rings` are the nodes' fields and the rings. The access counters are fields beside them, with the widths the code gives
  them: 14 bits in a node, 15 bits at a head. A head's counter and active bit share a word with its link, so a store to
  the link clears them.
* `HotDelete` - `hotring_delete`; `HotRehash` - `hotring_rehash`; `HotShift` - `do_hotspot_shift` over `real`, with the
  infinity and the NaN of a division by 0, against sums of integers; `HotServe` - `hash_get`, with the shift and the rehash it leads to.

## Where the code does not do what its users expect

* `radix_tree_iter_delete` restarts the iteration: when it empties the block of the last 64 indices, `index` and
  `next_index` both become 0, which is the state for a walk from 0 (radix_tree/radix-tree-ref.c:1403-1408 with
  1182-1184). `DeleteChosen` states the complete behaviour, `VisitsOnce` says when every entry is visited once, from what
  the tree held before the walk, and `MetTwice` gives the least example that fails.
* `hotring_rehash` stores through a NULL pointer when the head of a bucket has a key that is a multiple of
  2^(n-k-1), because `__hash_get` then finds that head in place of the milestone and reports no predecessor
  (hotring/hotring.c:507-512). `Rehash` returns false exactly then; other stored keys may be such multiples.
  `FaultsOnKeyZero` is the least example: a table that holds key 0 alone. `NbitsNeeded` adds that the new table, made for
  32 bits, looks for every key where its ring was put only if the old one was made for 32 bits.
* `hotring_delete` of a head drops its whole bucket (hotring/hotring.c:440-444). `Delete` states both cases,
  `RemovesOne` says when exactly one node goes, and `LosesNeighbour` deletes key 1 and no longer finds key 2.
* `do_hotspot_shift` loses the bucket when the head's counter is 0, because then every income is NaN, or when no income is
  below the start value 10^9 of the search and the head's is not equal to it (hotring/hotring.c:590-621). `Shift` returns
  `lost` exactly then. `WrapsToZero` is an input of the first kind: 32767 requests for the head's key and one for another
  key of the bucket, with which the 15 bits of the counter wrap. `FreshRingIsHopeless` gives inputs of the second kind
  within the code's limits: from 63246 to 100000 inserted nodes and one counted request. `CountedIsHopeful` shows that
  it cannot happen when the head has counted and the nodes have counted no more than the head; fresh rings are not of
  that kind, because an insertion sets the counter of a node to 1 and counts nothing at the head
  (hotring/hotring.c:232-300).

## Model

| member | source | states |
|---|---|---|
| Words.MaxIndexIsCover | radix_tree/radix-tree-ref.c:220-228 | an index is at most the wrapping maximum index of a root exactly when the root covers it, also at shift 60, where 64 << 60 wraps to 0 |
| Words.NextIndexWraps | radix_tree/radix-tree-ref.c:230-234 | next_index is the first index of the next slot, modulo 2^64 |
| TreeHeap.Unique | radix_tree/radix-tree-ref.c:241-297 | shift and position identify a node: no two live nodes cover the same indices at the same level |
| TreeHeap.PathInternal | radix_tree/radix-tree-ref.c:756-788 | every node above a node, towards an index it covers, leads on by an internal entry |
| TreeSteps.AddChildBase | radix_tree/radix-tree-ref.c:629-647 | a new empty child keeps shape, contents and counters |
| TreeSteps.GrowBase | radix_tree/radix-tree-ref.c:429-468 | a new root above the old one keeps shape, contents and counters |
| TreeSteps.StoreBase | radix_tree/radix-tree-ref.c:690-704 | a store to an empty leaf slot binds exactly that index and keeps both counters exact |
| TreeSteps.EraseBase | radix_tree/radix-tree-ref.c:832-841 | NULL over a leaf slot unbinds exactly that index and keeps both counters exact |
| TreeSteps.UnlinkBase | radix_tree/radix-tree-ref.c:567-586 | taking out a node whose count is 0 changes no contents |
| TreeSteps.LowerBase | radix_tree/radix-tree-ref.c:482-546 | replacing the root by its only child in slot 0 changes no contents |
| TreeTags.GrowTags | radix_tree/radix-tree-ref.c:436-452 | the tags a new root gets keep every tag bit and root tag right, for an ordinary tree and for an IDR, whose unused slots are free |
| TreeTags.ClearStep | radix_tree/radix-tree-ref.c:1003-1021 | one round of clearing upwards: all bits are right except the one the next round looks at |
| TreeTags.SetStep | radix_tree/radix-tree-ref.c:946-960 | one round of setting upwards: all bits are right except the one the next round looks at |
| TreeTags.LowerTags | radix_tree/radix-tree-ref.c:507-546 | lowering the root keeps all tags right, and for an IDR clears the root tag if slot 0 holds no free id |
| Canonical.BitMeaning | radix_tree/radix-tree-ref.c:946-1115 | a tag bit of any slot of any node is set exactly when some tagged index lies below the slot |
| Canonical.RootTagMeaning | radix_tree/radix-tree-ref.c:1465-1468 | a root tag is set exactly when some item carries the tag |
| Canonical.LeastHeight | radix_tree/radix-tree-ref.c:477-546 | the height of a minimal tree is the least that holds its largest key |
| Canonical.CanonicalShape | radix_tree/radix-tree-ref.c:477-589 | a minimal tree, with all counters and tag bits, is a function of its contents and marks alone |
| Canonical.HistoryIndependence | radix_tree/radix-tree-ref.c:477-589 | two minimal trees with the same map and the same marks are structurally identical, with all counters and tag bits |
| Histories.Replay | radix_tree/radix-tree-ref.c:712-739 | any legal sequence of insertions, deletions, tag-sets and tag-clears does to map and marks what it would do to a plain map, and leaves a minimal tree; it stops early exactly when an allocation of a preload fails |
| Histories.HeldIsLastBound | radix_tree/radix-tree-ref.c:712-1443 | at the end of a sequence on an empty tree, an index holds an entry exactly if an insertion that was not refused bound it and no deletion after it matched |
| Histories.MarkedIsLastSet | radix_tree/radix-tree-ref.c:975-1059 | and it carries a tag exactly if the tag was set there and neither a tag-clear nor a deletion of the index came after it |
| Histories.SameEnd | radix_tree/radix-tree-ref.c:477-739 | two such sequences on empty trees that come to the same map and marks leave structurally identical trees |
| Histories.SwapNeighbours | radix_tree/radix-tree-ref.c:712-1059 | two neighbouring operations on different indices may be swapped anywhere in a sequence without changing its end |
| RadixTree.Preload.Fill | radix_tree/radix-tree-ref.c:331-363 | 0 exactly when at least the asked number of nodes is in the pool; else -ENOMEM, because an allocation from the node cache failed, and the nodes got so far stay in the pool |
| RadixTree.Preload.Alloc | radix_tree/radix-tree-ref.c:241-297 | a non-blocking allocation fails only with an empty pool, takes at most one node from it, and is counted as a node given out or as a failure |
| RadixTree.Root.LoadRoot | radix_tree/radix-tree-ref.c:397-412 | the shift above the root, and the maximum index from the root node |
| RadixTree.Root.Extend | radix_tree/radix-tree-ref.c:417-471 | the tree covers the index afterwards, at the least such height and never above shift 60, with contents and tags as before; at most 11 nodes |
| RadixTree.Root.Create | radix_tree/radix-tree-ref.c:607-654 | the leaf slot of the index, the contents unchanged; -ENOMEM exactly when the allocation of a node failed in this call, and only if fewer than 21 nodes were preloaded; where the slot exists (its leaf does, or the index is 0 and the root is no node) no node is asked for and the pool stays as it is; otherwise at most 21 are, and the pool gives no more than those |
| RadixTree.Root.InsertEntries | radix_tree/radix-tree-ref.c:690-739 | -EEXIST exactly for a present index and then nothing changes; otherwise the index is bound, and the slot carries no tags (the BUG_ON checks never fire) |
| RadixTree.Root.Insert | radix_tree/radix-tree-ref.c:712-739 | insertion is map insertion; -EEXIST exactly when present and then the tree is unchanged; -ENOMEM exactly when the allocation of a node failed in this call, so never with 21 preloaded nodes and never where the slot of the index exists; a minimal tree stays minimal |
| RadixTree.Root.Lookup | radix_tree/radix-tree-ref.c:756-788 | lookup is map lookup |
| RadixTree.Root.NodeTagSet | radix_tree/radix-tree-ref.c:946-960 | marks exactly one index with the tag and keeps every summary bit exact |
| RadixTree.Root.NodeTagClear | radix_tree/radix-tree-ref.c:1003-1021 | unmarks exactly one index and keeps every summary bit exact |
| RadixTree.Root.TagSet | radix_tree/radix-tree-ref.c:975-1001 | tagging a present index marks exactly it, keeps all summaries exact and everything but tags unchanged; a minimal tree stays minimal |
| RadixTree.Root.TagClear | radix_tree/radix-tree-ref.c:1037-1059 | untagging unmarks exactly the index, returns its entry, and does nothing for an absent one; a minimal tree stays minimal |
| RadixTree.Root.TagGet | radix_tree/radix-tree-ref.c:1089-1117 | the answer read off one bit a level is exact: the index carries the tag |
| RadixTree.Root.Shrink | radix_tree/radix-tree-ref.c:477-550 | afterwards the root is minimal, contents and marks are as before, and it reports whether the root node went |
| RadixTree.Root.DeleteNode | radix_tree/radix-tree-ref.c:552-589 | empty nodes go, contents and marks stay, a tree minimal up to this node is minimal, and it reports whether the node went; the nodes that leave the tree are exactly those freed |
| RadixTree.Root.DeleteAt | radix_tree/radix-tree-ref.c:1373-1389 | unbinds and untags exactly one index and restores minimality |
| RadixTree.Root.DeleteItem | radix_tree/radix-tree-ref.c:1422-1443 | deletes exactly a present entry that matches, and returns it; otherwise returns NULL and changes nothing |
| Iter.NextBit | radix_tree/radix-tree-ref.c:188-210 | the least set bit from an offset on, or 64 |
| Iter.TagScan | radix_tree/lib-radix-tree.h:406-422 | the lowest bit of the shifted tag word leads to the next set bit, with none between |
| Iter.NoneAhead | radix_tree/lib-radix-tree.h:406-422 | a shifted tag word of 0 means no bit is set from there on |
| Iteration.NextChunk | radix_tree/radix-tree-ref.c:1163-1247 | in any tree, minimal or not: finds the least index sought from next_index on (with CONTIG, next_index itself), describes its chunk, and finds nothing exactly when there is none up to 2^64 or the walk has wrapped |
| Iteration.NextSlot | radix_tree/lib-radix-tree.h:423-442 | the next present index of the chunk with none between; with CONTIG, the neighbour or the end |
| Iteration.NextTagged | radix_tree/lib-radix-tree.h:406-422 | the next tagged index of the chunk with none between |
| Iteration.GangLookup | radix_tree/radix-tree-ref.c:1271-1335 | plain and tagged gang lookup return exactly the first max sought entries from the start on, ascending, each once; fewer than max means there are no more; both loops end |
| Iteration.IterDelete | radix_tree/radix-tree-ref.c:1403-1408 | deletes the current entry; if the leaf is freed the iterator leaves the chunk, else it still stands in it; which one, and the return to the start state when the last 64 indices are now empty, are stated from the contents |
| Iteration.DeleteChosen | radix_tree/radix-tree-ref.c:1403-1408 | a walk that deletes a chosen set visits each entry from the start on once, ascending, and leaves exactly the others; if it empties the last block it goes round once more from 0 over what is left; the nodes that leave the tree are exactly those freed, and every load from a node, by the iterator or by the deletion, goes through Root.At, which requires that it has not been freed |
| Iteration.VisitsOnce | radix_tree/lib-radix-tree.h:403-443 | every entry is visited exactly once if and only if the walk does not empty the last block, that is, an entry there stays or none was there, or it deletes all there is |
| Iteration.MetTwice | radix_tree/radix-tree-ref.c:1182-1184 | with entries 0 and 2^64 - 1, deleting the latter in a walk from 0 visits entry 0 twice |
| Iteration.ContiguousRun | radix_tree/lib-radix-tree.h:424-437 | contiguous iteration visits exactly the unbroken run from the start, across chunks, and nothing when the start is absent |
| Iteration.IterLookup | radix_tree/lib-radix-tree.h:310-316 | succeeds exactly on present indices |
| Idr.NextFree | radix_tree/radix-tree-ref.c:1528-1533 | the next slot with IDR_FREE set; every id skipped is taken |
| Idr.GetFree | radix_tree/radix-tree-ref.c:1485-1555 | the slot of the least free id from the start to max; -ENOSPC exactly when there is none, with the tree unchanged; -ENOMEM exactly when the allocation of a node failed in this call, and never if the leaf of the least free id exists; contents and free marks unchanged |
| Idr.Describe | radix_tree/radix-tree-ref.c:1546-1552 | the iterator covers the rest of the leaf up to max, and its tags are exactly the free ids there |
| Idr.Replace | radix_tree/radix-tree-ref.c:859-944 | the replacement stores the pointer, which may be NULL, and keeps count and nr_values exact; its delete_node changes nothing |
| Idr.NodeStays | radix_tree/radix-tree-ref.c:552-589 | at a leaf of an allocator that counts something, delete_node finds the node not empty and the root not to be shrunk, so it changes nothing |
| Idr.Alloc | radix_tree/radix-tree-ref.c:1485-1555 | get_free, iter_replace and iter_tag_clear together bind exactly the least free id, even to NULL; -ENOMEM exactly when the allocation of a node failed, and never if the leaf of that id exists; after -ENOSPC and -ENOMEM no id has changed, and in every case the tree stays low enough for the next call and has only old and fresh nodes |
| IdrRuns.Run | radix_tree/radix-tree-ref.c:1422-1555 | any sequence of allocations and removals, on an allocator in any state: every reply is right for the ids taken at that moment - the least free one, none left, or out of memory where there is one - and nothing else changes; out of memory is replied as often as the allocation of a node fails, so never if none does |
| IdrRuns.NoSharing | radix_tree/radix-tree-ref.c:1485-1555 | in such a run no id is given out twice unless it was removed in between |
| IdrRuns.RemovedIsStored | radix_tree/radix-tree-ref.c:1422-1443 | in such a run a removal returns the pointer that the last allocation of the id stored |
| IdrRuns.RemovedOnce | radix_tree/radix-tree-ref.c:1422-1443 | and a second removal without an allocation in between returns NULL |
| IdrRuns.CountsUp | radix_tree/ref-radix-tree/idr-test.c:93-95 | allocations from an empty allocator get 0, 1, 2 and so on |
| IdrRuns.ReusesRemoved | radix_tree/ref-radix-tree/idr-test.c:101-102 | an id removed is the next one given out to a request for which it is the least |
| Idr.FreeBitExact | radix_tree/radix-tree-ref.c:1068-1072 | in every reachable allocator the IDR_FREE bit of a slot is set exactly when some id below the slot is free |
| Idr.LowTree | radix_tree/radix-tree-ref.c:1485-1499 | ids below 2^60 keep the tree low enough for the next allocation |
| Destroy.FreeNodes | radix_tree/radix-tree-ref.c:665-688 | the walk over parent and offset fields frees every node exactly once, reads none after freeing it, and ends |
| Destroy.OverStep | radix_tree/radix-tree-ref.c:672-678 | behind a slot without a child, exactly the nodes that end before the walk are freed |
| Destroy.IdrDestroy | radix_tree/radix-tree-ref.c:1568-1575 | all nodes are freed and an empty, usable allocator is left |
| Lockless.Kept | radix_tree/radix-tree-ref.c:429-589 | every step of the writer, of a reader or of the reclaimer keeps the invariant of tree, detached nodes and readers |
| Lockless.SlotShows | radix_tree/radix-tree-ref.c:771-781 | what a reader loads, even from a node no longer in the tree: RETRY, an entry that was right at some moment since it started, or a node that was live at such a moment |
| Lockless.ContentsChange | radix_tree/radix-tree-ref.c:690-841 | only the entry store and the NULL store change the contents: an absent index gets bound, a present one unbound |
| Lockless.Linearizable | radix_tree/radix-tree-ref.c:756-788 | in every interleaving, a lookup that was begun for k returns what k held at some moment between that beginning and its return |
| Lockless.SteadyIsFound | radix_tree/radix-tree-ref.c:756-788 | an index bound to one entry throughout a lookup that was begun for it is found, one absent throughout is not |
| LocklessRuns.LookupAlone | radix_tree/radix-tree-ref.c:756-788 | in every state of every run, a new lookup of k that is left alone ends within 12 loads, returns what k holds, and leaves the state as it was |
| LocklessRuns.InsertionBinds | radix_tree/radix-tree-ref.c:607-739 | in every interleaving, an insertion begun with k and e binds k to e if k was absent when it began, is refused if k was present, and changes nothing else |
| LocklessRuns.InsertAlone | radix_tree/radix-tree-ref.c:607-739 | in every state between operations, an insertion that is left alone ends, as map insertion |
| LocklessRuns.DeleteAlone | radix_tree/radix-tree-ref.c:552-589 | and every present index can be deleted, which ends as map deletion |
| LocklessRuns.GoesInTheEnd | radix_tree/radix-tree-ref.c:299-320 | a freed node can be reclaimed as soon as no reader is left that started before it was freed |
| LocklessShape.TidyKept | radix_tree/radix-tree-ref.c:417-589 | every step keeps the shape the writer needs at that point of its program, and no node that has left the tree is forgotten |
| LocklessShape.IdleIsMinimal | radix_tree/radix-tree-ref.c:477-589 | in every run, whenever the writer is between operations no node is empty, the root has the least height for the largest key, and all nodes that have left the tree have been freed |
| Lockless.NoUseAfterFree | radix_tree/radix-tree-ref.c:299-320 | if memory is reclaimed only after the readers active when it was freed have finished, no reader ever loads from reclaimed memory |
| LocklessGang.ResultsWereThere | radix_tree/radix-tree-ref.c:1263-1294 | in every interleaving, the results of a gang lookup come in ascending order of their indices, and each is what its index held at some moment of the lookup, as a lookup of its own would have found |
| LocklessGang.PresentIsCollected | radix_tree/radix-tree-ref.c:1263-1294 | every index present throughout a finished gang lookup is among its results, unless they are full before it |
| LocklessGang.SteadyIsCollected | radix_tree/radix-tree-ref.c:1263-1294 | and if it held one entry throughout, that entry is the result |
| LocklessGang.GangAlone | radix_tree/radix-tree-ref.c:1263-1294 | in every state of every run, a gang lookup that is left alone ends, and its results are the entries of the first max indices present from the first one on, in ascending order |
| LocklessGang.GangReadsNoFreedNode | radix_tree/radix-tree-ref.c:1163-1247 | the node a gang lookup is about to load from has not been reclaimed, and its next load is always possible |
| LocklessGang.NodeKeeps | radix_tree/radix-tree-ref.c:1198-1234 | a load from a slot, with the skip of holes, the reload and the retry behind it, keeps what the lookup has settled: every index passed is among the results or was absent at some moment |
| Lockless.WriterProgress | radix_tree/radix-tree-ref.c:417-589 | the writer is never stuck within an operation |
| RingOrder.InsertKeeps | hotring/hotring.c:253-282 | a node put where the walk stops keeps the ring a rotation of its sorted order, from any head and with equal tags |
| RingOrder.PassedMeansAbsent | hotring/hotring.c:190-195 | when one of the three early exits fires, the key is nowhere on the ring |
| RingHeap.PutOk | hotring/hotring.c:232-300 | after an insertion every bucket is still one cycle in rotated order with keys of its own, and every node is on the ring of its bucket |
| RingHeap.BeheadOk | hotring/hotring.c:386-423 | after taking off a head likewise |
| RingSplit.SplitRing | hotring/hotring.c:507-512 | the two stores make two cycles of one: the nodes with keys below the middle milestone, and the others, each in order from its milestone |
| HotRing.HashCodeSplits | hotring/hotring.h:69-73 | a key below 2^n has a bucket of the table and is given back by bucket and tag, so within a bucket tag order is key order |
| HotRing.ListAdd | hotring/list.h:85-105 | the node goes between prev and its successor |
| HotRing.ListDel | hotring/list.h:130-134 | the entry is bypassed and poisoned |
| HotRing.InsertEntries | hotring/hotring.c:302-312 | -EEXIST and no change for a node in use, else key, tag and value are set |
| HotRing.Table.constructor | hotring/hotring.c:44-64 | an empty table is in order |
| HotRing.Table.Search | hotring/hotring.c:159-204 | from any head, a key is found exactly when it is on its ring; the node is the first with that key, prev is its predecessor, NULL exactly for the head |
| HotRing.Table.Get | hotring/hotring.c:159-204 | the search, which counts the request once at the head of the bucket, whether the key is found or not, and once at the node found, and counts nowhere else |
| HotRing.NodeWraps | hotring/list.h:56-65 | m finds of a node add m to its counter, modulo 2^14 |
| HotRing.HeadWraps | hotring/hotring.h:35-44 | m requests to a bucket add m to the counter of its head, modulo 2^15 |
| HotRing.Table.Place | hotring/hotring.c:253-282 | the walk by tags stops at the first place that fits, else at the end |
| HotRing.Table.Create | hotring/hotring.c:232-300 | one fresh node, whose counter is 1, is linked in behind the stop of the walk, or alone into an empty bucket, whose head starts with counter 0 and without the active bit; the other heads, and the counters of all other nodes, stay as they are |
| HotRing.Table.HashInsert | hotring/hotring.c:314-332 | adds exactly one node, to the ring of its bucket and not as its head; all other nodes keep key, tag and value; the table stays in order |
| HotRing.Table.DeleteHead | hotring/hotring.c:386-423 | the successor becomes the head and the old head is gone, or the bucket is empty if it was alone; the counter and the active bit of this head are cleared by the store, those of the others stay |
| HotDelete.Delete | hotring/hotring.c:427-449 | exactly a stored key is deleted and the table stays in order: a node behind the head is taken off its ring, but with the head its whole bucket is lost; the lookup counts at the head of the bucket and at no other |
| HotDelete.RemovesOne | hotring/hotring.c:427-449 | a deletion removes exactly the node it found if and only if the head has another key or is alone |
| HotDelete.LosesNeighbour | hotring/hotring.c:440-444 | of two keys of one bucket, after the deletion of the head's the other is not found |
| HotRehash.RehashInit | hotring/hotring.c:451-486 | every ring gets two milestones behind its head, and the new table an entry for each |
| HotRehash.SplitBucket | hotring/hotring.c:507-512 | a ring is split into two buckets of the new table exactly when its head's key is no multiple of the new bucket size |
| HotRehash.Rehash | hotring/hotring.c:492-526 | completes exactly when no head's key is a multiple of 2^(n-k-1); then the new table, with arrays of its own, is in order, holds exactly the old nodes with key, tag and value, and no milestone, and no head of it has counted a request |
| HotRehash.FaultsOnKeyZero | hotring/hotring.c:507-512 | the rehash of a table that holds key 0 alone does not come through |
| HotRehash.RingsAreHalves | hotring/hotring.c:492-526 | new ring j holds exactly the nodes of old ring j / 2 whose keys belong to bucket j |
| HotRehash.SameAnswers | hotring/hotring.c:492-526 | after a rehash every search decides as before, and with distinct keys finds the same node |
| HotRehash.NbitsNeeded | hotring/hotring.c:462 | the new table looks for every key in the slot its ring was put in exactly when the old table was made for 32 bits |
| HotShift.FindHottest | hotring/hotring.c:590-608 | with the work of a position as the sum of the nodes' counters times their distances, in integers, the search finds the first position of least work, whose income is that work divided by the head's count, and fails exactly when the head has counted 0, or no work is below 10^9 times that count and the head's is not equal to it |
| HotShift.Shift | hotring/hotring.c:561-633 | the bucket is lost exactly when the search fails, be it for a counter of 0; otherwise the head moves to the first position of least work and stays exactly when it is that position, ring, order and table are kept, and a rehash is asked for exactly when the head moved and the least work is above 5 for each request the head counted; in every case the counters of the nodes and of the head are 0 afterwards and the active bit is clear, and no other head changes |
| HotShift.CountedIsHopeful | hotring/hotring.c:590-608 | with a head that has counted at least 1, at most as many counted requests at the nodes, and at most 100000 nodes, the search cannot fail |
| HotShift.FreshRingIsHopeless | hotring/hotring.c:590-621 | with 63246 to 100000 nodes that have counted at least 1 each, and one request at the head, the search fails |
| HotShift.TurnBucket | hotring/hotring.c:610-621 | any node of a ring may become its head: the ring stays in order |
| HotShift.TurnTable | hotring/hotring.c:610-621 | and so does the table |
| HotServe.HotspotShift | hotring/hotring.c:635-651 | the shift and the rehash it may ask for come through exactly when the search finds a place and, if a rehash follows, no head, after the move, has a key that is a multiple of 2^(n-k-1); then the table is in order and holds the same nodes with the same data; it is the old one, with the head at the first position of least work and the counts of the bucket at 0, exactly when the head stays or that work is at most 5 a request, and otherwise one of twice the size |
| HotServe.HashGet | hotring/hotring.c:206-229 | a key is reported exactly when it is stored, with its node and the node before it; only a find behind the head, at the fifth request or later, shifts; the call faults exactly when that shift does, and otherwise resets the request counter and leaves what HotspotShift says; a request that does not shift leaves the rings and only counts |
| HotServe.Serve | hotring/hotring.c:206-229 | over a run of requests, two that shift are at least five apart, and so is the first from the last shift before |
| HotServe.WrapsToZero | hotring/hotring.c:561-633 | after 32767 requests for the head's key, a request for another key of the bucket faults |

## Left out

- RadixTree.Node: the 64 slots of a node lie inside it, so they are a sequence-valued field and not a separate array object; the position fields `shift` and `offset` are constants, since the code writes them only when it allocates the node.
- RadixTree.Root.Insert: order-0 entries only; multi-order and sibling entries and the XArray interface are not modelled.
- RadixTree.Root.Lookup: without a concurrent writer it meets no RETRY, so its restart is modelled in `Lockless` alone.
- RadixTree.Preload.Alloc: the node cache is nondeterministic; per-CPU handling, memory cgroup accounting and GFP flags are not modelled.
- Iteration.NextTagged: tagged and contiguous flags together are not modelled; with 64 slots a node has one tag word, so the multi-word part of the tag scan never applies.
- Iteration.GangLookup: indirection through slots (`radix_tree_gang_lookup_tag_slot`) is not modelled; the retry of moved entries is in `LocklessGang`.
- LocklessGang.ResultsWereThere: untagged lookups only, as tags are not part of the lockless system; the scan of a hole stops at the end of the 64-bit range and does not load the slots of the topmost node beyond it, which are always NULL; that a lookup ends is claimed only for one that is left alone, since a writer that never pauses could make it restart again and again.
- Iteration.DeleteChosen: iteration that deletes is modelled for untagged walks.
- Idr.GetFree: ids are below 2^60, far above the 2^31 the IDR interface allows; -ENOMEM is possible in any call because the node cache may fail.
- Idr.Replace: `__radix_tree_replace` as `radix_tree_iter_replace` uses it, on a free slot. `radix_tree_replace_slot` and NULL over tagged entries bypass the accounting by design and are not modelled. `idr.c` and the IDA are not part of this model.
- Destroy.FreeNodes: from the root's node, which is how its only caller uses it.
- Lockless.Linearizable: memory is sequentially consistent, node names are never used again, the stores to a node not yet published are part of the step that publishes it, and tags are not read by lookups.
- HotRing.Table: a slot holds the head node directly; the head object's request counter and active bit are in arrays beside the slots, and a head without a node is a NULL slot.
- HotRing.Table.Get: pointer packing (a node's counter shares a word with its link) and RCU publication are not modelled; it is used on its own by deletion and rehash.
- HotRing.Table.HashInsert: keys are below 2^n, as `hashCode` indexes past the table otherwise; duplicate keys are allowed, as in the code. Insertion after a rehash is not modelled: tags keep the width of the old table.
- HotRehash.Rehash: shifts of C ints are exact under its preconditions (2 <= k < 30, keys below 2^31); the old table's slots and heads are not freed by the code, and the old table is not used afterwards.
- HotShift.Shift: incomes are exact reals, with infinity and NaN where the code divides by 0; floating-point rounding is not modelled.
- HotServe.HashGet: on a table that has not been rehashed yet, of 32-bit keys below 2^31, as its rehash needs; the request counter of the thread is unbounded; a call whose shift loses the head counts as one that faults, since the rehash that follows loads through the lost head.
- `radix_tree/radix-tree.c`: the userspace variant is the same algorithm without tags and would repeat these proofs with preconditions.
- Linked lists, bounded buffers, kernel modules, file system, device and benchmark code: small or plumbing.
