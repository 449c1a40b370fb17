# A verified model of HOOVER's core

HOOVER is a graph runtime over a partitioned global address space. This project models
the algorithms the runtime rests on and proves what they are for. `dafny verify
dfyconfig.toml` checks all of it with Dafny 4.11.

* **The heap** (`Heap`, `Mspace`, and below them `Bins`, `BestFit`, `TreeBins`, `Trie`,
  `BinMaps`, `Bits`): the mspaces of `src/dlmalloc/dlmalloc.c` in the configuration HOOVER builds, one
  caller-supplied segment without mmap or morecore. `Mspace.Mspace` keeps `StateOk`, the
  invariant the file's own `do_check_malloc_state` describes, through every `Malloc` and
  `Free`: chunks tile the segment, tags are accurate, no two free chunks touch, and each free
  chunk is the designated victim, top, or in exactly one right bin.
* **Trees over a pool** (`AvlTree`, `AvlPool`, `AvlForest`, `IrregularMatrix`,
  `SparseArray`): AVL trees as values with the record number of every node, the routines that
  rewrite the records in place proved against them, and the two structures that keep many
  trees in one pool. Deletion rotates the doomed node down until it falls off, which leaves
  subtrees up to three levels apart for one truncating adjustment to repair.
* **Messages** (`Ring`, `Mailbox`, `MailboxProgress`, `MailboxBuffer`): the many-sender ring buffer as a state
  machine over its atomic steps, one byte put at a time, refining a FIFO queue of each sender
  and of all together; and the batches above it, which reach the target in order.
* **Coupling** (`Coupling`, `CouplingBounds`, `CouplingProgress`): the protocol by which clusters
  of PEs merge, as a transition system over the PEs and the messages under way: who is coupled at
  least and at most, and that it does not deadlock.
* **Tables** (`Probing`, `DenseHashtable`, `HvrMap`, `Sets`, `Wrappers`): the vendored open-addressing
  table, and the segmented map that scans a segment until it fills and bisects it then.
* **Lists** (`IntrusiveList`, `VertexCache`, `PartitionList`): lists threaded through the
  nodes of a fixed pool, whose link fields the pool itself reuses.
* **Small cores** (`Crc`, `CrcDivision`, `RwLock`, `DistBitvec`): the table-driven CRC as division
  of polynomials, the reader/writer lock, and the distributed bit vector with the check that skips
  copying an unchanged row.

State the code updates in place is a class here, and each method is proved against a function
or an abstract value of its old and new state. What a run of concurrent steps may do is a
datatype of states with `Enabled` and `Step`; results hold for every state reachable from the
start by any interleaving. An assertion or an `abort` of the code is a proved fact where it
cannot fail, a precondition where it is the caller's to meet, and otherwise an outcome of the
operation.

Three properties one might expect are false of the code, and their exact conditions are proved:
matrix columns that agree in their low 32 bits are one column
(`IrregularMatrix.ColumnsIndependentIff`); on x86 with GNU C the tree index of a chunk of
S >= 2^40 bytes is right just where the low 32 bits of S >> 8 are at least 0xC000
(`TreeBins.IndexCorrectIff`); and the bit vector takes a bit of a 64-bit word modulo 32, so that
its rows are right for up to 32 coordinates, the number of PEs here, and for no more
(`DistBitvec.RowExactIff`).

## Model

| member | source | states |
|---|---|---|
| AvlTree.DeleteTheorem | src/hvr_avl_tree.cpp:92-107 | deleting any key from any valid search tree leaves a valid one (order, exact heights, every balance within one, one record a node), at most one level lower, the same map without the key, and gives up exactly that key's record |
| AvlTree.DeleteRootHeights | src/hvr_avl_tree.cpp:92-107 | rotating a doomed root down until it falls off: for every pair of kid heights up to two apart, the height and lean of what is left |
| AvlTree.AdjustBalances | src/hvr_avl_tree.cpp:48-62 | one adjustment with its truncating halving repairs every tree it can meet, balances of 2, -2 and -3 included, and what height and lean come out |
| AvlTree.DeleteStep | src/hvr_avl_tree.cpp:92-107 | at every level of a deletion the recursive call and the adjustment behind it meet trees they can handle, with no record or entry lost on the way |
| AvlTree.InsertTheorem | src/hvr_avl_tree.cpp:73-90 | insertion into any valid tree: valid, maps the key to the value if it was new, changes no other entry, uses exactly the spare record |
| AvlTree.InsertThenDelete | src/hvr_avl_tree.cpp:73-107 | inserting a new key and deleting it again gives back the same map |
| AvlTree.HeightFits | src/hvr_avl_tree.cpp:22-31 | a valid tree over 32-bit keys is at most 45 high, so its 16-bit heights never overflow |
| AvlTree.SizeAtLeastFib | src/hvr_avl_tree.cpp:22-31 | a balanced tree of height h has at least Fib(h + 2) - 1 nodes |
| AvlTree.AssignRefines | src/hvr_irregular_matrix.cpp:37-56 | overwriting the value a lookup found changes that entry of the map and no other |
| AvlPool.NodeAllocator.constructor | src/hvr_avl_tree.cpp:168-186 | all records of a new pool are on the free list |
| AvlPool.NodeAllocator.Alloc | src/hvr_avl_tree.cpp:188-199 | the first free record, off the list |
| AvlPool.NodeAllocator.Free | src/hvr_avl_tree.cpp:201-206 | the record goes to the front of the free list, nothing else is written |
| AvlPool.NodeAllocator.Rotate | src/hvr_avl_tree.cpp:33-46 | the pointer rewrite is the rotation of the tree; with no kid to rotate up, the record is freed |
| AvlPool.NodeAllocator.AdjustBalance | src/hvr_avl_tree.cpp:48-62 | the pointer rewrite is the adjustment of the tree, inside the tree's own records |
| AvlPool.NodeAllocator.Insert | src/hvr_avl_tree.cpp:73-90 | the records hold the tree with the key inserted; exhausted exactly if the key is new and no record is free |
| AvlPool.NodeAllocator.Delete | src/hvr_avl_tree.cpp:92-107 | the records hold the tree with the key deleted, its record is first on the free list, success tells whether it was there |
| AvlPool.NodeAllocator.DeleteAll | src/hvr_avl_tree.cpp:109-116 | every record of the tree, and no other, comes to the free list |
| AvlPool.NodeAllocator.Find | src/hvr_avl_tree.cpp:137-152 | the record that holds the key, or the sentinel exactly if none does |
| AvlPool.NodeAllocator.CountNodes | src/hvr_avl_tree.cpp:154-166 | the number of nodes of the tree |
| AvlPool.NodeAllocator.Serialize | src/hvr_avl_tree.cpp:118-135 | the values of the tree in preorder, from the index on, and nothing written elsewhere |
| AvlPool.WrittenIsPreorder | src/hvr_avl_tree.cpp:118-135 | place i of the serialised stretch holds the value of the i-th node in preorder |
| AvlTree.PreorderOnce | src/hvr_avl_tree.cpp:118-135 | no key is serialised twice |
| AvlTree.PreorderComplete | src/hvr_avl_tree.cpp:118-135 | every key of the tree is serialised |
| AvlForest.PoolPartition | src/hvr_avl_tree.cpp:188-206 | for any number of trees whose sizes add up to the records reserved, each record of the pool is free or in exactly one tree |
| IrregularMatrix.Matrix.Set | src/hvr_irregular_matrix.cpp:37-56 | the row becomes the row with the edge set, overwritten or removed, the edge count stays the sum of the row sizes and the records reserved, and it fails exactly for a new edge without a free record |
| IrregularMatrix.Matrix.Get | src/hvr_irregular_matrix.cpp:23-35 | the edge the row holds at the column, or none |
| IrregularMatrix.Matrix.RowLen | src/hvr_irregular_matrix.cpp:58-60 | the number of edges of the row |
| IrregularMatrix.Matrix.Linearize | src/hvr_irregular_matrix.cpp:67-70 | the row is written to the front of the buffer, the rest of the buffer is left alone |
| IrregularMatrix.SetRefines | src/hvr_irregular_matrix.cpp:37-56 | a set is a point update of the row as a partial function of the narrowed column |
| IrregularMatrix.ColumnsIndependentIff | src/hvr_irregular_matrix.cpp:23-56 | setting one column leaves another alone, whatever the row and the edge, exactly when the columns differ in their low 32 bits, to which the tree key narrows them |
| IrregularMatrix.ColumnsAlias | src/hvr_irregular_matrix.cpp:37-56 | an edge set at column 0 is read at column 2^32 |
| IrregularMatrix.RecordsAccountedFor | src/hvr_irregular_matrix.cpp:7-70 | in every valid matrix each record of the pool is free or in exactly one row |
| IrregularMatrix.LinearizeListsRow | src/hvr_irregular_matrix.cpp:67-70 | each edge of the row is in the buffer exactly once |
| IrregularMatrix.EdgeInfoRoundTrip | inc/hvr_common.h:97-118 | vertex, direction and creation kind packed in a word all read back |
| SparseArray.SparseArray.Insert | src/hvr_sparse_arr.cpp:66-92 | exactly the pair (i, j) is added to the relation; each of the two ways to fail has its exact cause and changes nothing |
| SparseArray.SparseArray.Contains | src/hvr_sparse_arr.cpp:94-107 | whether the pair is in the relation |
| SparseArray.SparseArray.Remove | src/hvr_sparse_arr.cpp:109-125 | exactly the pair (i, j) is gone |
| SparseArray.SparseArray.RemoveValue | src/hvr_sparse_arr.cpp:127-142 | exactly the pairs with value j are gone, over all segments |
| SparseArray.SparseArray.RemoveRow | src/hvr_sparse_arr.cpp:144-156 | exactly the pairs of row i are gone, their records freed |
| SparseArray.SparseArray.LinearizeRow | src/hvr_sparse_arr.cpp:158-185 | a new array of exactly the row's size with each value of the row once, or none exactly if the row is empty |
| SparseArray.RecordsAccountedFor | src/hvr_sparse_arr.cpp:66-156 | each record of the pool is free or in exactly one row |
| SparseArray.WrittenRow | src/hvr_sparse_arr.cpp:173-183 | a row serialised into a buffer of the cached size lists each of its values, each once |
| Mailbox.ReceivedIsPrefixOfReserved | src/hvr_mailbox.cpp:108-323 | for any number of senders and any interleaving, the received messages are, byte for byte and once each, a prefix of the messages in the order their reservations succeeded |
| Mailbox.NeverPartlyWritten | src/hvr_mailbox.cpp:198-298 | when the receiver sees the sentinel, what it reads is the whole next reserved message |
| Mailbox.RecvAssertionsHold | src/hvr_mailbox.cpp:203-323 | the receiver's assertions on used bytes, sentinel place and read index hold in every reachable state |
| Mailbox.UsedIsOutstanding | src/hvr_mailbox.cpp:61-68 | after every run, what the function computes from the index word is the sum of the lengths of the reservations not yet released |
| Mailbox.NeverStuck | src/hvr_mailbox.cpp:150-196 | in every reachable state a sender with a reservation has an aligned start whose sentinel does not wrap, can put each byte left, and can publish when none is; nor is the receiver held up before it wipes a sentinel |
| MailboxProgress.TryReserves | src/hvr_mailbox.cpp:137-160 | a try reserves exactly if the index word is still the one the sender read and the outstanding reservations leave more than the message takes; else the sender has the word of now |
| MailboxProgress.NextTryReserves | src/hvr_mailbox.cpp:126-174 | with nobody in between, the try after a fetch or a failed try reserves exactly if there is room |
| MailboxProgress.PollGoesOn | src/hvr_mailbox.cpp:203-224 | the receiver goes on exactly if something reserved has not been received |
| MailboxProgress.TakeGoesOn | src/hvr_mailbox.cpp:226-250 | the receiver sees the sentinel exactly if no sender is still writing at the read index |
| MailboxProgress.NothingWedged | src/hvr_mailbox.cpp:108-323 | from every reachable state, some continuation without new sends delivers all that is reserved |
| MailboxProgress.GetsThrough | src/hvr_mailbox.cpp:108-323 | from every reachable state, an idle sender can send any aligned message shorter than the ring by more than the header, and it is delivered behind all reserved before |
| Mailbox.SenderInOrder | src/hvr_mailbox.cpp:108-323 | what was received from any one sender, then what it has in the ring, is what it reserved, in order and once each |
| Mailbox.FreeStretchIsZero | src/hvr_mailbox.cpp:61-68 | outside the stretch the index word declares used, every byte is zero; the indices agree exactly when every reserved message has been received |
| Mailbox.Keep | src/hvr_mailbox.cpp:108-323 | each atomic step of a sender or the receiver keeps the invariant of the ring |
| Mailbox.RunReserves | src/hvr_mailbox.cpp:108-196 | the reservations of the invariant are the successful compare-and-swaps of the run, in order |
| Mailbox.KeepPoll | src/hvr_mailbox.cpp:198-224 | the receiver's cached index word never overestimates what is used |
| Mailbox.SentinelDown | src/hvr_mailbox.cpp:150-196 | while any slot has a sender at work the four bytes of its sentinel word do not wrap and are zero |
| Mailbox.KeepRelease | src/hvr_mailbox.cpp:299-320 | the bytes released are all zero again and the read index moves past the message, whatever senders reserved meanwhile |
| Ring.UnpackPack | src/hvr_mailbox.cpp:46-59 | both indices come out of the packed word |
| Ring.UsedIsDistance | src/hvr_mailbox.cpp:61-68 | the used bytes computed from the two indices are the distance of the positions, while the ring is not full |
| Ring.IndexAligned | src/hvr_mailbox.cpp:20-44 | a 4-byte aligned position has an aligned index, so a sentinel never wraps |
| Ring.RingBuffer.Put | src/hvr_mailbox.cpp:81-92 | the data lies over the ring from the index on, round the end if need be |
| Ring.RingBuffer.Get | src/hvr_mailbox.cpp:94-106 | the bytes from the index on, round the end if need be |
| Ring.RingBuffer.Clear | src/hvr_mailbox.cpp:70-79 | that many bytes from the index on are zero, the others untouched |
| Ring.OverlayReadBack | src/hvr_mailbox.cpp:81-106 | what was put is got back, wherever it went round |
| Ring.WordBytes | src/hvr_mailbox.cpp:108-196 | a length word survives being laid out as bytes |
| MailboxBuffer.MailboxBuffer.Send | src/hvr_mailbox_buffer.cpp:24-50 | accepted exactly if there is room or the mailbox takes the batch; the accepted messages grow by the message, a full batch is posted whole first |
| MailboxBuffer.MailboxBuffer.FlushTo | src/hvr_mailbox_buffer.cpp:52-85 | the batch is posted once exactly if the loop ends with a try the mailbox takes, else the target is given up; an empty buffer changes nothing |
| MailboxBuffer.MailboxBuffer.Flush | src/hvr_mailbox_buffer.cpp:52-85 | every buffer is empty; each target's posted batches have grown by exactly its buffer if that was not empty and its loop ended with a taken try; it is newly given up exactly if the loop ended otherwise; for targets not given up the batches make up the accepted messages |
| MailboxBuffer.GivesUpMeans | src/hvr_mailbox_buffer.cpp:52-85 | a target is given up exactly when the loop ends with the callback's word and a refusal, never when the mailbox takes the first try |
| MailboxBuffer.UnpackPacked | src/hvr_mailbox_buffer.cpp:24-50 | the messages of a batch come back out of its bytes |
| MailboxBuffer.AcceptedInOrder | src/hvr_mailbox_buffer.cpp:24-85 | for any interleaving at the target's mailbox: what the target received from this PE, then what it has in the ring, then what is still buffered are, message for message, what was accepted, in order |
| Mspace.Mspace.Malloc | src/dlmalloc/dlmalloc.c:5046-5158 | keeps the whole heap invariant; fails, unchanged, exactly when no free chunk has room for the bytes asked and a head (top must keep a rest); else all the bytes asked are payload of a chunk that was free, of less than bytes + 48 or 64 bytes, taken from the best-fitting source in the order the code tries them, and no other live chunk or payload changes |
| Mspace.Mspace.Free | src/dlmalloc/dlmalloc.c:5160-5259 | keeps the whole heap invariant, coalescing included; exactly that chunk stops being live, and no other payload changes |
| Mspace.Mspace.Store | src/dlmalloc/dlmalloc.c:5046-5259 | a write by the holder of a chunk touches no boundary tag |
| Mspace.Mspace.constructor | src/dlmalloc/dlmalloc.c:4948-4969 | the segment is one free chunk, top, with empty bins |
| Mspace.Mspace.TakeBinned | src/dlmalloc/dlmalloc.c:4234-4287 | a request is taken out of an unlinked chunk: whole if the rest is no chunk, else the rest goes back to the bins or becomes the designated victim |
| Mspace.Mspace.SmallFromBins | src/dlmalloc/dlmalloc.c:5055-5107 | an exact small bin or the next, else the designated victim's turn, else the next larger bin or tree |
| Mspace.Mspace.LargeFromBins | src/dlmalloc/dlmalloc.c:4185-4253 | the smallest binned chunk that fits, unless the designated victim fits at least as well |
| Mspace.Mspace.UseDv | src/dlmalloc/dlmalloc.c:5118-5136 | the request is taken out of the designated victim, which becomes the rest, or none if the rest is no chunk |
| Mspace.Mspace.UseTop | src/dlmalloc/dlmalloc.c:5138-5148 | the request is taken off the start of top |
| Mspace.Mspace.ConsolidateBackward | src/dlmalloc/dlmalloc.c:5178-5203 | the freed chunk joins a free one before it, which leaves its bin or stays designated victim |
| Mspace.Mspace.MergeIntoTop | src/dlmalloc/dlmalloc.c:5207-5218 | top starts at the freed chunk and has grown by it |
| Mspace.Mspace.MergeIntoDv | src/dlmalloc/dlmalloc.c:5219-5224 | the designated victim starts at the freed chunk and has grown by it |
| Mspace.Mspace.MergeWithNext | src/dlmalloc/dlmalloc.c:5225-5234 | the free chunk behind leaves its bin and is joined; the whole is in its own bin, or still the designated victim |
| Mspace.Mspace.ReplaceDv | src/dlmalloc/dlmalloc.c:3471-3480 | the new chunk is the designated victim and in no bin, the old one goes to its bin |
| Heap.EveryByteOwned | src/dlmalloc/dlmalloc.c:3297-3323 | the chunks tile the segment: every byte is in one |
| Heap.PayloadsDisjoint | src/dlmalloc/dlmalloc.c:3096-3142 | payloads of different chunks do not overlap and lie in the segment |
| Heap.NoFreeNeighbours | src/dlmalloc/dlmalloc.c:3107-3128 | both neighbours of a free chunk are in use |
| Heap.HeadParts | src/dlmalloc/dlmalloc.c:2108-2160 | size and both in-use bits come back out of a head, and each bit can be changed alone |
| Heap.WholeTaken | src/dlmalloc/dlmalloc.c:2913-2915 | setting the two bits of a free chunk taken whole keeps tiling and tags |
| Heap.PartTaken | src/dlmalloc/dlmalloc.c:2918-2919 | splitting a free chunk, the front taken, keeps tiling and tags |
| Heap.JoinBack | src/dlmalloc/dlmalloc.c:5186-5203 | joining the free chunk before keeps tiling, and all tags but those still to be written |
| Heap.JoinForward | src/dlmalloc/dlmalloc.c:5225-5234 | joining the free chunk behind keeps tiling, and all tags but those still to be written |
| Heap.FreeEnds | src/dlmalloc/dlmalloc.c:2151-2157 | writing head, foot and the cleared bit behind completes a free |
| Heap.PayloadsKept | src/dlmalloc/dlmalloc.c:2108-2160 | heads, and feet behind free chunks, lie in no payload |
| Bins.InsertAdds | src/dlmalloc/dlmalloc.c:3412-3430 | inserting a chunk puts it in the bin of its size, and no other chunk anywhere |
| Bins.UnlinkRemoves | src/dlmalloc/dlmalloc.c:3431-3450 | unlinking takes that chunk out of its bin, and no other out of any |
| Bins.FindLarge | src/dlmalloc/dlmalloc.c:4185-4231 | the best fit of all tree bins for a large request, or none exactly if no binned chunk fits |
| Bins.FindSmallest | src/dlmalloc/dlmalloc.c:4256-4271 | the smallest chunk of all tree bins, for a small request |
| Trie.InsertKeeps | src/dlmalloc/dlmalloc.c:3485-3534 | inserting keeps the bitwise trie, adds the size, and extends the ring of that size alone |
| Trie.UnlinkKeeps | src/dlmalloc/dlmalloc.c:3553-3622 | unlinking keeps the trie, drops the size with its last chunk, and shortens the ring of that size alone |
| Trie.DropRootKeeps | src/dlmalloc/dlmalloc.c:3553-3622 | the leaf that stands in for a removed node belongs there |
| Trie.InsertThenUnlink | src/dlmalloc/dlmalloc.c:3485-3622 | inserting a chunk and unlinking it leaves every ring with the same chunks |
| TreeBins.IndexCorrect | src/dlmalloc/dlmalloc.c:2690-2766 | the index of a size below 2^40 is that of the only bin whose limits it is in |
| TreeBins.IndexCorrectIff | src/dlmalloc/dlmalloc.c:2690-2703 | for all sizes: the index is right exactly if the size is below 2^40, or the low 32 bits of size >> 8, all that the computation looks at, are at least 0xC000 |
| TreeBins.NarrowedIndexFails | src/dlmalloc/dlmalloc.c:2690-2703 | 2^40 is put in bin 0, whose sizes are below 384 |
| TreeBins.BelongsUnique | src/dlmalloc/dlmalloc.c:2763-2766 | the bins' limits do not overlap |
| BestFit.WalkPath | src/dlmalloc/dlmalloc.c:4190-4213 | walking the request's bits down its bin gives an exact fit, or the best on the path and the deepest right subtree passed, with nothing better elsewhere in the bin |
| BestFit.LeastAlong | src/dlmalloc/dlmalloc.c:4224-4231 | following leftmost children weighs the least size of a subtree against the best so far |
| BestFit.LeftmostHasLeast | src/dlmalloc/dlmalloc.c:2277 | the least size below a node, other than its own, lies under its leftmost child |
| BinMaps.MarkAndClear | src/dlmalloc/dlmalloc.c:2771-2780 | setting or clearing a bin's bit adds or removes that bin and no other |
| BinMaps.IsMarked | src/dlmalloc/dlmalloc.c:2776-2780 | the bit test tells whether the bin is marked |
| BinMaps.LeastBitIsLowest | src/dlmalloc/dlmalloc.c:2783 | x & -x of a word with a bit set, by carries through the complement, is its lowest bit and no other |
| BinMaps.LeftBitsAbove | src/dlmalloc/dlmalloc.c:2786 | the mask covers exactly the bins above, bin 31 included |
| BinMaps.LeastMarked | src/dlmalloc/dlmalloc.c:4259-4262 | a map in use has a least bit, and its number is that of the first bin marked |
| BinMaps.NextMarkedAbove | src/dlmalloc/dlmalloc.c:4215-4222 | the masked map is zero exactly if no bin above is marked, and else its least bit names the next marked bin |
| BinMaps.SmallBinIsNext | src/dlmalloc/dlmalloc.c:5059-5083 | the shifts, the test of two bits and the mask by which a small request picks its bin name the first small bin in use from its own on, and are zero exactly if there is none |
| Mspace.PadMeans | src/dlmalloc/dlmalloc.c:2098-2100 | a padded request is aligned, with room for the head and less than two alignments to spare |
| Mspace.ChunkForMeans | src/dlmalloc/dlmalloc.c:2093-2104 | below the greatest request, the chunk size asked for is the least multiple of 8 from 32 on with room for the bytes and a head |
| Probing.ProbesDistinct | src/sparsehash-c11/sparsehash/internal/densehashtable.h:866-889 | no bucket of a power-of-two table is probed twice in as many probes as there are buckets |
| Probing.ProbesCover | src/sparsehash-c11/sparsehash/internal/densehashtable.h:866-889 | every bucket is probed within that many |
| DenseHashtable.HoleAhead | src/sparsehash-c11/sparsehash/internal/densehashtable.h:866-889 | a table not full has an empty bucket on every probe sequence |
| DenseHashtable.FindPosition | src/sparsehash-c11/sparsehash/internal/densehashtable.h:866-889 | finds the key exactly if the table has it, else a bucket where it may go, a tombstone first met if any; always ends and never trips the full-table assertion |
| DenseHashtable.MinBuckets | src/sparsehash-c11/sparsehash/internal/hashtable-common.h:319-332 | the least power of two from 4 that holds the keys below the load limit, or overflow exactly if there is none |
| DenseHashtable.CopyFrom | src/sparsehash-c11/sparsehash/internal/densehashtable.h:644-671 | the new table has the same pairs, no tombstone, and exact counts |
| DenseHashtable.PutOk | src/sparsehash-c11/sparsehash/internal/densehashtable.h:954-969 | filling a bucket no probe sequence stops short of adds exactly the pair |
| DenseHashtable.BuryOk | src/sparsehash-c11/sparsehash/internal/densehashtable.h:440-447 | a tombstone takes out exactly its pair and cuts no probe sequence |
| DenseHashtable.SizeIsCount | src/sparsehash-c11/sparsehash/internal/densehashtable.h:527 | the keys of the map are as many as the buckets in use less the tombstones |
| DenseHashtable.NewMark | src/sparsehash-c11/sparsehash/internal/densehashtable.h:395-409 | with no tombstones a key not in the table may become the deletion mark |
| DenseHashtable.DenseHashtable.constructor | src/sparsehash-c11/sparsehash/internal/densehashtable.h:700-718 | an empty map, of the default or a sufficient number of buckets |
| DenseHashtable.DenseHashtable.Find | src/sparsehash-c11/sparsehash/internal/densehashtable.h:893-900 | the bucket of the key, or the end exactly if it is not in the map |
| DenseHashtable.DenseHashtable.Insert | src/sparsehash-c11/sparsehash/internal/densehashtable.h:1010-1015 | the map with the pair unless the key was there; with sizes that cannot overflow, fails exactly for a new key in a table of the greatest size |
| DenseHashtable.DenseHashtable.FindOrInsert | src/sparsehash-c11/sparsehash/internal/densehashtable.h:1047-1063 | the pair found, or the default value inserted, in the bucket returned |
| DenseHashtable.DenseHashtable.Erase | src/sparsehash-c11/sparsehash/internal/densehashtable.h:1066-1084 | the map without the key; the tombstone count grows by the number erased |
| DenseHashtable.DenseHashtable.InsertAt | src/sparsehash-c11/sparsehash/internal/densehashtable.h:954-969 | the pair is in that bucket, a tombstone reused is counted off |
| DenseHashtable.DenseHashtable.InsertNoResize | src/sparsehash-c11/sparsehash/internal/densehashtable.h:973-987 | as insertion, in a table with room |
| DenseHashtable.DenseHashtable.ResizeDelta | src/sparsehash-c11/sparsehash/internal/densehashtable.h:578-629 | the same map, with room for the new keys below half load; cannot fail unless a size overflows |
| DenseHashtable.LeastMeans | src/sparsehash-c11/sparsehash/internal/hashtable-common.h:319-332 | a table at its least size has no smaller power of two that holds the keys |
| DenseHashtable.DenseHashtable.MaybeShrink | src/sparsehash-c11/sparsehash/internal/densehashtable.h:546-573 | the same map; shrinks exactly if the load was below the threshold in a table larger than the default, then to at most half the buckets, and to the default, a load no longer below the threshold, or the least that holds the keys |
| DenseHashtable.DenseHashtable.SquashDeleted | src/sparsehash-c11/sparsehash/internal/densehashtable.h:376-384 | the same map without tombstones |
| DenseHashtable.DenseHashtable.SetDeletedKey | src/sparsehash-c11/sparsehash/internal/densehashtable.h:395-409 | the same map, with a new deletion mark |
| DenseHashtable.DenseHashtable.Clear | src/sparsehash-c11/sparsehash/internal/densehashtable.h:833-842 | the empty map |
| DenseHashtable.DenseHashtable.Size | src/sparsehash-c11/sparsehash/internal/densehashtable.h:527 | the number of keys in the map |
| Coupling.ClustersPartition | src/hoover.cpp:2665-2757 | in every interleaving the sets of active roots and the sets being handed over partition the PEs |
| Coupling.RootIsLeast | src/hoover.cpp:2665-2672 | an active root is the least PE of its cluster, sets under way to it included, and no PE takes a higher one for its root |
| Coupling.SameWinner | src/hoover.cpp:2665-2717 | both sides of a negotiation pick the same root: the other has handed its sets over, or waits for ours |
| Coupling.ForwardingDescends | src/hoover.cpp:2929-2975 | each forwarding of a request goes to a lower PE of the same other cluster, so the loop ends |
| Coupling.AnswersMatch | src/hoover.cpp:2964-2970 | an acknowledgement comes from the PE asked last, and handed-over sets from the root negotiated with |
| Coupling.FinalSetHoldsAll | src/hoover.cpp:2871-3070 | the set a PE adopts holds the PE, its previous cluster and every PE the run has it ask for since it adopted that, through hand-overs and refusals |
| CouplingBounds.NoStrangers | src/hoover.cpp:2600-3097 | for every run and every set of PEs across whose border nobody asks: every cluster, set under way and root stays on its side, so nobody is coupled with PEs not asked for, directly or through others |
| CouplingProgress.NoDeadlock | src/hoover.cpp:2600-3097 | in every reachable state with no PE between two rounds, some PE can take a step of its round: whatever is waited for is under way or somebody has it to do |
| CouplingProgress.PairCouples | src/hoover.cpp:2665-3070 | any PE that asks for another can be coupled with it within one round, the lower one root of both |
| Coupling.MembersAgree | src/hoover.cpp:3058-3070 | while a final set is under way, each member of that set is yet to be sent it, has it under way as the only one, or has adopted it |
| Coupling.SendsAreNew | src/hoover.cpp:2759-2817 | no message is sent while its like is still under way |
| Coupling.Keep | src/hoover.cpp:2600-3097 | each step of a PE keeps the invariant of the protocol |
| Coupling.KeepHome | src/hoover.cpp:2665-2717 | a cluster changes root only with its root's hand-over, and then all of it |
| HvrMap.HvrMap.constructor | src/hvr_map.cpp:78-92 | an empty map, all segments in the pool |
| HvrMap.HvrMap.Find | inc/hvr_map.h:90-116 | finds a key exactly if the map has it, and where, by bisection in full segments and scanning in others |
| HvrMap.HvrMap.Get | inc/hvr_map.h:118-128 | the value, or NULL for an absent key |
| HvrMap.HvrMap.Add | src/hvr_map.cpp:98-157 | the map with the pair; fails, unchanged, exactly when a segment is needed and the pool is empty |
| HvrMap.HvrMap.Remove | src/hvr_map.cpp:159-175 | the map without the key |
| HvrMap.HvrMap.SegAdd | src/hvr_map.cpp:59-71 | the pair is added to the segment, which is sorted when that fills it; no chain changes |
| HvrMap.HvrMap.TakeSegment | src/hvr_map.cpp:113-150 | the first pool segment, emptied, is the last of the bucket's chain |
| HvrMap.QuickSort | src/hvr_map.cpp:43-56 | the stretch is in order, with the same key-value pairs, and nothing outside it or in other segments changes |
| HvrMap.Partition | src/hvr_map.cpp:21-38 | the pivot stands between the smaller keys and the others, pairs kept together |
| HvrMap.BinarySearch | inc/hvr_map.h:66-88 | in an ordered full segment, the place of the key, or -1 exactly if it has none |
| HvrMap.FindInSegment | inc/hvr_map.h:97-112 | the place of the key among the segment's keys, or -1 exactly if it has none |
| HvrMap.KeysUnique | src/hvr_map.cpp:98-175 | no key is in two places of the map |
| HvrMap.FullSegmentSorted | src/hvr_map.cpp:59-71 | a segment with 128 keys is strictly sorted |
| HvrMap.DistinctKept | src/hvr_map.cpp:43-56 | rearranging pairs keeps keys distinct |
| HvrMap.KeyInChain | inc/hvr_map.h:90-116 | a key of the map is in a segment of its own bucket's chain |
| HvrMap.RemovedContents | src/hvr_map.cpp:159-175 | moving the last pair into the hole removes exactly that key |
| VertexCache.VertexCache.constructor | src/hvr_vertex_cache.cpp:11-54 | all nodes are in the pool |
| VertexCache.VertexCache.Reserve | src/hvr_vertex_cache.cpp:116-130 | a pool node comes to life under an identifier the map cannot have had; fails exactly when the pool is empty |
| VertexCache.VertexCache.Add | src/hvr_vertex_cache.cpp:132-143 | a pool node comes to life under the given identifier; fails exactly when the pool is empty |
| VertexCache.VertexCache.Delete | src/hvr_vertex_cache.cpp:67-90 | the node leaves the map and the neighbor list and is first in the pool; the right counter goes down |
| VertexCache.VertexCache.AllocateNode | src/hvr_vertex_cache.cpp:92-113 | the first pool node, all links clear, with both lists undisturbed |
| VertexCache.VertexCache.Lookup | src/hvr_vertex_cache.cpp:62-65 | the live node of that identifier, or NULL exactly if there is none |
| VertexCache.VertexCache.AddNeighbor | inc/hvr_vertex_cache.h:136-146 | first in the neighbor list, unless in it already |
| VertexCache.VertexCache.RemoveNeighbor | inc/hvr_vertex_cache.h:121-134 | out of the neighbor list if in it, the others in order |
| VertexCache.VertexCache.AddLocal | inc/hvr_vertex_cache.h:163-173 | first in the locals list, unless in it already |
| VertexCache.VertexCache.RemoveLocal | inc/hvr_vertex_cache.h:148-161 | out of the locals list if in it, the others in order |
| VertexCache.MembershipTests | inc/hvr_vertex_cache.h:84-93 | "next or prev or head" decides membership of each list exactly, for every live node |
| VertexCache.NodesConserved | src/hvr_vertex_cache.cpp:67-143 | pool, local and cached nodes add up to the pool's size |
| VertexCache.FreshIdentifier | src/hvr_vertex_cache.cpp:116-130 | the identifier made for a pool node is not in the map, so the map's assertion holds |
| IntrusiveList.RemoveHelper | inc/hvr_vertex_cache.h:95-119 | the list without the node, linked both ways; the assertions hold |
| IntrusiveList.Prepend | inc/hvr_vertex_cache.h:136-146 | the list with the node first, linked both ways |
| PartitionList.PartitionList.Prepend | src/hvr_partition_list.cpp:20-33 | the vertex is first in its partition's list, no other list changes |
| PartitionList.PartitionList.Remove | src/hvr_partition_list.cpp:40-67 | the partition's list without the vertex, mapped from the right head or from none; the assertions on the head hold |
| PartitionList.PartitionList.UpdateMembership | src/hvr_partition_list.cpp:76-90 | the vertex moves from one list to the front of the other, or nothing changes |
| PartitionList.WalkMeets | src/hvr_partition_list.cpp:92-95 | following the links from the mapped head meets exactly the partition's vertices, in order, then NULL |
| Crc.BurstDetected | src/crc/crc.c:94-136 | two messages of one length that differ only within four consecutive bytes have different CRCs |
| CrcDivision.CrcIsRemainder | src/crc/crc.c:94-136 | the CRC, inverted and reversed, is what is left of the message's bits, low bit of each byte first, the first 32 inverted and 32 zeros behind, in the division by the polynomial of x^32 and 0x04C11DB7 over two elements |
| CrcDivision.RemainderUnique | src/crc/crc.c:94-136 | quotient and remainder of that division are the only ones |
| Crc.CrcSlow | src/crc/crc.c:94-136 | bit-by-bit division gives the CRC |
| Crc.CrcFast | src/crc/crc.c:211-233 | the table gives the same CRC, on every message |
| Crc.CrcInit | src/crc/crc.c:155-197 | each entry of the table is the remainder of its byte |
| Crc.TableStep | src/crc/crc.c:211-233 | one table step is eight bit steps |
| Crc.ShiftBitsLinear | src/crc/crc.c:112-128 | dividing is linear |
| Crc.ShiftBitsInjective | src/crc/crc.c:112-128 | dividing is one-to-one |
| Crc.Reflect | src/crc/crc.c:56-81 | the bits in reverse order |
| RwLock.Exclusion | src/shmem_rw_lock.cpp:20-106 | for any number of PEs the word counts the readers and tells of the one writer at most; past its wait a writer is alone |
| RwLock.EncodingAssertionsHold | inc/shmem_rw_lock.h:25-54 | the assertions of the encoding functions never fire |
| RwLock.NextStepGrants | src/shmem_rw_lock.cpp:20-106 | with nobody in between, a PE that has just read the word gets in its next step: the read lock, or the writer bit, exactly if there is no writer; to write exactly if there is no reader; out always |
| RwLock.NothingWedged | src/shmem_rw_lock.cpp:20-106 | from every reachable state, with no new calls, every PE can get the lock it waits for and leave, and the word is 0 again |
| RwLock.Keep | src/shmem_rw_lock.cpp:20-106 | each read or compare-and-swap of a PE keeps the invariant of the lock word |
| DistBitvec.RowMeans | src/hvr_dist_bitvec.cpp:51-96 | for every run, a reader finds a coordinate in the row exactly if it, or the one it shares its bit with, was set with no later clear of either |
| DistBitvec.SkipIsSafe | src/hvr_dist_bitvec.cpp:98-147 | where the sequence check skips a copy, the copy says of each coordinate what the run up to some step made of it, every change whose increment is complete being before that step; with no writer between change and increment, what the whole run made of it |
| DistBitvec.RowExactIff | src/hvr_dist_bitvec.cpp:60-63 | whatever the run, the row says of each coordinate what its own sets and clears made of it, exactly if there are no more than 32 coordinates |
| DistBitvec.SharedBit | src/hvr_dist_bitvec.cpp:60-63 | with more than 32 coordinates, setting coordinate 0 sets coordinate 32 |

## Left out

- Mspace.Mspace.Malloc: segments are shorter than 2^40 bytes, where the tree index is right; a segment starts and ends on a multiple of 8, and the allocator's own record in front of it is not modelled.
- Mspace.Mspace.Free: the trim and the release of unused segments at its end, which do nothing without mmap and morecore; the address checks that lead to an abort on a corrupted heap.
- Bins.InsertAdds: the bin maps are sets of bin numbers; that the bit tricks on the words name the same bins is proved in `BinMaps`.
- Bins.UnlinkRemoves: bins are sequences and tries as values; the `fd`, `bk`, `child` and `parent` fields that realise them inside the chunks are not modelled. Heads and feet are.
- dlmalloc's locks, footers, realloc, memalign and the routines outside mspaces.
- AvlPool.NodeAllocator.Insert: running out of records is an outcome; the source prints and aborts.
- IrregularMatrix.Matrix.Linearize: the buffer is long enough, as `hvr_avl_serialize` asserts.
- SparseArray.SparseArray.LinearizeRow: the mspace the array comes from does not run out, as the source asserts.
- SparseArray.SparseArray.RemoveRow: a segment not yet instantiated reads as one already cleared; the segment pool is the number of segments left.
- Mailbox.ReceivedIsPrefixOfReserved: words are little-endian, the sentinel word is put in one step, and the build without `USE_CRC`; a receiver's message buffer is large enough.
- Mailbox.Keep: retry limits and timeouts only end a sender's attempt, at any point before its reservation.
- MailboxBuffer.MailboxBuffer.Flush: the buffer of a target is a sequence of messages of the one size, each its bytes; the mailbox's answers and the callback's are parameters, and the flush is given a try by which one of them ends each target's wait.
- Coupling.ClustersPartition: no PE terminates or dies; the three messages of a hand-over count as one, and so do the two of a final set; messages are delivered in any order.
- Coupling.FinalSetHoldsAll: the exchange of coupled values behind a round, which only adds waiting; that rounds end under every schedule, which refusals can put off for ever.
- CouplingProgress.NoDeadlock: a PE between two rounds may stay there for good, and others wait for it; that is the program's choice.
- Coupling.MembersAgree: a root that resends a late request to itself is modelled as leaving the request where it is.
- DenseHashtable.DenseHashtable.Insert: equality and hashing of keys are mathematical; iterators, move semantics and allocation failure are not modelled; only the default load factors.
- DenseHashtable.DenseHashtable.constructor: the expected size is one for which some number of buckets does not overflow, where the source throws.
- DenseHashtable.DenseHashtable.SetDeletedKey: the new mark is not a key of the table, which the source does not check.
- DenseHashtable.DenseHashtable.MaybeShrink: the load is compared exactly; a 32-bit float would round counts above 2^24.
- DenseHashtable.FindPosition: masking by one less than a power of two is written as the remainder.
- HvrMap.HvrMap.TakeSegment: the segment is hung on its chain before the first key goes in, the source does it after; nothing in between can see the difference.
- HvrMap.HvrMap.Find: data pointers are numbers, NULL is 0.
- `hvr_map_clear`, which frees segments that came from one block.
- VertexCache.VertexCache.Lookup: the map is the finite map that `HvrMap` refines, and does not run out of segments.
- VertexCache.VertexCache.Reserve: the vertex itself is reduced to its identifier; called for the PE that owns the cache, as `hvr_vertex_create` does.
- VertexCache.VertexCache.Add: the vertex is another PE's and not in the cache, as its callers see to.
- VertexCache.VertexCache.Delete: a local vertex has left the locals list, as `hvr_vertex_delete_impl` sees to.
- PartitionList.PartitionList.Prepend: the vertex is in no list, and the map of heads does not run out of segments.
- Crc.CrcSlow: the CRC-32 parameters only; a word is the sequence of its bits.
- RwLock.Exclusion: fewer than 2^63 PEs, the count's width; fences are implied by the order of steps.
- DistBitvec.SkipIsSafe: sequence numbers do not wrap at 2^64; one row, its place among the PEs is left out; a copy takes each word in one step.
- Shortest-path upkeep, subscriptions, edge symmetry and the rest of `src/hoover.cpp`; profiling, dumps and I/O.
