# Verified models of a VoIP client

The repository is a VoIP client with its own lock-free audio ring buffer and a two-peer
signalling server, on top of a vendored runtime: a Robin Hood hash table and the caches on
it, a small block allocator, the CELT split coder, a heap with backpointers and the task
scheduler on it, several concurrent bounded buffers, and base64. This project models these
parts in Dafny and proves what they are for.

`dafny verify dfyconfig.toml` checks everything.

## How the models are built

- What the program updates in place is a class or an array here; its loops are loops. The
  facts that the loops rest on are lemmas over sequences, multisets and maps.
- Threads are modelled by their steps. Loading the other side's index, copying one element
  and storing one's own index are separate methods, and every interleaving is a sequence of
  calls (`Run`, `Interleave`), or the other thread acts through a parameter at each point of
  a call (`AudioStreams`). Memory is sequentially consistent.
- Words are 64 bits wide where the program's arithmetic wraps (`Words.Wrap`,
  `Words.Masked`), 32 bits in `Bits.NextPowerOf2` and `AudioStreams.RingBytes`.
- Callers' functions are parameters: hash and equality of keys (an equivalence that the hash
  respects), the order of the heap, the callback of an iteration, what tasks do when they
  run, the codec's tables, how the message buffer reads a string.

| files | part |
|---|---|
| Basics, Words, Bits, RingIndex | shared values, word arithmetic, rounding to powers of two, ring positions |
| RobinHood, HashKeys, HashTable, HashIteration, HashRuns | the hash table, its iterator, runs and equality |
| CacheModel, Caches | linked hash table and LRU, FIFO and LIFO caches |
| SmallBlocks, SmallBlockAllocator | the small block allocator |
| AngleCoding, SplitCoding, CeltRules, StaticMode, Hadamard | CELT split coding, the built-in mode, interleaving |
| HeapOrder, PriorityQueue, TaskRuns, TaskScheduler | the heap with handles and the scheduler |
| RingBuffer, AudioStream, QueueSpsc, BufferPool, VendingRing, LogChannel | concurrent buffers |
| SignalState, SignalServer | the signalling server |
| Base64Codec, Base64 | base64 |

## Where the code falls short of what is promised

- CELT: encoder and decoder agree on every partition of a band if and only if every split that
  the band can have codes its angle, which can be read off the tables
  (`SplitCoding.RetracesExactlyWhenCoded`, `CeltRules.EnoughIffTablesSuffice`). The built-in mode
  meets the condition in all its bands (`StaticMode.ModeRetraces`); tables that do not are
  conceivable (`CeltRules.SomeTableDiverges`).
- A cached pop of the pointer queue or of the buffer pool is sound exactly after a peek whose
  element is still there, and for the queue also right after another cached pop
  (`QueueSpsc.PopCached`, `BufferPool.PopCached`).
- Base64: the overflow check of the encoded length misses the one length 2^64 - 3; the decoded
  length is right exactly when three times the string fits a word, so data from about 2^62
  bytes on can be encoded and not decoded (`EncodedLenExact`, `DecodedLenExact`, `TooLong`).
- The audio stream's ring is given a byte count that wraps to 0 when ten blocks exceed 2^30
  samples (`AudioStreams.BytesFit`).
- `rawr_RingBuffer_Initialize` is documented to accept powers of two; it also accepts 0
  (`Bits.AcceptsPowers`).
- A comment at deps/aws-c-common/source/hash_table.c:880 says that the last slot touched
  cannot be the iterator's own; it can, when nothing is shifted. The code is right all the same.

## Model

| member | source | states |
|---|---|---|
| `RobinHood.NoEarlyOut` | deps/aws-c-common/source/hash_table.c:331-396 | In a table in Robin Hood order every slot between an entry's home and the entry is occupied by one at least as displaced as its distance from that home: the fact the early exit rests on. |
| `RobinHood.TakeSlot` | deps/aws-c-common/source/hash_table.c:423-477 | Putting an entry into a slot whose occupant is closer to its home keeps the order. |
| `RobinHood.Displace` | deps/aws-c-common/source/hash_table.c:423-477 | The displaced occupant can go on probing from the next slot, with the order and a free slot ahead. |
| `RobinHood.ShiftHole` | deps/aws-c-common/source/hash_table.c:614-652 | Moving the follower into the hole moves the only break of the order one slot on. |
| `RobinHood.GoOnDeleting` | deps/aws-c-common/source/hash_table.c:614-652 | Each backward shift keeps the bag of entries, the exact shifted layout and the distance to a free slot, which falls, so the loop ends. |
| `RobinHood.ProbeSlotCorrect` | deps/aws-c-common/source/hash_table.c:331-396 | `(hash + k) & mask`, computed with 64-bit wrap-around, is the slot `k` steps after the home slot. |
| `RobinHood.ProbeDistanceCorrect` | deps/aws-c-common/source/hash_table.c:331-396 | `(index - hash) & mask` is the displacement of that entry in that slot. |
| `HashKeys.Hashing.AddAssigns` | deps/aws-c-common/source/hash_table.c:511-573 | Adding an entry under a key not present is one assignment in the plain map whose keys are taken up to the caller's equality. |
| `HashKeys.Hashing.DropForgets` | deps/aws-c-common/source/hash_table.c:654-697 | Taking an entry out forgets exactly the keys equal to its key. |
| `HashKeys.Hashing.CreateThenWrite` | deps/aws-c-common/source/hash_table.c:576-608 | Create followed by overwriting key and value is one assignment, whether or not the element existed. |
| `HashKeys.Hashing.AssignByEquality` | deps/aws-c-common/source/hash_table.c:58-78 | A put under a pointer is seen under exactly the pointers that the caller's equality function calls equal to it, and not under the null key. |
| `HashKeys.Hashing.AssignNull` | deps/aws-c-common/source/hash_table.c:58-78 | A put under the null key is seen under no pointer. |
| `HashKeys.Hashing.ForgetByEquality` | deps/aws-c-common/source/hash_table.c:58-78 | A removal under a pointer takes the value from exactly the pointers that the caller's function calls equal to it, and not from the null key. |
| `HashKeys.Hashing.ForgetNull` | deps/aws-c-common/source/hash_table.c:58-78 | A removal under the null key takes nothing from any pointer. |
| `HashKeys.Hashing.FoundByEquality` | deps/aws-c-common/source/hash_table.c:331-396 | A pointer has a value exactly when some element of that value has a key that the caller's function calls equal. |
| `HashTables.SizeFor` | deps/aws-c-common/source/hash_table.c:186-211 | The slot count is the least power of two from 2 up that is at least the expected size, and fails exactly above 2^63. |
| `HashTables.GrownSize` | deps/aws-c-common/source/hash_table.c:479-509 | Expansion doubles the size or reports that the size or its byte count overflows. |
| `HashTables.MaxLoad` | deps/aws-c-common/source/hash_table.c:186-211 | The load limit is at least one and leaves at least one empty slot. |
| `HashTables.LoadLimit` | deps/aws-c-common/source/hash_table.c:186-211 | The load limit is 95 hundredths of the size less one at most, and all slots but one below 20 slots. |
| `HashTables.DoublesUpTo` | deps/aws-c-common/source/hash_table.c:479-509 | The tables that can double are exactly those of up to 2^58 slots. |
| `HashTables.EarlyOutSound` | deps/aws-c-common/source/hash_table.c:331-396 | If no earlier slot held the key and the slot is free or its occupant is closer to home than the probe, no entry of the table has an equal key. |
| `HashTables.HashTable.Init` | deps/aws-c-common/source/hash_table.c:213-246 | Initialisation fails exactly when the size computation overflows and otherwise gives an empty valid table of the computed size. |
| `HashTables.HashTable.FindEntry` | deps/aws-c-common/source/hash_table.c:304-329 | Lookup finds the slot of an equal key, or proves that there is none and names the slot and probe index at which the key may be emplaced. |
| `HashTables.HashTable.FindEntry1` | deps/aws-c-common/source/hash_table.c:331-396 | The same for the general probe loop, which ends. |
| `HashTables.HashTable.EmplaceItem` | deps/aws-c-common/source/hash_table.c:423-477 | Emplacement keeps Robin Hood order, adds exactly the one entry, and answers the slot where it sits; it ends. |
| `HashTables.HashTable.RemoveEntry` | deps/aws-c-common/source/hash_table.c:614-652 | Backward-shift deletion keeps every table invariant, takes away exactly one entry, and answers the last slot touched, with the exact layout left behind. |
| `HashTables.HashTable.Find` | deps/aws-c-common/source/hash_table.c:398-414 | Find answers as the plain map. |
| `HashTables.HashTable.Expand` | deps/aws-c-common/source/hash_table.c:479-509 | Expansion succeeds exactly when twice the size is representable, keeps the bag of entries and leaves room for one more. |
| `HashTables.HashTable.Create` | deps/aws-c-common/source/hash_table.c:511-573 | Create finds the element or adds one with a null value; it reports overflow exactly for a new key when the load limit is reached and the table cannot double, and then nothing changes. |
| `HashTables.HashTable.Put` | deps/aws-c-common/source/hash_table.c:576-608 | Put assigns in the plain map and says whether the key was new; it is refused exactly for a new key when the load limit is reached and the table cannot double, and then nothing changes. |
| `HashTables.HashTable.Remove` | deps/aws-c-common/source/hash_table.c:654-697 | Remove answers the old value and forgets the key in the plain map. |
| `HashTables.HashTable.Clear` | deps/aws-c-common/source/hash_table.c:915-940 | Clear leaves the empty map. |
| `HashIteration.WindowAfterDelete` | deps/aws-c-common/source/hash_table.c:855-913 | After a deletion whose backward shift may have wrapped past slot 0, the iterator's window, cut short when needed, holds exactly the entries that were still to come. |
| `HashIteration.HashIter.Begin` | deps/aws-c-common/source/hash_table.c:802-815 | The iterator starts with every entry still to be visited. |
| `HashIteration.HashIter.Next` | deps/aws-c-common/source/hash_table.c:839-853 | Next loses and repeats nothing of what is ahead. |
| `HashIteration.HashIter.Delete` | deps/aws-c-common/source/hash_table.c:855-913 | Delete removes exactly the current element and leaves what is ahead unchanged, including the step below slot 0. |
| `HashIteration.ForEach` | deps/aws-c-common/source/hash_table.c:711-729 | For any callback, which may decide by everything it has seen, no element is shown twice, an iteration that is not stopped shows every element, and exactly the elements asked to be deleted are gone. |
| `HashRuns.Run` | deps/aws-c-common/source/hash_table.c:398-697 | Every sequence of put, find, remove and clear answers as a plain map does, step by step, and keeps the table valid; a put is refused only if the table cannot double even at the end. |
| `HashRuns.StepByEquality` | deps/aws-c-common/source/hash_table.c:58-78 | What each operation of a run answers and leaves under every pointer and under the null key, by the caller's equality function alone. |
| `HashRuns.SameKeys` | deps/aws-c-common/source/hash_table.c:731-768 | Pigeonhole: if all keys of one table are in another that is no larger, the converse holds. |
| `HashRuns.TablesEqual` | deps/aws-c-common/source/hash_table.c:731-768 | The comparison is true exactly when the two plain maps have the same keys and matching values. |
| `HashRuns.SameMapsMeans` | deps/aws-c-common/source/hash_table.c:731-768 | For a reflexive comparison and no null values, that is: the same keys, and values that the comparison calls equal under each. |
| `HashRuns.NullMatchesNull` | deps/aws-c-common/source/hash_table.c:58-70 | A null value matches only a null value. |
| `CacheModel.RunKeepsOrder` | deps/aws-c-common/source/lru_cache.c:55-97 | After any run the list model has distinct keys in the order of their last refresh: last use under LRU, last put under FIFO and LIFO. |
| `CacheModel.VictimByHistory` | deps/aws-c-common/source/fifo_cache.c:43-59 | What a put into a full cache throws away, in terms of the history: the key refreshed longest ago, or under LIFO the one refreshed last. |
| `CacheModel.NewestIsBack` | deps/aws-c-common/source/lru_cache.c:89-97 | After any run the back of the list, which the most-recent query answers, was refreshed later than every other key held. |
| `CacheModel.OnlyPutsCount` | deps/aws-c-common/source/fifo_cache.c:43-59 | Under FIFO and LIFO the keys refreshed are exactly the keys put, in order: finding a key refreshes nothing. |
| `CacheModel.FindsCount` | deps/aws-c-common/source/lru_cache.c:74-76 | Under LRU finding a key that is held refreshes it and moves its node, and no other, to the back. |
| `CacheModel.PutDropsVictim` | deps/aws-c-common/source/lifo_cache.c:42-62 | A put of a new key into a full cache drops exactly that node and appends the new one. |
| `Caches.PositionOf` | deps/aws-c-common/source/linked_hash_table.c:46-60 | A key is in the hash table exactly when it is in the list, and at matching places. |
| `Caches.LinkedHashTable.Find` | deps/aws-c-common/source/linked_hash_table.c:46-60 | Find answers the value of the list node with an equal key. |
| `Caches.LinkedHashTable.FindAndMoveToBack` | deps/aws-c-common/source/linked_hash_table.c:62-77 | The same, and exactly that node moves to the back. |
| `Caches.LinkedHashTable.Put` | deps/aws-c-common/source/linked_hash_table.c:79-109 | Put appends a new node in place of the old one of an equal key; it is refused exactly when the hash table refuses the key, and then nothing changes. |
| `Caches.LinkedHashTable.Remove` | deps/aws-c-common/source/linked_hash_table.c:111-115 | Remove takes exactly the node of an equal key out of list and table. |
| `Caches.LinkedHashTable.Clear` | deps/aws-c-common/source/linked_hash_table.c:117-121 | Clear unlinks every node through the destroy callback, so list and table end empty together. |
| `Caches.LinkedHashTable.MoveToEnd` | deps/aws-c-common/source/linked_hash_table.c:127-133 | A node moves to the back and the rest keeps its order. |
| `Caches.Cache.CountIsLength` | deps/aws-c-common/source/linked_hash_table.c:123-125 | The table's entry count is the length of the list. |
| `Caches.Cache.Put` | deps/aws-c-common/source/lru_cache.c:55-72 | Put does the model's put step under the policy and keeps the bound; it is refused exactly for a new key when the table's load limit is reached and it cannot double. |
| `Caches.Cache.Trim` | deps/aws-c-common/source/lifo_cache.c:42-62 | Over the bound, the front goes, or under LIFO the node before the back. |
| `Caches.Cache.Find` | deps/aws-c-common/source/lru_cache.c:74-76 | Find answers the value and, under LRU only, moves its node to the back. |
| `Caches.Cache.UseLru` | deps/aws-c-common/source/lru_cache.c:78-88 | The front value is answered and its node becomes the most recent. |
| `Caches.Cache.RunAll` | deps/aws-c-common/source/fifo_cache.c:43-59 | Any run of put, find, remove, clear and use-LRU from the empty cache ends in the model's list for the accepted operations; only puts are refused, only in a table that cannot double and whose load limit is within the cache's bound, and none is refused when the bound is below the load limit at the start. |
| `SmallBlockAllocator.FindBinFits` | deps/aws-c-common/source/allocator_sba.c:324-336 | The bin found by bit smearing is the first whose chunks hold the request. |
| `SmallBlocks.TakeFreeOk` | deps/aws-c-common/source/allocator_sba.c:242-282 | Serving from the free list keeps the bin invariant, and the chunk was in nobody's hands. |
| `SmallBlocks.CarveOk` | deps/aws-c-common/source/allocator_sba.c:242-282 | Carving off the working page keeps the invariant, also when it uses the page up, and the chunk was in nobody's hands. |
| `SmallBlocks.BindOk` | deps/aws-c-common/source/allocator_sba.c:102-109 | Binding a new page keeps the bin invariant. |
| `SmallBlocks.GiveBackOk` | deps/aws-c-common/source/allocator_sba.c:285-321 | Returning a chunk to the free list keeps the bin invariant and the per-page count. |
| `SmallBlocks.SweepIsPage` | deps/aws-c-common/source/allocator_sba.c:285-321 | The swept address range, which ends a header past the page, hits exactly the free chunks of the page. |
| `SmallBlocks.ReturnOk` | deps/aws-c-common/source/allocator_sba.c:285-321 | Returning an emptied page with its header, list entry and free chunks keeps the invariant. |
| `SmallBlocks.LoneIsCounted` | deps/aws-c-common/source/allocator_sba.c:285-321 | A page counts one chunk exactly when no other of its chunks is outstanding. |
| `SmallBlocks.ChunksDisjoint` | deps/aws-c-common/source/allocator_sba.c:242-282 | Two chunks of a bin do not overlap, and lie in their page past the header. |
| `SmallBlockAllocator.Sweep` | deps/aws-c-common/source/allocator_sba.c:285-321 | The swap-and-pop loop, which starts one past the end, removes exactly the chunks in the range. |
| `SmallBlockAllocator.Unlist` | deps/aws-c-common/source/allocator_sba.c:285-321 | The loop over the active pages removes exactly the one page. |
| `SmallBlockAllocator.Allocator.AllocFromBin` | deps/aws-c-common/source/allocator_sba.c:242-282 | The last free chunk is served, else the next of the working page, else the first of a new page; a page is taken only in the last case; no other bin changes, and the chunk was in nobody's hands. |
| `SmallBlockAllocator.Allocator.Alloc` | deps/aws-c-common/source/allocator_sba.c:338-350 | A request up to 512 bytes gets a chunk at least that large from the right bin; a larger one goes to the parent. |
| `SmallBlockAllocator.Allocator.FreeToBin` | deps/aws-c-common/source/allocator_sba.c:285-321 | Exactly the chunk ceases to be outstanding; its page is returned exactly when no other chunk of it is outstanding and it is not the working page; otherwise the chunk goes to the end of the free list. |
| `SmallBlockAllocator.Allocator.Free` | deps/aws-c-common/source/allocator_sba.c:352-374 | A chunk goes to the bin whose page holds it, null is ignored, and anything else goes to the parent. |
| `SmallBlockAllocator.Allocator.CleanUp` | deps/aws-c-common/source/allocator_sba.c:182-200 | After clean-up the pages returned over the whole life are exactly the pages taken, each as often. |
| `SmallBlockAllocator.OutstandingDisjoint` | deps/aws-c-common/source/allocator_sba.c:242-321 | In every reachable state any two outstanding chunks, of one bin or of two, are disjoint and inside their pages past the header. |
| `SmallBlockAllocator.OneHolder` | deps/aws-c-common/source/allocator_sba.c:242-321 | A chunk is outstanding in one bin at most. |
| `SmallBlockAllocator.FreeListSound` | deps/aws-c-common/source/allocator_sba.c:285-321 | No free-list entry points into a returned page or at a chunk in use. |
| `AngleCoding.QnIsEven` | deps/opus/celt/bands.c:647-671 | The resolution is 1 or an even number from 2 to 256. |
| `AngleCoding.TableIsExp2` | deps/opus/celt/bands.c:649-650 | The table holds 2^14 times two to the power of zero to seven eighths, rounded down. |
| `AngleCoding.QnIsPower` | deps/opus/celt/bands.c:647-671 | From half a bit on, the resolution for some eighths of a bit is an even number, and two to the power of those eighths lies between its neighbours. |
| `AngleCoding.Isqrt32` | deps/opus/celt/mathops.c:43-66 | The digit-by-digit loop computes the exact integer square root of every positive 32-bit word. |
| `AngleCoding.IntervalsPartition` | deps/opus/celt/bands.c:803-815 | For every even resolution the triangular intervals follow one another from 0 and fill the total. |
| `AngleCoding.TriangularDecodes` | deps/opus/celt/bands.c:816-836 | Every point of an interval decodes, through the integer square root, to the angle that was encoded. |
| `AngleCoding.Locate` | deps/opus/celt/bands.c:803-815 | Every point below the total lies in the interval of some angle. |
| `AngleCoding.DecodeTriangular` | deps/opus/celt/bands.c:816-836 | The decoder answers an angle whose interval, as it recomputes it, holds the point. |
| `SplitCoding.PartitionExtends` | deps/opus/celt/bands.c:944-1062 | The encoder only appends symbols that a decoder can read, and the decoder only moves forward. |
| `SplitCoding.HalvesOf` | deps/opus/celt/bands.c:979-981 | The two halves make up the band, in order. |
| `SplitCoding.RebalanceKeeps` | deps/opus/celt/bands.c:1018-1036 | The half that goes second gets exactly what the first left over beyond three bits, and nothing when it is empty. |
| `SplitCoding.SplitShape` | deps/opus/celt/bands.c:969-1036 | A split halves the size and lowers the level; angle, first and second half share the bits; the half with more bits goes first; the angle is the quantised one of the low half against the high. |
| `SplitCoding.TwoHalves` | deps/opus/celt/bands.c:1018-1036 | A split is its two halves one after the other, the one with more bits first; what goes second gets, on top of its bits, exactly what the first left of its own beyond three bits, unless the angle says that all energy is in the first. |
| `SplitCoding.AngleWritten` | deps/opus/celt/bands.c:742-839 | Before the halves the encoder writes the step of the angle and nothing else, uniformly for a time split and by the triangular distribution otherwise, and what it cost is charged. |
| `SplitCoding.PulsesInPlace` | deps/opus/celt/bands.c:1018-1062 | The encoder writes, for every leaf, the pulse vector of the leaf's own samples, in the order of the tree. |
| `SplitCoding.ThetaInStep` | deps/opus/celt/bands.c:729-839 | At a coded resolution encoder and decoder get the same angle, coder position and usage; the decoder reads by the square root formula. |
| `SplitCoding.ReadAsDecoded` | deps/opus/celt/bands.c:815-836 | The reading used here is what the square root decoder answers, for every even resolution and every point. |
| `SplitCoding.DecoderRetraces` | deps/opus/celt/bands.c:969-1062 | On any stream that begins with the symbols written, the decoder visits the same tree with the same sizes, bits, block counts, levels, angles and pulse counts, and ends with the same remaining bits, for every band width whose splits, at the sizes the band has, never have resolution 1. |
| `SplitCoding.UncodedDiverges` | deps/opus/celt/bands.c:729-742 | A split at resolution 1 of a band whose angle is not 0 makes encoder and decoder differ. |
| `SplitCoding.RetracesExactlyWhenCoded` | deps/opus/celt/bands.c:969-1062 | The exact condition, per band width: every encoding is retraced if and only if every split at a size of that band codes its angle. |
| `CeltRules.Clip` | deps/opus/celt/bands.c:1038-1050 | The pulse count is the largest one that the remaining bits allow, or 0. |
| `CeltRules.ClipLoop` | deps/opus/celt/bands.c:1038-1050 | The loop that undoes and redoes the charge computes that count and what is left. |
| `CeltRules.LeafPulses` | deps/opus/celt/bands.c:1037-1056 | A partition that is not split gets the pulses that the table gives for its bits, or the most that the band can still pay for, and is charged for them. |
| `CeltRules.ShareDivides` | deps/opus/celt/bands.c:1011-1012 | The halves get at least 0 bits each and all together; more lean never gives the first half more; within the bounds they differ by the lean, up to one. |
| `CeltRules.ExtremeAngles` | deps/opus/celt/bands.c:877-889 | With all the energy in one half, that half gets all the bits, for up to 16384 of them. |
| `CeltRules.LeanLessened` | deps/opus/celt/bands.c:1001-1010 | For a time split the lean is lessened towards none and does not change sides; otherwise it is that of the angle. |
| `CeltRules.LessenedBy` | deps/opus/celt/bands.c:1001-1010 | By how much: the fraction that the level gives of a lean to the second half, or that many bits of the size, but not past none. |
| `CeltRules.NearestStep` | deps/opus/celt/bands.c:749-749 | The coded step is nearest to the angle measured. |
| `CeltRules.AvoidsNoise` | deps/opus/celt/bands.c:750-763 | With noise avoidance an inner step becomes an extreme one exactly when the lean there exceeds the bits. |
| `CeltRules.StepAngle` | deps/opus/celt/bands.c:839-839 | A step decodes to its share of the quarter turn, rounded down; the extremes are exact. |
| `CeltRules.AngleError` | deps/opus/celt/bands.c:749-839 | Both sides' angle is within half a step and one unit of the one measured. |
| `CeltRules.CodedIffEnough` | deps/opus/celt/bands.c:647-671 | In the codec's arithmetic, the splits of a band code their angles exactly when each gets half a bit for it. |
| `CeltRules.EnoughIffTablesSuffice` | deps/opus/celt/bands.c:647-671 | Whether each does can be read off the tables: the cache of each size that can be split ends high enough. |
| `CeltRules.CeltRetraces` | deps/opus/celt/bands.c:969-1062 | The codec's decoder retraces its encoder on every partition of a band exactly for such tables. |
| `CeltRules.SomeTableDiverges` | deps/opus/celt/bands.c:969-1062 | The condition is needed: tables of bytes, with a cache that ends in 0 where none of the built-in ones does, for which the decoder takes a different turn. |
| `StaticMode.ModeSuffices` | deps/opus/celt/static_modes_float.h:44-86 | In all 21 bands of the built-in mode and at all its levels the tables suffice. |
| `StaticMode.ModeRetraces` | deps/opus/celt/bands.c:944-1062 | In the built-in mode the decoder retraces the encoder for every band, level, input, budget and place in the stream, whatever the angle measurement and the pulse search find. |
| `Hadamard.OrderPermutes` | deps/opus/celt/bands.c:576-594 | Both index orders, plain and from the table for strides 2, 4, 8 and 16, are permutations. |
| `Hadamard.OrderyBySignChanges` | deps/opus/celt/bands.c:572-581 | The table places each row of the natural Hadamard matrix by the number of its sign changes, the constant row last. |
| `Hadamard.DeinterleaveHadamard` | deps/opus/celt/bands.c:583-607 | The in-place routine moves every sample to its row in the given order. |
| `Hadamard.InterleaveHadamard` | deps/opus/celt/bands.c:609-630 | The in-place routine moves every sample back to its column place. |
| `Hadamard.InterleaveUndoes` | deps/opus/celt/bands.c:609-630 | Interleaving undoes deinterleaving for every block length, stride and order. |
| `Hadamard.DeinterleaveUndoes` | deps/opus/celt/bands.c:583-607 | And the other way round. |
| `Hadamard.ThereAndBack` | deps/opus/celt/bands.c:583-630 | The two routines one after the other leave every band as it was. |
| `HeapOrder.UpSwap` | deps/aws-c-common/source/priority_queue.c:97-128 | A sift-up swap leaves trouble only between the parent slot and its own parent. |
| `HeapOrder.DownSwap` | deps/aws-c-common/source/priority_queue.c:50-94 | A sift-down swap leaves trouble only between the child slot and its children. |
| `HeapOrder.RootFirst` | deps/aws-c-common/source/priority_queue.c:389-392 | In a heap no element comes before the root. |
| `PriorityQueues.PriorityQueue.Swap` | deps/aws-c-common/source/priority_queue.c:14-46 | A swap keeps every handle's index at its element and leaves handles outside the queue alone. |
| `PriorityQueues.PriorityQueue.SiftUp` | deps/aws-c-common/source/priority_queue.c:97-128 | Sifting up restores heap order and keeps the multiset and the handles; if nothing moves, nothing changes. |
| `PriorityQueues.PriorityQueue.SiftDown` | deps/aws-c-common/source/priority_queue.c:50-94 | Sifting down restores heap order and keeps the multiset and the handles. |
| `PriorityQueues.PriorityQueue.SiftEither` | deps/aws-c-common/source/priority_queue.c:134-143 | Whichever way the replaced element must go, heap order is restored. |
| `PriorityQueues.PriorityQueue.Push` | deps/aws-c-common/source/priority_queue.c:273-327 | Push adds exactly the element under its handle; it fails, changing nothing, exactly when the container is full or cannot grow or the backpointer cannot be recorded. |
| `PriorityQueues.PriorityQueue.RemoveNode` | deps/aws-c-common/source/priority_queue.c:329-361 | Exactly the element goes, its handle is marked as out, and order and all other handles are kept. |
| `PriorityQueues.PriorityQueue.Remove` | deps/aws-c-common/source/priority_queue.c:363-377 | Removal by a known handle takes the element of that handle and succeeds exactly when the handle is in the queue; a removed handle is refused afterwards. |
| `PriorityQueues.PriorityQueue.Pop` | deps/aws-c-common/source/priority_queue.c:379-387 | Pop answers an element that no other comes before and takes exactly it away. |
| `PriorityQueues.PriorityQueue.Drain` | deps/aws-c-common/source/priority_queue.c:379-387 | Repeated pops give all elements in order. |
| `TaskSchedulers.TaskScheduler.ScheduleNow` | deps/aws-c-common/source/task_scheduler.c:126-142 | The task joins the back of the ASAP list. |
| `TaskSchedulers.TaskScheduler.ScheduleFuture` | deps/aws-c-common/source/task_scheduler.c:144-180 | The task joins the timed tasks once, with its time: in the heap exactly when memory and its length allow the push, else in the fallback list after the tasks that are not later and before the others. |
| `TaskSchedulers.TaskScheduler.HasTasks` | deps/aws-c-common/source/task_scheduler.c:92-124 | Says whether anything is scheduled, and the earliest time: 0 with ASAP tasks, else the least time over both collections, attained by a task, else the maximum. |
| `TaskSchedulers.TaskScheduler.MoveEarlier` | deps/aws-c-common/source/task_scheduler.c:196-226 | One turn of the merge moves a task that is due and not later than anything left in heap or list. |
| `TaskSchedulers.TaskScheduler.Gather` | deps/aws-c-common/source/task_scheduler.c:188-240 | What is gathered is the ASAP list in order, then exactly the timed tasks due by the current time, in order of time; exactly the later ones go on waiting. |
| `TaskRuns.DueExactly` | deps/aws-c-common/source/task_scheduler.c:196-240 | When nothing left is due, the gathered tasks are exactly those due, each as often as scheduled, and what is left is exactly what is not due. |
| `TaskSchedulers.TaskScheduler.Withdraw` | deps/aws-c-common/source/task_scheduler.c:250-264 | Cancelling a task that was scheduled at some time takes it out of whichever of the four places holds it, if any; the running list, the ASAP list and the fallback list keep the others in their order, and every other timed task keeps its time. |
| `TaskSchedulers.TaskScheduler.RunAll` | deps/aws-c-common/source/task_scheduler.c:188-248 | However the tasks behave, a run collects the ASAP tasks and then all due tasks in order, without repeats; the calls it makes, the ASAP list it leaves, in order, and the times of all tasks left waiting are exactly those of the replay of the collected tasks with what their functions ask for; the log balances the scheduled tasks. |
| `TaskRuns.RanUnlessCanceled` | deps/aws-c-common/source/task_scheduler.c:188-264 | In that replay a collected task runs, once and in order, exactly when it was not cancelled first; nothing else runs, and a task dropped was asked to be cancelled. |
| `TaskRuns.AllRun` | deps/aws-c-common/source/task_scheduler.c:242-248 | When nobody asks for a collected task to be cancelled, exactly the collected tasks run, in order. |
| `TaskRuns.NothingUnasked` | deps/aws-c-common/source/task_scheduler.c:250-264 | Whatever is scheduled or cancelled in a run was asked for by a task's function. |
| `TaskRuns.LeftWaiting` | deps/aws-c-common/source/task_scheduler.c:188-264 | What a run leaves for later runs: exactly the tasks whose last event is that they were scheduled, and the tasks not due that nothing happened to, with their times. |
| `TaskRuns.TimesAre` | deps/aws-c-common/source/task_scheduler.c:144-180 | The map of times says of heap and fallback list together which task waits for what time, each once. |
| `RingIndex.PlacesApart` | src/RingBuffer.c:105-130 | Positions less than a turn apart have different slots. |
| `RingIndex.Difference` | src/RingBuffer.c:81-84 | The masked difference of two indices that count modulo two turns is the true distance, up to a full ring. |
| `Bits.AcceptsPowers` | src/RingBuffer.c:67-77 | The test accepts exactly the powers of two, and 0. |
| `RingBuffers.SlotAt` | src/RingBuffer.c:105-130 | The `i`-th element of the one or two regions is the slot of the `i`-th next stream position. |
| `RingBuffers.StoreKeeps` | src/RingBuffer.c:188-203 | Copying one element, in any order, overwrites no unread element and no element of the same write. |
| `RingBuffers.PublishKeeps` | src/RingBuffer.c:134-141 | Publishing the copied elements appends exactly them to the stream. |
| `RingBuffers.ConsumeKeeps` | src/RingBuffer.c:177-184 | What was fetched are the next elements of the stream, in order. |
| `RingBuffers.RingBuffer.ReadAvailable` | src/RingBuffer.c:81-84 | The number of elements published and not yet read, at most the capacity. |
| `RingBuffers.RingBuffer.WriteAvailable` | src/RingBuffer.c:87-90 | The number of free slots. |
| `RingBuffers.RingBuffer.BeginWrite` | src/RingBuffer.c:105-130 | The load of the read index settles a count that stays safe whatever the reader does; all of the data after a successful check. |
| `RingBuffers.RingBuffer.StoreOne` | src/RingBuffer.c:188-203 | One copy step keeps the invariant of both threads. |
| `RingBuffers.RingBuffer.EndWrite` | src/RingBuffer.c:134-141 | The elements written join the stream. |
| `RingBuffers.RingBuffer.BeginRead` | src/RingBuffer.c:149-174 | The load of the write index settles how many elements can be read. |
| `RingBuffers.RingBuffer.FetchOne` | src/RingBuffer.c:207-221 | One copy step yields the published element of that position. |
| `RingBuffers.RingBuffer.EndRead` | src/RingBuffer.c:177-184 | The elements read are the next ones of the stream. |
| `RingBuffers.RingBuffer.Write` | src/RingBuffer.c:188-203 | The whole call, element by element, appends as much of the data as there is room for. |
| `RingBuffers.RingBuffer.Read` | src/RingBuffer.c:207-221 | The whole call answers the next elements, as many as asked and available. |
| `RingBuffers.RingBuffer.Run` | src/RingBuffer.c:67-221 | In every interleaving of the two threads' steps each step does, when its thread is at it, exactly what it is for, and what has been read is a prefix of what has been written. |
| `RingBuffers.RingBuffer.Safe` | src/RingBuffer.c:81-90 | In every state of every run the index difference is the fill, from 0 to the capacity, what was delivered is a prefix of what was accepted, and a checked call moved all or nothing. |
| `RingBuffers.RingBuffer.NoOverwrite` | src/RingBuffer.c:105-130 | No slot that a write is to fill holds an unread element or one being read. |
| `RingBuffers.RingBuffer.NoUnpublished` | src/RingBuffer.c:149-174 | Every slot that a read is to fetch holds a published element, the right one. |
| `Bits.NextPowerOf2Correct` | src/Util.c:3-12 | For 1 to 2^31 the result is the least power of two that is not smaller. |
| `AudioStreams.CapacityFits` | src/AudioPA.c:352-383 | For every sample count from 1 with ten blocks up to 2^31 samples, the ring initialises, takes ten blocks and fewer than twenty. |
| `AudioStreams.BytesFit` | src/AudioPA.c:352-383 | The 32-bit byte count holds the whole ring exactly while ten blocks are at most 2^30 samples; above, it is 0. |
| `AudioStreams.AudioStream.Write` | src/AudioPA.c:505-515 | All of the block or nothing is written, decided by the room at the check, whatever the callback does meanwhile. |
| `AudioStreams.AudioStream.Read` | src/AudioPA.c:492-502 | The next block of the device's samples or nothing, whatever the callback does meanwhile. |
| `AudioStreams.AudioStream.CallbackOut` | src/AudioPA.c:334-342 | The callback emits silence or the next full block in order. |
| `AudioStreams.AudioStream.CallbackIn` | src/AudioPA.c:344-346 | The callback stores a prefix of its block, at least as much as there was room for. |
| `QueuesSpsc.CapacityRounded` | deps/mn/src/queue_spsc.c:10-38 | The capacity is the least power of two that is not smaller, for requests up to 2^63. |
| `QueuesSpsc.CounterDifference` | deps/mn/src/queue_spsc.c:48-54 | The difference of the wrapped 64-bit counters is the true number of elements. |
| `QueuesSpsc.CounterSlot` | deps/mn/src/queue_spsc.c:76-90 | The masked counter names the right slot across the wrap. |
| `QueuesSpsc.QueueSpsc.Push` | deps/mn/src/queue_spsc.c:76-90 | Push appends, or reports full exactly at capacity. |
| `QueuesSpsc.QueueSpsc.Peek` | deps/mn/src/queue_spsc.c:93-109 | Peek answers the front element, which stays, and makes a cached pop legal. |
| `QueuesSpsc.QueueSpsc.Pop` | deps/mn/src/queue_spsc.c:112-124 | Pop drops the front element, or reports empty. |
| `QueuesSpsc.QueueSpsc.PopCached` | deps/mn/src/queue_spsc.c:127-130 | With a current peek exactly the front element goes; one behind, as after another cached pop, nothing changes; in exactly the remaining cases the tail no longer counts the elements taken. |
| `QueuesSpsc.QueueSpsc.PopUpTo` | deps/mn/src/queue_spsc.c:133-174 | `pop_back` and `pop_all` answer the front elements in order, up to the limit, and drop exactly them. |
| `QueuesSpsc.FirstInFirstOut` | deps/mn/src/queue_spsc.c:93-174 | A history whose every answer was the front took the pushed elements off one by one, in order. |
| `QueuesSpsc.QueueSpsc.Run` | deps/mn/src/queue_spsc.c:76-174 | In every interleaving of the two threads' loads, slot accesses and stores, the `i`-th element to go is the `i`-th that was pushed, every answer given for it is that element, and the queue keeps within its capacity across the counter wrap; every step does exactly what it is for when its thread is at it. |
| `BufferPools.BufferPool.constructor` | deps/mn/src/buffer_pool.c:9-38 | Setup puts every block into the free queue once, in order, and never finds it full. |
| `BufferPools.BufferPool.Push` | deps/mn/src/buffer_pool.c:61-72 | Returning a block that is in use always finds room. |
| `BufferPools.BufferPool.Peek` | deps/mn/src/buffer_pool.c:75-88 | Answers the block that the next pop takes, which nobody has. |
| `BufferPools.BufferPool.Pop` | deps/mn/src/buffer_pool.c:91-101 | The front block, if any, goes into use. |
| `BufferPools.BufferPool.PopCached` | deps/mn/src/buffer_pool.c:104-112 | With a current peek the front block goes into use; without one, and exactly then, the pool's counts no longer hold. |
| `BufferPools.BufferPool.PopBack` | deps/mn/src/buffer_pool.c:115-131 | The same, and the block is answered. |
| `BufferPools.BufferPool.Conserved` | deps/mn/src/buffer_pool.c:61-131 | Blocks in use and free blocks add up to the block count, and each block is in exactly one of the two places. |
| `BufferPools.BlocksDisjoint` | deps/mn/src/buffer_pool.c:24-35 | The blocks' memory does not overlap and stays in the allocation. |
| `VendingRings.UpToBest` | deps/aws-c-common/source/ring_buffer.c:128-229 | `acquire_up_to` vends from a free run, between minimum and requested; it fails only when no run holds the minimum and gives less only when no run holds more. |
| `VendingRings.UsesLongest` | deps/aws-c-common/source/ring_buffer.c:128-229 | `acquire_up_to` succeeds exactly when the longest free run holds the minimum, and vends that run or what was requested if that is less. |
| `VendingRings.UsableIsLongest` | deps/aws-c-common/source/ring_buffer.c:128-229 | That length is right: no free run is longer, and some free run is as long. |
| `VendingRings.WholeIsUpTo` | deps/aws-c-common/source/ring_buffer.c:64-126 | `acquire` chooses as `acquire_up_to` does when the minimum is all that is requested. |
| `VendingRings.VendKeeps` | deps/aws-c-common/source/ring_buffer.c:64-229 | A choice made on a stale tail can still be added to the layout of outstanding buffers. |
| `VendingRings.ReleaseKeeps` | deps/aws-c-common/source/ring_buffer.c:244-251 | Releasing the first buffer keeps the layout and what a stale tail tells. |
| `VendingRings.EmptyIffMeet` | deps/aws-c-common/source/ring_buffer.c:64-75 | Head and tail meet exactly when nothing is outstanding. |
| `VendingRings.VendingRing.AcquireUpTo` | deps/aws-c-common/source/ring_buffer.c:128-229 | With any number of releases between its loads and stores, the call adds exactly the vended buffer to the outstanding ones; it succeeds exactly when the longest run free at the loads holds a minimum that is not 0, and gives that much or what was requested. |
| `VendingRings.VendingRing.Release` | deps/aws-c-common/source/ring_buffer.c:244-251 | Exactly the first outstanding buffer goes. |
| `VendingRings.VendingRing.Interleave` | deps/aws-c-common/source/ring_buffer.c:64-251 | In every interleaving of acquirer and releaser each step does exactly what it is for when its thread is at it; each outstanding buffer is in bounds and any two are disjoint. |
| `VendingRings.VendingRing.Safe` | deps/aws-c-common/source/ring_buffer.c:64-251 | Between calls, head equals tail exactly when nothing is outstanding, each outstanding buffer is in bounds, and any two are disjoint. |
| `LogChannels.LogChannel.Send` | deps/aws-c-common/source/log_channel.c:87-97 | A line joins the end of the pending list. |
| `LogChannels.LogChannel.Wake` | deps/aws-c-common/source/log_channel.c:142-158 | The writer swaps the pending lines out, or exits when finished and nothing is pending, having written all that was sent. |
| `LogChannels.LogChannel.Write` | deps/aws-c-common/source/log_channel.c:166-170 | The next line of the batch is written. |
| `LogChannels.LogChannel.Destroy` | deps/aws-c-common/source/log_channel.c:172-177 | A line is destroyed after it has been written, and once. |
| `LogChannels.LogChannel.Join` | deps/aws-c-common/source/log_channel.c:99-114 | When the join returns, every line sent before `finished` was set has been written once in order and destroyed; what is lost was sent later. |
| `LogChannels.LogChannel.Run` | deps/aws-c-common/source/log_channel.c:87-183 | In every interleaving of senders, writer and clean-up each step does exactly what it is for when its thread is at it; what is destroyed is a prefix of what is written, and that of what was sent. |
| `LogChannels.LogChannel.Drain` | deps/aws-c-common/source/log_channel.c:130-183 | With nobody sending any more the writer thread ends, everything written and destroyed. |
| `SignalState.PeerIdInjective` | src/signaller/PeerManager.cpp:20-27 | Different addresses or ports give different ids: a 64-bit word with the port above the 32 bits of the address. |
| `SignalState.Enters` | src/signaller/main.cpp:169-200 | A peer opening or joining a channel keeps peers and channels in agreement, with one or two members. |
| `SignalState.Disconnects` | src/signaller/PeerManager.cpp:58-74 | Disconnecting keeps the agreement and closes a channel that is empty. |
| `SignalServers.RelaysToOther` | src/signaller/main.cpp:231-249 | The walk over the members addresses the candidates to the other member, if there is one. |
| `SignalServers.SignalServer.CreatePeer` | src/signaller/PeerManager.cpp:29-42 | A new record without a channel. |
| `SignalServers.SignalServer.Disconnect` | src/signaller/PeerManager.cpp:58-74 | Exactly the peer's record and membership go, and its channel if it was the last member. |
| `SignalServers.SignalServer.Connect` | src/signaller/main.cpp:286-301 | An accepted connection adds one peer; a rejected one leaves the peers as they were. |
| `SignalServers.NamedBy` | src/signaller/main.cpp:134-168 | A message names a channel exactly when it is of that kind, has a length, and the string read has that name before its first zero or its end. |
| `SignalServers.SignalServer.SendReady` | src/signaller/main.cpp:191-200 | `ChannelReady` goes to exactly the two members of the channel; the lookups never miss. |
| `SignalServers.SignalServer.Identify` | src/signaller/main.cpp:134-201 | The peer is closed exactly when it named no channel or a full one; it opens a new channel and nothing is sent, or joins a single member and `ChannelReady` goes to both; the whole new state is stated. |
| `SignalServers.SignalServer.Relay` | src/signaller/main.cpp:202-263 | The candidates go once, to the other member of the sender's channel, if there is one; the sender's state rises. |
| `SignalServers.SignalServer.Receive` | src/signaller/main.cpp:107-264 | The whole new state after any message in any state: ignored, closed, settled in a channel, or relayed to the other member; every invariant holds. |
| `SignalServers.SignalServer.Close` | src/signaller/main.cpp:266-284 | Exactly the peer's record goes, and its place in whichever channel has it; a channel goes when that was its last member; an unknown peer changes nothing. |
| `SignalServers.SignalServer.TimeOut` | src/signaller/main.cpp:60-77 | The timer closes the peer, if it is known, in the same way. |
| `SignalServers.SignalServer.Handle` | src/signaller/main.cpp:60-301 | The whole new state after any event: connection, message, close or timeout. |
| `SignalServers.SignalServer.Run` | src/signaller/main.cpp:107-301 | Every run keeps: peers and channels agree, channels have one or two members, the state of a connection only rises, `ChannelReady` goes only to two members, and each connection's candidates are relayed at most once, to the other member; the states it goes through follow one another by exactly what the events do. |
| `SignalServers.SignalServer.Shutdown` | src/signaller/PeerManager.cpp:114-127 | Disconnecting every peer already empties both maps. |
| `Base64Codec.EncodedLenExact` | deps/aws-c-common/source/encoding.c:212-232 | The encoded length is exact, and reported exactly when it fits a word, for every length but 2^64 - 3. |
| `Base64Codec.EncodedLenMissesOne` | deps/aws-c-common/source/encoding.c:212-232 | For that one length the overflow check passes a wrong length. |
| `Base64Codec.QuadSpelt` | deps/aws-c-common/source/encoding.c:306-323 | The shifts and masks on the 24-bit block give the four six-bit fields. |
| `Base64Codec.LetterInAlphabet` | deps/aws-c-common/source/encoding.c:42-42 | The letter of a value is that character of the alphabet of section 4 of RFC 4648. |
| `Base64Codec.ValueInAlphabet` | deps/aws-c-common/source/encoding.c:47-63 | The value of a byte is its place in that alphabet; the zero byte and the padding have values of their own, and every other byte is invalid. |
| `Base64Codec.TestVectors` | deps/aws-c-common/source/encoding.c:268-338 | The encodings of the test vectors in section 10 of RFC 4648. |
| `Base64Codec.PaddedIsEncoded` | deps/aws-c-common/source/encoding.c:306-330 | The loop and the padding step together give the encoding that RFC 4648 defines. |
| `Base64Codec.DecodedEncoded` | deps/aws-c-common/source/encoding.c:351-413 | Decoding the encoding gives the bytes back, for data of every length. |
| `Base64Codec.DecodedLenExact` | deps/aws-c-common/source/encoding.c:234-266 | The decoded length of an encoding is right exactly when three times the encoding fits a word. |
| `Base64.Encode` | deps/aws-c-common/source/encoding.c:268-338 | Encode appends exactly the encoding and an uncounted zero, leaves all other memory unchanged, and fails exactly when they do not fit. |
| `Base64.Decode` | deps/aws-c-common/source/encoding.c:351-413 | For every string: when it is accepted, how long the result is reported, which bytes are written and that nothing else is. |
| `Base64.RoundTrip` | deps/aws-c-common/source/encoding.c:268-413 | The decoder accepts an encoding and reports the original with its length exactly when three times the encoding fits a word. |
| `Base64.TooLong` | deps/aws-c-common/source/encoding.c:234-266 | Data of 2^62 bytes can be encoded, and the length of its encoding is refused. |
| `Base64.ThereAndBack` | deps/aws-c-common/source/encoding.c:268-413 | The two calls on the program's tables give back the bytes. |

## Left out

- Hardware memory ordering: barriers and atomics are taken as sequentially consistent.
- Allocation failure, except for failed heap pushes and the size overflows of the hash table; destructor callbacks other than the unlinking one of the linked hash table.
- Hash function contents, `aws_hash_table_swap`, `move`, `remove_element` and statistics; they would add only easy members.
- The maximum load factor is the double nearest 0.95 as an exact fraction; other factors cannot be set through the interface that is modelled.
- HashTables.HashTable.Create: the table header and slot sizes are those of a 64-bit platform.
- PriorityQueues.PriorityQueue.Push: the container and the backpointer array, which every operation moves alike, are one sequence of slots, and the handles' index fields are one map.
- TaskSchedulers.TaskScheduler.Withdraw: a task that was never scheduled is outside its contract, as deps/aws-c-common/include/aws/common/priority_queue.h:146-154 leaves a node that was never pushed undefined.
- TaskSchedulers.TaskScheduler.RunAll: a task's function is what it asks of the scheduler, nested cancellations included in their order; functions that never return are not modelled.
- `aws_task_scheduler_clean_up`, which runs until no task is left and need not end.
- SplitCoding.Partition: the recursive routine is a function on values rather than an update of the band context; resynthesis, folding, stereo and the signal itself are not modelled, and the range coder is a log of symbols.
- RingBuffers.RingBuffer.constructor: a ring of capacity 0, which holds nothing, is not modelled beyond `Bits.AcceptsPowers`; flushing is only the initial state.
- AudioStreams.AudioStream.constructor: sample counts for which the program asks for less memory than the rings need (`AudioStreams.BytesFit`) are outside its contract; level metering and the device are not modelled.
- QueuesSpsc.QueueSpsc.Run: the consumer makes a cached pop only where `PopCached` keeps the queue valid.
- BufferPools.BufferPool.Push: the pool's counters are not atomic in the program, so its calls are taken one at a time, and a block returned is one that is in use.
- VendingRings.VendingRing.Release: buffers are released in the order in which they were vended, as the interface demands; the allocator wrapper is not modelled.
- The foreground log channel, which writes under its mutex.
- SignalServers.SignalServer.Receive: a close inside a handler ends it; the program lacks a `return` after the closes at src/signaller/main.cpp:156 and src/signaller/main.cpp:206. Each receive is one message. Sockets, timers and message buffer internals are parameters or events.
- SignalServers.SignalServer.Connect: live connections have distinct address and port; a second connection from a live address is not modelled.
- Base64.Encode: data of exactly 2^64 - 3 bytes for a buffer with room for the wrong length that is computed, where the program writes past the buffer, is outside its contract; SIMD and hex coding are not modelled.
- STUN, calls, codecs, device handling, SRTP and the rest of Opus: signal processing, I/O and plumbing.
