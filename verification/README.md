# Toasty: a Dafny model

A model, with proofs, of the core of Toasty: a MICA-style key-value cache with its two
allocators, a Maglev load balancer, the shared-memory registry, the circulation of AF_XDP frames,
and from libbpf the growing hash map and the type ordering of the BTF dumper.

Code that changes state in place is a class or a method on arrays; each method is tied to a value
it represents (a layout, a map, a queue), and the laws are proved about that value.  Widths and
wrap-around are written out where the source depends on them.

## Files

| files | models |
|---|---|
| SizeClasses, HeapLayout, DynamicHeap | the segregated-fit allocator: tags and free lists in one array of words |
| CircularLog, Pool | the circular log that items are appended to |
| Sweep, CacheState, Cache, TableInit | the cache over the log, its masked offsets and the sweep that retires them |
| SharedCache, ConcurrentGet | the cache under concurrent use, one memory access at a time |
| BtfGraph, BtfDump | the order in which C types are emitted |
| MaglevRow, Murmur, MaglevTable | the lookup table: rows by offset and skip, from hashes of the backends' indices, filled by turns |
| Checksum, L3Forward | the Internet checksum, in full and incrementally, and the packet path that uses it |
| Chains, ElementMap, Sessions | the session table of the load balancer |
| LibbpfMap | the hash map of libbpf |
| ShmState, ShmRegistry | pages, entries and mappings of the shared-memory registry |
| UmemRing, UmemFrames | the fill ring, and every place a frame can be |
| Arith, Options | shared arithmetic and the option type |

## Main results

- **Allocator.** `DynamicHeap.RunProgram`: under every program that allocates, writes and releases,
  the heap holds what replaying the program gives, and with nothing left allocated it is one chunk
  again.  `Heap.Allocate` says exactly when it fails; the assertion at alloc_dynamic.c:207 can fail
  although there is space, exactly under `BlockedByHead`, and `BlockedDespiteSpace` is a run of
  calls that gets there.
- **Cache.** `Cache.Run`: over every sequence of operations a hit returns what was last stored, and
  a key stays as long as its bucket is not set again and the log has not gone round; a set that may
  not overwrite succeeds while no slot can have its tag.
  This rests on the sweep: offsets are kept modulo 2^40, and `AgedOffsetLooksValid` shows what an
  unswept one would do.  `TableInit.InitTable` and `Sweep.SweepRunsIff`: the sweep works exactly
  for 2 to 2^31 buckets; a table of one bucket is never swept.
- **Concurrent lookups.** `ConcurrentGet.HitsAreSound`, `MissesAreSound`: under every interleaving
  of single memory accesses a hit returns what the bucket held for the key in one state, and after
  a miss no slot holds the key that held it in that state, as long as the bucket is locked fewer
  than 2^31 times during a lookup; after 2^31 locks the 32-bit version is accepted again
  (`FinishAcceptsIff`, `ManyLocksUnseen`).
- **Type ordering.** `Dump.DumpType`, `NeedsQueuedFirst`, `QueuedOnce`: what is queued is
  topologically ordered by by-value needs, and -ELOOP means a cycle of them.
- **Maglev.** `RowPermutationIff`: the row that 32-bit arithmetic computes is a permutation exactly
  when the skip is not a multiple of the size and the last position does not overflow, which it
  does for skips beyond 2^15 in size.  `Configure`: with permutations the table is full and
  balanced; else each row that is not a permutation may claim one taken slot, and exactly as many
  slots stay without a backend.  `FirstRows`, `ConfigureBackends`: no table that the source
  builds has permutations only, because the hash of index 0, 593689054, has skip 63967 and that of
  index 1 has skip -49109; the row of index 2 is a permutation.  So with three or more backends the
  dealing out of the remaining slots is never reached, and up to one slot for each bad hash may be
  left at -1.
- **Checksums.** `AddressUpdate`: the incremental update equals a recomputation exactly when the
  new words are not all zero.
- **Sessions.** `RepliesReturnIff`: replies come back under the address the client used exactly
  when no two services give a client the same backend.
- **Registry.** Reference counts equal the number of mappings over all operations, exactly while
  no null address is mapped or unmapped (`Registry.Map`, `Registry.Unmap`).  `PartInsideIff` says
  exactly which requests that pass the length test stay inside their entry.
- **Frames.** Every frame is always in exactly one place and the refill always finds room
  (`Umem.RefillReceived`), whatever the kernel does in between.

Where the source's documentation and its code differ, the model follows the code: the comment that
the "oldest" item is evicted does not describe `FindEmptyOrOldest`, which keeps the smallest stored
distance.

## Model

| member | source | states |
|---|---|---|
| SizeClasses.RoundUpInRange | bpf/AF_XDP/ported-mica/alloc_dynamic.c:114-123 | the round-up of a size stays inside the 32 classes exactly for sizes above 24 bytes; below, the unsigned subtraction wraps |
| SizeClasses.RequestInRange | bpf/AF_XDP/ported-mica/alloc_dynamic.c:285-292 | the class of an allocation request is in the table exactly for items of at least 9 bytes |
| SizeClasses.ClassFits | bpf/AF_XDP/ported-mica/alloc_dynamic.c:114-136 | up to the last class, a chunk filed at or above the round-up of a request is one that fits it, and the converse |
| SizeClasses.ClassOrder | bpf/AF_XDP/ported-mica/alloc_dynamic.c:126-136 | below the open-ended last class, a smaller class never holds a larger chunk |
| HeapLayout.LinkWellFormed | bpf/AF_XDP/ported-mica/alloc_dynamic.c:139-157 | pushing an unfiled chunk with no free neighbour keeps the tiling, the lists and that no two free chunks touch |
| HeapLayout.UnlinkWellFormed | bpf/AF_XDP/ported-mica/alloc_dynamic.c:160-180 | unlinking a chunk from anywhere in its list keeps every list and the tiling |
| HeapLayout.SplitWellFormed | bpf/AF_XDP/ported-mica/alloc_dynamic.c:295-307 | cutting an unfiled chunk in two leaves a tiling with one boundary more |
| HeapLayout.AbsorbLeft | bpf/AF_XDP/ported-mica/alloc_dynamic.c:237-258 | joining with a free left neighbour keeps the layout well formed and every other allocation, and leaves no free chunk to the left |
| HeapLayout.AbsorbRight | bpf/AF_XDP/ported-mica/alloc_dynamic.c:261-282 | the same to the right, after which neither neighbour is free |
| HeapLayout.FreeListsPartition | bpf/AF_XDP/ported-mica/alloc_dynamic.c:139-180 | each free chunk is on the list of its class, exactly once, and on no other |
| HeapLayout.ChunkOfWord | bpf/AF_XDP/ported-mica/alloc_dynamic.c:220-227 | each word of the heap belongs to exactly one chunk |
| HeapLayout.AllFreeIsOneChunk | bpf/AF_XDP/ported-mica/alloc_dynamic.c:323-338 | with nothing allocated, coalescing has left one free chunk that is the whole heap |
| DynamicHeap.Heap.constructor | bpf/AF_XDP/ported-mica/alloc_dynamic.c:30-72 | a new heap is one free chunk |
| DynamicHeap.Heap.Reset | bpf/AF_XDP/ported-mica/alloc_dynamic.c:220-227 | a reset heap is one free chunk, whatever the memory held |
| DynamicHeap.Heap.InsertFreeChunk | bpf/AF_XDP/ported-mica/alloc_dynamic.c:139-157 | the words written are those of the layout with the chunk pushed on its class; no other allocation's words change |
| DynamicHeap.Heap.RemoveFreeChunk | bpf/AF_XDP/ported-mica/alloc_dynamic.c:160-180 | the words written are those of the layout with the chunk unlinked; no allocation's words change |
| DynamicHeap.Heap.CoalesceLeft | bpf/AF_XDP/ported-mica/alloc_dynamic.c:237-258 | the result is the chunk that begins at a free left neighbour if there is one; its left neighbour is then not free |
| DynamicHeap.Heap.CoalesceRight | bpf/AF_XDP/ported-mica/alloc_dynamic.c:261-282 | the same to the right; afterwards no neighbour is free |
| DynamicHeap.SearchDecides | bpf/AF_XDP/ported-mica/alloc_dynamic.c:183-207 | the first non-empty class decides: no space exactly when every free chunk is too small, else a best fit below the last class, and the source's assertion fails exactly when the last class's head is too small |
| DynamicHeap.Heap.RemoveFromHead | bpf/AF_XDP/ported-mica/alloc_dynamic.c:183-217 | the chunk taken, by those rules, or nothing changed |
| DynamicHeap.Heap.GiveBackRest | bpf/AF_XDP/ported-mica/alloc_dynamic.c:295-307 | the allocation keeps the words it needs and the rest becomes a free chunk |
| DynamicHeap.Heap.MarkOccupied | bpf/AF_XDP/ported-mica/alloc_dynamic.c:313-317 | both tags and the item size are written and no other allocation's words change |
| DynamicHeap.Heap.Allocate | bpf/AF_XDP/ported-mica/alloc_dynamic.c:285-320 | exactly when space is insufficient, exactly when the assertion on the chunk size fails, and otherwise one new allocation that fits, best fit, with the chunks and the free ones exactly as they then are and all other allocations intact |
| DynamicHeap.Heap.Deallocate | bpf/AF_XDP/ported-mica/alloc_dynamic.c:323-338 | exactly the given allocation disappears, a free chunk that covers it is the head of its class, and the words of all others are intact |
| DynamicHeap.BlockedDespiteSpace | bpf/AF_XDP/ported-mica/alloc_dynamic.c:183-207 | for every heap of at least 87 words (the source makes none below 2 MiB): allocate 304, 16, 264 and 16 bytes, release the first and the third, and a request for 272 bytes fails the assertion although a free chunk fits it |
| DynamicHeap.RunProgram | bpf/AF_XDP/ported-mica/alloc_dynamic.c:139-338 | over every program of allocations, releases and writes the heap holds exactly what replaying the actions with the answers gives, the layout is well formed at every moment, each answer is the one the layout of that moment demands, and with nothing allocated the heap is one free chunk again |
| CircularLog.PopKeeps | bpf/AF_XDP/ported-mica/alloc_pool.c:138-148 | dropping the oldest item leaves a tiling of the rest of the circular log |
| CircularLog.PushKeeps | bpf/AF_XDP/ported-mica/alloc_pool.c:151-181 | a new item at the tail keeps the tiling and the words of every item still in the log |
| CircularLog.StoreKeeps | bpf/AF_XDP/ported-mica/alloc_pool.c:124-128 | writing inside an item, also across the end of the buffer, changes that item alone |
| CircularLog.ValidIffInWindow | bpf/AF_XDP/ported-mica/alloc_pool.c:191-200 | for offsets less than 2^40 bytes old the masked comparison holds exactly for items still in the log |
| CircularLog.SameWord | bpf/AF_XDP/ported-mica/alloc_pool.c:124-128 | the masked offset addresses the same words as the full one |
| Pool.Pool.constructor | bpf/AF_XDP/ported-mica/alloc_pool.c:20-73 | an empty log |
| Pool.Pool.Reset | bpf/AF_XDP/ported-mica/alloc_pool.c:86-90 | an empty log, whatever was stored |
| Pool.Pool.PopHead | bpf/AF_XDP/ported-mica/alloc_pool.c:138-148 | the item that starts at the head, and only it, leaves the log |
| Pool.Pool.PushTail | bpf/AF_XDP/ported-mica/alloc_pool.c:151-181 | the new item starts at the tail; exactly the items that overlap the new window leave the log |
| Sweep.RecentBound | bpf/AF_XDP/ported-mica/table.c:549-598 | a slot that survived the sweep up to a tail is younger than half the offset range plus the pool size |
| Sweep.AdvanceLeavesFewBlocks | bpf/AF_XDP/ported-mica/table.c:549-598 | a tail that moves by at most half that range passes fewer blocks than there are buckets, so the loop by bucket index visits each block passed |
| Sweep.MaskedStart | bpf/AF_XDP/ported-mica/table.c:549-560 | the bucket of a masked tail is the bucket of the tail |
| Sweep.SweepRunsIff | bpf/AF_XDP/ported-mica/table.c:549-598 | the test of the sweep notices every block boundary exactly when there are two buckets or more |
| CacheState.VecRoundTrip | bpf/AF_XDP/ported-mica/table.h:66-88 | tag and offset can be read back from a slot, and no used slot is zero |
| CacheState.MetaRoundTrip | bpf/AF_XDP/ported-mica/table.h:96-110 | key length, value length and expiry can be read back from the packed word |
| CacheState.HoldsUnique | bpf/AF_XDP/ported-mica/table.h:92-113 | the words of an item determine the key, the value and the expiry |
| CacheState.MatchIsExact | bpf/AF_XDP/ported-mica/table.c:459-518 | comparing hash, length and words accepts the item of a key and no other |
| CacheState.ValidIffInLog | bpf/AF_XDP/ported-mica/alloc_pool.c:191-200 | a swept slot is valid exactly when its item is in the log |
| CacheState.AgedOffsetLooksValid | bpf/AF_XDP/ported-mica/alloc_pool.c:191-200 | an offset that is 2^40 bytes older than a valid one passes the same test |
| CacheState.FindDecides | bpf/AF_XDP/ported-mica/table.c:466-518 | the slot found, if valid, is the key's only one, and holds what the map has for it |
| CacheState.AppendStep | bpf/AF_XDP/ported-mica/table.c:1012-1059 | pointing a slot at a new item keeps the table right, adds the key and no other |
| CacheState.ClearKeepsOthers | bpf/AF_XDP/ported-mica/table.c:1105-1112 | emptying the slot of a key loses no other key |
| CacheState.UpdateKeepsOthers | bpf/AF_XDP/ported-mica/table.c:974-1010 | an update in place neither adds nor loses another key |
| CacheState.AppendKeepsOthers | bpf/AF_XDP/ported-mica/table.c:1012-1059 | an append loses only the key of the slot it takes and the items it overwrites |
| CacheState.AppendAges | bpf/AF_XDP/ported-mica/table.c:1012-1059 | a key of another bucket ages by the item appended and stays while it is in the window |
| CacheState.UpdateKeeps | bpf/AF_XDP/ported-mica/table.c:974-1010 | rewriting the item in place keeps the table right for the changed map |
| CacheState.SweepCatchesUp | bpf/AF_XDP/ported-mica/table.c:549-598 | visiting every passed block makes all slots recent up to the new tail |
| Cache.Cache.constructor | bpf/AF_XDP/ported-mica/table.c:1450-1587 | an empty cache |
| Cache.Cache.Reset | bpf/AF_XDP/ported-mica/table.c:1386-1447 | an empty cache, whatever was stored |
| Cache.Cache.CompareKeys | bpf/AF_XDP/ported-mica/table.c:459-463 | true exactly for equal lengths and equal words |
| Cache.Cache.FindItemIndex | bpf/AF_XDP/ported-mica/table.c:466-518 | the first slot that matches, or none matches |
| Cache.Cache.FindSameTag | bpf/AF_XDP/ported-mica/table.c:521-545 | the first slot with the tag, or none has it |
| Cache.Cache.FindEmptyOrOldest | bpf/AF_XDP/ported-mica/table.c:378-430 | the first empty slot; else a slot whose stored distance is smallest |
| Cache.Cache.Get | bpf/AF_XDP/ported-mica/table.c:664-867 | a hit exactly for a cached key, with the value, length and expiry last stored; no key is lost by looking |
| Cache.Cache.Delete | bpf/AF_XDP/ported-mica/table.c:1089-1119 | the key is gone, found exactly if a slot matched it, and every other key is as it was |
| Cache.Cache.SetItem | bpf/AF_XDP/ported-mica/table.c:433-444 | the item holds the key and the entry |
| Cache.Cache.SetItemValue | bpf/AF_XDP/ported-mica/table.c:447-456 | the item holds the same key and the new entry |
| Cache.Cache.Cleanup | bpf/AF_XDP/ported-mica/table.c:549-598 | all slots are recent again and every cached key is still cached |
| Cache.Cache.UpdateInPlace | bpf/AF_XDP/ported-mica/table.c:974-1010 | the key has the new entry and every other key is as it was |
| Cache.Cache.Append | bpf/AF_XDP/ported-mica/table.c:1012-1059 | the key has the new entry, no other key appears, and only the slot taken and the items overwritten are lost |
| Cache.Cache.Set | bpf/AF_XDP/ported-mica/table.c:906-1086 | on success the key has the new entry; refused exactly if it may not overwrite and some slot matches; no other key appears, other keys are lost only with the slot taken, which is free or has the same tag unless the bucket is full, or to the log; and keys of other buckets age by what the log grew |
| Cache.Run | bpf/AF_XDP/ported-mica/table.c:664-1119 | over every sequence of operations each hit returns what the last set of its key stored, with no delete since; each lookup hits whose key was stored, with no set to its bucket since, before the log went round; each set succeeds that may overwrite, whose bucket and tag no set before it used since a delete found them, or that follows a delete of its key; and a set that may not overwrite is refused while the log has not gone round |
| Cache.SetAges | bpf/AF_XDP/ported-mica/table.c:974-1059 | a set leaves every key as young as the account of the operations says |
| TableInit.NextPower | bpf/AF_XDP/ported-mica/table.c:1467-1474 | the least power of two that is not smaller |
| TableInit.ComputeShift | bpf/AF_XDP/ported-mica/table.c:1524-1533 | the shift for which the blocks of all buckets make up 2^39 bytes |
| TableInit.PoolBits | bpf/AF_XDP/ported-mica/alloc_pool.c:20-38 | the least power of two that is not smaller, from 2 MiB on; within bounds exactly up to 2^38 bytes |
| TableInit.InitTable | bpf/AF_XDP/ported-mica/table.c:1450-1533 | the invariants of the sweep hold exactly for 2 to 2^31 buckets, and which sizes fail the source's assertions |
| SharedCache.NewTableInv | bpf/AF_XDP/ported-mica/table.c:1386-1447 | a new table satisfies the invariant of the concurrent cache |
| SharedCache.PlaceKeeps | bpf/AF_XDP/ported-mica/alloc_pool.c:151-181 | writing the size word at the tail touches no item in the window |
| SharedCache.PublishKeeps | bpf/AF_XDP/ported-mica/alloc_pool.c:151-181 | moving the tail keeps every item and slot, and every stored offset less than 2^40 bytes old, as long as the bucket was visited by the sweep within 2^40 bytes less the pool size |
| SharedCache.FillKeeps | bpf/AF_XDP/ported-mica/table.c:433-456 | writing one word of an item keeps every other item complete |
| SharedCache.EndFillKeeps | bpf/AF_XDP/ported-mica/table.c:433-444 | a completely written item holds a pair |
| SharedCache.SlotStepKeeps | bpf/AF_XDP/ported-mica/table.c:549-598 | clearing, pointing and visiting the slots of a locked bucket keeps their tags unique and their items young |
| SharedCache.StepKeeps | bpf/AF_XDP/ported-mica/table.c:147-190 | every step of a writer or of the sweep, in any order the two locks allow, keeps the invariant, unique tags included |
| ConcurrentGet.OtherKeeps | bpf/AF_XDP/ported-mica/table.c:906-1059 | what a reader has read stays right, or its final version check fails, under every step of other threads |
| ConcurrentGet.ReadKeeps | bpf/AF_XDP/ported-mica/table.c:664-784 | the same under the reader's own next access |
| ConcurrentGet.HitsAreSound | bpf/AF_XDP/ported-mica/table.c:98-144 | in every interleaving a hit returns what the bucket held for the key in one earlier state of the run |
| ConcurrentGet.MissesAreSound | bpf/AF_XDP/ported-mica/table.c:98-144 | in every interleaving a miss is right about one earlier state of the run: no slot held the key then at an item that the log has not since overwritten |
| ConcurrentGet.FinishAcceptsIff | bpf/AF_XDP/ported-mica/table.c:120-144 | the last access accepts a lookup exactly if the version has moved by a multiple of 2^32 |
| ConcurrentGet.ManyLocksUnseen | bpf/AF_XDP/ported-mica/table.c:120-144 | 2^31 locks of the bucket during a lookup go unseen |
| ConcurrentGet.RunsFromNewTable | bpf/AF_XDP/ported-mica/table.c:664-784 | both for every run from a new table on |
| BtfGraph.ReadyReaches | bpf/lib/libbpf/src/btf_dump.c:395-468 | everything that a finished type needs by value was finished before it |
| BtfGraph.NoStrongCycle | bpf/lib/libbpf/src/btf_dump.c:395-468 | a topological order admits no cycle of by-value needs |
| BtfDump.Dump.constructor | bpf/lib/libbpf/src/btf_dump.c:193-221 | nothing ordered, nothing queued |
| BtfDump.Dump.AddEmitQueueId | bpf/lib/libbpf/src/btf_dump.c:377-393 | the id is queued after all others |
| BtfDump.Dump.OrderType | bpf/lib/libbpf/src/btf_dump.c:469-614 | on success the type is ready, all that was ordered stays, and nothing is left half ordered; an error is a loop or an unknown kind |
| BtfDump.Dump.OrderThrough | bpf/lib/libbpf/src/btf_dump.c:507-513 | the same for types that only pass on to another |
| BtfDump.Dump.OrderTypedef | bpf/lib/libbpf/src/btf_dump.c:560-578 | the same for typedefs, whose state depends on the way they were reached |
| BtfDump.Dump.OrderComposite | bpf/lib/libbpf/src/btf_dump.c:515-543 | the same for structs and unions, whose members come first |
| BtfDump.Dump.OrderFuncProto | bpf/lib/libbpf/src/btf_dump.c:585-603 | the same for function prototypes, whose parts are ordered behind a reference |
| BtfDump.Dump.DumpType | bpf/lib/libbpf/src/btf_dump.c:277-297 | ordering fails with -ELOOP exactly for a by-value loop, when the graph has no function prototypes and no unknown kinds; else what is queued is topologically ordered |
| BtfDump.QueuedOnce | bpf/lib/libbpf/src/btf_dump.c:377-393 | no struct, union or enum is queued twice over any sequence of calls |
| BtfDump.NeedsQueuedFirst | bpf/lib/libbpf/src/btf_dump.c:469-614 | what a queued type, typedefs and their repetitions included, needs by value, if it is to be emitted, is queued before it |
| BtfDump.LoopIsStrong | bpf/lib/libbpf/src/btf_dump.c:469-490 | the loop reported is a cycle of by-value needs |
| BtfDump.NoLoopWhenReady | bpf/lib/libbpf/src/btf_dump.c:469-490 | a type that was ordered is on no such cycle |
| MaglevRow.EntryIsMod | bpf/AF_XDP/toasty.c:313-320 | the C expression with its 32-bit product and truncating remainders is the wrapped position modulo the size |
| MaglevRow.OverflowCollides | bpf/AF_XDP/toasty.c:316-319 | a row whose last position leaves the 32-bit range has an index twice, because 2^32 is 1 modulo the size |
| MaglevRow.RowPermutationIff | bpf/AF_XDP/toasty.c:313-320 | for every hash, the row that 32-bit arithmetic computes is a permutation of the slots exactly when its skip is not a multiple of the size and its last position is in the 32-bit range |
| MaglevRow.SkipZeroIff | bpf/AF_XDP/toasty.c:316-318 | the skip is a multiple of the size only for a negative hash one short of a multiple of the size minus one |
| MaglevRow.NonNegativeHashRow | bpf/AF_XDP/toasty.c:313-320 | for a hash that is not negative only the range matters |
| MaglevRow.SkipsThatFit | bpf/AF_XDP/toasty.c:316-319 | the range is kept for skips below 2^15 in size, but for the last few, and left beyond |
| MaglevRow.Hash65535Fails | bpf/AF_XDP/toasty.c:316-319 | a hash that is not negative and whose row is no permutation |
| MaglevRow.PositionsFit | bpf/AF_XDP/toasty.c:317-319 | for both signs, all positions of a row are in the 32-bit range exactly when the last is |
| MaglevRow.TableSizePrime | bpf/AF_XDP/maglev/load_balancer.h:4-4 | 65537 is prime |
| Murmur.FirstHashes | bpf/AF_XDP/maglev/murmurhash.h:6-48 | the hashes of the first three backends' indices, by the arithmetic of the source |
| Murmur.FirstRows | bpf/AF_XDP/toasty.c:313-320 | for three or more backends, the rows of the first two are never permutations and the row of the third is one |
| MaglevTable.Turn | bpf/AF_XDP/toasty.c:333-344 | one backend's turn takes its next preferred free slot; if its row runs out it claims the last slot of the row, which is taken |
| MaglevTable.FreeTurn | bpf/AF_XDP/toasty.c:336-346 | a turn that takes a free slot keeps the account of the fill |
| MaglevTable.LastTurn | bpf/AF_XDP/toasty.c:336-346 | a backend that claims a taken slot has a row that is not a permutation, and had not done so before |
| MaglevTable.Round | bpf/AF_XDP/toasty.c:332-349 | a round keeps the account: slots taken and slots claimed twice add up to the count, and shares differ by no more than the slots claimed twice |
| MaglevTable.RowsExhausted | bpf/AF_XDP/toasty.c:350-358 | whether every backend has used up its row |
| MaglevTable.FillRest | bpf/AF_XDP/toasty.c:362-374 | the fallback leaves no slot without a backend and no taken slot changed |
| MaglevTable.Configure | bpf/AF_XDP/toasty.c:322-375 | when the fill counts the table as full, exactly as many slots are left without a backend as backends claimed a taken slot, which only rows that are not permutations do, each once; each slot's backend lists it; shares are even up to that number; with one permutation the table counts as full, and with permutations only it is full and balanced |
| MaglevTable.ConfigureHashes | bpf/AF_XDP/toasty.c:307-375 | the same from the hashes, where a row is a permutation exactly under the condition above |
| MaglevTable.ConfigureBackends | bpf/AF_XDP/toasty.c:307-375 | the same for the tables that the source builds from the backends' indices: with three or more backends the table counts as full, the third never claims a taken slot, and fewer slots than backends are left without one |
| Checksum.Fold | bpf/AF_XDP/toasty.c:837-840 | adding the carries in keeps the residue modulo 65535 and whether the sum is zero |
| Checksum.ChecksumVerifies | bpf/AF_XDP/toasty.c:827-843 | words together with their computed checksum sum to all ones, as section 1 of RFC 1071 says |
| Checksum.CsumAddMeans | bpf/AF_XDP/maglev/load_balancer.h:75-79 | the 32-bit sum with the carry brought around has the residue of the sum, and is zero only for zeros |
| Checksum.CsumFoldMeans | bpf/AF_XDP/maglev/load_balancer.h:63-68 | two rounds fold any 32-bit value completely |
| Checksum.AddressUpdate | bpf/AF_XDP/maglev/main.c:472-475 | the updated header checksum, as in section 3 of RFC 1624, equals the recomputed one exactly when the new words are not all zero |
| Checksum.AddressAndPortUpdate | bpf/AF_XDP/maglev/main.c:478-483 | the same for the transport checksum with address and port |
| Checksum.AbsentChecksum | bpf/AF_XDP/maglev/main.c:478-483 | a zero transport checksum stays zero exactly when the replaced and the new values have the same one's complement sum |
| L3Forward.IpChecksum | bpf/AF_XDP/toasty.c:827-843 | the loop with its 32-bit sum computes the checksum of any buffer of up to 131074 bytes, odd lengths included |
| L3Forward.FoldAndInvert | bpf/AF_XDP/toasty.c:839-842 | the folding loop ends with the folded sum |
| L3Forward.StoredChecksum | bpf/AF_XDP/toasty.c:866-868 | a header with the computed checksum stored in it sums to all ones |
| L3Forward.SwapAddresses | bpf/AF_XDP/toasty.c:870-874 | the two hardware addresses are exchanged |
| L3Forward.Forward | bpf/AF_XDP/toasty.c:846-877 | which packets are forwarded; a forwarded one has one hop less, swapped addresses and a header that verifies, all else as it was; others are untouched |
| Chains.PrependKeeps | bpf/AF_XDP/maglev/hashmap.c:46-51 | linking an absent key in front of its chain represents the map with the key added |
| Chains.ReplaceKeeps | bpf/AF_XDP/maglev/hashmap.c:70-83 | writing a value into an entry represents the map with the key changed |
| Chains.RemoveKeeps | bpf/AF_XDP/maglev/hashmap.c:85-102 | unlinking an entry represents the map without the key |
| Chains.TotalIsSize | bpf/lib/libbpf/src/hashmap.c:117-120 | the chains have exactly one entry for each key |
| ElementMap.Table.Insert | bpf/AF_XDP/maglev/hashmap.c:29-53 | a key is added exactly when it is absent; a present one is left alone |
| ElementMap.Table.Lookup | bpf/AF_XDP/maglev/hashmap.c:55-68 | the value of the key, or none |
| ElementMap.Table.Update | bpf/AF_XDP/maglev/hashmap.c:70-83 | a present key gets the value; an absent one is ignored |
| ElementMap.Table.Delete | bpf/AF_XDP/maglev/hashmap.c:85-102 | the key is gone and no other is |
| Sessions.Balancer.Handle | bpf/AF_XDP/maglev/main.c:386-471 | the packet sent and the sessions stored, as the abstract step says, drops included |
| Sessions.RunExtends | bpf/AF_XDP/maglev/main.c:399-452 | over every run of packets the session table only grows |
| Sessions.Sticky | bpf/AF_XDP/maglev/main.c:399-402 | what was done to the first packet of a session is done to every later one |
| Sessions.ReplyReturns | bpf/AF_XDP/maglev/main.c:440-471 | over every run of packets none of which goes from a virtual endpoint to another, a reply to a forwarded packet reaches the client from the address and port it had sent to |
| Sessions.ClashMixesReplies | bpf/AF_XDP/maglev/main.c:448-452 | two services that give a client the same backend: the reply for the second comes back from the first |
| Sessions.RepliesReturnIff | bpf/AF_XDP/maglev/main.c:386-471 | replies return over all such runs exactly when no two services give a client the same backend endpoint |
| Sessions.OwnBackends | bpf/AF_XDP/maglev/main.c:386-471 | services without common backends, one service in particular, never clash |
| Sessions.FilledTableDropsNothing | bpf/AF_XDP/maglev/main.c:412-424 | a filled lookup table whose backends are all known drops no packet for its service |
| Sessions.RewriteKeepsChecksum | bpf/AF_XDP/maglev/main.c:472-475 | a packet sent on has a right header checksum if it came with one |
| Sessions.RewriteKeepsTransportChecksum | bpf/AF_XDP/maglev/main.c:478-483 | and a right transport checksum |
| LibbpfMap.HashBits | bpf/lib/libbpf/src/hashmap.h:15-30 | the bucket index is below the capacity |
| LibbpfMap.HashMap.constructor | bpf/lib/libbpf/src/hashmap.c:38-49 | an empty map without buckets |
| LibbpfMap.HashMap.FindEntry | bpf/lib/libbpf/src/hashmap.c:130-152 | the walk finds the entry of a key exactly when the map has the key |
| LibbpfMap.HashMap.Find | bpf/lib/libbpf/src/hashmap.c:206-218 | the value of the key, or none |
| LibbpfMap.HashMap.Delete | bpf/lib/libbpf/src/hashmap.c:220-240 | the key is gone, its value is returned, no other key changes |
| LibbpfMap.HashMap.Grow | bpf/lib/libbpf/src/hashmap.c:101-128 | doubling rehashes every entry, loses none, and makes room for one more; without memory nothing changes |
| LibbpfMap.HashMap.Insert | bpf/lib/libbpf/src/hashmap.c:154-204 | by strategy: exactly when a key exists, is missing or memory is short, and else the map with the key set; at most three quarters of the capacity are used |
| LibbpfMap.RoomAfterGrowth | bpf/lib/libbpf/src/hashmap.c:95-115 | after one growth the map never needs another for the same entry |
| LibbpfMap.RunAll | bpf/lib/libbpf/src/hashmap.c:154-240 | over every sequence of inserts, deletes and finds the answers are those of a plain map, and a new key is refused exactly for want of memory |
| ShmState.PagesAreOwnedOnce | bpf/AF_XDP/ported-mica/shm.c:379-443 | no page belongs to two live entries, and one is in use exactly when an entry owns it |
| ShmState.MappedEntryIsLive | bpf/AF_XDP/ported-mica/shm.c:446-465 | no mapping refers to an entry that is gone |
| ShmRegistry.Registry.constructor | bpf/AF_XDP/ported-mica/shm.c:48-54 | zeroed tables satisfy the invariant |
| ShmRegistry.Registry.PickPages | bpf/AF_XDP/ported-mica/shm.c:405-419 | the free pages of the node, up to the number wanted, and all wanted exactly when there are enough |
| ShmRegistry.Registry.Alloc | bpf/AF_XDP/ported-mica/shm.c:379-443 | fails exactly without a free entry or enough free pages; else a free entry gets free pages of the node, all marked |
| ShmRegistry.Registry.CheckRemove | bpf/AF_XDP/ported-mica/shm.c:446-465 | a scheduled entry that nothing maps gives back its pages and is cleared |
| ShmRegistry.Registry.ScheduleRemove | bpf/AF_XDP/ported-mica/shm.c:468-485 | the entry is gone at once if nothing maps it, else marked |
| ShmRegistry.Registry.Map | bpf/AF_XDP/ported-mica/shm.c:487-605 | which requests are mapped, and the record made; every reference count equals its number of mappings afterwards unless a null address was mapped, and then it does not |
| ShmRegistry.PartInsideIff | bpf/AF_XDP/ported-mica/shm.c:513-542 | for every request that passes the length test, the recorded pages are pages of the entry exactly if the 64-bit sum of offset and length did not wrap around, except where rounding up to pages itself wraps |
| ShmRegistry.WrappedPartPasses | bpf/AF_XDP/ported-mica/shm.c:513-542 | a request that passes the test although its pages leave the entry |
| ShmRegistry.Registry.Unmap | bpf/AF_XDP/ported-mica/shm.c:609-651 | the same for unmapping: exact counts exactly when the address was not null or found nothing; the last mapping of a scheduled entry removes it |
| ShmRegistry.UnmapKeeps | bpf/AF_XDP/ported-mica/shm.c:609-651 | removing a mapping keeps all books, with or without removing its entry |
| ShmRegistry.MapKeeps | bpf/AF_XDP/ported-mica/shm.c:589-600 | registering a mapping keeps all books exactly for an address that is not null |
| ShmRegistry.UnmapNullBreaks | bpf/AF_XDP/ported-mica/shm.c:615-642 | unmapping a null address takes a reference from entry 0 that no mapping held |
| UmemRing.FillRing.Free | bpf/lib/xdp-tools/headers/xdp/xsk.h:100-118 | with wrapping 32-bit counters and a stale consumer, the number of free slots is right whenever it matters |
| UmemRing.FillRing.Reserve | bpf/lib/xdp-tools/headers/xdp/xsk.h:132-147 | as many slots as are free, up to the number wanted |
| UmemRing.FillRing.Submit | bpf/lib/xdp-tools/headers/xdp/xsk.h:149-155 | the submitted addresses join the queue in order |
| UmemRing.FillRing.Take | bpf/lib/xdp-tools/headers/xdp/xsk.h:100-118 | the kernel gets the oldest address |
| UmemRing.FillRing.Refill | bpf/AF_XDP/toasty.c:1470-1479 | with a slot for each address the first reservation succeeds and all addresses are queued in order |
| UmemFrames.Umem.constructor | bpf/AF_XDP/toasty.c:934-950 | every frame starts in the fill ring |
| UmemFrames.CountFragments | bpf/AF_XDP/toasty.c:1434-1438 | the fragments submitted are those up to the last end of a packet, those of a packet begun earlier included |
| UmemFrames.Umem.KernelTake | bpf/AF_XDP/toasty.c:934-950 | the kernel takes the oldest frame of the fill ring; every frame stays in exactly one place |
| UmemFrames.Umem.KernelDeliver | bpf/AF_XDP/toasty.c:1453-1468 | the same when it delivers a received frame |
| UmemFrames.Umem.KernelSend | bpf/AF_XDP/toasty.c:1441-1444 | the same when it takes a frame to send |
| UmemFrames.Umem.KernelComplete | bpf/AF_XDP/toasty.c:1240-1252 | the same when it completes a frame |
| UmemFrames.Umem.PeekRx | bpf/AF_XDP/toasty.c:1453-1468 | the frames read move from the receive ring to the program |
| UmemFrames.Umem.PeekCompleted | bpf/AF_XDP/toasty.c:1240-1252 | no more frames are taken back than are outstanding |
| UmemFrames.Umem.RefillReceived | bpf/AF_XDP/toasty.c:1470-1534 | the frames held go back to the fill ring, which always has room; every frame stays in exactly one place, and the receive slots of the packets that ended are released |
| UmemFrames.Umem.RefillCompleted | bpf/AF_XDP/toasty.c:1254-1290 | the same for completed frames, of which as many fewer are outstanding |
| UmemFrames.Umem.Transmit | bpf/AF_XDP/toasty.c:1403-1451 | the frames held go to the transmit ring in order, complete packets submitted, the rest kept back; every frame stays in exactly one place |

## Left out

- DynamicHeap.Heap.Allocate: items below 9 bytes are excluded, because the class index then leaves the table and the source reads outside it; `SizeClasses.RequestInRange` states that this is exactly the excluded range.
- DynamicHeap.Heap.Deallocate: asks for the offset of a live allocation, as the source does; releasing anything else is undefined there.
- Cache.Cache.Delete: a key whose item the log has overwritten may still be reported as found, because the source matches before it checks whether the item is still there.
- Cache.Run: a key is given up by the account as soon as its bucket is set again, because which slot is then taken depends on the slots and not on the operations alone.
- Cache.Cache.FindEmptyOrOldest: says which distance is kept, not that the oldest item is evicted, which does not hold.
- SharedCache.PublishKeeps: that the sweep visits the bucket in time is a hypothesis, bounded as above, on the step that moves the tail; how threads are scheduled is not modelled. In the sequential cache it is proved.
- ConcurrentGet.HitsAreSound: the lock count of one lookup is below 2^31, and memory accesses are single and in order; weaker memory orders and compiler reordering are not modelled.
- BtfDump.Dump.DumpType: an error leaves types half ordered, so a call after a failed one is excluded although the source accepts it; that every cycle passes through a struct or union is a hypothesis on the graph (`BtfGraph.Graph.Ok`); that -ELOOP is reported exactly for loops is claimed for graphs without function prototypes and unknown kinds; typedefs may be queued twice.
- BtfDump.Dump.AddEmitQueueId: allocation failure of the queue is not modelled.
- MaglevTable.Configure: which slots stay without a backend, and for which sets of backends some do, is not decided; the number is.
- MaglevRow.EntryIsMod: 32-bit overflow, which C leaves undefined, is taken to wrap around.
- L3Forward.Forward: asks that the bytes it reads are there, which the source does not check against the packet length.
- Sessions.Balancer.Handle: hardware addresses, the backend index put into the descriptor, allocation failure and the parsing of headers are not modelled; services, tables and backends are plain maps.
- ElementMap.Table.Insert: chains are sequences, so relinking of heap nodes is not modelled.
- LibbpfMap.HashMap.Insert: the append strategy is not modelled, which allows a key twice; keys that the caller's equality identifies are one key.
- ShmRegistry.Registry.Map: whether pages can be mapped is a parameter, and the mapping of memory itself is not modelled; the page size is taken as a divisor instead of a bit mask.
- ShmRegistry.Registry.Alloc: an entry of length 0 counts as live, as with an allocator that returns a block for 0 bytes.
- UmemFrames.Umem.Transmit: asks for room in the transmit ring; when it is full the source goes on with a short reservation, and frames are not conserved.
- UmemFrames.Umem.PeekRx: frames are counted by chunk, not by address within it.
- Refilling in last-in-first-out order (warm buffers), and the forwarding loop for layer 3 that reserves more slots than it submits.
- Eviction order and move-to-head of the cache, the build without eviction and its chained buckets, increments, batches and prefetching.
- The memory-use total, NUMA detection and file handling of the shared-memory registry.
- The linear-probing hash map beside toasty.c, whose deletion breaks probe sequences.
- Hash functions other than that of the backends' indices, which are parameters; sockets, options, statistics, configuration files and packet applications other than the two modelled.
- The text that the BTF dumper emits, name conflicts, and allocation failure there.
