# The bookkeeping of a GPU kernel driver, verified

This project models the bookkeeping of the PowerVR SGX kernel driver in Dafny and proves what its
data structures keep through every call: the table of typed handles that user processes hold, the
hash table under it, the GPU's page tables, the mapping of memory areas into user processes, and
four smaller mechanisms. Objects that the driver updates in place are classes whose methods follow
the C functions branch by branch; each has a validity predicate that all its methods keep, and an
abstract value in terms of which the methods are specified. Whatever the driver asks of the kernel
and can be refused, such as memory, is a Boolean parameter or a choice left open, so that
the contracts hold for every pattern of failures.

| files | what they model |
|---|---|
| `HashFunc.dfy`, `HashTable.dfy` | `pvr/hash.c`: the mixing function as a permutation of 32-bit words; the chained table that grows and shrinks, as a multiset of buckets and, for unique keys, as a map |
| `HandleModel.dfy` to `HandlePurging.dfy`, `HandleBase.dfy` | `pvr/handle.c`: the slot array, the free list and the batch list that share one link field, the rings of sub-handles, the hash index, batches, and purging; seen from outside, a map from handles to what they stand for |
| `BridgeSession.dfy` | the batch session of `pvr/bridged_pvr_bridge.h` as the dispatcher drives it, over any sequence of requests |
| `PageTables.dfy`, `MmuContext.dfy`, `Mmu.dfy` | `pvr/mmu.c`: mapping and unmapping in one context; table allocation and the sharing of heaps among all contexts of a device |
| `MemArea.dfy`, `MMap.dfy` | `pvr/mm.c` and `pvr/mmap.c`: where each byte of an area lies and where a user finds it; the life of the records that permit a mapping |
| `DevLock.dfy` | the wait-queue lock of `pvr/pvr_bridge_k.c`, for any number of threads and every interleaving |
| `SharedPB.dfy` | the shared parameter buffer of `pvr/pb.c`: create lock, reference count, and the memory handed over |
| `SwapChain.dfy` | the swap chain of `pvr/omaplfb_displayclass.c`, with its 32-bit arithmetic |
| `PagedLog.dfy` | the dump buffers of `pvr/pvr_debugfs.c` and the merging of buffer lists |

`dafny verify dfyconfig.toml` checks everything.

## What the code does that one would not expect

These are results of the proofs; each has a member that states it for all inputs or exhibits a case.

- **Growth can overwrite the free list.** `IncreaseHandleArraySize` takes `ui32FirstFreeIndex == 0`
  to mean that the list is empty, although slot 0 may head it. `Base.NewBatch` leaves the base valid
  exactly if no growth is needed, nothing is free, or another slot heads the list; otherwise no free
  list whatever fits the anchors any more. `TwoBatches` gets there from a new base in three calls.
- **A failed batch is not reported.** `PVRSRVHandleBatchCommitOrRelease` clears the failure count
  before it tests it, so that a commit with failures undoes the batch and returns success
  (`Base.CommitOrRelease`, for all inputs; `FailedCommit` shows a run).
- **The handle array can be too small.** Its size in bytes is a 32-bit product, which is right exactly
  up to 89 478 485 handles (`ArrayBytesFit`); the limit on the number of handles is higher.
- **Freeing unmaps can stand still.** In `MMU_UnmapPagesAndFreePTs` a table record without a page
  makes the loop go on to the next round at the same address, so that nothing behind that page is
  unmapped (`Device.UnmapPagesAndFreePTs`, `ReachedBounds`; in `StandsStill` the first page of a range
  is unmapped and the last survives). It takes such a record inside the range that is freed, as a
  failed allocation leaves it behind. A range that `MMU_Alloc` granted has tables throughout, and as
  long as it is mapped as a whole it has no such record (`MappedIsReached`), so that an allocation
  that is mapped and freed leaves no trace (`Device.AllocAndFree`).
- **One table too few at the top.** The saturating sum in `_DeferredAllocPagetables` is exact if and
  only if the range ends at or below the last 4 MB of the address space. Above, one table is missing,
  and all are for a range so large that the padded size wraps around (`CoverageIsExact`). The heaps
  of `pvr/sgxconfig.h` all end below 256 MB, the limit in `pvr/sgxfeaturedefs.h:33` that is asserted in
  `pvr/mmu.c:274`, so that only a range from outside the heaps gets there.
- **The largest areas have size 0.** The size that is mapped for an area is a 32-bit number. It comes
  out as 0 exactly for areas that take all pages of the address space, which can only be contiguous
  ones (`DetermineUsersSizeAndByteOffset`).
- **Duplicate keys.** `HASH_Insert` accepts a key that is there already. The table then is still the
  right multiset but represents no map (`DuplicateKeyRepresentsNoMap`).
- **Double mapping spoils the count.** `MMU_MapPage` only logs that an entry is already valid. The
  count of valid entries stays right exactly if it was not (`Context.MapPage`).
- **Rounding up can yield 0 or trap.** `sgx_buffer_align` divides by zero exactly for non-zero
  strides that are multiples of 1 MB, and returns 0 exactly if the sum in `roundup` overflows; the
  driver then offers no swap chain. For any other stride the size is the one that suits the stride
  modulo 1 MB, which is the size wanted exactly if the stride divides that one (`BufferAlign`), as it
  always does below 1 MB and does or does not above (`AboveTheLimit`).
- **A swap chain that cannot be replaced.** When the registration for frame buffer events fails, the
  chain is freed but stays recorded (`Display.Create`); from then on every creation and every
  destruction is refused (`NothingHelps`). One failed registration is enough (`EventsFailOnce`).
- **The second look matters.** Without the check between queueing and sleeping, the device lock
  could lose a wakeup (`WithoutCheckWakeupsGetLost`).
- **Handles above the limit.** Only handles up to `MAX_MMAP_HANDLE` survive the way to a mapping
  offset and back (`OffsetsAreHandles`).

## Model

| member | source | states |
|---|---|---|
| HashFunc.UnmixMix | pvr/hash.c:70-83 | the mixing of one 32-bit word can be undone |
| HashFunc.MixUnmix | pvr/hash.c:70-83 | every 32-bit value is the mix of some word: mixing is a permutation |
| HashFunc.HashFuncDefault | pvr/hash.c:59-86 | the loop over the words of the key yields the sum of their mixes modulo 2^32 |
| HashFunc.HashOfParts | pvr/hash.c:59-86 | the hash of a key is the sum of the hashes of its parts, with wrap-around |
| HashFunc.OneWordKeysNeverCollide | pvr/hash.c:59-86 | distinct keys of one word never have the same full hash |
| HashFunc.WordOrderIsLost | pvr/hash.c:59-86 | keys of any length that differ only in the order of their words always collide |
| HashTable.Table.constructor | pvr/hash.c:181-217 | a new table is valid and has no buckets |
| HashTable.Table.ChainInsert | pvr/hash.c:104-124 | the bucket becomes the head of the chain its hash selects, and nothing else changes |
| HashTable.Table.Rehash | pvr/hash.c:126-146 | all buckets reach the new table, each in the chain it belongs to there |
| HashTable.Table.Resize | pvr/hash.c:148-179 | the same buckets in a new table of the new size, or the very same table if there is no memory |
| HashTable.Table.Insert | pvr/hash.c:239-276 | one bucket more if it can be allocated, whether or not growing succeeds; the table doubles exactly if it is more than half full and there is memory |
| HashTable.Table.Remove | pvr/hash.c:286-333 | takes one bucket with the key and returns its value, or 0 if there is none; the table is halved, or cut to its minimum, exactly if it is less than a quarter full and there is memory |
| HashTable.Table.Unlink | pvr/hash.c:304-315 | exactly the bucket found leaves the table |
| HashTable.Table.Retrieve | pvr/hash.c:342-374 | the value of a bucket with the key, 0 exactly if there is no such bucket or its value is 0 |
| HashTable.InsertRefinesUpdate | pvr/hash.c:239-276 | for a key not in use, insertion is map update |
| HashTable.RemoveRefinesDelete | pvr/hash.c:286-333 | for unique keys, removal is map deletion and yields the value the map has |
| HashTable.HasKeyIffInMap | pvr/hash.c:342-374 | the keys found are those of the map |
| HashTable.DuplicateKeyRepresentsNoMap | pvr/hash.c:239-276 | inserting a key that is in use leaves a table that represents no map at all |
| HandleRings.UnlinkLeavesRing | pvr/handle.c:281-308 | removing a handle leaves its parent's ring closed, in order and without it |
| HandleRings.DetachKeepsForest | pvr/handle.c:281-317 | detaching a handle keeps all rings and the forest of sub-handles |
| HandleRings.AdoptKeepsForest | pvr/handle.c:237-279 | adopting a new child puts it last in the ring and keeps the forest |
| HandleFreeing.FreedOneMore | pvr/handle.c:319-361 | the iteration over the children goes on correctly after its current child was freed |
| HandleFreeing.FreedInSteps | pvr/handle.c:428-490 | detaching, freeing the children and disposing amount to freeing |
| HandleFreeing.ToFreeLists | pvr/handle.c:466-487 | a freed slot goes to the end of the free list, and the batch list keeps apart from it |
| HandleFreeing.IndexRemove | pvr/handle.c:435-446 | without the handle's key the index is that of the remaining handles |
| HandleGrowing.GrowKeepsLists | pvr/handle.c:647-677 | growth appends the new slots to the free list unless it overwrites it |
| HandleGrowing.ArrayBytesFit | pvr/handle.c:599-607 | the size asked for is that of the slots if and only if there are no more than 89478485, and too small otherwise |
| HandleGrowing.OverwrittenListIsLost | pvr/handle.c:657-660 | after an overwriting growth no list fits the free count and the anchors |
| HandleGrowing.TakeKeepsLists | pvr/handle.c:740-812 | taking the head of the free list and putting it on the batch list keeps both lists |
| HandleView.IndexFinds | pvr/handle.c:551-561 | the index binds a key to a handle exactly if that handle is live, not MULTI and has the key |
| HandleView.FreedIsSubtree | pvr/handle.c:428-490 | what freeing removes from the map is the handle with all its descendants |
| HandleView.StandsUnique | pvr/handle.c:724 | no two live handles that are not MULTI have the same key |
| HandleBatch.BatchDone | pvr/handle.c:1172-1200 | when the batch list is worked off, its handles are all gone or all ordinary handles |
| HandleBatch.FreedStaysClosed | pvr/handle.c:428-490 | freeing keeps descendants of batched handles batched |
| HandlePurging.CutKeepsCore | pvr/handle.c:1316-1340 | cutting off free slots at the end keeps the slot array well formed |
| HandleBase.Base.constructor | pvr/handle.c:1345-1381 | a new base is valid and empty |
| HandleBase.Base.UnlinkFromParent | pvr/handle.c:281-317 | the parent's ring closes around the other children in their order, and nothing outside the ring changes; without a parent nothing changes |
| HandleBase.Base.FreeHandle | pvr/handle.c:428-490 | frees the handle and its descendants and nothing else, keeps lists, rings and index, and terminates |
| HandleBase.Base.FreeChildren | pvr/handle.c:319-361 | all children are freed although each leaves the ring being walked |
| HandleBase.Base.Detach | pvr/handle.c:435-448 | the handle leaves the hash table and its parent's ring |
| HandleBase.Base.Unindex | pvr/handle.c:438-446 | the hash table represents the index without the handle's key |
| HandleBase.Base.Dispose | pvr/handle.c:458-487 | the slot becomes the tail of the free list, or stays on the batch list as partially free |
| HandleBase.Base.FindHandle | pvr/handle.c:551-561 | returns the one live non-MULTI handle with data, type and parent, or NULL if there is none |
| HandleBase.Base.GetHandleStructure | pvr/handle.c:363-396 | succeeds exactly for live handles, of the given type where one is given |
| HandleBase.Base.NewTotal | pvr/handle.c:614-634 | the request is granted exactly if it is within the maximum; growth is in whole blocks or up to the maximum; no wrap-around of the number of handles goes unnoticed |
| HandleBase.Base.IncreaseHandleArraySize | pvr/handle.c:609-682 | success exactly within the maximum and with memory; then the base is valid with the old slots untouched, or the free list is overwritten; up to the limit of HandleGrowing.ArrayBytesFit |
| HandleBase.Base.EnsureFreeHandles | pvr/handle.c:684-705 | afterwards enough slots are free, or nothing has changed |
| HandleBase.Base.FreeSlot | pvr/handle.c:740-753 | finds a free slot: the head of the list, or by search when purging is enabled |
| HandleBase.Base.AllocHandle | pvr/handle.c:707-817 | succeeds exactly if a slot and a hash bucket can be had; a failure changes nothing visible |
| HandleBase.Base.Alloc | pvr/handle.c:819-866 | a new handle with the data, or the existing one if both are SHARED; failures are counted during a batch |
| HandleBase.Base.AllocSub | pvr/handle.c:868-944 | the same for a sub-handle of a live parent; sharing needs the same parent; an unknown parent is refused |
| HandleBase.Base.AdoptChild | pvr/handle.c:263-279 | the new handle becomes the last child of its parent, and the handles still form a forest |
| HandleBase.Base.LookupAnyType | pvr/handle.c:963-984 | succeeds exactly for live handles and returns their data and type |
| HandleBase.Base.Lookup | pvr/handle.c:986-1006 | succeeds exactly for live handles of the type |
| HandleBase.Base.LookupSub | pvr/handle.c:1008-1041 | for a non-null ancestor, succeeds exactly for its strict descendants of the type |
| HandleBase.Base.GetParent | pvr/handle.c:1043-1063 | returns the parent of a live handle of the type |
| HandleBase.Base.Release | pvr/handle.c:1090-1109 | the handle and its descendants, and no others, stop resolving |
| HandleBase.Base.LookupAndRelease | pvr/handle.c:1065-1088 | returns the data and releases the subtree |
| HandleBase.Base.NewBatch | pvr/handle.c:1111-1146 | reserves the handles; the base stays valid if and only if purging is off and no list is overwritten |
| HandleBase.TwoBatches | pvr/handle.c:657-660 | three calls on a new base after which slots are free but no free list fits |
| HandleBase.FailedCommit | pvr/handle.c:1161-1232 | a run in which an allocation fails, the commit returns success, and the handle given out is gone |
| HandleBase.Base.CommitOrRelease | pvr/handle.c:1148-1233 | after a clean commit all handles stay, otherwise exactly the batched ones go; each batched slot is processed once; with a batch open it returns success in any case |
| HandleBase.Base.ProcessBatched | pvr/handle.c:1173-1200 | one slot of the batch list is freed or becomes an ordinary handle |
| HandleBase.Base.SetMax | pvr/handle.c:1245-1273 | the limit changes only in range, outside batches and before the first allocation |
| HandleBase.Base.EnablePurging | pvr/handle.c:1280-1297 | takes effect only before the first allocation; the base stays valid exactly if no batch is open |
| HandleBase.Base.Purge | pvr/handle.c:1299-1343 | with purging enabled the array is cut to the blocks in use exactly if these are at most half of it and memory is there; all handles keep resolving, and the free count stays the number of free slots |
| HandleBase.UsedIsExact | pvr/handle.c:1316-1322 | the search from the end stops at the last slot in use |
| HandleBase.Base.FreeAllHandles | pvr/handle.c:492-521 | every live handle is freed, whatever the nesting |
| HandleBase.Base.FreeBase | pvr/handle.c:523-549 | tearing down leaves no handle and an empty hash table |
| HandleBase.Base.FreeListIsExact | pvr/handle.c:466-487 | following the links from the head visits the free slots, each once, in as many steps as the free count says |
| HandleBase.Base.FreeCountIsExact | pvr/handle.c:487 | the free count is the number of slots that are neither live nor batched |
| HandleBase.Base.KeysAreUnique | pvr/handle.c:759-770 | a key stands for one live handle at most |
| HandleBase.Base.HandlesFormForest | pvr/handle.c:176-230 | from every handle the way up the parents ends; there are no cycles |
| BridgeSession.RunExplained | pvr/bridged_pvr_bridge.h:58-97 | over any run of a batch, what is left is what was there or was added, less the released subtrees |
| BridgeSession.ReleasedBatchIsUndone | pvr/handle.c:1148-1233 | after a released batch the handles are those from before, less what was released meanwhile and what hung below |
| BridgeSession.Process.NewHandleBatch | pvr/bridged_pvr_bridge.h:58-71 | succeeds exactly if a size is given and enough handles are free or can be made; the flag is set exactly on success; the process stays valid if and only if no free list is overwritten |
| BridgeSession.Process.CommitHandleBatch | pvr/bridged_pvr_bridge.h:77-85 | the flag is cleared and the batch settled or undone |
| BridgeSession.Process.ReleaseHandleBatch | pvr/bridged_pvr_bridge.h:90-97 | undoes an open batch and otherwise does nothing |
| BridgeSession.Process.ServeAll | pvr/bridged_pvr_bridge.h:58-97 | any sequence of requests amounts to a run in which each request has the one answer that the handles before it demand; the failures counted are those that happened |
| BridgeSession.Process.Serve | pvr/handle.c:819-1109 | a release frees the subtree exactly if the handle is live and of the type; an allocation shares exactly if a handle with that key can be shared, and else fails exactly if it clashes, or the parent is unknown, or space, memory or the bucket is missing |
| BridgeSession.ReservedIsThere | pvr/handle.c:1111-1146 | as long as a batch added fewer handles than it reserved, no request is refused for want of space |
| BridgeSession.Process.Dispatch | pvr/bridged_pvr_bridge.c:3024-3057 | whether a batch began; each request is answered as the handles demand; on every exit no batch is open, and the batch took effect wholly or not at all |
| PageTables.Pte | pvr/mmu.c:1009-1047 | a word made for a page is valid, has the page address, and has the access bits that the flags ask for |
| PageTables.ValidsUpdate | pvr/mmu.c:1001-1048 | how writing one word changes the number of valid entries |
| PageTables.WithWordSets | pvr/mmu.c:1001-1048 | one word changes, and the counts are right if and only if the count was adjusted for it |
| MmuContext.Context.constructor | pvr/mmu.c:468-597 | a new context has an empty directory and no tables |
| MmuContext.Context.MapPage | pvr/mmu.c:1001-1048 | maps exactly that page; the valid count stays right if and only if the entry was not valid before |
| MmuContext.Context.MapScatter | pvr/mmu.c:1050-1089 | each page leads to its address in the list, all other words are untouched |
| MmuContext.Context.MapPages | pvr/mmu.c:1091-1130 | the pages lead to consecutive addresses, or all to one for a DUMMY allocation |
| MmuContext.Context.MapShadow | pvr/mmu.c:1132-1188 | the pages lead to the addresses found by offset |
| MmuContext.Context.UnmapPages | pvr/mmu.c:1190-1259 | the pages lead nowhere, all other words and all tables stay, counts stay right |
| MmuContext.Context.ClearEntry | pvr/mmu.c:1233-1248 | one entry is cleared and counted down exactly if it was valid |
| MmuContext.Context.GetPhysPageAddr | pvr/mmu.c:1261-1291 | the address the tables lead to, 0 where there is no table |
| MmuContext.MapThenUnmap | pvr/mmu.c:1001-1259 | mapped pages translate to what was supplied, and to the very address if that is a page address; unmapping restores every word |
| MmuContext.MapAndFind | pvr/mmu.c:1001-1291 | the address found for a page that was mapped is the one supplied, cut to its page, and the word has the access asked for |
| Mmu.CoverageIsExact | pvr/mmu.c:282-299 | the number of tables is that of the slots touched if and only if the range ends below the last 4 MB; otherwise it is one less, or 0 where the padded size wraps around |
| Mmu.ReachedBounds | pvr/mmu.c:751-844 | all pages are reached if and only if no table record in the way lacks its page |
| Mmu.MappedIsReached | pvr/mmu.c:751-844 | a range whose entries are all valid is unmapped completely |
| Mmu.Device.SetEntry | pvr/mmu.c:141-235 | writes the slot in all directories for a shared heap, in the owner's otherwise |
| Mmu.Device.DeferredAllocPagetables | pvr/mmu.c:263-466 | succeeds exactly if every slot of the range can be given what it lacks; slots are filled in order up to the first failure, which may leave a record without page; all directories keep agreeing and no translation changes |
| Mmu.Device.BackSlot | pvr/mmu.c:307-458 | what becomes of one slot, its record, its page and its directory entry, for each pattern of failures |
| Mmu.Device.DeferredFreePageTable | pvr/mmu.c:115-252 | that table and no other goes from all directories, and its pages, and no others, translate to nothing |
| Mmu.Device.UnmapPagesAndFreePTs | pvr/mmu.c:751-844 | the pages up to the first record without page are unmapped, and of the tables met only those with valid entries remain |
| Mmu.Device.UnmapOne | pvr/mmu.c:769-838 | one round: the entry is cleared, and its table freed when its last valid entry went |
| Mmu.Device.Map | pvr/buffer_manager.c:1111-1151 | by whichever of the three ways the pages are mapped, each leads to the page supplied and all directories keep agreeing |
| Mmu.Device.AllocAndMap | pvr/buffer_manager.c:1081-1159 | allocating tables and then mapping never misses a table, and translation yields exactly the pages of the block, of the list or of the system's memory |
| Mmu.Device.AllocAndFree | pvr/buffer_manager.c:1081-1183 | after allocating, mapping and freeing every word is what it was, all pages of the range translate to 0, and only tables in use remain |
| Mmu.StandsStill | pvr/mmu.c:797-800 | a device on which freeing a range unmaps its first page and leaves its last mapped, because a record in between has no page |
| Mmu.Device.SharedTablesAreSeen | pvr/mmu.c:404-446 | in a shared heap every context's directory leads to the very tables the owner keeps |
| Mmu.SlotsOfHeap | pvr/mmu.c:95-112 | the slots of a heap are those through which its addresses go |
| Mmu.WalkIsWord | pvr/sgxmmu.h:30-55 | walking through a directory entry and a table as the device does is looking up the word |
| Mmu.Device.DeviceFinds | pvr/mmu.c:404-446 | in every context concerned the device finds each address of a heap where the tables of its owner lead |
| Mmu.Device.AllocationIsSeen | pvr/buffer_manager.c:1081-1159 | after an allocation was mapped, every context concerned sees each byte of it in the page supplied for it |
| Mmu.Device.InsertHeap | pvr/mmu.c:662-698 | afterwards the context agrees with the heap's owner on every slot, and so for every address, of the heap |
| Mmu.Device.CreateContext | pvr/buffer_manager.c:624-665 | a new context agrees with all shared heaps and has nothing else |
| Mmu.Device.RemoveContext | pvr/mmu.c:599-660 | the directory is emptied, the remaining contexts are the others in order, and the device stays valid if and only if the context owned no heap |
| Mmu.Device.AddHeap | pvr/mmu.c:859-911 | a heap whose slots are unused keeps the agreement |
| Mmu.Device.DeleteHeap | pvr/mmu.c:913-925 | all tables of the heap are freed, whatever they led to, and for every address of it the directories that had them are empty |
| MemArea.PagesAreContiguous | pvr/mm.c:589-602 | true exactly if each page follows the one before, in 32-bit arithmetic |
| MemArea.NewExternalPages | pvr/mm.c:604-637 | recognised as contiguous or not, every byte is at its place in the page that the list has for it |
| MemArea.NewIO | pvr/mm.c:650-675 | the area starts at the base address and goes on from there |
| MemArea.NewIORemap | pvr/mm.c:545-574 | the area starts at the base address and goes on from there; it exists exactly if ioremap succeeds |
| MemArea.NewVMalloc | pvr/mm.c:448-479 | every byte is at its place in the page that vmalloc took for it |
| MemArea.NewAllocPages | pvr/mm.c:694-752 | every byte is at its place in the page taken for it; without one of the pages there is no area and no page is kept |
| MemArea.AddressInRoot | pvr/mm.c:1049-1132 | the bytes of a part, nested to any depth, are those of its root from the total offset on |
| MemArea.NewSub | pvr/mm.c:851-884 | byte x of a part is byte offset + x of the whole |
| MemArea.BytesAreInPages | pvr/mm.c:1049-1132 | the page of every byte of every area, nested to any depth, is in range |
| MemArea.ContigAddresses | pvr/mm.c:1195-1220 | an area that is said to be contiguous is |
| MemArea.PageOfAddress | pvr/mm.c:786-815 | there is a page by offset exactly for areas of vmalloc or page memory and their parts, and it is the page of the physical address |
| MemArea.DetermineUsersSizeAndByteOffset | pvr/mmap.c:178-193 | in 32-bit arithmetic: the least number of whole pages that cover the area, or 0 exactly if these are all there are |
| MemArea.UserPage | pvr/mmap.c:391-428 | every page index used for a mapping is in range, and the contiguous form gives the same pages |
| MemArea.UserByte | pvr/mmap.c:178-193 | byte j is ByteOffset + j bytes into the user's pages, at the same place in its page, and among those mapped exactly if the size is not 0 |
| MemArea.DoMapToUser | pvr/mmap.c:357-432 | succeeds exactly if a contiguous range can be mapped at once or all its pages can be; then page k leads to the page of byte offset + k pages, through nested parts |
| MemArea.MapWhole | pvr/mmap.c:357-432 | after a successful mapping of at least one page the user finds each byte of the area at the address announced |
| MemArea.UserOfBlock | pvr/mmap.c:357-432 | the user of a part of device memory, nested to any depth, finds byte j at the base address plus the total offset plus j |
| MemArea.UserOfPages | pvr/mmap.c:357-432 | the user of a part of page memory finds byte j at its place in the page taken for it |
| MMap.OffsetsAreHandles | pvr/mmap.c:63-100 | a handle comes back from its offset if and only if it is within the limit, and then the offset is no page number |
| MMap.MMapOffsetFits | pvr/mmap.c:244-250 | an offset passes for a page number exactly if the area is contiguous |
| MMap.OffsetOfBlock | pvr/mmap.c:244-250 | the offset for a contiguous area or a part of one is the number of the page it starts in |
| MMap.Registry.RegisterArea | pvr/mmap.c:713-757 | a second registration is refused, the first lists the area |
| MMap.Registry.GetMMapData | pvr/mmap.c:195-267 | the process gets its one record, a new and pending one if it had none, with the right size and offset |
| MMap.Registry.Create | pvr/mmap.c:251-260 | a new record is in its area's list and pending, and referred to once |
| MMap.Registry.NewRecord | pvr/mmap.c:114-161 | a new record is in its area's list and neither pending nor mapped |
| MMap.Registry.Destroy | pvr/mmap.c:163-176 | the record leaves its area and the pending list, all others stay |
| MMap.Registry.ReleaseMMapData | pvr/mmap.c:269-335 | one reference less, and the order to unmap exactly with the last one of a mapped record |
| MMap.Registry.Find | pvr/mmap.c:337-355 | finds a record that is pending for the offset, the size, the process and, for a page number, the thread, if there is one |
| MMap.Registry.Map | pvr/mmap.c:536-630 | succeeds exactly if such a record is pending, the flags and the cache type are allowed and the kernel can map the pages; success in mapping at least one page makes every byte visible and the record mapped; any failure after the record was found destroys it; no other record changes |
| MMap.Registry.VOpen | pvr/mmap.c:456-489 | the record counts one mapping more |
| MMap.Registry.VClose | pvr/mmap.c:491-529 | the record goes exactly with its last mapping |
| MMap.Registry.RemoveArea | pvr/mmap.c:759-809 | succeeds exactly if no record is mapped and then leaves none; otherwise keeps all mapped ones |
| MMap.Registry.Disconnect | pvr/mmap.c:819-848 | exactly the pending records of the process go |
| MMap.Registry.OneHome | pvr/mmap.c:155-156 | a record is in the list of one area only |
| DevLock.StepKeepsInv | pvr/pvr_bridge_k.c:67-84 | every step of every thread keeps mutual exclusion and the wakeup promise |
| DevLock.EveryRunIsSafe | pvr/pvr_bridge_k.c:67-84 | in all interleavings: one holder at most, the lock word tells, it is set wherever the BUG_ON looks, no wakeup is lost |
| DevLock.EachFollowsTheCode | pvr/pvr_bridge_k.c:67-84 | whatever others do in between, each thread takes its steps in the order of the code, branching on what the lock word was |
| DevLock.DoesNotSpin | pvr/pvr_bridge_k.c:67-77 | between two attempts of a thread the lock was free for a moment, somebody was woken, or the thread was disturbed |
| DevLock.AllAreWoken | pvr/pvr_bridge_k.c:79-84 | a wakeup wakes all sleepers, and whoever it wakes leaves the queue |
| DevLock.SomebodySleeps | pvr/pvr_bridge_k.c:69-76 | a run after which a thread sleeps in the queue |
| DevLock.WokenInVain | pvr/pvr_bridge_k.c:69-76 | a run in which a thread is disturbed and goes on with the lock still held |
| DevLock.EverySleeperCanGetIn | pvr/pvr_bridge_k.c:67-84 | wherever a thread sleeps, the run can go on so that it gets the lock |
| DevLock.WithoutCheckWakeupsGetLost | pvr/pvr_bridge_k.c:73-74 | a run on which sleeping without the second check would be for ever |
| SharedPB.Device.Find | pvr/pb.c:46-157 | a share exactly if there is a buffer and registration succeeds; otherwise the lock, to one process at a time |
| SharedPB.Device.Add | pvr/pb.c:260-419 | succeeds exactly for the holder of the lock with everything allocated; a failure frees all that was handed over; the lock is given up |
| SharedPB.Device.Create | pvr/pb.c:356-393 | the new buffer holds the memory handed over, and its one share is all that is registered |
| SharedPB.Device.Cleanup | pvr/pb.c:159-219 | one reference less; with the last one every block is freed once |
| SharedPB.Device.FreeItem | pvr/pb.c:221-258 | releasing an item runs its callback once and keeps all counts |
| SharedPB.Device.Disconnect | pvr/resman.c:187-237 | nothing of the process stays registered, and a lock it had is free |
| SharedPB.Device.LockKeepsOthersOut | pvr/pb.c:286-316 | there is one buffer at most, and none while the lock is held: Add never finds one |
| SharedPB.Device.AllIsFreedInTheEnd | pvr/pb.c:159-219 | once all items are released, what was freed is what was handed over, as often |
| SharedPB.AddAndRelease | pvr/pb.c:159-419 | adding a buffer and releasing its one share frees everything |
| SwapChain.Gcd | pvr/omaplfb_displayclass.c:58-74 | the greatest common divisor, which every common divisor divides, with the combination it comes from |
| SwapChain.GcdIsGreatest | pvr/omaplfb_displayclass.c:57-74 | a common divisor that is a combination of the numbers is the greatest |
| SwapChain.LcmFromGcd | pvr/omaplfb_displayclass.c:87-88 | product by divisor is the least common multiple |
| SwapChain.CommonMultiple | pvr/omaplfb_displayclass.c:87-88 | cut to 32 bits, it is the multiple for the stride modulo 1 MB, and so right if and only if the stride is below 1 MB |
| SwapChain.BufferAlign | pvr/omaplfb_displayclass.c:80-91 | for every stride: when it traps, when it is 0, and else the least size for the stride modulo 1 MB; that is right if and only if the stride divides this least size |
| SwapChain.AboveTheLimit | pvr/omaplfb_displayclass.c:80-91 | a stride above 1 MB that gets the right size, and one that does not |
| SwapChain.Display.constructor | pvr/omaplfb_displayclass.c:550-660 | the buffer size is what sgx_buffer_align gives, 0 exactly if there is none, the number of buffers is what fits, and the rest is as passed in |
| SwapChain.Display.Create | pvr/omaplfb_displayclass.c:287-414 | when each result is returned; on success the chain is usable and no product overflowed; a failed registration leaves a dead chain recorded |
| SwapChain.Display.Destroy | pvr/omaplfb_displayclass.c:418-449 | frees the chain exactly if it is the one recorded |
| SwapChain.NothingHelps | pvr/omaplfb_displayclass.c:313-314 | once a dead chain is recorded, every later creation and destruction is refused |
| SwapChain.EventsFailOnce | pvr/omaplfb_displayclass.c:378-415 | two calls of which the first fails to register for events and the second is refused |
| SwapChain.Display.Fill | pvr/omaplfb_displayclass.c:361-376 | the buffers follow each other in the frame buffer, and following their links from the first shows each once and comes back |
| SwapChain.Display.BuffersAreDisjoint | pvr/omaplfb_displayclass.c:366-376 | different buffers share no byte and all lie in the frame buffer |
| SwapChain.Display.Flip | pvr/omaplfb_displayclass.c:537-539 | the offset in lines is exact if and only if the stride divides the buffer's offset, as it does below 1 MB, and then all lines of the buffer are virtual lines |
| PagedLog.Log.Write | pvr/pvr_debugfs.c:525-562 | succeeds exactly if the array has room and the system has a page wherever one is needed; appends the buffer, or on failure a part that ends at the boundary of the page that was missing |
| PagedLog.Log.Copy | pvr/pvr_debugfs.c:550-558 | the bytes come after those there are, which stay |
| PagedLog.Log.Free | pvr/pvr_debugfs.c:509-523 | gives back exactly the pages held |
| PagedLog.Log.Read | pvr/pvr_debugfs.c:1089-1118 | the bytes at the position up to the count, the end or the page boundary, whichever comes first |
| PagedLog.Log.ReadAll | pvr/pvr_debugfs.c:1089-1118 | reading on until nothing comes yields the whole log, whatever the sizes asked for |
| PagedLog.MergedIsUnique | pvr/pvr_debugfs.c:629-652 | a merged list has each id once and is not longer than what went in |
| PagedLog.BufList.AddUniqItems | pvr/pvr_debugfs.c:629-652 | the list holds the first item with each id, marked exactly if another one contradicts it |
| PagedLog.CreateMergedUniqList | pvr/pvr_debugfs.c:654-684 | the room computed is enough, and the result merges all lists |

## Left out

- HandleBase.Base: the hash function is any function of the key; the default one is treated separately in `HashFunc`.
- HandleBase.Base: handles are indices plus one, as in the source; the write-only index field of a slot and the debugging copy of the handle count are left out.
- HandleBase.Base: the growing array is a sequence field, so that copying on reallocation is not modelled.
- HandleBase.Base.IncreaseHandleArraySize: beyond the limit of HandleGrowing.ArrayBytesFit the slots promised have no memory in the source.
- HandleBase.Base.NewBatch: nothing is promised of what follows a batch opened with purging enabled, nor of purging enabled in an open batch, as batched slots may keep their flags after they are freed.
- BridgeSession.Process.Dispatch: requires that opening the batch does not overwrite the free list (see above); copying parameters in and out is left out.
- HashTable.Table: chains are sequences of buckets in an array, so that the aliasing of bucket pointers is not modelled; the shift of the bucket count is not cut to 32 bits.
- HashTable.Table.Resize: nothing is claimed about how often it happens; the thresholds for growing and shrinking are nearly adjacent.
- Mmu.Device: heaps are taken to use different directory slots where they could share a directory; ranges come from outside, as the arena allocator is not modelled; the counter ui32PTEntryCount, cache invalidation and PDUMP are left out.
- MmuContext.Context.UnmapPages: requires that no table record in the range lacks its page, which the source dereferences.
- MmuContext.Context.GetPhysPageAddr: requires that the table record at the address does not lack its page, for the same reason.
- Mmu.Device.RemoveContext: what a heap of a removed context may still be used for is not modelled.
- MemArea.Area: CPU, system and device physical addresses are one and the same; areas are not empty; the page lists of wrapped memory are page aligned, and page lists hold the area, which needs its number of pages not to wrap around.
- MemArea.NewExternalPages: requires that a contiguous block does not wrap around the address space.
- MMap.Registry: looking up the handle is a parameter; the process that asks is the current one, which the dispatcher in pvr/pvr_bridge_k.c:203-211 checks; a user mapping is represented by the record it refers to.
- MMap.Registry.Map: memory types are a parameter; what the kernel answers is a parameter, and the pages mapped before a failure are left to it.
- DevLock.Step: sequential consistency; only a thread that holds the lock unlocks it; fairness is not modelled.
- SharedPB.Device: one device; the resource manager is a set of registered items whose callbacks run once; dissociating memory is one Boolean; the reference count does not wrap.
- SwapChain.Display.Create: requires at least one buffer; the caller in pvr/deviceclass.c:783-794 asks for two or more.
- SwapChain.Display.constructor: requires exactly that the code does not divide by zero.
- SwapChain.Display.Destroy: for handles that were given out and not destroyed before.
- PagedLog.Log: pages are values in the page array; copying to user memory does not fail.
- The ioctl functions of the bridge, power management, events, the buffer-class drivers, the command queues, the arena allocator and the wrap cache of the buffer manager: mostly plumbing, or without a clean property.
