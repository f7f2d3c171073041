# Arena allocator of the ufbx viewer, in Dafny

This project models `native/viewer/arena.c`, the region allocator of the
ufbx viewer, and proves what its data structures promise. An arena hands
out memory in two ways:

- **Small blocks.** A request of at most 448 bytes with its 8-byte header
  comes from one of ten size classes. The block is the head of that class's
  LIFO free list if there is one. Otherwise it is carved at the bump cursor
  of the current page. When the page is full, a fresh page is requested,
  and it is adopted only if it leaves more room than the old one.
- **Big blocks.** Larger requests are separate `malloc` regions. They are
  linked into an intrusive doubly-linked list between two sentinels.

Each arena also keeps a registry of deferred callbacks. This is a table of
slots threaded by index into a doubly-linked active list and a
singly-linked free list, both ended by `SIZE_MAX`. Teardown runs the
active callbacks head to tail and then frees every linked big block. A
child arena is one such callback of its parent. On top of the allocator
sit `arealloc_size` and the growable lists `alist_*`.

The modules follow the structure of the C file:

| module | file | what it holds |
|---|---|---|
| `SizeClasses` | size_classes.dfy | the two constant tables, quantisation, and the proofs that the lookup picks the smallest fitting class and that `afree` routes a capacity back to the class it came from |
| `Memory` | memory.dfy | pointers, callbacks and the trace of calls made; the process heap as a class (`malloc`, `free`, blocks obtained without an arena); the outcome predicates `Allocated` and `Resized` |
| `Sequences` | sequences.dfy | duplicate-free sequences, used by every intrusive list |
| `BigList` | big_list.dfy | the sentinel-delimited big-block list as `next`/`prev` maps plus a ghost sequence of regions; insert after the head and O(1) unlink |
| `Blocks` | blocks.dfy | where blocks live: the cursor and its page, carved blocks, free lists and capacity headers; one lemma per allocation or free step |
| `AllocState` | alloc_state.dfy | the allocation fields of the control block as one value; each step of `aalloc_uninit_size` and `afree` as a function, with a lemma that it keeps every invariant |
| `Registry` | registry.dfy | the defer slot table on values; the steps of `arena_ext_defer`, `arena_ext_redefer` and `arena_ext_cancel` keep both lists linked and partition the slots |
| `Arenas` | arena.dfy | `class Arena`, the control block, whose methods update its fields in place; the teardown loops with their invariants |
| `ArenaApi` | api.dfy | the public entry points, which take an arena that may be null, plus `arena_create`, `arena_init` and `arena_free` |
| `ArenaLists` | alist.dfy | `class AList`, the `data`/`count` struct, with the `alist_*` operations; items are viewed as a sequence of byte strings |
| `Findings` | findings.dfy | the places where the code as written departs from its evident intent, each shown on a concrete input |

Memory is modelled per owner:

- A pointer is `Null` or a byte offset into a region returned by `malloc`.
- Every owner keeps a map from user pointer to capacity (the hidden
  header) and a ghost map from user pointer to contents. The owner is an
  arena, or the process heap for blocks allocated without one.
- The layout of a 64-bit target is used throughout:

  | item | bytes |
  |---|---|
  | control block | 224 |
  | extra bytes of the first page | 288 |
  | big header | 24 |
  | small and common headers | 8 |
  | defer slot | 32 |
  | defer header | 16 |

## Model

| member | source | states |
|---|---|---|
| SizeClasses.EntrySound | native/viewer/arena.c:14-22 | for every quantised size q in 0..56, size_to_class[q] is below 10, that class holds q units, the class below it does not, and the table never decreases |
| SizeClasses.QuantizeCovers | native/viewer/arena.c:326 | the ceiling division covers the byte count, and a small request quantises to at most 56, so the table index is in range |
| SizeClasses.ClassSizesIncrease | native/viewer/arena.c:14-16 | class sizes strictly increase |
| SizeClasses.ClassOf | native/viewer/arena.c:325-327 | the class of a small request is a valid class whose chunk holds the request, while the chunk of the class below does not |
| SizeClasses.ClassOfTable | native/viewer/arena.c:325-327 | the table lookup at the quantised size is exactly the smallest class whose chunk holds the request |
| SizeClasses.ClassMinimal | native/viewer/arena.c:14-22 | a class whose predecessor is too small comes no later than any class that fits |
| SizeClasses.ClassMonotone | native/viewer/arena.c:325-327 | a larger request never lands in a smaller class |
| SizeClasses.FreeClassOf | native/viewer/arena.c:409-415 | the class afree computes from a small capacity is a valid class index |
| SizeClasses.FreeRoutesToAllocClass | native/viewer/arena.c:409-417 | a capacity that a small allocation stamps is within the small range, and the chunk of the class afree computes for it holds the block with its header; that this is the very class the block was carved for is `AllocState.PushFreeOk` |
| SizeClasses.ChunkBounds | native/viewer/arena.c:334 | every chunk is between 16 and 448 bytes and a multiple of 8 |
| Memory.NewCapacity | native/viewer/arena.c:446-447 | the grown capacity is at least the request and at least twice the old capacity, and it is one of the two |
| Memory.Heap.Malloc | native/viewer/arena.c:364 | malloc returns null and changes nothing, or returns a fresh region of exactly n bytes |
| Memory.Heap.Release | native/viewer/arena.c:180 | free takes the region out of the live set and records it as released |
| Memory.Heap.Run | native/viewer/arena.c:172 | calling fn(user) appends exactly that call to the trace |
| Memory.Heap.AllocBlock | native/viewer/arena.c:311-316 | without an arena, a region of header plus payload is malloc'd, the capacity is stamped as total, and the user pointer is just past the header |
| Memory.Heap.FreeBlock | native/viewer/arena.c:404-406 | without an arena, afree frees the whole region, header included, and forgets the block |
| Memory.Heap.Store | native/viewer/arena.c:382 | a write into a block of the process heap changes that block's bytes at the given offset and nothing else |
| Memory.Heap.Realloc | native/viewer/arena.c:434-457 | arealloc_size without an arena satisfies `Resized`: null with count 0 gives null; a fitting request keeps the block; otherwise a block of NewCapacity bytes starts with the old contents and the old block is gone, or on failure no block changed |
| BigList.EmptyOk | native/viewer/arena.c:112-113 | the head and tail sentinels pointing at each other form a valid empty list |
| BigList.PushOk | native/viewer/arena.c:368-374 | linking a block after the head puts its region first and keeps every node linked to its neighbours |
| BigList.Neighbours | native/viewer/arena.c:420-421 | for every linked block, prev->next and next->prev point back at it, so afree's assertion always holds |
| BigList.UnlinkOk | native/viewer/arena.c:419-423 | splicing a block out removes exactly its region and keeps the rest linked, in order |
| Blocks.InitOk | native/viewer/arena.c:114-118 | after arenaimp_init the cursor sits just past the control block inside the 512-byte first page, no block exists and the big list is empty |
| Blocks.CarveOk | native/viewer/arena.c:334-340 | a bump carve hands out a block that overlaps no carved block and moves the cursor by exactly the class chunk, staying within the page |
| Blocks.FreshPageOk | native/viewer/arena.c:342-360 | corrected: the first chunk of a fresh page lies at its start; an adopted page has the cursor at the end of that chunk (where :357 as written sets it to `total_small`), and an unadopted one leaves the old cursor as it was |
| Blocks.PopOk | native/viewer/arena.c:328-332 | reuse takes the head of the class list, which becomes live with the new capacity and leaves every list |
| Blocks.FreeSmallOk | native/viewer/arena.c:409-417 | afree of a small block pushes it onto the list of its own class and keeps every list duplicate-free |
| Blocks.FreeBigOk | native/viewer/arena.c:418-424 | afree of a big block removes its capacity and its region and keeps the headers consistent |
| Blocks.BigLiveLinked | native/viewer/arena.c:418-424 | after the unlink, every remaining live big block is still in the list |
| Blocks.BigLinkedLive | native/viewer/arena.c:176-182 | after the unlink, every linked block is still live with a big capacity |
| AllocState.InitialOk | native/viewer/arena.c:107-119 | the initial state satisfies every invariant |
| AllocState.PushBigOk | native/viewer/arena.c:363-375 | the big path keeps every invariant, and the new block was not live before |
| AllocState.ClassFor | native/viewer/arena.c:323-327 | the class of a request of total bytes is valid, and its chunk holds the request with its header |
| AllocState.CarveFresh | native/viewer/arena.c:335-338 | the block at the cursor was neither live nor carved, and every carved block of that page ends before it |
| AllocState.CarveStepOk | native/viewer/arena.c:334-340 | a bump carve keeps every invariant |
| AllocState.PopStepOk | native/viewer/arena.c:328-332 | reuse of the free-list head keeps every invariant, and the head was not live |
| AllocState.Grown | native/viewer/arena.c:342-344 | next_size doubles, capped at 4096 |
| AllocState.PageSize | native/viewer/arena.c:346-347 | the requested page is at least next_size and at least the request |
| AllocState.GrownOk | native/viewer/arena.c:342-348 | growth keeps every invariant, and next_size stays at least 512, so the page takes the big path |
| AllocState.FirstOnPageOk | native/viewer/arena.c:352-359 | corrected: the first block of a fresh page, with the cursor moved to the end of its chunk (not to `total_small` as at :357) when the page is adopted, keeps every invariant |
| AllocState.FreshPageStepOk | native/viewer/arena.c:342-360 | with the corrected cursor (the chunk end, not `total_small` as at :357): the whole fresh-page path keeps every invariant, and the first block of the new page was not live |
| AllocState.PopGives | native/viewer/arena.c:328-332 | reuse hands out the list head with capacity total and leaves every other block as it was |
| AllocState.CarveGives | native/viewer/arena.c:334-340 | a carve hands out the block at the cursor with capacity total and leaves every other block as it was |
| AllocState.FreshPageGives | native/viewer/arena.c:349-360 | the fresh-page path hands out the page's first block with capacity total and leaves every other block as it was |
| AllocState.PushFreeOk | native/viewer/arena.c:409-417 | a freed small block goes onto the list of the class it was carved for, and every invariant is kept |
| AllocState.FreeThenPop | native/viewer/arena.c:328-332 | an allocation of the same size right after a free gets the block just freed (LIFO), and the free lists and capacities are again as before the free |
| AllocState.UnlinkAtOk | native/viewer/arena.c:418-424 | unlinking position i finds the neighbours at positions i-1 and i+1 and keeps every invariant |
| AllocState.UnlinkBigOk | native/viewer/arena.c:419-423 | for any live big block, afree's check that prev->next and next->prev point back at it holds, and the unlink keeps every invariant |
| AllocState.WriteOk | native/viewer/arena.c:382 | overwriting a live block's contents keeps every invariant |
| Registry.Fired | native/viewer/arena.c:171-174 | the calls made for a slot list are one per slot, in list order |
| Registry.EmptyOk | native/viewer/arena.c:110-111 | empty lists with both heads SIZE_MAX form a valid registry |
| Registry.ReuseOk | native/viewer/arena.c:247-266 | registering into the free head moves it to the head of the active list; the old head's prev points at it; every slot stays in exactly one list; the pending calls gain the new call in front |
| Registry.GrowOk | native/viewer/arena.c:250-266 | registering into a new slot num_defers of a grown table keeps the registry valid with the new call first |
| Registry.LinkAtHead | native/viewer/arena.c:257-266 | the common tail of both registration paths keeps both lists linked and every other slot's call as it was |
| Registry.CancelOk | native/viewer/arena.c:287-305 | cancelling the active slot at any position (first, middle or last, fixing the active head when it is first) takes it out of the active list, keeps the other calls in order, and makes it the free head |
| Registry.CancelSlot | native/viewer/arena.c:281-306 | the same, named by the slot: the rest of the active list keeps its calls, and every slot stays in exactly one list |
| Registry.RedeferOk | native/viewer/arena.c:270-279 | redefer changes only the slot's fn and user: the lists stay as they are and only the slot's own pending call changes |
| Arenas.Arena.constructor | native/viewer/arena.c:107-119 | arenaimp_init: the arena is live and valid, the state is the initial one, and both slot lists are empty with heads SIZE_MAX |
| Arenas.Arena.AllocBig | native/viewer/arena.c:363-375 | a big request mallocs header plus payload, links the block first and stamps capacity total, or changes nothing on failure |
| Arenas.Arena.PopFree | native/viewer/arena.c:328-332 | the block handed out is the old head of the class list, and the state is the Pop step |
| Arenas.Arena.CarveBump | native/viewer/arena.c:334-340 | the block handed out is the one at the cursor, not live and not carved before, and the state is the Carve step |
| Arenas.Arena.NewPage | native/viewer/arena.c:341-360 | with the corrected cursor (the chunk end, not `total_small` as at :357): next_size grows; the page is allocated through the big path; its first block is handed out; the page is adopted only when it leaves more room than the old one; on failure only next_size changed |
| Arenas.Arena.AllocSmall | native/viewer/arena.c:325-362 | with the corrected cursor (the chunk end, not `total_small` as at :357): the state after the small path is exactly the step it takes (`SmallStep`): the Pop of the class-list head when the list is not empty; else, when the page has at least a chunk left, the Carve at the cursor, which moves pos by exactly that chunk; else the FreshPage step at the next region, or, when that page cannot be had, only next_size grown. The block has capacity total, is carved for the request's class, and every other block is kept |
| Arenas.Arena.AllocUninit | native/viewer/arena.c:319-376 | with the corrected cursor (the chunk end, not `total_small` as at :357): aalloc_uninit_size on an arena takes exactly `UninitStep`, the small path's step for a request that fits the largest class and the big path's PushBig otherwise, which on failure changes nothing; the block is new with capacity exactly total, or no block changed; a big request is linked first in the big list |
| Arenas.Arena.Alloc | native/viewer/arena.c:319-376 | the same step as AllocUninit (with the same corrected cursor), keeping the whole arena invariant, slot table included |
| Arenas.Arena.UnlinkBlock | native/viewer/arena.c:418-424 | afree of a big block as written: the neighbour check holds, and the block is unlinked but its region is not freed |
| Arenas.Arena.FreeBig | native/viewer/arena.c:418-424 | afree of a big block, corrected: unlinked and its region freed |
| Arenas.Arena.Release | native/viewer/arena.c:399-425 | afree with the corrected big free (the region is released, which :418-423 omits): null is ignored; a small capacity pushes the block on its class list and frees no region; a big one is unlinked and its region freed; either way the block is no longer live |
| Arenas.Arena.Store | native/viewer/arena.c:382 | a write into a live block changes only that block's bytes at the offset |
| Arenas.Arena.Overwrite | native/viewer/arena.c:389 | the same write, keeping the whole arena invariant and every registry field |
| Arenas.Arena.Drop | native/viewer/arena.c:454 | afree of a live block, with the corrected big free (the region is released, which :418-423 omits): exactly that block is removed, and a region is released exactly when the block is big |
| Arenas.Arena.DropBlock | native/viewer/arena.c:210 | the same as Drop for a block other than the slot table, keeping the whole arena invariant and the registry |
| Arenas.Arena.CopyOut | native/viewer/arena.c:449-452 | the moving path allocates NewCapacity bytes and copies the old contents to its start, keeping every other block |
| Arenas.Arena.Move | native/viewer/arena.c:446-456 | with the corrected big free (the region is released, which :418-423 omits): the moving path, then the old block is freed; on failure no block changed |
| Arenas.Arena.Realloc | native/viewer/arena.c:434-457 | arealloc_size on an arena, with the corrected big free (the region is released, which :418-423 omits) of the old block: null with count 0 gives null; a null pointer gets a fresh block; a fitting request returns the same pointer with nothing changed; otherwise the moved block has the old contents first and the old block is gone |
| Arenas.Arena.Resize | native/viewer/arena.c:434-457 | the same, stated as `Resized`, keeping the whole arena invariant (with the same corrected free) |
| Arenas.Arena.Reuse | native/viewer/arena.c:247-249 | registration takes the free head, which becomes the active head, and the pending calls gain the new call in front |
| Arenas.Arena.ResizeTable | native/viewer/arena.c:251-253 | the slot table grows to hold n slots, keeping every other block, or no block changed |
| Arenas.Arena.Append | native/viewer/arena.c:254-266 | registration into new slot num_defers, which is incremented; the pending calls gain the new call in front |
| Arenas.Arena.Grow | native/viewer/arena.c:250-266 | when no slot is free, the table grows and the new slot is registered; if the table cannot grow, SIZE_MAX is returned and the registry is unchanged |
| Arenas.Arena.ExtDefer | native/viewer/arena.c:239-268 | arena_ext_defer: the free head is reused, or else a new slot is appended; the slot heads the active list and its call is pending first; SIZE_MAX is returned with no slot changed and no block changed when the table cannot grow |
| Arenas.Arena.ExtRedefer | native/viewer/arena.c:270-279 | arena_ext_redefer replaces only the slot's fn and user, and so only that slot's pending call |
| Arenas.Arena.ExtCancel | native/viewer/arena.c:281-306 | arena_ext_cancel makes the call first when asked, takes the slot out of the active list, clears it and pushes it on the free list; the other pending calls keep their order |
| Arenas.Arena.CopyBlock | native/viewer/arena.c:201-207 | the block of arena_defer_size holds the header and then size bytes copied from data, or zeros |
| Arenas.Arena.DeferBlock | native/viewer/arena.c:201-207 | the same, keeping the whole arena invariant |
| Arenas.Arena.Enroll | native/viewer/arena.c:208 | the payload is registered with arena_ext_defer, or SIZE_MAX with the registry unchanged |
| Arenas.Arena.Register | native/viewer/arena.c:208-216 | on success the header records the slot and the pending calls gain fn(copy) in front; on failure the block is freed (by the corrected big free (the region is released, which :418-423 omits)) and null returned |
| Arenas.Arena.DeferSize | native/viewer/arena.c:195-217 | arena_defer_size: the copy of size bytes of data is registered to be passed to fn at teardown, or null is returned with the registry unchanged and the block it allocated, if any, freed again (by the corrected big free (the region is released, which :418-423 omits)) |
| Arenas.Arena.RunPending | native/viewer/arena.c:169-174 | the first loop of arena_free makes exactly the pending calls, head to tail |
| Arenas.Arena.ReleaseBig | native/viewer/arena.c:176-182 | the second loop frees exactly the linked big blocks, in list order |
| Arenas.Arena.Teardown | native/viewer/arena.c:166-182 | the magic becomes FREE, so a second teardown is refused; the pending calls are made head to tail; every linked big block is freed |
| Arenas.Arena.CancelRetain | native/viewer/arena.c:219-229 | arena_cancel_retain: null is ignored; otherwise the slot named in the header is cancelled, its call made first when asked, and the header marked FREE with slot SIZE_MAX; the block stays live |
| Arenas.Arena.Cancel | native/viewer/arena.c:231-237 | arena_cancel: the same as CancelRetain, then the block with its header is freed, by the corrected big free (the region is released, which :418-423 omits) |
| Arenas.Arena.Zeroed | native/viewer/arena.c:379-384 | a fresh block of total zero bytes, with every other block keeping its capacity and contents; on failure no block changed |
| Arenas.Arena.Spawn | native/viewer/arena.c:124-132 | the parent's half of arena_create: a new 512-byte block of the parent, registered first in its pending calls to tear the child down; every block of the parent other than the old slot table keeps its capacity and contents; on failure the pending calls are unchanged, every block of the parent is kept, and the block it allocated, if any, is freed again (by the corrected big free (the region is released, which :418-423 omits)) |
| Arenas.Arena.Enlist | native/viewer/arena.c:127-131 | the child's teardown is registered first in the parent's pending calls and the child's block stays live, with every other block but the old slot table kept; or SIZE_MAX comes back with the pending calls unchanged and exactly the child's block freed (by the corrected big free (the region is released, which :418-423 omits)) |
| Arenas.Arena.Disown | native/viewer/arena.c:185-188 | the parent's half of a child's teardown, with the corrected big free (the region is released, which :418-423 omits): the child's slot leaves the active list without its call being made, and the child's block is freed when the parent allocated it, releasing its region exactly when the block is big; the parent loses exactly that block, and every other block keeps its capacity and contents |
| ArenaApi.Put | native/viewer/arena.c:382 | a memset or memcpy into a block of the owner changes only that block's bytes |
| ArenaApi.AllocUninitSize | native/viewer/arena.c:308-377 | a new block of capacity exactly size*count, with or without an arena, and aalloc_capacity_bytes reports it; or null with no block changed |
| ArenaApi.AllocCopySize | native/viewer/arena.c:386-391 | the new block holds size*count bytes copied from data, or zeros when data is null |
| ArenaApi.AllocSize | native/viewer/arena.c:379-384 | the new block holds size*count zero bytes |
| ArenaApi.AllocCopyStr | native/viewer/arena.c:393-397 | the new block holds the string and its terminating zero |
| ArenaApi.Free | native/viewer/arena.c:399-425 | afree, with the corrected big free (the region is released, which :418-423 omits) in an arena: null is ignored; otherwise the block is no longer live, and without an arena its region is freed |
| ArenaApi.ReallocSize | native/viewer/arena.c:434-457 | arealloc_size with or without an arena satisfies `Resized` (in an arena with the corrected big free (the region is released, which :418-423 omits)) |
| ArenaApi.CreateRoot | native/viewer/arena.c:133-141 | arena_create without a parent, corrected: a 512-byte region holds the control block and the whole first page; the arena is live with nothing pending |
| ArenaApi.CreateChild | native/viewer/arena.c:124-141 | arena_create with a parent: the child is a 512-byte block of the parent, and the parent's pending calls gain the child's teardown in front; every block of the parent other than the old slot table keeps its capacity and contents; on failure the parent's pending calls are unchanged, every block of the parent is kept, and the block it allocated, if any, is freed again (by the corrected big free (the region is released, which :418-423 omits)) |
| ArenaApi.Create | native/viewer/arena.c:121-142 | arena_create dispatches on the parent: a parent's pending calls gain the child's teardown and its blocks other than the old slot table are kept; on failure a parent's pending calls and blocks are kept |
| ArenaApi.InitRoot | native/viewer/arena.c:144-160 | arena_init without a parent always succeeds, in the caller's storage, and marks the arena not allocated |
| ArenaApi.InitChild | native/viewer/arena.c:144-160 | arena_init with a parent registers the child's teardown first in the parent's pending calls, keeping every parent block other than the old slot table; or it fails with the parent's pending calls unchanged and no parent block changed |
| ArenaApi.Init | native/viewer/arena.c:144-160 | arena_init dispatches on the parent; without one it cannot fail; with one, the parent's blocks other than the old slot table are kept, and on failure its pending calls are unchanged and no block changed |
| ArenaApi.DestroyRoot | native/viewer/arena.c:162-193 | arena_free of a root: the pending calls run head to tail, then exactly the linked big blocks are released in list order, then the control block only when it was allocated; the live set loses exactly those regions |
| ArenaApi.DestroyChild | native/viewer/arena.c:162-193 | arena_free of a child, corrected (the cancel of :187 also for an inited child, and the corrected big free (the region is released, which :418-423 omits)): the pending calls run, the linked big blocks and then, when allocated, the child's 512-byte control block are released; the child's slot leaves the parent's active list and the other pending calls keep their order; the parent loses exactly the child's block when it allocated it, and otherwise its allocator state is unchanged |
| ArenaApi.Destroy | native/viewer/arena.c:162-193 | arena_free, corrected (a child's registration is cancelled even when arena_init placed it, where :184-192 cancels only an allocated child; and the corrected big free (the region is released, which :418-423 omits)): null is a no-op that releases nothing; otherwise the arena is FREE, exactly its pending calls were made, a child's slot leaves its parent's active list while the parent's other pending calls keep their order, the parent loses exactly the child's block when it allocated it and is otherwise unchanged in its blocks, and exactly its linked big blocks and then its control block, when allocated, are released |
| ArenaApi.DestroyInitedAsWritten | native/viewer/arena.c:184-192 | arena_free as written of a child placed by arena_init: the parent still has the child's teardown pending |
| ArenaLists.SwapRemove | native/viewer/arena.c:515-520 | moving the last item into slot i and dropping the last leaves the multiset of items minus item i |
| ArenaLists.ExtendedOk | native/viewer/arena.c:468-473 | after a successful arealloc and the write at index*size, the list is the old one grown by the written items |
| ArenaLists.ExtendedPrefix | native/viewer/arena.c:491-496 | after growing by n items with m written, the first count+m items are the old items then the written ones |
| ArenaLists.AList.constructor | native/viewer/arena.c:459-462 | a zero-initialised list is empty |
| ArenaLists.AList.Extend | native/viewer/arena.c:468-472 | the block grows through arealloc_size and the bytes are written at index*size, or no block changed |
| ArenaLists.AList.Push | native/viewer/arena.c:464-475 | alist_push_size appends the item (zeros for null) and returns its address; on failure null and the list unchanged |
| ArenaLists.AList.PushN | native/viewer/arena.c:487-498 | alist_push_n_size, corrected: appends all n items, and returns the first one's address |
| ArenaLists.AList.PushNAsWritten | native/viewer/arena.c:487-498 | alist_push_n_size as written: count grows by n, but only the first new item is written |
| ArenaLists.AList.Pop | native/viewer/arena.c:477-485 | alist_pop_size: an empty list gives null; otherwise count drops by one, the address of the popped item is returned, and the remaining items are unchanged |
| ArenaLists.AList.PopN | native/viewer/arena.c:500-508 | alist_pop_n_size: fewer than n items gives null and no change; otherwise count drops by n and the first popped item's address is returned |
| ArenaLists.AList.Remove | native/viewer/arena.c:510-522 | alist_remove_size, corrected: false iff index >= count; otherwise the last item moves into slot index, so the items are the old ones minus item index |
| ArenaLists.AList.RemoveAsWritten | native/viewer/arena.c:510-522 | alist_remove_size as written: false iff index >= count; otherwise count drops by one and the remaining items are the old first count-1, because item index is copied into the dropped slot |
| Findings.RootPageOverruns | native/viewer/arena.c:134 | a root made as written has a 296-byte region while its first page claims 512 bytes; a 200-byte request is carved past the end of the region |
| Findings.FirstOnPageOverlaps | native/viewer/arena.c:357 | when a request does not fill its class chunk, the cursor set to total_small lies inside the first block, and no carved-block invariant can hold |
| Findings.NineBytesShort | native/viewer/arena.c:357 | a 9-byte request does not fill its 24-byte class chunk |
| Findings.UnlinkForgetsRegion | native/viewer/arena.c:419-423 | after afree of a big block as written, the region is neither linked nor live, so teardown never frees it |
| Findings.PushNLeavesGap | native/viewer/arena.c:495 | pushing the items [7] and [9] as written gives [[7], [0]] rather than [[7], [9]] |
| Findings.RemoveKeepsIndex | native/viewer/arena.c:517-519 | removing item 0 of [[1], [2]] as written leaves [[1]] instead of [[2]] |
| Findings.WalkRest | native/viewer/arena.c:169-174 | a walk that reads the next index before the call makes exactly the pending calls of the rest of the list, even when a call cancels its own slot |
| Findings.WalkFiresPending | native/viewer/arena.c:169-174 | on a valid registry, that walk makes exactly the pending calls, head to tail |
| Findings.WalkAsWrittenSkips | native/viewer/arena.c:171-174 | the loop as written, on a registry whose newest slot tears down a child, makes only that call and skips the older one |

## Left out

- `aalloc_size` and `aalloc_copy_size` write through the result before any null check (arena.c:381-382, 388-389). A failed allocation is undefined behaviour there. The model writes only when the block is not null.
- On failure, `arena_init` calls `afree` on caller-owned storage (arena.c:152). That pointer is not a block of the parent. The model returns null without the free.
- A child arena's teardown runs from its parent's teardown and calls `arena_ext_cancel` on the parent, whose magic is already FREE (arena.c:187, 285). In the class model a callback is an event on the trace, not a nested teardown. The effect of that cancel on the parent's walk is modelled on values in `Findings` instead.
- Magic-number assertions are preconditions (`Live()`, the defer header's magic). In the C code they are `assert`s, which abort the process when NDEBUG is not defined and are compiled out when it is; the model covers neither the abort nor running on past a failed check.
- Callback bodies are not modelled: `fn(user)` appends `Ran(fn, user)` to the trace.
- `size_t` overflow of `size * count`, of `num_defers + 1` and of `capacity * 2` is not modelled: integers are unbounded. Registration requires `numDefers + 1 < SIZE_MAX`, so the failure sentinel never names a real slot.
- `malloc` success is a nondeterministic choice, and uninitialised bytes are arbitrary ghost values.
- Pointer arithmetic on hidden headers is modelled by per-owner capacity maps keyed by user pointer.
- `aalloc_copy_str` takes the string as bytes without a zero. `strlen` is that length.
- The `alist_*` operations take the owner arena, or null for the process heap, as the capacity maps live there. `Pop` and `PopN` take those maps as ghost parameters, since they do not touch memory.
- Arenas.Arena.Release, Arenas.Arena.Drop, Arenas.Arena.DropBlock, Arenas.Arena.Move, Arenas.Arena.Realloc, Arenas.Arena.Resize, Arenas.Arena.Register, Arenas.Arena.DeferSize, Arenas.Arena.Cancel, Arenas.Arena.Spawn, Arenas.Arena.Enlist, Arenas.Arena.Disown, ArenaApi.Free, ArenaApi.ReallocSize, ArenaApi.DestroyChild and ArenaApi.Destroy: they free a big block through `FreeBig`, which releases its region, not as arena.c:418-423 does, where the block is only unlinked and its region leaks (the as-written step is `Arenas.Arena.UnlinkBlock`, see Findings).
- Arenas.Arena.NewPage, Arenas.Arena.AllocSmall, Arenas.Arena.AllocUninit, Arenas.Arena.Alloc and AllocState.FreshPageStepOk: an adopted fresh page gets its cursor at the end of the first chunk, not at `total_small` as arena.c:357 sets it (the as-written cursor is `Findings.FirstOnPageAsWritten`, see Findings).
- ArenaApi.DestroyChild and ArenaApi.Destroy: a child's registration in its parent is cancelled whether or not arena_create allocated it, not only under `if (a->allocated)` as at arena.c:184-192 (the as-written teardown is `ArenaApi.DestroyInitedAsWritten`, see Findings).
- Where arena.c pairs an `assert` with a test of the same condition (arena.c:203, 365, 480, 503, 513), only the build without asserts is modelled: `DeferSize` and `AllocBig` return null, `Pop` and `PopN` return null, and `Remove` returns false. With asserts on, the process aborts instead, which the model does not represent.
- ArenaLists.AList.PushNAsWritten: requires n >= 1. With n == 0 the C code still writes one item, and may write past the end of the block.
- Findings.Walk and Findings.WalkAsWritten: they carry a fuel bound of the number of active slots, as the walk as written need not terminate on a general table.
- `arena.h` is not part of this model: its allocation macros (`aalloc`, `arealloc`, `aalloc_copy`) are taken as calls with `sizeof` of the element type.
- `native/viewer/serialization.c` is not part of this model: it is output glue over an external stream API.
- `native/viewer/viewer.h` is not part of this model: it declares rendering entry points only.

## Findings

| source | as written | input that shows it | evidently intended | confidence | as-written member | corrected member |
|---|---|---|---|---|---|---|
| native/viewer/arena.c:134 | a root arena mallocs `sizeof(a) + EXTRA_SIZE` (a pointer size, 296 bytes in all), while `arenaimp_init` sets a 512-byte first page | a 200-byte request on a fresh root arena is carved at the cursor and ends past byte 296 | malloc `sizeof(arenaimp_t) + EXTRA_SIZE` (512 bytes) | high; not executed | Findings.RootPageOverruns | ArenaApi.CreateRoot |
| native/viewer/arena.c:357 | an adopted fresh page sets `pos = total_small` | a 9-byte request (17 bytes with header, class chunk 24) on a full page; the next carve starts inside the first block, which a reuse may fill to 24 bytes | move the cursor past the whole class chunk | high; not executed | Findings.FirstOnPageOverlaps | AllocState.FirstOnPageOk |
| native/viewer/arena.c:419-423 | `afree` of a big block unlinks it but never calls `free` | any big block freed with `afree` is no longer linked, so the teardown walk never frees it: a leak | unlink, then free the block | high; not executed | Arenas.Arena.UnlinkBlock | Arenas.Arena.FreeBig |
| native/viewer/arena.c:495 | `alist_push_n_size` copies `size` bytes | pushing 2 one-byte items [7, 9] onto an empty list gives items [7], [0] | copy `n * size` bytes | high; not executed | ArenaLists.AList.PushNAsWritten | ArenaLists.AList.PushN |
| native/viewer/arena.c:517-519 | `alist_remove_size` copies item `index` onto slot `last` | removing index 0 from items [1], [2] leaves [1] | copy item `last` into slot `index` | high; not executed | ArenaLists.AList.RemoveAsWritten | ArenaLists.AList.Remove |
| native/viewer/arena.c:171-174 | the teardown loop reads `defers[slot].next` after making the call | slot 1 tears down a child made by `arena_create`, whose teardown cancels slot 1 and makes it the free head; the walk then follows the free list and skips slot 0's call | read the next index before the call | medium; not executed | Findings.WalkAsWrittenSkips | Findings.WalkFiresPending |
| native/viewer/arena.c:184-192 | the child's slot in the parent is cancelled only when the child was `allocated` | a child placed by `arena_init` and then freed leaves its teardown registered in the parent, so the parent's teardown runs `arena_free` on it again | cancel the parent slot whenever there is a parent | medium; not executed | ArenaApi.DestroyInitedAsWritten | ArenaApi.DestroyChild |
