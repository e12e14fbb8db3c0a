# A verified model of the xv6 allocators, shell helpers and line reader

This project models four pieces of an xv6 (RISC-V) teaching operating system and proves properties of them.

- **user/umalloc.c** is the user-space heap allocator. Each block starts with a 32-byte header: an 8-byte name, a size word whose bit 0 is the free flag, and two block-list links. Every block is on an address-ordered doubly linked block list. Free blocks are also on a doubly linked free list, whose links live in the first 16 payload bytes. The allocator splits and merges blocks and picks a free block first fit, best fit or worst fit. `malloc`, `free`, `calloc`, `realloc` and `malloc_name` are built on these steps. `free` gives a free last block of a page or more back to the host with `sbrk`.
- **user/crash.c** is the shell. The model covers:
  - its destructive tokenizer (`strspn`, `strcspn`, `next_token`);
  - the 100-slot command history;
  - the clean-up `main` applies to a line before tokenizing it;
  - the tokenize loop.
- **kernel/kalloc.c** is the kernel's page allocator: a LIFO free list of 4096-byte pages plus a reference count per physical page.
- **user/catlines2.c** is a buffered line reader. `fgets2` keeps its buffer and position in globals across calls; the model also covers the `main` loop that prints every line.

### Modules

| module | files it models |
|---|---|
| `SizeWord` | the header's size word: its packing, and why the model keeps size and flag as two fields |
| `Align` | the two roundings |
| `Placement` | the three fit policies as predicates on the free list's sizes |
| `ListOrder` | doubly linked lists as an order plus link maps, and what unlinking and inserting do to them |
| `HeapLayout` | the tiling, coalescing and flag invariants of the heap, on values |
| `HeapState` | the allocator state as one value, each pointer splice as a function, and the invariants each step keeps |
| `Umalloc` | the class `Heap`, whose methods perform the C code's steps on fields, and what `malloc` and `realloc` promise |
| `Tokenizer` | user/crash.c tokenizing |
| `ShellHistory` | the command history |
| `ShellLine` | the line clean-up |
| `CStrings` | NUL-terminated strings |
| `Kalloc` | kernel/kalloc.c |
| `LineReader` | user/catlines2.c |
| `Wrappers` | `Option` |

### Constants
- Heap:
  - the header is 32 bytes;
  - `split` leaves a block only of at least 32 + 16 bytes;
  - sizes are aligned to 16, and the heap grows by whole 4096-byte pages;
  - the placement policies are numbered 0 (first fit), 1 (best fit) and 2 (worst fit).
- Shell: 100 history slots. The shell reads lines into a 256-byte buffer. The source declares 128 token slots; the model's `Tokenize` has 129 (see Findings).
- Kernel: KERNBASE is 0x80000000, PHYSTOP is KERNBASE + 128 MB and PGSIZE is 4096, so there are 32768 reference counts. `kfree` fills a page with byte 1 and `kalloc` with byte 5. These are the xv6 RISC-V values; kernel/memlayout.h and kernel/riscv.h are not part of this model.
- Line reader: the read buffer is 512 bytes and `main` passes a 128-byte line buffer.

### Environment, as parameters
- The host's `sbrk` is a break counter. Each call takes a `granted` input saying whether the host agrees to grow the heap. The break never passes `base + HEAP_LIMIT` (0x7FFFF000 bytes): the host refuses such growth, so every size fits a 32-bit `uint`.
- `read` in user/catlines2.c is a sequence of replies. Each reply is either the bytes returned (at most 512) or a failure (-1). An empty sequence of bytes means end of file.
- `end`, the first address after the kernel, is an argument of `Kinit`.
- Addresses are integers; NULL is 0.

### How umalloc.c is modelled
`Umalloc.Heap` holds the globals `head`, `tail`, `free_head` and `current_fsm`. It keeps each header field in a map keyed by the header's address. Two ghost sequences record the order of the block list and of the free list. Every method is proved to move the fields, read as one `HeapState.State` value, exactly as the function of the same step in `HeapState` does. Lemmas there prove that each step keeps these invariants:
- the blocks tile `[base, brk)` in address order;
- each block's links name its neighbours;
- the free list holds exactly the blocks whose flag is set;
- after `free`, no two neighbouring blocks are both free.

## Model

| member | source | states |
|---|---|---|
| SizeWord.SetUsed | user/umalloc.c:56-61 | clears bit 0 of the size word and keeps every other bit |
| SizeWord.SetFree | user/umalloc.c:63-68 | sets bit 0 and keeps every other bit |
| SizeWord.GetSize | user/umalloc.c:77-82 | the size read has bit 0 clear; for a word below 2^32 the size together with the flag bit gives back the word |
| SizeWord.SetSize | user/umalloc.c:84-92 | the new word fits 32 bits, is free exactly when the old word was (or the size is odd), and reads back an even size unchanged |
| SizeWord.PackRoundTrip | user/umalloc.c:56-92 | unpacking a packed (even size, flag) word gives back the size and the flag |
| SizeWord.PackedSetters | user/umalloc.c:56-92 | on a packed word, set_used, set_free and set_size act on the (size, flag) pair as field updates do |
| Align.AlignSize | user/umalloc.c:97-104 | the identity on multiples of 16; up to 2^32 - 16 a multiple of 16 at least the input and less than 16 above it; above that the `uint` sum wraps to 0 |
| Align.AlignToPage | user/umalloc.c:106-113 | the identity on page multiples; up to 2^32 - 4096 a page multiple (hence a multiple of 16) at least the input and less than 4096 above it; above that it wraps to 0 |
| Align.PageRoundUp | user/umalloc.c:106-113 | the rounding sum of a non-multiple is the next page multiple: below 2^32 up to 2^32 - 4096, exactly 2^32 (so 0 once wrapped) above that |
| Align.AlignSizeIsLeast | user/umalloc.c:97-104 | no multiple of 16 between the input and the result: it is the smallest one |
| Align.AlignToPageIsLeast | user/umalloc.c:106-113 | no page multiple at least the input is below the rounding: it is the smallest one |
| Align.PageAligned | user/umalloc.c:436-447 | a page multiple is a multiple of 16, so a fresh block from `sbrk` is aligned |
| Placement.NoneStep | user/umalloc.c:339-346 | one more entry seen by the first-fit walk keeps "none adequate so far" or finds the first fit |
| Placement.BestStep | user/umalloc.c:356-363 | one step of the best-fit walk: only a strictly smaller adequate size replaces the pick |
| Placement.BestDone | user/umalloc.c:365 | at the end of the walk no pick means nothing is adequate, and a pick is the best fit, earliest among equals |
| Placement.WorstStep | user/umalloc.c:375-382 | one step of the worst-fit walk: only a strictly larger adequate size replaces the pick |
| Placement.WorstDone | user/umalloc.c:384 | at the end of the walk no pick means nothing is adequate, and a pick is the worst fit, earliest among equals |
| Placement.ChosenUnique | user/umalloc.c:387-401 | each policy picks at most one entry |
| Placement.ChosenExactly | user/umalloc.c:387-401 | a pick is made only by a policy numbered 0, 1 or 2, and only when some entry is adequate; `PolicyPicks` is the converse |
| Placement.PoliciesCompared | user/umalloc.c:334-385 | when all three policies pick, best fit's size <= first fit's <= worst fit's, and first fit's index is the lowest |
| Placement.FitsExist | user/umalloc.c:334-385 | when some entry is adequate, first, best and worst fit each pick one; with `FindFirstFit`'s NULL exactly when none is, the three agree on whether a block is found |
| Placement.PolicyPicks | user/umalloc.c:387-401 | a policy numbered 0, 1 or 2 picks an entry whenever one is adequate |
| Placement.Chosen | user/umalloc.c:387-401 | the entry `reuse_block` picks under each policy number; none for a number other than 0, 1 and 2 |
| Placement.PolicyExample | user/umalloc.c:334-385 | for free sizes 50, 200, 80 and a target 60, first fit picks 200, best fit 80 and worst fit 200 |
| ListOrder.IndexOf | user/umalloc.c:118-221 | the first position of a listed node |
| ListOrder.Without | user/umalloc.c:147-161 | the order without the first occurrence of a node: unchanged when absent, else one shorter, with no entry that was not there |
| ListOrder.IndexOfLeast | user/umalloc.c:118-221 | no earlier position holds the node |
| ListOrder.LinkedFrame | user/umalloc.c:124-145 | writing the links of a node outside the list leaves the list linked |
| ListOrder.LinkedNonNull | user/umalloc.c:138-139 | every entry of a linked list is a non-NULL node |
| ListOrder.Unlink | user/umalloc.c:147-161 | pointing a node's predecessor at its successor and back leaves the other entries linked in order; the node's own links are unwritten |
| ListOrder.UnlinkEnds | user/umalloc.c:207-221 | head and tail after unlinking: the successor becomes head when the first node goes, the predecessor tail when the last does |
| ListOrder.Insert | user/umalloc.c:166-205 | writing b's links and then pointing its new neighbours at it links the lengthened list in order |
| ListOrder.InsertMembers | user/umalloc.c:166-205 | inserting adds b and keeps every other entry |
| ListOrder.WithoutMembers | user/umalloc.c:147-161 | in a list without repeats, taking a node out removes exactly that node |
| ListOrder.InsertWithout | user/umalloc.c:166-221 | removing an inserted node gives the list back |
| ListOrder.Gap | user/umalloc.c:177-192 | the gap `block_list_add` links b into: its left entry is at most b and its right entry at least b |
| ListOrder.GapFrom | user/umalloc.c:189-192 | the walk from entry j on stops at or after j, at an entry at most b whose successor, if any, is at least b |
| ListOrder.InsertAscending | user/umalloc.c:166-205 | a node placed between a smaller and a larger neighbour keeps the order ascending |
| ListOrder.GapFromEnd | user/umalloc.c:189-201 | for a block above every entry the walk runs to the end, so the block is appended |
| ListOrder.InsertEnds | user/umalloc.c:166-205 | head and tail after an insertion: b becomes head at gap 0 and tail at the last gap |
| ListOrder.UnlinkNode | user/umalloc.c:147-161 | unlinking a listed node removes it and leaves its links stale; unlinking a node already unlinked changes nothing, so `realloc` may unlink twice |
| ListOrder.InsertDouble | user/umalloc.c:124-145 | inserting at a gap and removing again gives the list back |
| ListOrder.UnlinkDouble | user/umalloc.c:207-221 | unlinking a listed node through its own links keeps the rest linked |
| HeapLayout.ZeroName | user/umalloc.c:253 | the eight NUL bytes a fresh header's name is cleared to |
| HeapLayout.TiledBounds | user/umalloc.c:166-205 | a tiled heap's order ascends and every block lies in [base, brk) |
| HeapLayout.TiledAligned | user/umalloc.c:97-104 | every block starts a multiple of 16 bytes past base |
| HeapLayout.TiledDisjoint | user/umalloc.c:226-329 | two different blocks of a tiled heap are disjoint byte ranges |
| HeapLayout.TiledSplit | user/umalloc.c:245-267 | splitting block i at offset n tiles the same range with one more block |
| HeapLayout.TiledMerge | user/umalloc.c:292-328 | merging block i with block i + 1 tiles the same range with one block fewer |
| HeapLayout.TiledPop | user/umalloc.c:485-495 | dropping the last block leaves the heap tiled up to that block's start |
| HeapLayout.TiledAppend | user/umalloc.c:436-453 | a block placed at the break extends the tiling |
| HeapLayout.TiledIn | user/umalloc.c:226-329 | every block of a tiling is sized and lies inside [base, brk) |
| HeapLayout.TiledPrecedes | user/umalloc.c:226-329 | every block starts below the break |
| HeapLayout.CoalescedClose | user/umalloc.c:480-482 | a block in use, or one with no free neighbour, needs no exemption from coalescing |
| HeapLayout.FlagsInsert | user/umalloc.c:252-255 | a block newly on the block list is exempt until its free bit is settled |
| HeapLayout.FlagsExempt | user/umalloc.c:56-68 | writing x's free bit leaves only x possibly out of step with the free list |
| HeapLayout.FlagsSettle | user/umalloc.c:56-68 | once x's free bit agrees with the free list, nothing is exempt |
| HeapLayout.FlagsJoin | user/umalloc.c:124-145 | appending a free block to the free list settles it |
| HeapLayout.FlagsDrop | user/umalloc.c:147-161 | unlinking x from the free list alone leaves only x exempt |
| HeapLayout.FlagsRemove | user/umalloc.c:491-492 | taking x out of both lists leaves the rest in step |
| HeapLayout.CoalescedUsed | user/umalloc.c:480-482 | the exemption around a block in use can be dropped |
| HeapLayout.CoalescedMergeNext | user/umalloc.c:277-302 | a block absorbing its free successor keeps the rest coalesced; the block after the absorbed one is in use |
| HeapLayout.CoalescedMergePrev | user/umalloc.c:304-329 | a free block absorbed by its free predecessor leaves the list coalesced |
| HeapLayout.AllocFlip | user/umalloc.c:56-68 | setting the free bit takes a block out of use, clearing it puts it in |
| HeapLayout.AllocResize | user/umalloc.c:84-92 | resizing a block changes only its entry among the blocks in use |
| HeapLayout.AllocRename | user/umalloc.c:654-669 | renaming a block changes only its entry among the blocks in use |
| HeapLayout.AllocAddFree | user/umalloc.c:250-255 | a new free block adds nothing in use |
| HeapLayout.AllocSplit | user/umalloc.c:245-267 | a split resizes b's entry, if b is in use, and adds none for the free rest |
| HeapLayout.AllocAddUsed | user/umalloc.c:445-453 | a new block in use gets its own entry |
| HeapLayout.AllocRemoveFree | user/umalloc.c:491-492 | dropping a free block from the block list changes nothing in use |
| HeapState.LinksOf | user/umalloc.c:36-37 | a block's two block-list links name its neighbours in the order |
| HeapState.HeaderOf | user/umalloc.c:33-38 | every block's header is in place and lies inside the heap |
| HeapState.FreeAt | user/umalloc.c:41-44 | entry j of the free list is a block whose free links name its free-list neighbours |
| HeapState.NodeOf | user/umalloc.c:147-161 | a free-list node, or one just unlinked, still has its free links |
| HeapState.MergeNextFits | user/umalloc.c:292 | the sum `merge_with_next` stores fits the heap, so the `uint` addition cannot wrap |
| HeapState.MergePrevFits | user/umalloc.c:319 | likewise for the sum `merge_with_prev` stores |
| HeapState.AddFreeList | user/umalloc.c:124-145 | appending b links it after the last node; the old entries keep their order; unlinking b again gives the old free list back |
| HeapState.RemoveFreeList | user/umalloc.c:147-161 | unlinking a listed node removes it and leaves its links stale; unlinking a detached node changes nothing |
| HeapState.AddBlockList | user/umalloc.c:166-205 | linking b in keeps the block list linked and ascending; a block above every other is appended as tail; unlinking b again gives the old order back |
| HeapState.RemoveBlockList | user/umalloc.c:207-221 | unlinking a block keeps the rest linked in order, with head and tail repaired |
| HeapState.SplitFreshAt | user/umalloc.c:250 | the new header lies strictly inside b, so no block starts there yet |
| HeapState.SplitKeeps | user/umalloc.c:226-272 | a split with room for a header and free node past n leaves a well-formed heap: b has n bytes, a free block of the old size minus n follows at b + n, before b's old successor, and nothing else in use changes |
| HeapState.SplitThenFree | user/umalloc.c:426-459 | split then `free_list_add` of the piece: well formed, piece free-listed, b keeps n bytes, coalesced if b's old successor was in use |
| HeapState.MergeNextPlace | user/umalloc.c:296-301 | after the merge b is still at position i and the block after it was two places on |
| HeapState.MergeNextKeeps | user/umalloc.c:277-302 | `merge_with_next` leaves a well-formed heap: b has absorbed its free successor, which is gone from both lists, or nothing changed |
| HeapState.MergeNextCoalesces | user/umalloc.c:277-302 | around b the heap stays coalesced and b's new successor is in use |
| HeapState.MergeNextAllocated | user/umalloc.c:277-302 | among the blocks in use only b's entry can change, and it only grows |
| HeapState.MergeNextKeepsFree | user/umalloc.c:277-302 | a free b keeps its free-list position while it absorbs its successor |
| HeapState.MergeSetup | user/umalloc.c:305-313 | where b sits and what is known of it and its predecessor |
| HeapState.MergePrevKeeps | user/umalloc.c:304-329 | the free predecessor absorbs b, which leaves both lists, or nothing changes; coalesced afterwards when b was the only exception and its successor is in use; no block in use changes |
| HeapState.CloseAround | user/umalloc.c:480-482 | around a block whose neighbours are in use the exemption can be dropped |
| HeapState.FreeNeighbours | user/umalloc.c:480-482 | in a coalesced heap a free block's neighbours are in use |
| HeapState.ReuseKeeps | user/umalloc.c:420-423 | reusing free block r: clearing its bit and unlinking it leaves a coalesced heap with r in use at its old size and name |
| HeapState.GrowKeeps | user/umalloc.c:436-453 | a fresh page-sized block in use at the old break is appended to the block list; the heap stays coalesced and well formed |
| HeapState.GrowList | user/umalloc.c:453 | the block at the old break is appended and becomes the tail |
| HeapState.FreedKeeps | user/umalloc.c:475-476 | setting b's free bit and appending it to the free list: well formed, coalesced except around b, b no longer in use |
| HeapState.ExpandKeeps | user/umalloc.c:547-553 | unlinking realloc's free successor x leaves the state `merge_with_next` accepts |
| HeapState.ReleaseKeeps | user/umalloc.c:485-495 | one round of the release loop leaves a coalesced, well-formed heap one block shorter, the break lower by that block's size, no block in use changed |
| HeapState.ReleaseOnce | user/umalloc.c:485-495 | in a coalesced heap the release loop runs at most once: the block before a free last block is in use |
| HeapState.AllocatedLookups | user/umalloc.c:33-38 | a block in use has its header in place and its free bit clear |
| HeapState.RenameKeeps | user/umalloc.c:654-669 | writing a new eight-byte name into a block in use keeps the heap valid and changes only that block's name |
| HeapState.EmptyValid | user/umalloc.c:29-31 | the empty heap is valid and holds nothing in use |
| HeapState.SetFlag | user/umalloc.c:56-68 | `set_free` or `set_used`: only b's free bit changes |
| HeapState.Moved | user/umalloc.c:437-441 | a granted `sbrk(n)`: the break moves by n |
| HeapState.NewBlock | user/umalloc.c:445-450 | the header written at the old break: n bytes, in use, cleared name, no links, the break n higher (`GrowKeeps`) |
| HeapState.AddFree | user/umalloc.c:124-145 | `free_list_add`: b cleared and appended after the last node (`AddFreeList`) |
| HeapState.RemoveFree | user/umalloc.c:147-161 | `free_list_remove`: the neighbours named by b's own links are relinked and b's links kept (`RemoveFreeList`) |
| HeapState.AddBlock | user/umalloc.c:166-205 | `block_list_add`: b linked in at the gap its address falls into (`AddBlockList`) |
| HeapState.RemoveBlock | user/umalloc.c:207-221 | `block_list_remove`: b unlinked, head and tail repaired (`RemoveBlockList`) |
| HeapState.SplitOf | user/umalloc.c:244-271 | `split` past its size check: b keeps n bytes, a free block of the rest with a cleared name is linked after it (`SplitKeeps`) |
| HeapState.MergeNextOf | user/umalloc.c:277-302 | `merge_with_next`: a free successor leaves both lists and its bytes join b's, else no change (`MergeNextKeeps`) |
| HeapState.MergePrevOf | user/umalloc.c:304-329 | `merge_with_prev`: a free predecessor absorbs b, which leaves both lists, else no change (`MergePrevKeeps`) |
| HeapState.Releasable | user/umalloc.c:485 | the test of `free`'s release loop: the tail is free and at least a page |
| HeapState.Release | user/umalloc.c:486-494 | one round of that loop: the tail leaves both lists and the break drops by its size (`ReleaseKeeps`) |
| HeapState.TrimOf | user/umalloc.c:426-429 | valid again; b holds exactly n bytes when it had n + 48 or more, the rest appended to the free list, else all its bytes; no other block in use changes |
| HeapState.ReusedOf | user/umalloc.c:420-433 | valid again; r, not in use before, is in use with its name and n bytes or all its bytes as the split decides; the free list loses r and gains the split-off rest at its end |
| HeapState.FreshOf | user/umalloc.c:435-462 | valid again with the break `page` higher; a block with a cleared name is in use at the old break with n bytes or the whole page as the split decides; the free list gains the split-off rest at its end |
| HeapState.FreedOf | user/umalloc.c:475-483 | valid and coalesced again, b no longer in use, nothing else in use changed, the break unchanged |
| HeapState.FreedExact | user/umalloc.c:475-483 | a free successor leaves both lists and joins b; a free predecessor then absorbs b and keeps its free-list place, else b ends the free list with the joined bytes |
| HeapState.FreedNext | user/umalloc.c:475-481 | after marking, appending and `merge_with_next`, b ends the free list with its successor's bytes if that was free |
| HeapState.FreedNextWf | user/umalloc.c:475-481 | after marking, appending and `merge_with_next`, the heap is well formed and b is free-listed with the same block before it |
| HeapState.FreedPrev | user/umalloc.c:475-481 | the block before b keeps its size and its free flag through those steps |
| HeapState.FreedAround | user/umalloc.c:475-483 | a block in use is off the free list, and the blocks around it have headers and differ from it |
| HeapState.PrevExact | user/umalloc.c:304-329 | `merge_with_prev` on the last free-list entry: the predecessor grows by b's bytes and the free list loses its end, or nothing changes |
| HeapState.NextExact | user/umalloc.c:277-302 | `merge_with_next` on the last free-list entry: b grows by a free successor's bytes, which leaves the free list before b, or nothing changes |
| HeapState.Released | user/umalloc.c:485-495 | valid, no block in use changed, no releasable tail left; a releasable tail, the last block, leaves both lists and the break drops by exactly its size, else no change |
| HeapState.FreeOf | user/umalloc.c:465-496 | valid, b no longer in use, no releasable tail left; the break drops by exactly the size of the merged tail given back, or stays |
| HeapState.ShrunkOf | user/umalloc.c:532-544 | valid again; b keeps its name and holds exactly n bytes when the split leaves 48 or more, else all its bytes; the break unchanged |
| HeapState.ShrunkExact | user/umalloc.c:532-544 | after a split, the piece at b + n absorbs a free successor, which leaves the free list, and ends the free list |
| HeapState.ShrunkMerged | user/umalloc.c:536-541 | the split-off piece at b + n ends with its own bytes plus those of a free successor, or its own bytes only |
| HeapState.ShrunkKept | user/umalloc.c:536-541 | b keeps exactly n bytes through the split, append and merge |
| HeapState.ShrunkFrees | user/umalloc.c:536-541 | after the merge, a free successor has left the free list and the piece at b + n ends it |
| HeapState.ShrunkSplit | user/umalloc.c:536-539 | the split and `free_list_add` of the piece: well formed, the piece ends the free list, its successor is b's old one |
| HeapState.ShrunkSucc | user/umalloc.c:257-267 | the block after the split-off piece is b's old successor |
| HeapState.ExpandedOf | user/umalloc.c:546-562 | valid again with the break unchanged |
| HeapState.ExpandedExact | user/umalloc.c:546-562 | b holds exactly n bytes when the two blocks leave 48 more, else both blocks' bytes, with its name; the successor is off the free list and any cut-off piece ends it |
| HeapState.ExpandMerged | user/umalloc.c:547-557 | once the free successor is unlinked and absorbed: valid, b in use with both blocks' bytes, its new successor in use |
| HeapState.AllocatedDisjoint | user/umalloc.c:406-463 | blocks in use are disjoint ranges inside [base, brk), each 16-aligned past base |
| Umalloc.Heap.constructor | user/umalloc.c:29-46 | empty lists, the break at base, policy FIRST_FIT; valid with nothing in use |
| Umalloc.Heap.LastFree | user/umalloc.c:136-140 | the walk ends at the free list's last node |
| Umalloc.Heap.FreeListAdd | user/umalloc.c:124-145 | the state moves as `free_list_add`'s step: b cleared and appended after the last free node |
| Umalloc.Heap.FreeListRemove | user/umalloc.c:147-161 | the state moves as `free_list_remove`'s step: neighbours relinked, b's own links kept |
| Umalloc.Heap.FindGap | user/umalloc.c:189-192 | the walk stops at the last block below b |
| Umalloc.Heap.BlockListAdd | user/umalloc.c:166-205 | the state moves as `block_list_add`'s step: b linked in address order, head and tail updated |
| Umalloc.Heap.BlockListRemove | user/umalloc.c:207-221 | the state moves as `block_list_remove`'s step, head and tail repaired |
| Umalloc.Heap.CarveHeader | user/umalloc.c:245-255 | b shrinks to n bytes; a free block of the rest with a cleared name follows |
| Umalloc.Heap.LinkAfter | user/umalloc.c:257-267 | nb is linked right after b, and becomes tail if b was |
| Umalloc.Heap.SplitAt | user/umalloc.c:244-271 | the split state step once the size check has passed |
| Umalloc.Heap.Split | user/umalloc.c:226-272 | NULL and no change for a NULL block or one smaller than n + 32 + 16; else the new free block at b + n, as the split step says |
| Umalloc.Heap.Absorb | user/umalloc.c:292-328 | p takes x's bytes and x leaves the block list; tail updated |
| Umalloc.Heap.MergeWithNext | user/umalloc.c:277-302 | a no-op unless the next block is free; else it leaves both lists and b takes its size |
| Umalloc.Heap.MergeWithPrev | user/umalloc.c:304-329 | a no-op unless the previous block is free; else b leaves both lists and the previous block takes b's size |
| Umalloc.Heap.FindFirstFit | user/umalloc.c:334-347 | the first free-list entry of at least the target size, or NULL when none is |
| Umalloc.Heap.FindBestFit | user/umalloc.c:349-366 | the smallest adequate entry, earliest among equals, or NULL |
| Umalloc.Heap.FindWorstFit | user/umalloc.c:368-385 | the largest adequate entry, earliest among equals, or NULL |
| Umalloc.Heap.ReuseBlock | user/umalloc.c:387-401 | the block the current policy picks, NULL when no block is adequate or the policy number is unknown |
| Umalloc.Heap.Sbrk | user/umalloc.c:437-441 | the old break, or -1 with no change for refused growth; shrinking always succeeds |
| Umalloc.Heap.WriteHeader | user/umalloc.c:445-450 | the fresh block: n bytes, in use, cleared name, no links |
| Umalloc.Heap.Trim | user/umalloc.c:426-429 | the state becomes `TrimOf`: b keeps exactly `total` bytes when it has at least `total` + 48, and the rest, a free block at b + `total`, is appended to the free list; otherwise b keeps all its bytes and the free list is unchanged |
| Umalloc.TrimmedBy | user/umalloc.c:426-429 | the two outcomes of `split` followed by `free_list_add` (no room: unchanged; room: split and append) are exactly `TrimOf` |
| Umalloc.Heap.SplitFree | user/umalloc.c:426-429 | when b has room past `total` it is split and the piece free-listed; otherwise nothing changes |
| Umalloc.Heap.Claim | user/umalloc.c:422-423 | the state moves as `set_used` then `free_list_remove` of r |
| Umalloc.Heap.TakeFree | user/umalloc.c:420-433 | the state becomes `ReusedOf`: r leaves the free list into use with its name, holding exactly `total` bytes and appending the split-off rest to the free list when that rest is at least 48 bytes, else all its bytes |
| Umalloc.Heap.TakeFresh | user/umalloc.c:445-462 | the state becomes `FreshOf`: a block in use with a cleared name at the old break, appended as tail, holding exactly `total` bytes with the rest of the page appended to the free list when at least 48 bytes are left, else the whole page |
| Umalloc.Heap.AppendFresh | user/umalloc.c:445-453 | the state moves as writing the header at the old break and linking it in |
| Umalloc.Heap.Malloc | user/umalloc.c:406-463 | NULL and no change for 0 and for an oversized request; else the policy's pick becomes `ReusedOf` the old state, else a fresh block at the old break with a cleared name becomes `FreshOf` it if `sbrk` agrees, else NULL with no change; the block holds exactly 32 + align(size) bytes when the split leaves 48 or more, else all it had |
| Umalloc.Heap.Place | user/umalloc.c:417-462 | reuse of the policy's pick (as `ReusedOf`), else growth by `align_to_page(total)` (as `FreshOf`) if `sbrk` agrees, else NULL with no change |
| Umalloc.Heap.PlaceReused | user/umalloc.c:420-433 | the reuse case of `malloc`: the pick becomes `ReusedOf` the old state, with the exact size and free list it gives |
| Umalloc.Heap.PlaceFresh | user/umalloc.c:435-462 | the growth case of `malloc`: the state becomes `FreshOf` the old one with the break raised by `align_to_page(total)`; NULL and no change when `sbrk` refuses |
| Umalloc.Heap.Free | user/umalloc.c:465-496 | no change for NULL; else the state becomes `FreeOf`: b freed, appended and merged as `FreedExact` states, then a free last block of a page or more removed from both lists with the break lowered by exactly its size; b is no longer in use, nothing else in use changes |
| Umalloc.Heap.MarkFree | user/umalloc.c:475-476 | the state moves as `set_free` then `free_list_add` |
| Umalloc.Heap.FreeBlock | user/umalloc.c:475-483 | the state becomes `FreedOf`: b marked free and appended to the free list, merged with a free successor, then into a free predecessor; valid and coalesced, the break unchanged |
| Umalloc.Heap.CanRelease | user/umalloc.c:485 | true exactly when the tail is a free block of a page or more |
| Umalloc.Heap.ReleaseOne | user/umalloc.c:488-494 | the last block leaves both lists and the break drops by its size |
| Umalloc.Heap.ReleaseTail | user/umalloc.c:485-495 | the state becomes `Released`: a free last block of a page or more leaves both lists and the break drops by exactly its size, once; otherwise nothing changes |
| Umalloc.Heap.Calloc | user/umalloc.c:499-508 | NULL and no change when nmemb * size does not fit 32 bits; else `malloc` of the product with its exact new state, granting at least 32 + nmemb * size bytes |
| Umalloc.CallocGrants | user/umalloc.c:499-508 | the outcomes of `calloc` (NULL for a product that does not fit 32 bits, else `malloc` of the product) meet `Callocs`: a granted block holds a header and nmemb * size bytes |
| Umalloc.Heap.Realloc | user/umalloc.c:511-584 | `malloc` for NULL; `free` (as `FreeOf`) and NULL for size 0; else resized in place as `ShrunkOf` or `ExpandedOf` when the block or its free successor suffices, else NULL with no change when `malloc` fails, else moved with min(old payload, size) bytes copied and the old block freed as `FreeOf` |
| Umalloc.Heap.Resize | user/umalloc.c:527-583 | the three cases of `realloc` for a block in use, each with its exact new state: `ShrunkOf`, `ExpandedOf`, or `malloc` then `FreeOf` |
| Umalloc.Heap.Shrink | user/umalloc.c:532-544 | the state becomes `ShrunkOf`: b keeps exactly `total` bytes and the excess, when at least 48 bytes, becomes a free block that absorbs a free successor and ends the free list (`ShrunkExact`); otherwise no change |
| Umalloc.Heap.SettleFreed | user/umalloc.c:539-540 | the new free block merges with a free successor; the heap is coalesced |
| Umalloc.Heap.Expand | user/umalloc.c:546-562 | the state becomes `ExpandedOf`: the free successor leaves the free list, b absorbs it and is trimmed to exactly `total` bytes when the two leave 48 bytes more (`ExpandedExact`) |
| Umalloc.Heap.Relocate | user/umalloc.c:565-583 | NULL with no change when `malloc` fails; else the new block is placed as `malloc` places it, the copy length is min(old payload, size), and the old block is freed as `FreeOf` says |
| Umalloc.Heap.SetFsm | user/umalloc.c:648-652 | any number is stored as the policy; nothing else changes |
| Umalloc.Heap.MallocName | user/umalloc.c:654-669 | no change for a NULL pointer or name; else the header's name bytes become `Labelled` of the old bytes, and the heap stays valid |
| Umalloc.Heap.CopyName | user/umalloc.c:663-668 | the copy loop writes the first up to seven characters, then a NUL, then keeps the old bytes |
| Umalloc.Labelled | user/umalloc.c:663-668 | eight bytes whose C string is the new name cut to seven characters |
| Umalloc.MallocsGrants | user/umalloc.c:432-462 | a non-NULL `malloc` result is a block newly granted with at least the requested bytes and less than a minimum block more |
| Umalloc.GrantsKeeps | user/umalloc.c:406-463 | a block in use stays in use, unchanged, and is not the one granted |
| Umalloc.MallocsNull | user/umalloc.c:439-441 | `malloc` returns NULL only when no block fits and `sbrk` refuses, and then nothing changes |
| Umalloc.MallocsFound | user/umalloc.c:418-441 | when `malloc` succeeds, a block was adequate or `sbrk` agreed |
| Umalloc.MallocsReused | user/umalloc.c:420-433 | a granted policy pick with its name kept meets `malloc`'s promise |
| Umalloc.MallocsGrown | user/umalloc.c:436-462 | a granted fresh block at the break meets `malloc`'s promise |
| Umalloc.MallocsRefused | user/umalloc.c:439-441 | NULL with no change meets `malloc`'s promise when nothing fits and `sbrk` refuses |
| Umalloc.GrantsAfter | user/umalloc.c:420-462 | coming into use and then being trimmed is being granted |
| Umalloc.ResizedAfter | user/umalloc.c:532-562 | two steps that keep b in use and its name make a resize |
| Umalloc.RelocatedAfter | user/umalloc.c:568-581 | granting c, then freeing b, relocates b to c |
| Umalloc.ReallocsRefused | user/umalloc.c:568-571 | a failed `malloc` in case 3 leaves the old block intact and returns NULL |
| Umalloc.ReallocsMoved | user/umalloc.c:568-583 | case 3 with `malloc` succeeding meets `realloc`'s promise |
| Umalloc.TotalSizeAsWritten | user/umalloc.c:414-415 | the header plus aligned size as a 32-bit sum: aligned, below 2^32 |
| Umalloc.TotalSizeWraps | user/umalloc.c:414-415 | request 0xFFFFFFF0 yields a 16-byte block, smaller than its header |
| Umalloc.TotalSize | user/umalloc.c:414-415 | for a request the heap can hold: 16-aligned, at least 32 + size and under 16 more, a minimum block at least, and equal to the sum as written |
| Umalloc.CallocRequestAsWritten | user/umalloc.c:502 | the 32-bit product; equal to nmemb * size when that fits |
| Umalloc.CallocWraps | user/umalloc.c:502 | 65536 elements of 65537 bytes wrap to a request of 65536 bytes |
| CStrings.CString | user/crash.c:10 | the characters before the first NUL, with no NUL among them |
| CStrings.CStringPrefix | user/crash.c:10 | a NUL-free prefix of the C string's buffer is a prefix of the C string |
| CStrings.CStringStops | user/crash.c:59 | a NUL-free string, a NUL, then anything reads as that string |
| CStrings.CStringEnds | user/crash.c:56 | a buffer holding a NUL has its C string end before it |
| CStrings.CStringDrop | user/crash.c:54 | moving past k characters of a C string drops them from it |
| CStrings.CStringWrite | user/crash.c:59 | a write past the terminating NUL keeps the C string |
| CStrings.CStringUpTo | user/crash.c:51-59 | with a NUL at e and none in [a, e), the C string at a is s[a..e] |
| CStrings.CStringSplit | user/crash.c:42-54 | a NUL-free prefix starts the C string, and the rest is read on from there |
| Tokenizer.Skip | user/crash.c:6-17 | the first index from i holding no delimiter, or the end: all before it delimiters |
| Tokenizer.WordEnd | user/crash.c:19-33 | the first index from i holding a delimiter or NUL, or the end: none before it |
| Tokenizer.StrSpn | user/crash.c:6-17 | the length of the leading run of characters of chars, which stops at a NUL or non-member |
| Tokenizer.StrCSpn | user/crash.c:19-33 | the length of the leading run holding no character of chars, ended by one of them or the NUL |
| Tokenizer.OneOf | user/crash.c:11-31 | whether c appears among the characters of chars before its NUL |
| Tokenizer.Measure | user/crash.c:42-43 | the token of the C string at p runs from Skip to WordEnd |
| Tokenizer.NextTokenOf | user/crash.c:35-64 | the result and new `*str_ptr`: NULL when only delimiters remain; else the token start, a NUL over a following delimiter and the pointer past it, or NULL if the token ended the string |
| Tokenizer.NextToken | user/crash.c:35-64 | no change for a NULL pointer; else the line and pointer move as NextTokenOf says |
| Tokenizer.NextTokenNone | user/crash.c:45-49 | no token exactly when only delimiters remain, and then the line is unchanged |
| Tokenizer.FirstWord | user/crash.c:42-51 | a non-empty run after the leading delimiters is the first token and a word |
| Tokenizer.NextTokenWord | user/crash.c:51-63 | the returned token starts after the delimiters, reads back as the first token and is a word; if it ended the string it was the only token |
| Tokenizer.NextTokenRest | user/crash.c:58-61 | a NUL over the delimiter and the pointer past it; the tokens from there are the rest |
| Tokenizer.TokensSkip | user/crash.c:42 | leading delimiters do not change the tokens |
| Tokenizer.TokensWord | user/crash.c:43-63 | a word followed by the end or a delimiter is the first token |
| Tokenizer.WordEndIs | user/crash.c:19-33 | an index that stops a word after a run with no stop is the word's end |
| Tokenizer.TokensAreWords | user/crash.c:318-320 | every token is non-empty with no NUL and no delimiter |
| Tokenizer.Tokens | user/crash.c:318-320 | the maximal runs of non-delimiters, in order: what the loop of `next_token` calls yields (`TokensAreWords`, `TokensJoin`) |
| Tokenizer.TokensFrom | user/crash.c:318-320 | the same tokens read from the line buffer in place from index p (`TokensFromIs`) |
| Tokenizer.TokensJoin | user/crash.c:318-320 | words joined by non-empty runs of delimiters tokenize back into the words |
| Tokenizer.TokensBound | user/crash.c:313-321 | a string of n characters has at most (n + 1) / 2 tokens |
| Tokenizer.TokensFromIs | user/crash.c:318-320 | walking the line in place yields the tokens of its C string |
| Tokenizer.TokensFromSkip | user/crash.c:42 | delimiters skipped in place do not change the tokens |
| Tokenizer.TokensFromFrame | user/crash.c:54-61 | the tokens from q on depend on the line from q on only |
| Tokenizer.Tokenize | user/crash.c:312-321 | the count is the number of tokens of the line's C string; slot i points at a string reading as token i, and slot count is NULL; the line's C string is then its leading delimiters and first token |
| Tokenizer.CollectTokens | user/crash.c:318-320 | the loop stores exactly the token starts, in order |
| Tokenizer.Advance | user/crash.c:318-319 | one round of the loop keeps the reading state |
| Tokenizer.Slots | user/crash.c:319-321 | the slots with the given starts then NULL |
| Tokenizer.SlotsPush | user/crash.c:319 | storing the next start fills the next slot |
| Tokenizer.StepLast | user/crash.c:56-57 | a call that finds the last token records it after the ones before |
| Tokenizer.StepMore | user/crash.c:58-61 | a call that finds a token before a delimiter records it and leaves the rest |
| Tokenizer.FirstCut | user/crash.c:318-329 | the first token found leaves the line's C string as its leading delimiters and that token |
| Tokenizer.StepKeepsLine | user/crash.c:318-320 | a call past the end of the line's C string keeps it |
| Tokenizer.ReadingDone | user/crash.c:318 | when `next_token` finds none, every token has been found |
| Tokenizer.TokenSlotsOverflow | user/crash.c:313-321 | 128 words "a" in the 256-byte buffer yield 128 tokens, so `tokens[token_cnt] = 0` writes slot 128 |
| ShellLine.HashAt | user/crash.c:293-299 | the index of the first '#', or the length: no '#' before it |
| ShellLine.TrimEnd | user/crash.c:302-305 | the shortest prefix followed only by blanks: it does not end in a blank |
| ShellLine.CleanLine | user/crash.c:283-310 | the line is kept exactly when Cleaned says so, reading as its cleaned text; the buffer becomes CleanBuffer |
| ShellLine.CutComment | user/crash.c:293-299 | a NUL over the first '#', and that index, or no change |
| ShellLine.TrimBlanks | user/crash.c:302-305 | NULs over the trailing blanks; the length left is TrimEnd's |
| ShellLine.Blanked | user/crash.c:302-305 | the buffer with NULs over [n, h) |
| ShellLine.CleanBuffer | user/crash.c:293-305 | the buffer after the clean-up, same length |
| ShellLine.CleanedShape | user/crash.c:283-310 | a kept line is a non-empty prefix with no '#', not ending in a blank, followed only by blanks before the '#' |
| ShellLine.CleanedNone | user/crash.c:283-310 | a line is skipped exactly when empty, starting with NUL or '#', or blank up to its first '#' |
| ShellLine.CleanedIdempotent | user/crash.c:283-310 | cleaning a kept line again keeps it as it is |
| ShellLine.Cleaned | user/crash.c:283-310 | the text a line keeps after the clean-up, or none when it is skipped (`CleanedShape`, `CleanedNone`) |
| ShellLine.CleanBufferReads | user/crash.c:293-310 | a NUL-terminated line reads, after the clean-up, as its kept text |
| ShellHistory.WindowStart | user/crash.c:78 | the start of the window of the last 100 commands |
| ShellHistory.History.constructor | user/crash.c:80-81 | 100 empty slots and count 0 |
| ShellHistory.History.AddToHistory | user/crash.c:83-94 | slot (n - 1) % 100 gets the command; nothing else changes |
| ShellHistory.History.Record | user/crash.c:328-331 | recording keeps the slots as the log says, one command longer |
| ShellHistory.History.ByNumRecent | user/crash.c:96-111 | one of the last 100 commands is found by its number |
| ShellHistory.History.ByNumAliases | user/crash.c:96-111 | a number older than the last 100 returns the newer command sharing its slot |
| ShellHistory.History.ByNumWindowedIs | user/crash.c:96-111 | with a window check, a number finds its own command, else NULL |
| ShellHistory.History.LastIs | user/crash.c:113-121 | NULL for an empty history, else the command recorded last |
| ShellHistory.History.ByNum | user/crash.c:96-111 | `get_history_by_num` as written: NULL for num <= 0, num > count or an empty slot, else slot (num - 1) % 100 (`ByNumRecent`, `ByNumAliases`) |
| ShellHistory.History.ByNumWindowed | user/crash.c:96-111 | the corrected lookup: also NULL for a number older than the last 100 (`ByNumWindowedIs`) |
| ShellHistory.History.Last | user/crash.c:113-121 | `get_last_history`: NULL for count 0, else the lookup of number count (`LastIs`) |
| ShellHistory.History.ByPrefix | user/crash.c:123-148 | the most recent of the last 100 commands starting with the prefix, or NULL when none does |
| ShellHistory.StartsWith | user/crash.c:132-138 | true exactly when the prefix starts the command |
| ShellHistory.SlotOfWindow | user/crash.c:83-94 | each of the last 100 commands is still in its slot |
| ShellHistory.WindowSlot | user/crash.c:86 | a number below the window shares its slot with exactly one number in it |
| ShellHistory.ModShift | user/crash.c:86 | adding a multiple of 100 keeps the slot |
| ShellHistory.LatestBelowIs | user/crash.c:123-148 | the most recent match: none exactly when nothing matches |
| ShellHistory.LatestAt | user/crash.c:140-144 | the match at m with no later match is the answer |
| ShellHistory.LatestNone | user/crash.c:147 | nothing matches, nothing is found |
| ShellHistory.FoundIsLatest | user/crash.c:126-145 | the scan's first hit is the most recent match among the last 100 |
| ShellHistory.OlderMissed | user/crash.c:126-130 | an older number revisits a slot already scanned |
| ShellHistory.NoneIsLatest | user/crash.c:147 | a scan with no hit means nothing of the last 100 matches |
| Kalloc.ToInt32 | kernel/kalloc.c:30-34 | a 32-bit signed value congruent to the input mod 2^32 |
| Kalloc.Pa2Idx | kernel/kalloc.c:30-34 | for a page in [KERNBASE, PHYSTOP), (pa - KERNBASE) / PGSIZE, a valid index |
| Kalloc.PgRoundUp | kernel/kalloc.c:52 | a page multiple at least a and under a page above |
| Kalloc.PageRange | kernel/kalloc.c:52-54 | the pages from lo in steps of PGSIZE while they fit below hi |
| Kalloc.KfreeOf | kernel/kalloc.c:61-87 | the count drops by one; still positive leaves list and fill; else the page is filled with 1 and pushed |
| Kalloc.KallocOf | kernel/kalloc.c:92-113 | 0 and no change for an empty list; else the head, filled with 5, count 1 if in range |
| Kalloc.KrefOf | kernel/kalloc.c:141-147 | one count up by one |
| Kalloc.FreememOf | kernel/kalloc.c:133-138 | pages * 4096 / 1024 in 64-bit arithmetic: 4 * pages when no wrap |
| Kalloc.Kmem.constructor | kernel/kalloc.c:13-27 | an empty list and zero counts |
| Kalloc.Kmem.Kinit | kernel/kalloc.c:36-46 | counts zeroed then `freerange(end, PHYSTOP)` |
| Kalloc.Kmem.Freerange | kernel/kalloc.c:48-55 | `kfree` of every page of the range in turn |
| Kalloc.Kmem.Kfree | kernel/kalloc.c:61-87 | the state moves as KfreeOf says |
| Kalloc.Kmem.Kalloc | kernel/kalloc.c:92-113 | the state and result as KallocOf says |
| Kalloc.Kmem.Krefpage | kernel/kalloc.c:141-147 | the counts move as KrefOf says |
| Kalloc.Kmem.Kfreepages | kernel/kalloc.c:115-131 | the length of the free list |
| Kalloc.Kmem.Freemem | kernel/kalloc.c:133-138 | FreememOf of the free list's length |
| Kalloc.Pa2IdxBelow | kernel/kalloc.c:30-34 | below KERNBASE the index is negative, so `kalloc`'s check rejects it |
| Kalloc.Pa2IdxAliases | kernel/kalloc.c:30-34 | a far address aliases index 0: the check is not a full range check |
| Kalloc.PageIdx | kernel/kalloc.c:30-34 | consecutive pages from KERNBASE have consecutive indices |
| Kalloc.PageRangeCounted | kernel/kalloc.c:48-55 | the pages `freerange` frees below PHYSTOP are counted, one index apart |
| Kalloc.KallocEmpty | kernel/kalloc.c:97-101 | `kalloc` on an empty list returns 0 and changes nothing |
| Kalloc.KfreeThenKalloc | kernel/kalloc.c:78-100 | a page freed for the last time is the next `kalloc` result, count 1, list as before |
| Kalloc.KfreeShared | kernel/kalloc.c:68-76 | freeing a page still referenced only drops its count |
| Kalloc.KrefThenKfree | kernel/kalloc.c:68-76 | `krefpage` then `kfree` of a page in use restores the allocator |
| Kalloc.KrefCounts | kernel/kalloc.c:141-147 | exactly one count changes, by one |
| Kalloc.FreeCount | kernel/kalloc.c:61-113 | one `kfree` or `kalloc` changes the free list length by at most one |
| Kalloc.KallocKeeps | kernel/kalloc.c:92-113 | a page given out is off the list with count 1, and the invariant holds |
| Kalloc.KfreeKeeps | kernel/kalloc.c:61-87 | freeing a page in use keeps the invariant |
| Kalloc.KrefKeeps | kernel/kalloc.c:141-147 | a new reference to a page in use keeps the invariant |
| Kalloc.FreeRunList | kernel/kalloc.c:53-85 | a run of frees with counts at most 1 pushes all the pages, last first |
| Kalloc.FreeRunRefs | kernel/kalloc.c:53-70 | a run of frees drops the counts of its indices by one and no other |
| Kalloc.FreeRunFill | kernel/kalloc.c:53-79 | a run of frees with counts at most 1 fills each page with 1 |
| Kalloc.KinitIs | kernel/kalloc.c:36-55 | every page from the end of the kernel to PHYSTOP on the list, highest first; count -1 for each and 0 for the rest; each filled with 1 |
| Kalloc.KinitInv | kernel/kalloc.c:36-55 | `kinit` on an empty list establishes the invariant |
| Kalloc.FreeAllOf | kernel/kalloc.c:53-54 | `kfree` of each page of a list in turn; keeps the invariant (`FreeRunList`, `FreeRunRefs`) |
| Kalloc.KinitOf | kernel/kalloc.c:36-55 | counts zeroed, then every page from the end of the kernel to PHYSTOP freed (`KinitIs`) |
| LineReader.Reader.constructor | user/catlines2.c:8-10 | empty buffer state reading the given replies |
| LineReader.Reader.Read | user/catlines2.c:21 | the next reply: 0 when none is left, -1 for a failure, else its bytes at the buffer's start |
| LineReader.Reader.Fgets2 | user/catlines2.c:12-35 | buf holds the next line then a NUL; the result is its length, under max; later bytes untouched; buffer and replies as the line leaves them |
| LineReader.Reader.TakeLine | user/catlines2.c:18-32 | the loop copies exactly the line into buf[0..i) |
| LineReader.Reader.TakeChar | user/catlines2.c:20-29 | refills only when the buffer is used up; the fetch NextOf says; buf[i] gets the character |
| LineReader.Reader.CatLines | user/catlines2.c:49-55 | the lines printed are LinesOf the whole input |
| LineReader.LineStep | user/catlines2.c:18-31 | one loop round: the line ends here, or its next character is c and the rest follows |
| LineReader.NextOf | user/catlines2.c:20-28 | the next character: from the buffer, else from the next reply when it has bytes, else none (`NextStream`) |
| LineReader.LineOf | user/catlines2.c:18-32 | the line `fgets2` reads with the given room, and the buffer and replies left (`LineStream`, `LineEol`, `LineBound`) |
| LineReader.LinesOf | user/catlines2.c:49-55 | the lines `main` prints, up to the first empty one (`LinesCover`, `LinesShape`) |
| LineReader.NextStream | user/catlines2.c:20-28 | a fetch takes the next character off the input front; none comes only at its end |
| LineReader.LineBound | user/catlines2.c:18 | the line fits the room; with no room nothing is read (max <= 1 gives 0) |
| LineReader.LineStream | user/catlines2.c:18-32 | the line followed by what is left is the input: nothing lost or duplicated |
| LineReader.LineEol | user/catlines2.c:30-31 | only the last character can be '\n' or '\r' |
| LineReader.LineRest | user/catlines2.c:21 | the replies left are a suffix of those before |
| LineReader.LineShort | user/catlines2.c:23-24 | a short line without a line end ended at a read of 0 or less, with the buffer empty |
| LineReader.LineEmpty | user/catlines2.c:18-34 | the result is 0 exactly when there is no room, or the input ends with nothing buffered |
| LineReader.LineEmptyRest | user/catlines2.c:23-53 | when 0 is returned with room, nothing is left in the buffer |
| LineReader.LineNoRead | user/catlines2.c:20 | no read while the buffer holds the whole line |
| LineReader.LinesShape | user/catlines2.c:46-55 | every printed line is non-empty, shorter than the 128-byte `buf`, and has a line end only as its last character |
| LineReader.LinesCover | user/catlines2.c:53-55 | with no failing read, the printed lines put together are the whole input |

## Left out

- Printing: `malloc_print`, `print_padded_uint` and the `LOG`/`LOGP` macros only print, so they are not modelled.
- Payload bytes: the `memset` zeroing in `calloc` and the `memcpy` in `realloc` are not modelled. `Umalloc.Heap.Realloc` returns the copy length as an extra out-parameter instead.
- The free-list links live in the first 16 payload bytes; the model keeps them in their own maps.
- Raw pointer arithmetic is modelled on integer addresses. The model only admits pointers that a `malloc` returned; the C code accepts any pointer.
- The kernel side of `sbrk` is the `granted` input and the `HEAP_LIMIT` bound.
- Umalloc.Heap.Malloc: does not model a request whose block exceeds the heap limit. The model returns NULL for any request above `MAX_REQUEST`, where the C code wraps its 32-bit sum for requests near 2^32; see Findings.
- Umalloc.Heap.Realloc: does not model sizes above `MAX_REQUEST`, for the same reason.
- Umalloc.Heap.Calloc: does not model the wrapped product; it returns NULL when the product does not fit 32 bits. See Findings.
- SizeWord.GetSize: the allocator model keeps every size below 2^32, so the 64-to-32-bit truncation never changes a size there.
- Tokenizer.Tokenize: has 129 token slots, one more than the source's 128; see Findings.
- Locks: `acquire` and `release` in kernel/kalloc.c are left out; each call is one atomic step.
- `memset`'s page contents are one fill byte per page.
- `r->next` is stored inside the free page; the model keeps the order as a sequence.
- Kalloc.Kmem.Kfree: requires the page to have a count, since the C code indexes `ref_count` unchecked.
- Kalloc.Kmem.Krefpage: requires the page to have a count, for the same reason.
- The 32-bit width of each reference count is not modelled, because the counts stay small.
- user/crash.c I/O and process control are not modelled: reading the line (`read`, `gets`), built-in commands, `fork`, `exec`, `wait` and `print_history`.
- ShellHistory.History.AddToHistory: the `free` of the old slot and the `malloc`+`strcpy` copy are a value assignment. A `malloc` failure is not modelled.
- ShellHistory.History.ByPrefix: returns the command's value rather than a fresh copy.
- The line reader's `read` is the reply sequence; a reply holds at most 512 bytes (`Fits`).
- In user/catlines2.c, `main`'s usage check, `open`, `close` and `printf` are left out. `printf`'s `%s` stops at an embedded NUL, and the model does not cut the printed lines there.
- The line reader's ghost field `buffered` names the unread bytes of the read buffer; it has no C counterpart.

## Findings

| source | as written | input that shows it | evidently intended | confidence | as-written member | corrected member |
|---|---|---|---|---|---|---|
| user/umalloc.c:414-415 | `sizeof(struct mem_block) + align_size(size)` is a 32-bit sum that wraps | `malloc(0xFFFFFFF0)` computes a 16-byte block, smaller than its header | refuse requests whose block does not fit | not executed | Umalloc.TotalSizeWraps | Umalloc.TotalSize |
| user/umalloc.c:502 | `nmemb * size` is a 32-bit product that wraps | `calloc(65536, 65537)` asks `malloc` for 65536 bytes | NULL when the product overflows | not executed | Umalloc.CallocWraps | Umalloc.Heap.Calloc |
| user/crash.c:313-321 | `char *tokens[128]` leaves no slot for the terminating NULL after 128 tokens | 128 words "a" separated by single blanks: 255 characters plus their NUL | one more slot than the most tokens a line can hold | not executed | Tokenizer.TokenSlotsOverflow | Tokenizer.Tokenize |
| user/crash.c:96-111 | `get_history_by_num` answers for numbers no longer kept, with the newer command in the same slot | after 101 commands, `get_history_by_num(1)` returns command 101 | NULL for a number older than the last 100 | not executed | ShellHistory.History.ByNumAliases | ShellHistory.History.ByNumWindowedIs |
