# A verified model of the mm.c segregated-fit allocator

`mm.c` implements `malloc` and `free` over a heap that grows by `mem_sbrk`.
Every block starts with a one-word header. The header holds the block size in
bytes, which is a multiple of 16. Three status bits sit in the low nibble:

- bit 0: this block is allocated;
- bit 1: the previous block is allocated;
- bit 2: the previous block is exactly 16 bytes.

A free block larger than 16 bytes ends in a footer that copies its header.
A 16-byte free block has no footer: the bit-2 flag of the block after it is
how `coalesce_block` finds it.

Free blocks sit in twelve segregated lists chosen by `find_free_list`:

- lists 0 to 10 are doubly linked, with `next` in the first payload word and
  `prev` in the second;
- list 11 holds the 16-byte blocks and links only through `next`.

Each list is reached through its `root` and `leaf` arrays. `add_new_free_block`
pushes at the root. `find_fit` searches from the request's own class towards
class 0. It walks each list from its leaf, and takes list 11 by its root.
`malloc` places the block and splits off the rest when at least 16 bytes are
left over. `free` coalesces with the free neighbours, in the four cases of
`coalesce_block`. A prologue word `0x3` and an epilogue header of size 0
bracket the heap.

The model has two layers:

- **Value model.** The heap is a sequence of 64-bit words (`Codec.Word`, an
  integer in [0, 2^64)). A block is named by the word index of its header:
  word 0 is the prologue, the first block starts at word 1, and the epilogue
  is word `brk - 1`. A byte address is eight times a word index from the
  arena's 16-byte-aligned start, so a payload is 16-byte aligned exactly when
  its word index is even. NULL is word 0, which is never a block.
  - Each routine of `mm.c` is a function over a `Heap` (words, `root`, `leaf`).
  - `Mm.State` adds the break, `heap_start`, and two ghost views: the block
    layout (`blocks`, the headers in address order) and the abstract free
    lists (`lists`, each from root to leaf).
  - `HeapModel.Inv` is the heap invariant. It holds what `mm_checkheap`
    checks (prologue/epilogue, sizes, cached bits, footers, no two adjacent
    free blocks, list members free and of their class), except the dsize-bit
    test of `check_dsize_free_lists` (see "## Left out"). It adds the tiling
    of the heap and the soundness of every link word. Each operation is
    proved to keep it.
- **Imperative model** (`Allocator.Allocator`). The arena is an `array<Word>`.
  `root` and `leaf` are arrays. `brk` and `heapStart` are fields. Each routine
  of `mm.c` is a method that updates these in place, walking lists with
  loops as the source does. Each method is proved to leave exactly the state
  that the value function describes. So `Malloc` and `Free` inherit
  `Mm.MallocInv` and `Mm.FreeInv`.

## Model

| member | source | states |
|---|---|---|
| Codec.ExtractSize | mm.c:761-764 | the size field is a multiple of 16 and differs from the word only in its low four bits |
| Codec.Pack | mm.c:990-1005 | `my_pack`: the size with the three status bits ORed in; what it gives back is stated in `Codec.PackRoundTrip` and `Codec.DecodeEncode` |
| Codec.PackRoundTrip | mm.c:990-1005 | packing a multiple of 16 with three status bits, then extracting, gives back the size and each bit |
| Codec.DecodeEncode | mm.c:761-798 | decoding an encoded header gives back the tag (size, prev-dsize, prev-alloc, alloc) |
| Codec.EncodeDecode | mm.c:761-798 | a word re-encodes to itself exactly when bit 3, which no mask uses, is clear |
| Codec.SetPrevAllocFacts | mm.c:257 | `header \| prev_alloc_mask` sets the prev-alloc bit and changes no other field |
| Codec.ClearPrevAllocFacts | mm.c:309 | `header & ~prev_alloc_mask` clears the prev-alloc bit and changes no other field |
| Codec.SetPrevDsizeFacts | mm.c:567 | `header \| dsize_mask` sets the prev-dsize bit and changes no other field |
| Codec.ClearPrevDsizeFacts | mm.c:472 | `header & ~dsize_mask` clears the prev-dsize bit and changes no other field |
| Codec.SentinelWord | mm.c:182-183 | the prologue and epilogue word `my_pack(0, false, true, true)` is 0x3, as `check_pro_and_epi` demands |
| Sizes.Max | mm.c:753-756 | the result is at least both arguments and is one of them |
| Sizes.RoundUp | mm.c:974-982 | `my_round_up`, 16 for sizes up to 16; its meaning is stated in `Sizes.RoundUpSpec` |
| Sizes.RoundUpSpec | mm.c:974-982 | rounding to 16 gives the least multiple of 16 that is at least the size and at least 16 |
| Sizes.AdjustedSize | mm.c:225 | an adjusted size exists exactly when the rounded request fits a 64-bit word |
| Sizes.AdjustedSizeSpec | mm.c:225 | the adjusted size is a multiple of 16, at least 16, at least size + 8, below size + 24, and fits a word |
| Sizes.AdjustedSizeAsWrittenAgrees | mm.c:225 | the source's wrapping 64-bit arithmetic agrees with the exact size whenever the exact size fits |
| Sizes.AdjustedSizeAsWrittenWraps | mm.c:225 | the source's arithmetic gives 16 bytes for a request of 2^64 - 1 and 0 bytes for 2^64 - 9 |
| Sizes.FindFreeList | mm.c:1032-1072 | the class is in -1..11; it is 11 exactly for 16 bytes, 0 exactly from `chunksize` up, and -1 exactly for sizes below 64 other than 16, 32 and 48 |
| Sizes.ClassTotal | mm.c:1032-1072 | every positive multiple of 16 has a class in 0..11 |
| Sizes.NonMinimumClassSize | mm.c:1032-1072 | a block outside class 11 is at least 32 bytes, so it has room for both links |
| Sizes.ClassBounds | mm.c:1032-1072 | every size is at least its class floor, and classes 1..6 lie below the floor of the class above |
| Sizes.SkippedClassesTooSmall | mm.c:1032-1072 | a class with a larger index than the request's holds only smaller blocks, unless the request is 128 bytes |
| Sizes.ClassGapAt128 | mm.c:1054-1058 | 128 bytes is class 7 but 144 bytes is class 8 |
| Sizes.IntendedFreeList | mm.c:1054-1056 | the classification with class 7 as 128..255 bytes; it agrees with `FindFreeList` exactly outside 129..255 |
| Sizes.IntendedSkippedTooSmall | mm.c:1032-1072 | with the intended classes, every class above the request's holds only smaller blocks, with no exception at 128 bytes |
| FreeLists.IndexOf | mm.c:907-937 | the position found holds the block, and no earlier position does |
| FreeLists.RemoveAt | mm.c:907-937 | in a list without duplicates, removing an entry cuts it out and keeps the rest in order |
| FreeLists.RemoveMembers | mm.c:907-937 | removal keeps exactly the other entries |
| FreeLists.RemoveDistinct | mm.c:907-937 | removal keeps a list free of duplicates |
| FreeLists.PushDistinct | mm.c:860-902 | pushing a block that is not in the list keeps it free of duplicates |
| HeapModel.FooterOf | mm.c:851-854 | a block's footer word lies inside the heap after its header and before the epilogue |
| HeapModel.SpansDisjoint | mm.c:803-808 | two blocks of the layout never overlap: the lower one ends at or before the higher one's header |
| LinkModel.PushLists | mm.c:860-902 | only list c changes, and it gains h at its head |
| LinkModel.PopLists | mm.c:907-969 | only list c changes, and it loses exactly h |
| LinkModel.RootFacts | mm.c:106-108 | `root[c]` and `leaf[c]` are NULL exactly when list c is empty, and are otherwise its first and last entries |
| LinkModel.InsertKeepsLinks | mm.c:860-902 | a push keeps every link word and list end sound, with h the new root and `leaf` changed only for an empty list |
| LinkModel.DeleteKeepsLinks | mm.c:907-969 | a deletion keeps every link word and list end sound; `root` and `leaf` move only when h was an end |
| LinkModel.InsertKeepsTags | mm.c:860-902 | the words a push writes are never headers or footers |
| LinkModel.DeleteKeepsTags | mm.c:907-969 | the words a deletion writes are never headers or footers |
| LinkModel.PushMembers | mm.c:860-885 | a free block of class c may join list c, keeping every list entry a free block of its class |
| LinkModel.Unlink | mm.c:907-969 | `delete_block_from_list` and `delete_dsize_free_block` on the heap; the arena keeps its length, and `LinkModel.UnlinkKeeps` and `LinkModel.DeleteKeepsLinks` state what it keeps and removes |
| LinkModel.UnlinkKeeps | mm.c:907-969 | unlinking keeps the tiling, the tags and sound lists, leaves h in no list, and keeps every other entry |
| LinkModel.Link | mm.c:860-902 | `add_new_free_block` and `add_dsize_free_block` on the heap; the arena keeps its length, and `LinkModel.LinkKeeps` and `LinkModel.InsertKeepsLinks` state what it keeps and adds |
| LinkModel.LinkKeeps | mm.c:860-902 | linking a free unlisted block keeps the tiling, the tags and sound lists, with the block in the list of its class |
| FitModel.LastFit | mm.c:603-609 | the result is the last entry that fits, or -1 when none does |
| FitModel.FitFrom | mm.c:589-613 | NULL means no entry of a visited class fits and list 11, if visited, is empty; otherwise the block comes from a visited class and fits (list 11 aside) |
| FitModel.FindFitSpec | mm.c:589-621 | `find_fit`: the search from the request's class downwards; see `FitModel.FindFitSound`, `FitModel.FindFitNullVisited` and `FitModel.FindFitNullComplete` |
| FitModel.FindFitSound | mm.c:589-621 | a block found is a listed free block of at least `asize` bytes, from the request's class or a class of larger blocks |
| FitModel.FindFitNullVisited | mm.c:589-621 | when nothing is found, no entry of a visited class fits |
| FitModel.FindFitNullComplete | mm.c:589-621 | when nothing is found, no free block of the heap fits, for every request other than 128 bytes |
| FitModel.FindFitMisses144 | mm.c:1054-1058 | a 128-byte search misses a fitting 144-byte free block, which is listed in class 8 |
| FreeOp.AllocatedUnlisted | mm.c:293-303 | an allocated block is in no free list, so `free` may push it |
| FreeOp.FreeStage | mm.c:295-303 | after the header and footer rewrite and the push, the block is free, listed at the head of its class, and every tag outside it is kept |
| FreeOp.FreeKeepsInv | mm.c:294-320 | after `free`'s writes the whole invariant holds, except that the freed block may have free neighbours |
| AllocateOp.PlaceBounds | mm.c:242-245 | the block to place is listed in its class, and unlinking it keeps its header and the next one |
| AllocateOp.AllocateJunction | mm.c:252-266 | after the placement the block is allocated, and the next header records an allocated predecessor |
| AllocateOp.Allocate | mm.c:242-266 | the placement's unlink and header writes; the arena keeps its length, and `AllocateOp.AllocateInv` and `AllocateOp.AllocateKeeps` state the rest |
| AllocateOp.AllocateInv | mm.c:242-266 | the placement keeps the whole invariant; the block is allocated with its size and leaves its list; every other entry stays |
| AllocateOp.AllocateKeeps | mm.c:242-266 | the placement's writes leave every allocated block in the layout, allocated and of its size |
| CoalesceOp.NeighbourHeaders | mm.c:455-462 | `find_next` gives the successor; a clear prev-alloc bit means the previous block is free, and the dsize bit or the footer finds it |
| CoalesceOp.UnlinkAllKeeps | mm.c:474-519 | a run of deletions keeps every tag and leaves the deleted blocks in no list |
| CoalesceOp.UnlinkAllLists | mm.c:474-519 | after a run of deletions, a block is in a list exactly when it was there before and was not deleted |
| CoalesceOp.MergeableNext | mm.c:469-482 | case 2: the block and the free block after it form a window that can be merged |
| CoalesceOp.MergeablePrev | mm.c:484-504 | case 3: the free block before and the block form a window that can be merged |
| CoalesceOp.MergeableBoth | mm.c:506-528 | case 4: the three blocks form a window that can be merged |
| CoalesceOp.NoMergeInv | mm.c:464-467 | case 1: with both neighbours allocated the invariant holds without exemption |
| CoalesceOp.MergeWindowInv | mm.c:469-528 | merging a window of free blocks restores the whole invariant; the merged block is listed in its class |
| CoalesceOp.MergeListed | mm.c:474-527 | after a merge the lists hold what they held outside the window, plus the merged block in the list of its size |
| CoalesceOp.MergeGrows | mm.c:476-520 | a merge never gives a block smaller than any block of its window |
| CoalesceOp.MergeCovers | mm.c:469-528 | the merged block is in the new layout, free, and spans the given block |
| CoalesceOp.MergeCaseInv | mm.c:469-528 | a merging case restores the whole invariant and gives a free block that spans the given block and is at least as large |
| CoalesceOp.Coalesce | mm.c:445-534 | `coalesce_block`, its four cases; see `CoalesceOp.CoalesceInv` |
| CoalesceOp.CoalesceInv | mm.c:445-534 | `coalesce_block` restores the whole invariant and returns a free, listed-in-layout block that spans the given block; the block is the given one exactly when the previous block is allocated, and the previous block otherwise; its size is the sum of the sizes of the blocks merged; every allocated block stays in the layout, allocated and of its size |
| CoalesceOp.CoalesceRestores | mm.c:445-534 | `coalesce_block` restores the whole invariant and returns a free, listed-in-layout block that spans the given block and is at least as large |
| CoalesceOp.NextIsAt | mm.c:803-808 | `find_next` of a block is the next header of the layout |
| CoalesceOp.NextSizes | mm.c:471-476 | in case 2 the header after the pair closes the window, and the two sizes add up to the merged size |
| CoalesceOp.PrevSizes | mm.c:496 | in case 3 the two sizes add up to the merged size |
| CoalesceOp.BothSizes | mm.c:508-520 | in case 4 the three sizes add up to the merged size |
| CoalesceOp.MergeSize | mm.c:476-520 | the merged block starts at the window's first block, and its header holds the sum of the window's sizes |
| CoalesceOp.CoalesceSums | mm.c:445-534 | the result is the given block exactly when the previous block is allocated, and that previous block otherwise; its size is the given block's plus that of each free neighbour |
| CoalesceOp.SumsAfter | mm.c:464-482 | with an allocated previous block, the result is the given block, grown by the size of a free next block |
| CoalesceOp.SumsBefore | mm.c:484-528 | with a free previous block, the result is that block, and its size adds the previous block, the given block and a free next block |
| CoalesceOp.MergeKeeps | mm.c:469-528 | a merge leaves every allocated block in the layout, allocated and of its size |
| CoalesceOp.CoalesceKeeps | mm.c:445-534 | `coalesce_block` leaves every allocated block in the layout, allocated and of its size |
| SplitOp.FixWordFacts | mm.c:562-574 | the header after the tail keeps its size and alloc bit, records a free predecessor, and has the dsize bit when the tail is 16 bytes |
| SplitOp.CarveTiled | mm.c:552-560 | after the four writes, the block and its tail tile the old block's span |
| SplitOp.SplitIs | mm.c:548-579 | the split is the carving, then the push of the tail, then the fix-up of the header after it |
| SplitOp.SplitListsFacts | mm.c:561 | the tail joins the list of its class, and every other entry stays |
| SplitOp.Split | mm.c:539-583 | `split_block`; the arena keeps its length, and `SplitOp.SplitInv` and `SplitOp.SplitKeeps` state the rest |
| SplitOp.SplitInv | mm.c:539-583 | `split_block` keeps the whole invariant; the block has exactly `asize` bytes; a cut-off tail is free, of the rest's size and listed |
| SplitOp.SplitKeeps | mm.c:539-583 | `split_block` leaves every allocated block other than the one it cuts in the new layout, allocated and of its size |
| SplitOp.SplitOutside | mm.c:548-579 | a cut rewrites only words of the block it cuts, and the new layout is the block and its tail in its place |
| ExtendOp.EpilogueFields | mm.c:432 | the new epilogue has size 0 and is allocated, after a free predecessor that is not 16 bytes |
| ExtendOp.GrowReady | mm.c:407-432 | after the writes before coalescing, the invariant holds except next to the new free block, which is listed |
| ExtendOp.Extend | mm.c:405-438 | `extend_heap`: NULL when `mem_sbrk` fails, else the coalesced grown heap; see `ExtendOp.ExtendInv` and `ExtendOp.ExtendKeeps` |
| ExtendOp.ExtendInv | mm.c:405-438 | `extend_heap` fails exactly when the arena lacks room; otherwise the invariant holds at the new break and the returned block is free, covers the old epilogue and holds at least the rounded request |
| ExtendOp.CoalescedGrow | mm.c:435 | coalescing the grown heap gives a free block covering the old epilogue and holding at least the new block's bytes |
| ExtendOp.GrowKeeps | mm.c:407-432 | the writes of `extend_heap` leave every allocated block in the layout, allocated and of its size |
| ExtendOp.ExtendKeeps | mm.c:405-438 | `extend_heap` leaves every allocated block in the layout, allocated and of its size |
| Mm.Nulls | mm.c:106-108 | twelve NULL list ends, as the static arrays start |
| Mm.BareLive | mm.c:168-186 | the prologue and the epilogue alone form a heap that keeps the invariant |
| Mm.InitChunk | mm.c:189-197 | the first chunk is one free block at word 1 of `chunksize` bytes, alone in list 0, and `initialize_list` changes nothing |
| Mm.OneBlockLinks | mm.c:195-197 | for a heap whose only free block is word 1, the writes of `initialize_list` and the NULL links leave it unchanged |
| Mm.Init | mm.c:166-199 | `mm_init` and the state it leaves; see `Mm.InitInv` |
| Mm.InitInv | mm.c:166-199 | `mm_init` succeeds exactly when the arena holds the two sentinels and a chunk; on success the heap is one free chunk in list 0, and either way the state is well formed |
| Mm.SetUp | mm.c:212-215 | `malloc`'s call of `mm_init` leaves a well-formed state whatever its result |
| Mm.PlaceReady | mm.c:242-269 | the placement finds the block listed, and leaves what `split_block` needs: an allocated block followed by an allocated header |
| Mm.PlaceInv | mm.c:242-271 | the placement keeps the invariant and gives an allocated block of exactly `asize` bytes, whose payload is at an even word |
| Mm.PlaceSpares | mm.c:242-271 | the placement leaves every allocated block in the layout, allocated and of its size, and the block it returns was free |
| Mm.PlaceServes | mm.c:225-271 | the placement of an adjusted request serves it |
| Mm.MallocLive | mm.c:217-275 | `malloc` on a live heap, from the adjusted size on; see `Mm.MallocLiveInv` |
| Mm.MallocLiveInv | mm.c:217-275 | on a live heap, `malloc` returns NULL with the heap unchanged, or an aligned payload of an allocated block of the least sufficient size that was not allocated before; every block allocated before stays allocated and of its size |
| Mm.MallocLiveServes | mm.c:217-275 | on a live heap, `malloc` returns NULL with the heap unchanged, or an aligned payload of an allocated block of the least sufficient size |
| Mm.MallocLiveSpares | mm.c:217-275 | on a live heap, every block allocated before `malloc` stays in the layout, allocated and of its size, and the returned block was not allocated |
| Mm.GrowSpares | mm.c:231-271 | when no block fits, the grown heap keeps every allocated block, and the block placed in it was not allocated before |
| Mm.Malloc | mm.c:203-276 | `malloc(size)`; see `Mm.MallocInv` and `Mm.MallocDisjoint` |
| Mm.MallocInv | mm.c:203-276 | `malloc` keeps the state well formed; a zero request gives NULL; a payload is 16-byte aligned and its block holds the request and the header, with less than 16 bytes to spare; the block was not allocated before, and every block allocated before stays allocated and of its size |
| Mm.MallocDisjoint | mm.c:203-276 | the block `malloc` returns is none of the blocks allocated before, and in the new heap it lies wholly below or wholly above each of them, so payloads never overlap |
| Mm.FreeLinkable | mm.c:295-303 | after the header rewrite the block can be pushed, and the push is an insertion at the head of its class |
| Mm.FreeReady | mm.c:289-320 | after `free`'s writes the heap is ready for `coalesce_block`, and the block keeps its size |
| Mm.ReleasedOutside | mm.c:294-320 | `free`'s writes before `coalesce_block` keep every tag outside the freed block, and the next header's size and alloc bit |
| Mm.ReleasedKeeps | mm.c:294-320 | `free`'s writes before `coalesce_block` leave every other allocated block allocated and of its size |
| Mm.Free | mm.c:280-326 | `free(p)`; see `Mm.FreeInv` |
| Mm.FreeInv | mm.c:280-326 | `free` keeps the state well formed and the break; `free(NULL)` changes nothing; otherwise the freed block lies inside a free block at least as large; every other allocated block stays in the layout, allocated and of its size |
| Allocator.UnlinkByWords | mm.c:917-935 | outside list 11, the neighbours read off the abstract list are the block's own `next` and `prev` words |
| Allocator.UnlinkDsize | mm.c:942-969 | for list 11, unlinking is the singly linked removal `delete_dsize_free_block` performs |
| Allocator.SplitBounds | mm.c:548-560 | a cut's writes lie inside the block, and the tail ends at the header after it |
| Allocator.ReleaseReady | mm.c:289-320 | the block `free` gets back can be released at the header its size leads to, and that is `free` up to `coalesce_block` |
| Allocator.Allocator.constructor | mm.c:106-113 | the program starts with an empty arena, `heap_start` NULL and all list ends NULL |
| Allocator.Allocator.AddNewFreeBlock | mm.c:860-885 | NULL is refused with false; otherwise the block is pushed on the list of its size |
| Allocator.Allocator.AddDsizeFreeBlock | mm.c:890-902 | a 16-byte block is pushed on list 11 |
| Allocator.Allocator.DeleteBlockFromList | mm.c:907-937 | the block leaves the list of its size, and its list neighbours are joined |
| Allocator.Allocator.DeleteDsizeFreeBlock | mm.c:942-969 | the block leaves list 11: at the root by moving `root`, elsewhere by walking to its predecessor |
| Allocator.Allocator.DeleteDsizeAfterRoot | mm.c:952-966 | the walk from the root finds the predecessor, points it past the block, and moves `leaf` when the block was last |
| Allocator.Allocator.FindDsizeFit | mm.c:614-621 | the root of list 11, or NULL when it is empty |
| Allocator.Allocator.FitInList | mm.c:603-609 | the walk from the leaf along `prev` returns the last entry that fits, or NULL |
| Allocator.Allocator.FindFit | mm.c:589-613 | the loop over classes returns exactly the block `FindFitSpec` chooses |
| Allocator.Allocator.InitializeList | mm.c:1080-1089 | list 0 holds the block at both ends, and every other list end is NULL |
| Allocator.Allocator.WriteHeader | mm.c:1011-1014 | the header word becomes the packed tag, and nothing else changes |
| Allocator.Allocator.WriteFooter | mm.c:1021-1026 | the last word of the block, found from its header's size, becomes the packed tag, and nothing else changes |
| Allocator.Allocator.Sbrk | mm.c:414-417 | the break moves by n words exactly when the arena has them |
| Allocator.Allocator.JoinWindow | mm.c:479-481 | header, footer and push of the merged block |
| Allocator.Allocator.DetachPair | mm.c:471-475 | the dsize bit after the window is cleared, then both blocks leave their lists in order |
| Allocator.Allocator.DetachTriple | mm.c:508-519 | the dsize bit after the window is cleared, then the three blocks leave their lists in order |
| Allocator.Allocator.MergeNext | mm.c:469-482 | case 2 leaves the heap `MergeWindow` describes for the block and its successor |
| Allocator.Allocator.FindPrev | mm.c:487-492 | the previous header is found 16 bytes back or through the footer before the header |
| Allocator.Allocator.MergePrev | mm.c:484-504 | case 3 leaves the heap `MergeWindow` describes and returns the previous block |
| Allocator.Allocator.MergeBoth | mm.c:506-528 | case 4 leaves the heap `MergeWindow` describes and returns the previous block |
| Allocator.Allocator.CoalesceBlock | mm.c:445-534 | leaves the heap and returns the block that `Coalesce` gives, so `CoalesceInv` holds of it |
| Allocator.Allocator.SetNextPrevAllocAt | mm.c:254-266 | the next header gets its prev-alloc bit set, and a free next block's footer copies it |
| Allocator.Allocator.ClearNextPrevAllocAt | mm.c:306-320 | the next header gets its prev-alloc bit cleared, and a free next block's footer copies it |
| Allocator.Allocator.FixAfterTailAt | mm.c:562-579 | the header after the tail records a free predecessor and, for a 16-byte tail, a 16-byte one; a free block's footer copies it |
| Allocator.Allocator.CarveAt | mm.c:552-560 | the four writes that cut the block into an allocated head and a free tail |
| Allocator.Allocator.CutBlock | mm.c:549-579 | the carving, the push of the tail, and the fix-up after it |
| Allocator.Allocator.SplitBlock | mm.c:539-583 | leaves the heap `Split` describes, so `SplitInv` holds of it |
| Allocator.Allocator.GrowWrites | mm.c:424-432 | header, footer and push of the new block, then the new epilogue |
| Allocator.Allocator.GrowAndCoalesce | mm.c:424-437 | the writes, then `coalesce_block` on the new block |
| Allocator.Allocator.ExtendHeap | mm.c:405-438 | NULL with nothing changed when `mem_sbrk` fails; otherwise the state and block `Extend` gives, so `ExtendInv` holds of them |
| Allocator.Allocator.MmInit | mm.c:166-199 | leaves the state and result `Mm.Init` gives, so `Mm.InitInv` holds of them |
| Allocator.Allocator.StartHeap | mm.c:168-199 | the body of `mm_init` leaves the state `Mm.Init` gives |
| Allocator.Allocator.FirstChunk | mm.c:189-198 | the first `extend_heap`, `initialize_list` and NULL links, or failure with the empty heap kept |
| Allocator.Allocator.TakeBlock | mm.c:242-266 | the block leaves its list, its header says allocated, and the next header records it |
| Allocator.Allocator.PlaceBlock | mm.c:242-269 | leaves the state `Mm.Place` gives, so `Mm.PlaceInv` holds of it |
| Allocator.Allocator.MallocLive | mm.c:217-275 | leaves the state and payload `Mm.MallocLive` gives |
| Allocator.Allocator.Malloc | mm.c:203-276 | leaves the state and payload `Mm.Malloc` gives, so `Mm.MallocInv` holds of them |
| Allocator.Allocator.MarkBlockFree | mm.c:295-302 | the header, and the footer unless the block is 16 bytes, are rewritten as free with the same size and bits |
| Allocator.Allocator.PushFreed | mm.c:299-303 | the rewrite, then the push on the list of its size |
| Allocator.Allocator.ReleaseBlock | mm.c:295-320 | the rewrite, the push, and the clearing of the next header's prev-alloc bit |
| Allocator.Allocator.ReleaseAt | mm.c:289-320 | leaves the heap `Mm.Released` gives |
| Allocator.Allocator.CoalesceFreed | mm.c:323 | `coalesce_block` on the freed block, with the layout and lists it leaves |
| Allocator.Allocator.FreeBlock | mm.c:289-323 | leaves the state `Mm.Free` gives for a block that is not NULL |
| Allocator.Allocator.Free | mm.c:280-326 | leaves the state `Mm.Free` gives, so `Mm.FreeInv` holds of it |

## Left out

- `mem_sbrk` and the `memlib` arena it belongs to are not part of this model.
  The arena is a fixed array of words plus a break. `Sbrk` fails exactly when
  the array lacks the words. The arena is at most 2^60 words, so that every
  byte size fits a word.
- `realloc` and `calloc` (mm.c:333-399) are outside the modelled core: they
  only combine `malloc`, `free` and `memcpy`/`memset`.
- `mm_checkheap` and the `check_*` routines (mm.c:625-722, 1095-1149) are not
  modelled as code. Every condition they check but one is part of the
  invariant `HeapModel.Inv`, which every operation is proved to keep. As
  written, `check_free_lists` loops on `index >= 0` over an unsigned
  `size_t`, a condition that is always true; the model does not depend on it.
- The dsize-bit test of `check_dsize_free_lists` (mm.c:1137-1143) is not part
  of `HeapModel.Inv`, because the program does not keep it. The test demands
  that every entry of list 11 other than the root has its dsize bit set, that
  is, follows a 16-byte block. A 16-byte block that follows a larger one
  still joins list 11 when freed. Take a fresh heap and malloc 24, 8, 24, 8
  and 24 bytes, then free the two 8-byte results. List 11 then holds the
  second of them at its root and the first after it, and the first follows a
  32-byte block, so its dsize bit is clear and the checker would reject a
  heap that `free` built.
- `get_address`, `get_payload_size`, `dbg_printf` and the `dbg_*` assertions
  carry no state and are left out. `payload_to_header` and
  `header_to_payload` are the word offsets -1 and +1.
- Allocator.Allocator.DeleteBlockFromList: requires the block to be listed in
  its class. The early `return false` for a NULL block or an empty list
  (mm.c:914-916) cannot happen from `malloc` or `coalesce_block`, so it is not
  modelled. The `bool` results of the list routines are dropped, except
  `AddNewFreeBlock`'s NULL refusal.
- Allocator.Allocator.DeleteDsizeFreeBlock: requires the block to be in list
  11, so the walk that ends without finding it (mm.c:955-967) is not
  modelled.
- ExtendOp.ExtendInv: requires a request of more than 16 bytes. Every caller
  passes at least `chunksize`.
- SplitOp.SplitInv: requires the header after the block to be allocated. That
  always holds where `malloc` calls `split_block`, since the block was free
  and had no free successor.
- Mm.MallocInv, Mm.FreeInv: the frame they state covers the header of every
  other allocated block (its place in the layout, its alloc bit and its
  size), not the payload words inside it. The operations write only tags and
  link words of free blocks, and user data is not modelled.
- Mm.Free: requires the pointer to be NULL or the payload of an allocated
  block. Freeing anything else is undefined in the source.
- Mm.Malloc: when `mm_init` fails before writing the prologue, `malloc` goes
  on to `extend_heap`. That call reads the word before an empty arena, which
  is undefined. The model returns NULL with the state unchanged, as an
  `mem_sbrk` on a full arena would.
- Some single C functions are split into several methods, each proved
  against its part of the value function:
  - `coalesce_block` into `MergeNext`, `MergePrev`, `MergeBoth`,
    `DetachPair`, `DetachTriple` and `JoinWindow`;
  - `split_block` into `CarveAt`, `CutBlock` and `FixAfterTailAt`;
  - `free` into `MarkBlockFree`, `PushFreed`, `ReleaseBlock`, `ReleaseAt`,
    `CoalesceFreed` and `FreeBlock`;
  - `malloc` into `TakeBlock`, `PlaceBlock` and `MallocLive`;
  - `delete_dsize_free_block` into itself and `DeleteDsizeAfterRoot`;
  - `extend_heap` into `GrowWrites` and `GrowAndCoalesce`.

  The order of the writes is the source's. Where the source reads a header's
  cached bits after an unlink, the value model reads them before; the unlink
  writes only link words, so both readings give the same bits.

## Findings

| source | as written | input that shows it | evidently intended | confidence | as-written member | corrected member |
|---|---|---|---|---|---|---|
| mm.c:1054-1056 | class 7 is `size == (chunksize>>7)`, so it holds only 128-byte blocks, and 144..255 bytes fall to class 8; `find_fit` for 128 bytes starts at class 7 and walks down, never visiting class 8 | a heap whose only free block is 144 bytes, in class 8: `malloc(112)` asks for 128 bytes, finds nothing and grows the heap | class 7 is `size >= (chunksize>>7)`, 128..255 bytes, like its neighbours, so that every class above the request's holds only smaller blocks | not executed | FitModel.FindFitMisses144 | Sizes.IntendedSkippedTooSmall |
| mm.c:225 | `asize = my_round_up(size + wsize, dsize)` in 64-bit `size_t`, where `size + wsize` and the rounding wrap around | `malloc(2^64 - 1)` gets a 16-byte block, and `malloc(2^64 - 9)` gets a block size of 0 | a request whose block size does not fit a word gets NULL | not executed | Sizes.AdjustedSizeAsWrittenWraps | Sizes.AdjustedSizeSpec |

The miss at mm.c:1054-1056 loses no correctness: the heap only grows
although a block fits. The model therefore keeps the source's classes
(`Sizes.FindFreeList`). It proves the search complete for every request
other than 128 bytes (`FitModel.FindFitNullComplete`). The intended
classes (`Sizes.IntendedFreeList`) are stated beside them, with the
property the search needs proved of them.
