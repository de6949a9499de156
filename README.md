# ummalloc: a boundary-tag allocator, modelled and proved

`user/ummalloc.c` is the user-space allocator of an xv6-style teaching
system. It manages one region of process memory that only grows, by way of
`sbrk`. The region holds an implicit list of blocks:

- Every block carries a header word and a footer word.
- Each of these words packs the block size, a multiple of 8, with an
  "allocated" bit.
- An allocated prologue block of 8 bytes starts the list.
- An epilogue header of size 0 ends it.

The operations on this list are:

- `mm_malloc` finds the first free block that fits (`find_first`). Failing
  that, it grows the region by at least 4096 bytes (`extend_heap`). It then
  splits the block (`place`).
- `mm_free` clears the allocated bit and merges the block with its free
  neighbours (`coalesce`).
- `mm_realloc` takes one of six paths:
  - for a NULL pointer it is `mm_malloc`;
  - for size 0 it is `mm_free`, and returns NULL;
  - it keeps the block as it is when the adjusted size is unchanged;
  - it shrinks the block in place;
  - it grows the block into a free successor;
  - otherwise it moves the payload to a new block and frees the old one,
    or returns NULL with nothing changed when no block can be found or made.

The model has three levels:

- **Words** (modules `Tags`, `Layout`, `Words`). Memory is a sequence of
  32-bit words indexed by byte address / 4. `PACK`, `GET`, `GET_SIZE`,
  `GET_ALLOC`, `HD`, `FT`, `NEXT_PLACE` and `PREV_PLACE` are functions of
  that memory. A heap is *well formed* under these conditions:
  - the epilogue word closes the memory;
  - a chain of blocks runs from `heap_head` to the break;
  - every block's header and footer carry its tag.
- **Policy** (module `Policy`). The block list is an ordinary sequence of
  `Block(addr, size, alloc)`. Each operation is a function on that list,
  and the lemmas prove what it means:
  - first fit finds the lowest fitting block;
  - placement splits exactly when at least 8 bytes remain, and the
    allocated piece is always exactly the adjusted size;
  - coalescing merges exactly the free neighbours;
  - the list keeps tiling the region.

  They also cover when "no two adjacent free blocks" is kept.
- **Effects and the allocator** (modules `Effects` and `Allocator`). Class
  `Allocator.Heap` holds the memory (`mem`), `heap_head` (`heapHead`) and a
  ghost block list (`view`). Its methods rewrite tag words in place, in the
  source's order. Each method is proved to do three things:
  - keep `Valid()`, which means the memory is well formed with chain `view`;
  - move `view` exactly as the policy function says;
  - change memory as stated: exactly, as a function of the old memory, for
    `place`, `coalesce`, `mm_free`, `extend_heap` and `mm_init`; through the
    payload words kept and copied for `mm_malloc` and `mm_realloc`.

  `mm_malloc` and `mm_realloc` keep every allocated block other than the
  one they resize, with its address, size and payload words unchanged. `mm_malloc` and `mm_realloc`
  return an allocated block with room for the requested payload.

  `Layout.Determined` shows that the memory alone fixes the view.

`sbrk` is a method on the class. The highest break the environment grants
is the constructor parameter `limit`. `sbrk` fails exactly when the request
would pass `limit`, and otherwise appends zeroed words. `memcpy` is a
word-by-word copy loop between non-overlapping ranges.

## Model

| member | source | states |
|---|---|---|
| Tags.Pack | user/ummalloc.c:12 | PACK of a multiple of 8 and a one-bit flag: the low three bits hold the flag and the rest is the size. |
| Tags.PackIsOr | user/ummalloc.c:12 | For a size that is a multiple of 8 and a one-bit flag, PACK's bitwise OR equals the sum the model uses. |
| Tags.GetSize | user/ummalloc.c:15 | Masking the low three bits gives a multiple of 8 that lies within 8 below the word. |
| Tags.GetAlloc | user/ummalloc.c:16 | The allocated flag is a single bit. |
| Tags.TagRoundTrip | user/ummalloc.c:12-16 | GET_SIZE and GET_ALLOC of PACK(size, alloc) give back size and alloc. |
| Tags.AdjustedSize | user/ummalloc.c:106-109 | The adjusted size is a multiple of 8, at least 16, and at least the payload plus 8 bytes of tags. For a nonzero request it is 16 or less than the request plus 16. |
| Tags.AdjustedSizeIsLeast | user/ummalloc.c:106-109 | No smaller multiple of 8 holds the payload, the tags and the 16-byte minimum. |
| Tags.ExtendBytes | user/ummalloc.c:54 | extend_heap rounds an odd word count up to an even one. The byte count is a multiple of 8 within one word of 4 * words. |
| Tags.GrowBytes | user/ummalloc.c:114-115 | mm_malloc grows by MAX(a_size, E_SIZE) bytes, a multiple of 8. |
| Layout.ReadHeader | user/ummalloc.c:15-16 | Reading a stored block's header or footer gives back its size and flag. |
| Layout.TagsOrdered | user/ummalloc.c:18-21 | Every tag word of a block lies below the header of any later block. |
| Layout.Determined | user/ummalloc.c:93 | Two block chains laid out in the same memory between the same bounds are equal. Walking by header sizes has one outcome. |
| Layout.StepAt | user/ummalloc.c:21 | In a contiguous chain, block k ends where block k + 1 starts, and its size is a positive multiple of 8. |
| Layout.Apart | user/ummalloc.c:18-19 | The tag words of two different blocks do not interleave. |
| Layout.TagsOutside | user/ummalloc.c:18-19 | No tag word of any block lies strictly inside another block's payload. |
| Layout.PayloadSpan | user/ummalloc.c:19 | A block's payload runs from bp to FT(bp): (size - 8) / 4 words. |
| Layout.CopiedFrom | user/ummalloc.c:166-167 | A copy out of a payload that two earlier writes left intact copies the original payload. |
| Layout.Rewrite | user/ummalloc.c:77-89 | Rewriting the words of a run of blocks keeps every block outside the run laid out. |
| Layout.Aligned | user/ummalloc.c:21 | Every block of a contiguous chain starts at an address congruent to the chain's start modulo 8. |
| Policy.FirstFitIsFirst | user/ummalloc.c:91-98 | First fit returns the lowest free block of at least a bytes, and returns none exactly when no block fits. |
| Policy.FirstFitFrom | user/ummalloc.c:92-96 | The scan from block k returns an index at or after k and inside the list. |
| Policy.FirstFit | user/ummalloc.c:91-98 | find_first on the block list: the index it returns lies inside the list. |
| Policy.SplitTiles | user/ummalloc.c:79-88 | place splits exactly when at least 8 bytes remain. The pieces tile the old block: an allocated piece of exactly a bytes at the old address, then a free piece of the remaining bytes. Without a split the block already had exactly a bytes, because sizes are multiples of 8. |
| Policy.Split | user/ummalloc.c:79-88 | The pieces place makes: an allocated block of a bytes and a free remainder when at least 8 bytes remain, else the whole block allocated. |
| Policy.PlaceAt | user/ummalloc.c:77-89 | The view after place on block i: block i replaced by its Split pieces. |
| Policy.PlaceTiles | user/ummalloc.c:77-89 | After place the list still tiles the region. The placed block keeps its address, is allocated and has exactly a bytes, and a larger old block leaves its remainder as the free block right after it. |
| Policy.PlaceKeepsNoAdjacentFree | user/ummalloc.c:77-89 | Placing into a free block keeps "no two adjacent free blocks". |
| Policy.MergedEnds | user/ummalloc.c:26-49 | The merged block starts at the first block coalesce absorbs and ends where the last one ends. |
| Policy.Merged | user/ummalloc.c:26-49 | The free block coalesce leaves: from the predecessor when it is free, spanning the sizes of every absorbed block. |
| Policy.Merge | user/ummalloc.c:26-49 | The view after coalesce on block i: the absorbed blocks replaced by Merged. |
| Policy.MergeTiles | user/ummalloc.c:26-49 | After coalesce the list still tiles the region. |
| Policy.MergeAllocatedNeighbours | user/ummalloc.c:30-31 | With both neighbours allocated, coalesce changes nothing. |
| Policy.MergeKeepsNoAdjacentFree | user/ummalloc.c:26-49 | Coalescing a newly freed block, in all four cases, restores "no two adjacent free blocks". |
| Policy.FreeKeepsNoAdjacentFree | user/ummalloc.c:121-126 | mm_free keeps "no two adjacent free blocks". |
| Policy.FreeAt | user/ummalloc.c:121-126 | The view after mm_free of block i: block i marked free, then coalesced. |
| Policy.IndexOfFinds | user/ummalloc.c:168 | The search for the block at an address finds a block carrying it, and misses only when no block carries it. |
| Policy.IndexOfUnique | user/ummalloc.c:168 | Block addresses in a contiguous list are distinct, so each block is found at its own index. |
| Policy.GrowBlock | user/ummalloc.c:51-61 | The block extend_heap returns is free and at least as large as the growth. |
| Policy.Grow | user/ummalloc.c:51-61 | The view after extend_heap: a free block of n bytes appended at the old break, then coalesced. |
| Policy.GrowIndex | user/ummalloc.c:60 | The index of the block extend_heap returns lies inside the grown view. |
| Policy.Obtain | user/ummalloc.c:110-118 | Search, grow and place: the first fit, else a grown block of MAX(a_size, E_SIZE) bytes, else NULL with view and break unchanged. |
| Policy.ObtainFails | user/ummalloc.c:110-116 | Search and growth return NULL exactly when nothing fits and the break may not grow enough, and then change neither view nor break. |
| Policy.MallocOutcome | user/ummalloc.c:100-119 | mm_malloc on the view: NULL for size 0, else Obtain for the adjusted size. |
| Policy.AbsorbTiles | user/ummalloc.c:154-157 | Absorbing the next block into block i keeps the list tiling the region. |
| Policy.Absorb | user/ummalloc.c:153-156 | The view after the header write of the grow-by-merge path: block i spans itself and its successor. |
| Policy.ReallocOutcome | user/ummalloc.c:128-173 | mm_realloc on the view: mm_malloc for NULL, mm_free for size 0, else ResizeOutcome for the adjusted size. |
| Policy.ResizeOutcome | user/ummalloc.c:146-171 | Unchanged for an equal size, place for a smaller one, else EnlargeOutcome. |
| Policy.EnlargeOutcome | user/ummalloc.c:152-171 | Absorb and place when the free successor makes room; else Obtain, then free the old block, or NULL with nothing changed. |
| Policy.Moved | user/ummalloc.c:166 | Placing into another block only shifts a block, which stays intact at the returned index. |
| Policy.GrowKeeps | user/ummalloc.c:51-61 | Growth leaves every allocated block at its index and puts the returned block after it. |
| Policy.GrowKeepsNoAdjacentFree | user/ummalloc.c:51-61 | extend_heap keeps "no two adjacent free blocks". |
| Policy.ObtainKeepsNoAdjacentFree | user/ummalloc.c:110-118 | Search, grow and place keep "no two adjacent free blocks". |
| Policy.MallocKeepsNoAdjacentFree | user/ummalloc.c:100-119 | mm_malloc keeps "no two adjacent free blocks". |
| Policy.MallocGives | user/ummalloc.c:100-119 | mm_malloc returns NULL exactly when size is 0 or nothing fits and the break may not grow enough, and a NULL leaves view and break alone. Otherwise it returns an allocated block with room for size payload bytes. |
| Policy.PlacedFirst | user/ummalloc.c:150-151 | After place, block i keeps its address, is allocated and has at least a bytes. |
| Policy.AbsorbKeepsNoAdjacentFree | user/ummalloc.c:154-158 | Growing into a free successor keeps "no two adjacent free blocks". |
| Policy.ObtainKeepsBlock | user/ummalloc.c:160-166 | A successful search-and-place for a new block keeps an allocated block intact somewhere past the prologue. |
| Policy.ObtainTiles | user/ummalloc.c:110-118 | Search, grow and place keep the list tiling the region up to the new break. |
| Policy.ReallocKeepsNoAdjacentFree | user/ummalloc.c:128-173 | mm_realloc keeps "no two adjacent free blocks" on every path that does not shrink the block. |
| Policy.RelocateKeepsNoAdjacentFree | user/ummalloc.c:160-169 | Moving to a new block and freeing the old one keeps "no two adjacent free blocks". |
| Policy.ShrinkMayLeaveAdjacentFree | user/ummalloc.c:149-151 | On a concrete heap, the shrink path leaves its remainder free next to a free block. |
| Policy.Freed | user/ummalloc.c:121-126 | After mm_free of block i, any other allocated block is found unchanged at the returned index, which is past the prologue when the block was. |
| Policy.FreedIsFree | user/ummalloc.c:121-126 | After mm_free of block i, no allocated block starts at its address. |
| Policy.ObtainPlaces | user/ummalloc.c:110-118 | A successful search and place gives an allocated block past the prologue at the returned address with room for a bytes, and keeps a given allocated block at another index. |
| Policy.RelocateGives | user/ummalloc.c:160-169 | On the moving path the returned block is another address, allocated with room for a bytes, and no allocated block is left at the old address. |
| Policy.EnlargeGives | user/ummalloc.c:152-171 | Growing fails exactly when the successor makes no room, nothing fits and the break may not grow, and then changes nothing. Otherwise the result is allocated with room, at the old address exactly when it grew in place; after a move the old address holds no allocated block. |
| Policy.ResizeGives | user/ummalloc.c:146-171 | As EnlargeGives, with the unchanged and the shrunk block returned in place. |
| Policy.ReallocGives | user/ummalloc.c:128-173 | mm_realloc returns NULL exactly for size 0 or when no path finds room, and such a NULL for a nonzero size changes nothing. Otherwise the result is allocated with room for size payload bytes, at ptr exactly when the block stayed, shrank or grew in place; after a move ptr holds no allocated block. |
| Words.Get | user/ummalloc.c:13 | GET: the word at a byte address. |
| Words.Hd | user/ummalloc.c:18 | HD(bp) is the word just before bp. |
| Words.SizeAt | user/ummalloc.c:15 | GET_SIZE(HD(bp)) is a multiple of 8 no larger than the header word. |
| Words.AllocAt | user/ummalloc.c:16 | GET_ALLOC(HD(bp)) is a single bit. |
| Words.Ft | user/ummalloc.c:19 | FT(bp) lies one double word before NEXT_PLACE(bp). |
| Words.NextPlace | user/ummalloc.c:21 | NEXT_PLACE(bp) lies a multiple of 8 bytes at or after bp. |
| Words.PrevPlace | user/ummalloc.c:22 | PREV_PLACE(bp) lies a multiple of 8 bytes at or before bp. |
| Words.TagWords | user/ummalloc.c:18-19 | HD(bp) is the word before bp, and FT(bp) is two words before the next block. |
| Words.PutTagsStores | user/ummalloc.c:57-58 | Writing a block's header and footer lays it out and changes no other word. |
| Words.SplitLayable | user/ummalloc.c:79-84 | Both pieces of a split have room for their tags, and the remainder's footer is the old footer. |
| Words.ChainLayable | user/ummalloc.c:18-19 | Every block of the chain has its tag words inside memory. |
| Words.WriteKeepsHeader | user/ummalloc.c:14 | A PUT elsewhere leaves a block's header reading the same. |
| Words.WriteKeepsPrevFooter | user/ummalloc.c:14 | A PUT elsewhere leaves PREV_PLACE reading the same. |
| Words.Neighbours | user/ummalloc.c:21-22 | Consecutive blocks of a well-formed heap abut in memory. |
| Words.ReadStored | user/ummalloc.c:15-21 | For a laid-out block, GET_SIZE(HD), GET_ALLOC(HD), FT and NEXT_PLACE give its size, flag, footer and successor. |
| Words.ReadAbutting | user/ummalloc.c:22 | PREV_PLACE of a block that abuts its predecessor is the predecessor. |
| Words.ReadBlock | user/ummalloc.c:18-21 | The macros read block k of a well-formed heap correctly. NEXT_PLACE leads to block k + 1, or to the epilogue. |
| Words.ReadNext | user/ummalloc.c:153-155 | NEXT_PLACE of block k reads the successor's size and flag, the epilogue being size 0 and allocated. |
| Effects.Placed | user/ummalloc.c:77-89 | The memory after place: the tags of the Split pieces written, and the length unchanged. |
| Effects.PlacedLaysSplit | user/ummalloc.c:77-89 | The words place writes lay out exactly the pieces of the split. |
| Effects.PlacedFrame | user/ummalloc.c:77-89 | place writes only inside the old block, and keeps the first a - 8 payload bytes. |
| Effects.PlaceShape | user/ummalloc.c:77-89 | place on block i of a heap with a stale block i leaves a well-formed heap with list PlaceAt. |
| Effects.PlacedStored | user/ummalloc.c:77-89 | After place every block of PlaceAt is laid out, the rest of the chain included. |
| Effects.Prologue | user/ummalloc.c:64-69 | mm_init's four words appended after the old break. |
| Effects.InitShape | user/ummalloc.c:64-70 | The four words of mm_init make a well-formed heap holding only the prologue, with heap_head 8 bytes into the grant. |
| Effects.InitGrow | user/ummalloc.c:71 | mm_init's first extend_heap adds one free 4096-byte block that coalesce leaves alone. |
| Effects.Extended | user/ummalloc.c:55-59 | The memory after extend_heap's grant and three writes, n / 4 words longer. |
| Effects.ExtendedWords | user/ummalloc.c:57-59 | extend_heap's three writes lay out the new free block and a new epilogue, and keep all words below the old epilogue. |
| Effects.ExtendShape | user/ummalloc.c:55-59 | After the grant and the three writes, the heap is well formed with the new block appended. |
| Effects.FreeShape | user/ummalloc.c:122-124 | Clearing the flag in both tags leaves a well-formed heap with block i free. |
| Effects.PutTagsSame | user/ummalloc.c:30-31 | Rewriting a block's own tags changes nothing. |
| Effects.MergedLayable | user/ummalloc.c:26-49 | The merged block's header is the first absorbed header and its footer the last absorbed footer. |
| Effects.MergeStored | user/ummalloc.c:26-49 | After coalesce's writes every block of the merged list is laid out. |
| Effects.MergeSentinels | user/ummalloc.c:26-49 | coalesce's writes leave the epilogue and heap_head in place. |
| Effects.MergeShape | user/ummalloc.c:26-49 | coalesce's writes leave a well-formed heap with the merged list. |
| Effects.CoalesceReads | user/ummalloc.c:27-29 | coalesce's three reads give the predecessor's flag, the block's size and the successor's flag. |
| Effects.MergeNextReads | user/ummalloc.c:32-35 | In the next-free case, the sizes read add up to the merged block. |
| Effects.MergePrevReads | user/ummalloc.c:36-40 | In the previous-free case, the sizes read add up to the merged block, and FT(ptr) is its footer. |
| Effects.MergePrevFooterWritten | user/ummalloc.c:38-40 | Writing FT(ptr) does not disturb PREV_PLACE(ptr), which is still the predecessor for the header write and the result. |
| Effects.MergeBothBlock | user/ummalloc.c:41-44 | In the both-free case, the merged block fits in memory and its header is the predecessor's header. |
| Effects.MergeBothReads | user/ummalloc.c:41-46 | In the both-free case, the three sizes read add up to the merged block. |
| Effects.MergeBothHeaderWritten | user/ummalloc.c:44-45 | Writing the predecessor's header does not disturb how the successor's footer is found. |
| Effects.MergedTags | user/ummalloc.c:26-49 | The merged block fits in memory, with the first absorbed header and the last absorbed footer as its tags. |
| Effects.PutTagsKeeps | user/ummalloc.c:34-45 | Writing tags that coincide with block tags leaves every payload unchanged. |
| Effects.MergeKeeps | user/ummalloc.c:26-49 | coalesce changes no payload word of any block. |
| Effects.FreeKeeps | user/ummalloc.c:121-126 | mm_free changes no payload word of any block. |
| Effects.ExtendKeeps | user/ummalloc.c:51-61 | extend_heap changes no payload word of any existing block. |
| Effects.PlacedKeeps | user/ummalloc.c:77-89 | place on one block changes no payload word of another. |
| Effects.MoveFits | user/ummalloc.c:167 | memcpy's source is the whole old payload and fits in the new block, and the two ranges do not overlap. |
| Effects.PlaceElsewhere | user/ummalloc.c:166 | Placing into block j moves block i only in index, keeps its payload, and allocates j at its address. |
| Effects.PayloadWriteKeeps | user/ummalloc.c:167 | Writing only inside a block's payload keeps the heap well formed. |
| Effects.AbsorbShape | user/ummalloc.c:156 | After PUT(HD(ptr), PACK(size_sum, 0)), the header spans both blocks and the rest of the list is still laid out. |
| Effects.AbsorbStored | user/ummalloc.c:156 | That one header write leaves every block other than block i laid out. |
| Effects.AbsorbKeeps | user/ummalloc.c:156-157 | The header write and place of the grow-by-merge path keep every other allocated block and its payload. |
| Effects.CopyKeeps | user/ummalloc.c:167 | memcpy into block j keeps the payload of every other block. |
| Allocator.Heap.ViewDetermined | user/ummalloc.c:24 | The memory and heap_head fix the view: any chain laid out in memory is it. |
| Allocator.Heap.AlignedBlocks | user/ummalloc.c:21 | Every block address, which is also its payload address, is congruent to heap_head modulo 8. |
| Allocator.Heap.Put | user/ummalloc.c:14 | PUT changes exactly the addressed word. |
| Allocator.Heap.Sbrk | user/ummalloc.c:55 | sbrk returns the old break and appends zeroed words, or returns -1 and changes nothing when the break would pass the limit. |
| Allocator.Heap.PutBlock | user/ummalloc.c:57-58 | Two PUTs write a block's header and footer. |
| Allocator.Heap.Place | user/ummalloc.c:77-89 | place's writes, reading only the header, produce Placed. |
| Allocator.Heap.PlaceInView | user/ummalloc.c:77-89 | place on block i yields a valid heap with view PlaceAt. |
| Allocator.Heap.PlaceBlock | user/ummalloc.c:111 | place on block i of a valid heap yields view PlaceAt and memory Placed. |
| Allocator.Heap.FindFirst | user/ummalloc.c:91-98 | The header walk returns the address of the first-fit block, or NULL when first fit finds none. |
| Allocator.Heap.Malloc | user/ummalloc.c:100-119 | mm_malloc moves view, break and result exactly as MallocOutcome says, and a NULL result leaves memory unchanged. Any given allocated block stays in the view with its payload unchanged. |
| Allocator.Heap.MergeNext | user/ummalloc.c:32-35 | Next-free case: the written memory lays out the merged block. |
| Allocator.Heap.MergePrev | user/ummalloc.c:36-40 | Previous-free case: the written memory lays out the merged block, and the result is the predecessor. |
| Allocator.Heap.MergeBoth | user/ummalloc.c:41-46 | Both-free case: the written memory lays out the merged block, and the result is the predecessor. |
| Allocator.Heap.MergeTags | user/ummalloc.c:27-47 | The four-way case analysis writes the tags of Merged and returns its address. |
| Allocator.Heap.Coalesce | user/ummalloc.c:26-49 | coalesce on a free block i keeps the heap valid, makes the view Merge, and returns the merged block. |
| Allocator.Heap.Free | user/ummalloc.c:121-126 | mm_free keeps the heap valid, and the view becomes FreeAt. |
| Allocator.Heap.PutFresh | user/ummalloc.c:57-59 | extend_heap's three writes over the granted bytes. |
| Allocator.Heap.ExtendHeap | user/ummalloc.c:51-61 | extend_heap fails with nothing changed exactly when sbrk refuses. Otherwise the break grows by ExtendBytes, the view becomes Grow, and the coalesced block is returned. |
| Allocator.Heap.PutPrologue | user/ummalloc.c:66-69 | mm_init's four writes give the prologue words. |
| Allocator.Heap.Init | user/ummalloc.c:63-75 | mm_init returns 0 exactly when both sbrk calls succeed, giving the prologue and one free 4096-byte block. It returns -1 otherwise, with heap_head -1 when the first call fails. The heap is valid whenever the first call succeeded. |
| Allocator.Heap.InitExtend | user/ummalloc.c:71-74 | mm_init's extend_heap either appends one free 4096-byte block and returns 0, or returns -1 with nothing changed. |
| Allocator.Heap.Memcpy | user/ummalloc.c:167 | memcpy copies n / 4 words from src to dst and changes nothing else. |
| Allocator.Heap.GrowInPlace | user/ummalloc.c:153-158 | Absorbing a free successor gives view PlaceAt(Absorb), keeps the old payload, and keeps the heap valid. Any other allocated block stays in the view with its payload unchanged. |
| Allocator.Heap.PutAbsorbed | user/ummalloc.c:156 | The one header write gives block i the summed size and changes no other word; the rest of the absorbed chain stays laid out. |
| Allocator.Heap.MoveAndFree | user/ummalloc.c:167-168 | memcpy of the old payload into block j, then mm_free of the old block, gives view FreeAt and copies the payload. Any third allocated block stays in the view with its payload unchanged. |
| Allocator.Heap.CopyPayload | user/ummalloc.c:167 | The memcpy puts the old payload at the start of block j's payload and keeps the heap valid and every other payload unchanged. |
| Allocator.Heap.FindOrGrow | user/ummalloc.c:110-116 | find_first, or extend_heap when it fails, gives the block that Obtain places into, or NULL with nothing changed. A given allocated block is kept, payload included. |
| Allocator.Heap.GrowFor | user/ummalloc.c:114-116 | When no block fits, extend_heap by MAX(a_size, E_SIZE) bytes gives the block that Obtain places into, or NULL with nothing changed. |
| Allocator.Heap.ObtainPlaced | user/ummalloc.c:110-118 | Search, grow and place move the view as Obtain says, and a given allocated block keeps its payload. |
| Allocator.Heap.PlaceFound | user/ummalloc.c:111-117 | place on the found block allocates it with room for a_size and keeps two given allocated blocks with their payloads. |
| Allocator.Heap.Relocate | user/ummalloc.c:160-169 | The moving path returns Obtain's block with the old payload copied and the old block freed, or NULL with nothing changed. A non-NULL result is another allocated block with room for a_size, no allocated block is left at ptr, and any other allocated block keeps its payload. |
| Allocator.Heap.MoveFrom | user/ummalloc.c:167-168 | The copy and free after the search bring the payload the old block had before the search to the new block, and free the old block. |
| Allocator.Heap.Realloc | user/ummalloc.c:128-173 | mm_realloc moves view, break and result as ReallocOutcome says. A NULL for a nonzero size changes no memory, and the first min(new, old) - 8 payload bytes arrive at the result. A non-NULL result is an allocated block with room for size bytes; after a move ptr holds no allocated block. Any other allocated block keeps its payload. |
| Allocator.Heap.Resize | user/ummalloc.c:142-171 | The four resize paths follow ResizeOutcome and carry min(new, old) - 8 payload bytes to the result. A non-NULL result is allocated with room for a_size; after a move ptr holds no allocated block. Any other allocated block keeps its payload. |
| Allocator.Heap.Shrink | user/ummalloc.c:149-151 | place on block i for a smaller size gives view PlaceAt, keeps the first a_size - 8 payload bytes and every other allocated block's payload. |
| Allocator.Heap.Enlarge | user/ummalloc.c:152-171 | Growing follows EnlargeOutcome: in place into a free successor that makes room, else by moving. The whole old payload arrives at the result, which is allocated with room for a_size; after a move ptr holds no allocated block. Any other allocated block keeps its payload. |

## Left out

- `sbrk` itself, and the kernel's `growproc`, are not part of this model. `Heap.Sbrk` stands in for them. It grows the region to at most the constructor's `limit` and zero-fills the new words.
- Integer widths:
  - Sizes and addresses are unbounded naturals.
  - The break is bounded by `MAX_BREAK` (2^31), so no size or address reaches `uint` wrap-around. `sbrk`'s `int` argument stays positive.
  - Requests are bounded by `MAX_REQUEST`, which keeps `size + 15` inside a `uint`.
  - Requests near 2^32, where the source's `a_size` arithmetic wraps, are not modelled.
- Heap.Realloc: misuse is left out. It requires `ptr` to be NULL or an allocated block of the heap past the prologue. A pointer to a free block, a pointer into the middle of a block, a foreign pointer and calls before `mm_init` have no model. The source does not check for them.
- Heap.Free: it accepts any block of the heap past the prologue, including one that is already free, and then behaves as the source does: both tags are rewritten as free and coalesce runs. A pointer into the middle of a block, a pointer to a block already merged into a neighbour, a foreign pointer and calls before `mm_init` have no model. The source does not check for them.
- Heap.Memcpy: it copies whole words. Every copy the allocator makes is of `block_size - 8` bytes between word-aligned payloads.
- Policy.ReallocKeepsNoAdjacentFree: it requires that the adjusted size be at least the old block size. `mm_realloc`'s shrink path places without coalescing, so its free remainder can sit next to a free block. `Policy.ShrinkMayLeaveAdjacentFree` exhibits such a heap. "No two adjacent free blocks" is therefore not part of `Valid()`. The allocator's correctness does not depend on it.
- Heap.Realloc: it makes no promise about the remainder of the payload beyond the copied bytes, and the source makes none either.
- Allocator.Heap.AlignedBlocks: alignment is stated relative to `heap_head`, not absolutely. The constructor admits a memory image of any length, so `heap_head` is 8-aligned exactly when the break `mm_init` starts from is.
- There is no concurrency: the allocator is single-threaded, like the program.
- `Tags.Pack` is the sum of size and flag. `Tags.PackIsOr` proves this sum equals the source's bitwise OR for every tag the allocator writes.
- The search-then-grow-then-place sequence, which `mm_malloc` and `mm_realloc` repeat, is a single method, `Heap.ObtainPlaced`.
