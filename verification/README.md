# smm: a first-fit placement allocator, modelled in Dafny

`smm.c` manages one contiguous region supplied by its caller. The region
starts with a descriptor (arena tag, alignment mask, free-list head). The
rest of the region is cut into blocks, and each block starts with a header
holding a tag (free or allocated), its size including the header, and a
`next` link for the free list. The free list runs in ascending address
order.

- `smm_init` writes the descriptor and one free block that spans the rest
  of the region.
- `smm_alloc` walks the free list first fit. It hands out a block whole if
  the remainder could not hold a header; otherwise it splits the block and
  the free remainder takes its place in the list.
- `smm_free` walks the list to the released block's address and links the
  block in. It merges the block with a free neighbour that starts where it
  ends, or with one that ends where it starts.
- `smm_get_freeblock_num` counts the free list.
- `smm_realloc` always fails.

Every `assert` of the source is modelled as a `Fatal` outcome naming the
check that failed (`Outcomes.Fault`).

The model works in byte offsets from the region's base:

- `Smm.Arena` holds the descriptor (`valid`, `mask`), the free list as a
  sequence of block offsets (the order of the `next` links), and a map from
  offsets to the headers written there.
- A header stays in the map until a later write overwrites its tag or its
  size (`Smm.Put`). Under LP64 a header holds the `int` tag in bytes 0-4,
  the `size` in bytes 8-16 and the `next` link in bytes 16-24. Each write
  site of the source stores only some of these fields (`Smm.Fields`). A
  write drops every other header whose tag or size shares a byte with the
  fields it stores. Writing the descriptor drops every header inside its 16
  bytes (`Smm.PutDescriptor`).
- So a header whose block was merged into another stays in the map as long
  as no modelled write overwrites it, and a release reads it. "Left out"
  lists the writes that are not modelled. This matters for the double
  release described under "Findings".
- Alignment uses the source's own formula `(sz + m) & ~m`, modelled bit by
  bit on naturals (`Align`). For masks of the form 2^k - 1 it is proved to
  round up to a multiple of `m + 1`.
- Sizes assume LP64 structure layouts: descriptor 16 bytes, block header 24
  bytes, before rounding.

`Smm.Release` takes a `Variant`:

- `AsWritten` is the source's routine.
- `Corrected` changes two places: it retags a header merged into its
  predecessor free, and it appends a block that lies above every free block
  at the tail of the list instead of failing.

The soundness results are stated against an invariant,
`SmmInvariant.Inv(a, size, tiles)`, over a tiling `tiles` of the region into
blocks:

- the blocks partition the region from the first aligned offset to its end;
- block starts are aligned and every block can hold a header;
- the free list is exactly the free blocks, in address order;
- no two free blocks touch.

Initialisation establishes the invariant, and allocation preserves it. The
corrected release preserves it for every live block. The as-written release
preserves it except where it faults on a block above every free block.
Both proofs return the tiling of the new arena. Under it, the block handed
out is the only block that becomes live, and the block released is the only
one that stops being live. Every other live block stays live with its header
unchanged.

`Retile.Rewrite` is the common step: it replaces a window of blocks with
blocks covering the same bytes.

Files:

- `outcomes.dfy`: `Option`, `Fault`, `Outcome`
- `align.dfy`: bitwise `&` and `& ~` on naturals, and `__aligned_size`
- `smm.dfy`: the allocator, namely `Init`, `FirstFit`, `Alloc`,
  `InsertionPoint`, `Release`/`Link`, `Realloc`, `CountFree`, `FreeBlockNum`;
  the header writes `Put` and `PutDescriptor`; and the arenas each branch
  produces (`HandOutArena`, `SplitArena`, `Inserted`, `Absorbed`, `Grown`,
  `Bridged`)
- `invariant.dfy`: the invariant and its basic consequences
- `retile.dfy`: rewriting a window of the tiling
- `alloc_proofs.dfy`: initialisation and allocation
- `release_proofs.dfy`: release, and the two release defects
- `scenarios.dfy`: the bundled test program and concrete runs on a 256-byte
  region

## Model

| member | source | states |
|---|---|---|
| `Align.AlignedSize` | smm.c:30-37 | for a mask 2^k - 1, the rounded size is a multiple of the alignment, at least the requested size, and less than one alignment unit above it |
| `Align.AlignedSizeRoundsUp` | smm.c:36 | `(sz + m) & ~m` is `sz + m` rounded down to a multiple of `m + 1`, i.e. `sz` rounded up |
| `Align.BitMaskArith` | smm.c:36 | for a low mask, `x & m` is the remainder modulo `m + 1` and `x & ~m` is `x` with that remainder cleared |
| `Smm.Init` | smm.c:48-71 | `-EINVAL` exactly when the base is misaligned, `-ENOMEM` exactly when the region cannot hold the descriptor and one header, nothing written on either error, and on success a valid arena with the given mask and a single free-list node |
| `Smm.FirstFit` | smm.c:84-113 | the walk returns the first node whose block is big enough, with every earlier node free and too small; `None` when every node is free and too small; a fault only when some node is not tagged free |
| `Smm.Alloc` | smm.c:73-116 | `BadArenaTag` exactly on an invalid descriptor; `BadFreeTag` only if some list node is not tagged free; on NULL the arena is unchanged; otherwise the payload follows a header that was on the free list, is now allocated, and is big enough for the request; the free list shrinks by at most one node |
| `Smm.InsertionPoint` | smm.c:149-173 | the release walk stops at the first free node above the header, or at a node ending exactly at the header, after passing only free nodes below it that do not end at it; it runs past the end only when all nodes are such nodes |
| `Smm.Release` | smm.c:132-176 | fatal on a bad arena tag; `NotAllocated` exactly when the header in front of the pointer is not tagged allocated; a success keeps the descriptor and changes the list length by at most one; into an empty list the block becomes the only node |
| `Smm.Link` | smm.c:157-175 | linking at the walk's stop never faults except as written past the end, keeps the descriptor, and changes the list length by at most one |
| `Smm.Put` | smm.c:17-21 | after writing some fields of a header at `x`, that header reads as written; another header is gone exactly when the bytes written meet its tag (bytes 0-4) or its size (bytes 8-16); every other header is unchanged; the free-list order is not affected |
| `Smm.PutDescriptor` | smm.c:61-63 | writing the 16-byte descriptor removes exactly the headers that start inside it and leaves all others unchanged |
| `Smm.HandOutArena` | smm.c:92-107 | handing out node `i` whole retags its header allocated with its size unchanged, and the list loses one node |
| `Smm.SplitArena` | smm.c:96-107 | splitting node `i` gives a front header tagged allocated with the needed size, and, when that size covers a header, a free remainder header holding the rest of the block; the list keeps its length |
| `Smm.Realloc` | smm.c:178-182 | reallocation always fails fatally |
| `Smm.CountFree` | smm.c:207-212 | the count from node `i` succeeds exactly when every node from `i` on is tagged free, and is then the number of those nodes |
| `Smm.FreeBlockNum` | smm.c:199-216 | the free-block count succeeds exactly on a valid arena whose list nodes are all tagged free, and is then the list's length |
| `AllocProofs.InitCodes` | smm.c:52-59 | for a low mask, the error codes in terms of alignment and size: `-EINVAL` iff the base is not a multiple of the alignment, `-ENOMEM` iff aligned but too small, success iff aligned and large enough |
| `AllocProofs.InitEstablishes` | smm.c:61-66 | after a successful initialisation the invariant holds with one block, which is the only free node and spans the region past the descriptor; the count is 1 |
| `AllocProofs.FirstFitFound` | smm.c:84-109 | on a well-tagged list, the walk stops at exactly the first node big enough |
| `AllocProofs.AllocNullIff` | smm.c:85-115 | on a valid, well-tagged arena, allocation never faults and returns NULL exactly when no free block is big enough |
| `AllocProofs.AllocTakesFirstFit` | smm.c:89-108 | allocation hands out the first fit: whole, with its node unlinked, when the remainder could not hold a header; otherwise cut to the needed size, with a free remainder header behind it replacing the node |
| `AllocProofs.AllocKeepsInv` | smm.c:73-116 | under the invariant allocation never faults and returns a tiling under which the new arena satisfies the invariant; a NULL leaves the arena and the tiling alone; a payload is aligned and lies in a block big enough for the request, whose size leaves the free byte total; that block is the only one that becomes live, and every block live before stays live with its header unchanged |
| `AllocProofs.HandOutHanded` | smm.c:92-107 | handing out a free tile whole makes that block live and leaves every other live block live with its header unchanged |
| `AllocProofs.SplitHanded` | smm.c:96-107 | splitting a free tile makes its front the only new live block under the split tiling and leaves every other live block live with its header unchanged |
| `AllocProofs.WholeCase` | smm.c:92-95 | under the invariant, handing out the first fit whole keeps the invariant under the same tiling and is a sound grant |
| `AllocProofs.SplitCase` | smm.c:96-108 | under the invariant, splitting the first fit returns a tiling under which the invariant holds, and is a sound grant |
| `AllocProofs.AllocSizes` | smm.c:78-79 | the needed block size is aligned, covers the header and the request, and an aligned block's payload is aligned |
| `SmmInvariant.FreeListShape` | smm.c:157-164 | under the invariant the free list is strictly ascending, every node is a free block, and no node ends where the next begins |
| `SmmInvariant.FreeDisjoint` | smm.c:157-168 | under the invariant every free block ends at or before the start of any later node |
| `SmmInvariant.PartitionSum` | smm.c:61-66 | under the invariant the block sizes add up to the region past the descriptor |
| `SmmInvariant.CountUnderInv` | smm.c:199-216 | under the invariant the count never faults and equals the list's length |
| `ReleaseProofs.ReleaseIntoEmpty` | smm.c:142-147 | into an empty free list the release succeeds and the block becomes the only node, its header retagged free with its size kept; every header more than a header's width away is unchanged |
| `ReleaseProofs.InsertKeeps` | smm.c:157-164 | inserting a block with no free neighbour keeps the invariant, adds its size to the free bytes, lists a free block covering it, and lengthens the list by one |
| `ReleaseProofs.AbsorbKeeps` | smm.c:161-162 | absorbing the next free block keeps the invariant and the byte, coverage and count accounting |
| `ReleaseProofs.GrowKeeps` | smm.c:165-168 | growing the preceding free block keeps the invariant and the byte, coverage and count accounting |
| `ReleaseProofs.BridgeKeeps` | smm.c:166-167 | bridging both free neighbours into one block keeps the invariant, and the list loses a node |
| `ReleaseProofs.EmptyReclaims` | smm.c:142-147 | releasing a live block into an empty list succeeds and leaves a sound arena |
| `ReleaseProofs.BeforeAbsorbs` | smm.c:157-164 | releasing a live block that ends where the free node the walk stops before starts succeeds and absorbs that node, keeps the invariant under the returned tiling, adds the block's size to the free bytes, covers it by a free block, and frees only that block |
| `ReleaseProofs.BeforeInserts` | smm.c:157-164 | releasing a live block that does not end where the next free node starts succeeds and links it in front of that node, with the same guarantees |
| `ReleaseProofs.AfterBridges` | smm.c:165-168 | releasing a live block between two free nodes that touch it on both sides succeeds and merges all three, with the same guarantees |
| `ReleaseProofs.AfterGrows` | smm.c:165-168 | releasing a live block behind a free node that ends where it starts, and not touching the next one, succeeds and grows that node over it, with the same guarantees |
| `ReleaseProofs.PastEndAppends` | smm.c:171-175 | corrected, releasing a live block above every free block that touches none of them succeeds and appends it at the tail, with the same guarantees |
| `ReleaseProofs.ReleaseKeepsInv` | smm.c:132-176 | under the invariant, releasing a live block either succeeds or, as written only, faults for lack of an insertion point; a success returns a tiling under which the new arena satisfies the invariant, with the block's size added to the free bytes, a free block covering it, the block no longer live and every other live block still live with its header unchanged; the list gains one node less one per free neighbour |
| `ReleaseProofs.FreeBelowLive` | smm.c:157-165 | under the invariant no free node starts at a live block, and one starting below it ends at or before it |
| `ReleaseProofs.ReleaseStrandedIff` | smm.c:151-175 | as written, releasing a live block faults exactly when the list is not empty and every free block ends strictly below the released one |
| `ReleaseProofs.CorrectedRejectsSecondRelease` | smm.c:140 | corrected, after a successful release the same pointer is refused as not allocated |
| `ReleaseProofs.LinkRetags` | smm.c:157-168 | corrected, every way of linking the block leaves its header tagged free |
| `ReleaseProofs.GrownKeepsHeader` | smm.c:165-166 | as written, growing the preceding free node over the block writes only that node's size, so the released header survives with its tag and size |
| `ReleaseProofs.BridgedKeepsHeader` | smm.c:165-167 | as written, bridging also writes only that node's size and `next` link, so the released header survives with its tag and size |
| `ReleaseProofs.AsWrittenMergeKeepsTag` | smm.c:165-168 | as written, after a backward merge the released header is still tagged allocated, so the same pointer passes the check again |
| `Scenarios.InitOneBlock` | smm.c:61-66 | successful initialisation leaves one free block, spanning the region past the descriptor, that fits the request |
| `Scenarios.WholeTrip` | smm.c:92-95 | a lone free block too small to split is handed out whole, and its release makes it the only node again |
| `Scenarios.SplitTrip` | smm.c:96-108 | a lone free block is split, and releasing the front absorbs the remainder again |
| `Scenarios.OneBlockTrip` | smm.c:73-176 | from a lone free block, allocating and releasing restores the free list and the block's header, and the count is 1 |
| `Scenarios.RoundTrip` | test/test.c:21-27 | from the arena initialisation leaves, one allocation and its release restore the initial free block |
| `Scenarios.TestProgramInit` | test/test.c:21-22 | initialising 40960 bytes at mask 0xf succeeds with one free block of 40944 bytes at offset 16 |
| `Scenarios.TestProgram` | test/test.c:24-27 | the 10-byte allocation gets payload offset 48, and its release restores the single 40944-byte free block |
| `Scenarios.InitFresh` | smm.c:48-71 | a 256-byte region at mask 0xf starts with one free block of 240 bytes at offset 16 |
| `Scenarios.AllocFront` | smm.c:96-108 | a 16-byte request splits a lone free block into a 48-byte live block and the free rest |
| `Scenarios.FirstAlloc` | smm.c:96-108 | the first 16-byte request gets payload offset 48 |
| `Scenarios.SecondAlloc` | smm.c:96-108 | the second gets payload offset 96 |
| `Scenarios.ThirdAlloc` | smm.c:96-108 | the third gets payload offset 144, leaving a 96-byte free block at 160 |
| `Scenarios.FirstRelease` | smm.c:157-164 | releasing payload 48 inserts block 16 in front of block 160 without a merge |
| `Scenarios.SecondRelease` | smm.c:165-168 | releasing payload 96 grows free block 16 over block 64; as written, the header at 64 stays tagged allocated |
| `Scenarios.SecondBackConsistent` | smm.c:165-168 | the arena after that release satisfies the invariant |
| `Scenarios.DoubleRelease` | smm.c:140 | as written, releasing payload 96 again succeeds and lists block 64 as free |
| `Scenarios.DoubledBroken` | smm.c:157-164 | the doubly released arena lists two overlapping free blocks and satisfies the invariant for no tiling |
| `Scenarios.CorrectedDoubleRelease` | smm.c:140 | corrected, the second release of payload 96 is refused as not allocated |
| `Scenarios.ZeroAlloc` | smm.c:96-107 | as written, after that merge a 0-byte request splits block 16 at 32 bytes, and the remainder's header at 48 overwrites the stale header at 64 |
| `Scenarios.StaleTagErased` | smm.c:139-140 | after that, a second release of payload 96 is refused as not allocated in both variants |
| `Scenarios.CarvedAlloc` | smm.c:96-107 | as written, a 32-byte request instead splits block 16 at 64 bytes, and the remainder's header at 80 leaves the stale header at 64 intact |
| `Scenarios.StaleTagSurvives` | smm.c:139-164 | after that, a second release of payload 96 passes the check and is linked in front of block 80; its `next` link overwrites block 80's tag, so the free list names a block whose header is gone |
| `Scenarios.BigAlloc` | smm.c:92-95 | a 100-byte request takes the 144-byte block at 112 whole, emptying the free list |
| `Scenarios.FrontRelease` | smm.c:142-147 | releasing payload 48 into the empty list makes block 16 the only node |
| `Scenarios.FrontFreeConsistent` | smm.c:142-147 | the arena after that release satisfies the invariant |
| `Scenarios.StrandedRelease` | smm.c:175 | as written, releasing payload 144, above the only free block, faults |
| `Scenarios.AppendedRelease` | smm.c:171-175 | corrected, that release appends block 112 at the tail |
| `Scenarios.DrainRelease` | smm.c:165-168 | corrected, releasing the last live block bridges both free neighbours into one free block of 240 bytes at offset 16 |

## Left out

- `smm_dump` and all `DEBUG` output (smm.c:184-197 and the `DEBUG` lines): printing only.
- Fixed-width arithmetic: sizes and offsets are unbounded naturals. The `size_t` wrap-around of `sz + align_mask`, `sz + bs` and `size - hs` for sizes near 2^64 is not modelled, and neither is pointer overflow at the top of the address space.
- The mask is a natural. A negative `int` mask, and the sign extension of `~align_mask` to `size_t`, are not modelled. `AlignedSize` computes the bitwise formula for every natural mask, but its meaning is proved only for masks of the form 2^k - 1.
- Pointers are offsets from the region's base. The `intptr_t` cast on smm.c:55 is `BitAnd(base, mask)` on the base address as a natural.
- Tag values (`0xE5E5`, `0x5E5E`, `0xAAAA`) are the datatype `Tag` and the flag `Arena.valid`. Memory that holds no header, or a header with any other tag, is a missing map entry. A pointer less than a header size from the base is treated as not allocated; in C its header would lie outside the region.
- Payload bytes are not modelled. The caller is assumed never to write into a payload, so headers change only through the allocator's own writes. In C, a stale header that lies inside a live block's payload is exposed to the caller's writes.
- `Smm.Put`: the stores through `bhp` (smm.c:95, 101, 158) and `h->freelist` (smm.c:143) write only the `next` field of a list node or the descriptor's list head. They are not modelled as header writes. In a sound arena they overlap no other header. In an arena already corrupted by a double release, they could overwrite a stale tag that the model keeps.
- `Smm.Put`: the free list's `next` links are modelled only as the order of `Arena.free`, so a store that overlaps another list node's `next` field (bytes 16-24) leaves `free` unchanged, while in C it rewrites that node's link. In a sound arena no store reaches another header, so this needs headers less than a header's width apart, which only a double release leaves behind (after `Scenarios.Doubled`, a 32-byte allocation writes the remainder's tag at 80 over the `next` of node 64).
- `Smm.Put`: a header whose size is overwritten but whose tag is intact is dropped whole. In C its tag would still pass the check on smm.c:140, and the release would read the new size.
- `Smm.Put`: overwritten tag bytes are taken never to spell a valid tag again. A stored size or link whose low bytes happened to equal `0xAAAA` is not modelled.
- `Scenarios`: the concrete runs assume memory held no header inside the 256-byte region before initialisation (`Scenarios.Untouched`).
- `NDEBUG`: with it, the `assert`s vanish and `smm_get_freeblock_num` is not compiled. The model keeps every assertion as a `Fatal` outcome.
- Concurrency: the allocator takes no locks and is modelled as sequential.
- test.c's `malloc` and `SYS_ERR_COND`/`exit` plumbing. The test program's region is taken to start at offset 0, which assumes `malloc` returns 16-byte-aligned memory (true of LP64 C libraries).
- smm.h only declares the functions modelled here.
- `Smm.Realloc`: models only the outcome (always fatal); `size` and `ptr` are ignored, as in the source.

## Findings

| source | as written | input that shows it | evidently intended | confidence | as-written member | corrected member |
|---|---|---|---|---|---|---|
| smm.c:165-168 | the backward merge grows the preceding free block over the released block but leaves the released header tagged allocated | 256-byte region, mask 0xf: allocate 16 bytes three times (payloads 48, 96, 144), free 48, free 96, free 96 again; the second free of 96 passes the check on smm.c:140 and links block 64, which lies inside free block 16, into the free list | the merged header no longer reads as allocated, so a double free stops at the check on smm.c:140 | high; proved about the model, not executed | `ReleaseProofs.AsWrittenMergeKeepsTag` | `ReleaseProofs.CorrectedRejectsSecondRelease` |
| smm.c:175 | a released block lying above every free block, and not touching the last one, walks off the free list and hits `assert(false)` | 256-byte region, mask 0xf: allocate 16 bytes twice (payloads 48, 96), allocate 100 bytes (payload 144, which takes the last free block whole), free 48, free 144; the last free faults | the block is appended at the tail of the free list | high; proved about the model, not executed | `ReleaseProofs.ReleaseStrandedIff` | `ReleaseProofs.PastEndAppends` |

The concrete runs behind both rows are in `scenarios.dfy`:

- Row 1, as written: `Scenarios.DoubleRelease` and `Scenarios.DoubledBroken`. The arena before the second free satisfies the invariant (`Scenarios.SecondBackConsistent`); the arena after it satisfies it for no tiling.
- Row 1, corrected: `Scenarios.CorrectedDoubleRelease`.
- Row 2, as written: `Scenarios.StrandedRelease`, on an arena that satisfies the invariant (`Scenarios.FrontFreeConsistent`).
- Row 2, corrected: `Scenarios.AppendedRelease` and `Scenarios.DrainRelease`.

The stale tag of row 1 lasts only until a later header write overwrites it:

- `Scenarios.ZeroAlloc` and `Scenarios.StaleTagErased`: a 0-byte allocation writes a remainder header over it, and the second release then faults.
- `Scenarios.CarvedAlloc` and `Scenarios.StaleTagSurvives`: a 32-byte allocation's writes miss it, and the second release is still accepted.

Both corrections live in `Smm.Release` under `Variant.Corrected`. For a live block the corrected release never faults and always leaves a sound arena (`ReleaseProofs.ReleaseKeepsInv`).

- Row 1: the check on smm.c:140 is there to reject a pointer whose block is not live. After the backward merge, block 64 is no longer a block of its own, yet the check passes.
- Row 2: the walk on smm.c:157-168 keeps the free list in address order, so a block above every free block belongs at the tail. Instead the release aborts.

`Variant.AsWritten` follows the code in both rows.
