# FlexiOS kernel memory and thread core in Dafny

This project models the core of the FlexiOS kernel. The kernel is written in Rust for AArch64. The model has five parts:

- **Address model.** The three generations of address types are modelled:
  - `mm/address.rs`: physical and virtual addresses masked to 48 bits. `mm_type.rs` repeats these types, and `MmType` adds what is new there.
  - `mm/page_mode.rs`: page numbers and page alignments.
  - `addr_type.rs`: addresses tagged with a physical, kernel or user base.
  - The AArch64 constants and translations of `arch/aarch64/mm.rs`.
  - `Align` holds the shared power-of-two floor, ceiling and offset helpers.
- **Frames and allocators.**
  - The stack frame allocator: a bump cursor plus a stack of recycled page numbers. It comes in two versions, `mm/frame_alloc.rs` and `frame_allocator.rs`.
  - The `FrameBox` that frees its frame when dropped.
  - The sized frames and frame ranges of `mm/frame.rs`.
  - The data, guard and lazy frames of `frame.rs`.
- **Paging.**
  - The AArch64 page mode: levels, alignments, index extraction, and table and block descriptors.
  - The descriptor word of `page_table.rs`, split into flag, address and upper fields.
  - The huge-page mapping solver of `mm/page_space.rs`. It chooses the largest level whose alignment the request allows, then peels the unaligned edges down to finer levels.
  - The paged address space. It walks the table tree, creating missing tables on the way, and writes one descriptor per solver step.
  - The region tracker of `addr_space.rs`.
- **Threads.**
  - The kernel stack (`thread/kernel_stack.rs`; `thread.rs` holds a copy).
  - The thread record and its state.
  - Two schedulers: the index-based one of `scheduler.rs` and the queue-based one of `thread/scheduler.rs` with the CPU record of `thread/cpu.rs`.
  - The saved register contexts of `thread/thread_ctx.rs` and `arch/aarch64/sched.rs`.
- **Console divisor.** The baud-rate divisor of the PL011 UART driver.

Machine words are natural numbers below 2^64. Bitwise AND, OR and NOT are defined one binary digit at a time, in `Bits`. Rust panics are preconditions: `unwrap` on `None`, `unimplemented!`, debug-build overflow and explicit `panic!`. Rust `Err` results are `Result` values. Memory is a total map from page numbers to page tables. Mutation through `&mut self` becomes a function that returns the new state.

Where the code and the written design disagree, the model follows the code:
- **Allocator.** There is one pool of 4 KiB page numbers, not three size classes with separate free lists.
- **Deallocation check.** Deallocation checks validity and panics on a frame that was never handed out. The model turns this into a precondition.
- **Driver request.** For the 0x3e00-page request the solver emits a single level-1 chunk, because 0x3e00 is 31 × 512. It does not emit chunks at several levels.
- **`map_range`.** It hands the region to the page table's own `map` and records the region. It does not walk the frames itself.
- **New tables.** The design says a table the walk creates is zero-initialised. The code installs the new frame as it comes from the allocator, without clearing it, so `PagedSpace.Walk` does too (see Findings). The walk as designed is `PagedSpace.WalkZeroing`.

## Model

| member | source | states |
|---|---|---|
| PageMode.PpnAddr | kernel/src/mm/page_mode.rs:63-65 | the address of a page number is page aligned, and is the page number times 4096 when the shift does not overflow |
| PageMode.PpnOf | kernel/src/mm/page_mode.rs:66-68 | the page number of an address is the page that contains it |
| PageMode.PpnRoundTrip | kernel/src/mm/page_mode.rs:63-68 | page number to address to page number is the identity; address to page number to address is the identity exactly for aligned addresses |
| PageMode.NextPage | kernel/src/mm/page_mode.rs:69-72 | the next page number is one more, wrapping to 0 after the largest word |
| PageMode.WithinRangeIsRingOrder | kernel/src/mm/page_mode.rs:73-79 | `is_within_range` holds exactly when the page lies before the end, counting forward from the beginning around the 64-bit ring |
| PageMode.NextPageStepsRing | kernel/src/mm/page_mode.rs:69-72 | stepping a page moves it one place further around the ring from any beginning |
| PageMode.VpnAddr | kernel/src/mm/page_mode.rs:86-88 | a virtual page number's address is page aligned and is the number times 4096 without overflow |
| PageMode.VpnOf | kernel/src/mm/page_mode.rs:89-91 | the virtual page number of an address is the page containing it |
| PageMode.VpnRoundTrip | kernel/src/mm/page_mode.rs:86-91 | virtual page numbers and addresses convert back and forth, the address side exactly for aligned addresses |
| PageMode.AlignFrom | kernel/src/mm/page_mode.rs:99-103 | a page alignment built from a count holds that count |
| PageMode.AlignValue | kernel/src/mm/page_mode.rs:104-106 | reading an alignment's count and rebuilding gives the same alignment |
| PageMode.AlignConversionsInverse | kernel/src/mm/page_mode.rs:99-106 | the two alignment conversions are mutually inverse |
| Address.WidthMask | kernel/src/mm/address.rs:28-34 | the physical and virtual width masks are the same 48-bit mask, and masking with it is the remainder by 2^48 |
| Address.PhysFrom | kernel/src/mm/address.rs:28-30 | a physical address built from a word keeps the word's low 48 bits |
| Address.VirtFrom | kernel/src/mm/address.rs:32-34 | a virtual address built from a word keeps the word's low 48 bits |
| Address.FromKeepsNarrow | kernel/src/mm/address.rs:28-34 | construction leaves a word unchanged exactly when it is below 2^48, and masking twice is masking once |
| Address.PageOffset | kernel/src/mm/address.rs:52-54 | the offset is below the alignment and, for a power of two, is the remainder |
| Address.OffsetIsRemainder | kernel/src/mm/address.rs:67-69 | masking with `align - 1` is the remainder by a power-of-two alignment |
| Address.AlignedIsMultiple | kernel/src/mm/address.rs:70-72 | `is_aligned` holds exactly for multiples of the alignment |
| Address.PhysFloor | kernel/src/mm/address.rs:61-63 | the floor is the aligned address at or below, less than one alignment away |
| Address.PhysCeil | kernel/src/mm/address.rs:64-66 | the ceiling is the aligned address at or above, less than one alignment away, and equals the address exactly when it is aligned |
| Address.VirtFloor | kernel/src/mm/address.rs:46-48 | the virtual floor rounds down to the alignment |
| Address.VirtCeil | kernel/src/mm/address.rs:49-51 | the virtual ceiling rounds up to the alignment and keeps aligned addresses |
| Address.PhysAdd | kernel/src/mm/address.rs:119-124 | adding to a physical address wraps within the 48-bit width |
| Address.PhysSub | kernel/src/mm/address.rs:132-137 | subtracting from a physical address wraps within the 48-bit width |
| Address.VirtAdd | kernel/src/mm/address.rs:92-97 | adding to a virtual address wraps within the 48-bit width |
| Address.VirtSub | kernel/src/mm/address.rs:105-110 | subtracting from a virtual address wraps within the 48-bit width |
| Address.AddSubRoundTrip | kernel/src/mm/address.rs:119-137 | adding then subtracting the same amount returns the address when the sum stays in width |
| Address.SubAddRoundTrip | kernel/src/mm/address.rs:92-110 | subtracting then adding the same amount returns the address |
| Address.AddWraps | kernel/src/mm/address.rs:119-124 | a sum past 2^48 comes back as the sum minus 2^48 |
| Align.Offset | kernel/src/addr_type.rs:35-37 | for any nonzero alignment the offset is below the alignment and not above the address; for a power of two it is the remainder |
| Align.Floor | kernel/src/addr_type.rs:15-19 | the floor is a multiple of the alignment at or below, less than one alignment away |
| Align.Ceil | kernel/src/addr_type.rs:20-29 | the ceiling is a multiple at or above, less than one alignment away, and equal exactly for aligned inputs |
| Align.FloorGreatest | kernel/src/addr_type.rs:15-19 | no multiple of the alignment at or below the address exceeds the floor |
| Align.CeilLeast | kernel/src/addr_type.rs:20-29 | no multiple of the alignment at or above the address is below the ceiling |
| Align.MaskIsRemainder | kernel/src/addr_type.rs:35-43 | masking with `align - 1` is the remainder, for every power-of-two alignment |
| AddrType.Base | kernel/src/addr_type.rs:62-119 | each address class's base is a multiple of the 48-bit window that ends within the word, and only the kernel base is nonzero |
| AddrType.New | kernel/src/addr_type.rs:73-77 | a new address is valid for its class and keeps the low 48 bits of the word above the base |
| AddrType.NewValue | kernel/src/addr_type.rs:74-76 | clearing the base bits and ORing the base is adding the base to the word's low 48 bits |
| AddrType.NewOfValid | kernel/src/addr_type.rs:97-101 | rebuilding a valid address from its value returns it |
| AddrType.Num | kernel/src/addr_type.rs:38-40 | the page number is the 4 KiB page that contains the address |
| AddrType.IsAlignedIsMultiple | kernel/src/addr_type.rs:41-43 | for a power-of-two alignment an address is aligned exactly when its word is a multiple of it, and, for alignments dividing the 48-bit window, exactly when its distance from its class's base is |
| AddrType.Floor | kernel/src/addr_type.rs:78-80 | the tagged floor stays valid and rounds down within the window |
| AddrType.Ceil | kernel/src/addr_type.rs:81-83 | the tagged ceiling stays valid, rounds up, and wraps to the window's base when rounding up would leave the window |
| AddrType.Add | kernel/src/addr_type.rs:167-172 | adding keeps the class and validity, and is plain addition while inside the window |
| AddrType.Sub | kernel/src/addr_type.rs:180-185 | subtracting keeps the class and validity, and is plain subtraction while inside the window |
| AddrType.AddSubRoundTrip | kernel/src/addr_type.rs:221-239 | adding then subtracting inside the window returns the address |
| AddrType.SubAddRoundTrip | kernel/src/addr_type.rs:194-212 | subtracting then adding inside the window returns the address |
| AddrType.KernelSubWraps | kernel/src/addr_type.rs:234-239 | one below the kernel base, renormalised as a kernel address, is the top word |
| AddrType.PhysToKernel | kernel/src/addr_type.rs:250-253 | a physical address maps to the kernel address one kernel base higher |
| AddrType.KernelToPhys | kernel/src/addr_type.rs:254-257 | a kernel address maps to the physical address one kernel base lower |
| AddrType.TranslationRoundTrips | kernel/src/addr_type.rs:250-257 | the two translations are mutually inverse on valid addresses |
| ArchMm.Constants | kernel/src/arch/aarch64/mm.rs:2-8 | the page size is 2^12, both address widths are 48 bits, and the kernel base is the top 2^48 of the word |
| ArchMmMap.PhysToVirt | kernel/src/arch/aarch64/mm.rs:9-12 | the kernel virtual address is the physical address plus the kernel base |
| ArchMmMap.VirtToPhys | kernel/src/arch/aarch64/mm.rs:13-16 | the physical address is the virtual address less the kernel base |
| ArchMmMap.PhysToVirtDefined | kernel/src/arch/aarch64/mm.rs:9-12 | every physical address within the width has a kernel address without overflow |
| ArchMmMap.RoundTrips | kernel/src/arch/aarch64/mm.rs:9-16 | the translations are mutually inverse wherever defined |
| ArchMmMap.PhysToVirtNotMasked | kernel/src/arch/aarch64/mm.rs:9-12 | a kernel address is outside the 48-bit width, so rebuilding it as a `VirtAddr` would change it |
| MmType.ContainingAddress | kernel/src/mm_type.rs:211-215 | the frame containing an address starts at or below it, less than a page away |
| MmType.ContainingRoundTrip | kernel/src/mm_type.rs:208-225 | every address inside a frame gives back that frame |
| FrameAllocator.Allocate | kernel/src/frame_allocator.rs:43-54 | allocation fails exactly when nothing is recycled and the cursor is at the end; otherwise it pops the most recently recycled page or, with nothing recycled, returns the cursor's page and advances the cursor by one; the frame returned was free and is then taken, and nothing else changes |
| FrameAllocator.Deallocate | kernel/src/frame_allocator.rs:55-63 | a taken frame becomes free and nothing else changes |
| FrameAllocator.DropThenAllocate | kernel/src/frame_allocator.rs:43-63 | giving a frame back and allocating again returns that frame and the allocator as it was |
| FrameAlloc.New | kernel/src/mm/frame_alloc.rs:53-55 | a new allocator has free exactly the pages in `start..end` |
| FrameAlloc.CursorStep | kernel/src/mm/frame_alloc.rs:60-66 | advancing the cursor removes exactly the cursor page from the free range |
| FrameAlloc.AllocateFrame | kernel/src/mm/frame_alloc.rs:56-68 | allocation fails exactly when nothing is recycled and the cursor is at the end; otherwise it pops the most recently recycled page, leaving the cursor, or, with nothing recycled, returns the cursor's page and advances the cursor by one; a returned page was free and is now taken, and every other page keeps its status |
| FrameAlloc.ExhaustedMeansNothingFree | kernel/src/mm/frame_alloc.rs:60-61 | when allocation fails, no page is free |
| FrameAlloc.DeallocateFrame | kernel/src/mm/frame_alloc.rs:69-76 | a taken page becomes free, and every other page keeps its status |
| FrameAlloc.DeallocateThenAllocate | kernel/src/mm/frame_alloc.rs:56-76 | the page just freed is the next one handed out, and the allocator returns to its earlier state |
| FrameAlloc.AllocateThenDeallocate | kernel/src/mm/frame_alloc.rs:69-73 | freeing the page just allocated restores which pages are free |
| FrameAlloc.AllocationsDistinct | kernel/src/mm/frame_alloc.rs:56-68 | two successive allocations never return the same page |
| FrameAlloc.TryNewIn | kernel/src/mm/frame_alloc.rs:26-29 | a frame box fails exactly when allocation fails, and otherwise holds a page that was free and is now taken |
| FrameAlloc.DropBox | kernel/src/mm/frame_alloc.rs:34-39 | dropping a box frees its page |
| FrameAlloc.BoxRoundTrip | kernel/src/mm/frame_alloc.rs:24-39 | creating and dropping a box leaves every page's status as before |
| PhysFrames.ContainingAddress | kernel/src/mm/frame.rs:29-35 | the containing frame is aligned to its size and holds the address |
| PhysFrames.ContainingAligned | kernel/src/mm/frame.rs:29-35 | the containing frame starts at the address exactly when the address is aligned |
| PhysFrames.FromStartAddress | kernel/src/mm/frame.rs:23-28 | a frame is built exactly from an aligned start, and keeps it |
| PhysFrames.FromStartAddressRoundTrip | kernel/src/mm/frame.rs:23-35 | every well-formed frame is rebuilt from its own start |
| PhysFrames.AddFrames | kernel/src/mm/frame.rs:58-63 | adding `n` frames keeps the size and alignment, and moves the start by `n` frame sizes inside the width |
| PhysFrames.AddAlignedFrames | kernel/src/mm/frame.rs:58-63 | re-containing the moved start gives exactly that start |
| PhysFrames.AddFramesWraps | kernel/src/mm/frame.rs:58-63 | one frame past the top physical frame wraps to address 0 |
| PhysFrames.RangeOf | kernel/src/mm/frame.rs:52-54 | the range starts at the frame containing the beginning and ends at the first frame boundary at or past the end |
| PhysFrames.RangeOfEnd | kernel/src/mm/frame.rs:52-54 | the range's end frame is the one after the frame holding the last byte |
| PhysFrames.RangeOfTopIsEmpty | kernel/src/mm/frame.rs:52-54 | a range ending at the top of physical memory wraps its end to 0 and is empty |
| PhysFrames.Next | kernel/src/mm/frame.rs:91-99 | the iterator yields nothing exactly when the range is empty, and otherwise yields the first frame and moves one frame size forward |
| PhysFrames.Frames | kernel/src/mm/frame.rs:88-100 | the frames yielded are evenly spaced by the size, start at the range's start and fill it exactly |
| PhysFrames.FramesContains | kernel/src/mm/frame.rs:88-100 | every aligned frame inside the range is yielded |
| PhysFrames.FramesBelowEnd | kernel/src/mm/frame.rs:88-100 | every yielded frame lies inside the range |
| PhysFrames.RangeOfCovers | kernel/src/mm/frame.rs:47-54 | every address of `begin..end` lies in a yielded frame |
| PhysFrames.RangeOfTight | kernel/src/mm/frame.rs:47-54 | every yielded frame overlaps `begin..end` |
| PageSize.Bytes | kernel/src/arch/aarch64/paging/page.rs:15-28 | each page size is a multiple of 4 KiB between 4 KiB and 1 GiB |
| PageSize.BytesPowerOfTwo | kernel/src/arch/aarch64/paging/page.rs:15-28 | each page size is a power of two |
| PageSize.SizeLadder | kernel/src/arch/aarch64/paging/page.rs:20-28 | each page size is 512 times the one below |
| Arm64PageMode.AlignForLevel | kernel/src/arch/aarch64/paging/page_mode.rs:16-24 | a level's alignment is 512 to the level's power of pages, and is one page exactly at the leaf level |
| Arm64PageMode.AlignLadder | kernel/src/arch/aarch64/paging/page_mode.rs:16-24 | each level's alignment is 512 times the level below |
| Arm64PageMode.VisitLevelsUntil | kernel/src/arch/aarch64/paging/page_mode.rs:26-33 | the levels from 2 down to the given level |
| Arm64PageMode.VisitLevelsBefore | kernel/src/arch/aarch64/paging/page_mode.rs:35-43 | the levels from the root, 3, down to just above the given level |
| Arm64PageMode.VisitLevelsFrom | kernel/src/arch/aarch64/paging/page_mode.rs:45-53 | the levels from the given level down to 0 |
| Arm64PageMode.BeforeThenFrom | kernel/src/arch/aarch64/paging/page_mode.rs:35-53 | the levels before a level followed by the levels from it are all four levels, root first |
| Arm64PageMode.UntilSkipsRoot | kernel/src/arch/aarch64/paging/page_mode.rs:26-43 | the solver's level list starts at 2, never at the root |
| Arm64PageMode.VpnIndex | kernel/src/arch/aarch64/paging/page_mode.rs:55-57 | the index is bits `9l .. 9l+8` of the page number, below 512 |
| Arm64PageMode.VpnLevelIndex | kernel/src/arch/aarch64/paging/page_mode.rs:63-71 | replacing a level's index gives a page number with that index, zero below it, and every bit above the level's index field unchanged (so every higher level's index too) |
| Arm64PageMode.LevelIndexFields | kernel/src/arch/aarch64/paging/page_mode.rs:63-71 | the same for the arithmetic formula, field by field, and the bits above the level's field as a whole |
| Arm64PageMode.InitPageTable | kernel/src/arch/aarch64/paging/page_mode.rs:77-79 | every entry of an initialised table is unused and invalid |
| Arm64PageMode.SetTable | kernel/src/arch/aarch64/paging/page_mode.rs:85-88 | a table entry is valid, not a block, and points at the page |
| Arm64PageMode.SetFrameAt | kernel/src/arch/aarch64/paging/page_mode.rs:90-98 | an installed entry is valid, is a block exactly below level 3, and points at the page |
| Arm64PageMode.GetPpn | kernel/src/arch/aarch64/paging/page_mode.rs:104-106 | the page number read back is the descriptor's address field |
| Arm64PageMode.GetPpnRoundTrip | kernel/src/arch/aarch64/paging/page_mode.rs:85-106 | reading the page number after installing a table or a frame gives the installed page |
| Arm64PageMode.TableFlags | kernel/src/arch/aarch64/paging/page_mode.rs:86-92 | the table pattern sets the valid and table bits, the block pattern only the valid bit, both within the flag field |
| Arm64PageTable.MaskFields | kernel/src/arch/aarch64/paging/page_table.rs:75-77 | the address mask covers exactly bits 12-47 and the flag mask is its complement |
| Arm64PageTable.FlagsAddrPartition | kernel/src/arch/aarch64/paging/page_table.rs:76-77 | a descriptor is its flags plus its address |
| Arm64PageTable.Flags | kernel/src/arch/aarch64/paging/page_table.rs:109-113 | the flags keep the low and high fields and clear the address field |
| Arm64PageTable.Addr | kernel/src/arch/aarch64/paging/page_table.rs:115-119 | the address is the address field, page aligned and below 2^48 |
| Arm64PageTable.TypeBits | kernel/src/arch/aarch64/paging/page_table.rs:121-130 | valid means bit 0 set and block means bit 1 clear |
| Arm64PageTable.Frame | kernel/src/arch/aarch64/paging/page_table.rs:132-140 | `frame` fails with not-present exactly for invalid entries and with huge-frame exactly for valid blocks; otherwise it returns the 4 KiB frame at the address |
| Arm64PageTable.SetAddr | kernel/src/arch/aarch64/paging/page_table.rs:142-147 | reading back after `set_addr` gives the address and the flags written |
| Arm64PageTable.SetAddrReadBack | kernel/src/arch/aarch64/paging/page_table.rs:143-147 | ORing an aligned address with flags reads back as both |
| Arm64PageTable.SetAddrTypeBits | kernel/src/arch/aarch64/paging/page_table.rs:142-147 | the written entry's validity and block bit are those of the flags |
| Arm64PageTable.SetFrame | kernel/src/arch/aarch64/paging/page_table.rs:148-153 | `set_frame` writes the frame's address and the flags, as a non-block entry |
| Arm64PageTable.SetBlock | kernel/src/arch/aarch64/paging/page_table.rs:154-158 | `set_block` writes the address and the flags, as a block entry |
| Arm64PageTable.SetFrameRoundTrip | kernel/src/arch/aarch64/paging/page_table.rs:132-153 | `frame` after `set_frame` with table flags returns the frame written |
| Arm64PageTable.SetFlags | kernel/src/arch/aarch64/paging/page_table.rs:159-161 | replacing the flags keeps the address and reads back the new flags |
| Arm64PageTable.SetFlagsReadBack | kernel/src/arch/aarch64/paging/page_table.rs:159-161 | clearing the flag field and ORing new flags keeps the address and gives those flags |
| Arm64PageTable.NewTable | kernel/src/arch/aarch64/paging/page_table.rs:190-196 | a new table has 512 unused entries |
| Arm64PageTable.Zero | kernel/src/arch/aarch64/paging/page_table.rs:198-203 | zeroing a table leaves every entry unused, the same as a new table |
| Arm64PageTable.SetEntry | kernel/src/arch/aarch64/paging/page_table.rs:224-228 | writing one entry changes that entry only |
| MapperSolver.SpanIsAlign | kernel/src/arch/aarch64/paging/page_mode.rs:16-24 | the solver's span at a level is the page mode's alignment for that level |
| MapperSolver.RoundUp | kernel/src/mm/page_space.rs:124 | the rounded-up start is the least multiple at or above |
| MapperSolver.RoundDown | kernel/src/mm/page_space.rs:125 | the rounded-down end is the greatest multiple at or below |
| MapperSolver.RoundUpLeast | kernel/src/mm/page_space.rs:124 | no multiple at or above the start lies below the rounded-up start |
| MapperSolver.RoundDownGreatest | kernel/src/mm/page_space.rs:125 | no multiple at or below the end lies above the rounded-down end |
| MapperSolver.RoundShift | kernel/src/mm/page_space.rs:124-127 | shifting by a multiple of the span commutes with rounding, so the physical bounds follow the virtual ones |
| MapperSolver.FirstFit | kernel/src/mm/page_space.rs:115-119 | the first level in the list that keeps both page numbers congruent and is no larger than the request |
| MapperSolver.SelectLevel | kernel/src/mm/page_space.rs:115-145 | the largest of levels 2, 1, 0 that fits; none exactly for an empty request |
| MapperSolver.Solve | kernel/src/mm/page_space.rs:113-148 | the answer is empty exactly for an empty request |
| MapperSolver.SolveNonEmpty | kernel/src/mm/page_space.rs:128-140 | a selected level emits at least one chunk |
| MapperSolver.SolveCorrect | kernel/src/mm/page_space.rs:113-148 | the chunks cover every page of `vpn..vpn+n` exactly once and nothing else; each chunk is aligned to its level on both sides and keeps the requested distance; levels never increase and never exceed the selected level (so never 3); at most `2i+1` chunks |
| MapperSolver.SolveStartsWithMiddle | kernel/src/mm/page_space.rs:122-143 | when the selected level's rounded-up start and rounded-down end differ, the first chunk is the run between them at that level, on both sides; every other chunk is at a lower level |
| MapperSolver.EmitStartsWithMiddle | kernel/src/mm/page_space.rs:122-143 | the inner loop's first level pushes only the run between its own bounds, and every later chunk is below that level |
| MapperSolver.SolveFromSelected | kernel/src/mm/page_space.rs:120-143 | the same facts, once level `i` has been selected |
| MapperSolver.SolveInside | kernel/src/mm/page_space.rs:120-143 | every chunk lies inside the request |
| MapperSolver.SolveWholeGiant | kernel/src/mm/page_space.rs:113-148 | a request of exactly one aligned 1 GiB block is one level-2 chunk |
| MapperSolver.SolveDriverRequest | kernel/src/mm/page_space.rs:159-166 | the 0x3e00-page request from page 0 is one level-1 chunk |
| MapperSolver.SolveWithEdges | kernel/src/mm/page_space.rs:128-140 | a request with unaligned ends gets an aligned middle chunk and two leaf edges |
| MapperSolver.SolveMisaligned | kernel/src/mm/page_space.rs:115-119 | page numbers not congruent at any higher level fall back to one leaf chunk |
| MapperSolver.FirstPiece | kernel/src/mm/page_space.rs:136-140 | the selected level's piece covers its aligned middle once, at that level |
| MapperSolver.LaterPieces | kernel/src/mm/page_space.rs:128-135 | a lower level's pieces cover exactly the two newly exposed edges, once each |
| MapperSolver.EmitLeftovers | kernel/src/mm/page_space.rs:122-143 | the levels below cover the unaligned head and tail exactly once, with well-formed chunks in non-increasing level order |
| MapperSolver.EmitFromSelected | kernel/src/mm/page_space.rs:120-143 | the whole inner loop covers the request once, with well-formed chunks no higher than the selected level, at most `2i+1` of them |
| MapperSolver.StepsBetweenForward | kernel/src/mm/page_space.rs:94-100 | `steps_between` is `c` exactly when stepping forward by `c` reaches the end |
| MapperSolver.ForwardChecked | kernel/src/mm/page_space.rs:98-100 | stepping forward always succeeds and moves both components together |
| MapperSolver.BackwardCheckedAsWritten | kernel/src/mm/page_space.rs:101-103 | the written backward step is the forward step: it always succeeds and moves both components forward by the count |
| MapperSolver.BackwardChecked | kernel/src/mm/page_space.rs:101-103 | the intended backward step succeeds exactly when neither component would go below 0, and moves both back by the count |
| MapperSolver.ForwardBackwardRoundTrip | kernel/src/mm/page_space.rs:98-103 | forward then backward, and backward then forward, by the same count return the start |
| MapperSolver.BackwardAsWrittenMovesForward | kernel/src/mm/page_space.rs:101-103 | the written backward step moves forward, so it never undoes a forward step |
| MapperSolver.StepBy | kernel/src/mm/page_space.rs:73 | every step point lies in `lo..hi` and keeps the distance between the components |
| MapperSolver.StepByPoints | kernel/src/mm/page_space.rs:73 | the `k`-th point is `k` spans past the start, and the points fill `lo..hi` exactly |
| MapperSolver.ChunkStepsEvenly | kernel/src/mm/page_space.rs:72-73 | a chunk's length is a whole number of its level's spans |
| PagedSpace.TryNewInAsWritten | kernel/src/mm/page_space.rs:33-39 | as written, the space keeps the original allocator, so the root page is still free in it |
| PagedSpace.TryNewIn | kernel/src/mm/page_space.rs:33-39 | creation fails exactly when allocation fails; otherwise the root is a freshly taken page holding an empty table, and the space owns it |
| PagedSpace.NewFrame | kernel/src/mm/page_space.rs:55 | a new table frame comes from the space's allocator and fails exactly when it does; with a shared allocator the space keeps the allocator that handed it out |
| PagedSpace.Walk | kernel/src/mm/page_space.rs:47-61 | the walk keeps the root, adds at most one table per level after the frames it already had, and fails only when the allocator is exhausted |
| PagedSpace.AllocGetTableAsWritten | kernel/src/mm/page_space.rs:45-66 | as written, the walk never changes the space's allocator |
| PagedSpace.AllocGetTable | kernel/src/mm/page_space.rs:45-66 | the table returned is the one reached by following the entries from the root for every level above the target |
| PagedSpace.WalkKeepsClonedAllocator | kernel/src/mm/page_space.rs:55-59 | with a cloned allocator, the walk leaves the space's allocator as it was |
| PagedSpace.WalkKeepsValid | kernel/src/mm/page_space.rs:47-61 | the walk never invalidates an entry that was valid |
| PagedSpace.WalkReaches | kernel/src/mm/page_space.rs:47-61 | a successful walk ends at the table that following the entries reaches |
| PagedSpace.WalkReachesNewTable | kernel/src/mm/page_space.rs:54-60 | the same when the walk installs a new table at the first level |
| PagedSpace.WalkOwns | kernel/src/mm/page_space.rs:54-60 | with the allocator threaded through, the space owns its root and every table it created, all distinct and taken |
| PagedSpace.OwnsNewFrame | kernel/src/mm/page_space.rs:55-59 | adding a freshly boxed frame keeps the space's ownership invariant |
| PagedSpace.WalkExisting | kernel/src/mm/page_space.rs:51-53 | when every entry on the path is valid, the walk changes nothing and returns the reached table |
| PagedSpace.RootHandedOutAgain | kernel/src/mm/page_space.rs:31-66 | as written, the first table the walk creates is the root page again |
| PagedSpace.InstallTable | kernel/src/mm/page_space.rs:55-59 | installing a new table changes only the parent table's page, appends the new frame and keeps the allocator that handed it out |
| PagedSpace.WalkStepValid | kernel/src/mm/page_space.rs:51-53 | through a valid entry the walk goes on from the page that entry names |
| PagedSpace.WalkStepNew | kernel/src/mm/page_space.rs:54-60 | through an invalid entry the walk takes the allocator's next frame, which is never the parent table, and goes on below it |
| PagedSpace.NewLeafTableNotZeroed | kernel/src/mm/page_space.rs:55-59 | as written, the table a one-level walk creates keeps whatever its frame held before |
| PagedSpace.StaleEntryFollowed | kernel/src/mm/page_space.rs:51-59 | as written, when the new frame still holds a valid entry for the next level, the walk follows it instead of creating a table there; a two-level walk returns the page that stale entry names |
| PagedSpace.InstallZeroedTable | kernel/src/mm/page_space.rs:55-59 | installing a cleared table, as line 37 does for the root, puts an empty table on the new frame, appends that frame and leaves every other page alone |
| PagedSpace.WalkZeroing | kernel/src/mm/page_space.rs:47-61 | the walk with new tables cleared keeps the root, adds at most one table per level after the frames it already had, and fails only when the allocator is exhausted |
| PagedSpace.WalkZeroingStepNew | kernel/src/mm/page_space.rs:54-60 | through an invalid entry the clearing walk fails with the allocator or goes on below a new empty table whose next entry is invalid |
| PagedSpace.WalkZeroingLastLevel | kernel/src/mm/page_space.rs:54-60 | a clearing walk that creates the table at its last level returns that new frame, holding an empty table |
| PagedSpace.WalkZeroingFreshChain | kernel/src/mm/page_space.rs:47-61 | with new tables cleared, a walk that meets an invalid entry creates one table for every remaining level and returns an empty table |
| PagedSpace.WalkZeroingReturnsNewFrame | kernel/src/mm/page_space.rs:47-61 | with new tables cleared, such a walk returns the last frame it took |
| PagedSpace.PointTarget | kernel/src/mm/page_space.rs:74-75 | a step point becomes the page of its address masked to 48 bits, on both the virtual and the physical side |
| PagedSpace.ChunkTargetsPoints | kernel/src/mm/page_space.rs:73-75 | a chunk gives one target per span, the `k`-th converted from the point `k` spans past its start, as written or as intended |
| PagedSpace.IntendedTargetsKeepDistance | kernel/src/mm/page_space.rs:73-75 | with each point's own page numbers, a chunk's `k`-th target maps virtual page `lo + k * span` to the page the requested distance below it, and the virtual pages strictly increase |
| PagedSpace.SetFrameMapsTo | kernel/src/mm/page_space.rs:77-78 | the entry written for a target is valid, is a block exactly below level 3, and points at the target's page |
| PagedSpace.MapOne | kernel/src/mm/page_space.rs:74-78 | one step of the mapping loop with the shared allocator keeps the root and ownership, and fails only when the allocator is exhausted |
| PagedSpace.MapOneWrites | kernel/src/mm/page_space.rs:74-78 | once the walk reaches the target's table, the target's entry in it maps the target |
| PagedSpace.MapTargets | kernel/src/mm/page_space.rs:72-81 | the mapping loop with the shared allocator keeps the root and ownership, only adds table frames, and stops only on allocator exhaustion |
| PagedSpace.SolveTargetsReady | kernel/src/mm/page_space.rs:72-73 | every solver chunk of a request without leaf chunks is aligned, inside the word, and at level 1 or 2, so each step has a descriptor to write |
| PagedSpace.AllocateMap | kernel/src/mm/page_space.rs:71-82 | `allocate_map` as intended (shared allocator, each point's own page numbers) keeps the root and ownership, only adds table frames, and fails only on allocator exhaustion |
| PagedSpace.MapOneAsWritten | kernel/src/mm/page_space.rs:74-78 | as written, one step leaves the space's allocator as it was, keeps the root and earlier frames, records only the allocator's first box, and fails only when that allocator is exhausted |
| PagedSpace.MapTargetsAsWritten | kernel/src/mm/page_space.rs:72-81 | as written, the loop leaves the space's allocator as it was, records only the allocator's first box as table frames, and stops only when that allocator is exhausted |
| PagedSpace.AllocateMapAsWritten | kernel/src/mm/page_space.rs:71-82 | `allocate_map` as written needs only a valid allocator; it leaves that allocator as it was, records only its first box, and fails only when it is exhausted |
| PagedSpace.AllocateMapReusesRoot | kernel/src/mm/page_space.rs:33-82 | as written, on a space fresh from `try_new_in` every table frame `allocate_map` records is the root page |
| PagedSpace.DriverPointsShareAPage | kernel/src/mm/page_space.rs:74-75 | as written, two level-1 points 512 pages apart convert to the same virtual page 0, and the point with virtual page 0x40000 and physical page 0x200 maps frame 0x40, not 0x200 |
| Frame.Bytes | kernel/src/frame.rs:9-14 | each frame size's discriminant is the matching page size in bytes |
| Frame.BytesStrictlyOrdered | kernel/src/frame.rs:9-14 | the derived order of frame sizes is the order of their byte counts, and distinct sizes have distinct counts |
| Frame.NewData | kernel/src/frame.rs:55-65 | a new data frame reads back its start and size |
| Frame.ReservedFramesKeepSize | kernel/src/frame.rs:131-159 | guard and lazy frames keep their size |
| Frame.AsSlice | kernel/src/frame.rs:68-80 | a slice is refused exactly when it would run past the frame; otherwise it has the length asked for and starts at the frame's kernel address plus the offset, inside the frame |
| Frame.AsType | kernel/src/frame.rs:96-108 | a typed view is refused exactly when it would run past the frame; otherwise it is at the frame's kernel address plus the offset, inside the frame |
| Frame.TypeIsOneElementSlice | kernel/src/frame.rs:68-108 | a typed view is the one-element slice at the same offset |
| Frame.Drop | kernel/src/frame.rs:125-129 | dropping hands the frame over exactly once more and nothing else |
| AddrSpace.MapRange | kernel/src/addr_space.rs:19-23 | `map_range` appends exactly the new region and hands that region to the table |
| AddrSpace.OverlapNotRejected | kernel/src/addr_space.rs:19-23 | mapping the same range twice records it twice |
| AddrSpace.MapAllRecords | kernel/src/addr_space.rs:19-23 | a series of `map_range` calls records the regions in call order and hands them to the table in that order |
| AddrSpace.WithFrames | kernel/src/addr_space.rs:44-46 | writing through the reference `get_frames` returns replaces the frames and leaves the address, size and flag as they were |
| AddrSpace.FramesAccessLaws | kernel/src/addr_space.rs:44-49 | writing back the frames read changes nothing, of two writes the last wins, and writing the frames commutes with replacing the flag |
| AddrSpace.ReplaceFlag | kernel/src/addr_space.rs:47-49 | replacing the flag changes only the flag |
| AddrSpace.ReplaceFlagLastWins | kernel/src/addr_space.rs:47-49 | of two replacements the last wins, and replacing with the current flag changes nothing |
| KernelStack.New | kernel/src/thread/kernel_stack.rs:15-20 | a new stack is empty: its position is the frame size |
| KernelStack.Sp | kernel/src/thread/kernel_stack.rs:21-24 | the stack pointer is the kernel address of the frame's start plus the position |
| KernelStack.PushOn | kernel/src/thread/kernel_stack.rs:25-35 | a push of a value that fits below the position, at an address the kernel window can hold, lowers the position by the value's size and writes the value just below the old position, inside the frame |
| KernelStack.PushCannotFail | kernel/src/thread/kernel_stack.rs:29-32 | the `unwrap` of `as_type_mut` never panics for a value that fits below the position |
| KernelStack.PushLowersSp | kernel/src/thread/kernel_stack.rs:21-35 | a push lowers the stack pointer by the value's size and the value sits at the new stack pointer |
| KernelStack.PushesStayInFrame | kernel/src/thread/kernel_stack.rs:25-35 | a series of pushes lowers the position by their total size and keeps the stack pointer inside the frame |
| KernelStack.PushAll | kernel/src/thread/kernel_stack.rs:25-35 | a series of pushes keeps the stack's frame and invariant and lowers the position by their total size |
| Thread.SetState | kernel/src/thread.rs:87-89 | setting the state changes only the state |
| Thread.SetGetLaws | kernel/src/thread.rs:84-89 | read after write gives what was written, writing what was read changes nothing, and the last write wins |
| Scheduler.New | kernel/src/scheduler.rs:36-41 | a new scheduler has no threads and none current |
| Scheduler.PushThread | kernel/src/scheduler.rs:53-55 | pushing appends the thread and keeps the current position |
| Scheduler.FirstReady | kernel/src/scheduler.rs:63-69 | the first ready position from the start, skipping the current one; none exactly when no other thread is ready |
| Scheduler.Sched | kernel/src/scheduler.rs:57-80 | on success a different ready thread becomes current and its stack pointer is returned; on failure the current position is kept |
| Scheduler.SchedStates | kernel/src/scheduler.rs:57-62 | only the demoted running thread changes state, to ready; a current thread that is not running makes `sched` fail and change nothing |
| Scheduler.SchedPicksFirst | kernel/src/scheduler.rs:63-77 | the chosen thread is the first ready one other than the demoted thread; failure means no other thread was ready |
| Scheduler.TwoThreadsAlternate | kernel/src/scheduler.rs:57-80 | as written, with a running thread at position 0 and a ready one at 1, one round demotes the first to ready and makes the second current, still marked ready |
| Scheduler.SchedAgainFails | kernel/src/scheduler.rs:57-80 | as written, after a successful round the new current thread is not running, so the next round fails and changes nothing; if only the current thread was running before, no thread is running after |
| Scheduler.SchedRunning | kernel/src/scheduler.rs:57-80 | the corrected round returns and selects what `sched` does and marks the selected thread running, so exactly the current thread runs afterwards whenever that held before |
| Scheduler.TwoThreadsTakeTurns | kernel/src/scheduler.rs:57-80 | with the corrected round two threads swap roles, and a second round restores the starting state |
| RunQueue.PushThread | kernel/src/thread/scheduler.rs:30-32 | pushing appends the thread at the back and adds its identity |
| RunQueue.FirstReady | kernel/src/thread/scheduler.rs:36-42 | the first ready position in the queue, none exactly when no thread is ready |
| RunQueue.SchedNext | kernel/src/thread/scheduler.rs:34-47 | nothing is taken exactly when no thread is ready; otherwise the first ready thread leaves the queue marked running and the rest keep their order |
| RunQueue.SchedNextKeepsIds | kernel/src/thread/scheduler.rs:43-45 | the thread taken plus the rest are the queue before |
| RunQueue.IdsRemove | kernel/src/thread/scheduler.rs:43-45 | removing one position keeps every other identity |
| RunQueue.NewCpu | kernel/src/thread/cpu.rs:11-13 | a new CPU runs no thread |
| RunQueue.Sched | kernel/src/thread/scheduler.rs:57-71 | one round puts `sched_next`'s pick on the CPU: the first ready thread, now running; the queue left is the others in their order, and the queue plus that thread hold the same identities as before |
| RunQueue.Yield | kernel/src/thread/scheduler.rs:78-95 | a yield leaves the CPU empty and puts the current thread, ready, at the back of the queue |
| RunQueue.YieldThenSchedResumes | kernel/src/thread/scheduler.rs:50-99 | a thread that yields while no other is ready runs again and the queue is as before |
| RunQueue.YieldSchedKeepsIds | kernel/src/thread/scheduler.rs:50-99 | a yield followed by a round neither loses nor duplicates a thread |
| ThreadCtx.New | kernel/src/thread/thread_ctx.rs:27-29 | a new context is all zeros |
| ThreadCtx.Set | kernel/src/thread/thread_ctx.rs:30-38 | `set` writes the stack pointer and the return address: the entry for a kernel thread, the first-return address otherwise; other registers are unchanged |
| ThreadCtx.SetTwice | kernel/src/thread/thread_ctx.rs:30-38 | of two `set` calls the last wins |
| ThreadCtx.FreshKernelContext | kernel/src/thread/thread_ctx.rs:27-38 | a fresh kernel context is zero apart from the stack pointer and the entry |
| ArchSched.Slot | kernel/src/arch/aarch64/sched.rs:24-60 | each register has its own slot below the register count, and general registers take slots 0 to 30 |
| ArchSched.SlotsBijective | kernel/src/arch/aarch64/sched.rs:24-60 | slots and registers correspond one to one |
| ArchSched.Put | kernel/src/arch/aarch64/sched.rs:69-73 | writing a register changes that register only |
| ArchSched.New | kernel/src/arch/aarch64/sched.rs:76-80 | a new context reads zero in every register |
| ArchSched.UserInit | kernel/src/arch/aarch64/sched.rs:81-85 | `user_init` sets the user stack, the return-to-EL0 status and the entry, and nothing else |
| ArchSched.UserInitSlots | kernel/src/arch/aarch64/sched.rs:81-85 | the same, as slots 31, 32 and 33 of the saved array |
| Pl011.CalculateD | kernel/src/driver/pl011.rs:14-17 | the fractional part is the low 6 bits of `4 * clock / baud`, and with the integer part it rebuilds that quotient while it fits the registers |
| Pl011.SplitFields | kernel/src/driver/pl011.rs:16 | the 32-bit truncations keep the 6-bit and 16-bit fields of the divisor |
| Pl011.DivisorSplit | kernel/src/driver/pl011.rs:14-17 | the integer part is `clock / (16 * baud)`, and integer and fraction together are the largest 64ths of the divisor not above it |
| Pl011.ConsoleDivisor | kernel/src/driver/pl011.rs:36-38 | at 24 MHz and 115200 baud the divisor is 13 and 1/64 |

## Left out

- The tock-registers `matches_any` reading of `is_valid` and `is_block` is not modelled: validity is bit 0 set and block is bit 1 clear, as the doc comments say. The same holds for the `debug_assert`s of `set_frame` and `set_block` (kernel/src/arch/aarch64/paging/page_table.rs:151 and 156), which call `matches_any` on the field mask of `TABLE_OR_BLOCK`. `Arm64PageTable.SetFrame` and `Arm64PageTable.SetBlock` read them as a requirement on bit 1 of the flags value. So do the `!TestBit(flags, 1)` requires of `Arm64PageMode.SetFrameAt` and `PagedSpace.AllocateMap`, which come from them.
- `set_frame` at level 0 reaches `unimplemented!`, so `Arm64PageMode.SetFrameAt` requires a level of 1 to 3 and `PagedSpace.AllocateMap` requires a request whose solution has no level-0 chunk.
- Page-mode calls pass a page number where a frame or address is expected; the model reads them as the page's address.
- The `FrameAllocator` trait implementation of `mm/frame_alloc.rs` calls `allocate_frame` on itself; it is modelled as delegation to the inherent method.
- `find_region_mut`, `unmap` and `remap` of `addr_space.rs` are `todo!()` and have no model.
- `addr_space.rs` imports a `VirtAddr` that `addr_type.rs` does not define; the region's address is a word.
- `map_range` calls the page table's `map` through a shared reference; the table is a parameter and `map` a function passed in, so what it writes is not modelled.
- The written design's `read_from_space` and `allocate_frames` do not exist in the modelled code.
- Hardware and assembly are parameters or left out: `switch_to_vmspace`, `thread_swtch`, the PL011 register writes (`pl01_init`, `pl01_send`, `wait_tx_complete`), `get_raw_addr`, and the first-return address of a user thread.
- The PL011 register offsets are added to a `*mut u32`, which scales them by four; register access is not modelled.
- A thread's address space and saved context are not fields of the modelled thread.
- Physical memory is a total map from page numbers to page tables; bytes outside tables are not modelled.
- The global allocator that `Frame.Drop` hands frames to is not part of this model; `Frame.Drop` records the frames handed over, in order.
- PagedSpace.AllocateMap: models `allocate_map` as evidently intended, with the allocator shared and each point's own page numbers (see Findings); the code as written is `PagedSpace.AllocateMapAsWritten`. It states ownership, growth and the failure cause, not that every target stays mapped after later steps, because a later step can rewrite an entry of an earlier one.
- PagedSpace.MapTargets: models the loop with the allocator shared; as written it is `PagedSpace.MapTargetsAsWritten`. It states the same invariants as `AllocateMap`, not the final entries.
- PagedSpace.MapOne: models one step with the allocator shared; as written it is `PagedSpace.MapOneAsWritten`.
- Scheduler.Sched: models `sched` as written, which leaves the selected thread marked ready (see Findings); the corrected round is `Scheduler.SchedRunning`.
- PagedSpace.Walk: states the shape of the result; where it arrives is in `PagedSpace.WalkReaches`, `PagedSpace.WalkReachesNewTable` and `PagedSpace.WalkExisting`.
- PagedSpace.AllocGetTable: walks as the code does, installing new tables without clearing them (see Findings). `PagedSpace.MapOne`, `PagedSpace.MapTargets` and `PagedSpace.AllocateMap` build on it. The walk that clears new tables is `PagedSpace.WalkZeroing`. The mapping operations are not restated over it, because the invariants they state do not depend on what a new table held.
- Pl011.CalculateD: the divisor is truncated, whereas the PL011 reference manual rounds to the nearest 64th.
- `create_root_thread`, the ELF loader and the scheduler's own saved context are outside the core.
- The solver's iterator `next` only hands out the solved chunks in order; `Solve` returns them as a sequence.

## Findings

| source | as written | input that shows it | evidently intended | confidence | as-written member | corrected member |
|---|---|---|---|---|---|---|
| kernel/src/mm/page_space.rs:101-103 | `backward_checked` adds the count to both components | `Pair(1, 1)` stepped forward by 1 to `Pair(2, 2)`, then backward by 1, gives `Pair(3, 3)` instead of `Pair(1, 1)` | subtract the count, failing below 0 | not executed | MapperSolver.BackwardAsWrittenMovesForward | MapperSolver.ForwardBackwardRoundTrip |
| kernel/src/mm/page_space.rs:33-39 | `try_new_in` allocates the root from a clone of the allocator and stores the original | a fresh space's first `alloc_get_table` for level 2 or below creates its first table on the root's own page | the space's allocator no longer offers the root page | not executed | PagedSpace.RootHandedOutAgain | PagedSpace.AllocGetTable |
| kernel/src/scheduler.rs:57-80 | `sched` demotes the running thread to ready but never marks the selected thread running | a running thread at position 0 and a ready one at 1: one round makes position 1 current but still ready, and the next round fails with `SchedFail` | mark the selected thread running, so that rounds alternate | not executed | Scheduler.SchedAgainFails | Scheduler.TwoThreadsTakeTurns |
| kernel/src/mm/page_space.rs:55-59 | the walk installs the frame from `FrameBox::try_new_in` as a child table without clearing it, unlike the root, which `try_new_in` fills with an empty table at line 37 | a recycled frame that still holds a valid entry at the next level's index: a two-level walk follows that stale entry and returns the page it names, instead of creating a second table | fill the new frame with an empty table before installing it | not executed | PagedSpace.StaleEntryFollowed | PagedSpace.WalkZeroingFreshChain |
| kernel/src/mm/page_space.rs:74-75 | both page numbers are built from `ans.0` through `VirtAddr::from` and `PhysAddr::from`, so a page number is read as a byte address and `ans.1` is ignored | the level-1 point with virtual page 0x40000 and physical page 0x200 maps virtual page 0x40 to frame 0x40 | `VirtPageNum(ans.0)` and `PhysPageNum(ans.1)` | not executed | PagedSpace.DriverPointsShareAPage | PagedSpace.IntendedTargetsKeepDistance |
