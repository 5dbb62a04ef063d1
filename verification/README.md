# A verified model of the kernel's memory manager and its clients

The kernel keeps physical memory as one pool of 4 KiB frames. The same frames serve as nodes of
the free list (a mark in the first word, a link in the second), as page tables of a four-level
tree, and as pages of data. This project models that pool with the operations of `kernel/mem.c`,
what is built on it (program loading, `mmap`, `malloc`), and the screen, mouse, terminal and
keyboard code, and proves what each promises.

## How it is organised

| file | what it holds |
|---|---|
| `Words.dfy` | the 64-bit word as the twelve bit-fields of a page table entry |
| `Frames.dfy` | memory, the free list, the invariant, `pmem_alloc` and `pmem_free` |
| `Translation.dfy` | the page walk (Intel SDM Vol. 3A, sections 4.5 and 4.6) and `malloc_page` |
| `Mapping.dfy`, `Unmapping.dfy`, `LowerHalf.dfy` | `vm_map`, `vm_protect`, `vm_unmap`, `unmap_lower_half` |
| `Changes.dfy` | which words of memory those four change; frames held elsewhere keep theirs |
| `FrameRuns.dfy` | `add_memory`, `freelist_init`, and runs of allocations, frees and writes |
| `Identity.dfy` | `vm_unmap` and `add_memory` as written, dereferencing physical addresses without the offset |
| `Machine.dfy` | class `Kernel`: the same operations on one array of frames, changed in place |
| `PageRuns.dfy` | runs of `vm_map`, `vm_unmap`, `vm_protect` refine a partial map of pages |
| `UserMemory.dfy`, `Loader.dfy`, `UserHeap.dfy` | bytes at virtual addresses, `sys_exec`, `sys_mmap`, `malloc` |
| `Images.dfy` | exactly when loading succeeds, and exactly when the image is the one the gABI asks for |
| `Framebuffer.dfy`, `Cursor.dfy` | drawing, and the mouse cursor painted over the picture |
| `Terminal.dfy` | the scrolling terminal as a view of an unbounded log |
| `Keyboard.dfy` | the ring buffer under interrupts, `sys_read`, `kgets` |
| `Numbers.dfy` | number printers and parsers |

Code that works by changing state is a class or a method over arrays, proved equal to a function
on values; the theorems are about those functions. In the memory manager a `State` holds what the
kernel stores (`mem`, `freelist`, `root`) and two records of the invariant: `free`, the list as a
sequence, and `roles`, what each frame is used for. `Inv` says that the list is threaded through
exactly the free frames, that every present entry that should point to a table points to the one
recorded for its position, and that every recorded frame is what the walk to its position finds. What
pages lead to is left open, since the bootloader maps free frames and tables as pages, too; that
every page leads to its own frame (`PagesOwned`) is a property of its own, proved of what `vm_map` builds.

## Where code and comments differ

The code is modelled as it is; the documented behaviour stands beside it where it matters.

* `pmem_free` returns early when its argument *is* page-aligned (kernel/mem.c:194), although
  aligned is what its comment asks for. `Config.guard` chooses between the test `AsWritten` and
  the test `AsDocumented`; every theorem covers both. As written no frame ever returns to the list
  (`FrameRuns.AsWrittenOnlyShrinks`).
* `vm_unmap` passes `free_page_table` physical addresses without the offset (kernel/mem.c:345, 350,
  355), and that function dereferences them. `Unmap` tests the tables themselves, as is meant;
  `Identity.UnmapWritten` goes through the page tables, and `Identity.UnmapWrittenExactly` says exactly
  when the two agree. After `unmap_lower_half` they do not: `Identity.UnmapFaults`.
* `pmem_alloc` tests for null after adding the offset (kernel/mem.c:180-181). On an empty list it
  returns 0 but reloads the head from physical page 0; `FrameRuns.EmptyAlloc` says exactly when the
  list stays empty, `FrameRuns.EmptyAllocRunsAway` what happens otherwise, and `Inv` asks that page
  0 is held with a zero second word.
* `atoi` and `atoi_x`, `kgets` with capacities 0 and 1, `sys_read` with size 0, the 1x1 path of
  `sys_draw_rectangle` off the screen, rectangles whose position plus size leaves 32 bits, regions
  that `add_memory` rounds past their end or that hold more than 2^19 pages, `malloc` once `sys_mmap` has passed 2^31, and key presses
  in the middle of `kgetc` do not do what is asked of them; each has a lemma giving the exact condition.
* The comment of `sys_mmap` gives the bits of `prot` as 0x10 and 0x100; the code, and the C
  library, use 2 and 4 (`UserHeap.ProtBits`).
* `run_program` copies `p_memsz` bytes of the file (kernel/elf.c:43), where the System V gABI
  (chapter 5, "Program Header") asks for `p_filesz` bytes and then zeros. `Images.GabiExactly` says
  exactly when the image is right all the same, `Images.OneByteOfBss` is a program for which it is not.

## Assumptions

* `ptov` is the identity on frame numbers: through the direct map the kernel reaches every frame.
* `add_memory` writes the free-list nodes through physical addresses without the offset
  (kernel/mem.c:31-34), so it runs while the bootloader's identity map is in place
  (`Identity.DonateThroughIdentity`).
* `int` products that overflow wrap around, as the machine's do.
* `vm_map`, `vm_unmap` and `vm_protect` ignore `page_size`, so they require that the walked path
  carries no large-page mark (`SmallPath`). For trees that `vm_map` built from an empty root, and
  for the user half after `unmap_lower_half`, this is proved (`PageRuns.PlainPath`).
* Table entries never have all four bits 8 to 11 set; nothing in the kernel sets them.
* A page that the bootloader mapped may lead to any frame, so `vm_unmap` requires of its page that the
  frame is recorded for it (`Owned`). In the lower half after `unmap_lower_half`, and everywhere in a
  tree that `vm_map` built, this is proved.
* In the page loops of `run_program` and `sys_mmap`, `j*PAGE_SIZE` is an `int`: at most 2^19 pages a call.
* Screens: at least 3 and fewer than 256 bytes a pixel, rows at least as long as their pixels,
  fewer than 2^31 bytes.
* A free of a frame still in the tree, or of physical page 0, does not occur.
* The offset of the direct map plus a physical address stays below 2^64.

## Model

| member | source | states |
|---|---|---|
| `Words.WordIsUint64` | kernel/mem.h:17-31 | page table entries, read through their bit-fields, and 64-bit numbers are in bijection, so one memory can be read as entries, list nodes and data |
| `Words.MarkAndPointers` | kernel/mem.h:12-37 | the mark is 9123213123 and the link word of a free frame is the physical address of the next |
| `Words.MarkNeedsUnusedBits` | kernel/mem.h:12-31 | an entry whose bits 8 to 11 are not all set is never the mark, so a table is never taken for a free frame |
| `Words.EntryBits` | kernel/mem.h:17-31 | which bits of the 64-bit entry are present, writable, user, page size, the frame and no-execute, as numbers |
| `Words.LittleEndian` | stdlib/string.c:34-42 | a word is the sum of its eight bytes times powers of 256, least significant first |
| `Frames.AllocSound` | kernel/mem.c:178-187 | `pmem_alloc` hands out the first free frame and keeps the invariant; no table and no other word of memory changes; from an empty list it returns 0 |
| `Frames.ReleaseSound` | kernel/mem.c:193-204 | `pmem_free` puts the frame in front of the list unless it carries the mark; never on the list twice; as written it changes nothing |
| `Frames.ReleaseWords` | kernel/mem.c:193-204 | the only words a free changes are the first two of the frame it puts on the list: the mark and the address of the old head |
| `FrameRuns.EmptyAlloc` | kernel/mem.c:178-187 | allocating from an empty list fails, and the list stays empty if and only if the direct map has no offset or all 64 bits of the second word of physical page 0 are zero |
| `FrameRuns.EmptyAllocRunsAway` | kernel/mem.c:178-187 | inputs at which it does not: the word 8 becomes a head that is neither NULL nor a frame, and after a link to frame g the next allocation hands out g, in use or not |
| `FrameRuns.DoubleFree` | kernel/mem.c:193-204 | freeing a frame that is on the list changes nothing at all |
| `FrameRuns.PagesAreWhole` | kernel/mem.c:21-38 | the pages `add_memory` takes, sums computed in 64 bits and `PAGE_SIZE*i` in an `int`, are exactly those wholly inside the region if and only if the region reaches its first page boundary, holds no page beyond the 64-bit addresses and at most 2^19 pages |
| `FrameRuns.ThreeGigabytes` | kernel/mem.c:31-36 | a region of 3 GiB from 1 MiB on: its page 2^19 is not taken, and one far outside it is |
| `FrameRuns.DonateAllInv` | kernel/mem.c:28-37 | `add_memory` prepends its pages last first, each once, keeps the invariant and changes no translation |
| `FrameRuns.PagesDistinct` | kernel/mem.c:56-63 | disjoint usable regions contribute no page twice |
| `FrameRuns.FreelistInitFills` | kernel/mem.c:47-65 | over disjoint regions of at most 2^19 pages the list is duplicate-free, holds exactly the whole pages inside usable regions, and its length is the sum of the per-region counts, whatever the bootloader maps |
| `FrameRuns.RunBalanced` | kernel/mem.c:178-204 | in every run of allocations, frees, double frees and writes to held frames, each frame of the pool is on the list, with one client, or lost, and never two of these |
| `FrameRuns.BootedRun` | kernel/mem.c:47-204 | from boot on, any such run keeps the stored list finite, duplicate-free, properly linked and apart from held frames |
| `FrameRuns.AsWrittenOnlyShrinks` | kernel/mem.c:193-196 | with the guard as written the frames issued followed by the list are always the initial list, so no frame is issued twice |
| `Translation.WalkRole` | kernel/mem.c:126-167 | the table a walk ends at is the frame recorded for that position, so no two positions share a table |
| `Translation.WalkInNumbers` | kernel/mem.c:126-167 | a walk, read off memory: which entry each level reads and which bits of the entries give a page its rights |
| `Translation.WalkLocal` | kernel/mem.c:126-167 | changing one table entry, data and free frames changes no walk except through that entry |
| `Translation.MallocPageWalk` | kernel/mem.c:214-234 | `malloc_page` changes the walk of one position, to the new frame with the rights asked for; on failure of none |
| `Translation.MallocPageInv` | kernel/mem.c:214-234 | `malloc_page` keeps the invariant, takes exactly the first free frame and leaves it zeroed; it fails exactly on an empty list |
| `Mapping.GrowInv` | kernel/mem.c:254-279 | the descent creates exactly the missing tables, in list order, and fails exactly when they are more than the free frames |
| `Mapping.GrowWalk` | kernel/mem.c:254-279 | the descent changes no walk but those of the tables it creates, even when it runs out of frames half way |
| `Mapping.MapInv` | kernel/mem.c:245-291 | `vm_map` keeps the invariant; it succeeds if and only if the page was unmapped and enough frames were free, and takes exactly as many frames as were missing |
| `Mapping.MapWalk` | kernel/mem.c:245-291 | the walk of every position after `vm_map` |
| `Mapping.MapInsertsOnePage` | kernel/mem.c:245-291 | success: the page was unmapped and now leads to a fresh zeroed frame with the rights asked for, every other page as before; failure: no translation changes |
| `Changes.MapChanges` | kernel/mem.c:245-291 | outside the free frames `vm_map` changes one word, the first entry missing on the way to the page, and after a failing allocation the first word of physical page 0 |
| `Changes.MapKeepsHeld` | kernel/mem.c:245-291 | frames that are neither free nor in the tree (the kernel image, modules) keep every word, except that a failing allocation clears the first word of physical page 0 |
| `Mapping.ProtectWalk` | kernel/mem.c:374-412 | `vm_protect` succeeds exactly on mapped pages and changes one page's rights, no frame and no other position |
| `Mapping.ProtectInv` | kernel/mem.c:374-412 | `vm_protect` keeps the invariant, the free list, all roles and the contents of all pages |
| `Changes.ProtectChanges` | kernel/mem.c:374-412 | `vm_protect` changes one word, the leaf entry of its page, in its three rights bits only |
| `Unmapping.UnmapWalk` | kernel/mem.c:309-363 | `vm_unmap`, testing the tables themselves, succeeds exactly on mapped pages and removes that page and exactly the tables on its path that held nothing else |
| `Unmapping.UnmapRemovesOnePage` | kernel/mem.c:309-363 | among pages, this `vm_unmap` removes the one it is given and changes no other |
| `Unmapping.UnmapInv` | kernel/mem.c:309-363 | this `vm_unmap` keeps the invariant; the exact free list afterwards, under either guard |
| `Changes.UnmapChanges` | kernel/mem.c:309-363 | outside the frames that go with the page, `vm_unmap` clears the present bits of the entries that led to them and changes no other word |
| `Changes.UnmapKeepsHeld` | kernel/mem.c:309-363 | the same of frames that are neither free nor in the tree |
| `Unmapping.UnmapUndoesMap` | kernel/mem.c:245-363 | this `vm_unmap` after a successful `vm_map` restores every page, and every table if and only if the table the mapping hung in was the root or not empty |
| `Unmapping.UnmapReturnsFrames` | kernel/mem.c:193-363 | with the documented `pmem_free` this pair restores the free list itself if and only if the table the mapping hung in was the root or not empty and the page's first word is not the mark; with `pmem_free` as written the frames stay lost |
| `Identity.UnmapWrittenExactly` | kernel/mem.c:293-363 | `vm_unmap` as written does the same, without a fault, if and only if each physical address it tests leads, at that moment, to a page whose words give the same answer as the table |
| `Identity.IdentityIsRight` | kernel/mem.c:293-363 | so it does when the tables on the path are identity-mapped, not through the page itself |
| `Identity.NeverTheTable` | kernel/mem.c:293-355 | in a user half that `vm_map` built, a table's physical address leads nowhere or to a page of data, never to the table |
| `Identity.UnmapFaults` | kernel/mem.c:309-355 | once `unmap_lower_half` has run, mapping a user page and unmapping it again faults at the first test |
| `Identity.RunWrittenExactly` | kernel/mem.c:245-412 | a run as written is step by step the run that refines the map if and only if every `vm_unmap` in it gets the right answers |
| `Identity.DonateThroughIdentity` | kernel/mem.c:30-37 | `add_memory` as written fills the list as it should while the bootloader's identity map covers the usable frames, and keeps that map |
| `LowerHalf.LowerHalfUnmapped` | kernel/mem.c:415-457 | afterwards nothing with a level 4 index below 256 is translated, the upper half is as before, and the list gains exactly the lower-half tables |
| `LowerHalf.LowerTablesExact` | kernel/mem.c:415-453 | the frames freed are exactly the level 3, 2 and 1 tables the walk finds in the lower half, each once, children before parents |
| `LowerHalf.PagesNotFreed` | kernel/mem.c:415-453 | a frame that some page leads to is freed with them if and only if it is itself one of those tables; no frame of data ever is |
| `Changes.LowerHalfChanges` | kernel/mem.c:415-457 | outside the tables it frees, `unmap_lower_half` clears the present bits of the lower half of the root and changes no other word |
| `Changes.LowerHalfKeepsHeld` | kernel/mem.c:415-457 | frames that are neither free nor in the tree keep every word |
| `Machine.Kernel.Memset` | stdlib/string.c:14-23 | the frame is zeroed and nothing else changes |
| `Machine.Kernel.PmemAlloc` | kernel/mem.c:178-187 | the in-place code does what the allocation of the abstract state does |
| `Machine.Kernel.PmemFree` | kernel/mem.c:193-204 | the in-place code does what the release of the abstract state does |
| `Machine.Kernel.MallocPage` | kernel/mem.c:214-234 | the in-place code refines the abstract `malloc_page` |
| `Machine.Kernel.VmMap` | kernel/mem.c:245-291 | the four-level descent on the array refines the abstract insertion, result and memory |
| `Machine.Kernel.VmProtect` | kernel/mem.c:374-412 | the descent and update in place refine the abstract change of rights |
| `Machine.Kernel.FreePageTable` | kernel/mem.c:293-301 | true exactly when no entry of the table meant is present |
| `Machine.Kernel.FreePageTableAsWritten` | kernel/mem.c:293-301 | reads the page its argument leads to through the page tables, large pages included, or faults |
| `Machine.Kernel.VmUnmap` | kernel/mem.c:309-363 | the removal and the three tests of the tables meant refine the abstract removal and pruning |
| `Machine.Kernel.VmUnmapAsWritten` | kernel/mem.c:309-363 | the code with the addresses it passes refines `UnmapWritten`, whatever the tests answer |
| `Machine.Kernel.UnmapLowerHalf` | kernel/mem.c:415-457 | the nested loops refine the freeing of the tables as they stood on entry; no table is read once it has been freed, and the frees are exactly the list of the lower-half tables |
| `Machine.Kernel.UnmapEntry` | kernel/mem.c:420-453 | one level 4 entry: the same, reading only the root and the tables below the entry |
| `Machine.Kernel.AddMemory` | kernel/mem.c:21-38 | the loop puts exactly the pages of the region on the list |
| `Machine.Kernel.FreelistInit` | kernel/mem.c:47-65 | the loop over the memory map puts exactly the usable pages on the list |
| `PageRuns.LeafRights` | kernel/mem.c:254-286 | the effective rights of a page, conjoined over four levels, are the user, writable and no-execute bits of its own entry, wherever `vm_map` built the tables above it |
| `PageRuns.StepRefines` | kernel/mem.c:245-412 | one `vm_map`, `vm_protect` or `vm_unmap` that tests the tables themselves, in the user half or anywhere, is the same operation on a partial map; results, data and distinct frames included; frames held elsewhere keep every word |
| `PageRuns.RunRefines` | kernel/mem.c:245-412 | whole runs of these, in any order and with any failures, refine the map; each page has its own frame, keeps frame and bytes until it is unmapped, its rights until it is operated on, and frames held elsewhere every word |
| `PageRuns.RunFromBlank` | kernel/mem.c:245-412 | from an empty root, over the whole address space, any such run leaves a tree in which the effective rights of every page are its leaf flags |
| `PageRuns.RunFromEmptyHalf` | kernel/mem.c:245-457 | after `unmap_lower_half` any such run on user pages refines a map, whatever the upper half holds; the tests as written fault there instead (`Identity.UnmapFaults`) |
| `UserMemory.StoreByteEffect` | stdlib/string.c:34-42 | a store through the page tables shows at its own address if the page can be written, nowhere else, and changes no translation and no word of another frame |
| `UserMemory.MapPagesEffect` | kernel/elf.c:37-42 | a range of `vm_map` calls that all succeed makes its pages appear zeroed with the rights given; no other page or byte, no held frame and no page of the upper half changes, whatever fails |
| `UserMemory.ProtectPagesEffect` | kernel/elf.c:44-48 | a range of `vm_protect` calls changes the rights of its mapped pages and no byte, frame, other page or word of a held frame |
| `UserMemory.CopyBytesEffect` | stdlib/string.c:34-42 | copying to user addresses sets exactly the writable bytes among those addressed, across page boundaries; held frames and pages of the upper half keep every word |
| `Loader.LoadSegmentEffect` | kernel/elf.c:30-49 | one segment: its pages were unmapped and now hold the file's bytes, zeros around them; user, writable and executable are bits 2, 1 and 0 of `p_flags`, whichever they are; held frames and upper-half pages keep every word |
| `Loader.ExecImage` | kernel/posix.c:125-135 | if every `vm_map` succeeds, the user half is exactly the union of the segment pages and eight stack pages, with the bytes of the file and the rights that bits 2, 1 and 0 of `p_flags` give; upper-half translations and pages and held frames are unchanged, whatever fails |
| `Loader.ImageInNumbers` | kernel/elf.c:25-62 | the pages of the image, the segments' and eight of stack, in numbers |
| `Images.ExecSucceeds` | kernel/elf.c:25-62 | every `vm_map` succeeds if and only if no page is asked for twice and there is a free frame for each page and each table on the way to one; that many frames are taken, and four a page are always enough |
| `Images.GabiExactly` | kernel/elf.c:43 | for every successful load and header with `p_filesz <= p_memsz`: the segment's pages hold the image the gABI asks for if and only if the file holds zeros from `p_filesz` to `p_memsz` |
| `Images.OneByteOfBss` | kernel/elf.c:43 | a program that loads with 36 free frames and whose zero-initialised byte is 1 |
| `Images.ExecLoading` | kernel/posix.c:125-135 | a loaded program starts with the user half holding its image and the free frames reduced by exactly those its pages and tables took |
| `Loader.UserStore` | stdlib/string.c:39 | a store done by walking the four tables in memory is the abstract store, and faults exactly when the page is not mapped for writing |
| `Loader.CopyToUser` | kernel/elf.c:43 | the byte loop into user memory is the abstract copy, and meets a fault exactly when some byte is not writable |
| `Loader.RunProgram` | kernel/elf.c:9-62 | the loops over headers and pages build the abstract image; no store faults when every `vm_map` succeeds |
| `Loader.SysExec` | kernel/posix.c:125-135 | emptying the lower half and loading build the abstract image, without a fault when every `vm_map` succeeds |
| `UserHeap.AddressSurvives` | stdlib/mman.c:19-21 | a user address survives the `int` a system call returns exactly when it is below 2^31 |
| `UserHeap.MallocAddress` | stdlib/string.c:372-397 | a block from a new region is the start of that region exactly while the cursor of `sys_mmap` is below 2^31 |
| `UserHeap.ProtBits` | kernel/posix.c:105-107 | the `prot` values of the C library are read as 2 for writing and 4 for execution, which agrees with the comment only for 0 and 1 |
| `UserHeap.MallocStep` | stdlib/string.c:372-397 | one `malloc` adds an aligned usable block apart from all others and from the remaining space |
| `UserHeap.MallocBlocks` | stdlib/string.c:372-397 | over any sequence of calls: blocks are 16-byte aligned, user-writable, not executable, not mapped before, and no physical byte serves two of them |
| `UserHeap.MallocSucceeds` | stdlib/string.c:372-397 | every `vm_map` of a heap run succeeds if and only if none of its pages is mapped already and there is a free frame for each of them and each table on the way |
| `UserHeap.AllocateMoves` | stdlib/string.c:366-397 | `malloc` never returns NULL: mapped or not, the block is the next bytes of the old region or the start of a new one |
| `UserHeap.FailedRegion` | stdlib/string.c:366-397 | so when a `vm_map` fails in a free region the block is returned although a page of its region is not mapped |
| `UserHeap.MallocRunNew` | stdlib/string.c:372-397 | the heap is apart from everything mapped before, whose pages keep frame, rights and bytes, and apart from held frames, which keep every word |
| `UserHeap.PhysicalInjective` | kernel/posix.c:93-116 | different user addresses lie at different physical bytes |
| `UserHeap.Process.SysMmap` | kernel/posix.c:93-116 | the page loop and the cursor do what the range mapping on states does |
| `UserHeap.Process.Malloc` | stdlib/string.c:372-397 | the bump allocator on the mutable globals does what the abstract allocation does |
| `Framebuffer.OffsetOf` | kernel/graphics.c:14-24 | a byte offset determines its row, column and channel, and on-screen pixels lie inside the buffer |
| `Framebuffer.PaintedBytes` | kernel/graphics.c:50-67 | painting in 0xRRGGBB stores BB, GG and RR in bytes 0, 1 and 2 of each pixel of the block, and no other pixel changes |
| `Framebuffer.RectangleBytes` | kernel/graphics.c:38-71 | the same of the rectangle asked for, on every pixel of the screen |
| `Framebuffer.DrawnIsClipped` | kernel/graphics.c:38-71 | what is drawn is the rectangle clipped to the screen if and only if position plus size does not wrap; otherwise nothing is drawn |
| `Framebuffer.FastPathAgrees` | kernel/posix.c:172-186 | the 1x1 path, with its index computed in 32 bits, stays in the buffer and agrees with the rectangle if and only if the pixel is on the screen |
| `Framebuffer.Screen.DrawPixel` | kernel/graphics.c:14-24 | the three bytes at the 32-bit index change and no others; on the screen they are the colour bytes of the pixel |
| `Framebuffer.Screen.KdrawRectangle` | kernel/graphics.c:38-71 | clipping and the stride loops set exactly the colour bytes of the drawn pixels, never row padding |
| `Framebuffer.Screen.SysDrawRectangle` | kernel/posix.c:172-186 | the short path writes three bytes, and wherever the pixel is on the screen both paths draw the same picture |
| `Cursor.StepBounded` | kernel/mouse.c:177-205 | a packet moves the cursor by at most 51 along each axis and never off the screen |
| `Cursor.StepMoves` | kernel/mouse.c:177-205 | right and up by a fifth of the byte, left and down by a fifth of 255 less the byte, rounded towards zero, or to the border |
| `Cursor.PacketMoves` | kernel/mouse.c:249-291 | the same of the decoder, in terms of the three bytes: bit 3 of the first starts a packet, bits 4 and 5 are the signs |
| `Cursor.StreamFollowsGrammar` | kernel/mouse.c:249-291 | for every byte stream the cursor goes where the packets of the grammar "skip bytes with bit 3 clear, then take three" send it, with the counter below 3 |
| `Cursor.PaintOverSaved` | kernel/mouse.c:120-149 | painting over a saved block leaves the canvas what it was |
| `Cursor.DrawAroundCursor` | kernel/graphics.c:38-71 | drawing on the screen draws on the canvas except under the cursor; exactly, for a rectangle that misses it |
| `Cursor.Pointer.constructor` | kernel/mouse.c:217-243 | the initial cursor leaves the picture what it was and shows a white block in front of it |
| `Cursor.Pointer.SaveBackground` | kernel/mouse.c:120-149 | the saved pixels are the colours of the block under the cursor |
| `Cursor.Pointer.UpdateCursor` | kernel/mouse.c:155-212 | the cursor moves the picture stays what it was, and the screen is the picture with a white block at the new place |
| `Cursor.Pointer.StoreMouseData` | kernel/mouse.c:249-291 | one byte advances the decoder; the picture stays what it was and the white block in front of it |
| `Cursor.Pointer.StoreStream` | kernel/mouse.c:249-291 | every byte stream leaves the picture what it was and the white block in front of it |
| `Cursor.Pointer.UpdateSavedPixels` | kernel/mouse.c:107-111 | paints exactly the 5x5 block at the cursor, in the picture only |
| `Cursor.Pointer.ClearScreen` | kernel/graphics.c:76-97 | the picture is all black, under the cursor too, with the white block in front of it |
| `Terminal.CopyForwardIsCopy` | stdlib/string.c:34-42 | an ascending copy is right on overlapping ranges if and only if the destination does not lie inside the source ahead of it |
| `Terminal.Memcpy` | stdlib/string.c:34-42 | the loop in place is the ascending copy |
| `Terminal.Screen.TermClear` | kernel/term.c:60-73 | the screen shows the empty log |
| `Terminal.Screen.TermPutchar` | kernel/term.c:76-129 | the screen shows the last 25 rows of the log after every character, with row at most 24 and column at most 80 |
| `Terminal.Screen.ScrollIfNeeded` | kernel/term.c:105-125 | scrolling shows the log with one more row |
| `Terminal.Screen.TermWrite` | kernel/term.c:141-145 | so does every string |
| `Terminal.PlainTextKept` | kernel/term.c:76-129 | plain text can be read back whole from the log, wrapped at column 80 |
| `Terminal.ScreenIsTail` | kernel/term.c:105-125 | row r of the screen is row r of the log, or of its last 25; the rest is white blanks on black |
| `Terminal.LinesWritten` | kernel/term.c:76-129 | text with newlines on a cleared terminal: every line starts a row of its own and is wrapped every 80 columns; where the cursor is |
| `Terminal.TwoLines` | kernel/term.c:92-126 | two lines of at most 80 characters fill rows 0 and 1, cell by cell |
| `Terminal.LineWritten` | kernel/term.c:98-126 | one line from the start of a blank row of any log |
| `Terminal.BackspaceErases` | kernel/term.c:83-90 | k backspaces after a line leave what the line without its last k characters leaves; at the start of the row they do nothing |
| `Terminal.TypedAndErased` | kernel/term.c:83-126 | a character and a backspace, anywhere, leave the text before the cursor, and a blank at it |
| `Terminal.CarriageReturnOverwrites` | kernel/term.c:78-82 | a carriage return changes no cell; the next characters replace the first ones of the row |
| `Keyboard.StepBounds` | kernel/char.c:113-145 | start and count stay in range in every interleaving of key presses with the statements of `kgetc` |
| `Keyboard.StepRefines` | kernel/char.c:113-145 | every step, in every interleaving, is a step of a bounded queue, except that a press between the update of start and that of count adds what the skipped slot held |
| `Keyboard.FirstInFirstOut` | kernel/char.c:113-145 | a run, however interleaved, delivers in order what was pressed while there was room if and only if every press between the update of start and that of count finds its own character in the slot it skips |
| `Keyboard.RunsAsQueue` | kernel/char.c:113-145 | without any condition: what was in the queue followed by what it received is what was returned followed by what is left |
| `Keyboard.LostKey` | kernel/char.c:142-144 | a run from the empty buffer in which the key b is pressed and NUL is what the next read will get |
| `Keyboard.ReadLength` | kernel/posix.c:45-75 | a non-blocking read returns exactly the size asked for, and 1 when asked for 0 |
| `Keyboard.ReadIsEditing` | kernel/posix.c:45-75 | the read takes the shortest prefix of the queue whose append-and-backspace editing fills the output, or all of it and then zeros |
| `Keyboard.ReadDelivers` | kernel/posix.c:59-74 | the whole non-blocking read: the first key is stored whatever it is, the shortest prefix of the others whose editing fills the output follows, then zeros |
| `Keyboard.ReadPlain` | kernel/posix.c:59-74 | keys without a backspace arrive in order, padded with zeros |
| `Keyboard.FillDelivers` | kernel/posix.c:59-74 | the blocking read delivers the shortest such prefix, and waits if and only if none fills the output |
| `Keyboard.TypedCancels` | kernel/posix.c:67-73 | a key and the backspace after it cancel, wherever they stand |
| `Keyboard.TypedTakesBack` | kernel/posix.c:67-69 | a backspace takes back the last character of the output; on none it has no effect |
| `Keyboard.TypedPlain` | kernel/posix.c:70-72 | other keys are appended |
| `Keyboard.BlockingReadsTheSame` | kernel/posix.c:45-75 | when enough keys are pressed a blocking read delivers the same |
| `Keyboard.LineFits` | kernel/char.c:158-174 | line and terminator fit the capacity if and only if it is at least 2; capacity 0 counts as no limit |
| `Keyboard.LineDelivers` | kernel/char.c:158-174 | `kgets` returns the edited keys up to the first that is a newline or fills the capacity, leaves the keys after it, and waits if and only if there is none |
| `Keyboard.Buffer.BufferPut` | kernel/char.c:113-119 | appends, or drops the character when the buffer is full |
| `Keyboard.Buffer.BufferDelete` | kernel/char.c:103-107 | removes the newest character |
| `Keyboard.Buffer.Kgetc` | kernel/char.c:129-145 | removes and returns the oldest character; 0 from an empty buffer |
| `Keyboard.Console.SysRead` | kernel/posix.c:45-75 | both modes deliver the reads above, terminate, report what they store, and change nothing behind it |
| `Keyboard.Console.Kgets` | kernel/char.c:158-174 | the edited line with a terminator, for every capacity; never beyond the capacity when it is at least 2 |
| `Numbers.DecimalIsNumeral` | kernel/kprint.c:21-40 | the digits printed denote the value, without leading zeros |
| `Numbers.DecimalPlace` | kernel/kprint.c:21-40 | the character at each place from the right is that of the value, so many times divided by ten, modulo ten |
| `Numbers.AtoiReadsBack` | stdlib/string.c:117-127 | `atoi` of the printed digits is the value up to 2147483599 and overflows an int beyond |
| `Numbers.AtoiExactly` | stdlib/string.c:117-127 | on any text `atoi` returns the number its leading digits stand for if and only if that is at most 2147483599 |
| `Numbers.HexTextMeans` | stdlib/string.c:169-198 | the text of `itoa_x` denotes the value in base 16 and has max(num_digits, hex length) digits |
| `Numbers.HexPlace` | stdlib/string.c:169-198 | the character at each place from the right is one of 0 to 9 and A to F, that of the value so many times divided by 16 |
| `Numbers.HexRoundTrip` | stdlib/string.c:138-198 | for every value: `atoi_x` of it is the value less 10 times the sum of 16^k over letter positions, or overflows if that leaves an int; so exact if and only if the value fits an int and no letter occurs |
| `Numbers.AtoiXExactly` | stdlib/string.c:138-161 | on any text `atoi_x` returns the value of the leading digits less 10 times the sum of 16^k over letter positions if and only if that fits an int |
| `Numbers.DigitsOfChars` | stdlib/string.c:141-157 | which characters are digits and what each counts for |
| `Numbers.HexadecimalIsNumeral` | kernel/kprint.c:43-63 | `kprint_x` prints the shortest hexadecimal numeral of the value; `atoi_x` reads it back if and only if it fits an int and has no letter |
| `Numbers.HexadecimalPlace` | kernel/kprint.c:43-63 | the character at each place from the right, in small letters |
| `Numbers.ParseInt` | stdlib/string.c:117-127 | the loop of `atoi` |
| `Numbers.ParseHex` | stdlib/string.c:138-161 | the loop of `atoi_x` |
| `Numbers.ItoaX` | stdlib/string.c:169-198 | writes that text and a terminator and nothing else |
| `Numbers.KprintD` | kernel/kprint.c:34-40 | the terminal's log gains exactly the numeral |
| `Numbers.KprintX` | kernel/kprint.c:57-63 | the terminal's log gains exactly the hexadecimal numeral |
| `Numbers.SplitDigits` | kernel/kprint.c:167-182 | twenty places are enough for every 64-bit value and hold the same digits `kprint_d` prints |
| `Numbers.GkprintD` | kernel/kprint.c:167-192 | those digits are drawn, eight columns apart, and nothing else |
| `Numbers.GkprintC` | kernel/kprint.c:136-157 | exactly the 8x8 block of the character is drawn |
| `Numbers.TextPixels` | kernel/kprint.c:136-157 | text, pixel by pixel: character i covers eight columns from x + 8 i, bit w of row h of its glyph decides the colour or black, and no other pixel changes |
| `Numbers.GWrite` | kernel/posix.c:228-237 | a string is drawn as its characters side by side |

## Left out

- Hardware: port I/O, interrupt and descriptor tables, CR0, CR3, TLB invalidation, accessed and dirty bits set by the processor, the jump to user mode.
- Preemption inside paging and drawing code, which is atomic here; interleaving is modelled for the keyboard queue only.
- `translate`'s printing and its mask 0x7ff on the page offset (kernel/mem.c:130); its walk is the specification, with the full offset.
- `check_permission`, `get_usable_memory`, `kprintf`, `printf` and exception handlers: printing only.
- Machine.Kernel.PmemFree: unaligned addresses, frames still in the tree and physical page 0 are excluded by precondition, because no caller frees them.
- Unmapping.UnmapWalk: requires of the page that its frame is recorded for it, because `vm_unmap` of a page of the direct map would free a frame that others hold.
- Unmapping.UnmapRemovesOnePage: the same requirement, for the same reason.
- Unmapping.UnmapInv: the same requirement, for the same reason.
- Machine.Kernel.VmUnmap: the same requirement, for the same reason.
- Machine.Kernel.VmUnmapAsWritten: the same requirement; stale TLB entries, which could let a test of an unmapped page pass, are not modelled.
- Machine.Kernel.AddMemory: requires that the frames it takes exist, are distinct and in nobody's use, and that physical page 0 is not among them, because the code looks at none of this.
- Machine.Kernel.FreelistInit: the same requirement on all usable regions.
- FrameRuns.FreelistInitFills: requires that physical page 0 is not usable, because its address is NULL.
- FrameRuns.BootedRun: the same requirement.
- Machine.Kernel.Memset: fills one whole frame with zeros, word by word; other fillings are not modelled.
- Terminal.Memcpy: moves elements of one array, whole cells for the terminal, not bytes between pointers.
- A fault of `run_program` ends the real run; the model goes on without the store. ExecImage speaks of runs in which every `vm_map` succeeds, and in those there is none.
- The program file is a sequence of bytes that loading cannot change; finding the module by name and reading the ELF header are not modelled.
- Loader.RunProgram: requires loadable segments inside the user half, of at most 2^19 pages, whose bytes are readable at the given offset, because the code checks none of this.
- Loader.SysExec: the same requirement.
- Images.GabiExactly: says nothing of headers with `p_filesz` beyond `p_memsz`, which the gABI rules out.
- UserHeap.Process.SysMmap: requires the mapped range to lie in the user half and to have at most 2^19 pages, because `j * PAGE_SIZE` is computed in an `int`.
- UserHeap.Process.Malloc: the same requirement of the region it asks for.
- Framebuffer.Screen.DrawPixel: requires the 32-bit index to lie in the buffer, because the code checks no bounds.
- Framebuffer.Screen.SysDrawRectangle: the same requirement for single pixels.
- Numbers.GkprintC: requires the character to be on the screen and below 128, because neither is checked and `draw_pixel` would write elsewhere.
- Numbers.GkprintD: requires the number to be on the screen.
- Numbers.GWrite: requires the text to be on the screen and its characters to be below 128.
- Keyboard.Console.SysRead: a non-blocking read sees no key press while it runs, and a blocking read is given the keys it will wait for.
- Keyboard.Console.Kgets: requires an array that takes what the code stores, which for capacities 0 and 1 is more than the capacity (LineFits).
- Fonts and scan-code tables: the font is an arbitrary 128x8 array of bytes.
- Device polling of the mouse, the system call wrappers and the user programs.
- `strtok`, `strsep`, `strncmp` and the remaining string functions: easy, or not doing what they promise.
