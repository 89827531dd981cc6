# haiirOS: memory subsystem, device rings, disk transfers and bus scan

A Dafny model of the parts of the haiirOS kernel that carry whole-run guarantees, with proofs.

* **Frame allocator** (`src/memory/phys.c`). `FrameAllocator` works on the byte array with the same shifted masks,
  nested scan and retry; `Frames` is its abstract view (reserved set, next-fit cursor); `Bitmap` proves the masks.
  `FrameRuns` covers runs of allocations and releases.
* **Page tables** (`src/memory/paging.c`). In `AddressSpaces` every table word is read and written through a virtual
  pointer that the processor translates with the very tables being edited (`PageTables.Resolve`, section 4.5 of the
  Intel SDM, volume 3A); tables above 8 MiB are only reachable through the window page, whose own entry is one of the
  words in memory. `Load` and `Store` require that the pointer translates, so verification also shows that the walk
  never faults. `PageTables.MapPath`, `Mapping.Map` and `Mapping.Unmap` are the direct walk the code is proved equal
  to, up to the contents of the window's entry (`Windowed.Mask`); `Windowed.MapSeen` and `Windowed.UnmapSeen` say what
  that means for the memory as it is. `EntryWords` ties entries and pages to the bits of words and addresses,
  `Permissions` says which flags links have and what the processor permits.
* **Both together**: `PageRanges` (runs of pages), `PageAllocation` (allocate and free), `AnonymousMmap`, `UserSpaces`
  (new address spaces), `SystemRuns` (any interleaving of all of them), `ProcessRuns` (the same with processes writing
  through their own pages), `Boot` (initialisation over a temporary bitmap), `DirtyTables` and `FinishedMaps` (what table
  creation takes for granted, step by step and for the finished map), `SmallMachine` (concrete machines).
* **xHCI rings** (`src/driver/xhci/xhci.c`), sections 4.9.3, 4.9.4 and 6.4.4.1 of the xHCI specification: `XhciRings`.
* **AHCI transfers** (`src/driver/ahci/ahci.c`), section 4.2.3.3 of AHCI 1.3.1: `AhciTransfers`.
* **PCI bus scan** (`src/pci/pci.c`): `PciEnumeration`.

`PageTables.Inv` is the invariant of the memory subsystem: inner links form a tree in which every table but the roots
has exactly one link and only slot 0 of the roots is shared, every table is reserved in the bitmap, the window's path is
present and low, and every low frame that is or may become a table is identity mapped.

Table creation clears nothing and checks nothing, so mapping a page needs `PageTables.CanMap`: a free frame for each
table the page is missing, each an empty table at the moment it is taken. A page whose tables exist needs neither
(`Mapping.ReadyWhenComplete`), and what other free frames hold does not matter. `SystemRuns.Next` has the same
condition, so its runs include memory that is written, given back and reused while pages keep being mapped.

`Mapping.HwAgrees` says that the processor reaches through every page of every space exactly the frame the software walk
finds. Every step keeps it (`SystemRuns.RunAgrees`), so the results about translations hold for the processor, too.

The allocator's cursor is in range in every reachable state (`Frames.Ready`, established by `Boot.InitPmm` and kept by
`Frames.AllocNextFit`); `Frames.AllocStaleCursor` shows what that clause is for.

## Where the code falls short of its intent

* A request of 8 to 15 frames at an unaligned start leaves up to seven of its frames untouched
  (`Frames.TouchedWhenGapFree`); allocation is exact if and only if that case is avoided (`Frames.AllocReservesExactly`,
  `FrameRuns.TakeExact`), for a caller if and only if the count is outside 8..15 (`FrameRuns.SafeCountsAreExact`), and
  otherwise frames are handed out twice (`FrameRuns.DoubleAllocationAt8`).
* The same gap leaves frames of the kernel, of the bitmap itself or of the framebuffer free after initialisation
  (`Boot.FramesLost`), each of these ranges exactly if its gap is usable and not kept otherwise
  (`Boot.KeptRangeReserved`). A run of the system can start with the bitmap set aside exactly if its gap is covered and
  no table lies in it (`Boot.BootStartsRuns`), and then never hands out or writes the bitmap
  (`SystemRuns.RunSparesBitmap`).
* A table is created without checking the allocation (`DirtyTables.MapNeedsFrames`) and without clearing the frame:
  exactly when that is harmless is `DirtyTables.NewTableExact` and `DirtyTables.NewTableSound` for one table of any
  level, `DirtyTables.WalkExact` for the steps of the walk, `FinishedMaps.MapExact` for the finished map, which itself
  overwrites one word of each new table, and `PageRanges.RunExact` for a run of pages. `SmallMachine.DirtyTableMisread` is
  a machine on which a live table is misread, `SmallMachine.FullMachineFails` one without a free frame.
* mmap does not check its allocation either. When no run is free it maps frames 0, 1, .. into the caller, page tables
  included: the mapped pages lead to frames of the caller's own block if and only if there is a free run
  (`ProcessRuns.MmapSafeExact`). Otherwise one write of the caller can break the page tables
  (`ProcessRuns.FailedMmapExposes`, `ProcessRuns.FailedMmapBreaks`, and `SmallMachine.FragmentedMmap` on a concrete
  machine). Where user maps come from successful calls no process ever reaches a table
  (`ProcessRuns.ProcessRunKeeps`, `ProcessRuns.PagesLeadToHeld`).
* create_user_pml4 does not check its allocation: without a free frame frame 0 becomes a root
  (`UserSpaces.CreateNeedsFrame`).
* pmm_free of a page that leads nowhere gives back frames 0, 1, .. (`PageAllocation.FreeAbsentPage`); giving frames back
  keeps the invariant exactly if none of them is frame 0, the window's, a table, or a low frame without its identity
  mapping (`PageAllocation.ReleaseExact`).
* mmap maps one page too few when the start offset and the length do not fit together, and nothing beyond 4 GiB, where
  its 32-bit offset wraps (`AnonymousMmap.MmapCovers`, `AnonymousMmap.MmapLosesByte`).
* A link keeps the flags of the mapping that created it. A page mapped writeable can be written only if every link that
  was already on its way is writeable (`Permissions.MapPermits`, `AnonymousMmap.MmapPermits`), so after a read-only
  mapping no page of the same 2 MiB can be (`Permissions.FirstFlagsStay`, `SmallMachine.ReadOnlyFirst`).
* mmap clears bit 12 of the address it returns instead of the offset bits, so for an odd page number it returns the page
  before the mapping (`AnonymousMmap.MmapReturns`).
* The bitmap is put on top of the kernel if the kernel's size is within 4 KiB of 4 GiB (`Boot.BitmapPlace`,
  `Boot.KernelSpared`).
* The 32nd command overwrites the Link TRB (`XhciRings.LinkIntact`, `XhciRings.FirstLapExecutes`).
* The FIS count keeps 16 bits, so a write is complete if and only if it has at most 65536 sectors
  (`AhciTransfers.WritesWhole`); the remainder keeps 32 bits (`AhciTransfers.ChunksCover`); a request that starts
  beyond the device is cut to a huge one (`AhciTransfers.ClampExact`).

## Model

| member | source | states |
|---|---|---|
| Bitmap.HeadMask | src/memory/phys.c:33 | `0xff >> offset` denotes the frames from `offset` to the end of the block |
| Bitmap.TailMask | src/memory/phys.c:38 | `0xff << (8-offset)` cut to a byte denotes the first `offset` frames of the block |
| Bitmap.RestHere | src/memory/phys.c:44-47 | the shifted rest mask denotes the next `rest` frames from `offset` on, as far as they fit |
| Bitmap.RestNext | src/memory/phys.c:48 | the rest mask shifted left denotes exactly the frames that spill into the next block |
| Bitmap.OrSpan | src/memory/phys.c:33-48 | or-ing a span mask sets that span of a block and nothing else |
| Bitmap.ClearSpan | src/memory/phys.c:64-79 | and-ing with the complement clears that span and nothing else |
| Bitmap.PaintRequest | src/memory/phys.c:32-49 | whole blocks and rest together touch the request minus the one-block gap |
| Bitmap.TiesRepainted | src/memory/phys.c:21-81 | on the set of reserved frames the masks are set union and set difference |
| Bitmap.BeyondUnchanged | src/memory/phys.c:38-48 | a byte whose frames lie beyond the request keeps its value, so the slack byte never changes |
| Frames.TouchedWhenGapFree | src/memory/phys.c:37-40 | a request touches all its frames iff it is not one block plus a rest at an unaligned start; otherwise a named frame is missed |
| FrameAllocator.RequestShape | src/memory/phys.c:24-30 | no 32-bit block number of a request inside the backing array wraps |
| FrameAllocator.Allocator.ReserveFrames | src/memory/phys.c:21-50 | sets exactly the touched frames' bits; the reserved set becomes its union with them |
| FrameAllocator.Allocator.FreeFrames | src/memory/phys.c:52-81 | clears exactly the touched frames' bits; the reserved set loses exactly them |
| FrameAllocator.Allocator.ReserveBlocks | src/memory/phys.c:32-40 | the whole-block part paints one contiguous span, with the shifted tail only from two blocks on |
| FrameAllocator.Allocator.FreeBlocks | src/memory/phys.c:63-71 | the same span is cleared |
| FrameAllocator.Allocator.ReserveRest | src/memory/phys.c:42-49 | the last frames are set across two bytes |
| FrameAllocator.Allocator.FreeRest | src/memory/phys.c:73-80 | the last frames are cleared across two bytes |
| FrameAllocator.Allocator.ScanBlock | src/memory/phys.c:173-192 | the bit loop finds the first long enough run ending in the block, or leaves the exact length of the free suffix |
| FrameAllocator.Allocator.ScanStep | src/memory/phys.c:172-195 | one block of the scan, with the run reserved and the cursor moved when it is found |
| FrameAllocator.Allocator.Take | src/memory/phys.c:179-184 | the cursor names the run's last frame, the address its first, and the run is reserved |
| FrameAllocator.Allocator.AllocScan | src/memory/phys.c:167-198 | one scan is the abstract next-fit search, including the cursor a failed scan leaves |
| FrameAllocator.Allocator.AllocFrames | src/memory/phys.c:223-233 | the scan with its retry is the abstract allocation |
| FrameAllocator.Allocator.IsFree | src/memory/phys.c:216-220 | true exactly for frames outside the reserved set |
| Frames.FirstFit | src/memory/phys.c:172-197 | the result is the lowest free run at or after the start, and none only if there is none |
| Frames.AllocNextFit | src/memory/phys.c:167-233 | with frame 0 reserved and the cursor in range: null iff no free run exists anywhere; otherwise the next one in cursor order |
| Frames.AllocStaleCursor | src/memory/phys.c:227-229 | with the cursor out of range null only says that no run starts at or after the stale bit |
| Frames.AllocOne | src/memory/phys.c:88-89 | a single frame is had iff one is free, and exactly it becomes reserved |
| Frames.AllocReservesExactly | src/memory/phys.c:182-184 | the reserved set grows by exactly the run iff the run avoids the one-block gap |
| Frames.ReleaseUndoesAlloc | src/memory/phys.c:52-81 | releasing a run just taken restores the reserved set for every count |
| FrameRuns.TakeExact | src/memory/phys.c:167-198 | an allocation keeps live runs disjoint and accounted for iff it fails or avoids the gap |
| FrameRuns.GiveKeeps | src/memory/phys.c:247-249 | releasing a live run keeps the others disjoint and accounted for |
| FrameRuns.TakeGets | src/memory/phys.c:167-233 | a request some free run could meet yields one more run, of free frames and of that length; any other yields and reserves nothing |
| FrameRuns.GiveReturns | src/memory/phys.c:247-249 | a release frees the frames of that run and no others |
| FrameRuns.RunsNeverShareFrames | src/memory/phys.c:167-254 | over every run of allocations with counts outside 8..15 and releases no frame is held twice, and the reserved set is the initial one plus the live runs |
| FrameRuns.SafeCountsAreExact | src/memory/phys.c:37-40 | a count is safe in every allocator state iff it is outside 8..15 |
| FrameRuns.DoubleAllocationAt8 | src/memory/phys.c:37-40 | eight frames and then one: the second request gets a frame of the first |
| PageTables.LeafInjective | src/memory/paging.c:125-139 | two pages share a leaf slot only if they are the same page, in the same space or in the shared part |
| PageTables.SharedLowHalf | src/memory/paging.c:254-255 | all spaces walk identically below 2^39, in software and in hardware |
| PageTables.HwIsLeaf | src/memory/paging.c:125-139 | where the processor's walk succeeds it ends at the slot the software walk finds |
| PageTables.LeafWrite | src/memory/paging.c:209-229 | writing a leaf word moves no path and changes exactly the entries read through it |
| PageTables.LinkKeepsTree | src/memory/paging.c:88-92 | linking a fresh frame keeps the tree, for an inner table if its words link to nothing |
| PageTables.EnsureNew | src/memory/paging.c:110-113 | creating a missing table in an empty frame keeps the invariant and takes exactly one free frame |
| PageTables.EnsureOld | src/memory/paging.c:118-122 | following a link, with new flags if it was not present, keeps the invariant and takes no frame |
| PageTables.EnsureView | src/memory/paging.c:106-123 | neither changes a leaf entry of any address space |
| PageTables.EnsureHw | src/memory/paging.c:106-123 | neither changes a path the processor could walk |
| Permissions.EnsureFlags | src/memory/paging.c:88-122 | a new link gets exactly the flags given, one that is not present gets them besides its own, a present one stays; no other word changes |
| Permissions.MapPathLinks | src/memory/paging.c:125-139 | nothing but such links is written on the whole walk |
| Permissions.MapLinks | src/memory/paging.c:209-219 | nor by map, the entry itself aside |
| Permissions.MapPermits | src/memory/paging.c:88-122 | a page mapped present gets the write or user right iff it was asked for and every present link already on its way has it |
| Permissions.MapLinksPermit | src/memory/paging.c:88-122 | map with a right changes for no page of any space whether its links permit it |
| Permissions.FirstFlagsStay | src/memory/paging.c:118-120 | a mapping without a right that creates a table denies it to the other pages of that leaf table, whatever they are mapped with later |
| EntryWords.WordBits | src/memory/paging.h:8-18 | in the word `frame or flags` present, writeable, user and page size are the bits of value 1, 2, 4 and 0x80, and the bits from 12 on are the frame |
| EntryWords.WordInjective | src/memory/paging.c:209-213 | the word determines frame and flags |
| EntryWords.ProcessorWalk | src/memory/paging.c:38-52 | the processor translates an address to a frame iff the four words that bits 47..39, 38..30, 29..21 and 20..12 select are present, the upper three no large pages, and the last names the frame |
| PageTables.MapPathKeeps | src/memory/paging.c:125-139 | the whole creating walk keeps the invariant |
| PageTables.CleanWhenComplete | src/memory/paging.c:118-122 | a walk that creates nothing depends on no free frame |
| PageTables.CleanWhenZeroFree | src/memory/paging.c:88-92 | while all free frames are zero-filled every walk meets clean ones |
| PageTables.MapPathGrows | src/memory/paging.c:125-139 | it reserves exactly the frames of the tables it creates |
| PageTables.MapPathView | src/memory/paging.c:125-139 | it changes no leaf entry of any space |
| PageTables.MapPathHw | src/memory/paging.c:125-139 | it changes no path the processor could walk |
| PageTables.MapPathReaches | src/memory/paging.c:125-139 | it ends at a leaf slot, and with present flags the processor can follow it |
| PageTables.MapPathCost | src/memory/paging.c:88-139 | it takes exactly as many frames as tables were missing |
| Windowed.ResolveLow | src/memory/paging.c:97-104 | a low table is reached by its physical address in every address space |
| Windowed.ResolveWindow | src/memory/paging.c:77-85 | the window leads to the frame its entry names, in every address space |
| Windowed.Remap | src/memory/paging.c:77-85 | remapping the window keeps the invariant and everything but its own entry |
| Windowed.MaskEnsure | src/memory/paging.c:106-123 | one step of the walk does not depend on where the window points |
| Windowed.MaskEntry | src/memory/paging.c:77-85 | every page but the window has the same entry and leads the processor to the same frame wherever the window points |
| Windowed.MapSeen | src/memory/paging.c:209-219 | in memory as it is after map the page has its entry in every space that shares it, and every other page but the window the one it had |
| Windowed.UnmapSeen | src/memory/paging.c:221-228 | the same for unmap |
| AddressSpaces.Kernel.GetTempEntry | src/memory/paging.c:58-75 | the pointer returned denotes the window's own entry |
| AddressSpaces.Kernel.TmpMap | src/memory/paging.c:77-85 | the window names the frame, the pointer its byte; nothing else changes |
| AddressSpaces.Kernel.ValidPointer | src/memory/paging.c:97-104 | low pointers stay; others are opened in the window |
| AddressSpaces.Kernel.CreateTable | src/memory/paging.c:88-92 | is one creating step of the direct walk, with the new table open in the window |
| AddressSpaces.Kernel.ReadLink | src/memory/paging.c:107-110 | a link counts as absent exactly if it is null: the allocator's word never discards a live table |
| AddressSpaces.Kernel.GetTable | src/memory/paging.c:106-123 | is one step of the direct walk, creating or not |
| AddressSpaces.Kernel.GetEntry | src/memory/paging.c:145-152 | the pointer denotes, under the window left at return, the leaf word of the direct creating walk |
| AddressSpaces.Kernel.LookupEntry | src/memory/paging.c:155-157 | null iff the direct walk finds no leaf; otherwise the pointer denotes it; nothing but the window changes |
| AddressSpaces.Kernel.MapFrame | src/memory/paging.c:209-219 | the new state is that of the direct map |
| AddressSpaces.Kernel.UnmapPage | src/memory/paging.c:221-228 | the new state is that of the direct unmap |
| AddressSpaces.Kernel.ToPhys | src/memory/paging.c:177-207 | frame and offset of a present page, null otherwise; nothing but the window changes |
| Mapping.HighPagesMappable | src/memory/paging.c:100 | every page from 8 MiB up may be mapped |
| Mapping.MapKeeps | src/memory/paging.c:209-219 | map keeps the invariant, takes no frame but for new tables, and writes nothing but tables |
| Mapping.ReadyWhenComplete | src/memory/paging.c:209-219 | a page whose tables exist can be mapped whatever the free frames hold |
| Mapping.MapView | src/memory/paging.c:209-219 | the page gets its entry in every space that shares it; every other page of every space keeps its own |
| Mapping.MapHw | src/memory/paging.c:209-219 | with present flags the processor reaches the frame; what it reached elsewhere it still reaches |
| Mapping.MapCost | src/memory/paging.c:88-139 | map takes exactly the frames the page was missing and leaves no page missing more |
| Mapping.NeighbourNeedsNothing | src/memory/paging.c:88-139 | once a page is mapped the others of its leaf table need no further frames |
| Mapping.UnmapKeeps | src/memory/paging.c:221-228 | unmap keeps the invariant |
| Mapping.UnmapView | src/memory/paging.c:221-228 | the page leads nowhere afterwards; every other page keeps its entry |
| Mapping.UnmapUndoesMap | src/memory/paging.c:209-228 | unmapping a page that had no entry before undoes the mapping for every translation |
| Mapping.AllPresentAgrees | src/memory/paging.c:125-139 | while every link is present the processor reaches exactly the frames the software walk finds |
| Mapping.MapAgrees | src/memory/paging.c:209-219 | map keeps that so, for every page of every space and whatever its flags |
| Mapping.UnmapAgrees | src/memory/paging.c:221-228 | so does unmap |
| DirtyTables.MapNeedsFrames | src/memory/paging.c:88-92 | on clean frames the walk keeps the invariant iff as many are free as tables are missing; otherwise frame 0 becomes a table |
| DirtyTables.NewTableExact | src/memory/paging.c:88-92 | creating a table of any level keeps the invariant iff a frame is free and, for an inner table, none of its words has a frame or the present or page-size bit |
| DirtyTables.DirtyLeaf | src/memory/paging.c:88-92 | an entry left in a new leaf table becomes visible in some address space |
| DirtyTables.NewTableSound | src/memory/paging.c:88-92 | it keeps the invariant and every translation of every space iff a frame is free and an empty table already |
| DirtyTables.WalkExact | src/memory/paging.c:125-139 | every step of the walk keeps both iff each missing table finds such a frame when its turn comes |
| FinishedMaps.MapExact | src/memory/paging.c:209-219 | the finished map keeps the invariant, gives the page its entry and changes no other page iff each missing table finds a frame whose words are those of an empty table, except that the one overwritten next may hold anything taken for absent |
| FinishedMaps.EndsWellMaps | src/memory/paging.c:209-219 | such frames suffice whatever entry is stored |
| FinishedMaps.CleanEndsWell | src/memory/paging.c:209-219 | frames that are empty tables altogether are among them |
| FinishedMaps.MapFromIsMap | src/memory/paging.c:209-213 | on clean frames the entry is stored at the leaf the finished tables lead to |
| PageRanges.MapAllSound | src/memory/phys.c:241-243 | mapping a run of pages that finds its frames keeps the invariant, takes frames for tables only, and changes exactly the run's pages |
| PageRanges.RunGraph | src/memory/phys.c:241-243 | consecutive pages lead to consecutive frames, and no other page changes |
| PageRanges.MapAllAgrees | src/memory/phys.c:241-243 | a run keeps processor and software walk in step |
| PageRanges.RunExact | src/memory/phys.c:241-243 | a run is mapped soundly, step by step, iff each of its pages in turn finds clean frames for the tables it is still missing |
| PageRanges.RunNeedsFrames | src/memory/phys.c:241-243 | while free frames are zero-filled a run keeps the invariant iff its pages in turn find enough of them; otherwise frame 0 becomes a table |
| PageRanges.RoomWhenNeeds | src/memory/phys.c:241-243 | frames for the tables each page is missing on its own are enough |
| PageRanges.UnmapAllSound | src/memory/phys.c:251-253 | unmapping a run keeps the invariant and changes exactly the run's pages |
| PageRanges.MappedThenUnmapped | src/memory/phys.c:235-254 | mapping and unmapping a run changes the run only |
| PageAllocation.MapRun | src/memory/phys.c:241-243 | the loop is the page-by-page reference run |
| PageAllocation.PmmAlloc | src/memory/phys.c:239-245 | the new state is the one with the run taken and its pages mapped in turn; the run's address is returned |
| PageAllocation.AllocateEffect | src/memory/phys.c:239-245 | that state keeps the invariant, maps each page of the run to its frame, and changes nothing else |
| PageAllocation.AllocatedPage | src/memory/phys.c:239-245 | page `i` of the run leads to frame `i` of it with exactly the flags asked for, and that frame was free and above 8 MiB |
| PageAllocation.UnmapRun | src/memory/phys.c:251-253 | the loop is the page-by-page reference unmapping |
| PageAllocation.PmmFree | src/memory/phys.c:247-254 | the frames behind the first page are released, then the pages unmapped |
| PageAllocation.ReleaseExact | src/memory/phys.c:247-249 | giving frames back keeps the invariant iff none of the reserved ones among them is frame 0, the window's, a table, or below 8 MiB without its identity mapping |
| PageAllocation.FreeAbsentPage | src/memory/phys.c:247-249 | for a first page without a present entry frame 0 and up are given back, which breaks the invariant |
| PageAllocation.AllocFreeRoundTrip | src/memory/phys.c:235-254 | allocate and free: run unmapped, other translations unchanged, reserved set grown by exactly the new page tables |
| AnonymousMmap.Mmap | src/syscall/syscall.c:60-81 | for every length the new state is the reference one: a run taken, then one page mapped per turn, with 32-bit count, index and offset; the address comes back with bit 12 cleared |
| AnonymousMmap.MmapReturns | src/syscall/syscall.c:80 | the address returned lies in the mapping iff the requested page number is even; otherwise in the page before |
| AnonymousMmap.MmapEntries | src/syscall/syscall.c:67 | the entry of every page mapped names its frame of the run, is present iff readable and writeable iff writeable was asked for, is the user's and has no other flag |
| AnonymousMmap.MmapPermits | src/syscall/syscall.c:67-78 | the processor lets a readable page be written iff that was asked for and the present links already on its way are writeable; likewise for user access |
| AnonymousMmap.MmapGraph | src/syscall/syscall.c:71-74 | whatever the number of turns, at most 2^20 consecutive pages are mapped, to consecutive frames |
| AnonymousMmap.MmapEffect | src/syscall/syscall.c:60-78 | the invariant is kept and exactly those pages change, in every address space |
| AnonymousMmap.MmapTranslates | src/syscall/syscall.c:70-78 | byte `d` of the mapping translates to byte `d` of one contiguous run |
| AnonymousMmap.MmapReaches | src/syscall/syscall.c:70-78 | the processor finds the byte there, and still agrees with the software walk everywhere |
| AnonymousMmap.MmapLosesByte | src/syscall/syscall.c:72-73 | for one byte more than 4 GiB, 2^20+1 frames are taken but the last byte stays unmapped |
| PageAllocation.FreshFrame | src/syscall/syscall.c:72 | the run's frames were free, and outside the gap they are reserved and no page tables |
| AnonymousMmap.MmapCovers | src/syscall/syscall.c:68-74 | every byte of the request is mapped iff start offset and length offset fit into one page together and the request ends within 4 GiB of its first page |
| UserSpaces.DataWriteKeeps | src/memory/paging.c:251-252 | writing a reserved frame that is no table keeps the invariant |
| UserSpaces.RootKeeps | src/memory/paging.c:247-258 | making a cleared frame with the shared entry a root keeps the invariant |
| UserSpaces.RootView | src/memory/paging.c:251-255 | old spaces keep every entry; the new one shares the lowest 512 GiB and is empty above |
| UserSpaces.CreateUserPml4 | src/memory/paging.c:247-258 | from any address space that reaches the new root, the loop and the final store through the page just mapped yield exactly the state `Create` describes |
| UserSpaces.CreateEffect | src/memory/paging.c:247-258 | that state keeps the invariant and has a fresh space that shares the lowest 512 GiB and is empty above; old spaces change in one kernel page only |
| UserSpaces.CreateWords | src/memory/paging.c:251-255 | the first word of the new root is the kernel's, the other 511 are zero |
| UserSpaces.CreateNeedsFrame | src/memory/paging.c:247-258 | the allocation is not checked: with clean frames for its mapping the invariant is kept iff a frame is free |
| UserSpaces.CreateAgrees | src/memory/paging.c:247-258 | a new space keeps processor and software walk in step |
| SystemRuns.NextKeeps | src/memory/paging.c:209-258 | every map, unmap, new space, allocation, release and client write keeps the system invariant |
| SystemRuns.RunKeeps | src/memory/paging.c:106-258 | the invariant holds in every state of every run |
| SystemRuns.LinksAreLive | src/memory/paging.c:106-139 | in every reachable state each link's table is reserved, in no client's hands, and linked once, slot 0 of the roots aside |
| SystemRuns.TablesLinkedOnce | src/memory/paging.c:106-139 | in every reachable state each table below the roots has its link, and every slot leading to it is that one |
| SystemRuns.RunSparesBitmap | src/memory/phys.c:213 | in every reachable state the bitmap's frames are reserved, no tables, in no client's hands, and not written |
| SystemRuns.RunView | src/memory/paging.c:209-258 | over a run a page other than the window keeps its entry unless a step names it |
| SystemRuns.RunShares | src/memory/paging.c:254-255 | in every reachable state all spaces translate identically below 2^39 |
| SystemRuns.RunSeparates | src/memory/paging.c:247-258 | over a run a translation in any space, the kernel's included and the window aside, stays while maps and unmaps happen in other spaces only, the mapped page or this one being above 2^39, and no new root is mapped at it |
| SystemRuns.UserPagesStay | src/memory/paging.c:247-258 | over a run a page above 2^39 of a space other than the kernel's keeps its entry unless that space itself is mapped or unmapped |
| SystemRuns.RunCreates | src/memory/paging.c:247-258 | where a run makes a new space its frame was free and no root; afterwards it is reserved, in nobody's hands, and a root that agrees with the kernel's below 2^39 and is empty above |
| SystemRuns.RunKeepsCreated | src/memory/paging.c:247-258 | and it stays a root for the rest of the run |
| SystemRuns.RunMaps | src/memory/paging.c:209-228 | where a run maps a page it has that entry afterwards, where it unmaps one it has none, in every space that shares it |
| SystemRuns.RunWrites | src/memory/paging.c:251-252 | where a run writes a word, that word and no other changes |
| SystemRuns.HeldOnce | src/memory/phys.c:167-254 | in every reachable state a frame is held by at most one client, and is then reserved, no table and above 8 MiB |
| SystemRuns.RunAgrees | src/memory/paging.c:106-258 | in every reachable state the processor reaches through every page of every space exactly the frame the software walk finds |
| SystemRuns.RunSeparatesHw | src/memory/paging.c:247-258 | the same separation for what the processor reaches |
| SystemRuns.AllocateLeads | src/memory/phys.c:239-245 | an allocation with a count outside 8..15 is a run of the system that ends with the client holding the block |
| SystemRuns.FreeLeads | src/memory/phys.c:247-254 | releasing a block a client holds is a run of the system |
| SystemRuns.CreateLeads | src/memory/paging.c:247-258 | create_user_pml4 is a run of the system |
| SystemRuns.WriteLeads | src/memory/paging.c:251-252 | a client's write to a frame it holds is a run of the system |
| SystemRuns.MmapLeads | src/syscall/syscall.c:60-78 | mmap with a page count outside 8..15 is a run of kernel steps; where its pages lead if it finds no frames is what ProcessRuns.MmapSafeExact tells |
| ProcessRuns.GoesKeeps | src/syscall/syscall.c:60-78 | every step of a kernel that maps into processes' own pages only frames in use keeps their invariant, and so does every write a process makes through such a page, which never hits a table |
| ProcessRuns.ProcessRunKeeps | src/syscall/syscall.c:60-78 | so the invariant holds in every state of every run of kernel and processes |
| ProcessRuns.PagesLeadToHeld | src/syscall/syscall.c:60-78 | in every such state each page of a process above 2^39 leads the processor nowhere or to a frame some client holds, which is no table |
| ProcessRuns.MmapSafeExact | src/syscall/syscall.c:70-75 | with a count outside 8..15 every page mapped leads to a frame of the caller's new block that is no table iff a free run of that length exists |
| ProcessRuns.FailedMmapExposes | src/syscall/syscall.c:70-75 | when none does, each table below the number of pages is in the caller's reach |
| ProcessRuns.FailedMmapBreaks | src/syscall/syscall.c:70-75 | if the kernel's root is among them one write of the process breaks the page tables |
| ProcessRuns.MmapGoes | src/syscall/syscall.c:60-78 | an mmap that finds its run is a run of kernel and processes that keeps their invariant |
| ProcessRuns.AllocateGoes | src/memory/phys.c:239-245 | so is an allocation |
| ProcessRuns.CreateGoes | src/memory/paging.c:247-258 | and so is a new address space |
| SmallMachine.InvariantIsMet | src/memory/paging.c:58-75 | a concrete machine meets the system invariant |
| SmallMachine.MachineCanMap | src/memory/paging.c:209-258 | on it every page from 8 MiB up can be mapped and a new space made, so the preconditions of both are met together |
| SmallMachine.MachineCanServe | src/memory/phys.c:239-245 | on it a frame can be allocated, and mmap called for any address from 8 MiB up |
| SmallMachine.UsedMachineMaps | src/memory/paging.c:88-92 | with an arbitrary word left in a free frame a page that misses three tables can still be mapped |
| SmallMachine.DirtyTableMisread | src/memory/paging.c:88-92 | one stale word in the first free frame: creating a table there breaks the tree and lets an unmapped page read a live table |
| SmallMachine.FullMachineFails | src/memory/paging.c:88-92 | a machine without a free frame: mapping a page there makes frame 0 a table |
| SmallMachine.FragmentedMmap | src/syscall/syscall.c:70-75 | a machine with free frames for tables but no two in a row: after mmap of two pages a process can break the page tables |
| SmallMachine.ReadOnlyFirst | src/memory/paging.c:118-120 | on a concrete machine a page mapped writeable beside a read-only one is reached but cannot be written |
| SmallMachine.MachineAgrees | src/memory/paging.c:125-139 | on the concrete machine processor and software walk agree, so such runs can start |
| SmallMachine.BootIsMet | src/memory/phys.c:201-214 | a concrete machine on which initialisation can be started |
| XhciRings.InitialInv | src/driver/xhci/xhci.c:438-439 | a cleared ring with both cycle states set is consistent |
| Boot.GetBitmapSize | src/memory/phys.c:141-152 | the size is taken from the last usable range |
| Boot.BitmapCovers | src/memory/phys.c:141-152 | in a sorted map no usable range ends beyond it |
| Boot.LastUsableIs | src/memory/phys.c:144-149 | the end used is that of the last usable range of the map, or 0 if there is none |
| Boot.BitmapPlace | src/memory/phys.c:156-157 | the bitmap is page aligned if the kernel is, and begins in the page after the kernel iff the 32-bit rounding does not wrap around; otherwise it begins with the kernel |
| Boot.KernelSpared | src/memory/phys.c:156-157 | it holds no byte of the kernel iff the rounding does not wrap around |
| Boot.PlaceBitmap | src/memory/phys.c:156-157 | the address computed is that place |
| Boot.CreateTmpBitmap | src/memory/phys.c:119-125 | whatever the temporary bitmap held, exactly the frames below 0x201 are reserved in it |
| Boot.MapBitmap | src/memory/phys.c:127-139 | the bitmap's pages are identity mapped, with tables from the temporary bitmap; base and size are restored |
| Boot.FillFromMap | src/memory/phys.c:161-213 | the reserved set is all frames minus the usable ranges plus the kept ones |
| Boot.InitialFreeFrames | src/memory/phys.c:201-214 | for page-aligned ranges a frame is free iff it begins in a usable range and in none of the kept ones, each range counted without its gap |
| Boot.RangeReservedExact | src/memory/phys.c:210-213 | a kept range is reserved as a whole iff the frames of its gap are unusable or kept otherwise |
| Boot.KeptRangeReserved | src/memory/phys.c:210-213 | this holds of the kernel, the bitmap and the framebuffer |
| Boot.FramesLost | src/memory/phys.c:211-212 | on 1.5 GiB with an 8-page kernel at 0x801000 a frame of the kernel and one of the bitmap stay free |
| Boot.BootStartsRuns | src/memory/phys.c:201-214 | the state left starts a run of the system with the bitmap set aside iff the bitmap's gap is covered and no table lies in the bitmap |
| Boot.HandOver | src/memory/phys.c:137-138 | changing to an allocator that reserves the boot section keeps the invariant |
| Boot.InitPmm | src/memory/phys.c:201-214 | afterwards the invariant holds, free frames are above 8 MiB, every table taken lies in frames 0x201..0x3e7, the bitmap lies behind the kernel with its pages mapped to themselves, present and writeable, and the system invariant with the bitmap set aside holds iff its gap is covered and it holds no table |
| XhciRings.PollExact | src/driver/xhci/xhci.c:343-356 | the cycle test succeeds iff an unread event exists, and yields the oldest |
| XhciRings.AtMostRing | src/driver/xhci/xhci.c:343-356 | a ring that shows every unread event and no other has at most 32 of them |
| XhciRings.ProduceExact | src/driver/xhci/xhci.c:339-360 | the ring goes on showing exactly the unread events iff fewer than 32 are unread when one is written |
| XhciRings.OverrunHidesEvents | src/driver/xhci/xhci.c:343-347 | one event too many hides all unread ones |
| XhciRings.EventsArriveInOrder | src/driver/xhci/xhci.c:339-360 | over any interleaving and any number of laps the consumed events are a prefix of the produced ones |
| XhciRings.PlayWrites | src/driver/xhci/xhci.c:339-360 | what a run produces is what the controller wrote, in that order and unchanged but for the cycle bit of its lap |
| XhciRings.LooksReadAll | src/driver/xhci/xhci.c:342-358 | as many turns as events are unread consume all of them |
| XhciRings.BurstArrives | src/driver/xhci/xhci.c:339-360 | of a burst of up to 32 events into a fresh ring the driver reads each, in order and as written but for the cycle bit |
| XhciRings.EventRing.constructor | src/driver/xhci/xhci.c:264-278 | the cleared ring is the initial channel |
| XhciRings.EventRing.ProcessOne | src/driver/xhci/xhci.c:343-358 | one turn of the loop is the abstract poll, and the dequeue register names the next slot |
| XhciRings.CommandRing.constructor | src/driver/xhci/xhci.c:247-262 | the cleared ring with its Link TRB meets the lap invariant |
| XhciRings.CommandRing.QueueCmd | src/driver/xhci/xhci.c:318-337 | the next slot gets the caller's address, status and flags with the producer's cycle state, and the toggle bit in slot 31; every other slot stays; index and cycle state follow the count |
| XhciRings.RingCarries | src/driver/xhci/xhci.c:318-337 | after any number of commands each slot holds the newest command for it, as given and with the cycle state of its lap; the others are as initialised |
| XhciRings.FirstLapFaithful | src/driver/xhci/xhci.c:318-337 | the k-th TRB the controller executes has the address, status and flags of the k-th command, and it stays inside the ring iff there are at most 31 |
| XhciRings.SlotAfterOne | src/driver/xhci/xhci.c:325-336 | one more command changes its own slot only, across all laps |
| XhciRings.CycleMarksLap | src/driver/xhci/xhci.c:319-336 | a slot's cycle bit equals the producer's state exactly for the slots of the current lap |
| XhciRings.LinkIntact | src/driver/xhci/xhci.c:254-256 | the Link TRB survives iff at most 31 commands were queued |
| XhciRings.FirstLapExecutes | src/driver/xhci/xhci.c:247-337 | a controller executes the queued commands in order, and stays in the ring iff there are at most 31 |
| AhciTransfers.SetPrdts | src/driver/ahci/ahci.c:56-75 | entry after entry of 2 MiB, the rest in the last one |
| AhciTransfers.StorePrd | src/driver/ahci/ahci.c:60-62 | address halves and the 22-bit count, one less than the length, are read back by the device as address and length |
| AhciTransfers.FillFis | src/driver/ahci/ahci.c:222-239 | the device reads the direction, 48 bits of the sector number and 16 of the count out of the FIS |
| AhciTransfers.Prepare | src/driver/ahci/ahci.c:217-239 | FIS and table together are a command for the sectors asked for, on a tiling table of at most 1024 entries |
| AhciTransfers.PrdsTile | src/driver/ahci/ahci.c:56-75 | the entries tile the buffer without gap or overlap, each of 1 byte to 2 MiB |
| AhciTransfers.GatherTiled | src/driver/ahci/ahci.c:56-75 | DMA over a tiling table reads one contiguous piece of memory |
| AhciTransfers.ScatterTiled | src/driver/ahci/ahci.c:56-75 | DMA over a tiling table writes one contiguous piece of memory |
| AhciTransfers.PerformMoves | src/driver/ahci/ahci.c:196-246 | a prepared command moves the first sectors of its range, as many as 16 bits count |
| AhciTransfers.Port.FindCmdSlot | src/driver/ahci/ahci.c:158-166 | the lowest free slot, none iff all are busy |
| AhciTransfers.Port.SendRwCmd | src/driver/ahci/ahci.c:196-246 | without a slot nothing happens; otherwise one tiling command of at most 1024 entries is issued and the remainder returned |
| AhciTransfers.Port.SendRwCmds | src/driver/ahci/ahci.c:248-261 | terminates, issues a back-to-back plan, and has the effect of the whole request |
| AhciTransfers.PlanCovers | src/driver/ahci/ahci.c:248-261 | command `i` starts at chunk `i` of disk and buffer and has that chunk's size |
| AhciTransfers.ChunksCover | src/driver/ahci/ahci.c:210-214 | the chunks add up to the request iff it is shorter than 2^32 + 2^22 sectors |
| AhciTransfers.ChunksAreFull | src/driver/ahci/ahci.c:251-257 | all chunks but the last are full, which is what the advancing addresses assume |
| AhciTransfers.WritesWhole | src/driver/ahci/ahci.c:238-239 | a write puts all its bytes on the disk, whatever they are, iff it has at most 65536 sectors |
| AhciTransfers.WriteThenRead | src/driver/ahci/ahci.c:446-506 | written data comes back into any buffer and no other sector changes |
| AhciTransfers.DriverRoundTrip | src/driver/ahci/ahci.c:446-506 | through both entry points: what one caller writes, up to 65536 sectors, any caller reads back, and no byte outside the range changes |
| AhciTransfers.WriteLands | src/driver/ahci/ahci.c:477-506 | up to 65536 sectors of the caller's bytes end up in the range of the disk |
| AhciTransfers.ReadBrings | src/driver/ahci/ahci.c:446-475 | up to 65536 sectors of the disk end up in the buffer, and nothing else changes |
| AhciTransfers.ClampExact | src/driver/ahci/ahci.c:447-449 | after the cut a request lies on the device iff it starts there and its end does not wrap around to before the device's |
| AhciTransfers.ClampInside | src/driver/ahci/ahci.c:447-449 | a request that starts on the device is cut to what is left of it |
| AhciTransfers.RequestFits | src/driver/ahci/ahci.c:447-456 | every aligned request that starts on the device lies on it after the cut |
| AhciTransfers.AhciRead | src/driver/ahci/ahci.c:446-475 | misaligned requests change nothing; others return the cut size and the transferred bytes |
| AhciTransfers.AhciWrite | src/driver/ahci/ahci.c:477-506 | misaligned requests change nothing; others send the caller's bytes to the device |
| PciEnumeration.DeviceTable.CheckFunc | src/pci/pci.c:112-133 | appends the function, or what lies behind it if it is a bridge |
| PciEnumeration.DeviceTable.CheckBus | src/pci/pci.c:135-143 | terminates and appends the depth-first list of the bus |
| PciEnumeration.ScanExact | src/pci/pci.c:112-143 | the list holds exactly the present non-bridge functions on reachable buses |
| PciEnumeration.ScanBytes | src/pci/pci.c:112-143 | a device is listed iff it stands at a slot below 32 and a function below 8 of a reachable bus that answers and whose class word is not 0x0604, and its class, subclass and interface are the named bytes of that header |
| PciEnumeration.BridgeBytes | src/pci/pci.c:119-121 | a bridge is a function of class word 0x0604, and leads to the bus in the upper byte of the word at 0x18 |
| PciEnumeration.SmallTree | src/pci/pci.c:112-143 | a concrete machine with a bridge meets what the scan results assume of bridges |
| PciEnumeration.SmallScan | src/pci/pci.c:112-143 | on a concrete machine the scan lists the host bridge and both controllers, one of them behind a bridge, and nothing else |
| PciEnumeration.ScanOnce | src/pci/pci.c:112-143 | in a tree of buses it holds none of them twice |

## Left out

- TLB invalidation, cr3 loads, port I/O, register polling and delays: hardware effects; commands complete when issued.
- Bit 63 (no-execute) and permission checks: page flags are the twelve bits below 0x1000, and the processor's walk checks presence and page size only.
- AnonymousMmap.Mmap: is modelled for executable mappings only, because the others set bit 63.
- AddressSpaces.Kernel.GetEntry and AddressSpaces.Kernel.LookupEntry model get_entry_by_index, which tells creating and looking apart by a sentinel flag value; GetTable takes that choice as an option.
- AddressSpaces.Kernel.MapFrame: requires a clean free frame for each missing table, which the code does not ensure; FinishedMaps.MapExact gives the exact condition for the finished map, on the reference walk and for entries other than 0. In between, the windowed walk itself is followed on clean frames only.
- AddressSpaces.Kernel.CreateTable: requires the free frame and its clean contents likewise.
- AddressSpaces.Kernel.UnmapPage: is not stated for the window page and the pages of low tables.
- AddressSpaces.Kernel.ToPhys: is not stated for the window page, whose entry the lookup itself changes.
- SystemRuns.RunKeeps: a step that creates tables is enabled only if the frames it takes for them are clean at that moment; allocations of 8 to 15 frames are not among the steps. Clients write to their own frames; ProcessRuns adds what processes write through their pages.
- ProcessRuns.ProcessRunKeeps: pages below 2^39, which all spaces share with the kernel, are not among the processes' own; user and writeable bits are ignored, so a process may write through every present page of its own.
- PageAllocation.PmmAlloc: is stated for requests that succeed; on failure the code maps page 0 and up to themselves.
- PageAllocation.PmmFree: is stated for a first page that is present; PageAllocation.FreeAbsentPage says what happens otherwise.
- UserSpaces.CreateUserPml4: is stated for an allocation that succeeds; UserSpaces.CreateNeedsFrame says what happens otherwise.
- Boot.InitPmm: takes the contents and placement of the boot loader's tables and both bitmaps as parameters; the bitmap's bits are kept apart from the modelled memory; ranges may exceed the bitmap but not the array behind it, and that array covers less than 16 TiB.
- AhciTransfers.Port.SendRwCmds: requires a free command slot; without one the code retries for ever while advancing its addresses. Zero sectors are excluded.
- AhciTransfers.AhciRead: takes the bounce buffer as a parameter, and a request that lies on the device after the cut (AhciTransfers.ClampExact says which do); a start beyond the device makes the code ask for almost 2^64 bytes.
- AhciTransfers.AhciWrite: likewise; the allocation of its bounce buffer, which the code asks for in bytes instead of pages, is not part of it.
- AhciTransfers.Port: devices have at most 2^48 sectors, as many as the FIS can address.
- PciEnumeration.DeviceTable.CheckBus: requires bridges on reachable buses to lead to higher bus numbers and the table to be large enough; the multiple-host case and capability lists are not modelled.
- XhciRings: doorbells, device contexts and the interpretation of events.
- The scheduler, task creation, base address registers, interrupt controllers, console, keyboard, ACPI, BIOS services and assembly.
