# A verified model of the core of a Rust MikanOS

This project models, in Dafny, the core of a Rust port of MikanOS, a small
x86-64 hobby operating system, together with its UEFI boot loader and the
Python script that produces the mouse-cursor table. Each source file of
the core is one Dafny module in one file, named after it. The model covers
these parts:

- **Memory managers.**
  - `MemoryManager` (memory_manager.dfy) is the bitmap frame manager.
  - `Allocator` (allocator.dfy) is the kernel heap. It has an address-ordered free list with splitting and coalescing, and a bump allocator.
  - `UsbAllocator` (usb_allocator.dfy) is the boundary-respecting variant of the heap used for xHCI data structures.
- **The xHCI USB driver.**
  - `MemoryPool` models the 32-slot command, transfer and event rings.
  - `Trb` models the Transfer Request Block codec and endpoint-descriptor decoding.
  - `Device` models control-transfer encoding and the device object.
  - `Registers` models register getters and read-modify-write setters, with an `MmioLog` of the words written.
  - `Controller` models the per-port `ConfigPhase` state machine.
  - `Events` and `Handlers` model the `on_event` handlers, the configuration-descriptor walk and `process_event`.
- **Hardware tables.** `Pci` covers configuration addresses, the bus scan, BARs and MSI. `Acpi` covers checksums and the FADT search. `Interrupt` is the IDT, `Segment` the GDT and `Paging` the identity page tables.
- **Pixels and text.**
  - `Math` holds vectors and rectangles.
  - `Writer` is the boot-time pixel writer, and `Graphics` the frame buffers with write, copy and scroll.
  - `Window` covers windows and the window manager's stack.
  - `Console` is the character grid, `Font` the text writer, and `Panic` the panic writer.
- **Input.** `Mouse` covers cursor decoding and the clamp-and-drag handler. `MouseTool` is the cursor-table encoder of tools/mouse.py, proved to round-trip with the kernel's decoder. `Keyboard` handles key repeat.
- **Diagnostics.** `Logger` is the log-level filter, and `Backtrace` holds the one-shot symbol table and symbol lookup.
- **Boot loader.** `Bootloader` sizes the kernel image from the LOAD segments, copies the segments, applies relocations, reads the entry point and maps the pixel format.
- **Shared types.** `Common` holds the optional value, error codes and the frame-buffer configuration.

Code that the source runs step by step on mutable state is modelled the
same way:

- Classes hold the fields that the source updates.
- Methods have `modifies` clauses and loop invariants.
- Each method is proved against a specification function on values.
- The properties the source promises are proved about those functions as lemmas.

Bit fields use bit-vector types, and addresses and sizes are naturals.
Values the hardware supplies are inputs:

- register words read from MMIO;
- the PCI configuration space, as an oracle from address word to data word;
- physical memory for ACPI;
- the memory a TRB pointer refers to.

A Rust panic (`panic!`, `assert!`, `unwrap`, `expect`) is modelled as an
outcome: `None`, an `ok == false` result, or a `Hang`/`Panic` outcome. Slice
indexing that would panic inside a state-changing method becomes a
`requires` and is listed below.

## Model

| member | source | states |
|---|---|---|
| MemoryManager.FrameCountValue | kernel/src/memory_manager.rs:23-32 | 32 GiB of 4 KiB frames is 2^23 frames, held exactly by 2^17 map lines of 64 bits |
| MemoryManager.SetLineBit | kernel/src/memory_manager.rs:49-53 | after setting (OR with `1 << k`) or clearing (AND with `!(1 << k)`) bit k of a line, that bit reads back as asked |
| MemoryManager.SetLineBitKeepsOthers | kernel/src/memory_manager.rs:49-53 | setting or clearing bit k leaves every other bit of the line as it was |
| MemoryManager.SameLineSameBit | kernel/src/memory_manager.rs:46-47 | two frames of one line share a bit index exactly when they are the same frame |
| MemoryManager.MapViewSet | kernel/src/memory_manager.rs:45-54 | updating the line of frame f changes the frame map at f alone, to the value asked |
| MemoryManager.MarkThenFree | kernel/src/memory_manager.rs:65-96 | clearing frames that were clear before they were set gives back the map they were set in |
| MemoryManager.FirstFitFromIsLowest | kernel/src/memory_manager.rs:72-89 | from a candidate whose first `i` frames are clear, the search answers the lowest start at or after it with `n` clear frames inside the range, and fails with NoEnoughMemory only when there is none |
| MemoryManager.FirstFitIsLowest | kernel/src/memory_manager.rs:71-90 | `allocate(n)` for n > 0 answers the lowest start in `[range_begin, range_end)` whose n frames are clear, and NoEnoughMemory exactly when no such start exists |
| MemoryManager.FirstFitOfNothing | kernel/src/memory_manager.rs:72-87 | `allocate(0)` answers `range_begin` wherever the range lies |
| MemoryManager.BitmapMemoryManager.constructor | kernel/src/memory_manager.rs:38-44 | every frame is clear and the range is the whole map |
| MemoryManager.BitmapMemoryManager.ViewIsMapView | kernel/src/memory_manager.rs:55-60 | `get_bit` frame by frame reads the frame bits of the lines |
| MemoryManager.BitmapMemoryManager.SetBit | kernel/src/memory_manager.rs:45-54 | frame f alone changes, to the value asked |
| MemoryManager.BitmapMemoryManager.SetMemoryRange | kernel/src/memory_manager.rs:61-64 | the range becomes `[begin, end)` |
| MemoryManager.BitmapMemoryManager.MarkAllocated | kernel/src/memory_manager.rs:65-70 | exactly frames `start .. start + n - 1` become set |
| MemoryManager.BitmapMemoryManager.Allocate | kernel/src/memory_manager.rs:71-90 | the answer is the first fit, and the map changes only on success, exactly on the frames returned |
| MemoryManager.BitmapMemoryManager.Search | kernel/src/memory_manager.rs:72-89 | the loop of `allocate` computes the first fit without changing the map |
| MemoryManager.BitmapMemoryManager.Probe | kernel/src/memory_manager.rs:74-88 | one inner pass counts the clear frames before the first set one, or reaches `range_end`; the search from the candidate then fails, succeeds, or goes on from just past the set frame |
| MemoryManager.BitmapMemoryManager.Free | kernel/src/memory_manager.rs:91-96 | exactly frames `start .. start + n - 1` become clear, and the answer is always Ok |
| MemoryManager.AllocateThenFree | kernel/src/memory_manager.rs:71-96 | freeing what a successful `allocate` returned gives back the map as it was |
| Allocator.RoundSize | kernel/src/allocator.rs:38 | a request is rounded up to at least `LIST_SIZE` (16) bytes, and a request of at least 16 bytes is kept as it is |
| Allocator.MisalignedStart | kernel/src/allocator.rs:74 | the start chosen in a misaligned block, as written, is a multiple of `align` past the block's head |
| Allocator.GapStart | kernel/src/allocator.rs:74 | the corrected start is a multiple of `align` that leaves at least `LIST_SIZE` bytes in front of it, and is the least such multiple |
| Allocator.GapStartAgrees | kernel/src/allocator.rs:74 | for alignments of at least `LIST_SIZE` the corrected start is the start the source computes |
| Allocator.CarveTakes | kernel/src/allocator.rs:50-87 | one iteration that returns an address returns a multiple of `align` inside the block, and the blocks left in its place lie inside it, overlap none of the `size` bytes handed out and hold exactly `size` bytes fewer; with the corrected start they form a well-formed list |
| Allocator.TakeAtTakes | kernel/src/allocator.rs:50-87 | a carve of block `k` returns an aligned address inside that block and takes exactly `size` bytes off the list; on a well-formed list no block left overlaps the bytes handed out, and with the corrected start the list stays well formed |
| Allocator.AllocFromProperties | kernel/src/allocator.rs:48-94 | the loop returns an address only from a carve: aligned, inside one of the blocks it visited, `size` bytes fewer on the list, and on a well-formed list no block left overlaps the bytes handed out (which stays well formed with the corrected start); when no block fits it returns null and leaves the list as it was |
| Allocator.AllocOnProperties | kernel/src/allocator.rs:35-95 | `alloc` returns a multiple of `align` lying with its `RoundSize(size)` bytes inside one free block, exactly that many bytes leave the list, and a well-formed list stays well formed with no block left overlapping the bytes handed out; null leaves the list unchanged |
| Allocator.AllocOnEmpty | kernel/src/allocator.rs:44-46 | an empty free list gives null and stays empty |
| Allocator.AllocSmallGap | kernel/src/allocator.rs:73-86 | as written, a block of 100 bytes at 4 asked for 16 bytes aligned to 8 returns 16 and keeps a 12-byte front block whose node overlaps the returned block, breaking the list; the corrected start returns 24 |
| Allocator.WalkFrom | kernel/src/allocator.rs:120-123 | the walk stops at the first block whose address is not below `ptr`, or at the end of the list: all blocks passed lie below `ptr` |
| Allocator.LinkFrontReturns | kernel/src/allocator.rs:106-118 | freeing a block that ends at or before the first block, merged when adjacent, keeps the list well formed and adds exactly the freed bytes |
| Allocator.LinkLastMerged | kernel/src/allocator.rs:125-128 | freeing right past the last block makes the last block longer by the freed bytes |
| Allocator.LinkLastApart | kernel/src/allocator.rs:129-134 | freeing past the last block, not adjacent to it, appends a new block |
| Allocator.LinkLastMergedWellFormed | kernel/src/allocator.rs:125-128 | the merge into the last block keeps the list well formed |
| Allocator.LinkLastApartWellFormed | kernel/src/allocator.rs:129-134 | the appended block keeps the list well formed |
| Allocator.LinkLastTotal | kernel/src/allocator.rs:125-135 | freeing past the last block adds exactly the freed bytes to the list |
| Allocator.LinkLastReturns | kernel/src/allocator.rs:125-135 | freeing past the last block keeps the list well formed and adds exactly the freed bytes |
| Allocator.ShapeBoth | kernel/src/allocator.rs:137-146 | freeing a block adjacent to both neighbours (corrected) replaces the two neighbours by one block covering all three |
| Allocator.ShapePrev | kernel/src/allocator.rs:137-146 | freeing a block adjacent only to the block before it makes that block longer by the freed bytes |
| Allocator.ShapeNext | kernel/src/allocator.rs:137-146 | freeing a block adjacent only to the block after it replaces that block by one starting at `ptr` |
| Allocator.ShapeNeither | kernel/src/allocator.rs:137-146 | freeing a block adjacent to neither neighbour (corrected) inserts it between them |
| Allocator.LinkBetweenMergesBoth | kernel/src/allocator.rs:137-146 | the three-way merge keeps the list well formed |
| Allocator.LinkBetweenMergesPrev | kernel/src/allocator.rs:143-146 | the merge with the block before keeps the list well formed |
| Allocator.LinkBetweenMergesNext | kernel/src/allocator.rs:137-142 | the merge with the block after keeps the list well formed |
| Allocator.LinkBetweenApart | kernel/src/allocator.rs:137-138 | the corrected insertion between two blocks keeps the list well formed |
| Allocator.BothTotal | kernel/src/allocator.rs:137-146 | the three-way merge adds exactly the freed bytes |
| Allocator.PrevTotal | kernel/src/allocator.rs:143-146 | the merge with the block before adds exactly the freed bytes |
| Allocator.NextTotal | kernel/src/allocator.rs:137-142 | the merge with the block after adds exactly the freed bytes |
| Allocator.NeitherTotal | kernel/src/allocator.rs:137-138 | the corrected insertion adds exactly the freed bytes |
| Allocator.LinkBetweenTotal | kernel/src/allocator.rs:137-146 | freeing between two blocks, with or without merges, adds exactly the freed bytes |
| Allocator.DeallocOnReturnsBlock | kernel/src/allocator.rs:96-147 | the corrected `dealloc` of a block that overlaps no free block succeeds, keeps the list well formed and adds exactly `RoundSize(size)` bytes |
| Allocator.DeallocLosesBlock | kernel/src/allocator.rs:137-146 | as written, freeing 16 bytes at 32 between blocks at 0 and 64 leaves the list unchanged (the block is lost); corrected, it is inserted between them |
| Allocator.DeallocOnEmptyAsWritten | kernel/src/allocator.rs:106-126 | as written, freeing into an empty list reaches the dereference of the null `prev`; corrected, the list becomes the freed block alone |
| Allocator.LinkedListAllocator.Empty | kernel/src/allocator.rs:21-23 | a new allocator has an empty free list |
| Allocator.LinkedListAllocator.Init | kernel/src/allocator.rs:24-29 | after `init` the list is the one block from `head` to `end` |
| Allocator.LinkedListAllocator.Alloc | kernel/src/allocator.rs:35-95 | the loop over the list returns the address and leaves the list that `AllocOn` gives, so `AllocOnProperties` applies |
| Allocator.LinkedListAllocator.Dealloc | kernel/src/allocator.rs:96-147 | the corrected `dealloc` leaves the list `DeallocOn` gives, so `DeallocOnReturnsBlock` applies; false, with the list unchanged, where the source dereferences null |
| Allocator.LinkedListAllocator.LinkAfter | kernel/src/allocator.rs:125-146 | once the walk stopped at block `k`, the list becomes the append or merge past the last block, or the corrected link between blocks `k - 1` and `k` |
| Allocator.Bump | kernel/src/allocator.rs:169-187 | the block returned starts at the least multiple of `align` not below `head`, ends at the new `head`, and is returned exactly when it ends at or below `end`; `head` advances by at least `size` even on a null result |
| Allocator.BumpDisjoint | kernel/src/allocator.rs:169-187 | two successive bump allocations that both succeed hand out blocks that do not overlap |
| Allocator.SimplestAllocator.Empty | kernel/src/allocator.rs:158-160 | a new bump allocator has `head` and `end` 0 |
| Allocator.SimplestAllocator.Init | kernel/src/allocator.rs:161-165 | `init` stores `head` and `end` |
| Allocator.SimplestAllocator.Alloc | kernel/src/allocator.rs:169-187 | the new `head` and the result are those of `Bump`; `end` is unchanged |
| Allocator.SimplestAllocator.Dealloc | kernel/src/allocator.rs:188-190 | `dealloc` gives nothing back: `head` and `end` are unchanged |
| UsbAllocator.PowerOfTwoDivides | kernel/src/usb/usb_allocator.rs:15 | a power of two divides every larger power of two, which is why an `align` no larger than `boundary` fits a boundary window |
| UsbAllocator.SameWindow | kernel/src/usb/usb_allocator.rs:21 | two addresses inside the same `b`-window have the same quotient by `b` |
| UsbAllocator.NextBoundary | kernel/src/usb/usb_allocator.rs:49 | the as-written boundary is a multiple of `boundary` at or above `head` and less than one boundary further, and equals `head` exactly when `head` lies on a boundary |
| UsbAllocator.BoundaryAbove | kernel/src/usb/usb_allocator.rs:49 | the corrected boundary is the first multiple of `boundary` strictly above `head` |
| UsbAllocator.BoundaryAboveAgrees | kernel/src/usb/usb_allocator.rs:49 | off a boundary the as-written and the corrected boundary are the same |
| UsbAllocator.BoundaryCarveStart | kernel/src/usb/usb_allocator.rs:51-94 | the corrected carve starts a block at `head` when aligned and below the next boundary, at the misaligned start when it fits below the boundary, or at the boundary |
| UsbAllocator.BoundaryCarveShape | kernel/src/usb/usb_allocator.rs:51-94 | one iteration leaves the whole block, its tail, its front, or its front and tail, each large enough for a node, with the block inside the old one |
| UsbAllocator.BoundaryCarveTakes | kernel/src/usb/usb_allocator.rs:51-94 | the parts left lie inside the block, overlap none of the `size` bytes handed out, are in order, are well formed and hold exactly `size` bytes fewer |
| UsbAllocator.BoundaryCarveWindow | kernel/src/usb/usb_allocator.rs:21-22 | the returned address is a multiple of `align`, and its first `request` bytes do not cross a multiple of `boundary` |
| UsbAllocator.RoundSizeIdempotent | kernel/src/usb/usb_allocator.rs:27 | rounding a size up to a node twice is rounding it once |
| UsbAllocator.BoundaryTakeAtTakes | kernel/src/usb/usb_allocator.rs:42-95 | a carve of list block `k` takes `size` bytes from inside it, at an aligned address in one boundary window, removes exactly `size` free bytes, and keeps a well-formed list well formed with no block left overlapping the bytes handed out |
| UsbAllocator.BoundaryTakeAtWindow | kernel/src/usb/usb_allocator.rs:42-95 | the carved address is aligned, inside block `k` and within one boundary window |
| UsbAllocator.BoundaryTakeAtTotal | kernel/src/usb/usb_allocator.rs:42-95 | the carve removes exactly `size` free bytes |
| UsbAllocator.BoundaryTakeAtWellFormed | kernel/src/usb/usb_allocator.rs:42-95 | the carve keeps the list well formed |
| UsbAllocator.BoundaryTakeAtApart | kernel/src/usb/usb_allocator.rs:42-95 | on a well-formed list no block left after the carve overlaps the bytes handed out |
| UsbAllocator.BoundaryAllocFromProperties | kernel/src/usb/usb_allocator.rs:42-103 | the corrected walk from block `k` either returns null with the list unchanged, or an aligned address inside one of the blocks from `k` on, within one boundary window, with exactly `size` bytes gone, the list still well formed and no block left overlapping the bytes handed out |
| UsbAllocator.BoundaryAllocProperties | kernel/src/usb/usb_allocator.rs:25-104 | for arguments the safety comment allows, a block is returned only from a free block, aligned, its requested bytes in one boundary window, with exactly the rounded size removed from a list that stays well formed and keeps no block overlapping the rounded block handed out; null leaves the list as it was |
| UsbAllocator.BoundaryAllocEmpty | kernel/src/usb/usb_allocator.rs:35-37 | an empty free list gives null, with or without a boundary |
| UsbAllocator.BoundaryZeroIsAlloc | kernel/src/usb/usb_allocator.rs:28-30 | with a boundary of 0 the call is the plain `alloc` of the rounded size |
| UsbAllocator.BoundarySmallFrontAsWritten | kernel/src/usb/usb_allocator.rs:72-93 | as written, 16 bytes aligned to 4 and bounded by 64 from the block at 60 of 200 bytes start at the boundary 64 and keep a 4-byte front part, which is not a well-formed list; the corrected carve passes over the block |
| UsbAllocator.BoundaryOnBoundaryAsWritten | kernel/src/usb/usb_allocator.rs:49-70 | as written, 64 bytes aligned and bounded by 64 from the free block at 64 of 64 bytes return 64 and leave a node of size 0 on the returned block, which is not a well-formed list; the corrected walk unlinks the block |
| UsbAllocator.AllocWithBoundaryOn | kernel/src/usb/usb_allocator.rs:13-24 | a result is returned only for arguments the assertions accept, and then satisfies the result assertions |
| UsbAllocator.AllocWithBoundaryPanicsOnlyWhenOut | kernel/src/usb/usb_allocator.rs:13-24 | with the corrected walk and test, for valid arguments the call panics exactly when the walk finds no block |
| UsbAllocator.FullBoundaryAlwaysPanics | kernel/src/usb/usb_allocator.rs:21 | as written, a request of exactly `boundary` bytes fails the assertion wherever it lies |
| UsbAllocator.FullBoundaryExample | kernel/src/usb/usb_allocator.rs:21 | as written, 64 bytes aligned and bounded by 64 from the free block at 16 of 4080 bytes panic; the corrected test returns 64 and leaves blocks at 16 and 128 |
| UsbAllocator.AllocWithBoundaryUnchecked | kernel/src/usb/usb_allocator.rs:26-104 | the returned pointer and the new free list are those of the corrected walk |
| UsbAllocator.AllocWithBoundary | kernel/src/usb/usb_allocator.rs:13-24 | succeeds exactly when the arguments are valid and a block is found, and then returns that block and its new free list |
| UsbAllocator.AllocWithBoundaryZeroed | kernel/src/usb/usb_allocator.rs:6-12 | on success the block's first `size` bytes are 0 and no other byte of memory changes; on failure memory is unchanged |
| MemoryPool.Advance | kernel/src/usb/memory_pool.rs:118-127 | a push moves the producer to the next slot modulo 31 (slot 31 holds the Link TRB) and toggles the cycle exactly when it wraps to 0 |
| MemoryPool.PushesFromStart | kernel/src/usb/memory_pool.rs:113-128 | from a fresh ring, k pushes leave the producer at slot k mod 31 with the cycle toggled once per completed lap |
| MemoryPool.LinkCycleForms | kernel/src/usb/memory_pool.rs:29 | the command ring's OR of the cycle bit into the Link TRB writes the same word as the transfer ring's clear-then-OR (line 121), since the Link TRB is built with bit 0 clear |
| MemoryPool.ProducerRing.constructor | kernel/src/usb/controller.rs:278-285 | a zeroed table at a 64-byte aligned address, producer at slot 0 with cycle bit 1, nothing pushed |
| MemoryPool.ProducerRing.Center | kernel/src/usb/memory_pool.rs:110-112 | the address of the slot the next push writes, 16-byte aligned |
| MemoryPool.ProducerRing.Push | kernel/src/usb/memory_pool.rs:113-128 | the slot at the index gets the TRB with the ring's cycle bit; reaching slot 31 writes the Link TRB back to the table start with the same cycle bit, wraps to 0 and toggles the cycle; no other slot changes and slot 31 never holds a data TRB |
| MemoryPool.PushTwo | kernel/src/usb/memory_pool.rs:113-128 | two pushes record both TRBs in order and move the producer two positions |
| MemoryPool.ConsumerAdvance | kernel/src/usb/memory_pool.rs:62-67 | the consumer moves to the next of 32 slots and toggles its cycle exactly when it wraps to 0 |
| MemoryPool.EventRing.constructor | kernel/src/usb/controller.rs:160-189 | a zeroed event table with the consumer at slot 0 and cycle bit 1 |
| MemoryPool.EventRing.Next | kernel/src/usb/memory_pool.rs:59-72 | a TRB is returned exactly when the one at the index carries the consumer's cycle bit; it is that TRB and the consumer advances, otherwise the position is unchanged |
| Trb.Ty | kernel/src/usb/trb.rs:27-29 | the type is below 64 and is exactly bits 10..15 of word 3 |
| Trb.CycleRoundTrip | kernel/src/usb/trb.rs:37-39 | the cycle bit a ring stores reads back, and storing the bit a TRB already has changes nothing |
| Trb.WithCycle | kernel/src/usb/memory_pool.rs:22 | the stored TRB carries the ring's cycle bit, with words 0..2 and the rest of word 3 as given |
| Trb.WithCycleKeepsType | kernel/src/usb/memory_pool.rs:22 | setting the cycle bit never changes the TRB type |
| Trb.Cast | kernel/src/usb/trb.rs:30-36 | the view exists exactly when the type matches, and is then the TRB itself |
| Trb.Pointer | kernel/src/usb/trb.rs:168-170 | the low and high halves of the 64-bit pointer are words 0 and 1 |
| Trb.EnableSlotTrb | kernel/src/usb/trb.rs:40-46 | an Enable Slot command (type 9) with cycle bit, slot and parameters all 0 |
| Trb.LinkTrb | kernel/src/usb/trb.rs:47-53 | a Link TRB (type 6) with Toggle Cycle set, pointing at the given address with its low four bits dropped |
| Trb.AddressDeviceTrb | kernel/src/usb/trb.rs:54-62 | defined exactly for a 64-byte aligned input context (the assertion otherwise); then an Address Device command (type 11) with that pointer and the slot id |
| Trb.NoOpCommandTrb | kernel/src/usb/trb.rs:63-69 | a No Op command (type 23) with everything else 0 |
| Trb.ConfigureEndpointTrb | kernel/src/usb/trb.rs:334-343 | defined exactly for a 64-byte aligned input context (the assertion otherwise); then a Configure Endpoint command (type 12) with that pointer and the slot id |
| Trb.NormalTrb | kernel/src/usb/trb.rs:177-184 | a Normal TRB (type 1) with Interrupt On Completion set, the whole buffer as its pointer and its length as the transfer length |
| Trb.PortStatusChangeEventRoundTrip | kernel/src/usb/trb.rs:81-83 | a Port Status Change Event built from a port id, completion code and cycle bit reads back the port id, the code, type 34 and the cycle bit |
| Trb.CommandCompletionEventRoundTrip | kernel/src/usb/trb.rs:114-119 | a Command Completion Event reads back its slot id, completion code, type 33 and cycle bit, and the command address exactly when that address is 16-byte aligned |
| Trb.TransferEventRoundTrip | kernel/src/usb/trb.rs:167-173 | a Transfer Event reads back its TRB pointer, slot id, completion code, transfer length, type 32 and cycle bit |
| Trb.CompletionCodeField | kernel/src/usb/controller.rs:336-337 | a completion code placed in bits 24..31 of word 2 reads back whatever parameter lies below it, and no other word changes the code |
| Trb.ConstructorTypes | kernel/src/usb/trb.rs:40-69 | the constructors give types 9, 6, 23 and 11, and `cast` accepts a TRB exactly as its own type |
| Trb.CastIgnoresCycle | kernel/src/usb/trb.rs:30-36 | storing a TRB with a cycle bit does not change which types `cast` accepts |
| Trb.Dci | kernel/src/usb/trb.rs:289 | the index is below 16, with the endpoint number as its half and the direction bit as its parity |
| Trb.DciInjective | kernel/src/usb/trb.rs:289 | two endpoint addresses with the same index have the same number and direction |
| Trb.EpType | kernel/src/usb/trb.rs:293-302 | the type is 1..7 and is 4 (control) exactly when the transfer type is 0; the match is total, so the `unreachable!` arm is never taken |
| Trb.EpTypeClosedForm | kernel/src/usb/trb.rs:293-302 | outside control endpoints the type is the transfer type with the direction as bit 2 |
| Trb.MaxPacketSizeAsWritten | kernel/src/usb/trb.rs:303 | the as-written value never reaches 1024 |
| Trb.MaxPacketSize | kernel/src/usb/trb.rs:303 | the corrected value is the little-endian 16-bit field: low byte and high byte read back |
| Trb.MaxPacketSizeShiftCounterexample | kernel/src/usb/trb.rs:303 | bytes 0x00, 0x02 (a 512-byte endpoint) read as 8 as written and as 512 corrected |
| Trb.MaxPacketSizeAgreesOnSmallPackets | kernel/src/usb/trb.rs:303 | the two readings agree whenever the high byte is 0 |
| Trb.EndpointContext | kernel/src/usb/trb.rs:315-322 | eight words: the interval in word 0, CErr 3, the type and the max packet size in word 1, DCS set and the ring's dequeue pointer in words 2 and 3, the rest 0 |
| Trb.SetupTrbMap.constructor | kernel/src/usb/trb.rs:155 | the map starts empty |
| Trb.SetupTrbMap.Insert | kernel/src/usb/trb.rs:155 | succeeds exactly when the key is present or fewer than 32 entries are held, and then maps the key to the TRB; on failure nothing changes |
| Trb.SetupTrbMap.Remove | kernel/src/usb/trb.rs:192 | returns the TRB recorded under the key, if any, and drops the key |
| Device.RootHubPortField | kernel/src/usb/device.rs:27-29 | a port number placed in bits 16..23 of slot-context word 1 reads back whatever the rest of the word holds, and the rest of the word does not change it |
| Device.RootHubPortRoundTrip | kernel/src/usb/device.rs:99-104 | a slot context whose word 1 holds `port << 16`, as `address_deivce` writes it, reads back as that port |
| Device.SetupOf | kernel/src/usb/device.rs:175-182 | the SETUP packet fields decoded from words 0 and 1 of a Setup Stage TRB: request type, request, value, index and length at their bit positions |
| Device.GetDescriptorSetupTrb | kernel/src/usb/device.rs:175-182 | the setup TRB of `get_descriptor` is a Setup Stage TRB with immediate data of 8 bytes and an IN transfer type, carrying GET_DESCRIPTOR (0x80, 6) for descriptor `ty`, index `num`, length 512 |
| Device.SetProtocolSetupTrb | kernel/src/usb/device.rs:212-219 | the setup TRB of `set_protocol_boot` is a Setup Stage TRB with no data stage type, carrying SET_PROTOCOL (0x21, 11) with value 0 (boot protocol) addressed to the interface |
| Device.DataStageTrb | kernel/src/usb/device.rs:184-191 | a Data Stage TRB whose pointer is the buffer address, whose length is 512 and whose direction bit is set exactly for IN transfers |
| Device.StatusStageTrb | kernel/src/usb/device.rs:192-196 | a Status Stage TRB with Interrupt On Completion, whose direction bit is set exactly for IN |
| Device.FirstBootInterfaceFrom | kernel/src/usb/device.rs:207-210 | the result is the first index at or after `k` whose class driver has class 3 and subclass 1, and is none exactly when there is no such index |
| Device.FirstBootInterface | kernel/src/usb/device.rs:207-210 | the driver chosen is a boot interface, no earlier one is, and there is none exactly when no class driver is class 3 subclass 1 |
| Device.ControlTransfer | kernel/src/usb/device.rs:198-204 | setup, data and status TRBs are pushed in order, the setup TRB is recorded under the slot address of the status TRB, and the doorbell is rung for target 1; it fails exactly when the map is full (`unwrap`) or the doorbell address is 0 (`doorbell()` panics) |
| Device.XhciDevice.constructor | kernel/src/usb/controller.rs:267-292 | a new device has the given slot and doorbell, a zeroed buffer, zeroed classes and contexts, and 31 transfer rings at their given bases with index 0 and cycle bit 1 |
| Device.XhciDevice.GetDescriptor | kernel/src/usb/device.rs:174-205 | ring 0 receives the GET_DESCRIPTOR setup, an IN data stage over the buffer and an OUT status stage; the map records the setup TRB; the doorbell write happens exactly when the transfer succeeds |
| Device.XhciDevice.StartInit | kernel/src/usb/device.rs:171-173 | the device descriptor (type 1, index 0) is requested, with the same outcome as `GetDescriptor` |
| Device.XhciDevice.SetProtocolBoot | kernel/src/usb/device.rs:206-242 | without a boot interface nothing changes; otherwise `default` becomes the first boot interface, and SET_PROTOCOL(boot) for its interface with an OUT data stage and an IN status stage is queued and recorded when the setup map has the slot or room, and `ok` holds exactly then with a doorbell set |
| Device.DeviceMemInit | kernel/src/usb/device.rs:247-255 | MAX_SLOTS_EN + 1 device slots, every one empty |
| Registers.Hchalted | kernel/src/usb/registers.rs:13-15 | true exactly when USBSTS bit 0 is set |
| Registers.ControllerNotReady | kernel/src/usb/registers.rs:16-18 | true exactly when USBSTS bit 11 is set |
| Registers.HostControllerReset | kernel/src/usb/registers.rs:33-35 | true exactly when USBCMD bit 1 is set |
| Registers.RunValue | kernel/src/usb/registers.rs:27-29 | the word written has bit 0 set and every other bit as read |
| Registers.StopValue | kernel/src/usb/registers.rs:30-32 | the word written has bit 0 clear and every other bit as read |
| Registers.SetHostControllerResetValue | kernel/src/usb/registers.rs:36-38 | the written word reads back the requested reset bit and keeps every other bit |
| Registers.SetInterruptEnableValue | kernel/src/usb/registers.rs:39-41 | bit 2 becomes the requested value and every other bit is kept |
| Registers.SetMaxSlotsEnValue | kernel/src/usb/registers.rs:50-52 | the low byte becomes the requested slot count and every other bit is kept |
| Registers.DcbaapValue | kernel/src/usb/registers.rs:61-64 | the value is written exactly when it is 64-byte aligned, and then unchanged; the assertion's panic otherwise |
| Registers.IsConnected | kernel/src/usb/registers.rs:102-104 | true exactly when PORTSC bit 0 (CCS) is set |
| Registers.IsEnabled | kernel/src/usb/registers.rs:105-107 | true exactly when PORTSC bit 1 (PED) is set |
| Registers.IsPortReset | kernel/src/usb/registers.rs:113-115 | true exactly when PORTSC bit 4 (PR) is set |
| Registers.IsPortResetChanged | kernel/src/usb/registers.rs:116-118 | true exactly when PORTSC bit 21 (PRC) is set |
| Registers.PortSpeedRoundTrip | kernel/src/usb/registers.rs:123-125 | a speed below 16 placed in PORTSC bits 10..13 reads back, and the speed depends on those bits only |
| Registers.PortResetValue | kernel/src/usb/registers.rs:108-110 | the written word starts a reset (PR set), does not disable the port (PED written 0), clears CSC and PRC by writing 1 and no other change bit, keeps the preserved fields as read and sets nothing else |
| Registers.ClearPortResetChangedValue | kernel/src/usb/registers.rs:119-122 | the written word clears only PRC among the change bits, writes PR and PED as 0, keeps the preserved fields and sets nothing else |
| Registers.DoorbellValue | kernel/src/usb/registers.rs:134-136 | target and stream id read back from bits 0..7 and 16..31, and bits 8..15 are 0 |
| Registers.CapabilityRoundTrip | kernel/src/usb/registers.rs:156-161 | CAPLENGTH and HCIVERSION read back the low byte and high half the first capability word was built from |
| Registers.CapabilityFields | kernel/src/usb/registers.rs:156-161 | the two fields rebuild the first capability word apart from its reserved byte 1 |
| Registers.Hcsparams1RoundTrip | kernel/src/usb/registers.rs:171-179 | the slot, interrupter (below 1024) and port counts read back from the HCSPARAMS1 word built from them |
| Registers.Hcsparams1Fields | kernel/src/usb/registers.rs:171-179 | the three fields together rebuild HCSPARAMS1 apart from its reserved bits 18..23 |
| Registers.TrailingZeros | kernel/src/usb/registers.rs:182 | the count is 32 exactly for 0; otherwise the bit it names is set and every bit below it is clear |
| Registers.PageSize | kernel/src/usb/registers.rs:180-183 | at least 4096; for a nonzero PAGESIZE word, 2 to the power 12 plus the position of its lowest set bit |
| Registers.PageSizeOf4K | kernel/src/usb/registers.rs:180-183 | a controller reporting 4 KiB pages (bit 0) gives 4096 |
| Registers.UsbCommandRegister.Run | kernel/src/usb/registers.rs:27-29 | the register becomes `RunValue` of its old value |
| Registers.UsbCommandRegister.Stop | kernel/src/usb/registers.rs:30-32 | the register becomes `StopValue` of its old value |
| Registers.UsbCommandRegister.SetHostControllerReset | kernel/src/usb/registers.rs:36-38 | the register becomes `SetHostControllerResetValue` of its old value |
| Registers.UsbCommandRegister.SetInterruptEnable | kernel/src/usb/registers.rs:39-41 | the register becomes `SetInterruptEnableValue` of its old value |
| Registers.ConfigureRegister.SetMaxSlotsEn | kernel/src/usb/registers.rs:50-52 | the register becomes `SetMaxSlotsEnValue` of its old value |
| Registers.DcbaapRegister.SetDcbaap | kernel/src/usb/registers.rs:61-64 | succeeds exactly for a 64-byte aligned value and then holds it; otherwise (the assertion) the register is unchanged |
| Registers.MmioLog.ResetPort | kernel/src/usb/registers.rs:108-110 | exactly one PORTSC write is logged, of `PortResetValue` of the word the port reads |
| Registers.MmioLog.ClearPortResetChanged | kernel/src/usb/registers.rs:119-122 | exactly one PORTSC write is logged, of `ClearPortResetChangedValue` of the word the port reads |
| Registers.MmioLog.Ring | kernel/src/usb/registers.rs:134-136 | exactly one doorbell write is logged, of `DoorbellValue` of target and stream id |
| Controller.InitialStateOneAtATime | kernel/src/usb/controller.rs:178-184 | after `initialize` every port is NotConnected, none is busy and nobody holds the addressing turn |
| Controller.PortRegisterOffset | kernel/src/usb/registers.rs:196-198 | `port_sc(0)` panics on the subtraction; every other port's register is 16-byte aligned at 0x400 + 0x10 * (port - 1), inside the operational registers |
| Controller.PortRegistersDistinct | kernel/src/usb/registers.rs:196-198 | distinct nonzero ports have distinct PORTSC registers |
| Controller.ResetPortSpec | kernel/src/usb/controller.rs:213-233 | `reset_port` panics exactly when nobody addresses and the port is 0; otherwise only the port's own phase can change and the error log only grows |
| Controller.ResetPortOutcomes | kernel/src/usb/controller.rs:213-233 | with another port addressing, the port is parked as WaitingAddressed and nothing else changes; from NotConnected or WaitingAddressed it takes the addressing turn, becomes ResettingPort and the PORTSC reset word is written; from any other phase only InvalidPhase is logged |
| Controller.ResetPortKeepsOneAtATime | kernel/src/usb/controller.rs:213-233 | `reset_port` keeps the invariant that only the addressing port is busy |
| Controller.EnableSlotSpec | kernel/src/usb/controller.rs:235-248 | `enable_slot` panics exactly on port 0; otherwise the addressing port is kept and only the port's own phase can change |
| Controller.EnableSlotKeepsOneAtATime | kernel/src/usb/controller.rs:235-248 | enabling the slot of the addressing port keeps the invariant |
| Controller.PortStatusChangeSpec | kernel/src/usb/trb.rs:84-100 | the port status change handler panics exactly on port id 0 (`port_sc(0)`) |
| Controller.PortStatusChangeKeepsOneAtATime | kernel/src/usb/trb.rs:84-100 | the port status change handler keeps the invariant |
| Controller.FirstWaitingFrom | kernel/src/usb/trb.rs:137 | the result is the lowest WaitingAddressed port at or after `k`, and None exactly when there is none |
| Controller.FirstWaiting | kernel/src/usb/trb.rs:137 | the `filter(..).next()` search returns the lowest-numbered WaitingAddressed port, and None exactly when no port waits |
| Controller.AddressedSpec | kernel/src/usb/trb.rs:128-145 | an Address Device completion goes through only for the addressing port in AddressingDevice, and leaves it InitializingDevice; the error log only grows |
| Controller.AddressedKeepsOneAtATime | kernel/src/usb/trb.rs:128-145 | after an Address Device completion the invariant holds, and either nobody addresses or the lowest waiting port does, now ResettingPort |
| Controller.ReleasedIdle | kernel/src/usb/trb.rs:136-144 | releasing the turn and moving the port to InitializingDevice leaves no port busy |
| Controller.ReleasedHandsOver | kernel/src/usb/trb.rs:136-144 | handing the turn to a waiting port resets that port, which now holds the turn as ResettingPort, and keeps the invariant |
| Controller.AddressDeviceSpec | kernel/src/usb/controller.rs:317 | `address_deivce` puts its port in AddressingDevice and changes no other port or the addressing turn |
| Controller.AddressDeviceKeepsOneAtATime | kernel/src/usb/trb.rs:123-127 | addressing the device of the port that is EnablingSlot keeps the invariant |
| Controller.FirstConnectedFrom | kernel/src/usb/controller.rs:203-209 | the lowest connected port in `n..=max_ports`, None exactly when none is connected |
| Controller.ConfigureFromIdle | kernel/src/usb/controller.rs:201-210 | with nobody addressing and the ports NotConnected or WaitingAddressed, `configure_port` resets the lowest connected port, which takes the turn, parks every other connected port as WaitingAddressed, and writes and logs nothing else |
| Controller.ConfigureFromBusy | kernel/src/usb/controller.rs:201-210 | with a port already addressing, `configure_port` only parks the connected ports as WaitingAddressed |
| Controller.ConfigureKeepsOneAtATime | kernel/src/usb/controller.rs:201-210 | `configure_port` keeps the invariant |
| Controller.DefaultMaxPacket | kernel/src/usb/controller.rs:302-309 | 8 for speeds 1 and 2, 64 for 3, 512 for 4; any other speed is the UnknownXHCISpeedID panic |
| Controller.AddressingSlotContext | kernel/src/usb/controller.rs:299-300 | slot context word 0 holds the speed in bits 20..23 and 1 context entry in bits 27..31 with bits 0..19 clear; the root hub port number reads back as `port`; words 2..7 stay 0 |
| Controller.DefaultControlEndpointIsEndpointContext | kernel/src/usb/controller.rs:311-315 | for a 64-byte aligned ring the endpoint 0 context is a control endpoint (type 4) with error count 3, interval 0, dequeue cycle state 1 and the ring's address |
| Controller.MaxScratchpadBuffers | kernel/src/usb/controller.rs:133 | the scratchpad count is below 1024, its low 5 bits are HCSPARAMS2 bits 27..31 and its high 5 bits are bits 21..25 |
| Controller.XhcController.constructor | kernel/src/usb/controller.rs:178-193 | the controller starts with every port NotConnected, nobody addressing, both rings at index 0 with cycle true, no devices, no setup TRBs |
| Controller.XhcController.ResetPort | kernel/src/usb/controller.rs:213-233 | the new phases, addressing port, MMIO writes and error log are those of `ResetPortSpec`; false where the source panics |
| Controller.XhcController.EnableSlot | kernel/src/usb/controller.rs:235-248 | the state follows `EnableSlotSpec`; when the port is enabled and its reset changed, a No Op and an Enable Slot TRB are pushed on the command ring, in that order; otherwise the ring is untouched |
| Controller.XhcController.QueueEnableSlot | kernel/src/usb/controller.rs:240-242 | No Op then Enable Slot are pushed and doorbell 0 is rung with target 0 |
| Controller.XhcController.ConfigurePort | kernel/src/usb/controller.rs:201-210 | the state after the loop over ports 1..=max_ports is `ConfigureFrom`, and the invariant is kept |
| Controller.XhcController.InstallDevice | kernel/src/usb/controller.rs:267-292 | slot `slot` holds a fresh device with the given memory, the DCBAA entry of the slot points at its device context, and no other slot changes |
| Controller.XhcController.AddressDevice | kernel/src/usb/controller.rs:250-321 | no panic exactly for a slot inside DEVICES_MEM, a nonzero port and a known speed; then the slot holds a fresh device registered in the DCBAA, its input context is that of `AddressingContexts`, the port is AddressingDevice and one Address Device TRB is pushed |
| Controller.XhcController.AddressInstalled | kernel/src/usb/controller.rs:293-321 | no panic exactly for a nonzero port and a known speed; then the input context is written, the phase set and the Address Device TRB pushed |
| Controller.XhcController.QueueAddressDevice | kernel/src/usb/controller.rs:317-320 | the port becomes AddressingDevice and exactly the given command is pushed |
| Controller.WriteAddressingContexts | kernel/src/usb/controller.rs:293-315 | the result is the max packet size of the port's speed or the speed panic; with a known speed the input control context adds A0 and A1 only, and the slot and endpoint 0 contexts are those `address_deivce` writes, other endpoints unchanged |
| Events.ApplyCovers | kernel/src/usb/trb.rs:279-323 | one descriptor of the walk keeps every add flag already set, and the only endpoint context it changes is the one whose add flag it sets |
| Events.ApplyAllCovers | kernel/src/usb/trb.rs:271-332 | any run of descriptors keeps every add flag and sets the add flag of every endpoint context it writes |
| Events.WalkSteps | kernel/src/usb/trb.rs:269-332 | a walk that finishes is the in-order application of the steps of the descriptors it passes |
| Events.WalkFromStep | kernel/src/usb/trb.rs:271-331 | a walk from an offset below the total length that passes the descriptor there carries on at the offset advanced by that descriptor's bLength |
| Events.WalkCovers | kernel/src/usb/trb.rs:267-344 | after a finished walk the add flags set before it (A0) are still set and every endpoint context the walk changed has its add flag set, so the Configure Endpoint command covers all contexts written; the endpoint context uses the corrected max packet size (see Findings) |
| Events.ApplyStep | kernel/src/usb/trb.rs:279-323 | one descriptor applied to the device: an interface fills its class entry, an endpoint ORs its add flag into input-control word 1 and rewrites its endpoint context; no other input-control word changes; the endpoint context uses the corrected max packet size (see Findings) |
| Events.ScanConfiguration | kernel/src/usb/trb.rs:269-332 | the loop over the configuration descriptor ends as the walk specification says: it hangs on a zero bLength, fails where the source panics (short descriptor, interface number past 15, DCI 0), and otherwise leaves the device holding the walk's class table, add flags and endpoint contexts; corrected max packet size (see Findings) |
| Events.InterruptInStep | kernel/src/usb/trb.rs:287-323 | an endpoint descriptor for endpoint 1 IN, interrupt, max packet 8, interval 10 sets add flag 3 and writes endpoint context 2 as type 7 on transfer ring 2 |
| Events.BootKeyboardSteps | kernel/src/usb/trb.rs:275-330 | the four descriptors of a boot keyboard's configuration yield skip, interface 0 (class 3, subclass 1, protocol 1), skip (HID) and the interrupt-IN endpoint step |
| Events.BootKeyboardWalk | kernel/src/usb/trb.rs:259-332 | walking a boot keyboard's configuration finishes with class entry 0 filled, add flag 3 set and endpoint context 2 written, and changes nothing else |
| Handlers.SignedByte | kernel/src/usb/trb.rs:202 | `as i8`: a value in -128..127 congruent to the byte modulo 256 |
| Handlers.ReportOf | kernel/src/usb/trb.rs:196-239 | protocol 2 yields one mouse call with the button byte and the two displacements as signed bytes, protocol 1 one keyboard call with the modifier byte and the six key codes of bytes 2..7, any other protocol no call |
| Handlers.DeliverReport | kernel/src/usb/trb.rs:196-239 | the handler calls recorded grow by exactly the report of the default interface's protocol over the device buffer |
| Handlers.InterruptInDci | kernel/src/usb/trb.rs:175 | the DCI `(default + 1) * 2 + 1` is odd (an IN endpoint) and names one of the 31 transfer rings, never the control ring |
| Handlers.InterruptInIsEndpointIn | kernel/src/usb/trb.rs:175 | for interfaces 0..6 that DCI is the one the configuration walk (line 289) gives to endpoint `i + 1` IN, so the ring re-armed is the ring configured |
| Handlers.SetNormalTrb | kernel/src/usb/trb.rs:174-186 | one Normal TRB over the 512-byte buffer is pushed on the interrupt-IN ring, which advances by one slot, and that DCI is rung on the device's doorbell; it fails exactly when the doorbell address is 0 |
| Handlers.Classify | kernel/src/usb/trb.rs:248-349 | the setup TRB is a device-descriptor request exactly when request 6 with wValue 0x0100, a configuration request exactly when request 6 with descriptor type 2, SET_PROTOCOL exactly when request 11 |
| Handlers.ClassifyRecognisesRequests | kernel/src/usb/trb.rs:248-349 | the setup TRBs the device itself builds (`start_init`, `get_descriptor(2, n)`, `set_protocol_boot`) are recognised as what they are, and a device-descriptor request with a nonzero index is not |
| Handlers.DeviceDescriptorDone | kernel/src/usb/trb.rs:248-258 | bNumConfigurations and the endpoint-0 packet size (9 meaning 512) are recorded; a nonzero bDeviceClass logs not-implemented and sends nothing, otherwise configuration descriptor 0 is requested, failing exactly as `get_descriptor` does |
| Handlers.ConfigurationDone | kernel/src/usb/trb.rs:259-344 | the input slot context copies the output one, the walk starts from a zeroed control context with only A0, and on a finished walk A0 stays set, every endpoint context without its add flag is unchanged, and one Configure Endpoint command for the input context is queued with doorbell 0 rung; otherwise nothing is queued; corrected max packet size (see Findings) |
| Handlers.OneAtATimeOfPhases | kernel/src/usb/controller.rs:181-193 | the one-port-at-a-time invariant depends only on the phases and the addressing port |
| Handlers.InterruptInDone | kernel/src/usb/trb.rs:194-245 | with no setup TRB recorded, a Normal TRB delivers the report of the default protocol and re-arms the transfer (failing exactly when the doorbell is unset), any other TRB only logs not-implemented; the controller invariant holds |
| Handlers.ControlTransferDone | kernel/src/usb/trb.rs:247-349 | reports are not delivered; a configuration completion that succeeds leaves A0 set and every unflagged endpoint context unchanged; an unrecognised request logs not-implemented |
| Handlers.DeviceDescriptorStep | kernel/src/usb/trb.rs:248-258 | the device-descriptor completion keeps the controller invariant |
| Handlers.ConfigurationStep | kernel/src/usb/trb.rs:259-344 | the configuration completion keeps the controller invariant and, when it succeeds, covers every endpoint context it wrote |
| Handlers.SetProtocolStep | kernel/src/usb/trb.rs:345-346 | the SET_PROTOCOL completion re-arms the interrupt transfer, keeps the invariant and fails exactly when the doorbell is unset |
| Handlers.OnTransfer | kernel/src/usb/trb.rs:187-350 | it fails where the source panics (no device in the slot); with a setup TRB recorded no report is delivered; without one the map is unchanged and a non-Normal TRB logs not-implemented; phases and the addressing port keep the one-at-a-time invariant |
| Handlers.TransferFor | kernel/src/usb/trb.rs:192-350 | with the device found: the recorded setup TRB, if any, is removed and completes its transfer without a report; otherwise a Normal TRB delivers the default protocol's report and any other TRB logs not-implemented |
| Handlers.EnableSlotCompleted | kernel/src/usb/trb.rs:123-127 | it succeeds exactly when the addressing port is in EnablingSlot (else panic) and `address_deivce` can run for it, and then the ports move as `AddressDeviceSpec` says, keeping the one-at-a-time invariant |
| Handlers.Addressed | kernel/src/usb/trb.rs:132-144 | the outcome is `AddressedSpec`: the addressing turn must be the port's (else panic), the next waiting port is reset and the port moves to InitializingDevice; the invariant is kept |
| Handlers.AddressDeviceCompleted | kernel/src/usb/trb.rs:128-145 | it succeeds only with a device in the slot; the port is the root hub port of its output slot context, the ports move as `AddressedSpec` says, and the device's doorbell is rung for its descriptor request |
| Handlers.AddressedDevice | kernel/src/usb/trb.rs:131-145 | for the found device: the ports move as `AddressedSpec` says followed by one doorbell write for target 1 |
| Handlers.StartDevice | kernel/src/usb/trb.rs:145 | `start_init` from the controller's side: the device-descriptor setup TRB is recorded when the map has room, and the only port-visible effect is at most one doorbell write |
| Handlers.ConfigureEndpointCompleted | kernel/src/usb/trb.rs:146-148 | it succeeds only with a device in the slot, whose default interface is then its first boot interface when it has one |
| Handlers.OnCommandCompletion | kernel/src/usb/trb.rs:120-152 | every completed command keeps the one-at-a-time invariant and only appends to the log; a command other than Enable Slot, Address Device or Configure Endpoint only logs not-implemented |
| Handlers.OnPortStatusChange | kernel/src/usb/trb.rs:84-100 | the outcome is `PortStatusChangeSpec` on the event's port (port 0 panics), and the invariant is kept |
| Handlers.PortChange | kernel/src/usb/trb.rs:86-99 | for a nonzero port the phase dispatch is `PortStatusChangeSpec` |
| Handlers.Dispatch | kernel/src/usb/controller.rs:331-345 | a port status change follows `PortStatusChangeSpec`; a command completion whose code is not 1 logs the code first; any other event type only logs not-implemented; the invariant is kept |
| Handlers.ProcessEvent | kernel/src/usb/controller.rs:323-366 | a pending event advances the event ring by one and is dispatched, an empty ring changes nothing but the halt log; the answer is true exactly when nothing panicked and USBSTS.HCH is clear, and a halt is logged last |
| Pci.Match2 | kernel/src/pci.rs:65-67 | true exactly when base and sub-class both match, and then `match1` holds too |
| Pci.Match3 | kernel/src/pci.rs:68-70 | true exactly when the whole class code matches, and then `match2` holds too |
| Pci.MakeAddress | kernel/src/pci.rs:73-82 | the enable bit is set, the low two bits are clear, the register offset keeps bits 2..7, and for device numbers below 32 and function numbers below 8 bus, device and function read back from their fields |
| Pci.MakeAddressInjective | kernel/src/pci.rs:73-82 | two in-range addresses are equal only for the same bus, device, function and dword of configuration space |
| Pci.ClassCodeFields | kernel/src/pci.rs:173-183 | the class code read from offset 8 and the word's low byte rebuild the word, so base, sub-class and interface are its top three bytes |
| Pci.ClassCodeRoundTrip | kernel/src/pci.rs:178-182 | a class code placed in the top three bytes of a register word reads back unchanged |
| Pci.IsSingleFunctionDevice | kernel/src/pci.rs:192-194 | true exactly when bit 7 of the header type is clear |
| Pci.FuncDevicesFound | kernel/src/pci.rs:94-107 | every device `scan_func` adds for an answering function, itself and those behind a bridge, answers at its address with the header type and class code read there |
| Pci.FuncsFromFound | kernel/src/pci.rs:117-122 | every device the loop over functions 1..7 adds was found the same way, functions with vendor id 0xffff skipped |
| Pci.DeviceFuncsFound | kernel/src/pci.rs:109-125 | every device `scan_device` adds answers at its address with the values read there |
| Pci.DevicesFromFound | kernel/src/pci.rs:129-134 | every device the loop over devices 0..31 adds answers at its address with the values read there |
| Pci.BusDevicesFound | kernel/src/pci.rs:127-137 | every device `scan_bus` lists answers at its address with the values read there |
| Pci.AllDevicesFound | kernel/src/pci.rs:196-217 | every device `scan_all_bus` lists answers at its address, has a device number below 32 and a function number below 8, and carries the header type and class code read from it |
| Pci.HostFuncsFound | kernel/src/pci.rs:207-214 | every device found through the functions of the host bridge answers at its address with the values read there |
| Pci.Scanner.constructor | kernel/src/pci.rs:197 | the device vector starts empty |
| Pci.Scanner.ScanFunc | kernel/src/pci.rs:94-107 | appends the function and, for a PCI-to-PCI bridge, everything on its secondary bus, and nothing else |
| Pci.Scanner.ScanDevice | kernel/src/pci.rs:109-125 | appends function 0 and, for a multi-function device, every answering function 1..7 |
| Pci.Scanner.ScanOtherFuncs | kernel/src/pci.rs:117-122 | appends the answering functions 1..7 in order |
| Pci.Scanner.ScanBus | kernel/src/pci.rs:127-137 | appends the devices of every answering device number 0..31 in order |
| Pci.Scanner.ScanAllBus | kernel/src/pci.rs:196-217 | the vector is bus 0's devices for a single-function host bridge, else the buses numbered by the answering host-bridge functions |
| Pci.CalcBarAddress | kernel/src/pci.rs:233-235 | BAR `index` sits at offset 0x10 + 4 * index while that fits a byte |
| Pci.NextBar | kernel/src/pci.rs:252 | the register after BAR `index` (below 5) is BAR `index + 1` |
| Pci.ReadBar | kernel/src/pci.rs:237-254 | index 6 and above is `IndexOutOfRange`; a BAR with bit 2 clear is returned as is; a 64-bit BAR 5 is `IndexOutOfRange`; otherwise the low half is the BAR and the high half the next register |
| Pci.Combine | kernel/src/pci.rs:253 | both 32-bit halves read back from the combined 64-bit value |
| Pci.MultiMsgCapableKept | kernel/src/pci.rs:303-305 | a capability placed in bits 17..19 reads back, and the control word written by `configure_msi_register` keeps the capability as read |
| Pci.SetMsiEnableValue | kernel/src/pci.rs:300-302 | bit 16 becomes the value given (0 or 1) and every other bit is kept |
| Pci.SetMultiMsgEnableValue | kernel/src/pci.rs:309-311 | the corrected setter puts a value up to 7 in bits 20..22 and keeps every other bit |
| Pci.MultiMsgEnableMask | kernel/src/pci.rs:307-311 | as written, setting 0 vectors in a word with bits 21 and 24 set keeps two vectors enabled and clears the per-vector-mask bit; the corrected setter gives 0 and keeps bit 24 |
| Pci.SetBothFields | kernel/src/pci.rs:373-379 | the two corrected setters together set bit 16, put the count in bits 20..22 and keep every other bit |
| Pci.ConfiguredControlFields | kernel/src/pci.rs:370-379 | the written control word enables MSI, enables the lesser of the capable and requested vector counts (never more than capable) and keeps every other bit |
| Pci.MsiCapability.Read | kernel/src/pci.rs:320-348 | the control word and message address from +0 and +4; the upper address from +8 only in the 64-bit form; the data from +8 or +12; mask and pending words after it only with per-vector masking, 0 otherwise |
| Pci.MsiCapability.SetMsiEnable | kernel/src/pci.rs:300-302 | the control word becomes `SetMsiEnableValue` of the old one, nothing else changes |
| Pci.MsiCapability.SetMultiMsgEnable | kernel/src/pci.rs:309-311 | the control word becomes the corrected setter's result, nothing else changes |
| Pci.MsiWrites | kernel/src/pci.rs:350-368 | three writes plus one for the 64-bit form plus two for per-vector masking; control word first, message address second, the upper address third in the 64-bit form, then the message data at its offset, then the mask and pending bits right after it |
| Pci.ConfiguredControlKeepsForm | kernel/src/pci.rs:370-386 | the configured control word keeps the 64-bit address and per-vector masking bits, so the write-back uses the layout that was read |
| Pci.ConfigureMsiRegister | kernel/src/pci.rs:370-386 | writes back the configured control word first, the new message address second and the new message data fourth (64-bit form) or third, at the offset that control word selects, with as many writes as that word's form needs; the whole write list is `write_msi_capability` of the capability as read, with the upper address, mask and pending words written back unchanged; corrected multiple-message-enable mask (see Findings) |
| Pci.CapabilityWalkFinds | kernel/src/pci.rs:392-400 | what the walk reports as MSI has capability id 05h and what it reports as MSI-X has id 11h, or is 0 when none was seen |
| Pci.ConfigureMsi | kernel/src/pci.rs:388-411 | succeeds exactly when the walk found an MSI capability, and then writes its control word at that capability, the new message address second and the new message data fourth or third as the written word's 64-bit bit says; nothing is written where the source stops at `todo!` |
| Pci.DeliveryCode | kernel/src/pci.rs:419-426 | every delivery mode's discriminant fits the 3-bit field |
| Pci.FixedMsgAddr | kernel/src/pci.rs:429 | the address is in the 0xFEE window with the APIC id in bits 12..19 and the low 12 bits clear |
| Pci.FixedMsgData | kernel/src/pci.rs:430-433 | the vector is in bits 0..7, the delivery mode in bits 8..10, bits 14 and 15 are set exactly for level trigger, and no other bit is set |
| Pci.MsgData | kernel/src/pci.rs:430-433 | the same fields on 32-bit words: vector, delivery code and the two level bits each read back, nothing else set |
| Pci.ConfigureMsiFixedDestination | kernel/src/pci.rs:428-437 | when an MSI capability is found, the message address (second write) and data (fourth or third write, by the 64-bit bit) are the fixed-destination ones for the APIC id, trigger mode, delivery mode and vector |
| Acpi.SumBytesUnchecked | kernel/src/acpi.rs:104-110 | the loop's result is the wrapping (modulo 256) sum of the `size` bytes from `ptr` |
| Acpi.SumIsModular | kernel/src/acpi.rs:104-110 | the byte-wise wrapping sum equals the plain integer sum of the bytes modulo 256 |
| Acpi.SumSplit | kernel/src/acpi.rs:104-110 | the wrapping sum over `m + n` bytes is the wrapping sum of the sums over the first `m` and the following `n` bytes |
| Acpi.SumBytes | kernel/src/acpi.rs:112-118 | no result (the panic) exactly when `size` exceeds the object's size; otherwise the integer sum of the bytes modulo 256 |
| Acpi.RsdpExtensionSumsToZero | kernel/src/acpi.rs:17-29 | for an RSDP that `is_valid` accepts (signature "RSD PTR ", revision 2, both checksums zero) the ACPI 2.0 extension, bytes 20..35, also sums to zero |
| Acpi.HeaderValidChecksum | kernel/src/acpi.rs:45-54 | a description header that `is_valid` accepts has bytes `0 .. length` adding up to a multiple of 256 |
| Acpi.Entry | kernel/src/acpi.rs:71-81 | no result (the panic) exactly when `idx` is not below the header's `length`; otherwise the little-endian 8-byte pointer number `idx` after the 36-byte header |
| Acpi.EntryCount | kernel/src/acpi.rs:131 | the number of entries the walk visits never exceeds the header's `length`, so every visited `entry` call is in range |
| Acpi.CorrectedEntriesInTable | kernel/src/acpi.rs:131-132 | with the count corrected to `(length - 36) / 8`, every pointer read lies inside the XSDT's `length` bytes |
| Acpi.AsWrittenReadsPastTable | kernel/src/acpi.rs:131-132 | as written (`0..length`), the last index visited passes `entry`'s check yet addresses a pointer at or past the end of the table |
| Acpi.FirstIndexSpec | kernel/src/acpi.rs:131-137 | the search of the entry loop finds an index exactly when one passes the test, and the one it finds is the first that passes |
| Acpi.FindFadt | kernel/src/acpi.rs:131-137 | the loop returns the pointer of the first entry that validates as "FACP", or None when none does |
| Acpi.GetFadtProperties | kernel/src/acpi.rs:121-138 | a result means the RSDP and XSDT are valid, the result validates as "FACP" and it is held by an entry of the XSDT with no earlier entry validating; with both tables valid, None means no entry validates |
| Acpi.GetFadt | kernel/src/acpi.rs:121-138 | None for an invalid RSDP or XSDT, otherwise the first validating FACP entry among the XSDT's pointers (corrected count) |
| Interrupt.TypeCode | kernel/src/interrupt.rs:28-36 | every descriptor type's discriminant fits the 4-bit type field |
| Interrupt.TypeCodeInjective | kernel/src/interrupt.rs:28-36 | distinct descriptor types have distinct discriminants, so the type can be read back from the field |
| Interrupt.AttrWordFields | kernel/src/interrupt.rs:68-70 | for a privilege level below 4, the attribute word holds the stack index in bits 0..7, the type in bits 8..11, 0 in bit 12, the privilege level in bits 13..14 and the present flag in bit 15 |
| Interrupt.GateRoundTrip | kernel/src/interrupt.rs:73-80 | the three offset fields of the new entry put back together give the handler address; the selector is the one given, the attribute word is `set_attr`'s and the reserved word is kept |
| Interrupt.OffsetJoin | kernel/src/interrupt.rs:76-78 | the low 16, middle 16 and high 32 bits of the offset, joined, are the offset |
| Interrupt.SetIdtEntry | kernel/src/interrupt.rs:73-80 | only entry `idx` of the 256 changes, to the gate built from its old value, and its handler address reads back as `offset` |
| Interrupt.IdtLimit | kernel/src/interrupt.rs:94 | the `lidt` limit is the table's byte size (256 entries of 16 bytes) minus one, and fits in 16 bits |
| Segment.TypeCode | kernel/src/segment.rs:14-17 | each descriptor type's discriminant fits the 4-bit type field |
| Segment.CodeDescriptorFields | kernel/src/segment.rs:19-36 | the descriptor `set_code_segment` builds gives back the low 32 bits of the base, the low 20 bits of the limit, the type and the privilege level, and is a present, non-system, 64-bit (L set, D clear), page-granular segment |
| Segment.CodeLongBit | kernel/src/segment.rs:33 | the L bit is set whatever the privilege level passed in |
| Segment.DataWordBits | kernel/src/segment.rs:41 | on a code word, the as-written update leaves L set and sets D/B, the corrected one clears L and sets D/B, and both keep every other bit |
| Segment.SetCodeSegment | kernel/src/segment.rs:19-36 | entry `idx` becomes the code descriptor and the other entries are unchanged |
| Segment.SetDataSegment | kernel/src/segment.rs:38-42 | entry `idx` becomes the corrected data descriptor and the other entries are unchanged |
| Segment.SetupSegmentsWords | kernel/src/segment.rs:58-62 | the code entry is the flat 64-bit ring-0 code segment 0x00af9a000000ffff; the corrected data entry is the flat data segment 0x00cf92000000ffff, the as-written one that word with L set |
| Segment.SetupSegments | kernel/src/segment.rs:58-64 | the table holds the null descriptor, the ring-0 code segment and the ring-0 data segment; corrected data-segment descriptor (see Findings) |
| Segment.GdtLimit | kernel/src/segment.rs:45 | the corrected limit is the offset of the table's last byte, its size minus one |
| Segment.GdtLimitAsWritten | kernel/src/segment.rs:45 | as written the limit is the table's full size, 24, which reaches the first byte of a fourth entry |
| Paging.MultipleOf4K | kernel/src/paging.rs:24 | every page-directory entry's address is 4 KiB aligned, so OR-ing in 0x83 only sets flag bits |
| Paging.Indexes | kernel/src/paging.rs:21-24 | an address below 64 GiB uses PML4 entry 0 and PDP entry `va / 1 GiB` (below 64), and is rebuilt from its 1 GiB part, its 2 MiB index and its offset |
| Paging.IdentityMapped | kernel/src/paging.rs:19-28 | with the tables as `setup_identity_page_table` leaves them, the walk maps every address below 64 GiB to itself through present entries ending in a 2 MiB page |
| Paging.FillDirectory | kernel/src/paging.rs:23-25 | the inner loop fills directory `i` with its 512 large pages, entry `[i][j]` mapping `i` GiB plus `j` times 2 MiB with flags 0x83, and changes no other directory |
| Paging.SetupIdentityPageTable | kernel/src/paging.rs:19-26 | PML4 entry 0 points at the PDP table and PDP entries 0..63 at the page directories, all with flags 0x3, and every directory entry maps its own 2 MiB; the other PML4 and PDP entries are unchanged |
| Math.AddMovesContain | kernel/src/math.rs:15-23 | moving a rectangle by a vector moves exactly the points it contains by that vector |
| Math.AddUndo | kernel/src/math.rs:15-23 | adding a vector and then its negation gives back the starting point, and adding zero changes nothing |
| Math.AddCommutesAssociates | kernel/src/math.rs:15-23 | the sum is commutative and associative, so moves compose in any order |
| Math.NewRectangle | kernel/src/math.rs:32-35 | a rectangle is made exactly when both size components are non-negative (the assertion), and holds the position and size given |
| Math.SetSize | kernel/src/math.rs:47-50 | the new size is taken exactly when both components are non-negative, and the position is kept |
| Math.Intersect | kernel/src/math.rs:36-46 | there is an intersection exactly when the two rectangles share a point; it then has a positive size and contains exactly the points both contain |
| Math.IntersectCommutes | kernel/src/math.rs:36-46 | the intersection does not depend on the order of the two rectangles |
| Math.IntersectExamples | kernel/src/math.rs:61-72 | the two 100x100 squares at (0, 0) and (50, 50) meet in the 50x50 square at (50, 50), and the square at (200, 200) does not meet the first |
| Math.ContainExamples | kernel/src/math.rs:74-82 | containment is half-open: (0, 0) and (50, 50) are in the square, (100, 0), (0, 100) and (-1, -1) are not |
| Writer.EncodeDecode | kernel/src/writer/mod.rs:29-39 | both formats store every channel: the colour read back from the stored bytes is the colour written |
| Writer.FormatsMirror | kernel/src/writer/mod.rs:29-39 | the BGR bytes are the RGB bytes in reverse order |
| Writer.PixelsApart | kernel/src/writer/mod.rs:25-27 | two distinct pixels of a line of `ppsl` pixels lie at least 4 bytes apart, so writing one never touches the other |
| Writer.PixelInBounds | kernel/src/writer/mod.rs:25-27 | every visible pixel's four bytes lie inside a buffer of `4 * ppsl * vres` bytes |
| Writer.WriteReadsBack | kernel/src/writer/mod.rs:59-66 | after a visible write the pixel reads back as the colour written, its fourth byte is unchanged and so is every byte of every other pixel |
| Writer.PixelWriter.constructor | kernel/src/writer/mod.rs:47-57 | the writer keeps the configuration and the memory it was given |
| Writer.PixelWriter.Write | kernel/src/writer/mod.rs:59-66 | a pixel outside the visible resolution leaves memory unchanged; any other gets the colour's three bytes in the configured order at `4 * (ppsl * y + x)` |
| Graphics.BitsPerPixel | kernel/src/graphics.rs:143-149 | RGB and BGR have 32 bits per pixel (4 bytes after rounding up), every other format is an error |
| Graphics.VisiblePixelsInBuffer | kernel/src/graphics.rs:48-55 | with the corrected length `4 * ppsl * vres` every visible pixel's four bytes lie inside the buffer |
| Graphics.AsWrittenLengthTooShort | kernel/src/graphics.rs:50 | the length as written, `4 * hres * vres`, is too short when ppsl exceeds hres: with ppsl 2, hres 1, vres 2 the buffer has 8 bytes and pixel (0, 1) starts at byte 8 |
| Graphics.CorrectedRowsFit | kernel/src/graphics.rs:84-108 | every row of the corrected copy lies inside both buffers |
| Graphics.CorrectedRowsFitAll | kernel/src/graphics.rs:84-108 | all rows of the corrected copy lie inside both buffers |
| Graphics.CorrectedAnchored | kernel/src/graphics.rs:84-96 | a non-empty corrected copy starts at the clip's corner in the destination and at its counterpart in the source, with the clip's height as row count and its width in bytes per row |
| Graphics.CopyRowsByte | kernel/src/graphics.rs:101-108 | after the first `r` rows of the copy a destination byte inside those runs holds the source byte at the same offset from the anchors, and every other byte is unchanged |
| Graphics.CopyAt | kernel/src/graphics.rs:73-109 | the corrected `copy`, byte by byte: a destination byte inside the clip holds the source byte at the same place relative to (pos_x, pos_y), x scaled to bytes, and every destination byte outside it is unchanged |
| Graphics.AsWrittenSourceSizeFromSelf | kernel/src/graphics.rs:81-82 | as written the source size is the destination's: a 2x2 source copied into a 4x4 screen is read as four rows of sixteen bytes, the last run ending at byte 40 of a 16-byte buffer, where the corrected copy takes two rows of eight |
| Graphics.AsWrittenColumnUnscaled | kernel/src/graphics.rs:95 | as written the first column is not scaled to bytes: a copy at (1, 1) into a 4x4 screen starts at byte 17 instead of byte 20, the start of pixel (1, 1) |
| Graphics.AsWrittenEmptyClipOverflows | kernel/src/graphics.rs:86-93 | a source wholly right of the screen gives a clip whose end precedes its start; as written the width subtraction overflows, corrected nothing is copied |
| Graphics.MoveUpRows | kernel/src/graphics.rs:116-132 | after `move_up` row y holds what row y + value held, and the last `value` rows are all `fill` |
| Graphics.FrameBuffer.constructor | kernel/src/graphics.rs:48-69 | the buffer has the configuration's geometry and format; without firmware memory it is a fresh zero-filled buffer of the corrected length, otherwise the memory given |
| Graphics.FrameBuffer.Write | kernel/src/graphics.rs:110-115 | a pixel outside the resolution changes nothing; a visible one gets its colour in the format's byte order at `4 * (ppsl * y + x)` |
| Graphics.FrameBuffer.Copy | kernel/src/graphics.rs:73-109 | the destination becomes the corrected copy's result, which `CopyAt` describes byte by byte |
| Graphics.FrameBuffer.MoveUp | kernel/src/graphics.rs:116-132 | the buffer becomes `MoveUpBytes`, which `MoveUpRows` describes row by row |
| Graphics.CopyRowsInto | kernel/src/graphics.rs:101-108 | the loop of `copy` leaves the destination with all its rows copied |
| Graphics.CopyRow | kernel/src/graphics.rs:102-107 | one pass copies row `k` on top of the rows before it |
| Graphics.CopyNonoverlapping | kernel/src/graphics.rs:103 | `n` source bytes are stored at the destination offset and nothing else changes |
| Graphics.ShiftBytes | kernel/src/graphics.rs:120-124 | each byte that has one `shift` bytes on takes that byte's old value; the last `shift` bytes are unchanged |
| Graphics.FillTail | kernel/src/graphics.rs:125-129 | the bytes before `n` are kept and every byte from `n` on is `fill` |
| Font.GlyphBitIsShift | kernel/src/font.rs:65 | the recursive pixel test agrees with the source's test `(row << dx) & 0x80 != 0` for every row byte and column 0..7 |
| Font.GlyphBitExamples | kernel/src/font.rs:65 | pixels run left to right from the top bit: 0x80 lights only column 0, 0x01 only column 7, 0x00 none and 0xff all |
| Font.CursorAfterClosedForm | kernel/src/font.rs:46-55 | after a string the cursor is 16 pixels down per newline and 8 pixels right per byte since the last newline, counted from the initial column when a newline occurred and from the starting column otherwise |
| Font.ApplyAllAppend | kernel/src/graphics.rs:73-80 | applying two runs of pixel writes is applying the first and then the second |
| Font.CellAtIs | kernel/src/font.rs:65-73 | pixel (dx, dy) of the glyph box gets the foreground when its glyph bit is set, the background when the bit is clear and there is one, and no write otherwise |
| Font.CellPosition | kernel/src/font.rs:63-66 | the 128 cells of a glyph box are 128 distinct pixels, and a pixel lies in the 8x16 box exactly when it is the cell of its offsets |
| Font.GlyphPixel | kernel/src/font.rs:57-79 | after `write_ascii` of a printable byte each visible pixel of the box shows its colour (foreground on a set bit, background on a clear one when there is one); every other pixel, and every pixel for a non-printable byte, keeps its bytes |
| Font.GlyphWrites | kernel/src/font.rs:62 | a byte outside `' '..='~'` draws nothing |
| Font.ApplyHere | kernel/src/graphics.rs:73-80 | a write to a visible pixel reads back as its colour |
| Font.ApplyElsewhere | kernel/src/graphics.rs:73-80 | a write leaves the four bytes of every other pixel alone |
| Font.TextWriter.constructor | kernel/src/font.rs:34-44 | the writer, colours and both cursors are those given: initial and current position are (x, y) |
| Font.TextWriter.WriteAscii | kernel/src/font.rs:57-79 | the answer is true exactly for `'\n'`, and the screen afterwards is the glyph's writes applied to it (none for a byte that is not printable) |
| Font.TextWriter.DrawCells | kernel/src/font.rs:63-76 | the two loops apply the writes of all 128 cells, row by row |
| Font.TextWriter.DrawRow | kernel/src/font.rs:64-75 | the inner loop adds the 8 writes of glyph row `dy` to those of the rows above |
| Font.TextWriter.DrawCell | kernel/src/font.rs:65-74 | one pass of the inner loop adds exactly the write of pixel (dx, dy) |
| Font.TextWriter.Plot | kernel/src/font.rs:66 | one call of `PixelWriter::write` is one pixel write applied to the screen |
| Font.TextWriter.Write | kernel/src/font.rs:46-55 | the cursor ends where `CursorAfter` puts it and the screen is each byte's glyph drawn at the cursor in force before it; `write_str` always succeeds |
| Console.Scroll | kernel/src/console.rs:102-123 | the scrolled grid keeps its shape, row `i` holds the old row `i + 1` for every row but the last, and the last row is all `'\0'` |
| Console.Put | kernel/src/console.rs:76-87 | one byte of `put_string` keeps the console's invariant: `cursor_row < ROW` and `cursor_col <= COL` |
| Console.PutAll | kernel/src/console.rs:71-88 | any string written keeps the invariant `cursor_row < ROW`, `cursor_col <= COL` |
| Console.PutReadsBack | kernel/src/console.rs:80-94 | a byte other than `'\n'` is stored in the buffer just left of the new cursor, on the cursor's row, whether or not a new line came first |
| Console.NewLineMoves | kernel/src/console.rs:78-79 | `'\n'` puts the column at 0 and moves down a row below the last row, leaving the buffer alone, and stays on the last row there |
| Console.PutLine | kernel/src/console.rs:71-94 | text without a newline and at most `COL` bytes, written from column 0, lands byte for byte on the cursor's row with the cursor just after it; the rest of that row and all other rows are unchanged |
| Console.Console.constructor | kernel/src/console.rs:51-65 | a new console has a buffer of `'\0'` and the cursor at row 0, column 0 |
| Console.Console.PutString | kernel/src/console.rs:71-88 | the buffer and cursor after `put_string` are those of `PutAll`, one byte at a time |
| Console.Console.WriteAsciiWithUpdate | kernel/src/console.rs:90-94 | the byte is stored at the cursor and `cursor_col` grows by one; nothing else changes |
| Console.Console.NewLine | kernel/src/console.rs:96-124 | column 0; below the last row the row grows by one; on the last row the buffer scrolls up one row with a blank last row and the row stays |
| Console.Console.ShiftRows | kernel/src/console.rs:102-115 | every row but the last takes the bytes of the row below it; the last row is unchanged |
| Console.Console.ClearLastRow | kernel/src/console.rs:116-123 | the last row becomes `'\0'` and every other row is unchanged |
| Panic.Wrap | kernel/src/panic.rs:43-46 | the cursor moves to column 2 of the line 16 below exactly when a glyph 8 wide would pass the right edge, and stays put otherwise |
| Panic.RunBytes | kernel/src/panic.rs:38-64 | every glyph drawn is printable, ends above the bottom edge, ends inside the width when the screen has at least 10 columns, and lies at or after the starting cursor; the cursor never moves up |
| Panic.RunOrdered | kernel/src/panic.rs:38-64 | one `write_str` never draws a glyph over another glyph of the same call: each is 8 or more to the right on its line or 16 or more lines below the earlier ones |
| Panic.RunOneLine | kernel/src/panic.rs:50-63 | text without newlines that fits on the current line draws its printable bytes 8 pixels apart from the cursor on, does not stop, and leaves the cursor just after it |
| Panic.RunAppend | kernel/src/panic.rs:32-66 | while the first piece does not stop, writing two pieces one after the other gives the same cursor, glyphs and stop as writing the joined text |
| Panic.PastBottomStops | kernel/src/panic.rs:47-49 | once the cursor is below the last full line, the first byte other than a newline stops the call without drawing, at the wrapped cursor |
| Panic.CellInBuffer | kernel/src/panic.rs:52-61 | the word of each of a glyph's 128 cells lies inside the frame buffer, on row `y + k / 8` and column `x + k % 8` |
| Panic.WordsStep | kernel/src/panic.rs:54-60 | cell `dy * 8 + dx` is the word `ppsl * (y + dy) + x + dx`, gets white for a set font bit and 0 for a clear one, and writing it extends the drawn cells by one |
| Panic.CellRoundTrip | kernel/src/panic.rs:54-60 | a cell's word lies in the glyph's box and maps back to the same cell, and a word of the box is the word of its cell |
| Panic.WordsAt | kernel/src/panic.rs:52-61 | after the first `n` cells, a word of the box whose cell is among them shows the glyph, and every other word keeps its value |
| Panic.GlyphDrawn | kernel/src/panic.rs:52-61 | a fully drawn glyph shows in its 8x16 box, white on black, and nothing outside the box changes |
| Panic.DrawShows | kernel/src/panic.rs:38-64 | glyphs drawn clear of each other all stay visible: every word in a glyph's box shows that glyph, and a word in no box keeps its value |
| Panic.RunFits | kernel/src/panic.rs:29-30 | every glyph a run draws fits a frame buffer with at least 10 columns and `ppsl * vres` words |
| Panic.WriteStrShows | kernel/src/panic.rs:32-66 | after `write_str`, every glyph of the text shows white on black in its own box and every word outside those boxes is as before |
| Panic.RunNewline | kernel/src/panic.rs:39-42 | a newline moves the run on from column 2 of the next line and draws nothing |
| Panic.RunStop | kernel/src/panic.rs:43-49 | another byte past the bottom edge stops the run, after the wrap, with nothing drawn |
| Panic.RunDraw | kernel/src/panic.rs:43-63 | another byte above the bottom edge draws its glyph at the wrapped cursor when it is printable and goes on 8 further right |
| Panic.DrawFirst | kernel/src/panic.rs:52-61 | drawing a glyph and then the rest is drawing them all |
| Panic.PanicWriter.constructor | kernel/src/panic.rs:29 | the static writer starts with a null configuration and the cursor at (0, 0) |
| Panic.PanicWriter.InitDefaultPanicPrint | kernel/src/panic.rs:69-73 | the configuration pointer is set to the given frame buffer and the cursor stays where it is |
| Panic.PanicWriter.DefaultPanicPrint | kernel/src/panic.rs:75-81 | with a null pointer nothing changes; otherwise the cursor and the buffer are what `write_str` of the text gives |
| Panic.PanicWriter.WriteStr | kernel/src/panic.rs:32-66 | the new cursor and buffer are the byte loop's cursor and its glyphs drawn in order, or nothing at all for a pixel format without a pixel size |
| Panic.PanicWriter.WriteByte | kernel/src/panic.rs:39-63 | one pass of the loop: either the loop breaks with nothing drawn, or the rest of the run continues from the new cursor with this byte's glyph drawn |
| Panic.PanicWriter.DrawGlyph | kernel/src/panic.rs:52-61 | the two loops draw all 128 cells of the glyph |
| Panic.PanicWriter.DrawGlyphRow | kernel/src/panic.rs:54-60 | the inner loop draws the 8 cells of row `dy` |
| Window.ZeroBufferMirrorsBlack | kernel/src/window.rs:34-38 | the zero-filled shadow buffer of a new window shows its opaque black pixels |
| Window.WriteKeepsMirror | kernel/src/window.rs:83-86 | after one `write` the shadow buffer still shows the window's pixels: the written pixel reads back as its colour and every other pixel keeps its bytes |
| Window.GlyphCoversAsText | kernel/src/window.rs:100-114 | `write_ascii` paints exactly the pixels the text writer paints with no background, and only for printable bytes |
| Window.GlyphGridIdempotent | kernel/src/window.rs:100-114 | drawing the same glyph twice is drawing it once |
| Window.GlyphGridUnprintable | kernel/src/window.rs:103 | a byte outside ' '..'~' leaves the window unchanged |
| Window.GlyphGridNone | kernel/src/window.rs:104-105 | before any cell the grid is unchanged |
| Window.GlyphGridStep | kernel/src/window.rs:106-110 | cell (dx, dy) paints one pixel when its bit is set and it lies inside the window, and changes nothing otherwise |
| Window.GlyphGridGains | kernel/src/window.rs:106-110 | a set bit inside the window paints exactly that pixel |
| Window.GlyphGridKeeps | kernel/src/window.rs:106-110 | a clear bit or a pixel outside the window changes nothing |
| Window.StringGridUnprintable | kernel/src/window.rs:115-128 | text without printable bytes, newlines included, changes nothing |
| Window.RectGridIsContain | kernel/src/window.rs:129-135 | after all its rows, exactly the pixels the rectangle contains have the colour and every other pixel is as before |
| Window.RectGridStep | kernel/src/window.rs:132 | one pass of the inner loop paints pixel (pos.x + x, pos.y + y) |
| Window.RectGridNextRow | kernel/src/window.rs:130-131 | a finished row is the start of the next |
| Window.RectGridNone | kernel/src/window.rs:130 | before the first row nothing is painted |
| Window.RectGridEmpty | kernel/src/window.rs:130-131 | a rectangle with no rows or no columns paints nothing |
| Window.IdCounter.constructor | kernel/src/window.rs:25 | the id counter starts at 0 |
| Window.IdCounter.FetchAdd | kernel/src/window.rs:36 | returns the counter's value and increments it |
| Window.Window.constructor | kernel/src/window.rs:24-40 | the window is `height` rows of `width` opaque black pixels, takes the next id, has its area at (pos_x, pos_y) of its size and a shadow buffer of that size and format that shows its pixels |
| Window.Window.Write | kernel/src/window.rs:83-86 | pixel (x, y) of the window and of the shadow buffer take the colour; nothing else changes |
| Window.Window.MoveTo | kernel/src/window.rs:87-92 | returns the old area and moves the area to (pos_x, pos_y) keeping its size |
| Window.Window.MoveRelative | kernel/src/window.rs:93-96 | the area moves by the difference and keeps its size |
| Window.Window.WriteAscii | kernel/src/window.rs:100-114 | the glyph's set bits inside the window take the colour for a printable byte; nothing else changes |
| Window.Window.GlyphRow | kernel/src/window.rs:105-111 | the inner loop draws the 8 cells of glyph row `dy` |
| Window.Window.GlyphCell | kernel/src/window.rs:106-110 | one pass of the inner loop draws cell (dx, dy) |
| Window.Window.WriteString | kernel/src/window.rs:115-128 | each byte's glyph is drawn where the loop has reached before it: a newline goes back to `start_x` and 16 down, another byte 8 right |
| Window.Window.DrawRect | kernel/src/window.rs:129-135 | every pixel the rectangle contains takes the colour, and nothing else changes |
| Window.Window.RectRow | kernel/src/window.rs:131-133 | the inner loop paints row `rows` of the rectangle |
| Window.FirstWithId | kernel/src/window.rs:182 | the index of the first window with the id, with no earlier one having it, or none when no window has it |
| Window.IndexOf | kernel/src/window.rs:224 | the search returns the first window with the id |
| Window.Remove | kernel/src/window.rs:225 | one element shorter, with the elements after `i` moved down by one |
| Window.Insert | kernel/src/window.rs:239 | one element longer, with `w` at `i` and the elements from `i` on moved up by one |
| Window.RemoveInsert | kernel/src/window.rs:235-239 | inserting and then removing at the same place gives the stack back |
| Window.HideRemoves | kernel/src/window.rs:222-227 | with distinct ids (which `hide` and the corrected `up_down` keep), a hidden window is no longer on the stack, the stack is unchanged exactly when it was not there, and otherwise is one shorter |
| Window.RemoveKeepsDistinct | kernel/src/window.rs:225 | removing a window from a stack with distinct ids keeps them distinct, and no remaining window has the removed one's id |
| Window.InsertKeepsDistinct | kernel/src/window.rs:239 | inserting a window whose id is not on a stack with distinct ids keeps them distinct |
| Window.HideKeepsDistinct | kernel/src/window.rs:222-227 | hiding keeps the stack's ids distinct |
| Window.UpDownKeepsDistinct | kernel/src/window.rs:228-240 | the corrected `up_down` keeps the stack's ids distinct |
| Window.UpDownPlaces | kernel/src/window.rs:228-240 | the corrected `up_down` puts the window at the height asked for, or on top when that is past the end, and leaves every other window in its order |
| Window.AsWrittenUpDownOffByOne | kernel/src/window.rs:234-239 | as written, raising the bottom window of [w, a, b] to height 1 leaves the stack as it was; the corrected version gives [a, w, b] |
| Window.AsWrittenUpDownUnderflow | kernel/src/window.rs:236 | as written, moving a stacked window to height 0 underflows; the corrected version puts it at the bottom |
| Window.WindowManager.constructor | kernel/src/window.rs:158-168 | no windows and an empty stack, in the screen's format |
| Window.WindowManager.NewWindow | kernel/src/window.rs:169-177 | a new window with the next id is appended to the windows and the stack is unchanged |
| Window.WindowManager.FindWindow | kernel/src/window.rs:181-187 | the first window with the id, or none |
| Window.WindowManager.Hide | kernel/src/window.rs:222-227 | the first stacked window with the id leaves the stack; the windows are unchanged, and the manager invariant (no id stacked twice) is kept |
| Window.WindowManager.UpDown | kernel/src/window.rs:228-240 | the stack becomes the corrected `up_down` of the window with the id; the windows are unchanged, and the manager invariant (no id stacked twice) is kept |
| Mouse.TopShade | kernel/src/mouse.rs:74-82 | the top two bits select the colour (01 black, 10 white, 00 transparent), and nothing is written exactly when both are set |
| Mouse.ShiftOnce | kernel/src/mouse.rs:83 | each `v <<= 2` moves on to the next pixel's two bits |
| Mouse.ByteShadeIsCode | kernel/src/mouse.rs:70-84 | reading a byte by shifts gives pixel i the code in its bits 7-2i..6-2i: 1 black, 2 white, 0 transparent, 3 no write |
| Mouse.CursorShape | kernel/src/mouse.rs:8-23 | the picture's left column is black, its tip starts with the outline and white inside, and every pixel has a colour |
| Mouse.CursorNoPair | kernel/src/mouse.rs:8-23 | no byte of the picture has a pixel with code 3 |
| Mouse.NoPairSet | kernel/src/mouse.rs:74-82 | a byte with no code-3 pixel writes a colour for each of its four pixels |
| Mouse.PaintedStep | kernel/src/mouse.rs:71-84 | drawing the next pixel in row order adds exactly that pixel, in its shade's colour, when it has one |
| Mouse.PixelOrder | kernel/src/mouse.rs:72-73 | the pixel numbering `y * 12 + x` is one-to-one and orders pixels row by row |
| Mouse.PaintedNone | kernel/src/mouse.rs:66-67 | before the first pixel the window is as it was |
| Mouse.CursorDrawn | kernel/src/mouse.rs:66-87 | after drawing, every pixel of the 12x14 window shows its shade's colour |
| Mouse.ModifireBits | kernel/src/mouse.rs:25-32 | bit 0 is the left button, bit 1 the right one and bit 2 the centre one; with the reserved bits clear the byte is 0 exactly when no button is down |
| Mouse.Clamp | kernel/src/mouse.rs:96-107 | the coordinate lands on the screen: unchanged when already on it, 0 below it, `screen - 1` past it |
| Mouse.ClampNearest | kernel/src/mouse.rs:96-107 | no on-screen coordinate is closer to the unclamped one than the clamped result |
| Mouse.NextDragKeeps | kernel/src/mouse.rs:116-135 | while the left button is up nothing is dragged; a press drags the window found only when it is draggable; holding keeps the same window |
| Mouse.MouseCursor.constructor | kernel/src/mouse.rs:48-65 | the cursor starts at (0, 0) on the given screen with no buttons down and nothing dragged, and its window holds the picture |
| Mouse.MouseCursor.DrawMouseCursor | kernel/src/mouse.rs:66-87 | every pixel of the picture is written into the window in its shade's colour, row by row |
| Mouse.MouseCursor.DrawLine | kernel/src/mouse.rs:69-85 | the middle loop draws the 12 pixels of one line, in order |
| Mouse.MouseCursor.DrawByte | kernel/src/mouse.rs:70-84 | the innermost loop draws the 4 pixels of one byte, in order |
| Mouse.MouseCursor.DrawPixel | kernel/src/mouse.rs:72-83 | one pass draws exactly the next pixel from the top two bits of `v` |
| Mouse.MouseCursor.MouseHandler | kernel/src/mouse.rs:93-148 | the position becomes the old one plus the move, clamped to the screen; the report is kept; the dragged window follows `NextDrag` and, while the button is held, moves by the move actually made; the cursor's window moves to the new position; no window's pixels change |
| Mouse.MouseCursor.UpdateDrag | kernel/src/mouse.rs:116-135 | a press picks the draggable window found, holding moves the dragged window by the cursor's move, a release drops it; nothing else about the window changes |
| MouseTool.CharCode | tools/mouse.py:26 | a space codes 0, `@` codes 1, every other character 2; code 3 never appears |
| MouseTool.Ops | tools/mouse.py:23-26 | a row of at most 12 characters leaves exactly three elements in `op` |
| MouseTool.EncodeAll | tools/mouse.py:20-27 | the script produces output exactly when no row is longer than 12 characters (a longer one indexes `op[3]` and raises IndexError), and then one entry per row |
| MouseTool.Encode | tools/mouse.py:20-27 | the loops compute `EncodeAll` of the rows |
| MouseTool.OpsGroups | tools/mouse.py:24-26 | element k of `op` is characters 4k..4k+3 read as a base-4 number, the leftmost character in the top digit |
| MouseTool.GroupStep | tools/mouse.py:25-26 | each character joins group `i // 4` and leaves the other groups alone |
| MouseTool.DigitsBound | tools/mouse.py:26 | a group of at most four characters is a number below 4^n, at most 255 |
| MouseTool.EncodeBytes | tools/mouse.py:20-27 | every element of the output fits in a byte |
| MouseTool.DigitsFour | tools/mouse.py:26 | a group of four characters is `64 a + 16 b + 4 c + d` of their codes |
| MouseTool.FullRow | tools/mouse.py:22-26 | element k of a 12-character row is the byte of characters 4k..4k+3 |
| MouseTool.EncodeExamples | tools/mouse.py:4-15 | a blank row encodes to [0, 0, 0], the tip row to [64, 0, 0] and row 11 to [106, 165, 85] |
| MouseTool.RowEncodes | tools/mouse.py:22-26 | a 12-character row whose characters spell out three byte values encodes to them |
| MouseTool.GlyphRowsTop | tools/mouse.py:4-8 | rows 0 to 4 of the picture encode to the kernel's rows 0 to 4 |
| MouseTool.GlyphRowsMiddle | tools/mouse.py:9-13 | rows 5 to 9 encode to the kernel's rows 5 to 9 |
| MouseTool.GlyphRowsBottom | tools/mouse.py:14-17 | rows 10 to 13 encode to the kernel's rows 10 to 13 |
| MouseTool.GlyphIsCursorTable | tools/mouse.py:3-29 | the script's output for its picture is the kernel's `MOUSE_CURSOR` (kernel/src/mouse.rs lines 8-23), row for row |
| MouseTool.CodeOfValue | kernel/src/mouse.rs:70-84 | the kernel's decoder reads the base-4 digits of a byte's value, top digit first |
| MouseTool.Base4 | tools/mouse.py:26 | a four-digit base-4 number gives its digits back by integer division |
| MouseTool.RoundTrip | tools/mouse.py:22-27 | every element of a full row's output fits a byte, and decoding it as `draw_mouse_cursor` does gives the picture back: `@` black, space transparent, any other character white |
| MouseTool.PixelRoundTrip | tools/mouse.py:24-26 | pixel i of byte k decodes to the shade of character 4k + i |
| MouseTool.CodesAt | tools/mouse.py:24-26 | the decoder's four codes for byte k are the codes of characters 4k..4k+3 |
| MouseTool.ShortRowShifts | tools/mouse.py:24-26 | the round trip needs full rows: "@@" encodes to [5, 0, 0], whose first pixel decodes as transparent though the row starts with `@` |
| Keyboard.LastNonZeroBelow | kernel/src/keyboard.rs:29 | the reverse search among the first `n` entries stops at a non-zero entry with only zeros after it, and finds nothing exactly when all of them are zero |
| Keyboard.LastNonZero | kernel/src/keyboard.rs:29 | the last non-zero usage id of the report: none exactly when every entry is zero, otherwise a non-zero entry followed only by zeros |
| Keyboard.CountNonZero | kernel/src/keyboard.rs:36-37 | the number of keys down is at most 6 and is 0 exactly when every entry is zero |
| Keyboard.KeyFor | kernel/src/keyboard.rs:29-30 | a key is found exactly when some usage id is non-zero and the last one is inside the table, and it is that id's KEYCODE entry |
| Keyboard.Echo | kernel/src/keyboard.rs:31-33 | at most one character is printed, and one exactly when a key was found with a non-zero KEYCODE entry |
| Keyboard.KeycodeLength | kernel/src/keyboard.rs:3-17 | the table has the 104 entries its type declares |
| Keyboard.KeyboardState.constructor | kernel/src/keyboard.rs:23 | STATE starts as six zeros and nothing has been printed |
| Keyboard.KeyboardState.Handle | kernel/src/keyboard.rs:26-48 | an unchanged report echoes its last key again, keeps STATE and answers Some exactly when a key was found; a changed report answers None, echoes the last key only when more keys are down than before (keeping the old STATE when that lookup fails early) and otherwise just stores the report |
| Logger.Code | kernel/src/logger.rs:2-7 | the discriminants lie in 3..7, with 3 exactly for Error and 7 exactly for Debug |
| Logger.CodesOrdered | kernel/src/logger.rs:2-7 | Error < Warn < Info < Debug as numbers, the order the filter compares |
| Logger.AtWarnOnlyErrorsAndWarnings | kernel/src/logger.rs:9-21 | at the initial level Warn a message is printed exactly when it is an error or a warning |
| Logger.EnabledMonotone | kernel/src/logger.rs:16-21 | raising the level never hides a message that was printed at a lower one |
| Logger.LevelFilter.constructor | kernel/src/logger.rs:9 | the level starts at Warn |
| Logger.LevelFilter.SetLogLevel | kernel/src/logger.rs:11-13 | the level becomes the one given |
| Logger.LevelFilter.ShouldPrint | kernel/src/logger.rs:18 | a message is printed exactly when its code is at most the level's, so errors are always printed |
| Backtrace.BacktraceTables.constructor | kernel/src/backtrace.rs:5-10 | the globals start unlocked, uninitialised, with a zero base and null tables |
| Backtrace.BacktraceTables.InitBacktrace | kernel/src/backtrace.rs:24-40 | a zero base, a null table, no symbols or a lock already taken change nothing; otherwise the lock is taken, the base and the tables are stored and the initialised flag is set |
| Backtrace.BacktraceTables.PrintFnName | kernel/src/backtrace.rs:42-63 | nothing before initialisation; otherwise the first of the `SYMTAB_NUM` symbols with `BASE + value <= rip < BASE + value + size`, reported as `rip - BASE` and its name offset, and nothing only when no symbol covers `rip` |
| Backtrace.InitTwiceKeepsFirst | kernel/src/backtrace.rs:30-39 | after a first accepted `init_backtrace`, a second call, whatever its arguments, leaves the first call's base and tables in place |
| Bootloader.LeRoundTrip | bootloader/src/main.rs:135-136 | a value below 256^n written as n little-endian bytes reads back as itself |
| Bootloader.LeBytesOfValue | bootloader/src/main.rs:135-136 | n bytes read as a little-endian value and written back are the same bytes |
| Bootloader.PatchReadsBack | bootloader/src/main.rs:135-136 | the 64-bit store `*to = …` reads back as the value stored and changes no byte outside its 8 bytes |
| Bootloader.LastIsMax | bootloader/src/main.rs:78-93 | `last` is at least `vaddr + memsz` of every LOAD header, and is 0 or equal to the end of one of them |
| Bootloader.NoLoadNoSpan | bootloader/src/main.rs:78-93 | without a LOAD header `last` stays 0 |
| Bootloader.LastLoadEnd | bootloader/src/main.rs:78-93 | the max-fold over the program headers computes `last` as defined by `LastEnd` |
| Bootloader.ImageCovers | bootloader/src/main.rs:95-101 | the image is `ceil(last / PAGE_SIZE)` whole pages, holds `last` bytes and has less than a page to spare |
| Bootloader.CopyUntouched | bootloader/src/main.rs:104-112 | a byte outside the file range of every LOAD segment keeps its value through the copy loop |
| Bootloader.CopyLands | bootloader/src/main.rs:104-112 | with non-overlapping segments, byte `k < filesz` of every LOAD segment ends up at `vaddr + k`, copied from file offset `offset + k` |
| Bootloader.CopyLandsFirst | bootloader/src/main.rs:104-112 | the first segment's bytes are copied and no later segment overwrites them |
| Bootloader.FirstOutsideRest | bootloader/src/main.rs:104-112 | an address in the first segment's file range lies outside every later segment's |
| Bootloader.BssZero | bootloader/src/main.rs:101-112 | on the zero-filled image, a byte of a segment between `filesz` and `memsz` that no file range covers stays zero, and it is inside the image |
| Bootloader.SegmentsFitImage | bootloader/src/main.rs:95-112 | LOAD headers with `filesz <= memsz` and file ranges inside the file always fit the image sized from `last` |
| Bootloader.CopyBytes | bootloader/src/main.rs:108 | `copy_from_slice` puts the segment's `filesz` file bytes at its `vaddr` and changes nothing else |
| Bootloader.CopySegments | bootloader/src/main.rs:104-112 | the copy loop leaves the image `LoadSegments` describes (LOAD headers copied in order, others skipped) |
| Bootloader.Relas | bootloader/src/main.rs:127-131 | a section yields `size / entsize` relocation records |
| Bootloader.Relocated | bootloader/src/main.rs:136 | the stored value, base plus addend, is a 64-bit word |
| Bootloader.SafeTail | bootloader/src/main.rs:129-139 | past a RELATIVE record the remaining records still target words inside the image |
| Bootloader.RelocateOutcome | bootloader/src/main.rs:129-139 | a relocation pass panics exactly when some record's type (`r_info & 0xffffffff`) is not 8, and it reports the first such type |
| Bootloader.RelocateStores | bootloader/src/main.rs:132-137 | after a pass without panic, a RELATIVE record whose word no later record touches leaves `base + addend` at `base + offset` |
| Bootloader.RelocateKeeps | bootloader/src/main.rs:128-141 | a word that no record targets keeps its value |
| Bootloader.MissingSkipped | bootloader/src/main.rs:121-126 | missing `.rela.dyn` and `.rela.plt` sections change nothing |
| Bootloader.WriteU64 | bootloader/src/main.rs:135-136 | the store writes the 8-byte little-endian value at the offset and nothing else |
| Bootloader.RelocateSection | bootloader/src/main.rs:127-141 | the loop over one section's records leaves the image `Relocate` gives, or the panic with the first unsupported type |
| Bootloader.RelocateSections | bootloader/src/main.rs:121-142 | the loop over `[rela_dyn_section, rela_plt_section]` applies each present section in turn and skips the missing ones |
| Bootloader.SymbolTable | bootloader/src/main.rs:144-148 | no `.symtab` gives (0, 0); otherwise the table's address in the file buffer and `size / entsize` entries |
| Bootloader.StringTable | bootloader/src/main.rs:149-153 | no `.strtab` gives 0; otherwise the table's address in the file buffer |
| Bootloader.EntryPoint | bootloader/src/main.rs:157-158 | the entry point is the image base plus the 64-bit word at image offset 24 |
| Bootloader.EntryFromHeader | bootloader/src/main.rs:104-112 | when a LOAD segment maps the start of the file at address 0, the word at image offset 24 is the file's `e_entry` |
| Bootloader.LoadSpec | bootloader/src/main.rs:78-165 | a kernel loaded without a relocation panic has an image of `ceil(last / PAGE_SIZE)` pages at the returned base |
| Bootloader.LoadKernel | bootloader/src/main.rs:78-165 | `load_kernel` after the file is read: zero-filled image, segments copied, relocations applied, then the symbol tables and entry point, as `LoadSpec` states |
| Bootloader.PixelFormatOf | bootloader/src/main.rs:211-220 | GOP format 0 gives RGB, 1 gives BGR, and any other value gives nothing (the `unwrap` panic) |

## Left out

- kernel/src/preemptive/context.rs is not part of this model: it is a naked-assembly context switch with nothing to state without a machine model.
- kernel/src/io_port.rs, serial.rs, timer.rs and usb/mod.rs are not part of this model: they are port I/O, UART probing and LAPIC/xHCI register pokes.
- The `lidt`, `lgdt`, CR3 and segment-register instructions and `notify_end_of_interrupt` are machine instructions. Only the table contents they load are modelled.
- MMIO reads are inputs; MMIO writes are recorded in `Registers.MmioLog`. What the controller does to a register after a write is not modelled.
- `PortStatusAndControlRegister::reset` waits for the reset bit to clear. Only the word it writes is modelled.
- xHCI `initialize` is not modelled: BIOS handoff, the halt and reset waits, and register programming are hardware waits. The controller starts in the state `initialize` leaves it in.
- `MemPoolErTRB::clean` (the dequeue-pointer write), the `Stream`/`ER_WAKER` async waker and `int_handler_xhci` are not modelled. They are asynchronous hardware plumbing.
- `process_event`'s halt dump is not modelled; it only prints registers.
- The spin `Mutex`, `Arc`, `OnceCell` and atomic globals become plain single-threaded state. These are the window manager, the console, the cursor, the setup-TRB map and the device memory. Locking and sharing are not modelled.
- PCI configuration space is the oracle `Pci.Config`, from the word written to CONFIG_ADDRESS to the word read from CONFIG_DATA. ACPI tables are read from a `Memory` function.
- The bootloader's UEFI calls are not modelled: file access, `allocate_pages`, the memory map and `write_memmap`, `exit_boot_services`, GOP queries and configuration tables. The addresses and values they return are parameters.
- The `rbp` frame walk of `print_backtrace` is not modelled. Only the symbol lookup for one return address is.
- kernel/src/ascii.rs (the glyph table `FONTS`) is a parameter: 256 glyphs of 16 bytes.
- Serial and console printing (`print!`, `log!`, the Python `print`) is not modelled. The keyboard's output is a sequence of bytes, and the logger's output is the pass/drop decision.
- Alpha blending (the `todo!()` branches of window.rs) is not modelled.
- `Window::draw_to`, `draw_rect_area_to`, `draw_window`, `draw_basic_window` and `set_use_alpha` are not modelled. They are repaint helpers outside the modelled operations.
- The console's glyph and background drawing into its window is not modelled. The console is modelled as its character grid and cursor.
- The colours BLACK, WHITE and TRANSPARENT come from a file that is not part of this model. They are a `Mouse.Palette` parameter.
- The window-manager query for the window under the cursor is a parameter of the mouse handler.
- Integer overflow is not modelled: addresses and coordinates are unbounded integers. This covers `usize` overflow in the allocators, `isize` overflow in math.rs, the `BASE + value + size` sums of the symbol lookup in backtrace.rs, and the entry-point addition `entry_point_address + kernel_slice.as_ptr()` at bootloader/src/main.rs:157-158.
- Graphics.FrameBuffer.constructor requires `ConfigOk`: a supported pixel format and a horizontal resolution no larger than the scan line. The source panics for the Bitmask and BltOnly formats, at the `unwrap` of graphics.rs:49 and the `panic!` of graphics.rs:66. The panic paths are not modelled as results.
- Bootloader.LoadKernel requires `Loadable`. This rules out the slice-index panics of the segment copy at bootloader/src/main.rs:108 and of the section reads. It also rules out the division by zero at bootloader/src/main.rs:129 and :145 when a section's `entsize` is 0. Those panics are not modelled as results. `Loadable` further demands `SafeRelas`, that every RELATIVE relocation target (up to the first record of another type) lies inside the image, and that the image holds the 8-byte entry-point word at offset 24. The source writes and reads those through raw pointers with no check, so past the image it is undefined behaviour; the model does not cover those inputs.
- `Vec::try_reserve` failure (`Error::Full`) in the PCI scan is not modelled.
- The PCI scan's recursion through bridges and the MSI capability walk take a `fuel` parameter that bounds their depth. Bridges or a capability list deeper than the fuel given are cut off where the source would keep going.
- Device contexts have two variants in the source, 32 and 64 bytes, that differ only in their stride. One layout of eight 32-bit words per context is modelled.
- A slice index that would panic in a state-changing method is a `requires` instead of a modelled panic. The members concerned are listed below.
- MemoryManager.BitmapMemoryManager.SetBit, MarkAllocated, Allocate and Free require their frames (and `range_end`) to lie inside the map of FRAME_COUNT frames; the source panics on an index past the map.
- Interrupt.SetIdtEntry requires idx < 256; the source panics on an index past the table at `IDT.lock()[idx]` (kernel/src/interrupt.rs:74).
- Window.Window.Write requires (x, y) inside the window's data; the source panics on an index outside it.
- Window.Window.DrawRect requires the rectangle inside the window, because it writes through `write`.
- Window.WindowManager.UpDown requires the id to be a known window; the source panics with "no window id" otherwise.
- Window.Window.constructor and Window.WindowManager.constructor require an Rgb or Bgr format; the source's `FrameBuffer::new` unwrap panics otherwise.
- Writer.PixelWriter.constructor requires an Rgb or Bgr format, for which the source panics otherwise. It also requires a buffer of at least 4 * ppsl * vres bytes, which the firmware's frame buffer provides.
- Graphics.FrameBuffer.Copy requires equal pixel formats, because the source panics on a mismatch. It also requires two distinct buffers, as `copy_nonoverlapping` does.
- Graphics.FrameBuffer.MoveUp requires 0 < value < vres. The source panics at both ends: with value = vres the `copy` source index `bpp * ppsl * value` is past the buffer, and with value = 0 the `write_bytes` destination index `bpp * ppsl * (vres - value)` (kernel/src/graphics.rs:126) is past it.
- Panic.PanicWriter.DefaultPanicPrint: the formatted message is modelled as one `write_str` of the whole text, while `write!` at kernel/src/panic.rs:78 makes one `write_str` call per `Display` piece. Once a piece stops past the bottom, later pieces draw nothing more but can still move the stored cursor through a newline or a wrap, so the cursor the model ends with may differ from the source's in that case (no pixel differs). `Panic.RunAppend` covers only the case where the first piece does not stop.
- Panic.PanicWriter.InitDefaultPanicPrint requires that the frame buffer holds ppsl * vres words and at least 10 columns. The source writes out of bounds otherwise.
- Mouse.MouseCursor.MouseHandler requires the dragged window to be distinct from the cursor's own window; in the source they are separate `Arc`s.
- Pci.Scanner.ScanAllBus requires an empty device list, as it is at boot.
- Registers.MmioLog.ResetPort does not model the spin-wait on the reset bit.

## Findings

| source | as written | input that shows it | evidently intended | confidence | as-written member | corrected member |
|---|---|---|---|---|---|---|
| kernel/src/allocator.rs:137-146 | a freed block that touches neither neighbour gets `next = list` but `prev.next` is never set to it | free list (0, 16), (64, 16); free 16 bytes at 32 | link the block between its neighbours | high, not executed | Allocator.DeallocLosesBlock | Allocator.DeallocOnReturnsBlock |
| kernel/src/allocator.rs:124-134 | with an empty free list `prev` is null and is dereferenced | free list empty; free any block | the block becomes the whole list | medium, not executed | Allocator.DeallocOnEmptyAsWritten | Allocator.DeallocOnReturnsBlock |
| kernel/src/allocator.rs:73-86 | the front part kept before an aligned start can be shorter than a list node (16 bytes) | block (4, 100); 16 bytes aligned to 8 keeps (4, 12), whose node overlaps the result at 16 | move the start on by `align` until the front part holds a node | medium, not executed | Allocator.AllocSmallGap | Allocator.AllocOnProperties |
| kernel/src/usb/usb_allocator.rs:49 | `next_boundary` is the block's own address when it starts on a boundary | block (64, 64); 64 bytes aligned and bounded by 64 leaves a node of size 0 at 64 | the boundary strictly above the block's start | medium, not executed | UsbAllocator.BoundaryOnBoundaryAsWritten | UsbAllocator.BoundaryAllocProperties |
| kernel/src/usb/usb_allocator.rs:72-93 | moving the start up to the next boundary can leave a front part shorter than a list node (16 bytes) | block (60, 200); 16 bytes aligned to 4 and bounded by 64 start at 64 and keep (60, 4), whose node overlaps the result | pass over a block when a part left would be smaller than a node | medium, not executed | UsbAllocator.BoundarySmallFrontAsWritten | UsbAllocator.BoundaryCarveTakes |
| kernel/src/usb/usb_allocator.rs:21 | `us / boundary == (us + size) / boundary` fails for every block that ends exactly on a boundary | block (16, 4080); 64 bytes aligned and bounded by 64 returns 64 and panics | compare with the last byte, `us + size - 1` | high, not executed | UsbAllocator.FullBoundaryExample | UsbAllocator.AllocWithBoundaryPanicsOnlyWhenOut |
| kernel/src/pci.rs:307-311 | the multiple-message-enable field is masked with 0x111 instead of 0b111 | control word 0x1200000, value 0: bit 21 stays, bit 24 (per-vector masking) is cleared | clear bits 20..22 only | high, not executed | Pci.MultiMsgEnableMask | Pci.ConfiguredControlFields |
| kernel/src/graphics.rs:50 | the buffer length uses the horizontal resolution, not the scan-line length | ppsl 2, hres 1, vres 2: 8 bytes, pixel (0, 1) at byte 8 | `bytes_per_pixel * ppsl * vres` | high, not executed | Graphics.AsWrittenLengthTooShort | Graphics.VisiblePixelsInBuffer |
| kernel/src/graphics.rs:81-96 | `copy` takes the source size from the destination, does not scale the start column by the pixel size, and underflows on an empty clip | 2x2 source into a 4x4 screen at (0, 0), at (1, 1) and at (5, 0) | source size from `src`, column times bytes per pixel, nothing copied when the clip is empty | high, not executed | Graphics.AsWrittenSourceSizeFromSelf | Graphics.CopyAt |
| kernel/src/acpi.rs:131-132 | `get_fadt` visits `header.length` entries, a byte count, not the entry count | any valid XSDT: entry `length - 1` is read past the table | `(length - 36) / 8` entries | high, not executed | Acpi.AsWrittenReadsPastTable | Acpi.CorrectedEntriesInTable |
| kernel/src/segment.rs:45 | the GDT limit is the table size, 24, not size - 1 | the three-entry table: limit 24 admits the first byte of a fourth entry | 23, as the IDT limit is | medium, not executed | Segment.GdtLimitAsWritten | Segment.GdtLimit |
| kernel/src/segment.rs:41 | in Rust AND binds tighter than OR, so OR-ing in `(1 << 54) & !(1 << 53)` only sets bit 54 and the L bit of the code descriptor stays set in the data segment | entry 2 built by `setup_segments` | set D/B and clear L | low (the processor ignores L in a data segment), not executed | Segment.SetupSegmentsWords | Segment.SetDataSegment |
| kernel/src/window.rs:234-239 | the height is decremented whenever the window was already stacked | stack [w, a, b], up_down(w, 1) leaves the stack unchanged; [w, a], up_down(w, 0) underflows | place the window at the requested height | medium, not executed | Window.AsWrittenUpDownOffByOne | Window.UpDownPlaces |
| kernel/src/usb/trb.rs:303 | wMaxPacketSize is read with the high byte shifted left by 2 | bytes 0x00, 0x02 (512) read as 8 | the high byte shifted left by 8 | high, not executed | Trb.MaxPacketSizeShiftCounterexample | Trb.MaxPacketSize |
