# A verified model of the 202.1 operating-systems labs

This project models, in Dafny, the core of a set of operating-systems lab exercises written in C++:

- **Lab 3: a simulated memory-management unit (MMU).** It is a 16-bit machine with:
  - 4 KiB of main memory in 16 frames of 256 bytes;
  - 256 KiB of secondary memory in slots of 256 bytes;
  - a three-level page table kept inside main memory;
  - a four-entry translation lookaside buffer (TLB) kept as a ring buffer;
  - a kernel heap (`kalloc`);
  - demand allocation of frames on a segmentation fault, with eviction of a victim frame to secondary memory;
  - a page-granular `simple_mmap`.
- **Lab 4 (and its copy in lab 4.5): a small λ-calculus interpreter.** It covers terms, substitution, one-step reduction and Church encodings, together with the first-come, first-serve (FCFS) scheduler that runs λ-programs as tasks on a fixed number of cores.
- **Lab 3.5: an in-place insertion sort and a quicksort.** The quicksort switches to insertion sort for short ranges.
- **Lab 2.5: the `exchange` and `reverse` array routines**, and the still-empty `quicksort`.

## How each part is modelled

**The lab 3 MMU** has two layers:

1. **`MachineSpec` is the value-level layer.** The machine is a value `Mach(mem, sec, tlb)` holding:
   - main memory and secondary memory as byte sequences;
   - the TLB's logical entries as 32-bit records.

   Each operation is a function from one state to a `Run`, which is a result plus the state the operation leaves. C++ exceptions do not roll back, so a failed `Run` carries the state at the throw. The faults are:
   - `SegmentationFault` and `PermissionFault`, the two page lookup errors;
   - `BadAlloc`, for `std::bad_alloc`;
   - `Abort`, for a failed `assert`, `std::abort` or an out-of-range access;
   - `Diverges`, for the one case where the code loops forever.
2. **`Machines.Machine` is the object layer.** It is a class with the two memories as `array<bv8>` and the TLB as a `Tlb.Tlb` object. Each method is proved to have exactly the effect and result of the value-level function on the state before it.

The properties are proved as lemmas in four modules:
- `MachineProps`: the kernel heap, the free map, victim choice and byte access;
- `SwapProps`: swapping a frame out to secondary memory;
- `TranslateProps`: translation and the `simple_mmap` search;
- `BootProps`: the machine the constructor builds, and the translations of the lab's own scenario on it.

**The record formats** live in `Codec`: virtual addresses, page table entries and frame descriptors, as bit-vector values.

**The TLB** lives in `Tlb`:
- `lookup` and `invalidate` are specified on the sequence of logical entries;
- `insert` is specified on the physical slots and the cursor;
- the class `Tlb.Tlb` keeps the slots in an array and updates them in place.

The model keeps one behaviour of `invalidate` as written. A matching record is zeroed and exchanged with the last entry still to be examined, which may itself be empty. That can leave an empty key in front of a record that survives, and `lookup` then misses that record (`Tlb.InvalidateHidesSurvivor`).

**The λ-calculus** (`Lambda`, `Church`) is made of datatypes and functions. `step(Term&)` rewrites its argument in place and returns a flag; it is modelled as `Step(t)`, which returns the flag and the new term.

**The FCFS scheduler** (`Scheduler`) is a class:
- the task vector it shares with its owner is an `array<Task>`;
- its `std::forward_list` of outstanding task indices is a `seq<nat>` field;
- its `step` loop is a method proved against the value-level `NextTasks` and `NextWork`;
- the invariant it keeps is proved as a lemma about those two functions.

**The sorting routines** (`Sorting`, `ArrayOps`) are methods on `array<int>`. A C pointer into an array is modelled as the array plus a base index.

## Model

| member | source | states |
|---|---|---|
| Codec.PageOfClearsOffset | lab-3/include/mmu.hh:69-72 | the page of an address clears exactly the 8 offset bits and is idempotent |
| Codec.AdvancedAdds | lab-3/include/mmu.hh:74-77 | advancing an address is addition modulo 2^16 |
| Codec.NoneIffZero | lab-3/include/mmu.hh:329-332 | an entry is "none" exactly when its representation is zero |
| Codec.SetPresentBits | lab-3/include/mmu.hh:339-342 | setting present sets the present and defined bits and keeps the rest; clearing it clears the present bit only |
| Codec.SetPresentKeeps | lab-3/include/mmu.hh:339-342 | changing the present flag keeps the protection and the frame number |
| Codec.SetFrameRoundTrip | lab-3/include/mmu.hh:354-362 | a frame number reads back exactly when it fits in 8 bits (the getter truncates); bits 1-5 are kept and the entry marked defined |
| Codec.SetProtectionRoundTrip | lab-3/include/mmu.hh:344-352 | only the read and write flags read back, execute is never reported, and a protection below 16 keeps the present flag and the frame |
| Codec.ReadyIffNeither | lab-3/include/mmu.hh:225-230 | the bit trick of `is_ready_for_eviction` is "neither referenced nor pinned", as its comment promises |
| Codec.FlagSettersTouchOneBit | lab-3/include/mmu.hh:205-223 | each flag setter reads back and changes no other bit or byte of the descriptor |
| Codec.AddBackReferenceKeepsFlags | lab-3/include/mmu.hh:237-247 | adding a back reference keeps the flags, bits 6-7 and the position byte |
| Codec.AddBackReferenceSlots | lab-3/include/mmu.hh:237-247 | the first two references go to slots 0 and 1, the count saturates at 3, and beyond that nothing changes |
| Codec.ClearBackReferencesBits | lab-3/include/mmu.hh:249-252 | clearing keeps bits 0, 1, 6 and 7 and zeroes the count field; the count then reads zero exactly when bits 6-7 are clear |
| Codec.PermanentPositionRoundTrip | lab-3/include/mmu.hh:259-268 | the position getter reads back the setter's value exactly when bits 8-13 are clear (see Findings) |
| Codec.PermanentPositionLost | lab-3/include/mmu.hh:264-268 | position 256 reads back as 0 and sets the referenced flag |
| Codec.CorrectedPermanentPositionRoundTrip | lab-3/include/mmu.hh:258-262 | with the documented 10-bit layout every position below 1024 reads back, and the flags and count are kept |
| Tlb.Inserted | lab-3/include/mmu.hh:405-411 | insertion keeps the buffer well formed: four slots and a cursor in `0..3`, wrapping 0 to 3 |
| Tlb.InsertShifts | lab-3/include/mmu.hh:405-411 | after `insert` the new record is logical entry 0, entries 0..2 become 1..3, and entry 3 is dropped |
| Tlb.RecordFields | lab-3/include/mmu.hh:380-386 | a record keeps the address as its key and the page entry in its high half |
| Tlb.Probe | lab-3/include/mmu.hh:417-428 | the scan stops inside the buffer or at its end |
| Tlb.LookupHit | lab-3/include/mmu.hh:413-435 | when `va` is found before any empty key, lookup returns its entry and moves the record one place to the front |
| Tlb.LookupMiss | lab-3/include/mmu.hh:413-435 | with no hit, lookup returns the none entry and leaves the buffer unchanged |
| Tlb.LookupStopsAtVacant | lab-3/include/mmu.hh:421-422 | an empty key ends the scan: records behind it are never found |
| Tlb.PageZeroHidesAll | lab-3/include/mmu.hh:405-422 | a record for page 0 has the empty key, so once it is in front every lookup misses |
| Tlb.InvalidateRemoves | lab-3/include/mmu.hh:437-454 | after `invalidate` no record carries the entry; the records that did not are at the front (the same multiset) and the rest are zero |
| Tlb.InvalidateHidesSurvivor | lab-3/include/mmu.hh:437-454 | removing `p` from `[a↦p, b↦q, 0, 0]` leaves `[0, b↦q, 0, 0]`, so `b`, found before, is then missed |
| Tlb.Tlb.constructor | lab-3/include/mmu.hh:387-393 | a new buffer has zero records and the cursor at slot 0 |
| Tlb.Tlb.Insert | lab-3/include/mmu.hh:405-411 | the buffer's new value is `Inserted` of the old one |
| Tlb.Tlb.Store | lab-3/include/mmu.hh:400-403 | writing through `operator[]` changes that logical entry only |
| Tlb.Tlb.Exchange | lab-3/include/mmu.hh:429 | `std::swap` of two logical entries exchanges them and keeps the cursor |
| Tlb.Tlb.Get | lab-3/include/mmu.hh:395-398 | reading through `operator[]` gives the logical entry |
| Tlb.Tlb.Find | lab-3/include/mmu.hh:418-428 | the scan loop stops where `Probe` says |
| Tlb.Tlb.Lookup | lab-3/include/mmu.hh:413-435 | the entry returned and the new buffer are those of `LookedUp` |
| Tlb.Tlb.Invalidate | lab-3/include/mmu.hh:437-454 | the new logical entries are `Invalidated` of the old, with the cursor kept |
| MachineSpec.CountTrailingZerosFrom | lab-3/include/mmu.hh:921 | the count of trailing zeros lies between the start bit and 16 |
| MachineSpec.KernelBreak | lab-3/include/mmu.hh:575-576 | the first directory goes at offset 80, past the page map rounded up to 16 |
| MachineSpec.Boot | lab-3/include/mmu.hh:560-595 | the constructed machine has 4096 bytes of main memory, 262144 of secondary memory and four TLB entries |
| MachineSpec.Kalloc | lab-3/include/mmu.hh:612-624 | without wrap-around, an address `kalloc` returns lies below `0x200` |
| MachineSpec.BreakAfterRounds | lab-3/include/mmu.hh:614-615 | the new break is the least multiple of 16 at or above the old break plus `n` |
| MachineSpec.RoundedBounds | lab-3/include/mmu.hh:615 | the rounding `x + (-(x & 15) & 15)` lies in `[x, x + 16)` and is a multiple of 16 |
| MachineSpec.FindFrom | lab-3/include/mmu.hh:998-1029 | the pass never yields a frame number of 16 or more |
| MachineSpec.FindVictim | lab-3/include/mmu.hh:992-1030 | a victim is a frame number below 16 |
| MachineSpec.SwapVictim | lab-3/include/mmu.hh:976-989 | a frame returned by `swap_victim` is below 16 |
| MachineSpec.Evict | lab-3/include/mmu.hh:924-940 | the evicted frame is below 16 |
| MachineSpec.ClaimFrame | lab-3/include/mmu.hh:919-940 | the claimed frame is below 16 |
| MachineSpec.ShrinkRegionSteps | lab-3/include/mmu.hh:938-939 | the two in-place updates of the region pointer give `ShrinkRegion` |
| MachineSpec.MakeDirectories | lab-3/include/mmu.hh:955-965 | the place for the page entry lies inside main memory |
| MachineSpec.NextPage | lab-3/include/mmu.hh:879-881 | below `0xf800`, advancing one page strictly increases the address, so the search terminates |
| MachineSpec.ReadByte | lab-3/include/mmu.hh:602-604 | a read succeeds exactly inside main memory and yields the stored byte |
| MachineSpec.StoreByte | lab-3/include/mmu.hh:607-609 | a store succeeds exactly inside main memory |
| MachineProps.WordRoundTrip | lab-3/include/mmu.hh:524-526 | a 16-bit word reads back as written, and non-overlapping words are untouched |
| MachineProps.RoundedIsNextMultiple | lab-3/include/mmu.hh:615 | without wrap-around the rounding of `kalloc` is the next multiple of 16 |
| MachineProps.KallocBumps | lab-3/include/mmu.hh:612-624 | `kalloc` succeeds exactly when the rounded break stays below `0x200`; it then returns the old break, moves the break and changes nothing else; otherwise `bad_alloc` and no change |
| MachineProps.KallocMoves | lab-3/include/mmu.hh:612-624 | the same in `std::size_t` arithmetic, with wrap-around included |
| MachineProps.KallocKeeps | lab-3/include/mmu.hh:612-624 | `kalloc` changes only the two bytes of the break |
| MachineProps.BreakRoundTrip | lab-3/include/mmu.hh:534-536 | the break reads back as written |
| MachineProps.BreakKeeps | lab-3/include/mmu.hh:534-536 | writing the break changes no other byte |
| MachineProps.CountTrailingZerosLowest | lab-3/include/mmu.hh:921 | `countr_zero` gives the index of the lowest set bit, and 16 exactly for zero |
| MachineProps.ClaimsLowestFree | lab-3/include/mmu.hh:919-924 | while a frame is free, the lowest free frame is taken and nothing is evicted |
| MachineProps.MarkClaimedClearsBit | lab-3/include/mmu.hh:947 | claiming a frame clears exactly its bit in the free map |
| MachineProps.MarkClaimedResets | lab-3/include/mmu.hh:943-944 | a claimed frame's descriptor is reset and marked referenced |
| MachineProps.ClaimWithoutRoom | lab-3/include/mmu.hh:924-931 | with no free frame and an empty secondary region, `bad_alloc` and no change |
| MachineProps.UnreferenceKeeps | lab-3/include/mmu.hh:1006-1010 | clearing the referenced flag keeps ready frames as they are and never changes pinning |
| MachineProps.FindVictimChooses | lab-3/include/mmu.hh:992-1030 | the victim is the ready frame with fewest back references (first on ties); with none ready, the first unpinned frame; `bad_alloc` exactly when every frame is pinned; the sweep clears the referenced flag of every frame it passes, up to `PassEnd`, and changes nothing else |
| MachineProps.PassEnd | lab-3/include/mmu.hh:998-1002 | where the sweep stops: just past the first ready frame with no back references, or at the end of the table; no frame before it is such a frame |
| MachineProps.FindFromSweeps | lab-3/include/mmu.hh:998-1029 | the sweep from any frame clears exactly the referenced flags of the frames up to `PassEnd` |
| MachineProps.VictimNotPinned | lab-3/include/mmu.hh:992-1030 | a pinned frame is never chosen as victim |
| MachineProps.ZeroRefsPreferred | lab-3/include/mmu.hh:1000-1002 | a ready frame with no back reference ends the pass and is preferred over every frame |
| MachineProps.PinnedNoneReady | lab-3/include/mmu.hh:216-230 | with every frame pinned no frame is ready |
| MachineProps.StoreThenRead | lab-3/include/mmu.hh:602-609 | a stored byte reads back and other addresses are unchanged; outside main memory both abort |
| SwapProps.SwapFramesExchanges | lab-3/include/mmu.hh:981-984 | the victim frame and the secondary slot exchange their 256 bytes and nothing else changes |
| SwapProps.SwapFramesTwice | lab-3/include/mmu.hh:981-984 | exchanging twice restores the machine |
| SwapProps.UpdateFromKeeps | lab-3/include/mmu.hh:1044-1055 | rewriting the entries never touches secondary memory, fails only by aborting, and clears the count |
| SwapProps.UpdateSingleReference | lab-3/include/mmu.hh:1034-1056 | with one back reference, the entry becomes swapped out to the slot and no TLB record carries the old entry; an absent entry aborts |
| SwapProps.SwapVictimRefuses | lab-3/include/mmu.hh:976-977 | with a frame still free `swap_victim` aborts without change; with every frame pinned it throws `bad_alloc` |
| SwapProps.SwapVictimExchanges | lab-3/include/mmu.hh:976-989 | the victim is `find_victim`'s unpinned choice, and the slot now holds its bytes |
| SwapProps.SwapVictimFillsFrame | lab-3/include/mmu.hh:976-989 | the victim frame holds the slot's former bytes (from byte 257 on) and its back-reference count is cleared |
| SwapProps.UpdateFromHigh | lab-3/include/mmu.hh:1044-1055 | rewriting the back-referenced entries changes no byte from 257 on |
| SwapProps.SwapVictimSteps | lab-3/include/mmu.hh:976-989 | secondary memory after `swap_victim` is the exchange with the chosen victim |
| SwapProps.ShrinkRegionWords | lab-3/include/mmu.hh:938-939 | the region offset goes up by one and the length down by one; the rest is kept |
| SwapProps.EvictTakesSlot | lab-3/include/mmu.hh:924-940 | eviction returns `find_victim`'s victim, zero-fills its frame, leaves its old bytes in the region's first slot and shrinks the region |
| SwapProps.EvictSteps | lab-3/include/mmu.hh:924-940 | eviction is `swap_victim` on the region's first slot, then the zero fill and the shrinking |
| SwapProps.SwapVictimKeepsRegion | lab-3/include/mmu.hh:976-989 | swapping into a slot other than 0 keeps the region words |
| TranslateProps.SwapVictimMundane | lab-3/include/mmu.hh:976-989 | `swap_victim` fails only with `bad_alloc` or an abort |
| TranslateProps.UpdateAfterSwapAborts | lab-3/include/mmu.hh:1034-1056 | rewriting entries after a swap fails only by aborting |
| TranslateProps.ClaimFrameMundane | lab-3/include/mmu.hh:919-940 | claiming a frame fails only with `bad_alloc` or an abort |
| TranslateProps.AllocateOnSegfaultMundane | lab-3/include/mmu.hh:913-972 | the allocating handler fails only with `bad_alloc` or an abort |
| TranslateProps.InstallMundane | lab-3/include/mmu.hh:950-971 | installing the entry fails only as `kalloc` does |
| TranslateProps.HandleFaultOutcome | lab-3/include/mmu.hh:906-910 | the rethrowing handler always throws a segfault and changes nothing; the allocating one fails only with `bad_alloc` or an abort |
| TranslateProps.PhysicalOffset | lab-3/include/mmu.hh:676 | a physical address keeps the offset of the virtual one |
| TranslateProps.GrantsOnlyReadWrite | lab-3/include/mmu.hh:650-652 | a protection can grant only read and write |
| TranslateProps.SwapInOutcome | lab-3/include/mmu.hh:663-673 | swap-in fails only with `bad_alloc` or an abort, and keeps the offset |
| TranslateProps.SwapInReinstates | lab-3/include/mmu.hh:663-676 | a successful swap-in lands on `find_victim`'s frame; the entry is present on it; the frame is referenced and records the entry's offset when its cleared count is 0; the TLB caches the new entry in front |
| TranslateProps.SwapInFillsFrame | lab-3/include/mmu.hh:663-676 | after a successful swap-in, the victim frame holds what the slot held, apart from the entry and bytes below 257 |
| TranslateProps.ReinstateEffects | lab-3/include/mmu.hh:664-676 | the entry is rewritten present on the new frame, the frame is referenced and records the entry, every other byte past the frame table is kept, the TLB caches the entry |
| TranslateProps.TranslateWithEntryOutcome | lab-3/include/mmu.hh:646-677 | a permission fault exactly when the protection does not grant the request; success implies it does; the outcome is sound |
| TranslateProps.PresentEntryTranslates | lab-3/include/mmu.hh:657-660 | a present, granting entry translates into its frame at the virtual offset, marks the frame referenced and is cached in front of the TLB |
| TranslateProps.TranslateCachedOutcome | lab-3/include/mmu.hh:721-725 | a cached entry that is not present aborts; a permission fault exactly when a present entry does not grant; the TLB is left as lookup left it |
| TranslateProps.WalkSound | lab-3/include/mmu.hh:728-763 | every walk outcome is sound; with the rethrowing handler an empty slot is a segfault |
| TranslateProps.FollowSound | lab-3/include/mmu.hh:739-763 | the walk once a slot is filled is sound |
| TranslateProps.FollowAborts | lab-3/include/mmu.hh:754 | a still-empty slot, or a directory address of 4096 or more, aborts |
| TranslateProps.LeafOutcome | lab-3/include/mmu.hh:739-745 | an entry above the last level segfaults when the lower directory bits are set |
| TranslateProps.LeafTranslates | lab-3/include/mmu.hh:739-745 | otherwise it translates as a last-level entry |
| TranslateProps.TranslateSound | lab-3/include/mmu.hh:714-764 | the null address segfaults first; every outcome keeps the offset; an execute request never succeeds |
| TranslateProps.ResolveHit | lab-3/include/mmu.hh:721-725 | a TLB hit finishes through the cached entry |
| TranslateProps.ResolveMiss | lab-3/include/mmu.hh:721-728 | a TLB miss walks from the root slot of `va` |
| TranslateProps.HitInsertsNothing | lab-3/include/mmu.hh:721-725 | a hit does not insert into the TLB and does not touch secondary memory |
| TranslateProps.ExecuteNeverSound | lab-3/include/mmu.hh:344-347 | a sound outcome of an execute request is a failure |
| TranslateProps.NoPermissionNoFault | lab-3/include/mmu.hh:870 | a translation with no permission never raises a permission fault and never diverges |
| TranslateProps.SearchSound | lab-3/include/mmu.hh:865-887 | the mmap search never loops on a permission fault and stops at a page at or after its start, page-aligned |
| TranslateProps.SearchAtTop | lab-3/include/mmu.hh:865 | at or above `0xf800` the search stops where it is |
| TranslateProps.SearchProbes | lab-3/include/mmu.hh:867-877 | a probe that segfaults takes the page |
| TranslateProps.SearchPasses | lab-3/include/mmu.hh:879-886 | a mapped page is passed over, and coming back to the start is `bad_alloc` |
| TranslateProps.AllocatePagesSound | lab-3/include/mmu.hh:893-895 | allocating the pages never loops |
| TranslateProps.PageCounts | lab-3/include/mmu.hh:847 | the page count is `length / 256 + 1` (1 for 128 bytes, 33 for 8192), and 0 exactly on `size_t` wrap |
| TranslateProps.SimpleMmapOutcome | lab-3/include/mmu.hh:794-898 | `simple_mmap` diverges exactly when the page count wraps to 0 below `0xf800`; a returned address is page-aligned and at or above the hint's page |
| TranslateProps.SimpleMmapSteps | lab-3/include/mmu.hh:835-851 | a null hint means `0x1000`, the start is its page, and the mapping goes from there |
| TranslateProps.MapFromSound | lab-3/include/mmu.hh:865-897 | mapping returns the page the search landed on |
| BootProps.KernelMappingWords | lab-3/include/mmu.hh:575-590 | the break is 96, the fourth root slot points at 80, and slot 7 there holds the kernel entry; the other tables are still zero |
| BootProps.KernelDescriptor | lab-3/include/mmu.hh:592-593 | frame 0 is pinned with one back reference, 80 |
| BootProps.KernelFrameWords | lab-3/include/mmu.hh:571-594 | after the constructor the free map is `0xfffe` and the kernel's words are as above |
| BootProps.BootSecondaryWords | lab-3/include/mmu.hh:563 | the free region is `(1, 1023)` |
| BootProps.BootSetsTables | lab-3/include/mmu.hh:560-595 | the constructed machine has exactly the tables described |
| BootProps.KernelPageIndices | lab-3/include/mmu.hh:728-750 | `0xf824` uses root slot 3 and L1 index 7 |
| BootProps.EmptyTlbMisses | lab-3/include/mmu.hh:413-435 | an empty TLB misses every address |
| BootProps.KernelLeaf | lab-3/include/mmu.hh:739-745 | slot 7 of the kernel directory is a page entry at level 1 |
| BootProps.KernelDirectory | lab-3/include/mmu.hh:748-751 | the root slot leads to that slot |
| BootProps.WalkFindsKernelPage | lab-3/test/test-all.cc:12-14 | on a fresh machine `0xf824` reads as `0x0024` by a page walk and caches page `0xf800` |
| BootProps.KernelEntryGrantsRead | lab-3/include/mmu.hh:646-677 | the kernel entry grants reading on frame 0 |
| BootProps.HitFindsKernelPage | lab-3/test/test-all.cc:16-18 | then `0xf834` reads as `0x0034` by a TLB hit |
| BootProps.UnmappedSegfaults | lab-3/test/test-all.cc:20-21 | an unmapped `0x1000` is a segfault |
| BootProps.KernelRecordMisses | lab-3/include/mmu.hh:413-435 | the TLB holding only the kernel record misses `0x1000` |
| BootProps.TranslationScenario | lab-3/test/test-all.cc:8-22 | the whole translate scenario from the constructor: walk, hit, segfault |
| BootProps.MmapOnFreshMachine | lab-3/test/test-all.cc:24-26 | `simple_mmap(0, …)` on a fresh machine never diverges and returns `0x1000` |
| Machines.Machine.constructor | lab-3/include/mmu.hh:560-595 | the new machine's state is `Boot` of the initial secondary memory |
| Machines.Machine.FormatSecondary | lab-3/include/mmu.hh:562-563 | the region pointer is set as `BootSecondary` says |
| Machines.Machine.ZeroMain | lab-3/include/mmu.hh:566 | main memory is all zero |
| Machines.Machine.SetUpKernel | lab-3/include/mmu.hh:571-594 | main memory becomes `KernelFrame` of what it was |
| Machines.Machine.MapKernelFrame | lab-3/include/mmu.hh:575-590 | main memory becomes `KernelMapping` of what it was |
| Machines.Machine.Load16 | lab-3/include/mmu.hh:524-543 | reads the little-endian word `Read16` names |
| Machines.Machine.Store16 | lab-3/include/mmu.hh:524-543 | writes the word as `Write16` says, nothing else |
| Machines.Machine.LoadSecondary16 | lab-3/include/mmu.hh:492-495 | reads a region word of secondary memory |
| Machines.Machine.StoreSecondary16 | lab-3/include/mmu.hh:492-495 | writes a region word of secondary memory |
| Machines.Machine.GetDescriptor | lab-3/include/mmu.hh:517-519 | reads the descriptor of frame `f` |
| Machines.Machine.SetDescriptor | lab-3/include/mmu.hh:517-519 | writes the descriptor of frame `f`, nothing else |
| Machines.Machine.Kalloc | lab-3/include/mmu.hh:612-624 | result and new state are `MachineSpec.Kalloc` of the old state |
| Machines.Machine.FindVictim | lab-3/include/mmu.hh:992-1030 | result and new state are `MachineSpec.FindVictim` of the old state |
| Machines.Machine.Examine | lab-3/include/mmu.hh:999-1011 | one iteration of the victim loop keeps it on course to `FindVictim` |
| Machines.Machine.Compare | lab-3/include/mmu.hh:999-1005 | a ready frame ends the pass or updates the candidate as `FindFrom` does |
| Machines.Machine.Contest | lab-3/include/mmu.hh:1003-1005 | of two ready frames, the one with fewer back references wins |
| Machines.Machine.Skip | lab-3/include/mmu.hh:1006-1010 | a frame that is not ready is unreferenced and may become the tagged candidate |
| Machines.Machine.SwapFrames | lab-3/include/mmu.hh:981-984 | the word-by-word swap loop gives `MachineSpec.SwapFrames` |
| Machines.Machine.SwapWord | lab-3/include/mmu.hh:984 | one `std::swap` of 4-byte words moves the exchange 4 bytes on |
| Machines.Machine.ZeroFrame | lab-3/include/mmu.hh:935 | the frame is zeroed |
| Machines.Machine.UpdatePageEntriesAfterSwap | lab-3/include/mmu.hh:1034-1056 | result and new state are `UpdateAfterSwap` of the old state |
| Machines.Machine.UpdateEntry | lab-3/include/mmu.hh:1045-1052 | one iteration invalidates and rewrites one entry, or aborts |
| Machines.Machine.SwapVictim | lab-3/include/mmu.hh:976-989 | result and new state are `MachineSpec.SwapVictim` |
| Machines.Machine.ShrinkRegion | lab-3/include/mmu.hh:938-939 | secondary memory becomes `ShrinkRegion` of what it was |
| Machines.Machine.Evict | lab-3/include/mmu.hh:924-940 | result and new state are `MachineSpec.Evict` |
| Machines.Machine.ClaimFrame | lab-3/include/mmu.hh:919-940 | result and new state are `MachineSpec.ClaimFrame` |
| Machines.Machine.MarkClaimed | lab-3/include/mmu.hh:943-947 | main memory becomes `MarkClaimed` of what it was |
| Machines.Machine.MakeDirectories | lab-3/include/mmu.hh:955-965 | result and new state are `MachineSpec.MakeDirectories` |
| Machines.Machine.LinkDirectory | lab-3/include/mmu.hh:958-964 | result and new state are `MachineSpec.LinkDirectory` |
| Machines.Machine.PlaceEntry | lab-3/include/mmu.hh:967-971 | the new state is `MachineSpec.PlaceEntry` |
| Machines.Machine.Install | lab-3/include/mmu.hh:950-971 | result and new state are `MachineSpec.Install` |
| Machines.Machine.AllocateOnSegfault | lab-3/include/mmu.hh:913-972 | result and new state are `MachineSpec.AllocateOnSegfault` |
| Machines.Machine.HandleFault | lab-3/include/mmu.hh:906-972 | result and new state are `MachineSpec.HandleFault` |
| Machines.Machine.CacheEntry | lab-3/include/mmu.hh:659 | the TLB becomes `Cached` of what it was |
| Machines.Machine.Touch | lab-3/include/mmu.hh:675-676 | result and new state are `MachineSpec.Touch` |
| Machines.Machine.TranslateWithEntry | lab-3/include/mmu.hh:646-677 | result and new state are `MachineSpec.TranslateWithEntry` |
| Machines.Machine.SwapIn | lab-3/include/mmu.hh:663-673 | result and new state are `MachineSpec.SwapIn` |
| Machines.Machine.Reinstate | lab-3/include/mmu.hh:665-676 | result and new state are `MachineSpec.Reinstate` |
| Machines.Machine.TranslateCached | lab-3/include/mmu.hh:722-724 | result and new state are `MachineSpec.TranslateCached` |
| Machines.Machine.Fill | lab-3/include/mmu.hh:732-735 | result and new state are `Filled` |
| Machines.Machine.WalkLevel | lab-3/include/mmu.hh:730-755 | one iteration of the walk loop ends the translation or continues one level down, on course to `Walk` |
| Machines.Machine.FollowLevel | lab-3/include/mmu.hh:739-754 | the rest of an iteration, on course to `Walk` |
| Machines.Machine.Leaf | lab-3/include/mmu.hh:739-745 | result and new state are `MachineSpec.Leaf` |
| Machines.Machine.WalkLeaf | lab-3/include/mmu.hh:757-763 | the last level gives `Walk` at level 2 |
| Machines.Machine.Translate | lab-3/include/mmu.hh:714-764 | result and new state are `MachineSpec.Translate` |
| Machines.Machine.Resolve | lab-3/include/mmu.hh:721-763 | result and new state are `MachineSpec.Resolve` |
| Machines.Machine.LookUp | lab-3/include/mmu.hh:721 | the TLB and the entry are those of `LookedUp` on the page |
| Machines.Machine.WalkTable | lab-3/include/mmu.hh:728-763 | result and new state are `Walk` from the root slot |
| Machines.Machine.AllocatePage | lab-3/include/mmu.hh:781-783 | result and new state are `MachineSpec.AllocatePage` |
| Machines.Machine.SimpleMmap | lab-3/include/mmu.hh:794-898 | result and new state are `MachineSpec.SimpleMmap` |
| Machines.Machine.MapFrom | lab-3/include/mmu.hh:862-897 | result and new state are `MachineSpec.MapFrom` |
| Machines.Machine.Search | lab-3/include/mmu.hh:865-887 | the search loop gives `MachineSpec.Search` |
| Machines.Machine.Probe | lab-3/include/mmu.hh:866-886 | one iteration ends the search or moves one page on, on course to `Search` |
| Machines.Machine.AllocatePages | lab-3/include/mmu.hh:893-895 | result and new state are `MachineSpec.AllocatePages` |
| Machines.Machine.ReadByte | lab-3/include/mmu.hh:602-604 | the result is `MachineSpec.ReadByte` |
| Machines.Machine.StoreByte | lab-3/include/mmu.hh:607-609 | result and new state are `MachineSpec.StoreByte` |
| Machines.SearchStops | lab-3/include/mmu.hh:865 | at or above `0xf800` the search stops at once |
| Machines.MovedInDone | lab-3/include/mmu.hh:984 | after 256 bytes the exchange has moved the whole slice |
| Lambda.EqualIsIdentity | lab-4/src/Lambda.cc:9-17 | the overloaded `operator==` is equality of terms |
| Lambda.Substitute | lab-4/src/Lambda.cc:19-46 | substituting for a variable that is not free changes nothing |
| Lambda.SubstituteFreeVariables | lab-4/src/Lambda.cc:19-46 | the free variables of the result come from `t` (other than `x`) or from `u` |
| Lambda.SubstituteCaptures | lab-4/src/Lambda.cc:27-33 | substitution is not capture-avoiding: `(λ1.x0)[x0 := x1]` is `λ1.x1` |
| Lambda.Step | lab-4/src/Lambda.cc:66-85 | a term that does not step is returned unchanged |
| Lambda.StepIffRedex | lab-4/src/Lambda.cc:48-85 | `step` reports a reduction exactly when the term holds a reachable redex |
| Lambda.AppStepCases | lab-4/src/Lambda.cc:48-64 | callee first, then argument, then β-reduction, else no step |
| Lambda.IdentityDoesNotStep | lab-4/test/test-all.cc:26-30 | `λx.x` does not step and is unchanged |
| Lambda.LoopyStepsToItself | lab-4/test/test-all.cc:20-24 | `(λx.x x)(λx.x x)` steps to itself |
| Lambda.ApplyIdentityToUnit | lab-4/test/test-all.cc:14-18 | `(λx.x) u` steps to `u`, a value, while `step` answers true |
| Lambda.LetSteps | lab-4/include/Lambda.hh:119-122 | `let x = t in u` steps to `u[x := t]` when neither part steps |
| Church.IterateInside | lab-4/src/Church.cc:6-9 | applying `f` inside is applying it outside |
| Church.NumberHelperIsIterate | lab-4/src/Church.cc:6-9 | the accumulator helper builds `fⁿ x` |
| Church.NumberHelperSucc | lab-4/src/Church.cc:6-9 | one more helper round puts one more `f` around the result |
| Church.NumberShape | lab-4/src/Church.cc:11-13 | numeral `n` is `λx0.λx1.x0ⁿ x1` |
| Church.NumberZeroIsFalse | lab-4/include/Church.hh:13-16 | zero and false have the same encoding |
| Church.IterateVarsHasNoRedex | lab-4/src/Church.cc:6-9 | iterating a variable on a variable makes no redex |
| Church.NumberIsNormal | lab-4/src/Church.cc:11-13 | every numeral is in normal form |
| Church.SuccessorOfZeroSteps | lab-4/test/test-all.cc:34-38 | `succ 0` steps, substituting the numeral zero for the successor's parameter |
| Scheduler.Advance | lab-4/include/Scheduler.hh:95-102 | a visited task becomes Running exactly when its program reduces and Terminated exactly when it cannot; a terminated task keeps its program |
| Scheduler.Survivors | lab-4/include/Scheduler.hh:95-102 | erasing keeps at most as many entries |
| Scheduler.SurvivorsMembers | lab-4/include/Scheduler.hh:95-102 | the entries kept are exactly the visited tasks whose program steps |
| Scheduler.SurvivorsIncreasing | lab-4/include/Scheduler.hh:98-101 | erasing keeps the work list in order |
| Scheduler.Visited | lab-4/include/Scheduler.hh:90 | a step visits `min(coreCount, |work|)` entries |
| Scheduler.ServeFrom | lab-4/include/Scheduler.hh:87-105 | the loop, run from any point, ends in `NextTasks` and `NextWork` |
| Scheduler.InState | lab-4/include/Scheduler.hh:22-29 | the set holds exactly the tasks in a given state |
| Scheduler.Elements | lab-4/include/Scheduler.hh:72-73 | a list has no more distinct elements than entries |
| Scheduler.RunningBounded | lab-4/test/test-all.cc:73-74 | in a consistent state at most `coreCount` tasks are running |
| Scheduler.EmptyWorkUnchanged | lab-4/include/Scheduler.hh:84-85 | a step with no work changes nothing |
| Scheduler.StepOutcome | lab-4.5/Scheduler.hh:46-49 | a step erases exactly the visited entries that cannot step and terminates exactly those tasks |
| Scheduler.NextWorkIncreasing | lab-4.5/Scheduler.hh:76-79 | the work list stays strictly increasing and indexes the tasks |
| Scheduler.NextWorkLive | lab-4.5/Scheduler.hh:89-92 | no terminated task is left in the work list |
| Scheduler.NextRunningInFront | lab-4.5/Scheduler.hh:46-47 | every running task is among the first `coreCount` outstanding entries |
| Scheduler.StepTouchesVisited | lab-4/include/Scheduler.hh:90-104 | the loop advances exactly the visited tasks and leaves every other task as it was |
| Scheduler.NextWorkDone | lab-4/include/Scheduler.hh:98-101 | every task a step drops from the work list, or that was never in it, is Terminated |
| Scheduler.IdleMeansTerminated | lab-4/include/Scheduler.hh:55-56 | with the work list empty, every task is Terminated |
| Scheduler.StepKeepsConsistent | lab-4/include/Scheduler.hh:43-57 | a step keeps the scheduler's invariant |
| Scheduler.Fcfs.constructor | lab-4/include/Scheduler.hh:77-81 | the work list is `0, 1, …, n-1` |
| Scheduler.Fcfs.Step | lab-4/include/Scheduler.hh:83-108 | it returns true exactly when work was outstanding, and false only when every task is Terminated; the new work list and tasks are `NextWork` and `NextTasks`; the invariant is kept |
| Scheduler.Fcfs.ServeFront | lab-4/include/Scheduler.hh:87-105 | the loop yields `NextWork` and `NextTasks` |
| Scheduler.Fcfs.Visit | lab-4/include/Scheduler.hh:91-104 | one iteration keeps the loop on course |
| ArrayOps.ReversedAt | lab-2.5/sort/src/array.cc:9-13 | element `k` of the reversal is element `n-1-k` |
| ArrayOps.ReversedTwice | lab-2.5/sort/src/array.cc:9-13 | reversing twice gives the original |
| ArrayOps.ReversedPermutes | lab-2.5/sort/src/array.cc:9-13 | reversal is a permutation |
| ArrayOps.Exchange | lab-2.5/sort/src/array.cc:3-7 | the two elements are exchanged, nothing else changes |
| ArrayOps.PartlyReversedDone | lab-2.5/sort/src/array.cc:12 | once the indices meet, the slice is reversed and the rest unchanged |
| ArrayOps.Reverse | lab-2.5/sort/src/array.cc:9-13 | the slice is reversed in place and the rest is unchanged; a non-positive length changes nothing |
| ArrayOps.Quicksort | lab-2.5/sort/src/array.cc:15-17 | the empty routine leaves the array unchanged |
| Sorting.IsOrderedAdjacent | lab-3.5/src/ex5.cc:30-37 | `is_ordered` holds exactly when every adjacent pair is related |
| Sorting.EqualNeighboursNotOrdered | lab-3.5/src/ex5.cc:133-134 | under `<`, equal neighbours make the check fail |
| Sorting.SortedIffNoDescent | lab-3.5/src/ex5.cc:30-37 | a range is sorted exactly when no element is before its predecessor |
| Sorting.InsertionSort | lab-3.5/src/ex5.cc:39-51 | the range ends sorted and a permutation of itself; nothing outside it changes |
| Sorting.InsertNext | lab-3.5/src/ex5.cc:44-48 | the inner loop extends the sorted prefix by one, as a permutation |
| Sorting.InsertingStep | lab-3.5/src/ex5.cc:45-47 | one swap moves the new element down and keeps the loop's invariant |
| Sorting.InsertingDone | lab-3.5/src/ex5.cc:45 | when the inner loop stops the prefix is sorted |
| Sorting.Partition | lab-3.5/src/ex5.cc:86-88 | elements below the pivot come first, the range is permuted, nothing outside it changes |
| Sorting.PartitionAroundLast | lab-3.5/src/ex5.cc:86-92 | the pivot lands between the two parts |
| Sorting.JoinSorted | lab-3.5/src/ex5.cc:90-98 | the sorted parts and the pivot make a sorted range |
| Sorting.QuicksortStep | lab-3.5/src/ex5.cc:86-111 | partitioning then sorting both sides sorts the range as a permutation |
| Sorting.ConcurrentQuicksort | lab-3.5/src/ex5.cc:73-112 | the range ends sorted and a permutation of itself; nothing outside it changes |
| Sorting.SortAroundPivot | lab-3.5/src/ex5.cc:86-111 | the recursive case sorts the range |

## Left out

**Not modelled:**
- `write_address` and every `operator<<`: they only print.
- `PhysicalAddress`, `PageLookupError::what` and `rebind`: they are type plumbing and message text. Memory words are read and written as little-endian 16-bit values (`Read16`/`Write16`), as the pointer casts do on the lab's machines.
- The `new`/`delete` of secondary memory. The constructor takes the initial contents of secondary memory as a parameter `sec0`, because `new std::byte[]` leaves them indeterminate.
- `pte_offset` is not a member of its own: its truncation of an offset to 8 bits is part of `PlaceEntry` and `Reinstate`.
- The `pthread` branch of the concurrent quicksort. The two parts are sorted one after the other, which is the same result because they are disjoint. The `mmap` of shared memory, the random fill and `describe` are left out as I/O.
- The program sorts `double`. The model sorts `int` under `<`, and the sort's comparator is fixed to `<`, the only one the program passes.
- Exercises ex1 to ex4, `utilities.hh`, the Python scripts of lab 1.5, `tree.hh` and the tt.cpp sandbox are outside the modelled core.
- `Indirect<T>`: it is a heap box, and terms are a plain recursive datatype.
- The `RoundRobin` and `Priority` schedulers: their bodies are empty stubs.

**Modelled differently:**
- `step(Term&)` updates its argument in place. It is modelled as a function returning the flag and the new term.
- `assert`, `std::abort` and out-of-range memory accesses, which are undefined behaviour, become the `Abort` fault.
- A permission fault in the `simple_mmap` search, and a page count that wraps to 0, make the program loop forever. Both become the `Diverges` fault.

**Proved for a narrower case than the code covers:**
- SwapProps.UpdateSingleReference: proved only for a frame with a single back reference stored outside the frame table. Frames with two back references are covered by `UpdateFromKeeps` only, and a count above 2 aborts as in the code.
- SwapProps.EvictTakesSlot: requires the region offset to be nonzero. Slot 0 holds the region pointer itself, so taking it would overwrite the words being proved.
- MachineSpec.Kalloc: the bound on the returned address is stated only when the break plus the request does not wrap `std::size_t`.
- Scheduler.Fcfs.constructor: establishes the invariant only when every task starts Ready. A task handed over as Running breaks the running-in-front invariant from the start.
- TranslateProps.SwapInReinstates: the back reference is proved recorded only when the victim's cleared descriptor counts 0. `clear_back_references` keeps bits 6-7 of the count byte, so a frame whose permanent position has those bits set reads a count of 16 or more after clearing, and `add_back_reference` then records nothing.
- TranslateProps.SwapInFillsFrame: bytes of the victim frame below 257 are not covered, because the rewritten entries may lie there.
- MachineProps.StoreThenRead: covers physical addresses only. A byte round trip through `translate` across an eviction and swap-in, and the byte loops of the `mmap_simple` and `mmap_large` scenarios, are not proved.

**Where the documentation and the code disagree, the model follows the code:**
- `Lambda.hh:105` says `step` returns true iff the result is not a value. The code returns whether a reduction happened (`Lambda.ApplyIdentityToUnit`).
- `Scheduler.hh:55-56` says `step` returns true iff some task stepped. The code returns true whenever work was outstanding, even when every visited task terminates in that call (`Scheduler.Fcfs.Step`). The other half of that comment, that a false result means every task is Terminated, holds and is proved.
- The const and non-const `TLB::operator[]` use `& (size - 1)` and `% size`. These agree for the size of 4.
- `(length + 256) / 256` pages are mapped: one page too many when the length is a multiple of 256. This is reproduced as written.
- The kernel frame's back reference is recorded as 80, the offset of the directory, rather than 94, the offset of its page entry. This is reproduced as written.

## Findings

| source | as written | input that shows it | evidently intended | confidence | as-written member | corrected member |
|---|---|---|---|---|---|---|
| lab-3/include/mmu.hh:259-268 | the getter reads bits 6-7 of byte 0 as bits 14-15 of the position, and the setter ors `p >> 8` into the low bits of byte 0, over the flags and the count | `p = 256`: reads back 0 and sets the referenced flag | a 10-bit position whose high two bits are bits 6-7 of byte 0, with the flags and the count kept | not executed | Codec.PermanentPositionRoundTrip | Codec.CorrectedPermanentPositionRoundTrip |
