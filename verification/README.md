# Xinix: models and proofs of the low-level code

This project models the parts of the Xinix kernel, its pre-kernel loader, its dynamic linker and the
boot installer it builds (`externals/limine-binary`) whose correctness is a matter of state: page
tables, a write-back cache with an undo log, memory that is handed from one boot stage to the next,
lock-free protocols, relocation, clocks, a line editor and number printing. `dafny verify
dfyconfig.toml` checks all of it.

Each loop of the source is a Dafny loop, each object that is updated in place a class (or an array);
the specifications they meet are functions, and what the source promises is proved about those
functions and as invariants.

- **Page tables.** `PageTables` is the processor's side: the 4-level walk of the Intel SDM, volume 3A,
  section 4.5. It says nothing about the kernel's code and judges it. `Paging` has `clone_page_table`
  and `add_to_hhdm` as methods of one kernel, and the theorem about the two in this order;
  `PageTableClone` and `DirectMap` have what each step does to the walks, `ClonedTree` shows that the
  result of the first meets what the second needs, and `PageEntryBits` ties the fields of the entries
  to the 64-bit words and the masks of the source. Memory is a map from page frames to tables of 512 entries.
- **Block cache and undo log.** `UndoLog` has the theory of logs of overwritten bytes, `UndoFile` the
  file they are stored in, `BlockCache` the one-block cache, reads and writes through it, the rollback
  of a failed installation and the uninstallation. A device stands for one flat byte array: the file
  with the cached block laid over it.
- **Boot memory.** `Rounding` ties the masks of the source to multiples of powers of two. `Bump` has both
  bump allocators, `BootMap` the memory map on its way through four
  files, ending in one theorem about all blocks that are ever handed out; `ElfImage` the copy of the
  kernel's segments.
- **Protocols.** `CallOnce` and `GeneratorLock` are state machines over any number of threads, whose
  steps are the atomic accesses; their theorems hold in every state of every interleaving.
  `EntropyRing` runs the consumer with arbitrary interrupts between its accesses.
- **Relocation.** `Relocation` is the two-pass schedule of the dynamic linker, `Relr` the loop over
  relative relocations, compared with the decoding of the System V gABI.
- **Clocks.** `Clock` goes from the time stamp counter to the wall clock.
- **Text.** `LineEditor` has `memmove` and the prompt, `SignatureScan` the search for the place of a
  checksum in the boot loader file, `Numerals` and `NumberPrinting` the printing of numbers.
- `Arithmetic`, `Bytes` and `Options` are shared.

## What the code does not do

Where a promise fails, the model keeps the code as it is, and the exact condition is proved.

- `duration_add` compares with `>`: a sum of exactly 10^9 ns is left denormal (`Clock.DurationAdd`).
- `read_tsc` overflows above 18446744074 Hz, and at 1 Hz (`Clock.TscExactIff`).
- The 16 MiB set aside for the kernel image wrap a length around if the chosen region is too small
  (`BootMap.KernelMapWellFormedIff`).
- Chained RELR bitmaps are decoded differently from the gABI, because the cursor moves by the shifts
  done and not by 63 words (`Relr.WalkIsDecode`, `Relr.ChainedBitmapsDiffer`).
- `poll_ebuf` repeats its loop after a successful exchange. It still takes one event, but loses it when
  the ring fills in between (`EntropyRing.EventLostIff`, `EntropyRing.PollLosesEvent`).
- The signature scan compares the index of a last byte with a limit for first bytes, and misses a
  signature that has room for its checksum but not for 25 bytes more (`SignatureScan.FoundIff`).
- `print_unsigned_int` ends without a return. A count comes back only from a write that falls short, and
  not even then when there is no room, no prefix and no digit: `write_rep` returns 0 for its failure, as
  for success (`NumberPrinting.PrintHex`).
- `p_paddr + p_memsz` and its rounding wrap around. A segment in the last page of the address space gets an
  allocation of no bytes (`ElfImage.RangesInsideIff`, `ElfImage.WritesInsideIff`,
  `ElfImage.LastPageOutside`).
- An alignment that wraps around takes the cursor of the kernel heap to address 0
  (`Bump.GrantBelowIff`, `Bump.WrapLosesTheHeap`).
- A failed read leaves the cache clean and under the number of the block it held before. An uninstallation
  with an entry that reaches past the last whole block can write the bytes behind that block into it
  (`BlockCache.UninstallReplaysIff`, `BlockCache.StaleBlockWritten`). On a device of whole blocks it cannot
  (`BlockCache.WholeBlocksReplay`).
- The undo log cannot be stored when an installation wrote an empty range (`UndoFile.Store`).
- Overlapping ELF segments are in place together exactly when they agree (`ElfImage.AllInPlaceIff`);
  the tail of a segment beyond its file size keeps what the allocation held, it is not zeroed
  (`ElfImage.DisjointInPlace`).
- Decimal output pads with zeros whatever the flags are, and measures the width against the precision and
  not against the digits. It is the text of the C standard exactly when there is no width beyond the
  precision, or zeros are asked for and the value has one digit (`NumberPrinting.DecimalIsCIff`,
  `NumberPrinting.SevenInFour`).

## Model

| member | source | states |
|---|---|---|
| Paging.Kernel.ClonePageTable | kernel/src/x86_64/paging.c:43-64 | Every address walks through the new tree to the same outcome (leaf, level, permissions) as through the old one, and the trees are the same word for word, but for the frames of lower tables and the bits 52-62 beside them; no old table is written; the new tables are the next pages of the heap, all different, one for each path of the old tree; it succeeds exactly when the heap holds 1 + (number of paths) pages; CR3 keeps its low 12 bits |
| Paging.Kernel.CloneLevel | kernel/src/x86_64/paging.c:12-41 | One level copied: only the copy and newly taken pages change, the taken pages are exactly those the subtree needs, and success is exactly "enough pages" |
| Paging.Kernel.CloneSubtree | kernel/src/x86_64/paging.c:18-31 | The branch that allocates, links and descends does what CopiedEntry asks of one entry |
| PageTableClone.CopiedOneMore | kernel/src/x86_64/paging.c:14-40 | Copying one more entry keeps everything copied before: earlier subtrees still translate alike and no page is used twice |
| PageTableClone.ClonedTableWalks | kernel/src/x86_64/paging.c:12-41 | If every entry of a copy does the work of its original, no virtual address tells the two tables apart |
| PageTableClone.SubtreeCopied | kernel/src/x86_64/paging.c:18-31 | Link first, fill afterwards: after the recursive call the entry linked before it leads to an equivalent subtree of fresh pages |
| PageTableClone.RootCopied | kernel/src/x86_64/paging.c:54-55 | A root whose 512 entries are copied translates as the original, and root and lower tables are a prefix of the heap |
| PageTables.WalkFrame | kernel/src/x86_64/paging.c:12-41 | The walk of an address depends on the tables below its root and on nothing else |
| PageTables.NodesFrame | kernel/src/x86_64/paging.c:12-41 | So does the list of tables below a root |
| Paging.Kernel.AddToHhdm | kernel/src/x86_64/paging.c:84-142 | Halts exactly when the walk is Blocked (BlockedIff); otherwise it terminates with every address of the page at a leaf of that level, W and NX as asked: a page that was there keeps its leaf and its user bit but for W and NX, a new one is no user page, has no other bit set and maps to the address less the offset. Every other address keeps its physical target and at least its permissions, and exactly its walk if it leaves the path of the new page where that was open so far, as every address with another level 4 index does; mapped addresses of the window map to themselves less the offset, before and after; of present entries only W and NX change, new ones have no bit but these, P and PS, new tables are the next pages of the heap, and no table outside of the tree is written |
| DirectMap.BlockedIff | kernel/src/x86_64/paging.c:92-118 | The walk for the address ends at a large page above the level asked for (also at level 4, where the processor has none), or goes on below that level |
| DirectMap.FreshPageEntered | kernel/src/x86_64/paging.c:119-129 | Where nothing was present, every address of the page finds the new leaf alone, with user, bits 3-6, 8-11 and 52-62 clear |
| DirectMap.PresentPageEntered | kernel/src/x86_64/paging.c:97-100 | A page that was present keeps its leaf, but for W and NX, and stays the user page that it was or was not |
| DirectMap.FlagsKeepUser | kernel/src/x86_64/paging.c:66-78 | Setting W and NX of an entry changes for no address whether its page is a user page |
| DirectMap.UserInLeaf | kernel/src/x86_64/paging.c:119-129 | A walk ends at a user page only if its leaf says so |
| Paging.Kernel.CloneAndAdd | kernel/src/x86_64/paging.c:43-142 | The clone followed by the extension: the page is entered as AddToHhdm says, compared with the old tree; every other address means what it meant through the old tree with at least its permissions (exactly, with another level 4 index), the window still maps address minus offset, the old tree is there word for word, and it halts exactly when the clone is Blocked |
| Paging.Kernel.FollowingFindsTheTable | kernel/src/x86_64/paging.c:105-106 | The sign-extended direct-map address of an entry leads to the table that the processor would walk to |
| DirectMap.SignExtendFixes | kernel/src/x86_64/paging.c:80-82 | The macro leaves an address alone if and only if its top 13 bits agree; canonical addresses are such |
| DirectMap.OpeningWidens | kernel/src/x86_64/paging.c:101-106 | set_flags on the way down costs no address its page or a permission |
| DirectMap.EmptyTableMapsNothing | kernel/src/x86_64/paging.c:130-138 | Linking an empty table below an absent entry changes no walk at all |
| DirectMap.UnreadStore | kernel/src/x86_64/paging.c:89-140 | A walk that does not read the changed entry ends where it ended |
| DirectMap.OneWayIn | kernel/src/x86_64/paging.c:89-140 | In a tree of separate tables, two addresses that come to one table took the same way there |
| DirectMap.SameIndicesSamePage | kernel/src/x86_64/paging.c:90 | Canonical addresses with equal indices down to a level lie in one page of that level |
| DirectMap.LeafMapsOffset | kernel/src/x86_64/paging.c:119-123 | The masked physical address of a new leaf sends every address of its page to that address less the offset |
| DirectMap.LeafStored | kernel/src/x86_64/paging.c:118-129 | Storing a leaf at the level reached makes exactly the addresses of one page end there, with the permissions of the leaf |
| DirectMap.FreshLeafMaps | kernel/src/x86_64/paging.c:121-129 | A leaf entered where nothing was keeps the window mapped to address less offset |
| DirectMap.PresentLeafMaps | kernel/src/x86_64/paging.c:97-100 | A present leaf that only changes its flags keeps every translation |
| DirectMap.KeptByOpening | kernel/src/x86_64/paging.c:101-106 | Opening an entry changes no walk that leaves the path at or above it, and does nothing where the path was open |
| DirectMap.DescendOpened | kernel/src/x86_64/paging.c:101-106 | A descent with opened permissions keeps the loop invariant one level lower |
| DirectMap.EmptyTableLinked | kernel/src/x86_64/paging.c:130-138 | Making a lower table keeps the loop invariant at the same level |
| ClonedTree.CloneIsSeparate | kernel/src/x86_64/paging.c:43-64 | The tree that clone_page_table makes has tables entered from one place only, which is what add_to_hhdm relies on |
| ClonedTree.DistinctTablesAreSeparate | kernel/src/x86_64/paging.c:12-41 | Pairwise distinct tables on all paths mean that each table has one level and one entry leading to it |
| PageEntryBits.CloneWord | kernel/src/x86_64/paging.c:27-29 | The two masks of the clone replace the frame, clear bits 52-62 and keep all other bits |
| PageEntryBits.FlagsWord | kernel/src/x86_64/paging.c:66-78 | set_flags on the 64-bit word changes the NX and W fields as the record model says, and no other bit |
| PageEntryBits.NxFields | kernel/src/x86_64/paging.c:68-72 | Bit 63 alone, set or cleared |
| PageEntryBits.WriteFields | kernel/src/x86_64/paging.c:73-77 | Bit 1 alone, set or cleared |
| BlockCache.Device.FlushCache | externals/limine-binary/limine.c:266-285 | After a flush the file is the flat array that the device stands for; a clean cache is not written |
| BlockCache.Device.CacheBlock | externals/limine-binary/limine.c:287-312 | Fails exactly for a block that is not whole in the file; otherwise the flat array is unchanged; a failure has flushed the old block first, keeps its number, and leaves in the buffer the bytes that were behind the last whole block |
| BlockCache.Device.Read | externals/limine-binary/limine.c:445-465 | Returns exactly the bytes [loc, loc + count) of the flat array and leaves it unchanged; fails exactly when they reach past the last whole block |
| BlockCache.Device.Write | externals/limine-binary/limine.c:467-522 | Changes exactly [loc, loc + count) of the flat array and logs the bytes that were there; success exactly when the bytes are reachable and, while installing, the log has room; a failure while installing leaves no mark but a possible flush, and one while uninstalling has written exactly the reachable part |
| BlockCache.Device.WriteThrough | externals/limine-binary/limine.c:495-516 | The chunks of a write add up to one splice, cut off where the whole blocks end; the file itself only ever holds old or flat bytes outside the write |
| BlockCache.Device.ReverseUninstallData | externals/limine-binary/limine.c:328-334 | The log becomes its own reversal, in place |
| BlockCache.Device.Uninstall | externals/limine-binary/limine.c:524-574 | With the cached block thrown away, dirty or not, each entry of any log is written, and tried again when that fails; the file ends as UndoneAll says, and success is reported exactly when all entries were reachable |
| BlockCache.Device.UninstallEntry | externals/limine-binary/limine.c:534-553 | One entry with its retry is one step of Undone, also from a cache that was read over |
| BlockCache.ReachableReplays | externals/limine-binary/limine.c:524-574 | For a reachable log UndoneAll is the replay, entry by entry |
| BlockCache.WholeBlocksReplay | externals/limine-binary/limine.c:524-574 | On a device of whole blocks it is the replay of the reachable parts, failures or not |
| BlockCache.UndoneAllAt | externals/limine-binary/limine.c:287-312 | What any uninstallation leaves in each byte: the last reachable saved value or the byte that was there, except bytes left misplaced, which hold the byte one block further on |
| BlockCache.UninstallReplaysIff | externals/limine-binary/limine.c:537-553 | A whole uninstallation is the replay of what is reachable if and only if each byte left misplaced (by an entry begun in the last whole block right after one that was cut off, and named by none since) equals the one that belongs there |
| BlockCache.StaleBlockWritten | externals/limine-binary/limine.c:537-553 | Blocks of 512 bytes, any file of 513 whose first and last bytes differ, and two entries that name bytes 511 and 512 only: byte 0 becomes byte 512 |
| BlockCache.Device.Perform | externals/limine-binary/limine.c:576-580 | One use of the device: the bytes written are those given, no others change, and from that very moment it stays possible to roll back |
| BlockCache.Device.Install | externals/limine-binary/limine.c:1206-1227 | All or nothing. It succeeds exactly when all ranges lie in whole blocks, there are at most 256 writes and it does not give up; then byte x of the file holds what the last write that covers x put there, or what it held, and the reversed log replays to the original. After any failure, and after giving up with the cache still dirty, the file is byte for byte the original |
| BlockCache.PerformedIsLastWritten | externals/limine-binary/limine.c:445-522 | The operations performed in order leave in each byte what the last write that covers it put there, or, without one, what it held |
| BlockCache.CanPerformAllIff | externals/limine-binary/limine.c:445-522 | They can be performed if and only if all ranges lie in whole blocks and the writes are no more than the log holds |
| BlockCache.UninstallFromFile | externals/limine-binary/limine.c:743-759 | A later uninstallation writes whatever log the file holds as Uninstall does, and touches nothing if it holds none |
| BlockCache.InstallThenUninstall | externals/limine-binary/limine.c:328-574 | Installation, store, load in a new process and uninstallation: in between the file holds the last value written to each byte, and in the end every byte is back; the log is stored exactly when no write was empty; an installation that fails or gives up gives back every byte at once |
| BlockCache.PatchBlock | externals/limine-binary/limine.c:508-513 | Patching the cached block is a splice of the flat array at block * size + offset |
| BlockCache.LoggedWrite | externals/limine-binary/limine.c:479-520 | The log after a write undoes both the file and the flat array |
| UndoLog.BackwardsReplay | externals/limine-binary/limine.c:328-334 | Replaying a log backwards leaves in every byte the oldest saved value, whatever the order and overlap of the entries |
| UndoLog.UndoesMeans | externals/limine-binary/limine.c:524-553 | A log that undoes a disk gives back the original when it is reversed and replayed |
| UndoLog.UndoesAfterWrite | externals/limine-binary/limine.c:487-520 | Saving what a write overwrites keeps the log able to undo, for the written array and for every mixture the cache may leave on disk |
| UndoLog.UndoesMixed | externals/limine-binary/limine.c:266-312 | Flushes at any moment keep the log able to undo |
| UndoFile.Store | externals/limine-binary/limine.c:342-380 | Fails exactly when some entry is empty; else writes the count, and location, length and bytes of every entry |
| UndoFile.Load | externals/limine-binary/limine.c:382-443 | Reads back what the format says, refusing short files, empty entries and more than 256 entries |
| UndoFile.LogRoundTrip | externals/limine-binary/limine.c:342-443 | What was stored is found again, also with other bytes behind it |
| UndoFile.FileFields | externals/limine-binary/limine.c:353-366 | The file field by field: the number of entries, then for each its location, its length and its bytes, each where the ones before it end |
| UndoFile.ByteOf | externals/limine-binary/limine.c:353-366 | Numbers are stored least significant byte first |
| UndoFile.LogInIff | externals/limine-binary/limine.c:382-443 | A log is loaded from a file if and only if it is one that can be stored and the file begins with what storing it writes |
| BootMap.Boot | prekernel/limine/src/main.c:78-200 | From the boot loader map to kernel allocations: pre-kernel blocks, kernel image and kernel heap blocks are pairwise apart, the image is the rounded size, heap bytes were usable in the first map, the heap is the first largest usable region of the final map, and its calls are answered in turn as Responds says |
| BootMap.HigherHalfBoots | prekernel/limine/src/main.c:78-200 | A map, requests and calls with the direct map at 0xFFFF800000000000 that meet all that Boot asks for |
| BootMap.PreKernelPhase | prekernel/limine/src/main.c:78-198 | Picks the first largest region, places allocations and image inside its reserved part, and makes the map of the kernel; it goes through exactly with usable memory, a kernel module and an accepted kernel file |
| BootMap.LargestUsable | kernel/src/common/memory.c:75-97 | The loop of init_heap and find_and_init_alloc finds the first of the largest usable regions |
| BootMap.SplitMap | prekernel/limine/src/main.c:172-198 | The in-place loop yields the map with one region split in two, the length of the rest modulo 2^64, and the later ones moved up |
| BootMap.Adjust | prekernel/shared/src/entry.c:124-135 | The first reserved region grows and its successor shrinks by 16 MiB, lengths modulo 2^64; nothing else changes |
| BootMap.KernelMapMoves | prekernel/shared/src/entry.c:124-135 | With room for 16 MiB more, split and adjustment together are one larger split |
| BootMap.KernelMapWellFormedIff | prekernel/shared/src/entry.c:124-135 | The kernel map has disjoint in-range regions if and only if the chosen region had room for what was taken, be it more than the region, and 16 MiB |
| BootMap.SplitCovers | prekernel/limine/src/main.c:180-196 | Conservation: the bytes taken become reserved and every other byte keeps its kind |
| BootMap.SplitWellFormed | prekernel/limine/src/main.c:180-196 | Disjointness is kept |
| BootMap.UsableIsFree | kernel/src/common/memory.c:75-97 | A usable byte of the kernel map was usable before and was not taken |
| BootMap.HeapApart | kernel/src/common/memory.c:75-97 | Blocks inside any usable region of the kernel map share no byte with pre-kernel blocks and image |
| Bump.PreKernel.AlignedAlloc | prekernel/shared/src/alloc.c:12-21 | The next aligned virtual address is handed out, and both cursors move by the same distance, all modulo 2^64 |
| Bump.PreKernel.Run | prekernel/shared/src/alloc.c:12-21 | A run that ends below 2^64 hands out exactly the blocks of Laid, and the cursors keep their distance |
| Bump.LaidApart | prekernel/shared/src/alloc.c:12-21 | These blocks follow one another, each with the size and alignment asked for |
| Bump.LaidOneAfterAnother | prekernel/shared/src/alloc.c:12-21 | Each begins at the next multiple of its alignment behind the one before it, and the cursor ends behind the last |
| Rounding.AlignUpIsNext | kernel/src/common/memory.c:101-102 | AlignUp is the smallest multiple not below |
| Rounding.MaskRounds | kernel/src/common/memory.c:101-102 | The bitwise and with the complement of a - 1 rounds down to a multiple of a, for every power of two |
| Rounding.NextAlignedIs | prekernel/shared/src/alloc.c:13-15 | The expression of the source, modulo 2^64, is the next multiple, or 0 if and only if there is none below 2^64 |
| Rounding.AlignsUpIff | kernel/src/common/memory.c:101-102 | An address above 0 is not lowered by it if and only if the addition does not wrap around |
| Bump.KernelHeap.AllocAligned | kernel/src/common/memory.c:99-111 | For every power of two, grants exactly the requests that fit behind the aligned cursor, at that cursor, which stays aligned after a refusal |
| Bump.KernelHeap.AllocMax | kernel/src/common/memory.c:113 | malloc is aligned_alloc with an alignment of 16 |
| Bump.KernelHeap.AllocZeroed | kernel/src/common/memory.c:115-127 | Nothing happens for an empty or overflowing product; otherwise the block at the aligned cursor is given if and only if it fits; it is all zero, and no other byte of memory changed |
| Bump.KernelHeap.Memset | kernel/src/common/memory.c:30-38 | Exactly the bytes of the range take the value |
| Bump.KernelHeap.Run | kernel/src/common/memory.c:99-127 | Any run of calls is answered in turn, each as Responds says (None exactly for an empty or overflowing calloc, or when the block at the aligned cursor does not fit), and memory changes by the zeros of the blocks that calloc gave |
| Bump.GrantResponds | kernel/src/common/memory.c:99-127 | What the specification grants is what Responds says, for every cursor, with or without wrapping around |
| Bump.ServedInTurn | kernel/src/common/memory.c:99-127 | So it is for the calls of a run, one after the other |
| Bump.ServedApart | kernel/src/common/memory.c:99-127 | Over any run that does not wrap around, the blocks granted are ordered, apart, inside the heap, and of the size and alignment asked for |
| Bump.GrantBelowIff | kernel/src/common/memory.c:101-110 | A block granted lies below the cursor, and then at address 0, if and only if the alignment wrapped around |
| Bump.WrapLosesTheHeap | kernel/src/common/memory.c:101-110 | In the upper half an alignment of 2^63 makes the next malloc return address 0 |
| Bump.SmallAlignmentsNeverWrap | kernel/src/common/memory.c:99-111 | With alignments up to b, a heap that ends 2b below 2^64 never wraps around |
| Bump.CallocTest | kernel/src/common/memory.c:117 | The division test holds exactly when the product fits 64 bits |
| ElfImage.MapElf | prekernel/shared/src/entry.c:22-108 | A bad header or a writable and executable segment is refused before the allocator is asked; otherwise the rounded size, modulo 2^64, is asked for; the copy leaves the allocation exactly when some segment does, and else the image holds all segments, at the same time when their memory ranges are disjoint, and the addresses of the last dynamic and program header segments come back |
| ElfImage.AskedIsLeast | prekernel/shared/src/entry.c:56-61 | What is asked for is the least number of whole pages that holds every end modulo 2^64 |
| ElfImage.LastOfIs | prekernel/shared/src/entry.c:45-53 | The address in the last header of a type, or none if and only if there is no such header |
| ElfImage.Scan | prekernel/shared/src/entry.c:48-60 | Finds the largest end of a loadable segment, modulo 2^64, or that some header is both writable and executable |
| ElfImage.CopySegments | prekernel/shared/src/entry.c:66-95 | The image is the segments copied in order, and every write lies inside, if and only if every segment fits the allocation |
| ElfImage.RangesInsideIff | prekernel/shared/src/entry.c:59-62 | The allocation holds the memory ranges of all segments if and only if every range can be rounded up to a page below 2^64 |
| ElfImage.WritesInsideIff | prekernel/shared/src/entry.c:59-62 | All copies stay inside if and only if, for each segment with something to copy, the largest end can be rounded up and what is copied for a range that wraps around happens to fit |
| ElfImage.LastPageOutside | prekernel/shared/src/entry.c:59-62 | A segment of one page at the end of the address space: 0 bytes are asked for and a page is written |
| ElfImage.AllInPlaceIff | prekernel/shared/src/entry.c:66-95 | All segments are in place together if and only if overlapping segments agree on the bytes they share |
| ElfImage.DisjointInPlace | prekernel/shared/src/entry.c:66-95 | Disjoint memory ranges are enough, and bytes outside all segments keep what the allocation held |
| ElfImage.LastWriterWins | prekernel/shared/src/entry.c:66-95 | A byte holds what the last segment that covers it put there |
| CallOnce.OnceSafe | common/include/once.h:10-20 | In every state of every interleaving: the callback began at most once, at most one thread holds the lock bit, and a thread that returned did so after the callback had finished |
| CallOnce.StepKeepsInv | common/include/once.h:10-20 | The inductive invariant is kept by every step of every thread |
| CallOnce.RunKeepsInv | common/include/once.h:10-20 | It holds in every state of every run |
| CallOnce.FinishedForever | common/include/once.h:13-19 | A finished callback stays finished and never starts again |
| CallOnce.NeverStuck | common/include/once.h:10-20 | As long as a thread has not returned, some thread has a step that changes the state |
| CallOnce.CallsReturn | common/include/once.h:10-20 | Threads that change something, with no new calls coming, have all returned after at most five steps each; before that some thread can always change something |
| EntropyRing.Ring.PushEvent | kernel/src/common/entropy.c:23-39 | Appends to the queue, or drops the event when 1023 are waiting; the slot that a preempted consumer may still return is not overwritten |
| EntropyRing.Ring.Poll | kernel/src/common/entropy.c:41-56 | With pushes between any two of its accesses: an empty ring gives 0; otherwise the head moves by exactly one and the oldest event is returned, or 0 exactly if the ring filled between the exchange and the second look at the write head |
| EntropyRing.Ring.Turn | kernel/src/common/entropy.c:44-53 | One turn of the loop, from the head or from the slot just freed |
| EntropyRing.EventLostIff | kernel/src/common/entropy.c:41-56 | The event taken is lost if and only if the events pushed before the exchange, as far as the ring takes them, and those between the exchange and the second look are more than 1023 |
| EntropyRing.PollLosesEvent | kernel/src/common/entropy.c:41-56 | One event in the ring and 1023 pushed after the exchange: 0 comes back and the event is gone |
| EntropyRing.PollAlone | kernel/src/common/entropy.c:41-56 | Undisturbed, poll_ebuf takes the first event of the queue |
| EntropyRing.Ring.HeadsMeet | kernel/src/common/entropy.c:30-31 | The two comparisons of the heads tell an empty and a full queue |
| EntropyRing.PushAllFits | kernel/src/common/entropy.c:23-39 | With room for all events none is lost |
| GeneratorLock.KernelGeneratorSafe | kernel/src/common/entropy.c:96-143 | In every interleaving at most one caller is inside the generator section, and the tick count is at most 16 |
| GeneratorLock.KernelGeneratorOrder | kernel/src/common/entropy.c:96-143 | Operations of different sections do not interleave, and any 17 operations in a row include fresh data |
| GeneratorLock.OutsidersLeaveGenerator | kernel/src/common/entropy.c:99-100 | A refused or waiting caller leaves generator and lock untouched |
| GeneratorLock.KernelSections | kernel/src/common/entropy.c:96-143 | In every interleaving a finished section of a gen holds exactly one poll, as its last operation, and one of an ingest exactly one ingest of its data and no poll; slow entropy comes first if and only if 16, or for an ingest 8, polls came since the last ingest |
| GeneratorLock.KernelCall | kernel/src/common/entropy.c:96-143 | Every finished call has had exactly one section, of its kind, or was a gen refused while another caller was inside, and has had none |
| GeneratorLock.CallsEnd | kernel/src/common/entropy.c:96-143 | Callers that change something, with no new calls coming, are done after at most five steps each; before that some caller can always change something |
| GeneratorLock.StepKeepsInv | kernel/src/common/entropy.c:96-143 | The inductive invariant is kept by every step of every caller |
| GeneratorLock.UserGenerator.GlobalGen | kernel/src/common/entropy.c:79-94 | Polls once, after slow entropy exactly when the count is 128, and keeps the invariant of the recorded operations |
| GeneratorLock.UserGenerator.GlobalIngest | kernel/src/common/entropy.c:115-126 | Takes in its data once, from 64 ticks on after slow entropy, never polls, and leaves the count at 0 |
| GeneratorLock.UserGenerator.Serve | kernel/src/common/entropy.c:79-126 | Over any sequence of calls by one thread the count stays at most 128, any 129 operations in a row include an ingest, every gen polls exactly once, and every ingest takes in its data exactly once |
| GeneratorLock.UserOpAdded | randlib/src/random.c:18-37 | An ingest, and a poll below 128 ticks, keep the count right and the operations fresh |
| Relocation.Image.ApplyRel | loader/src/dynld.c:58-130 | By kind: stores base + value + addend, base + addend, or what the resolver there returns, if this is the phase of the relocation, and nothing otherwise; refuses exactly unknown kinds and missing symbols; a non-null value tells that the relocation belonged to this phase |
| Relocation.Image.DoRel | loader/src/dynld.c:347-371 | One pass carries out one phase of a table, in order, and says no second pass is needed only when none is |
| Relocation.Image.Link | loader/src/dynld.c:373-431 | Fails exactly for an unknown kind, a missing symbol or a table type that it does not know. Otherwise, when targets share no byte, every entry of both tables holds what its kind asks for: base + value + A, or base + A, with the addend A as it was at first, or what the resolver at that address returned in a memory with all sums in place; and no other word changes |
| Relocation.AllLinkedByKind | loader/src/dynld.c:373-431 | So it is after the schedule of the two passes, for every relocation of both tables |
| Relocation.OrderedJobLinkedByKind | loader/src/dynld.c:373-431 | The same for any schedule that puts resolvers last |
| Relocation.ScheduleIsComplete | loader/src/dynld.c:373-431 | Every relocation of both tables is carried out exactly once |
| Relocation.ScheduleIsOrdered | loader/src/dynld.c:373-431 | No resolver runs before all relocations without resolver, of both tables |
| Relocation.ExecuteAt | loader/src/dynld.c:347-371 | With distinct targets, each relocation reads its in-place addend as it was at first, and what it stores stays |
| Relocation.LinkingTouchesNothingElse | loader/src/dynld.c:373-431 | No word that shares no byte with a target changes |
| Relocation.ResolverFinds | loader/src/dynld.c:84-89 | The memory that a resolver runs in has all relocations of the first phase done |
| Relr.Image.Relocate | loader/src/dynld.c:331-346 | The base is added to exactly the words that the walk names, up to the entry at which the table is refused, if it is; a table that begins with an address and chains no bitmaps is accepted and, when the words that the gABI names share no byte, each of them gets the base once and no other word changes |
| Relr.RefusedIff | loader/src/dynld.c:331-346 | A table is refused if and only if it begins with a bitmap, or, at base 0 alone, has one right behind the address 0 |
| Relr.Image.Bitmap | loader/src/dynld.c:338-345 | The shifting loop adds the base to the marked words |
| Relr.MarkedIff | loader/src/dynld.c:338-345 | The word k places behind is marked if and only if bit k of the bitmap is set |
| Relr.MarkedOnly | loader/src/dynld.c:338-345 | No other word is marked |
| Relr.MarkedInOrder | loader/src/dynld.c:338-345 | No word is marked twice |
| Relr.WalkIsDecode | loader/src/dynld.c:331-346 | The loader decodes a table as the gABI does if and only if no bitmap that marks a word is met with drift |
| Relr.OneBitmapEachNoDrift | loader/src/dynld.c:331-346 | A table with at most one bitmap behind each address has no drift |
| Relr.ChainedBitmapsDiffer | loader/src/dynld.c:338-345 | Two bitmaps behind one address that the loader decodes differently |
| Relr.AddedOnce | loader/src/dynld.c:331-346 | When the words named share no byte, each gets the base once and no other word changes |
| Relr.UnchainedIsDecoded | loader/src/dynld.c:331-346 | A table with at most one bitmap behind each address is accepted (at base 0, unless one is behind the address 0), and relocated as the gABI asks for |
| Clock.DurationSub | common/include/time.h:21-30 | Exact difference, normal again, with the borrow noticed through the 32-bit wrap-around |
| Clock.DurationAdd | common/include/time.h:10-19 | Exact sum; normal if and only if the nanoseconds do not add up to exactly one second |
| Clock.TscExact | kernel/src/x86_64/tsc.c:52-61 | The reading is floor(raw * 10^9 / f) ns |
| Clock.TscExactIff | kernel/src/x86_64/tsc.c:52-61 | Every 64-bit reading is exact if and only if f is from 2 to 18446744074 |
| Clock.TscInexact | kernel/src/x86_64/tsc.c:58 | Above it the multiplication overflows for the reading f - 1 |
| Clock.OneHertzInexact | kernel/src/x86_64/tsc.c:60 | At 1 Hz the seconds of a reading of 2^63 do not fit |
| Clock.Timer.TimerIrq | kernel/src/common/main.c:80-105 | Stores the reading, and on the root core adds floor((now - before) / 1000) microseconds modulo 2^64, or none if time ran back |
| Clock.Timer.Interrupts | kernel/src/common/boottime.c:7-13 | Over a run the counter grows by BootTime of the readings |
| Clock.DriftBound | kernel/src/common/main.c:80-105 | 1000 B <= elapsed <= 1000 B + 999 n over any run of n interrupts with non-decreasing readings |
| Clock.DriftReached | kernel/src/common/main.c:97-98 | The bound is reached for every n |
| Clock.BootTimeGrows | kernel/src/common/boottime.c:7-13 | Boot time adds up over runs and never goes back |
| Clock.Timer.ReadGlobalRtc | kernel/src/x86_64/rtc.c:201-222 | Start time plus the microseconds since; halts exactly when the counter is below the stored one |
| Clock.WallClock | kernel/src/x86_64/rtc.c:201-222 | Between two readings the wall clock does not go back, does not run ahead of the counter, and lags less than n microseconds after n interrupts |
| Clock.ReadingsInOrder | kernel/src/x86_64/tsc.c:52-61 | Non-decreasing raw readings give non-decreasing nanoseconds |
| LineEditor.MemMove | kernel/src/common/memory.c:40-55 | The old source bytes end at the destination under any overlap, and no other byte changes (section 7.24.2.2 of ISO C11) |
| LineEditor.Forward | kernel/src/common/memory.c:44-47 | Copying upwards is right when the source is above |
| LineEditor.Backward | kernel/src/common/memory.c:48-52 | Copying downwards is right when the source is below |
| LineEditor.MemCpy | kernel/src/common/memory.c:19-28 | The first n bytes of another block |
| LineEditor.Prompt.Press | kernel/src/common/main.c:229-279 | One key does to the buffer what Edit does to the text around the cursor; it halts exactly when the buffer is full and there is no memory; the buffer doubles exactly when it grows |
| LineEditor.Prompt.Type | kernel/src/common/main.c:254-278 | Insertion with growth |
| LineEditor.Prompt.Insert | kernel/src/common/main.c:273-276 | The character is before the cursor, and the rest of the line behind it |
| LineEditor.Prompt.Delete | kernel/src/common/main.c:234-239 | The character before the cursor is gone |
| LineEditor.Prompt.Grow | kernel/src/common/main.c:258-272 | Twice the capacity, the same text |
| LineEditor.Prompt.Submit | kernel/src/common/main.c:296-299 | eval reads exactly the text: no zero byte inside, one behind |
| LineEditor.Prompt.Run | kernel/src/common/main.c:216-301 | For every key sequence the buffer is the zipper of EditAll and the lines entered are those of Entered; only a failed allocation stops it |
| LineEditor.TypedThenErased | kernel/src/common/main.c:234-276 | As many backspaces as characters typed lead back to the text and cursor before |
| LineEditor.Erasing | kernel/src/common/main.c:238-243 | Backspaces take characters from before the cursor, as many as there are |
| LineEditor.OtherKeysDoNothing | kernel/src/common/main.c:230-276 | Releases, tab, no key, and keys without a character can be left out of any sequence: text, cursor and lines entered stay the same |
| LineEditor.LinesEntered | kernel/src/common/main.c:244-299 | Any lines typed, each with enter, are entered as typed, and the prompt is empty again |
| LineEditor.LeftsThenRights | kernel/src/common/main.c:243-250 | n times left and n times right lead back, if there were n characters to move over |
| LineEditor.TypingInserts | kernel/src/common/main.c:254-276 | Typing a text puts it at the cursor and leaves what is behind it alone |
| LineEditor.MovingLeft | kernel/src/common/main.c:243-246 | n times left moves the cursor min(n, position) and never changes the text |
| LineEditor.MovingRight | kernel/src/common/main.c:247-250 | The same to the right, up to the end of the line |
| SignatureScan.Scan | externals/limine-binary/limine.c:1332-1350 | Terminates although the index goes back, and finds the leftmost signature that ends within the scanned limit, or none if and only if there is none |
| SignatureScan.Enroll | externals/limine-binary/limine.c:1284-1361 | Checks the checksum, then the size; writes the 128 bytes given, or 128 zeros as characters, in bounds, right behind the leftmost signature, and changes the file in no other way |
| SignatureScan.CheckSum | externals/limine-binary/limine.c:1285-1295 | 128 hexadecimal characters and nothing else |
| SignatureScan.HexadecimalIs | externals/limine-binary/limine.c:1288-1290 | The characters accepted are 0-9, A-F and a-f |
| SignatureScan.SignatureIs | externals/limine-binary/limine.c:1241 | The bytes searched for spell the signature |
| SignatureScan.InReachHasRoom | externals/limine-binary/limine.c:1315-1361 | A signature in reach leaves room for the checksum and 25 bytes more |
| SignatureScan.EnrollAgain | externals/limine-binary/limine.c:1332-1361 | Enrolling again, or resetting, finds the same place and leaves no trace of the first checksum |
| SignatureScan.FoundIff | externals/limine-binary/limine.c:1335 | The first signature of any file is found if and only if 128 + 25 bytes follow it, and else nothing is |
| SignatureScan.RoomIsNotEnough | externals/limine-binary/limine.c:1335 | A file in which a signature with exactly enough room is missed |
| SignatureScan.SignatureMissed | externals/limine-binary/limine.c:1335 | The file of 154 bytes in which the signature of the boot loader is missed |
| NumberPrinting.StringFile.Write | kernel/src/common/stdio.c:64-73 | Takes what fits and says how much |
| NumberPrinting.CutIs | kernel/src/common/stdio.c:64-73 | What fits is a beginning of the text, the longest there is room for |
| NumberPrinting.StringFile.Close | kernel/src/common/stdio.c:80-83 | The closing zero is in bounds |
| NumberPrinting.StringFile.WriteRep | kernel/src/common/stdio.c:229-237 | Padding in pieces of 64; whatever fails, what went out is the longest part that fits; the result is the count after a short write, and so 0 if nothing went out at all |
| NumberPrinting.PrintHex | kernel/src/common/stdio.c:309-414 | Exactly the longest part of HexText that fits goes out; a count comes back if and only if the text does not fit, except for padding alone with no room at all, and it is that of the characters that went out |
| NumberPrinting.HexTextMeans | kernel/src/common/stdio.c:309-365 | The text is spaces on one side, the prefix if asked for, and a numeral that reads as the value, of as few digits as hold the value and are no fewer than the precision (one, without a precision); its length is max(min_width, prefix and digits) |
| NumberPrinting.UpperIsAlphabet | kernel/src/common/stdio.c:239 | The upper case digits are an alphabet of 16, as HexTextMeans asks |
| NumberPrinting.LowerIsAlphabet | kernel/src/common/stdio.c:240 | So are the lower case digits |
| NumberPrinting.HexDigits | kernel/src/common/stdio.c:328-332 | The digit loop fills precision characters, last first |
| NumberPrinting.PrintField | kernel/src/common/stdio.c:333-365 | Prefix, padding and digits in the order that the flags ask for, and a count exactly from a write that falls short and says so |
| NumberPrinting.PrintDecimal | kernel/src/common/stdio.c:244-306 | Exactly the longest part of DecimalText that fits goes out |
| NumberPrinting.DecimalBuffer | kernel/src/common/stdio.c:261-272 | At most 20 digits, never below the beginning of the 21-byte buffer |
| NumberPrinting.DecimalTextMeans | kernel/src/common/stdio.c:244-306 | All of it is one numeral that reads as the value; its length is the one of ISO C11, section 7.21.6.1, if and only if the precision is not below both the digit count and the width |
| NumberPrinting.DecimalIsPadded | kernel/src/common/stdio.c:244-306 | The text is the numeral of as many digits as the value and the precision need, behind as many zeros as the width exceeds the precision |
| NumberPrinting.DecimalIsCIff | kernel/src/common/stdio.c:244-306 | The text is the one of ISO C11, section 7.21.6.1 (digits up to the precision, spaces, or zeros where the flags ask for them) if and only if the width is not beyond the precision, or zeros are asked for without a precision and the value is below 10 |
| NumberPrinting.SevenInFour | kernel/src/common/stdio.c:244-306 | 7 in a width of 4 comes out as 0007, where the standard asks for three spaces |
| Numerals.NumeralPadded | kernel/src/common/stdio.c:263-268 | More digits than the value has come out as leading zeros |
| Numerals.NumeralRoundTrip | kernel/src/common/stdio.c:267-272 | k printed digits read back as the value if and only if k digits are enough |
| Numerals.CountBound | kernel/src/common/stdio.c:320-325 | A value needs at most k digits if and only if it is below the k-th power of the base |
| Numerals.Widths | kernel/src/common/stdio.c:320-325 | 16 less a quarter of the leading zero bits is the hexadecimal digit count; 64-bit values have at most 20 decimal digits |

## Left out

What the named members leave open:

- Paging.Kernel.ClonePageTable: a failed allocation ends the clone with None, where the source would write through a null pointer; tables are named by their page frames, the source by direct-map addresses that differ by a constant; loading CR3 and the printed messages are not modelled.
- Paging.Kernel.AddToHhdm: the heap has pages for the missing levels (3 minus the granularity), tables are separate (ClonedTree.CloneIsSeparate), physical addresses are below 2^52, direct-map addresses canonical, and the offset aligned to the page size asked for; None stands for both halts. The walk treats bit 7 at level 4 as reserved.
- BlockCache.Device.Write: a read past the last whole block is the only I/O failure; transient failures, failing writes to the file and a failing malloc are left out.
- BlockCache.Device.Uninstall: the entries have 64-bit locations; warnings are not modelled.
- BlockCache.UninstallReplaysIff: a short fread is taken to leave the bytes it read in the buffer and the rest of the buffer alone, as C libraries do; section 7.21.8.1 of ISO C11 calls the value of a partly read element indeterminate.
- BlockCache.Device.Read: the caller's buffer is returned as a sequence; files are shorter than 2^63 bytes, and blocks have at least two.
- BlockCache.Device.Install: what bios_install computes between its uses of the device, and whether it gives up, are parameters; device_init is reduced to a block size for which the first block can be read.
- BootMap.Boot: the chosen region has room (otherwise KernelMapWellFormedIff applies), bases are distinct, no region of the first map has the pre-kernel's private type, the image has at most 16 MiB, regions end at 2^52 at most, the direct-map offset is a multiple of the page size, usable regions lie in memory through the direct map, and that of each ends at least 2b below 2^64, where b is the largest alignment asked for (with more, Bump.GrantBelowIff applies). BootMap.HigherHalfBoots gives a higher-half offset that meets all of this.
- Bump.KernelHeap.AllocZeroed: a block that is cleared lies in memory, as every block of a run that does not wrap around does.
- Bump.PreKernel.Run: the run ends below 2^64; the source keeps no upper bound of its region either.
- ElfImage.MapElf: vprotect is taken to return its base; the file bytes of the segments lie in the file, which the source does not test; reading the header fields is a parameter, and what memory a copy outside of the allocation hits is not modelled.
- CallOnce.OnceSafe: atomics are sequentially consistent steps; the callback does not call call_once on the same flag.
- EntropyRing.Ring.Poll: one consumer; push_event runs to its end once started; the 64-bit event is a number.
- GeneratorLock.KernelGeneratorSafe: one core's generator; what the generator computes is left open, and so is the entropy it is fed.
- Relocation.Image.Link: symbol lookup and resolvers are functions given from outside, a resolver writes nothing, the tables are the entries that the passes walk, targets are words that share no byte (DistinctTargets), and addresses do not wrap. The bound relcount, which the PLT pass shares, is not modelled.
- Relr.Image.Relocate: the table is the sequence of its entries; the unit of DT_RELRSZ is not modelled, addresses do not wrap, and the words named up to a refusal are in memory.
- Clock.Timer.TimerIrq: readings are below 2^43 seconds, so that microseconds fit 64 bits.
- Clock.WallClock: the root core alone advances boot time, and the calendar time at the start is a parameter.
- LineEditor.Prompt.Run: keys arrive as an abstract sequence, drawing is left out, and capacities are unbounded, so a line has fewer than 2^30 characters.
- SignatureScan.Enroll: the file is in memory; opening, reading and writing it back are left out.
- NumberPrinting.PrintHex: radix 16 and a precision of at most 16; the other branch and the other radices are left out, and so is what a caller reads after a call that returns nothing.
- NumberPrinting.PrintDecimal: no sign and a precision that is -1 or not negative.
- NumberPrinting.StringFile.Write: only the string file of snprintf, with a buffer of at least one byte; a stream that recovers after a short write is left out.

What is not modelled at all:

- Assembly, port and APIC access, invlpg, terminal drawing, argument parsing and CPUID.
- Weaker memory orders.
- The dynamic-library registry, symbol lookup and the reading of the dynamic section.
- The page permissions of vprotect.
- The keyboard queue.
- The calendar calculation of the real-time clock.
- Signed decimals, octal, precision above 16, format parsing and the byte totals of vfprintf.
- SHA-2, Keccak and the xsave offsets.
- loader/src/loader.c, which repeats the segment copy.
- GDT, IDT and UUID packing, byte swaps and feature masks.
