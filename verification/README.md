# Loaders and formats behind .NET for Android, modelled in Dafny

This project models the five parts of the repository that hold its hardest logic, and proves what they
promise.

- **The ELF segment loader** (`lib/linker_phdr.cpp`): load extent, address-space reservation with a random
  gap, carving of a shared range, mapping and zero-filling of segments, the search for the header table in
  memory, page protections, and the sharing of RELRO pages with a file. Memory is a function from addresses
  to cells (byte, protection, backing), and `mmap`, `munmap`, `mprotect` and `memset` are steps on it.
  Addresses are 64-bit and wrap around; pages are 4096 bytes.
- **The assembly store** (`lib/AssemblyStoreGenerator.cs`, `lib/AssemblyStoreBuilder.cs`,
  `lib/assembly-store.cc`, layouts from `lib/xamarin-app.hh`): what the builder adds, what the generator
  lays out and writes, what both readers parse, the search, the slot cache, and decompression on first use
  under double-checked locking.
- **The shared-identifier protocol** (`lib/Telemetry.cs`): many processes, a named mutex with timeout and
  abandonment, one file that can be half written.
- **Surface ownership** (`lib/Surface.java`): reference-counted handles, locking, copying and transfer.
- **ARM feature resolution** (`lib/ARM.cpp`): the last mention of a feature wins, and the code restores the
  dependencies.

Code that changes state step by step is a class or a method with loops, proved equal to a specification
function; the theorems are lemmas about those functions. Hash functions, the decompressor, `arc4random` and
the kernel's answers are parameters: every theorem holds for all of them.

| files | part |
|---|---|
| `Paging`, `Alignment`, `ProcessMemory` | page and alignment arithmetic; memory and system calls |
| `LoadExtent`, `Reservation`, `SegmentLoader`, `SegmentImage`, `HeaderSearch`, `ElfReader` | loading |
| `Protection`, `RelroSharing` | what happens to loaded pages |
| `StoreFormat`, `ByteStreams`, `StoreWriter`, `StoreGenerator`, `StoreRoundTrip`, `StoreReader`, `StoreBuilder`, `StoreEndToEnd`, `DecompressProtocol` | the assembly store |
| `IdentifierProtocol`, `SurfaceOwnership`, `ArmFeatures` | one part each |
| `Basics` | options, bytes within bytes, little-endian numbers |

Proofs say `hide F;` where the body of a function is not needed, which keeps them small. Where automatic
induction would only get in the way or hide the argument, a lemma carries `{:induction false}`.

## Where the code does not do what one would expect

In each case a lemma at an input shows it, and another says for all inputs exactly when it happens.

- The extent misses a segment that ends within a page of the top of the address space: `LoadExtent.ExtentMissesTop`; exactly `LoadExtent.CoversExactly`.
- The past-end check ignores `file_offset_`, so clearing a page can fault: `SegmentImage.PastEndCheckMissesOffset`; exactly `SegmentImage.LoadsExactly`.
- The check against writable and executable segments is skipped when nothing comes from the file: `SegmentImage.WriteAndExecEscapes`; exactly `SegmentImage.WriteAndExecExactly`.
- Bytes behind the file content need not be zero, though the comment at `lib/linker_phdr.cpp:84-85` asks for it: `SegmentImage.TailShowsFile`; exactly `SegmentImage.ZerosBehindFile`.
- With a gap, an alignment above 2 MiB can put the first start behind the last: `Reservation.GapTooCoarse`; exactly `Reservation.GapLimitsAlignment`. The one caller never asks for that.
- A failed load leaves its random gap mapped: `ElfReader.FailedLoadKeepsGap`; exactly that and nothing else, `ElfReader.FailureLeavesOnlyGap`, and a gap is there exactly when the block crosses a huge page, `Reservation.ReserveWithAlignmentPadding`.
- `curPos += a + b + c` adds in 32 bits, so a list can pass the 4 GiB guard with a descriptor that points short of its data: `StoreWriter.LostCarryExample`; exactly `StoreWriter.TilingNeedsFit`.
- The final position check fires for very many assemblies: `StoreWriter.CorruptMetadataExample`; exactly `StoreWriter.DataStartExact` and `StoreGenerator.Generate`.
- The header-table check passes for a table whose end wraps around: `HeaderSearch.WrappedTableExample`; exactly `HeaderSearch.CheckTellsExactly`.
- Substring searches make the NEON closure fail for `+aes`, `-fuse-aes`: `ArmFeatures.NeonClosureCanFail`; exactly `ArmFeatures.NeonClosureExact`. Whether the tables that fill the vector ever produce such an entry is not part of this model.
- A failed read under the mutex, a failed creation or a failed write breaks agreement on the identifier: `IdentifierProtocol.RereadFaultBreaksAgreement`, `IdentifierProtocol.CreateFaultBreaksAgreement`, `IdentifierProtocol.WriteFaultBreaksAgreement`; exactly these, `IdentifierProtocol.AgreementExactly`.
- `copyFrom` compares handles once in the native and once under the lock, and another thread can come between: `SurfaceOwnership.CopyDisturbed`; exactly `SurfaceOwnership.ConservedExactly`.

## Model

| member | source | states |
|---|---|---|
| `ElfReader.LoadEndToEnd` | lib/linker_phdr.cpp:173-200 | with a reservation of its own or a carved range: every segment's image stands, everything outside library and gap is as before the call, and the table found in memory is the one read from the file, both where a PT_PHDR announces it at e_phoff and where there is none and the first segment covers it; Load promises this of its own outcome |
| `ElfReader.FailureLeavesOnlyGap` | lib/linker_phdr.cpp:190-197 | a failed load into its own reservation leaves memory as before the call, except that the inaccessible gap stays mapped; Load promises this of its own outcome |
| `ElfReader.FailedLoadKeepsGap` | lib/linker_phdr.cpp:190-197 | a load that fails and leaves a page mapped that was not |
| `ElfReader.FailureStaysInCarved` | lib/linker_phdr.cpp:190-197 | a failed load into a carved range has changed nothing outside that range |
| `ElfReader.ElfReader.Load` | lib/linker_phdr.cpp:173-200 | done exactly when a place can be reserved, every segment loads and the table is found; what the reservation left and where the draw put it, the memory in every outcome, and, on success with a well-placed table, that the library is loaded as IsLoaded says; a failure unmaps a reservation of its own, unless this or an earlier call of the reader carved a shared range; a call after success does nothing |
| `SegmentImage.MemoryImage` | lib/linker_phdr.cpp:697-798 | after a successful load of sound segments on pages of their own, the image of every segment stands whole whatever was loaded later, and every other address has its old cell |
| `SegmentImage.LastSegmentShows` | lib/linker_phdr.cpp:84-91 | segments may share pages: each address shows the image of the last segment that has it on its pages, with that segment's protection, and no other address has changed |
| `SegmentImage.SharedPageKeeps` | lib/linker_phdr.cpp:84-91 | exactly when a byte of an earlier segment survives on a page that a later one shares |
| `SegmentImage.FileBytesInPlace` | lib/linker_phdr.cpp:704-760 | the byte at load_bias + p_vaddr + k is file byte p_offset + k, for all k below p_filesz, with the segment's protection |
| `SegmentImage.ZerosBehindFile` | lib/linker_phdr.cpp:769-795 | from p_filesz to p_memsz a byte is zero exactly when the segment is writable, the byte lies on a later page, or the file happens to hold zero there |
| `SegmentImage.TailShowsFile` | lib/linker_phdr.cpp:769-795 | a segment that is not writable, with a byte behind its file part that shows the file's next byte instead of zero |
| `SegmentImage.NothingOutside` | lib/linker_phdr.cpp:697-798 | loading a well-formed table, whether it succeeds, is refused or faults, touches nothing outside [load_start, load_start + load_size) |
| `SegmentImage.TableStaysInside` | lib/linker_phdr.cpp:697-798 | however a load of sound segments ends, nothing outside the range that holds their pages changes |
| `SegmentImage.SegmentStaysInside` | lib/linker_phdr.cpp:697-798 | one sound segment changes only its own pages, on every outcome |
| `SegmentImage.SegmentLoads` | lib/linker_phdr.cpp:704-795 | one loaded segment leaves exactly its image on its pages, over any earlier memory |
| `SegmentImage.LoadsExactly` | lib/linker_phdr.cpp:720-795 | a sound segment loads exactly when it passes the checks and its last file page, if it must be cleared, is in the container; it faults exactly when only the last fails |
| `SegmentImage.TableLoadsExactly` | lib/linker_phdr.cpp:697-798 | a table of sound segments loads exactly when every segment does, and never faults when all lie in the container |
| `SegmentImage.ClearingFaultsExactly` | lib/linker_phdr.cpp:769-773 | clearing the rest of the last file page faults exactly when that page lies wholly behind the container's end |
| `SegmentImage.PastEndCheckMissesOffset` | lib/linker_phdr.cpp:726-733 | a segment that passes the past-end check and still faults, because the check ignores file_offset_ |
| `SegmentImage.WriteAndExecExactly` | lib/linker_phdr.cpp:735-742 | in a strict load a writable and executable segment gets through exactly when nothing of it comes from the file |
| `SegmentImage.WriteAndExecEscapes` | lib/linker_phdr.cpp:735-742 | such a segment, loaded, with pages that are writable and executable |
| `SegmentImage.PagesInReservation` | lib/linker_phdr.cpp:651-714 | with the bias computed from where the reservation starts, the pages of every segment lie in the reservation |
| `SegmentImage.ReservedTableSound` | lib/linker_phdr.cpp:651-714 | a well-formed table loaded at a page-aligned reservation has sound segments: nothing wraps around where it is loaded |
| `SegmentImage.SoundIsExact` | lib/linker_phdr.cpp:704-718 | for a sound segment every 64-bit sum and rounding of the code is exact |
| `SegmentLoader.LoadSegments` | lib/linker_phdr.cpp:697-798 | the loop does to memory what the recursive reading of the table does, with the same verdict, and stops at the first segment that fails |
| `SegmentLoader.LoadOne` | lib/linker_phdr.cpp:698-795 | one turn of the loop, with its refusals and its fault |
| `SegmentLoader.MapFilePart` | lib/linker_phdr.cpp:735-765 | the file mapping, skipped when there is nothing to map and refused for a strict writable and executable segment |
| `SegmentLoader.ZeroLastFilePage` | lib/linker_phdr.cpp:769-773 | the partial page is cleared only for a writable segment, and the write may fault |
| `SegmentLoader.MapZeroPart` | lib/linker_phdr.cpp:775-795 | whole zero pages up to the segment's end, when there are any |
| `LoadExtent.ExtentIsLeast` | lib/linker_phdr.cpp:505-542 | the extent covers every loadable segment, is page-aligned, and is contained in every page-aligned interval that covers them |
| `LoadExtent.CoversExactly` | lib/linker_phdr.cpp:505-542 | the extent covers every loadable segment exactly when none ends within a page of the top of the address space or beyond |
| `LoadExtent.ExtentMissesTop` | lib/linker_phdr.cpp:505-542 | a table whose one segment the extent does not cover |
| `LoadExtent.NothingToLoad` | lib/linker_phdr.cpp:530-532 | a table with nothing to load has extent zero |
| `LoadExtent.GetLoadSize` | lib/linker_phdr.cpp:505-542 | the loop returns the size and the bounds of that extent, in wrapping 64-bit arithmetic |
| `LoadExtent.GetMaximumAlignment` | lib/linker_phdr.cpp:547-568 | the largest alignment among loadable segments whose alignment is zero or a power of two, and at least a page |
| `Reservation.ReserveWithAlignmentPadding` | lib/linker_phdr.cpp:572-646 | for every kernel answer and draw it succeeds exactly when the kernel grants the blocks asked for, with a gap exactly when the first block crosses a huge page; then the library starts where the draw puts it in the block granted, the gap ends at the block's last huge-page boundary, exactly the two are newly mapped, and the library widened to the alignment meets neither the gap nor anything mapped before; a failure restores memory |
| `Reservation.StartsOfTheCall` | lib/linker_phdr.cpp:630-634 | outside first-stage init the result starts, over the draws, exactly at the start-aligned addresses of the granted block whose widened library lies before the gap |
| `Reservation.StartsReached` | lib/linker_phdr.cpp:630-634 | every admissible start of a block is drawn for some draw, and no other |
| `Reservation.FirstStageStart` | lib/linker_phdr.cpp:630-634 | in first-stage init the start is the lowest admissible one |
| `Reservation.GapsReached` | lib/linker_phdr.cpp:611-612 | the gap is one to thirty-one units of 2 MiB, each for some draw, and one unit in first-stage init |
| `Reservation.NeedsGapExactly` | lib/linker_phdr.cpp:603-605 | a gap is needed exactly when a 2 MiB boundary lies properly inside the aligned part of the first block |
| `Reservation.Placement` | lib/linker_phdr.cpp:596-630 | wherever the block is mapped, the first start is not behind the last, and library, padding and gap fit in the block one after the other |
| `Reservation.GapLimitsAlignment` | lib/linker_phdr.cpp:596-630 | with a gap, the first start is never behind the last exactly when the alignment is that of the gap |
| `Reservation.GapTooCoarse` | lib/linker_phdr.cpp:596-630 | for any coarser alignment, a block in which the first start is behind the last |
| `Reservation.GapNeededExample` | lib/linker_phdr.cpp:603-614 | a block and a size for which a gap is needed |
| `Reservation.PaddedSizeExact` | lib/linker_phdr.cpp:594-595 | the block is at least as large as the library exactly when its size does not wrap around |
| `Reservation.PaddingIsLeast` | lib/linker_phdr.cpp:594-595 | a block has room for the aligned library wherever the kernel puts it exactly when it is at least as long as the code asks |
| `Reservation.PlacedHolds` | lib/linker_phdr.cpp:619-645 | trimming the block around any admissible start leaves what is promised |
| `Reservation.Trimmed` | lib/linker_phdr.cpp:634-640 | after the munmaps exactly the library and the gap remain of the block |
| `Reservation.PlacedFits` | lib/linker_phdr.cpp:628-633 | the widened library stays between the block's start and the gap |
| `Reservation.StepsFit` | lib/linker_phdr.cpp:630-633 | every draw keeps the start between the first and the last, in steps of the start alignment |
| `Reservation.PlaceAndTrim` | lib/linker_phdr.cpp:619-645 | the tail of the call: the library goes where the draw says, the rest is unmapped |
| `Reservation.DrawDistance` | lib/linker_phdr.cpp:633-634 | the distance drawn is whole steps within the room |
| `Alignment.PowersDivide` | lib/linker_phdr.cpp:547-568 | of two powers of two the smaller divides the larger, which is why a start aligned to one is aligned to the other |
| `ElfReader.ElfReader.ReserveAddressSpace` | lib/linker_phdr.cpp:651-695 | succeeds exactly when there is something to load and the shared range is large enough, or a range of its own may be used and the kernel grants one; the reservation left is exactly the one asked for; the bias is start minus the first page; a refusal changes no memory |
| `ElfReader.ElfReader.StartAlignment` | lib/linker_phdr.cpp:667-674 | a huge-page start exactly when huge pages are enabled and the largest well-formed alignment of a loadable segment is that of a huge page |
| `ElfReader.CarvedRangesDisjoint` | lib/linker_phdr.cpp:683-690 | over any run of loads sharing an address space, the carved ranges lie in the original range and do not overlap |
| `ElfReader.CarvedExactly` | lib/linker_phdr.cpp:683-690 | over any run of loads each gets the next bytes of the shared range exactly when they still fit, and is refused exactly when they do not and the range must be used |
| `ElfReader.CarvingKeepsEnd` | lib/linker_phdr.cpp:688-690 | start_addr + reserved_size is the same after any run of loads |
| `HeaderSearch.LoadedTable` | lib/linker_phdr.cpp:1180-1207 | without PT_PHDR, when the first loadable segment starts at file offset 0 and covers header and table, loaded_phdr_ points at bytes identical to the table read from the file |
| `HeaderSearch.AnnouncedTable` | lib/linker_phdr.cpp:1184-1188 | with a PT_PHDR in the file part of a readable segment the table is found at load_bias + p_vaddr, and what is there is the file, as far behind the segment's p_offset as p_vaddr is behind its p_vaddr |
| `HeaderSearch.AnnouncedHeaders` | lib/linker_phdr.cpp:1184-1188 | when its p_offset is e_phoff and its address is congruent, memory there reads as the table of the file |
| `HeaderSearch.FollowsHeaderOffset` | lib/linker_phdr.cpp:1194-1202 | without a PT_PHDR, and with a first segment at file offset 0 that covers the ELF header, the search goes where the file's e_phoff points, modulo 2^64, and the check decides |
| `HeaderSearch.NothingToFind` | lib/linker_phdr.cpp:1194-1206 | without a PT_PHDR and without a first segment at file offset 0 nothing is found |
| `HeaderSearch.FileStretchLoaded` | lib/linker_phdr.cpp:1180-1207 | any stretch of a readable segment's file part is in memory, byte for byte |
| `HeaderSearch.CheckedExactly` | lib/linker_phdr.cpp:1221-1238 | unless the end of the table wraps around, the check passes exactly when the table lies in the file part of some loadable segment |
| `HeaderSearch.CheckTellsExactly` | lib/linker_phdr.cpp:1221-1238 | the check tells whether some segment contains the table exactly when the end does not wrap around or no segment passes with the wrapped end |
| `HeaderSearch.WrappedTablePasses` | lib/linker_phdr.cpp:1223-1231 | when the end of the table wraps around, no segment contains the table, and the check passes exactly when some segment starts at or before it and ends at or behind the wrapped end |
| `HeaderSearch.WrappedTableExample` | lib/linker_phdr.cpp:1223-1231 | a table at the top of the address space that passes for a segment at the bottom |
| `HeaderSearch.FoundIsReadable` | lib/linker_phdr.cpp:1180-1238 | whatever way a table was found, if its end does not wrap around it can be read whole and holds what the file holds there |
| `HeaderSearch.Find` | lib/linker_phdr.cpp:1180-1207 | the two searches and the read of e_phoff from memory, which may fault |
| `HeaderSearch.CheckLoaded` | lib/linker_phdr.cpp:1221-1238 | true exactly when some loadable segment's file part contains the table |
| `Protection.NeverWriteAndExec` | lib/linker_phdr.cpp:804-947 | over any sequence of protect, unprotect and RELRO passes, successful or not, no byte changes and no page whose protection is touched becomes writable and executable |
| `Protection.UnprotectThenProtect` | lib/linker_phdr.cpp:804-884 | from load-time protections, unprotecting makes every non-writable segment writable and not executable, and protecting again gives back exactly the memory there was |
| `Protection.ProtectRestores` | lib/linker_phdr.cpp:837-863 | from any state of the protections, protecting restores those of loading, changes no byte, and touches only segments that are not writable |
| `Protection.RelroStaysReadOnly` | lib/linker_phdr.cpp:889-947 | once protected, RELRO pages inside writable segments stay read-only over any later sequence of passes |
| `Protection.PassSets` | lib/linker_phdr.cpp:804-837 | with every page mapped a pass succeeds, sets exactly the pages it selects and leaves the rest |
| `Protection.PassesTouch` | lib/linker_phdr.cpp:809-812 | a pass over segments works on exactly the loadable ones that are not writable, the other on exactly the RELRO headers |
| `Protection.LoadGivesProtections` | lib/linker_phdr.cpp:697-863 | after a load the protections are the ones that protecting restores, and the segments are on pages of their own |
| `Protection.LoadMapsAll` | lib/linker_phdr.cpp:697-947 | after a load every page that a pass works on is mapped, when each RELRO header lies in the pages of a segment |
| `Protection.LifecycleAfterLoad` | lib/linker_phdr.cpp:697-947 | after a successful load, unprotecting and protecting succeed and give the loaded memory back, and RELRO once protected stays read-only over any later passes |
| `Protection.PagesAgree` | lib/linker_phdr.cpp:813-814 | rounding before adding the bias gives the same pages as the loader's rounding after it |
| `Protection.SetLoadProt` | lib/linker_phdr.cpp:804-837 | the loop and its early return, as a pass |
| `Protection.ProtectGnuRelro` | lib/linker_phdr.cpp:889-947 | the RELRO loop and its early return, as a pass |
| `Protection.ProtectSegments` | lib/linker_phdr.cpp:854-863 | a pass without extra protection |
| `Protection.UnprotectSegments` | lib/linker_phdr.cpp:881-884 | a pass that adds write permission |
| `RelroSharing.WalkKeepsBytes` | lib/linker_phdr.cpp:1010-1085 | mapping RELRO from any file, with every mapping granted, changes no byte of memory |
| `RelroSharing.CutKeepsBytes` | lib/linker_phdr.cpp:1067-1074 | nor does a walk cut short by a denied mapping in the middle of a range |
| `RelroSharing.WalkSharesExactly` | lib/linker_phdr.cpp:1010-1085 | it puts exactly the equal pages of every RELRO header reached before the file runs short on the file, read-only and at the walk's offset; every other address keeps its cell |
| `RelroSharing.SharedBySizes` | lib/linker_phdr.cpp:1029-1082 | which pages these are and where in the file they lie, told from the sizes of the RELRO ranges alone |
| `RelroSharing.WalkIsAt` | lib/linker_phdr.cpp:1029-1082 | the offset is the sum of the sizes so far, and the walk runs short exactly when that sum passes the file's size |
| `RelroSharing.SerializeThenMapSharesAll` | lib/linker_phdr.cpp:962-1085 | after serializing at the end of a file that may hold other libraries' ranges, and with more appended later, mapping in a process with identical RELRO bytes puts every RELRO page on the same page of the file as in the writer, comes to where the ranges end and changes no byte |
| `RelroSharing.SerializeRecords` | lib/linker_phdr.cpp:962-991 | serializing at the end of any file keeps what it holds, records every RELRO range one after the other behind it, and changes no byte of the writer |
| `RelroSharing.SerializeMapsBack` | lib/linker_phdr.cpp:983-987 | the writer's own RELRO pages become the file's: each address keeps its byte, is read-only, and is backed at its place in the file; every other address keeps its cell |
| `RelroSharing.OffsetStaysAligned` | lib/linker_phdr.cpp:1029-1082 | the file offset stays page-aligned and never passes the file's size |
| `RelroSharing.MapRange` | lib/linker_phdr.cpp:1043-1079 | the nested page searches end, and share exactly the equal pages of one range up to the first run whose mapping is denied; true exactly when there is none |
| `RelroSharing.MapGnuRelro` | lib/linker_phdr.cpp:1010-1085 | success is the whole walk, with exactly the equal pages shared and the offset behind the ranges; failure is the walk up to a denied mapping; either way no byte of memory has changed and the offset is within the file |
| `RelroSharing.SerializeGnuRelro` | lib/linker_phdr.cpp:962-991 | succeeds exactly when every range can be read, written whole and mapped; then the ranges are in the file one after the other and the writer's own pages are the file's; on success and failure alike no byte of memory has changed |
| `StoreEndToEnd.WriteMapOpen` | lib/AssemblyStoreGenerator.cs:101-198 | write, map, open: for any hash functions, list of assemblies and sequence of names, each open of the written store answers as the plain list does, and every filled slot and loaded descriptor stays its owner's |
| `StoreEndToEnd.WrittenConfigures` | lib/AssemblyStoreGenerator.cs:101-198 | the reader configured from the written bytes sees the sorted index, the descriptors and the names, and the data area lies where the layout says |
| `StoreEndToEnd.WrittenOpens` | lib/AssemblyStoreGenerator.cs:101-198 | a written store whose assemblies' lengths fit has every image at its descriptor's offset and distinct mapping indices |
| `StoreEndToEnd.WrittenConsistent` | lib/AssemblyStoreGenerator.cs:101-182 | what is written for either runtime and any architecture is a consistent store: the counts and sizes in its header are exact and no hash is cut short |
| `StoreEndToEnd.ReadWrittenBack` | lib/AssemblyStoreGenerator.cs:291-423 | a written store of either runtime, with narrow or wide entries, reads back through the three readers to the header, the sorted index and the descriptors that were written |
| `StoreEndToEnd.SortedIsComplete` | lib/AssemblyStoreGenerator.cs:152-155 | both index entries of every assembly survive the sort, for either runtime and hash |
| `StoreEndToEnd.SortedIsSound` | lib/AssemblyStoreGenerator.cs:152-155 | every sorted entry is one of the two of the assembly it points to, for either runtime and hash |
| `StoreEndToEnd.IndexedByRuntime` | lib/AssemblyStoreGenerator.cs:152-155 | the index holds, for both names of every assembly, the hash its runtime looks for: CRC-32 for CoreCLR, xxHash of the word size for MonoVM; and nothing else |
| `StoreEndToEnd.ContentIdCovers` | lib/AssemblyStoreGenerator.cs:190-231 | the content identifier in the header is the hash of everything behind the header |
| `StoreGenerator.Generate` | lib/AssemblyStoreGenerator.cs:101-198 | unsupported architecture, too large, corrupt metadata, or the finished store: which one depends only on the layout and on whether the metadata fits 32 bits; the stream check never fires |
| `StoreGenerator.WriteData` | lib/AssemblyStoreGenerator.cs:136-164 | the loop lays out, indexes and copies every assembly, failing only when the layout does |
| `StoreGenerator.WriteMetadata` | lib/AssemblyStoreGenerator.cs:171-182 | header, sorted index, descriptors and names one after the other, ending at the metadata's size |
| `StoreGenerator.WriteIndex` | lib/AssemblyStoreGenerator.cs:305-335 | some sorting of the index by hash is written, entry by entry |
| `StoreGenerator.WriteDescriptors` | lib/AssemblyStoreGenerator.cs:379-390 | the descriptor table is written at the stream's position |
| `StoreGenerator.WriteNames` | lib/AssemblyStoreGenerator.cs:425-431 | the length-prefixed names are written in descriptor order |
| `StoreGenerator.WriteHeader` | lib/AssemblyStoreGenerator.cs:281-289 | the header is written at the stream's position |
| `StoreGenerator.CopyAssembly` | lib/AssemblyStoreGenerator.cs:161-163 | image, symbols and configuration are written one after the other |
| `StoreGenerator.StreamPositionAgrees` | lib/AssemblyStoreGenerator.cs:148-150 | the stream's position and the descriptor's offset agree in 32 bits even when the layout has lost carries, so the check cannot fire |
| `StoreWriter.DataStartExact` | lib/AssemblyStoreGenerator.cs:124-129 | the section sizes add up to the start of the data exactly when the fixed-size part fits 32 bits |
| `StoreWriter.CorruptMetadataExample` | lib/AssemblyStoreGenerator.cs:124-129 | a list that lays out, for which the final position check fires |
| `StoreWriter.DataTiles` | lib/AssemblyStoreGenerator.cs:137-165 | image, symbols and configuration of each assembly lie where its descriptor says, from where the previous assembly ends to where the next begins, with all offsets exact |
| `StoreWriter.TilingNeedsFit` | lib/AssemblyStoreGenerator.cs:258-264 | a descriptor's offset is the true one exactly when the lengths of every assembly before it sum below 2^32 |
| `StoreWriter.LostCarryExample` | lib/AssemblyStoreGenerator.cs:258-264 | a list that lays out and passes the 4 GiB guard, whose second descriptor points 2^32 bytes short of its data |
| `StoreWriter.PositionTracksData` | lib/AssemblyStoreGenerator.cs:258-264 | the loop's position is the true one less a multiple of 2^32, and nothing is lost exactly when every assembly's lengths fit |
| `StoreWriter.DescriptorMade` | lib/AssemblyStoreGenerator.cs:137-147 | descriptor i is made at the position after the assemblies before it, with the mapping index that counts the stored ones |
| `StoreWriter.LaysOutExactly` | lib/AssemblyStoreGenerator.cs:254-275 | the layout is refused exactly when some file has 2^32 bytes or the position behind some stored assembly does not fit 32 bits |
| `StoreWriter.RefusedExactly` | lib/AssemblyStoreGenerator.cs:258-264 | with lengths that fit, that is when some stored assembly's data ends behind 2^32 - 1 |
| `StoreWriter.IgnoredHasNoData` | lib/AssemblyStoreGenerator.cs:234-264 | an ignored assembly has no data and mapping index 0; its descriptor only notes the sizes of its files |
| `StoreWriter.ImageAt` | lib/AssemblyStoreGenerator.cs:137-165 | an assembly's image is at its descriptor's offset in any file with the data area in place |
| `StoreWriter.MappingDistinct` | lib/AssemblyStoreGenerator.cs:141-146 | stored assemblies have strictly increasing mapping indices below the number stored |
| `StoreWriter.MappingIs` | lib/AssemblyStoreGenerator.cs:141-146 | an assembly's mapping index is the number of stored assemblies before it |
| `StoreWriter.SortingExists` | lib/AssemblyStoreGenerator.cs:305-310 | every index can be sorted by hash |
| `StoreWriter.VersionIsNative` | lib/AssemblyStoreGenerator.cs:209-216 | the version written for each architecture is the constant that the native reader of that architecture expects |
| `StoreRoundTrip.ReadBack` | lib/AssemblyStoreGenerator.cs:291-423 | any consistent store, with 9-byte or 13-byte entries, reads back to its header, index and descriptors |
| `StoreRoundTrip.ReadHeader` | lib/AssemblyStoreGenerator.cs:291-303 | the header at the file's start, or the end-of-stream exception |
| `StoreRoundTrip.ReadIndex` | lib/AssemblyStoreGenerator.cs:337-364 | the entries of any header's index, or which exception is thrown |
| `StoreRoundTrip.ReadDescriptors` | lib/AssemblyStoreGenerator.cs:392-423 | the descriptors of any header, or which exception is thrown |
| `StoreRoundTrip.EntrySizeFound` | lib/AssemblyStoreGenerator.cs:366-377 | dividing the index size by the entry count finds the entry size the writer used |
| `StoreRoundTrip.StoreDecodes` | lib/AssemblyStoreGenerator.cs:281-431 | header and tables of a consistent store decode to what was encoded |
| `StoreRoundTrip.Sections` | lib/AssemblyStoreGenerator.cs:171-182 | each section of an encoded store lies where its predecessors end |
| `StoreFormat.EntryRoundTrip` | lib/AssemblyStoreGenerator.cs:305-364 | an index entry reads back, a narrow one with the low 32 bits of its hash |
| `StoreFormat.NameEntryAt` | lib/AssemblyStoreGenerator.cs:425-431 | name i is read where the records before it end |
| `StoreFormat.HeaderRoundTrip` | lib/xamarin-app.hh:156-164 | a packed header reads back wherever its bytes lie |
| `StoreFormat.DescriptorRoundTrip` | lib/xamarin-app.hh:173-185 | a packed descriptor reads back wherever its bytes lie |
| `StoreFormat.IndexEntryAt` | lib/xamarin-app.hh:166-171 | entry i of a table of packed entries, of either size, reads back |
| `StoreFormat.DescriptorEntryAt` | lib/xamarin-app.hh:173-185 | descriptor i of a table reads back |
| `StoreEndToEnd.OpenExact` | lib/assembly-store.cc:222-287 | opening a name that one assembly has, with or without extension, gives its uncompressed bytes, or null without touching anything when it is ignored |
| `StoreEndToEnd.OpenAnswers` | lib/assembly-store.cc:222-287 | one open answers as the plain list does, keeps every slot and every cached image its owner's, and changes nothing unless it returns bytes |
| `StoreEndToEnd.OpensAnswer` | lib/assembly-store.cc:222-287 | so does any sequence of opens |
| `StoreEndToEnd.UnambiguousAnswer` | lib/assembly-store.cc:222-239 | for a name at most one assembly has, the answer is determined |
| `StoreEndToEnd.ScanFindsMatches` | lib/assembly-store.cc:202-239 | the sorted index stands for the list of names: a found entry belongs to a matching assembly, and one is found whenever some name matches, for every hash function |
| `StoreEndToEnd.OpenEntryAnswers` | lib/assembly-store.cc:235-287 | an ignored entry gives null, and any other its assembly's uncompressed bytes through slot, cache or decompression |
| `StoreEndToEnd.ImageLoads` | lib/assembly-store.cc:47-199 | an image in the payload loads to its uncompressed bytes, copied, decompressed now or cached, and no other cached image changes |
| `StoreEndToEnd.FirstLoadExactly` | lib/assembly-store.cc:113-162 | decompressing for the first time succeeds exactly when there is an output of the header's length and the place is large enough, and else aborts |
| `StoreEndToEnd.ShortImage` | lib/assembly-store.cc:47-54 | what the reader makes of an image too short for the four bytes it looks at: its own bytes exactly when it is legible, and otherwise an overrun or what some loaded descriptor holds |
| `StoreEndToEnd.DecompressionKeepsCads` | lib/assembly-store.cc:140-177 | decompressing one assembly leaves every other descriptor's cached bytes and room as they were |
| `StoreEndToEnd.FillKeepsSlots` | lib/assembly-store.cc:252-266 | filling a slot from its owner's descriptor disturbs no other assembly's slot |
| `StoreEndToEnd.FreshRuntimeOk` | lib/assembly-store.cc:252-266 | empty slots, one for each stored assembly, satisfy the slot invariant |
| `StoreEndToEnd.OpenCaches` | lib/assembly-store.cc:252-266 | an open that hands out bytes leaves its assembly's slot filled with image, descriptor and symbols, and a compressed image decompressed |
| `StoreEndToEnd.OpenAgain` | lib/assembly-store.cc:222-287 | opening a name again gives the same answer and changes nothing |
| `StoreReader.FindEntry` | lib/assembly-store.cc:202-220 | on a sorted index with arbitrary collisions, lower bound and run walk return what a full scan finds first, and nothing exactly when it finds nothing |
| `StoreReader.ReadNames` | lib/assembly-store.cc:328-340 | the name-cursor loop reads the names, or runs past the payload |
| `StoreReader.NamesDecode` | lib/assembly-store.cc:328-340 | names written by the generator read back through the cursor loop |
| `StoreReader.StemExactly` | lib/assembly-store.cc:23-37 | the extension removed is exactly the last one; a name that only begins with a dot has none |
| `StoreReader.ConfigureReadsBack` | lib/assembly-store.cc:289-343 | a consistent narrow store of the right version configures to exactly its tables |
| `StoreReader.AssemblyStore.ConfigureFromPayload` | lib/assembly-store.cc:289-343 | the parsed tables, an abort for a wrong magic or version, or an overrun; only a configured payload replaces the old one |
| `StoreReader.AssemblyStore.OpenAssembly` | lib/assembly-store.cc:222-287 | on a sorted index, result and new state are those of opening by the scan |
| `StoreReader.AssemblyStore.OpenFound` | lib/assembly-store.cc:235-287 | result and new state for a found entry, aborts included |
| `StoreReader.AssemblyStore.GetData` | lib/assembly-store.cc:47-199 | a copy of an uncompressed image, or the compressed branch |
| `StoreReader.AssemblyStore.GetCompressedData` | lib/assembly-store.cc:56-177 | the compressed branch with the lock free: the checks, the decompression into the shared buffer, the cached bytes |
| `DecompressProtocol.DecompressedAtMostOnce` | lib/assembly-store.cc:53-170 | over every interleaving of any number of threads each descriptor is decompressed at most once, loaded never reverts and the stored size only shrinks |
| `DecompressProtocol.ReturnedSeesEverything` | lib/assembly-store.cc:53-170 | every thread that has returned was given the header's length of the image it asked for, and from then on the bytes it was handed are the whole of that image decompressed, for ever |
| `DecompressProtocol.WorksOnItsRequest` | lib/assembly-store.cc:64-177 | wherever a thread stands it works on the descriptor of its last request |
| `DecompressProtocol.OneDecompressorAtATime` | lib/assembly-store.cc:111-112 | at most one thread is inside the lock |
| `DecompressProtocol.NeverStuck` | lib/assembly-store.cc:109-170 | unless the application was aborted, some thread can always step while one is under way |
| `DecompressProtocol.RequestsEnd` | lib/assembly-store.cc:64-177 | each request is answered within as many steps of its thread as the output has bytes, and seven, however the threads are scheduled |
| `DecompressProtocol.NeverAborts` | lib/assembly-store.cc:64-162 | when every image fits its place and decompresses to its stated length, no interleaving aborts |
| `DecompressProtocol.StepKeepsInv` | lib/assembly-store.cc:53-170 | every step of every thread keeps the invariant, with the buffer written a byte at a time |
| `StoreBuilder.BuiltStoreOpens` | lib/AssemblyStoreBuilder.cs:26-63 | in a store built for CoreCLR by any calls that add .dll paths, when the stems are apart: every generated native-image name opens to null and touches nothing, and every assembly's own names open to its bytes |
| `StoreBuilder.BuiltStems` | lib/AssemblyStoreBuilder.cs:26-63 | each call leaves in the list the assembly named after its file, and the ignored entry with .ni.dll in place of .dll |
| `StoreBuilder.BuiltFiles` | lib/AssemblyStoreBuilder.cs:26-46 | in the list that any calls build, each assembly's image comes from its source path, and configuration and symbols from beside its item |
| `StoreBuilder.EntryReadFrom` | lib/AssemblyStoreBuilder.cs:26-46 | the files of one call: the source path, base.dll.config, and base.pdb when asked for |
| `StoreBuilder.CallNames` | lib/AssemblyStoreBuilder.cs:26-63 | the two names of one call, from the path functions and the stored-name rule |
| `StoreBuilder.NativeImageFileName` | lib/AssemblyStoreBuilder.cs:59 | the file name of the path with its extension changed is the base with .ni.dll, whatever dots the directories and the base hold |
| `StoreBuilder.ExtensionChanged` | lib/AssemblyStoreBuilder.cs:59 | changing the extension of a .dll path replaces exactly .dll |
| `StoreBuilder.UnambiguousExactly` | lib/AssemblyStoreBuilder.cs:26-63 | no name is ambiguous exactly when the stems are distinct and none is another with .dll, .ni or .ni.dll appended |
| `StoreBuilder.RunLists` | lib/AssemblyStoreBuilder.cs:26-63 | after any run of calls an architecture's list holds, for each of its calls in order, the assembly and its ignored native image |
| `StoreBuilder.BuiltWellNamed` | lib/AssemblyStoreBuilder.cs:26-63 | the extensionless names the builder stores are what the reader strips |
| `StoreBuilder.AssemblyStoreBuilder.AddAssembly` | lib/AssemblyStoreBuilder.cs:26-46 | appends to the item's architecture the assembly, with configuration and symbols when the files exist, and its ignored native image; no other list changes |
| `StoreBuilder.AssemblyStoreBuilder.ClrAddIgnoredNativeImageAssembly` | lib/AssemblyStoreBuilder.cs:53-61 | one more ignored entry for CoreCLR, and nothing otherwise |
| `StoreBuilder.AssemblyStoreBuilder.Add` | lib/AssemblyStoreGenerator.cs:79-87 | the entry is appended to its architecture's list, which is created when missing |
| `StoreBuilder.StripsDll` | lib/assembly-store.cc:23-37 | the reader strips exactly .dll from a stem's full name |
| `IdentifierProtocol.Agreement` | lib/Telemetry.cs:996-1049 | over every interleaving with timeouts, deaths inside the mutex and half-written files, when reads and writes do not themselves fail, all processes that keep telemetry on end with the same non-empty identifier |
| `IdentifierProtocol.AgreementExactly` | lib/Telemetry.cs:945-1049 | for any set of kinds of failure: every run in which only those occur agrees, exactly when the set has no failed read under the mutex, no failed creation and no failed write |
| `IdentifierProtocol.AgreementUpToDefault` | lib/Telemetry.cs:945-1049 | when writes may fail but reads under the mutex do not, the only other identifier anyone ends with is the default |
| `IdentifierProtocol.NeverOverwritten` | lib/Telemetry.cs:945-990 | once the file holds a valid identifier nothing later overwrites it, even when writes fail |
| `IdentifierProtocol.MutualExclusion` | lib/Telemetry.cs:1008-1040 | at most one process is inside the mutex, abandonment included |
| `IdentifierProtocol.TelemetryOffExactly` | lib/Telemetry.cs:1018-1048 | over every interleaving and failure a finished process has telemetry off, and the empty identifier, exactly when it gave up waiting |
| `IdentifierProtocol.NeverStuck` | lib/Telemetry.cs:1008-1040 | after any deaths and failures but one of a read under the mutex, while a process is under way some process can take a step without anything going wrong |
| `IdentifierProtocol.StepKeepsInv` | lib/Telemetry.cs:904-1049 | every step of every process keeps the invariant behind agreement |
| `IdentifierProtocol.StepKeepsStoredId` | lib/Telemetry.cs:904-990 | no step but a failed read under the mutex replaces a stored identifier |
| `IdentifierProtocol.RereadFaultBreaksAgreement` | lib/Telemetry.cs:945-952 | one failed read under the mutex makes two processes end with different identifiers |
| `IdentifierProtocol.WriteFaultBreaksAgreement` | lib/Telemetry.cs:970-990 | one failed write leaves its process on the default identifier while the next has a fresh one |
| `IdentifierProtocol.CreateFaultBreaksAgreement` | lib/Telemetry.cs:955-968 | one failed creation leaves its process on the default identifier while the next has a fresh one |
| `IdentifierProtocol.SoloRuns` | lib/Telemetry.cs:996-1049 | where the machine ends for one process alone, for every file and every fault |
| `IdentifierProtocol.Telemetry.TryGetIdentifier` | lib/Telemetry.cs:904-937 | succeeds exactly when the read does not fail and the file starts with sixteen bytes that are not all zero |
| `IdentifierProtocol.Telemetry.CreateUniqueIdentifierAndFile` | lib/Telemetry.cs:945-990 | the identifier returned and the file left, for every fault |
| `IdentifierProtocol.Telemetry.GetUniqueIdentifier` | lib/Telemetry.cs:996-1049 | one process alone does what the protocol's machine does for the same faults |
| `SurfaceOwnership.ReferenceConservation` | lib/Surface.java:336-743 | over every run of create, copy, transfer, parcel read, lock, unlock and release in which no copyFrom is disturbed, each native object's count is the number of fields and calls naming it, so none reaches zero early |
| `SurfaceOwnership.ConservedExactly` | lib/Surface.java:336-743 | a run conserves references throughout exactly when no copyFrom in it is disturbed: the handle compares under the lock as it did in the native |
| `SurfaceOwnership.CopyDisturbed` | lib/Surface.java:604-660 | a run in which a release between the native and the lock leaves a handle that nothing counts |
| `SurfaceOwnership.MethodsBalance` | lib/Surface.java:336-743 | every method moves a Surface's references and the counts by the same amount, object by object |
| `SurfaceOwnership.StepConserves` | lib/Surface.java:336-743 | an operation keeps the references conserved exactly when it is not the disturbed end of a copyFrom |
| `SurfaceOwnership.CopyAlone` | lib/Surface.java:628-660 | with nothing in between, the two halves of copyFrom are the whole method |
| `SurfaceOwnership.CreateAlone` | lib/Surface.java:674-692 | with nothing in between, the two halves of createFrom are the whole method |
| `SurfaceOwnership.RunExtends` | lib/Surface.java:336-743 | no undisturbed run gets stuck for want of a reference |
| `SurfaceOwnership.GenerationCountsChanges` | lib/Surface.java:770-783 | the generation number counts exactly the changes of the handle, up to 32-bit wrap-around |
| `SurfaceOwnership.GenerationIsInt` | lib/Surface.java:770-783 | the generation number stays a 32-bit int |
| `SurfaceOwnership.GuardOpenExactly` | lib/Surface.java:770-783 | the close guard is open exactly while the handle is not zero |
| `SurfaceOwnership.TransferArrives` | lib/Surface.java:702-720 | transferFrom, with anything between its two critical sections: the giving Surface has no handle, and the receiving one ends with the handle the giving one had |
| `SurfaceOwnership.CreatedArrives` | lib/Surface.java:674-692 | createFrom likewise ends with the object its native made |
| `SurfaceOwnership.StaysInFlight` | lib/Surface.java:702-720 | a reference on its way stays what it was, whatever else happens, until it is taken |
| `SurfaceOwnership.StepLeavesHandle` | lib/Surface.java:336-743 | every operation leaves its handle on its own Surface and every other Surface as it was |
| `SurfaceOwnership.LockIsHeld` | lib/Surface.java:462-515 | a software lock stays what it was until it is unlocked, whatever happens to the handle |
| `SurfaceOwnership.UnlockReleasesWhatWasLocked` | lib/Surface.java:462-515 | unlocking drops the reference on the object that was locked, even when the handle has changed meanwhile |
| `SurfaceOwnership.Surface.Release` | lib/Surface.java:336-347 | the handle's reference and the hardware context are dropped, and the Surface has no handle |
| `SurfaceOwnership.Surface.LockCanvas` | lib/Surface.java:462-476 | state, counts and result: locks only when nothing is locked; a failure changes nothing |
| `SurfaceOwnership.Surface.UnlockCanvasAndPost` | lib/Surface.java:484-494 | state, counts and result: the software unlock, or the hardware context's post, which leaves the Surface alone |
| `SurfaceOwnership.Surface.UnlockSwCanvasAndPost` | lib/Surface.java:496-515 | state, counts and result for every check and for a post that throws or not: whenever the checks pass the lock is gone and its reference dropped, and only the result tells whether posting threw |
| `SurfaceOwnership.Surface.LockHardwareCanvas` | lib/Surface.java:535-545 | creates the hardware context once, or throws without a handle |
| `SurfaceOwnership.Surface.UpdateNativeObject` | lib/Surface.java:604-614 | the old reference is dropped and the new one kept, unless both are the same |
| `SurfaceOwnership.Surface.CopyFrom` | lib/Surface.java:628-660 | the Surface has the new handle, with its counts, when no other thread intervenes; or no change and an exception |
| `SurfaceOwnership.Surface.CreateFrom` | lib/Surface.java:674-692 | the Surface has the new handle, with its counts; or no change and an exception |
| `SurfaceOwnership.Surface.TransferFrom` | lib/Surface.java:702-720 | the receiving Surface has the giving one's handle, which has none, in two critical sections; a transfer to itself does nothing |
| `SurfaceOwnership.Surface.ReadFromParcel` | lib/Surface.java:727-743 | the Surface has the handle read, with its counts |
| `SurfaceOwnership.Surface.SetNativeObjectLocked` | lib/Surface.java:770-783 | guard, handle, generation and hardware context after the handle is set |
| `ArmFeatures.Fp16Closure` | lib/ARM.cpp:716-741 | after the fp16 block fp16fml on implies fullfp16 on, on either architecture branch |
| `ArmFeatures.Fp16Exactly` | lib/ARM.cpp:716-741 | after the block fullfp16 and fp16fml are each on exactly when the entry-by-entry reading, in which each setting implies the other's where the architecture says so, has them on |
| `ArmFeatures.Fp16Frame` | lib/ARM.cpp:716-741 | the block changes no other feature's setting |
| `ArmFeatures.SettingByDistance` | lib/ARM.cpp:719-722 | comparing the last +name with the last -name decides the setting in force |
| `ArmFeatures.CryptoIsSha2AndAes` | lib/ARM.cpp:849-862 | once crypto is mentioned, it is on exactly when sha2 and aes both are |
| `ArmFeatures.CryptoMeansExpansion` | lib/ARM.cpp:805-862 | with plain names sha2 and aes end up as if every mention of crypto were replaced by both |
| `ArmFeatures.RerunChangesNothing` | lib/ARM.cpp:805-865 | running the crypto and NEON blocks again changes no effective setting |
| `ArmFeatures.SettingAfter` | lib/ARM.cpp:805-865 | the setting of every feature after the two blocks |
| `ArmFeatures.NeonClosureExact` | lib/ARM.cpp:818-865 | aes, sha2, bf16, dotprod or i8mm on implies neon on, except exactly when neon is not on, no search reports a dependent, and some dependent that is on is hidden by a later minus entry whose different name contains it |
| `ArmFeatures.SeenOrHidden` | lib/ARM.cpp:818-841 | a feature that is on and that the substring search misses is behind such an entry |
| `ArmFeatures.NeonClosure` | lib/ARM.cpp:818-865 | when every entry whose name contains a dependent's name has just that name, the closure always holds |
| `ArmFeatures.NeonOnlyIfNeeded` | lib/ARM.cpp:818-865 | with plain names neon ends up on exactly when it was on or some dependent ends up on |
| `ArmFeatures.NeonClosureCanFail` | lib/ARM.cpp:818-865 | a vector for which it does not: -fuse-aes after +aes |
| `ArmFeatures.SimdOffDisablesDependents` | lib/ARM.cpp:789-803 | when SIMD is off and the FPU supports NEON, every dependent feature ends up off |
| `ArmFeatures.SimdExactly` | lib/ARM.cpp:789-803 | the SIMD block turns its six features off exactly when neon is not on and the FPU supports it, and touches no other |
| `ArmFeatures.FeatureVector.ResolveFp16` | lib/ARM.cpp:716-741 | the block appends what the last mentions decide, and leaves both features as the entry-by-entry reading says |
| `ArmFeatures.FeatureVector.DisableSimdDependents` | lib/ARM.cpp:789-803 | six entries are appended exactly when no neon entry is on and the FPU supports NEON |
| `ArmFeatures.FeatureVector.ResolveCryptoAndNeon` | lib/ARM.cpp:805-865 | the two blocks append what was decided before either of them appended |

## Left out

- `AssemblyStoreAssemblyInfo`, `AssemblyStoreIndexEntry` and the `NativeSize` constants of the C# side are not part of this model: stored names come from an arbitrary function, the extensionless name is what the reader strips, and the sizes are those of the packed structures in `lib/xamarin-app.hh`.
- StoreEndToEnd.WriteMapOpen: is about CoreCLR, whose reader this is. It takes a stored image of fewer than four bytes as legible, which every longer one is: the reader looks at four bytes whatever the size, and they must lie in the payload and not happen to be the magic of compressed data (`StoreEndToEnd.ShortImage` says what it makes of any other). It takes compressed images whose header and data agree, one compressed descriptor for each compressed image, and lengths that fit 32 bits; the reader is the one built for the architecture (`StoreWriter.VersionIsNative`).
- StoreReader.AssemblyStore.GetCompressedData: one thread, with the lock free; `DecompressProtocol` models the threads, and the two are not composed into one machine.
- StoreReader.AssemblyStore.ConfigureFromPayload: remapping a second store into filled slots is not modelled; only the release build of the reader is.
- DecompressProtocol.ReturnedSeesEverything: memory is sequentially consistent, so it says nothing of weak-memory effects beyond the acquire and release pair on `loaded`; the check on the descriptor's range is one step with the request.
- StoreReader.FindEntry: uses the standard contract of `Search::lower_bound`, whose code is not part of this model.
- StoreGenerator.Generate: files are byte strings, the `.manifest` text and the output directories are not modelled, and a list holds at most 2^31 - 1 assemblies, as .NET lists do.
- StoreBuilder.AssemblyStoreBuilder.AddAssembly: paths use `/` as the only separator.
- Reservation.ReserveWithAlignmentPadding: takes both alignments as at most 2 MiB, as its one caller does, and sizes at least 68 MiB below 2^64, so that the padded size does not wrap around (`Reservation.PaddedSizeExact` says what happens otherwise). When both alignments are a page the code leaves the gap's out-parameters unset; the model sets them to zero.
- ElfReader.ElfReader.ReserveAddressSpace: `kLibraryAlignment` is a parameter, any power of two from a page to 2 MiB; its header is not part of this model.
- ElfReader.ElfReader.Load: reading and verifying the ELF header, the section headers and the dynamic section, GNU properties and aarch64 BTI are not modelled.
- SegmentLoader.LoadSegments: huge-page advice and the naming of zero pages are not modelled, and warnings for old target SDKs are only the absence of a refusal.
- RelroSharing.MapGnuRelro: takes RELRO pages as readable and the file as already mapped for comparison; the temporary mapping and its failure are not modelled.
- RelroSharing.SerializeGnuRelro: a write appends to the file, and a short one is a failure, as the code treats it.
- IdentifierProtocol.Agreement: processes share one file and one mutex; the directory is only a creation that may fail, and the metric sending and the rest of the class are not modelled.
- SurfaceOwnership.Surface.CopyFrom: as a method of the class it runs without another thread between its native and the lock; the steps `CopyStart` and `CopyFinish` of a run have one there.
- SurfaceOwnership.Surface.CreateFrom: likewise; its steps are `CreateStart` and `TransferIn`.
- SurfaceOwnership.Surface.LockHardwareCanvas: the hardware context is a flag; rendering, matrices and drawing are not modelled.
- ArmFeatures.FeatureVector.ResolveFp16: triples, CPUs, FPU tables and the architecture check behind the crypto block are decided by tables that are not part of this model; whether the FPU supports NEON and the sub-architecture are parameters.
- `lib/CreateAssemblyStore.cs`, `lib/Canvas.java` and the declarations in the other headers are not modelled.
- Malformed files in general: the loader theorems are about well-formed tables, with the exact condition where a check is weaker than that.
