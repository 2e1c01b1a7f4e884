# Verification models for the SIMH disk, card and console support code

This project models the parts of the Open SIMH support library whose correctness rests on an
invariant rather than on a single routine, and proves what they are for.

* **VHD containers** (`VhdLayout`, `VhdFormat`, `VhdDisk`, `VhdOpen`, `VhdRecords`, `VhdRun`, over `HostFiles`).
  Fixed, dynamic and differencing virtual disks as `sim_disk.c` keeps them in host files. A handle is
  the class `Vhd`; its `Valid()` says that headers, block allocation table, blocks and footer in the file
  are where the "Virtual Hard Disk Image Format Specification", version 1.0, wants them, that the file
  and the handle agree, and that the parent is valid too. Every operation is a method that keeps
  `Valid()` and says what happens to the bytes the disk presents; `VhdRun.Run` concludes that any run of
  writes, drive type updates and re-openings behaves like a flat byte array, `Vhd.Merge` that a merged
  parent presents what its child did, and `VhdRun.EditAndMerge` puts the two together.
* **Asynchronous disk I/O** (`AsyncDisk`, `AsyncResults`). The main thread, one I/O thread per unit and the event queue
  as interleaved atomic steps, with lost signals possible. Safety holds for every interleaving; liveness
  is a measure that every step of the library lowers, and a proof that someone can move while a request
  is outstanding. `AsyncResults` keeps the history of a run: every callback is told the result of the one
  action that performed its request.
* **Cards** (`CardTables`, `CardPunch`, `CardReader`, `Keypunch`). The punch, and the reader with its sliding refill
  buffer. The main result is an equivalence: which decks come back unchanged, for every punch mode.
  `Keypunch` states the codes by zones and rows, apart from the tables.
* **RAW containers** (`RawDisk`), **RT-11 directories** (`Rt11`, and `Rt11Volume` for volumes as they are laid out), **track interleave** (`Interleave`),
  the **disk exerciser** (`DiskExercise`), the **ROM include files** (`RomInclude`), the
  **whitespace-folding comparison** (`WhiteCompare`) and the **bit sampler** (`BitSampler`).

`dafny verify dfyconfig.toml` checks everything. Objects the C code updates are classes or local
arrays updated in loops; each such method is proved against a function of its inputs, and the theorems
are about those functions. Sizes the C code keeps in 32 or 64 bits are subset types, and where a product
or a sum wraps the model wraps it.

## Where the code and its promise differ

The model follows the code. These are the places where what it proves is less than one would expect,
each with the exact condition and an input that shows it:

* `sim_vhd_disk_merge` allocates its buffer with a 32-bit product (sim_disk.c:5501), block size times
  sector size, which is 0 from blocks of 8 MiB on. `VhdDisk.MergeBufferHolds` says when a block fits,
  `Vhd.Merge` that the buffer is overrun if and only if it does not and a block is to be merged;
  `VhdRun.EightMiBOverruns` is an input.
* `WriteVirtualDisk` does not cut a write at the end of a fixed disk (sim_disk.c:6284-6291), so that it
  overwrites the footer. `Vhd.WriteVirtualDisk` says when the container stays consistent all the same;
  `VhdRun.FixedOverrun` is an input.
* `GetVHDFooter` (sim_disk.c:5085) returns `errno` when the dynamic header is bad, and nothing has set
  it: a damaged header is accepted whenever `errno` happens to be zero. `VhdOpen.GetVhdFooter` and
  `VhdOpen.Open` state the exact condition, `VhdOpen.DamagedHeaderPasses` is an input, and
  `VhdOpen.Reopen` shows that consistent containers do not depend on it.
* A card punched only in its first column is written as `~eo` followed by `raw` (sim_card.c:1112-1154), which
  the reader takes for `~eor`; the 6/7/8/9 end card is written as `~eof` and comes back as 6/7/9
  (`CardReader.LoneColumnsLost`). A text card of a lone tilde is read as an end of file
  (`CardReader.LoneTildeLost`), and the line after it is swallowed with it (`CardReader.NextCardSwallowed`).
  Text cards beginning with a tilde and raw, eor, eof or eoi are read as control cards.
  `CardReader.Survives` is the exact condition, and `CardReader.ReadDeck` proves both directions.
* An EBCDIC column outside the table is punched as byte 0, which reads as another column
  (`CardReader.NoByteForIt`, and `CardReader.AllRowsLost` for an input).
* When a card takes more bytes than are buffered, the count of what is left wraps (sim_card.c:1021).
  `CardReader.CardOver` says of every buffer when that happens: in text and CBN mode it depends on the
  bytes left behind the data (`CardReader.OddRest` and `CardReader.StaleLineEnd` are inputs), and
  `CardReader.ReadCard` that a text card does so only after a refill. In
  binary mode a record that is too short is refused without setting its size (sim_card.c:861-864), so that
  every file longer than a card and no whole number of cards ends this way, and no other:
  `CardReader.ReadDeck`, with `CardReader.TruncatedDeck` as an input. An EBCDIC file never does.
* Error marks go into column 0, and what is written there later erases them: that of a character without a
  column in the first column (`CardReader.StrayForgotten`), of a short EBCDIC record
  (`CardReader.ShortRecordForgotten`) and of the parity of the first CBN byte
  (`CardReader.FirstParityForgotten`). `CardReader.TextColumns`, `ParseEbcdic` and `ParseCbn` are exact.
* An empty card file is read as one card (the loop of sim_card.c:989-1027 runs at least once): a blank one
  in text and CBN mode, one marked as an error in EBCDIC mode; in binary mode it is a failure.
  `CardReader.ReadDeck` states this for every mode; the deck theorem is about non-empty decks.
* A RAW read that needs a window and starts behind the end of the container computes its byte count
  below zero (sim_disk.c:738-744), unless it starts on a storage sector: every sector counts as read, and
  where elements are swapped the swap leaves the buffer. `Disk.ReadSectors` has the condition,
  `RawDisk.BehindTheEnd` an input.
* Interleave 2 is one to one only for an even number of at most 32768 sectors a track, or one
  (`Interleave.OneToOneIff`, with `Interleave.OddCollides` and `Interleave.WideCollides`); the RX drives have 26.
* Some comments beside the card code tables (sim_card.c:119-229) name other holes than the values: 11-2-8 where
  the 026 has 11-0 for `!`, for instance. `Keypunch` has the holes of the values.
* A ROM descriptor whose expected checksum is 0 makes every run rewrite the include file:
  `RomInclude.SecondRun`, and `RomInclude.ZeroDescriptor` for the inputs.
* The disk exerciser prints "Writing OK" when a write comes back short without an error: in
  `DiskExercise.Exercise` that is the case `writingOk && !filled`, and `DiskExercise.ShortWrite` is an
  input. The read pass then finds it out, unless the sectors happened to hold their addresses before.

## Model

| member | source | states |
|---|---|---|
| Arithmetic.BitTest | sim_disk.c:6164-6165 | `(BlockSize & (BlockSize - 1))` is zero exactly for a power of two |
| Arithmetic.MaskIs | sim_disk.c:705-707 | masking with one less than a power of two is the remainder |
| VhdLayout.PowerOfTwoBlocks | sim_disk.c:6164-6170 | a power-of-two block size of at least 2 MiB has a bitmap of one bit a sector that fills whole sectors, and padding keeps the data 4096-aligned |
| VhdLayout.BlockDiv | sim_disk.c:6172-6176 | the block number and offset used in the proofs are the quotient and remainder the code computes |
| VhdFormat.CalculateVhdFooterChecksum | sim_disk.c:5023-5032 | the loop returns the one's complement of the 32-bit sum of the bytes |
| VhdFormat.SealIsOk | sim_disk.c:6036-6043 | a structure whose checksum field was zeroed, summed and filled in passes the check made on opening |
| VhdFormat.NewFooterOk | sim_disk.c:5712-5768 | a new footer is accepted and carries the requested size and disk type |
| VhdFormat.UnsealedDynamicFields | sim_disk.c:5781-5792 | a new dynamic header carries table offset, entry count and block size in big-endian fields |
| VhdFormat.DynamicResealed | sim_disk.c:6036-6037 | sealing a dynamic header keeps those fields and makes it acceptable |
| VhdFormat.RetypedOk | sim_disk.c:5313-5325 | recording a drive type keeps size, type and header offset and leaves a footer that is accepted |
| VhdFormat.BatEntryOfEncode | sim_disk.c:5178-5189 | an entry read from the table as stored is the entry that was stored |
| VhdRecords.BigEndian | sim_disk.c:5040-5082 | a stored word has its most significant byte first |
| VhdRecords.FooterReads | sim_disk.c:4692-4852 | in a footer laid out field by field as the structure declares them, header offset, size, disk type, saved state and identifier are found where the program reads them |
| VhdRecords.FooterAcceptedAs | sim_disk.c:5131-5138 | a footer is one the handles keep exactly if it passes the check made on opening, its checksum the complemented sum of the record with a zero in its place and its cookie conectix, and its header offset fits its type |
| VhdRecords.NewFooterIs | sim_disk.c:5712-5768 | the footer made for a new disk, field by field |
| VhdRecords.RetypedIs | sim_disk.c:5313-5325 | recording a drive type replaces drive type, the two sizes, the simulator's name and the checksum, and no other field |
| VhdRecords.ChildFooterIs | sim_disk.c:6038-6043 | a child's footer takes disk type 4 and the parent's drive type and sizes, and no other field changes |
| VhdRecords.DynamicReads | sim_disk.c:4860-4978 | in a dynamic header laid out as declared, table offset, entries, block size and the parent's identifier and time are found where the program reads them |
| VhdRecords.DynamicAcceptedAs | sim_disk.c:5171-5179 | a dynamic header passes its check exactly if its checksum is right and its cookie is cxsparse |
| VhdRecords.NewDynamicIs | sim_disk.c:5781-5793 | the dynamic header made for a new disk, field by field |
| VhdRecords.ChildHeaderIs | sim_disk.c:6014-6037 | the header of a differencing disk, field by field: identifier, time and name of the parent, its two locators, and the table at byte 4096 |
| VhdLayout.FullDiskFits | sim_disk.c:5697-5700 | with every block of an accepted disk allocated, the file still ends where all sector numbers fit in 32 bits |
| VhdLayout.EntryBound | sim_disk.c:5787-5790 | entries times block size and per-block overhead stay within the 32-bit sector range for the 2040 GiB limit |
| VhdLayout.PlaceFits | sim_disk.c:6327-6375 | the entry chosen for a new block fits in 32 bits and is not the free marker |
| VhdLayout.PlaceIs | sim_disk.c:6339-6375 | the data of a new block begin at the first 4096 boundary with room for the bitmap behind the old footer, and the footer follows; on a boundary the write starts there, otherwise with the bitmap |
| VhdLayout.PlaceKeepsLayout | sim_disk.c:6327-6381 | adding a block where the code puts it keeps every block below the footer, 4096-aligned and apart from all others, and the footer last |
| VhdLayout.RegionsDisjoint | sim_disk.c:5784-5829 | header copy, dynamic header, locators, table, allocated blocks and footer never overlap |
| VhdLayout.BatWindowFacts | sim_disk.c:6384-6401 | the part of the table rewritten after an allocation contains the changed entry and lies inside the rounded table |
| VhdLayout.BatUpdateStores | sim_disk.c:6384-6406 | after that partial write the table on disk is the table in memory |
| VhdLayout.HeadKept | sim_disk.c:6340-6381 | a write behind the table leaves footer copy, header and table on disk as they were |
| VhdLayout.ThreeWritesHead | sim_disk.c:6340-6406 | after block, footer and table update, headers, table and footer on disk are those in memory |
| VhdLayout.ThreeWritesData | sim_disk.c:6340-6406 | the same three writes leave the data of every other block alone and zero the new one |
| VhdLayout.AllocationIsSound | sim_disk.c:6312-6406 | the three writes of an allocation keep the whole image consistent, every allocated block with a full bitmap in front of it |
| VhdLayout.MarkedMore | sim_disk.c:6327-6345 | a new block brings a bitmap of ones, and those of the other blocks stay |
| VhdLayout.AllocateView | sim_disk.c:6312-6406 | an allocation changes what the disk presents only by showing zeros where the parent showed through |
| VhdLayout.StoreIsSound | sim_disk.c:6432-6441 | writing inside an allocated block keeps the image consistent and its bitmaps full |
| VhdLayout.StoreView | sim_disk.c:6432-6441 | writing inside an allocated block changes exactly those bytes of the disk |
| VhdLayout.PopulateView | sim_disk.c:6407-6425 | filling a fresh block with the parent's bytes restores what the disk presented before the allocation |
| VhdLayout.ShowsThrough | sim_disk.c:6178-6191 | a byte of an unallocated block is the parent's byte |
| VhdLayout.MergeStep | sim_disk.c:5526-5549 | moving one block to the parent and freeing its entry leaves the overlay of the two as it was |
| VhdLayout.AllFree | sim_disk.c:5519-5549 | a child without entries presents what its parent does |
| VhdLayout.FooterRewrite | sim_disk.c:5319-5345 | rewriting both footer copies keeps the image consistent |
| VhdLayout.ViewFromBlocks | sim_disk.c:5319-5345 | what a disk presents depends only on the data of its blocks |
| VhdLayout.FreshLayout | sim_disk.c:5795-5829 | a newly laid out disk without blocks satisfies the layout invariant |
| VhdLayout.LaidDownIsStored | sim_disk.c:5798-5829 | writing header copy, dynamic header, table and footer in this order stores them all |
| VhdLayout.LocatorKeepsStored | sim_disk.c:6077-6094 | writing a parent locator sector disturbs nothing else that is stored |
| VhdLayout.FreshView | sim_disk.c:5795-5829 | a disk without blocks presents zeros, or its parent |
| VhdDisk.ChunkIsExact | sim_disk.c:6171-6177 | although the 32-bit product `(BlockNumber + 1) * BlockSize` wraps, the chunk size is exactly the rest of the block or of the request |
| VhdDisk.ChunkInBlocks | sim_disk.c:6171-6177 | the block numbers in the code's arithmetic, one of them cut to 32 bits, are those the proofs use |
| VhdDisk.ZerosSkipped | sim_disk.c:6322-6325 | skipping an all-zero write to an unallocated block of a disk without parent has the effect of the write |
| VhdDisk.BufferIsZeros | sim_disk.c:6247-6257 | true exactly when every byte is zero |
| VhdDisk.AllocationUsesEntry | sim_disk.c:6374 | each allocation uses up a free entry: the measure by which the write loop and its nested call end |
| VhdDisk.MergeSectorsIs | sim_disk.c:5527-5536 | the block and sector count of a merge step, in the code's arithmetic, are the block's own, cut off at the end of the disk |
| VhdDisk.MergeBufferHolds | sim_disk.c:5501 | the merge's buffer size is a 32-bit product: it holds a block exactly for blocks of 2 and 4 MiB and is 0 from 8 MiB on |
| VhdDisk.FooterOverwritten | sim_disk.c:6284-6291 | what a write to a fixed disk puts past its end lands on the footer, which is unchanged exactly when those bytes are its own |
| VhdDisk.AllMerged | sim_disk.c:5519-5549 | when all entries are free the parent alone presents what the pair did |
| VhdDisk.Vhd.ReadChunk | sim_disk.c:6178-6205 | one chunk is delivered from the block, the parent or as zeros, as the disk presents it |
| VhdDisk.Vhd.ReadVirtualDisk | sim_disk.c:6128-6210 | a read of any length over any chain of parents delivers exactly that slice of what the disk presents and touches nothing else; errors exactly past the end |
| VhdDisk.Vhd.AllocateBlock | sim_disk.c:6327-6406 | first touch of a block keeps the handle and its file consistent, with the new block's bitmap all ones, and gives the block an entry |
| VhdDisk.Vhd.StoreChunk | sim_disk.c:6432-6441 | a chunk inside an allocated block is stored and nothing else changes |
| VhdDisk.Vhd.TouchBlock | sim_disk.c:6312-6429 | allocation with copy-up over a parent leaves what the disk presents unchanged and uses up an entry |
| VhdDisk.Vhd.WriteVirtualDisk | sim_disk.c:6259-6450 | a write of any length changes exactly the written range of what the disk presents, never its parent, and keeps every invariant; on a fixed disk a write past the end is not cut, and the container stays consistent if and only if the bytes past the end are the footer's own |
| VhdDisk.Vhd.WriteSparse | sim_disk.c:6302-6446 | the write loop with its nested self-call, for every interplay of skipped zeros, first touch and block boundaries |
| VhdDisk.Vhd.MergeRead | sim_disk.c:5526-5539 | the bytes merged for a block are those the child holds for it, including a short last block, if and only if they fit in the buffer allocated |
| VhdDisk.Vhd.Merge | sim_disk.c:5470-5560 | after a merge the parent alone presents what the child did; the buffer is overrun if and only if the block size times 512 does not fit in 32 bits and some block is allocated; a disk that is not differencing or is in a saved state is left alone |
| VhdDisk.Vhd.SetDtype | sim_disk.c:5306-5361 | recording a drive type changes the footer as specified, keeps everything consistent and what the disk presents |
| VhdOpen.GetVhdFooter | sim_disk.c:5085-5235 | which files are accepted: footer checks, a header that can be seeked to, header checks or a stale errno of 0, a table that can be seeked to, and for a differencing disk with a good header a locator that leads to a file of the identifier and the time it names, an hour's difference or the override apart; and which error the others give |
| VhdOpen.GetHeader | sim_disk.c:5163-5189 | the header and the table of a sparse disk, with the three ways this ends |
| VhdOpen.HeaderDamaged | sim_disk.c:5171-5177 | a sparse container whose dynamic header loses its first byte keeps an accepted footer and has no accepted header |
| VhdOpen.DamagedHeaderPasses | sim_disk.c:5171-5177 | the file of a new dynamic disk with that byte changed: its header is not accepted and the routine returns whatever errno holds, so 0 when errno is 0 |
| VhdOpen.LoadBat | sim_disk.c:5178-5189 | the loaded table is the big-endian table in the file, padded with free entries |
| VhdOpen.StoredIsAccepted | sim_disk.c:5132-5189 | every consistent container passes both checksums and the header and footer comparison and gives back its headers and table |
| VhdOpen.FixedIsAccepted | sim_disk.c:5132-5140 | every consistent fixed container is accepted |
| VhdOpen.Open | sim_disk.c:5378-5455 | opening succeeds exactly for accepted files that are not in a saved state and, for a differencing disk, have a good header and a parent of the identifier and, unless overridden, the time it names; the handle holds what the file says |
| VhdOpen.Reopen | sim_disk.c:5378-5455 | closing and opening a container gives the same disk, whatever errno held |
| VhdOpen.EntriesForIs | sim_disk.c:5787-5790 | the entry count covers the disk and not a block more |
| VhdOpen.NewGeometryOk | sim_disk.c:5697-5700 | every size up to 2040 GiB with a power-of-two block of at least 2 MiB gives a usable geometry |
| VhdOpen.CreateVirtualDisk | sim_disk.c:5679-5850 | accepted exactly up to 2040 GiB; the new disk is consistent, of the requested size and all zero, with exactly the headers of `VhdRecords.NewFooterIs` and `NewDynamicIs` |
| VhdOpen.CreateFixed | sim_disk.c:5770-5779 | a new fixed disk |
| VhdOpen.CreateDynamic | sim_disk.c:5780-5835 | a new dynamic disk without blocks |
| VhdOpen.WithParentKeepsFields | sim_disk.c:6016-6035 | the parent's identity and locators leave size, table and block fields of the header as intended |
| VhdOpen.ChildFooterOk | sim_disk.c:6038-6043 | the footer of a differencing disk is accepted, has that type and keeps size and saved state |
| VhdOpen.ReadName | sim_disk.c:5220-5226 | the loop that turns a locator's 16-bit characters into a name |
| VhdOpen.WideIsRead | sim_disk.c:5992-6017 | a name of up to 256 characters written as 16-bit characters, in either byte order, is read back by that loop |
| VhdOpen.ParentRecorded | sim_disk.c:6018-6037 | the child's header holds the parent's identifier, time and name, and locator entries with code, length and 64-bit offset of the two paths |
| VhdOpen.WriteLocators | sim_disk.c:6077-6094 | the two locator sectors hold the full and the relative path and disturb nothing |
| VhdOpen.ChildRemembers | sim_disk.c:5200-5230 | following the locators of the header just written, as opening does, gives the full and the relative path |
| VhdOpen.CreateDifferencing | sim_disk.c:5948-6115 | a new differencing disk is consistent, presents exactly what its parent does, takes its block size, names the parent by identifier, time and path, and each locator in its header, followed to its offset in the file, gives its path |
| VhdRun.SectorsPresent | sim_disk.c:6327-6345 | in a valid handle, so after any run, the bitmap in front of every allocated block marks all its sectors present |
| VhdRun.WrittenIsFlat | sim_disk.c:6259-6450 | the byte-wise contract of a write is the splice of a flat byte array |
| VhdRun.Step | sim_disk.c:6259-6450 | one operation on a container is one operation on a flat byte array |
| VhdRun.Run | sim_disk.c:6259-6450 | any sequence of writes, drive type updates and re-openings refines the same sequence on a flat byte array |
| VhdRun.ReadSlice | sim_disk.c:6128-6210 | after any of it, a read inside the disk is the slice of that array |
| VhdRun.CreateAndUse | sim_disk.c:5679-5850 | a disk created, used in any way and opened once more holds what the same operations make of as many zeros |
| VhdRun.EditAndMerge | sim_disk.c:5470-5560 | a differencing disk made over any disk, used in any way and merged, leaves its parent holding what the same operations make of the parent; with blocks of 8 MiB and more any change makes the merge overrun its buffer instead |
| VhdRun.EightMiBOverruns | sim_disk.c:5501 | a differencing disk with blocks of 8 MiB over a new disk, with one byte written to it: the merge overruns |
| VhdRun.FixedOverrun | sim_disk.c:6284-6291 | two zero sectors written to a new fixed disk of one: the write succeeds, the file is all zeros, and its footer is no longer accepted |
| AsyncDisk.MainKeepsInv | sim_disk.c:286-326 | each step of the dispatcher, `_disk_cancel` and `sim_disk_clr_async` on the main thread keeps the invariant |
| AsyncDisk.DeliverKeepsInv | sim_disk.c:293-300 | running a callback answers exactly the outstanding request |
| AsyncDisk.IoKeepsInv | sim_disk.c:245-268 | each step of the I/O thread keeps the invariant |
| AsyncDisk.PostKeepsInv | sim_defs.h:1332-1355 | queueing a completed unit keeps the list well formed and the unit in it once |
| AsyncDisk.StealKeepsInv | scp.c:387-400 | taking the whole queue keeps both lists well formed |
| AsyncDisk.MigrateKeepsInv | scp.c:400-422 | working off one queued unit runs its dispatcher once |
| AsyncDisk.RequestKeepsInv | sim_disk.c:200-224 | a new request, asynchronous or not, keeps the invariant and never meets an old callback |
| AsyncDisk.ClientKeepsInv | sim_disk.c:580-638 | enabling, disabling and cancelling keep the invariant |
| AsyncDisk.StepKeepsInv | sim_disk.c:200-326 | every atomic step of every thread keeps the invariant |
| AsyncDisk.RunKeepsInv | sim_disk.c:200-326 | the invariant holds after every interleaving of any length |
| AsyncDisk.NeverAborts | sim_disk.c:211-212 | neither `abort()` is reachable, and no unit is ever queued twice |
| AsyncDisk.CallbacksMatch | sim_disk.c:286-300 | each callback runs at most once, with its own request's status; every accepted request has been answered or is outstanding |
| AsyncDisk.ReturnsQuiet | sim_disk.c:313-326 | cancel and clear return only when no operation is running on the unit, clear only when its thread is gone |
| AsyncDisk.SomeoneMoves | sim_disk.c:245-268 | while a request is outstanding or the main thread waits, some thread can move: no deadlock, no lost wake-up |
| AsyncDisk.InternalLighter | sim_disk.c:245-300 | every step that is not a new client call makes a measure smaller |
| AsyncDisk.InternalRunBounded | sim_disk.c:245-300 | without new client calls only boundedly many steps are possible |
| AsyncDisk.EveryRequestAnswered | sim_disk.c:200-300 | under every scheduling the threads come to rest, and then every request has been answered exactly once |
| AsyncResults.RunHistory | sim_disk.c:200-300 | over any run, what was asked, what was performed and what callbacks were told fit together |
| AsyncResults.PerformedOnce | sim_disk.c:252-262 | no request is performed by two actions of a run |
| AsyncResults.CallbackTold | sim_disk.c:252-300 | over any run, each callback was told the result of the one action that performed its request, on the unit and with the operation of the call that asked for it |
| CardTables.HolGood | sim_card.c:826-841 | in each of the three codes exactly the printable characters have a column, and only the blank leaves it unpunched |
| Keypunch.HolFollows | sim_card.c:121-228 | every printable character of every code is punched as the key punch's charts have it: zones, rows 1 to 9, and row 8 with another |
| Keypunch.LetterLaw | sim_card.c:121-228 | in every code digit d is punched in row d alone, and the k-th letter of A-I, J-R and S-Z in its zone and digit row; small letters add a zone |
| Keypunch.Charted | sim_card.c:121-228 | every character on a chart is punched where the chart has it |
| Keypunch.ReadAs | sim_card.c:1330-1349 | a column of the chart's form is punched as the chart's character, and as a question mark where the chart is empty |
| Keypunch.OffChartReadAs | sim_card.c:1330-1349 | of all other columns only 12-7-9 and 7-9 stand for a character, and in which codes |
| Keypunch.OnlyShared | sim_card.c:121-228 | two printable characters of a code share their column only if they are ^ and { of the 026 and 029, or % and ( or ' and @ of the 026 |
| Keypunch.EbcdicIs | sim_card.c:339-405 | the table of all 256 bytes is the EBCDIC card code |
| Keypunch.ParityIsOdd | sim_card.c:408-417 | a half column goes out in six bits with a seventh that makes the number of ones odd |
| Keypunch.EndCards | sim_card.c:791-803 | the end cards are 7/8/9, 6/7/9 and 6/7/8/9 |
| Keypunch.Tags | sim_card.c:675-684 | the words behind a tilde, letter by letter in either case |
| Keypunch.Folded | sim_card.c:824-841 | without lower case a small letter is read as its capital, with it as itself |
| Keypunch.NotFolded | sim_card.c:824-841 | every other character is read as itself either way |
| CardPunch.LastCharIs | sim_card.c:1330-1349 | the reverse table holds the last character punched as a column, and its marker exactly for a column of no character |
| CardPunch.BuildHolToAscii | sim_card.c:1330-1349 | the construction of the reverse ASCII table |
| CardPunch.BuildHolToEbcdic | sim_card.c:1313-1328 | the construction of the reverse EBCDIC table, where the first character wins |
| CardPunch.PunchCharPrints | sim_card.c:1095-1105 | a punched text column is printable, is a blank only when unpunched, and reads as the column exactly when the code has it |
| CardPunch.Punch.TextOut | sim_card.c:1095-1110 | a text line: all columns converted, trailing blanks trimmed to one character at least |
| CardPunch.Punch.OctalOut | sim_card.c:1112-1154 | the octal line, with `~eor` and `~eof` for end cards |
| CardPunch.Punch.BinaryOut | sim_card.c:1157-1164 | two bytes a column |
| CardPunch.Punch.CbnOut | sim_card.c:1166-1179 | two six-bit halves a column with odd parity and the record mark |
| CardPunch.Punch.EbcdicOut | sim_card.c:1196-1204 | one byte a column |
| CardPunch.Punch.CardOut | sim_card.c:1081-1092 | AUTO sends a card as text exactly when every column converts |
| CardPunch.Punch.PunchCard | sim_card.c:1060-1212 | the card is appended to the file and its image cleared |
| CardPunch.PunchDeck | sim_card.c:1060-1212 | a whole deck |
| CardReader.RestIsBlank | sim_card.c:749-771 | where the scan behind a tilde stops: at the end of the data, behind a line end or a null, after ten tabs, or at the first other character, which alone makes it fail |
| CardReader.BlankLine | sim_card.c:749-771 | on a printable line it passes exactly a lone tilde |
| CardReader.RawColumns | sim_card.c:773-790 | the digits end after 320, at the end of the data or at the first other character; each column is the value of its digits, and any end but a line end is an error in place of column 0 |
| CardReader.RawFacts | sim_card.c:773-790 | 320 punched digits give back the card; a text line leaves its last column blank |
| CardReader.TextColumns | sim_card.c:808-843 | where the scan ends, which character falls on which column with tabs and ignored characters in between, that a character without a column leaves it blank, and that it marks the card unless it is in the first column |
| CardReader.LineFacts | sim_card.c:808-843 | a printable line gives column for column the code of its characters |
| CardReader.SkipLine | sim_card.c:847-854 | the scan stops behind the first line end from where the columns stopped, or at the end of the data |
| CardReader.TagFacts | sim_card.c:675-684 | a punched text line is taken for a control card exactly when its first four columns say so |
| CardReader.ColumnsVerdict | sim_card.c:808-843 | the columns read are the columns punched exactly when the code has them all |
| CardReader.OctalHead | sim_card.c:1112-1140 | how the reader sees each kind of octal line |
| CardReader.WhenRaw | sim_card.c:773-790 | a text card read as octal digits is never the same card |
| CardReader.LoneIs | sim_card.c:791-803 | the image of a control card is a given card exactly when that card is punched as it says in column 0 and nowhere else |
| CardReader.TaggedImage | sim_card.c:747-806 | a punched text line is handled as a control card exactly when it looks like one, and then comes back as another card |
| CardReader.ParseText | sim_card.c:746-856 | for any bytes, the image of a text, octal or control card and the line passed over; a text line comes back as its card if and only if it is not taken for a control card; an octal line if and only if it is not a lone column other than 7/8/9 and 6/7/9, and which card that becomes |
| CardReader.TextOver | sim_card.c:847-854 | a text card takes more bytes than there are exactly when its tag reaches past the data, or the byte behind the data completes its line end |
| CardReader.NullStops | sim_card.c:847-854 | with a null behind the data a text card never does |
| CardReader.BlankOrNot | sim_card.c:749-771 | the scan behind a tilde has one outcome |
| CardReader.ParseBinary | sim_card.c:858-875 | every column is its two bytes, a set low nibble marks the card as an error, a short record is a failure; so a binary record comes back as its card |
| CardReader.ParityBit | sim_card.c:1172-1178 | the parity bit punched is the one the reader expects, and with the record mark no byte is the tape mark |
| CardReader.CbnByte | sim_card.c:878-906 | each byte of a punched CBN record gives back its half column |
| CardReader.ParseCbn | sim_card.c:877-919 | for any bytes: a tape mark, or a record up to the next mark with the halves of its columns, an error for even parity behind the first byte and for more than 160 bytes, and one byte too many for an odd or overlong rest |
| CardReader.CbnFacts | sim_card.c:877-919 | a punched record followed by another or by nothing comes back as its card |
| CardReader.ParseEbcdic | sim_card.c:955-964 | for any bytes: the table column of each byte, and the error mark for an empty record only |
| CardReader.EbcdicFacts | sim_card.c:955-964 | a punched record comes back as its card if and only if every column is in the table |
| CardReader.NoByteForIt | sim_card.c:1196-1204 | a column outside the EBCDIC table is punched as byte 0 and comes back as another column |
| CardReader.AllRowsLost | sim_card.c:1196-1204 | a column with all twelve rows punched is outside the table, so a card with it does not survive EBCDIC |
| CardReader.LoneColumnsLost | sim_card.c:1112-1154 | in every code the 6/7/8/9 card and the card with its whole first column punched do not survive AUTO and octal |
| CardReader.LoneTildeLost | sim_card.c:749-771 | in every code the card of a lone tilde is text and does not survive |
| CardReader.NextCardSwallowed | sim_card.c:847-854 | whatever the reader makes of a buffer with the file of a lone tilde and any text card, it is an end-of-file card that uses up the whole file |
| CardReader.ParseCard | sim_card.c:686-969 | one card in every mode, for any bytes and for punched ones |
| CardReader.CardOver | sim_card.c:1021-1026 | which cards take more bytes than are buffered, so that the count of what is left wraps: none in binary and EBCDIC mode, and in text and CBN mode by the bytes at and behind the end of the data |
| CardReader.CardBuffer.TopUp | sim_card.c:992-1000 | after a refill 500 bytes are buffered or the file is exhausted, and no byte is lost |
| CardReader.CardBuffer.Shift | sim_card.c:1019-1026 | the buffer moves down by the parsed card |
| CardReader.NextCard | sim_card.c:992-1027 | wherever the refills fall, the next card is wholly in the buffer |
| CardReader.DeckVerdict | sim_card.c:972-1050 | a deck is the one punched exactly when each card survives |
| CardReader.ReadCard | sim_card.c:989-1027 | one turn of the loop parses what is buffered, all that is left or 500 bytes, and keeps what is known about the rest of the deck; a text card runs over only after a refill |
| CardReader.OddRest | sim_card.c:886-906 | an odd rest of a CBN file with a null behind it takes one byte too many |
| CardReader.StaleLineEnd | sim_card.c:847-854 | a text file of one letter with a line end left behind it in the buffer takes a byte too many |
| CardReader.TallyStep | sim_card.c:989-1027 | cards of fixed size are counted off the file, and a binary card runs over exactly at a rest that is too short |
| CardReader.ReadDeck | sim_card.c:972-1050 | reading the file of a non-empty deck gives back exactly that deck, without error, if and only if every card survives its mode; an empty file is read as one blank card (an error card in EBCDIC) and is a failure in binary mode; a binary file makes the count wrap if and only if it is longer than a card and no whole number of cards, an EBCDIC file never, a text file of less than 8 KiB at most with its first card |
| CardReader.TruncatedDeck | sim_card.c:861-864 | 161 zero bytes in binary mode: the count wraps |
| CardReader.StrayForgotten | sim_card.c:838-840 | a character without a column, alone in the first column, gives a blank card without error mark |
| CardReader.ShortRecordForgotten | sim_card.c:958-964 | a short EBCDIC record that is not empty bears no error mark |
| CardReader.FirstParityForgotten | sim_card.c:889-899 | the parity of the first byte of a CBN record makes no difference |
| RawDisk.SwapTwice | sim_fio.c:229-248 | swapping the elements of a buffer twice gives it back |
| RawDisk.SwapOneMore | sim_fio.c:241-248 | swapping proceeds element by element |
| RawDisk.CopySwapped | sim_fio.c:229-248 | the copy holds the elements in container order and leaves the rest of the buffer alone |
| RawDisk.SwapData | sim_fio.c:123-128 | the same in place |
| RawDisk.MaskedDown | sim_disk.c:864-866 | the mask the code rounds down with is right for a power of two |
| RawDisk.WindowFacts | sim_disk.c:864-866 | the aligned window around a request: where it starts, where its last sector lies and where it ends |
| RawDisk.PreparedIsWritten | sim_disk.c:872-880 | writing a window made of old contents and payload changes only the payload |
| RawDisk.WindowInside | sim_disk.c:872-880 | when the window lies in the container, the container is the old one with the payload spliced in; it grows exactly when the window passes its end |
| RawDisk.Disk.AlignedIs | sim_disk.c:701-703 | a transfer goes without a window exactly if it begins and ends at a storage sector |
| RawDisk.Disk.ReadAround | sim_disk.c:872-876 | the two reads of a read-modify-write supply every byte of the window outside the payload that the container has |
| RawDisk.Disk.WriteWindow | sim_disk.c:863-883 | an unaligned write stores exactly the payload, and every other byte the container had is unchanged |
| RawDisk.Disk.WriteSectors | sim_disk.c:849-896 | the same for every RAW write, aligned or not, for any storage sector and either byte order |
| RawDisk.Disk.ReadWindow | sim_disk.c:725-748 | an unaligned read delivers the elements in host order and counts what it got; behind the end of the container the count wraps to nearly 4 GiB |
| RawDisk.Disk.ReadSectors | sim_disk.c:687-750 | every RAW read: zeros past the capacity, the container's sectors otherwise, short at the end of the container when a window is needed; a window that starts behind the end and inside a storage sector reports every sector as read, and the swap runs past the buffer if and only if elements are swapped |
| RawDisk.BehindTheEnd | sim_disk.c:725-748 | the second 256-byte sector of an empty container with 512-byte storage sectors: one sector is reported as read |
| RawDisk.WriteThenRead | sim_disk.c:706-883 | what was written is read back for every request, except that a single sector past the capacity reads as zeros |
| Rt11.WalkSegment | sim_disk.c:2196-2218 | a segment is accepted exactly when its base address never wraps, and ends at its last entry |
| Rt11.EntryCovered | sim_disk.c:2199-2218 | the end of a segment covers the end of each of its entries |
| Rt11.WalksAgree | sim_disk.c:2177-2224 | there is one way to walk a directory |
| Rt11.NeverTwice | sim_disk.c:2182-2184 | no segment is visited twice |
| Rt11.DeadEnd | sim_disk.c:2177-2224 | when the walk can go no further, no other walk comes to an end |
| Rt11.HighestCovers | sim_disk.c:2219-2220 | the highest block covers every entry of every segment walked |
| Rt11.WalkPartition | sim_disk.c:2168-2224 | the walk ends for arbitrary contents, `seg_seen` is indexed in bounds, and a partition is accepted exactly when a complete walk of distinct segments exists |
| Rt11.OneVerdict | sim_disk.c:2177-2224 | accepting, rejecting and failing to read exclude each other, and the result is unique |
| Rt11.HighestBound | sim_disk.c:2211-2220 | an accepted partition ends below block 65536 |
| Rt11.FilesystemSize | sim_disk.c:2150-2231 | the size found is the end of the last accepted partition up to where the search stops, -1 if there is none |
| Rt11.SizeCovers | sim_disk.c:2226-2230 | that size covers every entry of every accepted partition before it |
| Rt11Volume.HeaderReads | sim_disk.c:2073-2080 | the words of a segment header are found in their places |
| Rt11Volume.EndOfEntries | sim_disk.c:2082-2101 | over entries as RT-11 lays them out the walk adds up exactly their length words and stops at the end mark |
| Rt11Volume.SegmentFound | sim_disk.c:2179-2225 | what the walk finds in each segment of a volume: the next one, the highest in use, and the end of its files |
| Rt11Volume.InOrder | sim_disk.c:2179-2231 | the walk visits the segments of a volume in order |
| Rt11Volume.VolumeAccepted | sim_disk.c:2179-2231 | every volume of at most 31 segments whose blocks have 16-bit numbers is accepted, and ends where its last file does |
| Rt11Volume.HomeReads | sim_disk.c:2049-2071 | first directory block, version and system name are found in their places in the home block |
| Rt11Volume.KindOf | sim_disk.c:2107-2127 | which home blocks are of a single volume and which of one among several, by the names and versions themselves |
| Rt11Volume.SizeAlone | sim_disk.c:2150-2236 | for every list of files whose blocks fit in 16 bits, the size found on a disk holding them as one volume is first block plus the sum of the lengths, times 512 |
| Rt11Volume.SizeOfMany | sim_disk.c:2150-2236 | for a disk of several volumes the size found is the end of the last one, its 65536-block partitions before it included |
| DiskExercise.OneMore | sim_disk.c:6758-6759 | marking a clear sector adds one to the number of marked ones |
| DiskExercise.SomeClear | sim_disk.c:6764 | while fewer sectors are marked than exist, there is a clear one |
| DiskExercise.NextClear | sim_disk.c:6776-6777 | the circular search ends at a clear sector |
| DiskExercise.Mark | sim_disk.c:6781-6788 | a run of clear sectors is marked and counted, up to the first marked one |
| DiskExercise.FillBuffer | sim_disk.c:6789-6791 | each sector of the transfer buffer holds its own address |
| DiskExercise.Choose | sim_disk.c:6764-6779 | the draw is kept, dropped after at most 29 misses in a row, or replaced by the next clear sector |
| DiskExercise.Populate | sim_disk.c:6780-6803 | one transfer asks for each of its sectors once, stamps those that are written and leaves all others; its status, and whether it was carried out in full |
| DiskExercise.Fill | sim_disk.c:6764-6803 | the fill ends for any random numbers; `wsetbits` counts the marked sectors; no sector is asked for twice; it is complete if and only if every request was carried out in full, and the status is that of the last request |
| DiskExercise.SectorMatches | sim_disk.c:6822-6831 | the word by word comparison of a sector with its address |
| DiskExercise.ReadBack | sim_disk.c:6804-6839 | the read pass ends; it is good if and only if every read came back in full and every sector holds its own address |
| DiskExercise.Boundary | sim_disk.c:6841-6853 | the four addresses read, in 32-bit arithmetic; the test is good if and only if those inside the drive deliver their sector, since behind its end zeros are delivered |
| DiskExercise.BoundaryIs | sim_disk.c:6845-6870 | the four addresses around the end of the drive |
| DiskExercise.Exercise | sim_disk.c:6743-6854 | the whole exercise: when "Writing OK" is printed, which sectors were written, and that the final report is success if and only if every read is full and every sector holds its address |
| DiskExercise.ShortWrite | sim_disk.c:6796-6839 | a drive of one sector whose writes come back short without an error: "Writing OK" is printed, the sector is as it was, and the final report is an internal error |
| RomInclude.SplitFlatten | sim_BuildROMs.c:113 | lines of at most 254 characters come back from fgets as they were written |
| RomInclude.LineLengthIs | sim_BuildROMs.c:117 | a line ends behind its newline, at the end of the file or after 254 characters |
| RomInclude.ReaderClasses | sim_BuildROMs.c:121-158 | which characters the reader takes for space and for hexadecimal digits, and what a prefix is |
| RomInclude.ReadInclude | sim_BuildROMs.c:89-172 | the reader reports what its lines say |
| RomInclude.SumOf | sim_BuildROMs.c:165-168 | the complement of the 32-bit sum of the bytes |
| RomInclude.QuietSteps | sim_BuildROMs.c:117-137 | header lines change neither data nor name, and their defines are found |
| RomInclude.LastRomFound | sim_BuildROMs.c:119-129 | the defines of the last concurrent ROM are those looked for |
| RomInclude.NameIsRead | sim_BuildROMs.c:138-145 | the array's name is read back from its line |
| RomInclude.RowIsRead | sim_BuildROMs.c:146-156 | a row of bytes is read back |
| RomInclude.DataIsRead | sim_BuildROMs.c:146-161 | all rows are read back and the last one ends the scan |
| RomInclude.EmittedLines | sim_BuildROMs.c:365-370 | the byte loop prints rows of sixteen |
| RomInclude.WriteBody | sim_BuildROMs.c:364-372 | the array as printed |
| RomInclude.WriteInclude | sim_BuildROMs.c:341-373 | the whole file as printed |
| RomInclude.RoundTrip | sim_BuildROMs.c:89-172 | for every byte string and all names and comments whose lines fit in 254 characters, the reader gives back size, bytes, checksum, array name and the defines |
| RomInclude.NumberReads | sim_BuildROMs.c:346-359 | digits printed for a number give it back, none is beyond the base, and there are no leading zeros |
| RomInclude.PaddedReads | sim_BuildROMs.c:346 | the eight digits of the checksum give it back |
| RomInclude.LoadNameIsLast | sim_BuildROMs.c:335-339 | the file name printed is what follows the last slash of the path |
| RomInclude.Defined | sim_BuildROMs.c:351-356 | the file defines BOOT_CODE_SIZE as the number of bytes in hexadecimal, and the names of file and array |
| RomInclude.RomDefined | sim_BuildROMs.c:357-362 | the defines of each of the four concurrent ROMs and the guard in front of them |
| RomInclude.MakeInclude | sim_BuildROMs.c:284-372 | when the call succeeds, and that the file is rewritten exactly when it is not current |
| RomInclude.ZeroDescriptor | sim_BuildROMs.c:297-316 | no ROM of up to 16 MiB has checksum 0 |
| RomInclude.SecondRun | sim_BuildROMs.c:309-326 | a second run rewrites nothing if and only if the descriptor's checksum is the ROM's own |
| WhiteCompare.NextChar | sim_fio.c:1466-1485 | the next compared character: whitespace as one blank, further whitespace dropped, case folded on request |
| WhiteCompare.Compare | sim_fio.c:1461-1517 | the result is the sign of the unsigned lexicographic order of the collapsed strings |
| WhiteCompare.OrderEqual | sim_fio.c:1502-1508 | the order is zero exactly for equal strings |
| WhiteCompare.OrderOpposite | sim_fio.c:1505-1508 | exchanging the arguments negates the result |
| WhiteCompare.OrderTransitive | sim_fio.c:1505-1508 | the order is transitive |
| WhiteCompare.SameTextIsEquivalence | sim_fio.c:1461-1517 | comparing as equal is an equivalence |
| WhiteCompare.CollapsedForm | sim_fio.c:1467-1485 | collapsing keeps the characters that are not whitespace, in order, and leaves no two blanks together |
| WhiteCompare.MoreSpace | sim_fio.c:1467-1485 | lengthening a run of whitespace changes nothing |
| WhiteCompare.AlikeCompares | sim_fio.c:1461-1512 | exchanging blank, tab, newline, vertical tab, form feed and return for one another, or where case is ignored a capital for its small letter, changes no comparison, and no other single characters compare as equal |
| BitSampler.BitSample.Record | sim_console.c:1311-1319 | the oldest sample gives way to the new one, and the total stays the sum |
| BitSampler.BitSample.Set | sim_console.c:1321-1328 | every sample becomes the value, and the total stays the sum |
| BitSampler.Rotated | sim_console.c:1313-1318 | the wrapped buffer read from its pointer on is the old one without its head and with the new sample |
| BitSampler.Run | sim_console.c:1311-1328 | after any run the sampler holds the last `depth` samples, a set counting as `depth` of them, and its total is the number of ones |
| BitSampler.ShiftedBit | sim_console.c:1338-1344 | shifting right delivers the bits of the value in order |
| BitSampler.Collect | sim_console.c:1330-1345 | each sampler of a register takes its own bit, as a sample or as all of them |
| Interleave.ThereAndBack | sim_disk.c:989-1009 | for an even number of up to 32768 sectors a track and up to 65536 tracks, a logical sector is recovered from its physical one, on the same track |
| Interleave.BackAndThere | sim_disk.c:989-1009 | every physical sector of those tracks is that of a logical one |
| Interleave.OddCollides | sim_disk.c:993-998 | on an odd track of more than one sector two logical sectors share a physical one |
| Interleave.OneToOneIff | sim_disk.c:989-1009 | interleave 2 is one to one if and only if the track has an even number of at most 32768 sectors, or one |
| Interleave.WideCollides | sim_disk.c:993-998 | beyond 32768 sectors the 16-bit position wraps and slots are taken twice |
| Interleave.RxBijection | sim_disk.c:1021-1030 | the first 26 * T logical sectors of an RX01 or RX02 correspond one to one to physical sectors 26 to 26 * (T + 1) - 1 |
| Interleave.RxPlaced | sim_disk.c:991-1004 | the place of every logical sector of an RX drive |
| Interleave.RxSteps | sim_disk.c:1016-1030 | successive sectors of a track are two places apart, three where the odd places begin, and each track begins 6 places further than the one before |
| Interleave.ReadInterleaved | sim_disk.c:985-1009 | the blocks delivered are those of the mapped sectors, up to the first read that fails |

## Left out

- Host file failures: positioned reads come up short only at the end of a file, and writes succeed.
- Path names: expanding them and converting between host and VHD form (sim_disk.c:5853-5948), and finding the relative path (sim_disk.c:6003-6015). The paths are parameters of `VhdOpen.CreateDifferencing`, and the file a path leads to, with its identifier and time, is the parameter `ParentLookup` of the opening methods. With the switches O and U the program rewrites the header for another parent, which is not modelled.
- VhdOpen.CreateDifferencing: paths have at most 256 characters, which is what the name field of the header holds; the program writes longer ones past it.
- Identifiers, time stamps and cylinder/head/sector geometry of a new footer are parameters.
- The block size of a sparse disk is a power of two of at least 2 MiB, as the default is; smaller ones would leave a bitmap that is no whole number of sectors.
- VhdRun.Run: writes to a fixed disk end inside it, because past the end they overwrite the footer (`Vhd.WriteVirtualDisk`).
- VhdDisk.Vhd.ReadVirtualDisk: a request to a sparse disk must lie within the blocks of the table, which the code indexes unchecked.
- VhdDisk.Vhd.Merge: deleting the child's file and renaming afterwards is not modelled; once the buffer is overrun nothing is said.
- VhdOpen.CreateVirtualDisk: block sizes are 0 for the default or a power of two of at least 2 MiB. The routine itself checks none, but it is called with 0 or with the block size of an open parent only. The sparse preallocation of fixed disks and removing a file after an error are not modelled.
- VhdOpen.CreateDynamic: the same block sizes.
- Sector reads and writes of the SIMH container format and the dispatch between formats.
- The autosizing dialogue, the container footer of SIMH (its routines return before doing anything), messages and commands.
- AsyncDisk: no spurious wake-ups; the client gives a callback in asynchronous mode and waits for it before its next request; asynchronous mode is not enabled twice; the lock-free variant of the queue is not modelled, only the one under a lock; operations themselves are opaque.
- BCD cards: the writer leaves the record mark in the first byte and the reader stops there, so the two are no inverse.
- AUTO detection on card input, which judges the whole buffer.
- CardReader.ParseText: characters above 127 index outside the code tables; here they have no column.
- CardReader.CardBuffer: the buffer has a few bytes more than in the program, so that looking just past the data is defined, and its bytes are arbitrary before they are filled; where the count wraps the model stops with the status `Wrapped`.
- CardReader.ParseCbn: the cleared record mark is not written back to the buffer, where it is not read again.
- RawDisk.Disk.ReadSectors: a request within three storage sectors of 4 GiB that starts behind the end of the container is not specified.
- RawDisk.Disk.ReadWindow: the bytes delivered are specified up to the end of the container.
- RawDisk.Disk.WriteSectors: the uninitialised tail of a window that passes the end of the container is stored; the model leaves it arbitrary. Sizes are unbounded where the program computes the request's bytes in 32 bits.
- RawDisk.Disk: storage sectors are powers of two, as the masks of the program need.
- RawDisk.SwapData: elements of 1, 2, 4 and 8 bytes with the byte-swap intrinsics; without them the program's loop advances twice. The write-address checking of diagnostics is not modelled.
- Rt11: directories are read on a little-endian host and sectors are no larger than 512 bytes; the messages after the search are not modelled.
- DiskExercise.Exercise: the bitmap is one flag per sector, not 32 in a word; a write that ends with an error leaves the drive as it was; the capacity is the number of sectors the fill counts.
- RomInclude.RoundTrip: names and comments hold no line end and no closing brace, an array name no blanks or brackets, and every line printed fits in the 254 characters the reader takes at once; a longer line would be split. The two-digit field is read without scanf's optional sign and prefix.
- RomInclude.SecondRun: the same names and comments.
- RomInclude.MakeInclude: a file without an array line has no name, where the program compares with a null pointer; setting the modification time is not modelled.
- Interleave.ThereAndBack: the product of track and skew is exact, where the program has an int; the same holds for BackAndThere, OneToOneIff and RxBijection, and beyond 32768 sectors for the product of track and sectors.
- BitSampler.Collect: the register's value is given; fetching it and remote sessions are not modelled.
- The multi-buffer branch of sim_fwrite and the odd-size branch of sim_byte_swap_data.
