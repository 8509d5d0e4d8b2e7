# PhotoRec and TestDisk: models and proofs

This project models the parts of the recovery engine that carry the most state, and proves what they promise.
`dafny verify dfyconfig.toml` checks everything.

- **Streaming carvers** (`ChunkFormats`, `Carver`, `CarverTheorems`, `CarvedBlocks`). A file is read READ_SIZE bytes at a time, and a
  window of two blocks slides over it. The format walkers remember only `calculated_file_size` between windows. One
  generic proof covers ten walkers (four Blender variants, CAF, ABR, BAC, address book, AMR, BVR), a second one the AXP
  footer search: both equal one pass over the file, and it is proved exactly when two block sizes give the same size, and that files of
  encoded blocks are carved behind their last one.
- **FAT tables** (`FatTable`, `FatIo`, `LostSectors`, `FatScan`, `ExfatScan`, `ExfatBitmap`, `SearchSpaces`). Packed 12, 16 and 28-bit
  entries, their read-modify-write, the scanners that keep a sector in a buffer, go on when one cannot be read and merge
  clusters into runs, and the list of byte ranges that is still to be searched.
- **FAT repair** (`FatSectors`, `FatRepair`, `RepairMachine`, `RepairRun`, `RepairTheorems`, `RepairedTable`,
  `Fat12Repair`). The loop over the clusters, the decision at each sector over one or two copies, the questions to the
  user, and what one, two and three repairs achieve; for FAT12 the window of two sectors.
- **Recovery below a folder** (`Paths`, `FatChains`, `ChainTheorems`, `FatRecovery`, `TreeWalk`, `TreeWalker`). Paths,
  cluster chains, files and the pruned walk over the directories.
- **Directories** (`DirEntries`, `DirParser`, `DirTheorems`). The jumps of the long-name parser, against a reading of
  each entry on its own, and against directories written from a list of names.
- **Copying a file** (`FatCopy`), **cluster geometry** (`ClusterVotes`), **superblock backups** (`ExtBackups`),
  **checksums** (`Fletcher`, `Crc`, `CrcTable`), **sector I/O** (`AlignedIo`), the **read cache** (`DiskCache`,
  `CacheTheorems`), **imaging** (`DiskImage`) and **dates** (`Dates`).

`Bytes`, `Arith`, `Seqs`, `Options` and `Disks` hold what the others share.

How the pieces are built: code that changes buffers, lists and disks is a method, proved against a function of the
inputs or of the old state; the lemmas are about these functions. A disk is its bytes; reads beyond its end fail, and
leave zeros where they deliver nothing (c_src/hdaccess.c:1516-1521). What comes from outside (answers of the user, a
request to stop, room on the destination, what a device delivers, the conversion of a name to text) is a parameter, so
every theorem holds for all of it.

Where a promise does not hold, the condition under which it does is proved instead:

- The size of a file without a stop header can depend on the block size (`BlockSizesAgree`, with the CAF file of
  `PaddingCanChangeTheSize`), though not for five formats once the walk has passed the end of the file
  (`PaddingStops`). The BVR walker can lose a size (`BvrSizeCanBeLost`, `BvrSizeIsKeptIff`).
- A file of blocks whose last block is a bare header loses it where it ends with the last window (`FileOfBlocksIsCarved`);
  the AMR walker takes the frame type modulo 8, so it steps over comfort noise as over speech (`NoiseFrameIsMisread`).
- The comments at c_src/fatp.c:70-73 say that unreadable FAT sectors count as free. They do in a FAT16 or FAT32
  (`LostSectorsAreFree`); in a FAT12 exactly if no entry lies across a lost and a delivered sector
  (`LostSectorsCountAsFreeIff`, `CutEntrySample`).
- A FAT12 store of a value wider than 12 bits disturbs the neighbour that shares a byte (`StoreKeepsOtherEntries`).
- The repair of a FAT12 cuts its window before it flushes it, so that a bad entry across the last two sectors is
  corrected by half; if the result is bad it is never repaired (`AllGoodIff`, `SecondRepairChangesNothing`,
  `HalvedSample`).
- The read cache is transparent while the disk does not fail (`CacheIsTransparent`); on a disk that ends inside a sector
  it counts bytes that are not there (`FullCountsFitIff`, `LastSectorIsCounted`).
- Two FAT copies that are corrupted in different ways still differ after one repair (`OneRunMayLeaveCopiesDifferent`).
- The cluster bound of folder recovery mixes a disk offset and a partition size (`BoundAdmitsAllClusters`), and the
  reading pass of a directory chain leaves its buffer exactly when the readable part of the chain is too long, as on a
  cycle of readable clusters (`KfFatReadDirChain`, `StaysInBufferIff`, `SelfLoopEndsIff`).
- A deleted file that runs out of free clusters ends with a cluster behind the volume (`DeletedFileIsCopied`).
- The exFAT scan passes an offset in bytes where sectors are expected, so it looks up the second cluster of its bitmap at
  a wrong place (`MarksAreRightIff`, `MarksDiffer`, `AgreeingEntriesAreEnough`).
- A failed or short read in `align_pwrite` clears the rest of the sectors (`OthersAreKeptIff`), and `align_pread` can report
  more bytes than the request has at the end of a device (`ReportIsHonestIff`, `ShortLastSector`).
- The backward fill of an image writes at disk offsets, so that images are right whatever fails only for partitions at
  offset 0 or without room for a fill (`CopiesAreRightIff`, `FillOverwritesWhatWasRead`).
- FAT dates and seconds are inverse only before March 2100 (`DosRoundTripIff`, `UnixRoundTripIff`).

## Model

| member | source | states |
|---|---|---|
| Carver.DataCheckAux | c_src/fidentify.c:113-227 | for every file, carver and block size that divides READ_SIZE and is no shorter than the header or footer, the sliding window ends with the size and verdict of one pass over the file followed by zeros, up to the limit where the window stops; a rejected CAF file loses its callbacks |
| Carver.CheckWindows | c_src/fidentify.c:182-221 | each inner iteration works on exactly the bytes [file_size - blocksize, file_size + blocksize) and keeps file_size a multiple of the block size and calculated_file_size + header length not below it, so no header is missed between windows |
| Carver.CheckWindow | c_src/fidentify.c:184-221 | one window either settles the outcome of the whole pass or leaves calculated_file_size where the pass over the file stands |
| Carver.DataCheckWrapper | c_src/fidentify.c:79-92 | the installed callback advances calculated_file_size as one pass over the file up to the end of the window does |
| Carver.Refill | c_src/fidentify.c:139-158 | after memset and fread behind the kept block the buffer is one window of the zero-padded file, also at its end |
| Carver.KeepLastBlock | c_src/fidentify.c:209-221 | the copied last block is the block in front of the next refill |
| Carver.DataCheckChunks | c_src/file_bld.c:84-106 | a chunk walker leaves the state alone while the next header lies in front of the window, and otherwise continues the walk over the file up to the last header that fits the window |
| Carver.DataCheckFooter | c_src/file_axp.c:72-93 | the search in one window stops at the end of the first AXP footer that ends in its second half, also one that straddles the two blocks, and continues exactly when there is none |
| Carver.WalkSplit | c_src/file_caf.c:75-111 | a walk cut off at any limit and resumed from calculated_file_size is the uninterrupted walk |
| Carver.FooterScanFindsFirst | c_src/file_axp.c:72-93 | the scan stops if and only if a footer ends in its range, at the first one |
| Carver.FooterNeedsRoom | c_src/file_axp.c:72-93 | no footer is found across the zeros in front of the file |
| Carver.FirstMatchInWindow | c_src/file_axp.c:80-92 | the first match of the byte search in a window is the first footer end of the file in that range |
| ChunkFormats.FormatsAreValid | c_src/file_abr.c:61-81 | each of the ten walkers has a step for every header of its length |
| CarverTheorems.BlockSizesAgree | c_src/fidentify.c:113-227 | for any two block sizes the carved sizes are equal if and only if the pass up to the nearer limit does not run to its end, or it does and stays there up to the farther limit: no room for a header there, or a header at hand that ends the walk without moving it; the verdicts differ only if the rest of the pass meets a rejection |
| CarverTheorems.FormatsAdvanceFar | c_src/file_abr.c:61-81 | no step of the ten walkers advances by a single byte, so a walk that moves cannot step back to where it was |
| CarverTheorems.WalkStaysIff | c_src/file_caf.c:75-111 | a walk ends where it begins if and only if there is no room for a header or the header there ends it without moving |
| CarverTheorems.PaddingStops | c_src/file_amr.c:62-86 | a header that lies behind the file, made of zeros, stops ABR, BAC, address book, AMR and BVR where they are, so that a walk that has passed the end of the file gives one size for all block sizes; it moves CAF back by one and the Blender walkers on |
| CarverTheorems.StopBeforeEndIsBlockSizeFree | c_src/fidentify.c:113-227 | a pass that stops inside the file is not changed by the zeros behind the file, whatever the block size |
| CarverTheorems.PaddingCanChangeTheSize | c_src/file_caf.c:75-111 | a 505-byte CAF file, with its header and a description chunk that fills it, has 505 bytes with blocks of 512 and 504 with the 65536 of file_identify |
| CarverTheorems.AxpFileIsCarved | c_src/file_axp.c:72-114 | an AXP file is carved at the end of the first occurrence of its 34-byte footer, under every admissible block size, or at the end of the last window if it has none |
| CarverTheorems.WalkOverChunks | c_src/file_bac.c:76-103 | a walk over any sequence of well-formed chunks arrives exactly behind the last one |
| CarverTheorems.ChunkedFileIsCarved | c_src/fidentify.c:113-227 | a file of well-formed chunks and a stop header is carved at the end of that header's chunk, whatever follows it |
| CarverTheorems.BlendBlockIsChunk | c_src/file_bld.c:84-106 | a Blender block of either byte order and pointer size, with any payload, is stepped over exactly |
| CarverTheorems.CafChunkIsChunk | c_src/file_caf.c:75-111 | a CAF chunk with a 64-bit length is stepped over exactly |
| CarverTheorems.AbrBlockIsChunk | c_src/file_abr.c:70-81 | an 8BIM block is stepped over exactly; `CarvedBlocks.GoesOnIff` says when the walker goes on |
| CarverTheorems.BacBlockIsChunk | c_src/file_bac.c:76-103 | a Bacula block is stepped over exactly |
| CarverTheorems.BvrBlockIsChunk | c_src/file_bvr.c:61-73 | a BLUE block is stepped over exactly |
| CarverTheorems.AddressBookRecordIsChunk | c_src/file_ab.c:66-84 | an address book record is stepped over exactly |
| CarverTheorems.AmrSpeechIsChunkIff | c_src/file_amr.c:62-86 | an AMR frame of any type, which the walker takes modulo 8, is stepped over exactly if and only if it does not begin with four zeros |
| CarverTheorems.BlendFileIsCarved | c_src/file_bld.c:76-131 | a Blender file of either byte order and pointer width is carved at the end of its ENDB header for every list of blocks, payloads, trailing data and admissible block size |
| CarverTheorems.DataCheck | c_src/fidentify.c:239-260 | a size already beyond the limit changes nothing, otherwise the file is carved from its start with a zeroed buffer |
| CarverTheorems.IdentifySize | c_src/fidentify.c:365-404 | the reported size: the carved size if the scanned part of the file covers it, 0 if it does not or is below the minimum, the file length after a rejection; file_check_size is one step of it |
| CarverTheorems.TightStopsKeepTheSize | c_src/fidentify.c:365-404 | for formats whose stop adds no more than the header, the carved size is kept if and only if it fits the file |
| CarverTheorems.BvrSizeCanBeLost | c_src/file_bvr.c:61-73 | the BVR stop adds 0x20 behind a 16-byte header: a 65626-byte file that begins as the format demands and has its empty block at 65510 is reported as empty with the 65536-byte blocks of file_identify |
| CarverTheorems.BvrSizeIsKeptIff | c_src/file_bvr.c:61-73 | for every file and block size the size behind such a stop is kept if and only if the file and the deciding window reach 0x20 bytes behind the header |
| CarvedBlocks.GoesOnIff | c_src/file_abr.c:70-81 | for ABR, BAC, address book, AMR, BVR, CAF and the four Blender walkers, and every header: the walk goes on if and only if the header begins an encoded block, and then steps over exactly that block; elsewhere it stops, behind the tail that ends a BVR or Blender file, and only a CAF chunk too long for a file rejects |
| CarvedBlocks.BlockIsChunk | c_src/file_bac.c:76-103 | every encoded block of these formats is stepped over exactly |
| CarvedBlocks.FileOfBlocksIsCarved | c_src/fidentify.c:113-227 | a file of any encoded blocks, followed by any data that does not begin another one, is carved at the end of the last block under every admissible block size, or at its tail if that fits the last window; the exception, a bare header that ends with the last window, is left out exactly |
| CarvedBlocks.MarksAreText | c_src/file_bld.c:84-106 | the marks of the formats spelled as text, and the size limit as two tebibytes |
| CarvedBlocks.FooterIsText | c_src/file_axp.c:46-51 | the AXP footer is the closing tag of the document and a line end, in 16-bit code units |
| CarvedBlocks.AmrFrameHoldsSpeech | c_src/file_amr.c:74-84 | the frame lengths of types 0 to 7 are a header byte and the speech bits in whole bytes (RFC 3267, section 5) |
| CarvedBlocks.NoiseFrameIsMisread | c_src/file_amr.c:74-84 | an AMR frame of comfort noise, type 8, has 6 bytes and is stepped over as one of type 0 with 13 |
| FatTable.StoreThenEntry | c_src/fat.c:433-509 | reading a stored entry back gives the value cut to 12, 16 or 28 bits |
| FatTable.StoreKeepsOtherEntries | c_src/fat.c:471-498 | a store keeps any other entry if and only if that is not the FAT12 neighbour sharing a byte with a value too wide for 12 bits |
| FatTable.BitOrIsOr | c_src/fat.c:471-479 | the disjunction in a FAT12 store is that of every bit |
| FatTable.FittingValuesDisturbNothing | c_src/fat.c:471-498 | a value that fits the entry disturbs no neighbour |
| FatTable.StoreOverwritesReservedBits | c_src/fat.c:490-497 | a FAT32 store replaces all 32 bits, the four reserved ones included |
| FatIo.GetNextCluster | c_src/fat.c:322-431 | the sector reads deliver the packed entry at the byte offset that the table defines, for FAT12 also across two sectors, and 0 where the read fails |
| FatIo.SetNextCluster | c_src/fat.c:433-509 | returns 0 exactly when the sectors can be read and written and then changes exactly the bytes of that entry; otherwise the disk is unchanged |
| FatIo.Locate | c_src/fat.c:322-412 | sector number and offset in the sector name the byte offset of the entry, and the entry lies inside the bytes that are read |
| LostSectors.CachedEntry | c_src/fatp.c:120-133 | the FAT16 and FAT32 scans, which read a sector when its first entry comes up and go on if that fails, see the entry in the bytes delivered, with zeros for what is lost (c_src/hdaccess.c:1516-1521) |
| LostSectors.CachedEntry12 | c_src/fatp.c:64-79 | the same for the FAT12 scan, whose reads take two sectors |
| LostSectors.WholeIsSeen | c_src/fatp.c:75-78 | an entry whose bytes are delivered is seen as it is in the table |
| LostSectors.LostIsFree | c_src/fatp.c:70-73 | an entry of which nothing is delivered is seen as free |
| LostSectors.LostCountsAsFreeIff | c_src/fatp.c:70-73 | whatever the reads deliver: lost entries count as free clusters, as the comment says, on every disk if and only if no entry is delivered in part |
| LostSectors.LostSectorsCountAsFreeIff | c_src/fatp.c:64-73 | when reads lose whole sectors, that is so if and only if no FAT12 entry lies across a lost and a delivered sector |
| LostSectors.LostSectorsAreFree | c_src/fatp.c:124-127 | in a FAT16 or FAT32, lost sectors count as free clusters, whichever they are and whatever the disk holds |
| LostSectors.CutEntryIsSeen | c_src/fatp.c:66-78 | the value that the FAT12 scan sees for an entry of which only the first or only the second byte is delivered |
| LostSectors.CutEntrySample | c_src/fatp.c:66-78 | cluster 682 of a FAT12 with 512-byte sectors, whose third table sector is lost, is taken for allocated unless the last byte in front of it is zero |
| LostSectors.AllShown | c_src/fatp.c:64-79 | when every entry is delivered the scan sees what get_next_cluster answers |
| FatIo.Fat32GetPrevCluster | c_src/fat.c:511-541 | the first cluster that leads to the given one; 0 if none does up to the end of the volume or to the first sector that cannot be read |
| FatIo.Fat32FreeInfo | c_src/fat.c:1237-1278 | the number of clusters with entry 0 and the smallest of them; 1 and two marks if and only if a sector cannot be read |
| SearchSpaces.SearchSpace.Del | c_src/photorec.c:113-116 | the search space loses exactly the bytes of the range and stays sorted and disjoint, whatever ranges it held before |
| SearchSpaces.SearchSpace.UpdateSearchSpace | c_src/photorec.c:124-247 | the recursion that trims, splits and drops list elements ends and subtracts exactly the range |
| FatScan.RemoveUsedSpace | c_src/fatp.c:206-244 | for FAT12, FAT16 and FAT32, whatever the reads of the table deliver: the deleted ranges are the metadata area followed by the maximal runs of clusters whose entry, as the scan sees it, is not 0, in order, and the search space loses exactly those bytes; if no entry is cut these are the runs of the table with lost entries taken for free, and if all is delivered those of the entries that get_next_cluster answers |
| FatScan.Scan12 | c_src/fatp.c:49-96 | the FAT12 scan with its two-sector cache collects the maximal runs of the entries it sees |
| FatScan.ScanCached | c_src/fatp.c:107-204 | the FAT16 and FAT32 scans with their one-sector cache collect the maximal runs of the entries they see |
| FatScan.Coalescer.NotFree | c_src/fatp.c:132-145 | a cluster that follows the pending run extends it, any other one closes it and opens a new one |
| FatScan.RunsCoverUsedClusters | c_src/fatp.c:132-148 | maximal runs cover exactly the bytes of the allocated clusters |
| FatScan.RunsOfAreMaximal | c_src/fatp.c:120-148 | the runs are disjoint, ascending, separated by a free cluster, and hold exactly the allocated clusters |
| FatScan.TestAddressAgrees | c_src/fatp.c:187-199 | the 32-bit test address of the FAT32 scan equals the 64-bit one if and only if the sector number fits 32 bits |
| FatScan.SaneClusterFits | c_src/fatp.c:187-199 | it fits for every cluster of a volume whose sectors are numbered in 32 bits |
| ExfatScan.ExfatRemoveUsedSpace | c_src/exfatp.c:88-123 | the deleted ranges are the maximal runs of clusters marked in the bitmap as its reads deliver it, its chain being looked up in a FAT sought at start_exfat1 sectors; the search space loses exactly those bytes |
| ExfatScan.MarksAreRightIff | c_src/exfatp.c:80-105 | start_exfat1 is in bytes: the marks are those of the bitmap on every disk, whatever its reads deliver, if and only if the bitmap fits one cluster or the FAT begins with the partition |
| ExfatScan.AgreeingEntriesAreEnough | c_src/exfatp.c:100-104 | on a given disk the marks are right if the entries at the wrong and at the right place agree along the bitmap, but for its last cluster |
| ExfatScan.MarksDiffer | c_src/exfatp.c:100-104 | for every other volume a disk with two bytes that are not zero, where the scan takes an allocated cluster for a free one |
| ExfatBitmap.StoredBitmapIsRead | c_src/exfatp.c:88-105 | a bitmap stored along its cluster chain, bit by bit from the lowest bit of each byte on, is exactly what the scan marks when the chain is linked in a table start_exfat1 sectors behind the start of the partition; to be read as intended it would be linked start_exfat1 bytes behind it |
| ExfatBitmap.BitOfPacked | c_src/exfatp.c:105-105 | bit k of a byte packed from eight marks is the k-th of them |
| ExfatScan.OffsetIsReducedOnce | c_src/exfat.c:40-60 | the offset of a cluster, computed in 32 bits step by step, is that of its block number modulo 2^32 |
| FatSectors.WordIsEntry | c_src/fat_adv.c:2613-2656 | the words the repair compares are the entries of the table, the reserved bits of FAT32 apart |
| FatRepair.ScanIsClean | c_src/fat_adv.c:2613-2656 | a scanned sector holds no bad entry, and the scan changes a sector if and only if it held one |
| FatRepair.ScanToMeaning | c_src/fat_adv.c:2613-2656 | bad entries become end-of-chain marks, every other word stays, and the status says whether there was one |
| FatRepair.WriteSector | c_src/fat_adv.c:2500-2511 | a sector write changes that sector of that copy and no other byte |
| RepairMachine.Flush | c_src/fat_adv.c:2416-2584 | one flush counts the statuses, chooses the good copy, asks at most once for each copy, and writes over each copy exactly what the decision table says |
| RepairMachine.WriteCopies | c_src/fat_adv.c:2475-2544 | the user is asked about exactly the copies that are to be written and have not been asked about before; each copy is written with its source where the answer was yes, and no other byte changes |
| RepairRun.RepairFatTable | c_src/fat_adv.c:2303-2830 | for FAT16 and FAT32 with working I/O: every scanned sector of every copy becomes its target where the user agrees and keeps its bytes elsewhere; all other bytes stay; damage is reported if and only if some sector was damaged, which `DamageIff` states on the entries; more than two copies or none are refused |
| RepairRun.ScanClusters | c_src/fat_adv.c:2383-2656 | the loop over the clusters reads, checks and flushes each sector exactly once, in order |
| RepairRun.FlushReachesTarget | c_src/fat_adv.c:2416-2584 | a flush of a completely scanned sector brings all copies to their targets |
| RepairRun.SourcesAreTargets | c_src/fat_adv.c:2442-2584 | what a flush writes is the target, and where it writes nothing the copy already holds its target |
| RepairRun.SectorOfCluster | c_src/fat_adv.c:2383-2403 | quotient and remainder move from word to word and from sector to sector without gaps |
| RepairedTable.RepairedEntry | c_src/fat_adv.c:2303-2830 | after a repair with all confirmations every entry that get_next_cluster reads for a cluster 2 to n+1, in every copy on the disk, is 0 (not at the FAT32 root), a number from 2 to n+1, or at least 0xFFF7 or 0x0FFFFFF7; with one FAT such an entry is the earlier one, and any other one has become an end-of-chain mark |
| RepairedTable.DamageIff | c_src/fat_adv.c:2303-2830 | damage is reported if and only if some sector with entries of clusters differs between the copies, or shows in every copy an entry with none of these values |
| RepairedTable.OneFatIsDamagedIff | c_src/fat_adv.c:2303-2830 | with one FAT, if and only if some entry of a cluster 2 to n+1 has none of these values |
| RepairTheorems.NoBadEntryIsLeft | c_src/fat_adv.c:2383-2828 | after a repair with all confirmations the word of every cluster 2 to n+1 in every copy has one of these values |
| RepairTheorems.WhenCopiesAgree | c_src/fat_adv.c:2442-2584 | after one repair the two copies agree on a sector if and only if one of them was clean there or both scan to the same words; the only clean copy replaces the other, and corrupted copies keep their own sectors with the bad entries replaced |
| RepairTheorems.MoreCleanSectorsWin | c_src/fat_adv.c:2442-2462 | where both are clean and differ, the copy with more clean sectors so far replaces the other |
| RepairTheorems.TiesAreBroken | c_src/fat_adv.c:2442-2462 | where both are clean, differ and have as many clean sectors, the second copy wins if its sector looks like the start of a FAT; in the last sector it wins unless only that of the first does |
| RepairTheorems.GoodEntriesAreKept | c_src/fat_adv.c:2545-2584 | with one copy, or where both copies hold the same sector, the words of clusters 2 to n+1 without one of these values become 0xFFF8 or 0x0FFFFFF8 and all other words are unchanged |
| RepairTheorems.SecondRunOfOneCopy | c_src/fat_adv.c:2383-2828 | with one copy a second repair finds no damage and changes nothing |
| RepairTheorems.CleanRunIsUndamaged | c_src/fat_adv.c:2383-2828 | after a repair every sector is clean, and damage remains if and only if two copies still differ |
| RepairTheorems.ThreeRunsOfTwoCopies | c_src/fat_adv.c:2383-2828 | with two copies a second repair makes them equal and a third finds no damage and changes nothing |
| RepairTheorems.OneRunMayLeaveCopiesDifferent | c_src/fat_adv.c:2513-2544 | every FAT16 and FAT32 volume of two clusters or more has two copies, corrupted in different ways, that still differ after one repair |
| RepairTheorems.DecliningChangesNothing | c_src/fat_adv.c:2469-2584 | when every question is answered no, the disk keeps all its FAT sectors |
| RepairTheorems.UndamagedIsFixed | c_src/fat_adv.c:2469-2584 | when no damage is reported nothing has been written, whatever the answers |
| Fat12Repair.RepairFat12 | c_src/fat_adv.c:2378-2830 | for one copy of a FAT12 and its sliding window of two sectors: the user is asked about the corrections, and on yes the table becomes the one with its bad entries corrected one after the other, the one across the last two sectors with its first byte only; on no nothing changes; damage is reported if and only if an entry was bad |
| Fat12Repair.RepairCluster | c_src/fat_adv.c:2395-2657 | the loop body flushes and reads the window when the sector changes, with rw_size already cut for the last sector, and keeps what a flush would write equal to the corrected table |
| Fat12Repair.FlushIsCorrection | c_src/fat_adv.c:2399-2403 | what a flush behind a cluster writes is the table with that entry corrected, by half if the flush cuts the window inside the entry |
| Fat12Repair.CorrectedEntries | c_src/fat_adv.c:2639-2654 | after the repair every entry of a cluster that is neither 0, nor from 2 to n+1, nor at least 0xFF7 is 0xFF8, or half of it if the entry lies across the last two sectors; every other entry is what it was |
| Fat12Repair.OtherBytesAreKept | c_src/fat_adv.c:2639-2654 | no byte outside the entries of the clusters changes |
| Fat12Repair.AllGoodIff | c_src/fat_adv.c:2399-2403 | an entry outside these values is left if and only if one lies across the last two sectors, a later cluster exists, and the half-written value is outside them as well |
| Fat12Repair.SecondRepairChangesNothing | c_src/fat_adv.c:2378-2830 | a second repair changes nothing: what the first one has left bad is never repaired |
| Fat12Repair.HalvedSample | c_src/fat_adv.c:2399-2403 | a table of two 512-byte sectors for 354 clusters: 0xABC in the entry of cluster 341 becomes 0xAB8 and stays bad |
| Paths.NormalizePath | c_src/fat_unformat.c:541-557 | the two loops compute the normal form: leading separators dropped, backslashes turned into slashes, cut to the buffer, trailing slashes dropped |
| Paths.NormalizedIsNormal | c_src/fat_unformat.c:541-557 | every result is a normal form and fits the buffer |
| Paths.NormalizeTwice | c_src/fat_unformat.c:541-557 | normalising twice changes nothing |
| Paths.SpellingsAgree | c_src/fat_unformat.c:541-557 | all spellings with any mix of separators around and inside a path have the same normal form |
| Paths.FoldsAgreeIff | c_src/fat_unformat.c:566-566 | two characters are the same under strncasecmp if and only if they are equal or the capital and the small form of one ASCII letter |
| Paths.WithinComparesComponents | c_src/fat_unformat.c:560-571 | on paths made of names, the ancestor test holds if and only if the components of one are the first components of the other, up to the capital and small forms of the same ASCII letters |
| Paths.AncestorsAreRelated | c_src/fat_unformat.c:574-577 | two ancestors of one path are always comparable |
| Paths.WithinIsTransitive | c_src/fat_unformat.c:560-571 | the ancestor test is transitive |
| TreeWalk.PruningIsExact | c_src/fat_unformat.c:686-753 | on any file system, even one whose directories form a cycle, the pruned walk finds what the unpruned walk finds, in the same order, less the files outside the filter |
| TreeWalk.WalkFindsTree | c_src/fat_unformat.c:686-753 | without a filter the walk finds every regular file of a directory tree, in its directory |
| TreeWalk.WalkRecoversFilter | c_src/fat_unformat.c:686-753 | of a directory tree at most 64 folders deep, with paths shorter than 4096, the walk recovers exactly the regular files whose directory is the filter or below it, whatever letters of the filter are capital |
| TreeWalk.LimitsOfWalk | c_src/fat_unformat.c:686-730 | deeper directories are not entered, and longer paths are cut |
| TreeWalk.FoundIsInside | c_src/fat_unformat.c:686-753 | everything found in a directory has a path inside it |
| TreeWalker.KfFatWalkDir | c_src/fat_unformat.c:686-753 | the recursive walk saves the files of its specification in order, and takes out of the search space exactly the clusters of the directories it enters and of the files it saves, in that order; it stops early only for a user request, a destination that cannot be created or one that is full, and then has done a first part of both; every saved file has its bytes on the destination |
| TreeWalker.WalkListing | c_src/fat_unformat.c:695-752 | the same for the loop over one listing |
| TreeWalker.VisitFile | c_src/fat_unformat.c:700-750 | the same for one entry: dot entries and unnamed ones are skipped, directories are entered only if related to the filter, files are saved only inside the filter |
| TreeWalker.SaveFile | c_src/fat_unformat.c:620-684 | a file is recorded only after its copy is complete; the clusters of its chain leave the search space, or the first of them if the destination is full |
| TreeWalker.ReadRoot | c_src/fat_unformat.c:521-538 | the root directory is the fixed region or the chain of its cluster, whose clusters leave the search space, or nothing if it cannot be read |
| TreeWalker.FatUnformatDir | c_src/fat_unformat.c:816-871 | with the geometry given: the saved files are those that the walk with the normalised path finds, and exactly the metadata area, the clusters of the root, and those of the directories entered and of the files saved leave the search space, or a first part of them when the walk is cut short; only directories that the path does not prune need chains that end |
| TreeWalker.FolderIsRecovered | c_src/fat_unformat.c:816-871 | however the path of a folder is spelled, with any separators and any of its ASCII letters in the other case, the files found in a directory tree are exactly the regular files in the folders of that name, letter case aside, and below them |
| FatChains.KfFatReadDirChain | c_src/fat_unformat.c:475-518 | on every chain: the pass stays in its buffer if and only if the readable part of the chain is no longer than the cap, and then the buffer is the concatenation of the clusters up to the first unreadable one, and exactly these leave the search space |
| FatChains.CountClusters | c_src/fat_unformat.c:484-491 | the counting pass counts the clusters of the chain, up to the cap |
| FatChains.ReadClusters | c_src/fat_unformat.c:498-515 | the reading pass asks for a cluster that the counting pass left no room for, and gets it, if and only if the readable part of the chain exceeds the cap; otherwise it reads exactly that part |
| FatChains.CapsAgree | c_src/fat_unformat.c:484-498 | a chain cut at a smaller cap is the beginning of the same chain |
| ChainTheorems.StaysInBufferIff | c_src/fat_unformat.c:498-515 | on a volume with fewer clusters than the cap the reading pass stays in its buffer if and only if it comes to an end at all, at the end of the chain or at an unreadable cluster |
| ChainTheorems.ChainEndsSoonOrNever | c_src/fat_unformat.c:484-498 | a chain ends if and only if it ends within the number of clusters |
| ChainTheorems.SelfLoopEndsIff | c_src/fat_unformat.c:498-515 | for a cluster that leads to itself the reading pass ends, and stays in its buffer, if and only if that cluster cannot be read |
| ChainTheorems.EndedChainIsDistinct | c_src/fat_unformat.c:484-515 | a chain that ends visits no cluster twice |
| ChainTheorems.BoundAdmitsAllClusters | c_src/fat_unformat.c:625-626 | the cluster bound computed from a disk-absolute start_data and a partition-relative size admits every cluster if and only if the partition starts early enough, or so late that the difference wraps around |
| FatRecovery.KfFatRecoverFile | c_src/fat_unformat.c:650-684 | ends on every chain, also a cyclic one; writes the clusters of the chain cut to the size of the file, with zeros for what cannot be read, or as much as fits the destination; takes exactly the clusters written out of the search space |
| FatRecovery.CopiedIsContents | c_src/fat_unformat.c:657-678 | with clusters that are delivered the file holds min(size, chain bytes) bytes of the chain |
| FatRecovery.CopiedByte | c_src/fat_unformat.c:657-678 | whatever the reads deliver, each byte of the file is that of its place in its cluster of the chain, or zero where that is lost |
| DirParser.DirFatAux | c_src/fat_dir.c:104-335 | the scan with its backward jumps ends and lists what reading each entry on its own gives: the entry is named by the run of slots directly in front of it if the run is complete and its checksum matches, otherwise by its 8.3 name |
| DirParser.ParseLong | c_src/fat_dir.c:191-248 | from one slot on, the jumps follow runs of slots to their end and leave the long name in the buffer exactly when it is complete and its checksum is that of the entry |
| DirParser.FollowRun | c_src/fat_dir.c:203-236 | a run goes on exactly as long as the next slot has the next lower number and the same checksum |
| DirParser.PutUnits | c_src/fat_dir.c:92-102 | the 13 code units of a slot are put in front of those supplied by the slots before it |
| DirParser.AddUp | c_src/fat_dir.c:242-245 | the two loops compute the rotating checksum of the 8.3 name |
| DirParser.CopyShortName | c_src/fat_dir.c:257-277 | the 8.3 name: both parts up to the first space, with a dot between them if there is an extension |
| DirParser.ListEntry | c_src/fat_dir.c:249-330 | an entry is listed with its name and what `EntryIsRead` states of its fields; an empty name ends the listing and names starting with U+00E5 are dropped |
| DirTheorems.RunIsReadBackwards | c_src/fat_dir.c:191-236 | the forward scan finds exactly the runs of slots that reading backwards from the entry finds |
| DirTheorems.DirectoryIsListed | c_src/fat_dir.c:104-335 | a directory written from any list of files, volume labels and deleted records is listed with exactly the stored names, start clusters (cut to 12, 16 or 28 bits), sizes, directory and read-only flags, times and dates, in order, up to the end mark; a wrong checksum gives the 8.3 name, and a deleted record is not listed even behind its slots |
| DirTheorems.SlotsInFrontOfEnd | c_src/fat_dir.c:191-300 | a record whose name begins with a zero ends the listing even if slots of a long name stand in front of it |
| DirTheorems.DottedName | c_src/fat_dir.c:257-267 | a base and an extension padded with spaces are shown with a dot between them |
| DirEntries.EntryIsRead | c_src/fat_dir.c:249-330 | of an entry encoded from its fields the listing shows exactly these fields: start cluster in two halves, size, directory and read-only flags, time and date; a volume label is told by its flag |
| DirEntries.EveryRecordIsEntry | c_src/fat_dir.c:249-330 | every 32-byte record is the encoding of such fields |
| DirTheorems.SlotsMakeRun | c_src/fat_dir.c:203-236 | the slots n with the end flag down to 1, with one checksum, form one complete run |
| DirTheorems.SlotsSupplyName | c_src/fat_dir.c:205-222 | these slots supply the code units of the name from its end to its beginning |
| DirTheorems.FileIsShown | c_src/fat_dir.c:237-256 | the entry behind the slots gets the long name if the checksum is its own and its 8.3 name if not |
| DirTheorems.NamesFit | c_src/fat_dir.c:296-312 | no name has more than 260 code units, so the loop that copies it is never cut off |
| FatCopy.CopyFile | c_src/fat_dir.c:562-652 | always ends and writes the clusters that the three modes visit, with zeros for what cannot be read, cut to the size of the file or to the room on the destination |
| FatCopy.AddressInCopyIsStart | c_src/fat_dir.c:588-604 | the disk offset with its 32-bit product is the start of the cluster for every cluster up to n+2 on every volume whose number of sectors has 32 bits |
| FatCopy.AddressInCopyIsStartIff | c_src/fat_dir.c:588-604 | on any volume it is, if and only if the product fits 32 bits |
| FatCopy.Advance | c_src/fat_dir.c:626-645 | the next mode and cluster |
| FatCopy.SkipToFree | c_src/fat_dir.c:640-645 | the first cluster with entry 0 behind the current one, or n+2 if there is none |
| FatCopy.CompleteFileIsCopied | c_src/fat_dir.c:602-646 | a file whose chain is long enough is copied as the contents of its chain cut to its size |
| FatCopy.DeletedFileIsCopied | c_src/fat_dir.c:602-646 | a file whose first entry is 0 is copied as its first cluster and the next free clusters in ascending order; when they run out, cluster n+2 behind the volume is copied too |
| FatCopy.FreeClustersAreCopied | c_src/fat_dir.c:640-645 | the same for the rest of a file from any of its clusters on |
| FatCopy.NextClustersAreConsecutive | c_src/fat_dir.c:638-639 | without a usable chain the clusters follow one another up to n+2 |
| FatCopy.MethodChangesOnce | c_src/fat_dir.c:626-645 | the mode changes at most once, away from following the chain |
| FatCopy.TrailIsStates | c_src/fat_dir.c:602-646 | the copied clusters are those of the successive modes and clusters |
| FatCopy.EndMarksAgree | c_src/fat_dir.c:343-351 | is_EOC and kf_fat_is_eoc agree on every value that an entry of the type can hold |
| ClusterVotes.FindSectorsPerClusterAux | c_src/fat_cluster.c:102-202 | None for fewer than two samples; otherwise at most n(n-1)/2 different candidates, each with as many votes as later samples propose it together with its first sample, and the answer is the first candidate of maximal vote among those of the wanted FAT type (the narrowest whose entries have room for the clusters of the volume), or None if there is none |
| ClusterVotes.CastVotes | c_src/fat_cluster.c:110-160 | the two loops collect every proposed line once and count its votes |
| ClusterVotes.PickBest | c_src/fat_cluster.c:162-201 | the selection loop keeps the first candidate of maximal vote among the wanted ones |
| ClusterVotes.CandidateIsOnItsSample | c_src/fat_cluster.c:115-135 | each candidate line passes through its first sample, has a power of two up to 128 sectors per cluster and a positive offset |
| ClusterVotes.OnlyTheLineIsProposed | c_src/fat_cluster.c:113-130 | two samples of one line propose that line if their clusters rise, and nothing else |
| ClusterVotes.LineIsElected | c_src/fat_cluster.c:102-202 | when all samples lie on one line with a usable cluster size and offset, one pair of them rises, and the wanted type is the first of FAT12, FAT16 and FAT32 with n + 1 below its reserved values for the n clusters of the volume, the answer is exactly that line |
| ClusterVotes.TypeIsNarrowest | c_src/fat_cluster.c:204-215 | the type of a count is the first of FAT12, FAT16 and FAT32 whose reserved values lie above the number of the last cluster |
| ExtBackups.NextSb | c_src/ext2_sbn.c:50-76 | the least element greater than the argument of the first blocks and the groups numbered by powers of 3, 5 and 7 for all block sizes, without leaving 64 bits |
| ExtBackups.GroupsFillTheirBitmap | c_src/ext2_sbn.c:50-76 | the group sizes for blocks of 1024, 2048, 4096 and 65536 bytes: as many blocks as a block has bits |
| ExtBackups.FirstGroupHoldsSuperblock | c_src/ext2_sbn.c:50-76 | the first group of each block size begins with the block that holds byte 1024 |
| ExtBackups.PlacesFitIff | c_src/ext2_sbn.c:50-67 | each of the twelve families of the loops has a place beyond the argument within 64 bits if and only if the argument is below 7^13 groups of 32 MiB |
| ExtBackups.FirstBeyond | c_src/ext2_sbn.c:58-65 | the innermost loop finds the least power of the factor whose group lies beyond the offset |
| ExtBackups.SearchSuperblock | c_src/ext2_sbn.c:103-162 | the scan ends, visits places in strictly increasing order, and visits every place below the partition size unless it stops at a user request or at the tenth superblock, and then at once |
| Fletcher.Fletcher64 | c_src/apfs_common.c:42-65 | up to the proved bound on the number of words, 64-bit sums reduced once at the end give the checksum reduced at every step |
| Fletcher.PlainIsChecksum | c_src/apfs_common.c:49-65 | one reduction at the end equals one after every addition, for sums of any size |
| Fletcher.NothingWraps | c_src/apfs_common.c:49-59 | within the bound no sum leaves 64 bits |
| Fletcher.OneMoreWordWraps | c_src/apfs_common.c:49-59 | the bound is exact: with one more word the largest words and sums do |
| Fletcher.ChecksumOfParts | c_src/apfs_common.c:42-65 | the checksum of a concatenation is that of the second part started from that of the first |
| Fletcher.VerifyBlock | c_src/apfs_common.c:67-76 | the checksum of the block with its first two words moved to the end |
| Fletcher.BlockIsValidIff | c_src/apfs_common.c:67-76 | it is 0 if and only if the first two words are congruent to -(s1+s2) and, given the first, -(s1+c1) modulo 2^32-1 |
| Fletcher.ChangedWordIsDetected | c_src/apfs_common.c:67-76 | changing any one word of a valid block to a value not congruent to it makes the block invalid |
| Crc.GetCrc32 | c_src/crc.c:88-107 | with a table of the register, the loop feeds every byte of every message to the register |
| Crc.TableStep | c_src/crc.c:100-106 | eight shifts of a register are one lookup of its low byte and a shift by eight |
| Crc.ShiftIsLinear | c_src/crc.c:109-121 | one shift of the register is linear over exclusive or |
| Crc.GeneratedTable | c_src/crc.c:109-121 | the generated table is a table of the eight-step register |
| CrcTable.PrintedIsGenerated | c_src/crc.c:31-85 | each of the 256 printed constants is the generated one |
| CrcTable.PrintedTable | c_src/crc.c:31-107 | so the byte-wise loop with the printed table is the bit-wise register, for all messages and seeds |
| Crc.FedInParts | c_src/crc.c:88-107 | the checksum of a concatenation is that of its end seeded with that of its start |
| Crc.ChangedByteIsDetected | c_src/crc.c:88-107 | for an injective register, changing one byte anywhere in a message changes its checksum |
| Crc.Shift8IsInjective | c_src/crc.c:109-121 | eight shifts of the register keep different registers apart |
| Crc.FedByTableIsFed | c_src/crc.c:100-106 | looking up every byte in a table of the register is feeding every byte to the register |
| CrcTable.PrintedTableDetectsByte | c_src/crc.c:31-107 | under the printed table two messages that differ in at most one byte have the same checksum if and only if they are equal |
| Crc.CrcOfStream | c_src/file_ace.c:88-103 | for every length and buffer size the checksum taken piece by piece is that of the whole range, and a short stream is noticed |
| Crc.CheckAceCrc | c_src/file_ace.c:77-112 | 0 if and only if the header is complete and the low half of its checksum matches |
| AlignedIo.AlignedDisk.AlignPread | c_src/alignio.h:39-81 | whatever the device delivers: the result is -1 or the number of bytes delivered for the whole sectors, cut to the request; the buffer gets every byte of the request that was delivered and zeros for the others |
| AlignedIo.AlignedDisk.AlignPreadInside | c_src/alignio.h:39-81 | a request whose bytes are all delivered gets exactly them |
| AlignedIo.AlignedDisk.AlignPwrite | c_src/alignio.h:97-141 | on a device or an image file that grows: fails and changes nothing if the sectors of the request do not lie on a device that cannot grow; otherwise the sectors hold the written bytes, what could be read of the others, and zeros for the rest |
| AlignedIo.AlignedDisk.RoomToRead | c_src/alignio.h:52-71 | doubling the buffer ends with enough room without leaving 32 bits |
| AlignedIo.GrownSize | c_src/alignio.h:59-66 | a size that is large enough and at most 2^31 |
| AlignedIo.FastPathIsAligned | c_src/alignio.h:44-51 | a request as long as its sectors begins at a sector, so the direct call is aligned |
| AlignedIo.SpanFacts | c_src/alignio.h:44-49 | the rounded request is aligned, covers the bytes asked for, and exceeds them by less than a sector on either side |
| AlignedIo.OthersAreKeptIff | c_src/alignio.h:128-135 | the other bytes survive a write if and only if no byte of its sectors that could not be read held anything but zero |
| AlignedIo.ReportIsHonestIff | c_src/alignio.h:73-80 | for every device size and request, the count that align_pread reports is the number of bytes of the request on the device if and only if the request begins at a sector, or its first sector is not on the device, or all of it is |
| AlignedIo.ShortLastSector | c_src/alignio.h:73-80 | on a device of 700 bytes a request for its last 100 bytes and 100 more is reported as 188 bytes |
| AlignedIo.DeviceIsStore | c_src/alignio.h:97-141 | any sequence of writes with readable sectors, inside the device or behind its end, leaves it byte for byte as a byte-addressable store does, with zeros up to a whole sector |
| AlignedIo.InsideStaysInside | c_src/alignio.h:97-141 | writes that lie on a device of whole sectors neither need it to grow nor make it grow |
| AlignedIo.StoreRemembers | c_src/alignio.h:39-141 | every byte of that store is the one written there last, the original one, or zero |
| DiskCache.Cache.PreadAux | c_src/hdcache.c:72-178 | the recursive read through sixteen buffers, with read-ahead and the second attempt sector by sector, leaves the cache, the buffer and the result of its specification by value |
| DiskCache.Cache.FetchMissing | c_src/hdcache.c:120-177 | the same for the part that reads the disk |
| DiskCache.Cache.CountNew | c_src/hdcache.c:122-122 | the read-ahead is taken for a shorter request that it does not carry to the end of the disk |
| DiskCache.Cache.ReadSectors | c_src/hdcache.c:161-176 | the same for the loop that reads sector by sector into a cleared buffer |
| DiskCache.Cache.FindSlot | c_src/hdcache.c:80-91 | the search over the buffers finds the one used last that holds the byte |
| DiskCache.Cache.Pwrite | c_src/hdcache.c:199-215 | a write drops exactly the buffers that it overlaps and is written through |
| DiskCache.OverlapsIff | c_src/hdcache.c:206-206 | the buffers dropped by a write are exactly those that hold one of its bytes |
| CacheTheorems.NothingStaleIsRead | c_src/hdcache.c:72-215 | after any sequence of reads and writes, whatever the disk delivers and whenever it fails, a cached read leaves nothing in the buffer but bytes that the disk holds now, and zeros, and counts at most what was asked for |
| CacheTheorems.CacheIsTransparent | c_src/hdcache.c:72-215 | in front of a disk that never fails, after any sequence of reads and writes, a cached read leaves what the disk alone would leave, and counts all of it if it lies on the disk |
| CacheTheorems.FullCountMeansRead | c_src/hdcache.c:72-215 | in front of a disk that delivers whole sectors or nothing, failing now and then, a full count for an aligned request means that all its bytes are those the disk holds now |
| CacheTheorems.SectorsAreReadOrLost | c_src/hdcache.c:72-215 | in front of such a disk every sector of a cached read is that of the disk now, or zeros |
| CacheTheorems.FullCountsFitIff | c_src/hdcache.c:161-176 | in front of a disk that never fails, a full count means that the request lies on the disk, after all aligned requests, if and only if the disk consists of whole sectors |
| CacheTheorems.LastSectorIsCounted | c_src/hdcache.c:165-176 | on a disk that ends inside a sector, the first read of all its sectors is counted fully |
| CacheTheorems.ServedIsTrue | c_src/hdcache.c:72-215 | after any sequence of reads and writes every buffer holds what the disk holds now, as far as its status says, and zeros |
| DiskImage.CopyPartition | c_src/dimage.c:100-252 | for every pattern of read failures the copy ends, and the image is byte for byte the fold of its writes: what each read of the skip rule delivered, at its place, and the fill of each gap it closed, in order, later writes over earlier ones |
| DiskImage.DiskImageBackward | c_src/dimage.c:66-98 | fills the gap from its end down to the first sector that cannot be read, but not the first sector of the gap, with the bytes of the disk at the same offsets |
| DiskImage.CopyChunk | c_src/dimage.c:182-210 | one read is stored at its offset in the image, and a gap that has just been skipped is filled |
| DiskImage.CopiesAreRightIff | c_src/dimage.c:79-210 | every byte of the image is that of the partition, for all disks, all patterns of failures and all right beginnings, if and only if the partition starts at 0 or is too short, or the disk too small, for a gap of SKIP_SIZE to be closed behind the bytes already copied |
| DiskImage.CopyIsFaithful | c_src/dimage.c:100-252 | one direction for a given disk: a copy from a start of 0, or without room to close a gap, is right wherever it holds a byte |
| DiskImage.CopyIsComplete | c_src/dimage.c:100-252 | without a failure the image gets the whole rest of the partition |
| DiskImage.FillOverwritesWhatWasRead | c_src/dimage.c:79-79 | a run with 512-byte sectors and a partition at 512 whose first read fails: the fill puts the sector in front over the one just read at the right place |
| DiskImage.LowOfIsFirstFailure | c_src/dimage.c:66-76 | the fill stops above the first sector that cannot be read or in the second sector of the gap, whichever comes first |
| DiskImage.LastWriteWins | c_src/dimage.c:182-210 | a byte of the image is the one of the last write that touches its place |
| Dates.DateDos2Unix | c_src/common.c:367-399 | the seconds of any date and time word, in the closed formula for days |
| Dates.ClosedDaysCount | c_src/common.c:290-332 | the closed leap-day formula counts every day from 1980 to the end of 2107 as the Gregorian calendar does day by day |
| Dates.DeltaIsTenYears | c_src/common.c:279-280 | DAYS_DELTA is the number of days from 1970 to 1980 |
| Dates.FatDateUnix2Dos | c_src/fat_adv.c:564-594 | for every time that the 16-bit words can hold, to the end of 2107 in a calendar in which every fourth year is a leap year, the two words name its even second and day in that calendar; times before 1980 count as its first second |
| Dates.DosRoundTripIff | c_src/fat_adv.c:564-594 | words to seconds and back is the identity on valid dates and times if and only if the date is before March 2100 |
| Dates.UnixRoundTripIff | c_src/common.c:367-399 | seconds to words and back rounds down to an even second if and only if the time is before March 2100 |
| Dates.UnixTimeRises | c_src/common.c:367-399 | date_dos2unix is strictly monotone over all valid dates and times through 2107 |

## Left out

- RepairRun.RepairFatTable: FAT16 and FAT32 with reads and writes that succeed; `Fat12Repair.RepairFat12` is the same code for FAT12. The answers of the user and `fat_find_fat_start` are arbitrary; reading the boot sector and the status of unreadable sectors are not modelled.
- Fat12Repair.RepairFat12: one copy of a table that is long enough for its clusters and lies on the disk, with reads and writes that succeed; two copies of a FAT12, whose windows overlap, are not modelled.
- FatScan.RemoveUsedSpace: one sector size stands for that of the boot sector and that of the disk, which c_src/fatp.c:65-70 tells apart; the sectors of the volume have 32-bit numbers; the boot sector is a parameter. A read that delivers nothing leaves zeros, as on POSIX systems; on Windows and for EWF images the disk cache keeps what its own buffer held.
- FatScan.ScanCached: the same.
- FatScan.Scan12: the same.
- ExfatScan.ExfatRemoveUsedSpace: finding the bitmap is not modelled; a cluster of the bitmap that is read twice is delivered alike; lookups in the FAT fail only beyond the end of the disk; the clusters of the volume have 32-bit block numbers, and start_exfat1 fits the `int` that `get_next_cluster` takes.
- Carver.DataCheckAux: reads succeed up to the end of the file and sizes stay far below 2^64.
- DirParser.DirFatAux: without the branch for deleted files (c_src/fat_dir.c:121-183, 268-284), which the recovery of folders never asks for. Names are code units: `wctomb`, the conversion to bytes, owners, modes beyond directory and read-only, and the time zone are not modelled.
- TreeWalker.FatUnformatDir: the geometry from the boot sector (`kf_fat_boot_geometry`), the fall-back to `fat_unformat`, and `update_blocksize` are not modelled; directories are smaller than 2^32 bytes, and the chains of the directories that the walk enters stay in their buffers.
- TreeWalker.SaveFile: creating directories and files, cleaning and numbering file names, and dates of files are one answer of the outside world.
- FatChains.KfFatReadDirChain: what happens after a cluster has been read beyond the end of the buffer is not modelled; the method says when that happens.
- FatRecovery.KfFatRecoverFile: the output file has been created.
- FatCopy.CopyFile: the output file has been created; addresses are those of the clusters, which `AddressInCopyIsStart` proves for the 32-bit product of the source on volumes whose data area does not begin behind their end.
- ClusterVotes.FindSectorsPerClusterAux: the list of candidates is a sequence, not an allocated array.
- ExtBackups.NextSb: for offsets below 7^13 * 2^25, about 3.2 * 10^18, where `PlacesFitIff` proves that no product of the source has to leave 64 bits.
- ExtBackups.SearchSuperblock: what a superblock is, and the list of partitions that the scan builds, are not modelled.
- DiskCache.Cache.PreadAux: the disk behind the cache reports the bytes that it delivers, which `align_pread` does under the condition of `ReportIsHonestIff`; a write that fails changes nothing, and the disk does not grow. How large buffers are allocated is not modelled.
- AlignedIo.AlignedDisk.AlignPread: the caller's buffer is not the disk's own one, and rounded requests stay at most 2^31 bytes long.
- AlignedIo.AlignedDisk.AlignPwrite: a write is made as a whole or not at all; the caller's buffer is not the disk's own one, and rounded requests stay at most 2^31 bytes long.
- DiskImage.CopyPartition: writes to the image succeed and the user does not stop the copy.
- DiskImage.DiskImageBackward: writes succeed; where `src_offset` wraps below 0 the next read fails, as on any disk.
- Dates.FatDateUnix2Dos: dates up to the 16-bit words of a FAT date, zone offset 0 in the round trips.
- Menus, logs, configuration of the build, libraries for other file systems, partition tables, the guessing of FAT types, rebuilding of root directories and boot sectors: nothing is stated about them.
- Memory allocation, pointer validity, and the order of bits in host integers are not modelled.
