# What this project models and proves

A Dafny model of the parts of the kernel whose correctness spans whole runs, each written in the
form the source has (classes with fields and loops where the C or Python code updates state in
place) and proved equal to functions on values, about which the main results are then proved.

- **Crash-atomic storage** (`Disk`, `Crc32`, `CrcPolynomial`, `Journal`, `JournalCrash`,
  `JournalChecksum`, `BlockCache`, `CacheTransparency`, `CacheEpoch`, `CacheEpochs`): a device that writes one 512-byte
  sector at a time, the write-ahead journal with its CRC-32, and the 32-slot write-back LRU cache
  over it. Power may fail after any sector write, again and again during replay; the cache is also
  shown transparent when transfers and commits fail.
- **The OSFS-2 file system** (`FsState`, `FsBlocks`, `FsFile`, `FsTruncate`, `FsDirectory`,
  `FsTree`, `FsCreate`, `FsRemove`, `FsPaths`, `FsView`, `FsRuns`, `FsHandles`, `PathStrings`, and
  `FileSystem` for the code as it runs): block ownership, files as byte sequences over direct,
  indirect and missing blocks, the directory tree, the whole as a map from paths to directories and
  byte sequences, the same by inode number for numbers that callers keep, and path strings.
  `FormatImage` and `ImageBuilder` do the same for the image formatter.
- **The bytes on disk** (`OnDisk`, `DiskLayout`, `StoredFs`, `FormatOnDisk`, `DriverIo`, `DriverRuns`,
  `DriverCalls`, `DriverStrings`, `DriverBounds`, `CrashMount`): superblock, bitmaps and inode records as the formatter
  packs them and the kernel unpacks them; each update of the state as the write of one block; every
  block the driver reads and writes for a call, a lookup or a read, in order, to which the methods of
  `FileSystem` are proved as to their results; and what is mounted
  after a crash between two flushes, as long as the blocks read or written in between fit the cache.
- **Copy-on-write address spaces** (`Paging`, `PagingInvariant`, `PagingLifecycle`,
  `ForkRefinement`, `EagerClone`, `HeapBreak`, `BreakBytes`, `FrameAccounting`, `FrameBudget`, and
  `AddressSpaces` for the code as it runs): frames, the in-band free list, the 0/1/N reference counts, page tables, both forks, write
  faults, the heap break, teardown, and where every frame is after any run.
- **User addresses** (`VaRanges`, `WindowVa`, and `RangeLists` for the linked lists as they run):
  mmaps, window buffers and the coalescing list of free window ranges.
- **The page cache behind file mmaps** (`PageCache`, `PageCacheTable`).
- **The kernel heap** (`HeapSpec`, `Heap`): boundary tags in memory, first fit, coalescing.
- **Smaller members**: the recursive spinlock as a protocol of N processors (`RecursiveLock`),
  pipes (`Pipe`), the program loader with the first stack frame (`ElfFile` for the files it reads,
  `ElfImage`, `InitStack`, `ElfFrames` for the frames it needs and loses, and `ElfLoader` for the code
  as it runs).

Conventions. Block numbers, frame numbers and page numbers stand for addresses; descriptor bits are
fields. Where the source's integers wrap (slot numbers, transaction ids, the clocks, `size_t` in
`kmalloc`, the length of a mmap, the addresses of a program segment, the heap break) the model wraps
too. Whether `kmalloc` succeeds, whether a device
transfer fails, whether a signal is pending or a deadline has passed are parameters or fields that
may take any value. Device register access, barriers, TLB maintenance and printing are not modelled.

Where code and comments differ, the model follows the code:

- `kernel/core/osfs2_journal.c` says a torn header is thrown away because its CRC does not match.
  All live header fields lie in the first 152 bytes, so the first header sector alone decides, and
  the mismatch branch is never taken (`JournalCrash.ChecksumNeverFails`).
- `kernel/arch/spinlock.h` says owner and depth are touched only under the gate. The fast path
  reads the owner without it; `RecursiveLock.Protocol` shows that this is still safe.
- `kernel/core/osfs2.c` says a failed create leaves the file system as it was. By path that is so
  (`FsView.CreateView`). It leaves a record in the inode table, of an inode that is not in use, and
  reads, writes and truncation look at the record of a number without asking whether the number is
  in use. `FsHandles.FailedCreate` says exactly when a caller who still has the number gets another
  answer: when the create got as far as trying that number, and its record was free or had content.
- `address_space_create` loses the L1 frame when the L2 frame cannot be had
  (`FrameAccounting.CreateLosesFrame`), and mapping a page or installing a guard does not look at the
  entry it writes over, so the frame of a page that was there is lost. `FrameAccounting.RunStrays`
  shows that these are the only ways. The second one happens in `address_space_set_brk`: a growth that
  fails keeps its pages, and the next growth writes over them (`FrameAccounting.SetBrkStrays`).
  Nothing of it shows (`HeapBreak.RetriedBreak`), unless the space was forked in between: writing over
  a frame with a count leaves the count one too high (`PagingLifecycle.ReplaceExact`).
- `elf_load_user` loses the frame whose mapping fails and those whose entry it writes over
  (`ElfFrames.LoadLoses`).
- The 32 slots of the block cache keep a call from reaching the disk in part only while the blocks
  read since the last flush are counted with those written: one store and 32 reads commit that store
  by itself (`CacheEpochs.ReadsEvict`), and half a create is not a sound file system
  (`DriverBounds.LoneInodeBit`).
- `address_space_clone`, said to preserve the permissions of each page, makes a page that is
  copy-on-write in the source read-only in the copy. The copy is exact if and only if the source has
  no such page (`EagerClone.CloneIsExact`); a kernel that only uses this fork never meets one.
- `address_space_set_brk` says the caller may pass anything. A request in the last page of the 64-bit
  numbers wraps when it is rounded up, and gives the whole heap back (`BreakBytes.BreakCovers`).
- `pick_victim_locked` says there is no victim when every slot is mapped. It also passes over an idle
  slot with the largest time stamp (`PageCache.VictimIs`).
- Two program segments on one page: the later one's page replaces the earlier one's
  (`ElfFrames.SpoiledPage`). `ElfImage.SharedPages` says for which headers no byte is spoiled.
- `scripts/mkosfs2.py` accepts names with slashes; no path string leads to them
  (`FormatOnDisk.Reachable`).

## Model

| member | source | states |
|---|---|---|
| Crc32.MaskSelects | kernel/core/osfs2_journal.c:120-128 | the arithmetic mask `0 - (crc & 1)` selects the polynomial exactly when the low bit is set |
| Crc32.Crc32Step | kernel/core/osfs2_journal.c:120-128 | the eight-turn bit loop over one byte computes the register step |
| Crc32.Crc32Buf | kernel/core/osfs2_journal.c:130-138 | the byte loop computes the fold of the step over the buffer |
| Crc32.FoldIsBits | kernel/core/osfs2_journal.c:120-138 | the byte-wise loop equals a one-bit-at-a-time shift register over all bits |
| Crc32.BurstDetected | kernel/core/osfs2_journal.c:120-138 | two inputs of one length that differ only within 32 consecutive bits have different checksums |
| CrcPolynomial.PolyIsGenerator | kernel/core/osfs2_journal.c:120-128 | the constant is the generator of IEEE 802.3 clause 3.2.9 |
| CrcPolynomial.RegisterIsRemainder | kernel/core/osfs2_journal.c:120-138 | the register after any message is the remainder of polynomial division by the generator |
| CrcPolynomial.RemainderUnique | kernel/core/osfs2_journal.c:120-138 | the division determines that remainder, so the result above characterises the register |
| CrcPolynomial.ChecksumIsRemainder | kernel/core/osfs2_journal.c:120-160 | the stored value is the complement of the remainder of the message with its first 32 bits complemented |
| Disk.TornWrite | kernel/core/osfs2_journal.c:104-116 | a block write that fails at a sector leaves the sectors before it new, those after it old, and every other block alone |
| Disk.WrittenBlock | kernel/core/osfs2_journal.c:94-116 | a block written sector by sector reads back whole |
| Disk.VirtioBlk.RawRead | kernel/core/osfs2_journal.c:94-102 | a read that succeeds returns the block; it changes nothing |
| Disk.VirtioBlk.RawWrite | kernel/core/osfs2_journal.c:104-116 | the disk gets all eight sector writes when it succeeds; else a prefix of them, the sector of the next one holding anything |
| Journal.HeaderRoundTrip | kernel/core/osfs2_journal.c:205-219 | what commit writes into the header, replay parses back: transaction, destinations, CRC |
| Journal.ParseDependsOnPrefix | kernel/core/osfs2_journal.h:73-79 | the parsed header depends on the first 152 bytes only |
| Journal.ZeroIsUncommitted | kernel/core/osfs2_journal.c:194-227 | a zeroed header is not committed |
| Journal.ComputeCrc | kernel/core/osfs2_journal.c:140-186 | the two accumulating loops compute the checksum of destinations followed by payloads; commit and replay share it |
| Bytes.Le32Bytes | kernel/core/osfs2_journal.c:144-151 | a 32-bit field is stored least significant byte first |
| JournalChecksum.BatchCrcIs | kernel/core/osfs2_journal.c:140-186 | that checksum runs over one byte stream given place by place: byte 4i+q is byte q of destination i, and behind them byte 4096i+q is byte q of payload i |
| JournalChecksum.HeaderHoldsRemainder | kernel/core/osfs2_journal.c:320-348 | from the commit point on, the header on disk holds the complemented remainder of that whole stream, bits and powers as IEEE 802.3 clause 3.2.9 has them |
| JournalChecksum.RemainderDetermines | kernel/core/osfs2_journal.c:140-186 | no other value is that remainder, so the division alone says what the checksum is |
| JournalChecksum.PayloadBurst | kernel/core/osfs2_journal.c:140-160 | payloads for the same destinations that differ, but only within 32 consecutive bits, have different checksums |
| JournalChecksum.DestinationBurst | kernel/core/osfs2_journal.c:140-160 | the same for destinations |
| JournalChecksum.BatchBurst | kernel/core/osfs2_journal.c:140-160 | the same for a burst anywhere in the stream, across both |
| JournalChecksum.BurstIsRefused | kernel/core/osfs2_journal.c:265-293 | a committed header over slots or destinations that meanwhile changed in a burst: replay writes nothing home and only zeroes the header |
| JournalChecksum.HeaderLayout | kernel/core/osfs2_journal.h:73-83 | the header block byte by byte: magic, transaction, count, checksum, a zero word, destinations, zeroes |
| Journal.Log.WriteBatch | kernel/core/osfs2_journal.c:330-334 | payload writes in order, stopping at the first failure with a prefix of the sector writes on disk, but for the sector that failed |
| Journal.Log.WriteCommittedHeader | kernel/core/osfs2_journal.c:205-219 | the scratch block filled field by field is the encoded header |
| Journal.Log.Commit | kernel/core/osfs2_journal.c:320-372 | the sector writes of the four steps, in order; failure means they stopped before the fourth step, and success that they were all done or stopped in the fourth, the sector where they stopped holding anything |
| Journal.Log.Replay | kernel/core/osfs2_journal.c:249-318 | issues exactly the writes that the header on disk calls for, or stops in them |
| JournalCrash.DuringStep2 | kernel/core/osfs2_journal.c:336-348 | the first header sector is the commit point |
| JournalCrash.CrashAtomicity | kernel/core/osfs2_journal.c:249-372 | crash after any prefix of a commit, any number of crashed replays, one full replay: the disk outside the journal is the old one or the new one, decided by the commit point, and nothing is pending |
| JournalCrash.CrashAtomicityOfBlocks | kernel/core/osfs2_journal.c:249-372 | the same block by block: all destinations change or none, no other block does |
| JournalCrash.ChecksumNeverFails | kernel/core/osfs2_journal.c:285-293 | at every boot along the way a committed header has the right checksum |
| JournalCrash.SessionCrash | kernel/core/osfs2_journal.c:249-372 | the same for a session of any number of commits: recovery shows exactly the batches whose commit point was reached |
| BlockCache.Cache.FindSlot | kernel/core/osfs2_cache.c:59-69 | the scan returns the slot that holds the block, or -1 if none does |
| BlockCache.Cache.PickVictim | kernel/core/osfs2_cache.c:71-83 | the scan returns `Victim`, whose contract says which slot that is: the first empty one, else the first of those used least recently |
| BlockCache.Cache.FlushSlot | kernel/core/osfs2_cache.c:98-109 | a dirty slot is committed as a batch of one and cleaned only if that succeeds |
| BlockCache.Cache.Read | kernel/core/osfs2_cache.c:131-165 | the effect on slots, clock and disk, for hits, misses and every failing transfer |
| BlockCache.Cache.Write | kernel/core/osfs2_cache.c:167-192 | the same for writes |
| BlockCache.Cache.Flush | kernel/core/osfs2_cache.c:194-227 | all dirty slots go in one transaction and are cleaned only if it succeeds |
| CacheTransparency.ReadTransparent | kernel/core/osfs2_cache.c:131-165 | a read changes no block's view, and a successful one returns the view |
| CacheTransparency.WriteTransparent | kernel/core/osfs2_cache.c:167-192 | a successful write changes the view of its block only; a failed one changes none |
| CacheTransparency.FlushTransparent | kernel/core/osfs2_cache.c:194-227 | a flush changes no view; a successful one leaves the disk equal to the view and all slots clean |
| CacheTransparency.RunTransparent | kernel/core/osfs2_cache.c:98-227 | over any run with arbitrary failures the invariant holds and every view is the last successful write |
| CacheTransparency.ReadsSeeWrites | kernel/core/osfs2_cache.c:98-227 | a successful read returns the last write to that block, else the disk |
| CacheEpoch.VictimIsClean | kernel/core/osfs2_cache.c:71-97 | while at most 32 distinct blocks are in use since the last flush, no dirty slot is the victim |
| CacheEpoch.FullCacheEvicts | kernel/core/osfs2_cache.c:89-97 | the bound is tight: with 32 dirty slots one more block commits a slot by itself |
| CacheEpoch.EpochAtomicity | kernel/core/osfs2_cache.c:71-227 | within the bound nothing is written before the flush, and a crash anywhere up to its end, then replay with an empty cache, shows the view at the last flush or the view at this one |
| CacheEpoch.FlushStartsEpoch | kernel/core/osfs2_cache.c:194-227 | a finished flush starts the next epoch: same views, all clean, nothing pending |
| CacheEpochs.EpochsToRest | kernel/core/osfs2_cache.c:71-227 | any number of epochs of at most 32 distinct blocks each, one after another: each starts where the one before ended, and disk and views hold what was last stored |
| CacheEpochs.CrashAfterEpochs | kernel/core/osfs2_cache.c:71-227 | power cut in the last of any number of epochs: every block shows what it held at the last flush, or every one what it holds at the flush in flight |
| CacheEpochs.ReadsEvict | kernel/core/osfs2_cache.c:71-97 | reads count: after one store, reads of 32 other blocks commit the stored block alone, before any flush |
| CacheEpochs.EmptyAtRest | kernel/core/osfs2_cache.c:113-125 | an empty cache over a replayed journal starts such a run |
| FsState.TableGetPut | kernel/core/osfs2.c:229-241 | an entry written into an indirect block reads back and no other entry changes |
| FsBlocks.AllocKeeps | kernel/core/osfs2.c:153-170 | a block handed out is zeroed, marked and nobody's; 0 means every data block is marked |
| FsBlocks.ResolveKeeps | kernel/core/osfs2.c:209-242 | resolving with allocation keeps ownership and every byte of every file, and yields the block at that position or finds the data area full |
| FsBlocks.PutBlockKeeps | kernel/core/osfs2.c:783-787 | writing one file's block changes that block of that file and nothing else |
| FsFile.WriteChunk | kernel/core/osfs2.c:759-789 | one turn of the write loop stores exactly its bytes |
| FsHandles.WriteNumber | kernel/core/osfs2.c:745-797 | for any number whose record says file, in use or not: a write returning k >= 0 wrote exactly the first k bytes, falls short only when the data area is full and at a block boundary; -1 changes nothing; no other number answers differently |
| FsHandles.ReadAnswers | kernel/core/osfs2.c:704-743 | for any number: a read returns exactly the asked-for stretch of the bytes, holes as zeroes, none past the size, and fails exactly when the record is free or there is none |
| FsFile.WriteRefines | kernel/core/osfs2.c:745-797 | on byte sequences a write is an overwrite that fills a gap with zeroes |
| FsFile.WriteElsewhere | kernel/core/osfs2.c:745-797 | no other file changes |
| FsHandles.TruncateAnyNumber | kernel/core/osfs2.c:799-845 | for any number whose record is not free: kept blocks keep their bytes, the rest reads as zeroes and hangs nowhere, exactly the blocks that lost their place become free, the indirect block goes exactly when nothing hangs from it, no other number changes |
| FsTruncate.TruncateRefines | kernel/core/osfs2.c:799-845 | truncation to any size resizes the byte sequence; later growth shows zeroes if and only if the bytes cut off inside the last kept block were zero |
| FsTruncate.AlignedTruncate | kernel/core/osfs2.c:799-845 | a block-aligned size always leaves a zero tail |
| FsTruncate.TruncateElsewhere | kernel/core/osfs2.c:799-845 | no other file changes |
| FsDirectory.EntryRoundTrip | kernel/core/osfs2.c:582-585 | a directory entry reads back its inode and name |
| FsDirectory.DirFindFinds | kernel/core/osfs2.c:248-275 | the scan finds the first entry with the name or that there is none, and then the first empty slot or that there is none |
| FsDirectory.DirWriteKeeps | kernel/core/osfs2.c:297-310 | exactly one slot changes; ownership and all other blocks are kept |
| FsTree.AddedTree | kernel/core/osfs2.c:563-594 | a new entry for a new inode in a free slot keeps the tree invariant |
| FsCreate.MakeSlotKeeps | kernel/core/osfs2.c:563-580 | making room for an entry keeps ownership and content, or finds the directory or the disk full |
| FsCreate.ChildIs | kernel/core/osfs2.c:248-275 | the scan agrees with the set of entries |
| FsCreate.CreateSemantics | kernel/core/osfs2.c:519-595 | the tree is kept; a name in use opens a file and fails otherwise; a new name is entered for a new empty inode; a failure needs a bad name or no inode, slot or block, and changes no entry, inode in use or byte |
| FsRemove.AllEmptyIs | kernel/core/osfs2.c:683-689 | the emptiness scan sees every entry |
| FsRemove.UnlinkSemantics | kernel/core/osfs2.c:634-663 | exactly the entry, its file and its blocks go, or nothing changes because there is no such file; the tree is kept |
| FsRemove.RmdirSemantics | kernel/core/osfs2.c:665-702 | succeeds exactly on an empty directory, and then removes exactly it; the tree is kept |
| FsPaths.PathsDistinct | kernel/core/osfs2.c:427-448 | no two paths lead to the same inode |
| FsPaths.EveryInodeHasPath | kernel/core/osfs2.c:427-448 | every inode in use is reached from the root |
| FsView.CreateView | kernel/core/osfs2.c:604-620 | on the map from paths, create and mkdir add exactly the new path or change nothing |
| FsView.UnlinkView | kernel/core/osfs2.c:634-663 | unlink removes exactly a file's path, and fails without effect on anything else |
| FsView.RmdirView | kernel/core/osfs2.c:665-702 | rmdir removes exactly the path of an empty directory other than the root, and fails without effect otherwise |
| FsView.WriteView | kernel/core/osfs2.c:745-797 | a write is a byte-sequence write at one path; every other path shows what it showed |
| FsView.TruncateView | kernel/core/osfs2.c:799-845 | a block-aligned truncate resizes the bytes at one path |
| FsView.ReadView | kernel/core/osfs2.c:704-743 | a read returns the asked-for stretch of the bytes at its path |
| FsRuns.RunGood | kernel/core/osfs2.c:519-845 | any sequence of calls by path keeps the invariant, and a path no call was about shows what it showed at the start |
| FsRuns.StepIsMapStep | kernel/core/osfs2.c:519-845 | each call by path is a step of a machine whose state is the map from paths to nodes: what it returns is one of the results the map allows, and settled by the map but for room on the disk |
| FsRuns.RunIsMapRun | kernel/core/osfs2.c:519-845 | any sequence of calls takes the map at the start to the map at the end by the machine's steps with the results reported |
| FsRuns.SameResultsSameFiles | kernel/core/osfs2.c:519-845 | so two disks that show the same and report the same results show the same afterwards, in every path and every read |
| FsRuns.BlankGood | scripts/mkosfs2.py:97-150 | an image with only an empty root satisfies the invariant and shows only the root |
| FsRuns.EmptyDirectory | kernel/core/osfs2.c:799-845 | truncating a directory to 0 keeps the tree if and only if it has no entries |
| FsHandles.SameAnswers | kernel/core/osfs2.c:704-743 | two states answer every read of a number alike if and only if its record holds the same bytes in both |
| FsHandles.CreateNumber | kernel/core/osfs2.c:519-595 | a create tries a number only for a good new name; from then on that number answers as an empty file; a failure changes no other number's answers, a success only the parent's |
| FsHandles.FailedCreate | kernel/core/osfs2.c:519-595 | a failed create changes the answer for a number if and only if it tried that number and its record was free or had content |
| FsHandles.FailedCreateSeen | kernel/core/osfs2.c:519-595 | such a state: an empty root, every block marked; number 2 reads as an empty file after the failed create and could not be read before |
| FsHandles.UnlinkNumber | kernel/core/osfs2.c:634-663 | the removed number reads as no file; of all others only the parent may answer differently; a failure changes nothing |
| FsHandles.RmdirNumber | kernel/core/osfs2.c:665-702 | the same for directories |
| FsHandles.HandlesRun | kernel/core/osfs2.c:519-845 | any sequence of calls, reads and writes by numbers kept as long as callers like: tree and all records stay sound, and a number no call was about answers as at the start |
| FsHandles.FreshRecords | scripts/mkosfs2.py:97-150 | a sound image whose unused records have no pointers starts such runs |
| PathStrings.SplitJoin | kernel/core/osfs2.c:407-421 | a path of slash-free names, written with slashes, is cut back into those names |
| PathStrings.WalkStringIs | kernel/core/osfs2.c:407-448 | walking a string is walking the names between its slashes, names too long for the buffer cut to 59 bytes |
| PathStrings.CutAllIs | kernel/core/osfs2.c:407-420 | a name of at most 59 bytes is looked up as it is, a longer one by its first 59 |
| PathStrings.SplitParentIs | kernel/core/osfs2.c:454-495 | the leaf is the last name and the parent string names the rest; it fails exactly when there is no name, the leaf is too long, or the part before it is |
| PathStrings.CallsByString | kernel/core/osfs2.c:454-702 | create, mkdir, unlink and rmdir of a string are those calls on the path it names, or fail without effect |
| FileSystem.Osfs2.Init | kernel/core/osfs2.c:314-382 | the driver refuses a superblock that fails its checks, and otherwise holds the state that inode table, bitmaps and blocks encode |
| FileSystem.Osfs2.AllocBlock | kernel/core/osfs2.c:153-170 | the bitmap scan computes the allocation function |
| FileSystem.Osfs2.FreeBlock | kernel/core/osfs2.c:172-177 | clears one bit, in the data area only |
| FileSystem.Osfs2.AllocInode | kernel/core/osfs2.c:181-194 | the scan above the root computes the allocation function |
| FileSystem.Osfs2.ResolveBlock | kernel/core/osfs2.c:209-242 | the inode copy, bitmap and blocks after resolving, with and without allocation, and the blocks read and written on the way |
| FileSystem.Osfs2.Read | kernel/core/osfs2.c:704-743 | the copy loop computes the read function, changes nothing and reads the blocks listed for it, in order |
| FileSystem.Osfs2.Write | kernel/core/osfs2.c:745-797 | the copy loop and the write-back of the inode compute the write function, with its transfers in order |
| FileSystem.Osfs2.Truncate | kernel/core/osfs2.c:799-845 | the loops over direct pointers and table compute the truncate function, with its transfers in order |
| FileSystem.Osfs2.DirFind | kernel/core/osfs2.c:248-275 | the nested scan computes the find function, each block read once as the scan comes to it |
| FileSystem.Osfs2.DirWriteAt | kernel/core/osfs2.c:297-310 | computes the slot-writing function |
| FileSystem.Osfs2.DirReadAt | kernel/core/osfs2.c:279-293 | reads the inode an entry names, or says it cannot |
| FileSystem.Osfs2.Create | kernel/core/osfs2.c:519-595 | state, result and transfers are those of the create function, on every failure path |
| FileSystem.Osfs2.UnlinkPath | kernel/core/osfs2.c:634-663 | by path string, state, result and transfers are those of the unlink function |
| FileSystem.Osfs2.RmdirPath | kernel/core/osfs2.c:665-702 | by path string, state, result and transfers are those of the rmdir function |
| FileSystem.Osfs2.CreatePath | kernel/core/osfs2.c:604-620 | by path string, state, result and transfers are those of the create function |
| FileSystem.Osfs2.NextComponent | kernel/core/osfs2.c:407-421 | the character loops compute the component function, with the cut to the buffer |
| FileSystem.Osfs2.WalkPath | kernel/core/osfs2.c:427-448 | the component loop over a string computes the walk function, with its transfers in order |
| FileSystem.Osfs2.FindLeaf | kernel/core/osfs2.c:454-493 | the scan for the last name and the two trims compute the parent-and-leaf function |
| FileSystem.Osfs2.ParentOf | kernel/core/osfs2.c:454-503 | computes `walk_parent`: the parent is a directory in use, or failure |
| FormatImage.PlacedBytes | scripts/mkosfs2.py:187-234 | a file laid out block after block is read back byte for byte by the kernel's block lookup, zeroes past its end |
| FormatImage.PlacedOwned | scripts/mkosfs2.py:187-228 | laying a file out keeps ownership and changes no other file |
| FormatImage.AddFileKeeps | scripts/mkosfs2.py:171-236 | one more seed file keeps the image sound and adds exactly its path |
| OnDisk.InodeRoundTrip | scripts/mkosfs2.py:84-93 | an inode record packed by the script reads back field by field through the kernel's structure |
| OnDisk.InodeAfter | kernel/core/osfs2.c:95-124 | a record written into its block of the table reads back, and every other record stays |
| OnDisk.BitmapAfter | kernel/core/osfs2.c:128-139 | setting or clearing a bit changes exactly that bit, as reading them says |
| OnDisk.BitmapOfGet | scripts/mkosfs2.py:122-144 | a bitmap built bit by bit by the script has, for the kernel, exactly those bits |
| OnDisk.SuperRoundTrip | kernel/core/osfs2.c:331-352 | the kernel reads every superblock field as packed, and refuses exactly the ones out of range |
| DiskLayout.SuperLayout | kernel/core/osfs2.h:96-110 | every superblock field at its offset, least significant byte first |
| DiskLayout.InodeLayout | kernel/core/osfs2.h:112-123 | every field of an inode record at its offset |
| DiskLayout.EntryLayout | kernel/core/osfs2.h:124-127 | a directory entry is the inode number and the name padded with NULs |
| DiskLayout.TableLayout | kernel/core/osfs2.c:229-241 | pointer j of an indirect block is at byte 4j |
| DiskLayout.BitmapLayout | scripts/mkosfs2.py:118-138 | bit i of a bitmap is bit i % 8, from the low end, of byte i / 8 |
| StoredFs.MountStored | kernel/core/osfs2.c:314-382 | mounting the blocks that hold a file system gives its inodes, bitmaps and data |
| StoredFs.MetadataInvisible | kernel/core/osfs2.c:204-242 | what metadata blocks hold shows at no path |
| StoredFs.UpdateStored | kernel/core/osfs2.c:95-148 | every update of a record, a bit or a data block is the write of one block, after which the blocks hold the updated state |
| FormatOnDisk.TableRecord | scripts/mkosfs2.py:146-154 | record i of the script's contiguous table is where the kernel looks for it |
| FormatOnDisk.ImageStored | scripts/mkosfs2.py:97-258 | the image file, byte for byte, holds the file system the script built |
| FormatOnDisk.FormatMounts | kernel/core/osfs2.c:314-382 | the kernel mounts every image the script writes, with nothing to replay, and reads the same state |
| FormatOnDisk.MountedImageShows | scripts/mkosfs2.py:97-261 | what is mounted from an image of distinct names is sound and shows exactly the root and each seed under its name |
| FormatOnDisk.LookupThenRead | kernel/core/osfs2.c:427-448 | the path string of a slash-free name leads to its file, and reads return every stretch of it |
| FormatOnDisk.Reachable | scripts/mkosfs2.py:159-169 | a seeded file is reached by some path string if and only if its name has no slash |
| CrashMount.CrashThenMount | kernel/core/osfs2_journal.c:249-372 | cache operations on at most 32 blocks from one file system to another, power cut anywhere up to the end of the flush, replay, mount: a sound file system that shows the one or the other at every path |
| DriverRuns.ResolveLeads | kernel/core/osfs2.c:209-242 | the blocks read and the updates written while resolving, in order, take the stored state to the one the resolve function gives |
| DriverRuns.ReadLeads | kernel/core/osfs2.c:704-743 | a read reads the record and its blocks, all on the disk, and writes nothing |
| DriverRuns.WriteLeads | kernel/core/osfs2.c:745-797 | the transfers of a write, blocks covered in part read first and the record last, take the stored state to the one the write function gives |
| DriverRuns.TruncateLeads | kernel/core/osfs2.c:799-845 | the same for truncation |
| DriverCalls.CreateLeads | kernel/core/osfs2.c:519-595 | the same for create and mkdir under a directory, on every failure path |
| DriverCalls.UnlinkLeads | kernel/core/osfs2.c:623-663 | the same for unlink |
| DriverCalls.RmdirLeads | kernel/core/osfs2.c:665-702 | the same for rmdir, with its emptiness scan |
| DriverCalls.WalkLeads | kernel/core/osfs2.c:427-448 | a walk reads record, directory blocks and entry of each directory on the way, and writes nothing |
| DriverCalls.RequestLeads | kernel/core/osfs2.c:427-845 | from a sound file system the transfers of any call, lookup or read name blocks that are there, and their writes lead to the state that request leaves, which is sound |
| DriverCalls.RequestsLead | kernel/core/osfs2.c:427-845 | the same for any sequence of requests |
| DriverStrings.TransfersByString | kernel/core/osfs2.c:454-702 | create, mkdir, unlink and rmdir of a string make the transfers of those calls on the path it names, or none at all |
| DriverStrings.LookupByString | kernel/core/osfs2.c:407-448 | a lookup of a string makes those of the walk along its names |
| DriverStrings.WriteByNumber | kernel/core/osfs2.c:745-797 | the transfers of a write to a number are the same whether the number is in use or not |
| DriverStrings.ReadByNumber | kernel/core/osfs2.c:704-743 | the same for reads |
| DriverStrings.TruncateByNumber | kernel/core/osfs2.c:799-845 | the same for truncation |
| DriverBounds.WriteTouches | kernel/core/osfs2.c:745-797 | a write reads or writes at most three blocks besides one for each turn of its loop |
| DriverBounds.OneWriteIsSmall | kernel/core/osfs2.c:745-797 | so one write of fewer than 28 blocks' worth of bytes stays within the cache, wherever it starts |
| DriverBounds.LoneInodeBit | kernel/core/osfs2.c:181-194 | if only the first write of a create reaches the disk, what is there is not a tree |
| CrashMount.RequestsInCache | kernel/core/osfs2_cache.c:131-192 | requests whose transfers touch at most 32 distinct blocks write nothing before the flush and leave the cache showing the file system they lead to |
| CrashMount.RequestsThenCrash | kernel/core/osfs2.c:427-845 | any calls, lookups and reads that read or write at most 32 distinct blocks, then power cut anywhere up to the end of the flush, replay, mount: sound, and by path the file system before them or the one after all of them |
| CrashMount.SessionsThenCrash | kernel/core/osfs2.c:427-845 | the same after any number of such intervals, each ended by a flush |
| FormatImage.FormatNeedsDistinct | scripts/mkosfs2.py:159-169 | the script never compares names: the image it builds is sound if and only if the names are nonempty and distinct |
| FormatImage.FormatSucceeds | scripts/mkosfs2.py:97-243 | the script builds an image if and only if there are at most 64 files, names of at most 59 bytes, files of at most 4259840, and they take at most 16283 blocks, an indirect block counted for each file above 65536 |
| ImageBuilder.Image.constructor | scripts/mkosfs2.py:101-157 | the zeroed image with metadata, root block and root inode marked |
| ImageBuilder.Image.LayDirect | scripts/mkosfs2.py:187-205 | the direct-block loop with its moving cursors |
| ImageBuilder.Image.LayIndirect | scripts/mkosfs2.py:206-228 | the loop behind the indirect block, and the table |
| ImageBuilder.Image.Add | scripts/mkosfs2.py:171-236 | one turn over the seeds; fails exactly where the script exits |
| ImageBuilder.FormatFiles | scripts/mkosfs2.py:97-236 | the whole layout computes the format function |
| ImageBuilder.PackBits | scripts/mkosfs2.py:122-144 | the bits of a bitmap set one by one |
| ImageBuilder.PackTable | scripts/mkosfs2.py:146-154 | the inode records packed one after another |
| ImageBuilder.FormatImageFile | scripts/mkosfs2.py:97-258 | the script down to the bytes it writes out: superblock, bitmaps, inode table and data |
| PagingInvariant.AllocKeeps | kernel/core/pmem.c:100-111 | a frame handed out is zeroed and nobody's; fails exactly when the free list is empty |
| PagingInvariant.DropKeeps | kernel/arch/address_space.c:161-194 | dropping a page removes exactly that page from exactly that space, and the frame is freed exactly when this was its last holder |
| PagingInvariant.ShareOneKeeps | kernel/arch/address_space.c:601-662 | sharing one page keeps the counts; the child sees there what the parent sees and nobody else sees a difference |
| PagingInvariant.CowFaultKeeps | kernel/arch/address_space.c:702-765 | a write fault is resolved exactly when the page is copy-on-write and this is the last holder or a frame is free; nobody sees a difference |
| PagingInvariant.MakeWritableKeeps | kernel/arch/address_space.c:779-800 | a page becomes writable exactly when it is logically writable and a frame is at hand if one is needed |
| PagingInvariant.StoreKeeps | kernel/arch/address_space.c:702-800 | a store lands exactly under those conditions and changes that word for that space only |
| PagingLifecycle.CreateKeeps | kernel/arch/address_space.c:100-159 | a new space sees nothing; a failed creation changes no space |
| PagingLifecycle.InstallGuardKeeps | kernel/arch/address_space.c:316-328 | a guard page shows no access, whatever the address showed; failure means frames ran out and changes nothing |
| PagingLifecycle.MapFreshKeeps | kernel/arch/address_space.c:378-388 | a fresh page shows zeroes, whatever the address showed; failure means frames ran out and is invisible |
| PagingLifecycle.ReplaceExact | kernel/arch/address_space.c:266-328 | a page or guard written over a page of the space's own keeps the invariant if and only if that page's frame has no count; otherwise the count stays one above the number of holders |
| PagingLifecycle.TeardownKeeps | kernel/arch/address_space.c:161-194 | tearing a space down empties it and leaves every other space's view |
| PagingLifecycle.DestroyKeeps | kernel/arch/address_space.c:223-240 | only the last user takes the space away; no other space sees a difference |
| ForkRefinement.CloneCowKeeps | kernel/arch/address_space.c:537-679 | fork gives the child exactly what the parent sees and changes nobody's view; a fork that fails part-way changes no view |
| ForkRefinement.ExecRefines | kernel/arch/address_space.c:537-765 | every operation refines the machine whose forks copy every page |
| ForkRefinement.CopyOnWriteIsInvisible | kernel/arch/address_space.c:537-765 | so does every run: any tree of forks, stores, faults, failures and exits |
| EagerClone.CloneKeeps | kernel/arch/address_space.c:435-514 | the full copy gives the child the parent's view with copy-on-write pages read-only, and a copy that fails part-way changes nothing |
| EagerClone.CloneIsExact | kernel/arch/address_space.c:435-514 | the child's view is the parent's if and only if the parent has no copy-on-write page |
| EagerClone.CopiedReadOnly | kernel/arch/address_space.c:486-507 | a copy-on-write page, which the parent may write, is read-only in the copy |
| EagerClone.FullRunIsEager | kernel/arch/address_space.c:435-514 | a kernel that forks by full copies only meets no copy-on-write page, and every run of it is a run of the machine above |
| EagerClone.CopyOnWriteIsFullCopy | kernel/arch/address_space.c:435-765 | the kernel with copy-on-write forks and the kernel with full copies, started alike and reporting the same results: after any run every space sees the same in both |
| HeapBreak.SetBrkKeeps | kernel/arch/address_space.c:370-416 | exactly the pages between old and new break appear as zeroes or go; failure beyond the heap changes nothing, failure for lack of frames keeps the break and the pages mapped so far |
| BreakBytes.SetBrkInBytes | kernel/arch/address_space.c:370-416 | in bytes: the new break is the first page boundary at or past the request, each page that starts below the request is there, the new ones as writable zeroes, and none above; the call fails if and only if the request lies beyond the heap or there are fewer free frames than new pages and missing tables; then no page below the break changed |
| BreakBytes.BreakCovers | kernel/arch/address_space.c:374-376 | after a success every address asked for lies below the break if and only if rounding did not wrap, and the break is less than a page past the request or the heap's base |
| BreakBytes.TwoFramesEach | kernel/arch/address_space.c:378-388 | two free frames a page are enough for any growth within the heap |
| BreakBytes.NewBreak | kernel/arch/address_space.c:100-125 | the heap of a new space is empty and ends where the heap begins |
| BreakBytes.FirstBreak | kernel/arch/address_space.c:370-416 | after the first call in a new space every address asked for reads as zero and may be written |
| BreakBytes.ForkBreak | kernel/arch/address_space.c:512-666 | both forks give the child the parent's break and leave the parent its own |
| BreakBytes.HeapStaysThere | kernel/arch/address_space.c:370-416 | if every page of the heap up to the break is there and writable, so it is after any call, successful or not |
| BreakBytes.HeapThereInChild | kernel/arch/address_space.c:537-670 | and in the child of a fork |
| FrameBudget.RunAffords | kernel/arch/address_space.c:100-765 | a run that starts with as many free frames as it may take, worked out from what the spaces show at the start, never runs out: every result is the expected one |
| FrameBudget.FullRunAffords | kernel/arch/address_space.c:435-514 | the same for the kernel that forks by full copies |
| FrameBudget.CannotBeTold | kernel/arch/address_space.c:435-765 | so the two kernels, started alike with that many free frames, report the same results and show every space the same |
| HeapBreak.BreakAgain | kernel/arch/address_space.c:370-390 | after a call that failed everything can be asked for that could be before |
| HeapBreak.RetriedBreak | kernel/arch/address_space.c:370-390 | a growth that failed, repeated with success for as much or more, shows what one successful call would have shown |
| HeapBreak.SetBrkIsRun | kernel/arch/address_space.c:370-416 | a call is a run of one-page operations, so the results about runs cover it |
| FrameAccounting.CreateLosesFrame | kernel/arch/address_space.c:105-110 | with one free frame creation fails, the free list is empty afterwards and the frame is nobody's |
| FrameAccounting.ExecStrays | kernel/arch/address_space.c:100-765 | an operation makes a frame stray if and only if it creates or forks a space with heap memory at hand and one frame free, and then that frame; or it maps a page, with a frame free, or puts a guard over a page of the space's own, and then that page's frame |
| FrameAccounting.CloneStrays | kernel/arch/address_space.c:435-514 | the full-copy fork loses a frame on the same condition and on no other |
| FrameAccounting.RunStrays | kernel/arch/address_space.c:100-765 | over every run the stray frames are those at the start and one for each such operation; none comes back |
| FrameAccounting.NothingLost | kernel/arch/address_space.c:100-765 | a run loses no frame if and only if no operation of it meets one of those conditions |
| FrameAccounting.SetBrkStrays | kernel/arch/address_space.c:370-416 | moving the break loses exactly the frames of the pages it meets above the break, as far as it gets |
| FrameAccounting.FramesAddUp | kernel/core/pmem.c:100-161 | free frames, mapped frames, table pages and stray frames are disjoint and together the whole pool |
| ForkRefinement.StoreFailsOnlyWithoutFrames | kernel/arch/address_space.c:702-765 | a store succeeds if and only if it would in that machine and either nothing must be copied or a frame is free |
| ForkRefinement.InitialState | kernel/core/pmem_refcount.c:59-82 | with no spaces and zeroed counts the invariant holds |
| AddressSpaces.Kernel.AllocPage | kernel/core/pmem.c:100-111 | the free list threaded through the frames gives its head, zeroed |
| AddressSpaces.Kernel.FreePage | kernel/core/pmem.c:149-161 | the frame becomes the head, the link in its first word |
| AddressSpaces.Kernel.RefcountShare | kernel/core/pmem_refcount.c:96-108 | 0 becomes 2, any other count goes up by one |
| AddressSpaces.Kernel.RefcountDec | kernel/core/pmem_refcount.c:110-117 | the count goes down unless it is 0 |
| AddressSpaces.Kernel.DecAndFreePage | kernel/core/pmem_refcount.c:119-136 | the frame is freed exactly when the count says this was the last holder |
| AddressSpaces.Kernel.CreateSpace | kernel/arch/address_space.c:100-159 | computes the creation function |
| AddressSpaces.Kernel.MapFreshPage | kernel/arch/address_space.c:378-388 | computes the mapping function |
| AddressSpaces.Kernel.InstallGuardPage | kernel/arch/address_space.c:316-328 | computes the guard function |
| AddressSpaces.Kernel.SetBreak | kernel/arch/address_space.c:370-416 | the growing and the shrinking loop compute the break function |
| AddressSpaces.Kernel.DropPage | kernel/arch/address_space.c:161-194 | computes the drop function |
| AddressSpaces.Kernel.TeardownUserRange | kernel/arch/address_space.c:161-194 | the loops over tables and entries compute the teardown function |
| AddressSpaces.Kernel.DestroySpace | kernel/arch/address_space.c:223-240 | computes the destroy function |
| AddressSpaces.Kernel.CopySpace | kernel/arch/address_space.c:435-514 | the nested walk computes the full-copy function, undoing a partial child on failure |
| AddressSpaces.Kernel.CloneSpace | kernel/arch/address_space.c:537-679 | the nested walk computes the fork function, undoing a partial child on failure |
| AddressSpaces.Kernel.HandleCowFault | kernel/arch/address_space.c:702-765 | computes the fault function |
| AddressSpaces.Kernel.MakePageWritable | kernel/arch/address_space.c:779-800 | computes the make-writable function |
| VaRanges.TakeFits | kernel/arch/address_space.c:1084-1100 | the scan picks the first of the smallest ranges that fit, or none fits |
| VaRanges.TrimKeeps | kernel/arch/address_space.c:1101-1112 | taking removes exactly those pages and keeps the list sorted and coalesced |
| VaRanges.ReleaseKeeps | kernel/arch/address_space.c:1128-1172 | releasing adds exactly those pages, merged with every neighbour; they are lost only without heap memory and without a neighbour |
| VaRanges.ReleaseUndoesTake | kernel/arch/address_space.c:1223-1240 | a release right after a take restores the list, unless an exact fit meets a full heap |
| WindowVa.MmapKeeps | kernel/arch/address_space.c:833-923 | a new mmap takes pages that belonged to nobody; it fails exactly when empty, out of heap, or past the end of the region with the length its 64-bit product leaves |
| WindowVa.MunmapKeeps | kernel/arch/address_space.c:925-965 | the first mmap that starts there goes and nothing else; of all that start there only the first has pages |
| WindowVa.VmaFindIs | kernel/arch/address_space.c:821-828 | the scan that stops early still finds the mmap that contains the page, exactly when there is one |
| WindowVa.ReserveKeeps | kernel/arch/address_space.c:1186-1193 | a reservation takes unclaimed pages from a free range, or fresh ones when no range is large enough |
| WindowVa.InstallKeeps | kernel/arch/address_space.c:1174-1250 | mmaps, windows and free ranges stay disjoint below the bump pointer; a success adds exactly its pages; it succeeds if and only if there are pages, all can be mapped, and a free range or the rest of the region is large enough |
| WindowVa.InstallUndone | kernel/arch/address_space.c:1217-1240 | a failed install restores the state, if and only if the reused range can be tracked again |
| WindowVa.UninstallKeeps | kernel/arch/address_space.c:1252-1304 | a window goes as a whole or not at all, and its pages are free for reuse |
| WindowVa.FreshInv | kernel/arch/address_space.c:117-126 | a new address space satisfies the partition |
| WindowVa.FreshBalanced | kernel/arch/address_space.c:117-126 | and starts the runs of the next row |
| WindowVa.NoLeak | kernel/arch/address_space.c:1067-1073 | over any run with windows of one size, mmaps in between and no failure, addresses taken from the bump pointer are the peak number of windows times the size, plus the mmaps |
| RangeLists.RangeList.Take | kernel/arch/address_space.c:1084-1112 | scan and relinking on the linked list compute best fit and trim |
| RangeLists.RangeList.Release | kernel/arch/address_space.c:1128-1172 | the four cases on the linked list compute the merge |
| RangeLists.RangeList.InsertSorted | kernel/arch/address_space.c:812-818 | the sorted insertion, by pointer |
| RangeLists.RangeList.Remove | kernel/arch/address_space.c:929-934 | unlinks the first entry with that address |
| RangeLists.RangeList.Find | kernel/arch/address_space.c:821-828 | computes the find function |
| RangeLists.AddressRanges.Map | kernel/arch/address_space.c:857-923 | bump pointer and list after a mmap, rolled back without heap memory |
| RangeLists.AddressRanges.Unmap | kernel/arch/address_space.c:925-965 | computes the munmap function on addresses |
| RangeLists.AddressRanges.InstallWindow | kernel/arch/address_space.c:1174-1250 | page by page, with the rollback, computes the install function |
| RangeLists.AddressRanges.UninstallWindow | kernel/arch/address_space.c:1252-1304 | check all pages, then clear them, then release the range |
| PageCache.VictimIs | kernel/core/page_cache.c:97-110 | there is no victim if and only if every slot is in use and each with count 0 carries the largest stamp; else it is the first empty slot, or, if none is empty, the first of smallest stamp among those with count 0 |
| PageCache.UnmapKeeps | kernel/core/page_cache.c:211-222 | dropping a descriptor lowers the count of its slot and frees nothing |
| PageCache.FaultKeeps | kernel/arch/address_space.c:1023-1040 | a fault maps a frame with the file's page, or changes no mapping |
| PageCache.FaultSucceeds | kernel/arch/address_space.c:1006-1040 | a fault succeeds if and only if the page is not mapped, the offset is a page's, a table page can be had, and the page is cached or the file exists and there is a slot with a frame for it |
| PageCache.FaultPlaces | kernel/core/page_cache.c:112-208 | a cached page is mapped where it lies; any other goes into the victim's slot, into the victim's frame or the first free one, and the other slots stay |
| PageCache.FaultIsNewest | kernel/core/page_cache.c:112-208 | until the clock wraps, a fault gives its slot the largest stamp of all |
| PageCache.InitialInv | kernel/core/page_cache.c:53-69 | the empty cache satisfies the invariant |
| PageCache.MappedPagesAgree | kernel/core/page_cache.c:112-222 | over any run every mapped page shows the file's bytes at its offset, zeroes past the end, in a frame that is neither free nor used elsewhere; every count is the number of descriptors on its frame |
| PageCacheTable.Table.FindSlot | kernel/core/page_cache.c:73-81 | the scan computes the lookup by key |
| PageCacheTable.Table.PickVictim | kernel/core/page_cache.c:97-110 | the scan computes the victim |
| PageCacheTable.Table.GetOrLoad | kernel/core/page_cache.c:112-209 | with its second lookup and second pick, computes the load function |
| PageCacheTable.Table.CopyIn | kernel/arch/address_space.c:973-989 | the loader's copy gives the file's page, zero past the end |
| PageCacheTable.Table.Release | kernel/core/page_cache.c:211-222 | computes the release function |
| HeapSpec.NeedIs | kernel/core/heap.c:118-120 | the rounded request is the smallest multiple of 16 that is at least the size plus 16, and at least 32 |
| HeapSpec.NeedSuffices | kernel/core/heap.c:115-120 | it holds header and payload if and only if the size is at most 2^64 - 32; any larger size wraps around to the smallest block |
| HeapSpec.MallocLive | kernel/core/heap.c:113-152 | kmalloc adds exactly the block it returns to the live ones, at least the bytes asked for and fewer than 48 more, and keeps the row tiled and coalesced |
| HeapSpec.FreeLive | kernel/core/heap.c:154-189 | kfree removes exactly that block, and keeps the row tiled and coalesced |
| HeapSpec.LiveDisjoint | kernel/core/heap.c:113-189 | live payloads are disjoint and inside the heap |
| HeapSpec.MallocComplete | kernel/core/heap.c:113-152 | kmalloc refuses if and only if the request is empty or every gap between live blocks has fewer bytes than size plus 16, or than 32 |
| HeapSpec.NothingLive | kernel/core/heap.c:154-189 | with nothing live the heap is one free block of the original size |
| HeapSpec.RunKeeps | kernel/core/heap.c:98-189 | after any run the live blocks are those on the ledger; once all are freed, in any order, the heap is one block |
| Heap.KernelHeap.constructor | kernel/core/heap.c:98-111 | the region becomes one free block |
| Heap.KernelHeap.Kmalloc | kernel/core/heap.c:113-152 | the walk over headers in memory computes first fit and split, and changes no word of any live payload |
| Heap.KernelHeap.Kfree | kernel/core/heap.c:154-189 | the header updates compute both coalescings and change no word of any other live payload; a pointer outside the heap halts |
| RecursiveLock.StepKeeps | kernel/arch/spinlock.h:75-187 | every step of every processor keeps the invariant, whatever the others are in the middle of |
| RecursiveLock.Protocol | kernel/arch/spinlock.h:75-187 | over every interleaving: at most one processor inside, depth is its nesting, the fast path is taken only by the gate's holder, the interrupt mask is restored, a closed gate has a holder |
| RecursiveLock.OpenGateAdmits | kernel/arch/spinlock.h:75-172 | with the gate open, a processor that calls lock and runs alone is inside after six steps |
| RecursiveLock.OwnerLocksAgain | kernel/arch/spinlock.h:146-164 | the one inside gets in again in four steps, without the gate |
| RecursiveLock.OuterUnlockOpens | kernel/arch/spinlock.h:174-187 | an outermost unlock opens the gate in six steps and gives the processor its own mask back |
| RecursiveLock.InnerUnlockStays | kernel/arch/spinlock.h:174-187 | an inner one leaves it inside, one level up |
| Pipe.PipeIsFifo | kernel/core/pipe.c:56-156 | over any interleaving bytes come out in order and none is lost; a call returns what it moved and a failed one moved nothing |
| Pipe.StreamEnds | kernel/core/pipe.c:64-92 | over any interleaving a read of a nonempty buffer returns 0 only if at some moment the ring was empty and no writer left, and then none comes back |
| Pipe.ReadEnds | kernel/core/pipe.c:56-109 | over any interleaving, when a read of a nonempty buffer returns: a positive result is the smaller of its length and the bytes in the ring, which were the oldest; any other met an empty ring, and was 0 without writers, or an interruption, or a deadline passed with a writer left |
| Pipe.WriteEnds | kernel/core/pipe.c:116-156 | a write returns its whole length, or less only if at that moment no reader was left, or the ring was full and its deadline had passed; the errors mean that nothing was written |
| Pipe.NewPipe | kernel/core/pipe.c:21-31 | a new pipe, before any call moved a byte, starts such runs |
| Pipe.Ring.Drain | kernel/core/pipe.c:95-100 | the wrapping copy loop takes the oldest bytes |
| Pipe.Ring.Fill | kernel/core/pipe.c:143-150 | the wrapping copy loop appends |
| Pipe.Ring.Read | kernel/core/pipe.c:56-109 | a read up to its next blocking point computes the read step |
| Pipe.Ring.Write | kernel/core/pipe.c:116-156 | one turn of the write loop computes the write step |
| Pipe.Ring.UnrefReader | kernel/core/pipe.c:33-49 | the reading end is closed, and the pipe freed exactly when both ends are |
| Pipe.Ring.UnrefWriter | kernel/core/pipe.c:33-49 | the end is closed and the pipe freed exactly when both are |
| InitStack.VectorReadsBack | kernel/core/elf.c:165-180 | at the initial stack pointer, a multiple of 16 inside the page, the program reads argc, and after the pointers a null and an empty environment |
| InitStack.ArgumentReadsBack | kernel/core/elf.c:146-180 | each argument pointer lies past the vectors and leads to exactly that argument |
| InitStack.BuildUserInitStack | kernel/core/elf.c:105-181 | the loops build that page, or fail and leave it alone exactly when the arguments do not fit |
| InitStack.FitsExactly | kernel/core/elf.c:105-145 | they fit if and only if there are at most 64 and they with their NULs, a pointer for each, and three words more take at most 4096 bytes |
| InitStack.Le64Bytes | kernel/core/elf.c:165-180 | the words of the frame are stored least significant byte first |
| ElfImage.LoadPagesKeeps | kernel/core/elf.c:213-261 | loading a segment shows its bytes on its pages and changes no other page |
| ElfImage.ByteIsWinners | kernel/core/elf.c:208-262 | every byte of a segment comes, in the end, from where the last segment on its page has it |
| ElfImage.SegmentsReadRight | kernel/core/elf.c:183-312 | for page-disjoint segments a load that succeeds makes every byte of every segment read as file data, then zeroes |
| ElfImage.ProgramImage | kernel/core/elf.c:183-312 | the same from the file's own headers, through the whole loader |
| ElfImage.SharedPages | kernel/core/elf.c:208-262 | for headers that load: every segment reads right whatever the file holds, if and only if segments on one page agree where in the file each of its addresses is |
| ElfFrames.LoadSucceeds | kernel/core/elf.c:183-312 | headers in the user range load if two frames are free for each of their pages and each stack page, and one more, and the arguments fit |
| ElfFrames.SpoiledPage | kernel/core/elf.c:208-262 | two such headers, loaded from a file with a 1 for the first byte of the first segment: the program reads 0 there |
| ElfFrames.LoadLoses | kernel/core/elf.c:208-300 | whether it succeeds or fails, a load leaves in no place exactly the frame whose mapping failed and those of the entries written over |
| ElfFrames.LosesNothingExactly | kernel/core/elf.c:208-300 | a load into an empty space that succeeds loses no frame if and only if no two segments share a page |
| ElfImage.LoadedStack | kernel/core/elf.c:269-312 | after a load entry point and stack pointer are set, the top page is the first frame, the rest of the stack is zero and the page below faults |
| ElfFile.RefusedExactly | kernel/core/elf.c:189-204 | a file is refused for its header if and only if it is shorter than 64 bytes or one of magic, class, byte order, type and machine is wrong |
| ElfFile.HeaderReads | kernel/core/elf.c:42-57 | from a header laid out field by field the loader reads exactly the entry point and the place, entry size and count of the table |
| ElfFile.FieldsRead | kernel/core/elf.c:42-68 | and from the table exactly type, offset, address and the two sizes of each program header |
| ElfFile.WriteIsElf | kernel/core/elf.c:42-68 | header, table and contents written one after another are such a file |
| ElfFile.FileLoaded | kernel/core/elf.c:183-313 | a load that succeeds starts at the file's entry point, and with page-disjoint segments every address of every program header reads as the file's byte at its offset, then zero |
| ElfFile.FileLoads | kernel/core/elf.c:183-313 | a file with a wrong field is refused without effect; else it loads when its segments lie in the user range, the arguments fit and frames are at hand |
| ElfLoader.ProcessLoader.CopyBytes | kernel/core/elf.c:235-245 | the guarded byte loop fills the page |
| ElfLoader.ProcessLoader.LoadSegment | kernel/core/elf.c:213-261 | the page loop computes the segment function, with each failure |
| ElfLoader.ProcessLoader.LoadAll | kernel/core/elf.c:206-267 | the loop over program headers computes the loading function; it fails when no segment has pages |
| ElfLoader.ProcessLoader.LoadUserImage | kernel/core/elf.c:183-313 | the whole loader, header checks included |

## Left out

- FsHandles.WriteNumber: `offset + len` is an unbounded sum, so a request that wraps past 2^64 is not modelled.
- PathStrings.WalkStringIs: not for a path of two or more slashes and nothing else, on which the code reads a buffer it has not written.
- FileSystem.Osfs2.Init: starts once the journal is replayed, which `Journal.Log.Replay` models; the driver object keeps inode records and bitmaps as values, and `StoredFs.UpdateStored` says what each change of them writes. Blocks are read and written as through a cache that does not fail, which is what the cache results provide.
- OnDisk.InodeRoundTrip: record types are 0, 1 and 2; what the kernel does with a record of another type is not modelled.
- FsBlocks.Owned: one-sided, because a write that runs out of space can leave its new indirect block marked but unreachable, as the code does.
- FsHandles.HandlesRun: truncation in runs is to 0, as unlinking and opening ask for; `FsHandles.TruncateAnyNumber` is for every size.
- FsRuns.RunGood: looks every path up again on each call, as do the other runs by path; `FsHandles.HandlesRun` is for numbers that callers keep.
- CrashMount.RequestsThenCrash: assumes no I/O error, like the crash results it rests on.
- Journal.Log.Commit: the crash results assume no I/O error; after a failed third step the header stays committed.
- CacheEpoch.EpochAtomicity: assumes no I/O error and fewer than 2^64 operations since boot, so that the clock does not wrap.
- ImageBuilder.Image.constructor: bitmaps, inode table and directory are kept as values while files are laid out, and `ImageBuilder.FormatImageFile` packs them at the end; the script packs each as it goes.
- ImageBuilder.Image.Add: the same.
- ImageBuilder.FormatFiles: the same.
- ForkRefinement.CopyOnWriteIsInvisible: fewer than 65536 spaces; no page is written over whose frame is shared, on which the code breaks its counts (`PagingLifecycle.ReplaceExact`); page-cache and window descriptors go into empty entries; page-cache and window pages are skipped by fork and not otherwise followed here.
- FrameAccounting.RunStrays: the runs of `ForkRefinement`; for the frames of a program load see `ElfFrames.LoadLoses`.
- EagerClone.CopyOnWriteIsFullCopy: compares runs that report the same results, because full copies run out of frames earlier; `FrameBudget.CannotBeTold` says how many free frames make them.
- HeapBreak.SetBrkKeeps: growth over pages that a failed growth left, if a fork shared them in between, is outside; `PagingLifecycle.ReplaceExact` says what becomes of the counts.
- AddressSpaces.Kernel.TeardownUserRange: drops entries of page-cache pages without the call to `page_cache_release`, which `PageCacheTable.Table.Release` models.
- ElfImage.SegmentsReadRight: headers and segment bytes lie in the file, which the code does not check; permissions are the same for all pages and are not modelled.
- WindowVa.MunmapKeeps: addresses only; the loop that drops the pages of the range is the shrinking loop in `HeapBreak` and, for file pages, `PageCache.UnmapKeeps`.
- RangeLists.AddressRanges.Unmap: the same.
- RangeLists.AddressRanges.InstallWindow: page-table memory is abstract (mapping page n may fail), and windows have fewer than 2^52 pages.
- RangeLists.AddressRanges.UninstallWindow: descriptors are a set of window pages.
- PageCacheTable.Table.GetOrLoad: one call at a time; the stretches without the lock are not modelled, and neither are file indexes above 24 bits.
- RecursiveLock.Protocol: matched lock and unlock calls, masks given back innermost first, and no interrupt handler that takes the lock.
- Heap.KernelHeap.Kfree: frees of pointers inside the heap that kmalloc did not return are the caller's error.
- The statistics counters, `osfs2_cache_invalidate`, `kheap_used`, `kheap_block_count`, `osfs2_listdir_at`, `osfs2_size`.
- `pmem_init` and `pmem_alloc_contig`.
- Device drivers, scheduler, network, window manager, VFS and system calls.
