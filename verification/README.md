# Luma3DS core algorithms in Dafny

This project models the parts of the Luma3DS firmware that carry the most state and arithmetic, and proves properties of the
models. `dafny verify dfyconfig.toml` checks all of it.

The main part is the FAT file system engine of the ARM9, as its configuration file sets it up: FAT12, FAT16 and FAT32, 512-byte
sectors, a private buffer for each file, long names. It is built in layers, each of which is proved against a simpler view of
itself:

| layer | modules | refines |
|---|---|---|
| block device that may fail any transfer | `FatDisk` | a sequence of sectors |
| one-sector write-back window, mirrored to the second FAT | `FatVolume` | the disk as the driver sees it |
| FAT entries packed at 12, 16 or 32 bits | `FatEntry`, `FatVolume` | an array of numbers |
| cluster allocator | `FatChains`, `FatAllocator`, `FatRuns` | a set of disjoint chains and a free count |
| free count on disk | `FatInfo` | two numbers that survive a sync and a mount |
| open file: reading, writing, seeking | `FatFileMap`, `FatFileBytes`, `FatFile` | a sequence of bytes and a position |

`FatGeometry` is the computation of the regions at mount time that all of this rests on, and `FatBlankVolume` builds a state in
which all of the invariants hold. Every disk transfer may fail, with a counter of faults that the contracts refer to: an error
is only returned after a fault, or in the cases the contract names.

The other parts stand on their own: the directory names (`LongName`) and the wildcard matcher (`PatternMatch`) of the same
file system; the in-place firmware decompressor and the format of its streams (`Lzss`, `LzssFormat`); the AES driver and the
encrypted NAND access over an uninterpreted block cipher (`AesCounter`, `AesDriver`, `CtrNand`; the modes are those of NIST SP
800-38A, sections 6.1, 6.2 and 6.5); the page-table rewriter of the kernel extension (`PageTable`; the descriptor formats are
those of the ARM Architecture Reference Manual DDI 0100I, section B4.7); the pattern search (`Horspool`); the mailbox between
the two processors (`Mailbox`), as a state machine over every interleaving; the lock bits of threads (`ThreadLocks`); the
session table (`SessionTable`); number printing and parsing (`NumberText`); and the two cyclic redundancy checks (`Crc`;
section 8 of RFC 1952 has the second).

Where the code falls short of what one would want of it, the exact condition is proved: region sizes that wrap at mount time
(`FatGeometry.MountLayout`), patterns of more than four wildcard runs or with a run of 256 or more question marks
(`PatternMatch.RightIff`), sectors on both sides of a 4 GiB boundary (`CtrNand.RangeReadsBack`, `CtrNand.Nand.WriteRead`), a
supersection with bit 15 set (`PageTable.SupersectionsKeepApx`), READY in the mailbox beforehand (`Mailbox.SafeIffNotReady`), an
FSInfo rewrite on a FAT32 volume with one reserved sector (`FatInfo.SyncedEntries`, `FatInfo.SyncFs`), removal of an absent
session (`SessionTable.RemoveDeletesIff`), and fields with padding spaces (`NumberText.DecRoundTrip`, `NumberText.HexRoundTrip`).

Reading guide: `hide` at the head of a body keeps definitions that a proof does not need from the verifier, for speed. A ghost
function of a class gives the abstract value (`Entries`, `Content`, `Contents`, `Masks`), `Valid` its invariant.

## Model

| member | source | states |
|---|---|---|
| `Bytes.DwordRoundTrip` | arm9/source/fatfs/ff.c:627-671 | A dword stored byte by byte, least significant first, loads back as the value modulo 2^32 |
| `Bytes.WordRoundTrip` | arm9/source/fatfs/ff.c:618-668 | A word stored byte by byte loads back as the value modulo 2^16 |
| `Bytes.LoadedBytes` | arm9/source/fatfs/ff.c:618-638 | Words and dwords are loaded least significant byte first: each byte of the number is the one at its place |
| `FatGeometry.MountLayout` | arm9/source/fatfs/ff.c:3512-3561 | For every boot sector that mounts, the regions lie in order below LBA 2^32, the FAT holds every entry and the data ends within the volume, exactly when the region sizes of the boot sector do not pass 2^32 sectors |
| `FatGeometry.WrappingMountExample` | arm9/source/fatfs/ff.c:3512-3561 | A boot sector whose FAT area wraps around 32 bits mounts, and its data area then overlaps its FATs |
| `FatGeometry.LastEntryFits` | arm9/source/fatfs/ff.c:3553-3561 | The last FAT entry ends within the number of bytes the mount asks of the FAT, also when it is half of a byte |
| `FatGeometry.MountFacts` | arm9/source/fatfs/ff.c:3512-3561 | What the checks of a successful mount leave: the cluster count lies between both limits of the FAT type, which it therefore decides, the FAT holds the last entry, the cluster size is a power of two, and so on |
| `FatGeometry.MountsIff` | arm9/source/fatfs/ff.c:3512-3561 | A boot sector mounts to a volume exactly if its fields describe that volume: legal sector, cluster, FAT and directory sizes, a cluster count in the range of the FAT type, FATs that hold an entry of 12, 16 or 32 bits for each cluster and two more, and the regions one behind the other; otherwise it does not mount |
| `FatGeometry.BpbBytes` | arm9/source/fatfs/ff.c:3512-3553 | Where each field of the parameter block is in the boot sector, byte by byte |
| `FatFileMap.ClstToSectIsFirst` | arm9/source/fatfs/ff.c:1144-1152 | For every valid cluster the computed first sector is the arithmetical one and never the error value 0 |
| `FatFileMap.NoSectorOutside` | arm9/source/fatfs/ff.c:1144-1152 | The value 0 is computed exactly for the cluster numbers that are not valid |
| `FatFileMap.FirstInData` | arm9/source/fatfs/ff.c:1144-1152 | The sectors of a valid cluster lie in the data area |
| `FatFileMap.ClustersDisjoint` | arm9/source/fatfs/ff.c:1144-1152 | Distinct clusters have distinct sectors |
| `FatEntry.PutGet` | arm9/source/fatfs/ff.c:1161-1288 | Storing an entry and reading any entry of the packed FAT: the one stored gives the value cut to 12, 16 or 28 bits, every other one gives what it gave, also where FAT12 entries share a byte, and the top four bits of FAT32 entries stay |
| `FatEntry.EntryBytes` | arm9/source/fatfs/ff.c:1161-1229 | Where the bits of an entry are in the FAT, byte by byte, for 12, 16 and 28 bits and the reserved bits |
| `FatEntry.EndOfChainBeyond` | arm9/source/fatfs/ff.c:1178-1200 | Every end-of-chain mark of the FAT type, and the mark of a bad cluster, reads back at or beyond the number of entries, and what the driver stores at the end of a chain is such an end mark |
| `FatVolume.Volume.SyncWindow` | arm9/source/fatfs/ff.c:1055-1073 | Writing back the window changes nothing of the disk as the driver sees it but the second FAT; without a fault the window comes out clean and a good mirror stays good |
| `FatVolume.Volume.MoveWindow` | arm9/source/fatfs/ff.c:1077-1098 | Moving the window loses no byte: the disk as the driver sees it is unchanged outside the second FAT, and the window shows the sector asked for |
| `FatVolume.Volume.MirrorIsCopy` | arm9/source/fatfs/ff.c:1062-1067 | With a clean window and a good mirror the second FAT is sector for sector the first |
| `FatVolume.Volume.GetFat` | arm9/source/fatfs/ff.c:1161-1229 | Returns the entry of the FAT array, the error value 1 for numbers outside it, or a disk error after a fault, through a window whose place is arbitrary |
| `FatVolume.Volume.PutFat` | arm9/source/fatfs/ff.c:1239-1288 | Updates exactly one element of the FAT array, masked to the width of the type; sectors outside the FATs and top bits stay; even after a fault no other element changes |
| `FatVolume.Volume.PutFat12` | arm9/source/fatfs/ff.c:1252-1264 | The FAT12 store, whose two bytes may lie in two sectors |
| `FatVolume.Volume.PutFat32` | arm9/source/fatfs/ff.c:1273-1284 | The FAT32 store, which keeps the four reserved bits |
| `FatVolume.TornInArray` | arm9/source/fatfs/ff.c:1252-1264 | A FAT12 store that fails between its two sectors spoils no entry but its own |
| `FatChains.ChainAcyclic` | arm9/source/fatfs/ff.c:1445-1515 | A chain that reaches an end mark visits no cluster twice |
| `FatChains.NewChain` | arm9/source/fatfs/ff.c:1600-1604 | Marking a free cluster as an end adds a one-cluster chain to the partition of the FAT into chains and leaves all others |
| `FatChains.JoinChains` | arm9/source/fatfs/ff.c:1600-1604 | Linking that chain to the end of another joins the two |
| `FatChains.CutChain` | arm9/source/fatfs/ff.c:1447-1451 | Marking a predecessor as an end cuts its chain in two |
| `FatChains.DropChain` | arm9/source/fatfs/ff.c:1453-1486 | Zeroing the entries of one chain removes that chain from the partition and no other |
| `FatChains.FreeWalkOfChain` | arm9/source/fatfs/ff.c:1453-1486 | The walk of the removal loop, on a chain, frees exactly the clusters of the chain |
| `FatChains.FreeWalkZeroes` | arm9/source/fatfs/ff.c:1453-1486 | The walk of the removal loop on any FAT, cyclic or damaged ones included, only zeroes entries: it starts at its first cluster, goes on wherever a zeroed entry led, and fails only at a cluster with the link 1 |
| `FatAllocator.FindFree` | arm9/source/fatfs/ff.c:1575-1599 | The wrap-around scan looks at no cluster twice, returns a free one, and returns 0 only if there is none |
| `FatAllocator.CreateChain` | arm9/source/fatfs/ff.c:1524-1615 | What stretching or starting a chain does to the FAT array, the free count and the last-allocated hint, in each of its outcomes, and which cluster it takes |
| `FatAllocator.RemoveChain` | arm9/source/fatfs/ff.c:1429-1515 | What removing a chain, or its tail, does to the FAT array and the free count, in each of its outcomes |
| `FatAllocator.FreeFrom` | arm9/source/fatfs/ff.c:1453-1486 | The removal loop computes the walk, and ends on every FAT |
| `FatRuns.CreateKeepsChains` | arm9/source/fatfs/ff.c:1524-1615 | A creation takes one free cluster to the end of one chain, or returns the successor the chain has, and keeps every other chain and an exact free count |
| `FatRuns.RemoveKeepsChains` | arm9/source/fatfs/ff.c:1429-1515 | A removal frees exactly the suffix of one chain and keeps every other chain and an exact free count |
| `FatRuns.RunKeepsSound` | arm9/source/fatfs/ff.c:1429-1615 | In every state of every run of creations and legal removals the FAT is a partition into disjoint acyclic chains and a known free count is the number of zero entries |
| `FatAllocator.ChooseFree` | arm9/source/fatfs/ff.c:1573-1599 | A stretch takes the next cluster if it is free; otherwise the choice is the first free cluster after the last one allocated, going around |
| `FatInfo.SyncThenMount` | arm9/source/fatfs/ff.c:1108-1133 | A sync followed by a mount of the same disk from its boot sector: without a fault the volume comes back, with the FAT that the sync leaves, and, when FSInfo is in use, with the free count and the last cluster allocated, so that an exact count stays exact |
| `FatInfo.SyncFs` | arm9/source/fatfs/ff.c:1108-1133 | A sync writes back the window and FSInfo and leaves FSInfo current; it changes no FAT entry if FSInfo is not rewritten or there are two reserved sectors, and otherwise, without a fault, entry 2 stays exactly if it was free |
| `FatInfo.LoadInfo` | arm9/source/fatfs/ff.c:3564-3584 | The end of a mount takes the two numbers from a signed FSInfo sector of a FAT32 volume that names one, and otherwise takes them as unknown |
| `FatInfo.Mount` | arm9/source/fatfs/ff.c:3512-3590 | Without a fault a mount succeeds exactly if the boot sector passes the checks; it leaves the disk as it was, and a volume that shows the disk, with no pending write and the numbers of its FSInfo sector |
| `FatInfo.InfoRoundTrip` | arm9/source/fatfs/ff.c:1119-1124 | The sector stored carries the signatures and gives back the two numbers |
| `FatInfo.SignatureBytes` | arm9/source/fatfs/ff.c:1119-1124 | The signatures of the sector, byte by byte |
| `FatInfo.InfoBytes` | arm9/source/fatfs/ff.c:1119-1124 | The two numbers of the sector, byte by byte, the zeros between, and the field of the boot sector that says that the sector is there |
| `FatInfo.AllocatorKeepsInfo` | arm9/source/fatfs/ff.c:1429-1615 | Allocation and removal keep FSInfo current, on every volume where it is not in use or has a sector of its own, and on the others as soon as a number changes |
| `FatInfo.SyncedEntries` | arm9/source/fatfs/ff.c:1116-1126 | A sync keeps entry 2 of the FAT exactly if it does not rewrite FSInfo, or there are two reserved sectors, or cluster 2 was free; in the first two cases it keeps every entry |
| `FatInfo.OneReservedSector` | arm9/source/fatfs/ff.c:1125-1126 | With a single reserved sector FSInfo is the first sector of the FAT, and there it says that cluster 2 is free |
| `FatFileMap.FileSectorsDistinct` | arm9/source/fatfs/ff.c:3937-4001 | No sector occurs twice in a file |
| `FatFileMap.OtherFilesDisjoint` | arm9/source/fatfs/ff.c:3937-4001 | Files without a common cluster have no common sector |
| `FatFileMap.RunInCluster` | arm9/source/fatfs/ff.c:3960-3965 | Sectors of a file run on consecutively inside a cluster, which is what a direct transfer relies on |
| `FatFileMap.ByteToCluster` | arm9/source/fatfs/ff.c:4521-4530 | A byte offset divided by the cluster size is the index of its cluster in the chain |
| `FatFileBytes.PatchOne` | arm9/source/fatfs/ff.c:4110-4119 | Bytes stored in one sector of a file patch the file there and nowhere else |
| `FatFileBytes.PatchRun` | arm9/source/fatfs/ff.c:4075-4095 | Whole sectors stored over a stretch of a file patch the file there and nowhere else |
| `FatFile.File.Read` | arm9/source/fatfs/ff.c:3914-4004 | Returns the bytes of the file from the position on, as many as asked for or as there are, across direct transfers and the dirty buffer, moves the position by that many, and changes no file |
| `FatFile.File.Write` | arm9/source/fatfs/ff.c:4014-4126 | Replaces exactly the bytes from the position on, growing the file if need be; what is written is all that was asked, or all up to position 2^32 - 1, or else the volume is full and the position is the end of the last cluster of the file; every other chain and its sectors stay |
| `FatFile.File.Seek` | arm9/source/fatfs/ff.c:4432-4586 | Moves exactly to the place asked for when the file may be written, or to the end of the last cluster of the file if the volume is full; moves to the smaller of that place and the size when it may not; every byte of the file stays, and the size grows only to the new position |
| `FatFile.File.OtherFileKept` | arm9/source/fatfs/ff.c:4014-4126 | After any of these calls every other chain is still there and its sectors hold what they held |
| `FatFile.File.CurrentCluster` | arm9/source/fatfs/ff.c:3937-4123 | Under the invariant that every file call keeps, the current cluster is the chain element that holds the byte before the position |
| `FatFile.WriteSeekRead` | arm9/source/fatfs/ff.c:3914-4586 | What is written at a position comes back from a seek to that position and a read, and the file is the old one patched; less than asked is written only up to position 2^32 - 1, or on a full volume up to the end of the last cluster of the file |
| `FatFile.File.constructor` | arm9/source/fatfs/ff.c:3853-3870 | The state in which an existing file is opened satisfies the invariant |
| `FatFile.File.FlushBuf` | arm9/source/fatfs/ff.c:4067-4070 | Writing back a dirty buffer changes no byte of the file |
| `FatFile.File.DirectTransfer` | arm9/source/fatfs/ff.c:4075-4095 | A direct write of whole sectors, with the buffer refreshed when it holds one of them |
| `FatFile.File.DirectRead` | arm9/source/fatfs/ff.c:3960-3977 | A direct read of whole sectors, with a dirty buffer laid over them |
| `FatFile.File.AdvanceForWrite` | arm9/source/fatfs/ff.c:4041-4063 | At a cluster boundary the current cluster becomes the next chain element, after stretching or starting the chain if need be; on a full volume the position is the end of the chain |
| `FatFile.File.AdvanceForRead` | arm9/source/fatfs/ff.c:3939-3956 | At a cluster boundary the current cluster becomes the next chain element |
| `FatFile.File.WalkChain` | arm9/source/fatfs/ff.c:4539-4561 | The walk of a seek arrives at the chain element that holds the target, or at the end of the chain on a full volume |
| `FatBlankVolume.NewFile` | arm9/source/fatfs/ff.c:3512-3870 | A boot sector of a blank FAT12 volume mounts, and the invariants of all the layers hold of a new file on it |
| `FatBlankVolume.FirstWrite` | arm9/source/fatfs/ff.c:4014-4126 | The first bytes written to a new file are its content and what reading it gives: all of them if they fit the three clusters of the volume, and otherwise as many as the clusters hold |
| `LongName.PutLfn` | arm9/source/fatfs/ff.c:1959-1984 | Makes the entry of a given order: its thirteen characters, terminator and filler, checksum and type, and the last-entry flag on the last order only |
| `LongName.PickLfn` | arm9/source/fatfs/ff.c:1921-1950 | Accepts exactly the well-formed entries that fit the buffer, and then puts their characters, and a terminator for a full last entry, and changes nothing else |
| `LongName.CmpLfn` | arm9/source/fatfs/ff.c:1885-1913 | Accepts exactly the well-formed entries whose characters equal those of the buffer up to case, and whose name ends where the buffer does if it is the last entry |
| `LongName.StoreLongName` | arm9/source/fatfs/ff.c:2525-2537 | Registering a long name makes its entries, the last order first |
| `LongName.StoreThenFind` | arm9/source/fatfs/ff.c:1885-1984 | A stored name is read back whole, and found by exactly the names equal to it up to case |
| `LongName.ReadLongName` | arm9/source/fatfs/ff.c:2340-2360 | Over the entries that were stored for a name, a directory read rebuilds the name and its terminator, whatever the buffer held |
| `LongName.FindLongName` | arm9/source/fatfs/ff.c:2419-2443 | Over the entries that were stored for a name, a directory search finds a match exactly when the names are equal up to case and the checksum is that of the short entry, whatever follows the terminator in the buffer |
| `LongName.AllAgreeIffSame` | arm9/source/fatfs/ff.c:1885-1913 | All entries agree with the buffer exactly when the two names are equal up to case |
| `LongName.ComparableIffAgrees` | arm9/source/fatfs/ff.c:1885-1913 | A stored entry is accepted exactly when its part of the name agrees with the buffer |
| `LongName.EntryShape` | arm9/source/fatfs/ff.c:1959-1984 | The order, flag, terminator and filler of each stored entry |
| `LongName.EntryBytes` | arm9/source/fatfs/ff.c:1959-1984 | A stored entry byte by byte: order and last-entry flag, type, checksum, and the places of the thirteen characters |
| `PatternMatch.FindMatches` | arm9/source/fatfs/ff.c:2793-2837 | A name matches exactly when the pattern has at most four wildcard runs and, all runs being short, the declarative glob holds of the case-folded name |
| `PatternMatch.Match` | arm9/source/fatfs/ff.c:2793-2837 | The recursive matcher with its packed skip count decides: at most the allowed runs, and the rest of the pattern at some place the count allows |
| `PatternMatch.NoLaterMatch` | arm9/source/fatfs/ff.c:2826-2834 | The search may stop at the end of the name: past it no start can match |
| `PatternMatch.RightIff` | arm9/source/fatfs/ff.c:2793-2837 | The test of a name is right about every name exactly when the pattern has at most four wildcard runs, each with fewer than 256 question marks |
| `PatternMatch.TooManyRuns` | arm9/source/fatfs/ff.c:2810-2830 | A pattern of five or more stars between letters does not match the letters alone, which it means |
| `PatternMatch.RunGlobIsGlob` | arm9/source/fatfs/ff.c:2817-2824 | With short runs, reading a run through its packed count is what its wildcards mean |
| `PatternMatch.PackedValue` | arm9/source/fatfs/ff.c:2817-2824 | What the packed count of a run comes to |
| `Lzss.Decompress` | arm9/source/firm.c:267-331 | For every complete stream whose output stays above its unread input, decoding in place leaves what decoding an untouched copy gives, changes nothing below or above it, and ends |
| `Lzss.Step` | arm9/source/firm.c:301-325 | One token decoded in place keeps the unread input and the output so far |
| `Lzss.CopyRun` | arm9/source/firm.c:303-316 | The byte-by-byte copy, overlapping itself or not, repeats the output at its offset |
| `Lzss.CopyBackOneMore` | arm9/source/firm.c:310-316 | Copying one byte more puts the byte at the offset in front |
| `LzssFormat.DecompressEncoded` | arm9/source/firm.c:267-331 | Decompressing the encoding of any bytes and copies in place, whatever the padding and the growth, gives exactly the bytes they stand for and leaves all else, as long as the output stays clear of unread input |
| `LzssFormat.ParseEncoded` | arm9/source/firm.c:286-326 | The tokens of an encoding are its items: flag bits from the top of each flag byte, copies of 3 to 18 bytes from offsets of 2 to 4097 |
| `LzssFormat.MeaningOfTokens` | arm9/source/firm.c:294-323 | Tokens stand for the bytes that their items stand for |
| `LzssFormat.CopyRepeats` | arm9/source/firm.c:310-316 | A copy puts bytes before the output, each equal to the one its offset and one more above it |
| `LzssFormat.RoomIsClear` | arm9/source/firm.c:283-326 | Output that lies above the whole input is clear of it |
| `AesCounter.AdvanceCounter` | arm9/source/crypto.c:157-182 | The 128-bit counter grows by the value modulo 2^128, in each of the four word and byte orders |
| `AesCounter.ChangeCtrMode` | arm9/source/crypto.c:184-204 | Converting a counter to another order keeps its number |
| `AesCounter.SetIvLoadsValue` | arm9/source/crypto.c:135-155 | The counter registers are loaded with the number that the counter in memory stands for, in each order |
| `AesCounter.AddWordsAdds` | arm9/source/crypto.c:62-89 | The carry through the four words is addition modulo 2^128 |
| `AesDriver.AesBatch` | arm9/source/crypto.c:206-237 | Through the bounded FIFOs, in any pace of the engine, a batch puts the mode of the whole input at the destination, which may be the source, and ends |
| `AesDriver.Aes` | arm9/source/crypto.c:239-280 | However many batches it takes, the output is one pass of the mode over the whole message, and the counter or chaining block in memory is the one that continues it |
| `AesDriver.OneBatch` | arm9/source/crypto.c:247-274 | One batch with its update of the chaining block, which for decryption is saved before the source is overwritten |
| `AesDriver.CryptAppend` | arm9/source/crypto.c:239-280 | A message in two parts, the second from the chaining block the first leaves, is the message in one part |
| `AesDriver.CtrBlock` | arm9/source/crypto.c:239-280 | Counter mode block by block: block i is combined with the cipher of the counter plus i modulo 2^128 |
| `AesDriver.CbcBlock` | arm9/source/crypto.c:239-280 | Cipher block chaining block by block, both directions |
| `AesDriver.EcbBlock` | arm9/source/crypto.c:239-280 | The code book modes encrypt and decrypt each block alone |
| `AesDriver.CounterAfter` | arm9/source/crypto.c:273-274 | The counter after a message is the counter before it plus its number of blocks |
| `AesDriver.CbcIvAfter` | arm9/source/crypto.c:256-270 | The chaining block after a message is its last block of cipher text |
| `AesDriver.CryptUndone` | arm9/source/crypto.c:239-280 | Each mode is undone by its inverse with the same chaining block |
| `CtrNand.CounterContinues` | arm9/source/crypto.c:370-374 | The start counter of a later sector continues that of an earlier one exactly when their 32-bit byte offsets do not have a 4 GiB boundary between them |
| `CtrNand.RangeReadsBack` | arm9/source/crypto.c:370-418 | A range of a stored message, decrypted with the counter of its own first block, is the range of the message exactly when no 4 GiB boundary lies between its start and that of the message |
| `CtrNand.Nand.Read` | arm9/source/crypto.c:370-391 | A read decrypts the stored blocks with the counter of the first sector |
| `CtrNand.Nand.Write` | arm9/source/crypto.c:393-418 | A write in chunks through a fixed buffer stores the cipher text of the whole message in one pass, and changes nothing else |
| `CtrNand.Nand.WriteRead` | arm9/source/crypto.c:370-418 | Any sectors of what was written read back as they were given exactly when no 4 GiB boundary lies between the first sector written and the first one read |
| `PageTable.Memory.RwxL1ForAll` | k11_extension/source/mmu.c:32-68 | Rewriting a first-level table leaves exactly the memory in which each of its descriptors and each descriptor of the tables it refers to is rewritten once |
| `PageTable.Memory.RwxL2ForAll` | k11_extension/source/mmu.c:70-100 | Rewriting a second-level table rewrites its 256 descriptors and nothing else |
| `PageTable.RwxKeepsAddresses` | k11_extension/source/mmu.c:32-160 | Afterwards every virtual address has the physical address it had, even where second-level tables are shared |
| `PageTable.RwxKeepsMappings` | k11_extension/source/mmu.c:32-160 | Afterwards the same virtual addresses are mapped |
| `PageTable.RwxGrantsAll` | k11_extension/source/mmu.c:162-238 | Afterwards the user permission is 7 for each mapped address of the rewritten entries and 0 for each unmapped one |
| `PageTable.RwxTwice` | k11_extension/source/mmu.c:32-100 | A second rewrite changes nothing |
| `PageTable.RwxL1Keeps` | k11_extension/source/mmu.c:32-68 | The rewritten first-level descriptor keeps its type and address |
| `PageTable.RwxL2Keeps` | k11_extension/source/mmu.c:70-100 | The rewritten second-level descriptor keeps its type and address |
| `PageTable.SectionKept` | k11_extension/source/mmu.c:49-56 | Only the access bits of a section change |
| `PageTable.SupersectionKept` | k11_extension/source/mmu.c:57-63 | Only the access bits of a supersection change |
| `PageTable.SmallPageKept` | k11_extension/source/mmu.c:88-95 | Only the access bits of a small page change |
| `PageTable.LargePageKept` | k11_extension/source/mmu.c:80-87 | Only the access bits of a large page change |
| `PageTable.PermMeans` | k11_extension/source/mmu.c:162-238 | The three permission bits are readable, writable and executable by the access permission bits of the architecture |
| `PageTable.SupersectionsKeepApx` | k11_extension/include/mmu.h:38-52 | The header keeps bit 15 of a supersection among reserved bits, so a rewritten supersection is writable exactly when that bit was clear |
| `PageTable.DescriptorTypes` | k11_extension/source/mmu.c:7-30 | The type of a descriptor by its type bits |
| `PageTable.TranslatedBits` | k11_extension/source/mmu.c:102-160 | A translated address has the upper bits of the descriptor, as many as the size of the mapping leaves, and the lower bits of the virtual address |
| `PageTable.IndexBits` | k11_extension/source/mmu.c:102-160 | The two table indices are the upper twelve bits of a virtual address and the next eight |
| `PageTable.TableUnits` | k11_extension/source/mmu.c:107-113 | The number of a second-level table in units of 1 KiB, from the bits of its descriptor |
| `PageTable.TableAddress` | k11_extension/source/mmu.c:107-113 | A second-level table is at the 21 address bits of its descriptor, less 0x40000000 |
| `Horspool.Memsearch` | arm9/source/memory.c:34-56 | Returns the first occurrence of the pattern, or none exactly if there is none |
| `Horspool.ShiftMissesNothing` | arm9/source/memory.c:45-53 | No occurrence starts where a shift passes over |
| `Horspool.ShiftIsLargest` | arm9/source/memory.c:39-43 | No shift could be larger: some text has an occurrence right where it leads, also for the shift by the whole pattern |
| `Horspool.ShiftTable` | arm9/source/memory.c:39-43 | The table holds for each byte the distance from its last place in the pattern, the end excepted, to the end |
| `Mailbox.EveryRun` | arm9/source/screen.c:56-93 | In every interleaving, what the ARM11 carries out is a prefix of what the ARM9 calls for, each command once, in order and with its parameters, complete when no call is under way; and the ARM9 writes no parameters while a command is carried out |
| `Mailbox.SafeIffNotReady` | arm11/source/main.c:198-234 | Every interleaving is safe exactly when the word does not hold READY before the ARM11 starts |
| `Mailbox.LostCommand` | arm11/source/main.c:198-204 | With READY there beforehand, a call returns whose command is never carried out |
| `Mailbox.CallsAreValid` | arm9/source/screen.c:65-120 | Each call of the ARM9 hands over as many words as the ARM11 takes for its command |
| `Mailbox.Arm11Answers` | arm11/source/main.c:202-233 | No wait is in vain: left to itself the ARM11 writes READY within ten steps |
| `Mailbox.NothingAfterFirmlaunch` | arm11/source/main.c:226-229 | A call after the firmlaunch command never returns and is never carried out |
| `Mailbox.Step9Keeps` | arm9/source/screen.c:56-93 | Each step of the ARM9 keeps the invariant of the handshake |
| `Mailbox.Step11Keeps` | arm11/source/main.c:198-234 | Each step of the ARM11 keeps the invariant of the handshake |
| `ThreadLocks.NoInterference` | k11_extension/source/synchronization.c:54-180 | Over every run each locker finds its bit, and the kernel its own, as if the other lockers did not exist |
| `ThreadLocks.LockedUntilUnlocked` | k11_extension/source/synchronization.c:54-180 | A locked thread stays locked over every run of the other lockers and the kernel |
| `ThreadLocks.LockThenUnlock` | k11_extension/source/synchronization.c:69-180 | A lock pass locks a chosen thread unless it owns the mutex, an unlock pass takes that back unless the thread is terminating, and both leave all other bits |
| `ThreadLocks.Scheduler.RosalinaLockThreads` | k11_extension/source/synchronization.c:125-166 | Both passes together lock exactly the matching threads but the mutex owner, however the running threads change meanwhile, and leave the critical section as often as they enter it |
| `ThreadLocks.Scheduler.RosalinaUnlockThreads` | k11_extension/source/synchronization.c:168-180 | Unlocks exactly the matching threads that are not terminating |
| `ThreadLocks.Scheduler.DebugReschedule` | k11_extension/source/synchronization.c:54-67 | Sets or clears the debugger bit and no other |
| `ThreadLocks.Scheduler.LockProcess` | k11_extension/source/svc/ControlProcess.c:151-195 | The lock passes of a process lock exactly its selected threads but the mutex owner |
| `ThreadLocks.Scheduler.UnlockProcess` | k11_extension/source/svc/ControlProcess.c:137-150 | The unlock pass of a process unlocks exactly its selected threads that are not terminating |
| `ThreadLocks.Scheduler.ExitProcess` | k11_extension/source/svc/ExitProcess.c:3-29 | A process that exits with the signal flag set has its process locks cleared, and no other bit; without the flag no mask changes |
| `ThreadLocks.GroupsDisjoint` | k11_extension/source/synchronization.c:93-123 | No thread is in two of the three groups |
| `ThreadLocks.GroupTitles` | k11_extension/source/synchronization.c:93-123 | Which titles the three groups hold, with the bits for console generation and safe mode left out |
| `ThreadLocks.BitsShared` | k11_extension/source/synchronization.c:54-180 | Every bit of a scheduling mask belongs to exactly one of the three lockers and the kernel |
| `ThreadLocks.LowestBitSelects` | k11_extension/source/synchronization.c:93-123 | A mask selects the group of its lowest bit alone |
| `SessionTable.SessionInfos.FindClosestSlot` | k11_extension/source/ipc.c:39-61 | The bisection ends at the first entry not below the session |
| `SessionTable.SessionInfos.Add` | k11_extension/source/ipc.c:100-135 | Inserts at the slot, shifting the rest up, unless the session is present or the table full, and keeps the table sorted |
| `SessionTable.SessionInfos.Remove` | k11_extension/source/ipc.c:137-165 | Deletes the entry at the slot, shifting the rest down, unless the slot is the end or the table full, and keeps the table sorted |
| `SessionTable.AddRefines` | k11_extension/source/ipc.c:100-135 | Below capacity adding is a map insertion that keeps the first name |
| `SessionTable.RemoveRefines` | k11_extension/source/ipc.c:137-165 | Below capacity removing a session that is present deletes exactly it |
| `SessionTable.RemoveDeletesIff` | k11_extension/source/ipc.c:137-165 | Removing deletes the session and nothing else exactly when it is present and the table not full, or absent and the table full or all sessions smaller |
| `SessionTable.RunRefinesMap` | k11_extension/source/ipc.c:100-165 | Every run of additions that find room and removals of present sessions below capacity is the same run of a map |
| `SessionTable.RunKeepsSorted` | k11_extension/source/ipc.c:100-165 | The table stays strictly sorted and within its bound over every run |
| `SessionTable.PresentAtSlot` | k11_extension/source/ipc.c:39-61 | A session is present exactly when it is at its slot |
| `SessionTable.NameCharacters` | k11_extension/source/ipc.c:128-131 | A stored name is the first twelve characters of the name, filled up with zeros |
| `NumberText.ProcessNumber` | arm9/source/fmt.c:84-149 | Writes sign, prefix, zeros, digits and padding of the field for all flags, widths and precisions, with at most twenty digits |
| `NumberText.KnownWidths` | arm9/source/fmt.c:84-149 | The fields that the C standard has for widths, left adjustment and zero padding |
| `NumberText.KnownPrecisions` | arm9/source/fmt.c:84-149 | The fields that the C standard has for precisions, which turn zero padding off |
| `NumberText.KnownZeros` | arm9/source/fmt.c:110-116 | The fields that the C standard has for 0 |
| `NumberText.KnownSigns` | arm9/source/fmt.c:88-106 | The fields that the C standard has for the sign flags |
| `NumberText.KnownHex` | arm9/source/fmt.c:84-149 | The fields that the C standard has for hexadecimal numbers |
| `NumberText.FieldLength` | arm9/source/fmt.c:84-149 | A field is as long as the larger of the width and of its sign, prefix and digits or precision |
| `NumberText.TakeApart` | arm9/source/fmt.c:122-127 | The digit loop stores at most twenty characters, which backwards are the digits |
| `NumberText.ParseDecIntOption` | arm9/source/config.c:105-137 | Accepts an optional sign and digits within the range, and stores their value in 64-bit arithmetic; otherwise fails and stores 0 |
| `NumberText.ParseHexIntOption` | arm9/source/config.c:220-245 | Accepts hexadecimal digits of either case within the range, and stores their value in 64-bit arithmetic; otherwise fails and stores 0 |
| `NumberText.DecRoundTrip` | arm9/source/fmt.c:84-149 | For every signed number but the least, the decimal parser gets it back from the printed field exactly when the field has no spaces and is not a sign alone, for all flags, widths and precisions |
| `NumberText.HexRoundTrip` | arm9/source/fmt.c:84-149 | For every unsigned number, the hexadecimal parser gets it back from the printed field exactly when the field has neither spaces nor a 0x prefix |
| `NumberText.DigitsValue` | arm9/source/config.c:105-137 | The digits of a number, with any zeros before them, parse as the number |
| `NumberText.ValueIn64Bits` | arm9/source/config.c:121-129 | A string of digits of any length is read as its value modulo 2^64 |
| `NumberText.NonDigitFails` | arm9/source/config.c:121-126 | A character that is no digit anywhere fails the whole |
| `Crc.ByteStepIsSerial` | arm9/source/utils.c:207-208 | A turn of the table-driven loop is eight shifts of the bit-serial division |
| `Crc.ComputeCrc16` | arm9/source/utils.c:161-185 | The table-driven check is the bit-serial one with polynomial 0xA001, on the first call and on later ones, and fits 16 bits |
| `Crc.ComputeCrc32` | arm9/source/utils.c:187-211 | The table-driven check is the complement of the bit-serial one with polynomial 0xEDB88320, on the first call and on later ones |
| `Crc.Table.Initialize` | arm9/source/utils.c:192-203 | The cached table holds eight shifts of each byte |
| `Crc.ShiftsLinear` | arm9/source/utils.c:195-201 | Shifting is linear, which is why the table can be looked up for one byte |
| `Crc.Crc32Continues` | arm9/source/utils.c:187-211 | A message checked in two pieces, the second from the complement of the first result, gives the check of the whole |
| `Crc.Crc16Continues` | arm9/source/utils.c:161-185 | A message checked in two pieces gives the check of the whole |
| `Crc.OneByteShows` | arm9/source/utils.c:161-211 | A single changed byte anywhere changes the check value |
| `Crc.CheckValues` | arm9/source/utils.c:161-211 | The two checks have the catalogued values on a one-letter message |

## Left out

- exFAT, tiny mode, fast seek, the volume formatter, string functions, file locking, re-entrancy, trimming and GPT: all compiled out by the configuration header.
- Path parsing, opening by name, directory creation and deletion, renaming, and the directory entry update of a sync: an open file is modelled from the state that opening it leaves.
- FatInfo.SyncFs: the device's own cache flush, which always succeeds in this firmware; and what a failed FSInfo write leaves on a volume with one reserved sector.
- FatInfo.Mount: the search for the boot sector of a partition; the volume is taken to have a sound layout within the device, which `FatGeometry.MountLayout` characterises.
- The check of the file object at the start of each file call: a call on a closed file is not modelled.
- The exclusive-or checksum of short names, and short-name matching.
- FatVolume.Volume.MoveWindow: the window is promised to show a sector outside the FATs only if it did so when it was left there, since direct transfers go past it.
- FatFile.File.Write: one open file on a chain; two files open on the same chain at once are not modelled.
- FatFile.File.Seek: the intermediate values of the position during the walk are locals; only the final one is a field, as no other field depends on the others.
- The remainder by a power-of-two cluster size is written as a remainder where the source masks bits.
- PatternMatch.FindMatches: names and patterns are sequences of decoded characters; decoding UTF-8 is not modelled, and case folding is any function that keeps 0 apart.
- LongName.FindLongName: the directory sectors between the entries are not modelled; the entries of one file come one after the other.
- Code-page conversion of names.
- Lzss.Decompress: streams that end inside a token or copy from beyond the output are not decoded; the source has no check for them.
- The KIP headers around the decompressor, and its use on modules that are not compressed.
- AesDriver.Aes: authentication modes, key slots and the engine's registers; the engine is a permutation and two FIFOs of four blocks, at any pace.
- CtrNand.Nand.Read: the redirected NAND on the SD card, and the state of the buffer after a failed transfer.
- PageTable.Memory.RwxL1ForAll: cache and TLB maintenance and the mutex around it.
- Horspool.Memsearch: an empty pattern, or one longer than the text, which the source leaves to its callers.
- Mailbox.EveryRun: reordering of memory accesses; the accesses are volatile and taken in program order.
- ThreadLocks.Scheduler.RosalinaLockThreads: the interrupts that make other cores reschedule, and the scheduler's own bookkeeping, which is taken not to change the masks.
- SessionTable.SessionInfos.Add: the replacement of a session's virtual table, the locks around the table, and the lookup's test of that table.
- NumberText.ProcessNumber: the least 64-bit number, whose negation overflows, and widths or precisions near 2^31; parsing of the format string itself.
- NumberText.ParseDecIntOption: signed overflow, undefined in C, wraps around.
- Floating-point options, key combinations and the rest of the configuration file.
- Hardware set-up, drawing, menus, exception screens and firmware patches.
