# Algorithms of the NEORV32 software tree

The NEORV32 processor comes with a bootloader, a runtime library and example programs in C. Most of that
code moves values in and out of peripheral registers. This project models the parts that compute
something hard to get right and proves what they are for. C objects that are updated in place are classes
or arrays here, loops stay loops, and each is tied to a specification function about which the properties
are proved. 32-bit and 64-bit wrap-around is written out.

- **Petit FatFs** (`FatVolume`, `FatFile`, `FatRuns`, `FatDir`, `FatNames`, `FatOpen`, `FatMount`, `FatCard`). A file is
  the byte sequence found along its cluster chain. The driver keeps only a position, the cluster of the byte
  *before* it, and a sector number that means something in mid-sector only. Any run of reads and seeks replies
  as the flat sequence does, including where the chain is broken or cyclic or a sector cannot be read.
  Name lookup along a path and mounting are proved against independent definitions, down to single bytes of
  path, entry and boot sector; `FatCard` is a whole card in numbers.
- **Bootloader images** (`BootImage`, `BootLoader`). Storing an application in SPI flash and loading it from
  there, or from a file through the FAT driver, into memory: what is accepted, and when it comes back whole.
- **1-Wire ROM search** (`OneWireCrc`, `OneWireWalk`, `OneWireSearch`). A bus is a set of listening devices
  with wired-AND reads. The search visits the device codes in ascending order, each exactly once. The CRC
  table equals bit-serial polynomial division, and that is what keeps two codes from first differing in
  the CRC byte.
- **Calendar** (`Calendar`). Unix time and dates against a calendar that is counted day by day.
- **Trap entry** (`TrapEntry`). Saving, dispatching and restoring with a handler that edits the saved frame.
- **Split 64-bit timers** (`Timer`). Reads and writes in 32-bit halves of a counter that runs in between.
- **Two cores** (`SpinLock.dfy`: `AbstractLock`, `LrScLock`, `SwapLock`; `Primes.dfy`: `Primes`,
  `DualCorePrimes`; `PrimeCertificate`). Spinlocks refine an abstract lock for any number of cores; the split prime count equals
  the single-core one in every interleaving.
- **Game of Life and XTEA** (`Life`, `Xtea`, `XteaVector`). Bit-packed loops refine the rule on sets of cells,
  which treats every place of the torus alike; deciphering retraces enciphering state by state, and the
  published XTEA vector comes out.

Where the code does not do what its documentation or purpose suggests, the code is kept and the exact
condition is proved:

- `pf_mount` turns away a volume of exactly 4085 clusters, which the Microsoft FAT32 File System
  Specification calls FAT16 (`FatMount.PfMount`; such a boot sector is in `FatMount.GapIsReachable`).
- `spi_flash_erase` counts sectors for the data but not for the 16-byte header in front of it. An image whose
  size leaves fewer than 16 bytes in its last sector (65532 bytes, say) can be damaged when it is stored over
  old data (`BootImage.FitsNotAlways`); `BootImage.FitsAlways` and `BootLoader.Boot.StoreThenLoad` give the
  exact condition.
- `system_app_store` does not check that the image fits behind the image address. The address wraps around the
  end of the flash, and `BootImage.BelowIsKept` says exactly when the cells below stay as they are; an image of
  12 MB changes them (`BootImage.BelowIsNotKept`).
- `system_app_load` counts bytes in 32 bits. With a size above 2^32 - 4 in the header and no read error its
  copying loop never ends (`BootLoader.EndsWhenStops`; an erased flash with only the signature written is such
  a stream, `BootLoader.EndlessFlash`), and past the end of an SD card file zeros are read without an error
  (`BootLoader.FileDelivers`), so a file that was cut off can be accepted (`BootLoader.CutOffImage`).
- `is_prime` squares its divisor modulo 2^32. It is right for every 32-bit number except 4294967291
  (= 2^32 - 5), which it calls composite (`Primes.IsPrime`) though it is prime
  (`PrimeCertificate.MisjudgedIsPrime`).
- `date2unixtime` returns a 64-bit value but computes in 32 bits: it inverts `unixtime2date` modulo 2^32
  (`Calendar.ThereAndBack`).
- `OWFamilySkipSetup` goes back to a device that was already listed when the family discrepancy is left over
  from an earlier code. A caller can tell: this is so if and only if LastDeviceFlag is FALSE,
  LastFamilyDiscrepancy is not 0, and bit number LastFamilyDiscrepancy of ROM_NO is 1
  (`OneWireSearch.Searcher.SkipFamily`, with a bus on which it happens in `OneWireSearch.StaleMarkIsReachable`).
- `OWVerify` without valid CRCs can miss a code ending in 0 whose twin ending in 1 is present
  (`OneWireSearch.Searcher.Verify`; `OneWireSearch.VerifyMisses` is such a bus).
- `neorv32_clint_time_set` is exact if and only if no carry leaves the low word between its last two
  stores (`Timer.Clint.TimeSet`; `Timer.TimeSetMisses` is a call that goes wrong).
- `create_name` picks a path segment whole if and only if it is an 8.3 name: at most eight characters, and at
  most three more behind the only dot (`FatNames.PickedWhole`). Otherwise it cuts the segment, drops the
  character that does not fit and takes what follows it for the next segment: "ABCDEFGHIJ" is read as
  "ABCDEFGH", then "J" (`FatNames.TenCharacters`).
- `get_neighborhood` returns at most 8, not 9 (`Life.Universe.GetNeighborhood`).

## Model

| member | source | states |
|---|---|---|
| `FatVolume.DiskReadp` | sw/bootloader/petit_fatfs/diskio.c:152-203 | reads `count` bytes inside one sector; every call site in this project meets `offset + count <= 512` and `count >= 1` |
| `FatVolume.LdWord` | sw/bootloader/petit_fatfs/pff.c:384-391 | the little-endian number in two bytes |
| `FatVolume.LdDword` | sw/bootloader/petit_fatfs/pff.c:393-402 | the little-endian number in four bytes |
| `FatVolume.Volume.GetFat` | sw/bootloader/petit_fatfs/pff.c:430-470 | the link of a cluster read as 3, 4 or 7 nibbles of the FAT seen as one nibble string; 1 for an invalid cluster or an unreadable FAT sector |
| `FatVolume.Volume.GetFat12` | sw/bootloader/petit_fatfs/pff.c:443-455 | a 12-bit entry is three consecutive nibbles, also where it straddles two sectors; fails iff one of its bytes cannot be read |
| `FatVolume.Volume.GetFat16` | sw/bootloader/petit_fatfs/pff.c:457-460 | a 16-bit entry is four nibbles of the table |
| `FatVolume.Volume.GetFat32` | sw/bootloader/petit_fatfs/pff.c:462-465 | a 32-bit entry is its seven low nibbles; the reserved top four bits are dropped |
| `FatVolume.Volume.Entry12` | sw/bootloader/petit_fatfs/pff.c:443-455 | byte arithmetic on the pair at `n + n/2` selects exactly nibbles `3n..3n+3`, for odd and even entries |
| `FatVolume.MaskIsModulo` | sw/bootloader/petit_fatfs/pff.c:951 | masking with `csize - 1` is the remainder modulo a power-of-two cluster size |
| `FatFile.Clust2SectBounds` | sw/bootloader/petit_fatfs/pff.c:479-489 | on sound geometry the sector of a valid cluster is nonzero and its sectors do not wrap; 0 means exactly an invalid cluster |
| `FatFile.NextPosition` | sw/bootloader/petit_fatfs/pff.c:950-959 | the chain is followed exactly when a multiple of the cluster size is crossed |
| `FatFile.CursorEnters` | sw/bootloader/petit_fatfs/pff.c:950-964 | what the lazy cursor knows in mid-sector, on a sector boundary and on a cluster boundary is enough to find the sector of the position |
| `FatFile.CursorAdvances` | sw/bootloader/petit_fatfs/pff.c:965-971 | a read up to or inside the sector end keeps the cursor invariant: the current cluster is that of the byte before the position |
| `FatFile.BytesInSector` | sw/bootloader/petit_fatfs/pff.c:965-968 | a run inside one sector is a slice of that sector, readable as a whole or not at all |
| `FatFile.FatFs.EnterSector` | sw/bootloader/petit_fatfs/pff.c:950-964 | finds the sector of the position, and fails iff the chain has no valid cluster for it |
| `FatFile.FatFs.ReadInSector` | sw/bootloader/petit_fatfs/pff.c:949-972 | delivers the next bytes up to the sector end, or fails exactly when the next byte cannot be located |
| `FatFile.FatFs.PfRead` | sw/bootloader/petit_fatfs/pff.c:928-975 | ends on any volume; with the cursor invariant delivers exactly the bytes of the chain from the position on, up to the request, the end of the file or the first byte that cannot be read; succeeds iff none of those is missing; keeps the invariant |
| `FatFile.FatFs.PfForward` | sw/bootloader/petit_fatfs/pff.c:928-975 | without a buffer the same bytes go to the outgoing stream, with the same results |
| `FatFile.FatFs.SeekStart` | sw/bootloader/petit_fatfs/pff.c:1071-1080 | both starting points, current or first cluster, are a cluster of the chain at its start position, not beyond the target |
| `FatFile.FatFs.FollowChain` | sw/bootloader/petit_fatfs/pff.c:1081-1087 | the walk reaches the target's cluster or a broken link that puts the target out of reach |
| `FatFile.FatFs.WalkTo` | sw/bootloader/petit_fatfs/pff.c:1070-1088 | the cluster found is that of the byte before the target, whichever way the walk started |
| `FatFile.FatFs.PlaceCursor` | sw/bootloader/petit_fatfs/pff.c:1089-1091 | the sector chosen after a seek re-establishes the cursor invariant, also on exact boundaries |
| `FatFile.FatFs.PfLseek` | sw/bootloader/petit_fatfs/pff.c:1055-1095 | succeeds iff the chain reaches the target, whatever the old position was; clips to the file size; keeps the invariant |
| `FatFile.ClusterStart` | sw/bootloader/petit_fatfs/pff.c:1074 | clearing the low bits of a position gives the start of its cluster |
| `FatRuns.Apply` | sw/bootloader/petit_fatfs/pff.c:928-1095 | one read or seek changes open state and position, and replies, as the step on the flat file |
| `FatRuns.Perform` | sw/bootloader/petit_fatfs/pff.c:928-1095 | every run of reads and seeks replies as the run on the flat file: the cursor and its shortcut cannot be observed |
| `FatRuns.SplitReads` | sw/bootloader/petit_fatfs/pff.c:946-974 | however a read is split into smaller reads, the same bytes are delivered: those up to the end of the file or the first one that cannot be read; the file stays open iff none is missing |
| `FatRuns.ReadOn` | sw/bootloader/petit_fatfs/pff.c:946-974 | one read after others comes to one longer read, also where it meets an unreadable byte |
| `FatRuns.SeekForgets` | sw/bootloader/petit_fatfs/pff.c:1070-1092 | after a seek all later replies depend on the target alone |
| `FatRuns.LocatedRunUnique` | sw/bootloader/petit_fatfs/pff.c:946-974 | the number of bytes delivered is determined by the file and the disk |
| `FatDir.Dir.Rewind` | sw/bootloader/petit_fatfs/pff.c:514-534 | fails iff the start cluster is out of range; on sound geometry goes to the first slot, of the root too |
| `FatDir.Dir.Next` | sw/bootloader/petit_fatfs/pff.c:543-575 | on any volume the index grows by one, up to 65535; on sound geometry goes to the next slot, `sect` staying the sector of slot `index`, and tells end of directory, broken chain and success apart exactly |
| `FatDir.Dir.Find` | sw/bootloader/petit_fatfs/pff.c:584-607 | on any volume at most 65536 entries are read and an entry returned has the name sought and is no volume label; on sound geometry returns the first such slot in chain order, before the end marker, or why there is none |
| `FatDir.SearchOutcomeUnique` | sw/bootloader/petit_fatfs/pff.c:584-607 | a directory and a name allow one outcome only |
| `FatDir.MaskIsSlotOffset` | sw/bootloader/petit_fatfs/pff.c:562 | the mask tells the sector of a slot inside its cluster |
| `FatDir.Directory.ReachedIsValid` | sw/bootloader/petit_fatfs/pff.c:561-569 | every cluster reached in a directory chain is valid, and its link decides between next cluster, end and error |
| `FatDir.AttributeBits` | sw/bootloader/petit_fatfs/pff.c:602 | the masks for volume labels and directories select bits 3 and 4 of the attribute byte |
| `FatDir.NamesMeans` | sw/bootloader/petit_fatfs/pff.c:596-604 | in the bytes of the sector: when a slot is in use, and when it names the object sought |
| `FatDir.SlotInFile` | sw/bootloader/petit_fatfs/pff.c:555-570 | a directory in clusters is the file of its chain: slot i is the 32 bytes from 32*i on, readable together or not at all |
| `FatDir.SlotsOfChain` | sw/bootloader/petit_fatfs/pff.c:561-569 | such a directory has a slot exactly where its chain has a cluster, up to number 65535 |
| `FatDir.TableSlots` | sw/bootloader/petit_fatfs/pff.c:558-560 | a root table has the number of slots in the boot sector, 16 in each sector from its first on |
| `FatNames.CreateName` | sw/bootloader/petit_fatfs/pff.c:651-692 | the loop computes the closed form of a segment: blank-padded body and extension and the flag for the last segment (each byte in `FatNames.DirFormBytes`), and ends behind the segment |
| `FatNames.DirFormBytes` | sw/bootloader/petit_fatfs/pff.c:664-689 | every byte of the directory form of a name in letters of either case, anywhere in a path: lower case raised, characters from 0x80 on taken from the code page table first, any other itself, blanks behind; the flag; where the segment ends |
| `FatNames.BootName` | sw/bootloader/config.h:183-185 | the bootloader's path "boot.bin", alone or behind other segments, is the last segment and leads to the entry "BOOT    BIN" |
| `FatNames.PickedWhole` | sw/bootloader/petit_fatfs/pff.c:667-689 | a path segment is picked whole iff it is an 8.3 name; any other is cut before its end |
| `FatNames.TenCharacters` | sw/bootloader/petit_fatfs/pff.c:667-689 | a ten-character name is read as its first eight characters and then, as a segment of its own, its tenth |
| `FatNames.GetFileName` | sw/bootloader/petit_fatfs/pff.c:701-726 | the text of a directory name: fields up to the first blank, a dot iff there is an extension, 0x05 read as 0xE5 |
| `FatNames.TextBytes` | sw/bootloader/petit_fatfs/pff.c:711-726 | the text of any entry, byte by byte |
| `FatNames.GetFileInfo` | sw/bootloader/petit_fatfs/pff.c:701-733 | name, attribute, size, date and time of an entry, the numbers in single bytes; without an entry the name is cleared and nothing else changes |
| `FatNames.DirFormOfText` | sw/bootloader/petit_fatfs/pff.c:651-726 | the text of a canonical 8.3 name, anywhere in a path, comes back as the directory name; the flag is set iff the path ends there |
| `FatNames.TextOfDirName` | sw/bootloader/petit_fatfs/pff.c:701-726 | a canonical directory name reads as its text |
| `FatNames.NameRun` | sw/bootloader/petit_fatfs/pff.c:667-674 | the longest run of name characters within the field |
| `FatOpen.FollowPath` | sw/bootloader/petit_fatfs/pff.c:742-774 | ends on any volume; on sound geometry with the entry the path resolves to, directory by directory, or the reason why there is none |
| `FatOpen.OutcomeIsLookUp` | sw/bootloader/petit_fatfs/pff.c:584-607 | what a directory search may return is the one entry or error that the directory determines |
| `FatOpen.GetClust` | sw/bootloader/petit_fatfs/pff.c:492-507 | the start cluster in an entry; the high half counts on FAT32 only |
| `FatOpen.StartClusterBytes` | sw/bootloader/petit_fatfs/pff.c:497-506 | the start cluster in the bytes 26, 27 and, on FAT32, 20 and 21 of the entry |
| `FatOpen.StripPath` | sw/bootloader/petit_fatfs/pff.c:751-752 | skips leading blanks and one separator |
| `FatOpen.PathStartIs` | sw/bootloader/petit_fatfs/pff.c:751-752 | any number of blanks and one slash behind them are passed over, nothing more |
| `FatOpen.ResolveThrough` | sw/bootloader/petit_fatfs/pff.c:760-770 | the entry found ends the path at its last segment, is gone through if it has attribute bit 4, and is no way on otherwise |
| `FatOpen.PfOpen` | sw/bootloader/petit_fatfs/pff.c:894-918 | on any volume opens a file at position 0 or reports why not; on sound geometry opens exactly the file the path leads to, with the cursor invariant; directories and the empty path are no files |
| `FatOpen.TargetIsFile` | sw/bootloader/petit_fatfs/pff.c:908-910 | what is opened has an entry in use that is neither a volume label nor a directory |
| `FatMount.CheckFs` | sw/bootloader/petit_fatfs/pff.c:783-802 | classifies a sector as FAT boot record, other boot record, no boot record or unreadable |
| `FatMount.KindMeans` | sw/bootloader/petit_fatfs/pff.c:783-802 | the bytes that tell a FAT boot record: 0x55 0xAA at 510, "FA" at 54 or 82 |
| `FatMount.FindBoot` | sw/bootloader/petit_fatfs/pff.c:833-846 | mounts from sector 0 or else from the first partition of its table |
| `FatMount.BootSectorMeans` | sw/bootloader/petit_fatfs/pff.c:833-846 | sector 0, or the sector in bytes 454 to 457 if sector 0 is another boot record with a partition of nonzero type |
| `FatMount.LoadBpb` | sw/bootloader/petit_fatfs/pff.c:851-861 | the parameter block fields, with the 32-bit fields used where the 16-bit ones are 0 |
| `FatMount.BpbBytes` | sw/bootloader/petit_fatfs/pff.c:851-861 | all seven fields of the block in single bytes of the boot sector, the 32-bit alternatives included |
| `FatMount.Layout` | sw/bootloader/petit_fatfs/pff.c:853-879 | for every block the geometry and FAT type that 32-bit arithmetic gives; fails iff that arithmetic finds 4085 clusters |
| `FatMount.TypeBounds` | sw/bootloader/petit_fatfs/pff.c:867-870 | up to 4084 clusters FAT12, from 65525 on FAT32 |
| `FatMount.KnownGeometry` | sw/bootloader/petit_fatfs/pff.c:853-879 | the geometry of a FAT16 volume in numbers; a cluster size of 0 makes a volume without clusters |
| `FatMount.PfMount` | sw/bootloader/petit_fatfs/pff.c:819-885 | mounts every disk with a FAT boot record with the geometry of 32-bit arithmetic, a consistent one with its true geometry, but none of 4085 clusters; reports the right error when there is no FAT boot record or it cannot be read |
| `FatMount.WrappedIsTrue` | sw/bootloader/petit_fatfs/pff.c:853-879 | on a consistent block nothing wraps and the geometry is the true one |
| `FatMount.GapIsReachable` | sw/bootloader/petit_fatfs/pff.c:867-871 | a boot sector with a consistent block of 4085 clusters, FAT16 by the specification |
| `FatMount.EntriesInsideFat` | sw/bootloader/petit_fatfs/pff.c:440-466 | with FATs long enough for the clusters, every byte of a valid cluster's entry lies inside the first FAT |
| `FatMount.GeometrySound` | sw/bootloader/petit_fatfs/pff.c:850-879 | the geometry derived from a consistent block is sound and ends inside the volume |
| `FatMount.ClustersAreDisjoint` | sw/bootloader/petit_fatfs/pff.c:479-489 | clusters own pairwise disjoint sector ranges, behind the FATs and the root table and inside the volume |
| `FatCard.CardMounts` | sw/bootloader/petit_fatfs/pff.c:833-879 | a card with a partition table and a FAT32 boot sector mounts with the geometry computed by hand |
| `FatCard.Found` | sw/bootloader/petit_fatfs/pff.c:596-604 | in a directory of one sector the first entry that matches, no label and before the end marker, is found |
| `FatCard.Absent` | sw/bootloader/petit_fatfs/pff.c:596-604 | with an end marker in front of every match there is no file |
| `FatCard.DeepPath` | sw/bootloader/petit_fatfs/pff.c:742-918 | on that card " /sub/boot.bin" leads through a directory to its file, with start cluster and size in numbers |
| `FatCard.NoSuchFile` | sw/bootloader/petit_fatfs/pff.c:742-918 | "boot.bin" is not found where only a label and an entry behind the end marker have that name; the directory "sub" is no file to open |
| `BootLoader.Boot.DevInit` | sw/bootloader/hal/source/sdcard.c:28-51 | mounts the card and opens the boot file; unless the card has an inconsistent boot record it fails iff the volume or the path does not lead to a file, and otherwise the stream is that file from its start; the flash starts at its image address |
| `BootLoader.Boot.SdStreamGet` | sw/bootloader/hal/source/sdcard.c:60-76 | the next four bytes of the file as a word; past the end zeros and no error |
| `BootLoader.Boot.SpiStreamGet` | sw/bootloader/hal/source/spi_flash.c:181-200 | four flash cells as a word |
| `BootLoader.FileDelivers` | sw/bootloader/hal/source/sdcard.c:60-76 | a readable file delivers its bytes, then zeros without end |
| `BootLoader.FileImage` | sw/bootloader/hal/source/system.c:123-179 | a readable file is accepted for its zero-extended bytes alone |
| `BootLoader.CutOffImage` | sw/bootloader/hal/source/sdcard.c:60-76 | sixteen given bytes, a header for data that is missing, are accepted |
| `BootLoader.SmallImage` | sw/bootloader/hal/source/system.c:123-179 | an image of six data bytes is accepted with the one check word that complements their sum, byte for byte |
| `BootLoader.CounterTells` | sw/bootloader/hal/source/system.c:152-159 | the wrapping byte counter tells when the size is reached, but for no size above 2^32 - 4 |
| `BootLoader.EndsWhenStops` | sw/bootloader/hal/source/system.c:152-160 | the copying loop is left after some number of words iff the stream ends: it has a size up to 2^32 - 4, or a word that fails |
| `BootLoader.RunsForEver` | sw/bootloader/hal/source/system.c:152-160 | on any other stream no word fails and the counter stays below the size for ever |
| `BootLoader.EndlessFlash` | sw/bootloader/hal/source/system.c:152-160 | a flash on which this happens: erased, with only the signature written |
| `BootLoader.Boot.GetHeader` | sw/bootloader/hal/source/system.c:134-141 | the four header words, and whether one of them failed |
| `BootLoader.Boot.CopyWords` | sw/bootloader/hal/source/system.c:149-160 | after any number of passes: still running iff the loop does not stop within them; otherwise left at the first point where a word failed or the size was reached, with memory and sum those of the words read |
| `BootLoader.Boot.AppLoad` | sw/bootloader/hal/source/system.c:123-179 | from any device, after any number of passes of its loop: still running, or over with all words of an accepted application in memory, or without an application; where the stream is known, it succeeds iff the stream is an image: signature, every word read, checksum; then base, size and memory are the image's |
| `BootLoader.Boot.SpiStreamPut` | sw/bootloader/hal/source/spi_flash.c:209-233 | programs the four bytes of a word, which can only clear bits |
| `BootLoader.Boot.SpiErase` | sw/bootloader/hal/source/spi_flash.c:141-172 | erases one sector more than the size holds whole sectors |
| `BootLoader.Boot.PutWords` | sw/bootloader/hal/source/system.c:234-248 | programs the words of the application and adds them up |
| `BootLoader.Boot.AppStore` | sw/bootloader/hal/source/system.c:191-266 | stores data and header with the complemented checksum, or leaves the flash alone |
| `BootLoader.StoredImage` | sw/bootloader/hal/source/system.c:123-179 | the flash holds an image iff its stream has exactly that header and data, and then it is accepted |
| `BootLoader.Boot.StoreThenLoad` | sw/bootloader/hal/source/system.c:123-266 | storing and loading gives the application back iff the flash then holds the image; for an image no larger than the flash that is iff no old flash cell behind the erased sectors spoils it |
| `BootLoader.SameMemory` | sw/bootloader/hal/source/system.c:158 | words stored over memory leave it unchanged iff they are the words already there |
| `BootImage.FlashedAt` | sw/bootloader/hal/source/spi_flash.c:141-233 | each byte read back of a stored image, inside and behind the erased sectors |
| `BootImage.HeaderBytes` | sw/bootloader/hal/source/system.c:253-257 | the sixteen bytes of a header: "NEO!", base and size in little-endian bytes, and the complement of the sum |
| `BootImage.HeaderInFlash` | sw/bootloader/hal/source/system.c:250-257 | they are what the flash holds from address 0x400000 on after storing, whatever it held before |
| `BootImage.HoldsIffFits` | sw/bootloader/hal/source/spi_flash.c:141-233 | a stored image can be read back iff every data byte behind the erased sectors fits its old cell |
| `BootImage.BelowIsKept` | sw/bootloader/hal/source/system.c:191-266 | storing leaves the flash below the image address alone, whatever it holds, iff the erased sectors end before the end of the flash and no byte but 0xFF is programmed behind it |
| `BootImage.BelowIsNotKept` | sw/bootloader/hal/source/spi_flash.c:141-172 | an image of 12 MB has 193 sectors erased, the last one at the beginning of the flash |
| `BootImage.FitsAlways` | sw/bootloader/hal/source/spi_flash.c:146 | an image survives whatever the flash held iff it has no nonzero byte behind the erased sectors |
| `BootImage.FitsNotAlways` | sw/bootloader/hal/source/spi_flash.c:146 | an image of 65532 bytes with a nonzero last byte is not covered by the erased sector and is damaged over a zero cell |
| `BootImage.CoveredWhen` | sw/bootloader/hal/source/spi_flash.c:146 | the erased sectors cover a whole-word image with its header iff its size leaves 16 bytes in the last sector |
| `BootImage.ErasedAt` | sw/bootloader/hal/source/spi_flash.c:141-172 | exactly the first sectors from the image address on are erased |
| `BootImage.ProgrammedAt` | sw/bootloader/hal/source/spi_flash.c:209-233 | each byte programmed meets its own cell, up to the capacity of the flash |
| `BootImage.StoredAt` | sw/bootloader/hal/source/system.c:158 | each word is found where it was stored and nothing else in memory changes |
| `BootImage.BytesOfWord` | sw/bootloader/hal/source/spi_flash.c:211-222 | words and little-endian bytes determine each other |
| `OneWireCrc.TableIsSerial` | sw/example/demo_onewire/onewire_aux.h:14-31 | one table lookup is eight steps of reflected division by x^8 + x^5 + x^4 + 1 |
| `OneWireCrc.TableCrcIsSerial` | sw/example/demo_onewire/onewire_aux.h:285-292 | on every byte string the accumulated CRC is the bit-serial one |
| `OneWireCrc.CrcZeroIffTrailer` | sw/example/demo_onewire/onewire_aux.h:285-292 | appending a byte gives CRC 0 iff the byte is the CRC of the prefix |
| `OneWireCrc.NoDifferenceInCrcByte` | sw/example/demo_onewire/onewire_aux.h:175 | two CRC-consistent codes that agree on 56 bits are equal |
| `OneWireWalk.LastZeroIsLast` | sw/example/demo_onewire/onewire_aux.h:138-145 | the recorded discrepancy is the last position where 0 was taken though some device with the same prefix has 1; 0 iff there is none |
| `OneWireWalk.WalkFindsDevice` | sw/example/demo_onewire/onewire_aux.h:113-170 | a search always ends on a device of the bus |
| `OneWireWalk.WalkFollowsRom` | sw/example/demo_onewire/onewire_aux.h:131-132 | before the last discrepancy a search stays on the previous code |
| `OneWireWalk.WalkFindsLeast` | sw/example/demo_onewire/onewire_aux.h:134-135 | a search that takes 0 at every choice finds the least device with the prefix |
| `OneWireWalk.WalkFindsSuccessor` | sw/example/demo_onewire/onewire_aux.h:129-144 | resuming at the last discrepancy of the first n bits finds the least greater device that differs in them |
| `OneWireWalk.NoDiscrepancyNoSuccessor` | sw/example/demo_onewire/onewire_aux.h:178-182 | without a discrepancy nothing greater is left |
| `OneWireWalk.WalkTurns` | sw/example/demo_onewire/onewire_aux.h:129-135 | resumed at a discrepancy of a device, the search leaves its code there for the branch with 1 |
| `OneWireWalk.FirstIsLeast` | sw/example/demo_onewire/onewire_aux.h:54-62 | a search from scratch finds the least device |
| `OneWireWalk.NextIsSuccessor` | sw/example/demo_onewire/onewire_aux.h:69-73 | a continued search finds the lexicographic successor, or knows there is none |
| `OneWireWalk.VerifyWalk` | sw/example/demo_onewire/onewire_aux.h:218-219 | a search kept to 63 bits of the ROM buffer ends on that code iff it is present, but for a twin in the last bit |
| `OneWireWalk.TargetWalk` | sw/example/demo_onewire/onewire_aux.h:252-263 | from family byte and zeros the search finds the least device of the family |
| `OneWireWalk.FamilySkipWalk` | sw/example/demo_onewire/onewire_aux.h:269-278 | resuming at the last zero among the first eight bits finds the first device of the later families; there is one iff such a zero exists |
| `OneWireWalk.LessIsStrictOrder` | sw/example/demo_onewire/onewire_aux.h:113-170 | LSB-first lexicographic order is irreflexive and transitive |
| `OneWireWalk.LessIsTotal` | sw/example/demo_onewire/onewire_aux.h:113-170 | and total |
| `OneWireWalk.ScanStep` | sw/example/demo_onewire/main.c:233-268 | taking the least of the remaining devices keeps the list complete and ascending |
| `OneWireSearch.Bus.ReadBit` | sw/example/demo_onewire/onewire_aux.h:116-117 | the bus reads the wired-AND of what the listening devices send: bit, then complement |
| `OneWireSearch.Bus.WriteBit` | sw/example/demo_onewire/onewire_aux.h:156 | each bit written silences the devices with the other bit |
| `OneWireSearch.Searcher.DoCrc8` | sw/example/demo_onewire/onewire_aux.h:285-292 | one look-up extends the CRC by the eight bits of the byte, as bit-serial division does |
| `OneWireSearch.Searcher.AskBit` | sw/example/demo_onewire/onewire_aux.h:116-146 | the direction taken and the discrepancies recorded are those of the trie walk |
| `OneWireSearch.Searcher.PutRomBit` | sw/example/demo_onewire/onewire_aux.h:148-153 | setting or clearing through byte and mask changes exactly one of the 64 bits |
| `OneWireSearch.Searcher.NextMask` | sw/example/demo_onewire/onewire_aux.h:158-169 | the shifted-out mask marks the byte ends, where the CRC catches up with the bits written |
| `OneWireSearch.Searcher.SearchBit` | sw/example/demo_onewire/onewire_aux.h:113-170 | one pass of the loop keeps ROM buffer, mask, CRC and discrepancies in step with the walk; some device always answers |
| `OneWireSearch.Searcher.Search` | sw/example/demo_onewire/onewire_aux.h:81-198 | ends on the walk's code with the discrepancy of that code, true iff the code is acceptable, and resets the search otherwise |
| `OneWireSearch.Searcher.First` | sw/example/demo_onewire/onewire_aux.h:54-62 | finds the least device, iff the bus is not empty |
| `OneWireSearch.Searcher.Next` | sw/example/demo_onewire/onewire_aux.h:69-73 | finds the successor of the current device, iff there is one; after a reset it finds the least device, like `First` |
| `OneWireSearch.Searcher.Verify` | sw/example/demo_onewire/onewire_aux.h:205-246 | true iff the code in the ROM buffer is on the bus; ROM buffer, discrepancies and flag are restored |
| `OneWireSearch.VerifyMisses` | sw/example/demo_onewire/onewire_aux.h:205-246 | a bus with a valid code and its twin in the last bit, on which `Verify` reports the valid device as absent |
| `OneWireSearch.Searcher.TargetSetup` | sw/example/demo_onewire/onewire_aux.h:252-263 | the state it leaves |
| `OneWireSearch.Searcher.FirstOfFamily` | sw/example/demo_onewire/onewire_aux.h:252-263 | after the setup, `Next` finds the least device of the family whenever there is one, and the search can go on from it |
| `OneWireSearch.Searcher.SkipFamily` | sw/example/demo_onewire/onewire_aux.h:269-278 | after the setup, `Next` finds the first device of the later families, iff there is one or the mark is stale; the mark is stale iff devices are still to come and the bit of the ROM buffer it points to is 1, and then there is no later family and a device already passed is reported again |
| `OneWireSearch.NextMark` | sw/example/demo_onewire/onewire_aux.h:143-144 | a continued search keeps the family discrepancy in order: it is that of the current code, or, if this has none, points to a 1 among its first eight bits |
| `OneWireSearch.FreshMark` | sw/example/demo_onewire/onewire_aux.h:143-144 | a search that starts with the family discrepancy 0 leaves that of the code it found |
| `OneWireSearch.MarkBit` | sw/example/demo_onewire/onewire_aux.h:143-144 | a family discrepancy in order is that of the current code iff the bit it points to is not 1 |
| `OneWireWalk.WalkGoesBack` | sw/example/demo_onewire/onewire_aux.h:131-135 | resumed at a 1 of a device, the search ends on the least device with the same bits up to there |
| `OneWireSearch.Searcher.Perform` | sw/example/demo_onewire/onewire_aux.h:54-278 | in any sequence of the public operations, the setups included, a search that finds something is at a device of the bus with both discrepancies in order, and one that finds nothing is reset |
| `OneWireSearch.StaleMarkIsReachable` | sw/example/demo_onewire/onewire_aux.h:143-144 | three concrete devices on which `First` and `Next` leave a stale mark: devices still to come, and a 1 where the mark points |
| `OneWireSearch.Searcher.ScanBus` | sw/example/demo_onewire/main.c:233-268 | lists every device of the bus exactly once, in ascending order, and nothing else |
| `Calendar.DateTime.SetUnixTime` | sw/lib/source/neorv32_aux.c:113-169 | the date is the n-th day after January 1st, 1970 counted day by day, with its weekday and time of day, up to the year 65535 |
| `Calendar.DateTime.ToUnixTime` | sw/lib/source/neorv32_aux.c:56-100 | seconds of the day number, modulo 2^32, out-of-range fields clamped |
| `Calendar.ThereAndBack` | sw/lib/source/neorv32_aux.c:56-169 | through a date and back is the identity modulo 2^32 |
| `Calendar.BackAndThere` | sw/lib/source/neorv32_aux.c:56-169 | through Unix time and back reproduces every valid date and time below 2^32 seconds, with its weekday |
| `Calendar.StepsFindDate` | sw/lib/source/neorv32_aux.c:130-145 | the magic divisions find the n-th day, for every n |
| `Calendar.StepsFit` | sw/lib/source/neorv32_aux.c:130-145 | no intermediate value wraps up to the last day of 65535 |
| `Calendar.NumberedDate` | sw/lib/source/neorv32_aux.c:89-93 | the day number formula counts days |
| `Calendar.DayNumberInjective` | sw/lib/source/neorv32_aux.c:89-93 | different valid dates have different day numbers |
| `Calendar.FindDate` | sw/lib/source/neorv32_aux.c:130-145 | the 32-bit computation of year, month and day equals the unbounded one |
| `Calendar.FindWeekday` | sw/lib/source/neorv32_aux.c:151-168 | the 32-bit computation equals Zeller's congruence |
| `Calendar.ZellerCountsDays` | sw/lib/source/neorv32_aux.c:160-168 | Zeller's congruence agrees with the day number modulo 7 |
| `Calendar.WeekdayCycle` | sw/lib/source/neorv32_aux.c:168 | the weekday of day n is (n + 3) mod 7 + 1 |
| `Calendar.KnownDates` | sw/lib/source/neorv32_aux.c:113-169 | dates and weekdays around the leap day of 2000, the missing one of 2100, and the last day of 65535 |
| `Calendar.OutOfRange` | sw/lib/source/neorv32_aux.c:56-100 | fields that are all out of range give Unix time 0 |
| `TrapEntry.VectorTable.Setup` | sw/lib/source/neorv32_rte.c:306-326 | core 0 points every trap code to the panic handler, other cores change nothing |
| `TrapEntry.VectorTable.Install` | sw/lib/source/neorv32_rte.c:343-353 | exactly one valid code, an exception 0 to 31 or an interrupt 0 to 31, gets the handler; any other is refused |
| `TrapEntry.VectorTable.Uninstall` | sw/lib/source/neorv32_rte.c:368-378 | exactly one valid code gets the panic handler back |
| `TrapEntry.VectorTable.Perform` | sw/lib/source/neorv32_rte.c:306-378 | after any sequence of these, each code leads to the handler last installed for it |
| `TrapEntry.LastInstalledMeans` | sw/lib/source/neorv32_rte.c:306-378 | the handler in force is that of the last call that sets the code, found by position in the sequence |
| `TrapEntry.CodeRanges` | sw/lib/source/neorv32_rte.c:346 | which codes are valid |
| `TrapEntry.CodesDistinct` | sw/lib/source/neorv32_rte.c:349 | interrupt bit and cause index every code by itself |
| `TrapEntry.SlotsDistinct` | sw/lib/source/neorv32_rte.c:170-212 | the frame slots of different registers do not overlap, also where the stack wraps |
| `TrapEntry.Hart.Save` | sw/lib/source/neorv32_rte.c:170-212 | register r is found at 4*r behind the new stack pointer, 4*16 or 4*32 bytes below the old one, the old stack pointer included; no memory outside these bytes changes |
| `TrapEntry.Hart.BehindFrame` | sw/lib/source/neorv32_rte.c:170-212 | the frame is the bytes between the new and the old stack pointer, also where the addresses wrap |
| `TrapEntry.Hart.Dispatch` | sw/lib/source/neorv32_rte.c:218-226 | the shifted and masked cause addresses the table entry of the trap code |
| `TrapEntry.Hart.AdjustMepc` | sw/lib/source/neorv32_rte.c:232-245 | the return address moves on by the instruction's size for exceptions only |
| `TrapEntry.Hart.Restore` | sw/lib/source/neorv32_rte.c:251-285 | every register but x0 is loaded from the frame, the stack pointer last |
| `TrapEntry.Hart.ContextGet` | sw/lib/source/neorv32_rte.c:391-406 | the register's value in the frame, 0 for x0 |
| `TrapEntry.Hart.ContextPut` | sw/lib/source/neorv32_rte.c:419-431 | changes one register of the frame, nothing for x0 |
| `TrapEntry.EditedIsLastPut` | sw/lib/source/neorv32_rte.c:419-431 | after any handler a frame slot has the last value put, or its original one |
| `TrapEntry.LastPutMeans` | sw/lib/source/neorv32_rte.c:419-431 | the value of a frame slot is that of the last `context_put` for the register, or the original, found by position |
| `TrapEntry.Hart.Trap` | sw/lib/source/neorv32_rte.c:161-294 | entry, installed handler, exit: each register has its last put value or its old one, memory outside the frame below the old stack pointer is the handler's, x0 and sp are kept, the return address is adjusted for exceptions only |
| `TrapEntry.LastStoreMeans` | sw/lib/source/neorv32_rte.c:218-226 | a word outside the frame has what the handler stored there last, or what it had before the trap |
| `TrapEntry.LastMepcMeans` | sw/lib/source/neorv32_rte.c:218-245 | the return address is the one the handler wrote last, or the original |
| `Timer.Counter.Pass` | sw/lib/source/neorv32_clint.c:90-98 | if the high word reads the same before and after, the joined value is the counter at the low read |
| `Timer.Counter.Get` | sw/lib/source/neorv32_clint.c:87-104 | returns the counter at the low read of the first quiet pass, whatever ticks fall in between; the cycle and instret readers (sw/lib/source/neorv32_cpu.c:22-39 and 64-81) have the same loop |
| `Timer.Counter.GetSeconds` | sw/lib/source/neorv32_clint.c:158-161 | the seconds of the counter at the low read of a quiet pass |
| `Timer.TwoPassesSuffice` | sw/lib/source/neorv32_cpu.c:22-39 | if two passes take fewer than 2^32 ticks one of them is quiet |
| `Timer.StableHigh` | sw/lib/source/neorv32_cpu.c:64-81 | equal high words around a low read stood still in between |
| `Timer.Clint.TimeSet` | sw/lib/source/neorv32_clint.c:68-77 | exact at the last store iff no carry leaves the low word between the last two; the setters of mcycle and minstret (sw/lib/source/neorv32_cpu.c:47-56 and 89-98) store in the same order |
| `Timer.TimeSetMisses` | sw/lib/source/neorv32_clint.c:68-77 | 2^32 - 1 ticks and then one more between the stores: set to 0, the time is not 0 |
| `Timer.CarryOf` | sw/lib/source/neorv32_cpu.c:47-56 | the high word survives d ticks iff no carry, or a multiple of 2^32 of them, arrives |
| `Timer.Clint.MtimecmpSet` | sw/lib/source/neorv32_clint.c:114-125 | sets one hart's comparator by three stores of a word, and none of its intermediate values is below both the old and the new one |
| `Timer.NoSpuriousInterrupt` | sw/lib/source/neorv32_clint.c:121-124 | so no interrupt is pending on the way while the time is below both |
| `Timer.Clint.UnixTimeSet` | sw/lib/source/neorv32_clint.c:147-150 | the timer holds clock times seconds, modulo 2^64 |
| `Timer.Clint.UnixTimeAfter` | sw/lib/source/neorv32_clint.c:147-161 | the Unix time, read by the retry loop while the timer counts on, is the one set iff less than a second has passed at the access that counts |
| `LrScLock.StepKeepsInv` | sw/example/demo_dual_core/spinlock.c:18-52 | every step of every core keeps: one holder at most, word nonzero iff held, a valid reservation of a waiting core means the word is still 0 |
| `LrScLock.StepRefines` | sw/example/demo_dual_core/spinlock.c:18-37 | every step is a step of the abstract lock: taken when free, given back by the owner |
| `LrScLock.LockIsSafe` | sw/example/demo_dual_core/spinlock.c:18-52 | in every state of every run, for any number of cores: mutual exclusion, and the word tells whether the lock is held |
| `LrScLock.LockIsLive` | sw/example/demo_dual_core/spinlock.c:18-21 | a core waiting for a free lock gets it in two undisturbed steps |
| `LrScLock.UnlockIsLive` | sw/example/demo_dual_core/spinlock.c:29-36 | a core that unlocks has freed the lock after two undisturbed steps |
| `SwapLock.StepRefines` | sw/example/demo_dual_core_rte/spinlock.c:18-31 | every swap step keeps the invariant and is a step of the abstract lock |
| `SwapLock.LockIsSafe` | sw/example/demo_dual_core_rte/spinlock.c:18-31 | mutual exclusion, and the word is nonzero iff the lock is held, in every state of every run |
| `Primes.IsPrime` | sw/example/demo_dual_core_primes/main.c:31-43 | true iff the number is prime and not 4294967291, for every 32-bit number |
| `Primes.PrimeMeans` | sw/example/demo_dual_core_primes/main.c:31-43 | prime means: from 2 on, and no product of two numbers from 2 on |
| `Primes.NoSmallDivisor` | sw/example/demo_dual_core_primes/main.c:37-41 | trial division up to the square root decides primality |
| `Primes.NoSquareAbove` | sw/example/demo_dual_core_primes/main.c:37 | no square modulo 2^32 exceeds 2^32 - 7 |
| `Primes.TopNumbers` | sw/example/demo_dual_core_primes/main.c:37 | 2^32 - 5 is the only candidate above that without a small divisor |
| `Primes.LoopRunsOut` | sw/example/demo_dual_core_primes/main.c:37-41 | the wrapped loop reaches its own argument for that number only |
| `PrimeCertificate.MisjudgedIsPrime` | sw/example/demo_dual_core_primes/main.c:37-41 | 2^32 - 5 is prime, so `IsPrime` is wrong about it |
| `PrimeCertificate.Certificate` | sw/example/demo_dual_core_primes/main.c:37-41 | a number is prime if powers of two certify it: no divisor below its root can be one |
| `Primes.CountPrimes` | sw/example/demo_dual_core_primes/main.c:53-62 | the number of reported primes in a range |
| `Primes.CountSplits` | sw/example/demo_dual_core_primes/main.c:147-158 | counting is additive over a split range |
| `DualCorePrimes.InvAlways` | sw/example/demo_dual_core_primes/main.c:70-159 | the handshake invariant holds in every state of every interleaving |
| `DualCorePrimes.DualEqualsSingle` | sw/example/demo_dual_core_primes/main.c:147-159 | in every interleaving the result is the number of primes one core reports |
| `DualCorePrimes.HandshakeProgresses` | sw/example/demo_dual_core_primes/main.c:70-159 | until both are done one core can step towards the end, and no step leads away |
| `Life.Universe.Clear` | sw/example/game_of_life/main.c:227-236 | no cell of one universe lives, the other is unchanged |
| `Life.Universe.SetBit` | sw/example/game_of_life/main.c:251 | setting a bit of a packed byte changes exactly one cell |
| `Life.Universe.SetCell` | sw/example/game_of_life/main.c:246-252 | adds one cell to the population; an out-of-range cell is ignored |
| `Life.Universe.GetCell` | sw/example/game_of_life/main.c:263-286 | the cell at the coordinates modulo width and height, also one step over an edge |
| `Life.Universe.GetNeighborhood` | sw/example/game_of_life/main.c:297-315 | the number of directions with a living neighbour on the torus, at most 8 |
| `Life.OneMoreDirection` | sw/example/game_of_life/main.c:305-312 | each direction adds its own neighbour once |
| `Life.EightNeighbours` | sw/example/game_of_life/main.c:297-315 | the neighbours are the sum over the eight cells around, coordinates modulo width and height |
| `Life.NextGenerationRule` | sw/example/game_of_life/main.c:149-169 | which cells live next, by that sum |
| `Life.BlinkerAcrossEdge` | sw/example/game_of_life/main.c:263-286 | three cells in a row across the edge of 160 times 40 cells turn upright |
| `Life.NextGenerationMoves` | sw/example/game_of_life/main.c:263-286 | the next generation commutes with every shift of the torus: no edge is special |
| `Life.Universe.Advance` | sw/example/game_of_life/main.c:149-169 | the other universe becomes the next generation whatever it held; the current one is unchanged |
| `Life.Universe.Simulate` | sw/example/game_of_life/main.c:133-170 | n passes of the main loop give the n-th generation |
| `Life.Universe.PopCount` | sw/example/game_of_life/main.c:324-336 | the size of the population |
| `Life.CountedNext` | sw/example/game_of_life/main.c:328-333 | each cell visited adds itself once to the count |
| `Xtea.Encipher` | sw/example/demo_cfu/main.c:104-119 | the loop computes the enciphered block in place, nothing else in the array changes |
| `XteaVector.TestVector` | sw/example/demo_cfu/main.c:104-119 | the published vector of 32 cycles: key 00010203 04050607 08090A0B 0C0D0E0F, block 41424344 45464748, result 497DF3D0 72612CB5 |
| `Xtea.Decipher` | sw/example/demo_cfu/main.c:130-145 | the loop, starting from the multiplied sum, computes the deciphered block in place |
| `Xtea.UndoneCycle` | sw/example/demo_cfu/main.c:112-114 | one cycle of either kind undoes one of the other at the same running sum |
| `Xtea.SumStep` | sw/example/demo_cfu/main.c:135-141 | the sum of n cycles, as a product modulo 2^32, steps as the running sum does |
| `Xtea.DecipherRetraces` | sw/example/demo_cfu/main.c:130-145 | deciphering goes back through every intermediate block of enciphering, for every key, block and number of cycles |
| `Xtea.EncipherRetraces` | sw/example/demo_cfu/main.c:104-119 | and the other way round |
| `Xtea.DecipherUndoesEncipher` | sw/example/demo_cfu/main.c:104-145 | deciphering undoes enciphering |
| `Xtea.EncipherUndoesDecipher` | sw/example/demo_cfu/main.c:104-145 | enciphering undoes deciphering |
| `Xtea.ThereAndBack` | sw/example/demo_cfu/main.c:104-145 | both calls in a row leave the array as it was |

## Left out

- FatOpen.PfOpen: on a volume whose geometry is not sound (a cluster size that is no power of two, areas that do not fit) which file is opened is left open, as is what reading and directory search deliver there; that they end, and the bound on the entries read, hold on every volume. Seeking is modelled on sound geometry only.
- FatMount.PfMount: division by zero in an inconsistent block is modelled as the RISC-V `divu` result.
- FatFile.FatFs.PfRead: the null-buffer case is a method of its own, `FatFile.FatFs.PfForward`.
- BootLoader.Boot.AppLoad: its passes are counted, so that a load that never ends has a contract, too; what a card with an inconsistent boot record delivers is left open; the UART and TWI flash streams are not modelled.
- BootLoader.Boot.StoreThenLoad: the default addresses and sector size of sw/bootloader/config.h are used, and the memory is a map from addresses to words, without alignment traps.
- FatNames.CreateName: double-byte code pages are not modelled; the case table of a single-byte code page is a parameter.
- Calendar.DateTime.SetUnixTime: beyond December 31st, 65535 the 16-bit year field overflows and nothing is said about the date.
- TrapEntry.Hart.Save: the unrolled stores and loads are loops over 16 or 32 registers.
- TrapEntry.Hart.Trap: a handler is a sequence of its effects that leaves sp and mscratch alone and writes the frame through `context_put` only; nested traps are not modelled, nor is the hardware's clearing of low bits in mepc.
- The shipped configuration builds Petit FatFs with FAT32 reading only (sw/bootloader/petit_fatfs/pffconf.h:12-19); the model has all three FAT types, seeking and directory text enabled, and 32-bit cluster numbers.
- `pf_write` is compiled out. Its rounding of the position (pff.c:1009) would not keep the cursor invariant.
- Disks are deterministic: a sector can always be read or never. Card commands and timing are not modelled.
- `pf_opendir`, `pf_readdir` and `dir_read`: they only repeat the slot walk of `dir_next`.
- The 1-Wire driver below bit level, and devices that join or leave during a search.
- Spinlocks and the dual-core handshake are transition systems over single memory accesses, sequentially consistent; fairness is not assumed, so only progress of undisturbed steps is proved. Each core unlocks only while it holds the lock.
- The prime count of each core is one step of the handshake model.
- `neorv32_aux_itoa`, `neorv32_aux_hexstr2uint64` and `neorv32_aux_xorshift32`: they would only add easy members.
- The random start pattern and printing of the Game of Life; the XTEA hardware unit.
- UART, SPI, TWI, GPIO, DMA and PWM drivers, consoles, newlib stubs, Zfinx and unaligned-access emulation, core 1 boot code, the bootloader's console, image generation: register plumbing or code outside the files modelled.
