# Banana installer and boot path: a verified model

This project models how the operating system gets from a disk image to a running kernel, and proves what the steps
promise each other:

- **Packing and diskettes.** A 64 MB image is packed into a bitmap of blank sectors and volumes of 2600 other sectors
  (`SparseImage`), put on numbered diskettes (`Diskettes`) and read back by a reader with a memoised rank, a track
  buffer and a diskette-change protocol (`FloppyReader`).
- **Installation.** The installer formats the start of a partition and copies the image with a larger FAT and a moved
  data area (`Layout`, `InstallMedia`, `Installer`); `InstalledVolume` says what the volume then means.
- **Reading files.** The firmware splits a path (`Paths`), searches directories and follows FAT32 chains (`FatReader`)
  against the meaning of a volume (`Fat32`). `EndToEnd` joins all of this: a file read from the installed partition has
  the bytes that its path names in the image.
- **Partition editor.** Sorting (`PartitionSort`), the list with the free areas (`GapList`), the four slots of the boot
  record (`PartitionTable`), the editor over whole sessions (`PartitionEditor`), and installing on a partition of its
  table (`InstallTarget`).
- **Kernel.** The ELF loader (`KernelLoader`) and the page tables with the processor's walk (`PageTables`).
- **Two small cores.** The package format and its reader (`Cabinet`) and the bit finders (`BitFinders`).

`Bytes` and `Division` hold bytes, fields and arithmetic. Code that changes things step by step is modelled by methods,
classes and arrays, and each method is proved against a specification function or predicate; the theorems are about
those.

Standards: Microsoft FAT32 File System Specification 1.03, sections "Boot Sector and BPB", "FAT Data Structure" and "FAT
Directory Structure"; Intel SDM Volume 3A, section 4.3; TIS ELF 1.2, Book I, "Program Loading and Dynamic Linking".

## Properties that do not hold as one might expect

Each is kept as the code has it, with the exact condition proved.

- The test before a diskette prompt compares the marker with the diskette number less one, the test after it with the
  number plus one. The first accepts, but for the boot diskette, only wrong diskettes: the one two before the diskette
  that is asked for, and the boot diskette for the 172nd (`EarlyAcceptsExactly`). Without such a jump every request is
  served from the right diskette, in whatever order (`RunStaysSynced`, `ReadSectors`); image order never jumps.
- The copy loop moves four sectors at a time, so the layout is right exactly if nothing moves or the data area starts on
  a multiple of four other than 0 (`LayoutIsRightExactly`).
- The FATs are copied as they stand. With two FATs that agree in the image, those of the installed volume agree exactly
  if the FAT has not grown or holds nothing (`SecondFatIsLost`, which also has the condition for FATs that do not
  agree); the first FAT repeats the image's entries for clusters that the image does not have (`StaleEntries`). Files
  of the image are not affected.
- Writes stay inside the partition exactly if `Extent` is no larger (`WritesInsideExactly`). Up to 15 FATs this always
  holds (`WritesInside`); with 16 it can fail (`SixteenFatsOverrun`). The new FAT covers the partition exactly if the
  data start leaves room (`NewFatCovers`); with 129 FATs the product can wrap around and it does not (`ManyFatsWrap`).
- The end-of-chain test looks at a value already cut to 28 bits and never succeeds (`EndTestNeverFires`). A search in a
  directory ends exactly if the name is there, or the directory ends and the search from where its last link leads does
  (`SearchEndsExactly`). That LBA is outside the data area: past the highest LBA the search ends with nothing, past the
  end of the disk it runs off the disk, and else it goes on as if the sector were part of the directory
  (`AbsentExactly`). After an end-of-chain mark, on a disk of less than 2^28 - 8 sectors, it always runs off the disk
  (`EndMarkRunsOff`).
- A tree survives packing and reading exactly if every folder's name has 1 to 250 characters, every file's up to 255,
  and every file's stored bytes fit 28 bits of length (`SurvivesExactly`); the last part assumes of the compressor that
  a string cut short does not give back its data.
- The loader's size test passes the segments of the file and, besides, those whose end wraps around
  (`TestPassesExactly`).

## Model

| member | source | states |
|---|---|---|
| `SparseImage.Pack` | installer/zeros.py:21-63 | fails exactly on an image without a sector; else the bitmap has one right bit per sector and the volumes hold the non-zero sectors in order, the last filled up with the final sector |
| `SparseImage.WriteSector` | installer/zeros.py:28-36 | one sector keeps the volumes equal to the non-zero sectors met so far, cut every 2600 |
| `SparseImage.WriteBit` | installer/zeros.py:38-43 | one bit keeps the bitmap right, most significant bit first |
| `SparseImage.RankCounts` | firmware/INSTALLER/INSTALLER.C:468-472 | counting clear bits below a sector counts the non-zero sectors below it |
| `SparseImage.RankFinds` | firmware/INSTALLER/INSTALLER.C:458-480 | the rank of a non-zero sector is its place in the stream of non-zero sectors |
| `SparseImage.PackedSector` | firmware/INSTALLER/INSTALLER.C:25-32 | bit test, rank, quotient and remainder by 2600 lead to the image's own sector |
| `SparseImage.RoundTrip` | installer/zeros.py:21-43 | unpacking a packed image gives it back, for every image of a multiple of 8 sectors |
| `SparseImage.PackingIsInjective` | installer/zeros.py:21-43 | two images of one length with the same packed form are equal |
| `SparseImage.BitmapBit` | installer/zeros.py:23-43 | in bytes: bit 128, 64, ..., 1 of byte i of the bitmap is set exactly if the 512 bytes of sector 8i, 8i + 1, ..., 8i + 7 are 0 |
| `SparseImage.VolumesInFull` | installer/zeros.py:28-63 | in numbers: one more volume than full sets of 2600 non-zero sectors, each of 2600 sectors, in order, then copies of the image's last sector |
| `Diskettes.Join` | installer/floppyjoin.py:2-16 | every diskette gets its marker, and nothing behind its boot sector changes, so it still carries its volume |
| `Diskettes.EarlyAcceptsExactly` | firmware/INSTALLER/INSTALLER.C:493-503 | for any request, the test before a prompt accepts exactly the boot diskette for itself, diskette c for c + 2, and the boot diskette for the 172nd |
| `Diskettes.PromptAcceptsExactly` | firmware/INSTALLER/INSTALLER.C:542-557 | the test after ENTER accepts exactly the diskette that was asked for |
| `Diskettes.TestsExactly` | firmware/INSTALLER/INSTALLER.C:493-557 | for every byte 511 and every request: the two tests agree on 0xAA and 0x55 for the boot diskette only; the later one takes the number plus one, the early one the number less one |
| `Diskettes.OffersExactly` | firmware/INSTALLER/INSTALLER.C:534-557 | the operator offers the later diskettes in order exactly if the list has places, one behind the other, for each of them |
| `Diskettes.SkipToExactly` | firmware/INSTALLER/INSTALLER.C:534-557 | a prompt uses up the list up to and including the first place of the right diskette |
| `Diskettes.ServeExactly` | firmware/INSTALLER/INSTALLER.C:480-567 | from a drive in step, a request that is served is served from the right diskette exactly if it is no such jump, and then it is served exactly if the diskette is there or the operator will offer it |
| `Diskettes.RunStaysSynced` | firmware/INSTALLER/INSTALLER.C:480-567 | over every run of requests without such a jump, in any order: one that ends well ends with the last diskette asked for in the drive |
| `Diskettes.RisingStep` | firmware/INSTALLER/INSTALLER.C:480-567 | a request for the same or the next diskette keeps the description of the whole run |
| `Diskettes.RisingRun` | firmware/INSTALLER/INSTALLER.C:480-567 | over every run that never falls and rises by at most one: it ends well exactly if the later diskettes have prompts and are offered in order, and each is then asked for once, in order |
| `Diskettes.ImageOrderRises` | firmware/INSTALLER/INSTALLER.C:458-481 | reading sectors in image order gives such a run, from any sector to any later one |
| `Diskettes.NextInOrder` | firmware/INSTALLER/INSTALLER.C:480-567 | the next sector in order is served from the diskette that holds it |
| `Diskettes.StoppedInOrder` | firmware/INSTALLER/INSTALLER.C:511-538 | a run that has stopped at one sector has stopped for all later ones |
| `Diskettes.FirstRequests` | firmware/INSTALLER/INSTALLER.C:1574-1580 | the first four sectors never ask for a diskette |
| `Diskettes.ImageRun` | firmware/INSTALLER/INSTALLER.C:1574-1660 | reading a whole image ends well exactly if it has at most 20800 non-zero sectors and the operator offers diskettes 2, 3, ... in order; the prompts are then exactly those, and the error popup needs more sectors than that |
| `Diskettes.PromptsExactly` | firmware/INSTALLER/INSTALLER.C:480-567 | in numbers: one prompt for every 2600 non-zero sectors begun after the first 2600, from the second diskette on |
| `FloppyReader.Reader.constructor` | firmware/INSTALLER/INSTALLER.C:442-445 | the initial state is coherent: no track in the buffer, diskette 1 in the drive, counters at 0 |
| `FloppyReader.Reader.ReadTrack` | firmware/INSTALLER/INSTALLER.C:574 | a floppy read fills the buffer with 18 sectors |
| `FloppyReader.Reader.ActualLBA` | firmware/INSTALLER/INSTALLER.C:458-478 | after any requests, the count from the memoised pair equals a count from the start, and the pair stays a point of the rank function |
| `FloppyReader.Reader.Prompt` | firmware/INSTALLER/INSTALLER.C:505-566 | asks once and takes the first diskette offered that is the right one; else it is left waiting with the last one offered |
| `FloppyReader.Reader.ChangeDiskette` | firmware/INSTALLER/INSTALLER.C:483-567 | changes the drive exactly as the state machine does and leaves no track in the buffer |
| `FloppyReader.Reader.Fetch` | firmware/INSTALLER/INSTALLER.C:569-581 | the track buffer stays coherent, and the sector served is the diskette's |
| `FloppyReader.Reader.FloppyReadSector` | firmware/INSTALLER/INSTALLER.C:448-583 | in every valid state: a blank sector touches nothing but its counter; any other is served exactly as by a reader without memo and buffer; the invariants hold after it |
| `FloppyReader.Reader.ReadStored` | firmware/INSTALLER/INSTALLER.C:456-581 | a sector that is not blank is served from the place that its rank says, on the diskette that the state machine says |
| `FloppyReader.Reader.ReadSectors` | firmware/INSTALLER/INSTALLER.C:448-583 | any sectors in any order, whatever calls came before: the diskettes change as in the run of the requests, and without a jump every sector is the image's |
| `FloppyReader.PackedIsStored` | firmware/INSTALLER/INSTALLER.C:480-481 | a packed image on diskettes has every sector where the reader looks for it |
| `InstallMedia.Media.Read2KSectorFromInstallMedia` | firmware/INSTALLER/INSTALLER.C:37-51 | four sectors of the image in order from either medium, counted by kind; on diskettes the run of requests goes on as the image order says |
| `InstallMedia.Media.ReadFromDiskettes` | firmware/INSTALLER/INSTALLER.C:39-46 | four consecutive sectors, each counted by kind, or the outcome of the run |
| `InstallMedia.Media.NextSector` | firmware/INSTALLER/INSTALLER.C:448-583 | during the installation, the next sector in image order is the image's sector and is counted by kind (`ReadSectors` has the other orders) |
| `InstallMedia.Media.FirstGroupIsSafe` | firmware/INSTALLER/INSTALLER.C:1574-1580 | rereading the first group cannot fail and leaves the drive as it was |
| `Layout.PatchedBpb` | firmware/INSTALLER/INSTALLER.C:1631-1633 | the patch sets hidden sectors, size and FAT size and leaves every other byte of the boot sector |
| `Layout.LayoutIsRightExactly` | firmware/INSTALLER/INSTALLER.C:1656-1669 | deciding once per group of four puts every sector where it belongs exactly if nothing moves or the data area starts on a later multiple of four |
| `Layout.DestIsBijective` | firmware/INSTALLER/INSTALLER.C:1656-1676 | every image sector is written to one place and no place gets two |
| `Layout.InstalledLayout` | firmware/INSTALLER/INSTALLER.C:1586-1676 | patched boot sector, reserved area and FATs in place, blank up to the new data start, data shifted, and nothing else on the disk changed |
| `Layout.WritesInsideExactly` | firmware/INSTALLER/INSTALLER.C:1598-1676 | all formatting and copying writes are inside the partition exactly if `Extent` is at most its size |
| `Layout.SizeCheckExactly` | firmware/INSTALLER/INSTALLER.C:1916 | the size check passes from 133120 sectors on |
| `Layout.WritesInside` | firmware/INSTALLER/INSTALLER.C:1586-1676 | up to 15 FATs, if the image's FAT covers the image, the extent fits every partition over 64 MB |
| `Layout.SixteenFatsOverrun` | firmware/INSTALLER/INSTALLER.C:1586-1590 | with 16 FATs there is a partition that the copy overruns by 15 sectors |
| `Layout.NewFatSize` | firmware/INSTALLER/INSTALLER.C:1586 | the new FAT's sector count is the quotient by 128, without wrap-around |
| `Layout.NewFatCovers` | firmware/INSTALLER/INSTALLER.C:1586-1590 | for every size and up to 255 FATs, the new FAT has an entry for every data cluster of the partition exactly if the data start leaves room for the remainder and two entries; where nothing can wrap around, exactly if there is a FAT |
| `Layout.ManyFatsWrap` | firmware/INSTALLER/INSTALLER.C:1586-1590 | with 129 FATs there is a partition whose new FAT is too short |
| `Installer.Installation.RealInstall` | firmware/INSTALLER/INSTALLER.C:1549-1693 | if the operator lets it finish, the disk is the relocated image over the formatted partition; the diskette run is that of reading the image in order; the percentages shown are those of the groups copied, never fall and stay from 1 to 101; the counters end as the bitmap counts |
| `Installer.Installation.Format` | firmware/INSTALLER/INSTALLER.C:1598-1605 | blanks exactly the sectors up to two past the new data start; one percentage for each LBA that is a multiple of 4 |
| `Installer.FormatClimbs` | firmware/INSTALLER/INSTALLER.C:1601 | the formatting percentages never fall and stay from 1 to 100 |
| `Installer.FormatPercentsAt` | firmware/INSTALLER/INSTALLER.C:1598-1605 | in numbers: how many formatting percentages there are and which |
| `Installer.Installation.CountTotals` | firmware/INSTALLER/INSTALLER.C:1613-1617 | the totals are the bitmap's counts |
| `Installer.Installation.StartCounting` | firmware/INSTALLER/INSTALLER.C:1610-1621 | the totals are known and the counters are at 0, the drive as it was |
| `Installer.Installation.CopyFirstGroup` | firmware/INSTALLER/INSTALLER.C:1629-1653 | the first group is on the disk with the patched boot sector |
| `Installer.Installation.WriteLBA` | firmware/INSTALLER/INSTALLER.C:1663-1671 | the wrapping arithmetic gives the group's place, inside the extent |
| `Installer.Installation.CopyGroup` | firmware/INSTALLER/INSTALLER.C:1660-1676 | one group more is copied, counted and nothing else written, or the run's outcome is handed on |
| `Installer.Installation.CopyImage` | firmware/INSTALLER/INSTALLER.C:1656-1693 | the loop copies every group once, the counters reach the totals, and the progress shown is that of the groups copied |
| `Installer.Installation.ShowProgress` | firmware/INSTALLER/INSTALLER.C:1680-1692 | shows the percentage of the sectors copied so far exactly after the groups after which it is shown |
| `Installer.Installation.CopyPercentsClimb` | firmware/INSTALLER/INSTALLER.C:1678-1692 | the percentages shown while copying never fall and stay from 1 to 101 |
| `Installer.Installation.ShowsExactly` | firmware/INSTALLER/INSTALLER.C:1679-1680 | the progress is shown after the fifth group of each 256 and, from diskettes, after every sixteenth |
| `Installer.Installation.ProgressExactly` | firmware/INSTALLER/INSTALLER.C:1681-1690 | in numbers: a non-zero sector weighs as much as fifteen blank ones; from a CD the groups are counted |
| `Installer.GroupCopied` | firmware/INSTALLER/INSTALLER.C:1663-1676 | writing one group to its place extends the copied part by exactly four sectors |
| `Installer.DiskettePercentGrows` | firmware/INSTALLER/INSTALLER.C:1683 | the diskette percentage never falls and stays from 1 to 101 |
| `Installer.DiscPercentGrows` | firmware/INSTALLER/INSTALLER.C:1689 | the CD percentage never falls and stays from 1 to 101 |
| `InstalledVolume.TargetBpb` | firmware/INSTALLER/INSTALLER.C:1631-1633 | the installed boot sector describes the partition: reserved sectors and FAT count as in the image, its own place, the new FAT size |
| `InstalledVolume.RelocationKeepsClusters` | firmware/INSTALLER/INSTALLER.C:1582-1676 | every data cluster and every FAT link of the image is found again through the patched BPB |
| `InstalledVolume.InstallationKeepsFiles` | firmware/INSTALLER/INSTALLER.C:1582-1693 | every path that names a file in the image names one with the same bytes in the installed volume |
| `InstalledVolume.MirroredExactly` | firmware/INSTALLER/INSTALLER.C:1656-1676 | the FATs of the installed volume agree exactly if the image's FATs, filled up with blank sectors, repeat after the new size |
| `InstalledVolume.GrownMirrorExactly` | firmware/INSTALLER/INSTALLER.C:1656-1676 | for FATs that agree in the image that is: exactly if they do not grow or hold nothing |
| `InstalledVolume.SecondFatIsLost` | firmware/INSTALLER/INSTALLER.C:1586-1676 | for every installation with two FATs: both conditions, and, where the new FAT has room for both old ones, agreement exactly if those were blank |
| `InstalledVolume.StaleEntries` | firmware/INSTALLER/INSTALLER.C:1656-1676 | as far as the new FAT reaches, the image's second FAT becomes more entries of the first, repeating it |
| `Fat32.FirstMatch` | firmware/firmware.c:353-365 | the first entry that matches, or 16 if none does |
| `Fat32.HitHereOrNext` | firmware/firmware.c:341-393 | a search ends in this cluster with the first match or goes on in the next |
| `Fat32.HitUnique` | firmware/firmware.c:341-393 | a search has only one place to end |
| `Fat32.SameLookup` | firmware/firmware.c:341-393 | volumes with the same clusters and links find the same entry |
| `Fat32.SameContents` | firmware/firmware.c:438-492 | volumes with the same clusters and links give every path the same bytes, wherever they lie |
| `Fat32.BpbFromBytes` | firmware/pbe/arch/x86.asm:21-24 | in bytes: where a boot sector has its four fields |
| `Fat32.ClusterFromBytes` | firmware/firmware.c:301-339 | in bytes: where a cluster and its FAT entry stand, and the 28 bits that count |
| `Fat32.MatchesExactly` | firmware/firmware.c:354-361 | a name matches exactly if the entry begins with its eleven characters and all are below 128 |
| `Fat32.EntryIsRead` | firmware/firmware.c:363-387 | in bytes: the first entry of a name gives back its cluster number and its size, all 32 bits of each |
| `Fat32.FileByteAt` | firmware/firmware.c:476-491 | byte p of a file is byte p modulo 512 of the cluster p / 512 links down its chain |
| `FatReader.EndTestNeverFires` | firmware/firmware.c:326-333 | whatever the FAT entry, the successor is computed as if there were no end test |
| `FatReader.LinkLba` | firmware/firmware.c:308-334 | no link of a data cluster wraps around; it leads past the highest LBA exactly if data start and link do |
| `FatReader.HitEnds` | firmware/firmware.c:341-393 | a search for a present name ends with its first entry in chain order |
| `FatReader.ResolvesEnds` | firmware/firmware.c:450-474 | the searches for a path that resolves all end, the last with what it resolves to |
| `FatReader.ArrivesAtExit` | firmware/firmware.c:341-393 | a search for an absent name takes one step for each cluster of the directory and then is the search from its last link on |
| `FatReader.AbsentExactly` | firmware/firmware.c:341-393 | where that is, and when the search ends there, runs off the disk or goes on |
| `FatReader.EndMarkRunsOff` | firmware/firmware.c:326-393 | after an end-of-chain mark, on a disk of less than 2^28 - 8 sectors, it runs off the disk |
| `FatReader.SearchEndsExactly` | firmware/firmware.c:341-393 | a search ends exactly if the name is there, or the directory ends and the search from its last link does |
| `FatReader.EntryIsFound` | firmware/firmware.c:341-393 | from the bytes of a directory sector at any LBA: the search for a name in it ends with that entry's cluster number and size |
| `FatReader.FileFromEntry` | firmware/firmware.c:438-492 | from the bytes of an entry of the root directory: its path names a file of exactly that size, byte for byte in the clusters of that chain |
| `FatReader.ReturnValues` | firmware/firmware.c:343-386 | 0 and the old size without an entry, else the LBA of its cluster and, for the last component, its size |
| `FatReader.Reader.BootFATInformation` | firmware/pbe/arch/x86.asm:21-29 | the four globals are the boot sector's fields |
| `FatReader.Reader.GetNext` | firmware/firmware.c:308-334 | from any LBA to the LBA that its FAT entry names |
| `FatReader.NextIsLink` | firmware/firmware.c:308-334 | from a data cluster's LBA that is the LBA of its link |
| `FatReader.Reader.FindStartOfPathSection` | firmware/firmware.c:341-393 | from any LBA, every search that ends on the disk: the first match on the way, or 0 past the highest LBA; the size is set for the last component only |
| `FatReader.Reader.SearchSector` | firmware/firmware.c:353-390 | the loop over sixteen entries finds the first match |
| `FatReader.Reader.NameMatches` | firmware/firmware.c:354-361 | compares eleven characters, a name's being signed |
| `FatReader.Reader.TakeEntry` | firmware/firmware.c:363-387 | start and size of an entry |
| `FatReader.Reader.FindPath` | firmware/firmware.c:450-474 | for every path whose searches end: the loop over the components ends with what the last of them finds, or with nothing |
| `FatReader.Reader.CopyCluster` | firmware/firmware.c:481-491 | copies the first bytes of a cluster and nothing else |
| `FatReader.Reader.CopyFile` | firmware/firmware.c:476-491 | memory gets exactly the file's bytes and keeps every other; no link behind the last needed cluster matters |
| `FatReader.Reader.ReadFATFromHDD` | firmware/firmware.c:438-492 | memory gets exactly the bytes that the path names; a path whose last search ends with nothing changes nothing |
| `FatReader.Reader.Memcpy` | firmware/firmware.c:523-533 | copies the bytes and nothing else |
| `Paths.ScanPath` | firmware/firmware.c:464-471 | at the start of a path the twelve-character window ends with the first component |
| `Paths.SplitComponent` | firmware/firmware.c:455-471 | one turn of the splitting loop: the padded component, and where the rest starts |
| `Paths.NextComponent` | firmware/firmware.c:455-474 | on a path, a split gives the first component padded with spaces and leaves the rest of the path |
| `Paths.ThreeComponents` | firmware/firmware.c:455-474 | in characters: a string with two slashes or backslashes is the path of its three parts |
| `Paths.PadAt` | firmware/firmware.c:458-462 | a short component is filled up with character 32 |
| `Paths.SeparatorsExactly` | firmware/firmware.c:465 | characters 47 and 92 separate |
| `EndToEnd.InstallFromDiskettes` | firmware/INSTALLER/INSTALLER.C:448-1693 | a packed image on its diskettes is installed exactly if it is small enough and the operator offers the diskettes in order, with one prompt each |
| `EndToEnd.InstallAndRead` | firmware/firmware.c:301-492 | then reading any file of the image from the partition gives the image's bytes |
| `EndToEnd.BootFromVolume` | firmware/BOOT2/BOOT2.C:527-624 | the kernel file is read, loaded and mapped: it goes through exactly if the loader's test stops at no segment, and then every address of every segment from the file reads the byte of the file that the path names |
| `EndToEnd.InstallAndBoot` | firmware/BOOT2/BOOT2.C:527-624 | from packed diskettes to the kernel in its address space, with the image's bytes |
| `PartitionSort.SwapLowers` | firmware/INSTALLER/INSTALLER.C:1263-1270 | a swap removes exactly one inversion |
| `PartitionSort.SwapIsStable` | firmware/INSTALLER/INSTALLER.C:1263-1270 | a swap keeps the partitions and the order of those that start alike |
| `PartitionSort.Pass` | firmware/INSTALLER/INSTALLER.C:1262-1271 | a pass that swaps leaves fewer inversions; one that does not leaves a sorted array as it was |
| `PartitionSort.SortPartitions` | firmware/INSTALLER/INSTALLER.C:1259-1273 | ends, for every length, with a stable sorted permutation, and touches nothing behind it |
| `PartitionSort.StableSortIsUnique` | firmware/INSTALLER/INSTALLER.C:1259-1273 | there is only one such result |
| `GapList.SetGap` | firmware/INSTALLER/INSTALLER.C:1303-1311 | the gap behind a partition, as start and length |
| `GapList.ListOne` | firmware/INSTALLER/INSTALLER.C:1299-1317 | one turn lists a partition and its gap if that is large enough |
| `GapList.PutFreeAreasInGaps` | firmware/INSTALLER/INSTALLER.C:1292-1328 | the array shows the partitions with the free areas; without partitions it is one free area of 9999871 sectors from sector 128 |
| `GapList.ShownExactly` | firmware/INSTALLER/INSTALLER.C:1303-1311 | what an array entry shows, and start and length of a gap in 64-bit arithmetic |
| `GapList.EmptyListing` | firmware/INSTALLER/INSTALLER.C:1320-1325 | the list of an empty table is exactly that free area |
| `GapList.FreeAreasExactly` | firmware/INSTALLER/INSTALLER.C:1292-1328 | in numbers: the free areas are exactly what lies between the end of a partition and the next start, or sector 9999999, if that is 2048 sectors or more |
| `GapList.WholeConservation` | firmware/INSTALLER/INSTALLER.C:1292-1328 | listed lengths and dropped gaps add up to 9999999 less the first start |
| `GapList.Conservation` | firmware/INSTALLER/INSTALLER.C:1292-1328 | listed lengths and dropped gaps add up to the disk from the first partition on |
| `GapList.AreasAscend` | firmware/INSTALLER/INSTALLER.C:1292-1328 | what is listed stands in order, disjoint and on the disk |
| `GapList.PartitionsListed` | firmware/INSTALLER/INSTALLER.C:1299-1301 | each partition is listed once, in order |
| `GapList.GapsListed` | firmware/INSTALLER/INSTALLER.C:1303-1316 | a free area is listed exactly if it is a whole gap of at least 2048 sectors |
| `PartitionTable.SetSlotReads` | firmware/INSTALLER/INSTALLER.C:1226-1228 | writing a slot changes its start and length and no other byte |
| `PartitionTable.SlotFromBytes` | firmware/INSTALLER/INSTALLER.C:1238-1253 | in bytes: slot i has sixteen of them from byte 446 + 16i on, start and length in the last eight |
| `PartitionTable.GoodTableExactly` | firmware/INSTALLER/INSTALLER.C:1236-1257 | in numbers: the invariant of the editor |
| `PartitionTable.LoadedMembers` | firmware/INSTALLER/INSTALLER.C:1236-1257 | what is loaded are the non-empty slots |
| `PartitionTable.SortedTableInOrder` | firmware/INSTALLER/INSTALLER.C:1236-1273 | sorting a good table gives partitions in order and disjoint, the same as in the slots |
| `PartitionTable.FreeAreaIsClear` | firmware/INSTALLER/INSTALLER.C:1292-1328 | a listed free area overlaps no slot |
| `PartitionTable.FillKeeps` | firmware/INSTALLER/INSTALLER.C:1217-1234 | filling the first empty slot with clear sectors of the disk keeps the table good |
| `PartitionTable.CreateKeepsTable` | firmware/INSTALLER/INSTALLER.C:1217-1234 | creating in a listed free area, no larger than it, keeps the table good |
| `PartitionTable.DeleteKeepsTable` | firmware/INSTALLER/INSTALLER.C:1207-1215 | so does deleting |
| `PartitionTable.DeleteUndoesCreate` | firmware/INSTALLER/INSTALLER.C:1207-1234 | deleting what was just created gives back every byte of the boot record |
| `PartitionEditor.ParseSize` | firmware/INSTALLER/INSTALLER.C:1817-1824 | the typed megabytes as sectors |
| `PartitionEditor.FirstDigits` | firmware/INSTALLER/INSTALLER.C:1808-1814 | the seven digits shown at first are the free area's megabytes |
| `PartitionEditor.FirstSizeFits` | firmware/INSTALLER/INSTALLER.C:1808-1836 | the size shown at first is accepted in every free area of 2048 sectors or more below ten million megabytes |
| `PartitionEditor.AcceptSize` | firmware/INSTALLER/INSTALLER.C:1787-1857 | a size is accepted exactly if the area has 2048 sectors or more and the sectors are not 0 and fit |
| `PartitionEditor.CreateExactly` | firmware/INSTALLER/INSTALLER.C:1217-1234 | in numbers: a creation happens exactly then; the first empty slot gets the area's start and the size, and no other slot changes |
| `PartitionEditor.FirstCreation` | firmware/INSTALLER/INSTALLER.C:1320-1323 | on an empty table the first partition takes slot 0 and starts at sector 128 |
| `PartitionEditor.Editor.LoadPartitions` | firmware/INSTALLER/INSTALLER.C:1236-1257 | the array holds the non-empty slots in order |
| `PartitionEditor.Editor.Scan` | firmware/INSTALLER/INSTALLER.C:1866-1883 | the list shows the table, sorted, with the free areas; it is refused without a signature |
| `PartitionEditor.Editor.ActualPartitionCreate` | firmware/INSTALLER/INSTALLER.C:1217-1234 | the first empty slot gets the area's start and the size; a full table stays |
| `PartitionEditor.Editor.ActualPartitionDelete` | firmware/INSTALLER/INSTALLER.C:1207-1215 | clears the slot that the entry came from |
| `PartitionEditor.Editor.CreatePartition` | firmware/INSTALLER/INSTALLER.C:1785-1863 | accepts a size exactly if the area has 2048 sectors or more and the size is not 0 and fits; then writes the first empty slot, if there is one; keeps the table good |
| `PartitionEditor.Editor.DeletePartition` | firmware/INSTALLER/INSTALLER.C:1207-1215 | clears the slot that holds the selected partition, wherever sorting has put it, and keeps the table good |
| `PartitionEditor.ListedSlot` | firmware/INSTALLER/INSTALLER.C:1207-1328 | an entry that is not free shows the non-empty slot that its deletion clears |
| `PartitionEditor.Editor.Turn` | firmware/INSTALLER/INSTALLER.C:1866-1927 | one scan and action: the new table is what the action makes of the shown list, and it is good |
| `PartitionEditor.Editor.Session` | firmware/INSTALLER/INSTALLER.C:1866-1927 | every run of rescans, creations and deletions keeps the partitions non-empty, disjoint and on the disk, and no other byte of the boot record changes |
| `InstallTarget.WritesStayInside` | firmware/INSTALLER/INSTALLER.C:1582-1676 | an installation writes inside its partition |
| `InstallTarget.PartitionIsTarget` | firmware/INSTALLER/INSTALLER.C:1915-1918 | a partition of a good table that passes the size check can be installed on |
| `InstallTarget.SomeImageInstallable` | firmware/INSTALLER/INSTALLER.C:1915-1918 | for every partition that passes the size check there is an image that the installation theorems apply to |
| `InstallTarget.OtherPartitionsUntouched` | firmware/INSTALLER/INSTALLER.C:1549-1693 | installing on it changes no sector of another partition, nor the boot record |
| `PageTables.FillEmpty` | firmware/BOOT2/BOOT2.C:572-575 | 1024 empty directory entries and no other byte |
| `PageTables.FillIdentity` | firmware/BOOT2/BOOT2.C:580-584 | maps the first 4 MB to themselves and changes no other byte |
| `PageTables.FillKernelTables` | firmware/BOOT2/BOOT2.C:589-599 | 256 tables in a row: the kernel's megabyte to where it was loaded, the rest as it is |
| `PageTables.FillDirectory` | firmware/BOOT2/BOOT2.C:613-624 | the directory's entries for the kernel's gigabyte, the low tables and itself |
| `PageTables.BuildTables` | firmware/BOOT2/BOOT2.C:572-624 | all tables are as they should be, none spoils another, and nothing from the kernel's place on is touched |
| `PageTables.WalkExactly` | firmware/BOOT2/BOOT2.C:572-624 | the two-level walk gives the intended address space, for every 32-bit address |
| `PageTables.TablesExactly` | firmware/BOOT2/BOOT2.C:572-624 | in numbers: every entry of the four tables |
| `PageTables.WalkFromEntries` | kernel/boot/FIRMWARE.ASM:467-475 | the processor's walk from two entries (Intel SDM Volume 3A, section 4.3) |
| `PageTables.AddressSpaceExactly` | firmware/BOOT2/BOOT2.C:572-624 | in numbers: where each region of the address space leads |
| `KernelLoader.TestPassesExactly` | firmware/BOOT2/BOOT2.C:798-805 | the size test passes exactly the segments of the file's megabyte and those whose end wraps around |
| `KernelLoader.AllPassExactly` | firmware/BOOT2/BOOT2.C:798-805 | the loader goes through exactly if every segment to load is in the first megabyte of the file or its end wraps around |
| `KernelLoader.Loader.LoadSegment` | firmware/BOOT2/BOOT2.C:797-804 | from a wrapping source address; the bytes of a segment from the file are at its place, what follows them is 0, and nothing else changed |
| `KernelLoader.Loader.LoadKernel32` | firmware/BOOT2/BOOT2.C:785-817 | goes through exactly if the test stops at no segment; then every segment from the file is in memory and the highest free address is right |
| `KernelLoader.HighestEndIsMax` | firmware/BOOT2/BOOT2.C:812-814 | the highest free address is the maximum of the segments' ends |
| `KernelLoader.HeadersExactly` | firmware/BOOT2/BOOT2.C:788-800 | in numbers: where the file has its program headers and their fields |
| `KernelLoader.HeldIsMapped` | firmware/BOOT2/BOOT2.C:572-624 | through the tables, a loaded segment is seen at its virtual addresses |
| `KernelLoader.BootKernel` | firmware/BOOT2/BOOT2.C:572-817 | after loading and building tables, the processor reads at every address of every segment from the file the file's byte below the file size and 0 from there up to the memory size |
| `KernelLoader.SegmentIsSeen` | firmware/BOOT2/BOOT2.C:797-804 | a mapped segment as the processor sees it: the file's bytes, then zeros |
| `Cabinet.ChecksumOf` | packages/mkcab.py:47-50 | the data checksum modulo 2^24 |
| `Cabinet.HeaderChecksum` | packages/mkcab.py:67-70 | the header checksum modulo 2^8 |
| `Cabinet.FileEntry` | packages/mkcab.py:27-77 | one file's entry: header, checksum and stored data |
| `Cabinet.EntryExactly` | packages/mkcab.py:27-77 | in bytes: the compressed form exactly if it is shorter, its length, the flag, both checksums |
| `Cabinet.ScanFolder` | packages/mkcab.py:5-80 | the recursive loop writes the encoding of the tree |
| `Cabinet.FolderExactly` | packages/mkcab.py:23-25 | a folder inside a folder: the length of its name, its name, its own encoding; byte 255 closes |
| `Cabinet.MakeCab` | packages/mkcab.py:82-90 | the cabinet: BCAB and three bytes, the encoding, a zero |
| `Cabinet.RoundTrip` | packages/mkcab.py:5-80 | the encoding delimits itself: followed by anything, it gives back the tree and exactly what follows |
| `Cabinet.EncodingIsPrefixFree` | packages/mkcab.py:5-80 | distinct trees never encode alike, not even as a prefix |
| `Cabinet.SurvivesExactly` | packages/mkcab.py:5-80 | any tree, followed by anything, comes back exactly if all its names and sizes fit |
| `Cabinet.NamesDecide` | packages/mkcab.py:5-80 | with any compressor, a tree whose sizes fit comes back exactly if all its names do |
| `Cabinet.DecodedFits` | packages/mkcab.py:5-80 | whatever the reader accepts has names that fit |
| `Cabinet.DirectoryNameExactly` | packages/mkcab.py:23-25 | a folder around a tree that fits comes back exactly with a name of 1 to 250 characters |
| `Cabinet.FileNameExactly` | packages/mkcab.py:27-31 | a file that fits the length field comes back exactly with a name of up to 255 characters |
| `Cabinet.CabRoundTrip` | packages/mkcab.py:82-90 | a whole cabinet gives back its tree |
| `BitFinders.FindLastBitIsLog` | kernel/acpica/acmacros.h:379-399 | at every width, 0 for 0 and else r with 2^(r-1) <= a < 2^r |
| `BitFinders.FindFirstBitIsLowest` | kernel/acpica/acmacros.h:401-421 | at every width, one more than the place of the lowest set bit |
| `BitFinders.BitSetExactly` | kernel/acpica/acmacros.h:401-421 | a bit is set exactly if the quotient by its power of two is odd |
| `BitFinders.RoundUpExactly` | kernel/acpica/acmacros.h:427-436 | the least power of two at or above a if the word holds it, and else 0 |
| `BitFinders.RoundDownExactly` | kernel/acpica/acmacros.h:429-438 | the greatest power of two at or below a |
| `BitFinders.Widths` | kernel/acpica/acmacros.h:396-399 | the macros' widths are those of 8, 16, 32 and 64 bits |

## Left out

- Screens, windows, keyboard, beeps and the licence pages: user interface and port I/O. The operator is a finite list of
  diskettes to insert, one before each ENTER; an installation whose list runs out is left waiting.
- BIOS and disk calls: a disk is an array of sectors, reads and writes succeed, and a floppy read fills 18 sectors.
- Debug overrides, `skipFormatting`, `setActivePartition` (it returns at once), `getHDDSize` (unused) and the rewriting
  of a boot record without a signature.
- The ISO 9660 reader, the boot data flags and the remaining ACPICA and kernel headers.
- `readFATFileSectorStart` (firmware/firmware.c:396-436): the same loop as in `readFATFromHDD`.
- The copy of a directory sector to 0x1111900 when its LBA is 0x2000 (firmware/firmware.c:348-350): a trace of debugging.
- FatReader.Reader.FindStartOfPathSection: a read past the end of the disk is not followed further, and a search that
  never ends has no result.
- FatReader.Reader.FindPath: the last component has exactly 11 characters, as the splitting loop needs.
- FatReader.Reader.ReadFATFromHDD: clusters of one sector; the destination does not overlap the scratch buffers; paths
  that resolve or whose last search ends with nothing. What is read where an earlier component is missing and the later
  searches find entries elsewhere is not followed.
- SparseImage.Pack: whole sectors only, because the script drops a partial last sector.
- SparseImage.RoundTrip: not for a sector count that is no multiple of 8, because the script never writes the last bits.
- Installer.Installation.RealInstall: the new FAT is no smaller than the old; with a smaller one the groups would move
  down over those in front of them.
- Layout.WritesInside: up to 15 FATs, because with 16 the property fails.
- InstalledVolume.InstallationKeepsFiles: the data area starts on a multiple of four, because elsewhere the layout is
  wrong.
- KernelLoader.Loader.LoadKernel32: segments inside the kernel's megabyte that do not overlap; a segment whose source
  address wraps around is copied from where it leads, and nothing is said of its bytes.
- EndToEnd.BootFromVolume: the second megabyte of memory is zero before, as after the clearing of memory that the loader
  does from the BIOS memory map (firmware/BOOT2/BOOT2.C:505-524).
- Cabinet.SurvivesExactly: assumes of the compressor that a string cut short does not give back its data; without that,
  only the names decide, for sizes that fit (`NamesDecide`).
- KernelLoader.Memcpy: says nothing of a forward copy onto its own source.
- The boot information words at 0x500 to 0x54C, the jump to the kernel, and what lies at kernel addresses from 0xC0100000
  on.
- zlib: any pair of functions of which one undoes the other.
- The tags for going up several levels (packages/mkcab.py:7-9) are never written, so the reader of packages refuses
  them; names are strings of characters below 256.
