/** From a packed image on diskettes to the bytes of a file in memory. */
module EndToEnd {
  import opened Bytes
  import opened SparseImage
  import opened Diskettes
  import opened Fat32
  import opened Paths
  import opened Layout
  import opened InstalledVolume
  import opened InstallMedia
  import opened Installer
  import opened PageTables
  import opened KernelLoader
  import Floppy = FloppyReader
  import Fat = FatReader

  /** Installs a packed image from its diskettes.  It is done exactly when the image has at most 20800
      non-zero sectors and the operator offers the later diskettes in order; then they have been asked for
      once each, in order, and the disk holds the relocated image. */
  method InstallFromDiskettes(image: seq<Sector>, packed: Packed, disks: seq<Diskette>, script: seq<nat>,
                              disk: array<Sector>, lba: nat, size: nat)
    returns (outcome: Outcome, prompts: seq<nat>)
    requires WellFormedImage(image) && IsPacking(packed, image)
    requires Marked(disks) && Carry(disks, packed.volumes)
    requires forall i :: 0 <= i < |script| ==> script[i] < |disks|
    requires Target(disk[..], image, lba, size)
    modifies disk
    ensures outcome.Done? <==>
              && |NonZeroSectors(image)| <= 20800
              && Offers(script, 0, DisketteAfter(|NonZeroSectors(image)|)).Some?
    ensures outcome.Halted? ==> |NonZeroSectors(image)| > 20800
    ensures outcome.Done? ==>
              && Installed(old(disk[..]), disk[..], image, lba, size)
              && prompts == Upto(0, DisketteAfter(|NonZeroSectors(image)|))
  {
    var reader := new Floppy.Reader(packed.zeros, disks, script);
    Floppy.PackedIsStored(packed, disks, image);
    ghost var s := Drive(0, 0, script, []);
    ghost var trace := TraceExists(s, packed.zeros, 8 * |packed.zeros|);
    var media := new Media(true, reader, []);
    var installation := new Installation(media, disk);
    outcome := installation.RealInstall(size, lba, image, s, trace);
    prompts := reader.prompts;
    ImageRun(packed.zeros, script);
    RankTotal(packed.zeros, image);
  }

  /** Installs an image from diskettes, then reads a file of the installed volume by its path: if the operator
      lets the installation finish, memory receives the bytes that the path names in the image. */
  method InstallAndRead(image: seq<Sector>, packed: Packed, disks: seq<Diskette>, script: seq<nat>,
                        disk: array<Sector>, lba: nat, size: nat, filename: seq<Byte>, memory: array<Byte>, lc: nat,
                        ghost source: seq<Sector>, ghost parts: seq<seq<Byte>>, ghost separators: seq<Byte>)
    returns (outcome: Outcome)
    requires WellFormedImage(image) && IsPacking(packed, image)
    requires Marked(disks) && Carry(disks, packed.volumes)
    requires forall i :: 0 <= i < |script| ==> script[i] < |disks|
    requires Target(disk[..], image, lba, size)
    requires InstalledVolume.Holds(source, image) && IsPath(filename, parts, separators)
    requires var v := SourceVolume(source, image);
             && ValidVolume(v) && HasFile(v, Padded(parts))
             && lc + |Contents(v, Padded(parts))| <= memory.Length
    modifies disk, memory
    ensures outcome.Done? <==>
              && |NonZeroSectors(image)| <= 20800
              && Offers(script, 0, DisketteAfter(|NonZeroSectors(image)|)).Some?
    ensures outcome.Done? ==>
              memory[..] == Fat.Patched(old(memory[..]), lc, Contents(SourceVolume(source, image), Padded(parts)))
  {
    ghost var before := disk[..];
    var prompts;
    outcome, prompts := InstallFromDiskettes(image, packed, disks, script, disk, lba, size);
    if outcome == Done {
      InstallationKeepsFiles(source, before, disk[..], image, lba, size, Padded(parts));
      ReadInstalled(disk, lba, filename, memory, lc, ImageClusters(image), parts, separators);
    }
  }

  /** Boots from the partition at `lba` and reads a file. */
  method ReadInstalled(disk: array<Sector>, lba: nat, filename: seq<Byte>, memory: array<Byte>, lc: nat,
                       ghost clusters: nat, ghost parts: seq<seq<Byte>>, ghost separators: seq<Byte>)
    requires lba < disk.Length && IsPath(filename, parts, separators)
    requires var v := Volume(disk[..], ReadBpb(disk[lba]), clusters);
             && ValidVolume(v) && HasFile(v, Padded(parts))
             && lc + |Contents(v, Padded(parts))| <= memory.Length
    modifies memory
    ensures memory[..] == Fat.Patched(old(memory[..]), lc,
                                      old(Contents(Volume(disk[..], ReadBpb(disk[lba]), clusters), Padded(parts))))
  {
    var reader := new Fat.Reader(disk[..], disk[lba]);
    reader.ReadFATFromHDD(filename, memory, lc, clusters, parts, separators);
  }

  // --- from diskettes to the running kernel -------------------------------------------------

  /** The file as it stands in the megabyte that the loader looks at. */
  function InMegabyte(contents: seq<Byte>): (file: seq<Byte>)
    ensures |file| == 0x10_0000
    ensures forall k :: 0 <= k < 0x10_0000 ==> file[k] == if k < |contents| then contents[k] else 0
  {
    if |contents| >= MEGABYTE then contents[..MEGABYTE] else contents + Zeros(MEGABYTE - |contents|)
  }

  /** A kernel that the loader can be given: its headers are in the file, its segments in the kernel's megabyte and
      apart, and memory reaches far enough. */
  ghost predicate Bootable(contents: seq<Byte>, length: nat) {
    var file := InMegabyte(contents);
    && IsKernelFile(file) && DisjointSegments(file) && MemoryReaches(file, length)
    && KERNEL_SOURCE + |contents| <= length
  }

  /** The second megabyte of memory has been cleared. */
  ghost predicate Cleared(mem: seq<Byte>) {
    KERNEL_DEST <= |mem| && forall p :: KERNEL_SOURCE <= p < KERNEL_DEST ==> mem[p] == 0
  }

  lemma {:induction false} FileIsRead(before: seq<Byte>, contents: seq<Byte>)
    requires Cleared(before) && KERNEL_SOURCE + |contents| <= |before|
    ensures FileIn(Fat.Patched(before, KERNEL_SOURCE, contents)) == InMegabyte(contents)
  {
  }

  /** Reads the kernel from a volume, loads it and builds the page tables: it goes through exactly if the loader's test
      stops at no segment, and then every address of every segment reads the byte of the file that the path names. */
  method BootFromVolume(disk: seq<Sector>, boot: Sector, filename: seq<Byte>, memory: array<Byte>, ghost clusters: nat,
                        ghost parts: seq<seq<Byte>>, ghost separators: seq<Byte>)
    returns (ok: bool, highestFreeAddress: nat)
    requires IsPath(filename, parts, separators) && Cleared(memory[..])
    requires var v := Volume(disk, ReadBpb(boot), clusters);
             && ValidVolume(v) && HasFile(v, Padded(parts)) && Bootable(Contents(v, Padded(parts)), memory.Length)
    modifies memory
    ensures var file := InMegabyte(Contents(Volume(disk, ReadBpb(boot), clusters), Padded(parts)));
            && (ok <==> AllPass(file, SegmentCount(file)))
            && (ok ==> MappedAll(memory[..], file) && highestFreeAddress == HighestEnd(file, SegmentCount(file)))
    ensures var file := InMegabyte(Contents(Volume(disk, ReadBpb(boot), clusters), Padded(parts)));
            ok ==> forall i, va ::
                     0 <= i < SegmentCount(file) && SegmentAt(file, i).kind == 1
                     && SegmentAt(file, i).offset + SegmentAt(file, i).fileSize <= 0x10_0000
                     && SegmentAt(file, i).vaddr <= va < SegmentAt(file, i).vaddr + SegmentAt(file, i).memSize ==>
                       Seen(memory[..], va) ==
                       Some(if va - SegmentAt(file, i).vaddr < SegmentAt(file, i).fileSize
                            then file[SegmentAt(file, i).offset + (va - SegmentAt(file, i).vaddr)] else 0)
  {
    var reader := new Fat.Reader(disk, boot);
    FileIsRead(memory[..], Contents(Volume(disk, ReadBpb(boot), clusters), Padded(parts)));
    reader.ReadFATFromHDD(filename, memory, KERNEL_SOURCE, clusters, parts, separators);
    var loader := new Loader(memory);
    ok := BootKernel(loader);
    highestFreeAddress := loader.highestFreeAddress;
  }

  /** From the packed image on its diskettes to the kernel in its address space: if the operator lets the installation
      finish and the loader finds no segment too big, every address of every segment of the kernel that the path names
      in the image reads the byte that it has there. */
  method InstallAndBoot(image: seq<Sector>, packed: Packed, disks: seq<Diskette>, script: seq<nat>, disk: array<Sector>,
                        lba: nat, size: nat, filename: seq<Byte>, memory: array<Byte>,
                        ghost source: seq<Sector>, ghost parts: seq<seq<Byte>>, ghost separators: seq<Byte>)
    returns (outcome: Outcome, ok: bool, highestFreeAddress: nat)
    requires WellFormedImage(image) && IsPacking(packed, image)
    requires Marked(disks) && Carry(disks, packed.volumes)
    requires forall i :: 0 <= i < |script| ==> script[i] < |disks|
    requires Target(disk[..], image, lba, size)
    requires InstalledVolume.Holds(source, image) && IsPath(filename, parts, separators) && Cleared(memory[..])
    requires var v := SourceVolume(source, image);
             && ValidVolume(v) && HasFile(v, Padded(parts)) && Bootable(Contents(v, Padded(parts)), memory.Length)
    modifies disk, memory
    ensures outcome.Done? <==>
              && |NonZeroSectors(image)| <= 20800
              && Offers(script, 0, DisketteAfter(|NonZeroSectors(image)|)).Some?
    ensures outcome.Done? ==>
              var file := InMegabyte(Contents(SourceVolume(source, image), Padded(parts)));
              && (ok <==> AllPass(file, SegmentCount(file)))
              && (ok ==> MappedAll(memory[..], file) && highestFreeAddress == HighestEnd(file, SegmentCount(file)))
  {
    ghost var before := disk[..];
    var prompts;
    ok, highestFreeAddress := false, 0;
    outcome, prompts := InstallFromDiskettes(image, packed, disks, script, disk, lba, size);
    if outcome == Done {
      InstallationKeepsFiles(source, before, disk[..], image, lba, size, Padded(parts));
      ok, highestFreeAddress :=
        BootFromVolume(disk[..], disk[lba], filename, memory, ImageClusters(image), parts, separators);
    }
  }
}
