/** Installing on a partition of the edited table. */
module InstallTarget {
  import opened Bytes
  import opened Fat32
  import opened Layout
  import opened InstalledVolume
  import opened PartitionSort
  import opened PartitionTable

  /** An image that fits the installer's size rules: up to 15 FATs, and a FAT no larger than the new one. */
  ghost predicate Installable(image: seq<Sector>, size: nat) {
    && WellFormedImage(image)
    && ReadBpb(image[0]).fats <= 15
    && PlanFor(image[0], size).oldStart <= PlanFor(image[0], size).newStart
  }

  /** A boot sector with 32 reserved sectors and two FATs of 1010. */
  function TwoFatBoot(): Sector {
    PutU32(ZeroSector(), 0x24, 1010)[0x0E := 32][0x10 := 2]
  }

  lemma {:induction false} TwoFatBpb()
    ensures var b := ReadBpb(TwoFatBoot()); b.reserved == 32 && b.fats == 2 && b.sectorsPerFat == 1010
  {
    PutU32Reads(ZeroSector(), 0x24, 1010);
  }

  /** Every partition that passes the size check can take some image: the assumptions here can be met. */
  lemma {:induction false} SomeImageInstallable(size: nat) returns (image: seq<Sector>)
    requires OverSixtyFourMegabytes(size) && size <= DISK_END
    ensures Installable(image, size)
  {
    image := [TwoFatBoot()] + seq(IMAGE_SECTORS - 1, _ => ZeroSector());
    TwoFatBpb();
    PlanOf(image, size);
    NewFatSize(size, 32);
  }

  /** Every write of an installation is inside the partition, and other disks than that are not needed. */
  lemma {:induction false} WritesStayInside(image: seq<Sector>, size: nat)
    requires Installable(image, size) && OverSixtyFourMegabytes(size) && size <= DISK_END
    ensures Extent(PlanFor(image[0], size)) <= size
  {
    var b, plan := ReadBpb(image[0]), PlanFor(image[0], size);
    PlanOf(image, size);
    WritesInside(size, b.reserved, b.fats, b.sectorsPerFat);
    assert plan == Plan(b.fats * b.sectorsPerFat + b.reserved,
                        DataOffset(b.fats, NewSectorsPerFat(size, b.reserved), b.reserved),
                        NewSectorsPerFat(size, b.reserved));
  }

  /** A partition of a good table that passes the size check is a target for the installation. */
  lemma {:induction false} PartitionIsTarget(mbr: Sector, i: nat, disk: seq<Sector>, image: seq<Sector>)
    requires GoodTable(mbr) && i < SLOTS && !IsEmpty(mbr, i)
    requires OverSixtyFourMegabytes(SlotPartition(mbr, i).length) && Installable(image, SlotPartition(mbr, i).length)
    requires DISK_END <= |disk| <= HIGHEST_LBA + 1
    ensures Target(disk, image, SlotPartition(mbr, i).lba, SlotPartition(mbr, i).length)
  {
    WritesStayInside(image, SlotPartition(mbr, i).length);
  }

  lemma {:induction false} OutsideUntouched(before: seq<Sector>, after: seq<Sector>, image: seq<Sector>, lba: nat,
                                            plan: Plan, size: nat, p: nat)
    requires plan.oldStart <= plan.newStart && |image| == IMAGE_SECTORS && Extent(plan) <= size
    requires Copied(before, after, image, lba, plan, IMAGE_SECTORS)
    requires p < |before| && (p < lba || lba + size <= p)
    ensures after[p] == before[p]
  {
  }

  /** An installation changes no sector of another partition, nor the boot record. */
  lemma {:induction false} OtherPartitionsUntouched(mbr: Sector, i: nat, j: nat, before: seq<Sector>,
                                                    after: seq<Sector>, image: seq<Sector>, p: nat)
    requires GoodTable(mbr) && i < SLOTS && !IsEmpty(mbr, i)
    requires OverSixtyFourMegabytes(SlotPartition(mbr, i).length) && Installable(image, SlotPartition(mbr, i).length)
    requires Installed(before, after, image, SlotPartition(mbr, i).lba, SlotPartition(mbr, i).length)
    requires p < |before|
    requires p == 0 || (j < SLOTS && j != i && !IsEmpty(mbr, j)
                        && SlotPartition(mbr, j).lba <= p < SlotPartition(mbr, j).lba + SlotPartition(mbr, j).length)
    ensures p < |after| && after[p] == before[p]
  {
    var t := SlotPartition(mbr, i);
    WritesStayInside(image, t.length);
    if p != 0 { assert Clear(t, SlotPartition(mbr, j)) || Clear(SlotPartition(mbr, j), t); }
    OutsideUntouched(before, after, Relocated(image, t.lba, t.length), t.lba, PlanFor(image[0], t.length), t.length, p);
  }
}
