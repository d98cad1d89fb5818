/** What the FAT32 volume means after an installation. */
module InstalledVolume {
  import opened Bytes
  import opened Fat32
  import opened Layout

  /** The data area's offset in the image. */
  function DataOffsetOf(image: seq<Sector>): nat
    requires |image| == IMAGE_SECTORS
  {
    DataArea(ReadBpb(image[0]))
  }

  /** A FAT32 image whose FAT covers its data area, and whose data area starts on a group of four. */
  ghost predicate WellFormedImage(image: seq<Sector>) {
    && |image| == IMAGE_SECTORS
    && var b := ReadBpb(image[0]);
       && b.fats >= 1 && b.reserved >= 1
       && 4 <= DataOffsetOf(image) <= IMAGE_SECTORS && DataOffsetOf(image) % 4 == 0
       && IMAGE_SECTORS - DataOffsetOf(image) + 2 <= 128 * b.sectorsPerFat
  }

  function ImageClusters(image: seq<Sector>): int
    requires |image| == IMAGE_SECTORS
  {
    IMAGE_SECTORS - DataOffsetOf(image)
  }

  /** The image as a volume, on a disk that holds it where its BPB says. */
  ghost predicate Holds(disk: seq<Sector>, image: seq<Sector>)
    requires |image| == IMAGE_SECTORS
  {
    var hidden := ReadBpb(image[0]).hidden;
    && hidden + IMAGE_SECTORS <= |disk| <= HIGHEST_LBA + 1
    && forall s :: hidden <= s < hidden + IMAGE_SECTORS ==> disk[s] == image[s - hidden]
  }

  function SourceVolume(disk: seq<Sector>, image: seq<Sector>): Volume
    requires WellFormedImage(image)
  {
    Volume(disk, ReadBpb(image[0]), ImageClusters(image))
  }

  /** The volume that the boot sector at `lba` describes, as far as the image reached. */
  function TargetVolume(disk: seq<Sector>, lba: nat, image: seq<Sector>): Volume
    requires WellFormedImage(image) && lba < |disk|
  {
    Volume(disk, ReadBpb(disk[lba]), ImageClusters(image))
  }

  /** A partition that the installer accepts, on a disk on which all its writes land. */
  ghost predicate Target(before: seq<Sector>, image: seq<Sector>, lba: nat, size: nat) {
    && WellFormedImage(image)
    && OverSixtyFourMegabytes(size) && size <= DISK_END
    && PlanFor(image[0], size).oldStart <= PlanFor(image[0], size).newStart
    && lba + Extent(PlanFor(image[0], size)) <= |before| <= HIGHEST_LBA + 1
  }

  lemma {:induction false} PlanOf(image: seq<Sector>, size: nat)
    requires WellFormedImage(image) && OverSixtyFourMegabytes(size) && size <= DISK_END
    ensures var b, plan := ReadBpb(image[0]), PlanFor(image[0], size);
            && plan.oldStart == DataOffsetOf(image)
            && plan.newStart == b.reserved + b.fats * plan.sectorsPerFat
            && plan.sectorsPerFat <= 80000
  {
    var b := ReadBpb(image[0]);
    NoWrap(b.fats, b.sectorsPerFat, b.reserved);
    NewFatSize(size, b.reserved);
    NewFatsFit(b.fats, NewSectorsPerFat(size, b.reserved), b.reserved);
  }

  lemma {:induction false} SourceIsValid(disk: seq<Sector>, image: seq<Sector>)
    requires WellFormedImage(image) && Holds(disk, image)
    ensures ValidVolume(SourceVolume(disk, image))
  {
  }

  lemma {:induction false} ProductGrows(f: nat, a: nat, b: nat)
    requires f >= 1 && a < b
    ensures f * a < f * b
  {
    assert f * b == f * a + f * (b - a);
  }

  lemma {:induction false} GrowsWithStart(fats: nat, reserved: nat, was: nat, now: nat)
    requires fats >= 1 && reserved + fats * was <= reserved + fats * now
    ensures was <= now
  {
    if now < was { ProductGrows(fats, now, was); }
  }

  /** The volume's new BPB: the place of the partition and the size of the new FAT, the rest as it was. */
  lemma {:induction false} TargetBpb(before: seq<Sector>, after: seq<Sector>, image: seq<Sector>, lba: nat, size: nat)
    requires Target(before, image, lba, size) && Installed(before, after, image, lba, size)
    ensures var b, plan := ReadBpb(image[0]), PlanFor(image[0], size);
            && after[lba] == PatchBoot(image[0], lba, size, plan.sectorsPerFat)
            && ReadBpb(after[lba]) == Bpb(b.reserved, b.fats, lba, plan.sectorsPerFat)
  {
    var plan := PlanFor(image[0], size);
    LowSector(before, after, Relocated(image, lba, size), lba, plan, 0);
    InPlaceBpb(image[0], lba, size, plan.sectorsPerFat);
  }

  lemma {:induction false} InPlaceBpb(boot: Sector, lba: nat, size: nat, sectorsPerFat: nat)
    requires lba < WORD32 && sectorsPerFat < WORD32
    ensures ReadBpb(PatchBoot(boot, lba, size, sectorsPerFat))
            == Bpb(ReadBpb(boot).reserved, ReadBpb(boot).fats, lba, sectorsPerFat)
  {
    PatchedBpb(boot, lba, size, sectorsPerFat);
  }

  lemma {:induction false} TargetIsValid(before: seq<Sector>, after: seq<Sector>, image: seq<Sector>, lba: nat,
                                         size: nat)
    requires Target(before, image, lba, size) && Installed(before, after, image, lba, size)
    ensures ValidVolume(TargetVolume(after, lba, image))
    ensures DataStart(ReadBpb(after[lba])) == lba + PlanFor(image[0], size).newStart
  {
    var b, plan := ReadBpb(image[0]), PlanFor(image[0], size);
    PlanOf(image, size);
    TargetBpb(before, after, image, lba, size);
    GrowsWithStart(b.fats, b.reserved, b.sectorsPerFat, plan.sectorsPerFat);
  }

  /** What the copy leaves where it was. */
  lemma {:induction false} LowSector(before: seq<Sector>, after: seq<Sector>, image: seq<Sector>, lba: nat, plan: Plan,
                                     q: nat)
    requires |image| == IMAGE_SECTORS && plan.oldStart <= plan.newStart && lba + Extent(plan) <= |before|
    requires Copied(before, after, image, lba, plan, IMAGE_SECTORS)
    requires q < FirstMoved(plan)
    ensures lba + q < |after| && after[lba + q] == image[q]
  {
    assert SourceOf(q, plan) == FromImage(q);
  }

  /** What it moves. */
  lemma {:induction false} DataSector(before: seq<Sector>, after: seq<Sector>, image: seq<Sector>, lba: nat, plan: Plan,
                                      s: nat)
    requires |image| == IMAGE_SECTORS && plan.oldStart <= plan.newStart && lba + Extent(plan) <= |before|
    requires Copied(before, after, image, lba, plan, IMAGE_SECTORS)
    requires FirstMoved(plan) <= s < IMAGE_SECTORS
    ensures after[lba + s + plan.newStart - plan.oldStart] == image[s]
  {
    assert SourceOf(s + plan.newStart - plan.oldStart, plan) == FromImage(s);
  }

  /** A disk onto which an image, but for its first sector, was copied. */
  ghost predicate CopiedImage(before: seq<Sector>, after: seq<Sector>, image: seq<Sector>, relocated: seq<Sector>,
                              lba: nat, plan: Plan) {
    && |image| == |relocated| == IMAGE_SECTORS
    && (forall s :: 1 <= s < IMAGE_SECTORS ==> relocated[s] == image[s])
    && 4 <= plan.oldStart <= plan.newStart && plan.oldStart % 4 == 0 && plan.oldStart <= IMAGE_SECTORS
    && lba + Extent(plan) <= |before| && Copied(before, after, relocated, lba, plan, IMAGE_SECTORS)
  }

  lemma {:induction false} LowImageSector(before: seq<Sector>, after: seq<Sector>, image: seq<Sector>,
                                          relocated: seq<Sector>, lba: nat, plan: Plan, q: nat)
    requires CopiedImage(before, after, image, relocated, lba, plan) && 1 <= q < plan.oldStart
    ensures lba + q < |after| && after[lba + q] == image[q]
  {
    LowSector(before, after, relocated, lba, plan, q);
  }

  lemma {:induction false} DataImageSector(before: seq<Sector>, after: seq<Sector>, image: seq<Sector>,
                                           relocated: seq<Sector>, lba: nat, plan: Plan, k: nat)
    requires CopiedImage(before, after, image, relocated, lba, plan) && k < IMAGE_SECTORS - plan.oldStart
    ensures lba + plan.newStart + k < |after| && after[lba + plan.newStart + k] == image[plan.oldStart + k]
  {
    DataSector(before, after, relocated, lba, plan, plan.oldStart + k);
  }

  lemma {:induction false} SameCluster(v: Volume, w: Volume, image: seq<Sector>, start: nat, moved: nat, c: nat)
    requires |image| == IMAGE_SECTORS && Holds(v.disk, image)
    requires ValidVolume(v) && ValidVolume(w) && v.clusters == w.clusters && IsData(v, c)
    requires v.bpb.hidden == ReadBpb(image[0]).hidden && DataStart(v.bpb) == v.bpb.hidden + start
    requires DataStart(w.bpb) == moved && start + c - 2 < IMAGE_SECTORS
    requires w.disk[moved + (c - 2)] == image[start + (c - 2)]
    ensures Cluster(v, c) == Cluster(w, c)
  {
  }

  lemma {:induction false} SameLink(v: Volume, w: Volume, image: seq<Sector>, c: nat)
    requires |image| == IMAGE_SECTORS && Holds(v.disk, image)
    requires ValidVolume(v) && ValidVolume(w) && v.clusters == w.clusters && IsData(v, c)
    requires v.bpb.hidden == ReadBpb(image[0]).hidden && v.bpb.reserved == w.bpb.reserved
    requires v.bpb.reserved + c / 128 < IMAGE_SECTORS
    requires FatStart(w.bpb) + c / 128 < |w.disk|
    requires w.disk[FatStart(w.bpb) + c / 128] == image[v.bpb.reserved + c / 128]
    ensures Link(v, c) == Link(w, c)
  {
    FatSectorInside(v, c);
  }

  lemma {:induction false} CopyKeepsClusters(v: Volume, w: Volume, before: seq<Sector>, image: seq<Sector>,
                                             relocated: seq<Sector>, lba: nat, plan: Plan)
    requires CopiedImage(before, w.disk, image, relocated, lba, plan) && Holds(v.disk, image)
    requires ValidVolume(v) && ValidVolume(w) && v.clusters == w.clusters == IMAGE_SECTORS - plan.oldStart
    requires v.bpb.hidden == ReadBpb(image[0]).hidden && DataStart(v.bpb) == v.bpb.hidden + plan.oldStart
    requires DataStart(w.bpb) == lba + plan.newStart && w.bpb.hidden == lba && w.bpb.reserved == v.bpb.reserved >= 1
    ensures SameClusters(v, w)
  {
    forall c: nat | IsData(v, c)
      ensures Cluster(v, c) == Cluster(w, c)
    {
      DataImageSector(before, w.disk, image, relocated, lba, plan, c - 2);
      SameCluster(v, w, image, plan.oldStart, lba + plan.newStart, c);
    }
    forall c: nat | IsData(v, c)
      ensures Link(v, c) == Link(w, c)
    {
      FatSectorInside(v, c);
      LowImageSector(before, w.disk, image, relocated, lba, plan, v.bpb.reserved + c / 128);
      SameLink(v, w, image, c);
    }
  }

  /** Relocation keeps every data cluster and every link of the image. */
  lemma {:induction false} RelocationKeepsClusters(disk: seq<Sector>, before: seq<Sector>, after: seq<Sector>,
                                                   image: seq<Sector>, lba: nat, size: nat)
    requires Target(before, image, lba, size) && Installed(before, after, image, lba, size) && Holds(disk, image)
    ensures var v, w := SourceVolume(disk, image), TargetVolume(after, lba, image);
            ValidVolume(v) && ValidVolume(w) && SameClusters(v, w)
  {
    var v, w := SourceVolume(disk, image), TargetVolume(after, lba, image);
    var plan, relocated := PlanFor(image[0], size), Relocated(image, lba, size);
    SourceIsValid(disk, image);
    TargetIsValid(before, after, image, lba, size);
    PlanOf(image, size);
    TargetBpb(before, after, image, lba, size);
    CopyKeepsClusters(v, w, before, image, relocated, lba, plan);
  }

  /** The transformation preserves meaning: every file of the image is in the installed volume, under the
      same path and with the same bytes. */
  lemma {:induction false} InstallationKeepsFiles(disk: seq<Sector>, before: seq<Sector>, after: seq<Sector>,
                                                  image: seq<Sector>, lba: nat, size: nat, parts: seq<Name>)
    requires Target(before, image, lba, size) && Installed(before, after, image, lba, size) && Holds(disk, image)
    requires ValidVolume(SourceVolume(disk, image)) && HasFile(SourceVolume(disk, image), parts)
    ensures ValidVolume(TargetVolume(after, lba, image)) && HasFile(TargetVolume(after, lba, image), parts)
    ensures Contents(TargetVolume(after, lba, image), parts) == Contents(SourceVolume(disk, image), parts)
  {
    RelocationKeepsClusters(disk, before, after, image, lba, size);
    SameContents(SourceVolume(disk, image), TargetVolume(after, lba, image), parts);
  }

  // --- the second FAT ----------------------------------------------------------------

  /** Both FATs of a volume at `lba` hold the same sectors. */
  ghost predicate Mirrored(disk: seq<Sector>, lba: nat, reserved: nat, sectorsPerFat: nat)
    requires lba + reserved + 2 * sectorsPerFat <= |disk|
  {
    forall j :: 0 <= j < sectorsPerFat ==> FatSector(disk, lba, reserved, sectorsPerFat, 0, j)
                                           == FatSector(disk, lba, reserved, sectorsPerFat, 1, j)
  }

  function FatSector(disk: seq<Sector>, lba: nat, reserved: nat, sectorsPerFat: nat, copy: nat, j: nat): Sector
    requires copy < 2 && j < sectorsPerFat && lba + reserved + 2 * sectorsPerFat <= |disk|
  {
    disk[lba + reserved + (if copy == 0 then 0 else sectorsPerFat) + j]
  }

  /** The image's two FATs one after the other, and blank sectors behind them. */
  function OldFats(image: seq<Sector>, reserved: nat, was: nat, i: nat): Sector
    requires reserved + 2 * was <= |image|
  {
    if i < 2 * was then image[reserved + i] else ZeroSector()
  }

  /** Two FATs of `now` sectors filled from two of `was` that agree. */
  ghost predicate SecondAgrees(image: seq<Sector>, reserved: nat, was: nat, now: nat)
    requires reserved + 2 * was <= |image|
  {
    forall j: nat :: j < now ==> OldFats(image, reserved, was, j) == OldFats(image, reserved, was, now + j)
  }

  /** What the copy makes of two FATs of `was` sectors where two of `now` should be. */
  lemma {:induction false} FatSectors(before: seq<Sector>, after: seq<Sector>, image: seq<Sector>,
                                      relocated: seq<Sector>, lba: nat, plan: Plan, reserved: nat, was: nat, now: nat,
                                      i: nat)
    requires CopiedImage(before, after, image, relocated, lba, plan)
    requires reserved >= 1 && plan.oldStart == reserved + 2 * was && plan.newStart == reserved + 2 * now
    requires i < 2 * now
    ensures lba + reserved + 2 * now <= |after| && reserved + 2 * was <= |image|
    ensures after[lba + reserved + i] == OldFats(image, reserved, was, i)
  {
    CopyFits(before, after, image, relocated, lba, plan);
    if i < 2 * was {
      LowImageSector(before, after, image, relocated, lba, plan, reserved + i);
    } else {
      GapIsBlank(before, after, image, relocated, lba, plan, reserved + i);
    }
  }

  lemma {:induction false} GapIsBlank(before: seq<Sector>, after: seq<Sector>, image: seq<Sector>,
                                      relocated: seq<Sector>, lba: nat, plan: Plan, q: nat)
    requires CopiedImage(before, after, image, relocated, lba, plan) && plan.oldStart <= q < plan.newStart
    ensures lba + q < |after| && after[lba + q] == ZeroSector()
  {
    assert SourceOf(q, plan) == Other;
  }

  lemma {:induction false} AgreeAt(before: seq<Sector>, after: seq<Sector>, image: seq<Sector>,
                                   relocated: seq<Sector>, lba: nat, plan: Plan, reserved: nat, was: nat, now: nat,
                                   j: nat)
    requires CopiedImage(before, after, image, relocated, lba, plan)
    requires reserved >= 1 && plan.oldStart == reserved + 2 * was && plan.newStart == reserved + 2 * now && j < now
    ensures lba + reserved + 2 * now <= |after| && reserved + 2 * was <= |image|
    ensures FatSector(after, lba, reserved, now, 0, j) == FatSector(after, lba, reserved, now, 1, j) <==>
            OldFats(image, reserved, was, j) == OldFats(image, reserved, was, now + j)
  {
    FatSectors(before, after, image, relocated, lba, plan, reserved, was, now, j);
    FatSectors(before, after, image, relocated, lba, plan, reserved, was, now, now + j);
  }

  /** The FATs agree after the copy exactly if the image's FATs, filled up with blank sectors, repeat after `now`. */
  lemma {:induction false} MirroredExactly(before: seq<Sector>, after: seq<Sector>, image: seq<Sector>,
                                           relocated: seq<Sector>, lba: nat, plan: Plan, reserved: nat, was: nat,
                                           now: nat)
    requires CopiedImage(before, after, image, relocated, lba, plan)
    requires reserved >= 1 && plan.oldStart == reserved + 2 * was && plan.newStart == reserved + 2 * now
    ensures lba + reserved + 2 * now <= |after| && reserved + 2 * was <= |image|
    ensures Mirrored(after, lba, reserved, now) <==> SecondAgrees(image, reserved, was, now)
  {
    CopyFits(before, after, image, relocated, lba, plan);
    if Mirrored(after, lba, reserved, now) {
      forall j: nat | j < now
        ensures OldFats(image, reserved, was, j) == OldFats(image, reserved, was, now + j)
      {
        AgreeAt(before, after, image, relocated, lba, plan, reserved, was, now, j);
      }
    } else if SecondAgrees(image, reserved, was, now) {
      forall j: nat | j < now
        ensures FatSector(after, lba, reserved, now, 0, j) == FatSector(after, lba, reserved, now, 1, j)
      {
        AgreeAt(before, after, image, relocated, lba, plan, reserved, was, now, j);
      }
    }
  }

  lemma {:induction false} CopyFits(before: seq<Sector>, after: seq<Sector>, image: seq<Sector>,
                                    relocated: seq<Sector>, lba: nat, plan: Plan)
    requires CopiedImage(before, after, image, relocated, lba, plan)
    ensures lba + plan.newStart <= |after|
  {
  }

  /** The image's FATs hold nothing. */
  ghost predicate BlankFats(image: seq<Sector>, reserved: nat, was: nat)
    requires reserved + 2 * was <= |image|
  {
    forall i: nat :: i < 2 * was ==> OldFats(image, reserved, was, i) == ZeroSector()
  }

  /** Sector `i` of a mirrored FAT that repeats after `now` equals one that is now behind the image's FATs. */
  lemma {:induction false} GrowthBlanks(image: seq<Sector>, reserved: nat, was: nat, now: nat, i: nat)
    requires reserved + 2 * was <= |image| && was < now && was <= i < 2 * was
    requires Mirrored(image, 0, reserved, was) && SecondAgrees(image, reserved, was, now)
    ensures OldFats(image, reserved, was, i) == ZeroSector()
  {
    if i < now {
      assert OldFats(image, reserved, was, i) == OldFats(image, reserved, was, now + i);
    } else {
      assert OldFats(image, reserved, was, i - now) == OldFats(image, reserved, was, now + (i - now));
      ImageMirrors(image, reserved, was, i - now);
      GrowthBlanks(image, reserved, was, now, was + i - now);
    }
  }

  lemma {:induction false} ImageMirrors(image: seq<Sector>, reserved: nat, was: nat, j: nat)
    requires reserved + 2 * was <= |image| && j < was && Mirrored(image, 0, reserved, was)
    ensures OldFats(image, reserved, was, j) == OldFats(image, reserved, was, was + j)
  {
    assert FatSector(image, 0, reserved, was, 0, j) == FatSector(image, 0, reserved, was, 1, j);
  }

  lemma {:induction false} BlanksAgree(image: seq<Sector>, reserved: nat, was: nat, now: nat)
    requires reserved + 2 * was <= |image| && BlankFats(image, reserved, was)
    ensures SecondAgrees(image, reserved, was, now)
  {
  }

  /** Mirrored FATs still agree after the copy exactly if they did not grow or hold nothing. */
  lemma {:induction false} GrownMirrorExactly(image: seq<Sector>, reserved: nat, was: nat, now: nat)
    requires reserved + 2 * was <= |image| && was <= now && Mirrored(image, 0, reserved, was)
    ensures SecondAgrees(image, reserved, was, now) <==> now == was || BlankFats(image, reserved, was)
  {
    if now == was {
      forall j: nat | j < now
        ensures OldFats(image, reserved, was, j) == OldFats(image, reserved, was, now + j)
      {
        ImageMirrors(image, reserved, was, j);
      }
    } else if SecondAgrees(image, reserved, was, now) {
      forall i: nat | i < 2 * was
        ensures OldFats(image, reserved, was, i) == ZeroSector()
      {
        if i < was { ImageMirrors(image, reserved, was, i); }
        GrowthBlanks(image, reserved, was, now, if i < was then was + i else i);
      }
    } else if BlankFats(image, reserved, was) {
      BlanksAgree(image, reserved, was, now);
    }
  }

  /** FATs of which the second fits into the first agree after the copy exactly if both held nothing. */
  lemma {:induction false} DoubledExactly(image: seq<Sector>, reserved: nat, was: nat, now: nat)
    requires reserved + 2 * was <= |image| && 2 * was <= now
    ensures SecondAgrees(image, reserved, was, now) <==> BlankFats(image, reserved, was)
  {
    if SecondAgrees(image, reserved, was, now) {
      forall i: nat | i < 2 * was
        ensures OldFats(image, reserved, was, i) == ZeroSector()
      {
        assert OldFats(image, reserved, was, i) == OldFats(image, reserved, was, now + i);
      }
    } else if BlankFats(image, reserved, was) {
      BlanksAgree(image, reserved, was, now);
    }
  }

  /** Copying the FATs as they stand does not make two FATs of the new size.  The two FATs of the installed volume agree
      exactly if the image's, with blank sectors behind them, repeat after the new size; where the image's FATs
      agree, exactly if they have not grown or held nothing; and
      if the new FAT has room for both of the image's, exactly if those held nothing. */
  lemma {:induction false} SecondFatIsLost(before: seq<Sector>, after: seq<Sector>, image: seq<Sector>, lba: nat,
                                           size: nat)
    requires Target(before, image, lba, size) && Installed(before, after, image, lba, size)
    requires ReadBpb(image[0]).fats == 2
    ensures var b, s := ReadBpb(image[0]), PlanFor(image[0], size).sectorsPerFat;
            && b.reserved + 2 * b.sectorsPerFat <= |image| && lba + b.reserved + 2 * s <= |after|
            && (Mirrored(after, lba, b.reserved, s) <==> SecondAgrees(image, b.reserved, b.sectorsPerFat, s))
            && (Mirrored(image, 0, b.reserved, b.sectorsPerFat) ==>
                  (Mirrored(after, lba, b.reserved, s) <==>
                   s == b.sectorsPerFat || BlankFats(image, b.reserved, b.sectorsPerFat)))
            && (2 * b.sectorsPerFat <= s ==>
                  (Mirrored(after, lba, b.reserved, s) <==> BlankFats(image, b.reserved, b.sectorsPerFat)))
  {
    var b, plan := ReadBpb(image[0]), PlanFor(image[0], size);
    var s := plan.sectorsPerFat;
    PlanOf(image, size);
    GrowsWithStart(b.fats, b.reserved, b.sectorsPerFat, s);
    MirroredExactly(before, after, image, Relocated(image, lba, size), lba, plan, b.reserved, b.sectorsPerFat, s);
    if Mirrored(image, 0, b.reserved, b.sectorsPerFat) {
      GrownMirrorExactly(image, b.reserved, b.sectorsPerFat, s);
    }
    if 2 * b.sectorsPerFat <= s { DoubledExactly(image, b.reserved, b.sectorsPerFat, s); }
  }

  /** Instead, the image's second FAT becomes more of the first: the entries of clusters that the image does
      not have repeat the entries of those it has, as far as the new FAT reaches. */
  lemma {:induction false} StaleEntries(before: seq<Sector>, after: seq<Sector>, image: seq<Sector>,
                                        relocated: seq<Sector>, lba: nat, plan: Plan, reserved: nat, was: nat, now: nat,
                                        j: nat)
    requires CopiedImage(before, after, image, relocated, lba, plan)
    requires reserved >= 1 && plan.oldStart == reserved + 2 * was && plan.newStart == reserved + 2 * now
    requires reserved + 2 * was <= |image| && Mirrored(image, 0, reserved, was) && j < was && was + j < now
    ensures lba + reserved + 2 * now <= |after|
    ensures FatSector(after, lba, reserved, now, 0, was + j) == FatSector(after, lba, reserved, now, 0, j)
            == image[reserved + j]
  {
    FatSectors(before, after, image, relocated, lba, plan, reserved, was, now, j);
    FatSectors(before, after, image, relocated, lba, plan, reserved, was, now, was + j);
    ImageMirrors(image, reserved, was, j);
  }
}
