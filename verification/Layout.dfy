/** Where the installer puts the sectors of the image on a partition. */
module Layout {
  import opened Bytes
  import opened Fat32

  const IMAGE_SECTORS := 131072   // 64 MB
  const DISK_END := 9999999

  /** The installer's sector count for one FAT of the partition. */
  function NewSectorsPerFat(size: nat, reserved: nat): nat {
    Wrap32(Wrap64(size - reserved) / 128)
  }

  function DataOffset(fats: nat, sectorsPerFat: nat, reserved: nat): nat {
    Wrap32(Wrap32(fats * sectorsPerFat) + reserved)
  }

  /** The old and the new start of the data area, from the start of the volume, and the new FAT's size. */
  datatype Plan = Plan(oldStart: nat, newStart: nat, sectorsPerFat: nat)

  function PlanFor(boot: Sector, size: nat): Plan {
    var b := ReadBpb(boot);
    var s := NewSectorsPerFat(size, b.reserved);
    Plan(DataOffset(b.fats, b.sectorsPerFat, b.reserved), DataOffset(b.fats, s, b.reserved), s)
  }

  /** The boot sector with the partition's place, its size and the new FAT's size. */
  function PatchBoot(boot: Sector, lba: nat, size: nat, sectorsPerFat: nat): (r: Sector)
    requires sectorsPerFat < WORD32
  {
    PutU32(PutU32(PutU32(boot, 0x1C, Wrap32(lba)), 0x20, Wrap32(size)), 0x24, sectorsPerFat)
  }

  lemma {:induction false} PatchedBpb(boot: Sector, lba: nat, size: nat, sectorsPerFat: nat)
    requires sectorsPerFat < WORD32
    ensures var b := ReadBpb(boot);
            ReadBpb(PatchBoot(boot, lba, size, sectorsPerFat)) == Bpb(b.reserved, b.fats, Wrap32(lba), sectorsPerFat)
    ensures U32At(PatchBoot(boot, lba, size, sectorsPerFat), 0x1C) == lba % 4294967296
    ensures U32At(PatchBoot(boot, lba, size, sectorsPerFat), 0x20) == size % 4294967296
    ensures U32At(PatchBoot(boot, lba, size, sectorsPerFat), 0x24) == sectorsPerFat
    ensures forall k :: 0 <= k < 0x1C || 0x28 <= k < 512 ==>
                          PatchBoot(boot, lba, size, sectorsPerFat)[k] == boot[k]
  {
    var a := PutU32(boot, 0x1C, Wrap32(lba));
    var b := PutU32(a, 0x20, Wrap32(size));
    PutU32Reads(boot, 0x1C, Wrap32(lba));
    PutU32Reads(a, 0x20, Wrap32(size));
    PutU32Reads(b, 0x24, sectorsPerFat);
  }

  // --- where a sector goes -----------------------------------------------------------

  /** The copy loop decides once for a group of four sectors; the first group never moves. */
  predicate GroupMoves(s: nat, plan: Plan) { 4 <= s && plan.oldStart <= s / 4 * 4 }

  function Dest(s: nat, plan: Plan): int {
    if GroupMoves(s, plan) then s + plan.newStart - plan.oldStart else s
  }

  /** Where a sector belongs: what is at or past the old data start moves to the new one. */
  function Moved(s: nat, plan: Plan): int {
    if s >= plan.oldStart then s + plan.newStart - plan.oldStart else s
  }

  /** The copy puts every sector where it belongs exactly when nothing has to move, or the data area
      starts on a group other than the first. */
  lemma {:induction false} LayoutIsRightExactly(plan: Plan)
    ensures (forall s: nat :: s < IMAGE_SECTORS ==> Dest(s, plan) == Moved(s, plan)) <==>
            (|| plan.newStart == plan.oldStart
             || plan.oldStart >= IMAGE_SECTORS
             || (plan.oldStart >= 4 && plan.oldStart % 4 == 0))
  {
    var start := plan.oldStart;
    if plan.newStart != start && start < IMAGE_SECTORS && !(start >= 4 && start % 4 == 0) {
      assert Dest(start, plan) != Moved(start, plan);
    }
  }

  /** The first sector that moves. */
  function FirstMoved(plan: Plan): nat {
    var b := (plan.oldStart + 3) / 4 * 4;
    if b < 4 then 4 else if b > IMAGE_SECTORS then IMAGE_SECTORS else b
  }

  datatype Place = FromImage(sector: nat) | Other

  /** Which image sector the copy puts at offset `q` of the partition. */
  function SourceOf(q: nat, plan: Plan): Place
    requires plan.oldStart <= plan.newStart
  {
    var b, shift := FirstMoved(plan), plan.newStart - plan.oldStart;
    if q < b then FromImage(q)
    else if b + shift <= q < IMAGE_SECTORS + shift then FromImage(q - shift)
    else Other
  }

  /** Every image sector is written to one place, and no place gets two. */
  lemma {:induction false} DestIsBijective(q: nat, s: nat, plan: Plan)
    requires plan.oldStart <= plan.newStart && s < IMAGE_SECTORS
    ensures Dest(s, plan) == q <==> SourceOf(q, plan) == FromImage(s)
  {
  }

  /** The sectors that the installation writes lie in this many from the partition's start. */
  function Extent(plan: Plan): int {
    var shift := if FirstMoved(plan) < IMAGE_SECTORS then plan.newStart - plan.oldStart else 0;
    var formatted, copied := plan.newStart + 2, IMAGE_SECTORS + shift;
    var moved := if formatted > copied then formatted else copied;
    if moved > IMAGE_SECTORS then moved else IMAGE_SECTORS
  }

  lemma {:induction false} GroupInside(g: nat, plan: Plan)
    requires plan.oldStart <= plan.newStart && 4 * g < IMAGE_SECTORS
    ensures 0 <= Dest(4 * g, plan) && Dest(4 * g, plan) + 4 <= Extent(plan)
    ensures GroupMoves(4 * g, plan) <==> g > 0 && 4 * g >= plan.oldStart
  {
  }

  /** The installation writes a sector at this offset: in formatting or in copying. */
  predicate IsWritten(q: nat, plan: Plan)
    requires plan.oldStart <= plan.newStart
  {
    q < plan.newStart + 2 || SourceOf(q, plan).FromImage?
  }

  /** Every write is inside a partition exactly if the extent is no larger than the partition. */
  lemma {:induction false} WritesInsideExactly(plan: Plan, size: nat)
    requires plan.oldStart <= plan.newStart
    ensures (forall q: nat :: IsWritten(q, plan) ==> q < size) <==> Extent(plan) <= size
  {
    var last := Extent(plan) - 1;
    if size <= last { assert IsWritten(last, plan); }
  }

  /** A sector after formatting: the start of the partition is blank up to the new data area. */
  function FormattedSector(before: seq<Sector>, lba: nat, plan: Plan, p: nat): Sector
    requires p < |before|
  {
    if lba <= p < lba + plan.newStart + 2 then ZeroSector() else before[p]
  }

  /** A sector after formatting and the copying of the first `n` image sectors. */
  function CopiedSector(before: seq<Sector>, image: seq<Sector>, lba: nat, plan: Plan, n: nat, p: nat): Sector
    requires plan.oldStart <= plan.newStart && n <= |image| && p < |before|
  {
    if lba <= p && SourceOf(p - lba, plan).FromImage? && SourceOf(p - lba, plan).sector < n
    then image[SourceOf(p - lba, plan).sector]
    else FormattedSector(before, lba, plan, p)
  }

  ghost predicate Copied(before: seq<Sector>, after: seq<Sector>, image: seq<Sector>, lba: nat, plan: Plan, n: nat)
    requires plan.oldStart <= plan.newStart && n <= |image|
  {
    && |after| == |before|
    && forall p :: 0 <= p < |after| ==> after[p] == CopiedSector(before, image, lba, plan, n, p)
  }

  /** The image as it is installed. */
  function Relocated(image: seq<Sector>, lba: nat, size: nat): seq<Sector>
    requires |image| == IMAGE_SECTORS
  {
    image[0 := PatchBoot(image[0], lba, size, PlanFor(image[0], size).sectorsPerFat)]
  }

  /** The whole effect of an installation on the disk. */
  ghost predicate Installed(before: seq<Sector>, after: seq<Sector>, image: seq<Sector>, lba: nat, size: nat)
    requires |image| == IMAGE_SECTORS
    requires PlanFor(image[0], size).oldStart <= PlanFor(image[0], size).newStart
  {
    var plan := PlanFor(image[0], size);
    Copied(before, after, Relocated(image, lba, size), lba, plan, IMAGE_SECTORS)
  }

  /** What a whole copy of `image` leaves on the disk, where the data area starts on a group. */
  lemma {:induction false} CopiedLayout(before: seq<Sector>, after: seq<Sector>, image: seq<Sector>, lba: nat,
                                        plan: Plan)
    requires |image| == IMAGE_SECTORS && 4 <= plan.oldStart <= plan.newStart && plan.oldStart % 4 == 0
    requires plan.oldStart + 2 <= IMAGE_SECTORS && lba + plan.newStart + (IMAGE_SECTORS - plan.oldStart) <= |before|
    requires Copied(before, after, image, lba, plan, IMAGE_SECTORS)
    ensures forall p :: lba <= p < lba + plan.oldStart ==> after[p] == image[p - lba]
    ensures forall p :: lba + plan.oldStart <= p < lba + plan.newStart ==> after[p] == ZeroSector()
    ensures forall p :: lba + plan.newStart <= p < lba + plan.newStart + (IMAGE_SECTORS - plan.oldStart) ==>
                          after[p] == image[p - lba - plan.newStart + plan.oldStart]
    ensures forall p :: 0 <= p < lba || lba + plan.newStart + (IMAGE_SECTORS - plan.oldStart) <= p < |before| ==>
                          after[p] == before[p]
  {
    assert FirstMoved(plan) == plan.oldStart;
  }

  /** Where the data area starts on a group: the BPB, the FATs and the data in their places, blank sectors
      between, and nothing else changed. */
  lemma {:induction false} InstalledLayout(before: seq<Sector>, after: seq<Sector>, image: seq<Sector>,
                                           lba: nat, size: nat)
    requires |image| == 131072
    requires var plan := PlanFor(image[0], size);
             && 4 <= plan.oldStart <= plan.newStart && plan.oldStart % 4 == 0 && plan.oldStart + 2 <= 131072
             && lba + plan.newStart + (131072 - plan.oldStart) <= |before|
    requires Installed(before, after, image, lba, size)
    ensures var plan := PlanFor(image[0], size);
            && |after| == |before|
            && after[lba] == PatchBoot(image[0], lba, size, plan.sectorsPerFat)
            && (forall p :: lba < p < lba + plan.oldStart ==> after[p] == image[p - lba])
            && (forall p :: lba + plan.oldStart <= p < lba + plan.newStart ==> after[p] == ZeroSector())
            && (forall p :: lba + plan.newStart <= p < lba + plan.newStart + (131072 - plan.oldStart) ==>
                  after[p] == image[p - lba - plan.newStart + plan.oldStart])
            && (forall p :: 0 <= p < lba || lba + plan.newStart + (131072 - plan.oldStart) <= p < |before| ==>
                  after[p] == before[p])
  {
    CopiedLayout(before, after, Relocated(image, lba, size), lba, PlanFor(image[0], size));
  }

  // --- sizes -------------------------------------------------------------------------

  /** The check made before an installation starts. */
  predicate OverSixtyFourMegabytes(length: nat) { length / 1024 / 2 > 64 }

  /** The check passes from 133120 sectors on. */
  lemma {:induction false} SizeCheckExactly(length: nat)
    ensures OverSixtyFourMegabytes(length) <==> length >= 133120
  {
  }

  lemma {:induction false} NoWrap(fats: nat, sectorsPerFat: nat, reserved: nat)
    requires fats * sectorsPerFat + reserved < WORD32
    ensures DataOffset(fats, sectorsPerFat, reserved) == fats * sectorsPerFat + reserved
  {
    var product := fats * sectorsPerFat;
    assert Wrap32(product) == product;
  }

  lemma {:induction false} ProductBound(a: nat, b: nat, c: nat, d: nat)
    requires a <= c && b <= d
    ensures a * b <= c * d
  {
    assert a * b <= a * d <= c * d;
  }

  lemma {:induction false} NewFatsFit(fats: nat, sectorsPerFat: nat, reserved: nat)
    requires reserved < 0x1_0000
    requires (fats < 0x80 && sectorsPerFat <= 0x200_0000) || (fats < 0x100 && sectorsPerFat <= 80000)
    ensures DataOffset(fats, sectorsPerFat, reserved) == fats * sectorsPerFat + reserved
  {
    if sectorsPerFat <= 80000 {
      ProductBound(fats, sectorsPerFat, 0xFF, 80000);
    } else {
      ProductBound(fats, sectorsPerFat, 0x7F, 0x200_0000);
    }
    NoWrap(fats, sectorsPerFat, reserved);
  }

  lemma {:induction false} NewFatSize(size: nat, reserved: nat)
    requires OverSixtyFourMegabytes(size) && size < WORD32 && reserved < 0x1_0000
    ensures NewSectorsPerFat(size, reserved) == (size - reserved) / 128
    ensures 528 <= NewSectorsPerFat(size, reserved) <= 0x200_0000
    ensures size <= DISK_END ==> NewSectorsPerFat(size, reserved) <= 80000
  {
  }

  /** The new FAT has an entry for every data cluster of the partition, exactly if the new data start leaves room for
      the two reserved entries and the remainder of the division.  Without wrap-around that is: if there is a FAT. */
  lemma {:induction false} NewFatCovers(size: nat, reserved: nat, fats: nat)
    requires OverSixtyFourMegabytes(size) && size < WORD32 && reserved < 0x1_0000 && fats < 0x100
    ensures var s := NewSectorsPerFat(size, reserved);
            && (size - DataOffset(fats, s, reserved) + 2 <= 128 * s <==>
                DataOffset(fats, s, reserved) >= reserved + (size - reserved) % 128 + 2)
            && (fats < 0x80 || size <= DISK_END ==>
                  (size - DataOffset(fats, s, reserved) + 2 <= 128 * s <==> fats >= 1))
  {
    var s := NewSectorsPerFat(size, reserved);
    NewFatSize(size, reserved);
    if fats < 0x80 || size <= DISK_END {
      NewFatsFit(fats, s, reserved);
      if fats >= 1 { assert fats * s >= s; }
    }
  }

  /** With 129 FATs the product can wrap around to almost nothing, and the new FAT is too short. */
  lemma {:induction false} ManyFatsWrap()
    ensures var size, reserved, fats := 4261673215, 0, 129;
            && OverSixtyFourMegabytes(size) && size < WORD32
            && size - DataOffset(fats, NewSectorsPerFat(size, reserved), reserved) + 2
               > 128 * NewSectorsPerFat(size, reserved)
  {
  }

  /** With up to 15 FATs, if the source FAT covers its own image, every write is inside the partition. */
  lemma {:induction false} WritesInside(size: nat, reserved: nat, fats: nat, oldSectors: nat)
    requires OverSixtyFourMegabytes(size) && size < WORD32 && reserved < 0x1_0000 && 1 <= fats <= 15
    requires fats * oldSectors + reserved <= IMAGE_SECTORS
    requires IMAGE_SECTORS - (fats * oldSectors + reserved) + 2 <= 128 * oldSectors
    ensures Extent(Plan(fats * oldSectors + reserved,
                        DataOffset(fats, NewSectorsPerFat(size, reserved), reserved),
                        NewSectorsPerFat(size, reserved))) <= size
  {
    var s := NewSectorsPerFat(size, reserved);
    NewFatSize(size, reserved);
    NewFatsFit(fats, s, reserved);
    GrowthFits(size - reserved, IMAGE_SECTORS - reserved, fats, oldSectors, s);
  }

  lemma {:induction false} GrowthFits(total: nat, image: nat, fats: nat, was: nat, s: nat)
    requires total >= image + 2048 && image <= IMAGE_SECTORS && 1 <= fats <= 15 && total >= 67000
    requires fats * was <= image && image - fats * was + 2 <= 128 * was && 128 * s <= total
    ensures fats * s - fats * was + image <= total
    ensures fats * s + 2 <= total
  {
    var f := fats;
    assert f == 1 || f == 2 || f == 3 || f == 4 || f == 5 || f == 6 || f == 7 || f == 8 || f == 9 || f == 10
           || f == 11 || f == 12 || f == 13 || f == 14 || f == 15;
  }

  /** Sixteen FATs are too many: here the copy overruns the partition by 15 sectors. */
  lemma {:induction false} SixteenFatsOverrun()
    ensures var size, reserved, fats, oldSectors := 133121, 1, 16, 911;
            && OverSixtyFourMegabytes(size)
            && IMAGE_SECTORS - (fats * oldSectors + reserved) + 2 <= 128 * oldSectors
            && Extent(Plan(fats * oldSectors + reserved,
                           DataOffset(fats, NewSectorsPerFat(size, reserved), reserved),
                           NewSectorsPerFat(size, reserved))) == size + 15
  {
  }
}
