/** The installation: format the start of the partition, then copy the image with its data area moved. */
module Installer {
  import opened Bytes
  import opened Division
  import opened SparseImage
  import opened Diskettes
  import opened Fat32
  import opened Layout
  import opened InstallMedia

  /** The progress computation: a non-zero sector weighs fifteen times a blank one. */
  function Percent(nonZero: nat, zero: nat, nonZeroTotal: nat, zeroTotal: nat): int
    requires nonZeroTotal + zeroTotal > 0
  {
    (nonZero * 15 + zero) * 100 / (nonZeroTotal * 15 + zeroTotal) + 1
  }

  lemma {:induction false} PercentGrows(n: nat, z: nat, n': nat, z': nat, nt: nat, zt: nat)
    requires n <= n' <= nt && z <= z' <= zt && nt + zt > 0
    ensures 1 <= Percent(n, z, nt, zt) <= Percent(n', z', nt, zt) <= 101
  {
    var d := nt * 15 + zt;
    DivGrows((n * 15 + z) * 100, (n' * 15 + z') * 100, d);
    DivGrows((n' * 15 + z') * 100, d * 100, d);
    DivExact(d, 100);
    DivGrows(0, (n * 15 + z) * 100, d);
  }

  /** The percentage that belongs to the first `l` sectors of an image. */
  function DiskettePercent(zeros: seq<Byte>, l: nat): int
    requires l <= IMAGE_SECTORS <= 8 * |zeros|
  {
    RankMonotone(zeros, l, IMAGE_SECTORS);
    var n, total := Rank(zeros, l), Rank(zeros, IMAGE_SECTORS);
    Percent(n, l - n, total, IMAGE_SECTORS - total)
  }

  lemma {:induction false} DiskettePercentGrows(zeros: seq<Byte>, l: nat, l': nat)
    requires l <= l' <= IMAGE_SECTORS <= 8 * |zeros|
    ensures 1 <= DiskettePercent(zeros, l) <= DiskettePercent(zeros, l') <= 101
  {
    RankMonotone(zeros, l, l');
    RankMonotone(zeros, l', IMAGE_SECTORS);
    var n, n', total := Rank(zeros, l), Rank(zeros, l'), Rank(zeros, IMAGE_SECTORS);
    PercentGrows(n, l - n, n', l' - n', total, IMAGE_SECTORS - total);
  }

  function DiscPercent(l: nat): int { (l / 4 - 1) * 100 / GROUPS + 1 }

  lemma {:induction false} DiscPercentGrows(l: nat, l': nat)
    requires 4 <= l <= l' <= IMAGE_SECTORS
    ensures 1 <= DiscPercent(l) <= DiscPercent(l') <= 101
  {
    var a, b := (l / 4 - 1) * 100, (l' / 4 - 1) * 100;
    assert 0 <= a <= b <= 100 * GROUPS;
    DivGrows(a, b, GROUPS);
  }

  /** Wrapping around on the way does no harm if the end is in range. */
  lemma {:induction false} WrapBack(a: int, b: int)
    ensures 0 <= a - b < WORD32 ==> Wrap32(Wrap32(a) - b) == a - b
  {
  }

  /** A history of percentages that never falls and stays from 1 to `bound`. */
  ghost predicate Climbs(shown: seq<int>, bound: int) {
    && (forall i, j :: 0 <= i < j < |shown| ==> shown[i] <= shown[j])
    && forall i :: 0 <= i < |shown| ==> 1 <= shown[i] <= bound
  }

  lemma {:induction false} SixteenthOfByte(k: nat)
    ensures k % 256 % 16 == k % 16
  {
    var q, r := k / 256, k % 256;
    assert k == 256 * q + r;
    var a, b := r / 16, r % 16;
    assert r == 16 * a + b;
    SixteenthIs(k, 16 * q + a, b);
  }

  lemma {:induction false} SixteenthIs(k: nat, c: nat, b: nat)
    requires k == 16 * c + b && b < 16
    ensures k % 16 == b
  {
  }

  lemma {:induction false} CountByte(k: nat)
    ensures (k % 256 + 1) % 256 == (k + 1) % 256
  {
  }

  lemma {:induction false} ClimbsOn(shown: seq<int>, bound: int, next: int)
    requires Climbs(shown, bound) && 1 <= bound <= next
    ensures Climbs(shown, next) && Climbs(shown + [next], next) && Climbs(shown + [], next)
  {
  }

  function FormatPercent(i: nat, total: nat): int
    requires total > 0
  {
    i * 100 / total + 1
  }

  /** The percentages computed while the first `n` of `total` sectors from `lba` on are blanked: one for each LBA that
      is a multiple of 4. */
  function FormatPercents(lba: nat, total: nat, n: nat): seq<int>
    requires n <= total
  {
    if n == 0 then []
    else FormatPercents(lba, total, n - 1) + if (lba + n - 1) % 4 == 0 then [FormatPercent(n - 1, total)] else []
  }

  /** How many percentages that are, and which. */
  lemma {:induction false} FormatPercentsAt(lba: nat, total: nat, n: nat, i: nat)
    requires n <= total
    ensures |FormatPercents(lba, total, n)| == (lba + n + 3) / 4 - (lba + 3) / 4
    ensures i < |FormatPercents(lba, total, n)| ==>
              FormatPercents(lba, total, n)[i] == (((lba + 3) / 4 + i) * 4 - lba) * 100 / total + 1
  {
    if n > 0 { FormatPercentsAt(lba, total, n - 1, i); }
  }

  lemma {:induction false} FormatPercentGrows(i: nat, j: nat, n: nat)
    requires i <= j < n
    ensures 1 <= FormatPercent(i, n) <= FormatPercent(j, n) <= 100
  {
    DivGrows(0, i * 100, n);
    DivGrows(i * 100, j * 100, n);
    DivGrows(j * 100, n * 100 - 1, n);
    DivIs(n * 100 - 1, n, 99);
  }

  /** They never fall, and stay from 1 to 100. */
  lemma {:induction false} FormatClimbs(lba: nat, total: nat, n: nat)
    requires n <= total
    ensures Climbs(FormatPercents(lba, total, n), 100)
    ensures var shown := FormatPercents(lba, total, n);
            && (forall i, j :: 0 <= i < j < |shown| ==> shown[i] <= shown[j])
            && forall i :: 0 <= i < |shown| ==> 1 <= shown[i] <= 100
    ensures n > 0 ==>
              forall i :: 0 <= i < |FormatPercents(lba, total, n)| ==>
                            FormatPercents(lba, total, n)[i] <= FormatPercent(n - 1, total)
  {
    if n > 0 {
      FormatClimbs(lba, total, n - 1);
      FormatPercentGrows(if n == 1 then 0 else n - 2, n - 1, total);
    }
  }

  /** What the copy of group `g` to `at` changes: the place of each of its four sectors. */
  lemma {:induction false} GroupPlaces(q: nat, g: nat, plan: Plan)
    requires plan.oldStart <= plan.newStart && g < GROUPS
    ensures var at := Dest(4 * g, plan);
            if at <= q < at + 4 then SourceOf(q, plan) == FromImage(4 * g + q - at)
            else SourceOf(q, plan).FromImage? ==>
                   (SourceOf(q, plan).sector < 4 * g + 4 <==> SourceOf(q, plan).sector < 4 * g)
  {
    var at := Dest(4 * g, plan);
    if at <= q < at + 4 {
      DestIsBijective(q, 4 * g + (q - at), plan);
    } else if SourceOf(q, plan).FromImage? && SourceOf(q, plan).sector < IMAGE_SECTORS {
      DestIsBijective(q, SourceOf(q, plan).sector, plan);
    }
  }

  lemma {:induction false} SameGroup(image: seq<Sector>, relocated: seq<Sector>, g: nat)
    requires |image| == |relocated| == IMAGE_SECTORS && relocated[4..] == image[4..] && 0 < g < GROUPS
    ensures relocated[4 * g..4 * g + 4] == image[4 * g..4 * g + 4]
  {
    forall k | 4 * g <= k < 4 * g + 4
      ensures relocated[k] == image[k]
    {
      assert relocated[k] == relocated[4..][k - 4] && image[k] == image[4..][k - 4];
    }
  }

  /** One group of the copy: what was copied so far, and where the next group goes. */
  lemma {:induction false} GroupCopied(before: seq<Sector>, mid: seq<Sector>, after: seq<Sector>, image: seq<Sector>,
                                       lba: nat, plan: Plan, g: nat, at: nat)
    requires plan.oldStart <= plan.newStart && |image| == IMAGE_SECTORS && g < GROUPS
    requires Copied(before, mid, image, lba, plan, 4 * g)
    requires at == lba + Dest(4 * g, plan) && at + 4 <= |before|
    requires |after| == |mid|
    requires forall p :: at <= p < at + 4 ==> after[p] == image[4 * g + (p - at)]
    requires forall p :: 0 <= p < |mid| && !(at <= p < at + 4) ==> after[p] == mid[p]
    ensures Copied(before, after, image, lba, plan, 4 * g + 4)
  {
    forall p | 0 <= p < |after|
      ensures after[p] == CopiedSector(before, image, lba, plan, 4 * g + 4, p)
    {
      if lba <= p { GroupPlaces(p - lba, g, plan); }
    }
  }

  class Installation {
    const media: Media
    const disk: array<Sector>
    var percent: int
    /** The percentages computed while formatting, and those shown while copying. */
    ghost var formatShown: seq<int>
    ghost var shown: seq<int>

    constructor (media: Media, disk: array<Sector>)
      ensures this.media == media && this.disk == disk
    {
      this.media, this.disk, percent, formatShown, shown := media, disk, 0, [], [];
    }

    /** The parts do not overlap. */
    ghost predicate Apart()
      reads this
    {
      disk != media.reader.buffer
    }

    /** Writes four sectors. */
    method WriteGroup(at: nat, bf: seq<Sector>)
      requires |bf| == 4 && at + 4 <= disk.Length
      modifies disk
      ensures forall p :: at <= p < at + 4 ==> disk[p] == bf[p - at]
      ensures forall p :: 0 <= p < disk.Length && !(at <= p < at + 4) ==> disk[p] == old(disk[p])
    {
      disk[at + 0] := bf[0];
      disk[at + 1] := bf[1];
      disk[at + 2] := bf[2];
      disk[at + 3] := bf[3];
    }

    /** Blanks the partition up to and including the first two sectors of the new data area. */
    method Format(lba: nat, plan: Plan)
      requires lba + plan.newStart + 2 <= disk.Length
      modifies disk, this`percent, this`formatShown
      ensures forall p :: 0 <= p < disk.Length ==>
                            disk[p] == if lba <= p < lba + plan.newStart + 2 then ZeroSector() else old(disk[..])[p]
      ensures formatShown == FormatPercents(lba, plan.newStart + 2, plan.newStart + 2)
      ensures percent == if formatShown == [] then old(percent) else formatShown[|formatShown| - 1]
    {
      var i := lba;
      formatShown := [];
      while i < lba + plan.newStart + 2
        invariant lba <= i <= lba + plan.newStart + 2
        invariant formatShown == FormatPercents(lba, plan.newStart + 2, i - lba)
        invariant percent == if formatShown == [] then old(percent) else formatShown[|formatShown| - 1]
        invariant forall p :: 0 <= p < disk.Length ==>
                                disk[p] == if lba <= p < i then ZeroSector() else old(disk[..])[p]
      {
        if i % 4 == 0 {
          percent := FormatPercent(i - lba, plan.newStart + 2);
          formatShown := formatShown + [percent];
        }
        disk[i] := ZeroSector();
        i := i + 1;
      }
    }

    /** Counts the bitmap's bits by kind. */
    method CountTotals() returns (nonZeroTotal: nat, zeroTotal: nat)
      requires IMAGE_SECTORS <= 8 * |media.reader.zeros|
      ensures nonZeroTotal == Rank(media.reader.zeros, IMAGE_SECTORS) && zeroTotal == IMAGE_SECTORS - nonZeroTotal
    {
      nonZeroTotal, zeroTotal := 0, 0;
      for i := 0 to IMAGE_SECTORS
        invariant nonZeroTotal == Rank(media.reader.zeros, i) && zeroTotal == i - nonZeroTotal
      {
        if IsZero(media.reader.zeros, i) { zeroTotal := zeroTotal + 1; } else { nonZeroTotal := nonZeroTotal + 1; }
      }
    }

    /** Media, trace and disk are as an installation needs them. */
    ghost predicate Ready(image: seq<Sector>, s: Drive, trace: Trace, lba: nat, plan: Plan)
      reads this, media.reader, media.reader.buffer
    {
      && Apart() && media.Serves(image)
      && (media.floppy ==> IsTrace(trace, s, media.reader.zeros))
      && plan.oldStart <= plan.newStart && lba + Extent(plan) <= disk.Length <= HIGHEST_LBA + 1
    }

    /** Reads the first four sectors six times over. */
    method Opening(ghost image: seq<Sector>, ghost s: Drive, ghost trace: Trace) returns (bf: seq<Sector>)
      requires media.Serves(image) && (media.floppy ==> IsTrace(trace, s, media.reader.zeros))
      requires media.At(trace, 0, Done)
      modifies media.reader, media.reader.buffer
      ensures media.Serves(image) && media.At(trace, 0, Done) && bf == image[..4]
    {
      for i := 0 to 4
        invariant media.Serves(image) && media.At(trace, 0, Done)
      {
        bf := ReadFirstGroup(image, s, trace);
      }
      bf := ReadFirstGroup(image, s, trace);
      bf := ReadFirstGroup(image, s, trace);
    }

    method ReadFirstGroup(ghost image: seq<Sector>, ghost s: Drive, ghost trace: Trace) returns (bf: seq<Sector>)
      requires media.Serves(image) && (media.floppy ==> IsTrace(trace, s, media.reader.zeros))
      requires media.At(trace, 0, Done)
      modifies media.reader, media.reader.buffer
      ensures media.Serves(image) && media.At(trace, 0, Done) && media.At(trace, 4, Done) && bf == image[..4]
      ensures media.floppy ==>
                media.Gathered(image, 0, 4, bf,
                               media.reader.nonZeroSectorsWritten - old(media.reader.nonZeroSectorsWritten),
                               media.reader.zeroSectorsWritten - old(media.reader.zeroSectorsWritten))
    {
      var outcome;
      outcome, bf := media.Read2KSectorFromInstallMedia(MAIN_DISK_FIRST_SECTOR, image, s, trace);
      media.FirstGroupIsSafe(s, trace, 4, outcome);
    }

    /** Where the copy loop writes a group. */
    method WriteLBA(count: nat, lba: nat, plan: Plan) returns (at: nat)
      requires 0 < count < GROUPS
      requires plan.oldStart <= plan.newStart && lba + Extent(plan) <= WORD32
      ensures at == lba + Dest(4 * (GROUPS - count), plan) && at + 4 <= lba + Extent(plan)
    {
      GroupInside(GROUPS - count, plan);
      ghost var dest := Dest(4 * (GROUPS - count), plan);
      at := Wrap32(IMAGE_SECTORS - Wrap32(count * 4));
      assert at == 4 * (GROUPS - count);
      if at >= plan.oldStart {
        WrapBack(at + plan.newStart, plan.oldStart);
        at := Wrap32(at + plan.newStart);
        at := Wrap32(at - plan.oldStart);
      }
      assert at == dest;
      at := Wrap32(at + lba);
    }

    /** Writes group `g` to its place. */
    method PlaceGroup(g: nat, bf: seq<Sector>, lba: nat, plan: Plan, ghost relocated: seq<Sector>,
                      ghost before: seq<Sector>)
      requires 0 < g < GROUPS && |relocated| == IMAGE_SECTORS && bf == relocated[4 * g..4 * g + 4]
      requires plan.oldStart <= plan.newStart && lba + Extent(plan) <= disk.Length <= HIGHEST_LBA + 1
      requires Copied(before, disk[..], relocated, lba, plan, 4 * g)
      modifies disk
      ensures Copied(before, disk[..], relocated, lba, plan, 4 * g + 4)
    {
      ghost var mid := disk[..];
      var at := WriteLBA(GROUPS - g, lba, plan);
      WriteGroup(at, bf);
      GroupCopied(before, mid, disk[..], relocated, lba, plan, g, at);
    }

    /** Copies one group. */
    method CopyGroup(count: nat, lba: nat, plan: Plan, ghost image: seq<Sector>, ghost relocated: seq<Sector>,
                     ghost before: seq<Sector>, ghost s: Drive, ghost trace: Trace)
      returns (outcome: Outcome)
      requires 0 < count < GROUPS && Ready(image, s, trace, lba, plan)
      requires |relocated| == IMAGE_SECTORS && relocated[4..] == image[4..]
      requires media.At(trace, 4 * (GROUPS - count), Done)
      requires Copied(before, disk[..], relocated, lba, plan, 4 * (GROUPS - count))
      modifies media.reader, media.reader.buffer, disk
      ensures Ready(image, s, trace, lba, plan)
      ensures media.At(trace, 4 * (GROUPS - count) + 4, outcome)
      ensures outcome.Done? ==> Copied(before, disk[..], relocated, lba, plan, 4 * (GROUPS - count) + 4)
      ensures outcome.Done? && media.floppy ==>
                CountersMoved(4 * (GROUPS - count), old(media.reader.nonZeroSectorsWritten),
                              old(media.reader.zeroSectorsWritten))
    {
      var bf;
      outcome, bf := media.Read2KSectorFromInstallMedia(GROUPS - count + MAIN_DISK_FIRST_SECTOR, image, s, trace);
      if outcome == Done {
        SameGroup(image, relocated, GROUPS - count);
        PlaceGroup(GROUPS - count, bf, lba, plan, relocated, before);
      }
    }

    /** The counters have moved by the non-zero and blank sectors among the four from `first` on. */
    ghost predicate CountersMoved(first: nat, nonZero: int, zero: int)
      requires first + 4 <= 8 * |media.reader.zeros|
      reads media.reader
    {
      var n := Rank(media.reader.zeros, first + 4) - Rank(media.reader.zeros, first);
      media.reader.nonZeroSectorsWritten == nonZero + n && media.reader.zeroSectorsWritten == zero + 4 - n
    }

    /** With diskettes: since the reset the counters have counted the image up to sector `l`, by kind. */
    ghost predicate CountedTo(l: nat)
      reads media.reader
    {
      media.floppy ==>
        && l <= 8 * |media.reader.zeros|
        && media.reader.nonZeroSectorsWritten == Rank(media.reader.zeros, l)
        && media.reader.zeroSectorsWritten == l - Rank(media.reader.zeros, l)
    }

    /** The percentage that belongs to the first `l` sectors. */
    ghost function PercentAt(l: nat): int
      requires l <= IMAGE_SECTORS && (media.floppy ==> IMAGE_SECTORS <= 8 * |media.reader.zeros|)
    {
      if media.floppy then
        DiskettePercent(media.reader.zeros, l)
      else DiscPercent(l)
    }

    lemma {:induction false} PercentAtGrows(l: nat, l': nat)
      requires 4 <= l <= l' <= IMAGE_SECTORS && (media.floppy ==> IMAGE_SECTORS <= 8 * |media.reader.zeros|)
      ensures 1 <= PercentAt(l) <= PercentAt(l') <= 101
    {
      if media.floppy {
        DiskettePercentGrows(media.reader.zeros, l, l');
      } else {
        DiscPercentGrows(l, l');
      }
    }

    /** The percentage is shown after every sixteenth group from diskettes, and after one in 256 from any medium; the
        counter of groups is a byte. */
    predicate Shows(k: nat) { k % 256 == 5 || (media.floppy && k % 256 % 16 == 0) }

    /** The percentages shown when `k` groups have been copied after the first. */
    ghost function CopyPercents(k: nat): seq<int>
      requires k < GROUPS && (media.floppy ==> IMAGE_SECTORS <= 8 * |media.reader.zeros|)
    {
      if k == 0 then [] else CopyPercents(k - 1) + if Shows(k) then [PercentAt(4 * k + 4)] else []
    }

    lemma {:induction false} CopyPercentsClimb(k: nat)
      requires k < GROUPS && (media.floppy ==> IMAGE_SECTORS <= 8 * |media.reader.zeros|)
      ensures Climbs(CopyPercents(k), PercentAt(4 * k + 4)) && PercentAt(4 * k + 4) <= 101
    {
      PercentAtGrows(4 * k + 4, 4 * k + 4);
      if k > 0 {
        CopyPercentsClimb(k - 1);
        PercentAtGrows(4 * k, 4 * k + 4);
        ClimbsOn(CopyPercents(k - 1), PercentAt(4 * k), PercentAt(4 * k + 4));
      }
    }

    /** The progress is shown after groups 5, 261, ... and, from diskettes, after every sixteenth. */
    lemma {:induction false} ShowsExactly(k: nat)
      ensures Shows(k) <==> k % 256 == 5 || (media.floppy && k % 16 == 0)
    {
      SixteenthOfByte(k);
    }

    /** The percentage in numbers: a non-zero sector weighs as much as fifteen blank ones. */
    lemma {:induction false} ProgressExactly(k: nat, n: nat, total: nat)
      requires k < 32768 && (media.floppy ==> 131072 <= 8 * |media.reader.zeros|)
      requires media.floppy ==> n == Rank(media.reader.zeros, 4 * k + 4) && total == Rank(media.reader.zeros, 131072)
      requires n <= 4 * k + 4 && n <= total <= 131072
      ensures PercentAt(4 * k + 4) ==
              if media.floppy then (n * 15 + (4 * k + 4 - n)) * 100 / (total * 15 + (131072 - total)) + 1
              else k * 100 / 32768 + 1
    {
    }

    /** The progress after group `k`, if that is one after which it is shown. */
    method ShowProgress(xx: Byte, k: nat, nonZeroTotal: nat, zeroTotal: nat)
      requires 1 <= k < GROUPS && xx == k % 256 && CountedTo(4 * k + 4)
      requires media.floppy ==>
                 && IMAGE_SECTORS <= 8 * |media.reader.zeros|
                 && nonZeroTotal == Rank(media.reader.zeros, IMAGE_SECTORS) && zeroTotal == IMAGE_SECTORS - nonZeroTotal
      modifies this`percent, this`shown
      ensures percent == if Shows(k) then PercentAt(4 * k + 4) else old(percent)
      ensures shown == old(shown) + if Shows(k) then [PercentAt(4 * k + 4)] else []
    {
      if xx == 5 || (media.floppy && xx % 16 == 0) {
        if media.floppy {
          percent := (media.reader.nonZeroSectorsWritten * 15 + media.reader.zeroSectorsWritten) * 100
                     / (nonZeroTotal * 15 + zeroTotal) + 1;
        } else {
          percent := k * 100 / GROUPS + 1;
        }
        shown := shown + [percent];
      }
    }

    /** What was shown is what belongs to `k` groups after the first. */
    ghost predicate ShownUpTo(k: nat)
      requires k < GROUPS && (media.floppy ==> IMAGE_SECTORS <= 8 * |media.reader.zeros|)
      reads this
    {
      shown == CopyPercents(k)
    }

    /** The installation with the first `g` groups copied, counted and shown. */
    ghost predicate CopiedTo(g: nat, lba: nat, plan: Plan, image: seq<Sector>, relocated: seq<Sector>,
                             before: seq<Sector>, s: Drive, trace: Trace)
      reads this, disk, media.reader, media.reader.buffer
    {
      && 1 <= g <= GROUPS && |relocated| == |image| == IMAGE_SECTORS && relocated[4..] == image[4..]
      && Ready(image, s, trace, lba, plan) && media.At(trace, 4 * g, Done)
      && Copied(before, disk[..], relocated, lba, plan, 4 * g)
      && CountedTo(4 * g) && ShownUpTo(g - 1)
    }

    /** What was shown is what belongs to some number of groups: to all of them, if the copy is done. */
    ghost predicate ShownFor(outcome: Outcome)
      requires media.floppy ==> IMAGE_SECTORS <= 8 * |media.reader.zeros|
      reads this
    {
      exists k :: 0 <= k < GROUPS && ShownUpTo(k) && (outcome.Done? ==> k == GROUPS - 1)
    }

    /** One turn of the copy loop. */
    method CopyAndShow(count: nat, xx: Byte, lba: nat, plan: Plan, nonZeroTotal: nat, zeroTotal: nat,
                       ghost image: seq<Sector>, ghost relocated: seq<Sector>, ghost before: seq<Sector>,
                       ghost s: Drive, ghost trace: Trace)
      returns (outcome: Outcome)
      requires 0 < count < GROUPS && CopiedTo(GROUPS - count, lba, plan, image, relocated, before, s, trace)
      requires xx == (GROUPS - count) % 256
      requires media.floppy ==>
                 nonZeroTotal == Rank(media.reader.zeros, IMAGE_SECTORS) && zeroTotal == IMAGE_SECTORS - nonZeroTotal
      modifies media.reader, media.reader.buffer, disk, this`percent, this`shown
      ensures outcome.Done? ==> CopiedTo(GROUPS - count + 1, lba, plan, image, relocated, before, s, trace)
      ensures !outcome.Done? ==>
                && Ready(image, s, trace, lba, plan) && media.At(trace, IMAGE_SECTORS, outcome)
                && ShownUpTo(GROUPS - count - 1)
    {
      outcome := CopyGroup(count, lba, plan, image, relocated, before, s, trace);
      if outcome == Done {
        ShowProgress(xx, GROUPS - count, nonZeroTotal, zeroTotal);
      } else {
        StoppedCopy(image, s, trace, 4 * (GROUPS - count) + 4, outcome);
      }
    }

    /** The copy loop over all groups but the first. */
    method CopyImage(lba: nat, plan: Plan, nonZeroTotal: nat, zeroTotal: nat, ghost image: seq<Sector>,
                     ghost relocated: seq<Sector>, ghost before: seq<Sector>, ghost s: Drive, ghost trace: Trace)
      returns (outcome: Outcome)
      requires CopiedTo(1, lba, plan, image, relocated, before, s, trace)
      requires media.floppy ==>
                 nonZeroTotal == Rank(media.reader.zeros, IMAGE_SECTORS) && zeroTotal == IMAGE_SECTORS - nonZeroTotal
      modifies media.reader, media.reader.buffer, disk, this`percent, this`shown
      ensures Ready(image, s, trace, lba, plan) && media.At(trace, IMAGE_SECTORS, outcome)
      ensures outcome.Done? ==>
                Copied(before, disk[..], relocated, lba, plan, IMAGE_SECTORS) && CountedTo(IMAGE_SECTORS)
      ensures ShownFor(outcome)
    {
      var xx: Byte, count := 0, GROUPS - 1;
      outcome := Done;
      while count > 0
        invariant outcome == Done && 0 <= count <= GROUPS - 1 && xx == (GROUPS - 1 - count) % 256
        invariant CopiedTo(GROUPS - count, lba, plan, image, relocated, before, s, trace)
      {
        CountByte(GROUPS - 1 - count);
        xx := (xx + 1) % 256;
        outcome := CopyAndShow(count, xx, lba, plan, nonZeroTotal, zeroTotal, image, relocated, before, s, trace);
        if outcome != Done {
          assert ShownUpTo(GROUPS - count - 1);
          return;
        }
        count := count - 1;
      }
      AllCopied(GROUPS, lba, plan, image, relocated, before, s, trace);
      AllShown();
    }

    lemma {:induction false} AllCopied(g: nat, lba: nat, plan: Plan, image: seq<Sector>, relocated: seq<Sector>,
                                       before: seq<Sector>, s: Drive, trace: Trace)
      requires 4 * g == IMAGE_SECTORS && CopiedTo(g, lba, plan, image, relocated, before, s, trace)
      ensures Ready(image, s, trace, lba, plan) && media.At(trace, IMAGE_SECTORS, Done)
      ensures Copied(before, disk[..], relocated, lba, plan, IMAGE_SECTORS) && CountedTo(IMAGE_SECTORS)
      ensures ShownUpTo(g - 1)
    {
    }

    lemma {:induction false} AllShown()
      requires (media.floppy ==> IMAGE_SECTORS <= 8 * |media.reader.zeros|) && ShownUpTo(GROUPS - 1)
      ensures ShownFor(Done)
    {
    }

    /** What is shown never falls and stays from 1 to 101. */
    lemma {:induction false} ShownClimbs(outcome: Outcome)
      requires (media.floppy ==> IMAGE_SECTORS <= 8 * |media.reader.zeros|) && ShownFor(outcome)
      ensures Climbs(shown, 101)
    {
      var k :| 0 <= k < GROUPS && ShownUpTo(k) && (outcome.Done? ==> k == GROUPS - 1);
      CopyPercentsClimb(k);
    }

    /** A copy that stops has the outcome of the whole run. */
    lemma {:induction false} StoppedCopy(image: seq<Sector>, s: Drive, trace: Trace, l: nat, outcome: Outcome)
      requires media.Serves(image) && (media.floppy ==> IsTrace(trace, s, media.reader.zeros))
      requires l <= IMAGE_SECTORS && media.At(trace, l, outcome) && !outcome.Done?
      ensures media.At(trace, IMAGE_SECTORS, outcome)
    {
      assert TraceEntry(trace, s, media.reader.zeros, l) && TraceEntry(trace, s, media.reader.zeros, IMAGE_SECTORS);
      StoppedInOrder(s, media.reader.zeros, l, IMAGE_SECTORS);
    }

    /** With diskettes: the totals for the progress bar, and the counters back to zero. */
    method StartCounting(ghost image: seq<Sector>) returns (nonZeroTotal: nat, zeroTotal: nat)
      requires media.Serves(image)
      modifies media.reader
      ensures media.Serves(image) && CountedTo(0)
      ensures media.floppy ==>
                && media.reader.State() == old(media.reader.State())
                && nonZeroTotal == Rank(media.reader.zeros, IMAGE_SECTORS) && zeroTotal == IMAGE_SECTORS - nonZeroTotal
    {
      nonZeroTotal, zeroTotal := 0, 0;
      if media.floppy {
        nonZeroTotal, zeroTotal := CountTotals();
        media.reader.nonZeroSectorsWritten := 0;
        media.reader.zeroSectorsWritten := 0;
      }
    }

    /** The first group: the boot sector gets the partition's place and size, and the size of the new FAT. */
    method CopyFirstGroup(lba: nat, size: nat, plan: Plan, ghost image: seq<Sector>, ghost before: seq<Sector>,
                          ghost s: Drive, ghost trace: Trace)
      requires Ready(image, s, trace, lba, plan) && plan == PlanFor(image[0], size)
      requires media.At(trace, 0, Done) && CountedTo(0)
      requires |before| == disk.Length
      requires forall p :: 0 <= p < disk.Length ==> disk[p] == FormattedSector(before, lba, plan, p)
      modifies media.reader, media.reader.buffer, disk
      ensures Ready(image, s, trace, lba, plan) && media.At(trace, 4, Done) && CountedTo(4)
      ensures Copied(before, disk[..], Relocated(image, lba, size), lba, plan, 4)
    {
      var bf := ReadFirstGroup(image, s, trace);
      var boot: Sector := PutU32(bf[0], 0x1C, Wrap32(lba));
      boot := PutU32(boot, 0x20, Wrap32(size));
      boot := PutU32(boot, 0x24, plan.sectorsPerFat);
      bf := bf[0 := boot];
      ghost var mid := disk[..];
      WriteGroup(lba, bf);
      GroupCopied(before, mid, disk[..], Relocated(image, lba, size), lba, plan, 0, lba);
    }

    /** The new FAT's size and the old and new data start, from the boot sector. */
    method ReadPlan(boot: Sector, size: nat) returns (plan: Plan)
      ensures plan == PlanFor(boot, size)
    {
      var reserved, numFATs: nat := U16At(boot, 0xE), boot[0x10];
      var sectorsPerFATNew: nat := Wrap32(Wrap64(size - reserved) / 128);
      var sectorsPerFATOld := U32At(boot, 0x24);
      var oldDataStartOffset: nat := Wrap32(Wrap32(numFATs * sectorsPerFATOld) + reserved);
      var newDataStartOffset: nat := Wrap32(Wrap32(numFATs * sectorsPerFATNew) + reserved);
      plan := Plan(oldDataStartOffset, newDataStartOffset, sectorsPerFATNew);
    }

    /** Everything after formatting: the totals, the first group and the copy loop. */
    method CopyAll(size: nat, lba: nat, plan: Plan, ghost image: seq<Sector>, ghost before: seq<Sector>,
                   ghost s: Drive, ghost trace: Trace)
      returns (outcome: Outcome)
      requires Ready(image, s, trace, lba, plan) && plan == PlanFor(image[0], size) && media.At(trace, 0, Done)
      requires |before| == disk.Length
      requires forall p :: 0 <= p < disk.Length ==> disk[p] == FormattedSector(before, lba, plan, p)
      modifies this`percent, this`shown, disk, media.reader, media.reader.buffer
      ensures Ready(image, s, trace, lba, plan) && media.At(trace, IMAGE_SECTORS, outcome)
      ensures outcome.Done? ==> Installed(before, disk[..], image, lba, size) && CountedTo(IMAGE_SECTORS)
      ensures ShownFor(outcome)
    {
      var nonZeroTotal, zeroTotal := StartCounting(image);
      percent, shown := 1, [];
      CopyFirstGroup(lba, size, plan, image, before, s, trace);
      outcome := CopyImage(lba, plan, nonZeroTotal, zeroTotal, image, Relocated(image, lba, size), before, s, trace);
    }

    /** The installation on a partition.  If the operator lets it finish, the image is on the disk with its data
        area moved behind the new FATs; the run of diskette changes is that of reading the image in order. */
    method RealInstall(size: nat, lba: nat, ghost image: seq<Sector>, ghost s: Drive, ghost trace: Trace)
      returns (outcome: Outcome)
      requires Apart() && media.Serves(image)
      requires media.floppy ==> IsTrace(trace, s, media.reader.zeros) && media.reader.State() == s
      requires var plan := PlanFor(image[0], size);
               plan.oldStart <= plan.newStart && lba + Extent(plan) <= disk.Length <= HIGHEST_LBA + 1
      modifies this, disk, media.reader, media.reader.buffer
      ensures outcome.Done? ==> Installed(old(disk[..]), disk[..], image, lba, size)
      ensures if media.floppy then
                && IMAGE_SECTORS <= 8 * |media.reader.zeros|
                && (outcome, media.reader.State()) == Run(s, Requests(media.reader.zeros, 0, IMAGE_SECTORS))
              else outcome.Done?
      ensures outcome.Done? ==> CountedTo(IMAGE_SECTORS)
      ensures ShownFor(outcome) && Climbs(shown, 101) && Climbs(formatShown, 100)
      ensures && (forall i, j :: 0 <= i < j < |shown| ==> shown[i] <= shown[j])
              && forall i :: 0 <= i < |shown| ==> 1 <= shown[i] <= 101
    {
      ghost var before := disk[..];
      percent := 1;
      StartOfTrace(s, trace);
      var bf := Opening(image, s, trace);
      var plan := ReadPlan(bf[0], size);
      Format(lba, plan);
      FormatClimbs(lba, plan.newStart + 2, plan.newStart + 2);
      outcome := CopyAll(size, lba, plan, image, before, s, trace);
      if media.floppy { assert TraceEntry(trace, s, media.reader.zeros, IMAGE_SECTORS); }
      ShownClimbs(outcome);
    }

    lemma {:induction false} StartOfTrace(s: Drive, trace: Trace)
      requires media.floppy ==> IsTrace(trace, s, media.reader.zeros) && media.reader.State() == s
      ensures media.At(trace, 0, Done)
    {
      if media.floppy { assert TraceEntry(trace, s, media.reader.zeros, 0); }
    }
  }
}
