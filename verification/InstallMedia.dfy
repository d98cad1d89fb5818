/** Reading the image in 2K pieces, from diskettes or from a CD. */
module InstallMedia {
  import opened Bytes
  import opened SparseImage
  import opened Diskettes
  import opened FloppyReader
  import opened Layout

  const MAIN_DISK_FIRST_SECTOR := 0x3A
  const GROUPS := IMAGE_SECTORS / 4

  /** From one entry of a trace to the next. */
  lemma {:induction false} TraceStep(zeros: seq<Byte>, lba: nat, s: Drive, trace: Trace, t: Drive)
    requires IsTrace(trace, s, zeros) && lba < 8 * |zeros| && trace[lba] == (Done, t)
    ensures IsZero(zeros, lba) ==> trace[lba + 1] == (Done, t)
    ensures !IsZero(zeros, lba) ==>
              var d := Rank(zeros, lba) / 2600;
              && t.inserted < MAX_DISKETTES && trace[lba + 1] == Serve(t, d)
              && (Serve(t, d).0.Done? ==> Serve(t, d).1.inserted == d)
  {
    assert TraceEntry(trace, s, zeros, lba) && TraceEntry(trace, s, zeros, lba + 1);
    NextInOrder(s, zeros, lba, t);
  }

  class Media {
    const floppy: bool
    const reader: Reader
    const cdrom: seq<seq<Sector>>

    constructor (floppy: bool, reader: Reader, cdrom: seq<seq<Sector>>)
      ensures this.floppy == floppy && this.reader == reader && this.cdrom == cdrom
    {
      this.floppy, this.reader, this.cdrom := floppy, reader, cdrom;
    }

    /** The media hold the image: as diskettes with its bitmap, or in order on a CD. */
    ghost predicate Serves(image: seq<Sector>)
      reads reader, reader.buffer
    {
      && |image| == IMAGE_SECTORS
      && (floppy ==> reader.Valid() && Stores(reader.zeros, reader.diskettes, image))
      && (!floppy ==>
            && |cdrom| >= MAIN_DISK_FIRST_SECTOR + GROUPS
            && forall g :: 0 <= g < GROUPS ==> cdrom[MAIN_DISK_FIRST_SECTOR + g] == image[4 * g..4 * g + 4])
    }

    /** With diskettes: the image has been read in order up to sector `lba`, with this outcome. */
    ghost predicate At(trace: Trace, lba: nat, outcome: Outcome)
      requires floppy ==> lba < |trace|
      reads reader
    {
      if floppy then trace[lba] == (outcome, reader.State()) else outcome.Done?
    }

    /** `bf` holds the sectors from `first` up to `hi`; `nonZero` and `zero` count them by kind. */
    ghost predicate Gathered(image: seq<Sector>, first: nat, hi: nat, bf: seq<Sector>, nonZero: int, zero: int)
    {
      && first <= hi <= |image| && hi <= 8 * |reader.zeros|
      && bf == image[first..hi]
      && nonZero == Rank(reader.zeros, hi) - Rank(reader.zeros, first)
      && zero == (hi - first) - nonZero
    }

    lemma {:induction false} GatheredOne(image: seq<Sector>, lba: nat, data: Sector)
      requires lba < |image| && lba < 8 * |reader.zeros| && data == image[lba]
      ensures Gathered(image, lba, lba + 1, [data], if IsZero(reader.zeros, lba) then 0 else 1,
                       if IsZero(reader.zeros, lba) then 1 else 0)
    {
    }

    /** The next sector of the image, in order. */
    method NextSector(lba: nat, ghost image: seq<Sector>, ghost s: Drive, ghost trace: Trace)
      returns (outcome: Outcome, data: Sector)
      requires floppy && Serves(image) && IsTrace(trace, s, reader.zeros)
      requires lba < IMAGE_SECTORS && At(trace, lba, Done)
      modifies reader, reader.buffer
      ensures Serves(image) && At(trace, lba + 1, outcome)
      ensures outcome.Done? ==>
                Gathered(image, lba, lba + 1, [data],
                         reader.nonZeroSectorsWritten - old(reader.nonZeroSectorsWritten),
                         reader.zeroSectorsWritten - old(reader.zeroSectorsWritten))
    {
      TraceStep(reader.zeros, lba, s, trace, reader.State());
      outcome, data := reader.FloppyReadSector(lba);
      assert Stored(reader.zeros, reader.diskettes, image, lba);
      if outcome == Done {
        if !IsZero(reader.zeros, lba) { StoredAt(reader.zeros, reader.diskettes, image, lba, reader.inserted, data); }
        GatheredOne(image, lba, data);
      }
    }

    lemma {:induction false} GatherMore(image: seq<Sector>, first: nat, lba: nat, bf: seq<Sector>, nonZero: int,
                                        zero: int, data: Sector, nonZero': int, zero': int)
      requires Gathered(image, first, lba, bf, nonZero, zero)
      requires Gathered(image, lba, lba + 1, [data], nonZero', zero')
      ensures Gathered(image, first, lba + 1, bf + [data], nonZero + nonZero', zero + zero')
    {
      assert image[first..lba + 1] == image[first..lba] + image[lba..lba + 1];
    }

    /** Reads one more sector behind those in `bf`, unless an earlier one could not be had; `n` and `z` are the
        counters before the first of them. */
    method ReadBehind(so: Outcome, bf: seq<Sector>, first: nat, lba: nat, ghost image: seq<Sector>, ghost s: Drive,
                      ghost trace: Trace, ghost n: int, ghost z: int)
      returns (outcome: Outcome, bf': seq<Sector>)
      requires floppy && Serves(image) && IsTrace(trace, s, reader.zeros) && lba < IMAGE_SECTORS && At(trace, lba, so)
      requires so.Done? ==>
                 Gathered(image, first, lba, bf, reader.nonZeroSectorsWritten - n, reader.zeroSectorsWritten - z)
      modifies reader, reader.buffer
      ensures Serves(image) && At(trace, lba + 1, outcome)
      ensures outcome.Done? ==>
                Gathered(image, first, lba + 1, bf', reader.nonZeroSectorsWritten - n, reader.zeroSectorsWritten - z)
    {
      if so != Done {
        assert TraceEntry(trace, s, reader.zeros, lba) && TraceEntry(trace, s, reader.zeros, lba + 1);
        StoppedInOrder(s, reader.zeros, lba, lba + 1);
        return so, bf;
      }
      ghost var n', z' := reader.nonZeroSectorsWritten, reader.zeroSectorsWritten;
      var data: Sector;
      outcome, data := NextSector(lba, image, s, trace);
      bf' := bf + [data];
      if outcome == Done {
        GatherMore(image, first, lba, bf, n' - n, z' - z,
                   data, reader.nonZeroSectorsWritten - n', reader.zeroSectorsWritten - z');
      }
    }

    /** Four sectors from the diskettes. */
    method ReadFromDiskettes(first: nat, ghost image: seq<Sector>, ghost s: Drive, ghost trace: Trace)
      returns (outcome: Outcome, bf: seq<Sector>)
      requires floppy && Serves(image) && IsTrace(trace, s, reader.zeros)
      requires first + 4 <= IMAGE_SECTORS && At(trace, first, Done)
      modifies reader, reader.buffer
      ensures Serves(image) && At(trace, first + 4, outcome)
      ensures outcome.Done? ==>
                Gathered(image, first, first + 4, bf,
                         reader.nonZeroSectorsWritten - old(reader.nonZeroSectorsWritten),
                         reader.zeroSectorsWritten - old(reader.zeroSectorsWritten))
    {
      ghost var n, z := reader.nonZeroSectorsWritten, reader.zeroSectorsWritten;
      outcome, bf := ReadBehind(Done, [], first, first + 0, image, s, trace, n, z);
      outcome, bf := ReadBehind(outcome, bf, first, first + 1, image, s, trace, n, z);
      outcome, bf := ReadBehind(outcome, bf, first, first + 2, image, s, trace, n, z);
      outcome, bf := ReadBehind(outcome, bf, first, first + 3, image, s, trace, n, z);
    }

    /** Four sectors of the image: from diskettes, or as one sector of the CD, where the image begins at sector 58. */
    method Read2KSectorFromInstallMedia(sector: nat, ghost image: seq<Sector>,
                                        ghost s: Drive, ghost trace: Trace)
      returns (outcome: Outcome, bf: seq<Sector>)
      requires Serves(image) && (floppy ==> IsTrace(trace, s, reader.zeros))
      requires 58 <= sector < 58 + 32768
      requires At(trace, 4 * (sector - 58), Done)
      modifies reader, reader.buffer
      ensures Serves(image) && At(trace, 4 * (sector - 58) + 4, outcome)
      ensures !floppy ==> sector < |cdrom| && bf == cdrom[sector]
      ensures var first := 4 * (sector - 58);
              outcome.Done? ==>
                && bf == image[first..first + 4]
                && (floppy ==>
                      Gathered(image, first, first + 4, bf,
                               reader.nonZeroSectorsWritten - old(reader.nonZeroSectorsWritten),
                               reader.zeroSectorsWritten - old(reader.zeroSectorsWritten)))
    {
      if floppy {
        outcome, bf := ReadFromDiskettes((sector - MAIN_DISK_FIRST_SECTOR) * 4, image, s, trace);
      } else {
        bf, outcome := cdrom[sector], Done;
      }
    }

    /** The first four sectors are on the first diskette: rereading them asks for nothing and cannot fail. */
    lemma {:induction false} FirstGroupIsSafe(s: Drive, trace: Trace, lba: nat, outcome: Outcome)
      requires floppy ==> IsTrace(trace, s, reader.zeros) && 5 <= |trace|
      requires lba <= 4 && At(trace, lba, outcome)
      ensures outcome.Done? && forall l: nat :: l <= 4 ==> At(trace, l, Done)
      ensures floppy ==> reader.State() == s
    {
      if floppy {
        forall l: nat | l <= 4
          ensures trace[l] == (Done, s)
        {
          assert TraceEntry(trace, s, reader.zeros, l);
          FirstRequests(s, reader.zeros, l);
        }
      }
    }
  }
}
