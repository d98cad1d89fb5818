/** The installer's cached reader of a sparse image spread over diskettes. */
module FloppyReader {
  import opened Bytes
  import opened SparseImage
  import opened Diskettes

  const TRACK_SECTORS := 18
  const NO_TRACK := -188

  class Reader {
    const zeros: seq<Byte>
    const diskettes: seq<Diskette>
    /** One track, also overwritten when a diskette's marker is read. */
    const buffer: array<Sector>

    var bufferBase: int
    var currentDiskette: nat
    var highestInputLBA: nat
    var matchingOutputLBA: nat
    var zeroSectorsWritten: nat
    var nonZeroSectorsWritten: nat

    // The world outside: the drive, the operator and the prompts on the screen.
    var inserted: nat
    var script: seq<nat>
    var prompts: seq<nat>

    ghost function State(): Drive
      reads this
    {
      Drive(currentDiskette, inserted, script, prompts)
    }

    /** The buffer holds the track that `bufferBase` names, of the diskette in the drive. */
    ghost predicate Coherent()
      reads this, buffer
    {
      && buffer.Length == TRACK_SECTORS
      && inserted < |diskettes|
      && |diskettes[inserted]| == DISKETTE_SECTORS
      && (bufferBase != NO_TRACK ==>
            && 0 <= bufferBase <= DISKETTE_SECTORS - TRACK_SECTORS
            && forall k :: 0 <= k < TRACK_SECTORS ==> buffer[k] == diskettes[inserted][bufferBase + k])
    }

    /** The memoised pair is a point of the rank function. */
    ghost predicate Memoised()
      reads this
    {
      highestInputLBA <= 8 * |zeros| && matchingOutputLBA == Rank(zeros, highestInputLBA)
    }

    ghost predicate Valid()
      reads this, buffer
    {
      && |diskettes| <= MAX_DISKETTES && Marked(diskettes)
      && (forall i :: 0 <= i < |script| ==> script[i] < |diskettes|)
      && Coherent()
      && Memoised()
    }

    constructor (zeros: seq<Byte>, diskettes: seq<Diskette>, script: seq<nat>)
      requires 0 < |diskettes| <= MAX_DISKETTES && Marked(diskettes)
      requires forall i :: 0 <= i < |script| ==> script[i] < |diskettes|
      ensures Valid() && fresh(buffer)
      ensures this.zeros == zeros && this.diskettes == diskettes
      ensures State() == Drive(0, 0, script, []) && bufferBase == -188 && highestInputLBA == matchingOutputLBA == 0
      ensures zeroSectorsWritten == nonZeroSectorsWritten == 0
    {
      this.zeros, this.diskettes, this.script := zeros, diskettes, script;
      bufferBase, currentDiskette := NO_TRACK, 0;
      highestInputLBA, matchingOutputLBA := 0, 0;
      zeroSectorsWritten, nonZeroSectorsWritten := 0, 0;
      inserted, prompts := 0, [];
      buffer := new Sector[TRACK_SECTORS](_ => ZeroSector());
    }

    /** A floppy read: always a whole track from `lba` on. */
    method ReadTrack(lba: nat)
      requires buffer.Length == TRACK_SECTORS && inserted < |diskettes|
      requires |diskettes[inserted]| == DISKETTE_SECTORS && lba + TRACK_SECTORS <= DISKETTE_SECTORS
      modifies buffer
      ensures forall k :: 0 <= k < 18 ==> buffer[k] == diskettes[inserted][lba + k]
    {
      for i := 0 to TRACK_SECTORS
        invariant forall k :: 0 <= k < i ==> buffer[k] == diskettes[inserted][lba + k]
      {
        buffer[i] := diskettes[inserted][lba + i];
      }
    }

    /** The number of non-zero sectors below `imageLBA`, from the memoised pair when it is of use. */
    method ActualLBA(imageLBA: nat) returns (actualLBA: nat)
      requires imageLBA <= 8 * |zeros| && Memoised()
      modifies this`highestInputLBA, this`matchingOutputLBA
      ensures actualLBA == Rank(zeros, imageLBA)
      ensures Memoised()
      ensures highestInputLBA == if imageLBA > old(highestInputLBA) then imageLBA else old(highestInputLBA)
    {
      actualLBA := 0;
      var i := 0;
      if imageLBA > highestInputLBA {
        i := highestInputLBA;
        actualLBA := matchingOutputLBA;
      }
      while i < imageLBA
        invariant i <= imageLBA && actualLBA == Rank(zeros, i)
      {
        if !IsZero(zeros, i) { actualLBA := actualLBA + 1; }
        i := i + 1;
      }
      if imageLBA > highestInputLBA {
        highestInputLBA := imageLBA;
        matchingOutputLBA := actualLBA;
      }
    }

    /** The prompt: the operator inserts a diskette and presses ENTER until it is the right one. */
    method Prompt(floppyNum: nat) returns (outcome: Outcome)
      requires Valid() && bufferBase == NO_TRACK
      requires floppyNum <= LAST_PROMPT
      modifies this`inserted, this`script, this`prompts, this`currentDiskette, buffer
      ensures Valid()
      ensures prompts == old(prompts) + [floppyNum]
      ensures match SkipTo(old(script), floppyNum)
              case Some(rest) => outcome == Done && State() == Drive(floppyNum, floppyNum, rest, prompts)
              case None =>
                && outcome == Waiting && currentDiskette == old(currentDiskette) && script == []
                && inserted == if old(script) == [] then old(inserted) else old(script)[|old(script)| - 1]
    {
      prompts := prompts + [floppyNum];
      while script != []
        invariant Valid() && currentDiskette == old(currentDiskette)
        invariant prompts == old(prompts) + [floppyNum]
        invariant SkipTo(script, floppyNum) == SkipTo(old(script), floppyNum)
        invariant |script| <= |old(script)| && script == old(script)[|old(script)| - |script|..]
        invariant inserted == if script == old(script) then old(inserted)
                              else old(script)[|old(script)| - |script| - 1]
        decreases |script|
      {
        inserted, script := script[0], script[1..];
        ReadTrack(0);
        var marker := buffer[0][511];
        PromptAcceptsExactly(inserted, floppyNum);
        if PromptAccepts(marker, floppyNum) {
          currentDiskette := floppyNum;
          return Done;
        }
      }
      return Waiting;
    }

    /** Makes the reader believe in diskette `floppyNum`, asking for it where the early test fails. */
    method ChangeDiskette(floppyNum: nat) returns (outcome: Outcome)
      requires Valid() && currentDiskette != floppyNum
      modifies this`bufferBase, this`inserted, this`script, this`prompts, this`currentDiskette, buffer
      ensures Valid() && bufferBase == NO_TRACK
      ensures (outcome, State()) == Serve(old(State()), floppyNum)
    {
      bufferBase := NO_TRACK;
      ReadTrack(0);
      var marker := buffer[0][511];
      if EarlyAccepts(marker, floppyNum) {
        currentDiskette := floppyNum;
        return Done;
      }
      if floppyNum > LAST_PROMPT { return Halted; }
      outcome := Prompt(floppyNum);
    }

    /** Serves a sector of the diskette in the drive, by way of the track buffer. */
    method Fetch(floppySector: nat) returns (data: Sector)
      requires Coherent() && floppySector < FIRST_DATA_SECTOR + VOLUME_SECTORS
      modifies this`bufferBase, buffer
      ensures Coherent() && data == diskettes[inserted][floppySector]
    {
      if !(bufferBase <= floppySector < bufferBase + TRACK_SECTORS) {
        var base := floppySector / TRACK_SECTORS * TRACK_SECTORS;
        ReadTrack(base);
        bufferBase := base;
      }
      data := buffer[floppySector - bufferBase];
    }

    /** A sector that is not blank: the diskette and the place on it, a change of diskettes, the sector. */
    method ReadStored(imageLBA: nat) returns (outcome: Outcome, data: Sector)
      requires Valid() && imageLBA < 8 * |zeros|
      modifies this`bufferBase, this`inserted, this`script, this`prompts, this`currentDiskette, buffer
      modifies this`highestInputLBA, this`matchingOutputLBA
      ensures Valid() && (outcome, State()) == Serve(old(State()), Rank(zeros, imageLBA) / VOLUME_SECTORS)
      ensures outcome.Done? ==>
                data == diskettes[inserted][FIRST_DATA_SECTOR + Rank(zeros, imageLBA) % VOLUME_SECTORS]
    {
      var actualLBA := ActualLBA(imageLBA);
      var floppySector := actualLBA % VOLUME_SECTORS + FIRST_DATA_SECTOR;
      var floppyNum := actualLBA / VOLUME_SECTORS;
      if currentDiskette != floppyNum {
        outcome := ChangeDiskette(floppyNum);
        if outcome != Done { return outcome, ZeroSector(); }
      }
      data := Fetch(floppySector);
      outcome := Done;
    }

    /** The reader: what it returns and how it changes depends on no cached value. */
    method FloppyReadSector(imageLBA: nat) returns (outcome: Outcome, data: Sector)
      requires Valid() && imageLBA < 8 * |zeros|
      modifies this, buffer
      ensures Valid()
      ensures IsZero(zeros, imageLBA) ==>
                && outcome == Done && data == ZeroSector() && State() == old(State())
                && zeroSectorsWritten == old(zeroSectorsWritten) + 1
                && nonZeroSectorsWritten == old(nonZeroSectorsWritten)
      ensures !IsZero(zeros, imageLBA) ==>
                && (outcome, State()) == Serve(old(State()), Rank(zeros, imageLBA) / 2600)
                && zeroSectorsWritten == old(zeroSectorsWritten)
                && nonZeroSectorsWritten == old(nonZeroSectorsWritten) + (if outcome.Done? then 1 else 0)
                && (outcome.Done? ==>
                      data == diskettes[inserted][33 + Rank(zeros, imageLBA) % 2600])
    {
      if IsZero(zeros, imageLBA) {
        zeroSectorsWritten := zeroSectorsWritten + 1;
        return Done, ZeroSector();
      }
      outcome, data := ReadStored(imageLBA);
      if outcome == Done { nonZeroSectorsWritten := nonZeroSectorsWritten + 1; }
    }

    /** The first `i` of these sectors have been read, from the state `s` on. */
    ghost predicate ReadTo(lbas: seq<nat>, i: nat, s: Drive, outcome: Outcome)
      requires i <= |lbas| && forall k :: 0 <= k < |lbas| ==> lbas[k] < 8 * |zeros|
      reads this, buffer
    {
      Valid() && DriveOk(s) && (outcome, State()) == Run(s, RequestsFor(zeros, lbas[..i]))
    }

    /** The next of these sectors. */
    method ReadNext(lbas: seq<nat>, i: nat, ghost image: seq<Sector>, ghost s: Drive)
      returns (outcome: Outcome, data: Sector)
      requires i < |lbas| && Stores(zeros, diskettes, image) && forall k :: 0 <= k < |lbas| ==> lbas[k] < |image|
      requires Synced(s) && ReadTo(lbas, i, s, Done) && NeverJumps(s.current, RequestsFor(zeros, lbas))
      modifies this, buffer
      ensures ReadTo(lbas, i + 1, s, outcome) && (outcome.Done? ==> data == image[lbas[i]])
    {
      NextRequest(zeros, lbas, i, s, State());
      outcome, data := FloppyReadSector(lbas[i]);
      assert Stored(zeros, diskettes, image, lbas[i]);
      if outcome == Done && !IsZero(zeros, lbas[i]) { StoredAt(zeros, diskettes, image, lbas[i], inserted, data); }
    }

    /** Any sectors, in any order, whatever calls came before: the run of diskettes is that of the requests, and as
        long as none of these jumps, every sector is the image's. */
    method ReadSectors(lbas: seq<nat>, ghost image: seq<Sector>) returns (outcome: Outcome, data: seq<Sector>)
      requires Valid() && Stores(zeros, diskettes, image) && forall k :: 0 <= k < |lbas| ==> lbas[k] < |image|
      requires Synced(State()) && NeverJumps(currentDiskette, RequestsFor(zeros, lbas))
      modifies this, buffer
      ensures Valid() && DriveOk(old(State()))
      ensures (outcome, State()) == Run(old(State()), RequestsFor(zeros, lbas))
      ensures outcome.Done? ==> Synced(State()) && |data| == |lbas|
      ensures outcome.Done? ==> forall k :: 0 <= k < |lbas| ==> data[k] == image[lbas[k]]
    {
      outcome, data := Done, [];
      ghost var s := State();
      for i := 0 to |lbas|
        invariant ReadTo(lbas, i, s, Done) && outcome == Done && Fetched(data, image, lbas, i)
      {
        var d: Sector;
        outcome, d := ReadNext(lbas, i, image, s);
        if outcome != Done {
          StoppedRequests(zeros, lbas, i + 1, s);
          return;
        }
        FetchedMore(data, image, lbas, i);
        data := data + [d];
      }
      assert lbas[..|lbas|] == lbas;
      RunStaysSynced(s, RequestsFor(zeros, lbas));
    }
  }

  /** `data` are the image's sectors at the first `n` of these places. */
  ghost predicate Fetched(data: seq<Sector>, image: seq<Sector>, lbas: seq<nat>, n: nat) {
    && |data| == n <= |lbas|
    && forall k :: 0 <= k < n ==> lbas[k] < |image| && data[k] == image[lbas[k]]
  }

  lemma {:induction false} FetchedMore(data: seq<Sector>, image: seq<Sector>, lbas: seq<nat>, n: nat)
    requires Fetched(data, image, lbas, n) && n < |lbas| && lbas[n] < |image|
    ensures Fetched(data + [image[lbas[n]]], image, lbas, n + 1)
  {
  }

  /** The diskettes asked for when these sectors are read one after the other. */
  function RequestsFor(zeros: seq<Byte>, lbas: seq<nat>): seq<nat>
    requires forall i :: 0 <= i < |lbas| ==> lbas[i] < 8 * |zeros|
  {
    if lbas == [] then []
    else
      var last := lbas[|lbas| - 1];
      RequestsFor(zeros, lbas[..|lbas| - 1])
      + if IsZero(zeros, last) then [] else [Rank(zeros, last) / VOLUME_SECTORS]
  }

  /** The first requests are a beginning of all of them. */
  lemma {:induction false} RequestsBegin(zeros: seq<Byte>, lbas: seq<nat>, n: nat)
    requires n <= |lbas| && forall i :: 0 <= i < |lbas| ==> lbas[i] < 8 * |zeros|
    ensures RequestsFor(zeros, lbas[..n]) <= RequestsFor(zeros, lbas)
  {
    if n < |lbas| {
      RequestsBegin(zeros, lbas[..|lbas| - 1], n);
      assert lbas[..|lbas| - 1][..n] == lbas[..n];
    } else {
      assert lbas[..n] == lbas;
    }
  }

  lemma {:induction false} StoppedRequests(zeros: seq<Byte>, lbas: seq<nat>, n: nat, s: Drive)
    requires n <= |lbas| && forall i :: 0 <= i < |lbas| ==> lbas[i] < 8 * |zeros|
    requires DriveOk(s) && !Run(s, RequestsFor(zeros, lbas[..n])).0.Done?
    ensures Run(s, RequestsFor(zeros, lbas)) == Run(s, RequestsFor(zeros, lbas[..n]))
  {
    RequestsBegin(zeros, lbas, n);
    var first, all := RequestsFor(zeros, lbas[..n]), RequestsFor(zeros, lbas);
    assert all == first + all[|first|..];
    RunStuck(s, first, all[|first|..]);
  }

  lemma {:induction false} RequestsOfMore(zeros: seq<Byte>, lbas: seq<nat>, i: nat)
    requires i < |lbas| && forall k :: 0 <= k < |lbas| ==> lbas[k] < 8 * |zeros|
    ensures var before, after := RequestsFor(zeros, lbas[..i]), RequestsFor(zeros, lbas[..i + 1]);
            after == if IsZero(zeros, lbas[i]) then before else before + [Rank(zeros, lbas[i]) / VOLUME_SECTORS]
  {
    var before := RequestsFor(zeros, lbas[..i]);
    assert lbas[..i + 1][..i] == lbas[..i];
    assert before + [] == before;
  }

  /** One request more of a run without jumps goes to the right diskette. */
  lemma {:induction false} RunOneMore(s: Drive, before: seq<nat>, d: nat, all: seq<nat>, t: Drive)
    requires DriveOk(s) && Synced(s) && NeverJumps(s.current, all) && before + [d] <= all
    requires (Done, t) == Run(s, before)
    ensures t.inserted < MAX_DISKETTES && Serve(t, d) == Run(s, before + [d])
    ensures Serve(t, d).0.Done? ==> Serve(t, d).1.inserted == d
  {
    assert before + [d] == all[..|before| + 1];
    NeverJumpsPrefix(s.current, all, |before| + 1);
    RunStep(s, before, d);
    if Serve(t, d).0.Done? { RunStaysSynced(s, before + [d]); }
  }

  /** One sector more: the reader goes on as the run does. */
  lemma {:induction false} NextRequest(zeros: seq<Byte>, lbas: seq<nat>, i: nat, s: Drive, t: Drive)
    requires i < |lbas| && forall k :: 0 <= k < |lbas| ==> lbas[k] < 8 * |zeros|
    requires DriveOk(s) && Synced(s) && NeverJumps(s.current, RequestsFor(zeros, lbas))
    requires (Done, t) == Run(s, RequestsFor(zeros, lbas[..i]))
    ensures IsZero(zeros, lbas[i]) ==> (Done, t) == Run(s, RequestsFor(zeros, lbas[..i + 1]))
    ensures !IsZero(zeros, lbas[i]) ==>
              var d := Rank(zeros, lbas[i]) / VOLUME_SECTORS;
              && t.inserted < MAX_DISKETTES
              && Serve(t, d) == Run(s, RequestsFor(zeros, lbas[..i + 1]))
              && (Serve(t, d).0.Done? ==> Serve(t, d).1.inserted == d)
  {
    RequestsOfMore(zeros, lbas, i);
    RequestsBegin(zeros, lbas, i + 1);
    if !IsZero(zeros, lbas[i]) {
      RunOneMore(s, RequestsFor(zeros, lbas[..i]), Rank(zeros, lbas[i]) / VOLUME_SECTORS, RequestsFor(zeros, lbas), t);
    }
  }

  /** Sector `lba` of the image is blank and marked so, or on the diskette and at the place that its rank
      says. */
  ghost predicate Stored(zeros: seq<Byte>, disks: seq<Diskette>, image: seq<Sector>, lba: nat)
    requires lba < |image| <= 8 * |zeros|
  {
    if IsZero(zeros, lba) then image[lba] == ZeroSector()
    else
      var d, k := Rank(zeros, lba) / VOLUME_SECTORS, FIRST_DATA_SECTOR + Rank(zeros, lba) % VOLUME_SECTORS;
      d < |disks| ==> |disks[d]| == DISKETTE_SECTORS && disks[d][k] == image[lba]
  }

  lemma {:induction false} StoredAt(zeros: seq<Byte>, disks: seq<Diskette>, image: seq<Sector>, lba: nat, d: nat,
                                    data: Sector)
    requires lba < |image| <= 8 * |zeros| && !IsZero(zeros, lba) && Stored(zeros, disks, image, lba)
    requires d == Rank(zeros, lba) / 2600 && d < |disks| && |disks[d]| == DISKETTE_SECTORS
    requires data == disks[d][33 + Rank(zeros, lba) % 2600]
    ensures data == image[lba]
  {
  }

  ghost predicate Stores(zeros: seq<Byte>, disks: seq<Diskette>, image: seq<Sector>) {
    && |image| <= 8 * |zeros|
    && forall lba {:trigger Stored(zeros, disks, image, lba)} :: 0 <= lba < |image| ==> Stored(zeros, disks, image, lba)
  }

  /** A packed image on diskettes is stored as the reader expects. */
  lemma {:induction false} PackedIsStored(p: Packed, disks: seq<Diskette>, image: seq<Sector>)
    requires image != [] && |image| % 8 == 0 && IsPacking(p, image) && Carry(disks, p.volumes)
    ensures Stores(p.zeros, disks, image)
  {
    forall lba | 0 <= lba < |image|
      ensures Stored(p.zeros, disks, image, lba)
    {
      PackedSector(p, image, lba);
    }
  }
}
