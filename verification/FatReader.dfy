/** The firmware's file reader: it follows FAT32 chains by LBA, through two scratch buffers. */
module FatReader {
  import opened Bytes
  import opened Fat32
  import opened Paths

  // --- the search as it is: LBA after LBA, whatever stands there ------------------------

  function FatLba(b: Bpb): nat { Wrap32(b.reserved + b.hidden) }

  function RootLba(b: Bpb): nat { Wrap32(FatLba(b) + Wrap32(b.sectorsPerFat * b.fats)) }

  /** The cluster number that an LBA stands for. */
  function ClusterAt(b: Bpb, lba: nat): nat { Wrap32(Wrap32(lba - RootLba(b)) + 2) }

  /** The sector that holds its FAT entry. */
  function EntrySector(b: Bpb, lba: nat): nat { Wrap32(ClusterAt(b, lba) / 128 + FatLba(b)) }

  const END_OF_CHAIN: nat := 0xF000_0000

  /** The end test on a FAT entry, and the LBA of the successor. */
  function Successor(val: nat, root: int): nat {
    if val >= END_OF_CHAIN then END_OF_CHAIN else Wrap32(val + root - 2)
  }

  function NextLba(disk: seq<Sector>, b: Bpb, lba: nat): nat
    requires EntrySector(b, lba) < |disk|
  {
    Successor(U32At(disk[EntrySector(b, lba)], ClusterAt(b, lba) % 128 * 4) % 0x1000_0000, RootLba(b))
  }

  /** The test comes after the entry is cut to 28 bits: it never succeeds, whatever the entry. */
  lemma {:induction false} EndTestNeverFires(entry: nat, root: nat)
    ensures Successor(entry % 0x1000_0000, root) == Wrap32(entry % 0x1000_0000 + root - 2)
  {
  }

  /** What a search for a name finds at an LBA: an entry, where to go on, nothing past the highest LBA, or no sector. */
  datatype Step = Entry(found: Found) | Onward(lba: nat) | Nothing | OffDisk

  type Walk = nat -> Step

  function StepAt(disk: seq<Sector>, b: Bpb, part: Name, lba: nat): Step {
    if lba > HIGHEST_LBA then Nothing
    else if lba >= |disk| then OffDisk
    else
      var i := FirstMatch(disk[lba], part, 0);
      if i < ENTRIES then Entry(EntryAt(disk[lba], i))
      else if EntrySector(b, lba) >= |disk| then OffDisk
      else Onward(NextLba(disk, b, lba))
  }

  function WalkOf(disk: seq<Sector>, b: Bpb, part: Name): Walk { (lba: nat) => StepAt(disk, b, part, lba) }

  /** A search ends within `n` steps, without running off the disk. */
  predicate Ends(walk: Walk, lba: nat, n: nat)
    decreases n
  {
    match walk(lba)
    case Entry(_) => true
    case Onward(next) => n > 0 && Ends(walk, next, n - 1)
    case Nothing => true
    case OffDisk => false
  }

  /** The entry that it ends with, if any. */
  function Result(walk: Walk, lba: nat, n: nat): Option<Found>
    requires Ends(walk, lba, n)
    decreases n
  {
    match walk(lba)
    case Entry(found) => Some(found)
    case Onward(next) => Result(walk, next, n - 1)
    case Nothing => None
  }

  /** The return value of a search: 0 where there is no entry. */
  function FoundLba(b: Bpb, r: Option<Found>): nat {
    match r
    case None => 0
    case Some(f) => Wrap32(f.cluster + RootLba(b) - 2)
  }

  /** The size it leaves: only the last component sets it. */
  function FoundSize(r: Option<Found>, last: bool, size: nat): nat {
    if r.Some? && last then r.value.size else size
  }

  /** What a search returns: 0 and the old size, or the LBA of the cluster found and, for the last component, the
      entry's size. */
  lemma {:induction false} ReturnValues(b: Bpb, cluster: nat, found: nat, last: bool, size: nat)
    ensures FoundLba(b, None) == 0 && FoundSize(None, last, size) == size
    ensures FoundLba(b, Some(Found(cluster, found))) == (cluster + RootLba(b) - 2) % 4294967296
    ensures FoundSize(Some(Found(cluster, found)), last, size) == if last then found else size
  {
  }

  /** At any LBA where a directory sector stands, the search for the name of its entry `i` ends with that entry's
      cluster number and size, all 32 bits of each. */
  lemma {:induction false} EntryIsFound(disk: seq<Sector>, b: Bpb, lba: nat, i: nat, name: Name, cluster: nat,
                                        size: nat, n: nat)
    requires lba < |disk| && lba <= 0xF000_0000
    requires i < 16 && cluster < 4294967296 && size < 4294967296
    requires var dir := disk[lba];
             && NameAt(dir, i) == name && (forall j :: 0 <= j < 11 ==> name[j] < 128)
             && (forall k :: 0 <= k < i ==> NameAt(dir, k) != name)
             && dir[32 * i + 20] == cluster / 65536 % 256 && dir[32 * i + 21] == cluster / 16777216
             && dir[32 * i + 26] == cluster % 256 && dir[32 * i + 27] == cluster / 256 % 256
             && dir[32 * i + 28] == size % 256 && dir[32 * i + 29] == size / 256 % 256
             && dir[32 * i + 30] == size / 65536 % 256 && dir[32 * i + 31] == size / 16777216
    ensures Ends(WalkOf(disk, b, name), lba, n)
    ensures Result(WalkOf(disk, b, name), lba, n) == Some(Found(cluster, size))
  {
    EntryIsRead(disk[lba], i, name, cluster, size);
  }

  lemma {:induction false} OneResult(walk: Walk, lba: nat, n: nat, m: nat)
    requires Ends(walk, lba, n) && Ends(walk, lba, m)
    ensures Result(walk, lba, n) == Result(walk, lba, m)
    decreases n
  {
    if walk(lba).Onward? { OneResult(walk, walk(lba).lba, n - 1, m - 1); }
  }

  lemma {:induction false} MoreSteps(walk: Walk, lba: nat, n: nat, m: nat)
    requires Ends(walk, lba, n) && n <= m
    ensures Ends(walk, lba, m)
    decreases n
  {
    if walk(lba).Onward? { MoreSteps(walk, walk(lba).lba, n - 1, m - 1); }
  }

  ghost predicate SearchEnds(walk: Walk, lba: nat) {
    exists n: nat :: Ends(walk, lba, n)
  }

  ghost function Steps(walk: Walk, lba: nat): (n: nat)
    requires SearchEnds(walk, lba)
    ensures Ends(walk, lba, n)
  {
    var n: nat :| Ends(walk, lba, n); n
  }

  ghost function Search(walk: Walk, lba: nat): Option<Found>
    requires SearchEnds(walk, lba)
  {
    Result(walk, lba, Steps(walk, lba))
  }

  lemma {:induction false} SearchIs(walk: Walk, lba: nat, n: nat)
    requires Ends(walk, lba, n)
    ensures SearchEnds(walk, lba) && Search(walk, lba) == Result(walk, lba, n)
  {
    OneResult(walk, lba, n, Steps(walk, lba));
  }

  /** The searches for the components, each from where the one before has led, all end. */
  ghost predicate PathEnds(disk: seq<Sector>, b: Bpb, lba: nat, parts: seq<Name>)
    decreases |parts|
  {
    && parts != []
    && SearchEnds(WalkOf(disk, b, parts[0]), lba)
    && (|parts| == 1 || PathEnds(disk, b, FoundLba(b, Search(WalkOf(disk, b, parts[0]), lba)), parts[1..]))
  }

  /** What the last of them ends with. */
  ghost function PathResult(disk: seq<Sector>, b: Bpb, lba: nat, parts: seq<Name>): Option<Found>
    requires PathEnds(disk, b, lba, parts)
    decreases |parts|
  {
    var r := Search(WalkOf(disk, b, parts[0]), lba);
    if |parts| == 1 then r else PathResult(disk, b, FoundLba(b, r), parts[1..])
  }

  // --- the search on a volume -----------------------------------------------------------

  /** The LBA that stands for a cluster number, whether or not there is such a cluster. */
  function Lba(v: Volume, c: nat): nat {
    Wrap32(c + DataStart(v.bpb) - 2)
  }

  lemma {:induction false} RootIsDataStart(v: Volume)
    requires ValidVolume(v)
    ensures FatLba(v.bpb) == FatStart(v.bpb) && RootLba(v.bpb) == DataStart(v.bpb)
  {
    assert v.bpb.sectorsPerFat * v.bpb.fats == v.bpb.fats * v.bpb.sectorsPerFat;
    NoWrapAround(FatStart(v.bpb), v.bpb.fats * v.bpb.sectorsPerFat);
  }

  lemma {:induction false} NoWrapAround(a: nat, x: nat)
    requires a + x < WORD32
    ensures Wrap32(Wrap32(a) + Wrap32(x)) == a + x && Wrap32(a) == a
  {
  }

  lemma {:induction false} DataLba(v: Volume, c: nat)
    requires ValidVolume(v) && IsData(v, c)
    ensures Lba(v, c) == DataStart(v.bpb) + c - 2 <= HIGHEST_LBA
  {
  }

  /** No link wraps around; the successor of a data cluster ends a search exactly if it lies past the highest LBA. */
  lemma {:induction false} LinkLba(v: Volume, c: nat)
    requires ValidVolume(v) && IsData(v, c)
    ensures Lba(v, Link(v, c)) == DataStart(v.bpb) + Link(v, c) - 2
    ensures Lba(v, Link(v, c)) > 0xF000_0000 <==> DataStart(v.bpb) + Link(v, c) > 0xF000_0002
  {
  }

  /** Where the FAT entry of a data cluster stands. */
  lemma {:induction false} EntryOfCluster(v: Volume, c: nat)
    requires ValidVolume(v) && IsData(v, c)
    ensures ClusterAt(v.bpb, Lba(v, c)) == c && EntrySector(v.bpb, Lba(v, c)) == FatStart(v.bpb) + c / 128 < |v.disk|
  {
    RootIsDataStart(v);
    FatSectorInside(v, c);
    DataLba(v, c);
    EntryAddress(DataStart(v.bpb), FatStart(v.bpb), c);
  }

  /** From the LBA of a data cluster on, `GetNext` leads to the LBA of its link. */
  lemma {:induction false} NextIsLink(v: Volume, c: nat)
    requires ValidVolume(v) && IsData(v, c)
    ensures EntrySector(v.bpb, Lba(v, c)) < |v.disk|
    ensures NextLba(v.disk, v.bpb, Lba(v, c)) == Lba(v, Link(v, c))
  {
    RootIsDataStart(v);
    EntryOfCluster(v, c);
    EndTestNeverFires(U32At(v.disk[FatStart(v.bpb) + c / 128], c % 128 * 4), DataStart(v.bpb));
  }

  /** In data cluster `c` the search takes the first match or goes on to the cluster's link. */
  ghost predicate FollowsAt(walk: Walk, v: Volume, part: Name, c: nat)
    requires ValidVolume(v) && IsData(v, c)
  {
    walk(Lba(v, c)) == var i := FirstMatch(Cluster(v, c), part, 0);
                       if i < ENTRIES then Entry(EntryAt(Cluster(v, c), i)) else Onward(Lba(v, Link(v, c)))
  }

  ghost predicate Follows(walk: Walk, v: Volume, part: Name)
    requires ValidVolume(v)
  {
    forall c {:trigger FollowsAt(walk, v, part, c)} :: IsData(v, c) ==> FollowsAt(walk, v, part, c)
  }

  lemma {:induction false} WalkFollows(v: Volume, part: Name)
    requires ValidVolume(v)
    ensures Follows(WalkOf(v.disk, v.bpb, part), v, part)
  {
    forall c: nat | IsData(v, c)
      ensures FollowsAt(WalkOf(v.disk, v.bpb, part), v, part, c)
    {
      NextIsLink(v, c);
      DataLba(v, c);
    }
  }

  /** A search for a present name ends with its first entry in chain order. */
  lemma {:induction false} HitEnds(walk: Walk, v: Volume, c: nat, part: Name, n: nat)
    requires ValidVolume(v) && Follows(walk, v, part) && HitAt(v, c, part, n)
    ensures Ends(walk, Lba(v, c), n) && Result(walk, Lba(v, c), n) == Some(HitEntry(v, c, part, n))
    decreases n
  {
    HitHereOrNext(v, c, part, n);
    assert FollowsAt(walk, v, part, c);
    if n > 0 { HitEnds(walk, v, Link(v, c), part, n - 1); }
  }

  lemma {:induction false} PresentEnds(v: Volume, c: nat, part: Name)
    requires ValidVolume(v) && Present(v, c, part)
    ensures SearchEnds(WalkOf(v.disk, v.bpb, part), Lba(v, c))
    ensures Search(WalkOf(v.disk, v.bpb, part), Lba(v, c)) == Some(Lookup(v, c, part))
  {
    var walk, n := WalkOf(v.disk, v.bpb, part), HitDepth(v, c, part);
    WalkFollows(v, part);
    HitEnds(walk, v, c, part, n);
    SearchIs(walk, Lba(v, c), n);
  }

  lemma {:induction false} FoundIsLba(v: Volume, f: Found)
    requires ValidVolume(v)
    ensures FoundLba(v.bpb, Some(f)) == Lba(v, f.cluster)
  {
    RootIsDataStart(v);
    assert f.cluster + RootLba(v.bpb) - 2 == f.cluster + DataStart(v.bpb) - 2;
  }

  /** A path that resolves is found. */
  lemma {:induction false} ResolvesEnds(v: Volume, c: nat, parts: seq<Name>)
    requires ValidVolume(v) && Resolves(v, c, parts)
    ensures PathEnds(v.disk, v.bpb, Lba(v, c), parts)
    ensures PathResult(v.disk, v.bpb, Lba(v, c), parts) == Some(Resolve(v, c, parts))
    decreases |parts|
  {
    PresentEnds(v, c, parts[0]);
    FoundIsLba(v, Lookup(v, c, parts[0]));
    if |parts| > 1 { ResolvesEnds(v, Lookup(v, c, parts[0]).cluster, parts[1..]); }
  }

  /** A search for an absent name goes through the directory and arrives at what its last cluster links to. */
  lemma {:induction false} ArrivesAtExit(walk: Walk, v: Volume, c: nat, part: Name, n: nat, m: nat)
    requires ValidVolume(v) && Follows(walk, v, part) && MissAt(v, c, part, n)
    ensures var start, exit := Lba(v, c), Lba(v, LastLink(v, c, part, n));
            && !Ends(walk, start, n)
            && (Ends(walk, start, n + 1 + m) <==> Ends(walk, exit, m))
            && (Ends(walk, exit, m) ==> Result(walk, start, n + 1 + m) == Result(walk, exit, m))
    decreases n
  {
    assert FollowsAt(walk, v, part, c);
    if n > 0 { ArrivesAtExit(walk, v, Link(v, c), part, n - 1, m); }
  }

  lemma {:induction false} LastLinkLba(v: Volume, c: nat, part: Name, n: nat)
    requires ValidVolume(v) && MissAt(v, c, part, n)
    ensures Lba(v, LastLink(v, c, part, n)) == DataStart(v.bpb) + LastLink(v, c, part, n) - 2
    decreases n
  {
    if n == 0 { LinkLba(v, c); } else { LastLinkLba(v, Link(v, c), part, n - 1); }
  }

  /** The search in the directory and the search from its last link on end alike. */
  lemma {:induction false} EndsAlike(walk: Walk, v: Volume, c: nat, part: Name, n: nat)
    requires ValidVolume(v) && Follows(walk, v, part) && MissAt(v, c, part, n)
    ensures var start, exit := Lba(v, c), Lba(v, LastLink(v, c, part, n));
            && (SearchEnds(walk, start) <==> SearchEnds(walk, exit))
            && (SearchEnds(walk, exit) ==> Search(walk, start) == Search(walk, exit))
  {
    var start, exit := Lba(v, c), Lba(v, LastLink(v, c, part, n));
    if SearchEnds(walk, exit) {
      var m := Steps(walk, exit);
      ArrivesAtExit(walk, v, c, part, n, m);
      SearchIs(walk, start, n + 1 + m);
    }
    if SearchEnds(walk, start) {
      var m := Steps(walk, start);
      MoreSteps(walk, start, m, n + 1 + m);
      ArrivesAtExit(walk, v, c, part, n, m);
    }
  }

  /** A search that starts past the highest LBA, or past the end of the disk. */
  lemma {:induction false} NothingThere(disk: seq<Sector>, b: Bpb, part: Name, lba: nat)
    ensures var walk := WalkOf(disk, b, part);
            && (lba > HIGHEST_LBA ==> SearchEnds(walk, lba) && Search(walk, lba).None?)
            && (|disk| <= lba <= HIGHEST_LBA ==> !SearchEnds(walk, lba))
  {
    if lba > HIGHEST_LBA { SearchIs(WalkOf(disk, b, part), lba, 0); }
  }

  /** The search for an absent name, exactly: it comes to an LBA outside the data area.  If that is past the highest
      LBA, it ends there with nothing; if it is past the end of the disk, it runs off the disk; else it goes on as
      if the sector there were part of the directory. */
  lemma {:induction false} AbsentExactly(v: Volume, c: nat, part: Name, n: nat)
    requires ValidVolume(v) && MissAt(v, c, part, n)
    ensures var walk, l := WalkOf(v.disk, v.bpb, part), LastLink(v, c, part, n);
            var start, exit := Lba(v, c), Lba(v, l);
            && exit == DataStart(v.bpb) + l - 2
            && !(DataStart(v.bpb) <= exit < DataStart(v.bpb) + v.clusters)
            && (exit > 0xF000_0000 <==> DataStart(v.bpb) + l > 0xF000_0002)
            && (exit > 0xF000_0000 ==> SearchEnds(walk, start) && Search(walk, start).None?)
            && (|v.disk| <= exit <= 0xF000_0000 ==> !SearchEnds(walk, start))
            && (SearchEnds(walk, start) <==> SearchEnds(walk, exit))
            && (SearchEnds(walk, start) ==> Search(walk, start) == Search(walk, exit))
  {
    LastLinkLba(v, c, part, n);
    WalkFollows(v, part);
    EndsAlike(WalkOf(v.disk, v.bpb, part), v, c, part, n);
    NothingThere(v.disk, v.bpb, part, Lba(v, LastLink(v, c, part, n)));
  }

  /** A directory that ends with an end-of-chain mark, on a disk of less than 2^28 - 8 sectors: the search for an
      absent name always runs off the disk. */
  lemma {:induction false} EndMarkRunsOff(v: Volume, c: nat, part: Name, n: nat)
    requires ValidVolume(v) && MissAt(v, c, part, n) && LastLink(v, c, part, n) >= 0x0FFF_FFF8
    requires |v.disk| < 0x0FFF_FFF8
    ensures !SearchEnds(WalkOf(v.disk, v.bpb, part), Lba(v, c))
  {
    AbsentExactly(v, c, part, n);
  }

  /** The directory ends without the name, and the search from where its last link leads ends. */
  ghost predicate EndsBehind(walk: Walk, v: Volume, c: nat, part: Name, n: nat)
    requires ValidVolume(v)
  {
    MissAt(v, c, part, n) && SearchEnds(walk, Lba(v, LastLink(v, c, part, n)))
  }

  /** A search in a directory ends exactly if the name is there, or the directory ends and the search from where
      its last link leads does; in a directory that runs in a circle without the name it never ends. */
  lemma {:induction false} SearchEndsExactly(v: Volume, c: nat, part: Name)
    requires ValidVolume(v) && IsData(v, c)
    ensures var walk := WalkOf(v.disk, v.bpb, part);
            SearchEnds(walk, Lba(v, c)) <==>
            Present(v, c, part) || exists n: nat :: EndsBehind(walk, v, c, part, n)
  {
    var walk := WalkOf(v.disk, v.bpb, part);
    WalkFollows(v, part);
    if Present(v, c, part) {
      PresentEnds(v, c, part);
    } else if SearchEnds(walk, Lba(v, c)) {
      var n := HitOrExit(walk, v, c, part, Steps(walk, Lba(v, c)));
      EndsAlike(walk, v, c, part, n);
      assert EndsBehind(walk, v, c, part, n);
    } else {
      forall n: nat
        ensures !EndsBehind(walk, v, c, part, n)
      {
        if MissAt(v, c, part, n) { EndsAlike(walk, v, c, part, n); }
      }
    }
  }

  lemma {:induction false} HitBehind(v: Volume, c: nat, part: Name)
    requires ValidVolume(v) && IsData(v, c) && FirstMatch(Cluster(v, c), part, 0) == ENTRIES
    requires Present(v, Link(v, c), part)
    ensures Present(v, c, part)
  {
    assert HitAt(v, c, part, HitDepth(v, Link(v, c), part) + 1);
  }

  /** A search that ends has found the name in the directory or left it. */
  lemma {:induction false} HitOrExit(walk: Walk, v: Volume, c: nat, part: Name, m: nat) returns (n: nat)
    requires ValidVolume(v) && Follows(walk, v, part) && IsData(v, c) && Ends(walk, Lba(v, c), m)
    ensures Present(v, c, part) || MissAt(v, c, part, n)
    decreases m
  {
    n := 0;
    assert FollowsAt(walk, v, part, c);
    if FirstMatch(Cluster(v, c), part, 0) < ENTRIES {
      assert HitAt(v, c, part, 0);
    } else if IsData(v, Link(v, c)) {
      n := HitOrExit(walk, v, Link(v, c), part, m - 1);
      n := n + 1;
      if Present(v, Link(v, c), part) { HitBehind(v, c, part); }
    }
  }

  /** A file in the root directory, from its entry's bytes: the path of its name leads to the chain of that cluster,
      and reading it gives exactly that many bytes. */
  lemma {:induction false} FileFromEntry(v: Volume, i: nat, name: Name, cluster: nat, size: nat)
    requires ValidVolume(v) && IsData(v, 2) && i < 16 && cluster < 4294967296 && size < 4294967296
    requires var dir := Cluster(v, 2);
             && NameAt(dir, i) == name && (forall j :: 0 <= j < 11 ==> name[j] < 128)
             && (forall k :: 0 <= k < i ==> NameAt(dir, k) != name)
             && dir[32 * i + 20] == cluster / 65536 % 256 && dir[32 * i + 21] == cluster / 16777216
             && dir[32 * i + 26] == cluster % 256 && dir[32 * i + 27] == cluster / 256 % 256
             && dir[32 * i + 28] == size % 256 && dir[32 * i + 29] == size / 256 % 256
             && dir[32 * i + 30] == size / 65536 % 256 && dir[32 * i + 31] == size / 16777216
    requires Chain(v, cluster, (size + 511) / 512)
    ensures HasFile(v, [name]) && |Contents(v, [name])| == size
    ensures forall p :: 0 <= p < size ==>
                          && Chain(v, cluster, p / 512 + 1) && IsData(v, NthCluster(v, cluster, p / 512))
                          && Contents(v, [name])[p] == Cluster(v, NthCluster(v, cluster, p / 512))[p % 512]
  {
    var f := Found(cluster, size);
    EntryIsRead(Cluster(v, 2), i, name, cluster, size);
    FirstIsFound(v, name, f);
    forall p | 0 <= p < size
      ensures Chain(v, cluster, p / 512 + 1) && IsData(v, NthCluster(v, cluster, p / 512))
      ensures FileBytes(v, f)[p] == Cluster(v, NthCluster(v, cluster, p / 512))[p % 512]
    {
      FileByteAt(v, f, p);
    }
  }

  lemma {:induction false} FirstIsFound(v: Volume, name: Name, f: Found)
    requires ValidVolume(v) && IsData(v, 2) && FirstMatch(Cluster(v, 2), name, 0) < ENTRIES
    requires f == EntryAt(Cluster(v, 2), FirstMatch(Cluster(v, 2), name, 0)) && Readable(v, f)
    ensures HasFile(v, [name]) && Contents(v, [name]) == FileBytes(v, f)
  {
    assert HitAt(v, 2, name, 0);
    HitUnique(v, 2, name, 0, HitDepth(v, 2, name));
  }

  // --- the reader -----------------------------------------------------------------------

  class Reader {
    const disk: seq<Sector>
    /** The boot sector that the firmware was started from. */
    const boot: Sector
    const scratch: array<Byte>       // at 0x500
    const fileScratch: array<Byte>   // at 0x700

    var fatReservedSectors: nat
    var totalFats: nat
    var fatHiddenSectors: nat
    var logicalSectorsPerFAT: nat

    ghost predicate Buffers()
      reads this
    {
      scratch.Length == fileScratch.Length == SECTOR_BYTES && scratch != fileScratch
    }

    /** The four globals. */
    function Globals(): Bpb
      reads this
    {
      Bpb(fatReservedSectors, totalFats, fatHiddenSectors, logicalSectorsPerFAT)
    }

    /** The globals describe the volume. */
    ghost predicate Reads(v: Volume)
      reads this
    {
      Buffers() && ValidVolume(v) && v.disk == disk && v.bpb == Globals()
    }

    constructor (disk: seq<Sector>, boot: Sector)
      ensures Buffers() && fresh(scratch) && fresh(fileScratch)
      ensures this.disk == disk && this.boot == boot
    {
      this.disk, this.boot := disk, boot;
      scratch := new Byte[SECTOR_BYTES](_ => 0);
      fileScratch := new Byte[SECTOR_BYTES](_ => 0);
      fatReservedSectors, totalFats, fatHiddenSectors, logicalSectorsPerFAT := 0, 0, 0, 0;
    }

    method BootFATInformation()
      modifies this
      ensures Globals() == ReadBpb(boot)
    {
      fatReservedSectors := U16At(boot, 0x0E);
      totalFats := boot[0x10];
      fatHiddenSectors := U32At(boot, 0x1C);
      logicalSectorsPerFAT := U32At(boot, 0x24);
    }

    function GetFAT(): nat
      reads this
    {
      Wrap32(fatReservedSectors + fatHiddenSectors)
    }

    function GetRoot(): nat
      reads this
    {
      Wrap32(GetFAT() + Wrap32(logicalSectorsPerFAT * totalFats))
    }

    method ReadSector(lba: nat, buffer: array<Byte>)
      requires lba < |disk| && buffer.Length == SECTOR_BYTES
      modifies buffer
      ensures buffer[..] == disk[lba]
    {
      for i := 0 to SECTOR_BYTES
        invariant forall k :: 0 <= k < i ==> buffer[k] == disk[lba][k]
      {
        buffer[i] := disk[lba][i];
      }
    }

    /** From any LBA to the LBA that its FAT entry names. */
    method GetNext(previous: nat) returns (next: nat)
      requires Buffers() && EntrySector(Globals(), previous) < |disk|
      modifies scratch
      ensures next == NextLba(disk, Globals(), previous)
    {
      var root := GetRoot();
      var cluster: nat := Wrap32(Wrap32(previous - root) + 2);
      var fat := GetFAT();
      var sector := Wrap32(cluster / 128 + fat);
      var offset := Wrap32(cluster * 4) % 512;
      EntryOffset(cluster);
      ReadSector(sector, scratch);
      var val := U32At(scratch[..], offset) % 0x1000_0000;
      next := Successor(val, GetRoot());
    }

    /** Searches from an LBA on for the first entry that matches; every search that ends is covered. */
    method FindStartOfPathSection(prevRoot: nat, part: Name, last: bool, sizeIn: nat, ghost n: nat)
      returns (start: nat, size: nat)
      requires Buffers() && Ends(WalkOf(disk, Globals(), part), prevRoot, n)
      modifies scratch
      ensures var r := Result(WalkOf(disk, Globals(), part), prevRoot, n);
              start == FoundLba(Globals(), r) && size == FoundSize(r, last, sizeIn)
      ensures prevRoot > 0xF000_0000 ==> start == 0 && size == sizeIn
      decreases n
    {
      if prevRoot > HIGHEST_LBA { return 0, sizeIn; }
      ReadSector(prevRoot, scratch);
      var data: Sector := scratch[..];
      var i := SearchSector(data, part);
      if i < ENTRIES {
        start, size := TakeEntry(data, i, last, sizeIn);
      } else {
        var next := GetNext(prevRoot);
        start, size := FindStartOfPathSection(next, part, last, sizeIn, n - 1);
      }
    }

    method TakeEntry(data: Sector, i: nat, last: bool, sizeIn: nat) returns (start: nat, size: nat)
      requires i < ENTRIES
      ensures start == FoundLba(Globals(), Some(EntryAt(data, i)))
      ensures size == FoundSize(Some(EntryAt(data, i)), last, sizeIn)
    {
      var out := U16At(data, 32 * i + 0x14) * 0x1_0000 + U16At(data, 32 * i + 0x1A);
      size := if last then U32At(data, 32 * i + 0x1C) else sizeIn;
      start := Wrap32(out + GetRoot() - 2);
    }

    method SearchSector(data: Sector, part: Name) returns (i: nat)
      ensures i == FirstMatch(data, part, 0)
    {
      i := 0;
      while i < ENTRIES
        invariant i <= ENTRIES && FirstMatch(data, part, 0) == FirstMatch(data, part, i)
      {
        var pathMatch := NameMatches(data, i, part);
        if pathMatch { return; }
        i := i + 1;
      }
    }

    method NameMatches(data: Sector, i: nat, part: Name) returns (pathMatch: bool)
      requires i < ENTRIES
      ensures pathMatch <==> Matches(data, i, part)
    {
      for j := 0 to 11
        invariant forall k :: 0 <= k < j ==> Signed(part[k]) == data[32 * i + k]
      {
        if Signed(part[j]) != data[32 * i + j] { return false; }
      }
      return true;
    }

    /** The loop over the components: where the searches lead, and the size that the last one finds. */
    method FindPath(filename: seq<Byte>, ghost parts: seq<seq<Byte>>, ghost separators: seq<Byte>)
      returns (start: nat, size: nat)
      requires Buffers() && IsPath(filename, parts, separators)
      requires PathEnds(disk, Globals(), RootLba(Globals()), Padded(parts))
      modifies scratch
      ensures var r := PathResult(disk, Globals(), RootLba(Globals()), Padded(parts));
              start == FoundLba(Globals(), r) && size == FoundSize(r, true, 0)
    {
      start, size := GetRoot(), 0;
      var pos: nat, foundSplit := 0, true;
      ghost var b, ps, ss := Globals(), parts, separators;
      ghost var goal := PathResult(disk, b, start, Padded(parts));
      assert filename[0..] == filename;
      while foundSplit
        invariant pos <= |filename| && Globals() == b
        invariant foundSplit ==> size == 0 && Ahead(disk, b, filename[pos..], ps, ss, start, goal)
        invariant !foundSplit ==> start == FoundLba(b, goal) && size == FoundSize(goal, true, 0) && ps == []
        decreases |ps|, foundSplit
      {
        AheadStep(disk, b, filename[pos..], ps, ss, start, goal);
        var part: Name;
        part, foundSplit, pos := NextComponent(filename, pos, ps, ss);
        start, size := FindStartOfPathSection(start, part, !foundSplit, size, Steps(WalkOf(disk, b, part), start));
        ps, ss := ps[1..], if ss == [] then [] else ss[1..];
      }
    }

    /** Copies `num` bytes to `destination` from `at` on. */
    method Memcpy(destination: array<Byte>, at: nat, source: array<Byte>, num: nat)
      requires destination != source && num <= source.Length && at + num <= destination.Length
      modifies destination
      ensures destination[..] == Patched(old(destination[..]), at, source[..num])
    {
      for i := 0 to num
        invariant destination[..] == Patched(old(destination[..]), at, source[..i])
      {
        destination[at + i] := source[i];
      }
    }

    /** Reads a file into memory at `lc`: exactly its bytes, and nothing else of memory changes.  A path whose last
        search ends with nothing changes nothing. */
    method ReadFATFromHDD(filename: seq<Byte>, memory: array<Byte>, lc: nat, ghost clusters: nat,
                          ghost parts: seq<seq<Byte>>, ghost separators: seq<Byte>)
      requires Buffers() && memory != scratch && memory != fileScratch
      requires IsPath(filename, parts, separators)
      requires var v := Volume(disk, ReadBpb(boot), clusters);
               && ValidVolume(v) && (HasFile(v, Padded(parts)) || IsMissing(disk, ReadBpb(boot), Padded(parts)))
               && lc + |BytesOf(v, Padded(parts))| <= memory.Length
      modifies this, scratch, fileScratch, memory
      ensures var v := Volume(disk, ReadBpb(boot), clusters);
              memory[..] == Patched(old(memory[..]), lc, BytesOf(v, Padded(parts)))
    {
      BootFATInformation();
      ghost var v := Volume(disk, ReadBpb(boot), clusters);
      ghost var f := FileIsFound(v, Padded(parts));
      var root, sz := FindPath(filename, parts, separators);
      CopyFile(root, sz, memory, lc, v, f);
    }

    /** Reads one cluster and copies its first `num` bytes to memory. */
    method CopyCluster(root: nat, memory: array<Byte>, location: nat, num: nat, ghost v: Volume, ghost c: nat)
      requires Reads(v) && memory != fileScratch && IsData(v, c) && root == Lba(v, c)
      requires num <= 512 && location + num <= memory.Length
      modifies fileScratch, memory
      ensures memory[..] == Patched(old(memory[..]), location, Cluster(v, c)[..num])
    {
      DataLba(v, c);
      ReadSector(root, fileScratch);
      assert fileScratch[..num] == fileScratch[..][..num] == Cluster(v, c)[..num];
      Memcpy(memory, location, fileScratch, num);
    }

    /** One whole cluster to memory, and on to the next. */
    method CopyAndFollow(root: nat, memory: array<Byte>, location: nat, ghost v: Volume, ghost c: nat)
      returns (next: nat)
      requires Reads(v) && memory != scratch && memory != fileScratch && IsData(v, c) && root == Lba(v, c)
      requires location + 512 <= memory.Length
      modifies scratch, fileScratch, memory
      ensures memory[..] == Patched(old(memory[..]), location, Cluster(v, c))
      ensures next == Lba(v, Link(v, c))
    {
      CopyCluster(root, memory, location, 512, v, c);
      assert Cluster(v, c)[..512] == Cluster(v, c);
      NextIsLink(v, c);
      next := GetNext(root);
    }

    /** The copying loop, from the file's first LBA on. */
    method CopyFile(first: nat, sz: nat, memory: array<Byte>, lc: nat, ghost v: Volume, ghost f: Found)
      requires Reads(v) && memory != scratch && memory != fileScratch
      requires Readable(v, f) && first == Lba(v, f.cluster) && sz == f.size && lc + sz <= memory.Length
      modifies scratch, fileScratch, memory
      ensures memory[..] == Patched(old(memory[..]), lc, FileBytes(v, f))
    {
      var sectors: nat, finalSectorBytes := sz / 512, sz % 512;
      var root, location := first, lc;
      ghost var c, left := f.cluster, SectorsFor(sz);
      ghost var done: seq<Byte>, before := [], memory[..];
      while sectors > 0
        invariant Reads(v) && left == sectors + (if finalSectorBytes == 0 then 0 else 1)
        invariant Rest(v, f, c, left, done) && root == Lba(v, c)
        invariant location == lc + |done| && |done| + 512 * sectors + finalSectorBytes == sz
        invariant memory[..] == Patched(before, lc, done)
      {
        RestStep(v, f, c, left, done);
        AppendBlock(before, lc, done, Cluster(v, c));
        root := CopyAndFollow(root, memory, location, v, c);
        location := location + 512;
        done := done + Cluster(v, c);
        c, left, sectors := Link(v, c), left - 1, sectors - 1;
      }
      CopyTail(root, finalSectorBytes, memory, location, lc, v, f, c, done, before);
    }

    /** The bytes of the last, partial cluster. */
    method CopyTail(root: nat, num: nat, memory: array<Byte>, location: nat, ghost lc: nat, ghost v: Volume,
                    ghost f: Found, ghost c: nat, ghost done: seq<Byte>, ghost before: seq<Byte>)
      requires Reads(v) && memory != fileScratch && num < 512 && location == lc + |done|
      requires Rest(v, f, c, if num == 0 then 0 else 1, done) && root == Lba(v, c)
      requires |done| + num == f.size && lc + f.size <= |before| && memory[..] == Patched(before, lc, done)
      modifies fileScratch, memory
      ensures memory[..] == Patched(before, lc, FileBytes(v, f))
    {
      RestStep(v, f, c, if num == 0 then 0 else 1, done);
      if num > 0 {
        AppendBlock(before, lc, done, Cluster(v, c)[..num]);
        CopyCluster(root, memory, location, num, v, c);
      }
    }
  }

  /** The searches for the rest of the path, from `lba` on, end with `goal`. */
  ghost predicate Ahead(disk: seq<Sector>, b: Bpb, path: seq<Byte>, parts: seq<seq<Byte>>, separators: seq<Byte>,
                        lba: nat, goal: Option<Found>) {
    && IsPath(path, parts, separators)
    && PathEnds(disk, b, lba, Padded(parts)) && PathResult(disk, b, lba, Padded(parts)) == goal
  }

  lemma {:induction false} AheadStep(disk: seq<Sector>, b: Bpb, path: seq<Byte>, parts: seq<seq<Byte>>,
                                     separators: seq<Byte>, lba: nat, goal: Option<Found>)
    requires Ahead(disk, b, path, parts, separators, lba, goal)
    ensures var name := Pad(parts[0]);
            && SearchEnds(WalkOf(disk, b, name), lba)
            && (|parts| == 1 ==> Search(WalkOf(disk, b, name), lba) == goal)
            && forall rest :: |parts| > 1 && IsPath(rest, parts[1..], separators[1..]) ==>
                                Ahead(disk, b, rest, parts[1..], separators[1..],
                                      FoundLba(b, Search(WalkOf(disk, b, name), lba)), goal)
  {
    assert Padded(parts)[0] == Pad(parts[0]) && Padded(parts)[1..] == Padded(parts[1..]);
  }

  /** The searches end, and the last one with nothing. */
  ghost predicate IsMissing(disk: seq<Sector>, b: Bpb, parts: seq<Name>) {
    PathEnds(disk, b, RootLba(b), parts) && PathResult(disk, b, RootLba(b), parts).None?
  }

  /** What reading a path gives: the file's bytes, or nothing. */
  ghost function BytesOf(v: Volume, parts: seq<Name>): seq<Byte>
    requires ValidVolume(v)
  {
    if HasFile(v, parts) then Contents(v, parts) else []
  }

  /** An empty file that starts at LBA 0. */
  lemma {:induction false} EmptyFile(v: Volume) returns (f: Found)
    requires ValidVolume(v)
    ensures Lba(v, f.cluster) == 0 && f.size == 0 && Readable(v, f) && FileBytes(v, f) == []
  {
    f := Found(WORD32 + 2 - DataStart(v.bpb), 0);
  }

  /** The file that the copying loop is given: the one that the path names, or an empty one. */
  lemma {:induction false} FileIsFound(v: Volume, parts: seq<Name>) returns (f: Found)
    requires ValidVolume(v) && (HasFile(v, parts) || IsMissing(v.disk, v.bpb, parts))
    ensures PathEnds(v.disk, v.bpb, RootLba(v.bpb), parts) && Readable(v, f)
    ensures var r := PathResult(v.disk, v.bpb, RootLba(v.bpb), parts);
            Lba(v, f.cluster) == FoundLba(v.bpb, r) && f.size == FoundSize(r, true, 0)
    ensures FileBytes(v, f) == BytesOf(v, parts)
  {
    if HasFile(v, parts) {
      RootIsLba(v);
      ResolvesEnds(v, ROOT_CLUSTER, parts);
      f := Resolve(v, ROOT_CLUSTER, parts);
      FoundIsLba(v, f);
    } else {
      f := EmptyFile(v);
    }
  }

  lemma {:induction false} RootIsLba(v: Volume)
    requires ValidVolume(v)
    ensures RootLba(v.bpb) == Lba(v, ROOT_CLUSTER)
  {
    RootIsDataStart(v);
  }

  /** `done`, followed by `left` clusters from `c` on, is the file with the slack of its last cluster. */
  ghost predicate Rest(v: Volume, f: Found, c: nat, left: nat, done: seq<Byte>) {
    && ValidVolume(v) && Readable(v, f) && Chain(v, c, left)
    && ChainBytes(v, f.cluster, SectorsFor(f.size)) == done + ChainBytes(v, c, left)
  }

  lemma {:induction false} RestStep(v: Volume, f: Found, c: nat, left: nat, done: seq<Byte>)
    requires Rest(v, f, c, left, done)
    ensures left > 0 ==> IsData(v, c) && Rest(v, f, Link(v, c), left - 1, done + Cluster(v, c))
    ensures left == 0 && |done| == f.size ==> done == FileBytes(v, f)
    ensures left == 1 && |done| <= f.size <= |done| + 512 ==>
              done + Cluster(v, c)[..f.size - |done|] == FileBytes(v, f)
  {
    if left > 0 {
      var cluster, rest := Cluster(v, c), ChainBytes(v, Link(v, c), left - 1);
      assert done + (cluster + rest) == (done + cluster) + rest;
    }
  }

  /** Memory with `block` written at `at`. */
  function Patched(before: seq<Byte>, at: nat, block: seq<Byte>): seq<Byte>
    requires at + |block| <= |before|
  {
    before[..at] + block + before[at + |block|..]
  }

  lemma {:induction false} PatchedAt(before: seq<Byte>, at: nat, block: seq<Byte>, p: nat)
    requires at + |block| <= |before| && p < |before|
    ensures |Patched(before, at, block)| == |before|
    ensures Patched(before, at, block)[p] == if at <= p < at + |block| then block[p - at] else before[p]
  {
  }

  /** No wrap-around gets in the way of finding a data cluster's FAT entry. */
  lemma {:induction false} EntryAddress(root: nat, fat: nat, c: nat)
    requires fat + c / 128 < root && 2 <= root && 2 <= c && root + c - 2 <= HIGHEST_LBA
    ensures Wrap32(Wrap32(root + c - 2 - root) + 2) == c
    ensures Wrap32(c / 128 + fat) == fat + c / 128
    ensures Wrap32(c * 4) % 512 == c % 128 * 4
  {
    assert root + c - 2 - root == c - 2 && Wrap32(c - 2) == c - 2;
    EntryOffset(c);
  }

  lemma {:induction false} EntryOffset(c: nat)
    ensures Wrap32(c * 4) % 512 == c % 128 * 4
  {
    var k := c * 4 / WORD32;
    assert Wrap32(c * 4) == 512 * (c / 128 - 0x80_0000 * k) + c % 128 * 4;
  }

  /** Writing a block after `done` extends what was written. */
  lemma {:induction false} AppendBlock(before: seq<Byte>, lc: nat, done: seq<Byte>, block: seq<Byte>)
    requires lc + |done| + |block| <= |before|
    ensures var m := Patched(before, lc, done);
            |m| == |before| && Patched(m, lc + |done|, block) == Patched(before, lc, done + block)
  {
  }
}
