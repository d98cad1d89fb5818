/** What a FAT32 volume means: cluster chains, directories and the bytes of a file. */
module Fat32 {
  import opened Bytes

  /** The four BPB fields that the boot sector hands on. */
  datatype Bpb = Bpb(reserved: nat, fats: nat, hidden: nat, sectorsPerFat: nat)

  function ReadBpb(boot: Sector): Bpb {
    Bpb(U16At(boot, 0x0E), boot[0x10], U32At(boot, 0x1C), U32At(boot, 0x24))
  }

  function FatStart(b: Bpb): nat { b.reserved + b.hidden }

  /** The data area's offset in the volume. */
  function DataArea(b: Bpb): nat { b.reserved + b.fats * b.sectorsPerFat }

  function DataStart(b: Bpb): nat { FatStart(b) + b.fats * b.sectorsPerFat }

  /** A volume of one-sector clusters on a disk; its data clusters are 2, 3, ..., clusters + 1. */
  datatype Volume = Volume(disk: seq<Sector>, bpb: Bpb, clusters: nat)

  const HIGHEST_LBA := 0xF000_0000
  const ROOT_CLUSTER := 2

  /** The data area is on the disk, and the FAT has an entry for every data cluster. */
  ghost predicate ValidVolume(v: Volume) {
    && v.bpb.fats >= 1
    && 2 <= DataStart(v.bpb)
    && DataStart(v.bpb) + v.clusters <= |v.disk| <= HIGHEST_LBA + 1
    && v.clusters + 2 <= 128 * v.bpb.sectorsPerFat
  }

  predicate IsData(v: Volume, c: nat) { 2 <= c < v.clusters + 2 }

  lemma {:induction false} FatSectorInside(v: Volume, c: nat)
    requires ValidVolume(v) && IsData(v, c)
    ensures FatStart(v.bpb) + c / 128 < DataStart(v.bpb)
  {
    assert c / 128 < v.bpb.sectorsPerFat;
    assert v.bpb.sectorsPerFat <= v.bpb.fats * v.bpb.sectorsPerFat;
  }

  function Cluster(v: Volume, c: nat): Sector
    requires ValidVolume(v) && IsData(v, c)
  {
    v.disk[DataStart(v.bpb) + c - 2]
  }

  /** The 28-bit FAT entry of a cluster. */
  function Link(v: Volume, c: nat): nat
    requires ValidVolume(v) && IsData(v, c)
  {
    FatSectorInside(v, c);
    U32At(v.disk[FatStart(v.bpb) + c / 128], c % 128 * 4) % 0x1000_0000
  }

  // --- directories -------------------------------------------------------------------

  type Name = s: seq<Byte> | |s| == 11 witness Zeros(11)

  const ENTRIES := 16

  datatype Found = Found(cluster: nat, size: nat)

  /** The value of a `char`, which is signed here, so a name byte from 0x80 up equals no entry byte. */
  function Signed(b: Byte): int { if b < 0x80 then b else b - 0x100 }

  predicate Matches(dir: Sector, i: nat, part: Name)
    requires i < ENTRIES
  {
    forall j :: 0 <= j < 11 ==> Signed(part[j]) == dir[32 * i + j]
  }

  /** The first matching entry from `i` on, or 16. */
  function FirstMatch(dir: Sector, part: Name, i: nat): (r: nat)
    requires i <= ENTRIES
    ensures i <= r <= ENTRIES
    ensures forall k :: i <= k < r ==> !Matches(dir, k, part)
    ensures r < ENTRIES ==> Matches(dir, r, part)
    decreases ENTRIES - i
  {
    if i == ENTRIES || Matches(dir, i, part) then i else FirstMatch(dir, part, i + 1)
  }

  function EntryAt(dir: Sector, i: nat): Found
    requires i < ENTRIES
  {
    Found(U16At(dir, 32 * i + 0x14) * 0x1_0000 + U16At(dir, 32 * i + 0x1A), U32At(dir, 32 * i + 0x1C))
  }

  /** The `n`-th cluster of the directory that starts at `c` is the first to hold `part`. */
  ghost predicate HitAt(v: Volume, c: nat, part: Name, n: nat)
    requires ValidVolume(v)
    decreases n
  {
    && IsData(v, c)
    && if n == 0 then FirstMatch(Cluster(v, c), part, 0) < ENTRIES
       else FirstMatch(Cluster(v, c), part, 0) == ENTRIES && HitAt(v, Link(v, c), part, n - 1)
  }

  function HitEntry(v: Volume, c: nat, part: Name, n: nat): Found
    requires ValidVolume(v) && HitAt(v, c, part, n)
    decreases n
  {
    if n == 0 then EntryAt(Cluster(v, c), FirstMatch(Cluster(v, c), part, 0))
    else HitEntry(v, Link(v, c), part, n - 1)
  }

  /** A search either ends in this cluster or goes on from the next. */
  lemma {:induction false} HitHereOrNext(v: Volume, c: nat, part: Name, n: nat)
    requires ValidVolume(v) && HitAt(v, c, part, n)
    ensures var i := FirstMatch(Cluster(v, c), part, 0);
            if i < ENTRIES then n == 0 && HitEntry(v, c, part, n) == EntryAt(Cluster(v, c), i)
            else && n > 0 && HitAt(v, Link(v, c), part, n - 1) && IsData(v, Link(v, c))
                 && HitEntry(v, c, part, n) == HitEntry(v, Link(v, c), part, n - 1)
  {
  }

  lemma {:induction false} HitUnique(v: Volume, c: nat, part: Name, n: nat, m: nat)
    requires ValidVolume(v) && HitAt(v, c, part, n) && HitAt(v, c, part, m)
    ensures n == m
    decreases n
  {
    if n > 0 && m > 0 { HitUnique(v, Link(v, c), part, n - 1, m - 1); }
  }

  /** None of the `n + 1` clusters of the directory from `c` on holds `part`, and the directory ends with them. */
  ghost predicate MissAt(v: Volume, c: nat, part: Name, n: nat)
    requires ValidVolume(v)
    decreases n
  {
    && IsData(v, c)
    && FirstMatch(Cluster(v, c), part, 0) == ENTRIES
    && if n == 0 then !IsData(v, Link(v, c)) else MissAt(v, Link(v, c), part, n - 1)
  }

  /** What the last cluster of such a directory links to: not a data cluster. */
  function LastLink(v: Volume, c: nat, part: Name, n: nat): (l: nat)
    requires ValidVolume(v) && MissAt(v, c, part, n)
    ensures !IsData(v, l) && l < 0x1000_0000
    decreases n
  {
    if n == 0 then Link(v, c) else LastLink(v, Link(v, c), part, n - 1)
  }

  ghost predicate Present(v: Volume, c: nat, part: Name)
    requires ValidVolume(v)
  {
    exists n: nat :: HitAt(v, c, part, n)
  }

  ghost function HitDepth(v: Volume, c: nat, part: Name): (n: nat)
    requires ValidVolume(v) && Present(v, c, part)
    ensures HitAt(v, c, part, n)
  {
    var n: nat :| HitAt(v, c, part, n); n
  }

  ghost function Lookup(v: Volume, c: nat, part: Name): Found
    requires ValidVolume(v) && Present(v, c, part)
  {
    HitEntry(v, c, part, HitDepth(v, c, part))
  }

  /** Every component is present in the directory that the one before names. */
  ghost predicate Resolves(v: Volume, c: nat, parts: seq<Name>)
    requires ValidVolume(v)
    decreases |parts|
  {
    && parts != []
    && Present(v, c, parts[0])
    && (|parts| == 1 || Resolves(v, Lookup(v, c, parts[0]).cluster, parts[1..]))
  }

  ghost function Resolve(v: Volume, c: nat, parts: seq<Name>): Found
    requires ValidVolume(v) && Resolves(v, c, parts)
    decreases |parts|
  {
    var f := Lookup(v, c, parts[0]);
    if |parts| == 1 then f else Resolve(v, f.cluster, parts[1..])
  }

  // --- files -------------------------------------------------------------------------

  /** The first `k` clusters of the chain from `c` are data clusters; what follows them does not matter. */
  ghost predicate Chain(v: Volume, c: nat, k: nat)
    requires ValidVolume(v)
    decreases k
  {
    k == 0 || (IsData(v, c) && Chain(v, Link(v, c), k - 1))
  }

  ghost function ChainBytes(v: Volume, c: nat, k: nat): (bytes: seq<Byte>)
    requires ValidVolume(v) && Chain(v, c, k)
    ensures |bytes| == SECTOR_BYTES * k
    decreases k
  {
    if k == 0 then [] else Cluster(v, c) + ChainBytes(v, Link(v, c), k - 1)
  }

  function SectorsFor(size: nat): nat { (size + SECTOR_BYTES - 1) / SECTOR_BYTES }

  ghost predicate Readable(v: Volume, f: Found)
    requires ValidVolume(v)
  {
    Chain(v, f.cluster, SectorsFor(f.size))
  }

  ghost function FileBytes(v: Volume, f: Found): (bytes: seq<Byte>)
    requires ValidVolume(v) && Readable(v, f)
    ensures |bytes| == f.size
  {
    ChainBytes(v, f.cluster, SectorsFor(f.size))[..f.size]
  }

  ghost predicate HasFile(v: Volume, parts: seq<Name>)
    requires ValidVolume(v)
  {
    Resolves(v, ROOT_CLUSTER, parts) && Readable(v, Resolve(v, ROOT_CLUSTER, parts))
  }

  /** What a path means on a volume. */
  ghost function Contents(v: Volume, parts: seq<Name>): seq<Byte>
    requires ValidVolume(v) && HasFile(v, parts)
  {
    FileBytes(v, Resolve(v, ROOT_CLUSTER, parts))
  }

  // --- equal volumes -----------------------------------------------------------------

  /** Two volumes, wherever they lie, with the same clusters and the same links. */
  ghost predicate SameClusters(v: Volume, w: Volume)
    requires ValidVolume(v) && ValidVolume(w)
  {
    && v.clusters == w.clusters
    && (forall c :: IsData(v, c) ==> Cluster(v, c) == Cluster(w, c))
    && forall c :: IsData(v, c) ==> Link(v, c) == Link(w, c)
  }

  lemma {:induction false} SameHit(v: Volume, w: Volume, c: nat, part: Name, n: nat)
    requires ValidVolume(v) && ValidVolume(w) && SameClusters(v, w) && HitAt(v, c, part, n)
    ensures HitAt(w, c, part, n) && HitEntry(w, c, part, n) == HitEntry(v, c, part, n)
    decreases n
  {
    if n > 0 { SameHit(v, w, Link(v, c), part, n - 1); }
  }

  lemma {:induction false} SameLookup(v: Volume, w: Volume, c: nat, part: Name)
    requires ValidVolume(v) && ValidVolume(w) && SameClusters(v, w) && Present(v, c, part)
    ensures Present(w, c, part) && Lookup(w, c, part) == Lookup(v, c, part)
  {
    var n := HitDepth(v, c, part);
    SameHit(v, w, c, part, n);
    HitUnique(w, c, part, n, HitDepth(w, c, part));
  }

  lemma {:induction false} SameResolve(v: Volume, w: Volume, c: nat, parts: seq<Name>)
    requires ValidVolume(v) && ValidVolume(w) && SameClusters(v, w) && Resolves(v, c, parts)
    ensures Resolves(w, c, parts) && Resolve(w, c, parts) == Resolve(v, c, parts)
    decreases |parts|
  {
    SameLookup(v, w, c, parts[0]);
    if |parts| > 1 { SameResolve(v, w, Lookup(v, c, parts[0]).cluster, parts[1..]); }
  }

  lemma {:induction false} SameChain(v: Volume, w: Volume, c: nat, k: nat)
    requires ValidVolume(v) && ValidVolume(w) && SameClusters(v, w) && Chain(v, c, k)
    ensures Chain(w, c, k) && ChainBytes(w, c, k) == ChainBytes(v, c, k)
    decreases k
  {
    if k > 0 { SameChain(v, w, Link(v, c), k - 1); }
  }

  /** Volumes with the same clusters and links give every path the same meaning. */
  lemma {:induction false} SameContents(v: Volume, w: Volume, parts: seq<Name>)
    requires ValidVolume(v) && ValidVolume(w) && SameClusters(v, w) && HasFile(v, parts)
    ensures HasFile(w, parts) && Contents(w, parts) == Contents(v, parts)
  {
    SameResolve(v, w, ROOT_CLUSTER, parts);
    var f := Resolve(v, ROOT_CLUSTER, parts);
    SameChain(v, w, f.cluster, SectorsFor(f.size));
  }

  // --- the volume in bytes -----------------------------------------------------------

  /** The four fields in the bytes of a boot sector. */
  lemma {:induction false} BpbFromBytes(boot: Sector, reserved: nat, fats: nat, hidden: nat, sectorsPerFat: nat)
    requires reserved < 65536 && hidden < 4294967296 && sectorsPerFat < 4294967296
    requires boot[14] == reserved % 256 && boot[15] == reserved / 256 && boot[16] == fats
    requires boot[28] == hidden % 256 && boot[29] == hidden / 256 % 256
    requires boot[30] == hidden / 65536 % 256 && boot[31] == hidden / 16777216
    requires boot[36] == sectorsPerFat % 256 && boot[37] == sectorsPerFat / 256 % 256
    requires boot[38] == sectorsPerFat / 65536 % 256 && boot[39] == sectorsPerFat / 16777216
    ensures ReadBpb(boot).reserved == reserved && ReadBpb(boot).fats == fats
    ensures ReadBpb(boot).hidden == hidden && ReadBpb(boot).sectorsPerFat == sectorsPerFat
  {
    HalfFromBytes(boot, 14, reserved);
    WordFromBytes(boot, 28, hidden);
    WordFromBytes(boot, 36, sectorsPerFat);
  }

  /** Where cluster `c` and its FAT entry stand, and what four bytes there mean: a link of 28 bits. */
  lemma {:induction false} ClusterFromBytes(v: Volume, c: nat, w: nat)
    requires ValidVolume(v) && IsData(v, c) && w < 4294967296
    requires v.bpb.reserved + v.bpb.hidden + c / 128 < |v.disk|
    requires var entry, at := v.disk[v.bpb.reserved + v.bpb.hidden + c / 128], c % 128 * 4;
             && entry[at] == w % 256 && entry[at + 1] == w / 256 % 256
             && entry[at + 2] == w / 65536 % 256 && entry[at + 3] == w / 16777216
    ensures Link(v, c) == w % 268435456
    ensures v.bpb.reserved + v.bpb.hidden + v.bpb.fats * v.bpb.sectorsPerFat + (c - 2) < |v.disk|
    ensures Cluster(v, c) == v.disk[v.bpb.reserved + v.bpb.hidden + v.bpb.fats * v.bpb.sectorsPerFat + (c - 2)]
  {
    FatSectorInside(v, c);
    WordFromBytes(v.disk[v.bpb.reserved + v.bpb.hidden + c / 128], c % 128 * 4, w);
  }

  /** The eleven bytes that entry `i` begins with. */
  function NameAt(dir: Sector, i: nat): (name: Name)
    requires i < 16
    ensures name == dir[32 * i..32 * i + 11]
  {
    dir[32 * i..32 * i + 11]
  }

  /** A name matches those bytes, if they are the same and all below 128. */
  lemma {:induction false} MatchesExactly(dir: Sector, i: nat, name: Name)
    requires i < 16
    ensures Matches(dir, i, name) <==> NameAt(dir, i) == name && forall j :: 0 <= j < 11 ==> name[j] < 128
  {
    assert forall j :: 0 <= j < 11 ==> NameAt(dir, i)[j] == dir[32 * i + j];
    if Matches(dir, i, name) {
      forall j | 0 <= j < 11
        ensures NameAt(dir, i)[j] == name[j] && name[j] < 128
      {
        assert Signed(name[j]) == dir[32 * i + j];
      }
    }
  }

  lemma {:induction false} UpperHalf(v: nat)
    requires v < 4294967296
    ensures v / 65536 < 65536 && v / 65536 % 256 + 256 * (v / 16777216) == v / 65536
  {
    assert v / 65536 / 256 == v / 16777216;
  }

  lemma {:induction false} LowerHalf(v: nat)
    ensures v % 65536 == v % 256 + 256 * (v / 256 % 256)
  {
    assert v / 256 / 256 == v / 65536;
  }

  /** The name's first entry gives back the cluster number and the size, all 32 bits of each. */
  lemma {:induction false} EntryIsRead(dir: Sector, i: nat, name: Name, cluster: nat, size: nat)
    requires i < 16 && cluster < 4294967296 && size < 4294967296
    requires NameAt(dir, i) == name && forall j :: 0 <= j < 11 ==> name[j] < 128
    requires forall k :: 0 <= k < i ==> NameAt(dir, k) != name
    requires dir[32 * i + 20] == cluster / 65536 % 256 && dir[32 * i + 21] == cluster / 16777216
    requires dir[32 * i + 26] == cluster % 256 && dir[32 * i + 27] == cluster / 256 % 256
    requires dir[32 * i + 28] == size % 256 && dir[32 * i + 29] == size / 256 % 256
    requires dir[32 * i + 30] == size / 65536 % 256 && dir[32 * i + 31] == size / 16777216
    ensures FirstMatch(dir, name, 0) == i
    ensures EntryAt(dir, i).cluster == cluster && EntryAt(dir, i).size == size
  {
    FirstIs(dir, i, name);
    ClusterIsRead(dir, 32 * i, cluster);
    WordFromBytes(dir, 32 * i + 28, size);
  }

  lemma {:induction false} ClusterIsRead(dir: Sector, at: nat, cluster: nat)
    requires at <= 480 && cluster < 4294967296
    requires dir[at + 20] == cluster / 65536 % 256 && dir[at + 21] == cluster / 16777216
    requires dir[at + 26] == cluster % 256 && dir[at + 27] == cluster / 256 % 256
    ensures U16At(dir, at + 20) * 65536 + U16At(dir, at + 26) == cluster
  {
    UpperHalf(cluster);
    LowerHalf(cluster);
  }

  lemma {:induction false} FirstIs(dir: Sector, i: nat, name: Name)
    requires i < 16 && NameAt(dir, i) == name && forall j :: 0 <= j < 11 ==> name[j] < 128
    requires forall k :: 0 <= k < i ==> NameAt(dir, k) != name
    ensures FirstMatch(dir, name, 0) == i
  {
    MatchesExactly(dir, i, name);
    forall k | 0 <= k < i
      ensures !Matches(dir, k, name)
    {
      MatchesExactly(dir, k, name);
    }
  }

  /** Cluster number `n` of the chain from `c` on. */
  function NthCluster(v: Volume, c: nat, n: nat): nat
    requires ValidVolume(v) && Chain(v, c, n + 1)
    decreases n
  {
    if n == 0 then c else NthCluster(v, Link(v, c), n - 1)
  }

  lemma {:induction false} ChainByteAt(v: Volume, c: nat, k: nat, p: nat)
    requires ValidVolume(v) && Chain(v, c, k) && p < 512 * k
    ensures Chain(v, c, p / 512 + 1) && IsData(v, NthCluster(v, c, p / 512))
    ensures ChainBytes(v, c, k)[p] == Cluster(v, NthCluster(v, c, p / 512))[p % 512]
    decreases k
  {
    if p >= 512 {
      ChainByteAt(v, Link(v, c), k - 1, p - 512);
      assert (p - 512) / 512 == p / 512 - 1 && (p - 512) % 512 == p % 512;
    }
  }

  /** Byte `p` of a file is byte `p` modulo 512 of cluster number `p` divided by 512 of its chain. */
  lemma {:induction false} FileByteAt(v: Volume, f: Found, p: nat)
    requires ValidVolume(v) && Readable(v, f) && p < f.size
    ensures |FileBytes(v, f)| == f.size && Chain(v, f.cluster, p / 512 + 1)
    ensures IsData(v, NthCluster(v, f.cluster, p / 512))
    ensures FileBytes(v, f)[p] == Cluster(v, NthCluster(v, f.cluster, p / 512))[p % 512]
  {
    ChainByteAt(v, f.cluster, SectorsFor(f.size), p);
  }
}
