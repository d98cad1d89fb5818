/** The sparse form of a disk image: a bitmap of blank sectors, and the others in volumes. */
module SparseImage {
  import opened Bytes

  const VOLUME_SECTORS := 2600

  /** ZEROS.SYS and DATA1.BIN, DATA2.BIN and so on. */
  datatype Packed = Packed(zeros: seq<Byte>, volumes: seq<seq<Sector>>)

  predicate IsZeroSector(s: Sector) { s == ZeroSector() }

  /** The sectors that are not blank, in image order. */
  function NonZeroSectors(image: seq<Sector>): seq<Sector>
  {
    if image == [] then []
    else
      var last := |image| - 1;
      NonZeroSectors(image[..last]) + if IsZeroSector(image[last]) then [] else [image[last]]
  }

  /** What the volumes hold one after the other: the last one is filled up with the final sector. */
  function Stream(image: seq<Sector>, j: nat): Sector
    requires image != []
  {
    if j < |NonZeroSectors(image)| then NonZeroSectors(image)[j] else image[|image| - 1]
  }

  /** The installer's bit test: most significant bit first, one bit a sector. */
  predicate IsZero(zeros: seq<Byte>, lba: nat)
    requires lba < 8 * |zeros|
  {
    BitSet(zeros[lba / 8], 7 - lba % 8)
  }

  /** How many sectors below `lba` the bitmap calls non-zero, counted from the start. */
  function Rank(zeros: seq<Byte>, lba: nat): (r: nat)
    requires lba <= 8 * |zeros|
    ensures r <= lba
  {
    if lba == 0 then 0 else Rank(zeros, lba - 1) + if IsZero(zeros, lba - 1) then 0 else 1
  }

  predicate FullVolumes(volumes: seq<seq<Sector>>) {
    forall v :: 0 <= v < |volumes| ==> |volumes[v]| == VOLUME_SECTORS
  }

  ghost predicate BitmapOf(zeros: seq<Byte>, image: seq<Sector>)
  {
    && |zeros| == |image| / 8
    && forall i :: 0 <= i < 8 * |zeros| ==> (IsZero(zeros, i) <==> IsZeroSector(image[i]))
  }

  ghost predicate VolumesOf(volumes: seq<seq<Sector>>, image: seq<Sector>)
    requires image != []
  {
    && |volumes| == |NonZeroSectors(image)| / VOLUME_SECTORS + 1
    && FullVolumes(volumes)
    && forall v, k :: 0 <= v < |volumes| && 0 <= k < VOLUME_SECTORS ==>
                        volumes[v][k] == Stream(image, VOLUME_SECTORS * v + k)
  }

  ghost predicate IsPacking(p: Packed, image: seq<Sector>)
    requires image != []
  {
    BitmapOf(p.zeros, image) && VolumesOf(p.volumes, image)
  }

  /** The reader's view of one sector, without any cache: count from the start, then divide. */
  function UnpackSector(p: Packed, lba: nat): Sector
    requires FullVolumes(p.volumes) && lba < 8 * |p.zeros|
    requires !IsZero(p.zeros, lba) ==> Rank(p.zeros, lba) < VOLUME_SECTORS * |p.volumes|
  {
    if IsZero(p.zeros, lba) then ZeroSector()
    else
      var r := Rank(p.zeros, lba);
      p.volumes[r / VOLUME_SECTORS][r % VOLUME_SECTORS]
  }

  function Unpack(p: Packed, n: nat): (image: seq<Sector>)
    requires FullVolumes(p.volumes) && n <= 8 * |p.zeros|
    requires Rank(p.zeros, n) <= VOLUME_SECTORS * |p.volumes|
  {
    if n == 0 then [] else Unpack(p, n - 1) + [UnpackSector(p, n - 1)]
  }

  // --- ranks -------------------------------------------------------------------------

  lemma {:induction false} RankMonotone(zeros: seq<Byte>, lo: nat, hi: nat)
    requires lo <= hi <= 8 * |zeros|
    ensures Rank(zeros, lo) <= Rank(zeros, hi) <= Rank(zeros, lo) + (hi - lo)
  {
    if lo < hi { RankMonotone(zeros, lo, hi - 1); }
  }

  lemma {:induction false} NonZeroOfMore(image: seq<Sector>, n: nat)
    requires n < |image|
    ensures NonZeroSectors(image[..n + 1])
            == NonZeroSectors(image[..n]) + if IsZeroSector(image[n]) then [] else [image[n]]
  {
    assert image[..n + 1][..n] == image[..n] && image[..n + 1][n] == image[n];
  }

  lemma {:induction false} RankCounts(zeros: seq<Byte>, image: seq<Sector>, lba: nat)
    requires BitmapOf(zeros, image) && lba <= 8 * |zeros|
    ensures Rank(zeros, lba) == |NonZeroSectors(image[..lba])|
  {
    if lba > 0 {
      RankCounts(zeros, image, lba - 1);
      NonZeroOfMore(image, lba - 1);
    }
  }

  lemma {:induction false} RankTotal(zeros: seq<Byte>, image: seq<Sector>)
    requires BitmapOf(zeros, image) && |image| % 8 == 0
    ensures 8 * |zeros| == |image| && Rank(zeros, 8 * |zeros|) == |NonZeroSectors(image)|
  {
    RankCounts(zeros, image, |image|);
    assert image[..|image|] == image;
  }

  lemma {:induction false} NonZeroPrefix(image: seq<Sector>, n: nat)
    requires n <= |image|
    ensures NonZeroSectors(image[..n]) <= NonZeroSectors(image)
  {
    if n < |image| {
      NonZeroPrefix(image[..|image| - 1], n);
      assert image[..|image| - 1][..n] == image[..n];
    } else {
      assert image[..n] == image;
    }
  }

  /** The rank of a non-zero sector is its place in the stream. */
  lemma {:induction false} RankFinds(zeros: seq<Byte>, image: seq<Sector>, lba: nat)
    requires BitmapOf(zeros, image) && lba < 8 * |zeros| && !IsZero(zeros, lba)
    ensures Rank(zeros, lba) < |NonZeroSectors(image)|
    ensures NonZeroSectors(image)[Rank(zeros, lba)] == image[lba]
  {
    RankCounts(zeros, image, lba);
    NonZeroPrefix(image, lba + 1);
    NonZeroOfMore(image, lba);
  }

  /** Where the volumes hold entry `r` of the stream. */
  lemma {:induction false} VolumeHolds(volumes: seq<seq<Sector>>, image: seq<Sector>, r: nat)
    requires image != [] && VolumesOf(volumes, image) && r < |NonZeroSectors(image)|
    ensures r / VOLUME_SECTORS < |volumes| && r < VOLUME_SECTORS * |volumes|
    ensures volumes[r / VOLUME_SECTORS][r % VOLUME_SECTORS] == NonZeroSectors(image)[r]
  {
    assert r == VOLUME_SECTORS * (r / VOLUME_SECTORS) + r % VOLUME_SECTORS;
    assert volumes[r / VOLUME_SECTORS][r % VOLUME_SECTORS] == Stream(image, r);
  }

  /** The sector that the two divisions pick is the right one. */
  lemma {:induction false} PackedSector(p: Packed, image: seq<Sector>, lba: nat)
    requires image != [] && IsPacking(p, image) && lba < 8 * |p.zeros|
    ensures !IsZero(p.zeros, lba) ==> Rank(p.zeros, lba) < VOLUME_SECTORS * |p.volumes|
    ensures UnpackSector(p, lba) == image[lba]
  {
    if !IsZero(p.zeros, lba) {
      RankFinds(p.zeros, image, lba);
      VolumeHolds(p.volumes, image, Rank(p.zeros, lba));
    }
  }

  lemma {:induction false} VolumesSuffice(p: Packed, image: seq<Sector>, n: nat)
    requires image != [] && IsPacking(p, image) && n <= 8 * |p.zeros|
    ensures Rank(p.zeros, n) <= VOLUME_SECTORS * |p.volumes|
  {
    RankCounts(p.zeros, image, n);
    NonZeroPrefix(image, n);
  }

  ghost predicate UnpacksAt(p: Packed, image: seq<Sector>, lba: nat)
    requires FullVolumes(p.volumes) && lba < |image| <= 8 * |p.zeros|
  {
    && (!IsZero(p.zeros, lba) ==> Rank(p.zeros, lba) < VOLUME_SECTORS * |p.volumes|)
    && UnpackSector(p, lba) == image[lba]
  }

  lemma {:induction false} UnpackPrefix(p: Packed, image: seq<Sector>, n: nat)
    requires FullVolumes(p.volumes) && n <= |image| <= 8 * |p.zeros|
    requires Rank(p.zeros, n) <= VOLUME_SECTORS * |p.volumes|
    requires forall lba {:trigger UnpacksAt(p, image, lba)} :: 0 <= lba < n ==> UnpacksAt(p, image, lba)
    ensures Unpack(p, n) == image[..n]
  {
    if n == 0 {
    } else {
      assert UnpacksAt(p, image, n - 1);
      UnpackPrefix(p, image, n - 1);
      assert image[..n] == image[..n - 1] + [image[n - 1]];
    }
  }

  /** Unpacking inverts packing on every image whose sector count is a multiple of 8. */
  lemma {:induction false} RoundTrip(p: Packed, image: seq<Sector>)
    requires image != [] && |image| % 8 == 0 && IsPacking(p, image)
    ensures Rank(p.zeros, |image|) <= VOLUME_SECTORS * |p.volumes|
    ensures Unpack(p, |image|) == image
  {
    VolumesSuffice(p, image, |image|);
    forall lba | 0 <= lba < |image|
      ensures UnpacksAt(p, image, lba)
    {
      PackedSector(p, image, lba);
    }
    UnpackPrefix(p, image, |image|);
    assert image[..|image|] == image;
  }

  /** No two images of the same length have the same sparse form. */
  lemma {:induction false} PackingIsInjective(p: Packed, a: seq<Sector>, b: seq<Sector>)
    requires a != [] && |a| == |b| && |a| % 8 == 0 && IsPacking(p, a) && IsPacking(p, b)
    ensures a == b
  {
    RoundTrip(p, a);
    RoundTrip(p, b);
  }

  // --- the packed form in numbers ----------------------------------------------------

  lemma {:induction false} AllZeros(s: Sector)
    ensures IsZeroSector(s) <==> forall b :: b in s ==> b == 0
  {
    if forall b :: b in s ==> b == 0 {
      forall k | 0 <= k < 512
        ensures s[k] == ZeroSector()[k]
      {
        assert s[k] in s;
      }
      assert s == ZeroSector();
    }
  }

  lemma {:induction false} HalfOfHalf(v: nat, w: nat)
    requires w == 1 || w == 2 || w == 4 || w == 8 || w == 16 || w == 32 || w == 64
    ensures v / 2 / w == v / (2 * w)
  {
  }

  lemma {:induction false} BitByWeight(v: nat, j: nat, w: nat)
    requires (j, w) in {(0, 1), (1, 2), (2, 4), (3, 8), (4, 16), (5, 32), (6, 64), (7, 128)}
    ensures BitSet(v, j) <==> v / w % 2 == 1
    decreases j
  {
    if j > 0 {
      BitByWeight(v / 2, j - 1, w / 2);
      HalfOfHalf(v, w / 2);
    }
  }

  /** The bit of sector `8 * i + k` of the image, the `k`-th from the highest in byte `i` of the bitmap: set exactly
      if the sector's 512 bytes are 0. */
  lemma {:induction false} BitmapBit(p: Packed, image: seq<Sector>, i: nat, k: nat, w: nat, sector: Sector)
    requires image != [] && IsPacking(p, image) && i < |image| / 8 && k < 8 && sector == image[8 * i + k]
    requires (k, w) in {(0, 128), (1, 64), (2, 32), (3, 16), (4, 8), (5, 4), (6, 2), (7, 1)}
    ensures |p.zeros| == |image| / 8
    ensures p.zeros[i] / w % 2 == 1 <==> forall b :: b in sector ==> b == 0
  {
    BitByWeight(p.zeros[i], 7 - k, w);
    AllZeros(sector);
    BitOfSector(p, image, i, k);
  }

  lemma {:induction false} BitOfSector(p: Packed, image: seq<Sector>, i: nat, k: nat)
    requires image != [] && IsPacking(p, image) && i < |p.zeros| && k < 8
    ensures BitSet(p.zeros[i], 7 - k) <==> IsZeroSector(image[8 * i + k])
  {
    assert (8 * i + k) / 8 == i && (8 * i + k) % 8 == k;
    assert IsZero(p.zeros, 8 * i + k) <==> IsZeroSector(image[8 * i + k]);
  }

  /** The volumes in full: as many as full sets of 2600 and one more, each of 2600 sectors; the non-zero sectors in
      order, then copies of the image's last sector. */
  lemma {:induction false} VolumesInFull(p: Packed, image: seq<Sector>, v: nat, k: nat)
    requires image != [] && IsPacking(p, image) && v < |p.volumes| && k < 2600
    ensures |p.volumes| == |NonZeroSectors(image)| / 2600 + 1 && |p.volumes[v]| == 2600
    ensures p.volumes[v][k] == if 2600 * v + k < |NonZeroSectors(image)| then NonZeroSectors(image)[2600 * v + k]
                               else image[|image| - 1]
  {
    assert p.volumes[v][k] == Stream(image, VOLUME_SECTORS * v + k);
  }

  // --- the packing loop --------------------------------------------------------------

  /** `acc` holds the first `m` bits of a byte: bit `k` of them says that sector `base + k` is blank. */
  ghost predicate PartialByte(acc: nat, image: seq<Sector>, base: nat, m: nat)
    requires base + m <= |image| && m <= 8
  {
    && acc < Pow2(m)
    && forall j :: base <= j < base + m ==> (BitSet(acc, base + m - 1 - j) <==> IsZeroSector(image[j]))
  }

  lemma {:induction false} PartialByteStep(acc: nat, image: seq<Sector>, base: nat, m: nat)
    requires base + m < |image| && m < 8 && PartialByte(acc, image, base, m)
    ensures PartialByte(2 * acc + if IsZeroSector(image[base + m]) then 1 else 0, image, base, m + 1)
  {
    var z := if IsZeroSector(image[base + m]) then 1 else 0;
    forall j | base <= j < base + m + 1
      ensures BitSet(2 * acc + z, base + m - j) <==> IsZeroSector(image[j])
    {
      assert (2 * acc + z) / 2 == acc;
    }
  }

  /** The finished bytes of the bitmap are right. */
  ghost predicate BitsRight(out: seq<Byte>, image: seq<Sector>) {
    && 8 * |out| <= |image|
    && forall j :: 0 <= j < 8 * |out| ==> (IsZero(out, j) <==> IsZeroSector(image[j]))
  }

  lemma {:induction false} BitmapStep(out: seq<Byte>, acc: nat, image: seq<Sector>)
    requires 8 * |out| + 8 <= |image| && PartialByte(acc, image, 8 * |out|, 8) && BitsRight(out, image)
    ensures acc < 256 && BitsRight(out + [acc], image)
  {
    assert Pow2(8) == 256 by { assert Pow2(4) == 16; }
    forall i | 0 <= i < 8 * |out| + 8
      ensures IsZero(out + [acc], i) <==> IsZeroSector(image[i])
    {
      if i < 8 * |out| { assert IsZero(out, i) <==> IsZero(out + [acc], i); }
      else { assert i == 8 * |out| + i % 8; }
    }
  }

  /** The volume being written and the closed ones hold the non-zero sectors met so far. */
  ghost predicate Volumes(closed: seq<seq<Sector>>, open: seq<Sector>, stream: seq<Sector>)
  {
    && |open| < VOLUME_SECTORS
    && VOLUME_SECTORS * |closed| + |open| == |stream|
    && FullVolumes(closed)
    && (forall v, k :: 0 <= v < |closed| && 0 <= k < VOLUME_SECTORS ==>
                         closed[v][k] == stream[VOLUME_SECTORS * v + k])
    && forall k :: 0 <= k < |open| ==> open[k] == stream[VOLUME_SECTORS * |closed| + k]
  }

  lemma {:induction false} VolumesStep(closed: seq<seq<Sector>>, open: seq<Sector>, stream: seq<Sector>, s: Sector)
    requires Volumes(closed, open, stream)
    ensures |open| + 1 < VOLUME_SECTORS ==> Volumes(closed, open + [s], stream + [s])
    ensures |open| + 1 == VOLUME_SECTORS ==> Volumes(closed + [open + [s]], [], stream + [s])
  {
  }

  /** An entry of a closed volume, and one of the last, filled up volume. */
  lemma {:induction false} VolumeEntry(closed: seq<seq<Sector>>, open: seq<Sector>, full: seq<Sector>,
                                       image: seq<Sector>, v: nat, k: nat)
    requires image != [] && Volumes(closed, open, NonZeroSectors(image)) && |full| == VOLUME_SECTORS
    requires forall k :: 0 <= k < |open| ==> full[k] == open[k]
    requires forall k :: |open| <= k < VOLUME_SECTORS ==> full[k] == image[|image| - 1]
    requires v <= |closed| && k < VOLUME_SECTORS
    ensures (if v < |closed| then closed[v] else full)[k] == Stream(image, VOLUME_SECTORS * v + k)
  {
    if v < |closed| {
      assert VOLUME_SECTORS * v + k < VOLUME_SECTORS * |closed|;
    } else if k < |open| {
      assert open[k] == NonZeroSectors(image)[VOLUME_SECTORS * |closed| + k];
    }
  }

  /** Fills the last volume up and closes it. */
  lemma {:induction false} VolumesEnd(closed: seq<seq<Sector>>, open: seq<Sector>, full: seq<Sector>,
                                      image: seq<Sector>)
    requires image != [] && Volumes(closed, open, NonZeroSectors(image)) && |full| == VOLUME_SECTORS
    requires forall k :: 0 <= k < |open| ==> full[k] == open[k]
    requires forall k :: |open| <= k < VOLUME_SECTORS ==> full[k] == image[|image| - 1]
    ensures VolumesOf(closed + [full], image)
  {
    forall v, k | 0 <= v < |closed + [full]| && 0 <= k < VOLUME_SECTORS
      ensures (closed + [full])[v][k] == Stream(image, VOLUME_SECTORS * v + k)
    {
      VolumeEntry(closed, open, full, image, v, k);
    }
  }

  /** The packing script's files after the first `i` sectors. */
  ghost predicate Packing(out: seq<Byte>, acc: nat, closed: seq<seq<Sector>>, open: seq<Sector>,
                          image: seq<Sector>, i: nat)
    requires i <= |image|
  {
    && |out| == i / 8
    && PartialByte(acc, image, 8 * |out|, i % 8)
    && BitsRight(out, image)
    && Volumes(closed, open, NonZeroSectors(image[..i]))
  }

  /** One sector into the volumes (lines 28 to 36 of the script). */
  method WriteSector(closed: seq<seq<Sector>>, open: seq<Sector>, s: Sector, ghost image: seq<Sector>, ghost i: nat)
    returns (closed': seq<seq<Sector>>, open': seq<Sector>)
    requires i < |image| && s == image[i] && Volumes(closed, open, NonZeroSectors(image[..i]))
    ensures Volumes(closed', open', NonZeroSectors(image[..i + 1]))
  {
    NonZeroOfMore(image, i);
    closed', open' := closed, open;
    if !IsZeroSector(s) {
      VolumesStep(closed, open, NonZeroSectors(image[..i]), s);
      open' := open + [s];
      if |open'| == VOLUME_SECTORS { closed', open' := closed + [open'], []; }
    }
  }

  lemma {:induction false} ByteStep(i: nat)
    ensures i == 8 * (i / 8) + i % 8
    ensures i % 8 == 7 ==> (i + 1) % 8 == 0 && (i + 1) / 8 == i / 8 + 1
    ensures i % 8 < 7 ==> (i + 1) % 8 == i % 8 + 1 && (i + 1) / 8 == i / 8
  {
  }

  /** One bit into the bitmap (lines 38 to 43). */
  method WriteBit(out: seq<Byte>, acc: nat, z: bool, ghost image: seq<Sector>, i: nat)
    returns (out': seq<Byte>, acc': nat)
    requires i < |image| && z == IsZeroSector(image[i])
    requires |out| == i / 8 && PartialByte(acc, image, 8 * |out|, i % 8) && BitsRight(out, image)
    ensures |out'| == (i + 1) / 8 && PartialByte(acc', image, 8 * |out'|, (i + 1) % 8) && BitsRight(out', image)
  {
    ByteStep(i);
    PartialByteStep(acc, image, 8 * |out|, i % 8);
    out', acc' := out, 2 * acc + if z then 1 else 0;
    if (i + 1) % 8 == 0 {
      BitmapStep(out, acc', image);
      out', acc' := out + [acc'], 0;
    }
  }

  /** The packing script: None where it fails, on an image without a sector. */
  method Pack(image: seq<Sector>) returns (packed: Option<Packed>)
    ensures packed.None? <==> image == []
    ensures packed.Some? ==> IsPacking(packed.value, image)
  {
    if |image| == 0 { return None; }
    var out: seq<Byte>, byte: nat := [], 0;
    var closed, open: seq<Sector> := [], [];
    for i := 0 to |image|
      invariant Packing(out, byte, closed, open, image, i)
    {
      closed, open := WriteSector(closed, open, image[i], image, i);
      out, byte := WriteBit(out, byte, IsZeroSector(image[i]), image, i);
    }
    assert image[..|image|] == image;
    ghost var last := open;
    while |open| < VOLUME_SECTORS
      invariant |last| <= |open| <= VOLUME_SECTORS && open[..|last|] == last
      invariant forall k :: |last| <= k < |open| ==> open[k] == image[|image| - 1]
    {
      open := open + [image[|image| - 1]];
    }
    VolumesEnd(closed, last, open, image);
    packed := Some(Packed(out, closed + [open]));
  }
}
