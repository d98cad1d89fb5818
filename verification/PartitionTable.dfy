/** The four slots of a master boot record, and what creating and deleting do to them. */
module PartitionTable {
  import opened Bytes
  import opened Layout
  import opened PartitionSort
  import opened GapList

  const SLOTS := 4
  const TABLE := 0x1BE

  function SlotAt(i: nat): nat { TABLE + i * 16 }

  function SlotPartition(mbr: Sector, i: nat): Partition
    requires i < SLOTS
  {
    Partition(U32At(mbr, SlotAt(i) + 8), U32At(mbr, SlotAt(i) + 12), 0, mbr[SlotAt(i)], mbr[SlotAt(i) + 4],
              false, false, i)
  }

  predicate IsEmpty(mbr: Sector, i: nat)
    requires i < SLOTS
  {
    SlotPartition(mbr, i).lba == 0 && SlotPartition(mbr, i).length == 0
  }

  /** The partitions of the first `n` slots. */
  function Loaded(mbr: Sector, n: nat): (parts: seq<Partition>)
    requires n <= SLOTS
    ensures |parts| <= n
  {
    if n == 0 then [] else Loaded(mbr, n - 1) + if IsEmpty(mbr, n - 1) then [] else [SlotPartition(mbr, n - 1)]
  }

  function SetSlot(mbr: Sector, i: nat, lba: nat, length: nat): Sector
    requires i < SLOTS && lba < WORD32 && length < WORD32
  {
    PutU32(PutU32(mbr, SlotAt(i) + 8, lba), SlotAt(i) + 12, length)
  }

  /** Only the start and the length of this slot change. */
  lemma {:induction false} SetSlotReads(mbr: Sector, i: nat, lba: nat, length: nat)
    requires i < SLOTS && lba < WORD32 && length < WORD32
    ensures var t := SetSlot(mbr, i, lba, length);
            && SlotPartition(t, i) == SlotPartition(mbr, i).(lba := lba, length := length)
            && (forall j :: 0 <= j < SLOTS && j != i ==> SlotPartition(t, j) == SlotPartition(mbr, j))
            && forall k :: 0 <= k < 512 && !(446 + 16 * i + 8 <= k < 446 + 16 * i + 16) ==> t[k] == mbr[k]
  {
    var a := PutU32(mbr, SlotAt(i) + 8, lba);
    PutU32Reads(mbr, SlotAt(i) + 8, lba);
    PutU32Reads(a, SlotAt(i) + 12, length);
  }

  /** A slot in bytes: sixteen of them from byte 446 on, with start and length in the last eight. */
  lemma {:induction false} SlotFromBytes(mbr: Sector, i: nat, lba: nat, length: nat)
    requires i < 4 && lba < 4294967296 && length < 4294967296
    requires var at := 446 + 16 * i;
             && mbr[at + 8] == lba % 256 && mbr[at + 9] == lba / 256 % 256
             && mbr[at + 10] == lba / 65536 % 256 && mbr[at + 11] == lba / 16777216
             && mbr[at + 12] == length % 256 && mbr[at + 13] == length / 256 % 256
             && mbr[at + 14] == length / 65536 % 256 && mbr[at + 15] == length / 16777216
    ensures SlotPartition(mbr, i).lba == lba && SlotPartition(mbr, i).length == length
    ensures SlotPartition(mbr, i).attrib == mbr[446 + 16 * i] && SlotPartition(mbr, i).kind == mbr[446 + 16 * i + 4]
    ensures SlotPartition(mbr, i).internalID == i && !SlotPartition(mbr, i).free
    ensures SlotPartition(mbr, i).sectorHeldIn == 0 && !SlotPartition(mbr, i).extended
    ensures IsEmpty(mbr, i) <==> lba == 0 && length == 0
  {
    WordFromBytes(mbr, 446 + 16 * i + 8, lba);
    WordFromBytes(mbr, 446 + 16 * i + 12, length);
  }

  /** The first empty slot, or 4. */
  function FirstEmpty(mbr: Sector, i: nat): (r: nat)
    requires i <= SLOTS
    ensures i <= r <= SLOTS
    ensures r < SLOTS ==> IsEmpty(mbr, r)
    ensures forall k :: i <= k < r ==> !IsEmpty(mbr, k)
    decreases SLOTS - i
  {
    if i == SLOTS || IsEmpty(mbr, i) then i else FirstEmpty(mbr, i + 1)
  }

  predicate Clear(p: Partition, q: Partition) { p.lba + p.length <= q.lba || q.lba + q.length <= p.lba }

  /** The non-empty slots are partitions of the disk that do not overlap. */
  ghost predicate GoodTable(mbr: Sector) {
    && (forall i :: 0 <= i < SLOTS && !IsEmpty(mbr, i) ==>
          var p := SlotPartition(mbr, i); p.lba > 0 && p.length > 0 && p.lba + p.length <= DISK_END)
    && forall i, j :: 0 <= i < j < SLOTS && !IsEmpty(mbr, i) && !IsEmpty(mbr, j) ==>
                        Clear(SlotPartition(mbr, i), SlotPartition(mbr, j))
  }

  lemma {:induction false} GoodTableExactly(mbr: Sector)
    ensures GoodTable(mbr) <==>
            && (forall i :: 0 <= i < 4 && !IsEmpty(mbr, i) ==>
                  var p := SlotPartition(mbr, i); p.lba > 0 && p.length > 0 && p.lba + p.length <= 9999999)
            && forall i, j :: 0 <= i < j < 4 && !IsEmpty(mbr, i) && !IsEmpty(mbr, j) ==>
                                var p, q := SlotPartition(mbr, i), SlotPartition(mbr, j);
                                p.lba + p.length <= q.lba || q.lba + q.length <= p.lba
  {
  }

  // --- from slots to the sorted list ---------------------------------------------------

  lemma {:induction false} LoadedMembers(mbr: Sector, n: nat)
    requires n <= SLOTS
    ensures forall p :: p in Loaded(mbr, n) <==>
                        exists i :: 0 <= i < n && !IsEmpty(mbr, i) && p == SlotPartition(mbr, i)
  {
    if n > 0 { LoadedMembers(mbr, n - 1); }
  }

  lemma {:induction false} FilterTwice(s: seq<Partition>, i: nat, j: nat)
    requires i < j < |s| && s[i].lba == s[j].lba
    ensures |WithLba(s, s[i].lba)| >= 2
    decreases |s|
  {
    var front := s[..|s| - 1];
    if j < |s| - 1 {
      FilterTwice(front, i, j);
    } else {
      FilterMember(front, front[i]);
    }
  }

  lemma {:induction false} FilterOnce(mbr: Sector, n: nat, lba: nat)
    requires n <= SLOTS && GoodTable(mbr)
    ensures |WithLba(Loaded(mbr, n), lba)| <= 1
  {
    if n > 0 {
      FilterOnce(mbr, n - 1, lba);
      var before := Loaded(mbr, n - 1);
      var p := SlotPartition(mbr, n - 1);
      if IsEmpty(mbr, n - 1) {
        assert before + [] == before;
      } else {
        assert (before + [p])[..|before|] == before;
        if p.lba == lba && WithLba(before, lba) != [] {
          var q := WithLba(before, lba)[0];
          FilterFrom(before, lba, q);
          LoadedMembers(mbr, n - 1);
        }
      }
    }
  }

  lemma {:induction false} FilterFrom(s: seq<Partition>, lba: nat, p: Partition)
    requires p in WithLba(s, lba)
    ensures p in s && p.lba == lba
  {
    if s != [] {
      var last := s[|s| - 1];
      if p in WithLba(s[..|s| - 1], lba) { FilterFrom(s[..|s| - 1], lba, p); }
    }
  }

  lemma {:induction false} SameMembers(s: seq<Partition>, t: seq<Partition>)
    requires multiset(s) == multiset(t)
    ensures forall p :: p in s <==> p in t
  {
    assert forall p :: p in s <==> p in multiset(s);
    assert forall p :: p in t <==> p in multiset(t);
  }

  /** The slot that a sorted partition comes from. */
  ghost predicate FromSlot(mbr: Sector, p: Partition) {
    exists i :: 0 <= i < SLOTS && !IsEmpty(mbr, i) && p == SlotPartition(mbr, i)
  }

  lemma {:induction false} SortedMembers(mbr: Sector, sorted: seq<Partition>)
    requires Stable(Loaded(mbr, SLOTS), sorted)
    ensures forall p :: p in sorted <==> FromSlot(mbr, p)
  {
    LoadedMembers(mbr, SLOTS);
    SameMembers(Loaded(mbr, SLOTS), sorted);
  }

  lemma {:induction false} NeighboursClear(mbr: Sector, sorted: seq<Partition>, i: nat)
    requires GoodTable(mbr) && Sorted(sorted) && Stable(Loaded(mbr, SLOTS), sorted) && i + 1 < |sorted|
    ensures sorted[i].lba + sorted[i].length <= sorted[i + 1].lba
  {
    var p, q := sorted[i], sorted[i + 1];
    SortedMembers(mbr, sorted);
    assert p in sorted && q in sorted;
    if p.lba == q.lba { FilterTwice(sorted, i, i + 1); }
    FilterOnce(mbr, SLOTS, p.lba);
    assert WithLba(Loaded(mbr, SLOTS), p.lba) == WithLba(sorted, p.lba);
  }

  /** The sorted partitions of a good table stand in order. */
  lemma {:induction false} SortedTableInOrder(mbr: Sector, sorted: seq<Partition>)
    requires GoodTable(mbr) && Sorted(sorted) && Stable(Loaded(mbr, SLOTS), sorted)
    ensures InOrder(sorted)
    ensures forall p :: p in sorted <==> FromSlot(mbr, p)
  {
    SortedMembers(mbr, sorted);
    forall i | 0 <= i < |sorted|
      ensures !sorted[i].free && sorted[i].lba > 0 && sorted[i].length > 0
              && sorted[i].lba + sorted[i].length <= DISK_END
    {
      assert sorted[i] in sorted;
    }
    forall i | 0 <= i < |sorted| - 1
      ensures sorted[i].lba + sorted[i].length <= sorted[i + 1].lba
    {
      NeighboursClear(mbr, sorted, i);
    }
  }

  // --- the invariant -----------------------------------------------------------------

  /** The part of a listed free area that a new partition takes is clear of every slot. */
  lemma {:induction false} FreeAreaIsClear(mbr: Sector, sorted: seq<Partition>, area: Area, i: nat)
    requires GoodTable(mbr) && Sorted(sorted) && Stable(Loaded(mbr, SLOTS), sorted)
    requires area in Listing(sorted) && area.free && i < SLOTS && !IsEmpty(mbr, i)
    ensures var p := SlotPartition(mbr, i); area.lba + area.length <= p.lba || p.lba + p.length <= area.lba
  {
    SortedTableInOrder(mbr, sorted);
    var p := SlotPartition(mbr, i);
    assert FromSlot(mbr, p) && p in sorted;
    GapsListed(sorted, |sorted|, area);
    var g: nat :| g < |sorted| && IsGap(sorted, g, area);
    var k: nat :| k < |sorted| && sorted[k] == p;
    GapIsClear(sorted, g, k, area);
  }

  lemma {:induction false} GapIsClear(parts: seq<Partition>, g: nat, k: nat, area: Area)
    requires InOrder(parts) && g < |parts| && k < |parts| && IsGap(parts, g, area)
    ensures area.lba + area.length <= parts[k].lba || parts[k].lba + parts[k].length <= area.lba
  {
    ExactGap(parts, g);
    if k < g { EndsBefore(parts, k, g); }
    if g + 1 < k { EndsBefore(parts, g + 1, k); }
  }

  lemma {:induction false} EndsBefore(parts: seq<Partition>, i: nat, j: nat)
    requires InOrder(parts) && i < j < |parts|
    ensures parts[i].lba + parts[i].length <= parts[j].lba
  {
    if i + 1 < j { EndsBefore(parts, i, j - 1); }
  }

  lemma {:induction false} AreaOnDisk(sorted: seq<Partition>, area: Area)
    requires InOrder(sorted) && area in Listing(sorted)
    ensures 0 < area.lba && area.lba + area.length <= DISK_END
  {
    AreasAscend(sorted, |sorted|);
  }

  /** No slot's partition overlaps these sectors. */
  ghost predicate IsClear(mbr: Sector, lba: nat, length: nat) {
    forall i :: 0 <= i < SLOTS && !IsEmpty(mbr, i) ==>
                  var p := SlotPartition(mbr, i); lba + length <= p.lba || p.lba + p.length <= lba
  }

  /** A good table stays good when clear sectors fill its first empty slot. */
  lemma {:induction false} FillKeeps(mbr: Sector, lba: nat, size: nat)
    requires GoodTable(mbr) && FirstEmpty(mbr, 0) < SLOTS
    requires 0 < lba && 0 < size && lba + size <= DISK_END && IsClear(mbr, lba, size)
    ensures GoodTable(SetSlot(mbr, FirstEmpty(mbr, 0), lba, size))
  {
    SetSlotReads(mbr, FirstEmpty(mbr, 0), lba, size);
  }

  /** Creating a partition no larger than the selected free area keeps the table good. */
  lemma {:induction false} CreateKeepsTable(mbr: Sector, sorted: seq<Partition>, area: Area, size: nat)
    requires GoodTable(mbr) && Sorted(sorted) && Stable(Loaded(mbr, SLOTS), sorted)
    requires area in Listing(sorted) && area.free && 0 < size <= area.length
    requires FirstEmpty(mbr, 0) < SLOTS
    ensures area.lba < WORD32 && size < WORD32 && GoodTable(SetSlot(mbr, FirstEmpty(mbr, 0), area.lba, size))
  {
    ListedIsFree(mbr, sorted, area, size);
    FillKeeps(mbr, area.lba, size);
  }

  lemma {:induction false} ListedIsFree(mbr: Sector, sorted: seq<Partition>, area: Area, size: nat)
    requires GoodTable(mbr) && Sorted(sorted) && Stable(Loaded(mbr, SLOTS), sorted)
    requires area in Listing(sorted) && area.free && 0 < size <= area.length
    ensures 0 < area.lba && area.lba + size <= DISK_END && IsClear(mbr, area.lba, size)
  {
    SortedTableInOrder(mbr, sorted);
    AreaOnDisk(sorted, area);
    forall i | 0 <= i < SLOTS && !IsEmpty(mbr, i)
      ensures var p := SlotPartition(mbr, i); area.lba + size <= p.lba || p.lba + p.length <= area.lba
    {
      FreeAreaIsClear(mbr, sorted, area, i);
    }
  }

  /** The table with a new partition in its first empty slot, if it has one. */
  function TableWith(mbr: Sector, lba: nat, size: nat): Sector {
    var e := FirstEmpty(mbr, 0);
    if e < SLOTS then SetSlot(mbr, e, Wrap32(lba), Wrap32(size)) else mbr
  }

  lemma {:induction false} TableWithKeepsSignature(mbr: Sector, lba: nat, size: nat)
    ensures TableWith(mbr, lba, size)[511] == mbr[511]
  {
    var e := FirstEmpty(mbr, 0);
    if e < SLOTS { SetSlotReads(mbr, e, Wrap32(lba), Wrap32(size)); }
  }

  lemma {:induction false} TableWithInRange(mbr: Sector, lba: nat, size: nat)
    requires lba < WORD32 && size < WORD32 && FirstEmpty(mbr, 0) < SLOTS
    ensures TableWith(mbr, lba, size) == SetSlot(mbr, FirstEmpty(mbr, 0), lba, size)
  {
    assert Wrap32(lba) == lba && Wrap32(size) == size;
  }

  lemma {:induction false} TableWithKeepsTable(mbr: Sector, sorted: seq<Partition>, area: Area, size: nat)
    requires Sorted(sorted) && Stable(Loaded(mbr, SLOTS), sorted)
    requires area in Listing(sorted) && area.free && 0 < size <= area.length
    ensures GoodTable(mbr) ==> GoodTable(TableWith(mbr, area.lba, size))
  {
    if FirstEmpty(mbr, 0) < SLOTS && GoodTable(mbr) {
      CreateKeepsTable(mbr, sorted, area, size);
      TableWithInRange(mbr, area.lba, size);
    }
  }

  /** Deleting keeps the table good. */
  lemma {:induction false} DeleteKeepsTable(mbr: Sector, i: nat)
    requires i < SLOTS
    ensures SetSlot(mbr, i, 0, 0)[511] == mbr[511]
    ensures GoodTable(mbr) ==> GoodTable(SetSlot(mbr, i, 0, 0))
  {
    SetSlotReads(mbr, i, 0, 0);
  }

  /** Deleting what was just created gives back every slot's start and length. */
  lemma {:induction false} DeleteUndoesCreate(mbr: Sector, lba: nat, size: nat)
    requires FirstEmpty(mbr, 0) < SLOTS && lba < WORD32 && size < WORD32
    ensures var e := FirstEmpty(mbr, 0); SetSlot(SetSlot(mbr, e, lba, size), e, 0, 0) == mbr
  {
    var e := FirstEmpty(mbr, 0);
    var t := SetSlot(mbr, e, lba, size);
    SetSlotReads(mbr, e, lba, size);
    SetSlotReads(t, e, 0, 0);
    var u := SetSlot(t, e, 0, 0);
    ZeroWord(mbr, SlotAt(e) + 8);
    ZeroWord(mbr, SlotAt(e) + 12);
    assert SlotPartition(u, e).lba == 0 && SlotPartition(u, e).length == 0;
    ZeroWord(u, SlotAt(e) + 8);
    ZeroWord(u, SlotAt(e) + 12);
    forall k | 0 <= k < 512
      ensures u[k] == mbr[k]
    {
      if SlotAt(e) + 8 <= k < SlotAt(e) + 16 { assert u[k] == 0 == mbr[k]; }
    }
  }
}
