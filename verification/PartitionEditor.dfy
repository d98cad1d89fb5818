/** The installer's partition editor: scan, create and delete over one boot record. */
module PartitionEditor {
  import opened Bytes
  import opened Layout
  import opened PartitionSort
  import opened GapList
  import opened PartitionTable

  // --- the size that the operator types -------------------------------------------------

  type Digits = s: seq<nat> | forall i :: 0 <= i < |s| ==> s[i] < 10 witness []

  function Decimal(digits: Digits): nat {
    if digits == [] then 0 else Decimal(digits[..|digits| - 1]) * 10 + digits[|digits| - 1]
  }

  /** The typed megabytes as sectors. */
  method ParseSize(digits: Digits) returns (siz: nat)
    requires |digits| <= 7
    ensures siz == Decimal(digits) * 1024 * 2
  {
    siz := 0;
    for i := 0 to |digits|
      invariant siz == Decimal(digits[..i])
    {
      assert digits[..i + 1][..i] == digits[..i];
      siz := siz * 10;
      siz := siz + digits[i];
    }
    assert digits[..|digits|] == digits;
    siz := siz * 1024;
    siz := siz * 2;
  }

  /** The seven digits shown at first: the free area in whole megabytes. */
  method FirstDigits(maxSiz: nat) returns (digits: Digits)
    ensures |digits| == 7 && Decimal(digits) == maxSiz % 1000_0000
  {
    var left, weight := maxSiz, 1;
    digits := [];
    for i := 0 to 7
      invariant |digits| == i && weight == TenTo(i) && left == maxSiz / weight
      invariant Decimal(digits) == maxSiz % weight
    {
      DigitInFront(left % 10, digits);
      TenToSmall(i);
      NextDigit(maxSiz, weight);
      digits := [left % 10] + digits;
      left := left / 10;
      weight := weight * 10;
    }
  }

  function TenTo(n: nat): (p: nat)
    ensures p > 0
  {
    if n == 0 then 1 else 10 * TenTo(n - 1)
  }

  lemma {:induction false} DigitInFront(d: nat, digits: Digits)
    requires d < 10
    ensures Decimal([d] + digits) == d * TenTo(|digits|) + Decimal(digits)
  {
    if digits == [] {
      assert Decimal([d][..0]) == 0;
    } else {
      var front := digits[..|digits| - 1];
      DigitInFront(d, front);
      assert d * TenTo(|digits|) == d * TenTo(|front|) * 10;
      assert ([d] + digits)[..|digits|] == [d] + front;
    }
  }

  lemma {:induction false} NextDigit(n: nat, w: nat)
    requires w in {1, 10, 100, 1000, 1_0000, 10_0000, 100_0000}
    ensures n / w / 10 == n / (w * 10)
    ensures n / w % 10 * w + n % w == n % (w * 10)
  {
  }

  lemma {:induction false} TenToSmall(i: nat)
    requires i < 7
    ensures TenTo(i) in {1, 10, 100, 1000, 1_0000, 10_0000, 100_0000}
  {
    assert TenTo(0) == 1;
    assert TenTo(1) == 10;
    assert TenTo(2) == 100;
    assert TenTo(3) == 1000;
    assert TenTo(4) == 1_0000;
    assert TenTo(5) == 10_0000;
    assert TenTo(6) == 100_0000;
  }

  /** The dialog: nothing can be typed for an area of less than a megabyte, and ENTER takes a size that fits. */
  method AcceptSize(length: nat, digits: Digits) returns (siz: nat, created: bool)
    requires |digits| <= 7
    ensures created <==> length >= 2048 && 0 < Decimal(digits) * 2048 <= length
    ensures created ==> siz == Decimal(digits) * 2048
  {
    var maxSiz := length / 2 / 1024;
    if maxSiz == 0 { return 0, false; }
    siz := ParseSize(digits);
    created := !(siz > length) && siz != 0;
  }

  // --- the editor ----------------------------------------------------------------------

  datatype Event = Rescan | Create(cursor: nat, digits: Digits) | Delete(cursor: nat)

  /** A free area of a megabyte or more can take a partition of the typed size. */
  predicate Fits(length: nat, digits: Digits) {
    length / 2 / 1024 != 0 && 0 < Decimal(digits) * 2048 <= length
  }

  /** The table after one action on the list that shows it: a creation fills the first empty slot, a deletion
      clears the slot of the selected entry. */
  function AfterEvent(mbr: Sector, areas: seq<Area>, event: Event): Sector {
    if event.Rescan? || event.cursor >= |areas| then mbr
    else
      var area := areas[event.cursor];
      if event.Create? && area.free && Fits(area.length, event.digits) then
        TableWith(mbr, area.lba, Decimal(event.digits) * 2048)
      else if event.Delete? && !area.free && 0 <= area.id < SLOTS then SetSlot(mbr, area.id, 0, 0)
      else mbr
  }

  lemma {:induction false} CreateEvent(mbr: Sector, areas: seq<Area>, event: Event, p: Partition)
    requires event.Create? && event.cursor < |areas| && areas[event.cursor] == View(p) && p.free
    ensures AfterEvent(mbr, areas, event) ==
            if Fits(p.length, event.digits) then TableWith(mbr, p.lba, Decimal(event.digits) * 2048) else mbr
  {
  }

  lemma {:induction false} DeleteEvent(mbr: Sector, areas: seq<Area>, event: Event, p: Partition)
    requires event.Delete? && event.cursor < |areas| && areas[event.cursor] == View(p) && !p.free
    requires 0 <= p.internalID < SLOTS
    ensures AfterEvent(mbr, areas, event) == SetSlot(mbr, p.internalID, 0, 0)
  {
  }

  lemma {:induction false} OtherEvent(mbr: Sector, areas: seq<Area>, event: Event, p: Partition)
    requires !event.Rescan? && event.cursor < |areas| && areas[event.cursor] == View(p)
    requires (event.Create? && !p.free) || (event.Delete? && p.free)
    ensures AfterEvent(mbr, areas, event) == mbr
  {
  }

  /** A free area takes a size exactly if the area has 2048 sectors or more and the size is not 0 and fits. */
  lemma {:induction false} FitsExactly(length: nat, digits: Digits)
    ensures Fits(length, digits) <==> length >= 2048 && 0 < Decimal(digits) * 2048 <= length
  {
  }

  /** The size that is shown at first is accepted, in every free area of 2048 sectors or more below ten million
      megabytes. */
  lemma {:induction false} FirstSizeFits(length: nat, digits: Digits)
    requires 2048 <= length < 2048 * 10000000
    requires Decimal(digits) == length / 2 / 1024 % 10000000
    ensures Fits(length, digits) && 0 < Decimal(digits) * 2048 <= length < Decimal(digits) * 2048 + 2048
  {
    assert length / 2 / 1024 == length / 2048 < 10000000;
  }

  /** What a creation does to the slots: the first empty one gets the area's start and the size, the others stay. */
  lemma {:induction false} CreatedSlot(mbr: Sector, lba: nat, size: nat, e: nat)
    requires lba < 4294967296 && size < 4294967296 && e < 4 && IsEmpty(mbr, e)
    requires forall j :: 0 <= j < e ==> !IsEmpty(mbr, j)
    ensures var t := TableWith(mbr, lba, size);
            && SlotPartition(t, e).lba == lba && SlotPartition(t, e).length == size
            && forall j :: 0 <= j < 4 && j != e ==> SlotPartition(t, j) == SlotPartition(mbr, j)
  {
    FirstEmptyIs(mbr, 0, e);
    TableWithInRange(mbr, lba, size);
    SetSlotReads(mbr, e, lba, size);
  }

  lemma {:induction false} FirstEmptyIs(mbr: Sector, i: nat, e: nat)
    requires i <= e < 4 && IsEmpty(mbr, e) && forall j :: i <= j < e ==> !IsEmpty(mbr, j)
    ensures FirstEmpty(mbr, i) == e
    decreases e - i
  {
    if i < e { FirstEmptyIs(mbr, i + 1, e); }
  }

  /** A creation in numbers: it happens exactly if the selected area is free, has 2048 sectors or more and the typed
      megabytes are not 0 and fit; slot `e`, the first empty one, then starts where the area does. */
  lemma {:induction false} CreateExactly(mbr: Sector, sorted: seq<Partition>, cursor: nat, digits: Digits, e: nat,
                                         after: Sector)
    requires GoodTable(mbr) && Sorted(sorted) && Stable(Loaded(mbr, 4), sorted) && cursor < |Listing(sorted)|
    requires e < 4 && IsEmpty(mbr, e) && forall j :: 0 <= j < e ==> !IsEmpty(mbr, j)
    requires after == AfterEvent(mbr, Listing(sorted), Create(cursor, digits))
    ensures var area, size := Listing(sorted)[cursor], Decimal(digits) * 2048;
            if area.free && area.length >= 2048 && 0 < size <= area.length then
              && SlotPartition(after, e).lba == area.lba && SlotPartition(after, e).length == size
              && forall j :: 0 <= j < 4 && j != e ==> SlotPartition(after, j) == SlotPartition(mbr, j)
            else after == mbr
  {
    var area := Listing(sorted)[cursor];
    AfterCreate(mbr, Listing(sorted), cursor, digits, area);
    ListedInRange(mbr, sorted, area);
    if area.free && area.length >= 2048 && 0 < Decimal(digits) * 2048 <= area.length {
      CreatedSlot(mbr, area.lba, Decimal(digits) * 2048, e);
    }
  }

  lemma {:induction false} ListedInRange(mbr: Sector, sorted: seq<Partition>, area: Area)
    requires GoodTable(mbr) && Sorted(sorted) && Stable(Loaded(mbr, 4), sorted) && area in Listing(sorted)
    ensures area.lba + area.length <= 9999999
  {
    SortedTableInOrder(mbr, sorted);
    AreaOnDisk(sorted, area);
  }

  lemma {:induction false} AfterCreate(mbr: Sector, areas: seq<Area>, cursor: nat, digits: Digits, area: Area)
    requires cursor < |areas| && area == areas[cursor]
    ensures AfterEvent(mbr, areas, Create(cursor, digits)) ==
            if area.free && area.length >= 2048 && 0 < Decimal(digits) * 2048 <= area.length
            then TableWith(mbr, area.lba, Decimal(digits) * 2048) else mbr
  {
    FitsExactly(area.length, digits);
  }

  /** On an empty table the first creation takes slot 0 and starts at sector 128. */
  lemma {:induction false} FirstCreation(mbr: Sector, sorted: seq<Partition>, digits: Digits, after: Sector)
    requires (forall i :: 0 <= i < 4 ==> IsEmpty(mbr, i)) && Sorted(sorted) && Stable(Loaded(mbr, 4), sorted)
    requires after == AfterEvent(mbr, Listing(sorted), Create(0, digits)) && 0 < Decimal(digits) * 2048 <= 9999871
    ensures SlotPartition(after, 0).lba == 128 && SlotPartition(after, 0).length == Decimal(digits) * 2048
  {
    NothingLoaded(mbr, sorted);
    EmptyListing(Listing(sorted)[0]);
    CreateExactly(mbr, sorted, 0, digits, 0, after);
  }

  lemma {:induction false} OnEmptyTable(mbr: Sector, sorted: seq<Partition>, event: Event, after: Sector)
    requires Sorted(sorted) && Stable(Loaded(mbr, 4), sorted) && after == AfterEvent(mbr, Listing(sorted), event)
    ensures event.Create? && event.cursor == 0 && (forall i :: 0 <= i < 4 ==> IsEmpty(mbr, i))
            && 0 < Decimal(event.digits) * 2048 <= 9999871 ==>
              SlotPartition(after, 0).lba == 128 && SlotPartition(after, 0).length == Decimal(event.digits) * 2048
  {
    if event.Create? && event.cursor == 0 && (forall i :: 0 <= i < 4 ==> IsEmpty(mbr, i))
       && 0 < Decimal(event.digits) * 2048 <= 9999871 {
      FirstCreation(mbr, sorted, event.digits, after);
    }
  }

  lemma {:induction false} NothingLoaded(mbr: Sector, sorted: seq<Partition>)
    requires (forall i :: 0 <= i < 4 ==> IsEmpty(mbr, i)) && Stable(Loaded(mbr, 4), sorted)
    ensures sorted == [] && GoodTable(mbr)
  {
    assert Loaded(mbr, 1) == [] && Loaded(mbr, 2) == [] && Loaded(mbr, 3) == [];
    assert |multiset(sorted)| == |multiset(Loaded(mbr, 4))| == 0;
  }

  /** Nothing differs but the starts and lengths of slots. */
  ghost predicate SameOutsideSlots(a: Sector, b: Sector) {
    forall k :: 0 <= k < 512 && !(SlotAt(0) <= k < SlotAt(SLOTS) && (k - TABLE) % 16 >= 8) ==> a[k] == b[k]
  }

  lemma {:induction false} SlotKeepsOutside(mbr: Sector, i: nat, lba: nat, length: nat)
    requires i < SLOTS && lba < WORD32 && length < WORD32
    ensures SameOutsideSlots(SetSlot(mbr, i, lba, length), mbr)
  {
    SetSlotReads(mbr, i, lba, length);
  }

  lemma {:induction false} EventKeepsOutside(mbr: Sector, areas: seq<Area>, event: Event)
    ensures SameOutsideSlots(AfterEvent(mbr, areas, event), mbr)
  {
    if event.Create? && event.cursor < |areas| {
      var e, lba, size := FirstEmpty(mbr, 0), areas[event.cursor].lba, Decimal(event.digits) * 2048;
      if e < SLOTS { SlotKeepsOutside(mbr, e, Wrap32(lba), Wrap32(size)); }
    } else if event.Delete? && event.cursor < |areas| {
      var id := areas[event.cursor].id;
      if 0 <= id < SLOTS { SlotKeepsOutside(mbr, id, 0, 0); }
    }
  }

  class Editor {
    /** Sector 0 of the disk. */
    var mbr: Sector
    var firstSec: Sector
    const partitionsTEMP: array<Partition>
    const partitions: array<Partition>
    var nextPartition: nat
    var partitionCursor: nat
    /** What the last scan sorted. */
    ghost var sorted: seq<Partition>

    constructor (mbr: Sector)
      ensures Shaped() && this.mbr == mbr && nextPartition == 0
      ensures fresh(partitionsTEMP) && fresh(partitions)
    {
      this.mbr, firstSec := mbr, ZeroSector();
      partitionsTEMP := new Partition[16](_ => Partition(0, 0, 0, 0, 0, false, false, 0));
      partitions := new Partition[32](_ => Partition(0, 0, 0, 0, 0, false, false, 0));
      nextPartition, partitionCursor, sorted := 0, 0, [];
    }

    ghost predicate Shaped()
      reads this
    {
      partitionsTEMP.Length == 16 && partitions.Length == 32 && partitionsTEMP != partitions && nextPartition <= 32
    }

    /** The list shows the partitions of the table `table`, sorted, with the free areas. */
    ghost predicate Lists(table: Sector)
      reads this, partitions
    {
      && Shaped()
      && Sorted(sorted) && Stable(Loaded(table, SLOTS), sorted)
      && ViewAll(partitions[..nextPartition]) == Listing(sorted)
      && forall k :: 0 <= k < nextPartition && !partitions[k].free ==> partitions[k] in sorted
    }

    method LoadPartitions()
      requires Shaped() && nextPartition == 0
      modifies partitionsTEMP, this`nextPartition
      ensures Shaped() && nextPartition <= SLOTS && partitionsTEMP[..nextPartition] == Loaded(firstSec, SLOTS)
    {
      for i := 0 to SLOTS
        invariant Shaped() && nextPartition <= i && partitionsTEMP[..nextPartition] == Loaded(firstSec, i)
      {
        var attrib, kind := firstSec[SlotAt(i)], firstSec[SlotAt(i) + 4];
        var lba, len := U32At(firstSec, SlotAt(i) + 8), U32At(firstSec, SlotAt(i) + 12);
        if !(lba == 0 && len == 0) {
          partitionsTEMP[nextPartition] := Partition(lba, len, 0, attrib, kind, false, false, i);
          nextPartition := nextPartition + 1;
        }
      }
    }

    /** Reads the table anew and lists it; false if the boot record has no signature. */
    method Scan() returns (ok: bool)
      requires Shaped()
      modifies this`firstSec, this`nextPartition, this`partitionCursor, this`sorted, partitionsTEMP, partitions
      ensures Shaped() && (ok <==> mbr[511] == 0x55 || mbr[511] == 0xAA)
      ensures ok ==> Lists(mbr) && partitionCursor == 0
    {
      firstSec := mbr;
      if firstSec[511] != 0x55 && firstSec[511] != 0xAA { return false; }
      nextPartition, partitionCursor := 0, 0;
      LoadPartitions();
      SortLoaded();
      ListSorted();
      ok := true;
    }

    method SortLoaded()
      requires Shaped() && nextPartition <= SLOTS && partitionsTEMP[..nextPartition] == Loaded(mbr, SLOTS)
      modifies this`sorted, partitionsTEMP
      ensures partitionsTEMP[..nextPartition] == sorted && Sorted(sorted) && Stable(Loaded(mbr, SLOTS), sorted)
    {
      SortPartitions(partitionsTEMP, nextPartition);
      sorted := partitionsTEMP[..nextPartition];
    }

    method ListSorted()
      requires Shaped() && nextPartition <= SLOTS && partitionsTEMP[..nextPartition] == sorted
      requires Sorted(sorted) && Stable(Loaded(mbr, SLOTS), sorted)
      modifies this`nextPartition, partitions
      ensures Lists(mbr)
    {
      LoadedNotFree(mbr, sorted);
      nextPartition := PutFreeAreasInGaps(partitionsTEMP, nextPartition, partitions);
    }

    /** Writes a partition into the first empty slot, if there is one. */
    method ActualPartitionCreate(size: nat)
      requires partitionCursor < partitions.Length
      modifies this`firstSec, this`mbr
      ensures mbr == TableWith(old(mbr), partitions[partitionCursor].lba, size)
    {
      firstSec := mbr;
      var i := 0;
      while i < SLOTS
        invariant i <= SLOTS && mbr == old(mbr) == firstSec && FirstEmpty(mbr, 0) == FirstEmpty(mbr, i)
      {
        if IsEmpty(firstSec, i) {
          firstSec := SetSlot(firstSec, i, Wrap32(partitions[partitionCursor].lba), Wrap32(size));
          mbr := firstSec;
          break;
        }
        i := i + 1;
      }
    }

    /** Clears the slot that the selected partition came from. */
    method ActualPartitionDelete()
      requires partitionCursor < partitions.Length && 0 <= partitions[partitionCursor].internalID < SLOTS
      modifies this`firstSec, this`mbr
      ensures var p := partitions[partitionCursor];
              mbr == if !p.extended && p.sectorHeldIn == 0 then SetSlot(old(mbr), p.internalID, 0, 0) else old(mbr)
    {
      var p := partitions[partitionCursor];
      if !p.extended && p.sectorHeldIn == 0 {
        firstSec := mbr;
        firstSec := SetSlot(firstSec, p.internalID, 0, 0);
        mbr := firstSec;
      }
    }

    /** Creates a partition of the typed size in the selected free area, if it fits. */
    method CreatePartition(digits: Digits) returns (created: bool)
      requires Lists(mbr) && partitionCursor < nextPartition && partitions[partitionCursor].free && |digits| <= 7
      modifies this`firstSec, this`mbr
      ensures var area := partitions[partitionCursor];
              && (created <==> area.length >= 2048 && 0 < Decimal(digits) * 2048 <= area.length)
              && mbr == (if created then TableWith(old(mbr), area.lba, Decimal(digits) * 2048) else old(mbr))
              && mbr[511] == old(mbr)[511]
      ensures GoodTable(old(mbr)) ==> GoodTable(mbr)
    {
      var siz;
      siz, created := AcceptSize(partitions[partitionCursor].length, digits);
      if created {
        SelectedIsListed();
        TableWithKeepsTable(mbr, sorted, View(partitions[partitionCursor]), siz);
        TableWithKeepsSignature(mbr, partitions[partitionCursor].lba, siz);
        ActualPartitionCreate(siz);
      }
    }

    /** Deletes the selected partition: clears the slot that holds it, wherever sorting has put it in the list. */
    method DeletePartition()
      requires Lists(mbr) && partitionCursor < nextPartition && !partitions[partitionCursor].free
      modifies this`firstSec, this`mbr
      ensures var p := partitions[partitionCursor];
              && 0 <= p.internalID < SLOTS && p == SlotPartition(old(mbr), p.internalID)
              && mbr == SetSlot(old(mbr), p.internalID, 0, 0) && mbr[511] == old(mbr)[511]
      ensures GoodTable(old(mbr)) ==> GoodTable(mbr)
    {
      SortedMembers(mbr, sorted);
      assert FromSlot(mbr, partitions[partitionCursor]);
      DeleteKeepsTable(mbr, partitions[partitionCursor].internalID);
      ActualPartitionDelete();
    }

    lemma {:induction false} SelectedIsListed()
      requires Lists(mbr) && partitionCursor < nextPartition
      ensures |Listing(sorted)| == nextPartition
      ensures View(partitions[partitionCursor]) == Listing(sorted)[partitionCursor]
    {
      ViewAllAt(partitions[..nextPartition], partitionCursor);
    }

    /** The operator's action on the selected entry of the list. */
    method Act(event: Event)
      requires Lists(mbr) && !event.Rescan? && partitionCursor == event.cursor < nextPartition
      requires event.Create? ==> |event.digits| <= 7
      modifies this`firstSec, this`mbr
      ensures mbr == AfterEvent(old(mbr), Listing(sorted), event)
      ensures GoodTable(old(mbr)) ==> GoodTable(mbr)
    {
      SelectedIsListed();
      ghost var before, p := mbr, partitions[partitionCursor];
      if event.Create? && partitions[partitionCursor].free {
        FitsExactly(partitions[partitionCursor].length, event.digits);
        var created := CreatePartition(event.digits);
        CreateEvent(before, Listing(sorted), event, p);
      } else if event.Delete? && !partitions[partitionCursor].free {
        DeletePartition();
        DeleteEvent(before, Listing(sorted), event, p);
      } else {
        OtherEvent(before, Listing(sorted), event, p);
      }
    }

    /** What the operator does with the list. */
    method Choose(event: Event)
      requires Lists(mbr) && (event.Create? ==> |event.digits| <= 7)
      modifies this`firstSec, this`mbr, this`partitionCursor
      ensures mbr == AfterEvent(old(mbr), Listing(sorted), event)
      ensures GoodTable(old(mbr)) ==> GoodTable(mbr)
    {
      ListLength();
      if !event.Rescan? && event.cursor < nextPartition {
        partitionCursor := event.cursor;
        Act(event);
      }
    }

    /** One turn of the editor: scan, then one action of the operator. */
    method Turn(event: Event) returns (ok: bool)
      requires Shaped() && GoodTable(mbr) && (event.Create? ==> |event.digits| <= 7)
      modifies this, partitionsTEMP, partitions
      ensures Shaped() && GoodTable(mbr)
      ensures ok <==> old(mbr)[511] == 0x55 || old(mbr)[511] == 0xAA
      ensures if ok then && Sorted(sorted) && Stable(Loaded(old(mbr), SLOTS), sorted)
                         && mbr == AfterEvent(old(mbr), Listing(sorted), event)
              else mbr == old(mbr)
      ensures ok && event.Create? && event.cursor == 0 && (forall i :: 0 <= i < 4 ==> IsEmpty(old(mbr), i))
              && 0 < Decimal(event.digits) * 2048 <= 9999871 ==>
                SlotPartition(mbr, 0).lba == 128 && SlotPartition(mbr, 0).length == Decimal(event.digits) * 2048
    {
      ok := Scan();
      if !ok { return; }
      Choose(event);
      OnEmptyTable(old(mbr), sorted, event, mbr);
    }

    lemma {:induction false} ListLength()
      requires Lists(mbr)
      ensures |Listing(sorted)| == nextPartition
    {
      if nextPartition > 0 { ViewAllAt(partitions[..nextPartition], 0); }
    }

    /** Every run of rescans, creations and deletions keeps the partitions apart and on the disk, and changes
        nothing of the boot record but starts and lengths. */
    method Session(events: seq<Event>)
      requires Shaped() && GoodTable(mbr)
      requires forall i :: 0 <= i < |events| && events[i].Create? ==> |events[i].digits| <= 7
      modifies this, partitionsTEMP, partitions
      ensures GoodTable(mbr) && SameOutsideSlots(mbr, old(mbr))
      ensures forall k :: 0 <= k < 446 || 510 <= k < 512 || (446 <= k < 510 && (k - 446) % 16 < 8) ==>
                            mbr[k] == old(mbr)[k]
    {
      for i := 0 to |events|
        invariant Shaped() && GoodTable(mbr) && SameOutsideSlots(mbr, old(mbr))
      {
        ghost var before := mbr;
        var ok := Turn(events[i]);
        if !ok { return; }
        EventKeepsOutside(before, Listing(sorted), events[i]);
      }
    }
  }

  /** An entry of the list that is not free shows the slot that a deletion of it clears. */
  lemma {:induction false} ListedSlot(mbr: Sector, sorted: seq<Partition>, area: Area)
    requires GoodTable(mbr) && Sorted(sorted) && Stable(Loaded(mbr, SLOTS), sorted)
    requires area in Listing(sorted) && !area.free
    ensures 0 <= area.id < SLOTS && !IsEmpty(mbr, area.id) && View(SlotPartition(mbr, area.id)) == area
  {
    SortedTableInOrder(mbr, sorted);
    PartitionsListed(sorted, |sorted|);
    TakenMembers(Areas(sorted, |sorted|), area);
    assert sorted[..|sorted|] == sorted;
    var k := ViewedFrom(sorted, area);
    assert FromSlot(mbr, sorted[k]);
  }

  lemma {:induction false} TakenMembers(areas: seq<Area>, area: Area)
    requires area in areas && !area.free
    ensures area in Taken(areas)
  {
    if area != areas[|areas| - 1] { TakenMembers(areas[..|areas| - 1], area); }
  }

  lemma {:induction false} ViewedFrom(s: seq<Partition>, area: Area) returns (k: nat)
    requires area in ViewAll(s)
    ensures k < |s| && View(s[k]) == area
  {
    if area == View(s[|s| - 1]) {
      k := |s| - 1;
    } else {
      k := ViewedFrom(s[..|s| - 1], area);
    }
  }

  lemma {:induction false} LoadedNotFree(mbr: Sector, sorted: seq<Partition>)
    requires Stable(Loaded(mbr, SLOTS), sorted)
    ensures |sorted| <= SLOTS && forall k :: 0 <= k < |sorted| ==> !sorted[k].free
  {
    SortedMembers(mbr, sorted);
    assert |multiset(sorted)| == |multiset(Loaded(mbr, SLOTS))|;
    forall k | 0 <= k < |sorted|
      ensures !sorted[k].free
    {
      assert sorted[k] in sorted;
    }
  }
}
