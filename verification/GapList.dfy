/** The list of partitions and of the free areas between them. */
module GapList {
  import opened Bytes
  import opened Layout
  import opened PartitionSort

  const SMALLEST_GAP := 2048
  const FIRST_FREE := 0x80

  /** What a listed area means; a free area has no place in the table. */
  datatype Area = Area(free: bool, lba: nat, length: nat, id: int)

  function View(p: Partition): Area { Area(p.free, p.lba, p.length, if p.free then -1 else p.internalID) }

  function ViewAll(s: seq<Partition>): seq<Area> {
    if s == [] then [] else ViewAll(s[..|s| - 1]) + [View(s[|s| - 1])]
  }

  function End(p: Partition): int { Wrap64(p.length + p.lba) }

  /** Where the gap behind partition `i` ends. */
  function GapEnd(parts: seq<Partition>, i: nat): int
    requires i < |parts|
  {
    if i + 1 == |parts| then DISK_END else parts[i + 1].lba
  }

  function Gap(parts: seq<Partition>, i: nat): int
    requires i < |parts|
  {
    Wrap64(GapEnd(parts, i) - End(parts[i]))
  }

  /** The areas listed for the first `n` partitions. */
  function Areas(parts: seq<Partition>, n: nat): (areas: seq<Area>)
    requires n <= |parts|
    ensures |areas| <= 2 * n
  {
    if n == 0 then []
    else
      var p := parts[n - 1];
      Areas(parts, n - 1) +
      if p.length == 0 || p.lba == 0 then []
      else [View(p)] + if Gap(parts, n - 1) >= SMALLEST_GAP
                       then [Area(true, End(p), Gap(parts, n - 1), -1)] else []
  }

  function Listing(parts: seq<Partition>): seq<Area> {
    if parts == [] then [Area(true, FIRST_FREE, DISK_END - FIRST_FREE, -1)] else Areas(parts, |parts|)
  }

  lemma {:induction false} ViewAllAt(s: seq<Partition>, i: nat)
    requires i < |s|
    ensures |ViewAll(s)| == |s| && ViewAll(s)[i] == View(s[i])
  {
    if i < |s| - 1 { ViewAllAt(s[..|s| - 1], i); } else if |s| > 1 { ViewAllAt(s[..|s| - 1], 0); }
  }

  lemma {:induction false} ViewOfMore(s: seq<Partition>, p: Partition)
    ensures ViewAll(s + [p]) == ViewAll(s) + [View(p)]
  {
    assert (s + [p])[..|s|] == s;
  }

  /** What a partition that is not skipped adds to the list. */
  lemma {:induction false} AreasStep(parts: seq<Partition>, n: nat)
    requires 0 < n <= |parts| && parts[n - 1].length != 0 && parts[n - 1].lba != 0
    ensures Areas(parts, n) == Areas(parts, n - 1) + [View(parts[n - 1])]
                               + if Gap(parts, n - 1) >= SMALLEST_GAP then [GapArea(parts, n - 1)] else []
  {
    var before, v := Areas(parts, n - 1), View(parts[n - 1]);
    assert before + ([v] + [GapArea(parts, n - 1)]) == before + [v] + [GapArea(parts, n - 1)];
    assert before + ([v] + []) == before + [v] + [];
  }

  /** The gap behind partition `i` as a free area. */
  function GapArea(parts: seq<Partition>, i: nat): Area
    requires i < |parts|
  {
    Area(true, End(parts[i]), Gap(parts, i), -1)
  }

  /** Writes the gap behind partition `i` to place `j`. */
  method SetGap(temp: array<Partition>, n: nat, i: nat, partitions: array<Partition>, j: nat)
    requires temp != partitions && i < n <= temp.Length && j < partitions.Length
    modifies partitions
    ensures View(partitions[j]) == GapArea(temp[..n], i)
    ensures forall k :: 0 <= k < partitions.Length && k != j ==> partitions[k] == old(partitions[k])
  {
    var lba: nat := Wrap64(temp[i].length + temp[i].lba);
    var length: nat;
    if i + 1 == n {
      length := Wrap64(DISK_END - Wrap64(temp[i].lba + temp[i].length));
    } else {
      length := Wrap64(temp[i + 1].lba - Wrap64(temp[i].lba + temp[i].length));
    }
    partitions[j] := partitions[j].(free := true, lba := lba, length := length);
  }

  /** The list grows by the partition, and by the gap behind it if that is large enough. */
  lemma {:induction false} ListedMore(parts: seq<Partition>, i: nat, front: seq<Partition>, gap: Partition)
    requires i < |parts| && parts[i].length != 0 && parts[i].lba != 0
    requires ViewAll(front) == Areas(parts, i) && View(gap) == GapArea(parts, i)
    ensures Areas(parts, i + 1) ==
            if gap.length >= SMALLEST_GAP then ViewAll(front + [parts[i]] + [gap]) else ViewAll(front + [parts[i]])
  {
    var before, v := Areas(parts, i), View(parts[i]);
    AreasStep(parts, i + 1);
    ViewOfMore(front, parts[i]);
    ViewOfMore(front + [parts[i]], gap);
    assert before + [v] + [] == before + [v];
  }

  lemma {:induction false} TwoMore(s: seq<Partition>, j: nat, front: seq<Partition>, p: Partition)
    requires j + 1 < |s| && s[..j] == front && s[j] == p
    ensures s[..j + 1] == front + [p] && s[..j + 2] == front + [p] + [s[j + 1]]
  {
  }

  /** One turn: the partition and the gap behind it go into the array; the gap stays if it is large enough. */
  method ListOne(temp: array<Partition>, n: nat, i: nat, partitions: array<Partition>, j: nat) returns (j': nat)
    requires temp != partitions && i < n <= temp.Length && j + 1 < partitions.Length
    requires j <= 2 * i && ViewAll(partitions[..j]) == Areas(temp[..n], i)
    modifies partitions
    ensures j <= j' <= j + 2 && j' <= partitions.Length && ViewAll(partitions[..j']) == Areas(temp[..n], i + 1)
    ensures partitions[..j] == old(partitions[..j])
    ensures forall k :: j <= k < j' && !partitions[k].free ==> partitions[k] == temp[i]
  {
    j' := j;
    if temp[i].length != 0 && temp[i].lba != 0 {
      ghost var front := partitions[..j];
      partitions[j'] := temp[i];
      j' := j' + 1;
      SetGap(temp, n, i, partitions, j');
      ListedMore(temp[..n], i, front, partitions[j']);
      TwoMore(partitions[..], j, front, temp[i]);
      if partitions[j'].length >= SMALLEST_GAP { j' := j' + 1; }
    }
  }

  /** Lists the sorted partitions with the free areas.  The fields of a free area that are not set keep what the
      array held. */
  method PutFreeAreasInGaps(temp: array<Partition>, n: nat, partitions: array<Partition>) returns (nextPartition: nat)
    requires temp != partitions && n <= temp.Length && 0 < partitions.Length && 2 * n <= partitions.Length
    requires forall k :: 0 <= k < n ==> !temp[k].free
    modifies partitions
    ensures nextPartition <= partitions.Length && ViewAll(partitions[..nextPartition]) == Listing(temp[..n])
    ensures forall k :: 0 <= k < nextPartition && !partitions[k].free ==> partitions[k] in temp[..n]
    ensures n == 0 ==>
              nextPartition == 1 && partitions[0].free && partitions[0].lba == 128 && partitions[0].length == 9999871
  {
    var j := 0;
    for i := 0 to n
      invariant j <= 2 * i && ViewAll(partitions[..j]) == Areas(temp[..n], i)
      invariant forall k :: 0 <= k < j && !partitions[k].free ==> partitions[k] in temp[..n]
    {
      j := ListOne(temp, n, i, partitions, j);
    }
    if n == 0 {
      partitions[j] := partitions[j].(free := true, lba := FIRST_FREE, length := DISK_END - FIRST_FREE);
      j := j + 1;
      assert partitions[..j][..0] == [];
    }
    nextPartition := j;
  }

  // --- what the list says ------------------------------------------------------------

  /** Partitions in order, none empty, none overlapping the next, all before the end of the disk. */
  ghost predicate InOrder(parts: seq<Partition>) {
    && (forall i :: 0 <= i < |parts| ==>
          !parts[i].free && parts[i].lba > 0 && parts[i].length > 0 && parts[i].lba + parts[i].length <= DISK_END)
    && forall i :: 0 <= i < |parts| - 1 ==> parts[i].lba + parts[i].length <= parts[i + 1].lba
  }

  function Total(areas: seq<Area>): nat {
    if areas == [] then 0 else Total(areas[..|areas| - 1]) + areas[|areas| - 1].length
  }

  /** The gaps too small to be listed. */
  function Dropped(parts: seq<Partition>, n: nat): nat
    requires n <= |parts|
  {
    if n == 0 then 0
    else Dropped(parts, n - 1) + if Gap(parts, n - 1) < SMALLEST_GAP then Gap(parts, n - 1) else 0
  }

  /** The start of partition `n`, or the end of the disk. */
  function StartOf(parts: seq<Partition>, n: nat): nat
    requires n <= |parts|
  {
    if n == |parts| then DISK_END else parts[n].lba
  }

  lemma {:induction false} ExactGap(parts: seq<Partition>, i: nat)
    requires InOrder(parts) && i < |parts|
    ensures End(parts[i]) == parts[i].lba + parts[i].length
    ensures Gap(parts, i) == StartOf(parts, i + 1) - (parts[i].lba + parts[i].length)
  {
  }

  lemma {:induction false} TotalOfMore(areas: seq<Area>, a: Area)
    ensures Total(areas + [a]) == Total(areas) + a.length
  {
    assert (areas + [a])[..|areas|] == areas;
  }

  /** Conservation: what is listed and what is dropped make up the disk from the first partition on. */
  lemma {:induction false} Conservation(parts: seq<Partition>, n: nat)
    requires InOrder(parts) && parts != [] && n <= |parts|
    ensures Total(Areas(parts, n)) + Dropped(parts, n) == StartOf(parts, n) - parts[0].lba
  {
    if n > 0 {
      Conservation(parts, n - 1);
      ExactGap(parts, n - 1);
      AreasStep(parts, n);
      TotalOfMore(Areas(parts, n - 1), View(parts[n - 1]));
      TotalOfMore(Areas(parts, n - 1) + [View(parts[n - 1])], GapArea(parts, n - 1));
      assert Areas(parts, n - 1) + [View(parts[n - 1])] + [] == Areas(parts, n - 1) + [View(parts[n - 1])];
    }
  }

  /** The listed areas stand in order and do not overlap; all lie between the first partition and the end. */
  lemma {:induction false} AreasAscend(parts: seq<Partition>, n: nat)
    requires InOrder(parts) && n <= |parts|
    ensures forall i, j :: 0 <= i < j < |Areas(parts, n)| ==>
                             Areas(parts, n)[i].lba + Areas(parts, n)[i].length <= Areas(parts, n)[j].lba
    ensures forall k :: 0 <= k < |Areas(parts, n)| ==>
                          && Areas(parts, n)[k].lba + Areas(parts, n)[k].length <= StartOf(parts, n)
                          && Areas(parts, n)[k].lba > 0 && Areas(parts, n)[k].length > 0
  {
    if n > 0 {
      AreasAscend(parts, n - 1);
      ExactGap(parts, n - 1);
      AreasStep(parts, n);
    }
  }

  function Taken(areas: seq<Area>): seq<Area> {
    if areas == [] then []
    else Taken(areas[..|areas| - 1]) + if areas[|areas| - 1].free then [] else [areas[|areas| - 1]]
  }

  lemma {:induction false} TakenOfMore(areas: seq<Area>, a: Area)
    ensures Taken(areas + [a]) == Taken(areas) + if a.free then [] else [a]
  {
    assert (areas + [a])[..|areas|] == areas;
  }

  /** Each partition is listed once, in order. */
  lemma {:induction false} PartitionsListed(parts: seq<Partition>, n: nat)
    requires InOrder(parts) && n <= |parts|
    ensures Taken(Areas(parts, n)) == ViewAll(parts[..n])
  {
    if n > 0 {
      PartitionsListed(parts, n - 1);
      AreasStep(parts, n);
      var before, v := Areas(parts, n - 1), View(parts[n - 1]);
      TakenOfMore(before, v);
      TakenOfMore(before + [v], GapArea(parts, n - 1));
      assert before + [v] + [] == before + [v];
      assert parts[..n] == parts[..n - 1] + [parts[n - 1]];
      ViewOfMore(parts[..n - 1], parts[n - 1]);
    }
  }

  /** A gap large enough to be listed. */
  ghost predicate IsGap(parts: seq<Partition>, i: nat, area: Area)
    requires i < |parts|
  {
    Gap(parts, i) >= SMALLEST_GAP && area == GapArea(parts, i)
  }

  ghost predicate HasGap(parts: seq<Partition>, n: nat, area: Area)
    requires n <= |parts|
  {
    exists i :: 0 <= i < n && IsGap(parts, i, area)
  }

  /** A free area is listed with partition `n` if it was listed before or is the gap behind it. */
  lemma {:induction false} ListedStep(parts: seq<Partition>, n: nat, area: Area)
    requires 0 < n <= |parts| && parts[n - 1].length != 0 && parts[n - 1].lba != 0 && !parts[n - 1].free && area.free
    ensures area in Areas(parts, n) <==> area in Areas(parts, n - 1) || IsGap(parts, n - 1, area)
  {
    AreasStep(parts, n);
  }

  lemma {:induction false} HasGapStep(parts: seq<Partition>, n: nat, area: Area)
    requires 0 < n <= |parts|
    ensures HasGap(parts, n, area) <==> HasGap(parts, n - 1, area) || IsGap(parts, n - 1, area)
  {
    if HasGap(parts, n, area) {
      var i :| 0 <= i < n && IsGap(parts, i, area);
      assert i == n - 1 || HasGap(parts, n - 1, area);
    }
  }

  /** Every listed free area is the whole gap behind a partition, and every gap that is large enough is listed. */
  lemma {:induction false} GapsListed(parts: seq<Partition>, n: nat, area: Area)
    requires InOrder(parts) && n <= |parts| && area.free
    ensures area in Areas(parts, n) <==> HasGap(parts, n, area)
  {
    if n > 0 {
      GapsListed(parts, n - 1, area);
      ListedStep(parts, n, area);
      HasGapStep(parts, n, area);
    }
  }

  // --- the list in numbers -----------------------------------------------------------

  /** What an array entry shows, and what the entry of the gap behind partition `i` shows. */
  lemma {:induction false} ShownExactly(parts: seq<Partition>, i: nat, p: Partition)
    requires i < |parts|
    ensures View(p).free == p.free && View(p).lba == p.lba && View(p).length == p.length
    ensures View(p).id == if p.free then -1 else p.internalID
    ensures View(p) == GapArea(parts, i) <==>
            && p.free && p.lba == (parts[i].lba + parts[i].length) % 18446744073709551616
            && p.length == ((if i + 1 < |parts| then parts[i + 1].lba else 9999999) - p.lba) % 18446744073709551616
  {
    assert parts[i].lba + parts[i].length == parts[i].length + parts[i].lba;
  }

  /** Without partitions the list is one free area, from sector 128 to sector 9999999. */
  lemma {:induction false} EmptyListing(area: Area)
    ensures area in Listing([]) <==> area.free && area.lba == 128 && area.length == 9999871 && area.id == -1
    ensures |Listing([])| == 1
  {
  }

  /** The end of the gap behind partition `i`: the next partition, or sector 9999999. */
  lemma {:induction false} IsGapExactly(parts: seq<Partition>, i: nat, area: Area)
    requires InOrder(parts) && i < |parts|
    ensures IsGap(parts, i, area) <==>
            && area.free && area.id == -1 && area.lba == parts[i].lba + parts[i].length
            && area.lba + area.length == (if i + 1 < |parts| then parts[i + 1].lba else 9999999) && area.length >= 2048
  {
    ExactGap(parts, i);
  }

  /** The free areas of the list, exactly: what lies between the end of a partition and the start of the next, or
      sector 9999999, if that is 2048 sectors or more. */
  lemma {:induction false} FreeAreasExactly(parts: seq<Partition>, area: Area)
    requires InOrder(parts) && parts != [] && area.free && area.id == -1
    ensures area in Listing(parts) <==>
            exists i :: 0 <= i < |parts| && area.lba == parts[i].lba + parts[i].length && area.length >= 2048
                        && area.lba + area.length == if i + 1 < |parts| then parts[i + 1].lba else 9999999
  {
    GapsListed(parts, |parts|, area);
    forall i | 0 <= i < |parts|
      ensures IsGap(parts, i, area) <==>
              && area.lba == parts[i].lba + parts[i].length && area.length >= 2048
              && area.lba + area.length == if i + 1 < |parts| then parts[i + 1].lba else 9999999
    {
      IsGapExactly(parts, i, area);
    }
  }

  /** The whole list: its lengths and the dropped gaps add up to what lies between the first partition and sector
      9999999. */
  lemma {:induction false} WholeConservation(parts: seq<Partition>)
    requires InOrder(parts) && parts != []
    ensures Total(Listing(parts)) + Dropped(parts, |parts|) == 9999999 - parts[0].lba
  {
    Conservation(parts, |parts|);
  }
}
