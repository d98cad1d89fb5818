/** The boot loader's page tables, and the processor's walk through them. */
module PageTables {
  import opened Bytes

  const KERNEL_DEST := 0x20_0000
  const DIRECTORY := 0x1000
  const LOW_TABLE := 0x3000
  const MIRROR_TABLE := 0x4000
  const KERNEL_TABLES := 0x10_0000
  const HIGH := 0xC000_0000
  const WINDOW := 0x10_0000

  /** Setting the three lowest bits. */
  function Or7(x: nat): nat { x / 8 * 8 + 7 }

  /** Entry `k` of the table at `base`. */
  function Entry(mem: seq<Byte>, base: nat, k: nat): nat
    requires base + 4 * k + 4 <= |mem|
  {
    U32At(mem, base + 4 * k)
  }

  /** The walk of 32-bit paging with 4K pages: the page directory at `directory`, then a page table. */
  function Walk(mem: seq<Byte>, directory: nat, va: nat): Translation
    requires va < WORD32 && directory + 0x1000 <= |mem|
  {
    WalkBy(mem, directory, va / 0x40_0000, va / 0x1000 % 0x400, va % 0x1000)
  }

  predicate IsPresent(e: nat) { e % 2 == 1 }

  /** The page that an entry points to. */
  function PageOf(e: nat): nat { e / 0x1000 * 0x1000 }

  /** The walk by the three parts of an address. */
  function WalkBy(mem: seq<Byte>, directory: nat, i: nat, k: nat, offset: nat): Translation
    requires i < 0x400 && k < 0x400 && directory + 0x1000 <= |mem|
  {
    var pde := Entry(mem, directory, i);
    var table := PageOf(pde);
    if !IsPresent(pde) then Fault
    else if table + 0x1000 > |mem| then OutsideMemory
    else
      var pte := Entry(mem, table, k);
      if IsPresent(pte) then Physical(PageOf(pte) + offset) else Fault
  }

  datatype Translation = Physical(address: nat) | Fault | OutsideMemory

  // --- what the loops write ---------------------------------------------------------------

  function IdentityEntry(k: nat): nat { Or7(k * 0x1000) }

  /** The kernel's megabyte is sent to where the kernel was loaded; what lies above is not moved. */
  function KernelEntry(k: nat): nat {
    var dest := HIGH + k * 0x1000;
    if dest < HIGH + WINDOW then Or7(dest) - HIGH + KERNEL_DEST else Or7(dest)
  }

  function DirectoryEntry(k: nat): nat {
    if k == 0 then 0x3007
    else if k == 0xC20 / 4 then 0x4007
    else if k == 0xFFF / 4 then 0x1007
    else if k >= 768 then Or7(KERNEL_TABLES + (k - 768) * 0x1000)
    else 6
  }

  ghost predicate Table(mem: seq<Byte>, base: nat, n: nat, entry: nat -> nat) {
    base + 4 * n <= |mem| && forall k :: 0 <= k < n ==> Entry(mem, base, k) == entry(k)
  }

  ghost predicate SameOutside(mem: seq<Byte>, before: seq<Byte>, base: nat, end: nat) {
    |mem| == |before| && forall p :: 0 <= p < |mem| && !(base <= p < end) ==> mem[p] == before[p]
  }

  lemma {:induction false} TableKept(mem: seq<Byte>, before: seq<Byte>, base: nat, n: nat, entry: nat -> nat, lo: nat,
                                     hi: nat)
    requires Table(before, base, n, entry) && SameOutside(mem, before, lo, hi)
    requires hi <= base || base + 4 * n <= lo
    ensures Table(mem, base, n, entry)
  {
    forall k | 0 <= k < n
      ensures Entry(mem, base, k) == entry(k)
    {
      assert Entry(before, base, k) == entry(k);
    }
  }

  lemma {:induction false} EntryKept(mem: seq<Byte>, before: seq<Byte>, base: nat, k: nat, lo: nat, hi: nat)
    requires base + 4 * k + 4 <= |before| && SameOutside(mem, before, lo, hi)
    requires hi <= base + 4 * k || base + 4 * k + 4 <= lo
    ensures Entry(mem, base, k) == Entry(before, base, k)
  {
  }

  /** Writes one entry of a table. */
  method Store(mem: array<Byte>, base: nat, i: nat, v: nat)
    requires base + 4 * i + 4 <= mem.Length && v < WORD32
    modifies mem
    ensures SameOutside(mem[..], old(mem[..]), base + 4 * i, base + 4 * i + 4)
    ensures Entry(mem[..], base, i) == v
  {
    var a, w := base + 4 * i, Word(v);
    mem[a] := w[0];
    mem[a + 1] := w[1];
    mem[a + 2] := w[2];
    mem[a + 3] := w[3];
    WordValue(v);
    assert Entry(mem[..], base, i) == U32At(w, 0);
  }

  /** Writes the next entry of a table that is filled in order. */
  method Append(mem: array<Byte>, base: nat, i: nat, v: nat, ghost n: nat, ghost entry: nat -> nat,
                ghost before: seq<Byte>)
    requires i < n && base + 4 * n <= mem.Length && v < WORD32 && v == entry(i)
    requires Table(mem[..], base, i, entry) && SameOutside(mem[..], before, base, base + 4 * n)
    modifies mem
    ensures Table(mem[..], base, i + 1, entry) && SameOutside(mem[..], before, base, base + 4 * n)
  {
    ghost var s := mem[..];
    Store(mem, base, i, v);
    TableKept(mem[..], s, base, i, entry, base + 4 * i, base + 4 * i + 4);
  }

  /** Maps the first four megabytes to themselves. */
  method FillIdentity(mem: array<Byte>, base: nat)
    requires base + 0x1000 <= mem.Length
    modifies mem
    ensures Table(mem[..], base, 1024, IdentityEntry)
    ensures SameOutside(mem[..], old(mem[..]), base, base + 0x1000)
  {
    for i := 0 to 1024
      invariant Table(mem[..], base, i, IdentityEntry) && SameOutside(mem[..], old(mem[..]), base, base + 0x1000)
    {
      Append(mem, base, i, Or7(i * 0x1000), 1024, IdentityEntry, old(mem[..]));
    }
  }

  /** Maps the kernel's gigabyte: 256 tables in a row. */
  method FillKernelTables(mem: array<Byte>)
    requires KERNEL_TABLES + 0x10_0000 <= mem.Length
    modifies mem
    ensures Table(mem[..], KERNEL_TABLES, 1024 * 256, KernelEntry)
    ensures SameOutside(mem[..], old(mem[..]), KERNEL_TABLES, KERNEL_TABLES + 0x10_0000)
  {
    var dest := HIGH;
    for i := 0 to 1024 * 256
      invariant dest == Wrap32(HIGH + i * 0x1000)
      invariant Table(mem[..], KERNEL_TABLES, i, KernelEntry)
      invariant SameOutside(mem[..], old(mem[..]), KERNEL_TABLES, KERNEL_TABLES + 0x10_0000)
    {
      var v := Or7(dest);
      if dest < HIGH + WINDOW {
        v := v - HIGH;
        v := v + KERNEL_DEST;
      }
      Append(mem, KERNEL_TABLES, i, v, 1024 * 256, KernelEntry, old(mem[..]));
      dest := Wrap32(dest + 4096);
    }
  }

  /** The page directory, empty but for the kernel's tables. */
  function BareDirectoryEntry(k: nat): nat {
    if k >= 768 then Or7(KERNEL_TABLES + (k - 768) * 0x1000) else 6
  }

  function PartDirectory(i: nat): nat -> nat {
    (k: nat) => if k < i then BareDirectoryEntry(k) else 6
  }

  function EmptyEntry(k: nat): nat { 6 }

  method FillEmpty(mem: array<Byte>)
    requires DIRECTORY + 0x1000 <= mem.Length
    modifies mem
    ensures Table(mem[..], DIRECTORY, 1024, EmptyEntry)
    ensures forall k :: 0 <= k < 1024 ==> Entry(mem[..], 0x1000, k) == 6
    ensures SameOutside(mem[..], old(mem[..]), DIRECTORY, DIRECTORY + 0x1000)
  {
    for i := 0 to 1024
      invariant Table(mem[..], DIRECTORY, i, EmptyEntry)
      invariant SameOutside(mem[..], old(mem[..]), DIRECTORY, DIRECTORY + 0x1000)
    {
      Append(mem, DIRECTORY, i, 6, 1024, EmptyEntry, old(mem[..]));
    }
  }

  /** Replaces one entry of a table. */
  method Replace(mem: array<Byte>, base: nat, n: nat, i: nat, v: nat, ghost entry: nat -> nat, ghost entry': nat -> nat)
    requires i < n && base + 4 * n <= mem.Length && v < WORD32 && Table(mem[..], base, n, entry)
    requires entry'(i) == v && forall k: nat :: k < n && k != i ==> entry'(k) == entry(k)
    modifies mem
    ensures Table(mem[..], base, n, entry')
    ensures SameOutside(mem[..], old(mem[..]), base, base + 4 * n)
  {
    Store(mem, base, i, v);
    forall k | 0 <= k < n
      ensures Entry(mem[..], base, k) == entry'(k)
    {
      if k != i { EntryKept(mem[..], old(mem[..]), base, k, base + 4 * i, base + 4 * i + 4); }
    }
  }

  /** Points the directory to the kernel's tables, to the two low tables and to itself. */
  method FillDirectory(mem: array<Byte>)
    requires DIRECTORY + 0x1000 <= mem.Length && Table(mem[..], DIRECTORY, 1024, EmptyEntry)
    modifies mem
    ensures Table(mem[..], DIRECTORY, 1024, DirectoryEntry)
    ensures SameOutside(mem[..], old(mem[..]), DIRECTORY, DIRECTORY + 0x1000)
  {
    var j := 0;
    for i := 768 to 1024
      invariant j == i - 768
      invariant Table(mem[..], DIRECTORY, 1024, PartDirectory(i))
      invariant SameOutside(mem[..], old(mem[..]), DIRECTORY, DIRECTORY + 0x1000)
    {
      Replace(mem, DIRECTORY, 1024, i, Or7(0x10_0000 + j * 4096),
              PartDirectory(i), PartDirectory(i + 1));
      j := j + 1;
    }
    ghost var d1 := (k: nat) => if k == 0 then 0x3007 else BareDirectoryEntry(k);
    ghost var d2 := (k: nat) => if k == 776 then 0x4007 else d1(k);
    Replace(mem, DIRECTORY, 1024, 0, 0x3007, PartDirectory(1024), d1);
    Replace(mem, DIRECTORY, 1024, 0xC20 / 4, 0x4007, d1, d2);
    Replace(mem, DIRECTORY, 1024, 0xFFF / 4, 0x1007, d2, DirectoryEntry);
  }

  ghost predicate TablesBuilt(mem: seq<Byte>) {
    && Table(mem, DIRECTORY, 1024, DirectoryEntry)
    && Table(mem, LOW_TABLE, 1024, IdentityEntry)
    && Table(mem, MIRROR_TABLE, 1024, IdentityEntry)
    && Table(mem, KERNEL_TABLES, 1024 * 256, KernelEntry)
  }

  /** Builds all tables.  Nothing from the kernel's place in memory on is touched. */
  method BuildTables(mem: array<Byte>)
    requires KERNEL_DEST <= mem.Length
    modifies mem
    ensures TablesBuilt(mem[..])
    ensures forall p :: KERNEL_DEST <= p < mem.Length ==> mem[p] == old(mem[p])
  {
    FillEmpty(mem);
    ghost var s1 := mem[..];
    FillIdentity(mem, LOW_TABLE);
    TableKept(mem[..], s1, DIRECTORY, 1024, EmptyEntry, LOW_TABLE, LOW_TABLE + 0x1000);
    ghost var s2 := mem[..];
    FillKernelTables(mem);
    TableKept(mem[..], s2, DIRECTORY, 1024, EmptyEntry, KERNEL_TABLES, KERNEL_TABLES + 0x10_0000);
    TableKept(mem[..], s2, LOW_TABLE, 1024, IdentityEntry, KERNEL_TABLES, KERNEL_TABLES + 0x10_0000);
    ghost var s3 := mem[..];
    FillIdentity(mem, MIRROR_TABLE);
    TableKept(mem[..], s3, DIRECTORY, 1024, EmptyEntry, MIRROR_TABLE, MIRROR_TABLE + 0x1000);
    TableKept(mem[..], s3, LOW_TABLE, 1024, IdentityEntry, MIRROR_TABLE, MIRROR_TABLE + 0x1000);
    TableKept(mem[..], s3, KERNEL_TABLES, 1024 * 256, KernelEntry, MIRROR_TABLE, MIRROR_TABLE + 0x1000);
    ghost var s4 := mem[..];
    FillDirectory(mem);
    TableKept(mem[..], s4, LOW_TABLE, 1024, IdentityEntry, DIRECTORY, DIRECTORY + 0x1000);
    TableKept(mem[..], s4, MIRROR_TABLE, 1024, IdentityEntry, DIRECTORY, DIRECTORY + 0x1000);
    TableKept(mem[..], s4, KERNEL_TABLES, 1024 * 256, KernelEntry, DIRECTORY, DIRECTORY + 0x1000);
  }

  // --- what the tables mean ---------------------------------------------------------------

  const MIRROR := 0xC200_0000
  const SELF := 0xFFC0_0000

  /** The address space: the first four megabytes as they are, the kernel's megabyte where the kernel was
      loaded, a second view of the first four megabytes, and the page directory as the last page table. */
  function AddressSpace(va: nat): Translation {
    if va < 0x40_0000 then Physical(va)
    else if va < HIGH then Fault
    else if va < HIGH + WINDOW then Physical(va - HIGH + KERNEL_DEST)
    else if MIRROR <= va < MIRROR + 0x40_0000 then Physical(va - MIRROR)
    else if SELF <= va then
      var e := DirectoryEntry((va - SELF) / 0x1000);
      if IsPresent(e) then Physical(PageOf(e) + va % 0x1000) else Fault
    else Physical(va)
  }

  lemma {:induction false} Or7Page(x: nat)
    requires x % 0x1000 == 0
    ensures Or7(x) == x + 7 && Or7(x) % 2 == 1 && Or7(x) / 0x1000 * 0x1000 == x
  {
  }

  /** The three parts of an address. */
  lemma {:induction false} Parts(va: nat)
    ensures va == va / 0x40_0000 * 0x40_0000 + va / 0x1000 % 0x400 * 0x1000 + va % 0x1000
  {
    assert va / 0x40_0000 == va / 0x1000 / 0x400;
  }

  lemma {:induction false} FlaggedPage(q: nat)
    ensures (0x1000 * q + 7) / 0x1000 == q
    ensures (0x1000 * q + 7) % 2 == 1
  {
  }

  lemma {:induction false} Flagged(page: nat)
    requires page % 0x1000 == 0
    ensures IsPresent(page + 7) && PageOf(page + 7) == page
  {
    var q := page / 0x1000;
    FlaggedPage(q);
    assert page == 0x1000 * q;
  }

  /** A walk that finds a table and a page. */
  lemma {:induction false} WalkFinds(mem: seq<Byte>, i: nat, k: nat, offset: nat, table: nat, page: nat)
    requires i < 0x400 && k < 0x400 && DIRECTORY + 0x1000 <= |mem| && table + 0x1000 <= |mem|
    requires table % 0x1000 == 0 && Entry(mem, DIRECTORY, i) == table + 7
    requires page % 0x1000 == 0 && Entry(mem, table, k) == page + 7
    ensures WalkBy(mem, DIRECTORY, i, k, offset) == Physical(page + offset)
  {
    Flagged(table);
    Flagged(page);
  }

  lemma {:induction false} LowEntry(mem: seq<Byte>, table: nat, k: nat)
    requires Table(mem, table, 1024, IdentityEntry) && k < 1024
    ensures Entry(mem, table, k) == k * 0x1000 + 7
  {
    Or7Page(k * 0x1000);
    assert Entry(mem, table, k) == IdentityEntry(k);
  }

  /** The page that the kernel's tables give for page `n` of the kernel's gigabyte. */
  function KernelPage(n: nat): nat {
    if n < 0x100 then KERNEL_DEST + n * 0x1000 else HIGH + n * 0x1000
  }

  lemma {:induction false} KernelPageAligned(n: nat)
    ensures KernelPage(n) % 0x1000 == 0
  {
  }

  lemma {:induction false} KernelEntryPage(n: nat)
    ensures KernelEntry(n) == KernelPage(n) + 7
  {
    Or7Page(HIGH + n * 0x1000);
  }

  /** The kernel's tables, one after the other, are one long table. */
  lemma {:induction false} InKernelTables(mem: seq<Byte>, j: nat, k: nat)
    requires Table(mem, KERNEL_TABLES, 1024 * 256, KernelEntry) && j < 256 && k < 1024
    ensures Entry(mem, KERNEL_TABLES + j * 0x1000, k) == KernelPage(j * 1024 + k) + 7
  {
    KernelEntryPage(j * 1024 + k);
    assert Entry(mem, KERNEL_TABLES, j * 1024 + k) == KernelEntry(j * 1024 + k);
  }

  lemma {:induction false} DirectoryEntryPage(i: nat)
    requires 768 <= i < 1023 && i != 776
    ensures DirectoryEntry(i) == KERNEL_TABLES + (i - 768) * 0x1000 + 7
  {
    Or7Page(KERNEL_TABLES + (i - 768) * 0x1000);
  }

  lemma {:induction false} SelfWalk(mem: seq<Byte>, k: nat, offset: nat)
    requires Table(mem, DIRECTORY, 1024, DirectoryEntry) && k < 1024
    ensures WalkBy(mem, DIRECTORY, 1023, k, offset) ==
            var e := DirectoryEntry(k); if IsPresent(e) then Physical(PageOf(e) + offset) else Fault
  {
    assert Entry(mem, DIRECTORY, 1023) == DirectoryEntry(1023);
    assert Entry(mem, DIRECTORY, k) == DirectoryEntry(k);
  }

  /** The walk by the parts of an address. */
  function SpaceBy(i: nat, k: nat, offset: nat): Translation {
    if i == 0 || i == 776 then Physical(k * 0x1000 + offset)
    else if i == 1023 then
      var e := DirectoryEntry(k); if IsPresent(e) then Physical(PageOf(e) + offset) else Fault
    else if i >= 768 then Physical(KernelPage((i - 768) * 1024 + k) + offset)
    else Fault
  }

  lemma {:induction false} LowWalk(mem: seq<Byte>, i: nat, k: nat, offset: nat, table: nat)
    requires i < 0x400 && k < 0x400 && DIRECTORY + 0x1000 <= |mem| && table % 0x1000 == 0
    requires Entry(mem, DIRECTORY, i) == table + 7 && Table(mem, table, 1024, IdentityEntry)
    ensures WalkBy(mem, DIRECTORY, i, k, offset) == Physical(k * 0x1000 + offset)
  {
    var page := k * 0x1000;
    assert page % 0x1000 == 0;
    LowEntry(mem, table, k);
    WalkFinds(mem, i, k, offset, table, page);
  }

  lemma {:induction false} KernelWalk(mem: seq<Byte>, j: nat, k: nat, offset: nat, table: nat)
    requires j < 256 && k < 0x400 && DIRECTORY + 0x1000 <= |mem| && table == KERNEL_TABLES + j * 0x1000
    requires Entry(mem, DIRECTORY, 768 + j) == table + 7 && Table(mem, KERNEL_TABLES, 1024 * 256, KernelEntry)
    ensures WalkBy(mem, DIRECTORY, 768 + j, k, offset) == Physical(KernelPage(j * 1024 + k) + offset)
  {
    var page := KernelPage(j * 1024 + k);
    KernelPageAligned(j * 1024 + k);
    assert table % 0x1000 == 0;
    InKernelTables(mem, j, k);
    WalkFinds(mem, 768 + j, k, offset, table, page);
  }

  lemma {:induction false} WalkByParts(mem: seq<Byte>, i: nat, k: nat, offset: nat)
    requires TablesBuilt(mem) && i < 0x400 && k < 0x400
    ensures WalkBy(mem, DIRECTORY, i, k, offset) == SpaceBy(i, k, offset)
  {
    assert Entry(mem, DIRECTORY, i) == DirectoryEntry(i);
    if i == 0 {
      LowWalk(mem, i, k, offset, LOW_TABLE);
    } else if i == 776 {
      LowWalk(mem, i, k, offset, MIRROR_TABLE);
    } else if i == 1023 {
      SelfWalk(mem, k, offset);
    } else if i >= 768 {
      DirectoryEntryPage(i);
      KernelWalk(mem, i - 768, k, offset, KERNEL_TABLES + (i - 768) * 0x1000);
    }
  }

  lemma {:induction false} SpaceOfParts(va: nat)
    requires va < WORD32
    ensures SpaceBy(va / 0x40_0000, va / 0x1000 % 0x400, va % 0x1000) == AddressSpace(va)
  {
    Parts(va);
    if va >= SELF { assert va / 0x1000 % 0x400 == (va - SELF) / 0x1000; }
  }

  /** The processor's walk gives the address space, for every 32-bit address. */
  lemma {:induction false} WalkExactly(mem: seq<Byte>, va: nat)
    requires TablesBuilt(mem) && va < WORD32
    ensures Walk(mem, DIRECTORY, va) == AddressSpace(va)
  {
    WalkByParts(mem, va / 0x40_0000, va / 0x1000 % 0x400, va % 0x1000);
    SpaceOfParts(va);
  }

  // --- in numbers -------------------------------------------------------------------------

  /** The four tables, entry by entry. */
  lemma {:induction false} TablesExactly(mem: seq<Byte>, k: nat, j: nat)
    requires TablesBuilt(mem) && k < 1024 && j < 262144 && 0x20_0000 <= |mem|
    ensures U32At(mem, 0x1000 + 4 * k) ==
            if k == 0 then 0x3007 else if k == 776 then 0x4007 else if k == 1023 then 0x1007
            else if k >= 768 then 0x10_0007 + (k - 768) * 0x1000 else 6
    ensures U32At(mem, 0x3000 + 4 * k) == k * 0x1000 + 7 && U32At(mem, 0x4000 + 4 * k) == k * 0x1000 + 7
    ensures U32At(mem, 0x10_0000 + 4 * j) == if j < 256 then 0x20_0007 + j * 0x1000 else 0xC000_0007 + j * 0x1000
  {
    assert Entry(mem, DIRECTORY, k) == DirectoryEntry(k);
    if k >= 768 && k != 776 && k != 1023 { DirectoryEntryPage(k); }
    LowEntry(mem, LOW_TABLE, k);
    LowEntry(mem, MIRROR_TABLE, k);
    assert Entry(mem, KERNEL_TABLES, j) == KernelEntry(j);
    KernelEntryPage(j);
  }

  /** The processor's walk from two entries: the upper ten bits of the address choose the first, the next ten the
      second, twelve are the place in the page; the lowest bit of an entry says that it is there. */
  lemma {:induction false} WalkFromEntries(mem: seq<Byte>, va: nat, pde: nat, pte: nat)
    requires va < 4294967296 && 0x2000 <= |mem| && pde / 0x1000 * 0x1000 + 0x1000 <= |mem|
    requires U32At(mem, 0x1000 + 4 * (va / 0x40_0000)) == pde
    requires U32At(mem, pde / 0x1000 * 0x1000 + 4 * (va / 0x1000 % 1024)) == pte
    ensures Walk(mem, 0x1000, va) ==
            if pde % 2 == 1 && pte % 2 == 1 then Physical(pte / 0x1000 * 0x1000 + va % 0x1000) else Fault
  {
  }

  /** The address space, region by region. */
  lemma {:induction false} AddressSpaceExactly(mem: seq<Byte>, va: nat)
    requires TablesBuilt(mem) && va < 4294967296
    ensures va < 0x40_0000 ==> Walk(mem, 0x1000, va) == Physical(va)
    ensures 0x40_0000 <= va < 0xC000_0000 ==> Walk(mem, 0x1000, va) == Fault
    ensures 0xC000_0000 <= va < 0xC010_0000 ==> Walk(mem, 0x1000, va) == Physical(va - 0xC000_0000 + 0x20_0000)
    ensures 0xC200_0000 <= va < 0xC240_0000 ==> Walk(mem, 0x1000, va) == Physical(va - 0xC200_0000)
    ensures 0xC010_0000 <= va < 0xC200_0000 || 0xC240_0000 <= va < 0xFFC0_0000 ==> Walk(mem, 0x1000, va) == Physical(va)
    ensures va >= 0xFFFF_F000 ==> Walk(mem, 0x1000, va) == Physical(0x1000 + va - 0xFFFF_F000)
  {
    WalkExactly(mem, va);
    if va >= 0xFFFF_F000 { LastPage(va); }
  }

  lemma {:induction false} LastPage(va: nat)
    requires 0xFFFF_F000 <= va < 4294967296
    ensures AddressSpace(va) == Physical(0x1000 + va - 0xFFFF_F000)
  {
    assert (va - SELF) / 0x1000 == 1023 && va % 0x1000 == va - 0xFFFF_F000;
  }
}
