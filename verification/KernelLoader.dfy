/** Loading the kernel's ELF segments, and the kernel's memory as the processor then sees it. */
module KernelLoader {
  import opened Bytes
  import opened PageTables

  const KERNEL_SOURCE := 0x10_0000
  const MEGABYTE := 0x10_0000
  const PT_LOAD := 1

  /** A program header: 32 bytes. */
  datatype Segment = Segment(kind: nat, offset: nat, vaddr: nat, fileSize: nat, memSize: nat)

  function SegmentCount(file: seq<Byte>): nat
    requires 46 <= |file|
  {
    U16At(file, 44)
  }

  function HeaderAt(file: seq<Byte>, i: nat): nat
    requires 46 <= |file|
  {
    U32At(file, 28) + 32 * i
  }

  function SegmentAt(file: seq<Byte>, i: nat): Segment
    requires 46 <= |file| && HeaderAt(file, i) + 32 <= |file|
  {
    var h := HeaderAt(file, i);
    Segment(U32At(file, h), U32At(file, h + 4), U32At(file, h + 8), U32At(file, h + 16), U32At(file, h + 20))
  }

  /** The program headers: 32 bytes each, as many as bytes 44 and 45 say, from where bytes 28 to 31 say. */
  lemma {:induction false} HeadersExactly(file: seq<Byte>, i: nat)
    requires 46 <= |file| && U32At(file, 28) + 32 * i + 32 <= |file|
    ensures SegmentCount(file) == U16At(file, 44) && HeaderAt(file, i) == U32At(file, 28) + 32 * i
    ensures var h, s := U32At(file, 28) + 32 * i, SegmentAt(file, i);
            && s.kind == U32At(file, h) && s.offset == U32At(file, h + 4) && s.vaddr == U32At(file, h + 8)
            && s.fileSize == U32At(file, h + 16) && s.memSize == U32At(file, h + 20)
  {
  }

  /** The kernel file: its program headers are in it, and its segments lie in the kernel's megabyte.  A segment's
      bytes may lie beyond the first megabyte of the file. */
  ghost predicate IsKernelFile(file: seq<Byte>) {
    && |file| == MEGABYTE
    && HeaderAt(file, SegmentCount(file)) <= |file|
    && forall i :: 0 <= i < SegmentCount(file) && SegmentAt(file, i).kind == PT_LOAD ==> InWindow(SegmentAt(file, i))
  }

  predicate InWindow(s: Segment) {
    && HIGH <= s.vaddr && s.vaddr + s.memSize <= HIGH + WINDOW
    && s.fileSize <= s.memSize
  }

  /** Where a segment is copied from: the sum wraps around for a large offset. */
  function Source(s: Segment): nat { Wrap32(KERNEL_SOURCE + s.offset) }

  /** The test that stops the loader. */
  predicate TooBig(s: Segment) { Wrap32(Source(s) + s.fileSize) > KERNEL_DEST }

  /** A segment whose bytes are in the file's first megabyte. */
  predicate InFile(s: Segment) { s.offset + s.fileSize <= MEGABYTE }

  /** The test lets the segments of the file pass, and those whose end wraps around. */
  lemma {:induction false} TestPassesExactly(s: Segment)
    requires s.offset < WORD32 && s.fileSize <= WINDOW
    ensures !TooBig(s) <==> InFile(s) || 0x10_0000 + s.offset + s.fileSize >= 4294967296
    ensures InFile(s) <==> s.offset + s.fileSize <= 0x10_0000
    ensures InFile(s) ==> Source(s) == 0x10_0000 + s.offset && Source(s) + s.fileSize <= 0x20_0000
  {
    var a := KERNEL_SOURCE + s.offset;
    if a >= WORD32 { assert Source(s) == a - WORD32; } else { assert Source(s) == a; }
  }

  /** The load addresses of a segment. */
  function LoadStart(s: Segment): int { s.vaddr - HIGH + KERNEL_DEST }

  function LoadEnd(s: Segment): int { LoadStart(s) + s.memSize }

  /** The byte that belongs at offset `k` of a segment. */
  function SegmentByte(file: seq<Byte>, s: Segment, k: nat): Byte
    requires |file| == MEGABYTE && k < s.memSize
  {
    if k < s.fileSize && s.offset + k < |file| then file[s.offset + k] else 0
  }

  predicate Disjoint(s: Segment, t: Segment) { s.vaddr + s.memSize <= t.vaddr || t.vaddr + t.memSize <= s.vaddr }

  ghost predicate DisjointSegments(file: seq<Byte>)
    requires 46 <= |file| && HeaderAt(file, SegmentCount(file)) <= |file|
  {
    forall i, j :: 0 <= i < j < SegmentCount(file)
                   && SegmentAt(file, i).kind == PT_LOAD && SegmentAt(file, j).kind == PT_LOAD ==>
                     Disjoint(SegmentAt(file, i), SegmentAt(file, j))
  }

  /** Memory holds the segment where it is loaded. */
  ghost predicate Holds(mem: seq<Byte>, file: seq<Byte>, s: Segment)
    requires |file| == MEGABYTE && InWindow(s)
  {
    && KERNEL_DEST + WINDOW <= |mem|
    && forall p :: LoadStart(s) <= p < LoadEnd(s) ==> mem[p] == SegmentByte(file, s, p - LoadStart(s))
  }

  /** Segment `i` is loaded and its bytes are in the file. */
  predicate FromFile(file: seq<Byte>, i: nat)
    requires 46 <= |file| && HeaderAt(file, i) + 32 <= |file|
  {
    SegmentAt(file, i).kind == PT_LOAD && InFile(SegmentAt(file, i))
  }

  /** Of the first `n` segments, those from the file are in memory. */
  ghost predicate HoldsAll(mem: seq<Byte>, file: seq<Byte>, n: nat)
    requires IsKernelFile(file) && n <= SegmentCount(file)
  {
    forall i :: 0 <= i < n && FromFile(file, i) ==> Holds(mem, file, SegmentAt(file, i))
  }

  /** The loader's test stops at none of the first `n` segments. */
  ghost predicate AllPass(file: seq<Byte>, n: nat)
    requires IsKernelFile(file) && n <= SegmentCount(file)
  {
    forall i :: 0 <= i < n && SegmentAt(file, i).kind == PT_LOAD ==> !TooBig(SegmentAt(file, i))
  }

  /** The loading goes through exactly if the part of every segment is in the file's first megabyte, or its end wraps
      around. */
  lemma {:induction false} AllPassExactly(file: seq<Byte>, n: nat)
    requires IsKernelFile(file) && n <= SegmentCount(file)
    ensures AllPass(file, n) <==>
              forall i :: 0 <= i < n && SegmentAt(file, i).kind == 1 ==>
                            || SegmentAt(file, i).offset + SegmentAt(file, i).fileSize <= 0x10_0000
                            || 0x10_0000 + SegmentAt(file, i).offset + SegmentAt(file, i).fileSize >= 4294967296
  {
    forall i | 0 <= i < n && SegmentAt(file, i).kind == 1
      ensures !TooBig(SegmentAt(file, i)) <==>
                || SegmentAt(file, i).offset + SegmentAt(file, i).fileSize <= 0x10_0000
                || 0x10_0000 + SegmentAt(file, i).offset + SegmentAt(file, i).fileSize >= 4294967296
    {
      TestPassesExactly(SegmentAt(file, i));
    }
  }

  /** The highest end of the first `n` segments, but no lower than the kernel's place. */
  function HighestEnd(file: seq<Byte>, n: nat): int
    requires 46 <= |file| && n <= SegmentCount(file) && HeaderAt(file, SegmentCount(file)) <= |file|
  {
    if n == 0 then KERNEL_DEST
    else
      var before, s := HighestEnd(file, n - 1), SegmentAt(file, n - 1);
      if s.kind == PT_LOAD && LoadEnd(s) > before then LoadEnd(s) else before
  }

  /** The running maximum is a bound that a segment reaches, if it is not the start value. */
  lemma {:induction false} HighestEndIsMax(file: seq<Byte>, n: nat)
    requires 46 <= |file| && n <= SegmentCount(file) && HeaderAt(file, SegmentCount(file)) <= |file|
    ensures HighestEnd(file, n) >= 0x20_0000
    ensures forall i :: 0 <= i < n && SegmentAt(file, i).kind == 1 ==>
                          var s := SegmentAt(file, i); s.vaddr + s.memSize - 0xBFE0_0000 <= HighestEnd(file, n)
    ensures HighestEnd(file, n) == 0x20_0000
            || exists i :: 0 <= i < n && SegmentAt(file, i).kind == 1
                           && SegmentAt(file, i).vaddr + SegmentAt(file, i).memSize - 0xBFE0_0000 == HighestEnd(file, n)
  {
    if n > 0 { HighestEndIsMax(file, n - 1); }
  }

  // --- copying --------------------------------------------------------------------------

  /** Copies forward byte by byte; source and destination may overlap, and then nothing is said of the result. */
  method Memcpy(mem: array<Byte>, destination: nat, source: nat, num: nat)
    requires destination + num <= mem.Length && source + num <= mem.Length
    modifies mem
    ensures SameOutside(mem[..], old(mem[..]), destination, destination + num)
    ensures source + num <= destination ==>
              forall k :: destination <= k < destination + num ==> mem[k] == old(mem[source + (k - destination)])
  {
    for i := 0 to num
      invariant SameOutside(mem[..], old(mem[..]), destination, destination + i)
      invariant source + num <= destination ==>
                  forall k :: destination <= k < destination + i ==> mem[k] == old(mem[source + (k - destination)])
    {
      mem[destination + i] := mem[source + i];
    }
  }

  method Memset(mem: array<Byte>, b: nat, c: Byte, len: nat)
    requires b + len <= mem.Length
    modifies mem
    ensures SameOutside(mem[..], old(mem[..]), b, b + len)
    ensures forall k :: b <= k < b + len ==> mem[k] == c
  {
    for i := 0 to len
      invariant SameOutside(mem[..], old(mem[..]), b, b + i)
      invariant forall k :: b <= k < b + i ==> mem[k] == c
    {
      mem[b + i] := c;
    }
  }

  // --- loading --------------------------------------------------------------------------

  /** The part of memory that the kernel file was read to. */
  function FileIn(mem: seq<Byte>): (file: seq<Byte>)
    requires KERNEL_DEST <= |mem|
    ensures |file| == MEGABYTE
  {
    mem[KERNEL_SOURCE..KERNEL_SOURCE + MEGABYTE]
  }

  /** Memory reaches past the kernel's megabyte and past everything that a segment is copied from. */
  ghost predicate MemoryReaches(file: seq<Byte>, length: nat)
    requires IsKernelFile(file)
  {
    && KERNEL_DEST + WINDOW <= length
    && forall i :: 0 <= i < SegmentCount(file) && SegmentAt(file, i).kind == PT_LOAD ==>
                     Source(SegmentAt(file, i)) + SegmentAt(file, i).fileSize <= length
  }

  /** Loading a segment leaves the file alone. */
  lemma {:induction false} FileKept(mem: seq<Byte>, before: seq<Byte>)
    requires KERNEL_DEST + WINDOW <= |before| && SameOutside(mem, before, KERNEL_DEST, KERNEL_DEST + WINDOW)
    ensures FileIn(mem) == FileIn(before)
  {
  }

  lemma {:induction false} HoldsKept(mem: seq<Byte>, before: seq<Byte>, file: seq<Byte>, s: Segment, t: Segment)
    requires |file| == MEGABYTE && InWindow(s) && InWindow(t) && Holds(before, file, s) && Disjoint(s, t)
    requires SameOutside(mem, before, LoadStart(t), LoadEnd(t))
    ensures Holds(mem, file, s)
  {
  }

  lemma {:induction false} HoldsOneMore(mem: seq<Byte>, before: seq<Byte>, file: seq<Byte>, n: nat)
    requires IsKernelFile(file) && DisjointSegments(file) && n < SegmentCount(file) && HoldsAll(before, file, n)
    requires if SegmentAt(file, n).kind == PT_LOAD
             then (InFile(SegmentAt(file, n)) ==> Holds(mem, file, SegmentAt(file, n)))
                  && SameOutside(mem, before, LoadStart(SegmentAt(file, n)), LoadEnd(SegmentAt(file, n)))
             else mem == before
    ensures HoldsAll(mem, file, n + 1)
  {
    if SegmentAt(file, n).kind == PT_LOAD {
      forall i | 0 <= i < n && FromFile(file, i)
        ensures Holds(mem, file, SegmentAt(file, i))
      {
        HoldsKept(mem, before, file, SegmentAt(file, i), SegmentAt(file, n));
      }
    }
  }

  class Loader {
    const mem: array<Byte>
    var highestFreeAddress: nat

    constructor (mem: array<Byte>)
      ensures this.mem == mem && highestFreeAddress == KERNEL_DEST
    {
      this.mem, highestFreeAddress := mem, KERNEL_DEST;
    }

    /** Copies a segment to its place and clears what its file bytes do not fill. */
    method LoadSegment(s: Segment, ghost file: seq<Byte>)
      requires InWindow(s) && s.offset < WORD32 && KERNEL_DEST + WINDOW <= mem.Length && file == FileIn(mem[..])
      requires Source(s) + s.fileSize <= mem.Length
      modifies mem
      ensures SameOutside(mem[..], old(mem[..]), LoadStart(s), LoadEnd(s))
      ensures InFile(s) ==> Holds(mem[..], file, s)
      ensures forall p :: s.vaddr + s.fileSize - 0xBFE0_0000 <= p < s.vaddr + s.memSize - 0xBFE0_0000 ==> mem[p] == 0
    {
      var destination := s.vaddr - HIGH + KERNEL_DEST;
      var additionalNullBytes := s.memSize - s.fileSize;
      ghost var before := mem[..];
      TestPassesExactly(s);
      Memcpy(mem, destination, Source(s), s.fileSize);
      ghost var copied := mem[..];
      Memset(mem, s.vaddr + s.fileSize - HIGH + KERNEL_DEST, 0, additionalNullBytes);
      if InFile(s) {
        forall p | LoadStart(s) <= p < LoadEnd(s)
          ensures mem[p] == SegmentByte(file, s, p - LoadStart(s))
        {
          if p < LoadStart(s) + s.fileSize {
            assert mem[p] == copied[p] == before[KERNEL_SOURCE + s.offset + (p - LoadStart(s))];
          }
        }
      }
    }

    /** Loading a segment leaves the file alone. */
    method PlaceSegment(s: Segment, ghost file: seq<Byte>)
      requires InWindow(s) && s.offset < WORD32 && KERNEL_DEST + WINDOW <= mem.Length && file == FileIn(mem[..])
      requires Source(s) + s.fileSize <= mem.Length
      modifies mem
      ensures SameOutside(mem[..], old(mem[..]), LoadStart(s), LoadEnd(s)) && FileIn(mem[..]) == file
      ensures SameOutside(mem[..], old(mem[..]), KERNEL_DEST, KERNEL_DEST + WINDOW)
      ensures InFile(s) ==> Holds(mem[..], file, s)
    {
      LoadSegment(s, file);
      FileKept(mem[..], old(mem[..]));
    }

    /** Loads the segments in turn; it stops at the first that the test finds too big. */
    method LoadKernel32() returns (ok: bool)
      requires KERNEL_DEST + WINDOW <= mem.Length && highestFreeAddress == KERNEL_DEST
      requires var file := FileIn(mem[..]);
               IsKernelFile(file) && DisjointSegments(file) && MemoryReaches(file, mem.Length)
      modifies this`highestFreeAddress, mem
      ensures var file := old(FileIn(mem[..]));
              && (ok <==> AllPass(file, SegmentCount(file)))
              && (ok ==> HoldsAll(mem[..], file, SegmentCount(file))
                         && highestFreeAddress == HighestEnd(file, SegmentCount(file)))
      ensures SameOutside(mem[..], old(mem[..]), KERNEL_DEST, KERNEL_DEST + WINDOW)
    {
      ghost var file := FileIn(mem[..]);
      ghost var start := mem[..];
      var count := U16At(mem[..], KERNEL_SOURCE + 44);
      var headers := U32At(mem[..], KERNEL_SOURCE + 28);
      for i := 0 to count
        invariant count == SegmentCount(file) && headers == U32At(file, 28)
        invariant SameOutside(mem[..], start, KERNEL_DEST, KERNEL_DEST + WINDOW) && LoadedTo(file, i)
        invariant AllPass(file, i)
      {
        ok := LoadNext(headers, i, file);
        if !ok { return; }
      }
      ok := true;
    }

    /** The first `n` segments are in memory and counted; the file is as it was. */
    ghost predicate LoadedTo(file: seq<Byte>, n: nat)
      reads this, mem
    {
      && KERNEL_DEST + WINDOW <= mem.Length && FileIn(mem[..]) == file
      && IsKernelFile(file) && DisjointSegments(file) && MemoryReaches(file, mem.Length)
      && n <= SegmentCount(file) && HoldsAll(mem[..], file, n) && highestFreeAddress == HighestEnd(file, n)
    }

    /** One turn of the loop: false if the segment is too big. */
    method LoadNext(headers: nat, i: nat, ghost file: seq<Byte>) returns (ok: bool)
      requires LoadedTo(file, i) && i < SegmentCount(file) && headers == U32At(file, 28)
      modifies this`highestFreeAddress, mem
      ensures ok <==> (SegmentAt(file, i).kind == PT_LOAD ==> !TooBig(SegmentAt(file, i)))
      ensures ok ==> LoadedTo(file, i + 1)
      ensures SameOutside(mem[..], old(mem[..]), KERNEL_DEST, KERNEL_DEST + WINDOW)
    {
      ghost var before := mem[..];
      var s := ReadSegment(KERNEL_SOURCE + headers + 32 * i);
      SameSegment(mem[..], file, i);
      if s.kind == PT_LOAD {
        PlaceSegment(s, file);
        if Wrap32(Wrap32(KERNEL_SOURCE + s.offset) + s.fileSize) > KERNEL_DEST { return false; }
        var end := s.vaddr - HIGH + KERNEL_DEST + s.fileSize + (s.memSize - s.fileSize);
        if end > highestFreeAddress { highestFreeAddress := end; }
      }
      HoldsOneMore(mem[..], before, file, i);
      ok := true;
    }

    method ReadSegment(h: nat) returns (s: Segment)
      requires h + 32 <= mem.Length
      ensures s == Segment(U32At(mem[..], h), U32At(mem[..], h + 4), U32At(mem[..], h + 8), U32At(mem[..], h + 16),
                           U32At(mem[..], h + 20))
    {
      s := Segment(U32At(mem[..], h), U32At(mem[..], h + 4), U32At(mem[..], h + 8), U32At(mem[..], h + 16),
                   U32At(mem[..], h + 20));
    }
  }

  lemma {:induction false} SameSegment(mem: seq<Byte>, file: seq<Byte>, i: nat)
    requires KERNEL_DEST <= |mem| && file == FileIn(mem) && HeaderAt(file, i) + 32 <= |file|
    ensures var h := KERNEL_SOURCE + HeaderAt(file, i);
            Segment(U32At(mem, h), U32At(mem, h + 4), U32At(mem, h + 8), U32At(mem, h + 16), U32At(mem, h + 20))
            == SegmentAt(file, i)
  {
  }

  // --- the kernel as the processor sees it ----------------------------------------------

  /** Every address of the segment leads to the byte that belongs there. */
  ghost predicate Mapped(mem: seq<Byte>, file: seq<Byte>, s: Segment)
    requires |file| == MEGABYTE && InWindow(s) && DIRECTORY + 0x1000 <= |mem|
  {
    forall k :: 0 <= k < s.memSize ==> MappedAt(mem, file, s, k)
  }

  ghost predicate MappedAt(mem: seq<Byte>, file: seq<Byte>, s: Segment, k: nat)
    requires |file| == MEGABYTE && InWindow(s) && k < s.memSize && DIRECTORY + 0x1000 <= |mem|
  {
    var t := Walk(mem, DIRECTORY, s.vaddr + k);
    t.Physical? && t.address < |mem| && mem[t.address] == SegmentByte(file, s, k)
  }

  /** What the processor reads at a virtual address. */
  function Seen(mem: seq<Byte>, va: nat): Option<Byte>
    requires va < WORD32 && 0x2000 <= |mem|
  {
    match Walk(mem, 0x1000, va)
    case Physical(address) => if address < |mem| then Some(mem[address]) else None
    case _ => None
  }

  /** A mapped segment as it is seen: the file's bytes, then zeros. */
  lemma {:induction false} SegmentIsSeen(mem: seq<Byte>, file: seq<Byte>, s: Segment, va: nat)
    requires |file| == 0x10_0000 && InWindow(s) && 0x2000 <= |mem| && Mapped(mem, file, s)
    requires s.vaddr <= va < s.vaddr + s.memSize && s.offset + s.fileSize <= 0x10_0000
    ensures Seen(mem, va) == Some(if va - s.vaddr < s.fileSize then file[s.offset + (va - s.vaddr)] else 0)
  {
    assert MappedAt(mem, file, s, va - s.vaddr);
  }

  lemma {:induction false} HeldIsMapped(mem: seq<Byte>, file: seq<Byte>, s: Segment)
    requires |file| == MEGABYTE && InWindow(s) && Holds(mem, file, s) && TablesBuilt(mem)
    ensures Mapped(mem, file, s)
  {
    forall k | 0 <= k < s.memSize
      ensures MappedAt(mem, file, s, k)
    {
      WalkExactly(mem, s.vaddr + k);
      assert mem[LoadStart(s) + k] == SegmentByte(file, s, k);
    }
  }

  /** Through the page tables every address of every segment from the file reads the file's byte, or zero past the
      file's bytes. */
  ghost predicate MappedAll(mem: seq<Byte>, file: seq<Byte>)
    requires IsKernelFile(file) && DIRECTORY + 0x1000 <= |mem|
  {
    forall i :: 0 <= i < SegmentCount(file) && FromFile(file, i) ==> Mapped(mem, file, SegmentAt(file, i))
  }

  lemma {:induction false} KernelIsSeen(mem: seq<Byte>, file: seq<Byte>)
    requires IsKernelFile(file) && 0x2000 <= |mem| && MappedAll(mem, file)
    ensures forall i, va ::
              0 <= i < SegmentCount(file) && SegmentAt(file, i).kind == 1
              && SegmentAt(file, i).offset + SegmentAt(file, i).fileSize <= 0x10_0000
              && SegmentAt(file, i).vaddr <= va < SegmentAt(file, i).vaddr + SegmentAt(file, i).memSize ==>
                Seen(mem, va) == Some(if va - SegmentAt(file, i).vaddr < SegmentAt(file, i).fileSize
                                      then file[SegmentAt(file, i).offset + (va - SegmentAt(file, i).vaddr)] else 0)
  {
    forall i, va | 0 <= i < SegmentCount(file) && SegmentAt(file, i).kind == 1
                   && SegmentAt(file, i).offset + SegmentAt(file, i).fileSize <= 0x10_0000
                   && SegmentAt(file, i).vaddr <= va < SegmentAt(file, i).vaddr + SegmentAt(file, i).memSize
      ensures Seen(mem, va) == Some(if va - SegmentAt(file, i).vaddr < SegmentAt(file, i).fileSize
                                    then file[SegmentAt(file, i).offset + (va - SegmentAt(file, i).vaddr)] else 0)
    {
      assert FromFile(file, i);
      SegmentIsSeen(mem, file, SegmentAt(file, i), va);
    }
  }

  /** Loads the kernel, then builds the page tables: the tables leave the kernel alone, and through them the processor
      sees every segment. */
  method BootKernel(loader: Loader) returns (ok: bool)
    requires KERNEL_DEST + WINDOW <= loader.mem.Length && loader.highestFreeAddress == KERNEL_DEST
    requires var file := FileIn(loader.mem[..]);
             IsKernelFile(file) && DisjointSegments(file) && MemoryReaches(file, loader.mem.Length)
    modifies loader, loader.mem
    ensures var file := old(FileIn(loader.mem[..]));
            && (ok <==> AllPass(file, SegmentCount(file)))
            && (ok ==> MappedAll(loader.mem[..], file)
                       && loader.highestFreeAddress == HighestEnd(file, SegmentCount(file)))
    ensures var file := old(FileIn(loader.mem[..]));
            ok ==> forall i, va ::
                     0 <= i < SegmentCount(file) && SegmentAt(file, i).kind == 1
                     && SegmentAt(file, i).offset + SegmentAt(file, i).fileSize <= 0x10_0000
                     && SegmentAt(file, i).vaddr <= va < SegmentAt(file, i).vaddr + SegmentAt(file, i).memSize ==>
                       Seen(loader.mem[..], va) ==
                       Some(if va - SegmentAt(file, i).vaddr < SegmentAt(file, i).fileSize
                            then file[SegmentAt(file, i).offset + (va - SegmentAt(file, i).vaddr)] else 0)
  {
    ghost var file := FileIn(loader.mem[..]);
    ok := loader.LoadKernel32();
    if ok {
      ghost var loaded := loader.mem[..];
      BuildTables(loader.mem);
      forall i | 0 <= i < SegmentCount(file) && FromFile(file, i)
        ensures Mapped(loader.mem[..], file, SegmentAt(file, i))
      {
        assert Holds(loaded, file, SegmentAt(file, i));
        HeldIsMapped(loader.mem[..], file, SegmentAt(file, i));
      }
      KernelIsSeen(loader.mem[..], file);
    }
  }
}
