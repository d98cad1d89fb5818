/** Bytes, 512-byte sectors, little-endian fields and C's unsigned wrap-around; and optional values. */
module Bytes {
  datatype Option<T> = None | Some(value: T)

  type Byte = x: int | 0 <= x < 256

  const SECTOR_BYTES := 512

  type Sector = s: seq<Byte> | |s| == 512 witness Zeros(512)

  function Zeros(n: nat): (s: seq<Byte>)
    ensures |s| == n && forall k :: 0 <= k < n ==> s[k] == 0
  {
    if n == 0 then [] else Zeros(n - 1) + [0]
  }

  function ZeroSector(): Sector { Zeros(SECTOR_BYTES) }

  const WORD32 := 0x1_0000_0000
  const WORD64 := 0x1_0000_0000_0000_0000

  function Pow2(n: nat): (p: nat)
    ensures p > 0
  {
    if n == 0 then 1 else 2 * Pow2(n - 1)
  }

  /** `v & (1 << j)`, read as a truth value. */
  predicate BitSet(v: nat, j: nat) {
    if j == 0 then v % 2 == 1 else BitSet(v / 2, j - 1)
  }

  /** The value that an unsigned 32-bit variable keeps. */
  function Wrap32(x: int): int { x % WORD32 }

  /** The value that an unsigned 64-bit variable keeps. */
  function Wrap64(x: int): int { x % WORD64 }

  lemma {:induction false} WrapNumbers(x: int)
    ensures Wrap32(x) == x % 4294967296 && Wrap64(x) == x % 18446744073709551616
  {
  }

  function U16At(s: seq<Byte>, off: nat): nat
    requires off + 2 <= |s|
  {
    (s[off] as int) + 0x100 * (s[off + 1] as int)
  }

  function U32At(s: seq<Byte>, off: nat): (v: nat)
    requires off + 4 <= |s|
    ensures v < WORD32
  {
    (s[off] as int) + 0x100 * (s[off + 1] as int) + 0x1_0000 * (s[off + 2] as int) + 0x100_0000 * (s[off + 3] as int)
  }

  /** The four bytes of a 32-bit value, lowest first. */
  function Word(v: nat): (w: seq<Byte>)
    requires v < WORD32
    ensures |w| == 4
  {
    [v % 0x100, v / 0x100 % 0x100, v / 0x1_0000 % 0x100, v / 0x100_0000]
  }

  function PutU32(s: seq<Byte>, off: nat, v: nat): (r: seq<Byte>)
    requires off + 4 <= |s| && v < WORD32
    ensures |r| == |s|
  {
    s[..off] + Word(v) + s[off + 4..]
  }

  lemma {:induction false} WordValue(v: nat)
    requires v < WORD32
    ensures U32At(Word(v), 0) == v
  {
    var a, b := v / 0x100, v / 0x1_0000;
    assert v == v % 0x100 + 0x100 * a;
    assert a == a % 0x100 + 0x100 * (a / 0x100) && a / 0x100 == b;
    assert b == b % 0x100 + 0x100 * (b / 0x100) && b / 0x100 == v / 0x100_0000;
  }

  /** A stored word reads back, and every other byte keeps its value. */
  lemma {:induction false} PutU32Reads(s: seq<Byte>, off: nat, v: nat)
    requires off + 4 <= |s| && v < WORD32
    ensures U32At(PutU32(s, off, v), off) == v
    ensures forall k :: 0 <= k < |s| && !(off <= k < off + 4) ==> PutU32(s, off, v)[k] == s[k]
  {
    WordValue(v);
  }

  lemma {:induction false} ZeroWord(s: seq<Byte>, off: nat)
    requires off + 4 <= |s| && U32At(s, off) == 0
    ensures s[off] == s[off + 1] == s[off + 2] == s[off + 3] == 0
  {
  }

  lemma {:induction false} ByteDigits(v: nat)
    ensures v == v % 256 + 256 * (v / 256 % 256) + 65536 * (v / 65536 % 256) + 16777216 * (v / 16777216)
  {
    var a, b := v / 256, v / 65536;
    assert v == v % 256 + 256 * a;
    assert a == a % 256 + 256 * b && a / 256 == b;
    assert b == b % 256 + 256 * (v / 16777216) && b / 256 == v / 16777216;
  }

  /** Two bytes, the lower one first, are a 16-bit field. */
  lemma {:induction false} HalfFromBytes(s: seq<Byte>, off: nat, v: nat)
    requires off + 2 <= |s| && v < 65536
    requires s[off] == v % 256 && s[off + 1] == v / 256
    ensures U16At(s, off) == v
  {
  }

  /** Four bytes, the lowest first, are a 32-bit field. */
  lemma {:induction false} WordFromBytes(s: seq<Byte>, off: nat, v: nat)
    requires off + 4 <= |s| && v < 4294967296
    requires s[off] == v % 256 && s[off + 1] == v / 256 % 256
    requires s[off + 2] == v / 65536 % 256 && s[off + 3] == v / 16777216
    ensures U32At(s, off) == v
  {
    ByteDigits(v);
  }
}
