/** The package format: a tree of folders as one string of tagged entries. */
module Cabinet {
  import opened Bytes

  const CREATE_FILE := 0xFB
  const UP_ONE := 0xFF
  const LARGEST_NAME_TAG := 0xFA

  datatype Node = Directory(name: seq<Byte>, children: seq<Node>) | File(name: seq<Byte>, data: seq<Byte>)

  /** The compressor and its inverse. */
  datatype Codec = Codec(zip: seq<Byte> -> seq<Byte>, unzip: seq<Byte> -> seq<Byte>)

  ghost predicate Inverse(c: Codec) {
    forall d: seq<Byte> :: c.unzip(c.zip(d)) == d
  }

  predicate Compresses(c: Codec, data: seq<Byte>) { |c.zip(data)| < |data| }

  function Stored(c: Codec, data: seq<Byte>): seq<Byte> {
    if Compresses(c, data) then c.zip(data) else data
  }

  function Sum(s: seq<Byte>): nat {
    if s == [] then 0 else Sum(s[..|s| - 1]) + (s[|s| - 1] as int)
  }

  /** The 24-bit checksum of a file's stored bytes. */
  function Checksum(stored: seq<Byte>): nat { (0x4E_5949 + Sum(stored)) % 0x100_0000 }

  function Low3(v: nat): seq<Byte> { [v % 0x100, v / 0x100 % 0x100, v / 0x1_0000 % 0x100] }

  /** Name, length, flags and checksum of a file; the header's own checksum follows it. */
  function Header(c: Codec, name: seq<Byte>, data: seq<Byte>): seq<Byte> {
    var stored := Stored(c, data);
    [CREATE_FILE, |name| % 0x100] + name + Low3(|stored|)
    + [|stored| / 0x100_0000 % 0x10 + if Compresses(c, data) then 0x80 else 0] + Low3(Checksum(stored))
  }

  function EncodeFile(c: Codec, name: seq<Byte>, data: seq<Byte>): seq<Byte> {
    Header(c, name, data) + [Sum(Header(c, name, data)) % 0x100] + Stored(c, data)
  }

  /** What the archiver can write at all: the length of a directory's name has to fit a character. */
  ghost predicate Writable(nodes: seq<Node>) {
    forall i :: 0 <= i < |nodes| ==>
                  match nodes[i]
                  case Directory(name, children) => |name| < 0x100 && Writable(children)
                  case File(_, _) => true
  }

  function EncodeNode(c: Codec, node: Node): seq<Byte>
    requires Writable([node])
    decreases node, 0
  {
    match node
    case File(name, data) => EncodeFile(c, name, data)
    case Directory(name, children) =>
      assert [node][0] == node;
      [|name|] + name + Encode(c, children)
  }

  /** A folder: its entries, then the tag that closes it. */
  function Encode(c: Codec, nodes: seq<Node>): seq<Byte>
    requires Writable(nodes)
    decreases nodes
  {
    if nodes == [] then [UP_ONE] else EncodeNode(c, nodes[0]) + Encode(c, nodes[1..])
  }

  // --- the encoding in numbers ------------------------------------------------------------

  /** Sums of bytes. */
  lemma {:induction false} SumLaws(a: seq<Byte>, b: Byte)
    ensures Sum([]) == 0 && Sum(a + [b]) == Sum(a) + b
  {
    assert (a + [b])[..|a|] == a;
  }

  /** A file's entry, byte by byte: it holds the compressed data exactly if those are shorter, with the highest bit of
      the flags set, and else the data; the length has 28 bits; the checksums are sums from 0x4E5949 and from 0. */
  lemma {:induction false} EntryExactly(c: Codec, name: seq<Byte>, data: seq<Byte>, e: seq<Byte>)
    requires e == EncodeFile(c, name, data)
    ensures var n := |name|;
            var stored := if |c.zip(data)| < |data| then c.zip(data) else data;
            && |e| == 10 + n + |stored| && e[0] == 251 && e[1] == n % 256 && e[2..2 + n] == name
            && e[2 + n] == |stored| % 256 && e[3 + n] == |stored| / 256 % 256 && e[4 + n] == |stored| / 65536 % 256
            && e[5 + n] == |stored| / 16777216 % 16 + (if |c.zip(data)| < |data| then 128 else 0)
            && (e[5 + n] >= 128 <==> |c.zip(data)| < |data|)
            && e[6 + n] == (5134665 + Sum(stored)) % 16777216 % 256
            && e[7 + n] == (5134665 + Sum(stored)) % 16777216 / 256 % 256
            && e[8 + n] == (5134665 + Sum(stored)) % 16777216 / 65536 % 256
            && e[9 + n] == Sum(e[..9 + n]) % 256
            && e[10 + n..] == stored
  {
    assert e[..9 + |name|] == Header(c, name, data);
  }

  /** A folder's encoding: that of its entries one after the other, then byte 255; a folder inside it stands as the
      length of its name, the name and its own encoding. */
  lemma {:induction false} FolderExactly(c: Codec, nodes: seq<Node>, name: seq<Byte>, children: seq<Node>)
    requires Writable(nodes) && Writable(children) && |name| < 256 && Writable([Directory(name, children)] + nodes)
    ensures Encode(c, []) == [255]
    ensures Encode(c, [Directory(name, children)] + nodes)
            == ([|name|] + name + Encode(c, children)) + Encode(c, nodes)
  {
    assert ([Directory(name, children)] + nodes)[1..] == nodes;
    assert ([Directory(name, children)] + nodes)[0] == Directory(name, children);
  }

  lemma {:induction false} FolderWithFile(c: Codec, nodes: seq<Node>, name: seq<Byte>, data: seq<Byte>)
    requires Writable(nodes) && Writable([File(name, data)] + nodes)
    ensures Encode(c, [File(name, data)] + nodes) == EncodeFile(c, name, data) + Encode(c, nodes)
  {
    assert ([File(name, data)] + nodes)[1..] == nodes;
    assert ([File(name, data)] + nodes)[0] == File(name, data);
  }

  // --- the reader, from the meaning of the tags -------------------------------------------

  function Value3(b: seq<Byte>, at: nat): nat
    requires at + 3 <= |b|
  {
    (b[at] as int) + 0x100 * (b[at + 1] as int) + 0x1_0000 * (b[at + 2] as int)
  }

  /** One file, if both checksums agree, and what follows it. */
  function DecodeFile(c: Codec, b: seq<Byte>): (r: Option<(Node, seq<Byte>)>)
    ensures r.Some? ==> |r.value.1| < |b|
  {
    if |b| < 2 || |b| < 10 + (b[1] as int) then None
    else
      var n, flags: nat := b[1] as int, b[5 + b[1] as int];
      var length := Value3(b, 2 + n) + flags % 0x10 * 0x100_0000;
      if Sum(b[..9 + n]) % 0x100 != b[9 + n] || |b| < 10 + n + length then None
      else
        var stored := b[10 + n..10 + n + length];
        if Checksum(stored) != Value3(b, 6 + n) then None
        else Some((File(b[2..2 + n], if flags >= 0x80 then c.unzip(stored) else stored), b[10 + n + length..]))
  }

  /** The entries of a folder up to its closing tag, and what follows it. */
  function Decode(c: Codec, b: seq<Byte>): (r: Option<(seq<Node>, seq<Byte>)>)
    ensures r.Some? ==> |r.value.1| < |b|
    decreases |b|
  {
    if b == [] then None
    else if b[0] == UP_ONE then Some(([], b[1..]))
    else if b[0] == CREATE_FILE then
      match DecodeFile(c, b)
      case None => None
      case Some((file, rest)) =>
        match Decode(c, rest)
        case None => None
        case Some((nodes, after)) => Some(([file] + nodes, after))
    else
      var n: nat := b[0];
      if n < 1 || LARGEST_NAME_TAG < n || |b| < 1 + n then None
      else
        match Decode(c, b[1 + n..])
        case None => None
        case Some((children, rest)) =>
          match Decode(c, rest)
          case None => None
          case Some((nodes, after)) => Some(([Directory(b[1..1 + n], children)] + nodes, after))
  }

  // --- round trip ---------------------------------------------------------------------

  /** Every folder's name has 1 to 250 characters, every file's up to 255. */
  ghost predicate NamesFit(nodes: seq<Node>) {
    forall i :: 0 <= i < |nodes| ==>
                  match nodes[i]
                  case Directory(name, children) => 1 <= |name| <= LARGEST_NAME_TAG && NamesFit(children)
                  case File(name, _) => |name| <= 0xFF
  }

  /** Every file's stored bytes fit the length field. */
  ghost predicate SizesFit(c: Codec, nodes: seq<Node>) {
    forall i :: 0 <= i < |nodes| ==>
                  match nodes[i]
                  case Directory(_, children) => SizesFit(c, children)
                  case File(_, data) => |Stored(c, data)| < 0x1000_0000
  }

  /** The trees that the format can hold. */
  ghost predicate Valid(c: Codec, nodes: seq<Node>) { NamesFit(nodes) && SizesFit(c, nodes) }

  lemma {:induction false} FittingIsWritable(nodes: seq<Node>)
    requires NamesFit(nodes)
    ensures Writable(nodes)
  {
    forall i | 0 <= i < |nodes|
      ensures match nodes[i]
              case Directory(name, children) => |name| < 0x100 && Writable(children)
              case File(_, _) => true
    {
      if nodes[i].Directory? { FittingIsWritable(nodes[i].children); }
    }
  }

  lemma {:induction false} DivideByBytes(v: nat)
    ensures v / 0x100 / 0x100 == v / 0x1_0000 && v / 0x1_0000 / 0x100 == v / 0x100_0000
  {
  }

  lemma {:induction false} Low3Sum(v: nat)
    ensures v % 0x100 + 0x100 * (v / 0x100 % 0x100) + 0x1_0000 * (v / 0x1_0000 % 0x100) == v % 0x100_0000
  {
    DivideByBytes(v);
    var a, b, d := v / 0x100, v / 0x1_0000, v / 0x100_0000;
    assert v == 0x100 * a + v % 0x100;
    assert a == 0x100 * b + a % 0x100;
    assert b == 0x100 * d + b % 0x100;
    assert v == 0x100_0000 * d + v % 0x100_0000;
  }

  lemma {:induction false} Low3Value(v: nat, b: seq<Byte>, at: nat)
    requires at + 3 <= |b| && b[at..at + 3] == Low3(v)
    ensures Value3(b, at) == v % 0x100_0000
  {
    Low3Sum(v);
    assert b[at] == b[at..at + 3][0] && b[at + 1] == b[at..at + 3][1] && b[at + 2] == b[at..at + 3][2];
  }

  /** The flags byte gives back the high bits of the length, up to 28 bits, and whether the data are compressed. */
  lemma {:induction false} FlagsValue(length: nat, compressed: bool)
    ensures var flags := length / 0x100_0000 % 0x10 + (if compressed then 0x80 else 0);
            && length % 0x100_0000 + flags % 0x10 * 0x100_0000 == length % 0x1000_0000
            && (flags >= 0x80 <==> compressed)
  {
  }

  /** `b` is an encoded file followed by `rest`: where its parts stand. */
  ghost predicate IsEntry(c: Codec, b: seq<Byte>, name: seq<Byte>, data: seq<Byte>, rest: seq<Byte>) {
    var n, stored := |name|, Stored(c, data);
    && |b| == 10 + n + |stored| + |rest| && b[0] == CREATE_FILE && b[1] == n
    && b[2..2 + n] == name && b[2 + n..5 + n] == Low3(|stored|)
    && b[5 + n] == |stored| / 0x100_0000 % 0x10 + (if Compresses(c, data) then 0x80 else 0)
    && b[6 + n..9 + n] == Low3(Checksum(stored))
    && b[9 + n] == Sum(b[..9 + n]) % 0x100
    && b[10 + n..10 + n + |stored|] == stored && b[10 + n + |stored|..] == rest
  }

  lemma {:induction false} FileParts(c: Codec, name: seq<Byte>, data: seq<Byte>, rest: seq<Byte>)
    requires |name| <= 0xFF
    ensures IsEntry(c, EncodeFile(c, name, data) + rest, name, data, rest)
  {
    assert (EncodeFile(c, name, data) + rest)[..9 + |name|] == Header(c, name, data);
  }

  /** What the reader makes of a string with these parts. */
  lemma {:induction false} DecodesFile(c: Codec, b: seq<Byte>, name: seq<Byte>, stored: seq<Byte>, data: seq<Byte>,
                                       rest: seq<Byte>)
    requires |name| <= 0xFF && |b| == 10 + |name| + |stored| + |rest| && b[1] == |name|
    requires b[2..2 + |name|] == name
    requires b[10 + |name|..10 + |name| + |stored|] == stored && b[10 + |name| + |stored|..] == rest
    requires Value3(b, 2 + |name|) + (b[5 + |name|] as int) % 0x10 * 0x100_0000 == |stored|
    requires Value3(b, 6 + |name|) == Checksum(stored) && b[9 + |name|] == Sum(b[..9 + |name|]) % 0x100
    requires data == if b[5 + |name|] >= 0x80 then c.unzip(stored) else stored
    ensures DecodeFile(c, b) == Some((File(name, data), rest))
  {
  }

  lemma {:induction false} StoredReads(c: Codec, data: seq<Byte>)
    requires Inverse(c)
    ensures data == if Compresses(c, data) then c.unzip(Stored(c, data)) else Stored(c, data)
  {
  }

  lemma {:induction false} DecodeAfterFile(c: Codec, b: seq<Byte>, file: Node, tail: seq<Byte>, nodes: seq<Node>,
                                           rest: seq<Byte>)
    requires b != [] && b[0] == CREATE_FILE && DecodeFile(c, b) == Some((file, tail))
    requires Decode(c, tail) == Some((nodes, rest))
    ensures Decode(c, b) == Some(([file] + nodes, rest))
  {
  }

  lemma {:induction false} DecodeAfterDirectory(c: Codec, b: seq<Byte>, children: seq<Node>, tail: seq<Byte>,
                                                nodes: seq<Node>, rest: seq<Byte>)
    requires b != [] && 1 <= b[0] <= LARGEST_NAME_TAG && 1 + (b[0] as int) <= |b|
    requires Decode(c, b[1 + b[0] as int..]) == Some((children, tail)) && Decode(c, tail) == Some((nodes, rest))
    ensures Decode(c, b) == Some(([Directory(b[1..1 + b[0] as int], children)] + nodes, rest))
  {
  }

  /** The length and the flag of an entry, as the reader computes them. */
  lemma {:induction false} EntryLength(b: seq<Byte>, at: nat, length: nat, compressed: bool)
    requires at + 4 <= |b| && b[at..at + 3] == Low3(length)
    requires b[at + 3] == length / 0x100_0000 % 0x10 + (if compressed then 0x80 else 0)
    ensures Value3(b, at) + (b[at + 3] as int) % 0x10 * 0x100_0000 == length % 0x1000_0000
    ensures b[at + 3] >= 0x80 <==> compressed
  {
    Low3Value(length, b, at);
    FlagsValue(length, compressed);
  }

  lemma {:induction false} TakenPart(b: seq<Byte>, stored: seq<Byte>, at: nat, length: nat)
    requires length <= |stored| && at + |stored| <= |b| && b[at..at + |stored|] == stored
    ensures b[at..at + length] == stored[..length]
  {
    assert b[at..at + length] == b[at..at + |stored|][..length];
  }

  /** What the reader finds in an entry: the name, the length modulo 2^28, the flag and that many stored bytes. */
  lemma {:induction false} EntryReadBack(c: Codec, b: seq<Byte>, name: seq<Byte>, data: seq<Byte>, tail: seq<Byte>,
                                         length: nat)
    requires |name| <= 0xFF && IsEntry(c, b, name, data, tail) && length == |Stored(c, data)| % 0x1000_0000
    ensures Value3(b, 2 + |name|) + (b[5 + |name|] as int) % 0x10 * 0x100_0000 == length
    ensures b[5 + |name|] >= 0x80 <==> Compresses(c, data)
    ensures b[1] == |name| && b[2..2 + |name|] == name && 10 + |name| + length <= |b|
    ensures b[10 + |name|..10 + |name| + length] == Stored(c, data)[..length]
  {
    EntryLength(b, 2 + |name|, |Stored(c, data)|, Compresses(c, data));
    TakenPart(b, Stored(c, data), 10 + |name|, length);
  }

  lemma {:induction false} FileRoundTrip(c: Codec, b: seq<Byte>, name: seq<Byte>, data: seq<Byte>, rest: seq<Byte>)
    requires Inverse(c) && |name| <= 0xFF && |Stored(c, data)| < 0x1000_0000 && IsEntry(c, b, name, data, rest)
    ensures DecodeFile(c, b) == Some((File(name, data), rest))
  {
    EntryChecks(c, b, name, data, rest);
    StoredReads(c, data);
    DecodesFile(c, b, name, Stored(c, data), data, rest);
  }

  /** With a length that fits, what the reader compares and computes agrees. */
  lemma {:induction false} EntryChecks(c: Codec, b: seq<Byte>, name: seq<Byte>, data: seq<Byte>, rest: seq<Byte>)
    requires |name| <= 0xFF && |Stored(c, data)| < 0x1000_0000 && IsEntry(c, b, name, data, rest)
    ensures Value3(b, 2 + |name|) + (b[5 + |name|] as int) % 0x10 * 0x100_0000 == |Stored(c, data)|
    ensures b[5 + |name|] >= 0x80 <==> Compresses(c, data)
    ensures Value3(b, 6 + |name|) == Checksum(Stored(c, data))
  {
    EntryLength(b, 2 + |name|, |Stored(c, data)|, Compresses(c, data));
    InRange(|Stored(c, data)|);
    Low3Value(Checksum(Stored(c, data)), b, 6 + |name|);
  }

  lemma {:induction false} InRange(length: nat)
    requires length < 0x1000_0000
    ensures length % 0x1000_0000 == length
  {
  }

  lemma {:induction false} DirectoryParts(name: seq<Byte>, inside: seq<Byte>, rest: seq<Byte>)
    requires 1 <= |name| < 0x100
    ensures var b: seq<Byte> := ([|name|] + name + inside) + rest;
            && 1 + |name| <= |b| && b[0] == |name| && b[1..1 + |name|] == name && b[1 + |name|..] == inside + rest
  {
  }

  lemma {:induction false} DirectoryPartsOf(b: seq<Byte>, name: seq<Byte>, inside: seq<Byte>, rest: seq<Byte>)
    requires 1 <= |name| < 0x100 && b == ([|name|] + name + inside) + rest
    ensures 1 + |name| <= |b| && b[0] == |name| && b[1..1 + |name|] == name && b[1 + |name|..] == inside + rest
  {
    DirectoryParts(name, inside, rest);
  }

  lemma {:induction false} FileFirst(c: Codec, name: seq<Byte>, data: seq<Byte>, tail: seq<Byte>, nodes: seq<Node>,
                                     rest: seq<Byte>)
    requires Inverse(c) && |name| <= 0xFF && |Stored(c, data)| < 0x1000_0000
    requires Decode(c, tail) == Some((nodes, rest))
    ensures Decode(c, EncodeFile(c, name, data) + tail) == Some(([File(name, data)] + nodes, rest))
  {
    FileParts(c, name, data, tail);
    FileRoundTrip(c, EncodeFile(c, name, data) + tail, name, data, tail);
    DecodeAfterFile(c, EncodeFile(c, name, data) + tail, File(name, data), tail, nodes, rest);
  }

  lemma {:induction false} DirectoryFirst(c: Codec, b: seq<Byte>, name: seq<Byte>, children: seq<Node>,
                                          inside: seq<Byte>, tail: seq<Byte>, nodes: seq<Node>, rest: seq<Byte>)
    requires b == ([|name|] + name + inside) + tail
    requires 1 <= |name| <= LARGEST_NAME_TAG && Decode(c, inside + tail) == Some((children, tail))
    requires Decode(c, tail) == Some((nodes, rest))
    ensures Decode(c, b) == Some(([Directory(name, children)] + nodes, rest))
  {
    DirectoryPartsOf(b, name, inside, tail);
    DecodeAfterDirectory(c, b, children, tail, nodes, rest);
  }

  lemma {:induction false} ValidFirst(c: Codec, nodes: seq<Node>)
    requires Valid(c, nodes) && nodes != []
    ensures Valid(c, nodes[1..])
    ensures match nodes[0]
            case Directory(name, children) => 1 <= |name| <= LARGEST_NAME_TAG && Valid(c, children)
            case File(name, data) => |name| <= 0xFF && |Stored(c, data)| < 0x1000_0000
  {
  }

  lemma {:induction false} Regroup(a: seq<Byte>, b: seq<Byte>, c: seq<Byte>)
    ensures (a + b) + c == a + (b + c)
  {
  }

  lemma {:induction false} EncodeFirst(c: Codec, nodes: seq<Node>, rest: seq<Byte>)
    requires Writable(nodes) && nodes != []
    ensures Writable(nodes[1..])
    ensures match nodes[0]
            case Directory(name, children) =>
              && |name| < 0x100 && Writable(children)
              && Encode(c, nodes) + rest == ([|name|] + name + Encode(c, children)) + (Encode(c, nodes[1..]) + rest)
            case File(name, data) =>
              Encode(c, nodes) + rest == EncodeFile(c, name, data) + (Encode(c, nodes[1..]) + rest)
  {
    Regroup(EncodeNode(c, nodes[0]), Encode(c, nodes[1..]), rest);
  }

  /** The encoding delimits itself: from any continuation the reader takes back the tree and leaves exactly
      what follows. */
  lemma {:induction false} RoundTrip(c: Codec, nodes: seq<Node>, rest: seq<Byte>)
    requires Inverse(c) && Valid(c, nodes)
    ensures Writable(nodes) && Decode(c, Encode(c, nodes) + rest) == Some((nodes, rest))
    decreases nodes
  {
    FittingIsWritable(nodes);
    if nodes == [] {
      assert ([UP_ONE] + rest)[1..] == rest;
    } else {
      var others := nodes[1..];
      ValidFirst(c, nodes);
      EncodeFirst(c, nodes, rest);
      RoundTrip(c, others, rest);
      var tail := Encode(c, others) + rest;
      assert [nodes[0]] + others == nodes;
      match nodes[0]
      case File(name, data) =>
        FileFirst(c, name, data, tail, others, rest);
      case Directory(name, children) =>
        RoundTrip(c, children, tail);
        DirectoryFirst(c, Encode(c, nodes) + rest, name, children, Encode(c, children), tail, others, rest);
    }
  }

  /** Distinct trees never encode alike, not even with something behind them. */
  lemma {:induction false} EncodingIsPrefixFree(c: Codec, a: seq<Node>, b: seq<Node>, after: seq<Byte>,
                                                after': seq<Byte>)
    requires Inverse(c) && Valid(c, a) && Valid(c, b) && Writable(a) && Writable(b)
    requires Encode(c, a) + after == Encode(c, b) + after'
    ensures a == b && after == after'
  {
    RoundTrip(c, a, after);
    RoundTrip(c, b, after');
  }

  // --- what the format cannot hold ----------------------------------------------------

  /** What the reader makes of a file's entry has a name that fits. */
  lemma {:induction false} DecodedFileFits(c: Codec, b: seq<Byte>)
    requires DecodeFile(c, b).Some?
    ensures DecodeFile(c, b).value.0.File? && |DecodeFile(c, b).value.0.name| <= 0xFF
  {
  }

  lemma {:induction false} FitsInFront(node: Node, nodes: seq<Node>)
    requires NamesFit(nodes)
    requires match node
             case Directory(name, children) => 1 <= |name| <= LARGEST_NAME_TAG && NamesFit(children)
             case File(name, _) => |name| <= 0xFF
    ensures NamesFit([node] + nodes)
  {
  }

  /** What a reading that goes through has read first: a file, or a folder. */
  lemma {:induction false} ReadFile(c: Codec, b: seq<Byte>) returns (file: Node, rest: seq<Byte>)
    requires b != [] && b[0] == CREATE_FILE && Decode(c, b).Some?
    ensures DecodeFile(c, b) == Some((file, rest)) && |rest| < |b| && Decode(c, rest).Some?
    ensures Decode(c, b).value == ([file] + Decode(c, rest).value.0, Decode(c, rest).value.1)
  {
    file, rest := DecodeFile(c, b).value.0, DecodeFile(c, b).value.1;
  }

  lemma {:induction false} FolderIsRead(c: Codec, b: seq<Byte>)
    requires b != [] && b[0] != CREATE_FILE && b[0] != UP_ONE && Decode(c, b).Some?
    ensures 1 <= b[0] <= LARGEST_NAME_TAG && 1 + (b[0] as int) <= |b|
    ensures Decode(c, b[1 + b[0] as int..]).Some?
    ensures Decode(c, Decode(c, b[1 + b[0] as int..]).value.1).Some?
  {
  }

  lemma {:induction false} ReadFolder(c: Codec, b: seq<Byte>)
    returns (inside: seq<Byte>, children: seq<Node>, rest: seq<Byte>, others: seq<Node>)
    requires b != [] && b[0] != CREATE_FILE && b[0] != UP_ONE && Decode(c, b).Some?
    ensures 1 <= b[0] <= LARGEST_NAME_TAG && 1 + (b[0] as int) <= |b| && inside == b[1 + b[0] as int..]
    ensures Decode(c, inside) == Some((children, rest)) && |rest| < |b|
    ensures Decode(c, rest) == Some((others, Decode(c, b).value.1))
    ensures Decode(c, b).value.0 == [Directory(b[1..1 + b[0] as int], children)] + others
  {
    FolderIsRead(c, b);
    inside := b[1 + b[0] as int..];
    children, rest := Decode(c, inside).value.0, Decode(c, inside).value.1;
    others := Decode(c, rest).value.0;
    DecodeAfterDirectory(c, b, children, rest, others, Decode(c, rest).value.1);
  }

  /** Whatever the reader accepts, the names in it fit. */
  lemma {:induction false} DecodedFits(c: Codec, b: seq<Byte>)
    requires Decode(c, b).Some?
    ensures NamesFit(Decode(c, b).value.0)
    decreases |b|
  {
    if b[0] == CREATE_FILE {
      var file, rest := ReadFile(c, b);
      DecodedFileFits(c, b);
      DecodedFits(c, rest);
      FitsInFront(file, Decode(c, rest).value.0);
    } else if b[0] != UP_ONE {
      var inside, children, rest, others := ReadFolder(c, b);
      DecodedFits(c, inside);
      DecodedFits(c, rest);
      FitsInFront(Directory(b[1..1 + b[0] as int], children), others);
    }
  }

  /** A compressed string that is cut short does not give back its data. */
  ghost predicate CutsShow(c: Codec) {
    forall d: seq<Byte>, k :: 0 <= k < |c.zip(d)| ==> c.unzip(c.zip(d)[..k]) != d
  }

  /** The reader takes as many bytes as the length says. */
  lemma {:induction false} ReadsFile(c: Codec, b: seq<Byte>, name: seq<Byte>, length: nat, file: Node)
    requires DecodeFile(c, b).Some? && file == DecodeFile(c, b).value.0 && b[1] == |name| && 10 + |name| <= |b|
    requires b[2..2 + |name|] == name
    requires Value3(b, 2 + |name|) + (b[5 + |name|] as int) % 0x10 * 0x100_0000 == length
    ensures 10 + |name| + length <= |b|
    ensures var taken := b[10 + |name|..10 + |name| + length];
            file == File(name, if b[5 + |name|] >= 0x80 then c.unzip(taken) else taken)
  {
  }

  /** A file that comes back unchanged from its first bytes, as many as the length field says, fits that field. */
  lemma {:induction false} TakenFits(c: Codec, data: seq<Byte>, file: Node)
    requires CutsShow(c)
    requires var taken := Stored(c, data)[..|Stored(c, data)| % 0x1000_0000];
             file.File? && file.data == (if Compresses(c, data) then c.unzip(taken) else taken)
    requires file.data == data
    ensures |Stored(c, data)| < 0x1000_0000
  {
  }

  /** A file that comes back unchanged fits the length field. */
  lemma {:induction false} ReadBackFits(c: Codec, b: seq<Byte>, name: seq<Byte>, data: seq<Byte>, tail: seq<Byte>,
                                        file: Node)
    requires CutsShow(c) && |name| <= 0xFF && IsEntry(c, b, name, data, tail)
    requires DecodeFile(c, b).Some? && file == DecodeFile(c, b).value.0 && file == File(name, data)
    ensures |Stored(c, data)| < 0x1000_0000
  {
    var length := |Stored(c, data)| % 0x1000_0000;
    EntryReadBack(c, b, name, data, tail, length);
    ReadsFile(c, b, name, length, file);
    TakenFits(c, data, file);
  }

  /** What is known of a file in front that comes back unchanged. */
  lemma {:induction false} FileSurvivor(c: Codec, name: seq<Byte>, data: seq<Byte>, tail: seq<Byte>, nodes: seq<Node>,
                                        left: seq<Byte>)
    requires Inverse(c) && CutsShow(c) && |name| <= 0xFF && nodes != [] && nodes[0] == File(name, data)
    requires Decode(c, EncodeFile(c, name, data) + tail) == Some((nodes, left))
    ensures |Stored(c, data)| < 0x1000_0000 && Decode(c, tail) == Some((nodes[1..], left))
  {
    var b := EncodeFile(c, name, data) + tail;
    FileParts(c, name, data, tail);
    var t := FileInFront(c, b, nodes, left);
    ReadBackFits(c, b, name, data, tail, nodes[0]);
    FileRoundTrip(c, b, name, data, tail);
  }

  /** And of a folder. */
  lemma {:induction false} FolderSurvivor(c: Codec, b: seq<Byte>, nodes: seq<Node>, left: seq<Byte>)
    returns (inside: seq<Byte>, t: seq<Byte>)
    requires b != [] && 1 <= b[0] <= LARGEST_NAME_TAG && 1 + (b[0] as int) <= |b|
    requires nodes != [] && nodes[0].Directory? && Decode(c, b) == Some((nodes, left))
    ensures inside == b[1 + b[0] as int..]
    ensures Decode(c, inside) == Some((nodes[0].children, t)) && Decode(c, t) == Some((nodes[1..], left))
  {
    var children, others;
    inside, children, t, others := ReadFolder(c, b);
    assert nodes == [Directory(b[1..1 + b[0] as int], children)] + others;
  }

  lemma {:induction false} FolderBehind(c: Codec, b: seq<Byte>, name: seq<Byte>, inside: seq<Byte>, tail: seq<Byte>,
                                        nodes: seq<Node>, left: seq<Byte>)
    returns (t: seq<Byte>)
    requires 1 <= |name| <= LARGEST_NAME_TAG && b == ([|name|] + name + inside) + tail
    requires nodes != [] && nodes[0].Directory? && Decode(c, b) == Some((nodes, left))
    ensures Decode(c, inside + tail) == Some((nodes[0].children, t)) && Decode(c, t) == Some((nodes[1..], left))
  {
    DirectoryPartsOf(b, name, inside, tail);
    var behind;
    behind, t := FolderSurvivor(c, b, nodes, left);
  }

  /** A tree that comes back unchanged, with whatever rest, has files that fit the length field. */
  lemma {:induction false} SurvivorFits(c: Codec, nodes: seq<Node>, rest: seq<Byte>, left: seq<Byte>)
    requires Inverse(c) && CutsShow(c) && NamesFit(nodes) && Writable(nodes)
    requires Decode(c, Encode(c, nodes) + rest) == Some((nodes, left))
    ensures SizesFit(c, nodes)
    decreases nodes
  {
    if nodes != [] {
      var others := nodes[1..];
      EncodeFirst(c, nodes, rest);
      NamesFirst(nodes);
      var b, tail := Encode(c, nodes) + rest, Encode(c, others) + rest;
      match nodes[0] {
      case File(name, data) =>
        FileSurvivor(c, name, data, tail, nodes, left);
      case Directory(name, children) =>
        var t := FolderBehind(c, b, name, Encode(c, children), tail, nodes, left);
        SurvivorFits(c, children, tail, t);
        RoundTrip(c, children, tail);
      }
      SurvivorFits(c, others, rest, left);
      SizesInFront(c, nodes);
    }
  }

  lemma {:induction false} NamesFirst(nodes: seq<Node>)
    requires NamesFit(nodes) && nodes != []
    ensures NamesFit(nodes[1..])
    ensures match nodes[0]
            case Directory(name, children) => 1 <= |name| <= LARGEST_NAME_TAG && NamesFit(children)
            case File(name, _) => |name| <= 0xFF
  {
  }

  /** The reader's first step on a file. */
  lemma {:induction false} FileInFront(c: Codec, b: seq<Byte>, nodes: seq<Node>, left: seq<Byte>)
    returns (t: seq<Byte>)
    requires b != [] && b[0] == CREATE_FILE && nodes != [] && Decode(c, b) == Some((nodes, left))
    ensures DecodeFile(c, b) == Some((nodes[0], t)) && Decode(c, t) == Some((nodes[1..], left))
  {
    var file;
    file, t := ReadFile(c, b);
    assert nodes == [file] + Decode(c, t).value.0;
  }

  lemma {:induction false} SizesInFront(c: Codec, nodes: seq<Node>)
    requires nodes != [] && SizesFit(c, nodes[1..])
    requires match nodes[0]
             case Directory(_, children) => SizesFit(c, children)
             case File(_, data) => |Stored(c, data)| < 0x1000_0000
    ensures SizesFit(c, nodes)
  {
    forall i | 0 <= i < |nodes|
      ensures match nodes[i]
              case Directory(_, children) => SizesFit(c, children)
              case File(_, data) => |Stored(c, data)| < 0x1000_0000
    {
      if i > 0 { assert nodes[i] == nodes[1..][i - 1]; }
    }
  }

  /** A tree survives exactly if the format can hold it: every name fits, and every file the length field. */
  lemma {:induction false} SurvivesExactly(c: Codec, nodes: seq<Node>, rest: seq<Byte>)
    requires Inverse(c) && CutsShow(c) && Writable(nodes)
    ensures Decode(c, Encode(c, nodes) + rest) == Some((nodes, rest)) <==> Valid(c, nodes)
  {
    if Valid(c, nodes) {
      RoundTrip(c, nodes, rest);
    } else if Decode(c, Encode(c, nodes) + rest) == Some((nodes, rest)) {
      DecodedFits(c, Encode(c, nodes) + rest);
      SurvivorFits(c, nodes, rest, rest);
    }
  }

  /** Whatever the compressor: where the files fit the length field, the names decide. */
  lemma {:induction false} NamesDecide(c: Codec, nodes: seq<Node>, rest: seq<Byte>)
    requires Inverse(c) && Writable(nodes) && SizesFit(c, nodes)
    ensures Decode(c, Encode(c, nodes) + rest) == Some((nodes, rest)) <==> NamesFit(nodes)
  {
    if NamesFit(nodes) {
      RoundTrip(c, nodes, rest);
    } else if Decode(c, Encode(c, nodes) + rest) == Some((nodes, rest)) {
      DecodedFits(c, Encode(c, nodes) + rest);
    }
  }

  /** A folder around a tree that fits: its name alone decides. */
  lemma {:induction false} DirectoryNameExactly(c: Codec, name: seq<Byte>, children: seq<Node>, rest: seq<Byte>)
    requires Inverse(c) && Valid(c, children) && Writable([Directory(name, children)])
    ensures Decode(c, Encode(c, [Directory(name, children)]) + rest) == Some(([Directory(name, children)], rest))
            <==> 1 <= |name| <= LARGEST_NAME_TAG
  {
    var nodes := [Directory(name, children)];
    assert nodes[0] == Directory(name, children);
    NamesDecide(c, nodes, rest);
  }

  lemma {:induction false} FileNameExactly(c: Codec, name: seq<Byte>, data: seq<Byte>, rest: seq<Byte>)
    requires Inverse(c) && |Stored(c, data)| < 0x1000_0000 && Writable([File(name, data)])
    ensures Decode(c, Encode(c, [File(name, data)]) + rest) == Some(([File(name, data)], rest)) <==> |name| <= 0xFF
  {
    var nodes := [File(name, data)];
    assert nodes[0] == File(name, data);
    NamesDecide(c, nodes, rest);
  }

  // --- the archiver --------------------------------------------------------------------

  method ChecksumOf(data: seq<Byte>) returns (checksum: nat)
    ensures checksum == Checksum(data)
  {
    checksum := 0x4E_5949;
    for i := 0 to |data|
      invariant checksum == Checksum(data[..i])
    {
      assert data[..i + 1][..i] == data[..i];
      AddModulo(0x4E_5949 + Sum(data[..i]), data[i], 0x100_0000);
      checksum := (checksum + data[i] as int) % 0x100_0000;
    }
    assert data[..|data|] == data;
  }

  method HeaderChecksum(header: seq<Byte>) returns (checksum: nat)
    ensures checksum == Sum(header) % 0x100
  {
    checksum := 0;
    for i := 0 to |header|
      invariant checksum == Sum(header[..i]) % 0x100
    {
      assert header[..i + 1][..i] == header[..i];
      AddModulo(Sum(header[..i]), header[i], 0x100);
      checksum := (checksum + header[i] as int) % 0x100;
    }
    assert header[..|header|] == header;
  }

  lemma {:induction false} AddModulo(a: nat, b: nat, m: nat)
    requires m == 0x100 || m == 0x100_0000
    ensures (a % m + b) % m == (a + b) % m
  {
  }

  /** One file's entry. */
  method FileEntry(c: Codec, name: seq<Byte>, data: seq<Byte>) returns (out: seq<Byte>)
    ensures out == EncodeFile(c, name, data)
    ensures |out| == 10 + |name| + if |c.zip(data)| < |data| then |c.zip(data)| else |data|
    ensures out[10 + |name|..] == if |c.zip(data)| < |data| then c.zip(data) else data
  {
    var fileheader: seq<Byte> := [CREATE_FILE];
    fileheader := fileheader + [|name| % 0x100];
    fileheader := fileheader + name;
    var compressed := c.zip(data);
    var compress := |compressed| < |data|;
    var stored := if compress then compressed else data;
    fileheader := fileheader + Low3(|stored|);
    var checksum := ChecksumOf(stored);
    fileheader := fileheader + [|stored| / 0x100_0000 % 0x10 + if compress then 0x80 else 0];
    fileheader := fileheader + Low3(checksum);
    var checksum2 := HeaderChecksum(fileheader);
    assert fileheader == Header(c, name, data);
    out := fileheader + [checksum2] + stored;
    EntryExactly(c, name, data, out);
  }

  /** What is written when the next entry has been added. */
  lemma {:induction false} ScanStep(c: Codec, folder: seq<Node>, i: nat, out: seq<Byte>)
    requires Writable(folder) && i < |folder| && out + Encode(c, folder[i..]) == Encode(c, folder)
    ensures Writable([folder[i]])
    ensures (out + EncodeNode(c, folder[i])) + Encode(c, folder[i + 1..]) == Encode(c, folder)
  {
    assert folder[i..][1..] == folder[i + 1..];
    Regroup(out, EncodeNode(c, folder[i]), Encode(c, folder[i + 1..]));
  }

  /** A folder, entry by entry; a folder inside it by a call of its own. */
  method ScanFolder(c: Codec, folder: seq<Node>) returns (out: seq<Byte>)
    requires Writable(folder)
    ensures out == Encode(c, folder)
    decreases folder
  {
    out := [];
    for i := 0 to |folder|
      invariant out + Encode(c, folder[i..]) == Encode(c, folder)
    {
      ScanStep(c, folder, i, out);
      match folder[i]
      case Directory(name, children) =>
        assert Writable([folder[i]]) && [folder[i]][0] == Directory(name, children);
        var length: Byte := |name|;
        var inside := ScanFolder(c, children);
        Regroup(out, [length] + name, inside);
        out := out + ([length] + name);
        out := out + inside;
      case File(name, data) =>
        var entry := FileEntry(c, name, data);
        out := out + entry;
    }
    out := out + [UP_ONE];
  }

  const CAB_START: seq<Byte> := [0x42, 0x43, 0x41, 0x42, 0x00, 0x34, 0x12]

  method MakeCab(c: Codec, folder: seq<Node>) returns (cab: seq<Byte>)
    requires Writable(folder)
    ensures cab == [66, 67, 65, 66, 0, 0x34, 0x12] + Encode(c, folder) + [0]
  {
    var data := ScanFolder(c, folder);
    data := data + [0];
    var checksum: nat := 0x1234;
    cab := [0x42, 0x43, 0x41, 0x42] + [0x00] + [checksum % 0x100] + [checksum / 0x100];
    cab := cab + data;
  }

  /** The tree of a cabinet, if the string is one. */
  function OpenCab(c: Codec, cab: seq<Byte>): Option<seq<Node>> {
    if !(CAB_START <= cab) then None
    else
      match Decode(c, cab[|CAB_START|..])
      case None => None
      case Some((nodes, rest)) => if rest == [0] then Some(nodes) else None
  }

  lemma {:induction false} Behind(a: seq<Byte>, b: seq<Byte>)
    ensures a <= a + b && (a + b)[|a|..] == b
  {
  }

  lemma {:induction false} CabRoundTrip(c: Codec, folder: seq<Node>)
    requires Inverse(c) && Valid(c, folder) && Writable(folder)
    ensures OpenCab(c, [66, 67, 65, 66, 0, 0x34, 0x12] + Encode(c, folder) + [0]) == Some(folder)
  {
    RoundTrip(c, folder, [0]);
    Regroup(CAB_START, Encode(c, folder), [0]);
    Behind(CAB_START, Encode(c, folder) + [0]);
  }
}
