/** Paths of 11-character names joined by slashes or backslashes. */
module Paths {
  import opened Bytes
  import opened Fat32

  const SPACE: Byte := 0x20

  predicate IsSeparator(b: Byte) { b == 0x2F || b == 0x5C }

  function Spaces(n: nat): (s: seq<Byte>)
    ensures |s| == n && forall k :: 0 <= k < n ==> s[k] == SPACE
  {
    if n == 0 then [] else Spaces(n - 1) + [SPACE]
  }

  function Pad(component: seq<Byte>): Name
    requires |component| <= 11
  {
    component + Spaces(11 - |component|)
  }

  ghost predicate IsComponent(component: seq<Byte>) {
    |component| <= 11 && forall k :: 0 <= k < |component| ==> !IsSeparator(component[k])
  }

  /** Components that a path can be made of; only the last must be padded already. */
  ghost predicate Components(parts: seq<seq<Byte>>) {
    && parts != []
    && (forall i :: 0 <= i < |parts| ==> IsComponent(parts[i]))
    && |parts[|parts| - 1]| == 11
  }

  /** The path string, with the terminating zero of C. */
  function Join(parts: seq<seq<Byte>>, separators: seq<Byte>): seq<Byte>
    requires parts != [] && |separators| + 1 == |parts|
  {
    if |parts| == 1 then parts[0] + [0]
    else parts[0] + [separators[0]] + Join(parts[1..], separators[1..])
  }

  ghost predicate IsPath(filename: seq<Byte>, parts: seq<seq<Byte>>, separators: seq<Byte>) {
    && Components(parts) && |separators| + 1 == |parts|
    && (forall i :: 0 <= i < |separators| ==> IsSeparator(separators[i]))
    && filename == Join(parts, separators)
  }

  ghost function Padded(parts: seq<seq<Byte>>): (names: seq<Name>)
    requires forall i :: 0 <= i < |parts| ==> |parts[i]| <= 11
    ensures |names| == |parts|
  {
    if parts == [] then [] else [Pad(parts[0])] + Padded(parts[1..])
  }

  /** The 12-character window at `pos`: where its first separator stands, 12 if it has none, or None if
      the string ends first. */
  datatype Window = Separator(at: nat) | NoSeparator | RunsOff

  function Scan(filename: seq<Byte>, pos: nat, i: nat): Window
    requires i <= 12
    decreases 12 - i
  {
    if i == 12 then NoSeparator
    else if pos + i >= |filename| then RunsOff
    else if IsSeparator(filename[pos + i]) then Separator(i)
    else Scan(filename, pos, i + 1)
  }

  lemma {:induction false} ScanSkips(filename: seq<Byte>, pos: nat, i: nat, n: nat)
    requires i <= n <= 12 && pos + n <= |filename|
    requires forall k :: pos + i <= k < pos + n ==> !IsSeparator(filename[k])
    ensures Scan(filename, pos, i) == Scan(filename, pos, n)
    decreases n - i
  {
    if i < n { ScanSkips(filename, pos, i + 1, n); }
  }

  /** At the start of a path the window ends with the first component. */
  lemma {:induction false} ScanPath(filename: seq<Byte>, pos: nat, parts: seq<seq<Byte>>, separators: seq<Byte>)
    requires pos <= |filename| && IsPath(filename[pos..], parts, separators)
    ensures pos + |parts[0]| < |filename| && filename[pos..pos + |parts[0]|] == parts[0]
    ensures Scan(filename, pos, 0) == if |parts| == 1 then NoSeparator else Separator(|parts[0]|)
    ensures |parts| > 1 ==> IsPath(filename[pos + |parts[0]| + 1..], parts[1..], separators[1..])
  {
    var n := |parts[0]|;
    var rest := filename[pos..];
    assert rest[..n] == parts[0];
    forall k | 0 <= k < n ensures filename[pos + k] == parts[0][k] { assert rest[k] == rest[..n][k]; }
    ScanSkips(filename, pos, 0, n);
    if |parts| == 1 {
      assert filename[pos + n] == rest[n] == 0;
    } else {
      assert filename[pos + n] == rest[n] == separators[0];
      assert filename[pos + n + 1..] == rest[n + 1..] == Join(parts[1..], separators[1..]);
    }
  }

  lemma {:induction false} PadMore(component: seq<Byte>, b: Byte)
    requires |component| < 11
    ensures Pad(component)[|component| := b] == Pad(component + [b])
  {
  }

  lemma {:induction false} OneMore(filename: seq<Byte>, pos: nat, i: nat)
    requires pos + i < |filename|
    ensures filename[pos..pos + i] + [filename[pos + i]] == filename[pos..pos + i + 1]
  {
  }

  /** Splits off one component: the loop over the first twelve characters. */
  method SplitComponent(filename: seq<Byte>, pos: nat) returns (part: Name, foundSplit: bool, next: nat)
    requires !Scan(filename, pos, 0).RunsOff?
    ensures match Scan(filename, pos, 0)
            case Separator(n) =>
              && foundSplit && next == pos + n + 1 && n <= 11 && pos + n < |filename|
              && part == Pad(filename[pos..pos + n])
            case NoSeparator =>
              && !foundSplit && next == pos && pos + 11 < |filename| && part == filename[pos..pos + 11]
  {
    part, foundSplit, next := Spaces(11), false, pos;
    for i := 0 to 12
      invariant !foundSplit && next == pos && pos + i <= |filename|
      invariant Scan(filename, pos, 0) == Scan(filename, pos, i)
      invariant i <= 11 && part == Pad(filename[pos..pos + i])
    {
      if IsSeparator(filename[pos + i]) {
        next := pos + i + 1;
        foundSplit := true;
        return;
      } else if i == 11 {
        return;
      }
      PadMore(filename[pos..pos + i], filename[pos + i]);
      OneMore(filename, pos, i);
      part := part[i := filename[pos + i]];
    }
  }

  /** The loop's step on a path: the first component, padded, and the rest of the path. */
  method NextComponent(filename: seq<Byte>, pos: nat, ghost parts: seq<seq<Byte>>, ghost separators: seq<Byte>)
    returns (part: Name, foundSplit: bool, next: nat)
    requires pos <= |filename| && IsPath(filename[pos..], parts, separators)
    ensures part == Pad(parts[0]) && next <= |filename|
    ensures foundSplit <==> |parts| > 1
    ensures foundSplit ==> IsPath(filename[next..], parts[1..], separators[1..])
  {
    ScanPath(filename, pos, parts, separators);
    part, foundSplit, next := SplitComponent(filename, pos);
  }

  // --- paths in characters -----------------------------------------------------------

  /** A name is its component, filled up with character 32. */
  lemma {:induction false} PadAt(component: seq<Byte>, k: nat)
    requires |component| <= 11 && k < 11
    ensures Pad(component)[k] == if k < |component| then component[k] else 32
  {
  }

  /** Characters 47 and 92 are the separators. */
  lemma {:induction false} SeparatorsExactly(b: Byte)
    ensures IsSeparator(b) <==> b == 47 || b == 92
  {
  }

  /** A string with two separators, such as the one that names the kernel, is the path of its three parts. */
  lemma {:induction false} ThreeComponents(a: seq<Byte>, b: seq<Byte>, c: seq<Byte>, s: Byte, t: Byte)
    requires |a| <= 11 && |b| <= 11 && |c| == 11 && s in {47, 92} && t in {47, 92}
    requires forall k :: 0 <= k < |a + b + c| ==> (a + b + c)[k] != 47 && (a + b + c)[k] != 92
    ensures IsPath(a + [s] + b + [t] + c + [0], [a, b, c], [s, t])
    ensures Padded([a, b, c]) == [Pad(a), Pad(b), Pad(c)]
  {
    var parts, separators := [a, b, c], [s, t];
    forall k | 0 <= k < |a|
      ensures !IsSeparator(a[k])
    {
      assert a[k] == (a + b + c)[k];
    }
    forall k | 0 <= k < |b|
      ensures !IsSeparator(b[k])
    {
      assert b[k] == (a + b + c)[|a| + k];
    }
    forall k | 0 <= k < |c|
      ensures !IsSeparator(c[k])
    {
      assert c[k] == (a + b + c)[|a| + |b| + k];
    }
    JoinThree(a, b, c, s, t);
    PadThree(a, b, c);
  }

  lemma {:induction false} JoinThree(a: seq<Byte>, b: seq<Byte>, c: seq<Byte>, s: Byte, t: Byte)
    ensures Join([a, b, c], [s, t]) == a + [s] + b + [t] + c + [0]
  {
    assert [a, b, c][1..] == [b, c] && [s, t][1..] == [t] && [b, c][1..] == [c] && [t][1..] == [];
    assert Join([c], []) == c + [0];
    assert Join([b, c], [t]) == b + [t] + (c + [0]);
    assert a + [s] + (b + [t] + (c + [0])) == a + [s] + b + [t] + c + [0];
  }

  lemma {:induction false} PadThree(a: seq<Byte>, b: seq<Byte>, c: seq<Byte>)
    requires |a| <= 11 && |b| <= 11 && |c| <= 11
    ensures Padded([a, b, c]) == [Pad(a), Pad(b), Pad(c)]
  {
    assert [a, b, c][1..] == [b, c] && [b, c][1..] == [c] && [c][1..] == [];
    assert Padded([c]) == [Pad(c)];
    assert Padded([b, c]) == [Pad(b)] + Padded([c]);
  }
}
