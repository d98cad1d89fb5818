/** Partitions, and the installer's repeat-until-no-swap sort of them. */
module PartitionSort {
  import opened Bytes

  datatype Partition = Partition(lba: nat, length: nat, sectorHeldIn: nat, attrib: Byte, kind: Byte, extended: bool,
                                 free: bool, internalID: int)

  ghost predicate Sorted(s: seq<Partition>) {
    forall i, j :: 0 <= i < j < |s| ==> s[i].lba <= s[j].lba
  }

  /** The partitions that start at `lba`, in order. */
  function WithLba(s: seq<Partition>, lba: nat): seq<Partition> {
    if s == [] then []
    else
      var last := s[|s| - 1];
      WithLba(s[..|s| - 1], lba) + if last.lba == lba then [last] else []
  }

  ghost predicate SameFilters(s: seq<Partition>, t: seq<Partition>) {
    forall lba: nat :: WithLba(s, lba) == WithLba(t, lba)
  }

  /** The same partitions, those with the same start in the same order. */
  ghost predicate Stable(s: seq<Partition>, t: seq<Partition>) {
    multiset(s) == multiset(t) && SameFilters(s, t)
  }

  // --- one swap ----------------------------------------------------------------------

  function SwapAt(s: seq<Partition>, i: nat): (t: seq<Partition>)
    requires i + 1 < |s|
    ensures |t| == |s|
  {
    s[i := s[i + 1]][i + 1 := s[i]]
  }

  function CountAbove(s: seq<Partition>, lba: nat): nat {
    if s == [] then 0
    else CountAbove(s[..|s| - 1], lba) + if s[|s| - 1].lba > lba then 1 else 0
  }

  /** The number of pairs that stand in the wrong order. */
  function Inversions(s: seq<Partition>): nat {
    if s == [] then 0
    else Inversions(s[..|s| - 1]) + CountAbove(s[..|s| - 1], s[|s| - 1].lba)
  }

  /** A swap at the end, and a swap further in. */
  lemma {:induction false} SwapPrefix(s: seq<Partition>, i: nat)
    requires i + 1 < |s|
    ensures i + 2 < |s| ==> SwapAt(s, i)[..|s| - 1] == SwapAt(s[..|s| - 1], i)
    ensures i + 2 == |s| ==> SwapAt(s, i) == s[..i] + [s[i + 1], s[i]] && s == s[..i] + [s[i], s[i + 1]]
  {
  }

  lemma {:induction false} LastTwo(p: seq<Partition>, x: Partition, y: Partition, lba: nat)
    ensures CountAbove(p + [x], lba) == CountAbove(p, lba) + if x.lba > lba then 1 else 0
    ensures CountAbove(p + [x, y], lba)
            == CountAbove(p, lba) + (if x.lba > lba then 1 else 0) + (if y.lba > lba then 1 else 0)
    ensures WithLba(p + [x, y], lba)
            == WithLba(p, lba) + (if x.lba == lba then [x] else []) + (if y.lba == lba then [y] else [])
    ensures Inversions(p + [x, y]) == Inversions(p) + CountAbove(p, x.lba) + CountAbove(p + [x], y.lba)
  {
    assert (p + [x, y])[..|p| + 1] == p + [x];
    assert (p + [x])[..|p|] == p;
  }

  lemma {:induction false} SwapCounts(s: seq<Partition>, i: nat, lba: nat)
    requires i + 1 < |s|
    ensures CountAbove(SwapAt(s, i), lba) == CountAbove(s, lba)
    ensures s[i].lba != s[i + 1].lba ==> WithLba(SwapAt(s, i), lba) == WithLba(s, lba)
    decreases |s|
  {
    SwapPrefix(s, i);
    if i + 2 == |s| {
      LastTwo(s[..i], s[i], s[i + 1], lba);
      LastTwo(s[..i], s[i + 1], s[i], lba);
    } else {
      SwapCounts(s[..|s| - 1], i, lba);
    }
  }

  /** A swap of two neighbours in the wrong order removes exactly one inversion. */
  lemma {:induction false} SwapLowers(s: seq<Partition>, i: nat)
    requires i + 1 < |s| && s[i].lba > s[i + 1].lba
    ensures Inversions(SwapAt(s, i)) == Inversions(s) - 1
    decreases |s|
  {
    SwapPrefix(s, i);
    if i + 2 == |s| {
      var p, x, y := s[..i], s[i], s[i + 1];
      LastTwo(p, x, y, y.lba);
      LastTwo(p, y, x, x.lba);
    } else {
      SwapLowers(s[..|s| - 1], i);
      SwapCounts(s[..|s| - 1], i, s[|s| - 1].lba);
    }
  }

  lemma {:induction false} SwapIsStable(s: seq<Partition>, i: nat)
    requires i + 1 < |s| && s[i].lba > s[i + 1].lba
    ensures Stable(s, SwapAt(s, i))
  {
    forall lba: nat
      ensures WithLba(s, lba) == WithLba(SwapAt(s, i), lba)
    {
      SwapCounts(s, i, lba);
    }
  }

  lemma {:induction false} StableThen(s: seq<Partition>, t: seq<Partition>, i: nat)
    requires Stable(s, t) && i + 1 < |t| && t[i].lba > t[i + 1].lba
    ensures Stable(s, SwapAt(t, i))
  {
    SwapIsStable(t, i);
    forall lba: nat
      ensures WithLba(s, lba) == WithLba(SwapAt(t, i), lba)
    {
      assert WithLba(s, lba) == WithLba(t, lba);
    }
  }

  // --- the sort ----------------------------------------------------------------------

  lemma {:induction false} NeighboursSorted(s: seq<Partition>)
    requires forall i :: 0 <= i < |s| - 1 ==> s[i].lba <= s[i + 1].lba
    ensures Sorted(s)
  {
    forall i, j | 0 <= i < j < |s|
      ensures s[i].lba <= s[j].lba
    {
      Climb(s, i, j);
    }
  }

  lemma {:induction false} Climb(s: seq<Partition>, i: nat, j: nat)
    requires forall i :: 0 <= i < |s| - 1 ==> s[i].lba <= s[i + 1].lba
    requires i <= j < |s|
    ensures s[i].lba <= s[j].lba
    decreases j
  {
    if i < j { Climb(s, i, j - 1); }
  }

  method SwapNeighbours(a: array<Partition>, n: nat, i: nat)
    requires i + 1 < n <= a.Length
    modifies a
    ensures a[..n] == SwapAt(old(a[..n]), i) && a[n..] == old(a[n..])
  {
    var tmp := a[i];
    a[i] := a[i + 1];
    a[i + 1] := tmp;
  }

  /** One pass over the first `n` partitions. */
  method Pass(a: array<Partition>, n: nat) returns (swap: bool)
    requires n <= a.Length
    modifies a
    ensures a[n..] == old(a[n..]) && Stable(old(a[..n]), a[..n])
    ensures if swap then Inversions(a[..n]) < old(Inversions(a[..n])) else a[..n] == old(a[..n]) && Sorted(a[..n])
  {
    swap := false;
    var i := 0;
    while i < n - 1
      invariant 0 <= i <= if n > 0 then n - 1 else 0
      invariant a[n..] == old(a[n..]) && Stable(old(a[..n]), a[..n])
      invariant if swap then Inversions(a[..n]) < old(Inversions(a[..n])) else a[..n] == old(a[..n])
      invariant !swap ==> forall k :: 0 <= k < i ==> a[k].lba <= a[k + 1].lba
    {
      if a[i].lba > a[i + 1].lba {
        ghost var s := a[..n];
        SwapNeighbours(a, n, i);
        SwapLowers(s, i);
        StableThen(old(a[..n]), s, i);
        swap := true;
      }
      i := i + 1;
    }
    if !swap { NeighboursSorted(a[..n]); }
  }

  /** Sorts the first `n` partitions by their start.  Every pass that swaps leaves fewer inversions. */
  method SortPartitions(a: array<Partition>, n: nat)
    requires n <= a.Length
    modifies a
    ensures a[n..] == old(a[n..])
    ensures Sorted(a[..n]) && Stable(old(a[..n]), a[..n])
    ensures multiset(a[..n]) == multiset(old(a[..n])) && forall i, j :: 0 <= i < j < n ==> a[i].lba <= a[j].lba
  {
    var swap := true;
    while swap
      invariant a[n..] == old(a[n..]) && Stable(old(a[..n]), a[..n])
      invariant !swap ==> Sorted(a[..n])
      decreases Inversions(a[..n]), swap
    {
      swap := Pass(a, n);
    }
  }

  // --- the result is determined ------------------------------------------------------

  lemma {:induction false} FilterMember(s: seq<Partition>, p: Partition)
    ensures p in WithLba(s, p.lba) <==> p in s
  {
    if s != [] {
      FilterMember(s[..|s| - 1], p);
      assert s == s[..|s| - 1] + [s[|s| - 1]];
    }
  }

  lemma {:induction false} FilterLast(s: seq<Partition>)
    requires s != []
    ensures var x := s[|s| - 1]; var f := WithLba(s, x.lba); f != [] && f[|f| - 1] == x
  {
  }

  lemma {:induction false} NoneToFilter(s: seq<Partition>)
    requires forall lba: nat :: WithLba(s, lba) == []
    ensures s == []
  {
    if s != [] { FilterLast(s); }
  }

  lemma {:induction false} LastIsAbove(s: seq<Partition>, t: seq<Partition>)
    requires Sorted(t) && s != [] && SameFilters(s, t)
    ensures t != [] && s[|s| - 1].lba <= t[|t| - 1].lba
  {
    var x := s[|s| - 1];
    FilterMember(s, x);
    FilterMember(t, x);
    assert WithLba(s, x.lba) == WithLba(t, x.lba);
  }

  lemma {:induction false} SameLast(s: seq<Partition>, t: seq<Partition>)
    requires Sorted(s) && Sorted(t) && s != [] && SameFilters(s, t)
    ensures t != [] && s[|s| - 1] == t[|t| - 1]
  {
    LastIsAbove(s, t);
    LastIsAbove(t, s);
    FilterLast(s);
    FilterLast(t);
    assert WithLba(s, s[|s| - 1].lba) == WithLba(t, s[|s| - 1].lba);
  }

  lemma {:induction false} SameFront(s: seq<Partition>, t: seq<Partition>)
    requires s != [] && t != [] && s[|s| - 1] == t[|t| - 1] && SameFilters(s, t)
    ensures SameFilters(s[..|s| - 1], t[..|t| - 1])
  {
    var s', t' := s[..|s| - 1], t[..|t| - 1];
    forall lba: nat
      ensures WithLba(s', lba) == WithLba(t', lba)
    {
      var a, b := WithLba(s', lba), WithLba(t', lba);
      assert WithLba(s, lba) == WithLba(t, lba);
      assert a + [] == a && b + [] == b;
      DropLast(a, b, s[|s| - 1]);
    }
  }

  /** Two sorted lists that agree for each start are equal: there is only one stable sort. */
  lemma {:induction false} StableSortIsUnique(s: seq<Partition>, t: seq<Partition>)
    requires Sorted(s) && Sorted(t) && SameFilters(s, t)
    ensures s == t
    decreases |s|
  {
    if s == [] {
      NoneToFilter(t);
    } else {
      SameLast(s, t);
      SameFront(s, t);
      StableSortIsUnique(s[..|s| - 1], t[..|t| - 1]);
      assert s == s[..|s| - 1] + [s[|s| - 1]] && t == t[..|t| - 1] + [t[|t| - 1]];
    }
  }

  lemma {:induction false} DropLast(a: seq<Partition>, b: seq<Partition>, x: Partition)
    requires a + [x] == b + [x] || a == b
    ensures a == b
  {
    if a + [x] == b + [x] {
      assert a == (a + [x])[..|a|] && b == (b + [x])[..|b|];
    }
  }
}
