/** The diskette set, and the change of diskettes as a state machine. */
module Diskettes {
  import opened Bytes
  import opened SparseImage

  const DISKETTE_SECTORS := 2880
  const FIRST_DATA_SECTOR := 33
  const MAX_DISKETTES := 9
  const LAST_PROMPT := 7

  type Diskette = seq<Sector>

  /** Byte 511 of a diskette's boot sector: the signature of a boot sector, or the diskette's number. */
  function Marker(d: nat): Byte
    requires d < MAX_DISKETTES
  {
    if d == 0 then 0xAA else d + 1
  }

  ghost predicate Marked(disks: seq<Diskette>) {
    && (forall d :: 0 <= d < |disks| ==> |disks[d]| == DISKETTE_SECTORS)
    && forall d :: 0 <= d < |disks| && d < MAX_DISKETTES ==> disks[d][0][511] == Marker(d)
  }

  /** The volumes start at sector 33; no more than nine diskettes are made. */
  ghost predicate Carry(disks: seq<Diskette>, volumes: seq<seq<Sector>>) {
    && |disks| == (if |volumes| < MAX_DISKETTES then |volumes| else MAX_DISKETTES)
    && FullVolumes(volumes)
    && (forall d :: 0 <= d < |disks| ==> |disks[d]| == DISKETTE_SECTORS)
    && forall d, k :: 0 <= d < |disks| && 0 <= k < VOLUME_SECTORS ==>
                        disks[d][FIRST_DATA_SECTOR + k] == volumes[d][k]
  }

  /** Puts the boot sector on the first diskette and numbers the others, as far as they exist. */
  method Join(blank: seq<Diskette>, boot: Sector) returns (disks: seq<Diskette>)
    requires forall d :: 0 <= d < |blank| ==> |blank[d]| == DISKETTE_SECTORS
    requires boot[511] == 0xAA
    ensures |disks| == |blank| && Marked(disks)
    ensures forall d :: 1 <= d < |disks| && d < 9 ==> disks[d][0][511] == d + 1
    ensures forall d :: 9 <= d < |disks| ==> disks[d] == blank[d]
    ensures forall d :: 0 <= d < |disks| ==> |disks[d]| == DISKETTE_SECTORS && disks[d][1..] == blank[d][1..]
    ensures forall volumes :: Carry(blank, volumes) ==> Carry(disks, volumes)
  {
    if |blank| == 0 { return blank; }
    disks := blank[0 := [boot] + blank[0][1..]];
    for i := 1 to MAX_DISKETTES
      invariant |disks| == |blank|
      invariant forall d :: 0 <= d < |disks| ==> |disks[d]| == DISKETTE_SECTORS && disks[d][1..] == blank[d][1..]
      invariant forall d :: 0 <= d < i && d < |disks| ==> disks[d][0][511] == Marker(d)
      invariant forall d :: 9 <= d < |disks| ==> disks[d] == blank[d]
    {
      if i >= |disks| { break; }
      var first: Sector := disks[i][0][511 := i + 1];
      disks := disks[i := [first] + disks[i][1..]];
    }
    forall volumes | Carry(blank, volumes)
      ensures Carry(disks, volumes)
    {
      CarryKept(blank, disks, volumes);
    }
  }

  lemma {:induction false} CarryKept(blank: seq<Diskette>, disks: seq<Diskette>, volumes: seq<seq<Sector>>)
    requires Carry(blank, volumes) && |disks| == |blank|
    requires forall d :: 0 <= d < |disks| ==> |disks[d]| == DISKETTE_SECTORS && disks[d][1..] == blank[d][1..]
    ensures Carry(disks, volumes)
  {
    forall d, k | 0 <= d < |disks| && 0 <= k < VOLUME_SECTORS
      ensures disks[d][FIRST_DATA_SECTOR + k] == volumes[d][k]
    {
      assert disks[d][FIRST_DATA_SECTOR + k] == disks[d][1..][FIRST_DATA_SECTOR + k - 1];
    }
  }

  // --- changing diskettes ------------------------------------------------------------

  /** Waiting: the operator has no diskette left to offer.  Halted: the error popup. */
  datatype Outcome = Done | Waiting | Halted

  /** The diskette the reader believes in, the one in the drive, the diskettes that the operator
      is going to insert (one before each ENTER), and the prompts shown. */
  datatype Drive = Drive(current: nat, inserted: nat, script: seq<nat>, prompts: seq<nat>)

  predicate IsBootMarker(m: Byte) { m == 0xAA || m == 0x55 }

  /** The test before any prompt: it compares with the number less one. */
  predicate EarlyAccepts(m: Byte, d: nat) {
    (d == 0 && IsBootMarker(m)) || m as int == d - 1
  }

  /** The test after ENTER: it compares with the number plus one. */
  predicate PromptAccepts(m: Byte, d: nat) {
    (d == 0 && IsBootMarker(m)) || m as int == d + 1
  }

  /** For every byte that a boot sector can hold at its end: both tests take the two signature bytes for the boot
      diskette and agree on no other; the later test takes the number plus one, the early one the number less one. */
  lemma {:induction false} TestsExactly(m: Byte, d: nat)
    ensures EarlyAccepts(m, d) && PromptAccepts(m, d) <==> d == 0 && (m == 0xAA || m == 0x55)
    ensures PromptAccepts(m, d) && !EarlyAccepts(m, d) <==> m == d + 1 && !(d == 0 && (m == 0xAA || m == 0x55))
    ensures EarlyAccepts(m, d) && !PromptAccepts(m, d) <==> d == m + 1 && !(d == 0 && (m == 0xAA || m == 0x55))
  {
  }

  /** What is left of the script after the first time it offers diskette `d`. */
  function SkipTo(script: seq<nat>, d: nat): Option<seq<nat>> {
    if script == [] then None
    else if script[0] == d then Some(script[1..])
    else SkipTo(script[1..], d)
  }

  ghost predicate DriveOk(s: Drive) {
    s.inserted < MAX_DISKETTES && forall i :: 0 <= i < |s.script| ==> s.script[i] < MAX_DISKETTES
  }

  /** Serving a sector of diskette `d`. */
  function Serve(s: Drive, d: nat): (Outcome, Drive)
    requires s.inserted < MAX_DISKETTES
  {
    if s.current == d then (Done, s)
    else if EarlyAccepts(Marker(s.inserted), d) then (Done, s.(current := d))
    else if d > LAST_PROMPT then (Halted, s)
    else
      match SkipTo(s.script, d)
      case Some(rest) => (Done, Drive(d, d, rest, s.prompts + [d]))
      case None =>
        var last := if s.script == [] then s.inserted else s.script[|s.script| - 1];
        (Waiting, Drive(s.current, last, [], s.prompts + [d]))
  }

  /** The prompt's test takes the diskette it asks for and no other. */
  lemma {:induction false} PromptAcceptsExactly(c: nat, d: nat)
    requires c < MAX_DISKETTES && d <= LAST_PROMPT
    ensures PromptAccepts(Marker(c), d) <==> c == d
  {
  }

  /** The early test takes the boot diskette for itself, and otherwise only a wrong diskette: the one two before,
      or the boot diskette for the 172nd. */
  lemma {:induction false} EarlyAcceptsExactly(c: nat, d: nat)
    requires c < MAX_DISKETTES
    ensures EarlyAccepts(Marker(c), d) <==> (c == 0 && d == 0) || Jumps(c, d)
  {
  }

  /** The requests that the early test serves from the wrong diskette. */
  predicate Jumps(c: nat, d: nat) { (1 <= c && d == c + 2) || (c == 0 && d == 171) }

  predicate Synced(s: Drive) { s.current == s.inserted }

  /** The rest is what stands behind the first place where the script has `d`. */
  lemma {:induction false} SkipToExactly(script: seq<nat>, d: nat, k: nat)
    requires k < |script| && script[k] == d && forall i :: 0 <= i < k ==> script[i] != d
    ensures SkipTo(script, d) == Some(script[k + 1..])
  {
    if k > 0 {
      SkipToExactly(script[1..], d, k - 1);
      assert script[1..][k..] == script[k + 1..];
    }
  }

  lemma {:induction false} SkipToFinds(script: seq<nat>, d: nat) returns (k: nat)
    requires SkipTo(script, d).Some?
    ensures k < |script| && script[k] == d && SkipTo(script, d) == Some(script[k + 1..])
    ensures forall i :: 0 <= i < k ==> script[i] != d
  {
    k := 0;
    if script[0] != d {
      k := SkipToFinds(script[1..], d);
      assert script[1..][k + 1..] == script[k + 2..];
      k := k + 1;
    }
  }

  lemma {:induction false} SkipToKeeps(script: seq<nat>, d: nat, bound: nat)
    requires forall i :: 0 <= i < |script| ==> script[i] < bound
    ensures SkipTo(script, d).Some? <==> d in script
    ensures SkipTo(script, d).Some? ==>
              forall i :: 0 <= i < |SkipTo(script, d).value| ==> SkipTo(script, d).value[i] < bound
  {
    if script != [] && script[0] != d { SkipToKeeps(script[1..], d, bound); }
  }

  /** From a drive that holds what the reader believes, the next sector comes from the right diskette
      exactly when the request does not jump two ahead from a numbered diskette (or to the 172nd); and without
      such a jump it comes exactly if the diskette is there or the operator will offer it. */
  lemma {:induction false} ServeExactly(s: Drive, d: nat)
    requires DriveOk(s) && Synced(s)
    ensures DriveOk(Serve(s, d).1)
    ensures Serve(s, d).0.Done? ==>
              Serve(s, d).1.current == d && (Synced(Serve(s, d).1) <==> !Jumps(s.current, d))
    ensures !Jumps(s.current, d) ==>
              (Serve(s, d).0.Done? <==> d == s.current || (d <= LAST_PROMPT && d in s.script))
  {
    EarlyAcceptsExactly(s.inserted, d);
    SkipToKeeps(s.script, d, MAX_DISKETTES);
  }

  // --- whole runs --------------------------------------------------------------------

  /** A run of requests; it stops at the first that is not served. */
  function Run(s: Drive, requests: seq<nat>): (Outcome, Drive)
    requires DriveOk(s)
    ensures DriveOk(Run(s, requests).1)
  {
    if requests == [] then (Done, s)
    else
      var last := |requests| - 1;
      var (o, t) := Run(s, requests[..last]);
      if !o.Done? then (o, t)
      else
        SkipToKeeps(t.script, requests[last], MAX_DISKETTES);
        Serve(t, requests[last])
  }

  lemma {:induction false} RunStep(s: Drive, requests: seq<nat>, d: nat)
    requires DriveOk(s)
    ensures Run(s, requests + [d]) ==
            if Run(s, requests).0.Done? then Serve(Run(s, requests).1, d) else Run(s, requests)
  {
    assert (requests + [d])[..|requests|] == requests;
  }

  /** Once a run has stopped, further requests change nothing. */
  lemma {:induction false} RunStuck(s: Drive, requests: seq<nat>, more: seq<nat>)
    requires DriveOk(s) && !Run(s, requests).0.Done?
    ensures Run(s, requests + more) == Run(s, requests)
  {
    if more == [] {
      assert requests + more == requests;
    } else {
      var last := |more| - 1;
      RunStuck(s, requests, more[..last]);
      assert requests + more == (requests + more[..last]) + [more[last]];
      RunStep(s, requests + more[..last], more[last]);
    }
  }

  /** No request is one that the early test serves from the wrong diskette. */
  ghost predicate NeverJumps(from: nat, requests: seq<nat>) {
    forall i :: 0 <= i < |requests| ==> !Jumps(Before(from, requests, i), requests[i])
  }

  lemma {:induction false} NeverJumpsPrefix(from: nat, requests: seq<nat>, n: nat)
    requires NeverJumps(from, requests) && n <= |requests|
    ensures NeverJumps(from, requests[..n])
  {
    forall i | 0 <= i < n
      ensures !Jumps(Before(from, requests[..n], i), requests[..n][i])
    {
      assert Before(from, requests[..n], i) == Before(from, requests, i);
    }
  }

  /** Whatever the order of the requests: without such a jump, a run that ends well ends with the last diskette asked
      for, in the drive and in the reader's mind. */
  lemma {:induction false} RunStaysSynced(s: Drive, requests: seq<nat>)
    requires DriveOk(s) && Synced(s) && NeverJumps(s.current, requests) && Run(s, requests).0.Done?
    ensures Synced(Run(s, requests).1) && Run(s, requests).1.current == Last(s.current, requests)
  {
    if requests != [] {
      var n := |requests| - 1;
      NeverJumpsPrefix(s.current, requests, n);
      RunStaysSynced(s, requests[..n]);
      assert Last(s.current, requests[..n]) == Before(s.current, requests, n);
      ServeExactly(Run(s, requests[..n]).1, requests[n]);
    }
  }

  /** Each request is for the diskette of the one before or for the next. */
  ghost predicate Rising(from: nat, requests: seq<nat>) {
    forall i :: 0 <= i < |requests| ==> Before(from, requests, i) <= requests[i] <= Before(from, requests, i) + 1
  }

  function Before(from: nat, requests: seq<nat>, i: nat): nat
    requires i < |requests|
  {
    if i == 0 then from else requests[i - 1]
  }

  function Last(from: nat, requests: seq<nat>): nat {
    if requests == [] then from else requests[|requests| - 1]
  }

  function Upto(from: nat, end: nat): (s: seq<nat>)
    ensures |s| == if end <= from then 0 else end - from
    ensures forall i :: 0 <= i < |s| ==> s[i] == from + 1 + i
    decreases end - from
  {
    if end <= from then [] else Upto(from, end - 1) + [end]
  }

  /** The script after it has offered `from + 1`, ..., `to` in this order. */
  function Offers(script: seq<nat>, from: nat, end: nat): Option<seq<nat>>
    decreases end - from
  {
    if end <= from then Some(script)
    else
      match Offers(script, from, end - 1)
      case None => None
      case Some(rest) => SkipTo(rest, end)
  }

  /** Places of the script, one behind the other, where it has `from + 1`, `from + 2`, ... */
  ghost predicate OfferedAt(script: seq<nat>, from: nat, places: seq<nat>) {
    && (forall i :: 0 <= i < |places| ==> places[i] < |script| && script[places[i]] == from + 1 + i)
    && forall i, j :: 0 <= i < j < |places| ==> places[i] < places[j]
  }

  function Behind(places: seq<nat>): nat { if places == [] then 0 else places[|places| - 1] + 1 }

  /** The operator offers the diskettes in order exactly if the script has such places for all of them. */
  lemma {:induction false} OffersExactly(script: seq<nat>, from: nat, end: nat)
    requires from <= end
    ensures Offers(script, from, end).Some? <==>
            exists places :: |places| == end - from && OfferedAt(script, from, places)
  {
    if Offers(script, from, end).Some? {
      var places := OffersAt(script, from, end);
      assert OfferedAt(script, from, places);
    }
    if exists places :: |places| == end - from && OfferedAt(script, from, places) {
      var places :| |places| == end - from && OfferedAt(script, from, places);
      var n := OffersEarly(script, from, end, places);
    }
  }

  lemma {:induction false} OffersAt(script: seq<nat>, from: nat, end: nat) returns (places: seq<nat>)
    requires from <= end && Offers(script, from, end).Some?
    ensures |places| == end - from && OfferedAt(script, from, places)
    ensures Behind(places) <= |script| && Offers(script, from, end).value == script[Behind(places)..]
    decreases end - from
  {
    places := [];
    if from < end {
      places := OffersAt(script, from, end - 1);
      var n := Behind(places);
      var k := SkipToFinds(script[n..], end);
      assert script[n..][k + 1..] == script[n + k + 1..] && script[n..][k] == script[n + k];
      places := places + [n + k];
    }
  }

  /** Taking the first place each time comes no later than any other choice. */
  lemma {:induction false} OffersEarly(script: seq<nat>, from: nat, end: nat, places: seq<nat>) returns (n: nat)
    requires from <= end && |places| == end - from && OfferedAt(script, from, places)
    ensures n <= Behind(places) <= |script|
    ensures Offers(script, from, end) == Some(script[n..])
    decreases end - from
  {
    n := 0;
    if from < end {
      var last := places[|places| - 1];
      assert OfferedAt(script, from, places[..|places| - 1]);
      n := OffersEarly(script, from, end - 1, places[..|places| - 1]);
      var k := FirstPlace(script[n..], end, last - n);
      SkipToExactly(script[n..], end, k);
      assert script[n..][k + 1..] == script[n + k + 1..];
      n := n + k + 1;
    }
  }

  lemma {:induction false} FirstPlace(script: seq<nat>, d: nat, at: nat) returns (k: nat)
    requires at < |script| && script[at] == d
    ensures k <= at && script[k] == d && forall i :: 0 <= i < k ==> script[i] != d
  {
    k := 0;
    while script[k] != d
      invariant k <= at && forall i :: 0 <= i < k ==> script[i] != d
      decreases at - k
    {
      k := k + 1;
    }
  }

  lemma {:induction false} RisingPrefix(from: nat, requests: seq<nat>, n: nat)
    requires Rising(from, requests) && n <= |requests|
    ensures Rising(from, requests[..n])
  {
    forall i | 0 <= i < n
      ensures Before(from, requests[..n], i) <= requests[..n][i] <= Before(from, requests[..n], i) + 1
    {
      assert Before(from, requests[..n], i) == Before(from, requests, i);
    }
  }

  /** How a rising run from `s` whose last request is for diskette `last` ends: well exactly when there
      are prompts for all the later diskettes and the operator offers them in order; then each has been
      asked for once, in order, and the last one is in the drive. */
  ghost predicate Arrives(s: Drive, last: nat, o: Outcome, t: Drive) {
    var offered := Offers(s.script, s.current, last);
    && s.current <= last
    && (o.Done? <==> (last <= LAST_PROMPT || last == s.current) && offered.Some?)
    && (o.Done? ==> t == Drive(last, last, offered.value, s.prompts + Upto(s.current, last)))
    && (o.Halted? ==> last > LAST_PROMPT)
  }

  lemma {:induction false} RisingStep(s: Drive, before: nat, d: nat, o: Outcome, t: Drive)
    requires DriveOk(s) && Synced(s) && Arrives(s, before, o, t) && before <= d <= before + 1
    ensures o.Done? ==> t.inserted < MAX_DISKETTES && Arrives(s, d, Serve(t, d).0, Serve(t, d).1)
    ensures !o.Done? ==> Arrives(s, d, o, t)
  {
    if o.Done? && d == before + 1 {
      EarlyAcceptsExactly(t.inserted, d);
      assert (s.prompts + Upto(s.current, before)) + [d] == s.prompts + (Upto(s.current, before) + [d]);
    }
  }

  lemma {:induction false} RisingRun(s: Drive, requests: seq<nat>)
    requires DriveOk(s) && Synced(s) && Rising(s.current, requests)
    ensures Arrives(s, Last(s.current, requests), Run(s, requests).0, Run(s, requests).1)
  {
    if requests == [] {
      assert s.prompts + [] == s.prompts;
    } else {
      var n := |requests| - 1;
      RisingPrefix(s.current, requests, n);
      RisingRun(s, requests[..n]);
      var before := Last(s.current, requests[..n]);
      assert before == Before(s.current, requests, n);
      var (o, t) := Run(s, requests[..n]);
      RisingStep(s, before, requests[n], o, t);
    }
  }

  // --- the order of the image --------------------------------------------------------

  /** The diskette in the drive once `r` non-zero sectors have been read in order. */
  function DisketteAfter(r: nat): nat {
    if r == 0 then 0 else (r - 1) / VOLUME_SECTORS
  }

  /** The diskettes asked for when the sectors from `lo` up to `hi` are read in order. */
  function Requests(zeros: seq<Byte>, lo: nat, hi: nat): seq<nat>
    requires lo <= hi <= 8 * |zeros|
    decreases hi
  {
    if lo == hi then []
    else Requests(zeros, lo, hi - 1) + if IsZero(zeros, hi - 1) then [] else [Rank(zeros, hi - 1) / VOLUME_SECTORS]
  }

  lemma {:induction false} RisingAppend(from: nat, requests: seq<nat>, d: nat)
    requires Rising(from, requests) && Last(from, requests) <= d <= Last(from, requests) + 1
    ensures Rising(from, requests + [d]) && Last(from, requests + [d]) == d
  {
    forall i | 0 <= i <= |requests|
      ensures Before(from, requests + [d], i) <= (requests + [d])[i] <= Before(from, requests + [d], i) + 1
    {
      if i < |requests| { assert Before(from, requests + [d], i) == Before(from, requests, i); }
    }
  }

  /** Reading an image in order gives a rising run, so every run in image order behaves as `Arrives` says. */
  lemma {:induction false} ImageOrderRises(zeros: seq<Byte>, lo: nat, hi: nat)
    requires lo <= hi <= 8 * |zeros|
    ensures Rising(DisketteAfter(Rank(zeros, lo)), Requests(zeros, lo, hi))
    ensures Last(DisketteAfter(Rank(zeros, lo)), Requests(zeros, lo, hi)) == DisketteAfter(Rank(zeros, hi))
    decreases hi
  {
    if lo < hi {
      ImageOrderRises(zeros, lo, hi - 1);
      var from, before := DisketteAfter(Rank(zeros, lo)), Requests(zeros, lo, hi - 1);
      if IsZero(zeros, hi - 1) {
        assert before + [] == before;
      } else {
        RisingAppend(from, before, Rank(zeros, hi - 1) / VOLUME_SECTORS);
      }
    }
  }

  /** One more sector of the image in order, from a run that has gone well so far: the right diskette is in the
      drive afterwards. */
  lemma {:induction false} NextInOrder(s: Drive, zeros: seq<Byte>, lba: nat, t: Drive)
    requires lba < 8 * |zeros| && DriveOk(s) && Synced(s) && s.current == 0
    requires (Done, t) == Run(s, Requests(zeros, 0, lba))
    ensures IsZero(zeros, lba) ==> (Done, t) == Run(s, Requests(zeros, 0, lba + 1))
    ensures !IsZero(zeros, lba) ==>
              var d := Rank(zeros, lba) / VOLUME_SECTORS;
              && t.inserted < MAX_DISKETTES
              && Serve(t, d) == Run(s, Requests(zeros, 0, lba + 1))
              && (Serve(t, d).0.Done? ==> Serve(t, d).1.inserted == d)
  {
    var before := Requests(zeros, 0, lba);
    if IsZero(zeros, lba) {
      assert before + [] == before;
    } else {
      var d := Rank(zeros, lba) / VOLUME_SECTORS;
      RunStep(s, before, d);
      ImageOrderRises(zeros, 0, lba + 1);
      RisingRun(s, before + [d]);
    }
  }

  /** The first four sectors come from diskette 1, which is in the drive. */
  lemma {:induction false} FirstRequests(s: Drive, zeros: seq<Byte>, l: nat)
    requires l <= 4 && l <= 8 * |zeros| && DriveOk(s) && s.current == 0
    ensures Run(s, Requests(zeros, 0, l)) == (Done, s)
  {
    if l > 0 {
      FirstRequests(s, zeros, l - 1);
      var before := Requests(zeros, 0, l - 1);
      if IsZero(zeros, l - 1) {
        assert before + [] == before;
      } else {
        RunStep(s, before, Rank(zeros, l - 1) / VOLUME_SECTORS);
      }
    }
  }

  /** A run that has stopped for a sector has stopped for all that follow. */
  lemma {:induction false} StoppedInOrder(s: Drive, zeros: seq<Byte>, lba: nat, hi: nat)
    requires lba <= hi <= 8 * |zeros| && DriveOk(s) && !Run(s, Requests(zeros, 0, lba)).0.Done?
    ensures Run(s, Requests(zeros, 0, hi)) == Run(s, Requests(zeros, 0, lba))
    decreases hi
  {
    if lba < hi {
      StoppedInOrder(s, zeros, lba, hi - 1);
      var before := Requests(zeros, 0, hi - 1);
      if IsZero(zeros, hi - 1) {
        assert before + [] == before;
      } else {
        RunStuck(s, before, [Rank(zeros, hi - 1) / VOLUME_SECTORS]);
      }
    }
  }

  /** The prompts of a whole reading in numbers: for the second diskette if there are more than 2600 sectors, and so
      on. */
  lemma {:induction false} PromptsExactly(r: nat, i: nat)
    ensures |Upto(0, DisketteAfter(r))| == if r == 0 then 0 else (r - 1) / 2600
    ensures i < |Upto(0, DisketteAfter(r))| ==> Upto(0, DisketteAfter(r))[i] == i + 1
  {
  }

  // --- the run as a trace ------------------------------------------------------------

  type Trace = seq<(Outcome, Drive)>

  /** Entry `l` of a trace is where the run stands after the first `l` sectors of the image. */
  ghost predicate TraceEntry(trace: Trace, s: Drive, zeros: seq<Byte>, l: nat)
    requires l < |trace| && l <= 8 * |zeros| && DriveOk(s)
  {
    trace[l] == Run(s, Requests(zeros, 0, l))
  }

  ghost predicate IsTrace(trace: Trace, s: Drive, zeros: seq<Byte>) {
    && DriveOk(s) && Synced(s) && s.current == 0
    && |trace| == 8 * |zeros| + 1
    && forall l {:trigger TraceEntry(trace, s, zeros, l)} :: 0 <= l < |trace| ==> TraceEntry(trace, s, zeros, l)
  }

  lemma {:induction false} TraceExists(s: Drive, zeros: seq<Byte>, n: nat) returns (trace: Trace)
    requires DriveOk(s) && n <= 8 * |zeros|
    ensures |trace| == n + 1 && forall l :: 0 <= l <= n ==> TraceEntry(trace, s, zeros, l)
  {
    if n == 0 {
      trace := [Run(s, Requests(zeros, 0, 0))];
    } else {
      var before := TraceExists(s, zeros, n - 1);
      trace := before + [Run(s, Requests(zeros, 0, n))];
      forall l | 0 <= l <= n
        ensures TraceEntry(trace, s, zeros, l)
      {
        if l < n { assert TraceEntry(before, s, zeros, l); }
      }
    }
  }

  /** A whole reading of an image, from diskette 1 in the drive on: it ends well exactly when the image has
      no more than 20800 non-zero sectors and the operator offers the later diskettes in order; each of them
      is then asked for once, in order. */
  lemma {:induction false} ImageRun(zeros: seq<Byte>, script: seq<nat>)
    requires forall i :: 0 <= i < |script| ==> script[i] < MAX_DISKETTES
    ensures var last := DisketteAfter(Rank(zeros, 8 * |zeros|));
            var (o, t) := Run(Drive(0, 0, script, []), Requests(zeros, 0, 8 * |zeros|));
            && (o.Done? <==> Rank(zeros, 8 * |zeros|) <= 20800 && Offers(script, 0, last).Some?)
            && (o.Done? ==> t.current == t.inserted == last && t.prompts == Upto(0, last))
            && (o.Halted? ==> Rank(zeros, 8 * |zeros|) > 20800)
  {
    ImageOrderRises(zeros, 0, 8 * |zeros|);
    RisingRun(Drive(0, 0, script, []), Requests(zeros, 0, 8 * |zeros|));
    assert [] + Upto(0, DisketteAfter(Rank(zeros, 8 * |zeros|))) == Upto(0, DisketteAfter(Rank(zeros, 8 * |zeros|)));
  }
}
